/**
 * Turning a coloured buffer into an image (`plot_elf_files`): with a row
 * width `w`, the height is `len / w`, the buffer is cut to `w * h` pixels
 * and split into `h` rows of `w`.
 *
 * The width comes from a floating-point square root in the source and is
 * a parameter here; the source divides by it unchecked, so `w > 0` is
 * required.
 */
module Shape {
  /** `h = int(len / w)`: the most full rows of width `w` the buffer holds. */
  function Height(length: nat, w: nat): (h: nat)
    requires w > 0
    ensures w * h <= length < w * (h + 1)
  {
    length / w
  }

  /** The rows laid end to end. */
  function Flatten<T>(rows: seq<seq<T>>): seq<T>
  {
    if rows == [] then [] else rows[0] + Flatten(rows[1..])
  }

  /** `reshape(h, w, ...)`: `h` consecutive runs of `w` elements become the rows. */
  function Reshape<T>(s: seq<T>, w: nat, h: nat): (rows: seq<seq<T>>)
    requires w > 0 && |s| == w * h
    ensures |rows| == h
    ensures forall r :: 0 <= r < h ==> |rows[r]| == w
    decreases h
  {
    if h == 0 then []
    else
      assert |s[w..]| == w * (h - 1);
      [s[..w]] + Reshape(s[w..], w, h - 1)
  }

  /** Row `r`, column `c` of the image is element `r * w + c` of the buffer. */
  lemma {:induction false} ReshapeAt<T>(s: seq<T>, w: nat, h: nat, r: nat, c: nat)
    requires w > 0 && |s| == w * h && r < h && c < w
    ensures r * w + c < |s| && Reshape(s, w, h)[r][c] == s[r * w + c]
    decreases r
  {
    assert |s[w..]| == w * (h - 1);
    if r > 0 {
      ReshapeAt(s[w..], w, h - 1, r - 1, c);
      assert (r - 1) * w + c + w == r * w + c;
    } else {
      assert r * w == 0;
    }
  }

  /** Reshaping loses and reorders nothing: the rows read back give the input. */
  lemma {:induction false} FlattenReshape<T>(s: seq<T>, w: nat, h: nat)
    requires w > 0 && |s| == w * h
    ensures Flatten(Reshape(s, w, h)) == s
    decreases h
  {
    if h > 0 {
      assert |s[w..]| == w * (h - 1);
      FlattenReshape(s[w..], w, h - 1);
      assert Reshape(s, w, h)[1..] == Reshape(s[w..], w, h - 1);
    }
  }

  /**
   * Lines 177-179 of `plot_elf_files`: truncate to `w * h` elements, then
   * reshape to `h` rows of width `w`.
   */
  function ShapeImage<T>(buffer: seq<T>, w: nat): (image: seq<seq<T>>)
    requires w > 0
    ensures |image| == Height(|buffer|, w)
    ensures forall r :: 0 <= r < |image| ==> |image[r]| == w
    ensures Flatten(image) == buffer[..w * Height(|buffer|, w)]
  {
    var h := Height(|buffer|, w);
    var kept := buffer[..w * h];
    FlattenReshape(kept, w, h);
    Reshape(kept, w, h)
  }

  /** Pixel `(r, c)` of the image is buffer element `r * w + c`, which lies before the cut. */
  lemma ShapeImageAt<T>(buffer: seq<T>, w: nat, r: nat, c: nat)
    requires w > 0 && r < Height(|buffer|, w) && c < w
    ensures r * w + c < w * Height(|buffer|, w) <= |buffer|
    ensures ShapeImage(buffer, w)[r][c] == buffer[r * w + c]
  {
    var h := Height(|buffer|, w);
    ReshapeAt(buffer[..w * h], w, h, r, c);
  }
}
