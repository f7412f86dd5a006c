/**
 * Colouring one file's bytes (`colorize_data`).  The byte buffer is first
 * spread into grey RGB pixels; then, part by part in list order, every pixel
 * of `[offset, offset + length)` that lies inside the buffer is multiplied by
 * the part's palette colour, and the part's name and palette index go into
 * the legend.
 *
 * The palette itself (`cm.rainbow` over evenly spaced points) and the
 * floating-point multiply-and-truncate are not modelled: colours are palette
 * indices, and tinting a pixel with palette colour `j` is the parameter
 * `tint`.
 */
module Colorize {
  import opened Bytes
  import opened Parts
  import opened ColorStep

  /** One RGB pixel of the colourised buffer. */
  datatype Pixel = Pixel(r: byte, g: byte, b: byte)

  /** Multiplying a pixel by colour `j` of one file's palette and casting back to `uint8`. */
  type Tint = (Pixel, nat) -> Pixel

  /**
   * Multiplying a pixel by colour `j` of the `n`-colour palette that
   * `cm.rainbow` spreads over `n` evenly spaced points, then casting back.
   * Each file builds its palette from its own part count, so colour `j`
   * differs between files with different counts.
   */
  type PaletteTint = (Pixel, nat, nat) -> Pixel

  /** The palette of a file with `numParts` parts. */
  function FilePalette(tint: PaletteTint, numParts: nat): Tint
  {
    (p: Pixel, j: nat) => tint(p, j, numParts)
  }

  /** A byte shown as grey: the same value in all three channels. */
  function Gray(v: byte): Pixel
  {
    Pixel(v, v, v)
  }

  /** Position `k` lies inside the part's byte range. */
  predicate Covers(part: Part, k: int)
  {
    part.offset <= k < part.offset + part.length
  }

  /**
   * The pixel at position `k` after the parts have been applied in order to
   * the starting pixel `v`, part `i` with palette colour `colors[i]`.
   */
  function Painted(v: Pixel, k: int, parts: seq<Part>, colors: seq<nat>, tint: Tint): Pixel
    requires |colors| == |parts|
    decreases |parts|
  {
    if parts == [] then v
    else
      var last := |parts| - 1;
      var before := Painted(v, k, parts[..last], colors[..last], tint);
      if Covers(parts[last], k) then tint(before, colors[last]) else before
  }

  /** A position no part covers keeps its pixel. */
  lemma {:induction false} UncoveredKeepsPixel(v: Pixel, k: int, parts: seq<Part>, colors: seq<nat>, tint: Tint)
    requires |colors| == |parts|
    requires forall p :: p in parts ==> !Covers(p, k)
    ensures Painted(v, k, parts, colors, tint) == v
    decreases |parts|
  {
    if parts != [] {
      var last := |parts| - 1;
      assert forall p :: p in parts[..last] ==> p in parts;
      assert parts[last] in parts;
      UncoveredKeepsPixel(v, k, parts[..last], colors[..last], tint);
    }
  }

  /**
   * A pixel that every palette colour leaves unchanged (black, since the
   * tint multiplies by a colour in [0, 1] and truncates) stays unchanged,
   * however many parts cover its position.
   */
  lemma {:induction false} FixedPixelKept(v: Pixel, k: int, parts: seq<Part>, colors: seq<nat>, tint: Tint)
    requires |colors| == |parts|
    requires forall j :: tint(v, j) == v
    ensures Painted(v, k, parts, colors, tint) == v
    decreases |parts|
  {
    if parts != [] {
      var last := |parts| - 1;
      FixedPixelKept(v, k, parts[..last], colors[..last], tint);
    }
  }

  /** A position covered by exactly one part is tinted once, with that part's colour. */
  lemma {:induction false} CoveredOnceTinted(v: Pixel, k: int, parts: seq<Part>, colors: seq<nat>, tint: Tint, i: nat)
    requires |colors| == |parts| && i < |parts|
    requires Covers(parts[i], k)
    requires forall m :: 0 <= m < |parts| && m != i ==> !Covers(parts[m], k)
    ensures Painted(v, k, parts, colors, tint) == tint(v, colors[i])
    decreases |parts|
  {
    var last := |parts| - 1;
    if i == last {
      forall p | p in parts[..last]
        ensures !Covers(p, k)
      {
        var m :| 0 <= m < last && parts[..last][m] == p;
        assert parts[m] == p;
      }
      UncoveredKeepsPixel(v, k, parts[..last], colors[..last], tint);
    } else {
      CoveredOnceTinted(v, k, parts[..last], colors[..last], tint, i);
    }
  }

  /**
   * `np.stack((data, data, data), axis=1)`: every byte becomes a grey pixel.
   */
  method Replicate(data: seq<byte>) returns (rgb: array<Pixel>)
    ensures fresh(rgb) && rgb.Length == |data|
    ensures forall k :: 0 <= k < |data| ==> rgb[k] == Gray(data[k])
  {
    rgb := new Pixel[|data|](k requires 0 <= k < |data| => Gray(data[k]));
  }

  /**
   * The colouring loop of `colorize_data`: part `i` gets palette index
   * `(i * division) % num_parts`, the slice `buf[offset:offset+length]`
   * (cut off at the end of the buffer) is tinted with it in place, and the
   * name and index are appended to the legend.
   */
  method Colorize(buf: array<Pixel>, parts: seq<Part>, division: int, tint: Tint)
    returns (legendNames: seq<string>, legendColors: seq<nat>)
    modifies buf
    ensures |legendNames| == |parts| && forall i :: 0 <= i < |parts| ==> legendNames[i] == parts[i].name
    ensures |legendColors| == |parts|
    ensures forall i :: 0 <= i < |parts| ==> legendColors[i] == PaletteIndex(i, division, |parts|)
    ensures forall k :: 0 <= k < buf.Length ==> buf[k] == Painted(old(buf[k]), k, parts, legendColors, tint)
  {
    legendNames, legendColors := [], [];
    var numParts := |parts|;
    for i := 0 to numParts
      invariant |legendNames| == i && forall m :: 0 <= m < i ==> legendNames[m] == parts[m].name
      invariant |legendColors| == i && forall m :: 0 <= m < i ==> legendColors[m] == PaletteIndex(m, division, numParts)
      invariant forall k :: 0 <= k < buf.Length ==> buf[k] == Painted(old(buf[k]), k, parts[..i], legendColors, tint)
    {
      var part := parts[i];
      var j := PaletteIndex(i, division, numParts);
      var lo := if part.offset < buf.Length then part.offset else buf.Length;
      var hi := if part.offset + part.length < buf.Length then part.offset + part.length else buf.Length;
      var k := lo;
      while k < hi
        invariant lo <= k <= hi
        invariant forall q :: 0 <= q < buf.Length ==>
          buf[q] == if lo <= q < k then tint(Painted(old(buf[q]), q, parts[..i], legendColors, tint), j)
                    else Painted(old(buf[q]), q, parts[..i], legendColors, tint)
      {
        buf[k] := tint(buf[k], j);
        k := k + 1;
      }
      var colors' := legendColors + [j];
      forall q | 0 <= q < buf.Length
        ensures buf[q] == Painted(old(buf[q]), q, parts[..i + 1], colors', tint)
      {
        assert parts[..i + 1][..i] == parts[..i];
        assert colors'[..i] == legendColors;
      }
      legendNames := legendNames + [part.name];
      legendColors := colors';
    }
    assert parts[..numParts] == parts;
  }

  /** The part names, in order. */
  function Names(parts: seq<Part>): (names: seq<string>)
    ensures |names| == |parts|
    ensures forall i :: 0 <= i < |parts| ==> names[i] == parts[i].name
  {
    if parts == [] then [] else [parts[0].name] + Names(parts[1..])
  }

  /**
   * What the loop body of `colorize_data` produces for one file with
   * directory `dir` when it steps through the palette by `step`: a pixel
   * buffer as long as the bytes, where each pixel is the grey byte with
   * the surviving parts applied in order, tinted from this file's palette,
   * and a legend listing those parts' names and part `i`'s palette index
   * `(i * step) % num_parts`.
   */
  ghost predicate ColoredWithStep(data: seq<byte>, dir: ElfDirectory, tint: PaletteTint, step: int,
                                  rgb: seq<Pixel>, legendNames: seq<string>, legendColors: seq<nat>)
  {
    var parts := KeepNonEmpty(AllParts(dir));
    && |rgb| == |data|
    && legendNames == Names(parts)
    && |legendColors| == |parts|
    && (forall i :: 0 <= i < |legendColors| ==> legendColors[i] == PaletteIndex(i, step, |parts|))
    && (forall k :: 0 <= k < |data| ==>
          rgb[k] == Painted(Gray(data[k]), k, parts, legendColors, FilePalette(tint, |parts|)))
  }

  /**
   * `colorize_data` for one file as written: the step is the one
   * `get_optimal_color_division` returns, the candidate `int((n-1)/3)`
   * (for 0 parts the source's -1 is never used, as no part is indexed).
   */
  ghost predicate FileColorized(data: seq<byte>, dir: ElfDirectory, tint: PaletteTint,
                                rgb: seq<Pixel>, legendNames: seq<string>, legendColors: seq<nat>)
  {
    ColoredWithStep(data, dir, tint, Candidate(|KeepNonEmpty(AllParts(dir))|), rgb, legendNames, legendColors)
  }

  /**
   * `colorize_data` for one file: grey pixels, the part list with empty
   * parts dropped, the colour step as written, then the colouring loop
   * with this file's palette.  The step returns only when its first test
   * passes, which the precondition states.  Bytes outside every part stay
   * grey.
   */
  method ColorizeFile(data: seq<byte>, dir: ElfDirectory, tint: PaletteTint)
    returns (rgb: array<Pixel>, legendNames: seq<string>, legendColors: seq<nat>)
    requires StepTestPasses(|KeepNonEmpty(AllParts(dir))|)
    ensures fresh(rgb)
    ensures FileColorized(data, dir, tint, rgb[..], legendNames, legendColors)
    ensures forall k :: 0 <= k < |data| && (forall p :: p in KeepNonEmpty(AllParts(dir)) ==> !Covers(p, k)) ==>
      rgb[k] == Gray(data[k])
  {
    rgb := Replicate(data);
    var all := BuildParts(dir);
    var parts := KeepNonEmpty(all);
    var numParts := |parts|;
    var division := OptimalColorDivision(numParts);
    legendNames, legendColors := Colorize(rgb, parts, division, FilePalette(tint, numParts));
    forall k | 0 <= k < |data| && (forall p :: p in parts ==> !Covers(p, k))
      ensures rgb[k] == Gray(data[k])
    {
      UncoveredKeepsPixel(Gray(data[k]), k, parts, legendColors, FilePalette(tint, numParts));
    }
  }

  /**
   * As written, one file's legend indices are pairwise different exactly
   * when there are no parts or the step and the part count are coprime;
   * with 20 parts they are not.
   */
  lemma FileColorsDistinct(data: seq<byte>, dir: ElfDirectory, tint: PaletteTint,
                           rgb: seq<Pixel>, legendNames: seq<string>, legendColors: seq<nat>)
    requires FileColorized(data, dir, tint, rgb, legendNames, legendColors)
    ensures (forall i, j :: 0 <= i < j < |legendColors| ==> legendColors[i] != legendColors[j]) <==>
      (|KeepNonEmpty(AllParts(dir))| == 0 ||
       Gcd(Candidate(|KeepNonEmpty(AllParts(dir))|), |KeepNonEmpty(AllParts(dir))|) == 1)
  {
    var n := |KeepNonEmpty(AllParts(dir))|;
    var step := Candidate(n);
    if n > 0 && Gcd(step, n) != 1 {
      SharedFactorRepeats(step, n);
      var i, j :| 0 <= i < j < n && PaletteIndex(i, step, n) == PaletteIndex(j, step, n);
      assert legendColors[i] == legendColors[j];
    } else {
      forall i, j | 0 <= i < j < |legendColors|
        ensures legendColors[i] != legendColors[j]
      {
        CoprimePairDiffers(i, j, step, n);
      }
    }
  }

  /**
   * The same file with the corrected step: it always returns, the step is
   * the least one from the candidate `int((n-1)/3)` up that is coprime
   * with the part count `n` (-1 for no parts), and the legend's palette
   * indices are pairwise different.
   */
  method ColorizeFileCoprime(data: seq<byte>, dir: ElfDirectory, tint: PaletteTint)
    returns (rgb: array<Pixel>, legendNames: seq<string>, legendColors: seq<nat>, division: int)
    ensures fresh(rgb)
    ensures ColoredWithStep(data, dir, tint, division, rgb[..], legendNames, legendColors)
    ensures |KeepNonEmpty(AllParts(dir))| == 0 ==> division == -1
    ensures var n := |KeepNonEmpty(AllParts(dir))|;
      n > 0 ==> Candidate(n) <= division < n && Gcd(division, n) == 1
    ensures var n := |KeepNonEmpty(AllParts(dir))|;
      n > 0 ==> forall k :: Candidate(n) <= k < division ==> Gcd(k, n) != 1
    ensures forall i, j :: 0 <= i < j < |legendColors| ==> legendColors[i] != legendColors[j]
  {
    rgb := Replicate(data);
    var all := BuildParts(dir);
    var parts := KeepNonEmpty(all);
    var numParts := |parts|;
    division := CoprimeColorDivision(numParts);
    legendNames, legendColors := Colorize(rgb, parts, division, FilePalette(tint, numParts));
  }

  /**
   * Every file in `pixels` is coloured as `ColorizeFile` promises, from its
   * bytes in `data` and its ELF directory in `elf`.
   */
  ghost predicate AllColorized(data: map<string, seq<byte>>, elf: map<string, ElfDirectory>, tint: PaletteTint,
                               pixels: map<string, seq<Pixel>>,
                               legendNames: map<string, seq<string>>,
                               legendColors: map<string, seq<nat>>)
  {
    && pixels.Keys <= data.Keys && pixels.Keys <= elf.Keys
    && legendNames.Keys == pixels.Keys && legendColors.Keys == pixels.Keys
    && forall f :: f in pixels ==>
         FileColorized(data[f], elf[f], tint, pixels[f], legendNames[f], legendColors[f])
  }

  /** Colouring one more file keeps the others as they were. */
  lemma AllColorizedExtend(data: map<string, seq<byte>>, elf: map<string, ElfDirectory>, tint: PaletteTint,
                           pixels: map<string, seq<Pixel>>,
                           legendNames: map<string, seq<string>>,
                           legendColors: map<string, seq<nat>>,
                           f: string, rgb: seq<Pixel>, names: seq<string>, colors: seq<nat>)
    requires AllColorized(data, elf, tint, pixels, legendNames, legendColors)
    requires f in data && f in elf && FileColorized(data[f], elf[f], tint, rgb, names, colors)
    ensures AllColorized(data, elf, tint, pixels[f := rgb], legendNames[f := names], legendColors[f := colors])
  {
  }

  /**
   * The loop of `colorize_data` over all files: every file is coloured on
   * its own, and the three result dictionaries get one entry per file.
   */
  method ColorizeAll(data: map<string, seq<byte>>, elf: map<string, ElfDirectory>, tint: PaletteTint)
    returns (resData: map<string, array<Pixel>>,
             legendNames: map<string, seq<string>>,
             legendColors: map<string, seq<nat>>)
    requires data.Keys <= elf.Keys
    requires forall f :: f in data ==> StepTestPasses(|KeepNonEmpty(AllParts(elf[f]))|)
    ensures forall f :: f in resData <==> f in data
    ensures forall f :: f in legendNames <==> f in data
    ensures forall f :: f in legendColors <==> f in data
    ensures forall f :: f in data ==>
      FileColorized(data[f], elf[f], tint, resData[f][..], legendNames[f], legendColors[f])
  {
    ghost var pixels: map<string, seq<Pixel>> := map[];
    resData, legendNames, legendColors := map[], map[], map[];
    var todo := data.Keys;
    while todo != {}
      invariant todo <= data.Keys
      invariant forall g :: g in resData <==> g in data && g !in todo
      invariant forall g :: g in pixels <==> g in resData
      invariant forall g :: g in resData ==> resData[g][..] == pixels[g]
      invariant AllColorized(data, elf, tint, pixels, legendNames, legendColors)
      decreases |todo|
    {
      var f :| f in todo;
      var rgb, names, colors := ColorizeFile(data[f], elf[f], tint);
      AllColorizedExtend(data, elf, tint, pixels, legendNames, legendColors, f, rgb[..], names, colors);
      resData := resData[f := rgb];
      pixels := pixels[f := rgb[..]];
      legendNames := legendNames[f := names];
      legendColors := legendColors[f := colors];
      todo := todo - {f};
    }
  }
}
