/**
 * Bringing all files to one length before colouring: `get_max_length`,
 * `pad_array`, and the loop of `main` that pads every file's bytes with
 * zeros up to the longest file's length.
 */
module Padding {
  import opened Bytes

  /**
   * `m` is the result `get_max_length` gives for `arrays`: no array is
   * longer, and it is the length of one of them (0 when there are none).
   */
  predicate IsMaxLength<T>(arrays: seq<array<T>>, m: nat)
  {
    && (forall a :: a in arrays ==> a.Length <= m)
    && ((arrays == [] && m == 0) || exists a :: a in arrays && a.Length == m)
  }

  /** `get_max_length`: a running maximum of the lengths, starting at 0. */
  method MaxLength<T>(arrays: seq<array<T>>) returns (maxLength: nat)
    ensures IsMaxLength(arrays, maxLength)
  {
    maxLength := 0;
    for i := 0 to |arrays|
      invariant forall m :: 0 <= m < i ==> arrays[m].Length <= maxLength
      invariant (i == 0 && maxLength == 0) || exists m :: 0 <= m < i && arrays[m].Length == maxLength
    {
      var size := arrays[i].Length;
      if size > maxLength {
        maxLength := size;
      }
    }
    assert forall a :: a in arrays ==> exists m :: 0 <= m < |arrays| && arrays[m] == a;
  }

  /** The maximum does not depend on the order of the arrays: any two results for permuted inputs agree. */
  lemma MaxLengthOrderFree<T>(a: seq<array<T>>, b: seq<array<T>>, ma: nat, mb: nat)
    requires multiset(a) == multiset(b)
    requires IsMaxLength(a, ma) && IsMaxLength(b, mb)
    ensures ma == mb
  {
    assert forall x :: x in a <==> x in b by {
      forall x
        ensures x in a <==> x in b
      {
        assert x in a <==> x in multiset(a);
        assert x in b <==> x in multiset(b);
      }
    }
    if a != [] {
      assert a[0] in a && b != [];
    }
  }

  /** `n` zero bytes. */
  function Zeros(n: nat): (z: seq<byte>)
    ensures |z| == n && forall i :: 0 <= i < n ==> z[i] == 0
  {
    seq(n, _ => 0)
  }

  /**
   * `pad_array`: a fresh zero array of the given length with `array` copied
   * to its front.  The source's slice assignment fails when `array` is
   * longer than `length`; its one caller never does that.
   */
  method PadArray(a: array<byte>, length: nat) returns (result: array<byte>)
    requires a.Length <= length
    ensures fresh(result) && result.Length == length
    ensures result[..a.Length] == a[..]
    ensures forall i :: a.Length <= i < length ==> result[i] == 0
    ensures result[..] == a[..] + Zeros(length - a.Length)
  {
    result := new byte[length](_ => 0);
    forall i | 0 <= i < a.Length {
      result[i] := a[i];
    }
  }

  /**
   * The lines of `main` that pad: compute the maximum over the loaded
   * arrays, then replace every file's array by its padded copy.  A file
   * named twice is padded twice, to the same result.
   */
  method EqualiseLengths(filenames: seq<string>, data: map<string, array<byte>>)
    returns (padded: map<string, array<byte>>, maxLength: nat)
    requires forall f :: f in data <==> f in filenames
    ensures padded.Keys == data.Keys
    ensures forall f :: f in data ==> data[f].Length <= maxLength
    ensures (data == map[] && maxLength == 0) || exists f :: f in data && data[f].Length == maxLength
    ensures forall f :: f in padded ==> PaddedTo(padded[f], data[f], maxLength)
  {
    var values := seq(|filenames|, i requires 0 <= i < |filenames| => data[filenames[i]]);
    maxLength := MaxLength(values);
    forall f | f in data
      ensures data[f].Length <= maxLength
    {
      var i :| 0 <= i < |filenames| && filenames[i] == f;
      assert values[i] == data[f];
    }
    if values != [] {
      var a :| a in values && a.Length == maxLength;
      var i :| 0 <= i < |values| && values[i] == a;
      assert filenames[i] in data && data[filenames[i]].Length == maxLength;
    }
    padded := PadAll(filenames, data, maxLength);
  }

  /** `a` is `orig` padded with zeros to `length`. */
  ghost predicate PaddedTo(a: array<byte>, orig: array<byte>, length: nat)
    reads a, orig
  {
    && a.Length == length
    && orig.Length <= length
    && a[..] == orig[..] + Zeros(length - orig.Length)
  }

  /** The loop `for f in filenames: data[f] = pad_array(data[f], max_length)`. */
  method PadAll(filenames: seq<string>, data: map<string, array<byte>>, maxLength: nat)
    returns (padded: map<string, array<byte>>)
    requires forall f :: f in data <==> f in filenames
    requires forall f :: f in data ==> data[f].Length <= maxLength
    ensures padded.Keys == data.Keys
    ensures forall f :: f in padded ==> PaddedTo(padded[f], data[f], maxLength)
  {
    padded := data;
    for i := 0 to |filenames|
      invariant padded.Keys == data.Keys
      invariant forall f :: f in padded && f in filenames[..i] ==> PaddedTo(padded[f], data[f], maxLength)
      invariant forall f :: f in padded && f !in filenames[..i] ==> padded[f] == data[f]
    {
      var f := filenames[i];
      var a := PadArray(padded[f], maxLength);
      padded := padded[f := a];
      assert filenames[..i + 1] == filenames[..i] + [f];
    }
    assert filenames[..|filenames|] == filenames;
  }
}
