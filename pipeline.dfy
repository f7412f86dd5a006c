/**
 * The data path of `main`: every file is padded with zero bytes to the
 * length of the longest one, then all files are coloured.  Loading the
 * files, checking the command line and plotting are not part of this
 * module; `data` and `elf` stand for what the loader returns.
 */
module Pipeline {
  import opened Bytes
  import opened Parts
  import opened Padding
  import opened ColorStep
  import opened Colorize

  /**
   * Pad every file to the longest length, then colour every file.  The
   * coloured images all have that same length, and each one is the
   * colouring of the file's own bytes followed by zeros.
   */
  method Prepare(filenames: seq<string>, data: map<string, array<byte>>,
                 elf: map<string, ElfDirectory>, tint: PaletteTint)
    returns (images: map<string, array<Pixel>>,
             legendNames: map<string, seq<string>>,
             legendColors: map<string, seq<nat>>,
             maxLength: nat)
    requires forall f :: f in data <==> f in filenames
    requires data.Keys <= elf.Keys
    requires forall f :: f in data ==> StepTestPasses(|KeepNonEmpty(AllParts(elf[f]))|)
    ensures forall f :: f in images <==> f in data
    ensures forall f :: f in legendNames <==> f in data
    ensures forall f :: f in legendColors <==> f in data
    ensures forall f :: f in data ==> data[f].Length <= maxLength
    ensures (data == map[] && maxLength == 0) || exists f :: f in data && data[f].Length == maxLength
    ensures forall f :: f in images ==> images[f].Length == maxLength
    ensures forall f :: f in data ==>
      FileColorized(data[f][..] + Zeros(maxLength - data[f].Length), elf[f], tint,
                    images[f][..], legendNames[f], legendColors[f])
  {
    var padded;
    padded, maxLength := EqualiseLengths(filenames, data);
    var bytes := map f | f in padded :: padded[f][..];
    forall f | f in data
      ensures |bytes[f]| == maxLength && bytes[f] == data[f][..] + Zeros(maxLength - data[f].Length)
    {
      assert PaddedTo(padded[f], data[f], maxLength);
    }
    images, legendNames, legendColors := ColorizeAll(bytes, elf, tint);
    forall f | f in images
      ensures images[f].Length == maxLength
    {
      assert FileColorized(bytes[f], elf[f], tint, images[f][..], legendNames[f], legendColors[f]);
    }
  }

  /**
   * Every padding byte is shown black: zero in all three channels, even
   * where a part reaches past the file's own bytes (a section counted by
   * size that has no bytes in the file), because tinting black with any
   * palette colour gives black again.
   */
  lemma PaddingStaysBlack(bytes: seq<byte>, length: nat, dir: ElfDirectory, tint: PaletteTint,
                          rgb: seq<Pixel>, legendNames: seq<string>, legendColors: seq<nat>, k: nat)
    requires |bytes| <= length
    requires forall j, n :: tint(Pixel(0, 0, 0), j, n) == Pixel(0, 0, 0)
    requires FileColorized(bytes + Zeros(length - |bytes|), dir, tint, rgb, legendNames, legendColors)
    requires |bytes| <= k < length
    ensures rgb[k] == Pixel(0, 0, 0)
  {
    var padded := bytes + Zeros(length - |bytes|);
    assert padded[k] == 0;
    var parts := KeepNonEmpty(AllParts(dir));
    var palette := FilePalette(tint, |parts|);
    assert forall j :: palette(Gray(0), j) == Gray(0);
    FixedPixelKept(Gray(0), k, parts, legendColors, palette);
  }
}
