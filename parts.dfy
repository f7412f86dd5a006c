/**
 * The parts of an ELF file, as `colorize_data` reconstructs them: the ELF
 * header at offset 0, then every section laid out contiguously after it by
 * its data size (its own `sh_offset` is ignored), then one program-header
 * entry and one section-header entry at their absolute offsets.  Parts of
 * length 0 are dropped.
 *
 * The header fields are those of the "ELF Header" of the System V ABI
 * (`e_ehsize`, `e_phoff`, `e_phentsize`, `e_shoff`, `e_shentsize`); reading
 * them from the file is not part of this model, they are plain inputs.
 */
module Parts {

  /** A section as the ELF reader lists it: its name and its data size. */
  datatype Section = Section(name: string, dataSize: nat)

  /** The header fields and section list the part layout is built from. */
  datatype ElfDirectory = ElfDirectory(
    ehsize: nat,
    sections: seq<Section>,
    phoff: nat,
    phentsize: nat,
    shoff: nat,
    shentsize: nat)

  /** A named byte range `[offset, offset + length)` of the file. */
  datatype Part = Part(name: string, offset: nat, length: nat)

  /** Total data size of a list of sections (summed from the back, as offsets accumulate). */
  function SumSizes(sections: seq<Section>): nat
  {
    if sections == [] then 0 else SumSizes(sections[..|sections| - 1]) + sections[|sections| - 1].dataSize
  }

  function SumLengths(parts: seq<Part>): nat
  {
    if parts == [] then 0 else parts[0].length + SumLengths(parts[1..])
  }

  /** Section k starts where the sections before it end, counting from `start`. */
  function SectionParts(sections: seq<Section>, start: nat): seq<Part>
  {
    seq(|sections|, k requires 0 <= k < |sections| =>
      Part(sections[k].name, start + SumSizes(sections[..k]), sections[k].dataSize))
  }

  /** The part list before the zero-length filter, in closed form. */
  function AllParts(dir: ElfDirectory): seq<Part>
  {
    [Part("Ehdr", 0, dir.ehsize)]
    + SectionParts(dir.sections, dir.ehsize)
    + [Part("Phdr", dir.phoff, dir.phentsize), Part("Shdr", dir.shoff, dir.shentsize)]
  }

  /**
   * The layout of the unfiltered list: the ELF header first, one part per
   * section in section order, each starting where the previous part ends,
   * section offsets running from `e_ehsize`, and the two table entries last.
   */
  lemma AllPartsLayout(dir: ElfDirectory)
    ensures |AllParts(dir)| == |dir.sections| + 3
    ensures AllParts(dir)[0] == Part("Ehdr", 0, dir.ehsize)
    ensures forall k :: 0 <= k < |dir.sections| ==>
      && AllParts(dir)[k + 1].name == dir.sections[k].name
      && AllParts(dir)[k + 1].length == dir.sections[k].dataSize
      && AllParts(dir)[k + 1].offset == dir.ehsize + SumSizes(dir.sections[..k])
      && AllParts(dir)[k + 1].offset == AllParts(dir)[k].offset + AllParts(dir)[k].length
    ensures AllParts(dir)[|dir.sections| + 1] == Part("Phdr", dir.phoff, dir.phentsize)
    ensures AllParts(dir)[|dir.sections| + 2] == Part("Shdr", dir.shoff, dir.shentsize)
  {
    forall k | 0 <= k < |dir.sections|
      ensures
        && AllParts(dir)[k + 1].name == dir.sections[k].name
        && AllParts(dir)[k + 1].length == dir.sections[k].dataSize
        && AllParts(dir)[k + 1].offset == dir.ehsize + SumSizes(dir.sections[..k])
        && AllParts(dir)[k + 1].offset == AllParts(dir)[k].offset + AllParts(dir)[k].length
    {
      SectionPartAt(dir, k);
    }
  }

  /** Section `k` is part `k + 1`, and it starts where part `k` ends. */
  lemma SectionPartAt(dir: ElfDirectory, k: nat)
    requires k < |dir.sections|
    ensures AllParts(dir)[k + 1] == Part(dir.sections[k].name, dir.ehsize + SumSizes(dir.sections[..k]), dir.sections[k].dataSize)
    ensures AllParts(dir)[k + 1].offset == AllParts(dir)[k].offset + AllParts(dir)[k].length
  {
    var s := dir.sections;
    if k > 0 {
      SumSizesPrefix(s, k);
      assert AllParts(dir)[k] == Part(s[k - 1].name, dir.ehsize + SumSizes(s[..k - 1]), s[k - 1].dataSize);
    }
  }

  /** The sizes of the first `k` sections are those of the first `k - 1` plus section `k - 1`. */
  lemma SumSizesPrefix(sections: seq<Section>, k: nat)
    requires 0 < k <= |sections|
    ensures SumSizes(sections[..k]) == SumSizes(sections[..k - 1]) + sections[k - 1].dataSize
  {
    assert sections[..k][..k - 1] == sections[..k - 1];
  }

  /**
   * The loop of `colorize_data` that builds `part_names`, `part_offsets`
   * and `part_lengths`, then zips them: each section goes at the previous
   * part's offset plus its length.
   */
  method BuildParts(dir: ElfDirectory) returns (parts: seq<Part>)
    ensures parts == AllParts(dir)
  {
    AllPartsLayout(dir);
    var names: seq<string> := ["Ehdr"];
    var offsets: seq<nat> := [0];
    var lengths: seq<nat> := [dir.ehsize];
    for i := 0 to |dir.sections|
      invariant |names| == |offsets| == |lengths| == i + 1
      invariant forall m :: 0 <= m <= i ==> Part(names[m], offsets[m], lengths[m]) == AllParts(dir)[m]
    {
      var s := dir.sections[i];
      names := names + [s.name];
      offsets := offsets + [offsets[|offsets| - 1] + lengths[|lengths| - 1]];
      lengths := lengths + [s.dataSize];
    }
    names := names + ["Phdr", "Shdr"];
    offsets := offsets + [dir.phoff, dir.shoff];
    lengths := lengths + [dir.phentsize, dir.shentsize];
    parts := Zip(names, offsets, lengths);
  }

  /** Python's `zip` of three lists of equal length. */
  function Zip(names: seq<string>, offsets: seq<nat>, lengths: seq<nat>): (parts: seq<Part>)
    requires |names| == |offsets| == |lengths|
    ensures |parts| == |names|
    ensures forall m :: 0 <= m < |parts| ==> parts[m] == Part(names[m], offsets[m], lengths[m])
  {
    if names == [] then [] else [Part(names[0], offsets[0], lengths[0])] + Zip(names[1..], offsets[1..], lengths[1..])
  }

  /** The comprehension that drops the parts of length 0. */
  function KeepNonEmpty(parts: seq<Part>): (kept: seq<Part>)
    ensures |kept| <= |parts|
    ensures forall i :: 0 <= i < |kept| ==> kept[i].length > 0
  {
    if parts == [] then []
    else if parts[0].length > 0 then [parts[0]] + KeepNonEmpty(parts[1..])
    else KeepNonEmpty(parts[1..])
  }

  /** The filter keeps exactly the parts of positive length. */
  lemma {:induction false} KeepNonEmptyMembers(parts: seq<Part>)
    ensures forall p :: p in KeepNonEmpty(parts) <==> p in parts && p.length > 0
  {
    if parts != [] {
      KeepNonEmptyMembers(parts[1..]);
      assert forall p :: p in parts <==> p == parts[0] || p in parts[1..];
    }
  }

  /** `a` is `b` with some elements left out and the rest in their order. */
  predicate SubsequenceOf(a: seq<Part>, b: seq<Part>)
    decreases |b|
  {
    if a == [] then true
    else if b == [] then false
    else (a[0] == b[0] && SubsequenceOf(a[1..], b[1..])) || SubsequenceOf(a, b[1..])
  }

  /** The filter keeps the surviving parts in their relative order. */
  lemma {:induction false} KeepNonEmptyKeepsOrder(parts: seq<Part>)
    ensures SubsequenceOf(KeepNonEmpty(parts), parts)
  {
    if parts != [] {
      KeepNonEmptyKeepsOrder(parts[1..]);
      var rest := KeepNonEmpty(parts[1..]);
      if parts[0].length > 0 {
        assert KeepNonEmpty(parts) == [parts[0]] + rest;
        assert ([parts[0]] + rest)[1..] == rest;
      } else {
        if rest != [] {
          assert SubsequenceOf(rest, parts[1..]);
        }
      }
    }
  }

  /** Dropping parts of length 0 does not change the total length. */
  lemma {:induction false} KeepNonEmptySameTotal(parts: seq<Part>)
    ensures SumLengths(KeepNonEmpty(parts)) == SumLengths(parts)
  {
    if parts != [] {
      KeepNonEmptySameTotal(parts[1..]);
      if parts[0].length > 0 {
        assert ([parts[0]] + KeepNonEmpty(parts[1..]))[1..] == KeepNonEmpty(parts[1..]);
      }
    }
  }

  lemma {:induction false} SumLengthsAppend(a: seq<Part>, b: seq<Part>)
    ensures SumLengths(a + b) == SumLengths(a) + SumLengths(b)
  {
    if a == [] {
      assert a + b == b;
    } else {
      assert (a + b)[1..] == a[1..] + b;
      SumLengthsAppend(a[1..], b);
    }
  }

  /** The section parts together are as long as the sections' data. */
  lemma {:induction false} SectionPartsTotal(sections: seq<Section>, start: nat)
    ensures SumLengths(SectionParts(sections, start)) == SumSizes(sections)
    decreases |sections|
  {
    if sections != [] {
      var n := |sections| - 1;
      var init := sections[..n];
      var last := Part(sections[n].name, start + SumSizes(init), sections[n].dataSize);
      SectionPartsTotal(init, start);
      SectionPartsSnoc(sections, start);
      SumLengthsAppend(SectionParts(init, start), [last]);
    }
  }

  /** The part list of a section list is that of all but its last section, plus the last section's part. */
  lemma SectionPartsSnoc(sections: seq<Section>, start: nat)
    requires sections != []
    ensures var n := |sections| - 1;
      SectionParts(sections, start)
      == SectionParts(sections[..n], start) + [Part(sections[n].name, start + SumSizes(sections[..n]), sections[n].dataSize)]
  {
    var n := |sections| - 1;
    var init := sections[..n];
    forall k | 0 <= k < n
      ensures SectionParts(sections, start)[k] == SectionParts(init, start)[k]
    {
      assert init[..k] == sections[..k];
    }
  }

  /**
   * The parts that survive the filter cover `e_ehsize`, every section's
   * data, one program-header entry and one section-header entry.
   */
  lemma PartsTotalLength(dir: ElfDirectory)
    ensures SumLengths(KeepNonEmpty(AllParts(dir)))
         == dir.ehsize + SumSizes(dir.sections) + dir.phentsize + dir.shentsize
  {
    var head := [Part("Ehdr", 0, dir.ehsize)];
    var mid := SectionParts(dir.sections, dir.ehsize);
    var tail := [Part("Phdr", dir.phoff, dir.phentsize), Part("Shdr", dir.shoff, dir.shentsize)];
    KeepNonEmptySameTotal(AllParts(dir));
    SumLengthsAppend(head + mid, tail);
    SumLengthsAppend(head, mid);
    SectionPartsTotal(dir.sections, dir.ehsize);
    assert SumLengths(tail) == dir.phentsize + dir.shentsize by {
      assert tail[1..][1..] == [];
    }
  }
}
