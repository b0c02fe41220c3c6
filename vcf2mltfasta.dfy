/**
 * The multi-sample FASTA writer: it keeps the VCF data lines of one
 * chromosome whose POS lies in the region, then for every sample starts
 * again from the reference region and applies that sample's alleles from the
 * last kept variant back to the first, each at its offset from the region
 * start, and writes one FASTA record per sample.
 */
module Vcf2MltFasta {
  import opened PyText
  import opened MyUtils

  // ---------------------------------------------------------------------------
  // Region filter (vcf2mltfasta.py, lines 23-32)
  // ---------------------------------------------------------------------------

  /**
   * Stripping line-end characters from a line changes at most its last
   * tab-separated column: there are as many columns, and all the others stay.
   */
  lemma StripKeepsColumns(line: string)
    ensures var p, q := Split(RStrip(line, LineEnd), '\t'), Split(line, '\t');
      |q| == |p| && forall k :: 0 <= k < |p| - 1 ==> q[k] == p[k]
  {
    var t := RStrip(line, LineEnd);
    var u := line[|t|..];
    assert line == t + u;
    assert Free(u, {'\t'}) by {
      forall k | 0 <= k < |u| ensures u[k] !in {'\t'} {
        assert u[k] == line[|t| + k];
      }
    }
    SplitAnyAppendFree(t, u, {'\t'});
  }

  /**
   * What the loop does with one line: a line that does not start with the
   * chromosome is passed over; otherwise column 1 is read as an integer, and
   * when it lies in [start, end] the stripped line is parsed and kept.
   * Ok(None) means nothing is kept; Err is the exception raised.
   */
  function FilterLine(line: string, chr: string, start: int, end: int): (r: Result<Option<VcfRecord>>)
    ensures !StartsWith(line, chr) ==> r == Ok(None)
    ensures r.Ok? && r.value.Some? ==>
      StartsWith(line, chr) && start <= r.value.value.pos <= end &&
      ParseVcf(RStrip(line, LineEnd)) == Ok(r.value.value)
    ensures StartsWith(line, chr) && |Split(line, '\t')| < 2 ==> r == Err(IndexError)
    ensures StartsWith(line, chr) && |Split(line, '\t')| >= 2 && PyInt(Split(line, '\t')[1]).Err? ==>
      r == Err(ValueError)
    ensures StartsWith(line, chr) && |Split(line, '\t')| >= 2 && PyInt(Split(line, '\t')[1]).Ok? ==>
      var p, v := PyInt(Split(line, '\t')[1]).value, ParseVcf(RStrip(line, LineEnd));
      (!(start <= p <= end) ==> r == Ok(None)) &&
      (start <= p <= end && v.Ok? ==> r == Ok(Some(v.value))) &&
      (start <= p <= end && v.Err? ==> r == Err(v.error))
  {
    if !StartsWith(line, chr) then Ok(None)
    else
      var cols := Split(line, '\t');
      if |cols| < 2 then Err(IndexError)
      else
        match PyInt(cols[1])
        case Err(e) => Err(e)
        case Ok(pos) =>
          if start <= pos <= end then
            match ParseVcf(RStrip(line, LineEnd))
            case Err(e) => Err(e)
            case Ok(rec) => StripKeepsColumns(line); Ok(Some(rec))
          else Ok(None)
  }

  /** The records the loop collects from `lines`, or the first exception. */
  function Collect(lines: seq<string>, chr: string, start: int, end: int): (r: Result<seq<VcfRecord>>)
    ensures r.Ok? ==> forall k :: 0 <= k < |r.value| ==> start <= r.value[k].pos <= end
    ensures r.Ok? ==> |r.value| <= |lines|
    decreases |lines|
  {
    if lines == [] then Ok([])
    else
      match Collect(lines[..|lines| - 1], chr, start, end)
      case Err(e) => Err(e)
      case Ok(vs) =>
        match FilterLine(lines[|lines| - 1], chr, start, end)
        case Err(e) => Err(e)
        case Ok(None) => Ok(vs)
        case Ok(Some(v)) => Ok(vs + [v])
  }

  /** Collecting from two stretches of lines one after the other: the records stay in file order. */
  lemma {:induction false} CollectAppend(a: seq<string>, b: seq<string>, chr: string, start: int, end: int)
    ensures Collect(a + b, chr, start, end) ==
      match Collect(a, chr, start, end)
      case Err(e) => Err(e)
      case Ok(x) =>
        match Collect(b, chr, start, end)
        case Err(e) => Err(e)
        case Ok(y) => Ok(x + y)
    decreases |b|
  {
    if b == [] {
      assert a + b == a;
      match Collect(a, chr, start, end)
      case Err(e) =>
      case Ok(x) => assert x + [] == x;
    } else {
      var n := |b| - 1;
      assert (a + b)[..|a + b| - 1] == a + b[..n];
      assert (a + b)[|a + b| - 1] == b[n];
      CollectAppend(a, b[..n], chr, start, end);
      match Collect(a, chr, start, end)
      case Err(e) =>
      case Ok(x) =>
        match Collect(b[..n], chr, start, end)
        case Err(e) =>
        case Ok(y) =>
          match FilterLine(b[n], chr, start, end)
          case Err(e) =>
          case Ok(None) =>
          case Ok(Some(v)) =>
            assert x + y + [v] == x + (y + [v]);
    }
  }

  /** A single line gives the record it keeps, nothing, or its exception. */
  lemma CollectOne(line: string, chr: string, start: int, end: int)
    ensures Collect([line], chr, start, end) ==
      match FilterLine(line, chr, start, end)
      case Err(e) => Err(e)
      case Ok(None) => Ok([])
      case Ok(Some(v)) => Ok([v])
  {
    assert [line][..0] == [];
    match FilterLine(line, chr, start, end)
    case Err(e) =>
    case Ok(None) =>
    case Ok(Some(v)) => assert [] + [v] == [v];
  }

  /** The loop over the VCF lines that fills `vcfs`. */
  method CollectVariants(lines: seq<string>, chr: string, start: int, end: int) returns (r: Result<seq<VcfRecord>>)
    ensures r == Collect(lines, chr, start, end)
  {
    var vcfs: seq<VcfRecord> := [];
    for i := 0 to |lines|
      invariant Collect(lines[..i], chr, start, end) == Ok(vcfs)
    {
      var line := lines[i];
      assert lines[..i + 1][..i] == lines[..i];
      if StartsWith(line, chr) {
        var cols := Split(line, '\t');
        if |cols| < 2 {
          CollectRest(lines, i + 1, chr, start, end);
          return Err(IndexError);
        }
        var pos := PyInt(cols[1]);
        if pos.Err? {
          CollectRest(lines, i + 1, chr, start, end);
          return Err(pos.error);
        }
        if start <= pos.value <= end {
          var rec := ParseVcf(RStrip(line, LineEnd));
          if rec.Err? {
            CollectRest(lines, i + 1, chr, start, end);
            return Err(rec.error);
          }
          vcfs := vcfs + [rec.value];
        }
      }
    }
    assert lines[..|lines|] == lines;
    r := Ok(vcfs);
  }

  /** Once the first `i` lines raise, so do all of them. */
  lemma CollectRest(lines: seq<string>, i: nat, chr: string, start: int, end: int)
    requires i <= |lines| && Collect(lines[..i], chr, start, end).Err?
    ensures Collect(lines, chr, start, end) == Collect(lines[..i], chr, start, end)
  {
    CollectAppend(lines[..i], lines[i..], chr, start, end);
    assert lines[..i] + lines[i..] == lines;
  }

  /** The record one line contributes: the one it keeps, or none. */
  function LineRecords(line: string, chr: string, start: int, end: int): seq<VcfRecord> {
    match FilterLine(line, chr, start, end)
    case Ok(Some(v)) => [v]
    case _ => []
  }

  /** The records kept by the lines, first line first: a reference for Collect read front to back. */
  function Kept(lines: seq<string>, chr: string, start: int, end: int): seq<VcfRecord>
    decreases |lines|
  {
    if lines == [] then [] else LineRecords(lines[0], chr, start, end) + Kept(lines[1..], chr, start, end)
  }

  /**
   * The filter succeeds exactly when no line raises, and then it holds the
   * records the lines keep, in file order.
   */
  lemma {:induction false} CollectAll(lines: seq<string>, chr: string, start: int, end: int)
    ensures Collect(lines, chr, start, end).Ok? <==>
      forall k :: 0 <= k < |lines| ==> FilterLine(lines[k], chr, start, end).Ok?
    ensures Collect(lines, chr, start, end).Ok? ==> Collect(lines, chr, start, end).value == Kept(lines, chr, start, end)
    decreases |lines|
  {
    if lines != [] {
      var rest := lines[1..];
      CollectAll(rest, chr, start, end);
      CollectAppend([lines[0]], rest, chr, start, end);
      CollectOne(lines[0], chr, start, end);
      assert [lines[0]] + rest == lines;
      assert forall k :: 0 < k < |lines| ==> rest[k - 1] == lines[k];
      if forall k :: 0 <= k < |lines| ==> FilterLine(lines[k], chr, start, end).Ok? {
        assert forall k :: 0 <= k < |rest| ==> FilterLine(rest[k], chr, start, end).Ok? by {
          forall k | 0 <= k < |rest| ensures FilterLine(rest[k], chr, start, end).Ok? {
            assert rest[k] == lines[k + 1];
          }
        }
      }
    }
  }

  /**
   * Every line that keeps a record contributes it, and every kept record
   * comes from such a line.
   */
  lemma {:induction false} KeptMembers(lines: seq<string>, chr: string, start: int, end: int, v: VcfRecord)
    ensures v in Kept(lines, chr, start, end) <==>
      exists k :: 0 <= k < |lines| && FilterLine(lines[k], chr, start, end) == Ok(Some(v))
    decreases |lines|
  {
    if lines != [] {
      var rest := lines[1..];
      KeptMembers(rest, chr, start, end, v);
      var head := LineRecords(lines[0], chr, start, end);
      assert Kept(lines, chr, start, end) == head + Kept(rest, chr, start, end);
      assert v in head <==> FilterLine(lines[0], chr, start, end) == Ok(Some(v));
      if exists k :: 0 <= k < |lines| && FilterLine(lines[k], chr, start, end) == Ok(Some(v)) {
        var k :| 0 <= k < |lines| && FilterLine(lines[k], chr, start, end) == Ok(Some(v));
        if k > 0 {
          assert rest[k - 1] == lines[k];
        }
      }
      if exists k :: 0 <= k < |rest| && FilterLine(rest[k], chr, start, end) == Ok(Some(v)) {
        var k :| 0 <= k < |rest| && FilterLine(rest[k], chr, start, end) == Ok(Some(v));
        assert lines[k + 1] == rest[k];
      }
    }
  }

  /** When line `i` is the first to raise, the filter raises that line's exception. */
  lemma CollectFirstError(lines: seq<string>, i: nat, chr: string, start: int, end: int)
    requires i < |lines| && FilterLine(lines[i], chr, start, end).Err?
    requires forall k :: 0 <= k < i ==> FilterLine(lines[k], chr, start, end).Ok?
    ensures Collect(lines, chr, start, end) == Err(FilterLine(lines[i], chr, start, end).error)
  {
    var pre := lines[..i + 1];
    assert pre[..i] == lines[..i];
    assert pre[i] == lines[i];
    CollectAll(lines[..i], chr, start, end);
    CollectRest(lines, i + 1, chr, start, end);
  }

  // ---------------------------------------------------------------------------
  // Reconstruction (vcf2mltfasta.py, lines 36-44)
  // ---------------------------------------------------------------------------

  /**
   * One variant for sample `i`: its genotype value `g` (IndexError when the
   * record has no such column); 0 leaves the sequence alone, otherwise
   * `alt[g-1]` is applied at `pos - start`.
   */
  function Step(t: string, rec: VcfRecord, start: int, i: nat): Result<string> {
    match PyIndex(rec.geno, i)
    case Err(e) => Err(e)
    case Ok(g) =>
      if g == 0 then Ok(t)
      else
        match PyIndex(rec.alt, g - 1)
        case Err(e) => Err(e)
        case Ok(a) => ApplyVariant(t, rec.pos - start, rec.ref, a)
  }

  /** Sample `i`'s sequence: the variants applied to `s` from the last one back to the first. */
  function Haplotype(s: string, vcfs: seq<VcfRecord>, start: int, i: nat): Result<string>
    decreases |vcfs|
  {
    if vcfs == [] then Ok(s)
    else
      match Step(s, vcfs[|vcfs| - 1], start, i)
      case Err(e) => Err(e)
      case Ok(t) => Haplotype(t, vcfs[..|vcfs| - 1], start, i)
  }

  /**
   * The inner loop for sample `i`: from the region sequence, the variants
   * from the last back to the first, each through vcf2fasta.
   */
  method SampleSequence(s: string, vcfs: seq<VcfRecord>, start: int, i: nat) returns (r: Result<string>)
    ensures r == Haplotype(s, vcfs, start, i)
  {
    var newSeq := s;
    var j := |vcfs|;
    assert vcfs[..j] == vcfs;
    while j > 0
      invariant 0 <= j <= |vcfs|
      invariant Haplotype(s, vcfs, start, i) == Haplotype(newSeq, vcfs[..j], start, i)
    {
      HaplotypeAt(newSeq, vcfs, j, start, i);
      var next := ApplyRecord(newSeq, vcfs[j - 1], start, i);
      if next.Err? {
        return next;
      }
      newSeq := next.value;
      j := j - 1;
    }
    assert vcfs[..0] == [];
    r := Ok(newSeq);
  }

  /**
   * One pass of the inner loop: the sample's genotype in the record (a
   * missing column raises IndexError); 0 leaves the sequence alone, otherwise
   * `alt[g-1]` goes through vcf2fasta at `pos - start`.
   */
  method ApplyRecord(t: string, info: VcfRecord, start: int, i: nat) returns (r: Result<string>)
    ensures r == Step(t, info, start, i)
  {
    if i >= |info.geno| {
      return Err(IndexError);
    }
    var numAlt := info.geno[i];
    if numAlt == 0 {
      return Ok(t);
    }
    if !(-|info.alt| <= numAlt - 1 < |info.alt|) {
      return Err(IndexError);
    }
    var a := info.alt[if numAlt - 1 < 0 then numAlt - 1 + |info.alt| else numAlt - 1];
    r := Vcf2Fasta(t, info.pos - start, info.ref, a);
  }

  /** The first `j` variants: the `j`-th is applied first, then the ones before it. */
  lemma HaplotypeAt(t: string, vcfs: seq<VcfRecord>, j: nat, start: int, i: nat)
    requires 0 < j <= |vcfs|
    ensures Haplotype(t, vcfs[..j], start, i) ==
      match Step(t, vcfs[j - 1], start, i)
      case Err(e) => Err(e)
      case Ok(u) => Haplotype(u, vcfs[..j - 1], start, i)
  {
    assert vcfs[..j][..j - 1] == vcfs[..j - 1];
  }

  /**
   * The outer loop: one record per sample name, each sample starting again
   * from the unchanged region sequence. An exception stops the writing; the
   * records written before it stay written.
   */
  method Reconstruct(names: seq<string>, s: string, vcfs: seq<VcfRecord>, start: int)
    returns (written: seq<string>, failure: Option<Error>)
    ensures |written| <= |names|
    ensures forall k :: 0 <= k < |written| ==>
      Haplotype(s, vcfs, start, k).Ok? && written[k] == FastaRecord(names[k], Haplotype(s, vcfs, start, k).value)
    ensures failure.None? ==> |written| == |names|
    ensures failure.Some? ==> |written| < |names| && Haplotype(s, vcfs, start, |written|) == Err(failure.value)
  {
    written := [];
    for i := 0 to |names|
      invariant |written| == i
      invariant forall k :: 0 <= k < i ==>
        Haplotype(s, vcfs, start, k).Ok? && written[k] == FastaRecord(names[k], Haplotype(s, vcfs, start, k).value)
    {
      var newSeq := SampleSequence(s, vcfs, start, i);
      if newSeq.Err? {
        return written, Some(newSeq.error);
      }
      var rec := FormatFasta(names[i], newSeq.value);
      written := written + [rec];
    }
    failure := None;
  }

  /** A sample whose genotype is 0 in every record gets the region sequence unchanged. */
  lemma {:induction false} AllReferenceKeepsSequence(s: string, vcfs: seq<VcfRecord>, start: int, i: nat)
    requires forall k :: 0 <= k < |vcfs| ==> i < |vcfs[k].geno| && vcfs[k].geno[i] == 0
    ensures Haplotype(s, vcfs, start, i) == Ok(s)
    decreases |vcfs|
  {
    if vcfs != [] {
      AllReferenceKeepsSequence(s, vcfs[..|vcfs| - 1], start, i);
    }
  }

  // ---------------------------------------------------------------------------
  // Why the reverse order works
  // ---------------------------------------------------------------------------

  /** Replace the reference bases `lo..hi` by `allele`. */
  datatype Edit = Edit(lo: nat, hi: nat, allele: string)

  /** Sample `i` has a genotype in the record, naming REF or one of the ALT alleles, at or after the region start. */
  predicate Resolvable(rec: VcfRecord, start: int, i: nat) {
    i < |rec.geno| && 0 <= rec.geno[i] <= |rec.alt| && rec.pos >= start
  }

  /**
   * The edit a non-reference genotype makes, in region coordinates: one base
   * for a SNP or insertion, |REF| bases for a deletion.
   */
  function EditOf(rec: VcfRecord, start: int, i: nat): (e: Edit)
    requires Resolvable(rec, start, i) && rec.geno[i] != 0
    ensures e.lo < e.hi
  {
    var a := rec.alt[rec.geno[i] - 1];
    var lo := rec.pos - start;
    Edit(lo, lo + (if |rec.ref| <= |a| then 1 else |rec.ref|), a)
  }

  /** The edits of sample `i`, in file order. */
  function SampleEdits(vcfs: seq<VcfRecord>, start: int, i: nat): seq<Edit>
    requires forall k :: 0 <= k < |vcfs| ==> Resolvable(vcfs[k], start, i)
    decreases |vcfs|
  {
    if vcfs == [] then []
    else
      var rec := vcfs[|vcfs| - 1];
      assert Resolvable(rec, start, i);
      SampleEdits(vcfs[..|vcfs| - 1], start, i) + (if rec.geno[i] == 0 then [] else [EditOf(rec, start, i)])
  }

  /** The edits start at or after `from`, come in ascending order without overlap, and end by `n`. */
  predicate Ordered(es: seq<Edit>, from: nat, n: nat)
    ensures Ordered(es, from, n) ==> from <= n
    decreases |es|
  {
    if es == [] then from <= n else from <= es[0].lo <= es[0].hi && Ordered(es[1..], es[0].hi, n)
  }

  lemma {:induction false} OrderedWeaken(es: seq<Edit>, from: nat, n: nat, m: nat)
    requires Ordered(es, from, n) && n <= m
    ensures Ordered(es, from, m)
    decreases |es|
  {
    if es != [] {
      OrderedWeaken(es[1..], es[0].hi, n, m);
    }
  }

  /** Ordered edits followed by one more: the others end by its start. */
  lemma {:induction false} OrderedSnoc(es: seq<Edit>, e: Edit, from: nat, n: nat)
    ensures Ordered(es + [e], from, n) <==> Ordered(es, from, e.lo) && e.lo <= e.hi <= n
    decreases |es|
  {
    if es == [] {
      assert es + [e] == [e];
      assert [e][1..] == [];
    } else {
      assert (es + [e])[0] == es[0];
      assert (es + [e])[1..] == es[1..] + [e];
      OrderedSnoc(es[1..], e, es[0].hi, n);
    }
  }

  /**
   * The reference from `from` on with the edits made left to right: copy up
   * to an edit, write its allele, carry on after the bases it replaces.
   */
  function Rebuild(s: string, es: seq<Edit>, from: nat): string
    requires Ordered(es, from, |s|)
    decreases |es|
  {
    if es == [] then s[from..] else s[from..es[0].lo] + es[0].allele + Rebuild(s, es[1..], es[0].hi)
  }

  /** Text after the last edit is copied as it is. */
  lemma {:induction false} RebuildFrame(x: string, y: string, es: seq<Edit>, from: nat)
    requires Ordered(es, from, |x|)
    ensures Ordered(es, from, |x + y|)
    ensures Rebuild(x + y, es, from) == Rebuild(x, es, from) + y
    decreases |es|
  {
    OrderedWeaken(es, from, |x|, |x + y|);
    if es == [] {
      assert (x + y)[from..] == x[from..] + y;
    } else {
      var e := es[0];
      RebuildFrame(x, y, es[1..], e.hi);
      assert (x + y)[from..e.lo] == x[from..e.lo];
    }
  }

  /** The last edit can be made after the others, on the reference cut at its start. */
  lemma {:induction false} RebuildSnoc(s: string, es: seq<Edit>, e: Edit, from: nat)
    requires Ordered(es + [e], from, |s|)
    ensures e.lo <= e.hi <= |s| && Ordered(es, from, |s[..e.lo]|)
    ensures Rebuild(s, es + [e], from) == Rebuild(s[..e.lo], es, from) + e.allele + s[e.hi..]
    decreases |es|
  {
    OrderedSnoc(es, e, from, |s|);
    if es == [] {
      RebuildSnocBase(s, e, from);
    } else {
      assert (es + [e])[0] == es[0];
      assert (es + [e])[1..] == es[1..] + [e];
      RebuildSnoc(s, es[1..], e, es[0].hi);
      RebuildSnocStep(s, es, e, from);
    }
  }

  /** RebuildSnoc for a single edit. */
  lemma RebuildSnocBase(s: string, e: Edit, from: nat)
    requires Ordered([e], from, |s|)
    ensures e.lo <= e.hi <= |s| && Ordered([], from, |s[..e.lo]|)
    ensures Rebuild(s, [e], from) == Rebuild(s[..e.lo], [], from) + e.allele + s[e.hi..]
  {
    assert [e][1..] == [];
    assert s[..e.lo][from..] == s[from..e.lo];
  }

  /** RebuildSnoc for a first edit in front of others, given it for the others. */
  lemma RebuildSnocStep(s: string, es: seq<Edit>, e: Edit, from: nat)
    requires es != [] && Ordered(es + [e], from, |s|)
    requires e.lo <= e.hi <= |s| && Ordered(es, from, e.lo)
    requires (es + [e])[1..] == es[1..] + [e]
    requires Ordered(es[1..], es[0].hi, |s[..e.lo]|)
    requires Rebuild(s, es[1..] + [e], es[0].hi) == Rebuild(s[..e.lo], es[1..], es[0].hi) + e.allele + s[e.hi..]
    ensures Rebuild(s, es + [e], from) == Rebuild(s[..e.lo], es, from) + e.allele + s[e.hi..]
  {
    var f := es[0];
    var mid := Rebuild(s[..e.lo], es[1..], f.hi);
    RebuildCons(s, es + [e], from);
    RebuildCons(s[..e.lo], es, from);
    assert s[..e.lo][from..f.lo] == s[from..f.lo];
    ConcatAssoc(s[from..f.lo] + f.allele, mid, e.allele + s[e.hi..]);
  }

  /** Rebuild with a first edit: the text before it, its allele, then the rest rebuilt. */
  lemma RebuildCons(s: string, es: seq<Edit>, from: nat)
    requires es != [] && Ordered(es, from, |s|)
    ensures Ordered(es[1..], es[0].hi, |s|)
    ensures Rebuild(s, es, from) == s[from..es[0].lo] + es[0].allele + Rebuild(s, es[1..], es[0].hi)
  {
  }

  /** One variant call applied as a Step is its edit. */
  lemma StepIsEdit(t: string, rec: VcfRecord, start: int, i: nat)
    requires Resolvable(rec, start, i) && rec.geno[i] != 0
    requires EditOf(rec, start, i).hi <= |t|
    ensures var e := EditOf(rec, start, i);
      Step(t, rec, start, i) == Ok(t[..e.lo] + e.allele + t[e.hi..])
  {
  }

  /**
   * For variants whose edits for the sample are ascending, do not overlap and
   * lie within the region, applying them from the last to the first at their
   * offsets from the region start gives the region rebuilt left to right in
   * reference coordinates: a later edit never shifts the offset of an
   * earlier one.
   */
  lemma {:induction false} ReverseOrderIsRebuild(s: string, vcfs: seq<VcfRecord>, start: int, i: nat)
    requires forall k :: 0 <= k < |vcfs| ==> Resolvable(vcfs[k], start, i)
    requires Ordered(SampleEdits(vcfs, start, i), 0, |s|)
    ensures Haplotype(s, vcfs, start, i) == Ok(Rebuild(s, SampleEdits(vcfs, start, i), 0))
    decreases |vcfs|
  {
    if vcfs != [] {
      var n := |vcfs| - 1;
      var init, rec := vcfs[..n], vcfs[n];
      var es := SampleEdits(init, start, i);
      if rec.geno[i] == 0 {
        assert SampleEdits(vcfs, start, i) == es;
        ReverseOrderIsRebuild(s, init, start, i);
      } else {
        var e := EditOf(rec, start, i);
        assert SampleEdits(vcfs, start, i) == es + [e];
        OrderedSnoc(es, e, 0, |s|);
        StepIsEdit(s, rec, start, i);
        var t := s[..e.lo] + e.allele + s[e.hi..];
        RebuildAfterEdit(s, es, e);
        ReverseOrderIsRebuild(t, init, start, i);
      }
    }
  }

  /** Rebuilding the edited text with the earlier edits is rebuilding the reference with all of them. */
  lemma RebuildAfterEdit(s: string, es: seq<Edit>, e: Edit)
    requires Ordered(es + [e], 0, |s|)
    ensures e.lo <= e.hi <= |s|
    ensures var t := s[..e.lo] + e.allele + s[e.hi..];
      Ordered(es, 0, |t|) && Rebuild(t, es, 0) == Rebuild(s, es + [e], 0)
  {
    RebuildSnoc(s, es, e, 0);
    var x, y := s[..e.lo], e.allele + s[e.hi..];
    RebuildFrame(x, y, es, 0);
    assert x + y == s[..e.lo] + e.allele + s[e.hi..];
  }

  /** How much longer the edits make the sequence: each allele's length less the bases it replaces. */
  function Growth(es: seq<Edit>): int
    decreases |es|
  {
    if es == [] then 0 else |es[0].allele| - (es[0].hi - es[0].lo) + Growth(es[1..])
  }

  lemma {:induction false} RebuildLength(s: string, es: seq<Edit>, from: nat)
    requires Ordered(es, from, |s|)
    ensures |Rebuild(s, es, from)| == |s| - from + Growth(es)
    decreases |es|
  {
    if es != [] {
      RebuildLength(s, es[1..], es[0].hi);
    }
  }

  /**
   * Under the same conditions the sample's sequence is the region's length
   * plus, for every applied SNP or insertion, |ALT| - 1 and, for every
   * applied deletion, |ALT| - |REF|.
   */
  lemma HaplotypeLength(s: string, vcfs: seq<VcfRecord>, start: int, i: nat)
    requires forall k :: 0 <= k < |vcfs| ==> Resolvable(vcfs[k], start, i)
    requires Ordered(SampleEdits(vcfs, start, i), 0, |s|)
    ensures Haplotype(s, vcfs, start, i).Ok?
    ensures |Haplotype(s, vcfs, start, i).value| == |s| + Growth(SampleEdits(vcfs, start, i))
  {
    ReverseOrderIsRebuild(s, vcfs, start, i);
    RebuildLength(s, SampleEdits(vcfs, start, i), 0);
  }

  // ---------------------------------------------------------------------------
  // The whole script
  // ---------------------------------------------------------------------------

  /**
   * The script: the region from the FASTA, the variants of the region from
   * the VCF, then one record per sample. A failure in the VCF pass writes
   * nothing.
   */
  method Run(faLines: seq<string>, vcfLines: seq<string>, names: seq<string>, chr: string, start: int, end: int)
    returns (written: seq<string>, failure: Option<Error>)
    ensures var s := Window(Bases(SequenceLines(faLines, chr, None)), start, end);
      match Collect(vcfLines, chr, start, end)
      case Err(e) => written == [] && failure == Some(e)
      case Ok(vcfs) =>
        |written| <= |names| &&
        (forall k :: 0 <= k < |written| ==>
          Haplotype(s, vcfs, start, k).Ok? && written[k] == FastaRecord(names[k], Haplotype(s, vcfs, start, k).value)) &&
        (failure.None? ==> |written| == |names|) &&
        (failure.Some? ==> |written| < |names| && Haplotype(s, vcfs, start, |written|) == Err(failure.value))
  {
    var s := FastaSeq(faLines, chr, start, end, None);
    var vcfs := CollectVariants(vcfLines, chr, start, end);
    if vcfs.Err? {
      return [], Some(vcfs.error);
    }
    written, failure := Reconstruct(names, s, vcfs.value, start);
  }
}
