/**
 * The sequence helpers of the tool: cutting a 1-based region out of a FASTA
 * file, resolving a genotype field to one allele index, parsing a VCF data
 * line, applying one variant call to a sequence, and wrapping a sequence into
 * a 60-column FASTA record.
 *
 * A file is the sequence of lines that iterating it yields, each line still
 * carrying its terminator.
 */
module MyUtils {
  import opened PyText

  /** The characters that `rstrip("\n|\r|\r\n")` removes: its argument is a set of characters. */
  const LineEnd: set<char> := {'\n', '|', '\r'}

  // ---------------------------------------------------------------------------
  // fasta_seq
  // ---------------------------------------------------------------------------

  /**
   * The lines that iterating a text file yields after `seek(off)`, with `off`
   * counted in characters: the rest of the line the offset falls in, then the
   * lines after it. An offset at or past the end yields nothing.
   */
  function SeekLines(lines: seq<string>, off: nat): (r: seq<string>)
    ensures |r| <= |lines|
    ensures off == 0 ==> r == lines
    ensures forall k :: 0 < k < |r| ==> r[k] == lines[|lines| - |r| + k]
    decreases |lines|
  {
    if lines == [] then []
    else if off == 0 then lines
    else if off < |lines[0]| then [lines[0][off..]] + lines[1..]
    else SeekLines(lines[1..], off - |lines[0]|)
  }

  /** The index of the first line at or after `from` that starts with `tag`, or |lines| when there is none. */
  function FirstMatch(lines: seq<string>, tag: string, from: nat): (k: nat)
    requires from <= |lines|
    ensures from <= k <= |lines|
    ensures forall j :: from <= j < k ==> !StartsWith(lines[j], tag)
    ensures k < |lines| ==> StartsWith(lines[k], tag)
    decreases |lines| - from
  {
    if from == |lines| || StartsWith(lines[from], tag) then from else FirstMatch(lines, tag, from + 1)
  }

  /**
   * The lines fasta_seq reads as sequence: without an offset, those after the
   * first line that starts with ">" + chr (none when no line does); with an
   * offset, those after seeking there.
   */
  function SequenceLines(lines: seq<string>, chr: string, faByte: Option<nat>): (r: seq<string>)
    ensures |r| <= |lines|
    ensures forall k :: 0 < k < |r| ==> r[k] == lines[|lines| - |r| + k]
  {
    match faByte
    case None =>
      var k := FirstMatch(lines, ">" + chr, 0);
      if k < |lines| then lines[k + 1..] else []
    case Some(off) => SeekLines(lines, off)
  }

  /** The bases the lines hold: every line without its trailing line-end characters, concatenated. */
  function Bases(lines: seq<string>): string
    decreases |lines|
  {
    if lines == [] then [] else Bases(lines[..|lines| - 1]) + RStrip(lines[|lines| - 1], LineEnd)
  }

  /** Positions `start` to `end` of `t`, 1-based and inclusive, cut short at both ends of `t`. */
  function Window(t: string, start: int, end: int): (w: string)
    ensures 1 <= start <= end <= |t| ==> |w| == end - start + 1
    ensures end < start ==> w == []
  {
    var lo := if start - 1 < 0 then 0 else start - 1;
    var hi := if end < |t| then end else |t|;
    if lo < hi then t[lo..hi] else []
  }

  lemma {:induction false} BasesAppend(a: seq<string>, b: seq<string>)
    ensures Bases(a + b) == Bases(a) + Bases(b)
    decreases |b|
  {
    if b == [] {
      assert a + b == a;
    } else {
      var n := |b| - 1;
      var ab := a + b;
      assert ab[..|ab| - 1] == a + b[..n];
      assert ab[|ab| - 1] == b[n];
      var last := RStrip(b[n], LineEnd);
      assert Bases(ab) == Bases(a + b[..n]) + last;
      assert Bases(b) == Bases(b[..n]) + last;
      BasesAppend(a, b[..n]);
      ConcatAssoc(Bases(a), Bases(b[..n]), last);
    }
  }

  /** The window of a concatenation is the window of the front followed by the shifted window of the back. */
  lemma WindowAppend(t: string, l: string, start: int, end: int)
    ensures Window(t + l, start, end) == Window(t, start, end) + Window(l, start - |t|, end - |t|)
  {
    var lo := if start - 1 < 0 then 0 else start - 1;
    var hi := if end < |t + l| then end else |t + l|;
    var c := |t|;
    if lo < hi {
      if hi <= c {
        SliceFront(t, l, lo, hi);
      } else if lo >= c {
        SliceBack(t, l, lo, hi);
      } else {
        SliceAcross(t, l, lo, hi);
      }
    }
  }

  lemma SliceFront(t: string, l: string, lo: nat, hi: nat)
    requires lo <= hi <= |t|
    ensures (t + l)[lo..hi] == t[lo..hi]
  {
  }

  lemma SliceBack(t: string, l: string, lo: nat, hi: nat)
    requires |t| <= lo <= hi <= |t| + |l|
    ensures (t + l)[lo..hi] == l[lo - |t|..hi - |t|]
  {
  }

  lemma SliceAcross(t: string, l: string, lo: nat, hi: nat)
    requires lo <= |t| <= hi <= |t| + |l|
    ensures (t + l)[lo..hi] == t[lo..] + l[..hi - |t|]
  {
  }

  /** One more line adds its stripped text to the bases. */
  lemma BasesSnoc(lines: seq<string>, i: nat)
    requires i < |lines|
    ensures Bases(lines[..i + 1]) == Bases(lines[..i]) + RStrip(lines[i], LineEnd)
  {
    assert lines[..i + 1][..i] == lines[..i];
  }

  /** A line that ends before `start` adds nothing to the window. */
  lemma WindowSkip(t: string, line: string, start: int, end: int)
    requires start > |t| + |line|
    ensures Window(t + line, start, end) == Window(t, start, end)
  {
    WindowAppend(t, line, start, end);
  }

  /** A line that begins at or before `end` adds the part of it that lies in the window. */
  lemma WindowTake(t: string, line: string, start: int, end: int, w: string)
    requires |t| <= end && w == Window(t, start, end)
    ensures var c := |t|;
      w + PySlice(line, if start - 1 - c > 0 then start - 1 - c else 0, if end - c < |line| then end - c else |line|) ==
      Window(t + line, start, end)
  {
    WindowAppend(t, line, start, end);
  }

  /** Once the bases read so far pass `end`, the rest of the lines cannot change the window. */
  lemma WindowStop(lines: seq<string>, i: nat, start: int, end: int)
    requires i <= |lines| && |Bases(lines[..i])| > end
    ensures Window(Bases(lines), start, end) == Window(Bases(lines[..i]), start, end)
  {
    assert lines == lines[..i] + lines[i..];
    BasesAppend(lines[..i], lines[i..]);
    WindowAppend(Bases(lines[..i]), Bases(lines[i..]), start, end);
  }

  /** The header scan of fasta_seq: the lines after the first one that starts with `tag`, or none. */
  method SkipToHeader(lines: seq<string>, tag: string) returns (rest: seq<string>)
    ensures var k := FirstMatch(lines, tag, 0);
      rest == if k < |lines| then lines[k + 1..] else []
  {
    var next, found := 0, false;
    while next < |lines| && !found
      invariant 0 <= next <= |lines|
      invariant !found ==> forall j :: 0 <= j < next ==> !StartsWith(lines[j], tag)
      invariant found ==> 0 < next && FirstMatch(lines, tag, 0) == next - 1
    {
      found := StartsWith(lines[next], tag);
      next := next + 1;
    }
    rest := lines[next..];
  }

  /**
   * The main loop of fasta_seq: `c` counts the bases read so far; a line that
   * ends before `start` is passed over, a line read after `end` was passed
   * stops the loop, and any other line gives the part of it in the window.
   */
  method ReadRegion(rest: seq<string>, start: int, end: int) returns (s: string)
    ensures s == Window(Bases(rest), start, end)
  {
    var c := 0;
    s := [];
    var i := 0;
    ghost var t: string := [];
    while i < |rest|
      invariant 0 <= i <= |rest|
      invariant t == Bases(rest[..i])
      invariant c == |t|
      invariant s == Window(t, start, end)
    {
      var line := RStrip(rest[i], LineEnd);
      BasesSnoc(rest, i);
      if start > c + |line| {
        WindowSkip(t, line, start, end);
      } else if c > end {
        WindowStop(rest, i, start, end);
        break;
      } else {
        var lo, hi := if start - 1 - c > 0 then start - 1 - c else 0, if end - c < |line| then end - c else |line|;
        var piece := PySlice(line, lo, hi);
        WindowTake(t, line, start, end, s);
        s := s + piece;
      }
      c := c + |line|;
      t := t + line;
      i := i + 1;
    }
    assert i == |rest| ==> rest[..i] == rest;
  }

  /**
   * fasta_seq: reads the target sequence lines (after the chromosome's header,
   * or after seeking to `faByte`) and keeps bases `start` to `end`, 1-based and
   * inclusive, across line wraps.
   */
  method FastaSeq(lines: seq<string>, chr: string, start: int, end: int, faByte: Option<nat>) returns (s: string)
    ensures s == Window(Bases(SequenceLines(lines, chr, faByte)), start, end)
    ensures 1 <= start <= end <= |Bases(SequenceLines(lines, chr, faByte))| ==> |s| == end - start + 1
    ensures faByte.None? && (forall k :: 0 <= k < |lines| ==> !StartsWith(lines[k], ">" + chr)) ==> s == []
  {
    var rest: seq<string>;
    if faByte.None? {
      rest := SkipToHeader(lines, ">" + chr);
    } else {
      rest := SeekLines(lines, faByte.value);
    }
    assert rest == SequenceLines(lines, chr, faByte);
    s := ReadRegion(rest, start, end);
    if faByte.None? && (forall k :: 0 <= k < |lines| ==> !StartsWith(lines[k], ">" + chr)) {
      NoHeaderNoLines(lines, chr);
    }
  }

  /** Without an offset and without a header for the chromosome there are no sequence lines and no bases. */
  lemma NoHeaderNoLines(lines: seq<string>, chr: string)
    requires forall k :: 0 <= k < |lines| ==> !StartsWith(lines[k], ">" + chr)
    ensures SequenceLines(lines, chr, None) == []
    ensures Bases(SequenceLines(lines, chr, None)) == []
  {
  }

  // ---------------------------------------------------------------------------
  // geno2numeric
  // ---------------------------------------------------------------------------

  /** The characters `re.split("/|\|", ...)` splits a genotype on. */
  const AlleleSeps: set<char> := {'/', '|'}

  /** Python's `min` on two integers. */
  function Min(a: int, b: int): int {
    if b < a then b else a
  }

  /**
   * geno2numeric: the allele index of a genotype field. Only the text before
   * the first ':' is used; it is split on '/' and '|'. Equal first and second
   * alleles give that allele ("." counts as 0); different ones give the
   * numerically smaller. A field with one allele raises IndexError, a
   * non-numeric allele ValueError.
   */
  function Geno2Numeric(geno: string): (r: Result<int>)
    ensures |SplitAny(Split(geno, ':')[0], AlleleSeps)| < 2 <==> r == Err(IndexError)
  {
    var gt := SplitAny(Split(geno, ':')[0], AlleleSeps);
    if |gt| < 2 then Err(IndexError)
    else if gt[0] == gt[1] then PyInt(if gt[0] == "." then "0" else gt[0])
    else
      match PyInt(gt[0])
      case Err(e) => Err(e)
      case Ok(a) =>
        match PyInt(gt[1])
        case Err(e) => Err(e)
        case Ok(b) => Ok(Min(a, b))
  }

  /** The characters that end an allele inside a genotype field. */
  const GenoSeps: set<char> := {':', '/', '|'}

  /** Only the text before the first ':' of a genotype field matters. */
  lemma GenoIgnoresExtraFields(gt: string, rest: string)
    requires Free(gt, {':'})
    ensures Geno2Numeric(gt + ":" + rest) == Geno2Numeric(gt)
  {
    SplitAnyAt(gt, ':', rest, {':'});
  }

  /**
   * A two-allele genotype `x` SEP `y`: equal alleles give that allele, with "."
   * read as 0; different alleles give the smaller value, and fail when either
   * is not a number.
   */
  lemma GenoPair(x: string, sep: char, y: string)
    requires Free(x, GenoSeps) && Free(y, GenoSeps) && sep in AlleleSeps
    ensures Geno2Numeric(x + [sep] + y) ==
      if x == y then PyInt(if x == "." then "0" else x)
      else if PyInt(x).Ok? && PyInt(y).Ok? then Ok(Min(PyInt(x).value, PyInt(y).value))
      else Err(ValueError)
  {
    var g := x + [sep] + y;
    assert Free(g, {':'}) by {
      forall k | 0 <= k < |g| ensures g[k] != ':' {
        if k < |x| { assert g[k] == x[k]; } else if k > |x| { assert g[k] == y[k - |x| - 1]; }
      }
    }
    assert Split(g, ':') == [g];
    SplitAnyAt(x, sep, y, AlleleSeps);
    assert Free(y, AlleleSeps);
    assert SplitAny(y, AlleleSeps) == [y];
  }

  /** A haploid call such as "1" or "." has no second allele and raises IndexError. */
  lemma GenoHaploid(x: string)
    requires Free(x, GenoSeps)
    ensures Geno2Numeric(x) == Err(IndexError)
  {
    assert Free(x, {':'}) by {
      forall k | 0 <= k < |x| ensures x[k] !in {':'} {
        assert x[k] !in GenoSeps;
      }
    }
    assert Free(x, AlleleSeps) by {
      forall k | 0 <= k < |x| ensures x[k] !in AlleleSeps {
        assert x[k] !in GenoSeps;
      }
    }
  }

  /**
   * Only the first two alleles matter: a genotype with three or more alleles,
   * such as "0/1/2", gives what its first two give.
   */
  lemma GenoFirstTwo(x: string, s1: char, y: string, s2: char, rest: string)
    requires Free(x, GenoSeps) && Free(y, GenoSeps) && s1 in AlleleSeps && s2 in AlleleSeps
    requires Free(rest, {':'})
    ensures Geno2Numeric(x + [s1] + y + [s2] + rest) == Geno2Numeric(x + [s1] + y)
  {
    var two := x + [s1] + y;
    var g := two + [s2] + rest;
    assert Free(g, {':'}) by {
      forall k | 0 <= k < |g| ensures g[k] !in {':'} {
        if k < |x| {
          assert g[k] == x[k];
        } else if |x| < k < |two| {
          assert g[k] == y[k - |x| - 1];
        } else if k > |two| {
          assert g[k] == rest[k - |two| - 1];
        }
      }
    }
    assert Split(g, ':') == [g];
    GenoTwoAlleles(x, s1, y);
    assert g == x + [s1] + (y + [s2] + rest);
    SplitAnyAt(x, s1, y + [s2] + rest, AlleleSeps);
    assert Free(y, AlleleSeps) by {
      forall k | 0 <= k < |y| ensures y[k] !in AlleleSeps {
        assert y[k] !in GenoSeps;
      }
    }
    SplitAnyAt(y, s2, rest, AlleleSeps);
  }

  /** A two-allele genotype has no ':' and splits into its two alleles. */
  lemma GenoTwoAlleles(x: string, sep: char, y: string)
    requires Free(x, GenoSeps) && Free(y, GenoSeps) && sep in AlleleSeps
    ensures Split(x + [sep] + y, ':') == [x + [sep] + y]
    ensures SplitAny(x + [sep] + y, AlleleSeps) == [x, y]
  {
    var g := x + [sep] + y;
    assert Free(g, {':'}) by {
      forall k | 0 <= k < |g| ensures g[k] !in {':'} {
        if k < |x| { assert g[k] == x[k]; } else if k > |x| { assert g[k] == y[k - |x| - 1]; }
      }
    }
    SplitAnyAt(x, sep, y, AlleleSeps);
    assert Free(y, AlleleSeps) by {
      forall k | 0 <= k < |y| ensures y[k] !in AlleleSeps {
        assert y[k] !in GenoSeps;
      }
    }
  }

  /** A homozygous call gives that allele: "0/0" gives 0, "1|1" gives 1. */
  lemma GenoHomozygous(x: string, sep: char)
    requires |x| > 0 && AllDigits(x) && sep in AlleleSeps
    ensures Geno2Numeric(x + [sep] + x) == Ok(DigitsValue(x))
  {
    assert Free(x, GenoSeps);
    GenoPair(x, sep, x);
  }

  /** A missing call "./." or ".|." gives the reference allele. */
  lemma GenoMissing(sep: char)
    requires sep in AlleleSeps
    ensures Geno2Numeric("." + [sep] + ".") == Ok(0)
  {
    GenoPair(".", sep, ".");
    assert PyInt("0") == Ok(0);
  }

  /** A heterozygous call gives the smaller index, whichever order and separator it is written in. */
  lemma GenoHeterozygous(x: string, s1: char, y: string, s2: char)
    requires Free(x, GenoSeps) && Free(y, GenoSeps) && s1 in AlleleSeps && s2 in AlleleSeps
    requires x != y && PyInt(x).Ok? && PyInt(y).Ok?
    ensures Geno2Numeric(x + [s1] + y) == Ok(Min(PyInt(x).value, PyInt(y).value))
    ensures Geno2Numeric(x + [s1] + y) == Geno2Numeric(y + [s2] + x)
  {
    GenoPair(x, s1, y);
    GenoPair(y, s2, x);
  }

  // ---------------------------------------------------------------------------
  // parse_vcf
  // ---------------------------------------------------------------------------

  /** One VCF data line: POS, REF, the ALT alleles, and one allele index per sample column. */
  datatype VcfRecord = VcfRecord(pos: int, ref: string, alt: seq<string>, geno: seq<int>)

  /** `list(map(geno2numeric, fields))`: the first failing field, in column order, raises. */
  function GenoList(fields: seq<string>): (r: Result<seq<int>>)
    ensures r.Ok? <==> forall k :: 0 <= k < |fields| ==> Geno2Numeric(fields[k]).Ok?
    ensures r.Ok? ==> |r.value| == |fields|
    ensures r.Ok? ==> forall k :: 0 <= k < |fields| ==> r.value[k] == Geno2Numeric(fields[k]).value
    ensures r.Err? ==> exists k :: 0 <= k < |fields| && Geno2Numeric(fields[k]) == Err(r.error)
                                     && forall j :: 0 <= j < k ==> Geno2Numeric(fields[j]).Ok?
    decreases |fields|
  {
    if fields == [] then Ok([])
    else
      match Geno2Numeric(fields[0])
      case Err(e) => Err(e)
      case Ok(g) =>
        match GenoList(fields[1..])
        case Err(e) => Err(e)
        case Ok(gs) => Ok([g] + gs)
  }

  /** The sample columns of a split line: those from index 9 on (`cols[9:]`). */
  function SampleColumns(cols: seq<string>): (fields: seq<string>)
    ensures |fields| == if |cols| > 9 then |cols| - 9 else 0
    ensures forall k :: 0 <= k < |fields| ==> fields[k] == cols[9 + k]
  {
    PySlice(cols, 9, |cols|)
  }

  /**
   * parse_vcf: splits the line on tabs; POS is column 1 as an integer, REF
   * column 3, ALT column 4 split on ',', and every column from 9 on is one
   * sample's genotype.
   */
  function ParseVcf(line: string): (r: Result<VcfRecord>)
    ensures var cols := Split(line, '\t');
      r.Ok? <==> |cols| >= 5 && PyInt(cols[1]).Ok? && GenoList(SampleColumns(cols)).Ok?
    ensures var cols := Split(line, '\t');
      r.Ok? ==> (PyInt(cols[1]) == Ok(r.value.pos) && r.value.ref == cols[3] &&
                 r.value.alt == Split(cols[4], ',') && |r.value.alt| >= 1 &&
                 |r.value.geno| == |SampleColumns(cols)| &&
                 forall k :: 0 <= k < |r.value.geno| ==> Geno2Numeric(cols[9 + k]) == Ok(r.value.geno[k]))
    ensures var cols := Split(line, '\t');
      r.Err? && (|cols| < 2 || (PyInt(cols[1]).Ok? && |cols| < 5)) ==> r.error == IndexError
    ensures var cols := Split(line, '\t');
      |cols| >= 2 && PyInt(cols[1]).Err? ==> r == Err(ValueError)
    ensures var cols := Split(line, '\t');
      |cols| >= 5 && PyInt(cols[1]).Ok? && GenoList(SampleColumns(cols)).Err? ==>
        r == Err(GenoList(SampleColumns(cols)).error)
  {
    var cols := Split(line, '\t');
    if |cols| < 2 then Err(IndexError)
    else
      match PyInt(cols[1])
      case Err(e) => Err(e)
      case Ok(pos) =>
        if |cols| < 5 then Err(IndexError)
        else
          match GenoList(SampleColumns(cols))
          case Err(e) => Err(e)
          case Ok(geno) => Ok(VcfRecord(pos, cols[3], Split(cols[4], ','), geno))
  }

  /**
   * A data line assembled from tab-free columns parses back to those columns:
   * POS from column 1, REF column 3, ALT column 4, and the samples' genotypes.
   */
  lemma ParseVcfOfColumns(cols: seq<string>, pos: nat, geno: seq<int>)
    requires |cols| >= 5 && forall k :: 0 <= k < |cols| ==> Free(cols[k], {'\t'})
    requires cols[1] == NatStr(pos)
    requires |geno| == |SampleColumns(cols)|
    requires forall k :: 0 <= k < |geno| ==> Geno2Numeric(cols[9 + k]) == Ok(geno[k])
    ensures ParseVcf(JoinWith(cols, '\t')) == Ok(VcfRecord(pos, cols[3], Split(cols[4], ','), geno))
  {
    SplitJoin(cols, '\t');
    PyIntNatStr(pos);
    var fields := SampleColumns(cols);
    assert forall k :: 0 <= k < |fields| ==> Geno2Numeric(fields[k]) == Ok(geno[k]);
    var g := GenoList(fields);
    assert g.Ok?;
    assert g.value == geno;
    assert Split(JoinWith(cols, '\t'), '\t') == cols;
  }

  // ---------------------------------------------------------------------------
  // vcf2fasta
  // ---------------------------------------------------------------------------

  /**
   * The sequence after one variant call, on strings. When REF is no longer
   * than ALT (a SNP or an insertion) the single base at `index` becomes ALT,
   * and an index outside the sequence raises IndexError; otherwise (a
   * deletion) the `|ref|` bases from `index` become ALT, clipped to the
   * sequence. Negative indices count from the end, as in Python.
   */
  function ApplyVariant(s: string, index: int, ref: string, alt: string): (r: Result<string>)
    ensures r.Err? <==> |ref| <= |alt| && !(-|s| <= index < |s|)
    ensures r.Err? ==> r.error == IndexError
  {
    if |ref| <= |alt| then
      match PyIndex(s, index)
      case Err(e) => Err(e)
      case Ok(_) =>
        var k := if index < 0 then index + |s| else index;
        Ok(s[..k] + alt + s[k + 1..])
    else
      Ok(PySliceAssign(s, index, index + |ref|, alt))
  }

  /** Replacing one character of `list(s)` by a string and joining splices that string in. */
  lemma JoinReplaceOne(s: string, k: int, alt: string)
    requires 0 <= k < |s|
    ensures Join(Explode(s)[k := alt]) == s[..k] + alt + s[k + 1..]
  {
    assert Explode(s)[k := alt] == Explode(s[..k]) + [alt] + Explode(s[k + 1..]);
    JoinAppend(Explode(s[..k]) + [alt], Explode(s[k + 1..]));
    JoinAppend(Explode(s[..k]), [alt]);
    assert Join([alt]) == alt by {
      assert [alt][..0] == [];
    }
    JoinExplode(s[..k]);
    JoinExplode(s[k + 1..]);
  }

  /** Slice assignment on `list(s)` followed by a join is slice assignment on the string. */
  lemma JoinSliceAssign(s: string, i: int, j: int, alt: string)
    ensures Join(PySliceAssign(Explode(s), i, j, Explode(alt))) == PySliceAssign(s, i, j, alt)
  {
    var lo := SliceBound(|s|, i);
    var hi := if SliceBound(|s|, j) < lo then lo else SliceBound(|s|, j);
    assert PySliceAssign(Explode(s), i, j, Explode(alt)) == Explode(s[..lo]) + Explode(alt) + Explode(s[hi..]);
    JoinAppend(Explode(s[..lo]) + Explode(alt), Explode(s[hi..]));
    JoinAppend(Explode(s[..lo]), Explode(alt));
    JoinExplode(alt);
    JoinExplode(s[..lo]);
    JoinExplode(s[hi..]);
  }

  /**
   * vcf2fasta: copies the sequence into a list of characters, replaces one
   * element (SNP or insertion) or a slice (deletion) with ALT, and joins.
   */
  method Vcf2Fasta(s: string, index: int, ref: string, alt: string) returns (r: Result<string>)
    ensures r == ApplyVariant(s, index, ref, alt)
  {
    var outSeq := Explode(s);
    if |ref| <= |alt| {
      if !(-|outSeq| <= index < |outSeq|) {
        return Err(IndexError);
      }
      var k := if index < 0 then index + |outSeq| else index;
      outSeq := outSeq[k := alt];
      JoinReplaceOne(s, k, alt);
    } else {
      outSeq := PySliceAssign(outSeq, index, index + |ref|, Explode(alt));
      JoinSliceAssign(s, index, index + |ref|, alt);
    }
    r := Ok(Join(outSeq));
  }

  /** A SNP or insertion inside the sequence: one base becomes ALT, everything else stays. */
  lemma ApplySnpOrInsertion(s: string, index: int, ref: string, alt: string)
    requires |ref| <= |alt| && 0 <= index < |s|
    ensures ApplyVariant(s, index, ref, alt) == Ok(s[..index] + alt + s[index + 1..])
    ensures |ApplyVariant(s, index, ref, alt).value| == |s| - 1 + |alt|
    ensures ApplyVariant(s, index, ref, alt).value[..index] == s[..index]
  {
  }

  /** A deletion: the |ref| bases from `index` become ALT (clipped to the sequence), the prefix stays. */
  lemma ApplyDeletion(s: string, index: int, ref: string, alt: string)
    requires |ref| > |alt| && 0 <= index <= |s|
    ensures var hi := if index + |ref| < |s| then index + |ref| else |s|;
      ApplyVariant(s, index, ref, alt) == Ok(s[..index] + alt + s[hi..])
    ensures index + |ref| <= |s| ==> |ApplyVariant(s, index, ref, alt).value| == |s| - |ref| + |alt|
    ensures ApplyVariant(s, index, ref, alt).value[..index] == s[..index]
  {
  }

  /** Writing back the base that is already there changes nothing. */
  lemma ApplyIdentity(s: string, index: int, ref: string)
    requires |ref| <= 1 && 0 <= index < |s|
    ensures ApplyVariant(s, index, ref, [s[index]]) == Ok(s)
  {
    assert s[..index] + [s[index]] + s[index + 1..] == s;
  }

  /**
   * With a REF of several bases and an ALT at least as long, only the first
   * base is replaced, so a REF equal to its ALT lengthens the sequence.
   */
  lemma ApplyLongRefReplacesOneBase(s: string, index: int, ref: string)
    requires |ref| >= 2 && 0 <= index && index + |ref| <= |s| && s[index..index + |ref|] == ref
    ensures ApplyVariant(s, index, ref, ref) == Ok(s[..index] + ref + s[index + 1..])
    ensures |ApplyVariant(s, index, ref, ref).value| == |s| + |ref| - 1 > |s|
  {
  }

  // ---------------------------------------------------------------------------
  // format_fasta
  // ---------------------------------------------------------------------------

  /** The text of a line ending with '\n'. */
  predicate EndsWithNewline(t: string) {
    |t| > 0 && t[|t| - 1] == '\n'
  }

  /** The body as format_fasta joins it: a newline after every complete block of 60 characters. */
  function Marked(s: string): string
    decreases |s|
  {
    if |s| < 60 then s else s[..60] + "\n" + Marked(s[60..])
  }

  /**
   * The record format_fasta returns: ">" + name, a newline, the body with a
   * newline after every complete 60-character block, and a final newline
   * unless the text already ends with one.
   */
  function FastaRecord(name: string, s: string): (r: string)
    ensures StartsWith(r, ">" + name + "\n")
    ensures EndsWithNewline(r)
  {
    var j := ">" + name + "\n" + Marked(s);
    assert j[..|name| + 2] == ">" + name + "\n";
    if EndsWithNewline(j) then j else j + "\n"
  }

  /** The list format_fasta has built after marking the first `done` blocks. */
  ghost function MarkedList(s: string, done: int): (parts: seq<string>)
    ensures |parts| == |s|
  {
    seq(|s|, j requires 0 <= j < |s| => if j % 60 == 59 && j / 60 < done then [s[j], '\n'] else [s[j]])
  }

  /** With no complete block the list is the characters of the sequence. */
  lemma MarkedListShort(s: string)
    requires |s| < 60
    ensures MarkedList(s, |s| / 60) == Explode(s)
  {
    var parts := MarkedList(s, |s| / 60);
    forall j | 0 <= j < |s| ensures parts[j] == [s[j]] {
      assert j / 60 == 0;
    }
  }

  /** After the first block the list is that of the rest of the sequence. */
  lemma MarkedListTail(s: string)
    requires |s| >= 60
    ensures MarkedList(s, |s| / 60)[60..] == MarkedList(s[60..], |s[60..]| / 60)
  {
    var parts, rest := MarkedList(s, |s| / 60), s[60..];
    assert |s| / 60 == |rest| / 60 + 1;
    forall j | 0 <= j < |rest| ensures parts[60 + j] == MarkedList(rest, |rest| / 60)[j] {
      assert (60 + j) % 60 == j % 60;
      assert (60 + j) / 60 == j / 60 + 1;
    }
  }

  /** The first block of the list: its characters, the last one followed by a newline. */
  lemma MarkedListHead(s: string)
    requires |s| >= 60
    ensures MarkedList(s, |s| / 60)[..60] == Explode(s[..59]) + [[s[59], '\n']]
  {
    var parts := MarkedList(s, |s| / 60);
    forall j | 0 <= j < 59 ensures parts[j] == [s[j]] {
      assert j % 60 == j;
    }
  }

  /** Joining the first block gives its 60 characters and a newline. */
  lemma JoinBlock(s: string)
    requires |s| >= 60
    ensures Join(Explode(s[..59]) + [[s[59], '\n']]) == s[..60] + "\n"
  {
    JoinAppend(Explode(s[..59]), [[s[59], '\n']]);
    JoinExplode(s[..59]);
    assert Join([[s[59], '\n']]) == [s[59], '\n'] by {
      assert [[s[59], '\n']][..0] == [];
    }
    assert s[..59] + [s[59], '\n'] == s[..60] + "\n";
  }

  lemma {:induction false} JoinMarkedList(s: string)
    ensures Join(MarkedList(s, |s| / 60)) == Marked(s)
    decreases |s|
  {
    var parts := MarkedList(s, |s| / 60);
    if |s| < 60 {
      MarkedListShort(s);
      JoinExplode(s);
    } else {
      var rest := s[60..];
      assert parts == parts[..60] + parts[60..];
      MarkedListTail(s);
      MarkedListHead(s);
      JoinAppend(parts[..60], parts[60..]);
      JoinBlock(s);
      JoinMarkedList(rest);
    }
  }

  /**
   * format_fasta: puts a newline after the 60th character of every complete
   * block, joins under the header, and adds a final newline if missing.
   */
  method FormatFasta(name: string, s: string) returns (r: string)
    ensures r == FastaRecord(name, s)
  {
    var num := |s| / 60;
    var outSeq := Explode(s);
    assert outSeq == MarkedList(s, 0);
    for i := 0 to num
      invariant outSeq == MarkedList(s, i)
    {
      assert i * 60 + 59 < |s| by {
        assert (i + 1) * 60 <= num * 60 <= |s|;
      }
      outSeq := outSeq[i * 60 + 59 := [s[i * 60 + 59]] + "\n"];
      assert outSeq == MarkedList(s, i + 1) by {
        forall j | 0 <= j < |s| ensures outSeq[j] == MarkedList(s, i + 1)[j] {
          assert (j % 60 == 59 && j / 60 == i) <==> j == i * 60 + 59;
        }
      }
    }
    JoinMarkedList(s);
    r := ">" + name + "\n" + Join(outSeq);
    if !EndsWithNewline(r) {
      r := r + "\n";
    }
  }

  /** A sequence cut into lines of 60 characters; only the last may be shorter, and none is empty. */
  function Chunks(s: string): (lines: seq<string>)
    ensures forall k :: 0 <= k < |lines| - 1 ==> |lines[k]| == 60
    ensures s == [] <==> lines == []
    ensures lines != [] ==> 1 <= |lines[|lines| - 1]| <= 60
    decreases |s|
  {
    if s == [] then []
    else if |s| <= 60 then [s]
    else [s[..60]] + Chunks(s[60..])
  }

  /** The lines of Chunks put back together are the sequence. */
  lemma {:induction false} JoinChunks(s: string)
    ensures Join(Chunks(s)) == s
    decreases |s|
  {
    if s == [] {
    } else if |s| <= 60 {
      assert Join([s]) == s by { assert [s][..0] == []; }
    } else {
      JoinChunks(s[60..]);
      JoinAppend([s[..60]], Chunks(s[60..]));
      assert Join([s[..60]]) == s[..60] by { assert [s[..60]][..0] == []; }
      assert s[..60] + s[60..] == s;
    }
  }

  /** Lines written one after another, each followed by a newline. */
  function JoinLines(lines: seq<string>): string
    decreases |lines|
  {
    if lines == [] then [] else lines[0] + "\n" + JoinLines(lines[1..])
  }

  lemma FreeSlice(s: string, i: nat, j: nat, chars: set<char>)
    requires Free(s, chars) && i <= j <= |s|
    ensures Free(s[i..j], chars)
  {
    forall k | 0 <= k < j - i ensures s[i..j][k] !in chars {
      assert s[i..j][k] == s[i + k];
    }
  }

  /** The joined body ends with a newline exactly when the last block is complete. */
  lemma {:induction false} MarkedEnds(s: string)
    requires s != [] && Free(s, {'\n'})
    ensures EndsWithNewline(Marked(s)) <==> |s| % 60 == 0
    decreases |s|
  {
    if |s| < 60 {
      assert s[|s| - 1] != '\n';
    } else if |s| > 60 {
      var rest := s[60..];
      FreeSlice(s, 60, |s|, {'\n'});
      MarkedEnds(rest);
      assert Marked(s) == s[..60] + "\n" + Marked(rest);
    }
  }

  lemma ChunksCons(s: string)
    requires |s| > 60
    ensures Chunks(s) == [s[..60]] + Chunks(s[60..])
  {
  }

  lemma JoinLinesCons(x: string, rest: seq<string>)
    ensures JoinLines([x] + rest) == x + "\n" + JoinLines(rest)
  {
    assert ([x] + rest)[1..] == rest;
  }

  /** A sequence of at most 60 characters is one line. */
  lemma OneChunk(s: string)
    requires 0 < |s| <= 60
    ensures JoinLines(Chunks(s)) == s + "\n"
  {
    assert Chunks(s) == [s];
    assert JoinLines([s]) == s + "\n";
  }

  /** A block of exactly 60 characters is marked with one newline. */
  lemma MarkedBlock(s: string)
    requires |s| == 60
    ensures Marked(s) == s + "\n"
  {
    assert s[..60] == s;
    assert Marked(s[60..]) == [];
  }

  lemma MarkedCons(s: string)
    requires |s| >= 60
    ensures Marked(s) == s[..60] + "\n" + Marked(s[60..])
  {
  }

  lemma ModShift(n: nat)
    ensures (n + 60) % 60 == n % 60
  {
  }

  /** Putting a line in front keeps the relation between the joined lines and the marked text. */
  lemma NewlineStep(h: string, m: string, jr: string, full: bool)
    requires jr == if full then m else m + "\n"
    ensures h + "\n" + jr == if full then h + "\n" + m else (h + "\n" + m) + "\n"
  {
  }

  /** Cutting 60 characters off the front cuts one line off both sides. */
  lemma MarkedChunksStep(s: string, jr: string, m: string)
    requires |s| > 60 && jr == JoinLines(Chunks(s[60..])) && m == Marked(s[60..])
    requires jr == if |s[60..]| % 60 == 0 then m else m + "\n"
    ensures JoinLines(Chunks(s)) == if |s| % 60 == 0 then Marked(s) else Marked(s) + "\n"
  {
    var head, rest := s[..60], s[60..];
    ChunksCons(s);
    JoinLinesCons(head, Chunks(rest));
    MarkedCons(s);
    ModShift(|rest|);
    NewlineStep(head, m, jr, |rest| % 60 == 0);
  }

  /**
   * The lines of the sequence, each followed by a newline, are the marked
   * body, plus a newline when the last line is shorter than 60.
   */
  lemma {:induction false} MarkedChunks(s: string)
    requires s != []
    ensures JoinLines(Chunks(s)) == if |s| % 60 == 0 then Marked(s) else Marked(s) + "\n"
    decreases |s|
  {
    if |s| < 60 {
      OneChunk(s);
      assert |s| % 60 != 0 && Marked(s) == s;
    } else if |s| == 60 {
      OneChunk(s);
      MarkedBlock(s);
    } else {
      MarkedChunks(s[60..]);
      MarkedChunksStep(s, JoinLines(Chunks(s[60..])), Marked(s[60..]));
    }
  }

  /**
   * For a sequence without newlines the record is the header line followed by
   * the 60-character lines of the sequence, the last one 1 to 60 long, each
   * ending with a newline; an empty sequence gives only the header line.
   */
  lemma FastaRecordLines(name: string, s: string)
    requires Free(s, {'\n'})
    ensures FastaRecord(name, s) == ">" + name + "\n" + JoinLines(Chunks(s))
  {
    if s != [] {
      MarkedChunks(s);
      MarkedEnds(s);
      var j := ">" + name + "\n" + Marked(s);
      assert EndsWithNewline(j) <==> EndsWithNewline(Marked(s));
    }
  }

  /** All characters of `t` except the newlines. */
  function DropNewlines(t: string): (u: string)
    ensures Free(u, {'\n'})
    ensures Free(t, {'\n'}) ==> u == t
    decreases |t|
  {
    if t == [] then []
    else if t[0] == '\n' then DropNewlines(t[1..])
    else assert Free(t, {'\n'}) ==> [t[0]] + t[1..] == t; [t[0]] + DropNewlines(t[1..])
  }

  lemma {:induction false} DropNewlinesAppend(a: string, b: string)
    ensures DropNewlines(a + b) == DropNewlines(a) + DropNewlines(b)
    decreases |a|
  {
    if a != [] {
      assert (a + b)[0] == a[0];
      assert (a + b)[1..] == a[1..] + b;
      DropNewlinesAppend(a[1..], b);
      if a[0] != '\n' {
        assert DropNewlines(a + b) == [a[0]] + DropNewlines(a[1..] + b);
        assert DropNewlines(a) == [a[0]] + DropNewlines(a[1..]);
      }
    } else {
      assert a + b == b;
    }
  }

  lemma {:induction false} DropNewlinesChunks(s: string)
    requires Free(s, {'\n'})
    ensures DropNewlines(JoinLines(Chunks(s))) == s
    decreases |s|
  {
    if s == [] {
    } else if |s| <= 60 {
      assert JoinLines(Chunks(s)) == s + "\n";
      DropNewlinesAppend(s, "\n");
    } else {
      var rest := s[60..];
      FreeSlice(s, 60, |s|, {'\n'});
      FreeSlice(s, 0, 60, {'\n'});
      DropNewlinesChunks(rest);
      assert JoinLines(Chunks(s)) == s[..60] + "\n" + JoinLines(Chunks(rest));
      DropNewlinesAppend(s[..60] + "\n", JoinLines(Chunks(rest)));
      DropNewlinesAppend(s[..60], "\n");
      assert s[..60] + rest == s;
    }
  }

  /** Removing the header line and every newline from the record gives the sequence back. */
  lemma FastaRecordRoundTrip(name: string, s: string)
    requires Free(s, {'\n'})
    ensures DropNewlines(FastaRecord(name, s)[|name| + 2..]) == s
  {
    FastaRecordLines(name, s);
    DropNewlinesChunks(s);
    assert FastaRecord(name, s)[|name| + 2..] == JoinLines(Chunks(s));
  }

  /** An 80-base sequence gives the header, a line of 60 bases and a line of 20. */
  lemma FastaRecordEighty(name: string, s: string)
    requires |s| == 80 && Free(s, {'\n'})
    ensures FastaRecord(name, s) == ">" + name + "\n" + s[..60] + "\n" + s[60..] + "\n"
  {
    FastaRecordLines(name, s);
    assert Chunks(s[60..]) == [s[60..]];
    assert Chunks(s) == [s[..60], s[60..]];
    assert JoinLines([s[60..]]) == s[60..] + "\n";
    assert JoinLines(Chunks(s)) == s[..60] + "\n" + (s[60..] + "\n");
  }
}
