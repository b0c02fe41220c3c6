/**
 * The index builder: one pass over the FASTA lines records, for every header,
 * the number of characters read up to and including that header line; one
 * pass over the VCF lines records, for every run of data lines on one
 * chromosome, the number of characters before the run's first line. The index
 * lists the chromosomes found in both files, in the order the FASTA first
 * names them, each with its two offsets.
 */
module CreateIndex {
  import opened PyText
  import opened MyUtils

  // ---------------------------------------------------------------------------
  // Dictionaries
  // ---------------------------------------------------------------------------

  /** A Python dict from strings to numbers: its keys in insertion order, and its entries. */
  datatype Dict = Dict(keys: seq<string>, vals: map<string, nat>)
  {
    /** The keys are distinct and are exactly the entries' keys. */
    ghost predicate Valid() {
      (forall a, b :: 0 <= a < b < |keys| ==> keys[a] != keys[b]) &&
      (forall k :: k in vals <==> k in keys)
    }
  }

  const EmptyDict: Dict := Dict([], map[])

  /**
   * `d[k] = v`: a new key goes to the end of the key order, an existing key
   * keeps its place and takes the new value.
   */
  function Put(d: Dict, k: string, v: nat): (r: Dict)
    ensures d.Valid() ==> r.Valid()
    ensures r.vals == d.vals[k := v]
    ensures k in d.vals ==> r.keys == d.keys
    ensures k !in d.vals ==> r.keys == d.keys + [k]
  {
    if k in d.vals then Dict(d.keys, d.vals[k := v]) else Dict(d.keys + [k], d.vals[k := v])
  }

  /** The first position of `x` in `xs`. */
  function IndexOf(xs: seq<string>, x: string): (i: nat)
    requires x in xs
    ensures i < |xs| && xs[i] == x
    ensures forall j :: 0 <= j < i ==> xs[j] != x
    decreases |xs|
  {
    if xs[0] == x then 0 else 1 + IndexOf(xs[1..], x)
  }

  lemma IndexOfAppend(xs: seq<string>, y: string, x: string)
    requires x in xs
    ensures IndexOf(xs + [y], x) == IndexOf(xs, x)
  {
    assert forall j :: 0 <= j < |xs| ==> (xs + [y])[j] == xs[j];
  }

  /** The values of `xs` without repeats, each where it first occurs. */
  function FirstSeen(xs: seq<string>): (ys: seq<string>)
    ensures forall a, b :: 0 <= a < b < |ys| ==> ys[a] != ys[b]
    ensures forall x :: x in ys <==> x in xs
    decreases |xs|
  {
    if xs == [] then []
    else
      var ys := FirstSeen(xs[..|xs| - 1]);
      assert xs == xs[..|xs| - 1] + [xs[|xs| - 1]];
      if xs[|xs| - 1] in ys then ys else ys + [xs[|xs| - 1]]
  }

  /** FirstSeen lists the values in the order of their first occurrences. */
  lemma {:induction false} FirstSeenOrder(xs: seq<string>, a: nat, b: nat)
    requires a < b < |FirstSeen(xs)|
    ensures IndexOf(xs, FirstSeen(xs)[a]) < IndexOf(xs, FirstSeen(xs)[b])
    decreases |xs|
  {
    var n := |xs| - 1;
    var init, x := xs[..n], xs[n];
    assert xs == init + [x];
    var zs, ys := FirstSeen(init), FirstSeen(xs);
    assert ys == if x in zs then zs else zs + [x];
    assert ys[a] == zs[a] && zs[a] in init;
    IndexOfAppend(init, x, ys[a]);
    if b < |zs| {
      assert ys[b] == zs[b] && zs[b] in init;
      IndexOfAppend(init, x, ys[b]);
      FirstSeenOrder(init, a, b);
    } else {
      assert ys[b] == x && x !in init;
      IndexOfLast(init, x);
    }
  }

  // ---------------------------------------------------------------------------
  // Character counts
  // ---------------------------------------------------------------------------

  /** The number of characters in `lines`, terminators included. */
  function LinesLen(lines: seq<string>): nat
    decreases |lines|
  {
    if lines == [] then 0 else LinesLen(lines[..|lines| - 1]) + |lines[|lines| - 1]|
  }

  /** Counting more lines never gives a smaller count; a non-empty line adds at least one. */
  lemma {:induction false} LinesLenPrefix(lines: seq<string>, i: nat, j: nat)
    requires i <= j <= |lines|
    ensures LinesLen(lines[..i]) <= LinesLen(lines[..j])
    ensures i < j && lines[j - 1] != [] ==> LinesLen(lines[..i]) < LinesLen(lines[..j])
    decreases j - i
  {
    if i < j {
      LinesLenPrefix(lines, i, j - 1);
      assert lines[..j][..j - 1] == lines[..j - 1];
    }
  }

  /** Seeking to the number of characters in the first `j` lines yields the lines from `j` on. */
  lemma {:induction false} SeekLinesLen(lines: seq<string>, j: nat)
    requires j <= |lines|
    requires forall k :: 0 <= k < |lines| ==> lines[k] != []
    ensures SeekLines(lines, LinesLen(lines[..j])) == lines[j..]
    decreases j
  {
    if j > 0 {
      var rest := lines[1..];
      LinesLenShift(lines, j);
      SeekLinesLen(rest, j - 1);
      assert rest[j - 1..] == lines[j..];
      LinesLenPrefix(lines, 0, j);
      assert lines[..0] == [];
    }
  }

  /** Counting the first `j` lines is counting the first line, then the next `j - 1`. */
  lemma {:induction false} LinesLenShift(lines: seq<string>, j: nat)
    requires 0 < j <= |lines|
    ensures LinesLen(lines[..j]) == |lines[0]| + LinesLen(lines[1..][..j - 1])
    decreases j
  {
    if j == 1 {
      assert lines[..1][..0] == [];
      assert lines[1..][..0] == [];
    } else {
      LinesLenShift(lines, j - 1);
      assert lines[..j][..j - 1] == lines[..j - 1];
      assert lines[1..][..j - 1][..j - 2] == lines[1..][..j - 2];
      assert lines[1..][..j - 1][j - 2] == lines[j - 1];
    }
  }

  // ---------------------------------------------------------------------------
  // FASTA pass (create_index.py, lines 47-54)
  // ---------------------------------------------------------------------------

  predicate IsHeader(line: string) {
    StartsWith(line, ">")
  }

  /** `line.lstrip(">").rstrip("\n|\r|\r\n")`: the name a header line gives. */
  function HeaderName(line: string): string {
    RStrip(LStrip(line, {'>'}), LineEnd)
  }

  /** The names of the header lines, in file order. */
  function HeaderNames(lines: seq<string>): seq<string>
    decreases |lines|
  {
    if lines == [] then []
    else
      var last := lines[|lines| - 1];
      HeaderNames(lines[..|lines| - 1]) + (if IsHeader(last) then [HeaderName(last)] else [])
  }

  /** The dict of FASTA offsets after reading `lines`. */
  function FastaIndex(lines: seq<string>): Dict
    decreases |lines|
  {
    if lines == [] then EmptyDict
    else
      var d := FastaIndex(lines[..|lines| - 1]);
      var last := lines[|lines| - 1];
      if IsHeader(last) then Put(d, HeaderName(last), LinesLen(lines)) else d
  }

  /**
   * The FASTA loop: the counter grows by every line's length and each header
   * records the counter after its own line under its name.
   */
  method IndexFasta(lines: seq<string>) returns (dic: Dict, faByte: nat)
    ensures dic == FastaIndex(lines)
    ensures faByte == LinesLen(lines)
  {
    dic, faByte := EmptyDict, 0;
    for i := 0 to |lines|
      invariant dic == FastaIndex(lines[..i])
      invariant faByte == LinesLen(lines[..i])
    {
      var line := lines[i];
      assert lines[..i + 1][..i] == lines[..i];
      faByte := faByte + |line|;
      if IsHeader(line) {
        var chr := HeaderName(line);
        dic := Put(dic, chr, faByte);
      }
    }
    assert lines[..|lines|] == lines;
  }

  /** The dict's keys are distinct and match its entries. */
  lemma {:induction false} FastaIndexValid(lines: seq<string>)
    ensures FastaIndex(lines).Valid()
    decreases |lines|
  {
    if lines != [] {
      FastaIndexValid(lines[..|lines| - 1]);
    }
  }

  /** The keys are the header names, without repeats, in the order they first appear. */
  lemma {:induction false} FastaKeys(lines: seq<string>)
    ensures FastaIndex(lines).keys == FirstSeen(HeaderNames(lines))
    decreases |lines|
  {
    if lines != [] {
      var init, last := lines[..|lines| - 1], lines[|lines| - 1];
      FastaKeys(init);
      FastaIndexValid(init);
      var names := HeaderNames(init);
      if IsHeader(last) {
        assert HeaderNames(lines) == names + [HeaderName(last)];
        assert (names + [HeaderName(last)])[..|names|] == names;
      } else {
        assert HeaderNames(lines) == names;
      }
    }
  }

  /**
   * The offset stored under a name is the character count up to and including
   * the last header line with that name.
   */
  lemma FastaOffset(lines: seq<string>, i: nat)
    requires i < |lines| && IsHeader(lines[i])
    requires HeaderName(lines[i]) !in HeaderNames(lines[i + 1..])
    ensures HeaderName(lines[i]) in FastaIndex(lines).vals
    ensures FastaIndex(lines).vals[HeaderName(lines[i])] == LinesLen(lines[..i + 1])
  {
    var pre, post := lines[..i + 1], lines[i + 1..];
    assert pre[i] == lines[i];
    FastaIndexSuffix(pre, post, HeaderName(lines[i]));
    assert pre + post == lines;
  }

  /** Lines that hold no header with the given name leave that name's offset alone. */
  lemma {:induction false} FastaIndexSuffix(pre: seq<string>, post: seq<string>, name: string)
    requires name in FastaIndex(pre).vals && name !in HeaderNames(post)
    ensures name in FastaIndex(pre + post).vals
    ensures FastaIndex(pre + post).vals[name] == FastaIndex(pre).vals[name]
    decreases |post|
  {
    if post == [] {
      assert pre + post == pre;
    } else {
      var init := post[..|post| - 1];
      FastaIndexSuffix(pre, init, name);
      var all := pre + post;
      assert all[..|all| - 1] == pre + init;
      assert all[|all| - 1] == post[|post| - 1];
      FastaIndexKeeps(all, name);
    }
  }

  /** A last line that is no header with the given name leaves that name's offset alone. */
  lemma FastaIndexKeeps(lines: seq<string>, name: string)
    requires lines != [] && name in FastaIndex(lines[..|lines| - 1]).vals
    requires IsHeader(lines[|lines| - 1]) ==> HeaderName(lines[|lines| - 1]) != name
    ensures name in FastaIndex(lines).vals
    ensures FastaIndex(lines).vals[name] == FastaIndex(lines[..|lines| - 1]).vals[name]
  {
  }

  /** A name whose last header comes later in the file gets a strictly larger offset. */
  lemma FastaOffsetsIncrease(lines: seq<string>, i: nat, j: nat)
    requires i < j < |lines| && IsHeader(lines[i]) && IsHeader(lines[j])
    requires HeaderName(lines[i]) !in HeaderNames(lines[i + 1..])
    requires HeaderName(lines[j]) !in HeaderNames(lines[j + 1..])
    ensures HeaderName(lines[i]) in FastaIndex(lines).vals && HeaderName(lines[j]) in FastaIndex(lines).vals
    ensures FastaIndex(lines).vals[HeaderName(lines[i])] < FastaIndex(lines).vals[HeaderName(lines[j])]
  {
    FastaOffset(lines, i);
    FastaOffset(lines, j);
    CountsIncrease(lines, i, j);
  }

  /** The count through a later header line is strictly larger. */
  lemma CountsIncrease(lines: seq<string>, i: nat, j: nat)
    requires i < j < |lines| && IsHeader(lines[j])
    ensures LinesLen(lines[..i + 1]) < LinesLen(lines[..j + 1])
  {
    LinesLenPrefix(lines, i + 1, j + 1);
  }

  // ---------------------------------------------------------------------------
  // VCF pass (create_index.py, lines 58-70)
  // ---------------------------------------------------------------------------

  predicate IsMeta(line: string) {
    StartsWith(line, "#")
  }

  /** `line.split("\t")[0]` */
  function Chrom(line: string): string {
    Split(line, '\t')[0]
  }

  /** The chromosome of the last data line, or "" when there is none. */
  function LastChrom(lines: seq<string>): string
    decreases |lines|
  {
    if lines == [] then ""
    else if IsMeta(lines[|lines| - 1]) then LastChrom(lines[..|lines| - 1])
    else Chrom(lines[|lines| - 1])
  }

  /** Line `i` is a data line on another chromosome than the data line before it. */
  predicate RunStart(lines: seq<string>, i: nat)
    requires i < |lines|
  {
    !IsMeta(lines[i]) && Chrom(lines[i]) != LastChrom(lines[..i])
  }

  /** The chromosomes of the runs, in file order. */
  function RunChroms(lines: seq<string>): seq<string>
    decreases |lines|
  {
    if lines == [] then []
    else
      var n := |lines| - 1;
      RunChroms(lines[..n]) + (if RunStart(lines, n) then [Chrom(lines[n])] else [])
  }

  /** The loop variables of the VCF pass: the dict, `tmp_chr` and `vcf_byte`. */
  datatype VcfScan = VcfScan(dic: Dict, last: string, byte: nat)

  /** The state of the VCF pass after reading `lines`. */
  function VcfIndex(lines: seq<string>): (st: VcfScan)
    ensures st.last == LastChrom(lines)
    ensures st.byte == LinesLen(lines)
    decreases |lines|
  {
    if lines == [] then VcfScan(EmptyDict, "", 0)
    else
      var st := VcfIndex(lines[..|lines| - 1]);
      var line := lines[|lines| - 1];
      if IsMeta(line) then st.(byte := st.byte + |line|)
      else
        var chr := Chrom(line);
        var d := if st.last != chr then Put(st.dic, chr, st.byte) else st.dic;
        VcfScan(d, chr, st.byte + |line|)
  }

  /**
   * The VCF loop: header lines only advance the counter; a data line whose
   * chromosome differs from the previous data line's records the counter
   * before it.
   */
  method IndexVcf(lines: seq<string>) returns (dic: Dict, vcfByte: nat)
    ensures dic == VcfIndex(lines).dic
    ensures vcfByte == LinesLen(lines)
  {
    dic, vcfByte := EmptyDict, 0;
    var tmpChr := "";
    for i := 0 to |lines|
      invariant VcfIndex(lines[..i]) == VcfScan(dic, tmpChr, vcfByte)
    {
      var line := lines[i];
      assert lines[..i + 1][..i] == lines[..i];
      if IsMeta(line) {
        vcfByte := vcfByte + |line|;
      } else {
        var chr := Chrom(line);
        if tmpChr != chr {
          dic := Put(dic, chr, vcfByte);
          tmpChr := chr;
        }
        vcfByte := vcfByte + |line|;
      }
    }
    assert lines[..|lines|] == lines;
  }

  /** The dict's keys are distinct and match its entries. */
  lemma {:induction false} VcfIndexValid(lines: seq<string>)
    ensures VcfIndex(lines).dic.Valid()
    decreases |lines|
  {
    if lines != [] {
      VcfIndexValid(lines[..|lines| - 1]);
    }
  }

  /** The keys are the run chromosomes, without repeats, in the order they first appear. */
  lemma {:induction false} VcfKeys(lines: seq<string>)
    ensures VcfIndex(lines).dic.keys == FirstSeen(RunChroms(lines))
    decreases |lines|
  {
    if lines != [] {
      var n := |lines| - 1;
      var init := lines[..n];
      VcfKeys(init);
      VcfIndexValid(init);
      var chroms := RunChroms(init);
      if RunStart(lines, n) {
        assert RunChroms(lines) == chroms + [Chrom(lines[n])];
        assert (chroms + [Chrom(lines[n])])[..|chroms|] == chroms;
      } else {
        assert RunChroms(lines) == chroms;
      }
    }
  }

  /**
   * The offset stored for a chromosome is the character count before the
   * first line of its last run: a chromosome that comes back after another
   * one is overwritten.
   */
  lemma {:induction false} VcfOffset(lines: seq<string>, i: nat)
    requires i < |lines| && RunStart(lines, i)
    requires forall j :: i < j < |lines| && RunStart(lines, j) ==> Chrom(lines[j]) != Chrom(lines[i])
    ensures Chrom(lines[i]) in VcfIndex(lines).dic.vals
    ensures VcfIndex(lines).dic.vals[Chrom(lines[i])] == LinesLen(lines[..i])
    decreases |lines|
  {
    var n := |lines| - 1;
    if i < n {
      var init := lines[..n];
      assert init[..i] == lines[..i];
      assert RunStart(init, i);
      forall j | i < j < |init| && RunStart(init, j) ensures Chrom(init[j]) != Chrom(init[i]) {
        assert init[..j] == lines[..j];
        assert RunStart(lines, j);
      }
      VcfOffset(init, i);
      assert lines[..n] == init;
    } else {
      assert lines[..i] == lines[..n];
    }
  }

  // ---------------------------------------------------------------------------
  // Output (create_index.py, lines 80-82)
  // ---------------------------------------------------------------------------

  /** One line of the index: a chromosome and its FASTA and VCF offsets. */
  datatype IndexEntry = IndexEntry(chrom: string, faOffset: nat, vcfOffset: nat)

  /**
   * The entries for the keys of the FASTA dict that the VCF dict also holds,
   * in FASTA key order, each with the offsets both dicts store for it.
   */
  function CommonEntries(keys: seq<string>, fa: map<string, nat>, vcf: map<string, nat>): (es: seq<IndexEntry>)
    requires forall k :: k in keys ==> k in fa
    ensures |es| <= |keys|
    ensures forall j :: 0 <= j < |es| ==>
      es[j].chrom in keys && es[j].chrom in vcf &&
      es[j].faOffset == fa[es[j].chrom] && es[j].vcfOffset == vcf[es[j].chrom]
    decreases |keys|
  {
    if keys == [] then []
    else
      var n := |keys| - 1;
      var init, k := keys[..n], keys[n];
      assert keys == init + [k];
      var es := CommonEntries(init, fa, vcf);
      if k in vcf then es + [IndexEntry(k, fa[k], vcf[k])] else es
  }

  /** Every key that both dicts hold has an entry. */
  lemma {:induction false} CommonEntriesComplete(keys: seq<string>, fa: map<string, nat>, vcf: map<string, nat>, k: string)
    requires forall k :: k in keys ==> k in fa
    requires k in keys && k in vcf
    ensures exists j :: 0 <= j < |CommonEntries(keys, fa, vcf)| && CommonEntries(keys, fa, vcf)[j].chrom == k
    decreases |keys|
  {
    var n := |keys| - 1;
    var init, last := keys[..n], keys[n];
    assert keys == init + [last];
    var es, r := CommonEntries(init, fa, vcf), CommonEntries(keys, fa, vcf);
    if k == last {
      assert r[|r| - 1].chrom == k;
    } else {
      assert k in init;
      CommonEntriesComplete(init, fa, vcf, k);
      var j :| 0 <= j < |es| && es[j].chrom == k;
      assert r[j] == es[j];
    }
  }

  /** One more key adds its entry at the end when the VCF dict holds it. */
  lemma CommonEntriesSnoc(keys: seq<string>, fa: map<string, nat>, vcf: map<string, nat>)
    requires keys != [] && forall k :: k in keys ==> k in fa
    ensures var init, last := keys[..|keys| - 1], keys[|keys| - 1];
      CommonEntries(keys, fa, vcf) ==
        CommonEntries(init, fa, vcf) + (if last in vcf then [IndexEntry(last, fa[last], vcf[last])] else [])
  {
  }

  /** The entries come in the order of their keys. */
  lemma {:induction false} CommonEntriesOrder(keys: seq<string>, fa: map<string, nat>, vcf: map<string, nat>, a: nat, b: nat)
    requires forall k :: k in keys ==> k in fa
    requires forall a, b :: 0 <= a < b < |keys| ==> keys[a] != keys[b]
    requires a < b < |CommonEntries(keys, fa, vcf)|
    ensures IndexOf(keys, CommonEntries(keys, fa, vcf)[a].chrom) < IndexOf(keys, CommonEntries(keys, fa, vcf)[b].chrom)
    decreases |keys|
  {
    var init := keys[..|keys| - 1];
    if b < |CommonEntries(init, fa, vcf)| {
      CommonEntriesOrder(init, fa, vcf, a, b);
      OrderBothEarlier(keys, fa, vcf, a, b);
    } else {
      OrderLastKey(keys, fa, vcf, a, b);
    }
  }

  /** Two entries from the keys before the last keep their order when the last key is added. */
  lemma OrderBothEarlier(keys: seq<string>, fa: map<string, nat>, vcf: map<string, nat>, a: nat, b: nat)
    requires keys != [] && forall k :: k in keys ==> k in fa
    requires var es := CommonEntries(keys[..|keys| - 1], fa, vcf);
      a < b < |es| && IndexOf(keys[..|keys| - 1], es[a].chrom) < IndexOf(keys[..|keys| - 1], es[b].chrom)
    ensures b < |CommonEntries(keys, fa, vcf)|
    ensures IndexOf(keys, CommonEntries(keys, fa, vcf)[a].chrom) < IndexOf(keys, CommonEntries(keys, fa, vcf)[b].chrom)
  {
    var init := keys[..|keys| - 1];
    CommonEntriesSnoc(keys, fa, vcf);
    var es, r := CommonEntries(init, fa, vcf), CommonEntries(keys, fa, vcf);
    assert r[a] == es[a] && r[b] == es[b];
    IndexOfInit(keys, es[a].chrom);
    IndexOfInit(keys, es[b].chrom);
  }

  /** A value found before the last element is found at the same place without it. */
  lemma IndexOfInit(xs: seq<string>, x: string)
    requires xs != [] && x in xs[..|xs| - 1]
    ensures IndexOf(xs, x) == IndexOf(xs[..|xs| - 1], x)
  {
    IndexOfAppend(xs[..|xs| - 1], xs[|xs| - 1], x);
    assert xs[..|xs| - 1] + [xs[|xs| - 1]] == xs;
  }

  /** An entry for the last key comes after every entry from the keys before it. */
  lemma OrderLastKey(keys: seq<string>, fa: map<string, nat>, vcf: map<string, nat>, a: nat, b: nat)
    requires keys != [] && forall k :: k in keys ==> k in fa
    requires forall a, b :: 0 <= a < b < |keys| ==> keys[a] != keys[b]
    requires a < b < |CommonEntries(keys, fa, vcf)| && b >= |CommonEntries(keys[..|keys| - 1], fa, vcf)|
    ensures IndexOf(keys, CommonEntries(keys, fa, vcf)[a].chrom) < IndexOf(keys, CommonEntries(keys, fa, vcf)[b].chrom)
  {
    var init, last := keys[..|keys| - 1], keys[|keys| - 1];
    assert keys == init + [last];
    CommonEntriesSnoc(keys, fa, vcf);
    var es, r := CommonEntries(init, fa, vcf), CommonEntries(keys, fa, vcf);
    assert last !in init;
    assert r[a] == es[a] && r[b].chrom == last;
    IndexOfAppend(init, last, es[a].chrom);
    IndexOfLast(init, last);
  }

  lemma IndexOfLast(xs: seq<string>, x: string)
    requires x !in xs
    ensures IndexOf(xs + [x], x) == |xs|
  {
    assert forall j :: 0 <= j < |xs| ==> (xs + [x])[j] == xs[j];
  }

  /** `"\t".join([chr, fa_offset, vcf_offset]) + "\n"` */
  function EntryLine(e: IndexEntry): string {
    e.chrom + "\t" + NatStr(e.faOffset) + "\t" + NatStr(e.vcfOffset) + "\n"
  }

  /** The entries of the index for a FASTA file and a VCF file. */
  function Entries(faLines: seq<string>, vcfLines: seq<string>): seq<IndexEntry> {
    var fa, vcf := FastaIndex(faLines), VcfIndex(vcfLines).dic;
    FastaIndexValid(faLines);
    CommonEntries(fa.keys, fa.vals, vcf.vals)
  }

  /** The output loop: one line for each key of the FASTA dict that the VCF dict also holds. */
  method WriteEntries(keys: seq<string>, fa: map<string, nat>, vcf: map<string, nat>) returns (written: seq<string>)
    requires forall k :: k in keys ==> k in fa
    ensures var es := CommonEntries(keys, fa, vcf);
      |written| == |es| && forall j :: 0 <= j < |es| ==> written[j] == EntryLine(es[j])
  {
    written := [];
    for i := 0 to |keys|
      invariant var es := CommonEntries(keys[..i], fa, vcf);
        |written| == |es| && forall j :: 0 <= j < |es| ==> written[j] == EntryLine(es[j])
    {
      var chr := keys[i];
      assert keys[..i + 1][..i] == keys[..i];
      if chr in vcf {
        written := written + [EntryLine(IndexEntry(chr, fa[chr], vcf[chr]))];
      }
    }
    assert keys[..|keys|] == keys;
  }

  /**
   * The whole pass: both loops, then one line per chromosome of the FASTA
   * dict that the VCF dict also holds.
   */
  method BuildIndex(faLines: seq<string>, vcfLines: seq<string>) returns (written: seq<string>)
    ensures var es := Entries(faLines, vcfLines);
      |written| == |es| && forall j :: 0 <= j < |es| ==> written[j] == EntryLine(es[j])
  {
    var faDic, _ := IndexFasta(faLines);
    var vcfDic, _ := IndexVcf(vcfLines);
    FastaIndexValid(faLines);
    written := WriteEntries(faDic.keys, faDic.vals, vcfDic.vals);
  }

  lemma JoinThree(a: string, b: string, c: string)
    ensures JoinWith([a, b, c], '\t') == a + "\t" + b + "\t" + c
  {
    assert [a, b, c][1..] == [b, c];
    assert [b, c][1..] == [c];
    assert JoinWith([c], '\t') == c;
    assert JoinWith([b, c], '\t') == b + "\t" + c;
    assert a + "\t" + (b + "\t" + c) == a + "\t" + b + "\t" + c;
  }

  /** A line of the index splits back into the chromosome and the two offsets. */
  lemma EntryLineRoundTrip(e: IndexEntry)
    requires Free(e.chrom, {'\t'})
    ensures var cols := Split(RStrip(EntryLine(e), LineEnd), '\t');
      |cols| == 3 && cols[0] == e.chrom &&
      PyInt(cols[1]) == Ok(e.faOffset) && PyInt(cols[2]) == Ok(e.vcfOffset)
  {
    var a, b := NatStr(e.faOffset), NatStr(e.vcfOffset);
    var body := e.chrom + "\t" + a + "\t" + b;
    assert EntryLine(e) == body + "\n";
    assert body[|body| - 1] == b[|b| - 1];
    StripNewline(body);
    assert Free(a, {'\t'}) && Free(b, {'\t'});
    JoinThree(e.chrom, a, b);
    SplitJoin([e.chrom, a, b], '\t');
    PyIntNatStr(e.faOffset);
    PyIntNatStr(e.vcfOffset);
  }

  // ---------------------------------------------------------------------------
  // Using the index
  // ---------------------------------------------------------------------------

  /**
   * For a chromosome whose header is the first line starting with ">" + chr
   * and the last header with that name, seeking to the indexed offset reads
   * the same lines as scanning for the header, so fasta_seq gives the same
   * region either way.
   */
  lemma IndexedLinesAgree(lines: seq<string>, chr: string, i: nat)
    requires forall k :: 0 <= k < |lines| ==> lines[k] != []
    requires i < |lines| && FirstMatch(lines, ">" + chr, 0) == i && HeaderName(lines[i]) == chr
    requires chr !in HeaderNames(lines[i + 1..])
    ensures chr in FastaIndex(lines).vals
    ensures SequenceLines(lines, chr, Some(FastaIndex(lines).vals[chr])) == SequenceLines(lines, chr, None)
  {
    MatchIsHeader(lines, chr, i);
    FastaOffset(lines, i);
    var off := FastaIndex(lines).vals[chr];
    SeekLinesLen(lines, i + 1);
    assert SequenceLines(lines, chr, Some(off)) == lines[i + 1..];
    assert SequenceLines(lines, chr, None) == lines[i + 1..];
  }

  /**
   * With a header name that occurs twice the two ways part: the index keeps
   * the later header's offset, the scan stops at the first one. For the file
   * ">a", "AC", ">a", "GT" the seek reads "GT" and the scan reads "AC".
   */
  lemma RepeatedHeaderDisagrees(name: string, x: string, y: string)
    requires name != [] && name[0] != '>' && Free(name, LineEnd)
    requires Free(x, LineEnd) && Free(y, LineEnd) && (y == [] || y[0] != '>')
    ensures var h := ">" + name + "\n";
      var lines := [h, x + "\n", h, y + "\n"];
      name in FastaIndex(lines).vals &&
      Bases(SequenceLines(lines, name, Some(FastaIndex(lines).vals[name]))) == y &&
      StartsWith(Bases(SequenceLines(lines, name, None)), x)
  {
    var h := ">" + name + "\n";
    var lines := [h, x + "\n", h, y + "\n"];
    RepeatedSeek(lines, name, y);
    RepeatedScan(lines, name, x);
  }

  /** Seeking to the indexed offset of the repeated name reads the line after its second header. */
  lemma RepeatedSeek(lines: seq<string>, name: string, y: string)
    requires name != [] && name[0] != '>' && Free(name, LineEnd)
    requires Free(y, LineEnd) && (y == [] || y[0] != '>')
    requires |lines| == 4 && lines[2] == ">" + name + "\n" && lines[3] == y + "\n"
    requires lines[0] != [] && lines[1] != []
    ensures name in FastaIndex(lines).vals
    ensures Bases(SequenceLines(lines, name, Some(FastaIndex(lines).vals[name]))) == y
  {
    assert forall k :: 0 <= k < |lines| ==> lines[k] != [] by {
      assert lines[2] != [] && lines[3] != [];
    }
    SeekLinesLen(lines, 3);
    assert lines[3..] == [y + "\n"];
    OneLineBases(y);
    HeaderOf(name);
    assert HeaderNames(lines[3..]) == [] by {
      assert lines[3..][..0] == [];
      assert !IsHeader(lines[3]);
    }
    FastaOffset(lines, 2);
  }

  /** Scanning for the repeated name stops at its first header and reads the line after it first. */
  lemma RepeatedScan(lines: seq<string>, name: string, x: string)
    requires Free(x, LineEnd)
    requires |lines| >= 2 && lines[0] == ">" + name + "\n" && lines[1] == x + "\n"
    ensures StartsWith(Bases(SequenceLines(lines, name, None)), x)
  {
    assert FirstMatch(lines, ">" + name, 0) == 0 by {
      assert lines[0][..|">" + name|] == ">" + name;
    }
    FirstLineBases(lines[1..], x);
  }

  /** Lines whose first line is `x` + newline hold bases that start with `x`. */
  lemma FirstLineBases(r: seq<string>, x: string)
    requires Free(x, LineEnd) && |r| >= 1 && r[0] == x + "\n"
    ensures StartsWith(Bases(r), x)
  {
    assert r == [x + "\n"] + r[1..];
    OneLineBases(x);
    BasesAppend([x + "\n"], r[1..]);
  }

  /** The header line of a name gives that name back. */
  lemma HeaderOf(name: string)
    requires name != [] && name[0] != '>' && Free(name, LineEnd)
    ensures IsHeader(">" + name + "\n") && HeaderName(">" + name + "\n") == name
  {
    var h := ">" + name + "\n";
    assert h[1..] == name + "\n";
    assert h[..1] == ">";
    assert LStrip(h, {'>'}) == name + "\n";
    StripNewline(name);
  }

  /** The file of RepeatedHeaderDisagrees, with positions 1 to 2 read both ways. */
  lemma RepeatedHeaderExample(lines: seq<string>)
    requires lines == [">a\n", "AC\n", ">a\n", "GT\n"]
    ensures "a" in FastaIndex(lines).vals
    ensures Window(Bases(SequenceLines(lines, "a", Some(FastaIndex(lines).vals["a"]))), 1, 2) == "GT"
    ensures Window(Bases(SequenceLines(lines, "a", None)), 1, 2) == "AC"
  {
    ExampleLines(lines);
    RepeatedHeaderDisagrees("a", "AC", "GT");
    var seek, scan := SequenceLines(lines, "a", Some(FastaIndex(lines).vals["a"])), SequenceLines(lines, "a", None);
    WindowOfPrefix(Bases(seek), "GT");
    WindowOfPrefix(Bases(scan), "AC");
  }

  /** The example's lines, written as RepeatedHeaderDisagrees builds them. */
  lemma ExampleLines(lines: seq<string>)
    requires lines == [">a\n", "AC\n", ">a\n", "GT\n"]
    ensures lines == [">" + "a" + "\n", "AC" + "\n", ">" + "a" + "\n", "GT" + "\n"]
  {
    assert ">" + "a" + "\n" == ">a\n" by {
      assert |">" + "a" + "\n"| == 3;
    }
    assert "AC" + "\n" == "AC\n" && "GT" + "\n" == "GT\n";
  }

  /** Positions 1 to 2 of a text that starts with the two characters `x` are `x`. */
  lemma WindowOfPrefix(t: string, x: string)
    requires |x| == 2 && StartsWith(t, x)
    ensures Window(t, 1, 2) == x
  {
  }

  /** Stripping a line whose text does not end in a line-end character removes exactly its newline. */
  lemma StripNewline(x: string)
    requires x == [] || x[|x| - 1] !in LineEnd
    ensures RStrip(x + "\n", LineEnd) == x
  {
    var t := x + "\n";
    assert t[..|t| - 1] == x;
    if x != [] {
      assert t[..|t| - 1][|x| - 1] == x[|x| - 1];
    }
  }

  /** The bases of a single line `x` + newline are `x`. */
  lemma OneLineBases(x: string)
    requires Free(x, LineEnd)
    ensures Bases([x + "\n"]) == x
  {
    StripNewline(x);
    assert [x + "\n"][..0] == [];
  }

  /** A line that starts with ">" + chr is a header line. */
  lemma MatchIsHeader(lines: seq<string>, chr: string, i: nat)
    requires i < |lines| && StartsWith(lines[i], ">" + chr)
    ensures IsHeader(lines[i])
  {
    assert lines[i][..|">" + chr|] == ">" + chr;
  }
}
