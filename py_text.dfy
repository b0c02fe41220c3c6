/**
 * The Python built-ins that the tool's core relies on, stated over `string`
 * (a sequence of characters) and `seq`: prefix tests, `rstrip`/`lstrip` with a
 * set of characters, `str.split` and `re.split` on a character class, `int()`,
 * `str()` of a natural number, list indexing (with negative indices), slicing,
 * slice assignment and `"".join`.
 */
module PyText {

  /** The two Python exceptions that the modelled code can raise. */
  datatype Error = IndexError | ValueError

  datatype Result<+T> = Ok(value: T) | Err(error: Error)

  datatype Option<+T> = None | Some(value: T)

  /** `s.startswith(prefix)` */
  predicate StartsWith(s: string, prefix: string) {
    |prefix| <= |s| && s[..|prefix|] == prefix
  }

  /** No character of `s` belongs to `chars`. */
  predicate Free(s: string, chars: set<char>) {
    forall k :: 0 <= k < |s| ==> s[k] !in chars
  }

  /** `s.rstrip(chars)`: the longest prefix of `s` that does not end in one of `chars`. */
  function RStrip(s: string, chars: set<char>): (r: string)
    ensures |r| <= |s| && r == s[..|r|]
    ensures r == [] || r[|r| - 1] !in chars
    ensures forall k :: |r| <= k < |s| ==> s[k] in chars
    decreases |s|
  {
    if |s| > 0 && s[|s| - 1] in chars then RStrip(s[..|s| - 1], chars) else s
  }

  /** `s.lstrip(chars)`: the longest suffix of `s` that does not start with one of `chars`. */
  function LStrip(s: string, chars: set<char>): (r: string)
    ensures |r| <= |s| && r == s[|s| - |r|..]
    ensures r == [] || r[0] !in chars
    ensures forall k :: 0 <= k < |s| - |r| ==> s[k] in chars
    decreases |s|
  {
    if |s| > 0 && s[0] in chars then LStrip(s[1..], chars) else s
  }

  /**
   * `re.split` on a one-character class: the pieces of `s` between the
   * separators, so one more piece than `s` has separators.
   */
  function SplitAny(s: string, seps: set<char>): (parts: seq<string>)
    ensures |parts| >= 1
    ensures Free(s, seps) ==> parts == [s]
    decreases |s|
  {
    if s == [] then [[]]
    else
      var rest := SplitAny(s[1..], seps);
      if s[0] in seps then [[]] + rest
      else
        assert Free(s, seps) ==> [s[0]] + s[1..] == s;
        [[s[0]] + rest[0]] + rest[1..]
  }

  /** No piece contains a separator. */
  lemma {:induction false} SplitAnyPieces(s: string, seps: set<char>)
    ensures var parts := SplitAny(s, seps);
      forall k :: 0 <= k < |parts| ==> Free(parts[k], seps)
    decreases |s|
  {
    if s != [] {
      SplitAnyPieces(s[1..], seps);
      SplitAnyCons(s, seps);
    }
  }

  /** `s.split(sep)` for a one-character separator. */
  function Split(s: string, sep: char): seq<string> {
    SplitAny(s, {sep})
  }

  /** `sep.join(parts)` for a one-character separator. */
  function JoinWith(parts: seq<string>, sep: char): string
    requires |parts| >= 1
  {
    if |parts| == 1 then parts[0] else parts[0] + [sep] + JoinWith(parts[1..], sep)
  }

  /** Splitting right after the first separator gives the piece before it, then the rest. */
  lemma {:induction false} SplitAnyAt(a: string, c: char, b: string, seps: set<char>)
    requires Free(a, seps) && c in seps
    ensures SplitAny(a + [c] + b, seps) == [a] + SplitAny(b, seps)
    decreases |a|
  {
    if a == [] {
      assert a + [c] + b == [c] + b;
      assert ([c] + b)[1..] == b;
    } else {
      assert (a + [c] + b)[1..] == a[1..] + [c] + b;
      SplitAnyAt(a[1..], c, b, seps);
      assert [a[0]] + a[1..] == a;
    }
  }

  /** Splitting a string with a first character: a separator starts a new piece, anything else joins the first. */
  lemma SplitAnyCons(x: string, seps: set<char>)
    requires x != []
    ensures var q := SplitAny(x[1..], seps);
      SplitAny(x, seps) == if x[0] in seps then [[]] + q else [[x[0]] + q[0]] + q[1..]
  {
  }

  /** Appending text without separators only lengthens the last piece. */
  lemma {:induction false} SplitAnyAppendFree(a: string, b: string, seps: set<char>)
    requires Free(b, seps)
    ensures var p := SplitAny(a, seps);
      SplitAny(a + b, seps) == p[..|p| - 1] + [p[|p| - 1] + b]
    decreases |a|
  {
    var p := SplitAny(a, seps);
    if a == [] {
      assert a + b == b;
      assert p == [[]];
    } else {
      var c := a[0];
      assert (a + b)[0] == c;
      assert (a + b)[1..] == a[1..] + b;
      SplitAnyAppendFree(a[1..], b, seps);
      SplitAnyCons(a, seps);
      SplitAnyCons(a + b, seps);
      var q, qb := SplitAny(a[1..], seps), SplitAny(a[1..] + b, seps);
      SplitAnyAppendStep(c, q, qb, b, c in seps);
    }
  }

  /** The sequence reasoning behind one step of SplitAnyAppendFree. */
  lemma SplitAnyAppendStep(c: char, q: seq<string>, qb: seq<string>, b: string, sep: bool)
    requires |q| >= 1 && qb == q[..|q| - 1] + [q[|q| - 1] + b]
    ensures var p := if sep then [[]] + q else [[c] + q[0]] + q[1..];
      (if sep then [[]] + qb else [[c] + qb[0]] + qb[1..]) == p[..|p| - 1] + [p[|p| - 1] + b]
  {
    if !sep {
      if |q| == 1 {
        assert [c] + (q[0] + b) == ([c] + q[0]) + b;
      } else {
        assert qb[0] == q[0];
        assert qb[1..] == q[1..|q| - 1] + [q[|q| - 1] + b];
      }
    }
  }

  /** Splitting a joined list of separator-free pieces gives the pieces back. */
  lemma {:induction false} SplitJoin(parts: seq<string>, sep: char)
    requires |parts| >= 1
    requires forall k :: 0 <= k < |parts| ==> Free(parts[k], {sep})
    ensures Split(JoinWith(parts, sep), sep) == parts
    decreases |parts|
  {
    if |parts| > 1 {
      SplitJoin(parts[1..], sep);
      SplitAnyAt(parts[0], sep, JoinWith(parts[1..], sep), {sep});
      assert [parts[0]] + parts[1..] == parts;
    }
  }

  predicate IsDigit(ch: char) {
    '0' <= ch <= '9'
  }

  predicate AllDigits(s: string) {
    forall k :: 0 <= k < |s| ==> IsDigit(s[k])
  }

  /** The value of a string of decimal digits. */
  function DigitsValue(s: string): nat
    requires AllDigits(s)
    decreases |s|
  {
    if s == [] then 0 else 10 * DigitsValue(s[..|s| - 1]) + (s[|s| - 1] as int - '0' as int)
  }

  /**
   * `int(s)` for an optional sign followed by ASCII decimal digits; anything
   * else raises ValueError.
   */
  function PyInt(s: string): (r: Result<int>)
    ensures r.Ok? <==> (|s| > 0 && AllDigits(s)) || (|s| > 1 && (s[0] == '-' || s[0] == '+') && AllDigits(s[1..]))
    ensures r.Ok? && |s| > 0 && s[0] != '-' ==> r.value >= 0
    ensures r.Err? ==> r.error == ValueError
  {
    if |s| > 0 && AllDigits(s) then Ok(DigitsValue(s))
    else if |s| > 1 && s[0] == '-' && AllDigits(s[1..]) then Ok(0 - DigitsValue(s[1..]))
    else if |s| > 1 && s[0] == '+' && AllDigits(s[1..]) then Ok(DigitsValue(s[1..]))
    else Err(ValueError)
  }

  /** `str(n)` for a natural number: its decimal digits, without leading zeros. */
  function NatStr(n: nat): (s: string)
    ensures |s| >= 1 && AllDigits(s)
    ensures |s| > 1 ==> s[0] != '0'
  {
    if n < 10 then ['0' + n as char] else NatStr(n / 10) + ['0' + (n % 10) as char]
  }

  /** Reading back what `str` printed gives the number again. */
  lemma {:induction false} PyIntNatStr(n: nat)
    ensures PyInt(NatStr(n)) == Ok(n)
    ensures DigitsValue(NatStr(n)) == n
  {
    if n >= 10 {
      PyIntNatStr(n / 10);
      var s := NatStr(n);
      assert s[..|s| - 1] == NatStr(n / 10);
      assert s[|s| - 1] as int - '0' as int == n % 10;
      assert DigitsValue(s) == n;
    } else {
      var s := NatStr(n);
      assert s[..0] == [];
      assert DigitsValue(s) == n;
    }
  }

  /** `xs[i]` on a Python list or string: negative indices count from the end. */
  function PyIndex<T>(xs: seq<T>, i: int): (r: Result<T>)
    ensures r.Ok? <==> -|xs| <= i < |xs|
    ensures r.Ok? ==> r.value == xs[if i < 0 then i + |xs| else i]
    ensures r.Err? ==> r.error == IndexError
  {
    if 0 <= i < |xs| then Ok(xs[i])
    else if -|xs| <= i < 0 then Ok(xs[|xs| + i])
    else Err(IndexError)
  }

  /** Where a slice bound `i` lands in a sequence of length `n`. */
  function SliceBound(n: nat, i: int): (b: nat)
    ensures b <= n
    ensures 0 <= i <= n ==> b == i
  {
    if i < 0 then (if i + n < 0 then 0 else i + n)
    else if i > n then n
    else i
  }

  /** `s[i:j]` */
  function PySlice<T>(s: seq<T>, i: int, j: int): (r: seq<T>)
    ensures 0 <= i <= j <= |s| ==> r == s[i..j]
    ensures 0 <= j <= i ==> r == []
  {
    var lo, hi := SliceBound(|s|, i), SliceBound(|s|, j);
    if lo < hi then s[lo..hi] else []
  }

  /** `xs[i:j] = ys` on a list: the slice is replaced; an empty or reversed slice inserts at its start. */
  function PySliceAssign<T>(xs: seq<T>, i: int, j: int, ys: seq<T>): (r: seq<T>)
    ensures 0 <= i <= j <= |xs| ==> r == xs[..i] + ys + xs[j..]
    ensures 0 <= i <= |xs| ==> |r| >= i && r[..i] == xs[..i]
  {
    var lo := SliceBound(|xs|, i);
    var hi := if SliceBound(|xs|, j) < lo then lo else SliceBound(|xs|, j);
    xs[..lo] + ys + xs[hi..]
  }

  /** `"".join(parts)` */
  function Join(parts: seq<string>): string
    decreases |parts|
  {
    if parts == [] then [] else Join(parts[..|parts| - 1]) + parts[|parts| - 1]
  }

  /** `list(s)`: one one-character string per character. */
  function Explode(s: string): (parts: seq<string>)
    ensures |parts| == |s|
    ensures forall k :: 0 <= k < |s| ==> parts[k] == [s[k]]
  {
    seq(|s|, k requires 0 <= k < |s| => [s[k]])
  }

  lemma ConcatAssoc<T>(a: seq<T>, b: seq<T>, c: seq<T>)
    ensures a + (b + c) == (a + b) + c
  {
  }

  lemma {:induction false} JoinAppend(a: seq<string>, b: seq<string>)
    ensures Join(a + b) == Join(a) + Join(b)
    decreases |b|
  {
    if b == [] {
      assert a + b == a;
    } else {
      var n := |b| - 1;
      var ab := a + b;
      assert ab[..|ab| - 1] == a + b[..n];
      assert ab[|ab| - 1] == b[n];
      JoinAppend(a, b[..n]);
      ConcatAssoc(Join(a), Join(b[..n]), b[n]);
    }
  }

  /** Joining the characters of a string gives the string back. */
  lemma {:induction false} JoinExplode(s: string)
    ensures Join(Explode(s)) == s
    decreases |s|
  {
    if s != [] {
      var n := |s| - 1;
      assert Explode(s)[..n] == Explode(s[..n]);
      JoinExplode(s[..n]);
      assert s[..n] + [s[n]] == s;
    }
  }
}
