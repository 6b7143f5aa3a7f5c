/** Helpers shared by the daily puzzle models: an Option type, sums and
    maxima of integer sequences, a descending sort, decimal parsing in the
    manner of Rust's `str::parse`, and splitting of strings. */
module Common {

  datatype Option<T> = None | Some(value: T)

  function Abs(n: int): nat { if n < 0 then -n else n }

  function Max(a: int, b: int): int { if a < b then b else a }

  function Min(a: int, b: int): int { if a < b then a else b }

  // ---------------------------------------------------------------------
  // Sums, maxima and a descending sort of integer sequences

  /** The sum of a sequence, peeled from the back so that a loop keeping
      `total == Sum(s[..i])` needs no extra lemma. */
  function Sum(s: seq<int>): int
  {
    if s == [] then 0 else Sum(s[..|s| - 1]) + s[|s| - 1]
  }

  lemma {:induction false} SumAppend(a: seq<int>, b: seq<int>)
    ensures Sum(a + b) == Sum(a) + Sum(b)
    decreases |b|
  {
    if b == [] {
      assert a + b == a;
    } else {
      assert (a + b)[..|a + b| - 1] == a + b[..|b| - 1];
      SumAppend(a, b[..|b| - 1]);
    }
  }

  lemma {:induction false} SumNonNegative(s: seq<int>)
    requires forall i :: 0 <= i < |s| ==> s[i] >= 0
    ensures Sum(s) >= 0
    decreases |s|
  {
    if s != [] {
      SumNonNegative(s[..|s| - 1]);
    }
  }

  /** The largest element (Rust's `iter().max().unwrap()`). */
  function MaxOf(s: seq<int>): (m: int)
    requires |s| > 0
    ensures m in s
    ensures forall i :: 0 <= i < |s| ==> s[i] <= m
    decreases |s|
  {
    if |s| == 1 then s[0] else Max(MaxOf(s[..|s| - 1]), s[|s| - 1])
  }

  predicate SortedDesc(s: seq<int>)
  {
    forall i, j :: 0 <= i < j < |s| ==> s[i] >= s[j]
  }

  function InsertDesc(x: int, s: seq<int>): (r: seq<int>)
    requires SortedDesc(s)
    ensures SortedDesc(r)
    ensures multiset(r) == multiset(s) + multiset{x}
    decreases |s|
  {
    if s == [] then [x]
    else if x >= s[0] then [x] + s
    else
      var rest := InsertDesc(x, s[1..]);
      AllAtMost(rest, s[1..], x, s[0]);
      assert s == [s[0]] + s[1..];
      [s[0]] + rest
  }

  /** A bound on `t` and on `x` bounds every permutation of `t + [x]`. */
  lemma AllAtMost(r: seq<int>, t: seq<int>, x: int, h: int)
    requires multiset(r) == multiset(t) + multiset{x} && x <= h
    requires forall i :: 0 <= i < |t| ==> t[i] <= h
    ensures forall k :: 0 <= k < |r| ==> r[k] <= h
  {
    forall k | 0 <= k < |r|
      ensures r[k] <= h
    {
      assert r[k] in multiset(r);
      if r[k] != x {
        assert r[k] in multiset(t);
        var i :| 0 <= i < |t| && t[i] == r[k];
      }
    }
  }

  /** Sorting largest first: Rust's `sort_unstable` (or itertools' `sorted`)
      followed by `rev`, which gives the same sequence of values. */
  function SortDesc(s: seq<int>): (r: seq<int>)
    ensures SortedDesc(r)
    ensures multiset(r) == multiset(s)
    decreases |s|
  {
    if s == [] then []
    else
      assert s == [s[0]] + s[1..];
      InsertDesc(s[0], SortDesc(s[1..]))
  }

  /** The sorted sequence's head is the maximum. */
  lemma SortDescHead(s: seq<int>)
    requires |s| > 0
    ensures |SortDesc(s)| == |s| && SortDesc(s)[0] == MaxOf(s)
  {
    var r := SortDesc(s);
    assert |r| == |multiset(r)| == |multiset(s)| == |s|;
    assert r[0] in multiset(s);
    assert MaxOf(s) in multiset(r);
  }

  /** Sum of the first `k` elements (all of them when there are fewer). */
  function SumTake(s: seq<int>, k: nat): int
  {
    if |s| <= k then Sum(s) else Sum(s[..k])
  }

  // ---------------------------------------------------------------------
  // Decimal numbers

  predicate IsDigit(c: char) { '0' <= c <= '9' }

  predicate AllDigits(s: string) { forall i :: 0 <= i < |s| ==> IsDigit(s[i]) }

  function DigitValue(c: char): nat
    requires IsDigit(c)
  {
    c as int - '0' as int
  }

  function DigitChar(d: nat): (c: char)
    requires d < 10
    ensures IsDigit(c) && DigitValue(c) == d
  {
    ('0' as int + d) as char
  }

  /** The value of a run of decimal digits, most significant first. */
  function DigitsValue(s: string): nat
    requires AllDigits(s)
    decreases |s|
  {
    if s == [] then 0 else 10 * DigitsValue(s[..|s| - 1]) + DigitValue(s[|s| - 1])
  }

  /** Rust's `usize::from_str`: an optional '+' and at least one digit.
      The upper bound of the machine type is not modelled. */
  function ParseNat(s: string): (r: Option<nat>)
  {
    var digits := if |s| > 0 && s[0] == '+' then s[1..] else s;
    if |digits| > 0 && AllDigits(digits) then Some(DigitsValue(digits)) else None
  }

  /** Rust's `i32::from_str`: an optional sign and at least one digit.
      The range of the machine type is not modelled. */
  function ParseInt(s: string): (r: Option<int>)
  {
    if |s| > 0 && s[0] == '-' then
      (if |s| > 1 && AllDigits(s[1..]) then Some(-(DigitsValue(s[1..]) as int)) else None)
    else
      match ParseNat(s)
      case Some(n) => Some(n as int)
      case None => None
  }

  /** The pieces that parse as signed integers, in order, the others
      skipped (`flat_map(|s| s.parse().ok())`). */
  function Integers(pieces: seq<string>): (r: seq<int>)
    ensures |r| <= |pieces|
  {
    if pieces == [] then []
    else (match ParseInt(pieces[0]) case Some(n) => [n] case None => []) + Integers(pieces[1..])
  }

  /** Decimal rendering without leading zeros ("0" for zero). */
  function NatToString(n: nat): (s: string)
    ensures |s| > 0 && AllDigits(s)
    decreases n
  {
    if n < 10 then [DigitChar(n)] else NatToString(n / 10) + [DigitChar(n % 10)]
  }

  function IntToString(n: int): (s: string)
  {
    if n < 0 then "-" + NatToString(-n) else NatToString(n)
  }

  lemma {:induction false} NatToStringValue(n: nat)
    ensures DigitsValue(NatToString(n)) == n
    decreases n
  {
    if n >= 10 {
      var s := NatToString(n);
      assert s[..|s| - 1] == NatToString(n / 10);
      NatToStringValue(n / 10);
    }
  }

  /** Decimal rendering and parsing are inverse. */
  lemma ParseNatOfNatToString(n: nat)
    ensures ParseNat(NatToString(n)) == Some(n)
  {
    NatToStringValue(n);
  }

  lemma ParseIntOfIntToString(n: int)
    ensures ParseInt(IntToString(n)) == Some(n)
  {
    if n < 0 {
      ParseNegative(-n);
    } else {
      ParseNonNegative(n);
    }
  }

  lemma ParseNegative(m: nat)
    requires m > 0
    ensures ParseInt("-" + NatToString(m)) == Some(-(m as int))
  {
    var digits := NatToString(m);
    var s := "-" + digits;
    assert s[1..] == digits;
    NatToStringValue(m);
  }

  lemma ParseNonNegative(n: nat)
    ensures ParseInt(NatToString(n)) == Some(n)
  {
    var s := NatToString(n);
    assert IsDigit(s[0]);
    ParseNatOfNatToString(n);
  }

  // ---------------------------------------------------------------------
  // Splitting strings

  /** Rust's `str::split` with a character predicate: the pieces between
      separators, empty pieces included; there is one more piece than there
      are separators. */
  function Split(s: string, isSep: char -> bool): (r: seq<string>)
    ensures |r| >= 1
    decreases |s|
  {
    if s == [] then [""]
    else
      var rest := Split(s[1..], isSep);
      if isSep(s[0]) then [""] + rest else [[s[0]] + rest[0]] + rest[1..]
  }

  predicate NoSep(s: string, isSep: char -> bool)
  {
    forall i :: 0 <= i < |s| ==> !isSep(s[i])
  }

  lemma {:induction false} SplitNoSep(a: string, isSep: char -> bool)
    requires NoSep(a, isSep)
    ensures Split(a, isSep) == [a]
    decreases |a|
  {
    if a != [] {
      SplitNoSep(a[1..], isSep);
      assert [a[0]] + a[1..] == a;
    }
  }

  /** A separator after a separator-free prefix ends the first piece. */
  lemma {:induction false} SplitAt(a: string, c: char, b: string, isSep: char -> bool)
    requires NoSep(a, isSep) && isSep(c)
    ensures Split(a + [c] + b, isSep) == [a] + Split(b, isSep)
    decreases |a|
  {
    if a != [] {
      assert (a + [c] + b)[1..] == a[1..] + [c] + b;
      SplitAt(a[1..], c, b, isSep);
      assert [a[0]] + a[1..] == a;
    } else {
      assert (a + [c] + b)[1..] == b;
    }
  }

  /** Cutting at a separator splits the pieces of the two sides apart. */
  lemma {:induction false} SplitJoin(a: string, c: char, b: string, isSep: char -> bool)
    requires isSep(c)
    ensures Split(a + [c] + b, isSep) == Split(a, isSep) + Split(b, isSep)
    decreases |a|
  {
    if a == [] {
      assert a + [c] + b == [c] + b;
      assert ([c] + b)[1..] == b;
    } else {
      assert (a + [c] + b)[1..] == a[1..] + [c] + b;
      SplitJoin(a[1..], c, b, isSep);
    }
  }

  predicate IsWhitespace(c: char)
  {
    c == ' ' || c == '\t' || c == '\n' || c == '\r' || c == '\U{B}' || c == '\U{C}'
  }

  function NonEmpty(pieces: seq<string>): (r: seq<string>)
    ensures forall i :: 0 <= i < |r| ==> |r[i]| > 0
    ensures |r| <= |pieces|
  {
    if pieces == [] then []
    else (if pieces[0] == "" then [] else [pieces[0]]) + NonEmpty(pieces[1..])
  }

  lemma {:induction false} NonEmptyAppend(a: seq<string>, b: seq<string>)
    ensures NonEmpty(a + b) == NonEmpty(a) + NonEmpty(b)
    decreases |a|
  {
    if a == [] {
      assert a + b == b;
    } else {
      assert (a + b)[1..] == a[1..] + b;
      NonEmptyAppend(a[1..], b);
    }
  }

  /** Rust's `str::split_whitespace` on ASCII whitespace. */
  function Words(s: string): (r: seq<string>)
    ensures forall i :: 0 <= i < |r| ==> |r[i]| > 0
  {
    NonEmpty(Split(s, IsWhitespace))
  }

  /** A space separates the words on its two sides. */
  lemma WordsJoin(a: string, b: string)
    ensures Words(a + " " + b) == Words(a) + Words(b)
  {
    SplitJoin(a, ' ', b, IsWhitespace);
    NonEmptyAppend(Split(a, IsWhitespace), Split(b, IsWhitespace));
  }

  /** A non-empty run of non-whitespace is one word. */
  lemma WordsOfWord(w: string)
    requires |w| > 0 && NoSep(w, IsWhitespace)
    ensures Words(w) == [w]
  {
    SplitNoSep(w, IsWhitespace);
    assert NonEmpty([w]) == [w] + NonEmpty([]);
  }

  /** Decimal digits are not whitespace. */
  lemma DigitsAreOneWord(s: string)
    requires |s| > 0 && AllDigits(s)
    ensures Words(s) == [s]
  {
    WordsOfWord(s);
  }

  function Last<T>(s: seq<T>): T
    requires |s| > 0
  {
    s[|s| - 1]
  }
}
