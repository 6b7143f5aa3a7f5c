// Day 3: Rucksack Reorganization. Each line is a rucksack whose two halves
// are its compartments; part one scores the item types the halves share,
// part two the badge shared by each group of three rucksacks.

module RucksackReorganization {
  import opened Common

  predicate IsLower(c: char) { 'a' <= c <= 'z' }

  predicate IsUpper(c: char) { 'A' <= c <= 'Z' }

  predicate IsLetter(c: char) { IsLower(c) || IsUpper(c) }

  predicate AllLetters(s: string)
  {
    forall i :: 0 <= i < |s| ==> IsLetter(s[i])
  }

  /** `priority`: a..z are 1..26 and A..Z are 27..52; any other character
      panics. */
  function Priority(c: char): (p: nat)
    requires IsLetter(c)
    ensures IsLower(c) ==> 1 <= p <= 26 && p == c as int - 'a' as int + 1
    ensures IsUpper(c) ==> 27 <= p <= 52 && p == c as int - 'A' as int + 27
  {
    if IsLower(c) then c as int - 96 else c as int - 38
  }

  /** Different letters have different priorities. */
  lemma PriorityInjective(c: char, d: char)
    requires IsLetter(c) && IsLetter(d) && Priority(c) == Priority(d)
    ensures c == d
  {
  }

  /** The sum of the priorities of a run of letters. */
  function SumPriorities(s: string): (total: nat)
    requires AllLetters(s)
    ensures |s| <= total <= 52 * |s|
  {
    if s == [] then 0 else Priority(s[0]) + SumPriorities(s[1..])
  }

  // ---------------------------------------------------------------------
  // Part one

  /** The characters of `a` that occur in `b`, in order, repeats kept. */
  function Shared(a: string, b: string): (r: string)
    ensures |r| <= |a|
    ensures forall c :: c in r <==> c in a && c in b
  {
    if a == [] then [] else (if a[0] in b then [a[0]] else []) + Shared(a[1..], b)
  }

  /** `Vec::dedup`: every run of equal adjacent characters collapsed to one;
      the same characters remain, and the first stays first. */
  function Dedup(s: string): (r: string)
    ensures |r| <= |s|
    ensures forall c :: c in r <==> c in s
    ensures forall i :: 0 < i < |r| ==> r[i] != r[i - 1]
    ensures |s| > 0 ==> |r| > 0 && r[0] == s[0]
  {
    if |s| <= 1 then s
    else if s[0] == s[1] then Dedup(s[1..])
    else [s[0]] + Dedup(s[1..])
  }

  predicate NoAdjacentRepeats(s: string)
  {
    forall i :: 0 < i < |s| ==> s[i] != s[i - 1]
  }

  /** `dedup` leaves text without adjacent repeats unchanged, so applying it
      twice is applying it once. */
  lemma {:induction false} DedupFixed(s: string)
    requires NoAdjacentRepeats(s)
    ensures Dedup(s) == s
    decreases |s|
  {
    if |s| > 1 {
      DedupFixed(s[1..]);
      assert [s[0]] + s[1..] == s;
    }
  }

  lemma DedupIdempotent(s: string)
    ensures Dedup(Dedup(s)) == Dedup(s)
  {
    DedupFixed(Dedup(s));
  }

  /** The two compartments: `split_at(len / 2)`. */
  function Halves(line: string): (string, string)
  {
    (line[..|line| / 2], line[|line| / 2..])
  }

  /** The shared items of a rucksack, after `dedup`. */
  function SharedTypes(line: string): (r: string)
    ensures forall c :: c in r <==> c in Halves(line).0 && c in Halves(line).1
  {
    Dedup(Shared(Halves(line).0, Halves(line).1))
  }

  /** `priority` panics unless every shared item is a letter. */
  predicate RucksackOk(line: string)
  {
    AllLetters(SharedTypes(line))
  }

  function RucksackScore(line: string): nat
    requires RucksackOk(line)
  {
    SumPriorities(SharedTypes(line))
  }

  /** A rucksack whose halves share exactly one item type scores that
      type's priority, however often it occurs; one sharing nothing
      scores 0. */
  lemma RucksackOneType(line: string, c: char)
    requires IsLetter(c) && c in Halves(line).0 && c in Halves(line).1
    requires forall d :: d in Halves(line).0 && d in Halves(line).1 ==> d == c
    ensures RucksackOk(line) && RucksackScore(line) == Priority(c)
  {
    var (a, b) := Halves(line);
    var s := Shared(a, b);
    assert forall i :: 0 <= i < |s| ==> s[i] == c by {
      forall i | 0 <= i < |s|
        ensures s[i] == c
      {
        assert s[i] in s;
      }
    }
    DedupAllSame(s, c);
    assert SharedTypes(line) == [c];
  }

  lemma RucksackNothingShared(line: string)
    requires forall d :: d in Halves(line).0 ==> d !in Halves(line).1
    ensures RucksackOk(line) && RucksackScore(line) == 0
  {
    SharedNone(Halves(line).0, Halves(line).1);
  }

  lemma {:induction false} SharedNone(a: string, b: string)
    requires forall d :: d in a ==> d !in b
    ensures Shared(a, b) == []
    decreases |a|
  {
    if a != [] {
      assert a[0] in a;
      SharedNone(a[1..], b);
    }
  }

  lemma {:induction false} DedupAllSame(s: string, c: char)
    requires |s| > 0 && forall i :: 0 <= i < |s| ==> s[i] == c
    ensures Dedup(s) == [c]
    decreases |s|
  {
    if |s| > 1 {
      DedupAllSame(s[1..], c);
    }
  }

  predicate AllRucksacksOk(lines: seq<string>)
  {
    forall i :: 0 <= i < |lines| ==> RucksackOk(lines[i])
  }

  /** `solve_part_one`. */
  function PartOne(lines: seq<string>): nat
    requires AllRucksacksOk(lines)
  {
    if lines == [] then 0 else RucksackScore(lines[0]) + PartOne(lines[1..])
  }

  // ---------------------------------------------------------------------
  // Part two

  /** Some character of `a` occurs in both `b` and `c`; `unwrap` panics
      otherwise. */
  predicate HasBadge(a: string, b: string, c: string)
  {
    exists i :: 0 <= i < |a| && a[i] in b && a[i] in c
  }

  /** The index of the badge: the first character of `a` found in both
      other rucksacks. */
  function BadgeIndex(a: string, b: string, c: string): (i: nat)
    requires HasBadge(a, b, c)
    ensures i < |a| && a[i] in b && a[i] in c
    ensures forall j :: 0 <= j < i ==> !(a[j] in b && a[j] in c)
  {
    if a[0] in b && a[0] in c then 0
    else
      assert HasBadge(a[1..], b, c) by {
        var i :| 0 <= i < |a| && a[i] in b && a[i] in c;
        assert a[1..][i - 1] == a[i];
      }
      1 + BadgeIndex(a[1..], b, c)
  }

  /** A group whose badge exists and is a letter. */
  predicate GroupOk(a: string, b: string, c: string)
  {
    HasBadge(a, b, c) && IsLetter(a[BadgeIndex(a, b, c)])
  }

  /** Every full group of three is fine. */
  predicate GroupsOk(lines: seq<string>)
    decreases |lines|
  {
    |lines| < 3 || (GroupOk(lines[0], lines[1], lines[2]) && GroupsOk(lines[3..]))
  }

  function GroupScore(a: string, b: string, c: string): nat
    requires GroupOk(a, b, c)
  {
    Priority(a[BadgeIndex(a, b, c)])
  }

  /** `solve_part_two`: `chunks_exact(3)`, a remainder of one or two lines
      ignored. */
  function PartTwo(lines: seq<string>): nat
    requires GroupsOk(lines)
    decreases |lines|
  {
    if |lines| < 3 then 0 else GroupScore(lines[0], lines[1], lines[2]) + PartTwo(lines[3..])
  }

  /** When a group shares exactly one item type, it is the badge. */
  lemma OnlyBadge(a: string, b: string, c: string, x: char)
    requires x in a && x in b && x in c
    requires forall y :: y in a && y in b && y in c ==> y == x
    ensures HasBadge(a, b, c) && a[BadgeIndex(a, b, c)] == x
  {
    var i :| 0 <= i < |a| && a[i] == x;
  }

  /** Part two scores one badge per full group: at least 1 and at most 52
      each. */
  lemma {:induction false} PartTwoBounds(lines: seq<string>)
    requires GroupsOk(lines)
    ensures |lines| / 3 <= PartTwo(lines) <= 52 * (|lines| / 3)
    decreases |lines|
  {
    if |lines| >= 3 {
      PartTwoBounds(lines[3..]);
      assert |lines[3..]| / 3 == |lines| / 3 - 1;
    }
  }
}
