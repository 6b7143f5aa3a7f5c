// Day 1: Calorie Counting. Blank lines separate the elves' inventories;
// the parser totals each inventory, part one takes the largest total and
// part two the sum of the three largest.

module CalorieCounting {
  import opened Common

  /** The number of blank lines. */
  function Blanks(lines: seq<string>): nat
  {
    if lines == [] then 0 else Blanks(lines[..|lines| - 1]) + (if Last(lines) == "" then 1 else 0)
  }

  /** Everything read: the sum of the numbers on the non-blank lines. */
  function ReadSum(lines: seq<string>): nat
  {
    if lines == [] then 0
    else ReadSum(lines[..|lines| - 1]) + (match ParseNat(Last(lines)) case Some(n) => n case None => 0)
  }

  /** One step of the fold: a blank line starts a new total, a number is
      added to the last total; `None` where `unwrap` panics. */
  function AddLine(acc: seq<nat>, line: string): (r: Option<seq<nat>>)
    requires |acc| > 0
  {
    if line == "" then Some(acc + [0])
    else
      match ParseNat(line)
      case None => None
      case Some(n) => Some(acc[|acc| - 1 := acc[|acc| - 1] + n])
  }

  /** The fold of `parse_input`, starting from one zero total. It holds
      one total more than there are blank lines. */
  function Totals(lines: seq<string>): (r: Option<seq<nat>>)
    ensures r.Some? ==> |r.value| == Blanks(lines) + 1
  {
    if lines == [] then Some([0])
    else
      match Totals(lines[..|lines| - 1])
      case None => None
      case Some(acc) => AddLine(acc, Last(lines))
  }

  /** A line that does not parse ends the fold for good. */
  lemma {:induction false} TotalsStopped(lines: seq<string>, i: nat)
    requires i <= |lines| && Totals(lines[..i]) == None
    ensures Totals(lines) == None
    decreases |lines| - i
  {
    if i < |lines| {
      assert lines[..i + 1][..i] == lines[..i];
      TotalsStopped(lines, i + 1);
    } else {
      assert lines[..i] == lines;
    }
  }

  /** `parse_input`: the fold, updating the last total in place. */
  method ParseInput(lines: seq<string>) returns (r: Option<seq<nat>>)
    ensures r == Totals(lines)
  {
    var acc: seq<nat> := [0];
    for i := 0 to |lines|
      invariant Totals(lines[..i]) == Some(acc)
    {
      assert lines[..i + 1][..i] == lines[..i];
      if lines[i] == "" {
        acc := acc + [0];
      } else {
        match ParseNat(lines[i])
        case None =>
          TotalsStopped(lines, i + 1);
          return None;
        case Some(n) =>
          acc := acc[|acc| - 1 := acc[|acc| - 1] + n];
      }
    }
    assert lines[..|lines|] == lines;
    return Some(acc);
  }

  lemma SumBumpLast(s: seq<nat>, n: nat)
    requires |s| > 0
    ensures Sum(s[|s| - 1 := s[|s| - 1] + n]) == Sum(s) + n
  {
    var t := s[|s| - 1 := s[|s| - 1] + n];
    assert t[..|t| - 1] == s[..|s| - 1];
  }

  lemma SumAppendZero(s: seq<nat>)
    ensures Sum(s + [0]) == Sum(s)
  {
    assert (s + [0])[..|s|] == s;
  }

  /** The totals add up to everything read: no number is lost or counted
      twice. */
  lemma {:induction false} TotalsSum(lines: seq<string>)
    requires Totals(lines).Some?
    ensures Sum(Totals(lines).value) == ReadSum(lines)
    decreases |lines|
  {
    if lines != [] {
      var front := lines[..|lines| - 1];
      TotalsSum(front);
      var acc := Totals(front).value;
      if Last(lines) == "" {
        SumAppendZero(acc);
      } else {
        SumBumpLast(acc, ParseNat(Last(lines)).value);
      }
    }
  }

  /** `solve_part_one`: the largest total. */
  function PartOne(totals: seq<nat>): (m: nat)
    requires |totals| > 0
    ensures m in totals && forall i :: 0 <= i < |totals| ==> totals[i] <= m
  {
    MaxOf(totals)
  }

  /** `solve_part_two`: sort, reverse, and add up the first three (all of
      them when there are fewer). */
  function PartTwo(totals: seq<nat>): int
  {
    SumTake(SortDesc(totals), 3)
  }

  /** The three largest totals hold at least the largest and at most three
      times it. */
  lemma PartTwoBounds(totals: seq<nat>)
    requires |totals| > 0
    ensures PartOne(totals) <= PartTwo(totals) <= 3 * PartOne(totals)
  {
    var s := SortDesc(totals);
    var m := PartOne(totals);
    SortDescHead(totals);
    forall k | 0 <= k < |s|
      ensures 0 <= s[k] <= m
    {
      assert s[k] in multiset(totals);
    }
    var top := if |s| <= 3 then s else s[..3];
    assert top[0] == m;
    TopBounds(top, m);
  }

  /** A sequence of one to three values between 0 and `m`, the first
      being `m`, sums to between `m` and `3 m`. */
  lemma TopBounds(top: seq<int>, m: int)
    requires 1 <= |top| <= 3 && top[0] == m
    requires forall k :: 0 <= k < |top| ==> 0 <= top[k] <= m
    ensures m <= Sum(top) <= 3 * m
  {
    if |top| == 2 {
      assert top[..1] == [m];
    } else if |top| == 3 {
      var front := top[..2];
      assert front[..1] == [m] && [m][..0] == [];
      assert Sum(front[..1]) == m;
      assert Sum(top) == Sum(front) + top[2];
    }
  }
}
