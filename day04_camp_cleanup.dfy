// Day 4: Camp Cleanup. Each line assigns two elves a range of section IDs;
// part one counts the pairs where one range contains the other, part two
// the pairs whose ranges overlap.

module CampCleanup {
  import opened Common

  /** (min, max): the sections min..=max. */
  type Assignment = (nat, nat)

  type Pair = (Assignment, Assignment)

  /** Section `i` belongs to the assignment. */
  predicate Covers(r: Assignment, i: int)
  {
    r.0 <= i <= r.1
  }

  predicate WellFormed(r: Assignment)
  {
    r.0 <= r.1
  }

  /** The filter of `solve_part_one`. */
  predicate Contains(p: Pair)
  {
    var ((minA, maxA), (minB, maxB)) := p;
    (minA <= minB && maxA >= maxB) || (minB <= minA && maxB >= maxA)
  }

  /** The filter of `solve_part_two`. */
  predicate Overlaps(p: Pair)
  {
    var ((minA, maxA), (minB, maxB)) := p;
    maxA >= minB && maxB >= minA
  }

  function Swap(p: Pair): Pair
  {
    (p.1, p.0)
  }

  /** Neither filter depends on which elf is named first. */
  lemma Symmetric(p: Pair)
    ensures Contains(Swap(p)) == Contains(p)
    ensures Overlaps(Swap(p)) == Overlaps(p)
  {
  }

  /** Every section of `a` is a section of `b`. */
  ghost predicate Within(a: Assignment, b: Assignment)
  {
    forall i :: Covers(a, i) ==> Covers(b, i)
  }

  /** For well-formed ranges, the containment test holds exactly when one
      range's sections all belong to the other. */
  lemma ContainsWithin(p: Pair)
    requires WellFormed(p.0) && WellFormed(p.1)
    ensures Contains(p) <==> (Within(p.0, p.1) || Within(p.1, p.0))
  {
    var (a, b) := p;
    assert Covers(a, a.0) && Covers(a, a.1);
    assert Covers(b, b.0) && Covers(b, b.1);
  }

  /** For well-formed ranges, the overlap test holds exactly when the
      ranges share a section. */
  lemma OverlapsShared(p: Pair)
    requires WellFormed(p.0) && WellFormed(p.1)
    ensures Overlaps(p) <==> exists i :: Covers(p.0, i) && Covers(p.1, i)
  {
    var (a, b) := p;
    if Overlaps(p) {
      assert Covers(a, Max(a.0, b.0)) && Covers(b, Max(a.0, b.0));
    }
  }

  /** A containing pair overlaps. */
  lemma ContainsOverlaps(p: Pair)
    requires WellFormed(p.0) && WellFormed(p.1) && Contains(p)
    ensures Overlaps(p)
  {
  }

  /** `solve_part_one`. */
  function PartOne(pairs: seq<Pair>): (n: nat)
    ensures n <= |pairs|
  {
    if pairs == [] then 0 else (if Contains(pairs[0]) then 1 else 0) + PartOne(pairs[1..])
  }

  /** `solve_part_two`. */
  function PartTwo(pairs: seq<Pair>): (n: nat)
    ensures n <= |pairs|
  {
    if pairs == [] then 0 else (if Overlaps(pairs[0]) then 1 else 0) + PartTwo(pairs[1..])
  }

  predicate AllWellFormed(pairs: seq<Pair>)
  {
    forall i :: 0 <= i < |pairs| ==> WellFormed(pairs[i].0) && WellFormed(pairs[i].1)
  }

  /** With well-formed ranges, every pair part one counts part two counts
      too. */
  lemma {:induction false} PartOneAtMostPartTwo(pairs: seq<Pair>)
    requires AllWellFormed(pairs)
    ensures PartOne(pairs) <= PartTwo(pairs)
    decreases |pairs|
  {
    if pairs != [] {
      if Contains(pairs[0]) {
        ContainsOverlaps(pairs[0]);
      }
      PartOneAtMostPartTwo(pairs[1..]);
    }
  }

  // ---------------------------------------------------------------------
  // parse_input

  predicate IsComma(c: char) { c == ',' }

  predicate IsDash(c: char) { c == '-' }

  /** Every piece parsed as a number, or `None` where `unwrap` panics. */
  function ParseAll(pieces: seq<string>): (r: Option<seq<nat>>)
    ensures r.Some? ==> (|r.value| == |pieces|
      && forall i :: 0 <= i < |pieces| ==> ParseNat(pieces[i]) == Some(r.value[i]))
  {
    if pieces == [] then Some([])
    else
      match ParseNat(pieces[0])
      case None => None
      case Some(n) =>
        match ParseAll(pieces[1..])
        case None => None
        case Some(ns) => Some([n] + ns)
  }

  /** Every comma-separated part split at dashes and parsed. */
  function ParseParts(parts: seq<string>): (r: Option<seq<seq<nat>>>)
    ensures r.Some? ==> (|r.value| == |parts|
      && forall i :: 0 <= i < |parts| ==> ParseAll(Split(parts[i], IsDash)) == Some(r.value[i]))
  {
    if parts == [] then Some([])
    else
      match ParseAll(Split(parts[0], IsDash))
      case None => None
      case Some(ns) =>
        match ParseParts(parts[1..])
        case None => None
        case Some(rest) => Some([ns] + rest)
  }

  /** One line, `a-b,c-d`: every number in it must parse, and the first two
      parts need two numbers each; `None` where the source panics. */
  function ParseLine(line: string): (r: Option<Pair>)
  {
    match ParseParts(Split(line, IsComma))
    case None => None
    case Some(parts) =>
      if |parts| >= 2 && |parts[0]| >= 2 && |parts[1]| >= 2 then
        Some(((parts[0][0], parts[0][1]), (parts[1][0], parts[1][1])))
      else None
  }

  /** `parse_input`. */
  function ParseInput(lines: seq<string>): (r: Option<seq<Pair>>)
    ensures r.Some? ==> (|r.value| == |lines|
      && forall i :: 0 <= i < |lines| ==> ParseLine(lines[i]) == Some(r.value[i]))
  {
    if lines == [] then Some([])
    else
      match ParseLine(lines[0])
      case None => None
      case Some(p) =>
        match ParseInput(lines[1..])
        case None => None
        case Some(rest) => Some([p] + rest)
  }

  function RenderAssignment(r: Assignment): string
  {
    NatToString(r.0) + "-" + NatToString(r.1)
  }

  function RenderPair(p: Pair): string
  {
    RenderAssignment(p.0) + "," + RenderAssignment(p.1)
  }

  lemma DigitsNoSep(s: string, isSep: char -> bool)
    requires AllDigits(s) && forall c :: IsDigit(c) ==> !isSep(c)
    ensures NoSep(s, isSep)
  {
  }

  lemma ParseAllCons(x: string, rest: seq<string>, n: nat, ns: seq<nat>)
    requires ParseNat(x) == Some(n) && ParseAll(rest) == Some(ns)
    ensures ParseAll([x] + rest) == Some([n] + ns)
  {
    assert ([x] + rest)[1..] == rest;
  }

  lemma ParsePartsCons(x: string, rest: seq<string>, ns: seq<nat>, nss: seq<seq<nat>>)
    requires ParseAll(Split(x, IsDash)) == Some(ns) && ParseParts(rest) == Some(nss)
    ensures ParseParts([x] + rest) == Some([ns] + nss)
  {
    assert ([x] + rest)[1..] == rest;
  }

  /** An assignment written `a-b` reads back. */
  lemma ParseAssignment(r: Assignment)
    ensures ParseAll(Split(RenderAssignment(r), IsDash)) == Some([r.0, r.1])
  {
    var a, b := NatToString(r.0), NatToString(r.1);
    DigitsNoSep(a, IsDash);
    DigitsNoSep(b, IsDash);
    SplitAt(a, '-', b, IsDash);
    SplitNoSep(b, IsDash);
    ParseNatOfNatToString(r.0);
    ParseNatOfNatToString(r.1);
    ParseAllCons(b, [], r.1, []);
    assert [b] + [] == [b] && [r.1] + [] == [r.1];
    ParseAllCons(a, [b], r.0, [r.1]);
    assert [a] + [b] == [a, b] && [r.0] + [r.1] == [r.0, r.1];
  }

  lemma AssignmentNoComma(r: Assignment)
    ensures NoSep(RenderAssignment(r), IsComma)
  {
    var a, b := NatToString(r.0), NatToString(r.1);
    DigitsNoSep(a, IsComma);
    DigitsNoSep(b, IsComma);
  }

  lemma ParseLineParts(line: string, u: seq<nat>, v: seq<nat>)
    requires ParseParts(Split(line, IsComma)) == Some([u, v]) && |u| >= 2 && |v| >= 2
    ensures ParseLine(line) == Some(((u[0], u[1]), (v[0], v[1])))
  {
  }

  /** A pair written `a-b,c-d` reads back. */
  lemma ParseRendered(p: Pair)
    ensures ParseLine(RenderPair(p)) == Some(p)
  {
    var x, y := RenderAssignment(p.0), RenderAssignment(p.1);
    AssignmentNoComma(p.0);
    AssignmentNoComma(p.1);
    SplitAt(x, ',', y, IsComma);
    SplitNoSep(y, IsComma);
    ParseAssignment(p.0);
    ParseAssignment(p.1);
    var u, v := [p.0.0, p.0.1], [p.1.0, p.1.1];
    ParsePartsCons(y, [], v, []);
    assert [y] + [] == [y] && [v] + [] == [v];
    ParsePartsCons(x, [y], u, [v]);
    assert [x] + [y] == [x, y] && [u] + [v] == [u, v];
    assert Split(RenderPair(p), IsComma) == [x, y];
    ParseLineParts(RenderPair(p), u, v);
  }
}
