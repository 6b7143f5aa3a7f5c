// Day 2: Rock Paper Scissors. Each line names the opponent's shape (A, B,
// C) and a second letter (X, Y, Z), read as my shape in part one and as
// the outcome wanted in part two; the answers are the total scores.

module RockPaperScissors {
  import opened Common

  predicate IsOpponent(c: char) { c == 'A' || c == 'B' || c == 'C' }

  predicate IsSecond(c: char) { c == 'X' || c == 'Y' || c == 'Z' }

  /** A round the scoring tables cover; any other pair is `unreachable!`. */
  predicate ValidRound(r: (char, char))
  {
    IsOpponent(r.0) && IsSecond(r.1)
  }

  /** Rock, paper, scissors as 0, 1, 2, in either column. */
  function Index(c: char): (i: nat)
    requires IsOpponent(c) || IsSecond(c)
    ensures i < 3
  {
    if c == 'A' || c == 'X' then 0 else if c == 'B' || c == 'Y' then 1 else 2
  }

  /** Loss 0, draw 1, win 2 for the second shape against the first: a
      shape beats the one just before it, cyclically. */
  function Outcome(opponent: char, me: char): (o: nat)
    requires IsOpponent(opponent) && IsSecond(me)
    ensures o < 3
  {
    (Index(me) - Index(opponent) + 4) % 3
  }

  /** The rules as the puzzle states them: 1, 2 or 3 for the shape played,
      plus 0, 3 or 6 for a loss, draw or win. */
  function RuleScore(opponent: char, me: char): nat
    requires IsOpponent(opponent) && IsSecond(me)
  {
    Index(me) + 1 + 3 * Outcome(opponent, me)
  }

  /** `score_p1`: the nine-entry table, which is the rule score. */
  function ScoreOne(r: (char, char)): (s: nat)
    requires ValidRound(r)
    ensures 1 <= s <= 9
    ensures s == RuleScore(r.0, r.1)
  {
    match r
    case ('A', 'X') => 4
    case ('A', 'Y') => 8
    case ('A', 'Z') => 3
    case ('B', 'X') => 1
    case ('B', 'Y') => 5
    case ('B', 'Z') => 9
    case ('C', 'X') => 7
    case ('C', 'Y') => 2
    case ('C', 'Z') => 6
  }

  /** The shape (as X, Y or Z) that gives outcome `wanted` (X lose, Y draw,
      Z win) against `opponent`. */
  function Respond(opponent: char, wanted: char): (me: char)
    requires IsOpponent(opponent) && IsSecond(wanted)
    ensures IsSecond(me) && Outcome(opponent, me) == Index(wanted)
  {
    var i := (Index(opponent) + Index(wanted) + 2) % 3;
    if i == 0 then 'X' else if i == 1 then 'Y' else 'Z'
  }

  /** `score_p2`: its table scores the round played with the shape that
      gives the wanted outcome. */
  function ScoreTwo(r: (char, char)): (s: nat)
    requires ValidRound(r)
    ensures 1 <= s <= 9
    ensures s == ScoreOne((r.0, Respond(r.0, r.1)))
  {
    match r
    case ('A', 'X') => 3
    case ('A', 'Y') => 4
    case ('A', 'Z') => 8
    case ('B', 'X') => 1
    case ('B', 'Y') => 5
    case ('B', 'Z') => 9
    case ('C', 'X') => 2
    case ('C', 'Y') => 6
    case ('C', 'Z') => 7
  }

  /** Part two's score is 3 per step of the wanted outcome plus the shape
      that achieves it. */
  lemma ScoreTwoOutcome(r: (char, char))
    requires ValidRound(r)
    ensures ScoreTwo(r) == 3 * Index(r.1) + Index(Respond(r.0, r.1)) + 1
  {
  }

  predicate AllValid(rounds: seq<(char, char)>)
  {
    forall i :: 0 <= i < |rounds| ==> ValidRound(rounds[i])
  }

  /** `solve_part_one`: the sum of the round scores. */
  function PartOne(rounds: seq<(char, char)>): (total: nat)
    requires AllValid(rounds)
    ensures |rounds| <= total <= 9 * |rounds|
  {
    if rounds == [] then 0 else ScoreOne(rounds[0]) + PartOne(rounds[1..])
  }

  /** `solve_part_two`. */
  function PartTwo(rounds: seq<(char, char)>): (total: nat)
    requires AllValid(rounds)
    ensures |rounds| <= total <= 9 * |rounds|
  {
    if rounds == [] then 0 else ScoreTwo(rounds[0]) + PartTwo(rounds[1..])
  }

  /** The rounds part two actually plays, with the responding shapes. */
  function Played(rounds: seq<(char, char)>): (p: seq<(char, char)>)
    requires AllValid(rounds)
    ensures |p| == |rounds| && AllValid(p)
    ensures forall i :: 0 <= i < |p| ==> p[i] == (rounds[i].0, Respond(rounds[i].0, rounds[i].1))
  {
    if rounds == [] then [] else [(rounds[0].0, Respond(rounds[0].0, rounds[0].1))] + Played(rounds[1..])
  }

  /** Part two's total is part one's total of the rounds it plays. */
  lemma {:induction false} PartTwoPlayed(rounds: seq<(char, char)>)
    requires AllValid(rounds)
    ensures PartTwo(rounds) == PartOne(Played(rounds))
    decreases |rounds|
  {
    if rounds != [] {
      PartTwoPlayed(rounds[1..]);
      assert Played(rounds)[1..] == Played(rounds[1..]);
    }
  }

  /** One line: its first and third characters; `None` (the source panics)
      when it is shorter than three characters. */
  function ParseLine(line: string): (r: Option<(char, char)>)
    ensures r.Some? <==> |line| >= 3
    ensures r.Some? ==> r.value == (line[0], line[2])
  {
    if |line| < 3 then None else Some((line[0], line[2]))
  }

  /** `parse_input`. */
  function ParseInput(lines: seq<string>): (r: Option<seq<(char, char)>>)
    ensures r.Some? <==> forall i :: 0 <= i < |lines| ==> |lines[i]| >= 3
    ensures r.Some? ==> (|r.value| == |lines|
      && forall i :: 0 <= i < |lines| ==> r.value[i] == (lines[i][0], lines[i][2]))
  {
    if lines == [] then Some([])
    else
      match ParseLine(lines[0])
      case None => None
      case Some(p) =>
        match ParseInput(lines[1..])
        case None => None
        case Some(rest) => Some([p] + rest)
  }
}
