/** Day 9 (9/src/lib.rs): a rope of knots on the integer grid. The head
    moves one cell at a time following the steps; each following knot then
    catches up with the knot ahead of it. The answers count the distinct
    cells the last knot visits, for a rope of two knots and of ten. */
module RopeBridge {
  import opened Common

  datatype Direction = Up | Down | Left | Right

  /** A step of the input: a direction and a signed distance (a negative
      distance moves nothing, since `0..n` is then empty). */
  datatype Step = Step(dir: Direction, n: int)

  datatype Coord = Coord(x: int, y: int)

  /** `is_adjacent`: the two cells touch, diagonally included, or are the
      same cell. */
  predicate IsAdjacent(a: Coord, b: Coord)
  {
    Abs(a.x - b.x) <= 1 && Abs(a.y - b.y) <= 1
  }

  /** The larger of the two coordinate distances. */
  function Chebyshev(a: Coord, b: Coord): nat
  {
    Max(Abs(a.x - b.x), Abs(a.y - b.y))
  }

  lemma AdjacentSymmetricReflexive(a: Coord, b: Coord)
    ensures IsAdjacent(a, b) <==> IsAdjacent(b, a)
    ensures IsAdjacent(a, a)
    ensures IsAdjacent(a, b) <==> Chebyshev(a, b) <= 1
  {
  }

  /** `apply_step`: Up and Left subtract, Down and Right add. */
  function ApplyStep(c: Coord, step: Step): Coord
  {
    match step.dir
    case Up => Coord(c.x, c.y - step.n)
    case Down => Coord(c.x, c.y + step.n)
    case Left => Coord(c.x - step.n, c.y)
    case Right => Coord(c.x + step.n, c.y)
  }

  function Sign(n: int): int
  {
    if n > 0 then 1 else if n < 0 then -1 else 0
  }

  /** Where a knot goes after the knot ahead of it moved: nowhere when the
      two still touch, otherwise one cell toward it on each axis on which
      they differ. */
  function Follow(leader: Coord, knot: Coord): Coord
  {
    if IsAdjacent(leader, knot) then knot
    else Coord(knot.x + Sign(leader.x - knot.x), knot.y + Sign(leader.y - knot.y))
  }

  // ---------------------------------------------------------------------
  // follow_head: a search through a table of offsets

  /** `ADJACENCY_MAP`: the four straight offsets, no move, then the four
      diagonal ones. */
  const AdjacencyMap: seq<(int, int)> :=
    [(0, -1), (-1, 0), (1, 0), (0, 1), (0, 0), (-1, -1), (1, -1), (-1, 1), (1, 1)]

  function Offset(c: Coord, d: (int, int)): Coord
  {
    Coord(c.x + d.0, c.y + d.1)
  }

  /** A straight candidate is taken when it touches the head and lines up
      with it. */
  predicate StraightFits(head: Coord, p: Coord)
  {
    IsAdjacent(head, p) && (head.x - p.x == 0 || head.y - p.y == 0)
  }

  /** `follow_head`: a knot that touches the head stays; otherwise the first
      straight offset that lines up with the head and touches it is taken
      (tried only when one of the signed differences is at most 1), else
      the first diagonal offset that touches it. A head more than two cells
      away on some axis reaches the `unreachable!`, so that is excluded. */
  method FollowHead(head: Coord, tail: Coord) returns (r: Coord)
    requires Chebyshev(head, tail) <= 2
    ensures r == Follow(head, tail)
  {
    if IsAdjacent(head, tail) {
      return tail;
    }
    var dx, dy := head.x - tail.x, head.y - tail.y;
    if dx <= 1 || dy <= 1 {
      for k := 0 to 4
        invariant k > 0 ==> !StraightFits(head, Offset(tail, AdjacencyMap[0]))
        invariant k > 1 ==> !StraightFits(head, Offset(tail, AdjacencyMap[1]))
        invariant k > 2 ==> !StraightFits(head, Offset(tail, AdjacencyMap[2]))
        invariant k > 3 ==> !StraightFits(head, Offset(tail, AdjacencyMap[3]))
      {
        var p := Offset(tail, AdjacencyMap[k]);
        if StraightFits(head, p) {
          return p;
        }
      }
    }
    assert dx != 0 && dy != 0;
    for k := 5 to 9
      invariant k > 5 ==> !IsAdjacent(head, Offset(tail, AdjacencyMap[5]))
      invariant k > 6 ==> !IsAdjacent(head, Offset(tail, AdjacencyMap[6]))
      invariant k > 7 ==> !IsAdjacent(head, Offset(tail, AdjacencyMap[7]))
      invariant k > 8 ==> !IsAdjacent(head, Offset(tail, AdjacencyMap[8]))
    {
      var p := Offset(tail, AdjacencyMap[k]);
      if IsAdjacent(head, p) {
        return p;
      }
    }
    assert false;
  }

  // ---------------------------------------------------------------------
  // What following does

  /** A knot that touches the knot ahead stays put. */
  lemma FollowAdjacentStays(leader: Coord, knot: Coord)
    requires IsAdjacent(leader, knot)
    ensures Follow(leader, knot) == knot
  {
  }

  /** Within two cells on each axis, the knot ends up touching the knot
      ahead and moves at most one cell on each axis. */
  lemma FollowCatchesUp(leader: Coord, knot: Coord)
    requires Chebyshev(leader, knot) <= 2
    ensures IsAdjacent(leader, Follow(leader, knot))
    ensures IsAdjacent(knot, Follow(leader, knot))
  {
  }

  /** Two cells apart in a row or column, the knot steps straight toward the
      knot ahead; any other knot that does not touch steps diagonally. */
  lemma FollowStraightOrDiagonal(leader: Coord, knot: Coord)
    requires !IsAdjacent(leader, knot)
    ensures var f := Follow(leader, knot);
      (leader.x == knot.x ==> f == Coord(knot.x, knot.y + Sign(leader.y - knot.y))) &&
      (leader.y == knot.y ==> f == Coord(knot.x + Sign(leader.x - knot.x), knot.y)) &&
      (leader.x != knot.x && leader.y != knot.y ==> Abs(f.x - knot.x) == 1 && Abs(f.y - knot.y) == 1)
  {
  }

  // ---------------------------------------------------------------------
  // The rope, as a specification

  /** One cell in the step's direction. */
  function Move(c: Coord, d: Direction): Coord
  {
    ApplyStep(c, Step(d, 1))
  }

  /** The knots after the head moved: each knot follows the new position of
      the knot ahead of it. */
  function Pull(rest: seq<Coord>, leader: Coord): (r: seq<Coord>)
    ensures |r| == |rest|
  {
    if rest == [] then []
    else
      var k := Follow(leader, rest[0]);
      [k] + Pull(rest[1..], k)
  }

  function StepRope(knots: seq<Coord>, d: Direction): (r: seq<Coord>)
    requires |knots| > 0
    ensures |r| == |knots|
  {
    var head := Move(knots[0], d);
    [head] + Pull(knots[1..], head)
  }

  /** Consecutive knots touch. */
  predicate Taut(knots: seq<Coord>)
  {
    forall i :: 0 < i < |knots| ==> IsAdjacent(knots[i - 1], knots[i])
  }

  /** The directions of the unit moves a list of steps makes. */
  function Repeat(d: Direction, n: int): (r: seq<Direction>)
    ensures |r| == Max(n, 0) && forall i :: 0 <= i < |r| ==> r[i] == d
    decreases n
  {
    if n <= 0 then [] else Repeat(d, n - 1) + [d]
  }

  function Moves(steps: seq<Step>): seq<Direction>
  {
    if steps == [] then []
    else Moves(steps[..|steps| - 1]) + Repeat(steps[|steps| - 1].dir, steps[|steps| - 1].n)
  }

  /** The rope after the unit moves. */
  function Run(start: seq<Coord>, moves: seq<Direction>): (r: seq<Coord>)
    requires |start| > 0
    ensures |r| == |start|
  {
    if moves == [] then start
    else StepRope(Run(start, moves[..|moves| - 1]), moves[|moves| - 1])
  }

  /** The cells the last knot occupies after each unit move. */
  function Visited(start: seq<Coord>, moves: seq<Direction>): set<Coord>
    requires |start| > 0
  {
    if moves == [] then {}
    else Visited(start, moves[..|moves| - 1]) + {Last(Run(start, moves))}
  }

  // ---------------------------------------------------------------------
  // The rope stays taut

  lemma {:induction false} PullIndex(rest: seq<Coord>, leader: Coord, i: nat)
    requires i < |rest|
    ensures Pull(rest, leader)[i] == Follow(if i == 0 then leader else Pull(rest, leader)[i - 1], rest[i])
    decreases i
  {
    if i > 0 {
      PullIndex(rest[1..], Follow(leader, rest[0]), i - 1);
    }
  }

  /** The new rope: the head moved one cell and each other knot followed
      the new position of the knot ahead. */
  lemma StepRopeIndex(knots: seq<Coord>, d: Direction, i: nat)
    requires 0 < i < |knots|
    ensures StepRope(knots, d)[0] == Move(knots[0], d)
    ensures StepRope(knots, d)[i] == Follow(StepRope(knots, d)[i - 1], knots[i])
  {
    PullIndex(knots[1..], Move(knots[0], d), i - 1);
  }

  /** Each knot of the new rope is within two cells, on each axis, of its
      old position's follower, and touches the knot ahead of it. */
  lemma {:induction false} StepRopeTautUpTo(knots: seq<Coord>, d: Direction, i: nat)
    requires Taut(knots) && 0 < i < |knots|
    ensures IsAdjacent(StepRope(knots, d)[i - 1], knots[i - 1])
    ensures Chebyshev(StepRope(knots, d)[i - 1], knots[i]) <= 2
    ensures IsAdjacent(StepRope(knots, d)[i - 1], StepRope(knots, d)[i])
    decreases i
  {
    var r := StepRope(knots, d);
    StepRopeIndex(knots, d, i);
    var moved, before, next := r[i - 1], knots[i - 1], knots[i];
    if i > 1 {
      StepRopeTautUpTo(knots, d, i - 1);
      StepRopeIndex(knots, d, i - 1);
      FollowCatchesUp(r[i - 2], before);
    }
    assert IsAdjacent(before, next);
    KnotFollows(moved, before, next);
  }

  /** A knot that moved at most one cell stays within two cells of the
      knot that touched it, which then catches up. */
  lemma KnotFollows(moved: Coord, before: Coord, next: Coord)
    requires IsAdjacent(moved, before) && IsAdjacent(before, next)
    ensures Chebyshev(moved, next) <= 2
    ensures IsAdjacent(moved, Follow(moved, next))
  {
    FollowCatchesUp(moved, next);
  }

  /** Moving the head by one cell keeps a taut rope taut. */
  lemma StepRopeTaut(knots: seq<Coord>, d: Direction)
    requires Taut(knots) && |knots| > 0
    ensures Taut(StepRope(knots, d))
  {
    forall i | 0 < i < |knots|
      ensures IsAdjacent(StepRope(knots, d)[i - 1], StepRope(knots, d)[i])
    {
      StepRopeTautUpTo(knots, d, i);
    }
  }

  /** After every unit move, consecutive knots touch. */
  lemma {:induction false} RunTaut(start: seq<Coord>, moves: seq<Direction>)
    requires Taut(start) && |start| > 0
    ensures Taut(Run(start, moves))
    decreases |moves|
  {
    if moves != [] {
      RunTaut(start, moves[..|moves| - 1]);
      StepRopeTaut(Run(start, moves[..|moves| - 1]), moves[|moves| - 1]);
    }
  }

  /** The head makes the same journey as `apply_step` with the whole
      distance. */
  lemma {:induction false} RunHead(start: seq<Coord>, d: Direction, n: nat)
    requires |start| > 0
    ensures Run(start, Repeat(d, n))[0] == ApplyStep(start[0], Step(d, n))
    decreases n
  {
    if n > 0 {
      var moves := Repeat(d, n);
      assert moves[..|moves| - 1] == Repeat(d, n - 1);
      RunHead(start, d, n - 1);
    }
  }

  /** The last knot visits at most one new cell per unit move, and at least
      one cell once anything moved. */
  lemma {:induction false} VisitedBounds(start: seq<Coord>, moves: seq<Direction>)
    requires |start| > 0
    ensures |Visited(start, moves)| <= |moves|
    ensures moves != [] ==> |Visited(start, moves)| >= 1
    decreases |moves|
  {
    if moves != [] {
      VisitedBounds(start, moves[..|moves| - 1]);
    }
  }

  // ---------------------------------------------------------------------
  // The solvers

  function Start(n: nat, c: Coord): seq<Coord>
  {
    seq(n, _ => c)
  }

  /** One more unit move. */
  lemma RunSnoc(start: seq<Coord>, moves: seq<Direction>, d: Direction)
    requires |start| > 0
    ensures Run(start, moves + [d]) == StepRope(Run(start, moves), d)
    ensures Visited(start, moves + [d]) == Visited(start, moves) + {Last(StepRope(Run(start, moves), d))}
  {
    assert (moves + [d])[..|moves|] == moves;
  }

  lemma MovesNext(steps: seq<Step>, s: nat)
    requires s < |steps|
    ensures Moves(steps[..s + 1]) == Moves(steps[..s]) + Repeat(steps[s].dir, steps[s].n)
  {
    assert steps[..s + 1][..s] == steps[..s];
  }

  lemma RepeatNext(d: Direction, j: int)
    requires j >= 0
    ensures Repeat(d, j + 1) == Repeat(d, j) + [d]
  {
  }

  /** One step of part one: `c` unit moves of the head, the tail following
      each and its cell recorded. */
  method WalkPair(head: Coord, tail: Coord, visited: set<Coord>, d: Direction, c: int,
                  ghost start: seq<Coord>, ghost done: seq<Direction>)
    returns (head': Coord, tail': Coord, visited': set<Coord>)
    requires |start| > 0 && Taut(start)
    requires [head, tail] == Run(start, done) && visited == Visited(start, done)
    ensures [head', tail'] == Run(start, done + Repeat(d, c))
    ensures visited' == Visited(start, done + Repeat(d, c))
  {
    head', tail', visited' := head, tail, visited;
    ghost var walked := done;
    var j := 0;
    assert done + Repeat(d, 0) == done;
    while j < c
      invariant 0 <= j <= Max(c, 0)
      invariant walked == done + Repeat(d, j)
      invariant [head', tail'] == Run(start, walked) && visited' == Visited(start, walked)
      decreases c - j
    {
      PairStep(start, walked, d, head', tail');
      RepeatSnoc(done, d, j);
      head' := ApplyStep(head', Step(d, 1));
      tail' := FollowHead(head', tail');
      visited' := visited' + {tail'};
      walked := walked + [d];
      j := j + 1;
    }
    assert Repeat(d, j) == Repeat(d, c);
  }

  lemma RepeatSnoc(done: seq<Direction>, d: Direction, j: nat)
    ensures done + Repeat(d, j + 1) == (done + Repeat(d, j)) + [d]
  {
    RepeatNext(d, j);
  }

  /** One unit move of a head and a tail: the tail, adjacent before, is
      within two cells of the moved head and follows it. */
  lemma PairStep(start: seq<Coord>, walked: seq<Direction>, d: Direction, head: Coord, tail: Coord)
    requires |start| > 0 && Taut(start) && [head, tail] == Run(start, walked)
    ensures Chebyshev(Move(head, d), tail) <= 2
    ensures [Move(head, d), Follow(Move(head, d), tail)] == Run(start, walked + [d])
    ensures Visited(start, walked + [d]) == Visited(start, walked) + {Follow(Move(head, d), tail)}
  {
    RunTaut(start, walked);
    assert IsAdjacent([head, tail][0], [head, tail][1]);
    RunSnoc(start, walked, d);
    var m := Move(head, d);
    assert Pull([tail], m) == [Follow(m, tail)] + Pull([], Follow(m, tail));
    assert StepRope([head, tail], d) == [m, Follow(m, tail)];
  }

  /** `solve_part_one`: a head and a tail starting at (0, 4); the tail's
      cell is recorded after every unit move. */
  method SolvePartOne(steps: seq<Step>) returns (count: nat)
    ensures count == |Visited(Start(2, Coord(0, 4)), Moves(steps))|
  {
    ghost var start := Start(2, Coord(0, 4));
    var head, tail := Coord(0, 4), Coord(0, 4);
    var visited: set<Coord> := {};
    assert [head, tail] == start;
    for s := 0 to |steps|
      invariant [head, tail] == Run(start, Moves(steps[..s]))
      invariant visited == Visited(start, Moves(steps[..s]))
    {
      head, tail, visited := WalkPair(head, tail, visited, steps[s].dir, steps[s].n, start, Moves(steps[..s]));
      MovesNext(steps, s);
    }
    assert steps[..|steps|] == steps;
    count := |visited|;
  }

  /** One step of part two: `c` unit moves of the whole rope, the last
      knot's cell recorded after each. */
  method WalkRope(knots: array<Coord>, visited: set<Coord>, d: Direction, c: int,
                  ghost start: seq<Coord>, ghost done: seq<Direction>)
    returns (visited': set<Coord>)
    requires knots.Length > 0 && |start| == knots.Length && Taut(start)
    requires knots[..] == Run(start, done) && visited == Visited(start, done)
    modifies knots
    ensures knots[..] == Run(start, done + Repeat(d, c))
    ensures visited' == Visited(start, done + Repeat(d, c))
  {
    visited' := visited;
    ghost var walked := done;
    var j := 0;
    assert done + Repeat(d, 0) == done;
    while j < c
      invariant 0 <= j <= Max(c, 0)
      invariant walked == done + Repeat(d, j)
      invariant knots[..] == Run(start, walked) && visited' == Visited(start, walked)
      decreases c - j
    {
      visited' := WalkOne(knots, visited', d, start, walked);
      RepeatSnoc(done, d, j);
      walked := walked + [d];
      j := j + 1;
    }
    assert Repeat(d, j) == Repeat(d, c);
  }

  /** One unit move of the whole rope, the last knot's new cell recorded. */
  method WalkOne(knots: array<Coord>, visited: set<Coord>, d: Direction,
                 ghost start: seq<Coord>, ghost walked: seq<Direction>)
    returns (visited': set<Coord>)
    requires knots.Length > 0 && |start| == knots.Length && Taut(start)
    requires knots[..] == Run(start, walked) && visited == Visited(start, walked)
    modifies knots
    ensures knots[..] == Run(start, walked + [d])
    ensures visited' == Visited(start, walked + [d])
  {
    RunTaut(start, walked);
    RunSnoc(start, walked, d);
    PullKnots(knots, d);
    visited' := visited + {knots[knots.Length - 1]};
  }

  /** `solve_part_two`: ten knots starting at (11, 15) in a fixed-size
      array; after each unit move the knots follow in order and the last
      one's cell is recorded. */
  method SolvePartTwo(steps: seq<Step>) returns (count: nat)
    ensures count == |Visited(Start(10, Coord(11, 15)), Moves(steps))|
  {
    ghost var start := Start(10, Coord(11, 15));
    var knots := new Coord[10](_ => Coord(11, 15));
    var visited: set<Coord> := {};
    assert knots[..] == start;
    for s := 0 to |steps|
      invariant knots[..] == Run(start, Moves(steps[..s]))
      invariant visited == Visited(start, Moves(steps[..s]))
    {
      visited := WalkRope(knots, visited, steps[s].dir, steps[s].n, start, Moves(steps[..s]));
      MovesNext(steps, s);
    }
    assert steps[..|steps|] == steps;
    count := |visited|;
  }

  /** One unit move of the whole rope, in place: the head moves and each
      knot in turn follows the one ahead of it. */
  method PullKnots(knots: array<Coord>, d: Direction)
    requires knots.Length > 0 && Taut(knots[..])
    modifies knots
    ensures knots[..] == StepRope(old(knots[..]), d)
  {
    ghost var before := knots[..];
    ghost var after := StepRope(before, d);
    knots[0] := ApplyStep(knots[0], Step(d, 1));
    for i := 1 to knots.Length
      invariant forall j :: 0 <= j < i ==> knots[j] == after[j]
      invariant forall j :: i <= j < knots.Length ==> knots[j] == before[j]
    {
      StepRopeTautUpTo(before, d, i);
      StepRopeIndex(before, d, i);
      knots[i] := FollowHead(knots[i - 1], knots[i]);
    }
  }

  // ---------------------------------------------------------------------
  // Parsing

  function DirectionOf(letter: string): Option<Direction>
  {
    if letter == "U" then Some(Up)
    else if letter == "D" then Some(Down)
    else if letter == "L" then Some(Left)
    else if letter == "R" then Some(Right)
    else None
  }

  /** The index of the first space. */
  function FirstSpace(s: string): (r: Option<nat>)
    ensures r.Some? ==> (r.value < |s| && s[r.value] == ' '
      && forall j :: 0 <= j < r.value ==> s[j] != ' ')
    ensures r.None? ==> forall j :: 0 <= j < |s| ==> s[j] != ' '
  {
    if s == [] then None
    else if s[0] == ' ' then Some(0)
    else match FirstSpace(s[1..]) case Some(i) => Some(i + 1) case None => None
  }

  /** A line `parse_input` reads without panicking: a space, a known
      direction before the first one and an `i32` after it. */
  predicate LineWellFormed(line: string)
  {
    FirstSpace(line).Some? &&
    var i := FirstSpace(line).value;
    DirectionOf(line[..i]).Some? && ParseInt(line[i + 1..]).Some?
  }

  function ParseLine(line: string): Step
    requires LineWellFormed(line)
  {
    var i := FirstSpace(line).value;
    Step(DirectionOf(line[..i]).value, ParseInt(line[i + 1..]).value)
  }

  function ParseInput(lines: seq<string>): (r: seq<Step>)
    requires forall k :: 0 <= k < |lines| ==> LineWellFormed(lines[k])
    ensures |r| == |lines| && forall k :: 0 <= k < |lines| ==> r[k] == ParseLine(lines[k])
  {
    seq(|lines|, k requires 0 <= k < |lines| && LineWellFormed(lines[k]) => ParseLine(lines[k]))
  }

  function Letter(d: Direction): string
  {
    match d
    case Up => "U"
    case Down => "D"
    case Left => "L"
    case Right => "R"
  }

  /** A step written the way the input writes it. */
  function StepLine(step: Step): string
  {
    Letter(step.dir) + " " + IntToString(step.n)
  }

  /** Every step reads back from its line. */
  lemma ParseStepLine(step: Step)
    ensures LineWellFormed(StepLine(step)) && ParseLine(StepLine(step)) == step
  {
    var line := StepLine(step);
    assert line[0] != ' ' && line[1] == ' ';
    assert FirstSpace(line) == Some(1);
    assert line[..1] == Letter(step.dir);
    assert line[2..] == IntToString(step.n);
    ParseIntOfIntToString(step.n);
  }

  /** Only the four direction letters are accepted. */
  lemma DirectionOfLetter(letter: string)
    ensures DirectionOf(letter).Some? <==> letter in {"U", "D", "L", "R"}
    ensures DirectionOf(letter).Some? ==> Letter(DirectionOf(letter).value) == letter
  {
  }
}
