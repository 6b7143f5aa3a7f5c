// Day 8: Treetop Tree House. A grid of tree heights; a tree is visible
// from outside when every tree between it and some edge is shorter, and its
// scenic score multiplies how far it sees in the four directions.

module TreetopTreeHouse {
  import opened Common

  type Grid = seq<seq<nat>>

  /** Every row as long as the first: the grid the two walks index into. */
  predicate Rectangular(g: Grid)
  {
    forall i :: 0 <= i < |g| ==> |g[i]| == |g[0]|
  }

  predicate InGrid(g: Grid, x: nat, y: nat)
  {
    Rectangular(g) && x < |g| && y < |g[x]|
  }

  /** The edge test shared by both walks. */
  predicate OnBorder(g: Grid, x: nat, y: nat)
    requires InGrid(g, x, y)
  {
    x == 0 || y == 0 || x == |g| - 1 || y == |g[x]| - 1
  }

  /** `DIRECTIONS`, in its order: (-1, 0), (0, -1), (0, 1), (1, 0). */
  datatype Direction = Up | Left | Right | Down

  function Dx(d: Direction): int
  {
    match d case Up => -1 case Left => 0 case Right => 0 case Down => 1
  }

  function Dy(d: Direction): int
  {
    match d case Up => 0 case Left => -1 case Right => 1 case Down => 0
  }

  /** How many trees lie between (x, y) and the edge in direction `d`. */
  function Reach(g: Grid, x: nat, y: nat, d: Direction): nat
    requires InGrid(g, x, y)
  {
    match d
    case Up => x
    case Left => y
    case Right => |g[x]| - 1 - y
    case Down => |g| - 1 - x
  }

  /** The row of the tree `k + 1` steps from (x, y) in direction `d`. */
  function RowAt(x: nat, d: Direction, k: nat): int
  {
    match d case Up => x - k - 1 case Left => x case Right => x case Down => x + k + 1
  }

  /** The column of the tree `k + 1` steps from (x, y) in direction `d`. */
  function ColAt(y: nat, d: Direction, k: nat): int
  {
    match d case Up => y case Left => y - k - 1 case Right => y + k + 1 case Down => y
  }

  lemma AheadInGrid(g: Grid, x: nat, y: nat, d: Direction, k: nat)
    requires InGrid(g, x, y) && k < Reach(g, x, y, d)
    ensures 0 <= RowAt(x, d, k) < |g| && 0 <= ColAt(y, d, k) < |g[RowAt(x, d, k)]|
  {
  }

  /** The heights met walking from (x, y) towards the edge in direction
      `d`, from the neighbour up to and including the edge tree. */
  function Ray(g: Grid, x: nat, y: nat, d: Direction): (r: seq<nat>)
    requires InGrid(g, x, y)
    ensures |r| == Reach(g, x, y, d)
    ensures forall k :: 0 <= k < |r| ==>
      0 <= RowAt(x, d, k) < |g| && 0 <= ColAt(y, d, k) < |g[RowAt(x, d, k)]|
      && r[k] == g[RowAt(x, d, k)][ColAt(y, d, k)]
  {
    seq(Reach(g, x, y, d), k requires 0 <= k < Reach(g, x, y, d) =>
      AheadInGrid(g, x, y, d, k);
      g[RowAt(x, d, k)][ColAt(y, d, k)])
  }

  /** From an interior tree, a walk meets the edge exactly at the last tree
      of its ray. */
  lemma BorderAtEnd(g: Grid, x: nat, y: nat, d: Direction, k: nat)
    requires InGrid(g, x, y) && !OnBorder(g, x, y) && k < Reach(g, x, y, d)
    ensures InGrid(g, RowAt(x, d, k), ColAt(y, d, k))
    ensures OnBorder(g, RowAt(x, d, k), ColAt(y, d, k)) <==> k == Reach(g, x, y, d) - 1
  {
  }

  // ---------------------------------------------------------------------
  // is_tree_visible

  /** Every tree of `ray` is strictly shorter than `h`. */
  predicate Clear(ray: seq<nat>, h: nat)
  {
    forall k :: 0 <= k < |ray| ==> ray[k] < h
  }

  /** Seen from outside: on the edge, or above every tree towards some edge. */
  predicate Visible(g: Grid, x: nat, y: nat)
    requires InGrid(g, x, y)
  {
    OnBorder(g, x, y) || exists d :: Clear(Ray(g, x, y, d), g[x][y])
  }

  /** The `while` loop of `is_tree_visible` in one direction: true when it
      reaches the edge over strictly shorter trees. */
  method SeesEdge(g: Grid, x: nat, y: nat, d: Direction) returns (clear: bool)
    requires InGrid(g, x, y) && !OnBorder(g, x, y)
    ensures clear == Clear(Ray(g, x, y, d), g[x][y])
  {
    ghost var ray := Ray(g, x, y, d);
    var px: int := x + Dx(d);
    var py: int := y + Dy(d);
    ghost var k := 0;
    BorderAtEnd(g, x, y, d, 0);
    while g[x][y] > g[px][py]
      invariant k < |ray| && px == RowAt(x, d, k) && py == ColAt(y, d, k)
      invariant forall j :: 0 <= j < k ==> ray[j] < g[x][y]
      decreases |ray| - k
    {
      if px == 0 || py == 0 || px == |g| - 1 || py == |g[px]| - 1 {
        assert k == |ray| - 1;
        return true;
      }
      px, py, k := px + Dx(d), py + Dy(d), k + 1;
      BorderAtEnd(g, x, y, d, k);
    }
    return false;
  }

  /** `is_tree_visible`. */
  method IsTreeVisible(g: Grid, x: nat, y: nat) returns (visible: bool)
    requires InGrid(g, x, y)
    ensures visible == Visible(g, x, y)
  {
    if x == 0 || y == 0 || x == |g| - 1 || y == |g[x]| - 1 {
      return true;
    }
    var ds := [Up, Left, Right, Down];
    for i := 0 to 4
      invariant forall j :: 0 <= j < i ==> !Clear(Ray(g, x, y, ds[j]), g[x][y])
    {
      var clear := SeesEdge(g, x, y, ds[i]);
      if clear {
        return true;
      }
    }
    forall d | true
      ensures !Clear(Ray(g, x, y, d), g[x][y])
    {
      assert d == ds[if d.Up? then 0 else if d.Left? then 1 else if d.Right? then 2 else 3];
    }
    return false;
  }

  // ---------------------------------------------------------------------
  // get_scenic_score

  /** How many trees are seen along `ray` from a tree of height `h`: up to
      and including the first at least as tall, or all of them. */
  function ViewDistance(ray: seq<nat>, h: nat): (n: nat)
    ensures ray == [] ==> n == 0
    ensures ray != [] ==> 1 <= n <= |ray|
    ensures forall k :: 0 <= k < n - 1 ==> ray[k] < h
    ensures n < |ray| ==> n > 0 && ray[n - 1] >= h
  {
    if ray == [] then 0
    else if ray[0] >= h || |ray| == 1 then 1
    else 1 + ViewDistance(ray[1..], h)
  }

  /** The view distance is the only count with those properties: stop at the
      first tree at least as tall, or at the edge. */
  lemma ViewDistanceUnique(ray: seq<nat>, h: nat, n: nat)
    requires 1 <= n <= |ray|
    requires forall k :: 0 <= k < n - 1 ==> ray[k] < h
    requires n < |ray| ==> ray[n - 1] >= h
    ensures n == ViewDistance(ray, h)
  {
  }

  /** A tree sees over the whole ray exactly when the trees before the edge
      tree are shorter: every clear ray is seen to its end. */
  lemma ClearSeesAll(ray: seq<nat>, h: nat)
    requires Clear(ray, h)
    ensures ViewDistance(ray, h) == |ray|
  {
    if ray != [] {
      ViewDistanceUnique(ray, h, |ray|);
    }
  }

  function Distance(g: Grid, x: nat, y: nat, d: Direction): nat
    requires InGrid(g, x, y)
  {
    ViewDistance(Ray(g, x, y, d), g[x][y])
  }

  /** `get_scenic_score`: 0 on the edge, else the product of the four view
      distances. */
  function Scenic(g: Grid, x: nat, y: nat): nat
    requires InGrid(g, x, y)
  {
    if OnBorder(g, x, y) then 0
    else Product(Distance(g, x, y, Up), Distance(g, x, y, Left), Distance(g, x, y, Right), Distance(g, x, y, Down))
  }

  /** The fold `result * view_dist` from 1 over the four distances. */
  function Product(a: nat, b: nat, c: nat, d: nat): (p: nat)
    ensures a >= 1 && b >= 1 && c >= 1 && d >= 1 ==> p >= 1
  {
    var ab: nat := a * b;
    var abc: nat := ab * c;
    abc * d
  }

  /** Edge trees score 0; an interior tree sees at least its neighbour and at
      most the edge in each direction, so it scores at least 1. */
  lemma ScenicBounds(g: Grid, x: nat, y: nat)
    requires InGrid(g, x, y)
    ensures OnBorder(g, x, y) <==> Scenic(g, x, y) == 0
    ensures !OnBorder(g, x, y) ==> forall d ::
      1 <= Distance(g, x, y, d) <= Reach(g, x, y, d)
  {
    if !OnBorder(g, x, y) {
      assert Reach(g, x, y, Up) > 0 && Reach(g, x, y, Left) > 0;
      assert Reach(g, x, y, Right) > 0 && Reach(g, x, y, Down) > 0;
    }
  }

  /** The loop of `get_scenic_score` in one direction. */
  method ViewWalk(g: Grid, x: nat, y: nat, d: Direction) returns (viewDist: nat)
    requires InGrid(g, x, y) && !OnBorder(g, x, y)
    ensures viewDist == Distance(g, x, y, d)
  {
    ghost var ray := Ray(g, x, y, d);
    var px: int := x + Dx(d);
    var py: int := y + Dy(d);
    viewDist := 0;
    BorderAtEnd(g, x, y, d, 0);
    while true
      invariant viewDist < |ray| && px == RowAt(x, d, viewDist) && py == ColAt(y, d, viewDist)
      invariant forall j :: 0 <= j < viewDist ==> ray[j] < g[x][y]
      decreases |ray| - viewDist
    {
      viewDist := viewDist + 1;
      if px == 0 || py == 0 || px == |g| - 1 || py == |g[px]| - 1 || g[px][py] >= g[x][y] {
        break;
      }
      px, py := px + Dx(d), py + Dy(d);
      BorderAtEnd(g, x, y, d, viewDist);
    }
    ViewDistanceUnique(ray, g[x][y], viewDist);
  }

  /** `get_scenic_score`: the fold over the four directions. */
  method GetScenicScore(g: Grid, x: nat, y: nat) returns (score: nat)
    requires InGrid(g, x, y)
    ensures score == Scenic(g, x, y)
  {
    if x == 0 || y == 0 || x == |g| - 1 || y == |g[x]| - 1 {
      return 0;
    }
    var up := ViewWalk(g, x, y, Up);
    var left := ViewWalk(g, x, y, Left);
    var right := ViewWalk(g, x, y, Right);
    var down := ViewWalk(g, x, y, Down);
    score := Product(up, left, right, down);
  }

  // ---------------------------------------------------------------------
  // The two parts

  /** The visible trees among the first `k` of row `x`. */
  function VisibleInRow(g: Grid, x: nat, k: nat): (n: nat)
    requires Rectangular(g) && x < |g| && k <= |g[x]|
    ensures n <= k
  {
    if k == 0 then 0 else VisibleInRow(g, x, k - 1) + (if Visible(g, x, k - 1) then 1 else 0)
  }

  /** The visible trees in the first `k` rows. */
  function VisibleInRows(g: Grid, k: nat): nat
    requires Rectangular(g) && k <= |g|
  {
    if k == 0 then 0 else VisibleInRows(g, k - 1) + VisibleInRow(g, k - 1, |g[k - 1]|)
  }

  /** `solve_part_one`: the number of visible trees. */
  function PartOne(g: Grid): nat
    requires Rectangular(g)
  {
    VisibleInRows(g, |g|)
  }

  /** Every tree of an edge row is visible, and a row never has more visible
      trees than trees. */
  lemma {:induction false} EdgeRowAllVisible(g: Grid, x: nat, k: nat)
    requires Rectangular(g) && (x == 0 || x == |g| - 1) && x < |g| && k <= |g[x]|
    ensures VisibleInRow(g, x, k) == k
    decreases k
  {
    if k > 0 {
      EdgeRowAllVisible(g, x, k - 1);
    }
  }

  /** Part one lies between the trees of the first row and all the trees. */
  lemma {:induction false} PartOneBounds(g: Grid, k: nat)
    requires Rectangular(g) && 0 < k <= |g|
    ensures |g[0]| <= VisibleInRows(g, k) <= k * |g[0]|
    decreases k
  {
    if k == 1 {
      EdgeRowAllVisible(g, 0, |g[0]|);
    } else {
      PartOneBounds(g, k - 1);
    }
  }

  /** The larger of two optional values, `None` below every `Some`, as
      `Iterator::max` orders them. */
  function MaxOption(a: Option<nat>, b: Option<nat>): (r: Option<nat>)
    ensures r.None? <==> a.None? && b.None?
    ensures r.Some? ==> ((r == a || r == b)
      && (a.Some? ==> a.value <= r.value) && (b.Some? ==> b.value <= r.value))
  {
    if a.None? then b
    else if b.None? then a
    else Some(Max(a.value, b.value))
  }

  /** `Iterator::max` over plain values; `None` for none. */
  function Best(s: seq<nat>): (r: Option<nat>)
    ensures r.None? <==> s == []
    ensures r.Some? ==> (r.value in s && forall i :: 0 <= i < |s| ==> s[i] <= r.value)
  {
    if s == [] then None else MaxOption(Best(s[..|s| - 1]), Some(Last(s)))
  }

  /** The best value among the first `k` rows of `ss`, `None` when they
      are all empty: the outer `max` over the rows' `max`. */
  function BestInRows(ss: seq<seq<nat>>, k: nat): (r: Option<nat>)
    requires k <= |ss|
    ensures r.None? <==> forall x :: 0 <= x < k ==> ss[x] == []
    ensures r.Some? ==> ((exists x :: 0 <= x < k && r.value in ss[x])
      && forall x, y :: 0 <= x < k && 0 <= y < |ss[x]| ==> ss[x][y] <= r.value)
  {
    if k == 0 then None
    else
      var r := MaxOption(BestInRows(ss, k - 1), Best(ss[k - 1]));
      assert r.Some? && r == Best(ss[k - 1]) ==> r.value in ss[k - 1];
      r
  }

  /** Every tree's scenic score, by row and column. */
  function Scores(g: Grid): (ss: seq<seq<nat>>)
    requires Rectangular(g)
    ensures |ss| == |g| && forall x :: 0 <= x < |g| ==> |ss[x]| == |g[x]|
    ensures forall x, y :: 0 <= x < |g| && 0 <= y < |g[x]| ==> ss[x][y] == Scenic(g, x, y)
  {
    seq(|g|, x requires 0 <= x < |g| =>
      seq(|g[x]|, y requires 0 <= y < |g[x]| => Scenic(g, x, y)))
  }

  /** `solve_part_two`: the highest scenic score; `None` where `unwrap`
      panics, on a grid without trees. */
  function PartTwo(g: Grid): Option<nat>
    requires Rectangular(g)
  {
    BestInRows(Scores(g), |g|)
  }

  /** Part two is the score of some tree and no tree scores higher; it is
      missing only for a grid without trees. */
  lemma PartTwoBest(g: Grid)
    requires Rectangular(g)
    ensures PartTwo(g).None? <==> (|g| == 0 || |g[0]| == 0)
    ensures PartTwo(g).Some? ==> ((exists x, y :: 0 <= x < |g| && 0 <= y < |g[x]| && PartTwo(g).value == Scenic(g, x, y))
      && forall x, y :: 0 <= x < |g| && 0 <= y < |g[x]| ==> Scenic(g, x, y) <= PartTwo(g).value)
  {
    var ss := Scores(g);
    var r := PartTwo(g);
    if r.Some? {
      var x :| 0 <= x < |g| && r.value in ss[x];
      var y :| 0 <= y < |ss[x]| && ss[x][y] == r.value;
      assert r.value == Scenic(g, x, y);
    } else if |g| > 0 {
      assert ss[0] == [];
    }
  }

  // ---------------------------------------------------------------------
  // parse_input

  /** `map_while(|c| c.to_digit(10))`: the values of the leading digits. */
  function ParseLine(line: string): (row: seq<nat>)
    ensures |row| <= |line|
    ensures forall k :: 0 <= k < |row| ==> IsDigit(line[k]) && row[k] == DigitValue(line[k])
    ensures |row| < |line| ==> !IsDigit(line[|row|])
  {
    if line == [] || !IsDigit(line[0]) then []
    else [DigitValue(line[0])] + ParseLine(line[1..])
  }

  /** `parse_input`: one row per line. */
  function ParseInput(lines: seq<string>): (g: Grid)
    ensures |g| == |lines| && forall i :: 0 <= i < |lines| ==> g[i] == ParseLine(lines[i])
  {
    seq(|lines|, i requires 0 <= i < |lines| => ParseLine(lines[i]))
  }

  /** A row of heights written as digits. */
  function Render(row: seq<nat>): (s: string)
    requires forall k :: 0 <= k < |row| ==> row[k] < 10
    ensures |s| == |row| && AllDigits(s)
  {
    seq(|row|, k requires 0 <= k < |row| => DigitChar(row[k]))
  }

  /** Parsing a rendered row gives it back, whatever follows the digits
      when it does not start with one. */
  lemma ParseRender(row: seq<nat>, rest: string)
    requires forall k :: 0 <= k < |row| ==> row[k] < 10
    requires rest == [] || !IsDigit(rest[0])
    ensures ParseLine(Render(row) + rest) == row
  {
    var line := Render(row) + rest;
    var r := ParseLine(line);
    assert forall k :: 0 <= k < |row| ==> line[k] == DigitChar(row[k]) && IsDigit(line[k]);
    assert |row| < |line| ==> line[|row|] == rest[0];
    forall k | 0 <= k < |row|
      ensures r[k] == row[k]
    {
      DigitRoundTrip(row[k]);
    }
  }

  lemma DigitRoundTrip(d: nat)
    requires d < 10
    ensures DigitValue(DigitChar(d)) == d
  {
  }
}
