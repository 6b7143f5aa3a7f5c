// Day 14: Regolith Reservoir. Rock paths are drawn into a set of occupied
// cells, then grains of sand fall from (500, 0) one at a time until they
// fall past the rocks (part one) or block the source (part two).

module RegolithReservoir {
  import opened Common

  /** (x, y), with y growing downwards. */
  type Point = (int, int)

  // ---------------------------------------------------------------------
  // add_rock

  /** The cells with `sx <= x <= ex` and `sy <= y <= ey`. */
  function Box(sx: int, ex: int, sy: int, ey: int): set<Point>
  {
    set x, y | sx <= x <= ex && sy <= y <= ey :: (x, y)
  }

  /** The cells drawn for one pair of consecutive path points: the box
      between them, ends included (a straight segment for the axis-aligned
      paths of the puzzle). */
  function Segment(a: Point, b: Point): set<Point>
  {
    Box(Min(a.0, b.0), Max(a.0, b.0), Min(a.1, b.1), Max(a.1, b.1))
  }

  /** The segments of the first `i` windows of two consecutive points. */
  function Windows(points: seq<Point>, i: nat): set<Point>
    requires i < |points| || i == 0
  {
    if i == 0 then {} else Windows(points, i - 1) + Segment(points[i - 1], points[i])
  }

  /** Every cell a rock path covers. */
  function Path(points: seq<Point>): set<Point>
  {
    if |points| < 2 then {} else Windows(points, |points| - 1)
  }

  /** A path covers exactly the cells of its segments, and nothing else. */
  lemma {:induction false} WindowsCells(points: seq<Point>, i: nat, p: Point)
    requires i < |points| || i == 0
    ensures p in Windows(points, i) <==> exists j :: 0 <= j < i && p in Segment(points[j], points[j + 1])
    decreases i
  {
    if i > 0 {
      WindowsCells(points, i - 1, p);
      if p in Segment(points[i - 1], points[i]) {
        assert 0 <= i - 1 < i && p in Segment(points[i - 1], points[i - 1 + 1]);
      }
    }
  }

  /** Every corner of a path of two or more points is rock. */
  lemma PathCorners(points: seq<Point>, j: nat)
    requires j < |points| && |points| >= 2
    ensures points[j] in Path(points)
  {
    var k := if j == 0 then 0 else j - 1;
    assert points[j] in Segment(points[k], points[k + 1]);
    WindowsCells(points, |points| - 1, points[j]);
  }

  /** The inner loop of `add_rock`: one row of a box. */
  method InsertRow(cave0: set<Point>, sx: int, ex: int, y: int) returns (cave: set<Point>)
    requires sx <= ex
    ensures cave == cave0 + Box(sx, ex, y, y)
  {
    cave := cave0;
    for x := sx to ex + 1
      invariant cave == cave0 + Box(sx, x - 1, y, y)
    {
      assert Box(sx, x, y, y) == Box(sx, x - 1, y, y) + {(x, y)};
      cave := cave + {(x, y)};
    }
  }

  /** The two nested loops of `add_rock` for one window. */
  method InsertBox(cave0: set<Point>, sx: int, ex: int, sy: int, ey: int) returns (cave: set<Point>)
    requires sx <= ex && sy <= ey
    ensures cave == cave0 + Box(sx, ex, sy, ey)
  {
    cave := cave0;
    for y := sy to ey + 1
      invariant cave == cave0 + Box(sx, ex, sy, y - 1)
    {
      assert Box(sx, ex, sy, y) == Box(sx, ex, sy, y - 1) + Box(sx, ex, y, y);
      cave := InsertRow(cave, sx, ex, y);
    }
  }

  /** `add_rock`: the cave with every cell of the path added, and nothing
      removed. */
  method AddRock(cave0: set<Point>, points: seq<Point>) returns (cave: set<Point>)
    ensures cave == cave0 + Path(points)
  {
    cave := cave0;
    var n := if |points| < 2 then 0 else |points| - 1;
    for i := 0 to n
      invariant cave == cave0 + Windows(points, i)
    {
      var a, b := points[i], points[i + 1];
      cave := InsertBox(cave, Min(a.0, b.0), Max(a.0, b.0), Min(a.1, b.1), Max(a.1, b.1));
    }
  }

  /** All the rock: the paths folded into an empty cave. */
  function Rocks(paths: seq<seq<Point>>): set<Point>
  {
    if paths == [] then {} else Rocks(paths[..|paths| - 1]) + Path(Last(paths))
  }

  /** The fold of `add_rock` over the paths. */
  method BuildCave(paths: seq<seq<Point>>) returns (cave: set<Point>)
    ensures cave == Rocks(paths)
  {
    cave := {};
    for i := 0 to |paths|
      invariant cave == Rocks(paths[..i])
    {
      assert paths[..i + 1][..i] == paths[..i];
      cave := AddRock(cave, paths[i]);
    }
    assert paths[..|paths|] == paths;
  }

  // ---------------------------------------------------------------------
  // drop_sand

  /** A grain at `p` stays there: the floor `h` is right below it, or the
      three cells below are taken. */
  predicate Resting(cave: set<Point>, p: Point, h: int)
  {
    p.1 + 1 > h || ((p.0, p.1 + 1) in cave && (p.0 - 1, p.1 + 1) in cave && (p.0 + 1, p.1 + 1) in cave)
  }

  /** `drop_sand`: fall straight down, else down-left, else down-right,
      never below row `h`. The grain ends at rest, never higher than it
      started, at most one column aside per row fallen, and on its start
      or on a free cell. */
  function DropSand(cave: set<Point>, x: int, y: int, h: int): (p: Point)
    ensures y <= p.1 && (y <= h ==> p.1 <= h)
    ensures Abs(p.0 - x) <= p.1 - y
    ensures p == (x, y) || p !in cave
    ensures Resting(cave, p, h)
    decreases h - y
  {
    if y + 1 > h then (x, y)
    else if (x, y + 1) !in cave then DropSand(cave, x, y + 1, h)
    else if (x - 1, y + 1) !in cave then DropSand(cave, x - 1, y + 1, h)
    else if (x + 1, y + 1) !in cave then DropSand(cave, x + 1, y + 1, h)
    else (x, y)
  }

  // ---------------------------------------------------------------------
  // The two simulations

  const Source: Point := (500, 0)

  /** Where grains falling from the source can come to rest above row `h`. */
  function Area(h: nat): set<Point>
  {
    Box(500 - h, 500 + h, 0, h)
  }

  /** A grain from the source rests inside the area. */
  lemma InArea(cave: set<Point>, h: nat)
    ensures DropSand(cave, 500, 0, h) in Area(h)
  {
    var p := DropSand(cave, 500, 0, h);
    assert 500 - h <= p.0 <= 500 + h && 0 <= p.1 <= h;
  }

  /** A new grain leaves one cell fewer free in the area. */
  lemma FewerFree(cave: set<Point>, p: Point, h: nat)
    requires p in Area(h) && p !in cave
    ensures |Area(h) - (cave + {p})| < |Area(h) - cave|
  {
    var free := Area(h) - cave;
    assert p in free;
    assert Area(h) - (cave + {p}) == free - {p};
  }

  /** How many grains came to rest, and the cave they leave. */
  datatype Poured = Poured(count: nat, cave: set<Point>)

  function Plus(r: Option<Poured>, k: nat): Option<Poured>
  {
    match r case None => None case Some(o) => Some(Poured(o.count + k, o.cave))
  }

  /** Part one's loop from `cave`: grains rest until one rests at x >= w or
      y >= h, which is not counted. `None` where the source would loop
      forever: a grain resting on its own occupied start. Every grain that
      stays takes a new cell, inside the area. */
  function PourOne(cave: set<Point>, w: int, h: nat): (r: Option<Poured>)
    ensures r.Some? ==> (cave <= r.value.cave && |r.value.cave| == |cave| + r.value.count
      && r.value.cave - cave <= Area(h))
    decreases |Area(h) - cave|
  {
    var p := DropSand(cave, 500, 0, h);
    if p.0 >= w || p.1 >= h then Some(Poured(0, cave))
    else if p in cave then None
    else
      InArea(cave, h);
      FewerFree(cave, p, h);
      Plus(PourOne(cave + {p}, w, h), 1)
  }

  /** Part one ends with a grain that falls to the floor or past `w`. */
  lemma {:induction false} PourOneEnds(cave: set<Point>, w: int, h: nat)
    requires PourOne(cave, w, h).Some?
    ensures var p := DropSand(PourOne(cave, w, h).value.cave, 500, 0, h); p.0 >= w || p.1 >= h
    decreases |Area(h) - cave|
  {
    var p := DropSand(cave, 500, 0, h);
    if !(p.0 >= w || p.1 >= h) {
      InArea(cave, h);
      FewerFree(cave, p, h);
      PourOneEnds(cave + {p}, w, h);
    }
  }

  /** Part one runs forever only once the source is taken and a grain
      comes to rest on it again. */
  lemma {:induction false} PourOneStuck(cave: set<Point>, w: int, h: nat)
    requires PourOne(cave, w, h).None?
    ensures exists c :: cave <= c && Source in c && DropSand(c, 500, 0, h) == Source
    decreases |Area(h) - cave|
  {
    var p := DropSand(cave, 500, 0, h);
    if p in cave {
      assert cave <= cave && Source in cave && DropSand(cave, 500, 0, h) == Source;
    } else {
      InArea(cave, h);
      FewerFree(cave, p, h);
      PourOneStuck(cave + {p}, w, h);
    }
  }

  /** Part two's loop from `cave`: grains rest until one rests on the
      source, which is counted and not added. Every other grain takes a new
      cell inside the area; at the end the source is blocked. */
  function PourTwo(cave: set<Point>, h: nat): (r: Poured)
    ensures r.count >= 1 && cave <= r.cave && |r.cave| + 1 == |cave| + r.count
    ensures r.cave - cave <= Area(h + 1)
    ensures DropSand(r.cave, 500, 0, h + 1) == Source
    decreases |Area(h + 1) - cave|
  {
    var p := DropSand(cave, 500, 0, h + 1);
    if p == Source then Poured(1, cave)
    else
      InArea(cave, h + 1);
      FewerFree(cave, p, h + 1);
      var r := PourTwo(cave + {p}, h);
      Poured(r.count + 1, r.cave)
  }

  /** When part two stops, the source is blocked: the three cells below it
      are taken, or the floor is right below it. */
  lemma SourceBlocked(cave: set<Point>, h: nat)
    ensures Resting(PourTwo(cave, h).cave, Source, h + 1)
  {
    var r := PourTwo(cave, h);
    assert DropSand(r.cave, 500, 0, h + 1) == Source;
  }

  /** The largest coordinate along one axis, folding `max` from 0. */
  function MaxX(ps: seq<Point>): (m: int)
    ensures m >= 0 && forall i :: 0 <= i < |ps| ==> ps[i].0 <= m
    ensures m == 0 || exists i :: 0 <= i < |ps| && ps[i].0 == m
  {
    if ps == [] then 0 else Max(MaxX(ps[..|ps| - 1]), Last(ps).0)
  }

  function MaxY(ps: seq<Point>): (m: nat)
    ensures forall i :: 0 <= i < |ps| ==> ps[i].1 <= m
    ensures m == 0 || exists i :: 0 <= i < |ps| && ps[i].1 == m
  {
    if ps == [] then 0 else Max(MaxY(ps[..|ps| - 1]), Last(ps).1)
  }

  /** `input.iter().flatten()`. */
  function Flatten(paths: seq<seq<Point>>): seq<Point>
  {
    if paths == [] then [] else Flatten(paths[..|paths| - 1]) + Last(paths)
  }

  /** `solve_part_one`; `None` where its loop never ends. */
  function PartOne(paths: seq<seq<Point>>): Option<nat>
  {
    var ps := Flatten(paths);
    Count(PourOne(Rocks(paths), MaxX(ps), MaxY(ps)))
  }

  /** `solve_part_two`. */
  function PartTwo(paths: seq<seq<Point>>): nat
  {
    PourTwo(Rocks(paths), MaxY(Flatten(paths))).count
  }

  /** One grain of part one that rests and stays. */
  lemma PourOneStep(cave: set<Point>, w: int, h: nat, p: Point)
    requires p == DropSand(cave, 500, 0, h)
    requires !(p.0 >= w || p.1 >= h) && p !in cave
    ensures PourOne(cave, w, h) == Plus(PourOne(cave + {p}, w, h), 1)
  {
  }

  /** The grain of part one that ends the loop, or that rests on its own
      occupied start. */
  lemma PourOneLast(cave: set<Point>, w: int, h: nat, p: Point)
    requires p == DropSand(cave, 500, 0, h)
    requires (p.0 >= w || p.1 >= h) || p in cave
    ensures PourOne(cave, w, h) == if p.0 >= w || p.1 >= h then Some(Poured(0, cave)) else None
  {
  }

  lemma PlusPlus(r: Option<Poured>, k: nat)
    ensures Plus(Plus(r, 1), k) == Plus(r, k + 1)
  {
  }

  /** The number of grains of an outcome of part one. */
  function Count(r: Option<Poured>): Option<nat>
  {
    match r case None => None case Some(o) => Some(o.count)
  }

  /** `solve_part_one`'s loop, inserting each resting grain into the cave. */
  method PourFirst(cave0: set<Point>, w: int, h: nat) returns (r: Option<nat>)
    ensures r == Count(PourOne(cave0, w, h))
  {
    var cave := cave0;
    var count := 0;
    while true
      invariant PourOne(cave0, w, h) == Plus(PourOne(cave, w, h), count)
      decreases |Area(h) - cave|
    {
      var p := DropSand(cave, 500, 0, h);
      if p.0 >= w || p.1 >= h || p in cave {
        PourOneLast(cave, w, h, p);
        return if p.0 >= w || p.1 >= h then Some(count) else None;
      }
      InArea(cave, h);
      FewerFree(cave, p, h);
      PourOneStep(cave, w, h, p);
      PlusPlus(PourOne(cave + {p}, w, h), count);
      count := count + 1;
      cave := cave + {p};
    }
  }

  /** One grain of part two that rests away from the source. */
  lemma PourTwoStep(cave: set<Point>, h: nat, p: Point)
    requires p == DropSand(cave, 500, 0, h + 1) && p != Source
    ensures PourTwo(cave, h).count == PourTwo(cave + {p}, h).count + 1
  {
  }

  /** `solve_part_two`'s loop. */
  method PourSecond(cave0: set<Point>, h: nat) returns (r: nat)
    ensures r == PourTwo(cave0, h).count
  {
    var cave := cave0;
    var count := 0;
    while true
      invariant PourTwo(cave0, h).count == PourTwo(cave, h).count + count
      decreases |Area(h + 1) - cave|
    {
      var p := DropSand(cave, 500, 0, h + 1);
      if p == Source {
        return count + 1;
      }
      InArea(cave, h + 1);
      FewerFree(cave, p, h + 1);
      PourTwoStep(cave, h, p);
      count := count + 1;
      cave := cave + {p};
    }
  }

  /** `solve_part_one`. */
  method SolvePartOne(paths: seq<seq<Point>>) returns (r: Option<nat>)
    ensures r == PartOne(paths)
  {
    var ps := Flatten(paths);
    var cave := BuildCave(paths);
    r := PourFirst(cave, MaxX(ps), MaxY(ps));
  }

  /** `solve_part_two`. */
  method SolvePartTwo(paths: seq<seq<Point>>) returns (r: nat)
    ensures r == PartTwo(paths)
  {
    var cave := BuildCave(paths);
    r := PourSecond(cave, MaxY(Flatten(paths)));
  }

  // ---------------------------------------------------------------------
  // parse_input

  predicate Blank(s: string)
  {
    forall i :: 0 <= i < |s| ==> IsWhitespace(s[i])
  }

  function TrimStart(s: string): (r: string)
    ensures r == [] || !IsWhitespace(r[0])
    decreases |s|
  {
    if s != [] && IsWhitespace(s[0]) then TrimStart(s[1..]) else s
  }

  function TrimEnd(s: string): (r: string)
    ensures r == [] || !IsWhitespace(r[|r| - 1])
    decreases |s|
  {
    if s != [] && IsWhitespace(s[|s| - 1]) then TrimEnd(s[..|s| - 1]) else s
  }

  /** `str::trim` on ASCII whitespace. */
  function Trim(s: string): string
  {
    TrimEnd(TrimStart(s))
  }

  lemma {:induction false} TrimStartPadded(pad: string, w: string)
    requires Blank(pad) && w != [] && !IsWhitespace(w[0])
    ensures TrimStart(pad + w) == w
    decreases |pad|
  {
    if pad == [] {
      assert pad + w == w;
    } else {
      assert (pad + w)[1..] == pad[1..] + w;
      TrimStartPadded(pad[1..], w);
    }
  }

  lemma {:induction false} TrimEndPadded(w: string, pad: string)
    requires Blank(pad) && w != [] && !IsWhitespace(w[|w| - 1])
    ensures TrimEnd(w + pad) == w
    decreases |pad|
  {
    if pad == [] {
      assert w + pad == w;
    } else {
      assert (w + pad)[..|w + pad| - 1] == w + pad[..|pad| - 1];
      TrimEndPadded(w, pad[..|pad| - 1]);
    }
  }

  /** Trimming removes the blanks around a word and keeps the word. */
  lemma TrimPadded(pad: string, w: string, pad2: string)
    requires Blank(pad) && Blank(pad2) && w != []
    requires !IsWhitespace(w[0]) && !IsWhitespace(w[|w| - 1])
    ensures Trim(pad + w + pad2) == w
  {
    assert pad + w + pad2 == pad + (w + pad2);
    TrimStartPadded(pad, w + pad2);
    TrimEndPadded(w, pad2);
  }

  /** `str::split("->")`: the pieces between the arrows, left to right. */
  function SplitArrow(s: string): (r: seq<string>)
    ensures |r| >= 1
    decreases |s|
  {
    if s == [] then [""]
    else if |s| >= 2 && s[0] == '-' && s[1] == '>' then [""] + SplitArrow(s[2..])
    else
      var rest := SplitArrow(s[1..]);
      [[s[0]] + rest[0]] + rest[1..]
  }

  predicate NoDash(s: string)
  {
    forall i :: 0 <= i < |s| ==> s[i] != '-'
  }

  /** Text without a dash is a single piece. */
  lemma {:induction false} SplitArrowNone(a: string)
    requires NoDash(a)
    ensures SplitArrow(a) == [a]
    decreases |a|
  {
    if a != [] {
      SplitArrowNone(a[1..]);
      assert [a[0]] + a[1..] == a;
    }
  }

  /** The first arrow ends the first piece. */
  lemma {:induction false} SplitArrowAt(a: string, b: string)
    requires NoDash(a)
    ensures SplitArrow(a + "->" + b) == [a] + SplitArrow(b)
    decreases |a|
  {
    if a == [] {
      assert (a + "->" + b)[2..] == b;
    } else {
      assert (a + "->" + b)[1..] == a[1..] + "->" + b;
      SplitArrowAt(a[1..], b);
      assert [a[0]] + a[1..] == a;
    }
  }

  predicate IsComma(c: char)
  {
    c == ','
  }

  /** One point: the numbers among the comma-separated pieces of the
      trimmed text; `None` (the source panics) unless there are exactly two. */
  function ParsePoint(s: string): (r: Option<Point>)
  {
    var ns := Integers(Split(Trim(s), IsComma));
    if |ns| == 2 then Some((ns[0], ns[1])) else None
  }

  /** Every piece parsed as a point, or `None` if one does not. */
  function ParsePoints(pieces: seq<string>): (r: Option<seq<Point>>)
    ensures r.Some? ==> |r.value| == |pieces|
  {
    if pieces == [] then Some([])
    else
      match ParsePoint(pieces[0])
      case None => None
      case Some(p) =>
        match ParsePoints(pieces[1..])
        case None => None
        case Some(ps) => Some([p] + ps)
  }

  /** One line: a rock path, its points separated by arrows. */
  function ParseLine(line: string): (r: Option<seq<Point>>)
    ensures r.Some? ==> |r.value| == |SplitArrow(line)|
  {
    ParsePoints(SplitArrow(line))
  }

  /** `parse_input`; `None` where the source panics. */
  function ParseInput(lines: seq<string>): (r: Option<seq<seq<Point>>>)
    ensures r.Some? ==> |r.value| == |lines|
  {
    if lines == [] then Some([])
    else
      match ParseLine(lines[0])
      case None => None
      case Some(ps) =>
        match ParseInput(lines[1..])
        case None => None
        case Some(rest) => Some([ps] + rest)
  }

  predicate OnGrid(ps: seq<Point>)
  {
    forall i :: 0 <= i < |ps| ==> ps[i].0 >= 0 && ps[i].1 >= 0
  }

  function RenderPoint(p: Point): string
    requires p.0 >= 0 && p.1 >= 0
  {
    NatToString(p.0) + "," + NatToString(p.1)
  }

  /** A path in the puzzle's own notation, `x,y -> x,y -> ...`. */
  function RenderPath(ps: seq<Point>): string
    requires |ps| > 0 && OnGrid(ps)
  {
    if |ps| == 1 then RenderPoint(ps[0]) else RenderPoint(ps[0]) + " -> " + RenderPath(ps[1..])
  }

  /** A point between blanks reads back as itself. */
  lemma ParsePointRendered(pad: string, p: Point, pad2: string)
    requires Blank(pad) && Blank(pad2) && p.0 >= 0 && p.1 >= 0
    ensures ParsePoint(pad + RenderPoint(p) + pad2) == Some(p)
  {
    var a, b := NatToString(p.0), NatToString(p.1);
    var w := RenderPoint(p);
    assert w[0] == a[0] && w[|w| - 1] == b[|b| - 1];
    TrimPadded(pad, w, pad2);
    assert forall i :: 0 <= i < |a| ==> !IsComma(a[i]);
    assert forall i :: 0 <= i < |b| ==> !IsComma(b[i]);
    SplitAt(a, ',', b, IsComma);
    SplitNoSep(b, IsComma);
    ParseNonNegative(p.0);
    ParseNonNegative(p.1);
    assert Integers([a, b]) == [p.0] + Integers([b]);
  }

  lemma RenderNoDash(pad: string, p: Point)
    requires Blank(pad) && p.0 >= 0 && p.1 >= 0
    ensures NoDash(pad + RenderPoint(p) + " ")
  {
    var a, b := NatToString(p.0), NatToString(p.1);
    assert forall i :: 0 <= i < |a| ==> a[i] != '-';
    assert forall i :: 0 <= i < |b| ==> b[i] != '-';
  }

  lemma ParsePointsCons(x: string, rest: seq<string>, p: Point, ps: seq<Point>)
    requires ParsePoint(x) == Some(p) && ParsePoints(rest) == Some(ps)
    ensures ParsePoints([x] + rest) == Some([p] + ps)
  {
    assert ([x] + rest)[1..] == rest;
  }

  /** The last point of a rendered path, after leading blanks. */
  lemma ParseRenderedOne(pad: string, p: Point)
    requires Blank(pad) && p.0 >= 0 && p.1 >= 0
    ensures ParsePoints(SplitArrow(pad + RenderPoint(p))) == Some([p])
  {
    var w := RenderPoint(p);
    var x := pad + w;
    assert x + "" == x;
    ParsePointRendered(pad, p, "");
    assert ParsePoint(x) == Some(p);
    assert NoDash(x) by {
      RenderNoDash(pad, p);
      assert forall i :: 0 <= i < |x| ==> x[i] == (x + " ")[i];
    }
    SplitArrowNone(x);
    ParsePointsCons(x, [], p, []);
    assert [x] + [] == [x] && [p] + [] == [p];
  }

  lemma RenderPathSplit(pad: string, ps: seq<Point>)
    requires |ps| > 1 && OnGrid(ps)
    ensures pad + RenderPath(ps) == (pad + RenderPoint(ps[0]) + " ") + "->" + (" " + RenderPath(ps[1..]))
  {
  }

  /** A rendered path, after leading blanks, reads back as itself. */
  lemma {:induction false} ParseRendered(pad: string, ps: seq<Point>)
    requires Blank(pad) && |ps| > 0 && OnGrid(ps)
    ensures ParsePoints(SplitArrow(pad + RenderPath(ps))) == Some(ps)
    decreases |ps|
  {
    if |ps| == 1 {
      ParseRenderedOne(pad, ps[0]);
      assert [ps[0]] == ps;
    } else {
      ParseRendered(" ", ps[1..]);
      ParseRenderedStep(pad, ps);
    }
  }

  /** The first point of a longer path, given the rest reads back. */
  lemma ParseRenderedStep(pad: string, ps: seq<Point>)
    requires Blank(pad) && |ps| > 1 && OnGrid(ps)
    requires ParsePoints(SplitArrow(" " + RenderPath(ps[1..]))) == Some(ps[1..])
    ensures ParsePoints(SplitArrow(pad + RenderPath(ps))) == Some(ps)
  {
    var a := pad + RenderPoint(ps[0]) + " ";
    var b := " " + RenderPath(ps[1..]);
    RenderPathSplit(pad, ps);
    RenderNoDash(pad, ps[0]);
    SplitArrowAt(a, b);
    ParsePointRendered(pad, ps[0], " ");
    ParsePointsCons(a, SplitArrow(b), ps[0], ps[1..]);
    assert [ps[0]] + ps[1..] == ps;
  }

  /** Parsing a path written in the puzzle's notation gives it back. */
  lemma ParseLineRender(ps: seq<Point>)
    requires |ps| > 0 && OnGrid(ps)
    ensures ParseLine(RenderPath(ps)) == Some(ps)
  {
    ParseRendered("", ps);
    assert "" + RenderPath(ps) == RenderPath(ps);
  }
}
