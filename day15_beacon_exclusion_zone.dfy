/** Day 15 (15/src/lib.rs): sensors and their closest beacons on the
    integer plane. For one row, each sensor's Manhattan-distance diamond
    covers an x-interval; intervals are clamped, sorted and folded into a
    disjoint list; part one counts the covered cells of one row and part two
    searches rows 0..=bound for a row that merges to exactly two intervals. */
module BeaconExclusionZone {
  import opened Common

  datatype Point = Point(x: int, y: int)

  /** A closed interval [lo, hi] of x-coordinates; `lo > hi` (inverted) is
      possible after clamping. */
  datatype Interval = Interval(lo: int, hi: int)

  /** A sensor and its closest beacon, one consecutive pair of the parsed
      point list. */
  datatype Reading = Reading(sensor: Point, beacon: Point)

  function Manhattan(a: Point, b: Point): nat
  {
    Abs(a.x - b.x) + Abs(a.y - b.y)
  }

  predicate InInterval(iv: Interval, x: int)
  {
    iv.lo <= x <= iv.hi
  }

  /** Some interval of `ivs` holds `x`. */
  predicate InUnion(ivs: seq<Interval>, x: int)
  {
    exists k :: 0 <= k < |ivs| && InInterval(ivs[k], x)
  }

  // ---------------------------------------------------------------------
  // Input: consecutive points pair up (itertools' `tuples`)

  function Readings(points: seq<Point>): (r: seq<Reading>)
    ensures |r| == |points| / 2
    ensures forall j :: 0 <= j < |r| ==> r[j] == Reading(points[2 * j], points[2 * j + 1])
    decreases |points|
  {
    if |points| < 2 then []
    else [Reading(points[0], points[1])] + Readings(points[2..])
  }

  /** A character at which `parse_input` cuts a line: ASCII punctuation other
      than '-'. */
  predicate IsCut(c: char)
  {
    c != '-' &&
    (('!' <= c <= '/') || (':' <= c <= '@') || ('[' <= c <= '`') || ('{' <= c <= '~'))
  }

  function PairUp(ns: seq<int>): (r: seq<Point>)
    ensures |r| == |ns| / 2
    decreases |ns|
  {
    if |ns| < 2 then [] else [Point(ns[0], ns[1])] + PairUp(ns[2..])
  }

  /** One line of `parse_input`: cut at punctuation, keep the pieces that
      parse as integers, pair them up (a trailing odd number is dropped). */
  function ParseLine(line: string): seq<Point>
  {
    PairUp(Integers(Split(line, IsCut)))
  }

  function ParseInput(lines: seq<string>): (r: seq<Point>)
  {
    if lines == [] then [] else ParseLine(lines[0]) + ParseInput(lines[1..])
  }

  /** The puzzle's line format. */
  function FormatLine(r: Reading): string
  {
    "Sensor at x" + ['='] + (IntToString(r.sensor.x) + [','] + (" y" + ['='] + (IntToString(r.sensor.y) + [':']
    + (" closest beacon is at x" + ['='] + (IntToString(r.beacon.x) + [','] + (" y" + ['='] + IntToString(r.beacon.y)))))))
  }

  lemma NumberHasNoCut(n: int)
    ensures NoSep(IntToString(n), IsCut)
  {
    var s := IntToString(n);
    if n < 0 {
      assert s == "-" + NatToString(-n);
      assert forall i :: 1 <= i < |s| ==> s[i] == NatToString(-n)[i - 1];
    }
  }

  /** The pieces `ps` joined by the characters `cs`, one between each two. */
  function Join(ps: seq<string>, cs: seq<char>): string
    requires |ps| == |cs| + 1
    decreases |cs|
  {
    if cs == [] then ps[0] else ps[0] + [cs[0]] + Join(ps[1..], cs[1..])
  }

  /** Cut-free pieces joined by cut characters split back into the pieces. */
  lemma {:induction false} SplitJoinAll(ps: seq<string>, cs: seq<char>)
    requires |ps| == |cs| + 1
    requires forall i :: 0 <= i < |ps| ==> NoSep(ps[i], IsCut)
    requires forall i :: 0 <= i < |cs| ==> IsCut(cs[i])
    ensures Split(Join(ps, cs), IsCut) == ps
    decreases |cs|
  {
    if cs == [] {
      SplitNoSep(ps[0], IsCut);
      assert ps == [ps[0]];
    } else {
      var rest := Join(ps[1..], cs[1..]);
      assert NoSep(ps[0], IsCut) && IsCut(cs[0]);
      SplitJoinAll(ps[1..], cs[1..]);
      SplitAt(ps[0], cs[0], rest, IsCut);
      assert [ps[0]] + ps[1..] == ps;
    }
  }

  lemma JoinCons(ps: seq<string>, cs: seq<char>, i: nat)
    requires |ps| == |cs| + 1 && i < |cs|
    ensures Join(ps[i..], cs[i..]) == ps[i] + [cs[i]] + Join(ps[i + 1..], cs[i + 1..])
  {
    assert ps[i..][1..] == ps[i + 1..] && cs[i..][1..] == cs[i + 1..];
  }

  /** The pieces a formatted line is cut into. */
  lemma SplitFormattedLine(r: Reading)
    ensures Split(FormatLine(r), IsCut) == ["Sensor at x", IntToString(r.sensor.x), " y",
      IntToString(r.sensor.y), " closest beacon is at x", IntToString(r.beacon.x), " y", IntToString(r.beacon.y)]
  {
    var ps := ["Sensor at x", IntToString(r.sensor.x), " y",
      IntToString(r.sensor.y), " closest beacon is at x", IntToString(r.beacon.x), " y", IntToString(r.beacon.y)];
    var cs := ['=', ',', '=', ':', '=', ',', '='];
    LabelsHaveNoCut();
    NumberHasNoCut(r.sensor.x);
    NumberHasNoCut(r.sensor.y);
    NumberHasNoCut(r.beacon.x);
    NumberHasNoCut(r.beacon.y);
    EightHaveNoCut(ps);
    SevenAreCuts(cs);
    FormatLineJoins(r, ps, cs);
    SplitJoinAll(ps, cs);
  }

  lemma LabelsHaveNoCut()
    ensures NoSep("Sensor at x", IsCut) && NoSep(" y", IsCut)
    ensures NoSep(" closest beacon is at x", IsCut)
  {
  }

  lemma EightHaveNoCut(ps: seq<string>)
    requires |ps| == 8
    requires NoSep(ps[0], IsCut) && NoSep(ps[1], IsCut) && NoSep(ps[2], IsCut) && NoSep(ps[3], IsCut)
    requires NoSep(ps[4], IsCut) && NoSep(ps[5], IsCut) && NoSep(ps[6], IsCut) && NoSep(ps[7], IsCut)
    ensures forall i :: 0 <= i < |ps| ==> NoSep(ps[i], IsCut)
  {
  }

  lemma SevenAreCuts(cs: seq<char>)
    requires cs == ['=', ',', '=', ':', '=', ',', '=']
    ensures forall i :: 0 <= i < |cs| ==> IsCut(cs[i])
  {
  }

  /** A formatted line is its eight pieces joined by `=,=:=,=`. */
  lemma FormatLineJoins(r: Reading, ps: seq<string>, cs: seq<char>)
    requires ps == ["Sensor at x", IntToString(r.sensor.x), " y",
      IntToString(r.sensor.y), " closest beacon is at x", IntToString(r.beacon.x), " y", IntToString(r.beacon.y)]
    requires cs == ['=', ',', '=', ':', '=', ',', '=']
    ensures FormatLine(r) == Join(ps, cs)
  {
    assert ps[7..] == [ps[7]];
    JoinCons(ps, cs, 6);
    JoinCons(ps, cs, 5);
    JoinCons(ps, cs, 4);
    JoinCons(ps, cs, 3);
    JoinCons(ps, cs, 2);
    JoinCons(ps, cs, 1);
    JoinCons(ps, cs, 0);
    assert ps[0..] == ps && cs[0..] == cs;
  }

  /** A label followed by a number: `Integers` from the label on is that number,
      then the numbers after it. */
  lemma NumbersPair(ps: seq<string>, i: nat, j: nat, k: nat, n: int, tail: seq<int>)
    requires j == i + 1 && k == j + 1 && k <= |ps|
    requires ParseInt(ps[i]) == None && ParseInt(ps[j]) == Some(n)
    requires Integers(ps[k..]) == tail
    ensures Integers(ps[i..]) == [n] + tail
  {
    assert ps[i..][0] == ps[i] && ps[i..][1..] == ps[j..];
    assert ps[j..][0] == ps[j] && ps[j..][1..] == ps[k..];
  }

  /** Eight pieces alternating label, number: the numbers pair up into two
      points. */
  lemma PairUpEight(l0: string, s0: string, l1: string, s1: string, l2: string, s2: string,
                    l3: string, s3: string, a: int, b: int, c: int, d: int)
    requires ParseInt(l0) == None && ParseInt(l1) == None
    requires ParseInt(l2) == None && ParseInt(l3) == None
    requires ParseInt(s0) == Some(a) && ParseInt(s1) == Some(b)
    requires ParseInt(s2) == Some(c) && ParseInt(s3) == Some(d)
    ensures PairUp(Integers([l0, s0, l1, s1, l2, s2, l3, s3])) == [Point(a, b), Point(c, d)]
  {
    var ps := [l0, s0, l1, s1, l2, s2, l3, s3];
    assert ps[8..] == [];
    NumbersPair(ps, 6, 7, 8, d, []);
    NumbersPair(ps, 4, 5, 6, c, [d]);
    NumbersPair(ps, 2, 3, 4, b, [c, d]);
    NumbersPair(ps, 0, 1, 2, a, [b, c, d]);
    assert ps[0..] == ps;
    PairUpFour(a, b, c, d);
  }

  lemma PairUpFour(a: int, b: int, c: int, d: int)
    ensures PairUp([a, b, c, d]) == [Point(a, b), Point(c, d)]
  {
    var ns := [a, b, c, d];
    assert ns[2..] == [c, d] && ns[2..][2..] == [];
  }

  /** None of the line's labels reads as an integer. */
  lemma LabelsAreNotNumbers()
    ensures ParseInt("Sensor at x") == None
    ensures ParseInt(" y") == None
    ensures ParseInt(" closest beacon is at x") == None
  {
    assert !IsDigit("Sensor at x"[0]);
    assert !IsDigit(" y"[0]);
    assert !IsDigit(" closest beacon is at x"[0]);
  }

  /** Parsing a formatted line gives back the sensor and the beacon. */
  lemma ParseFormattedLine(r: Reading)
    ensures ParseLine(FormatLine(r)) == [r.sensor, r.beacon]
  {
    SplitFormattedLine(r);
    LabelsAreNotNumbers();
    ParseIntOfIntToString(r.sensor.x);
    ParseIntOfIntToString(r.sensor.y);
    ParseIntOfIntToString(r.beacon.x);
    ParseIntOfIntToString(r.beacon.y);
    PairUpEight("Sensor at x", IntToString(r.sensor.x), " y", IntToString(r.sensor.y),
      " closest beacon is at x", IntToString(r.beacon.x), " y", IntToString(r.beacon.y),
      r.sensor.x, r.sensor.y, r.beacon.x, r.beacon.y);
  }

  // ---------------------------------------------------------------------
  // scan: the x-interval each sensor covers on one row

  /** One reading's contribution to `scan`: with d the sensor-beacon distance
      and t = d - |row - sy|, the interval [sx - t, sx + t] when t > 0. */
  function Coverage(r: Reading, row: int): (iv: Option<Interval>)
    ensures iv.Some? <==> Abs(row - r.sensor.y) < Manhattan(r.sensor, r.beacon)
    ensures iv.Some? ==> iv.value.lo < iv.value.hi
  {
    var t := Manhattan(r.sensor, r.beacon) - Abs(row - r.sensor.y);
    if t > 0 then Some(Interval(r.sensor.x - t, r.sensor.x + t)) else None
  }

  /** The cells a reading's coverage holds on a row: within the beacon's
      distance of the sensor, except on the rows at exactly that distance
      (where t = 0 and `scan` emits nothing). */
  predicate Covers(r: Reading, row: int, x: int)
  {
    Manhattan(r.sensor, Point(x, row)) <= Manhattan(r.sensor, r.beacon)
    && Abs(row - r.sensor.y) < Manhattan(r.sensor, r.beacon)
  }

  /** Some reading covers cell x of the row. */
  predicate SomeCovers(readings: seq<Reading>, row: int, x: int)
  {
    exists j :: 0 <= j < |readings| && Covers(readings[j], row, x)
  }

  lemma CoverageCells(r: Reading, row: int, x: int)
    ensures (Coverage(r, row).Some? && InInterval(Coverage(r, row).value, x)) <==> Covers(r, row, x)
  {
  }

  function Scan(readings: seq<Reading>, row: int): (ivs: seq<Interval>)
    ensures |ivs| <= |readings|
    ensures forall k :: 0 <= k < |ivs| ==> ivs[k].lo < ivs[k].hi
    decreases |readings|
  {
    if readings == [] then []
    else Contribution(readings[0], row) + Scan(readings[1..], row)
  }

  lemma InUnionAppend(a: seq<Interval>, b: seq<Interval>, x: int)
    ensures InUnion(a + b, x) <==> InUnion(a, x) || InUnion(b, x)
  {
    if InUnion(a + b, x) {
      var k :| 0 <= k < |a + b| && InInterval((a + b)[k], x);
      if k < |a| {
        assert InInterval(a[k], x);
      } else {
        assert InInterval(b[k - |a|], x);
      }
    }
    if InUnion(a, x) {
      var k :| 0 <= k < |a| && InInterval(a[k], x);
      assert InInterval((a + b)[k], x);
    }
    if InUnion(b, x) {
      var k :| 0 <= k < |b| && InInterval(b[k], x);
      assert InInterval((a + b)[|a| + k], x);
    }
  }

  lemma SomeCoversFirst(readings: seq<Reading>, row: int, x: int)
    requires readings != []
    ensures SomeCovers(readings, row, x) <==>
      Covers(readings[0], row, x) || SomeCovers(readings[1..], row, x)
  {
    if SomeCovers(readings, row, x) {
      var j :| 0 <= j < |readings| && Covers(readings[j], row, x);
      if j > 0 {
        assert Covers(readings[1..][j - 1], row, x);
      }
    }
    if SomeCovers(readings[1..], row, x) {
      var j :| 0 <= j < |readings[1..]| && Covers(readings[1..][j], row, x);
      assert Covers(readings[j + 1], row, x);
    }
  }

  function Contribution(r: Reading, row: int): seq<Interval>
  {
    match Coverage(r, row) case Some(iv) => [iv] case None => []
  }

  /** `scan` reports exactly the cells that some reading covers. */
  lemma {:induction false} ScanUnion(readings: seq<Reading>, row: int, x: int)
    ensures InUnion(Scan(readings, row), x) <==> SomeCovers(readings, row, x)
    decreases |readings|
  {
    if readings != [] {
      var head := Contribution(readings[0], row);
      var tail := Scan(readings[1..], row);
      assert Scan(readings, row) == head + tail;
      ScanUnion(readings[1..], row, x);
      InUnionAppend(head, tail, x);
      SomeCoversFirst(readings, row, x);
      CoverageCells(readings[0], row, x);
      assert InUnion(head, x) <==> Covers(readings[0], row, x) by {
        if InUnion(head, x) {
          var k :| 0 <= k < |head| && InInterval(head[k], x);
        }
        if Covers(readings[0], row, x) {
          assert InInterval(head[0], x);
        }
      }
    }
  }

  /** `scan` depends on the row only through each sensor's |row - sy|. */
  lemma {:induction false} ScanRowSymmetry(readings: seq<Reading>, row1: int, row2: int)
    requires forall j :: 0 <= j < |readings| ==>
      Abs(row1 - readings[j].sensor.y) == Abs(row2 - readings[j].sensor.y)
    ensures Scan(readings, row1) == Scan(readings, row2)
    decreases |readings|
  {
    if readings != [] {
      var rest := readings[1..];
      assert forall j :: 0 <= j < |rest| ==> rest[j] == readings[j + 1];
      ScanRowSymmetry(rest, row1, row2);
      ContributionSymmetry(readings[0], row1, row2);
    }
  }

  /** One reading's contribution depends on the row only through |row - sy|. */
  lemma ContributionSymmetry(r: Reading, row1: int, row2: int)
    requires Abs(row1 - r.sensor.y) == Abs(row2 - r.sensor.y)
    ensures Contribution(r, row1) == Contribution(r, row2)
  {
  }

  /** The mirror rows sy + k and sy - k of one sensor give the same list. */
  lemma ScanMirrorRows(r: Reading, k: int)
    ensures Scan([r], r.sensor.y + k) == Scan([r], r.sensor.y - k)
  {
    ScanRowSymmetry([r], r.sensor.y + k, r.sensor.y - k);
  }

  // ---------------------------------------------------------------------
  // clamp and intersects

  function Clamp(iv: Interval, max: int): (r: Interval)
    ensures r.lo >= 0 && r.hi <= max
    ensures 0 <= iv.lo && iv.hi <= max ==> r == iv
    ensures forall x :: InInterval(r, x) <==> InInterval(iv, x) && 0 <= x <= max
  {
    Interval(Max(iv.lo, 0), Min(iv.hi, max))
  }

  predicate Intersects(a: Interval, b: Interval)
  {
    a.lo <= b.hi && b.lo <= a.hi
  }

  /** `intersects` is symmetric, and on non-inverted intervals it holds
      exactly when the two closed ranges share an integer. */
  lemma IntersectsMeaning(a: Interval, b: Interval)
    requires a.lo <= a.hi && b.lo <= b.hi
    ensures Intersects(a, b) == Intersects(b, a)
    ensures Intersects(a, b) <==> exists x :: InInterval(a, x) && InInterval(b, x)
  {
    if Intersects(a, b) {
      assert InInterval(a, Max(a.lo, b.lo)) && InInterval(b, Max(a.lo, b.lo));
    }
  }

  // ---------------------------------------------------------------------
  // merge

  function ClampAll(ivs: seq<Interval>, max: int): (r: seq<Interval>)
    ensures |r| == |ivs|
    ensures forall k :: 0 <= k < |r| ==> r[k] == Clamp(ivs[k], max)
  {
    if ivs == [] then [] else [Clamp(ivs[0], max)] + ClampAll(ivs[1..], max)
  }

  /** The order of `sorted()` on (start, end) tuples. */
  predicate LexLe(a: Interval, b: Interval)
  {
    a.lo < b.lo || (a.lo == b.lo && a.hi <= b.hi)
  }

  predicate LexSorted(s: seq<Interval>)
  {
    forall k :: 0 < k < |s| ==> LexLe(s[k - 1], s[k])
  }

  function Insert(x: Interval, s: seq<Interval>): (r: seq<Interval>)
    requires LexSorted(s)
    ensures LexSorted(r)
    ensures multiset(r) == multiset(s) + multiset{x}
    ensures |r| == |s| + 1
    ensures r[0] == x || (|s| > 0 && r[0] == s[0])
    decreases |s|
  {
    if s == [] then [x]
    else if LexLe(x, s[0]) then [x] + s
    else
      assert s == [s[0]] + s[1..];
      [s[0]] + Insert(x, s[1..])
  }

  /** itertools' `sorted` (a stable sort): lexicographic on (lo, hi). */
  function Sort(s: seq<Interval>): (r: seq<Interval>)
    ensures LexSorted(r)
    ensures multiset(r) == multiset(s)
    ensures |r| == |s|
    decreases |s|
  {
    if s == [] then []
    else
      assert s == [s[0]] + s[1..];
      Insert(s[0], Sort(s[1..]))
  }

  lemma {:induction false} SortSorted(s: seq<Interval>)
    requires LexSorted(s)
    ensures Sort(s) == s
    decreases |s|
  {
    if s != [] {
      SortSorted(s[1..]);
      assert s == [s[0]] + s[1..];
    }
  }

  /** One step of `merge`'s fold: widen the last interval when the next one
      intersects it, else append the next one. */
  function MergeStep(merged: seq<Interval>, r: Interval): seq<Interval>
  {
    if |merged| > 0 && Intersects(r, Last(merged)) then
      merged[..|merged| - 1] + [Interval(Last(merged).lo, Max(Last(merged).hi, r.hi))]
    else
      merged + [r]
  }

  function Fold(rs: seq<Interval>): seq<Interval>
    decreases |rs|
  {
    if rs == [] then [] else MergeStep(Fold(rs[..|rs| - 1]), Last(rs))
  }

  /** What `merge` returns: clamp, sort, fold. */
  function Merged(ranges: seq<Interval>, upperBound: int): seq<Interval>
  {
    Fold(Sort(ClampAll(ranges, upperBound)))
  }

  method Merge(ranges: seq<Interval>, upperBound: int) returns (merged: seq<Interval>)
    ensures merged == Merged(ranges, upperBound)
  {
    var sorted := Sort(ClampAll(ranges, upperBound));
    merged := [];
    var i := 0;
    while i < |sorted|
      invariant 0 <= i <= |sorted|
      invariant merged == Fold(sorted[..i])
    {
      var next := sorted[i];
      FoldNext(sorted, i);
      if |merged| > 0 {
        var last := merged[|merged| - 1];
        if Intersects(next, last) {
          UpdateLast(merged, Interval(last.lo, Max(last.hi, next.hi)));
          merged := merged[|merged| - 1 := Interval(last.lo, Max(last.hi, next.hi))];
          i := i + 1;
          continue;
        }
      }
      merged := merged + [next];
      i := i + 1;
    }
    assert sorted[..i] == sorted;
  }

  lemma FoldNext(rs: seq<Interval>, i: nat)
    requires i < |rs|
    ensures Fold(rs[..i + 1]) == MergeStep(Fold(rs[..i]), rs[i])
  {
    assert rs[..i + 1][..i] == rs[..i];
  }

  /** Updating the last range in place is replacing it. */
  lemma UpdateLast(s: seq<Interval>, x: Interval)
    requires |s| > 0
    ensures s[|s| - 1 := x] == s[..|s| - 1] + [x]
  {
  }

  predicate NonInverted(s: seq<Interval>)
  {
    forall k :: 0 <= k < |s| ==> s[k].lo <= s[k].hi
  }

  /** Sorted by start with a genuine gap between neighbours. */
  predicate Disjoint(s: seq<Interval>)
  {
    NonInverted(s) && forall k :: 0 < k < |s| ==> s[k - 1].hi < s[k].lo
  }

  predicate Within(s: seq<Interval>, max: int)
  {
    forall k :: 0 <= k < |s| ==> 0 <= s[k].lo && s[k].hi <= max
  }

  /** The fold over sorted, non-inverted intervals shrinks or keeps the
      count, keeps a genuine gap between neighbours, and its last interval
      never starts after the last input. */
  lemma {:induction false} FoldShape(rs: seq<Interval>)
    requires LexSorted(rs) && NonInverted(rs)
    ensures |Fold(rs)| <= |rs|
    ensures Disjoint(Fold(rs))
    ensures rs != [] ==> |Fold(rs)| > 0 && Last(Fold(rs)).lo <= Last(rs).lo
    decreases |rs|
  {
    if rs != [] {
      var init := rs[..|rs| - 1];
      FoldShape(init);
      if |init| > 0 {
        assert LexLe(init[|init| - 1], Last(rs));
      }
      MergeStepShape(Fold(init), Last(rs));
    }
  }

  /** One step of the fold keeps the gaps and does not start its last
      interval after the new one. */
  lemma MergeStepShape(merged: seq<Interval>, r: Interval)
    requires Disjoint(merged) && r.lo <= r.hi && (merged != [] ==> Last(merged).lo <= r.lo)
    ensures var next := MergeStep(merged, r);
      |next| <= |merged| + 1 && Disjoint(next) && |next| > 0 && Last(next).lo <= r.lo
  {
    var next := MergeStep(merged, r);
    if |merged| > 0 && Intersects(r, Last(merged)) {
      var n := |merged|;
      assert next[..n - 1] == merged[..n - 1];
      assert forall k :: 0 <= k < n - 1 ==> next[k] == merged[k];
    } else {
      assert forall k :: 0 <= k < |merged| ==> next[k] == merged[k];
    }
  }

  lemma InUnionSingleton(iv: Interval, x: int)
    ensures InUnion([iv], x) <==> InInterval(iv, x)
  {
    if InInterval(iv, x) {
      assert InInterval([iv][0], x);
    }
  }

  /** Widening `a` to the end of an intersecting `r` that starts no earlier
      adds exactly `r`'s cells. */
  lemma WidenCells(a: Interval, r: Interval, x: int)
    requires a.lo <= r.lo && Intersects(r, a)
    ensures InInterval(Interval(a.lo, Max(a.hi, r.hi)), x) <==> InInterval(a, x) || InInterval(r, x)
  {
  }

  /** The fold over sorted intervals covers exactly the union of its input. */
  lemma {:induction false} FoldUnion(rs: seq<Interval>, x: int)
    requires LexSorted(rs)
    ensures InUnion(Fold(rs), x) <==> InUnion(rs, x)
    decreases |rs|
  {
    if rs != [] {
      var init := rs[..|rs| - 1];
      var r := Last(rs);
      assert rs == init + [r];
      FoldUnion(init, x);
      FoldSorted(init);
      if |init| > 0 {
        assert LexLe(init[|init| - 1], r);
      }
      MergeStepUnion(Fold(init), r, x);
      InUnionAppend(init, [r], x);
      InUnionSingleton(r, x);
    }
  }

  /** One step of the fold adds exactly the new interval's cells. */
  lemma MergeStepUnion(m: seq<Interval>, r: Interval, x: int)
    requires m != [] ==> Last(m).lo <= r.lo
    ensures InUnion(MergeStep(m, r), x) <==> InUnion(m, x) || InInterval(r, x)
  {
    InUnionSingleton(r, x);
    if |m| > 0 && Intersects(r, Last(m)) {
      var front := m[..|m| - 1];
      var w := Interval(Last(m).lo, Max(Last(m).hi, r.hi));
      assert m == front + [Last(m)];
      assert MergeStep(m, r) == front + [w];
      InUnionAppend(front, [w], x);
      InUnionAppend(front, [Last(m)], x);
      InUnionSingleton(w, x);
      InUnionSingleton(Last(m), x);
      WidenCells(Last(m), r, x);
    } else {
      InUnionAppend(m, [r], x);
    }
  }

  /** Folding a list none of whose neighbours intersect changes nothing. */
  lemma {:induction false} FoldSeparated(rs: seq<Interval>)
    requires Separated(rs)
    ensures Fold(rs) == rs
    decreases |rs|
  {
    if rs != [] {
      FoldSeparated(rs[..|rs| - 1]);
      assert rs[..|rs| - 1] + [Last(rs)] == rs;
    }
  }

  /** No interval intersects the one before it. */
  predicate Separated(s: seq<Interval>)
  {
    forall k :: 0 < k < |s| ==> !Intersects(s[k], s[k - 1])
  }

  /** The fold never lengthens its input. */
  lemma {:induction false} FoldCount(rs: seq<Interval>)
    ensures |Fold(rs)| <= |rs|
    decreases |rs|
  {
    if rs != [] {
      FoldCount(rs[..|rs| - 1]);
    }
  }

  /** The fold over sorted intervals, inverted ones included, is sorted with
      no neighbours intersecting, and its last interval either starts before
      the last input or is that input. */
  lemma {:induction false} FoldSorted(rs: seq<Interval>)
    requires LexSorted(rs)
    ensures LexSorted(Fold(rs)) && Separated(Fold(rs))
    ensures rs != [] ==> Fold(rs) != [] && Trails(Last(Fold(rs)), Last(rs))
    decreases |rs|
  {
    if rs != [] {
      var init := rs[..|rs| - 1];
      FoldSorted(init);
      if init == [] {
        assert Fold(rs) == [Last(rs)];
      } else {
        assert LexLe(Last(init), Last(rs));
        MergeStepSorted(Fold(init), Last(init), Last(rs));
      }
    }
  }

  /** The last merged interval trails the last input: it starts earlier,
      or it is that input. */
  predicate Trails(last: Interval, r: Interval)
  {
    last.lo < r.lo || last == r
  }

  /** One step of the fold keeps the output sorted and separated. */
  lemma MergeStepSorted(m: seq<Interval>, prev: Interval, r: Interval)
    requires LexSorted(m) && Separated(m) && m != [] && Trails(Last(m), prev) && LexLe(prev, r)
    ensures var next := MergeStep(m, r);
      LexSorted(next) && Separated(next) && next != [] && Trails(Last(next), r)
  {
    var n := |m|;
    var next := MergeStep(m, r);
    if Intersects(r, Last(m)) {
      var w := Interval(Last(m).lo, Max(Last(m).hi, r.hi));
      assert next == m[..n - 1] + [w];
      assert forall k :: 0 <= k < n - 1 ==> next[k] == m[k];
      if n > 1 {
        assert !Intersects(m[n - 1], m[n - 2]);
        assert LexLe(m[n - 2], m[n - 1]);
      }
    } else {
      assert next == m + [r];
      assert forall k :: 0 <= k < n ==> next[k] == m[k];
    }
  }

  lemma {:induction false} FoldWithin(rs: seq<Interval>, max: int)
    requires Within(rs, max)
    ensures Within(Fold(rs), max)
    decreases |rs|
  {
    if rs != [] {
      FoldWithin(rs[..|rs| - 1], max);
    }
  }

  lemma SortPreservesWithin(s: seq<Interval>, max: int)
    requires Within(s, max)
    ensures Within(Sort(s), max)
  {
    var r := Sort(s);
    forall k | 0 <= k < |r|
      ensures 0 <= r[k].lo && r[k].hi <= max
    {
      assert r[k] in multiset(s);
    }
  }

  lemma SortPreservesNonInverted(s: seq<Interval>)
    requires NonInverted(s)
    ensures NonInverted(Sort(s))
  {
    var r := Sort(s);
    forall k | 0 <= k < |r|
      ensures r[k].lo <= r[k].hi
    {
      assert r[k] in multiset(s);
    }
  }

  lemma SortPreservesUnion(s: seq<Interval>, x: int)
    ensures InUnion(Sort(s), x) <==> InUnion(s, x)
  {
    var r := Sort(s);
    if InUnion(r, x) {
      var k :| 0 <= k < |r| && InInterval(r[k], x);
      assert r[k] in multiset(s);
      var j :| 0 <= j < |s| && s[j] == r[k];
    }
    if InUnion(s, x) {
      var k :| 0 <= k < |s| && InInterval(s[k], x);
      assert s[k] in multiset(r);
      var j :| 0 <= j < |r| && r[j] == s[k];
    }
  }

  /** What `merge` promises: a sorted list, inside [0, upperBound], no
      longer than its input, no neighbours intersecting, covering exactly
      the inputs' cells within those bounds; and, when no clamped input is
      inverted, with a genuine gap between neighbours. */
  lemma MergedProperties(ranges: seq<Interval>, upperBound: int)
    ensures |Merged(ranges, upperBound)| <= |ranges|
    ensures LexSorted(Merged(ranges, upperBound)) && Separated(Merged(ranges, upperBound))
    ensures Within(Merged(ranges, upperBound), upperBound)
    ensures forall x :: InUnion(Merged(ranges, upperBound), x) <==>
      (InUnion(ranges, x) && 0 <= x <= upperBound)
    ensures NonInverted(ClampAll(ranges, upperBound)) ==> Disjoint(Merged(ranges, upperBound))
  {
    var clamped := ClampAll(ranges, upperBound);
    var sorted := Sort(clamped);
    FoldCount(sorted);
    FoldSorted(sorted);
    SortPreservesWithin(clamped, upperBound);
    FoldWithin(sorted, upperBound);
    if NonInverted(clamped) {
      SortPreservesNonInverted(clamped);
      FoldShape(sorted);
    }
    forall x
      ensures InUnion(Merged(ranges, upperBound), x) <==> (InUnion(ranges, x) && 0 <= x <= upperBound)
    {
      MergedCell(ranges, upperBound, x);
    }
  }

  /** One cell of the union is covered by the merged ranges exactly when it
      is covered by an input range and lies inside [0, upperBound]. */
  lemma MergedCell(ranges: seq<Interval>, upperBound: int, x: int)
    ensures InUnion(Merged(ranges, upperBound), x) <==> (InUnion(ranges, x) && 0 <= x <= upperBound)
  {
    var clamped := ClampAll(ranges, upperBound);
    var sorted := Sort(clamped);
    FoldUnion(sorted, x);
    SortPreservesUnion(clamped, x);
    if InUnion(clamped, x) {
      var k :| 0 <= k < |clamped| && InInterval(clamped[k], x);
      assert InInterval(ranges[k], x);
    }
    if InUnion(ranges, x) && 0 <= x <= upperBound {
      var k :| 0 <= k < |ranges| && InInterval(ranges[k], x);
      assert InInterval(clamped[k], x);
    }
  }

  lemma {:induction false} ClampAllWithin(s: seq<Interval>, max: int)
    requires Within(s, max)
    ensures ClampAll(s, max) == s
    decreases |s|
  {
    if s != [] {
      ClampAllWithin(s[1..], max);
      assert s == [s[0]] + s[1..];
    }
  }

  /** Merging `merge`'s own output gives it back unchanged. */
  lemma MergeIdempotent(ranges: seq<Interval>, upperBound: int)
    ensures Merged(Merged(ranges, upperBound), upperBound) == Merged(ranges, upperBound)
  {
    var m := Merged(ranges, upperBound);
    MergedProperties(ranges, upperBound);
    ClampAllWithin(m, upperBound);
    SortSorted(m);
    FoldSeparated(m);
  }

  /** `merge` keeps an interval that clamping inverts. */
  lemma MergeKeepsInverted()
    ensures Merged([Interval(-5, -3)], 20) == [Interval(0, -3)]
  {
    assert ClampAll([Interval(-5, -3)], 20) == [Interval(0, -3)];
    assert Sort([Interval(0, -3)]) == [Interval(0, -3)];
    assert [Interval(0, -3)][..0] == [];
  }

  // ---------------------------------------------------------------------
  // Part one: covered cells of one row, minus the beacons on it

  function Cells(iv: Interval): set<int>
  {
    set x: int | iv.lo <= x <= iv.hi && InInterval(iv, x)
  }

  lemma CellsExtend(lo: int, x: int, next: int)
    requires lo <= x && next == x + 1
    ensures Cells(Interval(lo, next - 1)) == Cells(Interval(lo, x - 1)) + {x}
  {
  }

  lemma CoveredSnoc(ivs: seq<Interval>, k: nat, lo: int, hi: int)
    requires k < |ivs| && ivs[k] == Interval(lo, hi)
    ensures Covered(ivs[..k + 1]) == Covered(ivs[..k]) + Cells(Interval(lo, hi))
  {
    assert ivs[..k + 1][..k] == ivs[..k];
  }

  lemma BeaconsSnoc(readings: seq<Reading>, j: nat, row: int)
    requires j < |readings|
    ensures BeaconsOnRow(readings[..j + 1], row) == BeaconsOnRow(readings[..j], row)
      + (if readings[j].beacon.y == row then {readings[j].beacon.x} else {})
  {
    assert readings[..j + 1][..j] == readings[..j];
  }

  lemma CellsNone(lo: int, a: int, b: int)
    requires a < lo && b < lo
    ensures Cells(Interval(lo, a)) == Cells(Interval(lo, b)) == {}
  {
  }

  lemma CellsEmpty(lo: int)
    ensures Cells(Interval(lo, lo - 1)) == {}
  {
  }

  /** The set built by inserting every x of every interval. */
  function Covered(ivs: seq<Interval>): set<int>
    decreases |ivs|
  {
    if ivs == [] then {} else Covered(ivs[..|ivs| - 1]) + Cells(Last(ivs))
  }

  lemma {:induction false} CoveredIsUnion(ivs: seq<Interval>, x: int)
    ensures x in Covered(ivs) <==> InUnion(ivs, x)
    decreases |ivs|
  {
    if ivs != [] {
      var init := ivs[..|ivs| - 1];
      CoveredIsUnion(init, x);
      if InUnion(init, x) {
        var k :| 0 <= k < |init| && InInterval(init[k], x);
        assert InInterval(ivs[k], x);
      }
      if InUnion(ivs, x) {
        var k :| 0 <= k < |ivs| && InInterval(ivs[k], x);
        if k < |ivs| - 1 {
          assert InInterval(init[k], x);
        }
      }
    }
  }

  /** x-coordinates of the beacons that sit on the row. */
  function BeaconsOnRow(readings: seq<Reading>, row: int): set<int>
    decreases |readings|
  {
    if readings == [] then {}
    else
      BeaconsOnRow(readings[..|readings| - 1], row)
      + (if Last(readings).beacon.y == row then {Last(readings).beacon.x} else {})
  }

  lemma {:induction false} BeaconsOnRowMeaning(readings: seq<Reading>, row: int, x: int)
    ensures x in BeaconsOnRow(readings, row) <==>
      exists j :: 0 <= j < |readings| && readings[j].beacon == Point(x, row)
    decreases |readings|
  {
    if readings != [] {
      var init := readings[..|readings| - 1];
      BeaconsOnRowMeaning(init, row, x);
      if exists j :: 0 <= j < |init| && init[j].beacon == Point(x, row) {
        var j :| 0 <= j < |init| && init[j].beacon == Point(x, row);
        assert readings[j].beacon == Point(x, row);
      }
      if exists j :: 0 <= j < |readings| && readings[j].beacon == Point(x, row) {
        var j :| 0 <= j < |readings| && readings[j].beacon == Point(x, row);
        if j < |readings| - 1 {
          assert init[j].beacon == Point(x, row);
        }
      }
    }
  }

  /** The body of the fold in `solve_part_one`: every x of `lo..=hi` is
      inserted into the set. */
  method InsertRange(s: set<int>, lo: int, hi: int) returns (r: set<int>)
    ensures r == s + Cells(Interval(lo, hi))
  {
    r := s;
    var x := lo;
    CellsEmpty(lo);
    while x <= hi
      invariant lo <= x && (x > lo ==> x <= hi + 1)
      invariant r == s + Cells(Interval(lo, x - 1))
      decreases hi - x
    {
      CellsExtend(lo, x, x + 1);
      r := r + {x};
      x := x + 1;
    }
    if hi < lo {
      CellsNone(lo, x - 1, hi);
    } else {
      assert x - 1 == hi;
    }
  }

  /** `solve_part_one` with the row as a parameter. */
  method PartOne(points: seq<Point>, row: int) returns (count: nat)
    ensures count == |Covered(Scan(Readings(points), row)) - BeaconsOnRow(Readings(points), row)|
  {
    var readings := Readings(points);
    var ivs := Scan(readings, row);
    var scanned: set<int> := {};
    var k := 0;
    while k < |ivs|
      invariant 0 <= k <= |ivs|
      invariant scanned == Covered(ivs[..k])
    {
      var Interval(lo, hi) := ivs[k];
      scanned := InsertRange(scanned, lo, hi);
      CoveredSnoc(ivs, k, lo, hi);
      k := k + 1;
    }
    assert ivs[..k] == ivs;
    var j := 0;
    while j < |readings|
      invariant 0 <= j <= |readings|
      invariant scanned == Covered(ivs) - BeaconsOnRow(readings[..j], row)
    {
      BeaconsSnoc(readings, j, row);
      if readings[j].beacon.y == row {
        scanned := scanned - {readings[j].beacon.x};
      }
      j := j + 1;
    }
    assert readings[..j] == readings;
    count := |scanned|;
  }

  /** Part one counts exactly the x on the row that some reading covers and
      no beacon occupies. */
  lemma PartOneCells(points: seq<Point>, row: int, x: int)
    ensures x in Covered(Scan(Readings(points), row)) - BeaconsOnRow(Readings(points), row) <==>
      SomeCovers(Readings(points), row, x)
      && !(exists j :: 0 <= j < |Readings(points)| && Readings(points)[j].beacon == Point(x, row))
  {
    CoveredIsUnion(Scan(Readings(points), row), x);
    ScanUnion(Readings(points), row, x);
    BeaconsOnRowMeaning(Readings(points), row, x);
  }

  // ---------------------------------------------------------------------
  // Part two: the first row in 0..=bound that merges to two intervals

  function RowRanges(readings: seq<Reading>, y: int, bound: int): seq<Interval>
  {
    Merged(Scan(readings, y), bound)
  }

  /** The tuning frequency (x + 1) * 4_000_000 + y of a two-interval row. */
  function Frequency(first: Interval, y: int): int
  {
    (first.hi + 1) * 4000000 + y
  }

  /** `solve_part_two` with the bound as a parameter; None stands for the
      `unreachable!()` panic when no row qualifies. */
  method PartTwo(points: seq<Point>, bound: int) returns (r: Option<int>)
    ensures r.None? <==>
      forall y :: 0 <= y <= bound ==> |RowRanges(Readings(points), y, bound)| != 2
    ensures r.Some? ==> exists y :: (0 <= y <= bound
      && |RowRanges(Readings(points), y, bound)| == 2
      && r.value == Frequency(RowRanges(Readings(points), y, bound)[0], y)
      && forall y' :: 0 <= y' < y ==> |RowRanges(Readings(points), y', bound)| != 2)
  {
    var readings := Readings(points);
    var y := 0;
    while y <= bound
      invariant 0 <= y && (bound >= 0 ==> y <= bound + 1)
      invariant forall y' :: 0 <= y' < y ==> |RowRanges(readings, y', bound)| != 2
    {
      var ranges := Merge(Scan(readings, y), bound);
      assert ranges == RowRanges(readings, y, bound);
      if |ranges| == 2 {
        assert 0 <= y <= bound && |RowRanges(Readings(points), y, bound)| == 2;
        return Some(Frequency(ranges[0], y));
      }
      y := y + 1;
    }
    return None;
  }

  /** When the two intervals of a row are separated by a real gap, the cell
      after the first one lies in the bounded square and no reading covers
      it. */
  lemma GapCellUncovered(readings: seq<Reading>, y: int, bound: int)
    requires NonInverted(ClampAll(Scan(readings, y), bound))
    requires |RowRanges(readings, y, bound)| == 2
    requires RowRanges(readings, y, bound)[0].hi + 1 < RowRanges(readings, y, bound)[1].lo
    ensures 0 <= RowRanges(readings, y, bound)[0].hi + 1 <= bound
    ensures !SomeCovers(readings, y, RowRanges(readings, y, bound)[0].hi + 1)
  {
    var m := RowRanges(readings, y, bound);
    var x := m[0].hi + 1;
    MergedProperties(Scan(readings, y), bound);
    assert !InUnion(m, x) by {
      forall k | 0 <= k < |m|
        ensures !InInterval(m[k], x)
      {
      }
    }
    ScanUnion(readings, y, x);
  }

  /** Two readings whose coverage of row 0 touches at x = 5 / x = 6. */
  function TouchingReadings(): seq<Reading>
  {
    [Reading(Point(2, 0), Point(5, 0)), Reading(Point(13, 0), Point(20, 0))]
  }

  lemma TouchingScan()
    ensures Scan(TouchingReadings(), 0) == [Interval(-1, 5), Interval(6, 20)]
  {
    var rs := TouchingReadings();
    assert Scan(rs[1..], 0) == [Interval(6, 20)];
  }

  lemma TouchingMerged()
    ensures Merged([Interval(-1, 5), Interval(6, 20)], 20) == [Interval(0, 5), Interval(6, 20)]
  {
    var c := [Interval(0, 5), Interval(6, 20)];
    TouchingClamped(c);
    SortSorted(c);
    TouchingFold(c);
  }

  lemma TouchingClamped(c: seq<Interval>)
    requires c == [Interval(0, 5), Interval(6, 20)]
    ensures ClampAll([Interval(-1, 5), Interval(6, 20)], 20) == c
    ensures LexSorted(c)
  {
    var d := ClampAll([Interval(-1, 5), Interval(6, 20)], 20);
    assert d[0] == c[0] && d[1] == c[1];
  }

  lemma TouchingFold(c: seq<Interval>)
    requires c == [Interval(0, 5), Interval(6, 20)]
    ensures Fold(c) == c
  {
    var first := c[..1];
    assert first == [Interval(0, 5)] && first[..0] == [];
    assert Fold(first) == [Interval(0, 5)];
    assert !Intersects(Interval(6, 20), Interval(0, 5));
  }

  lemma TouchingCovered(x: int)
    requires 0 <= x <= 20
    ensures SomeCovers(TouchingReadings(), 0, x)
  {
    var rs := TouchingReadings();
    if x <= 5 {
      assert Covers(rs[0], 0, x);
    } else {
      assert Covers(rs[1], 0, x);
    }
  }

  /** Touching intervals stay separate, so a row can merge to two intervals
      although every cell of it in [0, 20] is covered: the readings above
      make row 0 give [0, 5] and [6, 20]. */
  lemma TwoIntervalsWithoutGap()
    ensures RowRanges(TouchingReadings(), 0, 20) == [Interval(0, 5), Interval(6, 20)]
    ensures forall x :: 0 <= x <= 20 ==> SomeCovers(TouchingReadings(), 0, x)
  {
    TouchingScan();
    TouchingMerged();
    forall x | 0 <= x <= 20
      ensures SomeCovers(TouchingReadings(), 0, x)
    {
      TouchingCovered(x);
    }
  }
}
