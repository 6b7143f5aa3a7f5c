/** Day 12, "Hill Climbing Algorithm": a breadth-first search over a grid
    of heights, where a move may climb at most one unit. */
module HillClimbing {
  import opened Common

  /** `usize::MAX`, the distance reported for an unreachable target. */
  const UsizeMax: nat := 0xFFFF_FFFF_FFFF_FFFF

  /** A grid cell: its height and the indices of its in-grid neighbours. */
  datatype Node = Node(value: nat, children: seq<nat>)

  /** Every neighbour index names a node. */
  predicate Valid(nodes: seq<Node>)
  {
    forall i, j :: 0 <= i < |nodes| && 0 <= j < |nodes[i].children| ==> nodes[i].children[j] < |nodes|
  }

  /** A move the search explores: to a neighbour at most one unit higher. */
  predicate Allowed(nodes: seq<Node>, u: nat, v: nat)
  {
    u < |nodes| && v < |nodes| && v in nodes[u].children && nodes[v].value <= nodes[u].value + 1
  }

  // ---------------------------------------------------------------------
  // Reachability

  /** `v` is one allowed move away from some node of `from`. */
  predicate Follows(nodes: seq<Node>, from: set<nat>, v: nat)
  {
    exists u :: u in from && Allowed(nodes, u, v)
  }

  /** The nodes one allowed move away from some node of `from`. */
  function Next(nodes: seq<Node>, from: set<nat>): set<nat>
  {
    set v: nat | v < |nodes| && Follows(nodes, from, v)
  }

  /** The nodes reachable from `start` in at most `k` allowed moves. */
  function Within(nodes: seq<Node>, start: nat, k: nat): set<nat>
    decreases k
  {
    if k == 0 then {start} else Within(nodes, start, k - 1) + Next(nodes, Within(nodes, start, k - 1))
  }

  /** A walk: a non-empty sequence of nodes, each one allowed move from the one before. */
  predicate IsWalk(nodes: seq<Node>, p: seq<nat>)
  {
    |p| > 0 && forall i :: 0 <= i < |p| - 1 ==> Allowed(nodes, p[i], p[i + 1])
  }

  lemma {:induction false} WalkWithin(nodes: seq<Node>, start: nat, p: seq<nat>, k: nat)
    requires IsWalk(nodes, p) && p[0] == start && |p| <= k + 1
    ensures Last(p) in Within(nodes, start, k)
    decreases k
  {
    if |p| == 1 {
      WithinMonotone(nodes, start, 0, k);
    } else {
      var front := p[..|p| - 1];
      assert IsWalk(nodes, front) by {
        forall i | 0 <= i < |front| - 1 ensures Allowed(nodes, front[i], front[i + 1]) {
          assert front[i] == p[i] && front[i + 1] == p[i + 1];
        }
      }
      WalkWithin(nodes, start, front, k - 1);
      assert Allowed(nodes, p[|p| - 2], p[|p| - 1]);
      assert Last(p) in Next(nodes, Within(nodes, start, k - 1));
    }
  }

  lemma {:induction false} WithinWalk(nodes: seq<Node>, start: nat, k: nat, v: nat) returns (p: seq<nat>)
    requires v in Within(nodes, start, k)
    ensures IsWalk(nodes, p) && p[0] == start && Last(p) == v && |p| <= k + 1
    decreases k
  {
    if k == 0 {
      p := [start];
    } else if v in Within(nodes, start, k - 1) {
      p := WithinWalk(nodes, start, k - 1, v);
    } else {
      var u :| u in Within(nodes, start, k - 1) && Allowed(nodes, u, v);
      var q := WithinWalk(nodes, start, k - 1, u);
      p := q + [v];
      assert forall i :: 0 <= i < |q| ==> p[i] == q[i];
    }
  }

  lemma {:induction false} WithinMonotone(nodes: seq<Node>, start: nat, j: nat, k: nat)
    requires j <= k
    ensures Within(nodes, start, j) <= Within(nodes, start, k)
    decreases k
  {
    if j < k {
      WithinMonotone(nodes, start, j, k - 1);
    }
  }

  lemma {:induction false} WithinInRange(nodes: seq<Node>, start: nat, k: nat)
    requires start < |nodes|
    ensures forall v :: v in Within(nodes, start, k) ==> v < |nodes|
    decreases k
  {
    if k > 0 {
      WithinInRange(nodes, start, k - 1);
    }
  }

  /** Once a step adds nothing, nothing is ever added again. */
  lemma {:induction false} WithinStable(nodes: seq<Node>, start: nat, j: nat, k: nat)
    requires j <= k && Within(nodes, start, j + 1) == Within(nodes, start, j)
    ensures Within(nodes, start, k) == Within(nodes, start, j)
    decreases k
  {
    if j < k {
      var m := k - 1;
      WithinStable(nodes, start, j, m);
      WithinStep(nodes, start, m, k);
      WithinStep(nodes, start, j, j + 1);
    }
  }

  /** One more move adds the nodes one move away. */
  lemma WithinStep(nodes: seq<Node>, start: nat, j: nat, k: nat)
    requires k == j + 1
    ensures Within(nodes, start, k) == Within(nodes, start, j) + Next(nodes, Within(nodes, start, j))
  {
  }

  /** A set of indices below `n` has at most `n` members. */
  lemma {:induction false} BoundedCard(a: set<nat>, n: nat)
    requires forall x :: x in a ==> x < n
    ensures |a| <= n
    decreases n
  {
    if n > 0 {
      BoundedCard(a - {n - 1}, n - 1);
    } else {
      assert a == {};
    }
  }

  lemma SubsetCard(a: set<nat>, b: set<nat>)
    requires a <= b
    ensures |a| <= |b|
  {
    assert b == a + (b - a);
  }

  lemma ProperSubsetCard(a: set<nat>, b: set<nat>)
    requires a <= b && a != b
    ensures |a| < |b|
  {
    var x :| x in b && x !in a;
    SubsetCard(a + {x}, b);
  }

  /** Step `j + 1` reaches a node that `j` steps do not. */
  predicate Grew(nodes: seq<Node>, start: nat, j: nat)
  {
    Within(nodes, start, j + 1) != Within(nodes, start, j)
  }

  /** While every step adds a node, the reachable set keeps growing. */
  lemma {:induction false} WithinGrows(nodes: seq<Node>, start: nat, k: nat)
    requires forall j :: 0 <= j < k ==> Grew(nodes, start, j)
    ensures |Within(nodes, start, k)| >= k + 1
    decreases k
  {
    if k > 0 {
      var j := k - 1;
      WithinGrows(nodes, start, j);
      WithinGrowsStep(nodes, start, j, k);
    } else {
      WithinZero(nodes, start);
    }
  }

  lemma WithinGrowsStep(nodes: seq<Node>, start: nat, j: nat, k: nat)
    requires k == j + 1 && Grew(nodes, start, j)
    ensures |Within(nodes, start, j)| < |Within(nodes, start, k)|
  {
    var before, after := Within(nodes, start, j), Within(nodes, start, j + 1);
    WithinMonotone(nodes, start, j, j + 1);
    ProperSubsetCard(before, after);
  }

  lemma WithinZero(nodes: seq<Node>, start: nat)
    ensures |Within(nodes, start, 0)| == 1
  {
    assert Within(nodes, start, 0) == {start};
  }

  /** Nothing is reachable that is not reachable within `|nodes|` moves. */
  lemma WithinSaturates(nodes: seq<Node>, start: nat, k: nat)
    requires start < |nodes|
    ensures Within(nodes, start, k) <= Within(nodes, start, |nodes|)
  {
    var n := |nodes|;
    if k <= n {
      WithinMonotone(nodes, start, k, n);
    } else if j :| 0 <= j < n && Within(nodes, start, j + 1) == Within(nodes, start, j) {
      WithinStable(nodes, start, j, k);
      WithinStable(nodes, start, j, n);
    } else {
      forall j | 0 <= j < n
        ensures Grew(nodes, start, j)
      {
      }
      WithinGrows(nodes, start, n);
      WithinInRange(nodes, start, n);
      BoundedCard(Within(nodes, start, n), n);
      assert false;
    }
  }

  // ---------------------------------------------------------------------
  // The shortest distance

  /** The least `k` with `target` within `k` moves, searching `k` from
      `from` up to `|nodes|`; `usize::MAX` when there is none. */
  function ShortestFrom(nodes: seq<Node>, start: nat, target: nat, from: nat): nat
    decreases |nodes| + 1 - from
  {
    if from > |nodes| then UsizeMax
    else if target in Within(nodes, start, from) then from
    else ShortestFrom(nodes, start, target, from + 1)
  }

  /** The fewest allowed moves from `start` to `target`, or `usize::MAX`. */
  function Shortest(nodes: seq<Node>, start: nat, target: nat): nat
  {
    ShortestFrom(nodes, start, target, 0)
  }

  lemma {:induction false} ShortestFromIs(nodes: seq<Node>, start: nat, target: nat, from: nat, d: nat)
    requires from <= d <= |nodes|
    requires target in Within(nodes, start, d)
    requires forall k :: from <= k < d ==> Missed(nodes, start, target, k)
    ensures ShortestFrom(nodes, start, target, from) == d
    decreases d - from
  {
    if from < d {
      assert Missed(nodes, start, target, from);
      ShortestFromMiss(nodes, start, target, from);
      ShortestFromIs(nodes, start, target, from + 1, d);
    } else {
      ShortestFromHit(nodes, start, target, from);
    }
  }

  /** `target` is not within `k` moves of `start`. */
  predicate Missed(nodes: seq<Node>, start: nat, target: nat, k: nat)
  {
    target !in Within(nodes, start, k)
  }

  lemma ShortestFromMiss(nodes: seq<Node>, start: nat, target: nat, from: nat)
    requires from < |nodes| && Missed(nodes, start, target, from)
    ensures ShortestFrom(nodes, start, target, from) == ShortestFrom(nodes, start, target, from + 1)
  {
  }

  lemma ShortestFromHit(nodes: seq<Node>, start: nat, target: nat, from: nat)
    requires from <= |nodes| && target in Within(nodes, start, from)
    ensures ShortestFrom(nodes, start, target, from) == from
  {
  }

  lemma {:induction false} ShortestFromNone(nodes: seq<Node>, start: nat, target: nat, from: nat)
    requires forall k: nat :: from <= k ==> target !in Within(nodes, start, k)
    ensures ShortestFrom(nodes, start, target, from) == UsizeMax
    decreases |nodes| + 1 - from
  {
    if from <= |nodes| {
      ShortestFromNone(nodes, start, target, from + 1);
    }
  }

  /** `Shortest` is `d` when `target` is within `d` moves and no fewer. */
  lemma ShortestIs(nodes: seq<Node>, start: nat, target: nat, d: nat)
    requires start < |nodes|
    requires target in Within(nodes, start, d)
    requires forall k :: 0 <= k < d ==> target !in Within(nodes, start, k)
    ensures Shortest(nodes, start, target) == d
  {
    if d > |nodes| {
      WithinSaturates(nodes, start, d);
      assert false;
    }
    forall k | 0 <= k < d
      ensures Missed(nodes, start, target, k)
    {
    }
    ShortestFromIs(nodes, start, target, 0, d);
  }

  /** `Shortest` is `usize::MAX` when `target` is never reached. */
  lemma ShortestNone(nodes: seq<Node>, start: nat, target: nat)
    requires forall k: nat :: target !in Within(nodes, start, k)
    ensures Shortest(nodes, start, target) == UsizeMax
  {
    ShortestFromNone(nodes, start, target, 0);
  }

  /** What `Shortest` means, in walks: when the target is reachable the
      result is the number of moves of some walk to it and no walk has
      fewer; otherwise no walk reaches it and the result is `usize::MAX`. */
  lemma ShortestWalks(nodes: seq<Node>, start: nat, target: nat) returns (p: seq<nat>)
    requires start < |nodes| < UsizeMax
    ensures Shortest(nodes, start, target) != UsizeMax ==>
      IsWalk(nodes, p) && p[0] == start && Last(p) == target && |p| == Shortest(nodes, start, target) + 1
    ensures forall w: seq<nat> :: IsWalk(nodes, w) && w[0] == start && Last(w) == target ==>
      Shortest(nodes, start, target) != UsizeMax && |w| >= Shortest(nodes, start, target) + 1
  {
    p := [start];
    var d := ShortestFound(nodes, start, target, 0);
    if d <= |nodes| {
      p := WithinWalk(nodes, start, d, target);
      if |p| < d + 1 {
        WalkWithin(nodes, start, p, |p| - 1);
        assert false;
      }
    }
    forall w: seq<nat> | IsWalk(nodes, w) && w[0] == start && Last(w) == target
      ensures Shortest(nodes, start, target) != UsizeMax && |w| >= Shortest(nodes, start, target) + 1
    {
      WalkWithin(nodes, start, w, |w| - 1);
      if d > |nodes| || |w| < d + 1 {
        assert false;
      }
    }
  }

  /** The search of `ShortestFrom`, spelled out: either it finds `d` with
      the target within `d` moves and not fewer, or it gives up past
      `|nodes|` with the target not within any number of moves. */
  lemma {:induction false} ShortestFound(nodes: seq<Node>, start: nat, target: nat, from: nat) returns (d: nat)
    requires start < |nodes| < UsizeMax && from <= |nodes| + 1
    requires forall k :: 0 <= k < from ==> target !in Within(nodes, start, k)
    ensures d <= |nodes| ==> (ShortestFrom(nodes, start, target, from) == d
      && target in Within(nodes, start, d) && forall k :: 0 <= k < d ==> target !in Within(nodes, start, k))
    ensures d > |nodes| ==> (ShortestFrom(nodes, start, target, from) == UsizeMax
      && forall k: nat :: target !in Within(nodes, start, k))
    decreases |nodes| + 1 - from
  {
    if from > |nodes| {
      d := from;
      forall k: nat ensures target !in Within(nodes, start, k) {
        if k >= from {
          WithinSaturates(nodes, start, k);
        }
      }
    } else if target in Within(nodes, start, from) {
      d := from;
    } else {
      d := ShortestFound(nodes, start, target, from + 1);
    }
  }

  // ---------------------------------------------------------------------
  // `get_shortest_distance`

  /** A queued search state: a node and the number of moves taken to it. */
  datatype Entry = Entry(node: nat, distance: nat)

  /** The entries queued when `u`, reached in `du` moves, is expanded: each
      of the given children it may move to, in order, one move further. */
  function Pushes(nodes: seq<Node>, u: nat, children: seq<nat>, du: nat): (r: seq<Entry>)
    requires u < |nodes| && forall i :: 0 <= i < |children| ==> children[i] < |nodes|
    ensures forall i :: 0 <= i < |r| ==>
      r[i].distance == du + 1 && r[i].node in children && nodes[r[i].node].value <= nodes[u].value + 1
    ensures forall v :: v in children && nodes[v].value <= nodes[u].value + 1 ==> Entry(v, du + 1) in r
  {
    if children == [] then []
    else
      var v := Last(children);
      assert v in children;
      Pushes(nodes, u, children[..|children| - 1], du)
        + (if nodes[v].value <= nodes[u].value + 1 then [Entry(v, du + 1)] else [])
  }

  /** Pushing the entries of `Pushes` onto the back of `queue`. */
  method Expand(nodes: seq<Node>, u: nat, du: nat, queue: seq<Entry>) returns (r: seq<Entry>)
    requires Valid(nodes) && u < |nodes|
    ensures r == queue + Pushes(nodes, u, nodes[u].children, du)
  {
    var children := nodes[u].children;
    r := queue;
    ghost var pushed := [];
    for i := 0 to |children|
      invariant pushed == Pushes(nodes, u, children[..i], du)
      invariant r == queue + pushed
    {
      var child := children[i];
      PushesSnoc(nodes, u, children, i, du);
      if nodes[child].value <= nodes[u].value + 1 {
        r, pushed := r + [Entry(child, du + 1)], pushed + [Entry(child, du + 1)];
      }
    }
    assert children[..|children|] == children;
  }

  lemma PushesSnoc(nodes: seq<Node>, u: nat, children: seq<nat>, i: nat, du: nat)
    requires u < |nodes| && i < |children| && forall j :: 0 <= j < |children| ==> children[j] < |nodes|
    ensures Pushes(nodes, u, children[..i + 1], du) == Pushes(nodes, u, children[..i], du)
      + (if nodes[children[i]].value <= nodes[u].value + 1 then [Entry(children[i], du + 1)] else [])
  {
    assert children[..i + 1][..i] == children[..i];
  }

  /** `u` is first reached in exactly `e` moves. */
  ghost predicate Exact(nodes: seq<Node>, start: nat, u: nat, e: nat)
  {
    u in Within(nodes, start, e) && (e > 0 ==> u !in Within(nodes, start, e - 1))
  }

  lemma ExactAtMost(nodes: seq<Node>, start: nat, u: nat, e: nat, k: nat)
    requires Exact(nodes, start, u, e) && u in Within(nodes, start, k)
    ensures e <= k
  {
    if k < e {
      WithinMonotone(nodes, start, k, e - 1);
    }
  }

  /** Every queued entry names a node reachable within its distance. */
  ghost predicate QueueSound(nodes: seq<Node>, start: nat, q: seq<Entry>)
  {
    forall i :: 0 <= i < |q| ==> q[i].node < |nodes| && q[i].node in Within(nodes, start, q[i].distance)
  }

  /** The queue is ordered by distance, all entries at `d` or `d + 1`. */
  ghost predicate QueueLevel(q: seq<Entry>, d: nat)
  {
    && (forall i, j :: 0 <= i <= j < |q| ==> q[i].distance <= q[j].distance)
    && (forall i :: 0 <= i < |q| ==> d <= q[i].distance <= d + 1)
  }

  /** Every expanded node was expanded at its exact distance, no later than `d`. */
  ghost predicate ExpandedExact(nodes: seq<Node>, start: nat, expanded: set<nat>, dist: map<nat, nat>, d: nat)
  {
    forall u :: u in expanded ==> u < |nodes| && u in dist && dist[u] <= d && Exact(nodes, start, u, dist[u])
  }

  /** Each move from an expanded node leads to an expanded node or to a
      queued entry one move further. */
  ghost predicate Closed(nodes: seq<Node>, expanded: set<nat>, dist: map<nat, nat>, q: seq<Entry>)
  {
    forall u: nat, v: nat :: u in expanded && u in dist && Allowed(nodes, u, v) ==> v in expanded || Entry(v, dist[u] + 1) in q
  }

  /** The nodes within `d` moves are expanded or queued at `d`. */
  ghost predicate FrontQueued(nodes: seq<Node>, start: nat, expanded: set<nat>, q: seq<Entry>, d: nat)
  {
    forall w :: w in Within(nodes, start, d) && w !in expanded ==> Entry(w, d) in q
  }

  /** The nodes within `d - 1` moves are expanded. */
  ghost predicate BelowExpanded(nodes: seq<Node>, start: nat, expanded: set<nat>, d: nat)
  {
    d > 0 ==> Within(nodes, start, d - 1) <= expanded
  }

  /** The invariant of the search loop, at level `d` (the distance of the
      entry popped last); `expanded` holds the nodes whose visited flag is
      set and `dist` the distance each was expanded at. The target is never
      expanded. */
  ghost predicate Inv(nodes: seq<Node>, start: nat, target: nat, q: seq<Entry>,
                      expanded: set<nat>, dist: map<nat, nat>, d: nat)
  {
    && QueueSound(nodes, start, q)
    && QueueLevel(q, d)
    && ExpandedExact(nodes, start, expanded, dist, d)
    && Closed(nodes, expanded, dist, q)
    && FrontQueued(nodes, start, expanded, q, d)
    && BelowExpanded(nodes, start, expanded, d)
    && target !in expanded
  }

  lemma InvInit(nodes: seq<Node>, start: nat, target: nat)
    requires start < |nodes|
    ensures Inv(nodes, start, target, [Entry(start, 0)], {}, map[], 0)
  {
  }

  /** What holds at the level of the front entry, before it is popped. */
  lemma LevelFacts(nodes: seq<Node>, start: nat, q: seq<Entry>, expanded: set<nat>, dist: map<nat, nat>, d: nat)
    requires QueueLevel(q, d) && ExpandedExact(nodes, start, expanded, dist, d) && Closed(nodes, expanded, dist, q)
    requires FrontQueued(nodes, start, expanded, q, d) && BelowExpanded(nodes, start, expanded, d) && |q| > 0
    ensures BelowExpanded(nodes, start, expanded, q[0].distance)
    ensures FrontQueued(nodes, start, expanded, q, q[0].distance)
  {
    var du := q[0].distance;
    if du == d + 1 {
      forall w | w in Within(nodes, start, d) ensures w in expanded {
      }
      forall w | w in Within(nodes, start, du) && w !in expanded ensures Entry(w, du) in q {
        assert w in Next(nodes, Within(nodes, start, d));
        var x :| x in Within(nodes, start, d) && Allowed(nodes, x, w);
        ExactAtMost(nodes, start, x, dist[x], d);
        var i :| 0 <= i < |q| && q[i] == Entry(w, dist[x] + 1);
        assert q[0].distance <= q[i].distance;
      }
    }
  }

  lemma DropFront(q: seq<Entry>, e: Entry)
    requires e in q && e != q[0]
    ensures e in q[1..]
  {
  }

  lemma QueueLevelTail(q: seq<Entry>, d: nat)
    requires QueueLevel(q, d) && |q| > 0
    ensures QueueLevel(q[1..], q[0].distance)
  {
    forall i, j | 0 <= i <= j < |q[1..]| ensures q[1..][i].distance <= q[1..][j].distance {
      assert q[1..][i] == q[i + 1] && q[1..][j] == q[j + 1];
    }
    forall i | 0 <= i < |q[1..]| ensures q[0].distance <= q[1..][i].distance <= q[0].distance + 1 {
      assert q[1..][i] == q[i + 1];
      assert q[0].distance <= q[i + 1].distance;
    }
  }

  /** Popping an entry whose node is already expanded. */
  lemma PopExpanded(nodes: seq<Node>, start: nat, target: nat, q: seq<Entry>,
                    expanded: set<nat>, dist: map<nat, nat>, d: nat)
    requires Inv(nodes, start, target, q, expanded, dist, d) && |q| > 0 && q[0].node in expanded
    ensures Inv(nodes, start, target, q[1..], expanded, dist, q[0].distance)
  {
    LevelFacts(nodes, start, q, expanded, dist, d);
    var du := q[0].distance;
    QueueLevelTail(q, d);
    forall u, v | u in expanded && u in dist && Allowed(nodes, u, v) && v !in expanded
      ensures Entry(v, dist[u] + 1) in q[1..]
    {
      DropFront(q, Entry(v, dist[u] + 1));
    }
    forall w | w in Within(nodes, start, du) && w !in expanded ensures Entry(w, du) in q[1..] {
      DropFront(q, Entry(w, du));
    }
  }

  /** The queue part of expanding the front entry `Entry(u, du)`. */
  lemma ExpandQueue(nodes: seq<Node>, start: nat, q: seq<Entry>, d: nat, u: nat, du: nat)
    requires Valid(nodes) && QueueSound(nodes, start, q) && QueueLevel(q, d) && |q| > 0 && q[0] == Entry(u, du)
    ensures QueueSound(nodes, start, q[1..] + Pushes(nodes, u, nodes[u].children, du))
    ensures QueueLevel(q[1..] + Pushes(nodes, u, nodes[u].children, du), du)
  {
    var pushed := Pushes(nodes, u, nodes[u].children, du);
    var q' := q[1..] + pushed;
    ExpandSound(nodes, start, q, u, du, pushed, q');
    ExpandLevel(q, d, du, pushed, q');
  }

  lemma ExpandSound(nodes: seq<Node>, start: nat, q: seq<Entry>, u: nat, du: nat, pushed: seq<Entry>, q': seq<Entry>)
    requires Valid(nodes) && QueueSound(nodes, start, q) && |q| > 0 && q[0] == Entry(u, du)
    requires pushed == Pushes(nodes, u, nodes[u].children, du) && q' == q[1..] + pushed
    ensures QueueSound(nodes, start, q')
  {
    forall i | 0 <= i < |q'|
      ensures q'[i].node < |nodes| && q'[i].node in Within(nodes, start, q'[i].distance)
    {
      if i < |q| - 1 {
        assert q'[i] == q[i + 1];
      } else {
        var e := pushed[i - (|q| - 1)];
        assert q'[i] == e;
        PushedWithin(nodes, start, u, du, e.node, e.distance);
      }
    }
  }

  /** A node `u` reached in `du` moves may move on to `v` in one more. */
  lemma PushedWithin(nodes: seq<Node>, start: nat, u: nat, du: nat, v: nat, k: nat)
    requires k == du + 1 && u in Within(nodes, start, du) && Allowed(nodes, u, v)
    ensures v in Within(nodes, start, k)
  {
    assert Follows(nodes, Within(nodes, start, du), v);
    assert v in Next(nodes, Within(nodes, start, du));
  }

  lemma ExpandLevel(q: seq<Entry>, d: nat, du: nat, pushed: seq<Entry>, q': seq<Entry>)
    requires QueueLevel(q, d) && |q| > 0 && q[0].distance == du && q' == q[1..] + pushed
    requires forall i :: 0 <= i < |pushed| ==> pushed[i].distance == du + 1
    ensures QueueLevel(q', du)
  {
    forall i | 0 <= i < |q'|
      ensures du <= q'[i].distance <= du + 1
    {
      if i < |q| - 1 {
        assert q'[i] == q[i + 1];
        assert q[0].distance <= q[i + 1].distance;
      } else {
        assert q'[i] == pushed[i - (|q| - 1)];
      }
    }
    forall i, j | 0 <= i <= j < |q'| ensures q'[i].distance <= q'[j].distance {
      if j < |q| - 1 {
        assert q'[i] == q[i + 1] && q'[j] == q[j + 1];
      } else {
        assert q'[j] == pushed[j - (|q| - 1)];
      }
    }
  }

  /** The closure part of expanding the front entry `Entry(u, du)`. */
  lemma ExpandClosed(nodes: seq<Node>, q: seq<Entry>, expanded: set<nat>, dist: map<nat, nat>, u: nat, du: nat,
                     q': seq<Entry>)
    requires Valid(nodes) && Closed(nodes, expanded, dist, q) && |q| > 0 && q[0] == Entry(u, du) && u < |nodes|
    requires q' == q[1..] + Pushes(nodes, u, nodes[u].children, du)
    ensures Closed(nodes, expanded + {u}, dist[u := du], q')
  {
    var expanded', dist' := expanded + {u}, dist[u := du];
    forall x: nat, v: nat | x in expanded' && x in dist' && Allowed(nodes, x, v)
      ensures v in expanded' || Entry(v, dist'[x] + 1) in q'
    {
      ClosedEdge(nodes, q, expanded, dist, u, du, q', expanded', dist', x, v);
    }
  }

  /** One allowed move out of an expanded node after the expansion. */
  lemma ClosedEdge(nodes: seq<Node>, q: seq<Entry>, expanded: set<nat>, dist: map<nat, nat>, u: nat, du: nat,
                   q': seq<Entry>, expanded': set<nat>, dist': map<nat, nat>, x: nat, v: nat)
    requires Valid(nodes) && Closed(nodes, expanded, dist, q) && |q| > 0 && q[0] == Entry(u, du) && u < |nodes|
    requires q' == q[1..] + Pushes(nodes, u, nodes[u].children, du)
    requires expanded' == expanded + {u} && dist' == dist[u := du]
    requires x in expanded' && x in dist' && Allowed(nodes, x, v)
    ensures v in expanded' || Entry(v, dist'[x] + 1) in q'
  {
    if v !in expanded' {
      if x == u {
        assert Entry(v, du + 1) in Pushes(nodes, u, nodes[u].children, du);
      } else {
        var e := Entry(v, dist[x] + 1);
        assert e in q;
        DropFront(q, e);
        assert e in q[1..];
      }
    }
  }

  /** Popping the entry `Entry(u, du)`, whose node is not expanded yet, and
      expanding it. */
  lemma PopExpand(nodes: seq<Node>, start: nat, target: nat, q: seq<Entry>,
                  expanded: set<nat>, dist: map<nat, nat>, d: nat, u: nat, du: nat)
    requires Valid(nodes)
    requires Inv(nodes, start, target, q, expanded, dist, d) && |q| > 0 && q[0] == Entry(u, du)
    requires u !in expanded && u != target
    ensures Inv(nodes, start, target, q[1..] + Pushes(nodes, u, nodes[u].children, du),
                expanded + {u}, dist[u := du], du)
  {
    LevelFacts(nodes, start, q, expanded, dist, d);
    ExpandQueue(nodes, start, q, d, u, du);
    ExpandClosed(nodes, q, expanded, dist, u, du, q[1..] + Pushes(nodes, u, nodes[u].children, du));
    var q' := q[1..] + Pushes(nodes, u, nodes[u].children, du);
    assert q'[..|q| - 1] == q[1..];
    ExpandFront(nodes, start, q, expanded, dist, d, u, du, q');
  }

  /** The expanded-node parts of expanding the front entry `Entry(u, du)`. */
  lemma ExpandFront(nodes: seq<Node>, start: nat, q: seq<Entry>,
                    expanded: set<nat>, dist: map<nat, nat>, d: nat, u: nat, du: nat, q': seq<Entry>)
    requires QueueSound(nodes, start, q) && QueueLevel(q, d) && |q| > 0 && q[0] == Entry(u, du) && u !in expanded
    requires ExpandedExact(nodes, start, expanded, dist, d)
    requires FrontQueued(nodes, start, expanded, q, du) && BelowExpanded(nodes, start, expanded, du)
    requires |q'| >= |q| - 1 && q'[..|q| - 1] == q[1..]
    ensures ExpandedExact(nodes, start, expanded + {u}, dist[u := du], du)
    ensures FrontQueued(nodes, start, expanded + {u}, q', du)
    ensures BelowExpanded(nodes, start, expanded + {u}, du)
  {
    assert Exact(nodes, start, u, du);
    ExpandedExactAdd(nodes, start, expanded, dist, d, u, du);
    forall w | w in Within(nodes, start, du) && w !in expanded + {u}
      ensures Entry(w, du) in q'
    {
      StillQueued(q, q', Entry(w, du));
    }
  }

  lemma ExpandedExactAdd(nodes: seq<Node>, start: nat, expanded: set<nat>, dist: map<nat, nat>, d: nat, u: nat, du: nat)
    requires ExpandedExact(nodes, start, expanded, dist, d) && d <= du && u < |nodes| && Exact(nodes, start, u, du)
    ensures ExpandedExact(nodes, start, expanded + {u}, dist[u := du], du)
  {
  }

  /** An entry of the queue other than its front is still queued after the
      front is popped and more entries are pushed. */
  lemma StillQueued(q: seq<Entry>, q': seq<Entry>, e: Entry)
    requires |q| > 0 && |q'| >= |q| - 1 && q'[..|q| - 1] == q[1..] && e in q && e != q[0]
    ensures e in q'
  {
    DropFront(q, e);
    var k :| 0 <= k < |q| - 1 && q[1..][k] == e;
    assert q'[k] == e;
  }

  lemma NotBelow(nodes: seq<Node>, start: nat, target: nat, expanded: set<nat>, du: nat)
    requires BelowExpanded(nodes, start, expanded, du) && target !in expanded
    ensures forall k :: 0 <= k < du ==> target !in Within(nodes, start, k)
  {
    forall k | 0 <= k < du ensures target !in Within(nodes, start, k) {
      WithinMonotone(nodes, start, k, du - 1);
    }
  }

  /** Popping the target: its distance is the shortest. */
  lemma PopTarget(nodes: seq<Node>, start: nat, target: nat, q: seq<Entry>,
                  expanded: set<nat>, dist: map<nat, nat>, d: nat)
    requires start < |nodes|
    requires Inv(nodes, start, target, q, expanded, dist, d) && |q| > 0 && q[0].node == target
    ensures q[0].distance == Shortest(nodes, start, target)
  {
    LevelFacts(nodes, start, q, expanded, dist, d);
    NotBelow(nodes, start, target, expanded, q[0].distance);
    ShortestIs(nodes, start, target, q[0].distance);
  }

  /** An empty queue: everything reachable was expanded, so the target is
      unreachable. */
  lemma Exhausted(nodes: seq<Node>, start: nat, target: nat,
                  expanded: set<nat>, dist: map<nat, nat>, d: nat)
    requires Inv(nodes, start, target, [], expanded, dist, d)
    ensures Shortest(nodes, start, target) == UsizeMax
  {
    forall k: nat ensures target !in Within(nodes, start, k) {
      ExhaustedWithin(nodes, start, expanded, dist, d, k);
    }
    ShortestNone(nodes, start, target);
  }

  lemma {:induction false} ExhaustedWithin(nodes: seq<Node>, start: nat,
                                           expanded: set<nat>, dist: map<nat, nat>, d: nat, k: nat)
    requires ExpandedExact(nodes, start, expanded, dist, d) && Closed(nodes, expanded, dist, [])
    requires FrontQueued(nodes, start, expanded, [], d)
    ensures Within(nodes, start, k) <= expanded
    decreases k
  {
    if k <= d {
      WithinMonotone(nodes, start, k, d);
    } else {
      ExhaustedWithin(nodes, start, expanded, dist, d, k - 1);
      forall w | w in Next(nodes, Within(nodes, start, k - 1)) ensures w in expanded {
        var x :| x in Within(nodes, start, k - 1) && Allowed(nodes, x, w);
      }
    }
  }

  /** `v` marks exactly the members of `s`, all of which are its indices. */
  ghost predicate Marks(v: seq<bool>, s: set<nat>)
  {
    (forall i :: 0 <= i < |v| ==> (v[i] <==> i in s)) && forall x :: x in s ==> x < |v|
  }

  lemma MarksAt(v: seq<bool>, s: set<nat>, k: nat)
    requires Marks(v, s) && k < |v|
    ensures v[k] <==> k in s
  {
  }

  /** Marking an unmarked index adds one member, and the marked indices
      never outnumber the indices. */
  lemma MarksAdd(v: seq<bool>, s: set<nat>, k: nat, w: seq<bool>)
    requires Marks(v, s) && k < |v| && !v[k] && w == v[k := true]
    ensures Marks(w, s + {k})
    ensures |s + {k}| == |s| + 1 <= |v|
  {
    BoundedCard(s + {k}, |v|);
  }

  lemma MarksEmpty(v: seq<bool>)
    requires forall i :: 0 <= i < |v| ==> !v[i]
    ensures Marks(v, {})
  {
  }

  method ShortestDistance(nodes: seq<Node>, start: nat, target: nat) returns (r: nat)
    requires Valid(nodes) && start < |nodes|
    ensures r == Shortest(nodes, start, target)
  {
    var queue := [Entry(start, 0)];
    var visited := new bool[|nodes|](_ => false);
    ghost var expanded: set<nat> := {};
    ghost var dist: map<nat, nat> := map[];
    ghost var d := 0;
    InvInit(nodes, start, target);
    MarksEmpty(visited[..]);
    while queue != []
      invariant Inv(nodes, start, target, queue, expanded, dist, d)
      invariant visited.Length == |nodes| && Marks(visited[..], expanded) && |expanded| <= |nodes|
      decreases |nodes| - |expanded|, |queue|
    {
      var Entry(node, distance) := queue[0];
      if node == target {
        PopTarget(nodes, start, target, queue, expanded, dist, d);
        return distance;
      }
      MarksAt(visited[..], expanded, node);
      if visited[node] {
        PopExpanded(nodes, start, target, queue, expanded, dist, d);
        queue, d := queue[1..], distance;
        continue;
      }
      ghost var before := visited[..];
      visited[node] := true;
      MarksAdd(before, expanded, node, visited[..]);
      PopExpand(nodes, start, target, queue, expanded, dist, d, node, distance);
      queue := Expand(nodes, node, distance, queue[1..]);
      expanded, dist, d := expanded + {node}, dist[node := distance], distance;
    }
    Exhausted(nodes, start, target, expanded, dist, d);
    r := UsizeMax;
  }

  // ---------------------------------------------------------------------
  // `solve_part_one` and `solve_part_two`

  /** The parsed grid: the start and end cells and one node per cell. */
  datatype Parsed = Parsed(start: nat, end: nat, nodes: seq<Node>)

  /** `solve_part_one`: the shortest distance from the start to the end. */
  method SolvePartOne(input: Parsed) returns (r: nat)
    requires Valid(input.nodes) && input.start < |input.nodes|
    ensures r == Shortest(input.nodes, input.start, input.end)
  {
    r := ShortestDistance(input.nodes, input.start, input.end);
  }

  /** The height of `a`, where part two may start. */
  const Lowest: nat := 'a' as nat

  /** The least shortest distance to `target` from a cell of height `a`
      among the first `n` nodes; `None` when there is no such cell. */
  function BestFrom(nodes: seq<Node>, target: nat, n: nat): (r: Option<nat>)
    requires n <= |nodes|
    ensures r.None? <==> forall i :: 0 <= i < n ==> nodes[i].value != Lowest
    ensures r.Some? ==> exists i :: 0 <= i < n && nodes[i].value == Lowest && Shortest(nodes, i, target) == r.value
    ensures r.Some? ==> forall i :: 0 <= i < n && nodes[i].value == Lowest ==> r.value <= Shortest(nodes, i, target)
  {
    if n == 0 then None
    else
      var best := BestFrom(nodes, target, n - 1);
      if nodes[n - 1].value != Lowest then best
      else
        var d := Shortest(nodes, n - 1, target);
        match best
        case None => Some(d)
        case Some(m) => Some(Min(m, d))
  }

  /** `solve_part_two`: the least shortest distance to the end from any cell
      of height `a`; the source unwraps the minimum, so such a cell must exist. */
  method SolvePartTwo(input: Parsed) returns (r: nat)
    requires Valid(input.nodes)
    requires exists i :: 0 <= i < |input.nodes| && input.nodes[i].value == Lowest
    ensures BestFrom(input.nodes, input.end, |input.nodes|) == Some(r)
  {
    var nodes := input.nodes;
    var best: Option<nat> := None;
    for i := 0 to |nodes|
      invariant best == BestFrom(nodes, input.end, i)
    {
      if nodes[i].value == Lowest {
        var d := ShortestDistance(nodes, i, input.end);
        best := match best case None => Some(d) case Some(m) => Some(Min(m, d));
      }
    }
    r := best.value;
  }

  /** Part two is at most part one when the start has height `a`, as the
      parsed start always does. */
  lemma PartTwoAtMostPartOne(input: Parsed, r: nat)
    requires input.start < |input.nodes| && input.nodes[input.start].value == Lowest
    requires BestFrom(input.nodes, input.end, |input.nodes|) == Some(r)
    ensures r <= Shortest(input.nodes, input.start, input.end)
  {
  }

  // ---------------------------------------------------------------------
  // `parse_input`

  /** The height of a cell: `S` is an `a` and `E` a `z`; any other character
      is its code truncated to a byte. */
  function Height(ch: char): (h: nat)
    ensures h < 256
    ensures ch == 'S' ==> h == Lowest
    ensures ch == 'E' ==> h == 'z' as nat
  {
    if ch == 'S' then 'a' as nat else if ch == 'E' then 'z' as nat else (ch as int) % 256
  }

  /** The index of cell `(x, y)` if it lies in the grid. */
  function Neighbour(x: int, y: int, width: nat, height: nat): seq<nat>
  {
    if x < 0 || y < 0 || x >= width || y >= height then [] else [y * width + x]
  }

  /** The in-grid neighbours of `(x, y)`, below, above, right and left, in that order. */
  function Children(x: nat, y: nat, width: nat, height: nat): seq<nat>
  {
    Neighbour(x, y + 1, width, height) + Neighbour(x, y - 1, width, height)
      + Neighbour(x + 1, y, width, height) + Neighbour(x - 1, y, width, height)
  }

  /** The nodes of line `y`, one per character. */
  function Row(line: string, y: nat, width: nat, height: nat): (r: seq<Node>)
    ensures |r| == |line|
  {
    seq(|line|, x requires 0 <= x < |line| => Node(Height(line[x]), Children(x, y, width, height)))
  }

  /** The nodes of the first `n` lines, line after line. */
  function Rows(lines: seq<string>, width: nat, n: nat): seq<Node>
    requires n <= |lines|
  {
    if n == 0 then [] else Rows(lines, width, n - 1) + Row(lines[n - 1], n - 1, width, |lines|)
  }

  /** The recorded position of `ch` after reading the first `n` characters
      of line `y`, starting from `prev`: each occurrence overwrites it. */
  function MarkerIn(line: string, ch: char, y: nat, width: nat, prev: nat, n: nat): nat
    requires n <= |line|
  {
    if n == 0 then prev
    else if line[n - 1] == ch then y * width + (n - 1)
    else MarkerIn(line, ch, y, width, prev, n - 1)
  }

  /** The recorded position of `ch` after reading the first `n` lines; 0
      when it has not occurred. */
  function Marker(lines: seq<string>, ch: char, width: nat, n: nat): nat
    requires n <= |lines|
  {
    if n == 0 then 0 else MarkerIn(lines[n - 1], ch, n - 1, width, Marker(lines, ch, width, n - 1), |lines[n - 1]|)
  }

  /** `parse_input`: the width is the first line's length; cell `(x, y)`
      becomes node `y * width + x`. */
  function ParseInput(lines: seq<string>): Parsed
    requires |lines| > 0
  {
    var width := |lines[0]|;
    Parsed(Marker(lines, 'S', width, |lines|), Marker(lines, 'E', width, |lines|), Rows(lines, width, |lines|))
  }

  /** The fold of `parse_input`, line by line and character by character. */
  method ParseGrid(lines: seq<string>) returns (p: Parsed)
    requires |lines| > 0
    ensures p == ParseInput(lines)
  {
    var height := |lines|;
    var width := |lines[0]|;
    var start, end, nodes := 0, 0, [];
    for y := 0 to height
      invariant start == Marker(lines, 'S', width, y) && end == Marker(lines, 'E', width, y)
      invariant nodes == Rows(lines, width, y)
    {
      var line := lines[y];
      ghost var start0, end0, nodes0 := start, end, nodes;
      ghost var row := Row(line, y, width, height);
      for x := 0 to |line|
        invariant start == MarkerIn(line, 'S', y, width, start0, x) && end == MarkerIn(line, 'E', y, width, end0, x)
        invariant nodes == nodes0 + row[..x]
      {
        var ch := line[x];
        var value;
        if ch == 'S' {
          start := y * width + x;
          value := 'a' as nat;
        } else if ch == 'E' {
          end := y * width + x;
          value := 'z' as nat;
        } else {
          value := (ch as int) % 256;
        }
        RowPrefix(line, y, width, height, x, row);
        nodes := nodes + [Node(value, Children(x, y, width, height))];
      }
      assert row[..|line|] == row;
    }
    p := Parsed(start, end, nodes);
  }

  /** The row read so far grows by the node of the next cell. */
  lemma RowPrefix(line: string, y: nat, width: nat, height: nat, x: nat, row: seq<Node>)
    requires x < |line| && row == Row(line, y, width, height)
    ensures row[..x + 1] == row[..x] + [Node(Height(line[x]), Children(x, y, width, height))]
  {
    assert row[..x + 1] == row[..x] + [row[x]];
  }

  /** Every line as long as the first. */
  predicate Rectangular(lines: seq<string>)
  {
    |lines| > 0 && forall y :: 0 <= y < |lines| ==> |lines[y]| == |lines[0]|
  }

  lemma MulMonotone(a: nat, b: nat, w: nat)
    requires a <= b
    ensures a * w <= b * w
  {
    assert b * w == a * w + (b - a) * w;
  }

  lemma {:induction false} RowsLength(lines: seq<string>, n: nat)
    requires Rectangular(lines) && n <= |lines|
    ensures |Rows(lines, |lines[0]|, n)| == n * |lines[0]|
    decreases n
  {
    if n > 0 {
      RowsLength(lines, n - 1);
    }
  }

  lemma {:induction false} RowsAt(lines: seq<string>, n: nat, x: nat, y: nat)
    requires Rectangular(lines) && y < n <= |lines| && x < |lines[0]|
    ensures y * |lines[0]| + x < |Rows(lines, |lines[0]|, n)|
    ensures Rows(lines, |lines[0]|, n)[y * |lines[0]| + x] == Row(lines[y], y, |lines[0]|, |lines|)[x]
    decreases n
  {
    var w := |lines[0]|;
    RowsLength(lines, n - 1);
    RowsLength(lines, n);
    if y < n - 1 {
      RowsAt(lines, n - 1, x, y);
      MulMonotone(y + 1, n - 1, w);
    } else {
      assert y * w + x == |Rows(lines, w, n - 1)| + x;
    }
  }

  /** Two cells one step apart along a row or a column. */
  predicate Adjacent4(x: int, y: int, x2: int, y2: int)
  {
    Abs(x - x2) + Abs(y - y2) == 1
  }

  lemma CellInGrid(x: nat, y: nat, width: nat, height: nat)
    requires x < width && y < height
    ensures y * width + x < width * height
  {
    MulMonotone(y + 1, height, width);
  }

  /** Every index below `width * height` is a cell of the grid. */
  lemma CellOf(i: nat, width: nat, height: nat) returns (x: nat, y: nat)
    requires i < height * width
    ensures x < width && y < height && i == y * width + x
  {
    x, y := i % width, i / width;
    if y >= height {
      MulMonotone(height, y, width);
    }
  }

  lemma NeighbourIsChild(x: nat, y: nat, x2: nat, y2: nat, width: nat, height: nat)
    requires x2 < width && y2 < height && Adjacent4(x, y, x2, y2)
    ensures y2 * width + x2 in Children(x, y, width, height)
  {
    if y2 == y + 1 {
      assert Neighbour(x, y + 1, width, height) == [y2 * width + x2];
    } else if y2 + 1 == y {
      assert Neighbour(x, y - 1, width, height) == [y2 * width + x2];
    } else if x2 == x + 1 {
      assert Neighbour(x + 1, y, width, height) == [y2 * width + x2];
    } else {
      assert Neighbour(x - 1, y, width, height) == [y2 * width + x2];
    }
  }

  lemma ChildIsNeighbour(x: nat, y: nat, width: nat, height: nat, c: nat) returns (x2: nat, y2: nat)
    requires c in Children(x, y, width, height)
    ensures x2 < width && y2 < height && Adjacent4(x, y, x2, y2) && c == y2 * width + x2
  {
    if c in Neighbour(x, y + 1, width, height) {
      x2, y2 := x, y + 1;
    } else if c in Neighbour(x, y - 1, width, height) {
      x2, y2 := x, y - 1;
    } else if c in Neighbour(x + 1, y, width, height) {
      x2, y2 := x + 1, y;
    } else {
      assert c in Neighbour(x - 1, y, width, height);
      x2, y2 := x - 1, y;
    }
  }

  /** The children of a cell are exactly the indices of its in-grid
      4-neighbours, all of them nodes of the grid. */
  lemma ChildrenInGrid(x: nat, y: nat, width: nat, height: nat)
    requires x < width && y < height
    ensures forall c :: c in Children(x, y, width, height) ==> c < width * height
    ensures forall c :: c in Children(x, y, width, height) ==>
      exists x2: nat, y2: nat :: x2 < width && y2 < height && Adjacent4(x, y, x2, y2) && c == y2 * width + x2
    ensures forall x2: nat, y2: nat :: x2 < width && y2 < height && Adjacent4(x, y, x2, y2) ==>
      y2 * width + x2 in Children(x, y, width, height)
  {
    forall x2: nat, y2: nat | x2 < width && y2 < height && Adjacent4(x, y, x2, y2)
      ensures y2 * width + x2 in Children(x, y, width, height)
    {
      NeighbourIsChild(x, y, x2, y2, width, height);
    }
    forall c | c in Children(x, y, width, height)
      ensures c < width * height
      ensures exists x2: nat, y2: nat :: x2 < width && y2 < height && Adjacent4(x, y, x2, y2) && c == y2 * width + x2
    {
      var x2, y2 := ChildIsNeighbour(x, y, width, height, c);
      CellInGrid(x2, y2, width, height);
    }
  }

  /** On a rectangular grid, `parse_input` makes one node per cell, and
      every neighbour index names a node. */
  lemma ParseGridShape(lines: seq<string>)
    requires Rectangular(lines)
    ensures |ParseInput(lines).nodes| == |lines| * |lines[0]|
    ensures Valid(ParseInput(lines).nodes)
  {
    RowsLength(lines, |lines|);
    ParseGridValid(lines);
  }

  /** `parse_input` numbers cell `(x, y)` as `y * width + x` and gives it
      its height and its in-grid 4-neighbours. */
  lemma ParseGridCell(lines: seq<string>, x: nat, y: nat)
    requires Rectangular(lines) && y < |lines| && x < |lines[0]|
    ensures y * |lines[0]| + x < |ParseInput(lines).nodes|
    ensures ParseInput(lines).nodes[y * |lines[0]| + x] == Node(Height(lines[y][x]), Children(x, y, |lines[0]|, |lines|))
  {
    RowsAt(lines, |lines|, x, y);
  }

  lemma ParseGridValid(lines: seq<string>)
    requires Rectangular(lines)
    ensures Valid(Rows(lines, |lines[0]|, |lines|))
  {
    var nodes := Rows(lines, |lines[0]|, |lines|);
    RowsLength(lines, |lines|);
    forall i, j | 0 <= i < |nodes| && 0 <= j < |nodes[i].children| ensures nodes[i].children[j] < |nodes| {
      ChildOfNode(lines, i, j);
    }
  }

  lemma ChildOfNode(lines: seq<string>, i: nat, j: nat)
    requires Rectangular(lines) && i < |lines| * |lines[0]|
    ensures i < |Rows(lines, |lines[0]|, |lines|)|
    ensures j < |Rows(lines, |lines[0]|, |lines|)[i].children| ==>
      Rows(lines, |lines[0]|, |lines|)[i].children[j] < |lines| * |lines[0]|
  {
    var w, h := |lines[0]|, |lines|;
    var x, y := CellOf(i, w, h);
    RowsAt(lines, h, x, y);
    var children := Rows(lines, w, h)[i].children;
    assert children == Children(x, y, w, h);
    if j < |children| {
      assert children[j] in Children(x, y, w, h);
      var x2, y2 := ChildIsNeighbour(x, y, w, h, children[j]);
      CellInGrid(x2, y2, w, h);
    }
  }

  lemma {:induction false} MarkerInAbsent(line: string, ch: char, y: nat, width: nat, prev: nat, n: nat)
    requires n <= |line| && forall x :: 0 <= x < n ==> line[x] != ch
    ensures MarkerIn(line, ch, y, width, prev, n) == prev
    decreases n
  {
    if n > 0 {
      MarkerInAbsent(line, ch, y, width, prev, n - 1);
    }
  }

  lemma {:induction false} MarkerInLast(line: string, ch: char, y: nat, width: nat, prev: nat, n: nat, x: nat)
    requires x < n <= |line| && line[x] == ch && forall x2 :: x < x2 < n ==> line[x2] != ch
    ensures MarkerIn(line, ch, y, width, prev, n) == y * width + x
    decreases n
  {
    if x < n - 1 {
      MarkerInLast(line, ch, y, width, prev, n - 1, x);
    }
  }

  /** When `ch` occurs once, at `(x, y)`, it is recorded as `y * width + x`. */
  lemma {:induction false} MarkerOnce(lines: seq<string>, ch: char, width: nat, n: nat, x: nat, y: nat)
    requires y < n <= |lines| && x < |lines[y]| && lines[y][x] == ch
    requires forall y2, x2 :: 0 <= y2 < |lines| && 0 <= x2 < |lines[y2]| && lines[y2][x2] == ch ==> y2 == y && x2 == x
    ensures Marker(lines, ch, width, n) == y * width + x
    decreases n
  {
    if y < n - 1 {
      MarkerOnce(lines, ch, width, n - 1, x, y);
      MarkerInAbsent(lines[n - 1], ch, n - 1, width, Marker(lines, ch, width, n - 1), |lines[n - 1]|);
    } else {
      MarkerInLast(lines[y], ch, y, width, Marker(lines, ch, width, n - 1), |lines[y]|, x);
    }
  }

  /** The single `S` and `E` of a grid become the start and the end. */
  lemma ParseStartEnd(lines: seq<string>, sx: nat, sy: nat, ex: nat, ey: nat)
    requires |lines| > 0
    requires sy < |lines| && sx < |lines[sy]| && lines[sy][sx] == 'S'
    requires forall y2, x2 :: 0 <= y2 < |lines| && 0 <= x2 < |lines[y2]| && lines[y2][x2] == 'S' ==> y2 == sy && x2 == sx
    requires ey < |lines| && ex < |lines[ey]| && lines[ey][ex] == 'E'
    requires forall y2, x2 :: 0 <= y2 < |lines| && 0 <= x2 < |lines[y2]| && lines[y2][x2] == 'E' ==> y2 == ey && x2 == ex
    ensures ParseInput(lines).start == sy * |lines[0]| + sx
    ensures ParseInput(lines).end == ey * |lines[0]| + ex
  {
    MarkerOnce(lines, 'S', |lines[0]|, |lines|, sx, sy);
    MarkerOnce(lines, 'E', |lines[0]|, |lines|, ex, ey);
  }
}
