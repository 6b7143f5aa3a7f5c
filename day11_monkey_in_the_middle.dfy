/** Day 11 (11/src/lib.rs): monkeys pass items between them. In one round
    each monkey, in index order, inspects every item it holds: its
    operation raises the item's worry level, a relief function lowers it,
    and the item is thrown to one of two monkeys according to the
    divisibility test. The answers multiply the two largest inspection
    counts after 20 rounds (relief: divide by three) and after 10,000
    rounds (relief: reduce modulo the product of all tests). */
module MonkeyInTheMiddle {
  import opened Common

  datatype Operation = Square | Add(n: nat) | Mul(n: nat)

  /** A monkey: its divisibility test, how many items it has inspected, its
      operation, the monkeys it throws to ([if the test fails, if it
      holds]) and its queue of worry levels, front first. */
  datatype Monkey = Monkey(test: nat, count: nat, op: Operation, targets: seq<nat>, items: seq<nat>)

  /** The new worry level an operation computes from the old one. */
  function Apply(op: Operation, worry: nat): nat
  {
    match op
    case Square => worry * worry
    case Add(n) => worry + n
    case Mul(n) => worry * n
  }

  /** What the solvers need of the monkeys: a test that can be divided by,
      two targets that exist and that are not the monkey itself (a monkey
      throwing to itself would keep inspecting the same item within its
      own turn). */
  predicate Valid(ms: seq<Monkey>)
  {
    forall i :: 0 <= i < |ms| ==>
      ms[i].test > 0 && |ms[i].targets| == 2 &&
      ms[i].targets[0] < |ms| && ms[i].targets[1] < |ms| &&
      ms[i].targets[0] != i && ms[i].targets[1] != i
  }

  /** Same monkeys apart from their counts and queues. */
  predicate SameShape(a: seq<Monkey>, b: seq<Monkey>)
  {
    |a| == |b| &&
    forall k :: 0 <= k < |a| ==>
      a[k].test == b[k].test && a[k].op == b[k].op && a[k].targets == b[k].targets
  }

  lemma SameShapeValid(a: seq<Monkey>, b: seq<Monkey>)
    requires Valid(a) && SameShape(a, b)
    ensures Valid(b)
  {
  }

  /** The monkey a worry level is thrown to: `targets[1]` when the level is
      divisible by the test, `targets[0]` otherwise. */
  function Dest(m: Monkey, worry: nat): nat
    requires m.test > 0 && |m.targets| == 2
  {
    m.targets[if worry % m.test == 0 then 1 else 0]
  }

  // ---------------------------------------------------------------------
  // One round, as a specification

  /** Monkey `i` counts and drops its front item, and `worry` is appended
      to the back of monkey `d`'s queue. */
  function Throw(ms: seq<Monkey>, i: nat, d: nat, worry: nat): seq<Monkey>
    requires i < |ms| && d < |ms| && ms[i].items != []
  {
    var ms1 := ms[i := ms[i].(count := ms[i].count + 1, items := ms[i].items[1..])];
    ms1[d := ms1[d].(items := ms1[d].items + [worry])]
  }

  /** Monkey `i` inspects the item at the front of its queue. */
  function Inspect(ms: seq<Monkey>, i: nat, relief: nat -> nat): (r: seq<Monkey>)
    requires Valid(ms) && i < |ms| && ms[i].items != []
    ensures SameShape(ms, r) && Valid(r)
    ensures |r[i].items| == |ms[i].items| - 1
  {
    var worry := relief(Apply(ms[i].op, ms[i].items[0]));
    Throw(ms, i, Dest(ms[i], worry), worry)
  }

  /** Monkey `i`'s turn: it inspects items until its queue is empty. */
  function Turn(ms: seq<Monkey>, i: nat, relief: nat -> nat): (r: seq<Monkey>)
    requires Valid(ms) && i < |ms|
    ensures SameShape(ms, r) && Valid(r)
    ensures r[i].items == []
    decreases |ms[i].items|
  {
    if ms[i].items == [] then ms else Turn(Inspect(ms, i, relief), i, relief)
  }

  /** The turns of monkeys `i`, `i + 1`, ... in index order. */
  function RoundFrom(ms: seq<Monkey>, i: nat, relief: nat -> nat): (r: seq<Monkey>)
    requires Valid(ms) && i <= |ms|
    ensures SameShape(ms, r) && Valid(r)
    decreases |ms| - i
  {
    if i == |ms| then ms else RoundFrom(Turn(ms, i, relief), i + 1, relief)
  }

  function Round(ms: seq<Monkey>, relief: nat -> nat): (r: seq<Monkey>)
    requires Valid(ms)
    ensures SameShape(ms, r) && Valid(r)
  {
    RoundFrom(ms, 0, relief)
  }

  /** One monkey's turn of `do_round` (its `while let` loop): the front
      item is popped, counted, and its new worry level pushed onto the back
      of the chosen monkey's queue, until monkey `i`'s queue is empty. */
  method DoTurn(monkeys: seq<Monkey>, i: nat, relief: nat -> nat) returns (r: seq<Monkey>)
    requires Valid(monkeys) && i < |monkeys|
    ensures r == Turn(monkeys, i, relief)
  {
    r := monkeys;
    while r[i].items != []
      invariant Valid(r) && |r| == |monkeys|
      invariant Turn(r, i, relief) == Turn(monkeys, i, relief)
      decreases |r[i].items|
    {
      ghost var before := r;
      var item := r[i].items[0];
      r := r[i := r[i].(count := r[i].count + 1, items := r[i].items[1..])];
      var worry := relief(Apply(r[i].op, item));
      var dest := r[i].targets[if worry % r[i].test == 0 then 1 else 0];
      r := r[dest := r[dest].(items := r[dest].items + [worry])];
      assert r == Throw(before, i, dest, worry);
    }
  }

  /** `do_round`: the monkeys take their turns in index order, updating the
      vector of monkeys in place. */
  method DoRound(monkeys: seq<Monkey>, relief: nat -> nat) returns (r: seq<Monkey>)
    requires Valid(monkeys)
    ensures r == Round(monkeys, relief)
  {
    r := monkeys;
    for i := 0 to |r|
      invariant Valid(r) && |r| == |monkeys|
      invariant RoundFrom(r, i, relief) == Round(monkeys, relief)
    {
      r := DoTurn(r, i, relief);
    }
  }

  // ---------------------------------------------------------------------
  // What a turn does

  /** An inspection takes the front item off monkey `i`'s queue, counts it,
      and appends the relieved new worry level to the back of the queue of
      the monkey the test picks; every other monkey is unchanged. */
  lemma InspectMoves(ms: seq<Monkey>, i: nat, relief: nat -> nat)
    requires Valid(ms) && i < |ms| && ms[i].items != []
    ensures var worry := relief(Apply(ms[i].op, ms[i].items[0]));
      var d := Dest(ms[i], worry);
      var r := Inspect(ms, i, relief);
      r[i].items == ms[i].items[1..] && r[i].count == ms[i].count + 1 &&
      r[d].items == ms[d].items + [worry] && r[d].count == ms[d].count &&
      forall k :: 0 <= k < |ms| && k != i && k != d ==> r[k] == ms[k]
  {
  }

  /** A turn inspects every item the monkey held: its count grows by the
      length of its queue and no other count changes. */
  lemma {:induction false} TurnCounts(ms: seq<Monkey>, i: nat, relief: nat -> nat)
    requires Valid(ms) && i < |ms|
    ensures Turn(ms, i, relief)[i].count == ms[i].count + |ms[i].items|
    ensures forall k :: 0 <= k < |ms| && k != i ==> Turn(ms, i, relief)[k].count == ms[k].count
    decreases |ms[i].items|
  {
    if ms[i].items != [] {
      TurnCounts(Inspect(ms, i, relief), i, relief);
    }
  }

  // ---------------------------------------------------------------------
  // Conservation of items

  function TotalItems(ms: seq<Monkey>): nat
  {
    if ms == [] then 0 else TotalItems(ms[..|ms| - 1]) + |ms[|ms| - 1].items|
  }

  lemma {:induction false} TotalItemsUpdate(ms: seq<Monkey>, k: nat, m: Monkey)
    requires k < |ms|
    ensures TotalItems(ms[k := m]) + |ms[k].items| == TotalItems(ms) + |m.items|
    decreases |ms|
  {
    var n := |ms| - 1;
    if k < n {
      assert ms[k := m][..n] == ms[..n][k := m];
      TotalItemsUpdate(ms[..n], k, m);
    } else {
      assert ms[k := m][..n] == ms[..n];
    }
  }

  lemma ThrowConserves(ms: seq<Monkey>, i: nat, d: nat, worry: nat)
    requires i < |ms| && d < |ms| && ms[i].items != [] && i != d
    ensures TotalItems(Throw(ms, i, d, worry)) == TotalItems(ms)
  {
    var ms1 := ms[i := ms[i].(count := ms[i].count + 1, items := ms[i].items[1..])];
    TotalItemsUpdate(ms, i, ms1[i]);
    TotalItemsUpdate(ms1, d, ms1[d].(items := ms1[d].items + [worry]));
  }

  lemma InspectConserves(ms: seq<Monkey>, i: nat, relief: nat -> nat)
    requires Valid(ms) && i < |ms| && ms[i].items != []
    ensures TotalItems(Inspect(ms, i, relief)) == TotalItems(ms)
  {
    var worry := relief(Apply(ms[i].op, ms[i].items[0]));
    ThrowConserves(ms, i, Dest(ms[i], worry), worry);
  }

  lemma {:induction false} TurnConserves(ms: seq<Monkey>, i: nat, relief: nat -> nat)
    requires Valid(ms) && i < |ms|
    ensures TotalItems(Turn(ms, i, relief)) == TotalItems(ms)
    decreases |ms[i].items|
  {
    if ms[i].items != [] {
      InspectConserves(ms, i, relief);
      TurnConserves(Inspect(ms, i, relief), i, relief);
    }
  }

  lemma {:induction false} RoundFromConserves(ms: seq<Monkey>, i: nat, relief: nat -> nat)
    requires Valid(ms) && i <= |ms|
    ensures TotalItems(RoundFrom(ms, i, relief)) == TotalItems(ms)
    decreases |ms| - i
  {
    if i < |ms| {
      TurnConserves(ms, i, relief);
      RoundFromConserves(Turn(ms, i, relief), i + 1, relief);
    }
  }

  /** A round neither creates nor loses items. */
  lemma RoundConserves(ms: seq<Monkey>, relief: nat -> nat)
    requires Valid(ms)
    ensures TotalItems(Round(ms, relief)) == TotalItems(ms)
  {
    RoundFromConserves(ms, 0, relief);
  }

  // ---------------------------------------------------------------------
  // The answers

  function Rounds(ms: seq<Monkey>, n: nat, relief: nat -> nat): (r: seq<Monkey>)
    requires Valid(ms)
    ensures |r| == |ms| && Valid(r)
    decreases n
  {
    if n == 0 then ms else Rounds(Round(ms, relief), n - 1, relief)
  }

  function Counts(ms: seq<Monkey>): (r: seq<int>)
    ensures |r| == |ms| && forall k :: 0 <= k < |ms| ==> r[k] == ms[k].count
  {
    seq(|ms|, k requires 0 <= k < |ms| => ms[k].count)
  }

  /** The product of the first two of the counts sorted largest first
      (itertools' `sorted().rev().take(2).product()`; an empty product is
      1). */
  function MonkeyBusiness(counts: seq<int>): int
  {
    var s := SortDesc(counts);
    if |s| == 0 then 1 else if |s| == 1 then s[0] else s[0] * s[1]
  }

  /** The product of all tests (named `lcm` in the source). */
  function TestProduct(ms: seq<Monkey>): (r: nat)
    ensures (forall k :: 0 <= k < |ms| ==> ms[k].test > 0) ==> r > 0
  {
    if ms == [] then 1 else TestProduct(ms[..|ms| - 1]) * ms[|ms| - 1].test
  }

  function PartOne(ms: seq<Monkey>): int
    requires Valid(ms)
  {
    MonkeyBusiness(Counts(Rounds(ms, 20, DivideByThree())))
  }

  function PartTwo(ms: seq<Monkey>): int
    requires Valid(ms)
  {
    MonkeyBusiness(Counts(Rounds(ms, 10000, Modulo(TestProduct(ms)))))
  }

  /** Part one's relief. */
  function DivideByThree(): nat -> nat
  {
    w => w / 3
  }

  /** Part two's relief: reduction modulo `l`. */
  function Modulo(l: nat): nat -> nat
    requires l > 0
  {
    w => w % l
  }

  /** No relief at all: the worry levels part two stands for. */
  function Unrelieved(): nat -> nat
  {
    w => w
  }

  // ---------------------------------------------------------------------
  // The two largest counts

  lemma {:induction false} TwoOccurrences(s: seq<int>, j1: nat, j2: nat)
    requires j1 < j2 < |s| && s[j1] == s[j2]
    ensures multiset(s)[s[j1]] >= 2
  {
    assert s == s[..j1] + [s[j1]] + s[j1 + 1..j2] + [s[j2]] + s[j2 + 1..];
  }

  lemma {:induction false} OneOccurrence(s: seq<int>, p: nat, v: int)
    requires p < |s| && forall j :: 0 <= j < |s| && j != p ==> s[j] != v
    ensures multiset(s)[v] <= 1
  {
    var front, back := s[..p], s[p + 1..];
    assert s == front + [s[p]] + back;
    assert forall j :: 0 <= j < |front| ==> front[j] != v;
    assert forall j :: 0 <= j < |back| ==> back[j] == s[p + 1 + j];
    assert v !in front && v !in back;
  }

  /** `MonkeyBusiness` multiplies the largest count by the second largest:
      the two factors are the counts of two different monkeys, the first is
      at least every count, and the second at least the smaller of any two
      counts of different monkeys. */
  lemma MonkeyBusinessTopTwo(counts: seq<int>)
    requires |counts| >= 2
    ensures exists top, second ::
      MonkeyBusiness(counts) == top * second &&
      (exists k1, k2 :: 0 <= k1 < |counts| && 0 <= k2 < |counts| && k1 != k2 &&
         counts[k1] == top && counts[k2] == second) &&
      second <= top &&
      (forall k :: 0 <= k < |counts| ==> counts[k] <= top) &&
      (forall k1, k2 :: 0 <= k1 < k2 < |counts| ==> Min(counts[k1], counts[k2]) <= second)
  {
    var s := SortDesc(counts);
    SortDescHead(counts);
    var i1, i2 := TopTwoIndices(counts, s);
    forall k1, k2 | 0 <= k1 < k2 < |counts|
      ensures Min(counts[k1], counts[k2]) <= s[1]
    {
      SecondAtLeast(counts, s, k1, k2);
    }
    assert MonkeyBusiness(counts) == s[0] * s[1];
  }

  /** The first two entries of a permutation sit at two different indices
      of the original. */
  lemma TopTwoIndices(counts: seq<int>, s: seq<int>) returns (i1: nat, i2: nat)
    requires multiset(s) == multiset(counts) && |s| >= 2
    ensures i1 < |counts| && i2 < |counts| && i1 != i2
    ensures counts[i1] == s[0] && counts[i2] == s[1]
  {
    assert s[0] in multiset(counts) && s[1] in multiset(counts);
    if s[0] == s[1] {
      TwoOccurrences(s, 0, 1);
      i1, i2 := TwoIndices(counts, s[0]);
    } else {
      i1 :| 0 <= i1 < |counts| && counts[i1] == s[0];
      i2 :| 0 <= i2 < |counts| && counts[i2] == s[1];
    }
  }

  /** A value occurring at least twice sits at two different indices. */
  lemma TwoIndices(s: seq<int>, v: int) returns (i1: nat, i2: nat)
    requires multiset(s)[v] >= 2
    ensures i1 < |s| && i2 < |s| && i1 != i2 && s[i1] == v && s[i2] == v
  {
    assert v in multiset(s);
    i1 :| 0 <= i1 < |s| && s[i1] == v;
    var rest := s[..i1] + s[i1 + 1..];
    assert s == s[..i1] + [s[i1]] + s[i1 + 1..];
    assert multiset(s) == multiset(rest) + multiset{v};
    assert v in multiset(rest);
    var j :| 0 <= j < |rest| && rest[j] == v;
    i2 := if j < i1 then j else j + 1;
  }

  /** In a descending permutation, the second element is at least the
      smaller of any two entries of the original. */
  lemma SecondAtLeast(counts: seq<int>, s: seq<int>, k1: nat, k2: nat)
    requires SortedDesc(s) && multiset(s) == multiset(counts)
    requires k1 < k2 < |counts| && |s| >= 2
    ensures Min(counts[k1], counts[k2]) <= s[1]
  {
    if Min(counts[k1], counts[k2]) > s[1] {
      assert counts[k1] in multiset(s) && counts[k2] in multiset(s);
      var j1 :| 0 <= j1 < |s| && s[j1] == counts[k1];
      var j2 :| 0 <= j2 < |s| && s[j2] == counts[k2];
      assert j1 == 0 && j2 == 0;
      TwoOccurrences(counts, k1, k2);
      OneOccurrence(s, 0, counts[k1]);
    }
  }

  // ---------------------------------------------------------------------
  // Reduction modulo the product of the tests (part two)

  lemma MulNonNegative(a: int, b: int)
    requires a >= 0 && b >= 0
    ensures a * b >= 0
  {
  }

  lemma MulAtLeast(a: int, m: int)
    requires a >= 1 && m > 0
    ensures a * m >= m
  {
    MulNonNegative(a - 1, m);
    assert a * m == (a - 1) * m + m;
  }

  lemma DivModUnique(x: int, q: int, r: int, m: int)
    requires m > 0 && 0 <= r < m && x == q * m + r
    ensures x % m == r
  {
    var q', r' := x / m, x % m;
    assert x == q' * m + r';
    if q > q' {
      assert (q - q') * m == r' - r;
      MulAtLeast(q - q', m);
    } else if q < q' {
      assert (q' - q) * m == r - r';
      MulAtLeast(q' - q, m);
    }
  }

  lemma ModOfMultiple(a: nat, k: nat, m: nat)
    requires m > 0
    ensures (k * m + a) % m == a % m
  {
    var q, r := a / m, a % m;
    assert a == q * m + r;
    assert k * m + a == (k + q) * m + r;
    DivModUnique(k * m + a, k + q, r, m);
  }

  /** Reducing modulo a multiple of `t` keeps the remainder modulo `t`. */
  lemma ModOfMod(a: nat, l: nat, t: nat)
    requires l > 0 && t > 0 && l % t == 0
    ensures (a % l) % t == a % t
  {
    var k := l / t;
    assert l == k * t;
    var c := a / l * k;
    assert a == c * t + a % l;
    ModOfMultiple(a % l, c, t);
  }
  /** Numbers with the same remainder modulo `l` differ by a multiple of it. */
  lemma SameRemainder(x: nat, y: nat, l: nat) returns (qx: nat, qy: nat, r: nat)
    requires l > 0 && x % l == y % l
    ensures x == qx * l + r && y == qy * l + r
  {
    qx, qy, r := x / l, y / l, x % l;
  }

  /** Each operation respects congruence modulo `l`. */
  lemma ApplyCongruent(op: Operation, x: nat, y: nat, l: nat)
    requires l > 0 && x % l == y % l
    ensures Apply(op, x) % l == Apply(op, y) % l
  {
    var qx, qy, r := SameRemainder(x, y, l);
    match op
    case Add(n) =>
      assert x + n == qx * l + (r + n) && y + n == qy * l + (r + n);
      ModOfMultiple(r + n, qx, l);
      ModOfMultiple(r + n, qy, l);
    case Mul(n) =>
      MulCongruent(qx, r, n, l);
      MulCongruent(qy, r, n, l);
    case Square =>
      SquareCongruent(qx, r, l);
      SquareCongruent(qy, r, l);
  }

  lemma MulCongruent(q: nat, r: nat, n: nat, l: nat)
    requires l > 0
    ensures ((q * l + r) * n) % l == (r * n) % l
  {
    assert (q * l + r) * n == (q * n) * l + r * n;
    ModOfMultiple(r * n, q * n, l);
  }

  lemma SquareCongruent(q: nat, r: nat, l: nat)
    requires l > 0
    ensures ((q * l + r) * (q * l + r)) % l == (r * r) % l
  {
    assert (q * l + r) * (q * l + r) == (q * q * l + 2 * q * r) * l + r * r;
    ModOfMultiple(r * r, q * q * l + 2 * q * r, l);
  }

  /** `l` is a multiple of every monkey's test. */
  predicate DividesAll(ms: seq<Monkey>, l: nat)
  {
    l > 0 && forall k :: 0 <= k < |ms| ==> ms[k].test > 0 && l % ms[k].test == 0
  }

  lemma {:induction false} TestProductDividesAll(ms: seq<Monkey>)
    requires forall k :: 0 <= k < |ms| ==> ms[k].test > 0
    ensures DividesAll(ms, TestProduct(ms))
    decreases |ms|
  {
    if ms != [] {
      var init := ms[..|ms| - 1];
      var t := ms[|ms| - 1].test;
      TestProductDividesAll(init);
      var p := TestProduct(init);
      forall k | 0 <= k < |ms|
        ensures TestProduct(ms) % ms[k].test == 0
      {
        if k < |ms| - 1 {
          assert init[k] == ms[k];
          var c := p / ms[k].test;
          assert p == c * ms[k].test;
          assert p * t == (c * t) * ms[k].test;
          ModOfMultiple(0, c * t, ms[k].test);
        } else {
          ModOfMultiple(0, p, t);
        }
      }
    }
  }

  /** Two queues of the same length whose worry levels agree modulo `l`. */
  predicate QueuesCongruent(x: seq<nat>, y: seq<nat>, l: nat)
    requires l > 0
  {
    |x| == |y| && forall j :: 0 <= j < |x| ==> x[j] % l == y[j] % l
  }

  /** Two states that agree on everything except that corresponding worry
      levels need only agree modulo `l`. */
  predicate Congruent(a: seq<Monkey>, b: seq<Monkey>, l: nat)
    requires l > 0
  {
    SameShape(a, b) &&
    forall k :: 0 <= k < |a| ==>
      a[k].count == b[k].count && QueuesCongruent(a[k].items, b[k].items, l)
  }

  lemma QueuesCongruentTail(x: seq<nat>, y: seq<nat>, l: nat)
    requires l > 0 && QueuesCongruent(x, y, l) && x != []
    ensures QueuesCongruent(x[1..], y[1..], l)
  {
    assert forall j :: 0 <= j < |x| - 1 ==> x[1..][j] == x[j + 1] && y[1..][j] == y[j + 1];
  }

  lemma QueuesCongruentPush(x: seq<nat>, y: seq<nat>, u: nat, v: nat, l: nat)
    requires l > 0 && QueuesCongruent(x, y, l) && u % l == v % l
    ensures QueuesCongruent(x + [u], y + [v], l)
  {
    assert forall j :: 0 <= j < |x| ==> (x + [u])[j] == x[j] && (y + [v])[j] == y[j];
  }

  /** The same throw on congruent states with congruent worry levels keeps
      them congruent. */
  lemma ThrowCongruent(a: seq<Monkey>, b: seq<Monkey>, i: nat, d: nat, u: nat, v: nat, l: nat)
    requires l > 0 && Congruent(a, b, l) && i < |a| && d < |a| && i != d
    requires a[i].items != [] && b[i].items != [] && u % l == v % l
    ensures Congruent(Throw(a, i, d, u), Throw(b, i, d, v), l)
  {
    var ra, rb := Throw(a, i, d, u), Throw(b, i, d, v);
    QueuesCongruentTail(a[i].items, b[i].items, l);
    QueuesCongruentPush(a[d].items, b[d].items, u, v, l);
    assert ra[i].items == a[i].items[1..] && rb[i].items == b[i].items[1..];
    assert ra[d].items == a[d].items + [u] && rb[d].items == b[d].items + [v];
    forall k | 0 <= k < |a|
      ensures ra[k].count == rb[k].count && QueuesCongruent(ra[k].items, rb[k].items, l)
    {
    }
  }

  /** Reduction modulo a multiple of every test picks the same target and
      a congruent worry level. */
  lemma WorryCongruent(m: Monkey, x: nat, y: nat, l: nat)
    requires m.test > 0 && |m.targets| == 2 && l > 0 && l % m.test == 0 && x % l == y % l
    ensures (Apply(m.op, x) % l) % l == Apply(m.op, y) % l
    ensures Dest(m, Apply(m.op, x) % l) == Dest(m, Apply(m.op, y))
  {
    var Monkey(test, _, op, targets, _) := m;
    var p, q := Apply(op, x), Apply(op, y);
    ApplyCongruent(op, x, y, l);
    ReducedTest(p, q, l, test);
  }

  /** Reducing a worry level modulo `l` keeps it congruent and keeps the
      outcome of a test that divides `l`. */
  lemma ReducedTest(p: nat, q: nat, l: nat, t: nat)
    requires l > 0 && t > 0 && l % t == 0 && p % l == q % l
    ensures (p % l) % l == q % l
    ensures ((p % l) % t == 0) == (q % t == 0)
  {
    var r := p % l;
    ModOfMod(p, l, l);
    ModOfMod(p, l, t);
    ModOfMod(q, l, t);
    assert r % t == q % t;
  }

  lemma InspectCongruent(a: seq<Monkey>, b: seq<Monkey>, i: nat, l: nat)
    requires Valid(a) && DividesAll(a, l) && Congruent(a, b, l)
    requires i < |a| && a[i].items != []
    ensures Valid(b) && b[i].items != []
    ensures Congruent(Inspect(a, i, Modulo(l)), Inspect(b, i, Unrelieved()), l)
  {
    SameShapeValid(a, b);
    var wa := Apply(a[i].op, a[i].items[0]) % l;
    var wb := Apply(b[i].op, b[i].items[0]);
    WorryCongruent(a[i], a[i].items[0], b[i].items[0], l);
    ThrowCongruent(a, b, i, Dest(a[i], wa), wa, wb, l);
  }

  lemma {:induction false} TurnCongruent(a: seq<Monkey>, b: seq<Monkey>, i: nat, l: nat)
    requires Valid(a) && DividesAll(a, l) && Congruent(a, b, l) && i < |a|
    ensures Valid(b)
    ensures Congruent(Turn(a, i, Modulo(l)), Turn(b, i, Unrelieved()), l)
    decreases |a[i].items|
  {
    SameShapeValid(a, b);
    if a[i].items != [] {
      InspectCongruent(a, b, i, l);
      DividesAllSameShape(a, Inspect(a, i, Modulo(l)), l);
      TurnCongruent(Inspect(a, i, Modulo(l)), Inspect(b, i, Unrelieved()), i, l);
    }
  }

  lemma {:induction false} RoundFromCongruent(a: seq<Monkey>, b: seq<Monkey>, i: nat, l: nat)
    requires Valid(a) && DividesAll(a, l) && Congruent(a, b, l) && i <= |a|
    ensures Valid(b)
    ensures Congruent(RoundFrom(a, i, Modulo(l)), RoundFrom(b, i, Unrelieved()), l)
    decreases |a| - i
  {
    SameShapeValid(a, b);
    if i < |a| {
      DividesAllSameShape(a, Turn(a, i, Modulo(l)), l);
      TurnCongruent(a, b, i, l);
      RoundFromCongruent(Turn(a, i, Modulo(l)), Turn(b, i, Unrelieved()), i + 1, l);
    }
  }

  /** One round of each kind keeps congruent states congruent. */
  lemma RoundCongruent(a: seq<Monkey>, b: seq<Monkey>, l: nat)
    requires Valid(a) && DividesAll(a, l) && Congruent(a, b, l)
    ensures Valid(b)
    ensures DividesAll(Round(a, Modulo(l)), l)
    ensures Congruent(Round(a, Modulo(l)), Round(b, Unrelieved()), l)
  {
    SameShapeValid(a, b);
    RoundFromCongruent(a, b, 0, l);
    DividesAllSameShape(a, Round(a, Modulo(l)), l);
  }

  lemma {:induction false} RoundsCongruent(a: seq<Monkey>, b: seq<Monkey>, n: nat, l: nat)
    requires Valid(a) && DividesAll(a, l) && Congruent(a, b, l)
    ensures Valid(b)
    ensures Congruent(Rounds(a, n, Modulo(l)), Rounds(b, n, Unrelieved()), l)
    decreases n
  {
    RoundCongruent(a, b, l);
    if n > 0 {
      RoundsCongruent(Round(a, Modulo(l)), Round(b, Unrelieved()), n - 1, l);
    }
  }

  lemma DividesAllSameShape(a: seq<Monkey>, b: seq<Monkey>, l: nat)
    requires DividesAll(a, l) && SameShape(a, b)
    ensures DividesAll(b, l)
  {
  }

  lemma CongruentCounts(a: seq<Monkey>, b: seq<Monkey>, l: nat)
    requires l > 0 && Congruent(a, b, l)
    ensures Counts(a) == Counts(b)
  {
  }

  lemma CongruentReflexive(ms: seq<Monkey>, l: nat)
    requires l > 0
    ensures Congruent(ms, ms, l)
  {
  }

  /** Part two's reduction changes no routing decision: after any number of
      rounds, the counts are those of the same rounds on unreduced worry
      levels, so part two's answer is the unreduced simulation's. */
  lemma PartTwoMatchesUnreduced(ms: seq<Monkey>, n: nat)
    requires Valid(ms)
    ensures Counts(Rounds(ms, n, Modulo(TestProduct(ms)))) == Counts(Rounds(ms, n, Unrelieved()))
  {
    var lcm := TestProduct(ms);
    TestProductDividesAll(ms);
    CongruentReflexive(ms, lcm);
    RoundsCongruent(ms, ms, n, lcm);
    CongruentCounts(Rounds(ms, n, Modulo(lcm)), Rounds(ms, n, Unrelieved()), lcm);
  }

  lemma PartTwoUnreduced(ms: seq<Monkey>)
    requires Valid(ms)
    ensures PartTwo(ms) == MonkeyBusiness(Counts(Rounds(ms, 10000, Unrelieved())))
  {
    PartTwoMatchesUnreduced(ms, 10000);
  }

  // ---------------------------------------------------------------------
  // Parsing

  /** Rust's `trim_end_matches(',')`. */
  function TrimEndCommas(s: string): (r: string)
    ensures |r| <= |s| && r == s[..|r|]
    ensures r == [] || r[|r| - 1] != ','
  {
    if s != [] && s[|s| - 1] == ',' then TrimEndCommas(s[..|s| - 1]) else s
  }

  /** The words that are numbers once trailing commas are trimmed, in order
      (`filter_map` over `parse().ok()`). */
  function NumbersIn(words: seq<string>): seq<nat>
  {
    if words == [] then [] else NumberIn(words[0]) + NumbersIn(words[1..])
  }

  /** The number a word holds, if any. */
  function NumberIn(word: string): seq<nat>
  {
    match ParseNat(TrimEndCommas(word)) case Some(n) => [n] case None => []
  }

  /** `parse_items`. */
  function ParseItems(line: string): seq<nat>
  {
    NumbersIn(Words(line))
  }

  /** A line that does not reach the `unreachable!` of `parse_op`: the word
      before the last is an operator the monkeys use. */
  predicate OpWellFormed(line: string)
  {
    var w := Words(line);
    |w| < 2 || w[|w| - 2] == "*" || w[|w| - 2] == "+"
  }

  /** `parse_op`: the last two words are the operator and its right-hand
      side; `old * old` squares and `old + old` doubles. */
  function ParseOp(line: string): Option<Operation>
    requires OpWellFormed(line)
  {
    var w := Words(line);
    if |w| < 2 then None
    else
      var rhs, sym := w[|w| - 1], w[|w| - 2];
      if rhs == "old" then Some(if sym == "*" then Square else Mul(2))
      else
        match ParseNat(rhs)
        case None => None
        case Some(n) => Some(if sym == "*" then Mul(n) else Add(n))
  }

  /** `parse_test`: the last word as a number. */
  function ParseTest(line: string): Option<nat>
  {
    var w := Words(line);
    if w == [] then None else ParseNat(Last(w))
  }

  /** `parse_decisions`: the last words of the "If true" and "If false"
      lines, stored as [if false, if true]. */
  function ParseDecisions(ifTrue: string, ifFalse: string): Option<seq<nat>>
  {
    var t, f := Words(ifTrue), Words(ifFalse);
    if t == [] || f == [] then None
    else
      match (ParseNat(Last(f)), ParseNat(Last(t)))
      case (Some(onFalse), Some(onTrue)) => Some([onFalse, onTrue])
      case _ => None
  }

  /** One chunk of seven lines: the header is skipped and a missing line or
      a failed parse drops the monkey. */
  function ParseMonkey(chunk: seq<string>): Option<Monkey>
    requires |chunk| > 2 ==> OpWellFormed(chunk[2])
  {
    if |chunk| < 6 then None
    else
      match (ParseOp(chunk[2]), ParseTest(chunk[3]), ParseDecisions(chunk[4], chunk[5]))
      case (Some(op), Some(test), Some(targets)) => Some(Monkey(test, 0, op, targets, ParseItems(chunk[1])))
      case _ => None
  }

  /** The operation line of every chunk is well formed. */
  predicate OpLinesOk(lines: seq<string>)
    decreases |lines|
  {
    lines == [] ||
    ((|lines| > 2 ==> OpWellFormed(lines[2])) && (|lines| <= 7 || OpLinesOk(lines[7..])))
  }

  /** `parse_input`: the lines in chunks of seven (itertools' `chunks`, the
      last one possibly shorter). */
  function ParseInput(lines: seq<string>): seq<Monkey>
    requires OpLinesOk(lines)
    decreases |lines|
  {
    if lines == [] then []
    else
      var chunk := if |lines| <= 7 then lines else lines[..7];
      (match ParseMonkey(chunk) case Some(m) => [m] case None => [])
      + (if |lines| <= 7 then [] else ParseInput(lines[7..]))
  }

  // ---------------------------------------------------------------------
  // The puzzle's notes, written out

  const ItemsLabel := "  Starting items:"

  /** Worry levels separated by ", ". */
  function Listing(items: seq<nat>): string
    requires items != []
  {
    if |items| == 1 then NatToString(items[0])
    else NatToString(items[0]) + "," + " " + Listing(items[1..])
  }

  function ItemsLine(items: seq<nat>): string
  {
    if items == [] then ItemsLabel else ItemsLabel + " " + Listing(items)
  }

  function OpLine(op: Operation): string
  {
    var lhs := "  Operation: new = old";
    match op
    case Square => lhs + " " + "*" + " " + "old"
    case Mul(n) => lhs + " " + "*" + " " + NatToString(n)
    case Add(n) => lhs + " " + "+" + " " + NatToString(n)
  }

  function TestLine(test: nat): string
  {
    "  Test: divisible by" + " " + NatToString(test)
  }

  function DecisionLine(outcome: bool, target: nat): string
  {
    (if outcome then "    If true: throw to monkey" else "    If false: throw to monkey")
    + " " + NatToString(target)
  }

  /** The six lines describing monkey `k`. */
  function MonkeyLines(k: nat, m: Monkey): (r: seq<string>)
    requires |m.targets| == 2
    ensures |r| == 6
  {
    ["Monkey " + NatToString(k) + ":", ItemsLine(m.items), OpLine(m.op), TestLine(m.test),
     DecisionLine(true, m.targets[1]), DecisionLine(false, m.targets[0])]
  }

  /** Monkeys `k`, `k + 1`, ..., their descriptions separated by blank
      lines. */
  function Notes(ms: seq<Monkey>, k: nat): seq<string>
    requires forall j :: 0 <= j < |ms| ==> |ms[j].targets| == 2
    decreases |ms|
  {
    if ms == [] then []
    else if |ms| == 1 then MonkeyLines(k, ms[0])
    else MonkeyLines(k, ms[0]) + [""] + Notes(ms[1..], k + 1)
  }

  // ---------------------------------------------------------------------
  // Parsing the notes back

  predicate NoDigit(s: string)
  {
    forall i :: 0 <= i < |s| ==> !IsDigit(s[i])
  }

  lemma {:induction false} SplitNoDigit(s: string, isSep: char -> bool)
    requires NoDigit(s)
    ensures forall k :: 0 <= k < |Split(s, isSep)| ==> NoDigit(Split(s, isSep)[k])
    decreases |s|
  {
    if s != [] {
      SplitNoDigit(s[1..], isSep);
    }
  }

  lemma {:induction false} NonEmptyNoDigit(pieces: seq<string>)
    requires forall k :: 0 <= k < |pieces| ==> NoDigit(pieces[k])
    ensures forall k :: 0 <= k < |NonEmpty(pieces)| ==> NoDigit(NonEmpty(pieces)[k])
    decreases |pieces|
  {
    if pieces != [] {
      NonEmptyNoDigit(pieces[1..]);
    }
  }

  lemma {:induction false} NumbersInNoDigit(words: seq<string>)
    requires forall k :: 0 <= k < |words| ==> NoDigit(words[k])
    ensures NumbersIn(words) == []
    decreases |words|
  {
    if words != [] {
      var t := TrimEndCommas(words[0]);
      assert NoDigit(t) by {
        assert forall i :: 0 <= i < |t| ==> t[i] == words[0][i];
      }
      if |t| > 0 && t[0] == '+' {
        assert |t[1..]| == 0 || !IsDigit(t[1..][0]);
      } else {
        assert |t| == 0 || !IsDigit(t[0]);
      }
      NumbersInNoDigit(words[1..]);
    }
  }

  /** A line without digits holds no items. */
  lemma ParseItemsNoDigit(line: string)
    requires NoDigit(line)
    ensures ParseItems(line) == []
  {
    SplitNoDigit(line, IsWhitespace);
    NonEmptyNoDigit(Split(line, IsWhitespace));
    NumbersInNoDigit(Words(line));
  }

  lemma {:induction false} NumbersInAppend(a: seq<string>, b: seq<string>)
    ensures NumbersIn(a + b) == NumbersIn(a) + NumbersIn(b)
    decreases |a|
  {
    if a == [] {
      assert a + b == b;
    } else {
      assert (a + b)[0] == a[0] && (a + b)[1..] == a[1..] + b;
      NumbersInAppend(a[1..], b);
    }
  }

  lemma NumberWithComma(n: nat)
    ensures Words(NatToString(n) + ",") == [NatToString(n) + ","]
    ensures NumbersIn([NatToString(n) + ","]) == [n]
  {
    var s := NatToString(n);
    WordsOfWord(s + ",");
    assert TrimEndCommas(s + ",") == TrimEndCommas(s) == s by {
      assert (s + ",")[..|s|] == s;
    }
    ParseNatOfNatToString(n);
  }

  lemma NumberAlone(n: nat)
    ensures Words(NatToString(n)) == [NatToString(n)]
    ensures NumbersIn([NatToString(n)]) == [n]
  {
    DigitsAreOneWord(NatToString(n));
    ParseNatOfNatToString(n);
  }

  lemma {:induction false} ListingNumbers(items: seq<nat>)
    requires items != []
    ensures NumbersIn(Words(Listing(items))) == items
    decreases |items|
  {
    if |items| == 1 {
      NumberAlone(items[0]);
    } else {
      ListingNumbers(items[1..]);
      ListingStep(items[0], items[1..]);
      assert items == [items[0]] + items[1..];
    }
  }

  lemma ListingStep(x: nat, rest: seq<nat>)
    requires rest != []
    ensures NumbersIn(Words(Listing([x] + rest))) == [x] + NumbersIn(Words(Listing(rest)))
  {
    var head := NatToString(x) + ",";
    assert ([x] + rest)[1..] == rest;
    assert Listing([x] + rest) == head + " " + Listing(rest);
    WordsJoin(head, Listing(rest));
    NumberWithComma(x);
    NumbersInAppend([head], Words(Listing(rest)));
  }

  /** `parse_items` reads back the worry levels of a "Starting items" line,
      in order. */
  lemma ParseItemsLine(items: seq<nat>)
    ensures ParseItems(ItemsLine(items)) == items
  {
    LabelHoldsNoItems();
    if items != [] {
      var listing := Listing(items);
      assert ItemsLine(items) == ItemsLabel + " " + listing;
      WordsJoin(ItemsLabel, listing);
      NumbersInAppend(Words(ItemsLabel), Words(listing));
      ListingNumbers(items);
    }
  }

  lemma LabelHoldsNoItems()
    ensures NumbersIn(Words(ItemsLabel)) == []
  {
    assert NoDigit(ItemsLabel);
    ParseItemsNoDigit(ItemsLabel);
  }

  /** The last two words of `p a b`. */
  lemma LastTwoWords(p: string, a: string, b: string)
    requires |a| > 0 && NoSep(a, IsWhitespace) && |b| > 0 && NoSep(b, IsWhitespace)
    ensures var w := Words(p + " " + a + " " + b);
      |w| >= 2 && w[|w| - 2] == a && w[|w| - 1] == b
  {
    WordsJoin(p + " " + a, b);
    WordsJoin(p, a);
    WordsOfWord(a);
    WordsOfWord(b);
  }

  lemma LastWord(p: string, n: nat)
    ensures var w := Words(p + " " + NatToString(n));
      w != [] && Last(w) == NatToString(n)
  {
    WordsJoin(p, NatToString(n));
    DigitsAreOneWord(NatToString(n));
  }

  /** An operator followed by a number. */
  lemma ParseOpNumber(line: string, lhs: string, sym: string, n: nat)
    requires sym == "*" || sym == "+"
    requires line == lhs + " " + sym + " " + NatToString(n)
    ensures OpWellFormed(line)
    ensures ParseOp(line) == Some(if sym == "*" then Mul(n) else Add(n))
  {
    LastTwoWords(lhs, sym, NatToString(n));
    ParseOpLastWords(line, sym, n);
  }

  /** An operation line ending in a symbol and a number. */
  lemma ParseOpLastWords(line: string, sym: string, n: nat)
    requires sym == "*" || sym == "+"
    requires var w := Words(line); |w| >= 2 && w[|w| - 2] == sym && w[|w| - 1] == NatToString(n)
    ensures OpWellFormed(line)
    ensures ParseOp(line) == Some(if sym == "*" then Mul(n) else Add(n))
  {
    var num := NatToString(n);
    assert num != "old" by {
      assert IsDigit(num[0]);
    }
    ParseNatOfNatToString(n);
  }

  lemma ParseOpLine(op: Operation)
    ensures OpWellFormed(OpLine(op)) && ParseOp(OpLine(op)) == Some(op)
  {
    var lhs := "  Operation: new = old";
    match op
    case Square =>
      LastTwoWords(lhs, "*", "old");
    case Mul(n) =>
      ParseOpNumber(OpLine(op), lhs, "*", n);
    case Add(n) =>
      ParseOpNumber(OpLine(op), lhs, "+", n);
  }

  /** "old + old" becomes `Mul(2)`, which computes the same new worry
      level. */
  lemma ParseOpOldPlusOld(lhs: string, worry: nat)
    ensures OpWellFormed(lhs + " " + "+" + " " + "old")
    ensures ParseOp(lhs + " " + "+" + " " + "old") == Some(Mul(2))
    ensures Apply(Mul(2), worry) == worry + worry
  {
    LastTwoWords(lhs, "+", "old");
  }

  lemma ParseTestLine(test: nat)
    ensures ParseTest(TestLine(test)) == Some(test)
  {
    LastWord("  Test: divisible by", test);
    ParseNatOfNatToString(test);
  }

  /** The two decision lines are stored as [if false, if true], so the
      monkey they are parsed for throws to the "If true" monkey exactly when
      the worry level is divisible by its test. */
  lemma ParseDecisionsRoute(onTrue: nat, onFalse: nat, m: Monkey, worry: nat)
    requires ParseDecisions(DecisionLine(true, onTrue), DecisionLine(false, onFalse)) == Some(m.targets)
    requires m.test > 0
    ensures |m.targets| == 2
    ensures Dest(m, worry) == if worry % m.test == 0 then onTrue else onFalse
  {
    ParseDecisionsLines(onTrue, onFalse);
  }

  lemma ParseDecisionsLines(onTrue: nat, onFalse: nat)
    ensures ParseDecisions(DecisionLine(true, onTrue), DecisionLine(false, onFalse)) == Some([onFalse, onTrue])
  {
    LastWord("    If true: throw to monkey", onTrue);
    LastWord("    If false: throw to monkey", onFalse);
    ParseNatOfNatToString(onTrue);
    ParseNatOfNatToString(onFalse);
  }

  /** A monkey's lines, with or without the blank line after them, parse
      back to the monkey with no inspections counted. */
  lemma ParseMonkeyLines(k: nat, m: Monkey, chunk: seq<string>)
    requires |m.targets| == 2 && m.count == 0
    requires 6 <= |chunk| && chunk[..6] == MonkeyLines(k, m)
    ensures OpWellFormed(chunk[2]) && ParseMonkey(chunk) == Some(m)
  {
    var Monkey(test, _, op, targets, items) := m;
    var lines := MonkeyLines(k, m);
    assert chunk[1] == lines[1] == ItemsLine(items);
    assert chunk[2] == lines[2] == OpLine(op);
    assert chunk[3] == lines[3] == TestLine(test);
    assert chunk[4] == lines[4] == DecisionLine(true, targets[1]);
    assert chunk[5] == lines[5] == DecisionLine(false, targets[0]);
    ParseItemsLine(items);
    ParseOpLine(op);
    ParseTestLine(test);
    ParseDecisionsLines(targets[1], targets[0]);
    ParseMonkeyFields(chunk, op, test, targets);
  }

  /** A chunk whose fields each parse gives the monkey made of them. */
  lemma ParseMonkeyFields(chunk: seq<string>, op: Operation, test: nat, targets: seq<nat>)
    requires 6 <= |chunk| && |targets| == 2 && OpWellFormed(chunk[2])
    requires ParseOp(chunk[2]) == Some(op) && ParseTest(chunk[3]) == Some(test)
    requires ParseDecisions(chunk[4], chunk[5]) == Some([targets[0], targets[1]])
    ensures ParseMonkey(chunk) == Some(Monkey(test, 0, op, targets, ParseItems(chunk[1])))
  {
    assert [targets[0], targets[1]] == targets;
  }

  lemma ParseInputCons(lines: seq<string>, chunk: seq<string>, rest: seq<string>, m: Monkey)
    requires lines == chunk + rest
    requires |chunk| == 7 && rest != [] && OpWellFormed(chunk[2]) && OpLinesOk(rest)
    requires ParseMonkey(chunk) == Some(m)
    ensures OpLinesOk(lines) && ParseInput(lines) == [m] + ParseInput(rest)
  {
    assert lines[..7] == chunk && lines[7..] == rest && lines[2] == chunk[2];
  }

  lemma NotesCons(ms: seq<Monkey>, k: nat, chunk: seq<string>, rest: seq<string>)
    requires |ms| > 1 && forall j :: 0 <= j < |ms| ==> |ms[j].targets| == 2
    requires chunk == MonkeyLines(k, ms[0]) + [""] && rest == Notes(ms[1..], k + 1)
    ensures Notes(ms, k) == chunk + rest
  {
  }

  /** `parse_input` reads back the monkeys from their notes. */
  lemma {:induction false} ParseInputNotes(ms: seq<Monkey>, k: nat)
    requires forall j :: 0 <= j < |ms| ==> |ms[j].targets| == 2 && ms[j].count == 0
    ensures OpLinesOk(Notes(ms, k)) && ParseInput(Notes(ms, k)) == ms
    decreases |ms|
  {
    if |ms| == 1 {
      ParseOneMonkeyNotes(ms[0], k, Notes(ms, k));
    } else if |ms| > 1 {
      var m, tail := ms[0], ms[1..];
      var chunk := MonkeyLines(k, m) + [""];
      var rest := Notes(tail, k + 1);
      NotesCons(ms, k, chunk, rest);
      ParseInputNotes(tail, k + 1);
      ParseMonkeyChunk(k, m, chunk);
      ParseInputCons(Notes(ms, k), chunk, rest, m);
      assert ms == [m] + tail;
    }
  }

  lemma ParseOneMonkeyNotes(m: Monkey, k: nat, lines: seq<string>)
    requires |m.targets| == 2 && m.count == 0 && lines == MonkeyLines(k, m)
    ensures OpLinesOk(lines) && ParseInput(lines) == [m]
  {
    assert lines[..6] == lines;
    ParseMonkeyLines(k, m, lines);
  }

  lemma ParseMonkeyChunk(k: nat, m: Monkey, chunk: seq<string>)
    requires |m.targets| == 2 && m.count == 0 && chunk == MonkeyLines(k, m) + [""]
    ensures |chunk| == 7 && OpWellFormed(chunk[2]) && ParseMonkey(chunk) == Some(m)
  {
    assert chunk[..6] == MonkeyLines(k, m);
    ParseMonkeyLines(k, m, chunk);
  }
}
