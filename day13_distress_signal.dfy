/** Day 13 (13/src/lib.rs): packets are integers or nested lists, read by a
    recursive-descent parser over a peekable character cursor and ordered by
    a comparison that is lexicographic on lists and wraps a lone integer
    into a one-element list when it meets a list. */
module DistressSignal {
  import opened Common

  datatype Packet = Integer(n: nat) | List(items: seq<Packet>)

  datatype Ordering = Less | Equal | Greater

  function Reversed(o: Ordering): Ordering
  {
    match o
    case Less => Greater
    case Equal => Equal
    case Greater => Less
  }

  /** Number of constructors in a packet; the measure the comparison and
      the parser's proofs descend on. */
  function Size(p: Packet): (s: nat)
    ensures s >= 1
    decreases p
  {
    match p
    case Integer(_) => 1
    case List(l) => 1 + SizeOfAll(l)
  }

  function SizeOfAll(l: seq<Packet>): (s: nat)
    ensures s >= |l|
    decreases l
  {
    if l == [] then 0 else Size(l[0]) + SizeOfAll(l[1..])
  }

  lemma {:induction false} SizeOfElement(l: seq<Packet>, i: nat)
    requires i < |l|
    ensures Size(l[i]) <= SizeOfAll(l)
    decreases i
  {
    if i > 0 {
      SizeOfElement(l[1..], i - 1);
    }
  }

  // ---------------------------------------------------------------------
  // The order (`impl Ord for Packet`)

  function CmpNat(a: nat, b: nat): Ordering
  {
    if a < b then Less else if a == b then Equal else Greater
  }

  /** The items a packet contributes when it is compared with a list: a
      list's own items, or the one-element list an integer is wrapped in. */
  function AsItems(p: Packet): (r: seq<Packet>)
    ensures SizeOfAll(r) <= Size(p)
    ensures p.List? ==> SizeOfAll(r) < Size(p)
  {
    assert [p][1..] == [];
    match p
    case Integer(_) => [p]
    case List(l) => l
  }

  /** `cmp`: two integers compare as numbers; in every other case both
      sides are compared as lists (an integer facing a list is wrapped). */
  function Cmp(a: Packet, b: Packet): (o: Ordering)
    ensures a.Integer? && b.Integer? ==> ((o == Less <==> a.n < b.n) && (o == Equal <==> a.n == b.n))
    decreases Size(a) + Size(b), 0
  {
    if a.Integer? && b.Integer? then CmpNat(a.n, b.n)
    else CmpLists(AsItems(a), AsItems(b))
  }

  /** The list arm's loop: the first unequal pair of items decides; when one
      side runs out first it is the smaller. */
  function CmpLists(l: seq<Packet>, r: seq<Packet>): Ordering
    decreases SizeOfAll(l) + SizeOfAll(r), 1
  {
    if l == [] && r == [] then Equal
    else if l == [] then Less
    else if r == [] then Greater
    else
      var o := Cmp(l[0], r[0]);
      if o == Equal then CmpLists(l[1..], r[1..]) else o
  }

  /** `PartialEq::eq`. */
  predicate Eq(a: Packet, b: Packet)
  {
    Cmp(a, b) == Equal
  }

  /** Pairs that compare Equal can be skipped. */
  lemma {:induction false} CmpListsSkip(l: seq<Packet>, r: seq<Packet>, k: nat)
    requires k <= |l| && k <= |r|
    requires forall j :: 0 <= j < k ==> Cmp(l[j], r[j]) == Equal
    ensures CmpLists(l, r) == CmpLists(l[k..], r[k..])
    decreases k
  {
    if k > 0 {
      CmpListsSkip(l[1..], r[1..], k - 1);
      assert l[1..][k - 1..] == l[k..] && r[1..][k - 1..] == r[k..];
    }
  }

  /** Lists compare lexicographically: after a run of k Equal pairs, the
      next pair decides, a list that ends first is Less, and two lists that
      end together are Equal. */
  lemma CmpListsLexicographic(l: seq<Packet>, r: seq<Packet>, k: nat)
    requires k <= |l| && k <= |r|
    requires forall j :: 0 <= j < k ==> Cmp(l[j], r[j]) == Equal
    ensures k < |l| && k < |r| && Cmp(l[k], r[k]) != Equal ==> Cmp(List(l), List(r)) == Cmp(l[k], r[k])
    ensures k == |l| && k < |r| ==> Cmp(List(l), List(r)) == Less
    ensures k < |l| && k == |r| ==> Cmp(List(l), List(r)) == Greater
    ensures k == |l| && k == |r| ==> Cmp(List(l), List(r)) == Equal
  {
    CmpListsSkip(l, r, k);
  }

  /** An integer facing a list, on either side, is compared as the
      one-element list holding it. */
  lemma CmpWrapsInteger(n: nat, l: seq<Packet>)
    ensures Cmp(Integer(n), List(l)) == Cmp(List([Integer(n)]), List(l))
    ensures Cmp(List(l), Integer(n)) == Cmp(List(l), List([Integer(n)]))
  {
  }

  lemma {:induction false} CmpReflexive(a: Packet)
    ensures Cmp(a, a) == Equal
    decreases Size(a), 0
  {
    if !a.Integer? {
      CmpListsReflexive(a.items);
    }
  }

  lemma {:induction false} CmpListsReflexive(l: seq<Packet>)
    ensures CmpLists(l, l) == Equal
    decreases SizeOfAll(l), 1
  {
    if l != [] {
      CmpReflexive(l[0]);
      CmpListsReflexive(l[1..]);
    }
  }

  /** Swapping the operands reverses the order (the contract `Ord` asks
      for), so `eq` is symmetric. */
  lemma {:induction false} CmpAntisymmetric(a: Packet, b: Packet)
    ensures Cmp(b, a) == Reversed(Cmp(a, b))
    decreases Size(a) + Size(b), 0
  {
    if !(a.Integer? && b.Integer?) {
      CmpListsAntisymmetric(AsItems(a), AsItems(b));
    }
  }

  lemma {:induction false} CmpListsAntisymmetric(l: seq<Packet>, r: seq<Packet>)
    ensures CmpLists(r, l) == Reversed(CmpLists(l, r))
    decreases SizeOfAll(l) + SizeOfAll(r), 1
  {
    if l != [] && r != [] {
      CmpAntisymmetric(l[0], r[0]);
      CmpListsAntisymmetric(l[1..], r[1..]);
    }
  }

  lemma EqMeansCmpEqual(a: Packet, b: Packet)
    ensures Eq(a, a)
    ensures Eq(a, b) <==> Eq(b, a)
    ensures Eq(a, b) <==> Cmp(a, b) == Equal
  {
    CmpReflexive(a);
    CmpAntisymmetric(a, b);
  }

  /** Every comparison is the list comparison of the two sides' items: for
      two integers, comparing the one-element lists gives the same answer. */
  lemma CmpAsLists(a: Packet, b: Packet)
    ensures Cmp(a, b) == CmpLists(AsItems(a), AsItems(b))
  {
    if a.Integer? && b.Integer? {
      assert CmpLists([a], [b]) == Cmp(a, b) by {
        assert [a][1..] == [] && [b][1..] == [];
      }
    }
  }

  /** "Not Greater" chains: a <= b <= c gives a <= c, and a, c compare Equal
      only when both steps are Equal. */
  predicate ChainsUp(x: Ordering, y: Ordering, z: Ordering)
  {
    x != Greater && y != Greater ==> z != Greater && (z == Equal ==> x == Equal && y == Equal)
  }

  lemma {:induction false} CmpTransitive(a: Packet, b: Packet, c: Packet)
    ensures ChainsUp(Cmp(a, b), Cmp(b, c), Cmp(a, c))
    decreases Size(a) + Size(b) + Size(c), 0
  {
    if !(a.Integer? && b.Integer? && c.Integer?) {
      CmpAsLists(a, b);
      CmpAsLists(b, c);
      CmpAsLists(a, c);
      CmpListsTransitive(AsItems(a), AsItems(b), AsItems(c));
    }
  }

  lemma {:induction false} CmpListsTransitive(l: seq<Packet>, m: seq<Packet>, r: seq<Packet>)
    ensures ChainsUp(CmpLists(l, m), CmpLists(m, r), CmpLists(l, r))
    decreases SizeOfAll(l) + SizeOfAll(m) + SizeOfAll(r), 1
  {
    if l != [] && m != [] && r != [] {
      CmpTransitive(l[0], m[0], r[0]);
      CmpTransitive(r[0], m[0], l[0]);
      CmpAntisymmetric(l[0], m[0]);
      CmpAntisymmetric(m[0], r[0]);
      CmpAntisymmetric(l[0], r[0]);
      CmpListsTransitive(l[1..], m[1..], r[1..]);
    }
  }

  /** `cmp` as the source runs it: the list arm walks both item sequences
      in a loop. */
  method Compare(a: Packet, b: Packet) returns (o: Ordering)
    ensures o == Cmp(a, b)
    decreases Size(a) + Size(b), 0
  {
    if a.Integer? && b.Integer? {
      if a.n < b.n {
        o := Less;
      } else if a.n == b.n {
        o := Equal;
      } else {
        o := Greater;
      }
    } else {
      // An integer facing a list is wrapped, which lands in the list arm.
      o := CompareLists(AsItems(a), AsItems(b));
    }
  }

  method CompareLists(l: seq<Packet>, r: seq<Packet>) returns (o: Ordering)
    ensures o == CmpLists(l, r)
    decreases SizeOfAll(l) + SizeOfAll(r), 1
  {
    var i := 0;
    while true
      invariant i <= |l| && i <= |r|
      invariant SizeOfAll(l[i..]) + SizeOfAll(r[i..]) <= SizeOfAll(l) + SizeOfAll(r)
      invariant CmpLists(l[i..], r[i..]) == CmpLists(l, r)
      decreases |l| - i
    {
      if i < |l| && i < |r| {
        SizeOfElement(l[i..], 0);
        SizeOfElement(r[i..], 0);
        var c := Compare(l[i], r[i]);
        if c != Equal {
          return c;
        }
        assert l[i..][1..] == l[i + 1..] && r[i..][1..] == r[i + 1..];
        i := i + 1;
      } else if i < |l| {
        return Greater;
      } else if i < |r| {
        return Less;
      } else {
        return Equal;
      }
    }
  }

  // ---------------------------------------------------------------------
  // Parsing (`Packet::parse` / `parse_rec`)

  /** What `parse_rec` yields from cursor position `i`, and where it leaves
      the cursor (skipped characters stay consumed even when it yields
      nothing). */
  datatype Parsed = Parsed(packet: Option<Packet>, next: nat)

  /** The end of the run of digits starting at `i`. */
  function DigitRunEnd(s: string, i: nat): (j: nat)
    requires i <= |s|
    ensures i <= j <= |s| && AllDigits(s[i..j]) && (j == |s| || !IsDigit(s[j]))
    decreases |s| - i
  {
    if i < |s| && IsDigit(s[i]) then
      var j := DigitRunEnd(s, i + 1);
      assert forall k :: i + 1 <= k < j ==> s[i + 1..j][k - i - 1] == s[k];
      j
    else i
  }

  /** `parse_rec` from position `i`: end of input or ']' yields nothing; a
      digit run is an integer; '[' collects items until one yields nothing,
      then consumes one more character; anything else is skipped. */
  function ParseAt(s: string, i: nat): (r: Parsed)
    requires i <= |s|
    ensures i <= r.next <= |s|
    ensures r.packet.Some? ==> r.next > i
    decreases |s| - i, 0
  {
    if i == |s| then Parsed(None, i)
    else if IsDigit(s[i]) then
      var j := DigitRunEnd(s, i);
      Parsed(Some(Integer(DigitsValue(s[i..j]))), j)
    else if s[i] == '[' then
      var items := ParseItemsAt(s, i + 1);
      Parsed(Some(List(items.0)), if items.1 < |s| then items.1 + 1 else items.1)
    else if s[i] == ']' then Parsed(None, i)
    else ParseAt(s, i + 1)
  }

  /** The `while let Some(items) = parse_rec(cursor)` loop of the list arm:
      the items read and the cursor position after the attempt that
      yielded nothing. */
  function ParseItemsAt(s: string, i: nat): (r: (seq<Packet>, nat))
    requires i <= |s|
    ensures i <= r.1 <= |s|
    decreases |s| - i, 1
  {
    var first := ParseAt(s, i);
    if first.packet.None? then ([], first.next)
    else
      var rest := ParseItemsAt(s, first.next);
      ([first.packet.value] + rest.0, rest.1)
  }

  /** `Packet::parse`. */
  function Parse(s: string): (r: Option<Packet>)
    ensures |s| == 0 || s[0] == ']' ==> r.None?
  {
    ParseAt(s, 0).packet
  }

  /** `parse_input`: the packets of the lines that yield one (blank lines
      yield none). */
  function ParseInput(lines: seq<string>): (r: seq<Packet>)
    ensures |r| <= |lines|
  {
    if lines == [] then []
    else (match Parse(lines[0]) case Some(p) => [p] case None => []) + ParseInput(lines[1..])
  }

  /** The peekable character iterator `parse_rec` advances. */
  class Cursor {
    const input: string
    var pos: nat

    constructor (s: string)
      ensures input == s && pos == 0
    {
      input := s;
      pos := 0;
    }

    predicate Valid()
      reads this
    {
      pos <= |input|
    }

    function Peek(): (c: Option<char>)
      reads this
      requires Valid()
      ensures c.Some? <==> pos < |input|
    {
      if pos < |input| then Some(input[pos]) else None
    }

    method Next() returns (c: Option<char>)
      requires Valid()
      modifies this
      ensures Valid()
      ensures c == old(Peek())
      ensures pos == if old(pos) < |input| then old(pos) + 1 else old(pos)
    {
      c := Peek();
      if pos < |input| {
        pos := pos + 1;
      }
    }
  }

  /** The digit-collecting loop of `parse_rec`: takes characters while they
      are digits. */
  method ReadDigits(cur: Cursor) returns (num: string)
    requires cur.Valid()
    modifies cur
    ensures cur.Valid() && cur.pos == DigitRunEnd(cur.input, old(cur.pos))
    ensures num == cur.input[old(cur.pos)..cur.pos]
  {
    ghost var start := cur.pos;
    num := "";
    while cur.pos < |cur.input| && IsDigit(cur.input[cur.pos])
      invariant cur.Valid() && start <= cur.pos
      invariant num == cur.input[start..cur.pos]
      invariant DigitRunEnd(cur.input, start) == DigitRunEnd(cur.input, cur.pos)
      decreases |cur.input| - cur.pos
    {
      var d := cur.Next();
      num := num + [d.value];
    }
  }

  /** `parse_rec` on the shared cursor. */
  method ParseRec(cur: Cursor) returns (p: Option<Packet>)
    requires cur.Valid()
    modifies cur
    ensures cur.Valid()
    ensures Parsed(p, cur.pos) == ParseAt(cur.input, old(cur.pos))
    decreases |cur.input| - cur.pos, 0
  {
    var c := cur.Peek();
    if c.None? {
      return None;
    }
    if IsDigit(c.value) {
      var num := ReadDigits(cur);
      p := Some(Integer(DigitsValue(num)));
    } else if c.value == '[' {
      ghost var start := cur.pos;
      var _ := cur.Next();
      ghost var items := ParseItemsAt(cur.input, cur.pos);
      assert ParseAt(cur.input, start) == Parsed(Some(List(items.0)), if items.1 < |cur.input| then items.1 + 1 else items.1);
      var list := [];
      while true
        invariant cur.Valid() && old(cur.pos) < cur.pos
        invariant items.0 == list + ParseItemsAt(cur.input, cur.pos).0
        invariant items.1 == ParseItemsAt(cur.input, cur.pos).1
        decreases |cur.input| - cur.pos
      {
        ghost var q := cur.pos;
        var item := ParseRec(cur);
        if item.None? {
          assert ParseItemsAt(cur.input, q) == ([], cur.pos);
          break;
        }
        assert ParseItemsAt(cur.input, q).0 == [item.value] + ParseItemsAt(cur.input, cur.pos).0;
        list := list + [item.value];
      }
      assert list == items.0 && cur.pos == items.1;
      var _ := cur.Next();
      p := Some(List(list));
    } else if c.value == ']' {
      p := None;
    } else {
      var _ := cur.Next();
      p := ParseRec(cur);
    }
  }

  /** `Packet::parse`: a fresh cursor over the line. */
  method ParsePacket(s: string) returns (p: Option<Packet>)
    ensures p == Parse(s)
  {
    var cur := new Cursor(s);
    p := ParseRec(cur);
  }

  // ---------------------------------------------------------------------
  // Rendering, and parsing as its inverse

  /** The puzzle's packet notation: decimal integers, comma-separated items
      in brackets. */
  function Render(p: Packet): (s: string)
    ensures |s| > 0 && (IsDigit(s[0]) || s[0] == '[')
    decreases p
  {
    match p
    case Integer(n) => NatToString(n)
    case List(l) => "[" + RenderItems(l) + "]"
  }

  function RenderItems(l: seq<Packet>): string
    decreases l
  {
    if l == [] then "" else Render(l[0]) + RenderRest(l[1..])
  }

  /** Items after the first, each preceded by a comma. */
  function RenderRest(l: seq<Packet>): string
    decreases l
  {
    if l == [] then "" else "," + Render(l[0]) + RenderRest(l[1..])
  }

  /** `t` occurs in `s` at position `i`. */
  predicate At(s: string, i: nat, t: string)
  {
    i + |t| <= |s| && s[i..i + |t|] == t
  }

  lemma {:induction false} DigitRunEndAt(s: string, i: nat, j: nat)
    requires i <= j <= |s| && AllDigits(s[i..j]) && (j == |s| || !IsDigit(s[j]))
    ensures DigitRunEnd(s, i) == j
    decreases j - i
  {
    if i < j {
      assert s[i..j][0] == s[i];
      assert s[i + 1..j] == s[i..j][1..];
      DigitRunEndAt(s, i + 1, j);
    }
  }

  /** A rendered packet, followed by end of input or a non-digit, parses
      back to itself and leaves the cursor just after it. */
  lemma {:induction false} ParseRendered(s: string, i: nat, p: Packet)
    requires At(s, i, Render(p))
    requires i + |Render(p)| == |s| || !IsDigit(s[i + |Render(p)|])
    ensures ParseAt(s, i) == Parsed(Some(p), i + |Render(p)|)
    decreases Size(p), 0
  {
    var t := Render(p);
    var j := i + |t|;
    assert s[i] == s[i..j][0];
    match p
    case Integer(n) =>
      DigitRunEndAt(s, i, j);
      NatToStringValue(n);
    case List(l) =>
      var body := RenderItems(l);
      assert t == "[" + body + "]";
      assert At(s, i + 1, body + "]") by {
        assert s[i + 1..i + 1 + |body + "]"|] == s[i..j][1..];
      }
      ParseRenderedItems(s, i + 1, l);
      assert s[j - 1] == s[i..j][|t| - 1] == ']';
  }

  lemma AtChar(s: string, i: nat, t: string, a: nat)
    requires At(s, i, t) && a < |t|
    ensures s[i + a] == t[a]
  {
    assert s[i..i + |t|][a] == s[i + a];
  }

  lemma AtPiece(s: string, i: nat, t: string, a: nat, b: nat)
    requires At(s, i, t) && a <= b <= |t|
    ensures At(s, i + a, t[a..b])
  {
    var whole := s[i..i + |t|][a..b];
    var piece := s[i + a..i + b];
    assert forall m :: 0 <= m < |piece| ==> piece[m] == whole[m];
  }

  /** The items loop stops, without consuming it, at a ']'. */
  lemma ItemsStopAtClose(s: string, k: nat)
    requires k < |s| && s[k] == ']'
    ensures ParseItemsAt(s, k) == ([], k)
  {
  }

  /** A comma between items is skipped. */
  lemma ItemsSkipComma(s: string, k: nat)
    requires k < |s| && s[k] == ','
    ensures ParseItemsAt(s, k) == ParseItemsAt(s, k + 1)
  {
    assert ParseAt(s, k) == ParseAt(s, k + 1);
  }

  lemma ItemsCons(s: string, i: nat, p: Packet, j: nat)
    requires i <= |s| && ParseAt(s, i) == Parsed(Some(p), j)
    ensures ParseItemsAt(s, i) == ([p] + ParseItemsAt(s, j).0, ParseItemsAt(s, j).1)
  {
  }

  /** Where the pieces of `head + rest` sit in `s`. */
  lemma AtConcat(s: string, i: nat, head: string, rest: string)
    requires At(s, i, head + rest) && |rest| > 0
    ensures At(s, i, head) && i + |head| < |s| && s[i + |head|] == rest[0]
    ensures At(s, i + |head|, rest)
  {
    var t := head + rest;
    AtPiece(s, i, t, 0, |head|);
    assert t[..|head|] == head;
    AtChar(s, i, t, |head|);
    AtPiece(s, i, t, |head|, |t|);
    assert t[|head|..|t|] == rest;
  }

  /** What follows a rendered item: a comma or the closing bracket. */
  lemma RestStart(l: seq<Packet>)
    ensures (RenderRest(l) + "]")[0] == ',' || (RenderRest(l) + "]")[0] == ']'
  {
  }

  /** Rendered items followed by ']' are read back by the items loop, which
      stops at the ']'. */
  lemma {:induction false} ParseRenderedItems(s: string, i: nat, l: seq<Packet>)
    requires At(s, i, RenderItems(l) + "]")
    ensures ParseItemsAt(s, i) == (l, i + |RenderItems(l)|)
    decreases SizeOfAll(l), 1
  {
    if l == [] {
      AtChar(s, i, RenderItems(l) + "]", 0);
      ItemsStopAtClose(s, i);
    } else {
      var head := Render(l[0]);
      var rest := RenderRest(l[1..]) + "]";
      RenderItemsCons(l);
      AtConcat(s, i, head, rest);
      RestStart(l[1..]);
      var j := i + |head|;
      assert !IsDigit(s[j]);
      ParseRendered(s, i, l[0]);
      ItemsCons(s, i, l[0], j);
      ParseRenderedRest(s, j, l[1..]);
      assert l == [l[0]] + l[1..];
    }
  }

  /** A comma followed by a rendered item: the item is read back, and
      the items loop goes on after it, at `j`. */
  lemma {:induction false} ParseRenderedRestHead(s: string, i: nat, p: Packet, j: nat)
    requires i < |s| && s[i] == ',' && At(s, i + 1, Render(p))
    requires j == i + 1 + |Render(p)| && j < |s| && !IsDigit(s[j])
    ensures ParseItemsAt(s, i) == ([p] + ParseItemsAt(s, j).0, ParseItemsAt(s, j).1)
    decreases Size(p), 1
  {
    ParseRendered(s, i + 1, p);
    ItemsCommaCons(s, i, p, j);
  }

  lemma ItemsCommaCons(s: string, i: nat, p: Packet, j: nat)
    requires i < |s| && s[i] == ',' && ParseAt(s, i + 1) == Parsed(Some(p), j)
    ensures ParseItemsAt(s, i) == ([p] + ParseItemsAt(s, j).0, ParseItemsAt(s, j).1)
  {
    ItemsSkipComma(s, i);
    ItemsCons(s, i + 1, p, j);
  }

  lemma RenderItemsCons(l: seq<Packet>)
    requires l != []
    ensures RenderItems(l) + "]" == Render(l[0]) + (RenderRest(l[1..]) + "]")
    ensures |RenderItems(l)| == |Render(l[0])| + |RenderRest(l[1..])|
  {
    var whole, head, tail := RenderItems(l), Render(l[0]), RenderRest(l[1..]);
    assert whole == head + tail;
  }

  lemma RenderRestCons(l: seq<Packet>)
    requires l != []
    ensures RenderRest(l) + "]" == [','] + (Render(l[0]) + (RenderRest(l[1..]) + "]"))
    ensures |RenderRest(l)| == 1 + |Render(l[0])| + |RenderRest(l[1..])|
  {
    var whole, head, tail := RenderRest(l), Render(l[0]), RenderRest(l[1..]);
    assert whole == "," + head + tail;
  }

  /** Where the comma, the first item and what follows it sit in `s`. */
  lemma RestHeadLayout(s: string, i: nat, head: string, rest: string)
    requires At(s, i, [','] + (head + rest)) && |rest| > 0
    ensures var j := i + 1 + |head|;
      i < |s| && s[i] == ',' && At(s, i + 1, head) && j < |s| && s[j] == rest[0] && At(s, j, rest)
  {
    AtConcat(s, i, [','], head + rest);
    AtChar(s, i, [','], 0);
    AtConcat(s, i + 1, head, rest);
  }

  lemma {:induction false} ParseRenderedRest(s: string, i: nat, l: seq<Packet>)
    requires At(s, i, RenderRest(l) + "]")
    ensures ParseItemsAt(s, i) == (l, i + |RenderRest(l)|)
    decreases SizeOfAll(l), 2
  {
    if l == [] {
      AtChar(s, i, RenderRest(l) + "]", 0);
      ItemsStopAtClose(s, i);
    } else {
      var head := Render(l[0]);
      var rest := RenderRest(l[1..]) + "]";
      RenderRestCons(l);
      RestHeadLayout(s, i, head, rest);
      RestStart(l[1..]);
      var j := i + 1 + |head|;
      assert !IsDigit(s[j]);
      ParseRenderedRestHead(s, i, l[0], j);
      ParseRenderedRest(s, j, l[1..]);
      assert l == [l[0]] + l[1..];
    }
  }

  /** Parsing is a left inverse of rendering. */
  lemma ParseOfRender(p: Packet)
    ensures Parse(Render(p)) == Some(p)
  {
    var s := Render(p);
    assert s[0..|s|] == s;
    ParseRendered(s, 0, p);
  }

  /** A blank line yields no packet, so `parse_input` drops it. */
  lemma ParseInputSkipsBlankLines(lines: seq<string>, packets: seq<Packet>)
    requires |lines| == |packets|
    requires forall k :: 0 <= k < |lines| ==> lines[k] == Render(packets[k])
    ensures ParseInput(lines) == packets
    ensures ParseInput([""] + lines) == packets
  {
    if lines != [] {
      ParseOfRender(packets[0]);
      ParseInputSkipsBlankLines(lines[1..], packets[1..]);
      assert packets == [packets[0]] + packets[1..];
    }
    assert ([""] + lines)[1..] == lines;
  }

  // ---------------------------------------------------------------------
  // Part one: indices of the pairs in the right order

  /** Sum of the 1-based indices i+1, over the first k pairs
      (packets[2i], packets[2i+1]), of those whose left side is Less. */
  function LessPairsSum(packets: seq<Packet>, k: nat): nat
    requires 2 * k <= |packets|
  {
    if k == 0 then 0
    else
      LessPairsSum(packets, k - 1)
      + (if Cmp(packets[2 * k - 2], packets[2 * k - 1]) == Less then k else 0)
  }

  /** `solve_part_one`: a trailing odd packet is not part of a pair. */
  function PartOne(packets: seq<Packet>): nat
  {
    LessPairsSum(packets, |packets| / 2)
  }

  /** Each pair with its two packets exchanged. */
  function SwapPairs(packets: seq<Packet>): (r: seq<Packet>)
    ensures |r| == |packets|
  {
    seq(|packets|, i requires 0 <= i < |packets| =>
      if i % 2 == 0 then (if i + 1 < |packets| then packets[i + 1] else packets[i])
      else packets[i - 1])
  }

  /** 1 + 2 + ... + n. */
  function Triangle(n: nat): nat
  {
    if n == 0 then 0 else Triangle(n - 1) + n
  }

  lemma {:induction false} TriangleClosedForm(n: nat)
    ensures 2 * Triangle(n) == n * (n + 1)
  {
    if n > 0 {
      TriangleClosedForm(n - 1);
      assert n * (n + 1) == (n - 1) * n + 2 * n;
    }
  }

  predicate NoEqualPair(packets: seq<Packet>)
  {
    forall i :: 0 <= i < |packets| / 2 ==> Cmp(packets[2 * i], packets[2 * i + 1]) != Equal
  }

  lemma SwapPairsAt(packets: seq<Packet>, k: nat)
    requires 2 * k + 1 < |packets|
    ensures SwapPairs(packets)[2 * k] == packets[2 * k + 1]
    ensures SwapPairs(packets)[2 * k + 1] == packets[2 * k]
  {
  }

  lemma {:induction false} LessPairsSumSwapped(packets: seq<Packet>, k: nat)
    requires 2 * k <= |packets| && NoEqualPair(packets)
    ensures LessPairsSum(packets, k) + LessPairsSum(SwapPairs(packets), k) == Triangle(k)
  {
    if k > 0 {
      LessPairsSumSwapped(packets, k - 1);
      var a, b := packets[2 * (k - 1)], packets[2 * (k - 1) + 1];
      SwapPairsAt(packets, k - 1);
      CmpAntisymmetric(a, b);
      assert Cmp(a, b) != Equal;
    }
  }

  /** When no pair compares Equal, every pair is in the right order either
      as given or swapped, so the two answers share out 1 + 2 + ... + n. */
  lemma PartOneSwapped(packets: seq<Packet>)
    requires NoEqualPair(packets)
    ensures PartOne(packets) + PartOne(SwapPairs(packets)) == Triangle(|packets| / 2)
  {
    LessPairsSumSwapped(packets, |packets| / 2);
  }

  // ---------------------------------------------------------------------
  // Part two: the divider packets' positions after sorting

  function Divider(n: nat): Packet
  {
    List([List([Integer(n)])])
  }

  /** The divider packets are what `parse` makes of "[[2]]" and "[[6]]". */
  lemma DividersParse()
    ensures Parse("[[2]]") == Some(Divider(2))
    ensures Parse("[[6]]") == Some(Divider(6))
  {
    ParseOfRender(Divider(2));
    ParseOfRender(Divider(6));
    assert Render(Divider(2)) == "[[2]]" by {
      assert Render(Integer(2)) == "2";
    }
    assert Render(Divider(6)) == "[[6]]" by {
      assert Render(Integer(6)) == "6";
    }
  }

  /** `divider_packets.contains(p)`, by `eq`, for dividers a and b. */
  predicate IsDivider(p: Packet, a: Packet, b: Packet)
  {
    Eq(a, p) || Eq(b, p)
  }

  /** Adjacent packets are in order. */
  predicate Sorted(s: seq<Packet>)
  {
    forall i :: 0 <= i < |s| - 1 ==> Cmp(s[i], s[i + 1]) != Greater
  }

  /** Insertion: `x` goes before the first packet it is not Greater than,
      so ahead of any packets equal to it. */
  function Insert(x: Packet, s: seq<Packet>): (r: seq<Packet>)
    requires Sorted(s)
    ensures Sorted(r)
    ensures multiset(r) == multiset(s) + multiset{x}
    ensures |r| == |s| + 1
    ensures r[0] == x || (|s| > 0 && r[0] == s[0])
    decreases |s|
  {
    if s == [] then [x]
    else if Cmp(x, s[0]) != Greater then [x] + s
    else
      CmpAntisymmetric(x, s[0]);
      var rest := Insert(x, s[1..]);
      assert s == [s[0]] + s[1..];
      [s[0]] + rest
  }

  /** itertools' `sorted` (a stable sort by `cmp`). */
  function SortPackets(s: seq<Packet>): (r: seq<Packet>)
    ensures Sorted(r)
    ensures multiset(r) == multiset(s)
    ensures |r| == |s|
    decreases |s|
  {
    if s == [] then []
    else
      assert s == [s[0]] + s[1..];
      Insert(s[0], SortPackets(s[1..]))
  }

  /** Product of the 1-based positions in `s`, among the first k, that hold
      a packet equal to a divider. */
  function DividerProduct(s: seq<Packet>, k: nat, a: Packet, b: Packet): nat
    requires k <= |s|
  {
    if k == 0 then 1
    else DividerProduct(s, k - 1, a, b) * (if IsDivider(s[k - 1], a, b) then k else 1)
  }

  /** `solve_part_two` with dividers a and b. */
  function PartTwoWith(packets: seq<Packet>, a: Packet, b: Packet): nat
  {
    var sorted := SortPackets(packets + [a, b]);
    DividerProduct(sorted, |sorted|, a, b)
  }

  /** `solve_part_two`. */
  function PartTwo(packets: seq<Packet>): nat
  {
    PartTwoWith(packets, Divider(2), Divider(6))
  }

  // ---------------------------------------------------------------------
  // Part two characterised: each divider's position is one more than the
  // number of packets below it

  /** Every earlier packet is not Greater than every later one. */
  predicate SortedAll(s: seq<Packet>)
  {
    forall i, j :: 0 <= i < j < |s| ==> Cmp(s[i], s[j]) != Greater
  }

  lemma {:induction false} SortedPair(s: seq<Packet>, i: nat, j: nat)
    requires Sorted(s) && i < j < |s|
    ensures Cmp(s[i], s[j]) != Greater
    decreases j - i
  {
    if i + 1 < j {
      SortedPair(s, i, j - 1);
      CmpTransitive(s[i], s[j - 1], s[j]);
    }
  }

  /** With `cmp` transitive, adjacent order is total order. */
  lemma SortedIsSortedAll(s: seq<Packet>)
    requires Sorted(s)
    ensures SortedAll(s)
  {
    forall i, j | 0 <= i < j < |s|
      ensures Cmp(s[i], s[j]) != Greater
    {
      SortedPair(s, i, j);
    }
  }

  /** How many packets of `s` are Less than `d`. */
  function CountLess(s: seq<Packet>, d: Packet): nat
  {
    if s == [] then 0
    else CountLess(s[..|s| - 1], d) + (if Cmp(s[|s| - 1], d) == Less then 1 else 0)
  }

  lemma {:induction false} CountLessAppend(a: seq<Packet>, b: seq<Packet>, d: Packet)
    ensures CountLess(a + b, d) == CountLess(a, d) + CountLess(b, d)
    decreases |b|
  {
    if b == [] {
      assert a + b == a;
    } else {
      assert (a + b)[..|a + b| - 1] == a + b[..|b| - 1];
      CountLessAppend(a, b[..|b| - 1], d);
    }
  }

  lemma CountLessRemove(b: seq<Packet>, j: nat, d: Packet)
    requires j < |b|
    ensures CountLess(b, d) == CountLess(b[..j] + b[j + 1..], d) + CountLess([b[j]], d)
  {
    assert b == b[..j] + [b[j]] + b[j + 1..];
    CountLessAppend(b[..j] + [b[j]], b[j + 1..], d);
    CountLessAppend(b[..j], [b[j]], d);
    CountLessAppend(b[..j], b[j + 1..], d);
  }

  lemma MultisetRemove(a: seq<Packet>, x: Packet, b: seq<Packet>, j: nat)
    requires j < |b| && b[j] == x && multiset(a + [x]) == multiset(b)
    ensures multiset(a) == multiset(b[..j] + b[j + 1..])
  {
    assert b == b[..j] + [x] + b[j + 1..];
    assert multiset(b) == multiset(b[..j]) + multiset{x} + multiset(b[j + 1..]);
    assert multiset(a + [x]) == multiset(a) + multiset{x};
    assert multiset(b[..j] + b[j + 1..]) == multiset(b[..j]) + multiset(b[j + 1..]);
    assert multiset(a) == multiset(a + [x]) - multiset{x};
    assert multiset(b[..j] + b[j + 1..]) == multiset(b) - multiset{x};
  }

  lemma {:induction false} CountLessPermutation(a: seq<Packet>, b: seq<Packet>, d: Packet)
    requires multiset(a) == multiset(b)
    ensures CountLess(a, d) == CountLess(b, d)
    decreases |a|
  {
    if a != [] {
      var x := a[|a| - 1];
      var front := a[..|a| - 1];
      assert a == front + [x];
      assert x in multiset(b);
      var j :| 0 <= j < |b| && b[j] == x;
      MultisetRemove(front, x, b, j);
      CountLessPermutation(front, b[..j] + b[j + 1..], d);
      CountLessRemove(b, j, d);
      CountLessAppend(front, [x], d);
    }
  }

  /** In a sorted sequence, the packet at p has exactly p packets Less than
      it when no other packet compares Equal to it. */
  lemma {:induction false} CountLessBelow(s: seq<Packet>, p: nat, k: nat)
    requires SortedAll(s) && p < |s| && k <= |s|
    requires forall i :: 0 <= i < |s| && i != p ==> Cmp(s[i], s[p]) != Equal
    ensures CountLess(s[..k], s[p]) == if k <= p then k else p
    decreases k
  {
    if k > 0 {
      assert s[..k][..k - 1] == s[..k - 1];
      CountLessBelow(s, p, k - 1);
      var i := k - 1;
      if i == p {
        CmpReflexive(s[p]);
      } else if i > p {
        CmpAntisymmetric(s[p], s[i]);
      }
    }
  }

  lemma TwiceInSeq(s: seq<Packet>, i: nat, j: nat)
    requires i < j < |s| && s[i] == s[j]
    ensures multiset(s)[s[i]] >= 2
  {
    var x := s[i];
    assert s == s[..j] + s[j..];
    assert s[..j][i] == x;
    assert s[j..][0] == x;
    assert multiset(s) == multiset(s[..j]) + multiset(s[j..]);
  }

  /** The product over positions when exactly two of them hold dividers. */
  lemma {:induction false} DividerProductTwo(s: seq<Packet>, a: Packet, b: Packet, p: nat, q: nat, k: nat)
    requires p < |s| && q < |s| && p != q && k <= |s|
    requires forall i :: 0 <= i < |s| ==> (IsDivider(s[i], a, b) <==> i == p || i == q)
    ensures DividerProduct(s, k, a, b) == (if p < k then p + 1 else 1) * (if q < k then q + 1 else 1)
    decreases k
  {
    if k > 0 {
      DividerProductTwo(s, a, b, p, q, k - 1);
      var x := if p < k - 1 then p + 1 else 1;
      var y := if q < k - 1 then q + 1 else 1;
      if k - 1 == p {
        assert DividerProduct(s, k, a, b) == x * y * k;
        assert x * y * k == k * y;
      } else if k - 1 == q {
        assert DividerProduct(s, k, a, b) == x * y * k;
      }
    }
  }

  lemma DividersOrdered()
    ensures Cmp(Divider(2), Divider(6)) == Less
  {
    assert Cmp(List([Integer(2)]), List([Integer(6)])) == Less;
    assert [List([Integer(2)])][1..] == [];
  }

  /** In a permutation of `all`, where the divider d occurs once, any slot
      other than d's own holds a packet unequal to d. */
  lemma OnlyDividerEqual(all: seq<Packet>, sorted: seq<Packet>, d: Packet, other: Packet, p: nat, i: nat)
    requires multiset(sorted) == multiset(all) && multiset(all)[d] == 1
    requires Cmp(other, d) != Equal
    requires forall k :: 0 <= k < |all| ==> all[k] == d || all[k] == other || Cmp(all[k], d) != Equal
    requires p < |sorted| && i < |sorted| && i != p && sorted[p] == d
    ensures Cmp(sorted[i], sorted[p]) != Equal
  {
    if sorted[i] == d {
      if i < p {
        TwiceInSeq(sorted, i, p);
      } else {
        TwiceInSeq(sorted, p, i);
      }
    }
    assert sorted[i] in multiset(all);
    var k :| 0 <= k < |all| && all[k] == sorted[i];
  }

  /** The sorted sequence holds the divider d once, at the position
      CountLess(all, d). */
  lemma DividerPosition(all: seq<Packet>, sorted: seq<Packet>, d: Packet, other: Packet)
    requires SortedAll(sorted) && multiset(sorted) == multiset(all)
    requires multiset(all)[d] == 1
    requires Cmp(other, d) != Equal
    requires forall i :: 0 <= i < |all| ==> all[i] == d || all[i] == other || Cmp(all[i], d) != Equal
    ensures exists p :: 0 <= p < |sorted| && sorted[p] == d && p == CountLess(all, d)
  {
    assert d in multiset(sorted);
    var p :| 0 <= p < |sorted| && sorted[p] == d;
    forall i | 0 <= i < |sorted| && i != p
      ensures Cmp(sorted[i], sorted[p]) != Equal
    {
      OnlyDividerEqual(all, sorted, d, other, p, i);
    }
    SlotCountsLess(all, sorted, p);
  }

  /** A packet unequal to every other in a sorted permutation of `all` sits at
      the number of packets of `all` Less than it. */
  lemma SlotCountsLess(all: seq<Packet>, sorted: seq<Packet>, p: nat)
    requires SortedAll(sorted) && multiset(sorted) == multiset(all) && p < |sorted|
    requires forall i :: 0 <= i < |sorted| && i != p ==> Cmp(sorted[i], sorted[p]) != Equal
    ensures p == CountLess(all, sorted[p])
  {
    CountLessBelow(sorted, p, |sorted|);
    assert sorted[..|sorted|] == sorted;
    CountLessPermutation(sorted, all, sorted[p]);
  }

  /** The packets sorted in part two: the input, then a and b, each divider
      once and every input packet unequal to both. */
  lemma DividedInput(packets: seq<Packet>, a: Packet, b: Packet)
    requires Cmp(a, b) == Less
    requires forall i :: 0 <= i < |packets| ==> !IsDivider(packets[i], a, b)
    ensures var all := packets + [a, b];
      multiset(all)[a] == 1 && multiset(all)[b] == 1
      && forall i :: 0 <= i < |all| ==>
        all[i] == a || all[i] == b || (!IsDivider(all[i], a, b)
        && Cmp(all[i], a) != Equal && Cmp(all[i], b) != Equal)
  {
    var all := packets + [a, b];
    CmpReflexive(a);
    assert a != b;
    forall i | 0 <= i < |packets|
      ensures packets[i] != a && packets[i] != b
      ensures Cmp(packets[i], a) != Equal && Cmp(packets[i], b) != Equal
    {
      CmpReflexive(packets[i]);
      CmpAntisymmetric(a, packets[i]);
      CmpAntisymmetric(b, packets[i]);
    }
    assert a !in multiset(packets) && b !in multiset(packets);
    assert multiset(all) == multiset(packets) + multiset{a, b};
    forall i | 0 <= i < |all|
      ensures all[i] == a || all[i] == b || (!IsDivider(all[i], a, b)
        && Cmp(all[i], a) != Equal && Cmp(all[i], b) != Equal)
    {
      if i < |packets| {
        assert all[i] == packets[i];
      }
    }
  }

  /** The positions holding a packet equal to a divider are exactly those
      of the two dividers themselves. */
  lemma DividerFlags(all: seq<Packet>, sorted: seq<Packet>, a: Packet, b: Packet, p: nat, q: nat)
    requires multiset(sorted) == multiset(all)
    requires p < |sorted| && q < |sorted| && sorted[p] == a && sorted[q] == b
    requires multiset(all)[a] == 1 && multiset(all)[b] == 1
    requires Eq(a, a) && Eq(b, b)
    requires forall k :: 0 <= k < |all| ==> all[k] == a || all[k] == b || !IsDivider(all[k], a, b)
    ensures forall i :: 0 <= i < |sorted| ==> (IsDivider(sorted[i], a, b) <==> i == p || i == q)
  {
    forall i | 0 <= i < |sorted|
      ensures IsDivider(sorted[i], a, b) <==> i == p || i == q
    {
      assert sorted[i] in multiset(all);
      var k :| 0 <= k < |all| && all[k] == sorted[i];
      if sorted[i] == a && i != p {
        if i < p { TwiceInSeq(sorted, i, p); } else { TwiceInSeq(sorted, p, i); }
      }
      if sorted[i] == b && i != q {
        if i < q { TwiceInSeq(sorted, i, q); } else { TwiceInSeq(sorted, q, i); }
      }
    }
  }

  /** The positions of the two dividers after sorting: each is the number
      of packets Less than it, and the divider product is made of them. */
  lemma DividerSlots(all: seq<Packet>, a: Packet, b: Packet) returns (p: nat, q: nat)
    requires Cmp(a, b) == Less
    requires multiset(all)[a] == 1 && multiset(all)[b] == 1
    requires forall i :: 0 <= i < |all| ==>
      all[i] == a || all[i] == b || (!IsDivider(all[i], a, b)
      && Cmp(all[i], a) != Equal && Cmp(all[i], b) != Equal)
    ensures p == CountLess(all, a) && q == CountLess(all, b)
    ensures DividerProduct(SortPackets(all), |all|, a, b) == (p + 1) * (q + 1)
  {
    var sorted := SortPackets(all);
    SortedIsSortedAll(sorted);
    CmpAntisymmetric(a, b);
    CmpReflexive(a);
    CmpReflexive(b);
    DividerPosition(all, sorted, a, b);
    DividerPosition(all, sorted, b, a);
    p :| 0 <= p < |sorted| && sorted[p] == a && p == CountLess(all, a);
    q :| 0 <= q < |sorted| && sorted[q] == b && q == CountLess(all, b);
    DividerFlags(all, sorted, a, b, p, q);
    DividerProductTwo(sorted, a, b, p, q, |sorted|);
  }

  lemma PartTwoWithUnfold(packets: seq<Packet>, a: Packet, b: Packet)
    ensures PartTwoWith(packets, a, b) == DividerProduct(SortPackets(packets + [a, b]), |packets| + 2, a, b)
  {
  }

  /** The answer is the product of the dividers' 1-based positions: the
      first divider comes after the input packets Less than it, the second
      after those and the first. */
  lemma PartTwoPositions(packets: seq<Packet>, a: Packet, b: Packet) returns (p: nat, q: nat)
    requires Cmp(a, b) == Less
    requires forall i :: 0 <= i < |packets| ==> !IsDivider(packets[i], a, b)
    ensures p == CountLess(packets, a) && q == CountLess(packets, b) + 1
    ensures PartTwoWith(packets, a, b) == (p + 1) * (q + 1)
  {
    var all := packets + [a, b];
    DividedInput(packets, a, b);
    p, q := DividerSlots(all, a, b);
    PartTwoWithUnfold(packets, a, b);
    CountLessDividers(packets, a, b);
  }

  lemma CountLessDividers(packets: seq<Packet>, a: Packet, b: Packet)
    requires Cmp(a, b) == Less
    ensures CountLess(packets + [a, b], a) == CountLess(packets, a)
    ensures CountLess(packets + [a, b], b) == CountLess(packets, b) + 1
  {
    CmpReflexive(a);
    CmpReflexive(b);
    CmpAntisymmetric(a, b);
    CountLessAppend(packets, [a, b], a);
    CountLessAppend(packets, [a, b], b);
    assert [a, b][..1] == [a] && [a][..0] == [];
    assert CountLess([a], a) == 0 && CountLess([a], b) == 1;
    assert CountLess([a, b], a) == 0 && CountLess([a, b], b) == 1;
  }

  /** With no input packet equal to a divider, the answer is the product of
      the dividers' 1-based positions: the first divider comes after the
      packets Less than it, the second after those and the first. */
  lemma PartTwoWithCountsLess(packets: seq<Packet>, a: Packet, b: Packet)
    requires Cmp(a, b) == Less
    requires forall i :: 0 <= i < |packets| ==> !IsDivider(packets[i], a, b)
    ensures PartTwoWith(packets, a, b) == (CountLess(packets, a) + 1) * (CountLess(packets, b) + 2)
  {
    var p, q := PartTwoPositions(packets, a, b);
    assert q + 1 == CountLess(packets, b) + 2;
  }
}
