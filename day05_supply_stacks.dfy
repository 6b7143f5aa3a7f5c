/** Day 5, "Supply Stacks": crates moved between stacks by a crane that
    either lifts them one at a time (so a moved group lands reversed) or
    all at once (so it keeps its order). */
module SupplyStacks {
  import opened Common

  /** `Move(amount, src, dst)`, with 0-based stack indices. */
  datatype Move = Move(amount: nat, src: nat, dst: nat)

  /** The stacks, each listed bottom crate first. */
  type Stacks = seq<seq<char>>

  /** Part one's crane moves crates one at a time; part two's all at once. */
  datatype Crane = OneByOne | AllAtOnce

  function Rev<T>(s: seq<T>): (r: seq<T>)
    ensures |r| == |s| && forall i :: 0 <= i < |s| ==> r[i] == s[|s| - 1 - i]
  {
    if s == [] then [] else [Last(s)] + Rev(s[..|s| - 1])
  }

  lemma RevRev<T>(s: seq<T>)
    ensures Rev(Rev(s)) == s
  {
  }

  lemma RevFront<T>(s: seq<T>)
    requires s != []
    ensures Rev(s) == Rev(s[1..]) + [s[0]]
  {
    var r, t := Rev(s), Rev(s[1..]) + [s[0]];
    forall i | 0 <= i < |s|
      ensures r[i] == t[i]
    {
      RevFrontAt(s, i);
    }
  }

  lemma RevFrontAt<T>(s: seq<T>, i: nat)
    requires i < |s|
    ensures (Rev(s[1..]) + [s[0]])[i] == s[|s| - 1 - i]
  {
    if i < |s| - 1 {
      assert Rev(s[1..])[i] == s[1..][|s| - 2 - i];
    }
  }

  lemma RevAppend<T>(a: seq<T>, b: seq<T>)
    ensures Rev(a + b) == Rev(b) + Rev(a)
  {
  }

  // ---------------------------------------------------------------------
  // Moves

  /** A move the source can make without panicking: both indices name
      stacks and the source stack holds at least `amount` crates (otherwise
      `stack_len - amount` underflows). */
  predicate CanMove(stacks: Stacks, m: Move)
  {
    m.src < |stacks| && m.dst < |stacks| && m.amount <= |stacks[m.src]|
  }

  /** The crates as the crane sets them down: reversed when they go one at a time. */
  function Landed(lifted: seq<char>, crane: Crane): seq<char>
  {
    if crane == AllAtOnce then lifted else Rev(lifted)
  }

  /** One move: the top `amount` crates are split off the source stack and
      the destination is extended with them; `None` where the source panics. */
  function ApplyMove(stacks: Stacks, m: Move, crane: Crane): Option<Stacks>
  {
    if !CanMove(stacks, m) then None
    else
      var src := stacks[m.src];
      var cut := |src| - m.amount;
      var after := stacks[m.src := src[..cut]];
      Some(after[m.dst := after[m.dst] + Landed(src[cut..], crane)])
  }

  /** All the crates, as a multiset. */
  function Crates(stacks: Stacks): multiset<char>
  {
    if stacks == [] then multiset{} else Crates(stacks[..|stacks| - 1]) + multiset(Last(stacks))
  }

  lemma {:induction false} CratesUpdate(stacks: Stacks, i: nat, t: seq<char>)
    requires i < |stacks|
    ensures Crates(stacks[i := t]) + multiset(stacks[i]) == Crates(stacks) + multiset(t)
    decreases |stacks|
  {
    var n := |stacks|;
    var front := stacks[..n - 1];
    var updated := stacks[i := t];
    assert Crates(stacks) == Crates(front) + multiset(stacks[n - 1]);
    if i < n - 1 {
      assert updated[..n - 1] == front[i := t];
      assert Crates(updated) == Crates(front[i := t]) + multiset(stacks[n - 1]);
      CratesUpdate(front, i, t);
      assert front[i] == stacks[i];
      calc {
        Crates(updated) + multiset(stacks[i]);
        (Crates(front[i := t]) + multiset(stacks[n - 1])) + multiset(stacks[i]);
        (Crates(front[i := t]) + multiset(front[i])) + multiset(stacks[n - 1]);
        (Crates(front) + multiset(t)) + multiset(stacks[n - 1]);
        (Crates(front) + multiset(stacks[n - 1])) + multiset(t);
      }
    } else {
      assert updated[..n - 1] == front;
      assert Crates(updated) == Crates(front) + multiset(t);
    }
  }

  /** A move fails exactly when the source would panic; otherwise it
      changes only its two stacks: the source loses its top `amount` crates
      and the destination gains them on top, reversed for the
      one-at-a-time crane. A move onto its own stack puts the top crates
      back in landing order: reversed by the one-at-a-time crane, left as
      they were by the other. */
  lemma MoveEffect(stacks: Stacks, m: Move, crane: Crane)
    ensures ApplyMove(stacks, m, crane).None? <==> !CanMove(stacks, m)
    ensures ApplyMove(stacks, m, crane).Some? ==>
      var after := ApplyMove(stacks, m, crane).value;
      && |after| == |stacks|
      && (forall i :: 0 <= i < |stacks| && i != m.src && i != m.dst ==> after[i] == stacks[i])
      && (m.src != m.dst ==>
            && after[m.src] + stacks[m.src][|stacks[m.src]| - m.amount..] == stacks[m.src]
            && after[m.dst] == stacks[m.dst] + Landed(stacks[m.src][|stacks[m.src]| - m.amount..], crane))
      && (m.src == m.dst ==>
            && |after[m.src]| == |stacks[m.src]|
            && after[m.src][..|stacks[m.src]| - m.amount] == stacks[m.src][..|stacks[m.src]| - m.amount]
            && after[m.src][|stacks[m.src]| - m.amount..] == Landed(stacks[m.src][|stacks[m.src]| - m.amount..], crane))
    ensures CanMove(stacks, m) && m.src == m.dst && crane == AllAtOnce ==>
      ApplyMove(stacks, m, crane) == Some(stacks)
  {
    if CanMove(stacks, m) {
      var src := stacks[m.src];
      var keep, lifted := src[..|src| - m.amount], src[|src| - m.amount..];
      assert keep + lifted == src;
      if m.src == m.dst {
        var top := keep + Landed(lifted, crane);
        assert ApplyMove(stacks, m, crane).value[m.src] == top;
        assert top[..|keep|] == keep && top[|keep|..] == Landed(lifted, crane);
        if crane == AllAtOnce {
          assert top == src;
          assert ApplyMove(stacks, m, crane).value == stacks[m.src := src];
          assert stacks[m.src := src] == stacks;
        }
      }
    }
  }

  /** A move keeps every crate. */
  lemma MoveConserves(stacks: Stacks, m: Move, crane: Crane)
    requires CanMove(stacks, m)
    ensures Crates(ApplyMove(stacks, m, crane).value) == Crates(stacks)
  {
    var src := stacks[m.src];
    var cut := |src| - m.amount;
    var keep, lifted := src[..cut], src[cut..];
    var removed := stacks[m.src := keep];
    var landed := removed[m.dst] + Landed(lifted, crane);
    assert ApplyMove(stacks, m, crane).value == removed[m.dst := landed];
    CratesUpdate(stacks, m.src, keep);
    CratesUpdate(removed, m.dst, landed);
    SplitMultiset(src, cut);
    LandedOnto(removed[m.dst], lifted, crane);
    Rebalance(Crates(stacks), Crates(removed), Crates(removed[m.dst := landed]),
      multiset(src), multiset(keep), multiset(lifted), multiset(removed[m.dst]), multiset(landed));
  }

  /** The bookkeeping of a move: taking `lifted` off one stack and landing
      it on another leaves the total unchanged. */
  lemma Rebalance<T>(before: multiset<T>, removed: multiset<T>, after: multiset<T>,
                     src: multiset<T>, keep: multiset<T>, lifted: multiset<T>,
                     dst: multiset<T>, landed: multiset<T>)
    requires removed + src == before + keep && after + dst == removed + landed
    requires src == keep + lifted && landed == dst + lifted
    ensures after == before
  {
    forall x ensures after[x] == before[x] {
      assert (removed + src)[x] == (before + keep)[x];
      assert (after + dst)[x] == (removed + landed)[x];
    }
  }

  lemma SplitMultiset<T>(s: seq<T>, cut: nat)
    requires cut <= |s|
    ensures multiset(s) == multiset(s[..cut]) + multiset(s[cut..])
  {
    assert s == s[..cut] + s[cut..];
  }

  lemma LandedOnto(dst: seq<char>, lifted: seq<char>, crane: Crane)
    ensures multiset(dst + Landed(lifted, crane)) == multiset(dst) + multiset(lifted)
  {
    LandedMultiset(lifted, crane);
  }

  lemma LandedMultiset(lifted: seq<char>, crane: Crane)
    ensures multiset(Landed(lifted, crane)) == multiset(lifted)
  {
    RevMultiset(lifted);
  }

  lemma {:induction false} RevMultiset<T>(s: seq<T>)
    ensures multiset(Rev(s)) == multiset(s)
    decreases |s|
  {
    if s != [] {
      RevMultiset(s[..|s| - 1]);
      assert s == s[..|s| - 1] + [Last(s)];
    }
  }

  /** Moving the same crates back restores the stacks, with either crane. */
  lemma MoveUndo(stacks: Stacks, m: Move, crane: Crane)
    requires CanMove(stacks, m) && m.src != m.dst
    ensures ApplyMove(stacks, m, crane).Some?
    ensures ApplyMove(ApplyMove(stacks, m, crane).value, Move(m.amount, m.dst, m.src), crane) == Some(stacks)
  {
    var src := stacks[m.src];
    var keep, lifted := src[..|src| - m.amount], src[|src| - m.amount..];
    assert src == keep + lifted;
    ApplySplit(stacks, m, crane, keep, lifted);
    MoveBack(stacks, m.src, m.dst, keep, lifted, crane);
  }

  /** The move back, on the stacks after the move. */
  lemma MoveBack(stacks: Stacks, from: nat, to: nat, keep: seq<char>, lifted: seq<char>, crane: Crane)
    requires from < |stacks| && to < |stacks| && from != to && stacks[from] == keep + lifted
    ensures var after := stacks[from := keep][to := stacks[to] + Landed(lifted, crane)];
            ApplyMove(after, Move(|lifted|, to, from), crane) == Some(stacks)
  {
    var landed := Landed(lifted, crane);
    var after := stacks[from := keep][to := stacks[to] + landed];
    LandedTwice(lifted, crane);
    ApplySplit(after, Move(|landed|, to, from), crane, stacks[to], landed);
    RestoreTwo(stacks, from, to, keep, stacks[to] + landed);
  }

  lemma LandedTwice(lifted: seq<char>, crane: Crane)
    ensures Landed(Landed(lifted, crane), crane) == lifted
  {
    if crane != AllAtOnce {
      RevRev(lifted);
    }
  }

  lemma RestoreTwo(stacks: Stacks, i: nat, j: nat, a: seq<char>, b: seq<char>)
    requires i < |stacks| && j < |stacks| && i != j
    ensures stacks[i := a][j := b][j := stacks[j]][i := stacks[i]] == stacks
  {
  }

  /** A move whose source stack is `keep + lifted`, with `lifted` the
      crates it takes. */
  lemma ApplySplit(stacks: Stacks, m: Move, crane: Crane, keep: seq<char>, lifted: seq<char>)
    requires m.src < |stacks| && m.dst < |stacks| && m.src != m.dst
    requires stacks[m.src] == keep + lifted && m.amount == |lifted|
    ensures ApplyMove(stacks, m, crane)
      == Some(stacks[m.src := keep][m.dst := stacks[m.dst] + Landed(lifted, crane)])
  {
    var src := stacks[m.src];
    assert src[..|src| - m.amount] == keep && src[|src| - m.amount..] == lifted;
  }

  /** A move of at most one crate is the same for both cranes. */
  lemma SingleCrateSame(stacks: Stacks, m: Move)
    requires m.amount <= 1
    ensures ApplyMove(stacks, m, OneByOne) == ApplyMove(stacks, m, AllAtOnce)
  {
    if CanMove(stacks, m) {
      var src := stacks[m.src];
      var lifted := src[|src| - m.amount..];
      assert Rev(lifted) == lifted;
    }
  }

  // ---------------------------------------------------------------------
  // Running the moves

  /** The solvers' loop: the parsed moves are popped off the end, so the
      last one is made first; `None` where a move panics. */
  function Run(stacks: Stacks, moves: seq<Move>, crane: Crane): Option<Stacks>
    decreases |moves|
  {
    if moves == [] then Some(stacks)
    else
      match ApplyMove(stacks, Last(moves), crane)
      case None => None
      case Some(next) => Run(next, moves[..|moves| - 1], crane)
  }

  /** The moves made first to last. */
  function RunInOrder(stacks: Stacks, moves: seq<Move>, crane: Crane): Option<Stacks>
    decreases |moves|
  {
    if moves == [] then Some(stacks)
    else
      match ApplyMove(stacks, moves[0], crane)
      case None => None
      case Some(next) => RunInOrder(next, moves[1..], crane)
  }

  /** Popping moves stored last-first makes them in file order. */
  lemma {:induction false} RunReversed(stacks: Stacks, moves: seq<Move>, crane: Crane)
    ensures Run(stacks, Rev(moves), crane) == RunInOrder(stacks, moves, crane)
    decreases |moves|
  {
    if moves != [] {
      var r := Rev(moves);
      assert Last(r) == moves[0];
      assert r[..|r| - 1] == Rev(moves[1..]);
      match ApplyMove(stacks, moves[0], crane)
      case None =>
      case Some(next) => RunReversed(next, moves[1..], crane);
    }
  }

  /** Running the moves keeps every crate and the number of stacks. */
  lemma {:induction false} RunConserves(stacks: Stacks, moves: seq<Move>, crane: Crane)
    ensures Run(stacks, moves, crane).Some? ==>
      |Run(stacks, moves, crane).value| == |stacks| && Crates(Run(stacks, moves, crane).value) == Crates(stacks)
    decreases |moves|
  {
    if moves != [] {
      MoveEffect(stacks, Last(moves), crane);
      match ApplyMove(stacks, Last(moves), crane)
      case None =>
      case Some(next) =>
        MoveConserves(stacks, Last(moves), crane);
        RunConserves(next, moves[..|moves| - 1], crane);
    }
  }

  /** `map_while(last)`: the top crate of each stack, stopping at the first
      empty stack. */
  function Tops(stacks: Stacks): (r: string)
    ensures |r| <= |stacks|
    ensures forall i :: 0 <= i < |r| ==> |stacks[i]| > 0 && r[i] == Last(stacks[i])
    ensures |r| < |stacks| ==> stacks[|r|] == []
  {
    if stacks == [] || stacks[0] == [] then [] else [Last(stacks[0])] + Tops(stacks[1..])
  }

  /** The parsed input: the moves, last move first, and the stacks. */
  datatype Parsed = Parsed(moves: seq<Move>, stacks: Stacks)

  /** One move on the stacks in place: `split_off` on the source, `extend`
      of the destination (reversed for the one-at-a-time crane). */
  method MoveCrates(stacks: array<seq<char>>, m: Move, crane: Crane)
    requires CanMove(stacks[..], m)
    modifies stacks
    ensures ApplyMove(old(stacks[..]), m, crane) == Some(stacks[..])
  {
    var src := stacks[m.src];
    var cut := |src| - m.amount;
    var lifted := src[cut..];
    stacks[m.src] := src[..cut];
    if crane == AllAtOnce {
      stacks[m.dst] := stacks[m.dst] + lifted;
    } else {
      stacks[m.dst] := stacks[m.dst] + Rev(lifted);
    }
  }

  /** Running a non-empty list of moves: the last one, then the rest. */
  lemma RunLast(stacks: Stacks, moves: seq<Move>, crane: Crane, next: Option<Stacks>, rest: seq<Move>)
    requires moves != [] && rest == moves[..|moves| - 1]
    requires next == ApplyMove(stacks, Last(moves), crane)
    ensures next.None? ==> Run(stacks, moves, crane).None?
    ensures next.Some? ==> Run(stacks, moves, crane) == Run(next.value, rest, crane)
  {
  }

  /** `solve_part_one` and `solve_part_two`, which differ only in the crane:
      the stacks are updated in place while moves are popped off the end;
      `None` where the source panics. */
  method Solve(input: Parsed, crane: Crane) returns (r: Option<string>)
    ensures r == match Run(input.stacks, input.moves, crane) case None => None case Some(f) => Some(Tops(f))
  {
    var moves := input.moves;
    var stacks := new seq<char>[|input.stacks|](i requires 0 <= i < |input.stacks| => input.stacks[i]);
    assert stacks[..] == input.stacks;
    while moves != []
      invariant Run(stacks[..], moves, crane) == Run(input.stacks, input.moves, crane)
      decreases |moves|
    {
      var m := moves[|moves| - 1];
      var rest := moves[..|moves| - 1];
      ghost var before := stacks[..];
      if m.src >= stacks.Length || m.dst >= stacks.Length || m.amount > |stacks[m.src]| {
        RunLast(before, moves, crane, None, rest);
        return None;
      }
      MoveCrates(stacks, m, crane);
      RunLast(before, moves, crane, Some(stacks[..]), rest);
      moves := rest;
    }
    r := Some(Tops(stacks[..]));
  }

  method SolvePartOne(input: Parsed) returns (r: Option<string>)
    ensures r == match Run(input.stacks, input.moves, OneByOne) case None => None case Some(f) => Some(Tops(f))
  {
    r := Solve(input, OneByOne);
  }

  method SolvePartTwo(input: Parsed) returns (r: Option<string>)
    ensures r == match Run(input.stacks, input.moves, AllAtOnce) case None => None case Some(f) => Some(Tops(f))
  {
    r := Solve(input, AllAtOnce);
  }

  // ---------------------------------------------------------------------
  // `parse_input`

  /** The first character of the line once leading whitespace is trimmed. */
  function FirstVisible(line: string): Option<char>
  {
    if line == [] then None else if IsWhitespace(line[0]) then FirstVisible(line[1..]) else Some(line[0])
  }

  /** An ASCII letter; `char::is_alphabetic` on the drawing's characters. */
  predicate IsLetter(c: char)
  {
    'a' <= c <= 'z' || 'A' <= c <= 'Z'
  }

  /** A crate row, read in chunks of three characters plus a separator:
      the middle character of chunk `k` (character `4k + 1`) is pushed onto
      stack `k` when it is a letter; `None` where the stack index is out of
      range. */
  function PushRow(line: string, stacks: Stacks, k: nat): Option<Stacks>
    decreases |line| - 4 * k
  {
    if 4 * k + 3 > |line| then Some(stacks)
    else
      var ch := line[4 * k + 1];
      if !IsLetter(ch) then PushRow(line, stacks, k + 1)
      else if k < |stacks| then PushRow(line, stacks[k := stacks[k] + [ch]], k + 1)
      else None
  }

  /** A stack label: a token that `u8::from_str` accepts. */
  predicate IsLabel(token: string)
  {
    ParseNat(token).Some? && ParseNat(token).value < 256
  }

  function CountLabels(tokens: seq<string>): nat
  {
    if tokens == [] then 0 else CountLabels(tokens[..|tokens| - 1]) + (if IsLabel(Last(tokens)) then 1 else 0)
  }

  /** The numbers among the tokens, in order. */
  function Numbers(tokens: seq<string>): seq<nat>
  {
    if tokens == [] then []
    else Numbers(tokens[..|tokens| - 1]) + (if ParseNat(Last(tokens)).Some? then [ParseNat(Last(tokens)).value] else [])
  }

  /** A move line: when it holds exactly three numbers `amount src dst`,
      the move from stack `src - 1` to `dst - 1` is pushed; `None` where
      `src - 1` or `dst - 1` underflows. */
  function PushMove(p: Parsed, line: string): Option<Parsed>
  {
    var numbers := Numbers(Words(line));
    if |numbers| != 3 then Some(p)
    else if numbers[1] == 0 || numbers[2] == 0 then None
    else Some(Parsed(p.moves + [Move(numbers[0], numbers[1] - 1, numbers[2] - 1)], p.stacks))
  }

  /** One step of the fold, by the line's first visible character. */
  function ParseLine(p: Parsed, line: string): Option<Parsed>
  {
    match FirstVisible(line)
    case None => Some(p)
    case Some(c) =>
      if c == '[' then
        (match PushRow(line, p.stacks, 0) case None => None case Some(stacks) => Some(Parsed(p.moves, stacks)))
      else if IsDigit(c) then Some(Parsed(p.moves, seq(CountLabels(Words(line)), _ => [])))
      else if c == 'm' then PushMove(p, line)
      else Some(p)
  }

  /** The lines folded last to first onto `p`. */
  function ParseOnto(lines: seq<string>, p: Parsed): Option<Parsed>
  {
    if lines == [] then Some(p)
    else
      match ParseOnto(lines[1..], p)
      case None => None
      case Some(q) => ParseLine(q, lines[0])
  }

  /** `parse_input`: the fold starting with no moves and no stacks. */
  function ParseInput(lines: seq<string>): Option<Parsed>
  {
    ParseOnto(lines, Parsed([], []))
  }

  /** The fold of `parse_input`, as the source runs it: from the last line
      up, pushing moves and crates. */
  method ParseStacks(lines: seq<string>) returns (r: Option<Parsed>)
    ensures r == ParseInput(lines)
  {
    var moves: seq<Move> := [];
    var stacks: Stacks := [];
    var i := |lines|;
    while i > 0
      invariant 0 <= i <= |lines|
      invariant ParseOnto(lines[i..], Parsed([], [])) == Some(Parsed(moves, stacks))
    {
      i := i - 1;
      var line := lines[i];
      assert lines[i..][1..] == lines[i + 1..];
      var first := FirstVisible(line);
      if first == Some('[') {
        var pushed := ReadCrateRow(line, stacks);
        if pushed.None? {
          FoldFails(lines, i);
          return None;
        }
        stacks := pushed.value;
      } else if first.Some? && IsDigit(first.value) {
        stacks := seq(CountLabels(Words(line)), _ => []);
      } else if first == Some('m') {
        var numbers := Numbers(Words(line));
        if |numbers| == 3 {
          if numbers[1] == 0 || numbers[2] == 0 {
            FoldFails(lines, i);
            return None;
          }
          moves := moves + [Move(numbers[0], numbers[1] - 1, numbers[2] - 1)];
        }
      }
    }
    assert lines[0..] == lines;
    r := Some(Parsed(moves, stacks));
  }

  /** Once one line fails, so does the whole fold. */
  lemma {:induction false} FoldFails(lines: seq<string>, i: nat)
    requires i < |lines| && ParseOnto(lines[i..], Parsed([], [])).None?
    ensures ParseInput(lines).None?
    decreases i
  {
    if i > 0 {
      assert lines[i - 1..][1..] == lines[i..];
      FoldFails(lines, i - 1);
    } else {
      assert lines[0..] == lines;
    }
  }

  /** The crate-row loop: chunks of three characters, each followed by one
      skipped separator. */
  method ReadCrateRow(line: string, stacks: Stacks) returns (r: Option<Stacks>)
    ensures r == PushRow(line, stacks, 0)
  {
    var current := stacks;
    var k := 0;
    while 4 * k + 3 <= |line|
      invariant PushRow(line, current, k) == PushRow(line, stacks, 0)
      decreases |line| - 4 * k
    {
      var ch := line[4 * k + 1];
      if IsLetter(ch) {
        if k >= |current| {
          return None;
        }
        current := current[k := current[k] + [ch]];
      }
      k := k + 1;
    }
    r := Some(current);
  }

  // ---------------------------------------------------------------------
  // Drawing the notes and reading them back

  /** Folding `a + b` folds `b` first, then `a` onto its result. */
  lemma {:induction false} ParseOntoAppend(a: seq<string>, b: seq<string>, p: Parsed)
    ensures ParseOnto(a + b, p) == match ParseOnto(b, p) case None => None case Some(q) => ParseOnto(a, q)
    decreases |a|
  {
    if a == [] {
      assert a + b == b;
    } else {
      assert (a + b)[1..] == a[1..] + b;
      ParseOntoAppend(a[1..], b, p);
    }
  }

  /** The first visible character is the first that is not whitespace. */
  lemma {:induction false} FirstVisibleAt(line: string, p: nat)
    requires p < |line| && !IsWhitespace(line[p])
    requires forall i :: 0 <= i < p ==> IsWhitespace(line[i])
    ensures FirstVisible(line) == Some(line[p])
    decreases p
  {
    if p > 0 {
      FirstVisibleAt(line[1..], p - 1);
    }
  }

  /** Character `j` of a four-character chunk of a crate row: `[X]` for a
      crate, blanks for none, and a blank separator. */
  function CellChar(cell: Option<char>, j: nat): char
  {
    if j == 3 then ' '
    else match cell
      case None => ' '
      case Some(x) => if j == 0 then '[' else if j == 1 then x else ']'
  }

  /** A crate row of the drawing, one cell per stack. */
  function DrawRow(cells: seq<Option<char>>): string
    requires |cells| > 0
  {
    seq(4 * |cells| - 1, i requires 0 <= i < 4 * |cells| - 1 => CellChar(cells[i / 4], i % 4))
  }

  /** The stacks after the crates of `cells` from index `k` on are pushed. */
  function Pushed(cells: seq<Option<char>>, stacks: Stacks, k: nat): Stacks
    requires |cells| == |stacks|
  {
    seq(|stacks|, j requires 0 <= j < |stacks| =>
      if j >= k && cells[j].Some? then stacks[j] + [cells[j].value] else stacks[j])
  }

  predicate LetterCells(cells: seq<Option<char>>)
  {
    forall j :: 0 <= j < |cells| && cells[j].Some? ==> IsLetter(cells[j].value)
  }

  /** Reading a drawn row pushes each of its crates onto its own stack. */
  lemma {:induction false} PushDrawnRow(cells: seq<Option<char>>, stacks: Stacks, k: nat)
    requires |cells| == |stacks| > 0 && k <= |cells| && LetterCells(cells)
    ensures PushRow(DrawRow(cells), stacks, k) == Some(Pushed(cells, stacks, k))
    decreases |cells| - k
  {
    if k == |cells| {
      assert Pushed(cells, stacks, k) == stacks;
    } else {
      DrawnCrateAt(cells, k);
      if cells[k].Some? {
        var next := stacks[k := stacks[k] + [cells[k].value]];
        PushDrawnRow(cells, next, k + 1);
        PushedStep(cells, stacks, k, next);
      } else {
        PushDrawnRow(cells, stacks, k + 1);
        PushedStep(cells, stacks, k, stacks);
      }
    }
  }

  /** The crate letter of cell k sits at index 4k + 1 of the drawn row. */
  lemma DrawnCrateAt(cells: seq<Option<char>>, k: nat)
    requires k < |cells|
    ensures 4 * k + 3 <= |DrawRow(cells)| && DrawRow(cells)[4 * k + 1] == CellChar(cells[k], 1)
  {
    assert (4 * k + 1) / 4 == k && (4 * k + 1) % 4 == 1;
  }

  /** Pushing from cell k on is pushing cell k's crate, then the rest. */
  lemma PushedStep(cells: seq<Option<char>>, stacks: Stacks, k: nat, next: Stacks)
    requires |cells| == |stacks| && k < |cells|
    requires next == if cells[k].Some? then stacks[k := stacks[k] + [cells[k].value]] else stacks
    ensures Pushed(cells, next, k + 1) == Pushed(cells, stacks, k)
  {
  }

  /** A drawn row with a crate in it is recognised as a crate row. */
  lemma {:induction false} DrawnRowVisible(cells: seq<Option<char>>, j: nat)
    requires j < |cells| && cells[j].Some?
    ensures FirstVisible(DrawRow(cells)) == Some('[')
    decreases j
  {
    if exists j' :: 0 <= j' < j && cells[j'].Some? {
      var j' :| 0 <= j' < j && cells[j'].Some?;
      DrawnRowVisible(cells, j');
    } else {
      var line := DrawRow(cells);
      assert (4 * j) / 4 == j && (4 * j) % 4 == 0;
      forall i | 0 <= i < 4 * j
        ensures IsWhitespace(line[i])
      {
        assert i / 4 < j;
      }
      FirstVisibleAt(line, 4 * j);
    }
  }

  /** The tallest stack's height. */
  function Tallest(stacks: Stacks): (h: nat)
    ensures forall k :: 0 <= k < |stacks| ==> |stacks[k]| <= h
    ensures stacks != [] ==> exists k :: 0 <= k < |stacks| && |stacks[k]| == h
  {
    if stacks == [] then 0
    else
      var rest := Tallest(stacks[..|stacks| - 1]);
      assert forall k :: 0 <= k < |stacks| - 1 ==> stacks[..|stacks| - 1][k] == stacks[k];
      if |Last(stacks)| <= rest && rest > 0 then rest else |Last(stacks)|
  }

  /** The cells at height `h` (the bottom crates are at height 0). */
  function RowAt(stacks: Stacks, h: nat): seq<Option<char>>
  {
    seq(|stacks|, k requires 0 <= k < |stacks| => if h < |stacks[k]| then Some(stacks[k][h]) else None)
  }

  /** The lowest `h` crates of each stack. */
  function Heights(stacks: Stacks, h: nat): Stacks
  {
    seq(|stacks|, k requires 0 <= k < |stacks| => stacks[k][..Min(h, |stacks[k]|)])
  }

  /** The rows below height `h`, topmost first as in the notes. */
  function Drawing(stacks: Stacks, h: nat): seq<string>
    requires |stacks| > 0
  {
    if h == 0 then [] else [DrawRow(RowAt(stacks, h - 1))] + Drawing(stacks, h - 1)
  }

  predicate LetterCrates(stacks: Stacks)
  {
    forall k, i :: 0 <= k < |stacks| && 0 <= i < |stacks[k]| ==> IsLetter(stacks[k][i])
  }

  /** Reading the drawing bottom up rebuilds the stacks one level at a time. */
  lemma {:induction false} ParseDrawing(stacks: Stacks, moves: seq<Move>, h: nat)
    requires |stacks| > 0 && h <= Tallest(stacks) && LetterCrates(stacks)
    ensures ParseOnto(Drawing(stacks, h), Parsed(moves, Heights(stacks, 0)))
            == Some(Parsed(moves, Heights(stacks, h)))
    decreases h
  {
    if h > 0 {
      var g := h - 1;
      var lines := Drawing(stacks, h);
      assert lines[1..] == Drawing(stacks, g) && lines[0] == DrawRow(RowAt(stacks, g));
      ParseDrawing(stacks, moves, g);
      ParseRow(stacks, moves, g, h);
    }
  }

  /** The row at height `h` adds level `h` to every stack that reaches it. */
  lemma ParseRow(stacks: Stacks, moves: seq<Move>, h: nat, above: nat)
    requires |stacks| > 0 && h < Tallest(stacks) && LetterCrates(stacks) && above == h + 1
    ensures ParseLine(Parsed(moves, Heights(stacks, h)), DrawRow(RowAt(stacks, h)))
            == Some(Parsed(moves, Heights(stacks, above)))
  {
    var cells := RowAt(stacks, h);
    var k :| 0 <= k < |stacks| && |stacks[k]| == Tallest(stacks);
    DrawnRowVisible(cells, k);
    PushDrawnRow(cells, Heights(stacks, h), 0);
    LevelPushed(stacks, h, above);
  }

  lemma LevelPushed(stacks: Stacks, h: nat, above: nat)
    requires above == h + 1
    ensures Pushed(RowAt(stacks, h), Heights(stacks, h), 0) == Heights(stacks, above)
  {
    var pushed, next := Pushed(RowAt(stacks, h), Heights(stacks, h), 0), Heights(stacks, above);
    forall k | 0 <= k < |stacks|
      ensures pushed[k] == next[k]
    {
      if h < |stacks[k]| {
        assert stacks[k][..h] + [stacks[k][h]] == stacks[k][..h + 1];
      }
    }
  }

  /** The stack-number line: the labels `1` to `n`, three blanks apart. */
  function Labels(n: nat): (r: string)
    requires n >= 1
    ensures |r| > 0 && r[0] == '1'
  {
    if n == 1 then "1" else Labels(n - 1) + " " + ("  " + NatToString(n))
  }

  function LabelLine(n: nat): string
    requires n >= 1
  {
    " " + Labels(n) + " "
  }

  lemma WordsEmpty()
    ensures Words("") == []
  {
    assert Split("", IsWhitespace) == [""];
  }

  lemma WordsLeading(x: string)
    ensures Words(" " + x) == Words(x)
  {
    assert " " + x == "" + " " + x;
    WordsJoin("", x);
    WordsEmpty();
  }

  lemma WordsTrailing(x: string)
    ensures Words(x + " ") == Words(x)
  {
    assert x + " " == x + " " + "";
    WordsJoin(x, "");
    WordsEmpty();
  }

  /** The decimal labels `1` to `n`. */
  function LabelSeq(n: nat): seq<string>
  {
    seq(n, i requires 0 <= i < n => NatToString(i + 1))
  }

  /** The label line's words are the decimal labels `1` to `n`. */
  lemma {:induction false} LabelWords(n: nat)
    requires n >= 1
    ensures Words(Labels(n)) == LabelSeq(n)
    decreases n
  {
    if n == 1 {
      DigitsAreOneWord("1");
    } else {
      LabelWords(n - 1);
      LabelAfter(Labels(n - 1), NatToString(n));
      assert LabelSeq(n - 1) + [NatToString(n)] == LabelSeq(n);
    }
  }

  /** One more label, three blanks after the last. */
  lemma LabelAfter(prefix: string, num: string)
    requires |num| > 0 && AllDigits(num)
    ensures Words(prefix + " " + ("  " + num)) == Words(prefix) + [num]
  {
    WordsJoin(prefix, "  " + num);
    assert "  " + num == " " + (" " + num);
    WordsLeading(" " + num);
    WordsLeading(num);
    DigitsAreOneWord(num);
  }

  /** Every label up to 255 is a `u8`. */
  lemma {:induction false} CountAllLabels(n: nat)
    requires n <= 255
    ensures CountLabels(LabelSeq(n)) == n
    decreases n
  {
    if n > 0 {
      var tokens := LabelSeq(n);
      assert tokens[..n - 1] == LabelSeq(n - 1);
      CountAllLabels(n - 1);
      ParseNatOfNatToString(n);
    }
  }

  /** The stack-number line resets the stacks to `n` empty ones. */
  lemma ParseLabelLine(p: Parsed, n: nat)
    requires 1 <= n <= 255
    ensures ParseLine(p, LabelLine(n)) == Some(Parsed(p.moves, seq(n, _ => [])))
  {
    var line := LabelLine(n);
    assert line[1] == '1';
    FirstVisibleAt(line, 1);
    WordsLeading(Labels(n));
    WordsTrailing(" " + Labels(n));
    LabelWords(n);
    CountAllLabels(n);
  }

  /** A move line of the notes, with stacks numbered from one. */
  function MoveLine(m: Move): string
  {
    "move" + " " + NatToString(m.amount) + " " + "from" + " " + NatToString(m.src + 1)
      + " " + "to" + " " + NatToString(m.dst + 1)
  }

  /** A word after a blank adds itself to the words before it. */
  lemma WordsSnocWord(x: string, w: string, ws: seq<string>)
    requires Words(x) == ws && |w| > 0 && NoSep(w, IsWhitespace)
    ensures Words(x + " " + w) == ws + [w]
  {
    WordsJoin(x, w);
    WordsOfWord(w);
  }

  /** Six words with single blanks between them. */
  lemma SixWords(a: string, b: string, c: string, d: string, e: string, f: string)
    requires |a| > 0 && NoSep(a, IsWhitespace) && |b| > 0 && NoSep(b, IsWhitespace)
    requires |c| > 0 && NoSep(c, IsWhitespace) && |d| > 0 && NoSep(d, IsWhitespace)
    requires |e| > 0 && NoSep(e, IsWhitespace) && |f| > 0 && NoSep(f, IsWhitespace)
    ensures Words(a + " " + b + " " + c + " " + d + " " + e + " " + f) == [a, b, c, d, e, f]
  {
    WordsOfWord(a);
    WordsSnocWord(a, b, [a]);
    WordsSnocWord(a + " " + b, c, [a, b]);
    WordsSnocWord(a + " " + b + " " + c, d, [a, b, c]);
    WordsSnocWord(a + " " + b + " " + c + " " + d, e, [a, b, c, d]);
    WordsSnocWord(a + " " + b + " " + c + " " + d + " " + e, f, [a, b, c, d, e]);
  }

  lemma MoveKeywords()
    ensures NoSep("move", IsWhitespace) && NoSep("from", IsWhitespace) && NoSep("to", IsWhitespace)
  {
  }

  /** The words of a move line. */
  lemma MoveLineWords(m: Move)
    ensures Words(MoveLine(m))
            == ["move", NatToString(m.amount), "from", NatToString(m.src + 1), "to", NatToString(m.dst + 1)]
  {
    MoveKeywords();
    NatIsWord(m.amount);
    NatIsWord(m.src + 1);
    NatIsWord(m.dst + 1);
    SixWords("move", NatToString(m.amount), "from", NatToString(m.src + 1), "to", NatToString(m.dst + 1));
  }

  lemma NatIsWord(n: nat)
    ensures |NatToString(n)| > 0 && NoSep(NatToString(n), IsWhitespace)
  {
  }

  lemma NumbersSnoc(tokens: seq<string>, t: string)
    ensures Numbers(tokens + [t]) == Numbers(tokens) + (if ParseNat(t).Some? then [ParseNat(t).value] else [])
  {
    assert (tokens + [t])[..|tokens|] == tokens;
  }

  /** Six tokens, every other one a number. */
  lemma AlternateNumbers(k1: string, n1: string, k2: string, n2: string, k3: string, n3: string)
    requires ParseNat(k1) == None && ParseNat(k2) == None && ParseNat(k3) == None
    requires ParseNat(n1).Some? && ParseNat(n2).Some? && ParseNat(n3).Some?
    ensures Numbers([k1, n1, k2, n2, k3, n3]) == [ParseNat(n1).value, ParseNat(n2).value, ParseNat(n3).value]
  {
    NumbersPair([], k1, n1);
    NumbersPair([k1, n1], k2, n2);
    NumbersPair([k1, n1, k2, n2], k3, n3);
    assert [] + [k1, n1] == [k1, n1];
    assert [k1, n1] + [k2, n2] == [k1, n1, k2, n2];
    assert [k1, n1, k2, n2] + [k3, n3] == [k1, n1, k2, n2, k3, n3];
  }

  /** A word and a number after it add just the number. */
  lemma NumbersPair(tokens: seq<string>, word: string, num: string)
    requires ParseNat(word) == None && ParseNat(num).Some?
    ensures Numbers(tokens + [word, num]) == Numbers(tokens) + [ParseNat(num).value]
  {
    NumbersSnoc(tokens, word);
    NumbersSnoc(tokens + [word], num);
    assert tokens + [word] + [num] == tokens + [word, num];
  }

  /** Only the three decimal tokens of a move line are numbers. */
  lemma MoveWordsNumbers(a: nat, s: nat, d: nat)
    ensures Numbers(["move", NatToString(a), "from", NatToString(s), "to", NatToString(d)]) == [a, s, d]
  {
    ParseNatOfNatToString(a);
    ParseNatOfNatToString(s);
    ParseNatOfNatToString(d);
    KeywordsAreNotNumbers();
    AlternateNumbers("move", NatToString(a), "from", NatToString(s), "to", NatToString(d));
  }

  lemma KeywordsAreNotNumbers()
    ensures ParseNat("move") == None && ParseNat("from") == None && ParseNat("to") == None
  {
    assert !IsDigit('m') && !IsDigit('f') && !IsDigit('t');
  }

  /** The numbers of a move line are its amount and its two stack numbers. */
  lemma MoveLineNumbers(m: Move)
    ensures Numbers(Words(MoveLine(m))) == [m.amount, m.src + 1, m.dst + 1]
  {
    MoveLineWords(m);
    MoveWordsNumbers(m.amount, m.src + 1, m.dst + 1);
  }

  /** A move line reads back as its move. */
  lemma ParseMoveLine(p: Parsed, m: Move)
    ensures ParseLine(p, MoveLine(m)) == Some(Parsed(p.moves + [m], p.stacks))
  {
    FirstVisibleAt(MoveLine(m), 0);
    MoveLineNumbers(m);
  }

  function MoveLines(moves: seq<Move>): seq<string>
  {
    seq(|moves|, i requires 0 <= i < |moves| => MoveLine(moves[i]))
  }

  /** Move lines are stored last first. */
  lemma {:induction false} ParseMoveLines(p: Parsed, moves: seq<Move>)
    ensures ParseOnto(MoveLines(moves), p) == Some(Parsed(p.moves + Rev(moves), p.stacks))
    decreases |moves|
  {
    if moves == [] {
      assert p.moves + Rev(moves) == p.moves;
    } else {
      var lines := MoveLines(moves);
      assert lines[1..] == MoveLines(moves[1..]);
      ParseMoveLines(p, moves[1..]);
      var q := Parsed(p.moves + Rev(moves[1..]), p.stacks);
      assert ParseOnto(lines, p) == ParseLine(q, lines[0]);
      assert lines[0] == MoveLine(moves[0]);
      ParseMoveLine(q, moves[0]);
      RevFront(moves);
      assert q.moves + [moves[0]] == p.moves + Rev(moves);
    }
  }

  /** The puzzle notes for the given stacks and moves: the drawing, the
      stack-number line, a blank line and one line per move. */
  function Notes(stacks: Stacks, moves: seq<Move>): seq<string>
    requires |stacks| > 0
  {
    Drawing(stacks, Tallest(stacks)) + [LabelLine(|stacks|), ""] + MoveLines(moves)
  }

  /** Reading the notes gives back the stacks, and the moves last first. */
  lemma ParseNotes(stacks: Stacks, moves: seq<Move>)
    requires 1 <= |stacks| <= 255 && LetterCrates(stacks)
    ensures ParseInput(Notes(stacks, moves)) == Some(Parsed(Rev(moves), stacks))
  {
    var drawing := Drawing(stacks, Tallest(stacks));
    var middle := [LabelLine(|stacks|), ""];
    assert Notes(stacks, moves) == (drawing + middle) + MoveLines(moves);
    ParseOntoAppend(drawing + middle, MoveLines(moves), Parsed([], []));
    ParseMoveLines(Parsed([], []), moves);
    assert [] + Rev(moves) == Rev(moves);
    var afterMoves := Parsed(Rev(moves), []);
    ParseOntoAppend(drawing, middle, afterMoves);
    ParseMiddle(afterMoves, |stacks|);
    assert seq(|stacks|, _ => []) == Heights(stacks, 0);
    ParseDrawing(stacks, Rev(moves), Tallest(stacks));
    HeightsFull(stacks);
  }

  /** The stack-number line and the blank line under it. */
  lemma ParseMiddle(p: Parsed, n: nat)
    requires 1 <= n <= 255
    ensures ParseOnto([LabelLine(n), ""], p) == Some(Parsed(p.moves, seq(n, _ => [])))
  {
    var middle := [LabelLine(n), ""];
    assert middle[1..] == [""];
    assert FirstVisible("") == None;
    assert ParseOnto([""], p) == Some(p);
    ParseLabelLine(p, n);
  }

  lemma HeightsFull(stacks: Stacks)
    ensures Heights(stacks, Tallest(stacks)) == stacks
  {
    var full := Heights(stacks, Tallest(stacks));
    forall k | 0 <= k < |stacks|
      ensures full[k] == stacks[k]
    {
      assert stacks[k][..|stacks[k]|] == stacks[k];
    }
  }

  /** Solving the notes runs their moves in the order they are written. */
  lemma NotesRunInOrder(stacks: Stacks, moves: seq<Move>, crane: Crane)
    requires 1 <= |stacks| <= 255 && LetterCrates(stacks)
    ensures ParseInput(Notes(stacks, moves)).Some?
    ensures var p := ParseInput(Notes(stacks, moves)).value;
            Run(p.stacks, p.moves, crane) == RunInOrder(stacks, moves, crane)
  {
    ParseNotes(stacks, moves);
    RunReversed(stacks, moves, crane);
  }
}
