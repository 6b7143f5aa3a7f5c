// Day 10: Cathode-Ray Tube. A two-opcode CPU with one register X; part one
// samples X at cycles 20, 60, 100, ..., part two draws a 40-column CRT
// whose pixel is lit when the three-wide sprite at X covers the column.

module CathodeRayTube {
  import opened Common

  /** One cycle's work: `addx n` is parsed as a `Noop` cycle followed by
      an `AddX(n)` cycle. */
  datatype Opcode = Noop | AddX(n: int)

  /** `Opcode::execute`: the register after one cycle. */
  function Execute(op: Opcode, x: int): int
  {
    match op
    case Noop => x
    case AddX(n) => x + n
  }

  /** What an opcode adds to the register. */
  function Amount(op: Opcode): int
  {
    match op
    case Noop => 0
    case AddX(n) => n
  }

  /** The sum of the amounts of all `AddX` opcodes. */
  function Added(ops: seq<Opcode>): int
  {
    if ops == [] then 0 else Added(ops[..|ops| - 1]) + Amount(Last(ops))
  }

  /** The register trace of part one: the value before the first cycle,
      then after each opcode in turn. */
  function Xs(ops: seq<Opcode>): (xs: seq<int>)
    ensures |xs| == |ops| + 1 && xs[0] == 1
    ensures forall i :: 0 <= i < |ops| ==> xs[i + 1] == Execute(ops[i], xs[i])
  {
    if ops == [] then [1]
    else
      var prev := Xs(ops[..|ops| - 1]);
      prev + [Execute(Last(ops), Last(prev))]
  }

  /** After `i` opcodes the register holds 1 plus the sum of their
      `AddX` amounts: a `Noop` leaves it unchanged, `AddX(n)` adds n. */
  lemma {:induction false} XsAdded(ops: seq<Opcode>, i: nat)
    requires i <= |ops|
    ensures Xs(ops)[i] == 1 + Added(ops[..i])
    decreases i
  {
    if i > 0 {
      XsAdded(ops, i - 1);
      assert ops[..i][..i - 1] == ops[..i - 1];
    }
  }

  // ---------------------------------------------------------------------
  // Part one

  /** The signal strength after `i` opcodes: the 1-based cycle number
      times the register. */
  function Strength(xs: seq<int>, i: nat): int
    requires i < |xs|
  {
    (i + 1) * xs[i]
  }

  /** `.enumerate().skip(i).step_by(40)` summed: every 40th strength from
      index `i`. */
  function StepSum(xs: seq<int>, i: nat): int
    decreases |xs| - i
  {
    if i >= |xs| then 0 else Strength(xs, i) + StepSum(xs, i + 40)
  }

  /** `solve_part_one`. */
  function PartOne(ops: seq<Opcode>): int
  {
    StepSum(Xs(ops), 19)
  }

  /** A reference definition: the strengths of every index from `i` on
      that falls on cycle 20 of a 40-cycle line. */
  function Sampled(xs: seq<int>, i: nat): int
    decreases |xs| - i
  {
    if i >= |xs| then 0
    else (if i % 40 == 19 then Strength(xs, i) else 0) + Sampled(xs, i + 1)
  }

  lemma {:induction false} SampledGap(xs: seq<int>, i: nat, j: nat)
    requires i <= j
    requires forall k :: i <= k < j ==> k % 40 != 19
    ensures Sampled(xs, i) == Sampled(xs, j)
    decreases j - i
  {
    if i < j && i < |xs| {
      SampledGap(xs, i + 1, j);
    } else if i < j {
      SampledBeyond(xs, i);
      SampledBeyond(xs, j);
    }
  }

  lemma SampledBeyond(xs: seq<int>, i: nat)
    requires i >= |xs|
    ensures Sampled(xs, i) == 0
  {
  }

  /** Between two sampled indices lie 39 unsampled ones. */
  lemma NextSample(i: nat, k: nat)
    requires i % 40 == 19 && i < k < i + 40
    ensures k % 40 != 19
  {
    var q := i / 40;
    assert i == 40 * q + 19;
    assert 40 * q + 19 < k < 40 * q + 59;
    if k < 40 * q + 40 {
      assert k % 40 == k - 40 * q;
    } else {
      assert k % 40 == k - 40 * q - 40;
    }
  }

  /** Stepping by 40 from a sampled index visits exactly the sampled
      indices. */
  lemma {:induction false} StepSumSampled(xs: seq<int>, i: nat)
    requires i % 40 == 19
    ensures StepSum(xs, i) == Sampled(xs, i)
    decreases |xs| - i
  {
    if i < |xs| {
      StepSumSampled(xs, i + 40);
      forall k | i + 1 <= k < i + 40
        ensures k % 40 != 19
      {
        NextSample(i, k);
      }
      SampledGap(xs, i + 1, i + 40);
    }
  }

  /** Part one sums (i + 1) * xs[i] over the indices i = 19, 59, 99, ...
      of the trace, that is over cycles 20, 60, 100, .... */
  lemma PartOneSampled(ops: seq<Opcode>)
    ensures PartOne(ops) == Sampled(Xs(ops), 0)
  {
    StepSumSampled(Xs(ops), 19);
    SampledGap(Xs(ops), 0, 19);
  }

  // ---------------------------------------------------------------------
  // Part two

  /** `get_pixel_value`: lit when the column of the cycle is within one
      of the register. */
  function Pixel(x: int, cycle: nat): (c: char)
    ensures c == '#' || c == '.'
    ensures c == '#' <==> Abs(cycle % 40 - x) <= 1
  {
    if x - 1 <= cycle % 40 <= x + 1 then '#' else '.'
  }

  /** The fold of `solve_part_two`: the register and the pixels drawn so
      far, starting from one lit pixel. */
  function Screen(ops: seq<Opcode>): (r: (int, seq<char>))
    ensures |r.1| == |ops| + 1
  {
    if ops == [] then (1, ['#'])
    else
      var prev := Screen(ops[..|ops| - 1]);
      var x := Execute(Last(ops), prev.0);
      (x, prev.1 + [Pixel(x, |ops|)])
  }

  /** The pixel at index j is drawn from the register after j opcodes;
      the first pixel agrees with this too, since X starts at 1. */
  lemma {:induction false} ScreenPixels(ops: seq<Opcode>)
    ensures Screen(ops).0 == Last(Xs(ops))
    ensures forall j :: 0 <= j <= |ops| ==> Screen(ops).1[j] == Pixel(Xs(ops)[j], j)
    decreases |ops|
  {
    if ops != [] {
      ScreenPixels(ops[..|ops| - 1]);
    }
  }

  /** `chunks_exact(40)`: full 40-pixel rows, an incomplete last row dropped. */
  function Rows(crt: seq<char>): (rows: seq<string>)
    ensures |rows| == |crt| / 40
    ensures forall k :: 0 <= k < |rows| ==> rows[k] == crt[40 * k..40 * k + 40]
    decreases |crt|
  {
    if |crt| < 40 then [] else [crt[..40]] + Rows(crt[40..])
  }

  /** `join("\n")`. */
  function JoinLines(rows: seq<string>): string
  {
    if rows == [] then "" else if |rows| == 1 then rows[0] else rows[0] + "\n" + JoinLines(rows[1..])
  }

  /** `solve_part_two`. */
  function PartTwo(ops: seq<Opcode>): string
  {
    JoinLines(Rows(Screen(ops).1))
  }

  lemma ColumnOf(k: nat, c: nat)
    requires c < 40
    ensures (40 * k + c) % 40 == c
  {
  }

  /** Row k, column c of the image is lit exactly when the register after
      40k + c opcodes is within one of c. */
  lemma ImagePixel(ops: seq<Opcode>, k: nat, c: nat)
    requires k < |Rows(Screen(ops).1)| && c < 40
    ensures Rows(Screen(ops).1)[k][c] == '#' <==> Abs(c - Xs(ops)[40 * k + c]) <= 1
  {
    ScreenPixels(ops);
    ColumnOf(k, c);
  }

  predicate IsNewline(c: char)
  {
    c == '\n'
  }

  /** Rows without line breaks come back from the image by splitting it
      at its line breaks. */
  lemma {:induction false} SplitJoinLines(rows: seq<string>)
    requires |rows| > 0
    requires forall k :: 0 <= k < |rows| ==> NoSep(rows[k], IsNewline)
    ensures Split(JoinLines(rows), IsNewline) == rows
    decreases |rows|
  {
    if |rows| == 1 {
      SplitNoSep(rows[0], IsNewline);
    } else {
      SplitJoinLinesStep(rows);
    }
  }

  lemma {:induction false} SplitJoinLinesStep(rows: seq<string>)
    requires |rows| > 1
    requires forall k :: 0 <= k < |rows| ==> NoSep(rows[k], IsNewline)
    ensures Split(JoinLines(rows), IsNewline) == rows
    decreases |rows|, 0
  {
    SplitAt(rows[0], '\n', JoinLines(rows[1..]), IsNewline);
    SplitJoinLines(rows[1..]);
    assert [rows[0]] + rows[1..] == rows;
  }

  /** The image splits back into its rows of 40 pixels. */
  lemma PartTwoRows(ops: seq<Opcode>)
    requires |ops| >= 39
    ensures Split(PartTwo(ops), IsNewline) == Rows(Screen(ops).1)
  {
    var rows := Rows(Screen(ops).1);
    forall k | 0 <= k < |rows|
      ensures NoSep(rows[k], IsNewline)
    {
      RowPixels(ops, k);
    }
    SplitJoinLines(rows);
  }

  lemma RowPixels(ops: seq<Opcode>, k: nat)
    requires k < |Rows(Screen(ops).1)|
    ensures NoSep(Rows(Screen(ops).1)[k], IsNewline)
  {
    var row := Rows(Screen(ops).1)[k];
    forall c | 0 <= c < |row|
      ensures row[c] == '#' || row[c] == '.'
    {
      ScreenPixels(ops);
    }
  }

  // ---------------------------------------------------------------------
  // parse_input

  /** One line of the program; `None` where the source panics. */
  function ParseLine(line: string): (r: Option<seq<Opcode>>)
    ensures r.Some? ==> r.value == [Noop] || (|r.value| == 2 && r.value[0] == Noop && r.value[1].AddX?)
  {
    var w := Words(line);
    if w == ["noop"] then Some([Noop])
    else if |w| == 2 && w[0] == "addx" then
      match ParseInt(w[1])
      case Some(n) => Some([Noop, AddX(n)])
      case None => None
    else None
  }

  /** The number of `AddX` opcodes. */
  function Adds(ops: seq<Opcode>): nat
  {
    if ops == [] then 0 else Adds(ops[..|ops| - 1]) + (if Last(ops).AddX? then 1 else 0)
  }

  /** Every `AddX` cycle comes right after a `Noop` cycle. */
  predicate TwoCycleAdds(ops: seq<Opcode>)
  {
    forall i :: 0 <= i < |ops| && ops[i].AddX? ==> i > 0 && ops[i - 1].Noop?
  }

  /** `parse_input`: the lines' opcodes, in order. Each line gives one
      `Noop` and an `addx` line one `AddX` after it, so the program runs
      one cycle per line plus one per `addx`. */
  function ParseInput(lines: seq<string>): (r: Option<seq<Opcode>>)
    ensures r.Some? ==> |r.value| == |lines| + Adds(r.value) && TwoCycleAdds(r.value)
  {
    if lines == [] then Some([])
    else
      match ParseInput(lines[..|lines| - 1])
      case None => None
      case Some(ops) =>
        match ParseLine(Last(lines))
        case None => None
        case Some(more) =>
          AppendLine(ops, more);
          Some(ops + more)
  }

  lemma AppendLine(ops: seq<Opcode>, more: seq<Opcode>)
    requires TwoCycleAdds(ops)
    requires more == [Noop] || (|more| == 2 && more[0] == Noop && more[1].AddX?)
    ensures Adds(ops + more) == Adds(ops) + |more| - 1
    ensures TwoCycleAdds(ops + more)
  {
    if |more| == 1 {
      assert (ops + more)[..|ops|] == ops;
    } else {
      assert (ops + more)[..|ops| + 1] == ops + [Noop];
      assert (ops + more)[..|ops|] == ops;
    }
  }

  lemma WordOf(s: string)
    requires |s| > 0 && forall i :: 0 <= i < |s| ==> s[i] == '-' || IsDigit(s[i])
    ensures Words(s) == [s]
  {
    WordsOfWord(s);
  }

  /** `noop` reads back as one `Noop` cycle. */
  lemma ParseNoop()
    ensures ParseLine("noop") == Some([Noop])
  {
    WordsOfWord("noop");
  }

  lemma AddxWords(s: string)
    requires |s| > 0 && forall i :: 0 <= i < |s| ==> s[i] == '-' || IsDigit(s[i])
    ensures Words("addx " + s) == ["addx", s]
  {
    WordsOfWord("addx");
    WordOf(s);
    WordsJoin("addx", s);
    assert "addx " + s == "addx" + " " + s;
  }

  /** `addx n` reads back as a `Noop` cycle and an `AddX(n)` cycle. */
  lemma ParseAddx(n: int)
    ensures ParseLine("addx " + IntToString(n)) == Some([Noop, AddX(n)])
  {
    var s := IntToString(n);
    var d := NatToString(if n < 0 then -n else n);
    assert forall i :: 0 <= i < |d| ==> IsDigit(d[i]);
    AddxWords(s);
    ParseIntOfIntToString(n);
  }
}
