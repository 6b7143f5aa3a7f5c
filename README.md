# Advent of Code 2022, days 1 to 15, in Dafny

This project models the fifteen daily puzzle solvers of an Advent of Code
2022 repository written in Rust. Each `N/src/lib.rs` has the same shape: a
`parse_input` turns the puzzle text into a value, and `solve_part_one` and
`solve_part_two` compute the two answers from it. Each day becomes one Dafny
module in its own file, `dayNN_<title>.dfy`. The shared pieces live in
`common.dfy` (module `Common`):

- `Option`;
- sums and maxima;
- a descending sort;
- decimal parsing and printing with their round trips;
- splitting at a separator, and `split_whitespace`.

Each module follows the form of its source file:

- Folds, iterator chains and recursion become functions and lemmas.
- Loops that update variables become methods whose `ensures` ties the result to
  a specification function; examples are day 5's crane moves, day 9's rope,
  day 11's monkey rounds, day 12's breadth-first search, day 13's cursor
  parser, day 14's sand and day 15's range merge.
- Day 13's cursor over the packet text is a class that a method updates in
  place.

Every parser takes the input already split into lines (`seq<string>`).
Integers are unbounded.

A panic in the source appears in the model in one of two ways:

- A malformed input that a parser would `unwrap`, and an `unreachable!`, are a
  precondition or an `Option` result.
- A panic that depends on the state reached (day 5's stack underflow, day 7's
  `cd ..` at the root, day 14's source that never blocks) is a `None` result.

## Model

| member | source | states |
|---|---|---|
| CalorieCounting.Totals | 1/src/lib.rs:22-33 | the fold holds one total more than there are blank lines |
| CalorieCounting.TotalsStopped | 1/src/lib.rs:28 | once a line fails to parse as a number (the `unwrap` panics) the whole parse fails |
| CalorieCounting.ParseInput | 1/src/lib.rs:22-33 | the loop that pushes a zero on a blank line and adds each number to the last total computes the fold `Totals` |
| CalorieCounting.TotalsSum | 1/src/lib.rs:22-33 | the totals add up to the sum of all numbers read: nothing is lost or counted twice |
| CalorieCounting.PartOne | 1/src/lib.rs:12-14 | the answer is one of the totals and no total exceeds it |
| CalorieCounting.PartTwoBounds | 1/src/lib.rs:16-20 | the sum of the three largest totals (fewer if there are fewer) lies between the largest total and three times it |
| Common.SortDesc | 1/src/lib.rs:17-19 | `sort_unstable` then `rev`: the result is sorted from largest to smallest and is a permutation of the input |
| Common.SortDescHead | 1/src/lib.rs:17-19 | the sorted sequence keeps its length and starts with the maximum |
| Common.ParseNatOfNatToString | 1/src/lib.rs:28 | `str::parse::<usize>` reads back every decimal numeral it is given |
| Common.ParseIntOfIntToString | 10/src/lib.rs:74 | `str::parse` for signed integers reads back every signed decimal numeral |
| Common.SplitJoin | 4/src/lib.rs:35-36 | `split` at a separator inverts joining with that separator, for pieces that do not contain it |
| Common.WordsJoin | 10/src/lib.rs:71 | `split_whitespace` of two texts joined by a blank is the words of the first followed by the words of the second |
| RockPaperScissors.ScoreOne | 2/src/lib.rs:12-28 | the nine-entry table of part one scores 1 to 9 and equals the rules: the shape's value plus 0, 3 or 6 for a loss, draw or win |
| RockPaperScissors.Respond | 2/src/lib.rs:34-53 | the shape answered to the opponent gives exactly the wanted outcome (X lose, Y draw, Z win) |
| RockPaperScissors.ScoreTwo | 2/src/lib.rs:34-53 | the table of part two scores the round played with the responding shape, 1 to 9 |
| RockPaperScissors.ScoreTwoOutcome | 2/src/lib.rs:34-53 | part two's score is three per step of the wanted outcome plus the value of the shape that achieves it |
| RockPaperScissors.PartOne | 2/src/lib.rs:30-32 | the total lies between one and nine points per round |
| RockPaperScissors.PartTwo | 2/src/lib.rs:55-57 | the total lies between one and nine points per round |
| RockPaperScissors.PartTwoPlayed | 2/src/lib.rs:55-57 | part two's total is part one's total of the rounds actually played |
| RockPaperScissors.ParseInput | 2/src/lib.rs:59-70 | parsing succeeds exactly when every line has at least three characters, and then yields each line's first and third characters |
| RucksackReorganization.Priority | 3/src/lib.rs:12-18 | a..z score 1..26 and A..Z score 27..52, each letter at its offset |
| RucksackReorganization.PriorityInjective | 3/src/lib.rs:12-18 | different letters have different priorities |
| RucksackReorganization.Dedup | 3/src/lib.rs:27 | `dedup` keeps the same characters, leaves no two equal neighbours and keeps the first character first |
| RucksackReorganization.DedupFixed | 3/src/lib.rs:27 | text with no two equal neighbours comes back unchanged, so `dedup` collapses only adjacent repeats |
| RucksackReorganization.DedupIdempotent | 3/src/lib.rs:27 | deduplicating twice is deduplicating once |
| RucksackReorganization.SharedTypes | 3/src/lib.rs:23-27 | a character is among a rucksack's shared items exactly when both halves of the line hold it |
| RucksackReorganization.RucksackOneType | 3/src/lib.rs:20-31 | a rucksack whose halves share exactly one letter scores that letter's priority, however often it occurs |
| RucksackReorganization.RucksackNothingShared | 3/src/lib.rs:20-31 | a rucksack whose halves share nothing scores 0 |
| RucksackReorganization.BadgeIndex | 3/src/lib.rs:37-41 | the badge is the first character of the first rucksack that both others hold |
| RucksackReorganization.OnlyBadge | 3/src/lib.rs:37-42 | when the three rucksacks of a group share exactly one item type, that type is the badge |
| RucksackReorganization.PartTwoBounds | 3/src/lib.rs:33-47 | part two scores each full group of three once, 1 to 52 points each; a remainder of one or two lines scores nothing |
| CampCleanup.Symmetric | 4/src/lib.rs:13-29 | neither test depends on which elf of the pair is named first |
| CampCleanup.ContainsWithin | 4/src/lib.rs:13-20 | for well-formed ranges, part one's test holds exactly when every section of one range belongs to the other |
| CampCleanup.OverlapsShared | 4/src/lib.rs:22-29 | for well-formed ranges, part two's test holds exactly when the ranges share a section |
| CampCleanup.PartOneAtMostPartTwo | 4/src/lib.rs:13-29 | with well-formed ranges every pair part one counts is also counted by part two |
| CampCleanup.ParseInput | 4/src/lib.rs:31-46 | a successful parse has one pair per line, each read from its line |
| CampCleanup.ParseRendered | 4/src/lib.rs:31-46 | a pair written `a-b,c-d` reads back as that pair |
| SupplyStacks.RevRev | 5/src/lib.rs:25 | reversing twice gives back the crates: the one-at-a-time crane's reversal loses nothing |
| SupplyStacks.MoveEffect | 5/src/lib.rs:22-25 | a move fails exactly when the source would panic (a stack index out of range or too few crates); otherwise it leaves the other stacks alone, takes the top `amount` crates off the source stack and lands them on the destination; a move onto its own stack reverses the top crates under the one-at-a-time crane and leaves the stacks unchanged under the other |
| SupplyStacks.MoveConserves | 5/src/lib.rs:22-25 | a move keeps every crate |
| SupplyStacks.MoveUndo | 5/src/lib.rs:22-25 | moving the same number of crates back restores the stacks, with either crane |
| SupplyStacks.SingleCrateSame | 5/src/lib.rs:20-38 | a move of at most one crate is the same for both cranes |
| SupplyStacks.RunReversed | 5/src/lib.rs:22 | popping the moves, which the parser stores last-first, makes them in file order |
| SupplyStacks.RunConserves | 5/src/lib.rs:22-26 | running the moves keeps the number of stacks and every crate |
| SupplyStacks.Tops | 5/src/lib.rs:27 | `map_while(last)`: the top crate of each stack in turn, stopping at the first empty stack |
| SupplyStacks.MoveCrates | 5/src/lib.rs:23-25 | `split_off` and `extend` on the stacks in place make the move `ApplyMove` describes |
| SupplyStacks.SolvePartOne | 5/src/lib.rs:20-28 | the loop popping moves computes the tops after running them with the one-at-a-time crane, or fails where the source panics |
| SupplyStacks.SolvePartTwo | 5/src/lib.rs:30-38 | the same with the crane that moves the crates all at once |
| SupplyStacks.ParseStacks | 5/src/lib.rs:40-76 | the fold over the lines from last to first computes `ParseInput` |
| SupplyStacks.ReadCrateRow | 5/src/lib.rs:47-53 | the loop over chunks of three characters pushes each letter at index 4k+1 onto stack k |
| SupplyStacks.FoldFails | 5/src/lib.rs:44-75 | a line that fails stops the whole fold |
| SupplyStacks.ParseDrawing | 5/src/lib.rs:46-54 | reading the crate drawing bottom up rebuilds the stacks one level at a time |
| SupplyStacks.ParseLabelLine | 5/src/lib.rs:55-62 | the stack-number line `1 ... n` (n up to 255, the `u8` labels) resets the stacks to n empty ones |
| SupplyStacks.ParseMoveLine | 5/src/lib.rs:63-71 | `move a from s to d` appends the move with 0-based stack indices |
| SupplyStacks.ParseNotes | 5/src/lib.rs:40-76 | the notes for 1 to 255 stacks of letter crates and any moves read back as those stacks and the moves, last first |
| SupplyStacks.NotesRunInOrder | 5/src/lib.rs:20-76 | solving parsed notes runs their moves in the order they are written |
| TuningTrouble.DistinctCount | 6/src/lib.rs:19 | a window's set of bytes has at most as many members as the window has bytes, and exactly as many when no byte repeats |
| TuningTrouble.FirstMarker | 6/src/lib.rs:15-22 | the search from index i finds a qualifying window at or after i, and none qualifies before it |
| TuningTrouble.FirstUniqueOffset | 6/src/lib.rs:14-23 | the offset lies between `sz` and the input length |
| TuningTrouble.FirstUniqueLeast | 6/src/lib.rs:14-23 | the `sz` bytes before the offset are all different, and every earlier window of `sz` bytes repeats one |
| TuningTrouble.PacketBeforeMessage | 6/src/lib.rs:25-31 | a start-of-message marker implies a start-of-packet marker, and the packet starts no later than the message |
| NoSpaceLeftOnDevice.DirSize | 7/src/lib.rs:30-37 | a directory's size is at least the size of the files listed directly in it |
| NoSpaceLeftOnDevice.ChildAtMostParent | 7/src/lib.rs:30-37 | a subdirectory is no larger than its parent |
| NoSpaceLeftOnDevice.AtMostRoot | 7/src/lib.rs:30-37 | no directory is larger than the root |
| NoSpaceLeftOnDevice.FirstNamed | 7/src/lib.rs:73-77 | `find` by name gives the first child with that name, and fails exactly when no child has it |
| NoSpaceLeftOnDevice.ChangeDirTarget | 7/src/lib.rs:69-79 | `cd ..` moves to the parent and fails only at the root, `cd /` leaves the directory unchanged, and `cd name` moves to the first child so named, failing when there is none; the tree is never changed |
| NoSpaceLeftOnDevice.Step | 7/src/lib.rs:67-91 | one line of the fold keeps the directory table a tree with a valid current directory |
| NoSpaceLeftOnDevice.ApplyEffect | 7/src/lib.rs:80-87 | `dir` appends a new entry and links it under the current directory, a file line adds its size to the current directory, and no other entry changes |
| NoSpaceLeftOnDevice.RunStopped | 7/src/lib.rs:67-91 | a line that panics stops the whole fold |
| NoSpaceLeftOnDevice.ApplyInPlace | 7/src/lib.rs:68-89 | the in-place update of the table and the current index computes `Apply`, and reports failure exactly where the source panics |
| NoSpaceLeftOnDevice.ParseInput | 7/src/lib.rs:62-94 | the fold over the lines computes `Run`, fails exactly where it does, and yields a tree |
| NoSpaceLeftOnDevice.RunTotal | 7/src/lib.rs:80-87 | the file sizes recorded in the table add up to the sizes listed in the terminal output |
| NoSpaceLeftOnDevice.RunWhole | 7/src/lib.rs:62-94 | every directory of the table is reached from the root by exactly one path |
| NoSpaceLeftOnDevice.RootHoldsAll | 7/src/lib.rs:30-37 | the root's size is the total of every file size listed in the terminal output |
| NoSpaceLeftOnDevice.Sizes | 7/src/lib.rs:40-43 | the sizes of all directories, in table order |
| NoSpaceLeftOnDevice.PartOneCounts | 7/src/lib.rs:39-46 | a directory of at most 100000 counts toward part one, and so does its small subdirectory on top of it; the sum is at most 100000 per directory |
| NoSpaceLeftOnDevice.LeastAtLeast | 7/src/lib.rs:57-59 | the smallest size that reaches the need, which is one of the sizes; none when no size reaches it |
| NoSpaceLeftOnDevice.PartTwoAnswer | 7/src/lib.rs:48-60 | part two has an answer exactly when 40000000 <= used <= 70000000 (the two subtractions do not underflow); it is the size of the smallest directory that frees enough, between the need and the root's size |
| TreetopTreeHouse.Ray | 8/src/lib.rs:44-57 | the trees met walking from a tree in one direction up to and including the border, each at its own grid position |
| TreetopTreeHouse.BorderAtEnd | 8/src/lib.rs:48-52 | from an inner tree, the walk meets the border exactly at the last tree of the ray |
| TreetopTreeHouse.SeesEdge | 8/src/lib.rs:45-57 | the inner `while` loop reaches the border exactly when every tree of the ray is shorter than the tree looked from |
| TreetopTreeHouse.IsTreeVisible | 8/src/lib.rs:40-60 | `is_tree_visible` holds exactly for a border tree or a tree that sees the border in some direction |
| TreetopTreeHouse.ViewDistance | 8/src/lib.rs:22-35 | the view distance counts the shorter trees and then stops at the first tree at least as tall, or at the border; it is at least 1 on a non-empty ray |
| TreetopTreeHouse.ViewDistanceUnique | 8/src/lib.rs:22-35 | any count with those properties is the view distance |
| TreetopTreeHouse.ClearSeesAll | 8/src/lib.rs:22-35 | a tree taller than all trees of the ray sees all the way to the border |
| TreetopTreeHouse.ScenicBounds | 8/src/lib.rs:14-38 | a tree scores 0 exactly when it stands on the border; otherwise each view distance is between 1 and the distance to the border |
| TreetopTreeHouse.ViewWalk | 8/src/lib.rs:20-35 | the `loop` that counts trees computes the view distance |
| TreetopTreeHouse.GetScenicScore | 8/src/lib.rs:14-38 | the fold over the four directions computes the product of the view distances |
| TreetopTreeHouse.EdgeRowAllVisible | 8/src/lib.rs:62-73 | every tree of the first and last rows is visible |
| TreetopTreeHouse.PartOneBounds | 8/src/lib.rs:62-73 | the count of visible trees lies between one row's width and the number of trees |
| TreetopTreeHouse.Best | 8/src/lib.rs:83 | `max` of the scores of a row: none for an empty row, otherwise one of them and no smaller than any |
| TreetopTreeHouse.BestInRows | 8/src/lib.rs:85-86 | `max` then `flatten` over the rows: none exactly when every row is empty, otherwise a score in some row and no smaller than any |
| TreetopTreeHouse.Scores | 8/src/lib.rs:79-82 | the scenic score of every tree, row by row |
| TreetopTreeHouse.PartTwoBest | 8/src/lib.rs:75-88 | part two fails (the `unwrap` panics) exactly on an empty grid, and otherwise is the score of some tree and at least the score of every tree |
| TreetopTreeHouse.ParseLine | 8/src/lib.rs:93 | `map_while(to_digit)`: the values of the leading digits of the line, stopping at the first other character |
| TreetopTreeHouse.ParseInput | 8/src/lib.rs:90-95 | one row per line, each the line's leading digits |
| TreetopTreeHouse.ParseRender | 8/src/lib.rs:93 | a row of heights written as digits reads back as that row, whatever non-digit text follows |
| RopeBridge.AdjacentSymmetricReflexive | 9/src/lib.rs:38-41 | `is_adjacent` is symmetric and reflexive, and means a Chebyshev distance of at most one |
| RopeBridge.FollowHead | 9/src/lib.rs:43-66 | the searches over the adjacency table compute `Follow`, for knots at most two apart (the `unreachable!` is never reached there) |
| RopeBridge.FollowAdjacentStays | 9/src/lib.rs:44-46 | a knot touching its leader stays put |
| RopeBridge.FollowCatchesUp | 9/src/lib.rs:43-66 | after the move the knot touches its leader and has moved at most one step in each axis |
| RopeBridge.FollowStraightOrDiagonal | 9/src/lib.rs:47-64 | a knot in line with its leader steps one toward it along that line; otherwise it steps diagonally |
| RopeBridge.StepRopeIndex | 9/src/lib.rs:95-97 | one step moves the head by one in the direction, and each later knot follows the knot before it as already moved |
| RopeBridge.StepRopeTaut | 9/src/lib.rs:93-103 | one step keeps every knot touching the knot before it |
| RopeBridge.RunTaut | 9/src/lib.rs:93-103 | so does any run of steps |
| RopeBridge.RunHead | 9/src/lib.rs:68-75 | n unit moves take the head where `apply_step` with distance n takes it |
| RopeBridge.VisitedBounds | 9/src/lib.rs:77-105 | the tail visits at most one position per unit move, and at least one when there is a move |
| RopeBridge.SolvePartOne | 9/src/lib.rs:77-88 | the nested loops count the positions the tail of a two-knot rope starting at (0, 4) visits |
| RopeBridge.SolvePartTwo | 9/src/lib.rs:90-105 | the loops count the positions the tail of a ten-knot rope starting at (11, 15) visits |
| RopeBridge.PullKnots | 9/src/lib.rs:95-101 | updating the knot array in place makes the step `StepRope` describes |
| RopeBridge.FirstSpace | 9/src/lib.rs:109 | `split_once(' ')` splits at the first blank, and fails exactly when there is none |
| RopeBridge.ParseInput | 9/src/lib.rs:107-120 | one step per line, each read from its line |
| RopeBridge.ParseStepLine | 9/src/lib.rs:107-120 | a step written as its letter, a blank and its distance reads back as that step |
| RopeBridge.DirectionOfLetter | 9/src/lib.rs:111-116 | exactly U, D, L and R name a direction, and each names its own |
| CathodeRayTube.Xs | 10/src/lib.rs:36-42 | the register after each opcode: one value more than there are opcodes, starting at 1, each the previous value updated by its opcode |
| CathodeRayTube.XsAdded | 10/src/lib.rs:19-24 | the register after i opcodes is 1 plus the sum of the `addx` operands among them |
| CathodeRayTube.StepSumSampled | 10/src/lib.rs:45-48 | `skip(19).step_by(40)` visits exactly the indices that fall on cycle 20 of a 40-cycle line |
| CathodeRayTube.PartOneSampled | 10/src/lib.rs:35-49 | part one is the sum of the signal strengths at cycles 20, 60, 100, ... |
| CathodeRayTube.Pixel | 10/src/lib.rs:27-33 | a pixel is lit exactly when the sprite's middle is within one column of the cycle's column |
| CathodeRayTube.ScreenPixels | 10/src/lib.rs:55-59 | the fold ends with the final register, and its pixel j is drawn with the register after j opcodes |
| CathodeRayTube.Rows | 10/src/lib.rs:61-63 | `chunks_exact(40)`: the full 40-pixel rows in order, a partial last row dropped |
| CathodeRayTube.ImagePixel | 10/src/lib.rs:51-65 | column c of row k of the image is lit exactly when the register at pixel 40k+c is within one of c |
| CathodeRayTube.PartTwoRows | 10/src/lib.rs:61-64 | splitting the image at newlines gives back its rows: `join("\n")` loses nothing |
| CathodeRayTube.ParseLine | 10/src/lib.rs:71-77 | a line becomes a `noop`, or a `noop` followed by an `addx` |
| CathodeRayTube.ParseInput | 10/src/lib.rs:67-81 | the opcodes number one per line plus one per `addx`, and every `addx` comes after its own `noop` |
| CathodeRayTube.ParseNoop | 10/src/lib.rs:72 | the line `noop` reads as one `noop` |
| CathodeRayTube.ParseAddx | 10/src/lib.rs:73-76 | the line `addx n` reads as a `noop` then `addx n`, for every integer n |
| MonkeyInTheMiddle.InspectMoves | 11/src/lib.rs:36-46 | one inspection takes the front item, counts it, raises its worry by the operation, applies the relief, and appends it to the target chosen by the test; no other monkey changes |
| MonkeyInTheMiddle.TurnCounts | 11/src/lib.rs:36-37 | a turn counts exactly the items the monkey held and touches no other monkey's count |
| MonkeyInTheMiddle.Turn | 11/src/lib.rs:36-47 | a turn leaves the monkey with no items and keeps every monkey's operation, test and targets |
| MonkeyInTheMiddle.DoTurn | 11/src/lib.rs:36-47 | the `while let` loop over the monkey's queue computes the turn |
| MonkeyInTheMiddle.DoRound | 11/src/lib.rs:31-50 | `do_round`'s loop over the monkeys in index order computes the round |
| MonkeyInTheMiddle.TurnConserves | 11/src/lib.rs:36-47 | a turn neither loses nor creates items |
| MonkeyInTheMiddle.RoundConserves | 11/src/lib.rs:31-50 | a round neither loses nor creates items |
| MonkeyInTheMiddle.Rounds | 11/src/lib.rs:53-54 | the fold of `do_round` keeps the number of monkeys and their targets valid |
| MonkeyInTheMiddle.MonkeyBusinessTopTwo | 11/src/lib.rs:55-60 | `sorted().rev().take(2).product()` is the product of the counts of two different monkeys: the largest count, and a second count no smaller than the smaller of any two counts |
| MonkeyInTheMiddle.TestProduct | 11/src/lib.rs:64 | the product of the tests is positive when every test is |
| MonkeyInTheMiddle.RoundsCongruent | 11/src/lib.rs:63-66 | rounds that reduce the worry modulo a common multiple of the tests stay congruent to rounds without relief |
| MonkeyInTheMiddle.PartTwoMatchesUnreduced | 11/src/lib.rs:63-66 | reducing modulo the product of the tests leaves every inspection count as it is without reduction |
| MonkeyInTheMiddle.PartTwoUnreduced | 11/src/lib.rs:63-73 | part two's answer is the monkey business of 10000 rounds with no relief at all |
| MonkeyInTheMiddle.TrimEndCommas | 11/src/lib.rs:96 | `trim_end_matches(',')` leaves a prefix that does not end in a comma |
| MonkeyInTheMiddle.ParseItemsLine | 11/src/lib.rs:93-98 | the line `Starting items: a, b, c` reads back as the items |
| MonkeyInTheMiddle.ParseOpLine | 11/src/lib.rs:100-111 | each operation line reads back as its operation |
| MonkeyInTheMiddle.ParseOpOldPlusOld | 11/src/lib.rs:106 | `old + old` reads as doubling, which is adding the worry to itself |
| MonkeyInTheMiddle.ParseTestLine | 11/src/lib.rs:113-115 | the test line reads back as its divisor |
| MonkeyInTheMiddle.ParseDecisionsRoute | 11/src/lib.rs:117-121 | the two decision lines route a divisible worry to the "if true" monkey and any other to the "if false" monkey |
| MonkeyInTheMiddle.ParseMonkeyChunk | 11/src/lib.rs:80-89 | a chunk of seven lines describing a monkey reads back as that monkey |
| MonkeyInTheMiddle.ParseInputNotes | 11/src/lib.rs:75-91 | the notes for any monkeys read back as those monkeys |
| HillClimbing.WalkWithin | 12/src/lib.rs:32-35 | the end of a climbable walk of at most k steps from the start is within k steps |
| HillClimbing.WithinWalk | 12/src/lib.rs:32-35 | every square within k steps is the end of a climbable walk of at most k steps |
| HillClimbing.WithinMonotone | 12/src/lib.rs:20-39 | what is reachable within j steps is reachable within any k >= j |
| HillClimbing.ShortestIs | 12/src/lib.rs:20-39 | the least number of steps that reaches the target is the shortest distance |
| HillClimbing.ShortestNone | 12/src/lib.rs:38 | a target no number of steps reaches has distance `usize::MAX` |
| HillClimbing.ShortestWalks | 12/src/lib.rs:20-39 | a finite distance is the length of a climbable walk to the target, and every walk to the target is at least that long |
| HillClimbing.Expand | 12/src/lib.rs:32-36 | the loop over the children appends each climbable child, one step further on, in the children's order |
| HillClimbing.ShortestDistance | 12/src/lib.rs:20-39 | `get_shortest_distance`'s breadth-first search returns the shortest distance, or `usize::MAX` when the target cannot be reached |
| HillClimbing.SolvePartOne | 12/src/lib.rs:41-43 | part one is the shortest distance from S to E |
| HillClimbing.BestFrom | 12/src/lib.rs:45-53 | the least distance to the target over all squares of height `a`; none when there is no such square |
| HillClimbing.SolvePartTwo | 12/src/lib.rs:45-53 | the loop over the squares of height `a` computes that least distance (the `unwrap` needs one such square) |
| HillClimbing.PartTwoAtMostPartOne | 12/src/lib.rs:41-53 | since S has height `a`, part two's answer is no larger than part one's |
| HillClimbing.Height | 12/src/lib.rs:62-72 | S has height `a`, E has height `z`, and every square's height is a byte |
| HillClimbing.Row | 12/src/lib.rs:61-93 | one node per character of the line |
| HillClimbing.ParseGrid | 12/src/lib.rs:55-97 | the fold over the lines computes `ParseInput` |
| HillClimbing.ChildrenInGrid | 12/src/lib.rs:74-90 | a square's children are exactly its four neighbours that lie inside the grid, each as the index `y * width + x` |
| HillClimbing.ParseGridShape | 12/src/lib.rs:55-97 | a rectangular grid gives one node per square, and every child index names a node |
| HillClimbing.ParseGridCell | 12/src/lib.rs:61-93 | the node of square (x, y) has that square's height and its in-grid neighbours as children |
| HillClimbing.ParseStartEnd | 12/src/lib.rs:63-70 | with a single S and a single E, start and end are their indices |
| DistressSignal.Cmp | 13/src/lib.rs:106-135 | two integers compare as numbers |
| DistressSignal.CmpListsLexicographic | 13/src/lib.rs:111-125 | lists compare at their first unequal element; a list that runs out first is smaller, and lists that run out together are equal |
| DistressSignal.CmpWrapsInteger | 13/src/lib.rs:127-132 | an integer compared with a list compares as the one-element list holding it |
| DistressSignal.CmpReflexive | 13/src/lib.rs:106-135 | every packet is equal to itself |
| DistressSignal.CmpAntisymmetric | 13/src/lib.rs:106-135 | swapping the operands reverses the ordering |
| DistressSignal.CmpTransitive | 13/src/lib.rs:106-135 | the ordering is transitive, so `sorted` is well defined |
| DistressSignal.EqMeansCmpEqual | 13/src/lib.rs:93-98 | `==` is `cmp` returning `Equal`; it is reflexive and symmetric |
| DistressSignal.Compare | 13/src/lib.rs:106-135 | the `cmp` method with its element loop computes `Cmp` |
| DistressSignal.CompareLists | 13/src/lib.rs:111-125 | the loop over both iterators computes the list comparison |
| DistressSignal.ParseAt | 13/src/lib.rs:64-90 | `parse_rec` only moves forward, and consumes at least one character when it yields a packet |
| DistressSignal.Parse | 13/src/lib.rs:59-62 | empty text, or text that starts with `]`, gives no packet |
| DistressSignal.ParseInput | 13/src/lib.rs:44-46 | `filter_map` keeps at most one packet per line |
| DistressSignal.Cursor.Next | 13/src/lib.rs:60-61 | `next` on the peekable characters returns what `peek` showed and moves past it, staying put at the end |
| DistressSignal.ReadDigits | 13/src/lib.rs:69-72 | the loop takes exactly the run of digits at the cursor |
| DistressSignal.ParseRec | 13/src/lib.rs:64-90 | the recursive parser on the shared cursor computes `ParseAt` and leaves the cursor where `ParseAt` ends |
| DistressSignal.ParsePacket | 13/src/lib.rs:59-62 | `Packet::parse` computes `Parse` |
| DistressSignal.ParseRendered | 13/src/lib.rs:64-90 | a packet written out at any position, followed by a non-digit or the end, parses back to that packet and ends right after it |
| DistressSignal.ParseOfRender | 13/src/lib.rs:59-90 | every packet written out parses back to itself |
| DistressSignal.ParseInputSkipsBlankLines | 13/src/lib.rs:44-46 | lines holding written packets read back as those packets, and a blank line contributes nothing |
| DistressSignal.PartOneSwapped | 13/src/lib.rs:22-28 | with no equal pair, part one plus part one of the pairs swapped is 1 + 2 + ... + (number of pairs): each index is counted exactly once |
| DistressSignal.DividersParse | 13/src/lib.rs:31-34 | `[[2]]` and `[[6]]` parse to the two divider packets |
| DistressSignal.DividersOrdered | 13/src/lib.rs:31-34 | the divider `[[2]]` sorts before `[[6]]` |
| DistressSignal.Insert | 13/src/lib.rs:38 | insertion keeps the sequence sorted and adds exactly the one packet |
| DistressSignal.SortPackets | 13/src/lib.rs:38 | `sorted`: the result is sorted and a permutation of the input |
| DistressSignal.CountLessPermutation | 13/src/lib.rs:38-40 | the number of packets below a divider does not depend on their order |
| DistressSignal.PartTwoWithCountsLess | 13/src/lib.rs:30-42 | for dividers a < b that no input packet equals, part two is (packets below a + 1) times (packets below b + 2) |
| RegolithReservoir.WindowsCells | 14/src/lib.rs:30-39 | a cell is rock exactly when it lies in the box between some pair of consecutive corners of the path |
| RegolithReservoir.PathCorners | 14/src/lib.rs:30-39 | every corner of a path with at least two points is rock |
| RegolithReservoir.InsertRow | 14/src/lib.rs:35-37 | the inner loop adds exactly the cells from sx to ex of row y |
| RegolithReservoir.InsertBox | 14/src/lib.rs:34-38 | the two nested loops add exactly the box between the corners |
| RegolithReservoir.AddRock | 14/src/lib.rs:29-41 | `add_rock` adds exactly the cells of the path to the cave |
| RegolithReservoir.BuildCave | 14/src/lib.rs:48 | the fold of `add_rock` over the paths builds the cave of all their rock |
| RegolithReservoir.DropSand | 14/src/lib.rs:16-27 | a grain only falls, never below the floor h when it starts above it, spreads at most one column per row fallen, rests on a free cell unless it never moved, and rests where all three cells below are blocked or lie past the floor |
| RegolithReservoir.FewerFree | 14/src/lib.rs:55 | each resting grain leaves one free cell fewer in the region sand can reach |
| RegolithReservoir.PourOne | 14/src/lib.rs:50-58 | the grains that stay are new cells of the reachable region, one per count |
| RegolithReservoir.PourOneEnds | 14/src/lib.rs:52 | part one's loop stops at the first grain that lands at x >= w or y >= h |
| RegolithReservoir.PourOneStuck | 14/src/lib.rs:50-58 | when part one has no answer, the loop reaches a cave whose source is filled and where every grain rests on the source again, so the loop never ends |
| RegolithReservoir.PourTwo | 14/src/lib.rs:65-73 | part two counts at least one grain; every grain but the last one (the one that stays at the source) adds a new cell of the region, and the count ends when a grain rests at (500, 0) |
| RegolithReservoir.SourceBlocked | 14/src/lib.rs:67 | when part two stops, the source is blocked: the cells below it are all filled |
| RegolithReservoir.MaxX | 14/src/lib.rs:44-47 | the fold from 0 is at least every x, and is 0 or one of them |
| RegolithReservoir.MaxY | 14/src/lib.rs:44-47 | the fold from 0 is at least every y, and is 0 or one of them |
| RegolithReservoir.PourFirst | 14/src/lib.rs:49-58 | the loop of part one counts the grains `PourOne` describes |
| RegolithReservoir.PourSecond | 14/src/lib.rs:64-73 | the loop of part two counts the grains `PourTwo` describes |
| RegolithReservoir.SolvePartOne | 14/src/lib.rs:43-59 | `solve_part_one` computes part one, with no answer where its loop never ends |
| RegolithReservoir.SolvePartTwo | 14/src/lib.rs:61-74 | `solve_part_two` computes part two |
| RegolithReservoir.TrimPadded | 14/src/lib.rs:83 | `trim` removes exactly the blanks around a word |
| RegolithReservoir.SplitArrowAt | 14/src/lib.rs:80 | `split("->")` cuts at the first arrow of text whose first part holds no dash |
| RegolithReservoir.ParsePoints | 14/src/lib.rs:81-88 | a successful parse gives one point per piece |
| RegolithReservoir.ParseInput | 14/src/lib.rs:76-92 | a successful parse gives one path per line |
| RegolithReservoir.ParseLineRender | 14/src/lib.rs:76-92 | a path of points with non-negative coordinates, written `x,y -> x,y -> ...`, reads back as that path |
| BeaconExclusionZone.Readings | 15/src/lib.rs:36-38 | `tuples()` pairs the points as sensor then beacon, a trailing odd point dropped |
| BeaconExclusionZone.PairUp | 15/src/lib.rs:63 | the numbers of a line paired as points, a trailing odd number dropped |
| BeaconExclusionZone.ParseFormattedLine | 15/src/lib.rs:57-67 | a report line `Sensor at x=.., y=..: closest beacon is at x=.., y=..` reads back as its sensor and beacon, for any signed coordinates |
| BeaconExclusionZone.Coverage | 15/src/lib.rs:91-94 | a sensor contributes a range on a row exactly when the row is closer to it than its beacon, and the range is then not empty |
| BeaconExclusionZone.CoverageCells | 15/src/lib.rs:91-94 | a cell lies in a sensor's range on its row exactly when it is within the beacon's Manhattan distance of the sensor, on a row strictly closer to the sensor than that distance |
| BeaconExclusionZone.Scan | 15/src/lib.rs:87-97 | at most one range per sensor, each non-empty |
| BeaconExclusionZone.ScanUnion | 15/src/lib.rs:87-97 | a cell lies in some scanned range exactly when some sensor covers it |
| BeaconExclusionZone.ScanMirrorRows | 15/src/lib.rs:87-97 | a sensor covers the same range on the rows k above and k below it |
| BeaconExclusionZone.Clamp | 15/src/lib.rs:79-81 | the clamped range keeps exactly the cells of the range between 0 and max, and leaves a range already inside unchanged |
| BeaconExclusionZone.IntersectsMeaning | 15/src/lib.rs:83-85 | for non-empty ranges `intersects` is symmetric and holds exactly when they share a cell |
| BeaconExclusionZone.Sort | 15/src/lib.rs:100 | `sorted`: ordered by start then end, and a permutation of the input |
| BeaconExclusionZone.SortSorted | 15/src/lib.rs:100 | sorting sorted ranges changes nothing |
| BeaconExclusionZone.Merge | 15/src/lib.rs:99-113 | the fold with its in-place update of the last range computes `Merged` |
| BeaconExclusionZone.MergedProperties | 15/src/lib.rs:99-113 | for every input, inverted ranges included, the merged ranges are no more than the inputs, sorted, with no range intersecting the one before it, inside 0..=upper_bound, and cover exactly the input cells within those bounds; when clamping leaves no inverted range they are also pairwise disjoint with a gap between neighbours |
| BeaconExclusionZone.MergeIdempotent | 15/src/lib.rs:99-113 | for every input, inverted ranges included, merging merged ranges changes nothing |
| BeaconExclusionZone.MergeKeepsInverted | 15/src/lib.rs:79-81 | clamping a range that lies wholly left of 0 leaves an inverted range, which the merge keeps |
| BeaconExclusionZone.CoveredIsUnion | 15/src/lib.rs:26-34 | the set the fold builds from the ranges holds exactly the cells of the ranges |
| BeaconExclusionZone.BeaconsOnRowMeaning | 15/src/lib.rs:36-42 | the removed cells are exactly the x of the beacons on the row |
| BeaconExclusionZone.InsertRange | 15/src/lib.rs:29-31 | the `for_each` over a range inserts exactly its cells |
| BeaconExclusionZone.PartOne | 15/src/lib.rs:25-45 | the count of covered cells of the row with the beacons on it removed |
| BeaconExclusionZone.PartOneCells | 15/src/lib.rs:25-45 | a cell is counted exactly when some sensor covers it and no beacon sits on it |
| BeaconExclusionZone.PartTwo | 15/src/lib.rs:47-55 | the first row from 0 to the bound whose merged ranges are exactly two gives the frequency (x + 1) * 4000000 + y, with x the end of the first range; none when no row has two (the `unreachable!`) |
| BeaconExclusionZone.GapCellUncovered | 15/src/lib.rs:47-55 | when the two ranges leave a gap, the cell after the first range lies inside the bounds and no sensor covers it |
| BeaconExclusionZone.TwoIntervalsWithoutGap | 15/src/lib.rs:47-55 | two ranges that touch without overlapping, such as 0..=5 and 6..=20, are not merged, so a row can have two ranges with no uncovered cell between them |

## Left out

- `solve` and its `println!` output, the `include_str!` inputs with their `cfg(debug_assertions)` switch, the tests' expected answers for those input files, and the benchmarks: they are I/O and test scaffolding around the modelled functions.
- `str::lines` is not modelled: every parser takes the lines already split.
- Library containers are replaced by Dafny values: `BTreeSet` is a `set`, `VecDeque` is a `seq`, and `Vec` is a `seq`. The in-place steps the source performs are modelled in place where they matter (the stacks array of day 5, the knot array of day 9, day 13's cursor object).
- Machine integers are unbounded in the model, so none of these is modelled:
  - the `usize` overflow of day 1's totals, day 7's sizes and day 11's worry levels (`item * item` at 11/src/lib.rs:41);
  - the `i32` overflow of day 10's register, day 14's coordinates and day 15's frequency (15/src/lib.rs:51);
  - the `u8` overflow of `value + 1` at height 255 on day 12;
  - the width of a parsed number. Day 13 parses a digit run into a `usize` with `.ok()` (13/src/lib.rs:73). A run above `usize::MAX` gives `None` there, so the list ends early and the next character is consumed. `DistressSignal.ParseAt` always yields the integer;
  - the `i32` parses with `.ok()` of day 14 (14/src/lib.rs:85) and day 15 (15/src/lib.rs:62). The source silently drops a number that does not fit in `i32`, while `Common.Integers` keeps it.
- Characters are compared as Unicode code points, and a character is whitespace only when it is ASCII whitespace. The puzzle inputs are ASCII, so `char::is_alphabetic`, `is_ascii_punctuation`, `split_whitespace` and `trim` are modelled on ASCII. Day 3's `split_at(len / 2)` counts characters, not bytes.
- `sort_unstable` (day 1), `sorted` (days 11, 13, 15) and the day 13 `Ord` are modelled by sorting functions whose results are sorted permutations. Which of two equal elements comes first is not modelled.
- The release-mode constants of day 15 (`ROW`, `UPPER_BOUND`) are parameters of `BeaconExclusionZone.PartOne` and `BeaconExclusionZone.PartTwo`.
- Panics on malformed input are preconditions or `None` results:
  - a short line on day 2;
  - a non-letter shared item or a missing badge on day 3;
  - a non-number on days 1 and 4;
  - a window never found on day 6;
  - an unknown direction on day 9;
  - an unknown opcode on day 10;
  - an operation line that is not `* x` or `+ x` on day 11;
  - a point without exactly two numbers on day 14.
  A source that panics has no result, so the model says nothing about what the panic prints.
- TreetopTreeHouse.PartOne, TreetopTreeHouse.Scores and TreetopTreeHouse.PartTwo require a rectangular grid (`Rectangular`). The source tests the border row by row and gives some answer on a ragged grid without panicking; that answer is not modelled.
- HillClimbing.ParseGridShape, HillClimbing.ParseGridCell and HillClimbing.ParseGridValid are stated for rectangular grids only. On a ragged grid the source's `y * width + x` indices (12/src/lib.rs:80-89) follow the first row's width, so the graph is garbled and may or may not hold an index past the end. HillClimbing.SolvePartOne and HillClimbing.SolvePartTwo require `Valid`, that is every child index names a node. The source's answers on grids outside that are not modelled.
- NoSpaceLeftOnDevice: `cd /` keeps the current directory, as the source does (7/src/lib.rs:72), rather than returning to the root.
- RegolithReservoir.PourOne: where the source's part-one loop never ends (sand keeps resting at the filled source), the model answers `None` and proves that the source is blocked; it does not model the non-termination itself.
- RegolithReservoir.ParseLineRender: the round trip is stated for non-negative coordinates only, which is what the cave uses; the parser itself accepts signed numbers.
- SupplyStacks.ParseNotes: the round trip is stated for 1 to 255 stacks of letter crates; labels above 255 are not `u8` and the source skips them.
- CathodeRayTube.PartTwoRows: stated for at least 39 opcodes, so that the image holds at least one full row; with fewer the image is the empty string.
- MonkeyInTheMiddle.DoRound: the monkeys must satisfy `Valid`. That means every test is positive (a test of 0 makes `%` panic) and every target names another existing monkey. A target out of range panics. A monkey that throws to itself keeps inspecting the same item forever within its own turn.
- HillClimbing.ShortestDistance: `usize::MAX` is modelled as the constant 2^64 - 1 and is only distinguishable from a real distance because a real distance is below the number of squares.
