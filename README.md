# Advent of Code 2020 solutions, modelled in Dafny

This project models the cores of a set of Rust solutions to the 25 puzzles
of Advent of Code 2020 (one source file per day, plus
`src/modulo_article.rs`, a small library of modular arithmetic). Each source
file becomes one Dafny module (`Day1` … `Day25`, `ModuloArticle`). The
module `Day18Examples` holds the expressions of day 18's unit tests, and
the module `Util` (util.dfy) holds what they share: `Option`, a `Result` whose
`Panic` case stands for a Rust panic (`unwrap` of `None`, indexing out of
range, `unreachable!`, a failed `assert!`), and the string helpers
(`split_whitespace`, `split`, `trim`, decimal parsing) that the solutions call
from Rust's standard library.

The form of each module follows its source file. Code that only computes a
value is a function with lemmas about it. Code that updates state in place
is a class whose methods update fields (`CPU`, `ElfGame`, `Deck`,
`AllergenCandidates`, `CupRing`, the two masks of day 14, the Peekable
cursor of day 18, the sled of day 3, …) or a method with a loop. Each such
method is proved against a specification function, and the properties the
source promises are proved as lemmas about that function.

Reading files is replaced by the lines or numbers the file would give, as a
`seq<string>` or `seq<int>`. Printing, timing and the command line
(`src/main.rs`) are not modelled. Unit tests whose inputs are written in the
source are stated as lemmas; tests that read puzzle input files are left out
(those files are not part of this model).

## Model

| member | source | states |
|---|---|---|
| Day1.FindPair | src/day1.rs:6-13 | returns the lexicographically first (i, j) with i ≤ j whose entries sum to 2020 (an entry may pair with itself) and the product of the two entries; None ("Failed") exactly when no such pair exists |
| Day1.FindTriple | src/day1.rs:18-27 | returns the lexicographically first (i, j, k) with i ≤ j ≤ k summing to 2020 and the product of the three entries; None exactly when no such triple exists |
| Day2.ParsePasswordLine | src/day2.rs:33-37 | the password is the third whitespace-separated token; panics exactly when there are fewer than three tokens, or the range token does not split on '-' into at least two numbers |
| Day2.ParseFormatPasswordLine | src/day2.rs:33-37 | parsing the line "lo-hi c: pw" printed from an entry gives that entry back (letter and password without whitespace) |
| Day2.OccurrencesIsMultiplicity | src/day2.rs:14 | `matches(letter).count()` is the multiplicity of the letter in the password |
| Day2.LineValidPassword1 | src/day2.rs:12-16 | succeeds exactly when the line parses, and is then true iff lo ≤ count of the letter ≤ hi |
| Day2.LineValidPassword2 | src/day2.rs:18-31 | succeeds exactly when the line parses, and is then true iff both 1-based positions lie in 1..len and exactly one of `pw[lo-1]`, `pw[hi-1]` is the letter |
| Day2.LineValidOfFormat | src/day2.rs:12-31 | on a printed entry, both checks give the verdict of their policy on the entry itself |
| Day2.PolicyExample1 | src/day2.rs:45-58 | "1-3 a: abcde" is valid under both policies |
| Day2.PolicyExample2 | src/day2.rs:46-59 | "1-3 b: cdefg" is valid under neither policy |
| Day2.PolicyExample3 | src/day2.rs:47-60 | "2-9 c: ccccccccc" is valid under the first policy and not under the second |
| Day2.PolicyExample4 | src/day2.rs:48 | "2-9 c: cccccccccc" (ten c's) is invalid under the first policy |
| Day3.XAtVisited | src/day3.rs:23-28 | on a visited line y = q·down the sled has moved q steps to the right: x = q·right |
| Day3.XAtInBlock | src/day3.rs:23-29 | x advances by `right` only on a line whose index is a multiple of `down`, and is unchanged on the lines between |
| Day3.TreesSeenBound | src/day3.rs:21-30 | the first line never counts, so at most one tree is counted per later line: trees ≤ lines − 1 |
| Day3.SledState.constructor | src/day3.rs:17-19 | starts at x = y = 0 with no tree counted and no line seen |
| Day3.SledState.Update | src/day3.rs:21-30 | panics exactly when down is 0 or the line is visited (y % down == 0, y > 0) and empty, leaving the state as it was; otherwise y grows by one on every line, and on a visited line x grows by `right` and the count grows iff y > 0 and `line[x % len]` is '#' |
| Day3.IndexableSteep | src/day3.rs:21-30 | with down 1 no line panics exactly when no line after the first is empty, and then neither does any line with down 2 |
| Day3.SolveSlope | src/day3.rs:33-39 | panics exactly when some line panics `update`; otherwise the number of trees hit on the way down, at most lines − 1 |
| Day3.Solve2 | src/day3.rs:41-45 | panics exactly when some line after the first is empty; otherwise the product of the tree counts of the slopes (1,1), (3,1), (5,1), (7,1), (1,2) |
| Day4.PairOf | src/day4.rs:15-17 | a token yields its (key, value) pair exactly when it contains ':'; without one the second `unwrap` panics |
| Day4.LastWins | src/day4.rs:14-19 | a key named by several tokens ends up with the value of the last of them: a repeated key overwrites the earlier value |
| Day4.InsertPairsKeys | src/day4.rs:14-19 | after the tokens of a line are inserted, a key is in the record iff it was there before or some token names it |
| Day4.ScanBlank | src/day4.rs:9-13 | a line that is blank after trimming closes the record being filled and starts an empty one |
| Day4.BlankAfterBlank | src/day4.rs:9-13 | two blank lines in a row close an empty record |
| Day4.ScanCount | src/day4.rs:8-21 | the records closed while reading are as many as the blank lines |
| Day4.RecordCount | src/day4.rs:23-24 | the final record is appended at the end even without a trailing blank line, so records = blank lines + 1 |
| Day4.ScanStuck | src/day4.rs:14-19 | once a line panics on a token without ':', the whole read panics |
| Day4.InsertPairsStuck | src/day4.rs:14-19 | once a token of a line fails, the whole line fails |
| Day4.FieldsAndValuesFrom | src/day4.rs:5-25 | the loop over the lines returns the records of the line-by-line scan: closed records plus the final one, or the panic |
| Day4.ReadLine | src/day4.rs:9-20 | one pass of the loop body is one step of the scan |
| Day4.InsertLine | src/day4.rs:14-19 | the inner loop inserts the pairs of a line's tokens in order, or panics on a token without ':' |
| Day4.ScanStep | src/day4.rs:8-21 | scanning one more line applies the loop body once more |
| Day5.DecodeStr | src/day5.rs:1-19 | the halving loop returns None exactly when some byte is neither `lo` nor `hi`; otherwise min and max meet (the `assert_eq!` holds) at the MSB-first binary value reading `lo` as 0 and `hi` as 1 |
| Day5.DecodeValue | src/day5.rs:5-18 | succeeds exactly when every byte is `lo` or `hi`, and the value is below 2^len |
| Day5.BitsValueBound | src/day5.rs:6 | a binary string of length len spells a number below 2^len |
| Day5.DecodeEncode | src/day5.rs:1-19 | decoding the len-digit binary spelling of any n < 2^len gives n back (partner of `Encode`) |
| Day5.BoardingPassFrom | src/day5.rs:28-34 | None exactly when the length is not 10; a panic exactly when the first 7 characters are not all F/B or the last 3 not all L/R; otherwise row < 128 and col < 8 |
| Day5.PassFromEncodings | src/day5.rs:28-34 | a 10-character pass whose first 7 characters spell `row` in F/B and last 3 spell `col` in L/R decodes to (row, col) |
| Day5.SeatId | src/day5.rs:36-38 | row·8 + col: for col < 8 the id gives back row (id / 8) and col (id % 8), and it is below 1024 for a decoded pass |
| Day5.BoardingPassExample1 | src/day5.rs:50-55 | "FBFBBFFRLR" is row 44, column 5, seat 357 |
| Day5.BoardingPassExample2 | src/day5.rs:58-63 | "BFFFBBFRRR" is row 70, column 7, seat 567 |
| Day5.BoardingPassExample3 | src/day5.rs:66-71 | "FFFBBBFRRR" is row 14, column 7, seat 119 |
| Day5.BoardingPassExample4 | src/day5.rs:74-79 | "BBFFBBFRLL" is row 102, column 4, seat 820 |
| Day6.Puzzle2Group.constructor | src/day6.rs:34-40 | the 26 bits are all set: every lowercase letter is selected |
| Day6.Puzzle2Group.ApplyLine | src/day6.rs:42-49 | the selected letters become their intersection with the line's characters, bit by bit; the count does not grow |
| Day6.Puzzle2Group.NumSelected | src/day6.rs:51 | the number of set bits is the number of selected letters |
| Day6.CountTrueIsCardinality | src/day6.rs:51 | counting the set bits counts the distinct selected letters |
| Day6.AppliedIntersects | src/day6.rs:42-49 | `apply_line` keeps exactly the selected letters that occur in the line and never sets a bit |
| Day6.AppliedIdempotent | src/day6.rs:42-49 | applying the same line twice equals applying it once |
| Day6.Contains | src/day6.rs:45 | `line.contains(c)` holds iff c is one of the line's characters |
| Day6.GroupAnswer2 | src/day6.rs:18-25 | after a group's lines, the count is the number of letters present on every line |
| Day6.GroupAnswer1 | src/day6.rs:6-15 | the closure's set holds exactly the characters that occur on some line of the group (its size is the group's answer) |
| Day6.Puzzle2GroupExample | src/day6.rs:64-74 | after "abc", "bcd", "cde", "def" the counts are 3, 2, 1, 0 |
| Day6.Puzzle2FirstLine | src/day6.rs:65-67 | after "abc" the selected letters are exactly a, b, c |
| Day7.BagColor | src/day7.rs:35-37 | the colour is a prefix of the text |
| Day7.BagColorIs | src/day7.rs:35-37 | the colour is exactly the text before the first " bag", or the whole text when there is none |
| Day7.SplitOnFirstPiece | src/day7.rs:36 | the first piece of `split(pat)` ends at the first occurrence of the pattern |
| Day7.BagColorOfFormat | src/day7.rs:35-37 | a colour written before " bag…" reads back as that colour, when " bag" cannot start inside it |
| Day7.BagColorExamples | src/day7.rs:118-125 | "light red bags", "bright white bag", "muted yellow bags" give "light red", "bright white", "muted yellow" |
| Day7.BagCountAndColor | src/day7.rs:39-42 | succeeds exactly when there is a space and the text before it is a number; the count is that number and the colour is `bag_color` of the rest; otherwise it panics |
| Day7.BagCountAndColorOfFormat | src/day7.rs:39-42 | "N colour bag…" reads back as (N, colour), which covers the `test_bag_count` cases |
| Day7.WithNodeProperties | src/day7.rs:52-56 | `add_if_absent` is idempotent, adds only `name` (with no children when new) and leaves every existing node's successors alone |
| Day7.WithEdgeProperties | src/day7.rs:58-62 | `add_edge` makes both ends nodes, sets (overwrites) the count of start→end and changes no other count |
| Day7.CountFrom | src/day7.rs:68-72 | the stored count, and 0 unless both the node and the edge exist |
| Day7.StringGraph.constructor | src/day7.rs:50 | a graph with no nodes |
| Day7.StringGraph.AddIfAbsent | src/day7.rs:52-56 | the graph becomes `WithNode(old, name)` |
| Day7.StringGraph.AddEdge | src/day7.rs:58-62 | the graph becomes `WithEdge(old, start, end, count)`, and `count_from(start, end)` is then `count` |
| Day7.StringGraph.AllSuccessorsOf | src/day7.rs:74-90 | the worklist returns exactly the colours reachable from `name` in one or more steps |
| Day7.ClosedHoldsReach | src/day7.rs:80-87 | a set holding a node's successors and closed under successors holds everything the node reaches |
| Day7.WorklistVisit | src/day7.rs:81-86 | visiting a new colour and pushing its children keeps the worklist invariant and leaves fewer unvisited nodes |
| Day7.WorklistSkip | src/day7.rs:81-82 | popping an already visited colour keeps the worklist invariant |
| Day7.PushAll | src/day7.rs:83-84 | every child key is pushed onto the open list, which keeps its earlier entries |
| Day7.BagsWithin | src/day7.rs:92-98 | the sum over a bag's edges of count · (1 + bags within the child), on an acyclic graph; 0 for a missing node or a leaf |
| Day7.ChildSumRemove | src/day7.rs:95-97 | any child may be summed first: the total does not depend on the order `m.iter()` visits the children |
| Day7.BagsWithinRankFree | src/day7.rs:92-98 | the total does not depend on which ranking proves the graph acyclic: it is a function of the graph alone |
| Day7.StringGraph.BagsWithinOf | src/day7.rs:92-98 | `bags_within` on the graph the object holds; 0 for an absent node |
| Day7.StringGraphExample | src/day7.rs:106-109 | the four `add_edge` calls of `test_string_graph` build a→b, b→c, b→e, c→d with d and e as leaves |
| Day7.StringGraphReachExample | src/day7.rs:110-115 | in that graph a reaches exactly b, c, d, e and d reaches nothing |
| Day7.BagsWithinExample | src/day7.rs:146-172 | on the edges `test_create_example` lists, faded blue and dotted black hold 0 bags, vibrant plum 11, dark olive 7 and shiny gold 32 |
| Day8.ParseInstruction | src/day8.rs:38-47 | succeeds exactly when there are two tokens, the second a signed integer and the first one of nop/acc/jmp, and then the operation and argument are those tokens'; otherwise it panics |
| Day8.ParseFormatInstruction | src/day8.rs:38-47 | parsing the line an instruction is written as ("jmp -4") gives the instruction back |
| Day8.SwapJmpNop | src/day8.rs:49-55 | keeps the argument; Nop becomes Jmp and Jmp becomes Nop, and Acc is returned unchanged |
| Day8.SwapJmpNopInvolution | src/day8.rs:49-55 | swapping twice gives the instruction back |
| Day8.JumpTarget | src/day8.rs:78 | `(pc as isize + arg) as usize`: the sum when it is in range, and the sum plus 2^64 when it is negative (a huge counter, hence terminated) |
| Day8.Step | src/day8.rs:74-80 | `advance` adds the argument of an Acc to the accumulator and nothing otherwise; Nop and Acc move the counter to pc + 1 |
| Day8.CPU.constructor | src/day8.rs:66-72 | a CPU holds the parsed program with pc = 0 and accumulator 0 |
| Day8.CPU.Advance | src/day8.rs:74-80 | the state becomes one `Step` of the old state; the program is unchanged; it requires pc < len because indexing past the end panics |
| Day8.CPU.Terminated | src/day8.rs:82-84 | true iff pc ≥ program length, and a terminated machine does not move |
| Day8.CPU.FixInstr | src/day8.rs:86-88 | only instruction i is swapped; pc, accumulator and every other instruction are unchanged |
| Day8.CPU.Clone | src/day8.rs:22 | a fresh CPU with the same program and state |
| Day8.HaltedStays | src/day8.rs:82-84 | once the counter has left the program the state never changes again, so the accumulator on exit is well defined |
| Day8.RepeatNeverHalts | src/day8.rs:12 | a run whose counter repeats before leaving the program never terminates |
| Day8.RepeatCycles | src/day8.rs:12 | after a repeat every later counter is one of the counters seen before it |
| Day8.PcsBeforeBound | src/day8.rs:11-15 | the visited set of in-range counters has at most `len` elements |
| Day8.Terminates | src/day8.rs:10-17 | the loop returns true exactly when the program halts, with the accumulator on exit; otherwise it stops at the first repeated counter with the accumulator there; in both cases after at most `len` advances |
| Day8.Solve2 | src/day8.rs:19-30 | returns the accumulator on exit of the lowest-index swap that makes the program halt, and None ("program cannot be fixed") exactly when no swap does |
| Day9.FindPairSum | src/day9.rs:25-34 | returns the values at the first (i, j), i < j, in (i, j) order whose entries sum to the target; None exactly when no two distinct positions sum to it |
| Day9.FindFailingXmasNum | src/day9.rs:11-23 | the window holds exactly the previous `preamble_length` numbers once full and never more; the result is the first number after the preamble that is not a sum of two distinct window entries, and None exactly when there is none |
| Day10.SortNats | src/day10.rs:14 | `nums.sort()` yields a sorted permutation of its input |
| Day10.Insert | src/day10.rs:14 | inserting into a sorted sequence keeps it sorted and adds exactly the new element |
| Day10.MakeJoltageVec | src/day10.rs:9-17 | panics exactly when some line is not a number; otherwise the result is sorted, starts with 0, holds 0 and the adapters as a permutation, and ends with the highest of them plus 3 |
| Day10.CountJoltJumps | src/day10.rs:19-29 | the two counters are the numbers of neighbouring pairs whose difference is 1 and 3 |
| Day10.CountGapsIsCardinality | src/day10.rs:23-27 | the counter counts exactly the set of positions with that difference |
| Day10.CountGapsBound | src/day10.rs:15-27 | count1 + count3 ≤ len − 1, and count3 ≥ 1 when the last gap is the final 3 |
| Day10.Deletable | src/day10.rs:31-33 | true exactly for an interior element whose removal leaves its two neighbours, now adjacent, at most 3 apart |
| Day10.DeletableKeepsChain | src/day10.rs:31-33 | in a chain whose gaps are all at most 3, an interior element is `deletable` exactly when removing it keeps every gap at most 3 |
| Day10.CountArrangements | src/day10.rs:35-44 | as written: 2 to the number of deletable interior positions |
| Day10.ArrangementsOvercount | src/day10.rs:35-44 | on the chain 0,1,2,3,4,7 the formula gives 2³ = 8 while only 7 arrangements exist |
| Day10.Pow2IsNot19208 | src/day10.rs:66-67 | no power of two is 19208, so the second example's expected answer cannot come from the formula |
| Day10.CountArrangementsCorrected | src/day10.rs:35-44 | the corrected count: a loop from the last position back returns the number of valid chains from 0 to the device |
| Day11.SeatFrom | src/day11.rs:11-18 | a seat exactly for 'L', '.' and '#', None for any other character |
| Day11.AsChar | src/day11.rs:20-26 | `from` reads the character back as the same seat |
| Day11.SeatCharRoundTrip | src/day11.rs:11-26 | `from` and `as_char` are inverse: `from(as_char(s)) == s`, and a character read as s is `as_char(s)` |
| Day11.Neighbor | src/day11.rs:35-47 | the neighbour is within one column and one row of the cell and is never the cell itself |
| Day11.NeighborInjective | src/day11.rs:35-47 | different directions give different neighbours, so the eight are distinct |
| Day11.NeighborExample | src/day11.rs:260-261 | the neighbours of (4, 4) in iterator order are (4,3), (3,3), (3,4), (3,5), (4,5), (5,5), (5,4), (5,3) |
| Day11.NextDir | src/day11.rs:65-74 | the successor of a direction, None exactly after Nw |
| Day11.NextDirFollowsOrder | src/day11.rs:65-74 | each direction's successor is the next one in N, Ne, E, Se, S, Sw, W, Nw |
| Day11.DirIter.constructor | src/day11.rs:55 | the iterator starts at N |
| Day11.DirIter.Next | src/day11.rs:61-78 | yields the held direction and then holds its successor; once exhausted it yields None |
| Day11.CollectDirs | src/day11.rs:258-259 | collecting the iterator gives exactly N, Ne, E, Se, S, Sw, W, Nw |
| Day11.SeatAt | src/day11.rs:104-126 | Floor outside the height and row 0's width; inside them the seat, except that a cell past the end of its own shorter row panics, and only such a cell |
| Day11.CoveredSeats | src/day11.rs:104-126 | every cell can be read exactly when no row is shorter than row 0 |
| Day11.CountOccupied | src/day11.rs:130-133 | panics exactly when reading one of the neighbours does; otherwise counts at most one per direction |
| Day11.CountOccupiedIsCardinality | src/day11.rs:130-133 | when no read panics, the count is the number of distinct directions whose neighbour is an occupied seat |
| Day11.NumAdjOccupied | src/day11.rs:128-137 | None outside the grid; inside it a count of at most 8 or the panic of a neighbour's read; never a panic when no row is shorter than row 0 |
| Day11.NewSeat | src/day11.rs:147-153 | floor stays floor; a seat changes exactly when it is empty with no occupied neighbour or occupied with at least 4 |
| Day11.Iterate | src/day11.rs:143-157 | panics exactly when some row is shorter than row 0; otherwise the next generation has the same height and every row has row 0's width, longer rows being cut |
| Day11.IterateFixpoint | src/day11.rs:143-173 | `iterate` gives the grid back exactly when the grid is rectangular and no seat wants to change, and it never turns floor into a seat |
| Day11.IterateFromNobody | src/day11.rs:143-157 | from a grid with nobody seated and no row shorter than row 0, `iterate` does not panic, every empty seat fills and floor stays floor (the first round of the example) |
| Day11.NextHeld | src/day11.rs:167-181 | nothing after nothing; panics exactly when the held grid has a row shorter than row 0; a next generation held is rectangular and differs from the last |
| Day11.HeldAfter | src/day11.rs:167-181 | after one call or more, a held generation is rectangular |
| Day11.HeldOrbit | src/day11.rs:167-181 | an iterator that applies a step and stops at a fixed point holds x, f(x), f(f(x)), … and nothing after the first value the step leaves unchanged |
| Day11.HeldAfterIsHeld | src/day11.rs:167-181 | from a grid with no row shorter than row 0 the seat iterator never panics and is such an iterator for `iterate` |
| Day11.GameOfSeatsIterator.constructor | src/day11.rs:139-141 | the iterator holds the starting grid |
| Day11.GameOfSeatsIterator.Next | src/day11.rs:167-181 | yields the held generation, then holds the next one, or nothing once a round changes nothing; panics exactly when that round does |
| Day11.RowFrom | src/day11.rs:98-100 | a row reads exactly when every character is a seat, one seat per character |
| Day11.GridFrom | src/day11.rs:96-102 | succeeds exactly when every line is a row of seats; then row k is the row read from line k, so the grid has one row per line and one seat per character |
| Day11.RowString | src/day11.rs:89-90 | the printed row has one character per seat, `as_char` of it |
| Day11.RowFromRowString | src/day11.rs:89-100 | reading a printed row gives the row back |
| Day11.GridFromRowStrings | src/day11.rs:86-102 | reading the printed rows back gives the grid |
| Day11.GridStringLines | src/day11.rs:86-92 | splitting the printed grid at newlines gives the printed rows and then an empty piece |
| Day12.Position.constructor | src/day12.rs:18-19 | a position with the given column and row |
| Day12.ManhattanStr | src/day12.rs:13-15 | the printed string reads back as |col| + |row| |
| Day12.QuarterTurnProperties | src/day12.rs:33 | one quarter step (col, row) → (−row, col) keeps |col| + |row|, and four of them restore the waypoint |
| Day12.TurnedManhattan | src/day12.rs:32-34 | any number of quarter steps keeps the Manhattan distance |
| Day12.TurnedAdd | src/day12.rs:32-34 | a steps and then b steps are a + b steps |
| Day12.TurnedPeriod | src/day12.rs:32-34 | turning k + 4 times is turning k times |
| Day12.StepsRight | src/day12.rs:31 | the degrees normalised into [0, 360) give fewer than 4 quarter steps |
| Day12.LeftIsRight | src/day12.rs:31-66 | turning by −d is turning by 360 − d |
| Day12.RotateWaypoint | src/day12.rs:30-35 | the waypoint is turned by as many quarter steps as the normalised degrees hold right angles, and keeps its Manhattan distance |
| Day12.RotateExample | src/day12.rs:92-98 | 90 degrees is one step, and (10, −4) turns into (4, 10) and then (−10, 4) |
| Day12.DecodeLine | src/day12.rs:37-42 | succeeds exactly when the line is non-empty and the rest parses as an integer; the instruction is the first character and the value the number after it |
| Day12.DecodeFormat | src/day12.rs:37-42 | an instruction letter followed by a number decodes back to both |
| Day12.Move2 | src/day12.rs:58-70 | defined exactly when the line decodes to one of N, S, E, W, F, L, R; anything else panics |
| Day12.Move2Frames | src/day12.rs:58-70 | N/S/E/W and L/R never move the ship, F never moves the waypoint, and L/R keep the waypoint's distance |
| Day12.Jump | src/day12.rs:26-28 | the position moves by `dist` times the direction's unit offset |
| Day12.InterpretMovePuzzle2 | src/day12.rs:58-70 | ship and waypoint become what `Move2` gives on their old values; on an unrecognised line it reports the panic and changes nothing |
| Day12.Solve2 | src/day12.rs:17-24 | succeeds exactly when every line is an instruction, and prints the ship's final distance from the origin |
| Day12.NoneStaysNone | src/day12.rs:20-22 | once a line panics, the whole run does |
| Day12.Run2Example | src/day12.rs:86-89 | the published example course F10, N3, F7, R90, F11 ends 286 from the origin |
| Day13.BusDeparture | src/day13.rs:27-29 | the least multiple of `bus` strictly after t: within (t, t + bus], and exactly t + bus when bus divides t |
| Day13.MinDeparture | src/day13.rs:21-23 | the `min` of the (departure, bus) tuples: a listed bus with its departure, no later than any other bus's and on the smaller bus when two depart together |
| Day13.BestBusAndWait | src/day13.rs:20-25 | panics exactly on an empty list or a zero bus; otherwise the chosen bus is listed, its wait lies in (0, bus] and ends at a multiple of it, and no bus departs earlier or at the same time with a smaller id |
| Day13.DepartureExamples | src/day13.rs:63-73 | at 939, busses 7, 13, 59, 31, 19 depart at 945, 949, 944, 961, 950, and the best is bus 59 with wait 5 |
| Day13.BusOffsets | src/day13.rs:38-41 | panics exactly when a piece other than "x" is not a number |
| Day13.BusOffsetsSpec | src/day13.rs:38-41 | every pair is (number, index) of a non-"x" piece, the indices increase, and every non-"x" piece gives a pair |
| Day13.Puzzle2Line | src/day13.rs:36-42 | panics exactly when a piece other than "x" is not a number; otherwise one (number, index) pair per non-"x" piece, in increasing index order |
| Day13.Puzzle2LineExample | src/day13.rs:104 | "17,x,13,19" gives (17,0), (13,2), (19,3) |
| Day13.TimestampWorksIff | src/day13.rs:54-56 | a timestamp works exactly when every bus is non-zero and divides timestamp + offset |
| Day13.WorksNeverPanics | src/day13.rs:54-56 | once some timestamp works no bus is zero, so checking any other timestamp does not panic |
| Day13.PanicHasZeroBus | src/day13.rs:54-56 | checking a timestamp panics only on a bus of id 0 |
| Day13.EarliestTimestampBrute | src/day13.rs:48-52 | panics exactly when some bus is 0; otherwise returns the least timestamp ≥ 1 that works |
| Day13.EarliestExample | src/day13.rs:102-105 | 3417 is the least timestamp ≥ 1 that works for "17,x,13,19" |
| Day13.CongruentTo3417 | src/day13.rs:102-105 | every timestamp that works for 17, 13, 19 differs from 3417 by a multiple of 17·13·19 |
| Day13.DivisibleByProduct | src/day13.rs:54-56 | a number divisible by two coprime busses is divisible by their product |
| Day13.TimestampExamples | src/day13.rs:107-112 | 754018, 779210, 1261476 and 1202161486 each work for the offsets of their lines, and each is the least timestamp ≥ 1 that does |
| Day13.EarliestOfFour | src/day13.rs:48-56 | a timestamp that works for four busses, each coprime to the product of those before it (witnessed by Bezout coefficients), and lies below their product is the first one from 1 on that works |
| Day14.Shl1 | src/day14.rs:71-72 | `w << 1`: bit 0 is clear and every other bit is the one below it |
| Day14.SetLow | src/day14.rs:74-78 | `w \| 1`: bit 0 set, the others unchanged |
| Day14.BitsValueOf | src/day14.rs:84-86 | reading the low k bits of a number below 2^k back gives the number |
| Day14.BitsOfValue | src/day14.rs:84-86 | the bits of a word's value are the word |
| Day14.PushBit | src/day14.rs:70-82 | after `add(c)` bit 0 of `on` is set iff c is '1', bit 0 of `off` iff c is not '0', and every other bit comes from the bit below it |
| Day14.ConsistentIff | src/day14.rs:63-82 | `on & !off == 0` means every forced 1 is also a kept bit |
| Day14.PushConsistent | src/day14.rs:70-82 | `add` keeps `on & !off == 0` |
| Day14.PushAll | src/day14.rs:66-67 | adding every character succeeds exactly when all are X, 0 or 1; any other character panics |
| Day14.SkipPrefix | src/day14.rs:66 | `skip_while` drops exactly the leading characters of "mask = ": the result is a suffix whose first character is not one of them |
| Day14.PushAllBits | src/day14.rs:63-82 | from zero words, the words after adding a mask string spell it: bit i follows the i-th character from the right, and bits beyond the string are clear |
| Day14.PushSpells | src/day14.rs:70-82 | adding one character to words that spell a string spells the string with that character appended |
| Day14.PushAllConsistent | src/day14.rs:63-82 | words built from zero keep `on & !off == 0` |
| Day14.MaskMeaning | src/day14.rs:84-86 | `(v & off) \| on` is 1 where `on` is set, 0 where `off` is clear, and v's bit otherwise |
| Day14.MaskOfApplies | src/day14.rs:63-86 | a mask line sets the value's bit under a '1', clears it under a '0', copies it under an 'X', and clears every bit beyond the mask's length |
| Day14.Mask1.constructor | src/day14.rs:58 | both words zero |
| Day14.Mask1.Add | src/day14.rs:70-82 | succeeds exactly for X, 0 and 1 and then updates the words as `Push` says; any other character panics |
| Day14.Mask1.ReplaceFrom | src/day14.rs:63-68 | resets both words, adds the characters after the "mask = " prefix, panics exactly when the mask has another character, and leaves the words consistent |
| Day14.Mask1.MaskValue | src/day14.rs:84-86 | `mask(v)` is `(v & off) \| on` on the current words |
| Day14.PanicStays | src/day14.rs:66-67 | once a character panics, adding the whole string panics |
| Day14.Mask1Example | src/day14.rs:158-162 | "XXXXXXXXXXXXXXXXXXXXXXXXXXXXX1XXXX0X" gives on = 64 (bit 6 only) and off = the 36 mask bits except bit 1 |
| Day14.PushToAll | src/day14.rs:140-142 | `add_to_all` adds the character to every mask, keeping their number and order |
| Day14.AddToAll | src/day14.rs:140-142 | the loop over the masks yields `PushToAll` |
| Day14.Versions | src/day14.rs:113-129 | the versions of a floating mask exist exactly when every character is X, 0 or 1 |
| Day14.VersionsStep | src/day14.rs:116-127 | '0' adds X to every version, '1' adds 1, and 'X' gives the versions with 1 added followed by a copy with 0 added |
| Day14.VersionsCount | src/day14.rs:120-125 | each X doubles the versions: there are 2^(number of X) |
| Day14.VersionsAreResolutions | src/day14.rs:113-129 | the versions are exactly the masks of the ways to resolve each X to 0 or 1 (a '0' left floating as X, a '1' kept) |
| Day14.Mask2.constructor | src/day14.rs:108 | no versions |
| Day14.Mask2.AddToAllVersions | src/day14.rs:131-133 | the versions become `PushToAll` of the old ones |
| Day14.Mask2.ReplaceFrom | src/day14.rs:113-129 | the versions become those of the line after the "mask = " prefix; an unknown character panics |
| Day14.Mask2.AllVariantsOf | src/day14.rs:135-137 | every version's `mask` applied to the value, in version order |
| Day14.Variants | src/day14.rs:135-137 | one address per version: that version's mask applied to the value |
| Day14.VariantsSound | src/day14.rs:135-137 | every variant fits the floating mask: 1 under '1', the value's bit under '0', anything under 'X' |
| Day14.VariantsComplete | src/day14.rs:135-137 | every address that fits a mask of at most 64 characters is a variant |
| Day14.VariantsExact | src/day14.rs:135-137 | `all_variants_of(v)` holds exactly the addresses that fit the floating mask |
| Day14.SplitMem | src/day14.rs:33-38 | the address and value are `u64`s (pieces 1 and 5 of the split) |
| Day14.SplitMemLine | src/day14.rs:33-38 | `split_mem("mem[a] = v")` returns (a, v) |
| Day14.MemLinePieces | src/day14.rs:34 | splitting "mem[a] = v" at '[', ']', '=' and ' ' gives six pieces, a at 1 and v at 5 |
| Day14.WriteAllCells | src/day14.rs:99-103 | after writing `val` at a list of addresses every listed address holds `val` and every other cell is unchanged |
| Day14.WrittenWord | src/day14.rs:99-103 | an address is written exactly when its word is in the list |
| Day14.FloatingWrite | src/day14.rs:99-103 | after `Mask2::update_mem`, every address that fits the mask holds `val` and every other cell is unchanged |
| Day14.Step1Write | src/day14.rs:24-53 | a memory line under `Mask1` overwrites `mem[idx]` with the masked value and keeps the mask |
| Day14.Step2Write | src/day14.rs:99-103 | a memory line under `Mask2` writes the value at every variant of the address and keeps the versions |
| Day14.Run1PanicStays | src/day14.rs:20-27 | a panic on some line ends the whole run |
| Day14.Run2PanicStays | src/day14.rs:20-27 | a panic on some line ends the whole run |
| Day14.ApplyLine1 | src/day14.rs:21-53 | one line of `solve` for `Mask1`: a "mask" line replaces the mask, any other line writes the masked value |
| Day14.ApplyLine2 | src/day14.rs:95-103 | one line of `solve` for `Mask2`: a "mask" line replaces the versions, any other writes every variant |
| Day14.UpdateMem2 | src/day14.rs:99-103 | stores `val` at every variant of the address, in order |
| Day14.Solve1From | src/day14.rs:17-30 | the memory fold over the lines, then the printed sum of the final values; a panic on any line is reported |
| Day14.Solve1 | src/day14.rs:5-7 | `Mask1::from("").solve`: the sum of the memory the `Mask1` run leaves |
| Day14.Solve2From | src/day14.rs:17-30 | the same fold for `Mask2` |
| Day14.Solve2 | src/day14.rs:9-11 | `Mask2::from("").solve`, starting from one zero mask |
| Day15.LastIndex | src/day15.rs:35-41 | the last position holding x, or None when x was never said |
| Day15.Entry | src/day15.rs:35-41 | the pair `num2last` should hold for x: its last turn and the one before (or the last turn twice), with previous ≤ last < turns so far |
| Day15.ElfGame.constructor | src/day15.rs:18 | an empty map, `spoken` 0 and nothing said |
| Day15.ElfGame.UpdateSpoken | src/day15.rs:26-33 | on turn i the spoken number becomes `starting_nums[i]` while i is within them and otherwise the gap between the last two turns of the previous number; it panics only on turn 0 with no starting numbers; the map is untouched |
| Day15.ElfGame.UpdateEntry | src/day15.rs:35-41 | records the spoken number on turn i: (i, its previous last turn) when seen before, (i, i) otherwise, so the map keeps describing the turns |
| Day15.TracksSnoc | src/day15.rs:35-41 | that update keeps every entry (a, b) with b ≤ a ≤ i and equal to the last two turns of its number |
| Day15.GapIsNext | src/day15.rs:30-31 | the stored pair of the last number gives the rule's next number: 0 after a first occurrence, else the gap |
| Day15.EntrySnoc | src/day15.rs:35-41 | saying y sets y's entry to (this turn, its previous last turn or this turn again) and leaves every other entry alone |
| Day15.Elf | src/day15.rs:17-24 | returns the nth number of the game (0 for nth = 0); panics exactly when nth > 0 and there are no starting numbers |
| Day15.SpokenPrefix | src/day15.rs:19-22 | earlier turns never change: the first k numbers are a prefix of the first n |
| Day15.SpokenStart | src/day15.rs:27-28 | for i within the starting numbers the number said is `starting_nums[i]` |
| Day15.SpokenRule | src/day15.rs:30-39 | afterwards a number said for the first time is followed by 0, and a repeated one by the gap since it was last said |
| Day15.SpokenExample | src/day15.rs:53 | from 0, 3, 6 the first ten numbers are 0, 3, 6, 0, 3, 3, 1, 0, 4, 0 |
| Day16.MatchesRangeFor | src/day16.rs:33-39 | false for a field the notes lack; for a known field, true exactly when the value lies in one of its two inclusive ranges |
| Day16.InvalidValuesFor | src/day16.rs:41-47 | a subsequence-sized list of values none of which any field allows |
| Day16.InvalidValuesCount | src/day16.rs:41-47 | each value no field allows is kept as often as it occurs and allowed values are dropped entirely |
| Day16.InvalidValuesAppend | src/day16.rs:41-47 | the filter works value by value and keeps the order: on two tickets joined it is the join of the two results |
| Day16.TicketsErrorRate | src/day16.rs:49-53 | adding up each ticket's invalid values gives the sum of the invalid values of all the tickets taken together |
| Day16.ErrorRate | src/day16.rs:49-53 | the error rate is the sum of every nearby-ticket value no field allows, and 0 when every value is allowed by some field |
| Day16.ValidTicketAddsNothing | src/day16.rs:49-53 | a ticket whose values are all allowed adds nothing to the error rate |
| Day16.SumNat | src/day16.rs:51 | the sum of a ticket's invalid values |
| Day16.MatchesExample | src/day16.rs:81-87 | with class = 1-3 or 5-7, the values 1, 2, 3, 5, 7 match, 4 and 8 do not, and a field the notes lack matches nothing |
| Day16.ParseTicketLine | src/day16.rs:66-68 | succeeds exactly when every comma-separated piece is a number; then value i is the number piece i reads as |
| Day16.ParseFieldLine | src/day16.rs:56-64 | a line without a colon panics; a parsed name followed by a colon starts the line |
| Day16.ParseFieldLineOf | src/day16.rs:56-64 | `parse_field_line("name: a-b or c-d")` returns (name, ((a, b), (c, d))) |
| Day16.RangesNumbers | src/day16.rs:59-62 | the non-empty pieces after the colon, split at ' ', '-', 'o', 'r', are the four numbers |
| Day16.RangesSplit | src/day16.rs:59 | how " a-b or c-d" splits at ' ', '-', 'o' and 'r' |
| Util.FirstEmpty | src/day16.rs:19-20 | `take_while(len > 0)` stops at the first empty line |
| Day16.SkipHeader | src/day16.rs:24-27 | `skip_while(empty or header)` stops at the first line that is neither |
| Day16.ParseTickets | src/day16.rs:26-29 | one ticket per line, each the parse of its line |
| Day16.CollectFieldsKeys | src/day16.rs:19-22 | the notes have exactly the fields named on the field lines |
| Day16.NotesFrom | src/day16.rs:17-31 | notes are read only when an empty line ends the field lines, and they hold exactly the fields named on those lines |
| Day17.StateFrom | src/day17.rs:19-25 | '#' is active, '.' inactive, and any other character panics |
| Day17.NewCellState | src/day17.rs:146-152 | a cell becomes active exactly when it has 3 active neighbours, or 2 and is already active |
| Day17.NewZeroPad | src/day17.rs:82-88 | the result is the coordinates followed by zeros up to the target length, and no shorter than the input |
| Day17.ZeroPadShape | src/day17.rs:82-88 | the padded point keeps the coordinates as a prefix, has length max(target, input) and only zeros after the prefix |
| Day17.Shift | src/day17.rs:90-96 | `prev_corner`/`next_corner` subtract/add one in every coordinate |
| Day17.NextPoint | src/day17.rs:98-111 | the odometer step keeps the number of coordinates |
| Day17.Next | src/day17.rs:98-111 | the carry loop on a copy of the point computes the odometer step |
| Day17.NextPointIndex | src/day17.rs:98-111 | the step after the i-th point of the box is the (i+1)-th, and there is none after the last |
| Day17.BoxFirst | src/day17.rs:127-129 | the walk starts at `start` |
| Day17.IndexOfBox | src/day17.rs:132-144 | every point of the box is visited |
| Day17.BoxInBox | src/day17.rs:132-144 | every visited point is in the box, at its own position |
| Day17.BoxDistinct | src/day17.rs:132-144 | no point is visited twice |
| Day17.BoxMembers | src/day17.rs:132-144 | the visited points are exactly the box from `start` to `end` |
| Day17.BoxPointsDistinct | src/day17.rs:132-144 | the list of visited points has no repeats |
| Day17.PointIterator.constructor | src/day17.rs:127-129 | a new iterator will first hand out `start` |
| Day17.PointIterator.NextItem | src/day17.rs:135-143 | hands out the stored point and stores the odometer step after it; once exhausted it stays exhausted |
| Day17.Collect | src/day17.rs:113-144 | collecting the iterator gives the points of the box, in odometer order |
| Day17.IteratorExample | src/day17.rs:176-190 | the 27 points from -1,-1,-1 to 1,1,1 come in the order `test_iterator` lists |
| Day17.Without | src/day17.rs:116 | the filter keeps exactly the points other than the avoided one |
| Day17.WithoutDistinct | src/day17.rs:116 | filtering a repeat-free list removes at most one element |
| Day17.NeighborsExact | src/day17.rs:113-117 | a point's neighbours are the points differing by at most one in each coordinate, other than itself |
| Day17.NeighborsCount | src/day17.rs:113-117 | each neighbour is listed once, 3^d - 1 of them in d dimensions |
| Day17.LexExtremes | src/day17.rs:55-72 | in the derived (lexicographic) order a non-empty set of points has a first and a last key |
| Day17.StateAt | src/day17.rs:48-53 | a point the map lacks is inactive, otherwise it has its stored state |
| Day17.MinPoint | src/day17.rs:55-57 | the least key, which panics on an empty map |
| Day17.MaxPoint | src/day17.rs:59-61 | the greatest key, which panics on an empty map |
| Day17.CountActive | src/day17.rs:63-65 | never more than the number of points counted |
| Day17.CountActiveSet | src/day17.rs:63-65 | counting a repeat-free list counts its set of active points |
| Day17.NumActiveNeighborsMeaning | src/day17.rs:63-65 | the number of active points around p, at most 3^d - 1 |
| Day17.NumActive | src/day17.rs:67-69 | at most the number of stored cubes |
| Day17.Cycle | src/day17.rs:154-161 | panics on an empty map and succeeds when all points have the same dimension |
| Day17.CycleBox | src/day17.rs:154-161 | from a full box, the next generation holds the box grown by one on every side, each cell by the Conway rule |
| Day17.CycleOfBox | src/day17.rs:154-161 | one cycle of a full box gives the rule applied over the grown box |
| Day17.MinOfBox | src/day17.rs:55-57 | the first key of a full box is its low corner |
| Day17.MaxOfBox | src/day17.rs:59-61 | the last key of a full box is its high corner |
| Day17.AfterNCycles | src/day17.rs:163-169 | the loop counts the active cubes after n cycles, or panics when a cycle does |
| Day17.PanicStays | src/day17.rs:163-169 | once a cycle panics, every later one does |
| Day17.CyclesBox | src/day17.rs:163-169 | n cycles from a full box succeed and hold the box grown by n on every side |
| Day17.FromLines | src/day17.rs:34-46 | reading the lines stores each character's state at x, y, 0, ... |
| Day17.RowMeaning | src/day17.rs:38-42 | one line succeeds exactly when every character is '#' or '.', stores each at its column and changes no other key |
| Day17.GridMeaning | src/day17.rs:34-46 | the grid succeeds exactly when every character is '#' or '.', and then holds exactly the cells of the lines with their states |
| Day17.GridBox | src/day17.rs:34-46 | a rectangle of lines fills the box from 0,0,0,... to w-1,h-1,0,... |
| Day17.OnGridInBox | src/day17.rs:34-46 | a point is a cell of a rectangle exactly when it is in that box |
| Day17.FromRectangleCycles | src/day17.rs:163-169 | from a rectangle of lines, every cycle succeeds and the n-th holds the input box grown by n on every side |
| Day18.ParseDigit | src/day18.rs:65-67 | a digit character's value, below 10, whose character is the digit itself |
| Day18.Grab | src/day18.rs:41-54 | reading a value always consumes input |
| Day18.EvalExpr | src/day18.rs:24-39 | a successful evaluation consumes input and stops at the end or before a `)` |
| Day18.EvalRest | src/day18.rs:26-38 | the operator loop stops only at the end of the input or before a `)` |
| Day18.Evaluator.constructor | src/day18.rs:20-22 | the cursor holds the whole line |
| Day18.Evaluator.Eval | src/day18.rs:24-39 | consumes the expression and returns its value, or panics where the source does |
| Day18.Evaluator.GrabNextValue | src/day18.rs:41-54 | reads one digit or parenthesised group, skipping spaces, or panics |
| Day18.Eval1 | src/day18.rs:57-59 | evaluates the line by the first puzzle's rules |
| Day18.Eval2 | src/day18.rs:61-63 | evaluates the line by the second puzzle's rules |
| Day18.LinesTotal | src/day18.rs:5-7 | the sum succeeds exactly when every line evaluates |
| Day18.LinesTotalSum | src/day18.rs:5-7 | the total is the sum of the lines' values |
| Day18.Solve | src/day18.rs:5-7 | the total of all lines, as text |
| Day18.GrabSkipsSpaces | src/day18.rs:51 | any number of leading spaces is skipped |
| Day18.UnclosedPanics | src/day18.rs:45-50 | a `(` whose expression runs to the end of the input panics |
| Day18.GrabOperand | src/day18.rs:41-54 | reading a formatted operand yields its value and leaves what follows |
| Day18.EvalFormat | src/day18.rs:24-39 | evaluating a formatted expression yields its value and stops at what follows |
| Day18.RestFormat | src/day18.rs:26-38 | the loop applies operators left to right in the first puzzle, and in the second adds runs of `+` before multiplying |
| Day18.EvaluatesExpr | src/day18.rs:24-54 | for every expression of the grammar, the evaluator computes its value: equal precedence left to right in the first puzzle, addition before multiplication in the second |
| Day18Examples.FlatExample | src/day18.rs:76-91 | "1 + 2 * 3 + 4 * 5 + 6" is 71, and 231 in the second puzzle |
| Day18Examples.GroupedExample | src/day18.rs:77-92 | "1 + (2 * 3) + (4 * (5 + 6))" is 51 in both puzzles |
| Day18Examples.MixedExample | src/day18.rs:78-93 | "2 * 3 + (4 * 5)" is 26, and 46 in the second puzzle |
| Day18Examples.NestedExample | src/day18.rs:79-94 | "5 + (8 * 3 + 9 + 3 * 4 * 3)" is 437, and 1445 in the second puzzle |
| Day18Examples.DeepExample | src/day18.rs:80-95 | "5 * 9 * (7 * 3 * 3 + 9 * 3 + (8 + 6 * 4))" is 12240, and 669060 in the second puzzle |
| Day18Examples.ProductThenExample | src/day18.rs:81-104 | "((2 + 4 * 9) * (6 + 9 * 8 + 6) + 6) + 2 + 4 * 2" is 13632, and 23340 in the second puzzle |
| Day18Examples.ProductExamples | src/day18.rs:96-99 | in the second puzzle "2 + 4 * 9" is 54, "6 + 9 * 8 + 6" is 210, and "(2 + 4 * 9) * (6 + 9 * 8 + 6) + 6" is 11664 with or without outer parentheses |
| Day18Examples.ProductPlusExamples | src/day18.rs:102-103 | in the second puzzle that product in parentheses followed by "+ 2" is 11666, and followed by "+ 2 + 4" is 11670 |
| Day18Examples.DoubledExamples | src/day18.rs:90-101 | in the second puzzle "(5 * 2 + (3 * 2)) + 2" and "(5 * 2 + 6) + 2" are 42, and "(5 * 2 + (3 * 2))" is 40 |
| Day19.DecodeOption | src/day19.rs:19-27 | an option is never a choice; a list of ids is exactly the parsed words of the text |
| Day19.RuleLineFormat | src/day19.rs:29-39 | reading a written rule line (`4: "a"`, `0: 4 1 5`, `1: 2 3 \| 3 2`) gives back its id and rule |
| Day19.RuleLineAlt | src/day19.rs:29-38 | a line whose body has two `\|`-pieces is the choice between their options |
| Day19.RuleLineSingle | src/day19.rs:29-38 | a line whose body has no `\|` is its single option |
| Day19.DecodeOptionText | src/day19.rs:19-27 | `decode_option` reads back a written option, with or without the space before a `\|` |
| Day19.DecodeQuoted | src/day19.rs:20-23 | an option that trims to a quoted character is that character |
| Day19.DecodeIds | src/day19.rs:24-26 | a written list of ids decodes to the list |
| Day19.IdsWords | src/day19.rs:25 | the words of a written id list are the written ids |
| Day19.ParseTexts | src/day19.rs:25 | the written ids parse back to the ids |
| Day19.TrimWords | src/day19.rs:20-25 | trimming does not change the words |
| Day19.Matches | src/day19.rs:56-62 | a match consumes at least one character and ends within the line |
| Day19.MatchId | src/day19.rs:72-74 | looking up an id and matching its rule ends within the line, and a missing id panics |
| Day19.Thread | src/day19.rs:64-70 | threading the position through the ids only moves it forward |
| Day19.ProcessSubrules | src/day19.rs:64-70 | the loop matches the first id, then each later id where the previous one ended, giving up after the first failure |
| Day19.ThreadNone | src/day19.rs:67 | once a sub-rule has failed the sequence fails |
| Day19.CountMatching | src/day19.rs:48 | the count succeeds exactly when every message can be matched, is at most their number, and equals it exactly when all match |
| Day19.CountMatchingIsCardinality | src/day19.rs:48 | the count is the number of messages that rule 0 matches in full |
| Day19.Puzzle1 | src/day19.rs:42-49 | the number of lines after the first empty one that rule 0, built from the lines before it, matches in full; below the number of lines, or zero |
| Day19.CollectOk | src/day19.rs:44-47 | collecting the rules succeeds exactly when every rule line parses |
| Day19.CollectLast | src/day19.rs:44-47 | each id maps to the rule of the last line that defines it |
| Day19.CollectKeys | src/day19.rs:44-47 | every id of the map comes from some line |
| Day19.MatchesSound | src/day19.rs:56-62 | what a rule matches is one of the words it describes |
| Day19.MatchIdSound | src/day19.rs:72-74 | what an id matches is one of the words of its rule |
| Day19.ThreadSound | src/day19.rs:64-70 | what a list of ids matches is a word of each id, concatenated |
| Day19.PuzzleMatchSound | src/day19.rs:51-54 | a line `puzzle1_match` accepts is a word of rule 0 |
| Day19.CommitRanked | src/day19.rs:15-17 | the example rule set has no cycles |
| Day19.CommitGenerates | src/day19.rs:59 | "aab" is a word of rule 0 of the example, through the second alternative |
| Day19.NoBacktracking | src/day19.rs:59-67 | because the first matching alternative is kept, "aab" is rejected although it is a word of rule 0 |
| Day19.EagerAlternatives | src/day19.rs:58-59 | `.or` evaluates the second alternative even when the first matched, so reading past the end of "a" panics |
| Day20.QuarterTurn | src/day20.rs:52-56 | one pass of the rotation loop: as many rows as the tile is high, each as long as it is wide, pixel (y, x) taken from row width-1-x, column y; panics exactly when a row it reads is missing or too short |
| Day20.Rotated | src/day20.rs:44-59 | the tile with the same id and its pixels turned as many quarter turns as the rotation says |
| Day20.PanicStays | src/day20.rs:46-57 | once a turn panics every later turn does |
| Day20.QuarterTurnSquare | src/day20.rs:52-56 | a quarter turn of a square never panics, keeps it square, and moves pixel (n-1-x, y) to (y, x) |
| Day20.FourTurns | src/day20.rs:44-59 | four quarter turns give back a square tile |
| Day20.RotatedR0 | src/day20.rs:47 | `R0` leaves the pixels unchanged |
| Day20.QuarterTurn3 | src/day20.rs:52-56 | the quarter turn of a 3 by 3 grid, pixel by pixel |
| Day20.RotationExamples | src/day20.rs:125-146 | `###/.../#.#` turned once, twice and three times gives the three grids of the test |
| Day20.TileFrom | src/day20.rs:25-34 | no tile exactly when no lines are left; otherwise the id from the header's second word up to ':', and the non-empty lines up to the next empty line, which is consumed; panics exactly when the header has no second word or its id does not parse |
| Day20.ParseIntText | src/day20.rs:27 | a printed id parses back |
| Day20.HeaderId | src/day20.rs:16-27 | the header `Display` writes yields its id |
| Day20.TileFromLines | src/day20.rs:14-34 | a tile block written as `Display` writes it, without empty rows, reads back as the tile |
| Day20.RotateTest | src/day20.rs:142-153 | each of the four blocks of the test reads as tile 1101, and the first one rotated by R0, R90, R180 and R270 gives each of them |
| Day20.Keyed | src/day20.rs:85 | the map's ids are the ids of the tiles read, each mapped to a tile with that id |
| Day20.FromLines | src/day20.rs:79-89 | reads tiles until none is left and inserts each by id; a panic while reading is a panic of the whole |
| Day20.KeyedSnoc | src/day20.rs:85 | inserting a tile replaces any earlier tile with the same id |
| Day20.KeyedLast | src/day20.rs:85 | a tile in the map is the last one read with its id |
| Day20.ReadBlocks | src/day20.rs:79-89 | blocks of tiles, each followed by an empty line, read back as the tiles |
| Day20.KeyedDistinct | src/day20.rs:85-121 | tiles with distinct ids each get their own entry, so the map has as many entries as tiles |
| Day21.LeastExists | src/day21.rs:16-36 | in string order a non-empty set of strings has a least member, the one `first()` returns |
| Day21.Least | src/day21.rs:36 | the least member of a non-empty set |
| Day21.Ordered | src/day21.rs:33-41 | the members of a set in strictly increasing order, each once, as a B-tree iterates them |
| Day21.RowSet | src/day21.rs:26 | a string is in the set exactly when it is in the row |
| Day21.AllergenCandidates.constructor | src/day21.rs:21-23 | both maps start empty |
| Day21.AllergenCandidates.Add | src/day21.rs:25-31 | the row's set is stored on the allergen's first occurrence and intersected with it afterwards; the resolved map is unchanged |
| Day21.AddRow | src/day21.rs:25-31 | the allergen gets a set: the row's ingredients, kept only if they were already candidates when the allergen was seen before |
| Day21.AddShrinks | src/day21.rs:25-31 | `add` adds the allergen as a key, only ever shrinks its existing set, and leaves every other allergen alone |
| Day21.AllergenCandidates.SingleCandidate | src/day21.rs:33-40 | the first allergen in key order whose set has one ingredient, or a panic when there is none |
| Day21.FirstSingle | src/day21.rs:33-40 | panics exactly when no set has one element; otherwise returns an allergen with exactly that one-element set, the least such allergen |
| Day21.AllergenCandidates.PurgeCandidate | src/day21.rs:42-46 | the ingredient leaves every candidate set, and nothing else changes |
| Day21.Purged | src/day21.rs:42-46 | purging keeps every allergen |
| Day21.AllergenCandidates.Reduce | src/day21.rs:48-55 | the loop ends with no allergen left and the resolutions `Reduced` gives, or panics when `Reduced` does |
| Day21.Reduced | src/day21.rs:48-55 | a completed reduction resolves exactly the allergens in play and those resolved before, and keeps the earlier resolutions of allergens no longer in play |
| Day21.ReducedStep | src/day21.rs:49-54 | one pass resolves the first single-candidate allergen, removes it and purges its ingredient |
| Day21.SeparatedStep | src/day21.rs:50-53 | one pass keeps the resolved ingredients out of the remaining candidate sets |
| Day21.PurgedShrinks | src/day21.rs:51-52 | a pass only shrinks the remaining candidate sets |
| Day21.ResolvesStep | src/day21.rs:48-55 | what the rest of `reduce` resolves after one pass is what the whole of it resolves |
| Day21.ReducedResolves | src/day21.rs:48-55 | a completed reduction gives every allergen one of its candidates, keeps the earlier resolutions, and gives no ingredient twice |
| Day21.ReduceFromScratch | src/day21.rs:48-79 | from an empty resolution, `reduce` gives every allergen one of its candidates and different allergens different ingredients, so `ingredient2allergen` loses nothing |
| Day21.AddFoodEffect | src/day21.rs:71-73 | one food intersects each allergen it lists with its ingredients and leaves the others alone |
| Day21.Gathered | src/day21.rs:69-77 | every allergen a food lists has candidates, all among that food's ingredients |
| Day21.GatheredCommon | src/day21.rs:69-77 | an allergen has candidates exactly when some food lists it, and they are the ingredients of every food that lists it |
| Day21.ProcessInputLine | src/day21.rs:93-98 | panics exactly when the line lacks " (contains "; ingredients are non-empty words, allergens non-empty pieces without ',', ' ' or ')' |
| Day21.FoodLineBack | src/day21.rs:93-98 | a food written as the puzzle writes it reads back as the food |
| Day21.AllergensBack | src/day21.rs:96 | the allergen list ", "-joined and closed by ')' splits back into the allergens |
| Day21.Lookup | src/day21.rs:88 | the values of the keys, in the keys' order |
| Day21.DangerousList | src/day21.rs:87-90 | when no ingredient holds a comma, the comma-separated pieces of the list are the ingredients in allergen order |
| Day21.OrderedUnique | src/day21.rs:33-41 | a strictly increasing listing of a set is the ordered listing |
| Day21.DangerousListExample | src/day21.rs:108 | with dairy, fish and soy resolved to mxmxvkd, sqjhc and fvjkl, the list is "mxmxvkd,sqjhc,fvjkl" |
| Day22.Deck.constructor | src/day22.rs:17-21 | a deck holds the player's name and the cards, top first |
| Day22.Deck.Empty | src/day22.rs:33-35 | true exactly when no card is left, and an empty deck scores 0 |
| Day22.Deck.Score | src/day22.rs:37-41 | the top card of a deck of n cards counts n times, each card below one time less |
| Day22.ParseDeck | src/day22.rs:24-31 | the first line is the player and each following line up to an empty line is a card, the empty line consumed; panics exactly when no line is left or a card does not parse |
| Day22.ParseDeckLines | src/day22.rs:24-31 | a deck written as its block of lines reads back as the deck |
| Day22.DecksFrom | src/day22.rs:10-15 | no lines panic; the first deck is the first line's player with the numbers on the lines below it, and the second deck is read the same way from the lines the first one leaves |
| Day22.DecksFromLines | src/day22.rs:10-15 | two decks written one after the other read back as the two decks |
| Day22.Reversed | src/day22.rs:38 | the cards from the bottom up |
| Day22.WeightedReversed | src/day22.rs:38-40 | the weighted sum over the reversed cards, read from the top |
| Day22.ScoreOf | src/day22.rs:37-41 | the score is the sum of each card times its 1-based position from the bottom |
| Day22.Round | src/day22.rs:44-49 | a round keeps the number of cards, and the first deck grows by one exactly when its top card is higher |
| Day22.RoundConserves | src/day22.rs:44-49 | a round keeps the multiset of all cards; the higher card's owner gains one card and puts both cards at its bottom, its own first; ties go to the second player |
| Day22.RoundTops | src/day22.rs:44-49 | a round in terms of the two top cards and the rest of each deck |
| Day22.PlayOneRound | src/day22.rs:44-49 | the two decks become the round's result and the players' names are unchanged |
| Day22.PlayConserves | src/day22.rs:51-54 | no card is lost or made during a game |
| Day22.PlaySplit | src/day22.rs:52-54 | m rounds followed by n more are m + n rounds |
| Day22.PlayAgain | src/day22.rs:52-54 | one more loop iteration extends the game by one round |
| Day22.CycleRounds | src/day22.rs:52-54 | from 43 19 against 2 29 14, six rounds bring the decks back where they started |
| Day22.EndlessGame | src/day22.rs:51-56 | the game from 43 19 against 2 29 14 never ends, so `play_to_end` does not return for every pair of decks |
| Day22.PlayToEnd | src/day22.rs:51-56 | for a game that ends, leaves a deck empty after some number of rounds and returns the other deck's score |
| Day22.Solve1 | src/day22.rs:5-8 | panics exactly when reading the decks does, and otherwise gives, in decimal, the winner's score at the end of the game |
| Day23.IndAddMod | src/day23.rs:24-26 | `ind_add` is addition modulo nine |
| Day23.IndSubMod | src/day23.rs:28-30 | `ind_sub` is subtraction modulo nine, never negative |
| Day23.IndSubAdd | src/day23.rs:24-30 | going back b places and then forward b places returns |
| Day23.Arc | src/day23.rs:94-101 | the places from n, one step at a time modulo max, up to but excluding d |
| Day23.IndSeqRange | src/day23.rs:86-101 | the iterator yields (open_end - start) mod max places, the i-th being start + i modulo max |
| Day23.IndSeqLength | src/day23.rs:86-101 | the number of places yielded, also when start and end meet |
| Day23.IndSeqFullCycle | src/day23.rs:86-101 | from a place back to itself the iterator goes once all the way round and yields every place exactly once |
| Day23.IndIterExamples | src/day23.rs:109-117 | the three cases of `test_ind_iter` |
| Day23.IndIter.From | src/day23.rs:86-88 | a new iterator will yield the arc from start to open_end modulo max |
| Day23.IndIter.Next | src/day23.rs:94-101 | yields the first remaining place and drops it, or nothing once exhausted |
| Day23.ArcStep | src/day23.rs:97-98 | one step: the first place is n and the rest is the arc from the next place, or nothing when that is the stop |
| Day23.Collect | src/day23.rs:32-34 | collecting the iterator gives its places |
| Day23.HasEveryLabel | src/day23.rs:12-15 | nine places that hold every label from 1 to 9 hold each once |
| Day23.RingFacts | src/day23.rs:12-15 | a ring's labels are 1 to 9, each at exactly one place |
| Day23.SeqMin | src/day23.rs:46 | `min().unwrap()`: a member no larger than any other |
| Day23.SeqMax | src/day23.rs:47 | `max().unwrap()`: a member no smaller than any other |
| Day23.LabelSub | src/day23.rs:44-50 | never below the smallest label |
| Day23.LabelSubRing | src/day23.rs:44-50 | on a ring the label counts down and wraps from 1 to 9 |
| Day23.DownRing | src/day23.rs:53-59 | on a ring, k further steps reach the label k below, so every label is reached |
| Day23.FindLabel | src/day23.rs:55-56 | nothing exactly when no place holds the label; otherwise the first place that does |
| Day23.Search | src/day23.rs:52-61 | what it finds is one of the places searched; it panics only when the least label is 0 |
| Day23.Dist | src/day23.rs:44-50 | zero exactly at the label sought, and never more than the greatest label minus the least |
| Day23.SearchEnds | src/day23.rs:52-61 | whatever the labels, the loop stops within max − min + 1 tries: it finds a place or panics |
| Day23.FindDestination | src/day23.rs:52-61 | panics when the current label is 0, and only when some cup is labelled 0; otherwise one of the places searched |
| Day23.SearchFinds | src/day23.rs:52-61 | the search succeeds when one of the labels it tries is at one of the places |
| Day23.SearchFound | src/day23.rs:52-61 | the result is the place of the first label tried that is at one of the places |
| Day23.DestinationFound | src/day23.rs:52-61 | on a ring the destination loop always ends, because the five places searched hold at least one label |
| Day23.DestinationLabel | src/day23.rs:52-61 | the destination holds the first label, counting down from one below the current cup's, that is at one of the places searched |
| Day23.DestinationIs | src/day23.rs:52-61 | the destination is the place of the label k below the current one when the labels in between are all held |
| Day23.HeldNotSearched | src/day23.rs:55-56 | a held label is at none of the places searched |
| Day23.FoundAt | src/day23.rs:55-56 | a label at a place searched is found there |
| Day23.Places | src/day23.rs:64-66 | the cups at the places, in order |
| Day23.ShiftEffect | src/day23.rs:67-69 | after the first loop, each of the places stepped over takes the cup k places on, and the others keep theirs |
| Day23.PlaceEffect | src/day23.rs:70-72 | after the second loop, the i-th place from `insert_start` holds the i-th held cup and every other place keeps its own |
| Day23.RemoveInsertAt | src/day23.rs:63-73 | each place after `remove_insert` holds a held cup, the cup three places on, or its own |
| Day23.RemoveInsertHeld | src/day23.rs:63-73 | the three held cups land, in their order, from `insert_start` on |
| Day23.RemoveInsertWindow | src/day23.rs:63-73 | read from the first held cup, the ring is rearranged as `Window` says |
| Day23.WindowPermutes | src/day23.rs:63-73 | that rearrangement neither makes nor loses a cup |
| Day23.RemoveInsertExample | src/day23.rs:120-124 | `test_remove_insert`: 3 8 9 1 2 5 4 6 7 becomes 3 2 8 9 1 5 4 6 7 |
| Day23.DestinationPlace | src/day23.rs:36-40 | the destination is 3 to 7 places on from the first held cup |
| Day23.RetainedPlaces | src/day23.rs:37-55 | the places searched are the five from the one after the held cups round to the current one |
| Day23.MovePlaces | src/day23.rs:40 | `insert_start` is two places before the destination, relative to the first held cup |
| Day23.MoveOnceSeq | src/day23.rs:36-42 | panics when the current cup is labelled 0 and only when some cup is; never on a ring; otherwise keeps nine places and makes the next place current |
| Day23.MoveOnceEffect | src/day23.rs:36-42 | a move keeps the ring and its cups, the current cup stays, and the three held cups follow the destination cup, in their order |
| Day23.MoveKeepsRing | src/day23.rs:36-42 | from a ring a move succeeds and keeps the labels 1 to 9 each at one place |
| Day23.MoveSeqEffect | src/day23.rs:40 | what `remove_insert` does as `move_once` calls it |
| Day23.Moves | src/day23.rs:5-7 | from a ring no move panics and after any number of moves the cups still form a ring |
| Day23.MovesPanicStays | src/day23.rs:5-7 | once a move panics, every longer run of moves panics |
| Day23.PlaceOf | src/day23.rs:76 | nothing exactly when the label is absent; otherwise the first place holding it |
| Day23.Digit | src/day23.rs:77 | the character with code label + 48 |
| Day23.NumStringRing | src/day23.rs:75-78 | on a ring, the eight labels after cup 1, going round, as digits |
| Day23.NumStringNoOne | src/day23.rs:76 | without a cup 1, `num_string` panics |
| Day23.CupRing.constructor | src/day23.rs:20-22 | the cups in the given order, the first current |
| Day23.CupRing.FindIndex | src/day23.rs:55-56 | the first place from `retain_start` round to the current one that holds the label |
| Day23.CupRing.FindDestinationIndex | src/day23.rs:52-61 | the loop ends, at the place `FindDestination` names or with its panic |
| Day23.CupRing.RemoveInsert | src/day23.rs:63-73 | the cups become the rearrangement of `RemoveInsertSeq` |
| Day23.CupRing.Hold | src/day23.rs:64-66 | the held cups are the `num_remove` cups from `remove_start` on |
| Day23.CupRing.ShiftBack | src/day23.rs:67-69 | each place from `remove_start` up to `insert_start` takes the cup `num_remove` places on |
| Day23.CupRing.PutDown | src/day23.rs:70-72 | the held cups go down, in order, from `insert_start` on |
| Day23.CupRing.MoveOnce | src/day23.rs:36-42 | one move as `MoveOnceSeq` says; when it panics the cups are left as they were |
| Day23.CupRing.MoveTo | src/day23.rs:40-41 | once the destination is found, the cups and the current place become what `MoveOnceSeq` gives |
| Day23.CupRing.NumString | src/day23.rs:75-78 | the labels after cup 1, as `NumStringOf` gives them |
| Day23.Solve1 | src/day23.rs:3-9 | the labels after cup 1 once a hundred moves from the first cup are made, or the panic of a move or of `num_string`; from a ring nothing panics |
| Day23.ExampleRing | src/day23.rs:136 | the cups of `test_moves` form a ring |
| Day23.ExampleFindDestination1 | src/day23.rs:128-129 | from 3 8 9 1 2 5 4 6 7 the destination of the first move is place 4 |
| Day23.ExampleFindDestination2 | src/day23.rs:130-131 | from 3 2 8 9 1 5 4 6 7 with retain start 5 it is place 8 |
| Day23.ExampleMove1 | src/day23.rs:138-150 | the first move of `test_moves` |
| Day23.ExampleMoves | src/day23.rs:135-151 | the cups after each of the ten moves of `test_moves` |
| Day23.ExampleMovesNumString | src/day23.rs:152 | after those ten moves `num_string` is "92658374" |
| Day24.Flip | src/day24.rs:38-40 | the other color |
| Day24.FlipTwice | src/day24.rs:38-40 | flipping twice gives the color back |
| Day24.Spelling | src/day24.rs:49-70 | a direction is written as an optional `n`/`s` followed by `e`/`w` |
| Day24.SpellingInjective | src/day24.rs:49-70 | different directions are written differently |
| Day24.FromChars | src/day24.rs:49-70 | succeeds exactly when the first character is absent, `n` or `s` and the second is `e` or `w`, and then gives the direction so written |
| Day24.FromSpelling | src/day24.rs:49-70 | every direction is read back from its spelling |
| Day24.Next | src/day24.rs:72-82 | a step keeps the parity of col + row and always moves |
| Day24.NextOpposite | src/day24.rs:72-82 | a step followed by the opposite step returns to the same tile |
| Day24.NeighboursDistinct | src/day24.rs:72-82 | the six neighbours of a tile are six different tiles |
| Day24.NextCommutes | src/day24.rs:72-82 | two steps end on the same tile in either order |
| Day24.Walk | src/day24.rs:18 | the fold keeps the parity of col + row |
| Day24.WalkAppend | src/day24.rs:18 | a walk in two parts is the second part from where the first ends |
| Day24.WalkSwap | src/day24.rs:72-82 | swapping two neighbouring steps ends on the same tile |
| Day24.WalkCancel | src/day24.rs:72-82 | a step followed by its opposite can be dropped from a walk |
| Day24.Destination | src/day24.rs:18 | from the reference tile every walk ends on a tile whose col + row is even |
| Day24.DirSeqFrom | src/day24.rs:85-99 | succeeds exactly when every character is `n`, `s`, `e` or `w` |
| Day24.DirSeqOf | src/day24.rs:85-99 | `dir_seq` on a whole line succeeds exactly when every character is `n`, `s`, `e` or `w` |
| Day24.DirSeq | src/day24.rs:85-99 | the loop over the characters computes `DirSeqOf` |
| Day24.ReadSpelling | src/day24.rs:88-97 | `dir_seq` reads one direction off the front of a line |
| Day24.DirSeqRoundTrip | src/day24.rs:85-99 | `dir_seq` reads back every walk from its spelling |
| Day24.StrayPrefixDropped | src/day24.rs:90-98 | a trailing `n` or `s` that no `e` or `w` follows is dropped without complaint |
| Day24.InputLineExamples | src/day24.rs:107-115 | the three cases of `test_input_line` |
| Day24.FloorParity | src/day24.rs:16-23 | the floor knows exactly the visited tiles, and a tile is black exactly when it was visited an odd number of times |
| Day24.CountOf | src/day24.rs:27-29 | at most the number of known tiles, and 0 exactly when no tile has the color |
| Day24.CountPartition | src/day24.rs:27-29 | the black and white counts add up to the number of known tiles |
| Day24.BlackCount | src/day24.rs:27-29 | the black tiles are the tiles visited an odd number of times |
| Day24.Floor.CountColor | src/day24.rs:27-29 | the tiles of the color and the tiles of the other color are all the known tiles |
| Day24.Floor.constructor | src/day24.rs:15 | the floor starts empty |
| Day24.Floor.Visit | src/day24.rs:19-22 | a new tile becomes black and a known one flips |
| Day24.Tiles | src/day24.rs:16-18 | succeeds exactly when every line reads, and then lists each line's destination |
| Day24.FloorFrom | src/day24.rs:14-25 | panics exactly when a line does not read; otherwise the floor after visiting the lines' destinations in order |
| Day24.Solve1 | src/day24.rs:5-7 | the number of tiles visited an odd number of times, as text, or a panic when a line does not read |
| Day25.Item | src/day25.rs:27-40 | the first value of the transform is 1 and every later one lies in 0 to 20201226 |
| Day25.ItemIsPow | src/day25.rs:35-40 | the k-th value of the transform of s is s to the power k modulo 20201227 |
| Day25.Transform.From | src/day25.rs:27-29 | the subject number, with the value 1 |
| Day25.Transform.Next | src/day25.rs:35-40 | yields the current value and keeps value × subject modulo 20201227; the subject number stays |
| Day25.LoopSizeUnique | src/day25.rs:14-17 | a key has at most one loop size |
| Day25.FindLoopSize | src/day25.rs:11-18 | returns the first position at which the transform of 7 yields the key |
| Day25.FindEncryptionKey | src/day25.rs:5-9 | returns the loop size of the card's public key |
| Day25.PublicItems | src/day25.rs:32-40 | the transform of 7 from position 0 to 11 |
| Day25.LoopSizeExamples | src/day25.rs:48-51 | 5764801 has loop size 8 and 17807724 has loop size 11 |
| Day25.LoopSizeTest | src/day25.rs:47-51 | `test_loop_size`: the search returns 8 and 11 |
| ModuloArticle.RustRem | src/modulo_article.rs:17-33 | Rust's `%` on `i64`: a == (a / b)·b + r, with \|r\| < \|b\| and r of the sign of a |
| ModuloArticle.PowHalves | src/modulo_article.rs:5-8 | b^e is (b^(e/2))², times b when e is odd |
| ModuloArticle.ExpStep | src/modulo_article.rs:5-9 | squaring the half power and multiplying by b when e is odd gives b^e modulo m |
| ModuloArticle.ExpLevel | src/modulo_article.rs:5-9 | panics on m = 0; never when the products fit in `u64`; otherwise below m, and b^e mod m when the half power is b^(e/2) mod m |
| ModuloArticle.ModularExponentiation1 | src/modulo_article.rs:1-11 | panics when m = 0 and e > 0, never when m > 0 and the products fit in `u64`; 1 for e = 0, not reduced by m; b^e mod m, below m, for e > 0 |
| ModuloArticle.DividesEuclidStep | src/modulo_article.rs:17-25 | a common divisor of b and a % b divides a |
| ModuloArticle.DividesLinear | src/modulo_article.rs:25-26 | divisibility is preserved by integer linear combinations |
| ModuloArticle.Gcd | src/modulo_article.rs:13-19 | the result divides both arguments |
| ModuloArticle.BezoutStep | src/modulo_article.rs:25-26 | the recursive step keeps x·a + y·b == g |
| ModuloArticle.EGcd | src/modulo_article.rs:21-28 | x·a + y·b == g, with g ≥ 0 dividing a and b; the base case is (\|a\|, sign of a, 0) |
| ModuloArticle.EGcdGreatest | src/modulo_article.rs:21-28 | every common divisor of a and b divides g, so g is the greatest common divisor |
| ModuloArticle.GcdIsEGcd | src/modulo_article.rs:13-28 | `gcd` agrees with `egcd`'s g up to sign |
| ModuloArticle.ModularInverse | src/modulo_article.rs:30-34 | succeeds exactly when g = 1 and m ≠ 0; for m > 0 the result lies in 0 to m-1 and a·r ≡ 1 modulo m |
| ModuloArticle.InverseProperty | src/modulo_article.rs:33 | from x·m + y·a == 1, ((y % m) + m) % m is the inverse of a modulo m |
| ModuloArticle.ShiftedRemainder | src/modulo_article.rs:33 | adding m to a truncated remainder and taking the remainder again gives the Euclidean remainder |
| ModuloArticle.ModularExponentiationExamples | src/modulo_article.rs:41-46 | the three cases of `test_me1` |
| ModuloArticle.EGcdExamples | src/modulo_article.rs:49-57 | the four gcds of `test_egcd` |
| ModuloArticle.ModularInverseExamples | src/modulo_article.rs:60-67 | the three inverses of `test_mod_inverse` |

## Left out

- The command-line driver in src/main.rs: it parses arguments, times runs and prints answers. Each `solve_N` takes the lines or numbers of its input file as a parameter instead of reading the file.
- Reading files (`all_lines`, `file2nums` and similar) is not modelled: the model starts from the lines already in memory.
- `Display` is modelled for the seat grid of day 11 and for a tile of day 20, through round trips with their parsers. `Display` for day 20's `PuzzlePieces` is left out: it only prints for debugging.
- Day 21's counting of allergen-free ingredients is left out: the ingredient histogram `Allergens::from` fills (src/day21.rs:68, 74-76) and `Allergens::allergen_free_counts` (src/day21.rs:83-85), which reads it. The counting goes through the external `histogram` crate, whose code is not part of this model. The rest of `Allergens::from` is modelled: `Gathered` is its loop over the foods (src/day21.rs:69-77), and `Reduced` with `ReduceFromScratch` is its `reduce` and the inversion into `ingredient2allergen` (src/day21.rs:78-79).
- Day 12 `solve_1` and `interpret_move_puzzle_1` are left out. Both depend on `Dir::rotated_degrees` from the `advent_code_lib` crate, which is not part of this model.
- Day12.Jump assumes the unit offsets N = (0, −1), S = (0, 1), E = (1, 0), W = (−1, 0) for `Dir::position_offset`, which is not part of this model.
- Day12.RotateWaypoint assumes `normalize_degrees` is the remainder modulo 360 in [0, 360). The real function is not part of this model.
- The `Flip` enum and the commented-out `flipped` of day 20 are not modelled: no code calls them.
- Library helpers from `advent_code_lib` and Rust's standard library (splitting, trimming, `parse`, `min`/`max`, `sort`) are modelled in the Util module from their documented behaviour.
- Tests whose input files are not part of the source are not stated as lemmas. These are:
  - day 3: 7, 336 and 2;
  - day 4: the example passports;
  - day 6: 11 and 6;
  - day 7: `create_example`, 4, 32 and 126;
  - day 8: 5 and 8;
  - day 9: 127;
  - day 10: (7, 5), (22, 10), 8 and 19208;
  - day 11: the example generations read from a file (only the first round is proved, by Day11.IterateFromNobody);
  - day 12: 25 and 441 (286 is proved from the published course);
  - day 13: 295, the 939 input file and 1068788;
  - day 14: 165 and the real-input tests;
  - day 16: 71 and the ticket-filter example;
  - day 17: 5, 11, 21, 38, 112 and the ignored four-dimensional run;
  - day 19: 2 and 3;
  - day 20: the nine ids of `load`;
  - day 21: 5 and the example list;
  - day 22: 306;
  - day 24: 10.
- Tests whose data is inline are left out when evaluating them would be too costly for the verifier:
  - day 14 `test_mask_2_1` (the addresses {26, 27, 58, 59} and the eight values) and `test_num_ones`; Day14.VariantsExact and Day14.VersionsCount state the general case;
  - day 15 `test_1` (the 2020th number for seven starts); Day15.SpokenRule states the rule each turn follows, and Day15.SpokenExample the first ten turns from 0, 3, 6;
  - day 23 `bigger_test` (100 moves from 389125467, giving 67384529); the single move is characterised by Day23's move lemmas.
- Day22.PlayToEnd requires that the game ends. Without that the Rust loop may never stop, and non-termination cannot be written here. Day22.EndlessGame shows a game that never ends.
- Day22.Solve1 requires the same of the decks it reads.
- Day25.FindLoopSize requires that the key occurs in the transform of 7. Otherwise the Rust search never ends.
- Day25.FindEncryptionKey requires the same for both keys.
- Day13.EarliestTimestampBrute requires that the search stops: some timestamp from 1 on works, or reaches a bus of id 0 whose check panics. Otherwise the Rust loop never ends.
- Day19.Matches requires a rank on the whole rule set that decreases along every reference, so every cycle is excluded. That is stronger than the program needs. Only a cycle that is reached without consuming input (such as `0: 0 1`) makes the Rust recursion overflow the stack. Two kinds of cyclic input terminate in Rust but are outside the model:
  - rules whose cycle consumes a character each time round. With `0: 1 0` and `1: "b"`, the message "a" fails rule 1, `and_then` skips rule 0, and the answer is false; the message "bb" ends with the out-of-bounds panic on `line[2]`;
  - rule sets with a cycle among rules that rule 0 never reaches.
- Day7.BagsWithin likewise requires a rank on the whole bag graph that decreases along every edge. That is stronger than the program needs: `bags_within` overflows the stack only when the bag asked about reaches a cycle. A graph with a cycle that the queried bag does not reach terminates in Rust, but it is outside the model.
- ModuloArticle.ModularExponentiation1 requires only that the arguments fit their `u32`/`u64` types. The `u64` overflow of its products panics, as in a debug build; a release build would wrap instead, which is not modelled.
- Day23.LabelSub requires a label of at least 1: its callers (`Search`, `FindDestination`, `CupRing.FindDestinationIndex`) test for 0 first and return the panic of the `u8` subtraction themselves.
- Integers are unbounded elsewhere. Overflow of `usize`, `u64`, `isize` and `i64` arithmetic is not modelled: where Rust would panic (or wrap, in a release build) the model computes the exact value. This covers the sums of days 1, 9 and 14, the `1 << len` of day 5 and the integer parsing in Util. In src/modulo_article.rs it leaves out:
  - the panic of `i64::MIN % -1`, which `gcd` (line 17) and `egcd` (line 25) reach on `a = i64::MIN, b = -1` in every build;
  - the overflow of `i64::MIN.abs()` in `egcd`'s base case (line 23);
  - the overflow of `(y % m) + m` in `modular_inverse` (line 33). For `a = 2, m = i64::MIN + 1`, `egcd` gives g = 1 and y = m / 2 (truncated), and y + m is below `i64::MIN`.
- Day 23's labels are naturals rather than `u8`; its two `u8` operations, `label - 1` and `cups[i] + '0' as u8`, panic as in a debug build.
- Day 8's jump target is the exception to unbounded integers: it wraps modulo 2^64 as the `as usize` cast does.
- Text is modelled as sequences of characters, which is exact for ASCII input. Byte lengths and byte indexing (`as_bytes` in days 2, 3 and 19, the ten-byte check and the `[0..7]` slice of day 5), the `as u8` truncation of day 2, and the panic of slicing inside a multi-byte character are not modelled.
- Day19.Matches evaluates Rust's `.or(...)` eagerly, as Rust does. The second alternative is computed, and can panic, even when the first matched.

## Findings

| source | as written | input that shows it | evidently intended | confidence | as-written member | corrected member |
|---|---|---|---|---|---|---|
| src/day10.rs:35-44 | the number of arrangements is 2 to the power of the number of interior adapters that can be removed one at a time | adapters 1, 2, 3, 4 (chain 0,1,2,3,4,7): the formula gives 8, but only 7 chains exist; the test's expected 19208 is not a power of two | the number of chains from 0 to the device whose gaps are all at most 3 | not executed | Day10.CountArrangements (with Day10.ArrangementsOvercount and Day10.Pow2IsNot19208) | Day10.CountArrangementsCorrected |
