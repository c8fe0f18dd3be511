# Advent of Code 2024 solvers, modelled in Dafny

This project models the Rust solutions to the Advent of Code 2024 puzzles,
one module per source file `src/dayNN.rs` (days 1, 2 and 4 to 25). Each
puzzle reads its input text and computes one number (or a string) per part.
The model states what the source computes in each part and proves it.
Often this is a reference definition with an all-inputs lemma tying the code
to it. Examples are the shortest-path search over (position, facing) states
of the reindeer maze, the race-track cheats, the towel arrangements, the
circuit evaluation and the largest LAN clique.

Shared modules hold what several days use:

| Module | What it holds |
|---|---|
| `Common` | `Option`, sums and counts, grid cardinalities |
| `Text` | the byte splitting the days do on `\n`, `,` and ` `, and `str::lines` |
| `Decimal` | decimal text, `to_string` and `parse`, and the `*_from_bytes` place-value helpers |
| `Bits` | xor, shifts and masks on unbounded naturals |
| `Sorting` | `sort` and `dedup` |
| `Maze` | the grid of walls and empty cells that days 16 and 20 read |
| `ShortestPath` | the Dijkstra search of days 16 and 18 |

Conventions:

- **Bytes.** The input is a `seq<char>` of ASCII bytes.
- **Panics.** A panic of the source (an `unwrap` on nothing, an index out of range, a debug-build arithmetic overflow the model keeps) is a `None`, `Panicked` or similar result. The contracts say exactly when it happens.
- **Loops that may not end.** They take a `fuel` count, and a lemma shows that enough fuel loses nothing where that can be stated.

## Model

| member | source | states |
|---|---|---|
| Day01.I32FromBytes | src/day01.rs:5-11 | on a field of at most six digits, the place-value fold over the power table gives the field's decimal value, which is below 10^6 |
| Day01.ParseLine | src/day01.rs:18-20 | a line reads exactly when it has a first field and a fourth field (after three spaces), both short enough for the power table |
| Day01.ParseLineRoundTrip | src/day01.rs:17-20 | a line written `a   b` with both numbers below 10^6 reads back as the pair (a, b) |
| Day01.CollectAll | src/day01.rs:17-24 | the two lists are built exactly when every line reads, and then hold each line's two fields in line order |
| Day01.TotalDistanceOrderFree | src/day01.rs:26-33 | the sum of distances between the sorted lists depends only on the multisets of the two lists, so reordering either input list changes nothing |
| Day01.TotalDistanceZero | src/day01.rs:26-33 | the total distance is zero exactly when the two lists hold the same numbers with the same multiplicities |
| Day01.Part1 | src/day01.rs:13-36 | part one is defined exactly when every line reads, and is then the total distance between the two lists, each sorted |
| Day01.SimilarityPermutation | src/day01.rs:56-59 | the similarity score is unchanged by any reordering of the left list, in particular by the sort |
| Day01.SimilarityCountsOnly | src/day01.rs:57 | the similarity score is unchanged by any reordering of the right list, since only counts are read from it |
| Day01.Part2Score | src/day01.rs:51-59 | scoring the sorted lists gives the similarity of the lists as read |
| Day01.Part2 | src/day01.rs:38-62 | part two is defined exactly when every line reads, and is then the sum over the left list of each number times its count in the right list |
| Day01.SplitFields | src/day01.rs:18-20 | splitting `a   b` on spaces gives the first number, two empty fields and the second number, so `nth(2)` after `next` takes the second |
| Day01.ParseLists | src/day01.rs:17-24 | the two lists have one entry per line |
| Day01.Collect | src/day01.rs:22-23 | the pushes give two lists as long as the lines |
| Day01.DistanceSumZero | src/day01.rs:30-33 | the sum of distances of two equally long lists is zero exactly when they are equal |
| Day01.SimilarityRemove | src/day01.rs:56-59 | the score is one entry's term plus the score of the rest |
| Day02.U32FromBytes | src/day02.rs:3-9 | on a field of at most six digits, the place-value fold gives the field's decimal value, below 10^6 |
| Day02.Reverse | src/day02.rs:20-22 | `vec.reverse()`: same length, element i is element len-1-i of the original |
| Day02.Safe | src/day02.rs:20-34 | the reverse-then-check-steps test accepts a report exactly when it rises by 1 to 3 at every step or falls by 1 to 3 at every step |
| Day02.RisingReverse | src/day02.rs:20-22 | a report reversed rises throughout exactly when the original falls throughout, which is why one rising check after the reverse suffices |
| Day02.EqualNeighboursUnsafe | src/day02.rs:25-27 | two equal neighbouring levels make a report unsafe |
| Day02.RemoveAt | src/day02.rs:49-54 | the `take(d).chain(skip(d + 1))` copy has one level fewer |
| Day02.SafeDroppingFrom | src/day02.rs:48-72 | the labelled loop from index d succeeds exactly when dropping some level at index d or later leaves a safe report |
| Day02.SafeDampened | src/day02.rs:42-74 | a report of three or more levels passes part two's filter exactly when dropping some single level leaves it safe |
| Day02.SafeIsSafeDampened | src/day02.rs:48-70 | every safe report also passes the dampened test |
| Day02.ParseReport | src/day02.rs:15-18 | a report has one level per space-separated field, and reads when no field is too long for the power table |
| Day02.CountSafe | src/day02.rs:11-37 | the number counted is the number of reports that are safe |
| Day02.CountSafeDampened | src/day02.rs:39-76 | the number counted is the number of reports that are safe once one level is dropped |
| Day02.DampenedCountsMore | src/day02.rs:39-76 | the dampener never lowers the count |
| Day02.ParseReports | src/day02.rs:12-18 | one report per line |
| Day02.Part1 | src/day02.rs:11-37 | part one is defined exactly when every line reads and has two levels, and is then the number of safe reports |
| Day02.Part2 | src/day02.rs:39-76 | part two is defined exactly when every line reads and has three levels; it is the number of reports safe with the dampener, and at least part one |
| Day04.FromBytes | src/day04.rs:13-27 | a grid exists exactly when the first line is non-empty; its width is that line's length and its cells hold no newline |
| Day04.FromBytesLines | src/day04.rs:13-27 | on a rectangular text the grid has one row per line, and cell (r, c) is character c of line r |
| Day04.IndexInRange | src/day04.rs:30-31 | the row-major index of an in-range cell lies inside the cell vector |
| Day04.GetCell | src/day04.rs:29-35 | inside the grid the stored byte is returned, anywhere else '.' |
| Day04.SpellsInBounds | src/day04.rs:76-84 | every letter of a matched XMAS lies inside the grid, since the '.' padding matches no letter |
| Day04.SpellsBackwards | src/day04.rs:45-74 | each match read from its far end in the opposite direction spells SAMX, so the eight candidate directions cover every orientation of the word |
| Day04.MatchesFrom | src/day04.rs:76-85 | the inner loop counts the candidate directions from the cell along which XMAS is spelled, at most eight |
| Day04.MatchingStep | src/day04.rs:76-85 | each further direction adds one to the count exactly when XMAS is spelled along it |
| Day04.CountXmas | src/day04.rs:41-89 | the nested loops count the (cell, direction) pairs that spell XMAS, at most eight per cell |
| Day04.Part1 | src/day04.rs:38-90 | part one is defined whenever the grid parses, and is the number of (cell, direction) pairs spelling XMAS |
| Day04.Corners | src/day04.rs:103-108 | the four diagonal neighbours of a cell, in the order up-left, up-right, down-left, down-right |
| Day04.Codes | src/day04.rs:103-116 | the corner bytes compared as numbers, position by position |
| Day04.SortedIsMmss | src/day04.rs:114-116 | sorting the corners gives M, M, S, S exactly when they hold two M and two S |
| Day04.MmssSorted | src/day04.rs:116 | the compared array M, M, S, S is itself sorted |
| Day04.IsCrossDiagonals | src/day04.rs:99-118 | a cell is counted exactly when it holds A and both of its diagonals read M-A-S one way or the other |
| Day04.CornerTest | src/day04.rs:110-116 | the two inequality guards plus the sorted comparison accept exactly the corners whose opposite pairs are each one M and one S |
| Day04.CornerTestIf | src/day04.rs:110-116 | corners forming two M-S diagonals pass both guards' sorted comparison |
| Day04.CornerTestOnlyIf | src/day04.rs:110-116 | corners that pass the guards and sort to M, M, S, S form two M-S diagonals |
| Day04.PairsOfLetters | src/day04.rs:110-116 | letters each M or S whose opposite corners differ form two M-S pairs |
| Day04.MmssLetters | src/day04.rs:114-116 | corners sorting to M, M, S, S are each M or S |
| Day04.CrossCodes | src/day04.rs:114-116 | two M-S diagonals hold the multiset {M, M, S, S} |
| Day04.PairedCodes | src/day04.rs:114-116 | two pairs of one M and one S each make the multiset {M, M, S, S} |
| Day04.CodesAreMs | src/day04.rs:114-116 | a sequence with the multiset {M, M, S, S} holds only M and S |
| Day04.CountCrosses | src/day04.rs:95-120 | the loops count exactly the cells at the centre of an X-MAS |
| Day04.Part2 | src/day04.rs:92-123 | part two is defined whenever the grid parses, and is the number of X-MAS centres, at most one per cell |
| Day05.U8FromBytes | src/day05.rs:5-13 | on a field of at most two digits the place-value fold gives its decimal value, below 100 |
| Day05.IndexOf | src/day05.rs:81-89 | the position of the first occurrence of a page |
| Day05.IndexOfAppend | src/day05.rs:33-34 | pushing a vertex onto the output leaves earlier vertices' positions unchanged |
| Day05.IndexOfLast | src/day05.rs:33-34 | a vertex pushed onto the output for the first time sits at its end |
| Day05.Endpoints | src/day05.rs:16-20 | the fold collects exactly the pages that are an endpoint of some edge |
| Day05.Dedup | src/day05.rs:22 | `dedup` of a sorted list leaves a strictly increasing list with the same members |
| Day05.Vertices | src/day05.rs:16-22 | the vertex list is strictly increasing and holds exactly the endpoints of the edges |
| Day05.Sources | src/day05.rs:24-28 | the initial stack holds exactly the vertices without an incoming edge, in increasing order |
| Day05.RemoveEdge | src/day05.rs:39-43 | the filter keeps every edge except the removed one |
| Day05.NoDupLength | src/day05.rs:29-48 | a duplicate-free list whose members all occur in another duplicate-free list is no longer than it |
| Day05.DistinctCard | src/day05.rs:29-48 | a duplicate-free list has as many distinct members as entries |
| Day05.TopSort | src/day05.rs:15-51 | the output is duplicate-free, holds only vertices, lists every edge's source before its target, and holds every vertex exactly when the graph has no cycle |
| Day05.Pop | src/day05.rs:33-34 | popping the stack top and pushing it onto the output keeps the loop's facts |
| Day05.Relax | src/day05.rs:35-47 | after the inner loop no edge leaves the emitted vertex and every vertex left without incoming edges is emitted or waiting |
| Day05.RelaxStep | src/day05.rs:36-46 | removing one edge out of the emitted vertex, and pushing its target when that was its last incoming edge, keeps the inner loop's facts |
| Day05.RelaxList | src/day05.rs:44-46 | the emitted and waiting vertices stay distinct, known, and free of incoming edges |
| Day05.RelaxEdges | src/day05.rs:39-43 | only edges out of the emitted vertex are removed, and none out of earlier emitted vertices remain |
| Day05.RelaxWaiting | src/day05.rs:44-46 | a vertex neither emitted nor waiting still has an incoming edge |
| Day05.PermuteNoDup | src/day05.rs:33-34 | moving the popped vertex from the stack to the output keeps the vertices distinct |
| Day05.EmitKeepsOrder | src/day05.rs:33-34 | emitting a vertex with no incoming edge left keeps every edge's source ahead of its target |
| Day05.NoDupLast | src/day05.rs:33-34 | the popped vertex has not been emitted before |
| Day05.Completeness | src/day05.rs:33-50 | when the stack is empty every vertex has been emitted exactly when the graph has no cycle |
| Day05.OrderRanks | src/day05.rs:33-50 | an output holding every vertex, with each edge's source first, ranks the graph, so the graph has no cycle |
| Day05.Emitted | src/day05.rs:33-50 | in a graph with a ranking, every vertex is emitted once the stack runs empty |
| Day05.CheckFrom | src/day05.rs:82-88 | the scan from position i passes exactly when no later page has a rule putting it before an earlier one |
| Day05.CheckPairs | src/day05.rs:83-87 | the inner scan passes exactly when no page after j has a rule putting it before page i |
| Day05.CheckIsInOrder | src/day05.rs:81-89 | the updates the loops accept are exactly those in order |
| Day05.SumMiddlesSnoc | src/day05.rs:89 | adding one more update adds its middle page to the total |
| Day05.SumOrderedMiddles | src/day05.rs:79-92 | the total is defined exactly when no accepted update is empty, and is then the sum of the accepted updates' middle pages |
| Day05.SumOrderedStep | src/day05.rs:81-90 | one more update keeps the total equal to the sum of the accepted middles |
| Day05.Subgraph | src/day05.rs:124-128 | the subgraph holds exactly the rules whose two pages both occur in the update |
| Day05.SumReorderedMiddles | src/day05.rs:121-136 | the total is defined exactly when no changed order is empty, and is then the sum of the changed orders' middle pages |
| Day05.ChangedSnoc | src/day05.rs:131-133 | one more update adds its order to the changed ones exactly when the order differs from the update |
| Day05.TopOrders | src/day05.rs:123-130 | each update gets a topological order of its own rules |
| Day05.TopOrdersSnoc | src/day05.rs:123-130 | one more order keeps every update paired with a topological order of its rules |
| Day05.ReorderSum | src/day05.rs:121-136 | each update gets a topological order of its rules, and the total is the sum of the middle pages of the orders that differ from their update |
| Day05.SplitAtBlank | src/day05.rs:56-66 | the rule lines are those before the first empty line and the update lines those after it; with no empty line `unwrap` panics |
| Day05.ParseRule | src/day05.rs:59-65 | a rule line reads exactly when it has at least five bytes, since the slices 0..2 and 3..5 panic otherwise |
| Day05.ParseUpdate | src/day05.rs:70-77 | an update reads exactly when every comma-separated field has at most two bytes; it has one page per field, with each decimal field's value |
| Day05.ParseRules | src/day05.rs:58-66 | one rule per rule line |
| Day05.ParseUpdates | src/day05.rs:68-77 | one update per update line |
| Day05.Part1 | src/day05.rs:53-93 | part one is defined exactly when the input parses and no accepted update is empty, and is then the sum of the accepted updates' middle pages |
| Day05.Part2 | src/day05.rs:95-137 | part two pairs each update with a topological order of its own rules; it is defined when no order differing from its update is empty, and is then the sum of those orders' middle pages |
| Day06.Next | src/day06.rs:72-79 | a turn maps the step (dr, dc) to (dc, -dr), a quarter turn clockwise, and always changes the facing |
| Day06.NextFourTimes | src/day06.rs:72-79 | four turns give the original facing back, and two face the opposite way |
| Day06.DirectionFromByte | src/day06.rs:62-70 | a facing is read exactly from the bytes `^`, `v`, `<` and `>` |
| Day06.FromBytesLines | src/day06.rs:27-41 | on a rectangular text the grid has one row per line, the first line's width, and walls exactly at the `#` cells |
| Day06.ClonedWithExtraCell | src/day06.rs:51-58 | no grid when the cell is already a wall; otherwise the same grid with exactly that one wall more |
| Day06.FindInLine | src/day06.rs:85-92 | the first guard byte at or after a column, or none when the rest of the line has none |
| Day06.FindGuard | src/day06.rs:83-95 | the guard is the first `^v<>` byte in row-major order, facing as that byte says; none when no line has one |
| Day06.NextPos | src/day06.rs:97-104 | the cell ahead is one step away in the facing direction |
| Day06.Step | src/day06.rs:118-129 | the walk stops exactly when the cell ahead is off the grid; a wall ahead turns the guard in place, otherwise it steps onto a free cell |
| Day06.IterateAdd | src/day06.rs:118-129 | a + b passes are a passes followed by b more |
| Day06.IterateGone | src/day06.rs:118-129 | once the guard has left it stays gone |
| Day06.RepeatNeverLeaves | src/day06.rs:177-191 | a guard that comes back to an earlier state never leaves, which is why a repeated state counts as a loop |
| Day06.CycleForever | src/day06.rs:177-191 | a state that recurs after some passes recurs for ever |
| Day06.Walk | src/day06.rs:115-129 | the visited set holds the start, and besides it only free grid cells |
| Day06.TrailStop | src/day06.rs:119-122 | a guard facing off the grid visits only its own cell |
| Day06.TrailStep | src/day06.rs:123-128 | one pass adds the current cell to the cells visited from the next state |
| Day06.WalkTrajectory | src/day06.rs:111-130 | the loop ends within the fuel exactly when the guard leaves, and then it has visited precisely the cells of the states it passed through |
| Day06.Part1 | src/day06.rs:111-130 | part one is defined exactly when there is a guard and it leaves within the fuel; it is the number of cells it stood on, between one and one more than the grid's size |
| Day06.Moves | src/day06.rs:136-150 | each state pushed onto the path after the start stands on a free grid cell |
| Day06.PositionsCons | src/day06.rs:136-150 | the cells of a path are its first state's cell and the cells of the rest |
| Day06.MovesWalk | src/day06.rs:111-150 | both parts trace the same walk: the path exists exactly when the part-one walk ends, and its cells are the visited cells |
| Day06.FirstVisits | src/day06.rs:152-158 | the deduplicated path keeps the first state on each cell: same cells, no two on one cell, each taken from the path |
| Day06.DistinctPositionsCard | src/day06.rs:152-158 | states on distinct cells are as many as their cells |
| Day06.LoopsFrom | src/day06.rs:177-191 | a verdict of "leaves" means the guard leaves the altered grid within the fuel |
| Day06.LoopsFromSound | src/day06.rs:177-191 | a verdict of "loops" means some pass lands on a state seen before the restart or on one of the walk's own earlier states |
| Day06.IndexOf | src/day06.rs:163-166 | the position of the first equal state on the path |
| Day06.Verdicts | src/day06.rs:162-192 | one verdict per candidate, the candidate's own |
| Day06.CountTraps | src/day06.rs:160-194 | the count is defined when every candidate's verdict is, and is the number of candidates that trap the guard |
| Day06.VerdictHits | src/day06.rs:187-190 | the verdicts counted as true are exactly those of the trapping candidates |
| Day06.Part2 | src/day06.rs:132-195 | part two is defined exactly when a guard is found, its walk ends, and every deduplicated path cell gets a verdict; it is then the number of those cells whose extra wall traps the guard, never more than part one's count |
| Day06.CandidatesBound | src/day06.rs:152-158 | the candidates are no more than the cells part one visits |
| Day06.CandidatesOnPath | src/day06.rs:152-166 | every candidate occurs on the path, so `position(...).unwrap()` finds it |
| Day07.UnapplyInverse | src/day07.rs:24-58 | whenever an operator can be undone, applying it again to the result and the operand gives back the target; a concatenation undone leaves a positive prefix |
| Day07.UnapplyMul | src/day07.rs:33-39 | an exact division undoes a multiplication |
| Day07.UnapplyCat | src/day07.rs:40-56 | cutting the operand's digits off the end of the target's digits undoes a concatenation, leaving a positive number |
| Day07.CatParts | src/day07.rs:45-52 | a digit string split into a prefix and a tail has the value prefix times ten to the tail's length plus the tail |
| Day07.PrefixPositive | src/day07.rs:48-52 | a proper prefix of a number's printed digits has a positive value, since the first digit is not zero |
| Day07.ApplyUnapply | src/day07.rs:24-58 | undoing recovers any positive accumulator, for each of the three operators |
| Day07.ApplyUnapplyMul | src/day07.rs:33-39 | a product divides exactly by its positive factor and gives the other factor back |
| Day07.ApplyUnapplyCat | src/day07.rs:40-56 | a concatenation with a positive accumulator is undone to that accumulator |
| Day07.DigitsHeadPositive | src/day07.rs:41-44 | the printed digits of a positive number do not start with zero |
| Day07.EvalLeftPositive | src/day07.rs:81-90 | with positive operands every left-to-right result is positive |
| Day07.DfsFrom | src/day07.rs:86-89 | the `any` over the remaining operators holds exactly when one of them can be undone on the last operand and leads to a successful search on the rest |
| Day07.DfsCorrect | src/day07.rs:81-90 | on positive operands the search succeeds exactly when some left-to-right choice of the operators gives the target |
| Day07.EvalSnoc | src/day07.rs:71-78 | evaluating with one more operator applies it to the result of the shorter list and the last operand |
| Day07.DfsSound | src/day07.rs:81-90 | a successful search means the equation is solvable |
| Day07.DfsLast | src/day07.rs:71-89 | a success that is not immediate undoes some operator on the last operand and succeeds on the rest |
| Day07.ExtendChoice | src/day07.rs:71-78 | a solution for all operands but the last, followed by an operator reaching the target, solves the whole line |
| Day07.DfsComplete | src/day07.rs:81-90 | a solvable equation with positive operands is found by the search |
| Day07.FindColon | src/day07.rs:4 | the position of the first ": ", or the line's end when there is none |
| Day07.ParseAll | src/day07.rs:9-11 | every field is read as a number, one value per field; a non-number makes `unwrap` panic |
| Day07.ParseLine | src/day07.rs:3-14 | a parsed line has at least one operand |
| Day07.ParseLineRoundTrip | src/day07.rs:3-14 | a target and one operand written as `t: v` read back as themselves |
| Day07.ParseLineOf | src/day07.rs:3-14 | two decimal fields joined by ": " read as the target and a single operand |
| Day07.ColonSplit | src/day07.rs:3-14 | with no colon on either side, the first ": " found is the one joining the two sides |
| Day07.NumberField | src/day07.rs:5-10 | a field that reads as a number holds neither a colon nor a space |
| Day07.SplitField | src/day07.rs:9 | a field without spaces splits into itself |
| Day07.ParseAllSingle | src/day07.rs:9-11 | a single decimal field reads as one operand |
| Day07.SearchIsDfs | src/day07.rs:81-90 | on positive operands the search as written never panics and answers as the idealised search |
| Day07.SearchFromIsDfsFrom | src/day07.rs:86-89 | the same for the `any` over the remaining operators |
| Day07.TotalSome | src/day07.rs:92-111 | a total exists exactly when every line parses and its search does not panic |
| Day07.TotalSolvable | src/day07.rs:92-111 | with positive operands the total is the sum of the targets of the solvable lines |
| Day07.MoreOpsMore | src/day07.rs:113-132 | a third operator keeps every solvable line solvable, so the sum can only grow |
| Day07.Part1 | src/day07.rs:92-111 | part one is defined exactly when every line parses and no search panics; with positive operands it is the sum of the targets reachable with + and * |
| Day07.Part2 | src/day07.rs:113-132 | part two is defined exactly when every line parses and no search panics; with positive operands it is the sum of the targets reachable with +, * and concatenation, and at least part one |
| Day07.ZeroOperandSolved | src/day07.rs:24-32 | in `3: 0 3` undoing the addition of 3 leaves the operand 0 equal to the target 0, a success (with lines 81-90) |
| Day07.ZeroFactorPanics | src/day07.rs:33-39 | in `5: 2 0` the search reaches `% 0` and panics (with lines 81-90) |
| Day08.PositionsFrom | src/day08.rs:12-21 | the list for a frequency holds each of its antennas once, row by row, exactly the cells of the text with that byte |
| Day08.RowPositions | src/day08.rs:13-20 | within one line the antennas of a frequency are pushed in increasing column order, each cell with that byte once |
| Day08.Run | src/day08.rs:15 | a byte range such as `b'0'..=b'9'` lists its bytes in order |
| Day08.RunMembers | src/day08.rs:15 | a byte is in the range exactly when it lies between its ends |
| Day08.FrequenciesAreAntennas | src/day08.rs:14-19 | the bytes whose lists can be non-empty are exactly the digits and the two runs of letters |
| Day08.StepInside | src/day08.rs:74-78 | inside a grid, the cells between two cells of a line are inside too |
| Day08.Between | src/day08.rs:74-78 | one step lies between the start and k steps on, for k at least one |
| Day08.RayIsLine | src/day08.rs:72-86 | the `while` walk from a grid cell visits exactly the grid cells p + k d for k >= 0, since once it leaves the grid it cannot come back |
| Day08.RaySound | src/day08.rs:72-86 | every cell the walk visits is a grid cell p + k d |
| Day08.RayComplete | src/day08.rs:72-86 | every grid cell p + k d is visited by the walk from a grid cell p |
| Day08.AlongStep | src/day08.rs:76-77 | one step and then k more is k + 1 steps |
| Day08.LoopJMembers | src/day08.rs:27-41 | the inner loop adds exactly the contributions of the pairs (i, j) with j from its start on, taken both ways round |
| Day08.LoopIMembers | src/day08.rs:26-42 | the two loops over `i < j` add the contributions of every ordered pair of distinct entries |
| Day08.FrequencyMembers | src/day08.rs:25-43 | one frequency's list pairs up exactly the antennas of that frequency |
| Day08.CollectMembers | src/day08.rs:25-43 | the frequency loop collects the contributions of exactly the pairs of antennas of the frequencies it visits |
| Day08.CollectAll | src/day08.rs:25-43 | looping over every antenna byte collects the contributions of every pair of antennas |
| Day08.CollectInBounds | src/day08.rs:34-40 | every collected cell is inside the grid, because only cells passing the bounds test are inserted |
| Day08.MirrorCollect | src/day08.rs:23-45 | the set part one builds is the set of mirror antinodes |
| Day08.MirrorNodesFromAntennas | src/day08.rs:31-40 | a grid cell is a mirror antinode exactly when some pair of antennas of one frequency reflects to it |
| Day08.LineCollect | src/day08.rs:64-91 | the set part two builds is the set of ray antinodes |
| Day08.LineNodesFromAntennas | src/day08.rs:72-86 | a grid cell is a ray antinode exactly when some pair of antennas of one frequency walks onto it |
| Day08.Counted | src/day08.rs:23-45 | the collected set is the antinode set of its rule, with no more cells than the grid |
| Day08.Part1 | src/day08.rs:7-46 | part one is the number of grid cells that mirror one antenna in another of the same frequency, at most the grid's size |
| Day08.Part2 | src/day08.rs:48-92 | part two is the number of grid cells on a ray from an antenna away from another of its frequency, at most the grid's size |
| Day08.MirrorsOnLines | src/day08.rs:31-32 | a mirror image lies one step along the ray, so with every line at most as wide as the first, part one is at most part two |
| Day08.AntennasAreLineNodes | src/day08.rs:72-75 | every antenna inside the grid that shares its frequency with another is a part-two antinode, the ray's first cell |
| Day09.Counts | src/day09.rs:15-23 | the digits read exactly when no byte lies below '0' (the `u8` subtraction panics there), one length per byte, the byte's distance from '0' |
| Day09.Repeat | src/day09.rs:16-27 | n copies of one block |
| Day09.Expand | src/day09.rs:15-33 | the disk has as many blocks as the lengths add up to |
| Day09.SumFront | src/day09.rs:15-33 | the total length is the first file's and gap's lengths plus the rest |
| Day09.ExpandOrdered | src/day09.rs:15-33 | file ids appear along the disk in increasing order from the first id |
| Day09.Where | src/day09.rs:18-25 | the stacks hold, in increasing order, exactly the indices of the used (or free) blocks |
| Day09.Swap | src/day09.rs:42 | `swap` exchanges two blocks, leaves every other in place, and keeps the disk's contents |
| Day09.Compact | src/day09.rs:35-46 | compaction keeps the disk's length and its multiset of blocks |
| Day09.CompactPacks | src/day09.rs:35-46 | started from stacks that satisfy its invariant, compaction leaves every used block left of every free one |
| Day09.CompactStops | src/day09.rs:39-41 | once the highest used block lies left of the lowest gap, the disk is packed |
| Day09.PendingBounds | src/day09.rs:35-46 | pending gaps lie at or right of the first, pending file blocks at or left of the last |
| Day09.CompactStep | src/day09.rs:37-46 | one swap keeps the compaction invariant |
| Day09.StepStacks | src/day09.rs:37-46 | after a swap the shortened stacks still list free and used blocks |
| Day09.StepPlaced | src/day09.rs:42 | after a swap the filled block sits left of the pending gaps and the emptied one right of the pending file blocks |
| Day09.StepOrdered | src/day09.rs:42 | after a swap every used block off the stacks lies left of every free one |
| Day09.StepMembers | src/day09.rs:37-38 | popping loses exactly the first gap and the last file block |
| Day09.CompactStarts | src/day09.rs:15-35 | before any move every block is on one of the two stacks, as the invariant asks |
| Day09.PackedChecksum | src/day09.rs:48-56 | on a packed disk the loop that stops at the first free block loses nothing |
| Day09.AllFreeChecksum | src/day09.rs:48-56 | free blocks add nothing to the checksum |
| Day09.Compacted | src/day09.rs:6-46 | after compaction the disk is packed, with the expanded disk's length and blocks |
| Day09.Part1 | src/day09.rs:5-59 | part one is defined exactly when the digits read, and is the checksum of the compacted disk |
| Day09.LaidOrdered | src/day09.rs:69-83 | laid-out files lie one after another without overlap |
| Day09.Files | src/day09.rs:62-83 | file k has id k, the files are laid out without overlap, and there is one file per odd position of the input |
| Day09.FindGap | src/day09.rs:88-101 | the search finds the first file left of the moving file with a gap after it long enough, and gives up at the first file that does not start left of it |
| Day09.Without | src/day09.rs:106-110 | dropping a file never lengthens the list |
| Day09.RebuildBefore | src/day09.rs:106-114 | with no index reaching the insertion point, rebuilding only drops the moved file |
| Day09.RebuildSplit | src/day09.rs:106-114 | rebuilding inserts the moved file once, right after the insertion point |
| Day09.WithoutSnoc | src/day09.rs:106-110 | dropping from a list with one more file drops from the shorter list and keeps the last unless it is the dropped one |
| Day09.WithoutAbsent | src/day09.rs:107-109 | dropping an absent id changes nothing |
| Day09.WithoutOne | src/day09.rs:107-109 | dropping a unique id removes exactly that file |
| Day09.MoveSplit | src/day09.rs:103-117 | a found gap lies left of the moving file, and the new list is the old one with that file taken out and put after the gap's left neighbour |
| Day09.GapBeforeFile | src/day09.rs:93-95 | a gap whose left neighbour starts before the moving file lies left of it in the list |
| Day09.RebuildSpliced | src/day09.rs:104-116 | rebuilding with the file moved after an earlier index splices it there |
| Day09.TailSlices | src/day09.rs:104-116 | slicing the tail after the insertion point gives the files up to and after the moved one |
| Day09.SplicedKeys | src/day09.rs:104-116 | splicing keeps the set of (id, length) pairs and every other file unchanged |
| Day09.SplicedLaid | src/day09.rs:96-98 | a file moved into a gap at least its length keeps the files laid out without overlap |
| Day09.SplicedDistinct | src/day09.rs:104-116 | splicing keeps the ids distinct |
| Day09.MoveKeeps | src/day09.rs:87-118 | a move keeps every file with its length, keeps the layout, leaves the other files in place, and moves the file only left |
| Day09.MoveAll | src/day09.rs:85-118 | after every file has had its chance to move, the list is laid out, ids are distinct, and the same files keep their lengths |
| Day09.TriClosed | src/day09.rs:123-125 | 0 + 1 + ... + (n - 1) is n (n - 1) / 2 |
| Day09.FileChecksumClosed | src/day09.rs:123-125 | a file's checksum is its id times the sum of its block positions, in closed form |
| Day09.TriBelow | src/day09.rs:123-125 | the triangular numbers grow |
| Day09.FilesChecksumClosed | src/day09.rs:120-128 | the block-by-block loop computes the closed-form checksum |
| Day09.Part2 | src/day09.rs:61-129 | part two is defined exactly when the digits read, and is the checksum of the files after each has moved left at most once |
| Day09.Part2Layout | src/day09.rs:85-118 | after the moves the files are the original ones with their lengths, still laid out without overlap |
| Day10.Heights | src/day10.rs:16-20 | every byte is mapped to its distance from '0', defined exactly when no byte lies below '0' (the `u8` subtraction panics there) |
| Day10.FromBytes | src/day10.rs:14-24 | a grid read from the text has the first line's width and holds the heights of the text without its newlines |
| Day10.DivExact | src/day10.rs:21 | when the cells fill whole rows, rows times width is the cell count |
| Day10.RowStart | src/day10.rs:30-32 | the first index of a row past the first is at least the width |
| Day10.RowStartProduct | src/day10.rs:30-32 | the first index of a row is the row times the width |
| Day10.CoordsOfIndex | src/day10.rs:26-32 | `to_coords` undoes `to_index` on any column inside the grid |
| Day10.IndexOfCoords | src/day10.rs:26-32 | `to_index` undoes `to_coords`, and the column is inside the grid |
| Day10.IndexInGrid | src/day10.rs:30-36 | a grid cell's index lies inside the cell vector |
| Day10.CoordsInGrid | src/day10.rs:26-28 | an index inside the cell vector names a grid cell |
| Day10.Neighbour | src/day10.rs:53-64 | each of the four bounds tests admits only an orthogonal neighbour inside the grid |
| Day10.NeighbourComplete | src/day10.rs:53-64 | every orthogonal neighbour inside the grid passes one of the four bounds tests |
| Day10.NextFromMembers | src/day10.rs:53-64 | the tests from a direction on return exactly the neighbours in those directions that are one higher |
| Day10.NextMembers | src/day10.rs:50-66 | `next` returns exactly the orthogonal neighbours inside the grid that are one higher |
| Day10.NextSiblings | src/day10.rs:50-66 | what `next` returns are distinct grid cells one higher than the cell |
| Day10.SiblingStep | src/day10.rs:75-81 | handling one sibling settles its share of the 9s found, the cells visited and the queue work |
| Day10.FrontSize | src/day10.rs:72 | the queue's remaining work is the front cell's search tree plus the rest |
| Day10.FrontEnds | src/day10.rs:72 | the 9s still to be found are the front cell's plus the rest's |
| Day10.FrontVisited | src/day10.rs:72 | the cells still to be taken off are the front cell's search plus the rest's |
| Day10.TakeFront | src/day10.rs:72 | dropping the front and dropping the back commute |
| Day10.QueueBack | src/day10.rs:79 | pushing a cell at the back adds its search tree, its 9s and its cells to the queue's |
| Day10.StartQueue | src/day10.rs:70 | the queue holding only the start stands for the start's search |
| Day10.PopNode | src/day10.rs:72-73 | the front cell stands for itself and the searches from the cells it climbs to |
| Day10.QueueRest | src/day10.rs:72 | the rest of a queue of grid cells is one too |
| Day10.CountMarked | src/day10.rs:84 | the final count is the number of cells marked at least once |
| Day10.MarkOne | src/day10.rs:77 | counting an index once more marks it |
| Day10.NoneFound | src/day10.rs:69 | the fresh counter marks nothing |
| Day10.BfsWithoutTrail | src/day10.rs:68-85 | the search counts the distinct 9-cells reachable by climbing one step at a time from the start |
| Day10.Visit | src/day10.rs:72-81 | one round keeps the 9s found plus those still due, shrinks the queue's work, and takes off exactly the front cell |
| Day10.VisitChildren | src/day10.rs:75-81 | the inner loop counts the 9s among the children and queues every other child |
| Day10.CountStep | src/day10.rs:76-77 | a 9 among the children is marked in `found` |
| Day10.QueueStep | src/day10.rs:78-79 | any other child joins the back of the queue |
| Day10.MoveLeft | src/day10.rs:75-81 | regrouping a union of four sets |
| Day10.MoveMiddle | src/day10.rs:75-81 | regrouping a union of four sets |
| Day10.EndsAreNines | src/day10.rs:46-48 | what the search counts are 9-cells |
| Day10.EndsOfAreNines | src/day10.rs:75-81 | the same for the searches from a list of siblings |
| Day10.ScoreBound | src/day10.rs:68-85 | a trailhead's score is at most the number of 9-cells |
| Day10.TotalBound | src/day10.rs:151-154 | a sum over the trailheads of scores each at most m is at most m per trailhead |
| Day10.MulSucc | src/day10.rs:151-154 | (a + 1) m is a m + m |
| Day10.Part1 | src/day10.rs:151-154 | part one is defined exactly when the grid reads, and is the sum over the zero cells, in index order, of the number of 9s reachable from each |
| Day10.Part1Bound | src/day10.rs:151-154 | part one is at most the number of trailheads times the number of 9-cells |
| Day10.Extensions | src/day10.rs:100-108 | the path is extended by each predecessor in turn, one new path per predecessor |
| Day10.ReconstructPaths | src/day10.rs:87-112 | the rebuilt paths are exactly the completions of the input paths down the predecessor table |
| Day10.GrowPaths | src/day10.rs:93-110 | the paths grown from one path are exactly its completions |
| Day10.LeafCompletes | src/day10.rs:96-98 | at a node without predecessors the only completion is the path itself |
| Day10.CompletesAt | src/day10.rs:100-109 | a completion longer than its start continues with a predecessor of the start's last node |
| Day10.InnerCompletes | src/day10.rs:100-109 | past a node with predecessors a completion goes through one of them |
| Day10.ExtensionCompletes | src/day10.rs:100-109 | a completion of an extended path completes the path |
| Day10.OwedUnion | src/day10.rs:122-123 | the predecessors recorded from two sets of cells are the union of each set's |
| Day10.NoPreds | src/day10.rs:116 | the fresh predecessor table has an empty list for every cell |
| Day10.RecordPreds | src/day10.rs:122-123 | one round adds the taken cell to the list of each cell it climbs to |
| Day10.PushStep | src/day10.rs:122-123 | one push adds the taken cell to exactly one list |
| Day10.HitsCoords | src/day10.rs:122-123 | an index is pushed to exactly when its cell is one `next` returned |
| Day10.SearchPreds | src/day10.rs:115-130 | the loop marks exactly the reachable 9s and records, for every cell, the visited cells that climb to it |
| Day10.Ascending | src/day10.rs:137-141 | the members below a bound, in increasing order |
| Day10.Clean | src/day10.rs:133-134 | `sort` then `dedup` gives a strictly increasing list with the same members |
| Day10.Normalize | src/day10.rs:132-135 | every list is cleaned, keeping its members |
| Day10.Singletons | src/day10.rs:137-141 | each counted 9 becomes a path of one node |
| Day10.Table | src/day10.rs:115-135 | the reference predecessor table has one entry per cell |
| Day10.OwedInGrid | src/day10.rs:122-123 | only grid cells are recorded as predecessors |
| Day10.OwedBelow | src/day10.rs:122-123 | a predecessor sits exactly one below the cell it leads to |
| Day10.TableRanked | src/day10.rs:115-135 | the table ranks every predecessor below its cell by height, so rebuilding ends |
| Day10.Heads | src/day10.rs:137-141 | the path heads are open paths of the table, one per counted 9, in index order |
| Day10.TrailsComplete | src/day10.rs:137-147 | a rebuilt trail is exactly a walk down the table from a reached 9 to a cell without predecessors |
| Day10.NormalizedTable | src/day10.rs:115-135 | the cleaned lists the search builds are the reference table |
| Day10.Bfs | src/day10.rs:114-148 | the search with trails returns the number of distinct rebuilt trails |
| Day10.ReachedMono | src/day10.rs:119-130 | a cell reached from fewer visited cells is reached from more |
| Day10.VisitedShape | src/day10.rs:119-130 | every cell the search takes off is the start or was pushed by another such cell, and every 9 counted was reached from one |
| Day10.VisitedCellsLift | src/day10.rs:119-130 | the cells half of the shape follows from the children's searches |
| Day10.VisitedEndsLift | src/day10.rs:119-130 | the 9s half of the shape follows from the children's searches |
| Day10.ReachedFromParent | src/day10.rs:122-128 | a cell climbed to from a visited cell is reached |
| Day10.VisitedOfShape | src/day10.rs:119-130 | the shape holds for the searches from a list of siblings |
| Day10.ReachedOwed | src/day10.rs:122-123 | a cell reached from the visited cells has a recorded predecessor |
| Day10.StartOnlyRoot | src/day10.rs:119-130 | apart from the start, every visited cell and every counted 9 has a recorded predecessor |
| Day10.TableEntry | src/day10.rs:122-123 | an index in the table belongs to a visited cell |
| Day10.TableEmpty | src/day10.rs:132-135 | an empty entry means no visited cell climbs there |
| Day10.TrailsEndAtStart | src/day10.rs:137-147 | every rebuilt trail runs from a reached 9 back to the start |
| Day10.SomeCompletion | src/day10.rs:87-112 | following predecessors from any path ends somewhere, so every path has a completion |
| Day10.HeadsCard | src/day10.rs:145-147 | taking first nodes does not make a set larger |
| Day10.ScoreAtMostRating | src/day10.rs:137-147 | every reached 9 starts at least one trail, so a trailhead's rating is never below its score |
| Day10.Part2 | src/day10.rs:156-159 | part two is defined exactly when the grid reads, and is the sum over the zero cells, in index order, of the number of distinct trails from each |
| Day10.TotalMono | src/day10.rs:151-159 | a sum of smaller scores is no larger |
| Day10.ScoresAtMostRatings | src/day10.rs:151-159 | part one never exceeds part two |
| Day11.CutDigits | src/day11.rs:19-20 | slicing the decimal string of `n` slices its digit sequence |
| Day11.HalvesParse | src/day11.rs:17-20 | the two halves are the values `parse` reads from the two halves of `format!("{}", n)`; the right half loses its leading zeros |
| Day11.HalfDigits | src/day11.rs:17-20 | the decimal string has the width of `n` and its halves are digit strings |
| Day11.HalvesSplit | src/day11.rs:17-21 | for an even-width number the left half has exactly half the digits, the right half is below 10 to that power, and the two recombine to `n` |
| Day11.SplitValue | src/day11.rs:19-20 | a digit sequence cut anywhere recombines from its two values, and the right value is below the power of ten of its length |
| Day11.SplitLeftWidth | src/day11.rs:19 | the left part of a canonical digit sequence keeps all its digits |
| Day11.Process | src/day11.rs:7-25 | one stone turns into at least one and at most 2^times stones |
| Day11.Rule | src/day11.rs:13-24 | one blink turns a stone into one or two stones |
| Day11.Blink | src/day11.rs:13-24 | blinking a row at least keeps and at most doubles its length |
| Day11.BlinkAppend | src/day11.rs:13-24 | stones change independently: blinking a row is blinking its parts |
| Day11.BlinksAppend | src/day11.rs:13-24 | the same over any number of blinks |
| Day11.ProcessRule | src/day11.rs:9-24 | `process` adds up the counts of what the rule turns a stone into |
| Day11.ProcessCountsStones | src/day11.rs:7-25 | the memoised count is the length of the row a literal simulation produces |
| Day11.Stones | src/day11.rs:28-30 | the input reads exactly when every space-separated word parses, one stone per word, each the word's value |
| Day11.Total | src/day11.rs:28-31 | the sum of the counts is at least the number of stones |
| Day11.TotalIsRowLength | src/day11.rs:28-31 | the per-stone counts add up to the length of the simulated row |
| Day11.NoStones | src/day11.rs:9-11 | an empty row stays empty |
| Day11.Solve | src/day11.rs:27-39 | the answer is defined exactly when the input reads, and is the length of the row after the given number of blinks |
| Day11.Part1 | src/day11.rs:27-32 | the length of the row after 25 blinks, defined exactly when every word parses |
| Day11.Part2 | src/day11.rs:34-39 | the length of the row after 75 blinks, defined exactly when every word parses |
| Day11.Part1Bounds | src/day11.rs:27-32 | each stone ends as at least one and at most 2^25 stones |
| Day11.TotalAtMost | src/day11.rs:27-31 | the sum is at most the number of stones times 2^times |
| Day12.FromBytes | src/day12.rs:15-24 | a grid reads exactly when the first line is non-empty and the cells fill whole rows; it has the first line's width and the text's bytes without newlines |
| Day12.DivExact | src/day12.rs:22 | when the cells fill whole rows, rows times width is the cell count |
| Day12.DivModUnique | src/day12.rs:26-32 | division by a positive number has one quotient and one remainder |
| Day12.CoordsRoundTrip | src/day12.rs:26-32 | `to_coords` and `to_index` undo each other inside the grid |
| Day12.Shift | src/day12.rs:38-115 | moving one row and one column moves the index by the width and by one |
| Day12.RowBounds | src/day12.rs:37-114 | an index lies on a grid row; there is a row above exactly when the index is at least the width, and one below exactly when the index one row down is a cell |
| Day12.Step | src/day12.rs:38-115 | a step that keeps row and column inside the grid lands on a cell, the one `to_index` computes |
| Day12.Col | src/day12.rs:27 | the column is below the width |
| Day12.ColMod | src/day12.rs:27 | the column by whole rows taken off is the remainder |
| Day12.InsideCoords | src/day12.rs:34-120 | the border tests of the eight helpers are the row and column tests |
| Day12.InsideStep | src/day12.rs:34-120 | a step that passes the border tests stays in the grid |
| Day12.Look | src/day12.rs:34-120 | each helper gives `None` exactly across a border and otherwise the index and plant one row and one column away |
| Day12.SameFrom | src/day12.rs:145-149 | the same-plant neighbours from a direction on are at most the directions left and hold the same plant |
| Day12.Same | src/day12.rs:140-149 | `neighs` has at most four plots, all in the grid and with the same plant |
| Day12.SameFromMembers | src/day12.rs:145-149 | a plot is listed exactly when some remaining direction finds it with the same plant |
| Day12.LookCoords | src/day12.rs:34-120 | what a helper finds sits one row and one column away |
| Day12.StepCoords | src/day12.rs:34-120 | a step inside the grid moves the coordinates by the row and column offsets |
| Day12.LookAt | src/day12.rs:34-120 | a plot one row and one column away is what the helper finds |
| Day12.SameIff | src/day12.rs:140-149 | `neighs` holds exactly the plots that share an edge and the plant |
| Day12.SameSound | src/day12.rs:140-149 | what `neighs` lists shares an edge with the plot |
| Day12.SameComplete | src/day12.rs:140-149 | every plot sharing an edge and the plant is listed |
| Day12.SameSymmetric | src/day12.rs:140-149 | sharing an edge and a plant goes both ways |
| Day12.StraightMidpoint | src/day12.rs:156-159 | a plot with two same-plant neighbours lies on a straight run exactly when it is their midpoint |
| Day12.StraightAsWrittenAgrees | src/day12.rs:156-159 | except on grids three plots wide, the written test is the straight test |
| Day12.Kept | src/day12.rs:145-148 | a neighbour is kept exactly when it holds the plant |
| Day12.SameFour | src/day12.rs:140-149 | `neighs` lists the up, down, left and right same-plant plots, in that order |
| Day12.StraightAsWrittenMisreads | src/day12.rs:156-159 | on the grid `AAB` / `ABB` the written test calls the bend at plot 0 straight |
| Day12.MisreadLosesCorner | src/day12.rs:153-201 | there plot 0 counts one corner where the corrected test counts two |
| Day12.MisreadTurns | src/day12.rs:153-201 | wherever the written test calls a bend straight, the plot counts one turn fewer |
| Day12.ExampleConcave | src/day12.rs:163-201 | plot 0 of `AAB` / `ABB` has one concave corner, towards plot 4 |
| Day12.CornerTurns | src/day12.rs:153-201 | a plot's turns are one for a bend plus its concave corners |
| Day12.CornerTablesAgree | src/day12.rs:153-201 | off grids three plots wide both straight tests give every plot the same corners |
| Day12.PricesAgree | src/day12.rs:239-257 | off grids three plots wide both straight tests give the same total price by sides |
| Day12.PricesAgreeStep | src/day12.rs:245-254 | one more plot keeps the two totals equal |
| Day12.MeasureAgree | src/day12.rs:210-214 | a region's sides agree under both tests off grids three plots wide |
| Day12.CellCorners | src/day12.rs:153-201 | one plot adds at most one lone plot, one end and five turns |
| Day12.CornerTable | src/day12.rs:153-201 | the table holds every plot's corner share, by index |
| Day12.FenceTable | src/day12.rs:151 | the table holds every plot's fence count, by index |
| Day12.NothingTallied | src/day12.rs:124-127 | an empty set of plots tallies nothing |
| Day12.TallyInsert | src/day12.rs:135-201 | visiting a plot adds its share to the corner tally |
| Day12.FenceInsert | src/day12.rs:151 | visiting a plot adds its fences to the perimeter |
| Day12.FenceBound | src/day12.rs:151 | the perimeter is at most four times the area |
| Day12.ReachSelf | src/day12.rs:128 | a plot is in its own region |
| Day12.ReachStep | src/day12.rs:203-207 | a same-plant neighbour of a plot in the region is in it |
| Day12.ReachTrans | src/day12.rs:130-207 | regions are closed under walking on |
| Day12.ReachSym | src/day12.rs:130-207 | plots share a region symmetrically |
| Day12.Reverse | src/day12.rs:130-207 | reversing a walk keeps its plots, back to front |
| Day12.ReverseWalk | src/day12.rs:130-207 | a walk read backwards is a walk |
| Day12.ReachInGrid | src/day12.rs:130-207 | a region holds only grid plots |
| Day12.ClosedHoldsRegion | src/day12.rs:130-207 | a set closed under same-plant steps that holds a plot holds its region |
| Day12.RegionOnePlant | src/day12.rs:130-207 | a region holds one kind of plant |
| Day12.Below | src/day12.rs:226 | the indices below a bound |
| Day12.Unvisited | src/day12.rs:203-207 | exactly the neighbours not visited yet are queued |
| Day12.PopKeeps | src/day12.rs:130-133 | popping an already visited plot keeps the fill's invariant |
| Day12.VisitStep | src/day12.rs:135-207 | visiting the head plot keeps the fill's invariant and leaves fewer plots unvisited |
| Day12.FillDone | src/day12.rs:130-208 | when the queue runs dry the fill holds exactly the region |
| Day12.Flood | src/day12.rs:122-217 | `flood` visits exactly the region, its area is the region's size, its perimeter the region's fences and its sides those of the region's corner tally |
| Day12.VisitHead | src/day12.rs:135-207 | one visit keeps the fill's invariant, keeps area, perimeter and corner tally in step with the visited set, and leaves fewer plots unvisited |
| Day12.PricesStep | src/day12.rs:226-234 | one more index adds a region's price exactly when it is the region's first plot |
| Day12.CoveredSkip | src/day12.rs:227-229 | a plot already seen starts no new region |
| Day12.CoveredGrow | src/day12.rs:231-232 | a plot not yet seen is the first of its region, which its fill covers |
| Day12.Fence | src/day12.rs:223-236 | the loop adds up the price of every region once, at its first plot |
| Day12.Part1 | src/day12.rs:220-237 | part one is defined exactly when the grid reads and is the total price by perimeter over all regions |
| Day12.Part2 | src/day12.rs:239-257 | part two is defined exactly when the grid reads and is the total price by sides with the straight test as written |
| Day12.Part2Intended | src/day12.rs:239-257 | the same total with the corrected straight test |
| Day12.LeaderExists | src/day12.rs:226-233 | every plot has a first plot of its region at or before it |
| Day12.LeaderUnique | src/day12.rs:226-233 | and only one |
| Day12.PerimeterBound | src/day12.rs:151 | a region's perimeter is at most four times its area |
| Day12.LoneRegion | src/day12.rs:151-154 | a plot with no same-plant neighbour is a region of its own, with four fences and four sides |
| Day12.LoneFences | src/day12.rs:151 | such a plot has four fences |
| Day12.LoneSides | src/day12.rs:154 | such a plot has four sides (with lines 210-211) |
| Day13.ExactQuot | src/day13.rs:64-66 | a multiple of a non-zero divisor divides with no remainder and the exact quotient, under Rust's truncating division |
| Day13.RemZero | src/day13.rs:64 | the truncating remainder is zero exactly when the divisor divides the number, and then the quotient times the divisor is the number |
| Day13.IsizeFromBytes | src/day13.rs:5-11 | a field of at most six decimal digits reads as its decimal value, below 10^6 |
| Day13.Unify | src/day13.rs:23-24 | splitting on `+` or `=` is splitting on `+` once every `=` reads as `+` |
| Day13.Field | src/day13.rs:23-24 | the field is defined exactly when the half has a second piece no longer than the power table |
| Day13.FieldRoundTrip | src/day13.rs:23-24 | a label, a `+` or `=`, and a number below 10^6 read back as that number |
| Day13.FieldPieces | src/day13.rs:23-24 | such a half splits into the label and the digits |
| Day13.PairRoundTrip | src/day13.rs:18-26 | a line `<label>+<x>,<label>+<y>` reads back as the pair |
| Day13.Tokens | src/day13.rs:60-74 | one machine's contribution is defined exactly when its determinant is non-zero (`alpha % det` panics on zero) |
| Day13.CramerSound | src/day13.rs:60-66 | exact quotients solve both button equations |
| Day13.Eliminate | src/day13.rs:28-47 | the algebra of Cramer's rule for one equation |
| Day13.MulCancel | src/day13.rs:28-47 | a non-zero factor cancels |
| Day13.CramerComplete | src/day13.rs:60-66 | with a non-zero determinant any winning pair of presses is Cramer's, with exact quotients |
| Day13.TokensWin | src/day13.rs:64-73 | a machine won by non-negative presses pays three tokens per A press and one per B press for exactly those presses |
| Day13.TokensNoWin | src/day13.rs:64-74 | a machine no non-negative presses can win adds nothing |
| Day13.TokensArePrize | src/day13.rs:60-74 | the per-machine arithmetic pays exactly the prize's price |
| Day13.TotalTokens | src/day13.rs:54-79 | the total is defined exactly when every machine's determinant is non-zero |
| Day13.TotalIsPrizeSum | src/day13.rs:54-81 | it is then the sum of the prizes' prices |
| Day13.Solve | src/day13.rs:49-82 | `solve` is defined exactly when the machines read and every determinant is non-zero, and is the sum of the prizes' prices with the prizes moved by the offset |
| Day13.Part1 | src/day13.rs:84-86 | the sum of the prizes' prices where the input puts them |
| Day13.Part2 | src/day13.rs:16 | the sum of the prizes' prices ten trillion further along both axes (with lines 88-90) |
| Day14.Spaced | src/day14.rs:18 | `=` and `,` read as spaces and nothing else changes, so splitting on spaces is splitting on all three |
| Day14.FromLine | src/day14.rs:17-28 | a line reads only when it has the six fields the four `nth`/`next` calls take |
| Day14.FromFields | src/day14.rs:19-22 | the fields read only when there are at least six |
| Day14.FromLineRoundTrip | src/day14.rs:17-28 | reading the line `p=x,y v=u,w` of a robot gives the robot back |
| Day14.FieldsRead | src/day14.rs:19-22 | four fields that parse as the robot's numbers read as the robot |
| Day14.IntStringPlain | src/day14.rs:18 | a number's text has no separator in it |
| Day14.SpacedPieces | src/day14.rs:18 | a robot's line splits into its six fields |
| Day14.JoinSix | src/day14.rs:18 | six fields joined with spaces |
| Day14.ModUnique | src/day14.rs:31-32 | `rem_euclid` gives the one value in `0..abs(n)` that differs from the number by a multiple of `n` |
| Day14.SmallMultiple | src/day14.rs:31-32 | the only multiple of a positive `n` strictly between `-n` and `n` is 0 |
| Day14.ModShift | src/day14.rs:31-32 | adding a multiple of `n` keeps the remainder |
| Day14.ModCongruent | src/day14.rs:31-32 | the remainder is congruent to the number |
| Day14.Advance | src/day14.rs:30-35 | moving keeps the velocity and lands on the floor, every coordinate in `0..abs(bound)` |
| Day14.AdvanceCongruent | src/day14.rs:30-35 | on each axis the robot lands on the one tile that differs from start plus velocity times seconds by whole floor widths |
| Day14.WrapCompose | src/day14.rs:31-32 | on one axis, moving `a` then `b` seconds is moving `a + b` |
| Day14.AdvanceCompose | src/day14.rs:30-35 | moving `a` seconds then `b` is moving `a + b`, which is why `part2` may move one second at a time |
| Day14.AdvancePeriodic | src/day14.rs:30-35 | a robot is back where it was after width times height seconds |
| Day14.PeriodicAxis | src/day14.rs:31-32 | one axis of that |
| Day14.Regroup | src/day14.rs:31-32 | regrouping the moved coordinate |
| Day14.Quadrant | src/day14.rs:37-58 | no quadrant exactly on the middle column or row; otherwise quadrants 2 and 3 are right of the middle and the odd ones below it |
| Day14.QuadrantMirror | src/day14.rs:37-58 | on a floor of odd width the mirror image across the middle column lies in the quadrant across |
| Day14.InQuadrant | src/day14.rs:68-70 | a quadrant holds at most all the robots |
| Day14.OnMiddle | src/day14.rs:68-70 | the middle lines hold at most all the robots |
| Day14.QuadrantsCover | src/day14.rs:68-70 | every robot is counted once: in one quadrant or on the middle |
| Day14.AdvanceAll | src/day14.rs:83-86 | moving the row keeps its length |
| Day14.AdvanceAllAt | src/day14.rs:83-86 | each robot of the row moves on its own |
| Day14.AdvanceAllCompose | src/day14.rs:79-86 | moving the row `a` then `b` seconds is moving it `a + b` |
| Day14.AdvanceAllPeriodic | src/day14.rs:79-86 | the whole row repeats every width times height seconds |
| Day14.ReadLines | src/day14.rs:76 | one reading per line |
| Day14.ReadLinesAt | src/day14.rs:76 | each line is read on its own |
| Day14.Robots | src/day14.rs:76 | one robot per line |
| Day14.RobotsRead | src/day14.rs:63-76 | the robots read exactly when every line reads, each from its own line |
| Day14.Part1WithBounds | src/day14.rs:61-73 | defined exactly when every line reads, and then the product of the four quadrant counts after 100 seconds |
| Day14.CountQuadrants | src/day14.rs:62-71 | the loop's four counts are the robots in each quadrant after 100 seconds |
| Day14.CountStep | src/day14.rs:68-70 | one more robot adds one to its quadrant's count, if it has one |
| Day14.AdvanceAllSnoc | src/day14.rs:63-66 | moving one more robot moves the row one robot longer |
| Day14.Part1 | src/day14.rs:94-96 | the same on the 101 by 103 floor |
| Day14.Tiles | src/day14.rs:82-86 | the set holds exactly the tiles the robots stand on |
| Day14.ApartPairwise | src/day14.rs:88 | no two robots share a tile |
| Day14.TilesCount | src/day14.rs:88 | there are never more tiles than robots, and as many exactly when no two robots share a tile |
| Day14.LaterIsAdvance | src/day14.rs:79-86 | moving second by second is moving all at once |
| Day14.Part2WithBounds | src/day14.rs:75-92 | the answer is the first second at which no two robots share a tile; without an answer, none of the seconds looked at separates them |
| Day14.Part2Exhausted | src/day14.rs:79-91 | if none of the first width times height seconds separates the robots, none ever does and the loop never ends |
| Day14.Part2 | src/day14.rs:98-100 | the same on the 101 by 103 floor |
| Day15.FromByte | src/day15.rs:14-22 | a move byte reads exactly when it is one of `<`, `>`, `^`, `v`; any other byte panics |
| Day15.Dir | src/day15.rs:24-31 | every move is a unit step |
| Day15.DirUnit | src/day15.rs:24-31 | each move steps along exactly one axis, and no two moves share a step |
| Day15.Ray | src/day15.rs:116-123 | the cell `k` steps along a direction is `pos + k * dir` |
| Day15.Index | src/day15.rs:108-114 | `row * cols + col` is not negative for non-negative coordinates |
| Day15.Get | src/day15.rs:108-110 | `get` is defined exactly at non-negative coordinates whose index is in the cell vector, and returns the cell there |
| Day15.IndexStep | src/day15.rs:117-126 | one step moves the index by a fixed stride |
| Day15.NextEmptyPos | src/day15.rs:116-123 | an empty cell it reports is empty |
| Day15.NextEmptyPosRun | src/day15.rs:116-123 | the scan stops at the first cell past a run of boxes: `Some` exactly when that cell is empty, `None` when it is a wall |
| Day15.ShiftRun | src/day15.rs:121 | a run of boxes seen from one step further back is one box longer |
| Day15.NextEmptyPosBeyond | src/day15.rs:116-123 | the free cell lies strictly further along the scan |
| Day15.StrideNonZero | src/day15.rs:117 | a step always moves the index |
| Day15.MoveRobot | src/day15.rs:125-140 | a move keeps the grid's shape and leaves the robot in place or one step on |
| Day15.MoveBlocked | src/day15.rs:129-133 | a wall ahead, or a run of boxes with a wall behind it, changes neither the robot nor any cell |
| Day15.MoveIntoEmpty | src/day15.rs:131 | into an empty cell only the robot moves, by one step |
| Day15.MovePush | src/day15.rs:132-137 | a push moves the robot one step, empties the cell it enters, puts a box on the free cell and changes no other cell |
| Day15.MoveKeeps | src/day15.rs:125-140 | a move keeps the number of boxes and every wall |
| Day15.BoxJump | src/day15.rs:135-136 | emptying a box's cell and filling an empty one keeps the box count |
| Day15.MoveStaysOnEmpty | src/day15.rs:125-140 | a robot on an empty cell is on an empty cell after any move |
| Day15.MapLines | src/day15.rs:69-72 | the map is a prefix of the lines, none of them empty |
| Day15.LinesSplit | src/day15.rs:69-72 | the map, the empty line and the move lines make up the whole text (with lines 239-242) |
| Day15.CellOf | src/day15.rs:75-84 | a map byte reads exactly when it is one of `#`, `O`, `.`, `@` |
| Day15.FromBytes | src/day15.rs:64-91 | a map that reads is a valid grid |
| Day15.FromBytesRobot | src/day15.rs:79-82 | on a rectangular map with a robot, the robot stands on the empty cell its `@` became |
| Day15.RobotCell | src/day15.rs:79-82 | the last `@` of a rectangular map reads as an empty cell |
| Day15.FirstLineIsFirstRow | src/day15.rs:88 | the width is the first map row's, or 0 when there is none |
| Day15.Run | src/day15.rs:244-246 | running the moves keeps the grid's shape |
| Day15.RunKeeps | src/day15.rs:244-246 | the whole run keeps the boxes, the walls, and the robot on an empty cell |
| Day15.GpsCoords | src/day15.rs:97-102 | a box at row `r` and column `c` scores `100 * r + c` |
| Day15.DivModOf | src/day15.rs:99-100 | row and column come back from the index |
| Day15.ScoreUpdate | src/day15.rs:93-106 | changing one cell changes the score by that cell's box, if any |
| Day15.PushScore | src/day15.rs:93-106 | a push takes the first box's coordinate out of the score and puts the free cell's in (with lines 132-137) |
| Day15.Part1 | src/day15.rs:236-248 | defined exactly when the map and moves read and no move panics, and then the score of the grid after all the moves |
| Day16.Offset | src/day16.rs:87-92 | every facing steps one cell along one axis |
| Day16.Turns | src/day16.rs:17-24 | `Dir::next` gives two different facings |
| Day16.TurnsArePerpendicular | src/day16.rs:17-24 | the two facings are exactly those at right angles to the input, never the input or its opposite |
| Day16.DirIndex | src/day16.rs:123-125 | `Dir as usize` is below 4 |
| Day16.Next | src/day16.rs:86-99 | the step is taken exactly when the cell ahead is empty, and lands there; a wall blocks it; off the grid `get` panics |
| Day16.Edges | src/day16.rs:127-150 | defined exactly where looking ahead does not panic; three edges when the cell ahead is empty, else two |
| Day16.EdgesAreLegal | src/day16.rs:127-150 | the edges are exactly the two quarter turns at 1000 in place and the step forward at 1 onto an empty cell |
| Day16.DistIndexSlots | src/day16.rs:123-125 | a state on a cell has a slot below `4 * cells.len()`, and states with columns in the grid share a slot only when equal |
| Day16.SameRow | src/day16.rs:83 | row-major coordinates are unique (with line 124) |
| Day16.OnGrid | src/day16.rs:78-84 | a position `get` accepts is a state of the search |
| Day16.GraphClosed | src/day16.rs:127-150 | turns and steps keep the search among the grid's states, at most 1000 a move |
| Day16.Dijkstra | src/day16.rs:152-195 | a found cost is the cost of a walk to the end and no walk to the end is cheaper; `None` only when no walk reaches the end |
| Day16.Best | src/day16.rs:202-207 | the minimum of the scores found, `None` only when there are none |
| Day16.SearchStep | src/day16.rs:202-205 | one more search keeps every score reached and covers the walks arriving in that facing |
| Day16.CoversAll | src/day16.rs:202-206 | covering the four facings covers every walk to the end cell |
| Day16.Part1 | src/day16.rs:197-208 | from the start facing east, the lowest cost of a walk to the end cell in any facing; when no walk gets there the final `unwrap` panics |
| Maze.Index | src/day16.rs:82-84 | `row * cols + col` is not negative for non-negative coordinates |
| Maze.Get | src/day16.rs:78-80 | defined exactly at non-negative coordinates whose index is in the cell vector, and returns the cell there |
| Maze.CellOf | src/day16.rs:50-61 | a maze byte reads exactly when it is `#`, `.`, `S` or `E`, and only `#` is a wall |
| Maze.FromBytes | src/day16.rs:43-76 | a maze reads exactly when the first line is non-empty and every byte reads; it has the first line's width and as many rows as the cells fill whole |
| Maze.WholeRows | src/day16.rs:67 | the number of whole rows `n` cells fill |
| Maze.MarkersOnEmpty | src/day16.rs:53-60 | on a rectangular maze the start and the end stand on empty cells |
| Maze.MarkerCell | src/day16.rs:53-60 | the last `S` or `E` of a rectangular maze reads as an empty cell |
| ShortestPath.WalkSnoc | src/day16.rs:178-190 | extending a walk by an edge out of its end adds the edge's cost |
| ShortestPath.Bound | src/day16.rs:167-192 | a walk cheaper than every waiting entry ends at an expanded state whose recorded cost is no more than the walk's |
| ShortestPath.Exhausted | src/day16.rs:167-194 | once the heap is empty every walk from the start ends at an expanded state |
| ShortestPath.Pick | src/day16.rs:167 | some member of a non-empty set |
| ShortestPath.TotalMono | src/day16.rs:167-192 | lower potentials give a lower total, strictly lower when one drops |
| ShortestPath.MinIndex | src/day16.rs:108-114 | the heap pops an entry of least cost (with line 167) |
| ShortestPath.Remove | src/day16.rs:167 | popping removes exactly that entry |
| ShortestPath.Relax | src/day16.rs:178-191 | every edge that offers a cheaper way to its target records it and pushes the target; recorded costs only go down |
| ShortestPath.RelaxEdge | src/day16.rs:179-190 | one edge's offer is taken up when cheaper, leaving its target at most the offered cost |
| ShortestPath.ProgressOffer | src/day16.rs:186-190 | taking up a cheaper offer keeps the loop's promises |
| ShortestPath.ProgressSkip | src/day16.rs:186 | passing over an offer that is not cheaper keeps them |
| ShortestPath.SoundRecord | src/day16.rs:188 | every recorded cost is the cost of a walk to its state |
| ShortestPath.OfferRelaxed | src/day16.rs:186-189 | recording an offer relaxes its edge and keeps the others relaxed |
| ShortestPath.RelaxedSnoc | src/day16.rs:186 | an edge that offers nothing cheaper is already relaxed |
| ShortestPath.OfferTables | src/day16.rs:186-189 | recording and pushing an offer keeps the bookkeeping about the tables |
| ShortestPath.Shortest | src/day16.rs:152-195 | `dijkstra`: a found cost is reached by a walk and no walk to the goal is cheaper; unreachable only when no walk gets there |
| ShortestPath.Visit | src/day16.rs:167-192 | one turn stops at the goal with its cheapest cost, drops a stale entry, or expands a state, keeping the invariant |
| ShortestPath.FoundGoal | src/day16.rs:168-170 | popping the goal returns the cost of a cheapest walk to it |
| ShortestPath.SkipKeeps | src/day16.rs:174-176 | a stale entry is dropped and nothing else changes |
| ShortestPath.PopFloor | src/day16.rs:167 | popping in cost order raises the floor without raising any potential |
| ShortestPath.ExpandKeeps | src/day16.rs:178-191 | expanding a popped state keeps every invariant |
| ShortestPath.ExpandMeasure | src/day16.rs:178-191 | expanding lowers the termination measure |
| ShortestPath.WalkInUniverse | src/day16.rs:127-150 | a walk from inside a closed set of states never leaves it |
| Day17.UsizeFromBytes | src/day17.rs:5-13 | a field of at most ten decimal digits reads as its decimal value, below 10^10 |
| Day17.Combo | src/day17.rs:15-23 | operands 0 to 3 stand for themselves, 4 to 6 for registers a, b and c, and 7 panics |
| Day17.ShiftA | src/day17.rs:41 | `a >> k` is a divided by 2^k rounded down, and panics for a shift of 64 or more (with lines 61-62, 119, 138-139) |
| Day17.FloorDiv | src/day17.rs:119 | division rounds down |
| Day17.Step | src/day17.rs:114-143 | one instruction faults exactly where the source panics; only `out` prints, and what it prints is below 8; `bst` leaves b below 8; only `adv` changes a, and only downwards |
| Day17.Execute | src/day17.rs:111-144 | the loop prints nothing once the instruction pointer is past the end, and every value it prints is below 8 |
| Day17.ExecuteFuel | src/day17.rs:114 | more fuel does not change a finished run |
| Day17.RunOnce | src/day17.rs:29-70 | `run_once` returns a value below 8 and an a no larger than it started; it panics on an empty program |
| Day17.FirstOut | src/day17.rs:36-69 | the first output is below 8 and a never grows; past the end it panics |
| Day17.FirstOutIsFirst | src/day17.rs:29-70 | `run_once` returns exactly the first value the interpreter loop prints, and panics exactly when the loop prints nothing (with lines 111-144) |
| Day17.Candidate | src/day17.rs:73-76 | `(a << 3) ^ i` for `i < 8` is `8a + i` |
| Day17.ShiftThree | src/day17.rs:73-76 | the numbers whose shift right by three is `a` are exactly `8a` to `8a + 7` |
| Day17.Candidates | src/day17.rs:75-78 | at most one kept candidate per value of `i` tried |
| Day17.CandidatesCorrect | src/day17.rs:75-78 | the kept candidates are exactly those among the ones tried whose first output is `x`, in increasing order |
| Day17.Next | src/day17.rs:72-79 | `next` returns, in increasing order, exactly the numbers shifting right by three to `a` whose first output is `x` |
| Day17.Target | src/day17.rs:86 | the target at a depth is a value of the program |
| Day17.Dfs | src/day17.rs:81-84 | at full depth the search returns the number reached |
| Day17.FirstFound | src/day17.rs:88-91 | with no candidates nothing is found |
| Day17.ExtendsRange | src/day17.rs:81-92 | what is reachable from `a` with `m` levels to go lies in `[a * 8^m, (a + 1) * 8^m)` |
| Day17.ScaleRange | src/day17.rs:73-76 | the blocks of the next level nest inside this one's |
| Day17.DfsCorrect | src/day17.rs:81-92 | what `dfs` returns is reachable and the least reachable number; when it finds nothing, nothing is reachable |
| Day17.FirstFoundCorrect | src/day17.rs:88-91 | over increasing candidates the first success is the least number reachable from any of them |
| Day17.HeadIsLeast | src/day17.rs:88-91 | the least number reached from the first candidate is below anything the others reach |
| Day17.BelowNextBlock | src/day17.rs:88-91 | a number in an earlier block is below one in a later block |
| Day17.Search | src/day17.rs:164 | the search from 0 answers exactly when `dfs` runs to the end and some value of a makes the program print itself, as the search defines it, and then with the least one; without one the `unwrap` panics |
| Day17.Codes | src/day17.rs:107-108 | reading the program is defined exactly when every piece is non-empty and does not start below '0', and gives each piece's first byte minus '0' (with lines 160-161) |
| Day17.ProgramOf | src/day17.rs:101-109 | the program reads exactly when the line has a second space-separated field whose pieces all read |
| Day17.RegisterOf | src/day17.rs:97-99 | a register reads when the line has a third field of at most ten bytes, and is its decimal value |
| Day17.OutputText | src/day17.rs:146-149 | the outputs print as digits at the even positions with commas between |
| Day17.DigitPieces | src/day17.rs:146-148 | one single-digit piece per output |
| Day17.DigitsLayout | src/day17.rs:146-149 | joining the pieces puts the digits at the even positions |
| Day17.OutputRoundTrip | src/day17.rs:101-109 | printed outputs read back as the outputs through the program parser (with lines 146-149) |
| Day17.CodesOfDigits | src/day17.rs:107-108 | single-digit pieces read back as their digits |
| Day17.Print | src/day17.rs:146-149 | the printed text has only digits 0 to 7 and commas, and reads back as the run's outputs |
| Day17.OctalText | src/day17.rs:146-149 | outputs below 8 print as the digits `0` to `7` and commas |
| Day17.Part1 | src/day17.rs:94-150 | defined exactly when the registers and program read and the run ends without a panic; the text printed reads back as the values the run printed |
| Day17.Part2 | src/day17.rs:152-165 | a missing fifth line or an unreadable program panics; otherwise there is an answer exactly when `dfs` runs to the end and some number is reachable, and it is the least number reachable by the search from 0 |
| Day17.HalverRound | src/day17.rs:111-144 | one round of `0,1,5,4,3,0` halves a and prints the new low three bits |
| Day17.HalverLast | src/day17.rs:111-144 | from a = 1 it prints 0 and stops |
| Day17.HalverRun | src/day17.rs:111-144 | with three steps of fuel per round the program prints the halvings of a |
| Day17.EmitHalving | src/day17.rs:136 | printing one halving in front of the rest prints them all |
| Day17.HalverExample | src/day17.rs:111-144 | from a = 729 the program prints 4,6,3,5,6,3,5,2,1,0 |
| Day17.HalvingsOf729 | src/day17.rs:111-144 | the halvings of 729 |
| Day17.PrintExample | src/day17.rs:146-149 | those outputs print as `4,6,3,5,6,3,5,2,1,0` |
| Day17.DigitAt | src/day17.rs:146-149 | each digit of that text |
| Day18.UsizeFromBytes | src/day18.rs:8-14 | a field of at most three decimal digits reads as its decimal value, below 1000 |
| Day18.Around | src/day18.rs:16-48 | the neighbours `next` tries are exactly the in-grid positions one step away |
| Day18.Index | src/day18.rs:21 | `row * grid_size + col` is a slot of the table |
| Day18.Next | src/day18.rs:16-48 | `next` returns exactly the in-grid positions one step away whose flag is 0 |
| Day18.Clear | src/day18.rs:21-23 | the kept positions are exactly those whose flag is 0 |
| Day18.Next2 | src/day18.rs:50-87 | `next2` returns exactly the in-grid positions one step away whose entry lets them stay open after byte `num` |
| Day18.Later | src/day18.rs:60-62 | the kept positions are exactly those still open after byte `num` |
| Day18.Moves | src/day18.rs:129-133 | every move costs one step |
| Day18.GraphOnGrid | src/day18.rs:16-48 | the part-one moves are unit steps between grid cells |
| Day18.Graph2OnGrid | src/day18.rs:50-87 | so are the part-two moves |
| Day18.GridClosed | src/day18.rs:110-143 | such moves keep the search on the grid, at cost 1 each |
| Day18.GridWalk | src/day18.rs:129-133 | a walk's cost is its length and it never leaves the grid |
| Day18.Search | src/day18.rs:110-178 | `dijkstra` and `dijkstra2` return the fewest steps from (0, 0) to the far corner when the corners are connected, `None` exactly when they are not, and panic on an empty grid |
| Day18.ByteOf | src/day18.rs:187-208 | a line reads exactly when it has two fields of at most three bytes |
| Day18.ByteRoundTrip | src/day18.rs:187-189 | a byte below 1000 written `col,row` reads back as itself (with line 248) |
| Day18.FieldRoundTrip | src/day18.rs:10-14 | a coordinate below 1000 is at most three digits with no comma, and reads back |
| Day18.Bytes | src/day18.rs:183-191 | the lines read exactly when every line does, one byte per line |
| Day18.SlotIsIndex | src/day18.rs:190 | a byte at (col, row) inside the grid lands on cell (row, col) |
| Day18.Flags | src/day18.rs:181-192 | the table is defined exactly when every byte lands inside it |
| Day18.FlagsMark | src/day18.rs:192 | a slot's flag is 1 exactly when one of the bytes lands on it |
| Day18.Part1WithParameters | src/day18.rs:180-195 | defined exactly when the first `steps` lines read, land in the grid and leave the corners connected, and then the fewest steps between the corners |
| Day18.Part1 | src/day18.rs:197-199 | defined exactly when the first 1024 lines read, land in the 71 by 71 grid and leave the corners connected, and then the fewest steps between the corners |
| Day18.TableAsWritten | src/day18.rs:202-216 | the table as the source fills it is defined exactly when every byte lands inside it |
| Day18.Lift | src/day18.rs:60 | every entry of the written table is kept |
| Day18.AsWrittenBlocksFree | src/day18.rs:211-213 | as written, a cell no byte ever hits holds 0, so `next2` never enters it (with line 60) |
| Day18.AsWrittenCounterexample | src/day18.rs:211-213 | on a 2 by 2 grid with the one byte `0,1`, after byte 1 the written table lets no step out of the start while the corrected table opens (0, 1) (with lines 58-87) |
| Day18.FirstFall | src/day18.rs:211-213 | the corrected table is defined exactly when every byte lands inside it |
| Day18.FirstFallIsFirst | src/day18.rs:211-213 | a cell's corrected entry names the first byte landing there, or none |
| Day18.OpenIffClear | src/day18.rs:60 | a cell is open after byte `num` exactly when none of the bytes up to `num` lands on it |
| Day18.FewerBytesWalk | src/day18.rs:228-241 | a walk after a later byte is a walk after any earlier one |
| Day18.ConnectedEarlier | src/day18.rs:228-241 | connected after a later byte means connected after any earlier one, which is what makes the bisection sound |
| Day18.Probe | src/day18.rs:231 | `dijkstra2` finds a way exactly when the corners are still connected |
| Day18.SettledUnique | src/day18.rs:226-241 | since connection is only ever lost as bytes fall, at most one number satisfies what the bisection ends on |
| Day18.AnswersUnique | src/day18.rs:226-243 | the bisection has at most one answer |
| Day18.Bisect | src/day18.rs:218-243 | the loop ends on the one number the bisection settles on: the last slot or a number cutting the corners apart, with every number from 1 below it leaving them connected; `None` exactly on an empty grid or when there is no byte with that number |
| Day18.BisectAnswers | src/day18.rs:218-243 | the bisection answers exactly when its table has an answer, and then with that answer |
| Day18.Part2WithParameters | src/day18.rs:201-244 | on the table as written, an answer exactly when every line reads as a byte inside the grid and the settled number names a byte, and then that byte |
| Day18.Part2WithParametersIntended | src/day18.rs:201-244 | the same bisection on the corrected table, with the same condition for an answer |
| Day18.Part2 | src/day18.rs:246-249 | on the 71 by 71 grid, an answer exactly when `part2_with_parameters` has one, and then that byte written `col,row` |
| Day18.Part2Intended | src/day18.rs:246-249 | the same on the corrected table |
| Day19.IsSubslice | src/day19.rs:10-20 | `is_subslice` holds exactly when the needle is a prefix of the haystack |
| Day19.AgreeFrom | src/day19.rs:14-18 | the loop from `i` on holds exactly when the rest of the needle matches the haystack there |
| Day19.IsSubsliceExamples | src/day19.rs:139-147 | the seven unit tests of `is_subslice` |
| Day19.ArrangementCons | src/day19.rs:39-42 | an arrangement starting with a pattern is that pattern as a prefix followed by an arrangement of the rest |
| Day19.Build | src/day19.rs:27-46 | an empty design is built, and with no empty pattern the search always ends |
| Day19.AnyFrom | src/day19.rs:39-42 | with no empty pattern the `any` over the remaining patterns ends |
| Day19.BuildCorrect | src/day19.rs:27-46 | whenever `can_build` answers, it answers whether the design is a concatenation of patterns |
| Day19.AnyFromCorrect | src/day19.rs:39-42 | the `any` from pattern `i` holds exactly when some arrangement starts with a pattern numbered `i` or later |
| Day19.HowMany | src/day19.rs:70-90 | 1 for an empty design; it diverges exactly when a non-empty design meets an empty pattern |
| Day19.SumFrom | src/day19.rs:82-86 | the sum from pattern `i` ends when no pattern is empty and diverges at an empty one |
| Day19.Prepend | src/day19.rs:82-86 | each arrangement of the rest gains the pattern at its front |
| Day19.HowManyCounts | src/day19.rs:70-90 | `can_build_how_many` counts exactly the arrangements of the design |
| Day19.SumFromCounts | src/day19.rs:82-86 | the sum from pattern `i` counts the arrangements starting with a pattern numbered `i` or later |
| Day19.ArrangementsListed | src/day19.rs:70-90 | the list of arrangements holds every arrangement and nothing else |
| Day19.ArrangementsFromListed | src/day19.rs:82-86 | the same for arrangements starting from pattern `i` on |
| Day19.ArrangementsDistinct | src/day19.rs:70-90 | no arrangement is listed twice |
| Day19.ArrangementsFromDistinct | src/day19.rs:82-86 | the same from pattern `i` on |
| Day19.BuildIffHowMany | src/day19.rs:27-46 | `can_build` holds exactly when `can_build_how_many` is positive (with lines 70-90) |
| Day19.Patterns | src/day19.rs:51-56 | the patterns read exactly when no comma-separated piece is empty, each with one leading space dropped |
| Day19.Designs | src/day19.rs:58-61 | the designs are the lines after the second |
| Day19.CountBuildable | src/day19.rs:60-65 | the count is defined exactly when every search ends, and is at most the number of designs |
| Day19.CountBuildableCorrect | src/day19.rs:60-65 | it is the number of designs that can be built |
| Day19.Part1 | src/day19.rs:48-68 | the number of designs that are concatenations of patterns; always defined when the patterns read and none is empty |
| Day19.TotalWays | src/day19.rs:104-107 | the sum is defined exactly when every count is |
| Day19.TotalWaysCorrect | src/day19.rs:104-107 | with no empty pattern it is the number of arrangements of all the designs |
| Day19.Part2 | src/day19.rs:92-110 | with no empty pattern, the number of arrangements of all the designs; defined only when every non-empty design avoids an empty pattern |
| Day20.InsideIndexed | src/day20.rs:58-69 | on a grid of the shape `from_bytes` gives, every position inside the rectangle can be indexed |
| Day20.Neighbours | src/day20.rs:88-93 | the four candidates are exactly the positions one step away |
| Day20.KeepOpen | src/day20.rs:95-98 | the filters keep exactly the candidates inside the rectangle on empty cells |
| Day20.Next | src/day20.rs:87-100 | `next` gives exactly the open positions one step away |
| Day20.NeighbourIndex | src/day20.rs:67-69 | neighbouring positions have different cell indices |
| Day20.Walled | src/day20.rs:62-65 | `set_wall` makes that cell a wall and changes no other |
| Day20.Advance | src/day20.rs:80-83 | a round goes on exactly when there is one way on; the grid it leaves has the old position walled off, keeps every other open cell, and has fewer empty cells |
| Day20.WalledFuel | src/day20.rs:82-83 | walling off the position left keeps the next one open and uses up one unit of the termination measure |
| Day20.WalledOpen | src/day20.rs:62-65 | after `set_wall` the open cells are those open before, less the walled one |
| Day20.Trace | src/day20.rs:71-85 | `trace_path` returns a track from the start to the end whose steps go to neighbours, that never repeats a position, and whose cells after the first are open |
| Day20.Extend | src/day20.rs:76-83 | putting the position left in front of the rest of the track keeps it adjacent, without repeats and open |
| Day20.PrependOpen | src/day20.rs:82 | the position left is not on the rest of the track |
| Day20.PrependDistinct | src/day20.rs:76 | a new first position not on a track without repeats keeps it without repeats |
| Day20.PrependAdjacent | src/day20.rs:76-83 | a new first position next to the old first keeps the steps adjacent |
| Day20.TraceIsCorridor | src/day20.rs:71-85 | every open neighbour of a track position but the last is the next position or one already passed |
| Day20.OnlyWayOn | src/day20.rs:80-83 | the first step of the track is the only open neighbour of the start |
| Day20.TraceStep | src/day20.rs:75-84 | the track is the end alone at the end, and otherwise the position followed by the track from the only way on |
| Day20.LaterOnTrack | src/day20.rs:76 | index `i` of the track is index `i - 1` of the rest of it |
| Day20.SameIndexSame | src/day20.rs:67-69 | inside the rectangle different positions have different cell indices |
| Day20.RowsApart | src/day20.rs:67-69 | a position in an earlier row has the smaller cell index |
| Day20.Distances | src/day20.rs:106-111 | every track position is a key, and each key maps to an index of the track that holds it |
| Day20.DistancesExact | src/day20.rs:106-111 | on a track without repeats each position maps to its own index |
| Day20.Row | src/day20.rs:118-120 | the inner loop visits exactly the columns of its range, each once |
| Day20.Diamond | src/day20.rs:116-120 | the two inner loops from row offset `a` visit exactly the offsets within distance `l`, each once |
| Day20.Offsets | src/day20.rs:116-120 | the inner loops visit exactly the offsets within Manhattan distance `l`, each once |
| Day20.DistinctAppend | src/day20.rs:116-120 | rows with no common offset joined together keep every offset once |
| Day20.Saved | src/day20.rs:121-132 | every saving the loops record is positive |
| Day20.LandingFrom | src/day20.rs:124-131 | an offset that lands on a later track index records that index |
| Day20.LandingOrigin | src/day20.rs:124-131 | every recorded index comes from an offset that lands there |
| Day20.SavingsOf | src/day20.rs:130 | one saving per end |
| Day20.SavedAreSavings | src/day20.rs:128-130 | the recorded savings are `d1 - d0 - cheat_dist` for the indices landed on |
| Day20.LandingsDistinct | src/day20.rs:124-131 | different offsets land on different track indices |
| Day20.CheatEnds | src/day20.rs:121-133 | exactly the ends, from `d1` on, of cheats from `d0`, each once |
| Day20.CheatsSave | src/day20.rs:129-130 | every cheat saves at least one step |
| Day20.SavingsPositive | src/day20.rs:129-130 | the savings of cheats are all positive |
| Day20.SavingsCount | src/day20.rs:130-131 | how often a saving occurs depends only on which ends are listed |
| Day20.SameEndsSameSavings | src/day20.rs:130-131 | the same ends in any order give the same savings in some order |
| Day20.CheatLands | src/day20.rs:116-131 | every cheat from `d0` is found by the offset leading to its end |
| Day20.LandingIsCheat | src/day20.rs:121-131 | everything the loops find is a cheat from `d0` |
| Day20.LoopsFindCheats | src/day20.rs:116-135 | for each track index the loops record exactly the savings of the cheats from it, each once |
| Day20.AllSaved | src/day20.rs:115-136 | every saving recorded is positive |
| Day20.AllSavedAreCheats | src/day20.rs:115-136 | the outer loop records the saving of every cheat on the track, each once and nothing else |
| Day20.Tally | src/day20.rs:131 | each saving is a key exactly when it occurs, and its count is the number of its occurrences |
| Day20.Track | src/day20.rs:104-105 | the track read from the input never repeats a position and moves one step at a time |
| Day20.Solve | src/day20.rs:103-139 | defined exactly when the track is, and every key is a positive saving |
| Day20.SolveCounts | src/day20.rs:103-139 | each key of the histogram counts exactly the cheats that save that much, and a saving no cheat gives is absent |
| Day20.AtLeastInAdd | src/day20.rs:143-147 | adding one key adds its count when it passes the threshold |
| Day20.AtLeastInNone | src/day20.rs:143-147 | no keys count nothing |
| Day20.AtLeastInAll | src/day20.rs:143-147 | counting over keys that cover every value counts every value at or over the threshold |
| Day20.AtLeastMultiset | src/day20.rs:143-147 | the count over the threshold depends only on the multiset of values |
| Day20.DropMatching | src/day20.rs:143-147 | dropping the same value from two lists with equal multisets drops the same count |
| Day20.FindIn | src/day20.rs:143-147 | a value in a list has an index |
| Day20.DropOne | src/day20.rs:143-147 | taking out one element removes it from the multiset and from the count |
| Day20.DropOneMultiset | src/day20.rs:143-147 | the multiset without one occurrence |
| Day20.AtLeastAppend | src/day20.rs:143-147 | the count over two lists joined is the sum of their counts |
| Day20.CountFrom | src/day20.rs:143-147 | summing the histogram counts of keys at least `t`, in any key order, counts the values at least `t` |
| Day20.CountKey | src/day20.rs:145-147 | one more key adds its count when it is at least `t` |
| Day20.Part | src/day20.rs:141-157 | defined exactly when the track is, and then the number of cheats of length at most `l` saving at least 100 |
| Day20.CountWorthwhile | src/day20.rs:143-147 | the histogram's count for savings of at least 100 is the number of cheats saving that much |
| Day20.Part1 | src/day20.rs:141-148 | the number of cheats of up to 2 steps saving at least 100 |
| Day20.Part2 | src/day20.rs:150-157 | the number of cheats of up to 20 steps saving at least 100 |
| Day20.OnlyMember | src/day20.rs:81-83 | the single element of a one-element list is the one found in it |
| Day21.CoordsOnPad | src/day21.rs:39-69 | every key sits on its keypad off the forbidden corner, and no two keys of one keypad share a place |
| Day21.PadHasKeys | src/day21.rs:39-62 | every place of a keypad but the forbidden corner holds a key |
| Day21.Walk | src/day21.rs:71-122 | one place per move of a path |
| Day21.WalkAppend | src/day21.rs:104-113 | following two paths one after the other passes the first's places, then the second's from where the first ends |
| Day21.Repeat | src/day21.rs:90-104 | the `(0..i)` run mapped to `x` is `i` copies of `x` |
| Day21.RepeatWalk | src/day21.rs:90-93 | a straight run passes the places one, two, … steps away and ends `n` away |
| Day21.StepsTo | src/day21.rs:71-122 | `steps_to` gives one or two paths, each exactly as long as the Manhattan distance between the keys |
| Day21.Routes | src/day21.rs:74-121 | one or two paths, each as long as the distance between the places |
| Day21.StepsToSelf | src/day21.rs:87-89 | from a key to itself there is exactly the empty path |
| Day21.RoutesCorners | src/day21.rs:94-118 | when both legs are needed, vertical-first is offered exactly when its corner is not the gap, horizontal-first exactly when its corner is not, and they differ |
| Day21.RoutesForm | src/day21.rs:87-121 | every path is one of the two L-shapes, each taken only when its corner is not the gap |
| Day21.RoutesLand | src/day21.rs:74-121 | every path leads from the first place to the second |
| Day21.VerticalFirstLands | src/day21.rs:100-106 | the vertical-first path ends at the target |
| Day21.HorizontalFirstLands | src/day21.rs:109-115 | the horizontal-first path ends at the target |
| Day21.RoutesStayOnPad | src/day21.rs:64-69 | between two places of one keypad every offered path stays on the keypad, never passing the gap (with lines 94-118) |
| Day21.VerticalFirstOnPad | src/day21.rs:97-106 | with its corner off the gap, the vertical-first path stays on the keypad |
| Day21.HorizontalFirstOnPad | src/day21.rs:98-115 | with its corner off the gap, the horizontal-first path stays on the keypad |
| Day21.VerticalRay | src/day21.rs:76-80 | `m` steps of the vertical leg reach the places between the rows |
| Day21.HorizontalRay | src/day21.rs:81-85 | `m` steps of the horizontal leg reach the places between the columns |
| Day21.LegPoint | src/day21.rs:64-69 | a place strictly on the way to a non-gap place of the keypad's rectangle is on the keypad |
| Day21.StepsToWalks | src/day21.rs:71-122 | every path `steps_to` gives leads from the first key to the second and, on one keypad, never over the gap |
| Day21.LegThenLeg | src/day21.rs:102-114 | two straight runs pass the first leg's places, then the second's from the corner |
| Day21.StepsForRobot | src/day21.rs:125-145 | one press at the outermost level, and otherwise at least the distance plus the final press |
| Day21.Presses | src/day21.rs:134-140 | typing a path costs at least one press per key |
| Day21.Cheapest | src/day21.rs:131-143 | the least press count among the offered paths: it is one of theirs and no other is lower |
| Day21.StepsForRobotExample | src/day21.rs:125-145 | one level down, moving from `A` to `<` and pressing takes 4 presses above |
| Day21.NumOf | src/day21.rs:148-163 | a byte reads as a numeric key exactly when it is a decimal digit or `A` |
| Day21.ValueOf | src/day21.rs:165-179 | a key's value is a single digit |
| Day21.DigitKeys | src/day21.rs:148-179 | a digit byte's key has that digit as its value, and `A`'s key has none |
| Day21.Code | src/day21.rs:186-189 | a line reads exactly when every byte is a key, and then holds each byte's key in order |
| Day21.DigitsOf | src/day21.rs:196-198 | the values kept are decimal digits |
| Day21.Number | src/day21.rs:196-199 | the fold `acc * 10 + v` is the decimal value of the digit keys |
| Day21.NumberOfCode | src/day21.rs:186-199 | a code of decimal digits ended by `A` has the number its digits spell |
| Day21.EnterAddsNothing | src/day21.rs:196-199 | a final `A` key adds no digit and leaves the number unchanged |
| Day21.CodeSnoc | src/day21.rs:186-189 | one byte more reads as one key more |
| Day21.DigitValuesOf | src/day21.rs:196-198 | the digit keys of a decimal line are its digits |
| Day21.DigitValuesSnoc | src/day21.rs:196-198 | a digit more gives a value more |
| Day21.CodePresses | src/day21.rs:190-195 | with a robot in between, at least one press per key of the code |
| Day21.Complexity | src/day21.rs:185-201 | a line has a complexity exactly when every byte is a numeric key |
| Day21.ComplexityOfCode | src/day21.rs:185-201 | a decimal code ended by `A` has complexity presses times the number its digits spell, and at least one press per key times that number |
| Day21.SumComplexities | src/day21.rs:183-202 | the sum is defined exactly when every line reads |
| Day21.Part | src/day21.rs:182-226 | each part is defined exactly when every line of the input is made of numeric keys |
| Day21.Part1 | src/day21.rs:182-203 | part one, with three robots, is defined exactly when every line is made of numeric keys |
| Day21.Part2 | src/day21.rs:205-226 | part two, with twenty-six robots, is defined exactly when every line is made of numeric keys |
| Day22.MaskIsLow24 | src/day22.rs:12 | `MASK` is 2^24 - 1 |
| Day22.UsizeFromBytes | src/day22.rs:8-18 | a line of at most ten decimal digits reads as its decimal value |
| Day22.Seed | src/day22.rs:14-31 | a line reads exactly when it is at most ten bytes long |
| Day22.Next | src/day22.rs:20-26 | every secret `next` makes is below 2^24 |
| Day22.MixMask | src/day22.rs:21-23 | masking with `MASK` after the exclusive or is the remainder modulo 2^24 |
| Day22.NextMixPrune | src/day22.rs:20-26 | `next` is multiply by 64, mix and prune; divide by 32, mix and prune; multiply by 2048, mix and prune |
| Day22.Iterate | src/day22.rs:32 | after at least one step the secret is below 2^24 |
| Day22.IterateAdd | src/day22.rs:32 | `m` steps then `n` more are `m + n` steps |
| Day22.Seeds | src/day22.rs:29-31 | the lines read exactly when every line does, one seed per line |
| Day22.Secrets | src/day22.rs:32 | each buyer's secret after `n` steps, in line order |
| Day22.SumBelow | src/day22.rs:33 | a sum of values each below `m` is at most `m` times their count |
| Day22.Part1 | src/day22.rs:28-34 | defined exactly when every line reads; the sum of every buyer's 2000th secret, at most 2^24 per buyer |
| Day22.Prices | src/day22.rs:41-47 | the price at each of the first `n` secrets is its last digit |
| Day22.Diffs | src/day22.rs:51-54 | one change per pair of neighbouring prices, the later minus the earlier |
| Day22.DiffsBound | src/day22.rs:44-53 | prices are single digits, so every change is between -9 and 9 |
| Day22.Position | src/day22.rs:69-71 | `position` finds the first window equal to the sequence, or `None` when there is none |
| Day22.Bid | src/day22.rs:67-73 | a buyer pays the price just after the first occurrence of the four changes, or nothing |
| Day22.FirstIsUnique | src/day22.rs:71 | two first occurrences are the same |
| Day22.Gain | src/day22.rs:66-75 | one sequence earns at most 9 per buyer |
| Day22.Windows | src/day22.rs:59-61 | one buyer's windows are exactly the runs of four consecutive changes |
| Day22.SomeBuyerCons | src/day22.rs:58-62 | a run occurs for some buyer exactly when it occurs for the first or for some later one |
| Day22.Combos | src/day22.rs:56-62 | the set holds exactly the runs of four consecutive changes of some buyer |
| Day22.CombosNonEmpty | src/day22.rs:76-77 | a buyer with five prices makes the set non-empty, so the `unwrap` of the maximum does not fail |
| Day22.Market | src/day22.rs:37-49 | each buyer's first 2000 prices |
| Day22.BestGain | src/day22.rs:64-77 | the greatest gain over the set, reached by one of its members |
| Day22.Part2 | src/day22.rs:36-78 | defined exactly when every line reads; the most bananas any run of four changes earns, and some run earns it |
| Bits.Pow2 | src/day22.rs:12 | powers of two are positive |
| Bits.Pow2Add | src/day22.rs:21-23 | 2^(a+b) is 2^a times 2^b |
| Bits.Bit | src/day24.rs:41 | a bit is 0 or 1 |
| Bits.XorBits | src/day22.rs:21-23 | exclusive or is bitwise: each bit of `x ^ y` is set exactly when one operand has it set |
| Bits.Parity | src/day22.rs:21-23 | the parity of a sum |
| Bits.XorHalf | src/day22.rs:21-23 | dropping the low bit commutes with exclusive or |
| Bits.BitsEqual | src/day22.rs:21-23 | numbers with the same bits are equal |
| Bits.XorTwice | src/day17.rs:121-133 | exclusive or with the same value twice gives the value back |
| Bits.XorTwiceBit | src/day17.rs:121-133 | each bit survives exclusive or twice |
| Bits.XorCommutes | src/day22.rs:21-23 | exclusive or commutes |
| Bits.XorBound | src/day22.rs:21-23 | exclusive or of two numbers below 2^k is below 2^k |
| Bits.XorLowBits | src/day17.rs:73-76 | `(a << k) ^ i` is `(a << k) + i` for `i` below 2^k |
| Bits.Halves | src/day17.rs:73 | `a * 2^k` is twice `a * 2^(k-1)` |
| Bits.Rebuild | src/day22.rs:21-23 | a number is fixed by its half and its parity |
| Bits.XorZero | src/day17.rs:121 | exclusive or with 0 changes nothing |
| Bits.Shl | src/day22.rs:21-23 | `x << k` is `x * 2^k` |
| Bits.AndMask | src/day22.rs:21-23 | and-ing with `k` ones keeps the remainder modulo 2^k |
| Bits.AndPow2 | src/day24.rs:41-42 | `x & (1 << k)` is non-zero exactly when bit `k` of `x` is set |
| Bits.BitOfSum | src/day24.rs:55-56 | placing a bit above a smaller number leaves the low bits alone |
| Bits.BitZero | src/day24.rs:49 | 0 has no bit set |
| Bits.LowBits | src/day24.rs:51-57 | the remainder modulo 2^(k+1) adds bit `k` to the remainder modulo 2^k |
| Bits.AndLowOne | src/day22.rs:21-23 | a mask with its low bit set keeps the low bit and masks the rest |
| Bits.ModDouble | src/day22.rs:21-23 | the remainder modulo 2p from the half's remainder and the low bit |
| Bits.ModOf | src/day22.rs:21-23 | division with remainder is unique |
| Bits.MulGrows | src/day22.rs:21-23 | a positive multiple is at least the number |
| Bits.Shr | src/day22.rs:22 | `x >> k` is no larger than `x` |
| Bits.DivLe | src/day17.rs:119 | dividing by a positive number does not grow it |
| Day23.ToInt | src/day23.rs:10-12 | defined exactly when neither byte is below `a`; for lower-case letters the id is below 26 * 26 and its quotient by 26 is the first letter |
| Day23.FromInt | src/day23.rs:14-16 | defined exactly when the truncated quotient added to `a` stays a byte; the second letter is always lower case |
| Day23.FromToInt | src/day23.rs:10-16 | every name of two lower-case letters gets an id below 26 * 26, and `from_int` gives the name back |
| Day23.ToFromInt | src/day23.rs:10-16 | every id `from_int` can spell is given back by `to_int` |
| Day23.ToIntExamples | src/day23.rs:179-186 | the unit tests of `to_int` and `from_int` |
| Day23.ParseLine | src/day23.rs:24-31 | a line reads exactly when it has five bytes and both names read; the ids are those of bytes 0-1 and 3-4, and a name starts a triangle search exactly when its first byte is `t` |
| Day23.Links | src/day23.rs:23-43 | the lines read exactly when each does, one link per line in order |
| Day23.Listed | src/day23.rs:33-34 | a computer's list holds exactly the computers some line links it to |
| Day23.LinkedSnoc | src/day23.rs:33-34 | one line more links exactly its two ends in addition |
| Day23.Adjacency | src/day23.rs:19-34 | the table has 26 * 26 lists and each is the computer's listed neighbours |
| Day23.AdjacencySimple | src/day23.rs:33-34 | pushing both directions makes the table symmetric, without loops when no line has one |
| Day23.Starts | src/day23.rs:36-42 | `start_nodes` holds exactly the ids of names starting with `t` |
| Day23.Canon | src/day23.rs:86-91 | `sort` then `dedup` gives a strictly increasing vector of the same ids |
| Day23.Count | src/day23.rs:18-95 | part one is defined exactly when the lines read into ids below 26 * 26, and is the number of distinct canonical closed walks of three steps from a `t` computer |
| Day23.Part1 | src/day23.rs:18-95 | on the input's lines: defined exactly when they read into ids below 26 * 26, and then the number of distinct canonical closed walks of three steps from a `t` computer |
| Day23.Ordered | src/day23.rs:86-91 | a triangle's three ids in increasing order |
| Day23.CycleOfThree | src/day23.rs:85-91 | a closed walk through three distinct ids gives those ids in order, whatever its start and direction |
| Day23.CyclesAreTriangles | src/day23.rs:45-94 | every vector part one counts is a triangle with a `t` computer |
| Day23.TrianglesAreCycles | src/day23.rs:45-94 | every triangle with a `t` computer is counted |
| Day23.WalkCounted | src/day23.rs:45-92 | a closed three-step walk from a start is counted |
| Day23.Nodes | src/day23.rs:125-141 | `nodes` holds exactly the ends of every line |
| Day23.Neighbours | src/day23.rs:110 | `next` is exactly the neighbours of `v` |
| Day23.Grow | src/day23.rs:110-115 | adding a candidate keeps a clique, and the new candidates are the old ones next to it |
| Day23.ReportedAppend | src/day23.rs:102-105 | reports from two calls together are still maximal cliques containing `r` |
| Day23.CoveredStart | src/day23.rs:107-109 | before the loop every maximal clique owed is still reachable |
| Day23.CoveredStep | src/day23.rs:109-118 | one turn reports the maximal cliques through `v`, and those without it stay reachable |
| Day23.CoveredEnd | src/day23.rs:109-119 | after the loop every owed maximal clique has been reported |
| Day23.NothingAdded | src/day23.rs:104-105 | a clique that adds nothing to `r` is `r` |
| Day23.OnlyItself | src/day23.rs:104-105 | with no candidates the only clique owed is `r` |
| Day23.BronKerbosch | src/day23.rs:97-120 | every reported set is a maximal clique containing `r`, every maximal clique through `r` and `p` is reported, and with `x` empty something is |
| Day23.Try | src/day23.rs:109-118 | a turn tries some untried `v` and the call reports the maximal cliques through it |
| Day23.ExtendToMaximal | src/day23.rs:97-120 | any clique grows into a maximal one |
| Day23.LastLargest | src/day23.rs:151 | `max_by` on sizes returns a largest set, the last among ties |
| Day23.Elements | src/day23.rs:107 | collecting a set gives exactly its members |
| Day23.Name | src/day23.rs:155-158 | an id's name is the two lower-case letters `from_int` gives |
| Day23.NameOrder | src/day23.rs:160 | names compare in the order of their ids, so sorting names is sorting ids |
| Day23.Names | src/day23.rs:153-159 | one name per id, in order |
| Day23.SpellsUnique | src/day23.rs:153-161 | a set has one password |
| Day23.Biggest | src/day23.rs:144-151 | the set picked is a largest clique among the computers |
| Day23.Spell | src/day23.rs:153-161 | the output is the clique's names sorted and joined with commas |
| Day23.Solve | src/day23.rs:122-162 | part two is defined exactly when the lines read into ids below 26 * 26 and no line links a computer to itself, and then is the password of a largest clique |
| Day23.Part2 | src/day23.rs:122-162 | on the input's lines: defined exactly when they read into ids below 26 * 26 with no self-link, and then the password of a largest clique |
| Day24.Len | src/day24.rs:18-24 | the length `len` gives is the length of the operator's name in a gate line |
| Day24.Apply | src/day24.rs:26-32 | `And` is conjunction, `Or` disjunction and `Xor` inequality |
| Day24.Label | src/day24.rs:39-67 | the name of wire `i` begins with its letter and encodes `i` |
| Day24.LabelDigits | src/day24.rs:39-40 | below 100 the name is the letter and the two decimal digits of `i` |
| Day24.LabelInjective | src/day24.rs:39-41 | different indices or letters give different names |
| Day24.HoldsNext | src/day24.rs:38-43 | writing bit `i` under its name extends what the map holds |
| Day24.HoldsOther | src/day24.rs:41-42 | writing under another letter leaves the first letter's wires alone |
| Day24.TestBit | src/day24.rs:41-42 | `x & (1 << i) != 0` is bit `i` of `x` |
| Day24.PrepareValues | src/day24.rs:35-46 | the map holds bit `i` of `x` and of `y` under `xNN` and `yNN` for every `i` below `len`, and nothing else |
| Day24.ReadBits | src/day24.rs:51-54 | reading the wires `cNN` is defined exactly when all of them have a value, and gives those values in order |
| Day24.NumberBound | src/day24.rs:48-60 | `len` bits spell a number below 2^len |
| Day24.NumberBit | src/day24.rs:48-60 | bit `i` of the number is wire `i` |
| Day24.BitsOf | src/day24.rs:41-42 | the first `len` bits of `x` |
| Day24.NumberOfBits | src/day24.rs:41-60 | the first `len` bits spell the remainder modulo 2^len |
| Day24.PrepareRead | src/day24.rs:35-60 | writing `x` and `y` and reading the wires back gives their low `len` bits |
| Day24.PrepareReadX | src/day24.rs:35-46 | the `x` wires read back the low bits of `x` |
| Day24.PrepareReadY | src/day24.rs:35-46 | the `y` wires read back the low bits of `y` |
| Day24.HornerNumber | src/day24.rs:51-57 | shifting in from the most significant end gives the sum of the bits' place values |
| Day24.ShiftIn | src/day24.rs:55-56 | one shift step |
| Day24.GetOutputNumber | src/day24.rs:48-60 | `get_output` returns the number the `z` wires spell, below 2^len |
| Day24.Outputs | src/day24.rs:63-69 | the queue starts with the output wires in order |
| Day24.Step | src/day24.rs:71-92 | one turn panics exactly when the front wire has no gate; it keeps the stored values, keeps the rest of the queue in order, queues only wires without a value, and either stores the front wire or queues it again |
| Day24.Run | src/day24.rs:62-93 | when the loop stops, every wire ever queued, and so every output wire, has a value |
| Day24.StillQueued | src/day24.rs:71-92 | a turn keeps every wire of the queue in the stored values or in the queue that follows |
| Day24.StepConsistent | src/day24.rs:84-91 | a stored wire is the gate applied to its inputs' values, and storing it again stores the same value |
| Day24.RunConsistent | src/day24.rs:62-93 | the whole run keeps the values consistent |
| Day24.EvalAgrees | src/day24.rs:62-93 | consistent stored values agree with the circuit's meaning wherever it is defined |
| Day24.ParseValue | src/day24.rs:107-113 | a starting-value line reads exactly when its last byte is `0` or `1`; the first three bytes name the wire |
| Day24.OpOf | src/day24.rs:117-122 | byte 4 names an operator exactly when it is `A`, `O` or `X`, and it is the operator's initial |
| Day24.ParseGate | src/day24.rs:117-128 | a gate line reads exactly when its operator byte is known and the line is long enough for the operator's length |
| Day24.ParseGateLine | src/day24.rs:117-128 | reading a gate line gives back the gate it was written from |
| Day24.Assign | src/day24.rs:113-128 | the map's keys are those of the pairs inserted |
| Day24.AssignLast | src/day24.rs:113-128 | the value stored under a key is its last pair's |
| Day24.Values | src/day24.rs:102-114 | the starting values read exactly when every line does, and name exactly the wires of the lines |
| Day24.ZOutputs | src/day24.rs:130-132 | `outputs` holds only wires starting with `z` |
| Day24.Gates | src/day24.rs:116-133 | the gates read exactly when every line does; the map's wires are the lines' outputs, and `outputs` the `z` ones |
| Day24.Blank | src/day24.rs:102-105 | the index of the first empty line |
| Day24.ParseCircuitLines | src/day24.rs:100-133 | the input reads exactly when every line before the first empty one is a starting value and every line after it is a gate |
| Day24.ValuesLines | src/day24.rs:102-114 | the value half of that |
| Day24.GatesLines | src/day24.rs:116-133 | the gate half of that |
| Day24.Evaluate | src/day24.rs:135-137 | defined exactly when there are at most 2080 output wires, so every label's tens byte fits a `u8`, and the run stops without a panic; `get_output` then never panics (with lines 51-53, 63-67) |
| Day24.Part1 | src/day24.rs:95-138 | defined exactly when the input reads, it has at most 2080 output lines, and the run stops without a panic; then a number below 2^len, with `len` the number of output lines |
| Day24.EvaluateMeaning | src/day24.rs:95-138 | bit `i` of part one's number is the meaning of wire `zNN` wherever that is defined, when no output wire also has a starting value |
| Day25.Column | src/day25.rs:10-15 | no more rows show a byte in a column than were looked at |
| Day25.MarkLine | src/day25.rs:11-29 | one row defined exactly when the byte sought appears only in the five columns (and, for a key, no height goes below zero); each height moves by one where the row shows it |
| Day25.MarkRows | src/day25.rs:10-30 | over the rows, each column's height moves by the number of rows showing the byte there |
| Day25.Rows | src/day25.rs:10-24 | `skip(1).take(6)`: the lines after the first, at most six |
| Day25.ParseLock | src/day25.rs:7-19 | defined exactly when `#` shows only in the five columns; each height is the number of rows under the top showing `#` there, at most 6 |
| Day25.ParseKey | src/day25.rs:21-33 | defined exactly when `.` shows only in the five columns and no column has more than five; each height plus the count of `.` in its column is 5 |
| Day25.ParseLockExample | src/day25.rs:77-82 | the unit test of `parse_lock` gives `[0, 5, 3, 4, 3]` |
| Day25.SameHeights | src/day25.rs:8 | five heights agreeing column by column are equal |
| Day25.LockTestRows | src/day25.rs:79 | the rows `parse_lock` reads from the test lock |
| Day25.LockTestColumns | src/day25.rs:79-80 | the column counts of the test lock |
| Day25.ParseKeyExample | src/day25.rs:85-90 | the unit test of `parse_key` gives `[5, 0, 2, 1, 3]` |
| Day25.KeyTestRows | src/day25.rs:87 | the rows `parse_key` reads from the test key |
| Day25.KeyTestColumns | src/day25.rs:87-88 | the column counts of the test key |
| Day25.Chunks | src/day25.rs:39 | `chunks(43)` cuts the input into non-empty pieces of at most 43 bytes, all full but the last, that joined give the input back |
| Day25.ChunksCount | src/day25.rs:39 | there are as many chunks as the length divided by 43, rounded up |
| Day25.DivStep | src/day25.rs:39 | one more full chunk adds one to the quotient |
| Day25.Classify | src/day25.rs:40-48 | a chunk is a key exactly when it starts with `.`, a lock exactly when it starts with `#`, and any other first byte panics |
| Day25.Keys | src/day25.rs:41-43 | exactly the heights of the keys |
| Day25.Locks | src/day25.rs:44-46 | exactly the heights of the locks |
| Day25.Distinct | src/day25.rs:51-55 | `sort` then `dedup` keeps each value once, no more than there were |
| Day25.Matches | src/day25.rs:57-60 | a key fits at most every lock |
| Day25.CountFits | src/day25.rs:57-60 | the count of fitting pairs is at most keys times locks, and over distinct keys and locks is the number of fitting pairs |
| Day25.MatchesCard | src/day25.rs:58-59 | over distinct locks, a key's count is the number of its fitting pairs |
| Day25.FitPairsSnoc | src/day25.rs:57-60 | the last key's row of pairs splits off |
| Day25.CountFitsOrderFree | src/day25.rs:51-60 | the count is the same for any order of the same distinct keys and locks, so sorting first changes nothing |
| Day25.AllClassifyFront | src/day25.rs:39-49 | the chunks classify exactly when the first does and the rest do |
| Day25.ClassifiedAsFront | src/day25.rs:39-49 | a first chunk classified in front of the rest |
| Day25.ClassifyAll | src/day25.rs:39-49 | the chunks are classified in order, defined exactly when each one is |
| Day25.Schematics | src/day25.rs:39-49 | the input's schematics, defined exactly when every chunk starts with `.` or `#` |
| Day25.Part1 | src/day25.rs:35-61 | defined exactly when every chunk classifies, and then the number of distinct key and lock pairs that fit |
| Day25.Part1Meaning | src/day25.rs:35-61 | the answer is the number of distinct fitting pairs and at most keys times locks |
| Text.Split | src/day23.rs:23 | splitting on the newline byte: one more piece than separators, none holding a separator, and joined with the separator they give the text back |
| Text.SplitJoin | src/day23.rs:23 | splitting inverts joining on separator-free pieces |
| Text.Lines | src/day21.rs:184 | a split always yields at least one line |
| Text.StrLines | src/day07.rs:95 | `str::lines`: empty text has no lines, no line holds a newline, and joined they give back the text less one final newline |
| Text.StrLinesFinalNewline | src/day14.rs:63 | a final newline adds no line |
| Text.FirstLine | src/day04.rs:14 | the bytes taken while they are not a newline: a newline-free prefix of the text, followed by a newline when shorter than it |
| Text.RemoveNewlines | src/day04.rs:17 | filtering out the newline bytes keeps no newline and nothing more than the text |
| Text.RemoveNewlinesAppend | src/day04.rs:17 | filtering distributes over concatenation |
| Text.MapBytes | src/day15.rs:74-84 | every byte read through the cell match, defined exactly when each byte reads, one cell per byte in order |
| Text.LastPosition | src/day15.rs:79-81 | with a marker present, the position of one; with none, (0, 0) |
| Text.LastPositionIsLast | src/day15.rs:79-81 | no marker follows the one found, so each later occurrence overwriting the earlier gives that one |
| Decimal.DigitsOfValue | src/day07.rs:41-52 | digits of a value give the canonical digits back |
| Decimal.DecimalString | src/day07.rs:41 | `to_string` prints the digits of the number as decimal bytes |
| Decimal.Low4 | src/day01.rs:9 | `x & 0x0f` is below 16 and is the digit value of a decimal byte |
| Decimal.PlaceValueOfString | src/day01.rs:7-11 | place-value parsing reads back the text of any number |
| Decimal.PlaceValueWithin | src/day01.rs:7-11 | on at most `width` digits place-value parsing is the decimal value, below 10^width |
| Decimal.ParseDigits | src/day07.rs:5-10 | a non-empty run of digits reads as its decimal value, below 10 to its length; any other text is an error |
| Decimal.ParseNat | src/day07.rs:5-10 | `parse::<usize>()` succeeds exactly on a non-empty run of digits after at most one `+`, giving the digits' value, below 10 to the text's length |
| Decimal.ParseNatDecimalString | src/day07.rs:41-52 | `parse` reads back what `to_string` prints |
| Decimal.ParseNatSigns | src/day07.rs:5-10 | `+` before a number's text reads as the number; a `+` alone, a doubled sign or a `-` is an error |
| Decimal.ParseInt | src/day14.rs:19-22 | `parse::<isize>()` succeeds exactly on a non-empty run of digits after at most one `+` or `-`, negated after a `-` |
| Decimal.ParseIntString | src/day14.rs:19-22 | `parse` reads back any integer's text, sign included |
| Sorting.Sort | src/day01.rs:26-27 | `sort` gives a sorted permutation of its input |
| Sorting.SortPermutation | src/day01.rs:26-27 | the sorted result depends only on the multiset of the input |
| Sorting.Dedup | src/day23.rs:88-89 | `dedup` after `sort` gives a strictly increasing sequence of the same values |
| Sorting.DedupStrict | src/day23.rs:89 | `dedup` leaves a strictly increasing sequence unchanged |
| Common.Collect | src/day07.rs:8-10 | unwrapping every element succeeds exactly when each is present, giving the values in order |
| Common.Count | src/day01.rs:57 | the number of occurrences of a value is its multiplicity |
| Common.CountTrue | src/day06.rs:187-189 | the count is defined exactly when every verdict is, and then is the number of true verdicts |
| Common.SubsetCard | src/day06.rs:152-158 | a subset is no larger than its superset |

## Left out

- `src/day03.rs` is not part of this model. It is a thin wrapper over the `regex` crate.
- `src/main.rs` is not part of this model. It only dispatches on the command line.
- Every `main`, benchmark and `include_bytes!` input is left out. So are the tests that read the example input files, which are not part of this model. The inline unit tests are kept as example lemmas (`Day19.IsSubsliceExamples`, `Day23.ToIntExamples`, `Day25.ParseLockExample`, `Day25.ParseKeyExample`).
- Debug printing is left out: the `println!` calls in `src/day13.rs:68` and `src/day14.rs:65-67`, and the grid dump and bisection trace in `src/day18.rs:221-239`.
- `src/day16.rs` `part2` returns 0 and is not modelled.
- `src/day15.rs` `WideGrid` and `part2` are not modelled. `WideGrid::move_robot` is a stub that never moves a box.
- `src/day24.rs` `part2` is not modelled. It applies hard-coded wire swaps, prints, and returns 0.
- The expected value of the part-two test in `src/day11.rs:64` is not modelled. It does not follow from `process`.
- The `#[memoize]` caches of `src/day11.rs` and `src/day21.rs` are plain recursion; those caches only store results of pure functions. The global tables of `src/day19.rs` are different, see the next two lines.
- `Day19.Part1`: the global table of `src/day19.rs:22-25` is keyed by the design alone and outlives a call. A second call with other patterns can reuse a stale answer. The model gives each call a fresh search.
- `Day19.Part2`: `MEMO_2` (`src/day19.rs:22-25`, used by `can_build_how_many` at lines 70-90) is likewise global and keyed by the design alone, so a second call with other patterns can reuse stale counts. The model, `Day19.HowMany` included, gives each call fresh counts.
- `Day22.Part2`: rayon's `par_iter` is modelled as a sequential map followed by a maximum.
- `Day23.Elements`: `HashSet` iteration order is any order. `Day23.Solve` therefore promises some largest clique, not the one a particular hash order picks.
- Machine-integer overflow in sums and products (`usize`, `i32`, `u64`) is not modelled; all values are unbounded. Examples are `number * 2024` in `src/day11.rs:23` and the running totals of every part.
- `Decimal.ParseNat`: the overflow error of `str::parse::<usize>()` on a value of 2^64 or more is not modelled.
- `Decimal.ParseInt`: the overflow error of `str::parse::<isize>()` outside the 64-bit range is not modelled.
- `Text.StrLines` does not drop a `\r` before a newline, which `str::lines` does. Lines in `src/day07.rs` and `src/day14.rs` therefore keep a carriage return, and the parse fails on it.
- `Day10.FromBytes` returns `None` when the cells do not fill whole rows. The source floors `rows = len / cols` and carries on with the partial row.
- `Day12.FromBytes` does the same, returning `None` where the source floors `len / cols`.
- `Day15.Get` returns `None` at a negative coordinate. The source's `as usize` wraps there, and a release build could land on another cell.
- `Maze.Get` (days 16 and 20) treats a step off the left edge or above the first row as a panic, as the debug build's overflowing `usize` addition panics. A release build wraps and reads another cell.
- `Day16.DistIndex`: the model keys the distance table by state. The source's `to_dist_index` gives a state one column past the right edge the slot of the first cell of the next row. `Day16.DistIndexSlots` shows the two agree while columns stay on the grid.
- `Day06.Part1` and `Day06.Part2` bound the guard's walk by a fuel count and return `None` when it runs out.
- `Day14.Part2` bounds the search for the tree picture by a fuel count. `Day14.Part2Exhausted` shows that a fuel of at least `width * height` loses nothing.
- `Day17.Part1` and `Day17.Part2` bound every program run by a fuel count (`Exhausted`).
- `Day24.Part1` bounds the evaluation loop by a fuel count (`Unfinished`). That loop never ends on a cyclic circuit.
- `Day07.DfsCorrect`: the depth-first search is proved to decide solvability only for equations whose operands are all positive. With a zero operand, `Day07.Search` follows the source exactly (including the panic of `% 0`), but nothing is proved about its answer beyond the example lemmas `Day07.ZeroOperandSolved` and `Day07.ZeroFactorPanics`.
- `Day12.Part2Intended`: that the number of corners of a region equals its number of sides is not proved. The contract states the price as the sum of area times corner count.
- `Day21.StepsForRobot`: the minimum is taken over the paths `steps_to` offers (at most two L-shaped paths per move), as the source does. That these include an optimal key sequence among all paths is not proved.
- `Day21.Part`: the contract states when the part is defined. `Day21.ComplexityOfCode` states each line's complexity. The total is not restated as a closed sum.
- `Day20.Track`: a coordinate below zero is never indexed, because only the start is indexed without a bounds check and it is not negative. The model does not carry that case.
- `Day20.Saving`: defined as 0 for indices past the track, so that it is total. The source never asks for it there.

## Findings

| source | as written | input that shows it | evidently intended | confidence | as-written member | corrected member |
|---|---|---|---|---|---|---|
| src/day12.rs:156-159 | two neighbours of a cell count as opposite (no corner) when their indices differ by `2 * cols` or by 2 | "AAB\nABB": with 3 columns the neighbours below and to the right of plot 0 differ by `cols - 1 == 2`, so its bend is taken as straight and region A loses a corner; part two gives 30 | opposite means up and down, or left and right; part two gives 36 | not executed | Day12.Part2, Day12.StraightAsWrittenMisreads, Day12.MisreadLosesCorner | Day12.Part2Intended, Day12.StraightMidpoint, Day12.PricesAgree |
| src/day18.rs:202-213 | the corruption table starts at 0 and is set only while an entry is 0, so "never hit" and "hit by byte 0" are both 0, and `next2` treats 0 as already fallen | grid size 2 with the single byte `0,1`: after byte 1 no step out of the start is allowed, though only (0, 1) is blocked | each cell records the number of the first byte landing on it, or none, and is open until then | not executed | Day18.TableAsWritten, Day18.AsWrittenCounterexample, Day18.AsWrittenBlocksFree, Day18.Part2WithParameters | Day18.FirstFall, Day18.FirstFallIsFirst, Day18.OpenIffClear, Day18.Part2WithParametersIntended |
