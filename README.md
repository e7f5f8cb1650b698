# Advent of Code 2025 puzzle kernels, modelled in Dafny

This project models the twelve puzzle kernels of a Rust Advent of Code 2025
solution (`src/day01.rs` to `src/day12.rs`). It states and proves what each
kernel computes. Every day's parsing (`create`) and its solving entry points are modelled,
except day 10's floating-point part 2. Where the Rust code parses, a lemma shows that printing a value
and parsing it again gives the value back.

Layout: one module per day (`day01.dfy` … `day12.dfy`, modules `Day01` …
`Day12`), plus three shared modules:
- `text.dfy` (`Text`): the Rust string operations the parsers use (`lines`,
  `split`, `trim`, `split_whitespace`, `parse`, `to_string`) and their
  round-trip lemmas;
- `sorting.dfy` (`Sorting`): sorting by an integer key, stated as "ordered and
  a permutation";
- `sets.dfy` (`Sets`): small facts about set sizes.

Code that changes state step by step is written as Dafny methods with loops
and invariants. Each method is proved against a specification function, and
the lemmas next to it say what that function means. Examples are the dial
walks of day 1, the stack scan of day 3, the queue peel of day 4, the union-find
class of day 8, the prefix table of day 9, the breadth-first search of day 10,
and the word-array packing search of day 12. Code that is expression-shaped
stays as functions.

## Model

| member | source | states |
|---|---|---|
| Day01.ParseMoveShow | src/day01.rs:50-56 | a line `L` followed by the digits of n parses to the move -n, and `R` followed by them to +n |
| Day01.ParseMovesShowMoves | src/day01.rs:47-59 | one move per line, in order: parsing the printed lines of a move list gives that list |
| Day01.CreateShowMoves | src/day01.rs:46-60 | `create` on the joined printed lines of any move list returns that list |
| Day01.TruncRem100 | src/day01.rs:17 | the truncating `% 100` lies in (-100, 100), has the sign of the dividend and is congruent to it modulo 100 |
| Day01.CongruentStep | src/day01.rs:17 | after a move the dial stays congruent to 50 plus the prefix sum of the moves, modulo 100 |
| Day01.ZeroIffMultiple | src/day01.rs:18 | a dial value in (-100, 100) is 0 exactly when the congruent unwrapped position is a multiple of 100 |
| Day01.SolvePart1 | src/day01.rs:13-23 | the count equals the number of move prefixes whose unwrapped position 50 + sum is a multiple of 100, and is at most the number of moves |
| Day01.LandingsAtMostMoves | src/day01.rs:16-21 | the landing count never exceeds the number of moves |
| Day01.FloorDiffIsMultiples | src/day01.rs:35-36 | for a <= b, floor(b/100) - floor(a/100) is the number of multiples of 100 in (a, b] |
| Day01.CeilDiffIsMultiples | src/day01.rs:37-38 | for a <= b, ceil(b/100) - ceil(a/100) is the number of multiples of 100 in [a, b) |
| Day01.SolvePart2 | src/day01.rs:29-42 | the count is the sum over the moves of the multiples of 100 passed: those in (prev, prev+m] for m > 0, and those in [prev+m, prev) otherwise |
| Day01.CrossingsCoverLandings | src/day01.rs:14-41 | when no move is zero, part 2's crossing count is at least part 1's landing count |
| Day02.NumDigits | src/day02.rs:43-45 | at least 1; 1 for 0; otherwise the d with 10^(d-1) <= n < 10^d |
| Day02.NumDigitsIsLength | src/day02.rs:43-45 | the digit count equals the length of the decimal string |
| Day02.RepeatStrDigits | src/day02.rs:96-98 | writing a digit block t out k times gives the number value(t) times the multiplier 1 + 10^p + … + 10^((k-1)p) |
| Day02.MultiplierShift | src/day02.rs:96-98 | the multiplier for k + 1 copies is the one for k copies times 10^p, plus 1 |
| Day02.BlockIffRepetition | src/day02.rs:142-144 | the arithmetic test (divisible by the multiplier, with a p-digit quotient) holds exactly when the decimal string has length p·k and is its first p characters repeated |
| Day02.DoubletByLength | src/day02.rs:105-111 | a 2-fold repetition of a p-digit block is exactly a doublet with 2p digits |
| Day02.DoubletAtLeast11 | src/day02.rs:101-104 | every doublet is at least 11 |
| Day02.DoubletSumBelow11 | src/day02.rs:101-103 | no doublet lies at or below 10, so the early return of 0 is exact |
| Day02.DoubletSumFrom11 | src/day02.rs:104 | raising the start to 11 does not change the doublet sum |
| Day02.SeriesSum | src/day02.rs:115-116 | the product count·(low+high) is even, so the halving is exact and gives low + … + high |
| Day02.BlockSumClosedForm | src/day02.rs:109-117 | the sum of the k-fold repetitions of p-digit blocks in [lo, hi] is the multiplier times the series between the clamped seed bounds |
| Day02.DoubletSumByLength | src/day02.rs:105-108 | when the length loop covers ceil(digits(start)/2) to floor(digits(end)/2), the sum over the lengths is the sum of all doublets in the range |
| Day02.SumDoubletsInRange | src/day02.rs:100-120 | the result is the sum of the ids in [start, end] whose decimal string is two equal halves |
| Day02.LeastFactor | src/day02.rs:77-91 | the smallest divisor of n above 1 |
| Day02.LeastFactorIsPrime | src/day02.rs:77-91 | the smallest divisor above 1 is prime |
| Day02.MuZeroSquare | src/day02.rs:81-86 | μ(n) = 0 only when some square above 1 divides n |
| Day02.MuNonzeroFactors | src/day02.rs:69-93 | when μ(n) ≠ 0, n is a product of strictly increasing primes and μ(n) is (-1) to the power of their count |
| Day02.MuSmall | src/day02.rs:69-93 | μ on 1..10 is 1, -1, -1, 0, -1, 1, -1, 0, 0, 1 |
| Day02.Mobius | src/day02.rs:69-93 | the trial-division loop with its early return on a repeated factor and its final sign flip for a leftover prime computes μ(n) |
| Day02.StripFactor | src/day02.rs:79-88 | dividing out the least prime p: a second copy means μ = 0; otherwise μ flips sign and the cofactor has no factor up to p |
| Day02.PrimeAfterSieve | src/day02.rs:92 | a leftover n > 1 with no factor below p where p² > n is prime, so μ(n) = -1 |
| Day02.Divisors | src/day02.rs:63-66 | exactly the divisors of n in 1..n, in increasing order |
| Day02.ProperDivisors | src/day02.rs:133-136 | exactly the divisors d of len with 2d <= len, in increasing order |
| Day02.RepetitionIffPeriodic | src/day02.rs:127-165 | being a repetition of the first p digits is the same as the string having period p |
| Day02.RotationGcd | src/day02.rs:150-161 | if a string is invariant under rotation by p and by q, it is invariant under rotation by gcd(p, q) |
| Day02.Period | src/day02.rs:150-161 | the least period of a non-empty string: it is a period, and nothing smaller is |
| Day02.PeriodDivides | src/day02.rs:150-161 | for d dividing the length, d is a period exactly when the least period divides d |
| Day02.NonprimitiveIffPeriod | src/day02.rs:122-165 | an id is a repetition of a shorter block exactly when its least period is shorter than its digit string |
| Day02.DoubletIsNonprimitive | src/day02.rs:13-28 | every doublet is non-primitive |
| Day02.NonprimitiveAtLeast11 | src/day02.rs:123-125 | every non-primitive id is at least 11 |
| Day02.NonprimitiveSumBelow11 | src/day02.rs:123-125 | nothing at or below 10 is non-primitive, so the early return of 0 is exact |
| Day02.MobiusSumSmall | src/day02.rs:153-161 | for n up to 10 and p dividing n, the sum of μ(n/m) over the multiples m of p that divide n is 1 when p = n and 0 otherwise |
| Day02.MobiusWeightExact | src/day02.rs:153-161 | for a len-digit id and div up to 10, the Möbius-weighted count of the divisors d of div for which the id repeats a d-digit block is 1 exactly when its least period is div |
| Day02.MobiusTermExact | src/day02.rs:153-161 | Möbius inversion: the sum over d dividing div of μ(div/d) times the d-block repetition sum is the sum of the ids whose least period is exactly div |
| Day02.BandExact | src/day02.rs:137-162 | inside one digit length, the sum over the proper divisors of the exact-period sums is the sum of the non-primitive ids |
| Day02.NonprimitiveSumByLength | src/day02.rs:127 | when the length loop covers digits(start) to digits(end), the sum of the bands is the sum of all non-primitive ids |
| Day02.FillBlockSums | src/day02.rs:140-151 | entry d of the 21-slot table holds the sum of the ids in the band that repeat a d-digit block, for every proper divisor d |
| Day02.InvertBlockSums | src/day02.rs:154-159 | the inner Möbius loop gives the sum of the ids whose least period is exactly div |
| Day02.FillExactSums | src/day02.rs:152-161 | entry div of the second table holds the exact-period sum, for every proper divisor div |
| Day02.SumBand | src/day02.rs:128-162 | the total over one digit length is the sum of the non-primitive ids in the band |
| Day02.U64Digits | src/day02.rs:127-140 | a u64 has at most 20 digits, so the 21-slot tables suffice |
| Day02.SumNonprimitivesInRange | src/day02.rs:122-165 | for end within u64, the result is the sum of the ids in [start, end] that repeat a shorter digit block |
| Day02.DoubletSumAtMostNonprimitiveSum | src/day02.rs:100-165 | on any range the doublet sum is at most the non-primitive sum |
| Day02.TotalDoubletsAtMostNonprimitives | src/day02.rs:19-39 | part 1's total never exceeds part 2's |
| Day02.ParseU64 | src/day02.rs:174-175 | accepts exactly the unsigned decimals that fit in u64 |
| Day02.SplitShowRanges | src/day02.rs:169-171 | splitting the printed range list on commas gives back the printed ranges one by one |
| Day02.ParseShowRange | src/day02.rs:172-177 | a printed `start-end` parses back to the range |
| Day02.CreateShowRanges | src/day02.rs:168-180 | `create` on a printed, comma-separated list of u64 ranges returns that list |
| Day02.SolvePart1 | src/day02.rs:19-25 | the decimal string of the sum over the ranges of their doublet sums |
| Day02.SolvePart2 | src/day02.rs:33-39 | the decimal string of the sum over the ranges of their non-primitive sums |
| Day03.MaxSubsequence | src/day03.rs:37-49 | needs `length <= |digits|`; the kept digits are a subsequence of `length` digits that is lexicographically at least every other one, the value is their decimal fold, and for decimal digits no subsequence of that length has a larger value |
| Day03.ScanDigits | src/day03.rs:38-46 | the stack ends as an order-preserving subsequence of the digits, at least `|digits| - budget` long, and lexicographically above every subsequence that drops at most `budget` digits |
| Day03.PopSmaller | src/day03.rs:41-44 | pops only digits smaller than the new one, one deletion each, stopping when deletions run out |
| Day03.PushKeepsMax | src/day03.rs:40-46 | pushing a digit after the pops keeps the stack lexicographically maximal over the scanned prefix |
| Day03.TruncatedStackIsMax | src/day03.rs:47 | truncating the final stack to `length` digits gives the lexicographic maximum over subsequences of that length |
| Day03.LexLeqValue | src/day03.rs:48 | for equal-length decimal digit lists, lexicographic order implies numeric order of the folded values |
| Day03.BestIsLargest | src/day03.rs:37-49 | the best subsequence has the largest value among all subsequences of its length |
| Day03.BestUnique | src/day03.rs:37-49 | the best subsequence of a given length is unique |
| Day03.ValueIsWeightedSum | src/day03.rs:48 | the fold `acc * 10 + d` equals the sum of dᵢ·10^(k-1-i) |
| Day03.ValueBound | src/day03.rs:48 | a k-digit decimal fold is below 10^k |
| Day03.SumOfMaxima | src/day03.rs:14-34 | one best subsequence per bank, and the total is the sum of their values |
| Day03.SolvePart1 | src/day03.rs:14-20 | the sum over the banks of the best 2-digit value, each bank needing at least 2 digits |
| Day03.SolvePart2 | src/day03.rs:28-34 | the sum over the banks of the best 12-digit value, each bank needing at least 12 digits |
| Day03.ParseBank | src/day03.rs:55 | a line parses exactly when no character is below `0`, into one value `c - '0'` per character |
| Day03.ParseShowBank | src/day03.rs:55 | a printed decimal bank has nothing to trim and parses back to the bank |
| Day03.CreateShowBanks | src/day03.rs:52-58 | `create` on the joined printed banks returns the banks |
| Day04.Occupied | src/day04.rs:88-110 | the set of in-bounds cells holding `@`, and nothing else |
| Day04.ShiftIsNeighbour | src/day04.rs:116-125 | the eight direction offsets reach exactly the cells adjacent to x, diagonals included |
| Day04.NeighbourCountRemove | src/day04.rs:57-62 | removing an occupied cell lowers the neighbour count of each adjacent cell by one and of no other cell |
| Day04.CountNeighbors | src/day04.rs:116-125 | at most 8, and equal to the number of occupied cells adjacent to (r, c) |
| Day04.BuildNeighborCounts | src/day04.rs:127-135 | a grid of the same shape holding each occupied cell's occupied-neighbour count and 0 for empty cells |
| Day04.SolvePart1 | src/day04.rs:16-21 | the number of occupied cells with fewer than four occupied neighbours, at most the number of occupied cells |
| Day04.SeedQueue | src/day04.rs:33-41 | the queue holds each deficient occupied cell once, and the in-queue flags mark exactly those cells |
| Day04.SeedRow | src/day04.rs:36-41 | scanning one more row extends the queue and the flags with exactly that row's deficient cells |
| Day04.ReleaseNeighbours | src/day04.rs:49-68 | after removing a cell, every live neighbour's count is one lower and each one now deficient is queued once |
| Day04.AroundIsNeighbours | src/day04.rs:49 | the cells still to visit from direction 0 are exactly the neighbours |
| Day04.RemoveDeficient | src/day04.rs:43-48 | removing a cell with fewer than four live neighbours keeps every closed set of occupied cells (all members with at least four neighbours inside it) within the live cells |
| Day04.FinalIsCore | src/day04.rs:43-69 | when the queue empties, the live cells are the largest closed set of occupied cells, the 4-core |
| Day04.DeficientOutsideCore | src/day04.rs:16-71 | no cell counted by part 1 is in the core |
| Day04.PeelHead | src/day04.rs:43-68 | one pop keeps the peel invariant: live cells match the work grid, counts are live-neighbour counts, queued cells are flagged once, every closed set stays live |
| Day04.PeelDone | src/day04.rs:43-70 | at the end, removed is the number of occupied cells outside the core, and lies between part 1's answer and the number of occupied cells |
| Day04.SolvePart2 | src/day04.rs:31-71 | the number of cells removed by repeatedly peeling cells with fewer than four neighbours is the number of occupied cells outside the 4-core, at least part 1's answer and at most the number of occupied cells |
| Day04.ParseRow | src/day04.rs:93-100 | a row parses exactly when all its characters are `.` or `@`; then there is one cell per character, occupied exactly at `@` |
| Day04.ParseRows | src/day04.rs:89-102 | one row per line |
| Day04.Create | src/day04.rs:88-110 | a parsed grid is rectangular |
| Day04.ParseShowRow | src/day04.rs:93-100 | a printed row parses back to the row |
| Day05.Insert | src/day05.rs:59-65 | inserting a range into a canonical set (sorted, disjoint, not touching) gives a canonical set holding exactly the old ids and the range's ids |
| Day05.RangeSetOf | src/day05.rs:59-65 | the set built from the ranges is canonical |
| Day05.RangeSetOfContains | src/day05.rs:59-65 | an id is in the built set exactly when some input range contains it |
| Day05.BuildRangeSet | src/day05.rs:59-65 | the insertion loop builds a canonical set whose members are exactly the ids of the input ranges |
| Day05.CanonicalUnique | src/day05.rs:59-65 | two canonical sets with the same members are equal |
| Day05.RangeSetOrderIndependent | src/day05.rs:59-65 | any reordering of the input ranges builds the same set |
| Day05.InsertIdempotent | src/day05.rs:62 | inserting the same range twice is the same as inserting it once |
| Day05.SizeCountsIds | src/day05.rs:31-34 | for a canonical set, the sum of `end - start + 1` over its intervals is the number of distinct ids it holds |
| Day05.CountContainedIsCountFresh | src/day05.rs:17-21 | counting the ids the merged set contains is the same as counting the ids some raw range contains |
| Day05.SolvePart1 | src/day05.rs:16-23 | the number of available ids, duplicates counted, that lie in some fresh range; at most the number of ids |
| Day05.SolvePart2 | src/day05.rs:29-36 | the number of distinct ids covered by the fresh ranges |
| Day05.IndexOfBlank | src/day05.rs:41 | the position of the first blank line, `\n\n`, or the text's length when there is none |
| Day05.ParseShowRange | src/day05.rs:44-47 | a printed `lo-hi` line parses back to the range |
| Day05.SplitAtBlank | src/day05.rs:41-52 | for plain lines, splitting the text at its first blank line gives back the two line lists |
| Day05.CreateShowInput | src/day05.rs:40-57 | `create` on printed range lines, a blank line and printed id lines returns the ranges and the ids |
| Day06.ApplyCommutative | src/day06.rs:73-78 | both operators give the same result for swapped operands |
| Day06.ApplyAssociative | src/day06.rs:73-78 | both operators are associative |
| Day06.ReduceAddIsSum | src/day06.rs:20-23 | folding a non-empty list with `+` gives its sum |
| Day06.ReduceMulIsProduct | src/day06.rs:20-23 | folding a non-empty list with `*` gives its product |
| Day06.ReduceReversed | src/day06.rs:48-53 | folding right to left gives the same value as folding left to right |
| Day06.NumberColumn | src/day06.rs:20 | the j-th number of every row, one per row, in row order |
| Day06.Part1IsSumOfProblems | src/day06.rs:18-27 | part 1 is the sum, over the operators, of the sum or the product of that operator's column of numbers |
| Day06.SolvePart1 | src/day06.rs:18-27 | the answer is the sum, over the operators, of the sum or the product of that operator's column of numbers, one number per row |
| Day06.ColumnDigits | src/day06.rs:38-41 | the column's characters that are decimal digits, top to bottom |
| Day06.NumberForCol | src/day06.rs:37-42 | the decimal number denoted by the column's digits read top to bottom, other characters skipped |
| Day06.ColumnNumbers | src/day06.rs:48-50 | one number per column of the group |
| Day06.GroupNumbers | src/day06.rs:48-50 | a group yields a non-empty list, one number per column |
| Day06.Part2IsSumOfProblems | src/day06.rs:36-55 | part 2 is the sum, over the groups paired with an operator, of the sum or the product of the group's column numbers read right to left |
| Day06.GroupValue | src/day06.rs:48-53 | folding a group with its operator gives the sum or the product of its numbers read right to left |
| Day06.SolvePart2 | src/day06.rs:36-55 | the answer is the sum, over the groups paired with an operator (`zip` stops at the shorter list), of the sum or the product of the group's column numbers read right to left |
| Day06.GroupRightToLeft | src/day06.rs:29-55 | reading a group's columns right to left, as the puzzle describes, gives the same value as the source's left-to-right fold |
| Day06.AnyDigitMeaning | src/day06.rs:107 | the short-circuiting row scan answers whether some row reaching the column has a digit there, and panics exactly when a row too short for the column comes before every row with a digit there |
| Day06.ExtendNonDigit | src/day06.rs:106-115 | a column without digits extends the scanned prefix and adds no run |
| Day06.CloseRun | src/day06.rs:110-119 | closing a run at the first digit-free column (or at the end of the row) appends a maximal run and keeps the runs maximal, ordered and covering |
| Day06.ScanColumn | src/day06.rs:106-115 | one column step keeps the scan state: the closed runs are the maximal runs before the open one, and a run is open exactly when the column has a digit |
| Day06.ColumnRanges | src/day06.rs:104-119 | fails exactly when there is no data row or some column's scan panics; otherwise the ranges are the maximal runs of digit-bearing columns, in order, non-empty and separated, and every digit-bearing column lies in one of them |
| Day06.OpChars | src/day06.rs:88-91 | keeps only the `+` and `*` characters |
| Day06.ParseOps | src/day06.rs:88-92 | the operators read from the line print back as exactly its `+` and `*` characters, in order |
| Day06.ParseNumbers | src/day06.rs:98-99 | one number per token |
| Day06.ParseNumberRows | src/day06.rs:94-101 | one row of numbers per data line |
| Day06.DropTrailingEmpty | src/day06.rs:83-86 | the result is a prefix of the lines, it does not end in an empty line, and every line dropped is empty |
| Day06.Create | src/day06.rs:82-126 | fails exactly when no non-empty line is left, a data token is not a number, or a column scan panics; on success the grid is the lines before the operator line, the number grid is their parse, the operators are the parse of the last non-empty line (its `+`/`*` characters), and the column groups are the maximal digit runs of the first data row |
| Day07.UniquePush | src/day07.rs:74-78 | the result ends in `pos`; it is unchanged exactly when the list already ends in `pos`, and otherwise `pos` is appended |
| Day07.UniquePushNoAdjacentDup | src/day07.rs:74-78 | a list without equal neighbours keeps that property |
| Day07.UniquePushElements | src/day07.rs:74-78 | the members afterwards are the old members and `pos` |
| Day07.PushMoves | src/day07.rs:27-35 | a beam's successors can be pushed exactly when it is not in column 0 above a splitter, where `c - 1` underflows |
| Day07.FrontierShape | src/day07.rs:26-36 | the next frontier has no equal neighbours and at most twice as many beams |
| Day07.FrontierBlocked | src/day07.rs:26-36 | one row step fails exactly when some beam is in column 0 above a splitter |
| Day07.FrontierMoves | src/day07.rs:26-36 | the next frontier's positions are exactly the successors of the current beams |
| Day07.SplitCount | src/day07.rs:29-30 | the splits counted in one row step number at most the beams |
| Day07.PushBeam | src/day07.rs:28-35 | one beam's step pushes its successors and reports whether it split |
| Day07.Advance | src/day07.rs:26-37 | the inner loop builds the next frontier and counts the beams that split |
| Day07.FrontierRow | src/day07.rs:25-37 | after k steps from one row every beam is k rows lower |
| Day07.SplitsDefined | src/day07.rs:25-37 | the step loop finishes exactly when the frontier never fails |
| Day07.SplitsJam | src/day07.rs:20-40 | the simulation from the start fails exactly when some beam path reaches column 0 above a splitter within the steps |
| Day07.MaxRow | src/day07.rs:104-106 | the largest row among the splitters |
| Day07.LastSplitterRow | src/day07.rs:104-106 | computes the largest splitter row |
| Day07.CountStep | src/day07.rs:26-37 | one outer iteration advances the frontier and adds its splits to the count |
| Day07.CountSplits | src/day07.rs:21-39 | the loop computes the split count of the simulation for the given number of steps, or fails where the source panics |
| Day07.FrontierAscending | src/day07.rs:26-36 | with no two splitters side by side, the frontier stays strictly increasing in column |
| Day07.SplitCountDistinct | src/day07.rs:29-30 | on a strictly increasing frontier each counted split is a different splitter |
| Day07.HitStep | src/day07.rs:25-37 | the splitters met from a frontier are those directly below it plus, disjointly, those met from the next frontier |
| Day07.SplitsCountHits | src/day07.rs:20-40 | with no two splitters side by side, the count is the number of distinct splitters any beam path meets |
| Day07.SolvePart1 | src/day07.rs:20-40 | runs from the start row to the last splitter row; fails exactly when a path jams; with spaced splitters the count is the number of distinct splitters met |
| Day07.Timelines | src/day07.rs:51-69 | at least one timeline leaves every position that does not jam |
| Day07.WeightedAdd | src/day07.rs:58-63 | adding `count` at a key raises the weighted total by `count` times that key's weight |
| Day07.MoveWeighted | src/day07.rs:57-64 | moving a position's count on to its successors raises the weighted total by count times the successors' weights |
| Day07.SpreadStep | src/day07.rs:57-64 | one inner iteration keeps the spread invariant: totals, remaining timelines and successor sets agree with the positions processed |
| Day07.MoveCount | src/day07.rs:58-63 | fails exactly where the source underflows, and otherwise deposits the count on the successors |
| Day07.Spread | src/day07.rs:55-66 | the next map keeps the remaining timeline count, adds one count per split to the total, and holds exactly the successors of the current positions |
| Day07.SpreadJams | src/day07.rs:55-66 | some current position jams within k steps exactly when some successor jams within k - 1 |
| Day07.CarryStep | src/day07.rs:55-66 | one outer iteration keeps the timelines-to-go equal to the start's timelines, or reports a jam |
| Day07.SumCounts | src/day07.rs:68 | the sum of the map's values |
| Day07.SolvePart2 | src/day07.rs:51-69 | the number of timelines from the start to the last splitter row, at least 1; fails exactly when a path jams |
| Day07.CountTimelines | src/day07.rs:52-68 | the map simulation counts the timelines of the recursive definition |
| Day07.Rows | src/day07.rs:84-85 | one trimmed row per line of the trimmed input |
| Day07.Create | src/day07.rs:81-102 | fails exactly when there is no `S`; the splitters are the `^` cells; the start is the last `S` in reading order |
| Day07.ScanDone | src/day07.rs:84-100 | after the scan the start is the last `S` cell, or none when the grid has no `S` |
| Day08.Root | src/day08.rs:112-116 | following parent links from i ends at a node that is its own parent |
| Day08.RootIsSelf | src/day08.rs:114 | a node is its own root exactly when it is its own parent |
| Day08.Compress | src/day08.rs:117-121 | pointing a node straight at its root keeps the forest well founded and changes no node's root |
| Day08.Link | src/day08.rs:134 | hanging root rb under root ra keeps the forest well founded and moves exactly the nodes of rb's tree to ra |
| Day08.LinkStep | src/day08.rs:131-136 | linking two roots with the size update keeps the forest invariant (tree sizes stored at roots, `components` counts the roots) with one component fewer, and fuses exactly the two circuits |
| Day08.NoUnionEffect | src/day08.rs:128-130 | when both ends already share a root, union reports false and the circuits stay the same |
| Day08.UnionEffect | src/day08.rs:131-137 | when the roots differ, the smaller tree hangs under the larger, and union reports true |
| Day08.ClimbToRoot | src/day08.rs:113-116 | the first loop of `find` reaches x's root |
| Day08.CompressPath | src/day08.rs:117-121 | the second loop of `find` keeps the forest invariant and every node's root |
| Day08.FindIn | src/day08.rs:112-123 | returns x's root; the forest after path compression has the same circuits |
| Day08.UnionIn | src/day08.rs:125-138 | union by size: merged is true exactly when a and b were in different circuits; then those two circuits fuse and the component count drops by one; otherwise nothing observable changes |
| Day08.AllTreeSizes | src/day08.rs:140-152 | the roots' tree sizes number `components` and add up to the number of nodes |
| Day08.ComponentSizesIn | src/day08.rs:140-152 | one size per circuit, `components` of them, summing to the number of nodes; circuits unchanged |
| Day08.Dsu.constructor | src/day08.rs:104-110 | n singleton circuits: every node is its own parent with size 1, and `components` is n |
| Day08.Dsu.Find | src/day08.rs:112-123 | returns the old root of x; circuits, sizes and component count unchanged |
| Day08.Dsu.Union | src/day08.rs:125-138 | the union-by-size step on the object's fields, with the same guarantees as the value-level union |
| Day08.Dsu.ComponentSizes | src/day08.rs:140-152 | the circuit sizes in root order, `components` of them summing to the number of nodes |
| Day08.Dist2Metric | src/day08.rs:67-72 | the squared distance is symmetric and 0 exactly for equal points |
| Day08.AllPairsFacts | src/day08.rs:81-95 | the edges are exactly the pairs i < j, in increasing (i, j) order, n(n-1)/2 of them |
| Day08.EdgesBelowCount | src/day08.rs:83-93 | after the rows below k there are k(2n - k - 1)/2 edges |
| Day08.AllEdges | src/day08.rs:81-95 | the nested loops build exactly the list of all pairs |
| Day08.JoinFuses | src/day08.rs:125-138 | the circuit labels after joining a and b: two nodes share a label exactly when they did before or both were in a's or b's circuit |
| Day08.UnionJoin | src/day08.rs:125-138 | a union keeps the union-find forest in step with the label specification, and merges exactly when the labels differed |
| Day08.LabelsSnoc | src/day08.rs:162-164 | connecting one more edge joins its ends' circuits, and counts a merge exactly when they were apart |
| Day08.TreeIsClass | src/day08.rs:140-152 | a root's tree is exactly its circuit |
| Day08.TreeSizesAreClassSizes | src/day08.rs:140-152 | the reported sizes are the circuit sizes, one per circuit |
| Day08.SortedPairsClosestFirst | src/day08.rs:24 | sorting all pairs by squared distance gives a closest-first order |
| Day08.ClosestFirstUnique | src/day08.rs:24 | with pairwise distinct distances, the closest-first order is unique |
| Day08.ClosestFirstFacts | src/day08.rs:24 | a closest-first order lists every pair once, by non-decreasing distance |
| Day08.Largest3Facts | src/day08.rs:166-167 | at most three sizes are kept, they come from the list, and every size left out is at most every size kept |
| Day08.Connect | src/day08.rs:162-164 | one edge of part 1 keeps the forest in step with the labels of the edges so far |
| Day08.ConnectAll | src/day08.rs:161-164 | after the loop the forest's circuits are those of the chosen edges |
| Day08.ConnectedProduct | src/day08.rs:161-167 | the product of the three largest circuit sizes after connecting the chosen edges; the sizes add up to n |
| Day08.ShortConnectionsProduct | src/day08.rs:155-168 | fails exactly when no edge is chosen (count 0 or fewer than two points), where `k - 1` underflows; otherwise the product of the three largest circuit sizes after the `count` closest pairs |
| Day08.MergesMonotone | src/day08.rs:26-34 | a prefix of the edges merges no more than the whole list |
| Day08.ForestHasRoot | src/day08.rs:104-110 | a non-empty forest has at least one component |
| Day08.ConnectTracked | src/day08.rs:27-33 | one edge of part 2 updates the last merging edge and the merge count |
| Day08.ConnectUntilOne | src/day08.rs:25-34 | the loop stops at the edge that leaves one circuit, or after all edges, and reports the last merging edge |
| Day08.LastMergeFinal | src/day08.rs:26-34 | the recorded edge is the last merge: the one reaching one circuit, or the last merge of all edges |
| Day08.JoinLabelSet | src/day08.rs:125-137 | joining two boxes in different circuits retires exactly one circuit label; joining boxes already together changes no label |
| Day08.MergesCountCircuits | src/day08.rs:104-137 | the merges so far and the circuits left always add up to the number of boxes, as `components` starts at n and drops by one per merge |
| Day08.StaysConnected | src/day08.rs:26-34 | two boxes in one circuit stay in one circuit as more pairs are connected |
| Day08.AllPairsConnect | src/day08.rs:16-34 | connecting every pair of at least one box, closest first, leaves a single circuit after n - 1 merges |
| Day08.SolvePart2 | src/day08.rs:16-39 | fails exactly when there are fewer than two boxes, where `unwrap` panics; otherwise the product of the x coordinates of the pair that joined the final two circuits: two circuits were left before it and one after it |
| Day08.ParsePoint | src/day08.rs:48-52 | a parsed line has at least three comma-separated fields |
| Day08.ParsePoints | src/day08.rs:44-54 | one point per line |
| Day08.ShowPointPlain | src/day08.rs:43-56 | a printed point is one non-blank line without surrounding whitespace |
| Day08.ParseShowPoint | src/day08.rs:48-52 | a printed point `x,y,z` parses back to the point |
| Day08.CreateShowPoints | src/day08.rs:43-56 | `create` on the printed points, one per line, returns the points |
| Day09.InclusiveArea | src/day09.rs:108-112 | the tile count is at least the rectangle's width and at least its height, both borders included |
| Day09.InclusiveAreaFacts | src/day09.rs:108-112 | the area does not depend on the order of the corners and is at least 1 |
| Day09.AreaBound | src/day09.rs:24-25 | a rectangle whose width and height are within w and h has at most w·h tiles |
| Day09.Dedup | src/day09.rs:120-122 | on a sorted list: strictly increasing, the same values, and the same first value |
| Day09.Axis | src/day09.rs:117-122 | sorting and deduplicating gives the distinct values in strictly increasing order |
| Day09.AxisIndex | src/day09.rs:123-134 | the map sends each axis value to its position and has no other keys |
| Day09.AxisIndexSnoc | src/day09.rs:123-134 | adding the next value at its position extends the index of the shorter axis to the longer one |
| Day09.CompressAxes | src/day09.rs:116-136 | both axes are strictly increasing, hold exactly the points' x and y values, and their index maps send each value to its position |
| Day09.CompressCovers | src/day09.rs:58-66 | every point's coordinates are in the index maps and between the axis ends, so the `unwrap`s succeed |
| Day09.EdgesUpTo | src/day09.rs:142 | one edge list per distinct x |
| Day09.BuildVerticalEdges | src/day09.rs:139-157 | the loop over consecutive points, closing the loop at the end, builds the vertical-edge table of the polygon |
| Day09.EdgesUpToMembers | src/day09.rs:144-154 | a column's list holds exactly the y spans of the polygon's vertical edges at that x |
| Day09.InsideCountColumnZero | src/day09.rs:163 | the prefix table's column 0 is 0 |
| Day09.FlipAcross | src/day09.rs:170-176 | the inside flag flips once per edge in the column that spans the whole cell row |
| Day09.ColumnStep | src/day09.rs:169-180 | one column step keeps the flag equal to the parity of crossings so far and the row sum equal to the inside cells so far |
| Day09.FillRow | src/day09.rs:167-181 | each entry of the new row is the entry above plus the inside cells of this row before that column |
| Day09.BuildPrefixSums | src/day09.rs:160-184 | entry (r, c) of the table is the number of inside cells in the rows above r and the columns before c |
| Day09.PrefixRowStep | src/day09.rs:164-181 | filling row r + 1 extends the prefix property from the rows up to r |
| Day09.InsideCountSplit | src/day09.rs:187-189 | inclusion–exclusion over the prefix counts gives the inside cells of a rectangle of cells |
| Day09.RectSumCounts | src/day09.rs:187-189 | `rect_sum` on a prefix table is the number of inside cells in the rectangle |
| Day09.RowSpanFull | src/day09.rs:71-73 | a row's inside count over a span is at most its width, and equal to it exactly when every cell is inside |
| Day09.RectCountFull | src/day09.rs:71-73 | the inside count of a rectangle is at most its cell count, and equal exactly when every cell is inside |
| Day09.SortedTilesFacts | src/day09.rs:100-104 | the sorted points are ordered by x and are a permutation of the points |
| Day09.MinY | src/day09.rs:17 | the smallest y among the points |
| Day09.MaxY | src/day09.rs:18 | the largest y among the points |
| Day09.PruneSound | src/day09.rs:19-27 | no partner after corner i gives more tiles than the width to the last x times the full y range, so skipping on that bound loses nothing |
| Day09.ScanPairs | src/day09.rs:28-30 | the inner loop raises `best` to at least the area of corner i with every later corner, and `best` stays the area of some pair (or 0) |
| Day09.PartnersOf | src/day09.rs:23-31 | one outer iteration, with the pruning test, gives the same guarantee |
| Day09.SolvePart1 | src/day09.rs:16-33 | fails exactly on no points (the `unwrap` of the minimum); otherwise the largest tile area of a rectangle with two of the points as opposite corners |
| Day09.CellBox | src/day09.rs:58-70 | the compressed cell box of two corners lies within the axes |
| Day09.AcceptIffEnclosed | src/day09.rs:71-73 | the test `actual == target` holds exactly when every compressed cell of the rectangle is inside the polygon |
| Day09.TestEnclosed | src/day09.rs:65-73 | the test reports whether the rectangle's cells all lie inside the polygon |
| Day09.ScanEnclosed | src/day09.rs:60-76 | the inner loop raises `best` to at least the area of every enclosed pair of corner i with a later corner, and `best` stays the area of some enclosed pair (or 0) |
| Day09.EnclosedPartnersOf | src/day09.rs:53-77 | one outer iteration, with the pruning test, gives the same guarantee |
| Day09.MaxEnclosed | src/day09.rs:52-78 | the largest area over enclosed pairs of corners |
| Day09.PrepareTables | src/day09.rs:46-48 | builds the compressed axes, the vertical edges and a prefix table for them |
| Day09.SortedTilesReady | src/day09.rs:49-51 | the sorted corners are ordered by x, all indexed, and within the y axis |
| Day09.SolvePart2 | src/day09.rs:45-79 | fails exactly on no points; otherwise the largest tile area of a rectangle with two of the points as opposite corners whose cells all lie inside the polygon |
| Day09.Part2AtMostPart1 | src/day09.rs:16-79 | part 2's answer never exceeds part 1's |
| Day09.ParseTile | src/day09.rs:90-93 | a parsed line has at least two comma-separated fields |
| Day09.ParseTiles | src/day09.rs:86-95 | one point per line |
| Day09.ParseShowTile | src/day09.rs:90-93 | a printed `x,y` parses back to the point |
| Day09.CreateShowTiles | src/day09.rs:85-97 | `create` on the printed points, one per line, returns the points |
| Day10.XorBit | src/day10.rs:103 | bit s of a ^ b is set exactly when it is set in one of a and b |
| Day10.OrBit | src/day10.rs:62 | bit s of a \| b is set exactly when it is set in a or in b |
| Day10.Pow2Bit | src/day10.rs:62 | 1 << t has exactly bit t set |
| Day10.XorBelow | src/day10.rs:103-108 | xor of two n-bit values is an n-bit value |
| Day10.PressOnce | src/day10.rs:102-103 | pressing one more button after k presses that light s lights s ^ mask in k + 1 presses |
| Day10.PatternBelow | src/day10.rs:96-108 | when every button fits the lights, every press pattern stays below 2^n, inside the visited table |
| Day10.DistinctStates | src/day10.rs:108-110 | a queue of distinct states has one state per entry |
| Day10.QueueBounded | src/day10.rs:96-97 | at most 2^n states are ever queued |
| Day10.Push | src/day10.rs:107-110 | queueing an unvisited state at depth d + 1 keeps the search invariant: every queued state is lit by exactly its depth in presses, states are distinct and marked, depths never decrease |
| Day10.Skip | src/day10.rs:107-108 | skipping an already visited or out-of-range state keeps the invariant |
| Day10.Pop | src/day10.rs:101-112 | after all buttons are tried on the head, the search invariant holds one entry further on |
| Day10.NoShorter | src/day10.rs:101-113 | no press count shorter than the head's next depth lights the goal |
| Day10.Complete | src/day10.rs:101-113 | any press sequence reaching the goal passes through states the search has seen at the same depth |
| Day10.TryButton | src/day10.rs:103-111 | one button: reports when it lights the goal, otherwise queues its state if new and keeps the invariant |
| Day10.Expand | src/day10.rs:102-112 | trying all buttons on the head either finds the goal in one more press or keeps the invariant with the head expanded |
| Day10.Found | src/day10.rs:104-106 | the returned depth + 1 presses light the goal, and no fewer do when the buttons fit the lights |
| Day10.Exhausted | src/day10.rs:101-114 | an empty queue means no non-empty press sequence lights the goal |
| Day10.MinLightingPresses | src/day10.rs:94-115 | for fewer than 64 lights: Some(n) means n >= 1 presses light the goal and, when the buttons fit, no fewer do; None means no press sequence does |
| Day10.SolvePart1 | src/day10.rs:19-25 | the sum of each machine's fewest presses, or failure when some machine has no answer or too many lights |
| Day10.TrimStartMatches | src/day10.rs:57 | drops exactly the leading run of the character |
| Day10.TrimEndMatches | src/day10.rs:66 | drops exactly the trailing run of the character |
| Day10.GoalFails | src/day10.rs:59-64 | reading the lights fails exactly when a `#` lies 16 or more places from the end, beyond `u16` |
| Day10.GoalBits | src/day10.rs:59-64 | goal bit s is set exactly when the character s places from the end is `#` |
| Day10.MaskFails | src/day10.rs:78-81 | building a mask fails exactly when some wire is out of range or 16 or more places from the end |
| Day10.MaskBits | src/day10.rs:78-81 | mask bit s is set exactly for the wires w with s = n - 1 - w |
| Day10.LightingGoal | src/day10.rs:59-64 | the loop computes the goal pattern of the lights |
| Day10.ButtonMask | src/day10.rs:78-81 | the loop computes the mask of the wires |
| Day10.MachineGoal | src/day10.rs:54-64 | a parsed machine's light count is the length of the bracket text, and its goal has bit s set exactly where that text has `#` s places from the end |
| Day10.ButtonsFit | src/day10.rs:72-84 | every parsed button's mask fits the lights and has exactly the bits of its wires |
| Day10.MachineButtons | src/day10.rs:72-84 | a parsed machine has one mask per wire list, each fitting its lights and wired as listed |
| Day10.ReadButtons | src/day10.rs:72-84 | the loop over the `(` segments gives the masks and wire lists of the functional reading |
| Day10.FromLine | src/day10.rs:54-92 | the method reads a line into the machine the functional reading describes |
| Day10.ReadMachines | src/day10.rs:258 | one machine per line, failing on the first bad line |
| Day10.Create | src/day10.rs:257-260 | the machines of the trimmed input's lines |
| Day10.CreatedMachinesFit | src/day10.rs:257-260 | every machine `create` reads has its buttons within its lights |
| Day11.ParseLineParts | src/day11.rs:43-45 | a line fails exactly when its trimmed text has no `": "`; otherwise the device is the text before the first one and its outputs are exactly the whitespace-separated words after it |
| Day11.CollectFacts | src/day11.rs:41-47 | collecting the pairs gives a map whose keys are the devices named, and a device named once maps to its outputs (a later line for the same device replaces an earlier one) |
| Day11.CreateFails | src/day11.rs:40-49 | `create` fails exactly when some line of the trimmed input has no `": "` |
| Day11.CreateCollects | src/day11.rs:40-49 | a successful `create` is the collection of the lines' parses, one pair per line |
| Day11.PathsAreFirstArrivals | src/day11.rs:51-76 | the paths counted are exactly the node sequences from s that follow edges and stop at their first arrival at e |
| Day11.ConsPath | src/day11.rs:66-69 | prefixing s to a path from one of its successors gives a path from s |
| Day11.TailPath | src/day11.rs:66-69 | a path from s ≠ e continues through a successor of s |
| Day11.PathRanks | src/day11.rs:51-76 | along every counted path the rank strictly falls, so the graph is acyclic where it is walked |
| Day11.NoCycle | src/day11.rs:51-76 | for distinct devices a and b, paths cannot run both from a to b and from b to a |
| Day11.CountIsPaths | src/day11.rs:51-76 | the recursive count equals the number of distinct paths from s to e |
| Day11.SelectedSize | src/day11.rs:24-34 | the paths from s to e that pass the checkpoints in the given order number the product of the path counts between consecutive checkpoints |
| Day11.ThroughBothOrders | src/day11.rs:24-34 | a path through both a and b visits them in one of the two orders |
| Day11.OrdersDisjoint | src/day11.rs:24-34 | no path visits a before b and b before a |
| Day11.ThroughBothSize | src/day11.rs:24-34 | the paths through both a and b number count(s,a)·count(a,b)·count(b,e) + count(s,b)·count(b,a)·count(a,e) |
| Day11.ThroughBothPaths | src/day11.rs:24-34 | the same identity stated with path sets on both sides |
| Day11.Dfs | src/day11.rs:52-73 | returns the number of paths from the node to the end, and leaves the memo holding only correct counts, including the node's |
| Day11.VisitSuccessors | src/day11.rs:65-70 | the loop over the neighbours sums their path counts |
| Day11.CountPaths | src/day11.rs:51-76 | the number of distinct paths from start to end |
| Day11.SolvePart1 | src/day11.rs:14-16 | the number of paths from `you` to `out` |
| Day11.CountVia | src/day11.rs:25-28 | the product of the path counts s→a, a→b and b→e |
| Day11.SolvePart2 | src/day11.rs:24-34 | the number of paths from `svr` to `out` that pass through both `dac` and `fft` |
| Day12.OnlyNamedWordsChange | src/day12.rs:264-275 | applying or removing a placement leaves every word it does not name unchanged |
| Day12.FlipIsMask | src/day12.rs:271-275 | when a placement names each word once, toggling its chunks into a word flips exactly the bits it covers there |
| Day12.FitsIffDisjoint | src/day12.rs:254-261 | `fits` holds exactly when the placement's bits meet no occupied bit in any word of the grid |
| Day12.ApplyUnapply | src/day12.rs:264-275 | removing a placement just applied to a grid it fits restores the grid, which is what lets the search undo a move |
| Day12.Swap | src/day12.rs:237-248 | two placements that fit one after the other fit in the other order too and give the same grid |
| Day12.Apply | src/day12.rs:264-268 | the grid afterwards is the old grid with the placement's bits set |
| Day12.Unapply | src/day12.rs:271-275 | the grid afterwards is the old grid with the placement's bits toggled |
| Day12.Take | src/day12.rs:242 | taking one piece of type t keeps the number of types and lowers the total of pieces by one |
| Day12.PackableStep | src/day12.rs:241-244 | placing one fitting piece on the grid and packing the rest packs everything |
| Day12.PackableFirst | src/day12.rs:188-251 | every packable state with pieces left has a first move: a type with pieces left and a fitting placement after which the rest is packable |
| Day12.TakeCommutes | src/day12.rs:242 | taking one piece of each of two types gives the same counts in either order |
| Day12.AnyTypeFirst | src/day12.rs:206-243 | if a state is packable, it can be packed starting with any type that has pieces left, which is why trying only the chosen type loses no solution |
| Day12.Exhausted | src/day12.rs:237-250 | when no fitting placement of a type with pieces left leads to a packable state, the state is not packable |
| Day12.FitCount | src/day12.rs:214-222 | the number of fitting placements never exceeds the list, and is zero exactly when none of them fits |
| Day12.FitCountPrefix | src/day12.rs:215-221 | a prefix of a placement list has no more fitting placements than the whole list |
| Day12.CountFits | src/day12.rs:214-222 | without a cap the count of fitting placements; with a cap, that count cut off at the cap, matching the early `break` |
| Day12.ChooseType | src/day12.rs:206-234 | none only when some type with pieces left has no fitting placement; otherwise a type from the list with pieces left and at least one fitting placement, and no such type has fewer |
| Day12.ConsiderType | src/day12.rs:209-233 | one step of the choice: stuck exactly when the type has no fitting placement, otherwise the type replaces the best only when it has strictly fewer fits, and the best so far stays the fewest |
| Day12.FewestFirst | src/day12.rs:227-229 | the first type with pieces left and some fitting placement is the fewest among the types seen so far |
| Day12.FewestReplace | src/day12.rs:227-229 | a type with strictly fewer fits becomes the fewest so far |
| Day12.FewestExtend | src/day12.rs:209-227 | a type with no pieces left or at least as many fits keeps the current choice the fewest |
| Day12.DfsPack | src/day12.rs:188-251 | returns whether the pieces left can all be placed on the grid; on success no pieces remain, on failure grid and counts are as they were, and the memo only grows and holds only unpackable states |
| Day12.TryType | src/day12.rs:235-250 | trying every fitting placement of the chosen type answers whether the state is packable, and restores the state on failure |
| Day12.TryPlacement | src/day12.rs:241-247 | after one placement, the recursion answers whether the rest is packable, and the placement is undone on failure |
| Day12.FindWord | src/day12.rs:117 | the position of the first chunk for the given word, or the list's length when there is none |
| Day12.MaskGrow | src/day12.rs:117-118 | or-ing bits into a chunk adds them to that chunk's word and to no other |
| Day12.AddCellCovers | src/day12.rs:112-121 | adding a cell keeps one chunk per word and covers exactly the old cells plus the new one |
| Day12.EncodeDistinct | src/day12.rs:110-122 | an encoded placement never names a word twice |
| Day12.EncodeCovers | src/day12.rs:110-122 | an encoded placement covers exactly the cells of the variant moved to (x0, y0), as `y * w + x` |
| Day12.EncodeWords | src/day12.rs:110-122 | every chunk of an encoded placement is the word `idx / 64` of one of its cells |
| Day12.Encode | src/day12.rs:110-122 | the chunks built by the loop over the variant's cells are the encoding of that placement |
| Day12.IndexInRegion | src/day12.rs:114-115 | a cell inside the region has an index below `w * h` and a word index below the number of words |
| Day12.IndexUnique | src/day12.rs:114 | two cells of one row width with the same index are the same cell |
| Day12.EncodedInGrid | src/day12.rs:106-115 | a placement of a variant that fits inside the region names only words of the region's grid |
| Day12.CoveredInRegion | src/day12.rs:108-116 | each cell a placement covers is inside the region and is one of the variant's cells moved by (x0, y0) |
| Day12.OneBitPerCell | src/day12.rs:111-116 | distinct cells of a variant map to distinct bits |
| Day12.PlacementAtFacts | src/day12.rs:108-123 | the placement at (x0, y0) is well formed for the region's grid and covers the variant moved there |
| Day12.RowFacts | src/day12.rs:109-124 | the placements of one row are well formed and offer the variant at every x0 that fits |
| Day12.RowsFacts | src/day12.rs:108-125 | the placements of the first rows are well formed translates of the variant and offer it at every position in them |
| Day12.PlacementsWellFormed | src/day12.rs:100-128 | every generated placement is well formed for the region and is a translate of one of the shape's variants |
| Day12.PlacementsComplete | src/day12.rs:100-128 | every variant is offered at every position where it fits in the region |
| Day12.PlacementsSnoc | src/day12.rs:102-107 | a variant larger than the region adds no placement; otherwise it adds its rows of placements |
| Day12.GenerateRow | src/day12.rs:109-124 | the placements of one row, in x order |
| Day12.GenerateRows | src/day12.rs:108-125 | the placements of the first rows, row by row |
| Day12.Generate | src/day12.rs:100-128 | the placement list of the shape in the region, variant by variant |
| Day12.Oriented | src/day12.rs:366-381 | flipping and rotating keeps the number of cells |
| Day12.MinOf | src/day12.rs:382-383 | the least element: below or equal to every element, and one of them |
| Day12.MaxOf | src/day12.rs:388-389 | the greatest element: at least every element, and one of them |
| Day12.CellKeyIsLexicographic | src/day12.rs:396 | for cells below 256 the sort key orders cells by x then y, and two keys are equal only for equal cells |
| Day12.NormalizedMins | src/day12.rs:382-387 | after normalisation the least x and the least y are zero |
| Day12.NormalizedNonNegative | src/day12.rs:382-387 | after normalisation no coordinate is negative |
| Day12.VariantInBox | src/day12.rs:388-395 | every cell of a variant lies inside its w × h box |
| Day12.VariantOfFacts | src/day12.rs:382-396 | a variant's width and height are one more than the largest normalised coordinates, its cells are sorted and a permutation of the normalised cells |
| Day12.AllOrientations | src/day12.rs:364-365 | two flips times four rotations give eight orientations |
| Day12.AllOrientationsAt | src/day12.rs:364-381 | orientation number (flip ? 4 : 0) + rot is the variant built from that flip and rotation |
| Day12.Dedup | src/day12.rs:397-403 | keeping first occurrences never lengthens the list |
| Day12.DedupFacts | src/day12.rs:397-403 | the kept variants come from the input, have pairwise different cells, and every input variant's cells are among them |
| Day12.OrientVariant | src/day12.rs:366-403 | the variant built for one flip and rotation |
| Day12.OrientAll | src/day12.rs:366-381 | the coordinates after one flip and rotation |
| Day12.Normalize | src/day12.rs:382-387 | the coordinates shifted so their least x and y are zero |
| Day12.GenVariants | src/day12.rs:361-407 | the distinct orientations of the shape, in first-seen order |
| Day12.VariantsFacts | src/day12.rs:361-407 | at most eight variants, pairwise different, each an orientation inside its box, and every orientation is represented |
| Day12.RegionLineParts | src/day12.rs:348-359 | a region line is two non-empty digit strings joined by `x`, then `:` and the rest |
| Day12.RegionLineOf | src/day12.rs:348-359 | every such text is a region line |
| Day12.ShapeHeader | src/day12.rs:290 | a label exactly when the line ends in `:`, the label being the text before it |
| Day12.BlockEnd | src/day12.rs:294-297 | the grid lines run up to the first empty line or the end |
| Day12.Record | src/day12.rs:298-301 | recording grid `idx` grows the table to reach `idx`, fills the new slots with nothing and changes only slot `idx` |
| Day12.ShapeSection | src/day12.rs:281-305 | the shape section stops at a region line or the end of input |
| Day12.ShapeSectionHeader | src/day12.rs:290-301 | a header whose label is not a number fails; otherwise its grid is recorded and reading resumes after it |
| Day12.ReadBlock | src/day12.rs:293-297 | the grid lines after a header and the index where they end |
| Day12.ParseShapes | src/day12.rs:279-305 | the loop over the shape section computes the section's table and where the regions begin |
| Day12.RowCellsSound | src/day12.rs:312-316 | every cell read from a row is a `#` of that row |
| Day12.GridCellsSound | src/day12.rs:311-317 | every cell read from a grid is a `#` of that grid |
| Day12.RowCellsComplete | src/day12.rs:312-316 | every `#` of a row is read |
| Day12.GridCellsComplete | src/day12.rs:311-317 | every `#` of a grid is read |
| Day12.ReadCells | src/day12.rs:310-318 | the cells of the grid, row by row and left to right |
| Day12.ParseCount | src/day12.rs:338 | a count parses only when it fits a `u8` |
| Day12.ParseRegion | src/day12.rs:332-343 | a parsed region has a count for every shape, padded with zeros |
| Day12.PadCounts | src/day12.rs:340-342 | the counts are kept and zeros added up to the number of shapes |
| Day12.ParseRegions | src/day12.rs:322-344 | the regions from the given line on: non-region lines skipped, any malformed region line failing the whole parse |
| Day12.TrimmedLines | src/day12.rs:278 | one trimmed line per line of the input |
| Day12.ParseInput | src/day12.rs:277-346 | the shapes' cells and the regions, failing where the source panics: a label that is not a number, a missing label, a malformed region |
| Day12.MakeShape | src/day12.rs:59-63 | a shape's area is its number of cells and its variants those generated |
| Day12.BuildShapes | src/day12.rs:57-64 | one shape per cell list, failing on an empty one |
| Day12.Create | src/day12.rs:55-66 | the puzzle read from the input, or failure where the source panics |
| Day12.DayOfFacts | src/day12.rs:55-66 | a created puzzle has shapes whose variants lie in their boxes, positive areas, and a count for every shape in every region |
| Day12.RegionLists | src/day12.rs:154-166 | one placement list per shape |
| Day12.RegionListsWellFormed | src/day12.rs:154-168 | every placement listed for the region is well formed for its grid |
| Day12.NoPlacementNoFit | src/day12.rs:160-163 | a needed shape with no placement makes the region unpackable |
| Day12.GatherPlacements | src/day12.rs:154-166 | either a needed shape with no placement, or the region's placement lists and a list of types that holds every needed shape |
| Day12.RegionCanFit | src/day12.rs:136-180 | true exactly when the region names a count per shape, the pieces' area fits and the pieces can all be placed without overlap |
| Day12.NoOverflow | src/day12.rs:20-29 | when the marking loop finishes, no region asks for a shape that does not exist |
| Day12.UsedShapes | src/day12.rs:20-29 | fails exactly when a region asks for a missing shape (the source's index panic); otherwise marks every shape some region asks for and collects every region size |
| Day12.PlacementMap | src/day12.rs:30-39 | every used shape in every collected size has its generated placement list in the map |
| Day12.SolvePart1 | src/day12.rs:19-47 | the number of regions that can fit their pieces, failing exactly when a region asks for a missing shape |
| Text.DigitChar | src/day03.rs:55 | the character of a digit is a digit whose value is that digit |
| Text.Pow10Add | src/day02.rs:49-51 | 10^(a+b) = 10^a · 10^b |
| Text.DigitsValueAppend | src/day02.rs:96-98 | the value of a concatenation of digit strings is the first value shifted by the second's length plus the second value |
| Text.DigitsValueBounds | src/day02.rs:43-45 | a digit string of length n has a value below 10^n, and at least 10^(n-1) when it has no leading zero |
| Text.ShowDigitsValue | src/day02.rs:24 | printing the value of a digit string with no leading zero gives the string back |
| Text.ParseUnsigned | src/day05.rs:46 | parsing succeeds exactly on a non-empty digit string, optionally after one `+`, as Rust's unsigned `parse` does |
| Text.Show | src/day02.rs:24 | the decimal text of a number is a non-empty digit string with no leading zero unless the number is 0 |
| Text.ShowValue | src/day02.rs:24 | the value of a number's decimal text is the number |
| Text.ParseShow | src/day05.rs:46 | parsing the decimal text of a number gives the number back, unsigned or signed |
| Text.ShowSigned | src/day08.rs:49-51 | the text of an integer is digits with at most a leading minus sign |
| Text.ParseShowSigned | src/day08.rs:49-51 | parsing the text of an integer gives it back |
| Text.FloorDiv | src/day01.rs:36 | the quotient rounded down: q·b ≤ a < q·b + b, also for negative a |
| Text.CeilDiv | src/day01.rs:38 | the quotient rounded up: q·b − b < a ≤ q·b, also for negative a |
| Text.IndexOf | src/day05.rs:45 | the position of the first occurrence of the character, or the length when there is none |
| Text.SplitOnce | src/day05.rs:45 | none exactly when the separator is absent; otherwise the text before its first occurrence and the rest |
| Text.SplitOnceJoin | src/day05.rs:45 | splitting `a + c + b` with c not in a gives back a and b |
| Text.FindStr | src/day05.rs:41 | the first position where the separator occurs, or the length when it does not |
| Text.SplitOnceStr | src/day05.rs:41 | none exactly when the separator string never occurs; otherwise the text before its first occurrence and the rest |
| Text.Split | src/day02.rs:171 | at least one part, no part contains the separator, and text without it is one part |
| Text.SplitJoin | src/day02.rs:171 | splitting `a + c + b` with c not in a gives a followed by the parts of b |
| Text.Lines | src/day01.rs:48 | no line contains a newline, and empty text has no lines |
| Text.LinesJoinLines | src/day01.rs:47-58 | the lines of newline-terminated lines are those lines |
| Text.LinesTrimJoinLines | src/day04.rs:90-91 | trimming newline-terminated lines and splitting them again gives the lines back |
| Text.TrimStart | src/day02.rs:170 | the result does not start with whitespace, is no longer, and is the text itself when that does not |
| Text.TrimEnd | src/day02.rs:170 | the result does not end with whitespace, is no longer, and is the text itself when that does not |
| Text.TrimNoEdges | src/day02.rs:173 | text without whitespace at either end is its own trim |
| Text.SplitWhitespace | src/day06.rs:98 | every token is non-empty and holds no whitespace |
| Text.AllSome | src/day06.rs:98-100 | collecting into a vector succeeds with one value per input |
| Text.AllSomeEach | src/day06.rs:98-100 | a successful collection holds each element's value, and collection fails exactly when some element fails |
| Sorting.InsertMultiset | src/day09.rs:102 | inserting adds exactly the one element |
| Sorting.InsertSorted | src/day09.rs:102 | inserting into a sorted list keeps it sorted |
| Sorting.SortByFacts | src/day09.rs:100-104 | sorting by a key gives a sorted permutation of the input |
| Sorting.SortedUnique | src/day12.rs:396 | two sorted permutations of one list are equal when the key tells elements apart |

## Left out

- Fixed-width integers: the model uses unbounded `int`/`nat`. Overflow of `u64`, `u128`, `i32`, `i64`, `i128` and `usize` arithmetic is not modelled, except where a width decides a result: `u8` counts in day 12, `u16` masks in day 10, the `u64` range bounds of day 2's part 2, and the `usize` subtraction `c - 1` of day 7.
- Panics: an `unwrap` on bad input, an out-of-range index or an `unreachable!` is modelled as a `None` result or as a precondition. The model does not say which panic message the source would print.
- `to_string`: most entry points return the number rather than its decimal text. Day 2 returns the text, and `Text.ParseShow` relates the two.
- Parallelism: `par_iter` in `src/day10.rs:38` and `src/day12.rs:43` is modelled as a sequential sum or count, which gives the same value.
- Library internals are specified by behaviour, not by implementation:
  - rangemap's `RangeInclusiveSet` as a sorted list of disjoint, non-touching intervals;
  - `divisors_fixed` as the divisor set;
  - the `cached` macro as plain functions;
  - ahash maps and sets as Dafny maps and sets, so iteration order does not appear;
  - `SmallVec` as `seq`.
- Sorting: `sort_unstable`, `sort_unstable_by_key` and `select_nth_unstable_by_key` are specified as an ordered permutation.
  - Day 9 and day 12 use the insertion sort in `Sorting`.
  - Day 8 takes the sorted edge order as a parameter constrained by `ClosestFirst`, so the order of equal `dist2` edges is left open, as it is in the source.
- Bytes and characters: digit bytes in day 3 are modelled as naturals. The `(u8, u8)` cells of day 12 are naturals below 256, obtained with `Day12.ToU8`, which takes each coordinate modulo 256 as `as u8` does. Text is a sequence of characters with no encoding.
- `src/main.rs` and `benches/aoc_bench.rs`: input fetching, printing and benchmarking are I/O and are not part of this model.
- Day 10 part 2 (`solve_part_2`, `min_joltage_presses`, `recursive_search`, `src/day10.rs:36-42, 117-253`): it is floating-point Gauss–Jordan elimination with tolerances and rounding, which this model does not capture. The `button_wires` and `joltage_goal` fields that only this part reads are still parsed.
- Day07.SolvePart1: the count is proved equal to the number of distinct splitters hit only when no two splitters stand side by side in a row (`Spaced`). Otherwise `unique_push` removes only adjacent duplicates, so the count follows the frontier as written (`Splits`) and may count one splitter more than once.
- Day10.MinLightingPresses: a machine with 64 or more lights is excluded by precondition, since `1 << num_lights` overflows there. Minimality and unreachability are stated only for machines whose masks fit their lights (`MasksFit`).
- Day11: the source assumes the device graph is acyclic and does not check it. The model takes a ghost ranking of the devices as the witness (`Ranked`), and the part-1 and part-2 results are stated for ranked graphs only.
- Day12.RegionCanFit: the area test `needed_cells > board_cells` is part of the specification `CanFit`. That the test never rejects a packable region is not proved separately.
- Day12: the placement chunks' `u16` word index and `u64` bit mask are modelled as a natural and a set of bit positions (`Word`); shifts and masks become set operations.
- Day12: the failure memo's keys are the grid and the counts as values. Its soundness, that every key is unpackable, is an invariant of `DfsPack`, and hashing is not modelled.
- Day12.SolvePart2: it returns the fixed text of the source and carries no contract.
- Day02.MobiusTermExact: Möbius inversion is proved for block lengths up to 10, using tables of μ up to 10. That covers every proper divisor of the at most 20 digits of a `u64`, which is all that `SumBand` needs.
- Day04.Create: a ragged grid, which the source accepts, is refused, so every grid the model solves is rectangular.
