# Advent of Code 2020 solvers, modelled in Dafny

This project models the puzzle-solving core of a Rust crate that answers the
Advent of Code 2020 puzzles. Each day's `part1`/`part2` reads the puzzle input
as one string and returns an answer or an error. Day 8 runs a small "game
console" interpreter, kept in a module of its own. The model has one Dafny module per source file:

- `Expenses` (`day1.dfy`): the expense-report pair and triple searches (day 1).
- `Passwords` (`day2.dfy`): the password policies (day 2).
- `Passports` (`day4.dfy`): passport parsing and field validation (day 4).
- `Boarding` (`day5.dfy`): binary space partitioned seat ids and the missing seat (day 5).
- `Customs` (`day6.dfy`): union and intersection of customs answers (day 6).
- `BagRules`, `RuleGraph` (`day7.dfy`, `day7_rule_graph.dfy`): the bag containment rules and the graph searches over them (day 7).
- `GameConsole` (`gameconsole.dfy`): the handheld console's instructions, machine and step.
- `Handheld` (`day8.dfy`): loop detection and the one-instruction repair (day 8).
- `Xmas` (`day9.dfy`): the XMAS cipher's sliding-window check and the contiguous weakness (day 9).
- `Adapters` (`day10.dfy`): joltage gaps and the memoised arrangement count (day 10).
- `Seating` (`day11.dfy`): the seating automaton, both neighbour rules (day 11).
- `Navigation` (`day12.dfy`): ship and waypoint navigation (day 12).
- `ShuttleSearch`, `RemOffset` (`day13.dfy`, `day13_rem_offset.dfy`): the earliest bus and the Chinese-remainder chain (day 13).
- `Bitmask`, `MaskCpu` (`day14_bitmask.dfy`, `day14_mask_cpu.dfy`): the 36-bit value mask and the memory writes it filters (day 14).
- `MemoryGame` (`day15.dfy`): the number-speaking game (day 15).
- `TicketTranslation` (`day16.dfy`): ticket field ranges and the error rate (day 16).
- `Wrappers`, `Numbers`, `Text`, `Seqs` (shared): `Result`/`Option`, Rust integer division and parsing, `lines`/`split`/`trim`, sorting.

Conventions used throughout:

- A string is a `seq<char>`, and a byte index is a character index, so inputs are taken to be ASCII.
- Rust's `str::parse` for integers is modelled exactly: an optional sign (`-` only for signed types), then decimal digits only. A value out of range is an error.
- `str::lines` splits at `'\n'`, drops an empty final piece and strips one trailing `'\r'`.
- A Rust panic is modelled in one of two ways. Where the caller can rule it out, it becomes a `requires` with a named predicate (`…Panics`). Where it depends on the data, the result type `Outcome` has a `Panics` case.
- Integers are unbounded, and integer division is written out with Rust's truncating semantics (`Numbers.TruncDiv`, `Numbers.TruncRem`). Where machine-width overflow is modelled it is said in the member's comment. Otherwise it is listed below.
- A `u64` memory word is a sequence of 64 bits, least significant first. It converts to and from its number through proven round-trip lemmas.

## Model

| member | source | states |
|---|---|---|
| Expenses.FindExpensesAsWritten | src/challenge/day1/mod.rs:38-58 | the two-pointer scan as written: a pair it returns sums to the target and both values occur in the list; a run may instead end in a `usize` underflow |
| Expenses.UnderflowWhenAllTooLarge | src/challenge/day1/mod.rs:38-46 | on a sorted list whose smallest entry is more than half the target, the inner `iter_high -= 1` loop underflows |
| Expenses.FindExpensesReusesEntry | src/challenge/day1/mod.rs:38-58 | on `[1010, 2000]` the scan as written returns `(1010, 1010)`, pairing one entry with itself, though no two entries sum to 2020 |
| Expenses.FindFrom | src/challenge/day1/mod.rs:38-58 | the scan with the inner loop stopped at `low`: a pair it returns is two different entries summing to the target, and it returns none exactly when no such pair exists |
| Expenses.FindExpenses | src/challenge/day1/mod.rs:38-58 | on a sorted list: a returned pair is the values of two different entries summing to the target; none exactly when there is no such pair |
| Expenses.FindTripleExpensesAsWritten | src/challenge/day1/mod.rs:28-36 | the loop as written searches the pair in `input[idx..]`, so a returned product may use entry `e` twice |
| Expenses.FindTripleReusesEntry | src/challenge/day1/mod.rs:28-36 | on `[500, 1020]` the loop as written returns 500 * 1020 * 500, though no three entries sum to 2020 |
| Expenses.TripleFrom | src/challenge/day1/mod.rs:28-36 | the loop from entry `idx` on, with the pair searched right of `e`: a product it returns is that of three different entries summing to 2020; none exactly when no such triple exists |
| Expenses.TripleOfPair | src/challenge/day1/mod.rs:30-33 | a pair summing to `2020 - e` right of `e` gives a triple whose product is `a * b * e` |
| Expenses.NoTripleAt | src/challenge/day1/mod.rs:30-33 | when no pair right of `e` sums to `2020 - e`, no triple starts at `e` |
| Expenses.FindTripleExpenses | src/challenge/day1/mod.rs:28-36 | on a sorted list: a returned value is the product of three different entries summing to 2020; none exactly when there is no such triple |
| Expenses.Parse | src/challenge/day1/mod.rs:61-69 | the whitespace-separated words parse as `i64` exactly when the result is `Ok`, and the values are the words' values in order |
| Expenses.PairOfSorted | src/challenge/day1/mod.rs:15-21 | a pair found in the sorted list is two entries (as a multiset) of the unsorted input |
| Expenses.Pt1 | src/challenge/day1/mod.rs:15-21 | with the corrected scan: `Ok` exactly when two different entries sum to 2020, and then the value is the product of two such entries of the input |
| Expenses.TripleOfSorted | src/challenge/day1/mod.rs:23-26 | a triple product found in the sorted list is one of three entries of the unsorted input |
| Expenses.Pt2 | src/challenge/day1/mod.rs:23-26 | with the corrected loop: `Ok` exactly when three different entries sum to 2020, and then the value is the product of three such entries |
| Expenses.ScanNoneNoPair | src/challenge/day1/mod.rs:41-57 | when the scan as written ends without a pair, no two different entries sum to the target |
| Expenses.DescendNoneNoPair | src/challenge/day1/mod.rs:43-45 | the same from inside the inner `iter_high` loop |
| Expenses.FindNoneNoPair | src/challenge/day1/mod.rs:38-58 | `find_expenses` as written returns `None` only when no two different entries sum to the target |
| Expenses.UnderflowWhenSmallestTooLarge | src/challenge/day1/mod.rs:38-46 | on a sorted list of two or more entries whose smallest is more than half the target, the scan as written underflows |
| Expenses.InSortedIsIn | src/challenge/day1/mod.rs:16 | sorting keeps the values: an entry of the sorted list is a value of the input |
| Expenses.PairAsWrittenInInput | src/challenge/day1/mod.rs:15-21 | two sorted entries summing to 2020 are values of the input, so their product is one of two input values summing to 2020 |
| Expenses.Pt1AsWritten | src/challenge/day1/mod.rs:15-21 | `pt1_impl` as written: panics exactly on an empty list and on a list of two or more entries whose smallest is more than half of 2020; succeeds whenever two different entries sum to 2020; an `Ok` is the product of two input values summing to 2020, perhaps one entry taken twice; an `Err` only when no two different entries sum to 2020 |
| Expenses.ScanNoUnderflow | src/challenge/day1/mod.rs:41-57 | while the smallest entry plus `input[iter_low]` is within the target, the scan as written never underflows |
| Expenses.DescendNoUnderflow | src/challenge/day1/mod.rs:43-45 | the same inside the inner loop: at index 0 its test already fails |
| Expenses.UnderflowsExactly | src/challenge/day1/mod.rs:38-58 | on a sorted non-empty list, `find_expenses` as written underflows exactly when there are two or more entries and the smallest is more than half the target |
| Expenses.PairBoundsSmallest | src/challenge/day1/mod.rs:38-58 | two different entries summing to the target leave the smallest entry at most half of it |
| Expenses.SmallestAtMostHalf | src/challenge/day1/mod.rs:15-21 | a sorted list with a pair summing to 2020 has its smallest entry at most 1010 |
| Expenses.SortedSuffix | src/challenge/day1/mod.rs:31 | the slice `input[idx..]` of a sorted list is sorted |
| Expenses.ThirdBoundsTriple | src/challenge/day1/mod.rs:28-36 | with no triple starting before `idx` and some triple in the list, three times `input[idx]` is at most 2020 |
| Expenses.TripleRoundNoUnderflow | src/challenge/day1/mod.rs:29-33 | a round of the loop as written cannot underflow while a triple is still ahead |
| Expenses.TripleRoundNone | src/challenge/day1/mod.rs:29-34 | a round that finds no pair moves on to the next entry and rules out every triple starting at its entry |
| Expenses.TripleNoUnderflow | src/challenge/day1/mod.rs:28-36 | on a sorted list with a triple, the loop as written never underflows |
| Expenses.TripleAsWrittenSucceeds | src/challenge/day1/mod.rs:28-36 | on a sorted list with a triple, the loop as written returns a product |
| Expenses.TripleUnderflowExample | src/challenge/day1/mod.rs:28-45 | on `[100, 700, 800]` the round for 700 searches `[700, 800]` for 1320 and underflows |
| Expenses.NoTripleExample | src/challenge/day1/mod.rs:28-36 | `[100, 700, 800]` has no three entries summing to 2020 |
| Expenses.Pt2AsWrittenPanicsWithoutTriple | src/challenge/day1/mod.rs:23-26 | on `[100, 700, 800]`, a list without a triple, `pt2_impl` as written panics where the corrected version reports an error |
| Expenses.TripleNoneNoTriple | src/challenge/day1/mod.rs:28-36 | when the loop as written ends with `None`, no three different entries sum to 2020 |
| Expenses.NoTripleAtAsWritten | src/challenge/day1/mod.rs:29-34 | a round of the loop as written that finds nothing rules out every triple starting at that entry |
| Expenses.NoTripleAtSlice | src/challenge/day1/mod.rs:30-31 | no pair in `input[idx..]` summing to `2020 - e` rules out every triple starting at `e` |
| Expenses.TripleAsWrittenInInput | src/challenge/day1/mod.rs:23-26 | a product the loop as written finds in the sorted list is one of three input values summing to 2020 |
| Expenses.Pt2AsWritten | src/challenge/day1/mod.rs:23-26 | `pt2_impl` as written: succeeds whenever three different entries sum to 2020; an `Ok` is the product of three input values summing to 2020, perhaps one entry taken twice; an `Err` only when no three different entries sum to 2020 |
| Expenses.AsWrittenErrsOnlyWithCorrected | src/challenge/day1/mod.rs:15-26 | whenever the code as written reports "could not find valid expenses", the corrected version does too |
| Expenses.Pt1AsWrittenReusesEntry | src/challenge/day1/mod.rs:15-21 | on `[1010, 2000]` `pt1_impl` as written returns 1020100, while the corrected version finds no pair |
| Expenses.Pt2AsWrittenReusesEntry | src/challenge/day1/mod.rs:23-26 | on `[500, 1020]` `pt2_impl` as written returns 255000000, while the corrected version finds no triple |
| Expenses.CorrectedFindsNoTriple | src/challenge/day1/mod.rs:23-26 | the corrected part 2 finds no three different entries of `[500, 1020]` summing to 2020 |
| Expenses.Part1Example | src/challenge/day1/mod.rs:84-88 | the example list gives 514579 |
| Expenses.Part2Example | src/challenge/day1/mod.rs:89-93 | the second example list gives 241861950 |
| Passwords.Check | src/challenge/day2/mod.rs:30-33 | the policy holds exactly when the letter occurs between `min` and `max` times |
| Passwords.OccurrencesAreCount | src/challenge/day2/mod.rs:31 | the filtered count of the letter equals its multiplicity in the password |
| Passwords.CheckV2 | src/challenge/day2/mod.rs:34-45 | with distinct positions, the policy holds exactly when one of the two 1-based positions holds the letter; with equal positions, when that position does |
| Passwords.ParsePolicy | src/challenge/day2/mod.rs:47-71 | no space is an error; on success the letter is the first character after the space and both bounds are the `u32` values of the text around the hyphen |
| Passwords.ParseEntry | src/challenge/day2/mod.rs:88-104 | no colon is an error; on success the policy parses from the text before the colon and the password is the trimmed text after it; a policy error is an error |
| Passwords.Parse | src/challenge/day2/mod.rs:13-20 | one entry per line, each the parse of its line; an error only if some line fails |
| Passwords.ParseFormatPolicy | src/challenge/day2/mod.rs:47-71 | a policy with `u32` bounds, printed as `<min>-<max> <c>`, parses back to itself |
| Passwords.ParseFormatEntry | src/challenge/day2/mod.rs:88-104 | an entry with a trimmed password free of line breaks, printed as `<policy>: <password>`, parses back to itself |
| Passwords.Part1 | src/challenge/day2/mod.rs:4-7 | `Ok` exactly when parsing succeeds, and then the number of entries that pass the count policy: at most the number of lines, all of them exactly when every entry is valid, zero exactly when none is |
| Passwords.Part2 | src/challenge/day2/mod.rs:8-11 | the same, counting the entries that pass the positional policy |
| Seqs.CountPositions | src/challenge/day2/mod.rs:6 | `filter(p).count()` is the number of positions whose item satisfies `p` |
| Passwords.FirstExample | src/challenge/day2/mod.rs:30-45 | `1-3 a: abcde` passes both policies |
| Passwords.SecondExample | src/challenge/day2/mod.rs:30-45 | `1-3 b: cdefg` fails both policies |
| Passwords.ThirdExample | src/challenge/day2/mod.rs:30-45 | `2-9 c: ccccccccc` passes the count policy and fails the positional one |
| Passports.FieldNamed | src/challenge/day4/mod.rs:190-200 | a key names a field exactly when it is one of the eight keys, and the field found has that name |
| Passports.FieldNamedName | src/challenge/day4/mod.rs:190-200 | every field's key leads back to that field |
| Passports.CompleteIgnoresCid | src/challenge/day4/mod.rs:44-52 | a passport is complete exactly when every field except `cid` is present |
| Passports.CheckYear | src/challenge/day4/mod.rs:66-80 | `Ok` exactly when the field is present, parses as a `u32` and lies within the bounds |
| Passports.ValidHeight | src/challenge/day4/mod.rs:82-109 | `Ok` exactly when the height is present and its text less the last two characters is a `u32` in 150..=193 before `cm` or in 59..=76 before `in`; a value shorter than two characters panics and is excluded |
| Passports.HairColorFrom | src/challenge/day4/mod.rs:117-128 | the loop from character `idx` on: `Ok` exactly when a first character is `#` and every later one is a lower-case hex digit |
| Passports.ValidHairColor | src/challenge/day4/mod.rs:110-130 | `Ok` exactly when the colour is present, starts with `#` if non-empty and continues with lower-case hex digits only; the length is not checked |
| Passports.ValidEyeColor | src/challenge/day4/mod.rs:131-144 | `Ok` exactly when the colour is present and one of the seven names |
| Passports.DigitsFrom | src/challenge/day4/mod.rs:155-160 | the loop from character `idx` on: `Ok` exactly when every remaining character is an ASCII digit |
| Passports.ValidPassportId | src/challenge/day4/mod.rs:146-165 | `Ok` exactly when the id is present, nine characters long and all digits |
| Passports.IsValid | src/challenge/day4/mod.rs:54-63 | `Ok` exactly when the three years, the height, both colours and the id all check |
| Passports.ParsePair | src/challenge/day4/mod.rs:185-200 | `Ok` exactly when the token has a colon and the text before it names a field; the value is the text after the first colon |
| Passports.ParsePairOfToken | src/challenge/day4/mod.rs:185-200 | `<key>:<value>` parses to that field and value, whatever the value holds |
| Passports.AssignKeys | src/challenge/day4/mod.rs:193-200 | after the assignments a field is set exactly when it was set before or some pair sets it |
| Passports.AssignLastWins | src/challenge/day4/mod.rs:193-200 | a field ends with the value of the last pair that sets it, or keeps its old value when none does |
| Passports.ParseKv | src/challenge/day4/mod.rs:184-204 | `Ok` exactly when every token parses, and then the passport is the old one with the parsed pairs assigned in order |
| Passports.Collect | src/challenge/day4/mod.rs:167-182 | the loop over lines: `Ok` exactly when every non-blank line holds only tokens that parse, with one closed passport per blank line |
| Seqs.SplitWhere | src/challenge/day4/mod.rs:171-180 | the blocks between separators: one more block than separators, and no block holds a separator |
| Passports.FoldLinesSnoc | src/challenge/day4/mod.rs:177 | reading one more line of a block applies `parse_kv` to the passport built so far |
| Passports.FoldsBlocksClose | src/challenge/day4/mod.rs:172-175 | a blank line closes the builder and starts an empty block with the empty builder |
| Passports.FoldsBlocksExtend | src/challenge/day4/mod.rs:176-178 | another line extends the last block and its passport together |
| Passports.CollectFoldsBlocks | src/challenge/day4/mod.rs:167-182 | after the loop, the closed passports and the builder are, in order, the `parse_kv` folds of the blocks of lines between blank lines |
| Passports.Parse | src/challenge/day4/mod.rs:167-182 | `Ok` exactly when every non-blank line parses; then there is one passport more than there are blank lines, and passport `k` is the `parse_kv` fold, from the empty builder, of the `k`-th block of lines between blank lines |
| Passports.Part1 | src/challenge/day4/mod.rs:4-7 | `Ok` exactly when parsing succeeds, and then the number of complete passports: at most the number of passports, zero exactly when none is complete |
| Passports.ValidCountAtMostComplete | src/challenge/day4/mod.rs:44-63 | no more passports are valid than complete |
| Passports.Part2 | src/challenge/day4/mod.rs:8-20 | `Ok` exactly when parsing succeeds, and then the number of valid passports, never more than part 1's complete count |
| Passports.YearExamples | src/challenge/day4/mod.rs:66-80 | birth year 2002 passes and 2003 fails |
| Passports.HeightExamples | src/challenge/day4/mod.rs:82-109 | `60in` and `190cm` pass; `190in` and `190` fail |
| Passports.ColorExamples | src/challenge/day4/mod.rs:110-144 | `#123abc` passes, `#123abz` and `123abc` fail; `brn` passes and `wat` fails |
| Passports.PassportIdExamples | src/challenge/day4/mod.rs:146-165 | `000000001` passes and `0123456789` fails |
| Boarding.DecodeBits | src/challenge/day5/mod.rs:62-83 | `Ok` exactly when every character is one of the two letters, and the value read most significant bit first is below `2^length` |
| Boarding.EncodeBits | src/challenge/day5/mod.rs:62-83 | a value below `2^n` written as `n` letters of the two-letter alphabet |
| Boarding.DecodeEncode | src/challenge/day5/mod.rs:62-83 | reading back a written value gives the value |
| Boarding.EncodeDecode | src/challenge/day5/mod.rs:62-83 | writing a read value back with the same width gives the text |
| Boarding.ParseSeat | src/challenge/day5/mod.rs:56-86 | `Ok` exactly when the pass has ten characters, seven of `F`/`B` then three of `L`/`R`; the row is below 128, the column below 8, and the pass is their encoding |
| Boarding.ParseFormatSeat | src/challenge/day5/mod.rs:56-86 | every seat with row below 128 and column below 8 round-trips through its pass |
| Boarding.SeatId | src/challenge/day5/mod.rs:46-50 | the id is below 1024 and its quotient and remainder by 8 give back row and column |
| Boarding.SeatIdInjective | src/challenge/day5/mod.rs:46-50 | two seats with the same id are the same seat |
| Boarding.Parse | src/challenge/day5/mod.rs:52-54 | one seat per line, each the parse of its line; an error only if some line fails |
| Boarding.Ids | src/challenge/day5/mod.rs:22-27 | the ids of the seats, in order |
| Boarding.GaussSum | src/challenge/day5/mod.rs:36-39 | without `u32` overflow, `gauss_sum(n1, n2)` is the sum of `n1 + 1 ..= n2` |
| Boarding.GaussFormula | src/challenge/day5/mod.rs:36-39 | twice the sum of `lo + 1 ..= hi` is `hi(hi+1) - lo(lo+1)` |
| Boarding.Extremes | src/challenge/day5/mod.rs:20-30 | none exactly for no ids; otherwise the largest and smallest id, both members of the list |
| Boarding.HighestSeat | src/challenge/day5/mod.rs:7-16 | `Ok` exactly when there is a seat, and then the largest seat id |
| Boarding.IdsBelow | src/challenge/day5/mod.rs:46-50 | the ids of parsed seats are below 1024 |
| Boarding.MissingSeat | src/challenge/day5/mod.rs:17-34 | panics exactly when the lowest id is 0 (`min_id - 1`) or the ids sum to more than `min ..= max` does (`expected_sum - sum`); otherwise `Ok` exactly when there is a seat, and then the sum of `min ..= max` less the sum of the ids |
| Boarding.DuplicatePassPanics | src/challenge/day5/mod.rs:26-33 | two copies of the pass with id 1 make `expected_sum - sum` underflow |
| Boarding.SumPermutation | src/challenge/day5/mod.rs:22-27 | sums do not depend on order |
| Boarding.MissingSeatExtremes | src/challenge/day5/mod.rs:20-30 | when the ids are `lo ..= hi` less one inner `m`, in any order, the extremes are `hi` and `lo` |
| Boarding.MissingSeatSum | src/challenge/day5/mod.rs:22-33 | in that case the ids sum to the sum of `lo ..= hi` less `m` |
| Boarding.Part2FindsMissingSeat | src/challenge/day5/mod.rs:17-34 | when the ids are `lo ..= hi` less one inner `m` with `lo >= 1`, the fold of part 2 does not panic and returns `m` |
| Boarding.Part1 | src/challenge/day5/mod.rs:7-16 | `Ok` exactly when parsing succeeds on a non-empty input, and then the highest seat id: the id of some seat, at least every seat's id, below 1024 |
| Boarding.Part2 | src/challenge/day5/mod.rs:17-34 | a parse error is passed on; otherwise panics exactly on the two `u32` underflows, is `Ok` exactly for a non-empty input, and then is the one missing inner seat whenever such a seat exists |
| Boarding.FirstPass | src/challenge/day5/mod.rs:115-121 | `FBFBBFFRLR` is row 44, column 5, id 357 |
| Boarding.SecondPass | src/challenge/day5/mod.rs:115-121 | `BFFFBBFRRR` is row 70, column 7, id 567 |
| Boarding.ThirdPass | src/challenge/day5/mod.rs:115-121 | `FFFBBBFRRR` is row 14, column 7, id 119 |
| Boarding.FourthPass | src/challenge/day5/mod.rs:115-121 | `BBFFBBFRLL` is row 102, column 4, id 820 |
| Customs.ParseLine | src/challenge/day6/mod.rs:54-60 | the answer set holds exactly the characters of the line |
| Customs.Parse | src/challenge/day6/mod.rs:45-53 | one item per line: none exactly for an empty line, otherwise the set of the line's characters |
| Customs.LeadingAnswers | src/challenge/day6/mod.rs:32 | the number of answers before the first blank line |
| Customs.AnswersOf | src/challenge/day6/mod.rs:32-40 | the answer sets of the first `k` items, in order |
| Customs.NextFromRest | src/challenge/day6/mod.rs:30-43 | the collector leaves the iterator just after the blank line that ends the group, or at the end |
| Customs.NextFromFolds | src/challenge/day6/mod.rs:30-43 | the collector's result is the join of the answers seen before plus the group's answers, none when there are none |
| Customs.Next | src/challenge/day6/mod.rs:30-43 | `next`: none exactly when the group before the next blank line is empty; otherwise the join of its answer sets; the rest starts after the blank line |
| Customs.Blocks | src/challenge/day6/mod.rs:30-43 | the items cut at each blank line, always at least one block |
| Customs.UntilEmpty | src/challenge/day6/mod.rs:30-43 | the blocks before the first empty one, unchanged |
| Customs.FoldAll | src/challenge/day6/mod.rs:30-43 | the join of each block |
| Customs.GroupsAreBlocks | src/challenge/day6/mod.rs:30-43 | the groups the iterator yields are the joins of the blocks before the first empty block: iteration stops at the first double blank line |
| Customs.UnionFold | src/challenge/day6/mod.rs:5-11 | a question is in the union of a group exactly when someone in the group answered it |
| Customs.IntersectFold | src/challenge/day6/mod.rs:12-18 | a question is in the intersection exactly when everyone in the group answered it |
| Customs.IntersectWithinUnion | src/challenge/day6/mod.rs:5-18 | a group's intersection is within its union |
| Customs.Part1 | src/challenge/day6/mod.rs:5-11 | the sum, over the groups before the first empty block, of the size of the union |
| Customs.Part2 | src/challenge/day6/mod.rs:12-18 | the sum of the sizes of the intersections over the same groups |
| Customs.Part2AtMostPart1 | src/challenge/day6/mod.rs:5-18 | over any groups, the intersection sizes sum to at most the union sizes |
| Customs.Part2AtMostPart1OfInput | src/challenge/day6/mod.rs:5-18 | part 2 never exceeds part 1 |
| Customs.DoubleBlankEndsGroups | src/challenge/day6/mod.rs:30-43 | after two blank lines in a row the collector yields none, so later groups are not counted |
| BagRules.ParseBag | src/challenge/day7/mod.rs:36-42 | `Ok` exactly when the text contains `bag`, and then the trimmed text before its first occurrence |
| BagRules.FindBagAfterColour | src/challenge/day7/mod.rs:37-39 | in `<colour> bag…` with no `bag` inside the colour, the first `bag` starts right after the colour and its space |
| BagRules.ParseBagOfColour | src/challenge/day7/mod.rs:36-42 | a colour followed by ` bag` and anything parses back to the colour |
| BagRules.ParseNumericalBags | src/challenge/day7/mod.rs:44-58 | `Ok` exactly when the trimmed text has a space, the text before it is a `usize` and the text after it parses as a bag; then the count and the bag |
| BagRules.TrimTarget | src/challenge/day7/mod.rs:45 | a target printed as ` <n> <colour> bag(s)` trims to the text without its leading space |
| BagRules.ParsePluralBag | src/challenge/day7/mod.rs:36-42 | `bag` and `bags` after a colour both parse to the colour |
| BagRules.ParseFormatTarget | src/challenge/day7/mod.rs:44-58 | a target printed as in a rule parses back to its count and colour |
| BagRules.Targets | src/challenge/day7/mod.rs:64-68 | the set of colours the rule's targets name |
| BagRules.InsertAll | src/challenge/day7/mod.rs:64-68 | inserting a rule's edges keeps the graph well-formed, adds the source and every target as nodes, and leaves every other edge's weight alone |
| BagRules.InsertAllLastWins | src/challenge/day7/mod.rs:64-68 | the edge to a target repeated in a rule carries the last count given for it |
| BagRules.Pieces | src/challenge/day7/mod.rs:64-66 | the comma-separated targets, each parsed, in order; an error only if some piece fails |
| BagRules.AddTargets | src/challenge/day7/mod.rs:60-71 | `Ok` exactly when the targets parse; `no other bags.` only adds the bag as a node; otherwise the rule's edges are inserted in order |
| BagRules.AddRule | src/challenge/day7/mod.rs:26-34 | `Ok` exactly when the line has ` contain `, the text before it is a bag and the text after it parses as targets; then those targets are added for that bag |
| BagRules.BuildRules | src/challenge/day7/mod.rs:18-24 | `Ok` exactly when every line is a rule that parses, and the graph is well-formed |
| BagRules.AllRulesParseFront | src/challenge/day7/mod.rs:18-24 | the lines all parse exactly when all but the last do and the last does |
| BagRules.Part1 | src/challenge/day7/mod.rs:9-12 | `Ok` exactly when the rules build, and then the number of colours other than `shiny gold` that eventually hold it |
| BagRules.Part2 | src/challenge/day7/mod.rs:13-16 | `Ok` exactly when the rules build, and then the number of bags inside one `shiny gold` bag |
| BagRules.ParseBagExamples | src/challenge/day7/mod.rs:36-42 | `light red bags ` parses to `light red`; `light red` has no `bag` and fails |
| BagRules.TotalExample | src/challenge/day7/mod.rs:95-101 | shiny gold holding 2 dark red, each holding 2 dark orange, holds 6 bags |
| RuleGraph.CountOf | src/challenge/day7/rule_graph.rs:20-22 | the count of the edge to a target, present exactly when some edge goes there |
| RuleGraph.SetEdge | src/challenge/day7/rule_graph.rs:20-22 | `add_edge` on an existing source: the target's count becomes the new count, every other count is unchanged, and targets stay distinct |
| RuleGraph.Insert | src/challenge/day7/rule_graph.rs:20-22 | `insert`: both bags become nodes, the edge's weight is the count, and every other weight is unchanged |
| RuleGraph.Terminal | src/challenge/day7/rule_graph.rs:23-25 | `terminal`: the bag becomes a node and no weight changes |
| RuleGraph.Parents | src/challenge/day7/rule_graph.rs:28 | the neighbours in the reversed graph: the nodes with an edge into the bag |
| RuleGraph.HoldsStep | src/challenge/day7/rule_graph.rs:26-40 | a parent of a bag that holds the target also holds it |
| RuleGraph.ClosedHoldsWalk | src/challenge/day7/rule_graph.rs:26-40 | a set closed under parents that holds a walk's end holds its start |
| RuleGraph.PushParents | src/challenge/day7/rule_graph.rs:29-31 | pushing a node's parents keeps the stack's prefix, pushes only bags that hold the target, and leaves every parent discovered or on the stack |
| RuleGraph.FrontierStep | src/challenge/day7/rule_graph.rs:29-38 | after one depth-first step, every parent of a discovered node is discovered or on the stack |
| RuleGraph.Visit | src/challenge/day7/rule_graph.rs:31-38 | one `dfs.next` step keeps the search invariant and shrinks the undiscovered nodes or the stack; the counter grows exactly for newly discovered bags other than the start |
| RuleGraph.ParentsOf | src/challenge/day7/rule_graph.rs:26-40 | `parents_of`: the number of bags other than the start that eventually hold it |
| RuleGraph.SearchFindsAncestors | src/challenge/day7/rule_graph.rs:26-40 | when the stack is empty, the discovered bags other than the start are exactly its ancestors |
| RuleGraph.RankedAcyclic | src/challenge/day7/rule_graph.rs:48-63 | a graph with a ranking that decreases along edges has no cycle |
| RuleGraph.TotalBagsRankFree | src/challenge/day7/rule_graph.rs:41-63 | the bag total does not depend on which ranking witnesses acyclicity |
| RuleGraph.RecursiveBags | src/challenge/day7/rule_graph.rs:48-63 | `recursive_bags`: the total of `count * (inner + 1)` over the bag's edges, with the cache holding only true totals and gaining the bag |
| RuleGraph.TotalBagsOf | src/challenge/day7/rule_graph.rs:41-45 | `total_bags` from an empty cache is the bag total |
| GameConsole.ParseOperation | src/gameconsole/mod.rs:20-32 | `Ok` exactly when the trimmed text is `nop`, `acc` or `jmp`, and the operation is the one of that name |
| GameConsole.ParseOpName | src/gameconsole/mod.rs:10-32 | every operation's name parses back to it |
| GameConsole.ParseInstruction | src/gameconsole/mod.rs:51-67 | `Ok` exactly when the trimmed line splits at a space into an operation name and an `i64`; then the operation and argument are those |
| GameConsole.ParsePlus | src/gameconsole/mod.rs:62-64 | `+<digits>` parses as the `i64` it spells |
| GameConsole.ParseSignedArg | src/gameconsole/mod.rs:42-47 | an argument printed with its sign, as the `Debug` format does, parses back to itself |
| GameConsole.ParseSpaced | src/gameconsole/mod.rs:51-67 | `<op> <arg>` with an argument that parses and has no trailing space parses to that instruction |
| GameConsole.ParseFormatInstruction | src/gameconsole/mod.rs:40-67 | every instruction whose argument is not `i64::MIN` round-trips through its `Debug` text |
| GameConsole.ParseCode | src/gameconsole/mod.rs:78-85 | one instruction per line, each the parse of its line; an error only if some line fails |
| GameConsole.New | src/gameconsole/mod.rs:96-102 | a machine on the code with accumulator 0 at index 0 |
| GameConsole.Step | src/gameconsole/mod.rs:104-132 | `nop` moves to the next index, `acc` also adds the argument, `jmp` moves by the argument; the code is unchanged and the accumulator stays in the `i64` range |
| GameConsole.Iterate | src/gameconsole/mod.rs:104-132 | repeated steps never change the code |
| GameConsole.IterateEarlier | src/gameconsole/mod.rs:104-132 | a machine that survives `k` steps survives every fewer number of steps |
| GameConsole.ParsePositive | src/gameconsole/mod.rs:51-67 | `<op> +<n>` parses to that instruction |
| GameConsole.ParseExamples | src/gameconsole/mod.rs:139-183 | `nop +0`, `acc +1` and `jmp +1` parse as the test expects |
| GameConsole.TwoDigitExample | src/gameconsole/mod.rs:162-168 | `acc +19` parses to `acc` with 19 |
| GameConsole.NegativeExample | src/gameconsole/mod.rs:169-175 | `acc -4` parses to `acc` with -4 |
| GameConsole.NegativeZero | src/gameconsole/mod.rs:148-154 | `nop -0` parses to `nop` with 0 |
| Handheld.VisitedInCode | src/challenge/day8/mod.rs:9-11 | every index a run got through is inside the code |
| Handheld.UnseenShrinks | src/challenge/day8/mod.rs:9-11 | a step from an index not yet run leaves fewer unrun indices, so both loops end |
| Handheld.Part1RunStep | src/challenge/day8/mod.rs:9-11 | the loop of `part1` from an unseen index is the loop from the next machine with that index recorded |
| Handheld.TerminateStep | src/challenge/day8/mod.rs:39-44 | the same for `check_terminate` when the step does not land on the end |
| Handheld.Part1Unfold | src/challenge/day8/mod.rs:9-11 | after `k` steps without a repeat, the loop is the loop from the `k`-th machine with the indices of those steps recorded |
| Handheld.Part1Forward | src/challenge/day8/mod.rs:9-12 | an accumulator the loop reports is the one at the first repeated index |
| Handheld.Part1FirstRepeat | src/challenge/day8/mod.rs:5-13 | the loop reports `acc` exactly when the run first reaches an index it has already run with accumulator `acc` |
| Handheld.TerminateUnfold | src/challenge/day8/mod.rs:35-46 | after `k` steps without a repeat or reaching the end, `check_terminate` is its loop from the `k`-th machine |
| Handheld.TerminateForward | src/challenge/day8/mod.rs:35-46 | an `Ok` of the loop is the accumulator when the run first lands one past the last instruction, and an error means an index repeated first |
| Handheld.TerminateReachesEnd | src/challenge/day8/mod.rs:35-46 | `check_terminate` returns `Ok(acc)` exactly when the run lands one past the end, before any repeat, with accumulator `acc` |
| Handheld.TerminateCycles | src/challenge/day8/mod.rs:35-46 | `check_terminate` reports a cycle exactly when the run repeats an index before reaching the end |
| Handheld.Flip | src/challenge/day8/mod.rs:17-21 | `nop` and `jmp` swap and `acc` stays |
| Handheld.Patch | src/challenge/day8/mod.rs:22-26 | the code with one instruction's operation flipped and everything else unchanged |
| Handheld.PatchTwice | src/challenge/day8/mod.rs:22-26 | flipping the same instruction twice restores the code |
| Handheld.SearchFirst | src/challenge/day8/mod.rs:16-32 | the search fails exactly when no candidate from `from` on repairs the code; a success is the repair of some `nop`/`jmp` with every earlier candidate failing |
| Handheld.Part1 | src/challenge/day8/mod.rs:5-13 | a parse error is passed on; a run that finishes returns the accumulator |
| Handheld.Part1Answer | src/challenge/day8/mod.rs:5-13 | on parsed code, part 1 returns `acc` exactly when the run first repeats an index with accumulator `acc` |
| Handheld.Part2 | src/challenge/day8/mod.rs:14-33 | a parse error is passed on |
| Handheld.FirstRepairWins | src/challenge/day8/mod.rs:16-30 | the first candidate whose patched code terminates gives the answer |
| Handheld.SearchFindsRepair | src/challenge/day8/mod.rs:16-32 | a success of the search is a repair with every earlier candidate failing |
| Handheld.RepairIsFound | src/challenge/day8/mod.rs:16-32 | the first repairing candidate's accumulator is what the search returns |
| Handheld.Part2Answer | src/challenge/day8/mod.rs:14-33 | on parsed code, part 2 returns `acc` exactly when flipping the `i`-th instruction makes the program end with `acc` and every earlier instruction is an `acc` or its flip makes the program cycle |
| Xmas.SumOfTwo | src/challenge/day9/mod.rs:81-91 | `is_sum_of_two` is true exactly when some slot plus itself or a later slot makes `e` |
| Xmas.SumOfTwoValues | src/challenge/day9/mod.rs:81-91 | that is, when some two values of the buffer, possibly the same value, add up to `e` |
| Xmas.SumOfTwoSameValues | src/challenge/day9/mod.rs:73 | the answer depends only on which values the buffer holds, not on their order |
| Xmas.NewRing | src/challenge/day9/mod.rs:99-101 | a fresh ring holds its vector in order |
| Xmas.Insert | src/challenge/day9/mod.rs:105-108 | `insert` keeps the ring's size and a cursor inside it |
| Xmas.InsertSlides | src/challenge/day9/mod.rs:105-108 | read from the cursor, inserting drops the oldest value and appends the new one |
| Xmas.ContentsValues | src/challenge/day9/mod.rs:102-104 | the ring's slice holds the same values as its contents read from the cursor |
| Xmas.FirstInvalid | src/challenge/day9/mod.rs:70-79 | the first index from `from` on whose number is not a sum of two of the `p` numbers before it; none exactly when every such number is valid |
| Xmas.FindIncorrectElement | src/challenge/day9/mod.rs:70-79 | panics exactly when the preamble is longer than the data; otherwise `Ok` exactly when an invalid number exists, and then it is the first one |
| Xmas.RingSumOfTwo | src/challenge/day9/mod.rs:72-75 | a ring holding the `p` numbers before `k` answers the sum test for `k`'s number as the window would |
| Xmas.RingStep | src/challenge/day9/mod.rs:72-76 | inserting `k`'s number moves the ring's window one number on |
| Xmas.MinMax | src/challenge/day9/mod.rs:44-53 | the positions of a least and a greatest element |
| Xmas.Weakness | src/challenge/day9/mod.rs:22-57 | a returned weakness comes from a window of at least one number that sums to the invalid number, and is its least plus its greatest element |
| Xmas.SlideWindow | src/challenge/day9/mod.rs:22-43 | when the loop stops on a match, the window sums to the invalid number |
| Xmas.WeaknessOf | src/challenge/day9/mod.rs:44-54 | the least plus the greatest element of the window |
| Xmas.WindowSum | src/challenge/day9/mod.rs:24-42 | a window's sum is the difference of two prefix sums, which the loop keeps as `total` |
| Xmas.FindWeakness | src/challenge/day9/mod.rs:18-58 | panics when the preamble is longer than the data; when it finishes, `Ok` exactly when some number is invalid, and an `Ok` comes from a window of consecutive numbers summing to the first invalid number, as its least plus its greatest |
| Xmas.Part1 | src/challenge/day9/mod.rs:6-16 | a parse error is passed on; panics exactly when there are fewer than 25 numbers; otherwise `Ok` exactly when some number is invalid, and then the first invalid number |
| Xmas.Part2 | src/challenge/day9/mod.rs:9-11 | a parse error is passed on; panics when there are fewer than 25 numbers; when it finishes, `Ok` exactly when some number is invalid, and an `Ok` is the weakness of a window summing to the first invalid number |
| Xmas.SelfPair | src/challenge/day9/mod.rs:81-91 | `[3]` counts 6 as a sum of two, pairing 3 with itself, and not 5 |
| Adapters.Gaps | src/challenge/day10/mod.rs:8-16 | one gap more than there are adapters: the first rating, the device's 3, then each consecutive difference |
| Adapters.Bump | src/challenge/day10/mod.rs:9-15 | `*entry(d).or_insert(0) += 1`: `d` gains one and every other count is unchanged |
| Adapters.TallyCounts | src/challenge/day10/mod.rs:7-19 | each histogram entry is the number of gaps of that size, and only sizes that occur have an entry |
| Adapters.Part1 | src/challenge/day10/mod.rs:4-21 | a parse error is passed on; no adapters panics; otherwise the number of 1-gaps times the number of 3-gaps |
| Adapters.Reach | src/challenge/day10/mod.rs:40 | the length of the prefix of adapters rated less than 4 above `start` |
| Adapters.Combos | src/challenge/day10/mod.rs:30-52 | `combos` without its cache: no adapters left is one arrangement, and a first adapter out of reach leaves none |
| Adapters.ConnectedHasArrangement | src/challenge/day10/mod.rs:30-52 | when every gap is under 4 there is at least one arrangement |
| Adapters.Rank | src/challenge/day10/mod.rs:41 | the number of leading adapters rated at most `k` |
| Adapters.RankOfMember | src/challenge/day10/mod.rs:41 | in an increasing list, the adapters after the `j`-th are those rated above it |
| Adapters.CombosCached | src/challenge/day10/mod.rs:30-52 | for an increasing list, `combos` with its cache returns the uncached count and keeps only true counts in the cache |
| Adapters.AdaptersAbove | src/challenge/day10/mod.rs:41 | the slice passed to each recursive call is the adapters rated above its start, so the cache key determines the slice |
| Adapters.Part2 | src/challenge/day10/mod.rs:23-28 | a parse error is passed on; for distinct positive ratings the count of arrangements from the outlet |
| Adapters.SmallArrangements | src/challenge/day10/mod.rs:30-52 | adapters 1, 2, 3 give four arrangements |
| Adapters.SmallGaps | src/challenge/day10/mod.rs:8-16 | adapters 1, 2, 3 give gaps 1, 3, 1, 1 |
| Seating.ParseTile | src/challenge/day11/mod.rs:114-119 | `Ok` exactly for `.`, `L` and `#` |
| Seating.ParseTileChar | src/challenge/day11/mod.rs:114-119 | every tile's display character (the `Display` impl) parses back to that tile |
| Seating.ParseRow | src/challenge/day11/mod.rs:113-119 | `Ok` exactly when every character is a tile character, one tile per character |
| Seating.ParseGrid | src/challenge/day11/mod.rs:113-119 | a rectangular grid with one row per line, each tile the parse of its character |
| Seating.DirsAreDirs | src/challenge/day11/mod.rs:29-30 | the eight directions are exactly the non-zero unit steps |
| Seating.InsideHorizon | src/challenge/day11/mod.rs:46-60 | a point on a ray that is still inside the grid is closer than the horizon, so the scan ends |
| Seating.ScanSees | src/challenge/day11/mod.rs:46-60 | `scan_direction` is true exactly when, along the ray, the first seat inside the grid is occupied |
| Seating.CountSeen | src/challenge/day11/mod.rs:28-44 | the number of directions the rule counts, at most the number of directions |
| Seating.Neighbours | src/challenge/day11/mod.rs:28-44 | the rule's count is at most 8 |
| Seating.NoFloorRulesAgree | src/challenge/day11/mod.rs:28-60 | on a grid without floor the line-of-sight rule counts the same as the adjacency rule |
| Seating.NextTile | src/challenge/day11/mod.rs:90-106 | floor stays floor; an empty seat fills exactly when the count is 0; an occupied seat empties exactly when the count reaches the tolerance |
| Seating.NextRow | src/challenge/day11/mod.rs:85-107 | each tile of the row is the next tile for its count on the read grid |
| Seating.NextGrid | src/challenge/day11/mod.rs:85-107 | the next grid has the same shape and each tile is the next tile for its count on the old grid |
| Seating.FloorFixed | src/challenge/day11/mod.rs:90-91 | a tile is floor after the step exactly when it was before |
| Seating.Step | src/challenge/day11/mod.rs:76-110 | `step` flips `swp`, writes the next grid into the other buffer, leaves the read buffer as it was, and returns true exactly when the grid changed |
| Seating.CountAtMostSeats | src/challenge/day11/mod.rs:70-75 | no more tiles are occupied than are seats |
| Seating.Evolve | src/challenge/day11/mod.rs:7-9 | the grid after `k` steps keeps the shape |
| Seating.SettleFixedPoint | src/challenge/day11/mod.rs:7-9 | when the loop stops within the fuel, the grid is one of the evolved grids and a further step leaves it unchanged |
| Seating.EvolveShift | src/challenge/day11/mod.rs:7-9 | `k` steps after the first step are `k + 1` steps |
| Seating.ParseBoard | src/challenge/day11/mod.rs:113-125 | `Ok` exactly when the grid parses, and then both buffers hold it |
| Seating.Solve | src/challenge/day11/mod.rs:5-20 | an error exactly when the grid does not parse; a count returned is the number of occupied seats of a grid the rules leave unchanged, reached from the input within the fuel |
| Seating.Isolated | src/challenge/day11/mod.rs:28-37 | a seat whose neighbours are all outside the grid counts none |
| Seating.LoneNeighbours | src/challenge/day11/mod.rs:28-37 | a 1x1 grid has no neighbours |
| Seating.LoneSeat | src/challenge/day11/mod.rs:90-106 | on a 1x1 grid a seat is occupied after one step |
| Navigation.Manhattan | src/challenge/day12/mod.rs:108-110 | the distance is zero exactly at the origin and at least each coordinate's size |
| Navigation.Anticlockwise | src/challenge/day12/mod.rs:118-129 | turning anticlockwise then clockwise gives the heading back |
| Navigation.TurnAdd | src/challenge/day12/mod.rs:67-73 | turning by `a` then by `b` quarter turns is turning by `a + b` |
| Navigation.TurnManhattan | src/challenge/day12/mod.rs:67-73 | quarter turns keep the distance from the origin |
| Navigation.QCos | src/challenge/day12/mod.rs:56-65 | the quarter-turn cosine is -1, 0 or 1, squares with the sine to 1, and is the sine a quarter turn on |
| Navigation.AsUsize | src/challenge/day12/mod.rs:68 | `as usize` keeps values in range and wraps the rest |
| Navigation.RotationMatrix | src/challenge/day12/mod.rs:67-73 | the sine/cosine matrix for `q` quarters is `q` quarter turns |
| Navigation.RotateTurns | src/challenge/day12/mod.rs:67-73 | `rotate` is a number of quarter turns, so it keeps the distance from the origin |
| Navigation.AsUsizeMod4 | src/challenge/day12/mod.rs:68 | the `usize` cast keeps the value modulo 4 |
| Navigation.QuartersOfMultiple | src/challenge/day12/mod.rs:68 | for a multiple of 90 degrees the quarter count is right modulo 4, for negative angles too |
| Navigation.RotateRightAngles | src/challenge/day12/mod.rs:67-73 | rotating by `90k` degrees is `k` anticlockwise quarter turns |
| Navigation.RotateExamples | src/challenge/day12/mod.rs:67-73 | 0, 90, -90 and 180 degrees move a point as expected |
| Navigation.LeftThenRight | src/challenge/day12/mod.rs:84-85 | a rotation by a multiple of 90 degrees is undone by the opposite rotation |
| Navigation.OffAngleNotUndone | src/challenge/day12/mod.rs:67-73 | for 45 degrees it is not: `(1, 0)` comes back as `(0, -1)`, since the quarter count truncates |
| Navigation.DeltaTurns | src/challenge/day12/mod.rs:118-129 | a compass turn of the heading is a quarter turn of its unit step |
| Navigation.ParseCommand | src/challenge/day12/mod.rs:147-156 | `Ok` exactly for the seven command letters, each parsed to its command |
| Navigation.ParseInstr | src/challenge/day12/mod.rs:146-162 | panics exactly on an empty line or one whose first character is not one byte; succeeds exactly when the first letter is a command and the rest an `i64` |
| Navigation.ParseFormatInstr | src/challenge/day12/mod.rs:146-162 | every instruction with an `i64` magnitude round-trips through `<letter><number>` |
| Navigation.Parse | src/challenge/day12/mod.rs:142-144 | succeeds exactly when every line does, one instruction per line |
| Navigation.WaypointStep | src/challenge/day12/mod.rs:75-91 | moves shift the waypoint, `F` moves the ship by the waypoint `magnitude` times, turns keep the waypoint's distance, and only `F` moves the ship |
| Navigation.WaypointLeftRight | src/challenge/day12/mod.rs:84-85 | a left turn then the same right turn by a multiple of 90 degrees leaves the waypoint ship as it was |
| Navigation.WaypointTurn | src/challenge/day12/mod.rs:84-85 | a turn rotates only the waypoint, left by the magnitude and right by its negation |
| Navigation.TurnCount | src/challenge/day12/mod.rs:119 | the truncating `magnitude / 90`, zero below 90 |
| Navigation.ShipStep | src/challenge/day12/mod.rs:112-140 | turns only change the heading, moves and `F` only the position, by the magnitude in the compass direction or the heading |
| Navigation.ClockwiseDelta | src/challenge/day12/mod.rs:118-129 | `n` clockwise turns of the heading are `n` clockwise quarter turns of its unit step |
| Navigation.AnticlockwiseDelta | src/challenge/day12/mod.rs:118-129 | the same anticlockwise |
| Navigation.TurnAgreesWithRotate | src/challenge/day12/mod.rs:67-73 | for non-negative multiples of 90, turning the heading agrees with rotating its unit step |
| Navigation.ShipIsUnitWaypoint | src/challenge/day12/mod.rs:75-140 | on `F` and turns by non-negative multiples of 90, the ship moves as a waypoint ship whose waypoint is its heading's unit step |
| Navigation.Part1 | src/challenge/day12/mod.rs:5-13 | panics or fails exactly when parsing does; otherwise the distance of the ship after every instruction |
| Navigation.Part2 | src/challenge/day12/mod.rs:14-22 | the same for the waypoint ship |
| Navigation.ShipExample | src/challenge/day12/mod.rs:112-140 | `F10`, `R90`, `F11` leave the ship at `(10, -11)` heading south |
| Navigation.WaypointExample | src/challenge/day12/mod.rs:75-91 | `F10` from the start moves the waypoint ship to `(100, 10)` |
| ShuttleSearch.WaitDeparts | src/challenge/day13/mod.rs:28-29 | for a real time and bus, the wait is 1 to `c` minutes and lands on a departure; it is `c` exactly when the bus leaves at `at` itself |
| ShuttleSearch.WaitIsFirst | src/challenge/day13/mod.rs:28-29 | no time strictly between `at` and the wait is a departure of that bus |
| ShuttleSearch.FirstMin | src/challenge/day13/mod.rs:33 | `min_by_key` picks a least key, and the first one among equals |
| ShuttleSearch.NextBus | src/challenge/day13/mod.rs:24-35 | panics exactly when a bus id is 0; errs exactly on no candidates; otherwise the first bus with the least wait, together with that wait |
| ShuttleSearch.InService | src/challenge/day13/mod.rs:11 | keeps exactly the ids of the buses in service |
| ShuttleSearch.ParseEntry | src/challenge/day13/mod.rs:58-66 | `x` is out of service; anything else must be an `i64` |
| ShuttleSearch.ParseSchedule | src/challenge/day13/mod.rs:55-68 | succeeds exactly when every comma-separated entry parses, one entry per field |
| ShuttleSearch.ParseFormatEntry | src/challenge/day13/mod.rs:58-66 | every entry round-trips through its text, which has no comma |
| ShuttleSearch.ParseFormatSchedule | src/challenge/day13/mod.rs:55-68 | every non-empty schedule round-trips through its comma-joined text |
| ShuttleSearch.Parse | src/challenge/day13/mod.rs:37-53 | succeeds exactly when there are two lines, the first an `i64` and the second a schedule |
| ShuttleSearch.Part1 | src/challenge/day13/mod.rs:6-17 | parse errors pass through; panics exactly when bus 0 is in service; otherwise the next bus's id times its wait |
| ShuttleSearch.Part2 | src/challenge/day13/mod.rs:18-22 | parse errors pass through; otherwise `chain_offset` of the schedule, which for positive ids does not panic and lines every bus up |
| ShuttleSearch.ScheduleExample | src/challenge/day13/mod.rs:110-112 | `17,x,13,19` parses to three buses around a gap |
| ShuttleSearch.EarliestExample | src/challenge/day13/mod.rs:110-112 | its earliest aligned time is 3417 |
| RemOffset.ExtGcd | src/challenge/day13/rem_offset.rs:37 | Bezout coefficients for the greatest common divisor, zero only for two zeros |
| RemOffset.InverseMod | src/challenge/day13/rem_offset.rs:37-43 | an inverse in `[0, m)` when it answers, and none exists when it does not |
| RemOffset.Lift | src/challenge/day13/rem_offset.rs:50-52 | adding the period while negative gives the least non-negative value in the offset's class |
| RemOffset.OffsetRem | src/challenge/day13/rem_offset.rs:34-73 | errs exactly without an inverse; period `c1 * c2`; for positive ids the offset is in `[0, period)`, `c1_offset` modulo `c1` and leaves `target` before a departure of `c2` |
| RemOffset.RemMultiple | src/challenge/day13/rem_offset.rs:48 | Rust's truncating `%` stays in the dividend's class |
| RemOffset.CombinedModC1 | src/challenge/day13/rem_offset.rs:45-48 | the combined value keeps `c1_offset` modulo `c1` |
| RemOffset.CombinedModC2 | src/challenge/day13/rem_offset.rs:45-48 | and is `-target` modulo `c2` |
| RemOffset.OffsetAligned | src/challenge/day13/rem_offset.rs:48-52 | the reduced and lifted offset keeps both congruences and lies in `[0, c1 * c2)` |
| RemOffset.ChainOffset | src/challenge/day13/rem_offset.rs:3-32 | errs on an empty chain or one that starts out of service; for positive ids it does not panic and any answer lines bus `j` up `j` minutes later |
| RemOffset.ChainAligned | src/challenge/day13/rem_offset.rs:19-31 | each step of the loop keeps the buses seen so far aligned |
| RemOffset.AlignedStep | src/challenge/day13/rem_offset.rs:26-28 | folding in one bus aligns it and keeps the earlier ones |
| RemOffset.OffsetRemExample1 | src/challenge/day13/rem_offset.rs:99-102 | `offset_rem(3, 5, 1, 0)` is `(9, 15)` |
| RemOffset.OffsetRemExample2 | src/challenge/day13/rem_offset.rs:104-107 | `offset_rem(15, 7, 2, 9)` is `(54, 105)` |
| RemOffset.OffsetRemExample3 | src/challenge/day13/rem_offset.rs:109-112 | `offset_rem(17, 13, 2, 0)` is `(102, 221)` |
| RemOffset.OffsetRemExample4 | src/challenge/day13/rem_offset.rs:122-125 | `offset_rem(221, 19, 3, 102)` is `(3417, 4199)` |
| RemOffset.ChainExample | src/challenge/day13/rem_offset.rs:127-131 | the chain `17, x, 13, 19` starts at 3417 |
| Bitmask.BitsValueOfToBits | src/challenge/day14/mask_cpu.rs:7-8 | a number below `2^width` is read back from its low `width` bits |
| Bitmask.ToBitsOfBitsValue | src/challenge/day14/mask_cpu.rs:7-8 | and a bit pattern from its number, so a u64 and its 64 bits are interchangeable |
| Bitmask.FromNatOfValue | src/challenge/day14/mask_cpu.rs:7-8 | every 64-bit word is a u64 and converts back to itself |
| Bitmask.Apply | src/challenge/day14/mask_cpu.rs:12-16 | a result bit is set exactly when the mask does not force it to 0 and either forces it to 1 or finds it set |
| Bitmask.ApplyWellFormed | src/challenge/day14/mask_cpu.rs:12-16 | under a parsed mask, forced bits take the forced value and every other bit, the 28 high bits included, is copied |
| Bitmask.ApplyNoMask | src/challenge/day14/mask_cpu.rs:5-9 | the default mask changes nothing |
| Bitmask.ApplyIdempotent | src/challenge/day14/mask_cpu.rs:12-16 | applying a mask twice is applying it once |
| Bitmask.ParseMaskFrom | src/challenge/day14/mask_cpu.rs:23-31 | from `idx` on, succeeds exactly when every character is `0`, `1` or `X`, setting exactly the bits of the `1`s and `0`s read |
| Bitmask.ParseMask | src/challenge/day14/mask_cpu.rs:19-33 | succeeds exactly on texts of `0`, `1` and `X`; character `i` forces bit `35 - i` as written, nothing else is forced, and no bit is forced both ways |
| Bitmask.ParseFormatMask | src/challenge/day14/mask_cpu.rs:19-33 | every well-formed mask round-trips through its 36-character text |
| Bitmask.FormatParseMask | src/challenge/day14/mask_cpu.rs:19-33 | every accepted 36-character text round-trips through its mask |
| Bitmask.ParseEmptyMaskExample | src/challenge/day14/mask_cpu.rs:125-130 | 36 `X`s force nothing |
| Bitmask.ParseZeroSmallExample | src/challenge/day14/mask_cpu.rs:132-137 | a final `0` forces bit 0 to 0 |
| Bitmask.ParseOneSmallExample | src/challenge/day14/mask_cpu.rs:138-143 | a final `1` forces bit 0 to 1 |
| Bitmask.ParseZeroLargeExample | src/challenge/day14/mask_cpu.rs:145-150 | a leading `0` forces bit 35, `zeros` = 34359738368 |
| Bitmask.ParseMixedExample | src/challenge/day14/mask_cpu.rs:151-156 | `...0X101X` gives `ones` = 10 and `zeros` = 36 |
| Bitmask.ApplyExamples | src/challenge/day14/mask_cpu.rs:158-164 | the puzzle mask sends 11 to 73, 101 to 101 and 0 to 64 |
| MaskCpu.SetSlot | src/challenge/day14/mask_cpu.rs:41-47 | the tape grows with zeros just enough to hold `idx`, slot `idx` takes the value and no other slot changes |
| MaskCpu.ParseMemAt | src/challenge/day14/mask_cpu.rs:70-79 | with the first `]` at `e`, succeeds exactly when the text before it is a `usize` address and the text four past it a `u64` value, and holds those two |
| MaskCpu.ParseSetValue | src/challenge/day14/mask_cpu.rs:66-79 | succeeds exactly when there is a `]` with a well-formed address and value around the first one, and holds those two |
| MaskCpu.ParseInstruction | src/challenge/day14/mask_cpu.rs:58-85 | a `mask = ` line succeeds exactly when its mask parses, a `mem[` line exactly when its address and value do, anything else is an error |
| MaskCpu.ParseFormatInstruction | src/challenge/day14/mask_cpu.rs:58-85 | every instruction with a well-formed mask, `usize` address and `u64` value round-trips through its text, without panicking |
| MaskCpu.ExecuteIsLastWriteWins | src/challenge/day14/mask_cpu.rs:105-118 | after a program the mask is the last one set, the tape ends at the highest address written, and each slot holds its last write under the mask in force then, or 0 |
| MaskCpu.UnwrittenIsZero | src/challenge/day14/mask_cpu.rs:41-47 | addresses past the highest write hold 0 |
| MaskCpu.ProgramSumsFinalValues | src/challenge/day14/mask_cpu.rs:105-111 | `program` sums the last-write-wins values |
| MaskCpu.ParseProgram | src/challenge/day14/mask_cpu.rs:89-96 | succeeds exactly when every line parses without panicking, one instruction per line |
| MaskCpu.Part1 | src/challenge/day14/mod.rs:6-10 | panics or fails exactly when parsing does; otherwise the sum of the last-write-wins values |
| MemoryGame.LastTurn | src/challenge/day15/memory_sequence.rs:33-39 | the turn a number was last spoken: absent exactly when it never was, and no later turn spoke it |
| MemoryGame.NextSpoken | src/challenge/day15/memory_sequence.rs:40-47 | the next number is positive exactly when the last one had been spoken before, and is less than the turn count |
| MemoryGame.Spoken | src/challenge/day15/memory_sequence.rs:56-62 | `n` turns after the starting numbers, which stay in front |
| MemoryGame.RepresentsValid | src/challenge/day15/memory_sequence.rs:5-10 | a memory that follows a game keeps the type's invariant: a non-zero counter and only earlier turns recorded |
| MemoryGame.ExtendIfNeeded | src/challenge/day15/memory_sequence.rs:48-53 | the history grows with empty entries just enough to index `x`, keeping what it held |
| MemoryGame.Push | src/challenge/day15/memory_sequence.rs:24-32 | the counter advances, the pushed number becomes the last, the previous last is recorded at the current turn, and nothing else changes |
| MemoryGame.PushRepresents | src/challenge/day15/memory_sequence.rs:24-32 | pushing keeps the memory in step with the spoken numbers |
| MemoryGame.Init | src/challenge/day15/memory_sequence.rs:13-23 | panics exactly on no starting numbers; otherwise the memory of the starting numbers |
| MemoryGame.AgeOf | src/challenge/day15/memory_sequence.rs:33-39 | the age is below the counter and zero exactly when the number was never recorded |
| MemoryGame.Turn | src/challenge/day15/memory_sequence.rs:40-47 | speaks the last number's age, zero exactly when it was new, and pushes it |
| MemoryGame.TurnFollowsRules | src/challenge/day15/memory_sequence.rs:40-47 | a turn speaks the number the game's rule gives and keeps the memory in step |
| MemoryGame.Next | src/challenge/day15/memory_sequence.rs:59-62 | the iterator never ends and yields each turn |
| MemoryGame.Play | src/challenge/day15/memory_sequence.rs:56-62 | `i` turns of the memory follow `i` turns of the game |
| MemoryGame.PlayTurns | src/challenge/day15/mod.rs:19-20 | the loop of `nth` reaches the same memory |
| MemoryGame.NumberAt | src/challenge/day15/mod.rs:18-21 | panics exactly on no starting numbers or a target not past them; otherwise the number spoken on turn `target` |
| MemoryGame.LastSpoken | src/challenge/day15/mod.rs:20 | the memory's last number is the last one spoken |
| MemoryGame.ParseInput | src/challenge/day15/mod.rs:23-33 | succeeds exactly when every comma- or whitespace-separated token is a `u32`, one number per token |
| MemoryGame.ParseFormatInput | src/challenge/day15/mod.rs:23-33 | every non-empty list of `u32`s round-trips through its comma-joined text |
| MemoryGame.NumberAtInput | src/challenge/day15/mod.rs:8-21 | parse errors pass through; otherwise `number_at` of the parsed numbers |
| MemoryGame.Part1 | src/challenge/day15/mod.rs:8-11 | the number spoken on turn 2020, with the same errors and panics |
| MemoryGame.Part2 | src/challenge/day15/mod.rs:13-16 | the number spoken on turn 30000000, with the same errors and panics |
| MemoryGame.ExampleSequence | src/challenge/day15/mod.rs:49-56 | from `0,3,6` the next seven numbers are `0, 3, 3, 1, 0, 4, 0` |
| TicketTranslation.AnyClass | src/challenge/day16/mod.rs:13 | true exactly when some field holds the value |
| TicketTranslation.RangeInclusive | src/challenge/day16/mod.rs:165-178 | the range 3-5 holds 3, 4 and 5 but not 2 or 6 |
| TicketTranslation.ValidIffNoErrors | src/challenge/day16/mod.rs:21-29 | a ticket passes the `part2` filter exactly when it has no invalid value |
| TicketTranslation.InvalidValuesAppend | src/challenge/day16/mod.rs:10-13 | the invalid values of two ticket lists are those of each, in order |
| TicketTranslation.ErrorRateAppend | src/challenge/day16/mod.rs:10-14 | the error rate adds up over a split of the tickets |
| TicketTranslation.PositiveErrorsShow | src/challenge/day16/mod.rs:10-14 | with positive values, a ticket adds to the error rate exactly when it is invalid |
| TicketTranslation.ZeroMisfit | src/challenge/day16/mod.rs:10-14 | a value 0 that no field holds makes a ticket invalid yet adds nothing to the error rate |
| TicketTranslation.ValidTickets | src/challenge/day16/mod.rs:21-29 | keeps exactly the tickets whose every value fits some field |
| TicketTranslation.ValidTicketsNoErrors | src/challenge/day16/mod.rs:21-29 | the kept tickets have no invalid values and a zero error rate |
| TicketTranslation.ParseRange | src/challenge/day16/mod.rs:92-104 | succeeds exactly when the text before the first `-` is an `i64` and the trimmed text after it another, giving the range between them |
| TicketTranslation.ParseFormatRange | src/challenge/day16/mod.rs:92-104 | every range with non-negative ends round-trips through `start-end` |
| TicketTranslation.ParseClass | src/challenge/day16/mod.rs:72-90 | succeeds exactly when there is a `:` and, in the trimmed text after it, two ` or `-separated ranges; the name is the text before the `:` |
| TicketTranslation.ParseFormatClass | src/challenge/day16/mod.rs:72-90 | every field whose name has no `:` and whose ranges are non-negative round-trips through `name: a-b or c-d` |
| TicketTranslation.ParseTicket | src/challenge/day16/mod.rs:106-116 | succeeds exactly when every comma-separated field is an `i64`, one value per field |
| TicketTranslation.ParseFormatTicket | src/challenge/day16/mod.rs:106-116 | every non-empty ticket of `i64`s round-trips through its comma-joined text |
| TicketTranslation.ParseClasses | src/challenge/day16/mod.rs:51-54 | one field per line, each parsed from its line, or an error from a line that fails |
| TicketTranslation.ParseTickets | src/challenge/day16/mod.rs:63-67 | one ticket per line after the header, or an error from a line that fails |
| TicketTranslation.Parse | src/challenge/day16/mod.rs:40-70 | fails without three blank-line-separated chunks; otherwise the fields of the first, the ticket on the second line of the second and the tickets of the third |
| TicketTranslation.Part1 | src/challenge/day16/mod.rs:4-16 | fails exactly when parsing does; otherwise the sum of the nearby values that no field holds |
| TicketTranslation.Part2 | src/challenge/day16/mod.rs:18-32 | fails exactly when parsing does; otherwise 0 |
| TicketTranslation.ExampleTicketErrors | src/challenge/day16/mod.rs:160-163 | in the puzzle example the nearby tickets' invalid values are none, 4, 55 and 12 |
| TicketTranslation.ExampleErrorRate | src/challenge/day16/mod.rs:160-163 | and the error rate is 71 |
| Numbers.TruncDiv | src/challenge/day12/mod.rs:119 | Rust's `/`: the quotient's size is the sizes' quotient, and its sign is negative exactly when the operands' signs differ |
| Numbers.TruncRem | src/challenge/day13/mod.rs:28 | Rust's `%`: dividend = divisor * quotient + remainder, the remainder smaller than the divisor and signed like the dividend |
| Text.Find | src/challenge/day14/mask_cpu.rs:67-69 | `find`: the first position where the pattern occurs, none exactly when it does not occur |
| Text.SplitOnce | src/challenge/day2/mod.rs:92-94 | splitting at the first occurrence of the pattern puts the text back together around it |
| Text.JoinSplit | src/challenge/day13/mod.rs:57 | `split` loses nothing: joining the pieces with the pattern gives the text back |
| Text.SplitJoin | src/challenge/day13/mod.rs:57 | splitting a join at a separator no piece holds gives the pieces back |
| Text.LinesUnlines | src/challenge/day13/mod.rs:38 | `lines` reads back lines written one per newline |
| Text.TrimPadded | src/challenge/day16/mod.rs:95 | `trim` removes exactly the surrounding whitespace |
| Text.Words | src/challenge/day15/mod.rs:24 | `split_whitespace` gives non-empty words with no whitespace in them |
| Text.ParseInteger | src/challenge/day13/mod.rs:42-44 | `parse` succeeds exactly on an optional sign and at least one digit whose value fits the type |
| Text.ParseI64OfString | src/challenge/day13/mod.rs:42-44 | every `i64` is read back from its decimal text |
| Seqs.Sort | src/challenge/day10/mod.rs:6 | `sort` gives an ascending permutation |
| Seqs.SortedUnique | src/challenge/day10/mod.rs:6 | and the ascending permutation is unique |
| Wrappers.CollectAll | src/challenge/day16/mod.rs:51-54 | `collect::<Result<Vec<_>>>` succeeds exactly when every item does, keeping their order; otherwise the error of a failing item |
| Wrappers.CollectOutcomes | src/challenge/day12/mod.rs:142-144 | the same where an item may panic: panics exactly when some item panics and every item before it succeeded |

## Left out

- All I/O: `challenge/mod.rs` (choosing a day, `read_to_string` on the input file) and the binary's argument handling. Each `part1`/`part2` takes the file contents as a string.
- Logging (`log::debug!`/`trace!`) and the grid printing in days 11 and 13. They only write output.
- Day 3 and the day template are not part of this model.
- Day 14 part 2: `execute_v4` is called at `src/challenge/day14/mod.rs:13` but is not defined in `mask_cpu.rs`, so part 2 is left out.
- Machine-integer overflow is not modelled unless a member's comment says so. This covers the `i64` products and the `target - input[iter_low]` of day 1, the `u32` products of day 5's `gauss_sum`, the sums in days 7, 9, 10 and 16, the `i64` positions of day 12, the `i64` products of day 13, the `u64` sum of day 14 and the `u32` turn counter of day 15. Integers are unbounded, so such results are the mathematical values.
- Expenses.Pt1: follows the corrected `find_expenses` (see Findings), which never pairs an entry with itself. `Expenses.Pt1AsWritten` models `pt1_impl` as written, including its panics on an empty list and on a list of two or more entries whose smallest entry is more than half the target.
- Expenses.Pt2: follows the corrected `find_triple_expenses`. `Expenses.Pt2AsWritten` models `pt2_impl` as written.
- Expenses.Pt2AsWritten: when it panics is stated one way only. It never panics on a list with a triple, and `Expenses.Pt2AsWrittenPanicsWithoutTriple` shows a panic on a list without one (see Findings). The exact set of panicking inputs is not stated, since it depends on which earlier round reuses an entry.
- GameConsole.Step: a forward `Jmp` whose target overflows `usize` is not modelled. `usize` is unbounded here, and the following `ix` bound check catches it.
- GameConsole.FormatInstruction: requires an argument other than `i64::MIN`. The source's `Debug` form negates the argument, and that negation overflows.
- Boarding.MissingSeat: the `u32` sum of the seat ids (`sum += id`) is unbounded here. The two `u32` underflows, `min_id - 1` and `expected_sum - sum`, are modelled as panics (`Part2Panics`).
- Passports.Part2: requires that no passport with valid years has a height shorter than two characters. The source panics there when it slices off the unit.
- Passports.HairColorFrom: as in the source, only the leading `#` and the lower-case hexadecimal digits are checked, not the length.
- Customs: the answer `KeySet` is modelled as a set of characters. Its bit-set library (`aoc::bitset`) is not part of this model, and `Key::from` is taken to keep distinct characters distinct.
- RuleGraph: the `petgraph` edge order is not modelled. The graph is a map from each bag to its outgoing edges, so the searches are stated as sets and sums independent of order.
- BagRules.BuildRules: the partly filled graph that the source drops on an error is not modelled. Only the error result is.
- BagRules.Part2: takes a `rank` map as evidence that the rule graph is acyclic, and requires it. On a cyclic graph the source recurses without end, and the model does not cover that case.
- Xmas.FindWeakness: proves only soundness. A returned value comes from a contiguous run summing to the first invalid number. It is not proved that the two-pointer scan finds a run whenever one exists.
- Xmas.IsSumOfTwo: as in the source, a slot may pair with itself, so a value equal to twice a window entry counts as a sum of two.
- Adapters.CombosCached: the cached count equals the uncached `Combos` only for a strictly increasing adapter list. On duplicate ratings the cache key is ambiguous and no result is promised.
- Adapters.Part2: like `CombosCached`, it is only related to `Combos` for strictly increasing positive ratings.
- Seating.Solve: the loop `while b.step(..)` is given a `fuel` bound on the number of rounds, and returns `None` when the grid has not settled within it. The source simply loops until it settles.
- Seating.Part1 and Seating.Part2 have no contracts of their own. They are `Solve` with the two rules, and `Solve` carries the contract.
- Seating: `aoc::grid::fixed_grid::FixedGrid` is not part of this model. The grid is a sequence of rows.
- Navigation.QCos: `q + 1` is unbounded here. `rotate` computes `q == usize::MAX` for angles from -539 to -450 (instructions `R450` to `R539`), and there the source's `q + 1` overflows, a panic in a debug build. The model gives the wrapped value, `Q_TRIG[0]`.
- Navigation.WaypointStep: the negation `-instr.magnitude` of a right turn is unbounded here. For a magnitude of `i64::MIN` the source overflows.
- Navigation: the direction deltas (east is `(1, 0)`, north is `(0, 1)`) are taken as given. They come from `aoc::grid::compass::Direction`, which is not part of this model.
- RemOffset.InverseMod: a stand-in, defined by the extended Euclidean algorithm, for `aoc::math::inverse_mod`, whose source is not part of this model. Its contract (an inverse modulo `m`, or none exactly when none exists) is what the chain relies on.
- RemOffset.ChainOffset: it is proved that the result satisfies every bus's remainder. It is not proved to be the least such time. Of the puzzle's example schedules only `17,x,13,19` (3417) is evaluated.
- ShuttleSearch: the puzzle examples that need the input files (earliest bus 295) are not evaluated.
- MaskCpu.Part1: the final sum of the memory words is an unbounded integer. The source's `u64` sum could overflow.
- MaskCpu: a mask longer than 36 characters whose first 36 are valid, and a `mem` line too short to hold its value, are modelled as panics (`MaskPanics`, `MemPanics`). A shorter mask parses. A write to address `usize::MAX` panics in the source, since `idx + 1` overflows in `Memory::set` (`src/challenge/day14/mask_cpu.rs:42`); the model writes that address like any other.
- MemoryGame: the `Vec::with_capacity` hint of `Sequence::init` (`src/challenge/day15/memory_sequence.rs:15`) is not modelled. The `NonZeroU32` last-seen turn is an `Option<nat>`. The 2020th and 30000000th numbers of the puzzle examples are not evaluated.
- TicketTranslation.Part2: the source's part 2 filters the tickets and then returns 0, and the model does the same.
- TicketTranslation.ParseFormatRange: is stated for non-negative bounds only. A negative bound's minus sign would clash with the `-` that separates the bounds, so such a range does not read back.
- TicketTranslation.Parse: states what a successful parse yields. It does not state the converse, which inputs parse.
- TicketTranslation: the borrowed-string lifetimes of the parsed field names are not modelled. Names are copied strings.

## Findings

| source | as written | input that shows it | evidently intended | confidence | as-written member | corrected member |
|---|---|---|---|---|---|---|
| src/challenge/day1/mod.rs:38-58 | the inner scan of `find_expenses` moves `high` down without stopping at `low`, so one entry can be paired with itself | `[1010, 2000]` with target 2020 returns `(1010, 1010)` | two different entries that sum to the target | not executed | Expenses.FindExpensesReusesEntry | Expenses.FindExpenses |
| src/challenge/day1/mod.rs:28-36 | `find_triple_expenses` searches `input[idx..]` for the remaining pair, and this slice still holds the entry just chosen | `[500, 1020]` returns `500 * 1020 * 500` | the pair is searched in `input[idx + 1..]`, three different entries | not executed | Expenses.FindTripleReusesEntry | Expenses.FindTripleExpenses |
| src/challenge/day1/mod.rs:28-45 | `find_triple_expenses` hands every slice `input[idx..]` to `find_expenses`, whose inner loop underflows once the slice's smallest entry is more than half the remaining target | `[100, 700, 800]`: the round for 700 searches `[700, 800]` for 1320, and `iter_high -= 1` underflows | `Err("could not find valid expenses")` for a list without a triple | not executed | Expenses.Pt2AsWrittenPanicsWithoutTriple | Expenses.Pt2 |
