# Advent of Code 2024, days 1 to 4, in Dafny

This project models the four puzzle solvers in `src/advent_of_code_2024/main.py` and proves what each one computes. Every solver works on input that has already been loaded; reading the input files is not modelled.

- **Day 1: lists** (`day1_lists.dfy`, module `ListDistance`).
  - `calculate_total_list_distance` sorts both lists, pairs them as `zip` does, and sums the absolute differences.
  - `calculate_similarity_score` weights each value of the first list by a `Counter` of the second list.
- **Day 2: reports** (`day2_reports.dfy`, module `Reports`).
  - `is_report_safe` is modelled as a method. The plain check is a predicate. The tolerant retry is a second method holding the source's `for` loop over the removed index, written here as a `while` loop with an invariant, which calls back into the first method for each copy. Both are proved against specification predicates.
  - The two counting wrappers are a count over a list of reports.
- **Day 3: instructions** (`day3_instructions.dfy`, module `Instructions`).
  - `get_mul_matches` is a hand-written scanner for the fixed pattern `mul(d{1,3},d{1,3})`. It follows `re.findall`: after a match the scan resumes at the match's end.
  - `get_enabled_code` is built from models of `str.split` and `str.join`.
- **Day 4: word search** (`day4_wordsearch.dfy`, module `WordSearch`).
  - `wordsearch` is modelled with `get_diagonal_pairs` and `resolve_pairs`. The grid is the list of its rows.
  - `wordsearch_complex` is modelled in the same way.
- **Python string built-ins** (`strings.dfy`, module `Strings`). The solvers rely on `str.split`, `"".join`, `str.count` and `re.finditer` with a literal pattern. This module models those built-ins and proves the facts about them that the solvers need.

Python integers are unbounded, so `int` and `nat` model them without wrap-around.

## Model

| member | source | states |
|---|---|---|
| `ListDistance.Sort` | src/advent_of_code_2024/main.py:23 | `sorted(...)`: the result is in ascending order and is a permutation of the input. |
| `ListDistance.SortIgnoresOrder` | src/advent_of_code_2024/main.py:23 | Two lists with the same multiset sort to the same list. |
| `ListDistance.PairDistances` | src/advent_of_code_2024/main.py:23 | The pairwise distances have as many entries as the shorter list, as `zip` gives. Entry `i` is `abs(a[i] - b[i])`. |
| `ListDistance.TotalListDistanceIsPairedSum` | src/advent_of_code_2024/main.py:21-24 | The total distance is the sum of `abs(a_i - b_i)` over the sorted lists, truncated to the shorter one. It is never negative. |
| `ListDistance.SumNonNegative` | src/advent_of_code_2024/main.py:23 | A sum of distances is non-negative, and it is zero exactly when every distance is zero. |
| `ListDistance.TotalListDistanceIgnoresOrder` | src/advent_of_code_2024/main.py:21-24 | Reordering either input list does not change the total distance. |
| `ListDistance.TotalListDistanceZero` | src/advent_of_code_2024/main.py:21-24 | For lists of equal length, the distance is 0 if and only if the lists are permutations of each other. |
| `ListDistance.Tally` | src/advent_of_code_2024/main.py:28 | `Counter(second_list)`: its keys are exactly the values in the list, each mapped to its positive number of occurrences. |
| `ListDistance.SimilarityScoreIsWeightedSum` | src/advent_of_code_2024/main.py:26-30 | The similarity score equals the sum, over the first list, of each value times its number of occurrences in the second list. |
| `ListDistance.SimilarityIgnoresAbsent` | src/advent_of_code_2024/main.py:29 | A value absent from the second list contributes nothing. |
| `ListDistance.SimilarityIgnoresOrderOfSecond` | src/advent_of_code_2024/main.py:26-30 | The score depends only on the multiset of the second list. |
| `ListDistance.WeightedOccurrencesDependsOnMultiset` | src/advent_of_code_2024/main.py:26-30 | The reference sum depends only on the multiset of the second list. |
| `Reports.Differences` | src/advent_of_code_2024/main.py:41 | There is one difference per consecutive pair of levels, and difference `i` is `report[i+1] - report[i]`. |
| `Reports.SignsSingleton` | src/advent_of_code_2024/main.py:43 | The set of signs has exactly one element if and only if there is at least one difference and all differences lie on the same side of zero. |
| `Reports.PureSafeCharacterization` | src/advent_of_code_2024/main.py:40-44 | A report is safe without tolerance if and only if it has at least two levels, every step has size 1 to 3, and it is strictly increasing or strictly decreasing. |
| `Reports.DifferencesSteps` | src/advent_of_code_2024/main.py:42 | All differences are in `1..3` in size if and only if every consecutive pair of levels differs by 1 to 3. |
| `Reports.DifferencesDirection` | src/advent_of_code_2024/main.py:43 | The shared sign of the differences is the direction of the report. |
| `Reports.Without` | src/advent_of_code_2024/main.py:52-53 | `del report_copy[i]` leaves one level fewer. |
| `Reports.WithoutLevels` | src/advent_of_code_2024/main.py:52-53 | After `del report_copy[i]` the levels before `i` stay in place and those after it move down by one. |
| `Reports.IsReportSafe` | src/advent_of_code_2024/main.py:40-56 | The method returns exactly the specified safety. For a tolerant call, this is "safe, or safe after removing some single level". |
| `Reports.RetryWithoutOneLevel` | src/advent_of_code_2024/main.py:51-56 | The early-returning loop returns true if and only if deleting some single level leaves a report that is safe without tolerance. |
| `Reports.TolerantIsSomeRemoval` | src/advent_of_code_2024/main.py:46-56 | For reports of at least three levels, the tolerant check succeeds if and only if some single removal yields a report that is safe without tolerance. A two-level safe report such as `[1, 2]` is accepted by the early return, although no removal leaves it safe. |
| `Reports.RemovalMakesSafe` | src/advent_of_code_2024/main.py:51-55 | If removing some level makes a report safe, the report is tolerant-safe. |
| `Reports.NoRemovalMakesSafe` | src/advent_of_code_2024/main.py:46-56 | An unsafe report on which no single removal helps is not tolerant-safe. |
| `Reports.SafeIsTolerantSafe` | src/advent_of_code_2024/main.py:46-47 | Every report that is safe without tolerance is tolerant-safe. |
| `Reports.PureSafeDropFirst` | src/advent_of_code_2024/main.py:51-54 | Removing the first level of a safe report with at least three levels leaves it safe. |
| `Reports.Safeties` | src/advent_of_code_2024/main.py:59-67 | The list of safeties has one entry per report, and entry `k` is the safety of report `k`. |
| `Reports.SafeReportCountBounds` | src/advent_of_code_2024/main.py:59-67 | The count without tolerance is at most the count with tolerance, and that is at most the number of reports. |
| `Reports.SafeReportCountCons` | src/advent_of_code_2024/main.py:59-67 | A report adds one to the count exactly when it is safe. |
| `Instructions.Product` | src/advent_of_code_2024/main.py:79-81 | The product of an instruction's two 1-to-3-digit operands is at most `999*999`. |
| `Instructions.DecimalValueBound` | src/advent_of_code_2024/main.py:81 | `int(x)` of an `n`-digit string is below `10^n`. |
| `Instructions.ParseMulSound` | src/advent_of_code_2024/main.py:79-80 | When the pattern matches at an offset, the text there is exactly `mul(x,y)` with the parsed operands. |
| `Instructions.ParseMulComplete` | src/advent_of_code_2024/main.py:79-80 | Wherever `mul(x,y)` with 1-to-3-digit operands occurs, the pattern matches there with those operands. |
| `Instructions.ParseMulNeedsM` | src/advent_of_code_2024/main.py:79 | A match can only start at an `m`. |
| `Instructions.MulMatchesIsPositionalSum` | src/advent_of_code_2024/main.py:78-81 | The `findall` scan, which resumes after each match, gives the sum of the products of the instructions at every offset. |
| `Instructions.SumProductsBound` | src/advent_of_code_2024/main.py:81 | A sum of `n` products lies between 0 and `n*999*999`. |
| `Instructions.MulMatchesBound` | src/advent_of_code_2024/main.py:78-81 | The total is non-negative and at most `999*999` per match found. |
| `Instructions.SingleInstruction` | src/advent_of_code_2024/main.py:78-81 | A text that is one well-formed instruction yields exactly that instruction's product. |
| `Instructions.ExactInstructionCounts` | src/advent_of_code_2024/main.py:78-81 | `mul(2,4)` yields 8. |
| `Instructions.NothingParsed` | src/advent_of_code_2024/main.py:78-81 | A text whose only `m` is its first character, and which does not match there, yields 0. |
| `Instructions.FourDigitOperandIgnored` | src/advent_of_code_2024/main.py:79 | `mul(1234,5)` yields 0: operands have at most three digits. |
| `Instructions.SpaceIgnored` | src/advent_of_code_2024/main.py:79 | `mul(1, 2)` yields 0: no spaces are allowed. |
| `Instructions.SquareBracketsIgnored` | src/advent_of_code_2024/main.py:79 | `mul[3,7]` yields 0: only round brackets match. |
| `Instructions.EnabledCodeStructure` | src/advent_of_code_2024/main.py:83-86 | The filtered code is the text before the first `don't()`, followed by what each later segment keeps. |
| `Instructions.ConcatKeptIsConcat` | src/advent_of_code_2024/main.py:85-86 | Joining the kept segments is the concatenation of each segment's kept part. |
| `Instructions.EnabledCodeWithoutDont` | src/advent_of_code_2024/main.py:83-86 | Code without any `don't()` is returned unchanged. |
| `Instructions.EnabledCodeKeepsLeadingText` | src/advent_of_code_2024/main.py:84-85 | The text before the first `don't()` is kept verbatim at the front of the result. |
| `Instructions.KeptAfterDontCharacterization` | src/advent_of_code_2024/main.py:85 | A segment without `do()` is dropped entirely. Otherwise the segment loses everything up to its first `do()`, and the rest is kept with its `do()` markers deleted. |
| `Instructions.KeptAfterDontLength` | src/advent_of_code_2024/main.py:85 | A kept segment is never longer than the segment. |
| `Instructions.EnabledCodeLength` | src/advent_of_code_2024/main.py:83-86 | The output is never longer than the input. It is exactly as long if and only if the input has no `don't()`. |
| `Instructions.GluedInstructionCounterexample` | src/advent_of_code_2024/main.py:258-259 | On `mul(2,don't()do()3)` the unfiltered text holds no instruction, yet filtering yields `mul(2,3)`, which scores 6. |
| `Instructions.SkipMarker` | src/advent_of_code_2024/main.py:84-85 | A `don't()` or `do()` marker contains no `m`, so no instruction starts inside it. |
| `Instructions.EnabledMulSumBounded` | src/advent_of_code_2024/main.py:83-86 | With the corrected semantics, switching instructions off gives a total between 0 and the unfiltered total. |
| `Instructions.EnabledMulSumWithoutDont` | src/advent_of_code_2024/main.py:83-86 | With the corrected semantics and no `don't()`, the total equals the unfiltered `get_mul_matches` total. |
| `Instructions.GluedInstructionCorrected` | src/advent_of_code_2024/main.py:258-259 | With the corrected semantics, the glued input scores 0. |
| `Strings.FindFromLeftmost` | src/advent_of_code_2024/main.py:84 | Searching for a separator finds its leftmost occurrence at or after the start, or reports none when there is none. |
| `Strings.SplitJoin` | src/advent_of_code_2024/main.py:84 | Joining the pieces of `str.split` with the separator gives the text back. |
| `Strings.SplitPiecesFree` | src/advent_of_code_2024/main.py:84-85 | No piece of a split contains the separator. |
| `Strings.SplitAtFirst` | src/advent_of_code_2024/main.py:84 | A split cuts at the first separator and then splits the rest. |
| `Strings.SplitWithoutSeparator` | src/advent_of_code_2024/main.py:84-85 | A text without the separator splits into itself alone. |
| `Strings.SplitWithSeparator` | src/advent_of_code_2024/main.py:84-85 | A text containing the separator splits into at least two pieces. |
| `Strings.JoinLength` | src/advent_of_code_2024/main.py:86 | The length of a join is the total length of the pieces plus one separator between each pair. |
| `Strings.MatchStarts` | src/advent_of_code_2024/main.py:158-159 | Every start that `finditer` reports is an occurrence of the pattern at or after the scan's start. |
| `Strings.MatchStartsComplete` | src/advent_of_code_2024/main.py:158-159 | For a pattern that cannot overlap itself, the non-overlapping scan reports exactly the offsets where the pattern occurs. |
| `Strings.MatchStartsIncreasing` | src/advent_of_code_2024/main.py:158-159 | The reported starts strictly increase. |
| `Strings.CountIsOccurrences` | src/advent_of_code_2024/main.py:124 | For a pattern that cannot overlap itself, `str.count` is the number of offsets where it occurs. |
| `WordSearch.Width` | src/advent_of_code_2024/main.py:119-120 | `cols` is the length of the shortest row, which is what `zip(*horizontals)` yields; it is 0 for an empty grid. |
| `WordSearch.Verticals` | src/advent_of_code_2024/main.py:119 | There is one column per `cols`, each as long as the grid is tall, and character `r` of column `c` is `g[r][c]`. |
| `WordSearch.PairFamily` | src/advent_of_code_2024/main.py:96-106 | Each diagonal family has `rows + cols - 1` lines. |
| `WordSearch.DiagonalPairs` | src/advent_of_code_2024/main.py:95-108 | `get_diagonal_pairs` returns `2*(rows + cols - 1)` lines. |
| `WordSearch.DiagonalClosed` | src/advent_of_code_2024/main.py:97-106 | Line `x` lists, in order of increasing `y`, exactly the in-range pairs `(x-y, y)` (or `(x-y, cols-y-1)`). |
| `WordSearch.CellOnOneDiagonal` | src/advent_of_code_2024/main.py:95-108 | Every cell of the grid lies on exactly one line of each diagonal family. |
| `WordSearch.DiagonalCellsDistinct` | src/advent_of_code_2024/main.py:95-108 | Every pair on a diagonal is in range, and no diagonal repeats a cell. |
| `WordSearch.Resolve` | src/advent_of_code_2024/main.py:111-113 | A resolved line has one character per pair, and character `k` is the grid character at pair `k`. |
| `WordSearch.ResolvePairs` | src/advent_of_code_2024/main.py:110-114 | There is one string per line, each the resolution of that line. |
| `WordSearch.DiagonalPairsCellsIn` | src/advent_of_code_2024/main.py:121-122 | Every pair produced by `get_diagonal_pairs` indexes a character of the grid, so `resolve_pairs` never fails. |
| `WordSearch.Diagonals` | src/advent_of_code_2024/main.py:121-122 | There are `2*(rows + cols - 1)` diagonal strings. |
| `WordSearch.TotalScoreAppend` | src/advent_of_code_2024/main.py:123-125 | The score of concatenated line lists is the sum of their scores. |
| `WordSearch.WordsearchDecomposes` | src/advent_of_code_2024/main.py:116-125 | The result is the score of the rows, plus that of the columns, plus that of both diagonal families. The score of a line is the number of places where `XMAS` or `SAMX` occurs. |
| `WordSearch.WordsearchWithoutX` | src/advent_of_code_2024/main.py:116-125 | A grid containing no `X` gives 0. |
| `WordSearch.ShortLinesScoreNothing` | src/advent_of_code_2024/main.py:124-125 | Lines shorter than four characters contribute nothing to the total. |
| `WordSearch.OneRowGrid` | src/advent_of_code_2024/main.py:116-125 | In a grid of one row only the row itself can score, because every column and every diagonal holds at most one character. |
| `WordSearch.OneRowExample` | src/advent_of_code_2024/main.py:116-125 | The one-row grid `XMAS` scores exactly 1. |
| `WordSearch.VerticalsTransposed` | src/advent_of_code_2024/main.py:119 | For a non-empty rectangular grid the columns form the transposed grid, which is rectangular, and its columns are the original rows. |
| `WordSearch.OccurrencesReverse` | src/advent_of_code_2024/main.py:124 | A pattern occurs in a reversed text at as many places as the reversed pattern occurs in the text. |
| `WordSearch.LineScoreReverse` | src/advent_of_code_2024/main.py:124 | A line read backwards scores the same: each `XMAS` becomes a `SAMX` and each `SAMX` an `XMAS`. |
| `WordSearch.TotalScorePointwise` | src/advent_of_code_2024/main.py:124-125 | Two lists of lines that score the same line by line score the same in total. |
| `WordSearch.TotalScoreReverse` | src/advent_of_code_2024/main.py:124-125 | Reversing the order of the lines does not change the total. |
| `WordSearch.DiagonalsByFamily` | src/advent_of_code_2024/main.py:108-122 | The diagonal strings are those of `pairs_1`, followed by those of `pairs_2`. |
| `WordSearch.RisingPairsSwapped` | src/advent_of_code_2024/main.py:97-100 | For grid dimensions swapped, diagonal `x` of the first family holds the cells of the original diagonal `x`, each mirrored across the main diagonal, in reverse order. |
| `WordSearch.FallingPairsSwapped` | src/advent_of_code_2024/main.py:103-106 | For grid dimensions swapped, diagonal `x` of the second family holds the mirrored cells of the original diagonal `rows + cols - 2 - x`, in the same order. |
| `WordSearch.ResolveSwapped` | src/advent_of_code_2024/main.py:110-114 | Reading mirrored cells of the transposed grid gives the same text as reading the original cells of the grid. |
| `WordSearch.ResolveReverse` | src/advent_of_code_2024/main.py:110-114 | Reading a line of cells backwards gives its text reversed. |
| `WordSearch.RisingLineTransposed` | src/advent_of_code_2024/main.py:97-100 | Diagonal `x` of the first family of the transposed grid reads as diagonal `x` of the grid backwards. |
| `WordSearch.FallingLineTransposed` | src/advent_of_code_2024/main.py:103-106 | Diagonal `x` of the second family of the transposed grid reads as diagonal `rows + cols - 2 - x` of the grid. |
| `WordSearch.DiagonalsTransposed` | src/advent_of_code_2024/main.py:121-125 | Transposing the grid leaves the total over the diagonals unchanged. |
| `WordSearch.WordsearchTranspose` | src/advent_of_code_2024/main.py:116-125 | Transposing a rectangular grid, which swaps the roles of its rows and columns, leaves the `wordsearch` total unchanged. |
| `WordSearch.Reverse` | src/advent_of_code_2024/main.py:150 | `[::-1]` keeps the length and reads the line back to front. |
| `WordSearch.FallingClosed` | src/advent_of_code_2024/main.py:149-152 | Line `x` of `pairs_b` lists its in-range pairs from the top-left end to the bottom-right end. |
| `WordSearch.CrossCellsIn` | src/advent_of_code_2024/main.py:144-156 | Every pair of `pairs_a` and `pairs_b` indexes a character of the grid. |
| `WordSearch.CentreStartsChars` | src/advent_of_code_2024/main.py:158-159 | An offset is reported by the `MAS` or `SAM` scans if and only if an `A` follows it, flanked by one `M` and one `S`. |
| `WordSearch.RisingCentres` | src/advent_of_code_2024/main.py:144-161 | A cell is in `a_coords_set` if and only if it is an `A` off the border whose bottom-left and top-right neighbours are one `M` and one `S`. |
| `WordSearch.FallingCentres` | src/advent_of_code_2024/main.py:149-166 | A cell is in `b_coords_set` if and only if it is an `A` off the border whose top-left and bottom-right neighbours are one `M` and one `S`. |
| `WordSearch.XCentresMembership` | src/advent_of_code_2024/main.py:161-168 | A cell is an X centre if and only if it is a centre in both families. |
| `WordSearch.WordsearchComplexCountsXs` | src/advent_of_code_2024/main.py:127-168 | The result is the number of `A` cells whose two diagonal neighbour pairs are in range and each hold one `M` and one `S`. |
| `WordSearch.WordsearchComplexBounds` | src/advent_of_code_2024/main.py:127-168 | The result is at most the number of `A` cells, and it is 0 for grids with fewer than 3 rows or fewer than 3 columns. |

## Left out

- The file loaders `load_day_1`, `load_day_2` and `read_file` (src/advent_of_code_2024/main.py:12-19, 35-38, 72-75) are left out because they are file I/O. The solvers take the parsed lists, reports and text as parameters. The three-space split, `int()` parsing and `str.splitlines` are input handling and are not modelled; the Day 4 grid is the list of its rows.
- The `__main__` driver (src/advent_of_code_2024/main.py:215-270) is left out because it only reads data files and prints. Its composition `get_mul_matches(get_enabled_code(...))` is used in the finding below.
- Python's `re` engine is not modelled in general. The fixed pattern `mul\(([0-9]{1,3}),([0-9]{1,3})\)` is a hand-written scanner; `re.finditer` and `str.count` on literal patterns are a non-overlapping left-to-right scan. A greedy digit run needs no backtracking here, because the character after the run must be `,` or `)`.
- The unused `loguru` and `pprint` imports (src/advent_of_code_2024/main.py:3, 7) and the commented-out code (src/advent_of_code_2024/main.py:170-207) are left out because they do not affect any result.
- The `float` return annotations of the Day 1 functions are ignored, because the computed values are integers.
- The `Counter` is kept only for its lookups, so `Tally` states its keys and counts; its other behaviour is not modelled.
- The tolerant counting wrapper builds a dictionary keyed by report index (src/advent_of_code_2024/main.py:65-67). It is modelled as a list, since each index keeps its own report and only the count of `True` values is returned.
- The code validates nothing, so no error path is modelled. With a ragged grid the columns and diagonals cover only the first `Width(g)` columns, the length of the shortest row, as `zip(*horizontals)` gives (src/advent_of_code_2024/main.py:119-121). The rows themselves are still scanned in full (src/advent_of_code_2024/main.py:123), and the model does the same.
- The diagonal lines follow the code: `get_diagonal_pairs` lists each diagonal by increasing counter `y`, so the row decreases along both families. Only `wordsearch_complex` reverses its second family, which makes that family run from top-left to bottom-right.
- The totals for the 10 by 10 example grid of the puzzle (18 for `wordsearch`, 9 for `wordsearch_complex`) are not proved. Evaluating the scans of all 58 lines of a concrete grid inside the verifier is far beyond its resource limit. Single-instruction examples are proved for Day 3 instead, and the Day 4 counts are characterised for every grid by `WordSearch.WordsearchDecomposes` and `WordSearch.WordsearchComplexCountsXs`.
- `Reports.RetryWithoutOneLevel` copies the report as a value and deletes one level from that copy. The in-place `del` on a fresh copy is not modelled as a mutation, since no other reference to the copy exists.

## Findings

| source | as written | input that shows it | evidently intended | confidence | as-written member | corrected member |
|---|---|---|---|---|---|---|
| src/advent_of_code_2024/main.py:258-259 | `get_enabled_code` deletes the disabled text and joins the rest before `get_mul_matches` scans it, so the two halves of an instruction can be glued together across a removed `don't()` ... `do()` stretch. | `mul(2,don't()do()3)` holds no instruction, but filtering gives `mul(2,3)` and the total 6. | `don't()` and `do()` only switch instructions off and on in the unedited text, so the total is 0. | not executed | `Instructions.GluedInstructionCounterexample` | `Instructions.GluedInstructionCorrected` (switch semantics `EnabledMulSum`, with `Instructions.EnabledMulSumBounded` and `Instructions.EnabledMulSumWithoutDont`) |
