# Advent of Code 2018, days 1–3, in Dafny

This project models the computational core of three puzzle solutions of the
`advent-of-rust-2018` repository and proves properties of the model.

* **Frequency drift (day 1)**: `frequencies.dfy`, module `Frequencies`.
  Part 1 is the sum of a list of frequency changes. Part 2,
  `find_first_cycled_sum_repeat`, applies the list over and over. It returns
  the first running sum that was already seen (the start value 0 counts as
  seen). It gives up after `(max_cycles + 1) * len` steps, and it returns
  nothing for an empty list. The method keeps the running sum, a wrap-around
  position (the `cycle()` iterator) and the set of seen sums. It is proved
  equal to a recursive reference definition, `FirstCycledSumRepeat`. That
  definition is characterised as "the sum s_k for the least k that repeats".
* **Box IDs (day 2)**: `box_ids.dfy`, module `BoxIds`.
  * `count_items` builds a map from items to their counts. It is proved to
    agree with the multiset of the input.
  * `checksum` multiplies the number of IDs that have a letter exactly twice
    by the number that have a letter exactly three times.
  * `common_string_part` keeps the characters where two IDs agree, and returns
    them only when the IDs differ in the requested number of positions.
  * `common_string_parts` checks every pair `i < j` in lexicographic order.
    Each method is proved against a specification function, and the lemmas
    characterise those functions.
* **Fabric claims (day 3)**:
  * `claims.dfy`, module `Claims`, models the `Rect` claim: its inclusive top
    right corner, its cells in row-major order, and its text form. Parsing is
    a leftmost search for `#id @ x,y: wxh` followed by `u32` parsing of the
    five fields. `Display` writes the text back, and parsing it returns the
    original claim.
  * `coverage.dfy`, module `Coverage`, models `Overlaps<u8>` as a class over
    an `array2<U8>` of saturating counters. The constructor sizes the grid and
    stamps every non-empty claim. The invariant `Valid()` states that every
    cell holds `min(255, number of claims covering it)`. `overlap_area` is
    proved to be the number of cells covered by two or more claims.
    `iter_non_overlapping_rects` is proved to return the claims that share no
    cell with another claim, in input order.
* `wrappers.dfy`, module `Wrappers`, holds the `Option` and `Result` types.

Paths below are relative to the repository root.

## Model

| member | source | states |
|---|---|---|
| Claims.TopRight | day03/src/rect.rs:27-34 | the corner is `x + width - 1` (and `y + height - 1`); a zero width or height leaves `x` (`y`) itself |
| Claims.InclusiveRangeFacts | day03/src/rect.rs:46 | `lo ..= hi` is strictly increasing and holds exactly the values between `lo` and `hi` |
| Claims.ProductMembers | day03/src/rect.rs:46-48 | a cell is in the product exactly when its y is in the outer range and its x in the inner one |
| Claims.ProductLength | day03/src/rect.rs:46 | the product has `|ys| * |xs|` cells |
| Claims.ProductRowMajor | day03/src/rect.rs:44-48 | for increasing ranges, the product is strictly increasing in (y, x) order |
| Claims.IterCoordsCells | day03/src/rect.rs:40-49 | `iter_coords` yields a cell exactly when the rect covers it (half-open ranges `[x, x+width)`, `[y, y+height)`) |
| Claims.IterCoordsShape | day03/src/rect.rs:40-49 | `iter_coords` yields `width * height` cells, none exactly when the rect is empty, in strictly increasing row-major order, so no cell repeats |
| Claims.EmptyCoversNothing | day03/src/rect.rs:36-38 | `is_empty` holds exactly when the claim covers no cell; a non-empty claim covers its corner (x, y) |
| Claims.GeometryExamples | day03/src/rect.rs:113-150 | the tests: `top_right` of (3,2,5,4) is (7,5); zero-size rects at (0,0) and (10,10); the six cells of (5,7,3,2); an empty rect yields nothing |
| Claims.DigitRun | day03/src/rect.rs:78 | the greedy `\d` run: the longest digit prefix, stopped by a non-digit or the end |
| Claims.FieldSound | day03/src/rect.rs:78 | a `\d+` group and its separator: the text is the captured digits, then the separator, then the rest, and the digits are the whole digit run at the start |
| Claims.FieldOf | day03/src/rect.rs:78 | conversely, a numeral followed by a separator that starts with a non-digit is captured with exactly the text after the separator as the rest |
| Claims.LastFieldOf | day03/src/rect.rs:78 | the last `\d+` group takes a numeral followed by a non-digit or the end, leaving the rest |
| Claims.MatchHereSound | day03/src/rect.rs:77-79 | a match at the start of the text means the text begins with the claim text of the five captures, followed by a non-digit or the end |
| Claims.MatchHereComplete | day03/src/rect.rs:77-79 | text that begins with the claim text of five numerals, followed by a non-digit or the end, matches there with those captures |
| Claims.FindMatchNone | day03/src/rect.rs:82 | the search finds nothing exactly when the pattern matches at no position of the text |
| Claims.FindMatchLeftmost | day03/src/rect.rs:82 | a match the search finds is the match at the leftmost position where the pattern matches |
| Claims.ParseU32 | day03/src/rect.rs:85 | `str::parse::<u32>` of a captured numeral succeeds exactly when its value fits a `u32`, and otherwise fails with the overflow error (the `From<ParseIntError>` conversion) |
| Claims.ParseU32Decimal | day03/src/rect.rs:85 | the decimal text of any `u32` parses back to it |
| Claims.LeadingZero | day03/src/rect.rs:85 | leading zeros do not change the parsed value |
| Claims.Parse | day03/src/rect.rs:75-98 | parsing fails with `MalformedString` carrying the input exactly when the pattern has no match |
| Claims.Decimal | day03/src/rect.rs:104 | the decimal text of `n` is a numeral with value `n` and no leading zero unless `n` is 0 |
| Claims.ParseShape | day03/src/rect.rs:82-92 | text of exactly the claim shape parses to the five numeral values when all fit a `u32`, otherwise fails with `ParseInt` and never `MalformedString` |
| Claims.ParseDisplay | day03/src/rect.rs:102-105 | round trip: parsing the displayed text of any claim returns that claim |
| Claims.NoMarkMalformed | day03/src/rect.rs:94-96 | text without `#` has no match and fails with `MalformedString` of that text |
| Claims.ParseExample | day03/src/rect.rs:152-157 | `"#1 @ 1,5: 9x100"` parses to (1,1,5,9,100) |
| Claims.MissingColonExample | day03/src/rect.rs:94-96 | `"#1 @ 1,5 9x100"`, missing the `:`, matches nowhere and fails with `MalformedString` of that text |
| Claims.MalformedExample | day03/src/rect.rs:159-169 | `"Elvish Pants"` fails with `MalformedString("Elvish Pants")` |
| Claims.NoOverflowExample | day03/src/rect.rs:171-177 | a height of 999999999 parses |
| Claims.OverflowExample | day03/src/rect.rs:179-187 | a height of 5000000000 fails with `ParseInt` |
| Claims.DisplayExample | day03/src/rect.rs:189-194 | (42,6,20,10,9001) displays as `"#42 @ 6,20: 10x9001"` |
| Coverage.GridWidth | day03/src/overlaps.rs:25-34 | the grid width exceeds every claim's top-right x, equals one of them plus one, and is 0 without claims |
| Coverage.GridHeight | day03/src/overlaps.rs:25-34 | the same for the height and the top-right y |
| Coverage.CoveredCellsInGrid | day03/src/overlaps.rs:58 | every cell a claim covers lies inside the grid, so the grid lookup never fails |
| Coverage.OutsideGridUncovered | day03/src/overlaps.rs:24-34 | no claim covers a cell outside the grid |
| Coverage.CoverCountTwo | day03/src/overlaps.rs:73-88 | two distinct claims covering a cell give it a count of at least 2 |
| Coverage.CoverCountOne | day03/src/overlaps.rs:73-88 | a cell covered by exactly one claim has count 1 |
| Coverage.SoleClaimantIffDisjoint | day03/src/overlaps.rs:56-68 | a claim passes the count-one test exactly when no other claim covers any of its cells |
| Coverage.EmptyIsSoleClaimant | day03/src/overlaps.rs:134-150 | an empty claim covers no cell, so it always passes the test |
| Coverage.SoleClaimantsFilter | day03/src/overlaps.rs:60-67 | the filter distributes over concatenation, which keeps input order, and keeps exactly the sole claimants |
| Coverage.ContestedCellsOfPlane | day03/src/overlaps.rs:50-54 | the contested cells counted inside the grid are exactly the cells anywhere covered more than once |
| Coverage.ExampleGridSize | day03/src/overlaps.rs:101-108 | the three test claims need a 7 × 7 grid |
| Coverage.ExampleContestedCells | day03/src/overlaps.rs:101-111 | their contested cells are (3,3), (4,3), (3,4) and (4,4) |
| Coverage.OverlapExampleArea | day03/src/overlaps.rs:100-111 | the overlap area of the test claims is 4 |
| Coverage.OverlapExampleSole | day03/src/overlaps.rs:113-121 | only claim #3 passes the count-one test |
| Coverage.ZeroSizeExample | day03/src/overlaps.rs:134-151 | a 1 × 1 claim and a zero-size claim on the same spot give area 0, and both pass the test |
| Coverage.OverlapsAreaScenario | day03/src/overlaps.rs:101-111 | the grid built from the three example claims reports an overlap area of 4 |
| Coverage.OverlapsSoleScenario | day03/src/overlaps.rs:113-121 | the grid built from the three example claims yields exactly claim #3 as non-overlapping |
| Coverage.NoClaimsScenario | day03/src/overlaps.rs:124-132 | the grid built from no claims reports an overlap area of 0 |
| Coverage.ZeroSizeScenario | day03/src/overlaps.rs:134-151 | the grid built from a 1 × 1 claim and a zero-size claim reports area 0 and yields both claims |
| Coverage.GridSize | day03/src/overlaps.rs:25-34 | the size loop of `new` computes exactly `GridWidth` and `GridHeight` |
| Coverage.MakeCountGrid | day03/src/overlaps.rs:46-48 | a fresh `width` × `height` grid of zeros |
| Coverage.Overlaps.constructor | day03/src/overlaps.rs:23-44 | the grid is sized by the claims' top-right corners, and afterwards every cell holds the saturated number of claims covering it |
| Coverage.Overlaps.FillGrid | day03/src/overlaps.rs:70-89 | every cell gains the number of non-empty claims covering it, saturating at 255 |
| Coverage.Overlaps.StampSlice | day03/src/overlaps.rs:79-87 | exactly the cells of the slice `x ..= top_x, y ..= top_y` are incremented with saturation; all other cells keep their value |
| Coverage.Overlaps.ColumnOverlap | day03/src/overlaps.rs:50-54 | counting cells above 1 in one column gives the number of contested cells there |
| Coverage.Overlaps.GridOverlap | day03/src/overlaps.rs:50-54 | counting over the first `w` columns gives the number of contested cells there |
| Coverage.Overlaps.OverlapArea | day03/src/overlaps.rs:50-54 | the overlap area is the number of cells covered by two or more claims, and 0 without claims |
| Coverage.Overlaps.AllCountOne | day03/src/overlaps.rs:64-65 | true exactly when every listed cell holds 1 |
| Coverage.Overlaps.CheckIsSoleClaimant | day03/src/overlaps.rs:58-66 | the grid check of a claim's cells holds exactly when the claim is a sole claimant |
| Coverage.Overlaps.NonOverlappingFrom | day03/src/overlaps.rs:60-67 | the claims from position k on that pass the grid check are the sole claimants among them, in order |
| Coverage.Overlaps.NonOverlappingRects | day03/src/overlaps.rs:56-68 | the non-overlapping claims are exactly the sole claimants, in input order |
| BoxIds.CountItems | day02/src/main.rs:70-83 | the map has a key exactly for each item present, and its count is the item's multiplicity |
| BoxIds.CountValues | day02/src/main.rs:55-63 | a count k ≥ 1 is among the map's values exactly when some character occurs exactly k times |
| BoxIds.Checksum | day02/src/main.rs:41-67 | the checksum is (IDs with a character exactly twice) × (IDs with a character exactly three times), and 0 for no IDs |
| BoxIds.ChecksumExample | day02/src/main.rs:146-155 | the seven test IDs contain 4 with a pair and 3 with a triple, so the checksum is 12 |
| BoxIds.AgreeingLength | day02/src/main.rs:132 | the kept characters are shorter than the ID by exactly the number of mismatched positions |
| BoxIds.AgreeingAtPositions | day02/src/main.rs:123-130 | the k-th kept character is the character at the k-th agreeing position, and the IDs agree there |
| BoxIds.AgreeingPositionsIncrease | day02/src/main.rs:123-130 | agreeing positions are strictly increasing and within the ID, so the characters keep their order |
| BoxIds.AgreeingPositionsComplete | day02/src/main.rs:126-130 | every position where the IDs agree is kept |
| BoxIds.MismatchesZero | day02/src/main.rs:132-136 | no mismatches exactly when the IDs are equal, and then the whole ID is kept |
| BoxIds.AgreeingSymmetric | day02/src/main.rs:123-130 | swapping the IDs keeps the same characters and mismatch count |
| BoxIds.CommonPartSymmetric | day02/src/main.rs:115-137 | the common part does not depend on the order of the two IDs |
| BoxIds.CommonStringPart | day02/src/main.rs:115-137 | none for IDs of different lengths; otherwise the agreeing characters exactly when the IDs differ in `differences` positions |
| BoxIds.PairsWithMembers | day02/src/main.rs:99-108 | the results for a fixed `i` are the pairs `(i, j)`, `i < j`, whose common part exists |
| BoxIds.PairsBelowMembers | day02/src/main.rs:97-109 | the results for rows below `lo` are the matching pairs with `i < lo` |
| BoxIds.CommonStringParts | day02/src/main.rs:94-112 | the result visits pairs `i < j` in lexicographic order, and holds an entry exactly for each pair whose common part exists |
| BoxIds.CommonPartExamples | day02/src/main.rs:176-196 | the test pairs: `fghij`/`fguij` give `fgij` with one difference, `abcde`/`axcye` give `ace` with two; IDs of different lengths never pair |
| BoxIds.CommonStringPartsExample | day02/src/main.rs:176-196 | over the seven test IDs, one difference yields only (fghij, fguij, fgij) and two yield only (abcde, axcye, ace) |
| BoxIds.DifferentLengthsExample | day02/src/main.rs:198-216 | `abc` and `abdef` yield no result for any number of differences |
| BoxIds.CountItemsScenario | day02/src/main.rs:157-174 | `count_items` of `[1, 1, 2, 3, 5, 5, 5, 5]`, computed by the method, is exactly `{1: 2, 2: 1, 3: 1, 5: 4}` |
| BoxIds.DifferentLengthsScenario | day02/src/main.rs:198-216 | `common_string_parts` of `abc` and `abdef`, computed by the method, is empty for any number of differences |
| Frequencies.SumFront | day01/src/main.rs:37-38 | the part-1 sum folded from the front, as `Iterator::sum` does, is the first change plus the sum of the rest |
| Frequencies.SumAppend | day01/src/main.rs:37-38 | the part-1 sum of a concatenation is the sum of the parts' sums |
| Frequencies.CyclePosition | day01/src/main.rs:127-129 | the cycled position is always a valid index |
| Frequencies.CyclePositionStep | day01/src/main.rs:127-129 | each step moves to the next position, and back to 0 after the last |
| Frequencies.CycledSumPrefix | day01/src/main.rs:127-139 | during the first pass, the running sum is the sum of a prefix |
| Frequencies.CycledSumPeriodic | day01/src/main.rs:127-139 | one more whole pass adds the part-1 sum: s_(k+len) = s_k + sum |
| Frequencies.CycledSumOfPasses | day01/src/main.rs:127-139 | after c whole passes the running sum is c × the part-1 sum |
| Frequencies.SeenBeforeIff | day01/src/main.rs:141-149 | "seen before" means s_k equals some s_i with i < j |
| Frequencies.SeenBeforeInSet | day01/src/main.rs:141-149 | looking back over j sums is a membership test in the set {s_0, …, s_(j-1)} |
| Frequencies.FirstRepeatWithinLeast | day01/src/main.rs:141-149 | the result is s_k for the least k ≤ n that repeats an earlier sum, and none exactly when no such k exists |
| Frequencies.FirstRepeatWithinStable | day01/src/main.rs:141-149 | searching longer never changes a repeat already found |
| Frequencies.MoreCyclesKeepRepeat | day01/src/main.rs:125 | raising `max_cycles` never changes a found answer |
| Frequencies.ZeroDriftRepeats | day01/src/main.rs:125-149 | if the changes sum to 0, the search always finds a repeat |
| Frequencies.FindFirstCycledSumRepeat | day01/src/main.rs:119-150 | none for an empty list; otherwise the first repeat among s_1 … s_N with N = (max_cycles + 1) × len |
| Frequencies.FirstRepeatShortExamples | day01/src/main.rs:207-221 | an empty list gives none; `[1, -1]` gives 0 with 0 or 1 extra cycles |
| Frequencies.FirstRepeatSecondPassExample | day01/src/main.rs:223-231 | `[3, 3, 4, -2, -4]` gives none with 0 extra cycles and 10 with 1 |
| Frequencies.FirstRepeatThirdPassExample | day01/src/main.rs:233-236 | `[7, 7, -2, -7, -4]` gives 14 with 2 extra cycles |

## Left out

- Input and output are not modelled. This covers every `main`, `get_input`, `get_stdin_input`, `get_file_input` and `read_lines` of day 1, the `common` crate, and the process-level tests. `parse_lines` is also left out: it only calls `str::parse` on each line.
- The `MAX_CYCLES = 1000` constant is left out. Only `main` uses it; the model takes `max_cycles` as a parameter.
- Frequencies.FindFirstCycledSumRepeat: the element type is fixed to unbounded `int`. An `i64` (or `i32`) running sum that overflows is not modelled. Neither is the `usize` product `(max_cycles + 1) * len`.
- Frequencies.SumAppend: the part-1 sum is unbounded, so `i64` overflow of `.sum()` is not modelled.
- Frequencies.FindFirstCycledSumRepeat: the lazy `cycle().enumerate().scan().skip_while()` chain is modelled as the loop it performs. The `HashSet` becomes a `set<int>`.
- BoxIds.CommonStringPart: characters are compared and counted. The source compares byte lengths (`str::len`) and subtracts a character count from a byte length. These agree only for ASCII IDs, which the puzzle input is.
- BoxIds.Checksum: the `usize` counters and their product are unbounded. The `HashMap` and `HashSet` are Dafny `map` and set values.
- BoxIds.CommonStringParts: results copy the two IDs instead of borrowing them.
- Claims.IsDigit: `\d` in the `regex` crate matches any Unicode decimal digit. The model accepts only ASCII `0`–`9`. A non-ASCII digit would make `str::parse::<u32>` fail with `ParseInt`, and the model does not capture that case.
- Claims.Parse: the guard `caps.len() == 6` always holds for this pattern, so there is no separate branch. The error values carry no `ParseIntError` cause. Their display texts are not modelled.
- Claims.TopRight: it requires `x + width` and `y + height` to fit a `u32`. The source's `u32` addition would overflow there (a panic or wrap-around), which is not modelled.
- Coverage.Overlaps.constructor: the counter type `T` is fixed to `u8`, as `RectOverlaps` does. The claims are stored as a value sequence instead of a borrowed slice.
- Coverage.Overlaps.NonOverlappingRects: the lazy filter iterator is returned as a whole sequence.
