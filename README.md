# Advent of Code 2023, solutions modelled in Dafny

A Dafny model of the Rust solutions in MarcellPerger1/AdventOfCode2023, with
proofs of what they compute. Each solved puzzle is one module, named after
the puzzle:

| module | file | puzzle |
|---|---|---|
| `Trebuchet` | trebuchet.dfy | problem_1: the calibration value of each line, from digits (part 1) and from digits or spelled-out number words (part 2) |
| `Cubes` | cubes.dfy | problem_2: cube counts, the games possible with a given bag, the powers of the smallest bags |
| `Gears` | gears.dfy | problem_3: digit runs in a grid, part numbers next to a character other than '.', gear ratios of a '*' with exactly two numbers |
| `Scratchcards` | scratchcards.dfy | problem_4: the match counts and scores of cards, and the cascade of won copies |
| `Almanac`, `AlmanacInput` | almanac.dfy, almanac_input.dfy | problem_5: numbers and number ranges sent through a chain of maps, and the almanac's text |
| `CamelCards` | camel_cards.dfy | problem_7, part 2: hand categories with jokers, the order of hands and the total winnings |
| `Wasteland` | wasteland.dfy | problem_8: the turn list, the node network, walks to the end nodes and the least common multiple of part 2 |
| `Oasis` | oasis.dfy | problem_9: extrapolation by repeated differences, forwards and backwards |
| `Pipes` | pipes.dfy | problem_10: tiles and connectors, grid neighbours, the start tile and the two pipes connected to it |
| `Galaxies` | galaxies.dfy | problem_11: duplicating empty rows and columns, and distances in the expanded universe |
| `Springs` | springs.dfy | problem_12: counting the arrangements of damaged springs, with a memo cache |
| `Mirrors` | mirrors.dfy | problem_13: lines of reflection in patterns, and the new line after fixing one smudge |
| `Rocks` | rocks.dfy | problem_14: rolling round rocks north and the load on the north beams |

Two shared modules hold what every puzzle uses: `Wrappers` (an `Option`
type and `MapAll`, which applies a partial function to every element as
collecting an iterator of `Option`s does) and `Text` (trimming, splitting,
number parsing and printing on `seq<char>`).

Conventions:

- Every `panic!`, `expect`, `unwrap` or `unreachable!` that the input can
  reach becomes `None` (or `Panicked`, or `Underflow`) in the model. Where a contract
  states only one direction of when that happens, "## Left out" says so.
  The `u64` overflows of problem 5 are preconditions instead.
- Rust's fixed-width integers are unbounded `nat`/`int`. Where a width
  decides whether a parse succeeds (`u32`, `u64`, `i64`), the limit is
  explicit. Where an addition could overflow (the ends of problem 5's
  `u64` ranges and map lines), the model requires that it does not. The
  underflow of an inclusive end at 0 is modelled as the panic it is.
- Code that updates variables in loops is modelled by methods with loop
  invariants, each proved equal to a specification function. This covers
  problem 13's symmetry searches, problem 14's falling rocks, problem 4's
  copy counts, problem 7's substitution loop, problem 10's neighbour
  pushes and problem 12's cache (a class). Problem 7's search over joker
  substitutions is a recursive function over replacements, and the
  substitution loop is proved to produce one of those replacements.
  Iterator pipelines and recursion, such as problem 14's load, are
  modelled by functions.
- Reading the input file is left out. The parts start from the trimmed,
  non-empty lines, or from the parsed data.

## Model

| member | source | states |
|---|---|---|
| Trebuchet.FirstDigitFrom | problem_1/src/main.rs:14-17 | the position found from `i` holds a digit and no earlier position from `i` does; none is found exactly when no digit follows |
| Trebuchet.LastDigitBelow | problem_1/src/main.rs:14-18 | the position found below `i` holds a digit and no later position below `i` does |
| Trebuchet.LineValue1Spec | problem_1/src/main.rs:13-21 | a line has no part 1 value (the "Expected it to have 1st char" panic) exactly when it has no digit; otherwise the value is ten times its first digit plus its last digit |
| Trebuchet.LineValue1 | problem_1/src/main.rs:13-21 | a part 1 value, two digits glued together, is at most 99 |
| Trebuchet.Find | problem_1/src/main.rs:53 | `find` answers a position where the word occurs, and the word occurs at no earlier position |
| Trebuchet.FindFrom | problem_1/src/main.rs:53 | the search from `i` answers an occurrence at or after `i` with none between `i` and it |
| Trebuchet.RFind | problem_1/src/main.rs:63 | `rfind` answers a position where the word occurs, and the word occurs at no later position |
| Trebuchet.RFindAtMost | problem_1/src/main.rs:63 | the backwards search from `i` answers an occurrence at or before `i` with none after it up to `i` |
| Trebuchet.PresentMembers | problem_1/src/main.rs:57-67 | `filter_map(\|x\| x)` keeps exactly the candidates that are present |
| Trebuchet.MinByKeySpec | problem_1/src/main.rs:58 | `min_by_key` answers a candidate of the list with the smallest position |
| Trebuchet.MaxByKeySpec | problem_1/src/main.rs:68 | `max_by_key` answers a candidate of the list with the largest position |
| Trebuchet.StartOfEnd | problem_1/src/main.rs:64 | from the index of a word's last letter, `i + len - 1`, its start is recovered |
| Trebuchet.WordCandsMember | problem_1/src/main.rs:51-55 | every word candidate names a value 1 to 9 and the first occurrence of that value's word |
| Trebuchet.WordCandsHas | problem_1/src/main.rs:51-55 | every value whose word occurs has its first occurrence among the candidates |
| Trebuchet.WordEndCandsMember | problem_1/src/main.rs:61-65 | every backwards word candidate names a value 1 to 9 and the last letter of that value's last occurrence |
| Trebuchet.WordEndCandsHas | problem_1/src/main.rs:61-65 | every value whose word occurs has the last letter of its last occurrence among the candidates |
| Trebuchet.FirstValue | problem_1/src/main.rs:51-60 | a first value is the value of a digit or a number word, at most 9 |
| Trebuchet.LastValue | problem_1/src/main.rs:61-70 | a last value is at most 9 |
| Trebuchet.LineValue2 | problem_1/src/main.rs:41-71 | a line has a part 2 value exactly when it has a first and a last value, and then it is ten times the first plus the last, at most 99 |
| Trebuchet.FirstCandIsToken | problem_1/src/main.rs:47-56 | every first-value candidate is a digit or a number word at its position, with its value |
| Trebuchet.TokenHasFirstCand | problem_1/src/main.rs:47-56 | every digit or number word of the line has a candidate at or before its position |
| Trebuchet.FirstValueSpec | problem_1/src/main.rs:51-60 | there is no first value (the "Expected first value" panic) exactly when the line has no digit and no number word; otherwise it is the value of the earliest one |
| Trebuchet.LastCandIsToken | problem_1/src/main.rs:48-66 | every last-value candidate is a digit or a number word ending at its position, with its value |
| Trebuchet.TokenHasLastCand | problem_1/src/main.rs:48-66 | every digit or number word of the line has a candidate ending at or after it |
| Trebuchet.WordEndMonotone | problem_1/src/main.rs:64 | a later start gives a later last letter for the same word |
| Trebuchet.LastValueSpec | problem_1/src/main.rs:61-70 | there is no last value exactly when the line has no digit and no number word; otherwise it is the value of the one that ends latest |
| Trebuchet.LineValue2Defined | problem_1/src/main.rs:41-71 | a line has a part 2 value exactly when it has a digit or a number word |
| Trebuchet.NoWordsFirst | problem_1/src/main.rs:47-60 | in a line with no number word the first value is its first digit |
| Trebuchet.NoWordsLast | problem_1/src/main.rs:48-70 | in a line with no number word the last value is its last digit |
| Trebuchet.NoWordEndsAt | problem_1/src/main.rs:61-70 | in a line with no number word every token ending at a position is the digit there |
| Trebuchet.NoWordStartsAt | problem_1/src/main.rs:51-60 | in a line with no number word every token at a position is the digit there |
| Trebuchet.NoWordsAgree | problem_1/src/main.rs:13-71 | on a line with no number word, part 2 gives part 1's value |
| Trebuchet.NoTokens | problem_1/src/main.rs:41-71 | a line with no digit and no number word has no part 2 value |
| Trebuchet.Part1 | problem_1/src/main.rs:9-24 | part 1 has an answer exactly when every line has a part 1 value (has a digit, by LineValue1Spec); it is at most 99 per line |
| Trebuchet.Part2 | problem_1/src/main.rs:37-75 | part 2 has an answer exactly when every line has a part 2 value (a digit or a number word, by LineValue2Defined); it is at most 99 per line |
| Trebuchet.NoWordsPartsAgree | problem_1/src/main.rs:9-75 | on lines without number words both parts give the same answer |
| Cubes.CubeCount.Add | problem_2/src/main.rs:36-42 | the sum holds, for every colour, the sum of the two counts |
| Cubes.CubeCount.Max | problem_2/src/main.rs:46-52 | the maximum holds, for every colour, one of the two counts, and both counts are at most it |
| Cubes.CubeCount.Power | problem_2/src/main.rs:53-55 | the power is zero exactly when one of the three counts is zero |
| Cubes.Just | problem_2/src/main.rs:15-35 | `just_red`, `just_green`, `just_blue` hold `amount` of their colour and none of the others |
| Cubes.Extensional | problem_2/src/main.rs:8-13 | two counts agreeing on every colour are equal |
| Cubes.AddCommutative | problem_2/src/main.rs:36-42 | adding is commutative, so the order of a round's items does not matter |
| Cubes.AddAssociative | problem_2/src/main.rs:36-42 | adding is associative, so `reduce(add)` does not depend on grouping |
| Cubes.AddIdentity | problem_2/src/main.rs:8-42 | the default count of no cubes is the identity of adding |
| Cubes.MaxCommutative | problem_2/src/main.rs:46-52 | the maximum is commutative |
| Cubes.MaxAssociative | problem_2/src/main.rs:46-52 | the maximum is associative, so `reduce(max_cubes)` does not depend on grouping |
| Cubes.MaxIdempotent | problem_2/src/main.rs:46-52 | the maximum of a count with itself is the count |
| Cubes.MaxLeast | problem_2/src/main.rs:43-52 | the maximum is at most a bag exactly when both counts are: it is the least upper bound under `le` |
| Cubes.LePartialOrder | problem_2/src/main.rs:43-45 | `le` is reflexive, antisymmetric and transitive |
| Cubes.PowerMonotone | problem_2/src/main.rs:43-55 | a smaller count under `le` has no larger power |
| Cubes.ParseColour | problem_2/src/main.rs:100-105 | a colour parses exactly from "red", "green" or "blue" ("Unknown color" panic otherwise) and prints back as that word |
| Cubes.ParseItem | problem_2/src/main.rs:97-105 | an item parses exactly when splitting at ' ' gives two pieces, a `u32` amount and a known colour |
| Cubes.ParseItemRender | problem_2/src/main.rs:97-105 | an item written as its amount, a space and its colour parses back to itself |
| Cubes.ParsePieceRender | problem_2/src/main.rs:95-105 | a piece after a comma, written as a space, the amount, a space and the colour, parses after trimming to its item |
| Cubes.SplitTwo | problem_2/src/main.rs:97 | splitting `a c b` at a separator absent from `a` and `b` gives `[a, b]` |
| Cubes.TotalByColour | problem_2/src/main.rs:107-109 | the sum of a round's items holds, for each colour, the sum of that colour's amounts |
| Cubes.RoundItems | problem_2/src/main.rs:95-106 | a round's items parse exactly when every trimmed piece between commas is an item, one item per piece |
| Cubes.CubesInRound | problem_2/src/main.rs:94-110 | a round's count exists exactly when its items parse, and holds for each colour the sum of that colour's amounts |
| Cubes.ParseRounds | problem_2/src/main.rs:78-82 | the text after ':' gives rounds exactly when its trimmed `;`-pieces are not none and each is a round, one count per piece (the "Game should not be empty" panic otherwise) |
| Cubes.ParseGame | problem_2/src/main.rs:68-82 | part 1's line parses exactly when it starts "Game ", holds a ':', the trimmed text before it is an id that fits a `usize`, and the text after it gives rounds; the game is that id with those rounds |
| Cubes.RoundsText | problem_2/src/main.rs:117-122 | part 2's line has a rounds text exactly when it starts "Game " and then holds a ':'; the line is then "Game ", a ':'-free id text, ':' and the rounds text |
| Cubes.ParseGameRounds | problem_2/src/main.rs:117-127 | part 2's line parses exactly when it has a rounds text that gives rounds, and the result is those rounds; the id is never parsed |
| Cubes.ParseGameRoundsAccepts | problem_2/src/main.rs:68-82 | every line part 1 accepts, part 2 accepts too, with the same rounds |
| Cubes.BadIdOnlyPart1 | problem_2/src/main.rs:119-122 | a line whose id is not a number, such as "Game x: 3 red", is a panic for part 1 but part 2 parses its rounds |
| Cubes.Required | problem_2/src/main.rs:80-128 | the reduction by `max_cubes` is at least every round, and every colour's count is that of some round |
| Cubes.RequiredLeast | problem_2/src/main.rs:80-128 | every bag with which each round is possible contains the required count: it is the smallest such bag |
| Cubes.PossibleIff | problem_2/src/main.rs:84-88 | a game passes part 1's test exactly when each of its rounds fits in the bag |
| Cubes.Part1 | problem_2/src/main.rs:58-92 | the sum of the ids of the possible games is at most the sum of all ids; it is that sum when every game is possible with the bag of 12 red, 13 green and 14 blue, and 0 when none is |
| Cubes.PowerZeroIff | problem_2/src/main.rs:124-129 | the power of a game's required bag is zero exactly when some colour appears in none of its rounds |
| Cubes.Part2 | problem_2/src/main.rs:124-133 | the sum of the powers is at least every game's power |
| Cubes.Part2ZeroIff | problem_2/src/main.rs:124-133 | the sum of the powers is 0 exactly when every game has a colour that none of its rounds shows |
| Cubes.Part2Games | problem_2/src/main.rs:116-133 | the lines give a sum exactly when each parses with part 2's parse; the sum is then `Part2` of the rounds parsed line by line |
| Cubes.Part2Lines | problem_2/src/main.rs:112-135 | on the input, part 2 gives a sum exactly when every non-empty trimmed line parses with part 2's parse, and the sum is `Part2` of their rounds |
| Gears.RunEnd | problem_3/src/main.rs:23-25 | the digit run from `i` ends at the first non-digit at or after `i` (or the line's end) |
| Gears.RunsFrom | problem_3/src/main.rs:23-32 | every run found from `i` lies within the line, from `i` on |
| Gears.RunsFromAreRuns | problem_3/src/main.rs:23-34 | every group found from a group boundary is a maximal digit run whose number is the value of its digits |
| Gears.RunsFromOrdered | problem_3/src/main.rs:23-32 | the groups come left to right with at least one non-digit between consecutive groups |
| Gears.RunsFromCover | problem_3/src/main.rs:23-32 | every digit from `i` on lies in some group |
| Gears.RunsSpec | problem_3/src/main.rs:23-98 | `group_by(is_numeric)` yields exactly the line's maximal digit runs, left to right, separated, covering every digit, each with its value |
| Gears.LineNumbers | problem_3/src/main.rs:84-99 | the parsed groups of a line are its digit runs |
| Gears.RunParses | problem_3/src/main.rs:33-96 | the text of a run parses as a `u32` exactly when its value fits one, and then to that value |
| Gears.LineNumbersParse | problem_3/src/main.rs:33-96 | a line's numbers parse (no "Invalid num format" panic) exactly when every run's text parses to its value |
| Gears.CellsMarked | problem_3/src/main.rs:35-38 | some of the cells `lo..=hi` of a line is marked exactly when some such column, read with '.' beyond the line, is not '.' |
| Gears.AnyMarkedAppend | problem_3/src/main.rs:39-45 | `any` over a chain is true exactly when it is true over one of its parts |
| Gears.RowCellsMarked | problem_3/src/main.rs:35-38 | the top or bottom strip of the box is marked exactly when some cell of that row from one left of the run to one right of it is not '.' |
| Gears.MarkedBoxParts | problem_3/src/main.rs:35-45 | the box is marked exactly when one of the row above, the cell before, the cell after or the row below is |
| Gears.BoxCellsParts | problem_3/src/main.rs:35-45 | the source's chain of cells is marked exactly when one of those four parts is |
| Gears.PartNumberIff | problem_3/src/main.rs:35-50 | a number counts for part 1 exactly when some cell of its surrounding box holds a character other than '.' (a digit counts too) |
| Gears.Dots | problem_3/src/main.rs:17 | the empty line is `maxlen` dots, and reads as '.' everywhere |
| Gears.PaddedWindow | problem_3/src/main.rs:17-22 | in window `k` of the padded lines, row `r` of the window is line `k + r` of the grid, or a line of dots beyond the grid |
| Gears.WindowPartNumber | problem_3/src/main.rs:18-50 | a number counts in its window exactly when it counts in the grid |
| Gears.WindowLineSum | problem_3/src/main.rs:21-54 | a window's sum is the grid line's sum of the numbers with a character other than '.' in their box |
| Gears.WindowSumsGrid | problem_3/src/main.rs:21-60 | the sum over windows is the sum over grid lines |
| Gears.Part1 | problem_3/src/main.rs:12-62 | part 1 has an answer exactly when there is a line and every digit run of every line fits a `u32` (no "Invalid num format" panic) |
| Gears.Part1Spec | problem_3/src/main.rs:12-62 | an answer of part 1 is the sum, over the grid, of the numbers with a character other than '.' in their box |
| Gears.AllLineNumbers | problem_3/src/main.rs:84-100 | every line's numbers parse exactly when each line's runs fit a `u32`, and then they are each line's runs |
| Gears.IntersectIff | problem_3/src/main.rs:64-70 | two inclusive ranges intersect exactly when some number lies in both |
| Gears.IntersectSymmetric | problem_3/src/main.rs:64-70 | intersecting is symmetric |
| Gears.IntersectingSingle | problem_3/src/main.rs:72-77 | one span contributes its number exactly when it intersects the range |
| Gears.IntersectingAppend | problem_3/src/main.rs:72-77 | the numbers found on two lists of spans put together are those of each list in turn |
| Gears.FindIntersectingOnLine | problem_3/src/main.rs:72-77 | at most one number per span of the line; none exactly when no span's columns meet the range; every number found is that of a span meeting the range |
| Gears.IntersectingFrom | problem_3/src/main.rs:72-77 | the same three facts for the filter over any list of spans |
| Gears.TopRangeTouches | problem_3/src/main.rs:108-121 | the numbers found above or below a '*' at `i` are as many as the spans having column `i` in their box |
| Gears.SideTouches | problem_3/src/main.rs:113-118 | on the star's own line, the numbers found before and after it are as many as the spans having its column in their box |
| Gears.AdjacentNums | problem_3/src/main.rs:108-122 | every adjacent number of column `i` is the number of a span on the line above, the same line or the line below whose box contains column `i` |
| Gears.PartNear | problem_3/src/main.rs:108-121 | each of the four lookups finds only such numbers |
| Gears.AdjacentCount | problem_3/src/main.rs:108-122 | the adjacent numbers of a '*' are as many as the numbers on the three lines whose box contains it |
| Gears.StarAvoidsRuns | problem_3/src/main.rs:103-105 | no digit run covers the column of a '*' |
| Gears.Part2Spec | problem_3/src/main.rs:79-127 | part 2 has an answer exactly when every digit run fits a `u32`; the answer is the sum, over the lines and their '*' cells, of the gear ratios |
| Gears.Part2NoStars | problem_3/src/main.rs:102-128 | a grid without a '*' has part 2 answer 0 |
| Gears.GearRatio | problem_3/src/main.rs:102-125 | for a '*' on a line whose spans are its digit runs, there is a ratio exactly when exactly two numbers have the star in their box; a ratio is the product of two numbers whose box contains the star |
| Gears.TopRangeNums | problem_3/src/main.rs:108-121 | above or below a '*' at `i`, the numbers found are those of the spans having column `i` in their box, one per span and in order |
| Gears.SideNums | problem_3/src/main.rs:113-118 | on the star's own line, the numbers found before and after it are together those of the spans having its column in their box, one per span |
| Gears.AdjacentMultiset | problem_3/src/main.rs:108-122 | the adjacent numbers of a '*' are, as a multiset, the numbers of the spans on the three lines whose box contains it, each span counted once |
| Gears.GearRatioTouching | problem_3/src/main.rs:102-125 | a gear's ratio is the product of the numbers of the two distinct spans whose box contains the star, also when the two numbers are equal |
| Scratchcards.ParseCardLine | problem_4/src/main.rs:21-26 | a line parses exactly when it starts with "Card ", the trimmed rest has a ':', and the trimmed text after the first ':' parses as a card body; the card is that body's parse, every number a `u32` |
| Scratchcards.ParseCardBody | problem_4/src/main.rs:23-26 | the body parses exactly when it has a '\|' and the texts before and after the first '\|' are `u32` lists; the winning and the chosen numbers are those two lists |
| Scratchcards.ElementsBound | problem_4/src/main.rs:25-26 | collecting a list into a set never makes it larger |
| Scratchcards.MatchCount | problem_4/src/main.rs:27 | the size of the intersection is zero exactly when no winning number was chosen, and at most the size of either list |
| Scratchcards.SubsetCard | problem_4/src/main.rs:27 | an intersection, being a subset, is no larger than either set |
| Scratchcards.Pow2 | problem_4/src/main.rs:28 | a power of two is at least 1 |
| Scratchcards.Pow2Monotone | problem_4/src/main.rs:28 | powers of two grow with the exponent |
| Scratchcards.Score | problem_4/src/main.rs:28 | a card with no match scores 0, a card with n matches scores 2^(n-1); the `u32` shift is defined (no panic) exactly for n up to 32, and the score then fits a `u32` |
| Scratchcards.Pow2ThirtyOne | problem_4/src/main.rs:28 | 2^31 is 0x8000_0000, the largest shift a `u32` score takes |
| Scratchcards.ScoreDoubles | problem_4/src/main.rs:28 | each further match doubles the score |
| Scratchcards.Part1 | problem_4/src/main.rs:20-30 | the sum of the scores exists exactly when no card has more than 32 matches |
| Scratchcards.CardCount | problem_4/src/main.rs:47-56 | every card ends with at least its original copy |
| Scratchcards.WonFromStable | problem_4/src/main.rs:52-54 | cards at or after card j never add copies of card j |
| Scratchcards.Cascade | problem_4/src/main.rs:47-56 | the in-order `amounts` loop ends with each card's count equal to one plus the copies won from every earlier card whose matches reach it |
| Scratchcards.Sum | problem_4/src/main.rs:57 | a sum of counts that are at least 1 is at least the number of counts |
| Scratchcards.Part2 | problem_4/src/main.rs:34-58 | the total is the sum of the final card counts, so at least the number of cards |
| Almanac.NumRange.EndExcl | problem_5/src/main.rs:32-34 | the exclusive end is at least the start, and equals it exactly for an empty range |
| Almanac.NumRange.EndIncl | problem_5/src/main.rs:35-37 | the inclusive end is one less than the exclusive end, defined only when that does not underflow |
| Almanac.FromExcl | problem_5/src/main.rs:22-27 | the range starts at `start` and ends (exclusively) at `end_excl`, with the length a `u64` difference that must not underflow |
| Almanac.FromIncl | problem_5/src/main.rs:28-30 | the range starts at `start` and its exclusive end is `end_incl + 1`, which must fit a `u64` |
| Almanac.TotalLenConcat | problem_5/src/main.rs:124-133 | the total length of two lists of ranges put together is the sum of their total lengths |
| Almanac.IntersectsIff | problem_5/src/main.rs:39-42 | for ranges whose ends are positive (so `end_incl` does not underflow), `intersects` holds exactly when each range starts before the other ends; for non-empty ranges, exactly when some number lies in both |
| Almanac.TilesLength | problem_5/src/main.rs:142-193 | pieces that tile [from, to) have total length `to - from` |
| Almanac.TilesWithin | problem_5/src/main.rs:142-193 | every piece of a tiling of [from, to) lies inside it |
| Almanac.TilesCover | problem_5/src/main.rs:142-193 | every number of [from, to) lies in some piece of its tiling |
| Almanac.MapLine.SrcContains | problem_5/src/main.rs:108-110 | `src_contains` panics (the inclusive source end underflows) exactly when `src_start <= num` and the source ends at 0; otherwise it holds exactly when the number lies in the source range |
| Almanac.MapLine.ApplyLine | problem_5/src/main.rs:108-117 | a line panics on every number exactly when its source starts at 0 and is empty (`d 0 0`); it maps a number exactly when the number lies in the source range, and then to `dest_start` plus its offset from `src_start`, a `u64` |
| Almanac.MapLine.ApplyContained | problem_5/src/main.rs:119-122 | a range inside the source keeps its length and is shifted by `dest_start - src_start` |
| Almanac.MapLine.ApplyLineRInner | problem_5/src/main.rs:142-193 | the result is `None` (the `unreachable!()` or an `end_incl` underflow) exactly when the range or the source ends at 0, an empty line lies strictly inside the range, or an empty range lies strictly inside the source; otherwise it is one to three pieces, the images of a left-to-right tiling of the input range, each either disjoint from the source and kept or inside it and shifted |
| Almanac.MapLine.CasesCover | problem_5/src/main.rs:145-191 | for non-empty ranges the four overlap cases and the disjoint case cover every arrangement |
| Almanac.MapLine.LeftOverlap | problem_5/src/main.rs:150-158 | when the source covers the range's left end, the shifted left piece and the kept right piece tile and explain the range |
| Almanac.MapLine.RightOverlap | problem_5/src/main.rs:161-169 | when the source covers the range's right end, the kept left piece and the shifted right piece tile and explain the range |
| Almanac.MapLine.Contains | problem_5/src/main.rs:179-191 | when the range covers the source, the kept left piece, the shifted middle and the kept right piece tile and explain the range |
| Almanac.MapLine.ApplyLineR | problem_5/src/main.rs:135-140 | `None` exactly when the inner case analysis panics; otherwise, after dropping empty pieces, non-empty pieces whose total length is that of the input, each explained by a part of the input range |
| Almanac.MapLine.ApplyLineRList | problem_5/src/main.rs:124-133 | `None` exactly when the line panics on one of the ranges; otherwise the flattened pieces are non-empty and keep the total length |
| Almanac.MapLine.ExplainedPieces | problem_5/src/main.rs:142-193 | pieces explained by parts of a range that fits a `u64` fit a `u64` too and have the same total length |
| Almanac.FilterLive | problem_5/src/main.rs:138 | the filter keeps only non-empty ranges of its input |
| Almanac.FilterLiveKeepsLength | problem_5/src/main.rs:138 | filtering out empty ranges leaves the total length unchanged |
| Almanac.FilterLiveKeeps | problem_5/src/main.rs:138 | every non-empty range survives the filter |
| Almanac.ApplyLineRImage | problem_5/src/main.rs:112-140 | the range path agrees with the point path for one line: the image of a number of the range lies in some output piece |
| Almanac.ApplyLineRListImage | problem_5/src/main.rs:112-133 | the same agreement over a list of ranges |
| Almanac.FindMap | problem_5/src/main.rs:207-209 | `find_map` finds nothing exactly when every line leaves the number uncovered; otherwise it stops at the first line that does not, with that line's image or panic |
| Almanac.FullMap.ApplyMap | problem_5/src/main.rs:205-211 | a number no line covers stays the same; if the first line that does not leave it uncovered maps it, it goes where that line sends it, and if that line panics, so does the map; a panic always comes from a line `d 0 0` |
| Almanac.FullMap.ApplyMapR | problem_5/src/main.rs:213-220 | a result keeps the total length, with non-empty pieces when the map has a line or the input has only non-empty ranges; non-empty input ranges through a map without empty lines always give a result |
| Almanac.FoldLines | problem_5/src/main.rs:215-217 | the same for the fold over any list of lines |
| Almanac.FoldLinesAppend | problem_5/src/main.rs:215-217 | folding over two lists of lines one after the other is folding over the first and then over the second |
| Almanac.RangePathRemapsTwice | problem_5/src/main.rs:124-217 | the range path applies the lines one after the other, so a map of lines `25 10 10` and `33 25 10` sends 12 to 27 on the point path but the range [12, 13) to [35, 36) |
| Almanac.RemapFirst | problem_5/src/main.rs:124-133 | the line `25 10 10` sends the range [12, 13) to [27, 28) |
| Almanac.RemapSecond | problem_5/src/main.rs:124-133 | the line `33 25 10` sends the range [27, 28) on to [35, 36) |
| Almanac.EmptyRangeInsideIsUnreachable | problem_5/src/main.rs:192 | an empty range strictly inside a line's source matches none of the four cases and reaches the `unreachable!()` |
| Almanac.ApplyLineRScenarios | problem_5/src/main.rs:135-193 | the line `52 50 48` shifts seeds `79 14` to start at 81; the line `50 98 2` splits the range `95 10` into a kept, a shifted and a kept piece; the empty line `50 98 0` leaves `79 14` alone and panics on `95 10`, which straddles its start |
| Almanac.MapsData.ApplyMaps | problem_5/src/main.rs:232-234 | with no maps a number stays the same, with one map it is that map's image (or panic), and without a line whose source ends at 0 it never panics |
| Almanac.FoldMaps | problem_5/src/main.rs:233 | the fold of `apply_maps` never panics when no line of any map has its source end at 0 |
| Almanac.MapsData.ApplyMapsR | problem_5/src/main.rs:236-240 | a result keeps the total length and, for non-empty input ranges, non-empty pieces; non-empty input ranges through maps without empty lines always give a result |
| Almanac.FoldMapsR | problem_5/src/main.rs:237-239 | the same for the fold over any list of maps |
| Almanac.ApplyMapsAppend | problem_5/src/main.rs:232-234 | applying a chain of maps made of two parts is applying the first part and then the second, a panic in the first part being a panic of the whole |
| Almanac.ApplyMapsRAppend | problem_5/src/main.rs:236-240 | the same composition for the range path |
| Almanac.MinOf | problem_5/src/main.rs:288-291 | the minimum of a non-empty list is one of its elements and no larger than any |
| Almanac.Locations | problem_5/src/main.rs:284-287 | the locations exist exactly when no seed's path panics; then there is one per seed, each the seed sent through every map |
| Almanac.Part1 | problem_5/src/main.rs:268-294 | there is an answer exactly when there is a seed (the "Should have a min location" panic otherwise) and no seed's path panics; it is the location of some seed and no larger than any seed's location |
| Almanac.Part1Defined | problem_5/src/main.rs:268-294 | without a line whose source ends at 0, part 1 answers exactly when there is a seed |
| Almanac.Part1Single | problem_5/src/main.rs:284-291 | with one seed, part 1 is that seed's location or its panic |
| Almanac.ZeroLineMaps | problem_5/src/main.rs:108-117 | after the line `52 50 48`, the line `50 0 0` is never reached by 79, which goes to 81, and panics on 20 |
| Almanac.Part1ZeroLine | problem_5/src/main.rs:268-294 | with the map `52 50 48` / `50 0 0`, part 1 gives 81 for the seed 79 and panics on the seeds 20 and 79 |
| Almanac.MinStart | problem_5/src/main.rs:325 | the smallest start of a non-empty list of ranges is the start of one of them and no larger than any |
| Almanac.Dest | problem_5/src/main.rs:319 | a destination keeps the seed range's total length; for a non-empty seed range it is a non-empty list of non-empty ranges, and it exists when no map line is empty |
| Almanac.Dests | problem_5/src/main.rs:317-320 | there are destinations exactly when every seed range has one, one per seed range, in order |
| Almanac.MinStartOfAll | problem_5/src/main.rs:323-326 | the minimum over every destination's smallest start is the start of some destination piece and no larger than any |
| Almanac.Part2 | problem_5/src/main.rs:306-328 | there is an answer exactly when there is a seed range and every seed range reaches some range (no panic in the maps, no "Expected non-zero dest"); it is the start of some destination piece and no larger than the start of any |
| Almanac.Part2Defined | problem_5/src/main.rs:306-328 | with non-empty seed ranges and no empty map line, there is an answer exactly when there is a seed range |
| Almanac.Part2EmptySeedAcross | problem_5/src/main.rs:306-328 | the seeds `79 0` through the line `52 50 48` panic: an empty range strictly inside the source reaches `unreachable!()` |
| Almanac.Part2EmptySeedBeside | problem_5/src/main.rs:306-328 | the seeds `79 0` through the line `50 98 2` pass unchanged, the filter drops them, and "Expected non-zero dest" panics |
| Almanac.Part2EmptySeedNoMaps | problem_5/src/main.rs:306-328 | with no maps the seeds `79 0` are never filtered and the answer is 79 |
| AlmanacInput.ParseMapLine | problem_5/src/main.rs:243-249 | a map line parses exactly when it is a list of exactly three `u64`s, which become `dest src len` in that order |
| AlmanacInput.ParseMapLineRender | problem_5/src/main.rs:243-249 | a map line written out as three numbers parses back to itself |
| AlmanacInput.ParseMapLineOf | problem_5/src/main.rs:243-249 | a line holding three numbers parses to the map line made of them |
| AlmanacInput.GroupLines | problem_5/src/main.rs:255-262 | splitting at header lines gives one group more than there are headers, the groups hold exactly the number lines in order, and every line of a group is a number line |
| AlmanacInput.ParseGroup | problem_5/src/main.rs:263 | a group parses exactly when each of its lines is a map line, with one line of the map per line, in order |
| AlmanacInput.ParseGroupsFlat | problem_5/src/main.rs:263-264 | the lines of the parsed maps, put together, are the parses of the groups' lines put together |
| AlmanacInput.ParseMaps | problem_5/src/main.rs:251-266 | a parsed almanac had at least two lines, none empty after the first two; it has one map more than there are header lines, and its map lines are the parses of the number lines, in order |
| AlmanacInput.ParseSeedsLine | problem_5/src/main.rs:276-282 | the seeds line parses exactly when it starts with "seeds: " and the rest is a list of `u64`s, each a `u64` |
| AlmanacInput.Pairs | problem_5/src/main.rs:301-302 | `tuples()` yields half as many ranges (a trailing odd number is dropped), range `i` made of numbers `2i` and `2i + 1` |
| AlmanacInput.ParseSeedsLinePart2 | problem_5/src/main.rs:296-304 | the part 2 seeds line parses exactly when the part 1 seeds line does, and its ranges are the consecutive pairs of those numbers |
| CamelCards.NewCard | problem_7/src/part2.rs:17-20 | a card value is accepted exactly when it is 1 to 14 and not 11 |
| CamelCards.NewCardList | problem_7/src/part2.rs:29-32 | a card list is accepted exactly when it holds five cards |
| CamelCards.ParseCard | problem_7/src/part2.rs:99-109 | exactly the characters T J Q K A 2-9 are cards, each gives a valid value, 'J' is the joker, and a digit gives its own value |
| CamelCards.ParseHand | problem_7/src/part2.rs:110-112 | a hand parses exactly when its trimmed text is five card characters, and then holds their values in order |
| CamelCards.Rank | problem_7/src/part2.rs:75-84 | the declaration order of `HandCategory`, as its derived `Ord` compares it |
| CamelCards.MaxCategory | problem_7/src/part2.rs:56 | the larger of two categories is one of them and ranks at least as high as both |
| CamelCards.Distinct | problem_7/src/part2.rs:60 | the keys of the counter: the card values of the hand, each once |
| CamelCards.Counts | problem_7/src/part2.rs:60 | one count per distinct card, each how often that card occurs, so each at least 1, and together they add up to the number of cards |
| CamelCards.CountsOver | problem_7/src/part2.rs:60 | the counter read at a list of keys gives each key's multiplicity |
| CamelCards.CountsOverAdd | problem_7/src/part2.rs:60 | counting one more card raises the total over distinct keys by one exactly when the card is among them |
| CamelCards.CountsOverTotal | problem_7/src/part2.rs:60 | over distinct keys that include every card, the counts add up to the number of cards |
| CamelCards.InsertDesc | problem_7/src/part2.rs:62 | inserting a count keeps the same counts plus the new one |
| CamelCards.InsertDescending | problem_7/src/part2.rs:62 | inserting into descending counts keeps them descending |
| CamelCards.DescendingHeadMax | problem_7/src/part2.rs:62 | the head of descending counts is the largest |
| CamelCards.DescendingCons | problem_7/src/part2.rs:62 | a head no smaller than the rest keeps counts descending |
| CamelCards.SortDesc | problem_7/src/part2.rs:62 | the counts in descending order, a permutation of the input |
| CamelCards.MostCommon | problem_7/src/part2.rs:60-62 | `most_common`: the card counts of the hand, largest first |
| CamelCards.MaxMultiplicity | problem_7/src/part2.rs:62-64 | the first count of `most_common` is the largest multiplicity, and some card of the hand attains it |
| CamelCards.CategoryByMultiplicity | problem_7/src/part2.rs:59-72 | the slice patterns decide five and four of a kind by the largest count, a full house or three of a kind for 3, two pair or one pair for 2, high card otherwise |
| CamelCards.NormalCardsExact | problem_7/src/part2.rs:35 | the candidates for a joker are exactly the valid cards other than the joker |
| CamelCards.Categorize | problem_7/src/part2.rs:34-57 | a hand without jokers gets its simple category |
| CamelCards.ReplacedHasNoJoker | problem_7/src/part2.rs:47-54 | a hand with every joker replaced has no joker, so `categorize_simple`'s assertion holds |
| CamelCards.CategorizeIsUpperBound | problem_7/src/part2.rs:41-56 | no replacement of the jokers by ordinary cards gives a better category than `categorize` |
| CamelCards.BestIsUpperBound | problem_7/src/part2.rs:41-56 | the search over the joker candidates from one index on is at least the key of every replacement it covers |
| CamelCards.ReplacesSkip | problem_7/src/part2.rs:36-39 | a position that holds no joker is not substituted |
| CamelCards.ReplacesSubst | problem_7/src/part2.rs:50-52 | substituting one joker fixes that position of the replacement |
| CamelCards.NormalNext | problem_7/src/part2.rs:35 | the joker candidates are consecutive in `normal_cards` |
| CamelCards.CategorizeIsAttained | problem_7/src/part2.rs:41-56 | the category `categorize` returns is the simple category of some replacement of the jokers |
| CamelCards.BestIsAttained | problem_7/src/part2.rs:41-56 | the search from one index on returns the key of some replacement it covers |
| CamelCards.Substitute | problem_7/src/part2.rs:49-52 | the loop over `subs` keeps the length, keeps every card no substitution names and leaves each named index with its last substitution's value; when `subs` replaces every joker, and only jokers, by ordinary cards, the copy is one of the replacements `categorize` ranges over |
| CamelCards.FromCards | problem_7/src/part2.rs:92-95 | a hand keeps its cards; its category ranks at least as high as the simple category of every replacement of the jokers by ordinary cards, and is that of one of them |
| CamelCards.LexLeTotal | problem_7/src/part2.rs:24-27 | the derived order of card lists is total |
| CamelCards.LexLeAntisymmetric | problem_7/src/part2.rs:24-27 | the derived order of card lists is antisymmetric |
| CamelCards.LexLeTransitive | problem_7/src/part2.rs:24-27 | the derived order of card lists is transitive |
| CamelCards.EntryLeTotal | problem_7/src/part2.rs:86-90 | the order of (hand, bid) pairs, category first, then cards, then bid, is total |
| CamelCards.EntryLeTransitive | problem_7/src/part2.rs:86-90 | that order is transitive |
| CamelCards.EntryLeAntisymmetric | problem_7/src/part2.rs:86-90 | that order is antisymmetric |
| CamelCards.InsertEntry | problem_7/src/part2.rs:126-127 | inserting into sorted entries keeps them sorted and adds exactly the new entry |
| CamelCards.SortedCons | problem_7/src/part2.rs:126-127 | a head ordered before every element keeps entries sorted |
| CamelCards.SortEntries | problem_7/src/part2.rs:126-127 | `sorted()`: the same entries, in ascending order |
| CamelCards.SortedUnique | problem_7/src/part2.rs:126-127 | two sorted orders of the same entries are equal, so the ranks do not depend on the input order |
| CamelCards.SortedTail | problem_7/src/part2.rs:126-127 | the tail of sorted entries is sorted |
| CamelCards.SortedHeadLe | problem_7/src/part2.rs:126-127 | the first sorted entry is ordered before every entry |
| CamelCards.Winnings | problem_7/src/part2.rs:126-132 | the sum of rank times bid over the sorted entries from `k` on lies between the sum of their bids and the number of entries times that sum |
| CamelCards.WinningsOrderFree | problem_7/src/part2.rs:126-132 | the sum of rank times bid depends only on which entries there are |
| CamelCards.TotalWinnings | problem_7/src/part2.rs:126-132 | no entries win nothing |
| CamelCards.ParseLine | problem_7/src/part2.rs:117-125 | a line parses exactly when it has two whitespace-separated tokens, the first a hand and the second a bid that fits a `u32`; the result is the categorised hand of those cards and that bid |
| CamelCards.Part2 | problem_7/src/part2.rs:114-132 | there is an answer exactly when every non-empty line parses |
| Wasteland.ParseInstructions | problem_8/src/main.rs:27-35 | the turns parse exactly when every character of the trimmed line is 'L' or 'R' ("Unknown char" panic otherwise), one turn per character |
| Wasteland.RenderInstructions | problem_8/src/main.rs:14-17 | writing turns out gives one character per turn, 'L' or 'R' |
| Wasteland.ParseRenderInstructions | problem_8/src/main.rs:27-35 | turns written out parse back to themselves |
| Wasteland.Node.NextName | problem_8/src/main.rs:46-51 | a left turn follows the first exit of the node and a right turn the second |
| Wasteland.ParseNodeTuple | problem_8/src/main.rs:60-64 | a parsed exit pair came from a text starting with '(' and ending with ')' ("Node value should be in parens" panic otherwise) |
| Wasteland.ParseNodeLine | problem_8/src/main.rs:54-59 | a parsed node came from a line holding '=' |
| Wasteland.ParseRenderTuple | problem_8/src/main.rs:60-64 | a pair written as `(a, b)` parses back to `(a, b)` when both are trimmed and `a` has no comma |
| Wasteland.StripParens | problem_8/src/main.rs:61 | stripping '(' and then ')' from a parenthesised text gives its inside |
| Wasteland.ParseRenderNode | problem_8/src/main.rs:54-64 | a node written as `name = (left, right)` parses back to itself |
| Wasteland.RenderNodeSplit | problem_8/src/main.rs:55 | splitting a written node at the first '=' separates the name from the exit pair |
| Wasteland.RenderTupleTrim | problem_8/src/main.rs:57 | trimming a written pair with a leading space gives the pair |
| Wasteland.NodeMap | problem_8/src/main.rs:76 | every node's name is a key of the map, and each key maps to a node of the input with that name |
| Wasteland.NodeMapLastWins | problem_8/src/main.rs:76 | when a name occurs more than once, the map keeps the last node with it, as collecting into a `HashMap` does |
| Wasteland.StopsAtUnique | problem_8/src/main.rs:78-214 | a walk has at most one first stopping step |
| Wasteland.WalkFromSteps | problem_8/src/main.rs:78-214 | the fold continued from step `m` counts `n` steps exactly when `n` is within the fuel and the first step at which the walk stops |
| Wasteland.StopsAtPasses | problem_8/src/main.rs:78-214 | before the stopping step every position exists and does not stop |
| Wasteland.WalkSteps | problem_8/src/main.rs:78-214 | a walk counts `n` steps exactly when `n` is within the fuel and the first step whose node stops, every earlier node being in the map |
| Wasteland.Part1Steps | problem_8/src/main.rs:66-84 | part 1 counts `n` steps exactly when the input parses and `n` is the first step at which the walk from "AAA" is at "ZZZ" |
| Wasteland.IsEnd | problem_8/src/main.rs:90-92 | `is_end` panics exactly on an empty name, and is true exactly when the name ends in 'Z' |
| Wasteland.ParseInput | problem_8/src/main.rs:69-193 | a parsed input has at least one turn |
| Wasteland.StartNames | problem_8/src/main.rs:194 | the start names are distinct |
| Wasteland.StartNamesAreStarts | problem_8/src/main.rs:194 | the start names are exactly the map's keys ending in 'A' |
| Wasteland.NodeNames | problem_8/src/main.rs:76 | the map's keys are exactly the names of the nodes |
| Wasteland.GcdPositive | problem_8/src/main.rs:219 | the greatest common divisor of two numbers not both zero is positive |
| Wasteland.GcdDivides | problem_8/src/main.rs:219 | the greatest common divisor divides both numbers |
| Wasteland.GcdGreatest | problem_8/src/main.rs:219 | every common divisor of the two numbers divides their greatest common divisor, so it is the greatest |
| Wasteland.LcmCommonMultiple | problem_8/src/main.rs:219 | `lcm(a, b)` is a multiple of `a` and of `b` |
| Wasteland.LcmZero | problem_8/src/main.rs:219 | the least common multiple is zero exactly when one of the numbers is |
| Wasteland.ReduceLcmCommonMultiple | problem_8/src/main.rs:219 | reducing walk counts by `lcm` gives a common multiple of every count |
| Wasteland.Runs | problem_8/src/main.rs:209-216 | one walk outcome per start name; with a non-empty turn list, outcome `i` counts `n` steps exactly when `n` is within the fuel and is the first step at which the walk from start `i` reaches a name ending in 'Z' |
| Wasteland.WalksStop | problem_8/src/main.rs:209-216 | the same fact about each start's walk, stated for the walks themselves |
| Wasteland.Part2CommonMultiple | problem_8/src/main.rs:183-220 | the part 2 answer is a multiple of the walk length from every node ending in 'A' |
| Oasis.ParseI64 | problem_9/src/main.rs:15 | a parsed number fits an `i64`, is negative only when written with a leading '-', and comes from a text that is not empty and not a lone sign |
| Oasis.ParseIntToString | problem_9/src/main.rs:15 | every `i64` written in decimal parses back to itself |
| Oasis.ParseLine | problem_9/src/main.rs:12-16 | a parsed line has one number per whitespace-separated word of the trimmed text, each an `i64` |
| Oasis.Diff | problem_9/src/main.rs:18-22 | the differences of a sequence are one fewer than its values (none for the empty sequence) |
| Oasis.DiffAt | problem_9/src/main.rs:18-22 | difference `i` is value `i + 1` minus value `i` |
| Oasis.NextOfZeros | problem_9/src/main.rs:25-28 | the full recursion on a sequence of zeros gives 0, so the base case loses nothing |
| Oasis.Extrapolate | problem_9/src/main.rs:24-39 | `handle_line_vec`, which stops at the first all-zero sequence, gives the same value as the full recursion down to the empty sequence |
| Oasis.DiffPow | problem_9/src/main.rs:18-22 | the `k`-th differences are `k` shorter than the sequence, or empty |
| Oasis.DiffPowShift | problem_9/src/main.rs:18-22 | the `k + 1`-th differences are the `k`-th differences of the first differences |
| Oasis.DiffAppend | problem_9/src/main.rs:18-22 | appending a value appends its difference from the old last value to the differences |
| Oasis.NextIff | problem_9/src/main.rs:24-39 | `x` extends a sequence of `n` values so that its `n`-th difference is the single value 0 exactly when `x` is the recursion's next value |
| Oasis.ExtrapolateIff | problem_9/src/main.rs:24-39 | `handle_line_vec` answers exactly the value whose appending makes the top-order difference vanish: the next value of the sequence |
| Oasis.ConstantExtrapolates | problem_9/src/main.rs:24-39 | a constant sequence extrapolates to its constant |
| Oasis.ConstantNext | problem_9/src/main.rs:24-39 | the full recursion on a constant sequence gives the constant |
| Oasis.ArithmeticExtrapolates | problem_9/src/main.rs:24-39 | an arithmetic sequence `a, a + d, …` of `n` values extrapolates to `a + d * n` |
| Oasis.StepNext | problem_9/src/main.rs:24-39 | consecutive terms of an arithmetic sequence differ by `d` |
| Oasis.ArithmeticDiff | problem_9/src/main.rs:18-22 | the differences of an arithmetic sequence are constant `d` |
| Oasis.Reverse | problem_9/src/main.rs:66 | reversing keeps the length |
| Oasis.Negate | problem_9/src/main.rs:56-70 | negating keeps the length |
| Oasis.DiffReverse | problem_9/src/main.rs:18-66 | the differences of the reversed sequence are the negated differences reversed |
| Oasis.DiffNegate | problem_9/src/main.rs:18-22 | the differences of a negated sequence are the negated differences |
| Oasis.NegateTwice | problem_9/src/main.rs:56-70 | negating twice gives the sequence back |
| Oasis.DiffPowReverse | problem_9/src/main.rs:18-66 | the `k`-th differences of the reversed sequence are the `k`-th differences reversed, negated when `k` is odd |
| Oasis.SingleSignedZero | problem_9/src/main.rs:56-70 | a single value, negated or not, is 0 exactly when it was 0 |
| Oasis.Backwards | problem_9/src/main.rs:65-66 | part 2's value for one line is the full recursion on the reversed line |
| Oasis.BackwardsIff | problem_9/src/main.rs:56-70 | part 2's value is exactly the value whose prepending makes the top-order difference vanish: the value before the first, as "same as above, just reverse it" intends |
| Oasis.ReverseCons | problem_9/src/main.rs:66 | reversing a sequence with a value in front puts that value at the end |
| Oasis.Part1 | problem_9/src/main.rs:41-54 | part 1 is the sum over the lines of each line's next value |
| Oasis.Part2 | problem_9/src/main.rs:56-70 | part 2 is the sum over the lines of the next value of each reversed line |
| Oasis.PartsAdditive | problem_9/src/main.rs:41-70 | both parts add up over two groups of lines put together |
| Oasis.SumAppend | problem_9/src/main.rs:53-69 | the sum of two lists of values put together is the sum of their sums |
| Pipes.Dirn.Opp | problem_10/src/main.rs:15-23 | the opposite direction always differs from the direction |
| Pipes.OppInvolution | problem_10/src/main.rs:15-23 | taking the opposite twice gives the direction back |
| Pipes.TileType.ConnectorPair | problem_10/src/main.rs:53-64 | a tile has a connector pair exactly when it is a pipe, and the pair's two ends differ |
| Pipes.TileType.HasConnector | problem_10/src/main.rs:66-72 | ground connects nowhere, the start everywhere, and a pipe exactly at the two ends of its pair |
| Pipes.ConnectorCount | problem_10/src/main.rs:53-72 | a pipe connects exactly two ways, the start all four, ground none |
| Pipes.FromChar | problem_10/src/main.rs:38-50 | a character is a tile exactly when it is one of `\|`, `-`, `L`, `J`, `7`, `F`, `.`, `S` (the "Bad char value" panic otherwise), and that tile writes back as the character |
| Pipes.ToChar | problem_10/src/main.rs:38-50 | every tile writes as one of those eight characters |
| Pipes.FromCharToChar | problem_10/src/main.rs:38-50 | every tile is read back from its character |
| Pipes.ParseLine | problem_10/src/main.rs:125-127 | a line parses exactly when every character is a tile ("Bad char value" panic otherwise), one tile per character, each the tile its character reads as |
| Pipes.Pos.GetAdj | problem_10/src/main.rs:89-105 | the pushes give the neighbours above, below, left and right that lie in the grid, in that order |
| Pipes.Pos.GetAdjAndDirn | problem_10/src/main.rs:106-122 | the same neighbours, labelled E, W, N, S as the source writes them |
| Pipes.Pos.GetAdjAndDirnFixed | problem_10/src/main.rs:106-122 | the same neighbours, labelled N, S, W, E: the direction of each from the position |
| Pipes.StepSpec | problem_10/src/main.rs:89-105 | a step from a grid position stays in the grid and moves one row or one column |
| Pipes.AdjacentSpec | problem_10/src/main.rs:89-105 | there are at most four neighbours, and from a grid position they are exactly the grid positions one row or one column away |
| Pipes.LabelledPositions | problem_10/src/main.rs:106-122 | whatever the labels, the labelled positions are exactly those of `get_adj` |
| Pipes.FixedLabelsStep | problem_10/src/main.rs:106-142 | with the corrected labels a pair `(d, q)` is listed exactly when `q` is one step `d` from the position |
| Pipes.LabelledSteps | problem_10/src/main.rs:106-122 | every pair listed with the corrected labels is a step in its direction |
| Pipes.StepLabelled | problem_10/src/main.rs:106-122 | every step in the grid is listed with the corrected labels |
| Pipes.WrittenLabelsWrong | problem_10/src/main.rs:106-122 | with the labels as written, no listed pair `(d, q)` has `q` one step `d` from the position |
| Pipes.IndexIn | problem_10/src/main.rs:85-87 | `index_in` gives a tile exactly for a position inside the rows and inside its row (an index panic otherwise), and then the tile at that row and column |
| Pipes.FindInRow | problem_10/src/main.rs:131 | the column found from `x` holds the start and no earlier column from `x` does |
| Pipes.FindStartFrom | problem_10/src/main.rs:130-132 | the position found from row `l` holds the start and no earlier position in reading order from row `l` does |
| Pipes.FindStart | problem_10/src/main.rs:129-133 | there is no start position (the "Grid should contain a start" panic) exactly when no tile is the start; otherwise it is the first start in reading order |
| Pipes.CollectPair | problem_10/src/main.rs:140-141 | `collect_tuple` gives a pair exactly when there are two elements, and then those two in order |
| Pipes.ConnectingBackSound | problem_10/src/main.rs:139 | every position kept by the filter holds a tile with a connector pointing back at the start, when each label is its position's direction |
| Pipes.ConnectingBackComplete | problem_10/src/main.rs:139 | the filter panics (`None`) exactly when some listed position lies outside the rows, and otherwise keeps every position whose tile has the connector opposite its label |
| Pipes.ConnectingBackKept | problem_10/src/main.rs:139 | every position the filter keeps is listed with a label whose opposite is a connector of its tile |
| Pipes.ConnectingWith | problem_10/src/main.rs:136-142 | `find_connecting_to_start` under a given labelling: a pair found is two of the listed positions, each kept by the filter |
| Pipes.FindConnectingToStartAsWritten | problem_10/src/main.rs:136-142 | with the labels as written: a pair found is two neighbours of the start, each kept because its tile has the connector opposite its label |
| Pipes.FindConnectingToStart | problem_10/src/main.rs:136-142 | with the corrected labels: a pair found is two neighbours that both connect back to the start, and no other neighbour connects back |
| Pipes.OnlyConnecting | problem_10/src/main.rs:136-142 | when exactly two positions are kept, no other neighbour connects back |
| Pipes.ConnectingKept | problem_10/src/main.rs:139 | every neighbour that connects back is among the kept positions |
| Pipes.ExampleStart | problem_10/src/main.rs:129-133 | in the grid `.\|.` / `.S.` / `.\|.` the start is at row 1, column 1 |
| Pipes.ExampleAsWritten | problem_10/src/main.rs:106-142 | with the labels as written, that grid has no two connections and reaches the "always two" panic |
| Pipes.ExampleFixed | problem_10/src/main.rs:136-142 | with the corrected labels, that grid's connections are the pipes above and below the start |
| Pipes.SearchGrid | problem_10/src/main.rs:144-151 | on a parsed grid under a given labelling: a result is the first start of a non-empty grid with two listed neighbours kept by the filter; a grid without a start gives none |
| Pipes.Part1 | problem_10/src/main.rs:144-151 | part 1 as written: a bad character gives `None`, and a result is the first start tile of a non-empty grid with two neighbours kept under the labels as written |
| Pipes.Part1Fixed | problem_10/src/main.rs:144-151 | part 1 with the corrected labels: a bad character gives `None`, and a result is the first start tile of a non-empty grid |
| Pipes.Part1Spec | problem_10/src/main.rs:144-151 | the corrected part 1 fails on a bad character or a grid without a start; a result is the first start of a non-empty grid together with the exactly two neighbours that connect back to it |
| Pipes.ExampleLines | problem_10/src/main.rs:146-149 | the lines `.\|.`, `.S.`, `.\|.` pass the trimming and the empty-line filter unchanged |
| Pipes.ExampleRow | problem_10/src/main.rs:125-127 | a line of a tile's character between two dots parses to that tile between two ground tiles |
| Pipes.ExampleGrid | problem_10/src/main.rs:144-149 | those three lines parse to the example grid |
| Pipes.ExamplePart1 | problem_10/src/main.rs:144-151 | part 1 as written reaches the "always two" panic on those lines |
| Pipes.ExampleSearchFixed | problem_10/src/main.rs:144-151 | the search with the corrected labels finds the start (1, 1) and the pipes at (0, 1) and (2, 1) in the example grid |
| Pipes.ExamplePart1Fixed | problem_10/src/main.rs:144-151 | the corrected part 1 answers the same on those lines |
| Galaxies.FromChar | problem_11/src/main.rs:16-22 | exactly '.' and '#' are tiles; anything else is the panic |
| Galaxies.ToChar | problem_11/src/main.rs:23-28 | a tile prints as '.' or '#' |
| Galaxies.CharRoundTrip | problem_11/src/main.rs:16-28 | printing a parsed character gives it back, and parsing a printed tile gives the tile |
| Galaxies.ParseGrid | problem_11/src/main.rs:111-114 | the grid parses exactly when every character is a tile; it keeps the shape of the lines and holds at each place the tile its character reads as |
| Galaxies.ManhattanDist | problem_11/src/main.rs:51-54 | the distance is zero exactly between equal positions |
| Galaxies.ManhattanMetric | problem_11/src/main.rs:51-54 | the distance is symmetric and obeys the triangle inequality |
| Galaxies.Count | problem_11/src/main.rs:68-78 | the number of marked entries is at most the length |
| Galaxies.CountAppend | problem_11/src/main.rs:68-78 | the marked entries of two parts add up |
| Galaxies.ExpandBy | problem_11/src/main.rs:68-78 | the `flat_map` that doubles marked entries grows the sequence by the number of marks |
| Galaxies.ExpandByElements | problem_11/src/main.rs:68-78 | doubling adds no new values and drops none |
| Galaxies.ExpandByIndex | problem_11/src/main.rs:68-78 | entry i lands after the entries before it and their copies, and a marked entry is followed by its copy |
| Galaxies.DuplicateEmptyRows | problem_11/src/main.rs:68-78 | the grid gains one row per empty row |
| Galaxies.DuplicateRowsSpec | problem_11/src/main.rs:68-78 | the rows are the same lines as before, and row i lands at its shifted index |
| Galaxies.DuplicateEmptyCols | problem_11/src/main.rs:79-101 | the number of lines stays the same |
| Galaxies.LineMarksPrefix | problem_11/src/main.rs:82-97 | the per-line marks agree with the empty-column marks |
| Galaxies.DuplicateEmptyColsWidth | problem_11/src/main.rs:79-101 | each line gains one tile per empty column |
| Galaxies.MarkedFrom | problem_11/src/main.rs:137-148 | one index per mark |
| Galaxies.MarkedFromSpec | problem_11/src/main.rs:137-148 | the indices of the marks, exactly, in increasing order |
| Galaxies.FindEmptyRows | problem_11/src/main.rs:137-142 | one index per empty row |
| Galaxies.FindEmptyCols | problem_11/src/main.rs:143-148 | one index per empty column |
| Galaxies.FindEmptySpec | problem_11/src/main.rs:137-148 | `find_empty_rows` and `find_empty_cols` list exactly the empty rows and columns, in increasing order |
| Galaxies.DuplicateAddsEmpty | problem_11/src/main.rs:68-101 | part 1's grid grows by one row per empty row and one column per empty column |
| Galaxies.CountInRange | problem_11/src/main.rs:160-164 | the count of entries in a range is at most the number of entries |
| Galaxies.ManhattanDistExpandedBy | problem_11/src/main.rs:150-171 | each empty row or column in the box between the positions adds `size - 1` to the distance, so it is never below the plain distance |
| Galaxies.Scaled | problem_11/src/main.rs:170 | the expansion term with a factor of 1 is the count itself |
| Galaxies.ManhattanDistExpanded | problem_11/src/main.rs:150-173 | the distance with `EXPANSION_SIZE` = 1 000 000 is at least the plain distance |
| Galaxies.ExpandedSymmetric | problem_11/src/main.rs:150-171 | the expanded distance is symmetric and is the plain one when nothing is empty |
| Galaxies.CountBelow | problem_11/src/main.rs:68-101 | the count of entries below a bound is at most the number of entries |
| Galaxies.CountBelowDifference | problem_11/src/main.rs:156-164 | the entries counted between two coordinates are those below the upper one minus those below the lower one |
| Galaxies.ExpandedIsImageDistance | problem_11/src/main.rs:68-133 | part 2's formula with an expansion of 2 is the plain distance between the images of two galaxies in part 1's duplicated grid, so both parts agree |
| Galaxies.ShiftDistance | problem_11/src/main.rs:150-171 | shifting both positions past the empty rows and columns below them adds exactly the empty lines between them |
| Galaxies.AxisShift | problem_11/src/main.rs:150-171 | along one axis, the shifted gap is the gap plus the empty lines between |
| Galaxies.GalaxyNotEmpty | problem_11/src/main.rs:137-148 | a galaxy's row and column are never listed as empty |
| Galaxies.ExpandedByTwo | problem_11/src/main.rs:165-170 | with an expansion of 2 the formula adds one per empty row and column in the box |
| Galaxies.DuplicatedTile | problem_11/src/main.rs:115-116 | every tile of the grid reappears at its image in the duplicated grid |
| Galaxies.RowImage | problem_11/src/main.rs:68-78 | row i appears at its index shifted by the empty rows above it |
| Galaxies.ColImage | problem_11/src/main.rs:79-101 | column i appears at its index shifted by the empty columns left of it |
| Galaxies.RowsWideEnough | problem_11/src/main.rs:68-80 | duplicating rows keeps the first row's width |
| Galaxies.SameColumns | problem_11/src/main.rs:115-116 | duplicating rows does not change which columns are empty |
| Galaxies.RowGalaxies | problem_11/src/main.rs:122-125 | exactly the galaxies of a line, from a column on |
| Galaxies.GalaxyPositions | problem_11/src/main.rs:118-127 | `posn_list`: exactly the galaxies of the grid |
| Galaxies.Part1 | problem_11/src/main.rs:103-135 | the answer is the sum of the plain distances over the unordered pairs of galaxies of the grid with its empty rows and columns duplicated |
| Galaxies.PairSumTwice | problem_11/src/main.rs:128-133 | for a symmetric distance that is 0 from a position to itself, the sum over ordered pairs is twice the sum over unordered pairs, so the division by 2 is exact |
| Galaxies.ExpandedDiagonal | problem_11/src/main.rs:150-171 | the expanded distance of a galaxy to itself is 0, since its row and column are never empty |
| Galaxies.Part2 | problem_11/src/main.rs:187-205 | the answer is the sum of the expanded distances over the unordered pairs of galaxies, and so at least half the sum of the plain distances over ordered pairs |
| Galaxies.PairSumMonotone | problem_11/src/main.rs:128-133 | a pointwise larger distance gives a larger pair sum |
| Galaxies.RowSumMonotone | problem_11/src/main.rs:128-133 | the same for the sum against one position |
| Springs.FromChar | problem_12/src/main.rs:19-27 | a spring state parses exactly from '.', '#' or '?', and prints back as that character |
| Springs.FromToChar | problem_12/src/main.rs:19-27 | every state parses back from its character |
| Springs.ParseStates | problem_12/src/main.rs:36-38 | the states parse exactly when every character is a state, one state per character, each printing back as its character |
| Springs.ParseNums | problem_12/src/main.rs:39-43 | the list parses exactly when every comma-separated piece of the trimmed text is a `u64`; there is at least one piece and each number is its piece's value |
| Springs.NumPieces | problem_12/src/main.rs:40-41 | splitting on ',' always yields at least one piece |
| Springs.ParseLine | problem_12/src/main.rs:44-52 | a line parses exactly when it has a space, the text before the first space gives states and the text after it gives numbers; the row holds those states and numbers |
| Springs.MatchesStates | problem_12/src/main.rs:54-58 | `zip_eq` panics (`None`) exactly when the lengths differ and every compared pair is compatible; the answer is true exactly when the lengths agree and every pair is compatible (equal, or one of them unknown) |
| Springs.MatchesStatesSymmetric | problem_12/src/main.rs:54-58 | comparing is symmetric in its two arguments |
| Springs.Repeat | problem_12/src/main.rs:116-117 | `[s].repeat(n)` has `n` copies of `s` |
| Springs.WindowMatch | problem_12/src/main.rs:151-156 | the window of a run of length `len` and its trailing normal spring matches exactly when no spring in the run is normal and the spring after it is not broken |
| Springs.GetCombsNoLengths | problem_12/src/main.rs:60-68 | with no runs left there is one arrangement exactly when no spring is broken, and none otherwise |
| Springs.FirstBroken | problem_12/src/main.rs:125-129 | the position found is that of the first broken spring, and there is none exactly when no spring is broken |
| Springs.LastStart | problem_12/src/main.rs:130 | the last start tried is the smaller of the free room and the first broken spring's position |
| Springs.GetCombs | problem_12/src/main.rs:92-161 | when the runs and the gaps between them need more room than the row has, there is no arrangement |
| Springs.SumPlacements | problem_12/src/main.rs:130-160 | the same bound for the sum over starts |
| Springs.Placement | problem_12/src/main.rs:131-159 | the same bound for one start's contribution |
| Springs.NoLengths | problem_12/src/main.rs:93-96 | with no runs left the count is 1 if no spring is broken and 0 otherwise |
| Springs.FirstRunTooLong | problem_12/src/main.rs:97-100 | a first run longer than the row gives no arrangement |
| Springs.FirstRunFillsRow | problem_12/src/main.rs:101-115 | a first run as long as the row gives one arrangement exactly when it is the last run and no spring is normal |
| Springs.InteriorPlacement | problem_12/src/main.rs:151-158 | a run placed before the row's end contributes the count of the rest of the row after its trailing spring, exactly when its window matches, and nothing otherwise |
| Springs.ThreeUnknownsOneRun | problem_12/src/main.rs:92-161 | three unknown springs with one run of length 1 give 3 arrangements |
| Springs.CombCache.constructor | problem_12/src/main.rs:70-72 | the cache starts empty, each entry (vacuously) holding its key's count |
| Springs.CombCache.Clear | problem_12/src/main.rs:182 | clearing leaves an empty, consistent cache |
| Springs.CombCache.GetCombsCached | problem_12/src/main.rs:73-90 | the cached lookup answers the count for its key, whether found or computed, and afterwards the key is cached and no entry is lost |
| Springs.CombCache.Compute | problem_12/src/main.rs:92-161 | `get_combs` computed through the cache answers the count, keeping every entry consistent |
| Springs.CombCache.SumCached | problem_12/src/main.rs:130-160 | the `filter_map(...).sum()` over starts `0..=last` answers the sum of the placements' counts |
| Springs.CombCache.PlacementCached | problem_12/src/main.rs:131-159 | one start's contribution, computed through the cache, is that placement's count |
| Springs.HandleLine | problem_12/src/main.rs:163-165 | a line's count is the number of arrangements of its states and runs |
| Springs.Repeat5 | problem_12/src/main.rs:194 | `nums.repeat(5)` is five times as long, copy `k` holding the numbers at their places |
| Springs.Unfold5 | problem_12/src/main.rs:195-198 | five copies of the states with an unknown spring between each two: length `5n + 4`, each copy in place and an unknown at each joint |
| Springs.UnfoldRow | problem_12/src/main.rs:193-200 | the unfolded row has five times the runs and five copies of the states with four joints |
| Springs.SumRows | problem_12/src/main.rs:176 | summing the lines' counts through one cache gives the total count and keeps the cache consistent |
| Springs.UnfoldRows | problem_12/src/main.rs:191-201 | every row is unfolded in place, none added or lost |
| Springs.Part2 | problem_12/src/main.rs:180-205 | after clearing the cache, the answer is the total count of the unfolded rows |
| Mirrors.FromChar | problem_13/src/main.rs:25-31 | a tile parses exactly from '.' (ash) or '#' (rock); any other character is the panic case and gives `None` |
| Mirrors.Opp | problem_13/src/main.rs:33-39 | the opposite tile always differs from the tile |
| Mirrors.OppInvolution | problem_13/src/main.rs:33-39 | taking the opposite twice gives the tile back |
| Mirrors.ParsePattern | problem_13/src/main.rs:85-87 | a pattern parses exactly when every character is '.' or '#', with one row per line, each tile the parse of its character |
| Mirrors.TryHorizSymmetryLine | problem_13/src/main.rs:42-53 | the outward walk answers true exactly when every pair of rows at equal distance from the line between rows `a` and `a + 1` is equal |
| Mirrors.HorizFrom | problem_13/src/main.rs:55-68 | the search from row `a` answers 0 or a row count after `a` and before the last row |
| Mirrors.HorizFromFirst | problem_13/src/main.rs:59-66 | a non-zero answer is a mirror line not ignored, and no earlier line from `a` on is one |
| Mirrors.HorizSymmetry | problem_13/src/main.rs:55-68 | the number of rows above the first mirror line is less than the pattern's height |
| Mirrors.HorizSymmetryFirst | problem_13/src/main.rs:55-68 | a non-zero answer `n` means the line after row `n - 1` is a non-ignored mirror line and no earlier line is; 0 means no line is |
| Mirrors.GetHorizSymmetry | problem_13/src/main.rs:55-68 | the `for` loop with its early return computes the first non-ignored mirror line's row count |
| Mirrors.Transpose | problem_13/src/main.rs:72 | the transposed list has one row per column of the first row, each as long as the pattern, with entry `(j, i)` equal to `(i, j)` |
| Mirrors.TransposeTwice | problem_13/src/main.rs:72 | transposing a rectangular pattern twice gives it back |
| Mirrors.MirrorOfTranspose | problem_13/src/main.rs:70-74 | a horizontal mirror line of the transposed pattern is exactly a vertical mirror line of the pattern |
| Mirrors.VerticalSymmetry | problem_13/src/main.rs:70-74 | the number of columns left of the first vertical mirror line is less than the pattern's width |
| Mirrors.VerticalSymmetryFirst | problem_13/src/main.rs:70-74 | a non-zero answer `n` means the line after column `n - 1` is a non-ignored vertical mirror line and no earlier column line is |
| Mirrors.PatternSymmetryTup | problem_13/src/main.rs:76-78 | the pair is the horizontal count (less than the height) and the vertical count (less than the width) |
| Mirrors.GetPatternSymmetryTup | problem_13/src/main.rs:76-78 | the method computes that same pair through the loops |
| Mirrors.PatternSymmetry | problem_13/src/main.rs:80-83 | the score exists exactly for a pattern with a row, a column and no short row, and is 100 times the rows above plus the columns left of the mirror lines |
| Mirrors.Flip | problem_13/src/main.rs:115-116 | flipping cell `(i, j)` of the copy changes that tile to its opposite and no other tile, keeping every row's length |
| Mirrors.FlipShaped | problem_13/src/main.rs:115-116 | a flipped pattern keeps the shape the solver needs |
| Mirrors.FlipRestore | problem_13/src/main.rs:125 | writing the original tile back restores the original pattern |
| Mirrors.TryFlip | problem_13/src/main.rs:101-123 | one flipped cell yields an answer exactly when the flipped pattern, with the original lines ignored, has a horizontal or a vertical line that `has_new_in_dirn` accepts: one was found and it differs from the original |
| Mirrors.SearchNone | problem_13/src/main.rs:113-128 | the row-major search over cells from `(i, j)` finds nothing exactly when no such cell yields an answer |
| Mirrors.SearchSome | problem_13/src/main.rs:113-128 | a found answer is that of a cell at or after `(i, j)` such that no cell between them yields one: the search takes the first in row-major order |
| Mirrors.Symmetry2 | problem_13/src/main.rs:105-129 | a pattern without the needed shape yields no answer |
| Mirrors.Symmetry2None | problem_13/src/main.rs:105-129 | there is no answer (the "No 2nd line of symmetry" panic) exactly when the shape is wrong or no flipped cell yields a new line |
| Mirrors.Symmetry2First | problem_13/src/main.rs:105-129 | an answer is that of the first cell in row-major order whose flip yields a new line |
| Mirrors.GetSymmetry2 | problem_13/src/main.rs:105-129 | the nested loops that flip, test and restore the copy compute the first-flip answer, the copy equal to the pattern at every iteration |
| Rocks.FromChar | problem_14/src/main.rs:23-31 | a tile parses exactly from '.', '#' or 'O'; 'O' is the round rock and '#' the cube rock |
| Rocks.Weight | problem_14/src/main.rs:33-39 | a tile weighs 1 exactly when it is a round rock, otherwise 0 |
| Rocks.ParseLines | problem_14/src/main.rs:42-44 | the grid parses exactly when every character of every line is a tile; then it has one row per line of the same width, tile `(i, k)` being the tile that character `k` of line `i` reads as |
| Rocks.GridToColumns | problem_14/src/main.rs:46-48 | there is one column per tile of the first row, each as tall as the grid, and column `j` row `i` is row `i` column `j` (a transposition) |
| Rocks.Resize | problem_14/src/main.rs:67 | `resize(n, Empty)` yields exactly `n` tiles: a prefix when shrinking, the original followed by empty space when growing, with the same round rocks |
| Rocks.StepEmpty | problem_14/src/main.rs:55 | skipping an empty tile keeps the fold invariant of `fall_to_start` |
| Rocks.StepMoving | problem_14/src/main.rs:56-60 | pushing a round rock keeps the fold invariant |
| Rocks.StepStationary | problem_14/src/main.rs:61-71 | padding to the cube rock's index and pushing it keeps the fold invariant |
| Rocks.FoldStepInv | problem_14/src/main.rs:53-72 | each step of the fold keeps its invariant, whatever the tile |
| Rocks.FoldFallInv | problem_14/src/main.rs:53-72 | after folding in the first `n` tiles the accumulator satisfies the invariant for `n` |
| Rocks.FoldAssertions | problem_14/src/main.rs:57-69 | both `assert`s in `fall_to_start` hold: a round rock is never pushed after empty space, and a cube rock lands at its own index |
| Rocks.FoldDone | problem_14/src/main.rs:74 | the final resize of a completed fold yields a column that has fallen from the input |
| Rocks.FallToStartSpec | problem_14/src/main.rs:50-76 | `fall_to_start` returns a column of the same length with the cube rocks where they were, the round rocks packed against the start or a cube rock, no round rock lost, and every segment before a cube rock holding as many round rocks as before |
| Rocks.FallToStart | problem_14/src/main.rs:50-76 | the loop computes the fold-and-resize whose meaning FallToStartSpec states |
| Rocks.PushMoving | problem_14/src/main.rs:58 | pushing a round rock after anything but empty space keeps the column packed, adds one round rock and leaves earlier prefixes alone |
| Rocks.ResizePacked | problem_14/src/main.rs:67-68 | padding with empty space and pushing a cube rock keeps a packed column packed, its prefixes and its round-rock count |
| Rocks.CubeKeepsPacked | problem_14/src/main.rs:68 | appending a cube rock keeps a column packed |
| Rocks.FallNorth | problem_14/src/main.rs:78-84 | every column is replaced by its fallen form, with no column added or lost |
| Rocks.Weighted | problem_14/src/main.rs:86-92 | a tile at height `h` contributes `h` if it is a round rock and nothing otherwise |
| Rocks.LoadCol | problem_14/src/main.rs:86-92 | a column's load is at least its number of round rocks, and zero when it has none |
| Rocks.LoadFrom | problem_14/src/main.rs:86-92 | the load counted from index `i` with heights `len - index` equals the load of the suffix from `i` |
| Rocks.LoadColIndexed | problem_14/src/main.rs:86-92 | the recursive load equals the indexed sum the source's enumerate-map-sum computes |
| Rocks.LoadColBound | problem_14/src/main.rs:86-92 | a column's load is at most its height times its number of round rocks |
| Rocks.GetLoad | problem_14/src/main.rs:94-96 | the total load is zero exactly when no column holds a round rock |
| Rocks.NorthLoad | problem_14/src/main.rs:98-107 | part 1 after parsing: one fallen column per column of the grid, each the fallen form of the transposed column, and the load summed over them |
| Text.TrimmedLines | problem_4/src/main.rs:19 | every line kept by `.map(trim).filter(len > 0)` is non-empty and neither starts nor ends with whitespace |
| Text.Trim | problem_4/src/main.rs:12 | `trim` removes the leading and the trailing whitespace and nothing else: the result is a slice of the text with only whitespace around it, and it neither starts nor ends with whitespace |
| Text.TrimOfTrimmed | problem_4/src/main.rs:21 | trimming a text that neither starts nor ends with whitespace changes nothing |
| Text.TrimPadRight | problem_8/src/main.rs:56 | trimming a trimmed text with a trailing space gives the text back |
| Text.TrimPadLeft | problem_8/src/main.rs:57-63 | trimming a trimmed text with a leading space gives the text back |
| Text.SplitWhitespace | problem_4/src/main.rs:12 | `split_whitespace` yields non-empty words without whitespace |
| Text.SplitWhitespaceUnwords | problem_4/src/main.rs:12 | splitting words joined by single spaces gives the words back |
| Text.SplitOnce | problem_4/src/main.rs:22-24 | `split_once` fails exactly when the separator is absent; otherwise the text is the part before, the separator and the part after, with no separator in the part before |
| Text.Split | problem_2/src/main.rs:95 | `split` gives at least one piece, no piece holds the separator, and joining the pieces with it gives the text back |
| Text.SplitJoin | problem_2/src/main.rs:95 | splitting pieces joined by the separator gives the pieces back |
| Text.SplitTerminator | problem_2/src/main.rs:78 | `split_terminator` gives no piece holding the separator, no piece exactly for the empty text, and the pieces of `split` without a trailing empty one |
| Text.StripPrefix | problem_4/src/main.rs:21 | `strip_prefix` succeeds exactly when the text starts with the prefix, and then gives the rest after it |
| Text.ParseUnsigned | problem_4/src/main.rs:13 | a parsed number is below the width's limit and comes from a text that is neither empty nor a lone '+' |
| Text.ParseNatToString | problem_4/src/main.rs:13 | every number below the limit, written in decimal, parses back to itself |
| Text.ParseAll | problem_4/src/main.rs:12-14 | the tokens parse exactly when each is a number below the limit, one number per token, each the parse of its token |
| Text.ParseNumList | problem_4/src/main.rs:11-15 | a parsed list has one number per word of the trimmed text, each below the limit |
| Text.ParseNumListRender | problem_4/src/main.rs:11-15 | numbers below the limit written out with single spaces parse back to themselves |

## Left out

- problem_6 (boat races) is not modelled: its solution works with `f64` square roots, `floor` and `ceil`.
- problem_7/src/main.rs is an unfinished stub. Only part2.rs, the solution, is modelled.
- Reading the input file and printing answers (`println!`, the debug `print!` calls) are I/O. Each part starts from the input's lines.
- The sums that problem 13's `main` takes over the blank-line-separated patterns are not modelled. Splitting the input into patterns is not modelled either. Each pattern is handled on its own.
- Problem 12's `CMB_CACHE` is a global `Mutex<HashMap>` behind `lazy_static`, keyed by the start addresses of the two slices only (`states.as_ptr()`, `lengths.as_ptr()`), not their lengths. The model scopes the cache to one `CombCache` object and keys it by the slice values. Locking and address identity are not modelled.
- `char::is_numeric` accepts every Unicode digit. The model accepts only the ASCII digits `'0'`–`'9'`. String indices count characters, not UTF-8 bytes.
- Overflow is not modelled for `u32`, `u64`, `usize` and `i64` sums, products, differences and counters. This covers scratchcard counts, winnings, galaxy distances, extrapolated values, cube powers, calibration sums, gear ratios, step counters, the least common multiple and arrangement counts. These are unbounded here. Only number parsing keeps its width's limit.
- Almanac: problem 5's `u64` additions (`start + len`, `dest_start + range_len`, `dest + (x - src)`) must not overflow. The model turns this into `requires` instead of modelling a panic or a wrap.
- Wasteland: part 2 takes its start nodes from `nodes_kv.keys()`, in `HashMap` order. The model takes them in input order. The least common multiple does not depend on that order. A name given twice keeps its last node, as `collect` into a `HashMap` does.
- `itertools` (`tuple_windows`, `sorted_by`), `counter::Counter` and `num::integer::lcm` are modelled by the values they return, not by their implementations.
- Wasteland.Part1 and Wasteland.Part2 walk with a `fuel` bound and end in `OutOfFuel` when it runs out. A walk that never reaches an end node loops forever in the source and is not distinguished from one longer than the fuel.
- Wasteland.Part2 computes the least common multiple of each start's first arrival at an end node, as the source does. The model does not claim that this equals the first step where every walk is at an end node at once. That holds only with the puzzle's cycle structure, which the code assumes but does not check.
- The commented-out code in problem_8/src/main.rs (lines 94-181 and 221-232) is not modelled.
- The traversal after the start in problem_10/src/main.rs:155-157 is unfinished: it builds a map and reads nothing from it. Pipes stops at the two tiles connected to the start.
- Almanac.RangePathRemapsTwice: `apply_map_r` is modelled as written. A range that one line of a map has already moved can be moved again by a later line of the same map, so the range path can disagree with the point path `apply_map`. The lemma exhibits a case. No corrected range path is modelled.
- Mirrors: the symmetry searches require `Shaped` (at least one row and one column, no row shorter than the first). A shorter row, or an empty pattern, makes the source index out of bounds or compare rows of different lengths. Symmetry2 returns `None` for an unshaped pattern.
- Galaxies: every member requires `WideEnough` (at least one row, no row shorter than the first). An empty grid or a short row reached by `index_in` or `ln[xi]` panics. The requirement also excludes some ragged grids that run without a panic, because the column scans use a short-circuiting `all` and stop at the first non-empty tile. For example, in the grid `##` / `#` each column scan stops at row 0.
- Rocks.GridToColumns and Rocks.NorthLoad require at least one row and no row shorter than the first, because the transposition indexes through the first row's width.
- Pipes: the neighbour and connection members require a grid size of at least one by one, because `gsize - 1` underflows for an empty grid. An empty grid already panics at `grid[0]`.
- Scratchcards.Cascade and Scratchcards.Part2 require every card's wins to stay inside the table. Indexing past the last card is a panic in the source.
- Mirrors.Symmetry2: its own contract states only that an unshaped pattern gives `None`. The result is characterised by Symmetry2None and Symmetry2First.
- Wasteland.ParseNodeTuple: it states only the parenthesised shape of an accepted tuple, not that the two names are the trimmed parts around the comma.
- Wasteland.ParseNodeLine: it states only that an accepted line contains `=`.
- Wasteland.ParseInput: it states only that an accepted input has a non-empty turn list. The node lines' contents are not restated.
- AlmanacInput.ParseMaps: it relates the parsed lines to the number lines and counts the maps by the headers. It does not state which lines go into which map.
- Oasis.ParseLine: it states the length and the `i64` range of the values, not that each value is the parse of its word.
- Pipes.ConnectingWith: it says what a found pair means, not when the filter keeps exactly two positions.
- Pipes.FindConnectingToStartAsWritten: it says what a found pair means, not when one is found.
- Pipes.FindConnectingToStart: it says what a found pair means, not when one is found.
- Pipes.SearchGrid: it states the result's meaning and the no-start case, not when two connections are found.
- Pipes.Part1: it states the result's meaning and the bad-character case, not when a result exists. ExamplePart1 shows a grid where none does.
- Pipes.Part1Fixed: its own contract states only the bad-character case and the start. Part1Spec states the rest.
- CamelCards.TotalWinnings: its own contract covers only the empty input. SortedUnique and the lemmas beside it say which order the winnings are taken over.
- CamelCards.Part2: it states when the answer exists, not its value beyond TotalWinnings.
- Scratchcards.Part1: it states when the score is defined (no card with more than 32 matches, where `1 << (n - 1)` would overflow the `u32`), not the score's value.
- Almanac.IntersectsIff: it requires both ends to be positive, because `end_incl` underflows for a range ending at 0. Its second clause holds only for non-empty ranges: `intersects` compares inclusive ends, so the empty range [5, 5) intersects [3, 10) without sharing a number with it.
- Almanac.MapsData.ApplyMaps: its contract covers the cases of zero maps and one map, and says that it does not panic without a line `d 0 0`. Composition is given by ApplyMapsAppend.
- Text.IsSpace: only the ASCII whitespace characters count. Rust's `trim` and `split_whitespace` also treat the other Unicode whitespace characters as whitespace.
- Gears.Part1Spec: it states the answer's value. When the answer exists is stated by Part1 itself.
- Gears.AdjacentNums: it states that every number found is near the position. How many there are is stated by AdjacentCount, and which ones by AdjacentMultiset.

## Findings

| source | as written | input that shows it | evidently intended | confidence | as-written member | corrected member |
|---|---|---|---|---|---|---|
| problem_10/src/main.rs:106-122 | `get_adj_and_dirn` labels the neighbours above, below, left and right as E, W, N and S. So `find_connecting_to_start` tests `has_connector(dirn.opp())` against the wrong connector of each neighbour. | the grid `.\|.` / `.S.` / `.\|.` with the start in the middle: no neighbour passes the test, and part 1 reaches the "always two" `expect` panic (Pipes.ExamplePart1, Pipes.ExampleAsWritten, Pipes.WrittenLabelsWrong) | above is N, below is S, left is W and right is E, which finds the pipes at (0,1) and (2,1) (Pipes.ExamplePart1Fixed, Pipes.Part1Spec, Pipes.FixedLabelsStep, Pipes.Pos.GetAdjAndDirnFixed) | high; not executed | Pipes.Part1 | Pipes.Part1Fixed |
