# Advent of Code 2023 puzzle kernels, modelled and verified in Dafny

This project models the puzzle-solving core of a Rust repository of Advent of
Code 2023 solutions. Each day's module reads the puzzle input as lines,
`prepare`s it into a structure, and answers `part_1` and `part_2`. The main
subject is day 12 (counting the arrangements of damaged springs that match a
record of block lengths). The others are the interval arithmetic of
`util/span.rs` and the kernels of days 1 to 11, 14 and 15.

There is one Dafny module per source file, in one `.dfy` file each:

- `Text` (`text.dfy`) holds the string and sequence helpers the days share:
  splitting, trimming, words, number parsing and printing, sums, iteration
  orders.
- `Day12` models `collect_permutations` as a loop over the pattern that forks
  at every `?`. `check_partial` is a loop with an early return, proved
  against a predicate on the block lengths of a prefix. `check_permutation`
  compares the block lengths of a filling with the record. The central
  result, `OptionsCountArrangements`, says what the pruned enumeration
  counts: exactly the fillings of the pattern whose block lengths equal the
  record, each once.
- `Span` models half-open intervals: their construction, length,
  intersection, union, subtraction and division, and the literal tests.
- `Day05` and `Day05b` model the two versions of the seed-to-location range
  remapping. These are first-match conversion tables chained in a fixed
  order, the table-building `prepare` loops, and the minimum over the seeds.
- `Day15` models the HASH fold and the lens boxes: insert and remove keep
  every label at most once per box, in the box its hash names. It also
  models the focusing power.
- `Day14` models tilting the rock grid column by column, rotating, weighing,
  the spin cycle, and the replay of a repeating state sequence in part 2.
- `Day07` models poker-hand keys with and without jokers, the in-place sort
  of the hands, and the winnings.
- `Day04` models scratchcard matches and scores, and the copy cascade over
  an array of counts.
- `Day09` models the difference pyramid and both extrapolations.
- `Day11` models the galaxy offsets of `prepare`, the expansion, and the sum
  of pairwise Manhattan distances.
- `Day08` models the node parser, the L/R walk, `gcd`, `lcm` and the lcm
  fold.
- `Day03` models the digit-run scanner with its bounding boxes, the symbol
  map, and both sums.
- `Day02` models draw parsing, the colour-wise maximum, the threshold filter
  and the powers.
- `Day06` models the race distances, the winning presses, and the digit
  concatenation of `prepare_2`.
- `Day01` models the first and last calibration digits, and the marking of
  digit words by index.
- `Day10` models the pipe link table, the start links, the route walk, the
  polygon of corners, and the ray-crossing parity count.

How the Rust maps to Dafny:

- Code that changes variables step by step becomes methods with loops and
  invariants. Each method is proved equal to a specification function, and
  the properties are proved about that function.
- `unwrap`s and index panics on parsed data become `None`. Panics the code
  rules out by assumption become preconditions.
- Where the source iterates a `HashMap`, the iteration order is a parameter
  `keys` that lists the map's keys once each. The results that sum over it
  are proved not to depend on the order.

Day 12 enumerates the fillings with pruning and then filters them
(`src/day12.rs:11-91`), and the model does the same.

Where the code and its comments disagree, the model follows the code:

- In day 11 the comment at `src/day11.rs:34` says "non-empty" columns. The
  code's `x_empty` holds 1 for *empty* columns, so an x offset counts the
  galaxy-free columns to the left, as `Day11.FlagsCount` states.

## Model

| member | source | states |
|---|---|---|
| Day12.Blocks | src/day12.rs:34-37 | the left-to-right scan of `#`/`?` runs gives the same block lengths as splitting on `.` and dropping empty pieces |
| Day12.BlocksGrow | src/day12.rs:33-46 | the blocks of a prefix are dominated by those of the whole string: never more blocks, each no longer except possibly the last |
| Day12.CheckPartial | src/day12.rs:33-46 | returns the permutation unchanged exactly when no block `i` with `i < \|sequence\|` is longer than `sequence[i]`, and `None` otherwise; blocks past the end of the requirement are never rejected |
| Day12.CheckPermutation | src/day12.rs:48-54 | accepts a string exactly when its block lengths, split on `.` with empty pieces dropped, equal the record's; `AcceptedIsSolution` proves an accepted option is exactly a filling with the required blocks |
| Day12.PruneSound | src/day12.rs:33-54 | every prefix of a filling that `check_permutation` accepts passes `check_partial`, so pruning never loses an arrangement |
| Day12.ForkOptions | src/day12.rs:16-25 | the fold at a `?` pushes, option by option, the `.` extension then the `#` extension, each only if `check_partial` accepts it |
| Day12.CollectPermutations | src/day12.rs:11-31 | the option list after the last character equals the recursive enumeration `Options` of the pattern |
| Day12.ExtendMembers | src/day12.rs:15 | at `.`/`#` a string is an option exactly when it is an old option followed by that character |
| Day12.BranchMembers | src/day12.rs:17-24 | the extensions kept for one option at a `?` are exactly the admissible one-character `.`/`#` extensions of it |
| Day12.ForkMembers | src/day12.rs:16-25 | after a `?` a string is an option exactly when it is an old option followed by `.` or `#` and is admissible |
| Day12.Options | src/day12.rs:11-31 | the options after each character: extended at `.`/`#`, forked and pruned at `?`; `OptionsExactly` and `OptionsDistinct` state what they hold |
| Day12.OptionsExactly | src/day12.rs:11-31 | a string is an option exactly when it fills the pattern (same length, equal at `.`/`#`, `.` or `#` at `?`) and each of its prefixes ending at a `?` is admissible |
| Day12.OptionsDistinct | src/day12.rs:14-26 | the options are pairwise distinct |
| Day12.ForkDistinct | src/day12.rs:16-25 | forking distinct options at a `?` keeps them distinct |
| Day12.FillingsExactly | src/day12.rs:11-31 | the unpruned specification set of fillings holds exactly the strings that fill the pattern |
| Day12.CountDistinct | src/day12.rs:82-86 | filtering a list of distinct options with `check_permutation` and counting gives the size of the accepted set |
| Day12.OptionsCountArrangements | src/day12.rs:79-91 | the enumerated, pruned and filtered count of a record equals the number of fillings whose block lengths equal its requirement |
| Day12.AcceptedIsSolution | src/day12.rs:17-54 | an option accepted by `check_permutation` is exactly a filling whose block lengths equal the requirement |
| Day12.NoUnknownsSingleOption | src/day12.rs:14-15 | a pattern without `?` has itself as its only option |
| Day12.NoUnknownsArrangements | src/day12.rs:11-54 | a pattern without `?` has 1 arrangement if its own blocks match the requirement and 0 otherwise |
| Day12.ToLong | src/day12.rs:56-61 | the unfolded pattern is five copies joined with `?`, of length `5n + 4`, still over `.`/`#`/`?`; the unfolded requirement is five copies, summing to five times the sum |
| Day12.CountPermutations | src/day12.rs:82-86 | counts the options that `check_permutation` accepts |
| Day12.Part1 | src/day12.rs:79-91 | the total is the sum over records of their arrangement counts |
| Day12.Part2 | src/day12.rs:93-106 | the total is the sum over records of the arrangement counts of their unfolded records |
| Day12.ParseRecord | src/day12.rs:69-73 | `None` exactly when the line has no space or the text after the first space is not comma-separated numbers; otherwise the pattern is what precedes the first space (it has no space) and the lengths are the numbers after it |
| Day12.ParseShownLengths | src/day12.rs:72 | a comma-joined list of decimal lengths reads back as that list |
| Day12.ParseShowRecord | src/day12.rs:68-74 | a record written as `pattern lengths` reads back as itself |
| Day12.Prepare | src/day12.rs:64-77 | all lines parse exactly when the result is `Some`, and then record `i` is the parse of line `i` |
| Span.New | src/util/span.rs:13-19 | the result is ascending and its ends are the two arguments, in one order or the other |
| Span.NewSymmetric | src/util/span.rs:120-123 | the argument order does not matter |
| Span.Len | src/util/span.rs:22-24 | `start + len == end` |
| Span.Values | src/util/span.rs:42-44 | the values of a span are those `contains_value` accepts: start included, end excluded |
| Span.LenCountsValues | src/util/span.rs:22-44 | the length is the number of values the span contains |
| Span.Intersects | src/util/span.rs:32-34 | `intersects`: neither span ends at or before the other starts; `IntersectsSymmetric` and `IntersectsIffCommonValue` state what that means |
| Span.Contains | src/util/span.rs:37-39 | `contains`: `other` lies within the bounds of `self`; `ContainsIffValues` states what that means |
| Span.ContainsIffValues | src/util/span.rs:36-44 | for a non-empty `other`, `contains` holds exactly when every value of `other` is a value of `self` |
| Span.IntersectsSymmetric | src/util/span.rs:32-34 | `intersects` is symmetric, and spans that only touch do not intersect |
| Span.IntersectsIffCommonValue | src/util/span.rs:32-44 | two non-empty spans intersect exactly when they share a value |
| Span.Intersection | src/util/span.rs:47-57 | `Some` exactly when the spans intersect, and then contained in both (and ascending when both are) |
| Span.IntersectionValues | src/util/span.rs:47-57 | the intersection holds exactly the values held by both spans |
| Span.Union | src/util/span.rs:60-70 | `Some` exactly when the spans intersect, and then containing both |
| Span.UnionValues | src/util/span.rs:60-70 | the union of intersecting spans holds exactly the values held by either |
| Span.InsertNat | src/util/span.rs:85 | inserting into a sorted list keeps it sorted and adds exactly that value |
| Span.SortNats | src/util/span.rs:85 | `values.sort()`: the result is sorted and as long as the input |
| Span.SortNatsPermutes | src/util/span.rs:85 | sorting is a permutation |
| Span.NonEmpty | src/util/span.rs:89 | keeps exactly the pieces with `start < end` |
| Span.Subtraction | src/util/span.rs:74-93 | `None` exactly when `other` contains `self` |
| Span.SubtractionBoundaries | src/util/span.rs:83-85 | when the spans overlap without containment, the four sorted boundaries are self.start, the intersection's ends, self.end |
| Span.SubtractionClosedForm | src/util/span.rs:83-91 | the pieces are the non-empty ones of `[start, i.start)` and `[i.end, end)` around the intersection `i` |
| Span.SubtractionPieces | src/util/span.rs:74-93 | `[self]` for disjoint spans; otherwise at most two non-empty pieces inside `self`, disjoint from `other`, holding exactly the values of `self` not in `other`, with total length `len(self) - len(intersection)` |
| Span.SubtractionValue | src/util/span.rs:74-93 | a value is in some piece exactly when it is in `self` and not in `other` |
| Span.DivisionClosedForm | src/util/span.rs:98-112 | for overlapping spans the pieces are the lower remainder, the intersection and the upper remainder, empties dropped |
| Span.DivisionOverlap | src/util/span.rs:105-110 | division is the subtraction's pieces plus the intersection, sorted by start |
| Span.Division | src/util/span.rs:98-112 | never `None`, and `[self]` when `other` contains `self` or the spans do not intersect |
| Span.DivisionCovers | src/util/span.rs:98-112 | for an ascending `self` and a non-empty `other` the pieces are ascending, sorted by strictly increasing start, each ending where the next starts, from `self.start` to `self.end` |
| Span.EmptyDivisor | src/util/span.rs:98-112 | with an empty `other` inside `self` the pieces are not contiguous: the empty intersection is sorted last |
| Span.Examples | src/util/span.rs:119-185 | the literal `new`, `len`, `contains_value`, `contains`, `intersection` and `union` test values: a⊇c, a⊇d, a⊉b, a⊉e, g⊇a, the intersections of `a` with b to g, and its unions with b to g |
| Span.SubtractionExamples | src/util/span.rs:206-209 | the literal subtraction test values for disjoint and inner spans |
| Span.SubtractionEdgeExamples | src/util/span.rs:208-212 | the literal subtraction test values for spans sharing one end |
| Span.DivisionExamples | src/util/span.rs:233-238 | the literal division test values for disjoint, containing and inner spans |
| Span.DivisionEdgeExamples | src/util/span.rs:235-239 | the literal division test values for spans sharing one end |
| Span.DivisionLowEdge | src/util/span.rs:235 | the literal division test value for a span sharing the lower end |
| Span.DivisionHighEdge | src/util/span.rs:239 | the literal division test value for a span sharing the upper end |
| Day05.Convert | src/day05.rs:60-68 | `Some` exactly when `s <= x < s + l`; the output lies in `[d, d + l)` and keeps the input's offset, `out - d == x - s` |
| Day05.ConvertInverse | src/day05.rs:60-68 | converting back with source and destination swapped returns the input |
| Day05.ConvertChain | src/day05.rs:70-77 | `convert_chain`: the output of the first conversion in list order that covers the input, else the input; `ConvertChainFirstMatch` and `ConvertChainUncovered` state both cases |
| Day05.ConvertChainUncovered | src/day05.rs:70-77 | a chain is the identity on an input no conversion covers |
| Day05.ConvertChainFirstMatch | src/day05.rs:70-75 | a chain returns the output of the first conversion, in list order, that covers the input |
| Day05.OneListPerHeader | src/day05.rs:26-38 | after the loop there is exactly one conversion list per header line |
| Day05.ConversionLineAppends | src/day05.rs:40-44 | a `d s l` line appends `(d, s, l)` to the latest list and changes nothing else |
| Day05.Converters | src/day05.rs:49-55 | the seven stage names map to the first seven lists, in order |
| Day05.Prepare | src/day05.rs:5-58 | the seeds and the seven stage lists the line loop produces, or `None` where the source panics (a conversion line before any header or with fewer than three numbers, fewer than seven lists) |
| Day05.Location | src/day05.rs:79-101 | the seven stage chains applied in stage order, seed to location, as the nested `convert_chain` calls do |
| Day05.Part1 | src/day05.rs:79-104 | the result is the location of some seed and no seed's location is lower |
| Day05.RangeLocations | src/day05.rs:118-128 | entry `k` is the location of seed `start + k` |
| Day05.PairLocations | src/day05.rs:116-130 | the locations of the seeds of every `(start, length)` pair, pair by pair: exactly one per seed the pairs name |
| Day05.CollectLocations | src/day05.rs:115-131 | the two loops of `part_2` push exactly `PairLocations` |
| Day05.PairLocationsSound | src/day05.rs:116-130 | every location computed comes from a seed inside one of the `(start, length)` ranges |
| Day05.PairLocationsComplete | src/day05.rs:116-130 | every seed inside one of the ranges has its location computed |
| Day05.Part2 | src/day05.rs:106-133 | the result is the location of some seed in the ranges and no seed in the ranges has a lower one |
| Day05.ConvertExamples | src/day05.rs:155-165 | the literal `convert` and `convert_chain` test values, overlapping ranges included |
| Day05b.FromStr | src/day05b.rs:12-19 | defined exactly when the line has at least three numbers; input and output intervals have equal width |
| Day05b.RangeConvert | src/day05b.rs:22-28 | `Some` exactly when `input.0 <= v < input.1`, and then the output keeps the offset from `output.0` |
| Day05b.RangeAgrees | src/day05b.rs:12-28 | a range built from `(d, s, l)` converts every value as the first solution's `convert((d, s, l), v)` does |
| Day05b.FirstMatch | src/day05b.rs:37-45 | the output of the first range that covers the value, else the value; `FirstMatchAgrees` shows it is the first solution's `convert_chain` |
| Day05b.TableConvert | src/day05b.rs:37-45 | always `Some`: the first matching range's output, or the value unchanged when none matches |
| Day05b.FirstMatchAgrees | src/day05b.rs:37-45 | a table built from a chain of triples converts as the first solution's `convert_chain` |
| Day05b.Pipeline | src/day05b.rs:100-111 | the `fold` over the tables, each table's conversion applied in order; `PipelineAgrees` relates it to the first solution's chain composition |
| Day05b.PipelineAgrees | src/day05b.rs:100-111 | folding the tables left to right agrees with composing the corresponding chains in order |
| Day05b.Prepare | src/day05b.rs:48-98 | the seeds and the tables the line loop builds, with the last table pushed after the loop; `None` where a range line has fewer than three numbers or a header has no space |
| Day05b.BuilderIds | src/day05b.rs:70-84 | the tables pushed so far followed by the current one carry the header ids in header order, and nothing is pushed before the first header |
| Day05b.HeaderLineIds | src/day05b.rs:72-83 | a header line pushes the current table (unless it is the empty placeholder) and opens one named after the header's first word |
| Day05b.PrepareIds | src/day05b.rs:48-98 | when a header has been seen and no header id is empty (the source skips pushing a table whose id is empty), the emitted tables carry exactly the header ids, in order |
| Day05b.PlaceholderRun | src/day05b.rs:53-85 | any run of range lines before the first header lands in the placeholder table, whose id is empty, one conversion per line, with no table kept yet |
| Day05b.PlaceholderDropped | src/day05b.rs:53-88 | for any run of range lines before the first header, that header drops the placeholder: no table is kept and the new current table is empty under the header's id |
| Day05b.Part1 | src/day05b.rs:100-111 | the result is the pipeline's value for some seed and no seed's value is lower |
| Day05b.RangeLocations | src/day05b.rs:116-122 | entry `k` is the pipeline's value for seed `start + k` |
| Day05b.PairLocations | src/day05b.rs:113-124 | the values of the seeds of every `(start, length)` pair, pair by pair: exactly one per seed the pairs name |
| Day05b.CollectLocations | src/day05b.rs:113-124 | the two loops of `part_2` push exactly `PairLocations` |
| Day05b.PairLocationsSound | src/day05b.rs:113-124 | every value computed comes from a seed inside one of the `(start, length)` ranges |
| Day05b.PairLocationsComplete | src/day05b.rs:113-124 | every seed inside one of the ranges has its value computed |
| Day05b.Part2 | src/day05b.rs:113-126 | the result is the pipeline's value for some seed in the ranges and no seed in the ranges has a lower one |
| Day05b.ConvertExamples | src/day05b.rs:149-168 | the literal table conversion test values |
| Day15.LowerCode | src/day15.rs:18 | `to_ascii_lowercase`: an upper-case ASCII letter moves up by 32, every other character keeps its code |
| Day15.HashStep | src/day15.rs:18 | one step of the fold stays below 256 |
| Day15.HashSeq | src/day15.rs:16-20 | the hash is below 256 and the empty string hashes to 0 |
| Day15.HashAppend | src/day15.rs:16-20 | hashing a concatenation continues the fold from the first part's hash |
| Day15.HashIgnoresCase | src/day15.rs:18 | strings that agree up to ASCII case hash alike |
| Day15.HashExample1 | src/day15.rs:85 | `"rn=1"` hashes to 30 |
| Day15.HashExample2 | src/day15.rs:86 | `"ab=5"` hashes to 197 |
| Day15.HashExample3 | src/day15.rs:87 | `"qp-"` hashes to 14 |
| Day15.Prepare | src/day15.rs:11-14 | defined exactly when there is a first line; the steps are the first line split on `,`: none contains a `,` and they join back to that line |
| Day15.Part1 | src/day15.rs:22-25 | the sum of the step hashes, at most 255 per step |
| Day15.HashSumBound | src/day15.rs:22-25 | the sum is at most 255 times the number of steps |
| Day15.ParseStep | src/day15.rs:32-39 | every parsed operation carries the hash of its own label |
| Day15.ParseStepCases | src/day15.rs:33-38 | a step with `=` becomes `Insert(hash(label), label, focal)` (no operation when the focal length does not parse); any other step becomes `Remove(hash(label), label)` with every `-` removed |
| Day15.Slot | src/day15.rs:50-56 | the first slot holding the label, or none when no slot does |
| Day15.RemoveLens | src/day15.rs:51 | `shift_remove`: deletes the label's slot and keeps the rest in order; no change when the label is absent |
| Day15.InsertLens | src/day15.rs:56 | an existing label gets the new focal length in its own slot; a new label is appended |
| Day15.RemovePreserves | src/day15.rs:49-53 | a removal keeps labels unique and all in their hash's box, and the label is gone |
| Day15.InsertPreserves | src/day15.rs:54-60 | an insertion keeps labels unique and all in their hash's box |
| Day15.Apply | src/day15.rs:48-61 | one step changes only the box its id names; an insertion leaves that box present (created if missing), a removal never creates or deletes a box |
| Day15.ApplyAll | src/day15.rs:47-62 | the steps in order; every box there was, and every box an insertion names, is present at the end |
| Day15.ApplyValid | src/day15.rs:47-62 | one step keeps every label at most once per box and only in box `hash(label)` |
| Day15.ApplyAllValid | src/day15.rs:47-62 | the invariant holds after any sequence of well-formed steps |
| Day15.InsertSets | src/day15.rs:54-60 | after an insertion the box exists (created if missing) and holds the label with the new focal length; other boxes are unchanged |
| Day15.RemoveClears | src/day15.rs:49-53 | after a removal the label is absent from its box; other boxes are unchanged |
| Day15.ParseAll | src/day15.rs:30-40 | when every step parses, operation `k` is the parse of step `k` |
| Day15.ParseAllFails | src/day15.rs:30-40 | parsing fails exactly when some step's focal length does not parse |
| Day15.ParsedBoxesValid | src/day15.rs:27-62 | the boxes built from the parsed steps satisfy the invariant |
| Day15.ParseSteps | src/day15.rs:30-40 | the step loop computes the parsed operations |
| Day15.RunSteps | src/day15.rs:44-62 | the box loop computes the boxes the operations build from no boxes |
| Day15.Power | src/day15.rs:64-73 | the sum over box ids below 256 of each box's Σ (box + 1) × (slot + 1) × focal; a sum by id, so the order the boxes were created in does not matter |
| Day15.Part2 | src/day15.rs:27-76 | the focusing power, Σ (box + 1) × (slot + 1) × focal, of the boxes the steps build; `None` where a focal length does not parse |
| Day14.SortIsSorted | src/day14.rs:39 | the segment sort puts the characters in non-increasing order, so every `O` comes before every `.` |
| Day14.SortPermutes | src/day14.rs:39 | the segment sort is a permutation |
| Day14.SortSorted | src/day14.rs:39 | sorting an already sorted segment changes nothing |
| Day14.FirstRock | src/day14.rs:37 | the index of the first `#` of a column, or its length when there is none |
| Day14.SettleColumn | src/day14.rs:36-41 | settling a column keeps its length |
| Day14.SettleColumnSplit | src/day14.rs:37-40 | a settled column is the sorted segment before the first `#`, that `#`, and the settled rest |
| Day14.SettleColumnPermutes | src/day14.rs:36-41 | settling a column keeps every character and its count, so the number of `O`s per column |
| Day14.SettleColumnRocks | src/day14.rs:36-41 | settling keeps every `#` in place and puts none anywhere else |
| Day14.SettleColumnOrdered | src/day14.rs:37-40 | within a `#`-free stretch of a settled column the characters are non-increasing: `O`s before `.`s |
| Day14.SettleColumnIdempotent | src/day14.rs:36-41 | settling a settled column changes nothing |
| Day14.Settle | src/day14.rs:34-43 | `settle_map` keeps the number of columns and the length of each |
| Day14.SettleMap | src/day14.rs:34-43 | the column loop computes `Settle` |
| Day14.SettleShape | src/day14.rs:34-43 | `settle_map` keeps every `#` position and the characters of each column |
| Day14.SettleIdempotent | src/day14.rs:34-43 | `settle_map` is idempotent |
| Day14.SettleCells | src/day14.rs:34-43 | `settle_map` keeps the count of each character over the grid |
| Day14.Transpose | src/day14.rs:9-16 | transposing an `n`-row grid of width `m` gives `m` rows of width `n` |
| Day14.Rotate | src/day14.rs:20-32 | a square grid rotates to a square grid of the same size |
| Day14.RotateCell | src/day14.rs:28 | `out[h - 1 - y][x] == in[x][y]` |
| Day14.RotateFour | src/day14.rs:20-32 | four rotations give back the original grid |
| Day14.RotateTranspose | src/day14.rs:20-32 | a rotation is a transpose followed by reversing the rows |
| Day14.TransposeCells | src/day14.rs:9-16 | a transpose keeps the count of each character |
| Day14.RotateCells | src/day14.rs:20-32 | a rotation keeps the count of each character |
| Day14.Prepare | src/day14.rs:6-18 | on every input the source reads without an index panic (no line longer than the line count, every non-empty line `y` below the first line's length; blank lines past it included) `grid[x][y]` is character `x` of line `y`, or `.` where a line is short; for a square input the grid is the transpose of the lines |
| Day14.RotateMap | src/day14.rs:20-32 | on every grid the source rotates without an index panic (empty columns included) the double loop writes `grid[h - 1 - y][x] = map[x][y]` over a `.`-filled grid; for a square grid the result is `Rotate` |
| Day14.RoundedCounts | src/day14.rs:56 | the counting helper counts the `O`s of a prefix |
| Day14.Load | src/day14.rs:55-58 | the load of a column prefix: each `O` at index `i` weighs the column length minus `i`, so the load is at most the length times the number of `O`s |
| Day14.Weight | src/day14.rs:52-62 | the loads of the columns added up; `WeighMap` is the loop that computes it |
| Day14.LoadBound | src/day14.rs:55-58 | a column's load is at most its length times its number of `O`s |
| Day14.WeighMap | src/day14.rs:52-62 | the sum, over each `O` at index `i` of its column, of the column length minus `i` |
| Day14.Tilts | src/day14.rs:45-50 | tilting and turning keeps a square grid square |
| Day14.TiltsCells | src/day14.rs:45-50 | tilting and turning keeps the count of each character, so the numbers of `O`s and `#`s |
| Day14.CycleCells | src/day14.rs:45-50 | a spin cycle keeps the count of each character |
| Day14.CycleMap | src/day14.rs:45-50 | `cycle_map` is settle-then-rotate four times on a square grid, and leaves a grid of empty columns as it is |
| Day14.Part1 | src/day14.rs:78-82 | the load of the settled input |
| Day14.IterateSquare | src/day14.rs:99-100 | repeated spin cycles keep the grid square and its size |
| Day14.Shift | src/day14.rs:113-116 | once two states are equal, the states any number of steps after them are equal |
| Day14.Multiple | src/day14.rs:113-116 | from the start of a period, any whole number of periods later the state is the same |
| Day14.Replay | src/day14.rs:113-119 | replaying `start + (cycles - start) mod period` steps reaches the same state as `cycles` steps |
| Day14.SecondBound | src/day14.rs:99-111 | where the second repeat is found, relative to the first |
| Day14.PeriodFound | src/day14.rs:102-106 | when the search finds the second repeat at step `i`, `start < i` and replaying `start + (cycles - start) mod (i - start)` steps reaches the state after `cycles` steps |
| Day14.NoRepeat | src/day14.rs:99-111 | a search that runs to the end without a second repeat saw no repeated state in the first half of the steps |
| Day14.FindPeriod | src/day14.rs:95-111 | with a non-zero period, replaying `start + (cycles - start) mod period` steps reaches the state after `cycles` steps; a zero period means no state repeated within the first half |
| Day14.Part2 | src/day14.rs:84-122 | on a square grid or one of empty columns (the only shapes from `prepare` that `rotate_map` accepts), when defined, the load after 10^9 spin cycles; it is defined whenever some state repeats within the first half of the 10^9 cycles (otherwise the source divides by zero) |
| Day14.IterateBlank | src/day14.rs:84-122 | spin cycles leave a non-square grid of empty columns, as blank input lines give, unchanged |
| Day14.BlankPart2 | src/day14.rs:84-122 | on a non-square grid of empty columns a state repeats at once, so part 2 is defined, and the load after all the cycles is 0 |
| Day14.SettleColumnWhole | src/day14.rs:36-41 | a column without `#` settles to its sorted self |
| Day14.Cycle | src/day14.rs:45-50 | a spin cycle keeps a square grid square and of the same size |
| Day14.TiltOnce | src/day14.rs:45-50 | each of the four tilts of a spin cycle settles and then rotates the grid |
| Day14.IterateStep | src/day14.rs:99-100 | the state after `k + 1` cycles is one spin cycle applied to the state after `k` |
| Day07.CardValue | src/day07.rs:48-56 | A→14, K→13, Q→12, J→11, T→10 and a digit its value; only digits score below 10 |
| Day07.CardValueInjective | src/day07.rs:48-56 | different cards have different values |
| Day07.CardPriority | src/day07.rs:46-57 | one value per card, in hand order |
| Day07.WildCards | src/day07.rs:75-82 | the wild card priority keeps the length |
| Day07.WildCardsJoker | src/day07.rs:75-82 | in the wild card priority a joker scores 1 and every other card its plain value |
| Day07.Kinds | src/day07.rs:24-28 | the distinct cards of a hand in order of first appearance, no more than the hand has cards; `KindsFacts` states that they are exactly its cards, each once |
| Day07.KindsFacts | src/day07.rs:24-28 | the distinct cards of a hand, each once, are exactly the cards in it |
| Day07.Mults | src/day07.rs:28 | one count per distinct card, in the same order; `MultsTotal` states that they add up to the hand's length |
| Day07.MultsTotal | src/day07.rs:24-41 | the multiplicities of the distinct cards add up to the hand's length |
| Day07.SortDescending | src/day07.rs:28 | the counts are put in non-increasing order |
| Day07.SortPermutes | src/day07.rs:28 | that ordering is a permutation of the counts |
| Day07.ResizeSum | src/day07.rs:43 | padding with zeros keeps the sum |
| Day07.HandPriority | src/day07.rs:38-43 | the plain hand priority has five entries |
| Day07.HandPriorityShape | src/day07.rs:24-43 | for a five-card hand the plain priority is non-increasing, sums to 5 and holds the count of every card in the hand |
| Day07.WildPriority | src/day07.rs:66-72 | the wild hand priority has five entries |
| Day07.WildRest | src/day07.rs:66-71 | without the jokers the padded counts are non-increasing and sum to 5 minus the joker count |
| Day07.WildPriorityShape | src/day07.rs:66-72 | the wild priority is non-increasing, sums to 5 and leads with at least the joker count |
| Day07.MakeHand | src/day07.rs:15-92 | a hand built from a five-card code has four five-entry priority arrays |
| Day07.ParseHand | src/day07.rs:17-21 | a parsed hand has a five-card code and its line has a space |
| Day07.ParseShowHand | src/day07.rs:17-91 | a line `code wager` parses to the hand built from that code and wager |
| Day07.Prepare | src/day07.rs:95-102 | all lines parse exactly when the result is `Some`, and then hand `i` is the parse of line `i` |
| Day07.TwoPairExample | src/day07.rs:155-156 | a hand shaped like `KTJJT` has plain priority `[2, 2, 1, 0, 0]` and wild priority `[4, 1, 0, 0, 0]` |
| Day07.HighCard | src/day07.rs:159 | a hand of five different cards has plain priority `[1, 1, 1, 1, 1]` |
| Day07.HighCardExample | src/day07.rs:159-160 | five different cards led by a joker, like `JA234`, have wild priority `[2, 1, 1, 1, 0]` |
| Day07.CardExamples | src/day07.rs:155-160 | the literal card priorities of `KTJJT` and `JA234`, plain and wild |
| Day07.FiveJokers | src/day07.rs:66-72 | `JJJJJ` has wild priority `[5, 0, 0, 0, 0]` |
| Day07.LexIrreflexive | src/day07.rs:105 | the lexicographic order on priorities is irreflexive |
| Day07.LexTransitive | src/day07.rs:105 | the lexicographic order is transitive |
| Day07.LexTotal | src/day07.rs:105 | any two priorities are equal or ordered one way |
| Day07.KeyOrder | src/day07.rs:60-63 | the order on (hand priority, card priority) is a strict total order |
| Day07.KeyOf | src/day07.rs:105-116 | the key each part sorts by: `priority` in part 1, `priority_wild` in part 2; `KeyOrder` states that comparing keys is a strict total order |
| Day07.Insert | src/day07.rs:105 | one insertion step extends the sorted prefix by one element, as a permutation that keeps hands with equal keys in their order |
| Day07.SortHands | src/day07.rs:105 | the hands end sorted ascending by key, are a permutation of the input, and hands with equal keys keep their input order (a stable sort) |
| Day07.SwapStable | src/day07.rs:105 | swapping neighbours whose keys are strictly out of order keeps the order of the hands within every key |
| Day07.StableSortUnique | src/day07.rs:105 | any two sorted arrangements that are stable with respect to the same input are equal and have the same winnings, so a stable sort leaves no choice |
| Day07.SortedUnique | src/day07.rs:105 | two sorted permutations of hands with distinct keys are equal |
| Day07.Winnings | src/day07.rs:106-110 | the `fold` over the sorted hands: each wager times its 1-based rank, summed; `StableSortUnique` and `WinningsOrderFree` state when it is independent of the input order |
| Day07.Part1 | src/day07.rs:104-113 | sorts stably by the plain key and returns Σ wager × 1-based rank of the sorted hands; by StableSortUnique that total is fixed by the input, ties included |
| Day07.Part2 | src/day07.rs:115-124 | sorts stably by the wild key and returns Σ wager × 1-based rank of the sorted hands; by StableSortUnique that total is fixed by the input, ties included |
| Day07.WinningsOrderFree | src/day07.rs:104-124 | with distinct keys the winnings do not depend on the order the hands came in |
| Day04.Matches | src/day04.rs:13-15 | the number of held winners, at most the number of winners and of held numbers |
| Day04.MatchesMonotone | src/day04.rs:13-15 | holding one more winning number adds one match |
| Day04.ScoreOf | src/day04.rs:17-22 | the score is zero exactly when there is no match |
| Day04.Score | src/day04.rs:16-21 | a card scores zero exactly when none of its held numbers is a winner |
| Day04.ScoreDoubles | src/day04.rs:17-22 | one match scores 1 and each further match doubles the score |
| Day04.ScoreBound | src/day04.rs:17-22 | the score with `m` matches is below `2^m` and at least half of `2^m - 1` |
| Day04.NumberSet | src/day04.rs:29-36 | the numbers of a whitespace-separated list that parse, collected into a set; `Elements` and `ParseShowCardSets` state what it holds |
| Day04.Elements | src/day04.rs:30-37 | collecting numbers into a set keeps exactly the numbers listed, duplicates collapsed |
| Day04.ParseCard | src/day04.rs:26-42 | a line parses exactly when its trimmed text has a `:` followed later by a `\|` |
| Day04.ParseCardOf | src/day04.rs:28-37 | the card number is dropped; the winners are the numbers between `:` and `\|`, the held numbers those after it |
| Day04.ParseShowCard | src/day04.rs:26-42 | a card written as `Card id: winners \| held` reads back as the sets of its numbers |
| Day04.ParseCards | src/day04.rs:45-52 | all lines parse exactly when the result is `Some`, and then card `i` is the parse of line `i` |
| Day04.Part1 | src/day04.rs:54-59 | the total of the scores, which is zero exactly when no card has a match |
| Day04.Won | src/day04.rs:61-70 | the final copy count of card `j`: at least its original, and exactly one for the first card, which nothing earlier can win |
| Day04.Distribute | src/day04.rs:64-68 | the inner loop for card `i` leaves the counts of cards up to `i` final and adds card `i`'s copies to each of the next `matches(i)` cards |
| Day04.Part2 | src/day04.rs:61-71 | the sum of the final copy counts; only later cards are ever added to, so each count is final when the loop reaches it |
| Day04.CopiesAtLeastCards | src/day04.rs:62-70 | every card keeps at least its original, so the total is at least the number of cards |
| Day04.NoMatchesNoCopies | src/day04.rs:62-69 | with no matches anywhere every card ends with exactly one copy |
| Day04.ParseShowCardSets | src/day04.rs:26-42 | a printed card reads back as the sets of the numbers written between `:` and `\|` and after `\|` |
| Day09.Diffs | src/day09.rs:27-31 | the difference row is one shorter than its row (empty for an empty row) |
| Day09.Pyramid | src/day09.rs:24-38 | the pushed rows start with the input, each is the difference row of the one before and one shorter, every pushed row has a non-zero entry (so `last()` and `first()` never fail), nothing is pushed for an all-zero input, and there are at most as many rows as entries, so the loop ends |
| Day09.DiffsZero | src/day09.rs:25-31 | the differences of an all-zero row are all zero |
| Day09.Next | src/day09.rs:33-38 | the extrapolated next value: a constant history continues with its own value (`ZeroRow`: an all-zero one with zero) |
| Day09.Prev | src/day09.rs:39-48 | the extrapolated previous value: a constant history goes back to its own value |
| Day09.NextStep | src/day09.rs:33-38 | the next value exceeds the last entry by the next value of the difference row |
| Day09.PrevStep | src/day09.rs:39-48 | the first entry exceeds the previous value by the previous value of the difference row |
| Day09.NextExtends | src/day09.rs:33-38 | appending the extrapolated next value appends the difference row's next value to the differences |
| Day09.PrevExtends | src/day09.rs:39-48 | prepending the extrapolated previous value prepends the difference row's previous value to the differences |
| Day09.ZeroRow | src/day09.rs:25 | an all-zero row extrapolates to zero both ways |
| Day09.ReduceMinus | src/day09.rs:44-47 | `reduce(\|a, b\| b - a)` is defined exactly for a non-empty list |
| Day09.TailsAreNext | src/day09.rs:33-38 | the sum of the last entries of the pushed rows is the extrapolated next value |
| Day09.HeadsArePrev | src/day09.rs:39-48 | for a row with a non-zero entry, reducing `b - a` over the first entries in reverse gives the extrapolated previous value, `f0 - f1 + f2 - …` |
| Day09.FirstsCons | src/day09.rs:40-43 | the reversed first entries are those of the difference pyramid followed by the row's own first entry |
| Day09.BuildPyramid | src/day09.rs:24-32 | the while loop pushes exactly the rows of the pyramid |
| Day09.DiffRow | src/day09.rs:27-31 | `tuple_windows().map(\|(a, b)\| b - a)` computes the difference row |
| Day09.Extrapolate | src/day09.rs:19-52 | with `pyramid` cleared per row, the sums over the rows of the previous and next extrapolated values |
| Day09.Part1 | src/day09.rs:54-58 | the sum of the next values |
| Day09.Part2 | src/day09.rs:60-64 | the sum of the previous values |
| Day09.ParseRow | src/day09.rs:11-13 | `Some` exactly when every space-separated word parses as an integer, and then number `k` is the parse of word `k` |
| Day09.Prepare | src/day09.rs:6-17 | all lines parse exactly when the result is `Some`, and then row `i` is the parse of line `i` |
| Day09.ArithmeticExample | src/day09.rs:19-52 | `0 3 6 9` extrapolates to 12 forwards and -3 backwards |
| Day11.ColsClear | src/day11.rs:31-35 | the number of galaxy-free columns strictly left of column `x`, never more than `x` |
| Day11.RowsClear | src/day11.rs:21-27 | the number of galaxy-free rows strictly above row `y`, never more than `y` |
| Day11.Offsets | src/day11.rs:6-48 | every galaxy with its counts of empty columns to the left and empty rows above, each at most the galaxy's coordinate on that axis |
| Day11.ColsClearMonotone | src/day11.rs:31-35 | the number of empty columns to the left never decreases going right |
| Day11.RowsClearMonotone | src/day11.rs:21-27 | the number of empty rows above never decreases going down |
| Day11.OffsetsMonotone | src/day11.rs:15-45 | the offsets `prepare` computes never decrease with position on either axis |
| Day11.FoundNext | src/day11.rs:22-25 | each `#` inserts its galaxy with x offset 0 and the current y offset |
| Day11.RowsClearNext | src/day11.rs:21-27 | the y offset grows by one after a row without `#` and is unchanged otherwise |
| Day11.ClearAboveNext | src/day11.rs:22-24 | a column stays flagged empty until a row has a `#` in it |
| Day11.FlagsCount | src/day11.rs:31-35 | summing the flags of the columns left of `i` counts the galaxy-free columns left of `i` (the code's 1 marks an empty column, whatever the comment says) |
| Day11.ScanRow | src/day11.rs:21-27 | one row of the scan updates the column flags, the galaxies found and the y offset as the specification of the whole scan requires |
| Day11.Remap | src/day11.rs:37-45 | replacing each placeholder x offset by `x_offsets[x]` gives every galaxy its counts of empty columns to the left and empty rows above |
| Day11.Prepare | src/day11.rs:6-48 | every galaxy maps to (number of galaxy-free columns strictly left of it, number of galaxy-free rows strictly above it) |
| Day11.Expand | src/day11.rs:50-61 | one moved position per galaxy, in iteration order |
| Day11.ExpandByOne | src/day11.rs:53-59 | with `expand_by` 1 no galaxy moves and none is lost |
| Day11.Dist | src/day11.rs:69 | the Manhattan distance, zero exactly for equal positions |
| Day11.CountDistances | src/day11.rs:63-71 | the distance of every pair `i < j` summed, as `combinations(2)` enumerates them; `CountPermutation`, `CountRemove` and `CountGrows` state its properties |
| Day11.DistToPermutation | src/day11.rs:63-71 | the distances from one point to a list do not depend on the list's order |
| Day11.CountPermutation | src/day11.rs:63-71 | the sum of pairwise distances does not depend on the list's order |
| Day11.OrdersPermute | src/day11.rs:53-54 | two iteration orders of the same map are permutations of each other |
| Day11.ExpandPermutes | src/day11.rs:50-61 | expanding two orders of the same galaxies gives permutations of each other |
| Day11.OrderIndependent | src/day11.rs:63-71 | the total distance does not depend on the hash map's iteration order |
| Day11.MoveDist | src/day11.rs:56-57 | for pairs whose offsets grow with position, the distance after expansion is the original distance plus `(expand_by - 1)` times the offset distance |
| Day11.MonotoneAligned | src/day11.rs:53-59 | monotone offsets make every pair aligned |
| Day11.CountGrows | src/day11.rs:63-71 | for aligned galaxies the total is the unexpanded total plus `(expand_by - 1)` times the total over the offsets, so it is affine in `expand_by` |
| Day11.Total | src/day11.rs:63-71 | for monotone offsets and `expand_by >= 1`, the total is the unexpanded total plus `(expand_by - 1)` times the offset total |
| Day11.Part1 | src/day11.rs:73-77 | with `expand_by` 2, the unexpanded total plus the offset total |
| Day11.Part2 | src/day11.rs:79-83 | with `expand_by` 1000000, the unexpanded total plus 999999 times the offset total |
| Day11.BeforeAll | src/day11.rs:15-28 | after the whole scan the galaxies found are exactly the `#` cells of the input |
| Day11.DistToRemove | src/day11.rs:63-71 | the distances from a point to a list are those to the list without one entry plus the distance to that entry |
| Day11.CountRemove | src/day11.rs:63-71 | the pairwise total is the total without one galaxy plus that galaxy's distances to the others |
| Day11.DistToGrows | src/day11.rs:53-71 | for aligned galaxies, a moved galaxy's distances to the expanded list grow by `(expand_by - 1)` times its offset distances |
| Day08.ParseNode | src/day08.rs:15-24 | `from_str`: every `)` dropped, then split once on ` = (` and once on `, `, `None` where an `unwrap` panics; `ParseShowNode` proves the round trip |
| Day08.StripClose | src/day08.rs:16 | removing every `)` from a printed node leaves `id = (left, right` |
| Day08.ParseShowNode | src/day08.rs:15-24 | parsing the printed form of a node whose names contain none of the separators gives the node back |
| Day08.NodeMap | src/day08.rs:35-39 | every node is stored under its own id, every parsed node's id is a key, and every stored node is one of the parsed nodes |
| Day08.LastInsertWins | src/day08.rs:35-39 | when ids repeat, the map keeps the last node with that id |
| Day08.Prepare | src/day08.rs:27-41 | `Some` exactly when there is a first line and every line from the third on parses as a node; the instructions are the trimmed first line, every parsed node's id is a key, and every key holds a node parsed from some line whose id is that key (`LastInsertWins`: the last one with that id) |
| Day08.Walk | src/day08.rs:47-54 | the id reached after `k` moves, move `j` following instruction `j mod len`; `WalkShift` states that equal positions continue alike |
| Day08.FirstStop | src/day08.rs:47-56 | `k` is a stopping step and no earlier step stops; `FirstStopUnique` proves there is at most one |
| Day08.FirstStopUnique | src/day08.rs:47-56 | the walk has at most one first stopping step |
| Day08.WalkShift | src/day08.rs:47-54 | two steps at the same instruction index and the same node continue identically from there on |
| Day08.StepsFrom | src/day08.rs:43-58 | when the walk stops at all, the result is the least step count at which it stands on an id missing from the network or has just reached an id ending with `end` |
| Day08.Part1 | src/day08.rs:60-62 | the first stop of the walk from `AAA` to `ZZZ` |
| Day08.ModStep | src/day08.rs:67-72 | replacing `m` by `m % n` keeps the common divisors of the pair |
| Day08.IsGcdUnique | src/day08.rs:64-74 | the greatest common divisor is unique |
| Day08.GcdOf | src/day08.rs:64-74 | positive when an argument is; for positive `a` the Euclidean recursion yields a common divisor that every other common divisor does not exceed |
| Day08.GcdSymmetric | src/day08.rs:65-66 | the order of the arguments does not matter, which is why the source starts from `max` and `min` |
| Day08.Gcd | src/day08.rs:64-74 | for positive arguments the loop returns their greatest common divisor |
| Day08.LcmOf | src/day08.rs:76-78 | `a * b / gcd(a, b)` is a positive common multiple of `a` and `b` |
| Day08.Lcm | src/day08.rs:76-78 | returns `a * b / gcd(a, b)`, a positive common multiple of both arguments |
| Day08.LcmFold | src/day08.rs:89-92 | folding `lcm` over the path lengths yields a positive multiple of every path length |
| Day08.FoldLcm | src/day08.rs:89-92 | the loop computes the fold of `lcm` over the path lengths |
| Day08.Part2 | src/day08.rs:80-94 | the lcm fold of the first-stop lengths of the walks from every id ending with `A` to an id ending with `Z`, each length positive |
| Day03.AdjacentTo | src/day03.rs:38-43 | `adjacent_to`: the point lies in the part's box, edges included; `FromBuffer` states which points those are |
| Day03.FromBuffer | src/day03.rs:25-43 | a point lies in the built part's box (`adjacent_to`) exactly when it is one of the part's digit cells or one of their eight neighbours |
| Day03.Runs | src/day03.rs:55-67 | the digit runs found so far lie inside the scanned prefix, and the last one ends at the scan position exactly when the previous character is a digit |
| Day03.RunsMaximal | src/day03.rs:55-83 | every run the scan closes is a maximal run of digits, and the runs come in order without overlap |
| Day03.RunsComplete | src/day03.rs:55-83 | every maximal run of digits in a line is one of the runs the scan closes |
| Day03.RunsDigits | src/day03.rs:58-61 | every run the scan closes consists of digits only |
| Day03.LineSymbolsSound | src/day03.rs:68-74 | every recorded symbol entry is a character other than a digit and `.` found at the recorded position of that line |
| Day03.LineSymbolsComplete | src/day03.rs:68-74 | every character of a line other than a digit and `.` is recorded with its position |
| Day03.EntriesSound | src/day03.rs:52-77 | every recorded entry is a symbol found at its position within the grid |
| Day03.EntriesComplete | src/day03.rs:52-77 | every symbol of the grid is recorded with its position |
| Day03.GroupSound | src/day03.rs:69-74 | every point listed under a symbol was recorded for that symbol |
| Day03.GroupComplete | src/day03.rs:69-74 | every recorded entry is listed under its symbol |
| Day03.SymbolMap | src/day03.rs:46-86 | the symbol map of `prepare`, grouping every recorded symbol entry under its character; `SymbolMapExact` states what it holds |
| Day03.SymbolMapExact | src/day03.rs:46-86 | a symbol lists a point exactly when that point of the grid holds that symbol, the symbols being every character other than a digit and `.` |
| Day03.AllParts | src/day03.rs:52-84 | the parts of the first `n` lines, line by line; `LinePartsExact` and `Prepare` state what each line adds |
| Day03.LinePartsExact | src/day03.rs:55-83 | every maximal run of digits in a line yields a part with its value and box |
| Day03.ScanLine | src/day03.rs:52-84 | one line of the scan appends that line's parts, one per maximal digit run and including a run that ends the line, and records that line's symbols |
| Day03.Prepare | src/day03.rs:46-86 | the parts are those of every maximal digit run, line by line, and the symbol map lists exactly the grid's symbols with their positions |
| Day03.ValidAtMostOnce | src/day03.rs:91-99 | each part contributes at most once however many symbols touch it, so the sum never exceeds the sum of all part numbers |
| Day03.ValidAll | src/day03.rs:91-99 | when every part touches a symbol, every part number is summed |
| Day03.ValidMembers | src/day03.rs:91-99 | a number is summed exactly when some part with that number has a symbol in its box |
| Day03.AdjacentToAny | src/day03.rs:92-98 | the inner loops report whether any recorded symbol lies in the part's box |
| Day03.Part1 | src/day03.rs:88-102 | the sum of the numbers of the parts next to some symbol, each part once |
| Day03.Gears | src/day03.rs:110-114 | the numbers pushed for one point, at most one per part |
| Day03.GearsMembers | src/day03.rs:110-114 | a number is collected for a point exactly when some part with that number has the point in its box |
| Day03.Ratios | src/day03.rs:109-119 | the ratios pushed for a run of points, at most one per point |
| Day03.RatiosAppend | src/day03.rs:108-120 | the ratios of two runs of points are the ratios of the first followed by those of the second |
| Day03.PointsAppend | src/day03.rs:108-109 | the points of two runs of keys are the points of the first followed by those of the second |
| Day03.RatioSumPermutation | src/day03.rs:108-122 | the sum of the ratios does not depend on the order of the points |
| Day03.PointsPermutation | src/day03.rs:108-109 | reordering the keys only reorders the points |
| Day03.RatiosOrderFree | src/day03.rs:104-123 | the sum of the ratios does not depend on the hash map's iteration order |
| Day03.CollectGears | src/day03.rs:110-114 | collects the numbers of the parts whose box holds the point, in order |
| Day03.SymbolRatios | src/day03.rs:109-119 | appends, for each point with exactly two adjacent parts, the product of their numbers |
| Day03.RatiosStep | src/day03.rs:108-120 | handling one more key appends the ratios of that key's points |
| Day03.Part2 | src/day03.rs:104-123 | the sum, over every symbol point with exactly two adjacent parts, of the product of their numbers |
| Day02.MostDrawnAttained | src/day02.rs:18-26 | each colour of the running maximum is 0 or the amount of that colour in some draw |
| Day02.MostDrawnLeast | src/day02.rs:18-26 | every draw fits within a bound exactly when the running maximum does, so the maximum is the least bound of all draws |
| Day02.MostDrawn | src/day02.rs:18-26 | every draw fits within the colour-wise maximum |
| Day02.MaxDrawn | src/day02.rs:18-26 | the loop computes the colour-wise maximum over the game's draws, starting from zero |
| Day02.PowerLeast | src/day02.rs:27-30 | the power is at most the product of any bound that every draw fits within |
| Day02.MissingIff | src/day02.rs:18-26 | a colour's maximum is 0 exactly when no draw shows that colour |
| Day02.Power | src/day02.rs:27-30 | the power is 0 exactly when some colour is never drawn |
| Day02.CubeCount | src/day02.rs:42-44 | the count of one `{usize} <colour>` pattern: a number, one space and the colour's name, and nothing else; `DrawOfCounts` states what the loop makes of it |
| Day02.Update | src/day02.rs:42-44 | a piece naming a colour sets that colour to its number and leaves the others as they were |
| Day02.DrawOf | src/day02.rs:40-45 | the draw the cube loop builds from the `, `-separated pieces; `DrawOfCounts` proves each colour is the number of the last piece naming it, or 0 |
| Day02.DrawOfLast | src/day02.rs:41-45 | the last piece naming a colour decides it |
| Day02.LatestAbsent | src/day02.rs:40-45 | a colour no piece names stays 0 |
| Day02.LatestAt | src/day02.rs:40-45 | a colour takes the number of the last piece naming it |
| Day02.DrawOfCounts | src/day02.rs:40-45 | each colour of a parsed draw is the number from the last piece naming that colour, or 0 |
| Day02.DrawOfAbsent | src/day02.rs:40-45 | a colour no piece names is 0 in the draw |
| Day02.DrawOfLatest | src/day02.rs:40-45 | a colour is the number from the last piece naming it |
| Day02.ParseDraw | src/day02.rs:40-46 | the loop over the `, `-separated pieces builds the draw each colour of which is its last mentioned count, or 0 |
| Day02.DrawsOf | src/day02.rs:39 | one draw per `; `-separated chunk of the suffix |
| Day02.ParseGame | src/day02.rs:37-39 | a line of the form `Game <id>: <suffix>` with a non-empty suffix, `None` otherwise (where `unwrap` panics); `ParseGameLine` proves the round trip |
| Day02.ParseGameLine | src/day02.rs:37-47 | a line `Game <id>: <suffix>` parses to a game with that id and the draws of the suffix |
| Day02.ParseDraws | src/day02.rs:39-47 | the loop builds one draw per chunk, in order |
| Day02.Prepare | src/day02.rs:33-51 | every line parses to its game, in order; a line not of the form `Game <id>: <suffix>` gives `None` |
| Day02.ParseEachExact | src/day02.rs:36-49 | when every line parses, the result is the list of their games, in order |
| Day02.Possible | src/day02.rs:56-57 | the test of `part_1` on the maxima; `PossibleIff` proves it is the test that every draw fits in the bag |
| Day02.PossibleIff | src/day02.rs:56-57 | a game qualifies exactly when every draw fits within 12 red, 13 green and 14 blue |
| Day02.QualifiedSound | src/day02.rs:55-60 | every qualified id belongs to a game that qualifies |
| Day02.QualifiedComplete | src/day02.rs:55-60 | every game that qualifies has its id collected |
| Day02.QualifiedMembers | src/day02.rs:55-60 | an id is collected exactly when some game with that id qualifies |
| Day02.Part1 | src/day02.rs:53-62 | the sum of the ids of the games that qualify |
| Day02.Part2 | src/day02.rs:64-70 | the sum of the powers of all games |
| Day06.Run | src/day06.rs:12-17 | the boat goes a positive distance exactly when the button is held for some time but released before the race ends |
| Day06.RunSymmetric | src/day06.rs:12-17 | holding for `p` and for `time - p` go equally far, and holding for 0 or for the whole race goes nowhere |
| Day06.RunBound | src/day06.rs:12-17 | no press goes further than a quarter of the square of the race time |
| Day06.FindWins | src/day06.rs:19-24 | one distance per winning press in `0..=time`, each beating the record |
| Day06.WinsCount | src/day06.rs:19-24 | the distances kept for presses below `n` are as many as the winning presses below `n`, and each beats the record |
| Day06.FindWinsExact | src/day06.rs:19-24 | `find_wins` keeps one distance per winning press in `0..=time`, each beating the record, and a press wins exactly when its mirror `time - p` does |
| Day06.Part1 | src/day06.rs:43-46 | always `Some`; the product is 0 exactly when some race has no winning press |
| Day06.Part2 | src/day06.rs:48-50 | always `Some` of the number of presses in `0..=time` that beat the record |
| Day06.ProductAppend | src/day06.rs:45 | the product over two lists of races is the product of their products |
| Day06.Part1Append | src/day06.rs:43-46 | the answer for two lists of races side by side is the product of their answers |
| Day06.Part1Single | src/day06.rs:43-50 | for one race, part 1 and part 2 agree |
| Day06.ProductZero | src/day06.rs:43-46 | the product of the races' win counts is 0 exactly when some race cannot be won |
| Day06.Prepare1 | src/day06.rs:28-34 | defined exactly when there are two lines with a `:` each and at least as many records as times; race `i` pairs the `i`-th time with the `i`-th record |
| Day06.NumbersShown | src/day06.rs:30-31 | a label without `:` followed by `: ` and space-separated numbers reads back as those numbers |
| Day06.Prepare1Lines | src/day06.rs:28-34 | two lines holding the times and the records give the races pairing them |
| Day06.Prepare1Shown | src/day06.rs:28-34 | the printed times and records lines read back as the races pairing them |
| Day06.DecimalAppend | src/day06.rs:38-39 | the value of two digit strings written side by side is the first value shifted by the second's length plus the second value |
| Day06.ConcatKerned | src/day06.rs:38-39 | joining the digit groups and parsing gives the number they write side by side |
| Day06.Kerning | src/day06.rs:38-39 | `None` for a line without `:`, where `split_once(":").unwrap()` panics |
| Day06.Prepare2 | src/day06.rs:36-41 | defined exactly when both of the first two lines read as one kerned number; the race takes the first as its time and the second as its record |
| Day06.KerningDigits | src/day06.rs:36-41 | the line's number is read by ignoring the spaces between its digit groups |
| Day01.Digits | src/day01.rs:13 | at most one digit per character, each between 0 and 9 |
| Day01.DigitsEmpty | src/day01.rs:13-15 | no digit is kept exactly when the line has no decimal digit character |
| Day01.DigitsFirst | src/day01.rs:13-14 | the first kept digit is the value of the line's first digit character |
| Day01.DigitsLast | src/day01.rs:13-15 | the last kept digit is the value of the line's last digit character |
| Day01.Calibration | src/day01.rs:13-16 | a line's value is missing exactly when it has no digit (where the source panics), and is at most 99 otherwise |
| Day01.Total | src/day01.rs:11-18 | the total exists exactly when every line has a value |
| Day01.TotalSum | src/day01.rs:11-18 | when every line has a value, the total is their sum |
| Day01.TotalNone | src/day01.rs:14-15 | one line without a value makes the whole result missing |
| Day01.TotalStep | src/day01.rs:16 | adding a line adds its value to the running total |
| Day01.CalibrationsAt | src/day01.rs:12-16 | the `i`-th value is the calibration of the `i`-th line |
| Day01.LineValue | src/day01.rs:13-16 | computes the `i`-th line's value: ten times the first digit plus the last |
| Day01.Part1 | src/day01.rs:10-19 | the sum of the line values, or `None` when some line has no digit |
| Day01.Initials | src/day01.rs:22-32 | two codes of the digit map with the same first character and, when both are longer than one character, the same second character, are the same code |
| Day01.CodeValues | src/day01.rs:22-32 | every code of the digit map is unbordered and stands for a digit from 1 to 9 |
| Day01.DigitBook | src/day01.rs:22-32 | the digit map is a code book: unbordered codes for 1 to 9, none a prefix of another |
| Day01.CodesDetermined | src/day01.rs:36-39 | in a code book at most one code occurs at any position of a line |
| Day01.NestedMatches | src/day01.rs:37 | two patterns occurring at the same position are prefixes one of the other |
| Day01.Marks | src/day01.rs:35-40 | one mark per byte of the line |
| Day01.NoOccurrenceWithin | src/day01.rs:37 | an unbordered code cannot occur again inside its own occurrence, so non-overlapping matches are all matches |
| Day01.MarkCode | src/day01.rs:37-39 | every position where the code occurs gets its digit and every other position keeps its mark |
| Day01.LineMarks | src/day01.rs:35-40 | the marks array holds, for each position, the digit of the last code in iteration order that occurs there, or 0 |
| Day01.MarkSound | src/day01.rs:35-40 | a non-zero mark is the digit of a code occurring at that position |
| Day01.MarkComplete | src/day01.rs:35-40 | with a code book, a position where a code occurs is marked with that code's digit |
| Day01.MarksExact | src/day01.rs:35-40 | a position is marked with a code's digit when that code occurs there, and is 0 exactly when no code occurs there |
| Day01.MarksOrderFree | src/day01.rs:36 | the marks do not depend on the hash map's iteration order |
| Day01.FirstNonZero | src/day01.rs:41 | the first non-zero mark, missing exactly when every mark is 0 |
| Day01.LastNonZero | src/day01.rs:42 | the last non-zero mark, missing exactly when every mark is 0 |
| Day01.Calibration2 | src/day01.rs:41-43 | a line has a value exactly when some position of it is marked, and the value is then at least 11; `None` stands for the source's panic |
| Day01.Calibration2Exists | src/day01.rs:41-43 | a line has a value exactly when some code occurs in it |
| Day01.Calibration2Range | src/day01.rs:41-43 | a line's value lies between 11 and 99 |
| Day01.Calibration2OrderFree | src/day01.rs:34-43 | a line's value does not depend on the hash map's iteration order |
| Day01.Calibrations2 | src/day01.rs:34-44 | one value per line |
| Day01.Calibrations2At | src/day01.rs:34-44 | the `i`-th value is the value of the `i`-th line |
| Day01.DigitEntries | src/day01.rs:22-32 | the entries of the digit map are all unbordered |
| Day01.LineValue2 | src/day01.rs:35-43 | computes the `i`-th line's value from its marks |
| Day01.Part2 | src/day01.rs:21-46 | the sum of the line values, or `None` when some line holds no code |
| Day10.Links | src/day10.rs:18-30 | each pipe character links two distinct orthogonal neighbours and every other character links none |
| Day10.GridUpToAt | src/day10.rs:14-30 | after the scan reaches a position, exactly the tiles scanned so far are in the map, each with its character's links |
| Day10.StartUpToLast | src/day10.rs:31-33 | after the scan reaches a position, the start is the last `S` scanned so far, or unset when there is none |
| Day10.LinkedBack | src/day10.rs:45-49 | keeps exactly the candidates that are in the map and list the start among their links |
| Day10.StartLinksBack | src/day10.rs:38-52 | the start links exactly to its neighbours whose pipes link back to it |
| Day10.Prepare | src/day10.rs:8-55 | returns the last `S` as the start and the map of every tile's links, the start's entry replaced by the neighbours linking back to it |
| Day10.Segments | src/day10.rs:8-55 | the map holds every scanned tile and the start; other tiles keep their character's links, and the start links exactly to its orthogonal neighbours that are in the map and link back to it |
| Day10.SegmentsAdjacent | src/day10.rs:8-55 | every link in the prepared map goes to an orthogonal neighbour |
| Day10.Options | src/day10.rs:63-67 | the options are exactly the links not yet on the route |
| Day10.RemainingShrinks | src/day10.rs:60-70 | each step adds a fresh tile of the map to the route, so the loop terminates |
| Day10.WalkExtends | src/day10.rs:60-70 | the walk only appends to the route it was given |
| Day10.WalkStops | src/day10.rs:62-68 | the walk stops at a tile of the map all of whose links are already on the route |
| Day10.WalkLinked | src/day10.rs:60-70 | each tile of the route is linked from the tile before it |
| Day10.WalkDistinct | src/day10.rs:60-70 | the walk never adds a tile already on the route |
| Day10.Route | src/day10.rs:57-72 | `None` where an `unwrap` panics; otherwise the route starts at the start, moves to the start's first link, follows links, repeats no tile after the start, and ends at a tile whose links are all on it |
| Day10.FindRoute | src/day10.rs:57-72 | the loop computes the route, or `None` where an `unwrap` of the source would panic |
| Day10.RouteAdjacent | src/day10.rs:57-72 | with links to neighbours only, consecutive tiles of the route are orthogonal neighbours |
| Day10.Windows | src/day10.rs:86-90 | one side per consecutive pair of corners |
| Day10.TurnsOnRoute | src/day10.rs:75-84 | the corners start at the first tile and are all tiles of the route |
| Day10.CornersEnds | src/day10.rs:75-86 | the corners start at the route's first tile, end at its last, and are all tiles of the route |
| Day10.TurnsAligned | src/day10.rs:77-84 | consecutive corners share a column or a row, and the last corner is in line with the current tile along the held direction |
| Day10.Polygon | src/day10.rs:74-91 | at least one side; the sides run between tiles of the route, each starting where the previous one ends, from the route's first tile to its last |
| Day10.PolygonAxisAligned | src/day10.rs:74-91 | every side of the polygon is horizontal or vertical |
| Day10.ToPolygon | src/day10.rs:74-91 | the loop computes the polygon of the route's corners |
| Day10.PreparedRoute | src/day10.rs:8-91 | a route found in a prepared map has at least two tiles, repeats none, and gives an axis-aligned polygon |
| Day10.RayCrosses | src/day10.rs:93-105 | a leftward ray from `p` crosses only a vertical side lying strictly left of `p`, and only when `p`'s `y` is greater than the side's smaller `y` and at most its larger `y` (`y` grows downwards); `CrossesReversed` and `CrossesSplit` state what that choice guarantees |
| Day10.CrossesReversed | src/day10.rs:93-105 | whether a ray crosses a side does not depend on the side's direction |
| Day10.CrossesSplit | src/day10.rs:93-105 | splitting a vertical side at an inner tile keeps the crossing in exactly one half, neither losing nor doubling it |
| Day10.Crossings | src/day10.rs:120-123 | at most one crossing per side |
| Day10.Part1 | src/day10.rs:108-111 | half the length of the route, or `None` when no route is found |
| Day10.InsideOfStep | src/day10.rs:118-128 | a new key adds itself to the count exactly when it is off the route with an odd number of crossings |
| Day10.CountInside | src/day10.rs:117-128 | counts the listed tiles off the route that cross the polygon an odd number of times |
| Day10.Enclosed | src/day10.rs:117-128 | the counted tiles are tiles of the map that are off the route |
| Day10.Part2 | src/day10.rs:113-130 | the number of tiles of the map that are off the route and cross the polygon an odd number of times, or `None` when no route is found |

## Left out

- `src/main.rs`, the benchmark harnesses and `read_input_lines` are not modelled. They are console orchestration, timing and file I/O. Every `prepare` is modelled from the lines it is given.
- Display code is not modelled: `print_map` in days 10 and 14, `char_to_pipe`, and the `colored` calls.
- Machine-width arithmetic is not modelled. `usize`, `isize`, `u32` and `u8` overflow, wrap-around and casts become unbounded `nat` and `int`. Day 15's `% 256` is kept, because it is written in the source.
- Hashing and hash-map iteration order are not modelled. Where a result depends on the order of a `HashMap` walk, the order is a parameter (`keys`, `entries`, `order`, `starts`). Day 1's `entries`, Day 3's `keys`, Day 10's `keys` and Day 11's `order` are proved not to change the answer.
- `IndexMap` (day 15) becomes a map from box number to a sequence of `(label, focal)` pairs. The `Counter` of day 7 becomes a list of multiplicities, whose order among equal counts does not affect the key.
- `sscanf` is modelled only for the patterns used: `Game <id>: <rest>` and `<n> <colour>`. Number parsing accepts ASCII decimal digits, after an optional leading `+`, as Rust's `parse` does.
- Text is ASCII. Rust's byte indices (`match_indices`, `line.len()`) and character indices coincide. Whitespace for `trim` and `split_whitespace` is the ASCII set.
- Tests that read example or puzzle files are not modelled, because those inputs are not part of this model. The literal-input tests are modelled: the span tests, the day 5 and day 5b conversions, day 7's `test_wild`, and day 15's `test_hash`.
- Day15.Part2: the boxes are a map value that each step replaces, not an object updated in place. Aliasing is not captured.
- Day12.Part1 and Day12.Part2 require every pattern character to be `.`, `#` or `?`. Any other character reaches `unreachable!()` in the source.
- Day04.Part2 requires `i + matches(i)` to be below the number of cards for every card. Otherwise the source indexes past the end of `won_cards`.
- Day05.Part1 and Day05b.Part1 require at least one seed, because `min().unwrap()` panics on none.
- Day05.Part2 and Day05.Part1 require all seven stage names to be present (`HasStages`), because the source indexes `converters` by each name and panics on a missing one.
- Day05.Part2 and Day05b.Part2 require an even number of seed values and at least one non-empty range. Otherwise `seed_span[1]` or `min().unwrap()` panics.
- Day08.StepsFrom and Day08.Part1 require that the walk stops, and Day08.Part2 requires the same of every start. The source loops forever otherwise, and there is no `decreases` for that loop.
- Day08.StepsFrom, Day08.Part1 and Day08.Part2 also require non-empty instructions, made only of `L` and `R`. This is stronger than the source needs: it panics only when a step actually reads an instruction, through `step % repeat` dividing by zero or `unreachable!()` on another character. A walk that never reads one is excluded as well, for example empty instructions with the start absent from the map, for which the source returns 0.
- Day08.Part2 requires at least one start node, because the source indexes `paths[0]`. It also requires the map to store each node under its own id, as `prepare` builds it.
- Day08.Gcd requires both arguments zero or both positive. With exactly one zero, the source computes `m % 0`.
- Day09.Part1 and Day09.Part2 require every history to have a non-zero entry. Otherwise `reduce` returns `None` and the `unwrap` panics.
- Day10.ToPolygon requires a route of at least two tiles, because the source indexes `route[1]`. Every route that `find_route` returns has two.
- Day11.Prepare requires every `#` to lie within the width of the first line. This is weaker than "all lines equally wide" and is exactly what the indexing of `x_empty` needs.
- Day11.Part1 and Day11.Part2 state the affine closed form only for monotone offsets. `Day11.OffsetsMonotone` proves that every map `Prepare` returns has them.
- Day14.Prepare and Day14.RotateMap equal `Transpose` and `Rotate` only for square grids; on other shapes their ensures give the grid cell by cell. Their requires are the source's own index bounds: no line (column) longer than the count of lines (columns), and every non-empty one at an index below the first one's length. Blank lines past that length are accepted.
- Day14.Part2 requires a square grid or a grid of empty columns. These are the only shapes from `prepare` that `rotate_map` accepts without an index panic: columns all as long as the first line, which must be as long as the line count or empty. It returns `None` where the source would compute `% 0`, that is when no repeat is found. It is proved `Some` whenever some state repeats within the first half of the cycle budget (`RepeatsWithin`), which `BlankPart2` shows for a grid of empty columns. The 10^9-step loop is modelled by the replay arithmetic, not by running it.
- Day07.WinningsOrderFree requires distinct sort keys, because with equal keys the stable sort keeps the input order and the total can depend on it; for a fixed input the total is still unique (Day07.StableSortUnique).
- Span.Len requires a valid span (`start <= end`). The subtraction underflows otherwise.
- Span.DivisionCovers requires a non-empty `other`. `Span.EmptyDivisor` shows that an empty `other` strictly inside `self` gives pieces that are not contiguous, because the empty intersection is sorted after the piece that starts at the same value. A span built with `Span::new` from two equal values is such an empty span.
