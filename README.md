# F1 sweepstake assignment, modelled in Dafny

A small web page assigns Formula 1 drivers to a fixed group of ten
players. It loads the current driver standings and the next race's round
number, drops excluded drivers, ranks the rest by points, splits the
ranking into the top ten and the remainder, shuffles each tier with a
seeded linear congruential generator (seed `round` for the top tier,
`round + 1` for the bottom tier), and pairs the alphabetically sorted
players with one driver from each tier by position. When either tier has
fewer drivers than there are players, the page shows "Not enough drivers
to assign to players." instead of a table. A button exports the two
shuffled tiers as a tab-separated table of family names.

This project models that logic and proves its properties:

- `seeded_random.dfy` (module `SeededRandom`): the generator, modulus
  2^31, multiplier 1103515245, increment 12345, as a class whose
  `currentSeed` field each `Next` call updates; states stay below 2^31,
  each result is the state over 2^31 and lies in [0, 1), and two
  generators with one seed return the same numbers.
- `sorting.dfy` (module `Sorting`): the language's stable sort with a
  consistent comparator, as a stable insertion sort over a "comes no later
  than" relation; permutation, sortedness and stability are proved.
- `shuffle.dfy` (module `Shuffle`): the comparator shuffle, in place on an
  array; the array ends up a permutation of itself.
- `standings.dfy` (module `Standings`): the driver record, the exclusion
  filter and the points sort.
- `sweepstake.dfy` (module `Sweepstake`): the roster, the tier partition,
  the player-count check and the positional pairing, and the whole page
  from standings to outcome.
- `table_export.dfy` (module `TableExport`): the export text, built row by
  row in a loop and joined with newlines, with its read-back (split on
  newlines, then on tabs).

The locale-aware string comparison that orders the players is a
parameter, `localeLe`, required to be a total preorder. Points are taken
as already-parsed integers.

The code ranks the drivers with the language's array sort, which is
stable, so drivers tied on points keep their standings order
(`Standings.RankByPointsStable`).

## Model

| member | source | states |
|---|---|---|
| `SeededRandom.Step` | src/components/SweepstakeDriversTable/SweepstakeDriversTable.tsx:50 | one generator step always yields a state in [0, 2^31) |
| `SeededRandom.StateAfter` | src/components/SweepstakeDriversTable/SweepstakeDriversTable.tsx:47-50 | for a positive seed the state after any number of calls is in [0, 2^31), and each call's state is one step from the previous |
| `SeededRandom.Value` | src/components/SweepstakeDriversTable/SweepstakeDriversTable.tsx:51 | the returned number is the state divided by 2^31 and lies in [0, 1) |
| `SeededRandom.Stream` | src/components/SweepstakeDriversTable/SweepstakeDriversTable.tsx:42-53 | the first n numbers of a generator with a given seed: n of them, each in [0, 1) |
| `SeededRandom.Generator.constructor` | src/components/SweepstakeDriversTable/SweepstakeDriversTable.tsx:42-47 | a new generator's state is the seed modulo 2^31 and no call has been made |
| `SeededRandom.Generator.Next` | src/components/SweepstakeDriversTable/SweepstakeDriversTable.tsx:49-52 | the state advances one LCG step and the result is the new state over 2^31, in [0, 1) |
| `SeededRandom.SameSeedSameOutputs` | src/components/SweepstakeDriversTable/SweepstakeDriversTable.tsx:42-53 | two generators created with the same seed, called in turn, return identical sequences, equal to the seed's stream |
| `Sorting.Insert` | src/components/SweepstakeDriversTable/SweepstakeDriversTable.tsx:99-101 | inserting an element adds exactly that element to the multiset of the list |
| `Sorting.SortBy` | src/components/SweepstakeDriversTable/SweepstakeDriversTable.tsx:99-101 | the sorted list is a permutation of its input |
| `Sorting.SortBySorted` | src/components/SweepstakeDriversTable/SweepstakeDriversTable.tsx:99-101 | with a consistent comparator, every earlier element comes no later than every later one |
| `Sorting.SortByStable` | src/components/SweepstakeDriversTable/SweepstakeDriversTable.tsx:99-101 | elements that tie under the comparator keep their input order |
| `Shuffle.RandomiseArray` | src/components/SweepstakeDriversTable/SweepstakeDriversTable.tsx:32-40 | the array returned is the array given, and afterwards its contents are a permutation of what they were |
| `Standings.ExcludeDropped` | src/components/SweepstakeDriversTable/SweepstakeDriversTable.tsx:91-95 | the filter never lengthens the list and no driver whose family name is dropped survives |
| `Standings.ExcludeDroppedKeeps` | src/components/SweepstakeDriversTable/SweepstakeDriversTable.tsx:91-95 | each driver whose family name is not dropped survives as often as it occurred, no dropped name survives, and nothing else appears |
| `Standings.ExcludeDroppedAppend` | src/components/SweepstakeDriversTable/SweepstakeDriversTable.tsx:91-95 | filtering a concatenation is the concatenation of the filtered parts, so relative order is kept |
| `Standings.MorePoints` | src/components/SweepstakeDriversTable/SweepstakeDriversTable.tsx:100 | the sort leaves `a` before `b` exactly when `a` has at least as many points, i.e. when the comparator `parseInt(b.points) - parseInt(a.points)` applied to (b, a) is not negative |
| `Standings.MorePointsIsTotalPreorder` | src/components/SweepstakeDriversTable/SweepstakeDriversTable.tsx:100 | the points comparator is a consistent comparator |
| `Standings.RankByPoints` | src/components/SweepstakeDriversTable/SweepstakeDriversTable.tsx:98-102 | the ranking is a permutation of its input with points non-increasing along the list |
| `Standings.RankByPointsStable` | src/components/SweepstakeDriversTable/SweepstakeDriversTable.tsx:98-102 | drivers on equal points appear in the ranking in their standings order |
| `Standings.RankedStandings` | src/components/SweepstakeDriversTable/SweepstakeDriversTable.tsx:91-102 | the stored ranking holds exactly the undropped drivers, sorted by points descending |
| `Sweepstake.Players` | src/components/SweepstakeDriversTable/SweepstakeDriversTable.tsx:19-30 | the players are the ten roster names, sorted by the locale comparison |
| `Sweepstake.PartitionTiers` | src/components/SweepstakeDriversTable/SweepstakeDriversTable.tsx:116-124 | the top tier holds the first min(10, n) drivers, the bottom tier the other n - min(10, n), and top followed by bottom is the ranking |
| `Sweepstake.BuildTable` | src/components/SweepstakeDriversTable/SweepstakeDriversTable.tsx:134-177 | "not enough drivers" exactly when the player count exceeds either tier's length; otherwise one row per player, row i pairing player i with shuffled-top[i] and shuffled-bottom[i], each shuffled tier a permutation of its tier |
| `Sweepstake.SweepstakePage` | src/components/SweepstakeDriversTable/SweepstakeDriversTable.tsx:91-177 | from raw standings: a table exactly when at least twenty drivers survive the filter; then the shown top tier is a permutation of the first ten ranked drivers and the bottom tier a permutation of the rest, and row i pairs the i-th sorted player with the i-th driver of each tier |
| `TableExport.CopyArraysAsTable` | src/utils.ts:5-14 | the loop's text is the rows, each cell of column 1, a tab and the cell of column 2 (empty past a column's end), joined by newlines |
| `TableExport.Cell` | src/utils.ts:9-10 | a column's cell at i is its entry there, or "" past the column's end |
| `TableExport.ColumnPadding` | src/utils.ts:5-10 | read cell by cell up to the longer length, a column is itself padded with "" |
| `TableExport.FormatRow` | src/utils.ts:11 | a row is the two cells around one tab: split on the tab it gives them back when they hold no tab, and it holds no newline when they hold none |
| `TableExport.Join` | src/utils.ts:14 | joining separator-free parts gives exactly one separator fewer than there are parts (none for no parts); where they sit is what `SplitJoin` recovers |
| `TableExport.SplitJoin` | src/utils.ts:14 | splitting a join of one or more parts recovers the parts when no part contains the separator |
| `TableExport.TableRoundTrip` | src/utils.ts:5-14 | with tab- and newline-free cells: the text has max(len1, len2) lines and max - 1 newlines (none trailing), each line splits into its two cells; two empty columns give "" |
| `TableExport.EmptyTable` | src/utils.ts:5-14 | the text is empty exactly when both columns are empty |
| `TableExport.ExportExample` | src/utils.ts:5-14 | columns ["A"] and ["B", "C"] give "A\tB\n\tC" |

## Left out

- Network loading of the standings and the next race (`fetch`, `Promise.all`, response checks, JSON path extraction): I/O; the model starts from the standings list and the round number.
- React state, the fetch-once guard, the loading and error displays and the rendered markup, including the race name heading, the `"N/A"` cell fallback and the copy button's mapping of tiers to family names: user-interface lifecycle.
- The clipboard write and its `textarea` fallback: browser APIs.
- The unseeded branch of the shuffle (`Math.random`), taken when the seed is 0 or not a number: non-deterministic floating point; `RandomiseArray`, `Generator` and `BuildTable` require a positive seed or round instead. This also excludes negative seeds, which the script treats as seeded (they are truthy) and, since its `%` truncates toward zero, starts from a negative state; the round numbers the page passes are positive.
- SeededRandom.Generator.Next: the generator is modelled with exact integers; the script computes `a * currentSeed` in double precision, which rounds once the product exceeds 2^53, so concrete outputs may differ from the page's. Range and determinism hold either way.
- Shuffle.RandomiseArray: which permutation the shuffle yields depends on the script engine's sort algorithm; the model uses a binary insertion sort driven by the comparator and promises only a permutation. That the same seed gives the same permutation is not stated.
- Parsing of points and of the round number (`parseInt`): points are integers in the model.
- The locale-aware comparison of player names: an abstract total preorder `localeLe`.
- TableExport.CopyArraysAsTable: columns are sequences of strings, so `undefined` holes inside a column and non-string cells are not modelled; only the past-the-end padding is.
