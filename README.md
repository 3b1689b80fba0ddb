# Keyword grouper: a verified model of the clustering engine

The keyword grouper is a single-page web tool for search-engine work. The
user pastes lines of the form `keyword<TAB>search volume`. The page groups
keywords whose normalized texts are close in edit distance. It then shows
one line per group and three counters, and can export the result as CSV.
All of this logic lives in `keyword-grouper/pages/index.js`. This project
models that engine in Dafny and proves what it promises.

The model has these parts:

- **Text** (`text.dfy`) holds JavaScript's white-space class, `trim()`, the
  `/\s+/g` collapse, a global literal `replace`, `split`/`join` by a literal
  separator, and `toLowerCase`.
- **Edit distance** (`edit_distance.dfy`):
  - The Levenshtein distance, defined by the textbook recurrence.
  - `getEditDistance`, modelled as a method that overwrites one `costs`
    array in place, pass after pass.
  - The method is proved to return the Levenshtein distance of the
    lower-cased strings, measured in UTF-16 code units. These are what
    JavaScript's `length` counts and `charAt` returns, so a character outside
    the Basic Multilingual Plane counts as two.
- **Similarity** (`similarity.dfy`) has the score as a function in exact
  rationals, and `similarity` as a method proved equal to it. Lengths are in
  UTF-16 code units too.
- **Normalisation** (`normalize.dfy`) models `normalizeText` as the same
  chain of rewrites, in the same order.
- **Parsing** (`parse.dfy`) covers `parseInt` without a radix argument and
  the `parseKeywords` loop.
- **Sorting** (`stable_sort.dfy`) defines a stable descending insertion sort.
  It specifies `Array.prototype.sort` with the page's comparators.
- **Grouping**:
  - `grouping.dfy` holds the greedy anchor-only grouping. It is defined over
    positions and proved against by the `groupKeywords` loops.
  - `grouping_facts.dfy` proves the partition and anchor facts over
    positions.
  - `grouped_facts.dfy` proves the same facts over entries, plus the order of
    the groups and of their members.
- **Result and export** (`process.dfy`) covers:
  - the result text and the statistics of `processKeywords`
  - the row building of `exportToCsv`
  - the facts that tie each of these to the groups

## Behaviour worth knowing

- **`d'une` rewrite:** the code removes every `d'un` before it looks for
  `d'une`. So ` d'une ` leaves an `e` behind (`Normalize.LeavesE`). The later
  `d'une` rewrite is not dead, though. Removing `d'un` can join its
  neighbours into a new `d'une`, and the `d'une` rewrite then removes it:
  `d'd'unune` normalizes to the empty string
  (`NormalizeExamples.ExampleSecondRemoval`). The model follows the code.
- **Both rewrites in one keyword:** "tarif d'une coiffeur a bayonne"
  normalizes to "tarif e coiffeur bayonne": the `e` stays and the lone `a`
  goes (`NormalizeExamples.ExampleContractionAndLoneA`).
- **Code units:** an emoji such as U+1F600 has length 2. Two emoji that share
  their high surrogate are at distance 1, score 0.5 and fall into one group at
  a threshold of 50% (`SimilarityExamples.SurrogatePairs`).
- **Hex values:** `parseInt` with no radix reads a `0x`/`0X` prefix as
  hexadecimal after an optional sign, and the model does the same. A value
  field of `0x1A` is read as 26, and `0x` alone is `NaN`.
- **CSV width:** the CSV header names eight columns. Rows of groups with more
  than four members are longer than the header and are never cut
  (`Process.ExportOfProcessed`, `Process.Pad`).

## Model

| member | source | states |
|---|---|---|
| Text.Trim | keyword-grouper/pages/index.js:46 | the result has no white space at either end and is no longer than the input |
| Text.TrimSlice | keyword-grouper/pages/index.js:46 | `trim()` returns a slice of the input, the one that starts right after the leading run of white space |
| Text.TrimCutsFront | keyword-grouper/pages/index.js:46 | what `trim()` cuts from the front is all white space |
| Text.TrimCutsBack | keyword-grouper/pages/index.js:46 | what `trim()` cuts from the back is all white space |
| Text.TrimEmptyIff | keyword-grouper/pages/index.js:53 | a line trims to nothing exactly when every character is white space (the blank-line test) |
| Text.TrimNoEdge | keyword-grouper/pages/index.js:59 | `trim()` leaves a string without edge spaces unchanged |
| Text.CollapseSpaces | keyword-grouper/pages/index.js:46 | the collapse never lengthens the text, gives the empty string only for the empty string, and starts with white space exactly when the input does |
| Text.CollapseClean | keyword-grouper/pages/index.js:46 | after `replace(/\s+/g, ' ')` no two white-space characters are adjacent and the only one left is the plain space |
| Text.CollapseKeepsVisible | keyword-grouper/pages/index.js:46 | the collapse keeps every non-space character, in order |
| Text.SquishClean | keyword-grouper/pages/index.js:46 | collapse-then-trim yields a clean string |
| Text.SquishFixed | keyword-grouper/pages/index.js:49 | collapse-then-trim leaves an already clean string unchanged |
| Text.ReplaceAll | keyword-grouper/pages/index.js:47-48 | a global replace by a shorter text (the removals) never lengthens the string, and one by a longer text never shortens it |
| Text.ReplaceAllAbsent | keyword-grouper/pages/index.js:47-48 | a global replace with no match leaves the string unchanged |
| Text.ReplaceAllHit | keyword-grouper/pages/index.js:47-48 | a match at the front is replaced and the scan resumes after it |
| Text.ReplaceAllPrefix | keyword-grouper/pages/index.js:47-48 | a prefix where no match starts is copied unchanged |
| Text.Join | keyword-grouper/pages/index.js:111-114 | joining no parts gives the empty string and joining one part gives that part |
| Text.JoinStartsWith | keyword-grouper/pages/index.js:114 | a join starts with its first part |
| Text.Split | keyword-grouper/pages/index.js:53 | `split` yields at least one piece, and joining the pieces with the separator gives back the string |
| Text.SplitPieces | keyword-grouper/pages/index.js:53 | no piece of a split contains the separator |
| Text.SplitJoin | keyword-grouper/pages/index.js:110-114 | splitting a join of pieces that cannot hold the separator gives back the pieces |
| Text.SplitFront | keyword-grouper/pages/index.js:57 | a piece followed by the separator is split off as the first field |
| Text.SplitNone | keyword-grouper/pages/index.js:57 | a string without the separator splits into itself alone |
| Text.OccursChar | keyword-grouper/pages/index.js:57 | a one-character separator occurs exactly where its character does |
| Text.Lower | keyword-grouper/pages/index.js:22-23 | `toLowerCase` maps each character by itself and keeps the length |
| Text.LowerLength | keyword-grouper/pages/index.js:14-23 | lower-casing keeps the `length` in UTF-16 code units, so the longer string stays the longer one |
| Text.CodeUnits | keyword-grouper/pages/index.js:33 | a character is one code unit in the Basic Multilingual Plane and otherwise two, the first a high surrogate |
| Text.Utf16Injective | keyword-grouper/pages/index.js:33 | two strings with the same code units are the same string, so comparing code units compares the strings |
| EditDistance.GetEditDistance | keyword-grouper/pages/index.js:21-43 | the rolling-row loop returns the Levenshtein distance of the UTF-16 code units of the two lower-cased strings |
| EditDistance.FillRow | keyword-grouper/pages/index.js:26-40 | one pass of the outer loop turns row `i - 1` of the table into row `i` in place |
| EditDistance.RowStep | keyword-grouper/pages/index.js:31-36 | each row of the Levenshtein table follows from the previous one by the cell rule of the inner loop |
| EditDistance.DistMatch | keyword-grouper/pages/index.js:32-33 | when the last characters agree, the distance equals the diagonal cell (the shortcut the code takes) |
| EditDistance.LevenshteinSymmetric | keyword-grouper/pages/index.js:14-16 | the distance does not depend on the order of the arguments |
| EditDistance.LevenshteinBound | keyword-grouper/pages/index.js:18 | the distance never exceeds the longer length |
| EditDistance.LevenshteinZeroIff | keyword-grouper/pages/index.js:21-43 | the distance is zero exactly when the strings are equal |
| Similarity.Similarity | keyword-grouper/pages/index.js:13-19 | `similarity` equals the score: 1 when both are empty, else the share of the longer length in code units left by the distance |
| Similarity.ScoreByLonger | keyword-grouper/pages/index.js:14-18 | measuring from the longer string, `b` on a tie, against the shorter one gives the symmetric score |
| Similarity.DistanceBound | keyword-grouper/pages/index.js:18 | the distance of the lower-cased code units never exceeds the longer `length` |
| Similarity.ScoreBounds | keyword-grouper/pages/index.js:13-19 | the score lies in [0, 1] |
| Similarity.ScoreSymmetric | keyword-grouper/pages/index.js:13-16 | the score is symmetric, although the code picks `b` as the longer string on a tie |
| Similarity.ScoreOneIff | keyword-grouper/pages/index.js:13-19 | the score is 1 exactly when the lower-cased strings are equal |
| Similarity.ScoreSelf | keyword-grouper/pages/index.js:17 | every string scores 1 against itself |
| Similarity.MeetsThresholdExact | keyword-grouper/pages/index.js:73-88 | `score >= threshold / 100` is the same as `(L - d) * 100 >= threshold * L`, or `threshold <= 100` for two empty strings |
| Similarity.FullThresholdIff | keyword-grouper/pages/index.js:88 | at 100% only strings equal up to case pass |
| Similarity.SelfMeetsThreshold | keyword-grouper/pages/index.js:88 | at any threshold up to 100% a keyword passes against itself |
| SimilarityExamples.SurrogatePairs | keyword-grouper/pages/index.js:13-19 | U+1F600 has length 2; U+1F600 and U+1F601 score 0.5 and pass a threshold of 50% |
| Normalize.NormalizeText | keyword-grouper/pages/index.js:45-50 | normalization never lengthens the text |
| Normalize.NormalizeClean | keyword-grouper/pages/index.js:45-50 | the output has no edge white space, no two adjacent white-space characters, and only plain spaces |
| Normalize.DropsContraction | keyword-grouper/pages/index.js:47 | ` d'un ` between two plain parts disappears, leaving one space |
| Normalize.LeavesE | keyword-grouper/pages/index.js:47 | ` d'une ` between two plain parts leaves ` e ` because `d'un` is removed first |
| Normalize.DropsLoneA | keyword-grouper/pages/index.js:48 | a lone ` a ` between two plain parts becomes one space |
| Normalize.LeavesEDropsLoneA | keyword-grouper/pages/index.js:47-48 | ` d'une ` and a later lone ` a ` between plain parts leave ` e ` and one space |
| Normalize.RemoveFirst | keyword-grouper/pages/index.js:47 | the `d'un` rewrite removes exactly the one occurrence and nothing else |
| Normalize.MissingInMiddle | keyword-grouper/pages/index.js:47-48 | the `d'une`, ` à ` and ` a ` rewrites leave a text without their patterns unchanged |
| Normalize.ReplaceLoneA | keyword-grouper/pages/index.js:48 | the ` a ` rewrite replaces the one lone `a` and nothing else |
| Normalize.ClosesGap | keyword-grouper/pages/index.js:49 | the final collapse-and-trim closes the double space a removed word leaves |
| Normalize.KeepsE | keyword-grouper/pages/index.js:49 | the final collapse-and-trim keeps a clean text with an `e` in the middle |
| NormalizeExamples.ExampleContraction | keyword-grouper/pages/index.js:45-50 | "tarif d'un coiffeur bayonne" normalizes to "tarif coiffeur bayonne" |
| NormalizeExamples.ExampleLongContraction | keyword-grouper/pages/index.js:47 | "tarif d'une coiffeur bayonne" normalizes to "tarif e coiffeur bayonne" |
| NormalizeExamples.ExampleContractionAndLoneA | keyword-grouper/pages/index.js:45-50 | "tarif d'une coiffeur a bayonne" normalizes to "tarif e coiffeur bayonne" |
| NormalizeExamples.ExampleSecondRemoval | keyword-grouper/pages/index.js:47 | "d'd'unune" normalizes to the empty string: the `d'une` rewrite can still fire |
| NormalizeExamples.FirstRemovalJoins | keyword-grouper/pages/index.js:47 | removing `d'un` from "d'd'unune" forms "d'une" |
| Parse.ParseInt | keyword-grouper/pages/index.js:60 | `NaN` for a field that is empty or all white space, or that starts with neither a sign nor a digit; a negative value only after a minus sign |
| Parse.ParseMagnitude | keyword-grouper/pages/index.js:60 | `NaN` when no digit starts the text; a leading decimal digit always gives a number; after `0x` a number exactly when a hex digit follows |
| Parse.ReadsMinus | keyword-grouper/pages/index.js:60 | a minus sign in front of a magnitude gives its negation |
| Parse.DigitsLength | keyword-grouper/pages/index.js:60 | `parseInt` reads the longest prefix of digits in the radix and stops at the first other character |
| Parse.IntToStringRoundTrip | keyword-grouper/pages/index.js:60 | `parseInt` reads back the decimal text that a template literal prints for an integer |
| Parse.ParseIntToString | keyword-grouper/pages/index.js:60 | `parseInt` reads the printed integer back even when a non-digit follows it |
| Parse.IntToString | keyword-grouper/pages/index.js:111 | a printed integer is non-empty and has no white space at its ends, no tab and no line break |
| Parse.ParseLine | keyword-grouper/pages/index.js:57-64 | an accepted line's keyword is trimmed and holds no tab |
| Parse.ParseKeywords | keyword-grouper/pages/index.js:52-68 | the loop returns the parsed non-blank lines, in order, with the lines that do not parse left out |
| Parse.KeepsExactlyValidLines | keyword-grouper/pages/index.js:56-65 | entry `k` comes from the `k`-th accepted line, accepted lines keep their order, and a line is kept if and only if it parses |
| Parse.KeywordsTrimmed | keyword-grouper/pages/index.js:59 | every keyword is trimmed and holds no tab |
| Parse.KeywordsOneLine | keyword-grouper/pages/index.js:53 | no keyword holds a line break |
| Parse.NoTabDropped | keyword-grouper/pages/index.js:58 | a line without a tab is dropped |
| Parse.NotNumberDropped | keyword-grouper/pages/index.js:60-61 | a line whose value field starts with neither a sign nor a digit is dropped (NaN) |
| Seqs.FilterExact | keyword-grouper/pages/index.js:53 | `filter` keeps each element that passes and only those, in order |
| Seqs.FilterMapExact | keyword-grouper/pages/index.js:56-65 | keeping the lines that parse yields their entries in order, one for each such line |
| StableSort.SortDesc | keyword-grouper/pages/index.js:94 | the sort keeps the number of elements |
| StableSort.SortDescSorted | keyword-grouper/pages/index.js:94-98 | the sort leaves the key non-increasing |
| StableSort.SortDescPermutes | keyword-grouper/pages/index.js:94-98 | the sort is a permutation |
| StableSort.SortDescStable | keyword-grouper/pages/index.js:94-98 | elements with equal keys keep their relative order |
| Grouping.ScanFrom | keyword-grouper/pages/index.js:82-92 | the inner scan up to `j` adds only positions below `j` after the anchor |
| Grouping.GreedyFrom | keyword-grouper/pages/index.js:75-96 | the outer loop from `i` yields groups of positions in range |
| Grouping.Members | keyword-grouper/pages/index.js:78-92 | a group holds only positions among the keywords |
| Grouping.IndexGroups | keyword-grouper/pages/index.js:75-96 | every group holds only positions among the keywords |
| Grouping.Grouped | keyword-grouper/pages/index.js:94-99 | sorting the groups keeps their number: one group per anchor |
| Grouping.GroupKeywords | keyword-grouper/pages/index.js:70-100 | `groupKeywords` returns the greedy anchor groups, each sorted, and the groups sorted by first value |
| Grouping.GroupBy | keyword-grouper/pages/index.js:71-99 | the two loops with `usedIndices` compute the greedy groups for any relation that agrees with the similarity test |
| Grouping.CollectGroup | keyword-grouper/pages/index.js:78-92 | the inner loop builds the anchor's group and the new used set of the greedy definition |
| Grouping.Compare | keyword-grouper/pages/index.js:85-88 | one comparison normalizes the other keyword and decides membership by the similarity threshold |
| GroupingFacts.ScanFromExact | keyword-grouper/pages/index.js:82-92 | the scan adds, in increasing order, exactly the unused positions that pass against the anchor |
| GroupingFacts.MembersExact | keyword-grouper/pages/index.js:78-92 | a group starts with its anchor and holds exactly the later unused positions that pass against it |
| GroupingFacts.GreedyShape | keyword-grouper/pages/index.js:75-96 | each group's anchor is the lowest position not used by the earlier groups |
| GroupingFacts.GreedyCovers | keyword-grouper/pages/index.js:75-96 | the groups from `i` use exactly the positions from `i` on that were unused |
| GroupingFacts.GreedyDisjoint | keyword-grouper/pages/index.js:75-96 | no position is in two groups |
| GroupingFacts.IndexPartition | keyword-grouper/pages/index.js:70-100 | the groups are non-empty, disjoint and increasing, cover every position, number at most `n`, and their sizes sum to `n` |
| GroupingFacts.IndexAnchors | keyword-grouper/pages/index.js:75-91 | each anchor is the lowest unused position; every member after it is greater and passes; every unused later position that passes is a member |
| GroupedFacts.GroupedPartition | keyword-grouper/pages/index.js:70-100 | the groups together hold every entry exactly as often as the input does |
| GroupedFacts.GroupedSizes | keyword-grouper/pages/index.js:70-100 | the group sizes sum to the number of keywords, and there are at most that many groups |
| GroupedFacts.GroupsMeetThreshold | keyword-grouper/pages/index.js:75-91 | every non-anchor member follows its anchor in the input and its normalized keyword passes the threshold against the anchor's; every unused later entry that passes is a member |
| GroupedFacts.CreatedGroups | keyword-grouper/pages/index.js:94-95 | each group in creation order is its positions' entries sorted by value, descending and stable |
| GroupedFacts.GroupedMembersSorted | keyword-grouper/pages/index.js:94 | every group is non-empty, its values do not increase, and its first member holds its largest value |
| GroupedFacts.GroupedOrder | keyword-grouper/pages/index.js:98 | groups are ordered by first value, not increasing, as a stable permutation of creation order |
| Process.ProcessKeywords | keyword-grouper/pages/index.js:103-121 | nothing is produced exactly when the input is blank or no line parses; otherwise the result text and the counters of the groups |
| Process.StatsAgree | keyword-grouper/pages/index.js:117-121 | `total` is the summed group size; there are at most `total` groups; `grouped` is `total` less the groups of one, never 1, and zero exactly when there are `total` groups |
| Process.GroupedCount | keyword-grouper/pages/index.js:117 | the grouped count is zero or at least two, never one |
| Process.GroupedPlusSingles | keyword-grouper/pages/index.js:117 | the `reduce` counts every member not in a group of one |
| Process.BlankHasNoKeywords | keyword-grouper/pages/index.js:103-106 | a blank input yields no keyword, so the first early return only short-cuts the second |
| Process.FormatEntryLines | keyword-grouper/pages/index.js:111 | a member's text holds a line break exactly when its keyword does |
| Process.FormatGroupStarts | keyword-grouper/pages/index.js:110-112 | a group's line starts with its first member, the one with the largest value |
| Process.FormatResultStarts | keyword-grouper/pages/index.js:114 | the result is empty without groups and otherwise starts with the first group's line |
| Process.FormatEntryRoundTrip | keyword-grouper/pages/index.js:110-111 | a member's `keyword<TAB>value` splits into the keyword and the printed value, and parses back to the same entry |
| Process.EntrySeparable | keyword-grouper/pages/index.js:111 | no double tab starts inside a member, even next to the separator |
| Process.GroupRoundTrip | keyword-grouper/pages/index.js:110-112 | a group line splits on the double tab into exactly its members |
| Process.GroupNonBlank | keyword-grouper/pages/index.js:110-112 | the line of a non-empty group is not blank |
| Process.ResultRoundTrip | keyword-grouper/pages/index.js:114 | the result splits on line breaks into the group lines, and the blank-line filter keeps them all |
| Process.ItemCellsShape | keyword-grouper/pages/index.js:164-167 | an item without a tab is all keyword: its quoted keyword and an empty value cell |
| Process.CsvLineShape | keyword-grouper/pages/index.js:161-173 | every CSV line opens with the quote of its first keyword and ends with a line break |
| Process.CsvTextShape | keyword-grouper/pages/index.js:155-158 | nothing is exported exactly when the result is empty; otherwise the text starts with the header |
| Process.Pad | keyword-grouper/pages/index.js:170-172 | padding leaves a row of eight or more cells alone, fills a shorter one up to eight with empty cells, and keeps its prefix |
| Process.BuildRow | keyword-grouper/pages/index.js:162-172 | two cells per item, then the padding loop |
| Process.ExportToCsv | keyword-grouper/pages/index.js:155-174 | the header, then one line per non-blank result line; nothing when the result is empty |
| Process.CellsOfGroup | keyword-grouper/pages/index.js:164-167 | a group line's cells are each member's quoted keyword followed by its value |
| Process.ExportOfProcessed | keyword-grouper/pages/index.js:103-174 | exporting a result gives the header and one row per group, in group order, of quoted keywords and values padded to eight cells and never cut |

## Left out

- React state, hooks and rendering are not modelled. This covers the preview
  (`generatePreview` and its modal), the threshold slider and `clearAll`: they
  are UI plumbing. The threshold is a parameter of the operations.
- The clipboard, the button feedback and `setTimeout` are not modelled (browser
  I/O).
- `exportToCsv` is modelled up to the CSV text. The `Blob`, the object URL and
  the download link are browser I/O.
- `similarity` computes in double-precision floating point. The model
  uses exact rationals, and `Similarity.MeetsThresholdExact` gives the integer
  form of the test. Rounding at the boundary is not modelled.
- Values are unbounded integers. Precision loss above 2^53 and exponent
  notation when printing are not modelled.
- White space is the fixed set of ECMAScript WhiteSpace and LineTerminator
  code points, which is what `\s` and `trim()` match. Every white-space
  character and every separator the page uses lies in the Basic Multilingual
  Plane. So trimming, collapsing, replacing and splitting act on characters
  here; only `length` and `charAt` are taken in UTF-16 code units, and a lone
  surrogate is not modelled.
- Text.Lower folds only ASCII and Latin-1 capitals. The full Unicode
  `toLowerCase`, whose mappings can change the length, is not modelled.
- Regular expressions are not modelled as an engine. Each `replace` is the
  global, left-to-right, non-overlapping rewrite of its literal pattern.
- Sorting is modelled on values by a stable insertion sort that specifies
  `Array.prototype.sort`. The in-place reordering of the arrays is not
  modelled, and neither is the engine's own sort algorithm.
- `parseInt` is modelled only as the page calls it: without a radix argument,
  on a trimmed field.
- `-0` is not modelled: the model reads it as `0`, which prints the same.
