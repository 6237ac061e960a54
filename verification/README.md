# Verified models of PostgreSQL contrib modules

Models of five parts of the PostgreSQL 9.2.4 contrib tree that is kept with this application, and
proofs about them. `dafny verify dfyconfig.toml` checks everything.

- **Edit distance** (`Edit`, `Levenshtein`): the two-row dynamic program is the minimum over all
  alignments, obeys the laws of a metric, and the bounded variant, with its moving band, sentinels and
  early exits, is the same function capped at the bound plus one.
- **Index keys with truncation** (`Bytes`, `IndexScan`, `VarKey`, `VarSplit`, `VarRows`): keys of
  variable length are cut two bytes past a common prefix and still lead every search to every row. The cut
  that a page split makes is not always safe; when it keeps coverage, and when it keeps every search
  exact, is stated exactly.
- **Integer arrays** (`Query`, `QueryCompiler`, `QueryGrammar`, `QueryItems`, `QueryLinks`, `QueryPrinter`,
  `QueryLayout`, `QueryWide`, `QueryIndex`, `IntRoom`, `IntArray`, `RangeKey`, `RangeSize`, `IntGist`, `IntSplit`):
  query texts, which have a grammar of their own, are compiled to postfix items with back links, evaluated,
  printed, and answered from two kinds of index; index keys are sorted arrays, stored as ranges when they
  grow large. Where the 16-bit links or the 32-bit sizes fail is stated exactly.
- **Key/value stores** (`HStoreFormat`, `HStoreBuilder`, `HStoreMap`, `HStoreMerge`, `HStorePairs`,
  `HStoreOps`, `HStoreSearch`, `HStoreCompare`, `HStoreText`, `HStoreGrammar`, `HStoreCompat`,
  `HStoreOld`): a packed sorted layout stands for a finite map; text form with a grammar of its own, merges,
  searches, comparison and the conversion of an older layout, described from the pairs it holds, agree with it.
- **Label paths** (`LTree`, `LTreeWord`, `LTreeText`, `LTreeExact`): the order of paths and the tests that
  prune subtrees of an index, with the exact condition under which searches find every path. It can
  fail for words that ignore case where the locale folds more than single bytes.

`Wrappers`, `Ints`, `Memory` and `Sequences` hold results, machine integers, allocation and block moves,
and facts about sequences. `IndexScan` is shared by the three kinds of index tree: it shows that a scan is
exact as soon as keys cover the values below them and no test rejects a key that covers a match.

Conventions. An `ereport(ERROR)` or `elog(ERROR)` is a `Failure`. `qsort` is any function that returns a
sorted reordering; where its order of equal elements could matter, the results hold for each. Memory is
unlimited except where a size is compared with the largest allocation. Numbers are unbounded unless a
width matters: the int2 links of query items, int4 elements and gaps of range keys, `internal_size`, the
30-bit positions of store entries, the byte counts of new integer arrays and the sign of a path comparison are
modelled with their width.
The `float` arithmetic of g_int_picksplit is any arithmetic on `real` that may round; what is claimed without
rounding asks that it is exact up to 2^24, for the side an entry is dealt to that it is exact throughout. `str_tolower` is any function on strings, `tolower` any on bytes.

Where code and comments differ, the models follow the code. The comment in `intarray/_int_gist.c:485-489`
says that a page split leaves entry numbers in order; they are in the order of the sorted costs. The
comment in `hstore/hstore_compat.c:205-209` says that positions strictly increase except for the first
entry; the check only asks for contiguity, so later entries can be empty too. `ltree_compare` is used as an
order; its int result is one only below a depth that `IntCompareExact` states.

## Model

| member | source | states |
|---|---|---|
| `Edit.DistanceIsMinimum` | piecemaker2/postgresql-9.2.4/contrib/fuzzystrmatch/levenshtein.c:40-44 | The recurrence value is the least total cost over all alignments of the two strings: some alignment attains it, none is cheaper; for costs of any sign |
| `Edit.Compose` | piecemaker2/postgresql-9.2.4/contrib/fuzzystrmatch/levenshtein.c:283-321 | An alignment of r with s and one of s with t compose into one of r with t that costs no more than both together |
| `Edit.TriangleInequality` | piecemaker2/postgresql-9.2.4/contrib/fuzzystrmatch/levenshtein.c:66-72 | distance(r, t) <= distance(r, s) + distance(s, t) for non-negative costs |
| `Edit.CellMirror` | piecemaker2/postgresql-9.2.4/contrib/fuzzystrmatch/levenshtein.c:283-321 | Exchanging the strings together with insertion and deletion costs leaves every cell unchanged |
| `Edit.DistanceSymmetric` | piecemaker2/postgresql-9.2.4/contrib/fuzzystrmatch/levenshtein.c:289-296 | With equal insertion and deletion costs the distance is symmetric |
| `Edit.DistanceZeroIffEqual` | piecemaker2/postgresql-9.2.4/contrib/fuzzystrmatch/levenshtein.c:289-300 | With all costs positive the distance is zero exactly for equal strings |
| `Edit.CellAtLeastGap` | piecemaker2/postgresql-9.2.4/contrib/fuzzystrmatch/levenshtein.c:52-64 | A cell differs from the diagonal by at least the minimum residual distance |
| `Edit.CellAtMostGap` | piecemaker2/postgresql-9.2.4/contrib/fuzzystrmatch/levenshtein.c:155-163 | A cell is at most the residual distance plus capped substitutions for the shorter string |
| `Edit.CellSubCapped` | piecemaker2/postgresql-9.2.4/contrib/fuzzystrmatch/levenshtein.c:159-160 | Lowering the substitution cost to insertion plus deletion changes no distance |
| `Levenshtein.FillRow` | piecemaker2/postgresql-9.2.4/contrib/fuzzystrmatch/levenshtein.c:260-326 | The inner loop fills the columns from the start column up to the stop column, in place, each with the least of the three candidates from its stored neighbours, and leaves the other columns alone |
| `Levenshtein.ExactUpTo` | piecemaker2/postgresql-9.2.4/contrib/fuzzystrmatch/levenshtein.c:260-326 | From an exact row before, such a filled row holds the recurrence values |
| `Levenshtein.LevenshteinInternal` | piecemaker2/postgresql-9.2.4/contrib/fuzzystrmatch/levenshtein.c:71-262 | The two-row program returns the distance; failure exactly when a non-empty pair has a string of more than 255 characters |
| `Levenshtein.InitialStopColumn` | piecemaker2/postgresql-9.2.4/contrib/fuzzystrmatch/levenshtein.c:149-185 | The first stop column leaves out only cells whose value plus residual exceeds the bound |
| `Levenshtein.CellUsable` | piecemaker2/postgresql-9.2.4/contrib/fuzzystrmatch/levenshtein.c:289-300 | If the stored neighbours are exact where they can still matter and too large elsewhere, so is the cell computed from them |
| `Levenshtein.BandFill` | piecemaker2/postgresql-9.2.4/contrib/fuzzystrmatch/levenshtein.c:240-262 | In a filled row each cell of the band is exact where it can still matter and too large elsewhere, if that holds of the row before and of the sentinels |
| `Levenshtein.BandStep` | piecemaker2/postgresql-9.2.4/contrib/fuzzystrmatch/levenshtein.c:226-326 | One row: the band, moved one column to the right, again holds every cell that can still matter, exact, and all cells outside it cannot matter |
| `Levenshtein.SlideStop` | piecemaker2/postgresql-9.2.4/contrib/fuzzystrmatch/levenshtein.c:357-367 | Sliding the stop column left passes only cells whose value plus residual exceeds the bound |
| `Levenshtein.SlideStart` | piecemaker2/postgresql-9.2.4/contrib/fuzzystrmatch/levenshtein.c:369-389 | Sliding the start column right passes only such cells and plants sentinels in both rows |
| `Levenshtein.HopelessRow` | piecemaker2/postgresql-9.2.4/contrib/fuzzystrmatch/levenshtein.c:391-393 | When no cell of a row can matter any more, the distance exceeds the bound |
| `Levenshtein.BandedRows` | piecemaker2/postgresql-9.2.4/contrib/fuzzystrmatch/levenshtein.c:226-402 | The row loop of the bounded program returns the distance capped at the bound plus one |
| `Levenshtein.LevenshteinLessEqualInternal` | piecemaker2/postgresql-9.2.4/contrib/fuzzystrmatch/levenshtein.c:68-402 | For non-empty strings, non-negative costs and a bound of at least 0 the result is min(distance, bound + 1), whichever path is taken; the distance itself for an empty string or a negative bound; failure exactly for too long strings |
| `VarKey.NodeCpLen` | piecemaker2/postgresql-9.2.4/contrib/btree_gist/btree_utils_var.c:108-150 | The scan returns the length of the longest common prefix of both bounds |
| `VarKey.VarUnion` | piecemaker2/postgresql-9.2.4/contrib/btree_gist/btree_utils_var.c:298-335 | The union is the least lower and the greatest upper bound, cut two bytes past their common prefix |
| `VarKey.TruncateKeepsPrefixLength` | piecemaker2/postgresql-9.2.4/contrib/btree_gist/btree_utils_var.c:192-217 | Cutting two bytes or more past the common prefix leaves the common prefix length as it was |
| `VarKey.UnionCovers` | piecemaker2/postgresql-9.2.4/contrib/btree_gist/btree_utils_var.c:298-335 | Whatever value an entry covers, in the sense that its upper bound may be a prefix of the value, the truncated union covers it too |
| `VarKey.ConsistentInner` | piecemaker2/postgresql-9.2.4/contrib/btree_gist/btree_utils_var.c:536-594 | The inner test is true for each of the six operators that some covered value satisfies |
| `VarKey.InnerAccepts` | piecemaker2/postgresql-9.2.4/contrib/btree_gist/btree_utils_var.c:546-591 | On an inner key < and <= accept exactly when the key spans some value up to the query, >= and > when it spans one from the query on, = when it spans the query; the query extending the lower bound is enough for the last three |
| `VarKey.SatisfiesMeaning` | piecemaker2/postgresql-9.2.4/contrib/btree_gist/btree_utils_var.c:546-591 | What the operators ask: the first byte where value and query differ decides, and the end of a string comes before any byte |
| `VarKey.ConsistentLeaf` | piecemaker2/postgresql-9.2.4/contrib/btree_gist/btree_utils_var.c:546-591 | On a leaf key the test is exact |
| `VarKey.UnionSound` | piecemaker2/postgresql-9.2.4/contrib/btree_gist/btree_utils_var.c:298-335 | A page put under the union of its keys, leaf or inner, is a sound subtree |
| `VarKey.InsertSound` | piecemaker2/postgresql-9.2.4/contrib/btree_gist/btree_utils_var.c:221-266 | Whatever subtree is chosen at each level, insertion adds exactly the value and keeps every key covering the values below it |
| `VarKey.SearchExact` | piecemaker2/postgresql-9.2.4/contrib/btree_gist/btree_utils_var.c:536-594 | A descent of any sound tree finds exactly the values that satisfy the operator, in order |
| `VarSplit.VarPicksplit` | piecemaker2/postgresql-9.2.4/contrib/btree_gist/btree_utils_var.c:441-530 | The sorted entries are dealt out in two halves, each under its bounds cut at the larger of the two common prefixes plus two |
| `VarSplit.PicksplitLeafPage` | piecemaker2/postgresql-9.2.4/contrib/btree_gist/btree_utils_var.c:512-527 | For a page of leaf entries each half covers all its values |
| `VarSplit.PicksplitInnerPage` | piecemaker2/postgresql-9.2.4/contrib/btree_gist/btree_utils_var.c:512-527 | Cutting the key of a half of truncated entries keeps every value that any entry covers covered if and only if no entry is overshot: none has an upper bound that stands for its extensions and that the upper bound of the half, as far as the cut leaves it, continues with a byte below 255 |
| `VarSplit.OwnCutIsSafe` | piecemaker2/postgresql-9.2.4/contrib/btree_gist/btree_utils_var.c:512-527 | No entry is overshot when the cut is the half's own common prefix, so only the half with the shorter one can lose values |
| `VarSplit.PicksplitSound` | piecemaker2/postgresql-9.2.4/contrib/btree_gist/btree_utils_var.c:441-530 | Both halves of a sound page under their cut keys are sound subtrees whenever none of their entries is overshot; so are always the half with the longer common prefix and both halves of a page of leaves |
| `VarSplit.PicksplitKeepsValues` | piecemaker2/postgresql-9.2.4/contrib/btree_gist/btree_utils_var.c:441-530 | However the sort reorders the page, the halves together hold exactly its values, and soundness is kept |
| `VarRows.PicksplitRowsIff` | piecemaker2/postgresql-9.2.4/contrib/btree_gist/btree_utils_var.c:536-594 | No operator with any query misses a value that an entry of the half covers if and only if no entry is overshot or the lower bound of the half is a prefix of its upper bound |
| `VarRows.SplitSearchIff` | piecemaker2/postgresql-9.2.4/contrib/btree_gist/btree_utils_var.c:512-527 | Every search below the cut key of a half is exact, whatever sound subtrees stand under the keys of its entries, if and only if the same condition holds |
| `VarRows.PicksplitSearches` | piecemaker2/postgresql-9.2.4/contrib/btree_gist/btree_utils_var.c:441-530 | So it is for both halves of a sound page and the keys of its split |
| `VarSplit.PicksplitLosesRow` | piecemaker2/postgresql-9.2.4/contrib/btree_gist/btree_utils_var.c:512-527 | Four entries in sorted order whose split loses a covered value to an equality search |
| `VarSplit.LossyPageIsReal` | piecemaker2/postgresql-9.2.4/contrib/btree_gist/btree_utils_var.c:298-335 | They are unions of leaf keys, the first one with the value that is lost |
| `QueryCompiler.WorkState.GetToken` | piecemaker2/postgresql-9.2.4/contrib/intarray/_int_bool.c:56-140 | Each call returns the token, position and parenthesis depth that the lexical description gives for the operand or operator expected |
| `QueryCompiler.WorkState.PushQuery` | piecemaker2/postgresql-9.2.4/contrib/intarray/_int_bool.c:145-155 | Appends one node |
| `QueryCompiler.WorkState.OperandDone` | piecemaker2/postgresql-9.2.4/contrib/intarray/_int_bool.c:177-185 | After a complete operand the stack is empty or holds a single | |
| `QueryCompiler.WorkState.MakePol` | piecemaker2/postgresql-9.2.4/contrib/intarray/_int_bool.c:162-233 | Compiling one level yields the postfix form of exactly the expression that the grammar, with ! over & over |, assigns to the text, or exactly its error: syntax, or more than 16 pending operators |
| `QueryGrammar.MeaningExactly` | piecemaker2/postgresql-9.2.4/contrib/intarray/_int_bool.c:56-233 | A text means an expression if and only if it is written by a grammar of numbers, !, &, | and parentheses with any number of blanks between them, stands for that expression, and never makes more than 16 operators wait; a number has at most 15 characters, is worth what its decimal digits are worth by position, or its octal ones after a leading 0, and is an int4 |
| `QueryGrammar.CrowdedText` | piecemaker2/postgresql-9.2.4/contrib/intarray/_int_bool.c:145-233 | A text of the grammar that makes more operators wait is refused as too complex |
| `QueryGrammar.Unambiguous` | piecemaker2/postgresql-9.2.4/contrib/intarray/_int_bool.c:162-233 | However a text is taken apart by the grammar, it stands for the same expression |
| `QueryGrammar.SomeNumbers` | piecemaker2/postgresql-9.2.4/contrib/intarray/_int_bool.c:94-116 | 010 is 8, 08 is 0, -017 is -15 and a lone minus sign is 0 |
| `QueryItems.FindOprnd` | piecemaker2/postgresql-9.2.4/contrib/intarray/_int_bool.c:451-479 | Linking in place sets every left link of the expression that ends at the position, as an int2, and touches nothing else |
| `QueryItems.BqarrIn` | piecemaker2/postgresql-9.2.4/contrib/intarray/_int_bool.c:485-545 | Input yields the linked items of the text's meaning, or its error; MeaningExactly says which texts mean what |
| `QueryItems.ExecuteIsEval` | piecemaker2/postgresql-9.2.4/contrib/intarray/_int_bool.c:275-305 | Running the evaluator over linked items gives the value of the expression, with negations evaluated or counted as true |
| `QueryItems.CompiledMeaning` | piecemaker2/postgresql-9.2.4/contrib/intarray/_int_bool.c:319-330 | The compiled query is true of an array exactly when the expression is |
| `QueryItems.LinksExactIffFits` | piecemaker2/postgresql-9.2.4/contrib/intarray/_int_bool.c:472-478 | The 16-bit links equal the true distances if and only if every right operand has fewer than 2^15 items |
| `QueryLinks.MeaningExactIffFits` | piecemaker2/postgresql-9.2.4/contrib/intarray/_int_bool.c:275-305 | Run on linked items, the evaluator gives the value of the expression for all outcomes of the primitive cases if and only if every right operand has fewer than 2^15 items |
| `QueryLinks.LeftIgnored` | piecemaker2/postgresql-9.2.4/contrib/intarray/_int_bool.c:472-478 | A right operand whose size is a multiple of 2^16 is evaluated in place of the whole: the left operand is ignored |
| `QueryLinks.LinkLeavesQuery` | piecemaker2/postgresql-9.2.4/contrib/intarray/_int_bool.c:472-478 | With a right operand of 2^15 to 2^16 - 1 items the link of the last operator leads out of the query |
| `QueryLinks.ShortTextExact` | piecemaker2/postgresql-9.2.4/contrib/intarray/_int_bool.c:485-545 | A text of at most 2^15 characters is compiled faithfully: the compiled query gives the meaning of the text on every array |
| `QueryLayout.TextAnswers` | piecemaker2/postgresql-9.2.4/contrib/intarray/_int_bool.c:275-330 | A text of the grammar of at most 2^15 characters, compiled and evaluated on an array, is true exactly when the text, read as numbers in the array joined by not, and, or, is |
| `QueryWide.WideTextLeaves` | piecemaker2/postgresql-9.2.4/contrib/intarray/_int_bool.c:472-478 | The texts 7 & (1 | 1 | ...) with 16384 to 32767 inner bars are accepted with their obvious meaning, but the evaluator leaves the query |
| `QueryWide.WideTextIgnoresLeft` | piecemaker2/postgresql-9.2.4/contrib/intarray/_int_bool.c:472-478 | The text 7 & !(1 | 1 | ...) with 32767 inner bars is accepted and false of every array without 7, but the evaluator answers true when 1 is missing too |
| `QueryPrinter.NumberRoundTrip` | piecemaker2/postgresql-9.2.4/contrib/intarray/_int_bool.c:567-585 | A printed int4 is read back as itself, although a leading 0 would mean octal |
| `QueryPrinter.Infix` | piecemaker2/postgresql-9.2.4/contrib/intarray/_int_bool.c:566-637 | Printing from the postfix items produces the text with minimal parentheses |
| `QueryLayout.TextIsPrinted` | piecemaker2/postgresql-9.2.4/contrib/intarray/_int_bool.c:566-637 | The printed text character by character: ! right before a value or before ( ... ), one blank on both sides of & and |, and ( ... ) only around an | that is an operand of & or | |
| `QueryLayout.PlainIsWorth` | piecemaker2/postgresql-9.2.4/contrib/intarray/_int_bool.c:567-585 | Printed numbers are worth their value, without a spare zero |
| `QueryPrinter.ReadBack` | piecemaker2/postgresql-9.2.4/contrib/intarray/_int_bool.c:566-637 | The printed text is accepted, and its meaning is the same expression with each chain of & grouped to the left |
| `QueryPrinter.PrintParse` | piecemaker2/postgresql-9.2.4/contrib/intarray/_int_bool.c:566-637 | Printing and parsing again is accepted, stays within the 16-entry operator stack, has the same value on every array, and prints as the same text |
| `QueryIndex.GinQueryExtract` | piecemaker2/postgresql-9.2.4/contrib/intarray/_int_gin.c:29-59 | The entries are the values of the query in item order; the scan mode follows from the required-values test |
| `QueryIndex.GinBoolConsistent` | piecemaker2/postgresql-9.2.4/contrib/intarray/_int_bool.c:346-372 | On a check vector that tells which entries are present, the result is the direct value of the query |
| `QueryIndex.ContainsRequiredIsRequired` | piecemaker2/postgresql-9.2.4/contrib/intarray/_int_bool.c:374-408 | The recursion over links computes the required-values property of the expression |
| `QueryIndex.RequiredIffFalseOnEmpty` | piecemaker2/postgresql-9.2.4/contrib/intarray/_int_bool.c:374-408 | A query has required values exactly when it is false on the empty array with negations counted as true |
| `QueryIndex.GinOffersMatches` | piecemaker2/postgresql-9.2.4/contrib/intarray/_int_gin.c:40-47 | With the chosen scan mode the index offers every row of which the query holds |
| `QueryIndex.Approximation` | piecemaker2/postgresql-9.2.4/contrib/intarray/_int_bool.c:275-305 | What holds exactly of an array holds, with negations counted as true, of anything that contains its values |
| `QueryIndex.MonotoneInValues` | piecemaker2/postgresql-9.2.4/contrib/intarray/_int_bool.c:275-305 | Evaluation with negations counted as true is monotone |
| `IntArray.Isort` | piecemaker2/postgresql-9.2.4/contrib/intarray/_int_tool.c:188-222 | The array becomes its insertion sort, in place, and the result tells whether there were duplicates |
| `IntArray.InsertionSortIsSort` | piecemaker2/postgresql-9.2.4/contrib/intarray/_int_tool.c:188-222 | That is a sorted permutation |
| `IntArray.IntUnique` | piecemaker2/postgresql-9.2.4/contrib/intarray/_int_tool.c:292-312 | In place, each element that differs from the last one kept is kept |
| `IntArray.DedupAscending` | piecemaker2/postgresql-9.2.4/contrib/intarray/_int_tool.c:292-312 | Of a sorted array that leaves the same elements strictly ascending |
| `IntArray.PreparedIsSet` | piecemaker2/postgresql-9.2.4/contrib/intarray/_int_gist.c:64-65 | Sorting and dropping duplicates leaves the same set, strictly ascending |
| `IntArray.CheckconditionArr` | piecemaker2/postgresql-9.2.4/contrib/intarray/_int_bool.c:244-264 | The binary search finds a value exactly when it is in the sorted array |
| `IntArray.InnerIntContains` | piecemaker2/postgresql-9.2.4/contrib/intarray/_int_tool.c:12-44 | True exactly when every element of b is in a |
| `IntArray.InnerIntOverlap` | piecemaker2/postgresql-9.2.4/contrib/intarray/_int_tool.c:47-74 | True exactly when the arrays have a common element |
| `IntArray.InnerIntUnion` | piecemaker2/postgresql-9.2.4/contrib/intarray/_int_tool.c:76-131 | The merge written to the new array, without duplicates; refused exactly when both arrays are non-empty and have more elements together than an array can hold |
| `IntArray.UnionIsUnion` | piecemaker2/postgresql-9.2.4/contrib/intarray/_int_tool.c:76-131 | For sorted arrays that is the strictly ascending union |
| `IntArray.InnerIntInter` | piecemaker2/postgresql-9.2.4/contrib/intarray/_int_tool.c:133-179 | The strictly ascending intersection |
| `RangeKey.SmallGapExists` | piecemaker2/postgresql-9.2.4/contrib/intarray/_int_gist.c:202-208 | Among four disjoint ascending ranges some gap, as int arithmetic computes it, is below the largest int, so the scan always finds a candidate |
| `RangeKey.CandidateIsNarrowest` | piecemaker2/postgresql-9.2.4/contrib/intarray/_int_gist.c:202-208 | The candidate is a narrowest gap if and only if no gap is wider than the largest int; a wider one overflows the subtraction and is closed first |
| `RangeKey.SmallestIsSmallest` | piecemaker2/postgresql-9.2.4/contrib/intarray/_int_gist.c:202-208 | The candidate is the first of the smallest gaps |
| `RangeKey.JoinCovers` | piecemaker2/postgresql-9.2.4/contrib/intarray/_int_gist.c:209-210 | Joining two ranges adds exactly the integers of the gap and keeps the ranges disjoint |
| `RangeKey.GIntCompress` | piecemaker2/postgresql-9.2.4/contrib/intarray/_int_gist.c:147-222 | A key of fewer than 200 elements is stored as it is; a larger one as the result of doubling its elements in place and joining across the smallest gap until 100 ranges are left; refused exactly when the doubled array exceeds the largest allocation |
| `RangeKey.SqueezeCovers` | piecemaker2/postgresql-9.2.4/contrib/intarray/_int_gist.c:200-211 | The joined ranges cover everything the ranges before covered |
| `RangeKey.InternalSize` | piecemaker2/postgresql-9.2.4/contrib/intarray/_int_tool.c:276-289 | The size is the number of integers in the ranges, in int arithmetic |
| `RangeKey.RangeLoopEnds` | piecemaker2/postgresql-9.2.4/contrib/intarray/_int_gist.c:275-278 | Counting through a range ends exactly when its upper end is not the largest int |
| `IntRoom.RoomExact` | piecemaker2/postgresql-9.2.4/contrib/intarray/_int_tool.c:224-242 | A new array for a wrapped number of integers is refused, has room for all of them, or is too short; which one is told from the true number |
| `RangeKey.GIntDecompress` | piecemaker2/postgresql-9.2.4/contrib/intarray/_int_gist.c:224-287 | A stored key of 200 entries or more is expanded to all integers of its ranges; it is refused exactly when the wrapped byte count of the array exceeds the largest allocation, and the writes leave the array exactly when it is allocated for too few or the last integer is the largest int |
| `RangeKey.RestoredIsSuperset` | piecemaker2/postgresql-9.2.4/contrib/intarray/_int_gist.c:147-287 | A key compressed and read back is strictly ascending and contains every element of the key |
| `RangeSize.CloseSmallest` | piecemaker2/postgresql-9.2.4/contrib/intarray/_int_gist.c:200-211 | Closing the gap that the scan picks leaves the sorted gaps without the first one |
| `RangeSize.SqueezeGaps` | piecemaker2/postgresql-9.2.4/contrib/intarray/_int_gist.c:200-211 | The gaps that stay open in a compressed key are the 99 largest, as int arithmetic computes them |
| `RangeSize.SqueezeNotWide` | piecemaker2/postgresql-9.2.4/contrib/intarray/_int_gist.c:200-211 | None of them is wider than the largest int, and the first integer stays |
| `RangeSize.SizeOfRestored` | piecemaker2/postgresql-9.2.4/contrib/intarray/_int_gist.c:147-287 | A compressed key of 200 elements or more stands for all integers from its first to its last element but those inside its 99 largest steps |
| `RangeSize.RestoredFails` | piecemaker2/postgresql-9.2.4/contrib/intarray/_int_gist.c:147-287 | Told from the key alone: compressing and reading back succeeds below 200 elements; above, it is refused exactly when the doubled key or the wrapped size of that many integers exceeds the largest allocation, and otherwise overruns exactly when the integers are too many for an array or the last is the largest int |
| `RangeSize.SpacedKeyRefused` | piecemaker2/postgresql-9.2.4/contrib/intarray/_int_gist.c:147-287 | 400 elements a million apart are compressed and then refused when read back |
| `RangeSize.SpacedKeyOverruns` | piecemaker2/postgresql-9.2.4/contrib/intarray/_int_gist.c:147-287 | 400 elements 3,600,000 apart wrap the array size and overrun it when read back |
| `IntGist.GIntUnion` | piecemaker2/postgresql-9.2.4/contrib/intarray/_int_gist.c:104-139 | The union of a page of keys is their sorted concatenation without duplicates; it is refused exactly when the wrapped byte count of all elements exceeds the largest allocation, and otherwise overruns exactly when they are too many for an array |
| `IntGist.KeyUnionIsUnion` | piecemaker2/postgresql-9.2.4/contrib/intarray/_int_gist.c:104-139 | It is strictly ascending and contains each key |
| `IntGist.GIntConsistent` | piecemaker2/postgresql-9.2.4/contrib/intarray/_int_gist.c:39-102 | The test is exact on leaf arrays; on inner keys it is the stated approximation |
| `IntGist.InnerExact` | piecemaker2/postgresql-9.2.4/contrib/intarray/_int_gist.c:73-94 | An inner key rejects no matching array below it, except exactly for the contained-by operator when key and query have nothing in common, where the empty array is missed |
| `IntGist.InnerAccepts` | piecemaker2/postgresql-9.2.4/contrib/intarray/_int_gist.c:73-94 | An inner key is accepted exactly when some array within it answers the question; for contained-by some array that is not empty; for a query when the query holds of the key with negations counted as true |
| `IntGist.UnionSound` | piecemaker2/postgresql-9.2.4/contrib/intarray/_int_gist.c:104-217 | A page under the compressed union of its keys is sound whenever there is room for the union and that key can be read back |
| `IntGist.SearchExact` | piecemaker2/postgresql-9.2.4/contrib/intarray/_int_gist.c:39-102 | A search of a sound tree by any operator finds exactly the matching arrays; for contained-by provided no array is empty |
| `IntGist.EmptyArrayMissed` | piecemaker2/postgresql-9.2.4/contrib/intarray/_int_gist.c:86-94 | A tree in which a contained-by search misses the empty array |
| `IntGist.SignatureKeeps` | piecemaker2/postgresql-9.2.4/contrib/intarray/_intbig_gist.c:503-527 | A signature with the hashed bits of a satisfying array is accepted |
| `IntSplit.PickSeeds` | piecemaker2/postgresql-9.2.4/contrib/intarray/_int_gist.c:406-455 | The seeds are two different entries that waste most, as the float arithmetic computes it, among all but the last entry; refused only on a page with more than half as many different elements as an array can hold |
| `IntSplit.WasteMostExact` | piecemaker2/postgresql-9.2.4/contrib/intarray/_int_gist.c:406-455 | If no two entries have more than 2^24 elements together, they waste most indeed |
| `IntSplit.Costs` | piecemaker2/postgresql-9.2.4/contrib/intarray/_int_gist.c:457-481 | The cost of an entry is how differently the two seeds would grow by it, in float arithmetic |
| `IntSplit.CostExact` | piecemaker2/postgresql-9.2.4/contrib/intarray/_int_gist.c:457-481 | It is exact where the seed and the entry have at most 2^24 elements together |
| `IntSplit.Deal` | piecemaker2/postgresql-9.2.4/contrib/intarray/_int_gist.c:506-548 | A seed goes to its own side. Without rounding, another entry goes left if and only if 100 times what the left key would grow more than the right one is less than the cube of what the right side has more entries, or equal to it and positive; with rounding, as the float arithmetic says. The key of that side takes in its elements |
| `IntSplit.SideRule` | piecemaker2/postgresql-9.2.4/contrib/intarray/_int_gist.c:528-529 | The comparison with the handicap is that threshold; the tie is decided by the double nearest to 0.01 being larger than 0.01 |
| `IntSplit.EqualGrowth` | piecemaker2/postgresql-9.2.4/contrib/intarray/_int_gist.c:528-529 | When both keys would grow equally, the entry goes left if and only if the left side has fewer entries |
| `IntSplit.GIntPicksplit` | piecemaker2/postgresql-9.2.4/contrib/intarray/_int_gist.c:371-558 | Every entry number goes to exactly one side, two entries that waste most as computed go to different sides, so neither is empty; entries are dealt out in the order of their costs, each by the rule of Deal; each key holds exactly the elements of the entries on its side, whatever rounding and sort do with the costs; refused only on a page with more than half as many different elements as an array can hold |
| `IntSplit.PicksplitSound` | piecemaker2/postgresql-9.2.4/contrib/intarray/_int_gist.c:371-558 | The two sides of a sound page together hold exactly its arrays, and each is a sound subtree under its compressed key whenever that key can be read back |
| `LTree.LtreeCompare` | piecemaker2/postgresql-9.2.4/contrib/ltree/ltree_op.c:59-85 | The loop returns the stated value, in unbounded integers |
| `LTree.PathCompareSwap` | piecemaker2/postgresql-9.2.4/contrib/ltree/ltree_op.c:59-85 | The comparison is antisymmetric and zero exactly on equal paths |
| `LTree.PathOrder` | piecemaker2/postgresql-9.2.4/contrib/ltree/ltree_op.c:59-85 | The path that is smaller at the first level that differs, or ends there, comes first |
| `LTree.PathLeTransitive` | piecemaker2/postgresql-9.2.4/contrib/ltree/ltree_op.c:59-85 | The order is transitive |
| `LTree.PathLeTotal` | piecemaker2/postgresql-9.2.4/contrib/ltree/ltree_op.c:59-85 | The order is total |
| `LTree.TruncateMonotone` | piecemaker2/postgresql-9.2.4/contrib/ltree/ltree_gist.c:470-493 | Cutting two paths to n levels keeps their order |
| `LTree.IntCompareExact` | piecemaker2/postgresql-9.2.4/contrib/ltree/ltree_op.c:59-85 | In int arithmetic, and with a memcmp that returns the difference of two bytes, the sign is right except exactly when the second path is an ancestor so far up that the result wraps |
| `LTree.IntCompareShallow` | piecemaker2/postgresql-9.2.4/contrib/ltree/ltree_op.c:84-84 | No result wraps when the first path is at most 14653 levels longer |
| `LTree.IntCompareDeep` | piecemaker2/postgresql-9.2.4/contrib/ltree/ltree_op.c:84-84 | With an ancestor exactly 14654 levels up, either path comes out less than the other |
| `LTree.InnerIsparent` | piecemaker2/postgresql-9.2.4/contrib/ltree/ltree_op.c:153-175 | True exactly when p is c or an ancestor of it |
| `LTree.LtreeUnion` | piecemaker2/postgresql-9.2.4/contrib/ltree/ltree_gist.c:166-248 | The union has the least left node, the greatest right node and the union of the signatures, or all bits |
| `LTree.UnionCovers` | piecemaker2/postgresql-9.2.4/contrib/ltree/ltree_gist.c:166-248 | It covers every path that one of the entries covers |
| `LTree.GistIsparent` | piecemaker2/postgresql-9.2.4/contrib/ltree/ltree_gist.c:441-459 | True exactly when the query or an ancestor of it lies between the bounds; the query is restored |
| `LTree.GistIschild` | piecemaker2/postgresql-9.2.4/contrib/ltree/ltree_gist.c:470-493 | True exactly when the query lies between the bounds cut to its number of levels |
| `LTree.GistQe` | piecemaker2/postgresql-9.2.4/contrib/ltree/ltree_gist.c:495-532 | True exactly when each level that is no star, not negated and without * and % has a word whose bit is set, words with @ included |
| `LTree.GistTqcmp` | piecemaker2/postgresql-9.2.4/contrib/ltree/ltree_gist.c:534-561 | The level-by-level comparison with the literal prefix |
| `LTree.TqCompareIsTruncated` | piecemaker2/postgresql-9.2.4/contrib/ltree/ltree_gist.c:534-561 | It has the sign of comparing the path cut to as many levels |
| `LTree.GistBetween` | piecemaker2/postgresql-9.2.4/contrib/ltree/ltree_gist.c:563-576 | True exactly when the literal prefix lies between the bounds cut to its length |
| `LTreeWord.PlainMatches` | piecemaker2/postgresql-9.2.4/contrib/ltree/lquery_op.c:105-134 | A word without modifiers matches exactly the name that is the same |
| `LTreeWord.StarMatches` | piecemaker2/postgresql-9.2.4/contrib/ltree/ltxtquery_op.c:60-75 | With * alone a word matches exactly the names it is a prefix of |
| `LTreeWord.AtMatches` | piecemaker2/postgresql-9.2.4/contrib/ltree/ltxtquery_op.c:60-75 | With @ alone it matches exactly the names of its length whose folded text begins the same |
| `LTreeWord.AtStarMatches` | piecemaker2/postgresql-9.2.4/contrib/ltree/ltxtquery_op.c:60-75 | With both it matches exactly the names of which as long a start does |
| `LTreeWord.PercentMatches` | piecemaker2/postgresql-9.2.4/contrib/ltree/lquery_op.c:52-88 | With % it matches exactly when each piece between its underscores has a piece of the name that is the same, after folding with @, or starts with it with * |
| `LTreeWord.Getlexeme` | piecemaker2/postgresql-9.2.4/contrib/ltree/lquery_op.c:32-50 | Skips underscores and returns the piece behind them up to the next underscore or the end, if there is one |
| `LTreeWord.CompareSubnode` | piecemaker2/postgresql-9.2.4/contrib/ltree/lquery_op.c:52-88 | The walk over the pieces of both strings answers whether the word with % matches |
| `LTreeWord.CheckconditionStr` | piecemaker2/postgresql-9.2.4/contrib/ltree/ltxtquery_op.c:52-81 | The loop answers whether some level of the path matches the word |
| `LTree.LtxtqExec` | piecemaker2/postgresql-9.2.4/contrib/ltree/ltxtquery_op.c:18-104 | Evaluated on a path, with shortcuts, a text query holds as its words do |
| `LTree.TextMeans` | piecemaker2/postgresql-9.2.4/contrib/ltree/ltxtquery_op.c:18-44 | A word holds when some level matches it; !, & and | are not, and, or |
| `LTree.LtQRegex` | piecemaker2/postgresql-9.2.4/contrib/ltree/lquery_op.c:338-372 | An array of patterns matches exactly when one of them does |
| `LTreeWord.AcuteChecksums` | piecemaker2/postgresql-9.2.4/contrib/ltree/crc32.c:101-113 | The checksums of the two cases of one accented letter, in UTF-8, where bytes are lowered as ASCII |
| `LTreeText.ExecuteKeeps` | piecemaker2/postgresql-9.2.4/contrib/ltree/ltxtquery_op.c:18-44 | A text query that holds exactly is accepted by any looser check of its words with negations taken as true |
| `LTree.GistQtxt` | piecemaker2/postgresql-9.2.4/contrib/ltree/ltree_gist.c:578-595 | A text query passes if the key has no signature or holds with the bits of the signature for its words without * and %, those with @ included |
| `LTree.SignedExactly` | piecemaker2/postgresql-9.2.4/contrib/ltree/ltree_gist.c:578-595 | The bit of a word is its checksum modulo 64 |
| `LTree.ArrqCons` | piecemaker2/postgresql-9.2.4/contrib/ltree/ltree_gist.c:597-620 | An array of patterns passes exactly when one of them passes both its tests |
| `LTree.OperatorsMean` | piecemaker2/postgresql-9.2.4/contrib/ltree/ltree_gist.c:630-690 | What the operators on paths ask for: order by the first level that differs, ancestors are prefixes |
| `LTree.LtreeConsistent` | piecemaker2/postgresql-9.2.4/contrib/ltree/ltree_gist.c:622-726 | For all strategies: exact on leaf entries, by the pruning tests on inner ones; text queries on leaves run the loops over levels and pieces |
| `LTree.ConsistentKeeps` | piecemaker2/postgresql-9.2.4/contrib/ltree/ltree_gist.c:632-713 | No test rejects a key that covers a path satisfying the operator, if the names that match a word asked of the signature hash like the word |
| `LTree.UnionSound` | piecemaker2/postgresql-9.2.4/contrib/ltree/ltree_gist.c:166-248 | A page under the union of its entries is a sound subtree |
| `LTree.SearchExact` | piecemaker2/postgresql-9.2.4/contrib/ltree/ltree_gist.c:622-726 | A search of a sound tree finds exactly the paths that satisfy the operator, in order, under the same condition on the words of its query |
| `LTreeExact.SearchExactIff` | piecemaker2/postgresql-9.2.4/contrib/ltree/ltree_gist.c:622-726 | For any operator, pattern, checksum and locale: searches of all sound trees are exact if and only if no path that satisfies the operator has its own narrowest key rejected |
| `LTreeExact.WordKeptIff` | piecemaker2/postgresql-9.2.4/contrib/ltree/ltree_gist.c:578-595 | No key that covers a path with a name matching a word is rejected for it if and only if all matching names set the bit of the word, or the signature is not asked |
| `LTreeExact.WordSearchExactIff` | piecemaker2/postgresql-9.2.4/contrib/ltree/ltree_gist.c:578-595 | Searches for a word are exact on all sound trees if and only if that condition holds |
| `LTreeExact.PatternSearchExactIff` | piecemaker2/postgresql-9.2.4/contrib/ltree/ltree_gist.c:495-532 | So are searches by the pattern that is one word |
| `LTreeExact.PlainAlike` | piecemaker2/postgresql-9.2.4/contrib/ltree/lquery_op.c:90-103 | The condition holds for each word without modifiers |
| `LTreeExact.ByteFoldingExact` | piecemaker2/postgresql-9.2.4/contrib/ltree/crc32.c:101-113 | Where the locale folds strings byte by byte, as the checksum does, every search by well-formed queries is exact |
| `LTreeExact.AcuteMissed` | piecemaker2/postgresql-9.2.4/contrib/ltree/crc32.c:101-113 | In a UTF-8 locale that folds the two cases of an accented letter, a search for the small one with @ misses a path that has the capital one |
| `HStoreFormat.DecodeEncode` | piecemaker2/postgresql-9.2.4/contrib/hstore/hstore.h:28-74 | The accessors read back exactly the pairs that were laid out: keys, values and NULL flags |
| `HStoreFormat.EncodeAt` | piecemaker2/postgresql-9.2.4/contrib/hstore/hstore.h:70-74 | Key, value, lengths and NULL flag of each item |
| `HStoreFormat.LayoutWords` | piecemaker2/postgresql-9.2.4/contrib/hstore/hstore.h:28-74 | The two words of each pair: where its key ends, with the top bit in the first pair, and where its value ends, with the bit below for a NULL |
| `HStoreFormat.LayoutStrings` | piecemaker2/postgresql-9.2.4/contrib/hstore/hstore.h:28-74 | The strings stand where the pairs before them end; the size is 8 bytes, 8 for each pair, and the strings |
| `HStoreBuilder.Builder.CopyItem` | piecemaker2/postgresql-9.2.4/contrib/hstore/hstore.h:90-98 | One item copied from contiguous strings is appended to entries and strings |
| `HStoreBuilder.Builder.AddItem` | piecemaker2/postgresql-9.2.4/contrib/hstore/hstore.h:104-119 | One item from separate strings is appended likewise |
| `HStoreBuilder.Builder.Finalize` | piecemaker2/postgresql-9.2.4/contrib/hstore/hstore.h:121-132 | Flags the first entry, and moves the strings up against the entries when fewer items were written than room was made for; the result is the layout with its exact size |
| `HStoreMap.MapDetermines` | piecemaker2/postgresql-9.2.4/contrib/hstore/hstore_op.c:1255-1259 | Strictly sorted pairs are determined by the map they stand for |
| `HStoreMap.SortedIsInOrder` | piecemaker2/postgresql-9.2.4/contrib/hstore/hstore_io.c:283-297 | Sorted pairs are those of which each key is shorter than any later one, or as long and smaller at the first byte that differs |
| `Bytes.CompareIsOrder` | piecemaker2/postgresql-9.2.4/contrib/hstore/hstore_io.c:283-297 | A comparison of strings is negative exactly when the first is smaller where they first differ, or ends there |
| `HStorePairs.HstoreUniquePairs` | piecemaker2/postgresql-9.2.4/contrib/hstore/hstore_io.c:306-346 | Sorts in place and keeps the first pair of each key; the length returned is the exact room of their strings |
| `HStorePairs.UniqueSorted` | piecemaker2/postgresql-9.2.4/contrib/hstore/hstore_io.c:306-346 | Of what remains each key is shorter than any later one, or as long and smaller at the first byte that differs |
| `HStorePairs.UniqueKeeps` | piecemaker2/postgresql-9.2.4/contrib/hstore/hstore_io.c:306-346 | It has the same keys, and only pairs of the input |
| `HStorePairs.UniqueOfDistinct` | piecemaker2/postgresql-9.2.4/contrib/hstore/hstore_io.c:306-346 | Strictly ascending pairs stay as they are, whatever order the sort gives equal pairs |
| `HStorePairs.HstorePairs` | piecemaker2/postgresql-9.2.4/contrib/hstore/hstore_io.c:369-396 | The packed store is the layout of the pairs |
| `HStorePairs.ArrayKeys` | piecemaker2/postgresql-9.2.4/contrib/hstore/hstore_op.c:71-111 | The sorted key list holds exactly the non-NULL elements of the array |
| `HStoreMerge.ConcatIsUnion` | piecemaker2/postgresql-9.2.4/contrib/hstore/hstore_op.c:512-554 | The merge of two sorted sequences, second wins, is sorted and stands for the right-biased union |
| `HStoreMerge.RemoveIsWithout` | piecemaker2/postgresql-9.2.4/contrib/hstore/hstore_op.c:318-350 | The merge of a removal is sorted and stands for what remains |
| `HStoreOps.HstoreConcat` | piecemaker2/postgresql-9.2.4/contrib/hstore/hstore_op.c:462-559 | The result is a well-formed store with its keys in that order whose map is the right-biased union; failure exactly when the allocation is too large |
| `HStoreOps.HstoreDeleteArray` | piecemaker2/postgresql-9.2.4/contrib/hstore/hstore_op.c:282-360 | The result is a well-formed store with its keys in that order whose map lacks exactly the non-NULL keys of the array |
| `HStoreOps.HstoreDeleteHstore` | piecemaker2/postgresql-9.2.4/contrib/hstore/hstore_op.c:362-460 | The result is a well-formed store with its keys in that order whose map lacks exactly the pairs present with equal value, NULL equal to NULL |
| `HStoreSearch.HstoreFindKey` | piecemaker2/postgresql-9.2.4/contrib/hstore/hstore_op.c:34-69 | With no lower bound or one all earlier keys respect, the search finds what a full search finds, and leaves a bound valid for every later key |
| `HStoreSearch.LocatedUnique` | piecemaker2/postgresql-9.2.4/contrib/hstore/hstore_op.c:34-69 | A full search has one answer |
| `HStoreSearch.HstoreContains` | piecemaker2/postgresql-9.2.4/contrib/hstore/hstore_op.c:966-1009 | Containment is inclusion of maps |
| `HStoreSearch.HstoreSliceToHstore` | piecemaker2/postgresql-9.2.4/contrib/hstore/hstore_op.c:625-685 | The result is a well-formed store with its keys in that order whose map is the restriction to the non-NULL keys of the array |
| `HStoreSearch.SliceIsRestriction` | piecemaker2/postgresql-9.2.4/contrib/hstore/hstore_op.c:663-676 | The collected pairs are sorted and stand for the restriction |
| `HStoreCompare.HstoreCmp` | piecemaker2/postgresql-9.2.4/contrib/hstore/hstore_op.c:1087-1165 | -1 exactly when the first store comes first, 1 exactly when the second does: an empty store before others, then the string smaller at the first difference, the shorter one, fewer items, the smaller first end position that differs, and no NULL before NULL |
| `HStoreCompare.ZeroIffSameMap` | piecemaker2/postgresql-9.2.4/contrib/hstore/hstore_op.c:1080-1165 | It is zero exactly when both stores hold the same map |
| `HStoreCompare.StoreCompareSwap` | piecemaker2/postgresql-9.2.4/contrib/hstore/hstore_op.c:1087-1165 | Exchanging the stores negates it |
| `HStoreCompare.StoreCompareTransitive` | piecemaker2/postgresql-9.2.4/contrib/hstore/hstore_op.c:1087-1165 | It is transitive |
| `HStoreText.HSParser.GetWord` | piecemaker2/postgresql-9.2.4/contrib/hstore/hstore_io.c:53-168 | The loop over the text returns the word and stops where the five states, written as a recursion, do; what they accept is told by WordRead and WordFrom |
| `HStoreGrammar.WordRead` | piecemaker2/postgresql-9.2.4/contrib/hstore/hstore_io.c:53-168 | A quoted or bare word is read as the characters it stands for, and as quoted or not |
| `HStoreGrammar.WordFrom` | piecemaker2/postgresql-9.2.4/contrib/hstore/hstore_io.c:53-168 | Whatever is read as a word is white space and a quoted or bare word that stands for it |
| `HStoreText.HSParser.ParseHstore` | piecemaker2/postgresql-9.2.4/contrib/hstore/hstore_io.c:177-274 | The loop collects the pairs, or reports the error, that the five states, written as a recursion, do; what they accept is told by AcceptedExactly |
| `HStoreGrammar.AcceptedExactly` | piecemaker2/postgresql-9.2.4/contrib/hstore/hstore_io.c:53-274 | A text is accepted as given pairs if and only if it is written by a grammar of entries, separated by commas, of quoted and bare words, with escapes and white space, and stands for these pairs |
| `HStoreGrammar.Unambiguous` | piecemaker2/postgresql-9.2.4/contrib/hstore/hstore_io.c:53-274 | However a text is taken apart by the grammar, it stands for the same pairs |
| `HStoreGrammar.ReprintFixed` | piecemaker2/postgresql-9.2.4/contrib/hstore/hstore_io.c:177-274 | A store read from any text is read again, identical, from the text it prints as |
| `HStoreText.HstoreIn` | piecemaker2/postgresql-9.2.4/contrib/hstore/hstore_io.c:399-417 | Input is parsing, dropping duplicate keys and packing; in the result each key is shorter than any later one, or as long and smaller at the first byte that differs |
| `HStoreText.InputHolds` | piecemaker2/postgresql-9.2.4/contrib/hstore/hstore_io.c:306-417 | The store holds only pairs that were read, in that order of keys |
| `HStoreText.InputComplete` | piecemaker2/postgresql-9.2.4/contrib/hstore/hstore_io.c:306-417 | It holds one for each key that was read |
| `HStoreGrammar.TextIsPrinted` | piecemaker2/postgresql-9.2.4/contrib/hstore/hstore_io.c:1126-1173 | The printed text is that text of the grammar in which every key and value is quoted with exactly its quotes and backslashes escaped, => has no blanks, a comma and a blank stand between entries, and a missing value is a bare NULL |
| `HStoreGrammar.EscapedLength` | piecemaker2/postgresql-9.2.4/contrib/hstore/hstore_io.c:1086-1098 | An escaped string is longer by its number of quotes and backslashes |
| `HStoreText.Cpw` | piecemaker2/postgresql-9.2.4/contrib/hstore/hstore_io.c:1086-1098 | Copies with a backslash before each quote and backslash, within twice the length |
| `HStoreText.RoomIsInt` | piecemaker2/postgresql-9.2.4/contrib/hstore/hstore_io.c:1100-1125 | The buffer size computed for any store is less than 2^31, so the int does not wrap |
| `HStoreText.HstoreOut` | piecemaker2/postgresql-9.2.4/contrib/hstore/hstore_io.c:1100-1173 | Output is the text of the pairs, shorter than the buffer whose size was computed first; it fails exactly when that size exceeds the largest allocation |
| `HStoreText.PrintParse` | piecemaker2/postgresql-9.2.4/contrib/hstore/hstore_io.c:1100-1173 | Reading the text of a well-formed store gives back the identical store if and only if no key or value has a NUL; otherwise the text is rejected |
| `HStoreText.ValueReads` | piecemaker2/postgresql-9.2.4/contrib/hstore/hstore_io.c:240-249 | A quoted value is never taken for a missing one, even the string NULL |
| `HStoreCompat.RawStore.HstoreValidOldFormat` | piecemaker2/postgresql-9.2.4/contrib/hstore/hstore_compat.c:170-228 | Nonzero exactly for valid stores of the old format, 2 exactly when there is no slack |
| `HStoreOld.ValidOldExactly` | piecemaker2/postgresql-9.2.4/contrib/hstore/hstore_compat.c:170-228 | A store with items is a valid old one if and only if it is the old layout, with both 16-bit lengths, NULL bit and start position, of some pairs whose key lengths do not decrease, and has room for it |
| `HStoreOld.ValidOfLayout` | piecemaker2/postgresql-9.2.4/contrib/hstore/hstore_compat.c:170-228 | On the old layout of pairs with keys in order the answer is 2 when the size is exact and 1 with slack |
| `HStoreOld.LaidPairs` | piecemaker2/postgresql-9.2.4/contrib/hstore/hstore_compat.c:99-106 | The old accessors read back exactly the pairs that were laid out |
| `HStoreCompat.RawStore.UpgradeInPlace` | piecemaker2/postgresql-9.2.4/contrib/hstore/hstore_compat.c:322-352 | Overwriting the entries of any valid old store in place gives the layout of the same keys, values and NULL flags in the same order |
| `HStoreCompat.UpgradedIsWellFormed` | piecemaker2/postgresql-9.2.4/contrib/hstore/hstore_compat.c:333-352 | It decodes to those pairs, and is a proper store exactly when the old keys were strictly sorted |
| `HStoreCompat.FastPathTakesOld` | piecemaker2/postgresql-9.2.4/contrib/hstore/hstore_compat.c:242-246 | A short valid old store is mistaken for a new one exactly when its first value is NULL with a stored length of 32768 or more |
| `HStoreCompat.FastPathMisreads` | piecemaker2/postgresql-9.2.4/contrib/hstore/hstore_compat.c:242-246 | Its first value, which is NULL, then reads as a string |

## Left out

- Levenshtein.LevenshteinLessEqualInternal: says nothing about negative costs together with a bound of 0 or more, for which residual distances are no lower bounds.
- Edit.Distance: costs and distances are unbounded integers; int overflow for huge cost arguments is not modelled.
- Multibyte characters in `levenshtein.c` and in the text instance of btree_gist: characters are abstract, and keys are the byte strings of the bytea instance.
- VarKey.Insert: page splits during insertion are not part of it; what a split does to a sound page is PicksplitSound, IntSplit.PicksplitSound for integer arrays.
- Penalty functions of all index classes (floating point); the subtree an insertion takes is arbitrary instead.
- The limit on recursion depth (`check_stack_depth`), buffer growth (`RESIZEBUF`, `RESIZEPRSBUF`) and release of memory.
- The message for an empty query in `bqarr_in`, which cannot be reached: an empty text is a syntax error before.
- QueryItems.Execute: a wrapped link that does not lead back to an earlier item is answered None, which counts as wrong; the program would leave the query, evaluate an item that belongs to another operand, or not return.
- RangeKey.GIntDecompress: what the program does after writing behind the end of the array is not modelled; such a run ends as Overrun.
- IntGist.SearchExact: arrays of 200 elements or more stored in leaves are read back as ranges by the program after a notice; leaves are taken as they were given.
- The remaining functions of `intarray` (array operators, `_intbig_gist.c` except the acceptance of signatures), which follow the same patterns.
- IntSplit.GIntPicksplit: the sentinel written behind both offset lists is not modelled; that a crowded page is refused is not claimed, only that no other is.
- LTree.LtreeUnion: the flag that leaves out a right node equal to the left one is a matter of storage; both nodes are kept.
- LTree.LtreeConsistent: a pattern is the set of paths it matches, each of which starts with the literal levels and has a matching name for every level that is neither a star nor negated, since `checkCond` is not part of this model. An array of patterns with NULLs or several dimensions, which is an error, is not modelled.
- ltxtquery of ltree: its compiler is the intarray one with the item order reversed and a stack of 32 operators; text queries are expressions here, so the width of its links does not show.
- Picksplit of ltree and btree_gist for inner pages of text keys.
- HStoreBuilder.Builder: an entry and a character each take one cell of memory; entries are not spelled out as four bytes.
- HStoreFormat.EndPos: flags and position of an entry are taken apart by arithmetic rather than bit masks.
- HStorePairs.UniqueKeeps: which of several pairs with one key survives is left open, as the sort leaves it open.
- HStoreText.HSParser: white space is that of the C locale, and error positions are not reported.
- HStoreGrammar.AcceptedExactly: says which texts are accepted, not which error a rejected text gets; that is ParseHstore's description.
- `hstoreValidNewFormat` and the choice between two valid readings in `hstoreUpgrade`; only the old format's check, its fast path and the conversion are modelled.
- The remaining operators of hstore (conversion to arrays and records, GIN and GiST support, binary input and output).
- The application's own headers and scripts, the other contrib modules, and the fmgr interface between functions and the server.
