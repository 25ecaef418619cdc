# pdf2data table engine in Dafny

A model of the table-reconstruction core of `pdf2data/pdf.py`. The text lines
of a PDF page (`TextLine`: text, font name and bounding box) are grouped by
one coordinate (`get_attr_lookup`), searched with patterns
(`find_lines_with`, `find_attr_group_matching`), and assembled into a table
whose rows are dicts from header text to the line found under that header
(`find_table`, `find_row_table`, `find_col_table`). Consecutive rows whose
extents overlap can then be folded into one (`merge_overlapping_rows`).

Every Python exception of the core is an `Error` constructor in a `Result`:
- `GroupNotFound` and the `RuntimeError` for an ambiguous group;
- the `ValueError`s for a duplicate key, an unrecognised heading bias and `min`/`max` of nothing;
- the `AssertionError` of `overlap` and `find_table`;
- the `TypeError` that builtin `min`/`max` raise when two `(number, TextLine)` tuples tie on the number and the `TextLine`s must be compared;
- the `TypeError` of `"Bold" in None`.

Modules, one concept each:
- `Errors`: the error kinds, `Option`, `Result`.
- `TextLines`: `TextLine`, the coordinate attributes, `__str__` and `copy`.
- `Geometry`: `overlap`.
- `Lookup`: `get_attr_lookup`, `find_lines_with` and `find_attr_group_matching`.
  - `get_attr_lookup` and `find_lines_with` each have a reference function and a loop method proved equal to it. Lemmas show the grouping is a partition of the lines, and that each group and the list of matches keep the input order.
  - `find_attr_group_matching` has no loop. Its comprehension has the reference function `Qualifying`. The function itself is specified directly: it returns the value that is present and whose lines match every pattern, and each of its two errors is characterised in both directions.
- `Selection`: builtin `min`/`max` over keyed items, as the scan Python runs with its tie behaviour, and `sorted` with a key as a stable insertion sort.
- `Seqs`: distinctness and picking positions.
- `Rows`: a row dict as a `Row` object whose `entries` map the methods update in place.
- `Table`: the header choice for one line, the reference function `BuiltTable`, and the imperative builder `FindTable` with its two fixed-axis variants.
- `TableShape`: what a built table holds. It fails exactly when some cluster has a line without a header or two lines under one header. Each line is stored once, under the header it chose, in the row of its cluster, and the rows come in cluster order.
- `Merge`: `get_row_extent` and `merge_overlapping_rows`. The method updates the caller's `Row` objects in place and is proved against the reference fold `MergeRows`.
- `MergeFacts`: what the fold guarantees.
  - Nothing is lost, and later values win.
  - The output is no longer than the input.
  - The rows come back unchanged exactly when no neighbours overlap.
  - Which rows cause an error.

Coordinates are `real`. An attribute name is one of `X0`, `Y0`, `X1`, `Y1`. A
regular expression is an abstract value `P` searched through a function
parameter `search: (P, string) -> Option<M>`, which stands for
`regex.search(text)`.

## Model

| member | source | states |
|---|---|---|
| TextLines.Str | pdf2data/pdf.py:138-142 | rendering fails (TypeError) exactly when the font name is None; a bold font wraps the text in one asterisk on each side, any other font gives the text itself |
| TextLines.Copy | pdf2data/pdf.py:147-151 | a copy keeps font and bounding box, takes the new text when one is given, and equals the original when none is |
| TextLines.CopyKeepsMarking | pdf2data/pdf.py:138-151 | a copy with new text is rendered bold exactly when the original is |
| Geometry.Overlap | pdf2data/pdf.py:219-225 | the overlap is never negative |
| Geometry.OverlapPositive | pdf2data/pdf.py:219-225 | the overlap is positive exactly when both intervals have positive length and each starts before the other ends |
| Geometry.OverlapLength | pdf2data/pdf.py:219-225 | the overlap is at most either interval's length; it is the inner interval's length under containment, the shared stretch under partial overlap, and zero for touching or disjoint intervals |
| Geometry.OverlapSymmetric | pdf2data/pdf.py:219-225 | for well-formed intervals the overlap does not depend on their order |
| Lookup.MatchingLinesSpec | pdf2data/pdf.py:228-240 | a line is kept exactly when the pattern is found in its text; no more lines than the input |
| Lookup.MatchingLinesInOrder | pdf2data/pdf.py:236-239 | the matching lines keep their input order |
| Lookup.FindLinesWith | pdf2data/pdf.py:228-240 | the loop returns the matching lines in input order, each paired with the match found in its text |
| Lookup.AttrLookup | pdf2data/pdf.py:243-259 | the dict's keys are exactly the recorded key order |
| Lookup.TracksSnoc | pdf2data/pdf.py:257-258 | one `setdefault(...).append` keeps the dict equal to the grouping of the lines read so far, adding a key only for a new value |
| Lookup.LookupOfTracked | pdf2data/pdf.py:243-259 | a dict that holds each value's group, and only those keys, is the lookup |
| Lookup.GetAttrLookup | pdf2data/pdf.py:243-259 | the loop builds exactly the reference lookup |
| Lookup.ValuesOfSpec | pdf2data/pdf.py:243-259 | the keys are distinct and are exactly the attribute values present among the lines |
| Lookup.GroupSpec | pdf2data/pdf.py:243-259 | a group holds exactly the lines whose attribute equals its key |
| Lookup.GroupInOrder | pdf2data/pdf.py:256-258 | a group keeps its lines in input order |
| Lookup.GroupAbsent | pdf2data/pdf.py:243-259 | a value that is not a key has no lines |
| Lookup.ConcatSnoc | pdf2data/pdf.py:243-259 | one more line adds it exactly once to the groups of distinct keys that include its value |
| Lookup.ConcatValues | pdf2data/pdf.py:243-259 | the groups of all keys, end to end, are a permutation of the lines |
| Lookup.AttrLookupPartition | pdf2data/pdf.py:243-259 | every key maps to its group, and the groups together are a permutation of the input lines |
| Lookup.LineInOwnGroup | pdf2data/pdf.py:243-259 | every line is in the group of its own attribute value |
| Lookup.Qualifying | pdf2data/pdf.py:282-289 | a value is kept exactly when it is a key whose group has a line matching every pattern; distinct keys give distinct results |
| Lookup.AllFoundInGroup | pdf2data/pdf.py:284-289 | the comprehension's test on a group means every pattern is found in some line with that attribute value |
| Lookup.QualifyingSpec | pdf2data/pdf.py:281-289 | the candidates are distinct and are exactly the values present whose lines match every pattern |
| Lookup.FindAttrGroupMatching | pdf2data/pdf.py:262-297 | returns the unique matching value; GroupNotFound exactly when no value matches, the RuntimeError exactly when two distinct values match |
| Selection.Scan | pdf2data/pdf.py:370-376 | when the scan starts from a strict best, it raises (TypeError) exactly when some later key equals the best key before it; a result strictly beats every other key; distinct keys never tie |
| Selection.ArgMin | pdf2data/pdf.py:398-400 | `min` fails on nothing (ValueError) exactly for an empty input, and raises TypeError exactly when some key equals the smallest key before it; a result is strictly below every other key; distinct keys always give a result |
| Selection.ArgMax | pdf2data/pdf.py:382-385 | `max` fails on nothing exactly for an empty input, and raises TypeError exactly when some key equals the largest key before it; a result is strictly above every other key; distinct keys always give a result |
| Selection.ArgMinTieExamples | pdf2data/pdf.py:370-376 | over distances [3, 0, 3] `min` returns the middle entry, over [3, 3, 0] it raises although the last is strictly smallest; over [1, 3, 1] `max` returns the middle entry |
| Selection.ArgMinAscending | pdf2data/pdf.py:398-400 | over non-decreasing keys `min` takes the first, and raises exactly when the second equals it |
| Selection.ArgMaxAscending | pdf2data/pdf.py:382-385 | over non-decreasing keys `max` takes the last when they strictly increase, and raises otherwise |
| Selection.Insert | pdf2data/pdf.py:339 | inserting adds exactly one element |
| Selection.InsertSorted | pdf2data/pdf.py:339 | insertion keeps a key-sorted list sorted |
| Selection.SortBy | pdf2data/pdf.py:339 | `sorted(key=...)` returns a key-sorted permutation of its input |
| Selection.SortByStable | pdf2data/pdf.py:339 | the sort is stable: elements with equal keys keep their input order |
| Selection.SortByDistinct | pdf2data/pdf.py:339 | sorting a list without repeats gives one without repeats |
| Table.OverlapIndices | pdf2data/pdf.py:354-363 | `possible_headers` lists only headers the line overlaps |
| Table.OverlapIndicesIncreasing | pdf2data/pdf.py:354-363 | `possible_headers` keeps the headers' order |
| Table.OverlapIndicesEmpty | pdf2data/pdf.py:361-365 | `possible_headers` is empty only when the line overlaps no header |
| Table.OverlapPosition | pdf2data/pdf.py:354-363 | every overlapped header is in `possible_headers` |
| Table.FallbackHeader | pdf2data/pdf.py:365-389 | the fallback is the text of some header, fails only with the bias, empty or tie errors, and rejects exactly the biases other than "centered" and "min" |
| Table.LeftmostHeader | pdf2data/pdf.py:395-401 | the choice among several overlapped headers is one of their texts, or an empty or tie error |
| Table.ChooseHeader | pdf2data/pdf.py:354-401 | the key is some header's text; the bias error arises only when the line overlaps no header and the bias is unknown |
| Table.ChooseNoOverlap | pdf2data/pdf.py:365-389 | a line that overlaps no header gets the bias-driven fallback |
| Table.ChooseOneOverlap | pdf2data/pdf.py:391-393 | a line that overlaps exactly one header gets that header's text, whatever the bias |
| Table.ChooseSeveralOverlaps | pdf2data/pdf.py:395-401 | with several overlapped headers, sorted by column start, the key is the text of the one starting strictly first; it raises (tie) exactly when no single one does |
| Table.LeftmostHeaderSorted | pdf2data/pdf.py:395-401 | over sorted headers `min` takes the first overlapped one unless the second starts at the same place |
| Table.FirstOverlapLeftmost | pdf2data/pdf.py:395-401 | the first overlapped header is strictly leftmost exactly when the second starts after it |
| Table.FallbackCentered | pdf2data/pdf.py:368-377 | under "centered", no headers gives the empty error; TypeError exactly when some header's centre distance equals the smallest distance before it; a result is the header whose centre is strictly nearest; distinct distances always give a result |
| Table.FallbackMinLast | pdf2data/pdf.py:379-386 | under "min", over sorted headers, `max` takes the last header starting at or before the line, and raises on a shared start |
| Table.FallbackMin | pdf2data/pdf.py:379-386 | under "min": the empty error exactly when every header starts after the line; the tie error exactly when two such headers share a start; otherwise the header starting last at or before the line |
| Table.LeftStrict | pdf2data/pdf.py:379-386 | the candidates' starts strictly increase exactly when no two candidates share a start |
| Table.ChooseBias | pdf2data/pdf.py:365-401 | the bias matters only for a line that overlaps no header, and an unknown bias is then rejected |
| Table.LineKey | pdf2data/pdf.py:348-401 | a line with `lmin > lmax` fails the assertion exactly; any other error is a header-choice error; a result is a header's text |
| Table.RowKeysMembers | pdf2data/pdf.py:343 | the clusters are visited once per key, with no key added or lost |
| Table.RowKeysOrder | pdf2data/pdf.py:343 | distinct cluster keys are visited in descending order under `reverse_sort` and ascending otherwise |
| Table.BuildRowStep | pdf2data/pdf.py:403-406 | one more line is stored under its key, or its key error or the duplicate-key error ends the row |
| Table.BuildRowPrefixErr | pdf2data/pdf.py:347-406 | once a line of a cluster raises, the whole cluster fails with that error |
| Table.FillRow | pdf2data/pdf.py:345-406 | the inner loop yields a fresh row equal to the reference row of the cluster, or its error |
| Table.FillRows | pdf2data/pdf.py:343-406 | the outer loop yields fresh, distinct rows equal to the reference rows of the visited clusters, or the first error |
| Table.FindTable | pdf2data/pdf.py:335-408 | `find_table` succeeds exactly when the reference table does, fails with its error, and returns fresh distinct rows holding the reference contents |
| Table.FindRowTable | pdf2data/pdf.py:411-417 | `find_row_table` is `find_table` with rows clustered by `y0`, columns by `x`, visited top first |
| Table.FindColTable | pdf2data/pdf.py:419-425 | `find_col_table` is `find_table` with rows clustered by `x0`, columns by `y`, visited left first |
| TableShape.BuildRowOk | pdf2data/pdf.py:347-406 | a built row has one entry per line, each line under its own key, and no other keys |
| TableShape.BuildRowOkIff | pdf2data/pdf.py:347-406 | a cluster builds exactly when every line finds a header and no two lines find the same one |
| TableShape.BuildRowErr | pdf2data/pdf.py:347-406 | a failed cluster fails with the error of a line that finds no header, or with the duplicate-key error for a header found twice |
| TableShape.TableRowsOk | pdf2data/pdf.py:343-406 | the table builds exactly when every cluster does, with one row per cluster, each that cluster's row |
| TableShape.TableRowsErr | pdf2data/pdf.py:343-406 | a failed table fails with the error of the first cluster that fails |
| TableShape.TableOkIff | pdf2data/pdf.py:335-408 | `find_table` succeeds exactly when, in every cluster, each line finds a header and no two find the same one |
| TableShape.TableErr | pdf2data/pdf.py:335-408 | a failure is an assertion, bias, empty or tie error, or a duplicate key that two lines of one cluster found |
| TableShape.RowsCover | pdf2data/pdf.py:343-406 | every line of a visited cluster is stored in some row |
| TableShape.ConcatCovers | pdf2data/pdf.py:343-406 | groups of distinct keys that cover every line's value hold every line exactly once |
| TableShape.RowsShape | pdf2data/pdf.py:343-406 | each row holds as many entries as its cluster has lines, each a line of that cluster stored under its own key |
| TableShape.KeyIsHeaderText | pdf2data/pdf.py:339-401 | a key is the text of one of the headers given |
| TableShape.TableEntries | pdf2data/pdf.py:335-408 | one row per cluster, each as large as its cluster, and each entry is a line of that cluster stored under the header text it chose |
| TableShape.TableOrder | pdf2data/pdf.py:343 | rows appear in cluster order: descending row coordinate under `reverse_sort`, ascending otherwise |
| TableShape.TableStoresEachLine | pdf2data/pdf.py:335-408 | every input line is stored, and the entries number exactly the input lines |
| Merge.Extent | pdf2data/pdf.py:301-304 | `get_row_extent` fails (`min` of nothing) exactly on a row without lines |
| Merge.ExtentIsExtent | pdf2data/pdf.py:301-304 | the extent's ends are attained by lines of the row and bound all of them |
| Merge.ExtentUnique | pdf2data/pdf.py:301-304 | a span attained by the row's lines and bounding all of them is the extent |
| Merge.RowExtent | pdf2data/pdf.py:301-304 | one pass over the row computes exactly the extent, or its error |
| Merge.ErrSticks | pdf2data/pdf.py:314-328 | once the loop has raised, later prefixes raise the same error |
| Merge.PrefixStep | pdf2data/pdf.py:316-328 | a failed comparison in any pass ends the whole merge with that error; its other clauses are the fold's own step, spelled out for the loop proof |
| Merge.RowsOverlap | pdf2data/pdf.py:316-321 | the comparison computes both extents, asserts the next one is well-formed, and tests the overlap |
| Merge.RunStartsSpec | pdf2data/pdf.py:311-328 | a row is listed as starting a run exactly when it is the first row or the loop reached it without error and found it not to overlap the current row |
| Merge.MergeStep | pdf2data/pdf.py:314-328 | one pass, in place, keeps the loop state in step with the reference fold, or fails with the reference error |
| Merge.MergeOverlappingRows | pdf2data/pdf.py:300-332 | the result's contents are the reference fold of the input contents, or its error; no rows gives the same empty list back; a result is exactly the input row objects that start a run (`RunStarts`), in input order, each extended in place by the rest of its run; a row folded into another one keeps its own entries |
| MergeFacts.MergeKeepsUnion | pdf2data/pdf.py:300-332 | the merged rows together hold exactly the input's entries, a later row's line winning under a shared header |
| MergeFacts.PrefixUnion | pdf2data/pdf.py:314-328 | along the loop, the emitted rows plus the current row hold the union of the rows read |
| MergeFacts.MergeLength | pdf2data/pdf.py:300-332 | no rows give no rows; otherwise at least one and never more rows than the input |
| MergeFacts.PrefixLength | pdf2data/pdf.py:314-328 | along the loop, at most one row is emitted per row read after the first |
| MergeFacts.MergeSeparated | pdf2data/pdf.py:300-332 | the rows come back unchanged and in order exactly when no row's extent overlaps the previous row's |
| MergeFacts.PrefixSeparated | pdf2data/pdf.py:314-328 | with no overlaps so far, every row read but the last has been emitted unchanged |
| MergeFacts.PrefixUnfolded | pdf2data/pdf.py:314-328 | when one row was emitted per row read after the first, no neighbours overlapped |
| MergeFacts.PrefixCovers | pdf2data/pdf.py:314-328 | the current row holds every header of the last row read |
| MergeFacts.ExtentFailsOnEmpty | pdf2data/pdf.py:301-304 | the extent fails exactly on a row without lines, with the error of `min` of nothing |
| MergeFacts.OverlapsError | pdf2data/pdf.py:316-321 | a failed comparison is `min` of nothing on a row without lines, or the assertion on an inverted next row |
| MergeFacts.PrefixError | pdf2data/pdf.py:314-328 | a loop that has raised blames a row without lines, or a row after the first whose extent is inverted |
| MergeFacts.MergeError | pdf2data/pdf.py:300-332 | a failed merge blames a row without lines, or a row after the first whose extent is inverted |
| MergeFacts.MergeSucceeds | pdf2data/pdf.py:300-332 | rows that all hold lines, none after the first inverted, merge without error |

## Left out

- `PageIterator`, `gather_text` and `print_pdf_outline`: PDF parsing and printing through pdfminer, which is outside this model.
- `pdf2data/data.py`, `example/demo.py` and `setup.py` are not part of this model.
- Regular expressions: a pattern is an abstract value with a `search` function parameter. Compiling a string pattern is not modelled.
- Floating point: coordinates and the centre `(lmin+lmax)*0.5` are exact reals, so rounding is not modelled.
- Attribute lookup by name: only the four coordinates `x0`, `y0`, `x1`, `y1` can be grouped or sorted on.
- Dict key order: a row dict is a `map` from header text to line, so the order in which Python's dict keeps its keys is not modelled. `row.update` keeps existing keys in place and appends new ones, and `find_table` inserts keys in line order. The `get_attr_lookup` dict is different: it keeps its first-seen key order in `AttrDict.keys`.
- `TextLine.__repr__` is not modelled; it only wraps `__str__`.
- Python's `min`/`max` identity shortcut: when the same header object appears twice, Python compares them without a TypeError. The model treats every tie as a TypeError.
- Merge.MergeOverlappingRows: requires the input rows to be distinct objects. A row object listed twice, which Python would update through both references, is not modelled.
- Merge.MergeOverlappingRows: on an error the contract states only the error. The partly updated row dicts left behind by the exception are not described.
- Merge.RowExtent: scans a row's dict once, computing `min` and `max` together, in an unspecified key order. Python makes two passes in dict order; the results are equal because `min` and `max` of numbers do not depend on order.
- Table.FillRow: the row object is created and filled before it is appended, whereas Python appends the empty dict first. Nothing else holds the list meanwhile, so the result is the same.
- Table.FindTable: the list of rows built before an exception is not described, because Python discards it.
