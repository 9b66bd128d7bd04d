# CSV filter and projection pipeline, modelled in Dafny

This project models the pure core of `dependencies/csv_processor.py`, the
Python module behind the `processCsv` / `processCsvFile` C library. It is
one pipeline, `process_csv_data`:

1. The CSV text is split into lines. The first line is the header, and the rest are data rows.
2. The row-filter string is parsed into `(header, operator, value)` triples,
   one per `\n`-separated line, using the pattern `(\w+)([<>=!]+)(.*)`
   (`parse_filters`).
3. Every selected column name is checked against the header. The empty
   selection means the whole header.
4. The selected names are looked up with `headers.index` and the resulting
   positions are **sorted**.
5. Each data row is kept when every filter holds (`apply_filters`). Each filter
   is a plain string comparison against the cell in the named column of the
   **full** input header.
6. The header and the kept rows are projected through the sorted positions.
   They are written out with `,` between fields and `\n` between rows, with
   no newline at the end.

The model follows the code. Four consequences differ from how the library
is sometimes described:

- The output columns appear in header order, whatever order they were
  requested in.
- Equality is written `=`. `==`, `=>` and `=<` match the pattern but are not
  operators, so evaluating them is an error.
- `>`, `<`, `>=` and `<=` compare strings lexicographically, so `"10" < "9"`.
- A filter may name a column that is not selected.

The errors the model covers are each a `Failure` of one `Result` type:
- `sys.exit(1)` after an invalid filter line, a missing selected header or
  an invalid operator;
- the `StopIteration`, `ValueError` and `IndexError` it lets escape.

Errors that `csv.reader` itself raises are not modelled, for example
`_csv.Error` for a field longer than its field size limit (see "Left out").

Errors are produced in the source's order:
1. empty text, which has no header row to read;
2. then the filter lines;
3. then the selected names;
4. then, row by row, the filters, stopping at the first one that does not hold;
5. only then the projection.

Because `apply_filters` stops at the first failing filter, a bad operator or
unknown header after a rejecting filter is never noticed. The same holds
when there are no data rows at all.

Modules:

| file | module | contents |
|---|---|---|
| `wrappers.dfy` | `Wrappers` | `Option`, `Result`, and the error kinds |
| `strings.dfy` | `Strings` | `str.split` / `str.join` on one separator, and their round trips |
| `lexicographic.dfy` | `Lexicographic` | Python's ordering of `str` values, and its order laws |
| `csv_table.dfy` | `CsvTable` | Reading the text into a header and rows, writing records back, `list.index` |
| `filters.dfy` | `FilterLanguage` | The filter-line parser, the six comparisons, `apply_filters` |
| `sorting.dfy` | `Sorting` | `list.sort()` on positions, and the uniqueness of sorted order |
| `processor.dfy` | `CsvProcessor` | Selection, index lookup, filtering, projection, `process_csv_data` |
| `properties.dfy` | `ProcessorProperties` | Whole-pipeline properties |
| `scenarios.dfy` | `Scenarios` | The C test suite's five expected outputs, two error cases of the module's demo block, and a filter on an unknown column |

The file-based tests read `data.csv`, which is not part of this model. Its
content is taken to be the text that `test_processCsvFile_no_filter` expects
back unchanged (`test_libcsv.c:88`).

## Model

| member | source | states |
|---|---|---|
| Strings.Split | dependencies/csv_processor.py:44 | `str.split(sep)`: at least one piece, and no piece contains the separator |
| Strings.JoinSplit | dependencies/csv_processor.py:44 | Joining the pieces of a split with the same separator gives back the original string |
| Strings.SplitJoin | dependencies/csv_processor.py:95-96 | Splitting a join of one or more separator-free pieces gives back exactly those pieces |
| Strings.SplitEndsEmpty | dependencies/csv_processor.py:44 | A string ending in the separator splits into at least two pieces, and the last piece is empty |
| Strings.Join | dependencies/csv_processor.py:116 | `sep.join(parts)`: no parts give the empty string; otherwise the result starts with the first part, followed by the separator when there are more parts |
| Strings.JoinAppend | dependencies/csv_processor.py:116 | Joining two non-empty lists back to back is joining each list and putting one separator between them |
| Lexicographic.LessIffFirstDifference | dependencies/csv_processor.py:61-66 | The string order used by `>` and `<` agrees with the reference definition. That definition: the strings agree up to a first difference where the left character is smaller, or the left string is a proper prefix of the right |
| Lexicographic.Irreflexive | dependencies/csv_processor.py:64-66 | No string is smaller than itself |
| Lexicographic.Asymmetric | dependencies/csv_processor.py:61-66 | Two strings are never each smaller than the other |
| Lexicographic.Trichotomy | dependencies/csv_processor.py:61-72 | Any two strings are equal, or one is smaller: the order is total |
| Lexicographic.Transitive | dependencies/csv_processor.py:61-66 | The string order is transitive |
| Lexicographic.ProperPrefixIsLess | dependencies/csv_processor.py:64-66 | A proper prefix sorts before the longer string |
| Lexicographic.DigitsAreNotNumbers | dependencies/csv_processor.py:61-63 | Digit strings are compared as text: `"10"` sorts before `"9"` |
| CsvTable.SplitLines | dependencies/csv_processor.py:89 | `splitlines()`: no line contains a newline, and there are no lines exactly when the text is empty |
| CsvTable.JoinSplitLines | dependencies/csv_processor.py:89 | Splitting into lines drops exactly the newline that ends the text, if there is one: the lines joined with `\n`, plus that newline, are the text |
| CsvTable.SplitLinesJoin | dependencies/csv_processor.py:89 | Newline-free lines, the last of them non-empty, come back unchanged from joining and splitting |
| CsvTable.ParseRecord | dependencies/csv_processor.py:89-91 | The fields `csv.reader` yields for an unquoted line contain no comma |
| CsvTable.RenderRecord | dependencies/csv_processor.py:116 | `','.join(row)`: a record whose fields hold no newline is written as a single line |
| CsvTable.ParseRenderRecord | dependencies/csv_processor.py:116 | A record of plain fields (no comma, no `"`, no character `splitlines` ends a line at), written with `','.join` and read back, is the same record |
| CsvTable.RenderRecordHasNoNewline | dependencies/csv_processor.py:116 | A written record contains a newline only if one of its fields does |
| CsvTable.RenderLines | dependencies/csv_processor.py:116 | One output line per record, line `k` being record `k` written with commas |
| CsvTable.Render | dependencies/csv_processor.py:116 | `'\n'.join(...)` of the written records: when no field holds a newline, the text splits on `\n` into exactly one written line per record |
| CsvTable.ParseTable | dependencies/csv_processor.py:89-91 | Reading fails, with no header row, exactly when the text is empty. Otherwise there is one data row per line after the first |
| CsvTable.ParseRenderTable | dependencies/csv_processor.py:89-91 | A header and rows of plain fields, written out and read back, give the same table |
| CsvTable.IndexOf | dependencies/csv_processor.py:58 | `list.index`: the position holds the value, and no earlier position does |
| FilterLanguage.RunLength | dependencies/csv_processor.py:45 | A greedy run: the prefix is all from the class, and the next character is not |
| FilterLanguage.RunLengthIs | dependencies/csv_processor.py:45 | The greedy run is unique: a class run followed by a non-class character has exactly that length |
| FilterLanguage.ParseFilterLine | dependencies/csv_processor.py:45-48 | A parsed line is the greedy match of `(\w+)([<>=!]+)(.*)`: header, operator and value rebuild the line; the header is a maximal word run and the operator a maximal operator run |
| FilterLanguage.ParseFilterLineAccepts | dependencies/csv_processor.py:45-46 | A line parses exactly when the pattern can match it at its start with some split of the groups |
| FilterLanguage.ParseFilterLineFindsGreedyMatch | dependencies/csv_processor.py:45-48 | Whenever a greedy match exists, the parser returns exactly it |
| FilterLanguage.FilterLineRoundTrip | dependencies/csv_processor.py:45-48 | Parsing then rewriting gives the line back. Rewriting a greedily matchable filter then parsing gives the filter back |
| FilterLanguage.ParseEach | dependencies/csv_processor.py:44-51 | The parse loop succeeds exactly when every line parses, with one value per line in order. Otherwise it reports the first rejected line |
| FilterLanguage.ParseFilterLines | dependencies/csv_processor.py:44-51 | One filter per line, in line order, when every line matches the pattern. Otherwise the error names the first line that does not |
| FilterLanguage.ParseFilterLinesReportsFirst | dependencies/csv_processor.py:44-51 | If line `k` is the first line that is not a filter, the result is exactly that line's error |
| FilterLanguage.ParseFilters | dependencies/csv_processor.py:41-52 | The empty string gives no filters. Otherwise, with the lines being the string's `\n`-separated pieces: success means every line is a filter, with one filter per line, each the greedy pattern match of its line; failure names the first line that is not a filter. No parsed filter contains a newline |
| FilterLanguage.TrailingNewlineRejected | dependencies/csv_processor.py:43-51 | A filter string that ends in a newline always fails, because its last line is empty and an empty line is not a filter |
| FilterLanguage.ParseFiltersRoundTrip | dependencies/csv_processor.py:41-52 | Any list of greedily matchable filters whose values contain no newline, the empty list included, written one per line, parses back to the same list |
| FilterLanguage.OperatorOf | dependencies/csv_processor.py:61-83 | An operator run names a comparison exactly when it is one of `>`, `<`, `=`, `!=`, `>=`, `<=`. The comparison's symbol is the run itself |
| FilterLanguage.OperatorOfSymbol | dependencies/csv_processor.py:61-78 | Each of the six comparisons is named by its own symbol |
| FilterLanguage.EqualityIsSingleEquals | dependencies/csv_processor.py:67-83 | `=` is equality. `==`, `=>` and `=<` name no comparison |
| FilterLanguage.Holds | dependencies/csv_processor.py:61-78 | `cell <op> value`: `<` and `>` hold exactly when the reference first-difference order puts the smaller string first, `>=` and `<=` exactly when the opposite strict order does not, `=` and `!=` by string equality |
| FilterLanguage.ComparisonLaws | dependencies/csv_processor.py:61-78 | Exactly one of `<`, `=`, `>` holds. `>=` is `>` or `=`, `<=` is `<` or `=`, and `!=` is not `=` |
| FilterLanguage.ComparisonIsNotNumeric | dependencies/csv_processor.py:61-66 | `"10" > "9"` is false and `"10" < "9"` is true |
| FilterLanguage.ApplyFilters | dependencies/csv_processor.py:55-84 | A row is accepted exactly when every filter names a header column the row reaches, uses one of the six operators, and holds |
| FilterLanguage.ApplyFiltersOutcome | dependencies/csv_processor.py:55-84 | A row is rejected exactly when the first filter that does not hold is evaluable. An error is the one that first filter raises: unknown header, then short row, then invalid operator |
| FilterLanguage.NoFiltersAcceptEverything | dependencies/csv_processor.py:57-84 | The empty filter list accepts every row |
| Sorting.Insert | dependencies/csv_processor.py:104 | Inserting into a sorted list keeps it sorted and adds exactly the one element |
| Sorting.Sort | dependencies/csv_processor.py:104 | `list.sort()`: the result is sorted and a permutation of the input |
| Sorting.SortedUnique | dependencies/csv_processor.py:104 | Two sorted lists with the same elements are equal |
| Sorting.SortKeepsSorted | dependencies/csv_processor.py:104 | Sorting an already sorted list changes nothing |
| Sorting.SortIgnoresOrder | dependencies/csv_processor.py:104 | The sorted result depends only on the multiset of elements |
| CsvProcessor.SelectionList | dependencies/csv_processor.py:95-96 | The empty selection is the whole header. Otherwise the names joined with `,` are the selection string, and no name contains a comma |
| CsvProcessor.MissingColumn | dependencies/csv_processor.py:98-101 | No name is reported exactly when every selected name is in the header. Otherwise the first missing name is reported |
| CsvProcessor.Positions | dependencies/csv_processor.py:103 | One position per selected name, each the first header position holding that name |
| CsvProcessor.PositionsCount | dependencies/csv_processor.py:103 | Position `i` occurs once per selected name whose first header occurrence is at `i`, and never otherwise |
| CsvProcessor.PositionsIgnoreOrder | dependencies/csv_processor.py:103 | Selections naming the same columns equally often look up the same multiset of positions |
| CsvProcessor.SelectIndices | dependencies/csv_processor.py:98-104 | Success exactly when every name is in the header. The positions are then sorted, in range, and a permutation of the looked-up positions. Otherwise the error names the first missing name |
| CsvProcessor.Project | dependencies/csv_processor.py:110 | Entry `k` of the projected row is the row's field at position `k` |
| CsvProcessor.FilterRows | dependencies/csv_processor.py:107-109 | Filtering succeeds exactly when every row is tested without error. Every kept row passes the test |
| CsvProcessor.FilterRowsFirstError | dependencies/csv_processor.py:107-109 | A filtering error is the error of the first row whose test fails |
| CsvProcessor.FilterRowsKeepsOrder | dependencies/csv_processor.py:107-109 | The kept rows are the input rows at strictly increasing positions, and a position is among them exactly when its row passes the test |
| CsvProcessor.ProjectRows | dependencies/csv_processor.py:110-111 | Projection succeeds exactly when every row reaches every position; otherwise a short-row error. Each output row is its row at those positions |
| CsvProcessor.Process | dependencies/csv_processor.py:93-114 | A successful run produces the header row and at most one row per data row, every output row as wide as the output header |
| CsvProcessor.Assemble | dependencies/csv_processor.py:105-114 | With filters and sorted positions fixed, a success is the header row and at most one row per data row, every row one field per position |
| CsvProcessor.ProcessCsvData | dependencies/csv_processor.py:87-116 | Empty text fails with no header row |
| ProcessorProperties.ProcessShape | dependencies/csv_processor.py:93-114 | On success, the filters parsed and every selected name is in the header. The output header is the header projected through the sorted positions. Each later output row is an accepted input row projected the same way, in input order, and every accepted row is there. Acceptance is tested against the full input header |
| ProcessorProperties.AssembleShape | dependencies/csv_processor.py:105-114 | With filters and positions fixed, the output is the projected header followed by the projections of exactly the accepted rows, in input order |
| ProcessorProperties.AssembleOutcome | dependencies/csv_processor.py:107-111 | The first row whose filters raise an error fails the run with that error. When every row is tested without error, the run succeeds exactly when every accepted row reaches every position, and fails with a short-row error otherwise |
| ProcessorProperties.RowStageOutcome | dependencies/csv_processor.py:55-111 | With valid filter lines and selected names, the first row whose filters raise an error (unknown header, row too short for a filter's column, invalid operator) fails the run with that error. With no such row, the run succeeds exactly when every accepted row reaches the column of every selected name, and otherwise fails with a short-row error |
| ProcessorProperties.RowStageOutcomeOnText | dependencies/csv_processor.py:87-111 | The same three outcomes for `process_csv_data` on text, for the table the text reads as |
| ProcessorProperties.UnknownFilterHeaderStops | dependencies/csv_processor.py:58 | When the first filter names a column the header lacks and there is a data row, `process_csv_data` fails with that unknown header |
| ProcessorProperties.ErrorPrecedence | dependencies/csv_processor.py:93-101 | An invalid filter line is reported before anything else. With valid filters, the first missing selected name is reported before any row is looked at |
| ProcessorProperties.SelectionOrderIsDiscarded | dependencies/csv_processor.py:95-105 | Two selections naming the same columns equally often, in any order, give the same output. At most they report different missing names |
| ProcessorProperties.FiltersUnevaluatedWithoutRows | dependencies/csv_processor.py:107-109 | With no data rows, success depends only on the filter lines and the selected names. The output is then just the header |
| ProcessorProperties.EmptySelectionKeepsAllColumns | dependencies/csv_processor.py:95-105 | With distinct header names, the empty selection looks up positions 0 to n-1, and projecting the header through them gives it back |
| ProcessorProperties.IndexOfDistinct | dependencies/csv_processor.py:103 | In a header without repeated names, each name is found at its own position |
| ProcessorProperties.SelectionInHeaderOrder | dependencies/csv_processor.py:103-105 | With distinct header names, selecting the names at sorted positions yields those positions again |
| ProcessorProperties.FilterRowsKeepsAll | dependencies/csv_processor.py:107-109 | A test that accepts every row keeps every row |
| ProcessorProperties.FilterRowsByVerdicts | dependencies/csv_processor.py:107-109 | When each row's test succeeds with a known verdict, the kept rows are exactly those with a true verdict, in order |
| ProcessorProperties.EmptyFiltersKeepAllRows | dependencies/csv_processor.py:43-52 | The empty filter string parses to no filters, and no filters keep every row in order |
| ProcessorProperties.ProjectAll | dependencies/csv_processor.py:110 | Projecting a row through all its positions in order gives the row back |
| ProcessorProperties.ProjectAllColumns | dependencies/csv_processor.py:110-111 | Projecting rows of width n through positions 0 to n-1 gives the rows back |
| ProcessorProperties.EmptySelectionAndFiltersKeepTable | dependencies/csv_processor.py:95-114 | With distinct header names and rows as wide as the header, no selection and no filters return the table unchanged |
| ProcessorProperties.EmptySelectionAndFiltersIsIdentity | dependencies/csv_processor.py:87-116 | Text made of a distinct, non-empty, plain header and rows of the same width is written back unchanged with no selection and no filters |
| ProcessorProperties.ParsedFieldsHaveNoNewline | dependencies/csv_processor.py:89-91 | No field of parsed text contains a newline |
| ProcessorProperties.OutputLines | dependencies/csv_processor.py:116 | The output text splits on `\n` into exactly one line per output record, each record written with commas |
| Scenarios.ProcessCsvNoFilter | test_libcsv.c:40-57 | The three-column text with no selection and no filters comes back unchanged |
| Scenarios.ProcessCsvWithFilters | test_libcsv.c:59-75 | `header3,header1` with `header1>1` and `header3<9` gives `header1,header3` then `4,6` |
| Scenarios.FilterOnUnselectedColumn | dependencies/csv_processor.py:107-108 | Selecting `header2` and filtering on `header1>1` keeps rows 2 and 3, giving `header2`, `5`, `8` |
| Scenarios.MissingSelectedColumn | dependencies/csv_processor.py:164-169 | Selecting `header5,header7` fails with `header5` not found, the first missing name |
| Scenarios.ProcessCsvFileNoFilter | test_libcsv.c:77-92 | The seven-column text with no selection and no filters comes back unchanged |
| Scenarios.ProcessCsvFileWithFilters | test_libcsv.c:94-109 | `col1>l1c1` with `col3!=l1c3` on `col1,col3,col4,col7` keeps the l2 and l3 rows, projected to four columns |
| Scenarios.ProcessCsvFileSpecificFilters | test_libcsv.c:112-127 | `col1>l1c1` with `col3>l2c3` keeps only the l3 row |
| Scenarios.UnknownFilterColumn | dependencies/csv_processor.py:58 | On the three-column text, selecting `header1` and filtering on `header9>1` fails with `header9` unknown |
| Scenarios.NotAFilter | dependencies/csv_processor.py:174 | `col3#l1c3` does not match the filter pattern |
| Scenarios.InvalidFilterLine | dependencies/csv_processor.py:171-176 | The filter string `col1>l1c1` + newline + `col3#l1c3` fails on the line `col3#l1c3` |

## Left out

- `save_csv_file`, the output path, `CsvSettings`, `EnvLoader` and `SingletonMeta` (`dependencies/csv_processor.py:10-38`, `117-120`, `134-137`): filesystem writes and configuration lookup. The model returns the text that would be written.
- `process_csv_file` (`dependencies/csv_processor.py:124-131`): a file read plus a catch-all that turns an exception into a returned string. The file-based tests are modelled by applying `ProcessCsvData` to the file's expected content.
- `csv.reader` quoting and escaping (section 2 of RFC 4180): the model reads a field as the text between commas. `ParseRenderTable` and `EmptySelectionAndFiltersIsIdentity` therefore assume plain fields: no comma, no `"` (a leading quote would start a quoted field), and no character `str.splitlines` ends a line at. An empty line reads as an empty record, as `csv.reader` does.
- `str.splitlines` line terminators other than `\n` (`\r`, `\r\n`, `\v`, `\f`, `\x1c` to `\x1e`, `\x85`, `\u2028`, `\u2029`): the model splits on `\n` only.
- FilterLanguage.ParseFilterLine: `\w` is ASCII letters, digits and `_`. Python's Unicode word characters beyond ASCII are not modelled.
- The difference between `sys.exit(1)` with a message on stderr and an escaping exception: both are one `Failure`, with the error kind kept.
- The `__main__` demo block's printing (`dependencies/csv_processor.py:140-176`). Its first three cases repeat the C tests; cases 4 and 5 appear as `MissingSelectedColumn` and `InvalidFilterLine`.
- `dependencies/csv_processor.c` (interpreter lifecycle and reference counting) and `dependencies/load_env.py` (environment lookup).
- CsvProcessor.Process: its own contract states only the size and width of a success. Its outcome is stated by `ErrorPrecedence` (filter lines, then selected names), `RowStageOutcome` (row errors, short rows, success) and `ProcessShape` (the output of a success).
- CsvProcessor.ProcessCsvData: its own contract only covers empty input. Its other outcomes are stated by `RowStageOutcomeOnText`, `UnknownFilterHeaderStops`, `OutputLines` and `EmptySelectionAndFiltersIsIdentity`.
- `csv.field_size_limit()`: `csv.reader` raises `_csv.Error` for a field longer than the limit (131072 characters by default). The model reads fields of any length.
- ProcessorProperties.EmptySelectionAndFiltersIsIdentity: requires distinct header names. With a repeated name, `headers.index` finds its first occurrence each time, so the output repeats that column and is not the input.
