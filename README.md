# CSV file catalogue — a Dafny model

The `csvfile` app of a small Django site keeps a catalogue of files. A CSV file holds one row
per file, with the columns `FileName`, `FilePath` and `Size` (for example `2M`). `read_file` empties the
catalogue and loads such a file into it. Along the way `restructure_data` normalises every row:

- the extension is the text after the last `.` of the name;
- the name is deleted from the path;
- the size becomes a number of bytes, with K, M and G standing for 10^3, 10^6 and 10^9.

Four searches then filter the catalogue:

- by name substring;
- by path substring;
- by exact extension, where a leading dot is optional;
- by a size condition such as `> 2M`, which `extract_operator` splits into an operator and a byte
  count.

Every search first passes `pre_query_check`. It reports what it found in a line written by `format_query`.

The model is in Dafny, one module per concern:

| file | module | what it holds |
|---|---|---|
| `Wrappers.dfy` | `Wrappers` | `Option` and `Result` |
| `Strings.dfy` | `Strings` | the Python string operations the code relies on: `in`, `[:-1]`, `split(sep)[-1]`, `replace(pat, '')` and `capitalize` of one character; also the whitespace stripping `float()` does internally, and an occurrence count used only to state how much `replace` deletes |
| `Numbers.dfy` | `Numbers` | `float()` of a digit string, and `str()` of a count |
| `Units.dfy` | `Units` | `units_dict` and the reading of a size string |
| `FileRecords.dfy` | `FileRecords` | a CSV row, a catalogue entry (the fields of `FileDescription`), and the per-row and whole-table normalisation as functions |
| `DataFrame.dfy` | `DataFrame` | the table of `restructure_data` as a class. The path column is an array rewritten in place by the row loop; the two derived columns are attached once the loop ends. It is proved against the functions of `FileRecords` |
| `Store.dfy` | `Store` | the catalogue as a class holding a sequence of entries, and `read_file` as a method that clears it and then loads all rows or none |
| `QueryParser.dfy` | `QueryParser` | `extract_operator` |
| `Search.dfy` | `Search` | `pre_query_check`, `format_query`, `apply_size_operator` and the four searches, as functions over the catalogue's entries |

Sizes are natural numbers of bytes. A number is a run of ASCII digits, which may have whitespace
around it (as in `> 2M`). Filtering is specified by multiplicities: a search finds each stored entry
as often as it is stored when it passes the test, and not at all otherwise.

Where the code is more specific than a prose description of it, the model follows the code:

- `str.replace` deletes every non-overlapping occurrence of the file name from the path, scanning
  left to right, not only the first one or the one at the end. A deletion can even join two
  pieces into a new occurrence (`RemoveAllCanLeavePattern`).
- A name without a `.` has the whole name as its extension, because `split(".")[-1]` of such a name
  is the name itself. It does not have an empty extension.
- The line reported by the size search ends in `" for FileExtension"`, the same words as the
  extension search. The model writes it the same way.

## Model

| member | source | states |
|---|---|---|
| Strings.Contains | codingproblem/csvfile/views.py:420-428 | Python's `pat in s`: the empty pattern occurs in every string, and a pattern longer than `s` never does |
| Strings.DropLast | codingproblem/csvfile/views.py:391 | `s[:-1]` is `s` without its last character, and empty for an empty `s` |
| Strings.Capitalize | codingproblem/csvfile/views.py:392 | a lower-case ASCII letter becomes its upper-case letter (32 code points lower); every other character is unchanged |
| Strings.LastPieceStartShape | codingproblem/csvfile/views.py:385 | the scan behind `split(sep)[-1]` stops at the start or just after a match, with no match from there on |
| Strings.LastPieceLeftToRight | codingproblem/csvfile/views.py:432 | occurrences are taken left to right: `"===2M".split("==")[-1]` is `"=2M"`, not `"2M"` |
| Strings.LastPiece | codingproblem/csvfile/views.py:385 | `s.split(sep)[-1]` is a suffix of `s` |
| Strings.LastPieceShape | codingproblem/csvfile/views.py:385 | `s.split(sep)[-1]` is a suffix of `s` that does not contain `sep`. When it is shorter than `s`, what precedes it ends with `sep`. When `sep` does not occur, it is all of `s` |
| Strings.RemoveAll | codingproblem/csvfile/views.py:388 | `s.replace(pat, '')` is never longer than `s` |
| Strings.RemoveAllSkips | codingproblem/csvfile/views.py:388 | which characters go: text in which no occurrence starts is kept, the first occurrence after it is deleted, and the scan resumes right after that occurrence |
| Strings.RemoveAllLength | codingproblem/csvfile/views.py:388 | the replacement shortens `s` by exactly the length of `pat` times the number of occurrences it deletes |
| Strings.RemoveAllAbsent | codingproblem/csvfile/views.py:388 | a string that does not contain `pat` is left unchanged, and no occurrence is counted |
| Strings.CountMatchesPositive | codingproblem/csvfile/views.py:388 | a non-empty `pat` has at least one occurrence deleted exactly when it occurs |
| Strings.RemoveAllCanLeavePattern | codingproblem/csvfile/views.py:388 | "aabb" without "ab" is "ab", which still contains the pattern |
| Strings.Strip | codingproblem/csvfile/views.py:393 | the text `float()` reads once surrounding whitespace is dropped is never longer than its input (its exact shape is `StripShape`) |
| Strings.StripSlice | codingproblem/csvfile/views.py:393 | `strip()` keeps the text between the leading and the trailing whitespace |
| Strings.StripShape | codingproblem/csvfile/views.py:393 | the whitespace `float()` ignores: the stripped text is the middle of `s`, has only whitespace around it, and neither starts nor ends with whitespace |
| Numbers.ParseDecimal | codingproblem/csvfile/views.py:393 | `float(digit)`: only a non-empty string can be read |
| Numbers.ParseDecimalPadded | codingproblem/csvfile/views.py:393 | whitespace of any length on either side of a non-empty run of digits is ignored, and the run's value is read |
| Numbers.ParseDecimalShape | codingproblem/csvfile/views.py:393 | conversely, a string that can be read is whitespace, one unbroken non-empty run of digits, then whitespace, and the value read is that run's |
| Numbers.ParseDecimalBrokenRun | codingproblem/csvfile/views.py:393 | whitespace inside the digits is not ignored: "1 2" cannot be read |
| Numbers.ParseDecimalChars | codingproblem/csvfile/views.py:393 | a string that can be read consists only of digits and whitespace |
| Numbers.ParseDigits | codingproblem/csvfile/views.py:393 | a plain run of digits is read as its decimal value |
| Numbers.NatToString | codingproblem/csvfile/views.py:348-354 | `str(nb_entry)` is a non-empty run of digits |
| Numbers.NatToStringValue | codingproblem/csvfile/views.py:348-354 | the digits `str(n)` writes have the value `n` |
| Numbers.NatToStringRoundTrip | codingproblem/csvfile/views.py:348-354 | reading back `str(n)` gives `n` |
| Numbers.NatToStringInjective | codingproblem/csvfile/views.py:348-354 | different counts are written differently |
| Units.UnitsDict | codingproblem/csvfile/views.py:21-23 | `units_dict`: K is 1000 bytes, M is 1000000 and G is 1000000000 |
| Units.UnitsDictScale | codingproblem/csvfile/views.py:21-23 | the units are exactly K, M and G, each a thousand times the one before, starting at a thousand |
| Units.ParseSize | codingproblem/csvfile/views.py:391-393 | a size that can be read has a number and a unit letter; an unknown unit is reported only for a number followed by a letter outside K, M and G; and a size whose number cannot be read fails with `BadNumber` |
| Units.ParseSizeOf | codingproblem/csvfile/views.py:21-23 | K or k gives the number times 1000, M or m times 1000000, and G or g times 1000000000. Any other letter is an unknown unit |
| Units.ParseSizeWholeKilobytes | codingproblem/csvfile/views.py:21-23 | every size that can be read is a whole number of kilobytes |
| Units.ParseSizeCaseInsensitive | codingproblem/csvfile/views.py:392 | a unit letter and its capitalised form read the same |
| Units.ParseSizeReads | codingproblem/csvfile/views.py:391-393 | "2M" is 2000000 bytes and "200k" is 200000 |
| Units.ParseSizeIgnoresSpaces | codingproblem/csvfile/views.py:393 | " 7 G" is 7000000000 bytes: whitespace around the number is ignored |
| Units.ParseSizeRefuses | codingproblem/csvfile/views.py:391-393 | "5T" has an unknown unit; "K" and "" have no number |
| FileRecords.Extension | codingproblem/csvfile/views.py:385 | the extension is never longer than the file name (its shape is `ExtensionShape`) |
| FileRecords.ExtensionShape | codingproblem/csvfile/views.py:385 | the extension contains no `.` and ends the name. A name without a `.` is its own extension. A shorter extension is preceded by a `.` |
| FileRecords.ExtensionIff | codingproblem/csvfile/views.py:385 | the extension of a name is `e` if and only if `e` has no `.` and the name is `e` or ends with `"." + e` |
| FileRecords.NormalizeRow | codingproblem/csvfile/views.py:385-393 | a row is normalised if and only if its size can be read, and otherwise fails with that size's error. The entry keeps the name and size and carries the path with the name deleted. Its extension and byte size agree with its name and size |
| FileRecords.RestructureRows | codingproblem/csvfile/views.py:382-397 | a table that loads has one entry per row |
| FileRecords.RestructureRowsEntries | codingproblem/csvfile/views.py:382-397 | in a table that loads, entry `i` is the normalisation of row `i` |
| FileRecords.RestructureRowsSucceeds | codingproblem/csvfile/views.py:382-397 | a table loads if and only if every row's size can be read |
| FileRecords.RestructureRowsFailure | codingproblem/csvfile/views.py:391-393 | a table that does not load reports the error of its first row whose size cannot be read |
| FileRecords.RestructureRowsFailureFrom | codingproblem/csvfile/views.py:382-393 | the same for the rows from any point on: the first unreadable size at or after it decides the error |
| FileRecords.RestructureRowsOfColumns | codingproblem/csvfile/views.py:382-397 | column-wise results that agree row by row with the normalisation are exactly the table's normalisation |
| FileRecords.RestructureRowsFailsAt | codingproblem/csvfile/views.py:382-393 | a table whose first bad size is at row `bad` fails with that row's error |
| DataFrame.Frame.constructor | codingproblem/csvfile/views.py:124 | the table read from the file holds the given rows and has no derived columns yet |
| DataFrame.Frame.RewriteRow | codingproblem/csvfile/views.py:385-393 | one pass of the loop: the row's extension, its path rewritten in place without the file name and no other path touched, and its size read as bytes |
| DataFrame.Frame.RewriteRows | codingproblem/csvfile/views.py:382-393 | the row loop collects each row's extension and byte size and rewrites its path in place. It stops at the first unreadable size: the paths up to and including that row are rewritten and the rest are untouched |
| DataFrame.Frame.Restructure | codingproblem/csvfile/views.py:363-400 | `restructure_data` succeeds if and only if the table's normalisation does. On success the table's entries are the normalisation of the rows it held before. On failure it returns the first bad row's error and attaches no column |
| Store.Loaded | codingproblem/csvfile/views.py:115-138 | a CSV source leaves one entry per row in the store or none at all, and a missing or malformed file leaves none |
| Store.ReadWarning | codingproblem/csvfile/views.py:138-151 | "Data loaded from '…'." is the message exactly when the file was read and every row normalised |
| Store.ReadWarningEmptyFile | codingproblem/csvfile/views.py:124-138 | a file with a header and no data rows leaves the store empty and is reported as loaded |
| Store.StatusWarning | codingproblem/csvfile/views.py:75-95 | "Empty database. Please load data." is shown exactly when the catalogue is empty, and "Data loaded." otherwise |
| Store.FileStore.constructor | codingproblem/csvfile/models.py:7-24 | a new catalogue is empty |
| Store.FileStore.Save | codingproblem/csvfile/views.py:128-138 | the save loop appends the table's entries, in row order, to the catalogue |
| Store.FileStore.ReadFile | codingproblem/csvfile/views.py:100-154 | `read_file` discards the catalogue's contents. Afterwards the catalogue holds the entries of every row of the file, or none at all. The message returned is the one the source sets for the outcome |
| Store.LoadedBadSize | codingproblem/csvfile/views.py:115-146 | one row with an unreadable size leaves the catalogue empty |
| Store.LoadedRecords | codingproblem/csvfile/views.py:128-138 | a non-empty catalogue holds one entry per row of the file, and a file whose sizes all read fills it. Entry `i` has row `i`'s name and size, row `i`'s path with the name deleted, and derived fields that agree with its name and size |
| Store.ReadWarningReportsLoad | codingproblem/csvfile/views.py:141-151 | "Data loaded from '…'." is reported if and only if the file exists, can be read, and every size can be read. Any other message leaves the catalogue empty. A file that exists but does not load is reported as having structure issues |
| Store.SearchAfterFailedLoad | codingproblem/csvfile/views.py:115-146 | after a file with a bad size, every search answers "Empty database." and finds nothing |
| Store.SearchExtensionAfterLoad | codingproblem/csvfile/views.py:249 | after a load, searching for a dot-less extension finds exactly the entries whose name is that extension or ends with `"." + e` |
| QueryParser.ChooseOperator | codingproblem/csvfile/views.py:420-429 | the chosen operator is one of the five and occurs in the query |
| QueryParser.ChooseOperatorPrecedence | codingproblem/csvfile/views.py:420-429 | operator `k` of `==, <=, <, >=, >` is chosen if and only if it occurs and none before it does. None is chosen if and only if none occurs |
| QueryParser.ChooseOperatorNone | codingproblem/csvfile/views.py:420-429 | no operator is found if and only if the query has no `<`, no `>` and no `==` |
| QueryParser.ChooseOperatorAlone | codingproblem/csvfile/views.py:420-429 | each operator on its own is chosen for itself |
| QueryParser.LastPieceAfterOperator | codingproblem/csvfile/views.py:432 | the text after an operator that starts the query, when that text has no operator character, is all of that text |
| QueryParser.OperatorThenText | codingproblem/csvfile/views.py:420-432 | an operator followed by text without operator characters selects that operator and leaves that text to be read as the size |
| QueryParser.ExtractOperator | codingproblem/csvfile/views.py:406-440 | on success, it returns the chosen operator and the size read from the text after the last of that operator's occurrences found left to right without overlap (so `===2M` leaves `=2M`). "No operator" is reported if and only if no operator occurs. When an operator is chosen, the query is accepted if and only if that text is a readable size, and otherwise the size's own error is reported |
| QueryParser.ExtractOperatorRoundTrip | codingproblem/csvfile/views.py:406-440 | an operator followed by a number and a unit letter gives back that operator and the number times the unit |
| QueryParser.ExtractOperatorExample | codingproblem/csvfile/views.py:410-411 | "> 2M" gives (">", 2000000) |
| QueryParser.ExtractOperatorNoOperator | codingproblem/csvfile/views.py:419-429 | "2M" and "=2M" are refused for having no operator |
| QueryParser.ExtractOperatorUnknownUnit | codingproblem/csvfile/views.py:432-437 | ">2T" is refused for its unknown unit |
| QueryParser.ExtractOperatorNoNumber | codingproblem/csvfile/views.py:432-433 | "<" is refused because no number follows the operator |
| Search.PreQueryCheck | codingproblem/csvfile/views.py:302-329 | a search proceeds if and only if the catalogue and the query are both non-empty. An empty catalogue is reported whatever the query; otherwise an empty query is reported |
| Search.FormatQuerySingular | codingproblem/csvfile/views.py:352-357 | 1 is written "1 entry" |
| Search.FormatQueryNone | codingproblem/csvfile/views.py:352-357 | 0 is written "0 entry" as well |
| Search.FormatQueryPlural | codingproblem/csvfile/views.py:348-350 | 12 is written "entries" |
| Search.FormatQuery | codingproblem/csvfile/views.py:335-357 | the line is `str(nb_entry)`, then " entries" when there is more than one entry and " entry" for 0 or 1, then " found for (", the query and ")" |
| Search.FormatQueryCount | codingproblem/csvfile/views.py:348-357 | the run of digits the line opens with is exactly the count's, and reads back as the count |
| Search.WordingInjective | codingproblem/csvfile/views.py:348-357 | for one count, the text after the number determines the query |
| Search.FormatQueryInjective | codingproblem/csvfile/views.py:335-357 | the line determines both the count and the query |
| Search.Select | codingproblem/csvfile/views.py:180 | a filter finds each entry as many times as it is stored if it passes, and never otherwise |
| Search.SelectComplement | codingproblem/csvfile/views.py:463-477 | a test and its negation split the entries between them |
| Search.SearchName | codingproblem/csvfile/views.py:160-186 | a rejected search finds nothing and reports the check's message. Otherwise it finds the entries whose name contains the query and reports their count with " contained in FileName" |
| Search.SearchPath | codingproblem/csvfile/views.py:192-218 | the same, for paths and " contained in FilePath" |
| Search.StripDot | codingproblem/csvfile/views.py:243-246 | one leading `.` is removed; a query without one is kept as it is |
| Search.SearchExtension | codingproblem/csvfile/views.py:224-255 | a rejected search finds nothing. Otherwise it finds the entries whose extension equals the query less one leading dot, and reports that with " for FileExtension" |
| Search.SearchExtensionDot | codingproblem/csvfile/views.py:243-249 | ".txt" and "txt" find the same entries and report the same line |
| Search.SearchExtensionByName | codingproblem/csvfile/views.py:249 | over loaded entries, a dot-less extension finds exactly the entries whose name is it or ends with `"." + e` |
| Search.Satisfies | codingproblem/csvfile/views.py:460-477 | the five comparisons of `apply_size_operator`; only the five operators compare at all |
| Search.ApplySizeOperator | codingproblem/csvfile/views.py:446-480 | it finds exactly the entries whose byte size satisfies the operator's comparison against the number. An operator it does not know finds nothing |
| Search.ApplySizeOperatorComplement | codingproblem/csvfile/views.py:463-477 | two operators that answer every comparison oppositely split the entries between them |
| Search.ApplySizeOperatorPartition | codingproblem/csvfile/views.py:463-477 | `<` and `>=`, and `<=` and `>`, split the entries between them |
| Search.SearchSize | codingproblem/csvfile/views.py:261-296 | a rejected search finds nothing. A query that cannot be read finds nothing and reports "Error - Query not formatted correctly.". Otherwise it finds the entries whose size satisfies the query's comparison |
| Search.SearchSizeFinds | codingproblem/csvfile/views.py:281-293 | a query read as an operator and a number finds exactly the stored entries whose byte size satisfies that comparison |
| Search.SearchSizeExample | codingproblem/csvfile/views.py:410-411 | "> 2M" finds exactly the entries of more than 2000000 bytes |
| Search.SearchSizeNoOperator | codingproblem/csvfile/views.py:281-287 | a query with no `<`, no `>` and no `==` is refused and finds nothing |

## Left out

- Django request dispatch, rendering and `index` (`search_file`, views.py:14-69) and URL routing in `urls.py` are not modelled: they are framework glue. The message each search sets is its `Outcome.query`. The message `read_file` sets is its return value.
- `os.path.isfile` and `pandas.read_csv` are I/O. Their result is the `CsvSource` parameter: no such file, a file that cannot be read as the expected table, or its rows.
- A CSV file that pandas cannot read, or whose data rows lack a column the loops look up, shows up as `Malformed`. A file with a header and no data rows is `Parsed([])`: neither loop runs, so no column is looked up, the store stays empty and "Data loaded from '…'." is reported, as `Store.ReadWarningEmptyFile` states. How pandas infers column types (a numeric `FileName`, say) is not modelled.
- The Django ORM is replaced by the entry sequence of `FileStore`. The order in which a filter returns entries is left open: searches are specified by multiplicities, not by order. Collation and the case-insensitivity of `__contains` on some database back ends are not modelled. Substring search is exact.
- `row.save()` failing partway through the loop depends on the database; the model's saves always succeed.
- The `max_length` limits of `models.py` are enforced by the database, not by this code, and are not modelled.
- Numbers.ParseDecimal: reads only ASCII digit strings with ASCII whitespace around them. Signs, fractions, exponents, underscores, "inf"/"nan" and non-ASCII digits, which `float()` also accepts, are refused, and sizes are exact natural numbers rather than floating point. So fractional sizes and float rounding in the `==` comparison are not modelled.
- Strings.Capitalize: only ASCII letters are upper-cased. Python's Unicode case mapping of other characters is not modelled.
- Strings.StripShape: whitespace is the ASCII set (space, tab, newline, carriage return, vertical tab, form feed). Unicode whitespace is not modelled.
- Units.ParseSize: an empty size string makes Python raise `IndexError` rather than a conversion error. Both are caught by the same bare `except`, and the model reports both as `BadNumber`. In the same way, a query without an operator raises a name error in the source; it is caught by the same `except` and is `NoOperator` here.
- The exception type is never observable: `read_file` and `search_size` catch everything. The model keeps a reason (`SizeError`, `QueryError`) only to state its lemmas.
- DataFrame.Frame.Restructure: pandas' chained assignment `data["FilePath"][i_row] = …` is modelled as a plain in-place write to the path column. Copy-on-write and view semantics are not modelled.
