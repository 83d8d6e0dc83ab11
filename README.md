# XdebugFunctionTrace in Dafny

A model of the PHP class `XdebugFunctionTrace`. The class reads the computer-readable
trace that Xdebug writes (`xdebug.trace_format=1`, tab-separated lines) and turns it into
a table with one row per called function. Each row holds the function label, its location, the
elapsed time, how often the function was called and the current route. The model covers
the whole pipeline:

- reading the trace lines: blank lines and the header line are dropped, and an empty
  trace yields a message instead of rows (module `Reconstruct`, `ContentLines`, `TraceBody`);
- rebuilding the call table from the enter, exit and return lines, keyed by invocation
  number in insertion order (`Reconstruct.ReconstructCalls`, specified by the fold
  `Replay` of the one-line step `Apply` over the decoded lines `Decode`);
- building labels: `trim(name)(first param of include/require)` and `trim(file):line`,
  with every `/` turned into `\` and every case-insensitive occurrence of the root path
  removed (`Reconstruct.RemoveRootPath`);
- counting calls per label, pruning the excluded columns, dropping rows without a label and
  optionally keeping only the first row per label (module `Aggregate`);
- sorting by a column with `SORT_DESC`/`SORT_ASC` (module `Sorting`);
- pagination with `abs(page)` and `abs(limit)` and `array_slice` semantics, including negative
  offsets (module `Paging`);
- summarising the saved table: one row per label, in order of first appearance, with
  counts and times summed and locations merged (module `Summary`);
- the row-level behaviour of the CSV writer and reader. Replace mode writes a header;
  append mode writes an optional separator row. Loading skips blank rows and maps columns to
  header names (module `Csv`, class `CsvStore`, which holds the files as a map from path to lines);
- the file-path builder and the two public operations of the class (module `FunctionTrace`,
  class `XdebugFunctionTrace`).

PHP values are modelled explicitly:

- a PHP associative array row is an ordered list of (key, cell) pairs (`Rows.Row`), updated with
  `Put` and `Unset`;
- strings are `seq<char>`. `Strings` holds PHP's `trim`, truthiness (`empty`), `strstr`,
  `explode`, `implode`, `str_replace` of one character and `str_ireplace` of every match;
- `Numbers` holds the `(int)` cast, decimal printing and `%f` on times. Times are integer
  micro-units, and `%f` prints six fraction digits.

Everything the class takes from outside becomes a parameter:

- whether the trace file exists, together with its decoded lines (`file_exists`, `gzfile`), is
  `traceFile: Option<seq<string>>`;
- `getenv('ENABLE_XDEBUG_FUNCTION_TRACE')` is `envEnabled`;
- the path of `$_SERVER['REQUEST_URI']` is `currentRoute`;
- the `rootPath` field is taken as already resolved by `realpath`;
- the CSV files on disk are the `files` map of a `CsvStore`.

The model follows the code. Three of its behaviours are easy to miss when reading the method
names and comments alone:

- `str_ireplace` removes every case-insensitive occurrence of the root path, wherever it stands;
- `array_multisort` orders rows with equal keys by comparing the whole rows (the model keeps the
  input order among equal keys instead; see "Left out");
- the summary is built from the whole trace CSV, which holds every appended run, not only the
  current one.

## Model

| member | source | states |
|---|---|---|
| Strings.TrimLeft | XdebugFunctionTrace.php:73 | the result is a suffix of the input, only trim characters were dropped, and it starts with a non-trim character or is empty |
| Strings.TrimRight | XdebugFunctionTrace.php:73 | the result is a prefix of the input, only trim characters were dropped, and it ends with a non-trim character or is empty |
| Strings.TrimProperties | XdebugFunctionTrace.php:73 | `trim` gives a contiguous piece of its input with no trim character at either end, and only trim characters around it |
| Strings.TrimKeeps | XdebugFunctionTrace.php:389 | a string without a trim character at either end is its own trim |
| Strings.TrimIdempotent | XdebugFunctionTrace.php:389 | trimming twice is trimming once |
| Strings.Contains | XdebugFunctionTrace.php:113 | `strstr` finds the term exactly when it occurs at some position |
| Strings.StringHasString | XdebugFunctionTrace.php:112-114 | a falsy term matches every string; a truthy one matches exactly the strings it occurs in |
| Strings.PieceIsFound | XdebugFunctionTrace.php:112-114 | a string built around the term always matches it |
| Strings.Split | XdebugFunctionTrace.php:144 | `explode` gives at least one piece and no piece holds the separator |
| Strings.JoinSplit | XdebugFunctionTrace.php:144 | joining the pieces with the separator gives back the line |
| Strings.SplitNoSeparator | XdebugFunctionTrace.php:144 | a string without the separator is one piece |
| Strings.SplitAtSeparator | XdebugFunctionTrace.php:144 | the text before the first separator is the first piece and the rest is split again |
| Strings.SplitJoin | XdebugFunctionTrace.php:144 | splitting pieces joined by a separator they lack gives the same pieces |
| Strings.SplitCount | XdebugFunctionTrace.php:144-149 | the number of fields is one more than the number of tabs |
| Strings.ReplaceChar | XdebugFunctionTrace.php:124 | every `/` becomes `\`, every other character is kept, and the length is the same |
| Strings.RemoveAllIgnoringCase | XdebugFunctionTrace.php:125 | `str_ireplace` with an empty replacement never lengthens the text |
| Strings.NothingToRemove | XdebugFunctionTrace.php:125 | a text without a case-insensitive occurrence of the root is unchanged |
| Strings.LeadingOccurrenceRemoved | XdebugFunctionTrace.php:125 | a leading occurrence of the root, in any letter case, is removed and the rest is processed the same way |
| Strings.RemovalAddsNothing | XdebugFunctionTrace.php:125 | a character absent from the text is absent after removal |
| Strings.MiddleOccurrenceRemoved | XdebugFunctionTrace.php:125 | at the first case-insensitive occurrence of the needle, anywhere in the text, the text before it is kept, the occurrence is removed and the rest is processed the same way |
| Strings.KeepPrefix | XdebugFunctionTrace.php:125 | text before the first occurrence is kept unchanged |
| Strings.SuffixHeadKept | XdebugFunctionTrace.php:125 | a character where no occurrence starts is kept and the scan moves one character on |
| Strings.SuffixOccurrenceRemoved | XdebugFunctionTrace.php:125 | an occurrence where the scan stands is removed and the scan resumes after it |
| Numbers.DigitChar | XdebugFunctionTrace.php:198 | the digit character of a value below ten reads back as that value |
| Numbers.NatToString | XdebugFunctionTrace.php:198 | decimal printing gives a non-empty run of digits |
| Numbers.NatToStringValue | XdebugFunctionTrace.php:198 | the printed digits read back as the number |
| Numbers.DigitRun | XdebugFunctionTrace.php:150 | the leading digit run is all digits and stops at the first non-digit |
| Numbers.DigitRunOfDigits | XdebugFunctionTrace.php:150 | digits followed by a non-digit have exactly that run |
| Numbers.SkipSpace | XdebugFunctionTrace.php:150 | the `(int)` cast skips exactly the leading whitespace: only whitespace is dropped, and the rest is empty or starts with a non-space |
| Numbers.ParseDigits | XdebugFunctionTrace.php:150 | the `(int)` cast of a string of digits is its decimal value |
| Numbers.ParseNonNegative | XdebugFunctionTrace.php:150 | the `(int)` cast of a printed natural number is that number |
| Numbers.ParseIntToString | XdebugFunctionTrace.php:197 | the `(int)` cast of a printed integer is that integer, negative ones included |
| Numbers.NegativeRoundTrip | XdebugFunctionTrace.php:197 | the `(int)` cast of a printed negative integer is that integer |
| Numbers.ParseNegative | XdebugFunctionTrace.php:197 | a minus sign before digits gives minus their decimal value |
| Numbers.LeadingValueOfDigits | XdebugFunctionTrace.php:150 | the leading value of a digit string is its decimal value |
| Numbers.Pow10 | XdebugFunctionTrace.php:198 | every power of ten is positive |
| Numbers.Pow10Six | XdebugFunctionTrace.php:198 | six fraction digits make one million micro-units per unit |
| Numbers.FixedDigits | XdebugFunctionTrace.php:198 | the zero-padded fraction has exactly the requested width and only digits |
| Numbers.FractionOfDigits | XdebugFunctionTrace.php:196 | reading the fraction digits gives their decimal value |
| Numbers.DigitsOfFixed | XdebugFunctionTrace.php:198 | zero-padded digits read back as the number |
| Numbers.FractionOfFixed | XdebugFunctionTrace.php:196-198 | a printed fraction reads back as the same micro-units |
| Numbers.FormatMicros | XdebugFunctionTrace.php:198 | `%f` output ends in a decimal point followed by six digits |
| Numbers.UnsignedText | XdebugFunctionTrace.php:198 | the unsigned `%f` text ends in a decimal point followed by six digits |
| Numbers.UnsignedDecimal | XdebugFunctionTrace.php:196 | `units.ffffff` reads as units times a million plus the fraction |
| Numbers.ParseSigned | XdebugFunctionTrace.php:196 | an optional minus sign negates the unsigned reading |
| Numbers.ParseUnsignedMicros | XdebugFunctionTrace.php:196 | a number starting with a digit reads as its unsigned value |
| Numbers.ParseNegativeMicros | XdebugFunctionTrace.php:196 | a leading minus negates the value |
| Numbers.NoLeadingSpace | XdebugFunctionTrace.php:196 | a string without leading whitespace is read from its first character |
| Numbers.ParseFormatMicros | XdebugFunctionTrace.php:196-198 | a time printed with `%f` reads back as the same micro-units, negative ones included |
| Rows.Keys | XdebugFunctionTrace.php:411 | `array_keys` lists each key of the row at its position |
| Rows.Get | XdebugFunctionTrace.php:250 | a key has a value exactly when it is a key of the row, and the value is one stored under it |
| Rows.GetAt | XdebugFunctionTrace.php:250 | in a row with distinct keys, looking up a position's key gives that position's value |
| Rows.Put | XdebugFunctionTrace.php:267-268 | assigning a key keeps the key order and adds a new key last |
| Rows.Unset | XdebugFunctionTrace.php:251 | after `unset` the key is missing and every other key reads as before |
| Rows.GetPut | XdebugFunctionTrace.php:267-268 | after assigning a key it reads as the new value and every other key reads as before |
| Rows.PutNewKey | XdebugFunctionTrace.php:267-268 | assigning a new key appends the pair |
| Rows.PutKeepsDistinct | XdebugFunctionTrace.php:267-268 | assigning keeps the keys distinct |
| Rows.NumberOfText | XdebugFunctionTrace.php:441-443 | a count read back from its CSV text is the same number |
| Rows.CsvLine | XdebugFunctionTrace.php:418 | the CSV fields of a row are the texts of its values, in order |
| Rows.AsText | XdebugFunctionTrace.php:441-443 | the text form of a row keeps each key and position and holds the text of each value |
| Reconstruct.ContentLines | XdebugFunctionTrace.php:70-74 | the kept lines are exactly the input lines whose trim is truthy, and there are no more of them than input lines |
| Reconstruct.ContentLinesAppend | XdebugFunctionTrace.php:71-74 | dropping blank lines works piece by piece, so the kept lines keep their order and repeats |
| Reconstruct.ContentLinesOne | XdebugFunctionTrace.php:73 | a single line is kept exactly when its trim is truthy |
| Reconstruct.TraceBody | XdebugFunctionTrace.php:65-83 | with one content line or none, the trace has no content; otherwise the body is the content lines without the first one |
| Reconstruct.Decode | XdebugFunctionTrace.php:144-202 | an enter event passed the filter, and its labels are the function and location labels of the line |
| Reconstruct.DecodeLine | XdebugFunctionTrace.php:131-202 | a line of five or more fields is an enter exactly when its type is `0` and its target passes the filter, an exit exactly when its type is `1`, a return exactly when it is `R`, and nothing otherwise; the number is field 1, an enter's and an exit's time and memory are fields 3 and 4, and a return's value is field 5 |
| Reconstruct.RootRemovedHasNoSlash | XdebugFunctionTrace.php:123-126 | a label after root removal has no `/` |
| Reconstruct.OrderIsStored | XdebugFunctionTrace.php:128-205 | every key in the order has an entry |
| Reconstruct.ReconstructCalls | XdebugFunctionTrace.php:128-205 | the loop's table is the fold of the line steps over the trace body, and each key appears once and exactly the stored keys appear |
| Reconstruct.ApplyKeepsWellFormed | XdebugFunctionTrace.php:167-201 | one line step keeps the table's keys distinct and in step with its entries |
| Reconstruct.ReplayWellFormed | XdebugFunctionTrace.php:128-205 | the table built from any trace is well formed |
| Reconstruct.ShortLineIgnored | XdebugFunctionTrace.php:144-149 | a line with fewer than five fields leaves the table unchanged |
| Reconstruct.FilteredEnterIgnored | XdebugFunctionTrace.php:156-164 | an enter line whose target lacks a truthy filter term leaves the table unchanged |
| Reconstruct.AcceptedEnterStored | XdebugFunctionTrace.php:162-192 | a type `0` line of five or more fields whose target passes the filter (always so for an empty term) creates a fresh entry for the number in field 1: depth from field 0, enter time and memory from fields 3 and 4, the internal flag, line, params and both labels, and no exit or return; every other entry is unchanged |
| Reconstruct.ExitTouchesOnlyItsCall | XdebugFunctionTrace.php:193-199 | a type `1` line touches only the entry of the number in field 1: it keeps its enter data and return, stores fields 3 and 4 as exit time and memory, `Elapsed` (the `%f` of exit time minus enter time) as timeUsage and `(int)memoryExit - (int)memoryEnter`; every other entry is unchanged |
| Reconstruct.ReturnSetsOnlyReturn | XdebugFunctionTrace.php:200-202 | a type `R` line sets only the return value of the entry of the number in field 1, to field 5 |
| Reconstruct.OtherTypeIgnored | XdebugFunctionTrace.php:153-203 | a line whose type is not `0`, `1` or `R` leaves the table unchanged |
| Reconstruct.ApplyKeepsEnter | XdebugFunctionTrace.php:167-201 | enter data in an entry was stored by this step's enter line or was already there |
| Reconstruct.EnteredCallsPassedFilter | XdebugFunctionTrace.php:156-185 | every entry with enter data comes from an enter line of the trace that the filter let through |
| Reconstruct.LabelsUseBackslashes | XdebugFunctionTrace.php:175-185 | function and location labels contain no `/` |
| Reconstruct.ReplaceCharConcat | XdebugFunctionTrace.php:124 | slash replacement works piece by piece |
| Reconstruct.RootStrippedFromPath | XdebugFunctionTrace.php:123-126 | a path starting with the root, in any case and with either slash, loses it and keeps the rest with backslashes |
| Reconstruct.EveryRootOccurrenceRemoved | XdebugFunctionTrace.php:125 | for every path and root: at the first occurrence of the root in the slash-normalised path, in any letter case, the text before it is kept, the root is removed and the rest is processed the same way |
| Aggregate.Entries | XdebugFunctionTrace.php:246 | the entries in key order, one per stored number |
| Aggregate.CountLabelPositive | XdebugFunctionTrace.php:237-267 | an entered label is counted at least once, so its count exists when it is read |
| Aggregate.CountFunctions | XdebugFunctionTrace.php:237-238 | `array_count_values` has a key exactly for the labels that occur, and each count is the number of entries with that label |
| Aggregate.PruneKeys | XdebugFunctionTrace.php:249-253 | after unsetting, a row keeps exactly its keys that are not excluded |
| Aggregate.PruneAppend | XdebugFunctionTrace.php:249-253 | unsetting works piece by piece |
| Aggregate.PruneEnterFields | XdebugFunctionTrace.php:249-253 | of the enter fields only `function` and `location` survive |
| Aggregate.PruneExitFields | XdebugFunctionTrace.php:249-253 | of the exit fields only `timeUsage` survives |
| Aggregate.PrunedEntryRow | XdebugFunctionTrace.php:249-253 | a pruned entry row is exactly function, location and timeUsage |
| Aggregate.AddCountAndRoute | XdebugFunctionTrace.php:267-268 | functionCount and currentRoute are added last, in that order |
| Aggregate.OutputRowShape | XdebugFunctionTrace.php:249-268 | the loop's row is `function, location, timeUsage, functionCount, currentRoute` |
| Aggregate.OutputRowFields | XdebugFunctionTrace.php:267 | an output row carries the entry's label and the given count |
| Aggregate.AggregateCalls | XdebugFunctionTrace.php:244-269 | the loop's rows are the reference walk over the entries |
| Aggregate.NonUniqueIgnoresAdded | XdebugFunctionTrace.php:262 | without the unique mode the list of added labels changes nothing |
| Aggregate.UniqueIsFirstPerFunction | XdebugFunctionTrace.php:262-266 | the unique mode keeps, in order, the first of the plain rows of each label, with the same counts |
| Aggregate.FirstPerFunctionDistinct | XdebugFunctionTrace.php:262-266 | keeping the first row per label leaves no two rows with the same label |
| Aggregate.Selected | XdebugFunctionTrace.php:256-265 | every kept entry is an entry of the table with enter data and a truthy label |
| Aggregate.RowsOf | XdebugFunctionTrace.php:267-268 | one output row per kept entry, each with its label's count |
| Aggregate.RowsComeFromEnteredCalls | XdebugFunctionTrace.php:256-260 | the result rows are the output rows of the entered, labelled entries in order; exit-only or return-only entries never appear |
| Aggregate.RowCountIsTrueCount | XdebugFunctionTrace.php:237-267 | each result row's functionCount is the number of entries of the whole table with its label, in either mode |
| Aggregate.UniqueRowsHaveDistinctLabels | XdebugFunctionTrace.php:262-265 | with the unique mode on, no two result rows share a label |
| Sorting.EffectiveDirection | XdebugFunctionTrace.php:458-459 | `SORT_ASC` stays ascending and every other direction becomes `SORT_DESC` |
| Sorting.InsertPermutes | XdebugFunctionTrace.php:460-464 | inserting one row adds exactly that row |
| Sorting.InsertElements | XdebugFunctionTrace.php:460-464 | inserting adds no other row |
| Sorting.InsertOrdered | XdebugFunctionTrace.php:460-464 | inserting into ordered rows keeps them ordered |
| Sorting.InsertionSortCorrect | XdebugFunctionTrace.php:460-464 | the sorted rows are ordered by the column and a permutation of the input |
| Sorting.SortByColumn | XdebugFunctionTrace.php:457-466 | when every row has the column, the result is a permutation ordered in the effective direction; otherwise the rows are unchanged |
| Sorting.SortKeepsLength | XdebugFunctionTrace.php:457-466 | sorting keeps the number of rows |
| Sorting.FirstIsLargest | XdebugFunctionTrace.php:271-274 | sorted by functionCount, the first row holds the largest count |
| Paging.Slice | XdebugFunctionTrace.php:290 | `array_slice`: an offset past the end gives nothing, a non-negative one gives the rows from it, a negative one counts from the end, and never more than the length |
| Paging.PageContents | XdebugFunctionTrace.php:287-290 | a page from 1 up starts at `(abs(page) - 1) * abs(limit)` and holds at most `abs(limit)` rows |
| Paging.PageZeroIsLastRows | XdebugFunctionTrace.php:287-290 | page 0 gives the last `abs(limit)` rows |
| Paging.ZeroLimitIsEmpty | XdebugFunctionTrace.php:288-290 | a zero limit gives no rows |
| Paging.FirstPageHoldsAll | XdebugFunctionTrace.php:287-290 | page 1 holds every row when they fit in the limit |
| Paging.PagesTile | XdebugFunctionTrace.php:287-290 | the first k pages together are the first `k * limit` rows, so pages neither overlap nor leave gaps |
| Paging.PageAt | XdebugFunctionTrace.php:287-290 | page k is the rows from `(k - 1) * limit` to `k * limit` |
| Summary.Group | XdebugFunctionTrace.php:317-319 | the group holds exactly the rows with the term, and none when the term is missing |
| Summary.GroupAppend | XdebugFunctionTrace.php:317-319 | the filter works piece by piece, so the group keeps the order and repeats of its rows |
| Summary.GroupOne | XdebugFunctionTrace.php:318 | a single row is kept exactly when its function is set and equals the term |
| Summary.LocationsMembership | XdebugFunctionTrace.php:354 | a location is listed exactly when some row of the group has it |
| Summary.Distinct | XdebugFunctionTrace.php:354 | `array_unique` keeps exactly the values not seen before |
| Summary.DistinctHasNoRepeats | XdebugFunctionTrace.php:354 | `array_unique` leaves no repeats |
| Summary.SummarizeTerm | XdebugFunctionTrace.php:317-361 | one iteration builds the summary row of the term |
| Summary.SummarizeRows | XdebugFunctionTrace.php:308-362 | the loop's rows are the reference walk over the rows |
| Summary.OneRowPerTerm | XdebugFunctionTrace.php:308-314 | exactly one summary row per distinct term, in order of first appearance |
| Summary.DistinctTermsAreDistinct | XdebugFunctionTrace.php:311-314 | the summarised terms are pairwise different |
| Summary.ColumnSumAppend | XdebugFunctionTrace.php:355-358 | `array_sum` over joined rows is the sum of the parts |
| Summary.ColumnSumPermutation | XdebugFunctionTrace.php:321-355 | sorting the group does not change the sums |
| Summary.MergedFields | XdebugFunctionTrace.php:353-359 | the merged row has the joined locations, the summed count, the summed time if the base had a time, and the base row's other fields |
| Summary.SummaryCount | XdebugFunctionTrace.php:355 | a summary's functionCount is the sum of the counts of all rows with its term |
| Summary.SummaryTime | XdebugFunctionTrace.php:357-359 | a summary's timeUsage is the `%f` of the sum of the group's times |
| Summary.LocationsPermutation | XdebugFunctionTrace.php:321-354 | rearranging rows keeps the set of locations |
| Summary.SummaryLocation | XdebugFunctionTrace.php:354 | a summary's location joins every location of the group once, with commas |
| Summary.SummaryLabel | XdebugFunctionTrace.php:353-360 | a summary carries its term as function and has no currentRoute |
| Csv.Lines | XdebugFunctionTrace.php:408-419 | one CSV line per row, in order |
| Csv.AllAsText | XdebugFunctionTrace.php:441-444 | each loaded row is the text form of the saved row |
| Csv.CsvStore.constructor | XdebugFunctionTrace.php:403-448 | no files exist yet |
| Csv.CsvStore.Save | XdebugFunctionTrace.php:403-423 | the file at the path becomes the saved content (header or separator, then the rows) and no other file changes |
| Csv.CsvStore.Load | XdebugFunctionTrace.php:431-448 | the result is the loaded reading of the file, or nothing for a missing file |
| Csv.WriteRows | XdebugFunctionTrace.php:407-420 | the write loop appends the header or separator and then every row |
| Csv.ReadTable | XdebugFunctionTrace.php:432-447 | the read loop gives the loaded reading of the content |
| Csv.LoadLinesAppend | XdebugFunctionTrace.php:436-445 | reading works line by line |
| Csv.EmptyLineIsBlank | XdebugFunctionTrace.php:437 | an empty CSV line is skipped |
| Csv.NullFieldIsBlank | XdebugFunctionTrace.php:437 | the separator row written by `fputcsv($f, [])` is skipped |
| Csv.LoadLineOfRow | XdebugFunctionTrace.php:437-444 | a saved row reloads as its text form under its own header |
| Csv.LinesLoadAsText | XdebugFunctionTrace.php:436-445 | saved rows reload as their text forms |
| Csv.CombineRoundTrip | XdebugFunctionTrace.php:441-443 | combining a row's keys with its CSV fields gives the row's text form |
| Csv.ReplaceThenLoad | XdebugFunctionTrace.php:403-448 | saving in replace mode and then loading gives the saved rows, as text |
| Csv.AppendThenLoad | XdebugFunctionTrace.php:404-444 | appending to a non-blank file and then loading gives the old rows followed by the new ones |
| Csv.EmptyFileIsBlank | XdebugFunctionTrace.php:404 | a missing or empty file counts as blank |
| Csv.AppendToBlankReplaces | XdebugFunctionTrace.php:404 | appending to a file whose text trims to nothing is the same as replacing it: the header is written before the rows |
| FunctionTrace.XdebugFunctionTrace.constructor | XdebugFunctionTrace.php:12-14 | the properties start as `''`, `''` and `false` |
| FunctionTrace.XdebugFunctionTrace.FilterCalls | XdebugFunctionTrace.php:98-274 | the rows are the trace's table, aggregated and optionally sorted by functionCount |
| FunctionTrace.XdebugFunctionTrace.GetFilteredTrace | XdebugFunctionTrace.php:49-291 | false when disabled, the first message without a file, the second for a file without content, and otherwise the requested page of the filtered rows; the files change only in that last case |
| FunctionTrace.XdebugFunctionTrace.ProcessLines | XdebugFunctionTrace.php:65-83 | the second message for a file without content lines after the header, and otherwise the page of the filtered rows of the body with the trace CSV and, if asked, the summary CSV written; the files change only in that last case |
| FunctionTrace.XdebugFunctionTrace.ProcessBody | XdebugFunctionTrace.php:128-291 | the page of the filtered rows is returned, and the trace CSV and, if asked, the summary CSV are written |
| FunctionTrace.XdebugFunctionTrace.SaveRows | XdebugFunctionTrace.php:276-284 | the rows are appended to the trace CSV, and if asked the summary of that whole file replaces the summary CSV |
| FunctionTrace.XdebugFunctionTrace.SummarizeSaved | XdebugFunctionTrace.php:281-284 | the summary of the loaded trace CSV replaces the summary CSV |
| FunctionTrace.XdebugFunctionTrace.SummarizeFilteredTrace | XdebugFunctionTrace.php:303-377 | the summary table replaces the summary CSV, and the requested page of it is returned |
| FunctionTrace.FilePathFallbacks | XdebugFunctionTrace.php:386-393 | an unknown type becomes `xt` and a blank name the default name |
| FunctionTrace.FilePathsDiffer | XdebugFunctionTrace.php:389-391 | different non-blank trimmed names give different paths |
| FunctionTrace.SummaryFileIsSeparate | XdebugFunctionTrace.php:364 | the summary CSV is never the trace CSV |
| FunctionTrace.NamesDiffer | XdebugFunctionTrace.php:389-391 | two different names already in trimmed form give different CSV paths |

## Left out

- `xdebugStartTrace`, `xdebug_start_trace`, `xdebug_stop_trace` and `ini_set`: calls into the Xdebug extension. The check of the enable flag is kept, as the `envEnabled` parameter.
- `file_exists`, `gzfile`, `fopen` and `file_get_contents`: file I/O. The trace arrives as an optional list of lines, and the CSV files are a map from path to lines held by `CsvStore`. A file that cannot be opened is not modelled.
- The HTML branch that uses `DOMDocument`: it cannot run, because the trace type is always `xt`, and it relies on an HTML parser.
- `strip_tags`: lines and names are taken without HTML tags.
- `realpath` in `getRootPath`: a filesystem lookup, so the `rootPath` field is taken as already resolved. `getRootDirectory` is not called anywhere.
- `parse_url($_SERVER['REQUEST_URI'])`: request context, which becomes the `currentRoute` parameter.
- The `$duplicationHandling` block is switched off by a constant, so it is not modelled.
- `Numbers.FormatMicros`: times are integer micro-units, so float rounding, precision loss and `%f` of values too large for a float are not modelled.
- `Numbers.ParseMicros`: reads a decimal with up to six fraction digits. Exponent notation and digits past the sixth are not modelled. A string that does not start with a number reads as 0, whereas PHP 8 throws a type error when `timeExit - timeEnter` meets an empty or non-numeric time field.
- `Numbers.ParseInt`: integers are unbounded, so the 64-bit saturation of PHP's `(int)` cast is not modelled. Numeric strings in exponent form are read only up to the exponent: PHP 7.1 and later cast `"1e3"` to 1000, the model gives 1.
- `Rows.CsvLine`: the CSV file is modelled as a list of lines of fields. The quoting and escaping done by `fputcsv`/`fgetcsv` are not modelled, so every field is taken to read back as written.
- `Csv.CsvStore.Load`: a row with more fields than the header gets a blank column name, because PHP's missing index reads as null. PHP 8 raises warnings there, and they are not modelled.
- `Sorting.SortByColumn`: the model sorts stably and keeps the input order among rows with equal keys, while `array_multisort` orders such rows by comparing the whole rows. So where keys tie, the model's sorted page, the row order of the trace CSV and the order of the summary's joined locations (`FunctionTrace.FilteredRows`, `Summary.SummaryLocation`) can differ from PHP's: summary rows for one function at `xy.php:7` and then `xy.php:5` with equal counts join as `xy.php:7,xy.php:5` in the model and `xy.php:5,xy.php:7` in PHP. Numeric strings are compared by their integer value.
- `Sorting.SortByColumn`: when some row lacks the column, PHP 8 throws because the array sizes differ, while PHP 7 warns and leaves the rows as they were. The model keeps the rows unchanged.
- `Reconstruct.Decode`: the `switch` on the line type uses PHP's loose `==`. It is modelled as an exact match on `"0"`, `"1"` and `"R"`.
- `Reconstruct.Decode`: a missing field reads as the empty string, which is PHP's null. An `include`/`require` line without parameters is filtered on the empty string, although PHP would raise a type error there. The same holds for an enter line of exactly five fields, whose missing function name PHP passes as null to `stringHasString` and `removeRootPathFromPath` and fails with a type error; the model reads it as `""`. For an enter line of six to nine fields PHP stores null under `line`, which survives the `isset` check at the pruning step and adds a column to the row; the model reads it as `""` and prunes the key. A return line of exactly five fields does the same to `return`: PHP stores null there, which survives the `isset` check and adds a column, while the model stores `""` and prunes it.
- `Summary.Group`: labels are compared with exact equality rather than PHP's loose `==`. `in_array` on the added labels is exact in the same way.
- `Aggregate.CountFunctions`: `array_count_values` is taken to count every label, whereas PHP warns about labels that are not strings or integers.
- `FunctionTrace.XdebugFunctionTrace.GetFilteredTrace`: the source declares `stringHasString` and `removeRootPathFromPath` as named functions inside the method body, so a second call in the same PHP process stops with a fatal "Cannot redeclare" error. The model lets the method be called any number of times, and every call behaves like the first.
