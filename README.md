# hotwakes: a Dafny model of the best-track SST pipeline

hotwakes is a set of Python scripts about the ocean wakes of tropical cyclones.

- **Extraction.** The extraction script reads a HURDAT-style best-track file. This is a text file of header lines and fix lines; a fix line starts with eight digits `YYYYMMDD` and a comma. Each fix line gets 31 daily sea-surface temperatures appended, for the days D−15 … D+15 around the fix date D, each written as `6.2f`. The result is written to `../t_data/<stem>_SST.txt`. Two sources are covered: NOAA OISST (stored hundredths of a degree), and HYCOM (stored thousandths above 20 °C, written to `<stem>_HYCOM.txt`).
- **Scanner.** It reports windows that mix missing and present values.
- **Counters.** Two counters tally the storm status codes (`HU`, `TS`, `EX`, …) over a directory.
- **Plotting scripts.** Three scripts load the windows back, keeping tropical-storm and hurricane fixes for the directory scripts. They compute the day-0 temperature change, the baseline-relative anomalies and the group statistics that the figures plot.

The project models all of this as Dafny modules:

| module | file | models |
|---|---|---|
| `Wrappers` | wrappers.dfy | `Option`, `Result` |
| `Text` | text.dfy | `str.strip`, `split(',')`, `join`, `lower`, digits, padding, number text |
| `Files` | files.dfy | a directory listing and `glob('*<suffix>')` |
| `Floats` | floats.dfy | Python `float(str)` on decimal text, `nan` and `inf`; the `6.2f` format; NaN-propagating arithmetic |
| `Calendar` | calendar.dfy | `strptime("%Y%m%d")`, `timedelta` day arithmetic (`toordinal`), `strftime("%Y%m%d")` |
| `Track` | track.dfy | `parse_latlon` and reading a track file into header and fixes |
| `Window` | window.dfy | the offsets −15…+15, column names, the raster read per day, the rescale to °C |
| `Extract` | extract.dfy | the extraction scripts end to end: sampling, writing, output path, argument check |
| `MissingScan` | missing_scan.dfy | find_mixed_missing_sst.py |
| `StatusCount` | status_count.dfy | count_tc_status.py and count_tc_types.py, with `Counter` as a class |
| `WindowLoaders` | window_loaders.dfy | the three `load_windows` functions |
| `WindowStats` | window_stats.dfy | the ΔSST panels, baseline, anomalies, groups and `stats`, and `plot_pdf`'s "No data" and percentage |

## Model

| member | source | states |
|---|---|---|
| Text.SplitCount | count_tc_status.py:22 | `split(',')` gives one more piece than there are commas |
| Text.JoinSplit | single_TC/extract_sst.py:72 | joining the pieces of `split(c)` with `c` gives back the line |
| Text.SplitJoin | single_TC/extract_sst.py:102 | splitting a `join` of comma-free items gives back the items |
| Text.FieldsOfAppended | single_TC/extract_sst.py:103 | appending `", "` and joined cells to a line keeps its fields and adds one stripped field per cell |
| Text.StripSurrounding | find_mixed_missing_sst.py:30 | `strip` ignores any whitespace added on either side |
| Text.StripTwice | find_mixed_missing_sst.py:39 | `strip` is idempotent |
| Text.RStripNewline | single_TC/extract_sst.py:74 | `rstrip("\n")` removes exactly the trailing newlines and leaves a prefix |
| Text.Lower | find_mixed_missing_sst.py:30 | ASCII lower-casing, character by character and keeping the length, which decides the `nan`/`-999`/`.txt` comparisons exactly as Python's `lower()` does |
| Text.FixLineFirstField | single_TC/extract_sst.py:66-75 | on a line matching `^\d{8},` the first field (`ymd`) is the eight digits |
| Text.TruesSpec | find_mixed_missing_sst.py:44 | `any(mask)` iff some entry is true; `not all(mask)` iff some entry is false |
| Text.PadLeft | single_TC/extract_sst.py:102 | right-aligning in a width pads with spaces only, to at least the width, ending with the text |
| Text.NatToStringValue | count_tc_status.py:44 | the decimal text of a count reads back as that count |
| Text.ZeroPadValue | single_TC/extract_sst.py:91 | a zero-padded field reads back as its number |
| Files.MatchingSpec | find_mixed_missing_sst.py:54 | `glob('*_SST.txt')` lists exactly the names ending in the suffix |
| Files.MatchingKeepsOrder | plot_sst_diff_pdfs.py:47 | the matched files keep the listing order |
| Floats.RoundHalfEven | single_TC/extract_sst.py:102 | the rounded integer is within one half of its argument and keeps its sign |
| Floats.Format62 | single_TC/extract_sst.py:102 | `f"{v:6.2f}"` is at least six characters |
| Floats.FormatNaN | single_TC/extract_sst.py:102 | a NaN is written `   nan` |
| Floats.FormatReadsBack | single_TC/extract_sst.py:102 | `float()` of any written value gives back the value as written (NaN, ±inf, or the number rounded to hundredths) |
| Floats.FormatParsesBack | plot_sst_window.py:42 | a written number reads back as its hundredths-rounded value |
| Floats.ShownRounds | single_TC/extract_sst.py:102 | the written value differs from the true value by at most 0.005 |
| Floats.FormatHasNoComma | single_TC/extract_sst.py:102 | no written value contains a comma, so the output row splits back cell by cell |
| Floats.FixedTextParses | plot_sst_diff_pdfs.py:56 | a signed fixed-point text reads back as its value |
| Floats.Add | plot_sst_diff_pdfs.py:114 | NaN in either operand gives NaN; finite operands add |
| Floats.Sub | plot_sst_diff_pdfs.py:112-113 | NaN in either operand gives NaN; finite operands subtract |
| Floats.Sum | plot_sst_diff_pdfs.py:114 | the sum of finite values is finite and equals their real total, taken first to last (Floats.RealSum) |
| Floats.RealSumLast | plot_sst_diff_pdfs.py:114 | adding the last value onto the total of the others gives the same real total as adding first to last |
| Floats.Mean | plot_sst_diff_pdfs.py:114 | the mean of finite values is their real total divided by their number |
| Calendar.DaysInMonth | single_TC/extract_sst.py:89 | every month has 28 to 31 days |
| Calendar.ParseYmd | single_TC/extract_sst.py:89 | `strptime(ymd, "%Y%m%d")` yields only valid dates of years 1 to 9999 |
| Calendar.FormatYmd | single_TC/extract_sst.py:91 | `strftime("%Y%m%d")` is eight digits |
| Calendar.SplitYmd | single_TC/extract_sst.py:34 | the integer slices `ymd[:4]`, `ymd[4:6]`, `ymd[6:]` are in range |
| Calendar.ParseFormat | single_TC/extract_sst.py:89-91 | parsing a formatted date, and slicing it, gives back the date |
| Calendar.FormatParse | single_TC/extract_sst.py:89-91 | formatting a parsed date gives back the eight digits |
| Calendar.NextOrdinal | single_TC/extract_sst.py:91 | the next day has the next ordinal and is valid unless the date is 9999-12-31 |
| Calendar.PrevOrdinal | single_TC/extract_sst.py:91 | the previous day has the previous ordinal and is valid unless the date is 0001-01-01 |
| Calendar.NextPrev | single_TC/extract_sst.py:91 | stepping a day forward and back (or back and forward) returns the date |
| Calendar.OrdinalRange | single_TC/extract_sst.py:91 | ordinals of valid dates lie in 1 … 3652059, with the ends reached only at 0001-01-01 and 9999-12-31 |
| Calendar.OrdinalInjective | single_TC/extract_sst.py:91 | distinct valid dates have distinct ordinals |
| Calendar.AddDaysOrdinal | single_TC/extract_sst.py:91 | `base + timedelta(days=k)` succeeds iff the target ordinal is in range, and then it is the date with that ordinal |
| Track.HemisphereSign | single_TC/extract_sst.py:25-28 | a number followed by N, n, E or e keeps its sign; followed by any other character it is negated |
| Track.KeepsSignLetters | single_TC/extract_HYCOM_SST.py:23-26 | the letters that keep the sign are exactly N, n, E, e |
| Track.LatLonMagnitude | single_TC/extract_HYCOM_sst.py:23-26 | the coordinate is the number or its negation |
| Track.ReadFix | single_TC/extract_sst.py:71-78 | a fix line reads iff it has at least six fields and both coordinates parse; then raw is the line without newline, ymd its eight digits, lat/lon the parsed fields 4 and 5 |
| Track.FixLines | single_TC/extract_sst.py:71 | every selected line matches `^\d{8},` |
| Track.ReadTrackSucceeds | single_TC/extract_sst.py:69-80 | reading a track file succeeds iff every fix line reads |
| Track.ReadTrackHeader | single_TC/extract_sst.py:79-80 | the header is the non-fix lines without newlines, in order |
| Track.ReadTrackFixes | single_TC/extract_sst.py:71-78 | the fixes are the fix lines read one by one, in order |
| Track.ReadTrackRaw | single_TC/extract_sst.py:74-75 | each fix keeps its line's text and date digits |
| Track.ReadTrackErrorSticks | single_TC/extract_sst.py:69-78 | the first failing line aborts the read; later lines do not change the error |
| Track.ReadTrackFile | single_TC/extract_sst.py:69-80 | the line loop computes the reading function |
| Window.Celsius | single_TC/extract_HYCOM_SST.py:44 | OISST stores hundredths of a degree; HYCOM stores thousandths above 20 °C |
| Window.OffsetsSpan | single_TC/extract_sst.py:85 | `range(-15, 16)` is 31 consecutive offsets from −15 to 15, with 0 at index 15 |
| Window.SignedInt | single_TC/extract_sst.py:86 | `f"{d:+d}"` is a sign (+ for zero and positive) followed by the digits of the magnitude |
| Window.SignedIntInjective | single_TC/extract_sst.py:86 | distinct offsets give distinct texts |
| Window.ColumnNamesDistinct | single_TC/extract_sst.py:86 | the 31 column names are pairwise distinct |
| Window.DailyValueOfFormatted | single_TC/extract_sst.py:34 | slicing the formatted date back into year, month and day reads the same day's value |
| Window.WindowFrom | single_TC/extract_sst.py:88-93 | a defined window has one value per offset |
| Window.WindowFromDefined | single_TC/extract_sst.py:90-93 | the window is defined iff every offset date exists |
| Window.WindowFromValues | single_TC/extract_sst.py:90-93 | entry k is the value on the base date plus offset k |
| Window.WindowDefined | single_TC/extract_sst.py:88-93 | the 31-day window exists iff the base date is at least 15 days from both ends of the calendar |
| Window.WindowValues | single_TC/extract_sst.py:88-93 | entry i is the value on the date with ordinal `base + i − 15` |
| Window.WindowDaysConsecutive | single_TC/extract_sst.py:85-93 | entry 15 is the base date itself and consecutive entries are consecutive days |
| Extract.ReadDatesWellFormed | single_TC/extract_sst.py:66-75 | every fix read from a file has eight-digit `ymd` |
| Extract.FixWindowSpec | single_TC/extract_sst.py:88-95 | a fix's window fails with BadDate iff `strptime` fails, with OutOfRange iff the window leaves the calendar; otherwise it is the 31-day sample |
| Extract.Collect | single_TC/extract_sst.py:95 | collected results have one value per input |
| Extract.CollectSpec | single_TC/extract_sst.py:95 | collecting succeeds iff every row does, keeps row values in order, and otherwise reports the first failure |
| Extract.SampleAllSpec | single_TC/extract_sst.py:95 | `df.apply(sst_window)` succeeds iff every fix's window does; then row k is fix k's window, otherwise the first failing fix's error |
| Extract.WriteOutput | single_TC/extract_HYCOM_SST.py:87-92 | the two write loops write exactly those lines |
| Extract.RowCells | single_TC/extract_sst.py:102-103 | a written row has the fix line's fields followed by one stripped `6.2f` field per value |
| Extract.RowFields | single_TC/extract_sst.py:102-103 | each appended field reads back with `float()` as the value as written |
| Extract.NewlineKeepsKind | single_TC/extract_sst.py:71-80 | removing the newline does not change whether a line is a fix line |
| Extract.FixLinePrefix | single_TC/extract_sst.py:103 | text appended to a fix line leaves it a fix line |
| Extract.FixLineText | single_TC/extract_sst.py:74 | a fix line without its newline is still a fix line |
| Extract.RowKeepsKind | single_TC/extract_sst.py:103 | the row written for a fix line is a fix line |
| Extract.LinesPartition | single_TC/extract_sst.py:69-80 | every input line is a header line or a fix line |
| Extract.ExtractSucceeded | single_TC/extract_sst.py:82-103 | a successful run read the file, found fixes, sampled every window and wrote exactly the output lines |
| Extract.ExtractOutput | single_TC/extract_HYCOM_sst.py:87-92 | the output has one line per input line: header lines first, each unchanged and not a fix line, then one row per fix line that starts with the line's text |
| Extract.OutputOfTrack | single_TC/extract_sst.py:98-103 | the same, for any header, fixes and windows read from the lines |
| Extract.RowOfFixLine | single_TC/extract_sst.py:103 | the row of a fix starts with its line's text followed by `", "` |
| Extract.HeaderLineSource | single_TC/extract_sst.py:79-80 | every header line comes from a non-fix input line |
| Extract.ExtractRowValues | single_TC/extract_sst.py:88-103 | field `−31 + i` of output row j reads back as the value of day `D + i − 15` at fix j's position, as written |
| Extract.FixRowValues | single_TC/extract_sst.py:88-103 | the same for one fix and its window |
| Extract.WindowRowValues | single_TC/extract_sst.py:90-103 | each appended cell reads back as the rescaled raster value of its day, as written |
| Extract.ExtractReadFails | single_TC/extract_sst.py:71-77 | the run fails while reading iff some fix line does not read |
| Extract.ShortFixLineAborts | single_TC/extract_sst.py:72-77 | a fix line with fewer than six fields aborts the run before anything is written |
| Extract.FiveDegreesText | single_TC/extract_sst.py:44 | a stored OISST value of 500 is 5 °C, written `  5.00` |
| Extract.ConstantSourceRow | single_TC/extract_sst.py:88-103 | a source reading 500 everywhere gives the row text followed by 31 cells `  5.00` |
| Extract.LastIndexOf | single_TC/extract_sst.py:60 | finds the last occurrence of the character, or shows there is none |
| Extract.StemOfName | single_TC/extract_sst.py:60 | `Path.stem` of `base.ext` is `base` |
| Extract.OutputBesideInput | single_TC/extract_HYCOM_SST.py:54-57 | the output goes to the sibling `t_data` folder as `<stem>_SST.txt` or `<stem>_HYCOM.txt` |
| Extract.Run | single_TC/extract_sst.py:113-116 | a run writes iff the arguments are a single `.txt` name, the file exists and extraction succeeds, writing the extracted lines to the output path; the usage error comes exactly from bad arguments |
| MissingScan.MissingTokens | find_mixed_missing_sst.py:27-30 | a token is missing iff stripped it is empty, `-999`, or `nan` in any case |
| MissingScan.MissingWhen | find_mixed_missing_sst.py:30 | missing iff the stripped lower-cased token is one of the three markers |
| MissingScan.NaNTokenMissing | find_mixed_missing_sst.py:7 | `NaN` is missing |
| MissingScan.PointNotMissing | find_mixed_missing_sst.py:27 | a token with a decimal point (such as `-999.00`) is never missing |
| MissingScan.WrittenValueMissing | find_mixed_missing_sst.py:30 | a written `6.2f` value counts as missing iff it is NaN |
| MissingScan.WrittenNaNMissing | find_mixed_missing_sst.py:27-30 | a written NaN is missing |
| MissingScan.WrittenInfPresent | find_mixed_missing_sst.py:27-30 | a written infinity is not missing |
| MissingScan.WrittenFinitePresent | find_mixed_missing_sst.py:27-30 | a written number is not missing |
| MissingScan.MixedMeans | find_mixed_missing_sst.py:44 | a window is mixed iff some token is missing and some is not |
| MissingScan.MarkedSound | find_mixed_missing_sst.py:36-45 | each yielded pair names a flagged line by its 1-based number and its text without newline |
| MissingScan.MarkedIncreasing | find_mixed_missing_sst.py:36 | yielded line numbers increase |
| MissingScan.MarkedComplete | find_mixed_missing_sst.py:36-45 | every flagged line is yielded |
| MissingScan.MixedRowsSound | find_mixed_missing_sst.py:33-45 | `mixed_rows` yields only mixed rows, with their line numbers and text |
| MissingScan.MixedRowsOrdered | find_mixed_missing_sst.py:36 | `mixed_rows` yields in file order |
| MissingScan.MixedRowsComplete | find_mixed_missing_sst.py:33-45 | `mixed_rows` yields every mixed row |
| MissingScan.ScanLines | find_mixed_missing_sst.py:35-45 | the generator loop computes `mixed_rows` |
| MissingScan.WrittenMask | find_mixed_missing_sst.py:43 | the missing mask of written cells is the NaN mask of the values |
| MissingScan.WrittenRowMask | find_mixed_missing_sst.py:37-43 | a written row is a fix line with at least 31 fields whose last 31 flags are the NaN flags of its window |
| MissingScan.MixedByMask | find_mixed_missing_sst.py:40-44 | such a row is mixed iff its window holds both a NaN and a number |
| MissingScan.WrittenRowMixed | find_mixed_missing_sst.py:37-45 | a row written by the extractor is reported iff its window mixes NaN and numbers |
| MissingScan.NaNMaskSpec | find_mixed_missing_sst.py:44 | some flag is set iff the window has a NaN; not all iff it has a number |
| MissingScan.Preview | find_mixed_missing_sst.py:59 | a row of up to 40 characters is shown whole; a longer one is its first 40 and `…` |
| MissingScan.HitLines | find_mixed_missing_sst.py:60 | one report line per hit |
| MissingScan.HitLinesAt | find_mixed_missing_sst.py:60 | report line k is `name: line n  (preview)` for hit k |
| MissingScan.HitLinesFound | find_mixed_missing_sst.py:53-60 | there are hit lines iff some file has a mixed row |
| MissingScan.ReportFound | find_mixed_missing_sst.py:53-63 | with no mixed row the output is the confirmation alone; otherwise the heading then the hit lines, file by file |
| MissingScan.ListLines | find_mixed_missing_sst.py:55-60 | the print loop prints the heading once, before the first hit, and keeps `found` iff something was printed |
| MissingScan.PrintReport | find_mixed_missing_sst.py:48-63 | `main` prints exactly the report |
| StatusCount.BumpCounts | count_tc_status.py:24 | `counts[s] += 1` raises exactly s's count by one, keeps the tally well formed and appends a new key at the end |
| StatusCount.BumpGet | count_tc_types.py:24 | reading any status after an increment |
| StatusCount.BumpTotal | count_tc_status.py:24 | one increment raises the total by one |
| StatusCount.AddAllWellFormed | count_tc_status.py:17-24 | counting keeps keys distinct and all counts positive |
| StatusCount.AddAllCounts | count_tc_status.py:17-24 | each status's count grows by its number of occurrences |
| StatusCount.AddAllTotal | count_tc_status.py:37 | the total grows by the number of counted lines |
| StatusCount.AddAllGrows | count_tc_types.py:17-24 | counts never decrease |
| StatusCount.AddAllConcat | count_tc_status.py:34-35 | counting two files one after the other is counting their lines together |
| StatusCount.TotalZero | count_tc_status.py:37-38 | the total is zero iff no status was counted |
| StatusCount.SumOverPositive | count_tc_status.py:37 | a sum of positive counts is positive |
| StatusCount.CountedTally | count_tc_types.py:32-36 | counting a status list gives each status its multiplicity, holds exactly the seen statuses and totals the list length |
| StatusCount.Counter.constructor | count_tc_status.py:33 | a new `Counter` is empty |
| StatusCount.Counter.Add | count_tc_status.py:24 | `counts[s] += 1` on the object |
| StatusCount.Counter.Accumulate | count_tc_status.py:17-24 | `accumulate_counts` adds the status of every counted line of a file |
| StatusCount.Counter.Sum | count_tc_status.py:37 | `sum(counts.values())` is the tally's total |
| StatusCount.CountFiles | count_tc_status.py:33-35 | the counter after all files holds the tally of all their statuses |
| StatusCount.InsertPermutes | count_tc_status.py:43 | insertion adds exactly one entry |
| StatusCount.InsertSorted | count_tc_status.py:43 | insertion keeps counts non-increasing |
| StatusCount.InsertStable | count_tc_status.py:43 | insertion keeps equal-count entries in order |
| StatusCount.SortPermutes | count_tc_status.py:43 | the sort is a permutation |
| StatusCount.SortSorted | count_tc_status.py:43 | the sort orders by non-increasing count |
| StatusCount.SortStable | count_tc_status.py:43 | the sort keeps ties in first-seen order |
| StatusCount.MostCommonSpec | count_tc_status.py:43 | `most_common()` is a permutation of the items, by count descending, ties in insertion order |
| StatusCount.MostCommonRows | count_tc_types.py:42-44 | the printed rows are exactly the seen statuses with their numbers of occurrences |
| StatusCount.Table | count_tc_status.py:43-44 | one table line per entry |
| StatusCount.TableAt | count_tc_status.py:44 | line k is `f'{status:>3} : {n}'` for entry k |
| StatusCount.SummaryOf | count_tc_status.py:37-46 | no statuses give only `No status codes found.`; otherwise the heading, the table, twenty dashes and the total |
| StatusCount.PrintTable | count_tc_status.py:43-44 | the print loop appends exactly the table |
| StatusCount.PrintSummary | count_tc_types.py:32-45 | `main` after the directory check prints exactly the summary of the files' statuses |
| StatusCount.StatusMain | count_tc_status.py:27-46 | prints the directory, then the summary of its `*.txt` files |
| StatusCount.TypesMain | count_tc_types.py:27-45 | prints the summary of the `*_SST.txt` files |
| WindowLoaders.ParseAllSpec | plot_sst_diff_pdfs.py:55-58 | `np.array(cells, dtype=float)` succeeds iff every cell converts, giving the converted values in order |
| WindowLoaders.EmptyCellFails | plot_sst_window.py:41-44 | an empty cell does not convert, so its row is skipped |
| WindowLoaders.NaNCellParses | plot_single_track_sst.py:37-38 | a `nan` cell converts to NaN |
| WindowLoaders.StormSelect | plot_sst_diff_pdfs.py:50-59 | a line is kept iff it is a fix line with at least 31 fields, status TS or HU and convertible last 31 fields; the window is their values |
| WindowLoaders.SingleTrackSelect | plot_single_track_sst.py:32-41 | a line is kept iff its first eight characters are digits, it has at least 31 fields and its last 31 convert |
| WindowLoaders.FixLineIsDataLine | plot_single_track_sst.py:32 | every fix line passes `line[:8].isdigit()` |
| WindowLoaders.DataLineNeedsNoComma | plot_single_track_sst.py:32 | `line[:8].isdigit()` also accepts lines that are not fix lines |
| WindowLoaders.EmptyFieldSkipped | plot_sst_window.py:38-44 | an empty field among the last 31 makes every loader skip the line |
| WindowLoaders.ParseAllOf | plot_sst_window.py:42 | cells that each read as a value convert to those values |
| WindowLoaders.WrittenLast | plot_sst_window.py:38-42 | the last 31 fields of an extracted row are its window's cells |
| WindowLoaders.WrittenCells | plot_sst_window.py:42 | those cells read back as the window as written |
| WindowLoaders.WrittenStormRow | plot_sst_window.py:36-45 | an extracted TS/HU row loads back as its window as written |
| WindowLoaders.WrittenTrackRow | plot_single_track_sst.py:32-41 | any extracted row loads back as its window as written |
| WindowLoaders.PickedConcat | plot_sst_window.py:33-45 | rows from two stretches of lines are the rows of each, in order |
| WindowLoaders.PickedSnoc | plot_sst_window.py:35-45 | one more line adds its row if it has one |
| WindowLoaders.PickedMembers | plot_sst_window.py:35-45 | a row is loaded iff some line yields it |
| WindowLoaders.SelectedConcat | plot_sst_diff_pdfs.py:47-59 | the storm rows of concatenated lines concatenate |
| WindowLoaders.SelectedRows | plot_sst_diff_pdfs.py:49-59 | a window is loaded iff some line yields it |
| WindowLoaders.AllPickedEmpty | plot_sst_window.py:46-47 | nothing is loaded iff no file yields a row |
| WindowLoaders.SelectedWidth | plot_sst_diff_pdfs.py:56-62 | every loaded window has 31 values, so the rows stack |
| WindowLoaders.AllSelectedEmpty | plot_sst_diff_pdfs.py:60-61 | no storm rows iff no file has one |
| WindowLoaders.LoadWindowsSpec | plot_sst_diff_pdfs.py:60-62 | the directory loader raises its message iff no `*_SST.txt` file has a storm row |
| WindowLoaders.LoadTrackSpec | plot_single_track_sst.py:42-44 | the single-file loader raises, naming the file, iff no line yields a window |
| WindowLoaders.ReadRows | plot_sst_window.py:35-45 | the line loop appends exactly the rows of the lines |
| WindowLoaders.LoadDirectory | plot_sst_window.py:30-48 | the file loop computes the directory loader |
| WindowLoaders.LoadFile | plot_single_track_sst.py:27-44 | the line loop computes the single-file loader |
| WindowStats.Days | plot_sst_window.py:69 | `np.arange(-15, 16)` has 31 days |
| WindowStats.DaysAxis | plot_sst_window.py:69-71 | column i is day i − 15, the same axis as the extractor's offsets; indices 15, 0, 5, 11 are days 0, −15, −10, −4 |
| WindowStats.BaselineSpan | plot_sst_window.py:74 | the baseline slice `[5:12]` is the seven days −10 … −4 |
| WindowStats.Anomaly | plot_sst_window.py:75 | an anomaly row is 31 wide |
| WindowStats.AnomalySpec | plot_sst_window.py:74-77 | each anomaly is the value minus the baseline (NaN if either is NaN); ΔSST is the day-0 anomaly |
| WindowStats.BaselineValue | plot_sst_window.py:74 | with finite values on days −10 … −4, the baseline is exactly (v₅ + v₆ + … + v₁₁) / 7 of the row's values |
| WindowStats.FiniteBaseline | plot_sst_window.py:74-77 | finite baseline days give a finite baseline, and ΔSST is NaN iff day 0 is |
| WindowStats.PanelsSpec | plot_sst_diff_pdfs.py:111-114 | panel a is day 0 minus day −15, b day 0 minus day −10, c the same ΔSST as the grouping |
| WindowStats.PanelValues | plot_sst_diff_pdfs.py:117-119 | one value per row for each panel |
| WindowStats.Where | plot_sst_window.py:80-81 | boolean indexing keeps as many rows as the mask has true entries |
| WindowStats.WhereMembers | plot_sst_window.py:80-81 | a row is kept iff its flag is set |
| WindowStats.KeepRow | plot_sst_window.py:80-81 | one flag per row |
| WindowStats.SignsExclusive | plot_sst_window.py:80-81 | no ΔSST is both below and above zero; it is neither exactly when it is 0 or NaN |
| WindowStats.TruesPartition | plot_sst_window.py:79-81 | three exclusive masks covering all rows count to the number of rows |
| WindowStats.GroupsPartition | plot_sst_window.py:79-81 | the negative and positive groups plus the zero-or-NaN rows are all rows; the all group keeps every row |
| WindowStats.KeptMembers | plot_sst_window.py:80-81 | a kept anomaly row comes from a row whose ΔSST passes the test |
| WindowStats.GroupMembers | plot_sst_window.py:80-81 | `anom[delta < 0]` holds exactly the anomaly rows with negative ΔSST, and `anom[delta > 0]` those with positive ΔSST |
| WindowStats.GroupsAreArrays | plot_sst_window.py:79-85 | every group is rows of 31 values |
| WindowStats.ColumnValues | plot_sst_window.py:57 | a column has one value per row |
| WindowStats.NonNaNSpec | plot_sst_window.py:57 | the values `nanmean` averages are exactly the non-NaN values |
| WindowStats.NanMeanSpec | plot_sst_window.py:57 | an all-NaN column has NaN mean; a column with a finite value and no infinity has a finite mean |
| WindowStats.StatsSpec | plot_sst_window.py:54-57 | an empty group gives 31 NaN medians and means; otherwise the per-day `nanmedian` and `nanmean` of the columns |
| WindowStats.Positives | plot_sst_diff_pdfs.py:74 | at most all values are positive |
| WindowStats.FinitesSpec | plot_sst_diff_pdfs.py:69-70 | no finite values remain iff none of the data is finite |
| WindowStats.PositivesAll | plot_sst_diff_pdfs.py:74 | all values are positive iff each is; none iff each is at most zero |
| WindowStats.PercentBounds | plot_sst_diff_pdfs.py:74 | a share of positives times 100 is in 0 … 100, reaching the ends exactly at none and all |
| WindowStats.PanelSpec | plot_sst_diff_pdfs.py:68-74 | a panel shows "No data" iff no value is finite; otherwise the share above zero is 0 … 100, 100 iff all finite values are positive, 0 iff none is |

## Left out

- Earth Engine (`ee.Initialize`, the image collections, `filterDate`, `reduceRegion` at 20 km, `getInfo`) is not modelled. The model treats it as a parameter `Raster` that gives the stored band value for a day and position, or nothing. Both "no image" and an exception inside `get_daily_sst` map to nothing, which gives NaN.
- Window.Celsius: values are exact reals, so the binary rounding of `0.01`, `0.001` and of sums is not modelled. Neither is any floating-point rounding in Floats.Add, Floats.Sub, Floats.Sum and Floats.Mean.
- Text.IsDigit, Text.AllDigits, Text.IsFixLine and WindowLoaders.IsDataLine accept only the ASCII digits `0`-`9`. Python's `\d` and `str.isdigit()` also accept other Unicode decimal digits, and `isdigit()` also accepts characters such as `²`. Text.Lower, Text.LowerChar and Text.UpperChar change only the ASCII letters A-Z and a-z, one character for one. Python's `lower()` and `upper()` also map other letters and can change the length (`'İ'.lower()` has two characters). Unicode case mapping and digit classes are not modelled.
- Floats.ParseFloat covers decimal text with an optional sign, fraction and exponent, plus `nan`, `inf` and `infinity` in any case. Underscores between digits, Unicode digits and overflow to infinity are not modelled.
- Floats.Format62 formats with exact round-half-even on the real value. CPython rounds the binary double, so a value whose decimal text ends in 5 may round differently there.
- Calendar.FormatYmd writes years below 1000 zero-padded to four digits. What `strftime("%Y")` does for those years depends on the C library.
- Extract.Extract models the empty fix list as the error `NoFixes`. Assigning 31 columns to the empty frame that pandas builds from no rows raises, so nothing is written.
- `pd.DataFrame`, `df.apply` and `iterrows` are not modelled beyond their effect: one row per fix, in file order, with the first failing fix's exception aborting the run.
- Filesystem plumbing is not modelled: `expanduser`, `resolve`, `mkdir`, opening files, `is_file` and `is_dir`, the relative display path and the `✓ Wrote` line. A file's contents are its list of lines, and a directory is a given list of named files. `sorted()` is taken to return that list's order. The unsorted `glob` of the two counters is taken to return it too; only the order of equal counts depends on it.
- The `sys.exit` messages of the directory checks are not modelled; a missing directory simply ends the script.
- The default directories (`./t_data` and `./single_TC` beside the script) are not modelled.
- `np.nanmedian` is a parameter of WindowStats.Stats, because sorting floats is not part of this model.
- The plotting itself is not modelled: the KDE (`gaussian_kde`, `linspace`), the histogram fallback, colours, labels, the red/blue fill, saving PNG and PDF, and `plt.show`. Only the data each panel receives, its "No data" case and the percentage above zero are modelled.
- WindowStats.PercentBounds: the percentage is kept as an exact real. The `.1f` formatting of the label is not modelled.
- Extract.Run: the resolved input path is a list of path components that the file system supplies; `Path.resolve` itself is not modelled.

## Notes on the code

- The docstring of find_mixed_missing_sst.py (line 13) shows the first 20 characters of a row. The code shows the first 40, followed by `…` when the row is longer (MissingScan.Preview).
- `parse_latlon` (single_TC/extract_sst.py:27-28) keeps the number positive only when its last character is N, n, E or e. Any other last character, including a digit or an unknown letter, negates it (Track.HemisphereSign).
- The missing-value scan (find_mixed_missing_sst.py:39-42) requires at least 31 fields in total and takes the last 31. A line with at least 31 fields but fewer appended cells is therefore scanned with some track fields among its last 31 (MissingScan.MixedRowsSound).
- The window dates of single_TC/extract_sst.py (lines 89-91) come from `strptime`, which raises on an impossible date, and from `timedelta` addition, which raises `OverflowError` within 15 days of 0001-01-01 or 9999-12-31. Neither is caught, so either aborts the whole run before any output (Extract.FixWindowSpec, Window.WindowDefined).
- count_tc_status.py counts every `*.txt` file and prints the directory first. count_tc_types.py counts only `*_SST.txt` files (StatusCount.StatusMain, StatusCount.TypesMain).
- plot_single_track_sst.py keeps lines whose first eight characters are digits, without requiring the comma that the other scripts require (WindowLoaders.DataLineNeedsNoComma).
