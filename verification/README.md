# Sample-sheet scraper, modelled in Dafny

This project models the reconciliation core of `sequencing_scraper`. A
sequencing facility keeps one folder per instrument run. Each folder is named
`YYMMDD_...` and holds a `SampleSheet.csv`: a preamble of instrument metadata,
a header row whose first cell is `Sample_ID`, and then one row per sample.

`SampleSheetFinder.run` (scraper.py) works in these steps:

- reads an append-only index of sheets already processed;
- finds each run folder's expected sheet;
- drops every sheet that is the same file as an indexed one;
- groups the rest by the date in their run folder's name;
- writes one output sheet per date, either a verbatim copy or a merge;
- appends the new sheets' resolved paths to the index.

The older `sequencing_scraper.py` shares the index and the filter, and adds:

- a depth-bounded tree search for sheets;
- a sample-id date decoder;
- a row gatherer that renames columns through `COLUMNMAP`.

The model is purely functional:

- A filesystem is a map from paths to nodes. Each node carries its stat
  identity, and a file's contents are already-split CSV rows.
- A tree the running program sees is `Consistent`: the working directory
  `.` exists and is a directory, and one stat identity names one node. The
  lemmas that depend on this say so.
- Every modelled error path returns a `Result`. Permission errors are not
  modelled (see "## Left out").
- `Path.resolve` is a parameter of the run.

Modules, in dependency order:

| module | file | models |
|---|---|---|
| `Results` | results.dfy | `Option` and `Result`, with `:-` propagation |
| `Text` | text.dfy | `str.split`, `strip`, joining, clamped slices, `int()` on digits |
| `Order` | order.dfy | Python's lexicographic comparison of sequences and strings |
| `Paths` | paths.dfy | `PurePosixPath`: `/`, `.parent`, `.name`, ordering, `str()` and `Path(text)` |
| `FileSystem` | filesystem.dfy | `exists`, `is_file`, `is_dir`, `iterdir`, reading rows, `samefile` |
| `Sheets` | sheets.dfy | `csv.DictReader`/`DictWriter` with the ten field names, `get_sheet_header`, `read_samplesheet` |
| `Dates` | dates.dfy | `get_sequencing_date_from_folder`, `extract_date_from_sample_id` |
| `Locator` | locator.dfy | `get_expected_files`, `search_for_sample_sheets` |
| `Dedup` | dedup.dfy | `filter_samplesheets` (both copies) |
| `Organizer` | organizer.dfy | `organize_samplesheets` |
| `Merger` | merger.dfy | `combine_samplesheets`, `write_organized_samplesheets` |
| `PathIndex` | index.dfy | `read_index`, `update_index`, `write_index` |
| `Pipeline` | pipeline.dfy | the step order of `run`, and what a second run does |
| `Gather` | gather.dfy | `COLUMNMAP` and the row gathering of `combine_sample_sheets` |

The code and the test suite disagree in a few places. The model follows the
code each time:

- `combine_samplesheets` writes only the LAST sheet's preamble. `header` is
  rebound on every pass of the reading loop, so earlier preambles are lost.
- `organize_samplesheets` takes the date from the sheet's parent folder
  (`samplesheet.parent`). The test at tests/test_scraper.py:185-194 expects
  the date to come from the file name.
- `filter_samplesheets` calls `samefile`, which raises when an indexed path
  no longer exists. A deleted sheet that is still in the index therefore
  makes the whole run fail whenever some candidate's scan reaches that entry
  before finding its match. A candidate matched by an earlier entry never
  gets that far. The model keeps this error path (`Dedup.ScanFails`).
- An index this program wrote ends each entry with a newline, which leaves a
  final empty line. `Path("")` reads that line as `.`, so such an index reads
  back with a trailing `.` entry (`PathIndex.IndexReadBack`). On a consistent
  tree that entry never changes the filter (`Dedup.TrailingDotHarmless`).
- The test fixture writes its index with `"\n".join`, so the file has no final
  newline (tests/test_scraper.py:56). `update_index` then glues the first new
  path onto the old last line (`PathIndex.GluedLine`).
- `read_text()` reads the index with universal newlines, so `\r\n` and a
  lone `\r` end a line as `\n` does. An index with Windows line endings
  reads like one without (`PathIndex.CrlfIndex`). A resolved path whose text
  holds a `\r` is read back as two entries (`PathIndex.CarriageReturnSplits`).

## Model

| member | source | states |
|---|---|---|
| Text.StripStart | scraper.py:30 | `lstrip` removes exactly a leading run of whitespace: the result is a suffix, everything cut is whitespace, and the result does not start with whitespace |
| Text.StripEnd | scraper.py:30 | `rstrip` removes exactly a trailing run of whitespace: the result is a prefix, everything cut is whitespace, and the result does not end with whitespace |
| Text.StripUnchanged | scraper.py:30 | `strip` leaves a folder code alone when neither end is whitespace |
| Text.BeforeFirst | scraper.py:30 | `split(c)[0]` is the longest prefix without `c`; when shorter than the text, it stops at a `c` |
| Text.BeforeFirstIgnoresRest | scraper.py:30 | whatever follows the first separator does not change `split(c)[0]` |
| Text.Split | scraper.py:181 | `split` yields at least one piece, and no piece contains the separator |
| Text.JoinSplit | scraper.py:181 | joining the pieces of a split with the separator gives back the text |
| Text.SplitJoin | scraper.py:181 | splitting the join of separator-free pieces gives back the pieces |
| Text.SplitAppendLines | scraper.py:181-189 | appending newline-terminated, newline-free lines to newline-terminated text splits as the old lines (minus the final empty piece), the new lines, then one empty piece |
| Text.Newlines | scraper.py:181 | the universal-newline translation of `read_text()` leaves no `\r` behind |
| Text.NewlinesFree | scraper.py:181 | text without a `\r` is read unchanged |
| Text.NewlinesAppend | scraper.py:181 | translation works piece by piece when the first piece does not end in `\r` |
| Text.NewlinesKeepsEnd | scraper.py:181 | text that ends in `\n` still does after translation |
| Text.TerminatedFree | scraper.py:187-189 | lines free of `\r`, each followed by a newline, hold no `\r` |
| Text.ParseInt | sequencing_scraper.py:34-36 | `int(s)` succeeds exactly on non-empty ASCII digit strings (signs and whitespace are left out, see below) |
| Text.ParseIntSnoc | sequencing_scraper.py:34-36 | `int()` of one digit is that digit; one more digit shifts the value a decimal place and adds the digit; text that failed keeps failing. This fixes the value on every input |
| Text.ParseIntDecimal | sequencing_scraper.py:36 | `int()` reads back the decimal rendering of any number, after any run of leading zeros (`int("017") == 17`) |
| Order.LexIrreflexive | scraper.py:101 | Python's sequence comparison is irreflexive when the element order is a strict total order |
| Order.LexTransitive | scraper.py:101 | that comparison is transitive |
| Order.LexTotal | scraper.py:101 | any two different sequences are comparable |
| Order.StrLessStrictTotal | scraper.py:101 | string comparison by code point is a strict total order |
| Paths.JoinInverse | scraper.py:25-26 | `(folder / name).parent == folder` and `(folder / name).name == name` |
| Paths.JoinInjective | scraper.py:151 | `folder / name` determines both the folder and the name |
| Paths.PathLessIrreflexive | scraper.py:101 | no path sorts before itself |
| Paths.PathLessTransitive | scraper.py:101 | path ordering is transitive |
| Paths.PathLessAsymmetric | scraper.py:101 | two paths never sort before each other |
| Paths.PathLessTotal | scraper.py:101 | any two different paths are ordered one way or the other, so `sorted` has one answer |
| Paths.EmptyIsWorkingDir | scraper.py:181 | an empty index line reads as `.`, the working directory, and `.` renders and reads back as itself |
| Paths.Components | scraper.py:181 | `Path(text)` keeps only non-empty components other than `.`, all taken from the text |
| Paths.ComponentsKeepsGood | scraper.py:181 | pieces that are all proper components are kept unchanged |
| Paths.ParseRender | scraper.py:181-189 | `Path(str(p)) == p` for every well-formed path, so a written index line reads back as the path written |
| FileSystem.Children | scraper.py:68 | `iterdir` yields `folder / entry` for each entry, in directory order |
| FileSystem.IterDir | scraper.py:68 | `iterdir` succeeds exactly on directories |
| FileSystem.ReadRows | scraper.py:135 | opening a path for reading succeeds exactly on files, at the level of rows |
| FileSystem.SameFile | scraper.py:112 | `samefile` raises exactly when either path is missing; otherwise it answers whether both name the same node |
| Sheets.Records | scraper.py:136 | the records a reader yields are non-blank and no more numerous than the rows; a stretch of non-blank rows is kept whole, and a stretch of blank rows yields nothing |
| Sheets.RecordsAppend | scraper.py:136 | the reader works row by row: two stretches of the file give the first one's records, then the second's. With the cases above, this fixes the records' order and multiplicity |
| Sheets.RecordsMembers | scraper.py:136 | a row is a record exactly when it is a non-blank row of the file |
| Sheets.SplitAtSentinel | scraper.py:14-22 | the preamble holds no header row; with no header row everything is preamble and the data is empty; otherwise the records are preamble, then the first header row, then the data |
| Sheets.ParseSheetWellRead | scraper.py:134-140 | a read sheet has no blank rows anywhere and no header row in its preamble |
| Sheets.ReadSampleSheet | scraper.py:134-140 | reading succeeds exactly on files and gives the preamble and the data rows of the file's records |
| Sheets.Pad | scraper.py:128-132 | a written record has ten cells: the record's cells, then empty cells |
| Sheets.WriteRows | scraper.py:130-132 | `writerows` succeeds exactly when every record has at most ten cells; otherwise it raises for the output file; each written row is the padded record |
| Locator.ExpectedFilenameInverse | scraper.py:25-26 | the expected sheet of a folder is named `SampleSheet.csv` and its parent is the folder |
| Locator.Classify | scraper.py:68-75 | an entry is reported missing exactly when it is not a file and lacks its sheet; a path is reported defined exactly when it is an existing `SampleSheet.csv` whose parent is a non-file entry |
| Locator.ClassifyPartition | scraper.py:68-75 | plain files land in neither list; every other entry lands in exactly one |
| Locator.GetExpectedFiles | scraper.py:66-75 | succeeds exactly when the root is a directory; every non-file child lands in exactly one list, as its sheet when that exists and as itself otherwise; plain files in neither |
| Locator.Walk | sequencing_scraper.py:46-51 | everything found is a non-directory named exactly `SampleSheet.csv` |
| Locator.Found | sequencing_scraper.py:47-50 | one entry contributes only non-directories named exactly `SampleSheet.csv` |
| Locator.Search | sequencing_scraper.py:43-51 | an index above 3 returns `[]` at once; otherwise the search succeeds exactly on a directory and finds only sheets |
| Locator.FoundExactly | sequencing_scraper.py:46-50 | an entry contributes exactly the sheets below it within the remaining depth |
| Locator.WalkExactly | sequencing_scraper.py:46-51 | the loop finds exactly the sheets below the listed entries within the remaining depth |
| Locator.SearchFindsExactly | sequencing_scraper.py:43-51 | from a directory at index `i`, the search finds exactly the sheets at most `4 - i` levels down, reached through listed entries |
| Dates.FolderDateOfCode | scraper.py:29-35 | a folder named `YYMMDD` or `YYMMDD_...` gets the ten-character key `20YY-MM-DD` |
| Dates.KeyToCode | scraper.py:29-35 | the code recovered from a date key is a six-character folder code |
| Dates.FolderDateRoundTrip | scraper.py:29-35 | decoding a folder named with a key's code, plus any `_` suffix, gives the key back |
| Dates.FolderDateExample | scraper.py:29-35 | a folder `170120_xyz` is keyed `2017-01-20` |
| Dates.DateFromSampleId | sequencing_scraper.py:29-40 | a non-string gives `None`; any date returned is a valid calendar date in year 2000 or later; the only error that escapes is the OverflowError of a year past the C `int` range; a code of at most four characters before the first `_` (`"031_5"`, `"1"`, `""`) gives `None` |
| Dates.SampleIdFields | sequencing_scraper.py:31-39 | for a code of more than four characters before the first `_`, month, day and year are read by position (the year may be empty). The OverflowError escapes exactly when all three parse and the year passes 2147483647. `None` comes back exactly when a field fails to parse, or when the year fits but the date is not valid. Otherwise the result is the date |
| Dates.SampleIdRoundTrip | sequencing_scraper.py:31-37 | every valid date of this century, written as MMDDYY with any `_` suffix, decodes back to itself |
| Dates.SampleIdExample | sequencing_scraper.py:31-37 | `032117_19` decodes to 21 March 2017 |
| Dates.SampleIdRejectsMonth | sequencing_scraper.py:33-39 | month 13 gives `None` instead of raising |
| Dates.SampleIdRejectsDay | sequencing_scraper.py:33-39 | 29 February 2017 gives `None` |
| Dates.SampleIdRejectsMissingYear | sequencing_scraper.py:33-39 | an empty year field gives `None` |
| Dates.SampleIdRejectsLetters | sequencing_scraper.py:33-39 | a non-numeric day gives `None` |
| Dates.SampleIdOverflowExactly | sequencing_scraper.py:36-38 | for any two-digit month and day, a year field that reads as 2147481648 or more, with any leading zeros, makes `datetime.date` raise OverflowError, which `except ValueError` does not catch. A smaller year field never raises |
| Dates.SampleIdOverflowExample | sequencing_scraper.py:36-38 | `01012147481648` raises rather than giving `None` |
| Dedup.ScanFailsCons | scraper.py:111-113 | the scan for one candidate raises exactly when the first comparison does, or when it does not match and the rest of the scan raises |
| Dedup.MatchesAny | scraper.py:111-113 | the inner loop raises exactly when it reaches a missing path before a match; otherwise it answers whether some indexed path is the same file |
| Dedup.FilterSheets | scraper.py:104-118 | the filter raises exactly when some candidate's scan reaches a missing path before a match; otherwise it keeps exactly the unmatched candidates, in order (the copy at sequencing_scraper.py:138-153 is the same loop) |
| Dedup.UnmatchedExactly | scraper.py:109-118 | a path is kept exactly when it is a candidate and no indexed path is the same file (sound and complete) |
| Dedup.UnmatchedShorter | scraper.py:109-118 | the filter never keeps more paths than it was given |
| Dedup.EmptyIndexKeepsAll | scraper.py:110-117 | with an empty index, every candidate is kept, in order, and nothing raises |
| Dedup.MatchesAnySnoc | scraper.py:111-113 | a last index entry that exists and is not the candidate's file changes neither the scan's answer nor its error |
| Dedup.TrailingDotHarmless | scraper.py:110-117 | on a consistent tree, the `.` entry at the end of a written index leaves the filter's result and error unchanged for sheet files |
| Organizer.Insert | scraper.py:101 | inserting into a strictly ascending list keeps it strictly ascending and adds exactly the new element |
| Organizer.SortUnique | scraper.py:101 | `sorted(set(v))` is strictly ascending and holds exactly the elements of `v` |
| Organizer.SortedUnique | scraper.py:101 | two strictly ascending lists with the same elements are equal, so `SortUnique` is the one possible answer |
| Organizer.AddToGroupKeepsGrouped | scraper.py:93-99 | one turn of the grouping loop keeps the dict grouped by key, now including the new sheet |
| Organizer.AddToExisting | scraper.py:98-99 | appending to an existing key keeps the dict grouped |
| Organizer.AddToNew | scraper.py:96-97 | adding a new key keeps the dict grouped |
| Organizer.NewKeyValid | scraper.py:96-97 | a new key is listed once, at the end of the insertion order |
| Organizer.Group | scraper.py:92-99 | every sheet sits in its key's bucket and in no other; every key has at least one sheet; the keys are listed once each |
| Organizer.SortBuckets | scraper.py:101 | the dict keeps its keys and their order; each bucket keeps its elements and becomes strictly ascending |
| Organizer.SortBucketsKeepsGrouped | scraper.py:101 | sorting and de-duplicating the buckets keeps the grouping |
| Organizer.Organize | scraper.py:90-102 | every selected sheet sits in the bucket of its parent folder's date and in no other; every key has a sheet; every bucket is strictly ascending |
| Organizer.OrganizeDropsRepeats | scraper.py:100-101 | no bucket holds the same sheet twice |
| Merger.ReadAll | scraper.py:123-124 | reading the sheets succeeds exactly when all are files, and gives each file's rows in list order |
| Merger.AllDataAppend | scraper.py:125 | `all_lines` over two runs of sheets is the concatenation of each |
| Merger.AllDataAt | scraper.py:123-125 | each sheet's data rows sit, in order, between those of the sheets before and after it |
| Merger.AllDataCount | scraper.py:123-125 | the merged data-row count is the sum of the sheets' counts |
| Merger.AllDataFits | scraper.py:128-132 | every merged row fits the ten fields exactly when every sheet's data rows do |
| Merger.MergeSheets | scraper.py:121-132 | writing succeeds exactly when the last preamble and all data rows fit; the output is the last sheet's preamble, the field-name header, then every sheet's data rows, each padded |
| Merger.CombineSheets | scraper.py:121-132 | any missing sheet aborts the merge; otherwise the merge is written from the sheets' parsed rows |
| Merger.SplitLaidOut | scraper.py:14-22 | preamble, header row, data splits back into that preamble and that data |
| Merger.MergeReadBack | scraper.py:121-140 | reading a merged output back gives the last preamble and every sheet's data rows, each padded to ten cells |
| Merger.PadKeepsFirst | scraper.py:128-132 | padding keeps whether a record is a header row |
| Merger.OutputPathInjective | scraper.py:151 | different date keys never share an output file |
| Merger.WriteBucket | scraper.py:152-155 | an empty bucket writes nothing; one sheet is copied row for row and needs that file; two or more are merged |
| Merger.WriteKeys | scraper.py:150-155 | the loop over the keys succeeds exactly when every key's write does, and records exactly the files written |
| Merger.WroteByKey | scraper.py:150-155 | the files written are, key by key, the output files of the keys whose write produced a file |
| Merger.WriteOrganized | scraper.py:149-155 | one file per date key with sheets, named `<key>.SampleSheet.csv`, holding that bucket's copy or merge; nothing else is written |
| PathIndex.ReadIndex | scraper.py:179-183 | a missing index reads as empty; otherwise there is one path per line, lines being ended by `\n`, `\r\n` or `\r`, so at least one (`read_index` at sequencing_scraper.py:125-129 is the same) |
| PathIndex.CrlfIndex | scraper.py:181 | an index with `\r\n` line endings reads as the same index with `\n` endings |
| PathIndex.CarriageReturnSplits | scraper.py:181-189 | a resolved path `/a\rb` is written as one line and read back as `/a`, `b` and `.` |
| PathIndex.AppendIndex | scraper.py:185-189 | the earlier index text is a prefix of the new one; nothing new is written when nothing was selected (`write_index` at sequencing_scraper.py:131-135 appends the same way) |
| PathIndex.ReadBefore | scraper.py:181 | index text ending in a newline reads as its old lines and then a final empty line |
| PathIndex.ReadAfter | scraper.py:181-189 | after an update the index text reads as the old lines, the new lines and a final empty line |
| PathIndex.LinesReadBack | scraper.py:181-189 | each line written reads back as the resolved path it renders |
| PathIndex.IndexReadBack | scraper.py:179-189 | after an update the index reads back as the earlier entries, then each new sheet's resolved path in order, then `.`, when no resolved path holds `\n` or `\r` |
| PathIndex.FirstIndex | scraper.py:179-189 | a missing index reads as empty; the first update reads back as the new sheets' resolved paths, then `.`, when no resolved path holds `\n` or `\r` |
| PathIndex.GluedLine | scraper.py:179-189 | on an index file without a final newline, the first appended path is glued onto the old last line: `a\nb` plus `/c` reads back as `a`, `b/c`, `.` |
| Pipeline.Run | scraper.py:50-62 | the run succeeds exactly when the scan, the filter and every write succeed; it then selects the unindexed sheets, groups them, writes them, and appends them to the index |
| Pipeline.SelectedHaveOutputs | scraper.py:57-61 | every newly selected sheet has an output file for its folder's date |
| Pipeline.ExtendsKeeps | scraper.py:185-189 | after an update, the index still holds every earlier entry and holds each new sheet's resolved path |
| Pipeline.AllIndexed | scraper.py:104-118 | once the index holds the earlier entries and the resolved new sheets, every candidate is matched |
| Pipeline.NoneLeft | scraper.py:104-118 | when every candidate is matched and every path exists, the filter keeps nothing and does not raise |
| Pipeline.UnmatchedNone | scraper.py:109-118 | when every candidate is matched, none is kept |
| Pipeline.OrganizeNothing | scraper.py:90-102 | an empty selection has no dates |
| Pipeline.NothingNewSelectsNothing | scraper.py:50-62 | a run whose filter keeps nothing succeeds, selects nothing and writes no file |
| Pipeline.UpdatedIndexExists | scraper.py:179-189 | on a consistent tree, when the earlier index names only existing paths, so does the updated one, for resolved paths without `\n` or `\r` |
| Pipeline.ExtendsExists | scraper.py:185-189 | an extended index names only existing paths when the earlier index did and every new entry exists |
| Pipeline.RerunSelectsNothing | scraper.py:50-62 | on an unchanged, consistent tree whose earlier index names only existing paths, running again with the index the first run left succeeds and selects nothing, for an index that ends in a newline or is missing and resolved paths without `\n` or `\r` |
| Gather.Rename | sequencing_scraper.py:86 | renaming succeeds exactly when every column is in `COLUMNMAP`, mapping each column to its entry |
| Gather.RenameFieldnames | sequencing_scraper.py:10-26 | renaming is total on the ten field names and gives ten distinct column names |
| Gather.ColumnMapMerges | sequencing_scraper.py:10-26 | the map is many-to-one: `Sample_ID`/`SampleID`, `Sample_Well`/`Well` and `Sample_Name`/`Name` share a target |
| Gather.Cells | sequencing_scraper.py:74-85 | a record has a value under each of the ten fields that its row reaches, and `None` under the others |
| Gather.CellsRoundTrip | sequencing_scraper.py:82-85 | the values of a record are its row with the cells past the tenth dropped |
| Gather.CellsExactly | sequencing_scraper.py:82-85 | two rows give the same record exactly when they agree on their first ten cells |
| Gather.GatherRows | sequencing_scraper.py:71-80 | gathering succeeds exactly when every name is a file |
| Gather.GatherIsAllData | sequencing_scraper.py:71-80 | the gathered rows are, in file order, each file's rows after its first header row: the same rows the merger concatenates |
| Gather.UnmarkedAddsNothing | sequencing_scraper.py:75-80 | a file without a header row contributes no rows |
| Gather.GatheredRowsNonEmpty | sequencing_scraper.py:75-80 | every gathered row has a first cell |
| Gather.CombineSampleSheets | sequencing_scraper.py:68-87 | succeeds exactly when every name is a file; one record per gathered row; no columns exactly when there are no rows, otherwise the ten renamed columns; each record has its row's first ten cells and a sample id |
| Gather.CombineCountsData | sequencing_scraper.py:68-87 | the frame has as many records as the sheets have data rows in total |

## Left out

- Scheduling: `schedule_scraping` and scheduler.py are a timed loop with hard-coded folders. They are I/O plumbing around the modelled steps.
- pandas output: `generate_combined_sample_sheet`, `to_csv`, the `date` column and `datetime.now()` file names need a foreign library and the clock. `combine_sample_sheets` is modelled up to the frame's columns and records.
- `write_logs` and `filelist.txt`: a text log with no effect on the outputs.
- `get_globbed_files` and `find_all_sample_sheets`: globbing is not part of this model. `run` does not call the glob (that line is commented out), so `globbed_sample_sheets` is always empty and the filter's candidates are the defined sheets.
- `extract_fieldnames_from_samplesheet`: a small reader that nothing in the core calls.
- Text.ParseInt: accepts only ASCII digit strings. Python's `int()` also accepts surrounding whitespace, a sign and non-ASCII digits. So a sample id such as ` 3210_17` is decoded by Python but answered with `None` here.
- Dates.DateFromSampleId: Python 3.11 and later refuse to convert a decimal string of more than 4300 digits. That ValueError is caught, so such a year field gives `None` there. The model returns the OverflowError for it, as older Pythons would raise. The limit depends on the interpreter's version and settings.
- Encoding and line endings: a sheet is modelled as its rows. `open()` and `read_text()` decode with the locale's encoding and can raise UnicodeDecodeError, which the model does not have. `write_text(read_text())` also turns CRLF line endings into LF, so a one-sheet copy is the same only row for row (Merger.WriteBucket). The index is read with universal newlines (PathIndex.ReadIndex).
- PathIndex.IndexReadBack: requires that no resolved path's text holds `\n` or `\r`. Python reads such a path back as several entries, so the read-back does not hold for it; `PathIndex.CarriageReturnSplits` shows one.
- PathIndex.FirstIndex: the same requirement as `PathIndex.IndexReadBack`, for the same reason.
- Pipeline.UpdatedIndexExists: `Pipeline.Resolves` asks that every resolved path's text holds neither `\n` nor `\r`, for the reason given under `PathIndex.IndexReadBack`. The pieces of a split path need not exist, so nothing is stated for such paths. This applies to `Pipeline.RerunSelectsNothing` too.
- FileSystem.Exists: every node is readable and every directory searchable. A PermissionError (EACCES) from `exists`, `is_file`, `is_dir`, `iterdir`, `open` or `samefile` is not modelled, so no result of `FileSystem.Exists`, `FileSystem.IsFile`, `FileSystem.IsDir`, `FileSystem.IterDir`, `FileSystem.ReadRows` or `FileSystem.SameFile` is an access error.
- Pipeline.RerunSelectsNothing: it and `PathIndex.IndexReadBack` assume the earlier index text is empty or ends in a newline, as every index this program writes does. This leaves out index files without a final newline. On such text the first new path is glued onto the old last line; `PathIndex.GluedLine` shows one such file, and no general property is stated for them.
- Paths.Parse: a leading `//`, which Python keeps as a distinct root, is read as `/`.
- Paths.PathLess: puts every relative path before every absolute one. Python's order between the two kinds depends on its version: up to 3.11 it compares the part lists with `/` as the absolute path's first part; from 3.12 it compares the text split on `/`, whose empty first part puts absolute paths first. All these orders agree on paths of one kind, and every bucket the core sorts holds paths under one root.
- Output files are modelled as a map from output path to rows. On an error the model reports only the error, not the files written before it. The creation of the output folders is left out.
- Every read during a run sees the tree as it was at the start. Files the run writes are not read back by the same run.
- The index file being a directory, or unreadable, is not modelled. `read_index` would raise an error other than FileNotFoundError there.
- CSV quoting and escaping: rows are already-split cells, and a blank line is an empty row.
- `Path.resolve` is a parameter. The rerun property asks that it names the same file as its argument and renders as text without `\n` or `\r`.
- The helpers `get_container_id` and `containerid_to_date`, which tests/test_scraper.py calls, are not part of this model.
- Logging through `loguru`.
