# Attendance and overtime recap: a verified model

This project models the data-processing core of a Streamlit app that
recaps employee attendance and overtime (`app.py`). The core has six
parts:

- **clean_column_name** and **clean_dataframe**: each header is
  lower-cased, loses its spaces and slashes, and is stripped. Every text
  (object-dtype) cell is lower-cased and stripped.
- **process_attendance_data** and **process_overtime_data**: the frame is
  cleaned, headers are renamed through alias tables, and the required
  columns are checked. The `date` column is then converted to timestamps,
  with unparsable dates dropped. Overtime `duration` and `wtnormal` are
  coerced to numbers, with 0 for failures.
- **merge_data**: both frames are cleaned again. Attendance is left-joined
  to overtime on (`employeename`, `date`) with suffixes `''` and
  `_overtime`, and `rkppic` is filled from `duration`, or 0.
- **calculate_summary** and its **count_work_days**: rows are grouped by
  employee. Each group gets its first job position and its number of work
  shifts, found by a keyword substring test. Overtime `wtnormal` and
  `duration` are summed per employee and left-merged, missing values
  become 0, and the rows are numbered from 1.

## Modules

- `text.dfy` (`Text`): the Python string operations the code uses:
  `lower`, `strip`, `replace(c, '')`, the `in` substring test, text
  ordering and `str()` of an integer.
- `frames.dfy` (`Frames`): labels, cells, rectangular tables, column
  access and assignment, and `fillna(0)`.
- `cleaning.dfy` (`Cleaning`): the cleaning functions.
  - As values: `CleanColumnName` and `CleanTable`.
  - As a class: `Frame` is a DataFrame object that is updated in place,
    and `Frame.CleanDataframe` is the loop over the object columns.
  - `CleanBoth` is the pair of cleans that opens `merge_data` and
    `calculate_summary`.
- `processing.dfy` (`Processing`): the two processors.
  - As values: `ProcessAttendance` and `ProcessOvertime`.
  - As methods on frames: `ProcessAttendanceData` and
    `ProcessOvertimeData`, which change the caller's frame exactly as the
    source does.
- `joins.dfy` (`Joins`): the pandas left join, as a sequence of
  (attendance row, overtime row) pairs, and the `rkppic` assignment.
- `merging.dfy` (`Merging`): `merge_data`, as a value (`Merge`) and on
  frames (`MergeData`).
- `summary.dfy` (`Summary`): `count_work_days` (a loop, `CountWorkDays`,
  proved equal to `WorkDays`), the group-by keys, groups, `first` and
  `sum`, and `calculate_summary`, as a value (`Summary`) and on frames
  (`CalculateSummary`).

A call that raises a Python exception is `Raised` (in `Result`). Each
`try`/`except` that reports an error and returns `None` becomes `None`
(in `Option`).

## Library behaviour as parameters

The pandas behaviour the code relies on but does not define is passed in
as a `Library` value:

- how `astype(str)` renders a non-text value;
- whether `pd.to_datetime(..., errors='coerce')` parses a value. pandas
  infers one format per column, so the parse may depend on the whole
  column;
- whether `pd.to_numeric(..., errors='coerce')` parses a non-number.

The laws the source itself relies on are fixed in the model:

- missing values stay missing;
- timestamps survive `to_datetime`;
- numbers survive `to_numeric`.

## Decisions where the code is the authority

- **Column dtype.** A column is `object` when it holds text, or mixes
  numbers with timestamps. All-number, all-timestamp and all-missing
  columns are not touched by the cleaning loop.
- **Cleaned missing values.** After `astype(str)` a missing value in an
  object column becomes rendered text, such as "nan". So a cleaned object
  column never holds a missing value, and its cells are never of mixed
  kinds.
- **Duplicated labels.** pandas allows a label to appear on more than one
  column, and the source then raises at its first single-column access.
  The model records where:
  - `clean_dataframe` raises on an object column whose cleaned label is
    shared;
  - `to_datetime` raises on a duplicated `date`, which the processors
    catch and turn into `None`;
  - `to_numeric` raises on a duplicated `duration` or `wtnormal`, which
    is not caught;
  - the `rkppic` assignment raises on a duplicated `duration`;
  - the summary raises on a missing or duplicated `employeename`,
    `jobposition` or `shift`, and on a duplicated `wtnormal` or
    `duration` in overtime.
- **Group order.** `groupby` sorts its keys, and the summary is in that
  order: numbers, then timestamps, then text, each by value. Rows whose
  key is missing are dropped.

## Model

| member | source | states |
|---|---|---|
| Text.LowerChar | app.py:17 | lower() on one character: an upper-case letter becomes the letter 32 code points above it, any other character is unchanged, and whitespace stays whitespace |
| Text.Lower | app.py:17 | str.lower(): same length, each character lowered, no upper-case letter left |
| Text.LowerOfNoUpper | app.py:27 | lower() leaves a text without upper-case letters unchanged |
| Text.LowerEqualIff | app.py:17 | two texts lower() to the same text exactly when they have the same length and differ only in the case of their letters |
| Text.Strip | app.py:27 | str.strip(): the result is a slice of the input that starts after its leading whitespace, with no whitespace at either end, and everything cut off on each side is whitespace |
| Text.StripIdempotent | app.py:27 | strip() applied twice equals strip() once |
| Text.StripNoUpper | app.py:17 | stripping adds no upper-case letter |
| Text.StripChars | app.py:17 | stripping adds no character that was absent |
| Text.RemoveAll | app.py:17 | str.replace(c, ''), defined character by character; RemoveAllFacts, RemoveAllConcat and RemoveAllOne state what it does |
| Text.RemoveAllFacts | app.py:17 | replace(c, '') leaves no c, adds no character, and changes nothing when there is no c |
| Text.RemoveAllConcat | app.py:17 | replace(c, '') distributes over concatenation |
| Text.RemoveAllOne | app.py:17 | replace(c, '') of a text with a single c joins the two sides |
| Text.RemoveAllNoUpper | app.py:17 | deleting a character keeps a lower-case text lower-case |
| Text.Contains | app.py:154 | the `in` substring test on text; ContainsIff states that it holds exactly when an occurrence exists |
| Text.ContainsIff | app.py:155 | Python's `work in s` holds exactly when work occurs in s at some position |
| Text.StrLess | app.py:159 | Python's `<` on str, the code-point order groupby sorts text keys by; the three StrLess lemmas prove it a strict total order |
| Text.StrLessIrreflexive | app.py:159 | no text sorts strictly before itself, as groupby orders text keys |
| Text.StrLessTransitive | app.py:159 | text ordering is transitive |
| Text.StrLessTotal | app.py:159 | two different texts are ordered one way or the other |
| Text.IntToString | app.py:126 | str() of an integer label: decimal digits with an optional leading '-', no leading zero, and the digits read back give the integer |
| Text.NatToString | app.py:126 | str() of a natural number: decimal digits only, no leading zero, and the digits read back give the number |
| Frames.Count | app.py:23 | the number of columns with a label is at most the width, and zero exactly when the label is absent |
| Frames.IndexOf | app.py:60 | the first column with the label: it carries the label and no column before it does |
| Frames.IndexOfOnly | app.py:60 | when a label occurs at most once, its only position is the one selected |
| Frames.Column | app.py:27 | df[col] of one column: the cells of that column, row by row |
| Frames.SetColumn | app.py:27 | df[l] = values: every column labelled l gets the values, or a new last column l is appended, and every other cell is unchanged |
| Frames.FillNa | app.py:131 | fillna(0) on one cell: a missing value becomes 0 and a present value is kept |
| Cleaning.CleanColumnName | app.py:14-18 | a text header comes out with no upper-case letter, no ' ', no '/' and nothing to strip; a non-text header comes out unchanged |
| Cleaning.CleanNameFixpoint | app.py:14-18 | a header that is already clean comes out unchanged |
| Cleaning.CleanColumnNameIdempotent | app.py:14-18 | cleaning a header twice equals cleaning it once |
| Cleaning.CleanColumnNameSteps | app.py:17 | lower-casing, deleting ' ', deleting '/' and stripping, in the source's order, give the cleaned header; the strip changes nothing when no whitespace is left at either end |
| Cleaning.CleanColumnNameWtNormal | app.py:14-18 | "WT/Normal" becomes `wtnormal` |
| Cleaning.CleanColumnNameEmployeeName | app.py:14-18 | "Employee Name" becomes `employeename` |
| Cleaning.CleanHeader | app.py:23 | the header keeps its length and every label is passed through clean_column_name at its own position |
| Cleaning.ObjectColumns | app.py:26 | select_dtypes(include=['object']): exactly the columns pandas stores as object |
| Cleaning.IsObjectColumn | app.py:26 | the object-dtype test of select_dtypes: a column holding text, or numbers mixed with timestamps |
| Cleaning.AsText | app.py:27 | astype(str) on one cell: text is kept, any other value is rendered by the library |
| Cleaning.CleanCell | app.py:27 | astype(str).str.lower().str.strip() gives lower-cased text that is already trimmed; a text cell becomes strip(lower(s)) |
| Cleaning.CleanCellFixpoint | app.py:27 | a cell that is already clean text is left unchanged |
| Cleaning.CleanCellMatches | app.py:27 | two text cells become equal exactly when they agree after lower-casing and trimming; texts that differ only in letter case always become equal |
| Cleaning.CleanCellJohnDoe | app.py:27 | "John Doe" and " john doe" both become "john doe" |
| Cleaning.RaisesAt | app.py:26-27 | an object column whose cleaned label is shared makes clean_dataframe raise |
| Cleaning.NoRaise | app.py:26-27 | when no object column has a shared cleaned label, clean_dataframe does not raise |
| Cleaning.RaisesOnClean | app.py:26-27 | clean_dataframe raises exactly when an object column shares its cleaned label with another column, because `df[col]` then selects several columns; CleanTable's contract ties the two |
| Cleaning.CleanTable | app.py:20-29 | clean_dataframe as a value: it raises exactly on a shared object label; otherwise the header is cleaned, the row count is kept, object-column cells are cleaned and all other cells are unchanged |
| Cleaning.CleanPrefixCell | app.py:26-27 | after the loop has visited j columns, exactly the object columns before j are converted |
| Cleaning.CleanPrefixComplete | app.py:26-27 | after the last column the loop has produced CleanTable's rows |
| Cleaning.CleanFixpoint | app.py:20-29 | cleaning a table that is already clean changes nothing, unless a shared label makes it raise |
| Cleaning.ObjectColumnOrigin | app.py:26-27 | a cleaned column is an object column only if the original column was one |
| Cleaning.CleanTableIsClean | app.py:20-29 | clean_dataframe's result is clean and cleans again without raising |
| Cleaning.CleanTableIdempotent | app.py:20-29 | clean_dataframe is idempotent, so the second clean in merge_data and calculate_summary changes nothing |
| Cleaning.Frame.CleanDataframe | app.py:20-29 | updates the frame in place: the header is always replaced by its cleaned form; it reports a raise exactly when CleanTable raises, and otherwise the frame equals CleanTable's result |
| Cleaning.Frame.AssignColumn | app.py:27 | df[l] = values updates the frame to SetColumn of its old state |
| Cleaning.CleanBoth | app.py:145-146 | the two clean_dataframe calls on the caller's frames, even when both are the same frame: they succeed exactly when both cleans succeed, and each frame then holds its cleaned table |
| Processing.RenameHeader | app.py:47 | renaming keeps length and order; an aliased label is replaced by its canonical name and every other label is unchanged |
| Processing.RenameLabel | app.py:47 | `column_mapping.get(col, col)`: an alias gives its canonical name, anything else is kept; RenameHeader states this for the whole header |
| Processing.AttendanceAliasesCanonical | app.py:36-44 | no canonical attendance name is itself an alias |
| Processing.OvertimeAliasesCanonical | app.py:73-82 | no canonical overtime name is itself an alias |
| Processing.RenameHeaderIdempotent | app.py:47 | with canonical aliases no alias survives renaming, and renaming twice equals renaming once |
| Processing.RenameKeepsClean | app.py:47 | renaming to clean canonical names keeps a clean header clean |
| Processing.MissingColumns | app.py:51 | the missing list holds exactly the required labels the header lacks, in required order |
| Processing.AttendanceMissing | app.py:50-56 | the attendance missing list is non-empty exactly when employeename, date or shift is absent |
| Processing.OvertimeMissing | app.py:88-94 | the overtime missing list is non-empty exactly when employeename or date is absent |
| Processing.ToDatetime | app.py:60 | to_datetime(errors='coerce'): a missing value stays missing and a timestamp is kept |
| Processing.ParsedDates | app.py:60 | the converted column, element by element |
| Processing.ConvertDates | app.py:60 | df['date'] = ...: only the date column changes, and it then holds parsed timestamps or missing values |
| Processing.KeptIndices | app.py:61 | the kept row positions are increasing and are exactly the rows with a present date |
| Processing.DropNull | app.py:61 | dropna(subset=['date']) keeps exactly the rows whose date is present, in their original order |
| Processing.DropNullKeepsAll | app.py:61 | when no date is missing, dropna keeps the table unchanged |
| Processing.CoerceCell | app.py:106 | to_numeric(errors='coerce').fillna(0) on one cell: a number is kept, a missing value becomes 0, and a value that fails to parse becomes 0 |
| Processing.CoerceColumn | app.py:105-109 | an absent column changes nothing, a duplicated one raises, and a single one is coerced cell by cell with every other cell unchanged |
| Processing.DateStep | app.py:59-64 | the caught date exception (a duplicated date label) yields None; otherwise the header is kept |
| Processing.Prepared | app.py:31-64 | the steps both processors share: raise exactly when cleaning raises; None exactly when a required column is missing or the date label is duplicated; otherwise the renamed header |
| Processing.ProcessAttendance | app.py:31-66 | process_attendance_data raises exactly when clean_dataframe raises |
| Processing.ProcessOvertime | app.py:68-111 | None exactly when a required column is missing or the date is duplicated; raises exactly when cleaning raises or duration or wtnormal is duplicated; every duration and wtnormal cell of the result is a number |
| Processing.AttendanceNone | app.py:50-64 | process_attendance_data returns None exactly when employeename, date or shift is missing after renaming, or date is duplicated |
| Processing.OvertimeOutcome | app.py:88-109 | process_overtime_data returns None or raises on exactly the conditions listed for ProcessOvertime |
| Processing.DateStepRows | app.py:59-61 | the rows kept are exactly those whose date parses, in order; each holds its parsed timestamp, and every other cell is unchanged |
| Processing.CoerceAmounts | app.py:104-109 | the two numeric coercions raise exactly when duration or wtnormal is duplicated; otherwise the header and row count are kept and every duration and wtnormal cell is a number |
| Processing.CoerceAmountsInPlace | app.py:104-109 | the two coercions on the caller's frame: it raises exactly when CoerceAmounts does, and otherwise the frame holds CoerceAmounts' result |
| Processing.AmountsCoerced | app.py:104-109 | after both coercions every duration and wtnormal cell is a number |
| Processing.AttendanceClean | app.py:31-66 | a processed attendance table is clean, so cleaning it again changes nothing |
| Processing.OvertimeClean | app.py:68-111 | a processed overtime table is clean |
| Processing.CoerceInPlace | app.py:105-109 | coercion on a frame: when it raises the frame is unchanged, otherwise the frame holds CoerceColumn's result |
| Processing.PrepareData | app.py:33-66 | the shared steps on the caller's frame: it is cleaned, renamed and has its dates converted in place, and the result is a new frame equal to Prepared |
| Processing.LeftBehind | app.py:33-61 | the caller's frame after a processor: cleaned and renamed, with dates converted when the required columns are present |
| Processing.ProcessAttendanceData | app.py:31-66 | process_attendance_data on a frame: its outcome and result equal ProcessAttendance, and the caller's frame holds the cleaned and renamed table |
| Processing.ProcessOvertimeData | app.py:68-111 | process_overtime_data on a frame: its outcome and result equal ProcessOvertime, and the caller's frame holds the cleaned and renamed table |
| Joins.KeysOf | app.py:124 | the positions of employeename and date on each side carry those labels |
| Joins.KeyMatch | app.py:121-127 | an attendance row and an overtime row match when their cleaned employeename and date cells are equal |
| Joins.MatchesBelow | app.py:121-127 | the overtime rows that match an attendance row on both keys, in increasing order |
| Joins.PairsFor | app.py:121-127 | each attendance row yields at least one output row, all for that attendance row |
| Joins.Pairs | app.py:121-127 | the left join's pairs over all attendance rows; PairsExact, PairsOrder and PairsLength state their content, order and number |
| Joins.PairsForExact | app.py:121-127 | an attendance row yields exactly its matching overtime rows, or one unmatched row when nothing matches |
| Joins.PairsExact | app.py:121-127 | the left join holds exactly the pairs that belong: each attendance row once per matching overtime row, or once unmatched |
| Joins.PairsOrder | app.py:121-127 | the join keeps attendance order, and overtime order within an attendance row |
| Joins.MatchesOfUnique | app.py:121-127 | with unique overtime keys an attendance row matches at most one overtime row |
| Joins.PairsLength | app.py:121-127 | with unique overtime keys the join has exactly one row per attendance row |
| Joins.Suffixed | app.py:126 | a text label gets the suffix appended; a non-text label becomes text |
| Joins.RightColumns | app.py:121-127 | the overtime columns carried over are all columns except the keys, in order |
| Joins.MergedHeader | app.py:121-127 | the join's columns are the attendance labels followed by the carried overtime labels |
| Joins.MergedHeaderLabels | app.py:126 | attendance text labels are kept; a carried overtime label clashing with an attendance label gets `_overtime`, and any other carried label is kept |
| Joins.JoinedRow | app.py:121-127 | one merged row: the attendance row followed by one cell per carried overtime column |
| Joins.JoinedRowContent | app.py:121-127 | each join row is its attendance row followed by the matching overtime row's carried cells, or missing cells when unmatched |
| Joins.Joined | app.py:121-127 | the join is rectangular with one row per pair |
| Joins.WithRkppic | app.py:129-133 | the rkppic assignment raises exactly when the join has more than one duration column |
| Joins.FillNaColumn | app.py:131 | `fillna(0)` on a column: the same length, each cell filled as FillNa |
| Joins.Zeros | app.py:133 | `merged_df['rkppic'] = 0`: a column of as many zeros as rows |
| Joins.RkppicCells | app.py:129-133 | rkppic holds the filled duration or 0, placed in the existing rkppic column or a new last one, and every other cell is unchanged |
| Joins.DurationColumn | app.py:121-133 | with no attendance duration and at most one overtime duration, the join has at most one duration column, and has one exactly when the overtime table has one |
| Joins.JoinRkppicCarried | app.py:121-133 | each join row's rkppic is the filled duration of its matching overtime row, and 0 when unmatched |
| Joins.JoinRkppicZero | app.py:129-133 | with no duration on either side every rkppic cell is 0 |
| Merging.Merge | app.py:113-139 | merge_data as a value: a result exactly when both cleans succeed, each key occurs once on each side, and the join has at most one duration column |
| Merging.MergeSucceeds | app.py:113-139 | merge_data succeeds when the keys are unique on each side, attendance has no duration, and overtime has at most one |
| Merging.MergeRows | app.py:121-133 | the merged rows are the join pairs in attendance order, exactly those that belong; with unique overtime keys there is one row per attendance row; the header is the join's header with `rkppic` appended when it is not already there |
| Merging.MergeKeepsAttendance | app.py:121-127 | every attendance column other than rkppic appears unchanged in the merged row |
| Merging.MergeRkppicCarried | app.py:129-131 | the merged table has an rkppic column, and it holds the matching overtime duration with missing as 0, and 0 on an unmatched row |
| Merging.MergeRkppicZero | app.py:132-133 | with no duration column, the merged table has an rkppic column and it is 0 on every row |
| Merging.MergeKeysIgnoreCase | app.py:117-127 | two text employee names join exactly when they agree after lower-casing and trimming, provided the dates are equal |
| Merging.AssignRkppic | app.py:129-133 | the rkppic assignment on the merged frame: it succeeds exactly when WithRkppic does, and the frame then holds its result |
| Merging.MergeData | app.py:113-139 | merge_data on frames: succeeds exactly when Merge does, returns a new frame equal to Merge's result, and leaves both caller frames cleaned |
| Summary.AnyInIff | app.py:155 | any(work in s for work in work_shifts) holds exactly when some keyword occurs in s |
| Summary.IsWorkShift | app.py:154 | a shift counts exactly when it is text and some keyword occurs in its lower-cased form |
| Summary.WorkDays | app.py:149-156 | the count of work shifts never exceeds the number of shifts |
| Summary.CountWorkDays | app.py:149-156 | the counting loop returns WorkDays of its input |
| Summary.WorkDaysAppend | app.py:149-156 | the count is additive over concatenation |
| Summary.WorkDaysNone | app.py:149-156 | the count is 0 exactly when no shift is a work shift |
| Summary.WorkDaysAll | app.py:149-156 | the count equals the number of shifts exactly when every shift is a work shift |
| Summary.KeywordShift | app.py:151-155 | each keyword is itself a work shift |
| Summary.NoInitialNoShift | app.py:151-155 | a lower-case text with none of the keywords' first letters is not a work shift |
| Summary.OffIsNoShift | app.py:150-155 | "off" and "libur" are not work shifts |
| Summary.WorkDaysExample | app.py:149-156 | ["pagi", "off", "siang", "libur", "malam"] count 3 work days |
| Summary.CellLessIrreflexive | app.py:159 | the key order is irreflexive |
| Summary.CellLessTransitive | app.py:159 | the key order is transitive |
| Summary.CellLessTotal | app.py:159 | two different keys are ordered one way or the other |
| Summary.AscendingDistinct | app.py:159 | ascending keys are pairwise distinct |
| Summary.Insert | app.py:159 | inserting a key keeps the keys ascending and adds exactly that key |
| Summary.GroupKeys | app.py:159 | the groupby keys are ascending and are exactly the distinct present values of the key column |
| Summary.Group | app.py:159-162 | one group of groupby: never more cells than the column; GroupRows and GroupSize state its exact contents |
| Summary.KeyRows | app.py:159 | the rows with a key, in increasing order: each has the key, and every row with the key is listed |
| Summary.GroupRows | app.py:159-162 | a group has one cell per row with its key, in row order: its x-th cell is from the x-th such row |
| Summary.GroupSize | app.py:159-162 | a group has as many cells as there are rows with its key |
| Summary.GroupMembers | app.py:159-162 | a group holds exactly the cells of the rows with its key |
| Summary.GroupEmpty | app.py:166-173 | a group is empty exactly when no row has its key |
| Summary.FirstNonNull | app.py:160 | GroupBy.first is missing exactly when every cell is missing, and is otherwise one of the cells |
| Summary.FirstNonNullAt | app.py:160 | first is the earliest present cell: every cell before it is missing |
| Summary.FirstNonNullSnoc | app.py:160 | first of an extended sequence keeps an earlier present cell |
| Summary.FirstOfGroup | app.py:160 | first of a group is missing exactly when the key's rows are all missing there; otherwise it is the cell of the earliest key row with a present cell |
| Summary.SummaryRaises | app.py:159-180 | the group-bys raise exactly when employeename, jobposition or shift is not in attendance exactly once, or when an overtime sum is needed and employeename is not in overtime exactly once or a summed column is duplicated |
| Summary.RowFor | app.py:159-204 | the summary row of one attendance group: its first job position, its work-day count and its two overtime sums |
| Summary.SummaryOf | app.py:159-204 | one row per groupby key, in key order, numbered from 1 |
| Summary.SumNumbersAppend | app.py:173 | the group sum is additive over concatenation |
| Summary.SumNumbersBounds | app.py:173 | a group with no numbers sums to 0, and non-negative numbers sum to a non-negative total |
| Summary.SumNumbers | app.py:167-174 | `sum()` of a group: the numbers in it added up, missing values skipped; SumNumbersAppend and SumNumbersBounds state its properties |
| Summary.GroupWorkDays | app.py:149-162 | a group's work-day count is 0 exactly when none of the key's rows has a work shift |
| Summary.GroupWorkDaysCount | app.py:149-162 | a group's work days are the number of rows with its key whose shift is a work shift |
| Summary.Summary | app.py:141-210 | calculate_summary as a value: a result exactly when both cleans succeed and no required label is missing or duplicated, and then the summary of the cleaned frames |
| Summary.SummaryEmployees | app.py:159-208 | one row per distinct present attendance employee, in ascending order, numbered 1..N; an employee who appears only in overtime gets no row |
| Summary.SummaryJobPosition | app.py:159-191 | jobposition is 0 when all of the employee's job positions are missing, and otherwise the job position of the first of the employee's rows where it is present |
| Summary.SummaryWorkDays | app.py:149-162 | dwork is count_work_days of the employee's shifts: the number of the employee's rows with a work shift, at most the number of the employee's rows, and 0 exactly when none is a work shift |
| Summary.SummaryOvertime | app.py:166-197 | wtnormal and rkppic are the sums of the employee's overtime wtnormal and duration; each is 0 when its column is absent, and both are 0 when the employee has no overtime row |
| Summary.CalculateSummary | app.py:141-210 | calculate_summary on frames: returns Summary of the original tables and leaves both caller frames cleaned |

## Left out

- main and the Streamlit interface (`st.error`, `st.info`, page setup, file upload, Excel export) are not modelled: they are I/O around the core.
- Parsing of dates and numbers, and `astype(str)` of non-text values, are library behaviour, taken as the `Library` parameter.
- Text.Lower, Text.LowerChar: fold only the ASCII letters A-Z. Python's `str.lower` also folds other Unicode letters.
- Numbers are exact reals. Floating-point rounding and the two-decimal display are not modelled.
- Joins.KeyMatch: keys of different kinds (text against number) are treated as not matching. pandas raises on a merge of an object column with a numeric one.
- Summary.SummaryOf: the summary's merge on `employeename` (app.py:186-191) raises in pandas when the two key columns have incompatible dtypes, for example a non-empty overtime `employeename` column of numbers (not object dtype, so left uncleaned) against text attendance keys; calculate_summary then returns None. The model does not track column dtypes: it compares the cells, finds no match, and returns rows with zero overtime totals there.
- Joins.MergedHeader: pandas raises `MergeError` when the `_overtime` suffix creates a label that already exists. The model keeps both columns.
- Summary.SummaryOvertime: sums only the number cells of a group. pandas would concatenate a column of text. After process_overtime_data both amount columns hold only numbers.
- Summary.SummaryRaises: a duplicated `jobposition`, `shift`, `wtnormal` or `duration` is treated as raising, through the column-count mismatch of the renaming that follows. The exact pandas error is not modelled.
- Summary.Summary: the summary is modelled as records instead of a DataFrame. The intermediate frames (`attendance_summary`, `overtime_summary`), the column renamings, the defaulting of absent columns and `insert` are folded into `SummaryRow`.
- Summary.CellLess: the order between different kinds of key is arbitrary, because there is no such order in pandas. A cleaned key column never mixes kinds.
- Cleaning.Frame.CleanDataframe: when the loop raises part-way, the model states only the cleaned header, not which columns were already converted. Nothing uses a frame after that exception.
- The dtype and contents of an empty frame (for example the empty `overtime_summary`) are not modelled beyond their rows.
- Aliasing between the two frames passed to merge_data and calculate_summary is handled: the same frame may be passed twice. Aliasing between the merged or processed frame and the caller's frame does not arise, because each result is a new frame.
