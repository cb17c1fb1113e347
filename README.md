# Upload validation and latest-day selection of the work-order bot

A Telegram bot receives a spreadsheet of telecom work orders. Before it draws
its dashboard, the upload handler `handle_excel_file` runs a short pipeline:

1. it accepts only file names that end in `.xls` or `.xlsx`;
2. it checks that the six required headers `SCORDERNO`, `STO`, `STATUSDATE`,
   `STATUS`, `ERRORCODE` and `SUBERRORCODE` are all columns of the sheet, and
   otherwise reports the missing ones in that order;
3. it strips surrounding whitespace from the cells of `STO`, `STATUS`,
   `ERRORCODE` and `SUBERRORCODE`;
4. it drops the rows whose `STATUSDATE` is not a date, and stops if none are
   left;
5. it takes the latest calendar day among the remaining rows and keeps the
   rows of that day;
6. it reports the initial row count, the number of rows dropped and the
   number of rows of the latest day.

This project models that pipeline in Dafny and proves what it guarantees.

- `Text` (text.dfy) models Python's `str.endswith` and `str.strip()`.
  `Strip` removes exactly the characters Python's `str.isspace` accepts.
- `Sequences` (sequences.dfy) holds the order-preserving `Filter` shared by
  the header comprehension, `dropna` and the boolean mask. It also defines
  the subsequence relation used to state "same relative order".
- `Frame` (frame.dfy) is the data model. A row is a map from column to text
  cell plus an optional parsed `Timestamp`. A timestamp has a calendar-day
  component `date`, and `.dt.date` uses only that. The module also gives a
  per-row specification of the strip step (`Cleaned`).
- `Handler` (handler.dfy) has the pure steps and `Process`, which is the
  whole pipeline as one function. `Process` returns an `Outcome`:
  `BadExtension`, `MissingHeaders(missing)`, `NoValidDates` or
  `Daily(latest, rows, totalInitial, dropped)`. The module also has the
  lemmas about `Process` and the imperative versions of the steps that
  mutate the frame:
  - `StripColumn` and `StripCategoricalColumns` are the column loop, done in
    place on an `array<Row>`.
  - `DropMissingDates` is `dropna(..., inplace=True)`. It compacts the array
    in place and returns the new length.
  - `CleanAndDrop` is the strip loop followed by the drop, and
    `SummarizeFrame` adds the latest-day selection and the counts. It is
    proved to return `Summarize` of the cleaned rows, the part of `Process`
    after both checks.
  - `HandleExcelFile` runs every step in the source's order over the array.
    It is proved to return `Process` of the original rows, to leave the
    array alone when a check refuses the file, and to leave the frame's
    new length `n` with the cleaned dated rows in front otherwise.

The handler strips the four categorical cells but does not change their
case (smokeweed.py:39), and the model does the same.

## Model

| member | source | states |
|---|---|---|
| Text.EndsWithIffConcat | smokeweed.py:8 | `endswith` holds exactly when the name is some prefix followed by the suffix |
| Handler.IsExcelNameIff | smokeweed.py:8-10 | a name passes the gate if and only if it is a stem followed by `.xls` or by `.xlsx` |
| Handler.IsExcelNameExamples | smokeweed.py:8 | the gate is case-sensitive and looks only at the end of the name: `laporan.XLSX` and `laporan.xls.csv` are refused |
| Handler.ProcessBadExtension | smokeweed.py:8-10 | the outcome is `BadExtension` exactly when the name fails the gate, whatever the file holds |
| Handler.FindMissingHeaders | smokeweed.py:27-29 | the missing list holds exactly the required headers absent from the columns, in required order (a subsequence), without duplicates when the required list has none, and is empty iff every required header is present |
| Handler.RequiredHeadersDistinct | smokeweed.py:27 | the six required headers are pairwise distinct |
| Handler.ProcessMissingHeaders | smokeweed.py:29-34 | `MissingHeaders` is the outcome iff the name passed and some required header is absent; its list is non-empty, duplicate-free, in required order and holds exactly the absent headers |
| Handler.ProcessMissingHeadersIgnoresRows | smokeweed.py:30-34 | once headers are missing, the rows have no influence on the outcome: no cleaning, dropping or day selection happens |
| Text.TrimStartSpec | smokeweed.py:39 | the result is a suffix of the input, everything removed is whitespace, and the result does not start with whitespace |
| Text.TrimEndSpec | smokeweed.py:39 | the result is a prefix of the input, everything removed is whitespace, and the result does not end with whitespace |
| Text.StripSpec | smokeweed.py:39 | `strip()` yields a contiguous middle piece of the text with only whitespace removed on both sides and no whitespace at either end |
| Text.StripIdempotent | smokeweed.py:39 | stripping twice equals stripping once |
| Frame.CleanedChangesOnlyCategorical | smokeweed.py:37-39 | the strip step keeps the row count, order, status dates and column sets; it strips a cell exactly when its column is one of the four categorical columns present in the frame, and leaves every other cell, `SCORDERNO` included, unchanged |
| Frame.StripCellExtends | smokeweed.py:37-39 | stripping one further column of a partly cleaned row gives the row cleaned on the larger column set |
| Frame.CleanedIdempotent | smokeweed.py:37-39 | cleaning an already cleaned frame changes nothing |
| Frame.CleanedKeepsDates | smokeweed.py:37-43 | stripping never changes whether a row has a status date |
| Handler.HeadersPresentStripsAll | smokeweed.py:37-38 | after the header check passes, the guard `col in df.columns` holds for all four categorical columns |
| Handler.StripColumn | smokeweed.py:39 | one column assignment strips that column's cell in every row and changes nothing else |
| Handler.StripCategoricalColumns | smokeweed.py:37-39 | after the in-place loop the array holds exactly the cleaned frame of its old contents |
| Handler.KeepDated | smokeweed.py:46 | `dropna` keeps exactly the rows with a parsed date, in their original order, every kept row has a date, and the result is empty iff no row has one |
| Handler.KeepDatedMultiset | smokeweed.py:46 | `dropna` keeps every copy of a dated row and no copy of an undated one, so repeated rows keep their multiplicity |
| Handler.KeepDatedCount | smokeweed.py:45-47 | the number of rows left after `dropna` is the number of positions of the frame whose row has a parsed date |
| Handler.DropMissingDates | smokeweed.py:45-47 | the in-place drop leaves the kept rows, in order, in the first `n` slots, with `n` the new length |
| Handler.CleanAndDrop | smokeweed.py:37-47 | after the strip loop and the in-place drop, the first `n` slots hold exactly the dated rows of the cleaned frame, in order |
| Handler.DropAfterClean | smokeweed.py:37-46 | the rows that survive the drop are the cleaned forms of exactly the input rows with a status date, in their input order |
| Handler.ProcessNoValidDates | smokeweed.py:43-51 | `NoValidDates` is the outcome iff the name passed, every required header is present and no row has a parsed status date |
| Handler.ProcessDailyIff | smokeweed.py:43-54 | a daily report is produced iff the name passed, every header is present and some row has a date |
| Handler.LatestDate | smokeweed.py:53 | the maximum day is at least the day of every row and equals the day of some row |
| Handler.LatestDayNonEmpty | smokeweed.py:53-54 | the latest day always keeps at least one row |
| Handler.OnDate | smokeweed.py:54 | the mask keeps exactly the rows whose day equals the given day, in their original order |
| Handler.OnDateMultiset | smokeweed.py:54 | the mask keeps every copy of a row of the given day and no copy of any other row |
| Handler.ProcessDailyLatest | smokeweed.py:53 | the reported latest day is at least the day of every dated input row and is the day of some input row |
| Handler.ProcessDailyRows | smokeweed.py:53-54 | a surviving row is in the daily rows iff its day is the latest day, every daily row is a survivor, and the daily rows keep the order of the cleaned frame |
| Handler.ProcessDailyRowMultiset | smokeweed.py:46-54 | each row occurs in the daily rows exactly as often as it occurs among the survivors, and among the cleaned rows, when its day is the latest day, and not at all otherwise |
| Handler.DayCount | smokeweed.py:54 | a sequence holding each cleaned row of a day as often as the frame does has as many rows as the frame has positions on that day |
| Handler.ProcessDailyRowCount | smokeweed.py:54-64 | the reported number of daily rows is the number of positions of the file whose row falls on the latest day |
| Handler.ProcessDailyCounts | smokeweed.py:25-64 | the initial count is the file's row count; the dropped count is the initial count minus the number of positions whose row has a parsed date, and is never negative; 1 <= daily rows <= rows after the drop <= initial rows |
| Handler.SummarizeFrame | smokeweed.py:37-64 | after both checks, the in-place strip, drop and selection leave the dated rows of the cleaned frame, in order, in the first `n` slots (the frame the mask filters), and report `NoValidDates` when there are none and otherwise the latest day, its rows and the two counts, as `Summarize` of the cleaned rows defines them |
| Handler.HandleExcelFile | smokeweed.py:5-64 | the step-by-step handler over a mutable array returns exactly `Process` of the original rows; a file refused by the name gate or the header check leaves the array untouched, and otherwise the first `n` slots hold the dated rows of the cleaned frame, in order |

## Left out

- Telegram transport is not modelled: `get_file`, `download_to_memory`, `reply_text`, `reply_photo` and `InputFile` are network I/O. The outcome datatype stands for the replies.
- `pd.read_excel` is not modelled. The frame arrives already read, as column names and rows of text cells. Sheet parsing has no source here.
- `pd.to_datetime(..., errors='coerce')` is not modelled. Each row carries its parsed `STATUSDATE` as an `Option<Timestamp>`, with `None` standing for NaT. The parsing rules are library code.
- `astype(str)` is not modelled, so a NaN cell that would become the text `nan` does not appear. Cells are text already.
- The message texts are not modelled: Markdown, `strftime` formatting and emoji. The diagnostic message is represented by the counts in `Daily`.
- `create_dashboard` and the web-server part are not part of this model. Their source is not in `smokeweed.py`.
- The catch-all `except Exception` handler and its logging are not modelled. The model has no exceptions to catch.
- A missing file name (`document.file_name` being `None`) is not modelled. In the source it would raise before the `try` block. The model takes the name as a string.
- Time zones are not modelled. A timestamp's calendar day is taken as given, which is what `.dt.date` reads from a naive timestamp.
- A row keeps its raw `STATUSDATE` text among its `cells`, whereas smokeweed.py:43 overwrites that column with the parsed timestamp. The model carries the parsed value separately in `statusDate`. The selection, the latest day and the counts do not depend on the raw text; the rows of `Daily` carry the raw text where `daily_df` carries the parsed timestamp.
- Rows are not required to have a cell for every column, whereas pandas gives every row of a frame every column. The strip step leaves a missing cell missing; the model states nothing about rows whose cells do not match the columns.
