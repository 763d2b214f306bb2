# Attendance reconciliation — a Dafny model of the reconciliation core

The attendance reconciliation tool compares a newly submitted attendance sheet
with the backend's export (the "Qandle" sheet). It writes one report line per
employee and date, and it says whether the two sources agree. This project
models the tool's reconciliation core in `main.py` as pure functions over
immutable data, and it proves the properties that core promises.

- **Header normalisation** (`standardize_column_names`). The model is
  `Headers.NormalizeLabel` and `Headers.Standardize`. Labels are
  `Str(text) | DateLabel(date) | Other(tag)`. Each label is classified in
  this fixed order:
  1. contains "code", in any case: `Employee Code`;
  2. contains "name": `Employee Name`;
  3. a `DD-MM-YYYY` date;
  4. a parenthesised `DD-Mon-YY` date;
  5. a native date;
  6. anything else stays verbatim.

  Recognised dates are re-emitted as `Status (DD-Mon-YY)`. The calendar
  (`Calendar`) covers leap years, the C-locale month abbreviations and the
  `%y` window (00–68 → 20xx, 69–99 → 19xx).
- **Table preparation** (`process_dataframe`), modelled by `Tables.Prepare`.
  It does four things:
  - standardises the headers;
  - indexes the table on the identity column, which is a parameter;
  - renames every `Status…` column whose parenthesised date parses to
    `YYYY-MM-DD`;
  - stringifies every cell outside `Employee Name`, so that pandas' NaN
    becomes the text `"nan"`.
- **Comparison** (`compare_attendance`), modelled by `Reconcile.Compare`. It
  makes one record per submission key × submission column other than
  `Employee Name`, in submission row order and then column order. The
  sentinels are `"N/A"` and `"Employee not found in backend"`. The mismatch
  rule is "both empty → No, unequal → Yes, else No". Empty values are shown
  as `""`, and `YYYY-MM-DD` headers are shown as `DD-Mon-YY`.
- **Mismatch count** (`generate_report`), modelled by `Report.MismatchCount`
  and `Report.Summary`.

Cells are `Text(s) | Missing`, where `Missing` is pandas' NaN. The
comparison uses the source's own emptiness test, `v == 'nan' or isna(v)`. It
is therefore defined on any frame, and on prepared frames `Missing` never
occurs outside the display column (`Reconcile.PreparedDisplaysText`).

Four behaviours of the code are worth stating:
- The second header pattern (main.py:22) does not need the `Status` prefix.
  Any label that contains `(` qualifies when the text between the first `(`
  and the next `(` or `)` parses as `DD-Mon-YY`
  (`Headers.ParenthesisedDateNormalized`).
- A non-text header left after indexing makes `process_dataframe` raise.
  `col.startswith` fails on it at main.py:68. This is `Failure(NonTextColumn)`.
- A submitted employee who is also in the backend needs an `Employee Name`
  column in both tables. Otherwise the `.at` reads at main.py:108-109 raise.
  This is `Failure(MissingNameColumn)`.
- The code never checks that identity keys or column labels are unique;
  with duplicates, `.at` returns a Series. `Reconcile.Compare` therefore
  requires distinct keys and labels (`Keyed`).

## Model

| member | source | states |
|---|---|---|
| Strings.Lower | main.py:10 | `str.lower()` keeps the length, leaves no capital letter, changes only capitals, and keeps each character's letter |
| Strings.LowerIdempotent | main.py:10 | lowering twice equals lowering once |
| Strings.TakeUntil | main.py:22 | the longest prefix free of stop characters, which is the first piece of `split` |
| Calendar.FindMonth | main.py:23 | finds a month exactly when its abbreviation matches; `None` means no month from `m` on matches |
| Calendar.MonthOfAbbr | main.py:23 | `%b` gives the one month with that abbreviation, or `None` when no month has it |
| Calendar.MonthAbbrInjective | main.py:18 | no two months share a `%b` abbreviation |
| Calendar.ExpandYear | main.py:23 | the `%y` window gives a year in 1969–2068 with the same last two digits |
| Calendar.FormatDMonYY | main.py:18 | `%d-%b-%y`: two digits reading back as the day, `-`, the month's abbreviation, `-`, two digits reading back as the year modulo 100 |
| Calendar.FormatDmy | main.py:17 | `%d-%m-%Y`: two digits reading back as the day, `-`, two as the month, `-`, four as the year |
| Calendar.FormatIso | main.py:74 | `%Y-%m-%d`: four digits reading back as the year, `-`, two as the month, `-`, two as the day |
| Calendar.ParseDMonYY | main.py:23 | accepts only valid dates in the `%y` window, and exactly the strings `%d-%b-%y` writes for them |
| Calendar.ParseDmy | main.py:17 | accepts only valid dates, and exactly the strings `%d-%m-%Y` writes for them |
| Calendar.ParseIso | main.py:137 | accepts only valid dates, and exactly the `YYYY-MM-DD` strings written for them |
| Calendar.WindowedValid | main.py:18 | moving a valid date into the `%y` window keeps it valid, including 29 February |
| Calendar.DMonYYRoundTrip | main.py:17-24 | `DD-Mon-YY` reads back as the windowed date, which is the original date iff the year is 1969–2068 |
| Calendar.WindowedFormat | main.py:18 | a windowed date renders as the same `DD-Mon-YY` text |
| Calendar.DmyRoundTrip | main.py:17 | every valid date survives `DD-MM-YYYY` formatting and parsing |
| Calendar.IsoRoundTrip | main.py:74 | every valid date survives `YYYY-MM-DD` formatting and parsing |
| Headers.StatusLabel | main.py:18 | the canonical status header of a date has 18 characters |
| Headers.Parenthesised | main.py:22 | a part exists exactly when the label contains `(` (otherwise IndexError); it is the text right after the first `(`, free of parentheses, ending at the next `(` or `)` or at the end |
| Headers.HeaderDate | main.py:15-27 | `DD-MM-YYYY` wins when it parses; otherwise the date is the one the parenthesised text spells, in 1969–2068; `None` exactly when neither pattern parses |
| Headers.NormalizeLabel | main.py:9-31 | no native date survives; other scalars are kept; a datetime becomes its status header; a keyword-free text label becomes the status header of its date, or is kept verbatim when it names none |
| Headers.VerbatimFallback | main.py:25-27 | a keyword-free text header with no `(` that does not parse as `DD-MM-YYYY` is kept verbatim |
| Headers.ParenthesisedDateNormalized | main.py:20-24 | any keyword-free header whose first parenthesis encloses a `DD-Mon-YY` date becomes that date's status header, with or without a `Status` prefix |
| Headers.WrappedDateExample | main.py:20-24 | `Att (05-Jan-24)` becomes `Status (05-Jan-24)` |
| Headers.Standardize | main.py:6-34 | one label out per label in, in the same order, each normalised |
| Headers.CodeTakesPriority | main.py:10-11 | a label containing "code" in any case is the identity column, whatever else it contains |
| Headers.NameCodeIsIdentity | main.py:10-13 | `"Name Code"` becomes `Employee Code` |
| Headers.NameBeforeDates | main.py:12-13 | "name" without "code" gives the display column, before any date parsing |
| Headers.CanonicalColumnsFixed | main.py:10-13 | `Employee Code` and `Employee Name` are fixed points |
| Headers.StatusLabelHasNoKeyword | main.py:10-13 | no status header contains "code" or "name" once lowered |
| Headers.StatusLabelInner | main.py:22 | the parenthesised part of a status header is its `DD-Mon-YY` date |
| Headers.StatusLabelFixed | main.py:20-24 | a canonical status header normalises to itself |
| Headers.DmyHeaderNormalized | main.py:15-18 | a `DD-MM-YYYY` header becomes the status header of the same date |
| Headers.NormalizeIdempotent | main.py:9-31 | normalising a label twice equals normalising it once |
| Headers.StandardizeIdempotent | main.py:6-34 | standardising a header row twice equals standardising it once |
| Tables.RenameStatus | main.py:68-77 | a header is renamed exactly when it starts with `Status` and its parenthesised part parses as `DD-Mon-YY`; it is then renamed to that date as `YYYY-MM-DD`, in 1969–2068; any other header keeps its name |
| Tables.IsoNotStatus | main.py:68-74 | a `YYYY-MM-DD` name never starts with `Status` |
| Tables.HeaderNames | main.py:68-75 | one name per remaining header; a header is renamed exactly when it starts with `Status` and its parenthesised part parses as `DD-Mon-YY`, and then to that date as `YYYY-MM-DD`, a date in 1969–2068 |
| Tables.Stringify | main.py:82 | `astype(str)` of a cell: text is kept, and NaN becomes the text `"nan"` |
| Tables.FirstNonText | main.py:68 | returns the first non-text header, and finds one exactly when one exists |
| Tables.StringifyRow | main.py:79-82 | stringifying keeps every cell's text; display cells are untouched and all others become text |
| Tables.IndexBy | main.py:66-82 | the index is the identity column in row order; cells keep their text; the frame is stringified |
| Tables.Prepare | main.py:54-84 | fails exactly on a non-text header; otherwise gives the index, the renamed headers and the stringified cells |
| Tables.RenameStatusLabel | main.py:70-75 | a status header is renamed to its date read back through the `%y` window |
| Tables.DmyHeaderPrepared | main.py:17-74 | a `DD-MM-YYYY` header ends up named by its own date iff the year is 1969–2068 |
| Tables.RenameStatusIdempotent | main.py:68-75 | renaming a renamed header changes nothing |
| Reconcile.IsEmpty | main.py:122 | a cell is empty exactly when its `astype(str)` text is `"nan"` |
| Reconcile.Shown | main.py:128-133 | the display is never `"nan"`: `"nan"` is shown as `""`, and any other value as is |
| Reconcile.Blanked | main.py:169 | an empty value (`"nan"` or NaN) is shown as `""`, and any other value as is |
| Reconcile.ShownBlankedAgree | main.py:128-133 | the two displays agree exactly on text cells; NaN passes through the matched display and is blanked by the unmatched one (main.py:169) |
| Reconcile.Judge | main.py:122-133 | no mismatch iff both empty or equal; both empty shows `""`; nothing shows `"nan"` |
| Reconcile.DisplayDate | main.py:136-140 | a header that is not a date is shown unchanged |
| Reconcile.DateColumns | main.py:114-116 | the columns walked are exactly the submission columns other than `Employee Name`, without repeats, in the submission's column order |
| Reconcile.At | main.py:118 | on a keyed frame, `.at[k, c]` is the cell in the row keyed `k` and the column labelled `c` |
| Reconcile.Reference | main.py:119 | the backend cell when the backend has the column; otherwise `"N/A"`, which is not empty |
| Reconcile.NamesReadable | main.py:107-109 | the name reads succeed exactly when every submission key the backend knows finds `Employee Name` in both tables |
| Reconcile.RecordFor | main.py:106-172 | matched key: the submission name, the mismatch rule over the "N/A"-defaulted reference, both displays `""` when both values are empty and otherwise each value with `"nan"` blanked; unmatched key: "not found", `Yes`, the blanked value, and the submission name or "N/A" |
| Reconcile.Slots | main.py:106-114 | every visited pair is a submission key with a walked column |
| Reconcile.SlotsLength | main.py:106-114 | the number of visited pairs is keys × columns |
| Reconcile.SlotsOrder | main.py:106-114 | pair `k·w + j` is key `k` with column `j`: row order, then column order |
| Reconcile.SlotsMembers | main.py:106-114 | a pair is visited iff its key and its column are in the submission |
| Reconcile.Visits | main.py:106-116 | keys × walked columns pairs, each a submission key with a non-name submission column |
| Reconcile.Compare | main.py:102-174 | fails iff some submission key the backend knows lacks `Employee Name` in either table; otherwise keys × walked columns records, and the one at row-major position `(k, j)` is the record of key `k` and column `j` |
| Reconcile.DisplayDateIso | main.py:136-138 | a `YYYY-MM-DD` header is shown as the same date in `DD-Mon-YY` |
| Reconcile.DisplayDateOfRenamed | main.py:70-77 | a renamed status column is shown with the date its header carried |
| Reconcile.RecordCount | main.py:106-118 | the number of records is submission keys × non-name submission columns, whatever the backend |
| Reconcile.RecordOrder | main.py:106-118 | record `RowMajor(k, w, j)` = `k·w + j` belongs to submission key `k` and date column `j` |
| Reconcile.LayoutIndependentOfBackend | main.py:106-118 | two backends give the same employee and date on every line |
| Reconcile.RecordFromVisit | main.py:106-118 | every record is the record of a submission key and a non-name submission column |
| Reconcile.VisitHasRecord | main.py:106-118 | every submission key and non-name column has its record in the report |
| Reconcile.RecordsCoverSubmission | main.py:106-172 | a record is in the report iff it belongs to a submission key and a non-name column, so backend-only keys give nothing |
| Reconcile.ReportedKeysFromSubmission | main.py:106 | every reported employee id is a submission key |
| Reconcile.UnknownEmployee | main.py:150-172 | an employee unknown to the backend is always "Employee not found in backend" and `Yes`, under the submission name or "N/A" |
| Reconcile.MatchedEmployee | main.py:107-133 | for a matched employee: the name comes from the submission; `Yes` iff the values differ and are not both empty; both empty shows `""`, and otherwise each value is shown with `"nan"` blanked |
| Reconcile.MissingBackendColumn | main.py:119-129 | a backend without the column gives "N/A", so an empty submitted value there is `Yes` |
| Reconcile.NoNanDisplayed | main.py:124-133 | no displayed value is ever the text `"nan"` |
| Reconcile.PreparedDisplaysText | main.py:79-82 | on prepared frames, empty means exactly `"nan"` and every displayed value is text |
| Reconcile.SelfReconcile | main.py:102-133 | a table against itself fails only without a name column, and otherwise has no mismatch |
| Report.MismatchCount | main.py:189 | the count never exceeds the number of lines |
| Report.Summary | main.py:176-190 | no data iff the report is empty; otherwise the mismatch count, and zero means no line says `Yes` |
| Report.MismatchCountAppend | main.py:189 | counting distributes over concatenation |
| Report.MismatchCountZero | main.py:189 | the count is zero iff no line says `Yes` |
| Report.MismatchCountAll | main.py:189 | the count equals the number of lines iff every line says `Yes` |
| Report.SelfReconcileCount | main.py:189 | reconciling a table with itself counts zero mismatches |
| Report.AllUnknownCount | main.py:150-172 | when the backend knows no submitted employee, every line counts |
| Scenarios.Jan5Display | main.py:136-138 | `2024-01-05` is shown as `05-Jan-24` |
| Scenarios.DifferingValue | main.py:118-149 | backend `P` and submission `A` for E1 give one `Yes` line under the submission name |
| Scenarios.UnknownInBackend | main.py:150-172 | an E2 unknown to the backend gives one "not found" `Yes` line |

## Left out

- File loading (`load_file`, `load_backend_data`, `load_new_attendance`,
  main.py:36-100) is left out. It reads Excel and CSV through pandas, falls
  back between sheets and prints, which is I/O over library code. The model
  starts from a table already in memory (`Tables.RawTable`).
- The interactive `input()` loop that corrects a missing identity column
  (main.py:57-64) is left out. `Tables.Prepare` takes the column as a
  parameter and requires it to be a standardised header.
- `main` (main.py:192-224) is left out: argument parsing, probing the
  filesystem for the backend file, and printing exceptions.
- The Excel write and the prints in `generate_report` (main.py:181-188, 190)
  are left out. Only the count and the "no data" outcome are modelled.
- Warnings printed for unparseable status headers (main.py:77) are left out.
  The header is kept, as modelled.
- `pd.to_datetime` and `strptime` are only partly modelled. Only the exact
  zero-padded forms are accepted. The following are left out:
  - non-padded days and months;
  - case-insensitive month names;
  - the general date guessing of `pd.to_datetime(date)` at main.py:137,
    where only `YYYY-MM-DD` is recognised;
  - pandas' nanosecond Timestamp range, where years outside about 1677–2262
    raise.
- Only the ASCII letters are case-folded, not Unicode `str.lower()`.
- Duplicate identity values and duplicate column labels are left out. With
  them, pandas `.at` returns a Series, which the code does not anticipate.
  `Prepare` requires distinct standardised labels, and `Compare` requires
  `Keyed` frames.
- Type coercion of cells is left out. Numbers and `None` turned into text by
  `astype(str)` are not modelled: cells are text or NaN, and keys are cells
  compared by value.
- The time of day of a native datetime header is left out. It does not
  reach the `Status (%d-%b-%y)` text.
- Headers.StatusLabel: its contract states only the length. Its content is
  used by the lemmas about it.
- Report.MismatchCount: its contract states only the bound. The lemmas
  `MismatchCountZero`, `MismatchCountAll` and `MismatchCountAppend` state
  what it counts.
