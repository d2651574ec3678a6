# Class attendance dashboard — reconciliation model

This project models the logic of the Streamlit attendance dashboard
(`dashboard.py`): it builds the class roster from the sub-directories of the
known-faces directory, stops when that roster is empty, left-joins the roster
onto the tracked time records read from the CSV report (no records when the
file is absent), fills unmatched students with 0 seconds and 0 minutes, adds
the Status column (Present for any positive minutes, Absent otherwise) and the
Missing (Minutes) column (`max(0, 300 - minutes)` rounded to one decimal),
counts Present and Absent rows for the summary, and picks each student's photo
as the first file of their directory whose lower-cased name ends in `.jpg`,
`.jpeg` or `.png`.

The filesystem and the CSV file are inputs: the known-faces listing is a
sequence of `Entry(name, isDir)` in listing order together with a flag saying
whether the known-faces directory exists; the CSV is `Option<seq<Record>>`
(`None` when the file does not exist); each student's directory listing is a
`map<string, seq<string>>` (a name missing from the map has no directory).

Files and modules:

- `common.dfy` — `Common`: `Option` and `Result`.
- `roster.dfy` — `Roster`: the roster loop (`LoadStudents`) proved against `DirNames`.
- `merge.dfy` — `Merge`: the left join and zero fill (`LeftMerge`).
- `derive.dfy` — `Derive`: Status, Missing minutes, the rounding, the table (`Reconcile`) and the summary counts.
- `photo.dfy` — `Photo`: the photo loop (`PickPhoto`) proved against `FirstImage`.
- `dashboard.dfy` — `Dashboard`: one whole run (`Run`).

Where the code and a plain reading of the dashboard's intent differ, the model
follows the code:

- The left merge emits one row per matching CSV record, so a name that occurs
  several times in the CSV gets several rows; the table has one row per roster
  name only when the CSV names are unique (`Merge.LeftMergeUnique`), and in
  general at least one row per roster name (`Merge.LeftMerge`,
  `Merge.DuplicatesGiveOneRowPerRecord`).
- Status is Absent for every minutes value that is not positive, including a
  negative one; there is no third value.
- The merged row of a matched student is the CSV record itself; the seconds
  column is carried along and never used to recompute the minutes.

## Model

| member | source | states |
|---|---|---|
| `Roster.DirNames` | dashboard.py:29-31 | the roster of a listing is never longer than the listing; which names it holds and in what order is stated by `Roster.DirNamesMember` and `Roster.DirNamesAppend` |
| `Roster.LoadStudents` | dashboard.py:26-31 | the loop appends, in listing order, the name of every entry that is a directory, and nothing when the known-faces directory is missing |
| `Roster.DirNamesAppend` | dashboard.py:29-31 | the roster of a listing split in two is the roster of the first part followed by that of the second: listing order is kept |
| `Roster.DirNamesMember` | dashboard.py:29-31 | a name is on the roster exactly when some directory entry of the listing carries it; files are skipped |
| `Roster.DirNamesEmpty` | dashboard.py:28-35 | the roster is empty exactly when no entry of the listing is a directory |
| `Merge.Matches` | dashboard.py:50 | the records matching a name are exactly the records carrying that name |
| `Merge.RowsFor` | dashboard.py:50-53 | a roster name gets every record of that name, or exactly one zero-filled row when there is none; every row carries that name |
| `Merge.MatchesAppend` | dashboard.py:50 | the matches of a record list split in two are the first part's matches followed by the second's: matches keep record order |
| `Merge.LeftMerge` | dashboard.py:48-53 | the join has at least as many rows as roster names, every row's name is on the roster (so a record for a name off the roster never appears), and every roster name without a record has its zero-filled row |
| `Merge.LeftMergeCoversRoster` | dashboard.py:48-53 | every roster name has at least one row in the join, whatever the records, duplicates included |
| `Merge.LeftMergeAppend` | dashboard.py:48-50 | joining a roster split in two gives the rows of the first part followed by those of the second: rows follow roster order |
| `Merge.LeftMergeOrigin` | dashboard.py:50-53 | every joined row is a tracked record of a roster name, or the zero-filled row of a roster name no record carries |
| `Merge.LeftMergeKeepsMatches` | dashboard.py:50 | every record whose name is on the roster appears in the join |
| `Merge.MatchesAtMostOne` | dashboard.py:50 | with unique record names a roster name matches at most one record |
| `Merge.RowsForUnique` | dashboard.py:50-53 | with unique record names a roster name gets exactly one row, its own record when it has one |
| `Merge.LeftMergeUnique` | dashboard.py:48-53 | with unique record names the join has exactly one row per roster name, row i carries roster name i, its record when it has one and the zero row otherwise |
| `Merge.DuplicatesGiveOneRowPerRecord` | dashboard.py:50 | a name on several records gets one row per record, in record order, between the rows of the names before and after it |
| `Merge.LeftMergeNoRecords` | dashboard.py:40-53 | with no tracked records (CSV absent) every roster name gets exactly one zero-filled row, in roster order |
| `Derive.RoundHalfEven` | dashboard.py:64 | the integer rounding is within 0.5 of its input, picks the even integer on a tie, is exact on integers and keeps non-negative inputs non-negative |
| `Derive.RoundTenth` | dashboard.py:64 | rounding to one decimal yields a whole number of tenths within 0.05 of the input, ties to an even number of tenths, is exact on tenths and keeps non-negative inputs non-negative |
| `Derive.MissingMinutes` | dashboard.py:62-64 | missing minutes are never negative, a whole number of tenths, 0 once minutes reach 300, and otherwise within 0.05 of 300 minus the minutes |
| `Derive.MissingMinutesExact` | dashboard.py:62-64 | for minutes given in tenths up to 300, missing minutes are exactly 300 minus the minutes |
| `Derive.StatusOf` | dashboard.py:58-60 | the status is Present exactly when the minutes are positive and Absent exactly when they are not; no other value exists |
| `Derive.DeriveRow` | dashboard.py:58-64 | a table row keeps the joined row's name, seconds and minutes, is Present exactly when minutes are positive and Absent otherwise, and its Missing column is `MissingMinutes` of its minutes (non-negative, 0 from 300 minutes on) |
| `Derive.Reconcile` | dashboard.py:48-64 | the table has one row per joined row, so at least as many as roster names; every row is Present exactly for positive minutes and its Missing column is `MissingMinutes` of its minutes, never negative |
| `Derive.ReconcileRows` | dashboard.py:48-64 | row i of the table carries the name, seconds and minutes of joined row i, its name is on the roster, its Status and Missing follow from its minutes, and every roster name has at least one row |
| `Derive.ReconcileUnique` | dashboard.py:48-64 | with unique record names the table has exactly one row per roster name in roster order, with the record's minutes, or 0 minutes, Absent and 300 missing |
| `Derive.ReconcileNoRecords` | dashboard.py:40-64 | with no tracked records every student is one row with 0 seconds, 0 minutes, Absent and 300 missing minutes |
| `Derive.CountStatus` | dashboard.py:74-75 | a status count never exceeds the number of rows |
| `Derive.Summarize` | dashboard.py:73-75 | the summary's total is the number of table rows and its Present and Absent counts add up to that total |
| `Derive.SummaryBalanced` | dashboard.py:74-75 | the Present count plus the Absent count equals the number of rows |
| `Derive.AllAbsentCounts` | dashboard.py:74-75 | a table of Absent rows counts 0 Present and every row Absent |
| `Derive.SummaryNoRecords` | dashboard.py:40-75 | with no tracked records the summary is: every student in total, 0 Present, all Absent |
| `Derive.MatchedUnmatchedAndStray` | dashboard.py:48-64 | for roster Alice, Bob and records Alice 90 minutes and Ghost 1 minute: Alice 90, Present, 210 missing; Bob 0, Absent, 300 missing; Ghost is dropped |
| `Photo.LowerChar` | dashboard.py:104 | lower-casing maps A to Z onto a to z and leaves every other character alone |
| `Photo.Lower` | dashboard.py:104 | lower-casing a name keeps its length and lower-cases each character |
| `Photo.IsImageFile` | dashboard.py:104 | a file qualifies when its lower-cased name ends in `.jpg`, `.jpeg` or `.png`; that the test ignores case is stated by `Photo.ImageTestIgnoresCase` |
| `Photo.LowerIdempotent` | dashboard.py:104 | lower-casing twice is lower-casing once |
| `Photo.ImageTestIgnoresCase` | dashboard.py:104 | whether a file qualifies as a photo does not depend on the case of its name |
| `Photo.FirstImage` | dashboard.py:103-106 | a photo found is a file of the listing that qualifies; that it is the first one, and that none is found only when none qualifies, is stated by `Photo.FirstImageSpec` |
| `Photo.FirstImageSpec` | dashboard.py:103-106 | a photo is found exactly when some file qualifies, and it is then a qualifying file with no qualifying file before it |
| `Photo.PickPhoto` | dashboard.py:99-106 | the loop that stops at the first qualifying file returns the first qualifying file, and nothing when the directory is missing |
| `Dashboard.TrackedRecords` | dashboard.py:40-43 | the records are the CSV contents, and none when the CSV file does not exist |
| `Dashboard.PhotoOf` | dashboard.py:100-106 | a student without a directory has no photo; a photo found is a qualifying file of that student's directory |
| `Dashboard.PickPhotos` | dashboard.py:91-106 | the table loop picks one photo per row, in row order, each the first qualifying file of that row's directory |
| `Dashboard.Run` | dashboard.py:26-106 | a run stops with NoStudents exactly when the known-faces directory is missing or has no sub-directory; otherwise it shows the table of the roster joined to the tracked records, its summary and one photo per row |
| `Dashboard.RunSummary` | dashboard.py:33-75 | on a run that goes through, Present plus Absent is the total, which is at least the roster size and positive; without a CSV file the summary is everybody Absent |

## Left out

- Page setup, metrics, columns, the table rendering, the bar chart and the download button (dashboard.py:16-21, 69-136) are presentation; the model stops at the values they show.
- `os.path.isdir`, `os.listdir` and `os.path.exists` are replaced by input values; a listing is taken as given in listing order, and the `os.path.exists(img_path)` re-check before opening a photo is not modelled.
- `pd.read_csv` and `df.to_csv`: the CSV is given already parsed as a sequence of records; serialisation of the table is not modelled.
- `PIL.Image.open`: the photo is modelled by its file name only; path joining with the directory name is not modelled.
- Derive.RoundTenth: rounds the exact real value half to even; pandas rounds a binary float (scaling by 10 in floating point), which can differ on values that are not exactly representable, and that float behaviour is not modelled. The display rounding of minutes in the table is not modelled either.
- `fillna` on NaN values inside CSV rows depends on the CSV parser and is not modelled; only the rows the left join adds are filled with 0.
- Photo.LowerChar: models `str.lower()` on the ASCII letters only; full Unicode case mapping is not modelled.
- Minutes and seconds are exact reals; 64-bit float arithmetic is not modelled.
