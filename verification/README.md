# S&P 500 daily downloader — Dafny model

This project models the incremental download procedure of
`Data_Downloader/data_downloader.py`. It covers `main` and the two inventory
listers `get_local_data_downloaded` and `get_gstorage_data_downloaded`.

A run does the following:
- It picks a destination: a local folder when a non-empty `local` path is
  given, otherwise the fixed bucket `agh_sp500` of project
  `agh-ycgn288-sp500-project`.
- If a local folder was given and it is not a directory, the run stops with
  status 1.
- It reads the inventory once. The inventory is the date field `name[-14:-4]`
  of every stored name.
- It walks the `days` calendar days before today, oldest first. Each day is
  either not a trading day (skipped), already in the inventory (skipped), or
  fetched as one day `[d, d+1)` and written as `AGH_sp500_<YYYY-MM-DD>.csv`.

The modules follow the program's parts:

- `Dates` (dates.dfy) covers the proleptic Gregorian calendar over Python's
  years 1..9999. It has one-day steps (`timedelta(days=±1)`), `n`-day steps
  that fail where Python raises `OverflowError`, and `strftime("%Y-%m-%d")`
  (`Format`). `Parse` is the inverse of `Format`. Day numbers (Python's
  `toordinal`) are the reference that says exactly when an `n`-day step
  overflows.
- `Window` (window.dfy) holds the candidate days
  `start_date + timedelta(days=i)`.
- `Paths` (paths.dfy) models how a POSIX path string names a file, and
  `os.listdir` filtered by `os.path.isfile`.
- `FileNames` (filenames.dfy) holds the naming convention, Python's slice
  semantics, and the inventory a lister returns.
- `Downloader` (downloader.dfy) holds the per-day decision, the whole run as a
  function (`Run`), and the loop of `main` as a method (`DownloadRecent`).
- `RunProperties` (run_properties.dfy) proves the window order, the download
  count and idempotence.
- `Persistence` (persistence.dfy) covers what a run stores and what the next
  run's lister sees of it. It also contains the separator finding below.

The outside world is the `Env` datatype. It holds the local files, the
existing directories, the bucket's object names and the exchange's trading
days. Today's date is a parameter. A fetch (`yf.download`) and a write (a
local CSV or an uploaded object) are recorded as events in the per-day
`Outcome`.

Details of the code the model keeps:
- `if local:` is Python truthiness. An empty local path therefore selects the
  bucket, just like no path (`SelectDestination`).
- The date is recovered by the fixed slice `[-14:-4]`. That slice equals the
  10 characters before the extension only when the extension has 4
  characters. Python slices clamp out-of-range bounds, so a short name yields
  a shorter string that never matches a date (`DateField`).
- `today - timedelta(days=days)` is computed after the inventory has been
  listed. When it leaves the calendar, the run ends with an uncaught error
  (`DateOverflow`).

## Model

| member | source | states |
|---|---|---|
| Dates.NextDay | Data_Downloader/data_downloader.py:104 | `d + 1 day` is a valid date after `d` |
| Dates.NextDayIsSuccessor | Data_Downloader/data_downloader.py:104 | no valid date lies strictly between `d` and `d + 1 day` |
| Dates.NextDayNumber | Data_Downloader/data_downloader.py:104 | one day later is one more day number, across month and year ends and leap days |
| Dates.DayNumberBounds | Data_Downloader/data_downloader.py:94 | every representable date has a day number from 1 (0001-01-01) to 3652059 (9999-12-31) |
| Dates.PrevDay | Data_Downloader/data_downloader.py:94 | `d - 1 day` is valid and its successor is `d` |
| Dates.Forward | Data_Downloader/data_downloader.py:103-104 | `d + timedelta(days=n)`, when defined, is a valid date |
| Dates.Back | Data_Downloader/data_downloader.py:94 | `d - timedelta(days=n)`, when defined, is a valid date |
| Dates.AddDays | Data_Downloader/data_downloader.py:94 | `d + timedelta(days=k)` for any integer `k`, when defined, is a valid date |
| Dates.ForwardDayNumber | Data_Downloader/data_downloader.py:103-104 | stepping `n` days forward fails exactly when the day number would pass 9999-12-31, and otherwise adds `n` to the day number |
| Dates.BackDefined | Data_Downloader/data_downloader.py:94 | stepping `n` days back succeeds whenever the day number stays at or above that of 0001-01-01 |
| Dates.ForwardDefined | Data_Downloader/data_downloader.py:103-104 | stepping `n` days forward succeeds exactly while the day number stays at or below that of 9999-12-31 |
| Dates.ForwardValue | Data_Downloader/data_downloader.py:103-104 | a successful forward step of `n` days adds `n` to the day number |
| Dates.BackDayNumber | Data_Downloader/data_downloader.py:94 | stepping back fails exactly below day 1, and otherwise subtracts `n` from the day number |
| Dates.AddDaysDayNumber | Data_Downloader/data_downloader.py:94 | `today - timedelta(days=days)` raises OverflowError exactly when `DayNumber(today) - days` leaves `1..3652059`, and otherwise lands on that day number |
| Dates.BackThenForward | Data_Downloader/data_downloader.py:94-95 | going back `days` days from today and then forward `days` days returns to today |
| Dates.ForwardStep | Data_Downloader/data_downloader.py:103-104 | `start + i days` followed by one more day is `start + (i+1) days` |
| Dates.Format | Data_Downloader/data_downloader.py:107 | `%Y-%m-%d` is 10 characters: four digits, `-`, two digits, `-`, two digits |
| Dates.PadValue | Data_Downloader/data_downloader.py:107 | the zero-padded decimal field reads back as the number it renders |
| Dates.PadDecimal | Data_Downloader/data_downloader.py:107 | a string of digits is the zero-padded rendering of its own value |
| Dates.Parse | Data_Downloader/data_downloader.py:107-109 | a string read back as a date is a valid date |
| Dates.FormatParse | Data_Downloader/data_downloader.py:107-109 | any string read back as a date is exactly that date's `%Y-%m-%d` rendering |
| Dates.ParseFormat | Data_Downloader/data_downloader.py:107-109 | reading the rendered string back gives the same date |
| Dates.FormatInjective | Data_Downloader/data_downloader.py:109 | two dates render equal exactly when they are the same date, so the string is a faithful inventory key |
| Window.Candidates | Data_Downloader/data_downloader.py:94-103 | the window has `days` valid dates, starts at `today - days`, and each date's successor is the next date; the successor of the last one is today |
| Window.CandidateIsStartPlus | Data_Downloader/data_downloader.py:102-103 | candidate `i` is exactly `start_date + timedelta(days=i)` |
| Window.CandidatesAscending | Data_Downloader/data_downloader.py:102-103 | candidates are strictly ascending and all before today |
| Window.CandidatesDistinct | Data_Downloader/data_downloader.py:102-103 | no candidate repeats, and today is never a candidate |
| Paths.Components | Data_Downloader/data_downloader.py:38 | a path splits into non-empty, slash-free components |
| Paths.Resolve | Data_Downloader/data_downloader.py:72 | a path string names an absolute path exactly when it starts with `/`, and its components are entry names |
| Paths.AppendEntry | Data_Downloader/data_downloader.py:117 | appending an entry name right after a slash adds exactly that one component |
| Paths.JoinResolves | Data_Downloader/data_downloader.py:38 | `local_path + '/' + f` names the entry `f` inside `local_path` |
| Paths.ListDir | Data_Downloader/data_downloader.py:36-38 | every listed name is a file directly inside the folder |
| Paths.ListDirContains | Data_Downloader/data_downloader.py:36-38 | a file `dir/f` appears in the listing of `dir` under the name `f` |
| Paths.ListDirExact | Data_Downloader/data_downloader.py:36-38 | the listing holds exactly the entry names `f` for which `dir + '/' + f` is a file |
| Paths.ListDirIff | Data_Downloader/data_downloader.py:36-38 | for every name at once: listed exactly when it is an entry name and `dir + '/' + name` is a file |
| FileNames.FileName | Data_Downloader/data_downloader.py:114 | the name is the prefix `AGH_sp500_`, then exactly the date's `%Y-%m-%d` rendering, then `.csv`, and it has no `/` |
| FileNames.PySlice | Data_Downloader/data_downloader.py:41 | Python's `s[lo:hi]`: in-range non-negative bounds give `s[lo..hi]`, in-range negative bounds count from the end, crossed bounds give the empty string, and the result is never longer than `s` |
| FileNames.DateField | Data_Downloader/data_downloader.py:30 | `name[-14:-4]` is the 10 characters before the last four; a name under 14 characters gives fewer than 10, so it matches no date |
| FileNames.FieldRoundTrip | Data_Downloader/data_downloader.py:41 | the slice recovers any 10-character field followed by a 4-character extension, whatever precedes it |
| FileNames.FileNameRoundTrip | Data_Downloader/data_downloader.py:114-117 | the date field of `prefix + 'AGH_sp500_' + d + '.csv'` is `d`, with or without the local path in front |
| FileNames.Inventory | Data_Downloader/data_downloader.py:39-43 | every stored name contributes its date field, and every inventory entry comes from some stored name |
| FileNames.WrittenDayIsListed | Data_Downloader/data_downloader.py:28-31 | a day stored under its file name is in the inventory the lister returns |
| Downloader.SelectDestination | Data_Downloader/data_downloader.py:70-87 | the local folder is used exactly when a non-empty path is given; otherwise the fixed project and bucket are used |
| Downloader.Listing | Data_Downloader/data_downloader.py:36-38 | the bucket lister sees the bucket's object names; the folder lister sees exactly the entry names `f` for which `local + '/' + f` is a file |
| Downloader.InventoryOf | Data_Downloader/data_downloader.py:79-87 | the inventory holds the date field of every listed name and nothing else |
| Downloader.WriteFor | Data_Downloader/data_downloader.py:114-120 | a downloaded day is written under `AGH_sp500_<d>.csv`, whose date field is `d`, into the local folder when one was chosen and into the bucket otherwise |
| Downloader.Classify | Data_Downloader/data_downloader.py:106-125 | exactly one of three outcomes. A download fetches the range `[d, d+1)` and writes the name `AGH_sp500_<d>.csv`, whose date field is `d`, to the local folder if one was chosen and to the bucket otherwise, never both |
| Downloader.Steps | Data_Downloader/data_downloader.py:102-109 | one decision per window day, in window order; a day is downloaded exactly when it is a trading day missing from the inventory |
| Downloader.Run | Data_Downloader/data_downloader.py:68-125 | an invalid local folder ends the run with status 1 before any listing, fetch or write; otherwise it ends with a date overflow exactly when `today - days` leaves the calendar, or completes with `max(days, 0)` decisions; every write is named after its day and goes to the chosen destination |
| Downloader.DownloadRecent | Data_Downloader/data_downloader.py:94-125 | the loop that computes `start_date + timedelta(days=i)` for `i in range(days)` produces exactly the run `Run` defines |
| RunProperties.Downloads | Data_Downloader/data_downloader.py:109-111 | the downloaded days are exactly the days with a download outcome |
| RunProperties.DownloadsDistinct | Data_Downloader/data_downloader.py:102-111 | over distinct days, no day is downloaded twice |
| RunProperties.DistinctCardinality | Data_Downloader/data_downloader.py:102 | a repetition-free sequence has as many elements as its set |
| RunProperties.RunVisitsWindow | Data_Downloader/data_downloader.py:94-103 | a completed run visits `start_date + i` for each `i` below `days`, strictly ascending, all before today |
| RunProperties.RunClassifiesEachDay | Data_Downloader/data_downloader.py:79-109 | every day is decided against the trading days and the one inventory read before the loop |
| RunProperties.WindowDownloadCount | Data_Downloader/data_downloader.py:102-111 | over a window with distinct days, the downloads are exactly the due days (trading days missing from the inventory), each once |
| RunProperties.RunDownloadCount | Data_Downloader/data_downloader.py:102-111 | the number of downloads equals the number of window days that are trading days missing from the inventory, and none is downloaded twice |
| RunProperties.FullyDownloadedRunIsNoOp | Data_Downloader/data_downloader.py:106-123 | when the inventory already holds every trading day of the window, nothing is fetched or written |
| Persistence.Store | Data_Downloader/data_downloader.py:116-120 | one write adds its file (joined path) or its object, and changes nothing else: the other store, the directories and the trading days stay as they were |
| Persistence.StoreAsWritten | Data_Downloader/data_downloader.py:116-120 | the same, with the local file at `local + fname`: it adds that file or the object, and changes nothing else |
| Persistence.Persist | Data_Downloader/data_downloader.py:102-121 | after a run, every write it made is present, and nothing is removed |
| Persistence.StoredDayIsListed | Data_Downloader/data_downloader.py:28-43 | a stored day is in the next inventory of its destination |
| Persistence.InventoryMonotone | Data_Downloader/data_downloader.py:36-43 | storing more names never removes a date from an inventory |
| Persistence.SecondRunDownloadsNothing | Data_Downloader/data_downloader.py:79-121 | rerunning over what a run stored, with the same window, visits the same days and downloads nothing |
| Persistence.AsWrittenEscapesDir | Data_Downloader/data_downloader.py:117 | without a trailing slash (and unless the folder's last component is `.`), `local + fname` is a sibling of the folder, so the folder's listing does not contain it |
| Persistence.AsWrittenWithTrailingSlash | Data_Downloader/data_downloader.py:117 | with a trailing slash, `local + fname` is the entry `fname` inside the folder |
| Persistence.OneDayRun | Data_Downloader/data_downloader.py:102-118 | a one-day run into a folder downloads yesterday when that trading day is missing from the inventory |
| Persistence.AsWrittenListing | Data_Downloader/data_downloader.py:117 | writing `local + fname` for any number of days leaves the folder's listing unchanged when `local` has no trailing slash |
| Persistence.AsWrittenRedownloadsIn | Data_Downloader/data_downloader.py:117 | for a folder named without a trailing slash, the next run over what a run stored with `local + fname` is the same run again: every day downloaded before is downloaded again |
| Persistence.AsWrittenRedownloads | Data_Downloader/data_downloader.py:117 | concrete case: folder `data`, today 2024-01-03, trading day 2024-01-02 is downloaded by both runs |

## Findings

| source | as written | input that shows it | evidently intended | confidence | as-written member | corrected member |
|---|---|---|---|---|---|---|
| Data_Downloader/data_downloader.py:117 | `fname = local + fname`, with no path separator | `main(1, 'data')`, where `data` is an existing folder. Line 72 accepts it. The CSV is written to `dataAGH_sp500_<date>.csv` beside the folder, the folder's lister never sees it, and every later run downloads that day again | the file is placed inside the folder (`local/fname`), so the next run skips it | medium, not executed (the commented-out call on line 128 passes a trailing slash, which avoids the problem) | Persistence.AsWrittenRedownloads | Persistence.SecondRunDownloadsNothing |

The model keeps `main`'s write event as `ToFile(local, fname)`. The path is
formed when the storage is updated: `Persistence.StoreAsWritten` uses
`local + fname`, and `Persistence.Store` uses `local + '/' + fname`.
The cross-run property `Persistence.SecondRunDownloadsNothing` is stated
over the corrected `Persistence.Persist`.
`Persistence.AsWrittenRedownloadsIn` states the general case: for any folder
named without a trailing slash, the second run repeats the first one exactly.
`Persistence.AsWrittenWithTrailingSlash` shows that the as-written path is
fine when the folder name ends in `/`. A folder whose last component is `.`
also escapes the problem, because `local + fname` is then a dot-file inside it.

## Left out

- Price data (`yf.download`, the DataFrame, CSV serialisation): a fetch is an event carrying its start and end strings. The data and the fixed ticker list of `fetch_sp500_tickers` are not modelled.
- Trading calendar (`get_trading_days`, pandas_market_calendars): the exchange's trading days are a set in `Env`. The schedule is requested for `[start_date, today]`. Every window day lies in that range, so restricting the set to the range would change no decision.
- Bucket creation (`create_bucket`, line 85): it runs before the bucket is listed and does not affect any decision. It is not an event of the model.
- The upload call (`create_df_to_gstorage`): it is the `ToBlob` write event. The storage client and credentials are out of scope.
- Negative `days`: `range(days)` is empty, so the run completes with no decision. The trading-calendar request for the reversed range `[today + |days|, today]` is assumed to succeed, like every other call (next line).
- Failures: any exception from a fetch, write, listing or upload would stop the run midway. The model assumes every call succeeds. The only failure it models is date overflow.
- Clock: `datetime.today()` is the parameter `today`. The time of day is dropped, and the two calls on lines 94-95 are treated as the same instant.
- Paths: `.` and `..` components, symbolic links and permissions are not interpreted. A path names a file by its `/`-separated components. `os.path.isdir` is membership of the resolved path in the set of directories.
- Dates.Format: years below 1000 are rendered zero-padded to four digits. Platform `strftime` may not pad them.
- Logging and `print` (including the printed message before `exit(1)`): output only.
- `days` is an integer. Other argument types, which make `range`/`timedelta` raise, are not modelled.
- Persistence.AsWrittenEscapesDir: not stated for a folder whose last component is `.` (`.` or `x/.`). There `local + fname` is a dot-file inside that same folder, and the model's paths do not interpret `.`.
- Persistence.AsWrittenListing: same exclusion of a final `.` component, for the same reason.
- Persistence.AsWrittenRedownloadsIn: same exclusion of a final `.` component. For such a folder the second run does skip the stored days.
