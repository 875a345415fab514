# xfel-worklog core, modelled in Dafny

xfel-worklog keeps a diary of Markdown documents, one per Jira ticket. Each document has a
YAML front matter with tags and a `worklog`, a list of raw `"<start>,<end>"` strings. The
tool starts and stops work sessions on a document, queries the diary by tag, path or date
window, prints durations and totals, and uploads the logged sessions to Jira.

This project models the core of that tool:

- The worklog of a document (`src/data/model.rs`), in module `Model`:
  - entry completeness and active detection;
  - the projection of raw entries to date ranges;
  - the existence tests `has_work_after` / `has_work_before`;
  - `start` and `stop`, as methods of the class `MutDiaryDoc` that change its worklog in place.
- The query engine (`src/data/query.rs`), in module `Query`:
  - the order-preserving filters `active`, `by_tags` and `by_path`;
  - `filter_date`, with its window, coarse test, worklog clipping, removal of empty documents
    and stable sort by first range;
  - the sort itself is the in-place insertion sort on an array in `Sorting`.
- The relative-date resolver (`src/cli/date_parse.rs`), in `DateParse`. The `friday` loop is a
  method proved against a function. The calendar and the timestamp format are in `Calendar`.
- Duration formatting, per-document rows and totals, and the grand total of the table
  (`src/cli/table.rs`), in `Table`.
- Front-matter replacement and the path and text of a new entry (`src/data.rs`), in `Data`.
- The choice of query in the `query` command (`src/cli/query.rs`), in `CliQuery`.
- The guards and the loop of the `start`, `stop`, `sync-worklog` and `archive` commands
  (`src/cli/action.rs`), in `Action`. Their effects are recorded as a trace.
- The Jira key of a document and the skip-existing, fail-fast upload loop (`src/jira.rs`),
  in `Jira`.

`Wrappers`, `Sequences`, `Text` and `Decimal` hold generic helpers: `Option`/`Result`,
`retain`, `map`, sums, trimming, splitting, joining, substring search and decimal numbers.

Representation:

- A `NaiveDate` is a proleptic Gregorian `Date` with a day number counted from 1970-01-01.
- A `NaiveDateTime` is a `DateTime`; `timestamp()` is `Timestamp`, in seconds.
- `%Y-%m-%dT%H:%M:%S` is a strict parser of exactly 19 characters, proved inverse to the
  formatter.
- `load_diary()` becomes an input sequence of `DiaryDoc` values.
- The clock (`Local::now()`, `Local::today()`) becomes a parameter.
- Every call into code the model does not see becomes a parameter: the stdin path, Jira
  HTTP calls, the local-time conversions, `is_archive`.
- Panicking `unwrap`s become preconditions (`stop` on an empty worklog) or `None`
  (`jira_key`).

Behaviour of the code that the model keeps, and that a reader might not expect:

- `start` itself does not refuse an active document; only the `start` command checks.
  `MutDiaryDoc.Start` has no such precondition, and `Action.StartGuard` states the
  command's check.
- `stop` on an empty worklog panics (`unwrap` at `src/data/model.rs:94`).
  `MutDiaryDoc.Stop` requires a non-empty worklog, and `Action.StopGuard` shows that
  the command's activity check guarantees it.
- `biweekly` returns the 15th of the month (`src/cli/date_parse.rs:26-27`).
- An active worklog has fewer ranges than entries; the converse fails.
  - `Model.ActiveDropsAnEntry` proves the direction that holds.
  - `Model.UnparsedEntryNotActive` shows that a closed entry whose first piece is no timestamp
    drops a range on an inactive document.

## Model

| member | source | states |
|---|---|---|
| Model.WorklogEntry | src/data/model.rs:62-64 | one trimmed piece for each comma-separated piece of the raw entry, so never fewer than one |
| Model.WorklogToDateRange | src/data/model.rs:66-83 | the result is the "invalid input" error exactly when the entry has no second piece or an empty one; every range it returns has printable endpoints |
| Model.RangeOfEntry | src/data/model.rs:79-82 | a range read from an entry formats back to the entry's first two pieces, so both were parsed with the `%Y-%m-%dT%H:%M:%S` format |
| Model.RangesOf | src/data/model.rs:55-60 | `worklog_range` has at most one range per raw entry, and all of them are well formed |
| Model.RangesOfMembers | src/data/model.rs:55-60 | a range is in `worklog_range` exactly when some raw entry parses to it |
| Model.RangesOfAppend | src/data/model.rs:55-60 | `worklog_range` of a concatenation is the concatenation of the ranges, so entry order is kept |
| Model.FormatTsIsOnePiece | src/data/model.rs:86-89 | a formatted timestamp holds no comma and no surrounding space, so splitting and trimming keep it whole |
| Model.StartEntryIsOpen | src/data/model.rs:85-91 | the entry `start` pushes, `"<now>,"`, splits to `[now, ""]` and is incomplete |
| Model.ClosedEntryRange | src/data/model.rs:93-101 | the entry `"<s>,<n>"` produced by `stop` parses to the range from `s` to `n` |
| Model.FirstTwoPieces | src/data/model.rs:62-64 | the first two pieces of `a,b,rest` are `a` and `b` trimmed |
| Model.RangeFromPieces | src/data/model.rs:79-82 | an entry whose first two pieces are formatted timestamps yields the range between them |
| Model.LaterPiecesIgnored | src/data/model.rs:62-83 | for comma-free `a` and `b`, the entry `a,b,rest` gives the same range or the same error as `a,b`, whatever `rest` is |
| Model.TrimmedPiecesRange | src/data/model.rs:62-83 | `a,b,rest` gives the range `(s, n)` when `a` and `b` trim to the formatted `s` and `n` |
| Model.ActiveIffOpenEntry | src/data/model.rs:28-35 | `is_active` holds exactly when some entry gives the incomplete-entry error; an empty worklog is not active |
| Model.ActiveDropsAnEntry | src/data/model.rs:28-35 | an active worklog has fewer ranges than entries |
| Model.UnparsedEntryNotActive | src/data/model.rs:28-35 | a worklog whose one entry is closed but whose first piece is no timestamp (`"a,b"`, say) has no range and is not active, so "fewer ranges" does not imply active |
| Model.SingleEntry | src/data/model.rs:28-35 | a one-entry worklog is active exactly when its entry is incomplete, and its ranges are that entry's range, if any |
| Model.HasWorkAfterIffEntry | src/data/model.rs:37-44 | `has_work_after(t)` holds exactly when some entry parses to a range ending strictly after `t`; it is false without ranges |
| Model.HasWorkBeforeIffEntry | src/data/model.rs:46-53 | `has_work_before(t)` holds exactly when some entry parses to a range starting strictly before `t`; it is false without ranges |
| Model.StartedIsActive | src/data/model.rs:85-91 | after `start` the worklog is active and its ranges are unchanged |
| Model.AppendCompleteKeepsInactive | src/data/model.rs:28-35 | appending a complete entry to an inactive worklog leaves it inactive |
| Model.StartThenStop | src/data/model.rs:85-101 | on an inactive worklog, `start(s)` then `stop(n)` appends the entry `"<s>,<n>"`, leaves it inactive and appends the range from `s` to `n` |
| Model.MutDiaryDoc.constructor | src/data/model.rs:17-21 | the mutable document holds the given metadata and path |
| Model.MutDiaryDoc.Start | src/data/model.rs:85-91 | pushes exactly `"<now>,"` and changes nothing else; afterwards the document is active and its ranges are the old ones |
| Model.MutDiaryDoc.Stop | src/data/model.rs:93-101 | replaces the last entry with itself followed by `now`; the length and every earlier entry are unchanged |
| Calendar.ParseTs | src/data/model.rs:79-81 | every string the parser accepts is the 19-character formatting of a printable date-time |
| Calendar.ParseFormatTs | src/data/model.rs:79-81 | parsing a formatted date-time gives it back |
| Calendar.ParseDate | src/cli/date_parse.rs:17 | every string the model's `%Y-%m-%d` parser accepts is the formatting of a valid date with a four-digit year |
| Calendar.ParseFormatDate | src/cli/date_parse.rs:17-19 | parsing a formatted date gives it back |
| Calendar.SubSignedDays | src/cli/date_parse.rs:8-10 | `checked_sub_signed` of `n` days gives a valid date whose day number is `n` lower |
| Calendar.Pred | src/cli/date_parse.rs:37 | the previous day is a valid date one day number lower |
| Calendar.WeekdayOfPred | src/cli/date_parse.rs:36-37 | stepping one day back moves the weekday one step back, modulo 7 |
| Calendar.DayBounds | src/data/query.rs:50-52 | `and_hms(0, 0, 0)` is the first second of the day and `and_hms(23, 59, 59)` the last |
| DateParse.DaysFromToday | src/cli/date_parse.rs:8-10 | a valid date whose day number is today's minus `days` |
| DateParse.DaysSinceFriday | src/cli/date_parse.rs:33-41 | the days since the last Friday are at most 6 |
| DateParse.LastFridayGap | src/cli/date_parse.rs:34-39 | the loop stops after the number of days since the last Friday, at a Friday, and passes no Friday before it |
| DateParse.Input | src/cli/date_parse.rs:16-44 | `input` returns the reference resolution: an ISO date first, then the keywords, else the error |
| DateParse.Keyword | src/cli/date_parse.rs:20-43 | the keyword match returns the reference keyword resolution |
| DateParse.ResolveIsoDate | src/cli/date_parse.rs:17-19 | a formatted date resolves to that date, whatever today is |
| DateParse.KeywordsAreNotDates | src/cli/date_parse.rs:17-20 | no keyword parses as a date, so the keyword branches are reachable |
| DateParse.ResolveTodayYesterday | src/cli/date_parse.rs:21-22 | `today` is today and `yesterday` the day before |
| DateParse.ResolveMonth | src/cli/date_parse.rs:23 | `month` is the first of the current month |
| DateParse.ResolveBiweekly | src/cli/date_parse.rs:24-32 | `biweekly` is the 15th of the current month from the 15th on, and the 1st before |
| DateParse.ResolveFriday | src/cli/date_parse.rs:33-41 | `friday` is a Friday at most 6 days before today, and today when today is a Friday |
| DateParse.NoFridaySince | src/cli/date_parse.rs:36-39 | no day after the resolved Friday and up to today is a Friday |
| DateParse.FridayIffNoDaysSince | src/cli/date_parse.rs:36 | a day is a Friday exactly when zero days have passed since the last Friday |
| DateParse.SinceFridayOfPred | src/cli/date_parse.rs:36-38 | on a day other than Friday, the day before is one day closer to the last Friday |
| DateParse.FridayBack | src/cli/date_parse.rs:34-39 | stepping back `n` days, within the gap, lowers the days since Friday by `n` |
| DateParse.KeywordsNotAfterToday | src/cli/date_parse.rs:21-41 | every keyword resolves to a valid date at or before today |
| DateParse.ResolveOther | src/cli/date_parse.rs:42 | any other string that the model's date parser rejects gives the "Can't format input as date" error |
| Sorting.InsertLast | src/data/query.rs:6 | one insertion step puts the element after every earlier element whose key is not greater, leaving later elements alone |
| Sorting.SortByKey | src/data/query.rs:6 | the array is rearranged in place into the reference stable sort by key |
| Sorting.SortedByKeyProperties | src/data/query.rs:6 | the reference sort is ordered by key, a permutation, and keeps the order of elements with equal keys |
| Query.SortByDate | src/data/query.rs:5-14 | `sort_by_date` sorts in place, stably, by the start of the first range, with key 0 when there is none |
| Query.ActiveFilters | src/data/query.rs:20-24 | `active` keeps, in order, exactly the active documents, each as often as the diary holds it |
| Query.HasRequestedTag | src/data/query.rs:28-32 | a document is kept when one of its tags is among the requested ones |
| Query.ByTagsFilters | src/data/query.rs:26-34 | `by_tags` keeps, in order, exactly the documents sharing a tag with the request; an empty request keeps nothing |
| Query.ByPathFilters | src/data/query.rs:91-95 | `by_path` keeps, in order, exactly the documents whose path contains the text |
| Query.ByEmptyPath | src/data/query.rs:91-95 | the empty path keeps every document |
| Query.WindowOf | src/data/query.rs:50-55 | the window is bounded above exactly when there is an end date |
| Query.WindowBounds | src/data/query.rs:50-55 | the window starts at the start date's first second and ends at the end date's last second |
| Query.Clip | src/data/query.rs:65-77 | rewriting a document's worklog changes neither its path nor any other metadata field |
| Query.ClipEach | src/data/query.rs:65-77 | the `iter_mut` loop rewrites each document's worklog to its entries inside the window |
| Query.FilterDate | src/data/query.rs:45-81 | `filter_date` returns the reference date query: coarse test, clip, drop empty, stable sort |
| Query.ByDate | src/data/query.rs:83-89 | `by_date` is the date query over the whole diary |
| Query.ByTagsAndDate | src/data/query.rs:36-43 | `by_tags_and_date` is the date query over `by_tags` |
| Query.ByPathAndDate | src/data/query.rs:97-104 | `by_path_and_date` is the date query over `by_path` |
| Query.InWindowBounds | src/data/query.rs:67-73 | an entry stays exactly when it parses and its start is strictly after the start bound and, with an end date, its end strictly before the end bound |
| Query.ClipKeepsOrder | src/data/query.rs:66-76 | the clipped worklog is the in-order subsequence of the entries inside the window, each as often as before |
| Query.ClippedHasRange | src/data/query.rs:65-78 | a document whose clipped worklog is not empty has a range |
| Query.WindowedMembers | src/data/query.rs:56-78 | before sorting, the documents are exactly the clipped, non-empty versions of input documents that pass the coarse test |
| Query.DateQueryOrder | src/data/query.rs:79 | the result is sorted by first-range start, is a permutation of the unsorted survivors, and keeps the order of documents with equal keys |
| Query.DateQueryMembers | src/data/query.rs:45-81 | every result comes from an input document that passed the coarse test, with its worklog clipped and not empty, and has a range |
| Query.CoarseImpliedByEntry | src/data/query.rs:56-64 | a document with an entry inside the window, ending no earlier than it starts, passes the coarse test |
| Table.TruncDiv | src/cli/table.rs:9-10 | the quotient rounds toward zero, as `num_hours` and `num_minutes` do |
| Table.Fmt02 | src/cli/table.rs:8 | `{:02}` prints only digits and a minus sign |
| Table.Fmt02Padded | src/cli/table.rs:8 | for 0..99, `{:02}` is the two-digit zero-padded number |
| Table.DurationToString | src/cli/table.rs:5-13 | the duration text is one line |
| Table.DurationParts | src/cli/table.rs:9-10 | hours times 60 plus the minute part is the total minutes; the minute part is in 0..59 for a non-negative duration |
| Table.DurationText | src/cli/table.rs:5-13 | a non-negative duration prints as `<hours>h <mm>m` with the minutes zero-padded to two digits |
| Table.FnameIsLastPiece | src/cli/table.rs:15-17 | the name has no slash; it is the whole path without a slash, and what follows the last slash otherwise |
| Table.Row | src/cli/table.rs:30 | a row is a single line |
| Table.TotalDurationAppend | src/cli/table.rs:29 | the total of ranges put together is the sum of their totals |
| Table.Ranges | src/cli/table.rs:22-35 | `ranges` returns the rows of `worklog_range` joined by newlines and the sum of `end - start` over them |
| Table.RowsAndTotal | src/cli/table.rs:24-33 | the loop yields one row per range, in order, and the running sum of durations |
| Table.RowsTextLines | src/cli/table.rs:24-33 | the rows text is empty without ranges, and otherwise splits on newlines back into one row per range |
| Table.GrandTotalIsTotal | src/cli/table.rs:48-58 | the grand total is the total duration of all ranges of all documents |
| Table.Print | src/cli/table.rs:45-58 | two records per document, name and rows then its total, then the grand total, which is the sum of the partial totals |
| Data.ReplaceFrontmatter | src/data.rs:49-61 | the result starts with the new fenced front matter and ends with a suffix of the old text |
| Data.ReplaceFenced | src/data.rs:50-53 | a text `---<old>---<body>` becomes the new fenced front matter followed by `body` |
| Data.ReplaceUnfenced | src/data.rs:54-60 | without an opening or a closing fence the whole text follows the new front matter |
| Data.ReplaceAddsBlankLine | src/data.rs:52-53 | on a text written as a fenced front matter and a body, the body gains a leading newline |
| Data.ReplaceTwiceGrows | src/data.rs:49-61 | replacing twice with the same front matter yields one more character than replacing once |
| Data.ReplaceFrontmatterFixed | src/data.rs:49-61 | the corrected replacement starts with the new fenced front matter and ends with a suffix of the old text |
| Data.FixedReplacesHeader | src/data.rs:50-53 | the corrected replacement keeps the body of a fenced text exactly |
| Data.FixedIdempotent | src/data.rs:49-61 | the corrected replacement is idempotent |
| Data.Project | src/data.rs:73-75 | the project is the part of the key before its first `-`, or the whole key without one |
| Data.TagNames | src/data.rs:74-78 | two tags, or three with a base path |
| Data.TagsText | src/data.rs:74-78 | the tags text is `'P', 'KEY'` followed by `, 'base'` with a base path |
| Data.CreateEntry | src/data.rs:72-101 | the file is `root/dir/KEY.md`, with `dir` the project or `base/project`; the text is the fenced front matter with the quoted tags, then the summary heading and the description; that front matter is the rendering of the new entry's metadata |
| Data.FrontMatterOfEntry | src/data.rs:85-96 | the front matter `create_entry` writes is the rendering of the new entry's metadata: author, empty date, its tags, no estimate, no worklog entry |
| Data.NewEntryInactive | src/data.rs:85-96 | any metadata whose rendering is that front matter has an empty worklog, because it ends with a bare `worklog:` key; so the new entry is not active and has no range |
| CliQuery.Run | src/cli/query.rs:4-34 | `run` returns the results of the query call its arguments select |
| CliQuery.ExplicitPathWins | src/cli/query.rs:11-17 | the `path` argument wins over standard input |
| CliQuery.TagsIgnorePath | src/cli/query.rs:18-23 | with tags the path is not consulted |
| CliQuery.EndDateNeedsStart | src/cli/query.rs:18-34 | without a start date the end date is not consulted |
| CliQuery.NoFilterIsAll | src/cli/query.rs:30-34 | without tags, path and start date the whole diary is returned |
| CliQuery.DateQueryKeepsIdentity | src/data/query.rs:65-77 | every document a date query returns has the path and tags of an input document |
| CliQuery.TaggedResults | src/cli/query.rs:18-23 | with tags every result carries a requested tag, with or without dates |
| CliQuery.PathResults | src/cli/query.rs:24-29 | without tags and with a non-empty path every result's path contains it |
| Action.DoAction | src/cli/action.rs:6-40 | `do_action` produces the reference effects of its command on the document |
| Action.Run | src/cli/action.rs:42-58 | `run` produces the no-match error or the effects of `do_action` on each matched document in order |
| Action.StartGuard | src/cli/action.rs:8-16 | start on an active document only logs an error; otherwise it calls `stop_active_docs`, then `update_entry` with the started document: `"<now>,"` appended, now active |
| Action.StopGuard | src/cli/action.rs:17-24 | stop on an inactive document only logs an error; otherwise the worklog is not empty and `update_entry` is called with the stopped document, whose last entry alone is extended with `now` |
| Action.StartThenStopSession | src/cli/action.rs:8-24 | start then stop on an inactive document hands `update_entry` a document that is inactive with one more range, from the start time to the stop time |
| Action.ArchiveGuard | src/cli/action.rs:32-38 | an archived document is refused with an error; the document is archived exactly when it was not |
| Action.SyncErrorLogged | src/cli/action.rs:25-31 | a sync failure is logged and not propagated |
| Action.RunNoMatch | src/cli/action.rs:50-53 | no matched document gives only the no-match error |
| Action.StartUpdatesStarted | src/cli/action.rs:13-15 | the only document start passes to `update_entry` is the started document |
| Action.StartedDocIsActive | src/cli/action.rs:14 | the started document is active |
| Action.EffectsStayOnDoc | src/cli/action.rs:6-40 | a command passes to `update_entry` or archives only its own document; start passes it active; archive only an unarchived one |
| Action.RunActsOnMatched | src/cli/action.rs:55-57 | every `update_entry` call or archive of `run` is on a matched document, as `do_action` on it would do |
| Jira.JiraKey | src/jira.rs:169-173 | no key without a slash in the path; a key holds no slash |
| Jira.JiraKeyOf | src/jira.rs:169-173 | the key of `dir/KEY.ext` is `KEY` |
| Jira.JiraKeyNeedsDot | src/jira.rs:171 | a file name without a dot has no key |
| Jira.CreatedEntryKey | src/jira.rs:169-173 | the key of the file a new entry is written to is the ticket's key |
| Jira.WorklogUri | src/jira.rs:109-111 | the worklog path of a ticket holds its key at a fixed position |
| Jira.WorklogUriInjective | src/jira.rs:109-111 | different keys have different worklog paths |
| Jira.FirstFailure | src/jira.rs:192 | every upload before the first failure passes, and the one there fails |
| Jira.SyncWorklogs | src/jira.rs:175-195 | `sync_worklogs` has the reference outcome and uploads: the fetch error, or the planned uploads sent until one fails |
| Jira.UploadRanges | src/jira.rs:186-194 | the loop skips existing ranges, uploads the others in order and stops at the first failure |
| Jira.FailedUpload | src/jira.rs:192 | a failed upload ends the sync with that failure and the uploads made so far |
| Jira.StopsAtFailure | src/jira.rs:192 | sending stops at the first failure and returns it |
| Jira.NoFailure | src/jira.rs:186-194 | when every upload passes, all are sent and the sync succeeds |
| Jira.PlannedSnoc | src/jira.rs:186-192 | one more range adds its upload exactly when it is not skipped |
| Jira.PlannedSplit | src/jira.rs:186-192 | the uploads for a prefix of the ranges are a prefix of the uploads |
| Jira.FetchErrorUploadsNothing | src/jira.rs:177-180 | a fetch error is returned and nothing is uploaded |
| Jira.PlannedUploads | src/jira.rs:151-155 | an upload is planned exactly for each range whose formatted start is not among the existing ones, to the ticket's worklog path, without comment |
| Jira.UploadOfRange | src/jira.rs:151-155 | an upload starts at the range's start and lasts `end - start` seconds |
| Jira.PlannedInOrder | src/jira.rs:186-192 | the uploads follow the order of the kept ranges |
| Jira.SentIsPrefix | src/jira.rs:186-194 | the uploads sent are a prefix of the plan; the sync succeeds exactly when all are sent and pass, and otherwise returns the last sent upload's failure |

## Left out

- Reading the diary (`load_diary`: directory walk, file reads, YAML decoding) is not modelled; the diary is an input sequence.
- Data.NewEntryInactive: the front matter is related to metadata by rendering (`Data.FrontMatterOf`), not by YAML decoding. That serde decodes a bare `worklog:` key to the empty list is taken as given.
- `update_entry` and `archive_entry` are recorded as effects, with the document they are called with; the files are not read or written.
- `update_entry` (`src/data.rs:63-70`) does not save the document it is given. It opens and reads the file, panicking if it cannot, computes `replace_frontmatter` of the contents with a fixed placeholder text instead of the document's metadata, logs the result and writes nothing. So a started or stopped worklog is never stored. The `UpdateEntry` effect records the call and the document passed; the model claims nothing about the file afterwards.
- The `sync` parameter of `Action.DoAction` and `Action.Run` stands for `Jira.SyncWorklogs` with its other inputs fixed; `Action` does not relate it to `Jira`, so `jira_key`'s panic is not visible there.
- `stop_active_docs`, `is_archive` and `by_path_multiple` are not part of this model: the first is an effect, the second a parameter, and the documents matched from standard input are a parameter of `Action.Run`.
- The path read from standard input by `stdin_path` is a parameter of `CliQuery.Run`.
- Jira HTTP requests, JSON (de)serialisation, authentication and configuration are not modelled. The outcome of the fetch is a parameter, and the outcome of each upload is a function of the request.
- `ts_to_string` and `date_string_to_local_date_string` depend on the local time zone; they are parameters.
- The clock (`Local::now()`, `Local::today()`) is a parameter, read once per command.
- Table rendering (borders, styles, column layout), `println!` and logging are not modelled. Only the records and totals are, and logged errors appear as effects.
- Model.WorklogEntry: `str::trim` removes Unicode whitespace; the model trims ASCII whitespace only.
- Calendar.ParseDate: chrono's `%Y-%m-%d` parser also accepts one-digit months and days and a sign or more year digits (`"2023-4-7"` is 2023-04-07); the model accepts exactly 10 characters with a four-digit year. So `DateParse.Input` gives the "Can't format input as date" error for those strings, and `DateParse.ResolveOther` covers only the strings the model rejects.
- Calendar.ParseTs: chrono's `%Y-%m-%dT%H:%M:%S` parser accepts some variants (a sign, more year digits, one-digit fields such as `"2023-04-07T9:00:00"`, and the leap second `:60`); the model accepts exactly 19 characters with a four-digit year.
- Model.MutDiaryDoc.Stop: requires a non-empty worklog, because the source panics on an empty one.
- Jira.JiraKey: the panics of the two `unwrap`s are modelled as `None`, and `Jira.SyncWorklogs` requires a key.
- Query.FilterDate: its contract ties the result to the reference query `DateQuery`; the properties of that query are stated by the `Query.DateQuery*`, `Query.WindowedMembers`, `Query.ClipKeepsOrder` and `Query.InWindowBounds` lemmas.
- Query.Active, Query.ByTags and Query.ByPath: the in-place `retain` on a vector is modelled as a function returning the kept documents.
- Durations are whole seconds without overflow; chrono's nanosecond precision and bounds are not modelled.
- Dates have no year bound: `checked_sub_signed(..).unwrap()` (`src/cli/date_parse.rs:9`) panics outside chrono's `NaiveDate` range, and `DateParse.DaysFromToday` and `Calendar.SubSignedDays` return a date there instead.
- `src/cli.rs`, `src/cli/fetch.rs`, `src/cli/browse.rs`, `src/main.rs` and the stale `src/model.rs` and `src/query.rs` are not part of this model.

## Findings

| source | as written | input that shows it | evidently intended | confidence | as-written member | corrected member |
|---|---|---|---|---|---|---|
| src/data.rs:52-53 | the body is taken from just after the closing `---`, so the newline that ends the fence stays and a new `\n---\n` is written before it | a text `"---\n" + fm + "\n---\n" + body` (as `create_entry` writes it) becomes `"---\n" + new + "\n---\n\n" + body`; each replacement adds one blank line | the newline ending the closing fence goes with the fence, so replacing keeps the body and is idempotent | medium, not executed | Data.ReplaceFrontmatter (Data.ReplaceAddsBlankLine, Data.ReplaceTwiceGrows) | Data.ReplaceFrontmatterFixed (Data.FixedReplacesHeader, Data.FixedIdempotent) |
