# todoplusplus log store, analytics and daily reminder — a Dafny model

todoplusplus records practice sessions (platform, question, topic,
difficulty, minutes spent, notes) in an embedded key-value store. The key of
each record is its timestamp. On top of the store it computes the number of
problems solved today, the minutes spent today and the streak of consecutive
days with a record. It also snapshots all records to JSON files, keeping only
the newest 150, and exports them to a spreadsheet. A background check sends
one reminder email a day, at 2 a.m., when nothing has been solved yet that day.

This project models that core in Dafny 4.11 and proves what it promises:

- `calendar.dfy` (`Calendar`): instants, local midnight (`normalizeDate`),
  the day before, the hour of the day, and the year range a timestamp key
  can encode.
- `log_record.dfy` (`LogRecord`): the record type and the error wrappers.
- `storage.dfy` (`Storage`): the bucket as a class `LogStore` holding
  `map<Instant, Entry>`, where `Entry = Decoded(Log) | Corrupt`. It has
  save, update, delete, the key-ordered full read, the daily statistics,
  the backup and the export.
- `analytics.dfy` (`Analytics`): the streak and the same-day counting loop.
- `backup.dfy` (`Backup`): the JSON snapshot document (nil slice versus
  empty array) and snapshot rotation. Rotation means: filter the directory
  listing, sort the names, and delete all but the newest `MaxBackups`.
- `export.dfy` (`Export`): the spreadsheet layout as a map from cell
  coordinates to cell values.
- `scheduler.dfy` (`Scheduler`): the reminder service, a class holding
  `lastReminderSent`, and a replay of repeated checks.

Modelling choices:

- An instant is an integer count of nanoseconds of local wall-clock time since
  local midnight of 1970-01-01. A local day is a 24-hour interval aligned to
  a multiple of `NanosPerDay`. `normalizeDate` is `t - t % NanosPerDay`, and
  `AddDate(0, 0, -1)` on a midnight is `PreviousDay`.
- The bucket is keyed by the instant itself, not by its text form. The
  cursor's ascending key order is the order of the instants (`SortedKeys`).
  `GetAllLogs` moves a cursor by repeatedly taking the smallest key not yet
  visited.
- Each transaction (`db.Update` or `db.View`) is one atomic step. A
  mutating transaction can fail to begin (`beginFails`) before its body
  runs, so the key is never examined. It can also fail to commit
  (`commitFails`) after its body succeeded. A read transaction can fail to
  begin (`txFails`). A failed mutating transaction leaves the bucket as it
  was.
- Save and update only ever put a record under its own date. The store
  therefore keeps the invariant `LogStore.Valid`: every decodable record
  sits under the key of its date. Opening a file requires it, and every
  mutation preserves it.
- Marshalling a timestamp to text fails for years outside [0, 9999]. This is
  `KeyEncodable`, and it gives the `KeyOutOfRange` error of save, update and
  delete. Marshalling the record to JSON fails for the same dates, so it adds
  no separate error.
- `Backup.Marshal` is the shape of `json.Marshal` on a slice
  (db/storage.go:171), by definition: a nil slice gives JSON `null`, any
  other slice an array of its items.
- `Storage.ExportPath` is the export file's path (db/storage.go:239-241), by
  definition: the home directory followed by
  `/Desktop/todoplusplus_logs_export.xlsx`.
- Clock readings, the directory listing, the home directory, file write and
  save outcomes, and email send outcomes are parameters.

The repository is not consistent with itself in two places; the model
follows `db/storage.go` and `core/scheduler.go`:

- `model/log.go` has no `QuestionID` and spells `Timespent`. `db/storage.go`
  reads `QuestionID` and `TimeSpent`, so the record here has `questionId`
  and `timeSpent`, next to `id`, `platform`, `topic`, `difficulty`, `notes`
  and `date`.
- `core/backup.go` calls `BackupToJSON()` with no argument, but
  `db/storage.go` takes the application data directory. The model's
  `BackupToJSON` takes the outcome of writing and listing that directory.

Three further points where the model follows the code:

- The retention cap is the constant 150.
- There is no "not initialised" error: the code would dereference a nil
  handle. The model can only reach a store through `LogStore.Open`.
- The record has no reference into an external calendar.

## Model

| member | source | states |
|---|---|---|
| `Calendar.NormalizeDate` | db/storage.go:119-122 | the result is a midnight (a multiple of a day) at or before `t`, and `t` lies less than a day after it |
| `Calendar.NormalizeIdempotent` | core/scheduler.go:56-59 | normalising a normalised time changes nothing |
| `Calendar.NormalizeWithinDay` | core/scheduler.go:55-59 | every instant of the day a midnight starts normalises to that midnight |
| `Calendar.SameDayIff` | core/scheduler.go:36 | two times normalise to the same value exactly when they lie in the same midnight-aligned day |
| `Calendar.NormalizeMonotone` | core/scheduler.go:56-59 | a later time never normalises to an earlier day |
| `Calendar.PreviousDay` | db/storage.go:135 | `AddDate(0, 0, -1)` on a midnight gives an earlier midnight |
| `Calendar.PreviousDayAdjacent` | db/storage.go:135 | the day before a midnight is the adjacent day: it is the midnight of the instant just before, and no midnight lies between the two |
| `Calendar.KeyEncodable` | db/storage.go:58-61 | a timestamp key can be marshalled exactly when its year is in 0..9999; otherwise save, update and delete fail with the marshalling error |
| `Calendar.Hour` | core/scheduler.go:32 | the hour is in 0..23 and `t` lies within that hour of its day |
| `Calendar.DaysBeforeInjective` | db/storage.go:137-140 | stepping back a different number of days reaches a different day |
| `Storage.LogStore.Open` | db/storage.go:27-41 | the opened store holds exactly the bucket already in the file, whose records sit under their own dates, and it starts valid |
| `Storage.LogStore.SaveLog` | db/storage.go:55-68 | a transaction that fails to begin leaves the record unstamped; otherwise it is stamped with `now`; the error is begin failure, then unencodable `now`, then commit failure; on success the bucket is `PutRecord(old bucket, stamped record)` and a full read returns the record as the only one with its date; on error the bucket is unchanged; validity is kept |
| `Storage.LogStore.UpdateLog` | db/storage.go:103-116 | the record is put under the key of its own date, replacing what was there, and a full read returns it as the only record with that date; the errors, their order and the unchanged bucket on error are as for save |
| `Storage.LogStore.DeleteLog` | db/storage.go:92-101 | on success exactly the key of `date` is removed; deleting an absent key changes nothing and is no error; begin failure, an unencodable date or commit failure, in that order, gives an error and changes nothing; validity is kept |
| `Storage.LogStore.GetAllLogs` | db/storage.go:71-90 | a failed read transaction is an error; otherwise the result is the decodable records in ascending key order, and an undecodable value never becomes an error |
| `Storage.SortedKeysOrder` | db/storage.go:75-76 | the cursor visits every key exactly once, in strictly increasing order |
| `Storage.DecodedAtMembers` | db/storage.go:77-82 | the records read at a list of keys are exactly the values at those keys that decode |
| `Storage.StoredLogsContents` | db/storage.go:76-83 | a full read has no more records than the bucket has keys, and returns every record that decodes, and only those |
| `Storage.StoredLogsOrdered` | db/storage.go:76 | when every record is stored under its own date, a full read returns records in strictly increasing date order |
| `Storage.PutRecordEffect` | db/storage.go:110-114 | a put sets the record's key to the record, leaves every other key and value alone, grows the bucket by one only if the key was new, and keeps keys matching dates |
| `Storage.PutReadBack` | db/storage.go:55-90 | when every record sits under its own date (`LogStore.Valid`), after a save or update a full read returns the record, no other record carries its date, and no two records share a date |
| `Storage.LogStore.GetDailyStats` | db/storage.go:144-160 | a failed read is an error; otherwise `SolvedToday` counts the records strictly after today's midnight, `TimeToday` sums their minutes, `SolvedToday` is at most the number of records, and `Streak` is the streak of the records read |
| `Analytics.CountToday` | db/storage.go:150-157 | the loop counts exactly the records dated strictly after today's midnight, sums their minutes, and counts no more than there are records |
| `Analytics.TodayLogs` | db/storage.go:153 | a record is counted for today exactly when its date is strictly after today's midnight |
| `Analytics.MidnightExcluded` | db/storage.go:151-153 | a record stamped exactly at midnight is not counted for that day |
| `Analytics.TodayLogsAppend` | db/storage.go:152-157 | counting one more record adds it to today's records exactly when it is after midnight |
| `Analytics.CalculateStreak` | db/storage.go:124-142 | no records give 0; the run starts today if today has a record, else yesterday; every counted day has a record and the day before the run has none; neither today nor yesterday logged gives 0; the streak is at most the number of distinct logged days |
| `Analytics.StreakDetermined` | db/storage.go:137-140 | the streak's characterisation admits exactly one value |
| `Analytics.RunBoundedByDays` | db/storage.go:128-140 | a run of `n` consecutive logged days needs at least `n` distinct logged days |
| `Backup.SnapshotDocument` | db/storage.go:168-171 | the snapshot is always a JSON array, never null, holding the records read, and empty when none were read |
| `Backup.Snapshots` | db/storage.go:190-195 | the candidates are exactly the names of non-directory entries with prefix `backup-` and suffix `.json` |
| `Backup.SortStrings` | db/storage.go:196 | the sorted names are a permutation of the input in Go string order |
| `Backup.LessEqTotal` | db/storage.go:196 | any two names are comparable in Go string order |
| `Backup.LessEqTransitive` | db/storage.go:196 | Go string order is transitive |
| `Backup.LessEqAntisymmetric` | db/storage.go:196 | Go string order is antisymmetric |
| `Backup.SelectForDeletion` | db/storage.go:185-203 | deleted and retained names together are exactly the candidates; with at most 150 candidates nothing is deleted; otherwise exactly the `count - 150` smallest names are deleted and 150 are retained; every deleted name is a `backup-*.json` file of the listing |
| `Storage.LogStore.BackupToJSON` | db/storage.go:163-205 | a failed read, write or listing gives its own error, in that order; on success the document is the JSON array of all records read and the deletions are a rotation of the listing |
| `Export.RowCells` | db/storage.go:222-228 | a record fills one value per header column |
| `Export.BuildSheet` | db/storage.go:212-229 | row 1 holds the seven headers; the record at position `i` of the read fills row `i + 2`, columns A to G = date, platform, question id, topic, difficulty, minutes, notes; no other cell is written |
| `Storage.LogStore.ExportToExcel` | db/storage.go:206-247 | a failed read, a missing home directory or a failed save gives its own error; on success the sheet "Logs" is the export of all records in store order and the path is the fixed file on the desktop |
| `Scheduler.ReminderService.constructor` | core/scheduler.go:11 | no reminder has been sent: the last time is Go's zero time |
| `Scheduler.ReminderService.CheckAndSendReminder` | core/scheduler.go:27-53 | outside hour 2, or on the day of the last reminder, nothing is read and nothing changes; a failed stats read changes nothing; with nothing solved today exactly one send is attempted and the last time becomes `now`, delivered or not; with something solved nothing is sent and nothing changes |
| `Scheduler.Decide` | core/scheduler.go:27-53 | a check attempts a reminder exactly when the hour is 2, the last reminder was on another day and the stats read gave zero solved; the attempt is delivered exactly when sending does not fail; outside hour 2 nothing else is examined |
| `Scheduler.Replay` | core/scheduler.go:21-24 | repeated checks give one outcome each; every attempt happens at hour 2 with nothing solved, and exactly the checks outside hour 2 are skipped for the hour |
| `Scheduler.NoAttemptOnLastDay` | core/scheduler.go:36-38 | over checks in time order, none attempts a reminder on the day of the last reminder |
| `Scheduler.AtMostOnePerDay` | core/scheduler.go:21-52 | over checks in time order, no two reminder attempts fall on the same calendar day |

## Left out

- Persistence engine internals are not modelled: file open and close,
  `Init`, bucket creation, `GetAppDataDir`. A transaction is one atomic map
  change or snapshot read. Its failures are the `beginFails`, `commitFails`
  and `txFails` inputs.
- `Storage.LogStore.Open`: requires that every decodable record in the file
  sits under the key of its own date. Files written by other programs with
  records under foreign keys are not modelled.
- The text form of the timestamp key (RFC 3339 with fractional seconds) is
  not modelled, nor whether that text sorts chronologically. Keys are the
  instants themselves.
- JSON encoding and decoding are abstract. A value that fails to decode is
  an `Entry.Corrupt`. The snapshot's indented bytes are reduced to the
  shape of the document: `JsonNull` or `JsonArray`.
- Time zones and daylight saving time are not modelled. Every day is 24
  hours of local wall-clock time. The zero time is placed on the same local
  scale.
- Go compares `time.Time` map keys by location as well as by instant. The
  model compares days by instant only. This matters for the streak. On a
  machine whose local offset is zero (UTC, or London in winter), Go's time
  package decodes the stored dates from JSON in UTC. `normalizeDate(time.Now())`
  is in the local location, so the day lookups of db/storage.go:133-139 never
  match, and Go's streak is then always 0. The model's streak is the one the
  code evidently intends: it counts consecutive logged days.
- `Storage.LogStore.BackupToJSON`: the error branch of `json.MarshalIndent`
  (db/storage.go:171-174) is not modelled. Every record read back has
  decoded from JSON, so its date is in years 0..9999 and marshals again. The
  model does not carry that bound on decoded records, so a record it places
  at a date outside that range still gives a successful backup.
- `Storage.LogStore.SaveLog`: Go stamps the caller's record through its
  pointer. The model returns the record as the caller's pointer would then
  hold it.
- `Analytics.CountToday`: does not model 64-bit overflow of the minutes
  total. Integers are unbounded.
- `Analytics.CalculateStreak`: Go reads the clock a second time. The model
  is given the same `now` as the daily count.
- `Scheduler.ReminderService.CheckAndSendReminder`: the statistics are read
  with the scheduler's own `now`, not with a fresh clock reading. The email
  is an opaque action whose failure is the `sendFails` input.
- Backup file handling is not modelled: the file name built from the clock,
  `MkdirAll`, `WriteFile`, `ReadDir` and `os.Remove`. The listing is an
  input, and the deleted names are the removals attempted. Go ignores the
  errors of `os.Remove`.
- Export: excelize's file format, the default sheet, `SetActiveSheet` and
  the date format string are not modelled. Dates go through an abstract
  `formatDate`. `ExportPath` joins with `/` and does not clean the path as
  `filepath.Join` does.
- The ticker loops are not modelled: the periodic backup goroutine, and the
  reminder loop except as `Scheduler.Replay`. Logging, flag parsing, the
  terminal form and the calendar and mail clients are not part of this model.
