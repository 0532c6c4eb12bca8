# EPGStation file deleter, modelled in Dafny

The EPGStation file deleter is a one-shot maintenance job for an EPGStation
recording server. It lists the server's recordings. It picks those that are
unprotected, have both a raw transport-stream ("ts") file and an "encoded"
file, and are older than a retain duration. It then deletes the "ts" files of
those recordings. A dry-run mode only announces the deletions. A failed
deletion is logged and skipped.

This project models that logic, all of which is in `main.go`:

- `recorded.dfy` (module `Recorded`): the recording and video-file records, reduced
  to the fields the logic reads. Also the deletion policy, with Go's `int64`
  and `time.Duration` (signed 64-bit nanoseconds) as subset types.
  `NewDeletionPolicy` only wraps its argument, so the model builds the
  `DeletionPolicy` value directly.
- `retention.dfy` (module `Retention`): `extractTargetRecordItems`.
  - The selection rule is the predicate `Eligible`.
  - The filter's output is the function `Targets`.
  - The inner scan of a recording's files is the method `ScanVideoFiles`.
  - The caller's slice that receives the result through the `dst` pointer is
    the class `RecordSlice`.
  - The method `ExtractTargetRecordItems` appends to it.
  - `time.Since(time.UnixMilli(startAt))` is computed exactly from a clock
    reading `now`, given in Unix nanoseconds. Like Go's `Time.Sub`, it
    saturates at the bounds of `Duration`.
- `client.dfy` (module `Client`): what `DeleteVideoFile` returns for the
  server's answer. Only status 200 is success.
- `deletion.dfy` (module `Deletion`): the nested deletion loop of `main`.
  - `DeleteTargets` is the loop over the selected recordings.
  - `DeleteRecordFiles` is the loop over one recording's files.
  - Both record the identifiers passed to `DeleteVideoFile` (`calls`), those
    whose call failed (`failed`) and those only announced in dry-run mode
    (`planned`).
  - The server's answer to the k-th delete request is `responses(k)`.
- `logging.dfy` (module `Logging`): the `LOG_LEVEL` switch and which messages
  each level lets through.
- `orchestrator.dfy` (module `Orchestrator`): the sequence of `main`, from
  configuration to exit code.
- `wrappers.dfy` (module `Wrappers`): `Option`, `Result` and `Outcome`, for Go's
  `(value, error)` and `error` returns.

The retain duration comes from `time.ParseDuration` on the `RETAIN_DURATION`
string, whose default is "336h". It is not a bare hour count. The model follows
this code.

## Model

| member | source | states |
|---|---|---|
| `Retention.ScanVideoFiles` | main.go:114-123 | `hasTS` holds iff some file's type is "ts". `hasEncoded` holds iff some file's type is "encoded". Files of any other type affect neither flag. |
| `Retention.RecordSlice.constructor` | main.go:181 | The slice handed to the filter starts empty. |
| `Retention.ExtractTargetRecordItems` | main.go:112-132 | Afterwards `dst` holds its old contents unchanged, followed by exactly the selected recordings of `src`. |
| `Retention.Targets` | main.go:112-132 | The filter never yields more recordings than it reads. |
| `Retention.TargetsFollowIndices` | main.go:112-132 | The k-th selected recording is the input recording at the k-th selected position, and these positions strictly increase. Nothing is reordered or duplicated. |
| `Retention.TargetIndicesAreEligible` | main.go:128-130 | The selected positions are exactly the positions of the eligible recordings, so every eligible recording is kept and no other one is. |
| `Retention.InTargetsIff` | main.go:128-130 | A recording is selected iff it occurs in the input, is not protected, has a "ts" file and an "encoded" file, and its elapsed time strictly exceeds the retain duration. |
| `Retention.ProtectedNeverSelected` | main.go:128 | No protected recording is ever selected, whatever its files or age. |
| `Retention.TargetsAppend` | main.go:128-130 | One more input recording is appended to the output exactly when it is eligible. |
| `Retention.TargetsOfConcat` | main.go:113-131 | Filtering a concatenation gives the concatenation of the filtered parts. Each recording is judged on its own. |
| `Retention.TargetsIdempotent` | main.go:128 | Filtering the output again changes nothing. |
| `Retention.ElapsedIsNearestDuration` | main.go:125 | The elapsed time is the `Duration` nearest to the exact age `now - startAt` in nanoseconds. It is exact whenever that age fits in 64 bits. |
| `Retention.RetentionBoundary` | main.go:125-128 | The comparison is strict. A recording exactly `retainDuration` old is not selected. One nanosecond older, it is selected, unless the duration is the largest `Duration`. |
| `Retention.MaximalRetentionSelectsNothing` | main.go:125-128 | Because the elapsed time saturates, a retain duration equal to the largest `Duration` selects no recording at all. |
| `Retention.TargetsPersistOverTime` | main.go:125-128 | A recording selected at some instant is still selected at every later instant. |
| `Client.DeleteVideoFile` | main.go:100-109 | The result is success exactly for status 200. Every other status gives an error that carries the code. A failed request gives an error. |
| `Logging.ConfiguredLevel` | main.go:135-158 | The level is ERROR, WARN or DEBUG exactly for those three upper-case names. Every other value leaves INFO. |
| `Logging.LevelVisibility` | main.go:148-158 | The per-recording DEBUG trace appears only under "DEBUG". INFO deletion notices are hidden only by "ERROR" and "WARN". Errors always appear. |
| `Deletion.DeleteRecordFiles` | main.go:185-198 | For one recording's files, the trace is extended by exactly its "ts" file ids in file order. In dry-run mode they are announced and no delete is called. Otherwise each id is deleted once, and a failure does not stop the loop. |
| `Deletion.DeleteTargets` | main.go:184-199 | In dry-run mode there are no delete calls, and the announced ids are the "ts" file ids of the selected recordings. Otherwise the calls are exactly those ids, in record order then file order, whatever the server answers. The failed ids are those whose answer was an error. |
| `Deletion.TsOfFollowsIndices` | main.go:185-186 | The k-th candidate of a recording is its file at the k-th candidate position, and these positions strictly increase. Each "ts" file is taken once, in file order. |
| `Deletion.TsIndicesAreTs` | main.go:185-186 | The candidate positions are exactly the positions of the recording's "ts" files. |
| `Deletion.InTsOfIff` | main.go:185-186 | A file is among a recording's candidates iff it is one of its files and has type "ts". |
| `Deletion.InTsFilesIff` | main.go:184-186 | A file is deleted iff it has type "ts" and belongs to one of the selected recordings. "encoded" and other files are never deleted. |
| `Deletion.TsFilesOfConcat` | main.go:184-186 | The files of earlier recordings are all handled before those of later recordings. |
| `Deletion.InFailedIff` | main.go:191-195 | An id is reported failed iff one of its delete calls got an error back. There are never more failures than calls. |
| `Deletion.AllOkNoFailures` | main.go:105-109 | When every delete answers 200, no failure is reported. |
| `Deletion.DeletedExactlyEligibleTs` | main.go:128-191 | End to end, a file is deleted iff it has type "ts" and belongs to a recording that meets the selection rule. |
| `Deletion.EncodedCopySurvives` | main.go:128-191 | Every recording whose raw files are deleted keeps an "encoded" file, and that file is not deleted. |
| `Deletion.ProtectedTwinScenario` | main.go:128-191 | Take two recordings 400 hours old with a "ts" and an "encoded" file, the second protected. With a retain duration of 336 hours only the first is selected, and only its "ts" file is deleted. |
| `Orchestrator.Run` | main.go:134-200 | The exit code is 0 iff the configuration loads, the retain duration parses and the listing succeeds. Otherwise it is 1 and nothing is deleted or announced. The level is the configured one, or INFO if the configuration failed. A successful run deletes or announces exactly the "ts" files of the selected recordings, and failed deletes do not change the exit code. |

## Left out

- HTTP and TLS are not modelled: `BuildHttpClient`, which skips certificate
  verification, and the requests in `GetRecorded` and `DeleteVideoFile`. The
  answer to each delete request is the parameter `responses(k)`, and the
  recording list is the parameter `getRecorded`.
- `NewEPGStationClient` and the base URL only feed the URL formatting of the
  two requests, so they appear only as the string passed to `getRecorded`.
- JSON decoding of the listing is not modelled. The source ignores decoding
  errors, so a malformed body yields whatever partial list the decoder left.
  In the model, `getRecorded` returns the decoded list, and that partial list
  is one of its possible values.
- The fields `Name`, `IsEncoding`, `EndAt`, `FileName`, `Size` and
  `TotalCount` are not modelled, because the logic never reads them.
- Environment parsing, including its defaults ("http://localhost:8888",
  "336h", no dry run, "INFO"), is the parameter `environment` of `Run`.
- `time.ParseDuration` is the parameter `parseDuration`.
- The wall clock is the parameter `now`. The monotonic clock plays no part,
  because `time.UnixMilli` carries no monotonic reading.
- `slog` output is not modelled. The model computes the configured level and
  reports the ids that the log messages would name (`planned`, `failed`).
- Retention.ExtractTargetRecordItems: the source reads the clock once per
  recording, inside the loop, so each recording is judged at its own instant,
  and the wall clock may even step back between two reads. The model judges
  the whole pass at the single instant `now`.
- `os.Exit` becomes the returned exit code.
- Orchestrator.Run: the foreign steps are pure parameters, so the model
  cannot express that the listing request is never sent when the duration
  fails to parse. It only shows that such a run exits with 1 and deletes
  nothing.
