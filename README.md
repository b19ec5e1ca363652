# audio-splitter in Dafny

This project models the `POST /split` endpoint of audio-splitter (`index.js`).
The endpoint takes an uploaded audio or video file and has ffmpeg re-encode it
into mono 16 kHz AAC segments of a fixed duration. It then streams the segment
files back as one zip archive and removes the temporary files a few seconds
later.

The model follows the code module by module:

- `JsText` (`js_text.dfy`): the JavaScript text behaviour the endpoint relies on.
  - `parseInt(…, 10)`: leading ECMAScript white space is skipped, then an
    optional sign and the longest run of decimal digits are read. With no
    digits the result is NaN, modelled as `None`.
  - `String(n)` for integers of magnitude below 10^21 and NaN.
  - `startsWith` and `endsWith`.
  - `path.join` for a directory and a plain file name.
- `JsOrder` (`js_order.dfy`): the default order of `Array.prototype.sort`, which
  compares strings by UTF-16 code units. It is proved equal to the
  unit-by-unit comparison of the strings' UTF-16 encodings, and to be a strict
  total order. An insertion sort serves as the reference sort, and any sorted
  permutation equals it, so the result does not depend on the engine's sorting
  algorithm.
- `Auth` (`auth.dfy`): the `requireAuth` middleware.
- `SegmentPlanner` (`planner.dfy`): the segment duration. The `segmentSeconds`
  query value, or `"900"` when it is absent or empty, is read with `parseInt`
  and clamped to [60, 3600] with `Math.min` and `Math.max`. NaN passes through
  as NaN.
- `Transcode` (`transcode.dfy`):
  - the 18-element ffmpeg argument vector;
  - the loop that appends each stderr chunk as it arrives;
  - the `close` handler that resolves on exit code 0 and otherwise rejects with
    `ffmpeg failed: <code>\n<stderr>`. A process killed by a signal reports
    `null`.
- `Discovery` (`discovery.dfy`): the segment files of the output directory.
  These are the names that start with `part_` and end with `.m4a`, in sorted
  order. It also covers the `%03d` names ffmpeg writes, whose text order is
  their numeric order below 1000 and not beyond.
- `Archive` (`archive.dfy`): the zip writer as a class holding the list of
  entries it was given. A loop adds one entry per segment file, in order,
  before `finalize`.
- `Cleanup` (`cleanup.dfy`): the deferred cleanup.
  - The upload is unlinked in its own `try`.
  - The segment files and then the directory are removed inside one shared
    `try`, so the first removal that throws ends the block.
  - Which removals throw is a parameter.
- `SplitHandler` (`split_handler.dfy`): the request handler.
  - `Split` is a function that gives the whole outcome of one request:
    - the workspace created;
    - the ffmpeg arguments spawned;
    - the reply, which is a JSON error with its status or a 200 zip stream with
      its headers and entries;
    - the cleanup scheduled.
  - `HandleSplit` performs the same steps one at a time. It collects stderr in a
    loop, fills a `ZipArchive` and finalizes it, and it is proved equal to
    `Split`.
  - `Serve` puts the token check in front of the handler.

The environment is a parameter of the handler. It supplies:

- the directory `mkdtempSync` returns;
- the stderr chunks and `close` status of the ffmpeg process;
- the names `readdirSync` lists afterwards.

Some behaviour of `index.js` differs from what a reader of the service might
expect (a 900-second fallback for bad input, cleanup after every request,
per-file cleanup failures, numeric segment order). The model follows the code:

- Non-numeric `segmentSeconds` text such as `abc` is not replaced by 900. It
  parses to NaN, and NaN reaches ffmpeg as the text `NaN`.
- Cleanup is scheduled only after a successful archive. After a 500 the
  upload and the workspace stay in place. On the 400 path there is no upload
  and no workspace to remove.
- Cleanup failures are not handled file by file. After the first failed
  removal, no later segment file and not the directory is attempted.
- Segment ordinals sort in numeric order only below 1000.
  `OrdinalOrderEndsAt1000` exhibits `part_1000.m4a` sorting before
  `part_101.m4a`.

## Model

| member | source | states |
|---|---|---|
| JsText.ParseIntOfParts | index.js:34 | `parseInt` of white space, an optional sign, a digit run and any text not starting with a digit is the signed value of the digits |
| JsText.ParseInt | index.js:34 | `parseInt` gives a number exactly when a digit follows the leading white space and the optional sign |
| JsText.ParseIntNaN | index.js:34 | text whose first character is neither white space, a sign nor a digit parses to NaN |
| JsText.ParseIntNoDigits | index.js:34 | white space, an optional sign and then no digit (`""`, `" abc"`, `"-abc"`, `"+"`, `"- 5"`) parse to NaN; with `ParseIntOfParts` every input is covered |
| JsText.ParseIntOfIntToString | index.js:51 | `parseInt` reads back exactly the integer that `String` printed, whatever non-digit text follows |
| JsText.NumberToString | index.js:51 | `String` gives `NaN` exactly for NaN; for an integer it gives non-empty text that starts with `-` exactly when the integer is negative |
| JsText.ParseIntOfNumberToString | index.js:51 | `parseInt(String(x))` is `x` for every integer of magnitude below 10^21 (the model prints no exponent) and for NaN |
| JsText.IntToStringInjective | index.js:51 | different integers print as different text |
| JsText.JoinPath | index.js:82 | the joined path ends with the file name and, for a non-empty directory, starts with the directory and has a `/` before the name |
| JsText.JoinPathLength | index.js:82 | the joined path is exactly as long as the directory and the name, plus one separator unless the directory already ends with `/` |
| JsText.JoinPathSingleSeparator | index.js:82 | a directory that does not end with `/` and a name are joined by exactly one `/` |
| JsOrder.Less | index.js:68 | the string order of the default `sort()`: lexicographic, with a proper prefix first |
| JsOrder.LessIsCodeUnitOrder | index.js:68 | `Less` holds exactly when the UTF-16 encodings compare lower, code unit by code unit |
| JsOrder.LessIrreflexive | index.js:68 | no string sorts before itself |
| JsOrder.LessTransitive | index.js:68 | the sort order is transitive |
| JsOrder.LessTrichotomy | index.js:68 | of two different strings exactly one sorts first |
| JsOrder.LessAsymmetric | index.js:68 | when one string sorts before another, the other does not sort before it |
| JsOrder.LessCommonPrefix | index.js:68 | a common prefix does not change how two strings compare |
| JsOrder.SortStrings | index.js:68 | sorting keeps every element with its multiplicity |
| JsOrder.SortStringsSorted | index.js:68 | the sorted result is in ascending order |
| JsOrder.SortedUnique | index.js:68 | two sorted arrangements of the same multiset are equal, so any correct sort gives the same order |
| Auth.RequireAuth | index.js:18-24 | with no token every request passes; otherwise a request passes exactly when its header is `Bearer ` followed by the token, and every other request gets 401 "Unauthorized" |
| Auth.MissingOrBareHeaderRejected | index.js:20-22 | a missing header or a bare `Bearer ` never passes a configured check |
| SegmentPlanner.EffectiveText | index.js:34 | the text read is never empty: the given value when it is non-empty, `900` when it is absent or empty |
| SegmentPlanner.Clamp | index.js:32-35 | NaN stays NaN; a number comes out within [60, 3600] and is kept unchanged when already inside it |
| SegmentPlanner.SegmentSeconds | index.js:32-35 | the planned duration is NaN or within [60, 3600] |
| SegmentPlanner.ClampedWhenNumeric | index.js:32-35 | a parsed value below 60 gives 60, above 3600 gives 3600, and any other value is kept |
| SegmentPlanner.NaNExactlyWhenUnparsable | index.js:32-35 | the duration is NaN if and only if the effective text does not parse |
| SegmentPlanner.DefaultWhenAbsentOrEmpty | index.js:34 | an absent or empty parameter gives 900 |
| SegmentPlanner.PlannedDurationIsFixedPoint | index.js:32-35 | a duration inside [60, 3600], given back as text, is planned as itself |
| SegmentPlanner.NonNumericStaysNaN | index.js:34 | text that does not start with white space, a sign or a digit gives NaN, not 900 |
| SegmentPlanner.DigitPrefixExample | index.js:34 | "120abc" gives 120 |
| SegmentPlanner.NegativeExample | index.js:32-35 | "-5" gives 60 |
| SegmentPlanner.BelowMinimumExample | index.js:32-35 | "10" gives 60 |
| SegmentPlanner.NaNExample | index.js:34 | "abc" gives NaN |
| Transcode.FfmpegArgs | index.js:43-54 | the argument vector has 18 elements |
| Transcode.ArgsLayout | index.js:39-54 | argument 0 is `-i` and argument 1 the upload path; the last argument is the output directory, one `/` unless the directory already ends with one, and `part_%03d.m4a` |
| Transcode.ArgsCarryDuration | index.js:51 | `-segment_time` is followed by text that parses back to the planned duration |
| Transcode.ArgsDurationText | index.js:51 | argument 14 is `String(segmentSeconds)` |
| Transcode.ArgsFixedElsewhere | index.js:43-54 | every position except the input, the duration and the output pattern is the same for every request |
| Transcode.CollectStderr | index.js:58-59 | the loop's `err` is the concatenation of all chunks in arrival order |
| Transcode.ConcatAppend | index.js:59 | concatenating two runs of chunks concatenates their texts |
| Transcode.ChunkInArrivalOrder | index.js:59 | each chunk appears in the collected text right after the chunks that arrived before it |
| Transcode.CloseOutcome | index.js:60-63 | the promise resolves if and only if the exit code is 0; a rejection carries a non-empty message |
| Transcode.FailureMessage | index.js:62 | the message starts with `ffmpeg failed: ` and ends with a newline and the whole stderr |
| Transcode.CodeTextParses | index.js:62 | the code in the message reads back as the exit code, or NaN for a signal |
| Transcode.FailureMessageDecodes | index.js:62 | the message starts with `ffmpeg failed: `, the code after it parses back, and it ends with a newline and the whole stderr |
| Transcode.FailureMessageInjective | index.js:62 | different exits or different stderr never give the same message |
| Discovery.FilterSegments | index.js:67 | each name is kept as often as it occurs if it starts with `part_` and ends with `.m4a`, and is dropped otherwise |
| Discovery.FilterKeepsSegments | index.js:67 | a listing made only of segment files passes the filter unchanged |
| Discovery.Discover | index.js:66-68 | the discovered files are sorted and are a permutation of the filtered listing |
| Discovery.DiscoverContents | index.js:66-68 | the discovered files are sorted and are exactly the listing's segment files, each with its multiplicity |
| Discovery.DiscoverEmptyIff | index.js:66-70 | discovery is empty if and only if no listed name is a segment file |
| Discovery.DiscoverCanonical | index.js:68 | any sorted arrangement of the segment files is the discovered order |
| Discovery.DiscoverStrictlyAscending | index.js:66-68 | from a listing without repeats the files come out strictly ascending |
| Discovery.TwoSegmentsExample | index.js:66-68 | `part_000.m4a` and `part_001.m4a`, listed in either order, are discovered as `part_000.m4a`, `part_001.m4a` |
| Discovery.SegmentNameIsSegmentFile | index.js:39 | every name ffmpeg writes under the pattern passes the filter |
| Discovery.Pad3Digits | index.js:39 | below 1000 the `%03d` field is exactly the three decimal digits |
| Discovery.ThreeDigitOrder | index.js:39 | below 1000, padded ordinals followed by a common tail compare as their numbers do |
| Discovery.OrdinalOrder | index.js:39 | below 1000, a segment name sorts before another if and only if its ordinal is smaller |
| Discovery.OrdinalOrderEndsAt1000 | index.js:39 | `part_1000.m4a` sorts before `part_101.m4a` |
| Discovery.DiscoverInOrdinalOrder | index.js:66-68 | in a listing without repeats, discovered segments below 1000 come out in increasing ordinal |
| Archive.EntriesFor | index.js:81-83 | there is one entry per file |
| Archive.EntriesForAt | index.js:81-83 | entry `i` is stored under file `i`'s name and read from that file's path in the output directory |
| Archive.EntriesForSnoc | index.js:81-83 | one more file adds exactly its entry at the end |
| Archive.ZipArchive.constructor | index.js:77 | a new archive holds no entry and is not finalized |
| Archive.ZipArchive.File | index.js:82 | `archive.file` on an archive not yet finalized appends one entry and changes nothing else |
| Archive.ZipArchive.Finalize | index.js:85 | finalizing leaves the entries as they are |
| Archive.AddSegmentFiles | index.js:81-83 | before `finalize`, the loop appends exactly the entries for the files, in order, and does not finalize |
| Cleanup.SegmentPaths | index.js:91 | one path per file, each the file joined to the directory |
| Cleanup.RemovedUntilFailure | index.js:90-93 | the removals done are a prefix of the targets, none of them failing, and the block stops at a failing target |
| Cleanup.CleanupOutcome | index.js:88-94 | the upload is removed exactly when its own unlink succeeds; the workspace removals are a prefix of the files then the directory, none of them failing |
| Cleanup.RemovedUntilFailureIs | index.js:90-93 | a prefix that avoids failures and ends at a failure or at the end is what the block removes |
| Cleanup.RemoveInOrder | index.js:90-93 | the loop removes exactly what the block removes before its first failure |
| Cleanup.RunCleanup | index.js:88-94 | the callback's outcome: the upload removal, plus the workspace removals of the shared block |
| Cleanup.EverythingRemovedWhenNothingFails | index.js:88-94 | with no failure the upload, every segment file and then the directory are removed |
| Cleanup.FailedUnlinkSkipsTheRest | index.js:90-93 | after a failed unlink of file `k`, at most the files before `k` are removed and the directory is not |
| Cleanup.DirectoryRemovedOnlyAfterEveryFile | index.js:90-93 | the directory is removed if and only if no removal of the shared block fails |
| Cleanup.UploadRemovalIndependent | index.js:89 | the upload is removed if and only if its own unlink succeeds, and that unlink does not affect the workspace removals |
| SplitHandler.CaughtMessage | index.js:98 | the error text is never empty: the exception's message, or "Server error" when that is empty |
| SplitHandler.Split | index.js:29-95 | a workspace is created and ffmpeg spawned exactly when there is an upload; cleanup is scheduled exactly when a zip is sent; the status is 200, 400 or 500 |
| SplitHandler.AfterClose | index.js:60-94 | after ffmpeg closes, a zip is sent exactly when it exited 0 and a segment file exists, and every other outcome is a 500; cleanup is scheduled exactly with the zip |
| SplitHandler.Serve | index.js:18-28 | the reply is 401 exactly when the token check fails, and then nothing is created, spawned or scheduled |
| SplitHandler.HandleSplit | index.js:28-100 | the step-by-step handler gives the trace of `Split` |
| SplitHandler.MissingUploadAnswered400 | index.js:30 | with no upload the reply is 400 "Missing file field 'file'"; no workspace is created, nothing is spawned and no cleanup is scheduled |
| SplitHandler.FfmpegFailureAnswered500 | index.js:96-98 | a non-zero exit or a signal is answered 500 with `ffmpeg failed: <code>\n` and all of stderr; no cleanup is scheduled |
| SplitHandler.NoSegmentsAnswered500 | index.js:70-72 | a clean exit with no segment file is answered 500 "No segments produced" |
| SplitHandler.SuccessStreamsEverySegment | index.js:74-85 | otherwise the reply is 200 with the zip headers and one entry per discovered file, in order and under its own name, and cleanup of the upload and those files is scheduled |
| SplitHandler.ZipExactlyWhenSegmentsExist | index.js:30-98 | a zip is sent if and only if there is an upload, ffmpeg exits 0 and a segment file exists; the status is always 200, 400 or 500; cleanup is scheduled exactly when a zip is sent |
| SplitHandler.SpawnedWithPlannedDuration | index.js:43-57 | ffmpeg gets 18 arguments, with the upload at position 1 and at position 14 a duration that parses to the planned one, NaN or within [60, 3600] |
| SplitHandler.SpawnedDurationText | index.js:51 | position 14 of the spawned arguments is `String` of the planned duration |
| SplitHandler.ThirtyMinutesAt900 | index.js:32-85 | at 900 seconds, given or by default, ffmpeg gets `900`, and the two segments, listed in either order, are zipped as `part_000.m4a` then `part_001.m4a` |
| SplitHandler.TenSecondsBecomeSixty | index.js:32-51 | `segmentSeconds=10` makes ffmpeg cut 60-second segments |
| SplitHandler.UnauthorizedStopsEverything | index.js:28 | a request that fails the token check is answered 401 before anything is created, spawned or scheduled |
| SplitHandler.AuthorizedIsHandled | index.js:28 | a request that passes the token check is handled exactly as without the check |

## Left out

- Express routing, `/health`, `listen` and the port are not modelled. Neither are multer's multipart decoding and its 200 MiB limit. The upload is given as a path, or as absent.
- Repeated query parameters (`?segmentSeconds=1&segmentSeconds=2`, which Express turns into an array) are not modelled. The parameter is a single optional string.
- Spawning ffmpeg and the process's `error` event are left out, along with everything ffmpeg does with the media. The model takes its stderr chunks, its `close` status and the resulting directory listing as inputs. Each stderr chunk is taken as already-decoded text, so `Buffer.toString` splitting a UTF-8 sequence across chunks is not modelled.
- `mkdtempSync` and `readdirSync` are left out, and so are their exceptions. The directory name and the listing are inputs.
- The `catch` that turns an exception into a 500 is modelled only for the ffmpeg rejection. Other exceptions come from the file system or the archiver, which are not modelled.
- Compression, the bytes of the zip, piping to the response and the archiver's `error` event are left out. The archive is the list of entries it was given.
- The 5-second `setTimeout` and `console.error` are not modelled. Cleanup is a separate operation whose failing removals are a parameter.
- JsText.JoinPath: models `path.join` for a directory and a plain file name only. It does not normalise `.`, `..` or repeated separators.
- JsText.NumberToString: covers integers of magnitude below 10^21 and NaN only; from 10^21 on JavaScript prints exponent notation, which `parseInt` would not read back. The planned duration is NaN or within [60, 3600] and exit codes are small, so exponent notation and fractions never arise.
- JsText.ParseInt: returns the exact integer of the digit run, where JavaScript's `parseInt` returns a double. A run above 2^53 is rounded, one beyond about 1.8e308 gives `Infinity`, and `"-0"` gives `-0`. Each of these values lies outside [60, 3600] or is zero, so the clamp turns it into the same duration as the exact integer does: 3600 for large positive values, and 60 for large negative values and for `-0`.
