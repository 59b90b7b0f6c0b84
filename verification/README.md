# Verified model of the at-pc server and agent

This project models, in Dafny, the parts of at-pc whose correctness is hardest to see
from reading one function, and proves what they promise:

- the **audit log** of the server: a bounded queue under an admission lock, one writer
  thread that survives short writes and transient failures, rotation into a bounded
  number of archives, export and tail reads (`AuditDisk`, `AuditWriter`, `AuditThread`,
  `AuditRuns`, `AuditSuccess`, `AuditErrors`, `AuditExport`, `AuditSizes`,
  `AuditAdmission`, `AuditSnapshot`, `AuditTail`);
- the **terminal metadata store**: versioned snapshots that arrive in any order and are
  coalesced, persisted and retried by a debounced writer (`MetaStore`), and the records
  they are snapshots of (`MetaRecords`);
- **reading text from the end**: the growing window of the server's `tail.rs` and the
  backward chunk scan of the agent's `file_ops.rs`, over bytes, lines and UTF-8 as Rust's
  standard library defines them (`Text`, `Utf8`, `Tail`, `FileOps`);
- **dirty-tile hashing and scaling** of desktop frames, with 64-bit words as bit vectors
  (`TileHash`, `Scale`, `XYArithmetic`);
- the **limiter of authentication failures** and the **request quota**
  (`SlidingWindow`, `AuthLimiter`, `KeyQuota`);
- the **process tree** and the process registry (`ProcessTree`, `ProcessRegistry`);
- **file search** with wildcards (`Wildcard`, `Directory`);
- the **WebSocket writer task** and its priorities (`WsWriter`);
- **API keys**: ids, credential strings and the life of a key (`Credential`, `KeyStore`);
- **pending enrollments** and their challenges (`Enrollment`).

`Wrappers` holds the optional value that all of them use.

Loops and in-place updates of the source are methods, and stateful objects are classes;
each is proved equal to a function of the old state, and the theorems are about those
functions. The outcome of every call that can fail (a write, a sync, a rename, a random
draw) comes from a parameter, so a theorem for all parameters holds for every pattern of
failures. Concurrency is a machine whose steps any schedule may interleave. Clocks are
parameters too. `dafny verify dfyconfig.toml` checks everything.

Where the code does not do what its comments or its callers would expect, the model
follows the code, and the theorem says exactly when the expectation holds:

- `crockford_base32_id` is documented to encode five bytes, but reads only the low 40
  bits of a value shifted left by 16: the id depends on the last three bytes alone and
  always ends in `000` (`Credential.IdIsThreeBytes`, `Credential.IdEndsInZeros`).
- For large files the byte limit is compared with the raw text of the last lines, line
  terminators included, so lines whose joined text just fits can still be cut
  (`FileOps.ScanIsTailWhen` gives the exact condition). Reading the front of a file can
  leave a replacement character at its end (`FileOps.HeadIsPrefixWhen`) and exceed the
  limit on a file that is not well-formed UTF-8 (`FileOps.HeadFitsWhen`).
- `reset_secs` rounds down and ignores that the window is closed at both ends: a client
  that waits as told is usually refused again (`KeyQuota.RefusedThenRetried`). Likewise
  `RateLimited` says 60 seconds, which failures at one instant outlast
  (`AuthLimiter.RetryAfterMinute`).
- The guard against revoking or deleting the last admin key counts expired keys
  (`KeyStore.UsableAdminLeft`).
- `read_recent` counts lines before it parses them, so a line that does not parse can
  hide a newer record behind an older one (`AuditTail.RecentIsNewestWhen`).
- Opening the audit files while they rotate never opens a file twice, but a second
  rotation can list a newer file as an older one (`AuditSnapshot.SnapshotIsRunWhen`).
- A rotation that is tried again can leave a gap between the archives, and an export stops
  there (`AuditExport.ExportIsWholeWhen`). A failed query for the length of the log counts
  it as empty, after which the size limit need not hold (`AuditSizes.FirstRecordFitsWhen`).
- A process registered with a pid that the system gave out again before its old entry
  went breaks the tables of the registry (`ProcessRegistry.RegisterKeepsInStep`).

## Model

| member | source | states |
|---|---|---|
| AuditDisk.RetryIo | crates/server/src/audit.rs:651-675 | the retry loop stops at the first success, at the first failure that is not transient, or after `max_attempts` (at least one) |
| AuditDisk.RetryExact | crates/server/src/audit.rs:651-675 | when failing attempts change nothing, the retry succeeds exactly when some call within the allowed attempts succeeds with only transient failures before it; otherwise it leaves the state as it was and reports the failure that ended it, the first that is not transient or the last one allowed |
| AuditDisk.RotateLogFiles | crates/server/src/audit.rs:187-200 | one pass of the rotation, failures at any single remove or rename included |
| AuditDisk.RotateShifts | crates/server/src/audit.rs:187-200 | a pass changes nothing or moves the generations from the point where it stops up by one, and succeeds exactly when it moved them all: g to g + 1 for every retained generation, absent ones included, only the oldest dropped |
| AuditDisk.ShiftedContiguous | crates/server/src/audit.rs:187-200 | wherever a pass stops, what is left still reads oldest to newest as a contiguous newest part of the history, and from every generation that was not moved out of the retained ones it reads exactly as before |
| AuditWriter.WriteRecord | crates/server/src/audit.rs:677-693 | the loop over short writes and retried calls, failing when a call takes nothing |
| AuditWriter.WriteAppends | crates/server/src/audit.rs:677-693 | for every pattern of short writes and retries: success appends the record in full and exactly once, failure leaves a proper prefix of it |
| AuditThread.WriterThread.PersistRecord | crates/server/src/audit.rs:745-770 | the whole new state and status of one persist: open if needed, rotate when the record does not fit, write, count its bytes |
| AuditThread.WriterThread.RotateActiveWriter | crates/server/src/audit.rs:790-804 | flush and sync, close the handle whatever came of it, then the retried rotation |
| AuditThread.WriterThread.FlushWriter | crates/server/src/audit.rs:695-713 | flush and sync with retries; an earlier terminal error is what it reports; `AnsweredOkWhen` says when it is Ok |
| AuditThread.WriterThread.Handle | crates/server/src/audit.rs:855-903 | one command: the whole new state and its answer |
| AuditThread.WriterThread.RunBatch | crates/server/src/audit.rs:845-910 | one drained batch: commands are handled in order, each answered by the state it met, and the first shutdown ends the batch and the thread |
| AuditThread.WriterThread.RunWriter | crates/server/src/audit.rs:806-930 | the loop of timeouts, batches and periodic flushes is the run of its steps one after the other, of which a shutdown can only be the last |
| AuditRuns.RetriedRotation | crates/server/src/audit.rs:790-804 | a rotation retried after partial failures, though not idempotent, keeps the files a contiguous newest part of the history, all synced; when it succeeds the active log is generation 1, moved exactly once however many passes it took |
| AuditRuns.RotationReads | crates/server/src/audit.rs:187-200 | after all passes of a rotation, whichever calls failed, the generations up to h hold byte for byte what those up to g held, for the last g the passes moved no further than to h |
| AuditRuns.PersistIsHealthy | crates/server/src/audit.rs:745-770 | a successful persist, with or without rotation, makes the record the newest entry of the readable log; with no terminal error the writer is open |
| AuditRuns.PersistReads | crates/server/src/audit.rs:745-770 | it appends the whole record to what the generations hold, and loses none but those its rotation moved out of the retained ones |
| AuditRuns.RunIsHealthy | crates/server/src/audit.rs:806-930 | over any run, until the first error: the log is open and the files read as a contiguous newest part of the initial log and every record so far, archives synced |
| AuditRuns.OnlyRecordsChangeBytes | crates/server/src/audit.rs:855-903 | a barrier, shutdown, export, tail or periodic flush changes no byte of any generation |
| AuditRuns.RunReads | crates/server/src/audit.rs:745-804 | over any run without an error, the generations up to h hold byte for byte what those up to g held at its start, for the last g that the rotations moved no further than to h, and then every record of the run |
| AuditRuns.RunGone | crates/server/src/audit.rs:745-804 | once the rotations of a run moved the active log past generation h, the generations up to h hold nothing that was there before it |
| AuditRuns.NothingDropped | crates/server/src/audit.rs:745-804 | with no error and no pass of a rotation, the log reads as before, followed by every record of the run |
| AuditRuns.RunToBound | crates/server/src/audit.rs:187-200 | the passes made by the rotations of a run, not counting those that failed at once, bound how far a generation is moved |
| AuditRuns.FirstRotationMovesOnce | crates/server/src/audit.rs:790-804 | the first rotation moves the active log by one, whatever fails in it and is tried again |
| AuditRuns.NoFailureIsSmooth | crates/server/src/audit.rs:187-200 | with no failing call every rotation takes exactly one pass |
| AuditRuns.KeptSince | crates/server/src/audit.rs:745-804 | with no error, a record that is not empty and all that follow it are in the log if and only if the rotations since have not moved the log that took it out of the retained generations |
| AuditRuns.BarrierReportsTerminal | crates/server/src/audit.rs:695-713 | a barrier or shutdown answers Ok exactly when no error was met so far, its own flush included, and otherwise with the first one |
| AuditRuns.BarrierIsDurable | crates/server/src/audit.rs:695-930 | if a flush or shutdown answers Ok, every retained file is synced in full; the log reads byte for byte as `RunReads` says, so with no rotation as the initial log and every record; the active log ends with the newest record; and every record is there, with all after it, exactly while its log is retained: through `retain_files` less one rotations of one pass, and through the first rotation after it whatever fails in that and is tried again |
| AuditRuns.FirstErrorIsSticky | crates/server/src/audit.rs:723-735 | after a failure every later barrier, shutdown and export answers with that same first error |
| AuditRuns.NewestRecordKept | crates/server/src/audit.rs:745-770 | while no error was met, the newest record ends the active log, whatever rotations dropped and whatever commands followed it |
| AuditSuccess.StartsOkWhen | crates/server/src/audit.rs:826-842 | the writer starts without an error if and only if opening the log succeeds within its attempts |
| AuditSuccess.AnsweredOkWhen | crates/server/src/audit.rs:695-735 | a barrier, shutdown or export of an open log without an error is answered Ok, and sets none, if and only if its flush and then its sync succeed within their attempts; otherwise it is answered with the error it sets |
| AuditSuccess.RunSucceeds | crates/server/src/audit.rs:651-930 | over every run: while failures are transient, fewer in a row than there are attempts, and followed by as many successes as a rotation makes calls, no command sets an error, every barrier and shutdown is answered Ok, and every export with the text of all files |
| AuditSuccess.RecordWithoutFailure | crates/server/src/audit.rs:745-804 | with no failing call, what every generation holds after a record: appended to the active log if that is empty, there is no limit or the record fits beside what is there, and otherwise alone in a new log with all retained generations moved up by one |
| AuditSuccess.LogWithoutFailure | crates/server/src/audit.rs:806-930 | with no failing call, over any run from the start of the writer, the files hold what a list of texts holds that is appended to and moved up in that way |
| AuditSuccess.TailIsLast | crates/server/src/audit.rs:855-903 | a tail read answers with the files of the log as it stands, active log first, and the limit asked for, so its reader gets the last records up to that limit while the log is quiet, every line parses and no file is over the cap |
| AuditErrors.AnsweredErrorIsReal | crates/server/src/audit.rs:651-735 | over any run, every error a barrier, shutdown or export is answered with is one some call returned, when it failed for good: not transient, or tried as often as allowed, or a write that took nothing |
| AuditExport.ExportIsContiguous | crates/server/src/audit.rs:1043-1064 | an export answered Ok is the text of all generations up to the first gap, oldest first: a contiguous newest part of the initial log and the records before it, cut between records and ending with the newest, of a log that holds what a barrier promises |
| AuditExport.ExportIsWholeWhen | crates/server/src/audit.rs:969-1064 | it is the whole retained log if and only if no archive above the first missing one holds anything, and so it is when the log started without a gap and every rotation since took one pass |
| AuditExport.GapHidesArchive | crates/server/src/audit.rs:187-200 | one transient failure in a rotation of four files leaves no generation 2, so that an export ends below generation 3 |
| AuditExport.TerminatedLines | crates/server/src/audit.rs:1043-1052 | a file that does not end its last line gains exactly one line feed, any other nothing, and its lines stay the same if and only if it does not end in a carriage return |
| AuditExport.ExportLines | crates/server/src/audit.rs:1043-1064 | the lines of an export are those of all its files one after the other, none run together, when no file ends in a carriage return |
| AuditSizes.PersistSized | crates/server/src/audit.rs:745-770 | after a successful persist the active log is at most `max_file_bytes` long or holds just that record, if the length of a log that is not empty was read when it was opened |
| AuditSizes.RunSized | crates/server/src/audit.rs:745-804 | over any run, other failures included, the log takes at most `retain_files` times the larger of the limit and the longest record, if the length of a log that is not empty was read whenever it was opened |
| AuditSizes.FirstRecordFitsWhen | crates/server/src/audit.rs:772-788 | with no other failure, the first record leaves the active log within the limit if and only if the length of the log was read when it was opened, or the record fits beside what was there |
| AuditSizes.PassDropsOnlyOldest | crates/server/src/audit.rs:187-200 | each pass of a rotation drops at most the oldest retained file from what the log reads as |
| AuditAdmission.ShutdownIsLast | crates/server/src/audit.rs:482-542 | in every reachable state nothing is queued or taken behind a shutdown, so the writer's `break` drops no command |
| AuditAdmission.AfterInv | crates/server/src/audit.rs:360-390 | in every state any schedule reaches: what the writer ran, took and has queued is what was admitted, in order; whoever was told its command is accepted finds that command at its place among the admitted ones; the queue holds at most its capacity; the shared error slot is the writer's |
| AuditAdmission.AdmittedGrows | crates/server/src/audit.rs:360-390 | whatever steps follow, what was admitted stays admitted, in its place |
| AuditAdmission.EnqueuedIsAdmitted | crates/server/src/audit.rs:360-390 | a command enqueued while the gate is open and the log not poisoned is, whatever the others do, either still held by its caller or answered as accepted and admitted, never dropped |
| AuditAdmission.ShutdownLosesNothing | crates/server/src/audit.rs:482-542 | after a shutdown the writer has run exactly the admitted commands in order, among them, each at its place, every command some caller was told is accepted; and every shutdown caller was told the stored result |
| AuditAdmission.NothingAdmittedAfter | crates/server/src/audit.rs:360-390 | once a shutdown has begun no schedule admits anything but the shutdown itself, and once it has ended no schedule admits or runs anything |
| AuditAdmission.ClosedIsFinal | crates/server/src/audit.rs:482-542 | after a shutdown every enqueue is refused and every further shutdown returns the stored result |
| AuditAdmission.ShutdownIsDurable | crates/server/src/audit.rs:482-542 | end to end: when shutdown returns Ok, every record a caller was told is accepted is among the records of the run, all files are synced, the active log ends with the newest record, with no size limit the log is the initial one and every record, and otherwise all that a barrier promises holds, for each record exactly while its log is retained |
| AuditAdmission.RefusalNamesTheError | crates/server/src/audit.rs:360-390 | a record refused because the log is poisoned is refused with the error the shutdown then returns |
| AuditAdmission.PoisonedRefusesRecords | crates/server/src/audit.rs:360-390 | in every reachable state with the gate open: once the writer has met an error a record is refused with it and nothing is admitted, and before that, or for any other command, the caller goes on to send |
| AuditAdmission.NothingIsPoisoned | crates/server/src/audit.rs:360-542 | while failures are such as the writer gets over, no schedule refuses a record as poisoned, and the shutdown returns Ok |
| AuditAdmission.ShutdownIsAnswered | crates/server/src/audit.rs:482-542 | whatever the others do, the caller that shuts a running log down still waits, or the log is closed and it was told the stored result |
| AuditAdmission.LockHolderIsNeverStuck | crates/server/src/audit.rs:482-542 | while a caller holds the admission lock across its blocking send or wait, some step of the writer or of that caller can be taken: the lock never deadlocks with the full queue |
| AuditAdmission.LockIsReleased | crates/server/src/audit.rs:482-542 | and the lock is released: whatever the schedule, it is held for no more of those steps than three for each queued command, one for each taken, and six |
| AuditSnapshot.OpenSnapshotFiles | crates/server/src/audit.rs:969-992 | the loop that opens the active log and the archives up to the first that is missing, dropping files it has already open |
| AuditSnapshot.LayoutSteps | crates/server/src/audit.rs:187-200 | the directory layouts of an interleaved rotation are the ones its single remove and rename steps produce |
| AuditSnapshot.AfterAt | crates/server/src/audit.rs:187-200 | the directory at every single step of any number of rotations: which generation names which file, and exactly when none |
| AuditSnapshot.SnapshotOpensOnce | crates/server/src/audit.rs:969-992 | whatever happens to the directory between the calls, no file is opened twice |
| AuditSnapshot.SnapshotIsRunWhen | crates/server/src/audit.rs:969-992 | for any number of rotations interleaved at any steps: the snapshot holds exactly the files the names meant when opened, up to a name that is missing for a reason, and is a run of consecutive files, newest first, if and only if no file opened is newer than the first |
| AuditSnapshot.SnapshotIsRun | crates/server/src/audit.rs:969-992 | with at most one rotation interleaved at any of its steps, the snapshot is a run of consecutive files, newest first, from the file opened first |
| AuditSnapshot.TwoRotationsMixOrder | crates/server/src/audit.rs:969-992 | two rotations after the active log was opened: a newer file is listed as its only archive |
| AuditSnapshot.QuietSnapshot | crates/server/src/audit.rs:969-992 | with no rotation in between, the contents of the opened files are what the writer thread reads when it exports the log or answers a tail |
| AuditTail.ReadRecentPath | crates/server/src/audit.rs:1002-1041 | newest file first, each with what is left of the limit, until the limit is met or a file longer than the tail cap comes up short |
| AuditTail.RecentIsNewest | crates/server/src/audit.rs:1002-1041 | when every stored line parses nothing is passed over, and the read is a contiguous newest suffix of the log across all files |
| AuditTail.RecentIsNewestWhen | crates/server/src/audit.rs:932-1041 | for distinct records, the read is a contiguous newest suffix of the log if and only if every file newer than one that records were taken from gave all of its own |
| AuditTail.RecentIsLast | crates/server/src/audit.rs:1002-1041 | and it is exactly the last min(limit, total) records when no file exceeds the 4 MiB cap |
| AuditTail.RecentStopsAtCap | crates/server/src/audit.rs:1002-1041 | a read that comes up short stopped inside a file longer than the cap, with all newer records returned: no hole is skipped |
| AuditTail.UnparsableLineSkipsARecord | crates/server/src/audit.rs:932-937 | a concrete log with a line that does not parse, for which the newest record is passed over |
| Text.RawLinesUnique | crates/server/src/tail.rs:39-45 | splitting into lines is the only way to cut a text after each of its line feeds |
| Text.LinesOfWritten | crates/server/src/tail.rs:39-45 | the lines of a text written line by line, each ended by a line feed or by carriage return and line feed, with or without an unterminated last one, are those it was written from |
| Text.WrittenFromLines | crates/server/src/tail.rs:39-45 | every text is written from its lines in that way |
| Text.LineIsPrefix | crates/server/src/tail.rs:39-45 | each line is a prefix of its raw line, and what is cut off is its terminator |
| Tail.ReadTailLinesFromFile | crates/server/src/tail.rs:16-46 | one window of `max_bytes` yields the last lines that lie in it whole, at most `max_lines` |
| Tail.ReadLastNLinesFromFile | crates/server/src/tail.rs:50-72 | the growing window returns what one window of the whole cap would, and its last window is at most 8 KiB or twice the bytes of the lines asked for, however long the file |
| Tail.CapBinds | crates/server/src/tail.rs:50-72 | that is exactly the last n lines of the file if and only if the file fits under the cap, or those lines and the line feed before them do |
| Utf8.LossyIsValid | crates/agent/src/tools/file_ops.rs:76-106 | decoding with replacement always yields well-formed UTF-8 |
| Utf8.ScalarWhen | crates/agent/src/tools/file_ops.rs:76-106 | a scalar value is read at the start of bytes if and only if they start with its encoding (section 3 of RFC 3629) |
| Utf8.ValidWhen | crates/agent/src/tools/file_ops.rs:76-106 | bytes are well formed if and only if they encode some sequence of scalar values |
| Utf8.BrokenIsMaximal | crates/agent/src/tools/file_ops.rs:76-106 | a replacement character stands for the longest ill-formed sequence that begins an encoding, or for one byte |
| Utf8.SkipAfterCut | crates/agent/src/tools/file_ops.rs:218-225 | after a cut anywhere in well-formed text, skipping continuation bytes gives well-formed text again, and after an ASCII byte skips nothing |
| Utf8.BoundaryCut | crates/agent/src/tools/file_ops.rs:129-136 | truncating at a char boundary keeps text well formed |
| FileOps.Truncate | crates/agent/src/tools/file_ops.rs:129-136 | the loop down to a char boundary keeps the longest prefix within the limit that ends at one |
| FileOps.ClampIsLongest | crates/agent/src/tools/file_ops.rs:129-136 | what is left is a prefix that ends at a char boundary, and no boundary within the limit lies behind it |
| FileOps.FindTailStart | crates/agent/src/tools/file_ops.rs:163-201 | the backward scan over 64 KiB chunks finds the position with exactly n - 1 line feeds after it and one before it, or the start of the file |
| FileOps.ReadLarge | crates/agent/src/tools/file_ops.rs:147-258 | for any bytes: the text, the line count and the flag are those of decoding what is read back from the start of the last lines, or from as far back as the limit allows, without a partial scalar |
| FileOps.LargeIsScan | crates/agent/src/tools/file_ops.rs:203-258 | for a well-formed file that is the text of the last lines when their raw text fits and otherwise the lines of the last bytes, never longer than the limit; the line count is that of the lines returned, and `truncated` is set exactly when there are more lines or bytes than asked for |
| FileOps.ReadSmall | crates/agent/src/tools/file_ops.rs:111-145 | a small file is read whole, its last lines joined and clamped |
| FileOps.ReadHead | crates/agent/src/tools/file_ops.rs:76-106 | with `tail_lines` 0 the front of the file is decoded and clamped |
| FileOps.ReadTextFile | crates/agent/src/tools/file_ops.rs:41-259 | the whole tool, with its defaults for absent or zero arguments |
| FileOps.ScanAgreesWithWhole | crates/agent/src/tools/file_ops.rs:111-258 | when the last n lines fit, the backward scan of a large file and the whole read agree on text and truncation |
| FileOps.ScanIsTailWhen | crates/agent/src/tools/file_ops.rs:203-250 | when the joined lines fit, the scan returns them if and only if their raw text fits too, or is one byte too long and begins with an empty line ended by carriage return and line feed |
| FileOps.ScanCutsAFittingLine | crates/agent/src/tools/file_ops.rs:203-250 | a file over 64 KiB whose last line `ab` fits a limit of two: the scan returns `b` |
| FileOps.HeadIsPrefixWhen | crates/agent/src/tools/file_ops.rs:76-106 | the front of a well-formed file is within the limit, and is the file up to a char boundary if and only if the limit does not cut off exactly three bytes of a scalar |
| FileOps.HeadKeepsReplacement | crates/agent/src/tools/file_ops.rs:76-106 | a scalar of four bytes under a limit of three: the result is a replacement character |
| Utf8.LossyGrows | crates/agent/src/tools/file_ops.rs:76-106 | decoding makes a text longer by three bytes for each ill-formed sequence, less the bytes of that sequence |
| FileOps.HeadFitsWhen | crates/agent/src/tools/file_ops.rs:76-106 | the front of any file is within the limit if and only if the file is longer than the limit, or what decoding adds fits as well |
| FileOps.HeadCanExceedLimit | crates/agent/src/tools/file_ops.rs:76-106 | a file of one ill-formed byte is read as three bytes under a limit of one |
| TileHash.MixRow | crates/desktop-core/src/lib.rs:124-137 | eight bytes at a time, then one at a time, then the turn at the end of the row |
| TileHash.ScrambleInjective | crates/desktop-core/src/lib.rs:108-128 | multiplication by the odd constant is injective modulo 2^64 |
| TileHash.MixInjective | crates/desktop-core/src/lib.rs:125-134 | each step is injective in the hash for a fixed word and in the word for a fixed hash |
| TileHash.HashTile | crates/desktop-core/src/lib.rs:114-139 | the loop over the rows of a tile, ended by a row the buffer does not hold |
| TileHash.ComputeBlockHashesSized | crates/desktop-core/src/lib.rs:94-143 | all tiles in row-major order, and nothing for a size of zero |
| TileHash.OneWordDetected | crates/desktop-core/src/lib.rs:94-143 | if two equal-sized frames differ only inside one word of one tile row, the hash of a tile changes if and only if it is that tile |
| TileHash.OneHashChanges | crates/desktop-core/src/lib.rs:94-143 | then exactly one entry of the hash list changes, the one of that tile |
| TileHash.OnePixelDetected | crates/desktop-core/src/lib.rs:94-143 | frames that differ in one pixel, at four bytes for each pixel row by row, have lists of hashes that differ in exactly the entry of that pixel's tile, unless the pixel is the odd one at the end of the tile's row |
| TileHash.SmallestChange | crates/desktop-core/src/lib.rs:94-143 | any two different frames of one tile of two pixels differ in one word, so the detection theorems apply to them |
| TileHash.InteractiveDirtyWhen | crates/desktop-core/src/lib.rs:147-174 | while the user interacts a frame is new if and only if its hashes differ from those before, or there were none |
| TileHash.FrameIsNewWhen | crates/desktop-core/src/lib.rs:147-174 | otherwise it is new if and only if at least one hash in 200 differs, or the frame before is missing or has another number of tiles |
| TileHash.OneWordSendsFrame | crates/desktop-core/src/lib.rs:147-174 | one changed word makes a frame new at once while the user interacts, and otherwise if and only if it has at most 200 tiles |
| Scale.RgbaToRgbScaled | crates/desktop-core/src/lib.rs:52-73 | the copy loop for equal sizes and the sampling loops otherwise both give every target pixel the colour of its nearest source pixel, always inside the frame; a frame without pixels gives a picture without any |
| Scale.PixelColour | crates/desktop-core/src/lib.rs:52-73 | target pixel (x, y) has the red, green and blue of the source pixel as far from the left and the top in proportion, rounded down |
| AuthLimiter.AuthRateLimiter.RecordFailureAt | crates/server/src/rate_limit.rs:59-115 | the answer and the whole new map for a counted or refused failure |
| AuthLimiter.AuthRateLimiter.CheckAt | crates/server/src/rate_limit.rs:132-169 | the answer and the whole new map for a check, which clears an expired ban |
| AuthLimiter.AuthRateLimiter.RecordSuccess | crates/server/src/rate_limit.rs:118-124 | a success forgets the address and nothing else |
| AuthLimiter.PruningIsInvisible | crates/server/src/rate_limit.rs:59-169 | for nondecreasing time, over all addresses, every decision is the one a limiter would make that keeps every counted failure |
| AuthLimiter.FailureDecides | crates/server/src/rate_limit.rs:59-115 | that limiter bans for 900 seconds at the thirtieth failure within 600 seconds, says to wait 60 seconds at the tenth within 60, and otherwise allows |
| AuthLimiter.CheckDecides | crates/server/src/rate_limit.rs:132-169 | a check of an address that is not banned says to wait if and only if ten failures lie within 60 seconds |
| AuthLimiter.RunIsSound | crates/server/src/rate_limit.rs:86-94 | no list ever holds more than thirty failures, also after a check clears an expired ban |
| AuthLimiter.BanLastsFifteenMinutes | crates/server/src/rate_limit.rs:71-101 | a ban refuses every call before 900 s are over with the seconds left, and the first call after that is allowed, unless a success ended it |
| AuthLimiter.SecondsLeftIsTight | crates/server/src/rate_limit.rs:71-77 | waiting `retry_after` seconds reaches the end of the ban, one second less does not |
| AuthLimiter.RetryAfterMinute | crates/server/src/rate_limit.rs:100-112 | sixty seconds after `RateLimited` a check is allowed if and only if fewer than ten failures came at the very instant of that answer |
| AuthLimiter.RetryCanMislead | crates/server/src/rate_limit.rs:100-112 | after ten failures at one instant the answer is 60 seconds, and 60 seconds later it is the same again |
| KeyQuota.KeyQuotaTracker.CheckAndRecordAt | crates/server/src/rate_limit.rs:215-258 | the answer and the whole new map for one call |
| KeyQuota.KeptIsRecent | crates/server/src/rate_limit.rs:229-232 | the pruned list is exactly the allowed calls of the last window |
| KeyQuota.AllowedWhenBelowLimit | crates/server/src/rate_limit.rs:227-257 | a call is refused if and only if exactly `limit` allowed ones lie in its trailing window; `remaining` and that count make up the limit |
| KeyQuota.AnswerTells | crates/server/src/rate_limit.rs:233-257 | every answer names the limit and the whole seconds, at least one, until the oldest counted call leaves the window, or those of the window if there is none |
| KeyQuota.QuotaHolds | crates/server/src/rate_limit.rs:215-258 | whatever the calls, no closed interval of the window's length holds more than `limit` allowed ones |
| KeyQuota.RefusedThenRetried | crates/server/src/rate_limit.rs:233-247 | a refused client that waits `reset_secs` is allowed if and only if the limit is not zero, and less than a second was missing or the oldest call was at the edge of a window of a second or more |
| KeyQuota.ResetCanMislead | crates/server/src/rate_limit.rs:233-247 | with the default quota filled at once: the answer ten seconds on says 50 seconds, after which the call is refused again |
| KeyQuota.KeysAreIndependent | crates/server/src/rate_limit.rs:222-227 | what is kept for a key depends on the calls for that key alone |
| ProcessTree.ProcessesToKill | crates/agent/src/tools/process_registry.rs:176-193 | the worklist ends, holds no pid twice, and is exactly the set of processes reachable from the root through the parent relation, in any table order and with cycles |
| ProcessRegistry.ProcessRegistry.RegisterProcessWithCall | crates/agent/src/tools/process_registry.rs:45-55 | the whole new state of the three maps |
| ProcessRegistry.ProcessRegistry.UnregisterProcess | crates/agent/src/tools/process_registry.rs:58-76 | the whole new state of the three maps, an emptied call removed |
| ProcessRegistry.ProcessRegistry.KillCallProcesses | crates/agent/src/tools/process_registry.rs:96-123 | the whole new state and the pids to kill |
| ProcessRegistry.ProcessRegistry.KillAllActive | crates/agent/src/tools/process_registry.rs:127-151 | every running pid is targeted and all three maps are cleared |
| ProcessRegistry.RegisterKeepsInStep | crates/agent/src/tools/process_registry.rs:38-55 | for a new id the three maps stay in step (a call lists exactly the pids of its running ids, each once) if and only if no other id is still registered with the pid |
| ProcessRegistry.UnregisterKeepsInStep | crates/agent/src/tools/process_registry.rs:58-76 | unregistering any id keeps them in step |
| ProcessRegistry.UnregisterUndoesRegister | crates/agent/src/tools/process_registry.rs:45-76 | unregistering a process restores the state before its registration if and only if its call did not list the pid already |
| ProcessRegistry.KillTargetsTheCall | crates/agent/src/tools/process_registry.rs:96-123 | killing a call targets exactly the pids of its running processes, each once, takes out exactly those, and keeps the maps in step |
| ProcessRegistry.OwnersAfterRegister | crates/agent/src/tools/process_registry.rs:38-55 | a registration adds one process and its owner and leaves all others as they were |
| ProcessRegistry.OwnersAfterUnregister | crates/agent/src/tools/process_registry.rs:58-76 | unregistering an id takes that process and its owner away, and no other |
| ProcessRegistry.OwnersAfterKill | crates/agent/src/tools/process_registry.rs:96-123 | killing a call takes all its processes away, and none of another call |
| Wildcard.IsMatch | crates/agent/src/tools/directory.rs:205-224 | the match loop accepts a name if and only if the parts of the pattern can be placed in it in order without overlap |
| Wildcard.GreedyIsComplete | crates/agent/src/tools/directory.rs:209-221 | the greedy leftmost choice succeeds if and only if any placement exists |
| Wildcard.MatchesWhen | crates/agent/src/tools/directory.rs:205-224 | a name is accepted if and only if it matches the pattern with an asterisk at both ends in the usual sense, where an asterisk stands for any characters and every other character for itself |
| Wildcard.PartsAreClean | crates/agent/src/tools/directory.rs:206-206 | the parts are not empty and hold no asterisk; without one the pattern is its own only part |
| Wildcard.StarsDoNotAnchor | crates/agent/src/tools/directory.rs:205-224 | an asterisk at either end of the pattern changes nothing: a match is never tied to an end of the name |
| Directory.ReadDirectory | crates/agent/src/tools/directory.rs:199-236 | the loop over one directory adds its matches up to the limit and pushes its subdirectories within the depth limit |
| Directory.SearchFiles | crates/agent/src/tools/directory.rs:168-249 | the search fails exactly for a bad base or an empty pattern, and otherwise returns the first matches in visiting order up to the limit, limits clamped |
| Directory.WalkIsComplete | crates/agent/src/tools/directory.rs:192-241 | the stack walk meets every match within the depth limit exactly once |
| Directory.FindsAllWithin | crates/agent/src/tools/directory.rs:188-249 | what a search finds matches the pattern and is within the depth limit, each entry once, at most as many as the limit; and when it finds fewer, it has found every such entry |
| WsWriter.WriterTask.LoopOnce | crates/agent/src/ws_client.rs:515-581 | one pass: the pong poll, the turn for a frame after two control messages, and the biased `select!` |
| WsWriter.WriterTask.Loop | crates/agent/src/ws_client.rs:513-581 | the writer task as the run of its passes, until a write breaks or all channels are closed |
| WsWriter.PassesAreRuns | crates/agent/src/ws_client.rs:513-581 | whatever the passes do is a run of single steps, so what holds for all runs holds for the task |
| WsWriter.AtMostTwoOvertake | crates/agent/src/ws_client.rs:526-537 | for every arrival pattern at most two control messages are taken while a frame is the oldest in its channel |
| WsWriter.FrameGoesFirstWhen | crates/agent/src/ws_client.rs:526-575 | for every arrival pattern a frame is taken before a waiting control message only when two control messages were taken since the last frame, and a control message never before a waiting pong |
| WsWriter.PongIsWritten | crates/agent/src/ws_client.rs:515-546 | a waiting pong is the next message written, behind one frame at most and only if the writer has polled for pongs already |
| WsWriter.ControlIsWritten | crates/agent/src/ws_client.rs:515-565 | with no pongs, a waiting control message is the next that is taken, behind one frame at most and only after two control messages, within five polls |
| WsWriter.EachClassInOrder | crates/agent/src/ws_client.rs:513-581 | what got into the channel of a class is taken in that order, none dropped or doubled |
| WsWriter.ArrivesWhen | crates/agent/src/ws_client.rs:503-505 | while the task runs, every pong and control message gets into its channel, at the end, and a frame does unless two wait |
| WsWriter.RunKeepsCapacity | crates/agent/src/ws_client.rs:503-505 | never do more than two frames wait |
| WsWriter.RunKeepsLogSound | crates/agent/src/ws_client.rs:513-581 | only the last write can have broken the socket, only a control message is dropped unserialized, and without a broken write the task ends only with all channels closed and empty |
| WsWriter.CleanEndTakesAll | crates/agent/src/ws_client.rs:577-581 | when the task ends with no write broken, everything accepted was taken |
| WsWriter.EndsAfterHangUp | crates/agent/src/ws_client.rs:513-581 | once all senders are gone and no write breaks, the task ends within three polls for each waiting message and three more, and has taken everything that got in |
| WsWriter.FrameIsWritten | crates/agent/src/ws_client.rs:513-581 | with no pongs and no broken write, a waiting frame is written within eight polls, which is three passes, however many control messages come |
| Credential.IdIsThreeBytes | crates/server/src/keystore.rs:188-198 | two ids are equal if and only if the last three of the five bytes are |
| Credential.IdSpells | crates/server/src/keystore.rs:188-198 | an id spells, in the base of its alphabet, the last three of the five bytes and two bytes of zeros |
| Credential.IdEndsInZeros | crates/server/src/keystore.rs:188-198 | the last three characters of an id are always zeros |
| Credential.IdIsValid | crates/server/src/keystore.rs:188-198 | every id made from random bytes passes the check of the parser |
| Credential.ParseOfFormat | crates/server/src/keystore.rs:217-241 | parsing a formatted credential returns its kind, id and secret, also when the secret contains underscores |
| Credential.FormatOfParse | crates/server/src/keystore.rs:217-241 | whatever parses is the formatting of its parts, which are valid |
| Credential.ParsesWhen | crates/server/src/keystore.rs:217-241 | a string parses to a kind, id and secret if and only if it is `atpc_`, `sk` or `dv`, an underscore, eight characters of the alphabet of ids, an underscore and forty-three of base64url |
| KeyStore.LoadOfSave | crates/server/src/keystore.rs:651-749 | loading a saved list restores the same map |
| KeyStore.SortedList | crates/server/src/keystore.rs:714-717 | the records are listed by creation, each exactly once |
| KeyStore.NewKeyFor | crates/server/src/keystore.rs:409-451 | a new key has an unused valid id, the drawn salt, the hash of its own secret, the time it was made, no use or revocation, and the name, kind, role, scopes, device and expiry that were asked for |
| KeyStore.NewKeyWhen | crates/server/src/keystore.rs:409-425 | a key is made if and only if the generator gives a secret, a salt and an id that is not taken, and it gets the first such id |
| KeyStore.RetiresWhen | crates/server/src/keystore.rs:459-597 | revoke and delete refuse exactly a key that is not there and the only one left that lets an administrator in; otherwise they mark that key as revoked, or remove it, and touch no other |
| KeyStore.KeyStore.IssueKey | crates/server/src/keystore.rs:400-453 | the answer, and the records in memory and on disk, also when saving fails |
| KeyStore.KeyStore.RevokeKey | crates/server/src/keystore.rs:459-489 | the answer, and the records in memory and on disk, with the guard of the last admin key |
| KeyStore.KeyStore.RotateKey | crates/server/src/keystore.rs:495-564 | the answer, and the records in memory and on disk: the successor and the retired key |
| KeyStore.KeyStore.DeleteKey | crates/server/src/keystore.rs:568-597 | the answer, and the records in memory and on disk, with the guard of the last admin key |
| KeyStore.KeyStore.VerifyCredential | crates/server/src/keystore.rs:355-396 | the first check that fails names the error; a success notes the use at most once a minute |
| KeyStore.AlwaysAnAdmin | crates/server/src/keystore.rs:400-597 | from a store with an unrevoked admin secret key no run of issue, revoke, rotate, delete, verify and restart reaches one without, in memory or on disk, whichever saves fail; every record stays under its own id |
| KeyStore.SavedSurvives | crates/server/src/keystore.rs:651-749 | a change that was saved is there after a restart, and one that could not be saved is gone |
| KeyStore.NothingLost | crates/server/src/keystore.rs:651-749 | as long as every save succeeds, a restart after any run loses nothing |
| KeyStore.OwnCredential | crates/server/src/keystore.rs:355-396 | the verdict on the credential of a stored record with its right secret, in all cases |
| KeyStore.JudgedInOrder | crates/server/src/keystore.rs:355-396 | the verdict on any well-formed credential: an unknown id, another kind, a secret with another hash, a revoked and an expired key are refused as such, in that order, and all others accepted |
| KeyStore.AcceptedWhen | crates/server/src/keystore.rs:355-396 | a string is accepted for a record if and only if it is the credential of that stored record with a secret that hashes to what is stored, and the record is neither revoked nor expired |
| KeyStore.BadFormatWhen | crates/server/src/keystore.rs:217-241 | a string is refused as badly formed if and only if it is the credential of no kind, id and secret |
| KeyStore.UseIsNoted | crates/server/src/keystore.rs:624-648 | an accepted credential leaves the time of its use, in memory and if it can be saved on disk, if none was noted for the key in the 60 seconds before |
| KeyStore.NotesAreAMinuteApart | crates/server/src/keystore.rs:624-648 | over any run between two restarts the stored time of last use of a key changes at most once in 60 seconds |
| KeyStore.IssuedKeyLives | crates/server/src/keystore.rs:400-597 | in the store, a new credential is unknown before it is issued, accepted until it expires, refused as revoked once revoked and unknown once deleted; only the last key that lets an administrator in stays as it was |
| KeyStore.RotationHandsOver | crates/server/src/keystore.rs:495-564 | in the store, after a rotation the new credential is accepted, with all that was granted to the one before, and that one is revoked at once or accepted exactly until its grace, of 24 hours by default, is over |
| KeyStore.OthersUnaffected | crates/server/src/keystore.rs:355-597 | issue, revoke, rotate, delete and verify leave the verdict on every credential of a key they are not about as it was, at any later time |
| KeyStore.VerifyChangesNoVerdict | crates/server/src/keystore.rs:355-396 | verifying a credential changes no later verdict on any, but for the time of last use |
| KeyStore.GuardCountsExpiredKeys | crates/server/src/keystore.rs:471-597 | with an expired and a usable admin key, the guard lets the usable one be revoked or deleted |
| KeyStore.UsableAdminLeft | crates/server/src/keystore.rs:459-597 | a revocation or deletion takes the last usable admin key if and only if the key is that one and the guard still counts another |
| Enrollment.EnrollmentStore.IssueChallenge | crates/server/src/enrollment_store.rs:133-174 | the answer and the whole new state, refusals and failed randomness included |
| Enrollment.EnrollmentStore.ConsumeChallenge | crates/server/src/enrollment_store.rs:178-193 | the challenge is removed whether or not it has expired |
| Enrollment.EnrollmentStore.CreateOrRefreshPending | crates/server/src/enrollment_store.rs:195-259 | the answer and the whole new state, the same in whatever order the map is walked |
| Enrollment.CreateCases | crates/server/src/enrollment_store.rs:205-239 | with devices and keys paired, any match found by walking the map decides the outcome |
| Enrollment.AcceptedWhen | crates/server/src/enrollment_store.rs:205-239 | a request is accepted if and only if every live record with its device or its key has both, and there is one or room for another; and which error it gets otherwise |
| Enrollment.KeyChangeRefusedUntil | crates/server/src/enrollment_store.rs:195-259 | a device that was accepted is refused under another key exactly until the full time after its last request is over |
| Enrollment.AcceptedRequest | crates/server/src/enrollment_store.rs:239-257 | an accepted request leaves one record of the device with its key, facts, capabilities and address, good for the full time and counted up to the largest count; a known device keeps its id, its key and its first request, and no other record changes |
| Enrollment.RunIsPaired | crates/server/src/enrollment_store.rs:133-259 | starting empty with fresh ids, live records always pair devices with key fingerprints one to one, and never exceed `max_pending` |
| Enrollment.ChallengeAgreesWithCreate | crates/server/src/enrollment_store.rs:133-259 | a challenge is refused with the same error, at the same time, as the enrollment it would lead to |
| Enrollment.ConsumptionBalance | crates/server/src/enrollment_store.rs:178-193 | however calls interleave, an id is consumed with success at most as often as it was issued, less the challenge still stored |
| Enrollment.ConsumedAtMostOnce | crates/server/src/enrollment_store.rs:176-193 | a challenge whose id was issued once is consumed with success at most once |
| Enrollment.ConsumedBeforeExpiry | crates/server/src/enrollment_store.rs:178-193 | a success returns a challenge that was issued under that id and whose expiry has not come |
| Enrollment.IssuedIsConsumed | crates/server/src/enrollment_store.rs:133-193 | an issued challenge is consumed with success by the next attempt under its id, whatever other calls come between, for at least 120 seconds or the longer time that is set |
| MetaRecords.TerminalMetaStore.RecordRegistration | crates/server/src/meta_store.rs:230-261 | the new records and version, and the snapshot handed to the writer |
| MetaRecords.TerminalMetaStore.UpdateMeta | crates/server/src/meta_store.rs:279-335 | the new records and version, the record returned, and the snapshot handed to the writer |
| MetaRecords.TerminalMetaStore.RemoveMeta | crates/server/src/meta_store.rs:338-359 | an absent record changes nothing, not even the version |
| MetaRecords.CleanTags | crates/server/src/meta_store.rs:309-319 | the loop over the tags |
| MetaRecords.CleanTagsAreClean | crates/server/src/meta_store.rs:309-319 | every stored tag is trimmed, not empty and there once, and a tag is stored if and only if some given tag trims to it |
| MetaRecords.TrimOf | crates/server/src/meta_store.rs:302-319 | trimming white space, a text that does not begin or end with any, and white space gives that text |
| MetaRecords.TrimParts | crates/server/src/meta_store.rs:302-319 | and every text is white space, its trimmed text and white space |
| MetaRecords.EditTakesEffect | crates/server/src/meta_store.rs:279-335 | an edit stores each text it gives as what is left between white space at its ends, or clears it when nothing is left, and given tags as their first occurrences in order; what it does not give stays, or is empty in a new record, and no other record changes |
| MetaRecords.ChangesKeepTidy | crates/server/src/meta_store.rs:230-359 | over any changes, records stay under their own ids, with names and notes that are absent or trimmed and not empty, and with clean tags |
| MetaRecords.EditIsIdempotent | crates/server/src/meta_store.rs:279-335 | an edit sent twice is the same as once, but for its time |
| MetaRecords.EditWithOwnValues | crates/server/src/meta_store.rs:279-335 | writing back what the store shows changes nothing but the time |
| MetaRecords.ChangesAreSeparate | crates/server/src/meta_store.rs:230-335 | registrations keep what operators set, edits keep what terminals reported, and other records stay |
| MetaRecords.ChangeIsMutation | crates/server/src/meta_store.rs:230-359 | each change that takes effect is one mutation of the store the writer serves, and its snapshot is the next version of the history |
| MetaStore.PersistSnapshotForShutdown | crates/server/src/meta_store.rs:496-532 | up to four attempts, ending with the first success |
| MetaStore.RunWriter | crates/server/src/meta_store.rs:593-757 | the writer loop with its inner drain loop does what its events do one after the other |
| MetaStore.HandleKeepsInv | crates/server/src/meta_store.rs:593-757 | handling a command keeps: a deadline is set exactly when something is pending, every version received is on disk or pending, and the version on disk does not decrease |
| MetaStore.ExpireKeepsInv | crates/server/src/meta_store.rs:593-757 | so does the expiry of the deadline, whichever write fails |
| MetaStore.ExpiryWrites | crates/server/src/meta_store.rs:677-699 | when the deadline expires with a snapshot pending and its write succeeds, nothing is pending, no deadline is set and every version received is on disk; otherwise it stays pending with a new deadline, and one write is used up |
| MetaStore.HangUpWrites | crates/server/src/meta_store.rs:612-628 | when the queue is closed with a snapshot pending and its write succeeds, every version received is on disk |
| MetaStore.FlushAnswersWhen | crates/server/src/meta_store.rs:593-757 | a flush is answered Ok, and leaves nothing pending, if and only if the newest version is on disk already or its write succeeds; otherwise that version is pending with a new deadline |
| MetaStore.ShutdownAnswersWhen | crates/server/src/meta_store.rs:496-532 | a shutdown is answered Ok if and only if the newest version is on disk already or one of the next four writes succeeds |
| MetaStore.RunKeepsInv | crates/server/src/meta_store.rs:593-757 | over any run, whatever order snapshots arrive in and whichever writes fail, also after the rename: no update is stranded, and whoever was answered Ok finds a version at least as new on disk, then and ever after |
| MetaStore.DeadlineReachesDisk | crates/server/src/meta_store.rs:612-699 | after any run: when the deadline expires or the queue is closed, and the write succeeds, every version received is on disk |
| MetaStore.GoodDiskAnswersOk | crates/server/src/meta_store.rs:593-757 | over any run in which every write succeeds, every flush and shutdown is answered Ok |
| MetaStore.EachCallIsAnswered | crates/server/src/meta_store.rs:593-757 | every flush and shutdown the running thread receives is answered, once |
| MetaStore.DiskNeverRegresses | crates/server/src/meta_store.rs:447-494 | the version on disk never decreases |
| MetaStore.FlushIsDurable | crates/server/src/meta_store.rs:361-373 | once the flush or shutdown that was called at some step is answered Ok, the file reloads to a version of the records that existed, at least as new as the one current at that step |

## Left out

- Sockets, TLS, HTTP and MCP routing, async runtimes and startup: plumbing over libraries.
- GUI, tray, packaging, screen capture, input injection and operating system calls: foreign calls with no deep properties here.
- SHA-256, base64, JSON and JPEG: parameters or abstract lists. Hashes are functions that are not assumed injective; a secret made of random bytes is assumed to be 43 characters of base64url.
- Files: open, append, sync, rename and remove are atomic steps with an outcome; nothing is said about other programs that write the same files, nor about permissions.
- Poisoned locks and panics: every lock is taken, and a random generator that fails where the source calls `expect` is not modelled.
- Versions of metadata snapshots and request counters are unbounded, except where the source saturates; time is never negative.
- AuditSnapshot.SnapshotIsRunWhen: file identity always answers, rotations do not fail, and no archives beyond the retained ones are left from an earlier setting. On a platform that cannot compare open files a file can be opened twice.
- AuditAdmission.AfterInv: a logger without a path, whose admission state is disabled from the start, and the closing of the queue without a shutdown are not modelled.
- AuditThread.WriterThread.RunWriter: the clock of the periodic flush is a parameter; a flush may be due after any batch.
- AuditTail.ReadRecentPath: the files open and can be read; a snapshot that fails to open gives no records in the source, and a file that cannot be read gives none of its own.
- ProcessRegistry.RegisterKeepsInStep: ids are new when registered, as the source draws them from a counter.
- Tail.ReadTailLinesFromFile: lines are bytes; the source decodes each window with replacement, which never adds or removes a line feed.
- MetaStore.FlushIsDurable: no bound on staleness is claimed, as the drain loop of the source does not look at the deadline.
- TileHash.ComputeBlockHashesSized: frames whose sizes overflow 32-bit block coordinates or 64-bit offsets are not modelled; sizes are unbounded. Hash collisions for more than one changed word are not excluded, as they exist.
- TileHash.OneWordSendsFrame: the ratio is a real number; for tile counts of 32 bits the comparison with 0.005 in double precision has the same outcome.
- Scale.RgbaToRgbScaled: the output size is a parameter, since its computation rounds floating point.
- AuthLimiter.PruningIsInvisible: time does not go backwards between calls, as with a monotonic clock.
- Directory.SearchFiles: names are matched by their lower-cased form, which is given; entries come in a fixed order, and the tree does not change during the walk. A cycle of symbolic links is its unfolding down to the depth limit.
- `list_directory`, `write_text_file` and metadata of entries: easy members.
- WsWriter.AtMostTwoOvertake: the cooperative budget of the runtime, which can make a channel look empty for one poll, is not modelled.
- KeyStore.AlwaysAnAdmin: creating the store from a bootstrap key is left out; runs start from a store that has an admin key.
- KeyStore.SortedList: records created at the same time are listed in either order, as in the source.
- Enrollment.RunIsPaired: the in-memory state only; snapshots are written outside the lock with no version check. The order of `list_pending` is left out.
- Enrollment.CreateOrRefreshPending: a public key is known by its fingerprint of eight bytes, as in the source; keys that share one are the same key to the store.
- `router.rs`, `session.rs`, `desktop_ticket.rs`, `stream.rs` and `messages.rs`: single-step map operations and fixed codecs.
