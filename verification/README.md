# Verification of the golem-harness ingest path

This project models the server that takes device-signed telemetry frames, lets each of them
through at most once, removes personal data from them and appends them to rotating JSONL files.
It models the code from `SignEnvelope` on the device to the bytes in the storage directory, and
proves what that code keeps over every history, interleaving, failure and restart.

| files | what they model |
|---|---|
| `Text.dfy`, `WhiteSpace.dfy`, `Clock.dfy`, `TimeLine.dfy`, `Trajectory.dfy` | byte strings, numerals, lines, sorting and trimming; UTC instants, the time line they count and their printed forms; the frame records |
| `Storage.dfy`, `JSONLSinkObject.dfy` | the sink as a transition function with failing system calls, and as the object with its fields and loops |
| `StorageConservation.dfy`, `StorageRestart.dfy`, `StorageFaults.dfy` | nothing is lost; the handle is only a cache; which failing calls make that show |
| `StorageBytes.dfy`, `StorageNames.dfy` | the bytes of the files and the lines read back from them; archive names, and which calls rotate |
| `StorageBounds.dfy`, `StorageSuccess.dfy` | file bounds and single-day files; when a write without failing calls succeeds |
| `Replay.dfy`, `MemoryGuard.dfy`, `SqliteGuard.dfy`, `GuardRefinement.dfy` | a log-based meaning of replay protection, and the two guards that refine it |
| `Signing.dfy`, `Verifier.dfy`, `VerifierErrors.dfy`, `EndToEnd.dfy` | canonical bytes and their parser, the envelope checks, the error of each refusal, device to verdict |
| `Sanitize.dfy`, `SanitizePaths.dfy`, `SanitizeReport.dfy` | the tree transform node by node, field paths, and the names in the report |
| `SanitizePipeline.dfy`, `SanitizeDecisions.dfy` | the pipeline objects, and every outcome of the pipeline |
| `Ingest.dfy`, `IngestTheorems.dfy`, `IngestContent.dfy`, `IngestOrder.dfy` | concurrent requests as a state machine with crashes, what it stores, line by line, and in which order |
| `IngestExample.dfy` | a server and two envelopes whose lines come out in the wrong order |
| `IngestService.dfy` | one request end to end, when it is accepted, and each other reply |

Conventions. A Go string or byte slice is a `string` with one char per byte. Code that updates
fields is a class whose methods compute a transition function; the theorems are about that
function. Every system call of the sink and every statement of the SQLite guard can be made to
fail. Ed25519, SHA-256, JSON, the seven patterns, the entity recognizer and the vision planner are
parameters; `Signing.Sound` states all that is assumed of the cryptography. The history
variables `archives`, `admitted`, `storedBy` and `failed`, and the frame and the instant kept with
each stored line, record what happened and decide nothing. One clock reading serves a whole write, so a file's modification day is the day of its
last line.

Where the code and its comments differ, the model follows the code: `MaxBytes` is documented as
rotating when the file reaches the threshold (`server/internal/storage/storage.go:25`), while the
code rotates when the next line would pass it (`server/internal/storage/storage.go:132`).

Three properties hold only under a condition, and the project proves which.

- Closing the sink is unobservable, over every configuration, directory and history in which
  only calls of a set F fail, if and only if F holds none of close, the stat that precedes a
  rotation decision, open, the stat of the opened file, and write
  (`StorageFaults.TransparentExactly`); each of the five comes with a pair of runs that differ.
- The memory guard refines the SQLite guard on exactly the histories in which it accepts no
  sequence above 2^63 - 1 (`GuardRefinement.RefinementExactly`): the column is a signed 64-bit
  integer, so SQLite fails where the memory guard accepts.
- One device's lines are in sequence order if and only if its writes kept the order of admission
  (`IngestOrder.OrderExactly`). They do if no attempt is admitted while another one of the same
  device is in flight, as when every device waits for its reply, whatever the other devices do
  (`IngestOrder.SerialStoresInOrder`). Without that nothing keeps the order: two ready attempts of
  one device can always be written the wrong way round (`IngestOrder.OverlapCanInvert`), and any
  run from the start goes on, without a failure, to one that does it
  (`IngestOrder.InversionIsReachable`; `IngestExample.OutOfOrderExample` is one, in eight steps
  from an empty server).

## Model

| member | source | states |
|---|---|---|
| `JSONLSinkObject.JSONLSink.WriteSanitizedFrame` | server/internal/storage/storage.go:71-102 | the whole new directory, handle and error of one write, for any set of failing system calls |
| `JSONLSinkObject.JSONLSink.EnsureWriter` | server/internal/storage/storage.go:126-181 | rotation decided from the cached size and day, or from the file on disk, then the file opened |
| `JSONLSinkObject.JSONLSink.RotatePathLocked` | server/internal/storage/storage.go:190-214 | the loop renames to the first free of the hundred candidate names, or changes nothing |
| `JSONLSinkObject.JSONLSink.RotateLocked` | server/internal/storage/storage.go:183-188 | the handle is closed even when closing or renaming then fails |
| `JSONLSinkObject.JSONLSink.CloseFile` | server/internal/storage/storage.go:236-245 | the handle, size and day are cleared whether or not the close reports an error |
| `JSONLSinkObject.JSONLSink.Close` | server/internal/storage/storage.go:104-109 | closing clears the handle and keeps the directory and fails iff the close of an open handle does; closing again does nothing and succeeds |
| `JSONLSinkObject.JSONLSink.Open` | server/internal/storage/storage.go:54-69 | an empty path, a directory that cannot be made and a negative limit are refused in this order; otherwise a closed sink over the directory as it is |
| `StorageConservation.Conservation` | server/internal/storage/storage.go:71-102 | after any history, archives in rotation order and then the active file read as the initial contents followed by the stored lines in order; other files are untouched and no archive name was taken |
| `StorageConservation.WriteConserves` | server/internal/storage/storage.go:88-101 | a line is appended at the very end exactly when the call succeeds or only its fsync fails |
| `StorageConservation.RotatePathConserves` | server/internal/storage/storage.go:190-214 | a rename never hits an existing file or the active path and keeps what the store reads as |
| `StorageConservation.ArchiveIsNotActive` | server/internal/storage/storage.go:225-234 | a rotated name is longer than the active name for every stamp and suffix |
| `StorageConservation.FreeNameIsFree` | server/internal/storage/storage.go:199-213 | the chosen candidate is unused, and giving up means that all candidates are used |
| `StorageConservation.ExhaustionLosesNothing` | server/internal/storage/storage.go:199-213 | without failing calls rotation gives up iff all hundred names are taken, and then nothing has changed |
| `StorageBytes.StoreReadsBack` | server/internal/storage/storage.go:78-101 | after any history the store's bytes are the initial ones and then each landed encoding with a newline, in call order; its lines read back as exactly those encodings iff none holds a newline |
| `StorageBytes.BytesCounts` | server/internal/storage/storage.go:132-171 | the sizes that the size rule compares are numbers of bytes |
| `StorageNames.RotationExactly` | server/internal/storage/storage.go:126-214 | after any history with benign failures a call moves the active file away iff daily rotation is on and its last line is of another date, or it is not empty and lacks room; it gets the first free name with the date or the instant as its stamp, and else the line extends it |
| `StorageNames.RotatedNames` | server/internal/storage/storage.go:225-234 | the stamp goes between what precedes and what follows the last dot; without a dot the archive ends in .jsonl |
| `StorageRestart.RestartTransparency` | server/internal/storage/storage.go:126-181 | two histories that differ only in closes and restarts leave the same directory and gave every write the same answer |
| `StorageRestart.HandleIsOnlyACache` | server/internal/storage/storage.go:126-181 | any history refines a reference sink that keeps nothing between calls |
| `StorageRestart.SameDecision` | server/internal/storage/storage.go:130-163 | cached and on-disk rules agree on whether to rotate and on the stamp |
| `StorageFaults.TransparentExactly` | server/internal/storage/storage.go:71-181 | closes and restarts are unobservable while only calls of F fail iff F holds none of close, stat, open, stat of the opened file, and write |
| `StorageFaults.TelltaleTells` | server/internal/storage/storage.go:71-181 | each of those five calls alone has two histories with the same writes that end in different stores or answers |
| `StorageSuccess.WriteSucceedsExactly` | server/internal/storage/storage.go:71-102 | without failing calls a write succeeds iff the frame is not refused and a rotation, if the call makes one, finds one of the hundred names free |
| `StorageSuccess.SecondWriteSucceeds` | server/internal/storage/storage.go:126-214 | after it, a second write at the same instant can only rotate by size, and succeeds if two names of that stamp were free |
| `StorageSuccess.RefusalExactly` | server/internal/storage/storage.go:71-86 | cancellation, an unsafe frame and a failed encoding are refused in this order before any file is touched |
| `StorageBounds.NextFitBound` | server/internal/storage/storage.go:130-164 | every file fits or is one line, no archive had room for the next file's first line, and k files mean more than floor(k/2) * MaxBytes bytes |
| `StorageBounds.SingleDayFiles` | server/internal/storage/storage.go:126-181 | with daily rotation the lines of every file were written on one UTC date, and the eight digits in every archive's name read back as it, under any failures and clock jumps |
| `StorageBounds.NameStartsWithStamp` | server/internal/storage/storage.go:216-234 | an archive name is the stem, a dash and the stamp, so it begins with the stamp's day |
| `MemoryGuard.MemoryReplayGuard.CheckAndRecord` | server/internal/auth/auth.go:118-148 | the new device map and the answer of one call |
| `MemoryGuard.RunMirrors` | server/internal/auth/auth.go:118-148 | on every history the answers are those that the log of accepted calls prescribes |
| `MemoryGuard.RunInvariant` | server/internal/auth/auth.go:126-147 | accepted sequences rise strictly from 1, frame ids are distinct, the seen set is exactly the accepted ids, no larger than the limit or the maximum sequence, which is the last accepted one |
| `MemoryGuard.ErasureInMemory` | server/internal/auth/auth.go:118-148 | deleting the rejected calls changes no remaining answer and no device's state |
| `SqliteGuard.SQLiteReplayGuard.CheckAndRecord` | server/internal/auth/replay_sqlite.go:69-128 | the tables and the answer for a failure at any statement and for any 64-bit sequence; every return before the commit rolls back |
| `SqliteGuard.FailureLeavesTables` | server/internal/auth/replay_sqlite.go:80-127 | the tables change only in a call that reached its commit, and then by exactly its two rows |
| `SqliteGuard.PairsSurviveRuns` | server/internal/auth/replay_sqlite.go:111-123 | over runs with failures and reopens a device has a device_state row iff it has a seen_frames row |
| `SqliteGuard.NeverTwice` | server/internal/auth/replay_sqlite.go:86-127 | no frame id and no sequence of a device is accepted twice, across reopens and commits of unknown outcome |
| `SqliteGuard.SequencesRiseDespitePruning` | server/internal/auth/replay_sqlite.go:41-44 | with seen_frames rows removed arbitrarily, accepted sequences still rise strictly |
| `SqliteGuard.PruningReopensFrameReuse` | server/internal/auth/replay_sqlite.go:41-44 | pruning lets a frame id be accepted again at a new sequence, which the unpruned guard refuses |
| `SqliteGuard.RunMirrors` | server/internal/auth/replay_sqlite.go:69-128 | without failures the answers are those of a log bounded only by the column's largest sequence, and the tables are a function of it |
| `SqliteGuard.ErasureInTables` | server/internal/auth/replay_sqlite.go:86-109 | deleting the rejected calls changes no remaining answer and not one row |
| `GuardRefinement.RefinementExactly` | server/internal/auth/auth.go:137-147 | answers agree until a device is at its limit, after which the memory guard accepts nothing and calls a replay only what SQLite does, iff the memory guard accepts no sequence above the column's largest |
| `GuardRefinement.MemoryRefinesSqlite` | server/internal/auth/auth.go:137-147 | where that condition holds, each device's calls accepted by the memory guard are those accepted by SQLite, cut off at the limit |
| `GuardRefinement.GuardsDoNotInterfere` | server/internal/auth/auth.go:126-147 | a device's answers are those of its own calls run alone, for both guards |
| `GuardRefinement.InterleavingIrrelevant` | server/internal/auth/replay_sqlite.go:86-109 | any two interleavings of the same per-device calls get each device the same answers, from both guards |
| `Signing.CanonicalRoundTrip` | server/pkg/signing/signing.go:39-67 | the parser recovers every covered field and any payload if and only if no string field holds a newline |
| `Signing.CanonicalInjective` | server/pkg/signing/signing.go:39-67 | equal canonical bytes mean equal covered fields and payload |
| `Signing.CanonicalLayout` | server/pkg/signing/signing.go:39-67 | the canonical bytes written out: header, ten named lines, a blank line, the payload |
| `Signing.NewlineIsAmbiguous` | server/pkg/signing/signing.go:51-66 | with a newline in a field, two different envelopes have the same canonical bytes |
| `Clock.TimeRoundTrip` | server/pkg/signing/signing.go:57 | the printed signing time, with its trailing zeros stripped, reads back as the same instant |
| `TimeLine.FractionIsShortest` | server/pkg/signing/signing.go:57 | the printed second has no fraction iff it is whole, and never a trailing zero |
| `TimeLine.ZeroIsZero` | server/internal/auth/auth.go:187-196 | the count starts at the zero time |
| `TimeLine.MonthLengths` | server/internal/auth/auth.go:191-196 | the lengths of the twelve months, and of ordinary and leap years |
| `TimeLine.TickIsOneMore` | server/internal/auth/auth.go:191-196 | the nanosecond count grows by one with each tick of the calendar, through every carry and leap year |
| `TimeLine.AfterExactly` | server/internal/auth/auth.go:191-196 | a difference of nanoseconds is the number of ticks between two instants |
| `TimeLine.NanosOrder` | server/internal/auth/auth.go:191-196 | instants compare as the calendar orders them |
| `TimeLine.DayKeyExactly` | server/internal/storage/storage.go:128-151 | two instants have the same day key iff they fall on the same UTC date |
| `TimeLine.StampReads` | server/internal/storage/storage.go:218-223 | a stamp reads back as the date, hour, minute and second of its instant |
| `Text.ValDec` | server/pkg/signing/signing.go:56 | the printed decimal sequence reads back as the same number, without leading zeros |
| `Signing.WireRoundTrip` | server/pkg/signing/proto.go:14-35 | the wire message carries every envelope faithfully, except that a zero time cannot be sent |
| `Signing.WireFields` | server/pkg/signing/proto.go:14-35 | each field read from the message is the field of the same name; a missing message or time is malformed |
| `EndToEnd.SigningSucceeds` | server/pkg/signing/signing.go:74-91 | signing succeeds on exactly the complete Ed25519 envelopes and changes only algorithm, hash and signature |
| `EndToEnd.SignedEnvelopesVerify` | server/internal/auth/auth.go:158-231 | a registered, timely, signed and transmitted envelope is accepted iff its frame id and sequence are new and the column can hold the sequence; otherwise the error is a replay or a store failure and the tables stay |
| `EndToEnd.SignedEnvelopesPassMemoryGuard` | server/internal/auth/auth.go:118-148 | the same against the memory guard, which also needs room for the device |
| `Verifier.NewStaticDeviceRegistry` | server/internal/auth/auth.go:54-66 | succeeds iff every entry is well formed; of several entries for one id the last counts |
| `Verifier.CheckIsAuthentic` | server/internal/auth/auth.go:158-256 | the ordered checks let through exactly the authentic envelopes |
| `VerifierErrors.InWindowExactly` | server/internal/auth/auth.go:188-197 | in time iff signed, at most 30 seconds ahead of the clock and at most 5 minutes or the configured time old, counted in ticks |
| `VerifierErrors.EdgesOfTheWindow` | server/internal/auth/auth.go:188-197 | without a configured time, 5 minutes old and 30 seconds ahead still pass and one nanosecond more does not |
| `VerifierErrors.ErrorsExactly` | server/internal/auth/auth.go:158-256 | each error before the guard arises iff its check is the first to fail |
| `Verifier.VerdictExactly` | server/internal/auth/auth.go:158-231 | an attempt is let in, with its two rows recorded, iff it is authentic, new and storable; else the tables stay, and an authentic replay gets its own error |
| `Verifier.DurableVerifier.Verify` | server/internal/auth/auth.go:158-231 | the tables and the error of one attempt; a failed check never reaches the guard |
| `Verifier.RejectionsLeaveNoTrace` | server/internal/auth/auth.go:158-231 | deleting every attempt that a check or the guard rejected keeps the tables and every remaining verdict |
| `Verifier.MemoryRejectionsLeaveNoTrace` | server/internal/auth/auth.go:118-148 | the same with the memory guard, up to what a device can observe |
| `SanitizePaths.TreeRefines` | server/internal/sanitize/sanitize.go:247-307 | same shape, attributes copied, and at every position each text redacted iff a pattern matches or entities are found, hashed iff neither |
| `SanitizePaths.FailsSomewhere` | server/internal/sanitize/sanitize.go:247-297 | the traversal fails iff the recognizer fails on some text at some depth |
| `SanitizePaths.RenderInjective` | server/internal/sanitize/sanitize.go:248-263 | different positions or fields never share a generated path |
| `SanitizePaths.RenderedAs` | server/internal/sanitize/sanitize.go:248-263 | how a generated path is written, field by field and child by child |
| `SanitizePaths.DroppedFieldsExact` | server/internal/sanitize/sanitize.go:127-151 | the dropped-field report is strictly sorted, names exactly the redacted fields plus the raw marker, and has exactly that length |
| `SanitizeReport.ReasonsExact` | server/internal/sanitize/sanitize.go:285-334 | reason codes are strictly sorted and name exactly the patterns that match somewhere, the redaction reason iff one does, the entity reason iff some unmatched text has entities, and the last reason |
| `SanitizeReport.RulesExact` | server/internal/sanitize/sanitize.go:285-347 | the same of the rules applied, which always name the structural rule |
| `Sanitize.UniqueLists` | server/internal/sanitize/sanitize.go:349-365 | the result is the increasing listing of the trimmed non-empty values |
| `Sanitize.UniqueInsensitive` | server/internal/sanitize/sanitize.go:349-365 | order and repetition of the input do not matter |
| `Sanitize.UniqueIdempotent` | server/internal/sanitize/sanitize.go:349-365 | applying it again changes nothing |
| `Text.LessExactly` | server/internal/sanitize/sanitize.go:363 | strings are sorted by the first byte in which they differ |
| `WhiteSpace.TrimSpaceExactly` | server/internal/sanitize/sanitize.go:353 | trimming gives s iff s is trimmed and the text is s with white space around it |
| `WhiteSpace.SpaceExactly` | server/internal/sanitize/sanitize.go:353 | what is taken for white space is the UTF-8 form of a code point with the White_Space property, and nothing else |
| `Text.DecIsUnique` | server/internal/sanitize/sanitize.go:367-380 | the decimal form is the only numeral without leading zeros for its number |
| `SanitizePipeline.StrconvI` | server/internal/sanitize/sanitize.go:367-380 | no 64-bit index underruns the 20-byte buffer, and the result is the decimal form |
| `SanitizePipeline.UniqueStrings` | server/internal/sanitize/sanitize.go:349-365 | the loop with its seen set computes that listing |
| `SanitizePipeline.TextRedactor.HasRegexPii` | server/internal/sanitize/sanitize.go:309-334 | true iff some pattern matches; the rules, reasons and field it records |
| `SanitizePipeline.TextRedactor.SanitizeText` | server/internal/sanitize/sanitize.go:285-307 | hash, status and recorded effects of one field, or an error iff the recognizer fails on it |
| `SanitizePipeline.TextRedactor.Node` | server/internal/sanitize/sanitize.go:247-283 | the stateful traversal returns the node-by-node result and adds exactly its effects |
| `SanitizePipeline.TextRedactor.Rules` | server/internal/sanitize/sanitize.go:340-347 | the listing of the rule set, whatever order the map is iterated in |
| `SanitizePipeline.Pipeline.constructor` | server/internal/sanitize/sanitize.go:77-98 | trimmed non-empty package names; a configured name replaces a built-in reason |
| `SanitizePipeline.Pipeline.Process` | server/internal/sanitize/sanitize.go:100-199 | fills the defaults and returns the decision, frame and report of the settings in force |
| `SanitizePipeline.AcceptExactly` | server/internal/sanitize/sanitize.go:111-138 | a frame comes out iff the package is allowed and not sensitive, no recognizer call fails and vision succeeds |
| `SanitizeDecisions.PackageRefused` | server/internal/sanitize/sanitize.go:111-120 | the three refusals by package, with decision, reason and kill-switch reason |
| `SanitizeDecisions.RecognizerErrorDrops` | server/internal/sanitize/sanitize.go:122-126 | a recognizer error at any depth drops the frame and leaves only the reason |
| `SanitizeDecisions.VisionErrorExactly` | server/internal/sanitize/sanitize.go:127-138 | a failing vision plan drops the frame, and the report names what the traversal had found |
| `SanitizePipeline.AcceptedFrame` | server/internal/sanitize/sanitize.go:154-198 | an accepted frame keeps its identity, time stamps, signature data and metadata, refines the tree, names exactly the dropped fields, and passes the sink's check iff the clock is not zero |
| `SanitizePipeline.AcceptedParts` | server/internal/sanitize/sanitize.go:136-190 | its screenshot reference has the planned boxes, and a status where it had none |
| `SanitizeDecisions.AcceptedReport` | server/internal/sanitize/sanitize.go:127-198 | frame, report and reply carry the same sorted lists of exactly the rules and reasons that the texts of the tree give |
| `IngestTheorems.BindExactly` | server/internal/ingest/service.go:102-124 | binding succeeds iff each identifier is absent or the envelope's and the sequence is the envelope's, 0 included |
| `IngestTheorems.BindKeepsPayload` | server/internal/ingest/service.go:54-67 | a bound frame has the envelope's algorithm, key id and payload hash, marked verified, and but for the identifiers every other field as decoded |
| `IngestTheorems.AtMostOnce` | server/internal/ingest/service.go:41-100 | over every interleaving, failure and crash each new line is the encoding of the accepted output for its own authentic, recorded envelope, with its five identity fields, its signature data and the rest of its payload, and no two share a (device, frame id) or a (device, sequence) |
| `IngestContent.StoredLines` | server/internal/ingest/service.go:88-91 | the lines cut from the files are the initial ones and then exactly the encodings of the new frames |
| `IngestContent.StoredIsSanitized` | server/internal/ingest/service.go:69-91 | each stored frame refines its payload's tree at every position, and its three lists name exactly what was found there |
| `IngestTheorems.RecordedBeforeWritten` | server/internal/ingest/service.go:48-91 | the guard had committed an attempt before its line is written |
| `IngestTheorems.FailedIsNeverStored` | server/internal/ingest/service.go:54-91 | after a failed bind or sanitize, a write that put nothing in the file, or a crash, no later line carries that device and frame id |
| `IngestOrder.OrderExactly` | server/internal/ingest/service.go:48-91 | lines are in sequence order iff writes kept the order of admission |
| `IngestOrder.SerialStoresInOrder` | server/internal/ingest/service.go:48-91 | if no two attempts of one device overlap, each device's new lines have strictly rising sequences, whatever other devices do and across failures and restarts |
| `IngestOrder.OverlapCanInvert` | server/internal/ingest/service.go:48-91 | from every state with two ready attempts of one device, two writes without a failure store both lines in the wrong order |
| `IngestOrder.InversionIsReachable` | server/internal/ingest/service.go:41-100 | any run from the start can go on without a failure to admit two attempts of one device and store both out of order |
| `IngestExample.OutOfOrderExample` | server/internal/ingest/service.go:41-100 | two envelopes of one device on an empty server, and the eight steps without a failure after which the lines are out of sequence order |
| `IngestService.BindEnvelopeToFrame` | server/internal/ingest/service.go:102-124 | fills empty identifiers in place and compares all five |
| `IngestService.Service.IngestFrame` | server/internal/ingest/service.go:41-100 | the tables, the store and the reply of one request over the guard, pipeline and sink objects |
| `IngestService.ServeIsSteps` | server/internal/ingest/service.go:41-100 | one request alone is four steps of the machine; a reply of accept means that its line is stored |
| `IngestService.ServeAcceptsExactly` | server/internal/ingest/service.go:41-100 | the reply is accept iff the envelope is authentic, new and recorded, the payload decodes and binds, the package is allowed, no recognizer fails and vision succeeds, the request is not canceled, the clock is not zero, the frame encodes and the sink takes the line |
| `IngestService.RepliesExactly` | server/internal/ingest/service.go:41-100 | each reply by the first thing that stands in the way, with its reasons; the store changes only by the write |
| `IngestService.WritesExactly` | server/internal/ingest/service.go:88-99 | a frame that passes is written, and the reply repeats its reason codes |
| `IngestService.TakesWithoutFaults` | server/internal/storage/storage.go:126-181 | without failing calls the sink takes the line iff a rotation it has to make finds a name |

## Left out

- gRPC server and client, TLS, peer certificates, health endpoints, flags and signals: plumbing around the path.
- Generated protobuf code: the wire message is a record with an optional timestamp.
- Regular expressions, SHA-256, Ed25519, hex and JSON: parameters, with the assumptions of `Signing.Sound` only.
- The SQLite engine, WAL and busy timeout: a transaction is a copy of two tables that is committed or dropped.
- JSONLSinkObject.JSONLSink.WriteSanitizedFrame: a failing write puts no byte in the file; a line that was partly written before the error is not modelled.
- File descriptors, directories, symbolic links and path cleaning: files are entries of one directory, by base name.
- 64-bit overflow of file sizes: sizes are unbounded.
- Clocks: instants have four-digit years; the sink reads its clock once per write and the file system agrees on the day.
- Logging, status codes, request ids, `RequiresClientCert` and configuration defaults: single branches with little to prove.
- Missing dependencies of the service and verifier and the nil checks on guards and envelopes: the objects are always there.
- The entity recognizer and the vision planner are functions of their input; one that answers differently on a second call is not modelled.
- SqliteGuard.SQLiteReplayGuard.CheckAndRecord: that binding a sequence above 2^63 - 1 makes the upsert fail follows Go's documented database/sql rule, which refuses unsigned values with the high bit set; the driver's own code is not part of this model.
- SanitizePipeline.TextRedactor.Node: after an error the accumulators are not described, because the code throws them away.
