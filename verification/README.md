# CoreKit protocols, codecs and graph checks in Dafny

A model of the parts of CoreKit whose correctness depends on loops, interleavings or arithmetic, and
proofs of what those parts are for. Each file holds one component. A reference definition says what
the component means; methods follow the source's loops and updates and are proved against it; lemmas
prove properties of the reference over every input, run or reachable state.

| file | component |
|---|---|
| `StreamFraming.dfy` | line framing and event dispatch of streamed chat responses, pulled and pushed |
| `SharedBody.dfy` | the blocking body over an asynchronous worker: two threads, two one-slot channels, a drop that cancels, closes and joins |
| `GoSlices.dfy`, `OpenAiResponses.dfy` | Go's JSON decoding into reused slice slots, and the OpenAI response through two levels of it |
| `NumberScanner.dfy` | the raw scan for non-finite numbers, against the JSON grammar (RFC 8259) |
| `BodyTruncation.dfy` | trimming of an error body by a four-byte UTF-8 window (RFC 3629) |
| `AtomicWrite.dfy` | the atomic file write under crashes and failing system calls |
| `SafeRemove.dfy` | the quarantined removal among other processes and reused inode numbers |
| `Durations.dfy` | the signed duration parser and printer, with i128 arithmetic and the u32 exponent |
| `ConfigLayers.dfy` | defaults, two files and the environment merged over JSON trees |
| `Exchange.dfy` | the lockstep exchange of three threads with a child process |
| `DependencyGraph.dfy` | the cycle check and the transitive dependencies of work items |
| `LockClosure.dfy` | the closure of workspace crates in a lockfile |
| `GoImports.dfy` | the one-pass scanner for Go import declarations |
| `Common.dfy` | shared types |

Concurrency is modelled by steps: `SharedBody.Execute` and `Exchange.Execute` run any list of steps of
the parties, so a lemma about the state they return is a lemma about every reachable state. Crashes and
outside processes are modelled by quantifying over everything they may leave behind
(`AtomicWrite.CrashImage`, `SafeRemove.LegalMove`), failing system calls by a list of faults that a
contract quantifies over.

Where the code is not what a reader might expect, the model follows the code and says so:

- A duration whose fraction has 2^32 digits or more is scaled by the length modulo 2^32
  (`LongFractionMisread`); `ParseRoundsDownIff` says exactly which texts are still read as the sum of
  their segments, each rounded down.
- The list returned by the lockfile closure can depend on the order of the roots. `SameListIff` says
  exactly when it does not: when packages that the sort cannot tell apart are taken in the same order.
  A lockfile in which no two keys tie is enough (`RootOrderIrrelevant`); a tie across two roots always
  makes the list differ (`TieDecides`, with `EmptySourceTies` as an instance). Whether it does
  can be read off the runs of the single roots (`SameListByRoots`, `TwoOrdersIff`).
- An atomic write can leave its temporary behind: when `fchmod` fails, and when the guarded block fails
  before its rename and the clean-up, whose result is ignored, fails as well. The contract of
  `WriteFileAtomic` states this as an equivalence over the calls that fail, and `LeftBehind` is such a
  run. A failed sync of the directory is an error too, but leaves the new bytes in place; a crash may
  still undo the call, and a later call may start there (`Retried`). So the contract says what a crash
  leaves in terms of what a crash before the call could have left; that is the old file or all of the
  new bytes when the old file was on the medium.
- The removal overwrites an occupied quarantine name when the check for that name fails for a reason of
  its own: `Explained` says exactly which file is lost and when, and `OccupantLost` is such a run.
- A worker of the blocking client that panics ends the body early, and no read reports it
  (`PanicEndsBody`); `EndOfBodyIsComplete` says exactly when the end of the body is the whole body.
- An import path written with escapes is not found. One written in backquotes is not found either, and
  outside a group the scanner then takes the inside of literals for the outside: `RawPathLosesStep`
  says what it returns from there on, `LaterImportsLost` and `LiteralReported` what that can mean. A
  source whose paths are all in double quotes without escapes is read exactly (`PlainImportsExact`).
  `InStepIff` says for which paths in backquotes the scanner stays in step.

## Model

| member | source | states |
|---|---|---|
| StreamFraming.Position | rust/symaira-core-llm/src/chat.rs:655 | the first newline, with none before it, or none at all |
| StreamFraming.SplitUnique | rust/symaira-core-llm/src/chat.rs:640-669 | a body has only one cut after each newline with a non-empty unterminated tail kept |
| StreamFraming.SplitExists | rust/symaira-core-llm/src/chat.rs:640-669 | every body has such a cut |
| StreamFraming.FrameIsSplit | rust/symaira-core-llm/src/chat.rs:655-667 | a finished body yields its pieces up to the first one longer than the limit, newline counted, and "token too long" exactly if there is one |
| StreamFraming.InterruptedIsSplit | rust/symaira-core-llm/src/chat.rs:645-667 | a body that breaks off yields its complete lines before the first piece that is too long, and otherwise all of them and the transport error; its incomplete tail is never a line |
| StreamFraming.ReadBoundedLine | rust/symaira-core-llm/src/chat.rs:640-669 | the pull loop returns the first piece, the end, "too long" or the read error, whatever the buffer sizes, and leaves the rest unread |
| Common.TrimIff | rust/symaira-core-llm/src/chat.rs:381 | trimming leaves exactly the part between the white space at the two ends: the only core with solid ends that the text pads |
| StreamFraming.PayloadIff | rust/symaira-core-llm/src/chat.rs:377-384 | a line carries the payload `data` exactly if it reads `data:`, white space, `data`, white space, and `data` is neither empty nor `[DONE]` |
| StreamFraming.LineIgnored | rust/symaira-core-llm/src/chat.rs:593-599 | a line without the prefix, with only white space behind it, or with the sentinel between white space changes nothing, `started` included |
| StreamFraming.OpenaiLine | rust/symaira-core-llm/src/chat.rs:600-618 | what an OpenAI payload does, over the text of its line: a chunk that does not decode fails before any call; of a decoded one the first choice reports its finish reason, then its text, neither when empty, and a refused text is the failure |
| StreamFraming.AnthropicLine | rust/symaira-core-llm/src/chat.rs:619-637 | likewise for Anthropic: a stop reason from `message_delta`, a text from `content_block_delta`, neither when absent or empty, and nothing but `started` from any other event |
| StreamFraming.LastLineRuns | rust/symaira-core-llm/src/chat.rs:366-419 | lines run in order, each on what those before it left, and none after a failure |
| StreamFraming.OutcomeIff | rust/symaira-core-llm/src/chat.rs:366-427 | over lines of at most 1 048 576 bytes: the first failing line decides, and otherwise a piece over the limit, a broken transport and a body without payloads give the three failures |
| StreamFraming.Session.DispatchOpenai | rust/symaira-core-llm/src/chat.rs:601-618 | the finish reason precedes the text of the first choice, each only if non-empty; an undecodable chunk fails before any call |
| StreamFraming.Session.DispatchAnthropic | rust/symaira-core-llm/src/chat.rs:619-637 | an event that does not decode is ignored; otherwise its kind selects the one call it may make |
| StreamFraming.Session.ProcessLine | rust/symaira-core-llm/src/chat.rs:581-638 | one raw line of the cancellable client: prefix, trim, sentinel, `started`, dispatch, equal to the reference run of the line, which `LineIgnored`, `OpenaiLine` and `AnthropicLine` state over its text |
| StreamFraming.Session.ProcessPulledLine | rust/symaira-core-llm/src/chat.rs:377-419 | the copy of that dispatch inside the blocking loop equals the same reference, so the two copies agree |
| StreamFraming.StreamBlocking | rust/symaira-core-llm/src/chat.rs:366-427 | the blocking client's calls, flag and failure are those of the reference on the bytes it was given |
| StreamFraming.StreamCancellable | rust/symaira-core-llm/src/chat.rs:527-577 | the cancellable client's calls, flag and failure are those of the reference, for every chunking, empty chunks included |
| StreamFraming.BothClients | rust/symaira-core-llm/src/chat.rs:366-577 | over the same body, however each transport cuts it, both clients make the same calls in the same order with the same outcome |
| StreamFraming.StartedIff | rust/symaira-core-llm/src/chat.rs:380-385 | `started` is set exactly by a line that reads as in `PayloadIff`, and every failure while running lines comes after it |
| StreamFraming.NoStreamDataIff | rust/symaira-core-llm/src/chat.rs:421-426 | "no stream data" is reported exactly when the whole body was framed and no line reads as in `PayloadIff` |
| SharedBody.PiecesCover | rust/symaira-core-llm/src/client.rs:555 | the 64 KiB pieces of a chunk are non-empty, bounded, and join to the chunk |
| SharedBody.ExecuteKeepsInv | rust/symaira-core-llm/src/client.rs:416-569 | the start, shape and delivery invariants hold after any steps of worker and owner |
| SharedBody.NothingLost | rust/symaira-core-llm/src/client.rs:471-491 | bytes read, cursor, channel, unsent pieces, what a panic dropped and network together are the body, in every reachable state before the drop |
| SharedBody.EndOfBodyIsComplete | rust/symaira-core-llm/src/client.rs:484-488 | a read that finds the channel closed has delivered the whole body exactly if the worker left nothing behind, which holds unless it panicked; then the network failed exactly if an earlier read said so |
| SharedBody.PanicEndsBody | rust/symaira-core-llm/src/client.rs:484-488 | for every body a worker panic can make the first read find the end, without an error |
| SharedBody.ReadsArePrefix | rust/symaira-core-llm/src/client.rs:471-491 | in every reachable state, after a panic too, the bytes read are a prefix of the body |
| SharedBody.OneStartMessage | rust/symaira-core-llm/src/client.rs:505-546 | never two start messages, and exactly one from a worker that ended without a panic |
| SharedBody.DropTerminates | rust/symaira-core-llm/src/client.rs:493-503 | after a drop or a refused start, in every interleaving, the number of further steps is bounded and a run that cannot continue has joined an exited worker |
| SharedBody.DropProgress | rust/symaira-core-llm/src/client.rs:493-503 | until then some thread can move |
| SharedBody.CancelAloneBlocks | rust/symaira-core-llm/src/client.rs:496-498 | with the receiver still open a cancelled worker can be unable to move, which is why it is closed before the join |
| SharedBody.HeldProgress | rust/symaira-core-llm/src/client.rs:471-569 | no deadlock before the drop: if nothing but a panic or a drop can happen, the owner holds the response and its read finds the end |
| SharedBody.HeldDelivers | rust/symaira-core-llm/src/client.rs:471-569 | before a drop, in every interleaving, the number of steps until a read finds the end is bounded, and a run that cannot continue otherwise has, unless the worker panicked, delivered the whole body and reported the network's failure if there was one |
| SharedBody.SharedResponse.Read | rust/symaira-core-llm/src/client.rs:471-491 | the read loop returns the next bytes, at most as many as asked, skips none, reports a fault in its place, and returns none for a non-empty buffer only when nothing is left |
| GoSlices.VisitObject | rust/symaira-core-llm/src/chat.rs:1102-1141 | the field loop computes the fold over the fields; null leaves the target |
| GoSlices.NamesIff | rust/symaira-core-llm/src/chat.rs:1002-1011 | a key names a field exactly if each of its characters is the field's, after A-Z become a-z, the long s an s and the Kelvin sign a k |
| GoSlices.SpellsOne | rust/symaira-core-llm/src/chat.rs:1002-1011 | a lower-case field names itself, and no key names two fields |
| GoSlices.GoSlice.Visit | rust/symaira-core-llm/src/chat.rs:1181-1221 | the array loop with reuse and push computes the reference slice in place, or fails |
| GoSlices.ReadElementsAt | rust/symaira-core-llm/src/chat.rs:1194-1214 | one pass decodes element `i` onto slot `i` or a fresh value, keeps later slots, and fails exactly if some element does |
| GoSlices.SlotsHoldColumns | rust/symaira-core-llm/src/chat.rs:1165-1226 | after any history the active length is that of the last value and slot `i` is the fold of all elements decoded at `i` since the last null or empty array |
| GoSlices.ReplayFailsIff | rust/symaira-core-llm/src/chat.rs:1165-1226 | decoding a history fails exactly when some value is no array or holds an element that does not fold onto its column |
| GoSlices.NullElementsIgnored | rust/symaira-core-llm/src/chat.rs:1120-1126 | null elements are no-ops |
| OpenAiResponses.DecodeOpenAi | rust/symaira-core-llm/src/chat.rs:968-1000 | the decoder with its reused slots returns the first active choice with its active calls converted, reports that there is none, or rejects the document, as the reference does |
| OpenAiResponses.DecodedIsHistory | rust/symaira-core-llm/src/chat.rs:975-999 | what is returned, in terms of the document's fields alone: the last texts given for the first choice, and one call per item of its last tool call list with the last texts given for that position; arguments that parse are returned as what they parse to, others as text |
| OpenAiResponses.NoChoicesIff | rust/symaira-core-llm/src/chat.rs:975-980 | "no choices" is reported exactly for null and for a document whose last `choices` value has no items |
| OpenAiResponses.RejectedIff | rust/symaira-core-llm/src/chat.rs:968-974 | a document is rejected exactly if it is neither null nor an object, or one of its fields, at either level of choices and tool calls, has a value of the wrong type |
| OpenAiResponses.SliceAccepted | rust/symaira-core-llm/src/chat.rs:1181-1221 | whether an array is accepted does not depend on what the reused slots hold |
| OpenAiResponses.ReplayIsReplayFrom | rust/symaira-core-llm/src/chat.rs:1259-1266 | decoding values one after another onto a slice is the fold over their history |
| OpenAiResponses.FoldedObjects | rust/symaira-core-llm/src/chat.rs:1128-1136 | folding objects onto a slot is reading all their fields in order |
| OpenAiResponses.ChoiceIsHistory | rust/symaira-core-llm/src/chat.rs:1273-1343 | a decoded choice holds the last finish reason and content of its slot's history, and its tool calls are the fold of theirs |
| OpenAiResponses.CallIsHistory | rust/symaira-core-llm/src/chat.rs:1325-1403 | a decoded tool call holds the last id, name and arguments of its slot's history, one level further down |
| NumberScanner.ValidateNumberRanges | rust/symaira-core-llm/src/chat.rs:1056-1092 | the index loops compute the reference scan, the two-byte skip past the end included |
| NumberScanner.StringSkipped | rust/symaira-core-llm/src/chat.rs:1061-1073 | escapes never let the scan leave a legal string early or run past its closing quote |
| NumberScanner.ScanNumber | rust/symaira-core-llm/src/chat.rs:1074-1087 | every legal number literal is taken whole |
| NumberScanner.ScanAcceptsFinite | rust/symaira-core-llm/src/chat.rs:1056-1092 | for every JSON value in every layout the scan accepts exactly when all number literals are finite, and otherwise reports the first that is not: "invalid" if it does not parse, "out of range" if it is infinite |
| BodyTruncation.DecodeOfEncode | rust/symaira-core-llm/src/error.rs:114-118 | the byte ranges read back what every scalar value encodes to |
| BodyTruncation.EncodeOfDecode | rust/symaira-core-llm/src/error.rs:114-118 | and read nothing else |
| BodyTruncation.WindowIsEnough | rust/symaira-core-llm/src/error.rs:112-126 | four bytes give the character and width of the whole suffix, and both `expect`s are safe |
| BodyTruncation.CellsPartition | rust/symaira-core-llm/src/error.rs:111-134 | the steps cover the body without gap or overlap |
| BodyTruncation.ScanStep | rust/symaira-core-llm/src/error.rs:127-133 | `end == 0` as sentinel keeps the span of the characters seen so far |
| BodyTruncation.TruncateBodyBytes | rust/symaira-core-llm/src/error.rs:107-137 | the span runs from the first character that is not white space to the last, and at most its first 512 bytes are kept |
| BodyTruncation.CutUnique | rust/symaira-core-llm/src/error.rs:135-136 | what is kept is determined by the body |
| BodyTruncation.TextTrimmed | rust/symaira-core-llm/src/error.rs:107-137 | of a body that is the encoding of a text, what is kept is the encoding of that text without the white space at both ends, in its first 512 bytes; of white space alone nothing |
| BodyTruncation.StrayKept | rust/symaira-core-llm/src/error.rs:125-132 | a byte that begins no character stands alone and is never trimmed |
| AtomicWrite.FileSystem.WriteFileAtomic | rust/symaira-core-fs/src/lib.rs:394-430 | from every disk and for every list of failing calls and short writes: at every crash point each name has what a crash before the call could have left, or the target has all new bytes; a settled target has the old file or all new bytes, and so it has for every reader; the new bytes are durable exactly on success or if they were before; the target is settled exactly on success or if it was and the directory sync did not fail; the first fault decides the result; a temporary remains exactly if `fchmod` failed or the guarded block failed before the rename and so did the clean-up |
| AtomicWrite.FileSystem.WriteSyncRename | rust/symaira-core-fs/src/lib.rs:415-425 | the guarded block keeps that at each of its steps and stops at its first fault |
| AtomicWrite.FileSystem.WriteAll | rust/symaira-core-fs/src/lib.rs:416-417 | so does a write cut into pieces of any size, which fails exactly if one of them fails before the end |
| AtomicWrite.LeftBehind | rust/symaira-core-fs/src/lib.rs:426-428 | a run in which a failed clean-up leaves the temporary |
| AtomicWrite.NotYetDurable | rust/symaira-core-fs/src/lib.rs:420-424 | until the directory is synced the new bytes are durable only if they were before the call |
| AtomicWrite.UnsyncedRename | rust/symaira-core-fs/src/lib.rs:415-424 | why the file is synced before the rename: without that a crash can leave any bytes at all under the name |
| AtomicWrite.CrashChoices | rust/symaira-core-fs/src/lib.rs:415-425 | if every entry the target had is one from before or the finished new file, and no other name but the temporary has a new entry, every crash leaves what it could have left before, or the new bytes |
| AtomicWrite.CrashedFiles | rust/symaira-core-fs/src/lib.rs:394-430 | what that means for the files: after a crash every other name holds what a crash before the call could have left there |
| AtomicWrite.SettledSafe | rust/symaira-core-fs/src/lib.rs:415-425 | of a target that was on the medium every crash leaves the old file or the new bytes |
| AtomicWrite.CallsCompose | rust/symaira-core-fs/src/lib.rs:394-430 | after any number of calls for any names, failed ones included, a crash leaves every name but a temporary as a crash before them could have, or with all the bytes of one call for it |
| AtomicWrite.Retried | rust/symaira-core-fs/src/lib.rs:424-429 | a call after a failed directory sync starts from an unsettled target and makes the bytes durable |
| AtomicWrite.SyncedSafe | rust/symaira-core-fs/src/lib.rs:424 | after the directory is synced every crash leaves the new bytes and the target is settled |
| AtomicWrite.RemovedSafe | rust/symaira-core-fs/src/lib.rs:426-428 | the clean-up adds no outcome of a crash, and leaves the target settled exactly if it was |
| AtomicWrite.TempNameDiffers | rust/symaira-core-fs/src/lib.rs:800-807 | the temporary name is not the target name |
| AtomicWrite.TempNamesDistinct | rust/symaira-core-fs/src/lib.rs:800-807 | temporaries are hidden files, and two calls share one only if name, time and counter are all the same |
| SafeRemove.SameNumberIff | rust/symaira-core-fs/src/lib.rs:575-578 | between two files alive at once, equal inode numbers mean the same file |
| SafeRemove.Host.CompareGuard | rust/symaira-core-fs/src/lib.rs:309-318 | the guard is kept exactly if it is a regular file with the inode number that was checked; otherwise "changed before removal" is reported, or that it could not be examined |
| SafeRemove.Host.TakeGuard | rust/symaira-core-fs/src/lib.rs:286-321 | exactly when a guard is taken, and the exact outcome otherwise; the guard is on the regular file found under the name, with the inode number of the regular file that was checked |
| SafeRemove.Host.FinishRemoval | rust/symaira-core-fs/src/lib.rs:332-348 | only the guarded file is unlinked; a file swapped in stays under the quarantine name |
| SafeRemove.Host.MoveAside | rust/symaira-core-fs/src/lib.rs:322-333 | the check and the rename: what the check said, whether the rename went through, and which file lost its name by it |
| SafeRemove.Host.RemoveGuarded | rust/symaira-core-fs/src/lib.rs:322-348 | the files unlinked are the guarded one, exactly on success, and the occupant of the quarantine name, exactly if it was there, the check said otherwise and another file was moved onto it |
| SafeRemove.Host.Remove | rust/symaira-core-fs/src/lib.rs:273-349 | the same of the whole call, among any outside activity and faults, with the exact outcome; a file is guarded only if its inode number is that of the regular file found first; no descriptor is left open; a file swapped in stays; undisturbed it removes the file |
| SafeRemove.OccupantLost | rust/symaira-core-fs/src/lib.rs:322-333 | a run in which the check fails and a second file is lost |
| Durations.ValueConcat | rust/symaira-core-config/src/lib.rs:575-578 | the value of digits put together |
| Durations.ReadSegment | rust/symaira-core-config/src/lib.rs:545-588 | one segment with checked i128 arithmetic, its checks in order |
| Durations.MicroSpellings | rust/symaira-core-config/src/lib.rs:557-565 | how micro is spelled, segment by segment, never changes what a text is read as |
| Durations.ParseDuration | rust/symaira-core-config/src/lib.rs:531-595 | the parser equals its reference and no i128 operation wraps, the final negation included |
| Durations.ParseOfText | rust/symaira-core-config/src/lib.rs:531-595 | every spelling of signed segments is read as its signed sum, or rejected for overflow exactly when a part does not fit |
| Durations.AcceptedIsSpelled | rust/symaira-core-config/src/lib.rs:531-595 | whatever is accepted spells some segments |
| Durations.AcceptedExactly | rust/symaira-core-config/src/lib.rs:531-595 | for inputs shorter than 2^32 the parser returns a duration exactly when the text spells segments within range with that sum |
| Durations.TruncationBound | rust/symaira-core-config/src/lib.rs:582-588 | rounding loses less than one nanosecond per segment and never adds |
| Durations.RoundsDownIff | rust/symaira-core-config/src/lib.rs:579-585 | a segment is rounded down exactly when its fraction's length fits a u32 or the scaled number is below the wrapped power of ten, and read as more otherwise |
| Durations.ParseRoundsDownIff | rust/symaira-core-config/src/lib.rs:545-594 | an accepted text of any length is read as the signed sum of its segments, each rounded down, exactly when every segment meets that condition |
| Durations.LongFractionMisread | rust/symaira-core-config/src/lib.rs:579-585 | a concrete text for which it is not |
| Durations.PopZeros | rust/symaira-core-config/src/lib.rs:629-632 | the loop strips all trailing zeros |
| Durations.FormatSubsecond | rust/symaira-core-config/src/lib.rs:638-655 | the sub-second printer equals its reference |
| Durations.FormatClock | rust/symaira-core-config/src/lib.rs:613-635 | the part of the printer for a second and more equals its reference |
| Durations.FormatDuration | rust/symaira-core-config/src/lib.rs:597-636 | the printer equals its reference, the least i64 included |
| Durations.FractionSegmentFloor | rust/symaira-core-config/src/lib.rs:645-654 | a stripped fraction is read back without loss |
| Durations.FormatSpells | rust/symaira-core-config/src/lib.rs:597-655 | what is printed spells segments that denote exactly the duration |
| Durations.RoundTrip | rust/symaira-core-config/src/lib.rs:531-655 | parsing what is printed gives the duration back, for every i64 |
| Durations.FormatInjective | rust/symaira-core-config/src/lib.rs:597-636 | different durations print differently |
| ConfigLayers.MergePresent | rust/symaira-core-config/src/lib.rs:353-367 | the loop over overlay entries computes the key-by-key merge |
| ConfigLayers.MergedTwice | rust/symaira-core-config/src/lib.rs:353-367 | merging an overlay twice is merging it once |
| ConfigLayers.IncompatibleField | rust/symaira-core-config/src/lib.rs:322-343 | a field is reported exactly if some types differ, and it is the first such place in key order at each level |
| ConfigLayers.FirstConflictUnique | rust/symaira-core-config/src/lib.rs:322-343 | there is only one such first place, and one only if types differ |
| ConfigLayers.UnsupportedMapField | rust/symaira-core-config/src/lib.rs:295-320 | a field is reported exactly if the overlay mentions a declared map field it can reach, and it is the first one in key order, a field before its own fields |
| ConfigLayers.FirstMapFieldUnique | rust/symaira-core-config/src/lib.rs:295-320 | there is only one such first field |
| ConfigLayers.SplitCommasIs | rust/symaira-core-config/src/lib.rs:448 | an array text is cut at its commas, nothing lost |
| ConfigLayers.SplitCommasUnique | rust/symaira-core-config/src/lib.rs:448 | and there is no other way to cut it |
| ConfigLayers.EnvKeepsKind | rust/symaira-core-config/src/lib.rs:411-486 | an environment value keeps the type of what it replaces; numbers are what the parser of their kind gives, texts are kept, and an array gets one item per piece |
| ConfigLayers.EnvTruth | rust/symaira-core-config/src/lib.rs:427-482 | the six texts for true and the six for false, over a truth value and over null, which takes anything else as an integer, a float or a text |
| ConfigLayers.EnvItems | rust/symaira-core-config/src/lib.rs:445-453 | an array takes each piece between commas without the white space around it, read as its first item is, and is refused exactly if some piece is |
| ConfigLayers.ApplyEnv | rust/symaira-core-config/src/lib.rs:369-409 | the loop over fields computes the environment layer or fails |
| ConfigLayers.MergeFile | rust/symaira-core-config/src/lib.rs:216-251 | both checks, then the merge; exactly when each of the two refuses the file, and that the error names the first such field |
| ConfigLayers.LoadOnce | rust/symaira-core-config/src/lib.rs:188-212 | the four layers in order, stopping at the first error |
| ConfigLayers.MergedAt | rust/symaira-core-config/src/lib.rs:353-367 | a file replaces a non-null leaf exactly when it gives one |
| ConfigLayers.EnvNameIff | rust/symaira-core-config/src/lib.rs:384 | the variable of a path is the prefix and its keys joined by underscores, each key with its lower-case ASCII letters in upper case and all else kept |
| ConfigLayers.DottedIs | rust/symaira-core-config/src/lib.rs:345-351 | the name of a path is its keys joined by dots, from the first that is not empty |
| ConfigLayers.EnvFailsIff | rust/symaira-core-config/src/lib.rs:378-407 | the environment is refused exactly if it gives some leaf outside map fields a text that cannot be read as it |
| ConfigLayers.EnvAt | rust/symaira-core-config/src/lib.rs:378-407 | the environment replaces a leaf exactly when it names it, an empty text for an array aside |
| ConfigLayers.Precedence | rust/symaira-core-config/src/lib.rs:188-212 | after a load every non-null leaf holds the value of its variable, which is spelled out, else the project's, else the global one, else its default |
| ConfigLayers.ShapeKept | rust/symaira-core-config/src/lib.rs:353-409 | no layer adds or removes a key of an object of the defaults |
| ConfigLayers.MapFieldsKept | rust/symaira-core-config/src/lib.rs:304-308 | declared map fields keep their defaults |
| Exchange.PartsAreLines | scripts/rust-port/bounded_fixture_process.py:55-58 | the parts written in serial mode are the input's lines, newlines kept |
| Exchange.ExecuteKeepsInv | scripts/rust-port/bounded_fixture_process.py:29-106 | the stream, writer, lockstep and caller invariants hold after any steps |
| Exchange.Lockstep | scripts/rust-port/bounded_fixture_process.py:59-76 | in every interleaving no byte of a later line is written before a newline was captured for each earlier one |
| Exchange.CapturesBounded | scripts/rust-port/bounded_fixture_process.py:34-45 | no capture exceeds its bound, and a reader holds at most one byte beyond it and at most 65 536 bytes |
| Exchange.ReturnIsComplete | scripts/rust-port/bounded_fixture_process.py:95-100 | a normal return means the process exited and both captures are complete; in serial mode also that all input was written and answered |
| Exchange.ReturnedStaysComplete | scripts/rust-port/bounded_fixture_process.py:95-106 | nothing that happens afterwards makes it incomplete |
| Exchange.WholeInputWritten | scripts/rust-port/bounded_fixture_process.py:54-64 | a normal return with a pipe that never broke has written the whole input, in either mode |
| Exchange.ThreadsBounded | scripts/rust-port/bounded_fixture_process.py:29-106 | no thread runs forever: the steps of the threads and the caller are bounded by what was to do and twice what the child produces meanwhile |
| Exchange.ExitSuffices | scripts/rust-port/bounded_fixture_process.py:29-106 | once the child has exited no time-out is needed: as long as the caller polls, the threads or the caller can go on by themselves, for boundedly many steps |
| Exchange.FailureIsTheChilds | scripts/rust-port/bounded_fixture_process.py:29-106 | unless a pipe or the clock fails it, an exchange fails only through the child: a stream over its bound, or output that ends before every line of a serial input was answered |
| Exchange.WithinBoundsCanReturn | scripts/rust-port/bounded_fixture_process.py:29-106 | for every input, and every output within the bounds that answers each line of a serial input, there is a run that returns exactly that output |
| Exchange.NewlinesIs | scripts/rust-port/bounded_fixture_process.py:67 | the count compared with the line number is the number of newlines captured |
| DependencyGraph.Search.Visit | docs/rust-port/validate.py:104-113 | the visit restores `active`, finishes the node, or stops with a real cycle |
| DependencyGraph.Search.VisitAll | docs/rust-port/validate.py:110-111 | so does the loop over the dependencies |
| DependencyGraph.CheckAcyclic | docs/rust-port/validate.py:583-585 | in any order of the ids the driver finishes exactly on acyclic graphs, with every id done |
| DependencyGraph.DependenciesWithin | docs/rust-port/validate.py:116-125 | a complete set that holds the direct dependencies holds all |
| DependencyGraph.TrailCloses | docs/rust-port/validate.py:105-106 | meeting an active node again closes a cycle |
| DependencyGraph.FinishNode | docs/rust-port/validate.py:112-113 | a node whose dependencies are finished lies on no cycle |
| DependencyGraph.Ancestors | docs/rust-port/validate.py:116-125 | exactly the nodes reachable by one or more edges, on cyclic input too |
| LockClosure.EdgeRoundTrip | scripts/rust-port/lock_closure.py:15-20 | every edge the lockfile can spell is read back |
| LockClosure.ResolveIff | scripts/rust-port/lock_closure.py:33-40 | an edge resolves to a package exactly if that is the only one with the name, and with the version and source as far as they are given |
| LockClosure.ResolveSpelled | scripts/rust-port/lock_closure.py:15-40 | the same over the text of the edge: a name, a name and a version, or both and a source in parentheses, each resolve to the only package with the fields spelled |
| LockClosure.FullySpelledResolves | scripts/rust-port/lock_closure.py:33-40 | an edge that spells all fields of a package resolves to it if no other package has them |
| LockClosure.ResolveRootIff | scripts/rust-port/lock_closure.py:43-47 | a root resolves to a package exactly if it is the only one of that name without a source |
| LockClosure.ClosurePackages | scripts/rust-port/lock_closure.py:23-57 | the call as written computes the reference, with its errors |
| LockClosure.NeverMerged | scripts/rust-port/lock_closure.py:51-54 | a reachable package is the only one with its name, version and source |
| LockClosure.WorkIsExact | scripts/rust-port/lock_closure.py:48-55 | the worklist ends with exactly the reachable packages, or at an edge of one that does not resolve |
| LockClosure.SortIs | scripts/rust-port/lock_closure.py:57 | the sorted list has the same packages, each once, in order |
| LockClosure.PackageBeforeIff | scripts/rust-port/lock_closure.py:57 | the order compared by: name, then version, then source, an absent source as the empty text |
| Common.BeforeIff | scripts/rust-port/lock_closure.py:57 | a text is before another exactly if at the first place where they differ it ends or has the smaller character |
| LockClosure.SortStable | scripts/rust-port/lock_closure.py:57 | packages with equal sort keys keep the order in which they were taken |
| LockClosure.SortedUnique | scripts/rust-port/lock_closure.py:57 | the order is determined by the set and the order of its ties |
| LockClosure.WorkSplit | scripts/rust-port/lock_closure.py:48-55 | the worklist finishes what was added last before it takes up what was waiting |
| LockClosure.ClosureIsExact | scripts/rust-port/lock_closure.py:23-57 | success exactly when all roots and all edges of reachable packages resolve, and then the sorted reachable packages |
| LockClosure.ClosureMonotone | scripts/rust-port/lock_closure.py:43-47 | more roots, more packages |
| LockClosure.SameListIff | scripts/rust-port/lock_closure.py:42-57 | two lists of the same roots give the same list exactly when reachable packages that tie are taken in the same order |
| LockClosure.RootOrderIrrelevant | scripts/rust-port/lock_closure.py:42-57 | order and repetition of the roots change neither success nor the set, nor the list if no two keys of the lockfile, or no two reachable packages, tie |
| LockClosure.WorkOutside | scripts/rust-port/lock_closure.py:48-55 | packages taken beforehand, with all they depend on, do not change the order in which the worklist takes the others |
| LockClosure.TakenOneMore | scripts/rust-port/lock_closure.py:42-55 | a root in front of others adds its own packages in its own order, without theirs, behind theirs |
| LockClosure.LastRootDecides | scripts/rust-port/lock_closure.py:42-55 | of any two packages the last root that reaches one of them decides which is taken first, as it does alone |
| LockClosure.SameListByRoots | scripts/rust-port/lock_closure.py:42-57 | so two lists of the same roots give the same list exactly when the runs of the single roots decide every tie alike |
| LockClosure.TwoOrdersIff | scripts/rust-port/lock_closure.py:42-57 | the order of two roots matters exactly when of some tie one package is taken first from the first root alone and the other from the second alone |
| LockClosure.TieFollowsRoots | scripts/rust-port/lock_closure.py:42-57 | of two packages that tie, one reached from the second root and one from the first root alone, the former is listed first |
| LockClosure.TieDecides | scripts/rust-port/lock_closure.py:42-57 | so a tie between a package of one root alone and one of the other alone makes the list differ when the roots are swapped, in every lockfile |
| LockClosure.EmptySourceTies | scripts/rust-port/lock_closure.py:57 | a lockfile with an empty source text for which it does |
| LockClosure.FreshNamesIgnored | scripts/rust-port/lock_closure.py:30-40 | entries under new names leave a successful closure as it was |
| GoImports.SkipGoIgnored | port/consumer/verify.py:1000-1012 | white space and comments are skipped as the reference does, never past the text |
| GoImports.SkipGoString | port/consumer/verify.py:1015-1025 | a literal is skipped as the reference does, and the index advances |
| GoImports.GoImportString | port/consumer/verify.py:1028-1038 | the path of a plain literal, or none, and where to go on |
| GoImports.ReadGroup | port/consumer/verify.py:1060-1075 | the group loop computes the reference |
| GoImports.ReadSingle | port/consumer/verify.py:1076-1085 | the single import likewise, and the index advances |
| GoImports.ReadImports | port/consumer/verify.py:1041-1088 | the scanner as written computes the reference scan; every loop advances |
| GoImports.SkipToSolid | port/consumer/verify.py:1000-1012 | any run of white space and comments is skipped, and no more |
| GoImports.LiteralSkipped | port/consumer/verify.py:1015-1025 | a legal literal is skipped to its own closing quote |
| GoImports.PathRead | port/consumer/verify.py:1028-1038 | a plain path is found; one with escapes is not, but its literal is passed; one in backquotes is not, and scanning goes on behind its first backquote |
| GoImports.AliasSkipped | port/consumer/verify.py:1067-1071 | an alias and what follows it are skipped to the path, in a group and alone |
| GoImports.GroupPassesRaw | port/consumer/verify.py:1062-1075 | in a group the text of a path in backquotes yields nothing, and the group goes on behind its closing backquote |
| GoImports.GroupRead | port/consumer/verify.py:1060-1075 | a group yields its plain paths in order and ends at its parenthesis, however its other paths are written |
| GoImports.RawScanned | port/consumer/verify.py:1049-1059 | out of a group, for every path in backquotes and whatever follows: its text yields nothing, and its closing backquote opens a literal, unless a false keyword `import` at the end of the path swallows it |
| GoImports.NotTaken | port/consumer/verify.py:1053-1059 | which cannot be if the letters `import` do not occur in the path |
| GoImports.ImportOneScanned | port/consumer/verify.py:1076-1085 | one import out of a group, whatever follows: the path if it is plain, and where scanning goes on |
| GoImports.ImportsExact | port/consumer/verify.py:1041-1088 | for every source text of comments, literals, words, symbols and import declarations without a lone import in backquotes, a last comment without a newline included: exactly the plain paths, in order, and nothing from comments or literals |
| GoImports.AllFoundIff | port/consumer/verify.py:1041-1088 | then every path is found exactly if all are in double quotes and free of escapes |
| GoImports.PlainImportsExact | port/consumer/verify.py:1041-1088 | and a source text whose paths are all of that kind is read exactly |
| GoImports.InStepIff | port/consumer/verify.py:1049-1085 | a lone import in backquotes behind such declarations leaves the scanner in step exactly if it ends with the false keyword, that is, exactly if everything in step that may follow is read exactly |
| GoImports.RawPathLosesStep | port/consumer/verify.py:1049-1085 | with a lone import in backquotes: the plain paths before it, then whatever the scan finds behind the next backquote |
| GoImports.LaterImportsLost | port/consumer/verify.py:1049-1085 | if no backquote follows, every later import is lost |
| GoImports.LiteralScannedAsSource | port/consumer/verify.py:1049-1085 | otherwise the inside of the next raw literal is scanned as source text |
| GoImports.LiteralReported | port/consumer/verify.py:1049-1085 | so the text of an import inside such a literal is reported, and the real import is not |

## Left out

- ImportsExact: a path in backquotes holds none of the characters that the Go specification lets a compiler exclude and no two slashes in a row; a file that ends inside a literal or a block comment is not among the source texts.
- Remove: assumes that no other process uses the fresh quarantine name.
- WriteFileAtomic: other processes are not at work during the write; `Remove` models them.
- Transports, TLS, the async runtime and thread start: the channels, the token and the chunk source are modelled, the network is a list of chunks and an end.
- Cancelling a stream from outside: the trace of `StreamCancellable` is that of a stream that is not cancelled.
- JSON decoding of stream chunks, lossy UTF-8 decoding and float parsing are parameters; so is the check of the ignored `error` field of a response.
- Character classes: white space, letters and digits beyond ASCII are parameters; `GoImports.Sane` lists the facts about them that the scanner needs.
- Error message texts: outcomes are classes, and the two texts of a duration overflow are one class.
- Typed deserialization after each configuration layer is taken as the identity on JSON trees; reading and parsing the files themselves is not modelled.
- Request bodies, headers, status mapping, error refinement and the provider registry.
- The Windows branches of both file operations, path walking to the parent directory, permission bits and file locks.
- The deadline arithmetic of the exchange: a time-out may happen whenever a wait is possible; killing and reaping the child after the result is decided only closes its streams.
- Recursion depth of the cycle check, lockfile tables without a name or version, and the digest of the closure.
- The other checks of the work-item validator and of the consumer verifier.
