# StoneKV: a verified model of its crash protocol and storage format

StoneKV keeps a map from byte strings to byte strings. A write goes to a log first (`wal.log`), then to an in-memory
table; the table is flushed to immutable sorted segment files, and compaction replaces all segments by one. Each of
these is a sequence of file-system calls, and the process may die between any two of them, or inside a write.

This project models that and proves what the store promises: whatever the process was doing when it died, recovery
included, the next completed open serves exactly the acknowledged operations, in order, with each interrupted operation
either wholly there or wholly absent.

## How it is built

- `bytes.dfy`, `crc32.dfy`, `record.dfy`, `decoding.dfy`: little-endian numbers, the order of keys, the CRC, the record
  codec, and what decoding makes of arbitrary bytes.
- `tables.dfy`, `memtable.dfy`: tables with tombstones, listing in key order, the running size.
- `segment.dfy`, `reader.dfy`, `file_format.dfy`: writing a segment, opening it, reading it, looking a key up through
  the sparse index, and what opening and reading make of arbitrary files.
- `filesystem.dfy`, `wal.dfy`, `names.dfy`, `marker.dfy`: the directory and its calls, the log, file names, the marker.
- `layers.dfy`, `protocol.dfy`: segments stacked by generation; what a directory means (`Logical`), what holds of every
  directory (`DiskInv`), what holds between operations (`Idle`), and the plan, that is the exact list of calls, of every
  operation, of recovery and of opening.
- `crash_safety.dfy`, `recovery.dfy`, `runs.dfy`: every plan is crash-safe, and so is every run.
- `compaction.dfy`, `outcomes.dfy`, `store.dfy`: the merge and the store as objects whose methods perform the calls and
  record them in order. `outcomes.dfy` says what each method does to any state, errors included, and proves that between
  operations it makes exactly the plan about which the crash theorems speak.
- `operations.dfy`, `damage.dfy`: what an operation achieves, told without its plan, and what becomes of damage on disk.

Where a definition decides the behaviour of the code, a law beside it says the same from the bytes or the numbers
alone, without that definition: `Decoding` for the codec, `FileFormat` for segments, `Markers.MarkerAcceptedIff` for the
marker, `Operations` for flushing and success, `Outcomes.CompactReports` for the statistics.

A crash is modelled by `CrashState(plan, d, d')`: `d'` is a directory after any number of the plan's calls, where the
call under way may have written any prefix of its bytes. Because recovery is a plan too, crashes inside recovery, and
inside the recovery after that, need nothing more.

## Assumptions

- A file-system call either completes or the process dies in it; completed calls persist in order; rename and truncation
  are atomic. The code syncs files but not directories, so loss of power is not covered.
- The process serves nothing after a method has returned an error from the middle of an operation.
- Segment files stay shorter than 2^64 bytes (`Room`). Generations are not assumed to last: running out is modelled.
- `usize` has 64 bits. Memory does not run out.

## One promise that does not hold without a condition

An open does not succeed in every directory a crash can leave. A flush or a compaction with the last generation,
2^64 - 1, installs its segment before it notices that no generation follows, and from then on `load_segments` refuses
the directory. `Recovery.OpenSucceedsIff` proves that this is the only way an open can fail: it succeeds if and only if
no surviving segment has the last generation. `Runs.OperationLeavesOpenableIff` gives the condition before the call, for
every operation: the directory it leaves opens if and only if enough generations were left (`Completes`).
`Runs.LastGenerationDoesNotOpen` is a concrete directory.

## Model

| member | source | states |
|---|---|---|
| `Runs.EveryRunIsExplained` | src/store.rs:65-306 | over every run of sets, deletes, compactions, reads, opens and crashes at any call, recovery included: one keep-or-drop decision per interrupted operation explains the directory, the served map and every answer at every point, and an open fails only when the last generation is in use |
| `Runs.StepKeepsMeaning` | src/store.rs:65-306 | one event of a run: invariant kept, the map changes by exactly that event, generations only grow, answers agree |
| `Runs.OpIsSafe` | src/store.rs:101-129 | dying anywhere in an operation leaves the map before it or after it; completing it leaves the map after it and a process consistent with its directory |
| `Runs.CompactIsSafe` | src/store.rs:162-306 | dying anywhere in a compaction, its flush included, leaves the map as it was |
| `Runs.CompactionNeverResurrects` | src/store.rs:643-742 | an interrupted compaction followed by any number of interrupted recoveries never changes the map, so no deleted key returns |
| `Runs.GenerationsOnlyGrow` | src/store.rs:464-468 | between any two points of a run an installed file never changes, a new generation lies above all that were there, and the newest never sinks |
| `Runs.MomentsOnlyGrow` | src/store.rs:464-468 | the same between any two moments of a run, those in the middle of an operation or a recovery included |
| `Runs.RemovedGenerationsStayAway` | src/store.rs:794-815 | no generation is used twice: one that was on disk at some moment, even in the middle of a compaction, and gone at a later one never comes back, and one that stays keeps its file |
| `Runs.EventsHaveMoments` | src/store.rs:287-300 | the moments of a run include the start of every event and every call of a completed one |
| `Runs.AnswerIsLogical` | src/store.rs:131-160 | between operations `get` answers from the logical map of the directory |
| `Runs.SearchIsOverlay` | src/store.rs:144-159 | the newest-first search that stops at the first hit finds what overlaying the segments oldest first holds |
| `Runs.SearchStopsAtFirst` | src/store.rs:144-159 | in any state the search ends at the first segment that knows the key or cannot be read |
| `Runs.EmptyDirectoryIsSound` | src/store.rs:65-99 | a new directory is a place where runs may start, and means the empty map |
| `Runs.EmptyDirectoryOpens` | src/store.rs:809-815 | opening it serves the empty map, with generation 1 next |
| `Runs.LastGenerationDoesNotOpen` | src/store.rs:809-812 | a sound directory whose only segment has the last generation does not open |
| `Runs.OperationLeavesOpenableIff` | src/store.rs:265-267 | what any operation leaves, done or cut short by its own error, opens if and only if the generations did not run out in it |
| `Runs.FlushLeavesOpenableIff` | src/store.rs:464-468 | the same for a flush alone: if and only if a generation was left after its own |
| `Operations.BelowThresholdNothingIsFlushed` | src/memtable.rs:56-58 | a set or delete that stays below the threshold makes one call, the append, and installs nothing |
| `Operations.AtThresholdAllIsFlushed` | src/store.rs:109-111 | one that reaches it installs a segment, and leaves memtable and log empty |
| `Operations.AcknowledgedWriteIsBelowThreshold` | src/store.rs:109-111 | in any state an acknowledged set or delete leaves the memtable empty or below the threshold |
| `Operations.CompactionLeavesNothingUnflushed` | src/store.rs:163-168 | in any state an acknowledged compaction leaves the memtable empty |
| `Operations.AcceptsIff` | src/record.rs:39-99 | keys and values are accepted up to 67108864 bytes |
| `Operations.WriteSucceedsIff` | src/store.rs:101-129 | an accepted set or delete succeeds if and only if there is room for the segment it writes and a generation for it |
| `Operations.CompactSucceedsIff` | src/store.rs:162-320 | the same for a compaction |
| `Operations.NextIsOneAboveNewest` | src/store.rs:809-815 | the next generation is 1 in an empty store and otherwise one above the newest |
| `Operations.NextStaysTight` | src/store.rs:466-468 | through any run a serving process would use next what its directory gives |
| `Operations.AnsweringIsAStep` | src/store.rs:131-160 | what `get` returns between operations is an answer of the run |
| `Operations.RefusingIsAStep` | src/store.rs:101-129 | a refused set or delete is a step that changes nothing |
| `CrashSafety.AppendIsSafe` | src/wal.rs:41-49 | dying in an append leaves the old map or the new one; completing it leaves the new one |
| `CrashSafety.InstallIsSafe` | src/store.rs:437-464 | installing the flushed segment while the log is still full changes nothing |
| `CrashSafety.TruncateIsSafe` | src/store.rs:470-474 | emptying the log after the segment is installed changes nothing |
| `CrashSafety.FlushIsSafe` | src/store.rs:408-484 | dying anywhere in a flush leaves the same map, and the flush ends in the planned directory |
| `CrashSafety.FlushedIsIdle` | src/store.rs:464-476 | after a flush the memtable, the readers and the next generation again agree with the directory |
| `CrashSafety.MarkIsSafe` | src/store.rs:218-225 | putting the marker in place changes nothing |
| `CrashSafety.SwitchIsSafe` | src/store.rs:227-239 | installing the merged segment under the marker replaces all old segments at once without changing the map |
| `CrashSafety.RemovalIsSafe` | src/store.rs:287-300 | with marker and output in place, old segments may be removed one by one |
| `CrashSafety.UnmarkIsSafe` | src/store.rs:302-306 | the marker may go once only surviving segments are left |
| `CrashSafety.MergeIsSafe` | src/store.rs:177-306 | dying anywhere between building the merged segment and removing the marker leaves the same map |
| `CrashSafety.MergedIsIdle` | src/store.rs:265-285 | after a merge the process again agrees with the directory |
| `CrashSafety.CompactionIsWellFormed` | src/store.rs:203-222 | the marker that compaction writes lists at least two distinct generations, all below the output, and they are exactly those on disk |
| `Recovery.RecoverIsSafe` | src/store.rs:643-742 | dying anywhere in recovery leaves the same map, and recovery ends with no marker and the surviving segments |
| `Recovery.RecoveryIsPossible` | src/store.rs:684-717 | in a directory a crash can leave, recovery never meets a missing old segment, a bad marker or an invalid output |
| `Recovery.OpenIsSafe` | src/store.rs:65-99 | dying anywhere in an open leaves the same map; completing it leaves no temporary file, no marker and no torn tail |
| `Recovery.OpenSucceedsIff` | src/store.rs:762-824 | an open of a directory a crash can leave succeeds if and only if no surviving segment has the last generation |
| `Recovery.OpenedIsIdle` | src/store.rs:79-98 | after an open the process agrees with the directory and serves its logical map |
| `Recovery.OldSegmentsGoOnlyBehindAGoodOutput` | src/store.rs:703-725 | in any directory, wherever an open dies or fails: an old segment is gone only if an accepted marker lists it and the output is there, opens and stays |
| `Recovery.RecoveryRefuses` | src/store.rs:676-713 | an unacceptable marker, an output that does not open and a gap among the old segments are refused, and only a temporary marker is removed |
| `Recovery.RecoveryCompletesOrRollsBack` | src/store.rs:684-737 | otherwise exactly the listed segments go, or none, and every file that stays is unchanged |
| `Recovery.OpenKeepsLog` | src/store.rs:82-86 | an open that fails keeps the whole log, and one that succeeds a prefix of it |
| `FileSystems.CrashStateIff` | src/wal.rs:41-49 | what a crash can leave: any number of calls made, and any prefix of the next write |
| `Stores.Store.OpenWithThreshold` | src/store.rs:65-99 | for any directory: succeeds exactly when `OpenOk` holds; its calls and where they leave the directory, failed opens included; a completed one holds the loaded state |
| `Stores.Store.Set` | src/store.rs:101-114 | in any state: refuses what cannot be encoded and changes nothing, otherwise logs, remembers and flushes at the threshold, with what each error leaves; between operations exactly the plan, and success unless generations run out |
| `Stores.Store.Delete` | src/store.rs:116-129 | the same for a tombstone |
| `Stores.Store.Get` | src/store.rs:131-160 | between operations, the value of the key in the logical map |
| `Stores.Store.Compact` | src/store.rs:162-320 | in any state: flush, then merge when there are two segments, with what each error leaves; between operations exactly the plan, success unless generations run out, and the exact statistics |
| `Stores.Store.MergeSegments` | src/store.rs:173-320 | the merge part alone, in any state and between operations, with its statistics |
| `Stores.Store.SwitchTo` | src/store.rs:177-227 | build, mark, install: what an unreadable input, an output that cannot be written and a marker that is already there leave behind |
| `Stores.Store.FinishMerge` | src/store.rs:241-306 | an output that does not open is taken back with its marker, and the old segments are still there; the last generation is left in place; otherwise the old segments go in order, then the marker |
| `Stores.Store.FlushMemtable` | src/store.rs:408-484 | in any state: succeeds exactly when the records can be written and a generation is left; its calls are the flush plan; the log and the memtable are given up only then |
| `Stores.Store.Verify` | src/store.rs:346-386 | in any state: the first error of the log or of a segment, or the counts; between operations it changes nothing and succeeds exactly when the count of all records fits |
| `Stores.RecoverPendingCompaction` | src/store.rs:643-742 | for any directory: succeeds exactly when `RecoverOk` holds, with exactly the calls of the recovery plan; when it fails, only a temporary marker is gone |
| `Stores.RemoveStaleTempFiles` | src/store.rs:826-853 | removes exactly the temporary segments, in listing order |
| `Stores.LoadSegments` | src/store.rs:762-824 | succeeds exactly when every file opens and a generation is left; readers of exactly the segments, newest first, and the next generation |
| `Outcomes.PerformedIsAStep` | src/store.rs:101-129 | a method call is a step of a run: acknowledged, or cut off when it returns an error |
| `Outcomes.DyingIsAStep` | src/store.rs:101-129 | dying anywhere among the calls a method makes is an interrupted step of a run |
| `Outcomes.OpeningIsAStep` | src/store.rs:65-99 | a completed open is a step of a run |
| `Outcomes.FailedOpeningIsAStep` | src/store.rs:65-99 | an open that returns an error, or dies anywhere among its calls, is an interrupted step of a run |
| `Outcomes.WrittenIsPerformed` | src/store.rs:101-129 | what `set` and `delete` do in any state comes, between operations, to the write plan |
| `Outcomes.CompactedIsPerformed` | src/store.rs:162-320 | what `compact` does in any state comes, between operations, to the compaction plan and its statistics |
| `Outcomes.CompactReportsTheMap` | src/store.rs:313-319 | the live records a compaction reports are the keys of the map, and no more than the records it read |
| `Outcomes.MergeReports` | src/store.rs:313-319 | the report of a merge, from the directories before and after: how many segments, records and bytes there were, how many keys the map has, how long the one file is that is there now |
| `Outcomes.CompactReports` | src/store.rs:162-320 | the same for a compaction, its flush included; with fewer than two segments it reports nothing and merges nothing |
| `Outcomes.CompactionLeavesTheMap` | src/compaction.rs:60-68 | after a compaction that merged, the one segment holds the value of each key of the map and no tombstone |
| `Outcomes.TakingBackKeepsOldSegments` | src/store.rs:246-262 | taking back an output that does not open: wherever it dies, nothing has changed or recovery succeeds and keeps exactly the old segments |
| `Outcomes.FailedSwitchChangesNothing` | src/store.rs:213-225 | a compaction that fails before it installs has changed no segment, marker or log |
| `Outcomes.FailedFlushKeepsData` | src/store.rs:432-468 | a flush that fails gives up neither the memtable nor the log, and no other segment |
| `Outcomes.VerifiedIff` | src/store.rs:346-386 | in any state verification succeeds if and only if the log scans and every segment, newest first, reads to its end; and then it has counted them all |
| `Outcomes.RemovableStopsAtMissing` | src/store.rs:298-300 | the removal of old segments goes on until one is missing |
| `Outcomes.VerifiedBetween` | src/store.rs:346-386 | between operations verification counts every record of every segment and can only fail because the count overflows |
| `Compactions.CompactAll` | src/compaction.rs:18-93 | writes the live entries of the merged inputs as one temporary segment; the exact counts and byte totals; what a failed build leaves |
| `Compactions.MergeAnswersLikeSearch` | src/compaction.rs:36-68 | overwriting oldest to newest and dropping tombstones answers every key as the newest-first search does |
| `Compactions.MergeIsOverlay` | src/compaction.rs:36-58 | inserting the segments oldest first overlays them |
| `Compactions.MergeKeepsAtMost` | src/compaction.rs:68-70 | never more live records after than records before |
| `Compactions.ByteCountIsSum` | src/compaction.rs:37-38 | the bytes counted are the sum of the lengths of the files, in whatever order they are read |
| `Compactions.RecordCountIsSum` | src/compaction.rs:46-46 | the records counted are the sum of what the files hold |
| `Damage.DamagedSegmentIsNotRead` | src/segment.rs:339-428 | a burst of at most four bytes in any record of a written segment: reading all records reports the checksum mismatch |
| `Damage.DamagedSegmentIsNotServed` | src/segment.rs:265-302 | a lookup answers what is undamaged or reports the mismatch; the damaged record is never served |
| `Damage.DamageIsNotServed` | src/store.rs:131-160 | `get` in a store with such a segment returns the value in the map or the checksum mismatch |
| `Damage.DamagedSegmentOpens` | src/segment.rs:172-263 | opening does not notice such damage |
| `Damage.EveryValueCanBeDamaged` | src/segment.rs:778-800 | every record with a value can be damaged so |
| `Damage.DamageFailsVerification` | src/store.rs:346-386 | verification of a store that holds a damaged segment fails |
| `Damage.DamageIsNamed` | src/store.rs:346-386 | and, if all else is sound, with the checksum mismatch |
| `Damage.DamageIsNotMerged` | src/compaction.rs:42-44 | a compaction stops at a damaged segment before it changes any segment, log or marker |
| `Wal.Append` | src/wal.rs:41-49 | appends the whole encoding or, if there is none, nothing |
| `Wal.Replay` | src/wal.rs:51-126 | for arbitrary bytes: the scanned records, the cut, and counts that add up to the file length; what is cut could begin a longer record; on an error nothing changes and no record may start where it stopped |
| `Wal.ScanIsSound` | src/wal.rs:69-109 | the bytes kept are exactly the encodings of the records returned; what is cut starts with a torn record |
| `Wal.ScanIsLongest` | src/wal.rs:69-109 | no longer prefix is a list of encodings, and any shorter one is a prefix of the same list |
| `Wal.ScanIff` | src/wal.rs:69-109 | what replay returns, from the bytes alone: complete encodings, and then nothing or bytes that a longer record may start with |
| `Wal.ImplausibleLengthIsRefused` | src/record.rs:155-161 | complete encodings followed by a length field beyond the bound: replay fails, so nothing is cut |
| `Wal.ScanFailsIff` | src/wal.rs:111-117 | replay fails if and only if complete encodings are followed by bytes that neither hold a record nor can begin one |
| `Wal.ScanOfFrames` | src/wal.rs:69-89 | replay passes over complete encodings and goes on with what follows |
| `Wal.TornAppendIsCut` | src/wal.rs:91-108 | complete records followed by any strict prefix of one more: exactly the complete ones |
| `Wal.ReplayAfterCut` | src/wal.rs:102-102 | after the cut a second replay gives the same records and cuts nothing, and later appends are replayed after them |
| `Wal.DamagedLogIsRefused` | src/wal.rs:111-113 | a burst of damage in any record of a log makes replay return the checksum mismatch |
| `Records.Encode` | src/record.rs:71-126 | which records are refused, with which error, and the bytes of the others |
| `Records.DecodeOfFrame` | src/record.rs:128-252 | decoding an encoding, whatever follows it, gives the record and its length |
| `Records.FrameOfDecode` | src/record.rs:128-252 | decoding succeeds on nothing but encodings |
| `Records.TornFrameIsTruncated` | src/record.rs:154-205 | every strict prefix of an encoding is reported as truncated |
| `Records.FramesArePrefixFree` | src/record.rs:128-252 | a byte string splits into encodings in one way only |
| `Decoding.DecodesIffComplete` | src/record.rs:128-252 | decoding succeeds if and only if an encoding is at the front |
| `Decoding.TruncatedIffTorn` | src/record.rs:128-205 | it says truncated if and only if the bytes can begin a longer record: plausible operation and lengths as far as they are there |
| `Decoding.CorruptIff` | src/record.rs:136-212 | it says corrupt if and only if the operation is unknown, a length that is there exceeds 67108864, or a whole delete carries a value |
| `Decoding.ImplausibleLengthIsBad` | src/record.rs:155-199 | a length beyond the bound is corrupt, never a crash tail |
| `Decoding.ChecksumDecides` | src/record.rs:229-252 | with all in place the checksum decides, and the fields are those at their offsets |
| `Decoding.TruncationTellsWhatIsNeeded` | src/record.rs:128-205 | the error says how many bytes the record would need |
| `Decoding.FrameIsShape` | src/record.rs:101-125 | an encoding field by field, with its operation byte and widths |
| `Bytes.LittleEndian4` | src/record.rs:153-153 | four bytes as a number, the first the least significant |
| `Bytes.LittleEndian8` | src/segment.rs:214-214 | eight bytes as a number |
| `Bytes.LessIffBefore` | src/segment.rs:71-77 | keys are ordered by their first difference, a prefix before what it begins |
| `Records.BurstIsDetected` | src/record.rs:214-229 | damage within four consecutive bytes of the key, or of the value and checksum, is a checksum mismatch |
| `Crc32.BuildTable` | src/crc32.rs:7-25 | entry i is eight bit steps of i |
| `Crc32.ComputeChecksum` | src/crc32.rs:27-37 | the table-driven loop computes the bit-at-a-time CRC-32 of section 8 of RFC 1952 |
| `Crc32.TableStep` | src/crc32.rs:31-33 | one table lookup does the work of eight bit steps |
| `Crc32.FeedIsLongDivision` | src/crc32.rs:27-37 | feeding bytes is long division of the message read as one number |
| `Crc32.BitStepsInjective` | src/crc32.rs:13-19 | bit steps lose nothing on 32 bits |
| `Crc32.ResidueIffChecksum` | src/crc32.rs:27-37 | a trailer is the checksum of what precedes it exactly when the register ends at the residue |
| `Crc32.CheckValues` | src/crc32.rs:3-37 | three check values, which fix polynomial, start, end and order of bits |
| `Crc32.XorDigits` | src/crc32.rs:16-16 | exclusive or, digit by digit |
| `Segments.SegmentWriter.WriteAll` | src/segment.rs:67-107 | succeeds exactly when keys strictly increase, records encode and offsets fit; keeps the writer consistent |
| `Segments.SegmentWriter.Finish` | src/segment.rs:109-159 | the file is the segment of the records written, and the tracked offset is its length; on an error what was buffered still reaches the file |
| `Segments.WritableIff` | src/segment.rs:67-107 | what the writer accepts, in plain terms: keys that ascend byte by byte, fields of at most 67108864 bytes, offsets below 2^64 |
| `Segments.EverySixteenthIsIndexed` | src/segment.rs:88-93 | records 0, 16, 32 and so on are indexed, each with its key and offset |
| `Segments.IndexEntryLayout` | src/segment.rs:112-122 | an index entry on disk |
| `FileFormat.OpensIff` | src/segment.rs:172-263 | any file opens if and only if it is a segment file: header, area, ascending index, length and letters; and then with that index |
| `FileFormat.WrittenIsSegmentFile` | src/segment.rs:109-159 | what the writer writes is one |
| `FileFormat.RecordAtIff` | src/segment.rs:339-428 | in any file a record is read at an offset if and only if its encoding lies there, before the index |
| `FileFormat.ReadAllIff` | src/segment.rs:304-329 | all records are read if and only if the area is their encodings and nothing else |
| `FileFormat.LookupIsSound` | src/segment.rs:265-302 | in any file a lookup answers from whole records, after passing smaller keys |
| `SegmentReaders.Open` | src/segment.rs:172-263 | computes the checks and the index of `OpenSegment` |
| `SegmentReaders.ReadSparseIndex` | src/segment.rs:432-532 | the loop reads what `ReadIndex` describes |
| `SegmentReaders.IterAll` | src/segment.rs:304-329 | the loop reads what `ReadAllFrom` describes |
| `SegmentReaders.LookupKey` | src/segment.rs:265-302 | the two loops find what `ScanFrom` finds from the indexed start, and decode as many records as `ScanReads` counts |
| `SegmentReaders.WrittenSegmentOpens` | src/segment.rs:172-263 | opening what the writer wrote succeeds and rebuilds the writer's sparse index |
| `SegmentReaders.WrittenSegmentReadsBack` | src/segment.rs:304-329 | reading all records gives exactly the records written |
| `SegmentReaders.LookupIsFind` | src/segment.rs:265-302 | a lookup through the sparse index answers what a linear search answers: value, tombstone or absent |
| `SegmentReaders.LookupReadsAtMost17` | src/segment.rs:268-299 | no lookup in a written segment decodes more than 17 records |
| `SegmentReaders.ScanReadsCounts` | src/segment.rs:276-299 | a scan decodes the records with smaller keys and the next one |
| `SegmentReaders.StartIsLastIndexed` | src/segment.rs:266-274 | the index sends a lookup to the last indexed record not above the key, sixteen records before the next |
| `Markers.WriteMarker` | src/store.rs:493-544 | refuses when a marker exists; otherwise the calls of the marker plan |
| `Markers.ReadMarker` | src/store.rs:546-641 | the loop computes `ParseMarker` |
| `Markers.MarkerReadsBack` | src/store.rs:493-641 | reading a written well-formed marker gives the marker back |
| `Markers.AcceptedMarkersAreWellFormed` | src/store.rs:594-635 | no other marker is ever accepted |
| `Markers.MarkerAcceptedIff` | src/store.rs:546-641 | a marker is accepted if and only if it is the header and then, among blank lines, one output line and old lines that make it well formed |
| `Markers.MarkerWrittenOut` | src/store.rs:520-526 | a marker, letter by letter |
| `Markers.BytesAreCodes` | src/store.rs:547-547 | its bytes are the codes of its characters |
| `Markers.LinesCut` | src/store.rs:549-559 | where `lines` cuts: at a newline, with a carriage return before it or not, and at the end |
| `Markers.BlankIff` | src/store.rs:560-562 | which lines are blank |
| `Names.NamesAreRecognised` | src/store.rs:855-879 | the directory scan tells the kinds of file apart and reads the generation back |
| `Names.NamesAreDistinct` | src/store.rs:855-861 | different files have different names |
| `Names.NamesWrittenOut` | src/store.rs:855-861 | the four kinds of name, letter by letter |
| `Names.NamesAreEquallyLong` | src/store.rs:855-861 | every generation takes twenty digits |
| `Names.ParseNameIff` | src/store.rs:863-879 | which names are taken for segments and for temporary segments, and with which generation |
| `Names.ParseU64Iff` | src/store.rs:572-577 | which numbers are read |
| `Names.ValueOfDigits` | src/store.rs:878-878 | a number is the value of its digits in base ten |
| `Memtables.Memtable.Set` | src/memtable.rs:18-29 | the table and size after a set |
| `Memtables.Memtable.Delete` | src/memtable.rs:31-42 | the table and size after a delete |
| `Memtables.SizeStaysAccurate` | src/memtable.rs:18-67 | through any sequence of changes whose sums fit, the size is the sum over the entries |
| `Memtables.PutKeepsAccurate` | src/memtable.rs:84-88 | one insertion keeps it so |
| `Memtables.PutSaturates` | src/memtable.rs:18-42 | one insertion makes the size the sum over the entries, or 2^64 - 1 if that is less |
| `Memtables.PutNeverWraps` | src/memtable.rs:18-42 | in any state one insertion takes off the old entry, at most to zero, and adds the new one, at most to 2^64 - 1 |
| `Memtables.ReplayedSizeIsAccurate` | src/store.rs:750-760 | a memtable filled by replay has the size of its entries |
| `Memtables.TotalOfEntries` | src/memtable.rs:84-88 | the sum counts key, value and 16 bytes for each entry, and no value for a tombstone |
| `Tables.TableOfSorted` | src/memtable.rs:60-62 | listing a table in key order and inserting the records again gives the table back |
| `Tables.SortedIsStrictlySorted` | src/memtable.rs:60-62 | the listing has strictly increasing keys |
| `Tables.SortedAscends` | src/memtable.rs:60-62 | of two entries of the listing the earlier has the smaller byte where they first differ |
| `Tables.FindIsGet` | src/segment.rs:265-302 | in a sorted list, searching and looking the table up agree |
| `Layers.LoadedIsLayered` | src/store.rs:791-820 | readers loaded newest first stack to the segments layered by generation |

## Left out

- The command line, logging, error texts, benches and scripts.
- File handles, seek positions and directory creation: files are byte strings, and a reader keeps the bytes it opened.
  When a `BufWriter` flushes early is not modelled; a torn write may have left any prefix, which covers it.
- A missing `wal.log` is identified with an empty one: replay treats them alike, and opening creates the file.
- Directories that hold files StoneKV does not write: unpadded segment names, foreign files, subdirectories. So the
  "invalid segment filename" and "duplicate generation" errors have no state in which they occur.
- A marker that holds characters outside ASCII is taken as unreadable.
- Loss of power between a rename and the next directory sync, and runs that go on after a returned error.
- Overflow checks of 64-bit offsets that no file below 2^64 bytes can trigger, in the readers.
- Threads: callers share a store behind a lock.
- General damage: a moderate change of a length field reads as a torn tail, as `src/record.rs:27-38` says.
- `get` against `iter_all` on files that opened but that the writer did not write: the reader does not check that index
  keys match records.
- That compaction never grows the file: it can, when a dropped short key makes a long key an index entry.
- `stats` and the accessors.
- Which bytes of a segment that could not be written stay in its temporary file: nothing reads them.
