# In-memory store with a segmented append-only log: a Dafny model

This project models the write and recovery path of the in-memory key-value
store in `backend/leanstore/storage/inmem` and the per-worker WAL ring buffer
in `backend/leanstore/concurrency-recovery/Logging.cpp`. It is a Dafny
model, and the properties below are proved about it. It has six parts:

- **Payload codecs** (`aof_codec.dfy`, module `AofCodec`).
  - `serialize_for_wal` / `deserialize_from_wal` handle a (key, value) pair with two-byte native length prefixes.
  - `serialize_for_log` / `deserialize_from_log` handle the one-byte record-type tag.
  - Round trips are proved in both directions.
- **The namespaced append-only file** (`segment_policy.dfy`, `aof_frames.dfy`, `aof_log.dfy`).
  - `AppendOnlyLog` is a class whose methods update the counters `lastSequenceNo`, `currentSegmentIndex`, `oldestSegmentIndex` and `byteOffset`, the per-namespace map, and the segment files.
  - Segment files are kept by index, each as the list of entries written to it.
  - Recovery reads a directory given as a list of names plus the bytes of each file. The frame reader works on those bytes.
  - `StartRecovery` is a loop proved against a fold, `AofFrames.Recover`. Its properties (maximum sequence number, last sequence number per namespace, skipping invalid frames) are proved as lemmas about that fold.
  - `ReplayNamespace` is a loop proved against `AofFrames.ReplayCalls`, the callbacks of a replay. Lemmas about that function give its namespace filtering and its skipping of invalid frames and of other namespaces' frames.
- **The earlier, namespace-less revision of the same file** (`core_aof.dfy`): the class `CoreLog`.
- **The store's order and the ordered map** (`lexicographic.dfy`, `inmem_keys.dfy`).
  - The order is `std::lexicographical_compare` on key bytes, and is proved to be a strict weak order.
  - The `std::map` is its in-order sequence of records.
- **The bounded store with LRU eviction** (`inmem.dfy`).
  - `Inmem` is a class over `store`, `lru_list` and `lru_map`.
  - A list node's identity stands for the iterator that `lru_map` holds.
  - `Invariant` holds in every reachable state. `Coherent` ("the LRU structures hold exactly the stored keys") holds only for histories without `remove`.
- **The WAL ring buffer** (`wal_ring.dfy`).
  - Free-space arithmetic, the carriage-return wrap, and the cursor advance of the submit calls.
  - The walk over the current transaction's entries, proved against a recursive reference walk.

Shared support: `wrappers.dfy` (Option and Result) and `bytes.dfy`
(fixed-width integers and their little-endian images).

Behaviour the model keeps as the code has it, including behaviour that looks
unintended:

- **Replay order.** Segments are replayed in lexicographic order of their
  file names, not in index order, so `segment_10` comes before `segment_2`
  (`AofFrames.SegmentTenSortsBeforeTwo`).
- **Type byte.** `ParseAndReplayEntry` reads the record type from byte 0 and
  the key length from bytes 0-1 of the same payload. A tagged payload is
  therefore misread (`AofFrames.ParseMisreadsTaggedPayload`,
  `AofFrames.TaggedInsertUnparseable`).
- **LRU after remove.** `remove` never touches `lru_list` / `lru_map`, so
  "LRU membership is exactly the stored keys" does not survive a remove
  (`InmemStore.RemoveBreaksCoherence`). The capacity bound after an insert is
  proved only for coherent states.
- **Stubs.** `countEntries` answers 0 whatever the store holds.
- **Failed rotation.** `LogCommand` takes the next sequence number and
  updates the per-namespace map before rotating, so a failed rotation still
  uses up a number and still records it for the namespace. `RotateLog`
  advances the segment index even when the new file cannot be opened.
- **Re-initialisation.** `Init` on a log whose stream is already open
  cannot reopen it: the open fails and sets the stream's fail state, yet the
  stream is still open, so `Init` succeeds whatever `openOk` says. From then
  on every write adds nothing to any file while `LogCommand` still reports
  success, until a rotation's open succeeds and clears the fail state
  (`streamFailed`, `SegmentPolicy.WriteTarget`).
- **scanDesc.** `scanDesc` steps back before each call, so the start key
  itself is never visited.

## Model

| member | source | states |
|---|---|---|
| AofCodec.SerializeForWal | backend/leanstore/storage/inmem/aof.hpp:78-88 | output is 4 + keyLength + valueLength bytes, with the key length at offset 0 and the value length at offset 2 + keyLength as native u16 |
| AofCodec.DeserializeFromWal | backend/leanstore/storage/inmem/aof.hpp:90-104 | requires both prefixes and the bytes they announce inside the input (no bounds checks); returns key and value slices at offsets 2 and 4 + keyLength, with their lengths |
| AofCodec.WalRoundTrip | backend/leanstore/storage/inmem/aof.hpp:78-104 | decoding an encoded pair returns exactly the first keyLength key bytes, the first valueLength value bytes and the two lengths |
| AofCodec.WalReencode | backend/leanstore/storage/inmem/aof.hpp:78-104 | re-encoding a decoded payload rebuilds exactly the bytes the decoder consumed |
| AofCodec.SerializeForLog | backend/leanstore/storage/inmem/aof.hpp:105-110 | output is one byte longer than the data and starts with the record type |
| AofCodec.DeserializeFromLog | backend/leanstore/storage/inmem/aof.hpp:111-119 | fails exactly on empty input; otherwise the remainder is one byte shorter than the input |
| AofCodec.LogRoundTrip | backend/leanstore/storage/inmem/aof.hpp:105-119 | decoding a tagged payload returns the type and the data |
| AofCodec.LogReencode | backend/leanstore/storage/inmem/aof.hpp:105-119 | any nonempty input decodes, and re-encoding the result gives the input back |
| AofCodec.TaggedRoundTrip | backend/leanstore/storage/inmem/aof.hpp:78-119 | both layers together return the record type, key, value and lengths |
| Bytes.LittleEndianRoundTrip | backend/leanstore/storage/inmem/aof.hpp:80-86 | reading back a width-byte native image of n gives n |
| Bytes.LittleEndianReencode | backend/leanstore/storage/inmem/aof.hpp:93-101 | writing back a value read from bytes gives the same bytes |
| Bytes.U16RoundTrip | backend/leanstore/storage/inmem/aof.hpp:80-86 | a u16 written as two native bytes is read back unchanged wherever it sits |
| Bytes.U16Reencode | backend/leanstore/storage/inmem/aof.hpp:93-101 | writing back a u16 read at an offset gives the same two bytes |
| AofFrames.GetEntrySize | backend/leanstore/storage/inmem/aof.cpp:89-91 | entry size is the payload size plus the 64-byte in-memory WALEntry struct |
| AofFrames.ReadWalEntry | backend/leanstore/storage/inmem/aof.cpp:254-276 | a frame is read iff the 33-byte header and the announced payload lie inside the file; fields are read in order version, sequence, namespace, crc, timestamp, size, payload |
| AofFrames.FrameRoundTrip | backend/leanstore/storage/inmem/aof.cpp:254-276 | a frame in the reader's layout is read back as the same entry, ending right after it, wherever it sits in a file |
| AofFrames.FramesOfEncoded | backend/leanstore/storage/inmem/aof.cpp:254-276 | a segment written frame by frame is read back as exactly those entries, in order |
| AofFrames.TornFrameDropped | backend/leanstore/storage/inmem/aof.cpp:182-188 | a frame cut short at the end of a segment yields no entry |
| AofFrames.CorruptedPayloadRejected | backend/leanstore/storage/inmem/aof.cpp:278-293 | a validated entry whose payload is changed to one with another checksum fails validation |
| AofFrames.DetermineRecordType | backend/leanstore/storage/inmem/aof.cpp:310-313 | the record type is the payload's first byte |
| AofFrames.ParseAndReplayEntry | backend/leanstore/storage/inmem/aof.cpp:295-308 | the callback arguments exist exactly for payloads the unchecked reads stay inside; they are the namespace, byte 0 as type, and the key/value deserialize_from_wal reads from offset 0 |
| AofFrames.ParseUntaggedPayload | backend/leanstore/storage/inmem/aof.cpp:295-313 | on an untagged payload the key and value come back intact and the reported type is the key length's low byte |
| AofFrames.ParseMisreadsTaggedPayload | backend/leanstore/storage/inmem/aof.cpp:295-313 | on a tagged payload the type is right but the key length read is tag + 256 * (low byte of the real key length) |
| AofFrames.TaggedInsertUnparseable | backend/leanstore/storage/inmem/aof.cpp:295-313 | a tagged INSERT of "a" -> "b" is a 7-byte payload announcing a 257-byte key, so it cannot be parsed |
| AofFrames.FilterSegments | backend/leanstore/storage/inmem/aof.cpp:243-252 | keeps exactly the listed names starting with "segment_", each no more often than listed |
| AofFrames.GetSegmentFiles | backend/leanstore/storage/inmem/aof.cpp:243-252 | the names starting with "segment_", sorted lexicographically, as a permutation of the filtered listing |
| Lexicographic.SortAsc | backend/leanstore/storage/inmem/aof.cpp:250 | the result is sorted and a permutation of the input |
| AofFrames.SegmentFileName | backend/leanstore/storage/inmem/aof.cpp:122-123 | the file RotateLog opens for an index is "segment_" followed by the index's decimal digits |
| AofFrames.SingleDigitOrder | backend/leanstore/storage/inmem/aof.cpp:243-252 | for indices below 10, name order is index order |
| AofFrames.SegmentTenSortsBeforeTwo | backend/leanstore/storage/inmem/aof.cpp:243-252 | segment_10 sorts, and is replayed, before segment_2 |
| AofFrames.OpenablePrefix | backend/leanstore/storage/inmem/aof.cpp:175-180 | the number of leading segments that open before the first one that does not |
| AofFrames.ScannedFramesReplayable | backend/leanstore/storage/inmem/aof.cpp:166-207 | the frames a recovery scan reads can all be parsed when every listed segment file's valid frames can |
| AofFrames.ScannedFileFrames | backend/leanstore/storage/inmem/aof.cpp:175-204 | a segment file opened after all the earlier ones were opened contributes its frames to what the scan reads |
| AofFrames.ReplayCalls | backend/leanstore/storage/inmem/aof.cpp:217-241 | there are no more callback invocations than frames |
| AofFrames.RecoverAppend | backend/leanstore/storage/inmem/aof.cpp:166-207 | scanning two runs of frames is scanning the first, then the second from the resulting state |
| AofFrames.RecoverReplaysValidFrames | backend/leanstore/storage/inmem/aof.cpp:182-202 | the callbacks of StartRecovery are exactly the unfiltered replay of the frames: one per valid frame, none for invalid ones |
| AofFrames.RecoverLastSequence | backend/leanstore/storage/inmem/aof.cpp:196 | the recovered last sequence number is at least the old one and every valid frame's, and equals one of them |
| AofFrames.LastValidFor | backend/leanstore/storage/inmem/aof.cpp:197 | the index of a namespace's last valid frame, or none when it has no valid frame |
| AofFrames.RecoverNamespaceLast | backend/leanstore/storage/inmem/aof.cpp:197 | after the scan a namespace's entry is the sequence number of its last valid frame in scan order; without valid frames its entry is unchanged |
| AofFrames.RecoverNamespaceKeys | backend/leanstore/storage/inmem/aof.cpp:197 | the namespaces known after the scan are those known before plus those of valid frames |
| AofFrames.ReplayCallsAppend | backend/leanstore/storage/inmem/aof.cpp:217-241 | replay distributes over concatenation of frame runs, and so of segments |
| AofFrames.InvalidFrameSkipped | backend/leanstore/storage/inmem/aof.cpp:190-193 | a frame that fails validation is skipped and the frames after it are still replayed |
| AofFrames.OfNamespace | backend/leanstore/storage/inmem/aof.cpp:232-234 | keeps exactly the callbacks of one namespace |
| AofFrames.NamespaceReplayIsFiltered | backend/leanstore/storage/inmem/aof.cpp:217-241 | frames a full replay can parse, a namespace replay can parse too; replaying one namespace equals replaying everything and keeping that namespace's callbacks |
| AofFrames.OtherNamespaceFrameSkipped | backend/leanstore/storage/inmem/aof.cpp:231-236 | a valid but unparseable frame of namespace 7 blocks a full replay, yet a replay of namespace 3 can run over it and makes no callback |
| AofFrames.ReplayOfValidFrames | backend/leanstore/storage/inmem/aof.cpp:182-202 | when every frame validates, there is one callback per frame, in frame order |
| SegmentPolicy.OldestAfterRotation | backend/leanstore/storage/inmem/aof.cpp:115-120 | the oldest index advances by one exactly when one segment too many would be live, which brings the live count back to at most maxSegmentCount |
| SegmentPolicy.RemoveSegment | backend/leanstore/storage/inmem/aof.cpp:134-136 | deleting a segment removes exactly that index and keeps the other files |
| SegmentPolicy.OpenSegment | backend/leanstore/storage/inmem/aof.cpp:122-128 | a successful open adds the index, created empty when missing, and keeps existing contents; a failed open changes nothing |
| SegmentPolicy.WriteEntry | backend/leanstore/storage/inmem/aof.cpp:93-109 | the entry is appended to the open segment only; without an open stream nothing changes |
| SegmentPolicy.SegmentsAfterRotation | backend/leanstore/storage/inmem/aof.cpp:111-132 | after rotation the next segment exists when its open succeeded, other files are kept, and the oldest is gone when there were too many |
| AofLog.NextSequenceNo | backend/leanstore/storage/inmem/aof.cpp:61 | the uint64_t increment: one more, or 0 after the largest value |
| AofLog.NewEntry | backend/leanstore/storage/inmem/aof.cpp:64-71 | the entry LogCommand builds passes validation and carries the sequence number, namespace, payload and timestamp |
| AofLog.AppendOnlyLog.constructor | backend/leanstore/storage/inmem/aof.cpp:4-13 | counters at zero, no stream open, limits of 10 MiB and 5 segments |
| AofLog.AppendOnlyLog.Init | backend/leanstore/storage/inmem/aof.cpp:27-56 | fails and changes nothing when the directory cannot be prepared; otherwise zeroes the four counters and opens segment_0, failing iff that open fails; on an already-open stream it succeeds whatever the open does, keeps the old file and leaves the stream failed |
| AofLog.AppendOnlyLog.RotateLog | backend/leanstore/storage/inmem/aof.cpp:111-132 | the current index advances by one even when the open fails; retention keeps at most maxSegmentCount live; byteOffset restarts and the fail state clears only on success |
| AofLog.AppendOnlyLog.LogCommand | backend/leanstore/storage/inmem/aof.cpp:58-109 | sequence number +1 (mod 2^64) and the namespace's entry set even on failure; rotation iff byteOffset + entrySize > max; byteOffset and files after success and failure, the entry reaching no file while the stream is failed though the call succeeds |
| AofLog.AppendOnlyLog.StartRecovery | backend/leanstore/storage/inmem/aof.cpp:166-207 | succeeds iff every segment file opens; state and callbacks are the recovery fold over the frames read, segments in name order; writer state untouched |
| AofLog.AppendOnlyLog.RecoverSegment | backend/leanstore/storage/inmem/aof.cpp:182-202 | the inner loop over one file is the fold over that file's frames up to the first short read |
| AofLog.AppendOnlyLog.ReplayNamespace | backend/leanstore/storage/inmem/aof.cpp:217-241 | succeeds iff every segment opens; callbacks are the valid frames of the namespace in scan order; the log's state is not changed |
| AofLog.AppendOnlyLog.ReplaySegment | backend/leanstore/storage/inmem/aof.cpp:230-237 | the inner loop over one file replays that file's valid frames of the namespace |
| AofLog.AppendOnlyLog.GetNamespaces | backend/leanstore/storage/inmem/aof.cpp:209-215 | every namespace with a recorded sequence number, once each, in ascending order |
| CoreAof.CoreEntrySize | backend/leanstore/storage/inmem/core/aof.cpp:85-87 | entry size is the payload size plus the 56-byte WALEntry struct of this revision |
| CoreAof.NewCoreEntry | backend/leanstore/storage/inmem/core/aof.cpp:61-67 | the built entry has version 1, the sequence number, the payload, its CRC and the timestamp |
| CoreAof.CoreLog.constructor | backend/leanstore/storage/inmem/core/aof.cpp:4-13 | counters at zero, no stream open, limits of 10 MiB and 5 segments |
| CoreAof.CoreLog.Init | backend/leanstore/storage/inmem/core/aof.cpp:27-56 | fails and changes nothing when the directory cannot be prepared; otherwise zeroes the four counters; from a closed stream it fails iff segment_0 cannot be opened, on an already-open stream it succeeds whatever the open does and leaves the stream failed |
| CoreAof.CoreLog.RotateLog | backend/leanstore/storage/inmem/core/aof.cpp:107-128 | the current index advances even when the open fails; retention keeps at most maxSegmentCount live; byteOffset restarts and the fail state clears only on success |
| CoreAof.CoreLog.LogCommand | backend/leanstore/storage/inmem/core/aof.cpp:58-105 | sequence number +1 (mod 2^64) even on failure; rotation iff byteOffset + entrySize > max; false without advancing byteOffset when rotation fails; the entry reaches no file while the stream is failed though the call succeeds |
| InmemKeys.MakeKeyValue | backend/leanstore/storage/inmem/Inmem.hpp:27-28 | the record holds exactly the first klen key bytes and the first vlen value bytes |
| InmemKeys.ComparatorsAgree | backend/leanstore/storage/inmem/Inmem.hpp:38-56 | the three KeyCompare overloads agree with operator< when a raw key is wrapped in a record with any value |
| InmemKeys.EquivalentIffSameKey | backend/leanstore/storage/inmem/Inmem.hpp:30-35 | two records are equivalent under the order iff their keys are equal, whatever their values |
| InmemKeys.StrictWeakOrder | backend/leanstore/storage/inmem/Inmem.hpp:30-35 | operator< is irreflexive and transitive, and its equivalence is transitive |
| Lexicographic.LexProperPrefix | backend/leanstore/storage/inmem/Inmem.hpp:31-34 | a proper prefix of a key sorts before it |
| Lexicographic.LexTotal | backend/leanstore/storage/inmem/Inmem.hpp:31-34 | any two different byte strings are ordered one way or the other |
| Lexicographic.LexAsymmetric | backend/leanstore/storage/inmem/Inmem.hpp:31-34 | the order is asymmetric |
| Lexicographic.LexTransitive | backend/leanstore/storage/inmem/Inmem.hpp:31-34 | the order is transitive |
| Lexicographic.LexIrreflexive | backend/leanstore/storage/inmem/Inmem.hpp:31-34 | no key sorts before itself |
| InmemKeys.LowerBound | backend/leanstore/storage/inmem/Inmem.cpp:75 | the first position whose key is not below the search key: every record before it is below, none from it on |
| InmemKeys.Find | backend/leanstore/storage/inmem/Inmem.cpp:139 | a position is found iff the key is stored, and it holds that key |
| InmemKeys.EraseKey | backend/leanstore/storage/inmem/Inmem.cpp:236 | erase keeps the order, removes exactly the key's record and shrinks the map by one iff the key was present |
| InmemKeys.InsertNew | backend/leanstore/storage/inmem/Inmem.cpp:163 | inserting an absent key keeps the order, adds exactly that record and grows the map by one |
| InmemKeys.ValueOf | backend/leanstore/storage/inmem/Inmem.cpp:203 | the value stored under a present key; it is the only record with that key |
| InmemKeys.KeysAfterErase | backend/leanstore/storage/inmem/Inmem.cpp:236 | erasing a key removes exactly that key from the key set |
| InmemKeys.KeysAfterInsert | backend/leanstore/storage/inmem/Inmem.cpp:163 | inserting a record adds exactly its key to the key set |
| InmemStore.EraseNode | backend/leanstore/storage/inmem/Inmem.cpp:145 | list::erase removes exactly the node with that identity and never lengthens the list |
| InmemStore.EraseNodeUnique | backend/leanstore/storage/inmem/Inmem.cpp:145 | unlinking a node keeps the remaining node identities unique |
| InmemStore.LruNonEmpty | backend/leanstore/storage/inmem/Inmem.cpp:153-155 | a nonempty store has a nonempty LRU list, so the tail the eviction reads exists |
| InmemStore.TouchPreserves | backend/leanstore/storage/inmem/Inmem.cpp:139-150 | moving a present key's node to the front keeps the invariant |
| InmemStore.TouchKeepsCoherent | backend/leanstore/storage/inmem/Inmem.cpp:139-150 | moving a node to the front keeps the LRU structures holding exactly the stored keys |
| InmemStore.EvictPreserves | backend/leanstore/storage/inmem/Inmem.cpp:153-160 | dropping the LRU tail's key from the store, lru_map and the list keeps the invariant |
| InmemStore.EvictKeepsCoherent | backend/leanstore/storage/inmem/Inmem.cpp:153-160 | in a coherent state the tail's key is stored, the store shrinks by exactly one, and coherence is kept |
| InmemStore.InsertFreshPreserves | backend/leanstore/storage/inmem/Inmem.cpp:162-166 | storing a new record and pushing its node to the front keeps the invariant |
| InmemStore.InsertFreshKeepsCoherent | backend/leanstore/storage/inmem/Inmem.cpp:162-166 | the same step keeps the LRU structures holding exactly the stored keys when they did before |
| InmemStore.RemoveBreaksCoherence | backend/leanstore/storage/inmem/Inmem.cpp:226-250 | remove keeps the invariant, but removing a stored key leaves the LRU structures incoherent |
| InmemStore.ReplacePreserves | backend/leanstore/storage/inmem/Inmem.cpp:200-208 | erase-then-insert under the same key keeps the key set, the invariant and coherence |
| InmemStore.AscendingRun | backend/leanstore/storage/inmem/Inmem.cpp:75-82 | records from the lower bound on are not below the start key and strictly ascend |
| InmemStore.AscendingRunComplete | backend/leanstore/storage/inmem/Inmem.cpp:75-82 | a run from the lower bound to the end holds every record not below the start key |
| InmemStore.DescendingRun | backend/leanstore/storage/inmem/Inmem.cpp:104-111 | records walked back from the lower bound are strictly below the start key and strictly descend |
| InmemStore.DescendingRunComplete | backend/leanstore/storage/inmem/Inmem.cpp:104-111 | a backward run down to the first record holds every record below the start key |
| InmemStore.ScanForward | backend/leanstore/storage/inmem/Inmem.cpp:75-82 | hands the callback the records from the start position onwards in map order, stopping right after the first false; when none says false it has reached the end |
| InmemStore.ScanBackward | backend/leanstore/storage/inmem/Inmem.cpp:104-111 | hands the callback the records before the start position, nearest first, stopping right after the first false; when none says false it has reached the first record |
| InmemStore.AscendingScan | backend/leanstore/storage/inmem/Inmem.cpp:75-82 | a forward walk from the lower bound sees only keys at least the start key, strictly ascending, and every such record when never told to stop |
| InmemStore.DescendingScan | backend/leanstore/storage/inmem/Inmem.cpp:104-111 | a backward walk from the lower bound sees only keys strictly below the start key (never the start key), strictly descending, and every such record when never told to stop |
| InmemStore.Inmem.constructor | backend/leanstore/storage/inmem/Inmem.hpp:58-68 | an empty store and LRU, the default configuration (WAL on, bulk insert off), with the invariant and coherence |
| InmemStore.Inmem.Lookup | backend/leanstore/storage/inmem/Inmem.cpp:36-60 | OK with the stored value iff the key is present, else NOT_FOUND with nothing; no state changes |
| InmemStore.Inmem.TouchKey | backend/leanstore/storage/inmem/Inmem.cpp:139-150 | the key's node moves to the LRU front, the store is unchanged, the invariant and coherence are kept |
| InmemStore.Inmem.EvictTail | backend/leanstore/storage/inmem/Inmem.cpp:153-160 | exactly the LRU tail's key leaves the store, lru_map and lru_list; in a coherent state the store shrinks by one |
| InmemStore.Inmem.PushNew | backend/leanstore/storage/inmem/Inmem.cpp:162-166 | the record is stored and its node pushed to the LRU front; the store grows by one |
| InmemStore.Inmem.Insert | backend/leanstore/storage/inmem/Inmem.cpp:127-183 | a present key gives DUPLICATE, keeps its value and moves to the LRU front; a new key gives OK after evicting exactly the LRU tail at capacity; coherence and the size bound are kept |
| InmemStore.Inmem.UpdateSameSizeInPlace | backend/leanstore/storage/inmem/Inmem.cpp:188-222 | OK iff present, replacing the value by the callback on a copy with the length and key set unchanged; NOT_FOUND changes nothing; the LRU is untouched |
| InmemStore.Inmem.Remove | backend/leanstore/storage/inmem/Inmem.cpp:226-250 | OK iff present; afterwards the key is absent and other records unchanged; the LRU is untouched, so success leaves it incoherent |
| InmemStore.Inmem.ScanAsc | backend/leanstore/storage/inmem/Inmem.cpp:64-91 | answers OK; the callback is handed the stored records from the lower bound of the start key onwards, in order, until right after its first false, and to the end when it never says false (what those records are: AscendingScan) |
| InmemStore.Inmem.ScanDesc | backend/leanstore/storage/inmem/Inmem.cpp:95-120 | answers OK; the callback is handed the stored records before the lower bound of the start key, nearest first, until right after its first false, and down to the first record when it never says false (what those records are: DescendingScan) |
| InmemStore.Inmem.CountPages | backend/leanstore/storage/inmem/Inmem.cpp:254-256 | the stub answers 1 |
| InmemStore.Inmem.CountEntries | backend/leanstore/storage/inmem/Inmem.cpp:258-260 | the stub answers 0 whatever the store holds |
| InmemStore.Inmem.GetHeight | backend/leanstore/storage/inmem/Inmem.cpp:262-264 | the stub answers 0 |
| WalRing.WalFreeSpace | backend/leanstore/concurrency-recovery/Logging.cpp:18-29 | the whole buffer iff the cursors meet, otherwise the ring distance (gct - wt) mod size |
| WalRing.WalContiguousFreeSpace | backend/leanstore/concurrency-recovery/Logging.cpp:31-35 | positive, never more than the free space, never past the buffer end, and reaching gct exactly when gct is ahead |
| WalRing.WaitThreshold | backend/leanstore/concurrency-recovery/Logging.cpp:40-43 | the request plus a carriage return, plus the rest of the round exactly when that does not fit before the end |
| WalRing.EnsureSpaceSound | backend/leanstore/concurrency-recovery/Logging.cpp:40-66 | once free space reaches the threshold, a wrap only happens with gct behind, and afterwards the request fits contiguously with room for a carriage return, so both ensure() checks hold |
| WalRing.NoOverrunKeepsRegion | backend/leanstore/concurrency-recovery/Logging.cpp:82-84 | when the overrun flag is not raised, a nonempty write never lands exactly on the transaction's start |
| WalRing.Walk | backend/leanstore/concurrency-recovery/Logging.cpp:114-132 | the reference walk visits only present, non-CR, nonempty entries inside the transaction's region, in increasing order when it does not wrap |
| WalRing.WalkSkipsCarriageReturns | backend/leanstore/concurrency-recovery/Logging.cpp:125-130 | no carriage-return entry is ever handed to the callback |
| WalRing.WalkOfContiguousEntries | backend/leanstore/concurrency-recovery/Logging.cpp:114-132 | entries other than carriage returns (meta and data entries) laid end to end up to the write cursor are each visited once, in buffer order |
| WalRing.WalkOfWrappedEntries | backend/leanstore/concurrency-recovery/Logging.cpp:114-132 | when the transaction wrapped, entries other than carriage returns laid end to end from its start to a carriage return and then from 0 up to the write cursor are each visited once, first run then second, the carriage return skipped |
| WalRing.WalLogging.EnsureEnoughSpace | backend/leanstore/concurrency-recovery/Logging.cpp:37-68 | nothing changes with WAL off; otherwise the request fits contiguously with room for a CR, and a wrap writes a CR of size - wt at wt, resets wt and next-to-clean to 0 and advances the round by one |
| WalRing.WalLogging.ReserveWalMetaEntry | backend/leanstore/concurrency-recovery/Logging.cpp:70-78 | the meta entry is placed at the write cursor, stamped with the current LSN counter, and the counter goes up by one (mod 2^64) |
| WalRing.WalLogging.SubmitWalMetaEntry | backend/leanstore/concurrency-recovery/Logging.cpp:80-94 | wt advances by the meta-entry size; the overrun flag is raised exactly when the write reaches the transaction's start |
| WalRing.WalLogging.SubmitDtEntry | backend/leanstore/concurrency-recovery/Logging.cpp:96-111 | wt advances by total_size; the overrun flag is raised exactly when the write reaches the transaction's start |
| WalRing.WalLogging.IterateOverCurrentTxEntries | backend/leanstore/concurrency-recovery/Logging.cpp:114-132 | the loop hands the callback exactly the entries of the reference walk, in order, and never a carriage return |

## Left out

- Background threads (`keepSyncingBuffer`, `rotateSegmentPeriodically`,
  `deleteSegmentPeriodically`) and the destructor joins are left out. They
  are timer-driven concurrency, and the model is sequential.
- The log mutex and the store mutex are left out, because every operation is
  modelled as one atomic step.
- Real file I/O is not modelled:
  - Directory creation and listing are a `directoryReady` flag and a list of
    names.
  - Opening a file is an `openOk` / `rotationOpens` flag.
  - Deleting a file removes an index from the segment map.
  - `flush`, `Sync` and `DeleteOldestSegment`'s filesystem errors are left out.
- `WriteEntryToBuffer` copies the raw C++ struct, including `std::vector`
  internals, so it writes no defined byte layout. The writer appends an
  abstract entry to its segment. Recovery reads bytes in the layout
  `ReadWALEntry` expects. The two are not claimed to match.
- CRC-32 (zlib `crc32`) is an uninterpreted function fixed at construction.
- The wall clock is left out: the timestamp is a parameter.
- Logging to the console and `writeNamespaceToFile` are not modelled. Their
  output has no effect on the state.
- The Inmem calls into the transaction layer are left out: `markAsWrite`,
  `walEnsureEnoughSpace`, the worker counters, and the `jumpmu` restart
  plumbing. Their effect is outside the store.
- Callbacks are pure functions:
  - The lookup callback is modelled as the value returned to it.
  - The scan callbacks are predicates on (key, value).
  - The update callback maps a value to a new value of the same length,
    because it writes into the copy's buffer.
- `AofLog.AppendOnlyLog.LogCommand`: `GetEntrySize` returns an `int`, and its
  overflow on payloads of 2 GiB or more is excluded by a precondition rather
  than modelled.
- `CoreAof.CoreLog.LogCommand`: the same overflow of the `int` entry size, on
  payloads of 2 GiB minus 56 bytes or more, is excluded by a precondition
  rather than modelled.
- Segment indices are unbounded naturals, so the 32-bit wrap of the index
  counters is not modelled. Sequence numbers and LSNs are `u64` and do wrap.
- `AofLog.AppendOnlyLog.StartRecovery`: `ParseAndReplayEntry` reads without
  bounds checks. A valid frame whose payload is too short for those reads is
  undefined behaviour in the code, so recovery requires every valid frame
  the scan reads to be parseable. Files after the first that cannot be
  opened, and files not named "segment_…", are unconstrained.
- `AofLog.AppendOnlyLog.ReplayNamespace` requires the same only of the valid
  frames of the namespace it replays, the only frames it parses. Other
  namespaces' frames may hold anything.
- `StartNamespacesRecovery` (declared in `aof.hpp`) is not part of this
  model, because it is declared but never defined. Neither are `prefixLookup`,
  `append`, `rangeRemove`, `Iterator` and `serialize` of `Inmem.hpp`.
- The spin-wait of `walEnsureEnoughSpace`, the atomic group-commit cursor,
  `notify_all`, `publishOffset`, `publishMaxGSNOffset`, `pushSync` and
  `computeCRC` are concurrency or code outside this model. The wait's exit
  condition is a precondition on the group-commit cursor the wait last
  observed.
- `WalRing.WalLogging.EnsureEnoughSpace` computes the threshold with unbounded
  arithmetic, so the u32 overflow of the code's threshold is not modelled.
- The WAL buffer holds entry headers only, not payload bytes. How data
  entries are reserved and where `current_tx_wal_start` is set are outside
  `Logging.cpp`'s shown code, so they are not part of this model.
- The declarations and initial values of the `Logging` fields live in
  `Worker.hpp`, which is not part of this model. The `WalLogging` constructor
  starts from zeroed cursors and counters over an empty buffer.
- `WalRing.Walk` is defined only for walks the loop completes. A walk that
  meets a carriage return before wrapping, reads a missing or empty entry, or
  would run past the write cursor is `None`, and the loop method requires a
  walk that is `Some`.
- `InmemStore.Inmem.Insert`: the bound `|store| <= MAX_STORE_SIZE` is proved
  only for coherent states, because after a `remove` the evicted tail may be
  a key no longer stored.
- `InmemGeneric`, `mem-wal`, the adapter glue and the frontend benchmarks
  are outside the core and not part of this model.
