/**
 * The namespaced append-only file (backend/leanstore/storage/inmem/aof.cpp)
 * as an object: sequence-number assignment, size-triggered rotation,
 * count-bounded retention, and the two recovery scans.
 *
 * Segment files are kept by index, each as the list of entries written to
 * it; the stream the writer holds is the index of the segment it is
 * attached to, if any. Recovery reads a directory given as a listing of
 * names and the bytes of each file.
 */
module AofLog {
  import opened Bytes
  import opened Wrappers
  import opened AofCodec
  import opened AofFrames
  import opened SegmentPolicy

  /** Contents of the segment files, by segment index. */
  type Segments = SegmentFiles<WalEntry>

  /** lastSequenceNo++ on a uint64_t: wraps to 0 after the largest value. */
  function NextSequenceNo(n: u64): (r: u64)
    ensures n < 0xFFFF_FFFF_FFFF_FFFF ==> r == n + 1
    ensures n == 0xFFFF_FFFF_FFFF_FFFF ==> r == 0
  {
    (n + 1) % 0x1_0000_0000_0000_0000
  }

  /** The entry LogCommand builds: version 1, the payload's checksum, the clock reading. */
  function NewEntry(crc: Crc32Fn, sequenceNo: u64, namespaceId: u64, data: seq<u8>, timestamp: u64): (e: WalEntry)
    ensures ValidateWalEntry(crc, e)
    ensures e.sequenceNo == sequenceNo && e.namespaceId == namespaceId
    ensures e.data == data && e.timestamp == timestamp
  {
    WalEntry(WAL_VERSION, sequenceNo, namespaceId, data, crc(data), timestamp)
  }

  /** The least element of a nonempty set of namespace ids. */
  ghost function Least(s: set<u64>): (m: u64)
    requires s != {}
    ensures m in s && forall x :: x in s ==> m <= x
    decreases |s|
  {
    var y :| y in s;
    assert forall x :: x in s ==> x == y || x in s - {y};
    if s == {y} then y
    else
      var m := Least(s - {y});
      if y < m then y else m
  }

  /**
   * Part way through listing a key set in ascending order: ids is strictly
   * ascending, holds exactly the keys no longer remaining, and every id
   * listed is below every key remaining.
   */
  predicate ListedSoFar(keys: set<u64>, remaining: set<u64>, ids: seq<u64>) {
    && remaining <= keys
    && (forall i :: 0 <= i < |ids| ==> ids[i] in keys && ids[i] !in remaining)
    && (forall n :: n in keys ==> n in remaining || n in ids)
    && (forall i, j :: 0 <= i < j < |ids| ==> ids[i] < ids[j])
    && (forall i, n :: 0 <= i < |ids| && n in remaining ==> ids[i] < n)
  }

  /** Moving the least remaining key to the end of the listing keeps it ascending and complete. */
  lemma ListLeast(keys: set<u64>, remaining: set<u64>, ids: seq<u64>, m: u64)
    requires ListedSoFar(keys, remaining, ids)
    requires m in remaining && forall x :: x in remaining ==> m <= x
    ensures ListedSoFar(keys, remaining - {m}, ids + [m])
  {
    var ids' := ids + [m];
    assert forall i :: 0 <= i < |ids| ==> ids'[i] == ids[i];
  }

  class AppendOnlyLog {
    /** CalculateCRC32: zlib's crc32, uninterpreted. */
    const checksum: Crc32Fn
    const maxSegmentSize: nat
    const maxSegmentCount: nat

    var lastSequenceNo: u64
    var currentSegmentIndex: nat
    var oldestSegmentIndex: nat
    var byteOffset: nat
    var namespaceLastSeqNo: map<u64, u64>
    /** The segment currentSegmentFile is attached to, when it is open. */
    var openSegment: Option<nat>
    /**
     * Whether the stream's last open failed (failbit set). A successful
     * open clears it; while it is set, writes add nothing.
     */
    var streamFailed: bool
    var segments: Segments

    /** At most maxSegmentCount segments between oldest and current, and the stream attached to an existing file. */
    ghost predicate Valid()
      reads this
    {
      && 1 <= maxSegmentCount
      && oldestSegmentIndex <= currentSegmentIndex
      && LiveSegments(currentSegmentIndex, oldestSegmentIndex) <= maxSegmentCount
      && (openSegment.Some? ==> openSegment.value in segments)
    }

    /** AOF::AOF: the counters at zero, no file open, over the segments already in the directory. */
    constructor (checksum: Crc32Fn, existing: Segments)
      ensures Valid()
      ensures this.checksum == checksum
      ensures maxSegmentSize == MAX_SEGMENT_SIZE && maxSegmentCount == MAX_SEGMENT_COUNT
      ensures lastSequenceNo == 0 && currentSegmentIndex == 0 && oldestSegmentIndex == 0 && byteOffset == 0
      ensures namespaceLastSeqNo == map[] && openSegment == None && !streamFailed && segments == existing
    {
      this.checksum := checksum;
      maxSegmentSize := MAX_SEGMENT_SIZE;
      maxSegmentCount := MAX_SEGMENT_COUNT;
      lastSequenceNo := 0;
      currentSegmentIndex := 0;
      oldestSegmentIndex := 0;
      byteOffset := 0;
      namespaceLastSeqNo := map[];
      openSegment := None;
      streamFailed := false;
      segments := existing;
    }

    /**
     * Init. directoryReady is false when creating or listing the directory
     * throws, and openOk whether segment_0 can be opened. Opening a stream
     * that is already open fails but leaves it open, so Init then succeeds;
     * the failed open leaves the stream in a failed state, attached to its
     * old file, and later writes add nothing until a rotation's open succeeds.
     */
    method Init(directoryReady: bool, openOk: bool) returns (ok: bool)
      requires Valid()
      modifies this
      ensures Valid()
      ensures !directoryReady ==> !ok && unchanged(this)
      ensures directoryReady ==>
                && lastSequenceNo == 0 && currentSegmentIndex == 0 && oldestSegmentIndex == 0 && byteOffset == 0
                && namespaceLastSeqNo == old(namespaceLastSeqNo)
                && (old(openSegment).Some? ==>
                      && ok && openSegment == old(openSegment) && segments == old(segments) && streamFailed)
                && (old(openSegment).None? ==>
                      && ok == openOk
                      && openSegment == (if openOk then Some(0) else None)
                      && streamFailed == !openOk
                      && segments == OpenSegment(old(segments), 0, openOk))
    {
      if !directoryReady {
        return false;
      }
      lastSequenceNo := 0;
      currentSegmentIndex := 0;
      oldestSegmentIndex := 0;
      byteOffset := 0;
      if openSegment.None? {
        segments := OpenSegment(segments, 0, openOk);
        if openOk {
          openSegment := Some(0);
        }
        streamFailed := !openOk;
      } else {
        streamFailed := true;
      }
      ok := openSegment.Some?;
    }

    /**
     * RotateLog: close the stream, advance the current index, delete the
     * oldest segment when one too many would be live, open the new one.
     * openOk is whether that open succeeds.
     */
    method RotateLog(openOk: bool) returns (ok: bool)
      requires Valid()
      modifies this
      ensures Valid()
      ensures currentSegmentIndex == old(currentSegmentIndex) + 1
      ensures oldestSegmentIndex == OldestAfterRotation(currentSegmentIndex, old(oldestSegmentIndex), maxSegmentCount)
      ensures segments == SegmentsAfterRotation(old(segments), old(currentSegmentIndex), old(oldestSegmentIndex), maxSegmentCount, openOk)
      ensures ok == openOk && openSegment == (if openOk then Some(currentSegmentIndex) else None)
      ensures streamFailed == !openOk
      ensures byteOffset == (if ok then 0 else old(byteOffset))
      ensures lastSequenceNo == old(lastSequenceNo) && namespaceLastSeqNo == old(namespaceLastSeqNo)
    {
      openSegment := None;
      currentSegmentIndex := currentSegmentIndex + 1;
      if LiveSegments(currentSegmentIndex, oldestSegmentIndex) > maxSegmentCount {
        segments := RemoveSegment(segments, oldestSegmentIndex);
        oldestSegmentIndex := oldestSegmentIndex + 1;
      }
      segments := OpenSegment(segments, currentSegmentIndex, openOk);
      streamFailed := !openOk;
      if !openOk {
        return false;
      }
      openSegment := Some(currentSegmentIndex);
      byteOffset := 0;
      ok := true;
    }

    /**
     * LogCommand: take the next sequence number for the namespace, rotate
     * when the entry would overflow the segment, then count and write the
     * entry. now is the clock reading and rotationOpens whether a rotation's
     * open succeeds; entry sizes must fit the int GetEntrySize returns.
     */
    method LogCommand(namespaceId: u64, data: seq<u8>, now: u64, rotationOpens: bool) returns (ok: bool)
      requires Valid()
      requires GetEntrySize(data) < 0x8000_0000
      modifies this
      ensures Valid()
      ensures lastSequenceNo == NextSequenceNo(old(lastSequenceNo))
      ensures namespaceLastSeqNo == old(namespaceLastSeqNo)[namespaceId := lastSequenceNo]
      ensures var rotate := NeedsRotation(old(byteOffset), GetEntrySize(data), maxSegmentSize);
              && ok == (!rotate || rotationOpens)
              && (rotate ==> && currentSegmentIndex == old(currentSegmentIndex) + 1
                             && oldestSegmentIndex == OldestAfterRotation(currentSegmentIndex, old(oldestSegmentIndex), maxSegmentCount)
                             && openSegment == (if rotationOpens then Some(currentSegmentIndex) else None))
              && (!rotate ==> && currentSegmentIndex == old(currentSegmentIndex)
                              && oldestSegmentIndex == old(oldestSegmentIndex)
                              && openSegment == old(openSegment))
              && streamFailed == (if rotate then !rotationOpens else old(streamFailed))
              && byteOffset == (if !ok then old(byteOffset)
                                else if rotate then GetEntrySize(data)
                                else old(byteOffset) + GetEntrySize(data))
              && var files := if rotate
                              then SegmentsAfterRotation(old(segments), old(currentSegmentIndex), old(oldestSegmentIndex), maxSegmentCount, rotationOpens)
                              else old(segments);
                 segments == (if ok then WriteEntry(files, WriteTarget(openSegment, streamFailed), NewEntry(checksum, lastSequenceNo, namespaceId, data, now))
                              else files)
    {
      lastSequenceNo := NextSequenceNo(lastSequenceNo);
      namespaceLastSeqNo := namespaceLastSeqNo[namespaceId := lastSequenceNo];
      var entry := NewEntry(checksum, lastSequenceNo, namespaceId, data, now);
      var entrySize := GetEntrySize(data);
      if NeedsRotation(byteOffset, entrySize, maxSegmentSize) {
        var rotated := RotateLog(rotationOpens);
        if !rotated {
          return false;
        }
      }
      byteOffset := byteOffset + entrySize;
      segments := WriteEntry(segments, WriteTarget(openSegment, streamFailed), entry);
      ok := true;
    }

    /**
     * StartRecovery over a directory: replay every valid frame of every
     * segment file in name order, raising lastSequenceNo to the largest
     * sequence number seen and recording each namespace's last one. It
     * fails at the first segment that cannot be opened, keeping what the
     * earlier segments did. replayed lists the callback invocations.
     */
    method StartRecovery(listing: seq<FileName>, disk: map<FileName, seq<u8>>) returns (ok: bool, replayed: seq<ReplayCall>)
      requires AllReplayable(checksum, ScannedFrames(disk, listing), None)
      modifies this
      ensures ok == ScanOpensAll(disk, listing)
      ensures var r := Recover(checksum, RecoveryState(old(lastSequenceNo), old(namespaceLastSeqNo), []),
                               ScannedFrames(disk, listing));
              && lastSequenceNo == r.lastSequenceNo
              && namespaceLastSeqNo == r.namespaceLastSeqNo
              && replayed == r.replayed
      ensures currentSegmentIndex == old(currentSegmentIndex) && oldestSegmentIndex == old(oldestSegmentIndex)
      ensures byteOffset == old(byteOffset) && openSegment == old(openSegment) && streamFailed == old(streamFailed) && segments == old(segments)
    {
      var names := GetSegmentFiles(listing);
      ghost var start := RecoveryState(lastSequenceNo, namespaceLastSeqNo, []);
      replayed := [];
      var i := 0;
      while i < |names|
        invariant i <= |names|
        invariant forall j :: 0 <= j < i ==> names[j] in disk
        invariant AllReplayable(checksum, SegmentFrames(disk, names[..i]), None)
        invariant RecoveryState(lastSequenceNo, namespaceLastSeqNo, replayed)
                  == Recover(checksum, start, SegmentFrames(disk, names[..i]))
        invariant currentSegmentIndex == old(currentSegmentIndex) && oldestSegmentIndex == old(oldestSegmentIndex)
        invariant byteOffset == old(byteOffset) && openSegment == old(openSegment) && streamFailed == old(streamFailed) && segments == old(segments)
      {
        if names[i] !in disk {
          return false, replayed;
        }
        ScannedFileFrames(disk, listing, i);
        ghost var before := SegmentFrames(disk, names[..i]);
        ghost var mid := RecoveryState(lastSequenceNo, namespaceLastSeqNo, replayed);
        replayed := RecoverSegment(disk[names[i]], replayed);
        RecoverAppend(checksum, start, before, FramesFrom(disk[names[i]], 0));
        SegmentFramesSnoc(disk, names, i);
        i := i + 1;
      }
      ok := true;
    }

    /**
     * StartRecovery's inner loop over one segment file: read frames until
     * the first short read, skip those that fail validation, replay the
     * others and update the sequence bookkeeping.
     */
    method RecoverSegment(file: seq<u8>, replayedBefore: seq<ReplayCall>) returns (replayed: seq<ReplayCall>)
      requires AllReplayable(checksum, FramesFrom(file, 0), None)
      modifies this
      ensures RecoveryState(lastSequenceNo, namespaceLastSeqNo, replayed)
              == Recover(checksum, RecoveryState(old(lastSequenceNo), old(namespaceLastSeqNo), replayedBefore), FramesFrom(file, 0))
      ensures currentSegmentIndex == old(currentSegmentIndex) && oldestSegmentIndex == old(oldestSegmentIndex)
      ensures byteOffset == old(byteOffset) && openSegment == old(openSegment) && streamFailed == old(streamFailed) && segments == old(segments)
    {
      var last: u64, lastByNamespace: map<u64, u64> := lastSequenceNo, namespaceLastSeqNo;
      ghost var start := RecoveryState(last, lastByNamespace, replayedBefore);
      ghost var done: seq<WalEntry> := [];
      replayed := replayedBefore;
      var pos := 0;
      while true
        invariant pos <= |file|
        invariant FramesFrom(file, 0) == done + FramesFrom(file, pos)
        invariant AllReplayable(checksum, done, None)
        invariant RecoveryState(last, lastByNamespace, replayed) == Recover(checksum, start, done)
        modifies {}
        decreases |file| - pos
      {
        var read := ReadWalEntry(file, pos);
        if read.ShortRead? {
          assert FramesFrom(file, pos) == [];
          assert done + [] == done;
          break;
        }
        var e := read.entry;
        assert FramesFrom(file, pos) == [e] + FramesFrom(file, read.next);
        assert done + ([e] + FramesFrom(file, read.next)) == (done + [e]) + FramesFrom(file, read.next);
        assert e in FramesFrom(file, 0);
        RecoverSnoc(checksum, start, done, e);
        if ValidateWalEntry(checksum, e) {
          replayed := replayed + [ParseAndReplayEntry(e).value];
          last := Max(last, e.sequenceNo);
          lastByNamespace := lastByNamespace[e.namespaceId := e.sequenceNo];
        }
        done := done + [e];
        pos := read.next;
      }
      lastSequenceNo, namespaceLastSeqNo := last, lastByNamespace;
    }

    /**
     * ReplayNamespace: the same scan, handing the callback only the valid
     * frames of one namespace; the log's own state is left alone.
     */
    method ReplayNamespace(namespaceId: u64, listing: seq<FileName>, disk: map<FileName, seq<u8>>)
      returns (ok: bool, replayed: seq<ReplayCall>)
      requires AllReplayable(checksum, ScannedFrames(disk, listing), Some(namespaceId))
      ensures ok == ScanOpensAll(disk, listing)
      ensures replayed == ReplayCalls(checksum, ScannedFrames(disk, listing), Some(namespaceId))
    {
      var names := GetSegmentFiles(listing);
      replayed := [];
      var i := 0;
      while i < |names|
        invariant i <= |names|
        invariant forall j :: 0 <= j < i ==> names[j] in disk
        invariant AllReplayable(checksum, SegmentFrames(disk, names[..i]), Some(namespaceId))
        invariant replayed == ReplayCalls(checksum, SegmentFrames(disk, names[..i]), Some(namespaceId))
      {
        if names[i] !in disk {
          return false, replayed;
        }
        ScannedFileFrames(disk, listing, i);
        var calls := ReplaySegment(namespaceId, disk[names[i]]);
        ReplayCallsAppend(checksum, SegmentFrames(disk, names[..i]), FramesFrom(disk[names[i]], 0), Some(namespaceId));
        replayed := replayed + calls;
        SegmentFramesSnoc(disk, names, i);
        i := i + 1;
      }
      ok := true;
    }

    /** ReplayNamespace's inner loop over one segment file. */
    method ReplaySegment(namespaceId: u64, file: seq<u8>) returns (replayed: seq<ReplayCall>)
      requires AllReplayable(checksum, FramesFrom(file, 0), Some(namespaceId))
      ensures replayed == ReplayCalls(checksum, FramesFrom(file, 0), Some(namespaceId))
    {
      ghost var done: seq<WalEntry> := [];
      replayed := [];
      var pos := 0;
      while true
        invariant pos <= |file|
        invariant FramesFrom(file, 0) == done + FramesFrom(file, pos)
        invariant AllReplayable(checksum, done, Some(namespaceId))
        invariant replayed == ReplayCalls(checksum, done, Some(namespaceId))
        decreases |file| - pos
      {
        var read := ReadWalEntry(file, pos);
        if read.ShortRead? {
          assert FramesFrom(file, pos) == [];
          assert done + [] == done;
          break;
        }
        var e := read.entry;
        assert FramesFrom(file, pos) == [e] + FramesFrom(file, read.next);
        assert done + ([e] + FramesFrom(file, read.next)) == (done + [e]) + FramesFrom(file, read.next);
        assert e in FramesFrom(file, 0);
        ReplayCallsSnoc(checksum, done, e, Some(namespaceId));
        if ValidateWalEntry(checksum, e) && e.namespaceId == namespaceId {
          replayed := replayed + [ParseAndReplayEntry(e).value];
        }
        done := done + [e];
        pos := read.next;
      }
    }

    /** GetNamespaces: every namespace with a recorded sequence number, in ascending order, once each. */
    method GetNamespaces() returns (ids: seq<u64>)
      ensures forall i, j :: 0 <= i < j < |ids| ==> ids[i] < ids[j]
      ensures forall n :: n in ids <==> n in namespaceLastSeqNo
    {
      var keys := namespaceLastSeqNo.Keys;
      var remaining := keys;
      ids := [];
      while remaining != {}
        invariant ListedSoFar(keys, remaining, ids)
        decreases |remaining|
      {
        ghost var least := Least(remaining);
        var m :| m in remaining && forall x :: x in remaining ==> m <= x;
        ListLeast(keys, remaining, ids, m);
        ids := ids + [m];
        remaining := remaining - {m};
      }
    }
  }
}
