/**
 * The earlier, namespace-less revision of the append-only file
 * (backend/leanstore/storage/inmem/core/aof.cpp): the same sequence
 * numbering, rotation and retention, with a smaller entry and no recovery.
 */
module CoreAof {
  import opened Bytes
  import opened Wrappers
  import opened SegmentPolicy
  import AofFrames

  /** WALEntry of this revision: no namespace field. */
  datatype CoreWalEntry = CoreWalEntry(
    version: u8,
    sequenceNo: u64,
    data: seq<u8>,
    crc32: u32,
    timestamp: u64)

  /**
   * sizeof(WALEntry) of this revision on x86-64 with libstdc++: u8, u64, a
   * 24-byte std::vector, u32 and u64, with padding.
   */
  const CORE_ENTRY_STRUCT_SIZE: nat := 56

  /** GetEntrySize: the in-memory struct size plus the payload size. */
  function CoreEntrySize(data: seq<u8>): (n: nat)
    ensures n > |data| && n - |data| == CORE_ENTRY_STRUCT_SIZE
  {
    CORE_ENTRY_STRUCT_SIZE + |data|
  }

  /** The entry LogCommand builds from the new sequence number, the payload and the clock. */
  function NewCoreEntry(crc: AofFrames.Crc32Fn, sequenceNo: u64, data: seq<u8>, timestamp: u64): (e: CoreWalEntry)
    ensures e.version == 1 && e.crc32 == crc(e.data)
    ensures e.sequenceNo == sequenceNo && e.data == data && e.timestamp == timestamp
  {
    CoreWalEntry(1, sequenceNo, data, crc(data), timestamp)
  }

  class CoreLog {
    const checksum: AofFrames.Crc32Fn
    const maxSegmentSize: nat
    const maxSegmentCount: nat

    var lastSequenceNo: u64
    var currentSegmentIndex: nat
    var oldestSegmentIndex: nat
    var byteOffset: nat
    /** The segment currentSegmentFile is attached to, when it is open. */
    var openSegment: Option<nat>
    /**
     * Whether the stream's last open failed (failbit set). A successful
     * open clears it; while it is set, writes add nothing.
     */
    var streamFailed: bool
    var segments: SegmentFiles<CoreWalEntry>

    ghost predicate Valid()
      reads this
    {
      && 1 <= maxSegmentCount
      && oldestSegmentIndex <= currentSegmentIndex
      && LiveSegments(currentSegmentIndex, oldestSegmentIndex) <= maxSegmentCount
      && (openSegment.Some? ==> openSegment.value in segments)
    }

    constructor (checksum: AofFrames.Crc32Fn, existing: SegmentFiles<CoreWalEntry>)
      ensures Valid()
      ensures this.checksum == checksum
      ensures maxSegmentSize == MAX_SEGMENT_SIZE && maxSegmentCount == MAX_SEGMENT_COUNT
      ensures lastSequenceNo == 0 && currentSegmentIndex == 0 && oldestSegmentIndex == 0 && byteOffset == 0
      ensures openSegment == None && !streamFailed && segments == existing
    {
      this.checksum := checksum;
      maxSegmentSize := MAX_SEGMENT_SIZE;
      maxSegmentCount := MAX_SEGMENT_COUNT;
      lastSequenceNo := 0;
      currentSegmentIndex := 0;
      oldestSegmentIndex := 0;
      byteOffset := 0;
      openSegment := None;
      streamFailed := false;
      segments := existing;
    }

    /**
     * Init: fails before touching anything when the directory cannot be
     * created or listed; otherwise zeroes the four counters and opens
     * segment_0 for appending, failing when that open fails. On a stream
     * that is already open the open fails but the stream stays open, so
     * Init succeeds and leaves the stream failed: writes add nothing until
     * a rotation's open succeeds.
     */
    method Init(directoryReady: bool, openOk: bool) returns (ok: bool)
      requires Valid()
      modifies this
      ensures Valid()
      ensures !directoryReady ==> !ok && unchanged(this)
      ensures directoryReady ==>
                && lastSequenceNo == 0 && currentSegmentIndex == 0 && oldestSegmentIndex == 0 && byteOffset == 0
                && (old(openSegment).Some? ==>
                      && ok && openSegment == old(openSegment) && segments == old(segments) && streamFailed)
                && (old(openSegment).None? ==>
                      && ok == openOk
                      && openSegment == (if openOk then Some(0) else None)
                      && streamFailed == !openOk
                      && segments == OpenSegment(old(segments), 0, openOk))
    {
      if !directoryReady {
        return false;
      }
      lastSequenceNo := 0;
      currentSegmentIndex := 0;
      oldestSegmentIndex := 0;
      byteOffset := 0;
      if openSegment.None? {
        segments := OpenSegment(segments, 0, openOk);
        if openOk {
          openSegment := Some(0);
        }
        streamFailed := !openOk;
      } else {
        streamFailed := true;
      }
      ok := openSegment.Some?;
    }

    /**
     * RotateLog: the current index advances even when the new file cannot
     * be opened; byteOffset restarts only when it can.
     */
    method RotateLog(openOk: bool) returns (ok: bool)
      requires Valid()
      modifies this
      ensures Valid()
      ensures currentSegmentIndex == old(currentSegmentIndex) + 1
      ensures oldestSegmentIndex == OldestAfterRotation(currentSegmentIndex, old(oldestSegmentIndex), maxSegmentCount)
      ensures segments == SegmentsAfterRotation(old(segments), old(currentSegmentIndex), old(oldestSegmentIndex), maxSegmentCount, openOk)
      ensures ok == openOk && openSegment == (if openOk then Some(currentSegmentIndex) else None)
      ensures streamFailed == !openOk
      ensures byteOffset == (if ok then 0 else old(byteOffset))
      ensures lastSequenceNo == old(lastSequenceNo)
    {
      openSegment := None;
      currentSegmentIndex := currentSegmentIndex + 1;
      if LiveSegments(currentSegmentIndex, oldestSegmentIndex) > maxSegmentCount {
        segments := RemoveSegment(segments, oldestSegmentIndex);
        oldestSegmentIndex := oldestSegmentIndex + 1;
      }
      segments := OpenSegment(segments, currentSegmentIndex, openOk);
      streamFailed := !openOk;
      if !openOk {
        return false;
      }
      openSegment := Some(currentSegmentIndex);
      byteOffset := 0;
      ok := true;
    }

    /**
     * LogCommand: the next sequence number (wrapping as a uint64_t), an
     * entry of version 1 with the payload's checksum, a rotation when the
     * entry would overflow the segment, then the write.
     */
    method LogCommand(data: seq<u8>, now: u64, rotationOpens: bool) returns (ok: bool)
      requires Valid()
      requires CoreEntrySize(data) < 0x8000_0000
      modifies this
      ensures Valid()
      ensures lastSequenceNo == (old(lastSequenceNo) + 1) % 0x1_0000_0000_0000_0000
      ensures var rotate := NeedsRotation(old(byteOffset), CoreEntrySize(data), maxSegmentSize);
              && ok == (!rotate || rotationOpens)
              && (rotate ==> && currentSegmentIndex == old(currentSegmentIndex) + 1
                             && oldestSegmentIndex == OldestAfterRotation(currentSegmentIndex, old(oldestSegmentIndex), maxSegmentCount)
                             && openSegment == (if rotationOpens then Some(currentSegmentIndex) else None))
              && (!rotate ==> && currentSegmentIndex == old(currentSegmentIndex)
                              && oldestSegmentIndex == old(oldestSegmentIndex)
                              && openSegment == old(openSegment))
              && streamFailed == (if rotate then !rotationOpens else old(streamFailed))
              && byteOffset == (if !ok then old(byteOffset)
                                else if rotate then CoreEntrySize(data)
                                else old(byteOffset) + CoreEntrySize(data))
              && var files := if rotate
                              then SegmentsAfterRotation(old(segments), old(currentSegmentIndex), old(oldestSegmentIndex), maxSegmentCount, rotationOpens)
                              else old(segments);
                 segments == (if ok then WriteEntry(files, WriteTarget(openSegment, streamFailed), NewCoreEntry(checksum, lastSequenceNo, data, now))
                              else files)
    {
      lastSequenceNo := (lastSequenceNo + 1) % 0x1_0000_0000_0000_0000;
      var entry := NewCoreEntry(checksum, lastSequenceNo, data, now);
      var entrySize := CoreEntrySize(data);
      if NeedsRotation(byteOffset, entrySize, maxSegmentSize) {
        var rotated := RotateLog(rotationOpens);
        if !rotated {
          return false;
        }
      }
      byteOffset := byteOffset + entrySize;
      segments := WriteEntry(segments, WriteTarget(openSegment, streamFailed), entry);
      ok := true;
    }
  }
}
