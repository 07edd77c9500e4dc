/**
 * The size-triggered rotation test and the count-bounded retention step
 * that both revisions of the append-only file share
 * (backend/leanstore/storage/inmem/aof.cpp and core/aof.cpp).
 */
module SegmentPolicy {
  import opened Wrappers

  /** The segment files of a log directory by segment index, each the entries written to it. */
  type SegmentFiles<E> = map<nat, seq<E>>

  /** maxSegmentSize as the constructor sets it: 10 MiB. */
  const MAX_SEGMENT_SIZE: nat := 10 * 1024 * 1024

  /** maxSegmentCount as the constructor sets it. */
  const MAX_SEGMENT_COUNT: nat := 5

  /** LogCommand rotates before writing when the entry would overflow the segment. */
  predicate NeedsRotation(byteOffset: nat, entrySize: nat, maxSegmentSize: nat) {
    byteOffset + entrySize > maxSegmentSize
  }

  /** Number of segment files from oldest to current, both included. */
  function LiveSegments(current: nat, oldest: nat): nat
    requires oldest <= current
  {
    current - oldest + 1
  }

  /**
   * RotateLog's retention step: with current already advanced, the oldest
   * segment is deleted (and the marker advanced) when one segment too many
   * would be live.
   */
  function OldestAfterRotation(current: nat, oldest: nat, maxSegmentCount: nat): (r: nat)
    requires oldest <= current
    ensures r == oldest || r == oldest + 1
    ensures r == oldest + 1 <==> LiveSegments(current, oldest) > maxSegmentCount
    ensures 1 <= maxSegmentCount && LiveSegments(current, oldest) <= maxSegmentCount + 1
            ==> r <= current && LiveSegments(current, r) <= maxSegmentCount
  {
    if current - oldest + 1 > maxSegmentCount then oldest + 1 else oldest
  }

  /** DeleteOldestSegment: fs::remove of the file; a missing file is not an error. */
  function RemoveSegment<E>(segments: SegmentFiles<E>, index: nat): (r: SegmentFiles<E>)
    ensures r.Keys == segments.Keys - {index}
    ensures forall i :: i in r ==> r[i] == segments[i]
  {
    segments - {index}
  }

  /** Opening a segment for appending creates it empty when missing and keeps what it holds otherwise. */
  function OpenSegment<E>(segments: SegmentFiles<E>, index: nat, openOk: bool): (r: SegmentFiles<E>)
    ensures openOk ==> r.Keys == segments.Keys + {index}
    ensures !openOk ==> r == segments
    ensures forall i :: i in segments ==> i in r && r[i] == segments[i]
    ensures openOk && index !in segments ==> r[index] == []
  {
    if openOk && index !in segments then segments[index := []] else segments
  }

  /**
   * WriteEntryToBuffer: the entry goes to the end of the segment the stream
   * is attached to; writing to a closed stream fails silently.
   */
  function WriteEntry<E>(segments: SegmentFiles<E>, open: Option<nat>, e: E): (r: SegmentFiles<E>)
    requires open.Some? ==> open.value in segments
    ensures r.Keys == segments.Keys
    ensures open.Some? ==> r[open.value] == segments[open.value] + [e]
    ensures forall i :: i in segments && open != Some(i) ==> r[i] == segments[i]
  {
    if open.Some? then segments[open.value := segments[open.value] + [e]] else segments
  }

  /**
   * The segment a write reaches: the one the stream is attached to, unless
   * a failed open has put the stream in a failed state, where write adds
   * nothing (and reports no error).
   */
  function WriteTarget(open: Option<nat>, failed: bool): (t: Option<nat>)
    ensures t.Some? <==> open.Some? && !failed
    ensures t.Some? ==> t == open
  {
    if failed then None else open
  }

  /** What RotateLog does to the files: delete the oldest when too many would be live, then open the next. */
  function SegmentsAfterRotation<E>(segments: SegmentFiles<E>, current: nat, oldest: nat, maxSegmentCount: nat, openOk: bool): (r: SegmentFiles<E>)
    requires oldest <= current
    ensures openOk ==> current + 1 in r
    ensures forall i :: i in segments && i != oldest ==> i in r && r[i] == segments[i]
    ensures LiveSegments(current + 1, oldest) > maxSegmentCount ==> oldest !in r || oldest == current + 1
  {
    var retained := if OldestAfterRotation(current + 1, oldest, maxSegmentCount) != oldest
                    then RemoveSegment(segments, oldest) else segments;
    OpenSegment(retained, current + 1, openOk)
  }
}
