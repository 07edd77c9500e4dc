/**
 * The per-worker write-ahead-log ring buffer
 * (backend/leanstore/concurrency-recovery/Logging.cpp): free-space
 * arithmetic between the worker's write cursor and the group-commit cursor,
 * the carriage-return wrap that keeps room for entries, the cursor advance
 * of the submit calls, and the walk over the current transaction's entries.
 */
module WalRing {
  import opened Bytes
  import opened Wrappers

  /** The header of an entry in the ring buffer: its type and size (and, for meta entries, the stamp). */
  datatype WalRecord =
    | CarriageReturn(size: nat)
    | MetaEntry(size: nat, lsn: u64, namespaceId: u64)
    | DataEntry(size: nat)

  /** The entry headers written into the buffer, by offset. */
  type WalBuffer = map<nat, WalRecord>

  /**
   * walFreeSpace: the whole buffer when the cursors meet, otherwise the ring
   * distance from the write cursor forwards to the group-commit cursor.
   */
  function WalFreeSpace(size: nat, wt: nat, gct: nat): (r: nat)
    requires wt < size && gct < size
    ensures 0 < r <= size
    ensures r == size <==> gct == wt
    ensures gct != wt ==> r == (gct - wt) % size
  {
    if gct == wt then size
    else if gct < wt then gct + (size - wt)
    else gct - wt
  }

  /**
   * walContiguousFreeSpace: up to the group-commit cursor when it is ahead,
   * otherwise up to the end of the buffer.
   */
  function WalContiguousFreeSpace(size: nat, wt: nat, gct: nat): (r: nat)
    requires wt < size && gct < size
    ensures 0 < r <= WalFreeSpace(size, wt, gct)
    ensures wt + r <= size
    ensures gct > wt ==> wt + r == gct
  {
    if gct > wt then gct - wt else size - wt
  }

  /**
   * The free space walEnsureEnoughSpace waits for: the request plus room for
   * a carriage-return entry, plus the rest of this round when that does not
   * fit before the end of the buffer.
   */
  function WaitThreshold(size: nat, wt: nat, requested: nat, crEntrySize: nat): (r: nat)
    requires wt <= size
    ensures r >= requested + crEntrySize
    ensures r == requested + crEntrySize + (size - wt) <==> size - wt < requested + crEntrySize || wt == size
  {
    if size - wt < requested + crEntrySize then requested + crEntrySize + (size - wt)
    else requested + crEntrySize
  }

  /**
   * Once the free space reaches the threshold, the wrap decision leaves a
   * write cursor with the request and a carriage-return entry fitting
   * contiguously before the end of the buffer: the two ensure() checks of
   * walEnsureEnoughSpace never fire.
   */
  lemma EnsureSpaceSound(size: nat, wt: nat, gct: nat, requested: nat, crEntrySize: nat)
    requires wt < size && gct < size && crEntrySize > 0
    requires WalFreeSpace(size, wt, gct) >= WaitThreshold(size, wt, requested, crEntrySize)
    ensures var wrap := WalContiguousFreeSpace(size, wt, gct) < requested + crEntrySize;
            var wt' := if wrap then 0 else wt;
            && (wrap ==> gct <= wt)
            && WalContiguousFreeSpace(size, wt', gct) >= requested
            && wt' + requested + crEntrySize <= size
  {
    var free := WalFreeSpace(size, wt, gct);
    var threshold := WaitThreshold(size, wt, requested, crEntrySize);
    if WalContiguousFreeSpace(size, wt, gct) < requested + crEntrySize {
      if gct <= wt {
        assert threshold == requested + crEntrySize + (size - wt);
        if gct == wt {
          assert free == size;
        } else {
          assert free == gct + (size - wt);
        }
        assert gct >= requested + crEntrySize;
      }
    }
  }

  /**
   * The flag test of submitWALMetaEntry / submitDTEntry: the write starts
   * before the current transaction's first entry and reaches it.
   */
  predicate OverrunsTxStart(wt: nat, size: nat, txStart: nat) {
    !(wt >= txStart || wt + size < txStart)
  }

  /**
   * Without the flag, a nonempty write never lands the cursor exactly on the
   * transaction's start, where the walk over its entries would see an empty
   * region; this is why the test uses < and not <=.
   */
  lemma NoOverrunKeepsRegion(wt: nat, size: nat, txStart: nat)
    requires size > 0 && !OverrunsTxStart(wt, size, txStart)
    ensures wt + size != txStart
    ensures wt < txStart ==> wt + size < txStart
  {
  }

  /** Steps the walk can still take before reaching the write cursor: the termination measure of the walk. */
  function WalkDistance(size: nat, cursor: nat, wt: nat): nat
    requires cursor <= size
  {
    if cursor <= wt then wt - cursor else size - cursor + wt + 1
  }

  /** The positions a walk from cursor is allowed to visit: up to wt, wrapping past the end once when wt is behind. */
  predicate InTxRegion(p: nat, cursor: nat, wt: nat, size: nat) {
    if cursor <= wt then cursor <= p < wt else cursor <= p < size || p < wt
  }

  /**
   * iterateOverCurrentTXEntries as a function: the offsets of the entries
   * handed to the callback, walking from cursor to the write cursor,
   * jumping to 0 at a carriage return. None when the walk is not one the
   * loop completes: a missing or empty entry (the ensure fails), an entry
   * running past the write cursor or the buffer, or a carriage return met
   * before the walk has wrapped.
   */
  function Walk(buffer: WalBuffer, size: nat, cursor: nat, wt: nat): (r: Option<seq<nat>>)
    requires cursor <= size
    ensures r.Some? ==> forall i :: 0 <= i < |r.value| ==>
              && r.value[i] in buffer
              && !buffer[r.value[i]].CarriageReturn?
              && buffer[r.value[i]].size > 0
              && InTxRegion(r.value[i], cursor, wt, size)
    ensures r.Some? && cursor <= wt ==> forall i, j :: 0 <= i < j < |r.value| ==> r.value[i] < r.value[j]
    decreases WalkDistance(size, cursor, wt)
  {
    if cursor == wt then Some([])
    else if cursor >= size || cursor !in buffer || buffer[cursor].size == 0 then None
    else if buffer[cursor].CarriageReturn? then
      if cursor < wt then None else Walk(buffer, size, 0, wt)
    else
      var next := cursor + buffer[cursor].size;
      if (cursor < wt && next > wt) || next > size then None
      else
        match Walk(buffer, size, next, wt)
        case None => None
        case Some(rest) => Some([cursor] + rest)
  }

  /** The walk never hands a carriage-return entry to the callback. */
  lemma WalkSkipsCarriageReturns(buffer: WalBuffer, size: nat, cursor: nat, wt: nat)
    requires cursor <= size && Walk(buffer, size, cursor, wt).Some?
    ensures forall p :: p in Walk(buffer, size, cursor, wt).value ==> p in buffer && !buffer[p].CarriageReturn?
  {
    var r := Walk(buffer, size, cursor, wt).value;
    forall p | p in r ensures p in buffer && !buffer[p].CarriageReturn? {
      var i :| 0 <= i < |r| && r[i] == p;
    }
  }

  /** The offset just past the last of a run of entries laid end to end from cursor. */
  function RunEnd(buffer: WalBuffer, cursor: nat, offsets: seq<nat>): nat
    requires forall i :: 0 <= i < |offsets| ==> offsets[i] in buffer
  {
    if offsets == [] then cursor else offsets[|offsets| - 1] + buffer[offsets[|offsets| - 1]].size
  }

  /**
   * Entries other than carriage returns (meta and data entries alike) laid
   * end to end from cursor up to the write cursor are handed to the
   * callback one by one, in buffer order.
   */
  lemma {:induction false} WalkOfContiguousEntries(buffer: WalBuffer, size: nat, cursor: nat, wt: nat, offsets: seq<nat>)
    requires cursor <= wt < size
    requires |offsets| > 0 ==> offsets[0] == cursor
    requires forall i :: 0 <= i < |offsets| ==>
               offsets[i] in buffer && !buffer[offsets[i]].CarriageReturn? && buffer[offsets[i]].size > 0
    requires forall i :: 0 <= i < |offsets| - 1 ==> offsets[i] + buffer[offsets[i]].size == offsets[i + 1]
    requires RunEnd(buffer, cursor, offsets) == wt
    ensures Walk(buffer, size, cursor, wt) == Some(offsets)
    decreases |offsets|
  {
    if offsets == [] {
      assert cursor == wt;
      assert Walk(buffer, size, cursor, wt) == Some([]);
    } else if |offsets| == 1 {
      assert cursor + buffer[cursor].size == wt && cursor < wt;
      assert Walk(buffer, size, wt, wt) == Some([]);
      WalkStep(buffer, size, cursor, wt, []);
      assert offsets == [cursor] + [];
    } else {
      var next := offsets[1];
      var tail := offsets[1..];
      assert cursor + buffer[cursor].size == next;
      assert RunEnd(buffer, next, tail) == RunEnd(buffer, cursor, offsets);
      OffsetsBelowEnd(buffer, cursor, offsets, 1);
      WalkOfContiguousEntries(buffer, size, next, wt, tail);
      WalkStep(buffer, size, cursor, wt, tail);
      assert offsets == [cursor] + tail;
    }
  }

  /**
   * A transaction whose entries wrapped: entries other than carriage
   * returns laid end to end from cursor, which lies after the write cursor,
   * up to a carriage return at c, then such entries laid end to end from 0
   * up to the write cursor. The
   * walk hands the first run and then the second to the callback, skipping
   * the carriage return.
   */
  lemma {:induction false} WalkOfWrappedEntries(buffer: WalBuffer, size: nat, cursor: nat, wt: nat, c: nat, first: seq<nat>, second: seq<nat>)
    requires wt < cursor <= c < size
    requires c in buffer && buffer[c].CarriageReturn? && buffer[c].size > 0
    requires |first| > 0 ==> first[0] == cursor
    requires forall i :: 0 <= i < |first| ==>
               first[i] in buffer && !buffer[first[i]].CarriageReturn? && buffer[first[i]].size > 0
    requires forall i :: 0 <= i < |first| - 1 ==> first[i] + buffer[first[i]].size == first[i + 1]
    requires RunEnd(buffer, cursor, first) == c
    requires |second| > 0 ==> second[0] == 0
    requires forall i :: 0 <= i < |second| ==>
               second[i] in buffer && !buffer[second[i]].CarriageReturn? && buffer[second[i]].size > 0
    requires forall i :: 0 <= i < |second| - 1 ==> second[i] + buffer[second[i]].size == second[i + 1]
    requires RunEnd(buffer, 0, second) == wt
    ensures Walk(buffer, size, cursor, wt) == Some(first + second)
  {
    WalkOfContiguousEntries(buffer, size, 0, wt, second);
    WalkToCarriageReturn(buffer, size, cursor, wt, c, first, second);
  }

  /** A run of non-CR entries behind the write cursor ending at a carriage return continues the walk from 0. */
  lemma {:induction false} WalkToCarriageReturn(buffer: WalBuffer, size: nat, cursor: nat, wt: nat, c: nat, first: seq<nat>, rest: seq<nat>)
    requires wt < cursor <= c < size
    requires c in buffer && buffer[c].CarriageReturn? && buffer[c].size > 0
    requires |first| > 0 ==> first[0] == cursor
    requires forall i :: 0 <= i < |first| ==>
               first[i] in buffer && !buffer[first[i]].CarriageReturn? && buffer[first[i]].size > 0
    requires forall i :: 0 <= i < |first| - 1 ==> first[i] + buffer[first[i]].size == first[i + 1]
    requires RunEnd(buffer, cursor, first) == c
    requires Walk(buffer, size, 0, wt) == Some(rest)
    ensures Walk(buffer, size, cursor, wt) == Some(first + rest)
    decreases |first|
  {
    if first == [] {
      assert cursor == c;
      assert first + rest == rest;
    } else {
      var tail := first[1..];
      var next := if |first| == 1 then c else first[1];
      assert cursor + buffer[cursor].size == next;
      if |first| > 1 {
        OffsetsBelowEnd(buffer, cursor, first, 1);
      }
      assert RunEnd(buffer, next, tail) == c;
      WalkToCarriageReturn(buffer, size, next, wt, c, tail, rest);
      WalkStep(buffer, size, cursor, wt, tail + rest);
      assert first + rest == [cursor] + (tail + rest);
    }
  }

  /** One step of the walk over an entry other than a carriage return that stays inside the region. */
  lemma WalkStep(buffer: WalBuffer, size: nat, cursor: nat, wt: nat, rest: seq<nat>)
    requires cursor != wt && cursor < size
    requires cursor in buffer && !buffer[cursor].CarriageReturn? && buffer[cursor].size > 0
    requires cursor + buffer[cursor].size <= size
    requires cursor < wt ==> cursor + buffer[cursor].size <= wt
    requires Walk(buffer, size, cursor + buffer[cursor].size, wt) == Some(rest)
    ensures Walk(buffer, size, cursor, wt) == Some([cursor] + rest)
  {
  }

  /** Along such a run every offset is at least the first and below the run's end. */
  lemma {:induction false} OffsetsBelowEnd(buffer: WalBuffer, cursor: nat, offsets: seq<nat>, k: nat)
    requires |offsets| > 0 && offsets[0] == cursor && k < |offsets|
    requires forall i :: 0 <= i < |offsets| ==> offsets[i] in buffer && buffer[offsets[i]].size > 0
    requires forall i :: 0 <= i < |offsets| - 1 ==> offsets[i] + buffer[offsets[i]].size == offsets[i + 1]
    ensures cursor <= offsets[k] < RunEnd(buffer, cursor, offsets)
    decreases |offsets| - k
  {
    if k > 0 {
      OffsetsAbove(buffer, offsets, k);
    }
    if k < |offsets| - 1 {
      OffsetsBelowEnd(buffer, cursor, offsets, k + 1);
    }
  }

  lemma {:induction false} OffsetsAbove(buffer: WalBuffer, offsets: seq<nat>, k: nat)
    requires 0 < k < |offsets|
    requires forall i :: 0 <= i < |offsets| ==> offsets[i] in buffer && buffer[offsets[i]].size > 0
    requires forall i :: 0 <= i < |offsets| - 1 ==> offsets[i] + buffer[offsets[i]].size == offsets[i + 1]
    ensures offsets[0] < offsets[k]
    decreases k
  {
    if k > 1 {
      OffsetsAbove(buffer, offsets, k - 1);
    }
  }

  class WalLogging {
    /** FLAGS_wal_buffer_size. */
    const bufferSize: nat
    /** FLAGS_wal. */
    const walEnabled: bool
    /** CR_ENTRY_SIZE: the room always kept for a carriage-return entry. */
    const crEntrySize: nat
    /** sizeof(WALMetaEntry). */
    const metaEntrySize: nat

    /** wal_wt_cursor. */
    var wtCursor: nat
    /** wal_next_to_clean. */
    var nextToClean: nat
    /** wal_buffer_round. */
    var bufferRound: nat
    /** wal_lsn_counter. */
    var lsnCounter: u64
    /** current_tx_wal_start. */
    var currentTxWalStart: nat
    /** active_tx.wal_larger_than_buffer. */
    var walLargerThanBuffer: bool
    /** Offset of active_mt_entry, once one is reserved. */
    var activeMetaEntry: Option<nat>
    /** wal_buffer, as the entry headers written into it. */
    var buffer: WalBuffer

    ghost predicate Valid()
      reads this
    {
      && 0 < crEntrySize && 0 < metaEntrySize
      && wtCursor + crEntrySize <= bufferSize
      && currentTxWalStart < bufferSize
    }

    constructor (bufferSize: nat, walEnabled: bool, crEntrySize: nat, metaEntrySize: nat)
      requires 0 < crEntrySize < bufferSize && 0 < metaEntrySize
      ensures Valid()
      ensures this.bufferSize == bufferSize && this.walEnabled == walEnabled
      ensures this.crEntrySize == crEntrySize && this.metaEntrySize == metaEntrySize
      ensures wtCursor == 0 && nextToClean == 0 && bufferRound == 0 && lsnCounter == 0
      ensures currentTxWalStart == 0 && !walLargerThanBuffer && activeMetaEntry == None && buffer == map[]
    {
      this.bufferSize := bufferSize;
      this.walEnabled := walEnabled;
      this.crEntrySize := crEntrySize;
      this.metaEntrySize := metaEntrySize;
      wtCursor := 0;
      nextToClean := 0;
      bufferRound := 0;
      lsnCounter := 0;
      currentTxWalStart := 0;
      walLargerThanBuffer := false;
      activeMetaEntry := None;
      buffer := map[];
    }

    /**
     * walEnsureEnoughSpace, after its spin-wait: gct is the group-commit
     * cursor the wait last observed, with enough free space. When the
     * request and a carriage-return entry do not fit contiguously, a
     * carriage return spanning the rest of the buffer is written at the
     * write cursor and the next round starts at 0.
     */
    method EnsureEnoughSpace(requested: nat, gct: nat)
      requires Valid() && gct < bufferSize
      requires walEnabled ==> WalFreeSpace(bufferSize, wtCursor, gct) >= WaitThreshold(bufferSize, wtCursor, requested, crEntrySize)
      modifies this
      ensures Valid()
      ensures !walEnabled ==> unchanged(this)
      ensures lsnCounter == old(lsnCounter) && currentTxWalStart == old(currentTxWalStart)
      ensures walLargerThanBuffer == old(walLargerThanBuffer) && activeMetaEntry == old(activeMetaEntry)
      ensures walEnabled ==>
                && WalContiguousFreeSpace(bufferSize, wtCursor, gct) >= requested
                && wtCursor + requested + crEntrySize <= bufferSize
      ensures walEnabled ==>
                var wrap := WalContiguousFreeSpace(bufferSize, old(wtCursor), gct) < requested + crEntrySize;
                && (wrap ==>
                      && wtCursor == 0 && nextToClean == 0 && bufferRound == old(bufferRound) + 1
                      && buffer == old(buffer)[old(wtCursor) := CarriageReturn(bufferSize - old(wtCursor))])
                && (!wrap ==>
                      && wtCursor == old(wtCursor) && nextToClean == old(nextToClean)
                      && bufferRound == old(bufferRound) && buffer == old(buffer))
    {
      if !walEnabled {
        return;
      }
      EnsureSpaceSound(bufferSize, wtCursor, gct, requested, crEntrySize);
      if WalContiguousFreeSpace(bufferSize, wtCursor, gct) < requested + crEntrySize {
        buffer := buffer[wtCursor := CarriageReturn(bufferSize - wtCursor)];
        wtCursor := 0;
        nextToClean := 0;
        bufferRound := bufferRound + 1;
      }
    }

    /**
     * reserveWALMetaEntry: makes room for a meta entry, places it at the
     * write cursor and stamps it with the next log sequence number.
     */
    method ReserveWalMetaEntry(gct: nat, namespaceId: u64) returns (at: nat)
      requires Valid() && gct < bufferSize
      requires walEnabled ==> WalFreeSpace(bufferSize, wtCursor, gct) >= WaitThreshold(bufferSize, wtCursor, metaEntrySize, crEntrySize)
      modifies this
      ensures Valid()
      ensures walEnabled ==> at + metaEntrySize + crEntrySize <= bufferSize
      ensures at == wtCursor && activeMetaEntry == Some(at)
      ensures at in buffer && buffer[at] == MetaEntry(metaEntrySize, old(lsnCounter), namespaceId)
      ensures lsnCounter == (old(lsnCounter) + 1) % 0x1_0000_0000_0000_0000
      ensures currentTxWalStart == old(currentTxWalStart) && walLargerThanBuffer == old(walLargerThanBuffer)
    {
      EnsureEnoughSpace(metaEntrySize, gct);
      at := wtCursor;
      activeMetaEntry := Some(at);
      buffer := buffer[at := MetaEntry(metaEntrySize, lsnCounter, namespaceId)];
      lsnCounter := (lsnCounter + 1) % 0x1_0000_0000_0000_0000;
    }

    /**
     * submitWALMetaEntry: flags the transaction when the entry overran its
     * first entry, then advances the write cursor past the meta entry.
     */
    method SubmitWalMetaEntry()
      requires Valid() && wtCursor + metaEntrySize + crEntrySize <= bufferSize
      modifies this
      ensures Valid()
      ensures wtCursor == old(wtCursor) + metaEntrySize
      ensures walLargerThanBuffer == (old(walLargerThanBuffer) || OverrunsTxStart(old(wtCursor), metaEntrySize, currentTxWalStart))
      ensures !OverrunsTxStart(old(wtCursor), metaEntrySize, currentTxWalStart) ==> wtCursor != currentTxWalStart
      ensures buffer == old(buffer) && lsnCounter == old(lsnCounter) && currentTxWalStart == old(currentTxWalStart)
      ensures nextToClean == old(nextToClean) && bufferRound == old(bufferRound) && activeMetaEntry == old(activeMetaEntry)
    {
      if !(wtCursor >= currentTxWalStart || wtCursor + metaEntrySize < currentTxWalStart) {
        walLargerThanBuffer := true;
      } else {
        NoOverrunKeepsRegion(wtCursor, metaEntrySize, currentTxWalStart);
      }
      wtCursor := wtCursor + metaEntrySize;
    }

    /**
     * submitDTEntry: the same flag test for a data entry of totalSize bytes
     * already placed at the write cursor, then the cursor advance.
     */
    method SubmitDtEntry(totalSize: nat)
      requires Valid() && wtCursor + totalSize + crEntrySize <= bufferSize
      modifies this
      ensures Valid()
      ensures wtCursor == old(wtCursor) + totalSize
      ensures walLargerThanBuffer == (old(walLargerThanBuffer) || OverrunsTxStart(old(wtCursor), totalSize, currentTxWalStart))
      ensures totalSize > 0 && !OverrunsTxStart(old(wtCursor), totalSize, currentTxWalStart) ==> wtCursor != currentTxWalStart
      ensures buffer == old(buffer) && lsnCounter == old(lsnCounter) && currentTxWalStart == old(currentTxWalStart)
      ensures nextToClean == old(nextToClean) && bufferRound == old(bufferRound) && activeMetaEntry == old(activeMetaEntry)
    {
      if !(wtCursor >= currentTxWalStart || wtCursor + totalSize < currentTxWalStart) {
        walLargerThanBuffer := true;
      } else if totalSize > 0 {
        NoOverrunKeepsRegion(wtCursor, totalSize, currentTxWalStart);
      }
      wtCursor := wtCursor + totalSize;
    }

    /**
     * iterateOverCurrentTXEntries: the cursor loop from the transaction's
     * first entry to the write cursor; visited lists the offsets of the
     * entries handed to the callback, in the order it receives them.
     */
    method IterateOverCurrentTxEntries() returns (visited: seq<nat>)
      requires Valid()
      requires Walk(buffer, bufferSize, currentTxWalStart, wtCursor).Some?
      ensures Walk(buffer, bufferSize, currentTxWalStart, wtCursor) == Some(visited)
      ensures forall p :: p in visited ==> p in buffer && !buffer[p].CarriageReturn?
    {
      var cursor: nat := currentTxWalStart;
      visited := [];
      while cursor != wtCursor
        invariant cursor <= bufferSize
        invariant Walk(buffer, bufferSize, cursor, wtCursor).Some?
        invariant Walk(buffer, bufferSize, currentTxWalStart, wtCursor).value
                  == visited + Walk(buffer, bufferSize, cursor, wtCursor).value
        decreases WalkDistance(bufferSize, cursor, wtCursor)
      {
        var entry := buffer[cursor];
        if entry.CarriageReturn? {
          cursor := 0;
        } else {
          var rest := Walk(buffer, bufferSize, cursor + entry.size, wtCursor).value;
          assert Walk(buffer, bufferSize, cursor, wtCursor).value == [cursor] + rest;
          visited := visited + [cursor];
          cursor := cursor + entry.size;
        }
      }
      assert Walk(buffer, bufferSize, cursor, wtCursor) == Some([]);
      assert visited + [] == visited;
      WalkSkipsCarriageReturns(buffer, bufferSize, currentTxWalStart, wtCursor);
    }
  }
}
