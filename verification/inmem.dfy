/**
 * The bounded in-memory store (backend/leanstore/storage/inmem/Inmem.cpp):
 * an ordered map of records plus an LRU list of keys and an index from each
 * key to its list node, updated in place by insert, updateSameSizeInPlace
 * and remove, and read by lookup and the two early-exit scans.
 */
module InmemStore {
  import opened Bytes
  import opened Wrappers
  import opened Lexicographic
  import opened InmemKeys

  /**
   * A node of lru_list: the key it holds, and an identity standing for the
   * list iterator that lru_map keeps to it.
   */
  datatype LruNode = LruNode(id: nat, key: Key)

  /** Every node of the list has its own identity. */
  predicate UniqueIds(list: seq<LruNode>) {
    forall i, j :: 0 <= i < j < |list| ==> list[i].id != list[j].id
  }

  /** list::erase(iterator): unlinks the node with that identity. */
  function EraseNode(list: seq<LruNode>, id: nat): (r: seq<LruNode>)
    ensures forall n :: n in r <==> n in list && n.id != id
    ensures |r| <= |list|
  {
    if list == [] then []
    else (if list[0].id == id then [] else [list[0]]) + EraseNode(list[1..], id)
  }

  /** Unlinking a node keeps the remaining identities unique. */
  lemma {:induction false} EraseNodeUnique(list: seq<LruNode>, id: nat)
    requires UniqueIds(list)
    ensures UniqueIds(EraseNode(list, id))
  {
    if list != [] {
      var rest := EraseNode(list[1..], id);
      EraseNodeUnique(list[1..], id);
      if list[0].id != id {
        forall n | n in rest ensures n.id != list[0].id {
          var m :| 0 <= m < |list| - 1 && list[1..][m] == n;
          assert list[m + 1] == n;
        }
        PushFrontUnique(rest, list[0]);
      }
    }
  }

  /**
   * What every reachable state satisfies: the store is ordered, node
   * identities are unique and below the next one to hand out, every lru_map
   * entry points to a node of the list holding its key, and every stored key
   * has an lru_map entry.
   */
  predicate Invariant(store: seq<KeyValue>, list: seq<LruNode>, index: map<Key, nat>, nextId: nat) {
    && StrictlySorted(store)
    && UniqueIds(list)
    && (forall n :: n in list ==> n.id < nextId)
    && (forall k :: k in index ==> LruNode(index[k], k) in list)
    && (forall k :: k in KeySet(store) ==> k in index)
  }

  /**
   * The LRU structures hold exactly the stored keys, each once. True of
   * every history without remove, which leaves the LRU structures alone.
   */
  predicate Coherent(store: seq<KeyValue>, list: seq<LruNode>, index: map<Key, nat>) {
    && index.Keys == KeySet(store)
    && (forall n :: n in list ==> n.key in KeySet(store))
    && (forall a, b :: a in list && b in list && a.key == b.key ==> a == b)
  }

  /** A nonempty store has a nonempty LRU list, so the eviction's lru_list.back() is defined. */
  lemma LruNonEmpty(store: seq<KeyValue>, list: seq<LruNode>, index: map<Key, nat>, nextId: nat)
    requires Invariant(store, list, index, nextId) && |store| > 0
    ensures |list| > 0
  {
    assert store[0] in store;
    assert store[0].key in KeySet(store);
    assert LruNode(index[store[0].key], store[0].key) in list;
  }

  /** Pushing a node with an unused identity to the front keeps identities unique. */
  lemma PushFrontUnique(list: seq<LruNode>, n: LruNode)
    requires UniqueIds(list) && forall m :: m in list ==> m.id != n.id
    ensures UniqueIds([n] + list)
  {
    var list' := [n] + list;
    forall i, j | 0 <= i < j < |list'| ensures list'[i].id != list'[j].id {
      assert list'[j] == list[j - 1] && list[j - 1] in list;
    }
  }

  /** insert on a present key: its node moves to the front under a fresh identity. */
  lemma TouchPreserves(store: seq<KeyValue>, list: seq<LruNode>, index: map<Key, nat>, nextId: nat, k: Key)
    requires Invariant(store, list, index, nextId) && k in KeySet(store)
    ensures k in index
    ensures Invariant(store, [LruNode(nextId, k)] + EraseNode(list, index[k]), index[k := nextId], nextId + 1)
  {
    var rest := EraseNode(list, index[k]);
    var list' := [LruNode(nextId, k)] + rest;
    var index' := index[k := nextId];
    EraseNodeUnique(list, index[k]);
    PushFrontUnique(rest, LruNode(nextId, k));
    forall k' | k' in index' ensures LruNode(index'[k'], k') in list' {
      if k' != k {
        assert LruNode(index[k'], k') in list;
      }
    }
  }

  /** The same step keeps the LRU structures coherent with the store. */
  lemma TouchKeepsCoherent(store: seq<KeyValue>, list: seq<LruNode>, index: map<Key, nat>, nextId: nat, k: Key)
    requires Invariant(store, list, index, nextId) && k in index
    ensures Coherent(store, list, index) ==>
              Coherent(store, [LruNode(nextId, k)] + EraseNode(list, index[k]), index[k := nextId])
  {
    if Coherent(store, list, index) {
      var rest := EraseNode(list, index[k]);
      var list' := [LruNode(nextId, k)] + rest;
      forall a, b | a in list' && b in list' && a.key == b.key ensures a == b {
        if a.key == k {
          assert LruNode(index[k], k) in list;
        }
      }
    }
  }

  /** Every node but the last of a list is in its prefix without the last. */
  lemma DropLast(list: seq<LruNode>)
    requires UniqueIds(list) && |list| > 0
    ensures forall n :: n in list[..|list| - 1] <==> n in list && n.id != list[|list| - 1].id
  {
    var list' := list[..|list| - 1];
    forall n | n in list && n.id != list[|list| - 1].id ensures n in list' {
      var a :| 0 <= a < |list| && list[a] == n;
      assert list'[a] == n;
    }
    forall n | n in list' ensures n in list && n.id != list[|list| - 1].id {
      var a :| 0 <= a < |list'| && list'[a] == n;
      assert list[a] == n;
    }
  }

  /** The eviction step: the tail node's key leaves the store, lru_map and the list. */
  lemma EvictPreserves(store: seq<KeyValue>, list: seq<LruNode>, index: map<Key, nat>, nextId: nat)
    requires Invariant(store, list, index, nextId) && |list| > 0
    ensures var tail := list[|list| - 1].key;
            Invariant(EraseKey(store, tail), list[..|list| - 1], index - {tail}, nextId)
  {
    var tail := list[|list| - 1].key;
    var index' := index - {tail};
    KeysAfterErase(store, tail);
    DropLast(list);
    forall k | k in index' ensures LruNode(index'[k], k) in list[..|list| - 1] {
      assert LruNode(index[k], k) in list;
    }
  }

  /**
   * Under coherence the evicted key is a stored key, so the store shrinks by
   * one, and coherence survives the eviction.
   */
  lemma EvictKeepsCoherent(store: seq<KeyValue>, list: seq<LruNode>, index: map<Key, nat>, nextId: nat)
    requires Invariant(store, list, index, nextId) && |list| > 0
    ensures var tail := list[|list| - 1].key;
            Coherent(store, list, index) ==>
              && tail in KeySet(store)
              && |EraseKey(store, tail)| == |store| - 1
              && Coherent(EraseKey(store, tail), list[..|list| - 1], index - {tail})
  {
    if Coherent(store, list, index) {
      var tail := list[|list| - 1].key;
      KeysAfterErase(store, tail);
      DropLast(list);
      assert list[|list| - 1] in list;
    }
  }

  /** insert of an absent key: the record enters the store and its node the list front. */
  lemma InsertFreshPreserves(store: seq<KeyValue>, list: seq<LruNode>, index: map<Key, nat>, nextId: nat, kv: KeyValue)
    requires Invariant(store, list, index, nextId) && kv.key !in KeySet(store)
    ensures Invariant(InsertNew(store, kv), [LruNode(nextId, kv.key)] + list, index[kv.key := nextId], nextId + 1)
  {
    KeysAfterInsert(store, kv);
    forall m | m in list ensures m.id != nextId {
    }
    PushFrontUnique(list, LruNode(nextId, kv.key));
  }

  /** The same step keeps the LRU structures coherent with the store. */
  lemma InsertFreshKeepsCoherent(store: seq<KeyValue>, list: seq<LruNode>, index: map<Key, nat>, nextId: nat, kv: KeyValue)
    requires StrictlySorted(store) && kv.key !in KeySet(store)
    ensures Coherent(store, list, index) ==>
              Coherent(InsertNew(store, kv), [LruNode(nextId, kv.key)] + list, index[kv.key := nextId])
  {
    KeysAfterInsert(store, kv);
  }

  /** remove: the store loses the key, the LRU structures keep it, and coherence is lost. */
  lemma RemoveBreaksCoherence(store: seq<KeyValue>, list: seq<LruNode>, index: map<Key, nat>, nextId: nat, k: Key)
    requires Invariant(store, list, index, nextId)
    ensures Invariant(EraseKey(store, k), list, index, nextId)
    ensures k in KeySet(store) ==> !Coherent(EraseKey(store, k), list, index)
  {
    KeysAfterErase(store, k);
    if k in KeySet(store) {
      assert k in index.Keys && k !in KeySet(EraseKey(store, k));
    }
  }

  /** updateSameSizeInPlace: erase then re-insert under the same key keeps both invariants. */
  lemma ReplacePreserves(store: seq<KeyValue>, list: seq<LruNode>, index: map<Key, nat>, nextId: nat, kv: KeyValue)
    requires Invariant(store, list, index, nextId) && kv.key in KeySet(store)
    ensures var erased := EraseKey(store, kv.key);
            && kv.key !in KeySet(erased)
            && KeySet(InsertNew(erased, kv)) == KeySet(store)
            && Invariant(InsertNew(erased, kv), list, index, nextId)
            && (Coherent(store, list, index) ==> Coherent(InsertNew(erased, kv), list, index))
  {
    KeysAfterErase(store, kv.key);
    KeysAfterInsert(EraseKey(store, kv.key), kv);
  }

  /** The records from a lower bound onwards: none below the key, keys strictly ascending. */
  lemma AscendingRun(s: seq<KeyValue>, k: Key, run: seq<KeyValue>)
    requires StrictlySorted(s)
    requires LowerBound(s, k) + |run| <= |s|
    requires forall i :: 0 <= i < |run| ==> run[i] == s[LowerBound(s, k) + i]
    ensures forall x :: x in run ==> !LexLess(x.key, k)
    ensures forall i, j :: 0 <= i < j < |run| ==> LexLess(run[i].key, run[j].key)
  {
    AscendingRunAtLeast(s, k, run);
    AscendingRunOrdered(s, LowerBound(s, k), run);
  }

  lemma AscendingRunAtLeast(s: seq<KeyValue>, k: Key, run: seq<KeyValue>)
    requires StrictlySorted(s)
    requires LowerBound(s, k) + |run| <= |s|
    requires forall i :: 0 <= i < |run| ==> run[i] == s[LowerBound(s, k) + i]
    ensures forall x :: x in run ==> !LexLess(x.key, k)
  {
    var lb := LowerBound(s, k);
    forall x | x in run ensures !LexLess(x.key, k) {
      var i :| 0 <= i < |run| && run[i] == x;
      assert x == s[lb + i];
    }
  }

  /** A contiguous window of a strictly sorted sequence is strictly sorted. */
  lemma AscendingRunOrdered(s: seq<KeyValue>, from: nat, run: seq<KeyValue>)
    requires StrictlySorted(s)
    requires from + |run| <= |s|
    requires forall i :: 0 <= i < |run| ==> run[i] == s[from + i]
    ensures forall i, j :: 0 <= i < j < |run| ==> LexLess(run[i].key, run[j].key)
  {
    forall i, j | 0 <= i < j < |run| ensures LexLess(run[i].key, run[j].key) {
      assert run[i] == s[from + i] && run[j] == s[from + j];
    }
  }

  /** A run from the lower bound to the end holds every record not below the key. */
  lemma AscendingRunComplete(s: seq<KeyValue>, k: Key, run: seq<KeyValue>)
    requires StrictlySorted(s)
    requires LowerBound(s, k) + |run| == |s|
    requires forall i :: 0 <= i < |run| ==> run[i] == s[LowerBound(s, k) + i]
    ensures forall x :: x in s && !LexLess(x.key, k) ==> x in run
  {
    var lb := LowerBound(s, k);
    forall x | x in s && !LexLess(x.key, k) ensures x in run {
      var a :| 0 <= a < |s| && s[a] == x;
      assert lb <= a;
      assert run[a - lb] == x;
    }
  }

  /** The records below a lower bound, walked backwards: all below the key, keys strictly descending. */
  lemma DescendingRun(s: seq<KeyValue>, k: Key, run: seq<KeyValue>)
    requires StrictlySorted(s)
    requires |run| <= LowerBound(s, k)
    requires forall i :: 0 <= i < |run| ==> run[i] == s[LowerBound(s, k) - 1 - i]
    ensures forall x :: x in run ==> LexLess(x.key, k) && x.key != k
    ensures forall i, j :: 0 <= i < j < |run| ==> LexLess(run[j].key, run[i].key)
  {
    DescendingRunBelow(s, k, run);
    DescendingRunOrdered(s, LowerBound(s, k), run);
  }

  lemma DescendingRunBelow(s: seq<KeyValue>, k: Key, run: seq<KeyValue>)
    requires StrictlySorted(s)
    requires |run| <= LowerBound(s, k)
    requires forall i :: 0 <= i < |run| ==> run[i] == s[LowerBound(s, k) - 1 - i]
    ensures forall x :: x in run ==> LexLess(x.key, k) && x.key != k
  {
    var lb := LowerBound(s, k);
    LexIrreflexive(k);
    forall x | x in run ensures LexLess(x.key, k) {
      var i :| 0 <= i < |run| && run[i] == x;
      assert x == s[lb - 1 - i];
    }
  }

  /** A window of a strictly sorted sequence read backwards is strictly descending. */
  lemma DescendingRunOrdered(s: seq<KeyValue>, from: nat, run: seq<KeyValue>)
    requires StrictlySorted(s)
    requires |run| <= from <= |s|
    requires forall i :: 0 <= i < |run| ==> run[i] == s[from - 1 - i]
    ensures forall i, j :: 0 <= i < j < |run| ==> LexLess(run[j].key, run[i].key)
  {
    forall i, j | 0 <= i < j < |run| ensures LexLess(run[j].key, run[i].key) {
      assert run[i] == s[from - 1 - i] && run[j] == s[from - 1 - j];
    }
  }

  /** A backward run down to the first record holds every record below the key. */
  lemma DescendingRunComplete(s: seq<KeyValue>, k: Key, run: seq<KeyValue>)
    requires StrictlySorted(s)
    requires |run| == LowerBound(s, k)
    requires forall i :: 0 <= i < |run| ==> run[i] == s[LowerBound(s, k) - 1 - i]
    ensures forall x :: x in s && LexLess(x.key, k) ==> x in run
  {
    var lb := LowerBound(s, k);
    forall x | x in s && LexLess(x.key, k) ensures x in run {
      var a :| 0 <= a < |s| && s[a] == x;
      assert a < lb;
      assert run[lb - 1 - a] == x;
    }
  }

  /**
   * A forward walk from the lower bound: every record visited is at or
   * after the key, in ascending key order, and a walk that was never told
   * to stop has visited every such record.
   */
  lemma AscendingScan(s: seq<KeyValue>, k: Key, callback: (Key, Value) -> bool, visited: seq<KeyValue>)
    requires StrictlySorted(s)
    requires LowerBound(s, k) + |visited| <= |s|
    requires forall i :: 0 <= i < |visited| ==> visited[i] == s[LowerBound(s, k) + i]
    requires (forall x :: x in visited ==> callback(x.key, x.value)) ==> LowerBound(s, k) + |visited| == |s|
    ensures forall x :: x in visited ==> !LexLess(x.key, k)
    ensures forall i, j :: 0 <= i < j < |visited| ==> LexLess(visited[i].key, visited[j].key)
    ensures (forall x :: x in visited ==> callback(x.key, x.value)) ==>
              forall x :: x in s && !LexLess(x.key, k) ==> x in visited
  {
    AscendingRun(s, k, visited);
    if LowerBound(s, k) + |visited| == |s| {
      AscendingRunComplete(s, k, visited);
    }
  }

  /**
   * A backward walk from the lower bound: every record visited is below
   * the key (never the key itself), in descending key order, and a walk
   * that was never told to stop has visited every such record.
   */
  lemma DescendingScan(s: seq<KeyValue>, k: Key, callback: (Key, Value) -> bool, visited: seq<KeyValue>)
    requires StrictlySorted(s)
    requires |visited| <= LowerBound(s, k)
    requires forall i :: 0 <= i < |visited| ==> visited[i] == s[LowerBound(s, k) - 1 - i]
    requires (forall x :: x in visited ==> callback(x.key, x.value)) ==> |visited| == LowerBound(s, k)
    ensures forall x :: x in visited ==> LexLess(x.key, k) && x.key != k
    ensures forall i, j :: 0 <= i < j < |visited| ==> LexLess(visited[j].key, visited[i].key)
    ensures (forall x :: x in visited ==> callback(x.key, x.value)) ==>
              forall x :: x in s && LexLess(x.key, k) ==> x in visited
  {
    DescendingRun(s, k, visited);
    if |visited| == LowerBound(s, k) {
      DescendingRunComplete(s, k, visited);
    }
  }

  /**
   * The iterator loop of scanAsc: from position start forwards until the
   * end or until the callback first says false.
   */
  method ScanForward(s: seq<KeyValue>, start: nat, callback: (Key, Value) -> bool) returns (visited: seq<KeyValue>)
    requires start <= |s|
    ensures start + |visited| <= |s|
    ensures forall i :: 0 <= i < |visited| ==> visited[i] == s[start + i]
    ensures forall i :: 0 <= i < |visited| - 1 ==> callback(visited[i].key, visited[i].value)
    ensures start + |visited| < |s| ==>
              |visited| > 0 && !callback(visited[|visited| - 1].key, visited[|visited| - 1].value)
    ensures (forall x :: x in visited ==> callback(x.key, x.value)) ==> start + |visited| == |s|
  {
    var it := start;
    visited := [];
    while it < |s|
      invariant start <= it <= |s| && |visited| == it - start
      invariant forall i :: 0 <= i < |visited| ==> visited[i] == s[start + i]
      invariant forall i :: 0 <= i < |visited| ==> callback(visited[i].key, visited[i].value)
    {
      visited := visited + [s[it]];
      if !callback(s[it].key, s[it].value) {
        break;
      }
      it := it + 1;
    }
  }

  /**
   * The iterator loop of scanDesc: from position start, step back and call,
   * until the first record is passed or the callback first says false.
   */
  method ScanBackward(s: seq<KeyValue>, start: nat, callback: (Key, Value) -> bool) returns (visited: seq<KeyValue>)
    requires start <= |s|
    ensures |visited| <= start
    ensures forall i :: 0 <= i < |visited| ==> visited[i] == s[start - 1 - i]
    ensures forall i :: 0 <= i < |visited| - 1 ==> callback(visited[i].key, visited[i].value)
    ensures |visited| < start ==>
              |visited| > 0 && !callback(visited[|visited| - 1].key, visited[|visited| - 1].value)
    ensures (forall x :: x in visited ==> callback(x.key, x.value)) ==> |visited| == start
  {
    var it := start;
    visited := [];
    while it > 0
      invariant 0 <= it <= start && |visited| == start - it
      invariant forall i :: 0 <= i < |visited| ==> visited[i] == s[start - 1 - i]
      invariant forall i :: 0 <= i < |visited| ==> callback(visited[i].key, visited[i].value)
    {
      it := it - 1;
      visited := visited + [s[it]];
      if !callback(s[it].key, s[it].value) {
        break;
      }
    }
  }

  class Inmem {
    /** store: the ordered map as its in-order sequence of records. */
    var store: seq<KeyValue>
    /** lru_list, most recently used first. */
    var lruList: seq<LruNode>
    /** lru_map: key to the identity of its list node. */
    var lruMap: map<Key, nat>
    /** The identity the next pushed node receives. */
    var nextNodeId: nat
    var config: Config

    ghost predicate Valid()
      reads this
    {
      Invariant(store, lruList, lruMap, nextNodeId)
    }

    ghost predicate IsCoherent()
      reads this
    {
      Coherent(store, lruList, lruMap)
    }

    /** Inmem() = default: everything empty, the default configuration. */
    constructor ()
      ensures Valid() && IsCoherent()
      ensures store == [] && lruList == [] && lruMap == map[] && config == DEFAULT_CONFIG
    {
      store := [];
      lruList := [];
      lruMap := map[];
      nextNodeId := 0;
      config := DEFAULT_CONFIG;
    }

    /**
     * lookup: OK with the stored value (what the callback receives) exactly
     * when the key is present, NOT_FOUND otherwise; nothing changes.
     */
    method Lookup(key: seq<u8>, keyLength: u16) returns (res: OpResult, payload: Option<Value>)
      requires Valid() && keyLength <= |key|
      ensures res == Ok <==> key[..keyLength] in KeySet(store)
      ensures res == Ok ==> payload.Some? && KeyValue(key[..keyLength], payload.value) in store
      ensures res != Ok ==> res == NotFound && payload == None
    {
      var k := key[..keyLength];
      var it := LowerBound(store, k);
      ghost var found := Find(store, k);
      if it < |store| && store[it].key == k {
        return Ok, Some(store[it].value);
      }
      return NotFound, None;
    }

    /** insert's path for a present key: its LRU node moves to the front under a fresh identity. */
    method TouchKey(k: Key)
      requires Valid() && k in KeySet(store)
      modifies this
      ensures Valid()
      ensures store == old(store) && config == old(config) && nextNodeId == old(nextNodeId) + 1
      ensures lruList == [LruNode(old(nextNodeId), k)] + EraseNode(old(lruList), old(lruMap)[k])
      ensures lruMap == old(lruMap)[k := old(nextNodeId)]
      ensures old(IsCoherent()) ==> IsCoherent()
    {
      TouchPreserves(store, lruList, lruMap, nextNodeId, k);
      TouchKeepsCoherent(store, lruList, lruMap, nextNodeId, k);
      var rest := if k in lruMap then EraseNode(lruList, lruMap[k]) else lruList;
      lruList, lruMap, nextNodeId := [LruNode(nextNodeId, k)] + rest, lruMap[k := nextNodeId], nextNodeId + 1;
    }

    /** insert's eviction at capacity: the LRU tail's key leaves the store, lru_map and the list. */
    method EvictTail()
      requires Valid() && |store| > 0
      modifies this
      ensures Valid()
      ensures config == old(config) && nextNodeId == old(nextNodeId)
      ensures |old(lruList)| > 0
      ensures var tail := old(lruList)[|old(lruList)| - 1].key;
              && (forall x :: x in store <==> x in old(store) && x.key != tail)
              && lruList == old(lruList)[..|old(lruList)| - 1]
              && lruMap == old(lruMap) - {tail}
      ensures |store| <= old(|store|)
      ensures old(IsCoherent()) ==> IsCoherent() && |store| == old(|store|) - 1
    {
      LruNonEmpty(store, lruList, lruMap, nextNodeId);
      EvictPreserves(store, lruList, lruMap, nextNodeId);
      EvictKeepsCoherent(store, lruList, lruMap, nextNodeId);
      var tail := lruList[|lruList| - 1].key;
      store, lruMap, lruList := EraseKey(store, tail), lruMap - {tail}, lruList[..|lruList| - 1];
    }

    /** insert's final step: the record is stored and its key pushed to the LRU front. */
    method PushNew(kv: KeyValue)
      requires Valid() && kv.key !in KeySet(store)
      modifies this
      ensures Valid()
      ensures config == old(config) && nextNodeId == old(nextNodeId) + 1
      ensures forall x :: x in store <==> x in old(store) || x == kv
      ensures |store| == old(|store|) + 1
      ensures lruList == [LruNode(old(nextNodeId), kv.key)] + old(lruList)
      ensures lruMap == old(lruMap)[kv.key := old(nextNodeId)]
      ensures old(IsCoherent()) ==> IsCoherent()
    {
      InsertFreshPreserves(store, lruList, lruMap, nextNodeId, kv);
      InsertFreshKeepsCoherent(store, lruList, lruMap, nextNodeId, kv);
      store, lruList, lruMap, nextNodeId :=
        InsertNew(store, kv), [LruNode(nextNodeId, kv.key)] + lruList, lruMap[kv.key := nextNodeId], nextNodeId + 1;
    }

    /**
     * insert: a present key keeps its value, moves to the LRU front and
     * yields DUPLICATE; otherwise, at capacity, the LRU tail's key is evicted
     * from the store, lru_map and the list, then the record is stored and
     * its key pushed to the front.
     */
    method Insert(key: seq<u8>, keyLength: u16, value: seq<u8>, valueLength: u16) returns (res: OpResult)
      requires Valid() && keyLength <= |key| && valueLength <= |value|
      modifies this
      ensures Valid()
      ensures config == old(config) && nextNodeId == old(nextNodeId) + 1
      ensures var kv := MakeKeyValue(key, keyLength, value, valueLength);
              kv.key in old(KeySet(store)) ==>
                && res == Duplicate
                && store == old(store)
                && lruList == [LruNode(old(nextNodeId), kv.key)] + EraseNode(old(lruList), old(lruMap)[kv.key])
                && lruMap == old(lruMap)[kv.key := old(nextNodeId)]
      ensures var kv := MakeKeyValue(key, keyLength, value, valueLength);
              kv.key !in old(KeySet(store)) && |old(store)| < MAX_STORE_SIZE ==>
                && res == Ok
                && (forall x :: x in store <==> x in old(store) || x == kv)
                && lruList == [LruNode(old(nextNodeId), kv.key)] + old(lruList)
                && lruMap == old(lruMap)[kv.key := old(nextNodeId)]
      ensures var kv := MakeKeyValue(key, keyLength, value, valueLength);
              kv.key !in old(KeySet(store)) && |old(store)| >= MAX_STORE_SIZE ==>
                && res == Ok
                && |old(lruList)| > 0
                && var tail := old(lruList)[|old(lruList)| - 1].key;
                   && (forall x :: x in store <==> (x in old(store) && x.key != tail) || x == kv)
                   && lruList == [LruNode(old(nextNodeId), kv.key)] + old(lruList)[..|old(lruList)| - 1]
                   && lruMap == (old(lruMap) - {tail})[kv.key := old(nextNodeId)]
      ensures |store| <= old(|store|) + 1
      ensures old(IsCoherent()) ==> IsCoherent()
      ensures old(IsCoherent()) && old(|store|) <= MAX_STORE_SIZE ==> |store| <= MAX_STORE_SIZE
    {
      var kv := MakeKeyValue(key, keyLength, value, valueLength);
      var found := Find(store, kv.key);
      if found.Some? {
        TouchKey(kv.key);
        return Duplicate;
      }
      if |store| >= MAX_STORE_SIZE {
        EvictTail();
      }
      PushNew(kv);
      res := Ok;
    }

    /**
     * updateSameSizeInPlace: the callback rewrites a copy of the value inside
     * its buffer (so the length cannot change); the record is erased and
     * re-inserted with the new value. The LRU structures are not touched.
     */
    method UpdateSameSizeInPlace(key: seq<u8>, keyLength: u16, callback: Value -> Value) returns (res: OpResult)
      requires Valid() && keyLength <= |key|
      requires forall v :: |callback(v)| == |v|
      modifies this
      ensures Valid()
      ensures lruList == old(lruList) && lruMap == old(lruMap) && nextNodeId == old(nextNodeId) && config == old(config)
      ensures res == Ok <==> key[..keyLength] in old(KeySet(store))
      ensures res != Ok ==> res == NotFound && store == old(store)
      ensures res == Ok ==>
                var k := key[..keyLength];
                var v := old(ValueOf(store, k));
                && |callback(v)| == |v|
                && forall x :: x in store <==> (x in old(store) && x.key != k) || x == KeyValue(k, callback(v))
      ensures KeySet(store) == old(KeySet(store)) && |store| == old(|store|)
      ensures old(IsCoherent()) ==> IsCoherent()
    {
      var k := key[..keyLength];
      var found := Find(store, k);
      if found.None? {
        return NotFound;
      }
      var newValue := callback(store[found.value].value);
      var kv := KeyValue(k, newValue);
      ReplacePreserves(store, lruList, lruMap, nextNodeId, kv);
      KeysAfterErase(store, k);
      store := EraseKey(store, k);
      store := InsertNew(store, kv);
      res := Ok;
    }

    /**
     * remove: erases the key's record when present (OK), NOT_FOUND
     * otherwise; lru_list and lru_map are left as they are.
     */
    method Remove(key: seq<u8>, keyLength: u16) returns (res: OpResult)
      requires Valid() && keyLength <= |key|
      modifies this
      ensures Valid()
      ensures lruList == old(lruList) && lruMap == old(lruMap) && nextNodeId == old(nextNodeId) && config == old(config)
      ensures res == Ok <==> key[..keyLength] in old(KeySet(store))
      ensures res != Ok ==> res == NotFound && store == old(store)
      ensures forall x :: x in store <==> x in old(store) && x.key != key[..keyLength]
      ensures res == Ok ==> !IsCoherent()
    {
      var k := key[..keyLength];
      var found := Find(store, k);
      if found.None? {
        return NotFound;
      }
      RemoveBreaksCoherence(store, lruList, lruMap, nextNodeId, k);
      store := EraseKey(store, k);
      res := Ok;
    }

    /**
     * scanAsc: from the lower bound of the start key forwards, handing each
     * record to the callback and stopping right after it first says false.
     * visited is the sequence of records the callback was given;
     * AscendingScan states which keys those are and in what order.
     */
    method ScanAsc(startKey: seq<u8>, keyLength: u16, callback: (Key, Value) -> bool)
      returns (res: OpResult, visited: seq<KeyValue>)
      requires Valid() && keyLength <= |startKey|
      ensures res == Ok
      ensures LowerBound(store, startKey[..keyLength]) + |visited| <= |store|
      ensures forall i :: 0 <= i < |visited| ==> visited[i] == store[LowerBound(store, startKey[..keyLength]) + i]
      ensures forall i :: 0 <= i < |visited| - 1 ==> callback(visited[i].key, visited[i].value)
      ensures LowerBound(store, startKey[..keyLength]) + |visited| < |store| ==>
                |visited| > 0 && !callback(visited[|visited| - 1].key, visited[|visited| - 1].value)
      ensures (forall x :: x in visited ==> callback(x.key, x.value)) ==>
                LowerBound(store, startKey[..keyLength]) + |visited| == |store|
    {
      var k := startKey[..keyLength];
      visited := ScanForward(store, LowerBound(store, k), callback);
      res := Ok;
    }

    /**
     * scanDesc: from the lower bound of the start key backwards, stepping
     * back before each call, so the start key itself is never handed to the
     * callback; stops right after the callback first says false.
     * DescendingScan states which keys the callback was given and in what order.
     */
    method ScanDesc(startKey: seq<u8>, keyLength: u16, callback: (Key, Value) -> bool)
      returns (res: OpResult, visited: seq<KeyValue>)
      requires Valid() && keyLength <= |startKey|
      ensures res == Ok
      ensures |visited| <= LowerBound(store, startKey[..keyLength])
      ensures forall i :: 0 <= i < |visited| ==> visited[i] == store[LowerBound(store, startKey[..keyLength]) - 1 - i]
      ensures forall i :: 0 <= i < |visited| - 1 ==> callback(visited[i].key, visited[i].value)
      ensures |visited| < LowerBound(store, startKey[..keyLength]) ==>
                |visited| > 0 && !callback(visited[|visited| - 1].key, visited[|visited| - 1].value)
      ensures (forall x :: x in visited ==> callback(x.key, x.value)) ==>
                |visited| == LowerBound(store, startKey[..keyLength])
    {
      var k := startKey[..keyLength];
      visited := ScanBackward(store, LowerBound(store, k), callback);
      res := Ok;
    }

    /** countPages: a stub answering 1. */
    method CountPages() returns (n: u64)
      ensures n == 1
    {
      n := 1;
    }

    /** countEntries: a stub answering 0 whatever the store holds. */
    method CountEntries() returns (n: u64)
      ensures n == 0
    {
      n := 0;
    }

    /** getHeight: a stub answering 0. */
    method GetHeight() returns (n: u64)
      ensures n == 0
    {
      n := 0;
    }
  }
}
