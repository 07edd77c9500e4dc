/**
 * The values of the in-memory store (backend/leanstore/storage/inmem/Inmem.hpp):
 * key/value records ordered by key bytes alone, the comparator overloads,
 * the capacity and configuration constants, and the ordered store
 * (a std::map) as its strictly ascending sequence of records with the
 * map operations the store uses.
 */
module InmemKeys {
  import opened Bytes
  import opened Wrappers
  import opened Lexicographic

  type Key = seq<u8>
  type Value = seq<u8>

  /** KeyValue: a key and a value, each a byte vector. */
  datatype KeyValue = KeyValue(key: Key, value: Value)

  /** The KeyValue constructor: the first klen bytes at k and the first vlen bytes at v. */
  function MakeKeyValue(k: seq<u8>, klen: u16, v: seq<u8>, vlen: u16): (kv: KeyValue)
    requires klen <= |k| && vlen <= |v|
    ensures |kv.key| == klen && |kv.value| == vlen
    ensures kv.key <= k && kv.value <= v
  {
    KeyValue(k[..klen], v[..vlen])
  }

  /** KeyValue::operator<: lexicographic on the key bytes; the value plays no part. */
  predicate KeyValueLess(a: KeyValue, b: KeyValue) {
    LexLess(a.key, b.key)
  }

  /** KeyCompare(KeyValue, KeyValue). */
  predicate CompareRecords(a: KeyValue, b: KeyValue) {
    KeyValueLess(a, b)
  }

  /** KeyCompare(KeyValue, key vector). */
  predicate CompareRecordKey(a: KeyValue, b: Key) {
    LexLess(a.key, b)
  }

  /** KeyCompare(key vector, KeyValue). */
  predicate CompareKeyRecord(a: Key, b: KeyValue) {
    LexLess(a, b.key)
  }

  /** The heterogeneous comparators agree with operator< once the raw key is wrapped in any record. */
  lemma ComparatorsAgree(a: KeyValue, b: KeyValue, value: Value)
    ensures CompareRecords(a, b) == KeyValueLess(a, b)
    ensures CompareRecordKey(a, b.key) == KeyValueLess(a, KeyValue(b.key, value))
    ensures CompareKeyRecord(a.key, b) == KeyValueLess(KeyValue(a.key, value), b)
  {
  }

  /**
   * Two records are equivalent under the order (neither is less) exactly
   * when their keys are equal, whatever their values: the map holds at
   * most one record per key.
   */
  lemma EquivalentIffSameKey(a: KeyValue, b: KeyValue)
    ensures !KeyValueLess(a, b) && !KeyValueLess(b, a) <==> a.key == b.key
  {
    LexTotal(a.key, b.key);
    LexIrreflexive(a.key);
  }

  /** operator< is a strict weak order: irreflexive, transitive, and equivalence is transitive. */
  lemma StrictWeakOrder(a: KeyValue, b: KeyValue, c: KeyValue)
    ensures !KeyValueLess(a, a)
    ensures KeyValueLess(a, b) && KeyValueLess(b, c) ==> KeyValueLess(a, c)
    ensures (!KeyValueLess(a, b) && !KeyValueLess(b, a) && !KeyValueLess(b, c) && !KeyValueLess(c, b))
            ==> !KeyValueLess(a, c) && !KeyValueLess(c, a)
  {
    LexIrreflexive(a.key);
    if KeyValueLess(a, b) && KeyValueLess(b, c) {
      LexTransitive(a.key, b.key, c.key);
    }
    EquivalentIffSameKey(a, b);
    EquivalentIffSameKey(b, c);
    EquivalentIffSameKey(a, c);
  }

  /** MAX_STORE_SIZE. */
  const MAX_STORE_SIZE: nat := 1000000

  /** Inmem::Config and its defaults: WAL on, bulk insert off. */
  datatype Config = Config(enableWal: bool, useBulkInsert: bool)

  const DEFAULT_CONFIG: Config := Config(true, false)

  /** The OP_RESULT values the store returns. */
  datatype OpResult = Ok | NotFound | Duplicate | Other

  // ---------------------------------------------------------------------------
  // The ordered map as its in-order sequence of records

  /** Keys strictly ascending: the iteration order of a std::map with this comparator. */
  predicate StrictlySorted(s: seq<KeyValue>) {
    forall i, j :: 0 <= i < j < |s| ==> LexLess(s[i].key, s[j].key)
  }

  /** The keys present. */
  function KeySet(s: seq<KeyValue>): set<Key> {
    set kv | kv in s :: kv.key
  }

  lemma SortedDistinctKeys(s: seq<KeyValue>, i: nat, j: nat)
    requires StrictlySorted(s) && i < |s| && j < |s| && s[i].key == s[j].key
    ensures i == j
  {
    if i < j { LexIrreflexive(s[i].key); }
    if j < i { LexIrreflexive(s[j].key); }
  }

  /** lower_bound: the first position whose key is not below k. */
  function LowerBound(s: seq<KeyValue>, k: Key): (i: nat)
    requires StrictlySorted(s)
    ensures i <= |s|
    ensures forall j :: 0 <= j < i ==> LexLess(s[j].key, k)
    ensures forall j :: i <= j < |s| ==> !LexLess(s[j].key, k)
  {
    if s == [] || !LexLess(s[0].key, k) then
      assert forall j :: 0 <= j < |s| ==> !LexLess(s[j].key, k) by {
        forall j | 0 < j < |s| ensures !LexLess(s[j].key, k) {
          if LexLess(s[j].key, k) { LexTransitive(s[0].key, s[j].key, k); }
        }
      }
      0
    else
      var r := 1 + LowerBound(s[1..], k);
      assert forall j :: 1 <= j < |s| ==> s[j] == s[1..][j - 1];
      r
  }

  /** find: the position of k's record, when it has one. */
  function Find(s: seq<KeyValue>, k: Key): (r: Option<nat>)
    requires StrictlySorted(s)
    ensures r.Some? <==> k in KeySet(s)
    ensures r.Some? ==> r.value < |s| && s[r.value].key == k
  {
    var i := LowerBound(s, k);
    if i < |s| && s[i].key == k then Some(i)
    else
      assert k !in KeySet(s) by {
        if k in KeySet(s) {
          var kv :| kv in s && kv.key == k;
          var j :| 0 <= j < |s| && s[j] == kv;
          LexIrreflexive(k);
        }
      }
      None
  }

  /** A record of a sorted sequence is not repeated before or after its position. */
  lemma SortedSplit(s: seq<KeyValue>, i: nat)
    requires StrictlySorted(s) && i < |s|
    ensures s == s[..i] + [s[i]] + s[i + 1..]
    ensures forall x :: x in s[..i] ==> LexLess(x.key, s[i].key)
    ensures forall x :: x in s[i + 1..] ==> LexLess(s[i].key, x.key)
    ensures forall x :: x in s && x.key == s[i].key ==> x == s[i]
  {
    forall x | x in s[..i] ensures LexLess(x.key, s[i].key) {
      var j :| 0 <= j < i && s[..i][j] == x;
    }
    forall x | x in s[i + 1..] ensures LexLess(s[i].key, x.key) {
      var j :| 0 <= j < |s| - i - 1 && s[i + 1..][j] == x;
      assert x == s[i + 1 + j];
    }
    forall x | x in s && x.key == s[i].key ensures x == s[i] {
      var j :| 0 <= j < |s| && s[j] == x;
      SortedDistinctKeys(s, i, j);
    }
  }

  /** Dropping the record at a position keeps the order and removes exactly that record. */
  lemma EraseAt(s: seq<KeyValue>, i: nat)
    requires StrictlySorted(s) && i < |s|
    ensures StrictlySorted(s[..i] + s[i + 1..])
    ensures forall x :: x in s[..i] + s[i + 1..] <==> x in s && x.key != s[i].key
  {
    SortedSplit(s, i);
    var r := s[..i] + s[i + 1..];
    assert forall j :: 0 <= j < |r| ==> r[j] == (if j < i then s[j] else s[j + 1]);
    LexIrreflexive(s[i].key);
    forall x | x in r ensures x.key != s[i].key {
      if x in s[..i] {
        assert LexLess(x.key, s[i].key);
      } else {
        assert LexLess(s[i].key, x.key);
      }
    }
  }

  /** erase by key: drops k's record if there is one. */
  function EraseKey(s: seq<KeyValue>, k: Key): (r: seq<KeyValue>)
    requires StrictlySorted(s)
    ensures StrictlySorted(r)
    ensures forall x :: x in r <==> x in s && x.key != k
    ensures |r| == if k in KeySet(s) then |s| - 1 else |s|
  {
    var found := Find(s, k);
    if found.None? then s
    else
      EraseAt(s, found.value);
      s[..found.value] + s[found.value + 1..]
  }

  /** insert of a record whose key is absent: placed at its lower bound. */
  function InsertNew(s: seq<KeyValue>, kv: KeyValue): (r: seq<KeyValue>)
    requires StrictlySorted(s) && kv.key !in KeySet(s)
    ensures StrictlySorted(r)
    ensures forall x :: x in r <==> x in s || x == kv
    ensures |r| == |s| + 1
  {
    var i := LowerBound(s, kv.key);
    InsertAtLowerBound(s, kv, i);
    assert s == s[..i] + s[i..];
    s[..i] + [kv] + s[i..]
  }

  /** A record whose key is absent, placed at its lower bound, keeps the keys strictly ascending. */
  lemma InsertAtLowerBound(s: seq<KeyValue>, kv: KeyValue, i: nat)
    requires StrictlySorted(s) && kv.key !in KeySet(s) && i == LowerBound(s, kv.key)
    ensures StrictlySorted(s[..i] + [kv] + s[i..])
  {
    var r := s[..i] + [kv] + s[i..];
    assert forall j :: 0 <= j < i ==> r[j] == s[j];
    assert r[i] == kv;
    assert forall j :: i < j < |r| ==> r[j] == s[j - 1];
    forall a, b | 0 <= a < b < |r| ensures LexLess(r[a].key, r[b].key) {
      if a == i {
        assert s[b - 1] in s;
        LexNotLess(s[b - 1].key, kv.key);
      } else if b == i {
        assert LexLess(s[a].key, kv.key);
      } else {
        var a', b' := if a < i then a else a - 1, if b < i then b else b - 1;
        assert r[a] == s[a'] && r[b] == s[b'] && a' < b';
      }
    }
  }

  /** The value stored under a present key. */
  function ValueOf(s: seq<KeyValue>, k: Key): (v: Value)
    requires StrictlySorted(s) && k in KeySet(s)
    ensures KeyValue(k, v) in s
    ensures forall x :: x in s && x.key == k ==> x.value == v
  {
    var i := Find(s, k).value;
    SortedSplit(s, i);
    s[i].value
  }

  /** Erasing a key removes exactly that key from the key set. */
  lemma KeysAfterErase(s: seq<KeyValue>, k: Key)
    requires StrictlySorted(s)
    ensures KeySet(EraseKey(s, k)) == KeySet(s) - {k}
  {
    var r := EraseKey(s, k);
    forall x | x in KeySet(s) - {k} ensures x in KeySet(r) {
      var kv :| kv in s && kv.key == x;
      assert kv in r;
    }
  }

  /** Inserting a record adds exactly its key to the key set. */
  lemma KeysAfterInsert(s: seq<KeyValue>, kv: KeyValue)
    requires StrictlySorted(s) && kv.key !in KeySet(s)
    ensures KeySet(InsertNew(s, kv)) == KeySet(s) + {kv.key}
  {
    var r := InsertNew(s, kv);
    assert kv in r;
    forall x | x in KeySet(s) ensures x in KeySet(r) {
      var y :| y in s && y.key == x;
      assert y in r;
    }
  }
}
