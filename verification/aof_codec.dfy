/**
 * The payload codecs of the append-only file (backend/leanstore/storage/inmem/aof.hpp):
 * a (key, value) pair with two-byte native length prefixes, and a one-byte
 * record-type tag in front of a payload. Also the log entry record.
 */
module AofCodec {
  import opened Bytes
  import opened Wrappers

  /**
   * WALRecordType. The decoder static_casts an arbitrary byte to the enum,
   * so the model keeps the integer tag and names the three defined values.
   */
  type RecordType = u8

  const INSERT: RecordType := 1
  const UPDATE: RecordType := 2
  const REMOVE: RecordType := 3

  /** WALEntry: one logged command. */
  datatype WalEntry = WalEntry(
    version: u8,
    sequenceNo: u64,
    namespaceId: u64,
    data: seq<u8>,
    crc32: u32,
    timestamp: u64)

  /** The tuple deserialize_from_wal returns. */
  datatype WalPayload = WalPayload(key: seq<u8>, keyLength: u16, value: seq<u8>, valueLength: u16)

  /** The decoder's error: std::invalid_argument("WAL data is empty."). */
  datatype CodecError = EmptyInput

  /**
   * serialize_for_wal: key length, the first keyLength bytes at key, value
   * length, the first valueLength bytes at value. The pointers must cover
   * the lengths passed with them.
   */
  function SerializeForWal(key: seq<u8>, keyLength: u16, value: seq<u8>, valueLength: u16): (r: seq<u8>)
    requires keyLength <= |key| && valueLength <= |value|
    ensures |r| == 2 + keyLength + 2 + valueLength
    ensures U16At(r, 0) == keyLength && U16At(r, 2 + keyLength) == valueLength
  {
    var r := U16Bytes(keyLength) + key[..keyLength] + U16Bytes(valueLength) + value[..valueLength];
    U16RoundTrip(keyLength, [], key[..keyLength] + U16Bytes(valueLength) + value[..valueLength]);
    assert r == [] + U16Bytes(keyLength) + (key[..keyLength] + U16Bytes(valueLength) + value[..valueLength]);
    U16RoundTrip(valueLength, U16Bytes(keyLength) + key[..keyLength], value[..valueLength]);
    r
  }

  /**
   * What deserialize_from_wal needs of its input: it checks no bounds, so
   * both length prefixes and the bytes they announce must lie inside it.
   */
  predicate WalFramed(d: seq<u8>) {
    && 2 <= |d|
    && 2 + U16At(d, 0) + 2 <= |d|
    && 2 + U16At(d, 0) + 2 + U16At(d, 2 + U16At(d, 0)) <= |d|
  }

  /** deserialize_from_wal: reads the two length-prefixed fields from the front of d. */
  function DeserializeFromWal(d: seq<u8>): (p: WalPayload)
    requires WalFramed(d)
    ensures |p.key| == p.keyLength && |p.value| == p.valueLength
    ensures p.keyLength == U16At(d, 0) && p.key == d[2..2 + p.keyLength]
    ensures p.valueLength == U16At(d, 2 + p.keyLength)
    ensures p.value == d[2 + p.keyLength + 2..2 + p.keyLength + 2 + p.valueLength]
  {
    var keyLength := U16At(d, 0);
    var valueLength := U16At(d, 2 + keyLength);
    WalPayload(d[2..2 + keyLength], keyLength, d[4 + keyLength..4 + keyLength + valueLength], valueLength)
  }

  /** Number of bytes of d that deserialize_from_wal consumes. */
  function WalLength(d: seq<u8>): (n: nat)
    requires WalFramed(d)
    ensures n <= |d|
  {
    4 + U16At(d, 0) + U16At(d, 2 + U16At(d, 0))
  }

  /** Decoding an encoded pair returns the key and value bytes and their lengths. */
  lemma WalRoundTrip(key: seq<u8>, keyLength: u16, value: seq<u8>, valueLength: u16)
    requires keyLength <= |key| && valueLength <= |value|
    ensures WalFramed(SerializeForWal(key, keyLength, value, valueLength))
    ensures DeserializeFromWal(SerializeForWal(key, keyLength, value, valueLength))
            == WalPayload(key[..keyLength], keyLength, value[..valueLength], valueLength)
  {
    var r := SerializeForWal(key, keyLength, value, valueLength);
    assert r == U16Bytes(keyLength) + key[..keyLength] + U16Bytes(valueLength) + value[..valueLength];
    assert r[2..2 + keyLength] == key[..keyLength];
    assert r[4 + keyLength..4 + keyLength + valueLength] == value[..valueLength];
  }

  /** Encoding a decoded payload rebuilds exactly the bytes the decoder consumed. */
  lemma WalReencode(d: seq<u8>)
    requires WalFramed(d)
    ensures var p := DeserializeFromWal(d);
            SerializeForWal(p.key, p.keyLength, p.value, p.valueLength) == d[..WalLength(d)]
  {
    var p := DeserializeFromWal(d);
    var n := WalLength(d);
    U16Reencode(d, 0);
    U16Reencode(d, 2 + p.keyLength);
    assert p.key[..p.keyLength] == p.key && p.value[..p.valueLength] == p.value;
    assert d[..n] == d[0..2] + d[2..2 + p.keyLength] + d[2 + p.keyLength..4 + p.keyLength] + d[4 + p.keyLength..n];
  }

  /** serialize_for_log: the record type as one byte in front of the data. */
  function SerializeForLog(recordType: RecordType, data: seq<u8>): (r: seq<u8>)
    ensures |r| == |data| + 1
    ensures r[0] == recordType
  {
    [recordType] + data
  }

  /** deserialize_from_log: fails on empty input, else splits off the first byte as the type. */
  function DeserializeFromLog(d: seq<u8>): (r: Result<(RecordType, seq<u8>), CodecError>)
    ensures r.Failure? <==> |d| == 0
    ensures r.Success? ==> |r.value.1| == |d| - 1
  {
    if |d| == 0 then Failure(EmptyInput) else Success((d[0], d[1..]))
  }

  lemma LogRoundTrip(recordType: RecordType, data: seq<u8>)
    ensures DeserializeFromLog(SerializeForLog(recordType, data)) == Success((recordType, data))
  {
    assert ([recordType] + data)[1..] == data;
  }

  lemma LogReencode(d: seq<u8>)
    requires |d| > 0
    ensures DeserializeFromLog(d).Success?
    ensures SerializeForLog(DeserializeFromLog(d).value.0, DeserializeFromLog(d).value.1) == d
  {
    assert d == [d[0]] + d[1..];
  }

  /** Both layers together: a tagged key/value record decodes to its type, key and value. */
  lemma TaggedRoundTrip(recordType: RecordType, key: seq<u8>, keyLength: u16, value: seq<u8>, valueLength: u16)
    requires keyLength <= |key| && valueLength <= |value|
    ensures var r := DeserializeFromLog(SerializeForLog(recordType, SerializeForWal(key, keyLength, value, valueLength)));
            && r.Success? && r.value.0 == recordType
            && WalFramed(r.value.1)
            && DeserializeFromWal(r.value.1) == WalPayload(key[..keyLength], keyLength, value[..valueLength], valueLength)
  {
    LogRoundTrip(recordType, SerializeForWal(key, keyLength, value, valueLength));
    WalRoundTrip(key, keyLength, value, valueLength);
  }
}
