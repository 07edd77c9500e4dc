/**
 * The pure part of the namespaced append-only file
 * (backend/leanstore/storage/inmem/aof.cpp): the frame reader and validator
 * used by recovery, the payload parser that feeds the replay callback,
 * segment discovery, and the recovery scan as a function of the frames read.
 */
module AofFrames {
  import opened Bytes
  import opened Wrappers
  import opened Lexicographic
  import opened AofCodec

  /** zlib's crc32 over a payload, left uninterpreted. */
  type Crc32Fn = seq<u8> -> u32

  /** The only entry version LogCommand writes and ValidateWALEntry accepts. */
  const WAL_VERSION: u8 := 1

  /**
   * sizeof(WALEntry) of the namespaced revision on x86-64 with libstdc++:
   * u8, two u64, a 24-byte std::vector, u32 and u64, with padding.
   */
  const WAL_ENTRY_STRUCT_SIZE: nat := 64

  /** GetEntrySize: the in-memory struct size plus the payload size. */
  function GetEntrySize(data: seq<u8>): (n: nat)
    ensures n > |data| && n - |data| == WAL_ENTRY_STRUCT_SIZE
  {
    WAL_ENTRY_STRUCT_SIZE + |data|
  }

  // ---------------------------------------------------------------------------
  // Frames as ReadWALEntry reads them

  /** version(1) sequence(8) namespace(8) crc(4) timestamp(8) dataSize(4). */
  const FRAME_HEADER_SIZE: nat := 33

  datatype FrameRead = Frame(entry: WalEntry, next: nat) | ShortRead

  /** The payload size a frame at pos announces, when its header is complete. */
  function AnnouncedSize(file: seq<u8>, pos: nat): u32
    requires pos + FRAME_HEADER_SIZE <= |file|
  {
    U32At(file, pos + 29)
  }

  /**
   * ReadWALEntry: the six header fields in order, then dataSize payload
   * bytes; any read that runs past the end of the file fails.
   */
  function ReadWalEntry(file: seq<u8>, pos: nat): (r: FrameRead)
    ensures r.Frame? <==> pos + FRAME_HEADER_SIZE <= |file|
                          && pos + FRAME_HEADER_SIZE + AnnouncedSize(file, pos) <= |file|
    ensures r.Frame? ==> && r.next == pos + FRAME_HEADER_SIZE + |r.entry.data| <= |file|
                         && r.entry.version == file[pos]
                         && r.entry.sequenceNo == LittleEndian(file[pos + 1..pos + 9])
                         && r.entry.namespaceId == LittleEndian(file[pos + 9..pos + 17])
                         && r.entry.crc32 == LittleEndian(file[pos + 17..pos + 21])
                         && r.entry.timestamp == LittleEndian(file[pos + 21..pos + 29])
                         && r.entry.data == file[pos + FRAME_HEADER_SIZE..r.next]
  {
    if pos + FRAME_HEADER_SIZE > |file| then ShortRead
    else
      var size := AnnouncedSize(file, pos);
      if pos + FRAME_HEADER_SIZE + size > |file| then ShortRead
      else
        var entry := WalEntry(file[pos], U64At(file, pos + 1), U64At(file, pos + 9),
                              file[pos + FRAME_HEADER_SIZE..pos + FRAME_HEADER_SIZE + size],
                              U32At(file, pos + 17), U64At(file, pos + 21));
        Frame(entry, pos + FRAME_HEADER_SIZE + size)
  }

  /** The frames a recovery loop reads from pos on: up to the first short read. */
  function FramesFrom(file: seq<u8>, pos: nat): seq<WalEntry>
    decreases |file| - pos
  {
    match ReadWalEntry(file, pos)
    case ShortRead => []
    case Frame(e, next) => [e] + FramesFrom(file, next)
  }

  /** An entry whose payload size fits the frame header's 32-bit size field. */
  predicate Encodable(e: WalEntry) {
    |e.data| < 0x1_0000_0000
  }

  /**
   * The frame layout ReadWalEntry expects, as a reference encoder (the
   * writer's own byte image is the raw C++ struct and is not modelled).
   */
  function EncodeFrame(e: WalEntry): (b: seq<u8>)
    requires Encodable(e)
    ensures |b| == FRAME_HEADER_SIZE + |e.data|
  {
    Pow256Widths();
    [e.version] + ToLittleEndian(e.sequenceNo, 8) + ToLittleEndian(e.namespaceId, 8)
    + ToLittleEndian(e.crc32, 4) + ToLittleEndian(e.timestamp, 8)
    + ToLittleEndian(|e.data|, 4) + e.data
  }

  function EncodeFrames(es: seq<WalEntry>): (b: seq<u8>)
    requires forall e :: e in es ==> Encodable(e)
  {
    if es == [] then [] else EncodeFrame(es[0]) + EncodeFrames(es[1..])
  }

  /** The fields of an encoded frame sit where ReadWalEntry reads them. */
  lemma FrameLayout(e: WalEntry)
    requires Encodable(e)
    ensures var b := EncodeFrame(e);
            && b[0] == e.version
            && LittleEndian(b[1..9]) == e.sequenceNo
            && LittleEndian(b[9..17]) == e.namespaceId
            && LittleEndian(b[17..21]) == e.crc32
            && LittleEndian(b[21..29]) == e.timestamp
            && LittleEndian(b[29..33]) == |e.data|
            && b[33..] == e.data
  {
    Pow256Widths();
    var b := EncodeFrame(e);
    assert b[1..9] == ToLittleEndian(e.sequenceNo, 8);
    assert b[9..17] == ToLittleEndian(e.namespaceId, 8);
    assert b[17..21] == ToLittleEndian(e.crc32, 4);
    assert b[21..29] == ToLittleEndian(e.timestamp, 8);
    assert b[29..33] == ToLittleEndian(|e.data|, 4);
    LittleEndianRoundTrip(e.sequenceNo, 8);
    LittleEndianRoundTrip(e.namespaceId, 8);
    LittleEndianRoundTrip(e.crc32, 4);
    LittleEndianRoundTrip(e.timestamp, 8);
    LittleEndianRoundTrip(|e.data|, 4);
  }

  /** A slice of a block embedded in a file is the same slice of the block. */
  lemma MiddleSlice(pre: seq<u8>, b: seq<u8>, post: seq<u8>, i: nat, j: nat)
    requires i <= j <= |b|
    ensures (pre + b + post)[|pre| + i..|pre| + j] == b[i..j]
  {
    var file := pre + b + post;
    assert forall k :: |pre| + i <= k < |pre| + j ==> file[k] == b[k - |pre|];
  }

  /** The reader reads back an encoded frame wherever it sits in a file. */
  lemma FrameRoundTrip(pre: seq<u8>, e: WalEntry, post: seq<u8>)
    requires Encodable(e)
    ensures ReadWalEntry(pre + EncodeFrame(e) + post, |pre|) == Frame(e, |pre| + |EncodeFrame(e)|)
  {
    var b := EncodeFrame(e);
    var file := pre + b + post;
    var p := |pre|;
    FrameLayout(e);
    MiddleSlice(pre, b, post, 0, 1);
    MiddleSlice(pre, b, post, 1, 9);
    MiddleSlice(pre, b, post, 9, 17);
    MiddleSlice(pre, b, post, 17, 21);
    MiddleSlice(pre, b, post, 21, 29);
    MiddleSlice(pre, b, post, 29, 33);
    MiddleSlice(pre, b, post, 33, |b|);
    assert file[p] == b[0] by { assert file[p..p + 1][0] == file[p]; }
  }

  /** A segment written frame by frame is read back frame by frame, in order. */
  lemma {:induction false} FramesOfEncoded(pre: seq<u8>, es: seq<WalEntry>)
    requires forall e :: e in es ==> Encodable(e)
    ensures FramesFrom(pre + EncodeFrames(es), |pre|) == es
    decreases |es|
  {
    if es == [] {
      assert pre + EncodeFrames(es) == pre;
    } else {
      var first := EncodeFrame(es[0]);
      var rest := EncodeFrames(es[1..]);
      assert pre + EncodeFrames(es) == pre + first + rest;
      FrameRoundTrip(pre, es[0], rest);
      assert pre + first + rest == (pre + first) + rest;
      FramesOfEncoded(pre + first, es[1..]);
      assert es == [es[0]] + es[1..];
    }
  }

  /** A frame cut short at the end of a segment is dropped, and nothing after the cut is read. */
  lemma TornFrameDropped(e: WalEntry, cut: nat)
    requires Encodable(e) && cut < |EncodeFrame(e)|
    ensures FramesFrom(EncodeFrame(e)[..cut], 0) == []
  {
    var torn := EncodeFrame(e)[..cut];
    if FRAME_HEADER_SIZE <= cut {
      Pow256Widths();
      assert torn[29..33] == EncodeFrame(e)[29..33] == ToLittleEndian(|e.data|, 4);
      LittleEndianRoundTrip(|e.data|, 4);
    }
  }

  // ---------------------------------------------------------------------------
  // Validation and parsing

  /** ValidateWALEntry: the stored CRC matches the payload and the version is 1. */
  predicate ValidateWalEntry(crc: Crc32Fn, e: WalEntry) {
    crc(e.data) == e.crc32 && e.version == WAL_VERSION
  }

  /** A frame with a corrupted payload is rejected. */
  lemma CorruptedPayloadRejected(crc: Crc32Fn, e: WalEntry, corrupted: seq<u8>)
    requires ValidateWalEntry(crc, e)
    requires crc(corrupted) != crc(e.data)
    ensures !ValidateWalEntry(crc, e.(data := corrupted))
  {
  }

  /** The arguments of one replay callback invocation. */
  datatype ReplayCall = ReplayCall(
    namespaceId: u64,
    recordType: RecordType,
    key: seq<u8>,
    keyLength: u16,
    value: seq<u8>,
    valueLength: u16)

  /** DetermineRecordType: the record type is the payload's first byte. */
  function DetermineRecordType(data: seq<u8>): (t: RecordType)
    requires |data| > 0
    ensures t == data[0]
  {
    data[0]
  }

  /**
   * ParseAndReplayEntry: the callback's arguments for an entry. The source
   * reads the type from byte 0 and, independently, a key length from bytes
   * 0-1, the key from byte 2 and a value length right after the key, all
   * without bounds checks; None stands for a payload too short for those
   * reads, where the source reads out of bounds.
   */
  function ParseAndReplayEntry(e: WalEntry): (r: Option<ReplayCall>)
    ensures r.Some? <==> WalFramed(e.data)
    ensures r.Some? ==> var p := DeserializeFromWal(e.data);
                        r.value == ReplayCall(e.namespaceId, DetermineRecordType(e.data),
                                              p.key, p.keyLength, p.value, p.valueLength)
  {
    if !WalFramed(e.data) then None
    else
      var p := DeserializeFromWal(e.data);
      Some(ReplayCall(e.namespaceId, DetermineRecordType(e.data), p.key, p.keyLength, p.value, p.valueLength))
  }

  /**
   * On an untagged serialize_for_wal payload the parser returns key and
   * value intact, and the "type" it reports is the low byte of the key length.
   */
  lemma ParseUntaggedPayload(e: WalEntry, key: seq<u8>, keyLength: u16, value: seq<u8>, valueLength: u16)
    requires keyLength <= |key| && valueLength <= |value|
    requires e.data == SerializeForWal(key, keyLength, value, valueLength)
    ensures ParseAndReplayEntry(e)
            == Some(ReplayCall(e.namespaceId, keyLength % 256, key[..keyLength], keyLength, value[..valueLength], valueLength))
  {
    WalRoundTrip(key, keyLength, value, valueLength);
    assert e.data[0] == U16Bytes(keyLength)[0];
  }

  /**
   * On a payload tagged with serialize_for_log the parser reports the right
   * type, but reads the key length from the tag and the low length byte, so
   * the key length it reports is not the one that was written.
   */
  lemma ParseMisreadsTaggedPayload(e: WalEntry, t: RecordType, key: seq<u8>, keyLength: u16, value: seq<u8>, valueLength: u16)
    requires keyLength <= |key| && valueLength <= |value|
    requires e.data == SerializeForLog(t, SerializeForWal(key, keyLength, value, valueLength))
    requires ParseAndReplayEntry(e).Some?
    ensures ParseAndReplayEntry(e).value.recordType == t
    ensures ParseAndReplayEntry(e).value.keyLength == t + 256 * (keyLength % 256)
  {
    var w := SerializeForWal(key, keyLength, value, valueLength);
    assert w[0] == keyLength % 256 by {
      Pow256Widths();
      assert w[0] == U16Bytes(keyLength)[0] == ToLittleEndian(keyLength, 2)[0];
    }
    assert e.data[0..2] == [t, w[0]];
    assert LittleEndian([t, w[0]]) == t + 256 * LittleEndian([w[0]]) by {
      assert [t, w[0]][1..] == [w[0]];
    }
    assert LittleEndian([w[0]]) == w[0] by {
      assert [w[0]][1..] == [];
    }
  }

  /** Concretely: INSERT "a" -> "b", tagged, makes the parser announce a 257-byte key in a 7-byte payload. */
  lemma TaggedInsertUnparseable(e: WalEntry)
    requires e.data == SerializeForLog(INSERT, SerializeForWal([97], 1, [98], 1))
    ensures |e.data| == 7 && U16At(e.data, 0) == 257
    ensures ParseAndReplayEntry(e) == None
  {
    Pow256Widths();
    assert U16Bytes(1) == [1, 0];
    assert e.data == [1, 1, 0, 97, 1, 0, 98];
    assert e.data[0..2] == [1, 1];
    assert LittleEndian([1, 1]) == 257;
  }

  // ---------------------------------------------------------------------------
  // Segment discovery

  /** Segment file names are byte strings, as file names are on POSIX. */
  type FileName = seq<u8>

  /** SEGMENT_PREFIX, "segment_". */
  const SEGMENT_PREFIX: FileName := [0x73, 0x65, 0x67, 0x6D, 0x65, 0x6E, 0x74, 0x5F]

  /** filename.find(SEGMENT_PREFIX) == 0. */
  predicate IsSegmentName(name: FileName) {
    |name| >= |SEGMENT_PREFIX| && name[..|SEGMENT_PREFIX|] == SEGMENT_PREFIX
  }

  function FilterSegments(listing: seq<FileName>): (r: seq<FileName>)
    ensures forall n :: n in r <==> n in listing && IsSegmentName(n)
    ensures multiset(r) <= multiset(listing)
  {
    if listing == [] then []
    else
      assert listing == [listing[0]] + listing[1..];
      (if IsSegmentName(listing[0]) then [listing[0]] else []) + FilterSegments(listing[1..])
  }

  /**
   * GetSegmentFiles: the directory entries whose names start with the
   * prefix, sorted lexicographically by name.
   */
  function GetSegmentFiles(listing: seq<FileName>): (r: seq<FileName>)
    ensures SortedAsc(r)
    ensures multiset(r) == multiset(FilterSegments(listing))
    ensures forall n :: n in r <==> n in listing && IsSegmentName(n)
  {
    var r := SortAsc(FilterSegments(listing));
    assert forall n :: n in r <==> n in multiset(r);
    r
  }

  /** std::to_string of a segment index: its decimal digits. */
  function Decimal(n: nat): (r: seq<u8>)
    ensures |r| >= 1
  {
    if n < 10 then [0x30 + n] else Decimal(n / 10) + [0x30 + n % 10]
  }

  /** The file RotateLog opens for a segment index. */
  function SegmentFileName(index: nat): (r: FileName)
    ensures IsSegmentName(r)
  {
    SEGMENT_PREFIX + Decimal(index)
  }

  /** Within the first ten segments, name order is index order. */
  lemma SingleDigitOrder(i: nat, j: nat)
    requires i < j < 10
    ensures LexLess(SegmentFileName(i), SegmentFileName(j))
  {
    var a, b := SegmentFileName(i), SegmentFileName(j);
    assert a == SEGMENT_PREFIX + [0x30 + i] && b == SEGMENT_PREFIX + [0x30 + j];
    var k := |SEGMENT_PREFIX|;
    LexSharedPrefix(SEGMENT_PREFIX, [0x30 + i], [0x30 + j]);
  }

  /** From index 10 on, name order is not index order: segment 10 is replayed before segment 2. */
  lemma SegmentTenSortsBeforeTwo()
    ensures LexLess(SegmentFileName(10), SegmentFileName(2))
    ensures GetSegmentFiles([SegmentFileName(2), SegmentFileName(10)])
            == [SegmentFileName(10), SegmentFileName(2)]
  {
    var two, ten := SegmentFileName(2), SegmentFileName(10);
    assert Decimal(10) == [0x31, 0x30];
    assert two == SEGMENT_PREFIX + [0x32];
    assert ten == SEGMENT_PREFIX + [0x31, 0x30];
    LexSharedPrefix(SEGMENT_PREFIX, [0x31, 0x30], [0x32]);
    FilterTwoSegments(two, ten);
    SortTwoOutOfOrder(two, ten);
  }

  lemma FilterTwoSegments(a: FileName, b: FileName)
    requires IsSegmentName(a) && IsSegmentName(b)
    ensures FilterSegments([a, b]) == [a, b]
  {
    assert FilterSegments([b]) == [b] by {
      assert [b][1..] == [];
      assert FilterSegments([b]) == [b] + FilterSegments([]);
    }
    assert [a, b][1..] == [b];
    assert FilterSegments([a, b]) == [a] + FilterSegments([b]);
  }

  /** Sorting two names that are out of order swaps them. */
  lemma SortTwoOutOfOrder(a: FileName, b: FileName)
    requires LexLess(b, a)
    ensures SortAsc([a, b]) == [b, a]
  {
    assert [a, b][1..] == [b];
    assert [b][1..] == [];
    assert SortAsc([b]) == [b];
    LexAsymmetric(b, a);
    assert a != b by { LexIrreflexive(a); }
    assert !LexLeq(a, b);
    assert InsertSorted(a, []) == [a];
  }

  lemma {:induction false} LexSharedPrefix(p: seq<u8>, a: seq<u8>, b: seq<u8>)
    ensures LexLess(p + a, p + b) == LexLess(a, b)
  {
    if p == [] {
      assert p + a == a && p + b == b;
    } else {
      assert (p + a)[0] == p[0] == (p + b)[0];
      assert (p + a)[1..] == p[1..] + a && (p + b)[1..] == p[1..] + b;
      LexSharedPrefix(p[1..], a, b);
    }
  }

  /** The concatenated frames of the named segments, in the given order. */
  function SegmentFrames(disk: map<FileName, seq<u8>>, names: seq<FileName>): seq<WalEntry>
    requires forall n :: n in names ==> n in disk
  {
    if names == [] then []
    else SegmentFrames(disk, names[..|names| - 1]) + FramesFrom(disk[names[|names| - 1]], 0)
  }

  lemma SegmentFramesSnoc(disk: map<FileName, seq<u8>>, names: seq<FileName>, i: nat)
    requires i < |names| && forall j :: 0 <= j <= i ==> names[j] in disk
    ensures forall n :: n in names[..i + 1] ==> n in disk
    ensures SegmentFrames(disk, names[..i + 1]) == SegmentFrames(disk, names[..i]) + FramesFrom(disk[names[i]], 0)
  {
    assert names[..i + 1][..i] == names[..i];
  }

  /** The number of leading segments that can be opened before the first that cannot. */
  function OpenablePrefix(disk: map<FileName, seq<u8>>, names: seq<FileName>): (k: nat)
    ensures k <= |names|
    ensures forall i :: 0 <= i < k ==> names[i] in disk
    ensures k < |names| ==> names[k] !in disk
  {
    if names == [] || names[0] !in disk then 0
    else 1 + OpenablePrefix(disk, names[1..])
  }

  // ---------------------------------------------------------------------------
  // The recovery scan as a function of the frames read

  /**
   * A frame a replay can parse when it hands it to the callback: the source
   * parses the selected frames without bounds checks, so those must be well
   * framed; frames the replay skips may hold anything.
   */
  predicate Replayable(crc: Crc32Fn, e: WalEntry, namespace: Option<u64>) {
    Selected(crc, e, namespace) ==> WalFramed(e.data)
  }

  predicate AllReplayable(crc: Crc32Fn, frames: seq<WalEntry>, namespace: Option<u64>) {
    forall e :: e in frames ==> Replayable(crc, e, namespace)
  }

  /** Whether a scan of the directory opens every segment file it lists. */
  predicate ScanOpensAll(disk: map<FileName, seq<u8>>, listing: seq<FileName>) {
    var names := GetSegmentFiles(listing);
    OpenablePrefix(disk, names) == |names|
  }

  /**
   * The frames a recovery scan reads: those of the segment files in name
   * order, up to the first file that cannot be opened.
   */
  function ScannedFrames(disk: map<FileName, seq<u8>>, listing: seq<FileName>): seq<WalEntry> {
    var names := GetSegmentFiles(listing);
    var k := OpenablePrefix(disk, names);
    assert forall n :: n in names[..k] ==> n in names;
    SegmentFrames(disk, names[..k])
  }

  /**
   * The frames of a segment file that the scan opens, with every file
   * before it opened too, are among the frames the scan reads.
   */
  lemma ScannedFileFrames(disk: map<FileName, seq<u8>>, listing: seq<FileName>, i: nat)
    requires i < |GetSegmentFiles(listing)|
    requires forall j :: 0 <= j <= i ==> GetSegmentFiles(listing)[j] in disk
    ensures forall e :: e in FramesFrom(disk[GetSegmentFiles(listing)[i]], 0) ==> e in ScannedFrames(disk, listing)
  {
    var names := GetSegmentFiles(listing);
    var k := OpenablePrefix(disk, names);
    assert i < k;
    assert names[..k][i] == names[i];
    FileFramesIncluded(disk, names[..k], i);
  }

  lemma {:induction false} FileFramesIncluded(disk: map<FileName, seq<u8>>, names: seq<FileName>, i: nat)
    requires i < |names| && forall n :: n in names ==> n in disk
    ensures forall e :: e in FramesFrom(disk[names[i]], 0) ==> e in SegmentFrames(disk, names)
    decreases |names|
  {
    var init := names[..|names| - 1];
    assert forall n :: n in init ==> n in names;
    if i < |names| - 1 {
      FileFramesIncluded(disk, init, i);
      assert init[i] == names[i];
    }
  }

  /**
   * Every frame of every listed segment file on disk is replayable; files
   * whose names do not start with "segment_" are never opened by a scan and
   * may hold anything.
   */
  predicate SegmentsReplayable(crc: Crc32Fn, disk: map<FileName, seq<u8>>, listing: seq<FileName>) {
    forall n :: n in listing && IsSegmentName(n) && n in disk ==> AllReplayable(crc, FramesFrom(disk[n], 0), None)
  }

  lemma {:induction false} SegmentFramesReplayable(crc: Crc32Fn, disk: map<FileName, seq<u8>>, listing: seq<FileName>, names: seq<FileName>)
    requires forall n :: n in names ==> n in disk && n in listing && IsSegmentName(n)
    requires SegmentsReplayable(crc, disk, listing)
    ensures AllReplayable(crc, SegmentFrames(disk, names), None)
  {
    if names != [] {
      var init := names[..|names| - 1];
      SegmentFramesReplayable(crc, disk, listing, init);
      assert names[|names| - 1] in names;
    }
  }

  /** Recovery can parse what it reads when every listed segment file's valid frames are well framed. */
  lemma ScannedFramesReplayable(crc: Crc32Fn, disk: map<FileName, seq<u8>>, listing: seq<FileName>)
    requires SegmentsReplayable(crc, disk, listing)
    ensures AllReplayable(crc, ScannedFrames(disk, listing), None)
  {
    var names := GetSegmentFiles(listing);
    var k := OpenablePrefix(disk, names);
    assert forall n :: n in names[..k] ==> n in names;
    SegmentFramesReplayable(crc, disk, listing, names[..k]);
  }

  /** Which frames a replay hands to the callback: valid ones, of the namespace when one is asked for. */
  predicate Selected(crc: Crc32Fn, e: WalEntry, namespace: Option<u64>) {
    ValidateWalEntry(crc, e) && (namespace.None? || e.namespaceId == namespace.value)
  }

  /** The callback invocations of a replay over frames, in order. */
  function ReplayCalls(crc: Crc32Fn, frames: seq<WalEntry>, namespace: Option<u64>): (r: seq<ReplayCall>)
    requires AllReplayable(crc, frames, namespace)
    ensures |r| <= |frames|
  {
    if frames == [] then []
    else
      var e := frames[|frames| - 1];
      assert e in frames;
      ReplayCalls(crc, frames[..|frames| - 1], namespace)
      + (if Selected(crc, e, namespace) then [ParseAndReplayEntry(e).value] else [])
  }

  lemma ReplayCallsSnoc(crc: Crc32Fn, frames: seq<WalEntry>, e: WalEntry, namespace: Option<u64>)
    requires AllReplayable(crc, frames, namespace) && Replayable(crc, e, namespace)
    ensures AllReplayable(crc, frames + [e], namespace)
    ensures ReplayCalls(crc, frames + [e], namespace)
            == ReplayCalls(crc, frames, namespace) + (if Selected(crc, e, namespace) then [ParseAndReplayEntry(e).value] else [])
  {
    assert (frames + [e])[..|frames|] == frames;
  }

  /** StartRecovery's bookkeeping: global last sequence, per-namespace last sequence, callbacks made. */
  datatype RecoveryState = RecoveryState(
    lastSequenceNo: u64,
    namespaceLastSeqNo: map<u64, u64>,
    replayed: seq<ReplayCall>)

  function Max(a: u64, b: u64): u64 {
    if a < b then b else a
  }

  /** One iteration of StartRecovery's inner loop on a frame that was read completely. */
  function RecoverStep(crc: Crc32Fn, s: RecoveryState, e: WalEntry): RecoveryState
    requires Replayable(crc, e, None)
  {
    if !ValidateWalEntry(crc, e) then s
    else RecoveryState(Max(s.lastSequenceNo, e.sequenceNo),
                       s.namespaceLastSeqNo[e.namespaceId := e.sequenceNo],
                       s.replayed + [ParseAndReplayEntry(e).value])
  }

  /** StartRecovery's effect over the frames it reads, in scan order. */
  function Recover(crc: Crc32Fn, s: RecoveryState, frames: seq<WalEntry>): RecoveryState
    requires AllReplayable(crc, frames, None)
  {
    if frames == [] then s
    else RecoverStep(crc, Recover(crc, s, frames[..|frames| - 1]), frames[|frames| - 1])
  }

  lemma RecoverSnoc(crc: Crc32Fn, s: RecoveryState, frames: seq<WalEntry>, e: WalEntry)
    requires AllReplayable(crc, frames, None) && Replayable(crc, e, None)
    ensures AllReplayable(crc, frames + [e], None)
    ensures Recover(crc, s, frames + [e]) == RecoverStep(crc, Recover(crc, s, frames), e)
  {
    assert (frames + [e])[..|frames|] == frames;
  }

  /** Scanning two runs of frames is scanning the first, then the second from where it left off. */
  lemma {:induction false} RecoverAppend(crc: Crc32Fn, s: RecoveryState, a: seq<WalEntry>, b: seq<WalEntry>)
    requires AllReplayable(crc, a, None) && AllReplayable(crc, b, None)
    ensures AllReplayable(crc, a + b, None)
    ensures Recover(crc, s, a + b) == Recover(crc, Recover(crc, s, a), b)
    decreases |b|
  {
    if b == [] {
      assert a + b == a;
    } else {
      var b0 := b[..|b| - 1];
      RecoverAppend(crc, s, a, b0);
      assert (a + b)[..|a + b| - 1] == a + b0;
    }
  }

  /** The callbacks StartRecovery makes are exactly the unfiltered replay of the frames. */
  lemma {:induction false} RecoverReplaysValidFrames(crc: Crc32Fn, s: RecoveryState, frames: seq<WalEntry>)
    requires AllReplayable(crc, frames, None)
    ensures Recover(crc, s, frames).replayed == s.replayed + ReplayCalls(crc, frames, None)
  {
    if frames != [] {
      RecoverReplaysValidFrames(crc, s, frames[..|frames| - 1]);
    }
  }

  /** The recovered last sequence number is the maximum of the old one and every valid frame's. */
  lemma {:induction false} RecoverLastSequence(crc: Crc32Fn, s: RecoveryState, frames: seq<WalEntry>)
    requires AllReplayable(crc, frames, None)
    ensures var r := Recover(crc, s, frames);
            && r.lastSequenceNo >= s.lastSequenceNo
            && (forall i :: 0 <= i < |frames| && ValidateWalEntry(crc, frames[i]) ==> r.lastSequenceNo >= frames[i].sequenceNo)
            && (r.lastSequenceNo == s.lastSequenceNo
                || exists i :: 0 <= i < |frames| && ValidateWalEntry(crc, frames[i]) && r.lastSequenceNo == frames[i].sequenceNo)
  {
    if frames != [] {
      var init := frames[..|frames| - 1];
      RecoverLastSequence(crc, s, init);
      var r0 := Recover(crc, s, init);
      if r0.lastSequenceNo != s.lastSequenceNo {
        var i :| 0 <= i < |init| && ValidateWalEntry(crc, init[i]) && r0.lastSequenceNo == init[i].sequenceNo;
        assert frames[i] == init[i];
      }
      forall i | 0 <= i < |frames| - 1 ensures frames[i] == init[i] { }
    }
  }

  /** Index of the last valid frame of a namespace, if any. */
  function LastValidFor(crc: Crc32Fn, frames: seq<WalEntry>, ns: u64): (r: Option<nat>)
    ensures r.Some? ==> && r.value < |frames|
                        && Selected(crc, frames[r.value], Some(ns))
                        && forall j :: r.value < j < |frames| ==> !Selected(crc, frames[j], Some(ns))
    ensures r.None? ==> forall j :: 0 <= j < |frames| ==> !Selected(crc, frames[j], Some(ns))
  {
    if frames == [] then None
    else if Selected(crc, frames[|frames| - 1], Some(ns)) then Some(|frames| - 1)
    else LastValidFor(crc, frames[..|frames| - 1], ns)
  }

  /**
   * After the scan a namespace's last sequence number is that of its last
   * valid frame in scan order; namespaces without valid frames keep their entry.
   */
  lemma {:induction false} RecoverNamespaceLast(crc: Crc32Fn, s: RecoveryState, frames: seq<WalEntry>, ns: u64)
    requires AllReplayable(crc, frames, None)
    ensures var r := Recover(crc, s, frames);
            match LastValidFor(crc, frames, ns)
            case Some(i) => ns in r.namespaceLastSeqNo && r.namespaceLastSeqNo[ns] == frames[i].sequenceNo
            case None => && (ns in r.namespaceLastSeqNo <==> ns in s.namespaceLastSeqNo)
                         && (ns in s.namespaceLastSeqNo ==> r.namespaceLastSeqNo[ns] == s.namespaceLastSeqNo[ns])
  {
    if frames != [] {
      var init := frames[..|frames| - 1];
      RecoverNamespaceLast(crc, s, init, ns);
    }
  }

  /** Namespaces known after the scan: those known before plus those of valid frames. */
  lemma {:induction false} RecoverNamespaceKeys(crc: Crc32Fn, s: RecoveryState, frames: seq<WalEntry>)
    requires AllReplayable(crc, frames, None)
    ensures Recover(crc, s, frames).namespaceLastSeqNo.Keys
            == s.namespaceLastSeqNo.Keys + set e | e in frames && ValidateWalEntry(crc, e) :: e.namespaceId
  {
    if frames != [] {
      var init := frames[..|frames| - 1];
      RecoverNamespaceKeys(crc, s, init);
      assert frames == init + [frames[|frames| - 1]];
    }
  }

  /** Replay distributes over concatenation of frame sequences (and so of segments). */
  lemma {:induction false} ReplayCallsAppend(crc: Crc32Fn, a: seq<WalEntry>, b: seq<WalEntry>, namespace: Option<u64>)
    requires AllReplayable(crc, a, namespace) && AllReplayable(crc, b, namespace)
    ensures AllReplayable(crc, a + b, namespace)
    ensures ReplayCalls(crc, a + b, namespace) == ReplayCalls(crc, a, namespace) + ReplayCalls(crc, b, namespace)
    decreases |b|
  {
    if b == [] {
      assert a + b == a;
    } else {
      var b0, e := b[..|b| - 1], b[|b| - 1];
      assert e in b;
      ReplayCallsAppend(crc, a, b0, namespace);
      assert (a + b)[..|a + b| - 1] == a + b0 && (a + b)[|a + b| - 1] == e;
      var x := if Selected(crc, e, namespace) then [ParseAndReplayEntry(e).value] else [];
      var ra, rb0 := ReplayCalls(crc, a, namespace), ReplayCalls(crc, b0, namespace);
      assert ReplayCalls(crc, a + b, namespace) == (ra + rb0) + x;
      assert ReplayCalls(crc, b, namespace) == rb0 + x;
      assert (ra + rb0) + x == ra + (rb0 + x);
    }
  }

  /** A frame that fails validation is skipped, and the frames after it are still replayed. */
  lemma InvalidFrameSkipped(crc: Crc32Fn, pre: seq<WalEntry>, bad: WalEntry, post: seq<WalEntry>, namespace: Option<u64>)
    requires AllReplayable(crc, pre, namespace) && AllReplayable(crc, post, namespace)
    requires !ValidateWalEntry(crc, bad)
    ensures AllReplayable(crc, pre + [bad] + post, namespace)
    ensures ReplayCalls(crc, pre + [bad] + post, namespace)
            == ReplayCalls(crc, pre, namespace) + ReplayCalls(crc, post, namespace)
  {
    ReplayCallsSnoc(crc, pre, bad, namespace);
    ReplayCallsAppend(crc, pre + [bad], post, namespace);
  }

  /**
   * A namespace replay skips the frames of other namespaces without parsing
   * them: a valid frame of namespace 7 carrying a tagged INSERT, which no
   * replay can parse, does not stop namespace 3 from being replayed, and
   * makes no callback there.
   */
  lemma OtherNamespaceFrameSkipped(crc: Crc32Fn, e: WalEntry)
    requires ValidateWalEntry(crc, e) && e.namespaceId == 7
    requires e.data == SerializeForLog(INSERT, SerializeForWal([97], 1, [98], 1))
    ensures !AllReplayable(crc, [e], None)
    ensures AllReplayable(crc, [e], Some(3))
    ensures ReplayCalls(crc, [e], Some(3)) == []
  {
    TaggedInsertUnparseable(e);
    assert e in [e];
    assert [e][..0] == [];
  }

  /** The callbacks of a replay restricted to one namespace. */
  function OfNamespace(calls: seq<ReplayCall>, ns: u64): (r: seq<ReplayCall>)
    ensures forall c :: c in r <==> c in calls && c.namespaceId == ns
  {
    if calls == [] then []
    else
      assert calls == calls[..|calls| - 1] + [calls[|calls| - 1]];
      OfNamespace(calls[..|calls| - 1], ns)
      + (if calls[|calls| - 1].namespaceId == ns then [calls[|calls| - 1]] else [])
  }

  /** Replaying one namespace is replaying everything and keeping that namespace's callbacks. */
  lemma {:induction false} NamespaceReplayIsFiltered(crc: Crc32Fn, frames: seq<WalEntry>, ns: u64)
    requires AllReplayable(crc, frames, None)
    ensures AllReplayable(crc, frames, Some(ns))
    ensures ReplayCalls(crc, frames, Some(ns)) == OfNamespace(ReplayCalls(crc, frames, None), ns)
  {
    if frames != [] {
      var init := frames[..|frames| - 1];
      NamespaceReplayIsFiltered(crc, init, ns);
      var e := frames[|frames| - 1];
      assert e in frames;
      var all0 := ReplayCalls(crc, init, None);
      if ValidateWalEntry(crc, e) {
        var c := ParseAndReplayEntry(e).value;
        assert c.namespaceId == e.namespaceId;
        assert ReplayCalls(crc, frames, None) == all0 + [c];
        OfNamespaceSnoc(all0, c, ns);
      } else {
        assert ReplayCalls(crc, frames, None) == all0;
      }
    }
  }

  lemma OfNamespaceSnoc(calls: seq<ReplayCall>, c: ReplayCall, ns: u64)
    ensures OfNamespace(calls + [c], ns) == OfNamespace(calls, ns) + (if c.namespaceId == ns then [c] else [])
  {
    assert (calls + [c])[..|calls|] == calls;
  }

  /** When every frame validates, the replay makes one callback per frame, in frame order. */
  lemma {:induction false} ReplayOfValidFrames(crc: Crc32Fn, frames: seq<WalEntry>)
    requires forall e :: e in frames ==> ValidateWalEntry(crc, e) && WalFramed(e.data)
    ensures AllReplayable(crc, frames, None)
    ensures var r := ReplayCalls(crc, frames, None);
            |r| == |frames| && forall i :: 0 <= i < |frames| ==> r[i] == ParseAndReplayEntry(frames[i]).value
  {
    if frames != [] {
      var init, e := frames[..|frames| - 1], frames[|frames| - 1];
      assert frames == init + [e];
      assert e in frames;
      assert forall x :: x in init ==> x in frames;
      ReplayOfValidFrames(crc, init);
      ReplayCallsSnoc(crc, init, e, None);
      var r0 := ReplayCalls(crc, init, None);
      var r := ReplayCalls(crc, frames, None);
      assert r == r0 + [ParseAndReplayEntry(e).value];
      forall i | 0 <= i < |frames| ensures r[i] == ParseAndReplayEntry(frames[i]).value {
        if i < |init| {
          assert r[i] == r0[i] && frames[i] == init[i];
        }
      }
    }
  }
}
