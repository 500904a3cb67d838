/** The two encoders of a log record (src/wal.cc): one builds the record in one buffer, the other builds
    only the fixed-size parts and lists where the kernel is to gather the record from.  Both produce the
    bytes that WalFormat prescribes. */
module WalEncoder {
  import opened Words
  import opened Sequences
  import opened Bytes
  import opened Crc32c
  import opened WalFormat

  /** Where the type byte of a record stands, and how far its two headers reach. */
  const TYPE_OFFSET: nat := 8
  const HEADERS_SIZE: nat := RECORD_HEADER_SIZE + BATCH_HEADER_SIZE

  function GroupRecord(base: nat, batches: seq<Batch>): LogRecord {
    LogRecord(base, Flatten(batches))
  }

  /** The entry count wraps around as a 32-bit integer. */
  method CountEntries(batches: seq<Batch>) returns (count: nat)
    ensures count == |Flatten(batches)| % U32
  {
    count := 0;
    for i := 0 to |batches|
      invariant count == |Flatten(batches[..i])| % U32
    {
      FlattenSnoc(batches, i);
      ghost var before := |Flatten(batches[..i])|;
      assert (before % U32 + |batches[i]| % U32) % U32 == (before + |batches[i]|) % U32;
      count := (count + |batches[i]| % U32) % U32;
    }
    assert batches[..|batches|] == batches;
  }

  method EncodedEntriesSize(batch: Batch) returns (size: nat)
    ensures size == |EncodeEntries(batch)|
  {
    size := 0;
    for j := 0 to |batch|
      invariant size == |EncodeEntries(batch[..j])|
    {
      EncodeEntriesSnoc(batch[..j], batch[j]);
      assert batch[..j + 1] == batch[..j] + [batch[j]];
      size := size + ENTRY_HEADER_SIZE + |batch[j].key| + |batch[j].Value()|;
    }
    assert batch[..|batch|] == batch;
  }

  method EncodedBatchSize(batches: seq<Batch>) returns (size: nat)
    ensures forall base :: size == |Encode(GroupRecord(base, batches))|
  {
    size := RECORD_HEADER_SIZE + BATCH_HEADER_SIZE;
    for i := 0 to |batches|
      invariant size == RECORD_HEADER_SIZE + BATCH_HEADER_SIZE + |EncodeEntries(Flatten(batches[..i]))|
    {
      var entries := EncodedEntriesSize(batches[i]);
      FlattenSnoc(batches, i);
      EncodeEntriesConcat(Flatten(batches[..i]), batches[i]);
      size := size + entries;
    }
    assert batches[..|batches|] == batches;
  }

  lemma {:induction false} LETruncates(value: nat, width: nat)
    ensures LE(value % Range(width), width) == LE(value, width)
  {
    FromLEOfLE(value, width);
    LEOfFromLE(LE(value, width));
  }

  lemma LE32Truncates(value: nat)
    ensures LE(value % U32, 4) == LE(value, 4)
  {
    RangeOfWords();
    LETruncates(value, 4);
  }

  // ------------------------------------------------------- contiguous encoder

  method AppendEntry(record: seq<Byte>, e: Entry) returns (extended: seq<Byte>)
    ensures extended == record + EncodeEntry(e)
  {
    hide LE;
    extended := record + [e.Type()];
    extended := AppendFixedLE(extended, |e.key|, 4);
    extended := AppendFixedLE(extended, |e.Value()|, 4);
    extended := extended + e.key;
    extended := extended + e.Value();
  }

  method AppendBatch(record: seq<Byte>, batch: Batch) returns (extended: seq<Byte>)
    ensures extended == record + EncodeEntries(batch)
  {
    hide EncodeEntry;
    extended := record;
    for j := 0 to |batch|
      invariant extended == record + EncodeEntries(batch[..j])
    {
      EncodeEntriesSnoc(batch[..j], batch[j]);
      assert batch[..j + 1] == batch[..j] + [batch[j]];
      extended := AppendEntry(extended, batch[j]);
    }
    assert batch[..|batch|] == batch;
  }

  /** EncodeBatchInto: the header is reserved first and filled in once the payload is complete. */
  method EncodeBatchInto(base: nat, batches: seq<Batch>, hasHardwareCrc32c: bool) returns (record: seq<Byte>)
    ensures record == Encode(GroupRecord(base, batches))
  {
    hide LE, Crc32C, EncodeEntries;
    record := AppendFixedLE([], 0, 4);
    record := AppendFixedLE(record, 0, 4);
    record := record + [BATCH_RECORD];
    var payloadOffset := |record|;
    ghost var reserved := record;

    record := AppendFixedLE(record, base, 8);
    var count := CountEntries(batches);
    record := AppendFixedLE(record, count, 4);
    LE32Truncates(|Flatten(batches)|);
    ghost var start := BatchHeader(base, |Flatten(batches)|);
    EncodeNothing();

    for i := 0 to |batches|
      invariant record == reserved + (start + EncodeEntries(Flatten(batches[..i])))
    {
      FlattenSnoc(batches, i);
      EncodeEntriesConcat(Flatten(batches[..i]), batches[i]);
      record := AppendBatch(record, batches[i]);
    }
    assert batches[..|batches|] == batches;
    assert record[payloadOffset..] == start + EncodeEntries(Flatten(batches));

    record := FillHeader(record, payloadOffset, hasHardwareCrc32c);
  }

  lemma EncodeNothing()
    ensures EncodeEntries([]) == []
  {}

  /** Back-patch checksum and length over the reserved header. */
  method FillHeader(record: seq<Byte>, payloadOffset: nat, hasHardwareCrc32c: bool) returns (filled: seq<Byte>)
    requires payloadOffset == RECORD_HEADER_SIZE <= |record| && record[8] == BATCH_RECORD
    ensures filled == Framed(record[payloadOffset..])
  {
    hide LE, Crc32C;
    var payload := record[payloadOffset..];
    var crc := ComputeCrc32C(payload, hasHardwareCrc32c);
    filled := WriteFixedLE(record, 0, crc, 4);
    filled := WriteFixedLE(filled, 4, |payload|, 4);
  }

  // --------------------------------------------------- scatter/gather encoder

  /** One piece of a gathered write: a range of the encoder's own buffer, read when the write is issued,
      or bytes that belong to a batch entry. */
  datatype Iovec = InFixed(offset: nat, length: nat) | External(bytes: seq<Byte>) {
    predicate Within(low: nat, high: nat) {
      InFixed? ==> low <= offset && offset + length <= high
    }

    function Read(fixed: seq<Byte>): seq<Byte>
      requires Within(0, |fixed|)
    {
      if InFixed? then fixed[offset..offset + length] else bytes
    }
  }

  predicate AllWithin(iovecs: seq<Iovec>, low: nat, high: nat) {
    forall i :: 0 <= i < |iovecs| ==> iovecs[i].Within(low, high)
  }

  /** What a gathered write takes from the buffer as it is now. */
  function Gather(fixed: seq<Byte>, iovecs: seq<Iovec>): seq<Byte>
    requires AllWithin(iovecs, 0, |fixed|)
  {
    if iovecs == [] then [] else iovecs[0].Read(fixed) + Gather(fixed, iovecs[1..])
  }

  lemma GatherOne(fixed: seq<Byte>, piece: Iovec)
    requires piece.Within(0, |fixed|)
    ensures Gather(fixed, [piece]) == piece.Read(fixed)
  {
    assert Gather(fixed, [piece]) == piece.Read(fixed) + Gather(fixed, []);
  }

  lemma {:induction false} GatherConcat(fixed: seq<Byte>, a: seq<Iovec>, b: seq<Iovec>)
    requires AllWithin(a, 0, |fixed|) && AllWithin(b, 0, |fixed|)
    ensures AllWithin(a + b, 0, |fixed|)
    ensures Gather(fixed, a + b) == Gather(fixed, a) + Gather(fixed, b)
  {
    if a == [] {
      assert a + b == b;
    } else {
      assert (a + b)[1..] == a[1..] + b;
      GatherConcat(fixed, a[1..], b);
    }
  }

  /** Two buffers agree from `low` up to `high`. */
  predicate Agree(fixed: seq<Byte>, changed: seq<Byte>, low: nat, high: nat) {
    high <= |fixed| == |changed| && forall k :: low <= k < high ==> fixed[k] == changed[k]
  }

  lemma SamePrefix(was: seq<Byte>, fixed: seq<Byte>, at: nat, low: nat, high: nat)
    requires low <= high <= at <= |was| == |fixed| && was[..at] == fixed[..at]
    ensures fixed[low..high] == was[low..high]
    ensures forall k :: 0 <= k < at ==> fixed[k] == was[k]
  {
    forall k | 0 <= k < at
      ensures fixed[k] == was[k]
    {
      assert fixed[k] == fixed[..at][k] == was[..at][k];
    }
  }

  lemma ReadFrame(fixed: seq<Byte>, changed: seq<Byte>, v: Iovec, low: nat, high: nat)
    requires Agree(fixed, changed, low, high) && v.Within(low, high)
    ensures v.Within(0, |fixed|) && v.Read(changed) == v.Read(fixed)
  {}

  /** A gathered write depends only on the part of the buffer its pieces lie in. */
  lemma {:induction false} GatherFrame(fixed: seq<Byte>, changed: seq<Byte>, iovecs: seq<Iovec>, low: nat, high: nat)
    requires Agree(fixed, changed, low, high) && AllWithin(iovecs, low, high)
    ensures AllWithin(iovecs, 0, |fixed|) && Gather(changed, iovecs) == Gather(fixed, iovecs)
  {
    if iovecs != [] {
      ReadFrame(fixed, changed, iovecs[0], low, high);
      hide Agree;
      assert forall i :: 0 <= i < |iovecs[1..]| ==> iovecs[1..][i] == iovecs[i + 1];
      GatherFrame(fixed, changed, iovecs[1..], low, high);
    }
  }

  /** Pieces listed behind earlier ones, in a buffer that was written past those only. */
  lemma ListedTogether(was: seq<Byte>, fixed: seq<Byte>, listed: seq<Iovec>, added: seq<Iovec>, low: nat, at: nat, end: nat)
    requires low <= at <= end <= |was| == |fixed| && was[..at] == fixed[..at]
    requires AllWithin(listed, low, at) && AllWithin(added, at, end)
    ensures AllWithin(listed + added, low, end) && AllWithin(listed, 0, |was|)
    ensures AllWithin(added, 0, |fixed|) && AllWithin(listed + added, 0, |fixed|)
    ensures Gather(fixed, listed + added) == Gather(was, listed) + Gather(fixed, added)
  {
    hide Gather;
    SamePrefix(was, fixed, at, low, at);
    GatherFrame(was, fixed, listed, low, at);
    GatherConcat(fixed, listed, added);
  }

  lemma AllBelow(iovecs: seq<Iovec>, at: nat)
    requires iovecs != [] && iovecs[0] == InFixed(0, HEADERS_SIZE) && HEADERS_SIZE <= at
    requires AllWithin(iovecs[1..], HEADERS_SIZE, at)
    ensures AllWithin(iovecs, 0, at)
  {
    assert forall i :: 0 < i < |iovecs| ==> iovecs[i] == iovecs[1..][i - 1];
  }

  /** appendIovec: empty pieces are not listed. */
  method AppendIovec(iovecs: seq<Iovec>, piece: Iovec, ghost fixed: seq<Byte>, ghost low: nat) returns (extended: seq<Iovec>)
    requires AllWithin(iovecs, low, |fixed|) && piece.Within(low, |fixed|)
    ensures AllWithin(extended, low, |fixed|)
    ensures Gather(fixed, extended) == Gather(fixed, iovecs) + piece.Read(fixed)
    ensures |iovecs| <= |extended| <= |iovecs| + 1 && extended[..|iovecs|] == iovecs
    ensures |extended| > |iovecs| <==> piece.Read(fixed) != []
    ensures |extended| > |iovecs| ==> extended[|iovecs|] == piece
  {
    var size := if piece.InFixed? then piece.length else |piece.bytes|;
    if size == 0 {
      return iovecs;
    }
    extended := iovecs + [piece];
    GatherOne(fixed, piece);
    GatherConcat(fixed, iovecs, [piece]);
  }

  lemma PatchedHeader(fixed: seq<Byte>, crc: nat, length: nat)
    requires |fixed| >= 8
    ensures Patched(Patched(fixed, 0, LE(crc, 4)), 4, LE(length, 4)) == LE(crc, 4) + LE(length, 4) + fixed[8..]
  {
    hide LE;
  }

  lemma HeaderThenRest(was: seq<Byte>, fixed: seq<Byte>, crc: nat, length: nat)
    requires |was| >= RECORD_HEADER_SIZE && was[TYPE_OFFSET] == BATCH_RECORD
    requires fixed == LE(crc, 4) + LE(length, 4) + was[8..]
    ensures fixed[..RECORD_HEADER_SIZE] == RecordHeader(crc, length) && Agree(was, fixed, RECORD_HEADER_SIZE, |was|)
  {
    hide LE;
    var words := LE(crc, 4) + LE(length, 4);
    assert fixed == words + was[8..] && |words| == 8;
    assert fixed[..RECORD_HEADER_SIZE] == words + [was[TYPE_OFFSET]];
  }

  /** Filling in the header changes the first piece and nothing else that is gathered. */
  lemma PatchedGather(was: seq<Byte>, fixed: seq<Byte>, pieces: seq<Iovec>, at: nat, header: seq<Byte>)
    requires HEADERS_SIZE <= at <= |was| && |header| == RECORD_HEADER_SIZE
    requires Agree(was, fixed, RECORD_HEADER_SIZE, |was|) && fixed[..RECORD_HEADER_SIZE] == header
    requires AllWithin(pieces, HEADERS_SIZE, at)
    ensures AllWithin([InFixed(0, HEADERS_SIZE)] + pieces, 0, |fixed|) && AllWithin(pieces, 0, |was|)
    ensures Gather(fixed, [InFixed(0, HEADERS_SIZE)] + pieces) ==
            header + (was[RECORD_HEADER_SIZE..HEADERS_SIZE] + Gather(was, pieces))
  {
    var first := InFixed(0, HEADERS_SIZE);
    FirstPiece(was, fixed, header);
    GatherFrame(was, fixed, pieces, HEADERS_SIZE, at);
    hide Agree, Gather;
    GatherOne(fixed, first);
    GatherConcat(fixed, [first], pieces);
    var rest := Gather(was, pieces);
    var batch := was[RECORD_HEADER_SIZE..HEADERS_SIZE];
    Associates(header, batch, rest);
  }

  lemma Checksum(r: LogRecord, crc: nat)
    requires crc == Register(INITIAL, Payload(r))
    ensures crc < U32 && Complement(crc) == Crc32C(Payload(r)) && |Encode(r)| == RECORD_HEADER_SIZE + |Payload(r)|
  {
    RegisterIsWord(INITIAL, BitString(Payload(r)));
  }

  /** With the header filled in, the pieces gather to the record. */
  lemma PatchedRecord(was: seq<Byte>, fixed: seq<Byte>, pieces: seq<Iovec>, at: nat, r: LogRecord)
    requires HEADERS_SIZE <= at <= |was| && was[TYPE_OFFSET] == BATCH_RECORD
    requires was[RECORD_HEADER_SIZE..HEADERS_SIZE] == BatchHeader(r.base, |r.entries|)
    requires AllWithin(pieces, HEADERS_SIZE, at) && AllWithin(pieces, 0, |was|)
    requires Gather(was, pieces) == EncodeEntries(r.entries)
    requires var crc, length := Crc32C(Payload(r)), |Payload(r)|;
             fixed == Patched(Patched(was, 0, LE(crc, 4)), 4, LE(length, 4))
    ensures AllWithin([InFixed(0, HEADERS_SIZE)] + pieces, 0, |fixed|)
    ensures Gather(fixed, [InFixed(0, HEADERS_SIZE)] + pieces) == Encode(r)
  {
    hide LE, EncodeEntries, BatchHeader, Gather, Patched, Crc32C;
    var crc, length := Crc32C(Payload(r)), |Payload(r)|;
    PatchedHeader(was, crc, length);
    HeaderThenRest(was, fixed, crc, length);
    PatchedGather(was, fixed, pieces, at, RecordHeader(crc, length));
  }

  lemma FirstPiece(was: seq<Byte>, fixed: seq<Byte>, header: seq<Byte>)
    requires |was| >= HEADERS_SIZE && |header| == RECORD_HEADER_SIZE
    requires Agree(was, fixed, RECORD_HEADER_SIZE, |was|) && fixed[..RECORD_HEADER_SIZE] == header
    ensures |fixed| == |was| && InFixed(0, HEADERS_SIZE).Read(fixed) == header + was[RECORD_HEADER_SIZE..HEADERS_SIZE]
  {
    assert fixed[RECORD_HEADER_SIZE..HEADERS_SIZE] == was[RECORD_HEADER_SIZE..HEADERS_SIZE];
    assert fixed[0..HEADERS_SIZE] == fixed[..RECORD_HEADER_SIZE] + fixed[RECORD_HEADER_SIZE..HEADERS_SIZE];
  }

  /** How many pieces an entry is listed as: its header, and its key and value if there is anything to them. */
  function PiecesOf(e: Entry): (n: nat)
    ensures 1 <= n <= 3
  {
    1 + (if e.key == [] then 0 else 1) + (if e.Value() == [] then 0 else 1)
  }

  function Pieces(entries: seq<Entry>): nat {
    if entries == [] then 0 else Pieces(entries[..|entries| - 1]) + PiecesOf(entries[|entries| - 1])
  }

  lemma PiecesSnoc(entries: seq<Entry>, e: Entry)
    ensures Pieces(entries + [e]) == Pieces(entries) + PiecesOf(e)
  {
    assert (entries + [e])[..|entries|] == entries;
  }

  class EncodedBatchFragments {
    var fixed: seq<Byte>
    var iovecs: seq<Iovec>
    var size: nat

    constructor ()
      ensures fixed == [] && iovecs == [] && size == 0
    {
      fixed, iovecs, size := [], [], 0;
    }

    /** The bytes a gathered write of all pieces would write now. */
    function Gathered(): seq<Byte>
      requires AllWithin(iovecs, 0, |fixed|)
      reads this
    {
      Gather(fixed, iovecs)
    }

    method WriteEntryHeader(e: Entry, at: nat)
      requires at + ENTRY_HEADER_SIZE <= |fixed|
      modifies this`fixed
      ensures |fixed| == |old(fixed)| && fixed[..at] == old(fixed[..at])
      ensures fixed[at..at + ENTRY_HEADER_SIZE] == EntryHeader(e)
    {
      hide LE;
      fixed := fixed[at := e.Type()];
      fixed := WriteFixedLE(fixed, at + 1, |e.key|, 4);
      fixed := WriteFixedLE(fixed, at + 5, |e.Value()|, 4);
    }

    /** One entry: its header goes into the buffer, its key and value stay where they are. */
    method AppendEntry(e: Entry, at: nat, crc: nat) returns (next: nat)
      requires at + ENTRY_HEADER_SIZE <= |fixed| && AllWithin(iovecs, 0, at)
      modifies this`fixed, this`iovecs
      ensures |fixed| == |old(fixed)| && fixed[..at] == old(fixed[..at])
      ensures |iovecs| == |old(iovecs)| + PiecesOf(e) && iovecs[..|old(iovecs)|] == old(iovecs)
      ensures AllWithin(iovecs[|old(iovecs)|..], at, at + ENTRY_HEADER_SIZE)
      ensures Gather(fixed, iovecs[|old(iovecs)|..]) == EncodeEntry(e)
      ensures next == Register(crc, EncodeEntry(e))
    {
      hide LE, Register, EncodeEntries, EntryHeader;
      ghost var listed := iovecs;
      WriteEntryHeader(e, at);
      var header := fixed[at..at + ENTRY_HEADER_SIZE];
      next := ExtendCrc32cSoftware(crc, header);
      next := ExtendCrc32cSoftware(next, e.key);
      next := ExtendCrc32cSoftware(next, e.Value());
      RegisterConcat(crc, header, e.key);
      RegisterConcat(crc, header + e.key, e.Value());

      var pieces := [];
      pieces := AppendIovec(pieces, InFixed(at, ENTRY_HEADER_SIZE), fixed, at);
      pieces := AppendIovec(pieces, External(e.key), fixed, at);
      pieces := AppendIovec(pieces, External(e.Value()), fixed, at);
      iovecs := iovecs + pieces;
      assert iovecs[|listed|..] == pieces;
    }

    /** EncodeBatchFragmentsInto.  Only the entry count is needed to size the buffer, so only it must fit. */
    method EncodeBatchFragmentsInto(base: nat, batches: seq<Batch>)
      requires |Flatten(batches)| < U32
      modifies this
      ensures AllWithin(iovecs, 0, |fixed|)
      ensures Gathered() == Encode(GroupRecord(base, batches))
      ensures size == |Encode(GroupRecord(base, batches))|
      ensures |iovecs| == 1 + Pieces(Flatten(batches))
    {
      hide LE, Register, EncodeEntries, Encode, EntriesListed, Pieces;
      ghost var all := Flatten(batches);
      var entryCount := CountEntries(batches);
      size := EncodedBatchSize(batches);
      assert size == |Encode(GroupRecord(base, batches))|;
      Prepare(base, all, entryCount);
      var crc: nat := ExtendCrc32cSoftware(INITIAL, fixed[RECORD_HEADER_SIZE..HEADERS_SIZE]);
      NothingListed(all, base, HEADERS_SIZE, crc);

      var at: nat := HEADERS_SIZE;
      for i := 0 to |batches|
        invariant EntriesListed(Flatten(batches[..i]), all, base, at, crc)
        invariant size == |Encode(GroupRecord(base, batches))|
      {
        FlattenSnoc(batches, i);
        FlattenConcat(batches[..i + 1], batches[i + 1..]);
        assert batches == batches[..i + 1] + batches[i + 1..];
        at, crc := ListBatch(Flatten(batches[..i]), all, base, batches[i], at, crc);
      }
      assert batches[..|batches|] == batches;
      BackPatch(all, base, at, crc);
    }

    /** Size the buffer, write the batch header and list the two headers as the first piece. */
    method Prepare(base: nat, ghost all: seq<Entry>, entryCount: nat)
      requires entryCount == |all| < U32
      modifies this`fixed, this`iovecs
      ensures |fixed| == HEADERS_SIZE + ENTRY_HEADER_SIZE * |all| && fixed[TYPE_OFFSET] == BATCH_RECORD
      ensures fixed[RECORD_HEADER_SIZE..HEADERS_SIZE] == BatchHeader(base, |all|) && iovecs == [InFixed(0, HEADERS_SIZE)]
    {
      hide LE;
      fixed := seq(HEADERS_SIZE + entryCount * ENTRY_HEADER_SIZE, _ => 0);
      fixed := fixed[TYPE_OFFSET := BATCH_RECORD];
      fixed := WriteFixedLE(fixed, RECORD_HEADER_SIZE, base, 8);
      fixed := WriteFixedLE(fixed, RECORD_HEADER_SIZE + 8, entryCount, 4);
      iovecs := [InFixed(0, HEADERS_SIZE)];
    }

    lemma NothingListed(all: seq<Entry>, base: nat, at: nat, crc: nat)
      requires |fixed| == HEADERS_SIZE + ENTRY_HEADER_SIZE * |all| && fixed[TYPE_OFFSET] == BATCH_RECORD
      requires fixed[RECORD_HEADER_SIZE..HEADERS_SIZE] == BatchHeader(base, |all|) && iovecs == [InFixed(0, HEADERS_SIZE)]
      requires at == HEADERS_SIZE && crc == Register(INITIAL, fixed[RECORD_HEADER_SIZE..HEADERS_SIZE])
      ensures EntriesListed([], all, base, at, crc)
    {
      hide Register, LE;
      EncodeNothing();
      assert BatchHeader(base, |all|) + [] == BatchHeader(base, |all|);
      assert iovecs[1..] == [];
    }

    method ListBatch(ghost before: seq<Entry>, ghost all: seq<Entry>, ghost base: nat, batch: Batch, at: nat, crc: nat)
      returns (next: nat, extended: nat)
      requires EntriesListed(before, all, base, at, crc) && |before + batch| <= |all|
      modifies this`fixed, this`iovecs
      ensures EntriesListed(before + batch, all, base, next, extended)
    {
      hide EntriesListed;
      next, extended := at, crc;
      assert before + batch[..0] == before;
      for j := 0 to |batch|
        invariant EntriesListed(before + batch[..j], all, base, next, extended)
      {
        assert before + batch[..j + 1] == before + batch[..j] + [batch[j]];
        extended := ListEntry(before + batch[..j], all, base, batch[j], next, extended);
        next := next + ENTRY_HEADER_SIZE;
      }
      assert batch[..|batch|] == batch;
    }

    /** Loop invariant: the entries `done` are in the buffer, in the list and in the checksum. */
    ghost predicate EntriesListed(done: seq<Entry>, all: seq<Entry>, base: nat, at: nat, crc: nat)
      reads this
    {
      && |done| <= |all|
      && at == HEADERS_SIZE + ENTRY_HEADER_SIZE * |done|
      && |fixed| == HEADERS_SIZE + ENTRY_HEADER_SIZE * |all|
      && fixed[TYPE_OFFSET] == BATCH_RECORD
      && fixed[RECORD_HEADER_SIZE..HEADERS_SIZE] == BatchHeader(base, |all|)
      && |iovecs| == 1 + Pieces(done)
      && iovecs[0] == InFixed(0, HEADERS_SIZE)
      && AllWithin(iovecs[1..], HEADERS_SIZE, at)
      && Gather(fixed, iovecs[1..]) == EncodeEntries(done)
      && crc == Register(INITIAL, BatchHeader(base, |all|) + EncodeEntries(done))
    }

    method ListEntry(ghost done: seq<Entry>, ghost all: seq<Entry>, ghost base: nat, e: Entry, at: nat, crc: nat)
      returns (next: nat)
      requires EntriesListed(done, all, base, at, crc) && |done| < |all|
      modifies this`fixed, this`iovecs
      ensures EntriesListed(done + [e], all, base, at + ENTRY_HEADER_SIZE, next)
    {
      hide LE, Register, EncodeEntries, EncodeEntry, BatchHeader, Gather, AllWithin, Pieces, PiecesOf;
      AllBelow(iovecs, at);
      ghost var listed, was := iovecs, fixed;
      next := AppendEntry(e, at, crc);
      ghost var added := iovecs[|listed|..];
      SamePrefix(was, fixed, at, RECORD_HEADER_SIZE, HEADERS_SIZE);
      ListedTogether(was, fixed, listed[1..], added, HEADERS_SIZE, at, at + ENTRY_HEADER_SIZE);
      assert iovecs[1..] == listed[1..] + added;
      EncodeEntriesSnoc(done, e);
      PiecesSnoc(done, e);
      ghost var start := BatchHeader(base, |all|);
      RegisterConcat(INITIAL, start + EncodeEntries(done), EncodeEntry(e));
      assert start + EncodeEntries(done + [e]) == start + EncodeEntries(done) + EncodeEntry(e);
    }

    /** Fill in the record header that the first piece of the list aliases. */
    method BackPatch(ghost all: seq<Entry>, ghost base: nat, ghost at: nat, crc: nat)
      requires EntriesListed(all, all, base, at, crc)
      requires size == |Encode(LogRecord(base, all))|
      modifies this`fixed
      ensures AllWithin(iovecs, 0, |fixed|) && Gathered() == Encode(LogRecord(base, all))
      ensures |iovecs| == 1 + Pieces(all)
    {
      hide LE, Register, EncodeEntries, BatchHeader, Gather, Patched, Encode, Crc32C, Pieces;
      ghost var r, was := LogRecord(base, all), fixed;
      Checksum(r, crc);
      fixed := WriteFixedLE(fixed, 0, Complement(crc), 4);
      fixed := WriteFixedLE(fixed, 4, size - RECORD_HEADER_SIZE, 4);
      assert iovecs == [InFixed(0, HEADERS_SIZE)] + iovecs[1..];
      PatchedRecord(was, fixed, iovecs[1..], at, r);
    }
  }
}
