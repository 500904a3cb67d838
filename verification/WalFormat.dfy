/** The write-ahead log format (src/wal.cc, src/write_batch.cc): what the bytes of a record are, and
    what a byte string says when it is scanned as a log. */
module WalFormat {
  import opened Words
  import opened Bytes
  import opened Crc32c

  const BATCH_RECORD: Byte := 1
  const RECORD_HEADER_SIZE: nat := 9
  const BATCH_HEADER_SIZE: nat := 12
  const ENTRY_HEADER_SIZE: nat := 9

  /** One entry of a write batch.  A deletion carries an empty value. */
  datatype Entry = Put(key: seq<Byte>, data: seq<Byte>) | Delete(key: seq<Byte>) {
    function Type(): Byte {
      if Put? then 1 else 2
    }

    function Value(): seq<Byte> {
      if Put? then data else []
    }
  }

  type Batch = seq<Entry>

  /** The entries of a group of batches, in order. */
  function Flatten(batches: seq<Batch>): seq<Entry> {
    if batches == [] then [] else batches[0] + Flatten(batches[1..])
  }

  lemma {:induction false} FlattenConcat(a: seq<Batch>, b: seq<Batch>)
    ensures Flatten(a + b) == Flatten(a) + Flatten(b)
  {
    if a == [] {
      assert a + b == b;
    } else {
      assert (a + b)[1..] == a[1..] + b;
      FlattenConcat(a[1..], b);
    }
  }

  lemma FlattenSnoc(batches: seq<Batch>, i: nat)
    requires i < |batches|
    ensures Flatten(batches[..i + 1]) == Flatten(batches[..i]) + batches[i]
  {
    assert batches[..i + 1] == batches[..i] + [batches[i]];
    FlattenConcat(batches[..i], [batches[i]]);
    assert Flatten([batches[i]]) == batches[i] + Flatten([]) == batches[i];
  }

  /** One record of the log: a group of entries under its first sequence number. */
  datatype LogRecord = LogRecord(base: nat, entries: seq<Entry>)

  // ----------------------------------------------------------------- encoding

  function EntryHeader(e: Entry): (bytes: seq<Byte>)
    ensures |bytes| == ENTRY_HEADER_SIZE
  {
    [e.Type()] + LE(|e.key|, 4) + LE(|e.Value()|, 4)
  }

  function EncodeEntry(e: Entry): seq<Byte> {
    EntryHeader(e) + e.key + e.Value()
  }

  function EncodeEntries(entries: seq<Entry>): seq<Byte> {
    if entries == [] then [] else EncodeEntry(entries[0]) + EncodeEntries(entries[1..])
  }

  function BatchHeader(base: nat, count: nat): (bytes: seq<Byte>)
    ensures |bytes| == BATCH_HEADER_SIZE
  {
    LE(base, 8) + LE(count, 4)
  }

  function Payload(r: LogRecord): seq<Byte> {
    BatchHeader(r.base, |r.entries|) + EncodeEntries(r.entries)
  }

  function RecordHeader(crc: nat, length: nat): (bytes: seq<Byte>)
    ensures |bytes| == RECORD_HEADER_SIZE
  {
    LE(crc, 4) + LE(length, 4) + [BATCH_RECORD]
  }

  /** A record around any payload: checksum, length, type, payload. */
  function Framed(payload: seq<Byte>): (bytes: seq<Byte>)
    ensures |bytes| == RECORD_HEADER_SIZE + |payload|
  {
    RecordHeader(Crc32C(payload), |payload|) + payload
  }

  function Encode(r: LogRecord): seq<Byte> {
    Framed(Payload(r))
  }

  function EncodeLog(log: seq<LogRecord>): seq<Byte> {
    if log == [] then [] else Encode(log[0]) + EncodeLog(log[1..])
  }

  /** What the fixed-width fields of a record can hold. */
  predicate Fits(r: LogRecord) {
    r.base < U64 && |Payload(r)| < U32
  }

  predicate AllFit(log: seq<LogRecord>) {
    forall i :: 0 <= i < |log| ==> Fits(log[i])
  }

  lemma {:induction false} EncodeEntriesConcat(a: seq<Entry>, b: seq<Entry>)
    ensures EncodeEntries(a + b) == EncodeEntries(a) + EncodeEntries(b)
  {
    if a == [] {
      assert a + b == b;
    } else {
      assert (a + b)[1..] == a[1..] + b;
      EncodeEntriesConcat(a[1..], b);
    }
  }

  lemma EncodeEntriesSnoc(entries: seq<Entry>, e: Entry)
    ensures EncodeEntries(entries + [e]) == EncodeEntries(entries) + EncodeEntry(e)
  {
    EncodeEntriesConcat(entries, [e]);
    assert EncodeEntries([e]) == EncodeEntry(e) + EncodeEntries([]) == EncodeEntry(e);
  }

  lemma {:induction false} EncodeLogConcat(a: seq<LogRecord>, b: seq<LogRecord>)
    ensures EncodeLog(a + b) == EncodeLog(a) + EncodeLog(b)
  {
    if a == [] {
      assert a + b == b;
    } else {
      assert (a + b)[1..] == a[1..] + b;
      EncodeLogConcat(a[1..], b);
    }
  }

  lemma EncodeLogSnoc(log: seq<LogRecord>, r: LogRecord)
    ensures EncodeLog(log + [r]) == EncodeLog(log) + Encode(r)
  {
    EncodeLogConcat(log, [r]);
    assert EncodeLog([r]) == Encode(r) + EncodeLog([]) == Encode(r);
  }

  lemma EncodeLogOfOne(r: LogRecord)
    ensures EncodeLog([r]) == Encode(r)
  {
    hide Encode;
    assert [r][1..] == [];
    assert EncodeLog([r]) == Encode(r) + [];
  }

  lemma EncodeLogPrefix(log: seq<LogRecord>, k: nat)
    requires k <= |log|
    ensures EncodeLog(log[..k]) <= EncodeLog(log)
  {
    hide Encode;
    EncodeLogConcat(log[..k], log[k..]);
    assert log[..k] + log[k..] == log;
  }

  /** Every entry takes at least its header. */
  lemma {:induction false} EntriesAreLong(entries: seq<Entry>)
    ensures |EncodeEntries(entries)| >= ENTRY_HEADER_SIZE * |entries|
  {
    if entries != [] {
      EntriesAreLong(entries[1..]);
    }
  }

  // ----------------------------------------------------------------- scanning

  datatype WalError =
    | UnknownRecordType
    | ChecksumMismatch
    | InvalidBatchHeader
    | TruncatedEntry
    | InvalidEntry
    | TruncatedPayload
    | UnknownEntryType

  datatype Parsed<T> = Good(value: T) | Bad(error: WalError)

  function Prepend<T>(done: seq<T>, rest: Parsed<seq<T>>): Parsed<seq<T>> {
    if rest.Good? then Good(done + rest.value) else rest
  }

  /** The bytes of one entry header claim this many bytes of key and value. */
  function KeySize(bytes: seq<Byte>): nat
    requires |bytes| >= ENTRY_HEADER_SIZE
  {
    FromLE(bytes[1..5])
  }

  function ValueSize(bytes: seq<Byte>): nat
    requires |bytes| >= ENTRY_HEADER_SIZE
  {
    FromLE(bytes[5..9])
  }

  /** The first entry in a payload suffix. */
  function ParseEntry(bytes: seq<Byte>): (r: Parsed<(Entry, nat)>)
    ensures r.Good? ==> ENTRY_HEADER_SIZE <= r.value.1 <= |bytes|
  {
    if bytes == [] then Bad(TruncatedEntry)
    else if |bytes| < ENTRY_HEADER_SIZE then Bad(InvalidEntry)
    else
      var valueAt := ENTRY_HEADER_SIZE + KeySize(bytes);
      var end := valueAt + ValueSize(bytes);
      if end > |bytes| then Bad(TruncatedPayload)
      else if bytes[0] == 1 then Good((Put(bytes[ENTRY_HEADER_SIZE..valueAt], bytes[valueAt..end]), end))
      else if bytes[0] == 2 then Good((Delete(bytes[ENTRY_HEADER_SIZE..valueAt]), end))
      else Bad(UnknownEntryType)
  }

  function ParseEntries(bytes: seq<Byte>, count: nat): (r: Parsed<seq<Entry>>)
    ensures r.Good? ==> |r.value| == count
    decreases count
  {
    if count == 0 then Good([]) else
    match ParseEntry(bytes)
    case Bad(e) => Bad(e)
    case Good((entry, size)) => Prepend([entry], ParseEntries(bytes[size..], count - 1))
  }

  function ParsePayload(payload: seq<Byte>): Parsed<LogRecord> {
    if |payload| < BATCH_HEADER_SIZE then Bad(InvalidBatchHeader) else
    match ParseEntries(payload[BATCH_HEADER_SIZE..], FromLE(payload[8..12]))
    case Bad(e) => Bad(e)
    case Good(entries) => Good(LogRecord(FromLE(payload[..8]), entries))
  }

  /** What stands at the front of a byte string read as a log. */
  datatype Front = Stop | Broken(error: WalError) | Whole(record: LogRecord, size: nat)

  function ClaimedLength(bytes: seq<Byte>): nat
    requires |bytes| >= RECORD_HEADER_SIZE
  {
    FromLE(bytes[4..8])
  }

  function ReadFront(bytes: seq<Byte>): (f: Front)
    ensures f.Whole? ==> RECORD_HEADER_SIZE <= f.size <= |bytes|
  {
    if |bytes| < RECORD_HEADER_SIZE then Stop else
    var end := RECORD_HEADER_SIZE + ClaimedLength(bytes);
    if end > |bytes| then Stop
    else if bytes[8] != BATCH_RECORD then Broken(UnknownRecordType)
    else
      var payload := bytes[RECORD_HEADER_SIZE..end];
      if Crc32C(payload) != FromLE(bytes[..4]) then
        if end >= |bytes| then Stop else Broken(ChecksumMismatch)
      else
        match ParsePayload(payload)
        case Bad(e) => Broken(e)
        case Good(record) => Whole(record, end)
  }

  datatype ScanResult = Scanned(log: seq<LogRecord>, validBytes: nat) | Corruption(error: WalError)

  /** A scan that has already passed `done`, taking `size` bytes. */
  function Resume(done: seq<LogRecord>, size: nat, rest: ScanResult): ScanResult {
    if rest.Scanned? then Scanned(done + rest.log, size + rest.validBytes) else rest
  }

  function Scan(bytes: seq<Byte>): ScanResult
    decreases |bytes|
  {
    match ReadFront(bytes)
    case Stop => Scanned([], 0)
    case Broken(e) => Corruption(e)
    case Whole(record, size) => Resume([record], size, Scan(bytes[size..]))
  }

  lemma ResumeTwice(a: seq<LogRecord>, m: nat, b: seq<LogRecord>, n: nat, rest: ScanResult)
    ensures Resume(a, m, Resume(b, n, rest)) == Resume(a + b, m + n, rest)
  {
    if rest.Scanned? {
      assert a + (b + rest.log) == (a + b) + rest.log;
    }
  }

  lemma ScanOfEmpty()
    ensures Scan([]) == Scanned([], 0)
  {}
}
