/** The log format byte by byte (src/wal.cc, src/common.h, include/storage_engine/db.h): what stands where in a
    record, and what each kind of damage is reported as. */
module WalLayout {
  import opened Words
  import opened Bytes
  import opened Crc32c
  import opened WalFormat
  import opened WalTheorems

  // ------------------------------------------------------------- what is written

  /** Least significant byte first. */
  lemma FieldBytes(value: nat)
    ensures LE(value, 4) == [value % 256, value / 256 % 256, value / 0x1_0000 % 256, value / 0x100_0000 % 256]
  {
    var (a, b, c) := (value / 256, value / 256 / 256, value / 256 / 256 / 256);
    assert b == value / 0x1_0000 && c == value / 0x100_0000;
    assert LE(value, 4) == [value % 256] + LE(a, 3);
    assert LE(a, 3) == [a % 256] + LE(b, 2);
    assert LE(b, 2) == [b % 256] + LE(c, 1);
    assert LE(c, 1) == [c % 256] + LE(c / 256, 0);
  }

  /** A wide field is two narrow ones, the low half first. */
  lemma WideFieldBytes(value: nat)
    ensures LE(value, 8) == LE(value, 4) + LE(value / U32, 4)
  {
    LESplit(value, 4, 4);
    HighPart(value);
  }

  lemma HighPart(value: nat)
    ensures value / 256 / 256 / 256 / 256 == value / U32
  {}

  function Shifted(value: nat, bytes: nat): nat
    decreases bytes
  {
    if bytes == 0 then value else Shifted(value / 256, bytes - 1)
  }

  lemma {:induction false} LESplit(value: nat, low: nat, high: nat)
    ensures LE(value, low + high) == LE(value, low) + LE(Shifted(value, low), high)
    decreases low
  {
    if low > 0 {
      LESplit(value / 256, low - 1, high);
    }
  }

  lemma SmallField(n: Byte)
    ensures LE(n, 4) == [n, 0, 0, 0]
  {
    FieldBytes(n);
  }

  lemma SmallWideField(n: Byte)
    ensures LE(n, 8) == [n, 0, 0, 0] + [0, 0, 0, 0]
  {
    hide LE;
    WideFieldBytes(n);
    SmallField(n);
    SmallField(0);
  }

  /** A put is 1, the two lengths, the key and the value; a deletion is 2, the length of the key, a zero
      length, and the key. */
  lemma EntryLayout(key: seq<Byte>, value: seq<Byte>)
    ensures EncodeEntry(Put(key, value)) == [1] + LE(|key|, 4) + LE(|value|, 4) + key + value
    ensures EncodeEntry(Delete(key)) == [2] + LE(|key|, 4) + LE(0, 4) + key
  {
    hide LE;
    assert Delete(key).Value() == [];
  }

  /** A record is the checksum of its payload, the length of it, 1, and the payload: the base sequence, the
      number of entries, and the entries. */
  lemma RecordLayout(r: LogRecord)
    ensures var payload := LE(r.base, 8) + LE(|r.entries|, 4) + EncodeEntries(r.entries);
            && Encode(r) == LE(Crc32C(payload), 4) + LE(|payload|, 4) + [1] + payload
            && Encode(r)[8] == 1
  {
    hide LE, Crc32C, EncodeEntries;
  }

  /** Sequence 7, two entries: a put of [118, 119] to [107], a deletion of [107]. */
  const EXAMPLE_HEADER: seq<Byte> := [7, 0, 0, 0] + [0, 0, 0, 0] + [2, 0, 0, 0]
  const EXAMPLE_PUT: seq<Byte> := [1] + [1, 0, 0, 0] + [2, 0, 0, 0] + [107] + [118, 119]
  const EXAMPLE_DELETE: seq<Byte> := [2] + [1, 0, 0, 0] + [0, 0, 0, 0] + [107]
  const EXAMPLE_PAYLOAD: seq<Byte> := EXAMPLE_HEADER + (EXAMPLE_PUT + EXAMPLE_DELETE)

  lemma ExampleEntries()
    ensures EncodeEntry(Put([107], [118, 119])) == EXAMPLE_PUT && EncodeEntry(Delete([107])) == EXAMPLE_DELETE
  {
    hide LE, EncodeEntry;
    SmallField(0);
    SmallField(1);
    SmallField(2);
    EntryLayout([107], [118, 119]);
  }

  lemma ExamplePayload()
    ensures Payload(LogRecord(7, [Put([107], [118, 119]), Delete([107])])) == EXAMPLE_PAYLOAD
  {
    hide LE, EncodeEntry, EncodeEntries, EXAMPLE_PUT, EXAMPLE_DELETE;
    var put, delete := Put([107], [118, 119]), Delete([107]);
    ExampleEntries();
    SmallWideField(7);
    SmallField(2);
    NoEntries();
    EncodeEntriesSnoc([put], delete);
    EncodeEntriesSnoc([], put);
    assert [put] + [delete] == [put, delete] && [] + [put] == [put] && [] + EXAMPLE_PUT == EXAMPLE_PUT;
  }

  lemma NoEntries()
    ensures EncodeEntries([]) == []
  {}

  /** One put and one deletion under sequence number 7, byte for byte. */
  lemma RecordExample()
    ensures var r := LogRecord(7, [Put([107], [118, 119]), Delete([107])]);
            var bytes := LE(Crc32C(EXAMPLE_PAYLOAD), 4) + [34, 0, 0, 0] + [1] + EXAMPLE_PAYLOAD;
            Encode(r) == bytes && Scan(bytes) == Scanned([r], 43)
  {
    hide LE, Crc32C, Scan, Payload, EXAMPLE_PAYLOAD;
    var r := LogRecord(7, [Put([107], [118, 119]), Delete([107])]);
    ExamplePayload();
    ExampleSize();
    SmallField(34);
    assert Encode(r) == LE(Crc32C(EXAMPLE_PAYLOAD), 4) + [34, 0, 0, 0] + [1] + EXAMPLE_PAYLOAD;
    hide Encode;
    EncodeLogOfOne(r);
    RoundTrip([r]);
  }

  lemma ExampleSize()
    ensures |EXAMPLE_PAYLOAD| == 34
  {}

  // ------------------------------------------------------- what is read, and errors

  /** The bytes of an entry with any type byte. */
  function EntryBytes(t: Byte, key: seq<Byte>, value: seq<Byte>): (bytes: seq<Byte>)
    ensures |bytes| == 9 + |key| + |value|
  {
    [t] + LE(|key|, 4) + LE(|value|, 4) + key + value
  }

  lemma EntryFields(t: Byte, key: seq<Byte>, value: seq<Byte>, bytes: seq<Byte>)
    requires |key| < U32 && |value| < U32 && |bytes| >= 9 && EntryBytes(t, key, value)[..9] == bytes[..9]
    ensures bytes[0] == t && KeySize(bytes) == |key| && ValueSize(bytes) == |value|
  {
    hide FromLE, LE;
    var header := bytes[..9];
    assert header == [t] + LE(|key|, 4) + LE(|value|, 4);
    assert bytes[1..5] == header[1..5] == LE(|key|, 4);
    assert bytes[5..9] == header[5..9] == LE(|value|, 4);
    assert bytes[0] == header[0];
    Field(|key|, 4);
    Field(|value|, 4);
  }

  /** 1 is a put, 2 a deletion whatever value it carries, and anything else is an error. */
  lemma EntryTypes(t: Byte, key: seq<Byte>, value: seq<Byte>, rest: seq<Byte>)
    requires |key| < U32 && |value| < U32
    ensures ParseEntry(EntryBytes(t, key, value) + rest) ==
            if t == 1 then Good((Put(key, value), 9 + |key| + |value|))
            else if t == 2 then Good((Delete(key), 9 + |key| + |value|))
            else Bad(UnknownEntryType)
  {
    hide LE, KeySize, ValueSize;
    var own := EntryBytes(t, key, value);
    var bytes := own + rest;
    assert own[..9] == bytes[..9];
    EntryFields(t, key, value, bytes);
    assert bytes[9..9 + |key|] == own[9..9 + |key|] == key;
    assert bytes[9 + |key|..|own|] == own[9 + |key|..] == value;
  }

  /** A cut entry is an error that tells where it was cut. */
  lemma TornEntry(t: Byte, key: seq<Byte>, value: seq<Byte>, n: nat)
    requires |key| < U32 && |value| < U32 && n < 9 + |key| + |value|
    ensures ParseEntry(EntryBytes(t, key, value)[..n]) ==
            Bad(if n == 0 then TruncatedEntry else if n < 9 then InvalidEntry else TruncatedPayload)
  {
    hide LE, KeySize, ValueSize, EntryBytes;
    if n >= 9 {
      var bytes := EntryBytes(t, key, value)[..n];
      assert bytes[..9] == EntryBytes(t, key, value)[..9];
      EntryFields(t, key, value, bytes);
    }
  }

  lemma EncodedIsBytes(e: Entry)
    ensures EncodeEntry(e) == EntryBytes(if e.Put? then 1 else 2, e.key, e.Value())
  {
    hide LE;
    EntryLayout(e.key, e.Value());
    assert e.Delete? ==> e.Value() == [];
  }

  lemma {:induction false} TornEntries(entries: seq<Entry>, n: nat)
    requires |EncodeEntries(entries)| < U32 && n < |EncodeEntries(entries)|
    ensures ParseEntries(EncodeEntries(entries)[..n], |entries|).Bad?
    decreases |entries|
  {
    hide ParseEntry, EncodeEntry, EntryBytes;
    var e, others := entries[0], entries[1..];
    var own, bytes := EncodeEntry(e), EncodeEntries(entries)[..n];
    EncodedIsBytes(e);
    if n < |own| {
      assert bytes == own[..n];
      TornEntry(if e.Put? then 1 else 2, e.key, e.Value(), n);
    } else {
      assert own <= bytes;
      ParseEntryUndoes(e, bytes);
      assert bytes[|own|..] == EncodeEntries(others)[..n - |own|];
      TornEntries(others, n - |own|);
    }
  }

  /** A payload that is too short for what it announces is corrupt, even under a matching checksum; one that is
      too long is read without its end. */
  lemma PayloadLength(r: LogRecord, n: nat, junk: seq<Byte>)
    requires Fits(r)
    ensures n < |Payload(r)| ==> ParsePayload(Payload(r)[..n]).Bad?
    ensures n < 12 ==> ParsePayload(Payload(r)[..n]) == Bad(InvalidBatchHeader)
    ensures ParsePayload(Payload(r) + junk) == Good(r)
  {
    hide FromLE, LE, EncodeEntries, ParseEntries;
    var payload := Payload(r);
    EntriesAreLong(r.entries);
    Field(r.base, 8);
    Field(|r.entries|, 4);
    assert payload[..8] == LE(r.base, 8) && payload[8..12] == LE(|r.entries|, 4);
    assert payload[12..] == EncodeEntries(r.entries);
    var longer := payload + junk;
    assert longer[..8] == payload[..8] && longer[8..12] == payload[8..12];
    assert longer[12..] == EncodeEntries(r.entries) + junk;
    ParseEntriesUndoes(r.entries, junk);
    if 12 <= n < |payload| {
      var shorter := payload[..n];
      assert shorter[8..12] == payload[8..12] && shorter[12..] == EncodeEntries(r.entries)[..n - 12];
      TornEntries(r.entries, n - 12);
    }
  }

  /** Under a matching checksum the payload decides, wherever the record stands: it is replayed or the log is
      corrupt, and never passed over. */
  lemma CheckedPayload(payload: seq<Byte>, rest: seq<Byte>)
    requires |payload| < U32
    ensures ReadFront(Framed(payload) + rest) ==
            match ParsePayload(payload)
            case Bad(e) => Broken(e)
            case Good(r) => Whole(r, 9 + |payload|)
  {
    hide FromLE, LE, Crc32C, ClaimedLength, ParsePayload;
    var bytes := Framed(payload) + rest;
    assert Framed(payload)[..RECORD_HEADER_SIZE] <= bytes;
    FramedFields(payload, bytes);
    assert bytes[RECORD_HEADER_SIZE..9 + |payload|] == payload;
  }

  /** A record of an unknown type is corrupt when it is whole, whatever its checksum, and a torn tail when not. */
  lemma ForeignRecord(r: LogRecord, t: Byte, rest: seq<Byte>, n: nat)
    requires Fits(r) && t != 1
    ensures |Encode(r)| > 8
    ensures ReadFront(Encode(r)[8 := t] + rest) == Broken(UnknownRecordType)
    ensures n < |Encode(r)| ==> ReadFront(Encode(r)[8 := t][..n]) == Stop
  {
    hide FromLE, LE, Crc32C, Payload, ParsePayload, ClaimedLength;
    var own := Encode(r)[8 := t];
    ForeignLength(r, t, own + rest);
    if 9 <= n < |own| {
      ForeignLength(r, t, own[..n]);
    }
  }

  lemma ForeignLength(r: LogRecord, t: Byte, bytes: seq<Byte>)
    requires Fits(r) && |bytes| >= 9 && |Encode(r)| >= 9 && Encode(r)[8 := t][..9] == bytes[..9]
    ensures ClaimedLength(bytes) == |Payload(r)| && |Encode(r)| == 9 + |Payload(r)| && bytes[8] == t
  {
    hide FromLE, LE, Crc32C, Payload;
    var own := Encode(r)[8 := t];
    assert own[..9][8] == bytes[..9][8];
    assert bytes[4..8] == bytes[..9][4..8] == own[..9][4..8] == own[4..8] == Encode(r)[4..8];
    assert Encode(r)[4..8] == LE(|Payload(r)|, 4);
    Field(|Payload(r)|, 4);
  }
}
