/** The recovery scanner (src/wal.cc, DecodeLog), loop by loop as written, proved to compute Scan on every
    byte string. */
module WalDecoder {
  import opened Bytes
  import opened Crc32c
  import opened WalFormat

  lemma PrependTwice<T>(a: seq<T>, b: seq<T>, rest: Parsed<seq<T>>)
    ensures Prepend(a, Prepend(b, rest)) == Prepend(a + b, rest)
  {
    if rest.Good? {
      assert a + (b + rest.value) == (a + b) + rest.value;
    }
  }

  lemma PrependNothing<T>(rest: Parsed<seq<T>>)
    ensures Prepend([], rest) == rest
  {
    if rest.Good? {
      assert [] + rest.value == rest.value;
    }
  }

  /** One pass of the entry loop. */
  method DecodeEntry(payload: seq<Byte>, payloadOffset: nat) returns (entry: Parsed<Entry>, next: nat)
    requires payloadOffset <= |payload|
    ensures payloadOffset <= next <= |payload|
    ensures ParseEntry(payload[payloadOffset..]) ==
            if entry.Good? then Good((entry.value, next - payloadOffset)) else Bad(entry.error)
  {
    hide FromLE;
    next := payloadOffset;
    ghost var rest := payload[payloadOffset..];
    if next >= |payload| {
      return Bad(TruncatedEntry), next;
    }
    var typeByte := payload[next];
    next := next + 1;
    var ok, keySize: nat, valueSize: nat;
    ok, keySize, next := ReadFixedLE(payload, next, 4);
    if !ok {
      return Bad(InvalidEntry), next;
    }
    assert payload[payloadOffset + 1..payloadOffset + 5] == rest[1..5];
    ok, valueSize, next := ReadFixedLE(payload, next, 4);
    if !ok {
      return Bad(InvalidEntry), payloadOffset;
    }
    assert payload[payloadOffset + 5..payloadOffset + 9] == rest[5..9];
    if next + keySize + valueSize > |payload| {
      return Bad(TruncatedPayload), next;
    }
    var key := payload[next..next + keySize];
    next := next + keySize;
    var value := payload[next..next + valueSize];
    next := next + valueSize;
    assert key == rest[9..9 + keySize];
    assert value == rest[9 + keySize..9 + keySize + valueSize];
    if typeByte == 1 {
      entry := Good(Put(key, value));
    } else if typeByte == 2 {
      entry := Good(Delete(key));
    } else {
      entry := Bad(UnknownEntryType);
    }
  }

  method DecodePayload(payload: seq<Byte>) returns (decoded: Parsed<LogRecord>)
    ensures decoded == ParsePayload(payload)
  {
    hide FromLE, ParseEntry;
    var ok, base: nat, entryCount: nat, payloadOffset: nat;
    ok, base, payloadOffset := ReadFixedLE(payload, 0, 8);
    if ok {
      ok, entryCount, payloadOffset := ReadFixedLE(payload, payloadOffset, 4);
    }
    if !ok {
      return Bad(InvalidBatchHeader);
    }
    assert payload[0..8] == payload[..8];
    var entries: seq<Entry> := [];
    PrependNothing(ParseEntries(payload[BATCH_HEADER_SIZE..], entryCount));
    var i := 0;
    while i < entryCount
      invariant 0 <= i <= entryCount && payloadOffset <= |payload|
      invariant ParseEntries(payload[BATCH_HEADER_SIZE..], entryCount) ==
                Prepend(entries, ParseEntries(payload[payloadOffset..], entryCount - i))
    {
      var entry, next := DecodeEntry(payload, payloadOffset);
      if entry.Bad? {
        return Bad(entry.error);
      }
      assert payload[payloadOffset..][next - payloadOffset..] == payload[next..];
      PrependTwice(entries, [entry.value], ParseEntries(payload[next..], entryCount - i - 1));
      entries := entries + [entry.value];
      payloadOffset := next;
      i := i + 1;
    }
    assert entries + [] == entries;
    decoded := Good(LogRecord(base, entries));
  }

  /** One pass of the record loop: what stands at `offset`. */
  method DecodeRecord(bytes: seq<Byte>, recordOffset: nat, hasHardwareCrc32c: bool) returns (front: Front)
    requires recordOffset < |bytes|
    ensures front == ReadFront(bytes[recordOffset..])
  {
    hide FromLE, Crc32C, ParsePayload;
    ghost var rest := bytes[recordOffset..];
    var ok, expectedCrc: nat, length: nat, offset: nat;
    ok, expectedCrc, offset := ReadFixedLE(bytes, recordOffset, 4);
    if ok {
      ok, length, offset := ReadFixedLE(bytes, offset, 4);
    }
    if !ok {
      return Stop;
    }
    if offset >= |bytes| {
      return Stop;
    }
    assert bytes[recordOffset..recordOffset + 4] == rest[..4];
    assert bytes[recordOffset + 4..recordOffset + 8] == rest[4..8];
    var type_ := bytes[offset];
    offset := offset + 1;
    if offset + length > |bytes| {
      return Stop;
    }
    if type_ != BATCH_RECORD {
      return Broken(UnknownRecordType);
    }
    var payload := bytes[offset..offset + length];
    assert payload == rest[RECORD_HEADER_SIZE..RECORD_HEADER_SIZE + length];
    var crc := ComputeCrc32C(payload, hasHardwareCrc32c);
    if crc != expectedCrc {
      if recordOffset + 9 + length >= |bytes| {
        return Stop;
      }
      return Broken(ChecksumMismatch);
    }
    var decoded := DecodePayload(payload);
    if decoded.Bad? {
      return Broken(decoded.error);
    }
    return Whole(decoded.value, RECORD_HEADER_SIZE + length);
  }

  method DecodeLog(bytes: seq<Byte>, hasHardwareCrc32c: bool) returns (result: ScanResult)
    ensures result == Scan(bytes)
  {
    hide ReadFront;
    var log: seq<LogRecord> := [];
    var validBytes, offset: nat := 0, 0;
    assert bytes[0..] == bytes;
    while offset < |bytes|
      invariant offset == validBytes <= |bytes|
      invariant Scan(bytes) == Resume(log, validBytes, Scan(bytes[offset..]))
      decreases |bytes| - offset
    {
      var front := DecodeRecord(bytes, offset, hasHardwareCrc32c);
      match front {
        case Stop =>
          break;
        case Broken(error) =>
          return Corruption(error);
        case Whole(record, size) =>
          assert bytes[offset..][size..] == bytes[offset + size..];
          ResumeTwice(log, validBytes, [record], size, Scan(bytes[offset + size..]));
          log := log + [record];
          offset := offset + size;
          validBytes := offset;
      }
    }
    if offset >= |bytes| {
      assert bytes[offset..] == [];
      ScanOfEmpty();
    }
    return Scanned(log, validBytes);
  }
}
