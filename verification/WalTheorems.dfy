/** What scanning a log promises (src/wal.cc): it undoes encoding, cuts a torn log at the last whole
    record, is stable under the truncation that recovery performs, and never replays a payload that was
    changed inside a window of 32 bits. */
module WalTheorems {
  import opened Words
  import opened Bytes
  import opened Crc32c
  import opened WalFormat

  // --------------------------------------------------------------- round trip

  lemma Field(value: nat, width: nat)
    requires width == 4 || width == 8
    requires value < if width == 4 then U32 else U64
    ensures FromLE(LE(value, width)) == value
  {
    hide FromLE, LE, Range;
    RangeOfWords();
    FromLEOfLE(value, width);
  }

  lemma EntryHeaderFields(e: Entry, bytes: seq<Byte>)
    requires |e.key| < U32 && |e.Value()| < U32
    requires EncodeEntry(e) <= bytes
    ensures |bytes| >= ENTRY_HEADER_SIZE
    ensures bytes[0] == e.Type() && KeySize(bytes) == |e.key| && ValueSize(bytes) == |e.Value()|
  {
    hide FromLE, LE;
    assert EncodeEntry(e)[..9] == EntryHeader(e) == bytes[..9];
    assert bytes[1..5] == bytes[..9][1..5] == LE(|e.key|, 4);
    assert bytes[5..9] == bytes[..9][5..9] == LE(|e.Value()|, 4);
    assert bytes[0] == bytes[..9][0];
    Field(|e.key|, 4);
    Field(|e.Value()|, 4);
  }

  lemma ParseEntryUndoes(e: Entry, bytes: seq<Byte>)
    requires |e.key| < U32 && |e.Value()| < U32
    requires EncodeEntry(e) <= bytes
    ensures ParseEntry(bytes) == Good((e, |EncodeEntry(e)|))
  {
    hide FromLE, LE, KeySize, ValueSize;
    EntryHeaderFields(e, bytes);
    var valueAt := ENTRY_HEADER_SIZE + |e.key|;
    var end := valueAt + |e.Value()|;
    var own := EncodeEntry(e);
    assert |own| == end && bytes[..end] == own;
    assert bytes[ENTRY_HEADER_SIZE..valueAt] == own[ENTRY_HEADER_SIZE..valueAt] == e.key;
    assert bytes[valueAt..end] == own[valueAt..end] == e.Value();
  }

  lemma {:induction false} ParseEntriesUndoes(entries: seq<Entry>, rest: seq<Byte>)
    requires |EncodeEntries(entries)| < U32
    ensures ParseEntries(EncodeEntries(entries) + rest, |entries|) == Good(entries)
  {
    if entries == [] {
    } else {
      var e, others := entries[0], entries[1..];
      var bytes := EncodeEntries(entries) + rest;
      assert bytes == EncodeEntry(e) + (EncodeEntries(others) + rest);
      ParseEntryUndoes(e, bytes);
      assert bytes[|EncodeEntry(e)|..] == EncodeEntries(others) + rest;
      ParseEntriesUndoes(others, rest);
      assert entries == [e] + others;
    }
  }

  lemma ParsePayloadUndoes(r: LogRecord)
    requires Fits(r)
    ensures ParsePayload(Payload(r)) == Good(r)
  {
    hide FromLE, LE;
    var payload := Payload(r);
    EntriesAreLong(r.entries);
    assert payload[..8] == LE(r.base, 8);
    assert payload[8..12] == LE(|r.entries|, 4);
    assert payload[12..] == EncodeEntries(r.entries) + [];
    Field(r.base, 8);
    Field(|r.entries|, 4);
    ParseEntriesUndoes(r.entries, []);
  }

  lemma FramedFields(payload: seq<Byte>, bytes: seq<Byte>)
    requires |payload| < U32 && Framed(payload)[..RECORD_HEADER_SIZE] <= bytes
    ensures |bytes| >= RECORD_HEADER_SIZE && bytes[8] == BATCH_RECORD
    ensures FromLE(bytes[..4]) == Crc32C(payload) && ClaimedLength(bytes) == |payload|
  {
    hide FromLE, LE, Crc32C;
    var header := RecordHeader(Crc32C(payload), |payload|);
    assert header == bytes[..9];
    assert bytes[..4] == header[..4] == LE(Crc32C(payload), 4);
    assert bytes[4..8] == header[4..8] == LE(|payload|, 4);
    assert bytes[8] == header[8];
    Field(Crc32C(payload), 4);
    Field(|payload|, 4);
  }

  /** A whole encoded record in front of anything is read back as itself. */
  lemma FrontUndoes(r: LogRecord, rest: seq<Byte>)
    requires Fits(r)
    ensures ReadFront(Encode(r) + rest) == Whole(r, |Encode(r)|)
  {
    hide FromLE, LE, Crc32C, ClaimedLength, Payload, ParsePayload;
    var payload := Payload(r);
    var bytes := Encode(r) + rest;
    assert Framed(payload)[..RECORD_HEADER_SIZE] <= bytes;
    FramedFields(payload, bytes);
    assert bytes[RECORD_HEADER_SIZE..|Encode(r)|] == payload;
    ParsePayloadUndoes(r);
  }

  lemma ScanOne(r: LogRecord, rest: seq<Byte>)
    requires Fits(r)
    ensures Scan(Encode(r) + rest) == Resume([r], |Encode(r)|, Scan(rest))
  {
    hide Encode, ReadFront;
    FrontUndoes(r, rest);
    assert (Encode(r) + rest)[|Encode(r)|..] == rest;
  }

  /** Scanning past a well-formed log goes on with what follows it. */
  lemma {:induction false} ScanPast(log: seq<LogRecord>, rest: seq<Byte>)
    requires AllFit(log)
    ensures Scan(EncodeLog(log) + rest) == Resume(log, |EncodeLog(log)|, Scan(rest))
  {
    hide Encode, ReadFront;
    if log == [] {
      assert EncodeLog(log) + rest == rest;
      assert Scan(rest).Scanned? ==> [] + Scan(rest).log == Scan(rest).log;
    } else {
      var bytes := EncodeLog(log) + rest;
      var others := EncodeLog(log[1..]) + rest;
      assert bytes == Encode(log[0]) + others;
      FrontUndoes(log[0], others);
      assert bytes[|Encode(log[0])|..] == others;
      ScanPast(log[1..], rest);
      assert Scan(bytes) == Resume([log[0]], |Encode(log[0])|, Scan(others));
      ResumeTwice([log[0]], |Encode(log[0])|, log[1..], |EncodeLog(log[1..])|, Scan(rest));
      assert log == [log[0]] + log[1..];
    }
  }

  lemma ScanStops(bytes: seq<Byte>)
    requires ReadFront(bytes) == Stop
    ensures Scan(bytes) == Scanned([], 0)
  {}

  /** Decoding any concatenation of encoded groups gives the groups back, all bytes valid. */
  lemma RoundTrip(log: seq<LogRecord>)
    requires AllFit(log)
    ensures Scan(EncodeLog(log)) == Scanned(log, |EncodeLog(log)|)
  {
    hide Scan, EncodeLog;
    ScanPast(log, []);
    assert EncodeLog(log) + [] == EncodeLog(log);
    ScanOfEmpty();
  }

  // ---------------------------------------------------------------- torn logs

  /** A proper byte prefix of a record is never taken for a record, nor for corruption. */
  lemma TornRecord(r: LogRecord, n: nat)
    requires Fits(r) && n < |Encode(r)|
    ensures ReadFront(Encode(r)[..n]) == Stop
  {
    var bytes := Encode(r)[..n];
    if n >= RECORD_HEADER_SIZE {
      hide FromLE, LE, Crc32C, ClaimedLength;
      FramedFields(Payload(r), bytes);
    }
  }

  /** How many records lie wholly within the first n bytes. */
  function WholeRecords(log: seq<LogRecord>, n: nat): (k: nat)
    ensures k <= |log|
  {
    if log == [] || |Encode(log[0])| > n then 0 else 1 + WholeRecords(log[1..], n - |Encode(log[0])|)
  }

  lemma {:induction false} WholeRecordsIsMaximal(log: seq<LogRecord>, n: nat, k: nat)
    requires k <= |log|
    ensures |EncodeLog(log[..k])| <= n <==> k <= WholeRecords(log, n)
  {
    if k > 0 {
      assert log[..k][1..] == log[1..][..k - 1];
      if |Encode(log[0])| <= n {
        WholeRecordsIsMaximal(log[1..], n - |Encode(log[0])|, k - 1);
      }
    }
  }

  /** Decoding any byte prefix of a log gives exactly the records it wholly contains. */
  lemma {:induction false} TornLog(log: seq<LogRecord>, n: nat)
    requires AllFit(log) && n <= |EncodeLog(log)|
    ensures var k := WholeRecords(log, n);
            Scan(EncodeLog(log)[..n]) == Scanned(log[..k], |EncodeLog(log[..k])|)
    decreases |log|
  {
    hide Encode, ReadFront, Scan, Fits;
    var bytes := EncodeLog(log)[..n];
    if log == [] {
      ScanOfEmpty();
    } else if |Encode(log[0])| > n {
      assert bytes == Encode(log[0])[..n];
      TornRecord(log[0], n);
      ScanStops(bytes);
    } else {
      var first, others := Encode(log[0]), log[1..];
      var rest := EncodeLog(others)[..n - |first|];
      assert bytes == first + rest;
      ScanOne(log[0], rest);
      TornLog(others, n - |first|);
      var k := WholeRecords(others, n - |first|);
      assert log[..1 + k] == [log[0]] + others[..k];
      assert log[..1 + k][1..] == others[..k];
    }
  }

  // ------------------------------------------------- stability of truncation

  /** Reading the front of a byte string looks no further than the record it finds. */
  lemma FrontIsLocal(bytes: seq<Byte>, m: nat)
    requires ReadFront(bytes).Whole? && ReadFront(bytes).size <= m <= |bytes|
    ensures ReadFront(bytes[..m]) == ReadFront(bytes)
  {
    hide FromLE, Crc32C, ParsePayload;
    var end := RECORD_HEADER_SIZE + ClaimedLength(bytes);
    var cut := bytes[..m];
    assert cut[4..8] == bytes[4..8] && cut[..4] == bytes[..4] && cut[8] == bytes[8];
    assert cut[RECORD_HEADER_SIZE..end] == bytes[RECORD_HEADER_SIZE..end];
  }

  /** On every byte string: what a scan calls valid is within the input, and scanning just that part
      again gives the same records and calls all of it valid. */
  lemma {:induction false} ScanIsStable(bytes: seq<Byte>)
    requires Scan(bytes).Scanned?
    ensures Scan(bytes).validBytes <= |bytes|
    ensures Scan(bytes[..Scan(bytes).validBytes]) == Scan(bytes)
    decreases |bytes|
  {
    hide ReadFront;
    var front := ReadFront(bytes);
    if front.Stop? {
      ScanStops(bytes);
      ScanOfEmpty();
      assert bytes[..0] == [];
    } else {
      var size, rest := front.size, bytes[front.size..];
      ScanIsStable(rest);
      var v := Scan(rest).validBytes;
      var cut := bytes[..size + v];
      FrontIsLocal(bytes, size + v);
      assert cut[size..] == rest[..v];
    }
  }

  // ------------------------------------------------------ leftovers past a log

  /** A tail that a scan passes over: too short for a header, shorter than it claims, or a last record
      whose checksum does not match. */
  predicate Ignorable(tail: seq<Byte>) {
    || |tail| < RECORD_HEADER_SIZE
    || RECORD_HEADER_SIZE + ClaimedLength(tail) > |tail|
    || (&& RECORD_HEADER_SIZE + ClaimedLength(tail) == |tail|
        && tail[8] == BATCH_RECORD
        && Crc32C(tail[RECORD_HEADER_SIZE..]) != FromLE(tail[..4]))
  }

  /** Whatever bytes follow a well-formed log, a scan returns exactly that log if and only if they are
      ignorable. */
  lemma ExactIffIgnorable(log: seq<LogRecord>, tail: seq<Byte>)
    requires AllFit(log)
    ensures Scan(EncodeLog(log) + tail) == Scanned(log, |EncodeLog(log)|) <==> Ignorable(tail)
  {
    hide Crc32C, FromLE;
    ScanPast(log, tail);
    if RECORD_HEADER_SIZE <= |tail| && RECORD_HEADER_SIZE + ClaimedLength(tail) <= |tail| {
      var end := RECORD_HEADER_SIZE + ClaimedLength(tail);
      if end == |tail| {
        assert tail[RECORD_HEADER_SIZE..end] == tail[RECORD_HEADER_SIZE..];
      }
    }
    assert log + [] == log;
  }

  /** A tail that a scan gets through, guard by guard: nothing to read, or a last record whose checksum does
      not match, or a record that parses and a harmless rest. */
  predicate Harmless(tail: seq<Byte>)
    decreases |tail|
  {
    || |tail| < RECORD_HEADER_SIZE
    || RECORD_HEADER_SIZE + ClaimedLength(tail) > |tail|
    || (&& tail[8] == BATCH_RECORD
        && var end := RECORD_HEADER_SIZE + ClaimedLength(tail);
           var payload := tail[RECORD_HEADER_SIZE..end];
           if Crc32C(payload) != FromLE(tail[..4]) then end == |tail|
           else ParsePayload(payload).Good? && Harmless(tail[end..]))
  }

  lemma {:induction false} ScansIffHarmless(tail: seq<Byte>)
    ensures Scan(tail).Scanned? <==> Harmless(tail)
    decreases |tail|
  {
    hide Crc32C, FromLE, ParsePayload;
    var front := ReadFront(tail);
    if front.Whole? {
      ScansIffHarmless(tail[front.size..]);
    }
  }

  // ---------------------------------------------------------- burst detection

  /** The log `before`, then a record framed for `payload` but carrying `altered`, then `after`. */
  function Altered(before: seq<LogRecord>, payload: seq<Byte>, altered: seq<Byte>, after: seq<LogRecord>): seq<Byte>
  {
    EncodeLog(before) + (Framed(payload)[..RECORD_HEADER_SIZE] + altered + EncodeLog(after))
  }

  /** A record whose payload was changed inside 32 consecutive bits is never replayed.  If records follow
      it, the log is reported corrupt; if it is the last, the scan stops in front of it. */
  lemma AlteredPayload(before: seq<LogRecord>, r: LogRecord, altered: seq<Byte>, after: seq<LogRecord>, from: nat, to: nat)
    requires AllFit(before) && Fits(r)
    requires |altered| == |Payload(r)| && altered != Payload(r) && to - from <= 32
    requires DifferOnlyWithin(BitString(Payload(r)), BitString(altered), from, to)
    ensures Scan(Altered(before, Payload(r), altered, after)) ==
            if after == [] then Scanned(before, |EncodeLog(before)|) else Corruption(ChecksumMismatch)
  {
    hide FromLE, LE, Crc32C, BitString, ClaimedLength, Payload, ParsePayload, DifferOnlyWithin;
    var payload := Payload(r);
    BurstDetected(payload, altered, from, to);
    var bytes := Framed(payload)[..RECORD_HEADER_SIZE] + altered + EncodeLog(after);
    FramedFields(payload, bytes);
    var end := RECORD_HEADER_SIZE + |payload|;
    assert bytes[RECORD_HEADER_SIZE..end] == altered;
    if after == [] {
      assert |bytes| == end;
      assert ReadFront(bytes) == Stop;
    } else {
      assert |EncodeLog(after)| >= |Encode(after[0])| > 0;
      assert ReadFront(bytes) == Broken(ChecksumMismatch);
    }
    assert Scan(bytes) == if after == [] then Scanned([], 0) else Corruption(ChecksumMismatch);
    hide Scan, ReadFront, EncodeLog;
    ScanPast(before, bytes);
    assert before + [] == before;
  }
}
