/** Runs that show where the guarantees of StoreRuns end (src/db.cc). */
module StoreExamples {
  import opened Words
  import opened Bytes
  import opened Crc32c
  import opened WalFormat
  import opened WalTheorems
  import opened TableModel
  import opened Store
  import opened StoreRuns

  predicate AllZero(bytes: seq<Byte>) {
    forall i :: 0 <= i < |bytes| ==> bytes[i] == 0
  }

  lemma {:induction false} FromLEOfZeros(bytes: seq<Byte>)
    requires AllZero(bytes)
    ensures FromLE(bytes) == 0
  {
    if bytes != [] {
      FromLEOfZeros(bytes[1..]);
    }
  }

  /** Zero bytes, enough for a header, read as a record of unknown type. */
  lemma ZerosAreCorrupt(tail: seq<Byte>)
    requires |tail| >= RECORD_HEADER_SIZE && AllZero(tail)
    ensures Scan(tail) == Corruption(UnknownRecordType)
  {
    hide FromLE, Crc32C;
    FromLEOfZeros(tail[4..8]);
    assert tail[8] == 0;
  }

  lemma SizeOfOne(base: nat, e: Entry)
    ensures |Encode(LogRecord(base, [e]))| == 30 + |e.key| + |e.Value()|
    ensures Encode(LogRecord(base, [e]))[30 + |e.key|..] == e.Value()
  {
    hide LE, Crc32C;
    assert [e][1..] == [];
    assert EncodeEntries([e]) == EncodeEntry(e) + [];
  }

  lemma CanBeginOne(hash: Key -> nat, s: Store, e: Entry)
    requires s.phase.Idle? && s.nextSequence == 1 && 30 + |e.key| + |e.Value()| < U32
    ensures Enabled(s, Begin([e]))
  {
    SizeOfOne(1, e);
    hide Encode, Payload;
    assert |Encode(LogRecord(1, [e]))| == RECORD_HEADER_SIZE + |Payload(LogRecord(1, [e]))| by {
      EncodedSize(LogRecord(1, [e]));
    }
  }

  lemma EncodedSize(r: LogRecord)
    ensures |Encode(r)| == RECORD_HEADER_SIZE + |Payload(r)|
  {}

  /** The database after a put to the empty key has failed with all its bytes landed. */
  function AfterFailure(hash: Key -> nat, put: Entry): Store
    requires put.key == []
  {
    SizeOfOne(1, put);
    Failed(Fresh(hash), [put], 30 + |put.Value()|)
  }

  lemma FailureLeavesBytes(hash: Key -> nat, put: Entry)
    requires put.key == []
    ensures var s := AfterFailure(hash, put);
            && s.file == Encode(LogRecord(1, [put]))
            && s.walOffset == 0 && s.nextSequence == 1 && s.log == [] && s.phase == Idle
  {
    hide Encode, Cut;
    var enc := Encode(LogRecord(1, [put]));
    SizeOfOne(1, put);
    assert enc[..|enc|] == enc && [] + enc == enc;
    assert Fresh(hash).file[..0] == [];
  }

  lemma FailureIsReached(hash: Key -> nat, put: Entry)
    requires put.key == [] && 30 + |put.Value()| < U32
    ensures Reaches(hash, Fresh(hash), FailSteps([put], 30 + |put.Value()|), AfterFailure(hash, put))
    ensures Inv(hash, AfterFailure(hash, put))
  {
    hide Encode, Inv, Cut, Enabled, Failed, Reaches;
    SizeOfOne(1, put);
    CanBeginOne(hash, Fresh(hash), put);
    FreshInv(hash);
    FailRun(hash, Fresh(hash), [put], 30 + |put.Value()|);
    FailedKeepsInv(hash, Fresh(hash), [put], 30 + |put.Value()|);
  }

  /** A put that fails after all its bytes have landed, then a delete that succeeds over it: the delete is
      acknowledged and durable, and behind it stands the value of the put. */
  lemma DeleteOverFailedPut(hash: Key -> nat, put: Entry)
    requires put.key == [] && 30 + |put.Value()| < U32
    ensures var s, r := AfterFailure(hash, put), LogRecord(1, [Delete([])]);
            && Reaches(hash, Fresh(hash), FailSteps([put], 30 + |put.Value()|), s)
            && s.walOffset <= |s.file|
            && var s' := Committed(hash, s, [Delete([])]);
               && Reaches(hash, s, CommitSteps(s, [Delete([])]), s')
               && Inv(hash, s') && s'.log == [r] && s'.acked == 1 && s'.durable == |s'.file|
               && s'.file == Encode(r) + put.Value()
               && Scan(s'.file) == Resume([r], |Encode(r)|, Scan(put.Value()))
  {
    hide Reaches, Scan, Inv, Enabled, Cut, Replay, Encode, AfterFailure, Harmless, Ignorable, Clean, EncodeLog;
    var s, delete := AfterFailure(hash, put), Delete([]);
    FailureIsReached(hash, put);
    FailureLeavesBytes(hash, put);
    CanBeginOne(hash, s, delete);
    CommitRun(hash, s, [delete]);
    CommittedKeepsInv(hash, s, [delete]);
    SizeOfOne(1, put);
    SizeOfOne(1, delete);
    assert [] + [LogRecord(1, [delete])] == [LogRecord(1, [delete])];
    CommitOverLeftovers(hash, s, [delete]);
    EncodeLogOfOne(LogRecord(1, [delete]));
    ValueIsLeft(s, put);
  }

  lemma ValueIsLeft(s: Store, put: Entry)
    requires put.key == [] && s.file == Encode(LogRecord(1, [put])) && s.walOffset == 0 && s.nextSequence == 1
    ensures Uncovered(s, [Delete([])]) == put.Value()
  {
    hide Encode;
    SizeOfOne(1, put);
    SizeOfOne(1, Delete([]));
  }

  /** With a value of zeros the file can no longer be opened. */
  lemma LeftoverBreaksRecovery(hash: Key -> nat, zeros: seq<Byte>)
    requires AllZero(zeros) && RECORD_HEADER_SIZE <= |zeros| && 30 + |zeros| < U32
    ensures var s := AfterFailure(hash, Put([], zeros));
            && Reaches(hash, Fresh(hash), FailSteps([Put([], zeros)], 30 + |zeros|), s)
            && s.walOffset <= |s.file|
            && var s' := Committed(hash, s, [Delete([])]);
               && Reaches(hash, s, CommitSteps(s, [Delete([])]), s')
               && s'.log == [LogRecord(1, [Delete([])])] && s'.acked == 1 && s'.durable == |s'.file|
               && Scan(s'.file) == Corruption(UnknownRecordType)
  {
    hide Reaches, Committed, Scan, Inv, AfterFailure, Encode, AllZero;
    DeleteOverFailedPut(hash, Put([], zeros));
    ZerosAreCorrupt(zeros);
  }

  /** With a value that reads as a record the file opens, with all of the log and that record as well, which
      nobody submitted; and the acknowledged delete is not what a reader sees. */
  lemma LeftoverIsReplayed(hash: Key -> nat, value: seq<Byte>)
    requires 60 + |value| < U32
    ensures var inner, r := LogRecord(2, [Put([], value)]), LogRecord(1, [Delete([])]);
            var put := Put([], Encode(inner));
            var s := AfterFailure(hash, put);
            && Reaches(hash, Fresh(hash), FailSteps([put], 30 + |put.data|), s)
            && s.walOffset <= |s.file|
            && var s' := Committed(hash, s, [Delete([])]);
               && Reaches(hash, s, CommitSteps(s, [Delete([])]), s')
               && s'.log == [r] && s'.acked == 1 && s'.durable == |s'.file|
               && Harmless(put.data) && Scan(s'.file) == Scanned([r, inner], |s'.file|)
               && Lookup(Replay([r]), []) == None && Lookup(Replay([r, inner]), []) == Some(value)
  {
    hide Reaches, Committed, Scan, Inv, AfterFailure, Encode, Replay, Harmless, EncodeLog, Payload;
    var inner, r := LogRecord(2, [Put([], value)]), LogRecord(1, [Delete([])]);
    SizeOfOne(2, Put([], value));
    EncodedSize(inner);
    DeleteOverFailedPut(hash, Put([], Encode(inner)));
    EncodeLogOfOne(inner);
    RoundTrip([inner]);
    ScansIffHarmless(Encode(inner));
    assert [r] + [inner] == [r, inner] && [] + [r] == [r];
    LookupLast([], 1, Delete([]));
    LookupLast([r], 2, Put([], value));
  }

  /** The last record decides what its key reads as. */
  lemma LookupLast(log: seq<LogRecord>, base: nat, e: Entry)
    ensures Lookup(Replay(log + [LogRecord(base, [e])]), e.key) == if e.Put? then Some(e.data) else None
  {
    var r := LogRecord(base, [e]);
    ReplaySnoc(log, r);
    hide Replay;
    var u := Update(e, base);
    assert [e][1..] == [] && Numbered([e], base) == [u] + [];
    ApplyAllSnoc(Replay(log), [], u);
    assert [] + [u] == [u];
    assert ApplyAll(Replay(log), []) == Replay(log);
  }

  /** A group whose writer dies between write and sync comes back when the database is opened again and is
      visible to readers, but a loss of power after that can still take it away. */
  lemma VisibleThenLost(hash: Key -> nat, e: Entry)
    requires |e.key| + |e.Value()| + 30 < U32
    ensures var r := LogRecord(1, [e]);
            var size := |Encode(r)|;
            var steps := [Begin([e]), Land(size), Crash(size, false)];
            && Legal(hash, Fresh(hash), steps)
            && var s := Exec(hash, Fresh(hash), steps);
               && s.log == [r] && |s.shards| == SHARD_COUNT
               && ShardedLookup(hash, s.shards, e.key) == (if e.Put? then Some(e.data) else None)
               && Enabled(s, Crash(0, true))
               && Do(hash, s, Crash(0, true)).log == []
  {
    hide Encode, Legal, Exec, Payload, Cut, Replay, Scan, Lookup;
    var r := LogRecord(1, [e]);
    SizeOfOne(1, e);
    CanBeginOne(hash, Fresh(hash), e);
    EncodedSize(r);
    var size, enc, s0 := |Encode(r)|, Encode(r), Fresh(hash);
    var s1 := Landed(s0, [e], size);
    assert enc[..size] == enc && [] + enc == enc && s1.file == enc;
    var s := DieUnsynced(hash, s1, r);
    OneStep(hash, s1, Crash(size, false));
    assert Enabled(s0, Begin([e]));
    LandedRun(hash, s0, [e], size, [Crash(size, false)]);
    assert [Begin([e]), Land(size)] + [Crash(size, false)] == [Begin([e]), Land(size), Crash(size, false)];
    ReplayOfOne(hash, r, e);
  }

  /** A process dies with one whole unsynced record in the file. */
  lemma DieUnsynced(hash: Key -> nat, s: Store, r: LogRecord) returns (s': Store)
    requires Fits(r) && s.file == Encode(r) && s.durable == 0
    ensures Enabled(s, Crash(|s.file|, false)) && s' == Do(hash, s, Crash(|s.file|, false))
    ensures s'.log == [r] && s'.shards == Cut(hash, Replay([r]), Replay([r]), 0)
    ensures Enabled(s', Crash(0, true)) && Do(hash, s', Crash(0, true)).log == []
  {
    hide Encode, Scan, Cut, Replay, Fits, NextAfter, WholeRecords;
    EncodeLogOfOne(r);
    RoundTrip([r]);
    assert s.file[..|s.file|] == s.file;
    s' := Do(hash, s, Crash(|s.file|, false));
    ScanOfEmpty();
    assert s'.file[..0] == [];
  }

  lemma ReplayOfOne(hash: Key -> nat, r: LogRecord, e: Entry)
    requires r == LogRecord(1, [e])
    ensures |Cut(hash, Replay([r]), Replay([r]), 0)| == SHARD_COUNT
    ensures ShardedLookup(hash, Cut(hash, Replay([r]), Replay([r]), 0), e.key) == (if e.Put? then Some(e.data) else None)
  {
    hide Replay;
    var t := Replay([r]);
    LookupLast([], 1, e);
    assert [] + [r] == [r];
    KeyIsAtomic(hash, t, t, 0, e.key);
  }
}
