/** The database object: writing one group and recovering the log at open (src/db.cc, writeGroup and
    recover), proved against the states of Store. */
module Db {
  import opened Words
  import opened Bytes
  import opened WalFormat
  import opened WalTheorems
  import opened WalEncoder
  import opened WalDecoder
  import opened TableModel
  import MemTable
  import opened Store
  import opened StoreRuns
  import Ring

  const IOV_MAX: nat := 1024

  /** What became of a linked write and sync.  What the device did: `landed` bytes reached the file, and they
      are synced or not.  What the executor was told: whether the pair was submitted, and the two results. */
  datatype IoOutcome = IoOutcome(landed: nat, synced: bool, submitFailed: bool, writeResult: int, syncResult: int) {
    /** The kernel keeps its word.  A pair that was not submitted does nothing.  A write that reports all its
        bytes landed them all.  The sync runs only behind such a write, and reports no error exactly if the
        file is synced. */
    predicate Plausible(size: nat) {
      && landed <= size
      && (submitFailed ==> landed == 0)
      && (!submitFailed && writeResult == size ==> landed == size)
      && (synced <==> !submitFailed && writeResult == size && syncResult >= 0)
    }
  }

  lemma FileCovers(hash: Key -> nat, s: Store)
    requires Inv(hash, s)
    ensures s.walOffset <= |s.file|
  {
    InvFile(hash, s);
  }

  lemma FlattenOne(batch: Batch)
    ensures Flatten([batch]) == batch
  {
    assert Flatten([batch]) == batch + Flatten([]);
  }

  class Db {
    var file: seq<Byte>
    var walOffset: nat
    var nextSequence: nat
    const memtable: MemTable.MemTable
    const walRecord: EncodedBatchFragments
    const memtableUpdates: array<seq<Update>>
    const hasHardwareCrc32c: bool
    ghost var durable: nat
    ghost var log: seq<LogRecord>
    ghost var acked: nat
    ghost var attempt: seq<LogRecord>

    /** The database as a state of Store, between groups. */
    ghost function View(): Store
      reads this, memtable.shards
    {
      Store(file, durable, walOffset, nextSequence, memtable.shards[..], log, acked, attempt, Idle)
    }

    ghost predicate Valid()
      reads this, memtable, memtable.shards, memtableUpdates
    {
      && memtable.Valid() && memtable.contents == Replay(log)
      && MemTable.ScratchEmpty(memtableUpdates)
      && Inv(memtable.hash, View())
    }

    /** A database before recovery has run. */
    constructor (file: seq<Byte>, hash: Key -> nat, hasHardwareCrc32c: bool, ghost durable: nat)
      ensures this.file == file && this.durable == durable && walOffset == 0 && nextSequence == 1 && log == []
      ensures memtable.Valid() && memtable.contents == map[] && memtable.hash == hash
      ensures MemTable.ScratchEmpty(memtableUpdates)
      ensures fresh(memtable) && fresh(memtable.shards) && fresh(memtableUpdates) && fresh(walRecord)
    {
      this.file, this.durable, this.hasHardwareCrc32c := file, durable, hasHardwareCrc32c;
      walOffset, nextSequence, log, acked, attempt := 0, 1, [], 0, [];
      memtable := new MemTable.MemTable(hash);
      walRecord := new EncodedBatchFragments();
      memtableUpdates := new seq<Update>[SHARD_COUNT](_ => []);
    }

    /** Encode the group, as fragments or, when the kernel would not take so many, as one record; `bytes` is
        what the kernel gathers. */
    method EncodeGroup(batches: seq<Batch>) returns (bytes: seq<Byte>)
      requires |Flatten(batches)| < U32
      modifies walRecord
      ensures bytes == Encode(LogRecord(nextSequence, Flatten(batches))) && walRecord.size == |bytes|
      ensures AllWithin(walRecord.iovecs, 0, |walRecord.fixed|) && walRecord.Gathered() == bytes
      ensures var pieces := 1 + Pieces(Flatten(batches));
              |walRecord.iovecs| == if pieces <= 1024 then pieces else 1
    {
      hide Encode, Flatten, Gather, Pieces;
      walRecord.EncodeBatchFragmentsInto(nextSequence, batches);
      if |walRecord.iovecs| > IOV_MAX {
        var fallbackRecord := EncodeBatchInto(nextSequence, batches, hasHardwareCrc32c);
        walRecord.iovecs := [External(fallbackRecord)];
        walRecord.size := |fallbackRecord|;
        GatherOne(walRecord.fixed, External(fallbackRecord));
      }
      bytes := walRecord.Gathered();
    }

    /** The group as one record at walOffset, written and synced by a linked pair of requests: success is
        reported exactly if the device has synced all of it. */
    method WriteLog(batches: seq<Batch>, io: IoOutcome) returns (ok: bool)
      requires Fits(LogRecord(nextSequence, Flatten(batches))) && walOffset <= |file|
      requires io.Plausible(|Encode(LogRecord(nextSequence, Flatten(batches)))|)
      modifies `file, `durable, `attempt, walRecord
      ensures var r := LogRecord(nextSequence, Flatten(batches));
              && attempt == [r]
              && walRecord.size == |Encode(r)|
              && (ok <==> io.synced)
              && file == Overwrite(old(file), walOffset, if ok then Encode(r) else Encode(r)[..io.landed])
              && durable == if ok then |file| else DurableAfterWrite(old(View()), io.landed)
    {
      hide Encode, Flatten;
      ghost var r := LogRecord(nextSequence, Flatten(batches));
      EntryCountFits(nextSequence, r.entries);
      var bytes := EncodeGroup(batches);
      file := Overwrite(file, walOffset, bytes[..io.landed]);
      durable := if io.synced then |file| else DurableAfterWrite(old(View()), io.landed);
      attempt := [r];
      assert bytes[..|bytes|] == bytes;
      ok := Ring.WriteAndSyncOk(io.submitFailed, io.writeResult, io.syncResult, walRecord.size);
    }

    /** writeGroup.  A group that succeeds takes the database to Committed; one that fails leaves only bytes
        past walOffset behind. */
    method WriteGroup(batches: seq<Batch>, io: IoOutcome) returns (ok: bool)
      requires Valid() && Enabled(View(), Begin(Flatten(batches)))
      requires io.Plausible(|Encode(LogRecord(nextSequence, Flatten(batches)))|)
      modifies this, memtable, memtable.shards, walRecord, memtableUpdates
      ensures Valid()
      ensures ok <==> io.synced
      ensures old(View()).walOffset <= |old(View()).file|
      ensures View() == if ok then Committed(memtable.hash, old(View()), Flatten(batches))
                        else Failed(old(View()), Flatten(batches), io.landed)
    {
      hide Inv, Encode, Flatten, Cut, Replay, Overwrite, Fits, Apply, DurableAfterWrite;
      ghost var r := LogRecord(nextSequence, Flatten(batches));
      CommittedKeepsInv(memtable.hash, View(), r.entries);
      FailedKeepsInv(memtable.hash, View(), r.entries, io.landed);
      var entryCount := GroupEntryCount(batches);
      var baseSequence := nextSequence;
      ok := WriteLog(batches, io);
      if !ok {
        return;
      }
      memtable.ApplyBatches(batches, baseSequence, memtableUpdates);
      ReplaySnoc(log, r);
      walOffset := walOffset + walRecord.size;
      nextSequence := nextSequence + entryCount;
      log, acked, attempt := log + [r], |log| + 1, [];
    }

    /** The loop of recover over the decoded records. */
    method ReplayRecords(records: seq<LogRecord>) returns (maxSequence: nat)
      requires memtable.Valid() && memtable.contents == map[] && MemTable.ScratchEmpty(memtableUpdates)
      modifies memtable, memtable.shards, memtableUpdates
      ensures memtable.Valid() && MemTable.ScratchEmpty(memtableUpdates)
      ensures memtable.contents == Replay(records) && maxSequence == MaxEnd(records)
    {
      hide Cut, Replay, MaxEnd, Apply, Flatten;
      maxSequence := 0;
      NothingReplayed();
      for i := 0 to |records|
        invariant memtable.Valid() && MemTable.ScratchEmpty(memtableUpdates)
        invariant memtable.contents == Replay(records[..i]) && maxSequence == MaxEnd(records[..i])
      {
        var record := records[i];
        memtable.ApplyBatches([record.entries], record.base, memtableUpdates);
        FlattenOne(record.entries);
        ReplaySnoc(records[..i], record);
        MaxEndSnoc(records[..i], record);
        assert records[..i + 1] == records[..i] + [record];
        var end := (record.base + |record.entries|) % U64;
        maxSequence := if maxSequence < end then end else maxSequence;
      }
      assert records[..|records|] == records;
    }

    /** recover.  Opening fails exactly when the scan of the file does; otherwise the database is the one
        that Open describes. */
    method Recover() returns (corrupt: bool)
      requires memtable.Valid() && memtable.contents == map[] && MemTable.ScratchEmpty(memtableUpdates)
      requires nextSequence == 1 && durable <= |file|
      modifies this, memtable, memtable.shards, memtableUpdates
      ensures corrupt <==> Scan(old(file)).Corruption?
      ensures !corrupt ==> log == Scan(old(file)).log
      ensures !corrupt ==> View() == Open(memtable.hash, old(file), old(durable))
      ensures !corrupt ==> memtable.Valid() && memtable.contents == Replay(log) && MemTable.ScratchEmpty(memtableUpdates)
    {
      hide Scan, Cut, Replay, WholeRecords, MaxEnd;
      walOffset := |file|;
      log, acked, attempt := [], 0, [];
      NothingReplayed();
      if walOffset == 0 {
        ScanOfEmpty();
        return false;
      }
      var decoded := DecodeLog(file, hasHardwareCrc32c);
      if decoded.Corruption? {
        return true;
      }
      ScanIsStable(file);
      var records := decoded.log;
      var maxSequence := ReplayRecords(records);
      var next := (maxSequence + 1) % U64;
      nextSequence := if next < nextSequence then nextSequence else next;
      walOffset := decoded.validBytes;
      if walOffset != |file| {
        durable := walOffset;
      }
      file := file[..walOffset];
      log, acked := records, WholeRecords(records, durable);
      return false;
    }
  }

  method GroupEntryCount(batches: seq<Batch>) returns (entryCount: nat)
    ensures entryCount == |Flatten(batches)|
  {
    entryCount := 0;
    for i := 0 to |batches|
      invariant entryCount == |Flatten(batches[..i])|
    {
      FlattenSnoc(batches, i);
      entryCount := entryCount + |batches[i]|;
    }
    assert batches[..|batches|] == batches;
  }

  lemma EntryCountFits(base: nat, entries: seq<Entry>)
    requires Fits(LogRecord(base, entries))
    ensures |entries| < U32
  {
    EntriesAreLong(entries);
  }

  lemma NothingReplayed()
    ensures Replay([]) == map[] && MaxEnd([]) == 0 && forall n: nat :: WholeRecords([], n) == 0
  {}

  lemma MaxEndSnoc(log: seq<LogRecord>, r: LogRecord)
    ensures var end := (r.base + |r.entries|) % U64;
            MaxEnd(log + [r]) == if MaxEnd(log) < end then end else MaxEnd(log)
  {
    assert (log + [r])[..|log|] == log;
  }

  /** A process dies or power is lost, and a new process opens what is left of the file.  Whether it opens is
      decided by the bytes past the log.  If it opens, the acknowledged groups are in the log where they
      were.  If the crash was safe it opens, and all the guarantees hold of the new database. */
  method Restart(db: Db, kept: nat, power: bool) returns (next: Db, corrupt: bool)
    requires db.Valid() && db.durable <= kept <= |db.file| && (power || kept == |db.file|)
    ensures fresh(next) && next.memtable.hash == db.memtable.hash
    ensures corrupt <==> db.walOffset < kept && !Harmless(db.file[db.walOffset..kept])
    ensures !corrupt ==> db.acked <= |db.log| && db.log[..db.acked] <= next.log
    ensures Safe(db.View(), kept) ==>
              && !corrupt && next.Valid() && Clean(next.View())
              && KeepsAcked(db.View(), next.View()) && next.log <= db.log + db.attempt
  {
    hide Inv, Clean, Scan, Open, Safe, Harmless, WholeRecords;
    RestartOpens(db.memtable.hash, db.View(), kept, power);
    next := new Db(db.file[..kept], db.memtable.hash, db.hasHardwareCrc32c, if power then kept else db.durable);
    corrupt := next.Recover();
  }

  lemma RestartOpens(hash: Key -> nat, s: Store, kept: nat, power: bool)
    requires Inv(hash, s) && s.durable <= kept <= |s.file| && (power || kept == |s.file|)
    ensures s.walOffset <= |s.file| && s.acked <= |s.log|
    ensures var scan := Scan(s.file[..kept]);
            && (scan.Scanned? <==> kept <= s.walOffset || Harmless(s.file[s.walOffset..kept]))
            && (scan.Scanned? ==> s.log[..s.acked] <= scan.log)
    ensures Safe(s, kept) ==> Scan(s.file[..kept]).Scanned?
    ensures Safe(s, kept) ==>
              var s' := Open(hash, s.file[..kept], if power then kept else s.durable);
              Inv(hash, s') && Clean(s') && KeepsAcked(s, s') && s'.log <= s.log + s.attempt
  {
    hide Inv, Clean, Scan, Open, Harmless, WholeRecords, EncodeLog, AllFit, Genuine, Survivor;
    InvFile(hash, s);
    if s.walOffset <= kept {
      ScanAfterCrash(s, kept);
      ScansIffHarmless(s.file[s.walOffset..kept]);
    } else {
      assert s.log[..s.acked] <= Scan(s.file[..kept]).log by {
        AckedInside(hash, s, kept);
      }
    }
    if Safe(s, kept) {
      SafeCrashRecovers(hash, s, kept, power);
    }
  }

  lemma AckedInside(hash: Key -> nat, s: Store, kept: nat)
    requires Inv(hash, s) && s.durable <= kept <= s.walOffset <= |s.file|
    ensures s.acked <= |s.log|
    ensures Scan(s.file[..kept]).Scanned? && s.log[..s.acked] <= Scan(s.file[..kept]).log
  {
    hide Scan, EncodeLog, WholeRecords, SequenceInv, AttemptInv, PhaseInv, TableInv, AllFit;
    CrashInsideLog(hash, s, kept, kept);
    WholeRecordsIsMaximal(s.log, kept, s.acked);
  }
}
