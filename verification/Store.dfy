/** One database over its log file: the steps of writing a group, of failing, of crashing and of opening
    again (src/db.cc, writeGroup and recover), and what every run of them keeps. */
module Store {
  import opened Words
  import opened Bytes
  import opened WalFormat
  import opened WalTheorems
  import opened TableModel

  /** Where the group in progress stands: its bytes are landing in the file, it is being applied to the
      shards one by one, or its status is known. */
  datatype Phase = Idle | Writing(landed: nat) | Applying(cut: nat) | Done(ok: bool)

  datatype Store = Store(
    /** The bytes of the log file as a reader of the file sees them. */
    file: seq<Byte>,
    /** How much of the file survives a loss of power for certain. */
    durable: nat,
    walOffset: nat,
    nextSequence: nat,
    shards: seq<Table>,
    /** The groups below walOffset: replayed at open or acknowledged since. */
    log: seq<LogRecord>,
    /** How many of them are known to be synced; every acknowledged group is. */
    acked: nat,
    /** The group last written past walOffset without becoming part of the log, if any. */
    attempt: seq<LogRecord>,
    phase: Phase)

  datatype Step =
    | Begin(entries: seq<Entry>)
    | Land(landed: nat)
    | Sync
    | Fail
    | ApplyShard
    | Advance
    | Finish
    | Crash(kept: nat, power: bool)

  /** Writing `bytes` at `offset` of a file, over whatever is there. */
  function Overwrite(file: seq<Byte>, offset: nat, bytes: seq<Byte>): (r: seq<Byte>)
    requires offset <= |file|
    ensures |r| == if offset + |bytes| < |file| then |file| else offset + |bytes|
  {
    if offset + |bytes| < |file| then file[..offset] + bytes + file[offset + |bytes|..] else file[..offset] + bytes
  }

  /** Bytes landing at walOffset may be lost again, and so may what they replaced; nothing landed changes
      nothing. */
  function DurableAfterWrite(s: Store, landed: nat): nat {
    if landed == 0 || s.durable < s.walOffset then s.durable else s.walOffset
  }

  // ------------------------------------------------------------------ recovery

  /** One past the highest end of a record, as recover computes it with 64-bit integers. */
  function MaxEnd(log: seq<LogRecord>): nat {
    if log == [] then 0 else
    var last := log[|log| - 1];
    var end := (last.base + |last.entries|) % U64;
    var before := MaxEnd(log[..|log| - 1]);
    if before < end then end else before
  }

  function NextAfter(log: seq<LogRecord>): nat {
    var next := (MaxEnd(log) + 1) % U64;
    if next < 1 then 1 else next
  }

  /** Opening a file that scans without corruption: replay what is valid, cut off the rest.  Only when
      something was cut off is the file synced. */
  function Open(hash: Key -> nat, file: seq<Byte>, durable: nat): Store
    requires Scan(file).Scanned?
  {
    ScanIsStable(file);
    var Scanned(log, valid) := Scan(file);
    var t := Replay(log);
    var synced := if valid != |file| then valid else durable;
    Store(file[..valid], synced, valid, NextAfter(log), Cut(hash, t, t, 0), log, WholeRecords(log, synced), [], Idle)
  }

  /** A database opened on a missing or empty file. */
  function Fresh(hash: Key -> nat): Store {
    Store([], 0, 0, 1, Cut(hash, map[], map[], 0), [], 0, [], Idle)
  }

  // --------------------------------------------------------------------- steps

  predicate Enabled(s: Store, step: Step) {
    match step
    case Begin(entries) =>
      && s.phase.Idle?
      && Fits(LogRecord(s.nextSequence, entries))
      && s.nextSequence + |entries| + 1 < U64
    case Land(landed) =>
      && s.phase.Writing? && s.phase.landed <= landed
      && |s.attempt| == 1 && landed <= |Encode(s.attempt[0])|
      && s.walOffset <= |s.file|
    case Sync => s.phase.Writing? && |s.attempt| == 1 && s.phase.landed == |Encode(s.attempt[0])|
    case Fail => s.phase.Writing?
    case ApplyShard => s.phase.Applying? && |s.attempt| == 1 && s.phase.cut < SHARD_COUNT == |s.shards|
    case Advance => s.phase.Applying? && |s.attempt| == 1 && s.phase.cut == SHARD_COUNT
    case Finish => s.phase.Done?
    case Crash(kept, power) =>
      && s.durable <= kept <= |s.file|
      && (power || kept == |s.file|)
      && Scan(s.file[..kept]).Scanned?
  }

  function Do(hash: Key -> nat, s: Store, step: Step): Store
    requires Enabled(s, step)
  {
    match step
    case Begin(entries) =>
      s.(attempt := [LogRecord(s.nextSequence, entries)], phase := Writing(0))
    case Land(landed) =>
      s.(file := Overwrite(s.file, s.walOffset, Encode(s.attempt[0])[..landed]),
         durable := DurableAfterWrite(s, landed),
         phase := Writing(landed))
    case Sync =>
      s.(durable := |s.file|, acked := |s.log|, phase := Applying(0))
    case Fail =>
      s.(phase := Done(false))
    case ApplyShard =>
      var r, i := s.attempt[0], s.phase.cut;
      var bucket := Bucket(hash, Numbered(r.entries, r.base), i);
      s.(shards := s.shards[i := ApplyAll(s.shards[i], bucket)], phase := Applying(i + 1))
    case Advance =>
      var r := s.attempt[0];
      s.(walOffset := s.walOffset + |Encode(r)|,
         nextSequence := s.nextSequence + |r.entries|,
         log := s.log + [r],
         acked := |s.log| + 1,
         attempt := [],
         phase := Done(true))
    case Finish =>
      s.(phase := Idle)
    case Crash(kept, power) =>
      Open(hash, s.file[..kept], if power then kept else s.durable)
  }

  // ---------------------------------------------------------------- invariants

  /** Record ends stay clear of the largest sequence number. */
  predicate EndsInRange(log: seq<LogRecord>) {
    forall i :: 0 <= i < |log| ==> log[i].base + |log[i].entries| + 1 < U64
  }

  /** Every record that was given out before `next` ends at or before it. */
  predicate EndsBy(log: seq<LogRecord>, next: nat) {
    forall i :: 0 <= i < |log| ==> log[i].base + |log[i].entries| <= next
  }

  /** The log file: below walOffset it is the encoded log, and all acknowledged groups are durable. */
  predicate FileInv(s: Store) {
    && AllFit(s.log)
    && s.walOffset == |EncodeLog(s.log)|
    && EncodeLog(s.log) <= s.file
    && s.acked <= |s.log|
    && |EncodeLog(s.log[..s.acked])| <= s.durable <= |s.file|
  }

  predicate SequenceInv(s: Store) {
    && Ordered(s.log)
    && EndsInRange(s.log)
    && EndsBy(s.log, s.nextSequence)
    && 1 <= s.nextSequence < U64
  }

  /** The record in progress takes the next sequence numbers. */
  predicate AttemptInv(s: Store) {
    && |s.attempt| <= 1
    && AllFit(s.attempt)
    && EndsInRange(s.attempt)
    && (|s.attempt| == 1 ==> s.attempt[0].base == s.nextSequence)
  }

  predicate PhaseInv(s: Store) {
    match s.phase
    case Idle => true
    case Writing(landed) =>
      && |s.attempt| == 1
      && landed <= |Encode(s.attempt[0])|
      && EncodeLog(s.log) + Encode(s.attempt[0])[..landed] <= s.file
    case Applying(cut) =>
      && |s.attempt| == 1
      && cut <= SHARD_COUNT
      && EncodeLog(s.log) + Encode(s.attempt[0]) <= s.file
      && s.durable == |s.file|
      && s.acked == |s.log|
    case Done(ok) => ok ==> s.attempt == [] && s.acked == |s.log|
  }

  /** Between groups the shards are the table of the log; while a group is applied they are a cut between
      the table of the log and the table of the log with the group. */
  predicate TableInv(hash: Key -> nat, s: Store) {
    var t := Replay(s.log);
    s.shards == if s.phase.Applying? then Cut(hash, t, Replay(s.log + s.attempt), s.phase.cut) else Cut(hash, t, t, 0)
  }

  predicate Inv(hash: Key -> nat, s: Store) {
    FileInv(s) && SequenceInv(s) && AttemptInv(s) && PhaseInv(s) && TableInv(hash, s)
  }

  /** The file holds nothing but the log and a byte prefix of the last attempt. */
  predicate Clean(s: Store) {
    s.file <= EncodeLog(s.log + s.attempt)
  }

  // ------------------------------------------------------- each step keeps them

  lemma CutOfPhase(hash: Key -> nat, t: Table, u: Table)
    ensures Cut(hash, t, u, 0) == Cut(hash, t, t, 0)
    ensures Cut(hash, t, u, SHARD_COUNT) == Cut(hash, u, u, 0)
  {
    hide Part;
  }

  lemma FreshInv(hash: Key -> nat)
    ensures Inv(hash, Fresh(hash)) && Clean(Fresh(hash))
  {}

  lemma BeginKeepsInv(hash: Key -> nat, s: Store, entries: seq<Entry>)
    requires Inv(hash, s) && Enabled(s, Begin(entries))
    ensures Inv(hash, Do(hash, s, Begin(entries)))
  {
    hide Encode, Cut, Replay;
    var s' := Do(hash, s, Begin(entries));
    assert Encode(s'.attempt[0])[..0] == [];
    assert EncodeLog(s.log) + [] == EncodeLog(s.log);
  }

  lemma LandKeepsInv(hash: Key -> nat, s: Store, landed: nat)
    requires Inv(hash, s) && Enabled(s, Land(landed))
    ensures Inv(hash, Do(hash, s, Land(landed)))
  {
    hide Encode, Cut, Replay;
    var s' := Do(hash, s, Land(landed));
    var log, part := EncodeLog(s.log), Encode(s.attempt[0])[..landed];
    assert s.file[..s.walOffset] == log;
    assert s'.file[..s.walOffset + landed] == log + part;
    AckedPrefix(s);
  }

  /** The acknowledged records take no more bytes than the whole log. */
  lemma AckedPrefix(s: Store)
    requires s.acked <= |s.log|
    ensures |EncodeLog(s.log[..s.acked])| <= |EncodeLog(s.log)|
  {
    EncodeLogPrefix(s.log, s.acked);
  }

  lemma SyncKeepsInv(hash: Key -> nat, s: Store)
    requires Inv(hash, s) && Enabled(s, Sync)
    ensures Inv(hash, Do(hash, s, Sync))
  {
    hide Encode, Cut, Replay;
    var enc := Encode(s.attempt[0]);
    assert enc[..|enc|] == enc;
    assert s.log[..|s.log|] == s.log;
    CutOfPhase(hash, Replay(s.log), Replay(s.log + s.attempt));
  }

  lemma ApplyShardKeepsInv(hash: Key -> nat, s: Store)
    requires Inv(hash, s) && Enabled(s, ApplyShard)
    ensures Inv(hash, Do(hash, s, ApplyShard))
  {
    hide Encode, EncodeLog, Cut, Part, Bucket, ApplyAll, Numbered, Replay;
    var r, i := s.attempt[0], s.phase.cut;
    var before, after := Replay(s.log), Replay(s.log + s.attempt);
    var updates := Numbered(r.entries, r.base);
    assert s.attempt == [r];
    ReplaySnoc(s.log, r);
    assert after == ApplyAll(before, updates);
    CutStep(hash, before, after, i);
    ShardedApply(hash, before, updates, i);
  }

  lemma AdvanceKeepsInv(hash: Key -> nat, s: Store)
    requires Inv(hash, s) && Enabled(s, Advance)
    ensures Inv(hash, Do(hash, s, Advance))
  {
    hide Encode, Cut, Replay, Fits;
    var r := s.attempt[0];
    assert s.attempt == [r];
    EncodeLogSnoc(s.log, r);
    CutOfPhase(hash, Replay(s.log), Replay(s.log + [r]));
    var log' := s.log + [r];
    assert log'[..|log'|] == log';
    assert Ordered(log');
  }

  // -------------------------------------------------------------- crash, reopen

  lemma {:induction false} MaxEndOfOrdered(log: seq<LogRecord>)
    requires Ordered(log) && EndsInRange(log)
    ensures MaxEnd(log) == if log == [] then 0 else log[|log| - 1].base + |log[|log| - 1].entries|
  {
    if log != [] {
      var init := log[..|log| - 1];
      MaxEndOfOrdered(init);
      if init != [] {
        assert init[|init| - 1] == log[|log| - 2];
      }
    }
  }

  /** Reopening hands out sequence numbers past every one used in the log, with a gap of one. */
  lemma NextAfterIsFresh(log: seq<LogRecord>)
    requires Ordered(log) && EndsInRange(log)
    ensures EndsBy(log, NextAfter(log)) && 1 <= NextAfter(log) < U64
    ensures log != [] ==> NextAfter(log) == log[|log| - 1].base + |log[|log| - 1].entries| + 1
  {
    MaxEndOfOrdered(log);
    if log != [] {
      var last := log[|log| - 1];
      assert forall i :: 0 <= i < |log| - 1 ==> log[i].base + |log[i].entries| <= last.base;
    }
  }

  /** With 64-bit integers: after a record that ends at the last number, or whose end wraps around, counting
      starts again at 1 or just past where it wrapped to. */
  lemma NextAfterWraps(r: LogRecord)
    requires r.base < U64
    ensures var end := (r.base + |r.entries|) % 0x1_0000_0000_0000_0000;
            NextAfter([r]) == if end == 0xffff_ffff_ffff_ffff then 1 else end + 1
  {
    assert [r][..0] == [] && MaxEnd([]) == 0;
  }

  /** An empty directory is an empty file. */
  lemma OpenOfNothing(hash: Key -> nat)
    ensures Scan([]).Scanned? && Open(hash, [], 0) == Fresh(hash)
  {
    hide Cut, ReadFront;
    ScanOfEmpty();
  }

  /** A file that is a byte prefix of an encoded log opens, and gives exactly the whole records in it. */
  lemma OpenPrefix(hash: Key -> nat, log: seq<LogRecord>, n: nat, durable: nat)
    requires AllFit(log) && Ordered(log) && EndsInRange(log) && durable <= n <= |EncodeLog(log)|
    ensures Scan(EncodeLog(log)[..n]).Scanned?
    ensures var s := Open(hash, EncodeLog(log)[..n], durable);
            && Inv(hash, s) && Clean(s)
            && s.log == log[..WholeRecords(log, n)]
            && s.acked >= WholeRecords(log, durable)
  {
    hide Encode, Cut, Replay, Scan, NextAfter, Fits;
    var k := WholeRecords(log, n);
    TornLog(log, n);
    var whole := log[..k];
    var valid := EncodeLog(whole);
    PrefixOfLog(log, k);
    EncodeLogPrefix(log, k);
    OpenSynced(log, n, durable);
    assert EncodeLog(log)[..n][..|valid|] == valid;
    var synced := if |valid| != n then |valid| else durable;
    var s := Open(hash, EncodeLog(log)[..n], durable);
    assert s == Opened(hash, whole, synced, WholeRecords(whole, synced));
    hide Open, EncodeLog, Ordered, EndsInRange, AllFit;
    OpenedInv(hash, whole, synced, WholeRecords(whole, synced));
  }

  lemma PrefixOfLog(log: seq<LogRecord>, k: nat)
    requires AllFit(log) && Ordered(log) && EndsInRange(log) && k <= |log|
    ensures AllFit(log[..k]) && Ordered(log[..k]) && EndsInRange(log[..k])
  {
    hide Fits;
  }

  /** A database that holds a log and nothing past it. */
  function Opened(hash: Key -> nat, log: seq<LogRecord>, durable: nat, acked: nat): Store {
    var t := Replay(log);
    Store(EncodeLog(log), durable, |EncodeLog(log)|, NextAfter(log), Cut(hash, t, t, 0), log, acked, [], Idle)
  }

  lemma OpenedInv(hash: Key -> nat, log: seq<LogRecord>, durable: nat, acked: nat)
    requires AllFit(log) && Ordered(log) && EndsInRange(log)
    requires acked <= |log| && |EncodeLog(log[..acked])| <= durable <= |EncodeLog(log)|
    ensures Inv(hash, Opened(hash, log, durable, acked)) && Clean(Opened(hash, log, durable, acked))
  {
    hide EncodeLog, Cut, Replay, NextAfter, Fits;
    NextAfterIsFresh(log);
    assert log + [] == log;
  }

  /** Opening never forgets that a record was synced. */
  lemma OpenSynced(log: seq<LogRecord>, n: nat, durable: nat)
    requires durable <= n <= |EncodeLog(log)|
    ensures var whole := log[..WholeRecords(log, n)];
            var valid := |EncodeLog(whole)|;
            var synced := if valid != n then valid else durable;
            && synced <= valid <= n
            && |EncodeLog(whole[..WholeRecords(whole, synced)])| <= synced
            && WholeRecords(whole, synced) >= WholeRecords(log, durable)
  {
    hide Encode;
    var k, j := WholeRecords(log, n), WholeRecords(log, durable);
    var whole := log[..k];
    var valid := |EncodeLog(whole)|;
    WholeRecordsIsMaximal(log, n, k);
    WholeRecordsIsMaximal(log, durable, j);
    WholeRecordsIsMaximal(log, n, j);
    assert j <= k && whole[..j] == log[..j];
    EncodeLogPrefix(whole, j);
    var synced := if valid != n then valid else durable;
    WholeRecordsIsMaximal(whole, synced, WholeRecords(whole, synced));
    WholeRecordsIsMaximal(whole, synced, j);
  }

  lemma OpenAfterCrash(hash: Key -> nat, s: Store, kept: nat, durable: nat)
    requires FileInv(s) && SequenceInv(s) && AttemptInv(s) && Clean(s)
    requires s.durable <= durable <= kept <= |s.file|
    ensures Scan(s.file[..kept]).Scanned?
    ensures var s' := Open(hash, s.file[..kept], durable);
            var k := WholeRecords(s.log + s.attempt, kept);
            && Inv(hash, s') && Clean(s')
            && s'.log == (s.log + s.attempt)[..k]
            && s.acked <= s'.acked <= k
            && (k > |s.log| <==> |s.attempt| == 1 && kept >= |EncodeLog(s.log + s.attempt)|)
  {
    hide Encode, Scan, Ordered, EndsInRange, AllFit, Open;
    var all := s.log + s.attempt;
    assert s.file[..kept] == EncodeLog(all)[..kept];
    AttemptExtends(s);
    OpenPrefix(hash, all, kept, durable);
    hide Inv;
    WholeRecordsIsMaximal(all, kept, |all|);
    assert all[..|all|] == all;
    WholeRecordsIsMaximal(all, durable, s.acked);
    assert all[..s.acked] == s.log[..s.acked];
  }

  /** From every clean state, whatever the loss of power leaves, the database opens again.  What comes
      back is a prefix of the log with the attempted group: every acknowledged group, and the attempted
      one only if all of its bytes survived. */
  lemma CrashRecovers(hash: Key -> nat, s: Store, kept: nat, power: bool)
    requires Inv(hash, s) && Clean(s)
    requires s.durable <= kept <= |s.file| && (power || kept == |s.file|)
    ensures Enabled(s, Crash(kept, power))
    ensures var s' := Do(hash, s, Crash(kept, power));
            var k := WholeRecords(s.log + s.attempt, kept);
            && Inv(hash, s') && Clean(s')
            && s'.log == (s.log + s.attempt)[..k]
            && s.acked <= s'.acked <= k
            && (k > |s.log| <==> |s.attempt| == 1 && kept >= |EncodeLog(s.log + s.attempt)|)
  {
    hide Scan, Open, FileInv, SequenceInv, AttemptInv, PhaseInv, TableInv, Clean, EncodeLog, WholeRecords;
    OpenAfterCrash(hash, s, kept, if power then kept else s.durable);
  }

  lemma AttemptExtends(s: Store)
    requires FileInv(s) && SequenceInv(s) && AttemptInv(s)
    ensures AllFit(s.log + s.attempt) && Ordered(s.log + s.attempt) && EndsInRange(s.log + s.attempt)
  {
    hide Fits, EncodeLog;
  }

  // -------------------------------------------------------- leftovers of failures

  /** The bytes past a log hold nothing that a scan would take for a record, but for the attempted record if
      that is there in full. */
  predicate Genuine(attempt: seq<LogRecord>, tail: seq<Byte>) {
    || Ignorable(tail)
    || (|attempt| == 1 && Encode(attempt[0]) <= tail && Ignorable(tail[|Encode(attempt[0])|..]))
  }

  /** What a crash keeps ends inside the log, or what it keeps past the log is genuine. */
  predicate Safe(s: Store, kept: nat)
    requires kept <= |s.file|
  {
    kept <= s.walOffset || Genuine(s.attempt, s.file[s.walOffset..kept])
  }

  /** The attempted record, if all of its bytes stand past the log. */
  function Survivor(attempt: seq<LogRecord>, tail: seq<Byte>): seq<LogRecord> {
    if |attempt| == 1 && Encode(attempt[0]) <= tail then attempt else []
  }

  lemma FileSplit(s: Store, kept: nat)
    requires FileInv(s) && s.walOffset <= kept <= |s.file|
    ensures s.file[..kept] == EncodeLog(s.log) + s.file[s.walOffset..kept]
  {
    hide EncodeLog, AllFit;
  }

  /** Opening after a crash goes past the log and on into the tail: whether it succeeds, with which error
      it fails and what it adds to the log are decided by the tail alone. */
  lemma ScanAfterCrash(s: Store, kept: nat)
    requires FileInv(s) && s.walOffset <= kept <= |s.file|
    ensures Scan(s.file[..kept]) == Resume(s.log, s.walOffset, Scan(s.file[s.walOffset..kept]))
  {
    hide Scan, EncodeLog, AllFit;
    FileSplit(s, kept);
    ScanPast(s.log, s.file[s.walOffset..kept]);
  }

  /** For every cut past the log: the file opens and holds all of the log again if and only if the tail
      scans. */
  lemma LogComesBackIff(s: Store, kept: nat)
    requires FileInv(s) && s.walOffset <= kept <= |s.file|
    ensures Harmless(s.file[s.walOffset..kept]) <==>
            Scan(s.file[..kept]).Scanned? && s.log <= Scan(s.file[..kept]).log
  {
    hide Scan, EncodeLog, AllFit, Harmless;
    ScanAfterCrash(s, kept);
    ScansIffHarmless(s.file[s.walOffset..kept]);
  }

  /** And it holds exactly the log if and only if the tail is ignorable. */
  lemma ReopenExactIff(s: Store, kept: nat)
    requires FileInv(s) && s.walOffset <= kept <= |s.file|
    ensures Scan(s.file[..kept]) == Scanned(s.log, s.walOffset) <==> Ignorable(s.file[s.walOffset..kept])
  {
    hide Scan, Ignorable, EncodeLog, AllFit;
    FileSplit(s, kept);
    ExactIffIgnorable(s.log, s.file[s.walOffset..kept]);
  }

  /** What the scan of a tail comes to when nothing was invented: no record, or the attempted one. */
  predicate Decodes(attempt: seq<LogRecord>, tail: seq<Byte>) {
    var front := ReadFront(tail);
    Ignorable(tail) || (front.Whole? && attempt == [front.record] && Ignorable(tail[front.size..]))
  }

  lemma IgnorableScans(tail: seq<Byte>)
    ensures Ignorable(tail) <==> Scan(tail) == Scanned([], 0)
    ensures Ignorable(tail) <==> Scan(tail).Scanned? && Scan(tail).log == []
    ensures Ignorable(tail) ==> ReadFront(tail) == Stop
  {
    hide Ignorable, ReadFront, Scan;
    ExactIffIgnorable([], tail);
    assert EncodeLog([]) + tail == tail;
    ScansToNothing(tail);
  }

  lemma ScansToNothing(tail: seq<Byte>)
    ensures Scan(tail) == Scanned([], 0) <==> ReadFront(tail) == Stop
    ensures Scan(tail).Scanned? && Scan(tail).log == [] <==> ReadFront(tail) == Stop
  {
    hide ReadFront;
  }

  /** For every cut past the log: the file opens with the log, or with the log and the attempted record, and
      with nothing that nobody submitted, if and only if that is what the tail decodes to. */
  lemma NothingInventedIff(s: Store, kept: nat)
    requires FileInv(s) && s.walOffset <= kept <= |s.file| && |s.attempt| <= 1
    ensures var scan := Scan(s.file[..kept]);
            Decodes(s.attempt, s.file[s.walOffset..kept]) <==>
            scan.Scanned? && (scan.log == s.log || scan.log == s.log + s.attempt)
  {
    hide Scan, EncodeLog, AllFit, Ignorable;
    var tail := s.file[s.walOffset..kept];
    ScanAfterCrash(s, kept);
    TailDecodes(s.attempt, tail);
    var extra := Scan(tail);
    if extra.Scanned? {
      assert s.log + extra.log == s.log <==> extra.log == [];
      assert (s.log + extra.log)[|s.log|..] == extra.log && (s.log + s.attempt)[|s.log|..] == s.attempt;
    }
  }

  lemma TailDecodes(attempt: seq<LogRecord>, tail: seq<Byte>)
    requires |attempt| <= 1
    ensures Decodes(attempt, tail) <==> Scan(tail).Scanned? && (Scan(tail).log == [] || Scan(tail).log == attempt)
  {
    IgnorableScans(tail);
    hide Ignorable;
    var front := ReadFront(tail);
    hide ReadFront;
    if front.Whole? {
      IgnorableScans(tail[front.size..]);
      var rest := Scan(tail[front.size..]);
      if rest.Scanned? {
        assert Scan(tail).log == [front.record] + rest.log;
        assert [front.record] + rest.log == attempt <==> attempt == [front.record] && rest.log == [];
      }
    }
  }

  /** A genuine tail decodes to the attempted record if that survived whole, and to nothing otherwise. */
  lemma GenuineScans(attempt: seq<LogRecord>, tail: seq<Byte>)
    requires Genuine(attempt, tail) && AllFit(attempt) && |attempt| <= 1
    ensures var extra := Survivor(attempt, tail);
            && Scan(tail) == Scanned(extra, |EncodeLog(extra)|)
            && EncodeLog(extra) <= tail
  {
    hide Encode, ReadFront, Ignorable, Fits, Scan;
    IgnorableScans(tail);
    if |attempt| == 1 && Encode(attempt[0]) <= tail {
      var enc := Encode(attempt[0]);
      var rest := tail[|enc|..];
      assert tail == enc + rest && attempt == [attempt[0]];
      EncodeLogSnoc([], attempt[0]);
      assert [] + attempt == attempt && [] + enc == enc;
      FrontUndoes(attempt[0], rest);
      ExactIffIgnorable(attempt, rest);
    }
  }

  /** Nothing but a genuine tail will do. */
  lemma OnlyGenuine(attempt: seq<LogRecord>, tail: seq<Byte>)
    requires AllFit(attempt) && |attempt| <= 1
    requires Scan(tail).Scanned? && Scan(tail).log <= attempt && EncodeLog(Scan(tail).log) <= tail
    ensures Genuine(attempt, tail)
  {
    hide Encode, ReadFront, Ignorable, Fits, Scan;
    IgnorableScans(tail);
    if Scan(tail).log != [] {
      assert attempt == [attempt[0]] == Scan(tail).log;
      EncodeLogSnoc([], attempt[0]);
      assert [] + attempt == attempt && [] + Encode(attempt[0]) == Encode(attempt[0]);
      var rest := tail[|Encode(attempt[0])|..];
      assert tail == EncodeLog(attempt) + rest;
      ScanPast(attempt, rest);
      IgnorableScans(rest);
      assert Scan(rest).Scanned? && attempt + Scan(rest).log == attempt;
    }
  }

  /** A clean state is safe at every cut: what is left is a byte prefix of the attempted record. */
  lemma CleanIsSafe(s: Store, kept: nat)
    requires FileInv(s) && SequenceInv(s) && AttemptInv(s) && Clean(s) && kept <= |s.file|
    ensures Safe(s, kept)
  {
    hide Encode, Scan, Ordered, EndsInRange, Fits, EncodeLog, Ignorable, ReadFront;
    if s.walOffset < kept {
      var tail := s.file[s.walOffset..kept];
      EncodeLogConcat(s.log, s.attempt);
      assert tail == EncodeLog(s.attempt)[..|tail|];
      PrefixIsGenuine(s.attempt, tail);
    }
  }

  lemma PrefixIsGenuine(attempt: seq<LogRecord>, tail: seq<Byte>)
    requires AllFit(attempt) && |attempt| <= 1 && tail <= EncodeLog(attempt)
    ensures Genuine(attempt, tail)
  {
    hide Encode, Ignorable, ReadFront, Fits, Scan;
    NothingIsIgnorable();
    if attempt == [] {
      assert tail == [];
    } else {
      var enc := Encode(attempt[0]);
      EncodeLogSnoc([], attempt[0]);
      assert attempt == [] + [attempt[0]] && EncodeLog(attempt) == enc;
      if tail == enc {
        assert tail[|enc|..] == [];
      } else {
        assert tail == enc[..|tail|];
        TornRecord(attempt[0], |tail|);
        ScanStops(tail);
        IgnorableScans(tail);
      }
    }
  }

  lemma NothingIsIgnorable()
    ensures Ignorable([])
  {}

  /** A crash past the log with a genuine tail gives back the log, and the attempted record exactly if it is
      there in full, and cuts off the rest. */
  lemma CrashPastLog(hash: Key -> nat, s: Store, kept: nat, durable: nat)
    requires FileInv(s) && SequenceInv(s) && AttemptInv(s)
    requires s.durable <= durable <= kept <= |s.file| && s.walOffset <= kept
    requires Genuine(s.attempt, s.file[s.walOffset..kept])
    ensures Scan(s.file[..kept]).Scanned?
    ensures var s' := Open(hash, s.file[..kept], durable);
            && s'.log == s.log + Survivor(s.attempt, s.file[s.walOffset..kept])
            && Inv(hash, s') && Clean(s') && s.acked <= s'.acked
  {
    hide Scan, Encode, EncodeLog, WholeRecords, Cut, Ordered, EndsInRange, NextAfter, Replay, Inv, Clean, Fits, Genuine;
    var tail := s.file[s.walOffset..kept];
    GenuineScans(s.attempt, tail);
    var extra := Survivor(s.attempt, tail);
    hide Survivor;
    var all, n := s.log + extra, s.walOffset + |EncodeLog(extra)|;
    SurvivorExtends(s, tail);
    ScanAfterCrash(s, kept);
    EncodeLogConcat(s.log, extra);
    assert s.file[..kept][..n] == EncodeLog(all);
    var synced := if n != kept then n else durable;
    var acked := WholeRecords(all, synced);
    WholeRecordsIsMaximal(all, synced, acked);
    assert all[..s.acked] == s.log[..s.acked];
    AckedPrefix(s);
    WholeRecordsIsMaximal(all, synced, s.acked);
    assert Open(hash, s.file[..kept], durable) == Opened(hash, all, synced, acked);
    hide Open;
    OpenedInv(hash, all, synced, acked);
  }

  lemma SurvivorExtends(s: Store, tail: seq<Byte>)
    requires FileInv(s) && SequenceInv(s) && AttemptInv(s)
    ensures var all := s.log + Survivor(s.attempt, tail); AllFit(all) && Ordered(all) && EndsInRange(all)
  {
    hide Encode, EncodeLog, Ordered, EndsInRange, AllFit;
    AttemptExtends(s);
    assert s.log + [] == s.log;
  }

  /** A cut inside the log gives back the whole records before it. */
  lemma CrashInsideLog(hash: Key -> nat, s: Store, kept: nat, durable: nat)
    requires FileInv(s) && SequenceInv(s)
    requires s.durable <= durable <= kept <= s.walOffset
    ensures Scan(s.file[..kept]).Scanned?
    ensures var s' := Open(hash, s.file[..kept], durable);
            && s'.log == s.log[..WholeRecords(s.log, kept)]
            && Inv(hash, s') && Clean(s') && s.acked <= s'.acked
  {
    assert s.file[..kept] == EncodeLog(s.log)[..kept];
    hide Scan, EncodeLog, Open, Ordered, EndsInRange, AllFit, Inv, Clean, WholeRecords;
    OpenPrefix(hash, s.log, kept, durable);
    WholeRecordsIsMaximal(s.log, durable, s.acked);
  }

  lemma NothingIsGenuine(attempt: seq<LogRecord>, tail: seq<Byte>)
    requires tail == []
    ensures Genuine(attempt, tail)
  {
    hide Encode;
  }

  lemma CrashEndsIdle(hash: Key -> nat, s: Store, kept: nat, power: bool)
    requires Enabled(s, Crash(kept, power))
    ensures Do(hash, s, Crash(kept, power)).phase.Idle? && Do(hash, s, Crash(kept, power)).attempt == []
  {
    hide Scan, Replay, NextAfter, Cut;
  }

  /** From every state, whatever the crash: if it is safe the database opens to an invariant state again,
      every acknowledged group is where it was, and nothing else comes back than groups of the log and the
      attempted one, that one exactly if all of its bytes are there. */
  lemma SafeCrashRecovers(hash: Key -> nat, s: Store, kept: nat, power: bool)
    requires Inv(hash, s)
    requires s.durable <= kept <= |s.file| && (power || kept == |s.file|) && Safe(s, kept)
    ensures Enabled(s, Crash(kept, power))
    ensures var s' := Do(hash, s, Crash(kept, power));
            && Inv(hash, s') && Clean(s')
            && s.acked <= |s.log| && s.acked <= s'.acked <= |s'.log|
            && s'.log[..s.acked] == s.log[..s.acked]
            && s'.log <= s.log + s.attempt
            && (s.walOffset <= kept ==> s'.log == s.log + Survivor(s.attempt, s.file[s.walOffset..kept]))
  {
    hide Scan, Open, EncodeLog, WholeRecords, Genuine, SequenceInv, AttemptInv, PhaseInv, TableInv, Clean, AllFit;
    var durable := if power then kept else s.durable;
    if kept < s.walOffset {
      CrashInsideLog(hash, s, kept, durable);
    } else {
      if kept == s.walOffset {
        NothingIsGenuine(s.attempt, s.file[s.walOffset..kept]);
      }
      CrashPastLog(hash, s, kept, durable);
    }
    var s' := Open(hash, s.file[..kept], durable);
    assert FileInv(s');
    hide Survivor;
    assert s'.log[..s.acked] == s.log[..s.acked];
  }

  /** No weaker condition would do: the crash was safe if and only if the database opens to a state with all
      its invariants and with nothing but groups of the log and the attempted one. */
  lemma SafeIff(hash: Key -> nat, s: Store, kept: nat, power: bool)
    requires Inv(hash, s)
    requires s.durable <= kept <= |s.file| && (power || kept == |s.file|)
    ensures Safe(s, kept) <==>
            && Enabled(s, Crash(kept, power))
            && Inv(hash, Do(hash, s, Crash(kept, power)))
            && Do(hash, s, Crash(kept, power)).log <= s.log + s.attempt
  {
    hide Inv, Enabled, Do, Safe, Clean, Survivor;
    if Safe(s, kept) {
      SafeCrashRecovers(hash, s, kept, power);
    } else if Enabled(s, Crash(kept, power)) && Inv(hash, Do(hash, s, Crash(kept, power))) &&
              Do(hash, s, Crash(kept, power)).log <= s.log + s.attempt {
      OpenedMeansSafe(hash, s, kept, power);
    }
  }

  lemma OpenedMeansSafe(hash: Key -> nat, s: Store, kept: nat, power: bool)
    requires kept <= |s.file| && Inv(hash, s)
    requires Enabled(s, Crash(kept, power)) && Inv(hash, Do(hash, s, Crash(kept, power)))
    requires Do(hash, s, Crash(kept, power)).log <= s.log + s.attempt
    ensures Safe(s, kept)
  {
    hide Scan, EncodeLog, WholeRecords, Cut, Ordered, EndsInRange, NextAfter, Replay, Fits, PhaseInv, TableInv, Genuine;
    if s.walOffset < kept {
      var tail, s' := s.file[s.walOffset..kept], Do(hash, s, Crash(kept, power));
      ScanAfterCrash(s, kept);
      ScanIsStable(tail);
      var extra, v := Scan(tail).log, Scan(tail).validBytes;
      EncodeLogConcat(s.log, extra);
      assert s'.file == EncodeLog(s.log) + EncodeLog(extra);
      assert s'.file[s.walOffset..] == tail[..v];
      assert (s.log + extra)[|s.log|..] == extra && (s.log + s.attempt)[|s.log|..] == s.attempt;
      OnlyGenuine(s.attempt, tail);
    }
  }

  /** Every step keeps the invariant; a crash is a step only when it is safe. */
  lemma StepKeepsInv(hash: Key -> nat, s: Store, step: Step)
    requires Inv(hash, s) && Enabled(s, step)
    requires step.Crash? ==> Safe(s, step.kept)
    ensures Inv(hash, Do(hash, s, step))
  {
    match step
    case Begin(entries) => BeginKeepsInv(hash, s, entries);
    case Land(landed) => LandKeepsInv(hash, s, landed);
    case Sync => SyncKeepsInv(hash, s);
    case Fail => FailKeepsInv(hash, s);
    case ApplyShard => ApplyShardKeepsInv(hash, s);
    case Advance => AdvanceKeepsInv(hash, s);
    case Finish => FinishKeepsInv(hash, s);
    case Crash(kept, power) =>
      SafeCrashRecovers(hash, s, kept, power);
  }

  lemma FailKeepsInv(hash: Key -> nat, s: Store)
    requires Inv(hash, s) && Enabled(s, Fail)
    ensures Inv(hash, Do(hash, s, Fail))
  {
    hide Encode, EncodeLog, Cut, Replay, Fits;
  }

  lemma FinishKeepsInv(hash: Key -> nat, s: Store)
    requires Inv(hash, s) && Enabled(s, Finish)
    ensures Inv(hash, Do(hash, s, Finish))
  {
    hide Encode, EncodeLog, Cut, Replay, Fits;
  }

  /** Only starting a group over leftovers can make a clean state unclean. */
  lemma StepKeepsClean(hash: Key -> nat, s: Store, step: Step)
    requires Inv(hash, s) && Clean(s) && Enabled(s, step)
    requires step.Begin? ==> |s.file| == s.walOffset
    ensures Clean(Do(hash, s, step))
  {
    hide EncodeLog, Encode, Scan, Open, Replay, Cut, Fits, FileInv, SequenceInv, TableInv;
    match step
    case Begin(entries) => BeginKeepsClean(hash, s, entries);
    case Land(landed) => LandKeepsClean(hash, s, landed);
    case Crash(kept, power) =>
      hide Clean, AttemptInv;
      OpenAfterCrash(hash, s, kept, if power then kept else s.durable);
    case Advance =>
      assert s.attempt == [s.attempt[0]];
      assert s.log + [s.attempt[0]] + [] == s.log + s.attempt;
    case _ =>
  }

  lemma BeginKeepsClean(hash: Key -> nat, s: Store, entries: seq<Entry>)
    requires FileInv(s) && Enabled(s, Begin(entries)) && |s.file| == s.walOffset
    ensures Clean(Do(hash, s, Begin(entries)))
  {
    hide Encode, AllFit;
    var r := LogRecord(s.nextSequence, entries);
    EncodeLogSnoc(s.log, r);
  }

  lemma LandKeepsClean(hash: Key -> nat, s: Store, landed: nat)
    requires FileInv(s) && Clean(s) && Enabled(s, Land(landed))
    ensures Clean(Do(hash, s, Land(landed)))
  {
    hide Encode, AllFit, EncodeLog, Cut, Replay;
    var log, enc := EncodeLog(s.log), Encode(s.attempt[0]);
    assert s.attempt == [s.attempt[0]];
    EncodeLogSnoc(s.log, s.attempt[0]);
    assert s.file == (log + enc)[..|s.file|];
    assert s.file[..s.walOffset] == log;
    var file' := Do(hash, s, Land(landed)).file;
    assert file' == (log + enc)[..|file'|];
  }
}
