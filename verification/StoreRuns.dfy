/** What holds over whole runs of a database: groups, failures, crashes and reopens in any order
    (src/db.cc, writeGroup and recover). */
module StoreRuns {
  import opened Bytes
  import opened WalFormat
  import opened WalTheorems
  import opened TableModel
  import opened Store
  import opened Sequences

  // ---------------------------------------------------------------------- runs

  /** Every step of the run can be taken. */
  predicate Legal(hash: Key -> nat, s: Store, steps: seq<Step>)
    decreases |steps|
  {
    steps == [] || (Enabled(s, steps[0]) && Legal(hash, Do(hash, s, steps[0]), steps[1..]))
  }

  function Exec(hash: Key -> nat, s: Store, steps: seq<Step>): Store
    requires Legal(hash, s, steps)
    decreases |steps|
  {
    if steps == [] then s else Exec(hash, Do(hash, s, steps[0]), steps[1..])
  }

  /** The run can be taken from `s` and ends in `s'`. */
  predicate Reaches(hash: Key -> nat, s: Store, steps: seq<Step>, s': Store) {
    Legal(hash, s, steps) && Exec(hash, s, steps) == s'
  }

  /** What the outside world may do next: any step the code would take, and a crash that keeps any byte
      prefix from the synced part on, whether or not the file can then be opened. */
  predicate MayTry(s: Store, step: Step) {
    match step
    case Crash(kept, power) => s.durable <= kept <= |s.file| && (power || kept == |s.file|)
    case _ => Enabled(s, step)
  }

  /** Acknowledged groups of `s` are acknowledged groups of `s'`, in the same places. */
  predicate KeepsAcked(s: Store, s': Store) {
    && s.acked <= |s.log|
    && s'.acked <= |s'.log|
    && s.log[..s.acked] <= s'.log[..s'.acked]
  }

  /** A run with any mix of failed and successful groups, in which every crash is safe.  That the database
      can be opened after a crash is not assumed. */
  predicate SafeRun(hash: Key -> nat, s: Store, steps: seq<Step>)
    decreases |steps|
  {
    steps == [] ||
    (&& MayTry(s, steps[0])
     && (steps[0].Crash? ==> Safe(s, steps[0].kept))
     && (Enabled(s, steps[0]) ==> SafeRun(hash, Do(hash, s, steps[0]), steps[1..])))
  }

  /** The record that a step submits for writing, and the one that it acknowledges. */
  function SubmittedBy(s: Store, step: Step): seq<LogRecord> {
    if step.Begin? then [LogRecord(s.nextSequence, step.entries)] else []
  }

  function AcknowledgedBy(s: Store, step: Step): seq<LogRecord> {
    if step.Advance? then s.attempt else []
  }

  /** All records submitted in a run, in order. */
  function Submitted(hash: Key -> nat, s: Store, steps: seq<Step>): seq<LogRecord>
    decreases |steps|
  {
    if steps == [] || !Enabled(s, steps[0]) then [] else
    SubmittedBy(s, steps[0]) + Submitted(hash, Do(hash, s, steps[0]), steps[1..])
  }

  /** All records acknowledged in a run, in order. */
  function Acknowledged(hash: Key -> nat, s: Store, steps: seq<Step>): seq<LogRecord>
    decreases |steps|
  {
    if steps == [] || !Enabled(s, steps[0]) then [] else
    AcknowledgedBy(s, steps[0]) + Acknowledged(hash, Do(hash, s, steps[0]), steps[1..])
  }

  /** From `s` to `s'` exactly what should be there is there: acknowledged records stay where they were, the
      ones acknowledged on the way are among the acknowledged, and the log with the attempt holds nothing
      but what was there before or was submitted on the way; all of it in order. */
  predicate Accounts(s: Store, submitted: seq<LogRecord>, acknowledged: seq<LogRecord>, s': Store) {
    && KeepsAcked(s, s')
    && Subsequence(s.log[..s.acked] + acknowledged, s'.log[..s'.acked])
    && Subsequence(s'.log + s'.attempt, s.log + s.attempt + submitted)
  }

  lemma AccountsNothing(hash: Key -> nat, s: Store)
    requires Inv(hash, s)
    ensures Accounts(s, [], [], s)
  {
    hide Inv, Subsequence;
    AckedInLog(hash, s);
    assert s.log[..s.acked] + [] == s.log[..s.acked] && s.log + s.attempt + [] == s.log + s.attempt;
    Prefix(s.log[..s.acked], s.log[..s.acked]);
    Prefix(s.log + s.attempt, s.log + s.attempt);
  }

  lemma AccountsTransitive(a: Store, sub: seq<LogRecord>, ack: seq<LogRecord>, b: Store,
                           sub': seq<LogRecord>, ack': seq<LogRecord>, c: Store)
    requires Accounts(a, sub, ack, b) && Accounts(b, sub', ack', c)
    ensures Accounts(a, sub + sub', ack + ack', c)
  {
    hide Subsequence;
    AckedTransitive(a, b, c);
    var acked := a.log[..a.acked];
    Append(acked + ack, b.log[..b.acked], ack');
    assert acked + ack + ack' == acked + (ack + ack');
    Transitive(acked + (ack + ack'), b.log[..b.acked] + ack', c.log[..c.acked]);
    Append(b.log + b.attempt, a.log + a.attempt + sub, sub');
    assert a.log + a.attempt + sub + sub' == a.log + a.attempt + (sub + sub');
    Transitive(c.log + c.attempt, b.log + b.attempt + sub', a.log + a.attempt + (sub + sub'));
  }

  /** Crash recovery.  In a safe run no crash is ever followed by a failure to open, and the invariant holds
      at the end.  The log at the end lies between what was acknowledged and what was submitted: no
      acknowledged group is ever lost, altered or moved, and none is invented, doubled or reordered. */
  lemma {:induction false} SafeRunsRecover(hash: Key -> nat, s: Store, steps: seq<Step>)
    requires Inv(hash, s) && SafeRun(hash, s, steps)
    ensures Legal(hash, s, steps)
    ensures var s' := Exec(hash, s, steps);
            Inv(hash, s') && Accounts(s, Submitted(hash, s, steps), Acknowledged(hash, s, steps), s')
    decreases |steps|
  {
    hide Inv, Enabled, Do, Safe, Accounts, SubmittedBy, AcknowledgedBy;
    if steps == [] {
      AccountsNothing(hash, s);
    } else {
      SafeStepRecovers(hash, s, steps[0]);
      var s1 := Do(hash, s, steps[0]);
      SafeRunsRecover(hash, s1, steps[1..]);
      AccountsTransitive(s, SubmittedBy(s, steps[0]), AcknowledgedBy(s, steps[0]), s1,
                         Submitted(hash, s1, steps[1..]), Acknowledged(hash, s1, steps[1..]), Exec(hash, s1, steps[1..]));
    }
  }

  lemma AckedInLog(hash: Key -> nat, s: Store)
    requires Inv(hash, s)
    ensures KeepsAcked(s, s)
  {}

  lemma AckedTransitive(a: Store, b: Store, c: Store)
    requires KeepsAcked(a, b) && KeepsAcked(b, c)
    ensures KeepsAcked(a, c)
  {}

  lemma SafeStepRecovers(hash: Key -> nat, s: Store, step: Step)
    requires Inv(hash, s) && MayTry(s, step)
    requires step.Crash? ==> Safe(s, step.kept)
    ensures Enabled(s, step)
    ensures var s' := Do(hash, s, step);
            Inv(hash, s') && Accounts(s, SubmittedBy(s, step), AcknowledgedBy(s, step), s')
  {
    hide Inv, Enabled, Do, Safe, Clean, Accounts, Survivor, Subsequence;
    if step.Crash? {
      SafeCrashRecovers(hash, s, step.kept, step.power);
      CrashEndsIdle(hash, s, step.kept, step.power);
      CrashAccounts(s, Do(hash, s, step));
    } else {
      StepKeepsInv(hash, s, step);
      AckedInLog(hash, s);
      StepAccounts(hash, s, step);
    }
  }

  lemma CrashAccounts(s: Store, s': Store)
    requires s.acked <= |s.log| && s.acked <= s'.acked <= |s'.log| && s'.log[..s.acked] == s.log[..s.acked]
    requires s'.log <= s.log + s.attempt && s'.attempt == []
    ensures Accounts(s, [], [], s')
  {
    hide Subsequence;
    var acked := s.log[..s.acked];
    assert acked == s'.log[..s'.acked][..s.acked] && acked + [] == acked;
    Prefix(acked, s'.log[..s'.acked]);
    assert s'.log + [] == s'.log && s.log + s.attempt + [] == s.log + s.attempt;
    Prefix(s'.log, s.log + s.attempt);
  }

  lemma StepAccounts(hash: Key -> nat, s: Store, step: Step)
    requires s.acked <= |s.log| && Enabled(s, step) && !step.Crash?
    ensures Accounts(s, SubmittedBy(s, step), AcknowledgedBy(s, step), Do(hash, s, step))
  {
    hide Encode, Overwrite, Bucket, ApplyAll, Numbered, Fits, Subsequence;
    var s' := Do(hash, s, step);
    var acked, held := s.log[..s.acked], s.log + s.attempt;
    assert held + [] == held && acked + [] == acked;
    if step.Begin? {
      var r := LogRecord(s.nextSequence, step.entries);
      Prefix(acked, acked);
      Prefix(s.log, held);
      Snoc(s.log, held, r);
    } else if step.Advance? {
      assert s.attempt == [s.attempt[0]] && s'.log + [] == held && s'.log[..s'.acked] == held;
      Prefix(acked, s.log);
      Snoc(acked, s.log, s.attempt[0]);
      Prefix(held, held);
    } else {
      assert s'.log == s.log && s'.attempt == s.attempt;
      StillAccounts(s, s');
    }
  }

  lemma StillAccounts(s: Store, s': Store)
    requires s'.log == s.log && s'.attempt == s.attempt && s.acked <= s'.acked <= |s.log|
    ensures Accounts(s, [], [], s')
  {
    hide Subsequence;
    var acked, held := s.log[..s.acked], s.log + s.attempt;
    assert held + [] == held && acked + [] == acked && acked <= s'.log[..s'.acked];
    Prefix(acked, s'.log[..s'.acked]);
    Prefix(held, held);
  }

  /** From an empty directory on: the acknowledged groups are in the log, the log is of submitted groups,
      both in order, and every acknowledged group is among the durable ones. */
  lemma CrashRecovery(hash: Key -> nat, steps: seq<Step>)
    requires SafeRun(hash, Fresh(hash), steps)
    ensures Legal(hash, Fresh(hash), steps)
    ensures var s := Exec(hash, Fresh(hash), steps);
            && Inv(hash, s) && s.acked <= |s.log|
            && Subsequence(Acknowledged(hash, Fresh(hash), steps), s.log[..s.acked])
            && Subsequence(s.log + s.attempt, Submitted(hash, Fresh(hash), steps))
  {
    hide Inv, Clean, SafeRun, Legal, Exec, Subsequence, Submitted, Acknowledged;
    FreshInv(hash);
    SafeRunsRecover(hash, Fresh(hash), steps);
    assert [] + Acknowledged(hash, Fresh(hash), steps) == Acknowledged(hash, Fresh(hash), steps);
    assert [] + [] + Submitted(hash, Fresh(hash), steps) == Submitted(hash, Fresh(hash), steps);
  }

  lemma {:induction false} NoCrashIsSafe(hash: Key -> nat, s: Store, steps: seq<Step>)
    requires Legal(hash, s, steps) && forall i :: 0 <= i < |steps| ==> !steps[i].Crash?
    ensures SafeRun(hash, s, steps)
    decreases |steps|
  {
    hide Enabled, Do, Safe;
    if steps != [] {
      NoCrashIsSafe(hash, Do(hash, s, steps[0]), steps[1..]);
    }
  }

  /** Memtable equals log: at the end of a safe run the bytes below walOffset are the encoded log, and
      between groups the shards are the table that replaying that log gives. */
  lemma MemtableEqualsLog(hash: Key -> nat, s: Store, steps: seq<Step>)
    requires Inv(hash, s) && SafeRun(hash, s, steps)
    ensures Legal(hash, s, steps)
    ensures var s' := Exec(hash, s, steps);
            && s'.walOffset <= |s'.file| && |s'.shards| == SHARD_COUNT
            && EncodeLog(s'.log) == s'.file[..s'.walOffset]
            && Scan(s'.file[..s'.walOffset]) == Scanned(s'.log, s'.walOffset)
            && (!s'.phase.Applying? ==>
                  && s'.shards == Cut(hash, Replay(s'.log), Replay(s'.log), 0)
                  && forall k :: ShardedLookup(hash, s'.shards, k) == Lookup(Replay(s'.log), k))
  {
    hide SafeRun, Legal, Exec, EncodeLog, Replay, Lookup, ShardedLookup, Scan, Cut, Accounts;
    hide SequenceInv, AttemptInv, PhaseInv, AllFit;
    SafeRunsRecover(hash, s, steps);
    IdleTable(hash, Exec(hash, s, steps));
    RoundTrip(Exec(hash, s, steps).log);
  }

  // ---------------------------------------------------- runs without leftovers

  /** Until it is synced, all that has landed of a group may be lost again, up to any byte, and so may the
      part of the log that is not synced. */
  lemma WritesMayBeLost(hash: Key -> nat, s: Store, landed: nat, kept: nat)
    requires Inv(hash, s) && Enabled(s, Land(landed)) && landed > 0
    requires (s.durable <= kept || s.walOffset <= kept) && kept <= s.walOffset + landed
    ensures kept <= |Do(hash, s, Land(landed)).file| && MayTry(Do(hash, s, Land(landed)), Crash(kept, true))
  {
    hide Encode, EncodeLog, Scan, Inv;
    InvFile(hash, s);
  }

  /** A run in which every group starts where the file ends; its crashes may keep any byte prefix. */
  predicate CleanRun(hash: Key -> nat, s: Store, steps: seq<Step>)
    decreases |steps|
  {
    steps == [] ||
    (&& MayTry(s, steps[0])
     && (steps[0].Begin? ==> |s.file| == s.walOffset)
     && (Enabled(s, steps[0]) ==> CleanRun(hash, Do(hash, s, steps[0]), steps[1..])))
  }

  /** If no group starts over bytes that a failed one has left, every crash is safe. */
  lemma {:induction false} CleanRunIsSafe(hash: Key -> nat, s: Store, steps: seq<Step>)
    requires Inv(hash, s) && Clean(s) && CleanRun(hash, s, steps)
    ensures SafeRun(hash, s, steps) && Legal(hash, s, steps) && Clean(Exec(hash, s, steps))
    decreases |steps|
  {
    if steps != [] {
      hide Inv, Clean, Enabled, Do, Safe;
      CleanStep(hash, s, steps[0]);
      CleanRunIsSafe(hash, Do(hash, s, steps[0]), steps[1..]);
    }
  }

  lemma CleanStep(hash: Key -> nat, s: Store, step: Step)
    requires Inv(hash, s) && Clean(s) && MayTry(s, step)
    requires step.Begin? ==> |s.file| == s.walOffset
    ensures Enabled(s, step) && (step.Crash? ==> Safe(s, step.kept))
    ensures Inv(hash, Do(hash, s, step)) && Clean(Do(hash, s, step))
  {
    hide FileInv, SequenceInv, AttemptInv, PhaseInv, TableInv, Clean, Safe, Do;
    if step.Crash? {
      CleanIsSafe(s, step.kept);
    }
    SafeStepRecovers(hash, s, step);
    StepKeepsClean(hash, s, step);
  }

  lemma CleanRunsRecover(hash: Key -> nat, s: Store, steps: seq<Step>)
    requires Inv(hash, s) && Clean(s) && CleanRun(hash, s, steps)
    ensures Legal(hash, s, steps)
    ensures var s' := Exec(hash, s, steps);
            && Inv(hash, s') && Clean(s')
            && Accounts(s, Submitted(hash, s, steps), Acknowledged(hash, s, steps), s')
  {
    hide Inv, Clean, CleanRun, SafeRun, Legal, Exec, Accounts, Submitted, Acknowledged;
    CleanRunIsSafe(hash, s, steps);
    SafeRunsRecover(hash, s, steps);
  }

  // --------------------------------------------------------- groups over leftovers

  /** What a group of these entries would leave standing of the bytes past walOffset. */
  function Uncovered(s: Store, entries: seq<Entry>): seq<Byte> {
    var end := s.walOffset + |Encode(LogRecord(s.nextSequence, entries))|;
    if end < |s.file| then s.file[end..] else []
  }

  /** A group that succeeds over leftovers: reopening reads its record and goes on into what it did not
      cover.  So the next opening fails, and with which error, exactly as those bytes do, and the file is
      clean again exactly when the record covers everything that was left. */
  lemma CommitOverLeftovers(hash: Key -> nat, s: Store, entries: seq<Entry>)
    requires Inv(hash, s) && Enabled(s, Begin(entries))
    ensures s.walOffset <= |s.file|
    ensures var s' := Committed(hash, s, entries);
            var left := Uncovered(s, entries);
            && s'.file == EncodeLog(s'.log) + left
            && Scan(s'.file) == Resume(s'.log, s'.walOffset, Scan(left))
            && (Scan(s'.file).Scanned? <==> Harmless(left))
            && (Scan(s'.file) == Scanned(s'.log, s'.walOffset) <==> Ignorable(left))
            && (Scan(s'.file).Scanned? && Scan(s'.file).log == s'.log <==> Ignorable(left))
            && (Clean(s') <==> |s.file| - s.walOffset <= |Encode(LogRecord(s.nextSequence, entries))|)
  {
    hide Encode, Scan, EncodeLog, Cut, Replay, Ignorable, Harmless, Inv, Fits;
    InvFile(hash, s);
    CommittedKeepsInv(hash, s, entries);
    var s', left := Committed(hash, s, entries), Uncovered(s, entries);
    InvFile(hash, s');
    assert s'.file[..|s'.file|] == s'.file;
    assert s'.file[s'.walOffset..] == left && s'.file[s'.walOffset..|s'.file|] == left;
    ScanAfterCrash(s', |s'.file|);
    LogComesBackIff(s', |s'.file|);
    ReopenExactIff(s', |s'.file|);
    IgnorableScans(left);
    assert Scan(left).Scanned? ==> (s'.log + Scan(left).log == s'.log <==> Scan(left).log == []);
    assert s'.file == EncodeLog(s'.log) + left;
    assert s'.log + s'.attempt == s'.log;
  }

  /** After one failure in a clean file, what a shorter record leaves is the end of what had landed of the
      failed one. */
  lemma UncoveredOfFailure(s: Store, failed: seq<Entry>, landed: nat, entries: seq<Entry>)
    requires s.walOffset == |s.file| && landed <= |Encode(LogRecord(s.nextSequence, failed))|
    ensures var n := |Encode(LogRecord(s.nextSequence, entries))|;
            Uncovered(Failed(s, failed, landed), entries) ==
            if n < landed then Encode(LogRecord(s.nextSequence, failed))[n..landed] else []
  {
    hide Encode;
    var enc := Encode(LogRecord(s.nextSequence, failed));
    assert s.file + [] == s.file;
    assert Failed(s, failed, landed).file == s.file + enc[..landed];
  }

  /** After a group of either outcome the invariant holds again. */
  lemma CommittedKeepsInv(hash: Key -> nat, s: Store, entries: seq<Entry>)
    requires Inv(hash, s) && Enabled(s, Begin(entries))
    ensures s.walOffset <= |s.file| && Inv(hash, Committed(hash, s, entries))
  {
    hide Inv, Enabled, Do, Encode, Legal, Exec, Committed, SafeRun;
    CommitRun(hash, s, entries);
    NoCrashInCommit(s, entries);
    NoCrashIsSafe(hash, s, CommitSteps(s, entries));
    SafeRunsRecover(hash, s, CommitSteps(s, entries));
  }

  lemma FailedKeepsInv(hash: Key -> nat, s: Store, entries: seq<Entry>, landed: nat)
    requires Inv(hash, s) && Enabled(s, Begin(entries))
    requires landed <= |Encode(LogRecord(s.nextSequence, entries))|
    ensures s.walOffset <= |s.file| && Inv(hash, Failed(s, entries, landed))
  {
    hide Inv, Enabled, Do, Encode, Legal, Exec, Failed, SafeRun;
    FailRun(hash, s, entries, landed);
    NoCrashIsSafe(hash, s, FailSteps(entries, landed));
    SafeRunsRecover(hash, s, FailSteps(entries, landed));
  }

  lemma NoCrashInCommit(s: Store, entries: seq<Entry>)
    ensures forall i :: 0 <= i < |CommitSteps(s, entries)| ==> !CommitSteps(s, entries)[i].Crash?
  {
    hide ApplyShards, Encode;
    OnlyApplyShards(SHARD_COUNT);
  }

  lemma IdleTable(hash: Key -> nat, s: Store)
    requires Inv(hash, s)
    ensures |s.shards| == SHARD_COUNT && s.walOffset <= |s.file| && EncodeLog(s.log) == s.file[..s.walOffset]
    ensures !s.phase.Applying? ==> forall k :: ShardedLookup(hash, s.shards, k) == Lookup(Replay(s.log), k)
  {
    hide EncodeLog, Replay, Part, Lookup, Fits;
    var t := Replay(s.log);
    if !s.phase.Applying? {
      forall k
        ensures ShardedLookup(hash, s.shards, k) == Lookup(t, k)
      {
        KeyIsAtomic(hash, t, t, 0, k);
      }
    }
  }

  // ------------------------------------------------- durable before visible

  /** The log whose table a reader of `k` sees: the group being applied counts once its shard is done. */
  function VisibleLog(hash: Key -> nat, s: Store, k: Key): seq<LogRecord> {
    if s.phase.Applying? && ShardFor(hash, k) < s.phase.cut then s.log + s.attempt else s.log
  }

  /** A reader sees only groups that are completely in the file.  They are durable as well, except that in
      the log found at opening the ones past the last known sync may not be. */
  lemma DurableBeforeVisible(hash: Key -> nat, s: Store, k: Key)
    requires Inv(hash, s)
    ensures |s.shards| == SHARD_COUNT
    ensures var log := VisibleLog(hash, s, k);
            && ShardedLookup(hash, s.shards, k) == Lookup(Replay(log), k)
            && EncodeLog(log) <= s.file
            && s.acked <= |log| && |EncodeLog(log[..s.acked])| <= s.durable
            && (|EncodeLog(log)| <= s.durable || (log == s.log && s.acked < |s.log|))
  {
    hide Encode, Replay, Lookup, Part, Fits;
    var t, u := Replay(s.log), Replay(s.log + s.attempt);
    assert s.log[..|s.log|] == s.log;
    var log := VisibleLog(hash, s, k);
    assert log[..s.acked] == s.log[..s.acked];
    if s.phase.Applying? {
      KeyIsAtomic(hash, t, u, s.phase.cut, k);
      assert s.attempt == [s.attempt[0]];
      EncodeLogSnoc(s.log, s.attempt[0]);
    } else {
      KeyIsAtomic(hash, t, t, 0, k);
    }
  }

  /** When a group reports success it is in the log, synced, and every key reads from a table with it. */
  lemma AcknowledgedIsDurable(hash: Key -> nat, s: Store)
    requires Inv(hash, s) && Enabled(s, Advance)
    ensures var s' := Do(hash, s, Advance);
            && s'.phase == Done(true)
            && s'.log == s.log + s.attempt
            && s'.acked == |s'.log|
            && |EncodeLog(s'.log)| <= s'.durable
            && forall k :: |s'.shards| == SHARD_COUNT &&
                 ShardedLookup(hash, s'.shards, k) == Lookup(Replay(s.log + s.attempt), k)
  {
    hide Encode, EncodeLog, Replay, Lookup, Inv, ShardedLookup;
    AdvanceKeepsInv(hash, s);
    var s' := Do(hash, s, Advance);
    assert s.attempt == [s.attempt[0]];
    assert s'.log[..|s'.log|] == s'.log;
    DurableBeforeVisible(hash, s', []);
    forall k
      ensures |s'.shards| == SHARD_COUNT && ShardedLookup(hash, s'.shards, k) == Lookup(Replay(s'.log), k)
    {
      DurableBeforeVisible(hash, s', k);
    }
  }

  /** After this loss of power the database opens with all of the log. */
  predicate KeepsLog(hash: Key -> nat, s: Store, kept: nat) {
    Enabled(s, Crash(kept, true)) && s.log <= Do(hash, s, Crash(kept, true)).log
  }

  /** And with nothing else, but for the attempted group. */
  predicate KeepsExactly(hash: Key -> nat, s: Store, kept: nat) {
    && Enabled(s, Crash(kept, true))
    && (Do(hash, s, Crash(kept, true)).log == s.log || Do(hash, s, Crash(kept, true)).log == s.log + s.attempt)
  }

  ghost predicate SurvivesPowerLoss(hash: Key -> nat, s: Store) {
    forall kept: nat :: s.durable <= kept <= |s.file| ==> KeepsLog(hash, s, kept)
  }

  ghost predicate SurvivesExactly(hash: Key -> nat, s: Store) {
    forall kept: nat :: s.durable <= kept <= |s.file| ==> KeepsExactly(hash, s, kept)
  }

  /** The log survives every loss of power exactly when all of it is synced and every cut of what stands past
      it is harmless; it survives with nothing invented exactly when it is synced and every cut decodes to
      nothing or to the attempted group. */
  lemma SurvivesIff(hash: Key -> nat, s: Store)
    requires Inv(hash, s)
    ensures SurvivesPowerLoss(hash, s) <==>
            && s.walOffset <= s.durable
            && forall kept: nat :: s.durable <= kept <= |s.file| ==> Harmless(s.file[s.walOffset..kept])
    ensures SurvivesExactly(hash, s) <==>
            && s.walOffset <= s.durable
            && forall kept: nat :: s.durable <= kept <= |s.file| ==> Decodes(s.attempt, s.file[s.walOffset..kept])
  {
    hide KeepsLog, KeepsExactly, EncodeLog, Inv, Harmless, Decodes, AllFit;
    InvFile(hash, s);
    forall kept: nat | s.durable <= kept <= |s.file|
      ensures KeepsLog(hash, s, kept) <==> s.walOffset <= kept && Harmless(s.file[s.walOffset..kept])
      ensures KeepsExactly(hash, s, kept) <==> s.walOffset <= kept && Decodes(s.attempt, s.file[s.walOffset..kept])
    {
      CrashKeepsLogIff(hash, s, kept);
    }
    assert SurvivesPowerLoss(hash, s) ==> KeepsLog(hash, s, s.durable);
    assert SurvivesExactly(hash, s) ==> KeepsExactly(hash, s, s.durable);
  }

  lemma CrashKeepsLogIff(hash: Key -> nat, s: Store, kept: nat)
    requires Inv(hash, s) && s.walOffset <= |s.file| && s.durable <= kept <= |s.file|
    ensures KeepsLog(hash, s, kept) <==> s.walOffset <= kept && Harmless(s.file[s.walOffset..kept])
    ensures KeepsExactly(hash, s, kept) <==> s.walOffset <= kept && Decodes(s.attempt, s.file[s.walOffset..kept])
  {
    hide Scan, EncodeLog, Cut, Replay, NextAfter, WholeRecords, Harmless, Decodes, SequenceInv, PhaseInv, TableInv, AllFit;
    if s.walOffset <= kept {
      LogComesBackIff(s, kept);
      NothingInventedIff(s, kept);
    } else {
      hide Open;
      CrashInsideLog(hash, s, kept, kept);
      WholeRecordsIsMaximal(s.log, kept, |s.log|);
      assert s.log[..|s.log|] == s.log;
    }
  }

  /** With nothing left over by earlier failures, being synced is enough. */
  lemma SurvivesIffSynced(hash: Key -> nat, s: Store)
    requires Inv(hash, s) && Clean(s)
    ensures SurvivesPowerLoss(hash, s) <==> s.walOffset <= s.durable
    ensures SurvivesExactly(hash, s) <==> s.walOffset <= s.durable
  {
    hide SurvivesPowerLoss, SurvivesExactly, Harmless, Decodes, Genuine, Clean, EncodeLog, AllFit, Scan;
    hide SequenceInv, PhaseInv, TableInv;
    SurvivesIff(hash, s);
    if s.walOffset <= s.durable {
      forall kept: nat | s.durable <= kept <= |s.file|
        ensures Harmless(s.file[s.walOffset..kept]) && Decodes(s.attempt, s.file[s.walOffset..kept])
      {
        CleanTail(s, kept);
      }
    }
  }

  lemma CleanTail(s: Store, kept: nat)
    requires FileInv(s) && SequenceInv(s) && AttemptInv(s) && Clean(s) && s.walOffset <= kept <= |s.file|
    ensures Harmless(s.file[s.walOffset..kept]) && Decodes(s.attempt, s.file[s.walOffset..kept])
  {
    hide Harmless, Decodes, Genuine, SequenceInv, Clean, EncodeLog, Scan, Fits;
    var tail := s.file[s.walOffset..kept];
    CleanIsSafe(s, kept);
    if kept == s.walOffset {
      NothingIsGenuine(s.attempt, tail);
    }
    GenuineScans(s.attempt, tail);
    hide Survivor;
    ScansIffHarmless(tail);
    TailDecodes(s.attempt, tail);
    assert Survivor(s.attempt, tail) == [] || Survivor(s.attempt, tail) == s.attempt by {
      SurvivorIsAttempt(s.attempt, tail);
    }
  }

  lemma SurvivorIsAttempt(attempt: seq<LogRecord>, tail: seq<Byte>)
    ensures Survivor(attempt, tail) == [] || Survivor(attempt, tail) == attempt
  {
    hide Encode;
  }

  lemma InvFile(hash: Key -> nat, s: Store)
    requires Inv(hash, s)
    ensures FileInv(s)
  {}

  // ------------------------------------------------------ recovering twice

  /** On every byte string that opens at all, opening the result again changes nothing. */
  lemma ReopenIsIdempotent(hash: Key -> nat, file: seq<Byte>, durable: nat)
    requires Scan(file).Scanned?
    ensures var s := Open(hash, file, durable);
            && s.walOffset == |s.file| <= |file|
            && Scan(s.file).Scanned?
            && var s' := Open(hash, s.file, s.durable);
               s'.file == s.file && s'.log == s.log && s'.shards == s.shards &&
               s'.nextSequence == s.nextSequence && s'.walOffset == s.walOffset
  {
    hide Scan, Replay, NextAfter, Cut, WholeRecords;
    ScanIsStable(file);
    var s := Open(hash, file, durable);
    assert s.file[..|s.file|] == s.file;
  }

  // --------------------------------------------------------------- sequences

  /** Sequence numbers along the log strictly increase, the next one is larger than all of them, and every
      slot of the table is the write of its key with the highest number. */
  lemma SequenceFreshness(hash: Key -> nat, s: Store)
    requires Inv(hash, s)
    ensures Increasing(Writes(s.log))
    ensures forall i :: 0 <= i < |Writes(s.log)| ==> Writes(s.log)[i].sequence < s.nextSequence
    ensures forall k :: k in Replay(s.log) ==> HighestWrite(Writes(s.log), k, Replay(s.log)[k])
  {
    hide FileInv, AttemptInv, PhaseInv, TableInv, Writes, Replay, HighestWrite, Increasing;
    WritesIncrease(s.log);
    forall k | k in Replay(s.log)
      ensures HighestWrite(Writes(s.log), k, Replay(s.log)[k])
    {
      SlotsHoldHighestWrites(s.log, k);
    }
  }

  // ------------------------------------------------- one group from start to end

  function ApplyShards(n: nat): seq<Step> {
    if n == 0 then [] else [ApplyShard] + ApplyShards(n - 1)
  }

  /** The steps of a group that succeeds. */
  function CommitSteps(s: Store, entries: seq<Entry>): seq<Step> {
    var size := |Encode(LogRecord(s.nextSequence, entries))|;
    [Begin(entries), Land(size), Sync] + (ApplyShards(SHARD_COUNT) + [Advance, Finish])
  }

  /** The steps of a group that fails after `landed` of its bytes have reached the file. */
  function FailSteps(entries: seq<Entry>, landed: nat): seq<Step> {
    [Begin(entries), Land(landed), Fail, Finish]
  }

  /** What a successful group makes of a database. */
  function Committed(hash: Key -> nat, s: Store, entries: seq<Entry>): Store
    requires s.walOffset <= |s.file|
  {
    var r := LogRecord(s.nextSequence, entries);
    var file := Overwrite(s.file, s.walOffset, Encode(r));
    var t := Replay(s.log + [r]);
    Store(file, |file|, s.walOffset + |Encode(r)|, s.nextSequence + |entries|, Cut(hash, t, t, 0), s.log + [r],
          |s.log| + 1, [], Idle)
  }

  /** What a failed group makes of a database: only the file past walOffset changes. */
  function Failed(s: Store, entries: seq<Entry>, landed: nat): Store
    requires s.walOffset <= |s.file| && landed <= |Encode(LogRecord(s.nextSequence, entries))|
  {
    var r := LogRecord(s.nextSequence, entries);
    s.(file := Overwrite(s.file, s.walOffset, Encode(r)[..landed]),
       durable := DurableAfterWrite(s, landed),
       attempt := [r])
  }

  /** A group with its first n shards applied. */
  function Midway(hash: Key -> nat, s: Store, n: nat): Store {
    s.(shards := Cut(hash, Replay(s.log), Replay(s.log + s.attempt), n), phase := Applying(n))
  }

  lemma MidwayStep(hash: Key -> nat, s: Store, n: nat)
    requires |s.attempt| == 1 && n < SHARD_COUNT
    ensures Enabled(Midway(hash, s, n), ApplyShard)
    ensures Do(hash, Midway(hash, s, n), ApplyShard) == Midway(hash, s, n + 1)
  {
    hide Cut, Part, Bucket, ApplyAll, Numbered, Replay;
    var r := s.attempt[0];
    var before, after := Replay(s.log), Replay(s.log + s.attempt);
    assert s.attempt == [r];
    ReplaySnoc(s.log, r);
    CutStep(hash, before, after, n);
    ShardedApply(hash, before, Numbered(r.entries, r.base), n);
  }

  lemma {:induction false} ApplyShardsRun(hash: Key -> nat, s: Store, n: nat, rest: seq<Step>)
    requires |s.attempt| == 1 && n <= SHARD_COUNT
    requires Legal(hash, Midway(hash, s, SHARD_COUNT), rest)
    ensures Legal(hash, Midway(hash, s, n), ApplyShards(SHARD_COUNT - n) + rest)
    ensures Exec(hash, Midway(hash, s, n), ApplyShards(SHARD_COUNT - n) + rest) ==
            Exec(hash, Midway(hash, s, SHARD_COUNT), rest)
    decreases SHARD_COUNT - n
  {
    hide Enabled, Do, Midway;
    var steps := ApplyShards(SHARD_COUNT - n) + rest;
    if n == SHARD_COUNT {
      assert steps == rest;
    } else {
      MidwayStep(hash, s, n);
      assert steps[0] == ApplyShard && steps[1..] == ApplyShards(SHARD_COUNT - (n + 1)) + rest;
      ApplyShardsRun(hash, s, n + 1, rest);
    }
  }

  lemma LegalCons(hash: Key -> nat, s: Store, step: Step, rest: seq<Step>)
    requires Enabled(s, step) && Legal(hash, Do(hash, s, step), rest)
    ensures Legal(hash, s, [step] + rest)
    ensures Exec(hash, s, [step] + rest) == Exec(hash, Do(hash, s, step), rest)
  {
    hide Enabled, Do;
    assert ([step] + rest)[1..] == rest;
  }

  lemma {:induction false} ExecConcat(hash: Key -> nat, s: Store, a: seq<Step>, b: seq<Step>)
    requires Legal(hash, s, a) && Legal(hash, Exec(hash, s, a), b)
    ensures Legal(hash, s, a + b) && Exec(hash, s, a + b) == Exec(hash, Exec(hash, s, a), b)
    decreases |a|
  {
    hide Enabled, Do;
    if a == [] {
      assert a + b == b;
    } else {
      assert (a + b)[1..] == a[1..] + b;
      ExecConcat(hash, Do(hash, s, a[0]), a[1..], b);
    }
  }

  /** The end of a group: the offset, the sequence and the log advance together. */
  lemma CommitEnd(hash: Key -> nat, s: Store)
    requires |s.attempt| == 1
    ensures var t := Replay(s.log + s.attempt);
            var m := Midway(hash, s, SHARD_COUNT);
            && Legal(hash, m, [Advance, Finish])
            && Exec(hash, m, [Advance, Finish]) ==
               m.(walOffset := s.walOffset + |Encode(s.attempt[0])|,
                  nextSequence := s.nextSequence + |s.attempt[0].entries|,
                  shards := Cut(hash, t, t, 0),
                  log := s.log + s.attempt, acked := |s.log| + 1, attempt := [], phase := Idle)
  {
    hide Encode, Cut, Replay;
    var m := Midway(hash, s, SHARD_COUNT);
    CutOfPhase(hash, Replay(s.log), Replay(s.log + s.attempt));
    assert s.attempt == [s.attempt[0]];
    var m1 := Do(hash, m, Advance);
    var m2 := Do(hash, m1, Finish);
    assert [Advance, Finish][1..] == [Finish] && [Finish][1..] == [];
    assert Legal(hash, m2, []);
    assert Legal(hash, m1, [Finish]) && Exec(hash, m1, [Finish]) == m2;
  }

  /** A group with `landed` of its bytes in the file. */
  function Landed(s: Store, entries: seq<Entry>, landed: nat): Store
    requires s.walOffset <= |s.file| && landed <= |Encode(LogRecord(s.nextSequence, entries))|
  {
    Failed(s, entries, landed).(phase := Writing(landed))
  }

  lemma LandedRun(hash: Key -> nat, s: Store, entries: seq<Entry>, landed: nat, rest: seq<Step>)
    requires s.walOffset <= |s.file| && Enabled(s, Begin(entries))
    requires landed <= |Encode(LogRecord(s.nextSequence, entries))|
    requires Legal(hash, Landed(s, entries, landed), rest)
    ensures Legal(hash, s, [Begin(entries), Land(landed)] + rest)
    ensures Exec(hash, s, [Begin(entries), Land(landed)] + rest) == Exec(hash, Landed(s, entries, landed), rest)
  {
    hide Encode, Legal, Exec, Overwrite, Fits;
    var s1 := Do(hash, s, Begin(entries));
    assert Do(hash, s1, Land(landed)) == Landed(s, entries, landed);
    LegalCons(hash, s1, Land(landed), rest);
    LegalCons(hash, s, Begin(entries), [Land(landed)] + rest);
    assert [Begin(entries), Land(landed)] + rest == [Begin(entries)] + ([Land(landed)] + rest);
  }

  lemma OneStep(hash: Key -> nat, s: Store, step: Step)
    requires Enabled(s, step)
    ensures Legal(hash, s, [step]) && Exec(hash, s, [step]) == Do(hash, s, step)
  {
    hide Enabled, Do;
    assert [step][1..] == [];
  }

  /** The whole of a successful group, step by step, has exactly the effect of Committed. */
  lemma CommitRun(hash: Key -> nat, s: Store, entries: seq<Entry>)
    requires Inv(hash, s) && Enabled(s, Begin(entries))
    ensures s.walOffset <= |s.file|
    ensures Reaches(hash, s, CommitSteps(s, entries), Committed(hash, s, entries))
  {
    hide Encode, Cut, Replay, Legal, Exec, ApplyShards, Overwrite, EncodeLog, Inv;
    InvFile(hash, s);
    TableOfIdle(hash, s);
    var r := LogRecord(s.nextSequence, entries);
    var size := |Encode(r)|;
    assert Encode(r)[..size] == Encode(r);
    var s2 := Landed(s, entries, size);
    var s3 := Do(hash, s2, Sync);
    CutOfPhase(hash, Replay(s.log), Replay(s.log + [r]));
    assert s3 == Midway(hash, s3, 0);
    CommitEnd(hash, s3);
    ApplyShardsRun(hash, s3, 0, [Advance, Finish]);
    var rest := ApplyShards(SHARD_COUNT) + [Advance, Finish];
    LegalCons(hash, s2, Sync, rest);
    LandedRun(hash, s, entries, size, [Sync] + rest);
    assert CommitSteps(s, entries) == [Begin(entries), Land(size)] + ([Sync] + rest);
  }

  lemma TableOfIdle(hash: Key -> nat, s: Store)
    requires Inv(hash, s) && s.phase.Idle?
    ensures s.shards == Cut(hash, Replay(s.log), Replay(s.log), 0)
  {}

  /** The whole of a failed group has exactly the effect of Failed. */
  lemma FailRun(hash: Key -> nat, s: Store, entries: seq<Entry>, landed: nat)
    requires Inv(hash, s) && Enabled(s, Begin(entries))
    requires landed <= |Encode(LogRecord(s.nextSequence, entries))|
    ensures s.walOffset <= |s.file|
    ensures Reaches(hash, s, FailSteps(entries, landed), Failed(s, entries, landed))
  {
    hide Encode, Legal, Exec, Overwrite, EncodeLog, Inv;
    InvFile(hash, s);
    var s2 := Landed(s, entries, landed);
    var s3 := Do(hash, s2, Fail);
    OneStep(hash, s3, Finish);
    LegalCons(hash, s2, Fail, [Finish]);
    LandedRun(hash, s, entries, landed, [Fail] + [Finish]);
    assert FailSteps(entries, landed) == [Begin(entries), Land(landed)] + ([Fail] + [Finish]);
  }

  // --------------------------------------------------------- taking runs apart

  lemma {:induction false} ReachesSplit(hash: Key -> nat, s: Store, a: seq<Step>, b: seq<Step>, s': Store)
    returns (middle: Store)
    requires Reaches(hash, s, a + b, s')
    ensures Reaches(hash, s, a, middle) && Reaches(hash, middle, b, s')
    decreases |a|
  {
    hide Enabled, Do;
    if a == [] {
      assert a + b == b;
      middle := s;
    } else {
      assert (a + b)[1..] == a[1..] + b;
      middle := ReachesSplit(hash, Do(hash, s, a[0]), a[1..], b, s');
    }
  }

  lemma ReachesOneStep(hash: Key -> nat, s: Store, step: Step, s': Store)
    requires Reaches(hash, s, [step], s')
    ensures Enabled(s, step) && Do(hash, s, step) == s'
  {
    hide Enabled, Do;
    OneStep(hash, s, step);
  }

  /** The states between the parts of a group's run. */
  lemma InFour(hash: Key -> nat, s: Store, begin: Step, io: seq<Step>, last: Step, s': Store)
    returns (s1: Store, s2: Store, s3: Store)
    requires (last.Advance? || last.Fail?) && Reaches(hash, s, [begin] + io + [last] + [Finish], s')
    ensures Enabled(s, begin) && s1 == Do(hash, s, begin)
    ensures Reaches(hash, s1, io, s2)
    ensures Enabled(s2, last) && s3 == Do(hash, s2, last) && s3.phase == Done(last.Advance?)
    ensures Enabled(s3, Finish) && s' == Do(hash, s3, Finish)
  {
    hide Reaches;
    s3 := ReachesSplit(hash, s, [begin] + io + [last], [Finish], s');
    s2 := ReachesSplit(hash, s, [begin] + io, [last], s3);
    s1 := ReachesSplit(hash, s, [begin], io, s2);
    ReachesOneStep(hash, s, begin, s1);
    ReachesOneStep(hash, s2, last, s3);
    ReachesOneStep(hash, s3, Finish, s');
  }

  /** What a successful group does between its start and its last step. */
  function CommitIo(s: Store, entries: seq<Entry>): seq<Step> {
    [Land(|Encode(LogRecord(s.nextSequence, entries))|), Sync] + ApplyShards(SHARD_COUNT)
  }

  lemma {:induction false} OnlyApplyShards(n: nat)
    ensures forall i :: 0 <= i < |ApplyShards(n)| ==> ApplyShards(n)[i] == ApplyShard
  {
    if n > 0 {
      OnlyApplyShards(n - 1);
    }
  }

  lemma CommitIoIsIo(s: Store, entries: seq<Entry>)
    ensures forall i :: 0 <= i < |CommitIo(s, entries)| ==>
              CommitIo(s, entries)[i].Land? || CommitIo(s, entries)[i].Sync? || CommitIo(s, entries)[i].ApplyShard?
    ensures CommitSteps(s, entries) == [Begin(entries)] + CommitIo(s, entries) + [Advance] + [Finish]
  {
    hide ApplyShards, Encode;
    OnlyApplyShards(SHARD_COUNT);
  }
}
