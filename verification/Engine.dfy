/** The whole engine: the group-commit protocol drives the store, one group at a time (src/db.cc,
    enqueueAsyncWriter and writerLoop calling writeGroup, and Open calling recover). */
module Engine {
  import Words
  import opened WalFormat
  import opened TableModel
  import G = GroupCommit
  import S = Store
  import opened Sequences
  import R = StoreRuns

  type Writer = G.Writer

  datatype Engine = Engine(
    protocol: G.Protocol,
    store: S.Store,
    /** How many groups the log held when this process opened it. */
    found: nat)

  datatype Step =
    | Queue(step: G.Step)
    | Start
    | Io(io: S.Step)
    | Report
    | Crash(kept: nat, power: bool)

  function Batches(writers: seq<Writer>): seq<Batch> {
    if writers == [] then [] else Batches(writers[..|writers| - 1]) + [writers[|writers| - 1].batch]
  }

  /** The entries that writeGroup logs for a group. */
  function Entries(writers: seq<Writer>): seq<Entry> {
    Flatten(Batches(writers))
  }

  function Fresh(hash: Key -> nat): Engine {
    Engine(G.Initial(), S.Fresh(hash), 0)
  }

  /** What writeGroup does to the store between its start and its report. */
  predicate IsIo(io: S.Step) {
    io.Land? || io.Sync? || io.Fail? || io.ApplyShard? || io.Advance?
  }

  predicate Enabled(e: Engine, step: Step) {
    var p, s := e.protocol, e.store;
    match step
    case Queue(q) => G.Enabled(p, q) && G.Proper(p, q) && !q.FinishInline? && !q.FinishGroup?
    case Start => G.InFlight(p) != [] && S.Enabled(s, S.Begin(Entries(G.InFlight(p))))
    case Io(io) => IsIo(io) && S.Enabled(s, io)
    case Report => s.phase.Done? && G.InFlight(p) != []
    case Crash(kept, power) => S.Enabled(s, S.Crash(kept, power))
  }

  /** The group in flight is told the outcome of its write. */
  function Told(p: G.Protocol, ok: bool): G.Protocol
    requires G.InFlight(p) != []
  {
    var status := if ok then G.Ok else G.Error;
    if p.inline != [] then G.Do(p, G.FinishInline(p.inline[0], status)) else G.Do(p, G.FinishGroup(status))
  }

  function Do(hash: Key -> nat, e: Engine, step: Step): Engine
    requires Enabled(e, step)
  {
    var p, s := e.protocol, e.store;
    match step
    case Queue(q) => e.(protocol := G.Do(p, q))
    case Start => e.(store := S.Do(hash, s, S.Begin(Entries(G.InFlight(p)))))
    case Io(io) => e.(store := S.Do(hash, s, io))
    case Report => e.(protocol := Told(p, s.phase.ok), store := S.Do(hash, s, S.Finish))
    case Crash(kept, power) =>
      var s' := S.Do(hash, s, S.Crash(kept, power));
      Engine(G.Initial(), s', |s'.log|)
  }

  // -------------------------------------------------------------- the invariant

  /** What the groups that succeeded have logged, one element per group. */
  function Accepted(groups: seq<G.Group>): seq<seq<Entry>> {
    if groups == [] then [] else
    var init, last := Accepted(groups[..|groups| - 1]), groups[|groups| - 1];
    if last.status.Ok? then init + [Entries(last.writers)] else init
  }

  function Logged(log: seq<LogRecord>): seq<seq<Entry>> {
    if log == [] then [] else Logged(log[..|log| - 1]) + [log[|log| - 1].entries]
  }

  /** The group that is in the log and has yet to be told so. */
  function Unreported(e: Engine): seq<seq<Entry>> {
    if e.store.phase == S.Done(true) then [Entries(G.InFlight(e.protocol))] else []
  }

  /** The log since it was opened is one record per successful group, in the order the groups finished. */
  predicate LogIsAccepted(e: Engine) {
    && e.found <= |e.store.log|
    && Logged(e.store.log[e.found..]) == Accepted(e.protocol.groups) + Unreported(e)
  }

  /** The store is busy only with the group in flight. */
  predicate Linked(e: Engine) {
    var p, s := e.protocol, e.store;
    && (!s.phase.Idle? ==> G.InFlight(p) != [])
    && (s.phase.Writing? || s.phase.Applying? ==> |s.attempt| == 1 && s.attempt[0].entries == Entries(G.InFlight(p)))
    && (|s.log| > e.found ==> s.acked == |s.log|)
  }

  predicate Inv(hash: Key -> nat, e: Engine) {
    G.Inv(e.protocol) && S.Inv(hash, e.store) && Linked(e) && LogIsAccepted(e)
  }

  lemma FreshInv(hash: Key -> nat)
    ensures Inv(hash, Fresh(hash)) && S.Clean(Fresh(hash).store)
  {
    G.InitialInv();
    S.FreshInv(hash);
  }

  /** A process that has just opened a database. */
  lemma JustOpened(hash: Key -> nat, s: S.Store)
    requires S.Inv(hash, s) && s.phase.Idle?
    ensures Inv(hash, Engine(G.Initial(), s, |s.log|))
  {
    hide S.Inv, G.Inv;
    G.InitialInv();
    assert s.log[|s.log|..] == [];
  }

  lemma LoggedSnoc(log: seq<LogRecord>, r: LogRecord)
    ensures Logged(log + [r]) == Logged(log) + [r.entries]
  {
    assert (log + [r])[..|log|] == log;
  }

  lemma AcceptedSnoc(groups: seq<G.Group>, g: G.Group)
    ensures Accepted(groups + [g]) == Accepted(groups) + if g.status.Ok? then [Entries(g.writers)] else []
  {
    assert (groups + [g])[..|groups|] == groups;
  }

  // ------------------------------------------------------------ each step keeps it

  /** Outside the two finishing steps no group is added, and a group in flight stays as it is. */
  lemma QueueKeepsGroup(p: G.Protocol, q: G.Step)
    requires G.Inv(p) && Enabled(Engine(p, S.Fresh(_ => 0), 0), Queue(q))
    ensures G.Do(p, q).groups == p.groups
    ensures G.InFlight(p) != [] ==> G.InFlight(G.Do(p, q)) == G.InFlight(p)
  {
    hide G.InOrder, G.Distinct, G.Counted, G.Told;
    match q
    case Arrive(w) =>
    case Check =>
    case Gather =>
    case _ =>
  }

  lemma QueueKeepsInv(hash: Key -> nat, e: Engine, q: G.Step)
    requires Inv(hash, e) && Enabled(e, Queue(q))
    ensures Inv(hash, Do(hash, e, Queue(q)))
  {
    hide G.Inv, S.Inv, Entries, Logged, Accepted, G.Do, G.Enabled, G.InFlight;
    G.StepKeepsInv(e.protocol, q);
    QueueKeepsGroup(e.protocol, q);
  }

  lemma StartKeepsInv(hash: Key -> nat, e: Engine)
    requires Inv(hash, e) && Enabled(e, Start)
    ensures Inv(hash, Do(hash, e, Start))
  {
    hide G.Inv, S.Inv, Entries, Logged, Accepted, G.InFlight, Fits;
    S.StepKeepsInv(hash, e.store, S.Begin(Entries(G.InFlight(e.protocol))));
  }

  lemma IoKeepsInv(hash: Key -> nat, e: Engine, io: S.Step)
    requires Inv(hash, e) && Enabled(e, Io(io))
    ensures Inv(hash, Do(hash, e, Io(io)))
  {
    hide G.Inv, S.Inv, Entries, Logged, Accepted, G.InFlight, Encode, S.Overwrite, Bucket, ApplyAll, Numbered;
    S.StepKeepsInv(hash, e.store, io);
    if io.Advance? {
      var s, r := e.store, e.store.attempt[0];
      LoggedSnoc(s.log[e.found..], r);
      assert (s.log + [r])[e.found..] == s.log[e.found..] + [r];
      assert Accepted(e.protocol.groups) + [] == Accepted(e.protocol.groups);
    }
  }

  lemma ReportFinishes(p: G.Protocol, ok: bool)
    requires G.Inv(p) && G.InFlight(p) != []
    ensures G.Inv(Told(p, ok)) && G.InFlight(Told(p, ok)) == []
    ensures Told(p, ok).groups == p.groups + [G.Group(G.InFlight(p), if ok then G.Ok else G.Error)]
  {
    var status := if ok then G.Ok else G.Error;
    hide G.InOrder, G.Distinct, G.Counted, G.Told, G.WithStatus;
    if p.inline != [] {
      assert p.inline == [p.inline[0]] && G.InFlight(p) == [p.inline[0]];
      G.WithoutOnly(p.inline[0]);
      G.StepKeepsInv(p, G.FinishInline(p.inline[0], status));
    } else {
      assert G.InFlight(p) == p.thread.group;
      G.StepKeepsInv(p, G.FinishGroup(status));
    }
  }

  lemma ReportKeepsInv(hash: Key -> nat, e: Engine)
    requires Inv(hash, e) && Enabled(e, Report)
    ensures Inv(hash, Do(hash, e, Report))
  {
    hide G.Inv, S.Inv, Entries, Logged, Accepted, G.InFlight, Told;
    var p, ok := e.protocol, e.store.phase.ok;
    ReportFinishes(p, ok);
    S.StepKeepsInv(hash, e.store, S.Finish);
    AcceptedSnoc(p.groups, G.Group(G.InFlight(p), if ok then G.Ok else G.Error));
  }

  lemma CrashKeepsInv(hash: Key -> nat, e: Engine, kept: nat, power: bool)
    requires kept <= |e.store.file| && S.Safe(e.store, kept)
    requires S.Inv(hash, e.store) && Enabled(e, Crash(kept, power))
    ensures Inv(hash, Do(hash, e, Crash(kept, power)))
  {
    hide S.Inv, S.Do, S.Safe, S.Enabled, Inv;
    S.CrashEndsIdle(hash, e.store, kept, power);
    S.StepKeepsInv(hash, e.store, S.Crash(kept, power));
    JustOpened(hash, S.Do(hash, e.store, S.Crash(kept, power)));
  }

  lemma StepKeepsInv(hash: Key -> nat, e: Engine, step: Step)
    requires Inv(hash, e) && Enabled(e, step)
    requires step.Crash? ==> step.kept <= |e.store.file| && S.Safe(e.store, step.kept)
    ensures Inv(hash, Do(hash, e, step))
  {
    hide G.Inv, S.Inv, Linked, LogIsAccepted, S.Safe, S.Enabled, G.Enabled, Do;
    match step
    case Queue(q) => QueueKeepsInv(hash, e, q);
    case Start => StartKeepsInv(hash, e);
    case Io(io) => IoKeepsInv(hash, e, io);
    case Report => ReportKeepsInv(hash, e);
    case Crash(kept, power) => CrashKeepsInv(hash, e, kept, power);
  }

  // ------------------------------------------------ what being told Ok amounts to

  /** The place in the log of the record of the i-th finished group, if that group succeeded. */
  function RecordOf(e: Engine, i: nat): nat
    requires i <= |e.protocol.groups|
  {
    e.found + |Accepted(e.protocol.groups[..i])|
  }

  /** A batch stands in a record at this place. */
  predicate StandsAt(batch: Batch, entries: seq<Entry>, j: nat) {
    j + |batch| <= |entries| && entries[j..j + |batch|] == batch
  }

  /** Every writer's batch stands in the record of its group, right after those of the writers before it. */
  lemma BatchStands(writers: seq<Writer>, k: nat)
    requires k < |writers|
    ensures StandsAt(writers[k].batch, Entries(writers), |Entries(writers[..k])|)
  {
    hide Entries;
    var w, before, after := writers[k], writers[..k], writers[k + 1..];
    assert writers == before + ([w] + after);
    EntriesConcat(before, [w] + after);
    EntriesConcat([w], after);
    EntriesOfOne(w);
  }

  lemma {:induction false} AcceptedAt(groups: seq<G.Group>, i: nat)
    requires i < |groups| && groups[i].status.Ok?
    ensures |Accepted(groups[..i])| < |Accepted(groups)|
    ensures Accepted(groups)[|Accepted(groups[..i])|] == Entries(groups[i].writers)
    decreases |groups|
  {
    hide Entries;
    var n := |groups| - 1;
    if i < n {
      assert groups[..n][..i] == groups[..i];
      AcceptedAt(groups[..n], i);
    }
  }

  /** Different successful groups have different records, in the order in which they finished. */
  lemma RecordsDiffer(e: Engine, i: nat, j: nat)
    requires i < j <= |e.protocol.groups| && e.protocol.groups[i].status.Ok?
    ensures RecordOf(e, i) < RecordOf(e, j)
  {
    hide Accepted;
    AcceptedAt(e.protocol.groups[..j], i);
    assert e.protocol.groups[..j][..i] == e.protocol.groups[..i];
  }

  lemma {:induction false} LoggedAt(log: seq<LogRecord>, i: nat)
    requires i < |log|
    ensures |Logged(log)| == |log| && Logged(log)[i] == log[i].entries
    decreases |log|
  {
    if |log| > 1 {
      LoggedAt(log[..|log| - 1], if i < |log| - 1 then i else 0);
    }
  }

  lemma LoggedLength(log: seq<LogRecord>)
    ensures |Logged(log)| == |log|
  {}

  /** A group that has been told Ok has its own record in the log, in its place, and all of the log is
      synced. */
  lemma ToldOkIsRecorded(hash: Key -> nat, e: Engine, i: nat)
    requires Inv(hash, e) && i < |e.protocol.groups| && e.protocol.groups[i].status.Ok?
    ensures RecordOf(e, i) < |e.store.log| == e.store.acked
    ensures e.store.log[RecordOf(e, i)].entries == Entries(e.protocol.groups[i].writers)
    ensures |EncodeLog(e.store.log)| <= e.store.durable
  {
    hide G.Inv, Entries, Logged, Accepted, EncodeLog, S.SequenceInv, S.AttemptInv, S.PhaseInv, S.TableInv;
    var s := e.store;
    var since := s.log[e.found..];
    var n := |Accepted(e.protocol.groups[..i])|;
    AcceptedAt(e.protocol.groups, i);
    LoggedLength(since);
    LoggedAt(since, n);
    assert since[n] == s.log[e.found + n];
    assert s.log[..|s.log|] == s.log;
  }

  // --------------------------------------------------------------- order of the log

  /** The writers that have been told Ok, in the order in which they arrived. */
  function Succeeded(arrived: seq<Writer>, statuses: map<nat, G.Status>): seq<Writer> {
    if arrived == [] then [] else
    var init, last := Succeeded(arrived[..|arrived| - 1], statuses), arrived[|arrived| - 1];
    if last.id in statuses && statuses[last.id].Ok? then init + [last] else init
  }

  lemma {:induction false} SucceededConcat(a: seq<Writer>, b: seq<Writer>, statuses: map<nat, G.Status>)
    ensures Succeeded(a + b, statuses) == Succeeded(a, statuses) + Succeeded(b, statuses)
    decreases |b|
  {
    if b == [] {
      assert a + b == a;
    } else {
      var n := |b| - 1;
      assert (a + b)[..|a + b| - 1] == a + b[..n];
      SucceededConcat(a, b[..n], statuses);
    }
  }

  /** All of a successful group, none of a failed one. */
  lemma {:induction false} SucceededGroup(writers: seq<Writer>, statuses: map<nat, G.Status>, status: G.Status)
    requires forall j :: 0 <= j < |writers| ==> writers[j].id in statuses && statuses[writers[j].id] == status
    ensures Succeeded(writers, statuses) == if status.Ok? then writers else []
    decreases |writers|
  {
    if writers != [] {
      SucceededGroup(writers[..|writers| - 1], statuses, status);
    }
  }

  lemma {:induction false} SucceededNone(writers: seq<Writer>, statuses: map<nat, G.Status>)
    requires forall j :: 0 <= j < |writers| ==> writers[j].id !in statuses
    ensures Succeeded(writers, statuses) == []
    decreases |writers|
  {
    if writers != [] {
      SucceededNone(writers[..|writers| - 1], statuses);
    }
  }

  lemma {:induction false} BatchesConcat(a: seq<Writer>, b: seq<Writer>)
    ensures Batches(a + b) == Batches(a) + Batches(b)
    decreases |b|
  {
    if b == [] {
      assert a + b == a;
    } else {
      assert (a + b)[..|a + b| - 1] == a + b[..|b| - 1];
      BatchesConcat(a, b[..|b| - 1]);
    }
  }

  lemma EntriesConcat(a: seq<Writer>, b: seq<Writer>)
    ensures Entries(a + b) == Entries(a) + Entries(b)
  {
    BatchesConcat(a, b);
    FlattenConcat(Batches(a), Batches(b));
  }

  predicate GroupsTold(groups: seq<G.Group>, statuses: map<nat, G.Status>) {
    forall i, j :: 0 <= i < |groups| && 0 <= j < |groups[i].writers| ==>
      var id := groups[i].writers[j].id; id in statuses && statuses[id] == groups[i].status
  }

  lemma {:induction false} AcceptedIsSucceeded(groups: seq<G.Group>, statuses: map<nat, G.Status>)
    requires GroupsTold(groups, statuses)
    ensures Flatten(Accepted(groups)) == Entries(Succeeded(G.Flat(groups), statuses))
    decreases |groups|
  {
    if groups != [] {
      var init, last := groups[..|groups| - 1], groups[|groups| - 1];
      hide Flatten, Batches, Succeeded;
      AcceptedIsSucceeded(init, statuses);
      SucceededConcat(G.Flat(init), last.writers, statuses);
      SucceededGroup(last.writers, statuses, last.status);
      if last.status.Ok? {
        FlattenSnocOne(Accepted(init), Entries(last.writers));
        EntriesConcat(Succeeded(G.Flat(init), statuses), last.writers);
      } else {
        assert Succeeded(G.Flat(init), statuses) + [] == Succeeded(G.Flat(init), statuses);
      }
    } else {
      assert Flatten(Accepted(groups)) == [];
    }
  }

  lemma FlattenSnocOne(all: seq<seq<Entry>>, last: seq<Entry>)
    ensures Flatten(all + [last]) == Flatten(all) + last
  {
    FlattenConcat(all, [last]);
    assert Flatten([last]) == last + Flatten([]);
  }

  /** Commit order is arrival order, down to the log: between groups, what the log gained since it was
      opened is the batches of the writers told Ok, in the order in which those writers arrived, and
      nothing else. */
  lemma LogIsArrivalOrder(hash: Key -> nat, e: Engine)
    requires Inv(hash, e) && e.store.phase != S.Done(true)
    ensures e.found <= |e.store.log|
    ensures Flatten(Logged(e.store.log[e.found..])) == Entries(Succeeded(e.protocol.arrived, e.protocol.statuses))
  {
    hide S.Inv, Entries, Logged, Accepted, Succeeded, Flatten, G.Counted, G.Attended, G.Owned, G.Flat, G.Ids;
    var p := e.protocol;
    var done, rest := G.Flat(p.groups), G.InFlight(p) + p.queue;
    assert p.arrived == done + rest;
    AcceptedIsSucceeded(p.groups, p.statuses);
    SucceededConcat(done, rest, p.statuses);
    RestUntold(p);
    SucceededNone(rest, p.statuses);
    assert Succeeded(done, p.statuses) + [] == Succeeded(done, p.statuses);
    assert Accepted(p.groups) + [] == Accepted(p.groups);
  }

  lemma RestUntold(p: G.Protocol)
    requires G.Inv(p)
    ensures var rest := G.InFlight(p) + p.queue;
            forall j :: 0 <= j < |rest| ==> rest[j].id !in p.statuses
  {
    hide G.Counted, G.Attended, G.Owned, G.Flat, G.InFlight;
    var done, rest := G.Flat(p.groups), G.InFlight(p) + p.queue;
    assert p.arrived == done + rest + [];
    G.DistinctParts(done, rest, []);
    forall j | 0 <= j < |rest|
      ensures rest[j].id !in p.statuses
    {
      G.MemberId(rest, j);
    }
  }

  // ------------------------------------------------------------------------- runs

  /** Any step the code would take, and a crash that keeps any byte prefix from the synced part on. */
  predicate MayTry(e: Engine, step: Step) {
    var s := e.store;
    match step
    case Crash(kept, power) => s.durable <= kept <= |s.file| && (power || kept == |s.file|)
    case _ => Enabled(e, step)
  }

  /** A run of the whole engine in which every crash is safe.  That the database can be opened after a crash
      is not assumed. */
  predicate SafeRun(hash: Key -> nat, e: Engine, steps: seq<Step>)
    decreases |steps|
  {
    steps == [] ||
    (&& MayTry(e, steps[0])
     && (steps[0].Crash? ==> S.Safe(e.store, steps[0].kept))
     && (Enabled(e, steps[0]) ==> SafeRun(hash, Do(hash, e, steps[0]), steps[1..])))
  }

  predicate Legal(hash: Key -> nat, e: Engine, steps: seq<Step>)
    decreases |steps|
  {
    steps == [] || (Enabled(e, steps[0]) && Legal(hash, Do(hash, e, steps[0]), steps[1..]))
  }

  function Exec(hash: Key -> nat, e: Engine, steps: seq<Step>): Engine
    requires Legal(hash, e, steps)
    decreases |steps|
  {
    if steps == [] then e else Exec(hash, Do(hash, e, steps[0]), steps[1..])
  }

  /** The record that a step submits for writing: that of the group in flight when it is started. */
  function SubmittedBy(e: Engine, step: Step): seq<LogRecord> {
    if step.Start? then [LogRecord(e.store.nextSequence, Entries(G.InFlight(e.protocol)))] else []
  }

  /** The record that a step acknowledges: that of the group in flight, which is told next. */
  function AcknowledgedBy(e: Engine, step: Step): seq<LogRecord> {
    if step == Io(S.Advance) then e.store.attempt else []
  }

  function Submitted(hash: Key -> nat, e: Engine, steps: seq<Step>): seq<LogRecord>
    decreases |steps|
  {
    if steps == [] || !Enabled(e, steps[0]) then [] else
    SubmittedBy(e, steps[0]) + Submitted(hash, Do(hash, e, steps[0]), steps[1..])
  }

  function Acknowledged(hash: Key -> nat, e: Engine, steps: seq<Step>): seq<LogRecord>
    decreases |steps|
  {
    if steps == [] || !Enabled(e, steps[0]) then [] else
    AcknowledgedBy(e, steps[0]) + Acknowledged(hash, Do(hash, e, steps[0]), steps[1..])
  }

  /** What the step does to the store, if anything. */
  lemma StoreStep(hash: Key -> nat, e: Engine, step: Step)
    requires S.Inv(hash, e.store) && MayTry(e, step)
    requires step.Crash? ==> S.Safe(e.store, step.kept)
    ensures Enabled(e, step)
    ensures R.Accounts(e.store, SubmittedBy(e, step), AcknowledgedBy(e, step), Do(hash, e, step).store)
  {
    hide S.Inv, S.Safe, S.Do, R.Accounts, G.Do, G.Enabled, Entries, Told, G.InFlight;
    var s := e.store;
    match step
    case Queue(q) => R.AccountsNothing(hash, s);
    case Start => R.SafeStepRecovers(hash, s, S.Begin(Entries(G.InFlight(e.protocol))));
    case Io(io) => R.SafeStepRecovers(hash, s, io);
    case Report => R.SafeStepRecovers(hash, s, S.Finish);
    case Crash(kept, power) => R.SafeStepRecovers(hash, s, S.Crash(kept, power));
  }

  /** The engine over any safe run: clients, the writer thread, the device, failures and crashes interleave
      freely, and the database opens again after every crash.  Across all reopens, the log lies between the
      groups that were acknowledged and the groups that were started. */
  lemma {:induction false} SafeRunsKeep(hash: Key -> nat, e: Engine, steps: seq<Step>)
    requires Inv(hash, e) && SafeRun(hash, e, steps)
    ensures Legal(hash, e, steps)
    ensures var e' := Exec(hash, e, steps);
            && Inv(hash, e')
            && R.Accounts(e.store, Submitted(hash, e, steps), Acknowledged(hash, e, steps), e'.store)
    decreases |steps|
  {
    hide G.Inv, S.Inv, Linked, LogIsAccepted, S.Safe, Enabled, Do, R.Accounts, SubmittedBy, AcknowledgedBy;
    if steps == [] {
      R.AccountsNothing(hash, e.store);
    } else {
      StoreStep(hash, e, steps[0]);
      hide Inv;
      StepKeepsInv(hash, e, steps[0]);
      var e1 := Do(hash, e, steps[0]);
      SafeRunsKeep(hash, e1, steps[1..]);
      R.AccountsTransitive(e.store, SubmittedBy(e, steps[0]), AcknowledgedBy(e, steps[0]), e1.store,
                           Submitted(hash, e1, steps[1..]), Acknowledged(hash, e1, steps[1..]),
                           Exec(hash, e1, steps[1..]).store);
    }
  }

  /** From an empty directory on: every acknowledged group is in the log and durable, and every record of the
      log is a group that some writers handed in, in order. */
  lemma EveryRun(hash: Key -> nat, steps: seq<Step>)
    requires SafeRun(hash, Fresh(hash), steps)
    ensures Legal(hash, Fresh(hash), steps) && Inv(hash, Exec(hash, Fresh(hash), steps))
    ensures var s := Exec(hash, Fresh(hash), steps).store;
            && s.acked <= |s.log| && |EncodeLog(s.log[..s.acked])| <= s.durable
            && Subsequence(Acknowledged(hash, Fresh(hash), steps), s.log[..s.acked])
            && Subsequence(s.log + s.attempt, Submitted(hash, Fresh(hash), steps))
  {
    hide G.Inv, S.SequenceInv, S.AttemptInv, S.PhaseInv, S.TableInv, Linked, LogIsAccepted, S.Clean, SafeRun, Legal, Exec;
    hide Subsequence, Submitted, Acknowledged, EncodeLog, AllFit;
    FreshInv(hash);
    SafeRunsKeep(hash, Fresh(hash), steps);
    assert [] + Acknowledged(hash, Fresh(hash), steps) == Acknowledged(hash, Fresh(hash), steps);
    assert [] + [] + Submitted(hash, Fresh(hash), steps) == Submitted(hash, Fresh(hash), steps);
  }

  /** The promise of the engine.  Once a writer has been told Ok, then after whatever safe run follows, with
      any number of failures, crashes and reopens, the very record that its group was written as is in its
      place in the log, synced, with the writer's batch in its place inside; the log holds nothing else than
      what it held or what was started since; and the table is the replay of that log. */
  lemma ToldOkSurvives(hash: Key -> nat, e: Engine, steps: seq<Step>, i: nat, k: nat)
    requires Inv(hash, e) && SafeRun(hash, e, steps)
    requires i < |e.protocol.groups| && e.protocol.groups[i].status.Ok? && k < |e.protocol.groups[i].writers|
    ensures Legal(hash, e, steps)
    ensures var s := Exec(hash, e, steps).store;
            var writers := e.protocol.groups[i].writers;
            var n := RecordOf(e, i);
            && n < |e.store.log| && n < s.acked <= |s.log|
            && s.log[n] == e.store.log[n]
            && s.log[n].entries == Entries(writers)
            && StandsAt(writers[k].batch, s.log[n].entries, |Entries(writers[..k])|)
            && |EncodeLog(s.log[..s.acked])| <= s.durable
            && Subsequence(s.log + s.attempt, e.store.log + e.store.attempt + Submitted(hash, e, steps))
            && |s.shards| == SHARD_COUNT
            && (!s.phase.Applying? ==> forall key :: ShardedLookup(hash, s.shards, key) == Lookup(Replay(s.log), key))
  {
    hide SafeRun, Linked, LogIsAccepted, G.Inv, Exec, Legal, EncodeLog, Lookup, Replay, ShardedLookup, RecordOf, Entries;
    hide S.SequenceInv, S.AttemptInv, S.PhaseInv, S.TableInv, StandsAt, Submitted, Acknowledged, Subsequence;
    SafeRunsKeep(hash, e, steps);
    ToldOkIsRecorded(hash, e, i);
    BatchStands(e.protocol.groups[i].writers, k);
    var s, s' := e.store, Exec(hash, e, steps).store;
    assert s.log[..s.acked] == s.log;
    assert s'.log[..s'.acked][RecordOf(e, i)] == s.log[RecordOf(e, i)];
    R.IdleTable(hash, s');
  }

  /** A run in which no group starts over bytes that a failed group has left; its crashes may keep any byte
      prefix from the synced part on. */
  predicate CleanRun(hash: Key -> nat, e: Engine, steps: seq<Step>)
    decreases |steps|
  {
    steps == [] ||
    (&& MayTry(e, steps[0])
     && (steps[0].Start? ==> |e.store.file| == e.store.walOffset)
     && (Enabled(e, steps[0]) ==> CleanRun(hash, Do(hash, e, steps[0]), steps[1..])))
  }

  lemma {:induction false} CleanRunIsSafe(hash: Key -> nat, e: Engine, steps: seq<Step>)
    requires S.Inv(hash, e.store) && S.Clean(e.store) && CleanRun(hash, e, steps)
    ensures SafeRun(hash, e, steps)
    decreases |steps|
  {
    if steps != [] {
      hide S.Inv, S.Clean, Enabled, Do, S.Safe;
      CleanStep(hash, e, steps[0]);
      CleanRunIsSafe(hash, Do(hash, e, steps[0]), steps[1..]);
    }
  }

  lemma CleanStep(hash: Key -> nat, e: Engine, step: Step)
    requires S.Inv(hash, e.store) && S.Clean(e.store) && MayTry(e, step)
    requires step.Start? ==> |e.store.file| == e.store.walOffset
    ensures Enabled(e, step) && (step.Crash? ==> S.Safe(e.store, step.kept))
    ensures S.Inv(hash, Do(hash, e, step).store) && S.Clean(Do(hash, e, step).store)
  {
    hide S.Inv, S.Clean, S.Safe, S.Do, G.Do, G.Enabled, Entries, Told, G.InFlight;
    var s := e.store;
    match step
    case Queue(q) =>
    case Start => R.CleanStep(hash, s, S.Begin(Entries(G.InFlight(e.protocol))));
    case Io(io) => R.CleanStep(hash, s, io);
    case Report => R.CleanStep(hash, s, S.Finish);
    case Crash(kept, power) => R.CleanStep(hash, s, S.Crash(kept, power));
  }

  // -------------------------------------------------------------------- readers

  /** In every interleaving, a reader of any key sees the table of a log that is whole in the file: what was
      found at opening, then the groups told Ok in order, then at most the group in flight, once it is
      synced.  All of it is durable, unless it is just what was found at opening. */
  lemma ReadersSeeDurable(hash: Key -> nat, e: Engine, k: Key)
    requires Inv(hash, e)
    ensures |e.store.shards| == SHARD_COUNT
    ensures var log := R.VisibleLog(hash, e.store, k);
            && ShardedLookup(hash, e.store.shards, k) == Lookup(Replay(log), k)
            && EncodeLog(log) <= e.store.file
            && (|EncodeLog(log)| <= e.store.durable || |log| == e.found)
            && e.found <= |log|
            && (Logged(log[e.found..]) == Accepted(e.protocol.groups) ||
                Logged(log[e.found..]) == Accepted(e.protocol.groups) + [Entries(G.InFlight(e.protocol))])
  {
    hide G.Inv, S.Inv, EncodeLog, Entries, Accepted, Logged, Lookup, Replay, ShardedLookup, G.InFlight;
    R.DurableBeforeVisible(hash, e.store, k);
    var s := e.store;
    assert Accepted(e.protocol.groups) + [] == Accepted(e.protocol.groups);
    if s.phase.Applying? {
      LoggedSnoc(s.log[e.found..], s.attempt[0]);
      assert (s.log + s.attempt)[e.found..] == s.log[e.found..] + [s.attempt[0]];
    }
  }

  // ------------------------------------------------------------------- progress

  /** Steps that need neither a new call nor a spurious wake-up, and that do something. */
  predicate Internal(e: Engine, step: Step) {
    match step
    case Queue(q) => G.Internal(q)
    case Start => true
    case Io(io) => io.Land? ==> e.store.phase.Writing? && e.store.phase.landed < io.landed
    case Report => true
    case Crash(_, _) => false
  }

  /** The size of the record of a group. */
  function Size(writers: seq<Writer>): nat {
    RECORD_HEADER_SIZE + BATCH_HEADER_SIZE + |EncodeEntries(Entries(writers))|
  }

  /** How much the store has left to do for the group in flight. */
  function StoreWork(e: Engine): nat {
    var size := Size(G.InFlight(e.protocol));
    match e.store.phase
    case Idle => if G.InFlight(e.protocol) == [] then 0 else size + SHARD_COUNT + 4
    case Writing(landed) => (if landed <= size then size - landed else 0) + SHARD_COUNT + 3
    case Applying(cut) => (if cut <= SHARD_COUNT then SHARD_COUNT - cut else 0) + 2
    case Done(_) => 1
  }

  /** How much the engine has left to do: an upper bound on the steps it can take by itself. */
  function Work(e: Engine): nat {
    Weighted(G.Work(e.protocol), Size(e.protocol.arrived) + SHARD_COUNT + 5, StoreWork(e))
  }

  function Weighted(w: nat, m: nat, r: nat): nat {
    w * m + r
  }

  lemma SizeOfRecord(r: LogRecord)
    ensures |Encode(r)| == RECORD_HEADER_SIZE + BATCH_HEADER_SIZE + |EncodeEntries(r.entries)|
  {
    hide EncodeEntries;
  }

  lemma PartIsSmaller(a: seq<Writer>, b: seq<Writer>, c: seq<Writer>)
    ensures Size(b) <= Size(a + b + c)
  {
    hide Entries, EncodeEntries;
    EntriesConcat(a + b, c);
    EntriesConcat(a, b);
    EncodeEntriesConcat(Entries(a + b), Entries(c));
    EncodeEntriesConcat(Entries(a), Entries(b));
  }

  lemma Lexicographic(w': nat, w: nat, m: nat, r': nat)
    requires w' < w && r' < m
    ensures Weighted(w', m, r') < Weighted(w, m, 0)
  {
    assert (w' + 1) * m <= w * m;
  }

  lemma WeightedMonotone(w: nat, m: nat, r': nat, r: nat)
    requires r' <= r
    ensures Weighted(w, m, r) - Weighted(w, m, r') == r - r'
  {}

  lemma StoreWorkIsSmall(e: Engine)
    requires G.InOrder(e.protocol)
    ensures StoreWork(e) < Size(e.protocol.arrived) + SHARD_COUNT + 5
  {
    hide Size, G.Flat, G.InFlight;
    PartIsSmaller(G.Flat(e.protocol.groups), G.InFlight(e.protocol), e.protocol.queue);
  }

  /** Working for the group in flight leaves the store less to do. */
  lemma StoreStepsEnd(hash: Key -> nat, e: Engine, step: Step)
    requires Inv(hash, e) && Enabled(e, step) && Internal(e, step) && (step.Start? || step.Io?)
    ensures StoreWork(Do(hash, e, step)) < StoreWork(e)
  {
    hide G.Inv, LogIsAccepted, Encode, EncodeLog, Replay, Cut, Entries, EncodeEntries, G.InFlight, Bucket, ApplyAll;
    hide Numbered, S.Overwrite, S.FileInv, S.SequenceInv, S.TableInv, Fits;
    var s := e.store;
    if |s.attempt| == 1 {
      SizeOfRecord(s.attempt[0]);
    }
  }

  lemma ProtocolStepsEnd(hash: Key -> nat, e: Engine, step: Step)
    requires Inv(hash, e) && Enabled(e, step) && Internal(e, step) && (step.Queue? || step.Report?)
    ensures var p, p' := e.protocol, Do(hash, e, step).protocol;
            G.Work(p') < G.Work(p) && p'.arrived == p.arrived
  {
    hide S.Inv, Linked, LogIsAccepted, G.Inv, G.Work, G.Do, S.Do;
    var p := e.protocol;
    match step
    case Queue(q) =>
      G.InternalStepsEnd(p, q);
      G.InternalKeepsArrived(p, q);
    case Report =>
      var status := if e.store.phase.ok then G.Ok else G.Error;
      var q := if p.inline != [] then G.FinishInline(p.inline[0], status) else G.FinishGroup(status);
      G.InternalStepsEnd(p, q);
      G.InternalKeepsArrived(p, q);
  }

  /** Every internal step leaves less work: whatever the schedule, the engine cannot run in circles. */
  lemma InternalStepsEnd(hash: Key -> nat, e: Engine, step: Step)
    requires Inv(hash, e) && Enabled(e, step) && Internal(e, step)
    ensures Work(Do(hash, e, step)) < Work(e)
    ensures Do(hash, e, step).protocol.arrived == e.protocol.arrived
  {
    var e' := Do(hash, e, step);
    if step.Start? || step.Io? {
      StoreStepsEnd(hash, e, step);
      hide StoreWork, G.Work, Size, Weighted;
      assert e'.protocol == e.protocol;
      WeightedMonotone(G.Work(e.protocol), Size(e.protocol.arrived) + SHARD_COUNT + 5, StoreWork(e'), StoreWork(e));
    } else {
      hide StoreWork, G.Work, Size, Weighted, G.Told, S.Inv, G.Do, S.Do, Told, Linked, LogIsAccepted;
      ProtocolStepsEnd(hash, e, step);
      StepKeepsInv(hash, e, step);
      StoreWorkIsSmall(e');
      Lexicographic(G.Work(e'.protocol), G.Work(e.protocol), Size(e.protocol.arrived) + SHARD_COUNT + 5, StoreWork(e'));
      WeightedMonotone(G.Work(e.protocol), Size(e.protocol.arrived) + SHARD_COUNT + 5, 0, StoreWork(e));
    }
  }

  /** Nobody has anything left to do until a new call arrives. */
  ghost predicate Quiet(e: Engine) {
    forall step: Step :: Internal(e, step) ==> !Enabled(e, step)
  }

  /** The group in flight, if it has yet to start, is not too large to be written. */
  predicate CanStart(e: Engine) {
    G.InFlight(e.protocol) != [] && e.store.phase.Idle? ==>
      S.Enabled(e.store, S.Begin(Entries(G.InFlight(e.protocol))))
  }

  /** The next step for a group in flight when nothing fails. */
  function NextStep(e: Engine): Step {
    match e.store.phase
    case Idle => Start
    case Writing(landed) =>
      if |e.store.attempt| == 1 && landed < |Encode(e.store.attempt[0])| then Io(S.Land(|Encode(e.store.attempt[0])|))
      else Io(S.Sync)
    case Applying(cut) => if cut < SHARD_COUNT then Io(S.ApplyShard) else Io(S.Advance)
    case Done(_) => Report
  }

  lemma GroupCanGoOn(hash: Key -> nat, e: Engine)
    requires Inv(hash, e) && G.InFlight(e.protocol) != [] && CanStart(e)
    ensures Enabled(e, NextStep(e)) && Internal(e, NextStep(e))
  {
    hide G.Inv, LogIsAccepted, EncodeLog, Encode, Replay, Part, Entries, G.InFlight, Fits, S.SequenceInv;
  }

  /** When the engine is quiet every writer that ever arrived has been told. */
  lemma QuietMeansServed(hash: Key -> nat, e: Engine)
    requires Inv(hash, e) && Quiet(e) && CanStart(e)
    ensures e.protocol.queue == [] && G.InFlight(e.protocol) == []
    ensures e.protocol.statuses.Keys == G.Ids(e.protocol.arrived)
  {
    if G.InFlight(e.protocol) != [] {
      GroupCanGoOn(hash, e);
    }
    QuietProtocol(e);
    hide G.Inv, S.Inv, Linked, LogIsAccepted, Quiet, G.Quiet;
    assert G.Inv(e.protocol) by {
      InvProtocol(hash, e);
    }
    G.QuietMeansServed(e.protocol);
  }

  lemma QuietProtocol(e: Engine)
    requires Quiet(e) && G.InFlight(e.protocol) == [] && G.NonEmptyGroups(e.protocol)
    ensures G.Quiet(e.protocol)
  {
    var p := e.protocol;
    forall q: G.Step | G.Internal(q)
      ensures !G.Enabled(p, q)
    {
      if q.FinishInline? || q.FinishGroup? {
        assert |G.InFlight(p)| == |p.inline| + |G.ThreadGroup(p)|;
      } else {
        assert Internal(e, Queue(q)) && !Enabled(e, Queue(q));
      }
    }
  }

  predicate InternalRun(hash: Key -> nat, e: Engine, steps: seq<Step>)
    decreases |steps|
  {
    steps == [] ||
    (Enabled(e, steps[0]) && Internal(e, steps[0]) && InternalRun(hash, Do(hash, e, steps[0]), steps[1..]))
  }

  /** Left alone, the threads and the device finish within a bounded number of steps, however they are
      scheduled, and once they have finished nobody is stranded. */
  lemma {:induction false} EveryRunFinishes(hash: Key -> nat, e: Engine, steps: seq<Step>)
    requires Inv(hash, e) && InternalRun(hash, e, steps)
    ensures Legal(hash, e, steps) && |steps| <= Work(e)
    ensures var e' := Exec(hash, e, steps);
            && Inv(hash, e') && e'.protocol.arrived == e.protocol.arrived
            && (Quiet(e') && CanStart(e') ==> e'.protocol.statuses.Keys == G.Ids(e.protocol.arrived))
    decreases |steps|
  {
    hide Inv, Enabled, Do, Internal, Work, Quiet, CanStart, G.Ids;
    if steps == [] {
      if Quiet(e) && CanStart(e) {
        QuietMeansServed(hash, e);
      }
    } else {
      InternalStepsEnd(hash, e, steps[0]);
      InternalIsNoCrash(e, steps[0]);
      StepKeepsInv(hash, e, steps[0]);
      EveryRunFinishes(hash, Do(hash, e, steps[0]), steps[1..]);
    }
  }

  lemma InternalIsNoCrash(e: Engine, step: Step)
    requires Internal(e, step)
    ensures !step.Crash?
  {}

  // ------------------------------------------------- one group from start to end

  /** Steps of the store as steps of the engine. */
  function Lift(steps: seq<S.Step>): seq<Step> {
    if steps == [] then [] else [Io(steps[0])] + Lift(steps[1..])
  }

  predicate AllIo(steps: seq<S.Step>) {
    forall i :: 0 <= i < |steps| ==> IsIo(steps[i])
  }

  /** The run can be taken from `e` and ends in `e'`. */
  predicate Reaches(hash: Key -> nat, e: Engine, steps: seq<Step>, e': Engine) {
    Legal(hash, e, steps) && Exec(hash, e, steps) == e'
  }

  lemma ReachesOne(hash: Key -> nat, e: Engine, step: Step)
    requires Enabled(e, step)
    ensures Reaches(hash, e, [step], Do(hash, e, step))
  {
    hide Enabled, Do;
    var e' := Do(hash, e, step);
    assert [step][1..] == [] && Legal(hash, e', []);
    assert Legal(hash, e, [step]) && Exec(hash, e, [step]) == e';
  }

  lemma {:induction false} ReachesConcat(hash: Key -> nat, e: Engine, a: seq<Step>, e1: Engine, b: seq<Step>, e2: Engine)
    requires Reaches(hash, e, a, e1) && Reaches(hash, e1, b, e2)
    ensures Reaches(hash, e, a + b, e2)
    decreases |a|
  {
    hide Enabled, Do;
    if a == [] {
      assert a + b == b;
    } else {
      assert (a + b)[1..] == a[1..] + b;
      ReachesConcat(hash, Do(hash, e, a[0]), a[1..], e1, b, e2);
    }
  }

  /** While the store works on a group the protocol may stand still. */
  lemma {:induction false} LiftRuns(hash: Key -> nat, e: Engine, steps: seq<S.Step>, s': S.Store)
    requires R.Reaches(hash, e.store, steps, s') && AllIo(steps)
    ensures Reaches(hash, e, Lift(steps), e.(store := s'))
    decreases |steps|
  {
    hide S.Do, S.Enabled;
    if steps != [] {
      LiftRuns(hash, e.(store := S.Do(hash, e.store, steps[0])), steps[1..], s');
      assert Lift(steps)[0] == Io(steps[0]) && Lift(steps)[1..] == Lift(steps[1..]);
    }
  }

  /** A group in flight is written, logged or not, and told: the engine's run is the store's. */
  lemma GroupRuns(hash: Key -> nat, e: Engine, io: seq<S.Step>, last: S.Step, s': S.Store)
    requires G.InFlight(e.protocol) != [] && AllIo(io) && (last.Advance? || last.Fail?)
    requires R.Reaches(hash, e.store, [S.Begin(Entries(G.InFlight(e.protocol)))] + io + [last] + [S.Finish], s')
    ensures Reaches(hash, e, [Start] + Lift(io) + [Io(last)] + [Report],
                    Engine(Told(e.protocol, last.Advance?), s', e.found))
  {
    hide S.Do, S.Enabled, G.InFlight, Entries, Reaches, Told, Lift, R.Reaches;
    var begin := S.Begin(Entries(G.InFlight(e.protocol)));
    var s1, s2, s3 := R.InFour(hash, e.store, begin, io, last, s');
    var e1, e2, e3 := e.(store := s1), e.(store := s2), e.(store := s3);
    ReachesOne(hash, e, Start);
    LiftRuns(hash, e1, io, s2);
    ReachesConcat(hash, e, [Start], e1, Lift(io), e2);
    ReachesOne(hash, e2, Io(last));
    ReachesConcat(hash, e, [Start] + Lift(io), e2, [Io(last)], e3);
    ReachesOne(hash, e3, Report);
    var e4 := Engine(Told(e.protocol, last.Advance?), s', e.found);
    ReachesConcat(hash, e, [Start] + Lift(io) + [Io(last)], e3, [Report], e4);
  }

  /** The engine once the group in flight has been written, with either outcome, and told. */
  function GroupDone(hash: Key -> nat, e: Engine, ok: bool, landed: nat): Engine
    requires G.InFlight(e.protocol) != [] && e.store.walOffset <= |e.store.file|
    requires landed <= |Encode(LogRecord(e.store.nextSequence, Entries(G.InFlight(e.protocol))))|
  {
    var entries := Entries(G.InFlight(e.protocol));
    Engine(Told(e.protocol, ok),
           if ok then R.Committed(hash, e.store, entries) else R.Failed(e.store, entries, landed), e.found)
  }

  lemma GroupDoneInv(hash: Key -> nat, e: Engine, ok: bool, landed: nat)
    requires Inv(hash, e) && Enabled(e, Start)
    requires landed <= |Encode(LogRecord(e.store.nextSequence, Entries(G.InFlight(e.protocol))))|
    ensures e.store.walOffset <= |e.store.file|
    ensures Inv(hash, GroupDone(hash, e, ok, landed))
    ensures GroupDone(hash, e, ok, landed).protocol.groups ==
            e.protocol.groups + [G.Group(G.InFlight(e.protocol), if ok then G.Ok else G.Error)]
  {
    hide G.Inv, S.Inv, Entries, Logged, Accepted, G.InFlight, Told, Encode, S.Overwrite, Cut, Replay, S.Enabled;
    var p, s, entries := e.protocol, e.store, Entries(G.InFlight(e.protocol));
    R.CommittedKeepsInv(hash, s, entries);
    R.FailedKeepsInv(hash, s, entries, landed);
    ReportFinishes(p, ok);
    AcceptedSnoc(p.groups, G.Group(G.InFlight(p), if ok then G.Ok else G.Error));
    var r := LogRecord(s.nextSequence, entries);
    LoggedSnoc(s.log[e.found..], r);
    StartIsIdle(e);
    assert (s.log + [r])[e.found..] == s.log[e.found..] + [r];
    assert Accepted(p.groups) + [] == Accepted(p.groups);
  }

  lemma StartIsIdle(e: Engine)
    requires Enabled(e, Start)
    ensures e.store.phase.Idle?
  {
    hide Fits, Entries, G.InFlight;
  }

  /** The group in flight can always succeed: there is a run that logs it as one record and tells it Ok. */
  lemma GroupCanSucceed(hash: Key -> nat, e: Engine)
    requires Inv(hash, e) && Enabled(e, Start)
    ensures e.store.walOffset <= |e.store.file|
    ensures exists steps ::
              Reaches(hash, e, steps, Engine(Told(e.protocol, true),
                                             R.Committed(hash, e.store, Entries(G.InFlight(e.protocol))), e.found))
  {
    hide G.Inv, S.Inv, Linked, LogIsAccepted, Entries, G.InFlight, S.Enabled, R.Reaches, R.Committed, Told, Reaches;
    var s, entries := e.store, Entries(G.InFlight(e.protocol));
    R.CommitRun(hash, s, entries);
    var io := R.CommitIo(s, entries);
    R.CommitIoIsIo(s, entries);
    hide R.CommitIo, R.CommitSteps;
    GroupRuns(hash, e, io, S.Advance, R.Committed(hash, s, entries));
  }

  /** However much of it lands, the group in flight can fail: there is a run that leaves the log as it was
      and tells it an error. */
  lemma GroupCanFail(hash: Key -> nat, e: Engine, landed: nat)
    requires Inv(hash, e) && Enabled(e, Start)
    requires landed <= |Encode(LogRecord(e.store.nextSequence, Entries(G.InFlight(e.protocol))))|
    ensures e.store.walOffset <= |e.store.file|
    ensures exists steps ::
              Reaches(hash, e, steps, Engine(Told(e.protocol, false),
                                             R.Failed(e.store, Entries(G.InFlight(e.protocol)), landed), e.found))
  {
    hide G.Inv, S.Inv, Linked, LogIsAccepted, Entries, G.InFlight, S.Enabled, R.Reaches, R.Failed, Told, Reaches, Encode;
    var s, entries := e.store, Entries(G.InFlight(e.protocol));
    R.FailRun(hash, s, entries, landed);
    var io := [S.Land(landed)];
    assert R.FailSteps(entries, landed) == [S.Begin(entries)] + io + [S.Fail] + [S.Finish];
    GroupRuns(hash, e, io, S.Fail, R.Failed(s, entries, landed));
  }

  /** From an empty directory the first writer to arrive can be told Ok, with its batch as the log. */
  lemma FirstWrite(hash: Key -> nat, w: Writer)
    requires w.batch != [] && Fits(LogRecord(1, w.batch)) && |w.batch| + 2 < Words.U64
    ensures exists steps, e ::
              && Reaches(hash, Fresh(hash), steps, e)
              && e.protocol.groups == [G.Group([w], G.Ok)]
              && e.store.log == [LogRecord(1, w.batch)]
  {
    hide Reaches, Told, Inv, Fits, S.Inv, S.Clean, G.Inv;
    var e0 := Fresh(hash);
    var arrive := Queue(G.Arrive(w));
    FreshInv(hash);
    ReachesOne(hash, e0, arrive);
    QueueKeepsInv(hash, e0, G.Arrive(w));
    var e1 := Do(hash, e0, arrive);
    assert G.InFlight(e1.protocol) == [w];
    EntriesOfOne(w);
    GroupCanSucceed(hash, e1);
    var e2 := Engine(Told(e1.protocol, true), R.Committed(hash, e1.store, w.batch), 0);
    var steps :| Reaches(hash, e1, steps, e2);
    ReachesConcat(hash, e0, [arrive], e1, steps, e2);
    InvProtocol(hash, e1);
    ReportFinishes(e1.protocol, true);
    assert e1.protocol.groups == [];
  }

  lemma InvProtocol(hash: Key -> nat, e: Engine)
    requires Inv(hash, e)
    ensures G.Inv(e.protocol)
  {}

  lemma EntriesOfOne(w: Writer)
    ensures Entries([w]) == w.batch
  {
    assert [w][..0] == [] && Batches([w]) == [w.batch];
    FlattenSnocOne([], w.batch);
  }
}
