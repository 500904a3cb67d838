/** Group commit (src/db.cc: enqueueAsyncWriter, writerLoop, the destructor) as a state machine.  Each step
    is one region under the write mutex, one notification, or one return from a wait; any number of clients
    and the writer thread interleave freely. */
module GroupCommit {
  import opened WalFormat

  datatype Status = Ok | Error

  datatype Writer = Writer(id: nat, batch: Batch)

  datatype Group = Group(writers: seq<Writer>, status: Status)

  /** Where the writer thread is: about to take the lock and test its predicate, waiting to be notified,
      in the group-commit wait, inside writeGroup, past it and resuming continuations, or gone. */
  datatype Thread = Checking | Asleep | Gathering | Committing(group: seq<Writer>) | Resuming | Exited

  datatype Protocol = Protocol(
    writing: bool,
    armed: bool,
    stop: bool,
    queue: seq<Writer>,
    statuses: map<nat, Status>,
    suspensions: nat,
    writeGroups: nat,
    maxGroupSize: nat,
    inlineDrains: nat,
    threadDrains: nat,
    thread: Thread,
    /** Clients inside writeGroup on the inline path. */
    inline: seq<Writer>,
    /** Clients that have released the lock after an inline write and have yet to notify. */
    owed: nat,
    /** The destructor has set the stop flag and has yet to notify. */
    stopOwed: bool,
    /** Writers in the order in which they passed the enqueue lock. */
    arrived: seq<Writer>,
    /** Finished groups in the order in which they finished. */
    groups: seq<Group>)

  datatype Step =
    | Arrive(writer: Writer)
    | FinishInline(writer: Writer, status: Status)
    | Notify
    | Wake
    | Check
    | Gather
    | FinishGroup(status: Status)
    | Resume
    | RequestStop
    | NotifyStop

  function Initial(): Protocol {
    Protocol(false, false, false, [], map[], 0, 0, 0, 0, 0, Checking, [], 0, false, [], [])
  }

  /** A notification reaches the writer thread only if it is asleep. */
  function Notified(t: Thread): Thread {
    if t.Asleep? then Checking else t
  }

  function Max(a: nat, b: nat): nat {
    if a < b then b else a
  }

  function Without(writers: seq<Writer>, w: Writer): seq<Writer> {
    if writers == [] then [] else
    if writers[0] == w then writers[1..] else [writers[0]] + Without(writers[1..], w)
  }

  function WithStatus(statuses: map<nat, Status>, writers: seq<Writer>, status: Status): map<nat, Status>
    decreases |writers|
  {
    if writers == [] then statuses else WithStatus(statuses[writers[0].id := status], writers[1..], status)
  }

  /** A group is finished: counted, its writers told. */
  function Finished(p: Protocol, writers: seq<Writer>, status: Status): Protocol {
    p.(writeGroups := p.writeGroups + 1,
       maxGroupSize := Max(p.maxGroupSize, |writers|),
       statuses := WithStatus(p.statuses, writers, status),
       writing := false,
       groups := p.groups + [Group(writers, status)])
  }

  /** The writer thread takes the whole queue. */
  function Drained(p: Protocol): Protocol {
    p.(thread := Committing(p.queue), queue := [], threadDrains := p.threadDrains + 1)
  }

  predicate Enabled(p: Protocol, step: Step) {
    match step
    case Arrive(w) => w.batch != [] && forall i :: 0 <= i < |p.arrived| ==> p.arrived[i].id != w.id
    case FinishInline(w, status) => w in p.inline
    case Notify => p.owed > 0
    case Wake => p.thread.Asleep?
    case Check => p.thread.Checking?
    case Gather => p.thread.Gathering?
    case FinishGroup(status) => p.thread.Committing?
    case Resume => p.thread.Resuming?
    case RequestStop => !p.stop
    case NotifyStop => p.stopOwed
  }

  function Do(p: Protocol, step: Step): Protocol
    requires Enabled(p, step)
  {
    match step
    case Arrive(w) =>
      var q := p.(arrived := p.arrived + [w], suspensions := p.suspensions + 1);
      if !p.writing && p.queue == [] && !p.armed then
        q.(writing := true, inlineDrains := p.inlineDrains + 1, inline := p.inline + [w])
      else
        q.(queue := p.queue + [w], armed := p.armed || p.writing || p.queue != [], thread := Notified(p.thread))
    case FinishInline(w, status) =>
      Finished(p, [w], status).(inline := Without(p.inline, w), owed := p.owed + 1)
    case Notify =>
      p.(owed := p.owed - 1, thread := Notified(p.thread))
    case Wake =>
      p.(thread := Checking)
    case Check =>
      if !(p.stop || (!p.writing && p.queue != [])) then p.(thread := Asleep)
      else if p.stop && p.queue == [] then p.(thread := Exited)
      else if p.armed || |p.queue| > 1 then p.(writing := true, armed := false, thread := Gathering)
      else Drained(p.(writing := true))
    case Gather =>
      Drained(p)
    case FinishGroup(status) =>
      var group := p.thread.group;
      Finished(p, group, status).(armed := p.armed || |group| > 1, thread := Resuming)
    case Resume =>
      p.(thread := Checking)
    case RequestStop =>
      p.(stop := true, stopOwed := true)
    case NotifyStop =>
      p.(stopOwed := false, thread := Notified(p.thread))
  }

  /** The database is used as an object may be: no call once its destructor has begun, and the destructor
      begins only when no call is inside an inline write. */
  predicate Proper(p: Protocol, step: Step) {
    (step.Arrive? ==> !p.stop) && (step.RequestStop? ==> p.inline == [])
  }

  // -------------------------------------------------------------- the invariant

  function Flat(groups: seq<Group>): seq<Writer> {
    if groups == [] then [] else Flat(groups[..|groups| - 1]) + groups[|groups| - 1].writers
  }

  function Largest(groups: seq<Group>): nat {
    if groups == [] then 0 else Max(Largest(groups[..|groups| - 1]), |groups[|groups| - 1].writers|)
  }

  predicate ThreadOwns(p: Protocol) {
    p.thread.Gathering? || p.thread.Committing?
  }

  function ThreadGroup(p: Protocol): seq<Writer> {
    if p.thread.Committing? then p.thread.group else []
  }

  /** The group inside writeGroup. */
  function InFlight(p: Protocol): seq<Writer> {
    p.inline + ThreadGroup(p)
  }

  /** At most one owner of the log offset, the sequence counter and the scratch buffers. */
  predicate Exclusive(p: Protocol) {
    |p.inline| + (if ThreadOwns(p) then 1 else 0) <= 1
  }

  /** The writing flag says whether there is an owner. */
  predicate Owned(p: Protocol) {
    Exclusive(p) && (p.writing <==> p.inline != [] || ThreadOwns(p))
  }

  /** Commit order is arrival order. */
  predicate InOrder(p: Protocol) {
    p.arrived == Flat(p.groups) + InFlight(p) + p.queue
  }

  predicate Distinct(writers: seq<Writer>) {
    forall i, j :: 0 <= i < j < |writers| ==> writers[i].id != writers[j].id
  }

  /** A waiting writer always has someone who will see to it. */
  predicate Attended(p: Protocol) {
    && (p.queue != [] && p.thread.Asleep? ==> p.writing || p.owed > 0)
    && (p.queue != [] ==> !p.thread.Exited?)
    && (p.stop && p.thread.Asleep? ==> p.stopOwed)
    && (p.thread.Exited? ==> p.stop)
    && (p.stop ==> p.inline == [])
  }

  predicate NonEmptyGroups(p: Protocol) {
    && (p.thread.Gathering? ==> p.queue != [])
    && (p.thread.Committing? ==> p.thread.group != [])
    && (forall i :: 0 <= i < |p.groups| ==> p.groups[i].writers != [])
  }

  predicate Counted(p: Protocol) {
    && p.suspensions == |p.arrived|
    && p.writeGroups == |p.groups|
    && p.inlineDrains + p.threadDrains == |p.groups| + |p.inline| + (if p.thread.Committing? then 1 else 0)
    && p.maxGroupSize == Largest(p.groups)
  }

  function Ids(writers: seq<Writer>): set<nat> {
    set i | 0 <= i < |writers| :: writers[i].id
  }

  /** Exactly the writers of finished groups have a status, and it is that of their group. */
  predicate Told(p: Protocol) {
    && p.statuses.Keys == Ids(Flat(p.groups))
    && (forall i, j :: 0 <= i < |p.groups| && 0 <= j < |p.groups[i].writers| ==>
          var id := p.groups[i].writers[j].id; id in p.statuses && p.statuses[id] == p.groups[i].status)
  }

  predicate Inv(p: Protocol) {
    && Owned(p)
    && InOrder(p)
    && Distinct(p.arrived)
    && Attended(p)
    && NonEmptyGroups(p)
    && Counted(p)
    && Told(p)
  }

  lemma InitialInv()
    ensures Inv(Initial())
  {}

  lemma FlatSnoc(groups: seq<Group>, g: Group)
    ensures Flat(groups + [g]) == Flat(groups) + g.writers
    ensures Largest(groups + [g]) == Max(Largest(groups), |g.writers|)
  {
    assert (groups + [g])[..|groups|] == groups;
  }

  /** The recorded maximum is the size of some finished group, and none is larger. */
  lemma {:induction false} LargestIsMaximum(groups: seq<Group>)
    ensures forall i :: 0 <= i < |groups| ==> |groups[i].writers| <= Largest(groups)
    ensures groups == [] ==> Largest(groups) == 0
    ensures groups != [] ==> exists i :: 0 <= i < |groups| && |groups[i].writers| == Largest(groups)
  {
    if groups != [] {
      var n := |groups| - 1;
      var init := groups[..n];
      LargestIsMaximum(init);
      if init != [] && Largest(init) >= |groups[n].writers| {
        var i :| 0 <= i < |init| && |init[i].writers| == Largest(init);
        assert |groups[i].writers| == Largest(groups);
      } else {
        assert |groups[n].writers| == Largest(groups);
      }
      assert forall i :: 0 <= i < n ==> groups[i] == init[i];
    }
  }

  lemma WithoutOnly(w: Writer)
    ensures Without([w], w) == []
  {}

  // ------------------------------------------------------ exclusion, step by step

  /** From a state with at most one owner, the only step that can make two is the writer thread going
      ahead because of the stop flag while an inline write is in progress and writers are queued. */
  lemma ExclusionBreaksIff(p: Protocol, step: Step)
    requires Owned(p) && Enabled(p, step)
    ensures !Exclusive(Do(p, step)) <==> step.Check? && p.stop && p.inline != [] && p.queue != []
  {
    if step.FinishInline? {
      assert p.inline == [step.writer];
      WithoutOnly(step.writer);
    }
  }

  lemma OwnedKept(p: Protocol, step: Step)
    requires Owned(p) && Attended(p) && Enabled(p, step) && Proper(p, step)
    ensures Owned(Do(p, step))
  {
    ExclusionBreaksIff(p, step);
    if step.FinishInline? {
      assert p.inline == [step.writer];
      WithoutOnly(step.writer);
    }
  }

  // --------------------------------------------------------- each part is kept

  lemma OrderKept(p: Protocol, step: Step)
    requires Owned(p) && InOrder(p) && Attended(p) && Enabled(p, step) && Proper(p, step)
    ensures InOrder(Do(p, step))
  {
    hide Flat, WithStatus;
    match step
    case Arrive(w) => OrderKeptByArrive(p, w);
    case FinishInline(w, status) => OrderKeptByFinishInline(p, w, status);
    case FinishGroup(status) => OrderKeptByFinishGroup(p, status);
    case Check => OrderKeptByCheck(p);
    case Gather => OrderKeptByGather(p);
    case Notify =>
    case Wake =>
    case Resume =>
    case RequestStop =>
    case NotifyStop =>
  }

  lemma GroupDone<T>(done: seq<T>, group: seq<T>, queue: seq<T>)
    ensures (done + group) + [] + queue == done + group + queue
  {}

  lemma QueueTaken<T>(done: seq<T>, queue: seq<T>)
    ensures done + queue + [] == done + [] + queue
  {}

  lemma WriterQueued<T>(done: seq<T>, group: seq<T>, queue: seq<T>, w: T)
    ensures done + group + queue + [w] == done + group + (queue + [w])
  {}

  lemma OrderKeptByArrive(p: Protocol, w: Writer)
    requires Owned(p) && InOrder(p) && Enabled(p, Arrive(w))
    ensures InOrder(Do(p, Arrive(w)))
  {
    hide Flat, Enabled;
    var q := Do(p, Arrive(w));
    var done := Flat(p.groups);
    if !p.writing && p.queue == [] && !p.armed {
      assert InFlight(p) == [] && InFlight(q) == [w];
      WriterQueued(done, [], [], w);
      GroupDone(done, [w], []);
      assert done + [] + ([] + [w]) == done + [w] + [];
    } else {
      assert InFlight(q) == InFlight(p);
      WriterQueued(done, InFlight(p), p.queue, w);
    }
  }

  lemma OrderKeptByFinishInline(p: Protocol, w: Writer, status: Status)
    requires Owned(p) && InOrder(p) && Enabled(p, FinishInline(w, status))
    ensures InOrder(Do(p, FinishInline(w, status)))
  {
    hide Flat, WithStatus;
    assert p.inline == [w] && InFlight(p) == [w];
    WithoutOnly(w);
    assert InFlight(Do(p, FinishInline(w, status))) == [];
    hide InFlight, Enabled;
    FlatSnoc(p.groups, Group([w], status));
    GroupDone(Flat(p.groups), [w], p.queue);
  }

  lemma OrderKeptByFinishGroup(p: Protocol, status: Status)
    requires Owned(p) && InOrder(p) && Enabled(p, FinishGroup(status))
    ensures InOrder(Do(p, FinishGroup(status)))
  {
    hide Flat, WithStatus;
    var group := p.thread.group;
    assert p.inline == [] && InFlight(p) == group;
    assert InFlight(Do(p, FinishGroup(status))) == [];
    hide InFlight;
    FlatSnoc(p.groups, Group(group, status));
    GroupDone(Flat(p.groups), group, p.queue);
  }

  lemma OrderKeptByGather(p: Protocol)
    requires Owned(p) && InOrder(p) && Enabled(p, Gather)
    ensures InOrder(Do(p, Gather))
  {
    hide Flat;
    assert p.inline == [] && InFlight(p) == [];
    assert InFlight(Drained(p)) == p.queue;
    QueueTaken(Flat(p.groups), p.queue);
  }

  lemma OrderKeptByCheck(p: Protocol)
    requires Owned(p) && InOrder(p) && Enabled(p, Check) && (p.stop ==> p.inline == [])
    ensures InOrder(Do(p, Check))
  {
    hide Flat;
    var q := Do(p, Check);
    if q.thread.Committing? {
      assert InFlight(p) == [] && InFlight(q) == p.queue;
      QueueTaken(Flat(p.groups), p.queue);
    } else {
      assert InFlight(q) == InFlight(p);
    }
  }

  lemma AttendedKept(p: Protocol, step: Step)
    requires Owned(p) && Attended(p) && Enabled(p, step) && Proper(p, step)
    ensures Attended(Do(p, step))
  {
    if step.FinishInline? {
      assert p.inline == [step.writer];
      WithoutOnly(step.writer);
    }
  }

  lemma NonEmptyKept(p: Protocol, step: Step)
    requires Owned(p) && Attended(p) && NonEmptyGroups(p) && Enabled(p, step) && Proper(p, step)
    ensures NonEmptyGroups(Do(p, step))
  {}

  lemma CountedKept(p: Protocol, step: Step)
    requires Owned(p) && Attended(p) && Counted(p) && Enabled(p, step) && Proper(p, step)
    ensures Counted(Do(p, step))
  {
    match step
    case FinishInline(w, status) =>
      assert p.inline == [w];
      WithoutOnly(w);
      FlatSnoc(p.groups, Group([w], status));
    case FinishGroup(status) =>
      FlatSnoc(p.groups, Group(p.thread.group, status));
    case _ =>
  }

  lemma DistinctKept(p: Protocol, step: Step)
    requires Distinct(p.arrived) && Enabled(p, step)
    ensures Distinct(Do(p, step).arrived)
  {}

  // ----------------------------------------------------------------- statuses

  lemma {:induction false} WithStatusTells(statuses: map<nat, Status>, writers: seq<Writer>, status: Status)
    ensures var after := WithStatus(statuses, writers, status);
            && after.Keys == statuses.Keys + Ids(writers)
            && (forall id :: id in Ids(writers) ==> after[id] == status)
            && (forall id :: id in statuses && id !in Ids(writers) ==> after[id] == statuses[id])
    decreases |writers|
  {
    if writers != [] {
      var first, rest := writers[0], writers[1..];
      WithStatusTells(statuses[first.id := status], rest, status);
      assert Ids(writers) == {first.id} + Ids(rest) by {
        forall id | id in Ids(writers)
          ensures id in {first.id} + Ids(rest)
        {
          var i :| 0 <= i < |writers| && writers[i].id == id;
          if i > 0 {
            assert rest[i - 1].id == id;
          }
        }
        forall id | id in Ids(rest)
          ensures id in Ids(writers)
        {
          var i :| 0 <= i < |rest| && rest[i].id == id;
          assert writers[i + 1].id == id;
        }
      }
    }
  }

  lemma IdsConcat(a: seq<Writer>, b: seq<Writer>)
    ensures Ids(a + b) == Ids(a) + Ids(b)
  {
    forall id | id in Ids(a) + Ids(b)
      ensures id in Ids(a + b)
    {
      if id in Ids(a) {
        var i :| 0 <= i < |a| && a[i].id == id;
        assert (a + b)[i].id == id;
      } else {
        var i :| 0 <= i < |b| && b[i].id == id;
        assert (a + b)[|a| + i].id == id;
      }
    }
  }

  lemma {:induction false} GroupInFlat(groups: seq<Group>, i: nat, j: nat)
    requires i < |groups| && j < |groups[i].writers|
    ensures groups[i].writers[j].id in Ids(Flat(groups))
    decreases |groups|
  {
    var n := |groups| - 1;
    IdsConcat(Flat(groups[..n]), groups[n].writers);
    if i < n {
      GroupInFlat(groups[..n], i, j);
    } else {
      assert groups[n].writers[j].id in Ids(groups[n].writers);
    }
  }

  lemma DistinctParts(a: seq<Writer>, b: seq<Writer>, c: seq<Writer>)
    requires Distinct(a + b + c)
    ensures Ids(a) !! Ids(b)
  {
    var all := a + b + c;
    forall i, j | 0 <= i < |a| && 0 <= j < |b|
      ensures a[i].id != b[j].id
    {
      assert all[i] == a[i] && all[|a| + j] == b[j];
    }
  }

  /** Finishing the group in flight tells exactly its writers, none of whom had been told before. */
  lemma ToldKeptByFinish(p: Protocol, writers: seq<Writer>, status: Status)
    requires InOrder(p) && Distinct(p.arrived) && Told(p) && writers == InFlight(p)
    ensures Told(Finished(p, writers, status))
    ensures Ids(writers) !! p.statuses.Keys
  {
    hide WithStatus, Flat, Ids, InFlight, Distinct;
    WithStatusTells(p.statuses, writers, status);
    FlatSnoc(p.groups, Group(writers, status));
    IdsConcat(Flat(p.groups), writers);
    DistinctParts(Flat(p.groups), writers, p.queue);
    forall i, j | 0 <= i < |p.groups| && 0 <= j < |p.groups[i].writers|
      ensures p.groups[i].writers[j].id in Ids(Flat(p.groups))
    {
      GroupInFlat(p.groups, i, j);
    }
    forall j | 0 <= j < |writers|
      ensures writers[j].id in Ids(writers)
    {
      MemberId(writers, j);
    }
  }

  lemma MemberId(writers: seq<Writer>, j: nat)
    requires j < |writers|
    ensures writers[j].id in Ids(writers)
  {}

  lemma ToldKept(p: Protocol, step: Step)
    requires Owned(p) && InOrder(p) && Distinct(p.arrived) && Attended(p) && Told(p)
    requires Enabled(p, step) && Proper(p, step)
    ensures Told(Do(p, step))
  {
    hide WithStatus, Flat, Ids, InOrder, Distinct;
    if step.FinishInline? {
      assert p.inline == [step.writer] && InFlight(p) == [step.writer];
      ToldKeptByFinish(p, [step.writer], step.status);
    } else if step.FinishGroup? {
      assert p.inline == [] && InFlight(p) == p.thread.group;
      ToldKeptByFinish(p, p.thread.group, step.status);
    } else {
      OthersTellNobody(p, step);
    }
  }

  lemma OthersTellNobody(p: Protocol, step: Step)
    requires Enabled(p, step) && !step.FinishInline? && !step.FinishGroup?
    ensures Do(p, step).statuses == p.statuses && Do(p, step).groups == p.groups
  {
    match step
    case Arrive(w) =>
    case Check =>
    case Gather =>
    case Notify =>
    case Wake =>
    case Resume =>
    case RequestStop =>
    case NotifyStop =>
  }

  /** A status, once given, is never changed. */
  lemma StatusIsFinal(p: Protocol, step: Step, id: nat)
    requires Inv(p) && Enabled(p, step) && Proper(p, step) && id in p.statuses
    ensures id in Do(p, step).statuses && Do(p, step).statuses[id] == p.statuses[id]
  {
    hide Flat, WithStatus, Ids;
    match step
    case FinishInline(w, status) =>
      assert p.inline == [w] && InFlight(p) == [w];
      ToldKeptByFinish(p, [w], status);
      WithStatusTells(p.statuses, [w], status);
    case FinishGroup(status) =>
      assert p.inline == [] && InFlight(p) == p.thread.group;
      ToldKeptByFinish(p, p.thread.group, status);
      WithStatusTells(p.statuses, p.thread.group, status);
    case _ =>
  }

  lemma StepKeepsInv(p: Protocol, step: Step)
    requires Inv(p) && Enabled(p, step) && Proper(p, step)
    ensures Inv(Do(p, step))
  {
    hide Enabled, Do, Owned, InOrder, Distinct, Attended, NonEmptyGroups, Counted, Told;
    OwnedKept(p, step);
    OrderKept(p, step);
    DistinctKept(p, step);
    AttendedKept(p, step);
    NonEmptyKept(p, step);
    CountedKept(p, step);
    ToldKept(p, step);
  }

  // -------------------------------------------------------------------- progress

  /** Steps that need neither a new call nor a spurious wake-up. */
  predicate Internal(step: Step) {
    !step.Arrive? && !step.RequestStop? && !step.Wake?
  }

  /** Nobody has anything left to do until a new call arrives. */
  ghost predicate Quiet(p: Protocol) {
    forall step: Step :: Internal(step) ==> !Enabled(p, step)
  }

  function Rank(t: Thread): nat {
    match t
    case Exited => 0
    case Asleep => 0
    case Gathering => 1
    case Checking => 2
    case Resuming => 3
    case Committing(_) => 4
  }

  /** How much work is left. */
  function Work(p: Protocol): nat {
    10 * |p.queue| + 5 * |p.inline| + 3 * p.owed + (if p.stopOwed then 3 else 0) + Rank(p.thread)
  }

  /** Every internal step leaves less work: the protocol cannot run in circles. */
  lemma InternalStepsEnd(p: Protocol, step: Step)
    requires Inv(p) && Enabled(p, step) && Internal(step)
    ensures Work(Do(p, step)) < Work(p)
  {
    hide Told, Counted, InOrder, Distinct, Flat, Largest, WithStatus;
    if step.FinishInline? {
      assert p.inline == [step.writer];
      WithoutOnly(step.writer);
    }
  }

  /** When nothing is left to do, every writer that ever arrived has its status: none is stranded. */
  lemma QuietMeansServed(p: Protocol)
    requires Inv(p) && Quiet(p)
    ensures p.queue == [] && p.inline == [] && p.arrived == Flat(p.groups)
    ensures p.statuses.Keys == Ids(p.arrived)
  {
    hide Counted, Distinct, Flat, Ids;
    assert !Enabled(p, Notify) && !Enabled(p, NotifyStop) && !Enabled(p, Check) && !Enabled(p, Gather);
    assert !Enabled(p, FinishGroup(Ok)) && !Enabled(p, Resume);
    assert p.inline != [] ==> Enabled(p, FinishInline(p.inline[0], Ok));
  }

  // ------------------------------------------------------------------------ runs

  predicate ProperRun(p: Protocol, steps: seq<Step>)
    decreases |steps|
  {
    steps == [] || (Enabled(p, steps[0]) && Proper(p, steps[0]) && ProperRun(Do(p, steps[0]), steps[1..]))
  }

  function Exec(p: Protocol, steps: seq<Step>): Protocol
    requires ProperRun(p, steps)
    decreases |steps|
  {
    if steps == [] then p else Exec(Do(p, steps[0]), steps[1..])
  }

  lemma {:induction false} RunsKeepInv(p: Protocol, steps: seq<Step>)
    requires Inv(p) && ProperRun(p, steps)
    ensures Inv(Exec(p, steps))
    decreases |steps|
  {
    hide Inv, Enabled, Do, Proper;
    if steps != [] {
      StepKeepsInv(p, steps[0]);
      RunsKeepInv(Do(p, steps[0]), steps[1..]);
    }
  }

  /** In every run from the start, whatever the interleaving: commit order is arrival order, there is at
      most one group in progress, and the counters add up. */
  lemma EveryRun(steps: seq<Step>)
    requires ProperRun(Initial(), steps)
    ensures var p := Exec(Initial(), steps);
            && Inv(p)
            && p.arrived == Flat(p.groups) + InFlight(p) + p.queue
            && p.suspensions == |Flat(p.groups)| + |InFlight(p)| + |p.queue|
  {
    InitialInv();
    hide ProperRun, Exec;
    RunsKeepInv(Initial(), steps);
  }

  /** Left alone after any run, the threads finish within a bounded number of steps, however they are
      scheduled, and if they can go on they have not yet served everyone or still hold a notification. */
  lemma {:induction false} EveryRunFinishes(p: Protocol, steps: seq<Step>)
    requires Inv(p) && ProperRun(p, steps)
    requires forall i :: 0 <= i < |steps| ==> Internal(steps[i])
    ensures |steps| <= Work(p)
    ensures Quiet(Exec(p, steps)) ==> Exec(p, steps).arrived == p.arrived && Exec(p, steps).statuses.Keys == Ids(p.arrived)
    decreases |steps|
  {
    hide Inv, Enabled, Do, Proper, Work, Quiet, Ids;
    if steps == [] {
      if Quiet(p) {
        QuietMeansServed(p);
      }
    } else {
      var q := Do(p, steps[0]);
      StepKeepsInv(p, steps[0]);
      InternalStepsEnd(p, steps[0]);
      InternalKeepsArrived(p, steps[0]);
      EveryRunFinishes(q, steps[1..]);
    }
  }

  lemma InternalKeepsArrived(p: Protocol, step: Step)
    requires Enabled(p, step) && Internal(step)
    ensures Do(p, step).arrived == p.arrived
  {
    hide Enabled, WithStatus, Without;
  }

  // ------------------------------------------------- the shutdown race, by example

  /** A destructor that starts during an inline write, with a second writer queued, lets two groups run at
      the same time. */
  lemma ShutdownRace(first: Writer, second: Writer)
    requires first.id != second.id && first.batch != [] && second.batch != []
    ensures Enabled(Initial(), Arrive(first))
    ensures var p1 := Do(Initial(), Arrive(first));
            && Enabled(p1, Arrive(second))
            && var p2 := Do(p1, Arrive(second));
               && Enabled(p2, RequestStop) && !Proper(p2, RequestStop)
               && var p3 := Do(p2, RequestStop);
                  && Enabled(p3, Check)
                  && var p4 := Do(p3, Check);
                     && Enabled(p4, Gather)
                     && var p5 := Do(p4, Gather);
                        p5.inline == [first] && p5.thread == Committing([second])
  {}
}
