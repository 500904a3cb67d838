/** The database with its queue: what a client's call and the writer thread's turn do as a whole (src/db.cc,
    enqueueAsyncWriter and writerLoop). */
module Server {
  import opened WalFormat
  import opened TableModel
  import G = GroupCommit
  import Q = CommitQueue
  import D = Db
  import S = Store
  import R = StoreRuns
  import E = Engine

  class Server {
    const queue: Q.CommitQueue
    const db: D.Db
    /** How many groups the log held when it was opened. */
    ghost const found: nat

    /** The two objects as a state of the engine, between groups. */
    ghost function View(): E.Engine
      reads queue, db, db.memtable.shards
    {
      E.Engine(queue.protocol, db.View(), found)
    }

    ghost predicate Valid()
      reads queue, db, db.memtable, db.memtable.shards, db.memtableUpdates
    {
      queue.Valid() && db.Valid() && E.Inv(db.memtable.hash, View())
    }

    /** A queue for a database that has just been opened. */
    constructor (db: D.Db)
      requires db.Valid()
      ensures Valid() && this.db == db && fresh(queue) && queue.protocol == G.Initial() && found == |db.log|
    {
      hide S.Inv, E.Inv, G.Inv, G.Initial, Replay;
      this.db := db;
      queue := new Q.CommitQueue();
      found := |db.log|;
      new;
      E.JustOpened(db.memtable.hash, db.View());
    }

    /** Collect the batches of a group and write them. */
    method WriteBatches(group: seq<G.Writer>, io: D.IoOutcome) returns (ok: bool)
      requires db.Valid() && S.Enabled(db.View(), S.Begin(E.Entries(group)))
      requires io.Plausible(|Encode(LogRecord(db.nextSequence, E.Entries(group)))|)
      modifies db, db.memtable, db.memtable.shards, db.walRecord, db.memtableUpdates
      ensures db.Valid()
      ensures ok <==> io.synced
      ensures old(db.View()).walOffset <= |old(db.View()).file|
      ensures db.View() == if ok then R.Committed(db.memtable.hash, old(db.View()), E.Entries(group))
                           else R.Failed(old(db.View()), E.Entries(group), io.landed)
    {
      hide S.Inv, Encode, Flatten, S.Enabled, R.Committed, R.Failed;
      var batches: seq<Batch> := [];
      for i := 0 to |group|
        invariant batches == E.Batches(group[..i])
      {
        assert group[..i + 1][..i] == group[..i];
        batches := batches + [group[i].batch];
      }
      assert group[..|group|] == group;
      ok := db.WriteGroup(batches, io);
    }

    /** The turn of the writer thread with a group it has taken: the group is written and told, whatever the
        outcome, in one step of the engine. */
    method CommitGroup(group: seq<G.Writer>, io: D.IoOutcome) returns (status: G.Status)
      requires Valid() && queue.protocol.thread == G.Committing(group) && E.Enabled(View(), E.Start)
      requires io.Plausible(|Encode(LogRecord(db.nextSequence, E.Entries(group)))|)
      modifies queue, db, db.memtable, db.memtable.shards, db.walRecord, db.memtableUpdates
      ensures Valid()
      ensures G.InFlight(old(View()).protocol) == group && old(View()).store.walOffset <= |old(View()).store.file|
      ensures View() == E.GroupDone(db.memtable.hash, old(View()), status.Ok?, io.landed)
      ensures status.Ok? <==> io.synced
      ensures forall i :: 0 <= i < |group| ==> group[i].id in queue.statuses && queue.statuses[group[i].id] == status
    {
      hide E.Inv, G.Inv, S.Inv, E.Entries, Encode, R.Committed, R.Failed, G.Do, S.Enabled;
      ghost var was := View();
      OnlyGroup(queue.protocol);
      var ok := WriteBatches(group, io);
      status := if ok then G.Ok else G.Error;
      E.GroupDoneInv(db.memtable.hash, was, ok, io.landed);
      queue.FinishGroupWrite(group, status);
    }

    /** The inline path past the first locked region, while `late` arrive between the write and the second
        region. */
    method WriteInline(w: G.Writer, late: seq<G.Writer>, io: D.IoOutcome) returns (status: G.Status)
      requires Valid() && queue.protocol.inline == [w] && S.Enabled(db.View(), S.Begin(w.batch))
      requires io.Plausible(|Encode(LogRecord(db.nextSequence, w.batch))|)
      requires MayArrive(queue.protocol, late)
      modifies queue, db, db.memtable, db.memtable.shards, db.walRecord, db.memtableUpdates
      ensures Valid() && queue.writers == old(queue.writers) + late
      ensures w.id in queue.statuses && queue.statuses[w.id] == status
      ensures queue.protocol.groups == old(queue.protocol.groups) + [G.Group([w], status)]
      ensures status.Ok? <==> io.synced
      ensures old(db.View()).walOffset <= |old(db.View()).file|
      ensures db.View() == if status.Ok? then R.Committed(db.memtable.hash, old(db.View()), w.batch)
                           else R.Failed(old(db.View()), w.batch, io.landed)
    {
      hide E.Inv, G.Inv, S.Inv, E.Entries, Encode, R.Committed, R.Failed, G.Do, G.Enabled, S.Enabled, G.InFlight;
      hide MayArrive, Replay;
      ghost var store := db.View();
      E.EntriesOfOne(w);
      var ok := WriteBatches([w], io);
      status := if ok then G.Ok else G.Error;
      QueueOthers(w, late, store);
      E.GroupDoneInv(db.memtable.hash, E.Engine(queue.protocol, store, found), ok, io.landed);
      InlineCanFinish(queue.protocol, w, status);
      queue.FinishInlineWrite(w, status);
    }

    /** A whole call of enqueueAsyncWriter, while others arrive, `early` before its write and `late` after it.
        Either the writer is queued and nothing is written, or it is written at once, alone, and told; then
        all the others have been queued behind it, in order. */
    method Write(w: G.Writer, early: seq<G.Writer>, late: seq<G.Writer>, io: D.IoOutcome)
      returns (suspended: bool, status: G.Status)
      requires Valid() && MayArrive(queue.protocol, [w] + (early + late))
      requires S.Enabled(db.View(), S.Begin(w.batch))
      requires io.Plausible(|Encode(LogRecord(db.nextSequence, w.batch))|)
      modifies queue, db, db.memtable, db.memtable.shards, db.walRecord, db.memtableUpdates
      ensures Valid()
      ensures suspended ==> queue.writers == old(queue.writers) + [w] && db.View() == old(db.View())
      ensures !suspended ==> queue.writers == early + late && w.id in queue.statuses && queue.statuses[w.id] == status
      ensures !suspended ==> queue.protocol.groups == old(queue.protocol.groups) + [G.Group([w], status)]
      ensures !suspended ==> (status.Ok? <==> io.synced)
      ensures old(db.View()).walOffset <= |old(db.View()).file|
      ensures !suspended ==>
                db.View() == if status.Ok? then R.Committed(db.memtable.hash, old(db.View()), w.batch)
                             else R.Failed(old(db.View()), w.batch, io.landed)
    {
      hide E.Inv, G.Inv, S.Inv, Encode, R.Committed, R.Failed, G.Do, G.Enabled, S.Enabled, G.InFlight;
      hide MayArrive, G.Proper, G.ThreadOwns, Replay;
      status := G.Ok;
      D.FileCovers(db.memtable.hash, db.View());
      Arrival(queue.protocol, [w] + (early + late));
      ArrivalFinishesNobody(queue.protocol, w);
      QueueStep(db.memtable.hash, View(), w);
      suspended := queue.Enqueue(w);
      if suspended {
        return;
      }
      assert ([w] + (early + late))[1..] == early + late;
      FirstOnes(queue.protocol, early, late);
      QueueOthers(w, early, db.View());
      status := WriteInline(w, late, io);
    }

    /** Clients that arrive during an inline write are queued in order; `store` is the database as it was when
        the write began. */
    method QueueOthers(w: G.Writer, others: seq<G.Writer>, ghost store: S.Store)
      requires queue.Valid() && E.Inv(db.memtable.hash, E.Engine(queue.protocol, store, found))
      requires queue.protocol.inline == [w] && MayArrive(queue.protocol, others)
      modifies queue
      ensures queue.Valid() && E.Inv(db.memtable.hash, E.Engine(queue.protocol, store, found))
      ensures queue.writers == old(queue.writers) + others
      ensures queue.protocol.inline == [w] == G.InFlight(queue.protocol)
      ensures queue.protocol.groups == old(queue.protocol.groups)
      ensures queue.protocol.stop == old(queue.protocol.stop)
      ensures queue.protocol.arrived == old(queue.protocol.arrived) + others
    {
      hide E.Inv, G.Inv, G.Do, G.Enabled, G.Proper, G.InFlight, MayArrive, G.ThreadOwns;
      OnlyInline(queue.protocol, w);
      assert old(queue.writers) + others[..0] == old(queue.writers) && others[0..] == others;
      assert old(queue.protocol.arrived) + others[..0] == old(queue.protocol.arrived);
      for i := 0 to |others|
        invariant queue.Valid() && E.Inv(db.memtable.hash, E.Engine(queue.protocol, store, found))
        invariant queue.writers == old(queue.writers) + others[..i] && MayArrive(queue.protocol, others[i..])
        invariant queue.protocol.inline == [w] == G.InFlight(queue.protocol) && queue.protocol.writing
        invariant queue.protocol.groups == old(queue.protocol.groups)
        invariant queue.protocol.stop == old(queue.protocol.stop)
        invariant queue.protocol.arrived == old(queue.protocol.arrived) + others[..i]
      {
        Arrival(queue.protocol, others[i..]);
        QueueStep(db.memtable.hash, E.Engine(queue.protocol, store, found), others[i]);
        ArrivalDuringWrite(queue.protocol, others[i]);
        var queued := queue.Enqueue(others[i]);
        assert others[..i + 1] == others[..i] + [others[i]];
        assert others[i..][1..] == others[i + 1..];
      }
      assert others[..|others|] == others;
    }
  }

  lemma QueueStep(hash: Key -> nat, e: E.Engine, w: G.Writer)
    requires E.Inv(hash, e) && G.Enabled(e.protocol, G.Arrive(w)) && G.Proper(e.protocol, G.Arrive(w))
    ensures E.Inv(hash, e.(protocol := G.Do(e.protocol, G.Arrive(w))))
  {
    hide E.Inv, G.Inv, S.Inv, G.Do, G.Enabled, G.Proper;
    E.QueueKeepsInv(hash, e, G.Arrive(w));
  }

  /** These writers may arrive, one after the other. */
  predicate MayArrive(p: G.Protocol, writers: seq<G.Writer>) {
    && !p.stop
    && G.Distinct(p.arrived + writers)
    && forall i :: 0 <= i < |writers| ==> writers[i].batch != []
  }

  lemma Arrival(p: G.Protocol, writers: seq<G.Writer>)
    requires MayArrive(p, writers) && writers != []
    ensures G.Enabled(p, G.Arrive(writers[0])) && G.Proper(p, G.Arrive(writers[0]))
    ensures MayArrive(G.Do(p, G.Arrive(writers[0])), writers[1..])
  {
    var all := p.arrived + writers;
    assert forall i :: 0 <= i < |p.arrived| ==> all[i] == p.arrived[i];
    assert all[|p.arrived|] == writers[0];
    assert p.arrived + [writers[0]] + writers[1..] == all;
  }

  /** If some writers and then others may arrive, the first may, and after them the others. */
  lemma FirstOnes(p: G.Protocol, early: seq<G.Writer>, late: seq<G.Writer>)
    requires MayArrive(p, early + late)
    ensures MayArrive(p, early)
    ensures forall q: G.Protocol :: q.stop == p.stop && q.arrived == p.arrived + early ==> MayArrive(q, late)
  {
    var all := p.arrived + (early + late);
    assert p.arrived + early == all[..|p.arrived + early|];
    assert (p.arrived + early) + late == all;
    assert forall i :: 0 <= i < |early| ==> early[i] == (early + late)[i];
    assert forall i :: 0 <= i < |late| ==> late[i] == (early + late)[|early| + i];
  }

  lemma ArrivalDuringWrite(p: G.Protocol, w: G.Writer)
    requires p.writing && G.Enabled(p, G.Arrive(w))
    ensures var q := G.Do(p, G.Arrive(w));
            && q.inline == p.inline && q.groups == p.groups && q.writing && q.queue == p.queue + [w]
            && q.stop == p.stop && q.arrived == p.arrived + [w]
  {}

  lemma ArrivalFinishesNobody(p: G.Protocol, w: G.Writer)
    requires G.Enabled(p, G.Arrive(w))
    ensures G.Do(p, G.Arrive(w)).groups == p.groups
  {}

  lemma InlineCanFinish(p: G.Protocol, w: G.Writer, status: G.Status)
    requires p.inline == [w]
    ensures G.Enabled(p, G.FinishInline(w, status))
  {}

  lemma OnlyInline(p: G.Protocol, w: G.Writer)
    requires G.Inv(p) && p.inline == [w]
    ensures p.writing && G.InFlight(p) == [w]
  {
    hide G.InOrder, G.Distinct, G.Counted, G.Told;
  }

  lemma OnlyGroup(p: G.Protocol)
    requires G.Inv(p) && p.thread.Committing?
    ensures p.inline == [] && G.InFlight(p) == p.thread.group
  {
    hide G.InOrder, G.Distinct, G.Counted, G.Told;
  }
}
