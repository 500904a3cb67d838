/** The shared state of group commit as the locked regions of src/db.cc update it, each proved to be a step
    of GroupCommit. */
module CommitQueue {
  import opened GroupCommit

  /** What the writer thread does after testing its predicate. */
  datatype Decision = Sleep | Leave | WaitForMore | Commit(group: seq<Writer>)

  /** What finishing the group in flight does, whether it was written inline or by the writer thread. */
  lemma FinishTells(p: Protocol, writers: seq<Writer>, status: Status)
    requires Inv(p) && writers == InFlight(p)
    ensures var after := WithStatus(p.statuses, writers, status);
            && after.Keys == p.statuses.Keys + Ids(writers)
            && (forall i :: 0 <= i < |writers| ==>
                  writers[i].id !in p.statuses && writers[i].id in after && after[writers[i].id] == status)
            && (forall id :: id in p.statuses ==> id in after && after[id] == p.statuses[id])
  {
    hide WithStatus, Ids, Flat, Owned, Attended, NonEmptyGroups, Counted, Finished;
    ToldKeptByFinish(p, writers, status);
    WithStatusTells(p.statuses, writers, status);
    forall i | 0 <= i < |writers|
      ensures writers[i].id in Ids(writers)
    {
      MemberId(writers, i);
    }
  }

  lemma FinishGroupEffect(p: Protocol, status: Status)
    requires Inv(p) && Enabled(p, FinishGroup(status))
    ensures p.inline == [] && InFlight(p) == p.thread.group
    ensures var q := Do(p, FinishGroup(status));
            && q == Finished(p, p.thread.group, status).(armed := p.armed || |p.thread.group| > 1, thread := Resuming)
            && InFlight(q) == []
  {
    hide InOrder, Distinct, Counted, Told, WithStatus;
  }

  lemma ArriveEffect(p: Protocol, w: Writer)
    requires Inv(p) && Enabled(p, Arrive(w)) && Proper(p, Arrive(w))
    ensures var q := Do(p, Arrive(w));
            var atOnce := !p.writing && p.queue == [] && !p.armed;
            && q.statuses == p.statuses && q.stop == p.stop && q.writeGroups == p.writeGroups
            && q.maxGroupSize == p.maxGroupSize && q.threadDrains == p.threadDrains
            && q.suspensions == p.suspensions + 1
            && q.inlineDrains == p.inlineDrains + (if atOnce then 1 else 0)
            && q.writing == (p.writing || atOnce)
            && q.armed == (p.armed || (!atOnce && (p.writing || p.queue != [])))
            && q.queue == (if atOnce then [] else p.queue + [w])
            && (atOnce ==> q.inline == [w] == InFlight(q) && !ThreadOwns(q))
            && (!atOnce ==> InFlight(q) == InFlight(p) && !q.thread.Asleep? && !q.thread.Exited?)
  {
    hide InOrder, Distinct, NonEmptyGroups, Counted, Told;
  }

  lemma CheckEffect(p: Protocol)
    requires Inv(p) && Enabled(p, Check)
    ensures var q := Do(p, Check);
            && q.statuses == p.statuses && q.stop == p.stop && q.writeGroups == p.writeGroups
            && q.maxGroupSize == p.maxGroupSize && q.suspensions == p.suspensions && q.inlineDrains == p.inlineDrains
            && if !(p.stop || (!p.writing && p.queue != [])) then q == p.(thread := Asleep)
               else if p.stop && p.queue == [] then q == p.(thread := Exited)
               else
                 && !p.writing && p.inline == [] && q.inline == [] && q.writing
                 && if p.armed || |p.queue| > 1 then
                      q.thread == Gathering && !q.armed && q.queue == p.queue && q.threadDrains == p.threadDrains
                    else
                      && q.thread == Committing(p.queue) && InFlight(q) == p.queue && q.armed == p.armed
                      && q.queue == [] && q.threadDrains == p.threadDrains + 1
  {
    hide InOrder, Distinct, NonEmptyGroups, Counted, Told;
  }

  lemma FinishInlineEffect(p: Protocol, w: Writer, status: Status)
    requires Inv(p) && Enabled(p, FinishInline(w, status))
    ensures p.inline == [w] && InFlight(p) == [w]
    ensures var q := Do(p, FinishInline(w, status));
            && q == Finished(p, [w], status).(inline := [], owed := p.owed + 1)
            && InFlight(q) == []
  {
    hide InOrder, Distinct, Counted, Told, WithStatus;
    assert p.inline == [w];
    WithoutOnly(w);
  }

  lemma TellOne(statuses: map<nat, Status>, w: Writer, status: Status)
    ensures WithStatus(statuses, [w], status) == statuses[w.id := status]
  {
    assert [w][1..] == [];
  }

  class CommitQueue {
    var writing: bool
    var armed: bool
    var stop: bool
    var writers: seq<Writer>
    var statuses: map<nat, Status>
    var suspensions: nat
    var writeGroups: nat
    var maxGroupSize: nat
    var inlineDrains: nat
    var threadDrains: nat
    /** The whole protocol, with the threads and the history the fields do not show. */
    ghost var protocol: Protocol

    /** The fields are those of a reachable state of the protocol. */
    ghost predicate Valid()
      reads this
    {
      Mirrors() && Inv(protocol)
    }

    ghost predicate Mirrors()
      reads this
    {
      && writing == protocol.writing && armed == protocol.armed && stop == protocol.stop
      && writers == protocol.queue && statuses == protocol.statuses
      && suspensions == protocol.suspensions && writeGroups == protocol.writeGroups
      && maxGroupSize == protocol.maxGroupSize
      && inlineDrains == protocol.inlineDrains && threadDrains == protocol.threadDrains
    }

    constructor ()
      ensures Valid() && protocol == Initial()
    {
      writing, armed, stop, writers, statuses := false, false, false, [], map[];
      suspensions, writeGroups, maxGroupSize, inlineDrains, threadDrains := 0, 0, 0, 0, 0;
      protocol := Initial();
      new;
      InitialInv();
    }

    /** First region of enqueueAsyncWriter.  A writer that is not suspended is the only owner of the log; one
        that is suspended stands last in the queue and the writer thread is awake to see it, or will be
        notified by the owner. */
    method Enqueue(w: Writer) returns (suspended: bool)
      requires Valid() && Enabled(protocol, Arrive(w)) && Proper(protocol, Arrive(w))
      modifies this
      ensures Valid() && protocol == Do(old(protocol), Arrive(w))
      ensures suspended <==> writers == old(writers) + [w]
      ensures suspended ==> InFlight(protocol) == InFlight(old(protocol))
      ensures suspended ==> !protocol.thread.Asleep? && !protocol.thread.Exited?
      ensures !suspended ==> !old(writing) && old(writers) == [] == writers
      ensures !suspended ==> protocol.inline == [w] == InFlight(protocol) && !ThreadOwns(protocol)
    {
      hide Inv, Enabled, Do, Proper;
      StepKeepsInv(protocol, Arrive(w));
      ArriveEffect(protocol, w);
      protocol := Do(protocol, Arrive(w));
      suspensions := suspensions + 1;
      if !writing && writers == [] && !armed {
        writing := true;
        inlineDrains := inlineDrains + 1;
        suspended := false;
      } else {
        writers := writers + [w];
        if writing || |writers| > 1 {
          armed := true;
        }
        suspended := true;
      }
    }

    /** Second region of the inline path: the writer gets its first and only status, nobody else's changes,
        and the write is given up. */
    method FinishInlineWrite(w: Writer, status: Status)
      requires Valid() && Enabled(protocol, FinishInline(w, status))
      modifies this
      ensures Valid() && protocol == Do(old(protocol), FinishInline(w, status))
      ensures w.id !in old(statuses) && statuses == old(statuses)[w.id := status]
      ensures !writing && InFlight(protocol) == [] && writers == old(writers)
    {
      hide Inv, Do, Enabled, WithStatus, InFlight, Ids, Max;
      FinishInlineEffect(protocol, w, status);
      FinishTells(protocol, [w], status);
      TellOne(statuses, w, status);
      StepKeepsInv(protocol, FinishInline(w, status));
      assert [w][0] == w;
      writeGroups := writeGroups + 1;
      maxGroupSize := Max(maxGroupSize, 1);
      statuses := statuses[w.id := status];
      writing := false;
      protocol := Do(protocol, FinishInline(w, status));
    }

    /** The loop that empties the queue into the group. */
    method TakeQueue() returns (group: seq<Writer>)
      modifies this`writers
      ensures group == old(writers) && writers == []
    {
      group := [];
      while writers != []
        invariant group + writers == old(writers)
        decreases |writers|
      {
        group := group + [writers[0]];
        writers := writers[1..];
      }
    }

    /** The writer thread holds the lock and has just tested its wait predicate.  It goes on only as the one
        owner, takes the whole queue, and leaves only when stopped with nothing queued. */
    method CheckQueue() returns (decision: Decision)
      requires Valid() && Enabled(protocol, Check)
      modifies this
      ensures Valid() && protocol == Do(old(protocol), Check)
      ensures match decision
              case Sleep => protocol.thread == Asleep && (old(writing) || writers == [])
              case Leave => protocol.thread == Exited && stop && writers == []
              case WaitForMore => protocol.thread == Gathering && !old(writing) && protocol.inline == [] && writers != []
              case Commit(group) =>
                && protocol.thread == Committing(group) && !old(writing) && InFlight(protocol) == group
                && group == old(writers) != [] && writers == []
    {
      hide Inv, Enabled, Do, InFlight;
      StepKeepsInv(protocol, Check);
      CheckEffect(protocol);
      protocol := Do(protocol, Check);
      if !(stop || (!writing && writers != [])) {
        return Sleep;
      }
      if stop && writers == [] {
        return Leave;
      }
      writing := true;
      if armed || |writers| > 1 {
        armed := false;
        return WaitForMore;
      }
      var group := TakeQueue();
      threadDrains := threadDrains + 1;
      return Commit(group);
    }

    /** The group-commit wait is over, by size, by time or by the stop flag: everyone queued by now is the
        group, and it is the only one in flight. */
    method FinishGathering() returns (group: seq<Writer>)
      requires Valid() && Enabled(protocol, Gather)
      modifies this
      ensures Valid() && protocol == Do(old(protocol), Gather)
      ensures group == old(writers) != [] && writers == []
      ensures protocol.thread == Committing(group) && InFlight(protocol) == group
    {
      StepKeepsInv(protocol, Gather);
      hide InOrder, Distinct, Counted, Told, Flat;
      protocol := Do(protocol, Gather);
      group := TakeQueue();
      threadDrains := threadDrains + 1;
    }

    /** Second region of the writer loop: every writer of the group gets its first and only status, and nobody
        else's changes. */
    method FinishGroupWrite(group: seq<Writer>, status: Status)
      requires Valid() && Enabled(protocol, FinishGroup(status)) && protocol.thread.group == group
      modifies this
      ensures Valid() && protocol == Do(old(protocol), FinishGroup(status))
      ensures forall i :: 0 <= i < |group| ==>
                group[i].id !in old(statuses) && group[i].id in statuses && statuses[group[i].id] == status
      ensures forall id :: id in old(statuses) ==> id in statuses && statuses[id] == old(statuses)[id]
      ensures statuses.Keys == old(statuses).Keys + Ids(group)
      ensures !writing && InFlight(protocol) == [] && writers == old(writers)
    {
      hide Inv, Do, Enabled, WithStatus, InFlight, Ids, Max;
      FinishGroupEffect(protocol, status);
      FinishTells(protocol, group, status);
      StepKeepsInv(protocol, FinishGroup(status));
      writeGroups := writeGroups + 1;
      maxGroupSize := Max(maxGroupSize, |group|);
      TellGroup(group, status);
      if |group| > 1 {
        armed := true;
      }
      writing := false;
      protocol := Do(protocol, FinishGroup(status));
    }

    method TellGroup(group: seq<Writer>, status: Status)
      modifies this`statuses
      ensures statuses == WithStatus(old(statuses), group, status)
    {
      for i := 0 to |group|
        invariant WithStatus(statuses, group[i..], status) == WithStatus(old(statuses), group, status)
      {
        assert group[i..][1..] == group[i + 1..];
        statuses := statuses[group[i].id := status];
      }
    }

    /** The locked region of the destructor, which may run only when no inline write is in progress; none can
        start afterwards. */
    method SetStop()
      requires Valid() && Enabled(protocol, RequestStop) && Proper(protocol, RequestStop)
      modifies this
      ensures Valid() && protocol == Do(old(protocol), RequestStop)
      ensures stop && protocol.inline == [] && writers == old(writers) && statuses == old(statuses)
    {
      StepKeepsInv(protocol, RequestStop);
      hide Inv;
      protocol := Do(protocol, RequestStop);
      stop := true;
    }
  }
}
