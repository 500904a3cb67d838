/** Applying a group while clients read: every slot is written on its own, under the lock of its shard, and
    readers hold a shard's lock while they look (src/memtable.cc, ApplyBatches and Get). */
module ShardLocks {
  import opened Bytes
  import opened WalFormat
  import opened TableModel
  import S = Store
  import R = StoreRuns

  /** The thread that applies the group: between two shards, or holding the lock of shard `cut` with `done`
      of its updates written. */
  datatype Applier = Between | Inside(done: nat)

  /** A finished read and what it returned. */
  datatype Look = Look(read: Read, result: Option<seq<Byte>>)

  datatype State = State(
    shards: seq<Table>,
    /** How many shards are done. */
    cut: nat,
    applier: Applier,
    /** Readers that hold the lock of the shard of their key, shared. */
    holding: map<nat, Key>,
    looks: seq<Look>)

  datatype Step =
    | Lock
    | WriteSlot
    | Unlock
    | PassOver
    | Acquire(reader: nat, key: Key)
    | LookAndRelease(reader: nat)

  lemma ApplyNothing(t: Table)
    ensures ApplyAll(t, []) == t
  {}

  /** A group on its way into a table. */
  datatype Group = Group(hash: Key -> nat, before: Table, updates: seq<Update>) {
    function After(): Table {
      ApplyAll(before, updates)
    }

    /** The updates of a shard, as the first loop has listed them. */
    function Pending(i: nat): seq<Update> {
      Bucket(hash, updates, i)
    }

    function Start(): State {
      State(Cut(hash, before, After(), 0), 0, Between, map[], [])
    }

    predicate Enabled(s: State, step: Step) {
      |s.shards| == SHARD_COUNT &&
      match step
      case Lock =>
        && s.applier.Between? && s.cut < SHARD_COUNT && Pending(s.cut) != []
        && forall r :: r in s.holding ==> ShardFor(hash, s.holding[r]) != s.cut
      case WriteSlot => s.applier.Inside? && s.cut < SHARD_COUNT && s.applier.done < |Pending(s.cut)|
      case Unlock => s.applier.Inside? && s.cut < SHARD_COUNT && s.applier.done == |Pending(s.cut)|
      case PassOver => s.applier.Between? && s.cut < SHARD_COUNT && Pending(s.cut) == []
      case Acquire(r, k) => r !in s.holding && (s.applier.Inside? ==> ShardFor(hash, k) != s.cut)
      case LookAndRelease(r) => r in s.holding
    }

    function Do(s: State, step: Step): State
      requires Enabled(s, step)
    {
      match step
      case Lock => s.(applier := Inside(0))
      case WriteSlot =>
        var u := Pending(s.cut)[s.applier.done];
        s.(shards := s.shards[s.cut := s.shards[s.cut][u.Key() := u.ToSlot()]], applier := Inside(s.applier.done + 1))
      case Unlock => s.(applier := Between, cut := s.cut + 1)
      case PassOver => s.(cut := s.cut + 1)
      case Acquire(r, k) => s.(holding := s.holding[r := k])
      case LookAndRelease(r) =>
        var k := s.holding[r];
        s.(holding := s.holding - {r}, looks := s.looks + [Look(Read(k, s.cut), ShardedLookup(hash, s.shards, k))])
    }

    // ------------------------------------------------------------ the invariant

    /** The shards at a cut, but for the one that is being written. */
    predicate ShardsInv(s: State) {
      && s.cut <= SHARD_COUNT
      && match s.applier
         case Between => s.shards == Cut(hash, before, After(), s.cut)
         case Inside(done) =>
           && s.cut < SHARD_COUNT && done <= |Pending(s.cut)|
           && s.shards == Cut(hash, before, After(), s.cut)
                          [s.cut := ApplyAll(Part(hash, before, s.cut), Pending(s.cut)[..done])]
    }

    /** Nobody reads the shard that is being written. */
    predicate Excluded(s: State) {
      s.applier.Inside? ==> forall r :: r in s.holding ==> ShardFor(hash, s.holding[r]) != s.cut
    }

    /** Every read so far was of the table before the group or of the table after it, in the order of the
        cuts. */
    predicate LooksInv(s: State) {
      && (forall i :: 0 <= i < |s.looks| ==>
            s.looks[i].result == Seen(hash, before, After(), s.looks[i].read) && s.looks[i].read.cut <= s.cut)
      && (forall i, j :: 0 <= i < j < |s.looks| ==> s.looks[i].read.cut <= s.looks[j].read.cut)
    }

    predicate Inv(s: State) {
      ShardsInv(s) && Excluded(s) && LooksInv(s)
    }

    lemma StartInv()
      ensures Inv(Start())
    {}

    /** A held read lock means that the key is read as at a cut, although slots are written one by one. */
    lemma HeldReadIsAtCut(s: State, r: nat)
      requires ShardsInv(s) && Excluded(s) && r in s.holding
      ensures |s.shards| == SHARD_COUNT
      ensures ShardedLookup(hash, s.shards, s.holding[r]) == Seen(hash, before, After(), Read(s.holding[r], s.cut))
    {
      hide Part, Lookup, ApplyAll, Bucket;
      KeyIsAtomic(hash, before, After(), s.cut, s.holding[r]);
    }

    lemma ShardsKept(s: State, step: Step)
      requires Inv(s) && Enabled(s, step)
      ensures ShardsInv(Do(s, step))
    {
      hide Part, Bucket, ApplyAll, Cut, LooksInv;
      match step
      case Lock =>
        CutStep(hash, before, After(), s.cut);
        ApplyNothing(Part(hash, before, s.cut));
        assert Pending(s.cut)[..0] == [];
      case WriteSlot =>
        CutStep(hash, before, After(), s.cut);
        var pending, done := Pending(s.cut), s.applier.done;
        ApplyAllSnoc(Part(hash, before, s.cut), pending[..done], pending[done]);
        assert pending[..done + 1] == pending[..done] + [pending[done]];
      case Unlock =>
        assert Pending(s.cut)[..|Pending(s.cut)|] == Pending(s.cut);
        CutStep(hash, before, After(), s.cut);
        ShardedApply(hash, before, updates, s.cut);
      case PassOver =>
        CutStep(hash, before, After(), s.cut);
        EmptyBucketKeepsPart(hash, before, updates, s.cut);
      case Acquire(r, k) =>
      case LookAndRelease(r) =>
    }

    lemma StepKeepsInv(s: State, step: Step)
      requires Inv(s) && Enabled(s, step)
      ensures Inv(Do(s, step))
    {
      ShardsKept(s, step);
      hide ShardsInv, Part, Bucket, ApplyAll, Cut, Seen, ShardedLookup;
      if step.LookAndRelease? {
        HeldReadIsAtCut(s, step.reader);
      }
    }

    // ----------------------------------------------------------------------- runs

    predicate Reaches(s: State, steps: seq<Step>, s': State)
      decreases |steps|
    {
      if steps == [] then s == s' else Enabled(s, steps[0]) && Reaches(Do(s, steps[0]), steps[1..], s')
    }

    lemma {:induction false} RunsKeepInv(s: State, steps: seq<Step>, s': State)
      requires Inv(s) && Reaches(s, steps, s')
      ensures Inv(s')
      decreases |steps|
    {
      hide Inv, Enabled, Do;
      if steps != [] {
        StepKeepsInv(s, steps[0]);
        RunsKeepInv(Do(s, steps[0]), steps[1..], s');
      }
    }

    /** The reads of a run, without their results. */
    function ReadsOf(looks: seq<Look>): (r: seq<Read>)
      ensures |r| == |looks| && forall i :: 0 <= i < |r| ==> r[i] == looks[i].read
    {
      if looks == [] then [] else ReadsOf(looks[..|looks| - 1]) + [looks[|looks| - 1].read]
    }

    /** Per-key atomic visibility, over every run: each read returns what the key held before the whole group
        or what it holds after it, never a write from inside the group; and in a run each key switches once. */
    lemma EveryReadIsAtomic(steps: seq<Step>, s: State, i: nat, j: nat)
      requires Reaches(Start(), steps, s) && i <= j < |s.looks|
      ensures var k := s.looks[i].read.key;
              && (s.looks[i].result == Lookup(before, k) || s.looks[i].result == Lookup(After(), k))
              && (s.looks[j].read.key == k && s.looks[j].result == Lookup(before, k) && Changed(before, After(), k) ==>
                    s.looks[i].result == Lookup(before, k))
    {
      hide Reaches, Start, ApplyAll, Lookup;
      StartInv();
      RunsKeepInv(Start(), steps, s);
    }

    /** The first m reads returned what their keys held before the group, the others what they hold after it. */
    predicate SwitchesAt(looks: seq<Look>, m: nat) {
      forall i :: 0 <= i < |looks| ==>
        looks[i].result == Lookup(if i < m then before else After(), looks[i].read.key)
    }

    /** What the reads of every run returned is as if the group had taken effect at one instant. */
    ghost predicate RunsSeeAtOnce() {
      forall steps, s :: Reaches(Start(), steps, s) ==> exists m: nat :: SwitchesAt(s.looks, m)
    }

    /** The results of a run's reads are those of their cuts. */
    lemma ResultsAreCuts(steps: seq<Step>, s: State, m: nat)
      requires Reaches(Start(), steps, s)
      ensures SwitchesAt(s.looks, m) <==> SplitAt(hash, before, After(), ReadsOf(s.looks), m)
    {
      hide Reaches, Start, ApplyAll, Lookup, ReadsOf, Seen;
      StartInv();
      RunsKeepInv(Start(), steps, s);
      var r := ReadsOf(s.looks);
      assert forall i :: 0 <= i < |r| ==> s.looks[i].result == Seen(hash, before, After(), r[i]);
    }

    lemma RunReads(steps: seq<Step>, s: State)
      requires Reaches(Start(), steps, s)
      ensures InTime(ReadsOf(s.looks))
    {
      hide Reaches, Start, ApplyAll, Lookup, ReadsOf;
      StartInv();
      RunsKeepInv(Start(), steps, s);
    }

    lemma ReachesConcat(s: State, a: seq<Step>, s1: State, b: seq<Step>, s2: State)
      requires Reaches(s, a, s1) && Reaches(s1, b, s2)
      ensures Reaches(s, a + b, s2)
      decreases |a|
    {
      hide Enabled, Do;
      if a == [] {
        assert a + b == b;
      } else {
        assert (a + b)[1..] == a[1..] + b;
        ReachesConcat(Do(s, a[0]), a[1..], s1, b, s2);
      }
    }

    lemma ReachesOne(s: State, step: Step)
      requires Enabled(s, step)
      ensures Reaches(s, [step], Do(s, step))
    {
      hide Enabled, Do;
      assert [step][1..] == [] && Reaches(Do(s, step), [], Do(s, step));
    }

    /** The applier alone gets from any state inside a shard to its end. */
    lemma {:induction false} CanFinishShard(s: State) returns (steps: seq<Step>, s': State)
      requires ShardsInv(s) && s.applier.Inside? && s.holding == map[] && s.looks == []
      ensures Reaches(s, steps, s') && ShardsInv(s')
      ensures s'.cut == s.cut + 1 && s'.applier.Between? && s'.holding == map[] && s'.looks == []
      decreases |Pending(s.cut)| - s.applier.done
    {
      var step := if s.applier.done < |Pending(s.cut)| then WriteSlot else Unlock;
      ShardsKept(s, step);
      ReachesOne(s, step);
      var s1 := Do(s, step);
      if step == Unlock {
        steps, s' := [step], s1;
      } else {
        hide Reaches, ShardsInv, Enabled;
        var rest;
        rest, s' := CanFinishShard(s1);
        ReachesConcat(s, [step], s1, rest, s');
        steps := [step] + rest;
      }
    }

    /** Every cut is reached, with no reader about. */
    lemma {:induction false} CanReachCut(n: nat) returns (steps: seq<Step>, s: State)
      requires n <= SHARD_COUNT
      ensures Reaches(Start(), steps, s) && ShardsInv(s)
      ensures s.cut == n && s.applier.Between? && s.holding == map[] && s.looks == []
    {
      if n == 0 {
        StartInv();
        steps, s := [], Start();
      } else {
        var before_, mid := CanReachCut(n - 1);
        var step := if Pending(n - 1) == [] then PassOver else Lock;
        ShardsKept(mid, step);
        ReachesOne(mid, step);
        hide Reaches, ShardsInv;
        ReachesConcat(Start(), before_, mid, [step], Do(mid, step));
        if step == PassOver {
          steps, s := before_ + [step], Do(mid, step);
        } else {
          var rest;
          rest, s := CanFinishShard(Do(mid, step));
          ReachesConcat(Start(), before_ + [step], Do(mid, step), rest, s);
          steps := before_ + [step] + rest;
        }
      }
    }

    /** Between two shards any key can be read. */
    lemma CanLook(s: State, k: Key) returns (steps: seq<Step>, s': State)
      requires |s.shards| == SHARD_COUNT && s.applier.Between? && s.holding == map[]
      ensures Reaches(s, steps, s')
      ensures s' == s.(looks := s.looks + [Look(Read(k, s.cut), ShardedLookup(hash, s.shards, k))])
    {
      hide Reaches, ShardedLookup;
      var s1 := Do(s, Acquire(0, k));
      ReachesOne(s, Acquire(0, k));
      s' := Do(s1, LookAndRelease(0));
      ReachesOne(s1, LookAndRelease(0));
      assert s'.holding == map[];
      steps := [Acquire(0, k)] + [LookAndRelease(0)];
      ReachesConcat(s, [Acquire(0, k)], s1, [LookAndRelease(0)], s');
    }

    /** Two keys can be read one after the other at any cut. */
    lemma CanLookTwice(n: nat, a: Key, b: Key) returns (steps: seq<Step>, s: State)
      requires n <= SHARD_COUNT
      ensures Reaches(Start(), steps, s)
      ensures ReadsOf(s.looks) == [Read(a, n), Read(b, n)]
    {
      hide Reaches, Start, ShardedLookup, Bucket, Part;
      var s0, first, s1, second;
      steps, s0 := CanReachCut(n);
      first, s1 := CanLook(s0, a);
      ReachesConcat(Start(), steps, s0, first, s1);
      second, s := CanLook(s1, b);
      ReachesConcat(Start(), steps + first, s1, second, s);
      steps := steps + first + second;
      assert |s.looks| == 2;
    }

    /** Over all runs: the values that readers get are as if the group took effect all at once, if and only if
        the keys for which it makes a difference fall in one shard. */
    lemma RunsSeeAtOnceIff(entries: seq<Entry>, base: nat)
      requires updates == Numbered(entries, base)
      ensures RunsSeeAtOnce() <==> ChangesOneShard(hash, before, entries, base)
    {
      hide Reaches, Start, ReadsOf, ShardFor, Lookup, Numbered, ApplyAll, SplitAt, SwitchesAt;
      assert After() == Apply(before, entries, base);
      if ChangesOneShard(hash, before, entries, base) {
        SeenAtOnceIff(hash, before, entries, base);
        forall steps, s | Reaches(Start(), steps, s)
          ensures exists m: nat :: SwitchesAt(s.looks, m)
        {
          RunReads(steps, s);
          var m: nat :| SplitAt(hash, before, After(), ReadsOf(s.looks), m);
          ResultsAreCuts(steps, s, m);
        }
      } else {
        var i, j :| 0 <= i < |entries| && 0 <= j < |entries| &&
                    Changed(before, After(), entries[i].key) && Changed(before, After(), entries[j].key) &&
                    ShardFor(hash, entries[i].key) < ShardFor(hash, entries[j].key);
        var a, b := entries[i].key, entries[j].key;
        TwoShardsShow(hash, before, After(), a, b);
        var steps, s := CanLookTwice(ShardFor(hash, b), a, b);
        forall m: nat
          ensures !SwitchesAt(s.looks, m)
        {
          ResultsAreCuts(steps, s, m);
        }
        assert Reaches(Start(), steps, s);
      }
    }

    // ------------------------------------------------- the store's apply in single steps

    /** Slot by slot, the apply does what the store does shard by shard: finishing a shard, or passing over one,
        is the store's step; locking and writing slots cannot be seen; and a read returns what the store's
        shards hold. */
    lemma RefinesStore(store: S.Store, s: State, step: Step)
      requires Inv(s) && Enabled(s, step)
      requires |store.attempt| == 1 && before == Replay(store.log)
      requires updates == Numbered(store.attempt[0].entries, store.attempt[0].base)
      ensures s.cut <= SHARD_COUNT && After() == Replay(store.log + store.attempt)
      ensures var now, next := R.Midway(hash, store, s.cut), R.Midway(hash, store, Do(s, step).cut);
              if step.Unlock? || step.PassOver? then
                S.Enabled(now, S.ApplyShard) && next == S.Do(hash, now, S.ApplyShard)
              else
                next == now
      ensures step.LookAndRelease? ==>
                var now, k := R.Midway(hash, store, s.cut), s.holding[step.reader];
                && |now.shards| == SHARD_COUNT
                && Do(s, step).looks == s.looks + [Look(Read(k, s.cut), ShardedLookup(hash, now.shards, k))]
    {
      hide Part, Bucket, ApplyAll, Numbered, Replay, Lookup, S.Do, S.Enabled;
      assert store.attempt == [store.attempt[0]];
      ReplaySnoc(store.log, store.attempt[0]);
      if step.Unlock? || step.PassOver? {
        R.MidwayStep(hash, store, s.cut);
      } else if step.LookAndRelease? {
        HeldReadIsAtCut(s, step.reader);
        KeyIsAtomic(hash, before, After(), s.cut, s.holding[step.reader]);
      }
    }
  }
}
