/** The in-memory table as a value: one map from keys to slots, the order in which entries are applied to
    it, and how it is dealt out over shards (src/memtable.cc). */
module TableModel {
  import opened Words
  import opened Sequences
  import opened Bytes
  import opened WalFormat

  const SHARD_COUNT: nat := 16

  type Key = seq<Byte>

  datatype Slot = Slot(sequence: nat, deleted: bool, value: seq<Byte>)

  type Table = map<Key, Slot>

  datatype Option<+T> = None | Some(value: T)

  /** An entry with the sequence number it is applied under. */
  datatype Update = Update(entry: Entry, sequence: nat) {
    function Key(): Key {
      entry.key
    }

    function ToSlot(): Slot {
      Slot(sequence, entry.Delete?, entry.Value())
    }
  }

  /** Number entries from `sequence` on; the counter is a 64-bit integer. */
  function Numbered(entries: seq<Entry>, sequence: nat): (updates: seq<Update>)
    ensures |updates| == |entries|
  {
    if entries == [] then [] else
    [Update(entries[0], sequence)] + Numbered(entries[1..], (sequence + 1) % U64)
  }

  function ApplyAll(t: Table, updates: seq<Update>): Table
    decreases |updates|
  {
    if updates == [] then t else ApplyAll(t[updates[0].Key() := updates[0].ToSlot()], updates[1..])
  }

  /** The table after a group of entries has been applied in order. */
  function Apply(t: Table, entries: seq<Entry>, base: nat): Table {
    ApplyAll(t, Numbered(entries, base))
  }

  /** The table a log describes. */
  function Replay(log: seq<LogRecord>): Table {
    if log == [] then map[] else
    var last := log[|log| - 1];
    Apply(Replay(log[..|log| - 1]), last.entries, last.base)
  }

  /** What a reader is told about a key: a tombstone reads as absent. */
  function Lookup(t: Table, k: Key): Option<seq<Byte>> {
    if k in t && !t[k].deleted then Some(t[k].value) else None
  }

  lemma ReplaySnoc(log: seq<LogRecord>, r: LogRecord)
    ensures Replay(log + [r]) == Apply(Replay(log), r.entries, r.base)
  {
    assert (log + [r])[..|log|] == log;
  }

  lemma {:induction false} ApplyAllConcat(t: Table, a: seq<Update>, b: seq<Update>)
    ensures ApplyAll(t, a + b) == ApplyAll(ApplyAll(t, a), b)
    decreases |a|
  {
    if a == [] {
      assert a + b == b;
    } else {
      assert (a + b)[1..] == a[1..] + b;
      ApplyAllConcat(t[a[0].Key() := a[0].ToSlot()], a[1..], b);
    }
  }

  lemma ApplyAllSnoc(t: Table, a: seq<Update>, u: Update)
    ensures ApplyAll(t, a + [u]) == ApplyAll(t, a)[u.Key() := u.ToSlot()]
  {
    ApplyAllConcat(t, a, [u]);
    var s := ApplyAll(t, a);
    assert ApplyAll(s, [u]) == ApplyAll(s[u.Key() := u.ToSlot()], []);
  }

  // ------------------------------------------------------------------ sharding

  function ShardFor(hash: Key -> nat, k: Key): (i: nat)
    ensures i < SHARD_COUNT
  {
    hash(k) % SHARD_COUNT
  }

  /** A key's shard is what is left of its hash after taking out sixteens. */
  lemma ShardOfKey(hash: Key -> nat, k: Key)
    ensures SHARD_COUNT == 16 && ShardFor(hash, k) < 16
    ensures hash(k) == 16 * (hash(k) / 16) + ShardFor(hash, k)
  {}

  /** The part of a table that lives in shard i. */
  function Part(hash: Key -> nat, t: Table, i: nat): Table {
    map k | k in t && ShardFor(hash, k) == i :: t[k]
  }

  /** The updates that go to shard i, in order. */
  function Bucket(hash: Key -> nat, updates: seq<Update>, i: nat): seq<Update> {
    if updates == [] then [] else
    (if ShardFor(hash, updates[0].Key()) == i then [updates[0]] else []) + Bucket(hash, updates[1..], i)
  }

  lemma {:induction false} BucketSnoc(hash: Key -> nat, updates: seq<Update>, u: Update, i: nat)
    ensures Bucket(hash, updates + [u], i) ==
            if ShardFor(hash, u.Key()) == i then Bucket(hash, updates, i) + [u] else Bucket(hash, updates, i)
    decreases |updates|
  {
    hide ShardFor;
    if updates == [] {
      assert [] + [u] == [u] && [u][1..] == [];
    } else {
      assert (updates + [u])[1..] == updates[1..] + [u];
      BucketSnoc(hash, updates[1..], u, i);
      var mine := if ShardFor(hash, updates[0].Key()) == i then [updates[0]] else [];
      Associates(mine, Bucket(hash, updates[1..], i), [u]);
    }
  }

  lemma PartOfUpsert(hash: Key -> nat, t: Table, k: Key, s: Slot, i: nat)
    ensures Part(hash, t[k := s], i) == if ShardFor(hash, k) == i then Part(hash, t, i)[k := s] else Part(hash, t, i)
  {}

  /** Applying a bucket to a shard is applying everything to the table and looking at that shard. */
  lemma {:induction false} ShardedApply(hash: Key -> nat, t: Table, updates: seq<Update>, i: nat)
    ensures ApplyAll(Part(hash, t, i), Bucket(hash, updates, i)) == Part(hash, ApplyAll(t, updates), i)
    decreases |updates|
  {
    if updates != [] {
      var u, others := updates[0], updates[1..];
      var t' := t[u.Key() := u.ToSlot()];
      PartOfUpsert(hash, t, u.Key(), u.ToSlot(), i);
      ShardedApply(hash, t', others, i);
      var mine := ShardFor(hash, u.Key()) == i;
      if mine {
        assert Bucket(hash, updates, i)[1..] == Bucket(hash, others, i);
      } else {
        assert Bucket(hash, updates, i) == Bucket(hash, others, i);
      }
    }
  }

  /** An untouched shard keeps its part. */
  lemma EmptyBucketKeepsPart(hash: Key -> nat, t: Table, updates: seq<Update>, i: nat)
    requires Bucket(hash, updates, i) == []
    ensures Part(hash, ApplyAll(t, updates), i) == Part(hash, t, i)
  {
    ShardedApply(hash, t, updates, i);
  }

  // ------------------------------------------------------- counting the entries

  function PartsUpTo(hash: Key -> nat, t: Table, n: nat): Table {
    map k | k in t && ShardFor(hash, k) < n :: t[k]
  }

  lemma PartsUpToStep(hash: Key -> nat, t: Table, n: nat)
    ensures |PartsUpTo(hash, t, n + 1)| == |PartsUpTo(hash, t, n)| + |Part(hash, t, n)|
  {
    hide ShardFor;
    var below, here := PartsUpTo(hash, t, n), Part(hash, t, n);
    assert PartsUpTo(hash, t, n + 1).Keys == below.Keys + here.Keys;
    assert below.Keys !! here.Keys;
  }

  /** The keys of a table are the keys ever written, deletions included. */
  lemma {:induction false} KeysOfApplyAll(t: Table, updates: seq<Update>)
    ensures ApplyAll(t, updates).Keys == t.Keys + (set i | 0 <= i < |updates| :: updates[i].Key())
    decreases |updates|
  {
    var written := set i | 0 <= i < |updates| :: updates[i].Key();
    if updates != [] {
      var t' := t[updates[0].Key() := updates[0].ToSlot()];
      var rest := updates[1..];
      KeysOfApplyAll(t', rest);
      var others := set i | 0 <= i < |rest| :: rest[i].Key();
      forall k | k in written
        ensures k in {updates[0].Key()} + others
      {
        var i :| 0 <= i < |updates| && updates[i].Key() == k;
        if i > 0 {
          assert rest[i - 1].Key() == k;
        }
      }
      forall k | k in others
        ensures k in written
      {
        var i :| 0 <= i < |rest| && rest[i].Key() == k;
        assert updates[i + 1].Key() == k;
      }
      assert written == {updates[0].Key()} + others;
    }
  }

  // ------------------------------------------------- visibility during an apply

  /** The shards while a group is being applied, with the first n shards done. */
  function Cut(hash: Key -> nat, before: Table, after: Table, n: nat): seq<Table> {
    seq(SHARD_COUNT, i requires 0 <= i < SHARD_COUNT => Part(hash, if i < n then after else before, i))
  }

  function ShardedLookup(hash: Key -> nat, shards: seq<Table>, k: Key): Option<seq<Byte>>
    requires |shards| == SHARD_COUNT
  {
    Lookup(shards[ShardFor(hash, k)], k)
  }

  /** At any point of an apply a reader of one key sees it as before the whole group or as after it, and
      the switch happens once. */
  lemma KeyIsAtomic(hash: Key -> nat, before: Table, after: Table, n: nat, k: Key)
    ensures ShardedLookup(hash, Cut(hash, before, after, n), k) ==
            if ShardFor(hash, k) < n then Lookup(after, k) else Lookup(before, k)
  {
    var i := ShardFor(hash, k);
    assert Cut(hash, before, after, n)[i] == Part(hash, if i < n then after else before, i);
  }

  lemma CutStep(hash: Key -> nat, before: Table, after: Table, n: nat)
    requires n < SHARD_COUNT
    ensures |Cut(hash, before, after, n)| == SHARD_COUNT
    ensures Cut(hash, before, after, n)[n] == Part(hash, before, n)
    ensures Cut(hash, before, after, n + 1) == Cut(hash, before, after, n)[n := Part(hash, after, n)]
  {
    hide Part;
  }

  lemma {:induction false} NumberedAt(entries: seq<Entry>, base: nat, i: nat)
    requires base + |entries| <= U64 && i < |entries|
    ensures Numbered(entries, base)[i] == Update(entries[i], base + i)
    decreases |entries|
  {
    if i > 0 {
      NumberedAt(entries[1..], base + 1, i - 1);
    }
  }

  lemma ModStep(a: nat, b: nat)
    ensures (a % U64 + b) % U64 == (a + b) % U64
  {}

  /** Without that bound the numbers go round. */
  lemma {:induction false} NumberedWraps(entries: seq<Entry>, base: nat, i: nat)
    requires base < U64 && i < |entries|
    ensures Numbered(entries, base)[i] == Update(entries[i], (base + i) % 0x1_0000_0000_0000_0000)
    decreases |entries|
  {
    if i > 0 {
      NumberedWraps(entries[1..], (base + 1) % U64, i - 1);
      ModStep(base + 1, i - 1);
    }
  }

  /** A touched key ends up with a sequence number of the group, an untouched key with its old slot. */
  lemma {:induction false} SlotAfter(t: Table, entries: seq<Entry>, base: nat, k: Key)
    requires base + |entries| <= U64
    ensures (exists i :: 0 <= i < |entries| && entries[i].key == k) ==>
              k in Apply(t, entries, base) && base <= Apply(t, entries, base)[k].sequence < base + |entries|
    ensures !(exists i :: 0 <= i < |entries| && entries[i].key == k) ==>
              (k in Apply(t, entries, base) <==> k in t) && (k in t ==> Apply(t, entries, base)[k] == t[k])
    decreases |entries|
  {
    if entries != [] {
      var first, rest := entries[0], entries[1..];
      var t' := t[first.key := Update(first, base).ToSlot()];
      if rest == [] {
        assert Apply(t, entries, base) == ApplyAll(t', []);
      } else {
        assert Numbered(entries, base)[1..] == Numbered(rest, base + 1);
        assert Apply(t, entries, base) == Apply(t', rest, base + 1);
        SlotAfter(t', rest, base + 1, k);
        if i :| 0 <= i < |rest| && rest[i].key == k {
          assert entries[i + 1].key == k;
        } else {
          assert forall i :: 0 < i < |entries| ==> entries[i] == rest[i - 1];
        }
      }
    }
  }

  // ------------------------------------------------- readers of several keys

  /** A read of a key at a time when `cut` shards were done. */
  datatype Read = Read(key: Key, cut: nat)

  function Seen(hash: Key -> nat, before: Table, after: Table, r: Read): Option<seq<Byte>> {
    Lookup(if ShardFor(hash, r.key) < r.cut then after else before, r.key)
  }

  /** Reads in the order in which they were made: an apply only moves forward. */
  predicate InTime(looks: seq<Read>) {
    forall i, j :: 0 <= i < j < |looks| ==> looks[i].cut <= looks[j].cut
  }

  /** The first m reads see the table before the group, the others the table after it. */
  predicate SplitAt(hash: Key -> nat, before: Table, after: Table, looks: seq<Read>, m: nat) {
    forall i :: 0 <= i < |looks| ==>
      Seen(hash, before, after, looks[i]) == Lookup(if i < m then before else after, looks[i].key)
  }

  /** The reads could not tell the group from one that took effect at a single instant. */
  ghost predicate AsIfAtOnce(hash: Key -> nat, before: Table, after: Table, looks: seq<Read>) {
    exists m: nat :: SplitAt(hash, before, after, looks, m)
  }

  ghost predicate SeenAtOnce(hash: Key -> nat, before: Table, after: Table) {
    forall looks: seq<Read> :: InTime(looks) ==> AsIfAtOnce(hash, before, after, looks)
  }

  predicate Changed(before: Table, after: Table, k: Key) {
    Lookup(before, k) != Lookup(after, k)
  }

  /** All entries of the group that change what is read of their key fall in one shard. */
  predicate ChangesOneShard(hash: Key -> nat, t: Table, entries: seq<Entry>, base: nat) {
    var after := Apply(t, entries, base);
    forall i, j :: 0 <= i < |entries| && 0 <= j < |entries| &&
                   Changed(t, after, entries[i].key) && Changed(t, after, entries[j].key) ==>
      ShardFor(hash, entries[i].key) == ShardFor(hash, entries[j].key)
  }

  lemma {:induction false} UntouchedKeyStays(t: Table, entries: seq<Entry>, base: nat, k: Key)
    requires forall i :: 0 <= i < |entries| ==> entries[i].key != k
    ensures Lookup(Apply(t, entries, base), k) == Lookup(t, k)
    decreases |entries|
  {
    if entries != [] {
      var first, rest := entries[0], entries[1..];
      var t' := t[first.key := Update(first, base).ToSlot()];
      assert Numbered(entries, base)[1..] == Numbered(rest, (base + 1) % U64);
      assert Apply(t, entries, base) == Apply(t', rest, (base + 1) % U64);
      UntouchedKeyStays(t', rest, (base + 1) % U64, k);
    }
  }

  /** A changed key is one of the group's. */
  lemma ChangedIsTouched(t: Table, entries: seq<Entry>, base: nat, k: Key) returns (i: nat)
    requires Changed(t, Apply(t, entries, base), k)
    ensures i < |entries| && entries[i].key == k
  {
    hide Apply, Lookup;
    if j: nat :| j < |entries| && entries[j].key == k {
      i := j;
    } else {
      UntouchedKeyStays(t, entries, base, k);
    }
  }

  /** A group whose changes share a shard is seen at once: the switch is when that shard is done. */
  lemma {:induction false} OneShardAtOnce(hash: Key -> nat, before: Table, after: Table, shard: nat, looks: seq<Read>)
    returns (m: nat)
    requires InTime(looks)
    requires forall k :: Changed(before, after, k) ==> ShardFor(hash, k) == shard
    ensures SplitAt(hash, before, after, looks, m)
    ensures m <= |looks| && forall i :: 0 <= i < |looks| ==> (i < m <==> looks[i].cut <= shard)
    decreases |looks|
  {
    hide ShardFor, Lookup;
    if looks == [] {
      m := 0;
    } else {
      var n := |looks| - 1;
      m := OneShardAtOnce(hash, before, after, shard, looks[..n]);
      assert !Changed(before, after, looks[n].key) || ShardFor(hash, looks[n].key) == shard;
      if looks[n].cut <= shard {
        assert forall i :: 0 <= i < n ==> looks[i].cut <= looks[n].cut;
        m := |looks|;
        assert forall i :: 0 <= i < n ==> looks[..n][i] == looks[i];
      }
    }
  }

  /** Readers of any number of keys see a group all at once, whenever they read, if and only if the keys
      for which it makes a difference all fall in one shard. */
  lemma SeenAtOnceIff(hash: Key -> nat, t: Table, entries: seq<Entry>, base: nat)
    ensures SeenAtOnce(hash, t, Apply(t, entries, base)) <==> ChangesOneShard(hash, t, entries, base)
  {
    hide Apply, ShardFor, Lookup;
    var after := Apply(t, entries, base);
    if ChangesOneShard(hash, t, entries, base) {
      var shard := TheShard(hash, t, entries, base);
      forall looks: seq<Read> | InTime(looks)
        ensures AsIfAtOnce(hash, t, after, looks)
      {
        var m := OneShardAtOnce(hash, t, after, shard, looks);
      }
    } else {
      var i, j :| 0 <= i < |entries| && 0 <= j < |entries| &&
                  Changed(t, after, entries[i].key) && Changed(t, after, entries[j].key) &&
                  ShardFor(hash, entries[i].key) < ShardFor(hash, entries[j].key);
      TwoShardsShow(hash, t, after, entries[i].key, entries[j].key);
    }
  }

  lemma TheShard(hash: Key -> nat, t: Table, entries: seq<Entry>, base: nat) returns (shard: nat)
    requires ChangesOneShard(hash, t, entries, base)
    ensures forall k :: Changed(t, Apply(t, entries, base), k) ==> ShardFor(hash, k) == shard
  {
    hide Apply, ShardFor, Lookup;
    var after := Apply(t, entries, base);
    if i :| 0 <= i < |entries| && Changed(t, after, entries[i].key) {
      shard := ShardFor(hash, entries[i].key);
    } else {
      shard := 0;
    }
    forall k | Changed(t, after, k)
      ensures ShardFor(hash, k) == shard
    {
      var j := ChangedIsTouched(t, entries, base, k);
    }
  }

  /** Reading first a changed key of a lower shard, then one of a higher shard, in between the two. */
  lemma TwoShardsShow(hash: Key -> nat, before: Table, after: Table, a: Key, b: Key)
    requires Changed(before, after, a) && Changed(before, after, b) && ShardFor(hash, a) < ShardFor(hash, b)
    ensures var looks := [Read(a, ShardFor(hash, b)), Read(b, ShardFor(hash, b))];
            InTime(looks) && !AsIfAtOnce(hash, before, after, looks)
  {
    hide ShardFor, Lookup;
    var looks := [Read(a, ShardFor(hash, b)), Read(b, ShardFor(hash, b))];
    assert Seen(hash, before, after, looks[0]) != Lookup(before, looks[0].key);
    assert Seen(hash, before, after, looks[1]) != Lookup(after, looks[1].key);
    forall m: nat
      ensures !SplitAt(hash, before, after, looks, m)
    {
      assert Seen(hash, before, after, looks[if m == 0 then 1 else 0]) !=
             Lookup(if m == 0 then after else before, looks[if m == 0 then 1 else 0].key);
    }
  }

  /** A batch of two puts whose keys hash to different shards can be seen half applied. */
  lemma HalfAppliedExample()
    ensures var hash := (k: Key) => |k|;
            var batch := [Put([], [7]), Put([0], [8])];
            var seen := Cut(hash, map[], Apply(map[], batch, 1), 1);
            ShardedLookup(hash, seen, []) == Some([7]) && ShardedLookup(hash, seen, [0]) == None
  {
    var hash := (k: Key) => |k|;
    var batch := [Put([], [7]), Put([0], [8])];
    var after := Apply(map[], batch, 1);
    assert batch[1..] == [Put([0], [8])];
    assert Numbered(batch, 1) == [Update(batch[0], 1)] + Numbered([batch[1]], 2);
    assert Numbered([batch[1]], 2) == [Update(batch[1], 2)] + Numbered([], 3);
    var updates := [Update(batch[0], 1), Update(batch[1], 2)];
    assert Numbered(batch, 1) == updates && updates[1..] == [updates[1]];
    assert after == ApplyAll(map[[] := Slot(1, false, [7])], [updates[1]]);
    assert after == ApplyAll(map[[] := Slot(1, false, [7]), [0] := Slot(2, false, [8])], []);
    KeyIsAtomic(hash, map[], after, 1, []);
    KeyIsAtomic(hash, map[], after, 1, [0]);
  }

  // ------------------------------------------------------------ sequence order

  /** The ranges of sequence numbers of the records are disjoint and increasing. */
  predicate Ordered(log: seq<LogRecord>) {
    && (forall i :: 0 <= i < |log| ==> log[i].base + |log[i].entries| <= U64)
    && (forall i, j :: 0 <= i < j < |log| ==> log[i].base + |log[i].entries| <= log[j].base)
  }

  /** Every write of a log, in order, with its sequence number. */
  function Writes(log: seq<LogRecord>): seq<Update> {
    if log == [] then [] else
    var last := log[|log| - 1];
    Writes(log[..|log| - 1]) + Numbered(last.entries, last.base)
  }

  lemma {:induction false} ReplayIsWrites(log: seq<LogRecord>)
    ensures Replay(log) == ApplyAll(map[], Writes(log))
  {
    if log != [] {
      var init, last := log[..|log| - 1], log[|log| - 1];
      ReplayIsWrites(init);
      ApplyAllConcat(map[], Writes(init), Numbered(last.entries, last.base));
    }
  }

  predicate Increasing(updates: seq<Update>) {
    forall i, j :: 0 <= i < j < |updates| ==> updates[i].sequence < updates[j].sequence
  }

  /** All sequence numbers lie from `low` up to `high`. */
  predicate NumbersWithin(updates: seq<Update>, low: nat, high: nat) {
    forall i :: 0 <= i < |updates| ==> low <= updates[i].sequence < high
  }

  lemma NumberedIncreases(entries: seq<Entry>, base: nat)
    requires base + |entries| <= U64
    ensures Increasing(Numbered(entries, base)) && NumbersWithin(Numbered(entries, base), base, base + |entries|)
  {
    forall i: nat | i < |entries|
      ensures Numbered(entries, base)[i].sequence == base + i
    {
      NumberedAt(entries, base, i);
    }
  }

  lemma IncreasingConcat(a: seq<Update>, b: seq<Update>, middle: nat, high: nat)
    requires Increasing(a) && Increasing(b) && middle <= high
    requires NumbersWithin(a, 0, middle) && NumbersWithin(b, middle, high)
    ensures Increasing(a + b) && NumbersWithin(a + b, 0, high)
  {}

  function EndOf(log: seq<LogRecord>): nat {
    if log == [] then 0 else log[|log| - 1].base + |log[|log| - 1].entries|
  }

  /** In an ordered log sequence numbers strictly increase from write to write, below the end of the
      last record. */
  lemma {:induction false} WritesIncrease(log: seq<LogRecord>)
    requires Ordered(log)
    ensures Increasing(Writes(log)) && NumbersWithin(Writes(log), 0, EndOf(log))
  {
    if log != [] {
      hide Numbered, Increasing;
      var init, last := log[..|log| - 1], log[|log| - 1];
      WritesIncrease(init);
      assert EndOf(init) <= last.base;
      NumberedIncreases(last.entries, last.base);
      IncreasingConcat(Writes(init), Numbered(last.entries, last.base), last.base, EndOf(log));
    }
  }

  /** `slot` is what the write of `k` with the highest sequence number left. */
  ghost predicate HighestWrite(updates: seq<Update>, k: Key, slot: Slot) {
    && (exists i :: 0 <= i < |updates| && updates[i].Key() == k && updates[i].ToSlot() == slot)
    && (forall i :: 0 <= i < |updates| && updates[i].Key() == k ==> updates[i].sequence <= slot.sequence)
  }

  lemma {:induction false} LastIsHighest(updates: seq<Update>, k: Key)
    requires Increasing(updates) && k in ApplyAll(map[], updates)
    ensures HighestWrite(updates, k, ApplyAll(map[], updates)[k])
    decreases |updates|
  {
    if updates != [] {
      var n := |updates| - 1;
      var init, u := updates[..n], updates[n];
      assert updates == init + [u];
      ApplyAllSnoc(map[], init, u);
      if u.Key() != k {
        LastIsHighest(init, k);
        var slot := ApplyAll(map[], init)[k];
        var i :| 0 <= i < |init| && init[i].Key() == k && init[i].ToSlot() == slot;
        assert updates[i].Key() == k && updates[i].ToSlot() == slot;
      }
    }
  }

  /** Slots are overwritten without comparing sequence numbers, yet in the table of an ordered log every
      slot is the highest-numbered write to its key. */
  lemma SlotsHoldHighestWrites(log: seq<LogRecord>, k: Key)
    requires Ordered(log) && k in Replay(log)
    ensures HighestWrite(Writes(log), k, Replay(log)[k])
  {
    ReplayIsWrites(log);
    WritesIncrease(log);
    LastIsHighest(Writes(log), k);
  }
}
