/** The sharded table as it is updated in place (src/memtable.cc). */
module MemTable {
  import opened Words
  import opened Bytes
  import opened WalFormat
  import opened TableModel

  /** The per-shard lists of pending updates are reused from call to call and are empty in between. */
  predicate ScratchEmpty(scratch: array<seq<Update>>)
    reads scratch
  {
    scratch.Length == SHARD_COUNT && forall i :: 0 <= i < SHARD_COUNT ==> scratch[i] == []
  }

  predicate ScratchHolds(scratch: array<seq<Update>>, hash: Key -> nat, updates: seq<Update>, from: nat)
    reads scratch
  {
    && scratch.Length == SHARD_COUNT
    && (forall i :: 0 <= i < SHARD_COUNT ==>
          scratch[i] == if i < from then [] else Bucket(hash, updates, i))
  }

  lemma {:induction false} NumberedSnoc(entries: seq<Entry>, base: nat, e: Entry)
    ensures Numbered(entries + [e], base) == Numbered(entries, base) + [Update(e, AfterNumbering(entries, base))]
    decreases |entries|
  {
    if entries == [] {
      assert [e][1..] == [];
      assert [] + [e] == [e];
    } else {
      assert (entries + [e])[1..] == entries[1..] + [e];
      NumberedSnoc(entries[1..], (base + 1) % U64, e);
    }
  }

  lemma NumberNothing(base: nat)
    ensures Numbered([], base) == [] && AfterNumbering([], base) == base
    ensures forall hash: Key -> nat, i: nat :: Bucket(hash, [], i) == []
  {}

  /** The counter once all entries are numbered. */
  function AfterNumbering(entries: seq<Entry>, base: nat): nat
    decreases |entries|
  {
    if entries == [] then base else AfterNumbering(entries[1..], (base + 1) % U64)
  }

  lemma {:induction false} AfterNumberingSnoc(entries: seq<Entry>, base: nat, e: Entry)
    ensures AfterNumbering(entries + [e], base) == (AfterNumbering(entries, base) + 1) % U64
    decreases |entries|
  {
    if entries == [] {
      assert [] + [e] == [e];
      assert [e][1..] == [];
    } else {
      assert (entries + [e])[1..] == entries[1..] + [e];
      AfterNumberingSnoc(entries[1..], (base + 1) % U64, e);
    }
  }

  /** The critical section of one shard: overwrite the slot of each key in turn. */
  method ApplyPending(shard: Table, pending: seq<Update>) returns (updated: Table)
    ensures updated == ApplyAll(shard, pending)
  {
    updated := shard;
    for k := 0 to |pending|
      invariant ApplyAll(updated, pending[k..]) == ApplyAll(shard, pending)
    {
      assert pending[k..][1..] == pending[k + 1..];
      var u := pending[k];
      updated := updated[u.Key() := Slot(u.sequence, u.entry.Delete?, u.entry.Value())];
    }
  }

  class MemTable {
    const hash: Key -> nat
    const shards: array<Table>
    /** The table that the shards deal out. */
    ghost var contents: Table

    /** Every key lives in its own shard only, and the shards together hold the contents. */
    ghost predicate Valid()
      reads this, shards
    {
      AtCut(contents, contents, 0)
    }

    /** A group is being applied and the first n shards are done. */
    ghost predicate AtCut(before: Table, after: Table, n: nat)
      reads shards
    {
      shards.Length == SHARD_COUNT && shards[..] == Cut(hash, before, after, n)
    }

    constructor (hash: Key -> nat)
      ensures Valid() && fresh(shards) && this.hash == hash && contents == map[]
    {
      this.hash := hash;
      shards := new Table[SHARD_COUNT](_ => map[]);
      contents := map[];
      new;
      assert forall i :: 0 <= i < SHARD_COUNT ==> Part(hash, map[], i) == map[];
      assert shards[..] == Cut(hash, map[], map[], 0);
    }

    /** The lookup under the lock of the key's shard.  Only that shard matters: if it is its part of a table,
        that table is what is read, whatever state the other shards are in. */
    method Get(key: Key, ghost t: Table) returns (r: Option<seq<Byte>>)
      requires shards.Length == SHARD_COUNT && shards[ShardFor(hash, key)] == Part(hash, t, ShardFor(hash, key))
      ensures r == Lookup(t, key)
    {
      var shard := shards[ShardFor(hash, key)];
      if key !in shard || shard[key].deleted {
        r := None;
      } else {
        r := Some(shard[key].value);
      }
    }

    method ApplyBatches(batches: seq<Batch>, baseSequence: nat, scratch: array<seq<Update>>)
      requires Valid() && ScratchEmpty(scratch)
      modifies this`contents, shards, scratch
      ensures Valid() && ScratchEmpty(scratch)
      ensures contents == Apply(old(contents), Flatten(batches), baseSequence)
    {
      ghost var before := contents;
      ghost var updates := Numbered(Flatten(batches), baseSequence);
      ghost var after := ApplyAll(before, updates);
      Distribute(batches, baseSequence, scratch);
      AtAnyCut(before, after);
      for shardIndex := 0 to SHARD_COUNT
        invariant AtCut(before, after, shardIndex) && ScratchHolds(scratch, hash, updates, shardIndex)
      {
        ApplyShard(shardIndex, before, updates, scratch);
      }
      contents := after;
      assert Cut(hash, before, after, SHARD_COUNT) == Cut(hash, after, after, 0);
    }

    lemma AtAnyCut(before: Table, after: Table)
      requires AtCut(before, before, 0)
      ensures AtCut(before, after, 0)
    {
      assert Cut(hash, before, before, 0) == Cut(hash, before, after, 0);
    }

    /** First loop: number the entries and push each onto the list of its shard. */
    method Distribute(batches: seq<Batch>, baseSequence: nat, scratch: array<seq<Update>>)
      requires ScratchEmpty(scratch)
      modifies scratch
      ensures ScratchHolds(scratch, hash, Numbered(Flatten(batches), baseSequence), 0)
    {
      hide Bucket, Numbered, AfterNumbering;
      var sequence := baseSequence;
      NumberNothing(baseSequence);
      for i := 0 to |batches|
        invariant sequence == AfterNumbering(Flatten(batches[..i]), baseSequence)
        invariant ScratchHolds(scratch, hash, Numbered(Flatten(batches[..i]), baseSequence), 0)
      {
        var batch := batches[i];
        ghost var done := Flatten(batches[..i]);
        FlattenSnoc(batches, i);
        assert done + batch[..0] == done;
        for j := 0 to |batch|
          invariant sequence == AfterNumbering(done + batch[..j], baseSequence)
          invariant ScratchHolds(scratch, hash, Numbered(done + batch[..j], baseSequence), 0)
        {
          assert done + batch[..j + 1] == done + batch[..j] + [batch[j]];
          NumberedSnoc(done + batch[..j], baseSequence, batch[j]);
          AfterNumberingSnoc(done + batch[..j], baseSequence, batch[j]);
          PushUpdate(Update(batch[j], sequence), Numbered(done + batch[..j], baseSequence), scratch);
          sequence := (sequence + 1) % U64;
        }
        assert batch[..|batch|] == batch;
      }
      assert batches[..|batches|] == batches;
    }

    method PushUpdate(u: Update, ghost pushed: seq<Update>, scratch: array<seq<Update>>)
      requires ScratchHolds(scratch, hash, pushed, 0)
      modifies scratch
      ensures ScratchHolds(scratch, hash, pushed + [u], 0)
    {
      forall i: nat | i < SHARD_COUNT
        ensures Bucket(hash, pushed + [u], i) ==
                if ShardFor(hash, u.Key()) == i then Bucket(hash, pushed, i) + [u] else Bucket(hash, pushed, i)
      {
        BucketSnoc(hash, pushed, u, i);
      }
      var shard := ShardFor(hash, u.Key());
      scratch[shard] := scratch[shard] + [u];
    }

    /** Second loop, one shard: passed over if it has no updates, else all of them go in under one hold of
        the shard lock. */
    method ApplyShard(shardIndex: nat, ghost before: Table, ghost updates: seq<Update>, scratch: array<seq<Update>>)
      requires shardIndex < SHARD_COUNT
      requires AtCut(before, ApplyAll(before, updates), shardIndex)
      requires ScratchHolds(scratch, hash, updates, shardIndex)
      modifies shards, scratch
      ensures AtCut(before, ApplyAll(before, updates), shardIndex + 1)
      ensures ScratchHolds(scratch, hash, updates, shardIndex + 1)
    {
      hide ApplyAll, Part, Bucket, Cut;
      ghost var after := ApplyAll(before, updates);
      ghost var was := shards[..];
      CutStep(hash, before, after, shardIndex);
      assert shards[shardIndex] == was[shardIndex];
      if scratch[shardIndex] == [] {
        EmptyBucketKeepsPart(hash, before, updates, shardIndex);
        assert was[shardIndex := was[shardIndex]] == was;
        return;
      }
      var shard := ApplyPending(shards[shardIndex], scratch[shardIndex]);
      ShardedApply(hash, before, updates, shardIndex);
      shards[shardIndex] := shard;
      scratch[shardIndex] := [];
      assert shards[..] == was[shardIndex := shard];
    }

    /** The entry count of Stats: the number of distinct keys in the table, tombstones included. */
    method CountEntries() returns (entries: nat)
      requires Valid()
      ensures entries == |contents|
    {
      entries := 0;
      assert PartsUpTo(hash, contents, 0) == map[];
      for i := 0 to SHARD_COUNT
        invariant entries == |PartsUpTo(hash, contents, i)|
      {
        PartsUpToStep(hash, contents, i);
        assert shards[i] == shards[..][i] == Part(hash, contents, i);
        entries := entries + |shards[i]|;
      }
      assert PartsUpTo(hash, contents, SHARD_COUNT) == contents;
    }
  }
}
