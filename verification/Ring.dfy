/** The submission and completion rings (src/io/uring_executor.cc).  Head and tail are 32-bit counters that
    wrap around; a slot is a counter masked with the ring size less one, the size being a power of two. */
module Ring {
  import opened Words

  // ------------------------------------------------------------- slot arithmetic

  lemma LowDigits(x: nat, n: nat)
    requires n > 0
    ensures Low(x, n) % 2 == x % 2 && Low(x, n) / 2 == Low(x / 2, n - 1)
  {
    hide Pow2;
  }

  /** The low digits of a number survive cutting it to more digits. */
  lemma {:induction false} LowOfLow(x: nat, n: nat, k: nat)
    requires k <= n
    ensures Low(Low(x, n), k) == Low(x, k)
    decreases k
  {
    if k > 0 {
      LowDigits(x, n);
      hide Pow2;
      LowOfLow(x / 2, n - 1, k - 1);
    }
  }

  lemma {:induction false} LowIsMod(x: nat, n: nat, m: nat)
    requires m == Pow2(n)
    ensures Low(x, n) == x % m
    decreases n
  {
    if n > 0 {
      LowIsMod(x / 2, n - 1, Pow2(n - 1));
      ModDigits(x, Pow2(n - 1));
    }
  }

  lemma ModDigits(x: nat, half: nat)
    requires half > 0
    ensures x % (2 * half) == x % 2 + 2 * ((x / 2) % half)
  {
    var h := x / 2;
    DivMod(x, 2 * half, h / half, x % 2 + 2 * (h % half));
  }

  /** A wrapped counter names the same slot as the position it counts. */
  lemma WrappedSlot(position: nat, k: nat)
    requires k <= 32
    ensures And(position % U32, Pow2(k) - 1) == Low(position, k)
  {
    Pow2Word();
    LowIsMod(position, 32, U32);
    AndMask(position % U32, k);
    LowOfLow(position, 32, k);
  }

  /** Two positions less than a ring size apart have different slots. */
  lemma {:induction false} SlotsDiffer(i: nat, j: nat, k: nat)
    requires i < j < i + Pow2(k)
    ensures Low(i, k) != Low(j, k)
    decreases k
  {
    if i % 2 == j % 2 {
      SlotsDiffer(i / 2, j / 2, k - 1);
    }
  }

  /** The 32-bit difference of two wrapped counters is the distance of their positions. */
  lemma WrappedDistance(from: nat, to: nat)
    requires from <= to < from + U32
    ensures (to % U32 + U32 - from % U32) % U32 == to - from
  {}

  lemma WrappedNext(position: nat, n: nat)
    ensures (position % U32 + n) % U32 == (position + n) % U32
  {}

  // ------------------------------------------------------------ submission ring

  /** A submission entry: what to do, whom to tell, whether the next entry waits for it. */
  datatype Sqe = Sqe(operation: nat, userData: nat, linked: bool)

  datatype Submission = Submitted | QueueFull

  class SubmissionRing {
    const entries: nat
    ghost const digits: nat
    var head: nat
    var tail: nat
    const array_: array<nat>
    const sqes: array<Sqe>
    /** Every entry ever published, and how many of them the kernel has taken. */
    ghost var published: seq<Sqe>
    ghost var consumed: nat

    ghost predicate Shape()
      reads this
    {
      && digits <= 31 && entries == Pow2(digits)
      && array_.Length == entries && sqes.Length == entries
      && consumed <= |published| <= consumed + entries
      && head == consumed % U32 && tail == |published| % U32
    }

    /** The entries not yet taken are intact in their slots. */
    ghost predicate Valid()
      reads this, array_, sqes
    {
      && Shape()
      && (forall i :: consumed <= i < |published| ==>
            Low(i, digits) < entries && array_[Low(i, digits)] == Low(i, digits) && sqes[Low(i, digits)] == published[i])
    }

    constructor (ghost digits: nat, entries: nat, blank: Sqe)
      requires digits <= 31 && entries == Pow2(digits)
      ensures Valid() && published == [] && consumed == 0 && fresh(array_) && fresh(sqes)
      ensures this.entries == entries && this.digits == digits
    {
      this.digits, this.entries := digits, entries;
      head, tail := 0, 0;
      array_ := new nat[entries](_ => 0);
      sqes := new Sqe[entries](_ => blank);
      published, consumed := [], 0;
    }

    /** The slot of the next entry to publish holds no entry that is still waiting. */
    lemma NextSlotIsFree(position: nat)
      requires Shape() && consumed <= position < consumed + entries
      ensures And(position % U32, entries - 1) == Low(position, digits) < entries
      ensures forall i :: consumed <= i < position ==> Low(i, digits) != Low(position, digits)
    {
      WrappedSlot(position, digits);
      forall i | consumed <= i < position
        ensures Low(i, digits) != Low(position, digits)
      {
        SlotsDiffer(i, position, digits);
      }
    }

    /** The head as it was when it was loaded; the kernel may have moved on since, never back. */
    ghost predicate Loaded(loadedHead: nat, loaded: nat)
      reads this
    {
      loaded <= consumed && |published| <= loaded + entries && loadedHead == loaded % U32
    }

    lemma Occupancy(loadedHead: nat, loaded: nat)
      requires Shape() && Loaded(loadedHead, loaded)
      ensures (tail + U32 - loadedHead) % U32 == |published| - loaded <= entries <= 0x8000_0000
    {
      Pow2Monotone(digits);
      WrappedDistance(loaded, |published|);
    }

    /** submitRaw from the load of the head to the release store of the tail.  It refuses exactly when the ring
        was full at the load; in particular always when it is full now. */
    method SubmitRaw(source: Sqe, userData: nat, loadedHead: nat, ghost loaded: nat) returns (result: Submission)
      requires Valid() && Loaded(loadedHead, loaded)
      modifies this`tail, this`published, array_, sqes
      ensures Valid()
      ensures result == QueueFull <==> |old(published)| == loaded + entries
      ensures |old(published)| == consumed + entries ==> result == QueueFull
      ensures published == if result == QueueFull then old(published) else old(published) + [source.(userData := userData)]
    {
      hide Low, And, Pow2;
      Occupancy(loadedHead, loaded);
      if (tail + U32 - loadedHead) % U32 >= entries {
        return QueueFull;
      }
      NextSlotIsFree(|published|);
      var index := And(tail, entries - 1);
      sqes[index] := source.(userData := userData);
      array_[index] := index;
      WrappedNext(|published|, 1);
      tail := (tail + 1) % U32;
      published := published + [source.(userData := userData)];
      return Submitted;
    }

    /** submitLinked: both entries go in together, the first marked so that the second waits for it. */
    method SubmitLinked(first: Sqe, firstData: nat, second: Sqe, secondData: nat, loadedHead: nat, ghost loaded: nat)
      returns (result: Submission)
      requires Valid() && Loaded(loadedHead, loaded)
      modifies this`tail, this`published, array_, sqes
      ensures Valid()
      ensures result == QueueFull <==> |old(published)| + 2 > loaded + entries
      ensures |old(published)| + 2 > consumed + entries ==> result == QueueFull
      ensures published == if result == QueueFull then old(published) else
                old(published) + [Sqe(first.operation, firstData, true), Sqe(second.operation, secondData, second.linked)]
    {
      hide Low, And, Pow2;
      Occupancy(loadedHead, loaded);
      assert ((tail + U32 - loadedHead) % U32 + 2) % U32 == |published| - loaded + 2;
      if ((tail + U32 - loadedHead) % U32 + 2) % U32 > entries {
        return QueueFull;
      }
      ghost var n := |published|;
      NextSlotIsFree(n);
      NextSlotIsFree(n + 1);
      WrappedNext(n, 1);
      WrappedNext(n, 2);
      var firstIndex := And(tail, entries - 1);
      var secondIndex := And((tail + 1) % U32, entries - 1);
      SlotsDiffer(n, n + 1, digits);
      sqes[firstIndex] := Sqe(first.operation, firstData, true);
      sqes[secondIndex] := Sqe(second.operation, secondData, second.linked);
      array_[firstIndex] := firstIndex;
      array_[secondIndex] := secondIndex;
      tail := (tail + 2) % U32;
      published := published + [Sqe(first.operation, firstData, true), Sqe(second.operation, secondData, second.linked)];
      return Submitted;
    }

    /** The kernel takes one entry through the index array and advances the head. */
    method KernelConsume() returns (sqe: Sqe)
      requires Valid() && consumed < |published|
      modifies this`head, this`consumed
      ensures Valid() && consumed == old(consumed) + 1 && sqe == published[old(consumed)]
      ensures forall h, l :: old(Loaded(h, l)) ==> Loaded(h, l)
    {
      hide Low, And, Pow2;
      WrappedSlot(consumed, digits);
      WrappedNext(consumed, 1);
      sqe := sqes[array_[And(head, entries - 1)]];
      head := (head + 1) % U32;
      consumed := consumed + 1;
    }
  }

  lemma {:induction false} Pow2Monotone(k: nat)
    requires k <= 31
    ensures Pow2(k) <= 0x8000_0000
    decreases 31 - k
  {
    if k == 31 {
      Pow2Word();
    } else {
      Pow2Monotone(k + 1);
    }
  }

  // ------------------------------------------------------------ completion ring

  /** A completion: which operation, and its result.  Operation 0 is the wake-up sent at shutdown. */
  datatype Cqe = Cqe(userData: nat, result: int)

  /** The results of operations after these completions have been handed over in order. */
  function Delivered(results: map<nat, int>, cqes: seq<Cqe>): map<nat, int>
    decreases |cqes|
  {
    if cqes == [] then results else
    var first := cqes[0];
    Delivered(if first.userData == 0 then results else results[first.userData := first.result], cqes[1..])
  }

  lemma {:induction false} DeliveredSnoc(results: map<nat, int>, cqes: seq<Cqe>, c: Cqe)
    ensures Delivered(results, cqes + [c]) ==
            if c.userData == 0 then Delivered(results, cqes) else Delivered(results, cqes)[c.userData := c.result]
    decreases |cqes|
  {
    if cqes == [] {
      assert [] + [c] == [c] && [c][1..] == [];
    } else {
      assert (cqes + [c])[1..] == cqes[1..] + [c];
      var first := cqes[0];
      DeliveredSnoc(if first.userData == 0 then results else results[first.userData := first.result], cqes[1..], c);
    }
  }

  lemma DeliveredNothing(results: map<nat, int>)
    ensures Delivered(results, []) == results
  {}

  class CompletionRing {
    const entries: nat
    ghost const digits: nat
    var head: nat
    var tail: nat
    const cqes: array<Cqe>
    var results: map<nat, int>
    ghost var posted: seq<Cqe>
    ghost var taken: nat

    ghost predicate Valid()
      reads this, cqes
    {
      && digits <= 31 && entries == Pow2(digits) && cqes.Length == entries
      && taken <= |posted| <= taken + entries
      && head == taken % U32 && tail == |posted| % U32
      && (forall i :: taken <= i < |posted| ==> Low(i, digits) < entries && cqes[Low(i, digits)] == posted[i])
    }

    constructor (ghost digits: nat, entries: nat, blank: Cqe)
      requires digits <= 31 && entries == Pow2(digits)
      ensures Valid() && posted == [] && taken == 0 && results == map[] && fresh(cqes)
      ensures this.entries == entries && this.digits == digits
    {
      this.digits, this.entries := digits, entries;
      head, tail, results := 0, 0, map[];
      cqes := new Cqe[entries](_ => blank);
      posted, taken := [], 0;
    }

    /** The kernel posts a completion while there is room. */
    method KernelPost(c: Cqe)
      requires Valid() && |posted| < taken + entries
      modifies this`tail, this`posted, cqes
      ensures Valid() && posted == old(posted) + [c]
    {
      hide Low, And, Pow2;
      WrappedSlot(|posted|, digits);
      WrappedNext(|posted|, 1);
      forall i | taken <= i < |posted|
        ensures Low(i, digits) != Low(|posted|, digits)
      {
        SlotsDiffer(i, |posted|, digits);
      }
      cqes[And(tail, entries - 1)] := c;
      tail := (tail + 1) % U32;
      posted := posted + [c];
    }

    lemma HeadMeetsTail()
      requires Valid()
      ensures head == tail <==> taken == |posted|
    {
      Pow2Monotone(digits);
      WrappedDistance(taken, |posted|);
    }

    /** How many more completions the ring can take. */
    ghost function RoomLeft(): int
      reads this
    {
      taken + entries - |posted|
    }

    /** The kernel posts these completions as far as there is room. */
    method KernelPostAll(cs: seq<Cqe>)
      requires Valid()
      modifies this`tail, this`posted, cqes
      ensures Valid()
      ensures posted == old(posted) + if |cs| <= old(RoomLeft()) then cs else cs[..old(RoomLeft())]
    {
      hide Low, And, Pow2;
      ghost var room := RoomLeft();
      for i := 0 to |cs|
        invariant Valid()
        invariant posted == old(posted) + if i <= room then cs[..i] else cs[..room]
      {
        Room();
        if (tail + U32 - head) % U32 < entries {
          KernelPost(cs[i]);
          assert cs[..i + 1] == cs[..i] + [cs[i]];
        }
      }
      assert cs[..|cs|] == cs;
    }

    lemma Room()
      requires Valid()
      ensures (tail + U32 - head) % U32 == |posted| - taken
    {
      Pow2Monotone(digits);
      WrappedDistance(taken, |posted|);
    }

    /** The draining loop of completionLoop, with the kernel posting more before every look at the tail: every
        posted completion is handed over once, in order, until the ring is empty or a wake-up is met while
        stopping. */
    method Drain(stopping: bool, kernel: seq<seq<Cqe>>) returns (stopped: bool)
      requires Valid()
      modifies this`head, this`results, this`taken, this`tail, this`posted, cqes
      ensures Valid() && old(posted) <= posted && old(taken) <= taken
      ensures results == Delivered(old(results), posted[old(taken)..taken])
      ensures stopped <==> stopping && exists i :: old(taken) <= i < taken && posted[i].userData == 0
      ensures stopped ==> posted[taken - 1].userData == 0
      ensures !stopped ==> taken == |posted|
    {
      hide Low, And, Pow2, Delivered;
      assert posted[taken..taken] == [];
      DeliveredNothing(results);
      HeadMeetsTail();
      var pass := 0;
      while head != tail
        invariant Valid() && old(posted) <= posted && old(taken) <= taken && pass <= |kernel|
        invariant head == tail <==> taken == |posted|
        invariant results == Delivered(old(results), posted[old(taken)..taken])
        invariant stopping ==> forall i :: old(taken) <= i < taken ==> posted[i].userData != 0
        decreases |kernel| - pass, |posted| - taken
      {
        var cqe := TakeOne(old(taken), old(results));
        if cqe.userData == 0 {
          if stopping {
            return true;
          }
        }
        if pass < |kernel| {
          ghost var was := posted;
          KernelPostAll(kernel[pass]);
          assert posted[old(taken)..taken] == was[old(taken)..taken];
          pass := pass + 1;
        }
        HeadMeetsTail();
      }
      return false;
    }

    /** Take the completion at the head and hand its result over. */
    method TakeOne(ghost from: nat, ghost was: map<nat, int>) returns (cqe: Cqe)
      requires Valid() && from <= taken < |posted| && results == Delivered(was, posted[from..taken])
      modifies this`head, this`results, this`taken
      ensures Valid() && taken == old(taken) + 1 && cqe == posted[old(taken)]
      ensures results == Delivered(was, posted[from..taken])
    {
      hide Low, And, Pow2, Delivered;
      WrappedSlot(taken, digits);
      WrappedNext(taken, 1);
      cqe := cqes[And(head, entries - 1)];
      assert posted[from..taken + 1] == posted[from..taken] + [posted[taken]];
      DeliveredSnoc(was, posted[from..taken], cqe);
      head := (head + 1) % U32;
      taken := taken + 1;
      if cqe.userData != 0 {
        results := results[cqe.userData := cqe.result];
      }
    }
  }

  // ------------------------------------------------------------ the success rule

  /** What WritevAndFDataSync reports, from the outcome of its linked pair. */
  function WriteAndSyncOk(submitFailed: bool, writeResult: int, syncResult: int, expectedBytes: nat): bool {
    if submitFailed then false
    else if writeResult < 0 then false
    else if writeResult != expectedBytes then false
    else syncResult >= 0
  }
}
