/** The lock-free ring buffer of include/mpmc_cas.h, viewed one operation at
    a time: the slot and queue records, the mapping from a counter to a
    slot, what one enqueue and one dequeue do to the whole queue, and the
    invariant that a sequential run from a freshly initialised queue keeps. */
module MpmcCas {
  import opened Word32

  /** Number of entries the counters are masked to (QUEUE_SIZE). */
  const QUEUE_SIZE: nat := 1024
  /** QUEUE_SIZE - 1, the mask applied to head and tail. */
  const QUEUE_MASK: nat := QUEUE_SIZE - 1

  /** status_t: NILL is 0, so a zero-filled buffer has every slot NILL. */
  datatype Status = Nill | Full | Busy

  /** entry_t: one slot of the ring buffer. */
  datatype Entry = Entry(flag: Status, data: u32)

  /** queue_t: the two counters and the buffer they index. The buffer has
      as many entries as were requested from queue_init. */
  datatype QueueState = QueueState(head: u32, tail: u32, buffer: seq<Entry>)

  /** The slot a counter value addresses: `counter & QUEUE_MASK`. */
  function SlotOf(c: u32): (i: nat)
    ensures i < QUEUE_SIZE
    ensures i == c % QUEUE_SIZE
  {
    Pow2Ten();
    BitAndLowMask(c, 10);
    BitAnd(c, QUEUE_MASK)
  }

  /** Consecutive counter values address consecutive slots, also where the
      counter wraps from 2^32 - 1 to 0. */
  lemma SlotOfInc(t: u32)
    ensures SlotOf(Inc(t)) == (SlotOf(t) + 1) % QUEUE_SIZE
  {
  }

  /** More generally, k increments (at most QUEUE_SIZE of them) move the slot
      k places round the ring. */
  lemma SlotOfAdd(a: u32, k: nat)
    requires k <= QUEUE_SIZE
    ensures SlotOf(Add(a, k)) == (SlotOf(a) + k) % QUEUE_SIZE
  {
    var r, q := a % QUEUE_SIZE, a / QUEUE_SIZE;
    assert a == QUEUE_SIZE * q + r;
    var m := if a + k < WORD then q else q - 4194304;
    assert Add(a, k) == (r + k) + QUEUE_SIZE * m;
    ModShift(r + k, QUEUE_SIZE, m);
  }

  /** Every counter value lands inside a buffer of `size` entries exactly
      when `size` is at least QUEUE_SIZE: the range of slot indices is fixed
      by the mask, not by the size given to queue_init. */
  lemma SlotsInBoundsIff(size: nat)
    ensures (forall c: u32 :: SlotOf(c) < size) <==> size >= QUEUE_SIZE
  {
    if forall c: u32 :: SlotOf(c) < size {
      assert SlotOf(QUEUE_MASK) == QUEUE_MASK;
    }
  }

  /** queue_init(q, size) after the queue_t itself was zero-filled: both
      counters 0 and `size` entries whose bytes are all zero. */
  function Initial(size: nat): (s: QueueState)
    ensures s.head == 0 && s.tail == 0 && |s.buffer| == size
    ensures forall i :: 0 <= i < size ==> s.buffer[i] == Entry(Nill, 0)
  {
    QueueState(0, 0, seq(size, _ => Entry(Nill, 0)))
  }

  /** An enqueue returns when the slot its claimed tail addresses exists and
      its compare-and-swap from NILL to BUSY succeeds. */
  predicate EnqueueEnabled(s: QueueState)
  {
    SlotOf(s.tail) < |s.buffer| && s.buffer[SlotOf(s.tail)].flag == Nill
  }

  /** A dequeue returns when the slot its claimed head addresses exists and
      its compare-and-swap from FULL to BUSY succeeds. */
  predicate DequeueEnabled(s: QueueState)
  {
    SlotOf(s.head) < |s.buffer| && s.buffer[SlotOf(s.head)].flag == Full
  }

  /** The queue after one enqueue(q, elem): tail advanced by one, the claimed
      slot FULL and holding elem, everything else as it was. */
  function EnqueueStep(s: QueueState, elem: u32): (t: QueueState)
    requires EnqueueEnabled(s)
    ensures t.head == s.head && t.tail == Inc(s.tail)
    ensures |t.buffer| == |s.buffer|
    ensures t.buffer[SlotOf(s.tail)] == Entry(Full, elem)
    ensures forall i :: 0 <= i < |s.buffer| && i != SlotOf(s.tail) ==> t.buffer[i] == s.buffer[i]
  {
    QueueState(s.head, Inc(s.tail), s.buffer[SlotOf(s.tail) := Entry(Full, elem)])
  }

  /** The queue after one dequeue(q, &elem), paired with the value stored
      into elem: head advanced by one, the claimed slot NILL again (its data
      is left in place), everything else as it was. */
  function DequeueStep(s: QueueState): (r: (QueueState, u32))
    requires DequeueEnabled(s)
    ensures r.1 == s.buffer[SlotOf(s.head)].data
    ensures r.0.head == Inc(s.head) && r.0.tail == s.tail
    ensures |r.0.buffer| == |s.buffer|
    ensures r.0.buffer[SlotOf(s.head)] == Entry(Nill, r.1)
    ensures forall i :: 0 <= i < |s.buffer| && i != SlotOf(s.head) ==> r.0.buffer[i] == s.buffer[i]
  {
    var h := SlotOf(s.head);
    (QueueState(Inc(s.head), s.tail, s.buffer[h := s.buffer[h].(flag := Nill)]), s.buffer[h].data)
  }

  /** Over one enqueue or dequeue only the claimed slot's flag changes: an
      enqueue takes it from NILL to FULL, a dequeue from FULL to NILL, and
      every other flag stays as it is. The BUSY state in between is visible
      only in the steps of MpmcCasQueue.Queue. */
  lemma StepsFollowCycle(s: QueueState, elem: u32)
    ensures EnqueueEnabled(s) ==> forall i :: 0 <= i < |s.buffer| ==>
      var a, b := s.buffer[i].flag, EnqueueStep(s, elem).buffer[i].flag;
      (a == b && i != SlotOf(s.tail)) || (i == SlotOf(s.tail) && a == Nill && b == Full)
    ensures DequeueEnabled(s) ==> forall i :: 0 <= i < |s.buffer| ==>
      var a, b := s.buffer[i].flag, DequeueStep(s).0.buffer[i].flag;
      (a == b && i != SlotOf(s.head)) || (i == SlotOf(s.head) && a == Full && b == Nill)
  {
  }

  /** tail - head in uint32_t arithmetic: the number of elements in flight. */
  function Count(s: QueueState): nat
  {
    Distance(s.head, s.tail)
  }

  /** Slot i is one of the Count(s) slots from head's slot onwards. */
  predicate InWindow(s: QueueState, i: nat)
  {
    i < QUEUE_SIZE && (i - SlotOf(s.head)) % QUEUE_SIZE < Count(s)
  }

  function IsFull(e: Entry): nat
  {
    if e.flag == Full then 1 else 0
  }

  /** The number of FULL entries in a buffer. */
  function FullSlots(b: seq<Entry>): nat
  {
    if b == [] then 0 else IsFull(b[0]) + FullSlots(b[1..])
  }

  /** The state every operation leaves behind when operations run one after
      another: the buffer covers the mask, at most QUEUE_SIZE elements are in
      flight, exactly the slots of the window from head to tail are FULL,
      every other slot is NILL (so no slot is BUSY between operations), and
      the number of FULL slots is tail - head. */
  predicate Inv(s: QueueState)
  {
    QUEUE_SIZE <= |s.buffer| &&
    Count(s) <= QUEUE_SIZE &&
    (forall i :: 0 <= i < |s.buffer| ==> s.buffer[i].flag == (if InWindow(s, i) then Full else Nill)) &&
    FullSlots(s.buffer) == Count(s)
  }

  /** The elements in flight, oldest first: the data of the slots addressed
      by head, head + 1, ..., tail - 1. */
  function Contents(s: QueueState): (c: seq<u32>)
    requires QUEUE_SIZE <= |s.buffer|
    ensures |c| == Count(s)
  {
    seq(Count(s), k requires 0 <= k < Count(s) => s.buffer[SlotOf(Add(s.head, k))].data)
  }

  /** Changing one entry changes the number of FULL entries by what that
      entry contributes before and after. */
  lemma {:induction false} FullSlotsUpdate(b: seq<Entry>, i: nat, e: Entry)
    requires i < |b|
    ensures FullSlots(b[i := e]) == FullSlots(b) - IsFull(b[i]) + IsFull(e)
  {
    if i > 0 {
      assert b[i := e][1..] == b[1..][i - 1 := e];
      FullSlotsUpdate(b[1..], i - 1, e);
    } else {
      assert b[i := e][1..] == b[1..];
    }
  }

  lemma {:induction false} NoFullSlots(b: seq<Entry>)
    requires forall i :: 0 <= i < |b| ==> b[i].flag != Full
    ensures FullSlots(b) == 0
  {
    if b != [] {
      NoFullSlots(b[1..]);
    }
  }

  /** The freshly initialised queue is empty, and it satisfies the invariant
      exactly when queue_init was given at least QUEUE_SIZE entries. */
  lemma InitialInv(size: nat)
    ensures Count(Initial(size)) == 0
    ensures Inv(Initial(size)) <==> size >= QUEUE_SIZE
    ensures size >= QUEUE_SIZE ==> Contents(Initial(size)) == []
  {
    NoFullSlots(Initial(size).buffer);
  }

  /** Between operations no slot is BUSY, and the number of FULL slots is
      tail - head, never more than QUEUE_SIZE. This only unpacks Inv; that
      the FULL slots stay equal to tail - head is proved by InitialInv,
      EnqueuePreserves and DequeuePreserves, with NoFullSlots and
      FullSlotsUpdate counting the slots. */
  lemma InvFlags(s: QueueState)
    requires Inv(s)
    ensures forall i :: 0 <= i < |s.buffer| ==> s.buffer[i].flag != Busy
    ensures FullSlots(s.buffer) == Count(s) <= QUEUE_SIZE
  {
  }

  /** The slot tail addresses is the one Count(s) places after head's. */
  lemma TailSlot(s: QueueState)
    requires Count(s) <= QUEUE_SIZE
    ensures SlotOf(s.tail) == (SlotOf(s.head) + Count(s)) % QUEUE_SIZE
  {
    SlotOfAdd(s.head, Count(s));
  }

  /** Offset of slot i from slot h going round the ring. */
  lemma RingOffset(i: int, h: int)
    requires 0 <= i < QUEUE_SIZE && 0 <= h < QUEUE_SIZE
    ensures (i - h) % QUEUE_SIZE == if i >= h then i - h else i - h + QUEUE_SIZE
  {
    if i < h {
      ModShift(i - h + QUEUE_SIZE, QUEUE_SIZE, -1);
    }
  }

  /** The slot n places after h lies n places round the ring from h, and
      QUEUE_SIZE places round is h itself. */
  lemma OffsetAfter(h: nat, n: nat)
    requires h < QUEUE_SIZE && n <= QUEUE_SIZE
    ensures ((h + n) % QUEUE_SIZE - h) % QUEUE_SIZE == if n == QUEUE_SIZE then 0 else n
  {
    var t := (h + n) % QUEUE_SIZE;
    assert t == if h + n < QUEUE_SIZE then h + n else h + n - QUEUE_SIZE;
    RingOffset(t, h);
  }

  /** Under the invariant the enqueue's spin loop exits at once exactly when
      fewer than QUEUE_SIZE elements are in flight. */
  lemma EnqueueEnabledIff(s: QueueState)
    requires Inv(s)
    ensures EnqueueEnabled(s) <==> Count(s) < QUEUE_SIZE
  {
    TailSlot(s);
    OffsetAfter(SlotOf(s.head), Count(s));
    assert InWindow(s, SlotOf(s.tail)) <==> Count(s) == QUEUE_SIZE;
  }

  /** Under the invariant the dequeue's spin loop exits at once exactly when
      the queue holds at least one element. */
  lemma DequeueEnabledIff(s: QueueState)
    requires Inv(s)
    ensures DequeueEnabled(s) <==> Count(s) > 0
  {
    assert (SlotOf(s.head) - SlotOf(s.head)) % QUEUE_SIZE == 0;
    assert InWindow(s, SlotOf(s.head)) <==> Count(s) > 0;
  }

  /** Growing the window by one adds exactly the slot n places after h. */
  lemma WindowGrows(i: nat, h: nat, n: nat)
    requires i < QUEUE_SIZE && h < QUEUE_SIZE && n < QUEUE_SIZE
    ensures (i - h) % QUEUE_SIZE < n + 1 <==> (i - h) % QUEUE_SIZE < n || i == (h + n) % QUEUE_SIZE
  {
    RingOffset(i, h);
  }

  /** Moving the start of the window one slot on drops exactly slot h. */
  lemma WindowShrinks(i: nat, h: nat, n: nat)
    requires i < QUEUE_SIZE && h < QUEUE_SIZE && 0 < n <= QUEUE_SIZE
    ensures (i - (h + 1) % QUEUE_SIZE) % QUEUE_SIZE < n - 1 <==> (i - h) % QUEUE_SIZE < n && i != h
  {
    RingOffset(i, h);
    RingOffset(i, (h + 1) % QUEUE_SIZE);
  }

  /** Two of the first QUEUE_SIZE counter values after a address different
      slots. */
  lemma SlotsDistinct(a: u32, j: nat, k: nat)
    requires j < k <= QUEUE_SIZE && k - j < QUEUE_SIZE
    ensures SlotOf(Add(a, j)) != SlotOf(Add(a, k))
  {
    SlotOfAdd(a, j);
    SlotOfAdd(a, k);
    var x := SlotOf(a);
    var q1, q2 := (x + j) / QUEUE_SIZE, (x + k) / QUEUE_SIZE;
    ModShift(0, QUEUE_SIZE, q2 - q1);
  }

  lemma EnqueueCount(s: QueueState, elem: u32)
    requires EnqueueEnabled(s) && Count(s) < QUEUE_SIZE
    ensures Count(EnqueueStep(s, elem)) == Count(s) + 1
  {
    var t := EnqueueStep(s, elem);
    var n := Count(s);
    AddInc(s.head, n);
    DistanceUnique(s.head, t.tail, n + 1);
  }

  lemma DequeueCount(s: QueueState)
    requires DequeueEnabled(s) && Count(s) > 0
    ensures Count(DequeueStep(s).0) == Count(s) - 1
  {
    var t := DequeueStep(s).0;
    var n := Count(s);
    AddInc(s.head, n - 1);
    DistanceUnique(t.head, t.tail, n - 1);
  }

  lemma EnqueueFlags(s: QueueState, elem: u32)
    requires Inv(s) && EnqueueEnabled(s)
    ensures Count(EnqueueStep(s, elem)) == Count(s) + 1
    ensures forall i :: 0 <= i < |s.buffer| ==>
      EnqueueStep(s, elem).buffer[i].flag == (if InWindow(EnqueueStep(s, elem), i) then Full else Nill)
  {
    var t := EnqueueStep(s, elem);
    EnqueueEnabledIff(s);
    TailSlot(s);
    EnqueueCount(s, elem);
    forall i | 0 <= i < |t.buffer|
      ensures t.buffer[i].flag == (if InWindow(t, i) then Full else Nill)
    {
      if i < QUEUE_SIZE {
        WindowGrows(i, SlotOf(s.head), Count(s));
      }
    }
  }

  /** An enqueue keeps the invariant, adds one element in flight and appends
      elem to the contents. */
  lemma EnqueuePreserves(s: QueueState, elem: u32)
    requires Inv(s) && EnqueueEnabled(s)
    ensures Inv(EnqueueStep(s, elem))
    ensures Count(EnqueueStep(s, elem)) == Count(s) + 1
    ensures Contents(EnqueueStep(s, elem)) == Contents(s) + [elem]
  {
    var t := EnqueueStep(s, elem);
    var n := Count(s);
    EnqueueFlags(s, elem);
    FullSlotsUpdate(s.buffer, SlotOf(s.tail), Entry(Full, elem));
    forall k | 0 <= k < n
      ensures Contents(t)[k] == Contents(s)[k]
    {
      SlotsDistinct(s.head, k, n);
    }
  }

  lemma DequeueFlags(s: QueueState)
    requires Inv(s) && DequeueEnabled(s)
    ensures Count(DequeueStep(s).0) == Count(s) - 1
    ensures forall i :: 0 <= i < |s.buffer| ==>
      DequeueStep(s).0.buffer[i].flag == (if InWindow(DequeueStep(s).0, i) then Full else Nill)
  {
    var t := DequeueStep(s).0;
    DequeueEnabledIff(s);
    DequeueCount(s);
    SlotOfInc(s.head);
    forall i | 0 <= i < |t.buffer|
      ensures t.buffer[i].flag == (if InWindow(t, i) then Full else Nill)
    {
      if i < QUEUE_SIZE {
        WindowShrinks(i, SlotOf(s.head), Count(s));
      }
    }
  }

  lemma DequeueContents(s: QueueState)
    requires Inv(s) && DequeueEnabled(s)
    ensures Count(DequeueStep(s).0) == Count(s) - 1
    ensures Contents(s) != [] && DequeueStep(s).1 == Contents(s)[0]
    ensures Contents(DequeueStep(s).0) == Contents(s)[1..]
  {
    var t := DequeueStep(s).0;
    var n := Count(s);
    DequeueEnabledIff(s);
    DequeueCount(s);
    assert Add(s.head, 0) == s.head;
    forall k | 0 <= k < n - 1
      ensures Contents(t)[k] == Contents(s)[k + 1]
    {
      AddInc(s.head, k);
    }
  }

  /** A dequeue keeps the invariant, returns the oldest element and drops it
      from the contents. */
  lemma DequeuePreserves(s: QueueState)
    requires Inv(s) && DequeueEnabled(s)
    ensures Inv(DequeueStep(s).0)
    ensures Count(DequeueStep(s).0) == Count(s) - 1
    ensures Contents(s) != [] && DequeueStep(s).1 == Contents(s)[0]
    ensures Contents(DequeueStep(s).0) == Contents(s)[1..]
  {
    var h := SlotOf(s.head);
    DequeueFlags(s);
    FullSlotsUpdate(s.buffer, h, s.buffer[h].(flag := Nill));
    DequeueContents(s);
  }
}
