/** The queue object of include/mpmc_cas.h as it is updated in place: the
    queue_t fields head and tail, and the entry_t buffer that queue_init
    allocates. Each enqueue and dequeue is split into the steps the C code
    takes (claim a counter value, compare-and-swap the slot's flag, then
    publish or release the slot), and each whole operation is proved against
    EnqueueStep and DequeueStep. */
module MpmcCasQueue {
  import opened Word32
  import opened MpmcCas

  class Queue {
    var head: u32
    var tail: u32
    var buffer: array<Entry>

    /** The queue as a value, for the specification functions. */
    function State(): QueueState
      reads this, buffer
    {
      QueueState(head, tail, buffer[..])
    }

    /** memset of the queue_t to zero (fifo.c) followed by queue_init(q, size):
        a buffer of `size` zero-filled entries and both counters 0. */
    constructor (size: nat)
      ensures fresh(buffer)
      ensures State() == Initial(size)
    {
      head, tail := 0, 0;
      buffer := new Entry[size](_ => Entry(Nill, 0));
    }

    /** `__sync_fetch_and_add(&q->tail, 1) & QUEUE_MASK`: the slot of the
        old tail, with tail advanced by one. */
    method ClaimTail() returns (slot: nat)
      modifies this`tail
      ensures slot == SlotOf(old(tail)) && tail == Inc(old(tail))
    {
      slot := SlotOf(tail);
      tail := Inc(tail);
    }

    /** `__sync_fetch_and_add(&q->head, 1) & QUEUE_MASK`. */
    method ClaimHead() returns (slot: nat)
      modifies this`head
      ensures slot == SlotOf(old(head)) && head == Inc(old(head))
    {
      slot := SlotOf(head);
      head := Inc(head);
    }

    /** One `__sync_bool_compare_and_swap(&entry->flag, expected, desired)`
        on the entry at `slot`. */
    method CompareAndSwapFlag(slot: nat, expected: Status, desired: Status) returns (swapped: bool)
      requires slot < buffer.Length
      modifies buffer
      ensures swapped <==> old(buffer[slot].flag) == expected
      ensures buffer[slot] == if swapped then old(buffer[slot]).(flag := desired) else old(buffer[slot])
      ensures forall i :: 0 <= i < buffer.Length && i != slot ==> buffer[i] == old(buffer[i])
    {
      swapped := buffer[slot].flag == expected;
      if swapped {
        buffer[slot] := buffer[slot].(flag := desired);
      }
    }

    /** The producer's two writes once it holds the slot: the payload, then
        the flag FULL. */
    method Publish(slot: nat, elem: u32)
      requires slot < buffer.Length && buffer[slot].flag == Busy
      modifies buffer
      ensures buffer[slot] == Entry(Full, elem)
      ensures forall i :: 0 <= i < buffer.Length && i != slot ==> buffer[i] == old(buffer[i])
    {
      buffer[slot] := buffer[slot].(data := elem);
      buffer[slot] := buffer[slot].(flag := Full);
    }

    /** The consumer's read and write once it holds the slot: the payload is
        read out, then the flag is set back to NILL. */
    method Release(slot: nat) returns (elem: u32)
      requires slot < buffer.Length && buffer[slot].flag == Busy
      modifies buffer
      ensures elem == old(buffer[slot].data)
      ensures buffer[slot] == Entry(Nill, elem)
      ensures forall i :: 0 <= i < buffer.Length && i != slot ==> buffer[i] == old(buffer[i])
    {
      elem := buffer[slot].data;
      buffer[slot] := buffer[slot].(flag := Nill);
    }

    /** enqueue(q, thread, elem). The first requires is the bounds of the
        access q->buffer[tail]; the second is the exit condition of the
        spin loop, which therefore succeeds on its first attempt. The slot
        goes NILL -> BUSY -> FULL; on a queue in the sequential invariant,
        elem joins the back of the contents. */
    method Enqueue(elem: u32)
      requires SlotOf(tail) < buffer.Length
      requires buffer[SlotOf(tail)].flag == Nill
      modifies this`tail, buffer
      ensures State() == EnqueueStep(old(State()), elem)
      ensures old(Inv(State())) ==> Inv(State()) && Contents(State()) == old(Contents(State())) + [elem]
    {
      ghost var before := State();
      var slot := ClaimTail();
      var acquired := CompareAndSwapFlag(slot, Nill, Busy);
      assert acquired;
      Publish(slot, elem);
      assert buffer[..] == before.buffer[slot := Entry(Full, elem)];
      if Inv(before) {
        EnqueuePreserves(before, elem);
      }
    }

    /** dequeue(q, thread, &elem), returning what is stored into elem. The
        requires are the bounds of q->buffer[head] and the exit condition of
        the spin loop. The slot goes FULL -> BUSY -> NILL; on a queue in the
        sequential invariant, the result is the front of the contents. */
    method Dequeue() returns (elem: u32)
      requires SlotOf(head) < buffer.Length
      requires buffer[SlotOf(head)].flag == Full
      modifies this`head, buffer
      ensures (State(), elem) == DequeueStep(old(State()))
      ensures old(Inv(State())) ==> Inv(State()) && old(Contents(State())) == [elem] + Contents(State())
    {
      ghost var before := State();
      var slot := ClaimHead();
      var acquired := CompareAndSwapFlag(slot, Full, Busy);
      assert acquired;
      elem := Release(slot);
      assert buffer[..] == before.buffer[slot := before.buffer[slot].(flag := Nill)];
      if Inv(before) {
        DequeuePreserves(before);
        assert Contents(before) == [Contents(before)[0]] + Contents(before)[1..];
      }
    }
  }
}
