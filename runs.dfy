/** Sequential runs of the queue of include/mpmc_cas.h: a list of enqueue
    and dequeue calls made one after another, each taking effect as one
    step. A call whose compare-and-swap can never succeed (nobody else runs
    to change the flag) spins for ever; a call whose masked counter lies
    past the end of the buffer indexes outside the allocation. */
module SequentialRuns {
  import opened Word32
  import opened MpmcCas

  datatype Op = Enq(elem: u32) | Deq

  /** How a run ends: every call returned (the final queue and the values
      the dequeues stored, in order), or the call at position `at` spins for
      ever, or the call at position `at` indexes past the buffer. */
  datatype Outcome =
    | Finished(final: QueueState, dequeued: seq<u32>)
    | Spins(at: nat)
    | OutOfBounds(at: nat)

  /** One call on queue s. */
  function Apply(s: QueueState, op: Op): (o: Outcome)
    ensures o.OutOfBounds? <==> SlotOf(if op.Enq? then s.tail else s.head) >= |s.buffer|
    ensures o.Finished? <==> if op.Enq? then EnqueueEnabled(s) else DequeueEnabled(s)
    ensures o.Finished? ==> |o.dequeued| == if op.Enq? then 0 else 1
    ensures !o.Finished? ==> o.at == 0
  {
    match op
    case Enq(e) =>
      if SlotOf(s.tail) >= |s.buffer| then OutOfBounds(0)
      else if s.buffer[SlotOf(s.tail)].flag != Nill then Spins(0)
      else Finished(EnqueueStep(s, e), [])
    case Deq =>
      if SlotOf(s.head) >= |s.buffer| then OutOfBounds(0)
      else if s.buffer[SlotOf(s.head)].flag != Full then Spins(0)
      else Finished(DequeueStep(s).0, [DequeueStep(s).1])
  }

  /** The calls of ops made one after another, starting from s. A run that
      stops names one of its own calls, and the buffer is never reallocated. */
  function Run(s: QueueState, ops: seq<Op>): (r: Outcome)
    ensures !r.Finished? ==> r.at < |ops|
    ensures r.Finished? ==> |r.final.buffer| == |s.buffer|
    decreases |ops|
  {
    if ops == [] then Finished(s, [])
    else
      match Apply(s, ops[0])
      case Finished(t, out) =>
        (match Run(t, ops[1..])
         case Finished(u, outs) => Finished(u, out + outs)
         case Spins(k) => Spins(k + 1)
         case OutOfBounds(k) => OutOfBounds(k + 1))
      case Spins(_) => Spins(0)
      case OutOfBounds(_) => OutOfBounds(0)
  }

  /** The values passed to the enqueues of ops, in order. */
  function Inputs(ops: seq<Op>): seq<u32>
  {
    if ops == [] then [] else (if ops[0].Enq? then [ops[0].elem] else []) + Inputs(ops[1..])
  }

  /** Starting with n elements in flight, no enqueue of ops finds QUEUE_SIZE
      elements in flight and no dequeue finds none. */
  predicate Admissible(n: nat, ops: seq<Op>)
    decreases |ops|
  {
    ops == [] ||
    if ops[0].Enq? then n < QUEUE_SIZE && Admissible(n + 1, ops[1..])
    else n > 0 && Admissible(n - 1, ops[1..])
  }

  /** The conclusion of RunFromInv, for one start state and one list of
      calls. */
  predicate RunSound(s: QueueState, ops: seq<Op>)
    requires QUEUE_SIZE <= |s.buffer|
  {
    var r := Run(s, ops);
    !r.OutOfBounds? &&
    (r.Finished? <==> Admissible(Count(s), ops)) &&
    (r.Finished? ==> Inv(r.final) && r.dequeued + Contents(r.final) == Contents(s) + Inputs(ops))
  }

  /** From a queue in the invariant, a run never indexes past the buffer,
      returns from every call exactly when the calls are admissible, keeps
      the invariant, and hands out the elements first in, first out: what
      was dequeued followed by what is left is what was there followed by
      what was enqueued. */
  lemma {:induction false} RunFromInv(s: QueueState, ops: seq<Op>)
    requires Inv(s)
    ensures !Run(s, ops).OutOfBounds?
    ensures Run(s, ops).Finished? <==> Admissible(Count(s), ops)
    ensures Run(s, ops).Finished? ==>
      Inv(Run(s, ops).final) &&
      Run(s, ops).dequeued + Contents(Run(s, ops).final) == Contents(s) + Inputs(ops)
    decreases |ops|, 1
  {
    if ops != [] {
      assert ops == [ops[0]] + ops[1..];
      match ops[0]
      case Enq(e) => RunEnqSound(s, e, ops[1..]);
      case Deq => RunDeqSound(s, ops[1..]);
    }
  }

  lemma {:induction false} RunEnqSound(s: QueueState, e: u32, rest: seq<Op>)
    requires Inv(s)
    ensures RunSound(s, [Enq(e)] + rest)
    decreases |rest| + 1, 0
  {
    var ops := [Enq(e)] + rest;
    assert ops[0] == Enq(e) && ops[1..] == rest;
    EnqueueEnabledIff(s);
    if EnqueueEnabled(s) {
      var t := EnqueueStep(s, e);
      EnqueuePreserves(s, e);
      RunFromInv(t, rest);
      RunCons(s, ops);
      assert Inputs(ops) == [e] + Inputs(rest);
      var r := Run(t, rest);
      if r.Finished? {
        assert Run(s, ops).dequeued == r.dequeued;
        AppendBack(e, Contents(s), Contents(t), r.dequeued, Contents(r.final), Inputs(rest));
      }
    }
  }

  lemma {:induction false} RunDeqSound(s: QueueState, rest: seq<Op>)
    requires Inv(s)
    ensures RunSound(s, [Deq] + rest)
    decreases |rest| + 1, 0
  {
    var ops := [Deq] + rest;
    assert ops[0] == Deq && ops[1..] == rest;
    DequeueEnabledIff(s);
    if DequeueEnabled(s) {
      var t := DequeueStep(s).0;
      var x := DequeueStep(s).1;
      DequeuePreserves(s);
      RunFromInv(t, rest);
      RunCons(s, ops);
      assert Inputs(ops) == Inputs(rest);
      var r := Run(t, rest);
      if r.Finished? {
        assert Contents(s) == [x] + Contents(t);
        ShiftFront(x, Contents(s), Contents(t), r.dequeued, Contents(r.final), Inputs(rest));
      }
    }
  }

  lemma AppendBack(x: u32, front: seq<u32>, back: seq<u32>, out: seq<u32>, left: seq<u32>, ins: seq<u32>)
    requires back == front + [x] && out + left == back + ins
    ensures out + left == front + ([x] + ins)
  {
    calc {
      out + left;
      (front + [x]) + ins;
      front + ([x] + ins);
    }
  }

  lemma ShiftFront(x: u32, front: seq<u32>, back: seq<u32>, out: seq<u32>, left: seq<u32>, ins: seq<u32>)
    requires front == [x] + back && out + left == back + ins
    ensures ([x] + out) + left == front + ins
  {
    calc {
      ([x] + out) + left;
      [x] + (out + left);
      [x] + (back + ins);
      ([x] + back) + ins;
    }
  }

  /** A run whose first call returns goes on as the run of the remaining
      calls from the state that call leaves. */
  lemma RunCons(s: QueueState, ops: seq<Op>)
    requires ops != [] && Apply(s, ops[0]).Finished?
    ensures var a := Apply(s, ops[0]);
      var r := Run(a.final, ops[1..]);
      (Run(s, ops).Finished? <==> r.Finished?) &&
      (Run(s, ops).OutOfBounds? <==> r.OutOfBounds?) &&
      (r.Finished? ==> Run(s, ops).final == r.final && Run(s, ops).dequeued == a.dequeued + r.dequeued)
  {
  }

  /** A sequential run on a queue initialised with at least QUEUE_SIZE
      entries: no access leaves the buffer, every call returns exactly when
      no enqueue meets a full queue and no dequeue an empty one, the number
      of FULL slots is then tail - head and at most QUEUE_SIZE, and the
      dequeues return a prefix of the enqueued values, in enqueue order,
      the rest being still in flight. */
  lemma SequentialRun(size: nat, ops: seq<Op>)
    requires size >= QUEUE_SIZE
    ensures !Run(Initial(size), ops).OutOfBounds?
    ensures Run(Initial(size), ops).Finished? <==> Admissible(0, ops)
    ensures Run(Initial(size), ops).Finished? ==>
      var f := Run(Initial(size), ops).final;
      Inv(f) && FullSlots(f.buffer) == Count(f) <= QUEUE_SIZE &&
      Run(Initial(size), ops).dequeued + Contents(f) == Inputs(ops)
  {
    InitialInv(size);
    RunFromInv(Initial(size), ops);
  }

  /** The number of dequeues in ops. */
  function Dequeues(ops: seq<Op>): nat
  {
    if ops == [] then 0 else (if ops[0].Deq? then 1 else 0) + Dequeues(ops[1..])
  }

  /** A run in which every call returns stores one value per dequeue. */
  lemma {:induction false} DequeuedLength(s: QueueState, ops: seq<Op>)
    requires Run(s, ops).Finished?
    ensures |Run(s, ops).dequeued| == Dequeues(ops)
    decreases |ops|
  {
    if ops != [] {
      RunCons(s, ops);
      DequeuedLength(Apply(s, ops[0]).final, ops[1..]);
    }
  }

  /** No value is lost or duplicated: the values dequeued together with the
      values still in flight are, as a multiset, the values enqueued. */
  lemma NoLostOrDuplicated(size: nat, ops: seq<Op>)
    requires size >= QUEUE_SIZE && Run(Initial(size), ops).Finished?
    ensures var r := Run(Initial(size), ops);
      Inv(r.final) &&
      multiset(r.dequeued) + multiset(Contents(r.final)) == multiset(Inputs(ops))
  {
    SequentialRun(size, ops);
  }

  /** A run with as many dequeues as enqueues in which no enqueue meets a
      full queue and no dequeue an empty one leaves the queue empty, and its
      dequeues return exactly the enqueued values, in order. */
  lemma BalancedRunDeliversAll(size: nat, ops: seq<Op>)
    requires size >= QUEUE_SIZE && Admissible(0, ops) && Dequeues(ops) == |Inputs(ops)|
    ensures Run(Initial(size), ops).Finished?
    ensures Run(Initial(size), ops).dequeued == Inputs(ops)
    ensures Count(Run(Initial(size), ops).final) == 0
  {
    SequentialRun(size, ops);
    DequeuedLength(Initial(size), ops);
    var r := Run(Initial(size), ops);
    assert r.dequeued + Contents(r.final) == Inputs(ops);
    assert |Contents(r.final)| == 0;
    assert Contents(r.final) == [];
    assert r.dequeued + [] == r.dequeued;
  }

  /** m enqueue/dequeue pairs, each enqueue passing x. */
  function Pairs(m: nat, x: u32): (ops: seq<Op>)
    ensures |ops| == 2 * m
  {
    if m == 0 then [] else [Enq(x), Deq] + Pairs(m - 1, x)
  }

  /** On an empty queue whose counters both stand m slots before the end of
      a buffer shorter than QUEUE_SIZE, m enqueue/dequeue pairs succeed and
      the next enqueue indexes the entry just past the buffer. */
  lemma {:induction false} PairsThenOverrun(s: QueueState, m: nat, x: u32)
    requires s.head == s.tail && s.tail + m == |s.buffer| < QUEUE_SIZE
    requires forall i :: 0 <= i < |s.buffer| ==> s.buffer[i].flag == Nill
    ensures Run(s, Pairs(m, x) + [Enq(x)]) == OutOfBounds(2 * m)
    decreases m
  {
    var ops := Pairs(m, x) + [Enq(x)];
    if m > 0 {
      var rest := Pairs(m - 1, x) + [Enq(x)];
      assert ops == [Enq(x), Deq] + rest;
      assert ops[1..] == [Deq] + rest && ops[1..][1..] == rest;
      var t1 := EnqueueStep(s, x);
      var t2 := DequeueStep(t1).0;
      assert SlotOf(s.tail) == s.tail;
      assert t2.head == t2.tail == s.tail + 1;
      PairsThenOverrun(t2, m - 1, x);
    } else {
      assert ops == [Enq(x)];
    }
  }

  /** The mask, not the size given to queue_init, decides which entries are
      addressed: on a queue initialised with fewer than QUEUE_SIZE entries
      (the size comes from the -q option, which fifo.c only checks to be
      above 1), `size` enqueue/dequeue pairs succeed and the enqueue after
      them indexes entry `size`, one past the end of the buffer. */
  lemma SmallBufferOverrun(size: nat, x: u32)
    requires size < QUEUE_SIZE
    ensures Run(Initial(size), Pairs(size, x) + [Enq(x)]) == OutOfBounds(2 * size)
  {
    PairsThenOverrun(Initial(size), size, x);
  }
}
