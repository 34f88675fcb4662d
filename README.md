# Lock-free MPMC ring buffer (mpmc_cas.h), sequential model

This project models the lock-free variant of the fifo-mt benchmark's queue.
The queue is a ring buffer of `entry_t` slots. Each slot holds a `status_t`
flag (`NILL`, `FULL`, `BUSY`) and a 32-bit payload. Two unsigned 32-bit
counters, `head` and `tail`, are masked with `QUEUE_MASK` (1023) to pick a
slot. `enqueue` fetch-adds `tail`, compare-and-swaps the slot's flag from
`NILL` to `BUSY`, writes the payload and publishes `FULL`. `dequeue` does the
same on `head`: `FULL` to `BUSY`, read the payload, then `NILL`.

Each call is modelled as one atomic step. The exit condition of each
compare-and-swap spin loop becomes a precondition of the method, or a
`Spins` outcome in a run of calls.

Files and modules:

- `word32.dfy` (`Word32`): `uint32_t` values as a subset of `int`. It makes
  wrap-around addition and unsigned subtraction explicit. C's `&` is a
  recursive bitwise function, and the file proves that masking with
  `2^k - 1` equals `% 2^k`.
- `mpmc_cas.dfy` (`MpmcCas`): `status_t`, `entry_t` and `queue_t` as
  datatypes. It defines the counter-to-slot mapping, the state after
  `queue_init`, and what one enqueue (`EnqueueStep`) and one dequeue
  (`DequeueStep`) do to the whole queue. It also defines the invariant of
  sequential use (`Inv`), the queue's contents oldest first (`Contents`),
  and the lemmas that each operation keeps the invariant and acts as a FIFO
  step.
- `queue.dfy` (`MpmcCasQueue`): the `queue_t` object updated in place. It is
  a class with `head`, `tail` and an `array<Entry>` buffer. Each operation
  is split into its C steps: claim a counter, compare-and-swap the flag,
  then publish or release the slot. `Enqueue` and `Dequeue` are proved
  against `EnqueueStep` and `DequeueStep`.
- `runs.dfy` (`SequentialRuns`): a list of calls run one after another.
  Each run ends `Finished`, `Spins` (a compare-and-swap that can never
  succeed) or `OutOfBounds` (a masked index past the buffer). The lemmas
  here cover FIFO order, slot counting, conservation of payloads, and a
  buffer overrun when the queue is too small.

### Buffer size and the mask

`queue_init` allocates as many entries as its `size` argument, and fifo.c
passes the `-q` value, which it only checks to be above 1. The slot index,
however, is always `counter & 1023`. `MpmcCas.SlotsInBoundsIff` proves that
every counter value stays inside the buffer exactly when `size >= 1024`.
`SequentialRuns.SmallBufferOverrun` proves that with any smaller buffer of
`size` entries, `size` enqueue/dequeue pairs succeed, and then the next
enqueue indexes entry `size`, one past the end. The usage text in
include/fifo.h calls `-q` the queue size, src/fifo.c defaults it to
`QUEUE_SIZE` and prints it as "Queue Size", yet the number of slots in use
is 1024 whatever `-q` is. The model follows the code. The class methods
`Enqueue` and `Dequeue` do not require `size >= 1024`; their first
`requires` is the per-call bounds check `SlotOf(tail) < buffer.Length`
(`SlotOf(head)` for a dequeue), the access `q->buffer[tail]` that one call
makes.

## Model

| member | source | states |
|---|---|---|
| `Word32.Add` | include/mpmc_cas.h:88 | `a + k` in `UINT32` arithmetic: the result differs from `a + k` by a multiple of 2^32 |
| `Word32.Inc` | include/mpmc_cas.h:63 | the value a fetch-and-add of 1 leaves in a `UINT32` counter: its successor, with 2^32 - 1 wrapping to 0 |
| `Word32.Distance` | include/mpmc_cas.h:33-34 | unsigned `tail - head` is below 2^32, and adding it to `head` in 32-bit arithmetic gives `tail` |
| `Word32.DistanceUnique` | include/mpmc_cas.h:33-34 | that number of increments is the only one below 2^32 leading from `head` to `tail` |
| `Word32.BitAnd` | include/mpmc_cas.h:63 | C's `&` on unsigned integers, bit by bit; the result is at most either operand |
| `Word32.BitAndLowMask` | include/mpmc_cas.h:11 | C's bitwise `&` with `2^k - 1` is the remainder modulo `2^k` |
| `MpmcCas.SlotOf` | include/mpmc_cas.h:10-11 | `counter & QUEUE_MASK` is below `QUEUE_SIZE` (1024) and equals the counter modulo 1024 |
| `MpmcCas.SlotOfInc` | include/mpmc_cas.h:63 | consecutive counter values address consecutive slots modulo 1024, also across the 2^32 wrap |
| `MpmcCas.SlotOfAdd` | include/mpmc_cas.h:88 | up to 1024 increments move the slot that many places round the ring, wrap included |
| `MpmcCas.SlotsInBoundsIff` | include/mpmc_cas.h:40-44 | every masked index lies inside a buffer of `size` entries if and only if `size >= QUEUE_SIZE` |
| `MpmcCas.InitialInv` | include/mpmc_cas.h:40-45 | after zeroing and `queue_init`, the queue is empty; it is in the sequential invariant exactly when `size >= QUEUE_SIZE`, and then its contents are empty |
| `MpmcCas.Initial` | include/mpmc_cas.h:40-45 | the queue after `memset` to zero and `queue_init(q, size)`: both counters 0 and `size` entries, each `NILL` with data 0 |
| `MpmcCas.EnqueueEnabled` | include/mpmc_cas.h:66-70 | the exit condition of the enqueue spin loop: the entry `q->buffer[tail]` exists and its flag is `NILL`, so the compare-and-swap to `BUSY` succeeds |
| `MpmcCas.DequeueEnabled` | include/mpmc_cas.h:91-95 | the exit condition of the dequeue spin loop: the entry `q->buffer[head]` exists and its flag is `FULL`, so the compare-and-swap to `BUSY` succeeds |
| `MpmcCas.EnqueueStep` | include/mpmc_cas.h:60-82 | one enqueue: `tail` advances by one modulo 2^32, `head` is unchanged, the claimed slot becomes `FULL` with the element, every other slot is unchanged |
| `MpmcCas.DequeueStep` | include/mpmc_cas.h:85-109 | one dequeue: the returned value is the claimed slot's data, `head` advances by one modulo 2^32, `tail` is unchanged, the slot becomes `NILL` with its data left in place, every other slot is unchanged |
| `MpmcCas.StepsFollowCycle` | include/mpmc_cas.h:70-103 | over one operation, only the claimed slot's flag changes: `NILL` to `FULL` for an enqueue, `FULL` to `NILL` for a dequeue; every other flag is unchanged |
| `MpmcCas.InvFlags` | include/mpmc_cas.h:19-23 | between operations no flag is `BUSY`, and the number of `FULL` slots equals `tail - head`, at most `QUEUE_SIZE` |
| `MpmcCas.EnqueueEnabledIff` | include/mpmc_cas.h:70 | in the invariant, the enqueue's compare-and-swap succeeds at once if and only if fewer than `QUEUE_SIZE` elements are in flight |
| `MpmcCas.DequeueEnabledIff` | include/mpmc_cas.h:95 | in the invariant, the dequeue's compare-and-swap succeeds at once if and only if at least one element is in flight |
| `MpmcCas.EnqueuePreserves` | include/mpmc_cas.h:63-76 | an enqueue keeps the invariant, increases `tail - head` by one and appends its element to the contents |
| `MpmcCas.DequeuePreserves` | include/mpmc_cas.h:88-103 | a dequeue keeps the invariant, decreases `tail - head` by one, returns the oldest element and removes it from the contents |
| `MpmcCasQueue.Queue.constructor` | src/fifo.c:154-157 | zeroing the `queue_t` and calling `queue_init(q, size)`: `head == tail == 0` and `size` entries, all `NILL` with data 0 |
| `MpmcCasQueue.Queue.ClaimTail` | include/mpmc_cas.h:63 | returns the masked old `tail` and advances `tail` by one modulo 2^32 |
| `MpmcCasQueue.Queue.ClaimHead` | include/mpmc_cas.h:88 | returns the masked old `head` and advances `head` by one modulo 2^32 |
| `MpmcCasQueue.Queue.CompareAndSwapFlag` | include/mpmc_cas.h:70 | succeeds if and only if the flag held the expected value; only then is the flag replaced; data and all other slots are unchanged |
| `MpmcCasQueue.Queue.Publish` | include/mpmc_cas.h:75-76 | the `BUSY` slot takes the element and becomes `FULL`; other slots are unchanged |
| `MpmcCasQueue.Queue.Release` | include/mpmc_cas.h:102-103 | returns the `BUSY` slot's data, makes the slot `NILL` and leaves other slots unchanged |
| `MpmcCasQueue.Queue.Enqueue` | include/mpmc_cas.h:60-82 | the new object state is `EnqueueStep` of the old one. From the invariant, the invariant holds again and the element is appended to the contents |
| `MpmcCasQueue.Queue.Dequeue` | include/mpmc_cas.h:85-109 | the new object state and the result are `DequeueStep` of the old state. From the invariant, the invariant holds again and the result is the front of the old contents |
| `SequentialRuns.Apply` | include/mpmc_cas.h:60-109 | one call overruns the buffer exactly when the masked counter is past its end. It returns exactly when its compare-and-swap can succeed; otherwise it spins. A returning dequeue stores one value |
| `SequentialRuns.Run` | src/fifo.c:49-57 | the harness's calls made one after another; a run that stops names one of its own calls as the one that spins or overruns, and a completed run leaves a buffer of the same size |
| `SequentialRuns.RunFromInv` | include/mpmc_cas.h:60-109 | from the invariant, a run never overruns the buffer, and it completes exactly when no enqueue meets a full queue and no dequeue an empty one. It then keeps the invariant, and the dequeued values followed by what is left equal the old contents followed by the enqueued values |
| `SequentialRuns.SequentialRun` | src/fifo.c:49-57 | from a queue initialised with at least 1024 entries: no overrun, completion exactly for admissible call lists; `FULL` slots equal `tail - head` and at most 1024; the dequeues return a prefix of the enqueued values, in enqueue order |
| `SequentialRuns.DequeuedLength` | include/mpmc_cas.h:102 | a completed run stores one value per dequeue |
| `SequentialRuns.NoLostOrDuplicated` | src/fifo.c:49-57 | the values dequeued plus the values in flight are, as a multiset, the values enqueued |
| `SequentialRuns.BalancedRunDeliversAll` | src/fifo.c:124-134 | an admissible run with as many dequeues as enqueues completes, returns exactly the enqueued values in order, and leaves the queue empty |
| `SequentialRuns.SmallBufferOverrun` | include/mpmc_cas.h:63-66 | with a buffer of `size < 1024` entries, `size` enqueue/dequeue pairs succeed, and the following enqueue indexes entry `size`, past the end of the buffer |

## Left out

- Concurrency: the atomicity of `__sync_fetch_and_add` and `__sync_bool_compare_and_swap`, interleavings of several threads, and the memory-fence remarks. Each call is one sequential step.
- MpmcCasQueue.Queue.Enqueue: the spin loop is not a loop here. The method requires the condition under which its first compare-and-swap succeeds. A call that would spin for ever shows up only as `Spins` in `SequentialRuns.Run`.
- MpmcCasQueue.Queue.Dequeue: the same as `Enqueue`, for the `FULL` to `BUSY` compare-and-swap.
- Out-of-bounds accesses, which are undefined behaviour in C, have no modelled effect on memory. The methods require the masked index to lie inside the buffer, and runs report them as `OutOfBounds`.
- `queue_finalize`: it only calls `free`, and because both of its null checks are inverted (`if (!q->buffer) free(q->buffer)`, `if (!q) free(q)`) it frees nothing. On the path in src/fifo.c where `pthread_barrier_init` fails, it is reached with `q` still null and dereferences it. Memory management has no counterpart in the model.
- The failure of `aligned_alloc` (an `assert` abort), page and cache-line alignment, and the byte sizes of `entry_t`.
- The unused `pthread_wrapper_t *thread` parameter of `enqueue` and `dequeue`, and their constant `SUCCESS` return value.
- The spinlock variant in include/mpmc.h: it exists for concurrency only. Run sequentially on an empty queue, its first enqueue spins for ever.
- The benchmark harness in src/fifo.c (threads, CPU affinity, barriers, timing, statistics printed with floating point, option parsing). The harness's calls to a zeroed, initialised queue are covered only as sequential runs. fifo.h's timers, debug macros and usage text are left out too.
- Counter wrap-around while 2^32 operations are in flight cannot occur in the sequential model, because at most 1024 elements are in flight.
