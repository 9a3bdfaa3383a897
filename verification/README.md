# lockfree::queue — a Dafny model of the Vyukov bounded MPMC ring

`lockfree::queue<T>` is a bounded multi-producer, multi-consumer queue after
Dmitry Vyukov's algorithm. It is a ring of `slot`s. Each slot carries an atomic
sequence number and raw storage for at most one value. Two counters, `head`
and `tail`, only ever grow; counter `n` uses slot `n & mask`.

A producer works in two steps:

- It claims counter `t` with a CAS on `tail`. The claim is allowed only when
  slot `t`'s sequence number equals `t` (the slot is free for that lap).
- It then constructs the value in place and publishes the slot by storing
  sequence `t + 1`.

A consumer works the same way:

- It claims counter `h` with a CAS on `head`. The claim is allowed only when
  slot `h`'s sequence number equals `h + 1` (the slot is full for that lap).
- It then moves the value out, destroys it, and recycles the slot by storing
  `h + capacity`.

In both operations, a sequence number behind the counter means "full" or
"empty", and one ahead means the snapshot is stale, so the thread retries.

The model has six modules:

- `Modular` (modular.dfy): uniqueness of Euclidean quotient and remainder,
  and how counters inside one window of `capacity` consecutive values map to
  slots. The ring's correctness rests on these facts.
- `Capacity` (capacity.dfy): `std::bit_ceil`, the constructor's
  `max(2, bit_ceil(requested))`, and bitwise AND on naturals, with the proof
  that `n & (capacity - 1) == n % capacity` for a power-of-two capacity.
- `Slots` (slot.dfy): the slot. The `constructed` flag and the aligned byte
  storage together become an `Option`.
- `LockfreeQueue` (queue.dfy): the queue under single-threaded use. Each call
  of `enqueue`/`dequeue` is one atomic step.
  - `Valid` is the ring invariant. It requires `head <= tail <= head + capacity`.
    Every counter `n` in the window `[head, head + capacity)` must find its slot
    full for its lap (sequence `n + 1`, a value present) when `n < tail`, and
    free (sequence `n`, no value) otherwise.
  - `Contents` is the abstract FIFO the ring represents.
  - The destructor is modelled too.
- `Fifo` (fifo.dfy): histories of calls on one queue.
  - It proves conservation: no item is lost, duplicated or reordered.
  - It proves the single-thread scenario from the repository's basic test,
    for every requested capacity.
- `Interleaving` (interleaving.dfy): the queue under interleaving.
  - Each operation is split into its claim (the CAS) and its publication.
    Maps of in-flight claims record which counters producers and consumers
    hold between the two steps.
  - A per-slot invariant `SlotOk` puts every slot in one of four states
    (free, being produced, full, being consumed). Every step preserves it.
  - Steps are sequentially consistent; memory orders are not modelled.
  - The sequential model is the special case with no claim in flight.
  - For arbitrary interleavings of claims and publications it proves that:
    - the winning claims act as a FIFO;
    - every item a producer got in ends up, exactly once, handed to a
      consumer, owed to a consumer that is mid-dequeue, or still queued.

Counters are unbounded naturals: `size_t` wrap-around and the
`(std::intptr_t)` casts in the comparisons are not modelled (see Left out).

### Where the header and the code disagree

- The constructor's doc comment says the capacity is "the smallest power of
  two that is grater than requested". The code computes
  `std::bit_ceil(requested)`, which is the smallest power of two *not less*
  than `requested`: requested 8 gives 8, as the same comment's example says.
  The model follows the code (`Capacity.RealCapacity`).
- include/lockfree_queue.h calls `item.set_seq(i)` and
  `current_slot.get()`, but include/slot.h declares neither: it has
  `reset_seq` and no accessor. The model reads `set_seq` as `reset_seq`
  (`Slots.Slot.ResetSeq`) and `get` as a read of the live value, defined only
  when the slot is constructed (`Slots.Slot.Get`).
- tests/test_basic.cpp:61 compares `produced` with
  `consumers * items_per_thread`, where `producers * items_per_thread` is
  meant. The two are equal there (4 and 4), so the check is unaffected.

## Model

| member | source | states |
|---|---|---|
| Slots.Fresh | include/slot.h:32 | A new slot has sequence 0 and holds no value. |
| Slots.Slot.Construct | include/slot.h:46-52 | After construction the slot holds exactly the given value; the sequence number is untouched. |
| Slots.Slot.Destroy | include/slot.h:58-65 | After destruction no value is held and the sequence is untouched; on an unconstructed slot it is a no-op. |
| Slots.Slot.ResetSeq | include/slot.h:72-75 | Storing a sequence number sets it and leaves the constructed flag and the value alone. |
| Slots.DestroyIdempotent | include/slot.h:58-65 | Destroying twice is the same as destroying once (the `constructed` guard). |
| Slots.ConstructDestroyRoundTrip | include/slot.h:46-65 | Constructing into an empty slot and destroying again restores the slot exactly. |
| Slots.ResetSeqCommutes | include/slot.h:46-75 | Sequence stores commute with construct and destroy: they touch disjoint parts of the slot. |
| Capacity.BitCeil | include/lockfree_queue.h:66 | `std::bit_ceil(n)` is a power of two, at least n, and its half is below n unless it is 1. |
| Capacity.BitCeilIsLeast | include/lockfree_queue.h:66 | No power of two at least n is smaller than `bit_ceil(n)`. |
| Capacity.RealCapacity | include/lockfree_queue.h:62-66 | The realised capacity is a power of two, at least 2, at least the requested hint, and its half is below the hint unless it is 2. |
| Capacity.RealCapacityIsLeast | include/lockfree_queue.h:62-66 | The realised capacity is the least power of two that is both at least 2 and at least the hint. |
| Capacity.RealCapacityExamples | include/lockfree_queue.h:56-59 | Requested 0 and 1 give 2, 3 gives 4, 5 gives 8 and 8 gives 8. |
| Capacity.MaskIsMod | include/lockfree_queue.h:67 | For a power-of-two capacity, `n & (capacity - 1)` equals `n mod capacity`. |
| LockfreeQueue.Index | include/lockfree_queue.h:110 | The slot index `n & mask` is `n mod capacity` and lies inside the buffer. |
| LockfreeQueue.NewIsEmpty | include/lockfree_queue.h:62-73 | A new queue satisfies the ring invariant and is empty. It has the rounded capacity and mask `capacity - 1`, `head = tail = 0`, and slot i seeded with sequence i and no value. |
| LockfreeQueue.TailSlot | include/lockfree_queue.h:109-113 | In a valid ring, tail's slot is free for tail's lap (sequence tail, empty) unless capacity items are held. In that case it is still full from head's lap, with sequence head + 1 < tail. |
| LockfreeQueue.HeadSlot | include/lockfree_queue.h:150-154 | In a valid ring, head's slot is full for head's lap (sequence head + 1, a value) when an item is held, and otherwise free with sequence head. |
| LockfreeQueue.SequentialNeverRetries | include/lockfree_queue.h:128-129 | Without a concurrent caller, the "ahead, retry" branch of neither comparison can fire. |
| LockfreeQueue.SlotLap | include/lockfree_queue.h:72 | Each slot p carries the state of the unique counter k * capacity + p of the current window. |
| LockfreeQueue.EnqueueStep | include/lockfree_queue.h:117-125 | Claiming tail, constructing the value and publishing tail + 1 keeps the ring invariant and appends the value to the abstract FIFO. |
| LockfreeQueue.Enqueue | include/lockfree_queue.h:105-131 | enqueue succeeds exactly when tail's slot has sequence tail, i.e. exactly when fewer than capacity items are held. It keeps the invariant and capacity; "full" changes nothing. |
| LockfreeQueue.EnqueueRefines | include/lockfree_queue.h:115-128 | A successful enqueue publishes the value at counter tail, changes only tail's slot and tail, and appends the value to the FIFO. A refused one found capacity items. |
| LockfreeQueue.DequeueStep | include/lockfree_queue.h:159-168 | Claiming head, moving the value out, destroying it and storing head + capacity keeps the ring invariant and drops the oldest item. |
| LockfreeQueue.Dequeue | include/lockfree_queue.h:146-174 | dequeue succeeds exactly when head's slot has sequence head + 1, i.e. exactly when an item is held. It keeps the invariant; "empty" leaves the queue and `out` untouched. |
| LockfreeQueue.DequeueRefines | include/lockfree_queue.h:156-171 | A successful dequeue delivers the oldest item, empties and recycles only head's slot, and removes that item from the FIFO. A refused one found the FIFO empty. |
| LockfreeQueue.ResidentsOfRing | include/lockfree_queue.h:87-90 | The values constructed in the buffer, read from slot 0, are as a multiset exactly the abstract contents. |
| LockfreeQueue.DestroyAll | include/lockfree_queue.h:89 | Destroying every slot in order leaves none constructed, keeps every sequence number, and collects the held values in slot order. |
| LockfreeQueue.Teardown | include/lockfree_queue.h:87-90 | The destructor destroys each remaining item exactly once and nothing else. The destroyed values are, as a multiset, the queue's contents, tail - head of them. |
| Fifo.Step | include/lockfree_queue.h:105-174 | One call of enqueue or dequeue keeps the ring invariant and the capacity. |
| Fifo.StepRefines | include/lockfree_queue.h:105-174 | Each call acts on the FIFO as its result says. "Full" is returned exactly at capacity and "empty" exactly when nothing is held; both change nothing. |
| Fifo.RunConserves | include/lockfree_queue.h:105-174 | Over any sequence of calls, the items held before followed by the items accepted equal the items delivered followed by the items still held. |
| Fifo.DeliveredIsPrefixOfAccepted | include/lockfree_queue.h:105-174 | From a new queue, the delivered items are a prefix of the accepted ones, in order, and the ring holds exactly the rest. |
| Fifo.RunPushes | tests/test_basic.cpp:10-11 | Enqueueing values that fit is accepted one by one and appends them in order. |
| Fifo.RunPops | tests/test_basic.cpp:15-20 | n dequeues with n at most the occupancy deliver the n oldest items in order. |
| Fifo.FillThenRefuse | tests/test_basic.cpp:10-13 | Filling an empty ring to capacity accepts every item; the next enqueue reports full. |
| Fifo.DrainThenRefuse | tests/test_basic.cpp:15-23 | Draining a ring delivers every item oldest first; the next dequeue reports empty. |
| Fifo.SingleThreadScenario | tests/test_basic.cpp:6-24 | For any requested capacity: capacity enqueues of 0.. succeed, enqueue(42) fails, capacity dequeues return 0.. in order, and one more dequeue fails. |
| Fifo.SingleThreadScenarioOfEight | tests/test_basic.cpp:6-24 | The same with requested capacity 8, which realises capacity 8. |
| Interleaving.QuiescentIsValid | include/lockfree_queue.h:105-174 | With no claim in flight, the interleaving invariant is exactly the ring invariant, and the interleaved abstract FIFO is the sequential contents. |
| Interleaving.InitialIsEmpty | include/lockfree_queue.h:62-73 | A new queue satisfies the interleaving invariant with an empty FIFO. |
| Interleaving.ClaimsAreExclusive | include/lockfree_queue.h:117-124 | In-flight claims never share a slot: no two producers, no two consumers, and no producer with a consumer. |
| Interleaving.TailSlotState | include/lockfree_queue.h:109-113 | tail's slot is never ahead of tail. It equals tail exactly when fewer than capacity items are claimed and the previous lap's consumer has released the slot; then it is empty and unclaimed. |
| Interleaving.HeadSlotState | include/lockfree_queue.h:150-154 | head's slot is never ahead of head + 1. It equals head + 1 exactly when an item is claimed and its producer has published it; then it holds a value and no consumer holds it. |
| Interleaving.ClaimEnqueueStep | include/lockfree_queue.h:117-121 | Winning the tail CAS on a free slot keeps the invariant and appends the producer's item to the FIFO. |
| Interleaving.ClaimEnqueue | include/lockfree_queue.h:109-129 | A producer's claim with a tail snapshot: compare, CAS, "full" or retry. A won claim keeps the invariant. |
| Interleaving.ClaimEnqueueOutcome | include/lockfree_queue.h:113-128 | The claim wins exactly when the snapshot is current, the weak CAS does not fail spuriously, fewer than capacity items are claimed and the previous lap is released. Winning appends the item and touches no slot. With a current snapshot, "full" is returned exactly when the ring is full or the previous lap is still being consumed. |
| Interleaving.PublishEnqueueStep | include/lockfree_queue.h:123-124 | Constructing the claimed value and storing t + 1 keeps the invariant and leaves the FIFO alone. |
| Interleaving.PublishEnqueue | include/lockfree_queue.h:123-125 | A producer's publication settles its claim and changes neither head, tail, the consumer claims nor the FIFO. |
| Interleaving.ClaimDequeueStep | include/lockfree_queue.h:159-163 | Winning the head CAS on a full slot keeps the invariant, removes the oldest item and owes it to that consumer. |
| Interleaving.ClaimDequeue | include/lockfree_queue.h:150-172 | A consumer's claim with a head snapshot: compare, CAS, "empty" or retry. A won claim keeps the invariant. |
| Interleaving.ClaimDequeueOutcome | include/lockfree_queue.h:154-171 | The claim wins exactly when the snapshot is current, the CAS does not fail spuriously, an item is claimed and its producer has published. Winning owes the oldest item to this consumer. With a current snapshot, "empty" is returned exactly when nothing is claimed or head's producer is still writing. |
| Interleaving.PublishDequeueStep | include/lockfree_queue.h:165-167 | Moving the value out, destroying it and storing h + capacity keeps the invariant, leaves the FIFO alone, and finds the owed value in the slot. |
| Interleaving.PublishDequeue | include/lockfree_queue.h:165-168 | A consumer's publication returns exactly the value its claim was owed and settles that claim only. |
| Interleaving.SequentialEnqueueIsClaimThenPublish | include/lockfree_queue.h:105-131 | Without concurrency, enqueue is a claim with the current tail followed at once by its publication: a successful call is a won claim whose publication yields the same queue, and a refused call ("full") is a refused claim, never a retry. |
| Interleaving.SequentialDequeueIsClaimThenPublish | include/lockfree_queue.h:146-174 | Without concurrency, dequeue is a claim with the current head followed at once by its publication: a successful call is a won claim whose publication delivers the same value and queue, and a refused call ("empty") is a refused claim, never a retry. |
| Interleaving.Apply | include/lockfree_queue.h:105-174 | Any single step of any thread keeps the interleaving invariant. |
| Interleaving.ApplyRefines | include/lockfree_queue.h:105-174 | A winning producer claim appends its item, a winning consumer claim removes the oldest item, and every other step leaves the FIFO alone. |
| Interleaving.TailSlotStable | include/lockfree_queue.h:109-121 | If tail's slot shows sequence t, then after any step of any thread that leaves tail at most t, the slot still shows t: between a producer's load and its winning CAS the sequence cannot change. |
| Interleaving.HeadSlotStable | include/lockfree_queue.h:150-163 | If head's slot shows sequence h + 1, then after any step of any thread that leaves head at most h, the slot still shows h + 1: between a consumer's load and its winning CAS the sequence cannot change. |
| Interleaving.RunActions | include/lockfree_queue.h:105-174 | Every interleaving of claims and publications keeps the invariant. |
| Interleaving.InterleavingConserves | include/lockfree_queue.h:105-174 | Under any interleaving, the items held before followed by the items that joined equal the items that left followed by the items still held. |
| Interleaving.ApplyOwes | include/lockfree_queue.h:165-168 | A winning consumer claim makes the removed item owed to that consumer; its publication hands over exactly that item; no other step changes what is owed. |
| Interleaving.InterleavingDelivers | include/lockfree_queue.h:159-168 | Under any interleaving, every item taken by a consumer claim is still owed to that consumer or has been handed over, exactly once. |
| Interleaving.NoLossNoDuplication | tests/test_ABA.cpp:84-94 | From a new queue, under any interleaving, each item a producer got in is exactly once handed out, owed to a consumer mid-dequeue, or still queued. |

## Left out

- Memory orders (`relaxed`, `acquire`, `release`, `acq_rel`): every step of the interleaving model is sequentially consistent. Whether the chosen orders suffice on a weak memory model is not covered.
- `size_t` wrap-around of `head`, `tail` and the sequence numbers, and the `(std::intptr_t)` casts in the two comparisons (include/lockfree_queue.h:113 and :154): counters are unbounded naturals, and the model compares them exactly. The source casts each operand on its own; it does not compare a signed difference. So a comparison first goes wrong once one of its operands reaches 2^63, where a cast jumps from INTPTR_MAX to INTPTR_MIN, long before the 2^64 wrap. The operand that gets there first is a sequence number: a consumer publishes `h + capacity` (include/lockfree_queue.h:167), so sequence numbers run up to `capacity` ahead of `head` and `tail`, and one reaches 2^63 while the counters are at 2^63 - capacity + 1. Example: capacity 4, head = tail = 2^63 - 2, ring empty. A producer that loaded a stale tail 2^63 - 3 (:109) reads that slot's sequence (:111); the slot has been recycled to 2^63 + 1, which casts negative. The comparison at :113 reads "behind", so `enqueue` returns false ("full") on an empty ring; the model reads "ahead" and retries. Later, with capacity 2, head = 2^63 - 2, tail = 2^63 and the ring full, tail's slot has sequence 2^63 - 1, which casts to INTPTR_MAX while tail casts to INTPTR_MIN; the comparison reads "ahead", so `enqueue` retries forever instead of returning false. In `dequeue`, `(std::intptr_t)current_head + 1` is a signed overflow once head reaches INTPTR_MAX. The model says nothing about behaviour once a sequence number or a counter reaches 2^63, that is, with the counters at 2^63 - capacity + 1 or beyond.
- A `requested` larger than the largest power of two a `size_t` can hold, for which `std::bit_ceil` is undefined: naturals have no such bound.
- The retry loops of `enqueue` and `dequeue`. LockfreeQueue.Enqueue and LockfreeQueue.Dequeue take one sequential step. In that setting the "ahead" branch is proved unreachable, so no loop is needed. The interleaving model takes a single attempt per step (ClaimEnqueue, ClaimDequeue) and returns `Retry` where the source loops. `compare_exchange_weak` (include/lockfree_queue.h:117, :159) may also fail spuriously, even with one thread, and the loop then runs again: LockfreeQueue.Enqueue and LockfreeQueue.Dequeue model the attempt whose CAS wins, which gives the same result whenever it comes, and ClaimEnqueue and ClaimDequeue take a `spurious` flag for the failing attempts. Progress (lock-freedom), including the termination of these loops, is not stated.
- The separate load of the slot's sequence (include/lockfree_queue.h:111, :152) and the later CAS (:117, :159). ClaimEnqueue and ClaimDequeue take them as one atomic step, evaluated at the CAS when the claim wins and at the load otherwise. This is sound because a slot showing sequence t keeps it until tail has moved past t, and one showing h + 1 keeps it until head has moved past h, whatever other threads do in between (Interleaving.TailSlotStable, Interleaving.HeadSlotStable). A winning CAS therefore finds the slot as the load saw it. The stale `tail`/`head` load itself is modelled: it is the claim's snapshot argument.
- Raw storage, `alignas`, placement `new` and the cache-line padding: a slot's storage is an `Option`.
- Exceptions thrown by the value type's constructor or move: every construction and move succeeds.
- Perfect forwarding of constructor arguments in `enqueue(Args&&...)`: the value is passed already built.
- The deleted copy and move operations of `queue` and `slot`: the model's values are immutable.
- `slot::construct` on an already constructed slot overwrites it without running the old destructor. The queue never does this (the invariant keeps the tail slot empty when claimed), so Slots.Slot.Construct simply replaces the value.
- The thread harnesses, yields, spin loops, atomic counters and the `seen` set of tests/test_basic.cpp and tests/test_ABA.cpp: the interleaving model quantifies over all schedules instead. Timing-based checks of tests/test_extreme.cpp are left out for the same reason.
- Destroying the queue while other threads still use it is undefined behaviour in the source. LockfreeQueue.Teardown requires a quiescent, valid ring.
