/** The bounded MPMC ring of include/lockfree_queue.h, one successful call
    per atomic transition.  `head` counts completed dequeues, `tail` completed
    enqueues; counter n lives in slot `n & mask`.  A slot whose counter n lies
    in [head, tail) is full for that lap (sequence n + 1, a value present);
    one whose counter n lies in [tail, head + capacity) is free for that lap
    (sequence n, no value). */
module LockfreeQueue {
  import opened Modular
  import opened Capacity
  import opened Slots

  datatype Queue<T> = Queue(capacity: nat, mask: nat, head: nat, tail: nat, buffer: seq<Slot<T>>)

  /** `<=>` on two counters, compared exactly (the `intptr_t` casts are not modelled). */
  datatype Ordering = Less | Equal | Greater

  function Compare(a: nat, b: nat): Ordering
  {
    if a < b then Less else if a == b then Equal else Greater
  }

  /** The shape the constructor fixes for the queue's lifetime. */
  predicate WellFormed<T>(q: Queue<T>)
  {
    && IsPow2(q.capacity) && 2 <= q.capacity
    && q.mask == q.capacity - 1
    && |q.buffer| == q.capacity
  }

  /** `n & mask`: the physical slot of counter n. */
  function Index<T>(q: Queue<T>, n: nat): (i: nat)
    requires WellFormed(q)
    ensures i == n % q.capacity && i < |q.buffer|
  {
    MaskIsMod(n, q.capacity);
    And(n, q.mask)
  }

  /** The slot counter n maps to. */
  function SlotOf<T>(q: Queue<T>, n: nat): Slot<T>
    requires WellFormed(q)
  {
    q.buffer[n % q.capacity]
  }

  /** Counter n's slot is in the state n's lap demands. */
  ghost predicate SlotMatches<T>(q: Queue<T>, n: nat)
    requires WellFormed(q)
  {
    var s := SlotOf(q, n);
    if n < q.tail then s.sequence == n + 1 && s.Constructed()
    else s.sequence == n && !s.Constructed()
  }

  /** The queue invariant: head <= tail <= head + capacity, and every counter
      of the current window [head, head + capacity) finds its slot full (below
      tail) or free (from tail on) for its own lap. */
  ghost predicate Valid<T>(q: Queue<T>)
  {
    && WellFormed(q)
    && q.head <= q.tail <= q.head + q.capacity
    && forall n | q.head <= n < q.head + q.capacity :: SlotMatches(q, n)
  }

  /** The item that counter n (between head and tail) holds. */
  ghost function Resident<T>(q: Queue<T>, n: nat): (v: T)
    requires Valid(q) && q.head <= n < q.tail
    ensures SlotOf(q, n).storage == Some(v)
  {
    assert SlotMatches(q, n);
    SlotOf(q, n).Get()
  }

  /** The abstract FIFO the ring represents, oldest item first. */
  ghost function Contents<T>(q: Queue<T>): (c: seq<T>)
    requires Valid(q)
    ensures |c| == q.tail - q.head <= q.capacity
    ensures forall i | 0 <= i < |c| :: SlotOf(q, q.head + i).storage == Some(c[i])
  {
    var c := seq(q.tail - q.head, i requires 0 <= i < q.tail - q.head => Resident(q, q.head + i));
    assert forall i | 0 <= i < |c| :: c[i] == Resident(q, q.head + i);
    c
  }

  // ---------------------------------------------------------------- construction

  /** The constructor: capacity max(2, bit_ceil(requested)), mask capacity - 1,
      head = tail = 0, and slot i seeded with sequence i.  NewIsEmpty states
      what it establishes. */
  function New<T>(requested: nat): Queue<T>
  {
    var c := RealCapacity(requested);
    Queue(c, c - 1, 0, 0, seq(c, i requires 0 <= i < c => Fresh<T>().ResetSeq(i)))
  }

  /** A freshly constructed queue has the rounded capacity, satisfies the ring
      invariant and is empty: every slot i carries sequence i and no value. */
  lemma NewIsEmpty<T>(requested: nat)
    ensures var q := New<T>(requested);
      && Valid(q) && q.capacity == RealCapacity(requested)
      && q.mask == q.capacity - 1 && q.head == 0 && q.tail == 0
      && (forall i | 0 <= i < |q.buffer| :: q.buffer[i].sequence == i && !q.buffer[i].Constructed())
    ensures Contents(New<T>(requested)) == []
  {
    var q := New<T>(requested);
    var c := q.capacity;
    assert forall i | 0 <= i < c :: q.buffer[i] == Slot(i, None);
    forall n | 0 <= n < c
      ensures SlotMatches(q, n)
    {
      DivModUnique(n, c, 0, n);
    }
    assert |Contents(q)| == 0;
  }

  // ---------------------------------------------------------------- the two ends

  /** The slot at tail is free for tail's lap unless the ring holds capacity
      items, in which case it is still full from head's lap, with a sequence
      number behind tail. */
  lemma TailSlot<T>(q: Queue<T>)
    requires Valid(q)
    ensures var s := SlotOf(q, q.tail);
      if q.tail < q.head + q.capacity then s.sequence == q.tail && !s.Constructed()
      else s.sequence == q.head + 1 < q.tail && s.Constructed()
  {
    if q.tail < q.head + q.capacity {
      assert SlotMatches(q, q.tail);
    } else {
      AddModulus(q.head, q.capacity);
      assert SlotMatches(q, q.head);
    }
  }

  /** The slot at head is full for head's lap unless the ring is empty, in
      which case it is free for that lap, with a sequence number behind head + 1. */
  lemma HeadSlot<T>(q: Queue<T>)
    requires Valid(q)
    ensures var s := SlotOf(q, q.head);
      if q.head < q.tail then s.sequence == q.head + 1 && s.Constructed()
      else s.sequence == q.head && !s.Constructed()
  {
    assert SlotMatches(q, q.head);
  }

  /** The "ahead" branch of both three-way comparisons, which the source
      answers by retrying, never fires without a concurrent caller. */
  lemma SequentialNeverRetries<T>(q: Queue<T>)
    requires Valid(q)
    ensures Compare(q.buffer[Index(q, q.tail)].sequence, q.tail) != Greater
    ensures Compare(q.buffer[Index(q, q.head)].sequence, q.head + 1) != Greater
  {
    TailSlot(q);
    HeadSlot(q);
  }

  /** Slot p holds the state of the unique counter of its residue in the
      current window: with that counter written k * capacity + p, a free slot
      carries sequence k * capacity + p and a full one k * capacity + p + 1,
      and the value is present exactly when the slot is full. */
  lemma SlotLap<T>(q: Queue<T>, p: nat) returns (k: nat)
    requires Valid(q) && p < q.capacity
    ensures var n := k * q.capacity + p;
      && q.head <= n < q.head + q.capacity
      && (q.buffer[p].Constructed() <==> n < q.tail)
      && q.buffer[p].sequence == (if n < q.tail then n + 1 else n)
  {
    k := LapInWindow(q.head, q.capacity, p);
    var n := k * q.capacity + p;
    assert SlotMatches(q, n);
  }

  // ---------------------------------------------------------------- enqueue

  datatype PushResult<T> = PushResult(ok: bool, queue: Queue<T>)

  /** q2 is q with v published at counter q.tail: tail advanced by one, the
      tail slot (previously unconstructed) now holds v under sequence
      q.tail + 1, and nothing else changed. */
  ghost predicate Published<T>(q: Queue<T>, q2: Queue<T>, v: T)
    requires WellFormed(q)
  {
    var i := q.tail % q.capacity;
    && q2.capacity == q.capacity && q2.mask == q.mask
    && q2.head == q.head && q2.tail == q.tail + 1
    && |q2.buffer| == |q.buffer|
    && !q.buffer[i].Constructed()
    && q2.buffer[i].Constructed() && q2.buffer[i].Get() == v
    && q2.buffer[i].sequence == q.tail + 1
    && forall j | 0 <= j < |q.buffer| && j != i :: q2.buffer[j] == q.buffer[j]
  }

  lemma EnqueueStep<T>(q: Queue<T>, v: T, q2: Queue<T>)
    requires Valid(q) && q.tail < q.head + q.capacity
    requires q2 == q.(tail := q.tail + 1,
                      buffer := q.buffer[q.tail % q.capacity := Slot(q.tail + 1, Some(v))])
    ensures Valid(q2)
    ensures Contents(q2) == Contents(q) + [v]
  {
    var c, t := q.capacity, q.tail;
    forall n | q2.head <= n < q2.head + c
      ensures SlotMatches(q2, n)
    {
      if n != t {
        assert SlotMatches(q, n);
        if n % c == t % c {
          SameResidueInWindow(q.head, n, t, c);
        }
      }
    }
    var c1, c2 := Contents(q), Contents(q2);
    forall i | 0 <= i < |c2|
      ensures c2[i] == (c1 + [v])[i]
    {
      if i < |c1| {
        if (q.head + i) % c == t % c {
          SameResidueInWindow(q.head, q.head + i, t, c);
        }
        assert SlotOf(q2, q.head + i) == SlotOf(q, q.head + i);
      }
    }
  }

  /** `enqueue`: succeeds exactly when the tail slot's sequence equals tail,
      which in a valid queue is exactly when fewer than capacity items are
      held; failure ("full") changes nothing.  EnqueueRefines states what
      success does. */
  function Enqueue<T>(q: Queue<T>, v: T): (r: PushResult<T>)
    requires Valid(q)
    ensures Valid(r.queue) && r.queue.capacity == q.capacity
    ensures r.ok <==> SlotOf(q, q.tail).sequence == q.tail
    ensures r.ok <==> q.tail - q.head < q.capacity
    ensures !r.ok ==> r.queue == q
  {
    var t := q.tail;
    var i := Index(q, t);
    var slot := q.buffer[i];
    TailSlot(q);
    match Compare(slot.sequence, t)
    case Equal =>
      var q2 := q.(tail := t + 1, buffer := q.buffer[i := slot.Construct(v).ResetSeq(t + 1)]);
      EnqueueStep(q, v, q2);
      PushResult(true, q2)
    case Less =>
      PushResult(false, q)
    case Greater =>
      assert false;
      PushResult(false, q)
  }

  /** A successful enqueue publishes v at counter tail and appends it to the
      abstract FIFO; a refused one found the FIFO holding capacity items. */
  lemma EnqueueRefines<T>(q: Queue<T>, v: T)
    requires Valid(q)
    ensures var r := Enqueue(q, v);
      && (r.ok ==> Published(q, r.queue, v) && Contents(r.queue) == Contents(q) + [v])
      && (!r.ok ==> |Contents(q)| == q.capacity)
  {
    var r := Enqueue(q, v);
    TailSlot(q);
    if r.ok {
      EnqueueStep(q, v, r.queue);
    }
  }

  // ---------------------------------------------------------------- dequeue

  datatype PopResult<T> = PopResult(ok: bool, out: T, queue: Queue<T>)

  /** q2 is q with the value v at counter q.head consumed: head advanced by
      one, the head slot emptied and recycled with sequence q.head + capacity,
      and nothing else changed. */
  ghost predicate Consumed<T>(q: Queue<T>, q2: Queue<T>, v: T)
    requires WellFormed(q)
  {
    var i := q.head % q.capacity;
    && q2.capacity == q.capacity && q2.mask == q.mask
    && q2.head == q.head + 1 && q2.tail == q.tail
    && |q2.buffer| == |q.buffer|
    && q.buffer[i].storage == Some(v)
    && !q2.buffer[i].Constructed()
    && q2.buffer[i].sequence == q.head + q.capacity
    && forall j | 0 <= j < |q.buffer| && j != i :: q2.buffer[j] == q.buffer[j]
  }

  lemma DequeueStep<T>(q: Queue<T>, q2: Queue<T>)
    requires Valid(q) && q.head < q.tail
    requires q2 == q.(head := q.head + 1,
                      buffer := q.buffer[q.head % q.capacity := Slot(q.head + q.capacity, None)])
    ensures Valid(q2)
    ensures Contents(q2) == Contents(q)[1..]
  {
    var c, h := q.capacity, q.head;
    AddModulus(h, c);
    forall n | q2.head <= n < q2.head + c
      ensures SlotMatches(q2, n)
    {
      if n != h + c {
        assert SlotMatches(q, n);
        if n % c == h % c {
          SameResidueInWindow(h, n, h, c);
        }
      }
    }
    var c1, c2 := Contents(q), Contents(q2);
    forall i | 0 <= i < |c2|
      ensures c2[i] == c1[i + 1]
    {
      if (h + 1 + i) % c == h % c {
        SameResidueInWindow(h, h + 1 + i, h, c);
      }
      assert SlotOf(q2, h + 1 + i) == SlotOf(q, h + 1 + i);
    }
  }

  /** `dequeue(out)`: succeeds exactly when the head slot's sequence equals
      head + 1, which in a valid queue is exactly when an item is held;
      failure ("empty") leaves both the queue and `out` untouched.
      DequeueRefines states what success does. */
  function Dequeue<T>(q: Queue<T>, out: T): (r: PopResult<T>)
    requires Valid(q)
    ensures Valid(r.queue) && r.queue.capacity == q.capacity
    ensures r.ok <==> SlotOf(q, q.head).sequence == q.head + 1
    ensures r.ok <==> q.head < q.tail
    ensures !r.ok ==> r.out == out && r.queue == q
  {
    var h := q.head;
    var i := Index(q, h);
    var slot := q.buffer[i];
    HeadSlot(q);
    match Compare(slot.sequence, h + 1)
    case Equal =>
      var q2 := q.(head := h + 1, buffer := q.buffer[i := slot.Destroy().ResetSeq(h + q.capacity)]);
      DequeueStep(q, q2);
      PopResult(true, slot.Get(), q2)
    case Less =>
      PopResult(false, out, q)
    case Greater =>
      assert false;
      PopResult(false, out, q)
  }

  /** A successful dequeue delivers the oldest item of the abstract FIFO and
      removes it, recycling its slot for the next lap; a refused one found the
      FIFO empty. */
  lemma DequeueRefines<T>(q: Queue<T>, out: T)
    requires Valid(q)
    ensures var r := Dequeue(q, out);
      && (r.ok ==> Consumed(q, r.queue, r.out))
      && (r.ok ==> r.out == Contents(q)[0] && Contents(r.queue) == Contents(q)[1..])
      && (!r.ok ==> Contents(q) == [])
  {
    var r := Dequeue(q, out);
    HeadSlot(q);
    if r.ok {
      DequeueStep(q, r.queue);
    }
  }

  // ---------------------------------------------------------------- destruction

  /** The value a slot holds, if constructed. */
  function Held<T>(slot: Slot<T>): seq<T>
  {
    if slot.Constructed() then [slot.Get()] else []
  }

  /** The values still constructed in a run of slots, in slot order. */
  function Residents<T>(slots: seq<Slot<T>>): seq<T>
  {
    if slots == [] then [] else Held(slots[0]) + Residents(slots[1..])
  }

  lemma {:induction false} ResidentsAppend<T>(a: seq<Slot<T>>, b: seq<Slot<T>>)
    ensures Residents(a + b) == Residents(a) + Residents(b)
  {
    if a == [] {
      assert a + b == b;
    } else {
      assert (a + b)[0] == a[0] && (a + b)[1..] == a[1..] + b;
      ResidentsAppend(a[1..], b);
      var x, ra, rb := Held(a[0]), Residents(a[1..]), Residents(b);
      assert Residents(a + b) == x + (ra + rb);
      assert x + (ra + rb) == (x + ra) + rb;
    }
  }

  /** A run of slots whose first |c| are constructed, holding c in order, and
      whose others are empty, has exactly c as its residents. */
  lemma {:induction false} ResidentsOfPrefix<T>(s: seq<Slot<T>>, c: seq<T>)
    requires |c| <= |s|
    requires forall i | 0 <= i < |s| :: s[i].Constructed() <==> i < |c|
    requires forall i | 0 <= i < |c| :: s[i].storage == Some(c[i])
    ensures Residents(s) == c
  {
    if s != [] {
      if c == [] {
        ResidentsOfPrefix(s[1..], c);
      } else {
        ResidentsOfPrefix(s[1..], c[1..]);
      }
    }
  }

  /** Rotating a buffer does not change which values it holds. */
  lemma RotationKeepsResidents<T>(buf: seq<Slot<T>>, k: nat)
    requires k <= |buf|
    ensures multiset(Residents(buf)) == multiset(Residents(buf[k..] + buf[..k]))
  {
    var lo, hi := buf[..k], buf[k..];
    assert buf == lo + hi;
    ResidentsAppend(lo, hi);
    ResidentsAppend(hi, lo);
  }

  /** Reading the buffer from the head's slot round to just before it visits
      the counters head, head + 1, ... in order. */
  lemma RotatedSlot<T>(q: Queue<T>, i: nat)
    requires WellFormed(q) && i < q.capacity
    ensures (q.buffer[q.head % q.capacity..] + q.buffer[..q.head % q.capacity])[i] == SlotOf(q, q.head + i)
  {
    ResidueAhead(q.head, q.capacity, i);
  }

  /** The ring, read from head's slot round, holds the abstract contents in order. */
  lemma RotatedResidents<T>(q: Queue<T>)
    requires Valid(q)
    ensures Residents(q.buffer[q.head % q.capacity..] + q.buffer[..q.head % q.capacity]) == Contents(q)
  {
    var h := q.head;
    var k := h % q.capacity;
    var rot := q.buffer[k..] + q.buffer[..k];
    var items := Contents(q);
    forall i | 0 <= i < |rot|
      ensures rot[i] == SlotOf(q, h + i)
    {
      RotatedSlot(q, i);
    }
    forall i | 0 <= i < |rot|
      ensures rot[i].Constructed() <==> i < |items|
    {
      assert SlotMatches(q, h + i);
    }
    ResidentsOfPrefix(rot, items);
  }

  /** The ring, read from slot 0 upwards, holds exactly the abstract contents,
      rotated: as a multiset they are the same. */
  lemma ResidentsOfRing<T>(q: Queue<T>)
    requires Valid(q)
    ensures multiset(Residents(q.buffer)) == multiset(Contents(q))
  {
    RotationKeepsResidents(q.buffer, q.head % q.capacity);
    RotatedResidents(q);
  }

  /** Residents of a prefix grow one slot at a time. */
  lemma ResidentsOfLongerPrefix<T>(buf: seq<Slot<T>>, i: nat)
    requires i < |buf|
    ensures Residents(buf[..i + 1]) == Residents(buf[..i]) + Held(buf[i])
  {
    ResidentsAppend(buf[..i], [buf[i]]);
    assert buf[..i + 1] == buf[..i] + [buf[i]];
    assert [buf[i]][1..] == [];
  }

  /** Destroy every slot of a buffer in order, collecting the values destroyed. */
  method DestroyAll<T>(buffer: seq<Slot<T>>) returns (slots: seq<Slot<T>>, destroyed: seq<T>)
    ensures |slots| == |buffer|
    ensures forall i | 0 <= i < |slots| :: !slots[i].Constructed() && slots[i].sequence == buffer[i].sequence
    ensures destroyed == Residents(buffer)
  {
    slots, destroyed := [], [];
    var i := 0;
    while i < |buffer|
      invariant 0 <= i <= |buffer|
      invariant |slots| == i
      invariant forall j | 0 <= j < i :: slots[j] == buffer[j].Destroy()
      invariant destroyed == Residents(buffer[..i])
    {
      var s := buffer[i];
      ResidentsOfLongerPrefix(buffer, i);
      if s.Constructed() {
        destroyed := destroyed + [s.Get()];
      }
      slots := slots + [s.Destroy()];
      i := i + 1;
    }
    assert buffer[..i] == buffer;
  }

  /** The destructor: every slot is destroyed in buffer order.  Each item the
      queue still holds is destroyed exactly once and nothing else is; the
      sequence numbers are left alone. */
  method Teardown<T>(q: Queue<T>) returns (slots: seq<Slot<T>>, destroyed: seq<T>)
    requires Valid(q)
    ensures |slots| == |q.buffer|
    ensures forall i | 0 <= i < |slots| :: !slots[i].Constructed() && slots[i].sequence == q.buffer[i].sequence
    ensures multiset(destroyed) == multiset(Contents(q))
    ensures |destroyed| == q.tail - q.head
  {
    slots, destroyed := DestroyAll(q.buffer);
    ResidentsOfRing(q);
    assert |multiset(destroyed)| == |multiset(Contents(q))|;
  }

}
