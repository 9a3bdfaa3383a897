/** The queue under interleaving, at the level of atomic steps: each of
    enqueue and dequeue is split into its claim (the CAS on tail or head) and
    its publication (the construct or move-out, then the sequence store).
    Between the two, the winning thread holds an in-flight claim.  Memory
    orders are not modelled: every step is sequentially consistent. */
module Interleaving {
  import opened Modular
  import opened Slots
  import opened LockfreeQueue
  import Fifo

  /** The shared ring plus the in-flight claims: a producer that won counter t
      holds the value it is about to construct into t's slot; a consumer that
      won counter h is owed the value sitting in h's slot. */
  datatype State<T> = State(ring: Queue<T>, producing: map<nat, T>, consuming: map<nat, T>)

  /** Slot p is in one of four states for the lap e its sequence number names:
      free (no value, sequence e, tail <= e < head + capacity), being produced
      (no value, sequence e, e claimed by a producer, head <= e < tail), full
      (a value, sequence e + 1, head <= e < tail) or being consumed (a value,
      sequence e + 1, e claimed by a consumer, e < head, tail <= e + capacity). */
  ghost predicate SlotOk<T>(s: State<T>, p: nat)
    requires WellFormed(s.ring) && p < s.ring.capacity
  {
    var q, slot := s.ring, s.ring.buffer[p];
    var c := q.capacity;
    if !slot.Constructed() then
      var e := slot.sequence;
      e % c == p
      && (if e in s.producing then q.head <= e < q.tail else q.tail <= e < q.head + c)
    else
      1 <= slot.sequence
      && var e := slot.sequence - 1;
      e % c == p
      && (if e in s.consuming then e < q.head && q.tail <= e + c && s.consuming[e] == slot.Get()
          else q.head <= e < q.tail)
  }

  /** A producer's claim on t sits on t's slot, still empty, with sequence t. */
  ghost predicate ProducerOk<T>(s: State<T>, t: nat)
    requires WellFormed(s.ring)
  {
    var slot := SlotOf(s.ring, t);
    !slot.Constructed() && slot.sequence == t
  }

  /** A consumer's claim on h sits on h's slot, still holding a value, with sequence h + 1. */
  ghost predicate ConsumerOk<T>(s: State<T>, h: nat)
    requires WellFormed(s.ring)
  {
    var slot := SlotOf(s.ring, h);
    slot.Constructed() && slot.sequence == h + 1
  }

  ghost predicate Inv<T>(s: State<T>)
  {
    && WellFormed(s.ring)
    && s.ring.head <= s.ring.tail <= s.ring.head + s.ring.capacity
    && (forall p | 0 <= p < s.ring.capacity :: SlotOk(s, p))
    && (forall t | t in s.producing :: ProducerOk(s, t))
    && (forall h | h in s.consuming :: ConsumerOk(s, h))
  }

  /** Every counter between head and tail finds its slot on its own lap: being
      produced if a producer holds it, full otherwise. */
  lemma WindowSlot<T>(s: State<T>, n: nat)
    requires Inv(s) && s.ring.head <= n < s.ring.tail
    ensures var slot := SlotOf(s.ring, n);
      if n in s.producing then !slot.Constructed() && slot.sequence == n
      else slot.Constructed() && slot.sequence == n + 1 && n !in s.consuming
  {
    var q, c := s.ring, s.ring.capacity;
    var p := n % c;
    assert SlotOk(s, p);
    var slot := q.buffer[p];
    if !slot.Constructed() {
      SameResidueInWindow(q.head, slot.sequence, n, c);
    } else {
      var e := slot.sequence - 1;
      if e in s.consuming {
        SameResidueInWindow(e, e, n, c);
      } else {
        SameResidueInWindow(q.head, e, n, c);
        if n in s.producing {
          assert ProducerOk(s, n);
        }
      }
    }
  }

  /** The value counter n stands for, between head and tail. */
  ghost function Pending<T>(s: State<T>, n: nat): T
    requires Inv(s) && s.ring.head <= n < s.ring.tail
  {
    if n in s.producing then s.producing[n]
    else
      WindowSlot(s, n);
      SlotOf(s.ring, n).Get()
  }

  /** The abstract FIFO: every counter claimed by a producer and not yet
      claimed by a consumer, oldest first. */
  ghost function Abstract<T>(s: State<T>): (a: seq<T>)
    requires Inv(s)
    ensures |a| == s.ring.tail - s.ring.head <= s.ring.capacity
    ensures forall i | 0 <= i < |a| :: a[i] == Pending(s, s.ring.head + i)
  {
    seq(s.ring.tail - s.ring.head, i requires 0 <= i < s.ring.tail - s.ring.head => Pending(s, s.ring.head + i))
  }

  /** With no claim in flight, the interleaving invariant is exactly the
      sequential one, and the abstract FIFO is the sequential contents. */
  lemma QuiescentIsValid<T>(q: Queue<T>)
    ensures Inv(State(q, map[], map[])) <==> Valid(q)
    ensures Valid(q) ==> Abstract(State(q, map[], map[])) == Contents(q)
  {
    var s := State(q, map[], map[]);
    if Inv(s) {
      var c := q.capacity;
      forall n | q.head <= n < q.head + c
        ensures SlotMatches(q, n)
      {
        var p := n % c;
        assert SlotOk(s, p);
        var slot := q.buffer[p];
        if slot.Constructed() {
          SameResidueInWindow(q.head, slot.sequence - 1, n, c);
        } else {
          SameResidueInWindow(q.head, slot.sequence, n, c);
        }
      }
    }
    if Valid(q) {
      forall p | 0 <= p < q.capacity
        ensures SlotOk(s, p)
      {
        var k := SlotLap(q, p);
        DivModUnique(k * q.capacity + p, q.capacity, k, p);
      }
      var a, b := Abstract(s), Contents(q);
      forall i | 0 <= i < |a|
        ensures a[i] == b[i]
      {
        WindowSlot(s, q.head + i);
      }
    }
  }

  /** The state a freshly constructed queue is in: no claim in flight. */
  function Initial<T>(requested: nat): State<T>
  {
    State(New<T>(requested), map[], map[])
  }

  /** A freshly constructed queue satisfies the interleaving invariant and its
      abstract FIFO is empty. */
  lemma InitialIsEmpty<T>(requested: nat)
    ensures Inv(Initial<T>(requested))
    ensures Abstract(Initial<T>(requested)) == []
  {
    NewIsEmpty<T>(requested);
    QuiescentIsValid(New<T>(requested));
  }

  /** In-flight claims never share a slot: no two producers, no two consumers,
      and no producer and consumer. */
  lemma ClaimsAreExclusive<T>(s: State<T>)
    requires Inv(s)
    ensures forall t1, t2 | t1 in s.producing && t2 in s.producing && t1 % s.ring.capacity == t2 % s.ring.capacity :: t1 == t2
    ensures forall h1, h2 | h1 in s.consuming && h2 in s.consuming && h1 % s.ring.capacity == h2 % s.ring.capacity :: h1 == h2
    ensures forall t, h | t in s.producing && h in s.consuming :: t % s.ring.capacity != h % s.ring.capacity
  {
    forall t1, t2 | t1 in s.producing && t2 in s.producing && t1 % s.ring.capacity == t2 % s.ring.capacity
      ensures t1 == t2
    {
      assert ProducerOk(s, t1) && ProducerOk(s, t2);
    }
    forall h1, h2 | h1 in s.consuming && h2 in s.consuming && h1 % s.ring.capacity == h2 % s.ring.capacity
      ensures h1 == h2
    {
      assert ConsumerOk(s, h1) && ConsumerOk(s, h2);
    }
    forall t, h | t in s.producing && h in s.consuming
      ensures t % s.ring.capacity != h % s.ring.capacity
    {
      assert ProducerOk(s, t) && ConsumerOk(s, h);
    }
  }

  // ---------------------------------------------------------------- the slots at the two ends

  /** The claim of lap tail - capacity on tail's slot has been released: no
      consumer still holds it.  (Vacuous on the first lap.) */
  predicate LapReleased<T>(s: State<T>)
  {
    s.ring.tail < s.ring.capacity || s.ring.tail - s.ring.capacity !in s.consuming
  }

  /** Tail's slot is never ahead of tail, and it is exactly at tail (free for
      tail's lap) when fewer than capacity items are claimed and no consumer
      still holds the previous lap of that slot. */
  lemma TailSlotState<T>(s: State<T>)
    requires Inv(s)
    ensures var slot := SlotOf(s.ring, s.ring.tail);
      && slot.sequence <= s.ring.tail
      && (slot.sequence == s.ring.tail <==> s.ring.tail < s.ring.head + s.ring.capacity && LapReleased(s))
      && (slot.sequence == s.ring.tail ==> !slot.Constructed() && s.ring.tail !in s.producing)
  {
    var q, c, t := s.ring, s.ring.capacity, s.ring.tail;
    var p := t % c;
    assert SlotOk(s, p);
    var slot := q.buffer[p];
    if !slot.Constructed() {
      var e := slot.sequence;
      if e in s.producing {
        if t < e + c {
          SameResidueInWindow(e, e, t, c);
        }
      } else {
        SameResidueInWindow(t, e, t, c);
        if c <= t && t - c in s.consuming {
          AddModulus(t - c, c);
        }
      }
    } else {
      var e := slot.sequence - 1;
      if t < e + c {
        SameResidueInWindow(e, e, t, c);
      }
    }
  }

  /** Head's slot is never ahead of head + 1, and it is exactly at head + 1
      (full for head's lap) when an item is claimed and its producer has
      published it. */
  lemma HeadSlotState<T>(s: State<T>)
    requires Inv(s)
    ensures var slot := SlotOf(s.ring, s.ring.head);
      && slot.sequence <= s.ring.head + 1
      && (slot.sequence == s.ring.head + 1 <==> s.ring.head < s.ring.tail && s.ring.head !in s.producing)
      && (slot.sequence == s.ring.head + 1 ==> slot.Constructed() && s.ring.head !in s.consuming)
  {
    var q, c, h := s.ring, s.ring.capacity, s.ring.head;
    if h < q.tail {
      WindowSlot(s, h);
    } else {
      var p := h % c;
      assert SlotOk(s, p);
      var slot := q.buffer[p];
      if !slot.Constructed() {
        SameResidueInWindow(h, slot.sequence, h, c);
      } else {
        var e := slot.sequence - 1;
        if h < e + c {
          SameResidueInWindow(e, e, h, c);
        }
      }
    }
  }

  // ---------------------------------------------------------------- producer steps

  /** The result of one claim attempt: the CAS won, a "full"/"empty" answer, or
      a retry (snapshot stale, or the weak CAS failed). */
  datatype Claim<T> = Claimed(state: State<T>) | Refused | Retry

  ghost predicate ClaimEnqueuePost<T>(s: State<T>, v: T, s2: State<T>)
  {
    s2 == State(s.ring.(tail := s.ring.tail + 1), s.producing[s.ring.tail := v], s.consuming)
  }

  lemma ClaimEnqueueSlots<T>(s: State<T>, v: T, s2: State<T>)
    requires Inv(s) && SlotOf(s.ring, s.ring.tail).sequence == s.ring.tail && ClaimEnqueuePost(s, v, s2)
    ensures WellFormed(s2.ring) && forall p | 0 <= p < s2.ring.capacity :: SlotOk(s2, p)
  {
    var q, c, t := s.ring, s.ring.capacity, s.ring.tail;
    TailSlotState(s);
    forall p | 0 <= p < c
      ensures SlotOk(s2, p)
    {
      assert SlotOk(s, p);
      var slot := q.buffer[p];
      if p != t % c && slot.Constructed() && slot.sequence - 1 in s.consuming {
        AddModulus(slot.sequence - 1, c);
      }
    }
  }

  lemma ClaimEnqueueClaims<T>(s: State<T>, v: T, s2: State<T>)
    requires Inv(s) && SlotOf(s.ring, s.ring.tail).sequence == s.ring.tail && ClaimEnqueuePost(s, v, s2)
    ensures WellFormed(s2.ring)
    ensures forall t | t in s2.producing :: ProducerOk(s2, t)
    ensures forall h | h in s2.consuming :: ConsumerOk(s2, h)
  {
    TailSlotState(s);
    forall t | t in s2.producing
      ensures ProducerOk(s2, t)
    {
      if t != s.ring.tail {
        assert ProducerOk(s, t);
      }
    }
    forall h | h in s2.consuming
      ensures ConsumerOk(s2, h)
    {
      assert ConsumerOk(s, h);
    }
  }

  lemma ClaimEnqueueAbstract<T>(s: State<T>, v: T, s2: State<T>)
    requires Inv(s) && Inv(s2) && ClaimEnqueuePost(s, v, s2)
    ensures Abstract(s2) == Abstract(s) + [v]
  {
    var a, a2 := Abstract(s), Abstract(s2);
    forall i | 0 <= i < |a2|
      ensures a2[i] == (a + [v])[i]
    {
      if i < |a| {
        WindowSlot(s, s.ring.head + i);
      }
    }
  }

  /** Winning a producer claim on a free tail slot keeps the invariant and
      appends the producer's item to the abstract FIFO. */
  lemma ClaimEnqueueStep<T>(s: State<T>, v: T, s2: State<T>)
    requires Inv(s) && SlotOf(s.ring, s.ring.tail).sequence == s.ring.tail && ClaimEnqueuePost(s, v, s2)
    ensures Inv(s2)
    ensures Abstract(s2) == Abstract(s) + [v]
  {
    TailSlotState(s);
    ClaimEnqueueSlots(s, v, s2);
    ClaimEnqueueClaims(s, v, s2);
    ClaimEnqueueAbstract(s, v, s2);
  }

  /** A producer's claim with tail snapshot t: compare t's slot sequence with
      t; on equality try the CAS of tail from t to t + 1, which wins only if
      tail still is t (and the weak CAS does not fail spuriously); behind is
      "full"; ahead means the snapshot is stale. */
  function ClaimEnqueue<T>(s: State<T>, t: nat, v: T, spurious: bool): (r: Claim<T>)
    requires Inv(s) && t <= s.ring.tail
    ensures r.Claimed? ==> Inv(r.state)
  {
    var q := s.ring;
    var i := Index(q, t);
    match Compare(q.buffer[i].sequence, t)
    case Equal =>
      if q.tail == t && !spurious then
        var s2 := State(q.(tail := t + 1), s.producing[t := v], s.consuming);
        ClaimEnqueueStep(s, v, s2);
        Claimed(s2)
      else
        Retry
    case Less => Refused
    case Greater => Retry
  }

  /** A producer's claim wins exactly when its snapshot is current, the CAS
      does not fail spuriously, and tail's slot is free; winning appends v to
      the abstract FIFO, touches no slot, and takes a counter no other
      producer holds.  With a current snapshot, "full" is answered exactly
      when capacity items are claimed or a consumer still holds the previous
      lap of tail's slot, and the retry branch is never taken. */
  lemma ClaimEnqueueOutcome<T>(s: State<T>, t: nat, v: T, spurious: bool)
    requires Inv(s) && t <= s.ring.tail
    ensures var r := ClaimEnqueue(s, t, v, spurious);
      && (r.Claimed? <==> t == s.ring.tail && !spurious && s.ring.tail < s.ring.head + s.ring.capacity && LapReleased(s))
      && (r.Claimed? ==> t !in s.producing && r.state.ring.buffer == s.ring.buffer
                         && r.state.producing == s.producing[t := v]
                         && r.state.consuming == s.consuming
                         && Abstract(r.state) == Abstract(s) + [v])
      && (t == s.ring.tail && !spurious ==>
            (r.Refused? <==> s.ring.tail == s.ring.head + s.ring.capacity || !LapReleased(s)))
  {
    TailSlotState(s);
    var r := ClaimEnqueue(s, t, v, spurious);
    if r.Claimed? {
      ClaimEnqueueStep(s, v, r.state);
    }
  }

  ghost predicate PublishEnqueuePost<T>(s: State<T>, t: nat, s2: State<T>)
    requires WellFormed(s.ring) && t in s.producing
  {
    s2 == State(s.ring.(buffer := s.ring.buffer[t % s.ring.capacity := Slot(t + 1, Some(s.producing[t]))]),
                s.producing - {t}, s.consuming)
  }

  lemma PublishEnqueueSlot<T>(s: State<T>, t: nat, s2: State<T>, p: nat)
    requires Inv(s) && t in s.producing && PublishEnqueuePost(s, t, s2) && p < s.ring.capacity
    ensures WellFormed(s2.ring) && SlotOk(s2, p)
  {
    var c := s.ring.capacity;
    assert ProducerOk(s, t);
    assert SlotOk(s, p);
    if p == t % c {
      assert SlotOk(s, t % c);
    } else {
      var slot := s.ring.buffer[p];
      assert s2.ring.buffer[p] == slot;
      assert !slot.Constructed() ==> slot.sequence != t;
    }
  }

  lemma PublishEnqueueSlots<T>(s: State<T>, t: nat, s2: State<T>)
    requires Inv(s) && t in s.producing && PublishEnqueuePost(s, t, s2)
    ensures WellFormed(s2.ring) && forall p | 0 <= p < s2.ring.capacity :: SlotOk(s2, p)
  {
    forall p | 0 <= p < s.ring.capacity
      ensures SlotOk(s2, p)
    {
      PublishEnqueueSlot(s, t, s2, p);
    }
  }

  lemma PublishEnqueueClaims<T>(s: State<T>, t: nat, s2: State<T>)
    requires Inv(s) && t in s.producing && PublishEnqueuePost(s, t, s2)
    ensures WellFormed(s2.ring)
    ensures forall t' | t' in s2.producing :: ProducerOk(s2, t')
    ensures forall h | h in s2.consuming :: ConsumerOk(s2, h)
  {
    ClaimsAreExclusive(s);
    forall t' | t' in s2.producing
      ensures ProducerOk(s2, t')
    {
      assert ProducerOk(s, t');
    }
    forall h | h in s2.consuming
      ensures ConsumerOk(s2, h)
    {
      assert ConsumerOk(s, h);
    }
  }

  lemma PublishEnqueueAbstract<T>(s: State<T>, t: nat, s2: State<T>)
    requires Inv(s) && Inv(s2) && t in s.producing && PublishEnqueuePost(s, t, s2)
    ensures Abstract(s2) == Abstract(s)
  {
    var a, a2 := Abstract(s), Abstract(s2);
    forall i | 0 <= i < |a2|
      ensures a2[i] == a[i]
    {
      WindowSlot(s, s.ring.head + i);
    }
  }

  /** Publishing a producer's claim keeps the invariant and leaves the
      abstract FIFO alone. */
  lemma PublishEnqueueStep<T>(s: State<T>, t: nat, s2: State<T>)
    requires Inv(s) && t in s.producing && PublishEnqueuePost(s, t, s2)
    ensures Inv(s2)
    ensures Abstract(s2) == Abstract(s)
  {
    PublishEnqueueSlots(s, t, s2);
    PublishEnqueueClaims(s, t, s2);
    PublishEnqueueAbstract(s, t, s2);
  }

  /** A producer's publication: construct the claimed value into t's slot,
      then store sequence t + 1.  The abstract FIFO does not change: the value
      joined it when the claim was won. */
  function PublishEnqueue<T>(s: State<T>, t: nat): (r: State<T>)
    requires Inv(s) && t in s.producing
    ensures Inv(r) && Abstract(r) == Abstract(s)
    ensures r.producing == s.producing - {t} && r.consuming == s.consuming
    ensures r.ring.head == s.ring.head && r.ring.tail == s.ring.tail
  {
    var q := s.ring;
    var i := Index(q, t);
    var q2 := q.(buffer := q.buffer[i := q.buffer[i].Construct(s.producing[t]).ResetSeq(t + 1)]);
    var s2 := State(q2, s.producing - {t}, s.consuming);
    PublishEnqueueStep(s, t, s2);
    s2
  }

  // ---------------------------------------------------------------- consumer steps

  ghost predicate ClaimDequeuePre<T>(s: State<T>)
    requires WellFormed(s.ring)
  {
    var slot := SlotOf(s.ring, s.ring.head);
    slot.sequence == s.ring.head + 1 && slot.Constructed()
  }

  ghost predicate ClaimDequeuePost<T>(s: State<T>, s2: State<T>)
    requires WellFormed(s.ring) && ClaimDequeuePre(s)
  {
    s2 == State(s.ring.(head := s.ring.head + 1), s.producing,
                s.consuming[s.ring.head := SlotOf(s.ring, s.ring.head).Get()])
  }

  lemma ClaimDequeueSlots<T>(s: State<T>, s2: State<T>)
    requires Inv(s) && ClaimDequeuePre(s) && ClaimDequeuePost(s, s2)
    ensures WellFormed(s2.ring) && forall p | 0 <= p < s2.ring.capacity :: SlotOk(s2, p)
  {
    HeadSlotState(s);
    WindowSlot(s, s.ring.head);
    forall p | 0 <= p < s.ring.capacity
      ensures SlotOk(s2, p)
    {
      assert SlotOk(s, p);
    }
  }

  lemma ClaimDequeueClaims<T>(s: State<T>, s2: State<T>)
    requires Inv(s) && ClaimDequeuePre(s) && ClaimDequeuePost(s, s2)
    ensures WellFormed(s2.ring)
    ensures forall t | t in s2.producing :: ProducerOk(s2, t)
    ensures forall h | h in s2.consuming :: ConsumerOk(s2, h)
  {
    forall t | t in s2.producing
      ensures ProducerOk(s2, t)
    {
      assert ProducerOk(s, t);
    }
    forall h | h in s2.consuming
      ensures ConsumerOk(s2, h)
    {
      if h != s.ring.head {
        assert ConsumerOk(s, h);
      }
    }
  }

  lemma ClaimDequeueAbstract<T>(s: State<T>, s2: State<T>)
    requires Inv(s) && Inv(s2) && ClaimDequeuePre(s) && ClaimDequeuePost(s, s2)
    ensures 0 < |Abstract(s)| && Abstract(s2) == Abstract(s)[1..]
    ensures s2.consuming[s.ring.head] == Abstract(s)[0]
  {
    var h := s.ring.head;
    HeadSlotState(s);
    WindowSlot(s, h);
    var a, a2 := Abstract(s), Abstract(s2);
    forall i | 0 <= i < |a2|
      ensures a2[i] == a[i + 1]
    {
      WindowSlot(s, h + 1 + i);
    }
  }

  /** Winning a consumer claim on a full head slot keeps the invariant,
      removes the oldest item from the abstract FIFO and owes it to the
      claiming consumer. */
  lemma ClaimDequeueStep<T>(s: State<T>, s2: State<T>)
    requires Inv(s) && ClaimDequeuePre(s) && ClaimDequeuePost(s, s2)
    ensures Inv(s2)
    ensures 0 < |Abstract(s)| && Abstract(s2) == Abstract(s)[1..]
    ensures s2.consuming[s.ring.head] == Abstract(s)[0]
  {
    HeadSlotState(s);
    ClaimDequeueSlots(s, s2);
    ClaimDequeueClaims(s, s2);
    ClaimDequeueAbstract(s, s2);
  }

  /** A consumer's claim with head snapshot h: compare h's slot sequence with
      h + 1; on equality try the CAS of head from h to h + 1; behind is
      "empty"; ahead means the snapshot is stale. */
  function ClaimDequeue<T>(s: State<T>, h: nat, spurious: bool): (r: Claim<T>)
    requires Inv(s) && h <= s.ring.head
    ensures r.Claimed? ==> Inv(r.state)
  {
    var q := s.ring;
    var i := Index(q, h);
    var slot := q.buffer[i];
    match Compare(slot.sequence, h + 1)
    case Equal =>
      if q.head == h && !spurious then
        HeadSlotState(s);
        var s2 := State(q.(head := h + 1), s.producing, s.consuming[h := slot.Get()]);
        ClaimDequeueStep(s, s2);
        Claimed(s2)
      else
        Retry
    case Less => Refused
    case Greater => Retry
  }

  /** A consumer's claim wins exactly when its snapshot is current, the CAS
      does not fail spuriously, and head's item has been published; winning
      removes the oldest item from the abstract FIFO and entitles this
      consumer, and no other, to it.  With a current snapshot, "empty" is
      answered exactly when nothing is claimed or head's producer has not yet
      published, and the retry branch is never taken. */
  lemma ClaimDequeueOutcome<T>(s: State<T>, h: nat, spurious: bool)
    requires Inv(s) && h <= s.ring.head
    ensures var r := ClaimDequeue(s, h, spurious);
      && (r.Claimed? <==> h == s.ring.head && !spurious && s.ring.head < s.ring.tail && s.ring.head !in s.producing)
      && (r.Claimed? ==> h !in s.consuming && r.state.ring.buffer == s.ring.buffer
                         && r.state.producing == s.producing
                         && r.state.consuming == s.consuming[h := Abstract(s)[0]]
                         && Abstract(r.state) == Abstract(s)[1..])
      && (h == s.ring.head && !spurious ==>
            (r.Refused? <==> s.ring.head == s.ring.tail || s.ring.head in s.producing))
  {
    HeadSlotState(s);
    var r := ClaimDequeue(s, h, spurious);
    if r.Claimed? {
      ClaimDequeueStep(s, r.state);
    }
  }

  ghost predicate PublishDequeuePost<T>(s: State<T>, h: nat, s2: State<T>)
    requires WellFormed(s.ring)
  {
    s2 == State(s.ring.(buffer := s.ring.buffer[h % s.ring.capacity := Slot(h + s.ring.capacity, None)]),
                s.producing, s.consuming - {h})
  }

  lemma PublishDequeueSlots<T>(s: State<T>, h: nat, s2: State<T>)
    requires Inv(s) && h in s.consuming && PublishDequeuePost(s, h, s2)
    ensures WellFormed(s2.ring) && forall p | 0 <= p < s2.ring.capacity :: SlotOk(s2, p)
  {
    var c := s.ring.capacity;
    assert ConsumerOk(s, h);
    assert SlotOk(s, h % c);
    AddModulus(h, c);
    forall p | 0 <= p < c
      ensures SlotOk(s2, p)
    {
      assert SlotOk(s, p);
    }
  }

  lemma PublishDequeueClaims<T>(s: State<T>, h: nat, s2: State<T>)
    requires Inv(s) && h in s.consuming && PublishDequeuePost(s, h, s2)
    ensures WellFormed(s2.ring)
    ensures forall t | t in s2.producing :: ProducerOk(s2, t)
    ensures forall h' | h' in s2.consuming :: ConsumerOk(s2, h')
  {
    ClaimsAreExclusive(s);
    forall t | t in s2.producing
      ensures ProducerOk(s2, t)
    {
      assert ProducerOk(s, t);
    }
    forall h' | h' in s2.consuming
      ensures ConsumerOk(s2, h')
    {
      assert ConsumerOk(s, h');
    }
  }

  lemma PublishDequeueAbstract<T>(s: State<T>, h: nat, s2: State<T>)
    requires Inv(s) && Inv(s2) && h in s.consuming && PublishDequeuePost(s, h, s2)
    ensures Abstract(s2) == Abstract(s)
  {
    var q, c := s.ring, s.ring.capacity;
    assert ConsumerOk(s, h);
    assert SlotOk(s, h % c);
    var a, a2 := Abstract(s), Abstract(s2);
    forall i | 0 <= i < |a2|
      ensures a2[i] == a[i]
    {
      WindowSlot(s, q.head + i);
    }
  }

  /** Publishing a consumer's claim keeps the invariant, leaves the abstract
      FIFO alone, and finds the owed value in the slot. */
  lemma PublishDequeueStep<T>(s: State<T>, h: nat, s2: State<T>)
    requires Inv(s) && h in s.consuming && PublishDequeuePost(s, h, s2)
    ensures Inv(s2)
    ensures Abstract(s2) == Abstract(s)
    ensures SlotOf(s.ring, h).storage == Some(s.consuming[h])
  {
    assert ConsumerOk(s, h);
    assert SlotOk(s, h % s.ring.capacity);
    PublishDequeueSlots(s, h, s2);
    PublishDequeueClaims(s, h, s2);
    PublishDequeueAbstract(s, h, s2);
  }

  /** What a consumer's publication hands back, and the state after it. */
  datatype Delivery<T> = Delivery(out: T, state: State<T>)

  /** A consumer's publication: move the value out of h's slot, destroy it,
      then store sequence h + capacity, recycling the slot for the next lap.
      The value delivered is the one the claim was entitled to; the abstract
      FIFO does not change. */
  function PublishDequeue<T>(s: State<T>, h: nat): (r: Delivery<T>)
    requires Inv(s) && h in s.consuming
    ensures Inv(r.state) && Abstract(r.state) == Abstract(s)
    ensures r.out == s.consuming[h]
    ensures r.state.consuming == s.consuming - {h} && r.state.producing == s.producing
    ensures r.state.ring.head == s.ring.head && r.state.ring.tail == s.ring.tail
  {
    var q := s.ring;
    var i := Index(q, h);
    var slot := q.buffer[i];
    assert ConsumerOk(s, h);
    var q2 := q.(buffer := q.buffer[i := slot.Destroy().ResetSeq(h + q.capacity)]);
    var s2 := State(q2, s.producing, s.consuming - {h});
    PublishDequeueStep(s, h, s2);
    Delivery(slot.Get(), s2)
  }

  // ---------------------------------------------------------------- the sequential calls as two steps

  /** Without concurrency, a successful `enqueue` is a producer claim with the
      current tail immediately followed by its publication, and a refused one
      is a refused claim. */
  lemma SequentialEnqueueIsClaimThenPublish<T>(q: Queue<T>, v: T)
    requires Valid(q)
    ensures Inv(State(q, map[], map[]))
    ensures var r := Enqueue(q, v);
      var c := ClaimEnqueue(State(q, map[], map[]), q.tail, v, false);
      && (r.ok <==> c.Claimed?)
      && (!r.ok ==> c.Refused?)
      && (r.ok ==> PublishEnqueue(c.state, q.tail) == State(r.queue, map[], map[]))
  {
    QuiescentIsValid(q);
    ClaimEnqueueOutcome(State(q, map[], map[]), q.tail, v, false);
    if Enqueue(q, v).ok {
      assert map[][q.tail := v] - {q.tail} == map[];
    }
  }

  /** Without concurrency, a successful `dequeue` is a consumer claim with the
      current head immediately followed by its publication, delivering the
      same value, and a refused one is a refused claim. */
  lemma SequentialDequeueIsClaimThenPublish<T>(q: Queue<T>, out: T)
    requires Valid(q)
    ensures Inv(State(q, map[], map[]))
    ensures var r := Dequeue(q, out);
      var c := ClaimDequeue(State(q, map[], map[]), q.head, false);
      && (r.ok <==> c.Claimed?)
      && (!r.ok ==> c.Refused?)
      && (r.ok ==> PublishDequeue(c.state, q.head) == Delivery(r.out, State(r.queue, map[], map[])))
  {
    QuiescentIsValid(q);
    ClaimDequeueOutcome(State(q, map[], map[]), q.head, false);
    var c := ClaimDequeue(State(q, map[], map[]), q.head, false);
    if Dequeue(q, out).ok {
      assert c.state.consuming - {q.head} == map[];
    }
  }

  // ---------------------------------------------------------------- interleaved histories

  /** One atomic step of some thread.  A claim carries the thread's snapshot of
      tail or head and whether its weak CAS fails spuriously; a publication
      names the counter its thread claimed. */
  datatype Action<T> =
    | ProducerClaim(snapshot: nat, v: T, spurious: bool)
    | ProducerPublish(t: nat)
    | ConsumerClaim(snapshot: nat, spurious: bool)
    | ConsumerPublish(h: nat)

  /** What a step did to the abstract FIFO: appended v, removed v, or nothing.
      `Handed(v)` is a consumer's publication returning v. */
  datatype Observation<T> = Joined(v: T) | Left(v: T) | Handed(v: T) | Quiet

  /** A step; a step that is not enabled (a snapshot newer than the counter, a
      publication without a claim) stutters. */
  function Apply<T>(s: State<T>, a: Action<T>): (r: (State<T>, Observation<T>))
    requires Inv(s)
    ensures Inv(r.0)
  {
    match a
    case ProducerClaim(t, v, spurious) =>
      if t <= s.ring.tail then
        match ClaimEnqueue(s, t, v, spurious)
        case Claimed(s2) => (s2, Joined(v))
        case _ => (s, Quiet)
      else (s, Quiet)
    case ProducerPublish(t) =>
      if t in s.producing then (PublishEnqueue(s, t), Quiet) else (s, Quiet)
    case ConsumerClaim(h, spurious) =>
      if h <= s.ring.head then
        match ClaimDequeue(s, h, spurious)
        case Claimed(s2) => (s2, Left(s2.consuming[h]))
        case _ => (s, Quiet)
      else (s, Quiet)
    case ConsumerPublish(h) =>
      if h in s.consuming then
        var d := PublishDequeue(s, h);
        (d.state, Handed(d.out))
      else (s, Quiet)
  }

  /** How a step acts on the abstract FIFO: it appends what it joins and
      takes what it leaves from the front. */
  ghost predicate ActsAsObserved<T>(s: State<T>, r: (State<T>, Observation<T>))
    requires Inv(s) && Inv(r.0)
  {
    Abstract(s) + Joins(r.1) == Leaves(r.1) + Abstract(r.0)
  }

  lemma ProducerClaimRefines<T>(s: State<T>, t: nat, v: T, spurious: bool)
    requires Inv(s)
    ensures ActsAsObserved(s, Apply(s, ProducerClaim(t, v, spurious)))
  {
    var (s2, o) := Apply(s, ProducerClaim(t, v, spurious));
    if t <= s.ring.tail {
      ClaimEnqueueOutcome(s, t, v, spurious);
    }
    var a1, a2 := Abstract(s), Abstract(s2);
    if o.Joined? {
      assert [] + a2 == a2;
    } else {
      assert a1 + [] == [] + a1;
    }
  }

  lemma ConsumerClaimRefines<T>(s: State<T>, h: nat, spurious: bool)
    requires Inv(s)
    ensures ActsAsObserved(s, Apply(s, ConsumerClaim(h, spurious)))
  {
    var (s2, o) := Apply(s, ConsumerClaim(h, spurious));
    if h <= s.ring.head {
      ClaimDequeueOutcome(s, h, spurious);
    }
    var a1, a2 := Abstract(s), Abstract(s2);
    if o.Left? {
      assert a1 == [a1[0]] + a1[1..];
      assert a1 + [] == a1;
    } else {
      assert a1 + [] == [] + a1;
    }
  }

  lemma PublishRefines<T>(s: State<T>, a: Action<T>)
    requires Inv(s) && (a.ProducerPublish? || a.ConsumerPublish?)
    ensures ActsAsObserved(s, Apply(s, a))
  {
    var (s2, o) := Apply(s, a);
    var a1, a2 := Abstract(s), Abstract(s2);
    assert a1 == a2;
    assert a1 + [] == [] + a2;
  }

  /** Every step acts on the abstract FIFO as its observation says: a winning
      producer claim appends its item, a winning consumer claim removes the
      oldest one, and every other step (publications included) leaves it alone. */
  lemma ApplyRefines<T>(s: State<T>, a: Action<T>)
    requires Inv(s)
    ensures var (s2, o) := Apply(s, a);
      Abstract(s) + Joins(o) == Leaves(o) + Abstract(s2)
  {
    match a
    case ProducerClaim(t, v, spurious) => ProducerClaimRefines(s, t, v, spurious);
    case ConsumerClaim(h, spurious) => ConsumerClaimRefines(s, h, spurious);
    case _ => PublishRefines(s, a);
  }

  /** A claim, won or not, writes no slot. */
  lemma ClaimKeepsBuffer<T>(s: State<T>, a: Action<T>)
    requires Inv(s) && (a.ProducerClaim? || a.ConsumerClaim?)
    ensures Apply(s, a).0.ring.buffer == s.ring.buffer
  {
  }

  /** A publication, of either kind, moves neither counter. */
  lemma PublishKeepsCounters<T>(s: State<T>, a: Action<T>)
    requires Inv(s) && (a.ProducerPublish? || a.ConsumerPublish?)
    ensures Apply(s, a).0.ring.head == s.ring.head && Apply(s, a).0.ring.tail == s.ring.tail
  {
  }

  /** A producer's publication writes its own slot and no other. */
  lemma ProducerPublishSlot<T>(s: State<T>, t: nat, n: nat)
    requires Inv(s) && (t in s.producing ==> n % s.ring.capacity != t % s.ring.capacity)
    ensures SlotOf(Apply(s, ProducerPublish(t)).0.ring, n) == SlotOf(s.ring, n)
  {
  }

  /** A consumer's publication writes its own slot and no other. */
  lemma ConsumerPublishSlot<T>(s: State<T>, h: nat, n: nat)
    requires Inv(s) && (h in s.consuming ==> n % s.ring.capacity != h % s.ring.capacity)
    ensures SlotOf(Apply(s, ConsumerPublish(h)).0.ring, n) == SlotOf(s.ring, n)
  {
  }

  /** Once tail's slot shows sequence t, no step of any thread changes that
      until tail has moved past t.  So a producer whose CAS of tail from t
      wins still finds the slot as its earlier load saw it, and a claim may
      take the load and the CAS as one step. */
  lemma TailSlotStable<T>(s: State<T>, a: Action<T>, t: nat)
    requires Inv(s) && SlotOf(s.ring, t).sequence == t
    requires Apply(s, a).0.ring.tail <= t
    ensures SlotOf(Apply(s, a).0.ring, t).sequence == t
  {
    var c := s.ring.capacity;
    match a
    case ProducerClaim(_, _, _) => ClaimKeepsBuffer(s, a);
    case ConsumerClaim(_, _) => ClaimKeepsBuffer(s, a);
    case ProducerPublish(t1) =>
      PublishKeepsCounters(s, a);
      assert t1 in s.producing ==> t % c != t1 % c by {
        if t1 in s.producing {
          assert ProducerOk(s, t1);
          assert SlotOk(s, t1 % c);
        }
      }
      ProducerPublishSlot(s, t1, t);
    case ConsumerPublish(h) =>
      assert h in s.consuming ==> t % c != h % c by {
        if h in s.consuming {
          assert ConsumerOk(s, h);
          ResidueAhead(h, c, 1);
        }
      }
      ConsumerPublishSlot(s, h, t);
  }

  /** Once head's slot shows sequence h + 1, no step of any thread changes
      that until head has moved past h: the consumer's load and CAS may be
      taken as one step. */
  lemma HeadSlotStable<T>(s: State<T>, a: Action<T>, h: nat)
    requires Inv(s) && SlotOf(s.ring, h).sequence == h + 1
    requires Apply(s, a).0.ring.head <= h
    ensures SlotOf(Apply(s, a).0.ring, h).sequence == h + 1
  {
    var c := s.ring.capacity;
    match a
    case ProducerClaim(_, _, _) => ClaimKeepsBuffer(s, a);
    case ConsumerClaim(_, _) => ClaimKeepsBuffer(s, a);
    case ProducerPublish(t) =>
      assert t in s.producing ==> h % c != t % c by {
        if t in s.producing {
          assert ProducerOk(s, t);
          ResidueAhead(h, c, 1);
        }
      }
      ProducerPublishSlot(s, t, h);
    case ConsumerPublish(h1) =>
      PublishKeepsCounters(s, a);
      assert h1 in s.consuming ==> h % c != h1 % c by {
        if h1 in s.consuming {
          assert ConsumerOk(s, h1);
          assert SlotOk(s, h1 % c);
        }
      }
      ConsumerPublishSlot(s, h1, h);
  }

  /** An interleaving: the steps of all threads in the order they happened. */
  function RunActions<T>(s: State<T>, acts: seq<Action<T>>): (r: (State<T>, seq<Observation<T>>))
    requires Inv(s)
    ensures Inv(r.0) && |r.1| == |acts|
    decreases |acts|
  {
    if acts == [] then (s, [])
    else
      var (s1, o) := Apply(s, acts[0]);
      var (s2, os) := RunActions(s1, acts[1..]);
      (s2, [o] + os)
  }

  /** What a step appended to the FIFO. */
  function Joins<T>(o: Observation<T>): seq<T>
  {
    if o.Joined? then [o.v] else []
  }

  /** What a step took from the front of the FIFO. */
  function Leaves<T>(o: Observation<T>): seq<T>
  {
    if o.Left? then [o.v] else []
  }

  /** The items that joined the FIFO, in the order their claims won. */
  function JoinedValues<T>(os: seq<Observation<T>>): seq<T>
  {
    Fifo.Flatten(os, Joins)
  }

  /** The items that left the FIFO, in the order their claims won. */
  function LeftValues<T>(os: seq<Observation<T>>): seq<T>
  {
    Fifo.Flatten(os, Leaves)
  }

  /** Under any interleaving, the items that left the FIFO at winning consumer
      claims are, in order, the items that were in it followed by those that
      joined it at winning producer claims, minus what is still in it: no item
      is lost, duplicated or reordered. */
  lemma {:induction false} InterleavingConserves<T>(s: State<T>, acts: seq<Action<T>>)
    requires Inv(s)
    ensures Abstract(s) + JoinedValues(RunActions(s, acts).1)
         == LeftValues(RunActions(s, acts).1) + Abstract(RunActions(s, acts).0)
    decreases |acts|
  {
    if acts != [] {
      var st := Apply(s, acts[0]);
      var rest := RunActions(st.0, acts[1..]);
      InterleavingConserves(st.0, acts[1..]);
      ApplyRefines(s, acts[0]);
      assert RunActions(s, acts) == (rest.0, [st.1] + rest.1);
      assert ([st.1] + rest.1)[0] == st.1 && ([st.1] + rest.1)[1..] == rest.1;
      Fifo.ConserveStep(Abstract(s), Abstract(st.0), Abstract(rest.0), Joins(st.1), Leaves(st.1),
                   JoinedValues(rest.1), LeftValues(rest.1));
    }
  }

  // ---------------------------------------------------------------- exactly-once delivery

  /** The values m holds at counters below n, as a multiset. */
  ghost function OwedBelow<T>(m: map<nat, T>, n: nat): multiset<T>
  {
    if n == 0 then multiset{}
    else OwedBelow(m, n - 1) + (if n - 1 in m then multiset{m[n - 1]} else multiset{})
  }

  lemma {:induction false} OwedIgnoresAbove<T>(m: map<nat, T>, n: nat, k: nat, v: T)
    requires n <= k
    ensures OwedBelow(m[k := v], n) == OwedBelow(m, n)
    ensures OwedBelow(m - {k}, n) == OwedBelow(m, n)
  {
    if n > 0 {
      OwedIgnoresAbove(m, n - 1, k, v);
    }
  }

  lemma {:induction false} OwedRemove<T>(m: map<nat, T>, n: nat, k: nat)
    requires k in m && k < n
    ensures OwedBelow(m, n) == multiset{m[k]} + OwedBelow(m - {k}, n)
  {
    if k == n - 1 {
      OwedIgnoresAbove(m, n - 1, k, m[k]);
    } else {
      OwedRemove(m, n - 1, k);
    }
  }

  /** Owing v at counter h, just below the new bound h + 1, adds v. */
  lemma OwedExtend<T>(m: map<nat, T>, h: nat, v: T)
    ensures OwedBelow(m[h := v], h + 1) == OwedBelow(m, h) + multiset{v}
  {
    OwedIgnoresAbove(m, h, h, v);
  }

  /** Every consumer claim in flight is on a counter head has already passed. */
  lemma ConsumingBelowHead<T>(s: State<T>)
    requires Inv(s)
    ensures forall h | h in s.consuming :: h < s.ring.head
  {
    forall h | h in s.consuming
      ensures h < s.ring.head
    {
      assert ConsumerOk(s, h);
      assert SlotOk(s, h % s.ring.capacity);
    }
  }

  /** The items owed to consumers that have won a claim and not yet published it. */
  ghost function Owed<T>(s: State<T>): multiset<T>
  {
    OwedBelow(s.consuming, s.ring.head)
  }

  /** What a step handed to a consumer's `out`. */
  function Hands<T>(o: Observation<T>): seq<T>
  {
    if o.Handed? then [o.v] else []
  }

  /** The values consumers received, in the order they published. */
  function HandedValues<T>(os: seq<Observation<T>>): seq<T>
  {
    Fifo.Flatten(os, Hands)
  }

  /** How a step moves items between the FIFO's front and the consumers' hands. */
  ghost predicate OwesAsObserved<T>(s: State<T>, r: (State<T>, Observation<T>))
  {
    Owed(s) + multiset(Leaves(r.1)) == multiset(Hands(r.1)) + Owed(r.0)
  }

  /** A step that neither takes nor hands over an item and leaves head and
      the consumer claims alone owes what it owed before. */
  lemma OwesUnchanged<T>(s: State<T>, r: (State<T>, Observation<T>))
    requires r.0.consuming == s.consuming && r.0.ring.head == s.ring.head
    requires !r.1.Left? && !r.1.Handed?
    ensures OwesAsObserved(s, r)
  {
  }

  lemma ProducerClaimOwes<T>(s: State<T>, t: nat, v: T, spurious: bool)
    requires Inv(s)
    ensures OwesAsObserved(s, Apply(s, ProducerClaim(t, v, spurious)))
  {
    if t <= s.ring.tail {
      ClaimEnqueueOutcome(s, t, v, spurious);
    }
    OwesUnchanged(s, Apply(s, ProducerClaim(t, v, spurious)));
  }

  lemma ProducerPublishOwes<T>(s: State<T>, t: nat)
    requires Inv(s)
    ensures OwesAsObserved(s, Apply(s, ProducerPublish(t)))
  {
    OwesUnchanged(s, Apply(s, ProducerPublish(t)));
  }

  /** A consumer claim step either wins head, owing the item it reports to
      that consumer, or changes nothing. */
  lemma ConsumerClaimShape<T>(s: State<T>, h: nat, spurious: bool)
    requires Inv(s)
    ensures var r := Apply(s, ConsumerClaim(h, spurious));
      || (r.1.Left? && h == s.ring.head && r.0.ring.head == h + 1
          && r.0.consuming == s.consuming[h := r.1.v])
      || (r.1.Quiet? && r.0 == s)
  {
    if h <= s.ring.head && ClaimDequeue(s, h, spurious).Claimed? {
      var s2 := ClaimDequeue(s, h, spurious).state;
      assert h == s.ring.head && s2.ring.head == h + 1;
      assert s2.consuming == s.consuming[h := s2.consuming[h]];
    }
  }

  /** Owing v to the consumer that just claimed head adds v to what is owed. */
  lemma OwesAfterClaim<T>(s: State<T>, r: (State<T>, Observation<T>))
    requires r.1.Left? && r.0.ring.head == s.ring.head + 1
    requires r.0.consuming == s.consuming[s.ring.head := r.1.v]
    ensures OwesAsObserved(s, r)
  {
    OwedExtend(s.consuming, s.ring.head, r.1.v);
  }

  lemma ConsumerClaimOwes<T>(s: State<T>, h: nat, spurious: bool)
    requires Inv(s)
    ensures OwesAsObserved(s, Apply(s, ConsumerClaim(h, spurious)))
  {
    var r := Apply(s, ConsumerClaim(h, spurious));
    ConsumerClaimShape(s, h, spurious);
    if r.1.Left? {
      OwesAfterClaim(s, r);
    } else {
      OwesUnchanged(s, r);
    }
  }

  lemma ConsumerPublishOwes<T>(s: State<T>, h: nat)
    requires Inv(s)
    ensures OwesAsObserved(s, Apply(s, ConsumerPublish(h)))
  {
    var r := Apply(s, ConsumerPublish(h));
    if h in s.consuming {
      ConsumingBelowHead(s);
      OwedRemove(s.consuming, s.ring.head, h);
    } else {
      OwesUnchanged(s, r);
    }
  }

  /** A winning consumer claim makes the removed item owed to that consumer;
      its publication hands exactly that item over and settles the debt; no
      other step touches what is owed. */
  lemma ApplyOwes<T>(s: State<T>, a: Action<T>)
    requires Inv(s)
    ensures OwesAsObserved(s, Apply(s, a))
  {
    match a
    case ProducerClaim(t, v, spurious) => ProducerClaimOwes(s, t, v, spurious);
    case ProducerPublish(t) => ProducerPublishOwes(s, t);
    case ConsumerClaim(h, spurious) => ConsumerClaimOwes(s, h, spurious);
    case ConsumerPublish(h) => ConsumerPublishOwes(s, h);
  }

  /** The multiset bookkeeping of InterleavingDelivers, free of any queue: the
      multiset twin of Fifo.ConserveStep. */
  lemma DeliverStep<T>(o1: multiset<T>, o2: multiset<T>, o3: multiset<T>,
                       l: multiset<T>, hd: multiset<T>, ls: multiset<T>, hs: multiset<T>)
    requires o1 + l == hd + o2
    requires o2 + ls == hs + o3
    ensures o1 + (l + ls) == (hd + hs) + o3
  {
    calc {
      o1 + (l + ls);
      (o1 + l) + ls;
      (hd + o2) + ls;
      hd + (o2 + ls);
      hd + (hs + o3);
      (hd + hs) + o3;
    }
  }

  /** Under any interleaving, every item taken from the FIFO by a winning
      consumer claim is either still owed to that consumer or has been handed
      over, exactly once. */
  lemma {:induction false} InterleavingDelivers<T>(s: State<T>, acts: seq<Action<T>>)
    requires Inv(s)
    ensures Owed(s) + multiset(LeftValues(RunActions(s, acts).1))
         == multiset(HandedValues(RunActions(s, acts).1)) + Owed(RunActions(s, acts).0)
    decreases |acts|
  {
    if acts != [] {
      var st := Apply(s, acts[0]);
      var rest := RunActions(st.0, acts[1..]);
      InterleavingDelivers(st.0, acts[1..]);
      ApplyOwes(s, acts[0]);
      var os := [st.1] + rest.1;
      assert RunActions(s, acts) == (rest.0, os);
      assert os[0] == st.1 && os[1..] == rest.1;
      DeliverStep(Owed(s), Owed(st.0), Owed(rest.0),
                  multiset(Leaves(st.1)), multiset(Hands(st.1)),
                  multiset(LeftValues(rest.1)), multiset(HandedValues(rest.1)));
    }
  }

  /** From a freshly constructed queue, under any interleaving of claims and
      publications: every item a producer got in is, exactly once, either
      handed to a consumer, owed to a consumer mid-dequeue, or still in the
      FIFO; nothing is lost and nothing is delivered twice. */
  lemma NoLossNoDuplication<T>(requested: nat, acts: seq<Action<T>>)
    ensures Inv(Initial<T>(requested))
    ensures var (s, os) := RunActions(Initial<T>(requested), acts);
      multiset(JoinedValues(os))
        == multiset(HandedValues(os)) + Owed(s) + multiset(Abstract(s))
  {
    InitialIsEmpty<T>(requested);
    var s0 := Initial<T>(requested);
    var r := RunActions(s0, acts);
    InterleavingConserves(s0, acts);
    InterleavingDelivers(s0, acts);
    assert Owed(s0) == multiset{};
    Account(Abstract(s0), JoinedValues(r.1), LeftValues(r.1), Abstract(r.0),
            HandedValues(r.1), Owed(s0), Owed(r.0));
  }

  /** The bookkeeping of NoLossNoDuplication, free of any queue. */
  lemma Account<T>(a0: seq<T>, joined: seq<T>, left: seq<T>, a: seq<T>, handed: seq<T>,
                   o0: multiset<T>, o: multiset<T>)
    requires a0 == [] && o0 == multiset{}
    requires a0 + joined == left + a
    requires o0 + multiset(left) == multiset(handed) + o
    ensures multiset(joined) == multiset(handed) + o + multiset(a)
  {
    assert joined == left + a;
    assert multiset(joined) == multiset(left) + multiset(a);
  }

}
