/** Single-threaded histories of enqueue and dequeue calls on one queue: the
    items delivered are exactly the items accepted, each once and in
    acceptance order, with the undelivered rest still in the ring. */
module Fifo {
  import opened LockfreeQueue

  /** A caller's request: enqueue v, or dequeue into a variable currently holding `out`. */
  datatype Op<T> = Push(v: T) | Pop(out: T)

  /** What the caller observed: `true`/`false` from enqueue, the received value or `false` from dequeue. */
  datatype Event<T> = Accepted(v: T) | Full(v: T) | Delivered(v: T) | Empty

  /** One call. */
  function Step<T>(q: Queue<T>, op: Op<T>): (r: (Queue<T>, Event<T>))
    requires Valid(q)
    ensures Valid(r.0) && r.0.capacity == q.capacity
  {
    match op
    case Push(v) =>
      var p := Enqueue(q, v);
      (p.queue, if p.ok then Accepted(v) else Full(v))
    case Pop(out) =>
      var p := Dequeue(q, out);
      (p.queue, if p.ok then Delivered(p.out) else Empty)
  }

  /** Each call acts on the abstract FIFO: an accepted value is appended, a
      delivered value is the oldest one and is removed, and a refused call
      ("full" exactly at capacity, "empty" exactly with nothing held) changes nothing. */
  lemma StepRefines<T>(q: Queue<T>, op: Op<T>)
    requires Valid(q)
    ensures var (q2, e) := Step(q, op);
      && (e.Accepted? ==> op == Push(e.v) && Contents(q2) == Contents(q) + [e.v])
      && (e.Delivered? ==> op.Pop? && Contents(q) == [e.v] + Contents(q2))
      && (e.Full? || e.Empty? ==> q2 == q)
      && (e.Full? <==> op.Push? && |Contents(q)| == q.capacity)
      && (e.Empty? <==> op.Pop? && Contents(q) == [])
      && Contents(q) + Added(e) == Removed(e) + Contents(q2)
  {
    match op
    case Push(v) =>
      EnqueueRefines(q, v);
      if !Enqueue(q, v).ok {
        assert Contents(q) + [] == [] + Contents(q);
      }
    case Pop(out) =>
      DequeueRefines(q, out);
      var p := Dequeue(q, out);
      if p.ok {
        assert Contents(q) == [p.out] + Contents(p.queue);
      } else {
        assert Contents(q) + [] == [] + Contents(q);
      }
  }

  /** A sequence of calls, one after another. */
  function Run<T>(q: Queue<T>, ops: seq<Op<T>>): (r: (Queue<T>, seq<Event<T>>))
    requires Valid(q)
    ensures Valid(r.0) && r.0.capacity == q.capacity
    ensures |r.1| == |ops|
    decreases |ops|
  {
    if ops == [] then (q, [])
    else
      var (q1, e) := Step(q, ops[0]);
      var (q2, es) := Run(q1, ops[1..]);
      (q2, [e] + es)
  }

  /** Running op, then ops, is one step followed by the rest. */
  lemma RunCons<T>(q: Queue<T>, op: Op<T>, ops: seq<Op<T>>)
    requires Valid(q)
    ensures var s := Step(q, op);
      Run(q, [op] + ops) == (Run(s.0, ops).0, [s.1] + Run(s.0, ops).1)
  {
    assert ([op] + ops)[0] == op && ([op] + ops)[1..] == ops;
  }

  /** What an event appended to the FIFO: the accepted value, or nothing. */
  function Added<T>(e: Event<T>): seq<T>
  {
    if e.Accepted? then [e.v] else []
  }

  /** What an event took from the front of the FIFO: the delivered value, or nothing. */
  function Removed<T>(e: Event<T>): seq<T>
  {
    if e.Delivered? then [e.v] else []
  }

  /** The concatenation of f(e) over the events es, in order. */
  function Flatten<E, T>(es: seq<E>, f: E -> seq<T>): seq<T>
  {
    if es == [] then [] else f(es[0]) + Flatten(es[1..], f)
  }

  lemma FlattenCons<E, T>(e: E, es: seq<E>, f: E -> seq<T>)
    ensures Flatten([e] + es, f) == f(e) + Flatten(es, f)
  {
    assert ([e] + es)[0] == e && ([e] + es)[1..] == es;
  }

  /** The values of the successful enqueues, in order. */
  function AcceptedValues<T>(es: seq<Event<T>>): seq<T>
  {
    Flatten(es, Added)
  }

  /** The values the successful dequeues received, in order. */
  function DeliveredValues<T>(es: seq<Event<T>>): seq<T>
  {
    Flatten(es, Removed)
  }

  lemma AcceptedCons<T>(e: Event<T>, es: seq<Event<T>>)
    ensures AcceptedValues([e] + es) == Added(e) + AcceptedValues(es)
    ensures DeliveredValues([e] + es) == Removed(e) + DeliveredValues(es)
  {
    FlattenCons(e, es, Added);
    FlattenCons(e, es, Removed);
  }

  /** The bookkeeping step of RunConserves, free of any queue: if one step
      turns c into c1 by appending `add` and removing `del` from the front,
      and the rest turns c1 into c2 likewise, the whole run turns c into c2. */
  lemma ConserveStep<T>(c: seq<T>, c1: seq<T>, c2: seq<T>, add: seq<T>, del: seq<T>, adds: seq<T>, dels: seq<T>)
    requires c + add == del + c1
    requires c1 + adds == dels + c2
    ensures c + (add + adds) == (del + dels) + c2
  {
    calc {
      c + (add + adds);
      (c + add) + adds;
      (del + c1) + adds;
      del + (c1 + adds);
      del + (dels + c2);
      (del + dels) + c2;
    }
  }

  /** No loss, no duplication, FIFO order: what was in the ring followed by
      everything accepted is what was delivered followed by what is left. */
  lemma {:induction false} RunConserves<T>(q: Queue<T>, ops: seq<Op<T>>)
    requires Valid(q)
    ensures Contents(q) + AcceptedValues(Run(q, ops).1)
         == DeliveredValues(Run(q, ops).1) + Contents(Run(q, ops).0)
    decreases |ops|
  {
    if ops != [] {
      var s := Step(q, ops[0]);
      var rest := Run(s.0, ops[1..]);
      RunConserves(s.0, ops[1..]);
      StepRefines(q, ops[0]);
      assert Run(q, ops) == (rest.0, [s.1] + rest.1);
      AcceptedCons(s.1, rest.1);
      ConserveStep(Contents(q), Contents(s.0), Contents(rest.0), Added(s.1), Removed(s.1),
                   AcceptedValues(rest.1), DeliveredValues(rest.1));
    }
  }

  /** From a freshly constructed queue, the delivered items are a prefix of the
      accepted ones and the ring holds exactly the rest. */
  lemma DeliveredIsPrefixOfAccepted<T>(requested: nat, ops: seq<Op<T>>)
    ensures Valid(New<T>(requested))
    ensures var (q, es) := Run(New<T>(requested), ops);
      AcceptedValues(es) == DeliveredValues(es) + Contents(q)
  {
    NewIsEmpty<T>(requested);
    RunConserves(New<T>(requested), ops);
  }

  // ---------------------------------------------------------------- the single-thread scenario

  function Pushes<T>(vs: seq<T>): (ops: seq<Op<T>>)
  {
    if vs == [] then [] else [Push(vs[0])] + Pushes(vs[1..])
  }

  function Pops<T>(n: nat, out: T): (ops: seq<Op<T>>)
  {
    if n == 0 then [] else [Pop(out)] + Pops(n - 1, out)
  }

  function Accepts<T>(vs: seq<T>): (es: seq<Event<T>>)
  {
    if vs == [] then [] else [Accepted(vs[0])] + Accepts(vs[1..])
  }

  function Deliveries<T>(vs: seq<T>): (es: seq<Event<T>>)
  {
    if vs == [] then [] else [Delivered(vs[0])] + Deliveries(vs[1..])
  }

  /** Running a + b is running a, then b from where a left off. */
  lemma {:induction false} RunAppend<T>(q: Queue<T>, a: seq<Op<T>>, b: seq<Op<T>>)
    requires Valid(q)
    ensures Run(q, a + b).0 == Run(Run(q, a).0, b).0
    ensures Run(q, a + b).1 == Run(q, a).1 + Run(Run(q, a).0, b).1
    decreases |a|
  {
    if a == [] {
      assert a + b == b;
    } else {
      var x, rest := a[0], a[1..];
      assert a == [x] + rest && a + b == [x] + (rest + b);
      var s := Step(q, x);
      RunCons(q, x, rest);
      RunCons(q, x, rest + b);
      RunAppend(s.0, rest, b);
      SeqAssoc([s.1], Run(s.0, rest).1, Run(Run(s.0, rest).0, b).1);
    }
  }

  lemma SeqAssoc<X>(a: seq<X>, b: seq<X>, c: seq<X>)
    ensures a + (b + c) == (a + b) + c
  {
  }


  /** Running a single call is taking one step. */
  lemma RunOne<T>(q: Queue<T>, op: Op<T>)
    requires Valid(q)
    ensures Run(q, [op]) == (Step(q, op).0, [Step(q, op).1])
  {
    var s := Step(q, op);
    assert [op][0] == op && [op][1..] == [];
    assert Run(s.0, []) == (s.0, []);
    assert [s.1] + [] == [s.1];
  }

  /** Enqueueing values that fit is accepted one by one and appends them. */
  lemma {:induction false} RunPushes<T>(q: Queue<T>, vs: seq<T>)
    requires Valid(q) && |Contents(q)| + |vs| <= q.capacity
    ensures Run(q, Pushes(vs)).1 == Accepts(vs)
    ensures Contents(Run(q, Pushes(vs)).0) == Contents(q) + vs
    decreases |vs|
  {
    if vs != [] {
      var s := Step(q, Push(vs[0]));
      StepRefines(q, Push(vs[0]));
      RunCons(q, Push(vs[0]), Pushes(vs[1..]));
      RunPushes(s.0, vs[1..]);
      AppendFirst(Contents(q), Contents(s.0), Contents(Run(s.0, Pushes(vs[1..])).0), vs);
    }
  }

  /** Appending vs[0] and then the rest of vs is appending vs. */
  lemma AppendFirst<T>(c0: seq<T>, c1: seq<T>, c2: seq<T>, vs: seq<T>)
    requires vs != []
    requires c1 == c0 + [vs[0]] && c2 == c1 + vs[1..]
    ensures c2 == c0 + vs
  {
    assert vs == [vs[0]] + vs[1..];
  }

  /** The sequence bookkeeping of one RunPops step, free of any queue. */
  lemma DeliveriesCons<T>(c: seq<T>, c1: seq<T>, e: Event<T>, n: nat)
    requires 0 < n <= |c|
    requires e.Delivered? && c == [e.v] + c1
    ensures n - 1 <= |c1|
    ensures Deliveries(c[..n]) == [e] + Deliveries(c1[..n - 1])
    ensures c1[n - 1..] == c[n..]
  {
    assert c[..n][0] == e.v && c[..n][1..] == c1[..n - 1];
  }

  /** n dequeues, with n at most the occupancy, deliver the n oldest items. */
  lemma {:induction false} RunPops<T>(q: Queue<T>, n: nat, out: T)
    requires Valid(q) && n <= |Contents(q)|
    ensures Run(q, Pops(n, out)).1 == Deliveries(Contents(q)[..n])
    ensures Contents(Run(q, Pops(n, out)).0) == Contents(q)[n..]
    decreases n
  {
    if n > 0 {
      var s := Step(q, Pop(out));
      StepRefines(q, Pop(out));
      var c, c1 := Contents(q), Contents(s.0);
      assert s.1.Delivered? && c == [s.1.v] + c1;
      RunCons(q, Pop(out), Pops(n - 1, out));
      DeliveriesCons(c, c1, s.1, n);
      RunPops(s.0, n - 1, out);
    }
  }

  /** The counting sequence 0, 1, ..., n - 1. */
  function Count(n: nat): (s: seq<int>)
  {
    seq(n, i => i)
  }

  /** Filling an empty ring to capacity accepts every item, and the enqueue
      after that reports full. */
  lemma FillThenRefuse<T>(q: Queue<T>, vs: seq<T>, x: T)
    requires Valid(q) && Contents(q) == [] && |vs| == q.capacity
    ensures var r := Run(q, Pushes(vs) + [Push(x)]);
      r.1 == Accepts(vs) + [Full(x)] && Contents(r.0) == vs
  {
    RunPushes(q, vs);
    var r1 := Run(q, Pushes(vs));
    StepRefines(r1.0, Push(x));
    RunOne(r1.0, Push(x));
    RunAppend(q, Pushes(vs), [Push(x)]);
  }

  /** Draining a ring dequeues every item, oldest first, and the dequeue after
      that reports empty. */
  lemma DrainThenRefuse<T>(q: Queue<T>, out: T)
    requires Valid(q)
    ensures var c := Contents(q);
      var r := Run(q, Pops(|c|, out) + [Pop(out)]);
      r.1 == Deliveries(c) + [Empty] && Contents(r.0) == []
  {
    var c := Contents(q);
    RunPops(q, |c|, out);
    assert c[..|c|] == c && c[|c|..] == [];
    var r1 := Run(q, Pops(|c|, out));
    StepRefines(r1.0, Pop(out));
    RunOne(r1.0, Pop(out));
    RunAppend(q, Pops(|c|, out), [Pop(out)]);
  }

  /** The single-thread scenario, for every requested capacity: enqueueing
      0 .. capacity - 1 succeeds, one more enqueue fails, capacity dequeues
      return 0 .. capacity - 1 in order, and one more dequeue fails. */
  lemma SingleThreadScenario(requested: nat)
    ensures Valid(New<int>(requested))
    ensures var q := New<int>(requested);
      var c := q.capacity;
      Run(q, Pushes(Count(c)) + [Push(42)] + Pops(c, -1) + [Pop(-1)]).1
        == Accepts(Count(c)) + [Full(42)] + Deliveries(Count(c)) + [Empty]
  {
    NewIsEmpty<int>(requested);
    var q0 := New<int>(requested);
    var c := q0.capacity;
    var cs := Count(c);
    var fill, drain := Pushes(cs) + [Push(42)], Pops(c, -1) + [Pop(-1)];
    FillThenRefuse(q0, cs, 42);
    var r1 := Run(q0, fill);
    DrainThenRefuse(r1.0, -1);
    RunAppend(q0, fill, drain);
    assert Pushes(cs) + [Push(42)] + Pops(c, -1) + [Pop(-1)] == fill + drain;
  }

  /** The single-thread scenario exactly as exercised with requested capacity
      8, which realises capacity 8. */
  lemma SingleThreadScenarioOfEight()
    ensures New<int>(8).capacity == 8
    ensures Valid(New<int>(8))
    ensures Run(New<int>(8), Pushes(Count(8)) + [Push(42)] + Pops(8, -1) + [Pop(-1)]).1
         == Accepts(Count(8)) + [Full(42)] + Deliveries(Count(8)) + [Empty]
  {
    SingleThreadScenario(8);
  }
}
