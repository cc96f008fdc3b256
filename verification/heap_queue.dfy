/** The heap strategy plugged into the strategic queue (a `StrategicBlockingQueue`
    built around `QueueingStrategies.newHeapQueueingStrategy`): `onBeforeAdd`
    applies the flow-control delay, `onAfterRemove` drives the dequeue counter,
    the other two hooks do nothing.

    The strategy's state carries the environment its hooks read (the free heap
    and whether the calling thread is interrupted) and records what they did to
    the outside world (the milliseconds slept and the collections requested). */
module HeapQueue {
  import opened Lang
  import Q = StrategicQueue
  import H = HeapStrategy

  datatype Session = Session(heap: H.Heap, free: nat, interrupted: bool, slept: nat, gcRequests: nat)

  /** `onBeforeAdd`: sleep for the delay the free heap calls for, or throw. */
  function BeforeAdd<E>(s: Session, e: E): (h: Q.Hook<Session>)
    ensures h.state.heap == s.heap && h.state.gcRequests == s.gcRequests
    ensures h.HookReturned? <==> H.OnBeforeAdd(s.heap, s.free, s.interrupted).Slept?
    ensures h.HookReturned? ==> h.state.slept == s.slept + H.OnBeforeAdd(s.heap, s.free, s.interrupted).ms
    ensures h.HookThrew? ==> h.state == s && h.exc == H.OnBeforeAdd(s.heap, s.free, s.interrupted).exc
  {
    match H.OnBeforeAdd(s.heap, s.free, s.interrupted)
    case Slept(ms) => Q.HookReturned(s.(slept := s.slept + ms))
    case BeforeAddThrew(x) => Q.HookThrew(s, x)
  }

  /** `onAfterRemove`: count a non-null removal and request a collection on every
      `dequeueHint`-th one. */
  function AfterRemove<E>(s: Session, v: Option<E>): (h: Q.Hook<Session>)
    ensures var r := H.OnAfterRemove(s.heap, v);
      && h.state == s.(heap := r.heap, gcRequests := s.gcRequests + (if r.gcRequested then 1 else 0))
      && (h.HookThrew? <==> r.exc.Some?)
      && (h.HookThrew? ==> h.exc == r.exc.value)
  {
    var r := H.OnAfterRemove(s.heap, v);
    var s' := s.(heap := r.heap, gcRequests := s.gcRequests + (if r.gcRequested then 1 else 0));
    if r.exc.Some? then Q.HookThrew(s', r.exc.value) else Q.HookReturned(s')
  }

  /** The heap strategy as the decorator sees it: `onAfterAdd` and
      `onBeforeRemove` return at once and change nothing. */
  function Hooks<E(!new)>(): (st: Q.Strategy<Session, E>)
    ensures forall s: Session, e: E :: st.onBeforeAdd(s, e) == BeforeAdd(s, e)
    ensures forall s: Session :: st.onAfterAdd(s) == Q.HookReturned(s)
    ensures forall s: Session :: st.onBeforeRemove(s) == Q.HookReturned(s)
    ensures forall s: Session, v: Option<E> :: st.onAfterRemove(s, v) == AfterRemove(s, v)
  {
    Q.Strategy((s, e) => BeforeAdd(s, e), s => Q.HookReturned(s), s => Q.HookReturned(s), (s, v) => AfterRemove(s, v))
  }

  /** Flow control only delays: with the free heap at or above the threshold an
      insertion behaves exactly as on the wrapped queue, and below it an
      uninterrupted insertion sleeps for the computed delay and then behaves as on
      the wrapped queue. An interrupted thread below the threshold gets a
      `RuntimeException` and its element is not inserted. */
  lemma InsertionDelays<E(!new)>(q: Q.Inner<E>, s: Session, op: Q.Op<E>, interrupted: bool)
    requires op.Put? || op.Add?
    requires s.interrupted == interrupted
    requires s.heap.c >= 0.0
    ensures var c := Q.Apply(Hooks(), q, s, op, interrupted);
      && (s.free >= s.heap.threshold ==>
            c.outcome == Q.InnerStep(q, op, interrupted).outcome && c.inner == Q.InnerStep(q, op, interrupted).inner
            && c.state == s)
      && (s.free < s.heap.threshold && !interrupted ==>
            c.outcome == Q.InnerStep(q, op, interrupted).outcome && c.inner == Q.InnerStep(q, op, interrupted).inner
            && c.state == s.(slept := s.slept + H.DelayAt(s.heap, s.free)))
      && (s.free < s.heap.threshold && interrupted ==>
            c.outcome == Q.Threw(RuntimeException) && c.inner == q && c.trace == [Q.BeforeAdd(op.e)])
  {
    if s.free < s.heap.threshold {
      H.DelayMonotone(s.heap, s.free, s.heap.threshold);
    }
  }

  /** A zero `dequeueHint` (which the constructor accepts) makes every successful
      `take` lose its element: the element leaves the wrapped queue, the counter
      moves, and the caller receives the `ArithmeticException` from the after-hook
      instead of the element. */
  lemma ZeroHintLosesElement<E(!new)>(q: Q.Inner<E>, s: Session, op: Q.Op<E>)
    requires op.Take? || op.Poll? || op.TimedPoll?
    requires s.heap.dequeueHint == 0
    requires |q.items| > 0
    ensures var c := Q.Apply(Hooks(), q, s, op, false);
      && c.inner.items == q.items[1..]
      && c.outcome == Q.Threw(ArithmeticException)
      && c.state.heap.dequeued == s.heap.dequeued + 1
  {
  }

  /** Number of after-remove hook calls that received an element. */
  function Handed<E>(trace: seq<Q.Event<E>>): nat {
    if |trace| == 0 then 0
    else (if trace[0].AfterRemove? && trace[0].v.Some? then 1 else 0) + Handed(trace[1..])
  }

  lemma {:induction false} HandedAppend<E>(a: seq<Q.Event<E>>, b: seq<Q.Event<E>>)
    ensures Handed(a + b) == Handed(a) + Handed(b)
  {
    if |a| > 0 {
      assert (a + b)[1..] == a[1..] + b;
      HandedAppend(a[1..], b);
    } else {
      assert a + b == b;
    }
  }

  /** In a trace where only the last event can be an after-remove call, that
      event alone decides the count. */
  lemma {:induction false} HandedLast<E>(t: seq<Q.Event<E>>)
    requires forall i :: 0 <= i < |t| - 1 ==> !t[i].AfterRemove?
    ensures Handed(t) == if |t| > 0 && t[|t| - 1].AfterRemove? && t[|t| - 1].v.Some? then 1 else 0
  {
    if |t| > 0 {
      assert forall i :: 0 <= i < |t[1..]| - 1 ==> t[1..][i] == t[i + 1];
      HandedLast(t[1..]);
    }
  }

  /** One call on the heap queue with a positive hint: the counter moves by the
      number of elements handed to the after-remove hook (at most one), and a
      collection is requested exactly when that moves it onto a multiple of the
      hint. Nothing else in the strategy changes but the time slept. */
  lemma CallCounts<E(!new)>(q: Q.Inner<E>, s: Session, op: Q.Op<E>, interrupted: bool)
    requires s.heap.dequeueHint > 0 && s.heap.dequeued >= 0
    ensures var c := Q.Apply(Hooks(), q, s, op, interrupted);
      var k := Handed(c.trace);
      && k <= 1
      && c.state.heap == s.heap.(dequeued := s.heap.dequeued + k)
      && c.state.gcRequests == s.gcRequests + (if k == 1 && (s.heap.dequeued + 1) % s.heap.dequeueHint == 0 then 1 else 0)
      && c.state.free == s.free && c.state.interrupted == s.interrupted
  {
    if op.Put? || op.Add? {
      InsertCounts(q, s, op, interrupted);
    } else if op.Take? || op.TimedPoll? || op.Poll? {
      ExtractCounts(q, s, op, interrupted);
    } else {
      HandedLast(Q.Apply(Hooks(), q, s, op, interrupted).trace);
    }
  }

  /** `CallCounts` for `put` and `add`: the trace carries no after-remove event. */
  lemma InsertCounts<E(!new)>(q: Q.Inner<E>, s: Session, op: Q.Op<E>, interrupted: bool)
    requires op.Put? || op.Add?
    requires s.heap.dequeueHint > 0 && s.heap.dequeued >= 0
    ensures var c := Q.Insert(Hooks(), q, s, op, interrupted);
      && Handed(c.trace) == 0
      && c.state.heap == s.heap && c.state.gcRequests == s.gcRequests
      && c.state.free == s.free && c.state.interrupted == s.interrupted
  {
    HandedLast(Q.Insert(Hooks(), q, s, op, interrupted).trace);
  }

  /** `CallCounts` for `take` and both `poll`s. */
  lemma ExtractCounts<E(!new)>(q: Q.Inner<E>, s: Session, op: Q.Op<E>, interrupted: bool)
    requires op.Take? || op.TimedPoll? || op.Poll?
    requires s.heap.dequeueHint > 0 && s.heap.dequeued >= 0
    ensures var c := Q.Extract(Hooks(), q, s, op, interrupted);
      var k := Handed(c.trace);
      && k <= 1
      && c.state.heap == s.heap.(dequeued := s.heap.dequeued + k)
      && c.state.gcRequests == s.gcRequests + (if k == 1 && (s.heap.dequeued + 1) % s.heap.dequeueHint == 0 then 1 else 0)
      && c.state.free == s.free && c.state.interrupted == s.interrupted
  {
    HandedLast(Q.Extract(Hooks(), q, s, op, interrupted).trace);
  }

  /** The counting of `CallCounts` composes: a call after a run keeps the run's
      count of collections per multiple of the hint passed. */
  lemma CountStep(s0: Session, s1: Session, s2: Session, k0: nat, k1: nat)
    requires s0.heap.dequeueHint > 0 && s0.heap.dequeued >= 0
    requires s1.heap == s0.heap.(dequeued := s0.heap.dequeued + k0)
    requires s1.gcRequests == s0.gcRequests + (s0.heap.dequeued + k0) / s0.heap.dequeueHint - s0.heap.dequeued / s0.heap.dequeueHint
    requires k1 <= 1
    requires s2.heap == s1.heap.(dequeued := s1.heap.dequeued + k1)
    requires s2.gcRequests == s1.gcRequests + (if k1 == 1 && (s1.heap.dequeued + 1) % s1.heap.dequeueHint == 0 then 1 else 0)
    ensures s2.heap == s0.heap.(dequeued := s0.heap.dequeued + (k0 + k1))
    ensures s2.gcRequests == s0.gcRequests + (s0.heap.dequeued + (k0 + k1)) / s0.heap.dequeueHint - s0.heap.dequeued / s0.heap.dequeueHint
  {
    H.DivStep(s1.heap.dequeued, s0.heap.dequeueHint);
  }

  /** The counting rule relative to a starting state `s0`: the counter has grown
      by the elements handed out in `trace`, and one collection was requested per
      multiple of the hint passed. */
  predicate Counted<E>(s0: Session, s: Session, trace: seq<Q.Event<E>>) {
    && s0.heap.dequeueHint > 0
    && s.heap == s0.heap.(dequeued := s0.heap.dequeued + Handed(trace))
    && s.gcRequests == s0.gcRequests + (s0.heap.dequeued + Handed(trace)) / s0.heap.dequeueHint
                                     - s0.heap.dequeued / s0.heap.dequeueHint
  }

  /** One call keeps the counting rule relative to any starting state. */
  lemma CountedStep<E(!new)>(s0: Session, q: Q.Inner<E>, s: Session, t: seq<Q.Event<E>>, op: Q.Op<E>, interrupted: bool)
    requires s0.heap.dequeued >= 0
    requires Counted(s0, s, t)
    ensures Counted(s0, Q.Apply(Hooks(), q, s, op, interrupted).state, t + Q.Apply(Hooks(), q, s, op, interrupted).trace)
  {
    CallCounts(q, s, op, interrupted);
    var c := Q.Apply(Hooks(), q, s, op, interrupted);
    HandedAppend(t, c.trace);
    CountStep(s0, s, c.state, Handed(t), Handed(c.trace));
  }

  /** The dequeue counter over any sequence of calls with a positive hint: it grows
      by the number of elements the after-remove hook received, and one collection
      is requested per multiple of `dequeueHint` it passes. */
  lemma RunCounts<E(!new)>(q: Q.Inner<E>, s: Session, ops: seq<(Q.Op<E>, bool)>)
    requires s.heap.dequeueHint > 0 && s.heap.dequeued >= 0
    ensures var r := Q.Run(Hooks(), q, s, ops);
      var k := Handed(r.trace);
      && r.state.heap == s.heap.(dequeued := s.heap.dequeued + k)
      && r.state.gcRequests == s.gcRequests + (s.heap.dequeued + k) / s.heap.dequeueHint - s.heap.dequeued / s.heap.dequeueHint
  {
    var inv := (s': Session, t: seq<Q.Event<E>>) => Counted(s, s', t);
    forall q': Q.Inner<E>, s': Session, t: seq<Q.Event<E>>, op: Q.Op<E>, interrupted: bool | inv(s', t)
      ensures inv(Q.Apply(Hooks(), q', s', op, interrupted).state, t + Q.Apply(Hooks(), q', s', op, interrupted).trace)
    {
      CountedStep(s, q', s', t, op, interrupted);
    }
    Q.RunInvariant(Hooks(), q, s, ops, inv);
  }
}
