/** `StrategicBlockingQueue` over the `QueueingStrategy` interface: a blocking queue
    decorator that calls a strategy's hooks around `put`, `add`, `take` and both
    `poll`s, and passes every other operation straight to the wrapped queue.

    The wrapped queue is a bounded FIFO with the behaviour the `BlockingQueue`
    interface documents; the calling thread's interrupt status is an input; a call
    that would wait for another thread (a `put` on a full queue, a `take` on an
    empty one) is reported as `Blocked`. A strategy is any four hook functions over
    a strategy state of its own; what each call did is recorded as a trace of
    hook calls and delegated operations. */
module StrategicQueue {
  import opened Lang

  /** The wrapped queue: its elements, head first, and its capacity. */
  datatype Inner<E> = Inner(items: seq<E>, capacity: nat) {
    predicate Full() { |items| >= capacity }
  }

  /** The queue operations the decorator exposes. `DrainTo(None)` drains
      everything, `DrainTo(Some(m))` at most `m` elements. */
  datatype Op<E> =
    | Put(e: E) | Add(e: E) | Offer(e: E) | TimedOffer(e: E)
    | Take | TimedPoll | Poll | Remove | DrainTo(max: Option<int>)

  /** What a call gives back when it returns normally. */
  datatype Value<E> = Unit | Flag(b: bool) | Elem(e: E) | MaybeElem(o: Option<E>) | Elems(es: seq<E>)

  /** How a call ends: it returns, throws, or waits for another thread. */
  datatype Outcome<E> = Returned(value: Value<E>) | Threw(exc: Exc) | Blocked

  /** One step of the wrapped queue alone. */
  datatype Step<E> = Step(inner: Inner<E>, outcome: Outcome<E>)

  predicate IsInsertion<E>(op: Op<E>) { op.Put? || op.Add? || op.Offer? || op.TimedOffer? }

  predicate IsRemoval<E>(op: Op<E>) { op.Take? || op.TimedPoll? || op.Poll? || op.Remove? }

  /** The element a removal handed out, if any. */
  function Removed<E>(o: Outcome<E>): Option<E> {
    match o
    case Returned(Elem(e)) => Some(e)
    case Returned(MaybeElem(v)) => v
    case _ => None
  }

  /** The wrapped queue's own behaviour. Blocking operations throw
      `InterruptedException` when the thread is interrupted; a full queue makes
      `add` throw, `offer` return false and a timed `offer` time out; an empty
      queue makes `remove` throw and both `poll`s return null. */
  function InnerStep<E>(q: Inner<E>, op: Op<E>, interrupted: bool): (st: Step<E>)
    ensures st.inner.capacity == q.capacity
    ensures |q.items| <= q.capacity ==> |st.inner.items| <= q.capacity
    ensures IsInsertion(op) ==>
      if st.outcome == Returned(Unit) || st.outcome == Returned(Flag(true))
      then st.inner.items == q.items + [op.e] && !q.Full()
      else st.inner == q
    ensures IsRemoval(op) ==>
      if Removed(st.outcome).Some?
      then q.items == [Removed(st.outcome).value] + st.inner.items
      else st.inner == q
    ensures IsRemoval(op) && st.outcome.Returned? && |q.items| > 0 ==> Removed(st.outcome) == Some(q.items[0])
    ensures op.DrainTo? ==> st.outcome.Returned? && st.outcome.value.Elems?
                            && q.items == st.outcome.value.es + st.inner.items
    ensures st.outcome.Blocked? <==> !interrupted && ((op.Put? && q.Full()) || (op.Take? && |q.items| == 0))
    // Interruption: the blocking and timed calls throw before touching the queue.
    ensures (op.Put? || op.TimedOffer? || op.Take? || op.TimedPoll?) && interrupted ==>
      st.outcome == Threw(InterruptedException)
    // A full queue: `add` throws, `offer` and an uninterrupted timed `offer` give false.
    ensures op.Add? && q.Full() ==> st.outcome == Threw(IllegalStateException)
    ensures (op.Offer? || (op.TimedOffer? && !interrupted)) && q.Full() ==> st.outcome == Returned(Flag(false))
    // Room in the queue: every uninterrupted insertion succeeds.
    ensures IsInsertion(op) && !q.Full() && !interrupted ==>
      st.outcome == (if op.Put? then Returned(Unit) else Returned(Flag(true)))
    ensures (op.Add? || op.Offer?) && !q.Full() ==> st.outcome == Returned(Flag(true))
    // An empty queue: `remove` throws, `poll` and an uninterrupted timed `poll` give null.
    ensures op.Remove? && |q.items| == 0 ==> st.outcome == Threw(NoSuchElementException)
    ensures (op.Poll? || (op.TimedPoll? && !interrupted)) && |q.items| == 0 ==> st.outcome == Returned(MaybeElem(None))
    // A non-empty queue: every uninterrupted removal hands out the head.
    ensures IsRemoval(op) && |q.items| > 0 && !interrupted ==>
      st.outcome.Returned? && Removed(st.outcome) == Some(q.items[0])
    ensures (op.Poll? || op.Remove?) && |q.items| > 0 ==> Removed(st.outcome) == Some(q.items[0])
    // `drainTo` takes at most `max` elements and stops early only on an empty queue.
    ensures op.DrainTo? && op.max.None? ==> st.inner.items == []
    ensures op.DrainTo? && op.max.Some? ==>
      |st.outcome.value.es| <= Max(op.max.value, 0)
      && (|st.outcome.value.es| < op.max.value ==> st.inner.items == [])
  {
    match op
    case Put(e) =>
      if interrupted then Step(q, Threw(InterruptedException))
      else if q.Full() then Step(q, Blocked)
      else Step(q.(items := q.items + [e]), Returned(Unit))
    case Add(e) =>
      if q.Full() then Step(q, Threw(IllegalStateException))
      else Step(q.(items := q.items + [e]), Returned(Flag(true)))
    case Offer(e) =>
      if q.Full() then Step(q, Returned(Flag(false)))
      else Step(q.(items := q.items + [e]), Returned(Flag(true)))
    case TimedOffer(e) =>
      if interrupted then Step(q, Threw(InterruptedException))
      else if q.Full() then Step(q, Returned(Flag(false)))
      else Step(q.(items := q.items + [e]), Returned(Flag(true)))
    case Take =>
      if interrupted then Step(q, Threw(InterruptedException))
      else if |q.items| == 0 then Step(q, Blocked)
      else Step(q.(items := q.items[1..]), Returned(Elem(q.items[0])))
    case TimedPoll =>
      if interrupted then Step(q, Threw(InterruptedException))
      else if |q.items| == 0 then Step(q, Returned(MaybeElem(None)))
      else Step(q.(items := q.items[1..]), Returned(MaybeElem(Some(q.items[0]))))
    case Poll =>
      if |q.items| == 0 then Step(q, Returned(MaybeElem(None)))
      else Step(q.(items := q.items[1..]), Returned(MaybeElem(Some(q.items[0]))))
    case Remove =>
      if |q.items| == 0 then Step(q, Threw(NoSuchElementException))
      else Step(q.(items := q.items[1..]), Returned(Elem(q.items[0])))
    case DrainTo(max) =>
      var n := match max case None => |q.items| case Some(m) => Min(Max(m, 0), |q.items|);
      assert q.items == q.items[..n] + q.items[n..];
      Step(q.(items := q.items[n..]), Returned(Elems(q.items[..n])))
  }

  /** How a strategy hook ended, with the strategy's state afterwards. */
  datatype Hook<S> = HookReturned(state: S) | HookThrew(state: S, exc: Exc)

  /** The `QueueingStrategy` interface: four hooks over a state of the strategy's
      own. */
  datatype Strategy<!S, !E> = Strategy(
    onBeforeAdd: (S, E) -> Hook<S>,
    onAfterAdd: S -> Hook<S>,
    onBeforeRemove: S -> Hook<S>,
    onAfterRemove: (S, Option<E>) -> Hook<S>)

  /** One entry of a call's trace: a hook call or the delegated operation. */
  datatype Event<E> = BeforeAdd(e: E) | AfterAdd | BeforeRemove | AfterRemove(v: Option<E>) | Delegated(op: Op<E>)

  /** The result of a call on the decorator. */
  datatype Call<S, E> = Call(inner: Inner<E>, state: S, trace: seq<Event<E>>, outcome: Outcome<E>)

  /** A `finally` block that ran a hook: the hook's exception, if it threw,
      replaces whatever the `try` block produced. */
  function Finally<S, E>(o: Outcome<E>, h: Hook<S>): (r: Outcome<E>)
    ensures h.HookReturned? ==> r == o
    ensures h.HookThrew? ==> r == Threw(h.exc)
  {
    if h.HookThrew? then Threw(h.exc) else o
  }

  /** `put` and `add`: the before-hook runs outside the `try`, the insertion inside
      it, and the after-hook in its `finally`. If the before-hook throws, the
      insertion is never attempted and the after-hook never runs; otherwise the
      after-hook runs once, whether the insertion returned or threw. */
  function Insert<S, E>(st: Strategy<S, E>, q: Inner<E>, s: S, op: Op<E>, interrupted: bool): (c: Call<S, E>)
    requires op.Put? || op.Add?
    ensures st.onBeforeAdd(s, op.e).HookThrew? ==>
      c == Call(q, st.onBeforeAdd(s, op.e).state, [BeforeAdd(op.e)], Threw(st.onBeforeAdd(s, op.e).exc))
    ensures st.onBeforeAdd(s, op.e).HookReturned? ==>
      var inner := InnerStep(q, op, interrupted);
      && c.inner == inner.inner
      && (inner.outcome.Blocked? ==> c.trace == [BeforeAdd(op.e), Delegated(op)] && c.outcome == Blocked)
      && (!inner.outcome.Blocked? ==>
            var after := st.onAfterAdd(st.onBeforeAdd(s, op.e).state);
            && c.trace == [BeforeAdd(op.e), Delegated(op), AfterAdd]
            && c.state == after.state
            && c.outcome == Finally(inner.outcome, after))
  {
    match st.onBeforeAdd(s, op.e)
    case HookThrew(s1, x) => Call(q, s1, [BeforeAdd(op.e)], Threw(x))
    case HookReturned(s1) =>
      var inner := InnerStep(q, op, interrupted);
      if inner.outcome.Blocked? then Call(inner.inner, s1, [BeforeAdd(op.e), Delegated(op)], Blocked)
      else
        var after := st.onAfterAdd(s1);
        Call(inner.inner, after.state, [BeforeAdd(op.e), Delegated(op), AfterAdd], Finally(inner.outcome, after))
  }

  /** `take` and both `poll`s: the before-hook runs outside the `try`; the removed
      value starts as null and is assigned only when the removal returns, so the
      after-hook in the `finally` sees exactly the element handed out, or null
      when the queue was empty, the call timed out or the removal threw. */
  function Extract<S, E>(st: Strategy<S, E>, q: Inner<E>, s: S, op: Op<E>, interrupted: bool): (c: Call<S, E>)
    requires op.Take? || op.TimedPoll? || op.Poll?
    ensures st.onBeforeRemove(s).HookThrew? ==>
      c == Call(q, st.onBeforeRemove(s).state, [BeforeRemove], Threw(st.onBeforeRemove(s).exc))
    ensures st.onBeforeRemove(s).HookReturned? ==>
      var inner := InnerStep(q, op, interrupted);
      && c.inner == inner.inner
      && (inner.outcome.Blocked? ==> c.trace == [BeforeRemove, Delegated(op)] && c.outcome == Blocked)
      && (!inner.outcome.Blocked? ==>
            var v := Removed(inner.outcome);
            var after := st.onAfterRemove(st.onBeforeRemove(s).state, v);
            && c.trace == [BeforeRemove, Delegated(op), AfterRemove(v)]
            && c.state == after.state
            && c.outcome == Finally(inner.outcome, after)
            && (inner.outcome.Threw? ==> v.None?))
  {
    match st.onBeforeRemove(s)
    case HookThrew(s1, x) => Call(q, s1, [BeforeRemove], Threw(x))
    case HookReturned(s1) =>
      var inner := InnerStep(q, op, interrupted);
      if inner.outcome.Blocked? then Call(inner.inner, s1, [BeforeRemove, Delegated(op)], Blocked)
      else
        var v := Removed(inner.outcome);
        var after := st.onAfterRemove(s1, v);
        Call(inner.inner, after.state, [BeforeRemove, Delegated(op), AfterRemove(v)], Finally(inner.outcome, after))
  }

  /** The operations the decorator hooks; `offer`, timed `offer`, `remove` and
      `drainTo` are inherited pass-throughs. */
  predicate Hooked<E>(op: Op<E>) { op.Put? || op.Add? || op.Take? || op.TimedPoll? || op.Poll? }

  /** A call on the decorator. Unhooked operations touch only the wrapped queue:
      their trace is the delegated operation alone and the strategy state is
      unchanged. */
  function Apply<S, E>(st: Strategy<S, E>, q: Inner<E>, s: S, op: Op<E>, interrupted: bool): (c: Call<S, E>)
    ensures !Hooked(op) ==> c == Call(InnerStep(q, op, interrupted).inner, s, [Delegated(op)], InnerStep(q, op, interrupted).outcome)
  {
    if op.Put? || op.Add? then Insert(st, q, s, op, interrupted)
    else if op.Take? || op.TimedPoll? || op.Poll? then Extract(st, q, s, op, interrupted)
    else
      var inner := InnerStep(q, op, interrupted);
      Call(inner.inner, s, [Delegated(op)], inner.outcome)
  }

  /** Whether the hook that runs before `op` throws. */
  predicate BeforeThrows<S, E>(st: Strategy<S, E>, s: S, op: Op<E>) {
    if op.Put? || op.Add? then st.onBeforeAdd(s, op.e).HookThrew?
    else if op.Take? || op.TimedPoll? || op.Poll? then st.onBeforeRemove(s).HookThrew?
    else false
  }

  predicate IsHookEvent<E>(ev: Event<E>) { !ev.Delegated? }

  predicate IsAfterEvent<E>(ev: Event<E>) { ev.AfterAdd? || ev.AfterRemove? }

  function CountAfter<E>(trace: seq<Event<E>>): nat {
    if |trace| == 0 then 0
    else CountAfter(trace[..|trace| - 1]) + (if IsAfterEvent(trace[|trace| - 1]) then 1 else 0)
  }

  /** Hooks never change the queue's contents: after any call the wrapped queue is
      what the delegated operation alone makes of it, or untouched when a
      before-hook threw and the operation never ran. */
  lemma HooksKeepContents<S, E>(st: Strategy<S, E>, q: Inner<E>, s: S, op: Op<E>, interrupted: bool)
    ensures Apply(st, q, s, op, interrupted).inner ==
      if BeforeThrows(st, s, op) then q else InnerStep(q, op, interrupted).inner
  {
  }

  /** The after-hook discipline: a hooked call whose before-hook returned and which
      did not block runs exactly one after-hook, as the last event, once the
      delegated operation has run; a call whose before-hook threw runs no after-hook
      and never reaches the wrapped queue; an unhooked call runs no hook at all. */
  lemma AfterHookExactlyOnce<S, E>(st: Strategy<S, E>, q: Inner<E>, s: S, op: Op<E>, interrupted: bool)
    ensures var c := Apply(st, q, s, op, interrupted);
      && (Hooked(op) && !BeforeThrows(st, s, op) && !c.outcome.Blocked? ==>
            && CountAfter(c.trace) == 1
            && |c.trace| == 3 && IsAfterEvent(c.trace[2]) && c.trace[1] == Delegated(op))
      && (BeforeThrows(st, s, op) ==> CountAfter(c.trace) == 0 && |c.trace| == 1 && c.outcome.Threw?)
      && (!Hooked(op) ==> forall i :: 0 <= i < |c.trace| ==> !IsHookEvent(c.trace[i]))
  {
    var c := Apply(st, q, s, op, interrupted);
    if Hooked(op) && !BeforeThrows(st, s, op) && !c.outcome.Blocked? {
      var t := c.trace;
      assert t[..2][..1] == t[..1];
      assert t[..1][..0] == [];
      assert CountAfter(t[..1]) == 0;
      assert CountAfter(t[..2]) == 0;
    }
    if BeforeThrows(st, s, op) {
      assert c.trace[..0] == [];
    }
  }

  /** The after-remove hook receives exactly the element the caller gets back:
      when a hooked removal returns normally, the value passed to the hook is the
      returned element (null for an empty or timed-out poll). */
  lemma AfterRemoveSeesResult<S, E>(st: Strategy<S, E>, q: Inner<E>, s: S, op: Op<E>, interrupted: bool)
    requires op.Take? || op.TimedPoll? || op.Poll?
    ensures var c := Apply(st, q, s, op, interrupted);
      c.outcome.Returned? ==>
        && c.trace[|c.trace| - 1] == AfterRemove(Removed(c.outcome))
        && (|q.items| > 0 ==> Removed(c.outcome) == Some(q.items[0]))
        && (|q.items| == 0 ==> Removed(c.outcome).None?)
  {
  }

  /** A sequence of calls on the decorator, each with the interrupt status of its
      thread; the result accumulates the traces. */
  function Run<S, E>(st: Strategy<S, E>, q: Inner<E>, s: S, ops: seq<(Op<E>, bool)>): (c: Call<S, E>)
    decreases |ops|
  {
    if |ops| == 0 then Call(q, s, [], Returned(Unit))
    else
      var prev := Run(st, q, s, ops[..|ops| - 1]);
      var (op, interrupted) := ops[|ops| - 1];
      var c := Apply(st, prev.inner, prev.state, op, interrupted);
      Call(c.inner, c.state, prev.trace + c.trace, c.outcome)
  }

  /** A property of the strategy state and the trace so far that every call
      preserves holds after any run. */
  lemma {:induction false} RunInvariant<S(!new), E(!new)>(st: Strategy<S, E>, q: Inner<E>, s: S, ops: seq<(Op<E>, bool)>,
                                                         inv: (S, seq<Event<E>>) -> bool)
    requires inv(s, [])
    requires forall q': Inner<E>, s': S, t: seq<Event<E>>, op: Op<E>, interrupted: bool ::
      inv(s', t) ==> inv(Apply(st, q', s', op, interrupted).state, t + Apply(st, q', s', op, interrupted).trace)
    ensures inv(Run(st, q, s, ops).state, Run(st, q, s, ops).trace)
  {
    if |ops| > 0 {
      var prev := Run(st, q, s, ops[..|ops| - 1]);
      RunInvariant(st, q, s, ops[..|ops| - 1], inv);
      var last := ops[|ops| - 1];
      var c := Apply(st, prev.inner, prev.state, last.0, last.1);
      assert inv(c.state, prev.trace + c.trace);
    }
  }

  /** The same sequence of operations on the wrapped queue alone. */
  function RunInner<E>(q: Inner<E>, ops: seq<(Op<E>, bool)>): Inner<E>
    decreases |ops|
  {
    if |ops| == 0 then q
    else
      var (op, interrupted) := ops[|ops| - 1];
      InnerStep(RunInner(q, ops[..|ops| - 1]), op, interrupted).inner
  }

  /** A strategy whose before-hooks never throw (the no-op hooks, or a heap
      strategy on a thread that is never interrupted). */
  ghost predicate BeforeHooksReturn<S(!new), E(!new)>(st: Strategy<S, E>) {
    && (forall s, e :: st.onBeforeAdd(s, e).HookReturned?)
    && (forall s :: st.onBeforeRemove(s).HookReturned?)
  }

  /** Over any sequence of calls, a strategy whose before-hooks return leaves the
      queue with exactly the contents the wrapped queue alone would have: the
      strategy can delay or observe, never reorder, drop or add elements. */
  lemma {:induction false} RunKeepsContents<S(!new), E(!new)>(st: Strategy<S, E>, q: Inner<E>, s: S, ops: seq<(Op<E>, bool)>)
    requires BeforeHooksReturn(st)
    ensures Run(st, q, s, ops).inner == RunInner(q, ops)
  {
    if |ops| > 0 {
      var init := ops[..|ops| - 1];
      RunKeepsContents(st, q, s, init);
      var prev := Run(st, q, s, init);
      var (op, interrupted) := ops[|ops| - 1];
      HooksKeepContents(st, prev.inner, prev.state, op, interrupted);
    }
  }
}
