/** `HeapQueueingStrategy`: a queueing strategy that delays additions when free heap
    falls below a threshold (a quadratic ramp up to a maximum delay) and asks for a
    garbage collection every `dequeueHint` successful removals.

    The runtime's heap readings are inputs (`maxMemory` at construction, the free
    heap at each addition), the sleep is reported as the delay it would last, the
    thread's interrupt status is an input, and a collection request is an output
    flag. Doubles are modelled as exact reals. */
module HeapStrategy {
  import opened Lang

  /** The strategy object: the threshold and coefficient fixed at construction and
      the dequeue counter, the one field that changes. */
  datatype Heap = Heap(threshold: int, c: real, dequeueHint: int, dequeued: int)

  /** The range guard exactly as the constructor writes it. */
  predicate GuardAsWritten(fraction: real) {
    fraction > 0.0 || fraction <= 1.0
  }

  /** The range the guard's error message announces, `(0.0, 1.0]`. */
  predicate InRange(fraction: real) {
    0.0 < fraction <= 1.0
  }

  /** `Math.round(maxMemory * fraction)`: the free-heap threshold in bytes. */
  function Threshold(maxMemory: nat, fraction: real): (t: int)
    ensures t as real - 0.5 <= maxMemory as real * fraction < t as real + 0.5
    ensures InRange(fraction) ==> 0 <= t <= maxMemory
  {
    assert InRange(fraction) ==> 0.0 <= maxMemory as real * fraction <= maxMemory as real;
    Round(maxMemory as real * fraction)
  }

  /** `maxDelay / (threshold * threshold)`. A zero threshold makes the double
      division infinite or NaN; the coefficient is then never read (the delay
      branch needs free heap below zero), so it is recorded as 0. */
  function Coefficient(threshold: int, maxDelay: int): (c: real)
    ensures threshold != 0 ==> c * (threshold as real * threshold as real) == maxDelay as real
    ensures maxDelay >= 0 ==> c >= 0.0
  {
    if threshold == 0 then 0.0 else maxDelay as real / (threshold as real * threshold as real)
  }

  /** The constructor as written: its guard accepts every fraction, so the
      "Range must be between 0.0 and 1.0" exception is never thrown. */
  function NewAsWritten(maxMemory: nat, fraction: real, maxDelay: int, dequeueHint: int): (r: Result<Heap>)
    ensures r.Success?
    ensures r.value.dequeued == 0 && r.value.dequeueHint == dequeueHint
    ensures r.value.threshold as real - 0.5 <= maxMemory as real * fraction < r.value.threshold as real + 0.5
    ensures r.value.threshold != 0 ==>
      r.value.c * (r.value.threshold as real * r.value.threshold as real) == maxDelay as real
  {
    if GuardAsWritten(fraction) then
      var t := Threshold(maxMemory, fraction);
      Success(Heap(t, Coefficient(t, maxDelay), dequeueHint, 0))
    else
      Failure(RuntimeException)
  }

  /** The as-written guard is a tautology on reals: a fraction of 2.0 or -0.5 is
      accepted and yields a threshold above the whole heap or below zero. */
  lemma GuardAcceptsOutOfRange()
    ensures forall f: real :: GuardAsWritten(f)
    ensures NewAsWritten(1000, 2.0, 500, 10).Success?
    ensures NewAsWritten(1000, 2.0, 500, 10).value.threshold == 2000
    ensures NewAsWritten(1000, -0.5, 500, 10).value.threshold == -500
  {
  }

  /** The constructor with the range check it evidently intends: a fraction in
      `(0.0, 1.0]` yields a fresh strategy (counter 0, threshold within the heap,
      coefficient `maxDelay / threshold^2`), and any other fraction fails. */
  function New(maxMemory: nat, fraction: real, maxDelay: int, dequeueHint: int): (r: Result<Heap>)
    ensures r.Success? <==> InRange(fraction)
    ensures r.Failure? ==> r.exc == RuntimeException
    ensures r.Success? ==> && r.value.dequeued == 0
                           && r.value.dequeueHint == dequeueHint
                           && 0 <= r.value.threshold <= maxMemory
                           && r.value.threshold as real - 0.5 <= maxMemory as real * fraction
                           && maxMemory as real * fraction < r.value.threshold as real + 0.5
                           && (r.value.threshold > 0 ==>
                                 r.value.c * (r.value.threshold as real * r.value.threshold as real) == maxDelay as real)
  {
    if InRange(fraction) then
      var t := Threshold(maxMemory, fraction);
      Success(Heap(t, Coefficient(t, maxDelay), dequeueHint, 0))
    else
      Failure(RuntimeException)
  }

  /** The delay `onBeforeAdd` computes: none at or above the threshold, and
      `round(x * (x * c))` with `x = threshold - free` below it. */
  function DelayAt(h: Heap, free: int): (d: int)
    ensures free >= h.threshold ==> d == 0
    ensures h.c >= 0.0 ==> d >= 0
  {
    if free >= h.threshold then 0
    else
      var x := h.threshold - free;
      SquareSign(x as real, h.c);
      Round(x as real * (x as real * h.c))
  }

  /** What a call of `onBeforeAdd` does: sleep for some milliseconds, or throw. */
  datatype BeforeAddResult = Slept(ms: nat) | BeforeAddThrew(exc: Exc)

  /** `onBeforeAdd`: no sleep at or above the threshold; below it, a sleep of the
      computed delay. `Thread.sleep` rejects a negative delay, and an interruption
      of the sleep is rethrown as a `RuntimeException`. */
  function OnBeforeAdd(h: Heap, free: nat, interrupted: bool): (r: BeforeAddResult)
    ensures free >= h.threshold ==> r == Slept(0)
    ensures free < h.threshold && DelayAt(h, free) < 0 ==> r == BeforeAddThrew(IllegalArgumentException)
    ensures free < h.threshold && DelayAt(h, free) >= 0 && interrupted ==> r == BeforeAddThrew(RuntimeException)
    ensures free < h.threshold && DelayAt(h, free) >= 0 && !interrupted ==> r == Slept(DelayAt(h, free))
  {
    if free >= h.threshold then Slept(0)
    else
      var delay := DelayAt(h, free);
      if delay < 0 then BeforeAddThrew(IllegalArgumentException)
      else if interrupted then BeforeAddThrew(RuntimeException)
      else Slept(delay)
  }

  /** In exact arithmetic the delay below the threshold is `maxDelay * x^2 /
      threshold^2` rounded to the nearest integer, stated without division: the
      delay lies within half a unit of that quotient once both sides are scaled by
      `threshold^2`. */
  lemma DelayIsQuadratic(maxMemory: nat, fraction: real, maxDelay: int, dequeueHint: int, free: nat)
    requires InRange(fraction)
    requires free < Threshold(maxMemory, fraction)
    ensures var h := New(maxMemory, fraction, maxDelay, dequeueHint).value;
      var x := (h.threshold - free) as real;
      var t2 := h.threshold as real * h.threshold as real;
      var d := DelayAt(h, free) as real;
      && (d - 0.5) * t2 <= maxDelay as real * (x * x)
      && maxDelay as real * (x * x) < (d + 0.5) * t2
  {
    var h := New(maxMemory, fraction, maxDelay, dequeueHint).value;
    var t := h.threshold as real;
    assert h.threshold == Threshold(maxMemory, fraction) > 0;
    PositiveSquare(t);
    DelayWindow(h, free);
    QuadraticWindow(DelayAt(h, free) as real, (h.threshold - free) as real * (h.threshold - free) as real,
                    t * t, maxDelay as real, h.c);
  }

  /** Below the threshold the delay is the nearest integer to `c * x^2`. */
  lemma DelayWindow(h: Heap, free: int)
    requires free < h.threshold
    ensures var x := (h.threshold - free) as real;
      DelayAt(h, free) as real - 0.5 <= h.c * (x * x) < DelayAt(h, free) as real + 0.5
  {
    var x := (h.threshold - free) as real;
    assert x * (x * h.c) == h.c * (x * x);
  }

  lemma PositiveSquare(t: real)
    requires t > 0.0
    ensures t * t > 0.0
  {
  }

  /** The rounding window of `c * y`, scaled by `k` with `c * k == m`: each
      nonlinear step is its own lemma, so that no proof mixes products of more
      than two factors. */
  lemma QuadraticWindow(d: real, y: real, k: real, m: real, c: real)
    requires k > 0.0 && c * k == m
    requires d - 0.5 <= c * y < d + 0.5
    ensures (d - 0.5) * k <= m * y < (d + 0.5) * k
  {
    Regroup(c, y, k, m);
    WindowLow(d - 0.5, c * y, k, m * y);
    WindowHigh(c * y, d + 0.5, k, m * y);
  }

  lemma Regroup(c: real, y: real, k: real, m: real)
    requires c * k == m
    ensures (c * y) * k == m * y
  {
  }

  lemma WindowLow(lo: real, u: real, k: real, p: real)
    requires k > 0.0 && lo <= u && u * k == p
    ensures lo * k <= p
  {
    assert u * k - lo * k == (u - lo) * k;
  }

  lemma WindowHigh(u: real, hi: real, k: real, p: real)
    requires k > 0.0 && u < hi && u * k == p
    ensures p < hi * k
  {
    assert hi * k - u * k == (hi - u) * k;
  }

  lemma SquareSign(x: real, c: real)
    ensures c >= 0.0 ==> x * (x * c) >= 0.0
  {
    if c >= 0.0 {
      if x < 0.0 {
        SquareMonotone(-x, 0.0, c);
        assert x * (x * c) == (-x) * ((-x) * c);
      } else {
        SquareMonotone(x, 0.0, c);
      }
    }
  }

  lemma SquareMonotone(x1: real, x2: real, c: real)
    requires 0.0 <= x2 <= x1 && c >= 0.0
    ensures 0.0 <= x2 * (x2 * c) <= x1 * (x1 * c)
  {
    var a := x2 * c;
    var b := x1 * c;
    assert 0.0 <= a <= b;
    assert x2 * a <= x2 * b;
    assert x2 * b <= x1 * b;
  }

  /** With a non-negative coefficient, less free heap never means a shorter delay. */
  lemma DelayMonotone(h: Heap, free1: int, free2: int)
    requires h.c >= 0.0
    requires free1 <= free2
    ensures DelayAt(h, free1) >= DelayAt(h, free2) >= 0
  {
    var x1 := (h.threshold - free1) as real;
    var x2 := (h.threshold - free2) as real;
    if free2 < h.threshold {
      assert DelayAt(h, free1) == Round(x1 * (x1 * h.c));
      assert DelayAt(h, free2) == Round(x2 * (x2 * h.c));
      SquareMonotone(x1, x2, h.c);
      RoundMonotone(x2 * (x2 * h.c), x1 * (x1 * h.c));
    }
  }

  /** For a strategy built with a non-negative maximum delay, the delay at any
      non-negative free heap lies in `[0, maxDelay]`, and it is exactly `maxDelay`
      when the heap is full (free heap 0) and the threshold is positive. */
  lemma DelayBounds(maxMemory: nat, fraction: real, maxDelay: int, dequeueHint: int, free: nat)
    requires maxDelay >= 0
    requires New(maxMemory, fraction, maxDelay, dequeueHint).Success?
    ensures var h := New(maxMemory, fraction, maxDelay, dequeueHint).value;
      && 0 <= DelayAt(h, free) <= maxDelay
      && (h.threshold > 0 ==> DelayAt(h, 0) == maxDelay)
  {
    var h := New(maxMemory, fraction, maxDelay, dequeueHint).value;
    var t := h.threshold as real;
    if h.threshold > 0 {
      assert h.c == maxDelay as real / (t * t);
      assert h.c >= 0.0;
      assert t * (t * h.c) == maxDelay as real;
      assert DelayAt(h, 0) == Round(maxDelay as real);
      DelayMonotone(h, 0, free);
    }
  }

  /** The constructor accepts a negative `maxDelay`, and flow control then turns
      into rejection: below the threshold the delay is negative and `Thread.sleep`
      throws `IllegalArgumentException`, so the addition never happens. */
  lemma NegativeDelayThrows()
    ensures New(1000, 0.5, -500, 1).Success?
    ensures OnBeforeAdd(New(1000, 0.5, -500, 1).value, 0, false) == BeforeAddThrew(IllegalArgumentException)
  {
    var h := New(1000, 0.5, -500, 1).value;
    assert h.threshold == 500;
    assert h.c == -500.0 / 250000.0;
    assert DelayAt(h, 0) == Round(-500.0);
  }

  /** The result of `onAfterRemove`: the updated strategy, whether it asked the
      runtime for a garbage collection, and the exception it threw, if any. */
  datatype AfterRemoveResult = AfterRemoveResult(heap: Heap, gcRequested: bool, exc: Option<Exc>)

  /** `onAfterRemove`: a null value changes nothing; a non-null value increments the
      counter and requests a collection when the new count is a multiple of
      `dequeueHint`. A zero hint throws `ArithmeticException` from the remainder,
      after the counter has already been incremented. */
  function OnAfterRemove<E>(h: Heap, value: Option<E>): (r: AfterRemoveResult)
    ensures value.None? ==> r == AfterRemoveResult(h, false, None)
    ensures value.Some? ==> r.heap == h.(dequeued := h.dequeued + 1)
    ensures value.Some? && h.dequeueHint == 0 ==> r.exc == Some(ArithmeticException) && !r.gcRequested
    ensures value.Some? && h.dequeueHint > 0 && h.dequeued >= 0 ==>
      r.exc.None? && (r.gcRequested <==> (h.dequeued + 1) % h.dequeueHint == 0)
  {
    if value.None? then AfterRemoveResult(h, false, None)
    else
      var h' := h.(dequeued := h.dequeued + 1);
      if h.dequeueHint == 0 then AfterRemoveResult(h', false, Some(ArithmeticException))
      else AfterRemoveResult(h', Rem(h'.dequeued, h.dequeueHint) == 0, None)
  }

  /** One call into the strategy, with the inputs it reads. */
  datatype Call = BeforeAddCall(free: nat, interrupted: bool) | AfterAddCall | BeforeRemoveCall | AfterRemoveCall(nonNull: bool)

  /** The strategy after a sequence of calls, with the number of collections it
      requested. `onAfterAdd` and `onBeforeRemove` do nothing, and `onBeforeAdd`
      only sleeps or throws, so only `onAfterRemove` moves the state. */
  function Replay(h: Heap, calls: seq<Call>): (Heap, nat)
    decreases |calls|
  {
    if |calls| == 0 then (h, 0)
    else
      var last := calls[|calls| - 1];
      var (h1, n) := Replay(h, calls[..|calls| - 1]);
      match last
      case AfterRemoveCall(nonNull) =>
        var r := OnAfterRemove(h1, if nonNull then Some(()) else None);
        (r.heap, if r.gcRequested then n + 1 else n)
      case _ => (h1, n)
  }

  /** The number of non-null removals in a call sequence. */
  function Removals(calls: seq<Call>): nat {
    if |calls| == 0 then 0
    else Removals(calls[..|calls| - 1]) + (if calls[|calls| - 1] == AfterRemoveCall(true) then 1 else 0)
  }

  /** Between two counter values, the multiples of `n` passed go up by one exactly
      when the new value is a multiple. */
  lemma DivStep(d: nat, n: int)
    requires n > 0
    ensures (d + 1) / n == d / n + (if (d + 1) % n == 0 then 1 else 0)
  {
    var q := d / n;
    DivBounds(d, n);
    MulStep(q, n);
    if d % n == n - 1 {
      assert d + 1 == (q + 1) * n;
      DivExact(q + 1, n);
    } else {
      assert d + 1 == q * n + (d % n + 1);
      DivWithin(d + 1, n, q);
    }
  }

  lemma DivExact(q: int, n: int)
    requires n > 0
    ensures (q * n) / n == q && (q * n) % n == 0
  {
    MulStep(q, n);
    DivUnique(q * n, n, q);
  }

  lemma DivWithin(x: int, n: int, q: int)
    requires n > 0
    requires q * n < x < q * n + n
    ensures x / n == q && x % n != 0
  {
    DivUnique(x, n, q);
  }

  /** The dequeue counter rule: after any sequence of calls with a positive hint,
      the counter has grown by exactly the number of non-null removals, the
      configuration is untouched, and one collection was requested per multiple of
      `dequeueHint` the counter passed. From a fresh strategy, `k` non-null
      removals give `k / dequeueHint` requests. */
  lemma {:induction false} GcEveryHint(h: Heap, calls: seq<Call>)
    requires h.dequeueHint > 0 && h.dequeued >= 0
    ensures var (h', gcs) := Replay(h, calls);
      && h' == h.(dequeued := h.dequeued + Removals(calls))
      && gcs == (h.dequeued + Removals(calls)) / h.dequeueHint - h.dequeued / h.dequeueHint
  {
    if |calls| > 0 {
      var init := calls[..|calls| - 1];
      GcEveryHint(h, init);
      var (h1, n) := Replay(h, init);
      if calls[|calls| - 1].AfterRemoveCall? && calls[|calls| - 1].nonNull {
        DivStep(h1.dequeued, h.dequeueHint);
      }
    }
  }
}
