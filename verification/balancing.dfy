/** `BalancingThreadPoolExecutor`: an executor that tracks, per worker thread, the
    running averages of how long its tasks take and how much CPU time it has used,
    folds those into pool-wide averages on every collector pass, and resizes the
    wrapped pool to `ceil(N * U * (1 + W / C))` threads, where `N` is the number of
    CPUs, `U` the target utilisation, `W` the average wait time and `C` the
    average CPU time.

    Times are nanosecond `long`s, modelled as unbounded integers; `U` is an exact
    real; the clock, the CPU-time sensor, thread liveness and the pool's
    terminated flag are inputs. */
module Balancing {
  import opened Lang

  /** Per-thread statistics. `avgWaitTime` holds the average wall-clock time of the
      thread's tasks, `avgCpuTime` the average of the CPU-time readings taken after
      each of them. */
  datatype Tracking = Tracking(taskCount: int, avgWaitTime: int, avgCpuTime: int)

  /** What the executor reads and sets on the wrapped `ThreadPoolExecutor`. */
  datatype Pool = Pool(corePoolSize: int, maximumPoolSize: int, terminated: bool)

  datatype Executor<T> = Executor(
    pool: Pool,
    cpus: nat,
    targetUtilization: real,
    sampleMs: int,
    avgThreadCpuTime: int,
    avgThreadTotalTime: int,
    liveThreads: map<T, Tracking>)

  /** Every tracked thread has completed at least one task. */
  predicate Valid<T>(ex: Executor<T>) {
    forall t :: t in ex.liveThreads ==> ex.liveThreads[t].taskCount >= 1
  }

  predicate UtilizationInRange(u: real) { 0.0 < u <= 1.0 }

  /** The constructor: the utilisation is checked first, then the pool. A fresh
      executor starts with both pool-wide averages at 1 and no tracked threads. */
  function New<T>(pool: Option<Pool>, targetUtilization: real, sampleMs: int, cpus: nat): (r: Result<Executor<T>>)
    ensures !UtilizationInRange(targetUtilization) <==> r == Failure(IllegalArgumentException)
    ensures UtilizationInRange(targetUtilization) && pool.None? <==> r == Failure(NullPointerException)
    ensures r.Success? ==>
      && pool == Some(r.value.pool)
      && r.value.avgThreadCpuTime == 1 && r.value.avgThreadTotalTime == 1
      && r.value.liveThreads == map[]
      && r.value.targetUtilization == targetUtilization && r.value.sampleMs == sampleMs
      && Valid(r.value)
  {
    if targetUtilization <= 0.0 || targetUtilization > 1.0 then Failure(IllegalArgumentException)
    else if pool.None? then Failure(NullPointerException)
    else Success(Executor(pool.value, cpus, targetUtilization, sampleMs, 1, 1, map[]))
  }

  /** Wait times of at most 100 ms (in nanoseconds) count as no waiting at all. */
  const WaitCutoff: int := 100000000

  function EffectiveWait(totalTime: int, cpuTime: int): (w: int)
    ensures w == 0 || w > WaitCutoff
    ensures w > 0 <==> totalTime - cpuTime > WaitCutoff
    ensures w > 0 ==> w == totalTime - cpuTime
  {
    var w := totalTime - cpuTime;
    if w > WaitCutoff then w else 0
  }

  /** The ideal pool size `N * U * (1 + W / C)`, with `W / C` in truncating integer
      division. */
  function Target(cpus: nat, u: real, ratio: int): (r: real)
    ensures ratio == 0 ==> r == cpus as real * u
    ensures UtilizationInRange(u) && ratio >= -1 ==> 0.0 <= r <= cpus as real * (1 + ratio) as real
  {
    TargetBelow(cpus, u, ratio);
    cpus as real * u * (1 + ratio) as real
  }

  lemma TargetBelow(cpus: nat, u: real, ratio: int)
    ensures UtilizationInRange(u) && ratio >= -1 ==>
      0.0 <= cpus as real * u * (1 + ratio) as real <= cpus as real * (1 + ratio) as real
  {
    if UtilizationInRange(u) && ratio >= -1 {
      var k := (1 + ratio) as real;
      ScaleBelow(cpus as real, u);
      ScaleMonotone(k, 0.0, cpus as real * u);
      ScaleMonotone(k, cpus as real * u, cpus as real);
    }
  }

  /** On a non-negative dividend and a positive divisor, Java's quotient is the
      floor of the exact one; a negative divisor gives a quotient of at most 0. */
  lemma QuotFloor(w: int, c: int)
    requires w >= 0 && c != 0
    ensures c > 0 ==> 0 <= Quot(w, c) && Quot(w, c) * c <= w < (Quot(w, c) + 1) * c
    ensures c < 0 ==> Quot(w, c) <= 0
  {
    if c > 0 {
      DivBounds(w, c);
      MulStep(w / c, c);
    }
  }

  /** The ratio `W / C` that `balance()` computes from the two pool-wide averages. */
  function Ratio(totalTime: int, cpuTime: int): (r: int)
    requires cpuTime != 0
    ensures EffectiveWait(totalTime, cpuTime) == 0 ==> r == 0
    ensures cpuTime > 0 ==> 0 <= r && r * cpuTime <= EffectiveWait(totalTime, cpuTime) < (r + 1) * cpuTime
    ensures cpuTime < 0 ==> r <= 0
  {
    QuotFloor(EffectiveWait(totalTime, cpuTime), cpuTime);
    Quot(EffectiveWait(totalTime, cpuTime), cpuTime)
  }

  /** `balance()`: nothing on a terminated pool; otherwise a zero average CPU time
      throws `ArithmeticException`, and any other readings set both the core and the
      maximum pool size to the least integer at or above the ideal size, but at
      least 1. Nothing else changes. */
  function Balance<T>(ex: Executor<T>): (r: Result<Executor<T>>)
    ensures ex.pool.terminated ==> r == Success(ex)
    ensures !ex.pool.terminated ==> (r.Failure? <==> ex.avgThreadCpuTime == 0)
    ensures r.Failure? ==> r.exc == ArithmeticException
    ensures !ex.pool.terminated && r.Success? ==>
      var size := r.value.pool.corePoolSize;
      var target := Target(ex.cpus, ex.targetUtilization, Ratio(ex.avgThreadTotalTime, ex.avgThreadCpuTime));
      && r.value == ex.(pool := ex.pool.(corePoolSize := size, maximumPoolSize := size))
      && size >= 1
      && target <= size as real
      && (size == 1 || (size - 1) as real < target)
  {
    if ex.pool.terminated then Success(ex)
    else
      if ex.avgThreadCpuTime == 0 then Failure(ArithmeticException)
      else
        var size := Max(1, Ceil(Target(ex.cpus, ex.targetUtilization, Ratio(ex.avgThreadTotalTime, ex.avgThreadCpuTime))));
        Success(ex.(pool := ex.pool.(corePoolSize := size, maximumPoolSize := size)))
  }

  lemma ScaleBelow(n: real, u: real)
    requires n >= 0.0 && 0.0 < u <= 1.0
    ensures 0.0 <= n * u <= n
  {
    assert n * u <= n * 1.0;
  }

  /** Without significant waiting the pool is sized for the CPUs alone: between 1 and
      the number of CPUs. */
  lemma NoWaitAtMostCpus<T>(ex: Executor<T>)
    requires !ex.pool.terminated && ex.avgThreadCpuTime != 0
    requires UtilizationInRange(ex.targetUtilization)
    requires ex.avgThreadTotalTime - ex.avgThreadCpuTime <= WaitCutoff
    ensures Balance(ex).Success?
    ensures 1 <= Balance(ex).value.pool.corePoolSize <= Max(1, ex.cpus)
  {
    assert Ratio(ex.avgThreadTotalTime, ex.avgThreadCpuTime) == 0;
    var k := ex.cpus as real * ex.targetUtilization;
    assert Target(ex.cpus, ex.targetUtilization, 0) == k * 1.0;
    ScaleBelow(ex.cpus as real, ex.targetUtilization);
    CeilMonotone(k, ex.cpus as real);
  }

  lemma DivMonotone(a: int, b: int, c: int)
    requires 0 <= a <= b && c > 0
    ensures a / c <= b / c
  {
    DivBounds(a, c);
    DivBounds(b, c);
    if a / c > b / c {
      MulStep(b / c, c);
      MulMonotone(b / c + 1, a / c, c);
    }
  }

  lemma ScaleMonotone(k: real, x: real, y: real)
    requires k >= 0.0 && x <= y
    ensures k * x <= k * y
  {
  }

  lemma TargetMonotone(cpus: nat, u: real, r1: int, r2: int)
    requires UtilizationInRange(u) && r1 <= r2
    ensures Target(cpus, u, r1) <= Target(cpus, u, r2)
  {
    ScaleBelow(cpus as real, u);
    ScaleMonotone(cpus as real * u, (1 + r1) as real, (1 + r2) as real);
  }

  lemma RatioMonotone(total1: int, total2: int, cpu: int)
    requires cpu > 0 && total1 <= total2
    ensures Ratio(total1, cpu) <= Ratio(total2, cpu)
  {
    var w1 := EffectiveWait(total1, cpu);
    var w2 := EffectiveWait(total2, cpu);
    DivMonotone(w1, w2, cpu);
  }

  /** More time spent per task beyond its CPU time never shrinks the pool: with the
      same positive CPU time, a larger average total time gives a size at least as
      large. */
  lemma BalanceMonotone<T>(ex: Executor<T>, totalTime: int)
    requires !ex.pool.terminated && ex.avgThreadCpuTime > 0
    requires UtilizationInRange(ex.targetUtilization)
    requires ex.avgThreadTotalTime <= totalTime
    ensures Balance(ex).value.pool.corePoolSize <= Balance(ex.(avgThreadTotalTime := totalTime)).value.pool.corePoolSize
  {
    var cpu := ex.avgThreadCpuTime;
    RatioMonotone(ex.avgThreadTotalTime, totalTime, cpu);
    var r1 := Ratio(ex.avgThreadTotalTime, cpu);
    var r2 := Ratio(totalTime, cpu);
    TargetMonotone(ex.cpus, ex.targetUtilization, r1, r2);
    CeilMonotone(Target(ex.cpus, ex.targetUtilization, r1), Target(ex.cpus, ex.targetUtilization, r2));
  }

  /** The tracking update at the end of every task, run in a `finally` so that it
      happens whether the task returned or threw. An untracked thread gets a fresh
      entry (one task, its wall-clock time, CPU time 0); a tracked one folds the new
      samples into its cumulative moving averages, `avg += (sample - avg) / n`. */
  function Track(t: Option<Tracking>, totalTime: int, cpuTime: int): (r: Tracking)
    requires t.Some? ==> t.value.taskCount >= 0
    ensures t.None? ==> r == Tracking(1, totalTime, 0)
    ensures t.Some? ==>
      && r.taskCount == t.value.taskCount + 1
      && InClosedRange(r.avgWaitTime, t.value.avgWaitTime, totalTime)
      && InClosedRange(r.avgCpuTime, t.value.avgCpuTime, cpuTime)
      // Each average is the exact cumulative moving average up to the truncation:
      // `n * new` is within `n` of `(n - 1) * old + sample`.
      && Abs(r.taskCount * r.avgWaitTime - (t.value.taskCount * t.value.avgWaitTime + totalTime)) < r.taskCount
      && Abs(r.taskCount * r.avgCpuTime - (t.value.taskCount * t.value.avgCpuTime + cpuTime)) < r.taskCount
  {
    match t
    case None => Tracking(1, totalTime, 0)
    case Some(prev) =>
      var n := prev.taskCount + 1;
      StepBetween(prev.avgWaitTime, totalTime, n);
      StepBetween(prev.avgCpuTime, cpuTime, n);
      MovingAverage(prev.avgWaitTime, totalTime, n);
      MovingAverage(prev.avgCpuTime, cpuTime, n);
      Tracking(n, prev.avgWaitTime + Quot(totalTime - prev.avgWaitTime, n),
                  prev.avgCpuTime + Quot(cpuTime - prev.avgCpuTime, n))
  }

  lemma DivAtMost(x: int, n: int)
    requires x >= 0 && n >= 1
    ensures 0 <= x / n <= x
  {
    DivBounds(x, n);
    if x / n > 0 {
      MulMonotone(1, n, x / n);
      assert x / n <= n * (x / n);
    }
  }

  /** One step of a moving average lands between the old average and the sample. */
  lemma StepBetween(avg: int, sample: int, n: int)
    requires n >= 1
    ensures InClosedRange(avg + Quot(sample - avg, n), avg, sample)
  {
    DivAtMost(Abs(sample - avg), n);
  }

  /** `x` lies between `a` and `b`, in either order. */
  predicate InClosedRange(x: int, a: int, b: int) {
    Min(a, b) <= x <= Max(a, b)
  }

  /** The truncated update is within one unit per task of the exact cumulative
      moving average: `n * new` differs from `(n - 1) * old + sample` by less than
      `n`, and by nothing when the difference divides evenly. */
  lemma {:induction false} MovingAverage(avg: int, sample: int, n: int)
    requires n >= 1
    ensures var next := avg + Quot(sample - avg, n);
      && Abs(n * next - ((n - 1) * avg + sample)) < n
      && ((sample - avg) % n == 0 ==> n * next == (n - 1) * avg + sample)
  {
    var d := sample - avg;
    var q := Quot(d, n);
    var next := avg + q;
    assert n * next == n * avg + n * q;
    assert n * q == q * n;
    QuotTimes(d, n);
  }

  /** Java's quotient times the divisor lies within one divisor of the dividend,
      and equals it when the division is exact. */
  lemma QuotTimes(d: int, n: int)
    requires n >= 1
    ensures Abs(Quot(d, n) * n - d) < n
    ensures d % n == 0 ==> Quot(d, n) * n == d
  {
    if d >= 0 {
      assert Quot(d, n) == d / n;
      DivBounds(d, n);
    } else {
      QuotTimesNegative(d, n);
    }
  }

  lemma QuotTimesNegative(d: int, n: int)
    requires n >= 1 && d < 0
    ensures Abs(Quot(d, n) * n - d) < n
    ensures d % n == 0 ==> Quot(d, n) * n == d
  {
    var m := (-d) / n;
    assert Quot(d, n) == -m;
    DivBounds(-d, n);
    assert (-m) * n == -(m * n);
    if d % n == 0 {
      var k := d / n;
      DivBounds(d, n);
      assert -d == (-k) * n;
      DivUnique(-d, n, -k);
    }
  }

  /** What running a command through the executor leaves behind: the tracking state
      and the command's exception, if it threw, which passes through unchanged. */
  datatype TaskRun<T> = TaskRun(executor: Executor<T>, thrown: Option<Exc>)

  /** The wrapper `execute` submits: run the command, then update the running
      thread's entry with the elapsed time and the CPU-time reading. */
  function RunTask<T>(ex: Executor<T>, thread: T, failure: Option<Exc>, totalTime: int, cpuTime: int): (r: TaskRun<T>)
    requires Valid(ex)
    ensures r.thrown == failure
    ensures Valid(r.executor)
    ensures r.executor == ex.(liveThreads := r.executor.liveThreads)
    ensures r.executor.liveThreads.Keys == ex.liveThreads.Keys + {thread}
    ensures forall t :: t in ex.liveThreads && t != thread ==> r.executor.liveThreads[t] == ex.liveThreads[t]
    ensures r.executor.liveThreads[thread] ==
      Track(if thread in ex.liveThreads then Some(ex.liveThreads[thread]) else None, totalTime, cpuTime)
  {
    var current := if thread in ex.liveThreads then Some(ex.liveThreads[thread]) else None;
    TaskRun(ex.(liveThreads := ex.liveThreads[thread := Track(current, totalTime, cpuTime)]), failure)
  }

  /** One of the two averages of an entry: CPU time, or wall-clock time. */
  function Stat(tr: Tracking, cpu: bool): int {
    if cpu then tr.avgCpuTime else tr.avgWaitTime
  }

  /** The sum of one statistic over the live entries, in iteration order. */
  function SumLive<T>(m: map<T, Tracking>, order: seq<T>, alive: set<T>, cpu: bool): int
    decreases |order|
  {
    if |order| == 0 then 0
    else
      var t := order[|order| - 1];
      SumLive(m, order[..|order| - 1], alive, cpu) + (if t in m && t in alive then Stat(m[t], cpu) else 0)
  }

  function CountLive<T>(m: map<T, Tracking>, order: seq<T>, alive: set<T>): nat
    decreases |order|
  {
    if |order| == 0 then 0
    else
      var t := order[|order| - 1];
      CountLive(m, order[..|order| - 1], alive) + (if t in m && t in alive then 1 else 0)
  }

  /** The map's entries restricted to live threads. */
  function Survivors<T>(m: map<T, Tracking>, alive: set<T>): map<T, Tracking> {
    map t | t in m && t in alive :: m[t]
  }

  /** `order` lists the map's threads, each once: the snapshot the collector walks. */
  predicate IsOrder<T>(m: map<T, Tracking>, order: seq<T>) {
    && (forall i :: 0 <= i < |order| ==> order[i] in m)
    && (forall t :: t in m ==> t in order)
    && (forall i, j :: 0 <= i < j < |order| ==> order[i] != order[j])
  }

  /** One collector pass, as a reference definition: dead threads are dropped, and
      when at least one live thread remains both pool-wide averages become the
      truncated mean over the live threads. */
  function Collect<T>(ex: Executor<T>, order: seq<T>, alive: set<T>): (r: Executor<T>)
    requires IsOrder(ex.liveThreads, order)
    ensures r.liveThreads == Survivors(ex.liveThreads, alive)
    ensures r.pool == ex.pool && r.cpus == ex.cpus && r.targetUtilization == ex.targetUtilization
    ensures CountLive(ex.liveThreads, order, alive) == 0 ==>
      r.avgThreadTotalTime == ex.avgThreadTotalTime && r.avgThreadCpuTime == ex.avgThreadCpuTime
    ensures Valid(ex) ==> Valid(r)
  {
    var n := CountLive(ex.liveThreads, order, alive);
    var kept := ex.(liveThreads := Survivors(ex.liveThreads, alive));
    if n > 0 then
      kept.(avgThreadTotalTime := Quot(SumLive(ex.liveThreads, order, alive, false), n),
            avgThreadCpuTime := Quot(SumLive(ex.liveThreads, order, alive, true), n))
    else kept
  }

  /** The collector's loop over the snapshot: remove each dead thread's entry,
      accumulate the live ones, and publish the means if any thread was live. */
  method CollectPass<T>(ex: Executor<T>, order: seq<T>, alive: set<T>) returns (r: Executor<T>)
    requires IsOrder(ex.liveThreads, order)
    ensures r == Collect(ex, order, alive)
  {
    var threads := ex.liveThreads;
    var liveAvgTimeTotal := 0;
    var liveAvgCpuTotal := 0;
    var liveCount := 0;
    var i := 0;
    while i < |order|
      invariant 0 <= i <= |order|
      invariant threads == map t | t in ex.liveThreads && (t in alive || t !in order[..i]) :: ex.liveThreads[t]
      invariant liveAvgTimeTotal == SumLive(ex.liveThreads, order[..i], alive, false)
      invariant liveAvgCpuTotal == SumLive(ex.liveThreads, order[..i], alive, true)
      invariant liveCount == CountLive(ex.liveThreads, order[..i], alive)
    {
      var t := order[i];
      assert order[..i + 1][..i] == order[..i];
      if t in ex.liveThreads {
        if t !in alive {
          threads := threads - {t};
        } else {
          liveAvgTimeTotal := liveAvgTimeTotal + ex.liveThreads[t].avgWaitTime;
          liveAvgCpuTotal := liveAvgCpuTotal + ex.liveThreads[t].avgCpuTime;
          liveCount := liveCount + 1;
        }
      }
      i := i + 1;
    }
    assert order[..|order|] == order;
    assert threads == Survivors(ex.liveThreads, alive);
    r := ex.(liveThreads := threads);
    if liveCount > 0 {
      r := r.(avgThreadTotalTime := Quot(liveAvgTimeTotal, liveCount), avgThreadCpuTime := Quot(liveAvgCpuTotal, liveCount));
    }
  }

  lemma DivBetween(x: int, n: int, lo: int, hi: int)
    requires x >= 0 && n > 0
    requires lo * n <= x <= hi * n
    ensures lo <= x / n <= hi
  {
    var q := x / n;
    DivBounds(x, n);
    MulStep(q, n);
    MulStep(hi, n);
    if q > hi {
      MulMonotone(hi + 1, q, n);
    }
    if q < lo {
      MulMonotone(q + 1, lo, n);
    }
  }

  /** A truncated mean of values in `[lo, hi]` stays in `[lo, hi]`. */
  lemma QuotBetween(s: int, n: int, lo: int, hi: int)
    requires n > 0
    requires lo * n <= s <= hi * n
    ensures lo <= Quot(s, n) <= hi
  {
    if s >= 0 {
      DivBetween(s, n, lo, hi);
    } else {
      assert (-hi) * n == -(hi * n) && (-lo) * n == -(lo * n);
      DivBetween(-s, n, -hi, -lo);
    }
  }

  lemma {:induction false} SumBounds<T>(m: map<T, Tracking>, order: seq<T>, alive: set<T>, cpu: bool, lo: int, hi: int)
    requires forall t :: t in m && t in alive ==> lo <= Stat(m[t], cpu) <= hi
    ensures lo * CountLive(m, order, alive) <= SumLive(m, order, alive, cpu) <= hi * CountLive(m, order, alive)
  {
    if |order| > 0 {
      var init := order[..|order| - 1];
      SumBounds(m, init, alive, cpu, lo, hi);
      MulStep(CountLive(m, init, alive), lo);
      MulStep(CountLive(m, init, alive), hi);
      assert lo * (CountLive(m, init, alive) + 1) == lo * CountLive(m, init, alive) + lo;
      assert hi * (CountLive(m, init, alive) + 1) == hi * CountLive(m, init, alive) + hi;
    }
  }

  /** The collector's means are means: when every live thread's averages lie in a
      range, so do the pool-wide averages a pass publishes. */
  lemma CollectMeanBetween<T>(ex: Executor<T>, order: seq<T>, alive: set<T>, cpu: bool, lo: int, hi: int)
    requires IsOrder(ex.liveThreads, order)
    requires CountLive(ex.liveThreads, order, alive) > 0
    requires forall t :: t in ex.liveThreads && t in alive ==> lo <= Stat(ex.liveThreads[t], cpu) <= hi
    ensures var r := Collect(ex, order, alive);
      lo <= (if cpu then r.avgThreadCpuTime else r.avgThreadTotalTime) <= hi
  {
    var n := CountLive(ex.liveThreads, order, alive);
    SumBounds(ex.liveThreads, order, alive, cpu, lo, hi);
    assert lo * n == n * lo && hi * n == n * hi;
    QuotBetween(SumLive(ex.liveThreads, order, alive, cpu), n, lo, hi);
  }

  /** The zero CPU time that makes `balance()` throw is reachable: a fresh
      executor whose only thread has finished its first task (which seeds that
      thread's CPU average with 0) publishes an average CPU time of 0 on the next
      collector pass, and the next `balance()` divides by it. */
  lemma ZeroCpuReachable<T>(pool: Pool, u: real, sampleMs: int, cpus: nat, thread: T, totalTime: int, cpuTime: int)
    requires UtilizationInRange(u) && !pool.terminated
    ensures var ex := New<T>(Some(pool), u, sampleMs, cpus).value;
      var ran := RunTask(ex, thread, None, totalTime, cpuTime).executor;
      && IsOrder(ran.liveThreads, [thread])
      && Collect(ran, [thread], {thread}).avgThreadCpuTime == 0
      && Balance(Collect(ran, [thread], {thread})) == Failure(ArithmeticException)
  {
    var ex := New<T>(Some(pool), u, sampleMs, cpus).value;
    var ran := RunTask(ex, thread, None, totalTime, cpuTime).executor;
    assert [thread][..0] == [];
    assert CountLive(ran.liveThreads, [thread], {thread}) == 1;
    assert SumLive(ran.liveThreads, [thread], {thread}, true) == 0;
  }
}
