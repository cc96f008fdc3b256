# moar-concurrent core, modelled in Dafny

This project models four parts of the moar-concurrent library and proves properties about them:

- **Range partitioning.** `Parts.among` / `Parts.between` split an integer range into `Part` chunks of a fixed size.
- **The heap queueing strategy.** It delays additions as free heap runs short and asks for a garbage collection every `dequeueHint` removals.
- **The strategic blocking queue.** A `BlockingQueue` decorator runs a `QueueingStrategy`'s four hooks around `put`, `add`, `take` and both `poll`s. Everything else passes straight through to the wrapped queue. The model also covers the decorator combined with the heap strategy.
- **The balancing thread pool executor.** It checks its arguments in the constructor, tracks each worker's task-time and CPU-time averages, folds them into pool-wide averages on each collector pass, and resizes the pool in `balance()`.

Modules:

- `Lang` (`lang.dfy`): the Java semantics the other modules need.
  - Exceptions and `Option`/`Result`.
  - Truncating `long` division and remainder.
  - `Math.round` and `Math.ceil` on exact reals.
- `Parts` (`parts.dfy`): `Part` and the partition functions.
  - The do-while loop as written.
  - A reference tiling predicate that `among` is proved to be the unique solution of.
- `HeapStrategy` (`heap.dfy`): the strategy object, its constructor, and the effect of each hook.
- `StrategicQueue` (`queue.dfy`):
  - the wrapped queue as a bounded FIFO;
  - a strategy as four hook functions over a state of its own;
  - each call's trace of hook calls and delegated operations;
  - `finally` semantics.
- `HeapQueue` (`heap_queue.dfy`): the heap strategy plugged into the decorator.
- `Balancing` (`balancing.dfy`): the executor's size computation, tracking update and collector pass.

Inputs the code reads from the runtime are parameters of the model: the maximum heap, the free heap, the interrupt status, the clock, the CPU-time sensor, thread liveness and the pool's terminated flag. Outputs are results of the model: the sleep, the garbage-collection request and the exceptions. A call that would wait for another thread is reported as `Blocked`: a `put` on a full queue, or a `take` on an empty one.

## Model

| member | source | states |
|---|---|---|
| `Lang.Quot` | src/main/java/com/github/rholder/moar/concurrent/thread/BalancingThreadPoolExecutor.java:78 | Java `long` division: the magnitude is `abs(a) / abs(b)`, and the sign is that of the exact quotient (rounded toward zero) |
| `Lang.Rem` | src/main/java/com/github/rholder/moar/concurrent/HeapQueueingStrategy.java:104 | Java `%`: on a non-negative dividend and a positive divisor it is the ordinary remainder |
| `Lang.Round` | src/main/java/com/github/rholder/moar/concurrent/HeapQueueingStrategy.java:76 | `Math.round`: the integer within half a unit of `x`, with halves rounded up |
| `Lang.Ceil` | src/main/java/com/github/rholder/moar/concurrent/thread/BalancingThreadPoolExecutor.java:78 | `Math.ceil`: the least integer not below `x` |
| `Parts.PartAtSize` | src/main/java/com/github/rholder/moar/concurrent/partition/Parts.java:97-99 | the part `PartAt` builds for counter `i` holds between 1 and `c` values while `i*c` lies below the length, and exactly `c` while `(i+1)*c` does |
| `Parts.Emit` | src/main/java/com/github/rholder/moar/concurrent/partition/Parts.java:96-100 | the loop from counter `i` on emits one part per iteration, part `k` being the one for counter `i + k`; every iteration after the first started below the total length, and the one after the last would not have |
| `Parts.Among` | src/main/java/com/github/rholder/moar/concurrent/partition/Parts.java:91-102 | `among(offset, L, c)` is never empty, starts at `offset`, and part `k` starts at `offset + k*c` |
| `Parts.AmongLoop` | src/main/java/com/github/rholder/moar/concurrent/partition/Parts.java:91-102 | the do-while loop as written returns exactly the partition `Among` defines |
| `Parts.AmongFromZero` | src/main/java/com/github/rholder/moar/concurrent/partition/Parts.java:67-69 | `among(L, c)` covers `[0, L-1]`: it starts at 0 and ends at `L-1` |
| `Parts.Between` | src/main/java/com/github/rholder/moar/concurrent/partition/Parts.java:47-49 | `between(start, end, c)` covers the inclusive range: it starts at `start` and ends at `end` |
| `Parts.AmongContiguous` | src/main/java/com/github/rholder/moar/concurrent/partition/Parts.java:96-99 | consecutive parts are adjacent, and every part but the last holds exactly `c` values |
| `Parts.AmongCoversRange` | src/main/java/com/github/rholder/moar/concurrent/partition/Parts.java:95-100 | the last part ends at `offset + L - 1` and, for `L > 0`, holds between 1 and `c` values; for `L <= 0` the single part is `(offset, offset + L - 1)` |
| `Parts.AmongCount` | src/main/java/com/github/rholder/moar/concurrent/partition/Parts.java:96-100 | for `c, L > 0` there are `ceil(L / c)` parts |
| `Parts.AmongAligned` | src/test/java/com/github/rholder/moar/concurrent/partition/PartsTest.java:64-85 | when `c` divides `L`, the last part is a full chunk, with no trailing short part |
| `Parts.AmongIsTheTiling` | src/main/java/com/github/rholder/moar/concurrent/partition/Parts.java:51-66 | for `c, L > 0`, `among` satisfies the independent tiling description, and every sequence that satisfies it equals `among` |
| `Parts.LoopNeverExits` | src/main/java/com/github/rholder/moar/concurrent/partition/Parts.java:96-100 | outside `Terminates` (`c <= 0` and `L > c`) every loop test after the first succeeds, so the loop never exits |
| `Parts.ExampleWithOffset` | src/main/java/com/github/rholder/moar/concurrent/partition/Parts.java:76-80 | `among(23, 21, 10)` is `[23,32], [33,42], [43,43]` |
| `Parts.ExampleBetween` | src/test/java/com/github/rholder/moar/concurrent/partition/PartsTest.java:169-193 | `between(23, 43, 10)` is `[23,32], [33,42], [43,43]` |
| `Parts.ExampleBetweenAligned` | src/test/java/com/github/rholder/moar/concurrent/partition/PartsTest.java:149-167 | `between(23, 42, 10)` is `[23,32], [33,42]` |
| `Parts.ExampleOddParts` | src/test/java/com/github/rholder/moar/concurrent/partition/PartsTest.java:26-62 | `among(73, 22)` is `[0,21], [22,43], [44,65], [66,72]` |
| `Parts.ExampleAligned` | src/test/java/com/github/rholder/moar/concurrent/partition/PartsTest.java:64-147 | `among(26,13)` gives two full parts, `among(27,13)` adds `[26,26]`, and `among(17,30)` and `among(17,17)` give the single part `[0,16]` |
| `HeapStrategy.Threshold` | src/main/java/com/github/rholder/moar/concurrent/HeapQueueingStrategy.java:48 | `Math.round(maxMemory * f)`: within half a byte of `maxMemory * f`, and within `[0, maxMemory]` for `f` in `(0, 1]` |
| `HeapStrategy.Coefficient` | src/main/java/com/github/rholder/moar/concurrent/HeapQueueingStrategy.java:57 | `c * threshold^2 == maxDelay` for a non-zero threshold, and `c >= 0` for a non-negative `maxDelay` (the quadratic law itself is `HeapStrategy.DelayIsQuadratic`) |
| `HeapStrategy.NewAsWritten` | src/main/java/com/github/rholder/moar/concurrent/HeapQueueingStrategy.java:45-58 | the constructor as written always succeeds, with counter 0, the given hint, a threshold within half a byte of `maxMemory * f` and `c * threshold^2 == maxDelay` when the threshold is non-zero |
| `HeapStrategy.GuardAcceptsOutOfRange` | src/main/java/com/github/rholder/moar/concurrent/HeapQueueingStrategy.java:47-51 | the guard `f > 0.0 \|\| f <= 1.0` holds for every `f`: fractions 2.0 and -0.5 are accepted, with thresholds 2000 and -500 on a 1000-byte heap |
| `HeapStrategy.New` | src/main/java/com/github/rholder/moar/concurrent/HeapQueueingStrategy.java:45-58 | corrected constructor: it succeeds exactly for `0 < f <= 1` and otherwise throws `RuntimeException`; a fresh strategy has counter 0, a threshold within the heap and within half a byte of `maxMemory * f`, and `c * threshold^2 == maxDelay` when the threshold is positive |
| `HeapStrategy.DelayAt` | src/main/java/com/github/rholder/moar/concurrent/HeapQueueingStrategy.java:71-76 | no delay at or above the threshold, and never a negative one for a non-negative `c` (how it grows is `HeapStrategy.DelayMonotone` and `HeapStrategy.DelayIsQuadratic`) |
| `HeapStrategy.OnBeforeAdd` | src/main/java/com/github/rholder/moar/concurrent/HeapQueueingStrategy.java:67-84 | no sleep at or above the threshold; below it, an uninterrupted call sleeps exactly the computed delay and returns, a negative delay throws `IllegalArgumentException`, and an interrupted thread gets `RuntimeException` |
| `HeapStrategy.DelayIsQuadratic` | src/main/java/com/github/rholder/moar/concurrent/HeapQueueingStrategy.java:74-76 | for a constructed strategy, the delay below the threshold is `maxDelay * x^2 / threshold^2` rounded to the nearest integer: scaled by `threshold^2`, it lies within half a unit of `maxDelay * x^2` |
| `HeapStrategy.DelayMonotone` | src/main/java/com/github/rholder/moar/concurrent/HeapQueueingStrategy.java:71-76 | for a non-negative coefficient `c` (a non-negative `maxDelay`), less free heap never gives a shorter delay, and the delay is never negative |
| `HeapStrategy.DelayBounds` | src/main/java/com/github/rholder/moar/concurrent/HeapQueueingStrategy.java:56-57 | for a non-negative `maxDelay` the delay lies in `[0, maxDelay]`, and, when the threshold is positive, it equals `maxDelay` at zero free heap (a zero threshold, e.g. a zero `maxMemory`, never delays) |
| `HeapStrategy.NegativeDelayThrows` | src/main/java/com/github/rholder/moar/concurrent/HeapQueueingStrategy.java:45-82 | the constructor accepts a negative `maxDelay`; then an uninterrupted addition below the threshold gets `IllegalArgumentException` from the negative sleep instead of a delay: with a 1000-byte heap, fraction 0.5 and `maxDelay` -500, the addition at zero free heap throws |
| `HeapStrategy.OnAfterRemove` | src/main/java/com/github/rholder/moar/concurrent/HeapQueueingStrategy.java:101-108 | null changes nothing; non-null increments the counter; for a positive hint and a non-negative counter, a collection is requested iff the new count is a multiple of the hint; a zero hint throws `ArithmeticException` after incrementing |
| `HeapStrategy.GcEveryHint` | src/main/java/com/github/rholder/moar/concurrent/HeapQueueingStrategy.java:94-108 | for a positive hint and a non-negative counter, over any call sequence the counter grows by the number of non-null removals, and one collection is requested per multiple of the hint passed; `k` removals from a fresh strategy give `k / dequeueHint` requests |
| `StrategicQueue.InnerStep` | src/main/java/com/github/rholder/moar/concurrent/WrappedBlockingQueue.java:38-135 | the wrapped FIFO: a successful insertion appends, a removal hands out the head, and a drain returns a prefix; failures leave the queue unchanged. Interrupted `put`, `take` and timed calls throw `InterruptedException`. Full: `add` throws `IllegalStateException`, `offer` is false. Empty: `remove` throws `NoSuchElementException`, `poll` is null. Otherwise every uninterrupted insertion succeeds and every removal returns the head. An uninterrupted `put` on a full queue or `take` on an empty one blocks (reported as `Blocked`), and those are the only calls that block. A drain takes at most `max` elements and stops early only when the queue is empty. Capacity is kept |
| `StrategicQueue.Finally` | src/main/java/com/github/rholder/moar/concurrent/StrategicBlockingQueue.java:42-46 | an exception from the `finally` hook replaces the outcome; otherwise the outcome stands |
| `StrategicQueue.Insert` | src/main/java/com/github/rholder/moar/concurrent/StrategicBlockingQueue.java:39-57 | `put`/`add`: if the before-hook throws, the call stops there; otherwise the insertion runs and then the after-hook, whose exception wins |
| `StrategicQueue.Extract` | src/main/java/com/github/rholder/moar/concurrent/StrategicBlockingQueue.java:59-90 | `take`/`poll`: if the before-hook throws, the call stops there; otherwise the after-remove hook gets the removed element, or null when the removal threw or found nothing |
| `StrategicQueue.Apply` | src/main/java/com/github/rholder/moar/concurrent/StrategicBlockingQueue.java:30-92 | `offer`, timed `offer`, `remove` and `drainTo` act as the wrapped queue alone, with no hook call and no strategy change |
| `StrategicQueue.HooksKeepContents` | src/main/java/com/github/rholder/moar/concurrent/StrategicBlockingQueue.java:39-90 | after any call the queue holds what the delegated operation alone leaves, or is untouched when the before-hook threw |
| `StrategicQueue.AfterHookExactlyOnce` | src/main/java/com/github/rholder/moar/concurrent/StrategicBlockingQueue.java:39-90 | a hooked call that does not block runs exactly one after-hook, last, after the delegated operation; a throwing before-hook means no after-hook; unhooked calls run no hook |
| `StrategicQueue.AfterRemoveSeesResult` | src/main/java/com/github/rholder/moar/concurrent/StrategicBlockingQueue.java:59-90 | when a removal returns, the after-remove hook received exactly the returned element: the old head, or null on an empty queue |
| `StrategicQueue.RunKeepsContents` | src/main/java/com/github/rholder/moar/concurrent/StrategicBlockingQueue.java:30-92 | with before-hooks that never throw, any call sequence leaves the contents the wrapped queue alone would have |
| `HeapQueue.Hooks` | src/main/java/com/github/rholder/moar/concurrent/HeapQueueingStrategy.java:67-108 | the strategy the decorator calls: `onBeforeAdd` and `onAfterRemove` are `HeapQueue.BeforeAdd` and `HeapQueue.AfterRemove`; `onAfterAdd` and `onBeforeRemove` (lines 86-92) return at once with the state unchanged |
| `HeapQueue.BeforeAdd` | src/main/java/com/github/rholder/moar/concurrent/HeapQueueingStrategy.java:67-84 | the heap hook as a strategy hook: it returns after sleeping the delay, or throws `onBeforeAdd`'s exception, with the counter untouched |
| `HeapQueue.AfterRemove` | src/main/java/com/github/rholder/moar/concurrent/HeapQueueingStrategy.java:101-108 | the counter and collection request of `onAfterRemove`; the hook throws iff `onAfterRemove` throws |
| `HeapQueue.InsertionDelays` | src/main/java/com/github/rholder/moar/concurrent/HeapQueueingStrategy.java:67-84 | for a non-negative coefficient `c` (a non-negative `maxDelay`), flow control only delays: at or above the threshold an insertion behaves as on the wrapped queue; below it an uninterrupted insertion sleeps and then behaves the same; an interrupted one throws `RuntimeException` without inserting |
| `HeapQueue.ZeroHintLosesElement` | src/main/java/com/github/rholder/moar/concurrent/HeapQueueingStrategy.java:101-108 | with hint 0 a successful removal takes the head out of the queue, yet the caller gets `ArithmeticException` instead of the element |
| `HeapQueue.CallCounts` | src/main/java/com/github/rholder/moar/concurrent/HeapQueueingStrategy.java:101-108 | for a positive hint and a non-negative counter, one queue call moves the counter by the number of elements handed to the after-hook (at most one), and requests a collection exactly when it lands on a multiple of the hint |
| `HeapQueue.RunCounts` | src/main/java/com/github/rholder/moar/concurrent/HeapQueueingStrategy.java:94-108 | for a positive hint and a non-negative counter, over any sequence of queue calls the collections requested equal the multiples of the hint the counter passed |
| `Balancing.New` | src/main/java/com/github/rholder/moar/concurrent/thread/BalancingThreadPoolExecutor.java:42-65 | `IllegalArgumentException` iff `U` is outside `(0, 1]`, checked before the `NullPointerException` for a missing pool; a fresh executor has averages 1 and 1 and no tracked threads |
| `Balancing.EffectiveWait` | src/main/java/com/github/rholder/moar/concurrent/thread/BalancingThreadPoolExecutor.java:73-76 | the wait is `total - cpu` when that exceeds 100,000,000 ns, and 0 otherwise |
| `Balancing.Target` | src/main/java/com/github/rholder/moar/concurrent/thread/BalancingThreadPoolExecutor.java:78 | the ideal size `N * U * (1 + W/C)`: `N * U` without waiting, and between 0 and `N * (1 + W/C)` for `U` in `(0, 1]` and `W/C >= -1` (monotonicity is `Balancing.TargetMonotone` and `Balancing.BalanceMonotone`) |
| `Balancing.Ratio` | src/main/java/com/github/rholder/moar/concurrent/thread/BalancingThreadPoolExecutor.java:73-78 | `W / C` in `long` division: 0 without significant waiting, the floor of the exact quotient for a positive CPU time, and at most 0 for a negative one |
| `Balancing.Balance` | src/main/java/com/github/rholder/moar/concurrent/thread/BalancingThreadPoolExecutor.java:68-90 | a terminated pool is untouched; a zero average CPU time throws `ArithmeticException`; otherwise core and maximum sizes both become the least integer `>= 1` not below `N*U*(1 + W/C)`, and nothing else changes |
| `Balancing.NoWaitAtMostCpus` | src/main/java/com/github/rholder/moar/concurrent/thread/BalancingThreadPoolExecutor.java:75-79 | without significant waiting the size lies between 1 and the CPU count |
| `Balancing.BalanceMonotone` | src/main/java/com/github/rholder/moar/concurrent/thread/BalancingThreadPoolExecutor.java:71-79 | a larger average total time at the same CPU time never gives a smaller pool |
| `Balancing.Track` | src/main/java/com/github/rholder/moar/concurrent/thread/BalancingThreadPoolExecutor.java:138-150 | an untracked thread gets `(1, totalTime, 0)`; a tracked one counts one more task, each average moves to a value between the old average and the new sample, and `n * new` is within `n` of `(n - 1) * old + sample`, the exact cumulative moving average (via `Balancing.MovingAverage`) |
| `Balancing.MovingAverage` | src/main/java/com/github/rholder/moar/concurrent/thread/BalancingThreadPoolExecutor.java:146-149 | the truncated update is within one unit per task of the exact cumulative moving average, and exact when the difference divides evenly |
| `Balancing.RunTask` | src/main/java/com/github/rholder/moar/concurrent/thread/BalancingThreadPoolExecutor.java:126-154 | the command's exception passes through; only the running thread's entry changes; every entry keeps a task count of at least 1 |
| `Balancing.Collect` | src/main/java/com/github/rholder/moar/concurrent/thread/BalancingThreadPoolExecutor.java:164-181 | dead threads' entries are dropped; with no live thread both averages are unchanged; entries stay valid |
| `Balancing.CollectPass` | src/main/java/com/github/rholder/moar/concurrent/thread/BalancingThreadPoolExecutor.java:164-181 | the collector loop over the snapshot computes exactly `Collect` |
| `Balancing.CollectMeanBetween` | src/main/java/com/github/rholder/moar/concurrent/thread/BalancingThreadPoolExecutor.java:178-181 | the published averages are means: they lie within any range that holds every live thread's averages |
| `Balancing.ZeroCpuReachable` | src/main/java/com/github/rholder/moar/concurrent/thread/BalancingThreadPoolExecutor.java:138-144 | a fresh executor whose only thread finished one task publishes an average CPU time of 0 on the next collector pass, and the next `balance()` throws `ArithmeticException` |

## Left out

- Java `long`/`int` overflow: partition bounds, nanosecond times, sums in the collector and the counter are unbounded integers. The `(int)` cast of the pool size does not saturate.
- Floating point: `U`, `c` and the delay products are exact reals, so float and double rounding are not modelled. NaN is not modelled either. In the source it fails both comparisons of the heap constructor's guard, so NaN is the one fraction that makes that constructor throw; it passes the executor constructor's guard.
- Parts.Among: requires `Terminates` (`c > 0` or `L <= c`). On other inputs the source loop never exits; `Parts.LoopNeverExits` states this instead of modelling divergence.
- HeapStrategy.Coefficient: a zero threshold makes the source's `c` infinite or NaN. The model records 0.0 there, which no delay reads.
- Sleeping takes no time in the model: `onBeforeAdd` reports its delay, and timed `offer`/`poll` give their timeout result at once. Waiting for another thread is reported as `Blocked`.
- HeapQueue.RunCounts: the free heap and interrupt status the heap hook reads are fixed for a whole run. The counting property does not depend on them.
- Concurrency is not modelled:
  - the `ConcurrentHashMap` and the `volatile` fields;
  - other threads changing the queue during a call;
  - the non-atomic `dequeued++` under concurrent removers.
- The collector thread's sleep/loop/interrupt/`printStackTrace` plumbing is left out; the model runs one averaging pass over a snapshot. `System.out` debugging output in `balance()` is left out too.
- The wrapped queue's read-only and bulk pass-throughs are left out: `element`, `peek`, `size`, `isEmpty`, `contains`, `containsAll`, `iterator`, `toArray`, `remainingCapacity`, `remove(Object)`, `addAll`, `removeAll`, `retainAll` and `clear`. Like the modelled `drainTo`, they call no hook.
- Null elements, which every `BlockingQueue` rejects with `NullPointerException`, are not modelled.
- Pool setters: `setCorePoolSize`/`setMaximumPoolSize` always succeed in the model. Java 9 and later reject a core size above the current maximum, so growing the pool there throws `IllegalArgumentException` from `balance()`.
- The executor's delegating lifecycle methods (`shutdown`, `awaitTermination`, …) are left out: the terminated flag is an input.
- Left out as a whole:
  - `StreamingIterator`, `Spigot`, `Drain` and `CallerBlocksPolicy`;
  - `MXBeanThreadProfiler`;
  - the factories in `StrategicQueues`, `QueueingStrategies` and `StrategicExecutors`.

  `StrategicExecutors` calls a five-argument executor constructor with a smoothing weight and a balance-after count that the modelled class does not have.
- The code clamps the pool size only from below, at 1, and keeps plain cumulative moving averages: there is no upper clamp and no smoothing weight, and the model has neither.
- Wall-clock assertions of the heap strategy test are left out.

## Findings

| source | as written | input that shows it | evidently intended | confidence | as-written member | corrected member |
|---|---|---|---|---|---|---|
| src/main/java/com/github/rholder/moar/concurrent/HeapQueueingStrategy.java:47 | `f > 0.0 \|\| f <= 1.0` is true for every non-NaN fraction, so the "Range must be between 0.0 and 1.0" exception is thrown only for NaN and every out-of-range number is accepted | `f = 2.0` on a 1000-byte heap gives threshold 2000; `f = -0.5` gives threshold -500 | accept exactly `0.0 < f <= 1.0` (`&&`), otherwise throw `RuntimeException`, as the guard's message "Range must be between 0.0 and 1.0" (lines 47-51) and the parameter's name `percentOfHeapBeforeFlowControl` say. Against this: src/test/java/com/github/rholder/moar/concurrent/HeapQueueingStrategyTest.java:33-45 passes `currentPercentFree + 0.10` right after a collection, which exceeds 1.0 when more than 90% of the heap is free, so that test relies on the as-written acceptance | medium; not executed | `HeapStrategy.NewAsWritten` (with `HeapStrategy.GuardAcceptsOutOfRange`) | `HeapStrategy.New` |
