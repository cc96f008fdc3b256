/** Numeric range partitioning: `Parts.among` / `Parts.between` split an integer
    range into inclusive chunks of a fixed size, the last one possibly shorter,
    returned as `Part` tuples. */
module Parts {
  import opened Lang

  /** An inclusive range of values `[start, end]`. */
  datatype Part = Part(start: int, end: int) {
    /** How many values the part covers, `(end - start) + 1`. */
    function Size(): int { end - start + 1 }
  }

  /** The inputs for which the do-while loop of `among` exits: a positive chunk size
      advances the loop variable towards the total length, and otherwise the loop
      only stops if its first test already fails. */
  predicate Terminates(totalLength: int, chunkSize: int) {
    chunkSize > 0 || totalLength <= chunkSize
  }

  /** The part the loop emits while its counter is `i`, i.e. its local start is
      `i * chunkSize` and its local end is one below the next start or the total
      length, whichever comes first. */
  function PartAt(offset: int, totalLength: int, chunkSize: int, i: nat): Part {
    var start := i * chunkSize;
    Part(start + offset, Min(start + chunkSize, totalLength) - 1 + offset)
  }

  /** A part emitted while the counter's start lies below the total length holds
      between 1 and `chunkSize` values, and exactly `chunkSize` when the next start
      is still within the length. */
  lemma PartAtSize(offset: int, totalLength: int, chunkSize: int, i: nat)
    ensures chunkSize > 0 && i * chunkSize < totalLength ==>
      1 <= PartAt(offset, totalLength, chunkSize, i).Size() <= chunkSize
    ensures (i + 1) * chunkSize <= totalLength ==> PartAt(offset, totalLength, chunkSize, i).Size() == chunkSize
  {
    MulStep(i, chunkSize);
  }

  /** The loop from counter `i` on: emit the current part, advance the counter, and
      continue while the new start lies below the total length. The result has one
      part per iteration: every iteration after the first started below the total
      length, and the iteration after the last one would not have. */
  function Emit(offset: int, totalLength: int, chunkSize: int, i: nat): (ps: seq<Part>)
    requires chunkSize > 0 || (i == 0 && totalLength <= chunkSize)
    decreases if chunkSize > 0 then totalLength - i * chunkSize else 0
    ensures |ps| >= 1
    ensures forall k :: 0 <= k < |ps| ==> ps[k] == PartAt(offset, totalLength, chunkSize, i + k)
    ensures forall k :: 1 <= k < |ps| ==> ps[k].start < offset + totalLength
    ensures (i + |ps|) * chunkSize >= totalLength
  {
    MulStep(i, chunkSize);
    var next := (i + 1) * chunkSize;
    if next < totalLength then
      var rest := Emit(offset, totalLength, chunkSize, i + 1);
      assert forall k :: 1 <= k < |rest| + 1 ==> ([PartAt(offset, totalLength, chunkSize, i)] + rest)[k] == rest[k - 1];
      [PartAt(offset, totalLength, chunkSize, i)] + rest
    else
      [PartAt(offset, totalLength, chunkSize, i)]
  }

  /** `among(offset, totalLength, chunkSize)`: the parts of
      `[offset, offset + totalLength - 1]`, part `k` starting at
      `offset + k * chunkSize`. The result is never empty, since the loop emits a
      part before its first test. */
  function Among(offset: int, totalLength: int, chunkSize: int): (ps: seq<Part>)
    requires Terminates(totalLength, chunkSize)
    ensures |ps| >= 1
    ensures ps[0].start == offset
    ensures forall k :: 0 <= k < |ps| ==> ps[k].start == offset + k * chunkSize
  {
    Emit(offset, totalLength, chunkSize, 0)
  }

  /** `among(totalLength, chunkSize)`: the same partition with no offset, so the
      parts cover `[0, totalLength - 1]`. */
  function AmongFromZero(totalLength: int, chunkSize: int): (ps: seq<Part>)
    requires Terminates(totalLength, chunkSize)
    ensures |ps| >= 1 && ps[0].start == 0 && ps[|ps| - 1].end == totalLength - 1
  {
    AmongCoversRange(0, totalLength, chunkSize);
    Among(0, totalLength, chunkSize)
  }

  /** `between(start, end, chunkSize)`: the parts of the inclusive range
      `[start, end]`, i.e. a partition of length `end - start + 1` at offset
      `start`. */
  function Between(start: int, end: int, chunkSize: int): (ps: seq<Part>)
    requires Terminates(end - start + 1, chunkSize)
    ensures |ps| >= 1 && ps[0].start == start && ps[|ps| - 1].end == end
  {
    AmongCoversRange(start, end - start + 1, chunkSize);
    Among(start, end - start + 1, chunkSize)
  }

  /** Consecutive parts are adjacent (each starts one past the previous end), and
      every part but the last covers exactly `chunkSize` values. */
  lemma AmongContiguous(offset: int, totalLength: int, chunkSize: int)
    requires Terminates(totalLength, chunkSize)
    ensures var ps := Among(offset, totalLength, chunkSize);
      forall k :: 0 <= k < |ps| - 1 ==> ps[k].Size() == chunkSize && ps[k + 1].start == ps[k].end + 1
  {
    var ps := Among(offset, totalLength, chunkSize);
    forall k | 0 <= k < |ps| - 1
      ensures ps[k].Size() == chunkSize && ps[k + 1].start == ps[k].end + 1
    {
      assert ps[k] == PartAt(offset, totalLength, chunkSize, k);
      assert ps[k + 1] == PartAt(offset, totalLength, chunkSize, k + 1);
      MulStep(k, chunkSize);
      assert ps[k + 1].start < offset + totalLength;
    }
  }

  /** The last part ends at `offset + totalLength - 1`. For a positive length it
      covers between 1 and `chunkSize` values; for a length of zero or less the
      single part is `(offset, offset + totalLength - 1)`. */
  lemma AmongCoversRange(offset: int, totalLength: int, chunkSize: int)
    requires Terminates(totalLength, chunkSize)
    ensures var ps := Among(offset, totalLength, chunkSize);
      && ps[|ps| - 1].end == offset + totalLength - 1
      && (totalLength > 0 ==> 1 <= ps[|ps| - 1].Size() <= chunkSize)
      && (totalLength <= 0 ==> ps == [Part(offset, offset + totalLength - 1)])
  {
    var ps := Among(offset, totalLength, chunkSize);
    var n := |ps|;
    assert ps[n - 1] == PartAt(offset, totalLength, chunkSize, n - 1);
    MulStep(n - 1, chunkSize);
    assert (n - 1) * chunkSize + chunkSize >= totalLength;
    if totalLength > 0 {
      if n > 1 {
        assert ps[n - 1].start < offset + totalLength;
      }
    }
  }

  /** For a positive chunk size and length there are `ceil(totalLength / chunkSize)`
      parts. */
  lemma AmongCount(offset: int, totalLength: int, chunkSize: int)
    requires chunkSize > 0 && totalLength > 0
    ensures |Among(offset, totalLength, chunkSize)| == (totalLength + chunkSize - 1) / chunkSize
  {
    var n := |Among(offset, totalLength, chunkSize)|;
    var q := (totalLength - 1) / chunkSize;
    DivBounds(totalLength - 1, chunkSize);
    MulStep(q, chunkSize);
    DivUnique(totalLength + chunkSize - 1, chunkSize, q + 1);
    CountBounds(offset, totalLength, chunkSize);
    StepCountUnique(n - 1, q, totalLength, chunkSize);
  }

  /** When the chunk size divides the length, the last part is a full chunk: there
      is no trailing short part. */
  lemma AmongAligned(offset: int, totalLength: int, chunkSize: int)
    requires chunkSize > 0 && totalLength > 0 && totalLength % chunkSize == 0
    ensures var ps := Among(offset, totalLength, chunkSize);
      ps[|ps| - 1].Size() == chunkSize
  {
    var ps := Among(offset, totalLength, chunkSize);
    var n := |ps|;
    var m := totalLength / chunkSize;
    DivBounds(totalLength, chunkSize);
    assert totalLength == m * chunkSize;
    MulStep(m - 1, chunkSize);
    CountBounds(offset, totalLength, chunkSize);
    StepCountUnique(n - 1, m - 1, totalLength, chunkSize);
    AmongCoversRange(offset, totalLength, chunkSize);
    assert ps[n - 1].start == offset + (n - 1) * chunkSize;
  }

  /** The last loop counter `n - 1` satisfies `(n - 1) * c < L <= n * c`. */
  lemma CountBounds(offset: int, totalLength: int, chunkSize: int)
    requires chunkSize > 0 && totalLength > 0
    ensures var n := |Among(offset, totalLength, chunkSize)|;
      (n - 1) * chunkSize < totalLength <= (n - 1) * chunkSize + chunkSize
  {
    var ps := Among(offset, totalLength, chunkSize);
    var n := |ps|;
    MulStep(n - 1, chunkSize);
    if n > 1 {
      assert ps[n - 1].start < offset + totalLength;
    }
  }

  /** At most one counter `a` has `a * c < L <= a * c + c`. */
  lemma StepCountUnique(a: int, b: int, totalLength: int, chunkSize: int)
    requires chunkSize > 0
    requires a * chunkSize < totalLength <= a * chunkSize + chunkSize
    requires b * chunkSize < totalLength <= b * chunkSize + chunkSize
    ensures a == b
  {
    if a < b {
      MulMonotone(a + 1, b, chunkSize);
      MulStep(a, chunkSize);
    } else if b < a {
      MulMonotone(b + 1, a, chunkSize);
      MulStep(b, chunkSize);
    }
  }

  /** An independent description of a partition of `[offset, offset + L - 1]` into
      chunks of `c`: it starts at `offset`, ends at `offset + L - 1`, consecutive
      parts are adjacent, every part but the last has exactly `c` values and the
      last has between 1 and `c`. */
  predicate Tiles(ps: seq<Part>, offset: int, totalLength: int, chunkSize: int) {
    && |ps| > 0
    && ps[0].start == offset
    && ps[|ps| - 1].end == offset + totalLength - 1
    && 1 <= ps[|ps| - 1].Size() <= chunkSize
    && (forall k :: 0 <= k < |ps| - 1 ==> ps[k].Size() == chunkSize)
    && (forall k :: 0 <= k < |ps| - 1 ==> ps[k + 1].start == ps[k].end + 1)
  }

  /** For a positive length, `among` is a tiling in the sense of `Tiles`, and it is
      the only one: any sequence of parts satisfying `Tiles` equals it. */
  lemma AmongIsTheTiling(ps: seq<Part>, offset: int, totalLength: int, chunkSize: int)
    requires chunkSize > 0 && totalLength > 0
    ensures Tiles(Among(offset, totalLength, chunkSize), offset, totalLength, chunkSize)
    ensures Tiles(ps, offset, totalLength, chunkSize) ==> ps == Among(offset, totalLength, chunkSize)
  {
    AmongContiguous(offset, totalLength, chunkSize);
    AmongCoversRange(offset, totalLength, chunkSize);
    if Tiles(ps, offset, totalLength, chunkSize) {
      TilingUnique(ps, offset, totalLength, chunkSize);
    }
  }

  lemma TilingStarts(ps: seq<Part>, offset: int, totalLength: int, chunkSize: int, k: nat)
    requires Tiles(ps, offset, totalLength, chunkSize)
    requires k < |ps|
    ensures ps[k].start == offset + k * chunkSize
  {
    if k > 0 {
      TilingStarts(ps, offset, totalLength, chunkSize, k - 1);
      MulStep(k - 1, chunkSize);
      assert ps[k].start == ps[k - 1].end + 1;
    }
  }

  lemma TilingUnique(ps: seq<Part>, offset: int, totalLength: int, chunkSize: int)
    requires chunkSize > 0 && totalLength > 0
    requires Tiles(ps, offset, totalLength, chunkSize)
    ensures ps == Among(offset, totalLength, chunkSize)
  {
    var qs := Among(offset, totalLength, chunkSize);
    var n := |ps|;
    TilingStarts(ps, offset, totalLength, chunkSize, n - 1);
    MulStep(n - 1, chunkSize);
    CountBounds(offset, totalLength, chunkSize);
    MulStep(|qs| - 1, chunkSize);
    StepCountUnique(n - 1, |qs| - 1, totalLength, chunkSize);
    forall k | 0 <= k < n
      ensures ps[k] == qs[k]
    {
      TilingStarts(ps, offset, totalLength, chunkSize, k);
      assert qs[k] == PartAt(offset, totalLength, chunkSize, k);
      MulStep(k, chunkSize);
      if k < n - 1 {
        MulMonotone(k + 1, n - 1, chunkSize);
        assert ps[k].Size() == chunkSize;
      }
    }
  }

  /** The loop never exits when `Terminates` fails: from the second test on, the
      start `i * chunkSize` never reaches the total length (with a zero chunk size it
      stays 0; with a negative one it moves away). */
  lemma LoopNeverExits(totalLength: int, chunkSize: int, i: nat)
    requires !Terminates(totalLength, chunkSize)
    requires i >= 1
    ensures i * chunkSize < totalLength
  {
    assert i * chunkSize - chunkSize == (i - 1) * chunkSize;
    assert (i - 1) * (-chunkSize) >= 0;
  }

  /** The do-while loop of `among(offset, totalLength, chunkSize)`, written as in the
      source; it returns exactly the partition `Among` describes. */
  method AmongLoop(offset: int, totalLength: int, chunkSize: int) returns (parts: seq<Part>)
    requires Terminates(totalLength, chunkSize)
    ensures parts == Among(offset, totalLength, chunkSize)
  {
    ghost var whole := Among(offset, totalLength, chunkSize);
    parts := [];
    var i: nat := 0;
    var start := 0;
    var end := Min(start + chunkSize, totalLength) - 1;
    while true
      invariant chunkSize > 0 || i == 0
      invariant start == i * chunkSize
      invariant end == Min(start + chunkSize, totalLength) - 1
      invariant |parts| == i
      invariant parts + Emit(offset, totalLength, chunkSize, i) == whole
      decreases |whole| - i
    {
      ghost var rest := Emit(offset, totalLength, chunkSize, i);
      assert rest[0] == Part(start + offset, end + offset);
      parts := parts + [Part(start + offset, end + offset)];
      i := i + 1;
      start := i * chunkSize;
      end := Min(start + chunkSize, totalLength) - 1;
      if !(start < totalLength) {
        assert rest == [rest[0]];
        break;
      }
      assert rest == [rest[0]] + Emit(offset, totalLength, chunkSize, i);
    }
  }

  /** The documented example of `among` with an offset:
      `among(23, 21, 10)` is `[23, 32], [33, 42], [43, 43]`. */
  lemma ExampleWithOffset()
    ensures Among(23, 21, 10) == [Part(23, 32), Part(33, 42), Part(43, 43)]
  {
  }

  /** `between(23, 43, 10)` gives the same three parts as `among(23, 21, 10)`. */
  lemma ExampleBetween()
    ensures Between(23, 43, 10) == [Part(23, 32), Part(33, 42), Part(43, 43)]
  {
    ExampleWithOffset();
    assert Between(23, 43, 10) == Among(23, 21, 10);
  }

  /** The aligned `between(23, 42, 10)` gives two full parts. */
  lemma ExampleBetweenAligned()
    ensures Between(23, 42, 10) == [Part(23, 32), Part(33, 42)]
  {
    assert Among(23, 20, 10) == [Part(23, 32), Part(33, 42)];
    assert Between(23, 42, 10) == Among(23, 20, 10);
  }

  /** The documented example of `among(73, 22)`, `[0, 21], [22, 43], [44, 65], [66, 72]`. */
  lemma ExampleOddParts()
    ensures AmongFromZero(73, 22) == [Part(0, 21), Part(22, 43), Part(44, 65), Part(66, 72)]
  {
  }

  /** Aligned and short lengths: no trailing single-value part when the chunk size
      divides the length, one when it leaves a remainder of one, and a single part
      when the length is at most one chunk. */
  lemma ExampleAligned()
    ensures AmongFromZero(26, 13) == [Part(0, 12), Part(13, 25)]
    ensures AmongFromZero(27, 13) == [Part(0, 12), Part(13, 25), Part(26, 26)]
    ensures AmongFromZero(17, 30) == [Part(0, 16)]
    ensures AmongFromZero(17, 17) == [Part(0, 16)]
  {
  }
}
