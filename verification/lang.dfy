/** Java-level vocabulary shared by the model: the exceptions the modelled code can
    raise, an Option/Result pair for error paths, and the integer and rounding
    operations whose Java semantics differ from Dafny's built-in ones. */
module Lang {

  /** The exceptions the modelled classes throw or let through. */
  datatype Exc =
    | InterruptedException
    /** A `RuntimeException` wrapping an interruption (the heap strategy's sleep). */
    | RuntimeException
    | IllegalArgumentException
    | IllegalStateException
    | NullPointerException
    | NoSuchElementException
    | ArithmeticException
    /** Whatever a submitted task itself throws. */
    | TaskFailure

  datatype Option<+T> = None | Some(value: T)

  datatype Result<+T> = Success(value: T) | Failure(exc: Exc)

  function Abs(x: int): nat { if x < 0 then -x else x }

  function Max(a: int, b: int): int { if a >= b then a else b }

  function Min(a: int, b: int): int { if a <= b then a else b }

  /** Java's `/` on `long`: the quotient rounded toward zero (Dafny's `/` is
      Euclidean). A zero divisor is the caller's `ArithmeticException`. */
  function Quot(a: int, b: int): (q: int)
    requires b != 0
    ensures Abs(q) == Abs(a) / Abs(b)
    ensures (a >= 0) == (b > 0) ==> q >= 0
    ensures (a >= 0) != (b > 0) ==> q <= 0
  {
    var m := Abs(a) / Abs(b);
    DivNonNegative(Abs(a), Abs(b));
    if (a >= 0) == (b > 0) then m else -m
  }

  lemma DivNonNegative(x: int, y: int)
    requires x >= 0 && y > 0
    ensures x / y >= 0
  {
  }

  /** Java's `%` on `long`: the remainder that goes with `Quot`, carrying the sign of
      the dividend; on a non-negative dividend and a positive divisor it is the
      ordinary remainder. */
  function Rem(a: int, b: int): (r: int)
    requires b != 0
    ensures a >= 0 && b > 0 ==> r == a % b
  {
    a - Quot(a, b) * b
  }

  lemma MulStep(i: int, c: int)
    ensures (i + 1) * c == i * c + c
  {
  }

  lemma MulMonotone(a: int, b: int, c: int)
    requires a <= b && c > 0
    ensures a * c <= b * c
  {
    assert b * c - a * c == (b - a) * c;
  }

  lemma DivBounds(x: int, c: int)
    requires c > 0
    ensures (x / c) * c <= x < (x / c) * c + c
    ensures x % c == 0 ==> x == (x / c) * c
  {
  }

  lemma DivUnique(x: int, c: int, q: int)
    requires c > 0
    requires q * c <= x < q * c + c
    ensures x / c == q
  {
    var d := x / c;
    assert x == d * c + x % c && 0 <= x % c < c;
    MulStep(d, c);
    MulStep(q, c);
    if d < q {
      MulMonotone(d + 1, q, c);
    } else if q < d {
      MulMonotone(q + 1, d, c);
    }
  }

  /** Java's `Math.round` on an exact value: the nearest integer, halves rounded up. */
  function Round(x: real): (r: int)
    ensures r as real - 0.5 <= x < r as real + 0.5
  {
    (x + 0.5).Floor
  }

  /** `Math.ceil` on an exact value: the least integer not below `x`. */
  function Ceil(x: real): (r: int)
    ensures x <= r as real < x + 1.0
  {
    -((-x).Floor)
  }

  lemma RoundMonotone(x: real, y: real)
    requires x <= y
    ensures Round(x) <= Round(y)
  {
  }

  lemma CeilMonotone(x: real, y: real)
    requires x <= y
    ensures Ceil(x) <= Ceil(y)
  {
  }
}
