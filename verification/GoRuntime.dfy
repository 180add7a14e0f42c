/**
 * The parts of Go's integer and time arithmetic the services depend on.
 * Instants and durations are integers of nanoseconds.
 */
module GoRuntime {

  const MAX_INT64: int := 0x7FFF_FFFF_FFFF_FFFF
  const MIN_INT64: int := -0x8000_0000_0000_0000
  const TWO_64: int := 0x1_0000_0000_0000_0000

  const MICROSECOND: int := 1_000
  const MILLISECOND: int := 1_000_000
  const SECOND: int := 1_000_000_000

  /** time.Time{}: the first of January of year one, seen from the Unix epoch. */
  const ZERO_TIME: int := -62_135_596_800 * SECOND

  /** Go's `/` on integers: the quotient is truncated toward zero. */
  function Quo(a: int, b: int): (q: int)
    requires b > 0
  {
    if a >= 0 then a / b else -((-a) / b)
  }

  /** int64 arithmetic wraps around. */
  function Wrap64(x: int): (r: int)
    ensures MIN_INT64 <= r <= MAX_INT64
    ensures MIN_INT64 <= x <= MAX_INT64 <==> r == x
  {
    (x - MIN_INT64) % TWO_64 + MIN_INT64
  }

  /** time.Time.Sub: the difference saturates at the ends of int64. */
  function Sub(t: int, u: int): (d: int)
    ensures MIN_INT64 <= d <= MAX_INT64
  {
    if t - u > MAX_INT64 then MAX_INT64 else if t - u < MIN_INT64 then MIN_INT64 else t - u
  }

  /** time.Time.UnixMicro counts whole microseconds since the epoch, rounding down. */
  function UnixMicro(t: int): (s: int)
    ensures 1000 * s <= t < 1000 * s + 1000
  {
    t / MICROSECOND
  }

  lemma UnixMicroMonotone(t: int, u: int)
    requires t <= u
    ensures UnixMicro(t) <= UnixMicro(u)
  {}

  ghost predicate Nondecreasing(clock: seq<int>) {
    forall i, j :: 0 <= i <= j < |clock| ==> clock[i] <= clock[j]
  }

  /** Wrapping intermediate results does not change a wrapped sum. */
  lemma WrapSum(x: int, y: int)
    ensures Wrap64(Wrap64(x) + Wrap64(y)) == Wrap64(x + y)
  {
    var a, b := (x - MIN_INT64) / TWO_64, (y - MIN_INT64) / TWO_64;
    assert Wrap64(x) == x - a * TWO_64 && Wrap64(y) == y - b * TWO_64;
    WrapShift(Wrap64(x) + Wrap64(y), a + b);
  }

  lemma WrapShift(x: int, k: int)
    ensures Wrap64(x + k * TWO_64) == Wrap64(x)
  {
    var z := x - MIN_INT64;
    var q := z / TWO_64;
    assert z + k * TWO_64 == (q + k) * TWO_64 + z % TWO_64;
  }

  lemma MulMonotone(a: int, b: int, c: int)
    requires a <= b && c >= 0
    ensures a * c <= b * c
  {}

  lemma MulSum(t: int, a: int, b: int)
    ensures t * (a + b) == t * a + t * b
  {}

  /** The quotient counts how often b goes into the size of a, and takes the sign of a. */
  lemma QuoTruncates(a: int, b: int)
    requires b > 0
    ensures a >= 0 ==> 0 <= Quo(a, b) * b <= a < Quo(a, b) * b + b
    ensures a <= 0 ==> Quo(a, b) == -Quo(-a, b)
  {
    if a >= 0 {
      var q := a / b;
      assert a == q * b + a % b;
      MulMonotone(0, q, b);
    }
  }

  /**
   * A truncated quotient of a nonnegative numerator reaches k exactly when the
   * numerator reaches k times the divisor.
   */
  lemma QuoAtLeast(a: int, b: int, k: int)
    requires b > 0 && a >= 0
    ensures Quo(a, b) >= k <==> a >= k * b
  {
    var q := a / b;
    assert a == q * b + a % b;
    if q >= k {
      MulMonotone(k, q, b);
    } else {
      MulMonotone(q + 1, k, b);
    }
  }
}
