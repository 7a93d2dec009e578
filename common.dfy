/** Shared vocabulary of the lane-distance model: optional values, results
    with the Python exception kinds the core raises, pixel points, the
    configuration surface, and Python's `round` (half to even). */
module Common {

  datatype Option<+T> = None | Some(value: T)

  /** A value or the exception the Python code raises instead. */
  datatype Result<+T, +E> = Ok(value: T) | Err(error: E)

  /** The exception classes raised by the modelled core. */
  datatype Error = ValueError | RuntimeError | FileNotFoundError | AttributeError | TypeError

  /** A pixel position (column x, row y); rows grow downwards in the image. */
  datatype Point = Point(x: int, y: int)

  /** The named configuration values the core reads. The segmentation
      settings (blur kernel, threshold block, contour filter, morphology
      kernel) belong to the mask pipeline, which is not modelled. */
  datatype Config = Config(
    lanePointMode: string,
    wheelOffsetCm: real,
    columnWidth: nat,
    minLaneWidth: int,
    maxJump: int)

  /** The defaults `src/config.py` falls back to when a key is missing. */
  const DefaultConfig: Config := Config("far", 91.7, 5, 15, 30)

  function Abs(x: int): (r: nat)
    ensures r == x || r == -x
  {
    if x < 0 then -x else x
  }

  function Min(a: int, b: int): (r: int)
    ensures r <= a && r <= b && (r == a || r == b)
  {
    if a <= b then a else b
  }

  function Max(a: int, b: int): (r: int)
    ensures r >= a && r >= b && (r == a || r == b)
  {
    if a >= b then a else b
  }

  /** Python's `round(n / d)` for a positive divisor: the integer nearest to
      the exact quotient, an exact half going to the even neighbour. */
  function RoundHalfEven(n: int, d: int): (r: int)
    requires d > 0
    ensures 2 * Abs(r * d - n) <= d
    ensures 2 * Abs(r * d - n) == d ==> r % 2 == 0
  {
    var q, rem := n / d, n % d;
    assert n == q * d + rem;
    if 2 * rem < d then q
    else if 2 * rem > d then q + 1
    else if q % 2 == 0 then q
    else q + 1
  }

  /** The two properties of RoundHalfEven pin its value down. */
  lemma RoundHalfEvenUnique(n: int, d: int, r: int)
    requires d > 0
    requires 2 * Abs(r * d - n) <= d
    requires 2 * Abs(r * d - n) == d ==> r % 2 == 0
    ensures r == RoundHalfEven(n, d)
  {
    RoundedUnique(n, d, r, RoundHalfEven(n, d));
  }

  /** Two integers that both round n/d half to even are equal. */
  lemma RoundedUnique(n: int, d: int, r: int, q: int)
    requires d > 0
    requires 2 * Abs(r * d - n) <= d && (2 * Abs(r * d - n) == d ==> r % 2 == 0)
    requires 2 * Abs(q * d - n) <= d && (2 * Abs(q * d - n) == d ==> q % 2 == 0)
    ensures r == q
  {
    var a, b := r * d - n, q * d - n;
    assert a - b == (r - q) * d by { assert r * d - q * d == (r - q) * d; }
    // Either r == q, or a and b sit at exactly d/2 on either side of n, so
    // both r and q would be even although they are neighbours.
    NeighbourQuotients(a, b, r - q, d);
  }

  /** Two offsets within half a divisor of zero whose difference is a
      multiple k of the divisor: either k is 0, or k is 1 or -1 and both
      offsets are exactly half the divisor. */
  lemma NeighbourQuotients(a: int, b: int, k: int, d: int)
    requires d > 0 && 2 * Abs(a) <= d && 2 * Abs(b) <= d && a - b == k * d
    ensures k == 0 || ((k == 1 || k == -1) && 2 * Abs(a) == d && 2 * Abs(b) == d)
  {
    MultipleAtLeastTwice(k, d);
  }

  lemma MultipleAtLeastTwice(k: int, d: int)
    requires d > 0
    ensures Abs(k) >= 2 ==> Abs(k * d) >= 2 * d
  {
    if k >= 2 {
      assert k * d >= 2 * d;
    } else if k <= -2 {
      assert (-k) * d >= 2 * d;
    }
  }
}
