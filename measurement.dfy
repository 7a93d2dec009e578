/** `src/measurement.py`: mapping a pixel through the ground-plane
    homography, and the Euclidean distance between two ground points.

    Coordinates are exact reals here; the source computes in float32 and
    float64. Dafny has no real square root, so `calculate_distance` is
    specified by the relation IsDistance (its result is the non-negative
    number whose square is dx² + dy²) rather than computed. */
module Measurement {
  import opened Common

  /** A point of the image or of the ground plane, as a pair of reals. */
  datatype Vec2 = Vec2(x: real, y: real)

  /** H is a 3×3 matrix (the measurement script rejects any other shape
      before it maps a point). */
  predicate Is3x3(H: seq<seq<real>>)
  {
    |H| == 3 && forall i :: 0 <= i < 3 ==> |H[i]| == 3
  }

  /** Component i of `H · (x, y, 1)ᵀ`. */
  function Row(H: seq<seq<real>>, p: Vec2, i: int): real
    requires Is3x3(H) && 0 <= i < 3
  {
    H[i][0] * p.x + H[i][1] * p.y + H[i][2]
  }

  /** `pixel_to_real_world`: the homogeneous image of p, divided by its
      weight; a zero weight raises ValueError. */
  function PixelToRealWorld(p: Vec2, H: seq<seq<real>>): (r: Result<Vec2, Error>)
    requires Is3x3(H)
    ensures r.Err? <==> Row(H, p, 2) == 0.0
    ensures r.Err? ==> r.error == ValueError
    ensures r.Ok? ==> r.value.x * Row(H, p, 2) == Row(H, p, 0) && r.value.y * Row(H, p, 2) == Row(H, p, 1)
  {
    var w0, w1, w2 := Row(H, p, 0), Row(H, p, 1), Row(H, p, 2);
    if w2 == 0.0 then Err(ValueError) else Ok(Vec2(w0 / w2, w1 / w2))
  }

  const Identity: seq<seq<real>> := [[1.0, 0.0, 0.0], [0.0, 1.0, 0.0], [0.0, 0.0, 1.0]]

  /** H with every entry multiplied by c. */
  function Scale(H: seq<seq<real>>, c: real): (S: seq<seq<real>>)
    requires Is3x3(H)
    ensures Is3x3(S) && forall i, j :: 0 <= i < 3 && 0 <= j < 3 ==> S[i][j] == c * H[i][j]
  {
    seq(3, i requires 0 <= i < 3 => seq(3, j requires 0 <= j < 3 => c * H[i][j]))
  }

  /** The identity homography maps every pixel to itself. */
  lemma IdentityMapsPointToItself(p: Vec2)
    ensures PixelToRealWorld(p, Identity) == Ok(p)
  {
    assert Row(Identity, p, 2) == 1.0;
  }

  /** A homography is defined up to scale: multiplying H by any non-zero
      constant changes neither whether the mapping fails nor its result. */
  lemma ScaleInvariant(p: Vec2, H: seq<seq<real>>, c: real)
    requires Is3x3(H) && c != 0.0
    ensures PixelToRealWorld(p, Scale(H, c)) == PixelToRealWorld(p, H)
  {
    var S := Scale(H, c);
    var w0, w1, w2 := Row(H, p, 0), Row(H, p, 1), Row(H, p, 2);
    ScaledRow(H, c, p, 0);
    ScaledRow(H, c, p, 1);
    ScaledRow(H, c, p, 2);
    if w2 != 0.0 {
      QuotientCancels(c, w0, w2);
      QuotientCancels(c, w1, w2);
      assert Row(S, p, 0) / Row(S, p, 2) == (c * w0) / (c * w2);
      assert Row(S, p, 1) / Row(S, p, 2) == (c * w1) / (c * w2);
      calc {
        PixelToRealWorld(p, S);
        Ok(Vec2(Row(S, p, 0) / Row(S, p, 2), Row(S, p, 1) / Row(S, p, 2)));
        Ok(Vec2((c * w0) / (c * w2), (c * w1) / (c * w2)));
        Ok(Vec2(w0 / w2, w1 / w2));
        PixelToRealWorld(p, H);
      }
    } else {
      assert Row(S, p, 2) == c * 0.0 == 0.0;
    }
  }

  lemma ScaledRow(H: seq<seq<real>>, c: real, p: Vec2, i: int)
    requires Is3x3(H) && 0 <= i < 3
    ensures Row(Scale(H, c), p, i) == c * Row(H, p, i)
  {
    var S := Scale(H, c);
    calc {
      Row(S, p, i);
      (c * H[i][0]) * p.x + (c * H[i][1]) * p.y + c * H[i][2];
      c * (H[i][0] * p.x + H[i][1] * p.y + H[i][2]);
    }
  }

  lemma QuotientCancels(c: real, a: real, b: real)
    requires c != 0.0 && b != 0.0
    ensures c * b != 0.0
    ensures (c * a) / (c * b) == a / b
  {
    var q := a / b;
    assert a == q * b;
    assert c * a == q * (c * b);
  }
  /** `(p1.x - p2.x)**2 + (p1.y - p2.y)**2`. */
  function SquaredDistance(p: Vec2, q: Vec2): (d2: real)
    ensures d2 >= 0.0
  {
    var dx, dy := p.x - q.x, p.y - q.y;
    assert dx * dx >= 0.0 && dy * dy >= 0.0;
    dx * dx + dy * dy
  }

  /** d is what `calculate_distance(p, q)` returns: `math.sqrt` of the
      squared distance, the non-negative number whose square it is. */
  predicate IsDistance(p: Vec2, q: Vec2, d: real)
  {
    d >= 0.0 && d * d == SquaredDistance(p, q)
  }

  /** The distance is determined: two non-negative square roots agree. */
  lemma DistanceUnique(p: Vec2, q: Vec2, d1: real, d2: real)
    requires IsDistance(p, q, d1) && IsDistance(p, q, d2)
    ensures d1 == d2
  {
    SquareRootUnique(d1, d2);
  }

  lemma SquareRootUnique(d1: real, d2: real)
    requires d1 >= 0.0 && d2 >= 0.0 && d1 * d1 == d2 * d2
    ensures d1 == d2
  {
    var sum, diff := d1 + d2, d1 - d2;
    assert diff * sum == d1 * d1 - d2 * d2 == 0.0;
    if sum == 0.0 {
      assert d1 == 0.0 && d2 == 0.0;
    } else {
      // A product is zero only if a factor is: divide by the non-zero sum.
      assert diff == (diff * sum) / sum == 0.0 / sum == 0.0;
    }
  }

  /** Two squares add up to zero only when both numbers are zero. */
  lemma SumOfSquaresZero(x: real, y: real)
    requires x * x + y * y == 0.0
    ensures x == 0.0 && y == 0.0
  {
    assert x * x >= 0.0 && y * y >= 0.0;
    assert x * x == 0.0 * 0.0 && (-x) * (-x) == 0.0 * 0.0;
    assert y * y == 0.0 * 0.0 && (-y) * (-y) == 0.0 * 0.0;
    if x >= 0.0 { SquareRootUnique(x, 0.0); } else { SquareRootUnique(-x, 0.0); }
    if y >= 0.0 { SquareRootUnique(y, 0.0); } else { SquareRootUnique(-y, 0.0); }
  }

  /** The distance is zero exactly between identical points. */
  lemma DistanceZeroIffSamePoint(p: Vec2, q: Vec2, d: real)
    requires IsDistance(p, q, d)
    ensures d == 0.0 <==> p == q
  {
    if d == 0.0 {
      assert d * d == 0.0;
      SumOfSquaresZero(p.x - q.x, p.y - q.y);
    }
    if p == q {
      assert SquaredDistance(p, q) == 0.0 * 0.0;
      SquareRootUnique(d, 0.0);
    }
  }

  /** The distance does not depend on the order of the two points. */
  lemma DistanceSymmetric(p: Vec2, q: Vec2, d: real)
    ensures IsDistance(p, q, d) <==> IsDistance(q, p, d)
  {
    assert (p.x - q.x) * (p.x - q.x) == (q.x - p.x) * (q.x - p.x);
    assert (p.y - q.y) * (p.y - q.y) == (q.y - p.y) * (q.y - p.y);
  }

  /** The ground points (0,0) and (3,4) are exactly 5 apart. */
  lemma DistanceThreeFourFive(d: real)
    requires IsDistance(Vec2(0.0, 0.0), Vec2(3.0, 4.0), d)
    ensures d == 5.0
  {
    assert IsDistance(Vec2(0.0, 0.0), Vec2(3.0, 4.0), 5.0);
    DistanceUnique(Vec2(0.0, 0.0), Vec2(3.0, 4.0), d, 5.0);
  }
}
