/**
 * The colour-distance metric. The program's `delta(c)` (src/Main.tsx:46-47) is
 *   100 * 1/255 * 1/sqrt(3) * sqrt(squared Euclidean distance to the target),
 * a per-cent scale on which the farthest pair of colours is at 100. Square
 * roots are not exact rationals, so the model works with the squared distance
 * and proves that every comparison the program makes on `delta` has the same
 * outcome on it.
 */
module Color {
  import opened Types

  function Sq(x: real): (y: real)
    ensures y >= 0.0
  {
    x * x
  }

  /** Squared Euclidean distance between two colours. */
  function SqDist(a: RGB, b: RGB): (d: real)
    ensures d >= 0.0
  {
    Sq(a.red - b.red) + Sq(a.green - b.green) + Sq(a.blue - b.blue)
  }

  /** (100 * 1/255 * 1/sqrt 3)^2 = 10000 / 195075. */
  const DeltaScaleSq: real := 10000.0 / 195075.0

  /** The square of `delta(c)` for target `target`: nonnegative, and zero exactly at the target. */
  function DeltaSq(target: RGB, c: RGB): (d2: real)
    ensures d2 >= 0.0
    ensures d2 == 0.0 <==> c == target
  {
    SqDistMetric(target, c);
    DeltaScaleSq * SqDist(target, c)
  }

  /**
   * The win threshold on squared distance: `delta < 10` holds exactly when the
   * squared distance is below (25.5 * sqrt 3)^2 = 1950.75.
   */
  const WinSqDist: real := 1950.75

  /** `delta(c) < 10`, the program's tolerance for a win: the squared delta is below 100. */
  predicate CloseEnough(target: RGB, c: RGB): (b: bool)
    ensures b <==> DeltaSq(target, c) < 100.0
  {
    SqDist(target, c) < WinSqDist
  }

  /** `delta(a) <= delta(b)`: the scan's comparison, made on squared deltas. */
  predicate NoFarther(target: RGB, a: RGB, b: RGB): (r: bool)
    ensures r <==> DeltaSq(target, a) <= DeltaSq(target, b)
  {
    SqDist(target, a) <= SqDist(target, b)
  }

  lemma SquareStrict(x: real, y: real)
    requires 0.0 <= x < y
    ensures x * x < y * y
  {
    var d, s := y - x, y + x;
    assert d * s > 0.0;
    assert d * s == y * y - x * x;
  }

  lemma SquareMonotone(x: real, y: real)
    requires x >= 0.0 && y >= 0.0
    ensures x <= y <==> x * x <= y * y
  {
    if x <= y {
      assert x * x <= y * y;
    } else {
      SquareStrict(y, x);
    }
  }

  /**
   * Any nonnegative `da`, `db` whose squares are the squared deltas of `a` and
   * `b` (that is, the program's two `delta` values) are ordered as the squared
   * distances are: comparing `delta` and comparing `SqDist` agree.
   */
  lemma DeltaOrder(target: RGB, a: RGB, b: RGB, da: real, db: real)
    requires da >= 0.0 && da * da == DeltaSq(target, a)
    requires db >= 0.0 && db * db == DeltaSq(target, b)
    ensures da <= db <==> NoFarther(target, a, b)
  {
    SquareMonotone(da, db);
    assert DeltaSq(target, a) <= DeltaSq(target, b) <==> SqDist(target, a) <= SqDist(target, b);
  }

  /** A nonnegative `d` with `d * d` the squared delta is below 10 iff `CloseEnough`. */
  lemma DeltaBelowTen(target: RGB, c: RGB, d: real)
    requires d >= 0.0 && d * d == DeltaSq(target, c)
    ensures d < 10.0 <==> CloseEnough(target, c)
  {
    SquareMonotone(d, 10.0);
    assert d * d == 10.0 * 10.0 <==> d == 10.0 by {
      SquareMonotone(10.0, d);
    }
    assert DeltaSq(target, c) < 100.0 <==> SqDist(target, c) < WinSqDist;
  }

  /** The metric is symmetric and is zero exactly between equal colours. */
  lemma SqDistMetric(a: RGB, b: RGB)
    ensures SqDist(a, b) == SqDist(b, a)
    ensures SqDist(a, b) == 0.0 <==> a == b
  {
    assert Sq(a.red - b.red) == Sq(b.red - a.red);
    assert Sq(a.green - b.green) == Sq(b.green - a.green);
    assert Sq(a.blue - b.blue) == Sq(b.blue - a.blue);
    if SqDist(a, b) == 0.0 {
      ZeroSquare(a.red - b.red);
      ZeroSquare(a.green - b.green);
      ZeroSquare(a.blue - b.blue);
    }
  }

  lemma ZeroSquare(x: real)
    ensures Sq(x) == 0.0 <==> x == 0.0
  {
    if x > 0.0 {
      SquareStrict(0.0, x);
    } else if x < 0.0 {
      SquareStrict(0.0, -x);
      assert (-x) * (-x) == x * x;
    }
  }

  /** Half-strength red is at squared distance 16256.25 from black (delta about 28.87). */
  lemma HalfRedFromBlack()
    ensures SqDist(Black, RGB(127.5, 0.0, 0.0)) == 16256.25
  {
  }

  /** The target itself is within the tolerance and beats every colour outside it. */
  lemma TargetBeatsFar(target: RGB, c: RGB)
    requires !CloseEnough(target, c)
    ensures CloseEnough(target, target) && !NoFarther(target, c, target)
  {
    SqDistMetric(target, target);
  }

  /** Pure red against black is at delta 100 / sqrt 3 (about 57.74). */
  lemma RedFromBlack()
    ensures DeltaSq(Red, Black) * 3.0 == 10000.0
    ensures !CloseEnough(Red, Black)
  {
  }
}
