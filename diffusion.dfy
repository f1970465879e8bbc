/**
 * Colour diffusion (`recalcColor`, src/Main.tsx:91-114). A cell at row `i`,
 * column `j` of a board `width` x `height` (border included) is a blend of the
 * four border sources of its row and column, weighted by how near the cell is
 * to each edge, followed by a uniform scaling that brings the brightest
 * channel down to 255 when the blend exceeds it.
 */
module Diffusion {
  import opened Types

  /** Every channel is in [0, 255]. */
  predicate InRange(c: RGB)
  {
    0.0 <= c.red <= 255.0 && 0.0 <= c.green <= 255.0 && 0.0 <= c.blue <= 255.0
  }

  predicate AtMost255(c: RGB)
  {
    c.red <= 255.0 && c.green <= 255.0 && c.blue <= 255.0
  }

  predicate NonNegative(c: RGB)
  {
    c.red >= 0.0 && c.green >= 0.0 && c.blue >= 0.0
  }

  function Max(a: real, b: real): (m: real)
    ensures m >= a && m >= b && (m == a || m == b)
  {
    if a >= b then a else b
  }

  /** The largest channel. */
  function MaxChannel(c: RGB): (m: real)
    ensures m >= c.red && m >= c.green && m >= c.blue
    ensures m == c.red || m == c.green || m == c.blue
  {
    Max(Max(c.red, c.green), c.blue)
  }

  /**
   * One channel of the raw blend. The program evaluates `x * (w-j) / w` from
   * left to right, so the product comes before the division.
   */
  function Blend(left: real, right: real, top: real, bottom: real, i: int, j: int, w: nat, h: nat): (r: real)
    requires w > 0 && h > 0
    ensures left == right && top == bottom ==> r == left + top
  {
    Pair(left, right, j, w) + Pair(top, bottom, i, h)
  }

  /**
   * Two opposite sources at distance `k` from the first along a line of
   * length `n`: equal sources give their own value, and each end of the line
   * gets its own source's value.
   */
  function Pair(a: real, b: real, k: int, n: nat): (r: real)
    requires n > 0
    ensures a == b ==> r == a
    ensures k == 0 ==> r == a
    ensures k == n ==> r == b
  {
    Weigh(a, b, (n - k) as real, k as real, n as real)
  }

  /**
   * `a * p / m + b * q / m`, each product taken before its division. With
   * weights summing to `m`, equal values are kept, and a zero weight leaves
   * the other value alone.
   */
  function Weigh(a: real, b: real, p: real, q: real, m: real): (r: real)
    requires m > 0.0
    ensures p + q == m && a == b ==> r == a
    ensures p == m && q == 0.0 ==> r == a
    ensures p == 0.0 && q == m ==> r == b
  {
    WeighEqual(a, b, p, q, m);
    a * p / m + b * q / m
  }

  lemma WeighEqual(a: real, b: real, p: real, q: real, m: real)
    requires m > 0.0
    ensures p + q == m && a == b ==> a * p / m + b * q / m == a
  {
    if p + q == m && a == b {
      DivSum(a * p, b * q, m);
      assert a * p + b * q == a * m;
    }
  }

  /**
   * The raw weighted sums for cell (i, j); `left`, `right`, `top`, `bottom` are
   * the colours of the sources at (i, 0), (i, width-1), (0, j), (height-1, j).
   */
  function Mix(i: int, j: int, width: nat, height: nat, left: RGB, right: RGB, top: RGB, bottom: RGB): (r: RGB)
    requires width >= 2 && height >= 2
    ensures left == right && top == bottom ==>
      r == RGB(left.red + top.red, left.green + top.green, left.blue + top.blue)
  {
    var w, h := width - 1, height - 1;
    RGB(Blend(left.red, right.red, top.red, bottom.red, i, j, w, h),
        Blend(left.green, right.green, top.green, bottom.green, i, j, w, h),
        Blend(left.blue, right.blue, top.blue, bottom.blue, i, j, w, h))
  }

  /** `f = 255 / max(red, green, blue, 255)`: never brightens, never zero. */
  function Factor(c: RGB): (f: real)
    ensures 0.0 < f <= 1.0
    ensures AtMost255(c) ==> f == 1.0
  {
    255.0 / Max(MaxChannel(c), 255.0)
  }

  function Scale(c: RGB, f: real): RGB
  {
    RGB(f * c.red, f * c.green, f * c.blue)
  }

  /**
   * The normalisation step. A colour within 255 is left alone. Otherwise every
   * channel is multiplied by one common factor (see NormaliseScalesUniformly) and
   * the brightest channel becomes exactly 255. The result never exceeds 255 and
   * stays nonnegative when the input is.
   */
  function Normalise(c: RGB): (r: RGB)
    ensures AtMost255(c) ==> r == c
    ensures !AtMost255(c) ==> MaxChannel(r) == 255.0
    ensures AtMost255(r)
    ensures NonNegative(c) ==> NonNegative(r)
  {
    NormaliseKeeps(c);
    NormaliseAtMost(c);
    NormaliseNonNegative(c);
    NormaliseTop(c);
    Scale(c, Factor(c))
  }

  lemma NormaliseKeeps(c: RGB)
    ensures AtMost255(c) ==> Scale(c, Factor(c)) == c
  {
  }

  lemma NormaliseAtMost(c: RGB)
    ensures AtMost255(Scale(c, Factor(c)))
  {
    var m := Max(MaxChannel(c), 255.0);
    ScaleChannel(c.red, m);
    ScaleChannel(c.green, m);
    ScaleChannel(c.blue, m);
  }

  lemma NormaliseNonNegative(c: RGB)
    ensures NonNegative(c) ==> NonNegative(Scale(c, Factor(c)))
  {
    var m := Max(MaxChannel(c), 255.0);
    ScaleChannel(c.red, m);
    ScaleChannel(c.green, m);
    ScaleChannel(c.blue, m);
  }

  lemma NormaliseTop(c: RGB)
    ensures !AtMost255(c) ==> MaxChannel(Scale(c, Factor(c))) == 255.0
  {
    var m := Max(MaxChannel(c), 255.0);
    ScaleChannel(c.red, m);
    ScaleChannel(c.green, m);
    ScaleChannel(c.blue, m);
  }

  /**
   * Normalisation scales all three channels alike: the ratio between any two
   * channels is kept, and no nonnegative channel grows.
   */
  lemma NormaliseScalesUniformly(c: RGB)
    ensures var r := Normalise(c);
      r.red * c.green == r.green * c.red && r.red * c.blue == r.blue * c.red && r.green * c.blue == r.blue * c.green
    ensures NonNegative(c) ==> var r := Normalise(c);
      r.red <= c.red && r.green <= c.green && r.blue <= c.blue
  {
    NormaliseIsScale(c);
    ScaleUniform(c, Factor(c), Normalise(c));
  }

  /**
   * Only unfolds the definition of Normalise. Kept as a lemma of its own so
   * that the step above sees it as one fact, not the whole body.
   */
  lemma NormaliseIsScale(c: RGB)
    ensures Normalise(c) == Scale(c, Factor(c))
  {
  }

  /** Scaling by one factor in (0, 1] keeps channel ratios and never grows a nonnegative channel. */
  lemma ScaleUniform(c: RGB, f: real, r: RGB)
    requires 0.0 < f <= 1.0 && r == Scale(c, f)
    ensures r.red * c.green == r.green * c.red && r.red * c.blue == r.blue * c.red && r.green * c.blue == r.blue * c.green
    ensures NonNegative(c) ==> r.red <= c.red && r.green <= c.green && r.blue <= c.blue
  {
    SameRatio(f, c.red, c.green);
    SameRatio(f, c.red, c.blue);
    SameRatio(f, c.green, c.blue);
    if NonNegative(c) {
      MulMonotone(c.red, f, 1.0);
      MulMonotone(c.green, f, 1.0);
      MulMonotone(c.blue, f, 1.0);
    }
  }

  lemma SameRatio(f: real, x: real, y: real)
    ensures (f * x) * y == (f * y) * x
  {
  }

  /**
   * `recalcColor(i, j, tiles)` given the four sources it reads: the raw blend
   * when it stays within 255, otherwise the blend scaled so that its
   * brightest channel is exactly 255.
   */
  function RecalcColor(i: int, j: int, width: nat, height: nat, left: RGB, right: RGB, top: RGB, bottom: RGB): (r: RGB)
    requires width >= 2 && height >= 2
    ensures AtMost255(Mix(i, j, width, height, left, right, top, bottom)) ==> r == Mix(i, j, width, height, left, right, top, bottom)
    ensures !AtMost255(Mix(i, j, width, height, left, right, top, bottom)) ==> MaxChannel(r) == 255.0
    ensures AtMost255(r)
    ensures NonNegative(Mix(i, j, width, height, left, right, top, bottom)) ==> NonNegative(r)
  {
    Normalise(Mix(i, j, width, height, left, right, top, bottom))
  }

  lemma DivMul(m: real)
    requires m > 0.0
    ensures (255.0 / m) * m == 255.0
  {
  }

  lemma MulMonotone(f: real, x: real, y: real)
    requires f >= 0.0 && x <= y
    ensures f * x <= f * y
  {
    assert f * (y - x) >= 0.0;
  }

  /** Scaling a channel `x <= m` by `255 / m` for `m >= 255`. */
  lemma ScaleChannel(x: real, m: real)
    requires m >= 255.0 && x <= m
    ensures (255.0 / m) * x <= 255.0
    ensures x >= 0.0 ==> (255.0 / m) * x >= 0.0
    ensures x == m ==> (255.0 / m) * x == 255.0
  {
    DivMul(m);
    MulMonotone(255.0 / m, x, m);
  }

  /** One weighted channel term: a value of [0, 255] times a weight `p >= 0`. */
  lemma Weighted(a: real, p: real)
    requires 0.0 <= a <= 255.0 && p >= 0.0
    ensures 0.0 <= a * p <= 255.0 * p
  {
    assert (255.0 - a) * p >= 0.0;
  }

  lemma LinearSum(x: real, y: real, p: real, q: real, n: real)
    requires 0.0 <= x <= 255.0 * p && 0.0 <= y <= 255.0 * q && p + q == n
    ensures 0.0 <= x + y <= 255.0 * n
  {
  }

  lemma PairBounds(a: real, b: real, k: int, n: nat)
    requires n > 0 && 0 <= k <= n
    requires 0.0 <= a <= 255.0 && 0.0 <= b <= 255.0
    ensures 0.0 <= Pair(a, b, k, n) <= 255.0
  {
    ConvexBound(a, b, (n - k) as real, k as real, n as real);
  }

  /** Two values of [0, 255] with nonnegative weights summing to `m`, divided by `m`. */
  lemma ConvexBound(a: real, b: real, p: real, q: real, m: real)
    requires 0.0 <= a <= 255.0 && 0.0 <= b <= 255.0
    requires p >= 0.0 && q >= 0.0 && p + q == m && m > 0.0
    ensures 0.0 <= Weigh(a, b, p, q, m) <= 255.0
  {
    Weighted(a, p);
    Weighted(b, q);
    LinearSum(a * p, b * q, p, q, m);
    DivBound(a * p + b * q, m);
    DivSum(a * p, b * q, m);
  }

  lemma DivSum(x: real, y: real, n: real)
    requires n > 0.0
    ensures x / n + y / n == (x + y) / n
  {
  }

  lemma DivBound(s: real, n: real)
    requires n > 0.0 && 0.0 <= s <= 255.0 * n
    ensures 0.0 <= s / n <= 255.0
  {
    assert (255.0 * n - s) / n >= 0.0;
    assert (255.0 * n - s) / n == 255.0 * n / n - s / n;
    assert 255.0 * n / n == 255.0;
  }

  /**
   * With sources in [0, 255] and a cell on or inside the border, each raw
   * channel lies in [0, 510]: the left/right weights sum to 1 and so do the
   * top/bottom weights.
   */
  lemma BlendBounds(left: real, right: real, top: real, bottom: real, i: int, j: int, w: nat, h: nat)
    requires w > 0 && h > 0 && 0 <= i <= h && 0 <= j <= w
    requires 0.0 <= left <= 255.0 && 0.0 <= right <= 255.0
    requires 0.0 <= top <= 255.0 && 0.0 <= bottom <= 255.0
    ensures 0.0 <= Blend(left, right, top, bottom, i, j, w, h) <= 510.0
  {
    PairBounds(left, right, j, w);
    PairBounds(top, bottom, i, h);
    AddBounds(Pair(left, right, j, w), Pair(top, bottom, i, h));
  }

  lemma AddBounds(x: real, y: real)
    requires 0.0 <= x <= 255.0 && 0.0 <= y <= 255.0
    ensures 0.0 <= x + y <= 510.0
  {
  }

  /** Sources in [0, 255] give a recomputed colour in [0, 255]. */
  lemma RecalcInRange(i: int, j: int, width: nat, height: nat, left: RGB, right: RGB, top: RGB, bottom: RGB)
    requires width >= 2 && height >= 2 && 0 <= i < height && 0 <= j < width
    ensures InRange(left) && InRange(right) && InRange(top) && InRange(bottom) ==>
      InRange(RecalcColor(i, j, width, height, left, right, top, bottom))
  {
    if InRange(left) && InRange(right) && InRange(top) && InRange(bottom) {
      var w, h := width - 1, height - 1;
      BlendBounds(left.red, right.red, top.red, bottom.red, i, j, w, h);
      BlendBounds(left.green, right.green, top.green, bottom.green, i, j, w, h);
      BlendBounds(left.blue, right.blue, top.blue, bottom.blue, i, j, w, h);
      assert NonNegative(Mix(i, j, width, height, left, right, top, bottom));
    }
  }

  /** A full-strength channel on both ends of a line of length `n` blends to 255. */
  lemma PairFull(k: int, n: nat)
    requires n > 0
    ensures 255.0 * ((n - k) as real) / (n as real) + 255.0 * (k as real) / (n as real) == 255.0
  {
    DivSum(255.0 * ((n - k) as real), 255.0 * (k as real), n as real);
    assert 255.0 * ((n - k) as real) + 255.0 * (k as real) == 255.0 * (n as real);
    assert 255.0 * (n as real) / (n as real) == 255.0;
  }

  /** A full-strength channel on all four sources blends to 510. */
  lemma BlendFull(i: int, j: int, w: nat, h: nat)
    requires w > 0 && h > 0
    ensures Blend(255.0, 255.0, 255.0, 255.0, i, j, w, h) == 510.0
  {
    PairFull(j, w);
    PairFull(i, h);
  }

  /**
   * Four white sources: the raw sum is 510 on every channel, the factor is 1/2,
   * and the cell is white.
   */
  lemma RecalcAllWhite(i: int, j: int, width: nat, height: nat)
    requires width >= 2 && height >= 2
    ensures Mix(i, j, width, height, White, White, White, White) == RGB(510.0, 510.0, 510.0)
    ensures Factor(RGB(510.0, 510.0, 510.0)) == 0.5
    ensures RecalcColor(i, j, width, height, White, White, White, White) == White
  {
    BlendFull(i, j, width - 1, height - 1);
  }

  /** Four black sources give a black cell. */
  lemma RecalcAllBlack(i: int, j: int, width: nat, height: nat)
    requires width >= 2 && height >= 2
    ensures RecalcColor(i, j, width, height, Black, Black, Black, Black) == Black
  {
    assert Mix(i, j, width, height, Black, Black, Black, Black) == Black;
  }

  /**
   * On a 3 x 3 board (one interior cell) with a red source above the centre
   * and black elsewhere, the centre gets half of the red.
   */
  lemma RecalcTopRed()
    ensures RecalcColor(1, 1, 3, 3, Black, Black, Red, Black) == RGB(127.5, 0.0, 0.0)
  {
    MixTopRed();
    NormaliseHalfRed();
  }

  lemma MixTopRed()
    ensures Mix(1, 1, 3, 3, Black, Black, Red, Black) == RGB(127.5, 0.0, 0.0)
  {
    HalfOf(0.0, 0.0);
    HalfOf(255.0, 0.0);
  }

  lemma NormaliseHalfRed()
    ensures Normalise(RGB(127.5, 0.0, 0.0)) == RGB(127.5, 0.0, 0.0)
  {
    assert AtMost255(RGB(127.5, 0.0, 0.0));
  }

  lemma HalfOf(a: real, b: real)
    ensures Pair(a, b, 1, 2) == (a + b) / 2.0
  {
    assert Pair(a, b, 1, 2) == a * 1.0 / 2.0 + b * 1.0 / 2.0;
  }

  /** Normalising twice is normalising once. */
  lemma NormaliseIdempotent(c: RGB)
    ensures Normalise(Normalise(c)) == Normalise(c)
  {
  }
}
