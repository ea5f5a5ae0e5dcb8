/** Basis points: integers kept between 0 and 10000. */
module Bps {

  function ClampBps(value: int): (r: int)
    ensures 0 <= r <= 10000
    ensures 0 <= value <= 10000 ==> r == value
  {
    if value < 0 then 0 else if value > 10000 then 10000 else value
  }

  lemma ClampMonotone(a: int, b: int)
    requires a <= b
    ensures ClampBps(a) <= ClampBps(b)
  {
  }

  /** Rounding down after division by a positive number keeps order. */
  lemma FloorMonotone(a: int, b: int, d: int)
    requires a <= b && d > 0
    ensures a / d <= b / d
  {
    var k := a / d - b / d;
    assert k * d == a / d * d - b / d * d;
    assert 0 <= a - a / d * d < d && 0 <= b - b / d * d < d;
    MulBound(k, d);
  }

  lemma MulBound(d: int, p: int)
    requires p >= 0
    ensures d >= 1 ==> d * p >= p
    ensures d <= -1 ==> d * p <= -p
  {
    if d >= 1 { assert d * p == p + (d - 1) * p; assert (d - 1) * p >= 0; }
    if d <= -1 { assert d * p == -p + (d + 1) * p; assert (-(d + 1)) * p >= 0; }
  }

  lemma MulDiv(k: int, p: int)
    requires p > 0
    ensures k * p / p == k
  {
    var n := k * p;
    var d := k - n / p;
    assert d * p == n - n / p * p;
    assert 0 <= n - n / p * p < p;
    MulBound(d, p);
  }

  lemma ProductMonotone(a: int, b: int, w: int)
    requires a <= b && w >= 0
    ensures a * w <= b * w
  {
    assert (b - a) * w >= 0;
  }

  /** Quotient and remainder are unique. */
  lemma RemainderIs(n: int, d: int, q: int, r: int)
    requires d > 0 && n == d * q + r && 0 <= r < d
    ensures n % d == r && n / d == q
  {
    var k := n / d - q;
    assert n == d * (n / d) + n % d;
    assert k * d == d * (n / d) - d * q;
    MulBound(k, d);
  }
}
