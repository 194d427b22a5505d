/** Integer arithmetic facts shared by the decoders and planners: products
    with a positive factor and Euclidean remainders. */
module Arith {

  lemma MulAtLeast(k: int, m: int)
    requires k >= 1 && m >= 1
    ensures k * m >= m
  {
    assert k * m == (k - 1) * m + m;
    assert (k - 1) * m >= 0;
  }

  /** The remainder modulo a positive m is the unique r in [0, m) with x == q*m + r. */
  lemma ModUnique(x: int, m: int, q: int, r: int)
    requires m >= 1 && 0 <= r < m && x == q * m + r
    ensures x % m == r && x / m == q
  {
    var q', r' := x / m, x % m;
    assert x == q' * m + r';
    assert (q - q') * m == r' - r;
    if q > q' {
      MulAtLeast(q - q', m);
    } else if q < q' {
      MulAtLeast(q' - q, m);
    }
  }

  lemma ModSubAfterAdd(a: int, s: int, m: int)
    requires m >= 1
    ensures ((a + s) % m - a) % m == s % m
  {
    var q := (a + s) / m;
    assert (a + s) % m == a + s - q * m;
    assert s == (s / m) * m + s % m;
    assert s - q * m == (s / m - q) * m + s % m;
    ModUnique(s - q * m, m, s / m - q, s % m);
  }

  lemma ModAddAfterSub(a: int, b: int, m: int)
    requires m >= 1
    ensures (a + (b - a) % m) % m == b % m
  {
    var q := (b - a) / m;
    assert (b - a) % m == b - a - q * m;
    assert b == (b / m) * m + b % m;
    assert b - q * m == (b / m - q) * m + b % m;
    ModUnique(b - q * m, m, b / m - q, b % m);
  }

  /** Multiples of eight (whole bytes of bits) are closed under sum and
      difference. */
  lemma WholeBytes(x: int, y: int)
    requires x % 8 == 0 && y % 8 == 0
    ensures (x + y) % 8 == 0 && (x - y) % 8 == 0
  {
    ModUnique(x + y, 8, x / 8 + y / 8, 0);
    ModUnique(x - y, 8, x / 8 - y / 8, 0);
  }
}
