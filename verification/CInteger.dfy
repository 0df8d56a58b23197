/** C integers: division towards zero and 32-bit words. */
module CInteger {
  const TWO32 := 0x1_0000_0000

  predicate Int32(x: int) {
    -0x8000_0000 <= x < 0x8000_0000
  }

  /** C division, towards zero. */
  function TruncDiv(a: int, b: int): int
    requires b != 0
  {
    if (a >= 0) == (b > 0) then (if a >= 0 then a else -a) / (if b > 0 then b else -b)
    else -((if a >= 0 then a else -a) / (if b > 0 then b else -b))
  }

  lemma ProductOrder(a: int, b: int, n: int)
    requires n >= 0 && a <= b
    ensures n * a <= n * b
  {
    assert n * (b - a) >= 0;
  }

  lemma QuotientIs(x: int, d: nat, q: int, r: int)
    requires 0 <= r < d && x == d * q + r
    ensures x / d == q && x % d == r
  {
    var (p, s) := (x / d, x % d);
    assert x == d * p + s;
    if p < q {
      ProductOrder(p + 1, q, d);
    } else if q < p {
      ProductOrder(q + 1, p, d);
    }
  }

  /** Rounding towards zero gives one more than rounding down on negative inexact quotients only. */
  function RoundedUp(n: int, d: nat): int
    requires d > 0
  {
    if n < 0 && n % d != 0 then 1 else 0
  }

  lemma TruncAgainstFloor(n: int, d: nat)
    requires d > 0
    ensures TruncDiv(n, d) == n / d + RoundedUp(n, d)
  {
    var (q, r) := (n / d, n % d);
    assert n == d * q + r;
    if n < 0 {
      if r == 0 {
        assert -n == d * (-q);
        QuotientIs(-n, d, -q, 0);
      } else {
        assert -n == d * (-q - 1) + (d - r);
        QuotientIs(-n, d, -q - 1, d - r);
      }
    }
  }
}
