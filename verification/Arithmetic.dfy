/** Products, quotients and powers of two. */
module Arithmetic {
  const W32 := 0x1_0000_0000
  const W64 := 0x1_0000_0000_0000_0000

  function Pow2(k: nat): (r: nat)
    ensures 0 < r
  {
    if k == 0 then 1 else 2 * Pow2(k - 1)
  }

  lemma Pow2Next(k: nat)
    ensures Pow2(k + 1) == 2 * Pow2(k)
  {
  }

  lemma {:induction false} PowGrows(k: nat, n: nat)
    requires n <= k
    ensures Pow2(n) <= Pow2(k)
  {
    if n < k {
      PowGrows(k - 1, n);
    }
  }

  lemma TwiceTimes(x: nat, y: nat)
    ensures 2 * x * y == 2 * (x * y)
  {
  }

  lemma {:induction false} Pow2Sum(a: nat, b: nat)
    ensures Pow2(a) * Pow2(b) == Pow2(a + b)
  {
    if a > 0 {
      Pow2Sum(a - 1, b);
      TwiceTimes(Pow2(a - 1), Pow2(b));
    }
  }

  lemma MulAtLeast(a: int, t: int)
    requires 0 < a && 1 <= t
    ensures a <= a * t
  {
  }

  lemma TimesMore(a: nat, b: nat, c: nat)
    requires a <= b
    ensures a * c <= b * c
  {
    assert b * c == a * c + (b - a) * c;
  }

  lemma BelowProduct(p: nat, q: nat, x: nat, y: nat)
    requires x < p && y < q
    ensures x * y < p * q
  {
    TimesMore(x, p, y);
    TimesMore(y + 1, q, p);
    assert (y + 1) * p == y * p + p;
  }

  function Quotient(x: nat, p: nat): (q: nat)
    requires 0 < p
    ensures p * q <= x <= p * q + p - 1
  {
    x / p
  }

  /** Quotient and remainder are unique. */
  lemma DivMod(n: int, a: int, q: int, r: int)
    requires 0 < a && n == a * q + r && 0 <= r < a
    ensures n % a == r && n / a == q
  {
    var q', r' := n / a, n % a;
    assert a * q' + r' == n;
    assert a * (q - q') == r' - r;
    if q > q' {
      MulAtLeast(a, q - q');
    } else if q < q' {
      MulAtLeast(a, q' - q);
    }
  }

  /** Reducing by a multiple first makes no difference. */
  lemma ModOfMod(d: int, k: int, m: int)
    requires 0 < k && 0 < m
    ensures 0 < k * m && d % (k * m) % m == d % m
  {
    MulAtLeast(m, k);
    var q, r := d / (k * m), d % (k * m);
    var s, t := r / m, r % m;
    assert d == (k * m) * q + r && r == m * s + t;
    assert d == m * (k * q + s) + t;
    DivMod(d, m, k * q + s, t);
  }
}
