/** The scale factors of a clock source: cycles times `mult`, shifted right by `shift`,
    are nanoseconds. */
module ClockScale {
  import opened Arithmetic

  /** to * 2^s / from, rounded */
  function Factor(from: nat, to: nat, s: nat): nat
    requires 0 < from
  {
    (to * Pow2(s) + from / 2) / from
  }

  /** `acc` is how many bits are left for the factor when the counts up to `c` take the
      rest of 64: as many as possible, but not more than 32. */
  ghost predicate BitsLeft(c: nat, acc: nat) {
    acc <= 32 && c < Pow2(64 - acc) && (acc == 32 || Pow2(63 - acc) <= c)
  }

  lemma Pow2Values()
    ensures Pow2(32) == W32 && Pow2(64) == W64
  {
    hide Pow2;
    Pow2Eight();
    Pow2Sum(8, 8);
    Pow2Sum(16, 16);
    Pow2Sum(32, 32);
  }

  lemma Pow2Eight()
    ensures Pow2(8) == 256
  {
  }

  /** `t` units of `p` go into `c`. */
  ghost predicate GoInto(t: nat, p: nat, c: nat) {
    t * p <= c < (t + 1) * p
  }

  /** Half as many of units twice the size. */
  lemma Halved(t: nat, p: nat, c: nat)
    requires GoInto(t, p, c)
    ensures GoInto(t / 2, 2 * p, c)
  {
    var h, r := t / 2, t % 2;
    assert t == 2 * h + r;
    assert t * p == h * (2 * p) + r * p;
    assert (t + 1) * p == t * p + p;
    assert (h + 1) * (2 * p) == h * (2 * p) + 2 * p;
    assert r * p == if r == 0 then 0 else p;
  }

  lemma SomeGoInto(t: nat, p: nat, c: nat)
    requires GoInto(t, p, c) && p > 0
    ensures if t == 0 then c < p else p <= c
  {
    if t > 0 {
      MulAtLeast(p, t);
    }
  }

  method LimitingShift(c: nat) returns (acc: nat)
    requires c < W64
    ensures BitsLeft(c, acc)
  {
    hide Pow2, GoInto;
    Pow2Values();
    var tmp: nat := c / W32;
    acc := 32;
    assert GoInto(tmp, W32, c) by { Units(c); }
    while tmp > 0
      invariant acc <= 32 && GoInto(tmp, Pow2(64 - acc), c)
      invariant acc == 32 || Pow2(63 - acc) <= c
      decreases tmp
    {
      SomeGoInto(tmp, Pow2(64 - acc), c);
      Halved(tmp, Pow2(64 - acc), c);
      Pow2Next(64 - acc);
      tmp := tmp / 2;
      acc := acc - 1;
    }
    SomeGoInto(tmp, Pow2(64 - acc), c);
  }

  lemma Units(c: nat)
    ensures GoInto(c / W32, W32, c)
  {
  }

  /** What clocks_calc_mult_shift looks for. */
  ghost predicate Fits(from: nat, to: nat, acc: nat, s: nat)
    requires 0 < from
  {
    Factor(from, to, s) < Pow2(acc)
  }

  /** clocks_calc_mult_shift: the largest shift from 1 to 32 whose factor fits.  When
      there is none the shift is 0, but the factor is that of shift 1. */
  method CalcMultShift(from: nat, to: nat, maxsec: nat) returns (mult: nat, shift: nat, ghost acc: nat)
    requires 0 < from < W32 && to < W32 && maxsec < W32
    ensures BitsLeft(maxsec * from, acc) && shift <= 32
    ensures forall s | shift < s <= 32 :: !Fits(from, to, acc, s)
    ensures shift > 0 ==> Fits(from, to, acc, shift) && mult == Factor(from, to, shift) < W32
    ensures shift == 0 ==> mult == Factor(from, to, 1) % W32
  {
    hide Pow2, Factor;
    Product(maxsec, from);
    var sftacc := LimitingShift(maxsec * from);
    acc := sftacc;
    Pow2Values();
    PowGrows(32, sftacc);
    var tmp := 0;
    shift := 32;
    while shift > 0
      invariant shift <= 32 && forall s | shift < s <= 32 :: !Fits(from, to, acc, s)
      invariant shift < 32 ==> tmp == Factor(from, to, shift + 1)
    {
      tmp := Factor(from, to, shift);
      if tmp < Pow2(sftacc) {
        break;
      }
      shift := shift - 1;
    }
    mult := tmp % W32;
  }

  lemma Product(a: nat, b: nat)
    requires a < W32 && b < W32
    ensures a * b < W64
  {
    TimesMore(a, W32 - 1, b);
  }

  /** No count of up to `maxsec` seconds overflows 64 bits when multiplied. */
  lemma NoOverflow(c: nat, acc: nat, mult: nat, cycles: nat)
    requires BitsLeft(c, acc) && mult < Pow2(acc) && cycles <= c
    ensures cycles * mult < W64
  {
    hide Pow2;
    Pow2Values();
    Pow2Sum(64 - acc, acc);
    BelowProduct(Pow2(64 - acc), Pow2(acc), cycles, mult);
  }

  lemma RoundedQuotient(x: nat, from: nat)
    requires 0 < from
    ensures var m := (x + from / 2) / from; 0 - from <= 2 * (m * from - x) <= from
  {
    var n := x + from / 2;
    assert n == from * (n / from) + n % from;
  }

  /** The factor is right to within half a unit. */
  lemma {:induction false} Rounded(from: nat, to: nat, s: nat)
    requires 0 < from
    ensures 0 - from <= 2 * (Factor(from, to, s) * from - to * Pow2(s)) <= from
  {
    hide Pow2;
    RoundedQuotient(to * Pow2(s), from);
  }

  /** Exactly: the test accepts a factor when it can be multiplied with the power of two
      that bounds the range. */
  lemma FitsExactly(from: nat, to: nat, acc: nat, s: nat)
    requires 0 < from && acc <= 64
    ensures Fits(from, to, acc, s) <==> Pow2(64 - acc) * Factor(from, to, s) < W64
  {
    hide Factor, Pow2;
    Pow2Values();
    Pow2Sum(64 - acc, acc);
    var p, q, f := Pow2(64 - acc), Pow2(acc), Factor(from, to, s);
    if f < q {
      TimesMore(f + 1, q, p);
      assert (f + 1) * p == p * f + p;
    } else {
      TimesMore(q, f, p);
    }
  }

  lemma Pow2Near32()
    ensures Pow2(31) == 0x8000_0000 && Pow2(32) == W32 && Pow2(33) == 2 * W32
  {
    Pow2Values();
    assert Pow2(32) == 2 * Pow2(31) && Pow2(33) == 2 * Pow2(32);
  }

  /** The power of two can be larger than any count that occurs: for 2 seconds at
      2^31 Hz the search ends at shift 31, though nothing would overflow at shift 32. */
  lemma ShiftCouldBeLarger()
    ensures var from, to, c := 0x8000_0000, 0x4000_0000, 2 * 0x8000_0000;
            && BitsLeft(c, 31) && !Fits(from, to, 31, 32) && Fits(from, to, 31, 31)
            && c * Factor(from, to, 32) < W64
  {
    hide Pow2;
    Pow2Near32();
  }

  /** The property that is wanted: no larger shift avoids overflow over the range. */
  ghost predicate LargestWithoutOverflow(from: nat, to: nat, c: nat, shift: nat)
    requires 0 < from
  {
    forall s {:trigger Factor(from, to, s)} | shift < s <= 32 :: W64 <= c * Factor(from, to, s)
  }

  lemma {:induction false} FactorGrows(from: nat, to: nat, s: nat, u: nat)
    requires 0 < from && s <= u
    ensures Factor(from, to, s) <= Factor(from, to, u)
  {
    hide Pow2;
    PowGrows(u, s);
    TimesMore(Pow2(s), Pow2(u), to);
    QuotientGrows(to * Pow2(s) + from / 2, to * Pow2(u) + from / 2, from);
  }

  lemma QuotientGrows(x: nat, y: nat, a: nat)
    requires 0 < a && x <= y
    ensures x / a <= y / a
  {
    var q, r := x / a, y / a;
    if r < q {
      TimesMore(r + 1, q, a);
    }
  }

  lemma OverflowGrows(from: nat, to: nat, c: nat, s: nat, u: nat)
    requires 0 < from && s <= u && W64 <= c * Factor(from, to, s)
    ensures W64 <= c * Factor(from, to, u)
  {
    hide Factor;
    FactorGrows(from, to, s, u);
    TimesMore(Factor(from, to, s), Factor(from, to, u), c);
  }

  /** Exactly when the search meets it: when every factor the test rejects does overflow.
      That comes down to the one factor after the shift found. */
  lemma LargestExactly(from: nat, to: nat, c: nat, acc: nat, shift: nat)
    requires 0 < from && 1 <= shift <= 32 && Fits(from, to, acc, shift)
    requires forall s | shift < s <= 32 :: !Fits(from, to, acc, s)
    ensures LargestWithoutOverflow(from, to, c, shift) <==>
            forall s {:trigger Fits(from, to, acc, s)} | 1 <= s <= 32 && !Fits(from, to, acc, s) :: W64 <= c * Factor(from, to, s)
    ensures LargestWithoutOverflow(from, to, c, shift) <==> shift == 32 || W64 <= c * Factor(from, to, shift + 1)
  {
    hide Factor, Pow2;
    forall s | 1 <= s <= 32 ensures !Fits(from, to, acc, s) <==> shift < s {
      if s <= shift {
        FactorGrows(from, to, s, shift);
      }
    }
    if LargestWithoutOverflow(from, to, c, shift) {
      forall s | 1 <= s <= 32 && !Fits(from, to, acc, s) ensures W64 <= c * Factor(from, to, s) {
        assert shift < s;
      }
    }
    if forall s {:trigger Fits(from, to, acc, s)} | 1 <= s <= 32 && !Fits(from, to, acc, s) :: W64 <= c * Factor(from, to, s) {
      forall s | shift < s <= 32 ensures W64 <= c * Factor(from, to, s) {
        assert !Fits(from, to, acc, s);
      }
    }
    if shift < 32 && W64 <= c * Factor(from, to, shift + 1) {
      forall s | shift < s <= 32 ensures W64 <= c * Factor(from, to, s) {
        OverflowGrows(from, to, c, shift + 1, s);
      }
    }
  }
}
