/** The alignment arithmetic of memalign. */
module Alignment {
  import opened Arithmetic
  import opened Bins

  ghost predicate PowerOfTwo(a: int) {
    exists k: nat :: a == Pow2(k)
  }

  /** A power of two beyond two words is a multiple of two words, and of the
      smallest chunk. */
  lemma AlignmentUnits(sz: WordSize, a: int) returns (j: int)
    requires PowerOfTwo(a) && 2 * sz < a
    ensures 1 <= j && a == (if sz == 4 then 16 * j else 32 * j)
  {
    var k: nat :| a == Pow2(k);
    if sz == 4 {
      assert Pow2(0) == 1 && Pow2(1) == 2 && Pow2(2) == 4 && Pow2(3) == 8;
      assert k >= 4;
      j := Pow2(k - 4);
      assert Pow2(k) == 2 * Pow2(k - 1) && Pow2(k - 1) == 2 * Pow2(k - 2);
      assert Pow2(k - 2) == 2 * Pow2(k - 3) && Pow2(k - 3) == 2 * Pow2(k - 4);
    } else {
      assert Pow2(0) == 1 && Pow2(1) == 2 && Pow2(2) == 4 && Pow2(3) == 8 && Pow2(4) == 16;
      assert k >= 5;
      j := Pow2(k - 5);
      assert Pow2(k) == 2 * Pow2(k - 1) && Pow2(k - 1) == 2 * Pow2(k - 2) && Pow2(k - 2) == 2 * Pow2(k - 3);
      assert Pow2(k - 3) == 2 * Pow2(k - 4) && Pow2(k - 4) == 2 * Pow2(k - 5);
    }
  }

  /** Small powers of two divide every address of malloc's alignment. */
  lemma SmallAlignment(sz: WordSize, a: int, m: int)
    requires PowerOfTwo(a) && a <= 2 * sz
    requires if sz == 4 then m % 8 == 0 else m % 16 == 0
    ensures 0 < a && m % a == 0
  {
    var k: nat :| a == Pow2(k);
    assert Pow2(0) == 1 && Pow2(1) == 2 && Pow2(2) == 4 && Pow2(3) == 8 && Pow2(4) == 16 && Pow2(5) == 32;
    if k >= 5 {
      PowGrows(k, 5);
    }
    assert a == 1 || a == 2 || a == 4 || a == 8 || a == 16;
  }

  /** x & -((signed) a) for a power of two: the cast to int leaves nothing of 2^32 and
      above. */
  function RoundDown(x: int, a: int): int
    requires 0 < a
  {
    if a % W32 == 0 then 0 else x - x % a
  }

  /** The distance from `m` to the next multiple of `a` that leaves room for a
      smallest chunk in front, as memalign computes it. */
  function Lead(sz: WordSize, a: int, m: int): (lead: int)
    requires 0 < a
  {
    var up := RoundDown(m + a - 1, a) - m;
    if up < 4 * sz then up + a else up
  }

  /** A leader that can be given back: a whole number of two-word units, at least a
      smallest chunk, up to a multiple of `a`, and covered by the padding asked from
      malloc. */
  ghost predicate LeadOk(sz: WordSize, a: int, m: int, lead: int)
    requires 0 < a
  {
    && 4 * sz <= lead < a + 4 * sz && (m + lead) % a == 0
    && (if sz == 4 then lead % 8 == 0 else lead % 16 == 0)
  }

  lemma LeadFits(sz: WordSize, a: int, m: int)
    requires PowerOfTwo(a) && 2 * sz < a < W32 && m % a != 0
    requires if sz == 4 then m % 8 == 0 else m % 16 == 0
    ensures LeadOk(sz, a, m, Lead(sz, a, m))
  {
    hide PowerOfTwo, RoundDown;
    var j := AlignmentUnits(sz, a);
    var q, r := m / a, m % a;
    FirstUp(a, m);
    var up := a - r;
    var lead, t := if up < 4 * sz then up + a else up, if up < 4 * sz then q + 2 else q + 1;
    assert Lead(sz, a, m) == lead;
    assert m == a * q + r;
    NextMultiple(a, q, r);
    DivMod(m + lead, a, t, 0);
    UnitsOf(sz, m, a, j, t, lead);
  }

  lemma FirstUp(a: int, m: int)
    requires 0 < a < W32 && m % a != 0
    ensures RoundDown(m + a - 1, a) - m == a - m % a
  {
    var q, r := m / a, m % a;
    assert m == a * q + r;
    NextMultiple(a, q, r);
    DivMod(m + a - 1, a, q + 1, r - 1);
    assert a % W32 == a;
  }

  /** From 2^32 on the leader goes up to the address `a` itself, which is right exactly
      when the chunk lies far enough below it. */
  lemma LeadBeyondCast(sz: WordSize, a: int, m: int)
    requires PowerOfTwo(a) && W32 <= a && 0 < m && m % a != 0
    requires if sz == 4 then m % 8 == 0 else m % 16 == 0
    ensures Lead(sz, a, m) == a - m
    ensures LeadOk(sz, a, m, Lead(sz, a, m)) <==> m + 4 * sz <= a
  {
    CastToZero(a);
    var j := AlignmentUnits(sz, a);
    DivMod(a, a, 1, 0);
    UnitsOf(sz, m, a, j, 1, a - m);
  }

  lemma CastToZero(a: int)
    requires PowerOfTwo(a) && W32 <= a
    ensures a % W32 == 0
  {
    hide Pow2;
    Pow2Is32();
    var k: nat :| a == Pow2(k);
    if k < 32 {
      PowGrows(31, k);
    }
    Pow2Sum(32, k - 32);
    DivMod(a, W32, Pow2(k - 32), 0);
  }

  lemma Pow2Is32()
    ensures Pow2(32) == W32 && Pow2(31) < W32
  {
    hide Pow2;
    Pow2Is8();
    Pow2Sum(8, 8);
    Pow2Sum(16, 16);
    Pow2Next(31);
  }

  lemma Pow2Is8()
    ensures Pow2(8) == 256
  {
  }

  lemma NextMultiple(a: int, q: int, r: int)
    ensures a * q + r + (a - r) == a * (q + 1)
    ensures a * q + r + (a - r + a) == a * (q + 2)
  {
  }

  lemma UnitsOf(sz: WordSize, m: int, a: int, j: int, t: int, lead: int)
    requires m + lead == a * t && a == (if sz == 4 then 16 * j else 32 * j)
    requires if sz == 4 then m % 8 == 0 else m % 16 == 0
    ensures if sz == 4 then lead % 8 == 0 else lead % 16 == 0
  {
    var x := j * t;
    if sz == 4 {
      Factor(16, j, t);
      assert lead == 8 * (2 * x - m / 8);
    } else {
      Factor(32, j, t);
      assert lead == 16 * (2 * x - m / 16);
    }
  }

  lemma Factor(c: int, j: int, t: int)
    ensures (c * j) * t == c * (j * t)
  {
  }
}
