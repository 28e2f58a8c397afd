/** Days, months and years as a calendar counts them, one after the other. */
module Calendar {
  const EPOCH := 1970
  const DAY := 86400

  /** The Gregorian rule. */
  predicate Leap(y: int) {
    y % 4 == 0 && (y % 100 != 0 || y % 400 == 0)
  }

  function MonthLength(m: int, leap: bool): int
    requires 1 <= m <= 12
  {
    if m == 2 then (if leap then 29 else 28) else if m in {4, 6, 9, 11} then 30 else 31
  }

  /** Days of the year before the month. */
  function MonthStart(m: int, leap: bool): int
    requires 1 <= m <= 13
    decreases m
  {
    if m == 1 then 0 else MonthStart(m - 1, leap) + MonthLength(m - 1, leap)
  }

  function YearLength(leap: bool): int { if leap then 366 else 365 }

  /** Days from 1970-01-01 to the start of the year. */
  function YearStart(y: int): int
    requires EPOCH <= y
    decreases y
  {
    if y == EPOCH then 0 else YearStart(y - 1) + YearLength(Leap(y - 1))
  }

  function DayNumber(y: int, m: int, d: int): int
    requires EPOCH <= y && 1 <= m <= 12
  {
    YearStart(y) + MonthStart(m, Leap(y)) + d - 1
  }

  predicate ValidDate(y: int, m: int, d: int) {
    EPOCH <= y && 1 <= m <= 12 && 1 <= d <= MonthLength(m, Leap(y))
  }

  predicate ValidTime(h: int, m: int, s: int) {
    0 <= h < 24 && 0 <= m < 60 && 0 <= s < 60
  }

  function Seconds(days: int, h: int, m: int, s: int): int {
    days * DAY + h * 3600 + m * 60 + s
  }

  lemma MonthStarts(leap: bool)
    ensures var e := if leap then 1 else 0;
            && MonthStart(1, leap) == 0 && MonthStart(2, leap) == 31 && MonthStart(3, leap) == 59 + e
            && MonthStart(4, leap) == 90 + e && MonthStart(5, leap) == 120 + e && MonthStart(6, leap) == 151 + e
            && MonthStart(7, leap) == 181 + e && MonthStart(8, leap) == 212 + e && MonthStart(9, leap) == 243 + e
            && MonthStart(10, leap) == 273 + e && MonthStart(11, leap) == 304 + e && MonthStart(12, leap) == 334 + e
            && MonthStart(13, leap) == 365 + e
  {
    assert MonthStart(4, leap) == MonthStart(3, leap) + 31;
    assert MonthStart(7, leap) == MonthStart(6, leap) + 30;
    assert MonthStart(10, leap) == MonthStart(9, leap) + 30;
    assert MonthStart(13, leap) == MonthStart(12, leap) + 31;
  }

  /** How many leap years there have been up to the end of `y`. */
  function Leaps(y: int): int { y / 4 - y / 100 + y / 400 }

  lemma LeapsStep(y: int)
    ensures Leaps(y) == Leaps(y - 1) + if Leap(y) then 1 else 0
  {
    QuotientStep(y, 4);
    QuotientStep(y, 100);
    QuotientStep(y, 400);
  }

  lemma QuotientStep(y: int, k: int)
    requires k == 4 || k == 100 || k == 400
    ensures y / k == (y - 1) / k + if y % k == 0 then 1 else 0
  {
  }

  /** The years counted one by one and at once. */
  lemma {:induction false} YearStartIs(y: int)
    requires EPOCH <= y
    ensures YearStart(y) == 365 * (y - EPOCH) + Leaps(y - 1) - 477
    decreases y
  {
    if y > EPOCH {
      YearStartIs(y - 1);
      LeapsStep(y - 1);
    }
  }

  // ------------------------------------------------------------------
  // No two dates on the same day

  lemma {:induction false} YearsApart(y: int, z: int)
    requires EPOCH <= y < z
    ensures YearStart(y) + YearLength(Leap(y)) <= YearStart(z)
    decreases z
  {
    if y < z - 1 {
      YearsApart(y, z - 1);
    }
  }

  lemma {:induction false} MonthsApart(m: int, n: int, leap: bool)
    requires 1 <= m < n <= 13
    ensures MonthStart(m, leap) + MonthLength(m, leap) <= MonthStart(n, leap)
    decreases n
  {
    if m < n - 1 {
      MonthsApart(m, n - 1, leap);
    }
  }

  lemma DayInYear(y: int, m: int, d: int)
    requires ValidDate(y, m, d)
    ensures YearStart(y) <= DayNumber(y, m, d) < YearStart(y) + YearLength(Leap(y))
  {
    MonthStarts(Leap(y));
  }

  lemma SameDay(y: int, m: int, d: int, y': int, m': int, d': int)
    requires ValidDate(y, m, d) && ValidDate(y', m', d') && DayNumber(y, m, d) == DayNumber(y', m', d')
    ensures y == y' && m == m' && d == d'
  {
    DayInYear(y, m, d);
    DayInYear(y', m', d');
    if y < y' {
      YearsApart(y, y');
    } else if y' < y {
      YearsApart(y', y);
    } else if m < m' {
      MonthsApart(m, m', Leap(y));
    } else if m' < m {
      MonthsApart(m', m, Leap(y));
    }
  }

  lemma SameTime(a: int, h: int, m: int, s: int, a': int, h': int, m': int, s': int)
    requires ValidTime(h, m, s) && ValidTime(h', m', s') && Seconds(a, h, m, s) == Seconds(a', h', m', s')
    ensures a == a' && h == h' && m == m' && s == s'
  {
    var x, x' := h * 3600 + m * 60 + s, h' * 3600 + m' * 60 + s';
    assert 0 <= x < DAY && 0 <= x' < DAY;
  }
}
