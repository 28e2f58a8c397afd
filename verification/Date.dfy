/** Conversions between dates and seconds since 1970. */
module Date {
  import opened Arithmetic
  import opened Calendar

  /** C division rounds towards zero. */
  function TruncDiv(a: int, b: int): int
    requires 0 < b
  {
    if a >= 0 then a / b else -((-a) / b)
  }

  function TruncMod(a: int, b: int): int
    requires 0 < b
  {
    a - TruncDiv(a, b) * b
  }

  // ------------------------------------------------------------------
  // mktime

  /** The months as mktime counts them: March is 1 and February 12, of the year before. */
  function Shifted(year: int, mon: int): (int, int) {
    var m := (mon - 2) % W32;
    if m == 0 || m >= W32 / 2 then ((year - 1) % W32, (m + 12) % W32) else (year, m)
  }

  /** mktime: 32-bit unsigned where the arguments are, then in `long` as wide as W. */
  function MkTime(year: nat, mon: nat, day: nat, hour: nat, min: nat, sec: nat, W: nat): int
    requires W == W32 || W == W32 * W32
  {
    var (y, m) := Shifted(year, mon);
    var days := (y / 4 - y / 100 + y / 400 + 367 * m % W32 / 12 + day) % W32;
    ((((days + 365 * y % W32 - 719499) * 24 + hour) * 60 + min) * 60 + sec) % W
  }

  /** The days of mktime, without the wrapping. */
  function GaussDays(year: int, mon: int, day: int): int {
    var y, m := if mon <= 2 then year - 1 else year, if mon <= 2 then mon + 10 else mon - 2;
    Leaps(y) + 367 * m / 12 + day + 365 * y - 719499
  }

  lemma GaussIsCalendar(year: int, mon: int, day: int)
    requires EPOCH <= year && 1 <= mon <= 12
    ensures GaussDays(year, mon, day) == DayNumber(year, mon, day)
  {
    hide YearStart, Leaps, Leap, MonthStart;
    YearStartIs(year);
    LeapsStep(year);
    MonthStarts(Leap(year));
  }

  lemma ShiftedIs(year: nat, mon: nat)
    requires 1 <= year < W32 && 1 <= mon <= 12
    ensures Shifted(year, mon) == if mon <= 2 then (year - 1, mon + 10) else (year, mon - 2)
  {
  }

  lemma NoWrap(year: nat, mon: nat, day: nat)
    requires EPOCH <= year < 11_000_000 && 1 <= mon <= 12 && day < W32 / 2
    ensures var (y, m) := Shifted(year, mon);
            (y / 4 - y / 100 + y / 400 + 367 * m % W32 / 12 + day) % W32 + 365 * y % W32 - 719499 == GaussDays(year, mon, day)
  {
    hide Shifted;
    ShiftedIs(year, mon);
    var y, m := if mon <= 2 then year - 1 else year, if mon <= 2 then mon + 10 else mon - 2;
    assert 367 * m % W32 == 367 * m && 365 * y % W32 == 365 * y;
    assert 0 <= Leaps(y) < year;
  }

  /** mktime counts the seconds of the Gregorian calendar, as far as the result fits. */
  lemma MkTimeIs(year: nat, mon: nat, day: nat, hour: nat, min: nat, sec: nat, W: nat)
    requires W == W32 || W == W32 * W32
    requires EPOCH <= year < 11_000_000 && 1 <= mon <= 12 && day < W32 / 2
    ensures MkTime(year, mon, day, hour, min, sec, W) == Seconds(DayNumber(year, mon, day), hour, min, sec) % W
  {
    hide DayNumber, GaussDays, Shifted;
    NoWrap(year, mon, day);
    GaussIsCalendar(year, mon, day);
  }

  // ------------------------------------------------------------------
  // Dates that are filled in

  function MonthOffset(mon: int): int
    requires 1 <= mon <= 12
  {
    [0, 31, 59, 90, 120, 151, 181, 212, 243, 273, 304, 334][mon - 1]
  }

  lemma OffsetIs(mon: int, leap: bool)
    requires 1 <= mon <= 12
    ensures MonthStart(mon, leap) == MonthOffset(mon) + if leap && mon > 2 then 1 else 0
    ensures MonthOffset(mon) >= 0
  {
    MonthStarts(leap);
  }

  /** GregorianDay counts days from the first of year 1; 1970 began 719162 days later. */
  lemma OrdinalIs(year: int, mon: int, mday: int)
    requires EPOCH <= year && 1 <= mon <= 12
    ensures var past := TruncMod(year, 4) == 0 && (TruncMod(year, 100) != 0 || TruncMod(year, 400) == 0) && mon > 2;
            var leaps := TruncDiv(year - 1, 4) - TruncDiv(year - 1, 100) + TruncDiv(year - 1, 400);
            (if past then 1 else 0) + (year - 1) * 365 + leaps + MonthOffset(mon) + mday == DayNumber(year, mon, mday) + 719163
    ensures DayNumber(year, mon, mday) + 719163 > mday
  {
    hide YearStart, MonthStart, MonthOffset;
    YearStartIs(year);
    OffsetIs(mon, Leap(year));
  }

  lemma WeekDay(day: int, n: int)
    requires day == n + 719163 && 0 <= day
    ensures TruncMod(day, 7) == (n + 4) % 7
  {
  }

  class RtcTime {
    var year: int
    var mon: int
    var mday: int
    var hour: int
    var min: int
    var sec: int
    var wday: int

    /** GregorianDay: the day of the week, 0 being a Sunday. */
    method GregorianDay()
      requires 1 <= mon <= 12
      modifies `wday
      ensures EPOCH <= year && 0 < mday ==> wday == (DayNumber(year, mon, mday) + 4) % 7
    {
      hide DayNumber, TruncMod, TruncDiv;
      var lastYear := year - 1;
      var leapsToDate := TruncDiv(lastYear, 4) - TruncDiv(lastYear, 100) + TruncDiv(lastYear, 400);
      var day := 0;
      if TruncMod(year, 4) == 0 && (TruncMod(year, 100) != 0 || TruncMod(year, 400) == 0) && mon > 2 {
        day := 1;
      }
      day := day + lastYear * 365 + leapsToDate + MonthOffset(mon) + mday;
      wday := TruncMod(day, 7);
      if EPOCH <= year && 0 < mday {
        OrdinalIs(year, mon, mday);
        WeekDay(day, DayNumber(year, mon, mday));
      }
    }
  }

  // ------------------------------------------------------------------
  // to_tm

  /** to_tm takes every fourth year for a leap year. */
  predicate Fourth(y: int) { TruncMod(y, 4) == 0 }

  function YearStart4(y: int): int
    requires EPOCH <= y
    decreases y
  {
    if y == EPOCH then 0 else YearStart4(y - 1) + YearLength(Fourth(y - 1))
  }

  /** Until 2100 that makes no difference. */
  lemma {:induction false} FourthUntil2100(y: int)
    requires EPOCH <= y <= 2100
    ensures YearStart4(y) == YearStart(y) && (y < 2100 ==> (Fourth(y) <==> Leap(y)))
    decreases y
  {
    if y > EPOCH {
      FourthUntil2100(y - 1);
    }
  }

  function MonthTable(leap: bool): seq<int> {
    [31, if leap then 29 else 28, 31, 30, 31, 30, 31, 31, 30, 31, 30, 31]
  }

  lemma TableIs(m: int, leap: bool)
    requires 1 <= m <= 12
    ensures MonthTable(leap)[m - 1] == MonthLength(m, leap)
  {
  }

  /** The static table of month lengths, which to_tm changes while it works. */
  class Dates {
    const monthDays: array<int>

    ghost predicate Valid()
      reads monthDays
    {
      monthDays[..] == MonthTable(false)
    }

    constructor ()
      ensures Valid() && fresh(monthDays)
    {
      monthDays := new int[12] [31, 28, 31, 30, 31, 30, 31, 31, 30, 31, 30, 31];
    }

    /** The years in a number of days. */
    method SplitYears(days: int) returns (year: int, rest: int)
      ensures EPOCH <= year && rest + YearStart4(year) == days && rest < YearLength(Fourth(year))
      ensures 0 <= days ==> 0 <= rest
    {
      year, rest := EPOCH, days;
      while rest >= YearLength(Fourth(year))
        invariant EPOCH <= year && rest + YearStart4(year) == days && (0 <= days ==> 0 <= rest)
        decreases rest
      {
        rest := rest - YearLength(Fourth(year));
        year := year + 1;
      }
    }

    /** The months in what is left of a year. */
    method SplitMonths(leap: bool, days: int) returns (mon: int, rest: int)
      requires monthDays[..] == MonthTable(leap) && days < YearLength(leap)
      ensures 1 <= mon <= 12 && rest + MonthStart(mon, leap) == days && rest < MonthLength(mon, leap)
      ensures 0 <= days ==> 0 <= rest
    {
      mon, rest := 1, days;
      MonthStarts(leap);
      TableIs(1, leap);
      assert monthDays[..][0] == MonthTable(leap)[0];
      while rest >= monthDays[mon - 1]
        invariant 1 <= mon <= 12 && rest + MonthStart(mon, leap) == days && (0 <= days ==> 0 <= rest)
        invariant monthDays[mon - 1] == MonthLength(mon, leap)
        decreases rest
      {
        rest := rest - monthDays[mon - 1];
        mon := mon + 1;
        assert mon <= 12;
        TableIs(mon, leap);
        assert monthDays[..][mon - 1] == MonthTable(leap)[mon - 1];
      }
    }

    /** to_tm */
    method ToTm(tim: int, tm: RtcTime)
      requires Valid()
      modifies monthDays, tm
      ensures Valid()
      ensures 0 <= tim ==> Filled(tm.year, tm.mon, tm.mday, tm.hour, tm.min, tm.sec, tim)
      ensures 0 <= tim ==> tm.wday == (DayNumber(tm.year, tm.mon, tm.mday) + 4) % 7
    {
      var day := TruncDiv(tim, DAY);
      var hms := TruncMod(tim, DAY);
      tm.hour := TruncDiv(hms, 3600);
      tm.min := TruncDiv(TruncMod(hms, 3600), 60);
      tm.sec := TruncMod(TruncMod(hms, 3600), 60);
      var year, rest := SplitYears(day);
      tm.year := year;
      if Fourth(tm.year) {
        monthDays[1] := 29;
      }
      assert monthDays[..] == MonthTable(Fourth(year));
      var mon, left := SplitMonths(Fourth(year), rest);
      monthDays[1] := 28;
      assert monthDays[..] == MonthTable(false);
      tm.mon := mon;
      tm.mday := left + 1;
      tm.GregorianDay();
    }
  }

  /** The fields of a time in seconds, by the calendar of to_tm. */
  ghost predicate Filled(year: int, mon: int, mday: int, hour: int, min: int, sec: int, tim: int) {
    && EPOCH <= year && 1 <= mon <= 12 && 1 <= mday <= MonthLength(mon, Fourth(year)) && ValidTime(hour, min, sec)
    && Seconds(YearStart4(year) + MonthStart(mon, Fourth(year)) + mday - 1, hour, min, sec) == tim
  }

  // ------------------------------------------------------------------
  // There and back

  const YEAR_2100 := 4_102_444_800    // in seconds

  lemma {:induction false} Years4Rise(y: int, z: int)
    requires EPOCH <= y <= z
    ensures YearStart4(y) <= YearStart4(z)
    decreases z
  {
    if y < z {
      Years4Rise(y, z - 1);
    }
  }

  lemma Before2100(year: int, mon: int, mday: int, hour: int, min: int, sec: int, tim: int)
    requires Filled(year, mon, mday, hour, min, sec, tim) && tim < YEAR_2100
    ensures year < 2100
  {
    hide YearStart4, MonthStart, Fourth, MonthLength;
    Start2100();
    MonthStartsLater(mon, Fourth(year));
    if year >= 2100 {
      Years4Rise(2100, year);
    }
  }

  lemma Start2100()
    ensures YearStart(2100) == YearStart4(2100) == 47482
  {
    hide YearStart, YearStart4;
    YearStartIs(2100);
    FourthUntil2100(2100);
  }

  lemma MonthStartsLater(m: int, leap: bool)
    requires 1 <= m <= 12
    ensures 0 <= MonthStart(m, leap)
  {
    if m > 1 {
      MonthsApart(1, m, leap);
    }
  }

  /** What to_tm fills in is the Gregorian date, and mktime leads back, until 2100. */
  lemma ThereAndBack(year: int, mon: int, mday: int, hour: int, min: int, sec: int, tim: int, W: nat)
    requires W == W32 || W == W32 * W32
    requires 0 <= tim < YEAR_2100 && Filled(year, mon, mday, hour, min, sec, tim)
    ensures ValidDate(year, mon, mday) && MkTime(year, mon, mday, hour, min, sec, W) == tim
  {
    hide MkTime, YearStart, YearStart4, MonthStart, Fourth, Leap;
    Before2100(year, mon, mday, hour, min, sec, tim);
    FilledDate(year, mon, mday, hour, min, sec, tim);
    MkTimeIs(year, mon, mday, hour, min, sec, W);
  }

  /** And the other way round: to_tm undoes mktime. */
  lemma BackAndThere(year: nat, mon: nat, mday: nat, hour: nat, min: nat, sec: nat, W: nat,
                     y: int, m: int, d: int, h: int, n: int, s: int)
    requires W == W32 || W == W32 * W32
    requires ValidDate(year, mon, mday) && ValidTime(hour, min, sec) && year < 2100
    requires Filled(y, m, d, h, n, s, MkTime(year, mon, mday, hour, min, sec, W))
    ensures y == year && m == mon && d == mday && h == hour && n == min && s == sec
  {
    hide MkTime, DayNumber, Filled, Seconds;
    var tim := MkTime(year, mon, mday, hour, min, sec, W);
    MkTimeIs(year, mon, mday, hour, min, sec, W);
    SecondsBefore2100(year, mon, mday, hour, min, sec);
    Before2100(y, m, d, h, n, s, tim);
    FilledDate(y, m, d, h, n, s, tim);
    SameTime(DayNumber(year, mon, mday), hour, min, sec, DayNumber(y, m, d), h, n, s);
    SameDay(year, mon, mday, y, m, d);
  }

  lemma FilledDate(y: int, m: int, d: int, h: int, n: int, s: int, tim: int)
    requires Filled(y, m, d, h, n, s, tim) && y < 2100
    ensures ValidDate(y, m, d) && ValidTime(h, n, s) && Seconds(DayNumber(y, m, d), h, n, s) == tim
  {
    hide YearStart, YearStart4, MonthStart;
    FourthUntil2100(y);
  }

  lemma SecondsBefore2100(year: int, mon: int, mday: int, hour: int, min: int, sec: int)
    requires ValidDate(year, mon, mday) && ValidTime(hour, min, sec) && year < 2100
    ensures 0 <= Seconds(DayNumber(year, mon, mday), hour, min, sec) < YEAR_2100
  {
    hide YearStart, MonthStart, DayNumber;
    DayInYear(year, mon, mday);
    YearsApart(year, 2100);
    Start2100();
    YearStartIs(EPOCH);
    if EPOCH < year {
      YearsApart(EPOCH, year);
    }
  }
}
