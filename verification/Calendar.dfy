/**
 Calendar conversion of kernel/time.c: gmtime counts years and months down day by
 day, mktime uses a closed form with a fixed four-year cycle, in 32-bit unsigned
 arithmetic.  `Seconds` is the Gregorian count of section 4.16, Seconds Since the
 Epoch, of the POSIX.1-2017 Base Definitions.
 */
module Calendar {
  import opened Machine

  const MINUTE := 60
  const HOUR := 3600
  const DAY := 86400
  const YEAR := 365 * 86400

  /** 1 March 2100, 00:00:00 */
  const CYCLE_END := 4107542400

  datatype Tm = Tm(sec: int, min: int, hour: int, mday: int, mon: int, year: int, wday: int, yday: int, isdst: int)

  predicate Leap(year: int) {
    year % 4 == 0 && (year % 100 != 0 || year % 400 == 0)
  }

  function YearSize(year: int): int {
    if Leap(year) then 366 else 365
  }

  /** The table _ytab. */
  function MonthLength(leap: bool, m: int): int
    requires 0 <= m < 12
  {
    [31, if leap then 29 else 28, 31, 30, 31, 30, 31, 31, 30, 31, 30, 31][m]
  }

  /** Days of the year before month m. */
  function MonthStart(leap: bool, m: int): int
    requires 0 <= m <= 12
  {
    if m == 0 then 0 else MonthStart(leap, m - 1) + MonthLength(leap, m - 1)
  }

  /** Days from the epoch to the start of a year. */
  function DaysBefore(year: int): int
    decreases year
  {
    if year <= 1970 then 0 else DaysBefore(year - 1) + YearSize(year - 1)
  }

  // ---- what a broken-down time means ------------------------------------

  predicate ValidTm(tm: Tm) {
    && 0 <= tm.sec < 60 && 0 <= tm.min < 60 && 0 <= tm.hour < 24
    && 70 <= tm.year && 0 <= tm.mon < 12
    && 1 <= tm.mday <= MonthLength(Leap(tm.year + 1900), tm.mon)
  }

  function DayNumber(tm: Tm): int
    requires 0 <= tm.mon < 12
  {
    DaysBefore(tm.year + 1900) + MonthStart(Leap(tm.year + 1900), tm.mon) + tm.mday - 1
  }

  function Seconds(tm: Tm): int
    requires 0 <= tm.mon < 12
  {
    DAY * DayNumber(tm) + HOUR * tm.hour + MINUTE * tm.min + tm.sec
  }

  /** The year-by-year count is the closed form of POSIX, for every year. */
  lemma {:induction false} DaysBeforeClosed(year: int)
    requires year >= 1970
    ensures DaysBefore(year)
         == 365 * (year - 1970) + (year - 1969) / 4 - (year - 1901) / 100 + (year - 1601) / 400
    decreases year
  {
    if year > 1970 {
      hide Leap;
      DaysBeforeClosed(year - 1);
      LeapSteps(year - 1);
    }
  }

  /** Each of the three leap counts grows by one in the years it counts. */
  lemma LeapSteps(y: int)
    ensures (y - 1968) / 4 - (y - 1900) / 100 + (y - 1600) / 400
         == (y - 1969) / 4 - (y - 1901) / 100 + (y - 1601) / 400 + (if Leap(y) then 1 else 0)
  {
    LeapStep(y - 1969, 4);
    LeapStep(y - 1901, 100);
    LeapStep(y - 1601, 400);
    assert (y - 1968) % 4 == y % 4 && (y - 1900) % 100 == y % 100 && (y - 1600) % 400 == y % 400;
  }

  lemma LeapStep(x: int, d: int)
    requires d > 1
    ensures (x + 1) / d == x / d + (if (x + 1) % d == 0 then 1 else 0)
  {
    var q, r := x / d, x % d;
    assert x == d * q + r;
    if r == d - 1 {
      DivIs(x + 1, d, q + 1, 0);
    } else {
      DivIs(x + 1, d, q, r + 1);
    }
  }

  lemma DivIs(x: int, d: int, q: int, r: int)
    requires d > 0 && x == d * q + r && 0 <= r < d
    ensures x / d == q && x % d == r
  {
    var k := x / d - q;
    assert d * k == r - x % d by { assert d * (x / d) + x % d == x; }
    assert k >= 1 ==> d * k >= d;
    assert k <= -1 ==> d * k <= -d;
  }

  lemma MonthStarts(leap: bool)
    ensures MonthStart(leap, 0) == 0 && MonthStart(leap, 1) == 31
    ensures var d := if leap then 1 else 0;
            && MonthStart(leap, 2) == 59 + d && MonthStart(leap, 3) == 90 + d && MonthStart(leap, 4) == 120 + d
            && MonthStart(leap, 5) == 151 + d && MonthStart(leap, 6) == 181 + d && MonthStart(leap, 7) == 212 + d
            && MonthStart(leap, 8) == 243 + d && MonthStart(leap, 9) == 273 + d && MonthStart(leap, 10) == 304 + d
            && MonthStart(leap, 11) == 334 + d && MonthStart(leap, 12) == 365 + d
  {
    assert MonthStart(leap, 3) == MonthStart(leap, 2) + 31;
    assert MonthStart(leap, 6) == MonthStart(leap, 5) + 30;
    assert MonthStart(leap, 9) == MonthStart(leap, 8) + 30;
  }

  // ---- gmtime -------------------------------------------------------------

  /** gmtime: a valid broken-down time that means exactly t. */
  method Gmtime(t: nat) returns (tm: Tm)
    requires t < WORD
    ensures ValidTm(tm) && Seconds(tm) == t
    ensures tm.wday == (t / DAY + 4) % 7 && tm.isdst == 0
    ensures tm.yday == t / DAY - DaysBefore(tm.year + 1900) && 0 <= tm.yday < YearSize(tm.year + 1900)
  {
    var clock, dayno, year := t % DAY, t / DAY, 1970;
    var sec, min, hour := clock % MINUTE, (clock % HOUR) / MINUTE, clock / HOUR;
    var wday := (dayno + 4) % 7;
    while dayno >= YearSize(year)
      invariant year >= 1970 && dayno >= 0 && dayno + DaysBefore(year) == t / DAY
      decreases dayno
    {
      dayno := dayno - YearSize(year);
      year := year + 1;
    }
    var yday, mon := dayno, 0;
    MonthStarts(Leap(year));
    while dayno >= MonthLength(Leap(year), mon)
      invariant 0 <= mon < 12 && dayno >= 0 && dayno + MonthStart(Leap(year), mon) == yday
      decreases 12 - mon
    {
      dayno := dayno - MonthLength(Leap(year), mon);
      mon := mon + 1;
    }
    tm := Tm(sec, min, hour, dayno + 1, mon, year - 1900, wday, yday, 0);
    assert clock == HOUR * hour + MINUTE * min + sec;
  }

  /** At most one valid broken-down time means a given second. */
  lemma SecondsOne(a: Tm, b: Tm)
    requires ValidTm(a) && ValidTm(b) && Seconds(a) == Seconds(b)
    ensures a.sec == b.sec && a.min == b.min && a.hour == b.hour
    ensures a.mday == b.mday && a.mon == b.mon && a.year == b.year
  {
    hide MonthStart, MonthLength, DaysBefore, Leap;
    assert DayNumber(a) == DayNumber(b);
    YearDays(a);
    YearDays(b);
    if a.year < b.year { DaysBeforeGrows(a.year + 1901, b.year + 1900); }
    if b.year < a.year { DaysBeforeGrows(b.year + 1901, a.year + 1900); }
    assert a.year == b.year;
    MonthOne(Leap(a.year + 1900), a.mon, a.mday, b.mon, b.mday);
  }

  lemma MonthOne(leap: bool, m: int, d: int, n: int, e: int)
    requires 0 <= m < 12 && 0 <= n < 12
    requires 1 <= d <= MonthLength(leap, m) && 1 <= e <= MonthLength(leap, n)
    requires MonthStart(leap, m) + d == MonthStart(leap, n) + e
    ensures m == n && d == e
  {
    if m < n { MonthStartGrows(leap, m + 1, n); }
    if n < m { MonthStartGrows(leap, n + 1, m); }
  }

  lemma {:induction false} MonthStartGrows(leap: bool, m: int, n: int)
    requires 0 <= m <= n <= 12
    ensures MonthStart(leap, m) <= MonthStart(leap, n)
    decreases n
  {
    if m < n { MonthStartGrows(leap, m, n - 1); }
  }

  /** A date lies within its year. */
  lemma YearDays(tm: Tm)
    requires ValidTm(tm)
    ensures DaysBefore(tm.year + 1900) <= DayNumber(tm) < DaysBefore(tm.year + 1901)
  {
    MonthStarts(Leap(tm.year + 1900));
  }

  lemma {:induction false} DaysBeforeGrows(a: int, b: int)
    requires 1970 <= a <= b
    ensures DaysBefore(a) <= DaysBefore(b)
    decreases b
  {
    if a < b { DaysBeforeGrows(a, b - 1); }
  }

  // ---- mktime -------------------------------------------------------------

  /** C's division, which truncates toward zero. */
  function CDiv(a: int, b: int): int
    requires b > 0
  {
    if a >= 0 then a / b else -((-a) / b)
  }

  /** The table month[], which assumes a leap year. */
  function MonthTable(m: int): int
    requires 0 <= m < 12
  {
    DAY * [0, 31, 60, 91, 121, 152, 182, 213, 244, 274, 305, 335][m]
  }

  /** mktime, with each step in 32-bit unsigned arithmetic. */
  function Mktime(tm: Tm): nat
    requires 0 <= tm.mon < 12
  {
    var year := tm.year - 70;
    var res := Wrap(YEAR * year + DAY * CDiv(year + 1, 4));
    var res := Wrap(res + MonthTable(tm.mon));
    var res := if tm.mon > 1 && (year + 2) % 4 != 0 then Wrap(res - DAY) else res;
    var res := Wrap(res + DAY * (tm.mday - 1));
    var res := Wrap(res + HOUR * tm.hour);
    var res := Wrap(res + MINUTE * tm.min);
    Wrap(res + tm.sec)
  }

  lemma WrapTwice(x: int, y: int)
    ensures Wrap(Wrap(x) + y) == Wrap(x + y)
    ensures Wrap(Wrap(x) - y) == Wrap(x - y)
  {
  }

  /** The wrapping steps amount to one reduction of the day count with a four-year
      cycle. */
  lemma MktimeDays(tm: Tm)
    requires ValidTm(tm)
    ensures Mktime(tm) == Wrap(DAY * CycleDays(tm) + HOUR * tm.hour + MINUTE * tm.min + tm.sec)
  {
    hide Wrap, MonthTable, MonthStart, MonthLength, Leap;
    var year := tm.year - 70;
    var a := YEAR * year + DAY * CDiv(year + 1, 4);
    WrapTwice(a, MonthTable(tm.mon));
    var b := a + MonthTable(tm.mon);
    WrapTwice(b, DAY);
    var c := if tm.mon > 1 && (year + 2) % 4 != 0 then b - DAY else b;
    WrapTwice(c, DAY * (tm.mday - 1));
    WrapTwice(c + DAY * (tm.mday - 1), HOUR * tm.hour);
    WrapTwice(c + DAY * (tm.mday - 1) + HOUR * tm.hour, MINUTE * tm.min);
    WrapTwice(c + DAY * (tm.mday - 1) + HOUR * tm.hour + MINUTE * tm.min, tm.sec);
    MonthTableStart(tm);
  }

  /** The leap-year table, less a day after February in the other years. */
  lemma MonthTableStart(tm: Tm)
    requires 0 <= tm.mon < 12
    ensures DAY * MonthStart(tm.year % 4 == 0, tm.mon)
         == MonthTable(tm.mon) - (if tm.mon > 1 && (tm.year - 68) % 4 != 0 then DAY else 0)
  {
    MonthStarts(tm.year % 4 == 0);
    assert (tm.year - 68) % 4 == tm.year % 4;
  }

  /** The day number with every fourth year a leap year. */
  function CycleDays(tm: Tm): int
    requires 0 <= tm.mon < 12
  {
    365 * (tm.year - 70) + (tm.year - 69) / 4 + MonthStart(tm.year % 4 == 0, tm.mon) + tm.mday - 1
  }

  /** From 1 March 2100 on the cycle runs ahead of the calendar; before, they agree. */
  lemma CycleAgrees(tm: Tm)
    requires ValidTm(tm) && tm.year < 300
    ensures tm.year < 200 || (tm.year == 200 && tm.mon < 2) ==> CycleDays(tm) == DayNumber(tm)
    ensures tm.year > 200 || (tm.year == 200 && tm.mon >= 2) ==> CycleDays(tm) == DayNumber(tm) + 1
  {
    hide MonthStart, MonthLength, DaysBefore, Leap;
    CycleYears(tm.year);
    MonthStarts(Leap(tm.year + 1900));
    MonthStarts(tm.year % 4 == 0);
  }

  /** The cycle misses only that 2100 is not a leap year. */
  lemma CycleYears(year: int)
    requires 70 <= year < 300
    ensures Leap(year + 1900) <==> year % 4 == 0 && year != 200
    ensures DaysBefore(year + 1900) == 365 * (year - 70) + (year - 69) / 4 - (if year > 200 then 1 else 0)
  {
    DaysBeforeClosed(year + 1900);
  }

  /** A time is before CYCLE_END exactly when its date is. */
  lemma BeforeCycleEnd(tm: Tm)
    requires ValidTm(tm)
    ensures Seconds(tm) < CYCLE_END <==> tm.year < 200 || (tm.year == 200 && tm.mon < 2)
  {
    hide MonthStart, DaysBefore;
    MonthStarts(Leap(tm.year + 1900));
    YearDays(tm);
    DaysBeforeClosed(2100);
    DaysBeforeClosed(2101);
    if tm.year < 200 {
      DaysBeforeGrows(tm.year + 1901, 2100);
    } else if tm.year > 200 {
      DaysBeforeGrows(2101, tm.year + 1900);
    }
  }

  lemma YearInRange(tm: Tm)
    requires ValidTm(tm) && Seconds(tm) < WORD
    ensures tm.year < 300
  {
    YearDays(tm);
    if tm.year >= 300 {
      DaysBeforeClosed(2200);
      DaysBeforeGrows(2200, tm.year + 1900);
    }
  }

  /** mktime gives the right second exactly for the times before 1 March 2100, and a
      day too many after. */
  lemma MktimeRightIff(tm: Tm)
    requires ValidTm(tm) && Seconds(tm) < WORD
    ensures Mktime(tm) == Seconds(tm) <==> Seconds(tm) < CYCLE_END
    ensures Seconds(tm) >= CYCLE_END ==> Mktime(tm) == Wrap(Seconds(tm) + DAY)
  {
    YearInRange(tm);
    MktimeDays(tm);
    CycleAgrees(tm);
    BeforeCycleEnd(tm);
    assert Seconds(tm) >= 0 by { YearDays(tm); DaysBeforeGrows(1970, tm.year + 1900); }
  }

  /** mktime(gmtime(t)) == t exactly for t before 1 March 2100. */
  method RoundTripSeconds(t: nat) returns (back: nat)
    requires t < WORD
    ensures back == t <==> t < CYCLE_END
    ensures t >= CYCLE_END ==> back == Wrap(t + DAY)
  {
    var tm := Gmtime(t);
    MktimeRightIff(tm);
    back := Mktime(tm);
  }

  /** gmtime(mktime(tm)) has the fields of every valid tm before 1 March 2100. */
  method RoundTripFields(tm: Tm) returns (back: Tm)
    requires ValidTm(tm) && Seconds(tm) < CYCLE_END
    ensures back.sec == tm.sec && back.min == tm.min && back.hour == tm.hour
    ensures back.mday == tm.mday && back.mon == tm.mon && back.year == tm.year
    ensures ValidTm(back) && Seconds(back) == Mktime(tm) && back.wday == (Mktime(tm) / DAY + 4) % 7
  {
    MktimeRightIff(tm);
    back := Gmtime(Mktime(tm));
    SecondsOne(tm, back);
  }

  /** 1 March 2100 itself comes back one day late. */
  lemma FirstWrongSecond()
    ensures var tm := Tm(0, 0, 0, 1, 2, 200, 0, 59, 0);
            ValidTm(tm) && Seconds(tm) == CYCLE_END && Mktime(tm) == CYCLE_END + DAY
  {
    var tm := Tm(0, 0, 0, 1, 2, 200, 0, 59, 0);
    hide Mktime, DaysBefore, MonthStart;
    DaysBeforeClosed(2100);
    MonthStarts(Leap(2100));
    MktimeRightIff(tm);
  }
}
