/** The calendar arithmetic of `local_time` in `redo.c`, against the Gregorian calendar. */
module LocalTime {

  /** The fields of `struct tm` that the function computes; `year` counts from 1900, `mon` from 0.
      `tm_yday` is left out. */
  datatype Tm = Tm(year: int, mon: int, mday: int, wday: int, hour: int, min: int, sec: int)

  const EIGHT_EAST_AREA_TM_DIFF_SEC := 28800
  const ONE_YEAR_HOURS := 8760

  // ---------------------------------------------------------------- the Gregorian calendar

  predicate Leap(y: int) { y % 4 == 0 && (y % 100 != 0 || y % 400 == 0) }

  function MonthDays(leap: bool, mon: int): int {
    if mon == 1 then (if leap then 29 else 28) else if mon == 3 || mon == 5 || mon == 8 || mon == 10 then 30 else 31
  }

  /** Days from the start of 1970 to the start of year `y`, and from there to the start of month `mon`. */
  function YearStart(y: int): int
    requires y >= 1970
    decreases y
  {
    if y == 1970 then 0 else YearStart(y - 1) + if Leap(y - 1) then 366 else 365
  }

  function MonthStart(leap: bool, mon: nat): int {
    if mon == 0 then 0 else MonthStart(leap, mon - 1) + MonthDays(leap, mon - 1)
  }

  predicate ClockOk(tm: Tm) { 0 <= tm.hour < 24 && 0 <= tm.min < 60 && 0 <= tm.sec < 60 }

  function Seconds(days: int, tm: Tm): int { ((days * 24 + tm.hour) * 60 + tm.min) * 60 + tm.sec }

  /** `tm` is the Gregorian date, weekday and time of day `t` seconds after 1970 began, a Thursday. */
  predicate IsDate(tm: Tm, t: int) {
    && tm.year >= 70 && 0 <= tm.mon < 12 && ClockOk(tm)
    && 1 <= tm.mday <= MonthDays(Leap(1900 + tm.year), tm.mon)
    && var days := YearStart(1900 + tm.year) + MonthStart(Leap(1900 + tm.year), tm.mon) + tm.mday - 1;
       Seconds(days, tm) == t && tm.wday == (days + 4) % 7
  }

  /** The first second of 1 March 2100. */
  const LIMIT := 47541 * 86400

  // ---------------------------------------------------------------- the calendar of the code

  /** The code takes every fourth year for a leap year: the same calendar, with this one rule. */
  predicate Fourth(y: int) { y % 4 == 0 }

  function FourthStart(y: int): int { 365 * (y - 1970) + (y - 1) / 4 - 492 }

  predicate IsFourthDate(tm: Tm, t: int) {
    && tm.year >= 70 && 0 <= tm.mon < 12 && ClockOk(tm)
    && 1 <= tm.mday <= MonthDays(Fourth(1900 + tm.year), tm.mon)
    && var days := FourthStart(1900 + tm.year) + MonthStart(Fourth(1900 + tm.year), tm.mon) + tm.mday - 1;
       Seconds(days, tm) == t && tm.wday == (days + 4) % 7
  }

  /** Leap days the code has inserted before year `y` and the calendar has not. */
  function Excess(y: int): int { (y - 1) / 100 - 19 - ((y - 1) / 400 - 4) }

  lemma {:induction false} StartsDiffer(y: int)
    requires y >= 1970
    ensures FourthStart(y) == YearStart(y) + Excess(y)
    decreases y
  {
    if y > 1970 {
      StartsDiffer(y - 1);
      OneYear(y - 1);
    }
  }

  lemma OneYear(y: int)
    ensures FourthStart(y + 1) - FourthStart(y) == 365 + if Fourth(y) then 1 else 0
    ensures Excess(y + 1) - Excess(y) == if Fourth(y) && !Leap(y) then 1 else 0
  {
    Floor4(y);
    Floor100(y);
    Floor400(y);
  }

  lemma Floor4(y: int)
    ensures y / 4 - (y - 1) / 4 == if y % 4 == 0 then 1 else 0
  {
  }

  lemma Quotient(x: int, d: int, q: int, r: int)
    requires x == q * d + r && 0 <= r < d
    ensures x / d == q && x % d == r
  {
    var e := x / d - q;
    assert x == x / d * d + x % d;
    assert e * d == r - x % d;
    AtLeast(e, d);
  }

  lemma AtLeast(e: int, d: int)
    requires d > 0
    ensures (e >= 1 ==> e * d >= d) && (e <= -1 ==> e * d <= -d)
  {
  }

  lemma Floor100(y: int)
    ensures y / 100 - (y - 1) / 100 == if y % 100 == 0 then 1 else 0
    ensures y % 100 == 0 ==> y % 4 == 0
  {
    var q, r := y / 100, y % 100;
    if r == 0 {
      Quotient(y - 1, 100, q - 1, 99);
      assert y == 4 * (25 * q);
    } else {
      Quotient(y - 1, 100, q, r - 1);
    }
  }

  lemma Floor400(y: int)
    ensures y / 400 - (y - 1) / 400 == if y % 400 == 0 then 1 else 0
    ensures y % 400 == 0 ==> y % 100 == 0
  {
    var q, r := y / 400, y % 400;
    if r == 0 {
      Quotient(y - 1, 400, q - 1, 399);
      Quotient(y, 100, 4 * q, 0);
    } else {
      Quotient(y - 1, 400, q, r - 1);
    }
  }

  lemma ExcessGrows(y: int)
    requires y >= 1970
    ensures Excess(y) >= 0 && (Excess(y) == 0 <==> y <= 2100)
  {
  }

  lemma MonthTable(leap: bool)
    ensures MonthStart(leap, 0) == 0 && MonthStart(leap, 1) == 31 && MonthStart(leap, 2) == (if leap then 60 else 59)
    ensures MonthStart(leap, 3) == (if leap then 91 else 90) && MonthStart(leap, 4) == (if leap then 121 else 120)
    ensures MonthStart(leap, 5) == (if leap then 152 else 151) && MonthStart(leap, 6) == (if leap then 182 else 181)
    ensures MonthStart(leap, 7) == (if leap then 213 else 212) && MonthStart(leap, 8) == (if leap then 244 else 243)
    ensures MonthStart(leap, 9) == (if leap then 274 else 273) && MonthStart(leap, 10) == (if leap then 305 else 304)
    ensures MonthStart(leap, 11) == (if leap then 335 else 334)
  {
    assert MonthStart(leap, 4) == MonthStart(leap, 3) + 30;
    assert MonthStart(leap, 8) == MonthStart(leap, 7) + 31;
  }

  /** Two dates of the code's calendar are the same date of the real one up to the last day before
      1 March 2100, and never after. */
  lemma RightUntil(tm: Tm, t: int)
    requires IsFourthDate(tm, t)
    ensures IsDate(tm, t) <==> t < LIMIT
  {
    var y := 1900 + tm.year;
    hide *;
    if y < 2100 {
      EarlyYear(y, tm, t);
    } else if y == 2100 {
      ThatYear(tm, t);
    } else {
      LateYear(y, tm, t);
    }
  }

  lemma ThatYear(tm: Tm, t: int)
    requires IsFourthDate(tm, t) && tm.year == 200
    ensures IsDate(tm, t) <==> t < LIMIT
  {
    StartsDiffer(2100);
    MonthTable(true);
    MonthTable(false);
    MonthStartsDiffer(tm.mon);
    hide YearStart, MonthStart;
  }

  lemma MonthStartsDiffer(mon: nat)
    ensures MonthStart(true, mon) == MonthStart(false, mon) + if mon >= 2 then 1 else 0
    ensures MonthStart(false, mon) >= 0
  {
  }

  lemma EarlyYear(y: int, tm: Tm, t: int)
    requires IsFourthDate(tm, t) && y == 1900 + tm.year < 2100
    ensures t < LIMIT && IsDate(tm, t)
  {
    StartsDiffer(y);
    ExcessGrows(y);
    MonthTable(Fourth(y));
    hide YearStart, MonthStart;
  }

  lemma LateYear(y: int, tm: Tm, t: int)
    requires IsFourthDate(tm, t) && y == 1900 + tm.year > 2100
    ensures t >= LIMIT && !IsDate(tm, t)
  {
    StartsDiffer(y);
    ExcessGrows(y);
    MonthStartsDiffer(tm.mon);
  }

  // ---------------------------------------------------------------- the code

  /** The days of a month in a year that is not a leap year. */
  function MonDays(mon: nat): int
    requires mon < 12
  {
    [31, 28, 31, 30, 31, 30, 31, 31, 30, 31, 30, 31][mon]
  }

  /** `local_time`, for moments from the start of 1970, eight hours east, on.  The hours are to fit the
      32 bits they are divided in.  The fields are the Gregorian date exactly up to `LIMIT`. */
  method LocalTime(timep: int) returns (tm: Tm)
    requires 0 <= timep + EIGHT_EAST_AREA_TM_DIFF_SEC < 3600 * 0x1_0000_0000
    ensures IsFourthDate(tm, timep + EIGHT_EAST_AREA_TM_DIFF_SEC)
    ensures IsDate(tm, timep + EIGHT_EAST_AREA_TM_DIFF_SEC) <==> timep + EIGHT_EAST_AREA_TM_DIFF_SEC < LIMIT
  {
    ghost var t := timep + EIGHT_EAST_AREA_TM_DIFF_SEC;
    var time := timep + EIGHT_EAST_AREA_TM_DIFF_SEC;
    var sec := time % 60;
    time := time / 60;
    var min := time % 60;
    time := time / 60;
    var wday := (time / 24 + 4) % 7;
    ghost var hours := time;
    var year, left := YearOf(time);
    var hour := left % 24;
    var mon, mday := MonthOf(year, left / 24);
    tm := Tm(year, mon, mday, wday, hour, min, sec);
    RightUntil(tm, t);
  }

  /** Four years are 35064 hours. */
  lemma FirstYear(hours: int)
    requires 0 <= hours < 0x1_0000_0000
    ensures var year := hours / 35064 * 4 + 70;
      24 * FourthStart(1900 + year) + hours % 35064 == hours
  {
    var q := hours / 35064;
    assert (1900 + (q * 4 + 70) - 1) / 4 == 492 + q;
  }

  lemma NextYear(year: int, left: int, hours: int)
    requires 24 * FourthStart(1900 + year) + left == hours
    ensures Fourth(1900 + year) <==> year % 4 == 0
    ensures 24 * FourthStart(1900 + (year + 1)) + (left - if year % 4 == 0 then 8784 else 8760) == hours
  {
    hide Fourth, FourthStart;
    OneYear(1900 + year);
    FourthIs(year);
    assert 1900 + (year + 1) == 1900 + year + 1;
  }

  lemma FourthIs(year: int)
    ensures Fourth(1900 + year) <==> year % 4 == 0
  {
  }

  /** The year the hours since 1970 lead to, and the hours left of it. */
  method YearOf(hours: int) returns (year: int, left: int)
    requires 0 <= hours < 0x1_0000_0000
    ensures year >= 70 && 0 <= left < (if Fourth(1900 + year) then 8784 else 8760)
    ensures 24 * FourthStart(1900 + year) + left == hours
  {
    hide Fourth, FourthStart;
    FirstYear(hours);
    var pass4year := hours % 0x1_0000_0000 / 35064;
    year := pass4year * 4 + 70;
    left := hours % 35064;
    ghost var first := year;
    while true
      invariant first <= year <= first + 3 && first % 4 == 2 && first >= 70 && left >= 0
      invariant 24 * FourthStart(1900 + year) + left == hours
      invariant left < 35064 - (year - first) * ONE_YEAR_HOURS - if year - first == 3 then 24 else 0
      decreases left
    {
      var hpery := ONE_YEAR_HOURS;
      if year % 4 == 0 {
        hpery := hpery + 24;
      }
      NextYear(year, left, hours);
      if left < hpery {
        break;
      }
      year := year + 1;
      left := left - hpery;
    }
  }

  /** The month and the day in it of day `day` of a year, counted from 0. */
  method MonthOf(year: int, day: int) returns (mon: int, mday: int)
    requires 0 <= day < (if Fourth(1900 + year) then 366 else 365)
    ensures 0 <= mon < 12 && 1 <= mday <= MonthDays(Fourth(1900 + year), mon)
    ensures MonthStart(Fourth(1900 + year), mon) + mday - 1 == day
  {
    MonthTable(true);
    MonthTable(false);
    var time := day + 1;
    if year % 4 == 0 {
      if time > 60 {
        time := time - 1;
      } else if time == 60 {
        return 1, 29;
      }
    }
    ghost var one := time;
    var m: nat := 0;
    while MonDays(m) < time
      invariant m < 12 && time >= 1 && MonthStart(false, m) + time == one <= 365
      decreases 12 - m
    {
      time := time - MonDays(m);
      m := m + 1;
    }
    MonthStartsDiffer(m);
    mon, mday := m, time;
  }
}
