/**
  driver/internal/protocol/julian: Julian day numbers and civil dates, in the Julian calendar up to
  1582-10-04 and in the Gregorian calendar from 1582-10-15 on. Dates are civil triples, as they are
  before `time.Date` normalises 29 February of a Julian century year.
 */
module Julian {
  import opened Bytes

  datatype Date = Date(year: int, month: int, day: int)

  predicate Earlier(a: Date, b: Date)
  {
    a.year < b.year || (a.year == b.year && (a.month < b.month || (a.month == b.month && a.day < b.day)))
  }

  const GREGORIAN_DAY: int := 2299161
  const GREGORIAN_DATE: Date := Date(1582, 10, 15)
  const JULIAN_LAST: Date := Date(1582, 10, 4)

  /** TimeToDay, for years from -4799 on. */
  function TimeToDay(t: Date): (jd: int)
    requires 1 <= t.month <= 12 && t.year >= -4799
  {
    var a := (14 - t.month) / 12;
    var y := t.year + 4800 - a;
    var m := t.month + 12 * a - 3;
    if Earlier(t, GREGORIAN_DATE)
    then t.day + (153 * m + 2) / 5 + 365 * y + y / 4 - 32083
    else t.day + (153 * m + 2) / 5 + 365 * y + y / 4 - y / 100 + y / 400 - 32045
  }

  /** The shifted day count f of DayToTime. */
  function Shifted(jd: nat): (f: int)
    ensures f >= 1401
  {
    if jd < GREGORIAN_DAY then jd + 1401
    else jd + 1401 + (((4 * jd + 274277) / 146097) * 3) / 4 - 38
  }

  /** The calendar arithmetic of DayToTime on the shifted day count. */
  function Civil(f: nat): (t: Date)
  {
    var e := 4 * f + 3;
    var g := (e % 1461) / 4;
    var h := 5 * g + 2;
    var day := (h % 153) / 5 + 1;
    var month := (h / 153 + 2) % 12 + 1;
    var year := e / 1461 - 4716 + (12 + 2 - month) / 12;
    Date(year, month, day)
  }

  /** DayToTime for non-negative day numbers. */
  function DayToTime(jd: nat): (t: Date)
  {
    Civil(Shifted(jd))
  }

  // ---------------------------------------------------------------- the year that starts in March

  /** Day g of a year that starts in March: month m (0 is March) and day d of the month (from 0). */
  ghost predicate MonthOf(g: int, m: int, d: int)
  {
    0 <= m <= 11 && 0 <= d && g == (153 * m + 2) / 5 + d && (m < 11 ==> g < (153 * (m + 1) + 2) / 5)
  }

  lemma MonthOfDay(g: int)
    requires 0 <= g <= 365
    ensures var h := 5 * g + 2; MonthOf(g, h / 153, (h % 153) / 5)
  {
    var h := 5 * g + 2;
    var m := h / 153;
    assert 0 <= m <= 11;
    if m == 0 {} else if m == 1 {} else if m == 2 {} else if m == 3 {} else if m == 4 {} else if m == 5 {}
    else if m == 6 {} else if m == 7 {} else if m == 8 {} else if m == 9 {} else if m == 10 {} else {}
  }

  /** The date of day g of the March-based year y (counted from -4800). */
  ghost predicate DateOf(t: Date, y: int, m: int, d: int)
  {
    && t.day == d + 1
    && t.month == (if m <= 9 then m + 3 else m - 9)
    && t.year == y - 4800 + (if m <= 9 then 0 else 1)
  }

  lemma CivilParts(f: nat) returns (y: int, g: int, m: int, d: int)
    ensures 84 <= y && 0 <= g <= 365 && 4 * f + 3 == 1461 * (y - 84) + (4 * f + 3) % 1461
    ensures g == ((4 * f + 3) % 1461) / 4 && f == 365 * (y - 84) + (y - 84) / 4 + g
    ensures MonthOf(g, m, d) && DateOf(Civil(f), y, m, d)
  {
    var e := 4 * f + 3;
    y, g := e / 1461 + 84, (e % 1461) / 4;
    var h := 5 * g + 2;
    m, d := h / 153, (h % 153) / 5;
    MonthOfDay(g);
    LeapDays(f, e / 1461, e % 1461);
    assert Civil(f) == CivilOf(e / 1461, h);
    CivilOfParts(e / 1461, h, m);
  }

  function CivilOf(y0: int, h: int): (t: Date)
  {
    var month := (h / 153 + 2) % 12 + 1;
    Date(y0 - 4716 + (12 + 2 - month) / 12, month, (h % 153) / 5 + 1)
  }

  lemma CivilOfParts(y0: int, h: int, m: int)
    requires m == h / 153 && 0 <= m <= 11
    ensures DateOf(CivilOf(y0, h), y0 + 84, m, (h % 153) / 5)
  {
    if m <= 9 {
      assert (m + 2) % 12 + 1 == m + 3;
    } else {
      assert (m + 2) % 12 + 1 == m - 9;
    }
  }

  lemma LeapDays(f: nat, y0: int, r: int)
    requires 4 * f + 3 == 1461 * y0 + r && 0 <= r < 1461
    ensures f == 365 * y0 + y0 / 4 + r / 4
  {
  }

  // ---------------------------------------------------------------- inverse

  /** Days before the March-based year y. */
  function YearStart(y: int, gregorian: bool): (n: int)
  {
    if gregorian then 365 * y + y / 4 - y / 100 + y / 400 - 32045 else 365 * y + y / 4 - 32083
  }


  lemma InverseParts(t: Date, y: int, m: int, d: int)
    requires 0 <= m <= 11 && y >= 84 && DateOf(t, y, m, d)
    ensures 1 <= t.month <= 12 && t.year >= -4799
    ensures TimeToDay(t) == d + 1 + (153 * m + 2) / 5 + YearStart(y, !Earlier(t, GREGORIAN_DATE))
  {
    var a := (14 - t.month) / 12;
    assert a == if m <= 9 then 0 else 1;
    assert t.year + 4800 - a == y && t.month + 12 * a - 3 == m;
  }

  /** The century correction of DayToTime is the one of TimeToDay. */
  lemma Centuries(jd: nat, y: int)
    requires jd >= GREGORIAN_DAY && y == (4 * Shifted(jd) + 3) / 1461 + 84
    ensures (((4 * jd + 274277) / 146097) * 3) / 4 == y / 100 - y / 400
  {
    var e := 4 * Shifted(jd) + 3;
    var c, v, s := CenturyParts(jd, e);
    CenturyYear(c, v, s, e);
    if v + 2 - s >= 0 {
      SameCentury(c, (v + 2 - s) / 1461, y);
    } else {
      assert y == 100 * c - 101;
      SameCentury(c - 1, 99, y);
      assert (3 * c) / 4 == (3 * (c - 1)) / 4;
    }
  }

  lemma SameCentury(c: int, q: int, y: int)
    requires y == 100 * c - 100 + q && 0 <= q <= 99
    ensures y / 100 == c - 1 && y / 100 - y / 400 == (3 * c) / 4
  {
    assert y / 400 == (c - 1) / 4;
    var k, r := (c - 1) / 4, (c - 1) % 4;
    assert c == 4 * k + r + 1;
  }

  lemma CenturyYear(c: int, v: int, s: int, e: int)
    requires 0 <= v < 146097 && s == (3 * c) % 4 && e == 146100 * c + v - 268822 - s && (v + c) % 4 == 1
    ensures v + 2 - s >= 0 ==> e / 1461 == 100 * c - 184 + (v + 2 - s) / 1461 && 0 <= (v + 2 - s) / 1461 <= 99
    ensures v + 2 - s < 0 ==> e / 1461 == 100 * c - 185 && c % 4 == 1 && e % 1461 == 1460
    ensures v + 2 - s >= 0 ==> e % 1461 == (v + 2 - s) % 1461
  {
    var w := v + 2 - s;
    assert e == 1461 * (100 * c - 184) + w;
  }

  // ---------------------------------------------------------------- order

  lemma MonthOrder(g1: int, m1: int, d1: int, g2: int, m2: int, d2: int)
    requires MonthOf(g1, m1, d1) && MonthOf(g2, m2, d2) && g1 < g2
    ensures m1 < m2 || (m1 == m2 && d1 < d2)
  {
    if m1 > m2 {
      MonthStartOrder(m2 + 1, m1);
      assert false;
    }
  }

  lemma MonthStartOrder(m1: int, m2: int)
    requires m1 <= m2
    ensures (153 * m1 + 2) / 5 <= (153 * m2 + 2) / 5
  {
  }

  lemma DateOrder(t1: Date, y1: int, m1: int, d1: int, t2: Date, y2: int, m2: int, d2: int)
    requires 0 <= m1 <= 11 && 0 <= m2 <= 11 && DateOf(t1, y1, m1, d1) && DateOf(t2, y2, m2, d2)
    requires y1 < y2 || (y1 == y2 && (m1 < m2 || (m1 == m2 && d1 < d2)))
    ensures Earlier(t1, t2)
  {
  }

  /** Later shifted days are later dates. */
  lemma CivilIncreasing(f1: nat, f2: nat)
    requires f1 < f2
    ensures Earlier(Civil(f1), Civil(f2))
  {
    var y1, g1, m1, d1 := CivilParts(f1);
    var y2, g2, m2, d2 := CivilParts(f2);
    if y1 == y2 {
      MonthOrder(g1, m1, d1, g2, m2, d2);
    }
    DateOrder(Civil(f1), y1, m1, d1, Civil(f2), y2, m2, d2);
  }

  lemma ShiftedIncreasing(a: nat, b: nat)
    requires a < b
    ensures Shifted(a) < Shifted(b)
  {
    if b >= GREGORIAN_DAY {
      var c := (4 * b + 274277) / 146097;
      if a >= GREGORIAN_DAY {
        assert (4 * a + 274277) / 146097 <= c;
      } else {
        assert c >= 64;
      }
    }
  }

  /** Dates increase strictly with the day number, also from 1582-10-04 to 1582-10-15. */
  lemma DatesIncrease(a: nat, b: nat)
    requires a < b
    ensures Earlier(DayToTime(a), DayToTime(b))
  {
    ShiftedIncreasing(a, b);
    CivilIncreasing(Shifted(a), Shifted(b));
  }

  lemma GregorianStart()
    ensures DayToTime(GREGORIAN_DAY) == GREGORIAN_DATE
  {
    assert Shifted(GREGORIAN_DAY) == 2300572;
    assert 4 * 2300572 + 3 == 1461 * 6298 + 913;
    assert (4 * 2300572 + 3) / 1461 == 6298;
    assert (4 * 2300572 + 3) % 1461 == 913;
  }

  lemma JulianEnd()
    ensures DayToTime(GREGORIAN_DAY - 1) == JULIAN_LAST
  {
    assert Shifted(GREGORIAN_DAY - 1) == 2300561;
    assert (4 * 2300561 + 3) / 1461 == 6298;
    assert (4 * 2300561 + 3) % 1461 == 869;
  }

  lemma CalendarOf(jd: nat)
    ensures Earlier(DayToTime(jd), GREGORIAN_DATE) <==> jd < GREGORIAN_DAY
  {
    GregorianStart();
    if jd < GREGORIAN_DAY {
      DatesIncrease(jd, GREGORIAN_DAY);
    } else if jd > GREGORIAN_DAY {
      DatesIncrease(GREGORIAN_DAY, jd);
    }
  }

  /** TimeToDay inverts DayToTime. */
  lemma DayRoundTrip(jd: nat)
    ensures var t := DayToTime(jd);
            1 <= t.month <= 12 && t.year >= -4799 && TimeToDay(t) == jd
  {
    var f := Shifted(jd);
    var y, g, m, d := CivilParts(f);
    InverseParts(Civil(f), y, m, d);
    CalendarOf(jd);
    if jd >= GREGORIAN_DAY {
      assert y == (4 * f + 3) / 1461 + 84;
      Centuries(jd, y);
    }
  }

  // ---------------------------------------------------------------- valid dates

  predicate LeapYear(year: int, gregorian: bool)
  {
    year % 4 == 0 && (gregorian ==> year % 100 != 0 || year % 400 == 0)
  }

  function DaysInMonth(year: int, month: int, gregorian: bool): (n: int)
  {
    if month == 2 then (if LeapYear(year, gregorian) then 29 else 28)
    else if month == 4 || month == 6 || month == 9 || month == 11 then 30
    else 31
  }

  predicate ValidDate(t: Date)
  {
    1 <= t.month <= 12 && 1 <= t.day <= DaysInMonth(t.year, t.month, !Earlier(t, GREGORIAN_DATE))
  }

  lemma MonthLengths(t: Date, y: int, g: int, m: int, d: int)
    requires MonthOf(g, m, d) && DateOf(t, y, m, d) && 0 <= g <= 365
    ensures 1 <= t.month <= 12 && 1 <= t.day
    ensures t.month != 2 ==> t.day <= DaysInMonth(t.year, t.month, true)
    ensures t.month == 2 ==> t.year == y - 4799 && (t.day <= 28 || (t.day == 29 && g == 365))
  {
  }

  /** 29 February occurs in leap years only. */
  lemma LeapDay(jd: nat, y: int)
    requires y == (4 * Shifted(jd) + 3) / 1461 + 84 && ((4 * Shifted(jd) + 3) % 1461) / 4 == 365
    ensures LeapYear(y - 4799, jd >= GREGORIAN_DAY)
  {
    var e := 4 * Shifted(jd) + 3;
    LastOfFour(Shifted(jd), e, e / 1461);
    if jd >= GREGORIAN_DAY {
      var c, v, s := CenturyParts(jd, e);
      CenturyYear(c, v, s, e);
      CenturyLeap(c, v, s, e, y);
    }
  }

  /** Day 365 ends the fourth year of four. */
  lemma LastOfFour(f: nat, e: int, q: int)
    requires e == 4 * f + 3 && q == e / 1461 && (e % 1461) / 4 == 365
    ensures e % 1461 == 1460 && (q + 84 - 4799) % 4 == 0
  {
    assert e == 1461 * q + e % 1461;
    assert q % 4 == 3;
  }

  /** The century c that DayToTime computes, and the rest. */
  lemma CenturyParts(jd: nat, e: int) returns (c: int, v: int, s: int)
    requires jd >= GREGORIAN_DAY && e == 4 * Shifted(jd) + 3
    ensures c == (4 * jd + 274277) / 146097 && 0 <= v < 146097 && s == (3 * c) % 4
    ensures e == 146100 * c + v - 268822 - s && (v + c) % 4 == 1
  {
    var u := 4 * jd + 274277;
    c, v := u / 146097, u % 146097;
    s := (3 * c) % 4;
    assert 3 * c == 4 * ((3 * c) / 4) + s;
    assert v + c == 4 * (jd - 36524 * c) + 274277;
  }

  lemma FourCenturies(c: int, year: int)
    requires c % 4 == 1 && year == 100 * (c - 49)
    ensures year % 400 == 0
  {
    var k := c / 4;
    assert c - 49 == 4 * (k - 12);
    DivModUnique(year, 400, k - 12, 0);
  }

  /** In the Gregorian calendar the last day of four falls into a century year only every 400 years. */
  lemma CenturyLeap(c: int, v: int, s: int, e: int, y: int)
    requires 0 <= v < 146097 && s == (3 * c) % 4 && (v + c) % 4 == 1 && e % 1461 == 1460 && y == e / 1461 + 84
    requires v + 2 - s >= 0 ==> e / 1461 == 100 * c - 184 + (v + 2 - s) / 1461 && 0 <= (v + 2 - s) / 1461 <= 99
    requires v + 2 - s < 0 ==> e / 1461 == 100 * c - 185 && c % 4 == 1
    requires v + 2 - s >= 0 ==> e % 1461 == (v + 2 - s) % 1461
    ensures (y - 4799) % 100 != 0 || (y - 4799) % 400 == 0
  {
    if v + 2 - s >= 0 {
      var q := (v + 2 - s) / 1461;
      assert v + 2 - s == 1461 * q + 1460;
      DivModUnique(y - 4799, 100, c - 49, q + 1);
    } else {
      FourCenturies(c, y - 4799);
    }
  }

  /** DayToTime yields dates of the calendar in force. */
  lemma DayToTimeValid(jd: nat)
    ensures ValidDate(DayToTime(jd))
  {
    var f := Shifted(jd);
    var y, g, m, d := CivilParts(f);
    MonthLengths(Civil(f), y, g, m, d);
    CalendarOf(jd);
    if g == 365 {
      LeapDay(jd, y);
    }
  }

  // ---------------------------------------------------------------- every date of the calendars

  lemma YearLength(y: int, gregorian: bool)
    ensures YearStart(y + 1, gregorian) - YearStart(y, gregorian) == (if LeapYear(y + 1, gregorian) then 366 else 365)
  {
    assert (y + 1) / 4 - y / 4 == (if (y + 1) % 4 == 0 then 1 else 0);
    assert (y + 1) / 100 - y / 100 == (if (y + 1) % 100 == 0 then 1 else 0);
    assert (y + 1) / 400 - y / 400 == (if (y + 1) % 400 == 0 then 1 else 0);
  }

  lemma {:induction false} YearStarts(y1: int, y2: int, gregorian: bool)
    requires y1 <= y2
    ensures YearStart(y1, gregorian) <= YearStart(y2, gregorian)
    decreases y2 - y1
  {
    if y1 < y2 {
      YearLength(y1, gregorian);
      YearStarts(y1 + 1, y2, gregorian);
    }
  }

  /** A valid date as day g, in month m, of the March-based year y. */
  lemma DateParts(t: Date) returns (y: int, g: int, m: int, d: int)
    requires ValidDate(t) && t.year >= -4799
    ensures MonthOf(g, m, d) && DateOf(t, y, m, d) && y >= 0
    ensures 0 <= g < YearStart(y + 1, !Earlier(t, GREGORIAN_DATE)) - YearStart(y, !Earlier(t, GREGORIAN_DATE))
    ensures TimeToDay(t) == YearStart(y, !Earlier(t, GREGORIAN_DATE)) + g + 1
  {
    var a := (14 - t.month) / 12;
    assert a == if t.month <= 2 then 1 else 0;
    y, m, d := t.year + 4800 - a, t.month + 12 * a - 3, t.day - 1;
    g := (153 * m + 2) / 5 + d;
    MonthFits(t, m, g);
    YearLength(y, !Earlier(t, GREGORIAN_DATE));
    LeapShift(y + 1, !Earlier(t, GREGORIAN_DATE));
  }

  lemma MonthFits(t: Date, m: int, g: int)
    requires ValidDate(t) && m == (if t.month <= 2 then t.month + 9 else t.month - 3)
    requires g == (153 * m + 2) / 5 + t.day - 1
    ensures m < 11 ==> g < (153 * (m + 1) + 2) / 5
    ensures 0 <= g < 366
    ensures t.month <= 2 && !LeapYear(t.year, !Earlier(t, GREGORIAN_DATE)) ==> g < 365
    ensures t.month > 2 ==> g <= 305
  {
    if m == 0 {} else if m == 1 {} else if m == 2 {} else if m == 3 {} else if m == 4 {} else if m == 5 {}
    else if m == 6 {} else if m == 7 {} else if m == 8 {} else if m == 9 {} else if m == 10 {} else {}
  }

  /** Day numbers increase strictly with the dates of one calendar. */
  lemma DaysIncrease(a: Date, b: Date)
    requires ValidDate(a) && ValidDate(b) && a.year >= -4799 && Earlier(a, b)
    requires Earlier(a, GREGORIAN_DATE) <==> Earlier(b, GREGORIAN_DATE)
    ensures TimeToDay(a) < TimeToDay(b)
  {
    var gregorian := !Earlier(a, GREGORIAN_DATE);
    var y1, g1, m1, d1 := DateParts(a);
    var y2, g2, m2, d2 := DateParts(b);
    PartsOrder(a, y1, m1, d1, b, y2, m2, d2);
    CountOrder(y1, g1, m1, d1, y2, g2, m2, d2, gregorian);
  }

  lemma CountOrder(y1: int, g1: int, m1: int, d1: int, y2: int, g2: int, m2: int, d2: int, gregorian: bool)
    requires MonthOf(g1, m1, d1) && MonthOf(g2, m2, d2)
    requires y1 < y2 || (y1 == y2 && (m1 < m2 || (m1 == m2 && d1 < d2)))
    requires g1 < YearStart(y1 + 1, gregorian) - YearStart(y1, gregorian) && 0 <= g2
    ensures YearStart(y1, gregorian) + g1 < YearStart(y2, gregorian) + g2
  {
    if y1 < y2 {
      YearStarts(y1 + 1, y2, gregorian);
    } else {
      DayOrder(g1, m1, d1, g2, m2, d2);
    }
  }

  lemma PartsOrder(t1: Date, y1: int, m1: int, d1: int, t2: Date, y2: int, m2: int, d2: int)
    requires 0 <= m1 <= 11 && 0 <= m2 <= 11 && DateOf(t1, y1, m1, d1) && DateOf(t2, y2, m2, d2)
    requires Earlier(t1, t2)
    ensures y1 < y2 || (y1 == y2 && (m1 < m2 || (m1 == m2 && d1 < d2)))
  {
  }

  /** 4800 years are whole leap cycles of both calendars. */
  lemma LeapShift(y: int, gregorian: bool)
    ensures LeapYear(y - 4800, gregorian) == LeapYear(y, gregorian)
  {
    DivModUnique(y - 4800, 4, y / 4 - 1200, y % 4);
    DivModUnique(y - 4800, 100, y / 100 - 48, y % 100);
    DivModUnique(y - 4800, 400, y / 400 - 12, y % 400);
  }

  lemma DayOrder(g1: int, m1: int, d1: int, g2: int, m2: int, d2: int)
    requires MonthOf(g1, m1, d1) && MonthOf(g2, m2, d2)
    requires m1 < m2 || (m1 == m2 && d1 < d2)
    ensures g1 < g2
  {
    if m1 < m2 {
      MonthStartOrder(m1 + 1, m2);
    }
  }

  /** The dates that exist: those of the Julian calendar up to 1582-10-04 and of the Gregorian one from 1582-10-15. */
  predicate CalendarDate(t: Date)
  {
    ValidDate(t) && (Earlier(t, GREGORIAN_DATE) ==> t == JULIAN_LAST || Earlier(t, JULIAN_LAST))
  }

  lemma CalendarDay(t: Date)
    requires CalendarDate(t) && t.year >= -4799
    ensures TimeToDay(t) < GREGORIAN_DAY <==> Earlier(t, GREGORIAN_DATE)
  {
    GregorianStart();
    JulianEnd();
    DayRoundTrip(GREGORIAN_DAY);
    DayRoundTrip(GREGORIAN_DAY - 1);
    if Earlier(t, JULIAN_LAST) {
      DaysIncrease(t, JULIAN_LAST);
    } else if Earlier(GREGORIAN_DATE, t) {
      DaysIncrease(GREGORIAN_DATE, t);
    }
  }

  /** DayToTime inverts TimeToDay on every date that exists since day 0. */
  lemma DateRoundTrip(t: Date)
    requires CalendarDate(t) && t.year >= -4799 && TimeToDay(t) >= 0
    ensures DayToTime(TimeToDay(t)) == t
  {
    var jd := TimeToDay(t);
    var u := DayToTime(jd);
    DayRoundTrip(jd);
    DayToTimeValid(jd);
    CalendarDay(t);
    CalendarOf(jd);
    if Earlier(t, u) {
      DaysIncrease(t, u);
    } else if Earlier(u, t) {
      DaysIncrease(u, t);
    }
  }
}
