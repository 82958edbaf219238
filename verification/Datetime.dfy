/**
  driver/internal/protocol/encoding/datetime.go: the integer codes of timestamps, dates and times.
  A Time is a UTC instant by its civil components, on a date of the proleptic Gregorian calendar, as
  the time package keeps them.
 */
module Datetime {
  import opened Bytes
  import opened Julian

  datatype Time = Time(date: Date, hour: int, minute: int, second: int, nano: int)

  const LONGDATE_NULL: int := 3155380704000000001
  const SECONDDATE_NULL: int := 315538070401
  const DAYDATE_NULL: int := 3652062
  const SECONDTIME_NULL: int := 86402

  const JULIAN_HDB: int := 1721423
  const DAY_SECONDS: int := 86400
  const TICKS_PER_SECOND: int := 10000000
  const DAY_TICKS: int := 864000000000
  const FIRST_DATE: Date := Date(1, 1, 1)
  const LAST_DATE: Date := Date(9999, 12, 31)

  /** The times the package time can hold: dates follow Gregorian leap years at all times. */
  predicate ValidTime(t: Time)
  {
    && 1 <= t.date.month <= 12 && 1 <= t.date.day <= DaysInMonth(t.date.year, t.date.month, true)
    && 0 <= t.hour < 24 && 0 <= t.minute < 60 && 0 <= t.second < 60 && 0 <= t.nano < 1000000000
  }

  /** Years 1 to 9999, what the server's date types hold. */
  predicate InRange(t: Time)
  {
    ValidTime(t) && 1 <= t.date.year <= 9999
  }

  /** The times the conversions are modelled for: from year -4799 on no division meets a negative number. */
  predicate Dated(t: Time)
  {
    ValidTime(t) && t.date.year >= -4799
  }

  /** The ten days that the change of calendar skipped. */
  predicate Skipped(d: Date)
  {
    d.year == 1582 && d.month == 10 && 5 <= d.day <= 14
  }

  /** time.Date: 29 February outside Gregorian leap years becomes 1 March. */
  function Normalised(d: Date): (r: Date)
  {
    if d.month == 2 && d.day == 29 && !LeapYear(d.year, true) then Date(d.year, 3, 1) else d
  }

  // ---------------------------------------------------------------- the conversions

  function TimeToDaydate(t: Time): (dd: int)
    requires Dated(t)
  {
    TimeToDay(t.date) - JULIAN_HDB
  }

  function DaydateToTime(dd: nat): (t: Time)
  {
    Time(Normalised(DayToTime(dd + JULIAN_HDB)), 0, 0, 0, 0)
  }

  /** t.Add of less than a day to a midnight. */
  function AddToMidnight(t: Time, nanos: int): (r: Time)
    requires 0 <= nanos < DAY_SECONDS * 1000000000
  {
    var s := nanos / 1000000000;
    Time(t.date, s / 3600, s / 60 % 60, s % 60, nanos % 1000000000)
  }

  function TimeToLongdate(t: Time): (ld: int)
    requires Dated(t)
  {
    ((((TimeToDaydate(t) - 1) * 24 + t.hour) * 60 + t.minute) * 60 + t.second) * TICKS_PER_SECOND + t.nano / 100 + 1
  }

  function LongdateToTime(longdate: int): (t: Time)
    requires longdate >= 1
  {
    var ld := longdate - 1;
    AddToMidnight(DaydateToTime(ld / DAY_TICKS + 1), (ld % DAY_TICKS) * 100)
  }

  function TimeToSeconddate(t: Time): (sd: int)
    requires Dated(t)
  {
    (((TimeToDaydate(t) - 1) * 24 + t.hour) * 60 + t.minute) * 60 + t.second + 1
  }

  function SeconddateToTime(seconddate: int): (t: Time)
    requires seconddate >= 1
  {
    var sd := seconddate - 1;
    AddToMidnight(DaydateToTime(sd / DAY_SECONDS + 1), (sd % DAY_SECONDS) * 1000000000)
  }

  function TimeToSecondtime(t: Time): (st: int)
  {
    (t.hour * 60 + t.minute) * 60 + t.second + 1
  }

  function SecondtimeToTime(st: int): (t: Time)
    requires 1 <= st <= DAY_SECONDS
  {
    AddToMidnight(Time(FIRST_DATE, 0, 0, 0, 0), (st - 1) * 1000000000)
  }

  // The decoder takes one code of each type for null.

  function DecodeLongdate(ld: int): (r: Option<Time>)
    requires ld >= 1
  {
    if ld == LONGDATE_NULL then None else Some(LongdateToTime(ld))
  }

  function DecodeSeconddate(sd: int): (r: Option<Time>)
    requires sd >= 1
  {
    if sd == SECONDDATE_NULL then None else Some(SeconddateToTime(sd))
  }

  function DecodeDaydate(dd: nat, emptyDateAsNull: bool): (r: Option<Time>)
  {
    if dd == DAYDATE_NULL || (emptyDateAsNull && dd == 0) then None else Some(DaydateToTime(dd))
  }

  function DecodeSecondtime(st: int): (r: Option<Time>)
    requires 1 <= st <= DAY_SECONDS || st == SECONDTIME_NULL
  {
    if st == SECONDTIME_NULL then None else Some(SecondtimeToTime(st))
  }

  // ---------------------------------------------------------------- days

  /** A Gregorian date before the change of calendar is a Julian date, too. */
  lemma GregorianIsValid(d: Date)
    requires 1 <= d.month <= 12 && 1 <= d.day <= DaysInMonth(d.year, d.month, true)
    ensures ValidDate(d) && (Skipped(d) <==> !CalendarDate(d)) && Normalised(d) == d
  {
  }

  lemma FirstDay()
    ensures TimeToDay(FIRST_DATE) == JULIAN_HDB + 1
  {
    assert 4799 / 4 == 1199;
  }

  lemma LastDay()
    ensures TimeToDay(LAST_DATE) == JULIAN_HDB + DAYDATE_NULL - 1
  {
    assert 14799 / 4 == 3699 && 14799 / 100 == 147 && 14799 / 400 == 36;
  }

  /** Day numbers increase over the whole range, also across the change of calendar. */
  lemma DaysOrdered(a: Date, b: Date)
    requires CalendarDate(a) && CalendarDate(b) && a.year >= -4799 && Earlier(a, b)
    ensures TimeToDay(a) < TimeToDay(b)
  {
    if Earlier(a, GREGORIAN_DATE) <==> Earlier(b, GREGORIAN_DATE) {
      DaysIncrease(a, b);
    } else {
      CalendarDay(a);
      CalendarDay(b);
    }
  }

  lemma SkippedDay(d: Date)
    requires Skipped(d)
    ensures TimeToDay(d) >= GREGORIAN_DAY && ValidDate(d) && Earlier(d, GREGORIAN_DATE)
  {
    JulianEnd();
    DayRoundTrip(GREGORIAN_DAY - 1);
    DaysIncrease(JULIAN_LAST, d);
  }

  /** The day codes of the range are 1 to 3652061, one below the code of null. */
  lemma DaydateRange(t: Time)
    requires InRange(t)
    ensures 1 <= TimeToDaydate(t) < DAYDATE_NULL
  {
    GregorianIsValid(t.date);
    FirstDay();
    LastDay();
    if Skipped(t.date) {
      DaysIncrease(FIRST_DATE, t.date);
      SkippedUpper(t.date);
    } else {
      if t.date != FIRST_DATE {
        DaysOrdered(FIRST_DATE, t.date);
      }
      if t.date != LAST_DATE {
        DaysOrdered(t.date, LAST_DATE);
      }
    }
  }

  lemma SkippedUpper(d: Date)
    requires Skipped(d)
    ensures TimeToDay(d) < GREGORIAN_DAY + 10
  {
    assert 6382 / 4 == 1595;
  }

  /** A date read back is midnight of that date, unless it is one of the ten skipped ones. */
  lemma DaydateRoundTrip(t: Time, emptyDateAsNull: bool)
    requires InRange(t)
    ensures TimeToDaydate(t) >= 1
    ensures DecodeDaydate(TimeToDaydate(t), emptyDateAsNull) == Some(Time(t.date, 0, 0, 0, 0)) <==> !Skipped(t.date)
  {
    DaydateRange(t);
    GregorianIsValid(t.date);
    var jd := TimeToDay(t.date);
    if Skipped(t.date) {
      SkippedDay(t.date);
      CalendarOf(jd);
      NormalisedLater(DayToTime(jd));
    } else {
      DateRoundTrip(t.date);
    }
  }

  lemma NormalisedLater(d: Date)
    requires !Earlier(d, GREGORIAN_DATE)
    ensures !Earlier(Normalised(d), GREGORIAN_DATE)
  {
  }

  /** A day code survives, unless it is 29 February of a century year that only the Julian calendar has. */
  lemma DayCodeRoundTrip(dd: nat)
    requires 1 <= dd < DAYDATE_NULL
    ensures InRange(DaydateToTime(dd))
    ensures TimeToDaydate(DaydateToTime(dd)) == dd
            <==> Normalised(DayToTime(dd + JULIAN_HDB)) == DayToTime(dd + JULIAN_HDB)
  {
    var jd := dd + JULIAN_HDB;
    var d := DayToTime(jd);
    DayToTimeValid(jd);
    DayRoundTrip(jd);
    YearInRange(jd);
    if Normalised(d) != d {
      JulianLeapDay(d);
    }
  }

  lemma YearInRange(jd: nat)
    requires JULIAN_HDB < jd < JULIAN_HDB + DAYDATE_NULL
    ensures 1 <= DayToTime(jd).year <= 9999
  {
    FirstDay();
    LastDay();
    DateRoundTrip(FIRST_DATE);
    DateRoundTrip(LAST_DATE);
    if jd > JULIAN_HDB + 1 {
      DatesIncrease(JULIAN_HDB + 1, jd);
    }
    if jd < JULIAN_HDB + DAYDATE_NULL - 1 {
      DatesIncrease(jd, JULIAN_HDB + DAYDATE_NULL - 1);
    }
  }

  /** 29 February and the 1 March it is normalised to have different day codes. */
  lemma JulianLeapDay(d: Date)
    requires ValidDate(d) && d.year >= 1 && Normalised(d) != d
    ensures Earlier(d, GREGORIAN_DATE) && TimeToDay(Normalised(d)) != TimeToDay(d)
  {
    DaysIncrease(d, Normalised(d));
  }

  const LEAP_CODE: nat := 547569

  /** Day code 547569 is 1500-02-29, a date that is read as 1500-03-01 and written as the next day code. */
  lemma JulianLeapDayMoves()
    ensures DayToTime(LEAP_CODE + JULIAN_HDB) == Date(1500, 2, 29)
    ensures DaydateToTime(LEAP_CODE) == Time(Date(1500, 3, 1), 0, 0, 0, 0)
    ensures TimeToDaydate(DaydateToTime(LEAP_CODE)) == LEAP_CODE + 1
  {
    var jd := LEAP_CODE + JULIAN_HDB;
    var d := Date(1500, 2, 29);
    assert TimeToDay(d) == jd by { assert 6299 / 4 == 1574; }
    DateRoundTrip(d);
    assert TimeToDay(Date(1500, 3, 1)) == jd + 1 by { assert 6300 / 4 == 1575; }
  }

  // ---------------------------------------------------------------- 100 ns and 1 s

  /** The 100 ns ticks of the day. */
  function Ticks(t: Time): (n: int)
  {
    ((t.hour * 60 + t.minute) * 60 + t.second) * TICKS_PER_SECOND + t.nano / 100
  }

  function Seconds(t: Time): (n: int)
  {
    (t.hour * 60 + t.minute) * 60 + t.second
  }

  lemma ClockRange(t: Time)
    requires ValidTime(t)
    ensures 0 <= Ticks(t) < DAY_TICKS && 0 <= Seconds(t) < DAY_SECONDS
  {
  }

  lemma LongdateSplit(t: Time)
    requires InRange(t)
    ensures TimeToLongdate(t) == (TimeToDaydate(t) - 1) * DAY_TICKS + Ticks(t) + 1
    ensures TimeToSeconddate(t) == (TimeToDaydate(t) - 1) * DAY_SECONDS + Seconds(t) + 1
  {
  }

  /** Longdates and seconddates of the range fit their type and lie below the code of null. */
  lemma CodesInRange(t: Time)
    requires InRange(t)
    ensures 1 <= TimeToLongdate(t) < LONGDATE_NULL < 0x8000_0000_0000_0000
    ensures 1 <= TimeToSeconddate(t) < SECONDDATE_NULL < 0x8000_0000_0000_0000
    ensures 1 <= TimeToDaydate(t) < DAYDATE_NULL < 0x8000_0000
    ensures 1 <= TimeToSecondtime(t) <= DAY_SECONDS < SECONDTIME_NULL < 0x8000_0000
  {
    DaydateRange(t);
    ClockRange(t);
    LongdateSplit(t);
  }

  const LAST_INSTANT: Time := Time(LAST_DATE, 23, 59, 59, 999999999)

  /** The codes of null follow those of the last instant of 9999, for times of day with one code between. */
  lemma NullCodes()
    ensures LONGDATE_NULL == TimeToLongdate(LAST_INSTANT) + 1 && SECONDDATE_NULL == TimeToSeconddate(LAST_INSTANT) + 1
    ensures DAYDATE_NULL == TimeToDaydate(LAST_INSTANT) + 1 && SECONDTIME_NULL == TimeToSecondtime(LAST_INSTANT) + 2
  {
    LastDay();
  }

  /** All codes count from the first instant of year 1 on, which has code 1. */
  lemma FirstCodes()
    ensures var t := Time(FIRST_DATE, 0, 0, 0, 0);
            && TimeToLongdate(t) == 1 && TimeToSeconddate(t) == 1 && TimeToDaydate(t) == 1 && TimeToSecondtime(t) == 1
  {
    FirstDay();
  }

  function TruncatedTo(t: Time, unit: int): (r: Time)
    requires unit > 0
  {
    t.(nano := t.nano / unit * unit)
  }

  const SECOND_NANOS: int := 1000000000

  lemma ClockOf(t: Time)
    requires ValidTime(t)
    ensures 0 <= Ticks(t) * 100 < DAY_SECONDS * SECOND_NANOS
            && 0 <= Seconds(t) * SECOND_NANOS < DAY_SECONDS * SECOND_NANOS
    ensures AddToMidnight(Time(t.date, 0, 0, 0, 0), Ticks(t) * 100) == TruncatedTo(t, 100)
    ensures AddToMidnight(Time(t.date, 0, 0, 0, 0), Seconds(t) * SECOND_NANOS) == TruncatedTo(t, SECOND_NANOS)
  {
    ClockRange(t);
    ClockParts(Seconds(t), t.hour, t.minute, t.second);
    var rest := t.nano / 100 * 100;
    assert Ticks(t) * 100 == Seconds(t) * SECOND_NANOS + rest;
    assert (Seconds(t) * SECOND_NANOS + rest) / SECOND_NANOS == Seconds(t);
  }

  lemma ClockParts(s: int, h: int, m: int, sec: int)
    requires s == (h * 60 + m) * 60 + sec && 0 <= h < 24 && 0 <= m < 60 && 0 <= sec < 60
    ensures s / 3600 == h && s / 60 % 60 == m && s % 60 == sec
  {
    assert s / 60 == h * 60 + m;
  }

  lemma DayAndRest(d: int, unit: int, r: int)
    requires unit > 0 && 0 <= r < unit && d >= 0
    ensures (d * unit + r) / unit == d && (d * unit + r) % unit == r
  {
    DivModUnique(d * unit + r, unit, d, r);
  }

  /** A longdate read back is the time to 100 ns, on every date that the calendars have. */
  lemma LongdateRoundTrip(t: Time)
    requires InRange(t)
    ensures TimeToLongdate(t) >= 1
    ensures DecodeLongdate(TimeToLongdate(t)) == Some(TruncatedTo(t, 100)) <==> !Skipped(t.date)
  {
    CodesInRange(t);
    ClockRange(t);
    LongdateSplit(t);
    DayAndRest(TimeToDaydate(t) - 1, DAY_TICKS, Ticks(t));
    DaydateRoundTrip(t, false);
    ClockOf(t);
    assert LongdateToTime(TimeToLongdate(t)) == AddToMidnight(DaydateToTime(TimeToDaydate(t)), Ticks(t) * 100);
  }

  /** A seconddate read back is the time to the second, on every date that the calendars have. */
  lemma SeconddateRoundTrip(t: Time)
    requires InRange(t)
    ensures TimeToSeconddate(t) >= 1
    ensures DecodeSeconddate(TimeToSeconddate(t)) == Some(TruncatedTo(t, 1000000000)) <==> !Skipped(t.date)
  {
    CodesInRange(t);
    ClockRange(t);
    LongdateSplit(t);
    DayAndRest(TimeToDaydate(t) - 1, DAY_SECONDS, Seconds(t));
    DaydateRoundTrip(t, false);
    ClockOf(t);
    assert SeconddateToTime(TimeToSeconddate(t))
           == AddToMidnight(DaydateToTime(TimeToDaydate(t)), Seconds(t) * SECOND_NANOS);
  }

  /** A secondtime read back is the time of day on 0001-01-01. */
  lemma SecondtimeRoundTrip(t: Time)
    requires ValidTime(t)
    ensures 1 <= TimeToSecondtime(t) <= DAY_SECONDS
    ensures DecodeSecondtime(TimeToSecondtime(t)) == Some(Time(FIRST_DATE, t.hour, t.minute, t.second, 0))
  {
    ClockRange(t);
    ClockOf(t.(date := FIRST_DATE));
  }

  // ---------------------------------------------------------------- order

  ghost predicate Before(a: Date, m: int, b: Date, n: int)
  {
    Earlier(a, b) || (a == b && m < n)
  }

  lemma DayFirst(d1: int, r1: int, d2: int, r2: int, unit: int)
    requires 0 <= r1 < unit && 0 <= r2 < unit && d1 < d2
    ensures d1 * unit + r1 < d2 * unit + r2
  {
    assert (d2 - d1 - 1) * unit >= 0;
    assert d2 * unit == d1 * unit + unit + (d2 - d1 - 1) * unit;
  }

  lemma CodesIncrease(t: Time, u: Time)
    requires InRange(t) && InRange(u) && !Skipped(t.date) && !Skipped(u.date)
    ensures Before(t.date, Ticks(t), u.date, Ticks(u)) ==> TimeToLongdate(t) < TimeToLongdate(u)
    ensures Before(t.date, Seconds(t), u.date, Seconds(u)) ==> TimeToSeconddate(t) < TimeToSeconddate(u)
  {
    GregorianIsValid(t.date);
    GregorianIsValid(u.date);
    LongdateSplit(t);
    LongdateSplit(u);
    ClockRange(t);
    ClockRange(u);
    if Earlier(t.date, u.date) {
      DaysOrdered(t.date, u.date);
      DayFirst(TimeToDaydate(t) - 1, Ticks(t), TimeToDaydate(u) - 1, Ticks(u), DAY_TICKS);
      DayFirst(TimeToDaydate(t) - 1, Seconds(t), TimeToDaydate(u) - 1, Seconds(u), DAY_SECONDS);
    }
  }

  /** Longdates are ordered as the times are in steps of 100 ns, seconddates as in steps of 1 s. */
  lemma CodesOrdered(t: Time, u: Time)
    requires InRange(t) && InRange(u) && !Skipped(t.date) && !Skipped(u.date)
    ensures TimeToLongdate(t) < TimeToLongdate(u) <==> Before(t.date, Ticks(t), u.date, Ticks(u))
    ensures TimeToSeconddate(t) < TimeToSeconddate(u) <==> Before(t.date, Seconds(t), u.date, Seconds(u))
  {
    CodesIncrease(t, u);
    CodesIncrease(u, t);
  }
}
