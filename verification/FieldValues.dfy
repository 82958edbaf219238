/**
  The decoders of fixed-width fields (driver/internal/protocol/encoding/decode.go) and the encoders of
  dates and times (driver/internal/protocol/encoding/encode.go): what a reader of such a field gets.
 */
module FieldValues {
  import opened Bytes
  import opened Headers
  import opened Julian
  import opened Datetime

  /** A value read from a field; floats by their IEEE 754 bits. A code before the first day is not modelled. */
  datatype Got =
    | NullValue | BoolValue(b: bool) | IntValue(i: int) | BitsValue(bits: nat) | TimeValue(t: Time) | TooEarly

  const MILLISECOND: int := 1000000

  // ---------------------------------------------------------------- booleans, integers, floats

  /** BooleanField: 1 is null, 0 is false. */
  function ReadBoolean(b: byte): (g: Got)
  {
    if b == 1 then NullValue else BoolValue(b != 0)
  }

  function ReadInt(s: seq<byte>): (g: Got)
  {
    IntValue(Signed(LEValue(s), |s|))
  }

  /** RealField and DoubleField: all bits set is null. */
  function ReadFloat(s: seq<byte>): (g: Got)
  {
    if LEValue(s) == Pow256(|s|) - 1 then NullValue else BitsValue(LEValue(s))
  }

  /** An integer is read back exactly if it is one of k bytes. */
  lemma {:induction false} IntBack(i: int, k: nat)
    ensures ReadInt(LE(i, k)) == IntValue(i) <==> -2 * i <= Pow256(k) && 2 * i < Pow256(k)
  {
    if -2 * i <= Pow256(k) && 2 * i < Pow256(k) {
      SignedRoundTrip(i, k);
    } else {
      LEValueBound(LE(i, k));
    }
  }

  lemma {:induction false} ByteBack(i: int)
    ensures LE(i, 1)[0] == i <==> 0 <= i < 256
  {
    assert LE(i, 1) == [i % 256] + LE(i / 256, 0);
  }

  /** The bits of a float are read back exactly if there are no more than fit and not all of them are set. */
  lemma {:induction false} FloatBack(bits: nat, k: nat)
    ensures ReadFloat(LE(bits, k)) == BitsValue(bits) <==> bits < Pow256(k) - 1
  {
    LEValueBound(LE(bits, k));
    if bits < Pow256(k) {
      UnsignedRoundTrip(bits, k);
    }
  }

  // ---------------------------------------------------------------- dates and times of day

  /** encodeDate: the year with its high bit set, the month from 0, the day. */
  function DateBytes(t: Time): (s: seq<byte>)
    ensures |s| == 4
  {
    LE(t.date.year % 0x8000 + 0x8000, 2) + (LE(t.date.month - 1, 1) + LE(t.date.day, 1))
  }

  /** decodeDate: null without the high bit; 14 bits of the year. (Dates that exist are kept by time.Date.) */
  function ReadDate(s: seq<byte>): (d: Option<Date>)
    requires |s| >= 4
  {
    var year := Num(s, 0, 2);
    if year < 0x8000 then None
    else Some(Date(year % 0x4000, Signed((Num(s, 2, 1) + 1) % 256, 1), Int(s, 3, 1)))
  }

  /** encodeTime: the hour with its high bit set, the minute, the milliseconds of the minute. */
  function TimeBytes(t: Time): (s: seq<byte>)
    ensures |s| == 4
  {
    LE(t.hour % 0x80 + 0x80, 1) + (LE(t.minute, 1) + LE(t.second * 1000 + t.nano / MILLISECOND, 2))
  }

  /** decodeTime: the time of day on the given date. */
  function ReadClock(s: seq<byte>, date: Date): (t: Option<Time>)
    requires |s| >= 4
  {
    var hour, msec := Num(s, 0, 1), Num(s, 2, 2);
    if hour < 0x80 then None
    else Some(Time(date, hour % 0x80, Int(s, 1, 1), msec / 1000, msec % 1000 * MILLISECOND))
  }

  function TimeOrNull(t: Option<Time>): (g: Got)
  {
    if t.Some? then TimeValue(t.value) else NullValue
  }

  function ReadDateField(s: seq<byte>): (g: Got)
    requires |s| >= 4
  {
    var d := ReadDate(s);
    if d.None? then NullValue else TimeValue(Time(d.value, 0, 0, 0, 0))
  }

  function ReadTimeField(s: seq<byte>): (g: Got)
    requires |s| >= 4
  {
    TimeOrNull(ReadClock(s, FIRST_DATE))
  }

  function ReadTimestampField(s: seq<byte>): (g: Got)
    requires |s| >= 8
  {
    var d := ReadDate(s);
    if d.None? then NullValue else TimeOrNull(ReadClock(s[4..], d.value))
  }

  /** A date is written and read exactly if its year has 14 bits, whatever follows. */
  lemma {:induction false} DateBack(t: Time, rest: seq<byte>, s: seq<byte>)
    requires ValidTime(t) && s == DateBytes(t) + rest
    ensures s[4..] == rest && ReadDate(s).Some?
    ensures ReadDate(s) == Some(t.date) <==> 0 <= t.date.year < 0x4000
  {
    var y := t.date.year % 0x8000 + 0x8000;
    var a, b, c := LE(y, B2), LE(t.date.month - 1, B1), LE(t.date.day, B1);
    Assoc(a, b + c, rest);
    Assoc(b, c, rest);
    Widths();
    assert s[0..] == s;
    NumAt(s, 0, B2, y, b + (c + rest), 2);
    NumAt(s, 2, B1, t.date.month - 1, c + rest, 3);
    NumAt(s, 3, B1, t.date.day, rest, 4);
    MonthBack(t.date.month);
    YearBack(t.date.year);
  }

  lemma MonthBack(m: int)
    requires 1 <= m <= 12
    ensures Signed((m - 1 + 1) % 256, 1) == m
  {
    assert Pow256(1) == 256;
  }

  lemma YearBack(y: int)
    ensures (y % 0x8000 + 0x8000) % 0x4000 == y <==> 0 <= y < 0x4000
  {
    var q, r := y / 0x8000, y % 0x8000;
    if r < 0x4000 {
      DivModUnique(r + 0x8000, 0x4000, 2, r);
    } else {
      DivModUnique(r + 0x8000, 0x4000, 3, r - 0x4000);
    }
  }

  /** A time of day is read back to the millisecond. */
  lemma {:induction false} ClockBack(t: Time, date: Date, s: seq<byte>)
    requires ValidTime(t) && s == TimeBytes(t)
    ensures ReadClock(s, date) == Some(TruncatedTo(t, 1000000).(date := date))
  {
    var msec := t.second * 1000 + t.nano / MILLISECOND;
    var a, b, c := LE(t.hour % 0x80 + 0x80, B1), LE(t.minute, B1), LE(msec, B2);
    Widths();
    assert s[0..] == s && c + [] == c;
    NumAt(s, 0, B1, t.hour % 0x80 + 0x80, b + c, 1);
    NumAt(s, 1, B1, t.minute, c, 2);
    NumAt(s, 2, B2, msec, [], 4);
    DivModUnique(msec, 1000, t.second, t.nano / MILLISECOND);
    HourBack(t.hour);
  }

  lemma HourBack(h: int)
    requires 0 <= h < 24
    ensures h % 0x80 + 0x80 < 0x100 && (h % 0x80 + 0x80) % 0x80 == h
  {
  }

  lemma {:induction false} DateFieldBack(t: Time)
    requires ValidTime(t)
    ensures ReadDateField(DateBytes(t)) == TimeValue(Time(t.date, 0, 0, 0, 0)) <==> 0 <= t.date.year < 0x4000
  {
    assert DateBytes(t) + [] == DateBytes(t);
    DateBack(t, [], DateBytes(t));
  }

  lemma {:induction false} TimeFieldBack(t: Time)
    requires ValidTime(t)
    ensures ReadTimeField(TimeBytes(t)) == TimeValue(TruncatedTo(t, 1000000).(date := FIRST_DATE))
  {
    ClockBack(t, FIRST_DATE, TimeBytes(t));
  }

  lemma {:induction false} TimestampFieldBack(t: Time, s: seq<byte>)
    requires ValidTime(t) && s == DateBytes(t) + TimeBytes(t)
    ensures ReadTimestampField(s) == TimeValue(TruncatedTo(t, 1000000)) <==> 0 <= t.date.year < 0x4000
  {
    DateBack(t, TimeBytes(t), s);
    ClockBack(t, ReadDate(s).value, TimeBytes(t));
  }

  /** 2024-02-29 and 12:34:56.789 on the wire. */
  lemma LeapDayAtNoon(t: Time)
    requires t == Time(Date(2024, 2, 29), 12, 34, 56, 789012345)
    ensures DateBytes(t) == [0xE8, 0x87, 1, 29] && TimeBytes(t) == [0x8C, 34, 0xD5, 0xDD]
  {
    assert LE(0x87E8, 2) == [0xE8] + LE(0x87, 1) && LE(0xDDD5, 2) == [0xD5] + LE(0xDD, 1);
    assert LE(0x87, 1) == [0x87] && LE(0xDD, 1) == [0xDD];
  }

  // ---------------------------------------------------------------- codes

  function ReadLongdate(s: seq<byte>): (g: Got)
  {
    var ld := Signed(LEValue(s), |s|);
    if ld >= 1 then TimeOrNull(DecodeLongdate(ld)) else TooEarly
  }

  function ReadSeconddate(s: seq<byte>): (g: Got)
  {
    var sd := Signed(LEValue(s), |s|);
    if sd >= 1 then TimeOrNull(DecodeSeconddate(sd)) else TooEarly
  }

  function ReadDaydate(s: seq<byte>, emptyDateAsNull: bool): (g: Got)
  {
    var dd := Signed(LEValue(s), |s|);
    if dd >= 0 then TimeOrNull(DecodeDaydate(dd, emptyDateAsNull)) else TooEarly
  }

  function ReadSecondtime(s: seq<byte>): (g: Got)
  {
    var st := Signed(LEValue(s), |s|);
    if 1 <= st <= DAY_SECONDS || st == SECONDTIME_NULL then TimeOrNull(DecodeSecondtime(st)) else TooEarly
  }

  lemma {:induction false} LongdateFieldBack(t: Time)
    requires InRange(t)
    ensures ReadLongdate(LE(TimeToLongdate(t), B8)) == TimeValue(TruncatedTo(t, 100)) <==> !Skipped(t.date)
  {
    Widths();
    CodesInRange(t);
    SignedRoundTrip(TimeToLongdate(t), B8);
    LongdateRoundTrip(t);
  }

  lemma {:induction false} SeconddateFieldBack(t: Time)
    requires InRange(t)
    ensures ReadSeconddate(LE(TimeToSeconddate(t), B8)) == TimeValue(TruncatedTo(t, 1000000000)) <==> !Skipped(t.date)
  {
    Widths();
    CodesInRange(t);
    SignedRoundTrip(TimeToSeconddate(t), B8);
    SeconddateRoundTrip(t);
  }

  lemma {:induction false} DaydateFieldBack(t: Time, emptyDateAsNull: bool)
    requires InRange(t)
    ensures ReadDaydate(LE(TimeToDaydate(t), B4), emptyDateAsNull) == TimeValue(Time(t.date, 0, 0, 0, 0))
       <==> !Skipped(t.date)
  {
    Widths();
    CodesInRange(t);
    SignedRoundTrip(TimeToDaydate(t), B4);
    DaydateRoundTrip(t, emptyDateAsNull);
  }

  lemma {:induction false} SecondtimeFieldBack(t: Time)
    requires ValidTime(t)
    ensures ReadSecondtime(LE(TimeToSecondtime(t), B4)) == TimeValue(Time(FIRST_DATE, t.hour, t.minute, t.second, 0))
  {
    Widths();
    SecondtimeRoundTrip(t);
    SignedRoundTrip(TimeToSecondtime(t), B4);
  }
}
