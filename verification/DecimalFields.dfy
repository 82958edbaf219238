/**
  DecimalField and the Fixed8/12/16 fields of encode.go: conversion of a rational and its wire form
  in one step, and what a reader of the bytes gets back.
 */
module DecimalFields {
  import opened Bytes
  import opened Pow10
  import opened Decimal
  import opened DecimalWire

  const DIGITS: nat := 34     // dec128Digits
  const MIN_EXP: int := -6176  // dec128MinExp
  const MAX_EXP: int := 6111   // dec128MaxExp

  /** The decimal read from the bytes of a field. */
  function Read(bytes: seq<byte>): (d: Decoded)
  {
    DecodeNumber(LEValue(bytes))
  }

  lemma {:induction false} DigitsExist(p: nat) returns (d: nat)
    requires p > 0
    ensures HasDigits(p, d)
  {
    if p < 10 {
      d := 1;
      assert Ten(1) == 10;
    } else {
      var c := DigitsExist(p / 10);
      d := c + 1;
    }
  }

  lemma SmallCoefficient(m: int)
    requires 0 <= m < Ten(DIGITS)
    ensures Abs(m) < COEFFICIENTS < Pow256(DEC_SIZE)
  {
    TenValues();
    LowBytes();
  }

  /** A truncated negative coefficient has at most two digits too many, so it fits the buffer. */
  lemma NegativeCoefficient(x: Rat, e: int, m: int, exp: int, df: Flags)
    requires x.num < 0 && x.den >= 1
    requires TruncatedDecimal(V(x.num, x.den), e, m, exp, df, DIGITS, MIN_EXP, MAX_EXP)
    requires forall d :: HasDigits(x.den, d) ==> e == NegativeExponent(x, d)
    ensures Abs(m) < Ten(DIGITS + 2)
    ensures Abs(m) < Pow256(DEC_SIZE)
  {
    var q := UnitExponent(e, DIGITS, MIN_EXP);
    var y := -V(x.num, x.den);
    GuessedBound(x, e);
    POrder(e + 3, q + (DIGITS + 2));
    FloorBelow(y, q, DIGITS + 2);
    ShiftedCoefficient(m, exp, InUnits(y, q).Floor, q);
    TenValues();
    TenAdd(2, DIGITS);
    LowBytes();
  }

  lemma GuessedBound(x: Rat, e: int)
    requires x.num < 0 && x.den >= 1
    requires forall d :: HasDigits(x.den, d) ==> e == NegativeExponent(x, d)
    ensures 0.0 <= -V(x.num, x.den) < P(e + 3)
  {
    var da := DigitsExist(-x.num);
    var db := DigitsExist(x.den);
    GuessedExponent(x, da, db);
    NegFrac(x.num, x.den, 0);
  }

  lemma ShiftedCoefficient(m: int, exp: int, t: int, q: int)
    requires q <= exp && t >= 0 && Dec(m, exp) == Dec(-t, q)
    ensures m * Ten(exp - q) == -t && Abs(m) <= t
  {
    DecShift(m, q, exp - q);
    DecOrder(m * Ten(exp - q), -t, q);
    SmallerFactor(m, Ten(exp - q), t);
  }

  lemma {:induction false} FloorBelow(y: real, q: int, n: nat)
    requires 0.0 <= y < P(q + n)
    ensures 0 <= InUnits(y, q).Floor < Ten(n)
  {
    var u := InUnits(y, q);
    PShift(q, n);
    assert Times(u, P(q)) == y;
    TimesOrder(u, Ten(n) as real, P(q));
    TimesOrder(u, 0.0, P(q));
  }

  lemma SmallerFactor(m: int, t: nat, n: int)
    requires t >= 1 && m * t == -n && n >= 0
    ensures Abs(m) <= n
  {
  }

  /**
    The outcome r of writing x. The decimal of a positive number is correctly rounded to 34 digits,
    that of a negative one truncated in units fixed by the guessed exponent. It is refused exactly
    when it overflows; below 10^-6176 zero is written.
   */
  ghost predicate Written(x: Rat, r: Option<seq<byte>>, e: int, m: int, exp: int, df: Flags)
    requires x.den >= 1
  {
    && (x.num == 0 ==> m == 0 && exp == 0 && df == Flags(false, false, false))
    && (x.num > 0 ==>
          && IsExponent(V(x.num, x.den), e)
          && CorrectDecimal(V(x.num, x.den), e, m, exp, df, DIGITS, MIN_EXP, MAX_EXP))
    && (x.num < 0 ==>
          && (forall d :: HasDigits(x.den, d) ==> e == NegativeExponent(x, d))
          && TruncatedDecimal(V(x.num, x.den), e, m, exp, df, DIGITS, MIN_EXP, MAX_EXP))
    && r == (if df.overflow then None
             else if df.underflow then Some(DecimalBytes(0, 0))
             else Some(DecimalBytes(m, exp)))
  }

  /** The outcome of writing x, whatever the decimal it goes through. */
  ghost predicate Outcome(x: Rat, r: Option<seq<byte>>)
    requires x.den >= 1
  {
    exists e, m, exp, df :: Written(x, r, e, m, exp, df)
  }

  lemma IsOutcome(x: Rat, r: Option<seq<byte>>, e: int, m: int, exp: int, df: Flags)
    requires x.den >= 1 && Written(x, r, e, m, exp, df)
    ensures Outcome(x, r)
  {
  }

  /** DecimalField. */
  method DecimalField(b: array<byte>, x: Rat)
      returns (r: Option<seq<byte>>, ghost e: int, ghost m: int, ghost exp: int, ghost df: Flags)
    requires x.den >= 1 && b.Length >= DEC_SIZE
    modifies b
    ensures Written(x, r, e, m, exp, df)
  {
    var m0, exp0, df0;
    m0, exp0, df0, e := ConvertRatToDecimal(x, DIGITS, MIN_EXP, MAX_EXP);
    m, exp, df := m0, exp0, df0;
    if df0.overflow {
      return None, e, m, exp, df;
    }
    LowBytes();
    var out;
    if df0.underflow {
      out := EncodeDecimal(b, 0, 0);
    } else {
      if x.num < 0 {
        NegativeCoefficient(x, e, m0, exp0, df0);
      } else {
        SmallCoefficient(m0);
      }
      out := EncodeDecimal(b, m0, exp0);
    }
    r := Some(out);
  }

  /** The outcome, its flags and, unless it is refused, its coefficient and exponent are determined by x. */
  lemma WrittenDetermined(x: Rat, r1: Option<seq<byte>>, e1: int, m1: int, exp1: int, df1: Flags,
                          r2: Option<seq<byte>>, e2: int, m2: int, exp2: int, df2: Flags)
    requires x.den >= 1 && Written(x, r1, e1, m1, exp1, df1) && Written(x, r2, e2, m2, exp2, df2)
    ensures r1 == r2 && df1 == df2
    ensures !df1.overflow ==> m1 == m2 && exp1 == exp2
  {
    if x.num != 0 {
      SameExponent(x, r1, e1, m1, exp1, df1, r2, e2, m2, exp2, df2);
      if !df1.overflow {
        NormalUnique(m1, exp1, m2, exp2, MAX_EXP);
      }
    }
  }

  /**
    The numbers that can be written: in units of 10^6111, non-negative ones have at most 34 digits when
    rounded half up, and the guessed exponent of negative ones does not ask for larger units.
   */
  ghost predicate DecimalFits(x: Rat)
    requires x.den >= 1
  {
    if x.num >= 0 then HalfUp(InUnits(V(x.num, x.den), MAX_EXP)) < Ten(DIGITS)
    else forall d :: HasDigits(x.den, d) ==> NegativeUnit(x, d, DIGITS, MIN_EXP) <= MAX_EXP
  }

  lemma WrittenIff(x: Rat, r: Option<seq<byte>>, e: int, m: int, exp: int, df: Flags)
    requires x.den >= 1 && Written(x, r, e, m, exp, df)
    ensures r.Some? <==> DecimalFits(x)
  {
    if x.num > 0 {
      OverflowIff(V(x.num, x.den), e, m, exp, df, DIGITS, MIN_EXP, MAX_EXP);
    } else if x.num == 0 {
      ZeroUnits(x.den);
    } else {
      var d := DigitsExist(x.den);
    }
  }

  /** A number is refused exactly when it does not fit; otherwise 16 bytes are written. */
  lemma OutcomeIff(x: Rat, r: Option<seq<byte>>)
    requires x.den >= 1 && Outcome(x, r)
    ensures r.Some? <==> DecimalFits(x)
    ensures r.Some? ==> |r.value| == DEC_SIZE
  {
    var e, m, exp, df :| Written(x, r, e, m, exp, df);
    WrittenIff(x, r, e, m, exp, df);
  }

  lemma ZeroUnits(den: nat)
    requires den >= 1
    ensures HalfUp(InUnits(V(0, den), MAX_EXP)) == 0
  {
    assert V(0, den) == 0.0;
  }

  lemma SameExponent(x: Rat, r1: Option<seq<byte>>, e1: int, m1: int, exp1: int, df1: Flags,
                     r2: Option<seq<byte>>, e2: int, m2: int, exp2: int, df2: Flags)
    requires x.den >= 1 && x.num != 0 && Written(x, r1, e1, m1, exp1, df1) && Written(x, r2, e2, m2, exp2, df2)
    ensures e1 == e2
  {
    if x.num > 0 {
      ExponentUnique(V(x.num, x.den), e1, e2);
    } else {
      var d := DigitsExist(x.den);
    }
  }

  /**
    What a reader of the bytes of a non-negative number gets: zero, the correctly rounded number, or zero
    again below 10^-6176.
   */
  lemma PositiveReadBack(x: Rat, r: Option<seq<byte>>, e: int, m: int, exp: int, df: Flags)
    requires x.den >= 1 && x.num >= 0 && Written(x, r, e, m, exp, df) && r.Some?
    ensures Read(r.value) == if df.underflow then Value(0, 0) else Value(m, exp)
  {
    LowBytes();
    if df.underflow {
      DecodedIff(0, 0);
    } else {
      if x.num > 0 {
        SmallCoefficient(m);
      }
      DecodedIff(m, exp);
    }
  }

  /**
    What a reader of the bytes of a negative number gets: zero below the least exponent, otherwise the
    truncated decimal exactly when its magnitude in units, stripped of trailing zeros, is below 2^113.
   */
  lemma {:induction false} NegativeReadBackIff(
    x: Rat, d: nat, r: Option<seq<byte>>, e: int, m: int, exp: int, df: Flags, q: int, t: int)
    requires x.den >= 1 && x.num < 0 && HasDigits(x.den, d) && Written(x, r, e, m, exp, df)
    requires q == NegativeUnit(x, d, DIGITS, MIN_EXP) && t == InUnits(-V(x.num, x.den), q).Floor
    ensures t >= 0 && (r.None? <==> q > MAX_EXP)
    ensures r.Some? && NegativeExponent(x, d) < MIN_EXP ==> Read(r.value) == Value(0, 0)
    ensures r.Some? && NegativeExponent(x, d) >= MIN_EXP ==>
              (Read(r.value) == Value(m, exp) <==> Strip(t, Room(q, MAX_EXP)) < COEFFICIENTS)
  {
    NegativeWritten(x, d, r, e, m, exp, df, q);
    var s := NegativeFacts(x, e, m, exp, df, q, t);
    NegativeRead(r, e < MIN_EXP, m, exp, s);
  }

  /** The bytes of a negative number, or its refusal. */
  lemma NegativeWritten(x: Rat, d: nat, r: Option<seq<byte>>, e: int, m: int, exp: int, df: Flags, q: int)
    requires x.den >= 1 && x.num < 0 && HasDigits(x.den, d) && Written(x, r, e, m, exp, df)
    requires q == NegativeUnit(x, d, DIGITS, MIN_EXP)
    ensures e == NegativeExponent(x, d) && q == UnitExponent(e, DIGITS, MIN_EXP) && (r.None? <==> q > MAX_EXP)
    ensures TruncatedDecimal(V(x.num, x.den), e, m, exp, df, DIGITS, MIN_EXP, MAX_EXP)
    ensures ReadFrom(r, e < MIN_EXP, m, exp)
  {
  }

  /** The bytes are those of zero or of the decimal. */
  ghost predicate ReadFrom(r: Option<seq<byte>>, zero: bool, m: int, exp: int)
  {
    r.Some? ==>
      if zero then r.value == DecimalBytes(0, 0) else r.value == DecimalBytes(m, exp) && MIN_EXP <= exp <= MAX_EXP
  }

  lemma NegativeRead(r: Option<seq<byte>>, zero: bool, m: int, exp: int, s: nat)
    requires ReadFrom(r, zero, m, exp) && m == -(s as int)
    ensures r.Some? && zero ==> Read(r.value) == Value(0, 0)
    ensures r.Some? && !zero ==> (Read(r.value) == Value(m, exp) <==> s < COEFFICIENTS)
  {
    if r.Some? {
      if zero {
        ReadZero();
      } else {
        ReadDecimal(m, exp, s);
      }
    }
  }

  lemma NegativeFacts(x: Rat, e: int, m: int, exp: int, df: Flags, q: int, t: int) returns (s: nat)
    requires x.den >= 1 && x.num < 0
    requires TruncatedDecimal(V(x.num, x.den), e, m, exp, df, DIGITS, MIN_EXP, MAX_EXP)
    requires q == UnitExponent(e, DIGITS, MIN_EXP) && t == InUnits(-V(x.num, x.den), q).Floor
    ensures t >= 0 && s == Strip(t, Room(q, MAX_EXP)) && m == -(s as int)
  {
    NegativeFraction(x.num, x.den);
    TruncatedCoefficient(V(x.num, x.den), e, m, exp, df, DIGITS, MIN_EXP, MAX_EXP, q, t);
    s := Strip(t, Room(q, MAX_EXP));
  }

  lemma ReadDecimal(m: int, exp: int, s: nat)
    requires m == -(s as int) && MIN_EXP <= exp <= MAX_EXP
    ensures Read(DecimalBytes(m, exp)) == Value(m, exp) <==> s < COEFFICIENTS
  {
    DecodedIff(m, exp);
  }

  lemma ReadZero()
    ensures Read(DecimalBytes(0, 0)) == Value(0, 0)
  {
    LowBytes();
    DecodedIff(0, 0);
  }

  const UNLUCKY: nat := 20_000_000_000_000_000_000_000_000_000_000_001

  /** -20000000000000000000000000000000001 is converted to a coefficient that is not read back. */
  lemma NegativeFieldCorrupted(m: int, exp: int, df: Flags)
    requires TruncatedDecimal(V(0 - UNLUCKY, 1), NegativeExponent(Rat(0 - UNLUCKY, 1), 1), m, exp, df,
                              DIGITS, MIN_EXP, MAX_EXP)
    ensures m == 0 - UNLUCKY && exp == 0 && !df.overflow && !df.underflow
    ensures Abs(m) >= COEFFICIENTS
  {
    GuessUnlucky();
    assert NegativeExponent(Rat(0 - UNLUCKY, 1), 1) == 33;
    UnluckyUnits();
    UnluckyCoefficient(m, exp);
  }

  lemma UnluckyCoefficient(m: int, exp: nat)
    requires Dec(m, exp) == Dec(-(UNLUCKY as int), 0)
    ensures exp == 0 && m == 0 - UNLUCKY
  {
    ShiftedCoefficient(m, exp, UNLUCKY, 0);
    UnluckyExponent(m, exp);
  }

  lemma UnluckyUnits()
    ensures InUnits(-V(0 - UNLUCKY, 1), 0).Floor == UNLUCKY
  {
    assert P(0) == 1.0;
  }

  lemma {:induction false} UnluckyExponent(m: int, exp: nat)
    requires m * Ten(exp) == 0 - UNLUCKY
    ensures exp == 0 && m == 0 - UNLUCKY
  {
    if exp > 0 {
      assert Ten(exp) == 10 * Ten(exp - 1);
      MulAssoc(m, 10, Ten(exp - 1));
      NotDivisible(m * Ten(exp - 1), m, Ten(exp - 1));
      assert false;
    }
  }

  lemma NotDivisible(z: int, m: int, t: int)
    requires z == m * t
    ensures m * (10 * t) == 10 * z && 10 * z != 0 - UNLUCKY
  {
  }

  lemma GuessUnlucky()
    ensures Guess(0 - UNLUCKY) == 34
  {
    BitLenBounds(UNLUCKY);
    TwoValues();
    var k := BitLen(UNLUCKY);
    if k < 114 {
      TwoMonotone(k, 113);
    } else if k > 114 {
      TwoMonotone(114, k - 1);
    }
    assert k == 114;
    var i := Estimate(114);
    TenValues();
    assert Ten(35) == 10 * Ten(34);
    if i < 34 {
      TenMonotone(i + 1, 34);
    } else if i > 34 {
      TenMonotone(35, i);
    }
  }

  lemma TwoValues()
    ensures Two(113) == COEFFICIENTS && Two(114) == 2 * COEFFICIENTS
  {
    BytesAreBits(14);
    LowBytes();
    assert Two(113) == 2 * Two(112);
  }

  lemma {:induction false} TwoMonotone(m: nat, n: nat)
    requires m <= n
    ensures Two(m) <= Two(n)
    decreases n - m
  {
    if m < n {
      TwoMonotone(m, n - 1);
    }
  }

  /** The number in units of 10^-scale: rounded half up or, if it is negative, truncated. */
  function FixedValue(x: Rat, scale: nat): (m: int)
    requires x.den >= 1
  {
    if x.num >= 0 then HalfUp(InUnits(V(x.num, x.den), 0 - scale))
    else -InUnits(-V(x.num, x.den), 0 - scale).Floor
  }

  /** Fixed8Field, Fixed12Field and Fixed16Field. */
  method FixedField(b: array<byte>, x: Rat, size: nat, prec: nat, scale: nat)
      returns (r: Option<seq<byte>>, ghost m: int)
    requires x.den >= 1 && FixedSize(size) && b.Length >= size
    requires prec <= (if size == 8 then 18 else if size == 12 then 28 else 38)
    modifies b
    ensures m == FixedValue(x, scale)
    ensures r.None? <==> Abs(m) >= Ten(prec)
    ensures r.Some? ==> |r.value| == size && Signed(LEValue(r.value), size) == m
  {
    var c, df := ConvertRatToFixed(x, prec, scale);
    m := c;
    if df.overflow {
      return None, m;
    }
    var out := EncodePrecise(b, c, size, prec);
    r := Some(out);
  }

  /** A number of at most prec digits. */
  method EncodePrecise(b: array<byte>, c: int, size: nat, ghost prec: nat) returns (out: seq<byte>)
    requires FixedSize(size) && b.Length >= size && Abs(c) < Ten(prec)
    requires prec <= (if size == 8 then 18 else if size == 12 then 28 else 38)
    modifies b
    ensures |out| == size && Signed(LEValue(out), size) == c
  {
    PrecisionFits(c, size, prec);
    SignedRoundTrip(c, size);
    out := EncodeFixed(b, c, size);
  }
}
