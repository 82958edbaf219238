/**
  driver/internal/protocol/encoding/decimal.go: conversion of rationals to decimal floating point
  and to fixed decimals.

  The float64 quotient that estimates a digit count is taken as exact: `Estimate(k)` is the integer
  part of k / log2(10).
 */
module Decimal {
  import Bytes
  import opened Pow10

  /** A big.Rat: numerator and positive denominator. */
  datatype Rat = Rat(num: int, den: nat)

  /** The rational a/b as a real number. */
  function V(a: int, b: nat): (x: real)
    requires b >= 1
  {
    a as real / b as real
  }

  // ---------------------------------------------------------------- digits10

  function BitLen(p: nat): (k: nat)
  {
    if p == 0 then 0 else 1 + BitLen(p / 2)
  }

  lemma {:induction false} BitLenBounds(p: nat)
    ensures p < Two(BitLen(p))
    ensures p > 0 ==> BitLen(p) >= 1 && Two(BitLen(p) - 1) <= p
  {
    if p > 0 {
      BitLenBounds(p / 2);
    }
  }

  /** int(float64(k) / log2(10)). */
  function Estimate(k: nat): (i: nat)
    ensures Ten(i) <= Two(k) < Ten(i + 1)
  {
    if k == 0 then 0
    else
      var j := Estimate(k - 1);
      if Ten(j + 1) <= Two(k) then j + 1 else j
  }

  function Abs(p: int): (n: nat)
  {
    if p < 0 then -p else p
  }

  /** The starting guess of digits10. */
  function Guess(p: int): (i: nat)
    ensures i >= 1
  {
    var i := Estimate(BitLen(Abs(p)));
    if i < 1 then 1 else i
  }

  /** The guess is the digit count or one less. */
  lemma GuessBounds(p: nat)
    requires p > 0
    ensures Ten(Guess(p) - 1) <= p < Ten(Guess(p) + 1)
  {
    BitLenBounds(p);
    var k := BitLen(p);
    assert Two(k) == 2 * Two(k - 1);
    if Estimate(k) >= 1 {
      assert Ten(Estimate(k)) == 10 * Ten(Estimate(k) - 1);
    }
  }

  ghost predicate HasDigits(p: nat, d: nat)
  {
    d >= 1 && Ten(d - 1) <= p < Ten(d)
  }

  lemma {:induction false} TenGrows(n: nat)
    ensures Ten(n) > n
  {
    if n > 0 {
      TenGrows(n - 1);
    }
  }

  /** digits10: the number of decimal digits of a positive number; for a negative one only the guess. */
  method Digits10(p: int) returns (i: nat)
    ensures i >= 1
    ensures p > 0 ==> HasDigits(p, i)
    ensures p < 0 ==> i == Guess(p)
  {
    i := Guess(p);
    if p > 0 { GuessBounds(p); }
    while !(p < Ten(i))
      invariant i >= 1 && (p < 0 ==> i == Guess(p))
      invariant p > 0 ==> Ten(i - 1) <= p
      decreases p - i
    {
      TenGrows(i);
      i := i + 1;
    }
  }

  // ---------------------------------------------------------------- specification of the rounding

  /** e is the decimal exponent of the leading digit of x. */
  ghost predicate IsExponent(x: real, e: int)
  {
    P(e) <= x < P(e + 1)
  }

  lemma ExponentUnique(x: real, e: int, f: int)
    requires IsExponent(x, e) && IsExponent(x, f)
    ensures e == f
  {
    POrder(e, f + 1);
    POrder(f, e + 1);
  }

  /** The exponent of the unit in the last place: `digits` digits, but no finer than minExp unless x underflows. */
  function UnitExponent(e: int, digits: nat, minExp: int): (q: int)
  {
    if e < minExp then e - digits + 1
    else if e - digits + 1 > minExp then e - digits + 1
    else minExp
  }

  /** Half-up rounding to an integer. */
  function HalfUp(x: real): (n: int)
  {
    (x + 0.5).Floor
  }

  /** x counted in units of 10^q. */
  function InUnits(x: real, q: int): (u: real)
  {
    x / P(q)
  }

  datatype Flags = Flags(notExact: bool, overflow: bool, underflow: bool)

  /**
    (m, exp, df) is the decimal of the positive number x with leading exponent e: half-up rounding in
    units of the last place, a normalised coefficient of at most `digits` digits, and exact flags.
   */
  ghost predicate CorrectDecimal(x: real, e: int, m: int, exp: int, df: Flags, digits: nat, minExp: int, maxExp: int)
  {
    var q := UnitExponent(e, digits, minExp);
    var y := Dec(HalfUp(InUnits(x, q)), q);
    && Dec(m, exp) == y
    && 0 < m < Ten(digits)
    && (m % 10 == 0 ==> exp >= maxExp)
    && (df.notExact <==> y != x)
    && (df.underflow <==> x < P(minExp))
    && (df.overflow <==> y >= P(digits + maxExp))
    && (!df.overflow ==> exp <= maxExp)
    && (!df.underflow ==> exp >= minExp)
  }

  // ---------------------------------------------------------------- scaling lemmas

  /** The number a/b * 10^s. */
  function Frac(a: int, b: nat, s: int): (x: real)
    requires b >= 1
  {
    Times(V(a, b), P(s))
  }

  lemma MulNum(a: int, b: nat, t: nat, p: real)
    requires b >= 1
    ensures Times(V(a * t, b), p) == Times(V(a, b), Times(t as real, p))
  {
    RealMul(a, t);
    var x, y, r := a as real, b as real, t as real;
    assert (x * r) / y == x / y * r;
  }

  lemma MulDen(a: int, b: nat, t: nat, p: real)
    requires b >= 1 && t >= 1
    ensures b * t >= 1
    ensures Times(V(a, b * t), Times(t as real, p)) == Times(V(a, b), p)
  {
    PosMul(b, t);
    RealMul(b, t);
    DenArith(a as real, b as real, t as real, p, (b * t) as real);
  }

  lemma PosMul(a: nat, b: nat)
    requires a >= 1 && b >= 1
    ensures a * b >= 1
  {
  }

  lemma DenArith(x: real, y: real, t: real, p: real, yt: real)
    requires y > 0.0 && t > 0.0 && yt == y * t && yt > 0.0
    ensures Times(x / yt, Times(t, p)) == Times(x / y, p)
  {
    assert x / (y * t) * t == x / y;
  }

  /** Multiplying the numerator by 10^n takes n off the exponent ... */
  lemma {:induction false} ScaleNum(a: int, b: nat, n: nat, s: int)
    requires b >= 1
    ensures Frac(a * Ten(n), b, s) == Frac(a, b, s + n)
  {
    PShift(s, n);
    MulNum(a, b, Ten(n), P(s));
  }

  /** ... and multiplying the denominator adds n to it. */
  lemma {:induction false} ScaleDen(a: int, b: nat, n: nat, s: int)
    requires b >= 1
    ensures b * Ten(n) >= 1
    ensures Frac(a, b * Ten(n), s + n) == Frac(a, b, s)
  {
    PShift(s, n);
    MulDen(a, b, Ten(n), P(s));
  }

  lemma {:induction false} DecShift(m: int, e: int, n: nat)
    ensures Dec(m * Ten(n), e) == Dec(m, e + n)
  {
    PShift(e, n);
    RealMul(m, Ten(n));
    TimesAssoc(m as real, Ten(n) as real, P(e));
  }

  lemma TimesAssoc(x: real, y: real, z: real)
    ensures Times(x * y, z) == Times(x, Times(y, z))
  {
  }

  lemma TimesOrder(x: real, y: real, p: real)
    requires p > 0.0
    ensures Times(x, p) < Times(y, p) <==> x < y
    ensures Times(x, p) == Times(y, p) <==> x == y
  {
    if x < y {
      assert (y - x) * p > 0.0;
    } else if y < x {
      assert (x - y) * p > 0.0;
    }
  }

  lemma DecOrder(m: int, n: int, e: int)
    ensures Dec(m, e) < Dec(n, e) <==> m < n
    ensures Dec(m, e) == Dec(n, e) <==> m == n
  {
    TimesOrder(m as real, n as real, P(e));
  }

  // ---------------------------------------------------------------- the leading exponent

  lemma FracBounds(a: nat, b: nat)
    requires b >= 1
    ensures (V(a, b) < 1.0 <==> a < b) && (V(a, b) < 10.0 <==> a < 10 * b)
    ensures 10.0 * V(a, b) > 1.0 <==> 10 * a > b
  {
    var v := V(a, b);
    assert v * b as real == a as real;
    TimesOrder(v, 1.0, b as real);
    TimesOrder(v, 10.0, b as real);
    TimesOrder(1.0, 10.0 * v, b as real);
  }

  /** An integer of d digits has exponent d - 1. */
  lemma IntegerExponent(a: nat, d: nat)
    requires HasDigits(a, d)
    ensures IsExponent(Frac(a, 1, 0), d - 1)
  {
    PIsTen(d - 1);
    PIsTen(d);
    TimesOne(V(a, 1));
    assert P(0) == 1.0;
  }

  /** Scaled to equal digit counts, a fraction lies strictly between 1/10 and 10. */
  lemma {:induction false} EqualDigits(a: nat, b: nat, da: nat, db: nat)
    requires HasDigits(a, da) && HasDigits(b, db)
    ensures da <= db ==> a * Ten(db - da) < 10 * b && b < 10 * (a * Ten(db - da))
    ensures da >= db ==> a < 10 * (b * Ten(da - db)) && b * Ten(da - db) < 10 * a
  {
    if da <= db {
      TenAdd(da, db - da);
      TenAdd(da - 1, db - da);
      MulOrder(a, Ten(da), Ten(db - da));
      MulOrder(Ten(da - 1), a + 1, Ten(db - da));
    }
    if da >= db {
      TenAdd(db, da - db);
      TenAdd(db - 1, da - db);
      MulOrder(b, Ten(db), Ten(da - db));
      MulOrder(Ten(db - 1), b + 1, Ten(da - db));
    }
  }

  lemma MulOrder(x: nat, y: nat, t: nat)
    requires x < y && t >= 1
    ensures x * t < y * t && x * t <= (y - 1) * t
  {
  }

  /** A fraction v in (1/10, 10), times 10^s, has exponent s or s - 1 according to v >= 1. */
  lemma FractionExponent(a: nat, b: nat, s: int)
    requires b >= 1 && a < 10 * b && b < 10 * a
    ensures IsExponent(Frac(a, b, s), if a < b then s - 1 else s)
  {
    var v, p := V(a, b), P(s);
    FracBounds(a, b);
    PStep(s);
    PStep(s - 1);
    TimesBounds(v, p);
  }

  lemma TimesBounds(v: real, p: real)
    requires p > 0.0
    ensures v < 1.0 ==> Times(v, p) < p
    ensures v >= 1.0 ==> Times(v, p) >= p
    ensures v < 10.0 ==> Times(v, p) < 10.0 * p
    ensures 10.0 * v > 1.0 ==> 10.0 * Times(v, p) > p
  {
    TimesOrder(v, 1.0, p);
    TimesOrder(v, 10.0, p);
    TimesOrder(0.1, v, p);
  }

  /** The exponent the code arrives at for a negative number: guesses instead of digit counts. */
  function NegativeExponent(x: Rat, denDigits: nat): (e: int)
  {
    if x.den == 1 then Guess(x.num) - 1 else Guess(x.num) - denDigits - 1
  }

  /** First part of convertRatToDecimal: x == a/b * 10^shift and the leading exponent. */
  method Leading(x: Rat) returns (a: int, b: nat, shift: int, e: int)
    requires x.den >= 1 && x.num != 0
    ensures b >= 1 && Frac(a, b, shift) == V(x.num, x.den)
    ensures (a > 0 <==> x.num > 0) && (a < 0 <==> x.num < 0)
    ensures x.num > 0 ==> IsExponent(V(x.num, x.den), e)
    ensures x.num < 0 ==> forall d :: HasDigits(x.den, d) ==> e == NegativeExponent(x, d)
    ensures shift == 0 || e <= shift
    ensures x.den != 1 ==> e <= shift
  {
    a, b, shift := x.num, x.den, 0;
    TimesOne(V(a, b));
    assert P(0) == 1.0;
    if b == 1 {
      var d := Digits10(a);
      if a > 0 { IntegerExponent(a, d); }
      e := d - 1;
    } else {
      var da: int := Digits10(a);
      var db: int := Digits10(b);
      shift := da - db;
      if shift < 0 {
        ScaleNum(a, b, db - da, shift);
        SignOfProduct(a, Ten(db - da));
        a := a * Ten(db - da);
      } else if shift > 0 {
        ScaleDen(a, b, da - db, 0);
        b := b * Ten(da - db);
      }
      e := if a < b then shift - 1 else shift;
      if a > 0 {
        EqualDigits(x.num, x.den, da, db);
        FractionExponent(a, b, shift);
      } else {
        forall d | HasDigits(x.den, d) ensures d == db {
          DigitsUnique(x.den, d, db);
        }
      }
    }
  }

  lemma SignOfProduct(a: int, t: nat)
    requires t >= 1
    ensures (a * t > 0 <==> a > 0) && (a * t < 0 <==> a < 0)
  {
  }

  lemma {:induction false} TenMonotone(m: nat, n: nat)
    requires m <= n
    ensures Ten(m) <= Ten(n)
    decreases n - m
  {
    if m < n {
      TenMonotone(m, n - 1);
    }
  }

  lemma DigitsUnique(p: nat, d: nat, f: nat)
    requires HasDigits(p, d) && HasDigits(p, f)
    ensures d == f
  {
    if d < f {
      TenMonotone(d, f - 1);
    } else if f < d {
      TenMonotone(f, d - 1);
    }
  }

  // ---------------------------------------------------------------- rounding

  /** big.Int.QuoRem: division truncated towards zero. */
  function Quo(a: int, b: nat): (q: int)
    requires b >= 1
  {
    if a >= 0 then a / b else -((-a) / b)
  }

  function Rem(a: int, b: nat): (r: int)
    requires b >= 1
  {
    a - b * Quo(a, b)
  }

  /** The integer comparison 2 * rest >= b decides half-up rounding of a/b. */
  lemma HalfUpOfQuotient(a: nat, b: nat)
    requires b >= 1
    ensures HalfUp(V(a, b)) == if 2 * Rem(a, b) >= b then a / b + 1 else a / b
    ensures V(a, b).Floor == a / b
    ensures V(a, b) == (a / b) as real <==> Rem(a, b) == 0
  {
    var m, r := a / b, a % b;
    assert a == b * m + r && 0 <= r < b;
    RealMul(b, m);
    var f := r as real / b as real;
    assert V(a, b) == m as real + f by {
      SplitFraction(m as real, r as real, b as real, a as real);
    }
    UnitFraction(r, b);
  }

  lemma SplitFraction(m: real, r: real, b: real, a: real)
    requires b > 0.0 && a == b * m + r
    ensures a / b == m + r / b
  {
  }

  lemma UnitFraction(r: nat, b: nat)
    requires r < b
    ensures var f := r as real / b as real;
            0.0 <= f < 1.0 && (f >= 0.5 <==> 2 * r >= b) && (f == 0.0 <==> r == 0)
  {
    var f := r as real / b as real;
    assert f * b as real == r as real;
    TimesOrder(f, 1.0, b as real);
    TimesOrder(f, 0.5, b as real);
    TimesOrder(f, 0.0, b as real);
  }

  /** If x == a/b * 10^q then x in units of 10^q is a/b. */
  lemma UnitsOfFrac(a: int, b: nat, q: int)
    requires b >= 1
    ensures InUnits(Frac(a, b, q), q) == V(a, b)
  {
    DivTimes(V(a, b), P(q));
  }

  lemma DivTimes(v: real, p: real)
    requires p > 0.0
    ensures Times(v, p) / p == v
  {
  }

  /** Bounds of the quotient: at least 10^lo if x >= 10^(q + lo), less than 10^hi if x < 10^(q + hi). */
  lemma {:induction false} QuotientBounds(a: nat, b: nat, q: int, n: nat)
    requires b >= 1
    ensures Frac(a, b, q) < P(q + n) <==> a / b < Ten(n)
  {
    PShift(q, n);
    TimesOrder(V(a, b), Ten(n) as real, P(q));
    HalfUpOfQuotient(a, b);
  }

  /** The coefficient n before normalisation and the flags, for a positive x == a/b * 10^q. */
  ghost predicate RoundedCoefficient(x: real, e: int, q: int, n: int, digits: nat, notExact: bool)
  {
    && n == HalfUp(InUnits(x, q))
    && 1 <= n <= Ten(digits)
    && (digits >= 1 && e - digits + 1 == q ==> n >= Ten(digits - 1))
    && (notExact <==> Dec(n, q) != x)
  }

  lemma {:induction false} RoundCoefficient(x: real, a: nat, b: nat, e: int, q: int, digits: nat)
    requires digits >= 1 && b >= 1 && x == Frac(a, b, q) && IsExponent(x, e) && e - digits + 1 <= q <= e
    ensures var n := if 2 * Rem(a, b) >= b then a / b + 1 else a / b;
            RoundedCoefficient(x, e, q, n, digits, Rem(a, b) != 0)
    ensures a / b < Ten(digits)
  {
    UnitsOfFrac(a, b, q);
    HalfUpOfQuotient(a, b);
    var n := if 2 * Rem(a, b) >= b then a / b + 1 else a / b;
    POrder(e + 1, q + digits);
    QuotientBounds(a, b, q, digits);
    POrder(q, e);
    QuotientBounds(a, b, q, 0);
    if e - digits + 1 == q {
      QuotientBounds(a, b, q, digits - 1);
    }
    TimesOrder(n as real, V(a, b), P(q));
    if Rem(a, b) != 0 && n == a / b + 1 {
      NotNextInteger(a, b);
    }
  }

  lemma NotNextInteger(a: nat, b: nat)
    requires b >= 1
    ensures V(a, b) != (a / b + 1) as real
  {
    HalfUpOfQuotient(a, b);
  }

  /** The rounded value reaches 10^(digits + maxExp) exactly when the code raises the overflow flag. */
  lemma OverflowCondition(x: real, e: int, n: int, digits: nat, minExp: int, maxExp: int, notExact: bool)
    requires digits >= 1 && minExp <= maxExp
    requires RoundedCoefficient(x, e, UnitExponent(e, digits, minExp), n, digits, notExact)
    ensures var q := UnitExponent(e, digits, minExp);
            Dec(n, q) >= P(digits + maxExp) <==> q > maxExp || (n == Ten(digits) && q == maxExp)
  {
    var q := UnitExponent(e, digits, minExp);
    PShift(q, digits);
    POrder(q + digits, digits + maxExp);
    DecOrder(n, Ten(digits), q);
    if q > maxExp {
      PShift(q, digits - 1);
      POrder(digits + maxExp, q + (digits - 1));
      DecOrder(n, Ten(digits - 1), q);
    }
  }

  /** A number is below 10^(q + n) exactly when it is less than 10^n units of 10^q. */
  lemma {:induction false} UnitsBelow(x: real, q: int, n: nat)
    ensures x < P(q + n) <==> InUnits(x, q) < Ten(n) as real
  {
    PShift(q, n);
    UnitsTimes(x, P(q));
    TimesOrder(InUnits(x, q), Ten(n) as real, P(q));
  }

  lemma UnitsTimes(y: real, p: real)
    requires p > 0.0
    ensures Times(y / p, p) == y
  {
  }

  lemma HalfUpBelow(u: real, n: int)
    ensures u < n as real ==> HalfUp(u) <= n
    ensures u >= n as real ==> HalfUp(u) >= n
  {
  }

  /**
    A positive number overflows exactly when it has more than `digits` digits in units of 10^maxExp, the
    last one rounded half up.
   */
  lemma {:induction false} OverflowIff(x: real, e: int, m: int, exp: int, df: Flags, digits: nat, minExp: int,
                                       maxExp: int)
    requires digits >= 1 && minExp <= maxExp && IsExponent(x, e)
    requires CorrectDecimal(x, e, m, exp, df, digits, minExp, maxExp)
    ensures df.overflow <==> HalfUp(InUnits(x, maxExp)) >= Ten(digits)
  {
    var q := UnitExponent(e, digits, minExp);
    if q == maxExp {
      PShift(maxExp, digits);
      DecOrder(Ten(digits), HalfUp(InUnits(x, q)), q);
    } else if q < maxExp {
      FarBelow(x, e, q, digits, maxExp);
    } else {
      FarAbove(x, e, q, digits, maxExp);
    }
  }

  lemma {:induction false} FarBelow(x: real, e: int, q: int, digits: nat, maxExp: int)
    requires digits >= 1 && IsExponent(x, e) && e - digits + 1 <= q < maxExp
    ensures Dec(HalfUp(InUnits(x, q)), q) < P(digits + maxExp) && HalfUp(InUnits(x, maxExp)) < Ten(digits)
  {
    POrder(e + 1, q + digits);
    UnitsBelow(x, q, digits);
    HalfUpBelow(InUnits(x, q), Ten(digits));
    DecOrder(HalfUp(InUnits(x, q)), Ten(digits), q);
    PShift(q, digits);
    POrder(q + digits, digits + maxExp);
    POrder(e + 1, maxExp + (digits - 1));
    UnitsBelow(x, maxExp, digits - 1);
    HalfUpBelow(InUnits(x, maxExp), Ten(digits - 1));
  }

  lemma {:induction false} FarAbove(x: real, e: int, q: int, digits: nat, maxExp: int)
    requires digits >= 1 && IsExponent(x, e) && q == e - digits + 1 > maxExp
    ensures Dec(HalfUp(InUnits(x, q)), q) >= P(digits + maxExp) && HalfUp(InUnits(x, maxExp)) >= Ten(digits)
  {
    POrder(maxExp + digits, e);
    UnitsBelow(x, maxExp, digits);
    HalfUpBelow(InUnits(x, maxExp), Ten(digits));
    POrder(q + (digits - 1), e);
    UnitsBelow(x, q, digits - 1);
    HalfUpBelow(InUnits(x, q), Ten(digits - 1));
    DecOrder(Ten(digits - 1), HalfUp(InUnits(x, q)), q);
    PShift(q, digits - 1);
  }

  /** Final part of convertRatToDecimal: strips trailing zeros while the exponent allows it. */
  method Normalise(m0: int, exp0: int, maxExp: int) returns (m: int, exp: int)
    ensures Dec(m, exp) == Dec(m0, exp0)
    ensures (m > 0 <==> m0 > 0) && Abs(m) <= Abs(m0)
    ensures m % 10 == 0 ==> exp >= maxExp
    ensures exp0 <= exp && (exp0 <= maxExp ==> exp <= maxExp) && (exp0 >= maxExp ==> exp == exp0)
  {
    m, exp := m0, exp0;
    while exp < maxExp
      invariant Dec(m, exp) == Dec(m0, exp0)
      invariant (m > 0 <==> m0 > 0) && Abs(m) <= Abs(m0)
      invariant exp0 <= exp && (exp0 <= maxExp ==> exp <= maxExp) && (exp0 >= maxExp ==> exp == exp0)
    {
      var a, b := Quo(m, 10), Rem(m, 10);
      if b != 0 {
        break;
      }
      DecShift(a, exp, 1);
      assert Ten(1) == 10 && m == a * 10;
      m, exp := a, exp + 1;
    }
  }

  /** The carry: 10^digits at exponent q is rewritten with at most `digits` digits. */
  lemma Carry(digits: nat, q: int, shift: nat)
    requires shift <= digits
    ensures Dec(Ten(digits - shift), q + shift) == Dec(Ten(digits), q)
  {
    TenAdd(digits - shift, shift);
    DecShift(Ten(digits - shift), q, shift);
  }

  /** A negative number is truncated, in units fixed by the guessed exponent e. */
  ghost predicate TruncatedDecimal(x: real, e: int, m: int, exp: int, df: Flags, digits: nat, minExp: int, maxExp: int)
  {
    var q := UnitExponent(e, digits, minExp);
    var y := Dec(-InUnits(-x, q).Floor, q);
    && Dec(m, exp) == y
    && q <= exp <= (if q > maxExp then q else maxExp) && (m % 10 == 0 ==> exp >= maxExp)
    && (df.notExact <==> y != x)
    && (df.underflow <==> e < minExp)
    && (df.overflow <==> q > maxExp)
  }

  lemma NegFrac(a: int, b: nat, q: int)
    requires b >= 1
    ensures -Frac(a, b, q) == Frac(-a, b, q) && -V(a, b) == V(-a, b)
  {
    TimesNeg(V(a, b), P(q));
  }

  lemma TimesNeg(x: real, p: real)
    ensures Times(-x, p) == -Times(x, p)
  {
  }

  lemma TruncateNegative(a: int, b: nat, q: int)
    requires a < 0 && b >= 1
    ensures var x := Frac(a, b, q);
            Quo(a, b) == -InUnits(-x, q).Floor && (Rem(a, b) != 0 <==> Dec(Quo(a, b), q) != x)
    ensures Rem(a, b) <= 0
  {
    NegFrac(a, b, q);
    UnitsOfFrac(-a, b, q);
    HalfUpOfQuotient(-a, b);
    TimesOrder(Quo(a, b) as real, V(a, b), P(q));
  }

  /** Second part of convertRatToDecimal: the exponent and the scaled fraction a/b == x / 10^exp. */
  method ScaleToUnit(x: Rat, digits: nat, minExp: int, maxExp: int)
      returns (a: int, b: nat, exp: int, overflow: bool, underflow: bool, ghost e: int)
    requires x.den >= 1 && x.num != 0 && digits >= 1
    ensures b >= 1 && Frac(a, b, exp) == V(x.num, x.den)
    ensures (a > 0 <==> x.num > 0) && (a < 0 <==> x.num < 0)
    ensures exp == UnitExponent(e, digits, minExp)
    ensures overflow == (exp > maxExp) && underflow == (e < minExp)
    ensures x.num > 0 ==> IsExponent(V(x.num, x.den), e)
    ensures x.num < 0 ==> forall d :: HasDigits(x.den, d) ==> e == NegativeExponent(x, d)
  {
    var shift;
    a, b, shift, exp := Leading(x);
    e := exp;
    underflow := exp < minExp;
    if underflow {
      exp := exp - digits + 1;
    } else {
      exp := if exp - digits + 1 > minExp then exp - digits + 1 else minExp;
    }
    overflow := exp > maxExp;
    ghost var s := shift;
    shift := exp - shift;
    if shift < 0 {
      ScaleNum(a, b, -shift, exp);
      SignOfProduct(a, Ten(-shift));
      a := a * Ten(-shift);
    } else if exp > 0 {
      ScaleDen(a, b, shift, s);
      b := b * Ten(shift);
    }
  }

  /** The quotient a/b rounded half up. */
  function RoundQuotient(a: nat, b: nat): (n: nat)
    requires b >= 1
  {
    if 2 * Rem(a, b) >= b then a / b + 1 else a / b
  }

  /** Third part of convertRatToDecimal: quotient, rounding and carry. */
  method RoundAndCarry(a: int, b: nat, exp0: int, digits: nat, maxExp: int)
      returns (m: int, exp: int, notExact: bool, overflow: bool)
    requires b >= 1 && digits >= 1
    ensures notExact == (Rem(a, b) != 0)
    ensures a < 0 ==> m == Quo(a, b) && exp == exp0 && !overflow
    ensures a >= 0 && a / b < Ten(digits) ==>
              var n := RoundQuotient(a, b);
              && Dec(m, exp) == Dec(n, exp0)
              && overflow == (notExact && n == Ten(digits) && exp0 >= maxExp)
              && exp >= exp0 && (exp0 <= maxExp && !overflow ==> exp <= maxExp)
              && (m == n || 0 < m < Ten(digits))
              && (notExact && n == Ten(digits) ==> 0 < m < Ten(digits))
  {
    m, exp, notExact, overflow := Quo(a, b), exp0, false, false;
    var rest := Rem(a, b);
    if rest != 0 {
      notExact := true;
      if rest + rest >= b {
        if a < 0 { TruncateNegative(a, b, 0); }
        m := m + 1;
        if m == Ten(digits) {
          var shift := if digits < maxExp - exp then digits else maxExp - exp;
          if shift < 1 {
            overflow := true;
            shift := 1;
          }
          Carry(digits, exp, shift);
          TenSmaller(digits, shift);
          m := Ten(digits - shift);
          exp := exp + shift;
        }
      }
    }
  }

  lemma TenSmaller(digits: nat, shift: nat)
    requires 1 <= shift <= digits
    ensures Ten(digits - shift) < Ten(digits)
  {
    TenMonotone(digits - shift, digits - 1);
  }

  lemma {:induction false} ConcludePositive(x: real, a: nat, b: nat, e: int, m0: int, exp0: int, m: int, exp: int,
                                            df: Flags, carried: bool, digits: nat, minExp: int, maxExp: int)
    requires digits >= 1 && b >= 1 && minExp <= maxExp && IsExponent(x, e)
    requires var q := UnitExponent(e, digits, minExp);
             var n := RoundQuotient(a, b);
             && x == Frac(a, b, q)
             && Dec(m0, exp0) == Dec(n, q) && Dec(m, exp) == Dec(m0, exp0)
             && (m0 == n || 0 < m0 < Ten(digits))
             && (df.notExact && n == Ten(digits) ==> 0 < m0 < Ten(digits))
             && carried == (df.notExact && n == Ten(digits) && q >= maxExp)
             && df == Flags(Rem(a, b) != 0, q > maxExp || carried, e < minExp)
             && (m > 0 <==> m0 > 0) && Abs(m) <= Abs(m0) && (m % 10 == 0 ==> exp >= maxExp)
             && q <= exp && (q <= maxExp && !carried ==> exp <= maxExp)
    ensures CorrectDecimal(x, e, m, exp, df, digits, minExp, maxExp)
  {
    var q, n := UnitExponent(e, digits, minExp), RoundQuotient(a, b);
    RoundCoefficient(x, a, b, e, q, digits);
    OverflowCondition(x, e, n, digits, minExp, maxExp, df.notExact);
    POrder(minExp, e);
    POrder(e + 1, minExp);
  }

  /**
    convertRatToDecimal. For a positive x the result is the correctly rounded decimal; for a negative
    one it is truncated in units fixed by the guessed digit counts.
   */
  method ConvertRatToDecimal(x: Rat, digits: nat, minExp: int, maxExp: int)
      returns (m: int, exp: int, df: Flags, ghost e: int)
    requires x.den >= 1 && digits >= 1 && minExp <= maxExp
    ensures x.num == 0 ==> m == 0 && exp == 0 && df == Flags(false, false, false)
    ensures x.num > 0 ==> IsExponent(V(x.num, x.den), e)
                          && CorrectDecimal(V(x.num, x.den), e, m, exp, df, digits, minExp, maxExp)
    ensures x.num < 0 ==> TruncatedDecimal(V(x.num, x.den), e, m, exp, df, digits, minExp, maxExp)
                          && forall d :: HasDigits(x.den, d) ==> e == NegativeExponent(x, d)
  {
    if x.num == 0 {
      return 0, 0, Flags(false, false, false), 0;
    }
    var a, b, overflow, underflow;
    a, b, exp, overflow, underflow, e := ScaleToUnit(x, digits, minExp, maxExp);
    ghost var r, q := V(x.num, x.den), exp;
    if x.num > 0 {
      RoundCoefficient(r, a, b, e, q, digits);
    } else {
      TruncateNegative(a, b, q);
    }
    var notExact, carried;
    m, exp, notExact, carried := RoundAndCarry(a, b, exp, digits, maxExp);
    ghost var m0, exp0 := m, exp;
    df := Flags(notExact, overflow || carried, underflow);
    m, exp := Normalise(m, exp, maxExp);
    if x.num > 0 {
      ConcludePositive(r, a, b, e, m0, exp0, m, exp, df, carried, digits, minExp, maxExp);
    }
  }

  // ---------------------------------------------------------------- the result is determined

  /** A number has one form whose trailing zeros are stripped as far as maxExp allows. */
  lemma NormalUnique(m: int, exp: int, n: int, f: int, maxExp: int)
    requires Dec(m, exp) == Dec(n, f) && exp <= maxExp && f <= maxExp
    requires (m % 10 == 0 ==> exp >= maxExp) && (n % 10 == 0 ==> f >= maxExp)
    ensures m == n && exp == f
  {
    if exp <= f {
      NormalOrder(m, exp, n, f, maxExp);
    } else {
      NormalOrder(n, f, m, exp, maxExp);
    }
  }

  lemma NormalOrder(m: int, exp: int, n: int, f: int, maxExp: int)
    requires Dec(m, exp) == Dec(n, f) && exp <= f <= maxExp && (m % 10 == 0 ==> exp >= maxExp)
    ensures m == n && exp == f
  {
    var k: nat := f - exp;
    DecShift(n, exp, k);
    DecOrder(m, n * Ten(k), exp);
    if k > 0 {
      TenFold(n, Ten(k - 1), m);
    }
  }

  lemma TenFold(n: int, t: int, m: int)
    requires m == n * (10 * t)
    ensures m % 10 == 0
  {
    assert m == 10 * (n * t);
  }

  /** The trailing zeros of n taken off, `room` of them at most. */
  function Strip(n: nat, room: nat): (s: nat)
  {
    if room == 0 || n % 10 != 0 then n else Strip(n / 10, room - 1)
  }

  lemma {:induction false} StripMeans(n: nat, room: nat) returns (k: nat)
    ensures k <= room && n == Strip(n, room) * Ten(k)
    ensures Strip(n, room) % 10 == 0 ==> k == room
  {
    if room == 0 || n % 10 != 0 {
      k := 0;
    } else {
      k := StripMeans(n / 10, room - 1);
      StripStep(Strip(n / 10, room - 1), Ten(k), n);
      k := k + 1;
    }
  }

  lemma StripStep(s: nat, t: nat, n: nat)
    requires n / 10 == s * t && n % 10 == 0
    ensures n == s * (10 * t)
  {
    assert s * (10 * t) == 10 * (s * t);
  }

  function Room(q: int, maxExp: int): (room: nat)
  {
    if q < maxExp then maxExp - q else 0
  }

  /** The coefficient of a negative number: that of the truncated magnitude, stripped of trailing zeros. */
  lemma {:induction false} TruncatedCoefficient(x: real, e: int, m: int, exp: int, df: Flags, digits: nat, minExp: int,
                                                maxExp: int, q: int, t: int)
    requires x < 0.0 && TruncatedDecimal(x, e, m, exp, df, digits, minExp, maxExp)
    requires q == UnitExponent(e, digits, minExp) && t == InUnits(-x, q).Floor
    ensures t >= 0 && m == -(Strip(t, Room(q, maxExp)) as int)
  {
    NonNegativeUnits(-x, q);
    StrippedForm(m, exp, t, q, maxExp);
  }

  lemma {:induction false} StrippedForm(m: int, exp: int, t: nat, q: int, maxExp: int)
    requires Dec(m, exp) == Dec(-(t as int), q)
    requires q <= exp <= (if q > maxExp then q else maxExp) && (m % 10 == 0 ==> exp >= maxExp)
    ensures m == -(Strip(t, Room(q, maxExp)) as int)
  {
    if q > maxExp {
      DecOrder(m, -(t as int), q);
    } else {
      var k := StripShift(t, maxExp - q, q);
      NormalUnique(m, exp, -(Strip(t, maxExp - q) as int), q + k, maxExp);
    }
  }

  /** The stripped number and its exponent. */
  lemma {:induction false} StripShift(t: nat, room: nat, q: int) returns (k: nat)
    ensures k <= room && Dec(-(t as int), q) == Dec(-(Strip(t, room) as int), q + k)
    ensures -(Strip(t, room) as int) % 10 == 0 ==> k == room
  {
    k := StripMeans(t, room);
    var s: int := Strip(t, room);
    NegativeMul(s, Ten(k), t);
    DecShift(-s, q, k);
    NegativeMod(s);
  }

  lemma {:induction false} NegativeMod(s: int)
    ensures -s % 10 == 0 ==> s % 10 == 0
  {
  }

  lemma NegativeMul(s: int, t: int, n: int)
    requires n == s * t
    ensures -s * t == -n
  {
  }

  lemma NonNegativeUnits(y: real, q: int)
    requires y >= 0.0
    ensures InUnits(y, q) >= 0.0
  {
  }

  // ---------------------------------------------------------------- negative numbers

  /** What a caller can compute before the call: the exponent of the unit of a negative number. */
  function NegativeUnit(x: Rat, denDigits: nat, digits: nat, minExp: int): (q: int)
  {
    UnitExponent(NegativeExponent(x, denDigits), digits, minExp)
  }

  /**
    A negative number is rounded half up in magnitude exactly when less than half a unit is cut off.
   */
  lemma NegativeRoundedIff(x: Rat, d: nat, m: int, exp: int, df: Flags, digits: nat, minExp: int, maxExp: int)
    requires x.num < 0 && x.den >= 1
    requires TruncatedDecimal(V(x.num, x.den), NegativeExponent(x, d), m, exp, df, digits, minExp, maxExp)
    ensures var q := NegativeUnit(x, d, digits, minExp);
            var u := InUnits(-V(x.num, x.den), q);
            Dec(m, exp) == Dec(-HalfUp(u), q) <==> u - u.Floor as real < 0.5
  {
    var q := NegativeUnit(x, d, digits, minExp);
    var u := InUnits(-V(x.num, x.den), q);
    DecOrder(-u.Floor, -HalfUp(u), q);
  }

  /** The number s with k zeros behind it. */
  function WithZeros(s: nat, k: nat): (n: nat)
  {
    s * Ten(k)
  }

  /** t has at most `digits` digits before its trailing zeros, `room` of which do not count. */
  ghost predicate Short(t: nat, room: nat, digits: nat)
  {
    exists s: nat, k: nat :: k <= room && s < Ten(digits) && t == WithZeros(s, k)
  }

  lemma {:induction false} StripShort(t: nat, room: nat, s: nat, k: nat)
    requires k <= room && t == WithZeros(s, k)
    ensures Strip(t, room) <= s
    decreases k
  {
    StripSmaller(t, room);
    if k > 0 {
      TenFold(s, Ten(k - 1), t);
      Tenth(s, Ten(k - 1), t);
      StripShort(t / 10, room - 1, s, k - 1);
    }
  }

  lemma Tenth(s: int, t: int, n: int)
    requires n == s * (10 * t)
    ensures n / 10 == s * t
  {
    assert n == 10 * (s * t);
  }

  lemma {:induction false} StripSmaller(t: nat, room: nat)
    ensures Strip(t, room) <= t
  {
    if room > 0 && t % 10 == 0 {
      StripSmaller(t / 10, room - 1);
    }
  }

  /**
    Its coefficient keeps to the number of digits asked for exactly when the truncated magnitude has no
    more digits before its trailing zeros, those counted that maxExp does not allow to take off.
   */
  lemma {:induction false} NegativeDigitsIff(x: Rat, d: nat, m: int, exp: int, df: Flags, digits: nat, minExp: int,
                                             maxExp: int, q: int, t: int)
    requires x.num < 0 && x.den >= 1
    requires TruncatedDecimal(V(x.num, x.den), NegativeExponent(x, d), m, exp, df, digits, minExp, maxExp)
    requires q == NegativeUnit(x, d, digits, minExp) && t == InUnits(-V(x.num, x.den), q).Floor
    ensures t >= 0 && (Abs(m) < Ten(digits) <==> Short(t, Room(q, maxExp), digits))
  {
    NegativeFraction(x.num, x.den);
    TruncatedCoefficient(V(x.num, x.den), NegativeExponent(x, d), m, exp, df, digits, minExp, maxExp, q, t);
    ShortIff(t, Room(q, maxExp), digits);
  }

  lemma NegativeFraction(a: int, b: nat)
    requires a < 0 && b >= 1
    ensures V(a, b) < 0.0
  {
  }

  lemma {:induction false} ShortIff(t: nat, room: nat, digits: nat)
    ensures Strip(t, room) < Ten(digits) <==> Short(t, room, digits)
  {
    if Short(t, room, digits) {
      var s: nat, k: nat :| k <= room && s < Ten(digits) && t == WithZeros(s, k);
      StripShort(t, room, s, k);
    } else {
      var k := StripMeans(t, room);
      assert t == WithZeros(Strip(t, room), k);
    }
  }

  /** Rounding -2/3 to one digit yields -0.6, although -0.7 is nearer. */
  lemma NegativeIsNotRounded(m: int, exp: int, df: Flags)
    requires TruncatedDecimal(V(-2, 3), NegativeExponent(Rat(-2, 3), 1), m, exp, df, 1, -5, 5)
    ensures Dec(m, exp) == -0.6
    ensures V(-2, 3) - -0.7 < -0.6 - V(-2, 3)
  {
    assert BitLen(2) == 2 && Estimate(2) == 0;
    assert P(-1) == 0.1;
    assert InUnits(V(2, 3), -1).Floor == 6;
    assert -V(-2, 3) == V(2, 3);
  }

  /** The guess falls short of the digit count: -12 keeps two digits when one is asked for. */
  lemma NegativeKeepsTooManyDigits(m: int, exp: int, df: Flags)
    requires TruncatedDecimal(V(-12, 1), NegativeExponent(Rat(-12, 1), 1), m, exp, df, 1, -5, 0)
    ensures m == -12 && exp == 0
  {
    GuessTwelve();
    assert P(0) == 1.0;
    assert UnitExponent(0, 1, -5) == 0;
    assert InUnits(12.0, 0).Floor == 12;
  }

  lemma GuessTwelve()
    ensures Guess(-12) == 1
  {
    assert BitLen(12) == 4 && Estimate(4) == 1;
  }

  lemma {:induction false} FractionBelow(n: nat, b: nat, da: nat, db: nat)
    requires b >= 1 && HasDigits(n, da) && HasDigits(b, db)
    ensures V(n, b) < P(da - db + 1)
  {
    var s: int := (da as int) - (db as int);
    EqualDigits(n, b, da, db);
    TimesOne(V(n, b));
    assert P(0) == 1.0;
    POrder(s, s + 1);
    if s < 0 {
      ScaleNum(n, b, db - da, s);
      FractionExponent(n * Ten(db - da), b, s);
    } else {
      ScaleDen(n, b, da - db, 0);
      FractionExponent(n, b * Ten(da - db), s);
    }
  }

  /** The guessed exponent is at most two below the true one. */
  lemma GuessedExponent(x: Rat, da: nat, db: nat)
    requires x.num < 0 && x.den >= 1 && HasDigits(-x.num, da) && HasDigits(x.den, db)
    ensures -V(x.num, x.den) < P(NegativeExponent(x, db) + 3)
  {
    var n: nat := -x.num;
    GuessBounds(n);
    if da > Guess(n) + 1 {
      TenMonotone(Guess(n) + 1, da - 1);
      assert false;
    }
    if x.den == 1 {
      DigitsUnique(1, db, 1);
    }
    FractionBelow(n, x.den, da, db);
    NegFrac(x.num, x.den, 0);
    POrder(da - db + 1, NegativeExponent(x, db) + 3);
  }

  // ---------------------------------------------------------------- back to rationals, fixed decimals

  /** convertDecimalToRat (the fraction is not reduced). */
  function ConvertDecimalToRat(m: int, exp: int): (x: Rat)
  {
    if exp < 0 then Rat(m, Ten(-exp)) else Rat(m * Ten(exp), 1)
  }

  lemma DecimalToRatValue(m: int, exp: int)
    ensures var x := ConvertDecimalToRat(m, exp); x.den >= 1 && V(x.num, x.den) == Dec(m, exp)
  {
    TimesOne(V(m, 1));
    assert P(0) == 1.0;
    if exp < 0 {
      ScaleDen(m, 1, -exp, exp);
      TimesOne(V(m, Ten(-exp)));
    } else {
      ScaleNum(m, 1, exp, 0);
      TimesOne(V(m * Ten(exp), 1));
    }
  }

  function Gcd(a: nat, b: nat): (g: nat)
    ensures a > 0 || b > 0 ==> g > 0
    decreases b
  {
    if b == 0 then a else Gcd(b, a % b)
  }

  lemma {:induction false} GcdDivides(a: nat, b: nat) returns (i: nat, j: nat)
    requires b > 0
    ensures a == Gcd(a, b) * i && b == Gcd(a, b) * j && j > 0
    decreases b
  {
    if a % b == 0 {
      i, j := a / b, 1;
      assert Gcd(b, 0) == b;
    } else {
      var k, l := GcdDivides(b, a % b);
      i, j := k * (a / b) + l, k;
      Combine(a, b, Gcd(a, b), k, l);
    }
  }

  lemma Combine(a: nat, b: nat, g: nat, k: nat, l: nat)
    requires b > 0 && b == g * k && a % b == g * l
    ensures a == g * (k * (a / b) + l)
  {
    assert a == b * (a / b) + a % b;
    assert (g * k) * (a / b) == g * (k * (a / b));
  }

  /** big.Rat.SetFrac: the fraction in lowest terms. */
  method SetFrac(n: int, d: nat) returns (a: int, b: nat)
    requires d >= 1
    ensures b >= 1 && V(a, b) == V(n, d) && (a < 0 <==> n < 0)
  {
    var g := Gcd(Abs(n), d);
    ghost var i, j := GcdDivides(Abs(n), d);
    Bytes.DivModUnique(Abs(n), g, i, 0);
    Bytes.DivModUnique(d, g, j, 0);
    b := d / g;
    a := if n < 0 then -(Abs(n) / g) else n / g;
    ghost var k: int := if n < 0 then -(i as int) else i;
    NegMul(g, i);
    Reduce(k, j, g, n, d);
  }

  lemma NegMul(g: nat, i: nat)
    ensures g * -(i as int) == -(g * i)
  {
  }

  lemma Reduce(k: int, j: nat, g: nat, n: int, d: nat)
    requires j >= 1 && g >= 1 && n == g * k && d == g * j && d >= 1
    ensures V(k, j) == V(n, d)
  {
    RealMul(g, k);
    RealMul(g, j);
    ReduceReal(k as real, j as real, g as real);
  }

  lemma ReduceReal(k: real, j: real, g: real)
    requires j > 0.0 && g > 0.0
    ensures g * j != 0.0 && (g * k) / (g * j) == k / j
  {
  }

  /** convertRatToFixed: half-up rounding in units of 10^-scale (truncation for negative numbers). */
  method ConvertRatToFixed(r: Rat, prec: nat, scale: nat) returns (m: int, df: Flags)
    requires r.den >= 1
    ensures r.num >= 0 ==> m == HalfUp(InUnits(V(r.num, r.den), 0 - scale)) >= 0
    ensures r.num < 0 ==> m == -InUnits(-V(r.num, r.den), 0 - scale).Floor <= 0
    ensures df.notExact <==> Dec(m, 0 - scale) != V(r.num, r.den)
    ensures df.overflow <==> Abs(m) >= Ten(prec)
    ensures !df.underflow
  {
    m := r.num * Ten(scale);
    SignOfProduct(r.num, Ten(scale));
    var a, b := SetFrac(m, r.den);
    ghost var q: int := 0 - scale;
    ghost var x := V(r.num, r.den);
    assert x == Frac(a, b, q) by {
      ScaleNum(r.num, r.den, scale, q);
      TimesOne(x);
      assert P(0) == 1.0;
    }
    UnitsOfFrac(a, b, q);
    if a >= 0 {
      HalfUpOfQuotient(a, b);
      NotNextInteger(a, b);
      TimesOrder((a / b) as real, V(a, b), P(q));
      TimesOrder((a / b + 1) as real, V(a, b), P(q));
    } else {
      TruncateNegative(a, b, q);
    }
    df := Flags(false, false, false);
    m := Quo(a, b);
    var rest := Rem(a, b);
    if rest != 0 {
      df := df.(notExact := true);
      if rest + rest >= b {
        m := m + 1;
      }
    }
    var maxInt: int := Ten(prec);
    if m <= -maxInt || m >= maxInt {
      df := df.(overflow := true);
    }
  }

  /** convertFixedToRat. */
  function ConvertFixedToRat(m: int, scale: nat): (x: Rat)
  {
    Rat(m, Ten(scale))
  }

  lemma FixedToRatValue(m: int, scale: nat)
    ensures var x := ConvertFixedToRat(m, scale); V(x.num, x.den) == Dec(m, 0 - scale)
  {
    DecimalToRatValue(m, 0 - scale);
    TimesOne(m as real);
    assert P(0) == 1.0;
  }
}
