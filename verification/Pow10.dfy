/** Powers of ten and two, as used by the decimal conversions. */
module Pow10 {

  function Ten(n: nat): (p: nat)
    ensures p >= 1
  {
    if n == 0 then 1 else 10 * Ten(n - 1)
  }

  function Two(n: nat): (p: nat)
    ensures p >= 1
  {
    if n == 0 then 1 else 2 * Two(n - 1)
  }

  /** 10^e for any integer exponent. */
  function P(e: int): (p: real)
    ensures p > 0.0
    decreases if e < 0 then -e else e
  {
    if e == 0 then 1.0 else if e > 0 then 10.0 * P(e - 1) else P(e + 1) / 10.0
  }

  lemma PStep(e: int)
    ensures P(e + 1) == 10.0 * P(e)
  {
  }

  /** Real multiplication under a name, so that equal factors are seen to give equal products. */
  function Times(x: real, y: real): (z: real)
  {
    x * y
  }

  /** The number m * 10^e. */
  function Dec(m: int, e: int): (x: real)
  {
    Times(m as real, P(e))
  }

  /** Adding a non-negative exponent multiplies by a power of ten. */
  lemma {:induction false} PShift(e: int, n: nat)
    ensures P(e + n) == Dec(Ten(n), e)
    decreases n
  {
    if n == 0 {
      TimesOne(P(e));
    } else {
      PShift(e, n - 1);
      PStep(e + (n - 1));
      TenTimes(Ten(n - 1) as real, P(e));
    }
  }

  lemma TimesOne(x: real)
    ensures Times(1.0, x) == x && Times(x, 1.0) == x
  {
  }

  lemma TenTimes(x: real, p: real)
    ensures Times(10.0 * x, p) == 10.0 * Times(x, p)
  {
  }

  lemma {:induction false} PIsTen(n: nat)
    ensures P(n) == Ten(n) as real
  {
    PShift(0, n);
    TimesOne(Ten(n) as real);
    assert P(0) == 1.0;
  }

  lemma {:induction false} PMonotone(a: int, b: int)
    requires a < b
    ensures P(a) < P(b)
    decreases b - a
  {
    PStep(b - 1);
    if a < b - 1 {
      PMonotone(a, b - 1);
    }
  }

  lemma {:induction false} POrder(a: int, b: int)
    ensures P(a) < P(b) <==> a < b
    ensures P(a) <= P(b) <==> a <= b
  {
    if a < b {
      PMonotone(a, b);
    } else if b < a {
      PMonotone(b, a);
    }
  }

  lemma {:induction false} TenAdd(a: nat, b: nat)
    ensures Ten(a + b) == Ten(a) * Ten(b)
  {
    if a != 0 {
      TenAdd(a - 1, b);
      assert Ten(a + b) == 10 * Ten(a - 1 + b);
      MulAssoc(10, Ten(a - 1), Ten(b));
    }
  }

  lemma MulAssoc(a: int, b: int, c: int)
    ensures a * (b * c) == (a * b) * c
  {
  }

  lemma RealMul(a: int, b: int)
    ensures (a * b) as real == a as real * b as real
  {
  }
}
