/**
  The wire forms of decimals (driver/internal/protocol/encoding/encode.go and decode.go), for
  64-bit machine words. A decimal is a 128-bit number of coefficient (113 bits), biased exponent
  (14 bits) and sign, close to the binary-integer decimal128 of section 3.5.2 of IEEE 754-2008; a
  fixed decimal is a two's complement number of 8, 12 or 16 bytes.
 */
module DecimalWire {
  import opened Bytes
  import opened Pow10
  import opened Decimal

  const WORD: nat := 0x1_0000_0000_0000_0000                          // 2^64
  const COEFFICIENTS: nat := 0x2_0000_0000_0000_0000_0000_0000_0000 // 2^113
  const LOW: nat := 0x1_0000_0000_0000_0000_0000_0000_0000          // 2^112
  const EXPONENTS: nat := 0x4000                                   // 2^14
  const SIGN: nat := 0x8000_0000_0000_0000_0000_0000_0000_0000     // 2^127
  const DEC128_BIAS: int := 6176
  const DEC_SIZE: nat := 16
  const LOW_SIZE: nat := 14   // bytes that hold coefficient bits only

  // ---------------------------------------------------------------- words and bytes

  /** big.Int.Bits: the words of a number, least significant first, without leading zero words. */
  function Words(n: nat): (ws: seq<nat>)
    ensures forall i :: 0 <= i < |ws| ==> ws[i] < WORD
  {
    if n == 0 then [] else [n % WORD] + Words(n / WORD)
  }

  lemma {:induction false} WordsBounds(n: nat)
    ensures n < Pow256(8 * |Words(n)|)
    ensures n > 0 ==> |Words(n)| >= 1 && Pow256(8 * (|Words(n)| - 1)) <= n
  {
    if n > 0 {
      var k := |Words(n / WORD)|;
      WordsBounds(n / WORD);
      Pow256Add(8, 8 * k);
      WordIsEightBytes();
      var p := Pow256(8 * k);
      MulBelow(n, p);
      if k >= 1 {
        Pow256Add(8, 8 * (k - 1));
        MulAbove(n, Pow256(8 * (k - 1)));
      }
    }
  }

  lemma MulBelow(n: nat, p: nat)
    requires n / WORD < p
    ensures n < WORD * p
  {
  }

  lemma MulAbove(n: nat, p: nat)
    requires p <= n / WORD
    ensures WORD * p <= n
  {
  }

  /** The first bytes of a longer form. */
  lemma {:induction false} LESplit(n: int, a: nat, b: nat)
    ensures LE(n, a + b) == LE(n, a) + LE(n / Pow256(a), b)
    decreases a
  {
    if a == 0 {
      assert Pow256(0) == 1;
    } else {
      LESplit(n / 256, a - 1, b);
      DivDiv(n, Pow256(a - 1));
      Assoc([n % 256], LE(n / 256, a - 1), LE(n / Pow256(a), b));
    }
  }

  lemma LESplitAt(n: int, a: nat, b: nat, r: int)
    requires r == n / Pow256(a)
    ensures LE(n, a + b) == LE(n, a) + LE(r, b)
  {
    LESplit(n, a, b);
  }

  lemma DivDiv(n: int, p: nat)
    requires p >= 1
    ensures (n / 256) / p == n / (256 * p)
  {
    var q, r := (n / 256) / p, (n / 256) % p;
    assert n / 256 == p * q + r;
    assert n == (256 * p) * q + (256 * r + n % 256);
    DivModUnique(n, 256 * p, q, 256 * r + n % 256);
  }

  /** Only the value modulo 256^k matters for k bytes. */
  lemma {:induction false} LECongruent(n: int, c: int, k: nat)
    ensures LE(n + c * Pow256(k), k) == LE(n, k)
    decreases k
  {
    if k != 0 {
      LECongruent(n / 256, c, k - 1);
      Factor(c, Pow256(k - 1));
      AddMultiple(n, c * Pow256(k - 1));
    }
  }

  lemma Factor(c: int, p: int)
    ensures c * (256 * p) == 256 * (c * p)
  {
  }

  lemma AddMultiple(n: int, y: int)
    ensures (n + 256 * y) % 256 == n % 256 && (n + 256 * y) / 256 == n / 256 + y
  {
  }

  lemma {:induction false} LEOfZero(k: nat)
    ensures LE(0, k) == seq(k, _ => 0 as byte)
  {
    if k != 0 {
      LEOfZero(k - 1);
    }
  }

  lemma {:induction false} LEOfMinusOne(k: nat)
    ensures LE(-1, k) == seq(k, _ => 255 as byte)
  {
    if k != 0 {
      LEOfMinusOne(k - 1);
    }
  }

  /** The k-th word is the k-th digit in base 2^64. */
  lemma {:induction false} WordAt(n: nat, k: nat)
    requires k < |Words(n)|
    ensures Words(n)[k] == (n / Pow256(8 * k)) % WORD
    decreases k
  {
    if k == 0 {
      assert Pow256(0) == 1;
    } else {
      WordAt(n / WORD, k - 1);
      Pow256Add(8, 8 * (k - 1));
      WordIsEightBytes();
      DivTwice(n, WORD, Pow256(8 * (k - 1)));
    }
  }

  lemma DivTwice(n: nat, a: nat, b: nat)
    requires a >= 1 && b >= 1
    ensures a * b >= 1 && (n / a) / b == n / (a * b)
  {
    var q, r := n / a, n % a;
    DivTwiceCore(n, a, b, q, r, q / b, q % b);
    DivModUnique(n, a * b, q / b, a * (q % b) + r);
  }

  lemma DivTwiceCore(n: nat, a: nat, b: nat, q: nat, r: nat, q': nat, r': nat)
    requires n == a * q + r && r < a && q == b * q' + r' && r' < b
    ensures a * b >= 1 && n == (a * b) * q' + (a * r' + r) && a * r' + r < a * b
  {
    assert a * (b * q' + r') == (a * b) * q' + a * r';
    assert a * (r' + 1) <= a * b;
  }

  /** Bytes of the k-th word continue the bytes of the number. */
  lemma {:induction false} WordContinues(n: nat, k: nat, x: nat)
    requires k < |Words(n)| && x <= 8
    ensures LE(n, 8 * k + x) == LE(n, 8 * k) + LE(Words(n)[k], x)
  {
    WordAt(n, k);
    var r := Quotient(n, Pow256(8 * k));
    LESplitAt(n, 8 * k, x, r);
    DigitJoin(n, 8 * k, x, r, Words(n)[k]);
  }

  lemma Quotient(n: nat, p: nat) returns (r: nat)
    requires p >= 1
    ensures r == n / p
  {
    r := n / p;
  }

  lemma DigitJoin(n: nat, j: nat, x: nat, r: nat, w: nat)
    requires x <= 8 && w == r % WORD && LE(n, j + x) == LE(n, j) + LE(r, x)
    ensures LE(n, j + x) == LE(n, j) + LE(w, x)
  {
    LEOfWord(r, x);
  }

  lemma {:induction false} LEOfWord(r: nat, x: nat)
    requires x <= 8
    ensures LE(r % WORD, x) == LE(r, x)
  {
    var c := SplitWord(r, x);
    LECongruent(r % WORD, c, x);
  }

  lemma SplitWord(r: nat, x: nat) returns (c: nat)
    requires x <= 8
    ensures r == r % WORD + c * Pow256(x)
  {
    c := (r / WORD) * Pow256(8 - x);
    WordIsEightBytes();
    Pow256Add(8 - x, x);
    MulAssoc(r / WORD, Pow256(8 - x), Pow256(x));
    assert r == r % WORD + (r / WORD) * WORD;
  }

  lemma WordIsEightBytes()
    ensures Pow256(8) == WORD
  {
  }

  /** The inner loop: the bytes of one word, as far as they fit. */
  method PutWord(b: array<byte>, word: nat, j0: nat, size: nat) returns (j: nat)
    requires j0 <= size <= b.Length
    modifies b
    ensures j == (if j0 + 8 < size then j0 + 8 else size)
    ensures b[..j] == old(b[..j0]) + LE(word, j - j0)
  {
    j := j0;
    var d, i := word, 0;
    assert Pow256(0) == 1;
    while i < 8 && j < size
      invariant 0 <= i <= 8 && j == j0 + i <= size
      invariant b[..j] == old(b[..j0]) + LE(word, i)
      invariant d == word / Pow256(i)
    {
      b[j] := d % 256;
      WordStep(word, i, i + 1, d);
      Assoc(old(b[..j0]), LE(word, i), [d % 256]);
      assert b[..j + 1] == b[..j] + [d % 256];
      d := d / 256;
      j := j + 1;
      i := i + 1;
    }
  }

  lemma {:induction false} WordStep(word: nat, i: nat, next: nat, d: nat)
    requires next == i + 1 && d == word / Pow256(i)
    ensures LE(word, next) == LE(word, i) + [d % 256] && d / 256 == word / Pow256(next)
  {
    LESplit(word, i, 1);
    DivTwice(word, Pow256(i), 256);
    assert LE(d, 1) == [d % 256];
  }

  /** Little-endian words to little-endian bytes, up to `size` bytes. */
  method PutWords(b: array<byte>, ws: seq<nat>, size: nat, ghost n: nat) returns (j: nat)
    requires size <= b.Length && ws == Words(n)
    modifies b
    ensures j == (if 8 * |ws| < size then 8 * |ws| else size)
    ensures b[..j] == LE(n, j)
  {
    j := 0;
    for k := 0 to |ws|
      invariant j == (if 8 * k < size then 8 * k else size)
      invariant b[..j] == LE(n, j)
    {
      ghost var j0, done := j, b[..j];
      j := PutWord(b, ws[k], j, size);
      WordsContinue(n, k, j0, j - j0, done);
    }
  }

  lemma WordsContinue(n: nat, k: nat, j: nat, x: nat, done: seq<byte>)
    requires k < |Words(n)| && (x == 0 || (x <= 8 && j == 8 * k)) && done == LE(n, j)
    ensures done + LE(Words(n)[k], x) == LE(n, j + x)
  {
    if x > 0 {
      WordContinues(n, k, x);
    }
  }

  // ---------------------------------------------------------------- decimal

  /** Bitwise or. */
  function Or(a: nat, b: nat): (c: nat)
  {
    if a == 0 && b == 0 then 0
    else (if a % 2 == 1 || b % 2 == 1 then 1 else 0) + 2 * Or(a / 2, b / 2)
  }

  lemma {:induction false} OrZero(a: nat)
    ensures Or(a, 0) == a && Or(0, a) == a
  {
    if a != 0 {
      OrZero(a / 2);
    }
  }

  /** The or of disjoint bits is their sum. */
  lemma {:induction false} OrLowBit(a: nat, b: nat)
    requires a < 2 && b % 2 == 0
    ensures Or(a, b) == a + b
  {
    OrZero(b / 2);
    assert a / 2 == 0;
  }

  lemma {:induction false} OrDisjoint(a: nat, b: nat, k: nat)
    requires a < Two(k) && b % Two(k) == 0
    ensures Or(a, b) == a + b
    decreases k
  {
    if k == 0 {
      OrZero(b);
    } else {
      var p := Two(k - 1);
      var c := b / Two(k);
      assert b == 2 * (p * c);
      DivModUnique(b / 2, p, c, 0);
      OrDisjoint(a / 2, b / 2, k - 1);
    }
  }

  lemma {:induction false} OrByte(a: nat, b: nat, k: nat)
    requires a < Two(k) && b < Two(k)
    ensures Or(a, b) < Two(k)
    decreases k
  {
    if k != 0 {
      OrByte(a / 2, b / 2, k - 1);
    }
  }

  /** The 128-bit number of a decimal: coefficient, biased exponent, sign. */
  function DecimalNumber(m: int, exp: int): (n: int)
  {
    Abs(m) + COEFFICIENTS * (exp + DEC128_BIAS) + (if m < 0 then SIGN else 0)
  }

  datatype Decoded = Null | Unsupported | Value(m: int, exp: int)

  /** The decimal a 128-bit number stands for. */
  function DecodeNumber(n: nat): (d: Decoded)
  {
    var top := n / 0x1000_0000_0000_0000_0000_0000_0000_0000;  // the four high bits
    if top % 8 == 7 then Null
    else if top % 8 == 6 then Unsupported
    else
      var c := n % COEFFICIENTS;
      var e := (n / COEFFICIENTS) % EXPONENTS - DEC128_BIAS;
      Value(if top >= 8 then -c else c, e)
  }

  /** Null has the three bits 4, 5 and 6 of the top byte set, other special values bits 5 and 6 only. */
  lemma {:induction false} SpecialBits(bs: seq<byte>)
    requires |bs| == DEC_SIZE
    ensures DecodeNumber(LEValue(bs)).Null? <==> bs[15] / 16 % 8 == 7
    ensures DecodeNumber(LEValue(bs)).Unsupported? <==> bs[15] / 16 % 8 == 6
  {
    TopNibble(bs, LEValue(bs));
  }

  const BELOW_TOP: nat := 0x100_0000_0000_0000_0000_0000_0000_0000  // what the top byte counts

  lemma {:induction false} TopNibble(bs: seq<byte>, v: nat)
    requires |bs| == DEC_SIZE && v == LEValue(bs)
    ensures v / 0x1000_0000_0000_0000_0000_0000_0000_0000 == bs[15] / 16
  {
    var low, top := bs[..15], bs[15..];
    assert bs == low + top && top == [bs[15]] && top[1..] == [];
    LEValueConcat(low, top);
    assert LEValue(top) == bs[15] + 256 * LEValue([]);
    LEValueBound(low);
    TopPower();
    NibbleOf(v, LEValue(low), bs[15]);
  }

  lemma TopPower()
    ensures Pow256(15) == BELOW_TOP
  {
    LowBytes();
    assert Pow256(15) == 256 * Pow256(14);
  }

  lemma NibbleOf(v: nat, low: nat, b: byte)
    requires low < BELOW_TOP && v == low + BELOW_TOP * b
    ensures v / 0x1000_0000_0000_0000_0000_0000_0000_0000 == b / 16
  {
    DivModUnique(v, 0x1000_0000_0000_0000_0000_0000_0000_0000, b / 16, b % 16 * BELOW_TOP + low);
  }

  /** One is 1 at exponent 0: the coefficient in the first byte, the biased exponent 6176 in the last two. */
  lemma OneOnTheWire()
    ensures DecimalNumber(1, 0) == 1 + 0x3040 * 0x1_0000_0000_0000_0000_0000_0000_0000
    ensures DecimalNumber(-1, 0) == 1 + 0xB040 * 0x1_0000_0000_0000_0000_0000_0000_0000
  {
  }

  /** No number in the exponent range is taken for null or not-a-number, and it decodes to itself. */
  lemma NumberRoundTrip(m: int, exp: int)
    requires Abs(m) < COEFFICIENTS && -6176 <= exp <= 6111
    ensures 0 <= DecimalNumber(m, exp) < Pow256(16)
    ensures DecodeNumber(DecimalNumber(m, exp)) == Value(m, exp)
  {
    WordIsEightBytes();
    Pow256Add(8, 8);
    var n, e := DecimalNumber(m, exp), exp + DEC128_BIAS;
    var h := e + (if m < 0 then EXPONENTS else 0);
    assert n == COEFFICIENTS * h + Abs(m);
    assert n / COEFFICIENTS == h && n % COEFFICIENTS == Abs(m);
    assert h % EXPONENTS == e;
  }

  /** Fills the buffer from j to size ("clear scratch buffer"). */
  method Fill(b: array<byte>, j: nat, size: nat, fill: byte)
    requires j <= size <= b.Length
    modifies b
    ensures b[..size] == old(b[..j]) + seq(size - j, _ => fill)
  {
    for i := j to size
      invariant b[..j] == old(b[..j])
      invariant forall k :: j <= k < i ==> b[k] == fill
    {
      b[i] := fill;
    }
  }

  /** Words followed by zeroes are the full little-endian form. */
  lemma {:induction false} ZeroFilled(n: nat, j: nat, size: nat)
    requires j <= size && (j < size ==> n < Pow256(j))
    ensures LE(n, j) + seq(size - j, _ => 0 as byte) == LE(n, size)
  {
    if j < size {
      DivModUnique(n, Pow256(j), 0, n);
      LESplitAt(n, j, size - j, 0);
      LEOfZero(size - j);
    }
  }

  /** Words in two's complement followed by 0xff are the full form of the negative number. */
  lemma {:induction false} OnesFilled(n: int, r: nat, c: nat, j: nat, size: nat)
    requires j <= size && n == r - c * Pow256(j) && (j < size ==> c == 1 && r < Pow256(j))
    ensures LE(r, j) + seq(size - j, _ => 255 as byte) == LE(n, size)
  {
    LECongruent(r, -(c as int), j);
    assert -(c as int) * Pow256(j) == -(c * Pow256(j));
    if j < size {
      DivModUnique(n, Pow256(j), -1, r);
      LESplitAt(n, j, size - j, -1);
      LEOfMinusOne(size - j);
    }
  }

  /** The two high bytes over k low bytes. */
  lemma Pack(n: nat, v: nat, k: nat, p: nat, c: nat, lo: byte, hi: byte)
    requires p == Pow256(k) && v == n + c * p && n / p + c == lo + 256 * hi
    ensures LE(v, k + 2) == LE(n, k) + [lo, hi]
  {
    LECongruent(n, c, k);
    QuotientPlus(n, c, p);
    LESplitAt(v, k, 2, n / p + c);
    TwoBytes(n / p + c, lo, hi);
  }

  lemma QuotientPlus(n: nat, c: nat, p: nat)
    requires p >= 1
    ensures (n + c * p) / p == n / p + c
  {
    assert n + c * p == p * (n / p + c) + n % p;
    DivModUnique(n + c * p, p, n / p + c, n % p);
  }

  lemma LowBytes()
    ensures Pow256(LOW_SIZE) == LOW
    ensures Pow256(DEC_SIZE) == 2 * SIGN
  {
    Pow256Add(7, 7);
    WordIsEightBytes();
    Pow256Add(8, 8);
  }

  lemma {:induction false} TwoBytes(h: nat, lo: byte, hi: byte)
    requires h == lo + 256 * hi
    ensures LE(h, 2) == [lo, hi]
  {
    assert LE(h / 256, 1) == [hi];
  }

  /** They carry the top coefficient bit, the exponent and the sign. */
  lemma {:induction false} PackNumber(n: nat, e: nat, neg: bool, v: nat, lo: byte, hi: byte)
    requires n < COEFFICIENTS && e < EXPONENTS && v == n + COEFFICIENTS * e + (if neg then SIGN else 0)
    requires lo == n / LOW + 2 * (e % 128) && hi == e / 128 + (if neg then 128 else 0)
    ensures LE(v, DEC_SIZE) == LE(n, LOW_SIZE) + [lo, hi]
  {
    LowBytes();
    var c := 2 * e + (if neg then 32768 else 0);
    SplitHigh(n, e, neg, v, c);
    Pack(n, v, LOW_SIZE, LOW, c, lo, hi);
  }

  lemma SplitHigh(n: nat, e: nat, neg: bool, v: nat, c: nat)
    requires n < COEFFICIENTS && v == n + COEFFICIENTS * e + (if neg then SIGN else 0)
    requires c == 2 * e + (if neg then 32768 else 0) && e < EXPONENTS
    ensures v == n + c * LOW && n / LOW < 2
    ensures n / LOW + c == (n / LOW + 2 * (e % 128)) + 256 * (e / 128 + (if neg then 128 else 0))
  {
  }

  /** The bytes of the coefficient, spread over the whole buffer. */
  method PutCoefficient(b: array<byte>, n: nat)
    requires b.Length >= DEC_SIZE && n < Pow256(DEC_SIZE)
    modifies b
    ensures b[..DEC_SIZE] == LE(n, DEC_SIZE)
  {
    var j := PutWords(b, Words(n), DEC_SIZE, n);
    WordsBounds(n);
    ZeroFilled(n, j, DEC_SIZE);
    Fill(b, j, DEC_SIZE, 0);
  }

  /**
    The bytes of Encoder.Decimal. A coefficient of more than 113 bits spills into the exponent bits of
    byte 14 and is cut off at byte 15.
   */
  function DecimalBytes(m: int, exp: int): (out: seq<byte>)
    ensures |out| == DEC_SIZE
  {
    var c, e := LE(Abs(m), DEC_SIZE), exp + DEC128_BIAS;
    c[..LOW_SIZE] + [WithExponent(c[LOW_SIZE], e), TopByte(e, m < 0)]
  }

  /** Encoder.Decimal. */
  method EncodeDecimal(b: array<byte>, m: int, exp: int) returns (out: seq<byte>)
    requires b.Length >= DEC_SIZE && Abs(m) < Pow256(DEC_SIZE)
    modifies b
    ensures out == DecimalBytes(m, exp)
  {
    PutCoefficient(b, Abs(m));
    out := PutExponent(b, exp + DEC128_BIAS, m < 0, LE(Abs(m), DEC_SIZE));
  }

  /** The 128-bit number that the bytes are, for coefficients of up to 113 bits. */
  lemma DecimalForm(m: int, exp: int)
    requires Abs(m) < COEFFICIENTS && -6176 <= exp <= 6111
    ensures DecimalBytes(m, exp) == LE(DecimalNumber(m, exp), DEC_SIZE)
  {
    DecimalFormOf(m, exp, LE(Abs(m), DEC_SIZE), DecimalNumber(m, exp));
  }

  lemma {:induction false} DecimalFormOf(m: int, exp: int, c: seq<byte>, v: nat)
    requires Abs(m) < COEFFICIENTS && -6176 <= exp <= 6111 && c == LE(Abs(m), DEC_SIZE) && v == DecimalNumber(m, exp)
    ensures c[..LOW_SIZE] + [WithExponent(c[LOW_SIZE], exp + DEC128_BIAS), TopByte(exp + DEC128_BIAS, m < 0)]
         == LE(v, DEC_SIZE)
  {
    LowPrefix(c);
    TopBytes(Abs(m), exp + DEC128_BIAS, m < 0, c[LOW_SIZE], c[..LOW_SIZE], v);
  }

  lemma LowPrefix(c: seq<byte>)
    requires |c| == DEC_SIZE
    ensures c[..LOW_SIZE] + [c[LOW_SIZE]] <= c
  {}

  method PutExponent(b: array<byte>, e: int, neg: bool, ghost c: seq<byte>) returns (out: seq<byte>)
    requires b.Length >= DEC_SIZE && |c| == DEC_SIZE && b[..DEC_SIZE] == c
    modifies b
    ensures out == c[..LOW_SIZE] + [WithExponent(c[LOW_SIZE], e), TopByte(e, neg)]
  {
    assert b[14] == c[14];
    b[14] := WithExponent(b[14], e);
    b[15] := TopByte(e, neg);
    out := b[..DEC_SIZE];
    assert out == b[..14] + [b[14], b[15]];
  }

  lemma {:induction false} TopBytes(n: nat, e: nat, neg: bool, low: byte, prefix: seq<byte>, v: nat)
    requires n < COEFFICIENTS && e < EXPONENTS && v == n + COEFFICIENTS * e + (if neg then SIGN else 0)
    requires prefix + [low] <= LE(n, DEC_SIZE) && |prefix| == LOW_SIZE
    ensures prefix + [WithExponent(low, e), TopByte(e, neg)] == LE(v, DEC_SIZE)
  {
    LowByte(n, low, prefix);
    ExponentLow(e, low);
    ExponentHigh(e, neg);
    PackNumber(n, e, neg, v, WithExponent(low, e), TopByte(e, neg));
  }

  lemma ExponentLow(e: nat, low: byte)
    requires low < 2
    ensures WithExponent(low, e) == low + 2 * (e % 128)
  {
    ShiftedLow(e);
    OrLowBit(low, 2 * (e % 128));
  }

  lemma ShiftedLow(e: nat)
    ensures ((e % 256) * 2) % 256 == 2 * (e % 128)
  {
    var x := e % 256;
    HalfByte(e, e / 256, x);
    if x < 128 {
      DivModUnique(x, 128, 0, x);
      DivModUnique(2 * x, 256, 0, 2 * x);
    } else {
      DivModUnique(x, 128, 1, x - 128);
      DivModUnique(2 * x, 256, 1, 2 * x - 256);
    }
  }

  /** The low seven bits are those of the low byte. */
  lemma HalfByte(e: nat, q: nat, x: nat)
    requires e == 256 * q + x
    ensures e % 128 == x % 128
  {
    DivModUnique(e, 128, 2 * q + x / 128, x % 128);
  }

  lemma ExponentHigh(e: nat, neg: bool)
    requires e < EXPONENTS
    ensures TopByte(e, neg) == e / 128 + (if neg then 128 else 0)
  {
    HighBits(e, e / 128);
    assert Two(7) == 128;
    OrDisjoint(e / 128, 128, 7);
  }

  lemma HighBits(e: nat, q: nat)
    requires e < EXPONENTS && q == e / 128
    ensures ((e % 65536) / 128) % 256 == q < 128
  {
    DivModUnique(e, 65536, 0, e);
    DivModUnique(q, 256, 0, q);
  }

  /** b[14] |= byte(exp) << 1 */
  function WithExponent(low: byte, e: int): (b: byte)
  {
    OrBytes(low, ((e % 256) * 2) % 256)
  }

  /** b[15] = byte(uint16(exp) >> 7), and the sign bit */
  function TopByte(e: int, neg: bool): (b: byte)
  {
    var top: byte := ((e % 65536) / 128) % 256;
    if neg then OrBytes(top, 0x80) else top
  }

  lemma {:induction false} LowByte(n: nat, low: byte, prefix: seq<byte>)
    requires n < COEFFICIENTS && prefix + [low] <= LE(n, DEC_SIZE) && |prefix| == LOW_SIZE
    ensures prefix == LE(n, LOW_SIZE) && low == n / LOW < 2
  {
    LowBytes();
    assert n / LOW < 2;
    LESplitAt(n, LOW_SIZE, 2, n / LOW);
    TwoBytes(n / LOW, n / LOW, 0);
    var s := LE(n, DEC_SIZE);
    assert s == LE(n, LOW_SIZE) + [n / LOW, 0];
    assert (prefix + [low])[LOW_SIZE] == s[LOW_SIZE];
    assert prefix == s[..LOW_SIZE];
  }

  function OrBytes(a: byte, b: byte): (c: byte)
  {
    OrByte(a, b, 8);
    Or(a, b)
  }

  // ---------------------------------------------------------------- reading bytes into words

  /** big.Int.SetBits: the value of a word sequence. */
  function WordsValue(ws: seq<nat>): (n: nat)
  {
    if |ws| == 0 then 0 else ws[0] + WORD * WordsValue(ws[1..])
  }

  lemma {:induction false} WordsValueUpdate(ws: seq<nat>, k: nat, v: nat)
    requires k < |ws| && ws[k] <= v
    ensures WordsValue(ws[k := v]) == WordsValue(ws) + (v - ws[k]) * Pow256(8 * k)
    decreases k
  {
    var us := ws[k := v];
    if k == 0 {
      assert us[1..] == ws[1..];
      assert Pow256(0) == 1;
    } else {
      assert us[1..] == ws[1..][k - 1 := v] && us[0] == ws[0];
      WordsValueUpdate(ws[1..], k - 1, v);
      WordIsEightBytes();
      Pow256Add(8, 8 * (k - 1));
      Spread(WordsValue(ws[1..]), v - ws[k], Pow256(8 * (k - 1)));
    }
  }

  lemma Spread(x: int, d: int, p: int)
    ensures WORD * (x + d * p) == WORD * x + d * (WORD * p)
  {
    assert WORD * (d * p) == d * (WORD * p);
  }

  lemma {:induction false} WordsValueZero(ws: seq<nat>)
    requires forall i :: 0 <= i < |ws| ==> ws[i] == 0
    ensures WordsValue(ws) == 0
  {
    if |ws| != 0 {
      WordsValueZero(ws[1..]);
    }
  }

  lemma {:induction false} BytesAreBits(k: nat)
    ensures Pow256(k) == Two(8 * k)
  {
    if k != 0 {
      BytesAreBits(k - 1);
      assert Two(8 * k) == 256 * Two(8 * k - 8) by {
        assert Two(8 * k) == 2 * Two(8 * k - 1) == 4 * Two(8 * k - 2) == 8 * Two(8 * k - 3) == 16 * Two(8 * k - 4);
        assert Two(8 * k - 4) == 2 * Two(8 * k - 5) == 4 * Two(8 * k - 6) == 8 * Two(8 * k - 7) == 16 * Two(8 * k - 8);
      }
    }
  }

  /** Or-ing the next byte into its word adds it at its place. */
  lemma {:induction false} OrNextByte(w: nat, x: byte, r: nat)
    requires r < 8 && w < Pow256(r)
    ensures Or(w, x * Pow256(r)) == w + x * Pow256(r) < Pow256(r + 1)
  {
    BytesAreBits(r);
    OrAtPlace(w, x, Pow256(r), x * Pow256(r), 8 * r);
  }

  lemma {:induction false} OrAtPlace(w: nat, x: byte, p: nat, y: nat, k: nat)
    requires p == Two(k) && w < p && y == x * p
    ensures Or(w, y) == w + y < 256 * p
  {
    DivModUnique(y, p, x, 0);
    OrDisjoint(w, y, k);
    AtMost255(x, p, y);
  }

  lemma AtMost255(x: byte, p: nat, y: nat)
    requires y == x * p
    ensures y <= 255 * p
  {
    assert (255 - x) * p >= 0;
  }

  lemma AppendByte(s: seq<byte>, i: nat)
    requires i < |s|
    ensures LEValue(s[..i + 1]) == LEValue(s[..i]) + s[i] * Pow256(i)
  {
    assert s[..i + 1] == s[..i] + [s[i]];
    LEValueConcat(s[..i], [s[i]]);
    assert LEValue([s[i]]) == s[i];
  }

  lemma CollectStep(ws: seq<nat>, bs: seq<byte>, i: nat, k: nat, r: nat)
    requires i < |bs| && k < |ws| && i == 8 * k + r && r < 8
    requires WordsValue(ws) == LEValue(bs[..i]) && ws[k] < Pow256(r)
    ensures var v := Or(ws[k], bs[i] * Pow256(r));
            WordsValue(ws[k := v]) == LEValue(bs[..i + 1]) && v < Pow256(r + 1)
  {
    var x, p := bs[i], Pow256(r);
    OrNextByte(ws[k], x, r);
    AddAtPlace(ws, k, x, p, i, r);
    AppendByte(bs, i);
  }

  lemma AddAtPlace(ws: seq<nat>, k: nat, x: nat, p: nat, i: nat, r: nat)
    requires k < |ws| && i == 8 * k + r && p == Pow256(r)
    ensures WordsValue(ws[k := ws[k] + x * p]) == WordsValue(ws) + x * Pow256(i)
  {
    WordsValueUpdate(ws, k, ws[k] + x * p);
    PlaceOfByte(i, k, r);
    MulAssoc(x, p, Pow256(8 * k));
  }

  lemma {:induction false} PlaceOfByte(i: nat, k: nat, r: nat)
    requires i == 8 * k + r
    ensures Pow256(i) == Pow256(r) * Pow256(8 * k)
  {
    Pow256Add(r, 8 * k);
  }

  /** The loop over the bytes: words[i / 8] |= byte << (i % 8 * 8). */
  method Collect(bs: seq<byte>) returns (n: nat)
    requires |bs| >= 1
    ensures n == LEValue(bs)
  {
    var numWords := (|bs| - 1) / 8 + 1;
    var ws: seq<nat> := seq(numWords, _ => 0);
    WordsValueZero(ws);
    assert bs[..0] == [];
    for i := 0 to |bs|
      invariant |ws| == numWords
      invariant WordsValue(ws) == LEValue(bs[..i])
      invariant forall k :: 0 <= k < numWords && 8 * k > i ==> ws[k] == 0
      invariant i / 8 < numWords ==> ws[i / 8] < Pow256(i % 8)
    {
      var k, r := i / 8, i % 8;
      var v := Or(ws[k], bs[i] * Pow256(r));
      CollectStep(ws, bs, i, k, r);
      ws := ws[k := v];
    }
    assert bs[..|bs|] == bs;
    n := WordsValue(ws);
  }

  /** Drops zero bytes at the top, but not the last byte. */
  method Trim(bs: seq<byte>) returns (t: seq<byte>)
    requires |bs| >= 1
    ensures |t| >= 1 && t <= bs && LEValue(t) == LEValue(bs)
    ensures bs[|bs| - 1] != 0 ==> t == bs
  {
    var msb := |bs| - 1;
    assert bs[..msb + 1] == bs;
    while msb > 0 && bs[msb] == 0
      invariant 0 <= msb < |bs|
      invariant LEValue(bs[..msb + 1]) == LEValue(bs)
      invariant bs[|bs| - 1] != 0 ==> msb == |bs| - 1
    {
      AppendByte(bs, msb);
      msb := msb - 1;
    }
    t := bs[..msb + 1];
  }

  // ---------------------------------------------------------------- Decoder.Decimal

  function High(b14: byte, b15: byte): (h: nat)
  {
    b15 as int * 256 + b14
  }

  /** A 16-byte number from its two high bytes. */
  lemma {:induction false} SplitNumber(bs: seq<byte>)
    requires |bs| == DEC_SIZE
    ensures var low := LEValue(bs[..LOW_SIZE]);
            low < LOW && LEValue(bs) == low + LOW * High(bs[14], bs[15])
  {
    var hi := bs[LOW_SIZE..];
    assert bs == bs[..LOW_SIZE] + hi;
    LEValueConcat(bs[..LOW_SIZE], hi);
    LEValueBound(bs[..LOW_SIZE]);
    LowBytes();
    assert hi[1..] == [bs[15]] && LEValue([bs[15]]) == bs[15];
  }

  lemma TopBits(low: nat, b14: byte, b15: byte, n: nat)
    requires low < LOW && n == low + LOW * High(b14, b15)
    ensures n / 0x1000_0000_0000_0000_0000_0000_0000_0000 == b15 / 16
    ensures n % COEFFICIENTS == low + LOW * (b14 % 2)
    ensures n / COEFFICIENTS == High(b14, b15) / 2
  {
  }

  /** What the code makes of the coefficient c (with its top bit) and the two high bytes. */
  function DecodeParts(c: nat, b14: byte, b15: byte): (d: Decoded)
  {
    if (b15 / 16) % 8 == 7 then Null
    else if (b15 / 32) % 4 == 3 then Unsupported
    else Value(if b15 >= 128 then -(c as int) else c, ((High(b14, b15) * 2) % 65536) / 4 - DEC128_BIAS)
  }

  lemma DecodePartsIsDecode(low: nat, b14: byte, b15: byte, n: nat)
    requires low < LOW && n == low + LOW * High(b14, b15)
    ensures DecodeParts(low + LOW * (b14 % 2), b14, b15) == DecodeNumber(n)
  {
    TopBits(low, b14, b15, n);
    TopCases(b15);
    ExponentBits(High(b14, b15));
  }

  /** The sign and the two marks in the high byte. */
  lemma TopCases(b15: byte)
    ensures var top := b15 / 16;
            && ((b15 / 32) % 4 == 3 <==> top % 8 == 6 || top % 8 == 7)
            && (b15 >= 128 <==> top >= 8)
  {
    assert b15 / 32 == (b15 / 16) / 2;
  }

  /** The fourteen bits of the exponent. */
  lemma ExponentBits(h: nat)
    ensures ((h * 2) % 65536) / 4 == (h / 2) % EXPONENTS
  {
    var q, r := h / 32768, h % 32768;
    DivModUnique(h * 2, 65536, q, 2 * r);
    assert h / 2 == 16384 * q + r / 2;
    DivModUnique(h / 2, EXPONENTS, q, r / 2);
  }

  /** Decoder.Decimal on any 16 bytes. */
  method DecodeDecimal(bs: array<byte>) returns (d: Decoded)
    requires bs.Length == DEC_SIZE
    modifies bs
    ensures d == DecodeNumber(LEValue(old(bs[..])))
  {
    ghost var s := bs[..];
    var b14, b15 := bs[14], bs[15];
    SplitNumber(s);
    DecodePartsIsDecode(LEValue(s[..LOW_SIZE]), b14, b15, LEValue(s));
    if (b15 / 16) % 8 == 7 {
      return Null;
    }
    if (b15 / 32) % 4 == 3 {
      return Unsupported;
    }
    var neg := b15 >= 128;
    var exp := ((High(b14, b15) * 2) % 65536) / 4 - DEC128_BIAS;
    bs[14] := b14 % 2;
    MaskedValue(s, bs[..15], b14 % 2);
    var t := Trim(bs[..15]);
    var m: int := Collect(t);
    if neg {
      m := -m;
    }
    d := Value(m, exp);
  }

  lemma {:induction false} MaskedValue(s: seq<byte>, masked: seq<byte>, bit: byte)
    requires |s| == DEC_SIZE && |masked| == 15 && masked == s[..LOW_SIZE] + [bit]
    ensures LEValue(masked) == LEValue(s[..LOW_SIZE]) + LOW * bit
  {
    LEValueConcat(s[..LOW_SIZE], [bit]);
    LowBytes();
    assert LEValue([bit]) == bit;
  }

  /** Decimal round trip: exact for every coefficient of up to 113 bits, and for no other. */
  method DecimalRoundTrip(m: int, exp: int) returns (d: Decoded)
    requires Abs(m) < Pow256(DEC_SIZE) && -6176 <= exp <= 6111
    ensures d == Value(m, exp) <==> Abs(m) < COEFFICIENTS
  {
    var scratch := new byte[4096];
    var out := EncodeDecimal(scratch, m, exp);
    var bs := CopyOf(out);
    d := DecodeDecimal(bs);
    DecodedIff(m, exp);
  }

  method CopyOf(s: seq<byte>) returns (a: array<byte>)
    ensures fresh(a) && a[..] == s
  {
    a := new byte[|s|](i requires 0 <= i < |s| => s[i]);
  }

  /** The bytes of a decimal are read back as that decimal exactly for coefficients of up to 113 bits. */
  lemma DecodedIff(m: int, exp: int)
    requires -6176 <= exp <= 6111
    ensures DecodeNumber(LEValue(DecimalBytes(m, exp))) == Value(m, exp) <==> Abs(m) < COEFFICIENTS
  {
    if Abs(m) < COEFFICIENTS {
      DecodedFits(m, exp, DecimalNumber(m, exp));
    } else {
      DecodedBelow(LEValue(DecimalBytes(m, exp)));
    }
  }

  lemma DecodedFits(m: int, exp: int, v: nat)
    requires Abs(m) < COEFFICIENTS && -6176 <= exp <= 6111 && v == DecimalNumber(m, exp)
    ensures DecodeNumber(LEValue(DecimalBytes(m, exp))) == Value(m, exp)
  {
    DecimalForm(m, exp);
    NumberRoundTrip(m, exp);
    UnsignedRoundTrip(v, DEC_SIZE);
  }

  /** No coefficient of more than 113 bits is ever read. */
  lemma DecodedBelow(v: nat)
    ensures DecodeNumber(v).Value? ==> Abs(DecodeNumber(v).m) < COEFFICIENTS
  {
  }

  // ---------------------------------------------------------------- fixed decimals

  predicate FixedSize(size: nat) { size == 8 || size == 12 || size == 16 }

  /** m fits a two's complement number of `size` bytes. */
  predicate FitsFixed(m: int, size: nat) { -2 * m <= Pow256(size) && 2 * m < Pow256(size) }

  /** In two's complement over its own words, a number in range keeps all its words. */
  lemma ComplementWords(n: nat, size: nat, k: nat)
    requires FixedSize(size) && 0 < n && 2 * n <= Pow256(size) && k == |Words(n)|
    ensures 1 <= k <= 2 && n < Pow256(8 * k) && |Words(Pow256(8 * k) - n)| == k
  {
    WordsBounds(n);
    FixedPowers();
    if k >= 3 {
      Pow256Monotone(16, 8 * (k - 1));
      assert false;
    }
    var r := Pow256(8 * k) - n;
    WordsBounds(r);
    if k == 1 {
      OneWord(r);
    } else {
      TwoWords(r);
    }
  }

  lemma FixedPowers()
    ensures Pow256(8) == WORD && Pow256(16) == WORD * WORD
    ensures Pow256(12) == 0x1_0000_0000_0000_0000_0000_0000
  {
    WordIsEightBytes();
    Pow256Add(8, 8);
    Pow256Add(8, 4);
    assert Pow256(4) == 0x1_0000_0000;
  }

  lemma {:induction false} OneWord(r: nat)
    requires 0 < r < WORD
    ensures |Words(r)| == 1
  {
    assert r / WORD == 0;
  }

  lemma {:induction false} TwoWords(r: nat)
    requires WORD <= r < WORD * WORD
    ensures |Words(r)| == 2
  {
    assert 0 < r / WORD < WORD;
    OneWord(r / WORD);
  }

  lemma {:induction false} Pow256Monotone(a: nat, b: nat)
    requires a <= b
    ensures Pow256(a) <= Pow256(b)
    decreases b - a
  {
    if a < b {
      Pow256Monotone(a, b - 1);
    }
  }

  /** A word sequence with every word inverted (^w). */
  function Inverted(ws: seq<nat>): (us: seq<nat>)
    requires forall i :: 0 <= i < |ws| ==> ws[i] < WORD
  {
    seq(|ws|, i requires 0 <= i < |ws| => WORD - 1 - ws[i])
  }

  /** Inverting all words and adding one complements the number to the next power of the word size. */
  lemma {:induction false} InvertedValue(n: nat)
    ensures WordsValue(Inverted(Words(n))) + 1 == Pow256(8 * |Words(n)|) - n
  {
    if n == 0 {
      assert Pow256(0) == 1;
    } else {
      var rest := Words(n / WORD);
      InvertedValue(n / WORD);
      InvertedStep(n, rest, Inverted(Words(n)), Pow256(8 * |rest|));
      WordIsEightBytes();
      Pow256Add(8, 8 * |rest|);
    }
  }

  lemma {:induction false} InvertedStep(n: nat, rest: seq<nat>, us: seq<nat>, p: nat)
    requires n > 0 && rest == Words(n / WORD) && us == Inverted(Words(n))
    requires WordsValue(Inverted(rest)) + 1 == p - n / WORD
    ensures WordsValue(us) + 1 == WORD * p - n
  {
    InvertedTail(n % WORD, rest, us);
    Complement(WordsValue(Inverted(rest)), p, n / WORD, n % WORD, n);
  }

  lemma InvertedTail(w: nat, rest: seq<nat>, us: seq<nat>)
    requires w < WORD && (forall i :: 0 <= i < |rest| ==> rest[i] < WORD) && us == Inverted([w] + rest)
    ensures us[1..] == Inverted(rest) && us[0] == WORD - 1 - w
  {
  }

  lemma Complement(v: nat, p: nat, q: nat, r: nat, n: nat)
    requires v + 1 == p - q && n == WORD * q + r
    ensures (WORD - 1 - r) + WORD * v + 1 == WORD * p - n
  {
  }

  method InvertBits(ws: seq<nat>) returns (us: seq<nat>)
    requires forall i :: 0 <= i < |ws| ==> ws[i] < WORD
    ensures us == Inverted(ws)
  {
    us := ws;
    for i := 0 to |ws|
      invariant |us| == |ws|
      invariant forall k :: 0 <= k < |ws| ==> us[k] == if k < i then WORD - 1 - ws[k] else ws[k]
    {
      us := us[i := WORD - 1 - us[i]];
    }
  }

  /** Encoder.Fixed: a number in range is written in two's complement. */
  method EncodeFixed(b: array<byte>, m: int, size: nat) returns (out: seq<byte>)
    requires FixedSize(size) && b.Length >= size
    modifies b
    ensures |out| == size
    ensures FitsFixed(m, size) ==> out == LE(m, size)
  {
    var n: nat, fill: byte := Abs(m), 0;
    if m < 0 {
      var bits := InvertBits(Words(n));
      InvertedValue(n);
      n := WordsValue(bits) + 1;
      fill := 0xff;
    }
    WordsBounds(n);
    var j := PutWords(b, Words(n), size, n);
    Fill(b, j, size, fill);
    out := b[..size];
    if FitsFixed(m, size) {
      FixedForm(m, n, j, size);
    }
  }

  lemma {:induction false} FixedForm(m: int, n: nat, j: nat, size: nat)
    requires FixedSize(size) && FitsFixed(m, size)
    requires n == if m < 0 then Pow256(8 * |Words(Abs(m))|) - Abs(m) else m
    requires j == (if 8 * |Words(n)| < size then 8 * |Words(n)| else size)
    ensures LE(n, j) + seq(size - j, _ => if m < 0 then 255 else 0 as byte) == LE(m, size)
  {
    WordsBounds(n);
    if m >= 0 {
      ZeroFilled(n, j, size);
    } else {
      NegativeForm(m, n, j, size, |Words(Abs(m))|);
    }
  }

  lemma {:induction false} NegativeForm(m: int, n: nat, j: nat, size: nat, k: nat)
    requires FixedSize(size) && FitsFixed(m, size) && m < 0 && k == |Words(Abs(m))|
    requires n == Pow256(8 * k) - Abs(m) && j == (if 8 * |Words(n)| < size then 8 * |Words(n)| else size)
    ensures LE(n, j) + seq(size - j, _ => 255 as byte) == LE(m, size)
  {
    ComplementWords(Abs(m), size, k);
    NegativeParts(m, n, j, size, k, 8 * k, 8 * k - j);
    OnesFilled(m, n, Pow256(8 * k - j), j, size);
  }

  lemma {:induction false} NegativeParts(m: int, n: nat, j: nat, size: nat, k: nat, width: nat, over: nat)
    requires m < 0 && n == Pow256(width) - Abs(m) && width == 8 * k && over + j == width
    requires j < size ==> over == 0
    ensures m == n - Pow256(over) * Pow256(j) && (j < size ==> Pow256(over) == 1 && n < Pow256(j))
  {
    Pow256Add(over, j);
  }

  /** Bytes with every bit inverted. */
  function InvertedBytes(bs: seq<byte>): (cs: seq<byte>)
  {
    seq(|bs|, i requires 0 <= i < |bs| => 255 - bs[i])
  }

  lemma {:induction false} InvertedBytesValue(bs: seq<byte>)
    ensures LEValue(InvertedBytes(bs)) == Pow256(|bs|) - 1 - LEValue(bs)
  {
    if |bs| != 0 {
      InvertedBytesValue(bs[1..]);
      assert InvertedBytes(bs)[1..] == InvertedBytes(bs[1..]);
    }
  }

  /** The top bit of the top byte decides the sign. */
  lemma {:induction false} SignBit(bs: seq<byte>)
    requires |bs| >= 1
    ensures bs[|bs| - 1] >= 128 <==> 2 * LEValue(bs) >= Pow256(|bs|)
  {
    var k := |bs| - 1;
    AppendByte(bs, k);
    assert bs[..k + 1] == bs;
    LEValueBound(bs[..k]);
    TopDecides(LEValue(bs[..k]), bs[k], Pow256(k));
  }

  lemma TopDecides(low: nat, top: byte, p: nat)
    requires low < p
    ensures top >= 128 <==> 2 * (low + top * p) >= 256 * p
  {
    if top >= 128 {
      assert top * p >= 128 * p;
    } else {
      assert top * p <= 127 * p;
    }
  }

  /** Decoder.Fixed on any bytes: their two's complement value. */
  method DecodeFixed(bs: seq<byte>) returns (m: int)
    requires |bs| >= 1
    ensures m == Signed(LEValue(bs), |bs|)
  {
    SignBit(bs);
    var neg := bs[|bs| - 1] >= 128;
    var t := Trim(bs);
    if neg {
      InvertedBytesValue(t);
      m := Collect(InvertedBytes(t));
      m := -(m + 1);
    } else {
      m := Collect(t);
    }
  }

  /** Fixed round trip: for every number in range, decoding the encoded bytes returns it. */
  method FixedRoundTrip(m: int, size: nat) returns (m': int)
    requires FixedSize(size) && FitsFixed(m, size)
    ensures m' == m
  {
    var scratch := new byte[4096];
    var out := EncodeFixed(scratch, m, size);
    m' := DecodeFixed(out);
    SignedRoundTrip(m, size);
  }

  /** The largest precision of each size: its numbers always fit. */
  lemma {:induction false} PrecisionFits(m: int, size: nat, prec: nat)
    requires FixedSize(size) && prec <= (if size == 8 then 18 else if size == 12 then 28 else 38)
    requires Abs(m) < Ten(prec)
    ensures FitsFixed(m, size)
  {
    FixedPowers();
    TenMonotone(prec, if size == 8 then 18 else if size == 12 then 28 else 38);
    TenValues();
  }

  lemma TenValues()
    ensures Ten(18) == 1_000_000_000_000_000_000
    ensures Ten(28) == 10_000_000_000_000_000_000_000_000_000
    ensures Ten(34) == 10_000_000_000_000_000_000_000_000_000_000_000
    ensures Ten(38) == 100_000_000_000_000_000_000_000_000_000_000_000_000
  {
    assert Ten(10) == 10_000_000_000;
    TenAdd(10, 8);
    TenAdd(10, 18);
    TenAdd(10, 28);
    TenAdd(6, 28);
  }
}
