/**
  The parts of Go's `unicode/utf8` and `unicode/utf16` packages the driver relies on, and the
  independent definitions of the three encoding forms (section 3 of RFC 3629 for UTF-8, section 2
  of RFC 2781 for surrogates, section 2 of Unicode Technical Report #26 for CESU-8).
 */
module Utf8 {
  import opened Bytes

  /** A Unicode code point. */
  type Rune = r: int | 0 <= r <= 0x10FFFF

  const RUNE_SELF: int := 0x80
  const RUNE_ERROR: Rune := 0xFFFD
  const UTF_MAX: int := 4

  predicate IsSurrogateUnit(u: int) { 0xD800 <= u <= 0xDFFF }

  /** A Unicode scalar value: a code point that is no surrogate. */
  type Scalar = r: Rune | !IsSurrogateUnit(r)

  type Text = seq<Scalar>

  /** A UTF-16 code unit. */
  type Unit = u: int | 0 <= u < 0x10000

  // ---------------------------------------------------------------- encoding forms

  /** The bit pattern of UTF-8 for one code point (1 to 4 bytes). */
  function RuneBytes(r: Rune): (s: seq<byte>)
    ensures 1 <= |s| <= 4
  {
    if r < 0x80 then [r]
    else if r < 0x800 then [0xC0 + r / 64, 0x80 + r % 64]
    else if r < 0x10000 then [0xE0 + r / 4096, 0x80 + (r / 64) % 64, 0x80 + r % 64]
    else [0xF0 + r / 262144, 0x80 + (r / 4096) % 64, 0x80 + (r / 64) % 64, 0x80 + r % 64]
  }

  function HighSurrogate(r: Rune): (u: Unit)
    requires r >= 0x10000
    ensures 0xD800 <= u <= 0xDBFF
  {
    0xD800 + (r - 0x10000) / 1024
  }

  function LowSurrogate(r: Rune): (u: Unit)
    requires r >= 0x10000
    ensures 0xDC00 <= u <= 0xDFFF
  {
    0xDC00 + (r - 0x10000) % 1024
  }

  function RuneUnits(r: Scalar): (us: seq<Unit>)
    ensures 1 <= |us| <= 2
  {
    if r < 0x10000 then [r] else [HighSurrogate(r), LowSurrogate(r)]
  }

  /** UTF-8 form of a text. */
  function Utf8Of(t: Text): (s: seq<byte>)
  {
    if |t| == 0 then [] else RuneBytes(t[0]) + Utf8Of(t[1..])
  }

  /** UTF-16 form of a text. */
  function Utf16Of(t: Text): (us: seq<Unit>)
    ensures |us| >= |t|
  {
    if |t| == 0 then [] else RuneUnits(t[0]) + Utf16Of(t[1..])
  }

  /** CESU-8 encodes each UTF-16 code unit on its own, surrogates included. */
  function UnitsBytes(us: seq<Unit>): (s: seq<byte>)
  {
    if |us| == 0 then [] else RuneBytes(us[0]) + UnitsBytes(us[1..])
  }

  /** CESU-8 form of a text. */
  function Cesu8Of(t: Text): (s: seq<byte>)
  {
    UnitsBytes(Utf16Of(t))
  }

  // ---------------------------------------------------------------- unicode/utf8

  /** Number of bytes announced by a first byte, 0 for a byte that starts no sequence. */
  function SeqLen(b: byte): (n: nat)
  {
    if b < 0x80 then 1
    else if 0xC2 <= b <= 0xDF then 2
    else if 0xE0 <= b <= 0xEF then 3
    else if 0xF0 <= b <= 0xF4 then 4
    else 0
  }

  predicate IsCont(b: byte) { 0x80 <= b <= 0xBF }

  /** Accept range of the second byte (Go's `acceptRanges`). */
  predicate AcceptSecond(b0: byte, b1: byte)
  {
    && IsCont(b1)
    && (b0 == 0xE0 ==> 0xA0 <= b1)
    && (b0 == 0xED ==> b1 <= 0x9F)
    && (b0 == 0xF0 ==> 0x90 <= b1)
    && (b0 == 0xF4 ==> b1 <= 0x8F)
  }

  /** `p` starts with a complete, valid UTF-8 sequence. */
  predicate ValidHead(p: seq<byte>)
  {
    && |p| > 0
    && var n := SeqLen(p[0]);
    && 1 <= n <= |p|
    && (n >= 2 ==> AcceptSecond(p[0], p[1]))
    && (n >= 3 ==> IsCont(p[2]))
    && (n >= 4 ==> IsCont(p[3]))
  }

  /** The low `d` values of a byte: its payload bits under a mask. */
  function Low(b: byte, d: nat): (v: int)
    requires d > 0
    ensures 0 <= v < d
  {
    b % d
  }

  function HeadRune(p: seq<byte>): (r: Rune)
    requires ValidHead(p)
  {
    var n := SeqLen(p[0]);
    if n == 1 then p[0]
    else if n == 2 then Low(p[0], 32) * 64 + Low(p[1], 64)
    else if n == 3 then Low(p[0], 16) * 4096 + Low(p[1], 64) * 64 + Low(p[2], 64)
    else Low(p[0], 8) * 262144 + Low(p[1], 64) * 4096 + Low(p[2], 64) * 64 + Low(p[3], 64)
  }

  /** utf8.DecodeRune: width 0 on empty input, (RUNE_ERROR, 1) on an invalid sequence. */
  function DecodeRune(p: seq<byte>): (rn: (Rune, nat))
    ensures rn.1 <= |p| && (|p| > 0 ==> rn.1 >= 1)
  {
    if |p| == 0 then (RUNE_ERROR, 0)
    else if ValidHead(p) then (HeadRune(p), SeqLen(p[0]))
    else (RUNE_ERROR, 1)
  }

  /** utf8.FullRune: an invalid sequence counts as full (it decodes to a width-1 error). */
  predicate FullRune(p: seq<byte>)
  {
    if |p| == 0 then false
    else
      var n := SeqLen(p[0]);
      if |p| >= n then true
      else if |p| > 1 && !AcceptSecond(p[0], p[1]) then true
      else |p| > 2 && !IsCont(p[2])
  }

  /** utf8.RuneLen for a valid code point; -1 for a surrogate. */
  function RuneLen(r: Rune): (n: int)
  {
    if r < 0x80 then 1
    else if r < 0x800 then 2
    else if IsSurrogateUnit(r) then -1
    else if r < 0x10000 then 3
    else 4
  }

  /** The bytes utf8.EncodeRune writes; a surrogate is replaced by RUNE_ERROR. */
  function EncodeRune(r: Rune): (s: seq<byte>)
    ensures 1 <= |s| <= 4
  {
    if IsSurrogateUnit(r) then RuneBytes(RUNE_ERROR) else RuneBytes(r)
  }

  /** A surrogate is written as U+FFFD. */
  lemma Replaced(r: Rune)
    requires IsSurrogateUnit(r)
    ensures EncodeRune(r) == [0xEF, 0xBF, 0xBD]
  {
  }

  // ---------------------------------------------------------------- unicode/utf16

  /** utf16.DecodeRune. */
  function DecodeSurrogatePair(high: Unit, low: Unit): (r: Rune)
  {
    if 0xD800 <= high < 0xDC00 && 0xDC00 <= low < 0xE000
    then (high - 0xD800) * 1024 + (low - 0xDC00) + 0x10000
    else RUNE_ERROR
  }

  lemma SurrogatePairRoundTrip(r: Rune)
    requires r >= 0x10000
    ensures DecodeSurrogatePair(HighSurrogate(r), LowSurrogate(r)) == r
  {
  }

  /**
    The units of a supplementary rune (section 2.1 of RFC 2781): the ten high bits of r - 0x10000 are
    in the first, the ten low bits in the second.
   */
  lemma UnitsOfRune(r: Scalar, h: Unit, l: Unit)
    requires r >= 0x10000
    ensures RuneUnits(r) == [h, l] <==>
              0xD800 <= h <= 0xDBFF && 0xDC00 <= l <= 0xDFFF && r == 0x10000 + 0x400 * (h - 0xD800) + (l - 0xDC00)
  {
    var v := r - 0x10000;
    if 0xDC00 <= l <= 0xDFFF && v == 0x400 * (h - 0xD800) + (l - 0xDC00) {
      DivModUnique(v, 0x400, h - 0xD800, l - 0xDC00);
    }
  }

  /** utf16.DecodeRune of two units is the rune that has these units, and the replacement rune if there is none. */
  lemma PairOfUnits(h: Unit, l: Unit, r: Scalar)
    requires r >= 0x10000
    ensures DecodeSurrogatePair(h, l) == r <==> RuneUnits(r) == [h, l]
  {
    UnitsOfRune(r, h, l);
  }

  /** Supplementary runes are ordered as their units, the first unit deciding first. */
  lemma UnitsOrdered(r: Scalar, q: Scalar)
    requires r >= 0x10000 && q >= 0x10000
    ensures var a, b := RuneUnits(r), RuneUnits(q);
            |a| == |b| == 2 && (r < q <==> a[0] < b[0] || (a[0] == b[0] && a[1] < b[1]))
  {
    UnitsOfRune(r, RuneUnits(r)[0], RuneUnits(r)[1]);
    UnitsOfRune(q, RuneUnits(q)[0], RuneUnits(q)[1]);
  }

  /** The bytes of UTF-8, by the groups of six bits of the code point (section 3 of RFC 3629). */
  lemma Utf8Digits(a: nat, b: nat, c: nat, d: nat)
    requires a < 32 && b < 64 && c < 64 && d < 64
    ensures 2 <= a ==> RuneBytes(0x40 * a + b) == [0xC0 + a, 0x80 + b]
    ensures a < 16 && 0x40 * a + b >= 0x20 ==> RuneBytes(0x1000 * a + 0x40 * b + c) == [0xE0 + a, 0x80 + b, 0x80 + c]
    ensures 0x10 <= 0x40 * a + b < 0x110 ==>
              RuneBytes(0x40000 * a + 0x1000 * b + 0x40 * c + d) == [0xF0 + a, 0x80 + b, 0x80 + c, 0x80 + d]
  {
    SixBits(0, 0, a, b, 0x40 * a + b);
    SixBits(0, a, b, c, 0x1000 * a + 0x40 * b + c);
    SixBits(a, b, c, d, 0x40000 * a + 0x1000 * b + 0x40 * c + d);
  }

  // ---------------------------------------------------------------- laws

  /** Splitting a number into groups of six bits and joining them again. */
  lemma SixBits(a: int, b: int, c: int, d: int, r: int)
    requires 0 <= b < 64 && 0 <= c < 64 && 0 <= d < 64
    requires r == a * 262144 + b * 4096 + c * 64 + d
    ensures r / 64 == a * 4096 + b * 64 + c && r % 64 == d
    ensures r / 4096 == a * 64 + b && (r / 64) % 64 == c
    ensures r / 262144 == a && (r / 4096) % 64 == b
  {
  }

  lemma Join(r: int)
    ensures r == (r / 262144) * 262144 + ((r / 4096) % 64) * 4096 + ((r / 64) % 64) * 64 + r % 64
  {
    var a := r / 64;
    var b := a / 64;
    var c := b / 64;
    assert b == r / 4096;
    assert c == r / 262144;
    assert r == 64 * a + r % 64 && a == 64 * b + a % 64 && b == 64 * c + b % 64;
  }

  /** A well-formed sequence decodes to the scalar it encodes, whatever follows it. */
  lemma DecodeEncoded(r: Scalar, rest: seq<byte>)
    ensures ValidHead(RuneBytes(r) + rest)
    ensures DecodeRune(RuneBytes(r) + rest) == (r, |RuneBytes(r)|)
  {
    HeadOfEncoded(r, RuneBytes(r) + rest);
  }

  lemma HeadOfEncoded(r: Scalar, p: seq<byte>)
    requires RuneBytes(r) <= p
    ensures ValidHead(p) && HeadRune(p) == r && SeqLen(p[0]) == |RuneBytes(r)|
  {
    if r < 0x80 {
    } else if r < 0x800 {
      HeadOfEncoded2(r, p);
    } else if r < 0x10000 {
      HeadOfEncoded3(r, p);
    } else {
      HeadOfEncoded4(r, p);
    }
  }

  /** The front of a sequence is neither full nor valid. */
  lemma Incomplete(r: Scalar, k: nat)
    requires 0 < k < |RuneBytes(r)|
    ensures !FullRune(RuneBytes(r)[..k]) && !ValidHead(RuneBytes(r)[..k])
  {
    HeadOfEncoded(r, RuneBytes(r));
  }

  /** Masking the payload bits of a byte made of a tag and a payload. */
  lemma LowOf(b: byte, tag: int, d: nat, v: int)
    requires d in {8, 16, 32, 64} && tag % d == 0 && 0 <= v < d && b == tag + v
    ensures Low(b, d) == v
  {
    var q := tag / d;
    assert tag == q * d;
    DivModUnique(b, d, q, v);
  }

  lemma HeadOfEncoded2(r: Scalar, p: seq<byte>)
    requires 0x80 <= r < 0x800 && RuneBytes(r) <= p
    ensures ValidHead(p) && HeadRune(p) == r && SeqLen(p[0]) == 2
  {
    var a, b := r / 64, r % 64;
    assert p[0] == 0xC0 + a && p[1] == 0x80 + b;
    LowOf(p[0], 0xC0, 32, a);
    LowOf(p[1], 0x80, 64, b);
  }

  lemma HeadOfEncoded3(r: Scalar, p: seq<byte>)
    requires 0x800 <= r < 0x10000 && RuneBytes(r) <= p
    ensures ValidHead(p) && HeadRune(p) == r && SeqLen(p[0]) == 3
  {
    var a, b, c := r / 4096, (r / 64) % 64, r % 64;
    assert r == a * 4096 + b * 64 + c;
    assert !IsSurrogateUnit(r);
    assert a == 13 ==> b < 32;
    assert p[0] == 0xE0 + a && p[1] == 0x80 + b && p[2] == 0x80 + c;
    LowOf(p[0], 0xE0, 16, a);
    LowOf(p[1], 0x80, 64, b);
    LowOf(p[2], 0x80, 64, c);
  }

  lemma HeadOfEncoded4(r: Scalar, p: seq<byte>)
    requires 0x10000 <= r && RuneBytes(r) <= p
    ensures ValidHead(p) && HeadRune(p) == r && SeqLen(p[0]) == 4
  {
    var a, b, c, d := r / 262144, (r / 4096) % 64, (r / 64) % 64, r % 64;
    Join(r);
    assert p[0] == 0xF0 + a && p[1] == 0x80 + b && p[2] == 0x80 + c && p[3] == 0x80 + d;
    LowOf(p[0], 0xF0, 8, a);
    LowOf(p[1], 0x80, 64, b);
    LowOf(p[2], 0x80, 64, c);
    LowOf(p[3], 0x80, 64, d);
  }

  /** A valid head is the encoding of a scalar value. */
  lemma DecodedIsEncoding(p: seq<byte>)
    requires ValidHead(p)
    ensures !IsSurrogateUnit(HeadRune(p))
    ensures RuneBytes(HeadRune(p)) == p[..SeqLen(p[0])]
  {
    match SeqLen(p[0])
    case 1 =>
    case 2 => Decoded2(p);
    case 3 => Decoded3(p);
    case _ => Decoded4(p);
  }

  lemma Decoded2(p: seq<byte>)
    requires ValidHead(p) && SeqLen(p[0]) == 2
    ensures 0x80 <= HeadRune(p) < 0x800 && RuneBytes(HeadRune(p)) == p[..2]
  {
    var a, b := p[0] - 0xC0, p[1] - 0x80;
    LowOf(p[0], 0xC0, 32, a);
    LowOf(p[1], 0x80, 64, b);
    SixBits(0, 0, a, b, HeadRune(p));
  }

  lemma Decoded3(p: seq<byte>)
    requires ValidHead(p) && SeqLen(p[0]) == 3
    ensures 0x800 <= HeadRune(p) < 0x10000 && !IsSurrogateUnit(HeadRune(p))
    ensures RuneBytes(HeadRune(p)) == p[..3]
  {
    var a, b, c := p[0] - 0xE0, p[1] - 0x80, p[2] - 0x80;
    LowOf(p[0], 0xE0, 16, a);
    LowOf(p[1], 0x80, 64, b);
    LowOf(p[2], 0x80, 64, c);
    SixBits(0, a, b, c, HeadRune(p));
  }

  lemma Decoded4(p: seq<byte>)
    requires ValidHead(p) && SeqLen(p[0]) == 4
    ensures 0x10000 <= HeadRune(p) && RuneBytes(HeadRune(p)) == p[..4]
  {
    var a, b, c, d := p[0] - 0xF0, p[1] - 0x80, p[2] - 0x80, p[3] - 0x80;
    LowOf(p[0], 0xF0, 8, a);
    LowOf(p[1], 0x80, 64, b);
    LowOf(p[2], 0x80, 64, c);
    LowOf(p[3], 0x80, 64, d);
    SixBits(a, b, c, d, HeadRune(p));
  }

  lemma EncodedLength(r: Scalar)
    ensures |RuneBytes(r)| == RuneLen(r) == SeqLen(RuneBytes(r)[0])
  {
  }

  lemma {:induction false} Utf8Concat(t: Text, u: Text)
    ensures Utf8Of(t + u) == Utf8Of(t) + Utf8Of(u)
  {
    if |t| == 0 {
      assert t + u == u;
    } else {
      Utf8Concat(t[1..], u);
      assert (t + u)[1..] == t[1..] + u && (t + u)[0] == t[0];
      Assoc(RuneBytes(t[0]), Utf8Of(t[1..]), Utf8Of(u));
    }
  }

  lemma {:induction false} Utf16Concat(t: Text, u: Text)
    ensures Utf16Of(t + u) == Utf16Of(t) + Utf16Of(u)
  {
    if |t| == 0 {
      assert t + u == u;
    } else {
      Utf16Concat(t[1..], u);
      assert (t + u)[1..] == t[1..] + u && (t + u)[0] == t[0];
      Assoc(RuneUnits(t[0]), Utf16Of(t[1..]), Utf16Of(u));
    }
  }

  lemma {:induction false} UnitsConcat(s: seq<Unit>, t: seq<Unit>)
    ensures UnitsBytes(s + t) == UnitsBytes(s) + UnitsBytes(t)
  {
    if |s| == 0 {
      assert s + t == t;
    } else {
      UnitsConcat(s[1..], t);
      assert (s + t)[1..] == s[1..] + t && (s + t)[0] == s[0];
      Assoc(RuneBytes(s[0]), UnitsBytes(s[1..]), UnitsBytes(t));
    }
  }
}
