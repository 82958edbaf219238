/**
  driver/unicode/cesu8: sizes, rune functions and the two transformers between UTF-8 and CESU-8,
  with the default (nil) error handler.

  `Run` says what one call of Transform does on any input and any room; `RunFull` is the same with
  unlimited room. The transformer methods are proved against `Run`; the decoder is proved for
  distinct buffers and for one buffer used in place.
 */
module Cesu8 {
  import opened Bytes
  import opened Utf8

  const CESU_MAX: int := 6

  // ---------------------------------------------------------------- cesu8.go

  predicate IsSurrogate(p: seq<byte>)
  {
    |p| >= 3 && p[0] == 0xED && 0xA0 <= p[1] <= 0xBF
  }

  /** decodeCheckedSurrogate: the code unit of a surrogate's three bytes. */
  function SurrogateUnit(p: seq<byte>): (u: Unit)
    requires IsSurrogate(p)
    ensures IsSurrogateUnit(u)
  {
    Low(p[0], 16) * 4096 + Low(p[1], 64) * 64 + Low(p[2], 64)
  }

  function DecodeSurrogates(p: seq<byte>): (rn: (Rune, nat))
    requires IsSurrogate(p)
    ensures rn.1 <= |p|
  {
    if IsSurrogate(p[3..])
    then (DecodeSurrogatePair(SurrogateUnit(p), SurrogateUnit(p[3..])), 6)
    else (RUNE_ERROR, 3)
  }

  function DecodeCesuRune(p: seq<byte>): (rn: (Rune, nat))
    ensures rn.1 <= |p| && (|p| > 0 ==> rn.1 >= 1)
  {
    if IsSurrogate(p) then DecodeSurrogates(p) else DecodeRune(p)
  }

  predicate FullCesuRune(p: seq<byte>)
  {
    if IsSurrogate(p) then IsSurrogate(p[3..]) else FullRune(p)
  }

  function CesuRuneLen(r: Rune): (n: nat)
    ensures 1 <= n <= 6
  {
    if r < 0x80 then 1 else if r < 0x800 then 2 else if r < 0x10000 then 3 else 6
  }

  /** The bytes EncodeRune writes. */
  function EncodeCesuRune(r: Rune): (s: seq<byte>)
    ensures 1 <= |s| <= 6
    ensures |s| == CesuRuneLen(r)
  {
    if r < 0x10000 then EncodeRune(r)
    else
      var high, low := HighSurrogate(r), LowSurrogate(r);
      [0xE0 + high / 4096, 0x80 + (high / 64) % 64, 0x80 + high % 64,
       0xE0 + low / 4096, 0x80 + (low / 64) % 64, 0x80 + low % 64]
  }

  /**
    The six bytes of a supplementary rune, by the groups a (4 bits), b (6), c (4) and d (6) of
    r - 0x10000: the surrogates 0xD800 + 64 a + b and 0xDC00 + 64 c + d in three bytes each.
   */
  lemma SupplementaryBytes(r: Rune, a: int, b: int, c: int, d: int)
    requires 0 <= a < 16 && 0 <= b < 64 && 0 <= c < 16 && 0 <= d < 64
    requires r == 0x10000 + 0x10000 * a + 0x400 * b + 0x40 * c + d
    ensures EncodeCesuRune(r) == [0xED, 0xA0 + a, 0x80 + b, 0xED, 0xB0 + c, 0x80 + d]
  {
    DivModUnique(r - 0x10000, 0x400, 0x40 * a + b, 0x40 * c + d);
    var h, l := HighSurrogate(r), LowSurrogate(r);
    DivModUnique(h, 0x40, 0x360 + a, b);
    DivModUnique(l, 0x40, 0x370 + c, d);
    DivModUnique(h / 0x40, 0x40, 0xD, 0x20 + a);
    DivModUnique(l / 0x40, 0x40, 0xD, 0x30 + c);
    DivModUnique(h, 0x1000, 0xD, 0x40 * (0x20 + a) + b);
    DivModUnique(l, 0x1000, 0xD, 0x40 * (0x30 + c) + d);
  }

  /** These bytes are read as that rune, whatever follows. */
  lemma SupplementaryRead(p: seq<byte>, a: int, b: int, c: int, d: int)
    requires 0 <= a < 16 && 0 <= b < 64 && 0 <= c < 16 && 0 <= d < 64
    requires [0xED, 0xA0 + a, 0x80 + b, 0xED, 0xB0 + c, 0x80 + d] <= p
    ensures DecodeCesuRune(p) == (0x10000 + 0x10000 * a + 0x400 * b + 0x40 * c + d, 6)
  {
    assert p[0] == 0xED && p[1] == 0xA0 + a && p[2] == 0x80 + b && p[3] == 0xED && p[4] == 0xB0 + c && p[5] == 0x80 + d;
    assert p[3..][0] == 0xED && p[3..][1] == 0xB0 + c && p[3..][2] == 0x80 + d;
    LowOf(p[0], 0xE0, 16, 0xD);
    LowOf(p[1], 0x80, 64, 0x20 + a);
    LowOf(p[2], 0x80, 64, b);
    LowOf(p[4], 0x80, 64, 0x30 + c);
    LowOf(p[5], 0x80, 64, d);
    assert SurrogateUnit(p) == 0xD800 + 0x40 * a + b;
    assert SurrogateUnit(p[3..]) == 0xDC00 + 0x40 * c + d;
  }

  /** U+1F600, D83D DE00 in UTF-16, is ED A0 BD ED B8 80. */
  lemma GrinningFace()
    ensures RuneUnits(0x1F600) == [0xD83D, 0xDE00] && DecodeSurrogatePair(0xD83D, 0xDE00) == 0x1F600
    ensures EncodeCesuRune(0x1F600) == [0xED, 0xA0, 0xBD, 0xED, 0xB8, 0x80]
  {
    SupplementaryBytes(0x1F600, 0, 0x3D, 8, 0);
  }

  /** Sum of the CESU-8 lengths of the runes found by `DecodeCesuRune` (Size) ... */
  function CesuSize(p: seq<byte>): (n: nat)
  {
    if |p| == 0 then 0
    else CesuRuneLen(DecodeCesuRune(p).0) + CesuSize(p[DecodeCesuRune(p).1..])
  }

  /** ... and of the runes of a Go string (StringSize). */
  function CesuStringSize(p: seq<byte>): (n: nat)
  {
    if |p| == 0 then 0
    else CesuRuneLen(DecodeRune(p).0) + CesuStringSize(p[DecodeRune(p).1..])
  }

  /** A byte that starts no rune counts as the replacement rune, three bytes. */
  lemma {:induction false} InvalidByteSize(p: seq<byte>)
    requires |p| > 0 && !ValidHead(p)
    ensures CesuStringSize(p) == 3 + CesuStringSize(p[1..])
    ensures !IsSurrogate(p) ==> CesuSize(p) == 3 + CesuSize(p[1..])
  {
  }

  method Size(p: seq<byte>) returns (n: nat)
    ensures n == CesuSize(p)
  {
    n := 0;
    var q := p;
    while |q| > 0
      invariant n + CesuSize(q) == CesuSize(p)
      decreases |q|
    {
      var (r, size) := DecodeCesuRune(q);
      n := n + CesuRuneLen(r);
      q := q[size..];
    }
  }

  method StringSize(s: seq<byte>) returns (n: nat)
    ensures n == CesuStringSize(s)
  {
    n := 0;
    var q := s;
    while |q| > 0
      invariant n + CesuStringSize(q) == CesuStringSize(s)
      decreases |q|
    {
      var (r, size) := DecodeRune(q);
      n := n + CesuRuneLen(r);
      q := q[size..];
    }
  }

  // ---------------------------------------------------------------- transform loops

  datatype Step = Emit(out: seq<byte>, n: nat) | NeedSrc | Invalid

  /** A loop body, applied to the rest of the input. Emitting consumes input and writes at most 6 bytes. */
  type Stepper = f: seq<byte> -> Step | Progress(f) witness (p => NeedSrc)

  ghost predicate Progress(f: seq<byte> -> Step)
  {
    forall p :: f(p).Emit? ==> 1 <= |f(p).out| <= CESU_MAX && 1 <= f(p).n <= |p|
  }

  /** No step writes more bytes than it consumes. */
  ghost predicate Shrinks(f: Stepper)
  {
    forall p :: f(p).Emit? ==> |f(p).out| <= f(p).n
  }

  datatype Status = Done | ShortDst | ShortSrc | BadInput

  datatype Outcome = Outcome(out: seq<byte>, n: nat, status: Status)

  function After(out: seq<byte>, n: nat, rest: Outcome): (o: Outcome)
  {
    Outcome(out + rest.out, n + rest.n, rest.status)
  }

  /** What Transform yields on `src` with room for `cap` bytes. */
  function Run(f: Stepper, src: seq<byte>, cap: nat): (o: Outcome)
    ensures o.n <= |src| && |o.out| <= cap
    decreases |src|
  {
    if |src| == 0 then Outcome([], 0, Done)
    else
      match f(src)
      case NeedSrc => Outcome([], 0, ShortSrc)
      case Invalid => Outcome([], 0, BadInput)
      case Emit(out, n) =>
        if |out| > cap then Outcome([], 0, ShortDst)
        else After(out, n, Run(f, src[n..], cap - |out|))
  }

  /** The same with unlimited room. */
  function RunFull(f: Stepper, src: seq<byte>): (o: Outcome)
    ensures o.n <= |src| && o.status != ShortDst
    decreases |src|
  {
    if |src| == 0 then Outcome([], 0, Done)
    else
      match f(src)
      case NeedSrc => Outcome([], 0, ShortSrc)
      case Invalid => Outcome([], 0, BadInput)
      case Emit(out, n) => After(out, n, RunFull(f, src[n..]))
  }

  lemma AfterAssoc(a: seq<byte>, m: nat, b: seq<byte>, n: nat, rest: Outcome)
    ensures After(a, m, After(b, n, rest)) == After(a + b, m + n, rest)
  {
    Assoc(a, b, rest.out);
  }

  lemma AfterNothing(a: seq<byte>, m: nat, status: Status)
    ensures After(a, m, Outcome([], 0, status)) == Outcome(a, m, status)
  {
    assert a + [] == a;
  }

  lemma NothingBefore(rest: Outcome)
    ensures After([], 0, rest) == rest
  {
    assert [] + rest.out == rest.out;
  }

  /** `o` is the unlimited run over `src`, or a cut of it that the rest of `src` continues. */
  predicate CutOf(f: Stepper, src: seq<byte>, o: Outcome)
    requires o.n <= |src|
  {
    RunFull(f, src) == if o.status == ShortDst then After(o.out, o.n, RunFull(f, src[o.n..])) else o
  }

  /** Limited room only ever cuts the unlimited run short, at a rune boundary; 6 bytes suffice for progress. */
  lemma {:induction false} RunIsPrefixOfFull(f: Stepper, src: seq<byte>, cap: nat)
    ensures CutOf(f, src, Run(f, src, cap))
    ensures cap >= 6 && Run(f, src, cap).status == ShortDst ==> Run(f, src, cap).n > 0
    decreases |src|
  {
    if |src| > 0 && f(src).Emit? {
      var Emit(out, n) := f(src);
      if |out| <= cap {
        RunIsPrefixOfFull(f, src[n..], cap - |out|);
        PrefixStep(f, src, out, n, src[n..], Run(f, src[n..], cap - |out|));
      } else {
        assert src[0..] == src;
        NothingBefore(RunFull(f, src));
      }
    }
  }

  /** One step in front of a run that is cut short or not. */
  lemma {:induction false} PrefixStep(
    f: Stepper, src: seq<byte>, out: seq<byte>, n: nat, rest: seq<byte>, o: Outcome)
    requires |src| > 0 && f(src) == Emit(out, n) && 0 < n <= |src| && rest == src[n..]
    requires o.n <= |rest| && CutOf(f, rest, o)
    ensures CutOf(f, src, After(out, n, o))
  {
    var c := After(out, n, o);
    assert RunFull(f, src) == After(out, n, RunFull(f, rest));
    if o.status == ShortDst {
      LaterSuffix(src, n, rest, o.n);
      var tail := src[c.n..];
      assert RunFull(f, rest) == After(o.out, o.n, RunFull(f, tail));
      CutStep(out, n, o, RunFull(f, tail), RunFull(f, rest), RunFull(f, src), c);
    }
  }

  lemma {:induction false} CutStep(
    out: seq<byte>, n: nat, o: Outcome, tail: Outcome, rest: Outcome, full: Outcome, c: Outcome)
    requires full == After(out, n, rest) && rest == After(o.out, o.n, tail) && c == After(out, n, o)
    ensures full == After(c.out, c.n, tail)
  {
    AfterAssoc(out, n, o.out, o.n, tail);
  }

  lemma LaterSuffix(src: seq<byte>, n: nat, rest: seq<byte>, k: nat)
    requires n <= |src| && rest == src[n..] && k <= |rest|
    ensures rest[k..] == src[n + k..]
  {}

  /** A shrinking stepper never runs short with as much room as input. */
  lemma {:induction false} ShrinkingFits(f: Stepper, src: seq<byte>, cap: nat)
    requires Shrinks(f) && cap >= |src|
    ensures Run(f, src, cap) == RunFull(f, src)
    ensures |RunFull(f, src).out| <= RunFull(f, src).n
    decreases |src|
  {
    if |src| > 0 && f(src).Emit? {
      var Emit(out, n) := f(src);
      ShrinkingFits(f, src[n..], cap - |out|);
    }
  }

  /** Writes `s` into `dst` from index `j` (the rune encoders applied to a slice of dst). */
  method Put(dst: array<byte>, j: nat, s: seq<byte>)
    requires j + |s| <= dst.Length
    modifies dst
    ensures dst[..j + |s|] == old(dst[..j]) + s
    ensures dst[j + |s|..] == old(dst[j + |s|..])
  {
    for k := 0 to |s|
      invariant dst[..j + k] == old(dst[..j]) + s[..k]
      invariant dst[j + k..] == old(dst[j + k..])
    {
      dst[j + k] := s[k];
      assert dst[..j + k + 1] == dst[..j + k] + [s[k]];
      assert s[..k + 1] == s[..k] + [s[k]];
    }
    assert s[..|s|] == s;
  }

  /** `Run` in the loop's own terms: `i` bytes of `s` consumed, `done` written so far. */
  function RunFrom(f: Stepper, s: seq<byte>, cap: nat, i: nat, done: seq<byte>): (o: Outcome)
    requires i <= |s| && |done| <= cap
    decreases |s| - i
  {
    if i == |s| then Outcome(done, i, Done)
    else
      match f(s[i..])
      case NeedSrc => Outcome(done, i, ShortSrc)
      case Invalid => Outcome(done, i, BadInput)
      case Emit(out, n) =>
        if |done| + |out| > cap then Outcome(done, i, ShortDst)
        else RunFrom(f, s, cap, i + n, done + out)
  }

  lemma {:induction false} RunFromIsRun(f: Stepper, s: seq<byte>, cap: nat, i: nat, done: seq<byte>)
    requires i <= |s| && |done| <= cap
    ensures RunFrom(f, s, cap, i, done) == After(done, i, Run(f, s[i..], cap - |done|))
    decreases |s| - i
  {
    var p, room := s[i..], cap - |done|;
    if i == |s| || !f(p).Emit? || |f(p).out| > room {
      assert Run(f, p, room).out == [] && Run(f, p, room).n == 0;
      AfterNothing(done, i, Run(f, p, room).status);
    } else {
      var Emit(out, n) := f(p);
      var rest := Run(f, p[n..], room - |out|);
      RunFromIsRun(f, s, cap, i + n, done + out);
      assert p[n..] == s[i + n..];
      assert Run(f, p, room) == After(out, n, rest);
      AfterAssoc(done, i, out, n, rest);
    }
  }

  lemma {:induction false} StartOfRun(f: Stepper, s: seq<byte>, cap: nat)
    ensures RunFrom(f, s, cap, 0, []) == Run(f, s, cap)
  {
    RunFromIsRun(f, s, cap, 0, []);
    assert s[0..] == s;
    NothingBefore(Run(f, s, cap));
  }

  /**
    The loop shared by Encoder.Transform and Decoder.Transform. `dst` and `src` may be the same
    buffer when the stepper shrinks: the write index never overtakes the read index, so the outcome
    is the one on the original content either way.
   */
  method TransformLoop(f: Stepper, dst: array<byte>, src: array<byte>)
      returns (nDst: nat, nSrc: nat, err: Status)
    requires dst == src ==> Shrinks(f)
    modifies dst
    ensures nDst <= dst.Length && nSrc <= src.Length
    ensures Outcome(dst[..nDst], nSrc, err) == Run(f, old(src[..]), dst.Length)
    ensures dst == src ==> nDst <= nSrc
  {
    var i, j := 0, 0;
    ghost var s := src[..];
    ghost var goal := Run(f, s, dst.Length);
    StartOfRun(f, s, dst.Length);
    while i < src.Length
      invariant 0 <= i <= |s| && 0 <= j <= dst.Length && src[i..] == s[i..] && (dst == src ==> j <= i)
      invariant goal == RunFrom(f, s, dst.Length, i, dst[..j])
    {
      var stop;
      j, i, err, stop := TransformStep(f, dst, src, i, j, s, goal);
      if stop {
        return j, i, err;
      }
    }
    return j, i, Done;
  }

  /** One pass of the loop; `stop` when it returns. */
  method TransformStep(f: Stepper, dst: array<byte>, src: array<byte>, i: nat, j: nat, ghost s: seq<byte>,
                       ghost goal: Outcome)
      returns (nDst: nat, nSrc: nat, err: Status, stop: bool)
    requires i < src.Length == |s| && j <= dst.Length && src[i..] == s[i..] && (dst == src ==> Shrinks(f) && j <= i)
    requires goal == RunFrom(f, s, dst.Length, i, dst[..j])
    modifies dst
    ensures i <= nSrc <= |s| && nDst <= dst.Length && (dst == src ==> nDst <= nSrc)
    ensures stop ==> Outcome(dst[..nDst], nSrc, err) == goal
    ensures !stop ==> i < nSrc && src[nSrc..] == s[nSrc..] && goal == RunFrom(f, s, dst.Length, nSrc, dst[..nDst])
  {
    var p := src[i..];
    match f(p)
    case NeedSrc =>
      return j, i, ShortSrc, true;
    case Invalid =>
      return j, i, BadInput, true;
    case Emit(out, n) =>
      if j + |out| > dst.Length {
        return j, i, ShortDst, true;
      }
      Put(dst, j, out);
      assert src[i + n..] == p[n..];
      return j + |out|, i + n, Done, false;
  }

  // ---------------------------------------------------------------- encoding.go

  /** One iteration of Encoder.Transform on the rest `p` of its input. */
  function EncodeStep(p: seq<byte>, atEOF: bool): (s: Step)
    ensures s.Emit? ==> 1 <= |s.out| <= CESU_MAX && 1 <= s.n <= |p|
  {
    if |p| == 0 then NeedSrc
    else if p[0] < RUNE_SELF then Emit([p[0]], 1)
    else if !atEOF && |p| < UTF_MAX && !FullRune(p) then NeedSrc
    else
      var (r, n) := DecodeRune(p);
      if n <= 1 && r == RUNE_ERROR then Invalid
      else Emit(EncodeCesuRune(r), n)
  }

  /** One iteration of Decoder.Transform on the rest `p` of its input. */
  function DecodeStep(p: seq<byte>, atEOF: bool): (s: Step)
    ensures s.Emit? ==> 1 <= |s.out| <= 4 && 1 <= s.n <= |p|
  {
    if |p| == 0 then NeedSrc
    else if p[0] < RUNE_SELF then Emit([p[0]], 1)
    else if !atEOF && |p| < CESU_MAX && !FullCesuRune(p) then NeedSrc
    else if !IsSurrogate(p) then
      var (r, n) := DecodeRune(p);
      if r == RUNE_ERROR && n <= 1 then Invalid else Emit(EncodeRune(r), n)
    else
      var (r, n) := DecodeSurrogates(p);
      if r == RUNE_ERROR then Invalid else Emit(EncodeRune(r), n)
  }

  /** Decoding never writes more than it reads. */
  lemma DecodeStepShrinks(p: seq<byte>, atEOF: bool)
    requires DecodeStep(p, atEOF).Emit?
    ensures |DecodeStep(p, atEOF).out| <= DecodeStep(p, atEOF).n
  {
    if p[0] >= RUNE_SELF && !IsSurrogate(p) {
      assert ValidHead(p);
      DecodedIsEncoding(p);
    }
  }

  function ToCesu8(atEOF: bool): (f: Stepper)
    ensures forall p :: f(p) == EncodeStep(p, atEOF)
  {
    p => EncodeStep(p, atEOF)
  }

  function ToUtf8(atEOF: bool): (f: Stepper)
    ensures forall p :: f(p) == DecodeStep(p, atEOF)
  {
    p => DecodeStep(p, atEOF)
  }

  lemma ToUtf8Shrinks(atEOF: bool)
    ensures Shrinks(ToUtf8(atEOF))
  {
    forall p | ToUtf8(atEOF)(p).Emit?
      ensures |ToUtf8(atEOF)(p).out| <= ToUtf8(atEOF)(p).n
    {
      DecodeStepShrinks(p, atEOF);
    }
  }

  /** Encoder.Transform (UTF-8 to CESU-8). */
  method EncoderTransform(dst: array<byte>, src: array<byte>, atEOF: bool)
      returns (nDst: nat, nSrc: nat, err: Status)
    requires dst != src
    modifies dst
    ensures nDst <= dst.Length && nSrc <= src.Length
    ensures Outcome(dst[..nDst], nSrc, err) == Run(ToCesu8(atEOF), src[..], dst.Length)
  {
    nDst, nSrc, err := TransformLoop(ToCesu8(atEOF), dst, src);
  }

  /**
    Decoder.Transform (CESU-8 to UTF-8), also with `dst` and `src` the same buffer, as when a LOB
    chunk is decoded in place.
   */
  method DecoderTransform(dst: array<byte>, src: array<byte>, atEOF: bool)
      returns (nDst: nat, nSrc: nat, err: Status)
    modifies dst
    ensures nDst <= dst.Length && nSrc <= src.Length
    ensures Outcome(dst[..nDst], nSrc, err) == Run(ToUtf8(atEOF), old(src[..]), dst.Length)
    ensures dst == src ==> nDst <= nSrc && err != ShortDst
  {
    ToUtf8Shrinks(atEOF);
    nDst, nSrc, err := TransformLoop(ToUtf8(atEOF), dst, src);
    if dst == src {
      ShrinkingFits(ToUtf8(atEOF), old(src[..]), dst.Length);
    }
  }
}
