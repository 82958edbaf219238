/**
  What the CESU-8 transformers and size functions mean for text: exactness on every valid UTF-8
  string, rejection of everything else, and decoding of a stream that is cut between any two
  UTF-16 code units.
 */
module Cesu8Text {
  import opened Bytes
  import opened Utf8
  import opened Cesu8

  // ---------------------------------------------------------------- one rune

  /** EncodeRune writes the two surrogates one after the other: CESU-8 by its definition. */
  lemma EncodeRuneIsUnits(r: Scalar)
    ensures EncodeCesuRune(r) == UnitsBytes(RuneUnits(r))
  {
    if r < 0x10000 {
      assert UnitsBytes(RuneUnits(r)) == RuneBytes(r) + UnitsBytes([]);
    } else {
      var us := RuneUnits(r);
      assert us[1..] == [us[1]] && us[1..][1..] == [];
      assert UnitsBytes(us[1..]) == RuneBytes(us[1]);
      assert UnitsBytes(us) == RuneBytes(us[0]) + RuneBytes(us[1]);
    }
  }

  lemma EncodeStepOnRune(r: Scalar, rest: seq<byte>, atEOF: bool)
    ensures EncodeStep(RuneBytes(r) + rest, atEOF) == Emit(EncodeCesuRune(r), |RuneBytes(r)|)
  {
    DecodeEncoded(r, rest);
    EncodedLength(r);
  }

  /** A unit in the surrogate range is encoded as ED, A0..BF, 80..BF and read back from it. */
  lemma SurrogateBytes(u: Unit, p: seq<byte>)
    requires IsSurrogateUnit(u) && RuneBytes(u) <= p
    ensures IsSurrogate(p) && SurrogateUnit(p) == u && |RuneBytes(u)| == 3
  {
    var b, c := (u / 64) % 64, u % 64;
    assert u == 13 * 4096 + b * 64 + c;
    assert p[0] == 0xED && p[1] == 0x80 + b && p[2] == 0x80 + c;
    LowOf(p[1], 0x80, 64, b);
    LowOf(p[2], 0x80, 64, c);
  }

  lemma DecodeStepOnBmp(r: Scalar, rest: seq<byte>, atEOF: bool)
    requires r < 0x10000
    ensures DecodeStep(RuneBytes(r) + rest, atEOF) == Emit(RuneBytes(r), |RuneBytes(r)|)
  {
    var p := RuneBytes(r) + rest;
    DecodeEncoded(r, rest);
    EncodedLength(r);
    assert !IsSurrogate(p);
  }

  lemma DecodeStepOnPair(r: Scalar, rest: seq<byte>, atEOF: bool)
    requires r >= 0x10000
    ensures var hi, lo := RuneBytes(HighSurrogate(r)), RuneBytes(LowSurrogate(r));
            |hi| == 3 && |lo| == 3 && DecodeStep(hi + (lo + rest), atEOF) == Emit(RuneBytes(r), 6)
  {
    var hi, lo := RuneBytes(HighSurrogate(r)), RuneBytes(LowSurrogate(r));
    var p := hi + (lo + rest);
    SurrogateBytes(HighSurrogate(r), p);
    assert p[3..] == lo + rest;
    SurrogateBytes(LowSurrogate(r), p[3..]);
    SurrogatePairRoundTrip(r);
  }

  /** A high surrogate alone is reported as short input, not as an error. */
  lemma DecodeStepOnHalf(r: Scalar)
    requires r >= 0x10000
    ensures DecodeStep(RuneBytes(HighSurrogate(r)), false) == NeedSrc
  {
    var p := RuneBytes(HighSurrogate(r));
    SurrogateBytes(HighSurrogate(r), p);
    assert p[3..] == [];
  }

  // ---------------------------------------------------------------- whole texts

  /** CESU-8 of one rune. */
  function RuneCesu(r: Scalar): (s: seq<byte>)
  {
    UnitsBytes(RuneUnits(r))
  }

  lemma CesuCons(t: Text)
    requires |t| > 0
    ensures Cesu8Of(t) == RuneCesu(t[0]) + Cesu8Of(t[1..])
  {
    UnitsConcat(RuneUnits(t[0]), Utf16Of(t[1..]));
  }

  /** A stepper that turns the UTF-8 of each rune into its CESU-8. */
  ghost predicate EncodesRunes(f: Stepper)
  {
    forall r: Scalar, rest: seq<byte> :: f(RuneBytes(r) + rest) == Emit(RuneCesu(r), |RuneBytes(r)|)
  }

  lemma EncoderEncodesRunes(atEOF: bool)
    ensures EncodesRunes(ToCesu8(atEOF))
  {
    forall r: Scalar, rest: seq<byte>
      ensures ToCesu8(atEOF)(RuneBytes(r) + rest) == Emit(RuneCesu(r), |RuneBytes(r)|)
    {
      EncodeStepOnRune(r, rest, atEOF);
      EncodeRuneIsUnits(r);
    }
  }

  /** One unrolling of `RunFull`. */
  lemma {:induction false} RunFullEmit(f: Stepper, head: seq<byte>, rest: seq<byte>, out: seq<byte>)
    requires |head| > 0 && f(head + rest) == Emit(out, |head|)
    ensures RunFull(f, head + rest) == After(out, |head|, RunFull(f, rest))
  {
    assert (head + rest)[|head|..] == rest;
  }

  lemma {:induction false} EncodeTextWith(f: Stepper, t: Text)
    requires EncodesRunes(f)
    ensures RunFull(f, Utf8Of(t)) == Outcome(Cesu8Of(t), |Utf8Of(t)|, Done)
  {
    if |t| != 0 {
      EncodeTextWith(f, t[1..]);
      RunFullEmit(f, RuneBytes(t[0]), Utf8Of(t[1..]), RuneCesu(t[0]));
      CesuCons(t);
    }
  }

  /** The run over a text and what follows it. */
  lemma {:induction false} EncodeTextThen(f: Stepper, t: Text, rest: seq<byte>)
    requires EncodesRunes(f)
    ensures RunFull(f, Utf8Of(t) + rest) == After(Cesu8Of(t), |Utf8Of(t)|, RunFull(f, rest))
  {
    if |t| == 0 {
      assert Utf8Of(t) + rest == rest;
      NothingBefore(RunFull(f, rest));
    } else {
      var head, tail := RuneBytes(t[0]), Utf8Of(t[1..]);
      EncodeTextThen(f, t[1..], rest);
      Assoc(head, tail, rest);
      RunFullEmit(f, head, tail + rest, RuneCesu(t[0]));
      CesuCons(t);
      AfterAssoc(RuneCesu(t[0]), |head|, Cesu8Of(t[1..]), |tail|, RunFull(f, rest));
    }
  }

  /**
    At a rune that is cut off the encoder has emitted the text before it; it then waits for more input, and
    at the end of the input it fails.
   */
  lemma {:induction false} EncodeCut(t: Text, r: Scalar, k: nat, atEOF: bool)
    requires 0 < k < |RuneBytes(r)|
    ensures RunFull(ToCesu8(atEOF), Utf8Of(t) + RuneBytes(r)[..k])
            == Outcome(Cesu8Of(t), |Utf8Of(t)|, if atEOF then BadInput else ShortSrc)
  {
    var f, cut := ToCesu8(atEOF), RuneBytes(r)[..k];
    EncoderEncodesRunes(atEOF);
    EncodeTextThen(f, t, cut);
    Incomplete(r, k);
    CutRune(cut, r, k, atEOF);
    AfterNothing(Cesu8Of(t), |Utf8Of(t)|, if atEOF then BadInput else ShortSrc);
  }

  lemma {:induction false} CutRune(cut: seq<byte>, r: Scalar, k: nat, atEOF: bool)
    requires 0 < k < |RuneBytes(r)| && cut == RuneBytes(r)[..k] && !FullRune(cut) && !ValidHead(cut)
    ensures RunFull(ToCesu8(atEOF), cut) == Outcome([], 0, if atEOF then BadInput else ShortSrc)
  {
    assert EncodeStep(cut, atEOF) == if atEOF then Invalid else NeedSrc;
  }

  /** On valid UTF-8 the encoder emits exactly the CESU-8 form and consumes everything. */
  lemma {:induction false} EncodeText(t: Text, atEOF: bool)
    ensures RunFull(ToCesu8(atEOF), Utf8Of(t)) == Outcome(Cesu8Of(t), |Utf8Of(t)|, Done)
  {
    EncoderEncodesRunes(atEOF);
    EncodeTextWith(ToCesu8(atEOF), t);
  }

  /** A stepper that emits only on a valid head, and consumes it. */
  ghost predicate WantsValidHeads(f: Stepper)
  {
    forall p :: f(p).Emit? ==> ValidHead(p) && f(p).n == SeqLen(p[0])
  }

  lemma EncoderWantsValidHeads(atEOF: bool)
    ensures WantsValidHeads(ToCesu8(atEOF))
  {
    forall p | ToCesu8(atEOF)(p).Emit?
      ensures ValidHead(p) && ToCesu8(atEOF)(p).n == SeqLen(p[0])
    {
      assert EncodeStep(p, atEOF).Emit?;
    }
  }

  lemma {:induction false} AcceptedIsTextWith(f: Stepper, p: seq<byte>) returns (t: Text)
    requires WantsValidHeads(f) && RunFull(f, p).status == Done
    ensures p == Utf8Of(t)
    decreases |p|
  {
    if |p| == 0 {
      t := [];
    } else {
      var n := f(p).n;
      var u := AcceptedIsTextWith(f, p[n..]);
      t := PrependHead(p, u);
    }
  }

  lemma PrependHead(p: seq<byte>, u: Text) returns (t: Text)
    requires ValidHead(p) && p[SeqLen(p[0])..] == Utf8Of(u)
    ensures p == Utf8Of(t)
  {
    DecodedIsEncoding(p);
    t := [HeadRune(p)] + u;
    assert t[1..] == u;
    assert p == p[..SeqLen(p[0])] + p[SeqLen(p[0])..];
  }

  /** The encoder accepts nothing but valid UTF-8. */
  lemma AcceptedIsText(p: seq<byte>, atEOF: bool) returns (t: Text)
    requires RunFull(ToCesu8(atEOF), p).status == Done
    ensures p == Utf8Of(t)
  {
    EncoderWantsValidHeads(atEOF);
    t := AcceptedIsTextWith(ToCesu8(atEOF), p);
  }

  /** Valid UTF-8. */
  ghost predicate IsText(p: seq<byte>)
  {
    exists t: Text :: Utf8Of(t) == p
  }

  /** The encoder accepts valid UTF-8 and nothing else. */
  lemma {:induction false} AcceptedIff(p: seq<byte>, atEOF: bool)
    ensures RunFull(ToCesu8(atEOF), p).status == Done <==> IsText(p)
  {
    if RunFull(ToCesu8(atEOF), p).status == Done {
      var t := AcceptedIsText(p, atEOF);
    } else if IsText(p) {
      var t: Text :| Utf8Of(t) == p;
      EncodeText(t, atEOF);
    }
  }

  /** Size and StringSize both announce the number of bytes the encoder produces. */
  lemma {:induction false} SizesAgree(t: Text)
    ensures CesuSize(Utf8Of(t)) == |Cesu8Of(t)|
    ensures CesuStringSize(Utf8Of(t)) == |Cesu8Of(t)|
  {
    if |t| != 0 {
      var r, rest := t[0], Utf8Of(t[1..]);
      var src := RuneBytes(r) + rest;
      SizesAgree(t[1..]);
      DecodeEncoded(r, rest);
      assert !IsSurrogate(src);
      assert src[|RuneBytes(r)|..] == rest;
      EncodeRuneIsUnits(r);
      UnitsConcat(RuneUnits(r), Utf16Of(t[1..]));
    }
  }

  // ---------------------------------------------------------------- streams cut between code units

  /** The number of whole runes among the first `c` code units of `t`. */
  function WholeRunes(t: Text, c: nat): (k: nat)
    ensures k <= |t|
  {
    if |t| == 0 || |RuneUnits(t[0])| > c then 0
    else 1 + WholeRunes(t[1..], c - |RuneUnits(t[0])|)
  }

  /** They are the longest prefix of `t` that fits in `c` units; at most one unit is left over. */
  lemma {:induction false} WholeRunesIsLongest(t: Text, c: nat)
    requires c <= |Utf16Of(t)|
    ensures var k := WholeRunes(t, c);
            |Utf16Of(t[..k])| <= c <= |Utf16Of(t[..k])| + 1 && (k == |t| ==> c == |Utf16Of(t)|)
    ensures c == |Utf16Of(t)| ==> WholeRunes(t, c) == |t|
    ensures c >= 2 ==> WholeRunes(t, c) >= 1
  {
    if |t| != 0 && |RuneUnits(t[0])| <= c {
      var c' := c - |RuneUnits(t[0])|;
      WholeRunesIsLongest(t[1..], c');
      var k' := WholeRunes(t[1..], c');
      assert t[..k' + 1][1..] == t[1..][..k'];
    }
  }

  /** A decoder of whole runes, at the end of the input or not. */
  ghost predicate DecodesWhole(f: Stepper)
  {
    forall r: Scalar, rest: seq<byte> :: f(RuneCesu(r) + rest) == Emit(RuneBytes(r), |RuneCesu(r)|)
  }

  /** A stepper that turns CESU-8 back into UTF-8 and waits at half a surrogate pair. */
  ghost predicate DecodesRunes(f: Stepper)
  {
    DecodesWhole(f) && forall r: Scalar :: r >= 0x10000 ==> f(RuneBytes(HighSurrogate(r))) == NeedSrc
  }

  lemma DecodeStepOnUnits(r: Scalar, rest: seq<byte>, atEOF: bool)
    ensures DecodeStep(RuneCesu(r) + rest, atEOF) == Emit(RuneBytes(r), |RuneCesu(r)|)
  {
    EncodeRuneIsUnits(r);
    if r < 0x10000 {
      DecodeStepOnBmp(r, rest, atEOF);
    } else {
      var hi, lo := RuneBytes(HighSurrogate(r)), RuneBytes(LowSurrogate(r));
      DecodeStepOnPair(r, rest, atEOF);
      assert RuneCesu(r) == hi + lo;
      Assoc(hi, lo, rest);
    }
  }

  lemma DecoderDecodesWhole(atEOF: bool)
    ensures DecodesWhole(ToUtf8(atEOF))
  {
    forall r: Scalar, rest: seq<byte>
      ensures ToUtf8(atEOF)(RuneCesu(r) + rest) == Emit(RuneBytes(r), |RuneCesu(r)|)
    {
      DecodeStepOnUnits(r, rest, atEOF);
    }
  }

  lemma DecoderDecodesRunes()
    ensures DecodesRunes(ToUtf8(false))
  {
    DecoderDecodesWhole(false);
    forall r: Scalar | r >= 0x10000
      ensures ToUtf8(false)(RuneBytes(HighSurrogate(r))) == NeedSrc
    {
      DecodeStepOnHalf(r);
    }
  }

  /** The outcome of decoding the first `c` units of `t`. */
  function CutOutcome(t: Text, c: nat): (o: Outcome)
  {
    var whole := t[..WholeRunes(t, c)];
    Outcome(Utf8Of(whole), |Cesu8Of(whole)|, if |Utf16Of(whole)| == c then Done else ShortSrc)
  }

  lemma CutOutcomeCons(t: Text, c: nat)
    requires |t| > 0 && |RuneUnits(t[0])| <= c
    ensures CutOutcome(t, c)
            == After(RuneBytes(t[0]), |RuneCesu(t[0])|, CutOutcome(t[1..], c - |RuneUnits(t[0])|))
  {
    var whole := t[..WholeRunes(t, c)];
    assert whole[1..] == t[1..][..WholeRunes(t[1..], c - |RuneUnits(t[0])|)] && whole[0] == t[0];
    CesuCons(whole);
  }

  lemma {:induction false} DecodeCutWith(f: Stepper, t: Text, c: nat)
    requires DecodesRunes(f) && c <= |Utf16Of(t)|
    ensures RunFull(f, UnitsBytes(Utf16Of(t)[..c])) == CutOutcome(t, c)
  {
    if c == 0 {
      assert Utf16Of(t)[..0] == [];
    } else if |RuneUnits(t[0])| > c {
      DecodeHalf(f, t, c);
    } else {
      DecodeCutWith(f, t[1..], c - |RuneUnits(t[0])|);
      DecodeFirst(f, t, c, Utf16Of(t[1..])[..c - |RuneUnits(t[0])|]);
    }
  }

  /** The cut is inside the first rune, a surrogate pair. */
  lemma {:induction false} DecodeHalf(f: Stepper, t: Text, c: nat)
    requires DecodesRunes(f) && |t| > 0 && 0 < c < |RuneUnits(t[0])|
    ensures c <= |Utf16Of(t)| && RunFull(f, UnitsBytes(Utf16Of(t)[..c])) == CutOutcome(t, c)
  {
    var high := HighSurrogate(t[0]);
    assert Utf16Of(t)[..c] == [high] && [high][1..] == [];
    assert UnitsBytes([high]) == RuneBytes(high) + UnitsBytes([]) == RuneBytes(high);
    assert t[..0] == [];
  }

  /** The first rune is complete, and the units `cut` follow it. */
  lemma {:induction false} DecodeFirst(f: Stepper, t: Text, c: nat, cut: seq<Unit>)
    requires DecodesRunes(f) && |t| > 0 && |RuneUnits(t[0])| <= c <= |Utf16Of(t)|
    requires cut == Utf16Of(t[1..])[..c - |RuneUnits(t[0])|]
    requires RunFull(f, UnitsBytes(cut)) == CutOutcome(t[1..], c - |RuneUnits(t[0])|)
    ensures RunFull(f, UnitsBytes(Utf16Of(t)[..c])) == CutOutcome(t, c)
  {
    assert Utf16Of(t)[..c] == RuneUnits(t[0]) + cut;
    UnitsConcat(RuneUnits(t[0]), cut);
    RunFullEmit(f, RuneCesu(t[0]), UnitsBytes(cut), RuneBytes(t[0]));
    CutOutcomeCons(t, c);
  }

  /**
    Decoding the first `c` code units of a text, wherever the cut falls: the output is the UTF-8 of
    the whole runes among them, and a split surrogate pair is left unread.
   */
  lemma {:induction false} DecodeCut(t: Text, c: nat)
    requires c <= |Utf16Of(t)|
    ensures RunFull(ToUtf8(false), UnitsBytes(Utf16Of(t)[..c])) == CutOutcome(t, c)
  {
    DecoderDecodesRunes();
    DecodeCutWith(ToUtf8(false), t, c);
  }

  lemma {:induction false} DecodeTextWith(f: Stepper, t: Text)
    requires DecodesWhole(f)
    ensures RunFull(f, Cesu8Of(t)) == Outcome(Utf8Of(t), |Cesu8Of(t)|, Done)
  {
    if |t| > 0 {
      DecodeTextWith(f, t[1..]);
      CesuCons(t);
      RunFullEmit(f, RuneCesu(t[0]), Cesu8Of(t[1..]), RuneBytes(t[0]));
    }
  }

  /** On the CESU-8 of every text the decoder emits exactly its UTF-8, whether or not the input is known to end. */
  lemma {:induction false} DecodeText(t: Text, atEOF: bool)
    ensures RunFull(ToUtf8(atEOF), Cesu8Of(t)) == Outcome(Utf8Of(t), |Cesu8Of(t)|, Done)
  {
    DecoderDecodesWhole(atEOF);
    DecodeTextWith(ToUtf8(atEOF), t);
  }

  /** Encoding and decoding back is the identity on every text. */
  lemma {:induction false} RoundTrip(t: Text, atEOF: bool, encoded: seq<byte>)
    requires encoded == RunFull(ToCesu8(atEOF), Utf8Of(t)).out
    ensures RunFull(ToUtf8(atEOF), encoded) == Outcome(Utf8Of(t), |encoded|, Done)
  {
    EncodeText(t, atEOF);
    DecodeText(t, atEOF);
  }

  // ---------------------------------------------------------------- encoding/encode.go

  /** The run that goes on at position i, after the output `sent`. */
  function Continued(f: Stepper, p: seq<byte>, i: nat, sent: seq<byte>): (o: Outcome)
    requires i <= |p|
  {
    After(sent, i, RunFull(f, p[i..]))
  }

  /** The scratch buffer and the bytes handed to the writer of an encoding.Encoder. */
  class Encoder {
    var wr: seq<byte>
    const b: array<byte>

    constructor (scratch: nat)
      requires scratch >= CESU_MAX
      ensures wr == [] && fresh(b) && b.Length == scratch
    {
      wr := [];
      b := new byte[scratch];
    }

    /**
      CESU8Bytes: the bytes go through the scratch buffer piece by piece, yet the output is that of
      one unlimited run, and an error is reported exactly when that run meets invalid UTF-8.
     */
    method CESU8Bytes(p: seq<byte>) returns (cnt: nat, ok: bool)
      requires b.Length >= CESU_MAX
      modifies this, b
      ensures var full := RunFull(ToCesu8(true), p);
              wr == old(wr) + full.out && cnt == |full.out| && (ok <==> full.status == Done)
    {
      cnt, ok := Pipe(ToCesu8(true), p);
    }

    method TransformAndWrite(f: Stepper, p: seq<byte>)
        returns (nDst: nat, nSrc: nat, err: Status, ghost out: seq<byte>)
      modifies this, b
      ensures Run(f, p, b.Length) == Outcome(out, nSrc, err) && nDst == |out| && wr == old(wr) + out
    {
      var src := new byte[|p|](k requires 0 <= k < |p| => p[k]);
      assert src[..] == p;
      nDst, nSrc, err := TransformLoop(f, b, src);
      out := b[..nDst];
      if nDst != 0 {
        wr := wr + b[..nDst];
      }
    }

    /** One pass of the loop: the piece that fits the scratch buffer; it leads from i to `next`. */
    method WritePiece(f: Stepper, p: seq<byte>, i: nat, ghost sent: seq<byte>)
        returns (nDst: nat, next: nat, err: Status, ghost out: seq<byte>, ghost all: seq<byte>)
      requires b.Length >= CESU_MAX && i < |p| && RunFull(f, p) == Continued(f, p, i, sent)
      modifies this, b
      ensures wr == old(wr) + out && nDst == |out| && all == sent + out && i <= next <= |p|
      ensures err == ShortDst ==> next > i
      ensures err == Done ==> next == |p|
      ensures err == ShortDst || err == Done ==> RunFull(f, p) == Continued(f, p, next, all)
      ensures err != ShortDst ==> RunFull(f, p) == Outcome(all, next, err)
    {
      var nSrc;
      nDst, nSrc, err, out := TransformAndWrite(f, p[i..]);
      next, all := i + nSrc, sent + out;
      Piece(f, p, i, sent, b.Length, Outcome(out, nSrc, err), next, all);
    }

    method Pipe(f: Stepper, p: seq<byte>) returns (cnt: nat, ok: bool)
      requires b.Length >= CESU_MAX
      modifies this, b
      ensures var full := RunFull(f, p);
              wr == old(wr) + full.out && cnt == |full.out| && (ok <==> full.status == Done)
    {
      cnt := 0;
      var i := 0;
      ghost var sent := [];
      assert p[0..] == p;
      NothingBefore(RunFull(f, p));
      while i < |p|
        invariant 0 <= i <= |p| && cnt == |sent|
        invariant RunFull(f, p) == Continued(f, p, i, sent)
        invariant wr == old(wr) + sent
        decreases |p| - i
      {
        var nDst, next, err;
        ghost var out, all;
        nDst, next, err, out, all := WritePiece(f, p, i, sent);
        Assoc(old(wr), sent, out);
        cnt := cnt + nDst;
        if err != Done && err != ShortDst {
          return cnt, false;
        }
        i, sent := next, all;
      }
      AfterNothing(sent, i, Done);
      ok := true;
    }
  }

  /** Sending one scratch buffer's worth moves the rest of the run forward, or ends it. */
  lemma {:induction false} Piece(
    f: Stepper, p: seq<byte>, i: nat, sent: seq<byte>, cap: nat, o: Outcome, to: nat, all: seq<byte>)
    requires i < |p| && cap >= CESU_MAX && o == Run(f, p[i..], cap) && to == i + o.n && all == sent + o.out
    requires RunFull(f, p) == Continued(f, p, i, sent)
    ensures o.status == ShortDst ==> o.n > 0
    ensures o.status != ShortDst ==> RunFull(f, p) == Outcome(all, to, o.status)
    ensures o.status == ShortDst || o.status == Done ==> RunFull(f, p) == Continued(f, p, to, all)
    ensures o.status == Done ==> to == |p|
  {
    RunIsPrefixOfFull(f, p[i..], cap);
    RunDoneReadsAll(f, p[i..], cap);
    PieceMoves(f, p, i, sent, p[i..], o, to, all);
  }

  lemma {:induction false} PieceMoves(f: Stepper, p: seq<byte>, i: nat, sent: seq<byte>, rest: seq<byte>, o: Outcome,
                                      to: nat, all: seq<byte>)
    requires i < |p| && rest == p[i..] && o.n <= |rest| && CutOf(f, rest, o) && to == i + o.n && all == sent + o.out
    requires RunFull(f, p) == After(sent, i, RunFull(f, rest))
    requires o.status == Done ==> o.n == |rest|
    ensures o.status != ShortDst ==> RunFull(f, p) == Outcome(all, to, o.status)
    ensures o.status == ShortDst || o.status == Done ==> RunFull(f, p) == Continued(f, p, to, all)
  {
    if o.status == ShortDst {
      LaterSuffix(p, i, rest, o.n);
      CutStep(sent, i, o, RunFull(f, p[to..]), RunFull(f, rest), RunFull(f, p), After(sent, i, o));
    } else if o.status == Done {
      AfterNothing(all, to, Done);
    }
  }

  lemma {:induction false} RunDoneReadsAll(f: Stepper, src: seq<byte>, cap: nat)
    ensures Run(f, src, cap).status == Done ==> Run(f, src, cap).n == |src|
    decreases |src|
  {
    if |src| > 0 && f(src).Emit? && |f(src).out| <= cap {
      RunDoneReadsAll(f, src[f(src).n..], cap - |f(src).out|);
    }
  }
}
