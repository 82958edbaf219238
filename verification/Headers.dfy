/**
  The byte decoder (driver/internal/protocol/encoding/decode.go) and the message, segment and part
  headers (driver/internal/protocol/headers.go).
 */
module Headers {
  import opened Bytes

  const MAX_INT16: int := 0x7fff
  const MAX_INT32: int := 0x7fff_ffff
  const MAX_UINT32: int := 0xffff_ffff
  const READ_SCRATCH_SIZE: nat := 4096

  // sizes of the integers on the wire
  const B1: nat := 1
  const B2: nat := 2
  const B4: nat := 4
  const B8: nat := 8

  // ---------------------------------------------------------------- Decoder

  /** An encoding.Decoder over the bytes still to come. */
  class Decoder {
    var rd: seq<byte>
    var cnt: nat
    var err: bool

    constructor (rd: seq<byte>)
      ensures this.rd == rd && cnt == 0 && !err
    {
      this.rd, cnt, err := rd, 0, false;
    }

    /** `n` bytes can be read without an error. */
    ghost predicate Has(n: nat)
      reads this
    {
      !err && n <= |rd|
    }

    /** The state after reading `n` bytes. */
    twostate predicate Advanced(n: nat)
      reads this
    {
      n <= |old(rd)| && rd == old(rd)[n..] && cnt == old(cnt) + n && !err
    }

    /** readFull: all bytes or an error; what is there is consumed and counted in either case. */
    method ReadFull(n: nat) returns (p: seq<byte>)
      modifies this
      ensures old(Has(n)) ==> Advanced(n) && p == old(rd)[..n]
      ensures old(err) ==> err && rd == old(rd) && cnt == old(cnt)
      ensures !old(err) && |old(rd)| < n ==> err && rd == [] && cnt == old(cnt) + |old(rd)|
      ensures |p| == n
    {
      p := Zeroes(n);
      if err {
        return;
      }
      if |rd| < n {
        cnt, rd, err := cnt + |rd|, [], true;
        return;
      }
      p, rd, cnt := rd[..n], rd[n..], cnt + n;
    }

    /** Skip: small distances through the scratch buffer, larger ones by discarding. */
    method Skip(n: nat)
      modifies this
      ensures old(Has(n)) ==> Advanced(n)
      ensures !old(err) && |old(rd)| < n ==> err && rd == [] && cnt == old(cnt) + |old(rd)|
      ensures old(err) && n <= 4096 ==> err && rd == old(rd) && cnt == old(cnt)
      ensures old(err) && 4096 < n <= |old(rd)| ==> Advanced(n)
    {
      if n <= READ_SCRATCH_SIZE {
        var _ := ReadFull(n);
        return;
      }
      if |rd| < n {
        cnt, rd, err := cnt + |rd|, [], true;
      } else {
        rd, cnt, err := rd[n..], cnt + n, false;
      }
    }

    /** Int8, Int16, Int32 and Int64: a signed little-endian integer of k bytes, 0 on a read error. */
    method Int(k: nat) returns (v: int)
      modifies this
      ensures old(Has(k)) ==> Advanced(k) && v == Signed(LEValue(old(rd)[..k]), k)
    {
      var p := ReadFull(k);
      v := if err then 0 else Signed(LEValue(p), k);
    }

    /** Uint32. */
    method Uint(k: nat) returns (v: nat)
      modifies this
      ensures old(Has(k)) ==> Advanced(k) && v == LEValue(old(rd)[..k])
    {
      var p := ReadFull(k);
      v := if err then 0 else LEValue(p);
    }
  }

  // ---------------------------------------------------------------- encoded forms

  datatype MessageHeader =
    MessageHeader(sessionID: int, packetCount: int, varPartLength: nat, varPartSize: nat, noOfSegm: int)

  const MESSAGE_HEADER_SIZE: nat := 32
  const SEGMENT_HEADER_SIZE: nat := 24
  const PART_HEADER_SIZE: nat := 16

  predicate Int8(v: int) { -0x80 <= v < 0x80 }
  predicate Int16(v: int) { -0x8000 <= v < 0x8000 }
  predicate Int32(v: int) { -0x8000_0000 <= v < 0x8000_0000 }
  predicate Uint32(v: int) { 0 <= v < 0x1_0000_0000 }
  predicate Int64(v: int) { -0x8000_0000_0000_0000 <= v < 0x8000_0000_0000_0000 }

  function MessageHeaderBytes(h: MessageHeader): (s: seq<byte>)
    ensures |s| == MESSAGE_HEADER_SIZE
  {
    LE(h.sessionID, B8) + (LE(h.packetCount, B4) + (LE(h.varPartLength, B4)
    + (LE(h.varPartSize, B4) + (LE(h.noOfSegm, B2) + Zeroes(10)))))
  }

  /** Segment kinds. */
  const SK_REQUEST: int := 1
  const SK_REPLY: int := 2

  datatype SegmentHeader = SegmentHeader(segmentLength: int, segmentOfs: int, noOfParts: int, segmentNo: int,
                                         segmentKind: int, messageType: int, commit: bool, commandOptions: int,
                                         functionCode: int)

  function SegmentTail(h: SegmentHeader): (s: seq<byte>)
    ensures |s| == 11
  {
    if h.segmentKind == SK_REQUEST
    then LE(h.messageType, B1) + (LE(if h.commit then 1 else 0, B1) + (LE(h.commandOptions, B1) + Zeroes(8)))
    else if h.segmentKind == SK_REPLY then Zeroes(1) + (LE(h.functionCode, B2) + Zeroes(8))
    else Zeroes(11)
  }

  function SegmentHeaderBytes(h: SegmentHeader): (s: seq<byte>)
    ensures |s| == SEGMENT_HEADER_SIZE
  {
    LE(h.segmentLength, B4) + (LE(h.segmentOfs, B4) + (LE(h.noOfParts, B2)
    + (LE(h.segmentNo, B2) + (LE(h.segmentKind, B1) + SegmentTail(h)))))
  }

  datatype PartHeader = PartHeader(partKind: int, partAttributes: int, argumentCount: int, bigArgumentCount: int,
                                   bufferLength: int, bufferSize: int) {
    /** numArg */
    function NumArg(): (n: int)
    {
      if argumentCount == -1 then bigArgumentCount else argumentCount
    }
  }

  /** setNumArg: the argument counts of a header, None above the 32-bit limit. */
  function ArgumentCounts(numArg: nat): (c: Option<(int, int)>)
  {
    if numArg <= MAX_INT16 then Some((numArg as int, 0))
    else if numArg <= MAX_INT32 then Some((-1 as int, numArg as int))
    else None
  }

  function PartHeaderBytes(h: PartHeader): (s: seq<byte>)
    ensures |s| == PART_HEADER_SIZE
  {
    LE(h.partKind, B1) + (LE(h.partAttributes, B1) + (LE(h.argumentCount, B2) + (LE(h.bigArgumentCount, B4)
    + (LE(h.bufferLength, B4) + LE(h.bufferSize, B4)))))
  }

  // ---------------------------------------------------------------- decoding

  /** A field of k bytes at the front of a byte sequence. */
  lemma {:induction false} Field(x: int, k: nat, s: seq<byte>, tail: seq<byte>)
    requires s == LE(x, k) + tail
    ensures s[..k] == LE(x, k) && s[k..] == tail
    ensures -2 * x <= Pow256(k) && 2 * x < Pow256(k) ==> Signed(LEValue(s[..k]), k) == x
    ensures 0 <= x < Pow256(k) ==> LEValue(s[..k]) == x
  {
    assert s[..k] == LE(x, k);
    if -2 * x <= Pow256(k) && 2 * x < Pow256(k) { SignedRoundTrip(x, k); }
    if 0 <= x < Pow256(k) { UnsignedRoundTrip(x, k); }
  }

  lemma Widths()
    ensures Pow256(B1) == 0x100 && Pow256(B2) == 0x1_0000 && Pow256(B4) == 0x1_0000_0000
    ensures Pow256(B8) == 0x1_0000_0000_0000_0000
  {
  }

  ghost predicate FitsMessage(h: MessageHeader)
  {
    Int64(h.sessionID) && Int32(h.packetCount) && Uint32(h.varPartLength) && Uint32(h.varPartSize) && Int16(h.noOfSegm)
  }

  method ReadInt(dec: Decoder, k: nat, ghost x: int, ghost tail: seq<byte>) returns (v: int)
    modifies dec
    ensures !old(dec.err) && old(dec.rd) == LE(x, k) + tail && -2 * x <= Pow256(k) && 2 * x < Pow256(k)
            ==> v == x && dec.rd == tail && dec.cnt == old(dec.cnt) + k && !dec.err
  {
    if dec.rd == LE(x, k) + tail { Field(x, k, dec.rd, tail); }
    v := dec.Int(k);
  }

  method ReadUint(dec: Decoder, k: nat, ghost x: nat, ghost tail: seq<byte>) returns (v: nat)
    modifies dec
    ensures !old(dec.err) && old(dec.rd) == LE(x, k) + tail && x < Pow256(k)
            ==> v == x && dec.rd == tail && dec.cnt == old(dec.cnt) + k && !dec.err
  {
    if dec.rd == LE(x, k) + tail { Field(x, k, dec.rd, tail); }
    v := dec.Uint(k);
  }

  lemma MessageLayout(h: MessageHeader, rest: seq<byte>)
    ensures MessageHeaderBytes(h) + rest
            == LE(h.sessionID, B8) + (LE(h.packetCount, B4) + (LE(h.varPartLength, B4)
               + (LE(h.varPartSize, B4) + (LE(h.noOfSegm, B2) + (Zeroes(10) + rest)))))
  {
    var a, b, c, d, e := LE(h.sessionID, B8), LE(h.packetCount, B4), LE(h.varPartLength, B4),
                         LE(h.varPartSize, B4), LE(h.noOfSegm, B2);
    var t4 := e + Zeroes(10);
    var t3 := d + t4;
    var t2 := c + t3;
    var t1 := b + t2;
    Assoc(a, t1, rest);
    Assoc(b, t2, rest);
    Assoc(c, t3, rest);
    Assoc(d, t4, rest);
    Assoc(e, Zeroes(10), rest);
  }

  // ---------------------------------------------------------------- the fields by their offsets

  /** The unsigned number in the k bytes of m from `at` on. */
  function Num(m: seq<byte>, at: nat, k: nat): (n: nat)
    requires at + k <= |m|
  {
    LEValue(m[at..at + k])
  }

  /** The signed number there. */
  function Int(m: seq<byte>, at: nat, k: nat): (n: int)
    requires at + k <= |m|
  {
    Signed(Num(m, at, k), k)
  }

  /** A field in front of the rest of m, and what follows it. */
  lemma {:induction false} NumAt(m: seq<byte>, at: nat, k: nat, x: int, tail: seq<byte>, next: nat)
    requires at <= |m| && m[at..] == LE(x, k) + tail && next == at + k
    ensures next <= |m| && m[next..] == tail
    ensures 0 <= x < Pow256(k) ==> Num(m, at, k) == x
    ensures -2 * x <= Pow256(k) && 2 * x < Pow256(k) ==> Int(m, at, k) == x
  {
    Field(x, k, m[at..], tail);
    assert m[at..][..k] == m[at..at + k] && m[at..][k..] == m[next..];
  }

  /** A message header at the front of m, by the offsets of its fields. */
  ghost predicate MessageFields(m: seq<byte>, h: MessageHeader)
  {
    && |m| >= 32
    && Int(m, 0, 8) == h.sessionID && Int(m, 8, 4) == h.packetCount && Num(m, 12, 4) == h.varPartLength
    && Num(m, 16, 4) == h.varPartSize && Int(m, 20, 2) == h.noOfSegm
  }

  lemma {:induction false} MessageAt(m: seq<byte>, h: MessageHeader, rest: seq<byte>)
    requires m == MessageHeaderBytes(h) + rest && FitsMessage(h)
    ensures MessageFields(m, h) && m[32..] == rest
  {
    MessageLayout(h, rest);
    Widths();
    var t5 := Zeroes(10) + rest;
    var t4 := LE(h.noOfSegm, B2) + t5;
    var t3 := LE(h.varPartSize, B4) + t4;
    var t2 := LE(h.varPartLength, B4) + t3;
    var t1 := LE(h.packetCount, B4) + t2;
    assert m[0..] == m;
    NumAt(m, 0, B8, h.sessionID, t1, 8);
    NumAt(m, 8, B4, h.packetCount, t2, 12);
    NumAt(m, 12, B4, h.varPartLength, t3, 16);
    NumAt(m, 16, B4, h.varPartSize, t4, 20);
    NumAt(m, 20, B2, h.noOfSegm, t5, 22);
    assert m[22..][10..] == m[32..] && t5[10..] == rest;
  }

  /** The header of a request segment at the front of m. */
  ghost predicate RequestFields(m: seq<byte>, h: SegmentHeader)
  {
    && |m| >= 24
    && Int(m, 0, 4) == h.segmentLength && Int(m, 4, 4) == h.segmentOfs && Int(m, 8, 2) == h.noOfParts
    && Int(m, 10, 2) == h.segmentNo && Int(m, 12, 1) == 1 && Int(m, 13, 1) == h.messageType
    && Int(m, 14, 1) == (if h.commit then 1 else 0) && Int(m, 15, 1) == h.commandOptions
  }

  lemma {:induction false} RequestAt(m: seq<byte>, h: SegmentHeader, rest: seq<byte>)
    requires m == SegmentHeaderBytes(h) + rest && FitsSegment(h) && h.segmentKind == SK_REQUEST
    ensures RequestFields(m, h) && m[24..] == rest
  {
    SegmentLayout(h, rest);
    RequestTailLayout(h, rest);
    Widths();
    var t8 := Zeroes(8) + rest;
    var t7 := LE(h.commandOptions, B1) + t8;
    var commit := if h.commit then 1 else 0;
    var t6 := LE(commit, B1) + t7;
    var t5 := LE(h.messageType, B1) + t6;
    var t4 := LE(h.segmentKind, B1) + t5;
    var t3 := LE(h.segmentNo, B2) + t4;
    var t2 := LE(h.noOfParts, B2) + t3;
    var t1 := LE(h.segmentOfs, B4) + t2;
    assert m[0..] == m;
    NumAt(m, 0, B4, h.segmentLength, t1, 4);
    NumAt(m, 4, B4, h.segmentOfs, t2, 8);
    NumAt(m, 8, B2, h.noOfParts, t3, 10);
    NumAt(m, 10, B2, h.segmentNo, t4, 12);
    NumAt(m, 12, B1, h.segmentKind, t5, 13);
    NumAt(m, 13, B1, h.messageType, t6, 14);
    NumAt(m, 14, B1, commit, t7, 15);
    NumAt(m, 15, B1, h.commandOptions, t8, 16);
    assert m[16..][8..] == m[24..] && t8[8..] == rest;
  }

  /** The header of a reply segment: kind 2 and, after a filler, the function code. */
  lemma {:induction false} ReplyAt(m: seq<byte>, h: SegmentHeader, rest: seq<byte>)
    requires m == SegmentHeaderBytes(h) + rest && FitsSegment(h) && h.segmentKind == 2
    ensures |m| >= 24 && Int(m, 12, 1) == 2 && Int(m, 13, 1) == 0 && Int(m, 14, 2) == h.functionCode && m[24..] == rest
  {
    SegmentLayout(h, rest);
    ReplyTailLayout(h, rest);
    Widths();
    var t7 := Zeroes(8) + rest;
    var t6 := LE(h.functionCode, B2) + t7;
    var t5 := Zeroes(1) + t6;
    var t4 := LE(h.segmentKind, B1) + t5;
    var t3 := LE(h.segmentNo, B2) + t4;
    var t2 := LE(h.noOfParts, B2) + t3;
    var t1 := LE(h.segmentOfs, B4) + t2;
    assert m[0..] == m && Zeroes(1) == LE(0, B1);
    NumAt(m, 0, B4, h.segmentLength, t1, 4);
    NumAt(m, 4, B4, h.segmentOfs, t2, 8);
    NumAt(m, 8, B2, h.noOfParts, t3, 10);
    NumAt(m, 10, B2, h.segmentNo, t4, 12);
    NumAt(m, 12, B1, h.segmentKind, t5, 13);
    NumAt(m, 13, B1, 0, t6, 14);
    NumAt(m, 14, B2, h.functionCode, t7, 16);
    assert m[16..][8..] == m[24..] && t7[8..] == rest;
  }

  /** A part header at the front of m. */
  ghost predicate PartFields(m: seq<byte>, h: PartHeader)
  {
    && |m| >= 16
    && Int(m, 0, 1) == h.partKind && Int(m, 1, 1) == h.partAttributes && Int(m, 2, 2) == h.argumentCount
    && Int(m, 4, 4) == h.bigArgumentCount && Int(m, 8, 4) == h.bufferLength && Int(m, 12, 4) == h.bufferSize
  }

  lemma {:induction false} PartAt(m: seq<byte>, h: PartHeader, rest: seq<byte>)
    requires m == PartHeaderBytes(h) + rest && FitsPart(h)
    ensures PartFields(m, h) && m[16..] == rest
  {
    PartLayout(h, rest);
    Widths();
    var t5 := LE(h.bufferSize, B4) + rest;
    var t4 := LE(h.bufferLength, B4) + t5;
    var t3 := LE(h.bigArgumentCount, B4) + t4;
    var t2 := LE(h.argumentCount, B2) + t3;
    var t1 := LE(h.partAttributes, B1) + t2;
    assert m[0..] == m;
    NumAt(m, 0, B1, h.partKind, t1, 1);
    NumAt(m, 1, B1, h.partAttributes, t2, 2);
    NumAt(m, 2, B2, h.argumentCount, t3, 4);
    NumAt(m, 4, B4, h.bigArgumentCount, t4, 8);
    NumAt(m, 8, B4, h.bufferLength, t5, 12);
    NumAt(m, 12, B4, h.bufferSize, rest, 16);
  }

  /** messageHeader.decode inverts encode. */
  method DecodeMessageHeader(dec: Decoder, ghost h0: MessageHeader, ghost rest: seq<byte>) returns (h: MessageHeader)
    modifies dec
    ensures !old(dec.err) && old(dec.rd) == MessageHeaderBytes(h0) + rest && FitsMessage(h0)
            ==> h == h0 && dec.rd == rest && dec.cnt == old(dec.cnt) + MESSAGE_HEADER_SIZE && !dec.err
  {
    MessageLayout(h0, rest);
    Widths();
    ghost var t5 := Zeroes(10) + rest;
    ghost var t4 := LE(h0.noOfSegm, B2) + t5;
    ghost var t3 := LE(h0.varPartSize, B4) + t4;
    ghost var t2 := LE(h0.varPartLength, B4) + t3;
    ghost var t1 := LE(h0.packetCount, B4) + t2;
    var sessionID := ReadInt(dec, B8, h0.sessionID, t1);
    var packetCount := ReadInt(dec, B4, h0.packetCount, t2);
    var varPartLength := ReadUint(dec, B4, h0.varPartLength, t3);
    var varPartSize := ReadUint(dec, B4, h0.varPartSize, t4);
    var noOfSegm := ReadInt(dec, B2, h0.noOfSegm, t5);
    dec.Skip(10);
    assert t5[10..] == rest;
    h := MessageHeader(sessionID, packetCount, varPartLength, varPartSize, noOfSegm);
  }

  ghost predicate FitsSegment(h: SegmentHeader)
  {
    && Int32(h.segmentLength) && Int32(h.segmentOfs) && Int16(h.noOfParts) && Int16(h.segmentNo)
    && Int8(h.segmentKind) && Int8(h.messageType) && Int8(h.commandOptions) && Int16(h.functionCode)
  }

  /** The header object `prev` after reading h: fields that the kind of segment does not have keep their value. */
  function Reread(prev: SegmentHeader, h: SegmentHeader): (r: SegmentHeader)
  {
    if h.segmentKind == SK_REQUEST then h.(functionCode := prev.functionCode)
    else if h.segmentKind == SK_REPLY then
      h.(messageType := prev.messageType, commit := prev.commit, commandOptions := prev.commandOptions)
    else
      h.(messageType := prev.messageType, commit := prev.commit, commandOptions := prev.commandOptions,
         functionCode := prev.functionCode)
  }

  lemma SegmentLayout(h: SegmentHeader, rest: seq<byte>)
    ensures SegmentHeaderBytes(h) + rest
            == LE(h.segmentLength, B4) + (LE(h.segmentOfs, B4) + (LE(h.noOfParts, B2)
               + (LE(h.segmentNo, B2) + (LE(h.segmentKind, B1) + (SegmentTail(h) + rest)))))
  {
    var a, b, c, d, e := LE(h.segmentLength, B4), LE(h.segmentOfs, B4), LE(h.noOfParts, B2),
                         LE(h.segmentNo, B2), LE(h.segmentKind, B1);
    var t4 := e + SegmentTail(h);
    var t3 := d + t4;
    var t2 := c + t3;
    var t1 := b + t2;
    Assoc(a, t1, rest);
    Assoc(b, t2, rest);
    Assoc(c, t3, rest);
    Assoc(d, t4, rest);
    Assoc(e, SegmentTail(h), rest);
  }

  lemma RequestTailLayout(h: SegmentHeader, rest: seq<byte>)
    requires h.segmentKind == SK_REQUEST
    ensures SegmentTail(h) + rest
            == LE(h.messageType, B1)
               + (LE(if h.commit then 1 else 0, B1) + (LE(h.commandOptions, B1) + (Zeroes(8) + rest)))
  {
    var a, b, c := LE(h.messageType, B1), LE(if h.commit then 1 else 0, B1), LE(h.commandOptions, B1);
    var t2 := c + Zeroes(8);
    var t1 := b + t2;
    Assoc(a, t1, rest);
    Assoc(b, t2, rest);
    Assoc(c, Zeroes(8), rest);
  }

  lemma ReplyTailLayout(h: SegmentHeader, rest: seq<byte>)
    requires h.segmentKind == SK_REPLY
    ensures SegmentTail(h) + rest == Zeroes(1) + (LE(h.functionCode, B2) + (Zeroes(8) + rest))
  {
    Assoc(Zeroes(1), LE(h.functionCode, B2) + Zeroes(8), rest);
    Assoc(LE(h.functionCode, B2), Zeroes(8), rest);
  }

  /** Skips n zeroes. */
  method SkipZeroes(dec: Decoder, n: nat, ghost tail: seq<byte>)
    modifies dec
    ensures !old(dec.err) && old(dec.rd) == Zeroes(n) + tail
            ==> dec.rd == tail && dec.cnt == old(dec.cnt) + n && !dec.err
  {
    assert (Zeroes(n) + tail)[n..] == tail;
    dec.Skip(n);
  }

  method DecodeRequestTail(dec: Decoder, h: SegmentHeader, ghost h0: SegmentHeader, ghost rest: seq<byte>)
      returns (h': SegmentHeader)
    modifies dec
    ensures !old(dec.err) && old(dec.rd) == SegmentTail(h0) + rest && FitsSegment(h0) && h0.segmentKind == SK_REQUEST
            ==> && h' == h.(messageType := h0.messageType, commit := h0.commit, commandOptions := h0.commandOptions)
                && dec.rd == rest && dec.cnt == old(dec.cnt) + 11 && !dec.err
  {
    Widths();
    if h0.segmentKind == SK_REQUEST { RequestTailLayout(h0, rest); }
    ghost var t3 := Zeroes(8) + rest;
    ghost var t2 := LE(h0.commandOptions, B1) + t3;
    ghost var commit0 := if h0.commit then 1 else 0;
    ghost var t1 := LE(commit0, B1) + t2;
    var messageType := ReadInt(dec, B1, h0.messageType, t1);
    var commit := ReadInt(dec, B1, commit0, t2);
    var commandOptions := ReadInt(dec, B1, h0.commandOptions, t3);
    SkipZeroes(dec, 8, rest);
    h' := h.(messageType := messageType, commit := commit != 0, commandOptions := commandOptions);
  }

  method DecodeReplyTail(dec: Decoder, h: SegmentHeader, ghost h0: SegmentHeader, ghost rest: seq<byte>)
      returns (h': SegmentHeader)
    modifies dec
    ensures !old(dec.err) && old(dec.rd) == SegmentTail(h0) + rest && FitsSegment(h0) && h0.segmentKind == SK_REPLY
            ==> && h' == h.(functionCode := h0.functionCode)
                && dec.rd == rest && dec.cnt == old(dec.cnt) + 11 && !dec.err
  {
    Widths();
    if h0.segmentKind == SK_REPLY { ReplyTailLayout(h0, rest); }
    ghost var t2 := Zeroes(8) + rest;
    SkipZeroes(dec, 1, LE(h0.functionCode, B2) + t2);
    var functionCode := ReadInt(dec, B2, h0.functionCode, t2);
    SkipZeroes(dec, 8, rest);
    h' := h.(functionCode := functionCode);
  }

  /** The part of segmentHeader.decode that depends on the segment kind; other fields keep their value. */
  method DecodeSegmentTail(dec: Decoder, h: SegmentHeader, ghost h0: SegmentHeader, ghost rest: seq<byte>)
      returns (h': SegmentHeader)
    modifies dec
    ensures !old(dec.err) && old(dec.rd) == SegmentTail(h0) + rest && FitsSegment(h0) && h.segmentKind == h0.segmentKind
            ==> && h' == (if h.segmentKind == SK_REQUEST then
                            h.(messageType := h0.messageType, commit := h0.commit, commandOptions := h0.commandOptions)
                          else if h.segmentKind == SK_REPLY then h.(functionCode := h0.functionCode)
                          else h)
                && dec.rd == rest && dec.cnt == old(dec.cnt) + 11 && !dec.err
  {
    h' := h;
    if h.segmentKind == SK_REQUEST {
      h' := DecodeRequestTail(dec, h, h0, rest);
    } else if h.segmentKind == SK_REPLY {
      h' := DecodeReplyTail(dec, h, h0, rest);
    } else {
      SkipZeroes(dec, 11, rest);
    }
  }

  /** segmentHeader.decode inverts encode for requests, replies and errors; `prev` is the reused header object. */
  method DecodeSegmentHeader(dec: Decoder, prev: SegmentHeader, ghost h0: SegmentHeader, ghost rest: seq<byte>)
      returns (h: SegmentHeader)
    modifies dec
    ensures !old(dec.err) && old(dec.rd) == SegmentHeaderBytes(h0) + rest && FitsSegment(h0)
            ==> && h == Reread(prev, h0)
                && dec.rd == rest && dec.cnt == old(dec.cnt) + SEGMENT_HEADER_SIZE && !dec.err
  {
    SegmentLayout(h0, rest);
    Widths();
    ghost var t5 := SegmentTail(h0) + rest;
    ghost var t4 := LE(h0.segmentKind, B1) + t5;
    ghost var t3 := LE(h0.segmentNo, B2) + t4;
    ghost var t2 := LE(h0.noOfParts, B2) + t3;
    ghost var t1 := LE(h0.segmentOfs, B4) + t2;
    var segmentLength := ReadInt(dec, B4, h0.segmentLength, t1);
    var segmentOfs := ReadInt(dec, B4, h0.segmentOfs, t2);
    var noOfParts := ReadInt(dec, B2, h0.noOfParts, t3);
    var segmentNo := ReadInt(dec, B2, h0.segmentNo, t4);
    var segmentKind := ReadInt(dec, B1, h0.segmentKind, t5);
    h := prev.(segmentLength := segmentLength, segmentOfs := segmentOfs, noOfParts := noOfParts,
               segmentNo := segmentNo, segmentKind := segmentKind);
    h := DecodeSegmentTail(dec, h, h0, rest);
  }

  ghost predicate FitsPart(h: PartHeader)
  {
    && Int8(h.partKind) && Int8(h.partAttributes) && Int16(h.argumentCount) && Int32(h.bigArgumentCount)
    && Int32(h.bufferLength) && Int32(h.bufferSize)
  }

  lemma PartLayout(h: PartHeader, rest: seq<byte>)
    ensures PartHeaderBytes(h) + rest
            == LE(h.partKind, B1) + (LE(h.partAttributes, B1) + (LE(h.argumentCount, B2) + (LE(h.bigArgumentCount, B4)
               + (LE(h.bufferLength, B4) + (LE(h.bufferSize, B4) + rest)))))
  {
    var a, b, c, d, e, f := LE(h.partKind, B1), LE(h.partAttributes, B1), LE(h.argumentCount, B2),
                            LE(h.bigArgumentCount, B4), LE(h.bufferLength, B4), LE(h.bufferSize, B4);
    var t4 := e + f;
    var t3 := d + t4;
    var t2 := c + t3;
    var t1 := b + t2;
    Assoc(a, t1, rest);
    Assoc(b, t2, rest);
    Assoc(c, t3, rest);
    Assoc(d, t4, rest);
    Assoc(e, f, rest);
  }

  /** partHeader.decode inverts encode. */
  method DecodePartHeader(dec: Decoder, ghost h0: PartHeader, ghost rest: seq<byte>) returns (h: PartHeader)
    modifies dec
    ensures !old(dec.err) && old(dec.rd) == PartHeaderBytes(h0) + rest && FitsPart(h0)
            ==> h == h0 && dec.rd == rest && dec.cnt == old(dec.cnt) + PART_HEADER_SIZE && !dec.err
  {
    PartLayout(h0, rest);
    Widths();
    ghost var t5 := LE(h0.bufferSize, B4) + rest;
    ghost var t4 := LE(h0.bufferLength, B4) + t5;
    ghost var t3 := LE(h0.bigArgumentCount, B4) + t4;
    ghost var t2 := LE(h0.argumentCount, B2) + t3;
    ghost var t1 := LE(h0.partAttributes, B1) + t2;
    var partKind := ReadInt(dec, B1, h0.partKind, t1);
    var partAttributes := ReadInt(dec, B1, h0.partAttributes, t2);
    var argumentCount := ReadInt(dec, B2, h0.argumentCount, t3);
    var bigArgumentCount := ReadInt(dec, B4, h0.bigArgumentCount, t4);
    var bufferLength := ReadInt(dec, B4, h0.bufferLength, t5);
    var bufferSize := ReadInt(dec, B4, h0.bufferSize, rest);
    h := PartHeader(partKind, partAttributes, argumentCount, bigArgumentCount, bufferLength, bufferSize);
  }

  /** The count survives both encodings, including the switch to the 32-bit field. */
  lemma NumArgRoundTrip(numArg: nat, h: PartHeader)
    requires ArgumentCounts(numArg) == Some((h.argumentCount, h.bigArgumentCount))
    ensures h.NumArg() == numArg && Int16(h.argumentCount) && Int32(h.bigArgumentCount)
  {
  }
}
