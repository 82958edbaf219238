/**
  Message framing (driver/internal/protocol/protocol.go). The writer announces sizes in one pass and
  emits bytes in another; the reader walks the parts and stays aligned whatever its callback reads.
 */
module Framing {
  import opened Bytes
  import opened Headers

  const PADDING: int := 8

  function PadBytes(size: nat): (pad: nat)
    ensures pad < 8 && (size + pad) % 8 == 0
  {
    var r := size % PADDING;
    if r != 0 then PADDING - r else 0
  }

  /**
    A part: its kind and argument count, the size it announces and the bytes it encodes to; if it does
    not encode, those written before its error.
   */
  datatype Part = Part(kind: int, numArg: nat, size: nat, body: seq<byte>, encodes: bool)

  /** Every part encodes to as many bytes as it announces. */
  ghost predicate Honest(parts: seq<Part>)
  {
    forall i :: 0 <= i < |parts| ==> parts[i].encodes && parts[i].size == |parts[i].body|
  }

  /** Nothing stops the writer at this part. */
  predicate Sendable(p: Part)
  {
    p.numArg <= 0x7fff_ffff && p.encodes
  }

  /** The first part that cannot be sent, or the number of parts. */
  function FirstRefused(parts: seq<Part>): (k: nat)
    ensures k <= |parts|
  {
    if |parts| == 0 || !Sendable(parts[0]) then 0 else 1 + FirstRefused(parts[1..])
  }

  /** Bytes a part takes in the message, header and padding included. */
  function Span(p: Part): (n: nat)
  {
    PART_HEADER_SIZE + p.size + PadBytes(p.size)
  }

  function Spans(parts: seq<Part>): (n: nat)
  {
    if |parts| == 0 then 0 else Span(parts[0]) + Spans(parts[1..])
  }

  /** The size that the message header announces. */
  function TotalSize(parts: seq<Part>): (n: nat)
  {
    SEGMENT_HEADER_SIZE + Spans(parts)
  }

  // ---------------------------------------------------------------- the bytes of a message

  function HeaderOf(p: Part, bufferSize: int): (h: PartHeader)
  {
    var counts := ArgumentCounts(p.numArg);
    var (a, b) := if counts.Some? then counts.value else (0, 0);
    PartHeader(p.kind, 0, a, b, p.size, bufferSize)
  }

  function PartBytes(p: Part, bufferSize: int): (s: seq<byte>)
  {
    PartHeaderBytes(HeaderOf(p, bufferSize)) + (p.body + Zeroes(PadBytes(p.size)))
  }

  /** How a part is emitted, given the buffer size left for it and its successors. */
  type Emitter = (Part, int) -> seq<byte>

  /** All parts in order, the buffer size shrinking by each part's span. */
  function EmitAll(f: Emitter, parts: seq<Part>, bufferSize: int): (s: seq<byte>)
  {
    if |parts| == 0 then [] else f(parts[0], bufferSize) + EmitAll(f, parts[1..], bufferSize - Span(parts[0]))
  }

  function PartsBytes(parts: seq<Part>, bufferSize: int): (s: seq<byte>)
  {
    EmitAll(PartBytes, parts, bufferSize)
  }

  function MessageHeaderOf(sessionID: int, size: nat): (h: MessageHeader)
  {
    MessageHeader(sessionID, 0, size, size, 1)
  }

  function SegmentHeaderOf(messageType: int, commit: bool, size: nat, numPart: nat): (h: SegmentHeader)
  {
    SegmentHeader(size, 0, numPart, 1, SK_REQUEST, messageType, commit, 0, 0)
  }

  function MessageBytes(sessionID: int, messageType: int, commit: bool, parts: seq<Part>): (s: seq<byte>)
  {
    SizedBytes(sessionID, messageType, commit, parts, TotalSize(parts))
  }

  function SizedBytes(sessionID: int, messageType: int, commit: bool, parts: seq<Part>, size: nat): (s: seq<byte>)
  {
    MessageHeaderBytes(MessageHeaderOf(sessionID, size))
    + (SegmentHeaderBytes(SegmentHeaderOf(messageType, commit, size, |parts|)) + PartsBytes(parts, Spans(parts)))
  }

  lemma {:induction false} PartsLength(parts: seq<Part>, bufferSize: int)
    requires Honest(parts)
    ensures |PartsBytes(parts, bufferSize)| == Spans(parts)
  {
    if |parts| != 0 {
      PartsLength(parts[1..], bufferSize - Span(parts[0]));
    }
  }

  /** The variable part length in the message header is what follows the header. */
  lemma {:induction false} MessageLength(sessionID: int, messageType: int, commit: bool, parts: seq<Part>)
    requires Honest(parts)
    ensures |MessageBytes(sessionID, messageType, commit, parts)|
            == MESSAGE_HEADER_SIZE + TotalSize(parts)
  {
    PartsLength(parts, Spans(parts));
  }

  lemma {:induction false} EmitAppend(f: Emitter, parts: seq<Part>, p: Part, bufferSize: int)
    ensures Spans(parts + [p]) == Spans(parts) + Span(p)
    ensures EmitAll(f, parts + [p], bufferSize)
            == EmitAll(f, parts, bufferSize) + f(p, bufferSize - Spans(parts))
  {
    var ps := parts + [p];
    if |parts| == 0 {
      assert ps == [p] && ps[1..] == [];
      var x := f(p, bufferSize);
      assert [] + x == x == x + [];
    } else {
      var q, rest := parts[0], parts[1..];
      assert ps[0] == q && ps[1..] == rest + [p];
      EmitAppend(f, rest, p, bufferSize - Span(q));
      Assoc(f(q, bufferSize), EmitAll(f, rest, bufferSize - Span(q)), f(p, bufferSize - Spans(parts)));
    }
  }

  lemma {:induction false} EmitNext(f: Emitter, parts: seq<Part>, i: nat, bufferSize0: int, bufferSize: int)
    requires i < |parts| && bufferSize == bufferSize0 - Spans(parts[..i])
    ensures Spans(parts[..i + 1]) == Spans(parts[..i]) + Span(parts[i])
    ensures EmitAll(f, parts[..i + 1], bufferSize0) == EmitAll(f, parts[..i], bufferSize0) + f(parts[i], bufferSize)
  {
    assert parts[..i + 1] == parts[..i] + [parts[i]];
    EmitAppend(f, parts[..i], parts[i], bufferSize0);
  }

  method MessageSize(parts: seq<Part>) returns (size: nat)
    ensures size == TotalSize(parts)
  {
    size := SEGMENT_HEADER_SIZE + |parts| * PART_HEADER_SIZE;
    for i := 0 to |parts|
      invariant size == SEGMENT_HEADER_SIZE + (|parts| - i) * PART_HEADER_SIZE + Spans(parts[..i])
    {
      size := size + parts[i].size + PadBytes(parts[i].size);
      EmitNext((_, _) => [], parts, i, Spans(parts[..i]), 0);
    }
    assert parts[..|parts|] == parts;
  }

  // ---------------------------------------------------------------- Writer

  const MT_EXECUTE_DIRECT: int := 2
  const MT_PREPARE: int := 3
  const MT_EXECUTE: int := 13

  /** The message types with client info. */
  predicate ClientInfoSupported(messageType: int)
  {
    messageType == MT_EXECUTE_DIRECT || messageType == MT_PREPARE || messageType == MT_EXECUTE
  }

  /** What is written of a part that cannot be sent. */
  function RefusedBytes(p: Part, bufferSize: int): (s: seq<byte>)
  {
    if p.numArg > MAX_INT32 then [] else PartHeaderBytes(HeaderOf(p, bufferSize)) + p.body
  }

  /** One part: header, body, padding; nothing if the argument count exceeds the limit. */
  method EncodePart(part: Part, bufferSize: int) returns (ok: bool, out: seq<byte>)
    ensures ok == Sendable(part)
    ensures out == if ok then PartBytes(part, bufferSize) else RefusedBytes(part, bufferSize)
  {
    var counts := ArgumentCounts(part.numArg);
    if counts.None? {
      return false, [];
    }
    var h := PartHeader(part.kind, 0, counts.value.0, counts.value.1, part.size, bufferSize);
    if !part.encodes {
      return false, PartHeaderBytes(h) + part.body;
    }
    return true, PartHeaderBytes(h) + (part.body + Zeroes(PadBytes(part.size)));
  }

  /** What the loop over the parts writes: all of them, or those before the first refused one and its front. */
  function PartsOutput(f: Emitter, parts: seq<Part>, bufferSize: int): (s: seq<byte>)
  {
    OutputTo(f, parts, bufferSize, FirstRefused(parts))
  }

  function OutputTo(f: Emitter, parts: seq<Part>, bufferSize: int, k: nat): (s: seq<byte>)
    requires k <= |parts|
  {
    EmitAll(f, parts[..k], bufferSize)
    + if k == |parts| then [] else RefusedBytes(parts[k], Left(parts, bufferSize, k))
  }

  /** The buffer size left for part k and its successors. */
  function Left(parts: seq<Part>, bufferSize: int, k: nat): (n: int)
    requires k <= |parts|
  {
    bufferSize - Spans(parts[..k])
  }

  /** The loop over the parts: the first k of them, and `last` of the one that is refused. */
  method EncodeLoop(parts: seq<Part>, bufferSize0: int, ghost f: Emitter)
      returns (k: nat, ok: bool, bufferSize: int, out: seq<byte>, last: seq<byte>)
    requires forall p: Part, b: int {:trigger PartBytes(p, b)} :: f(p, b) == PartBytes(p, b)
    ensures k <= |parts| && ok == (k == |parts|) && (forall i :: 0 <= i < k ==> Sendable(parts[i]))
    ensures out == EmitAll(f, parts[..k], bufferSize0) && bufferSize == Left(parts, bufferSize0, k)
    ensures if ok then last == [] else !Sendable(parts[k]) && last == RefusedBytes(parts[k], bufferSize)
  {
    bufferSize, out, last := bufferSize0, [], [];
    for i := 0 to |parts|
      invariant forall j :: 0 <= j < i ==> Sendable(parts[j])
      invariant out == EmitAll(f, parts[..i], bufferSize0) && bufferSize == Left(parts, bufferSize0, i)
    {
      var bytes;
      ok, bytes := EncodePart(parts[i], bufferSize);
      if !ok {
        return i, ok, bufferSize, out, bytes;
      }
      LeftNext(f, parts, i, bufferSize0, bufferSize);
      out := out + bytes;
      bufferSize := bufferSize - (PART_HEADER_SIZE + parts[i].size + PadBytes(parts[i].size));
    }
    k, ok := |parts|, true;
  }

  lemma {:induction false} LeftNext(f: Emitter, parts: seq<Part>, i: nat, bufferSize0: int, bufferSize: int)
    requires i < |parts| && bufferSize == Left(parts, bufferSize0, i)
    ensures Left(parts, bufferSize0, i + 1) == bufferSize - Span(parts[i])
    ensures EmitAll(f, parts[..i + 1], bufferSize0) == EmitAll(f, parts[..i], bufferSize0) + f(parts[i], bufferSize)
  {
    EmitNext(f, parts, i, bufferSize0, bufferSize);
  }

  /** All parts, or those before the first refused one and its front. */
  method EncodeParts(parts: seq<Part>, bufferSize0: int, ghost f: Emitter)
      returns (ok: bool, bufferSize: int, out: seq<byte>)
    requires forall p: Part, b: int {:trigger PartBytes(p, b)} :: f(p, b) == PartBytes(p, b)
    ensures ok == (FirstRefused(parts) == |parts|) && out == PartsOutput(f, parts, bufferSize0)
    ensures ok ==> out == EmitAll(f, parts, bufferSize0) && bufferSize == bufferSize0 - Spans(parts)
  {
    var k, last;
    k, ok, bufferSize, out, last := EncodeLoop(parts, bufferSize0, f);
    RefusedAt(parts, k);
    if ok {
      assert parts[..|parts|] == parts && out + [] == out;
    }
    out := out + last;
    assert out == OutputTo(f, parts, bufferSize0, k);
  }

  lemma {:induction false} RefusedAt(parts: seq<Part>, i: nat)
    requires i <= |parts| && (forall k :: 0 <= k < i ==> Sendable(parts[k])) && (i < |parts| ==> !Sendable(parts[i]))
    ensures FirstRefused(parts) == i
  {
    if i > 0 {
      RefusedAt(parts[1..], i - 1);
    }
  }

  lemma {:induction false} NoneRefused(parts: seq<Part>)
    ensures FirstRefused(parts) == |parts| <==> forall k :: 0 <= k < |parts| ==> Sendable(parts[k])
  {
    if |parts| > 0 {
      NoneRefused(parts[1..]);
      assert forall k :: 1 <= k < |parts| ==> parts[k] == parts[1..][k - 1];
    }
  }

  /** The message can be written: its size and argument counts are within the limits and every part encodes. */
  predicate Writable(parts: seq<Part>)
  {
    TotalSize(parts) <= 0x7fff_ffff && forall i :: 0 <= i < |parts| ==> Sendable(parts[i])
  }

  /**
    The bytes _write hands to the writer: those of the message if it can be written; above 2^32 - 1
    nothing, above 2^31 - 1 only the message header, and otherwise everything up to the refused part.
   */
  function MessageOutput(sessionID: int, messageType: int, commit: bool, parts: seq<Part>): (s: seq<byte>)
  {
    SizedOutput(sessionID, messageType, commit, parts, TotalSize(parts))
  }

  function SizedOutput(sessionID: int, messageType: int, commit: bool, parts: seq<Part>, size: nat): (s: seq<byte>)
  {
    Output(MessageHeaderBytes(MessageHeaderOf(sessionID, size)),
           SegmentHeaderBytes(SegmentHeaderOf(messageType, commit, size, |parts|)), parts, size)
  }

  function Output(mh: seq<byte>, sh: seq<byte>, parts: seq<Part>, size: nat): (s: seq<byte>)
  {
    if size > 0xffff_ffff then [] else if size > 0x7fff_ffff then mh else mh + SegmentOutput(sh, parts)
  }

  /** A segment header and its parts, as far as they are written. */
  function SegmentOutput(sh: seq<byte>, parts: seq<Part>): (s: seq<byte>)
  {
    sh + PartsOutput(PartBytes, parts, Spans(parts))
  }

  method EncodeSegment(sh: seq<byte>, parts: seq<Part>, size: nat) returns (ok: bool, bufferSize: int, out: seq<byte>)
    requires size == TotalSize(parts)
    ensures ok == (FirstRefused(parts) == |parts|) && out == SegmentOutput(sh, parts)
    ensures ok ==> bufferSize == 0 && out == sh + PartsBytes(parts, Spans(parts))
  {
    bufferSize := size - SEGMENT_HEADER_SIZE;
    assert bufferSize == Spans(parts);
    var body;
    ok, bufferSize, body := EncodeParts(parts, bufferSize, PartBytes);
    out := sh + body;
  }

  method EncodeHeaded(mh: seq<byte>, sh: seq<byte>, parts: seq<Part>, size: nat)
      returns (ok: bool, bufferSize: int, out: seq<byte>)
    requires size == TotalSize(parts)
    ensures ok == Writable(parts) && out == Output(mh, sh, parts, size)
    ensures ok ==> out == mh + (sh + PartsBytes(parts, Spans(parts))) && bufferSize == 0
  {
    bufferSize := size;
    if size > MAX_UINT32 {
      return false, bufferSize, [];
    }
    if size > MAX_INT32 {
      return false, bufferSize, mh;
    }
    var segment;
    NoneRefused(parts);
    ok, bufferSize, segment := EncodeSegment(sh, parts, size);
    out := mh + segment;
  }

  method EncodeSized(sessionID: int, messageType: int, commit: bool, parts: seq<Part>, size: nat)
      returns (ok: bool, bufferSize: int, out: seq<byte>)
    requires size == TotalSize(parts)
    ensures ok == Writable(parts) && out == SizedOutput(sessionID, messageType, commit, parts, size)
    ensures ok ==> bufferSize == 0 && out == SizedBytes(sessionID, messageType, commit, parts, size)
  {
    var mh := MessageHeaderBytes(MessageHeaderOf(sessionID, size));
    var sh := SegmentHeaderBytes(SegmentHeaderOf(messageType, commit, size, |parts|));
    ok, bufferSize, out := EncodeHeaded(mh, sh, parts, size);
  }

  /** _write up to the writer; the remaining buffer size ends at zero. */
  method EncodeMessage(sessionID: int, messageType: int, commit: bool, parts: seq<Part>)
      returns (ok: bool, bufferSize: int, out: seq<byte>)
    ensures ok == Writable(parts) && out == MessageOutput(sessionID, messageType, commit, parts)
    ensures ok ==> out == MessageBytes(sessionID, messageType, commit, parts) && bufferSize == 0
  {
    var size := MessageSize(parts);
    ok, bufferSize, out := EncodeSized(sessionID, messageType, commit, parts, size);
  }

  class Writer {
    var wr: seq<byte>
    const sv: Option<Part>   // session variables, sent once as client info
    var svSent: bool
    var sessionID: int
    var hasError: bool

    constructor (sv: Option<Part>, sessionID: int)
      ensures this.sv == sv && this.sessionID == sessionID && !svSent && !hasError && wr == []
    {
      this.sv, this.sessionID, svSent, hasError, wr := sv, sessionID, false, false, [];
    }

    predicate SendsClientInfo(messageType: int)
      reads this
    {
      sv.Some? && !svSent && ClientInfoSupported(messageType)
    }

    /** The parts of a message: the client info goes first, once. */
    function Sent(messageType: int, parts: seq<Part>): (ps: seq<Part>)
      reads this
    {
      if SendsClientInfo(messageType) then [sv.value] + parts else parts
    }

    /** _write */
    method WriteMessage(messageType: int, commit: bool, parts0: seq<Part>) returns (ok: bool)
      modifies this`wr, this`svSent
      ensures svSent == (old(svSent) || old(SendsClientInfo(messageType)))
      ensures ok == Writable(old(Sent(messageType, parts0)))
      ensures wr == old(wr) + MessageOutput(sessionID, messageType, commit, old(Sent(messageType, parts0)))
      ensures ok ==> wr == old(wr) + MessageBytes(sessionID, messageType, commit, old(Sent(messageType, parts0)))
      ensures ok && Honest(old(Sent(messageType, parts0)))
              && WithinLimits(sessionID, messageType, old(Sent(messageType, parts0)))
              ==> RequestFramed(wr[|old(wr)|..], sessionID, messageType, commit, old(Sent(messageType, parts0)))
    {
      var parts := WithClientInfo(messageType, parts0);
      ok := Emit(messageType, commit, parts);
    }

    method WithClientInfo(messageType: int, parts0: seq<Part>) returns (parts: seq<Part>)
      modifies this`svSent
      ensures parts == old(Sent(messageType, parts0)) && svSent == (old(svSent) || old(SendsClientInfo(messageType)))
    {
      parts := parts0;
      if sv.Some? && !svSent && ClientInfoSupported(messageType) {
        parts := [sv.value] + parts;
        svSent := true;
      }
    }

    method Emit(messageType: int, commit: bool, parts: seq<Part>) returns (ok: bool)
      modifies this`wr
      ensures ok == Writable(parts) && wr == old(wr) + MessageOutput(sessionID, messageType, commit, parts)
      ensures ok ==> wr == old(wr) + MessageBytes(sessionID, messageType, commit, parts)
      ensures ok && Honest(parts) && WithinLimits(sessionID, messageType, parts)
              ==> RequestFramed(wr[|old(wr)|..], sessionID, messageType, commit, parts)
    {
      var bufferSize, out;
      ok, bufferSize, out := EncodeMessage(sessionID, messageType, commit, parts);
      wr := wr + out;
      assert wr[|old(wr)|..] == out;
      if ok && Honest(parts) && WithinLimits(sessionID, messageType, parts) {
        MessageFramed(out, sessionID, messageType, commit, parts);
      }
    }

    /** Write: as WriteMessage, and a failure is remembered. */
    method Write(messageType: int, commit: bool, parts: seq<Part>) returns (ok: bool)
      modifies this
      ensures hasError == (old(hasError) || !ok)
      ensures svSent == (old(svSent) || old(SendsClientInfo(messageType)))
      ensures ok == Writable(old(Sent(messageType, parts)))
      ensures wr == old(wr) + MessageOutput(old(sessionID), messageType, commit, old(Sent(messageType, parts)))
      ensures ok ==> wr == old(wr) + MessageBytes(old(sessionID), messageType, commit, old(Sent(messageType, parts)))
      ensures ok && Honest(old(Sent(messageType, parts)))
              && WithinLimits(old(sessionID), messageType, old(Sent(messageType, parts)))
              ==> RequestFramed(wr[|old(wr)|..], old(sessionID), messageType, commit, old(Sent(messageType, parts)))
      ensures sessionID == old(sessionID)
    {
      ok := WriteMessage(messageType, commit, parts);
      if !ok {
        hasError := true;
      }
    }
  }

  // ---------------------------------------------------------------- the message by its offsets

  /** The next multiple of eight. */
  function RoundUp(n: nat): (r: nat)
  {
    (n + 7) / 8 * 8
  }

  /** The offset of part i: headers of 32 and 24 bytes, then parts with headers of 16 bytes, on multiples of eight. */
  function PartOffset(parts: seq<Part>, i: nat): (n: nat)
    requires i <= |parts|
  {
    if i == 0 then 56 else RoundUp(PartOffset(parts, i - 1) + 16 + |parts[i - 1].body|)
  }

  /** Part p at the front of s: kind, number of arguments, length, the bytes up to the end of the message, the body. */
  ghost predicate PartFramed(s: seq<byte>, p: Part)
  {
    && |s| >= 16 + |p.body|
    && Int(s, 0, 1) == p.kind && Int(s, 1, 1) == 0
    && (if p.numArg <= 0x7fff then Int(s, 2, 2) == p.numArg && Int(s, 4, 4) == 0
        else Int(s, 2, 2) == -1 && Int(s, 4, 4) == p.numArg)
    && Int(s, 8, 4) == |p.body| && Int(s, 12, 4) == |s| && s[16..16 + |p.body|] == p.body
  }

  /**
    The bytes m of a request, by their offsets: both lengths in the message header and that of the
    segment count everything after the message header; there is one segment, of kind 1, at offset 0; and
    part i is at its offset.
   */
  ghost predicate RequestFramed(m: seq<byte>, sessionID: int, messageType: int, commit: bool, parts: seq<Part>)
  {
    && |m| == PartOffset(parts, |parts|) && |m| >= 56
    && Int(m, 0, 8) == sessionID && Int(m, 8, 4) == 0
    && Num(m, 12, 4) == |m| - 32 && Num(m, 16, 4) == |m| - 32 && Int(m, 20, 2) == 1
    && Int(m, 32, 4) == |m| - 32 && Int(m, 36, 4) == 0 && Int(m, 40, 2) == |parts| && Int(m, 42, 2) == 1
    && Int(m, 44, 1) == 1 && Int(m, 45, 1) == messageType && Int(m, 46, 1) == (if commit then 1 else 0)
    && Int(m, 47, 1) == 0
    && forall i :: 0 <= i < |parts| ==> PartOffset(parts, i) <= |m| && PartFramed(m[PartOffset(parts, i)..], parts[i])
  }

  lemma PadsUp(o: nat, n: nat)
    requires o % 8 == 0
    ensures RoundUp(o + 16 + n) == o + 16 + n + PadBytes(n) && RoundUp(o + 16 + n) % 8 == 0
  {
  }

  /** What is left of a segment from part i on. */
  ghost function From(parts: seq<Part>, i: nat): (s: seq<byte>)
    requires i <= |parts|
  {
    if i < |parts| then Ahead(parts, i, []) else []
  }

  /** Part i, as the bytes from its header on. */
  lemma {:induction false} FramedPart(parts: seq<Part>, i: nat, s: seq<byte>)
    requires i < |parts| && Honest(parts) && WithinLimits(0, 0, parts) && s == From(parts, i)
    ensures PartFramed(s, parts[i])
  {
    var p, bs, next := parts[i], Spans(parts[i..]), From(parts, i + 1);
    AheadPart(parts, i, [], p, bs, next);
    PartLimits(parts, i);
    FromLength(parts, i);
    NumArgRoundTrip(p.numArg, HeaderOf(p, bs));
    Headers.PartAt(s, HeaderOf(p, bs), p.body + (Zeroes(PadBytes(p.size)) + next));
    BodyAt(s, p.body, PadBytes(p.size), next);
  }

  /** Its header, body and padding have n bytes; its successor follows. */
  lemma {:induction false} FramedRest(parts: seq<Part>, i: nat, j: nat, s: seq<byte>, n: nat)
    requires i < |parts| && j == i + 1 && s == From(parts, i) && parts[i].size == |parts[i].body|
    requires n == 16 + |parts[i].body| + PadBytes(|parts[i].body|)
    ensures n <= |s| && s[n..] == From(parts, j)
  {
    var p, bs, next := parts[i], Spans(parts[i..]), From(parts, j);
    AheadPart(parts, i, [], p, bs, next);
    BehindBody(s, PartHeaderBytes(HeaderOf(p, bs)), p.body, PadBytes(p.size), next, n);
  }

  lemma BehindBody(s: seq<byte>, h: seq<byte>, body: seq<byte>, pad: nat, next: seq<byte>, n: nat)
    requires |h| == 16 && s == h + (body + (Zeroes(pad) + next)) && n == 16 + |body| + pad
    ensures n <= |s| && s[n..] == next
  {
    var rest := body + (Zeroes(pad) + next);
    assert (h + rest)[16..] == rest;
    BodyAt(s, body, pad, next);
  }

  lemma BodyAt(s: seq<byte>, body: seq<byte>, pad: nat, next: seq<byte>)
    requires |s| >= 16 && s[16..] == body + (Zeroes(pad) + next)
    ensures |s| == 16 + |body| + pad + |next| && s[16..16 + |body|] == body && s[16 + |body| + pad..] == next
  {
    assert s[16..][..|body|] == s[16..16 + |body|];
    assert s[16..][|body| + pad..] == s[16 + |body| + pad..];
    assert (body + (Zeroes(pad) + next))[|body| + pad..] == next;
  }

  lemma {:induction false} FromLength(parts: seq<Part>, i: nat)
    requires i < |parts| && Honest(parts)
    ensures |From(parts, i)| == Spans(parts[i..])
  {
    PartsLength(parts[i..], Spans(parts[i..]));
    assert PartsBytes(parts[i..], Spans(parts[i..])) + [] == PartsBytes(parts[i..], Spans(parts[i..]));
  }

  /** From offset o on the message m is part i and its successors. */
  ghost predicate StandsAt(m: seq<byte>, parts: seq<Part>, i: nat, o: nat)
  {
    i <= |parts| && o <= |m| && o % 8 == 0 && m[o..] == From(parts, i)
  }

  lemma {:induction false} FramedFrom(m: seq<byte>, parts: seq<Part>, i: nat)
    requires i <= |parts| && Honest(parts) && StandsAt(m, parts, 0, 56)
    ensures StandsAt(m, parts, i, PartOffset(parts, i))
  {
    if i > 0 {
      FramedFrom(m, parts, i - 1);
      NextOffset(parts, i - 1, i);
      FramedStep(m, parts, i - 1, i, PartOffset(parts, i - 1), PartOffset(parts, i), |parts[i - 1].body|);
    }
  }

  lemma {:induction false} NextOffset(parts: seq<Part>, i: nat, j: nat)
    requires i < |parts| && j == i + 1
    ensures PartOffset(parts, j) == RoundUp(PartOffset(parts, i) + 16 + |parts[i].body|)
  {
  }

  lemma {:induction false} FramedStep(m: seq<byte>, parts: seq<Part>, i: nat, j: nat, o: nat, next: nat, k: nat)
    requires StandsAt(m, parts, i, o) && i < |parts| && j == i + 1 && k == |parts[i].body| && parts[i].size == k
    requires next == RoundUp(o + 16 + k)
    ensures StandsAt(m, parts, j, next)
  {
    var n := 16 + k + PadBytes(k);
    PadsUp(o, k);
    FramedRest(parts, i, j, m[o..], n);
    Dropped(m, o, n, next);
  }

  lemma Dropped(m: seq<byte>, o: nat, n: nat, next: nat)
    requires o <= |m| && n <= |m| - o && next == o + n
    ensures m[o..][n..] == m[next..]
  {
  }

  lemma IntFrom(m: seq<byte>, a: nat, b: nat, k: nat, at: nat)
    requires at == a + b && at + k <= |m|
    ensures Int(m[a..], b, k) == Int(m, at, k)
  {
    assert m[a..][b..b + k] == m[at..at + k];
  }

  /** The fields of a segment header that follows a message header. */
  lemma {:induction false} RequestFrom(m: seq<byte>, h: SegmentHeader)
    requires |m| >= 56 && RequestFields(m[32..], h)
    ensures && Int(m, 32, 4) == h.segmentLength && Int(m, 36, 4) == h.segmentOfs && Int(m, 40, 2) == h.noOfParts
            && Int(m, 42, 2) == h.segmentNo && Int(m, 44, 1) == 1 && Int(m, 45, 1) == h.messageType
            && Int(m, 46, 1) == (if h.commit then 1 else 0) && Int(m, 47, 1) == h.commandOptions
  {
    IntFrom(m, 32, 0, 4, 32);
    IntFrom(m, 32, 4, 4, 36);
    IntFrom(m, 32, 8, 2, 40);
    IntFrom(m, 32, 10, 2, 42);
    IntFrom(m, 32, 12, 1, 44);
    IntFrom(m, 32, 13, 1, 45);
    IntFrom(m, 32, 14, 1, 46);
    IntFrom(m, 32, 15, 1, 47);
  }

  /** The headers of a message and the bytes behind them. */
  lemma {:induction false} HeadersAt(m: seq<byte>, mh: MessageHeader, sh: SegmentHeader, tail: seq<byte>)
    requires m == MessageHeaderBytes(mh) + (SegmentHeaderBytes(sh) + tail) && FitsMessage(mh) && FitsRequest(sh)
    ensures |m| >= 56 && MessageFields(m, mh) && RequestFields(m[32..], sh) && m[56..] == tail
  {
    MessageAt(m, mh, SegmentHeaderBytes(sh) + tail);
    RequestAt(m[32..], sh, tail);
    Dropped(m, 32, 24, 56);
  }

  /** A message of the writer within the limits has its fields at these offsets. */
  lemma {:induction false} MessageFramed(m: seq<byte>, sessionID: int, messageType: int, commit: bool,
                                         parts: seq<Part>)
    requires m == MessageBytes(sessionID, messageType, commit, parts)
    requires Honest(parts) && WithinLimits(sessionID, messageType, parts)
    ensures RequestFramed(m, sessionID, messageType, commit, parts)
  {
    var fr := Frame(sessionID, messageType, commit, parts, []);
    var size := TotalSize(parts);
    var mh, sh := MessageHeaderOf(sessionID, size), SegmentHeaderOf(messageType, commit, size, |parts|);
    MessageStart(fr);
    LimitsFit(fr);
    assert m + [] == m;
    HeadersAt(m, mh, sh, Ahead(parts, 0, []));
    RequestFrom(m, sh);
    MessageLength(sessionID, messageType, commit, parts);
    NothingAhead(parts);
    FramedFrom(m, parts, |parts|);
    AllFramed(m, parts);
  }

  lemma NothingAhead(parts: seq<Part>)
    ensures Ahead(parts, 0, []) == From(parts, 0)
  {
  }

  lemma {:induction false} AllFramed(m: seq<byte>, parts: seq<Part>)
    requires Honest(parts) && WithinLimits(0, 0, parts) && StandsAt(m, parts, 0, 56)
    ensures forall i :: 0 <= i < |parts| ==>
              PartOffset(parts, i) <= |m| && PartFramed(m[PartOffset(parts, i)..], parts[i])
  {
    forall i | 0 <= i < |parts|
      ensures PartOffset(parts, i) <= |m| && PartFramed(m[PartOffset(parts, i)..], parts[i])
    {
      FramedFrom(m, parts, i);
      FramedPart(parts, i, m[PartOffset(parts, i)..]);
    }
  }

  /** Execute direct (2), prepare (3) and execute (13) carry client info; errors (6) and row counts (12) stay inside. */
  lemma Numbers(n: int)
    ensures ClientInfoSupported(n) <==> n == 2 || n == 3 || n == 13
    ensures ForCallback(n) <==> n != 6 && n != 12
  {
  }

  // ---------------------------------------------------------------- Reader

  /** What is done with a part: skip it, let a decoder consume n bytes of it, or give up. */
  datatype Choice = SkipPart | Read(n: nat) | Abort

  /**
    The choice for the i-th part, given its kind: that of the callback, but for errors and row counts,
    which the reader keeps to itself, that of the reader.
   */
  type Callback = (nat, int) -> Choice

  /** What the callback or the reader gets to see of a part. */
  datatype Seen = Seen(kind: int, attrs: int, numArg: int, bufLen: int, bytes: Option<seq<byte>>)

  datatype Status = Fine | Failed | Panicked

  function View(p: Part, choice: Choice): (v: Seen)
  {
    Seen(p.kind, 0, p.numArg, p.size,
         if choice.Read? && choice.n <= |p.body| then Some(p.body[..choice.n]) else None)
  }

  function Views(parts: seq<Part>, choose: Callback): (vs: seq<Seen>)
  {
    seq(|parts|, i requires 0 <= i < |parts| => View(parts[i], choose(i, parts[i].kind)))
  }

  /** All, part or none of each part is read, and never more than there is. */
  ghost predicate Polite(parts: seq<Part>, choose: Callback)
  {
    forall i :: 0 <= i < |parts| ==> WithinPart(choose(i, parts[i].kind), parts[i])
  }

  /** The reader does not skip errors and row counts. */
  ghost predicate WithinPart(c: Choice, p: Part)
  {
    (c.SkipPart? && ForCallback(p.kind)) || (c.Read? && c.n <= |p.body|)
  }

  const PK_ERROR: int := 6
  const PK_ROWS_AFFECTED: int := 12

  /** The reader keeps errors and row counts to itself. */
  predicate ForCallback(kind: int)
  {
    kind != PK_ERROR && kind != PK_ROWS_AFFECTED
  }

  /** The limits of the header fields. */
  ghost predicate WithinLimits(sessionID: int, messageType: int, parts: seq<Part>)
  {
    && Int64(sessionID) && Int8(messageType) && |parts| <= MAX_INT16
    && TotalSize(parts) <= MAX_INT32
    && forall i :: 0 <= i < |parts| ==>
         Int8(parts[i].kind) && parts[i].numArg <= MAX_INT32
  }

  /** The header of a request, as the writer sends it. */
  ghost predicate FitsRequest(h: SegmentHeader)
  {
    FitsSegment(h) && h.segmentKind == SK_REQUEST
  }

  /** The body of a part, as the callback chooses; afterwards the whole buffer has been consumed. */
  method ReadBody(dec: Decoder, bufferLen: int, choice: Choice, ghost p: Part, ghost tail: seq<byte>)
      returns (st: Status, bytes: Option<seq<byte>>)
    modifies dec
    ensures !old(dec.err) && old(dec.rd) == p.body + tail && bufferLen == |p.body| && WithinPart(choice, p)
            ==> && st == Fine && bytes == View(p, choice).bytes
                && dec.rd == tail && dec.cnt == old(dec.cnt) + |p.body| && !dec.err
  {
    st, bytes := Fine, None;
    if bufferLen < 0 {
      return Panicked, None;
    }
    ghost var body := p.body;
    match choice
    case Abort =>
      return Failed, None;
    case SkipPart =>
      dec.Skip(bufferLen);
      assert (body + tail)[|body|..] == tail;
    case Read(n) =>
      var before := dec.cnt;
      var b := dec.ReadFull(n);
      bytes := Some(b);
      var cnt := dec.cnt - before;
      assert n <= |body| ==> (body + tail)[..n] == body[..n] && (body + tail)[n..] == body[n..] + tail;
      if cnt < bufferLen {
        dec.Skip(bufferLen - cnt);
        assert n <= |body| ==> (body[n..] + tail)[|body| - n..] == tail;
      } else if cnt > bufferLen {
        return Panicked, None;
      } else {
        assert n == |body| ==> body[n..] + tail == tail;
      }
  }

  lemma PartStart(p: Part, bufferSize: int, rest: seq<byte>)
    ensures PartBytes(p, bufferSize) + rest
            == PartHeaderBytes(HeaderOf(p, bufferSize)) + (p.body + (Zeroes(PadBytes(p.size)) + rest))
  {
    var h, z := PartHeaderBytes(HeaderOf(p, bufferSize)), Zeroes(PadBytes(p.size));
    Assoc(h, p.body + z, rest);
    Assoc(p.body, z, rest);
  }

  /** One part header and its body. */
  method ReadOnePart(dec: Decoder, i: nat, choose: Callback, ghost p: Part, ghost bufferSize: int,
                     ghost tail: seq<byte>)
      returns (st: Status, seen: Seen, size: int)
    modifies dec
    ensures !old(dec.err) && old(dec.rd) == PartHeaderBytes(HeaderOf(p, bufferSize)) + (p.body + tail)
            && p.size == |p.body| <= MAX_INT32 && Int8(p.kind) && p.numArg <= MAX_INT32 && Int32(bufferSize)
            && WithinPart(choose(i, p.kind), p)
            ==> && st == Fine && seen == View(p, choose(i, p.kind)) && size == p.size
                && dec.rd == tail && dec.cnt == old(dec.cnt) + PART_HEADER_SIZE + |p.body| && !dec.err
  {
    ghost var h0 := HeaderOf(p, bufferSize);
    if p.numArg <= MAX_INT32 { NumArgRoundTrip(p.numArg, h0); }
    var h := DecodePartHeader(dec, h0, p.body + tail);
    seen, size := Seen(h.partKind, h.partAttributes, h.NumArg(), h.bufferLength, None), h.bufferLength;
    if dec.err {
      return Failed, seen, size;
    }
    var bytes;
    st, bytes := ReadBody(dec, h.bufferLength, choose(i, h.partKind), p, tail);
    seen := seen.(bytes := bytes);
  }

  /** The bytes in front of part j of a segment: its parts, or the padding of the last one. */
  ghost function Ahead(parts: seq<Part>, j: nat, rest: seq<byte>): (s: seq<byte>)
    requires j <= |parts|
  {
    if j < |parts| then PartsBytes(parts[j..], Spans(parts[j..])) + rest
    else if j == 0 then rest
    else Zeroes(PadBytes(parts[j - 1].size)) + rest
  }

  /** Bytes of the segment consumed in front of part j. */
  ghost function Behind(parts: seq<Part>, j: nat): (n: int)
    requires j <= |parts|
  {
    Spans(parts[..j]) - (if j < |parts| || j == 0 then 0 else PadBytes(parts[j - 1].size))
  }

  /** What follows the padding of part j. */
  ghost function After(parts: seq<Part>, j: nat, rest: seq<byte>): (s: seq<byte>)
    requires j < |parts|
  {
    if j + 1 < |parts| then Ahead(parts, j + 1, rest) else rest
  }

  lemma AheadPart(parts: seq<Part>, j: nat, rest: seq<byte>, p: Part, bs: int, next: seq<byte>)
    requires j < |parts| && p == parts[j] && bs == Spans(parts[j..]) && next == After(parts, j, rest)
    ensures Ahead(parts, j, rest) == PartHeaderBytes(HeaderOf(p, bs)) + (p.body + (Zeroes(PadBytes(p.size)) + next))
  {
    var ps, left := parts[j..], bs - Span(p);
    assert ps[0] == p && ps[1..] == parts[j + 1..];
    var tail := PartsBytes(ps[1..], left);
    assert PartsBytes(ps, bs) == PartBytes(p, bs) + tail;
    TailBytes(parts, j, rest, tail, next, left);
    Assoc(PartBytes(p, bs), tail, rest);
    PartStart(p, bs, next);
  }

  lemma TailBytes(parts: seq<Part>, j: nat, rest: seq<byte>, tail: seq<byte>, next: seq<byte>, left: int)
    requires j < |parts| && next == After(parts, j, rest)
    requires left == Spans(parts[j..]) - Span(parts[j]) && tail == PartsBytes(parts[j + 1..], left)
    ensures tail + rest == next
  {
    assert parts[j..][0] == parts[j] && parts[j..][1..] == parts[j + 1..];
    if j + 1 == |parts| {
      assert tail == [];
    }
  }

  lemma {:induction false} SpansSplit(parts: seq<Part>, j: nat)
    requires j <= |parts|
    ensures Spans(parts) == Spans(parts[..j]) + Spans(parts[j..])
    decreases j
  {
    if j == 0 {
      assert parts[0..] == parts && parts[..0] == [];
    } else {
      SpansSplit(parts[1..], j - 1);
      assert parts[..j][1..] == parts[1..][..j - 1] && parts[1..][j - 1..] == parts[j..];
    }
  }

  /** The stream stands in front of part j of a well-formed segment. */
  ghost predicate AtPart(dec: Decoder, parts: seq<Part>, j: nat, rest: seq<byte>)
    reads dec
  {
    j <= |parts| && !dec.err && dec.rd == Ahead(parts, j, rest)
  }

  ghost predicate Readable(parts: seq<Part>, choose: Callback)
  {
    Honest(parts) && WithinLimits(0, 0, parts) && Polite(parts, choose)
  }

  /** Part j and, unless it is the last one, its padding. */
  method ReadPartAt(dec: Decoder, j: nat, numPart: int, first: nat, choose: Callback,
                    ghost parts: seq<Part>, ghost rest: seq<byte>)
      returns (st: Status, one: Seen, read: int)
    modifies dec
    ensures old(AtPart(dec, parts, j, rest)) && first == 0 && j < numPart == |parts| && Readable(parts, choose)
            ==> && st == Fine && one == View(parts[j], choose(j, parts[j].kind))
                && AtPart(dec, parts, j + 1, rest)
                && read == Behind(parts, j + 1) - Behind(parts, j) && dec.cnt == old(dec.cnt) + read
  {
    ghost var p, bs, next := Part(0, 0, 0, [], true), 0, [];
    if AtPart(dec, parts, j, rest) && j < |parts| && Readable(parts, choose) {
      p, bs := parts[j], Spans(parts[j..]);
      next := Zeroes(PadBytes(p.size)) + After(parts, j, rest);
      AheadPart(parts, j, rest, p, bs, After(parts, j, rest));
      PartLimits(parts, j);
      SpansStep(parts, j);
    }
    var before := dec.cnt;
    var size;
    st, one, size := ReadOnePart(dec, first + j, choose, p, bs, next);
    read := dec.cnt - before;
    if st != Fine {
      return;
    }
    if size < 0 {
      return Panicked, one, read;
    }
    if j != numPart - 1 {
      var pad := PadBytes(size);
      dec.Skip(pad);
      read := read + pad;
    }
  }

  /** Parts before j have been shown and consumed. */
  ghost predicate Progress(dec: Decoder, parts: seq<Part>, choose: Callback, rest: seq<byte>, j: nat,
                           seen: seq<Seen>, numRead: int, start: nat)
    reads dec
  {
    && AtPart(dec, parts, j, rest)
    && numRead == Behind(parts, j) && dec.cnt == start + numRead
    && seen == Views(parts, choose)[..j]
  }

  lemma ProgressAtStart(dec: Decoder, parts: seq<Part>, choose: Callback, rest: seq<byte>)
    requires AtPart(dec, parts, 0, rest)
    ensures Progress(dec, parts, choose, rest, 0, [], 0, dec.cnt)
  {
  }

  method StepPart(dec: Decoder, j: nat, numPart: int, first: nat, choose: Callback, seen: seq<Seen>, numRead: int,
                  ghost parts: seq<Part>, ghost rest: seq<byte>, ghost start: nat)
      returns (st: Status, seen': seq<Seen>, numRead': int)
    modifies dec
    ensures first == 0 && j < numPart == |parts| && Readable(parts, choose)
            && old(Progress(dec, parts, choose, rest, j, seen, numRead, start))
            ==> st == Fine && Progress(dec, parts, choose, rest, j + 1, seen', numRead', start)
  {
    var one, read;
    st, one, read := ReadPartAt(dec, j, numPart, first, choose, parts, rest);
    seen', numRead' := seen + [one], numRead + read;
    if j < |parts| { NextView(parts, choose, j); }
  }

  /** The parts of one segment; the padding of the last part is left to the message. */
  method ReadParts(dec: Decoder, numPart: int, first: nat, choose: Callback, ghost parts: seq<Part>,
                   ghost rest: seq<byte>)
      returns (st: Status, seen: seq<Seen>, numRead: int)
    modifies dec
    ensures old(AtPart(dec, parts, 0, rest)) && first == 0 && numPart == |parts| && Readable(parts, choose)
            ==> st == Fine && Progress(dec, parts, choose, rest, |parts|, seen, numRead, old(dec.cnt))
  {
    st, seen, numRead := Fine, [], 0;
    ghost var good := AtPart(dec, parts, 0, rest) && first == 0 && numPart == |parts| && Readable(parts, choose);
    if good { ProgressAtStart(dec, parts, choose, rest); }
    var j := 0;
    while j < numPart
      invariant 0 <= j && st == Fine && (good ==> j <= numPart)
      invariant good ==> Progress(dec, parts, choose, rest, j, seen, numRead, old(dec.cnt))
    {
      st, seen, numRead := StepPart(dec, j, numPart, first, choose, seen, numRead, parts, rest, old(dec.cnt));
      if st != Fine {
        return;
      }
      j := j + 1;
    }
  }

  lemma NextView(parts: seq<Part>, choose: Callback, j: nat)
    requires j < |parts|
    ensures Views(parts, choose)[..j + 1] == Views(parts, choose)[..j] + [View(parts[j], choose(j, parts[j].kind))]
    ensures j + 1 == |parts| ==> Views(parts, choose)[..j + 1] == Views(parts, choose)
  {
  }

  lemma PartLimits(parts: seq<Part>, j: nat)
    requires j < |parts| && Honest(parts) && WithinLimits(0, 0, parts)
    ensures parts[j].size == |parts[j].body| <= MAX_INT32 && 0 <= Spans(parts[j..]) <= MAX_INT32
  {
    SpansSplit(parts, j);
    assert parts[j..][0] == parts[j];
  }

  lemma SpansStep(parts: seq<Part>, j: nat)
    requires j < |parts|
    ensures Spans(parts[..j + 1]) == Spans(parts[..j]) + Span(parts[j])
  {
    EmitNext((_, _) => [], parts, j, Spans(parts[..j]), 0);
  }

  /** The headers of all segments and their parts. */
  method ReadSegments(dec: Decoder, noOfSegm: int, choose: Callback, ghost sh0: SegmentHeader,
                      ghost parts: seq<Part>, ghost rest: seq<byte>)
      returns (st: Status, seen: seq<Seen>, numRead: int, sh: SegmentHeader)
    modifies dec
    ensures !old(dec.err) && noOfSegm == 1 && old(dec.rd) == SegmentHeaderBytes(sh0) + Ahead(parts, 0, rest)
            && FitsRequest(sh0) && sh0.noOfParts == |parts| && Readable(parts, choose)
            ==> && st == Fine && seen == Views(parts, choose) && numRead == SEGMENT_HEADER_SIZE + Behind(parts, |parts|)
                && AtPart(dec, parts, |parts|, rest) && dec.cnt == old(dec.cnt) + numRead
                && sh == sh0.(functionCode := sh.functionCode)
  {
    st, seen, numRead := Fine, [], 0;
    sh := SegmentHeader(0, 0, 0, 0, 0, 0, false, 0, 0);
    ghost var good := !dec.err && noOfSegm == 1 && dec.rd == SegmentHeaderBytes(sh0) + Ahead(parts, 0, rest)
                      && FitsRequest(sh0) && sh0.noOfParts == |parts| && Readable(parts, choose);
    var i := 0;
    while i < noOfSegm
      invariant 0 <= i && st == Fine
      invariant i == 0 ==>
                  && dec.rd == old(dec.rd) && dec.cnt == old(dec.cnt) && dec.err == old(dec.err)
                  && seen == [] && numRead == 0
      invariant good && i >= 1 ==> i == 1 && SegmentRead(dec, sh0, parts, choose, rest, seen, numRead, sh, old(dec.cnt))
    {
      st, seen, numRead, sh := NextSegment(dec, sh, seen, numRead, choose, sh0, parts, rest);
      if st != Fine {
        return;
      }
      i := i + 1;
    }
  }

  /** The segment has been read and its parts shown. */
  ghost predicate SegmentRead(dec: Decoder, sh0: SegmentHeader, parts: seq<Part>, choose: Callback, rest: seq<byte>,
                              seen: seq<Seen>, numRead: int, sh: SegmentHeader, start: nat)
    reads dec
  {
    && seen == Views(parts, choose) && numRead == SEGMENT_HEADER_SIZE + Behind(parts, |parts|)
    && AtPart(dec, parts, |parts|, rest) && dec.cnt == start + numRead
    && sh == sh0.(functionCode := sh.functionCode)
  }

  /** A further segment. */
  method NextSegment(dec: Decoder, prev: SegmentHeader, seen0: seq<Seen>, numRead0: int, choose: Callback,
                     ghost sh0: SegmentHeader, ghost parts: seq<Part>, ghost rest: seq<byte>)
      returns (st: Status, seen: seq<Seen>, numRead: int, sh: SegmentHeader)
    modifies dec
    ensures !old(dec.err) && seen0 == [] && numRead0 == 0
            && old(dec.rd) == SegmentHeaderBytes(sh0) + Ahead(parts, 0, rest)
            && FitsRequest(sh0) && sh0.noOfParts == |parts| && Readable(parts, choose)
            ==> st == Fine && SegmentRead(dec, sh0, parts, choose, rest, seen, numRead, sh, old(dec.cnt))
  {
    var more, read;
    st, more, read, sh := ReadSegment(dec, prev, |seen0|, choose, sh0, parts, rest);
    assert [] + more == more;
    seen, numRead := seen0 + more, numRead0 + read;
  }

  /** One segment header and its parts. */
  method ReadSegment(dec: Decoder, prev: SegmentHeader, first: nat, choose: Callback, ghost sh0: SegmentHeader,
                     ghost parts: seq<Part>, ghost rest: seq<byte>)
      returns (st: Status, seen: seq<Seen>, numRead: int, sh: SegmentHeader)
    modifies dec
    ensures !old(dec.err) && first == 0 && old(dec.rd) == SegmentHeaderBytes(sh0) + Ahead(parts, 0, rest)
            && FitsRequest(sh0) && sh0.noOfParts == |parts| && Readable(parts, choose)
            ==> && st == Fine && seen == Views(parts, choose) && numRead == SEGMENT_HEADER_SIZE + Behind(parts, |parts|)
                && AtPart(dec, parts, |parts|, rest) && dec.cnt == old(dec.cnt) + numRead
                && sh == sh0.(functionCode := sh.functionCode)
  {
    ghost var good := !dec.err && first == 0 && dec.rd == SegmentHeaderBytes(sh0) + Ahead(parts, 0, rest)
                      && FitsRequest(sh0) && sh0.noOfParts == |parts| && Readable(parts, choose);
    seen, numRead := [], 0;
    sh := DecodeSegmentHeader(dec, prev, sh0, Ahead(parts, 0, rest));
    assert good ==> && AtPart(dec, parts, 0, rest) && sh.noOfParts == |parts|
                    && dec.cnt == old(dec.cnt) + SEGMENT_HEADER_SIZE;
    if dec.err {
      return Failed, seen, numRead, sh;
    }
    var read;
    st, seen, read := ReadParts(dec, sh.noOfParts, first, choose, parts, rest);
    numRead := SEGMENT_HEADER_SIZE + read;
    if good {
      assert Views(parts, choose)[..|parts|] == Views(parts, choose);
    }
  }

  /** A message of the writer in front of further bytes. */
  datatype Frame = Frame(sessionID: int, messageType: int, commit: bool, parts: seq<Part>, rest: seq<byte>)

  /**
    IterateParts. On a message of the writer every part is shown, to the callback or to the reader
    itself; exactly the message is consumed and the following bytes are left, whatever is read of each
    part.
   */
  method IterateParts(dec: Decoder, choose: Callback, ghost fr: Frame)
      returns (st: Status, seen: seq<Seen>, sh: SegmentHeader)
    modifies dec
    ensures !old(dec.err) && old(dec.rd) == MessageBytes(fr.sessionID, fr.messageType, fr.commit, fr.parts) + fr.rest
            && Honest(fr.parts) && WithinLimits(fr.sessionID, fr.messageType, fr.parts) && Polite(fr.parts, choose)
            ==> && st == Fine && seen == Views(fr.parts, choose) && dec.rd == fr.rest && !dec.err
                && dec.cnt == old(dec.cnt) + MESSAGE_HEADER_SIZE + TotalSize(fr.parts)
                && sh.messageType == fr.messageType && sh.commit == fr.commit
  {
    MessageStart(fr);
    LimitsFit(fr);
    ghost var size := TotalSize(fr.parts);
    st, seen, sh := IterateFrom(dec, choose, MessageHeaderOf(fr.sessionID, size),
                                SegmentHeaderOf(fr.messageType, fr.commit, size, |fr.parts|), fr.parts, fr.rest);
  }

  lemma LimitsFit(fr: Frame)
    ensures WithinLimits(fr.sessionID, fr.messageType, fr.parts) ==>
              var size := TotalSize(fr.parts);
              && FitsMessage(MessageHeaderOf(fr.sessionID, size))
              && FitsRequest(SegmentHeaderOf(fr.messageType, fr.commit, size, |fr.parts|))
              && WithinLimits(0, 0, fr.parts)
  {
  }

  /** The message header, the segments and the padding at the end. */
  method IterateFrom(dec: Decoder, choose: Callback, ghost mh0: MessageHeader, ghost sh0: SegmentHeader,
                     ghost parts: seq<Part>, ghost rest: seq<byte>)
      returns (st: Status, seen: seq<Seen>, sh: SegmentHeader)
    modifies dec
    ensures !old(dec.err) && old(dec.rd) == MessageHeaderBytes(mh0) + (SegmentHeaderBytes(sh0) + Ahead(parts, 0, rest))
            && FitsMessage(mh0) && FitsRequest(sh0) && mh0.noOfSegm == 1 && sh0.noOfParts == |parts|
            && mh0.varPartLength == TotalSize(parts) && Readable(parts, choose)
            ==> && st == Fine && seen == Views(parts, choose) && dec.rd == rest && !dec.err
                && dec.cnt == old(dec.cnt) + MESSAGE_HEADER_SIZE + mh0.varPartLength
                && sh.messageType == sh0.messageType && sh.commit == sh0.commit
  {
    ghost var good := !dec.err && dec.rd == MessageHeaderBytes(mh0) + (SegmentHeaderBytes(sh0) + Ahead(parts, 0, rest))
                      && FitsMessage(mh0) && FitsRequest(sh0) && mh0.noOfSegm == 1 && sh0.noOfParts == |parts|
                      && mh0.varPartLength == TotalSize(parts) && Readable(parts, choose);
    seen, sh := [], SegmentHeader(0, 0, 0, 0, 0, 0, false, 0, 0);
    var mh := DecodeMessageHeader(dec, mh0, SegmentHeaderBytes(sh0) + Ahead(parts, 0, rest));
    assert good ==> !dec.err && mh == mh0 && dec.rd == SegmentHeaderBytes(sh0) + Ahead(parts, 0, rest)
                    && dec.cnt == old(dec.cnt) + MESSAGE_HEADER_SIZE;
    if dec.err {
      return Failed, seen, sh;
    }
    var numRead;
    st, seen, numRead, sh := ReadSegments(dec, mh.noOfSegm, choose, sh0, parts, rest);
    assert good ==> && st == Fine && numRead == SEGMENT_HEADER_SIZE + Behind(parts, |parts|)
                    && AtPart(dec, parts, |parts|, rest) && dec.cnt == old(dec.cnt) + MESSAGE_HEADER_SIZE + numRead;
    if st != Fine {
      return;
    }
    st := SkipPaddingLastPart(dec, mh.varPartLength - numRead, parts, rest);
  }

  /** skipPaddingLastPart: what the message announces and the parts did not take. */
  method SkipPaddingLastPart(dec: Decoder, pad: int, ghost parts: seq<Part>, ghost rest: seq<byte>) returns (st: Status)
    modifies dec
    ensures old(AtPart(dec, parts, |parts|, rest)) && pad == Spans(parts) - Behind(parts, |parts|)
            ==> st == Fine && dec.rd == rest && !dec.err && dec.cnt == old(dec.cnt) + pad
  {
    EndOfParts(parts, rest);
    if pad < 0 {
      return Panicked;
    } else if pad > 0 {
      dec.Skip(pad);
    }
    st := if dec.err then Failed else Fine;
  }

  lemma MessageStart(fr: Frame)
    ensures var size := TotalSize(fr.parts);
            MessageBytes(fr.sessionID, fr.messageType, fr.commit, fr.parts) + fr.rest
            == MessageHeaderBytes(MessageHeaderOf(fr.sessionID, size))
               + (SegmentHeaderBytes(SegmentHeaderOf(fr.messageType, fr.commit, size, |fr.parts|))
                  + Ahead(fr.parts, 0, fr.rest))
  {
    var size := TotalSize(fr.parts);
    AheadOfAll(fr.parts, fr.rest);
    Regroup(MessageHeaderBytes(MessageHeaderOf(fr.sessionID, size)),
            SegmentHeaderBytes(SegmentHeaderOf(fr.messageType, fr.commit, size, |fr.parts|)),
            PartsBytes(fr.parts, Spans(fr.parts)), fr.rest);
  }

  lemma {:induction false} AheadOfAll(parts: seq<Part>, rest: seq<byte>)
    ensures Ahead(parts, 0, rest) == PartsBytes(parts, Spans(parts)) + rest
  {
    assert parts[0..] == parts;
    if |parts| == 0 {
      assert PartsBytes(parts, 0) == [] && [] + rest == rest;
    }
  }

  lemma Regroup(a: seq<byte>, b: seq<byte>, c: seq<byte>, d: seq<byte>)
    ensures (a + (b + c)) + d == a + (b + (c + d))
  {
    Assoc(a, b + c, d);
    Assoc(b, c, d);
  }

  lemma {:induction false} EndOfParts(parts: seq<Part>, rest: seq<byte>)
    ensures var pad := Spans(parts) - Behind(parts, |parts|);
            0 <= pad < 8 && |Ahead(parts, |parts|, rest)| >= pad && Ahead(parts, |parts|, rest)[pad..] == rest
  {
    assert parts[..|parts|] == parts;
    if |parts| > 0 {
      var z := Zeroes(PadBytes(parts[|parts| - 1].size));
      assert (z + rest)[|z|..] == rest;
    }
  }
}
