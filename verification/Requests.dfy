/**
  The request that executes a statement (driver/session.go exec): its input parameters as a part of a
  message (driver/internal/protocol/parameter.go), written by the writer and walked by the reader
  (driver/internal/protocol/protocol.go).
 */
module Requests {
  import opened Bytes
  import opened Cesu8Text
  import opened Headers
  import opened Fields
  import opened Parameters
  import Framing

  const PK_PARAMETERS: int := 32

  /** The layout of the body of an input parameter part. */
  ghost predicate Laid(fields: seq<ParameterField>, nvargs: seq<Prm>, views: Views, heads: seq<seq<seq<byte>>>,
                       body: seq<byte>)
  {
    |fields| > 0 ==>
      var grid := Grid(nvargs, |fields|);
      && TypedGrid(fields, grid) && views.Keys == Descrs(grid)
      && ParametersLaid(fields, grid, views, body, heads)
      && (HasInLob(fields) ==> LobsLaid(fields, grid, views, body))
  }

  ghost predicate AllEncodable(fields: seq<ParameterField>, nvargs: seq<Prm>)
    requires |fields| > 0 ==> TypedGrid(fields, Grid(nvargs, |fields|))
  {
    |fields| > 0 ==> GridEncodable(fields, Grid(nvargs, |fields|))
  }

  /**
    The input parameters as a part. It encodes exactly when every argument can be encoded; it then keeps
    to the size it announces and its bytes have the layout of the two passes.
   */
  method ParameterPart(fields: seq<ParameterField>, nvargs: seq<Prm>)
      returns (p: Framing.Part, ghost views: Views, ghost heads: seq<seq<seq<byte>>>)
    requires |fields| > 0 ==> TypedGrid(fields, Grid(nvargs, |fields|))
    modifies (if |fields| > 0 then Descrs(Grid(nvargs, |fields|)) else {})`pos
    ensures p.kind == 32 && p.numArg == (if |fields| > 0 then |Grid(nvargs, |fields|)| else 0)
    ensures p.encodes <==> AllEncodable(fields, nvargs)
    ensures p.encodes ==> Framing.Honest([p]) && Laid(fields, nvargs, views, heads, p.body)
  {
    var enc := new Encoder(4096);
    var size, ok;
    ghost var part;
    size, ok, part, heads, views := WritePart(enc, fields, nvargs);
    var numArg := 0;
    if |fields| > 0 {
      numArg := NumRows(nvargs, |fields|, Grid(nvargs, |fields|));
    }
    if ok {
      assert [] + part == part;
    }
    p := Framing.Part(PK_PARAMETERS, numArg, size, enc.wr, ok);
  }

  lemma HonestRequest(others: seq<Framing.Part>, p: Framing.Part)
    requires Framing.Honest(others) && Framing.Honest([p])
    ensures Framing.Honest(others + [p])
  {
    assert [p][0] == p;
  }

  /**
    A request from its arguments to the reader on the other side. When every argument can be encoded and
    the limits are kept, the message is written and read back: each part is shown as it was sent, the last
    one with the parameters at their offsets, and the bytes behind the message are left.
   */
  method SendAndRead(fields: seq<ParameterField>, nvargs: seq<Prm>, others: seq<Framing.Part>, sessionID: int,
                     messageType: int, commit: bool, choose: Framing.Callback, rest: seq<byte>)
      returns (ok: bool, st: Framing.Status, seen: seq<Framing.Seen>, left: seq<byte>, p: Framing.Part,
               ghost views: Views, ghost heads: seq<seq<seq<byte>>>)
    requires |fields| > 0 ==> TypedGrid(fields, Grid(nvargs, |fields|))
    requires Framing.Honest(others)
    modifies (if |fields| > 0 then Descrs(Grid(nvargs, |fields|)) else {})`pos
    ensures ok == Framing.Writable(others + [p]) && (p.encodes <==> AllEncodable(fields, nvargs))
    ensures p.encodes ==> Laid(fields, nvargs, views, heads, p.body)
    ensures ok && Framing.WithinLimits(sessionID, messageType, others + [p]) && Framing.Polite(others + [p], choose)
            ==> st == Framing.Fine && seen == Framing.Views(others + [p], choose) && left == rest
  {
    p, views, heads := ParameterPart(fields, nvargs);
    var bytes;
    ok, bytes := Written(others + [p], sessionID, messageType, commit);
    st, seen, left := Framing.Failed, [], [];
    if ok {
      assert p.encodes by { assert Framing.Sendable((others + [p])[|others|]); }
      HonestRequest(others, p);
      st, seen, left := ReadBack(others + [p], sessionID, messageType, commit, choose, bytes, rest);
    }
  }

  /** A message of a new writer. */
  method Written(parts: seq<Framing.Part>, sessionID: int, messageType: int, commit: bool)
      returns (ok: bool, bytes: seq<byte>)
    ensures ok == Framing.Writable(parts)
    ensures ok ==> bytes == Framing.MessageBytes(sessionID, messageType, commit, parts)
  {
    var w := new Framing.Writer(None, sessionID);
    ok := w.Write(messageType, commit, parts);
    bytes := w.wr;
    if ok {
      NothingInFront(Framing.MessageBytes(sessionID, messageType, commit, parts));
    }
  }

  lemma NothingInFront(s: seq<byte>)
    ensures [] + s == s
  {
  }

  method ReadBack(parts: seq<Framing.Part>, sessionID: int, messageType: int, commit: bool, choose: Framing.Callback,
                  bytes: seq<byte>, rest: seq<byte>)
      returns (st: Framing.Status, seen: seq<Framing.Seen>, left: seq<byte>)
    requires Framing.Honest(parts) && bytes == Framing.MessageBytes(sessionID, messageType, commit, parts)
    ensures Framing.WithinLimits(sessionID, messageType, parts) && Framing.Polite(parts, choose)
            ==> st == Framing.Fine && seen == Framing.Views(parts, choose) && left == rest
  {
    var dec := new Decoder(bytes + rest);
    var sh;
    st, seen, sh := Framing.IterateParts(dec, choose, Framing.Frame(sessionID, messageType, commit, parts, rest));
    left := dec.rd;
  }
}
