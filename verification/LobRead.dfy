/**
  Reading a LOB (driver/internal/protocol/lob.go, driver/session.go): the first chunk comes with the
  result row, further chunks are requested by offset until one is flagged as last. Character LOBs
  are counted in UTF-16 code units, arrive as CESU-8 that may be cut inside a surrogate pair, and
  are decoded in place.
 */
module LobRead {
  import opened Bytes
  import opened Utf8
  import opened Cesu8
  import opened Cesu8Text

  // ---------------------------------------------------------------- the stored LOB and its server

  datatype Lob = Chars(text: Text) | Binary(data: seq<byte>) {
    /** Length in the unit the server counts in: code units or bytes. */
    function Length(): (n: nat)
    {
      match this
      case Chars(t) => |Utf16Of(t)|
      case Binary(d) => |d|
    }

    /** The bytes the server sends for `n` units from offset `ofs`. */
    function Chunk(ofs: nat, n: nat): (s: seq<byte>)
      requires ofs + n <= Length()
    {
      match this
      case Chars(t) => UnitsBytes(Utf16Of(t)[ofs..ofs + n])
      case Binary(d) => d[ofs..ofs + n]
    }

    /** What the reader is to receive. */
    function Content(): (s: seq<byte>)
    {
      match this
      case Chars(t) => Utf8Of(t)
      case Binary(d) => d
    }

    /** The least number of units a reply that is not the last one may hold. */
    function MinUnits(): (n: nat)
    {
      if Chars? then 2 else 1
    }

    /** `(bytes, last)` is a possible reply for offset `ofs`: at least `min` units, or the tail. */
    ghost predicate Reply(ofs: nat, bytes: seq<byte>, last: bool, min: nat)
    {
      exists n: nat :: ofs + n <= Length() && bytes == Chunk(ofs, n)
                       && (if last then ofs + n == Length() else n >= min)
    }
  }

  /** A server: the reply to the request for 1-based position `pos` in round `i`. */
  type Server = (nat, nat) -> (seq<byte>, bool)

  ghost predicate Serves(srv: Server, lob: Lob)
  {
    forall pos: nat, i: nat :: 1 <= pos <= lob.Length() + 1 ==>
      lob.Reply(pos - 1, srv(pos, i).0, srv(pos, i).1, lob.MinUnits())
  }

  // ---------------------------------------------------------------- counting characters

  /** Runes of a UTF-8 string, those outside the basic plane counted twice. */
  function CharCount(p: seq<byte>): (n: nat)
  {
    if |p| == 0 then 0
    else (if RuneLen(DecodeRune(p).0) == 4 then 2 else 1) + CharCount(p[DecodeRune(p).1..])
  }

  method CountChars(p: seq<byte>) returns (numChar: nat)
    ensures numChar == CharCount(p)
  {
    numChar := 0;
    var q := p;
    while |q| > 0
      invariant numChar + CharCount(q) == CharCount(p)
      decreases |q|
    {
      var (r, n) := DecodeRune(q);
      numChar := numChar + 1;
      if RuneLen(r) == 4 {
        numChar := numChar + 1;
      }
      q := q[n..];
    }
  }

  lemma {:induction false} CharCountStep(r: Scalar, rest: seq<byte>)
    ensures CharCount(RuneBytes(r) + rest) == |RuneUnits(r)| + CharCount(rest)
  {
    DecodeEncoded(r, rest);
    var p := RuneBytes(r) + rest;
    assert p[|RuneBytes(r)|..] == rest;
  }

  /** The count is the number of UTF-16 code units, the server's unit. */
  lemma {:induction false} CharCountIsUnits(t: Text)
    ensures CharCount(Utf8Of(t)) == |Utf16Of(t)|
  {
    if |t| != 0 {
      CharCountIsUnits(t[1..]);
      CharCountStep(t[0], Utf8Of(t[1..]));
    }
  }

  // ---------------------------------------------------------------- one chunk

  /** Reading `n` units from the boundary of the k-th rune completes the runes up to this one. */
  function NextRune(t: Text, k: nat, n: nat): (k': nat)
    requires k <= |t|
    ensures k <= k' <= |t|
  {
    k + WholeRunes(t[k..], n)
  }

  lemma {:induction false} ChunkOfSuffix(t: Text, k: nat, n: nat)
    requires k <= |t| && |Utf16Of(t[..k])| + n <= |Utf16Of(t)|
    ensures |Utf16Of(t)| == |Utf16Of(t[..k])| + |Utf16Of(t[k..])|
    ensures Chars(t).Chunk(|Utf16Of(t[..k])|, n) == UnitsBytes(Utf16Of(t[k..])[..n])
  {
    assert t[..k] + t[k..] == t;
    Utf16Concat(t[..k], t[k..]);
    SliceOfConcat(Utf16Of(t[..k]), Utf16Of(t[k..]), n);
  }

  lemma SliceOfConcat(a: seq<Unit>, b: seq<Unit>, n: nat)
    requires n <= |b|
    ensures (a + b)[|a|..|a| + n] == b[..n]
  {
  }

  lemma ExtendByRunes(t: Text, k: nat, m: nat, to: nat)
    requires to == k + m <= |t|
    ensures var read := Utf8Of(t[k..][..m]);
            && Utf8Of(t[..k]) + read == Utf8Of(t[..to])
            && |Utf16Of(t[..k])| + CharCount(read) == |Utf16Of(t[..to])|
  {
    var read := t[k..][..m];
    assert t[..k] + read == t[..to];
    Utf8Concat(t[..k], read);
    Utf16Concat(t[..k], read);
    CharCountIsUnits(read);
  }

  lemma {:induction false} CharChunk(f: Stepper, t: Text, k: nat, n: nat)
    requires DecodesRunes(f) && k <= |t| && |Utf16Of(t[..k])| + n <= |Utf16Of(t)|
    ensures var ofs, k' := |Utf16Of(t[..k])|, NextRune(t, k, n);
            var o := RunFull(f, Chars(t).Chunk(ofs, n));
            && o.status != BadInput
            && Utf8Of(t[..k]) + o.out == Utf8Of(t[..k'])
            && ofs + CharCount(o.out) == |Utf16Of(t[..k'])|
            && (n >= 2 ==> k' > k)
            && (ofs + n == |Utf16Of(t)| ==> k' == |t|)
  {
    ChunkOfSuffix(t, k, n);
    DecodeCutWith(f, t[k..], n);
    CutProgress(t, k, n, RunFull(f, Chars(t).Chunk(|Utf16Of(t[..k])|, n)));
  }

  lemma {:induction false} CutProgress(t: Text, k: nat, n: nat, o: Outcome)
    requires k <= |t| && n <= |Utf16Of(t[k..])| && o == CutOutcome(t[k..], n)
    requires |Utf16Of(t)| == |Utf16Of(t[..k])| + |Utf16Of(t[k..])|
    ensures var ofs, k' := |Utf16Of(t[..k])|, NextRune(t, k, n);
            && o.status != BadInput
            && Utf8Of(t[..k]) + o.out == Utf8Of(t[..k'])
            && ofs + CharCount(o.out) == |Utf16Of(t[..k'])|
            && (n >= 2 ==> k' > k)
            && (ofs + n == |Utf16Of(t)| ==> k' == |t|)
  {
    WholeRunesIsLongest(t[k..], n);
    ExtendByRunes(t, k, WholeRunes(t[k..], n), NextRune(t, k, n));
  }

  /** A reply of one code unit makes progress exactly when that unit is no half of a pair. */
  lemma OneUnitProgress(t: Text, k: nat)
    requires k < |t|
    ensures NextRune(t, k, 1) > k <==> t[k] < 0x10000
  {
    assert t[k..][0] == t[k];
  }

  // ---------------------------------------------------------------- lobOutDescr

  /** How far a LOB has been delivered: `wr` holds the content up to offset `ofs`, a rune boundary. */
  ghost predicate Delivered(lob: Lob, k: nat, ofs: nat, wr: seq<byte>)
  {
    match lob
    case Chars(t) => k <= |t| && ofs == |Utf16Of(t[..k])| && wr == Utf8Of(t[..k])
    case Binary(d) => k == ofs <= |d| && wr == d[..ofs]
  }

  lemma DeliveredAtStart(lob: Lob)
    ensures Delivered(lob, 0, 0, [])
  {
    if lob.Chars? {
      assert lob.text[..0] == [];
    }
  }

  /** The transformer of a descriptor: none for binary LOBs, a CESU-8 decoder for character LOBs. */
  type Transformer = Option<Stepper>

  ghost predicate Fits(tr: Transformer, lob: Lob)
  {
    && tr.Some? == lob.Chars?
    && (tr.Some? ==> DecodesRunes(tr.value) && Shrinks(tr.value))
  }

  /** The default decoder is such a transformer. */
  lemma DefaultDecoderFits(t: Text)
    ensures Fits(Some(ToUtf8(false)), Chars(t))
  {
    DecoderDecodesRunes();
    ToUtf8Shrinks(false);
  }

  predicate Rejected(tr: Transformer, bytes: seq<byte>)
  {
    tr.Some? && RunFull(tr.value, bytes).status == BadInput
  }

  /** What is passed on of a chunk: (bytes written, units counted). */
  function Passed(tr: Transformer, bytes: seq<byte>): (p: (seq<byte>, nat))
  {
    match tr
    case Some(f) => var out := RunFull(f, bytes).out; (out, CharCount(out))
    case None => (bytes, |bytes|)
  }

  /** The effect of a chunk of `n` units on the delivery. */
  ghost predicate Advances(tr: Transformer, lob: Lob, k': nat, ofs: nat, wr: seq<byte>, n: nat)
    requires ofs + n <= lob.Length()
  {
    var bytes := lob.Chunk(ofs, n);
    var (out, units) := Passed(tr, bytes);
    && !Rejected(tr, bytes)
    && Delivered(lob, k', ofs + units, wr + out)
    && (n >= lob.MinUnits() ==> units > 0)
    && (ofs + n == lob.Length() ==> wr + out == lob.Content())
    && ofs + units <= lob.Length()
  }

  lemma {:induction false} DeliverChars(f: Stepper, t: Text, k: nat, n: nat)
    requires DecodesRunes(f) && k <= |t| && |Utf16Of(t[..k])| + n <= |Utf16Of(t)|
    ensures Advances(Some(f), Chars(t), NextRune(t, k, n), |Utf16Of(t[..k])|, Utf8Of(t[..k]), n)
  {
    var k' := NextRune(t, k, n);
    CharChunk(f, t, k, n);
    PrefixUnits(t, k, k');
    PrefixUnits(t, k', |t|);
    assert t[..|t|] == t;
  }

  lemma Deliver(tr: Transformer, lob: Lob, k: nat, ofs: nat, wr: seq<byte>, n: nat) returns (k': nat)
    requires Fits(tr, lob) && Delivered(lob, k, ofs, wr) && ofs + n <= lob.Length()
    ensures Advances(tr, lob, k', ofs, wr, n)
  {
    match lob
    case Chars(t) =>
      k' := NextRune(t, k, n);
      DeliverChars(tr.value, t, k, n);
    case Binary(d) =>
      k' := ofs + n;
      assert d[..ofs] + d[ofs..ofs + n] == d[..ofs + n];
  }

  lemma PrefixUnits(t: Text, k: nat, k': nat)
    requires k <= k' <= |t|
    ensures |Utf16Of(t[..k'])| >= |Utf16Of(t[..k])| + (k' - k)
  {
    assert t[..k] + t[k..k'] == t[..k'];
    Utf16Concat(t[..k], t[k..k']);
  }

  /** A request as seen by an observer: its offset and what had been written when it was sent. */
  datatype Request = Request(ofs: nat, written: seq<byte>)

  /** The offset of the request is the number of units written so far, at a rune boundary. */
  ghost predicate Aligned(lob: Lob, q: Request)
  {
    exists k :: Delivered(lob, k, q.ofs, q.written)
  }

  class LobOutDescr {
    const tr: Transformer
    var last: bool       // opt.isLastData()
    var b: array<byte>
    var ofs: nat         // lobRequest.ofs
    var wr: seq<byte>    // bytes handed to the caller's writer

    constructor (tr: Transformer, b: array<byte>, last: bool)
      ensures this.tr == tr && this.b == b && this.last == last && wr == [] && ofs == 0
    {
      this.tr, this.b, this.last, ofs, wr := tr, b, last, 0, [];
    }

    /** write: decodes the chunk in place and passes the complete runes on. */
    method WriteChunk() returns (n: nat, ok: bool)
      requires tr.Some? ==> Shrinks(tr.value)
      modifies this`wr, b
      ensures ok == !Rejected(tr, old(b[..]))
      ensures ok ==> Passed(tr, old(b[..])).1 == n && wr == old(wr) + Passed(tr, old(b[..])).0
      ensures !ok ==> wr == old(wr)
    {
      if tr.None? {
        wr := wr + b[..];
        return b.Length, true;
      }
      ShrinkingFits(tr.value, b[..], b.Length);
      var nDst, nSrc, err := TransformLoop(tr.value, b, b);
      if err != Done && err != ShortSrc {
        return nDst, false;
      }
      n := CountChars(b[..nDst]);
      wr := wr + b[..nDst];
      ok := true;
    }

    /** Write: one reply; reports the end of the LOB by `eof`, otherwise moves the offset on. */
    method Write() returns (eof: bool, ok: bool)
      requires tr.Some? ==> Shrinks(tr.value)
      modifies this`wr, this`ofs, b
      ensures ok == !Rejected(tr, old(b[..]))
      ensures ok ==> eof == last && wr == old(wr) + Passed(tr, old(b[..])).0
      ensures ok ==> ofs == if last then old(ofs) else old(ofs) + Passed(tr, old(b[..])).1
    {
      var n;
      n, ok := WriteChunk();
      if !ok {
        return false, false;
      }
      if last {
        return true, true;
      }
      ofs := ofs + n;
      eof := false;
    }

    /** ReadLobReply.decodeNumArg: takes over the bytes and the options of a reply. */
    method Receive(bytes: seq<byte>, isLast: bool)
      modifies this`b, this`last
      ensures fresh(b) && b[..] == bytes && last == isLast
    {
      b := new byte[|bytes|](j requires 0 <= j < |bytes| => bytes[j]);
      last := isLast;
    }

    /** session.readLob: request, receive, write, until the last chunk. */
    method ReadLob(srv: Server, ghost lob: Lob, ghost k0: nat)
        returns (ok: bool, ghost requests: seq<Request>)
      requires Fits(tr, lob) && Serves(srv, lob)
      requires Delivered(lob, k0, ofs, wr) && ofs <= lob.Length()
      modifies this
      ensures ok && wr == lob.Content()
      ensures forall q :: q in requests ==> Aligned(lob, q)
    {
      var i, eof := 0, false;
      ghost var k := k0;
      requests := [];
      while !eof
        invariant forall q :: q in requests ==> Aligned(lob, q)
        invariant !eof ==> Delivered(lob, k, ofs, wr) && ofs <= lob.Length()
        invariant eof ==> wr == lob.Content()
        decreases !eof, lob.Length() - ofs
      {
        assert Aligned(lob, Request(ofs, wr));
        requests := requests + [Request(ofs, wr)];
        var (bytes, isLast) := srv(ofs + 1, i);
        assert lob.Reply(ofs, bytes, isLast, lob.MinUnits());
        ghost var n: nat :| ofs + n <= lob.Length() && bytes == lob.Chunk(ofs, n)
                            && (if isLast then ofs + n == lob.Length() else n >= lob.MinUnits());
        k := Deliver(tr, lob, k, ofs, wr, n);
        Receive(bytes, isLast);
        eof, ok := Write();
        if !ok {
          return;
        }
        i := i + 1;
      }
      ok := true;
    }

    /** scan: the chunk that came with the row, then the rest. */
    method Scan(srv: Server, ghost lob: Lob) returns (ok: bool, ghost requests: seq<Request>)
      requires Fits(tr, lob) && Serves(srv, lob)
      requires wr == [] && lob.Reply(0, b[..], last, 0)
      modifies this, b
      ensures ok && wr == lob.Content()
      ensures forall q :: q in requests ==> Aligned(lob, q)
    {
      requests := [];
      ghost var n: nat :| 0 + n <= lob.Length() && b[..] == lob.Chunk(0, n)
                          && (if last then 0 + n == lob.Length() else n >= 0);
      DeliveredAtStart(lob);
      ghost var k := Deliver(tr, lob, 0, 0, [], n);
      var numChar;
      numChar, ok := WriteChunk();
      if !ok {
        return;
      }
      if last {
        return;
      }
      ofs := numChar;
      ok, requests := ReadLob(srv, lob, k);
    }
  }
}
