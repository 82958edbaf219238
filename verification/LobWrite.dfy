/**
  Writing LOBs (driver/session.go writeLobs, driver/internal/protocol/lob.go): the chunks that do not
  fit the first request are appended in rounds, one chunk of every unfinished LOB per round; the server
  answers each round with the ids it still expects data for.
 */
module LobWrite {
  import opened Bytes

  type LocatorID = nat

  /** A chunk taken from a reader: its bytes, what is left, whether the end was seen, and success. */
  datatype Chunked = Chunked(buf: seq<byte>, rest: seq<byte>, last: bool, ok: bool)

  /** io.CopyN of up to chunkSize bytes; a short copy ends in EOF or, from a `bad` reader, in an error. */
  function CopyN(rd: seq<byte>, bad: bool, chunkSize: nat): (c: Chunked)
    ensures c.buf + c.rest == rd
  {
    var n := if |rd| < chunkSize then |rd| else chunkSize;
    Chunked(rd[..n], rd[n..], n < chunkSize && !bad, n == chunkSize || !bad)
  }

  /** A lob input descriptor over an io.Reader with a finite content; `bad` readers end in an error instead of EOF. */
  class LobInDescr {
    var rd: seq<byte>    // bytes not yet read
    const bad: bool
    var fetched: bool    // opt has loDataincluded
    var last: bool       // opt has loLastdata
    var pos: int         // offset of the first chunk in the parameter part
    var buf: seq<byte>

    constructor (content: seq<byte>, bad: bool)
      ensures rd == content && this.bad == bad && !fetched && !last && pos == 0 && buf == []
    {
      rd, this.bad, fetched, last, pos, buf := content, bad, false, false, 0, [];
    }

    function Opt(): (o: byte)
      reads this`fetched, this`last
    {
      (if fetched then 2 else 0) + (if last then 4 else 0)
    }

    /** FetchNext: the next chunkSize bytes, or the rest. */
    method FetchNext(chunkSize: nat) returns (ok: bool)
      modifies this`rd, this`buf, this`fetched, this`last
      ensures old(rd) == buf + rd && fetched
      ensures |buf| == if |old(rd)| < chunkSize then |old(rd)| else chunkSize
      ensures ok == (|buf| == chunkSize || !bad)
      ensures last == (|buf| < chunkSize && !bad)
    {
      var c := CopyN(rd, bad, chunkSize);
      buf, rd := c.buf, c.rest;
      fetched, last, ok := true, c.last, c.ok;
    }
  }

  /** Bit 1 of the options says that data are included, bit 2 that they are the last; bit 0, null, is never set. */
  lemma OptionBits(d: LobInDescr)
    ensures d.Opt() % 2 == 0 && (d.Opt() / 2 % 2 == 1 <==> d.fetched) && (d.Opt() / 4 % 2 == 1 <==> d.last)
    ensures d.Opt() < 8
  {
  }

  /** A lob descriptor of a write request. */
  datatype WriteLobDescr = WriteLobDescr(d: LobInDescr, id: LocatorID, last: bool, ofs: int, b: seq<byte>)

  // ---------------------------------------------------------------- one round

  ghost predicate DistinctReaders(ws: seq<WriteLobDescr>)
  {
    forall i, j :: 0 <= i < j < |ws| ==> ws[i].d != ws[j].d
  }

  ghost predicate DistinctIds(ids: seq<LocatorID>)
  {
    forall i, j :: 0 <= i < j < |ids| ==> ids[i] != ids[j]
  }

  function Ids(ws: seq<WriteLobDescr>): (ids: seq<LocatorID>)
    ensures |ids| == |ws| && forall i :: 0 <= i < |ws| ==> ids[i] == ws[i].id
  {
    seq(|ws|, i requires 0 <= i < |ws| => ws[i].id)
  }

  function Readers(ws: seq<WriteLobDescr>): (ds: seq<LobInDescr>)
    ensures |ds| == |ws| && forall i :: 0 <= i < |ws| ==> ds[i] == ws[i].d
  {
    seq(|ws|, i requires 0 <= i < |ws| => ws[i].d)
  }

  /** The descriptors that are not flagged last, in order. */
  function Open(ws: seq<WriteLobDescr>): (os: seq<WriteLobDescr>)
    ensures |os| <= |ws|
  {
    if |ws| == 0 then []
    else if ws[|ws| - 1].last then Open(ws[..|ws| - 1])
    else Open(ws[..|ws| - 1]) + [ws[|ws| - 1]]
  }

  lemma {:induction false} OpenMembers(ws: seq<WriteLobDescr>)
    ensures forall w :: w in Open(ws) ==> w in ws && !w.last
    ensures forall w :: w in ws && !w.last ==> w in Open(ws)
  {
    if |ws| != 0 {
      var init, last := ws[..|ws| - 1], ws[|ws| - 1];
      OpenMembers(init);
      assert ws == init + [last];
    }
  }

  lemma {:induction false} OpenDistinct(ws: seq<WriteLobDescr>)
    requires DistinctReaders(ws)
    ensures DistinctReaders(Open(ws))
  {
    if |ws| != 0 {
      OpenDistinct(ws[..|ws| - 1]);
      OpenMembers(ws[..|ws| - 1]);
    }
  }

  /** "remove done descr": compacts the slice in place. */
  method Compact(ws: array<WriteLobDescr>, n: nat) returns (j: nat)
    requires n <= ws.Length
    modifies ws
    ensures j <= n && ws[..j] == Open(old(ws[..n]))
  {
    j := 0;
    ghost var s, open := ws[..n], [];
    for i := 0 to n
      invariant j <= i && open == Open(s[..i]) && ws[..j] == open
      invariant forall k :: i <= k < n ==> ws[k] == s[k]
    {
      var w := ws[i];
      OpenStep(s, i);
      if !w.last {
        Keep(ws, j, w);
        open := open + [w];
        j := j + 1;
      }
    }
    assert s[..n] == s;
  }

  method Keep(ws: array<WriteLobDescr>, j: nat, w: WriteLobDescr)
    requires j < ws.Length
    modifies ws
    ensures ws[..j + 1] == old(ws[..j]) + [w] && forall k :: j < k < ws.Length ==> ws[k] == old(ws[k])
  {
    ws[j] := w;
  }

  lemma OpenStep(s: seq<WriteLobDescr>, i: nat)
    requires i < |s|
    ensures Open(s[..i + 1]) == if s[i].last then Open(s[..i]) else Open(s[..i]) + [s[i]]
  {
    assert s[..i + 1][..i] == s[..i];
  }

  /** What one round leaves of a descriptor w0. */
  ghost predicate Fetched(w0: WriteLobDescr, rest0: seq<byte>, w: WriteLobDescr, chunkSize: nat)
    reads w.d
  {
    && w.d == w0.d && w.id == w0.id && w.ofs == -1 && w.last == w.d.last && w.b == w.d.buf
    && rest0 == w.b + w.d.rd
    && (w.last ==> w.d.rd == [])
    && (!w.last ==> |w.b| == chunkSize)
  }

  /** The fetch loop over all descriptors of a round. */
  method FetchAll(ws: array<WriteLobDescr>, n: nat, chunkSize: nat) returns (ok: bool)
    requires n <= ws.Length && DistinctReaders(ws[..n])
    modifies ws, set i | 0 <= i < n :: ws[i].d
    ensures ok ==> forall i :: 0 <= i < n ==> Fetched(old(ws[i]), old(ws[i].d.rd), ws[i], chunkSize)
    ensures (forall i :: 0 <= i < n ==> !old(ws[i].d).bad) ==> ok
  {
    for i := 0 to n
      invariant forall k :: 0 <= k < i ==> Fetched(old(ws[k]), old(ws[k].d.rd), ws[k], chunkSize)
      invariant forall k :: i <= k < n ==> ws[k] == old(ws[k]) && unchanged(ws[k].d)
    {
      var w := ws[i];
      assert forall k :: 0 <= k < n && k != i ==> old(ws[k]).d != w.d;
      ok := w.d.FetchNext(chunkSize);
      if !ok {
        return;
      }
      ws[i] := w.(last := w.d.last, ofs := -1, b := w.d.buf);
    }
    ok := true;
  }

  // ---------------------------------------------------------------- the server

  /** One entry of a write request on the wire. */
  datatype Chunk = Chunk(id: LocatorID, last: bool, ofs: int, b: seq<byte>)

  function Request(ws: seq<WriteLobDescr>): (cs: seq<Chunk>)
    ensures |cs| == |ws|
    ensures forall i :: 0 <= i < |ws| ==> cs[i] == Chunk(ws[i].id, ws[i].last, ws[i].ofs, ws[i].b)
  {
    seq(|ws|, i requires 0 <= i < |ws| => Chunk(ws[i].id, ws[i].last, ws[i].ofs, ws[i].b))
  }

  /** The bytes stored per locator; offset -1 means append. */
  type Store = map<LocatorID, seq<byte>>

  function At(store: Store, id: LocatorID): (s: seq<byte>)
  {
    if id in store then store[id] else []
  }

  function Appended(store: Store, cs: seq<Chunk>): (store': Store)
  {
    if |cs| == 0 then store
    else
      var c := cs[|cs| - 1];
      var s := Appended(store, cs[..|cs| - 1]);
      s[c.id := At(s, c.id) + c.b]
  }

  lemma {:induction false} AppendedElsewhere(store: Store, cs: seq<Chunk>, id: LocatorID)
    requires forall i :: 0 <= i < |cs| ==> cs[i].id != id
    ensures At(Appended(store, cs), id) == At(store, id)
  {
    if |cs| != 0 {
      AppendedElsewhere(store, cs[..|cs| - 1], id);
    }
  }

  lemma {:induction false} AppendedAt(store: Store, cs: seq<Chunk>, i: nat)
    requires i < |cs| && forall j :: 0 <= j < |cs| && j != i ==> cs[j].id != cs[i].id
    ensures At(Appended(store, cs), cs[i].id) == At(store, cs[i].id) + cs[i].b
  {
    var n := |cs| - 1;
    if i == n {
      AppendedElsewhere(store, cs[..n], cs[i].id);
    } else {
      AppendedAt(store, cs[..n], i);
    }
  }

  /** The ids of the LOBs a request leaves unfinished, in request order. */
  function OpenIds(cs: seq<Chunk>): (ids: seq<LocatorID>)
  {
    if |cs| == 0 then []
    else if cs[|cs| - 1].last then OpenIds(cs[..|cs| - 1])
    else OpenIds(cs[..|cs| - 1]) + [cs[|cs| - 1].id]
  }

  lemma {:induction false} OpenIdsOfRequest(ws: seq<WriteLobDescr>)
    ensures OpenIds(Request(ws)) == Ids(Open(ws))
  {
    if |ws| != 0 {
      OpenIdsOfRequest(ws[..|ws| - 1]);
      assert Request(ws)[..|ws| - 1] == Request(ws[..|ws| - 1]);
    }
  }

  /** The ids of the reply to a request in round i; None when the reply has no such part. */
  type Server = (seq<Chunk>, nat) -> Option<seq<LocatorID>>

  /** A server that answers with the unfinished ids, in request order. */
  ghost predicate Conforms(srv: Server)
  {
    forall cs, i: nat :: OpenIds(cs) != [] ==> srv(cs, i) == Some(OpenIds(cs))
  }

  // ---------------------------------------------------------------- writeLobs

  datatype Result = Ok | Error | Panic

  ghost predicate Good(ds: seq<LobInDescr>) { forall k :: 0 <= k < |ds| ==> !ds[k].bad }

  /** Where the rounds stand: every byte of LOB k is either stored or unread. */
  ghost predicate Conserved(ids: seq<LocatorID>, rest: seq<seq<byte>>, store: Store, total: seq<seq<byte>>)
    requires |rest| == |ids| == |total|
  {
    forall k :: 0 <= k < |ids| ==> At(store, ids[k]) + rest[k] == total[k]
  }

  /** ws are descriptors of LOBs among ds, each with its own id, and every LOB with unread data is there. */
  ghost predicate Current(ws: seq<WriteLobDescr>, ds: seq<LobInDescr>, ids: seq<LocatorID>, rest: seq<seq<byte>>)
    requires |ds| == |ids| == |rest|
  {
    && DistinctReaders(ws)
    && (forall i :: 0 <= i < |ws| ==> Known(ws[i], ds, ids))
    && (forall k :: 0 <= k < |ds| && rest[k] != [] ==> Listed(ds[k], ws))
  }

  ghost predicate Known(w: WriteLobDescr, ds: seq<LobInDescr>, ids: seq<LocatorID>)
    requires |ds| == |ids|
  {
    exists k :: 0 <= k < |ds| && w.d == ds[k] && w.id == ids[k]
  }

  ghost predicate Listed(d: LobInDescr, ws: seq<WriteLobDescr>)
  {
    exists i :: 0 <= i < |ws| && ws[i].d == d
  }

  ghost function Unread(ds: seq<LobInDescr>): (rest: seq<seq<byte>>)
    reads ds
    ensures |rest| == |ds| && forall k :: 0 <= k < |ds| ==> rest[k] == ds[k].rd
  {
    seq(|ds|, k requires 0 <= k < |ds| reads ds => ds[k].rd)
  }

  ghost predicate DistinctDescrs(ds: seq<LobInDescr>)
  {
    forall i, j :: 0 <= i < j < |ds| ==> ds[i] != ds[j]
  }

  /** The descriptors ws after fetching are those of ws0, and nothing else was read. */
  ghost predicate RoundFetched(ws0: seq<WriteLobDescr>, ws: seq<WriteLobDescr>, ds: seq<LobInDescr>,
                               rest: seq<seq<byte>>, chunkSize: nat)
    requires |rest| == |ds|
    reads ds, set i | 0 <= i < |ws| :: ws[i].d
  {
    && |ws| == |ws0|
    && (forall i, k :: 0 <= i < |ws| && 0 <= k < |ds| && ws0[i].d == ds[k] ==>
          Fetched(ws0[i], rest[k], ws[i], chunkSize))
    && (forall k :: 0 <= k < |ds| && !Listed(ds[k], ws0) ==> ds[k].rd == rest[k])
  }

  lemma {:induction false} RoundConserves(ws0: seq<WriteLobDescr>, ws: seq<WriteLobDescr>, ds: seq<LobInDescr>,
                                          ids: seq<LocatorID>, rest: seq<seq<byte>>, store: Store,
                                          total: seq<seq<byte>>, chunkSize: nat)
    requires |ds| == |ids| == |rest| == |total| && DistinctIds(ids) && DistinctDescrs(ds)
    requires Current(ws0, ds, ids, rest) && Conserved(ids, rest, store, total)
    requires RoundFetched(ws0, ws, ds, rest, chunkSize)
    ensures Conserved(ids, Unread(ds), Appended(store, Request(ws)), total)
  {
    forall k | 0 <= k < |ds|
      ensures At(Appended(store, Request(ws)), ids[k]) + Unread(ds)[k] == total[k]
    {
      if Listed(ds[k], ws0) {
        var i :| 0 <= i < |ws0| && ws0[i].d == ds[k];
        ListedConserves(ws0, ws, ds, ids, rest, store, chunkSize, i, k);
      } else {
        UnlistedConserves(ws0, ws, ds, ids, rest, store, chunkSize, k);
      }
    }
  }

  lemma {:induction false} ListedConserves(ws0: seq<WriteLobDescr>, ws: seq<WriteLobDescr>, ds: seq<LobInDescr>,
                                           ids: seq<LocatorID>, rest: seq<seq<byte>>, store: Store, chunkSize: nat,
                                           i: nat, k: nat)
    requires |ds| == |ids| == |rest| && DistinctIds(ids) && DistinctDescrs(ds)
    requires Current(ws0, ds, ids, rest) && RoundFetched(ws0, ws, ds, rest, chunkSize)
    requires i < |ws0| && k < |ds| && ws0[i].d == ds[k]
    ensures At(Appended(store, Request(ws)), ids[k]) + ds[k].rd == At(store, ids[k]) + rest[k]
  {
    IdsFollow(ws0, ws, ds, ids, rest, chunkSize, i, k);
    AppendedAt(store, Request(ws), i);
    assert Fetched(ws0[i], rest[k], ws[i], chunkSize);
    Assoc(At(store, ids[k]), ws[i].b, ds[k].rd);
  }

  lemma {:induction false} UnlistedConserves(ws0: seq<WriteLobDescr>, ws: seq<WriteLobDescr>, ds: seq<LobInDescr>,
                                             ids: seq<LocatorID>, rest: seq<seq<byte>>, store: Store, chunkSize: nat,
                                             k: nat)
    requires |ds| == |ids| == |rest| && DistinctIds(ids) && DistinctDescrs(ds)
    requires Current(ws0, ds, ids, rest) && RoundFetched(ws0, ws, ds, rest, chunkSize)
    requires k < |ds| && !Listed(ds[k], ws0)
    ensures At(Appended(store, Request(ws)), ids[k]) + ds[k].rd == At(store, ids[k]) + rest[k]
  {
    var cs := Request(ws);
    forall j | 0 <= j < |cs| ensures cs[j].id != ids[k] {
      assert Known(ws0[j], ds, ids);
      var l :| 0 <= l < |ds| && ws0[j].d == ds[l] && ws0[j].id == ids[l];
      assert Fetched(ws0[j], rest[l], ws[j], chunkSize);
    }
    AppendedElsewhere(store, cs, ids[k]);
  }

  /** The chunk of LOB k is the only one with its id. */
  lemma IdsFollow(ws0: seq<WriteLobDescr>, ws: seq<WriteLobDescr>, ds: seq<LobInDescr>, ids: seq<LocatorID>,
                  rest: seq<seq<byte>>, chunkSize: nat, i: nat, k: nat)
    requires |ds| == |ids| == |rest| && DistinctIds(ids) && DistinctDescrs(ds)
    requires Current(ws0, ds, ids, rest) && RoundFetched(ws0, ws, ds, rest, chunkSize)
    requires i < |ws0| && k < |ds| && ws0[i].d == ds[k]
    ensures Request(ws)[i].id == ids[k]
    ensures forall j :: 0 <= j < |ws| && j != i ==> Request(ws)[j].id != ids[k]
  {
    assert Known(ws0[i], ds, ids);
    forall j | 0 <= j < |ws| && j != i ensures Request(ws)[j].id != ids[k] {
      assert Known(ws0[j], ds, ids);
      var l :| 0 <= l < |ds| && ws0[j].d == ds[l] && ws0[j].id == ids[l];
      assert ws0[j].d != ws0[i].d;
    }
  }

  lemma SameDescr(ws0: seq<WriteLobDescr>, ws: seq<WriteLobDescr>, ds: seq<LobInDescr>, ids: seq<LocatorID>,
                  rest: seq<seq<byte>>, chunkSize: nat, i: nat)
    requires |ds| == |ids| == |rest| && i < |ws|
    requires Current(ws0, ds, ids, rest) && RoundFetched(ws0, ws, ds, rest, chunkSize)
    ensures ws[i].d == ws0[i].d && ws[i].id == ws0[i].id && Known(ws[i], ds, ids)
    ensures ws[i].last ==> ws[i].d.rd == []
    ensures !ws[i].last && chunkSize >= 1 ==> exists k :: 0 <= k < |ds| && ws[i].d == ds[k] && |ws[i].d.rd| < |rest[k]|
  {
    assert Known(ws0[i], ds, ids);
    var k :| 0 <= k < |ds| && ws0[i].d == ds[k] && ws0[i].id == ids[k];
    assert Fetched(ws0[i], rest[k], ws[i], chunkSize);
  }

  lemma {:induction false} RoundKeepsCurrent(ws0: seq<WriteLobDescr>, ws: seq<WriteLobDescr>, ds: seq<LobInDescr>,
                                             ids: seq<LocatorID>, rest: seq<seq<byte>>, chunkSize: nat)
    requires |ds| == |ids| == |rest|
    requires Current(ws0, ds, ids, rest) && RoundFetched(ws0, ws, ds, rest, chunkSize)
    ensures Current(Open(ws), ds, ids, Unread(ds))
  {
    forall i | 0 <= i < |ws|
      ensures ws[i].d == ws0[i].d && Known(ws[i], ds, ids) && (ws[i].last ==> ws[i].d.rd == [])
    {
      SameDescr(ws0, ws, ds, ids, rest, chunkSize, i);
    }
    OpenKnown(ws, ds, ids);
    forall k | 0 <= k < |ds| && ds[k].rd != [] ensures Listed(ds[k], Open(ws)) {
      var i :| 0 <= i < |ws0| && ws0[i].d == ds[k];
      OpenMembers(ws);
      assert ws[i] in Open(ws);
    }
  }

  lemma {:induction false} OpenKnown(ws: seq<WriteLobDescr>, ds: seq<LobInDescr>, ids: seq<LocatorID>)
    requires |ds| == |ids| && DistinctReaders(ws)
    requires forall i :: 0 <= i < |ws| ==> Known(ws[i], ds, ids)
    ensures DistinctReaders(Open(ws)) && forall i :: 0 <= i < |Open(ws)| ==> Known(Open(ws)[i], ds, ids)
  {
    OpenDistinct(ws);
    forall i | 0 <= i < |Open(ws)| ensures Known(Open(ws)[i], ds, ids) {
      OpenMembers(ws);
      assert Open(ws)[i] in ws;
    }
  }

  // ---------------------------------------------------------------- the loop over the rounds

  /** The ids of the reply and of the descriptors are in sync. */
  method InSync(ws: array<WriteLobDescr>, n: nat, ids: seq<LocatorID>) returns (ok: bool)
    requires n <= ws.Length
    ensures ok == (Ids(ws[..n]) == ids)
  {
    if n != |ids| {
      return false;
    }
    for i := 0 to n
      invariant forall k :: 0 <= k < i ==> ws[k].id == ids[k]
    {
      if ws[i].id != ids[i] {
        assert Ids(ws[..n])[i] != ids[i];
        return false;
      }
    }
    return true;
  }

  /** Fetch one chunk of every descriptor. */
  method FetchRound(ws: array<WriteLobDescr>, n: nat, chunkSize: nat,
                    ghost ds: seq<LobInDescr>, ghost ids: seq<LocatorID>) returns (ok: bool)
    requires n <= ws.Length && |ds| == |ids| && Current(ws[..n], ds, ids, Unread(ds))
    modifies ws, ds
    ensures ok ==> RoundFetched(old(ws[..n]), ws[..n], ds, old(Unread(ds)), chunkSize)
    ensures Good(ds) ==> ok
  {
    ghost var ws0, rest := ws[..n], Unread(ds);
    forall i | 0 <= i < n ensures ws[i].d in ds {
      assert Known(ws0[i], ds, ids);
    }
    ok := FetchAll(ws, n, chunkSize);
    if ok {
      forall i, k | 0 <= i < n && 0 <= k < |ds| && ws0[i].d == ds[k]
        ensures Fetched(ws0[i], rest[k], ws[..n][i], chunkSize)
      {
        assert Fetched(old(ws[i]), old(ws[i].d.rd), ws[i], chunkSize);
      }
      forall k | 0 <= k < |ds| && !Listed(ds[k], ws0) ensures ds[k].rd == rest[k] {
        assert forall i :: 0 <= i < n ==> ws0[i].d != ds[k];
      }
    }
  }

  /** ... and append them at the server. */
  method SendRound(ws: array<WriteLobDescr>, n: nat, chunkSize: nat, store: Store,
                   ghost ds: seq<LobInDescr>, ghost ids: seq<LocatorID>, ghost total: seq<seq<byte>>)
      returns (ok: bool, store': Store)
    requires n <= ws.Length && |ds| == |ids| == |total| && DistinctDescrs(ds)
    requires Current(ws[..n], ds, ids, Unread(ds))
    modifies ws, ds
    ensures ok ==> RoundFetched(old(ws[..n]), ws[..n], ds, old(Unread(ds)), chunkSize)
    ensures ok ==> Current(Open(ws[..n]), ds, ids, Unread(ds))
    ensures ok && DistinctIds(ids) && Conserved(ids, old(Unread(ds)), store, total)
            ==> Conserved(ids, Unread(ds), store', total)
    ensures Good(ds) ==> ok
  {
    ghost var ws0, rest := ws[..n], Unread(ds);
    store' := store;
    ok := FetchRound(ws, n, chunkSize, ds, ids);
    if ok {
      ghost var ws1 := ws[..n];
      store' := Appended(store, Request(ws[..n]));
      RoundKeepsCurrent(ws0, ws1, ds, ids, rest, chunkSize);
      if DistinctIds(ids) && Conserved(ids, rest, store, total) {
        RoundConserves(ws0, ws1, ds, ids, rest, store, total, chunkSize);
      }
    }
  }

  /** No descriptor has `fuel` or more unread bytes. */
  ghost predicate Below(ws: seq<WriteLobDescr>, ds: seq<LobInDescr>, rest: seq<seq<byte>>, fuel: nat)
    requires |ds| == |rest|
  {
    forall i, k :: 0 <= i < |ws| && 0 <= k < |ds| && ws[i].d == ds[k] ==> |rest[k]| < fuel
  }

  lemma SomeFuel(ws: seq<WriteLobDescr>, ds: seq<LobInDescr>, rest: seq<seq<byte>>) returns (fuel: nat)
    requires |ds| == |rest|
    ensures Below(ws, ds, rest, fuel)
  {
    fuel := 0;
    for k := 0 to |rest|
      invariant forall j :: 0 <= j < k ==> |rest[j]| < fuel
    {
      if fuel <= |rest[k]| {
        fuel := |rest[k]| + 1;
      }
    }
  }

  /** Every round reads at least one byte of each LOB it does not finish. */
  lemma {:induction false} RoundUsesFuel(ws0: seq<WriteLobDescr>, ws: seq<WriteLobDescr>, ds: seq<LobInDescr>,
                                         ids: seq<LocatorID>, rest: seq<seq<byte>>, chunkSize: nat, fuel: nat)
    requires |ds| == |ids| == |rest| && chunkSize >= 1 && DistinctDescrs(ds)
    requires Current(ws0, ds, ids, rest) && RoundFetched(ws0, ws, ds, rest, chunkSize)
    requires Below(ws0, ds, rest, fuel) && |ws0| > 0
    ensures fuel > 0 && Below(Open(ws), ds, Unread(ds), fuel - 1)
  {
    assert Known(ws0[0], ds, ids);
    forall i, k | 0 <= i < |Open(ws)| && 0 <= k < |ds| && Open(ws)[i].d == ds[k]
      ensures |Unread(ds)[k]| < fuel - 1
    {
      OpenMembers(ws);
      var w := Open(ws)[i];
      var j :| 0 <= j < |ws| && ws[j] == w;
      SameDescr(ws0, ws, ds, ids, rest, chunkSize, j);
    }
  }

  /** One iteration of the loop: send, take over the ids of the reply, drop the finished descriptors. */
  method OneRound(ws: array<WriteLobDescr>, n: nat, ids: seq<LocatorID>, chunkSize: nat, srv: Server, round: nat,
                  store: Store, ghost ds: seq<LobInDescr>, ghost idk: seq<LocatorID>, ghost total: seq<seq<byte>>,
                  ghost fuel: nat)
      returns (ok: bool, n': nat, ids': seq<LocatorID>, store': Store)
    requires 0 < n <= ws.Length && |ds| == |idk| == |total| && DistinctDescrs(ds) && chunkSize >= 1
    requires Current(ws[..n], ds, idk, Unread(ds)) && Below(ws[..n], ds, Unread(ds), fuel)
    modifies ws, ds
    ensures ok ==> n' <= ws.Length && Current(ws[..n'], ds, idk, Unread(ds))
    ensures ok ==> fuel > 0 && Below(ws[..n'], ds, Unread(ds), fuel - 1)
    ensures ok && DistinctIds(idk) && Conserved(idk, old(Unread(ds)), store, total)
            ==> Conserved(idk, Unread(ds), store', total)
    ensures ok && Conforms(srv) && n' != 0 ==> ids' == Ids(ws[..n'])
    ensures Good(ds) ==> ok
  {
    ghost var ws0, rest := ws[..n], Unread(ds);
    ids', n' := ids, n;
    ok, store' := SendRound(ws, n, chunkSize, store, ds, idk, total);
    if !ok {
      return;
    }
    ghost var ws1 := ws[..n];
    RoundUsesFuel(ws0, ws1, ds, idk, rest, chunkSize, fuel);
    OpenIdsOfRequest(ws1);
    var reply := srv(Request(ws[..n]), round);
    if reply.Some? {
      ids' := reply.value;
    }
    ghost var rest1 := Unread(ds);
    n' := Compact(ws, n);
    assert Unread(ds) == rest1;
  }

  /**
    The loop of writeLobs. When it succeeds, every LOB has been stored completely; against a server
    that answers with the unfinished ids in request order it always succeeds, whatever the lengths.
   */
  method WriteRounds(ws: array<WriteLobDescr>, n0: nat, ids0: seq<LocatorID>, chunkSize: nat, srv: Server,
                     store0: Store, ghost ds: seq<LobInDescr>, ghost idk: seq<LocatorID>)
      returns (r: Result, store: Store)
    requires n0 <= ws.Length && chunkSize >= 1
    requires ds == Readers(ws[..n0]) && DistinctDescrs(ds) && idk == Ids(ws[..n0])
    modifies ws, ds
    ensures r != Panic && (r == Ok && n0 > 0 ==> |ids0| == n0)
    ensures r == Ok && DistinctIds(idk) ==> Stored(idk, store0, old(Unread(ds)), store)
    ensures Conforms(srv) && Good(ds) && ids0 == idk ==> r == Ok
  {
    store := store0;
    var ids, n, round := ids0, n0, 0;
    ghost var rest := Unread(ds);
    ghost var total := seq(|ds|, k requires 0 <= k < |ds| => At(store0, idk[k]) + rest[k]);
    ghost var fuel := SomeFuel(ws[..n0], ds, rest);
    StartCurrent(ws[..n0], ds, idk);
    while n != 0
      invariant 0 <= n <= ws.Length
      invariant if round == 0 then n == n0 && ids == ids0 else |ids0| == n0
      invariant Current(ws[..n], ds, idk, Unread(ds))
      invariant DistinctIds(idk) ==> Conserved(idk, Unread(ds), store, total)
      invariant Conforms(srv) && ids0 == idk && n != 0 ==> ids == Ids(ws[..n])
      invariant Below(ws[..n], ds, Unread(ds), fuel)
      decreases fuel
    {
      var ok := InSync(ws, n, ids);
      if !ok {
        return Error, store;
      }
      ok, n, ids, store := OneRound(ws, n, ids, chunkSize, srv, round, store, ds, idk, total, fuel);
      if !ok {
        return Error, store;
      }
      round, fuel := round + 1, fuel - 1;
    }
    r := Ok;
    if DistinctIds(idk) {
      Finished(ds, idk, rest, store0, store, total);
    }
  }

  /** LOB k has been stored after what the server held before. */
  ghost predicate Stored(ids: seq<LocatorID>, store0: Store, rest: seq<seq<byte>>, store: Store)
    requires |ids| == |rest|
  {
    forall k :: 0 <= k < |ids| ==> At(store, ids[k]) == At(store0, ids[k]) + rest[k]
  }

  lemma StartCurrent(ws: seq<WriteLobDescr>, ds: seq<LobInDescr>, ids: seq<LocatorID>)
    requires ds == Readers(ws) && DistinctDescrs(ds) && ids == Ids(ws)
    ensures Current(ws, ds, ids, Unread(ds))
  {
    forall i | 0 <= i < |ws| ensures Known(ws[i], ds, ids) && Listed(ds[i], ws) {
      assert ws[i].d == ds[i] && ws[i].id == ids[i];
    }
    forall i, j | 0 <= i < j < |ws| ensures ws[i].d != ws[j].d {
      assert ds[i] != ds[j];
    }
  }

  lemma Finished(ds: seq<LobInDescr>, ids: seq<LocatorID>, rest: seq<seq<byte>>, store0: Store, store: Store,
                 total: seq<seq<byte>>)
    requires |ds| == |ids| == |rest| == |total|
    requires Current([], ds, ids, Unread(ds)) && Conserved(ids, Unread(ds), store, total)
    requires forall k :: 0 <= k < |ds| ==> total[k] == At(store0, ids[k]) + rest[k]
    ensures Stored(ids, store0, rest, store)
  {
    forall k | 0 <= k < |ids| ensures At(store, ids[k]) == total[k] {
      assert !Listed(ds[k], []);
      assert At(store, ids[k]) + [] == At(store, ids[k]);
    }
  }

  // ---------------------------------------------------------------- writeLobs

  /** A parameter of the record whose LOBs are written. */
  datatype Arg = NoLob | WrongType | LobValue(d: LobInDescr)

  /** The LOBs that need further chunks, in parameter order. */
  ghost function Unfinished(args: seq<Arg>): (ds: seq<LobInDescr>)
    reads set i | 0 <= i < |args| && args[i].LobValue? :: args[i].d
  {
    if |args| == 0 then []
    else
      var a := args[|args| - 1];
      var ds := Unfinished(args[..|args| - 1]);
      if a.LobValue? && !a.d.last then ds + [a.d] else ds
  }

  ghost predicate WellTyped(args: seq<Arg>) { forall i :: 0 <= i < |args| ==> !args[i].WrongType? }

  lemma {:induction false} UnfinishedGrows(args: seq<Arg>, i: nat)
    requires i <= |args|
    ensures Unfinished(args[..i]) <= Unfinished(args)
    decreases |args| - i
  {
    if i == |args| {
      assert args[..i] == args;
    } else {
      UnfinishedGrows(args, i + 1);
      assert args[..i + 1][..i] == args[..i];
    }
  }

  /**
    The first loop of writeLobs pairs the unfinished LOBs with the ids. Its check `j > len(ids)` comes
    too late: with more unfinished LOBs than ids the id slice is indexed out of range.
   */
  method Pair(args: seq<Arg>, ids: seq<LocatorID>) returns (r: Result, ws: seq<WriteLobDescr>)
    ensures WellTyped(args) ==> (r == Ok <==> |Unfinished(args)| <= |ids|) && r != Error
    ensures r == Ok ==> WellTyped(args) && Readers(ws) == Unfinished(args) && Ids(ws) == ids[..|ws|]
  {
    ws := [];
    var j := 0;
    for i := 0 to |args|
      invariant j == |ws| <= |ids|
      invariant WellTyped(args[..i])
      invariant Readers(ws) == Unfinished(args[..i]) && Ids(ws) == ids[..j]
    {
      assert args[..i + 1][..i] == args[..i];
      UnfinishedGrows(args, i + 1);
      match args[i]
      case NoLob =>
      case WrongType => return Error, ws;
      case LobValue(d) =>
        if j > |ids| {
          return Error, ws;
        }
        if !d.last {
          if j == |ids| {
            return Panic, ws;
          }
          ws := ws + [WriteLobDescr(d, ids[j], false, 0, [])];
          j := j + 1;
        }
    }
    assert args[..|args|] == args;
    r := Ok;
  }

  /** writeLobs as a whole. */
  method WriteLobs(args: seq<Arg>, ids: seq<LocatorID>, chunkSize: nat, srv: Server, store0: Store)
      returns (r: Result, store: Store)
    requires chunkSize >= 1 && DistinctDescrs(Unfinished(args))
    modifies set i | 0 <= i < |args| && args[i].LobValue? :: args[i].d
    ensures WellTyped(args) ==> (r == Panic <==> |old(Unfinished(args))| > |ids|)
    ensures WellTyped(args) && |old(Unfinished(args))| == |ids| && Good(old(Unfinished(args))) && Conforms(srv)
            ==> r == Ok
    ensures r == Ok && |old(Unfinished(args))| > 0 ==> |old(Unfinished(args))| == |ids|
    ensures r == Ok && |old(Unfinished(args))| == |ids| && DistinctIds(ids)
            ==> Stored(ids, store0, old(Unread(Unfinished(args))), store)
  {
    store := store0;
    var list;
    r, list := Pair(args, ids);
    if r != Ok {
      return;
    }
    ghost var ds := Unfinished(args);
    UnfinishedInArgs(args);
    assert forall k :: 0 <= k < |ds| ==> IsArg(ds[k], args);
    var ws := new WriteLobDescr[|list|](i requires 0 <= i < |list| => list[i]);
    assert ws[..|list|] == list;
    r, store := WriteRounds(ws, |list|, ids, chunkSize, srv, store0, ds, Ids(list));
  }

  ghost predicate IsArg(d: LobInDescr, args: seq<Arg>) { LobValue(d) in args }

  lemma {:induction false} UnfinishedInArgs(args: seq<Arg>)
    ensures forall d :: d in Unfinished(args) ==> IsArg(d, args)
  {
    if |args| != 0 {
      UnfinishedInArgs(args[..|args| - 1]);
      forall d | d in Unfinished(args) ensures IsArg(d, args) {
        assert d in Unfinished(args[..|args| - 1]) || args[|args| - 1] == LobValue(d);
      }
    }
  }

  // ---------------------------------------------------------------- from the reader to the server

  /** The first fetch of every LOB of a record. */
  method FetchFirst(ds: seq<LobInDescr>, chunkSize: nat) returns (ok: bool)
    requires DistinctDescrs(ds)
    modifies ds
    ensures ok ==> forall i :: 0 <= i < |ds| ==> Begun(ds[i], old(ds[i].rd), chunkSize)
    ensures ok <==> forall i :: 0 <= i < |ds| ==> Fetchable(ds[i], old(ds[i].rd), chunkSize)
  {
    for i := 0 to |ds|
      invariant forall k :: 0 <= k < i ==> Begun(ds[k], old(ds[k].rd), chunkSize)
      invariant forall k :: 0 <= k < i ==> Fetchable(ds[k], old(ds[k].rd), chunkSize)
      invariant forall k :: i <= k < |ds| ==> unchanged(ds[k])
    {
      assert forall k :: 0 <= k < |ds| && k != i ==> ds[k] != ds[i];
      ok := ds[i].FetchNext(chunkSize);
      if !ok {
        return;
      }
      FirstOf(ds[i].buf, ds[i].rd, chunkSize);
    }
    ok := true;
  }

  /** A chunk can be read: there are enough bytes, or the reader ends in EOF. */
  predicate Fetchable(d: LobInDescr, content: seq<byte>, chunkSize: nat)
  {
    !d.bad || |content| >= chunkSize
  }

  function First(content: seq<byte>, chunkSize: nat): (chunk: seq<byte>)
  {
    if |content| < chunkSize then content else content[..chunkSize]
  }

  lemma FirstOf(buf: seq<byte>, rest: seq<byte>, chunkSize: nat)
    requires |buf| == if |buf + rest| < chunkSize then |buf + rest| else chunkSize
    ensures buf == First(buf + rest, chunkSize)
  {
    assert (buf + rest)[..|buf|] == buf;
  }

  /** The first chunk has been read of the content. */
  ghost predicate Begun(d: LobInDescr, content: seq<byte>, chunkSize: nat)
    reads d
  {
    content == d.buf + d.rd && d.buf == First(content, chunkSize) && d.last == (|content| < chunkSize)
  }

  /** The first chunks, stored under the ids of the unfinished LOBs. */
  function FirstChunks(ds: seq<LobInDescr>, ids: seq<LocatorID>): (store: Store)
    requires |ds| == |ids|
    reads ds
  {
    if |ds| == 0 then map[]
    else
      var k := |ds| - 1;
      FirstChunks(ds[..k], ids[..k])[ids[k] := ds[k].buf]
  }

  lemma {:induction false} FirstChunkAt(ds: seq<LobInDescr>, ids: seq<LocatorID>, k: nat)
    requires |ds| == |ids| && DistinctIds(ids) && k < |ds|
    ensures At(FirstChunks(ds, ids), ids[k]) == ds[k].buf
  {
    var n := |ds| - 1;
    if k < n {
      FirstChunkAt(ds[..n], ids[..n], k);
    }
  }

  /** The unfinished LOBs among ds, in order. */
  ghost predicate OpenAmong(open: seq<LobInDescr>, ds: seq<LobInDescr>, i: nat)
    requires i <= |ds|
    reads ds
  {
    && DistinctDescrs(open)
    && (forall k :: 0 <= k < |open| ==> open[k] in ds[..i])
    && (forall k :: 0 <= k < i && !ds[k].last ==> ds[k] in open)
  }

  lemma OpenNext(open: seq<LobInDescr>, ds: seq<LobInDescr>, i: nat)
    requires i < |ds| && DistinctDescrs(ds) && OpenAmong(open, ds, i)
    ensures OpenAmong(if ds[i].last then open else open + [ds[i]], ds, i + 1)
  {
    assert ds[..i + 1] == ds[..i] + [ds[i]];
    forall k | 0 <= k < |open| ensures open[k] != ds[i] {
      var l :| 0 <= l < i && ds[l] == open[k];
    }
  }

  /** The LOBs whose content one chunk does not exhaust, in order. */
  function Longer(ds: seq<LobInDescr>, contents: seq<seq<byte>>, chunkSize: nat): (open: seq<LobInDescr>)
    requires |contents| == |ds|
  {
    if |ds| == 0 then []
    else
      var k := |ds| - 1;
      Longer(ds[..k], contents[..k], chunkSize) + if |contents[k]| < chunkSize then [] else [ds[k]]
  }

  lemma {:induction false} LongerNext(ds: seq<LobInDescr>, contents: seq<seq<byte>>, chunkSize: nat, i: nat)
    requires |contents| == |ds| && i < |ds|
    ensures Longer(ds[..i + 1], contents[..i + 1], chunkSize)
            == Longer(ds[..i], contents[..i], chunkSize) + if |contents[i]| < chunkSize then [] else [ds[i]]
  {
    assert ds[..i + 1][..i] == ds[..i] && contents[..i + 1][..i] == contents[..i];
  }

  method OpenLobs(ds: seq<LobInDescr>, ghost contents: seq<seq<byte>>, ghost chunkSize: nat)
      returns (args: seq<Arg>, open: seq<LobInDescr>)
    requires DistinctDescrs(ds) && |contents| == |ds|
    requires forall i :: 0 <= i < |ds| ==> Begun(ds[i], contents[i], chunkSize)
    ensures |args| == |ds| && (forall i :: 0 <= i < |ds| ==> args[i] == LobValue(ds[i]))
    ensures open == Unfinished(args) && OpenAmong(open, ds, |ds|) && open == Longer(ds, contents, chunkSize)
  {
    args := seq(|ds|, i requires 0 <= i < |ds| => LobValue(ds[i]));
    open := [];
    for i := 0 to |ds|
      invariant open == Unfinished(args[..i]) && OpenAmong(open, ds, i)
      invariant open == Longer(ds[..i], contents[..i], chunkSize)
    {
      OpenNext(open, ds, i);
      UnfinishedNext(args, i, ds[i]);
      LongerNext(ds, contents, chunkSize, i);
      if !ds[i].last {
        open := open + [ds[i]];
      }
    }
    assert args[..|args|] == args && ds[..|ds|] == ds && contents[..|ds|] == contents;
  }

  lemma UnfinishedNext(args: seq<Arg>, i: nat, d: LobInDescr)
    requires i < |args| && args[i] == LobValue(d)
    ensures Unfinished(args[..i + 1]) == if d.last then Unfinished(args[..i]) else Unfinished(args[..i]) + [d]
  {
    assert args[..i + 1][..i] == args[..i];
  }

  /** The first chunk of every LOB. */
  ghost predicate FirstChunksOf(record: seq<seq<byte>>, contents: seq<seq<byte>>, chunkSize: nat)
  {
    |record| == |contents| && forall k :: 0 <= k < |contents| ==> record[k] == First(contents[k], chunkSize)
  }

  ghost predicate AllFetchable(ds: seq<LobInDescr>, contents: seq<seq<byte>>, chunkSize: nat)
    requires |contents| == |ds|
  {
    forall k :: 0 <= k < |ds| ==> Fetchable(ds[k], contents[k], chunkSize)
  }

  /** LOB k of the unfinished ones is stored completely under id k. */
  ghost predicate AllStored(ids: seq<LocatorID>, contents: seq<seq<byte>>, store: Store)
  {
    |ids| == |contents| && forall k :: 0 <= k < |ids| ==> At(store, ids[k]) == contents[k]
  }

  /**
    A record with LOBs from the readers to the server, as session.exec writes it: the first chunk of every
    LOB goes with the record; the server stores those of the unfinished LOBs, which are the ones with at
    least chunkSize bytes, under the ids that it assigns; the rest is appended. Then every LOB is
    complete: the others in their first chunk, these under their id.
   */
  method UploadRecord(ds: seq<LobInDescr>, ids: seq<LocatorID>, chunkSize: nat, srv: Server)
      returns (r: Result, record: seq<seq<byte>>, open: seq<LobInDescr>, store: Store)
    requires chunkSize >= 1 && DistinctDescrs(ds)
    modifies ds
    ensures if AllFetchable(ds, old(Unread(ds)), chunkSize)
            then open == Longer(ds, old(Unread(ds)), chunkSize) && FirstChunksOf(record, old(Unread(ds)), chunkSize)
            else r == Error && record == [] && open == [] && store == map[]
    ensures AllFetchable(ds, old(Unread(ds)), chunkSize) ==> (r == Panic <==> 0 < |ids| < |open|)
    ensures AllFetchable(ds, old(Unread(ds)), chunkSize) && |ids| == 0 ==> r == Ok && store == map[]
    ensures r == Ok && |open| > 0 && |ids| > 0 ==> |open| == |ids|
    ensures r == Ok && |open| == |ids| && DistinctIds(ids) ==> AllStored(ids, old(Unread(open)), store)
    ensures r == Ok ==> forall k :: 0 <= k < |ds| && ds[k] !in open ==> record[k] == old(ds[k].rd)
    ensures Good(ds) && Conforms(srv) && |open| == |ids| ==> r == Ok
  {
    ghost var contents := Unread(ds);
    store, open, record := map[], [], [];
    var ok := FetchFirst(ds, chunkSize);
    if !ok {
      return Error, record, open, store;
    }
    r, record, open, store := WriteRecord(ds, ids, chunkSize, srv, contents);
  }

  /** The record and its LOBs, once their first chunks have been fetched. */
  method WriteRecord(ds: seq<LobInDescr>, ids: seq<LocatorID>, chunkSize: nat, srv: Server,
                     ghost contents: seq<seq<byte>>)
      returns (r: Result, record: seq<seq<byte>>, open: seq<LobInDescr>, store: Store)
    requires chunkSize >= 1 && DistinctDescrs(ds) && |contents| == |ds|
    requires forall i :: 0 <= i < |ds| ==> Begun(ds[i], contents[i], chunkSize)
    modifies ds
    ensures open == Longer(ds, contents, chunkSize) && FirstChunksOf(record, contents, chunkSize)
    ensures r == Panic <==> 0 < |ids| < |open|
    ensures |ids| == 0 ==> r == Ok && store == map[]
    ensures r == Ok && |open| > 0 && |ids| > 0 ==> |open| == |ids|
    ensures r == Ok && |open| == |ids| && DistinctIds(ids) ==> AllStored(ids, old(Contents(open)), store)
    ensures forall k :: 0 <= k < |open| ==> open[k] in ds
    ensures forall k :: 0 <= k < |ds| && ds[k] !in open ==> record[k] == contents[k]
    ensures Good(ds) && Conforms(srv) && |open| == |ids| ==> r == Ok
  {
    var args;
    args, open := OpenLobs(ds, contents, chunkSize);
    assert ds[..|ds|] == ds;
    record, store := Buffers(ds), map[];
    if |ids| == 0 {
      return Ok, record, open, store;
    }
    r, store := WriteRest(args, open, ids, chunkSize, srv, Contents(open));
  }

  /** The server holds the first chunks of the unfinished LOBs; the rest follows. */
  method WriteRest(args: seq<Arg>, open: seq<LobInDescr>, ids: seq<LocatorID>, chunkSize: nat, srv: Server,
                   ghost contents: seq<seq<byte>>)
      returns (r: Result, store: Store)
    requires chunkSize >= 1 && open == Unfinished(args) && DistinctDescrs(open) && contents == Contents(open)
    requires WellTyped(args)
    modifies set i | 0 <= i < |args| && args[i].LobValue? :: args[i].d
    ensures r == Panic <==> |open| > |ids|
    ensures r == Ok && |open| > 0 ==> |open| == |ids|
    ensures r == Ok && |open| == |ids| && DistinctIds(ids) ==> AllStored(ids, contents, store)
    ensures Good(open) && Conforms(srv) && |open| == |ids| ==> r == Ok
  {
    var store0 := if |open| == |ids| then FirstChunks(open, ids) else map[];
    ghost var rest := Unread(open);
    if |open| == |ids| {
      FirstChunksAt(open, ids, store0, rest, contents);
    }
    r, store := WriteLobs(args, ids, chunkSize, srv, store0);
    if r == Ok && |open| == |ids| && DistinctIds(ids) {
      StoredContents(ids, store0, rest, store, contents);
    }
  }

  function Buffers(ds: seq<LobInDescr>): (bufs: seq<seq<byte>>)
    reads ds
    ensures |bufs| == |ds| && forall k :: 0 <= k < |ds| ==> bufs[k] == ds[k].buf
  {
    seq(|ds|, k requires 0 <= k < |ds| reads ds => ds[k].buf)
  }

  /** First chunks and unread rests. */
  ghost function Contents(ds: seq<LobInDescr>): (cs: seq<seq<byte>>)
    reads ds
    ensures |cs| == |ds| && forall k :: 0 <= k < |ds| ==> cs[k] == ds[k].buf + ds[k].rd
  {
    seq(|ds|, k requires 0 <= k < |ds| reads ds => ds[k].buf + ds[k].rd)
  }

  lemma {:induction false} FirstChunksAt(open: seq<LobInDescr>, ids: seq<LocatorID>, store0: Store,
                                         rest: seq<seq<byte>>, contents: seq<seq<byte>>)
    requires |open| == |ids| && store0 == FirstChunks(open, ids) && rest == Unread(open) && contents == Contents(open)
    ensures DistinctIds(ids) ==> forall k :: 0 <= k < |ids| ==> At(store0, ids[k]) + rest[k] == contents[k]
  {
    if DistinctIds(ids) {
      forall k | 0 <= k < |ids| ensures At(store0, ids[k]) + rest[k] == contents[k] {
        FirstChunkAt(open, ids, k);
      }
    }
  }

  lemma StoredContents(ids: seq<LocatorID>, store0: Store, rest: seq<seq<byte>>, store: Store, contents: seq<seq<byte>>)
    requires |ids| == |rest| == |contents| && Stored(ids, store0, rest, store)
    requires forall k :: 0 <= k < |ids| ==> At(store0, ids[k]) + rest[k] == contents[k]
    ensures forall k :: 0 <= k < |ids| ==> At(store, ids[k]) == contents[k]
  {
  }
}
