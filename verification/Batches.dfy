/**
  A batch of a bulk execution (driver/stmt.go exec): its packages, and the state that a run over a list
  of batches leaves.
 */
module Batches {
  import opened Bytes
  import opened Bulk
  import opened ErrorRows

  /** The statement numbers of the errors of the last call. */
  function LastErrors(reply: nat -> Reply, calls: seq<Call>): (nos: seq<int>)
  {
    if |calls| == 0 then [] else StmtNos(reply(|calls| - 1), calls[|calls| - 1].ofs)
  }

  /** The session: the calls made so far; the server answers the k-th call with reply(k). */
  class Session {
    var calls: seq<Call>
    var stmtNos: seq<int>   // of the errors that the last call returned
    const reply: nat -> Reply

    ghost predicate Valid()
      reads this
    {
      stmtNos == LastErrors(reply, calls)
    }

    constructor (reply: nat -> Reply)
      ensures Valid() && calls == [] && this.reply == reply
    {
      calls, stmtNos := [], [];
      this.reply := reply;
    }

    /** session.exec: one call, its row count and its errors. */
    method Exec(args: seq<NamedValue>, ofs: int) returns (rows: int, ok: bool)
      modifies this
      ensures Valid() && calls == old(calls) + [Call(args, ofs)]
      ensures ok == Succeeds(reply(|old(calls)|)) && (ok ==> rows == RowsOf(reply(|old(calls)|)))
    {
      rows, ok, stmtNos := Evaluate(reply(|calls|), ofs);
      calls := calls + [Call(args, ofs)];
    }
  }

  /** The state of a run: the calls made so far, the rows affected, and whether no call has failed. */
  datatype State = State(calls: seq<Call>, total: int, ok: bool)

  /** One call of session.exec. */
  function Send(reply: nat -> Reply, o: State, c: Call): (r: State)
  {
    var answer := reply(|o.calls|);
    State(o.calls + [c], o.total + if Succeeds(answer) then RowsOf(answer) else 0, Succeeds(answer))
  }

  /** The calls in order, up to the first that fails. */
  function SendAll(reply: nat -> Reply, o: State, calls: seq<Call>): (r: State)
  {
    if |calls| == 0 then o
    else
      var q := SendAll(reply, o, calls[..|calls| - 1]);
      if q.ok then Send(reply, q, calls[|calls| - 1]) else q
  }

  function Add(t: int, o: State): (r: State)
  {
    o.(total := t + o.total)
  }

  /** totalRowsAffected.add: the count of a batch can be added afterwards. */
  lemma {:induction false} AddLater(reply: nat -> Reply, s: seq<Call>, t: int, calls: seq<Call>)
    ensures SendAll(reply, State(s, t, true), calls) == Add(t, SendAll(reply, State(s, 0, true), calls))
  {
    if |calls| > 0 {
      AddLater(reply, s, t, calls[..|calls| - 1]);
    }
  }

  /** The rows affected by the calls from a to b; failed calls add nothing. */
  function Affected(reply: nat -> Reply, a: nat, b: nat): (sum: int)
    requires a <= b
    decreases b
  {
    if a == b then 0 else Affected(reply, a, b - 1) + if Succeeds(reply(b - 1)) then RowsOf(reply(b - 1)) else 0
  }

  predicate NoFailure(reply: nat -> Reply, a: nat, b: nat)
    requires a <= b
    decreases b
  {
    a == b || (NoFailure(reply, a, b - 1) && Succeeds(reply(b - 1)))
  }

  // ---------------------------------------------------------------- exec

  /** A batch of arguments and the row offset it is executed with. */
  datatype Part = Part(raw: seq<NamedValue>, ofs: nat)

  /** The calls that a batch of arguments leads to: none when one of them is refused. */
  function BatchCalls(f: Fields, raw: seq<NamedValue>, ofs: int): (calls: seq<Call>)
    requires |f.out| > 0
  {
    var c := ConvertAll(f, raw);
    if Col(|raw|, |f.out|) == 0 && c.Some? then Packages(c.value, |f.out|, ofs) else []
  }

  predicate Accepted(f: Fields, raw: seq<NamedValue>)
    requires |f.out| > 0
  {
    Col(|raw|, |f.out|) == 0 && ConvertAll(f, raw).Some?
  }

  /** The packages lie within len arguments. */
  ghost predicate EndsIn(ends: seq<nat>, n: nat, len: nat)
  {
    forall k :: 0 <= k < |ends| ==> ArgCount(Next(ends[..k]), n) <= ArgCount(ends[k] + 1, n) <= len
  }

  /** The loop over the packages of a batch. */
  method RunPackages(session: Session, args: array<NamedValue>, n: nat, ends: seq<nat>, ofs: int)
      returns (total: int, ok: bool)
    requires n > 0 && EndsIn(ends, n, args.Length) && session.Valid()
    modifies session
    ensures session.Valid()
    ensures State(session.calls, total, ok)
            == SendAll(session.reply, State(old(session.calls), 0, true), Cut(args[..], n, ofs, ends))
  {
    total, ok := 0, true;
    var from, k := 0, 0;
    ghost var o, all := State(old(session.calls), 0, true), Cut(args[..], n, ofs, ends);
    while k < |ends| && ok
      invariant session.Valid()
      invariant 0 <= k <= |ends| && from == ArgCount(Next(ends[..k]), n)
      invariant State(session.calls, total, ok) == SendAll(session.reply, o, all[..k])
    {
      CutAt(args[..], n, ofs, ends, k);
      var to := ArgCount(ends[k] + 1, n);
      assert all[k] == Call(args[from..to], ofs);
      SendStep(session.reply, o, all, k);
      var rows;
      rows, ok := session.Exec(args[from..to], ofs);
      if ok {
        total := total + rows;
      }
      NextAt(ends, k + 1);
      from, k := to, k + 1;
    }
    SendStopped(session.reply, o, all, k);
  }

  lemma {:induction false} SendStep(reply: nat -> Reply, o: State, calls: seq<Call>, k: nat)
    requires k < |calls| && SendAll(reply, o, calls[..k]).ok
    ensures SendAll(reply, o, calls[..k + 1]) == Send(reply, SendAll(reply, o, calls[..k]), calls[k])
  {
    assert calls[..k + 1][..k] == calls[..k];
  }

  /** After a failure nothing more is sent. */
  lemma {:induction false} SendStopped(reply: nat -> Reply, o: State, calls: seq<Call>, k: nat)
    requires k <= |calls| && (k == |calls| || !SendAll(reply, o, calls[..k]).ok)
    ensures SendAll(reply, o, calls) == SendAll(reply, o, calls[..k])
    decreases |calls|
  {
    if k == |calls| {
      assert calls[..k] == calls;
    } else {
      assert calls[..|calls| - 1][..k] == calls[..k];
      SendStopped(reply, o, calls[..|calls| - 1], k);
    }
  }

  lemma {:induction false} EndsWithin(s: seq<NamedValue>, n: nat, ends: seq<nat>)
    requires n > 0 && Col(|s|, n) == 0 && ends == Ends(Flags(s, n), |Flags(s, n)|)
    ensures EndsIn(ends, n, |s|)
  {
    var m := WholeRows(|s|, n);
    FlagsPrefix(s, n, m, m);
    var flags := Flags(s, n);
    EndsArePackages(flags, m);
    forall k | 0 <= k < |ends|
      ensures ArgCount(Next(ends[..k]), n) <= ArgCount(ends[k] + 1, n) <= |s|
    {
      assert Package(flags, ends, k);
      ArgCountMonotone(Next(ends[..k]), ends[k] + 1, n);
      ArgCountMonotone(ends[k] + 1, m, n);
    }
  }

  /** The state that exec leaves: a batch is refused as a whole, or its packages are sent up to the first failure. */
  function ExecState(f: Fields, reply: nat -> Reply, o: State, p: Part): (r: State)
    requires |f.out| > 0
  {
    if Accepted(f, p.raw) then SendAll(reply, o, BatchCalls(f, p.raw, p.ofs)) else o.(ok := false)
  }

  /** exec on values: the packages of the converted arguments c end in the rows r. */
  ghost predicate ExecEnds(n: nat, reply: nat -> Reply, o: State, c: seq<NamedValue>, r: Option<seq<nat>>,
                           ofs: int, end: State)
    requires n > 0
  {
    if r.None? then end == o.(ok := false)
    else EndsIn(r.value, n, |c|) && end == SendAll(reply, o, Cut(c, n, ofs, r.value))
  }

  lemma {:induction false} ExecMeans(f: Fields, reply: nat -> Reply, o: State, p: Part, c: seq<NamedValue>,
                                     r: Option<seq<nat>>)
    requires |f.out| > 0 && ConvertedBatch(f, p.raw, c, r)
    ensures ExecEnds(|f.out|, reply, o, c, r, p.ofs, ExecState(f, reply, o, p))
  {
    if r.Some? {
      ColIs(|c|, |f.out|);
      EndsWithin(c, |f.out|, r.value);
    }
  }

  method ConvertRaw(f: Fields, raw: seq<NamedValue>) returns (args: array<NamedValue>, r: Option<seq<nat>>)
    requires |f.out| > 0
    ensures fresh(args) && ConvertedBatch(f, raw, args[..], r)
  {
    args := new NamedValue[|raw|](k requires 0 <= k < |raw| => raw[k]);
    assert args[..] == raw;
    r := ConvertExecArgs(f, args);
  }

  method SendConverted(session: Session, args: array<NamedValue>, n: nat, r: Option<seq<nat>>, ofs: int,
                       ghost end: State)
      returns (total: int, ok: bool)
    requires n > 0 && session.Valid()
    requires ExecEnds(n, session.reply, State(session.calls, 0, true), args[..], r, ofs, end)
    modifies session
    ensures session.Valid()
    ensures State(session.calls, total, ok) == end
  {
    if r.None? {
      return 0, false;
    }
    total, ok := RunPackages(session, args, n, r.value, ofs);
  }

  /** exec. */
  method Exec(session: Session, f: Fields, p: Part) returns (total: int, ok: bool)
    requires |f.out| > 0 && session.Valid()
    modifies session
    ensures session.Valid()
    ensures State(session.calls, total, ok) == ExecState(f, session.reply, State(old(session.calls), 0, true), p)
  {
    var args, r := ConvertRaw(f, p.raw);
    ghost var o := State(session.calls, 0, true);
    ExecMeans(f, session.reply, o, p, args[..], r);
    total, ok := SendConverted(session, args, |f.out|, r, p.ofs, ExecState(f, session.reply, o, p));
  }

  // ---------------------------------------------------------------- batches

  function Raws(parts: seq<Part>): (s: seq<NamedValue>)
  {
    if |parts| == 0 then [] else Raws(parts[..|parts| - 1]) + parts[|parts| - 1].raw
  }

  /** The calls for a list of batches. */
  function Sent(f: Fields, parts: seq<Part>): (calls: seq<Call>)
    requires |f.out| > 0
  {
    if |parts| == 0 then []
    else Sent(f, parts[..|parts| - 1]) + BatchCalls(f, parts[|parts| - 1].raw, parts[|parts| - 1].ofs)
  }

  predicate AllAccepted(f: Fields, parts: seq<Part>)
    requires |f.out| > 0
  {
    |parts| == 0 || (AllAccepted(f, parts[..|parts| - 1]) && Accepted(f, parts[|parts| - 1].raw))
  }

  lemma {:induction false} BatchFlat(f: Fields, raw: seq<NamedValue>, ofs: int)
    requires |f.out| > 0 && Accepted(f, raw)
    ensures ConvertAll(f, raw) == Some(Flat(BatchCalls(f, raw, ofs)))
  {
    PackageInvariant(ConvertAll(f, raw).value, |f.out|, ofs);
  }

  /** Every row is handed to the server once and in order, converted. */
  lemma {:induction false} Conserved(f: Fields, parts: seq<Part>)
    requires |f.out| > 0 && AllAccepted(f, parts)
    ensures Col(|Raws(parts)|, |f.out|) == 0
    ensures ConvertAll(f, Raws(parts)) == Some(Flat(Sent(f, parts)))
  {
    if |parts| > 0 {
      var k := |parts| - 1;
      var init, p := parts[..k], parts[k];
      Conserved(f, init);
      BatchFlat(f, p.raw, p.ofs);
      ConservedNext(f, Raws(init), Sent(f, init), p.raw, BatchCalls(f, p.raw, p.ofs));
    }
  }

  lemma {:induction false} ConservedNext(f: Fields, a: seq<NamedValue>, ca: seq<Call>, b: seq<NamedValue>,
                                         cb: seq<Call>)
    requires |f.out| > 0 && Col(|a|, |f.out|) == 0 && Col(|b|, |f.out|) == 0
    requires ConvertAll(f, a) == Some(Flat(ca)) && ConvertAll(f, b) == Some(Flat(cb))
    ensures Col(|a + b|, |f.out|) == 0 && ConvertAll(f, a + b) == Some(Flat(ca + cb))
  {
    assert |a + b| == |a| + |b|;
    SameColumn(|a|, |b|, |f.out|);
    ConvertConcat(f, a, b);
    FlatConcat(ca, cb);
  }

  /** No batch ends in the middle of a row. */
  predicate AllWhole(parts: seq<Part>, n: nat)
    requires n > 0
  {
    |parts| == 0 || (AllWhole(parts[..|parts| - 1], n) && Col(|parts[|parts| - 1].raw|, n) == 0)
  }

  lemma {:induction false} WholeNext(parts: seq<Part>, p: Part, n: nat)
    requires n > 0 && AllWhole(parts, n) && Col(|p.raw|, n) == 0
    ensures AllWhole(parts + [p], n)
  {
    assert (parts + [p])[..|parts|] == parts;
  }

  /** Batches of whole rows are accepted exactly when every argument can be converted. */
  lemma {:induction false} AcceptedIff(f: Fields, parts: seq<Part>)
    requires |f.out| > 0 && AllWhole(parts, |f.out|)
    ensures Col(|Raws(parts)|, |f.out|) == 0
    ensures AllAccepted(f, parts) <==> ConvertAll(f, Raws(parts)).Some?
  {
    if |parts| > 0 {
      var init, p := parts[..|parts| - 1], parts[|parts| - 1];
      AcceptedIff(f, init);
      SameColumn(|Raws(init)|, |p.raw|, |f.out|);
      ConvertConcat(f, Raws(init), p.raw);
    }
  }

  /** The state after the first k batches; the first failure ends the run. */
  function RunTo(f: Fields, reply: nat -> Reply, s: seq<Call>, parts: seq<Part>, k: nat): (r: State)
    requires |f.out| > 0 && k <= |parts|
  {
    if k == 0 then State(s, 0, true)
    else
      var q := RunTo(f, reply, s, parts, k - 1);
      if q.ok then ExecState(f, reply, q, parts[k - 1]) else q
  }

  /** The state after a list of batches. */
  function RunState(f: Fields, reply: nat -> Reply, s: seq<Call>, parts: seq<Part>): (r: State)
    requires |f.out| > 0
  {
    RunTo(f, reply, s, parts, |parts|)
  }

  /** The first k batches do not depend on those after them. */
  lemma {:induction false} RunLocal(f: Fields, reply: nat -> Reply, s: seq<Call>, a: seq<Part>, b: seq<Part>, k: nat)
    requires |f.out| > 0 && k <= |a| && k <= |b| && forall i :: 0 <= i < k ==> a[i] == b[i]
    ensures RunTo(f, reply, s, a, k) == RunTo(f, reply, s, b, k)
  {
    if k > 0 {
      RunLocal(f, reply, s, a, b, k - 1);
    }
  }

  /** A run is one over all batches but the last, followed by the last. */
  lemma {:induction false} RunLast(f: Fields, reply: nat -> Reply, s: seq<Call>, parts: seq<Part>, init: seq<Part>,
                                   p: Part)
    requires |f.out| > 0 && parts == init + [p]
    ensures var q := RunState(f, reply, s, init);
            RunState(f, reply, s, parts) == if q.ok then ExecState(f, reply, q, p) else q
  {
    RunLocal(f, reply, s, init, parts, |init|);
  }

  /** The first k + 1 states of a run: after a failure no further batch is executed. */
  ghost predicate Trace(f: Fields, reply: nat -> Reply, all: seq<Part>, states: seq<State>, k: nat)
    requires |f.out| > 0 && k <= |all| && k < |states|
  {
    k == 0 || (Trace(f, reply, all, states, k - 1)
               && states[k] == if states[k - 1].ok then ExecState(f, reply, states[k - 1], all[k - 1])
                               else states[k - 1])
  }

  /** The states of a run, the last of which is its result. */
  lemma {:induction false} States(f: Fields, reply: nat -> Reply, s: seq<Call>, all: seq<Part>, k: nat)
      returns (states: seq<State>)
    requires |f.out| > 0 && k <= |all|
    ensures |states| == k + 1 && states[0] == State(s, 0, true) && Trace(f, reply, all, states, k)
    ensures states[k] == RunTo(f, reply, s, all, k)
  {
    if k == 0 {
      states := [State(s, 0, true)];
    } else {
      var before := States(f, reply, s, all, k - 1);
      states := before + [RunTo(f, reply, s, all, k)];
      TraceLocal(f, reply, all, before, states, k - 1);
    }
  }

  lemma {:induction false} TraceLocal(f: Fields, reply: nat -> Reply, all: seq<Part>, a: seq<State>, b: seq<State>,
                                      k: nat)
    requires |f.out| > 0 && k <= |all| && k < |a| && k < |b| && Trace(f, reply, all, a, k)
    requires forall i :: 0 <= i <= k ==> a[i] == b[i]
    ensures Trace(f, reply, all, b, k)
  {
    if k > 0 {
      TraceLocal(f, reply, all, a, b, k - 1);
    }
  }

  lemma {:induction false} TraceAt(f: Fields, reply: nat -> Reply, all: seq<Part>, states: seq<State>, i: nat, k: nat)
    requires |f.out| > 0 && i < k <= |all| && k < |states| && states[i].ok && Trace(f, reply, all, states, k)
    ensures states[i + 1] == ExecState(f, reply, states[i], all[i])
    ensures states[i + 1].ok || states[i + 1] == states[k]
    decreases k
  {
    if i + 1 < k {
      TraceAt(f, reply, all, states, i, k - 1);
    }
  }

  /** A batch is executed for itself; its count is added. */
  lemma {:induction false} ListedNext(f: Fields, reply: nat -> Reply, q: State, p: Part)
    requires |f.out| > 0 && q.ok
    ensures ExecState(f, reply, q, p) == Add(q.total, ExecState(f, reply, State(q.calls, 0, true), p))
  {
    AddLater(reply, q.calls, q.total, BatchCalls(f, p.raw, p.ofs));
  }

  /** The next batch of a run that is in state `q`, comes to `r` and ends in `end`. */
  method RunPart(session: Session, f: Fields, p: Part, total0: int, ghost q: State, ghost r: State, ghost end: State)
      returns (total: int, ok: bool)
    requires |f.out| > 0 && session.Valid() && q == State(session.calls, total0, true)
    requires r == Add(q.total, ExecState(f, session.reply, State(q.calls, 0, true), p)) && (r.ok || r == end)
    modifies session
    ensures session.Valid()
    ensures State(session.calls, total, ok) == if ok then r else end
  {
    total, ok := Exec(session, f, p);
    total := total0 + total;
  }

  /** Executes batch i of the batches `all`, a run through the states `states`. */
  method RunListed(session: Session, f: Fields, p: Part, total0: int, ghost all: seq<Part>, ghost i: nat,
                   ghost states: seq<State>)
      returns (total: int, ok: bool)
    requires |f.out| > 0 && i < |all| && all[i] == p && session.Valid()
    requires |states| == |all| + 1 && Trace(f, session.reply, all, states, |all|)
    requires State(session.calls, total0, true) == states[i]
    modifies session
    ensures session.Valid()
    ensures State(session.calls, total, ok) == states[if ok then i + 1 else |all|]
  {
    TraceAt(f, session.reply, all, states, i, |all|);
    ListedNext(f, session.reply, states[i], p);
    total, ok := RunPart(session, f, p, total0, states[i], states[i + 1], states[|all|]);
  }

  lemma {:induction false} SendAllMeans(reply: nat -> Reply, o: State, calls: seq<Call>)
    requires o.ok
    ensures var r := SendAll(reply, o, calls);
            && o.calls <= r.calls <= o.calls + calls
            && r.total == o.total + Affected(reply, |o.calls|, |r.calls|)
            && (r.ok <==> NoFailure(reply, |o.calls|, |r.calls|))
            && (r.ok ==> r.calls == o.calls + calls)
  {
    if |calls| > 0 {
      var k := |calls| - 1;
      SendAllMeans(reply, o, calls[..k]);
      assert o.calls + calls == (o.calls + calls[..k]) + [calls[k]];
    }
  }

  lemma {:induction false} AffectedSplit(reply: nat -> Reply, a: nat, b: nat, c: nat)
    requires a <= b <= c
    ensures Affected(reply, a, c) == Affected(reply, a, b) + Affected(reply, b, c)
    ensures NoFailure(reply, a, c) <==> NoFailure(reply, a, b) && NoFailure(reply, b, c)
    decreases c
  {
    if b < c {
      AffectedSplit(reply, a, b, c - 1);
    }
  }

  /**
    What a run over batches means: it made the calls for the batches in order, up to the first failure;
    the total counts the rows of the calls that succeeded; and it succeeds exactly when no batch was
    refused and no call failed, all calls then being made.
   */
  lemma {:induction false} RunMeans(f: Fields, reply: nat -> Reply, s: seq<Call>, parts: seq<Part>)
    requires |f.out| > 0
    ensures var r := RunState(f, reply, s, parts);
            && s <= r.calls <= s + Sent(f, parts)
            && r.total == Affected(reply, |s|, |r.calls|)
            && (r.ok ==> AllAccepted(f, parts) && r.calls == s + Sent(f, parts))
            && (r.ok <==> AllAccepted(f, parts) && NoFailure(reply, |s|, |r.calls|))
  {
    if |parts| > 0 {
      var init, p := parts[..|parts| - 1], parts[|parts| - 1];
      RunMeans(f, reply, s, init);
      RunLast(f, reply, s, parts, init, p);
      var q := RunState(f, reply, s, init);
      Assoc(s, Sent(f, init), BatchCalls(f, p.raw, p.ofs));
      if q.ok && Accepted(f, p.raw) {
        SendAllMeans(reply, q, BatchCalls(f, p.raw, p.ofs));
        AffectedSplit(reply, |s|, |q.calls|, |SendAll(reply, q, BatchCalls(f, p.raw, p.ofs)).calls|);
      } else {
        PrefixLonger(q.calls, s + Sent(f, init), BatchCalls(f, p.raw, p.ofs));
      }
    }
  }

  /** The calls of the batches before the first that is refused. */
  function Planned(f: Fields, parts: seq<Part>): (calls: seq<Call>)
    requires |f.out| > 0
  {
    if |parts| == 0 then []
    else
      var init, p := parts[..|parts| - 1], parts[|parts| - 1];
      Planned(f, init) + if AllAccepted(f, init) && Accepted(f, p.raw) then BatchCalls(f, p.raw, p.ofs) else []
  }

  /**
    Where a run stops: its calls are planned ones, in order; none follows one that failed; and unless one
    failed, all of them are made.
   */
  ghost predicate Stops(reply: nat -> Reply, s: seq<Call>, calls: seq<Call>, planned: seq<Call>)
  {
    && s <= calls <= s + planned
    && (|calls| > |s| ==> NoFailure(reply, |s|, |calls| - 1))
    && (NoFailure(reply, |s|, |calls|) ==> calls == s + planned)
  }

  lemma {:induction false} SendAllStops(reply: nat -> Reply, o: State, calls: seq<Call>, r: State)
    requires o.ok && r == SendAll(reply, o, calls)
    ensures Stops(reply, o.calls, r.calls, calls)
  {
    if |calls| > 0 {
      var init := calls[..|calls| - 1];
      SendAllStops(reply, o, init, SendAll(reply, o, init));
      SendAllMeans(reply, o, init);
      SendAllMeans(reply, o, calls);
    } else {
      assert o.calls + calls == o.calls;
    }
  }

  /** The calls of one more batch, after a run without failure. */
  lemma {:induction false} StopsMore(reply: nat -> Reply, s: seq<Call>, t: seq<Call>, calls: seq<Call>,
                                     planned: seq<Call>, batch: seq<Call>)
    requires t == s + planned && NoFailure(reply, |s|, |t|) && Stops(reply, t, calls, batch)
    ensures Stops(reply, s, calls, planned + batch)
  {
    Assoc(s, planned, batch);
    AffectedSplit(reply, |s|, |t|, |calls|);
    if |calls| > |t| {
      AffectedSplit(reply, |s|, |t|, |calls| - 1);
    } else if |calls| > |s| {
      AffectedSplit(reply, |s|, |calls| - 1, |calls|);
    }
  }

  /** A failed run does not go on. */
  lemma {:induction false} StopsLonger(reply: nat -> Reply, s: seq<Call>, calls: seq<Call>, planned: seq<Call>,
                                       more: seq<Call>)
    requires Stops(reply, s, calls, planned) && (more == [] || !NoFailure(reply, |s|, |calls|))
    ensures Stops(reply, s, calls, planned + more)
  {
    Assoc(s, planned, more);
    PrefixLonger(calls, s + planned, more);
    if more == [] {
      assert planned + more == planned;
    }
  }

  lemma {:induction false} RunStops(f: Fields, reply: nat -> Reply, s: seq<Call>, parts: seq<Part>)
    requires |f.out| > 0
    ensures Stops(reply, s, RunState(f, reply, s, parts).calls, Planned(f, parts))
  {
    if |parts| > 0 {
      var init, p := parts[..|parts| - 1], parts[|parts| - 1];
      RunStops(f, reply, s, init);
      RunMeans(f, reply, s, init);
      RunLast(f, reply, s, parts, init, p);
      var q, batch := RunState(f, reply, s, init), BatchCalls(f, p.raw, p.ofs);
      if q.ok && Accepted(f, p.raw) {
        SendAllStops(reply, q, batch, SendAll(reply, q, batch));
        StopsMore(reply, s, q.calls, SendAll(reply, q, batch).calls, Planned(f, init), batch);
      } else {
        var more := if AllAccepted(f, init) && Accepted(f, p.raw) then batch else [];
        StopsLonger(reply, s, q.calls, Planned(f, init), more);
      }
    } else {
      assert s + [] == s;
    }
  }

  /** A successful run hands every argument, converted, to the server exactly once and in order. */
  lemma {:induction false} HandedOver(f: Fields, reply: nat -> Reply, s: seq<Call>, parts: seq<Part>)
    requires |f.out| > 0 && RunState(f, reply, s, parts).ok
    ensures var r := RunState(f, reply, s, parts);
            s <= r.calls && ConvertAll(f, Raws(parts)) == Some(Flat(r.calls[|s|..]))
  {
    RunMeans(f, reply, s, parts);
    Conserved(f, parts);
    assert RunState(f, reply, s, parts).calls[|s|..] == Sent(f, parts);
  }

  lemma PrefixLonger(a: seq<Call>, b: seq<Call>, c: seq<Call>)
    requires a <= b
    ensures a <= b + c
  {
  }

  /** The row offset of every batch is the number of rows before it. */
  ghost predicate OffsetsRight(parts: seq<Part>, n: nat)
  {
    |parts| > 0 ==>
      var init, p := parts[..|parts| - 1], parts[|parts| - 1];
      OffsetsRight(init, n) && (p.raw == [] || |Raws(init)| == ArgCount(p.ofs, n))
  }

  lemma {:induction false} OffsetsNext(parts: seq<Part>, p: Part, n: nat)
    ensures OffsetsRight(parts + [p], n)
        <==> (OffsetsRight(parts, n) && (p.raw == [] || |Raws(parts)| == ArgCount(p.ofs, n)))
  {
    assert (parts + [p])[..|parts|] == parts;
  }

  /** A run that has handed over the first `at` arguments. */
  ghost predicate Sending(f: Fields, nvargs: seq<NamedValue>, parts: seq<Part>, at: nat)
  {
    at <= |nvargs| && Raws(parts) == nvargs[..at] && OffsetsRight(parts, |f.out|)
  }
}
