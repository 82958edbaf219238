/**
  The bulk operations of driver/stmt.go: execMany over a slice of arguments, execFct over a row function
  and execSeq over an iterator of rows.
 */
module BulkExec {
  import opened Bytes
  import opened Bulk
  import opened ErrorRows
  import opened Batches
  import opened RowNumbers

  // ---------------------------------------------------------------- batches of bulkSize rows

  /** The number of whole groups of n in len: len / n, by subtraction. */
  function Whole(len: nat, n: nat): (r: nat)
    requires n > 0
    ensures ArgCount(r, n) <= len < ArgCount(r, n) + n
  {
    if len < n then 0 else Whole(len - n, n) + 1
  }

  lemma {:induction false} WholeUnique(len: nat, n: nat, r: nat)
    requires n > 0 && ArgCount(r, n) <= len < ArgCount(r, n) + n
    ensures r == Whole(len, n)
  {
    if len >= n {
      WholeUnique(len - n, n, r - 1);
    }
  }

  /** The arguments before batch i of b rows of n arguments. */
  function Start(args: seq<NamedValue>, b: nat, n: nat, i: nat): (k: nat)
    ensures k <= |args|
  {
    Min(ArgCount(ArgCount(i, b), n), |args|)
  }

  lemma StartGrows(args: seq<NamedValue>, b: nat, n: nat, i: nat)
    ensures Start(args, b, n, i) <= Start(args, b, n, i + 1)
  {
    ArgCountMonotone(ArgCount(i, b), ArgCount(i + 1, b), n);
  }

  /** Batch i: the next bulkSize rows, or the rest; its offset is the number of rows before it. */
  function NthBatch(args: seq<NamedValue>, b: nat, n: nat, i: nat): (p: Part)
  {
    StartGrows(args, b, n, i);
    Part(args[Start(args, b, n, i)..Start(args, b, n, i + 1)], ArgCount(i, b))
  }

  function FirstBatches(args: seq<NamedValue>, b: nat, n: nat, k: nat): (parts: seq<Part>)
    ensures |parts| == k
  {
    if k == 0 then [] else FirstBatches(args, b, n, k - 1) + [NthBatch(args, b, n, k - 1)]
  }

  lemma {:induction false} FirstAt(args: seq<NamedValue>, b: nat, n: nat, k: nat, i: nat)
    requires i < k
    ensures FirstBatches(args, b, n, k)[i] == NthBatch(args, b, n, i)
    decreases k
  {
    if i < k - 1 {
      FirstAt(args, b, n, k - 1, i);
    }
  }

  /** The first k batches hold the first arguments, once and in order, at right offsets. */
  lemma {:induction false} FirstSent(args: seq<NamedValue>, b: nat, n: nat, k: nat)
    requires n > 0 && Col(|args|, n) == 0
    ensures Raws(FirstBatches(args, b, n, k)) == args[..Start(args, b, n, k)]
    ensures OffsetsRight(FirstBatches(args, b, n, k), n) && AllWhole(FirstBatches(args, b, n, k), n)
  {
    if k > 0 {
      FirstSent(args, b, n, k - 1);
      var init, p := FirstBatches(args, b, n, k - 1), NthBatch(args, b, n, k - 1);
      SentNextBatch(args, b, n, k - 1, init, p, Start(args, b, n, k - 1), Start(args, b, n, k));
    }
  }

  lemma {:induction false} SentNextBatch(args: seq<NamedValue>, b: nat, n: nat, i: nat, init: seq<Part>, p: Part,
                                         from: nat, to: nat)
    requires n > 0 && Col(|args|, n) == 0 && p == NthBatch(args, b, n, i)
    requires from == Start(args, b, n, i) && to == Start(args, b, n, i + 1)
    requires Raws(init) == args[..from] && OffsetsRight(init, n) && AllWhole(init, n)
    ensures Raws(init + [p]) == args[..to] && OffsetsRight(init + [p], n) && AllWhole(init + [p], n)
  {
    StartGrows(args, b, n, i);
    RawsNext(init, p);
    assert args[..from] + args[from..to] == args[..to];
    OffsetsNext(init, p, n);
    WholeBatch(|args|, n, ArgCount(i, b), from);
    WholeBatch(|args|, n, ArgCount(i + 1, b), to);
    SameColumn(from, to - from, n);
    WholeNext(init, p, n);
  }

  lemma {:induction false} WholeBatch(len: nat, n: nat, rows: nat, k: nat)
    requires n > 0 && Col(len, n) == 0 && k == Min(ArgCount(rows, n), len)
    ensures Col(k, n) == 0
  {
    ArgCountWhole(rows, n);
  }

  // ---------------------------------------------------------------- execMany

  /** The batches of execMany: as many as it takes for all rows, the last one possibly shorter. */
  function ManyParts(nvargs: seq<NamedValue>, b: nat, n: nat): (parts: seq<Part>)
    requires b > 0 && n > 0
  {
    FirstBatches(nvargs, b, n, ManyCount(nvargs, b, n))
  }

  /** The rows divided by the bulk size, rounded up. */
  function ManyCount(nvargs: seq<NamedValue>, b: nat, n: nat): (k: nat)
    requires b > 0 && n > 0
  {
    Whole(Whole(|nvargs|, n) + (b - 1), b)
  }

  /** They hold all arguments, once and in order, at right offsets. */
  lemma {:induction false} ManyHandsOver(nvargs: seq<NamedValue>, b: nat, n: nat)
    requires b > 0 && n > 0 && Col(|nvargs|, n) == 0
    ensures Raws(ManyParts(nvargs, b, n)) == nvargs
    ensures OffsetsRight(ManyParts(nvargs, b, n), n) && AllWhole(ManyParts(nvargs, b, n), n)
  {
    var numRec, k := Whole(|nvargs|, n), ManyCount(nvargs, b, n);
    var m := WholeRows(|nvargs|, n);
    WholeUnique(|nvargs|, n, m);
    ArgCountMonotone(numRec, ArgCount(k, b), n);
    FirstSent(nvargs, b, n, k);
    assert Start(nvargs, b, n, k) == |nvargs|;
    assert nvargs[..|nvargs|] == nvargs;
  }

  /** The bounds of the i-th batch in the arguments, and its row offset. */
  method BatchBounds(i: nat, b: nat, n: nat, len: nat) returns (from: nat, to: nat, ofs: nat)
    requires b > 0 && n > 0
    ensures from == ArgCount(ArgCount(i, b), n) && ofs == ArgCount(i, b)
    ensures to == Min(ArgCount(ArgCount(i + 1, b), n), len)
  {
    Product(i, b, n);
    Product(i + 1, b, n);
    ArgCountIs(i, b);
    from, to, ofs := i * n * b, (i + 1) * n * b, i * b;
    if to > len {
      to := len;
    }
  }

  lemma {:induction false} Product(i: nat, b: nat, n: nat)
    requires b > 0 && n > 0
    ensures i * n * b == ArgCount(ArgCount(i, b), n)
  {
    ArgCountIs(i, b);
    ArgCountIs(i * b, n);
    assert i * n * b == (i * b) * n;
  }

  /** The number of batches: numRec / bulkSize rounded up. */
  method NumBatch(numRec: nat, b: nat) returns (r: nat)
    requires b > 0
    ensures r == Whole(numRec + (b - 1), b)
  {
    r := numRec / b;
    ArgCountIs(r, b);
    assert numRec == r * b + numRec % b;
    if numRec % b != 0 {
      r := r + 1;
    }
    WholeUnique(numRec + (b - 1), b, r);
  }

  /** The i-th batch begins within the arguments. */
  lemma {:induction false} BatchBegins(nvargs: seq<NamedValue>, b: nat, n: nat, i: nat)
    requires b > 0 && n > 0 && i < ManyCount(nvargs, b, n)
    ensures ArgCount(ArgCount(i, b), n) <= |nvargs|
  {
    ArgCountMonotone(i + 1, ManyCount(nvargs, b, n), b);
    ArgCountMonotone(ArgCount(i, b), Whole(|nvargs|, n), n);
  }

  /** Every batch has bulkSize rows, but for the last one, which has a row at least. */
  lemma {:induction false} ManySizes(nvargs: seq<NamedValue>, b: nat, n: nat, i: nat)
    requires b > 0 && n > 0 && Col(|nvargs|, n) == 0 && i < |ManyParts(nvargs, b, n)|
    ensures 0 < |ManyParts(nvargs, b, n)[i].raw| <= ArgCount(b, n)
    ensures i + 1 < |ManyParts(nvargs, b, n)| ==> |ManyParts(nvargs, b, n)[i].raw| == ArgCount(b, n)
  {
    var k := ManyCount(nvargs, b, n);
    FirstAt(nvargs, b, n, k, i);
    BatchBegins(nvargs, b, n, i);
    ArgCountSum(ArgCount(i, b), b, n);
    if i + 1 < k {
      BatchBegins(nvargs, b, n, i + 1);
    } else {
      var m := WholeRows(|nvargs|, n);
      WholeUnique(|nvargs|, n, m);
      ArgCountGrows(ArgCount(i, b), m, n);
    }
    ArgCountGrows(0, b, n);
  }

  /**
    execMany: the run over the batches of bulkSize rows, with what that promises (Promised). The offsets
    of the batches are right, so that errors name rows when every batch is a single package.
   */
  method ExecMany(session: Session, f: Fields, nvargs: seq<NamedValue>, bulkSize: nat) returns (total: int, ok: bool)
    requires |f.out| > 0 && bulkSize > 0 && Col(|nvargs|, |f.out|) == 0 && session.Valid()
    modifies session
    ensures session.Valid()
    ensures State(session.calls, total, ok)
            == RunState(f, session.reply, old(session.calls), ManyParts(nvargs, bulkSize, |f.out|))
    ensures OffsetsRight(ManyParts(nvargs, bulkSize, |f.out|), |f.out|)
    ensures Promised(f, nvargs, session.reply, old(session.calls), State(session.calls, total, ok),
                     ManyParts(nvargs, bulkSize, |f.out|), true)
  {
    total, ok := ManyBatches(session, f, nvargs, bulkSize);
    ghost var parts := ManyParts(nvargs, bulkSize, |f.out|);
    ManyHandsOver(nvargs, bulkSize, |f.out|);
    assert nvargs[..|nvargs|] == nvargs;
    BulkPromise(f, nvargs, session.reply, old(session.calls), parts, |nvargs|, State(session.calls, total, ok), true);
  }

  /** The loop of execMany. */
  method ManyBatches(session: Session, f: Fields, nvargs: seq<NamedValue>, bulkSize: nat)
      returns (total: int, ok: bool)
    requires |f.out| > 0 && bulkSize > 0 && Col(|nvargs|, |f.out|) == 0 && session.Valid()
    modifies session
    ensures session.Valid()
    ensures State(session.calls, total, ok)
            == RunState(f, session.reply, old(session.calls), ManyParts(nvargs, bulkSize, |f.out|))
  {
    var n := |f.out|;
    var numRec := RowCount(|nvargs|, n);
    WholeUnique(|nvargs|, n, numRec);
    var numBatch := NumBatch(numRec, bulkSize);
    total := 0;
    ghost var all := ManyParts(nvargs, bulkSize, n);
    ghost var states := States(f, session.reply, session.calls, all, |all|);
    for i := 0 to numBatch
      invariant session.Valid() && |all| == numBatch
      invariant State(session.calls, total, true) == states[i]
    {
      var p := ManyNext(nvargs, bulkSize, n, i);
      FirstAt(nvargs, bulkSize, n, numBatch, i);
      total, ok := RunListed(session, f, p, total, all, i, states);
      if !ok {
        return;
      }
    }
    ok := true;
  }

  method ManyNext(nvargs: seq<NamedValue>, b: nat, n: nat, i: nat) returns (p: Part)
    requires b > 0 && n > 0 && i < ManyCount(nvargs, b, n)
    ensures p == NthBatch(nvargs, b, n, i)
  {
    BatchBegins(nvargs, b, n, i);
    var from, to, ofs := BatchBounds(i, b, n, |nvargs|);
    StartGrows(nvargs, b, n, i);
    p := Part(nvargs[from..to], ofs);
  }

  // ---------------------------------------------------------------- rows from a function or an iterator

  datatype Row = Row(args: seq<NamedValue>)

  function Rows(rows: seq<Row>): (s: seq<NamedValue>)
  {
    if |rows| == 0 then [] else Rows(rows[..|rows| - 1]) + rows[|rows| - 1].args
  }

  predicate Regular(rows: seq<Row>, n: nat)
  {
    forall i :: 0 <= i < |rows| ==> |rows[i].args| == n
  }

  lemma RowsNext(rows: seq<Row>, k: nat)
    requires k < |rows|
    ensures Rows(rows[..k + 1]) == Rows(rows[..k]) + rows[k].args
  {
    assert rows[..k + 1][..k] == rows[..k];
  }

  lemma {:induction false} RowsLength(rows: seq<Row>, n: nat)
    requires Regular(rows, n)
    ensures |Rows(rows)| == ArgCount(|rows|, n)
  {
    if |rows| > 0 {
      RowsLength(rows[..|rows| - 1], n);
    }
  }

  /** The arguments of the first rows are the first arguments. */
  lemma {:induction false} RowsPrefix(rows: seq<Row>, n: nat, k: nat)
    requires Regular(rows, n) && k <= |rows|
    ensures |Rows(rows[..k])| == ArgCount(k, n) <= |Rows(rows)| && Rows(rows[..k]) == Rows(rows)[..ArgCount(k, n)]
    decreases |rows|
  {
    RowsLength(rows[..k], n);
    if k == |rows| {
      assert rows[..k] == rows;
    } else {
      var init := rows[..|rows| - 1];
      RowsPrefix(init, n, k);
      assert init[..k] == rows[..k];
    }
  }

  /** execFct's inner loop: up to bulkSize rows; `done` at the end of the rows. */
  method Collect(rows: seq<Row>, pos0: nat, bulkSize: nat, ghost n: nat)
      returns (args: seq<NamedValue>, pos: nat, done: bool)
    requires pos0 <= |rows| && Regular(rows, n)
    ensures pos == Min(pos0 + bulkSize, |rows|) && done == (pos0 + bulkSize > |rows|)
    ensures Rows(rows[..pos]) == Rows(rows[..pos0]) + args
  {
    args, pos, done := [], pos0, false;
    for k := 0 to bulkSize
      invariant pos == pos0 + k <= |rows| && !done
      invariant Rows(rows[..pos]) == Rows(rows[..pos0]) + args
    {
      if pos == |rows| {
        done := true;
        return;
      }
      RowsNext(rows, pos);
      Assoc(Rows(rows[..pos0]), args, rows[pos].args);
      args, pos := args + rows[pos].args, pos + 1;
    }
  }

  method Offset(batch: nat, bulkSize: nat) returns (ofs: nat)
    requires bulkSize > 0
    ensures ofs == ArgCount(batch, bulkSize)
  {
    ArgCountIs(batch, bulkSize);
    ofs := batch * bulkSize;
  }

  /** The batches of execFct: those of bulkSize rows and, at the end of the rows (`clean`), the possibly empty rest. */
  function FctParts(rows: seq<Row>, b: nat, n: nat, clean: bool): (parts: seq<Part>)
    requires b > 0
  {
    FirstBatches(Rows(rows), b, n, Whole(|rows|, b) + if clean then 1 else 0)
  }

  /** At the end of the rows they hold all of them. */
  lemma {:induction false} FctHandsOver(rows: seq<Row>, b: nat, n: nat, clean: bool)
    requires b > 0 && n > 0 && Regular(rows, n)
    ensures Col(|Rows(rows)|, n) == 0
    ensures OffsetsRight(FctParts(rows, b, n, clean), n) && AllWhole(FctParts(rows, b, n, clean), n)
    ensures clean ==> Raws(FctParts(rows, b, n, clean)) == Rows(rows)
  {
    var k := Whole(|rows|, b) + if clean then 1 else 0;
    RowsLength(rows, n);
    ArgCountWhole(|rows|, n);
    FirstSent(Rows(rows), b, n, k);
    if clean {
      ArgCountMonotone(|rows|, ArgCount(k, b), n);
      assert Start(Rows(rows), b, n, k) == |Rows(rows)|;
      assert Rows(rows)[..|Rows(rows)|] == Rows(rows);
    }
  }

  /** The rows from pos to pos1 that execFct collects are batch i. */
  lemma {:induction false} FctBatch(rows: seq<Row>, b: nat, n: nat, i: nat, args: seq<NamedValue>, pos: nat,
                                    pos1: nat)
    requires b > 0 && n > 0 && Regular(rows, n) && pos == ArgCount(i, b) <= |rows| && pos1 == Min(pos + b, |rows|)
    requires Rows(rows[..pos1]) == Rows(rows[..pos]) + args
    ensures Part(args, pos) == NthBatch(Rows(rows), b, n, i)
  {
    var all := Rows(rows);
    RowsLength(rows, n);
    RowsPrefix(rows, n, pos);
    RowsPrefix(rows, n, pos1);
    ArgCountMonotone(if pos + b < |rows| then pos + b else |rows|, if pos + b < |rows| then |rows| else pos + b, n);
    StartGrows(all, b, n, i);
    Between(all, args, ArgCount(pos, n), ArgCount(pos1, n));
  }

  lemma Between(all: seq<NamedValue>, args: seq<NamedValue>, from: nat, to: nat)
    requires from <= to <= |all| && all[..to] == all[..from] + args
    ensures args == all[from..to]
  {
    assert all[..to][from..] == all[from..to];
  }

  /**
    execFct over the rows that the function yields; it then reports the end of rows (`clean`) or an
    error. A row of the function has one value per field. It promises what execMany promises; after an
    error the rows of the incomplete batch are not sent.
   */
  method ExecFct(session: Session, f: Fields, rows: seq<Row>, clean: bool, bulkSize: nat)
      returns (total: int, ok: bool)
    requires |f.out| > 0 && bulkSize > 0 && Regular(rows, |f.out|) && session.Valid()
    modifies session
    ensures session.Valid()
    ensures var r := RunState(f, session.reply, old(session.calls), FctParts(rows, bulkSize, |f.out|, clean));
            State(session.calls, total, ok) == r.(ok := r.ok && clean)
    ensures OffsetsRight(FctParts(rows, bulkSize, |f.out|, clean), |f.out|)
    ensures Promised(f, Rows(rows), session.reply, old(session.calls), State(session.calls, total, ok),
                     FctParts(rows, bulkSize, |f.out|, clean), clean)
  {
    ghost var sent;
    total, ok, sent := FctBatches(session, f, rows, clean, bulkSize);
    FctPromise(f, rows, clean, bulkSize, session.reply, old(session.calls), State(session.calls, total, sent));
  }

  lemma {:induction false} FctPromise(f: Fields, rows: seq<Row>, clean: bool, b: nat, reply: nat -> Reply, s: seq<Call>,
                                      r: State)
    requires |f.out| > 0 && b > 0 && Regular(rows, |f.out|)
    requires r == RunState(f, reply, s, FctParts(rows, b, |f.out|, clean))
    ensures OffsetsRight(FctParts(rows, b, |f.out|, clean), |f.out|)
    ensures Promised(f, Rows(rows), reply, s, r.(ok := r.ok && clean), FctParts(rows, b, |f.out|, clean), clean)
  {
    var n, k := |f.out|, Whole(|rows|, b) + if clean then 1 else 0;
    FctHandsOver(rows, b, n, clean);
    FirstSent(Rows(rows), b, n, k);
    var at := Start(Rows(rows), b, n, k);
    if clean {
      assert |Raws(FctParts(rows, b, n, clean))| == at;
    }
    BulkPromise(f, Rows(rows), reply, s, FctParts(rows, b, n, clean), at, r, clean);
  }

  /** The next batch of execFct, unless the function reports an error (`failed`) instead of the end of rows. */
  method FctNext(rows: seq<Row>, clean: bool, bulkSize: nat, batch: nat, pos0: nat, ghost n: nat, ghost all: seq<Part>)
      returns (p: Part, failed: bool, done: bool, pos: nat)
    requires n > 0 && bulkSize > 0 && Regular(rows, n) && pos0 == ArgCount(batch, bulkSize) <= |rows|
    requires all == FctParts(rows, bulkSize, n, clean)
    ensures failed == (done && !clean) && pos0 <= pos <= |rows|
    ensures !done ==> pos0 < pos == ArgCount(batch + 1, bulkSize)
    ensures if failed then batch == |all| else batch < |all| && all[batch] == p
    ensures done && clean ==> batch + 1 == |all|
  {
    var ofs := Offset(batch, bulkSize);
    var args;
    args, pos, done := Collect(rows, pos0, bulkSize, n);
    BatchNumber(|rows|, bulkSize, batch, done);
    FctBatch(rows, bulkSize, n, batch, args, pos0, pos);
    p, failed := Part(args, ofs), done && !clean;
    if !failed {
      FirstAt(Rows(rows), bulkSize, n, |all|, batch);
    }
  }

  /** The loop of execFct; `sent` tells whether every batch was executed. */
  method FctBatches(session: Session, f: Fields, rows: seq<Row>, clean: bool, bulkSize: nat)
      returns (total: int, ok: bool, ghost sent: bool)
    requires |f.out| > 0 && bulkSize > 0 && Regular(rows, |f.out|) && session.Valid()
    modifies session
    ensures session.Valid() && ok == (sent && clean)
    ensures State(session.calls, total, sent)
            == RunState(f, session.reply, old(session.calls), FctParts(rows, bulkSize, |f.out|, clean))
  {
    ghost var all := FctParts(rows, bulkSize, |f.out|, clean);
    ghost var states := States(f, session.reply, session.calls, all, |all|);
    total := 0;
    var done, pos, batch := false, 0, 0;
    while !done
      invariant session.Valid() && pos <= |rows| && batch <= |all|
      invariant if done then batch == |all| && clean else pos == ArgCount(batch, bulkSize)
      invariant State(session.calls, total, true) == states[batch]
      decreases |rows| - pos, !done
    {
      var p, failed;
      p, failed, done, pos := FctNext(rows, clean, bulkSize, batch, pos, |f.out|, all);
      if failed {
        return total, false, true;
      }
      total, ok := RunListed(session, f, p, total, all, batch, states);
      if !ok {
        return total, false, false;
      }
      batch := batch + 1;
    }
    ok, sent := true, true;
  }

  /** The batch after all whole ones is the last. */
  lemma {:induction false} BatchNumber(len: nat, b: nat, i: nat, last: bool)
    requires b > 0 && ArgCount(i, b) <= len && last == (ArgCount(i, b) + b > len)
    ensures if last then i == Whole(len, b) else i + 1 <= Whole(len, b)
  {
    if last {
      WholeUnique(len, b, i);
    } else if Whole(len, b) <= i {
      ArgCountMonotone(Whole(len, b), i, b);
      assert false;
    }
  }

  // ---------------------------------------------------------------- execSeq

  /**
    The batches that execSeq has sent after m rows. The row counter is not reset when a batch is sent:
    after the first bulkSize rows, every row is a batch of its own, yet counts as bulkSize rows in the offset.
   */
  function SeqParts(rows: seq<Row>, b: nat, m: nat): (parts: seq<Part>)
    requires m <= |rows| && b > 0
    ensures |parts| == SeqCount(b, m)
    decreases m
  {
    if m < b then [] else SeqParts(rows, b, m - 1) + [NextPart(rows, b, m - 1, SeqParts(rows, b, m - 1))]
  }

  function SeqCount(b: nat, m: nat): (k: nat)
  {
    if m < b then 0 else m - b + 1
  }

  /** The rows not yet sent. */
  function Pending(rows: seq<Row>, b: nat, m: nat): (args: seq<NamedValue>)
    requires m <= |rows|
  {
    if m < b then Rows(rows[..m]) else []
  }

  function NextPart(rows: seq<Row>, b: nat, m: nat, parts: seq<Part>): (p: Part)
    requires m < |rows|
  {
    Part(Pending(rows, b, m) + rows[m].args, ArgCount(|parts|, b))
  }

  /** All batches: a last one, possibly empty, follows whenever there were rows. */
  function SeqAll(rows: seq<Row>, b: nat): (parts: seq<Part>)
    requires b > 0
  {
    var parts := SeqParts(rows, b, |rows|);
    if |rows| == 0 then parts else parts + [Part(Pending(rows, b, |rows|), ArgCount(|parts|, b))]
  }

  lemma {:induction false} SeqRaws(rows: seq<Row>, b: nat, m: nat)
    requires m <= |rows| && b > 0
    ensures m >= b ==> Raws(SeqParts(rows, b, m)) == Rows(rows[..m])
    decreases m
  {
    if m >= b {
      SeqRaws(rows, b, m - 1);
      RowsNext(rows, m - 1);
      var parts := SeqParts(rows, b, m - 1);
      RawsNext(parts, NextPart(rows, b, m - 1, parts));
      PendingNext(rows, b, m - 1, Raws(parts));
    }
  }

  /** What was sent, what is pending and the next row. */
  lemma PendingNext(rows: seq<Row>, b: nat, m: nat, sent: seq<NamedValue>)
    requires m < |rows| && sent == (if m < b then [] else Rows(rows[..m]))
    ensures sent + (Pending(rows, b, m) + rows[m].args) == Rows(rows[..m]) + rows[m].args
  {
  }

  lemma {:induction false} RawsNext(parts: seq<Part>, p: Part)
    ensures Raws(parts + [p]) == Raws(parts) + p.raw
  {
    assert (parts + [p])[..|parts|] == parts;
  }

  /** execSeq hands every row over once and in order as well. */
  lemma {:induction false} SeqHandsOver(rows: seq<Row>, b: nat)
    requires b > 0
    ensures Raws(SeqAll(rows, b)) == Rows(rows)
  {
    var parts := SeqParts(rows, b, |rows|);
    SeqRaws(rows, b, |rows|);
    assert rows[..|rows|] == rows;
    if |rows| > 0 {
      var p := Part(Pending(rows, b, |rows|), ArgCount(|parts|, b));
      RawsNext(parts, p);
      assert Raws(parts) + p.raw == Rows(rows);
    }
  }

  lemma {:induction false} ArgCountGrows(a: nat, c: nat, n: nat)
    requires n > 0 && a < c
    ensures ArgCount(a, n) < ArgCount(c, n)
    decreases c
  {
    if a < c - 1 {
      ArgCountGrows(a, c - 1, n);
    }
  }

  lemma {:induction false} ArgCountInjective(a: nat, c: nat, n: nat)
    requires n > 0
    ensures ArgCount(a, n) == ArgCount(c, n) <==> a == c
  {
    if a < c {
      ArgCountGrows(a, c, n);
    } else if c < a {
      ArgCountGrows(c, a, n);
    }
  }

  /** The k-th single row has row number b + k - 1 and offset k * b. */
  lemma {:induction false} SingleOffset(b: nat, k: nat)
    requires b > 0 && k > 0
    ensures ArgCount(k, b) >= b + k - 1 && (ArgCount(k, b) == b + k - 1 <==> k == 1 || b == 1)
  {
    if k > 1 {
      SingleOffset(b, k - 1);
    }
  }

  lemma {:induction false} SeqOffsetsSoFar(rows: seq<Row>, b: nat, n: nat, m: nat)
    requires m <= |rows| && b > 0 && n > 0 && Regular(rows, n)
    ensures OffsetsRight(SeqParts(rows, b, m), n) <==> b == 1 || m <= b + 1
    decreases m
  {
    if m >= b {
      SeqOffsetsSoFar(rows, b, n, m - 1);
      var parts := SeqParts(rows, b, m - 1);
      var p := NextPart(rows, b, m - 1, parts);
      OffsetsNext(parts, p, n);
      NextOffset(rows, b, n, m, parts, p);
    }
  }

  lemma RightOffset(b: nat, m: nat, n: nat, sent: nat, ofs: nat)
    requires 0 < b < m && n > 0 && sent == ArgCount(m - 1, n) && ofs == ArgCount(m - b, b)
    ensures sent == ArgCount(ofs, n) <==> b == 1 || m <= b + 1
  {
    SingleOffset(b, m - b);
    ArgCountInjective(m - 1, ofs, n);
  }

  lemma {:induction false} SentLength(rows: seq<Row>, b: nat, n: nat, k: nat, parts: seq<Part>)
    requires 0 < b <= k <= |rows| && Regular(rows, n) && parts == SeqParts(rows, b, k)
    ensures |Raws(parts)| == ArgCount(k, n)
  {
    SeqRaws(rows, b, k);
    RowsPrefix(rows, n, k);
  }

  lemma NextNotEmpty(rows: seq<Row>, b: nat, n: nat, m: nat, parts: seq<Part>)
    requires m < |rows| && n > 0 && Regular(rows, n)
    ensures NextPart(rows, b, m, parts).raw != []
  {
    assert |rows[m].args| == n;
  }

  lemma NextOffset(rows: seq<Row>, b: nat, n: nat, m: nat, parts: seq<Part>, p: Part)
    requires 0 < b <= m <= |rows| && n > 0 && Regular(rows, n)
    requires parts == SeqParts(rows, b, m - 1) && p == NextPart(rows, b, m - 1, parts)
    ensures p.raw != []
    ensures |Raws(parts)| == ArgCount(p.ofs, n) <==> b == 1 || m <= b + 1
  {
    NextNotEmpty(rows, b, n, m - 1, parts);
    if m > b {
      SentLength(rows, b, n, m - 1, parts);
      RightOffset(b, m, n, |Raws(parts)|, p.ofs);
    }
  }

  /** The offsets of execSeq are right exactly for bulk size 1 and for at most one row more than a bulk. */
  lemma {:induction false} SeqOffsets(rows: seq<Row>, b: nat, n: nat)
    requires b > 0 && n > 0 && Regular(rows, n)
    ensures OffsetsRight(SeqAll(rows, b), n) <==> b == 1 || |rows| <= b + 1
  {
    var parts := SeqParts(rows, b, |rows|);
    SeqOffsetsSoFar(rows, b, n, |rows|);
    if |rows| > 0 {
      var p := Part(Pending(rows, b, |rows|), ArgCount(|parts|, b));
      OffsetsNext(parts, p, n);
    }
  }

  /** Four rows in bulks of two: the row with number 3 is executed with offset 4. */
  lemma SeqOffsetsWrong(rows: seq<Row>)
    requires |rows| == 4 && Regular(rows, 1)
    ensures |SeqAll(rows, 2)| == 4 && SeqAll(rows, 2)[2] == Part(rows[3].args, 4)
    ensures |Raws(SeqAll(rows, 2)[..2])| == ArgCount(3, 1)
    ensures !OffsetsRight(SeqAll(rows, 2), 1)
  {
    var parts := SeqParts(rows, 2, 3);
    SeqOffsets(rows, 2, 1);
    SentLength(rows, 2, 1, 3, parts);
    assert SeqParts(rows, 2, 4) == parts + [Part([] + rows[3].args, ArgCount(2, 2))];
    assert SeqAll(rows, 2)[..2] == parts;
    assert ArgCount(2, 2) == ArgCount(1, 2) + 2 == 4;
  }

  /** One more row: it is pending, or it completes a batch. */
  lemma SeqStep(rows: seq<Row>, b: nat, m: nat, args: seq<NamedValue>, parts: seq<Part>)
    requires b > 0 && m < |rows| && args == Pending(rows, b, m) && parts == SeqParts(rows, b, m)
    ensures m + 1 < b ==> Pending(rows, b, m + 1) == args + rows[m].args && SeqParts(rows, b, m + 1) == parts
    ensures m + 1 >= b ==> Pending(rows, b, m + 1) == []
    ensures m + 1 >= b ==> SeqParts(rows, b, m + 1) == parts + [Part(args + rows[m].args, ArgCount(|parts|, b))]
  {
    RowsNext(rows, m);
  }

  lemma {:induction false} SeqPrefix(rows: seq<Row>, b: nat, m: nat, k: nat)
    requires b > 0 && m <= k <= |rows|
    ensures SeqParts(rows, b, m) <= SeqParts(rows, b, k)
    decreases k
  {
    if m < k {
      SeqPrefix(rows, b, m, k - 1);
    }
  }

  /** The first row from m on that has not n arguments, or the number of rows. */
  function Leading(rows: seq<Row>, n: nat, m: nat): (k: nat)
    requires m <= |rows|
    ensures m <= k <= |rows| && (forall i :: m <= i < k ==> |rows[i].args| == n)
    ensures k < |rows| ==> |rows[k].args| != n
    decreases |rows| - m
  {
    if m == |rows| || |rows[m].args| != n then m else Leading(rows, n, m + 1)
  }

  /** The batches of execSeq when its first k rows have the right number of arguments. */
  function SeqSent(rows: seq<Row>, b: nat, k: nat): (parts: seq<Part>)
    requires b > 0 && k <= |rows|
  {
    if k == |rows| then SeqAll(rows, b) else SeqParts(rows, b, k)
  }

  /** Row m is pending, or it completes the next batch. */
  lemma {:induction false} SeqAt(rows: seq<Row>, b: nat, m: nat, k: nat, args: seq<NamedValue>, batch: nat,
                                 all: seq<Part>)
    requires b > 0 && m < k <= |rows| && args == Pending(rows, b, m) && batch == SeqCount(b, m)
    requires all == SeqSent(rows, b, k)
    ensures Pending(rows, b, m + 1) == if m + 1 < b then args + rows[m].args else []
    ensures m + 1 >= b ==> batch < |all| && all[batch] == Part(args + rows[m].args, ArgCount(batch, b))
  {
    SeqStep(rows, b, m, args, SeqParts(rows, b, m));
    if m + 1 >= b {
      SeqPrefix(rows, b, m + 1, k);
      assert all[batch] == SeqParts(rows, b, k)[batch] == SeqParts(rows, b, m + 1)[batch];
    }
  }

  lemma {:induction false} SeqWhole(rows: seq<Row>, b: nat, n: nat, m: nat)
    requires b > 0 && n > 0 && m <= |rows| && Regular(rows[..m], n)
    ensures AllWhole(SeqParts(rows, b, m), n) && Col(|Pending(rows, b, m)|, n) == 0
    decreases m
  {
    RowsLength(rows[..m], n);
    ArgCountWhole(m, n);
    if m >= b {
      assert rows[..m - 1] == rows[..m][..m - 1] && rows[m - 1] == rows[..m][m - 1];
      SeqWhole(rows, b, n, m - 1);
      var parts := SeqParts(rows, b, m - 1);
      SameColumn(|Pending(rows, b, m - 1)|, n, n);
      SameColumn(0, n, n);
      WholeNext(parts, NextPart(rows, b, m - 1, parts), n);
    }
  }

  /** The batches that execSeq sends hold the first rows, all of them if every row is regular. */
  lemma {:induction false} SeqSentMeans(rows: seq<Row>, b: nat, n: nat, k: nat) returns (at: nat)
    requires b > 0 && n > 0 && k <= |rows| && Regular(rows[..k], n)
    ensures AllWhole(SeqSent(rows, b, k), n) && at <= |Rows(rows[..k])|
    ensures Raws(SeqSent(rows, b, k)) == Rows(rows[..k])[..at] && (k == |rows| ==> at == |Rows(rows[..k])|)
  {
    SeqWhole(rows, b, n, k);
    at := |Rows(rows[..k])|;
    assert Rows(rows[..k])[..at] == Rows(rows[..k]);
    if k == |rows| {
      assert rows[..k] == rows;
      SeqHandsOver(rows, b);
      if k > 0 {
        var parts := SeqParts(rows, b, k);
        WholeNext(parts, Part(Pending(rows, b, k), ArgCount(|parts|, b)), n);
      }
    } else {
      SeqRaws(rows, b, k);
      if k < b {
        at := 0;
      }
    }
  }

  /**
    execSeq: the run over the batches that the counter it does not reset leads to, up to the first row
    with a wrong number of arguments. It promises what execMany promises, but the offsets are right for
    bulk size 1 and for at most one row more than a bulk only.
   */
  method ExecSeq(session: Session, f: Fields, rows: seq<Row>, bulkSize: nat) returns (total: int, ok: bool)
    requires |f.out| > 0 && bulkSize > 0 && session.Valid()
    modifies session
    ensures session.Valid()
    ensures var k := Leading(rows, |f.out|, 0);
            var r := RunState(f, session.reply, old(session.calls), SeqSent(rows, bulkSize, k));
            State(session.calls, total, ok) == r.(ok := r.ok && k == |rows|)
    ensures var k := Leading(rows, |f.out|, 0);
            Promised(f, Rows(rows[..k]), session.reply, old(session.calls), State(session.calls, total, ok),
                     SeqSent(rows, bulkSize, k), k == |rows|)
    ensures Regular(rows, |f.out|) ==>
              (OffsetsRight(SeqSent(rows, bulkSize, |rows|), |f.out|) <==> bulkSize == 1 || |rows| <= bulkSize + 1)
  {
    ghost var sent, k;
    total, ok, sent, k := SeqBatches(session, f, rows, bulkSize);
    SeqPromise(f, rows, bulkSize, k, session.reply, old(session.calls), State(session.calls, total, sent));
    if Regular(rows, |f.out|) {
      SeqOffsets(rows, bulkSize, |f.out|);
    }
  }

  lemma {:induction false} SeqPromise(f: Fields, rows: seq<Row>, b: nat, k: nat, reply: nat -> Reply, s: seq<Call>,
                                      r: State)
    requires |f.out| > 0 && b > 0 && k == Leading(rows, |f.out|, 0)
    requires r == RunState(f, reply, s, SeqSent(rows, b, k))
    ensures Promised(f, Rows(rows[..k]), reply, s, r.(ok := r.ok && k == |rows|), SeqSent(rows, b, k), k == |rows|)
  {
    var at := SeqSentMeans(rows, b, |f.out|, k);
    BulkPromise(f, Rows(rows[..k]), reply, s, SeqSent(rows, b, k), at, r, k == |rows|);
  }

  /** One row of execSeq: it is pending, or it completes a batch. */
  method SeqRow(session: Session, f: Fields, rows: seq<Row>, bulkSize: nat, m: nat, args0: seq<NamedValue>,
                batch0: nat, total0: int, ghost all: seq<Part>, ghost states: seq<State>, ghost k: nat)
      returns (args: seq<NamedValue>, batch: nat, total: int, ok: bool)
    requires |f.out| > 0 && bulkSize > 0 && session.Valid() && m < k <= |rows| && all == SeqSent(rows, bulkSize, k)
    requires args0 == Pending(rows, bulkSize, m) && batch0 == SeqCount(bulkSize, m) <= |all|
    requires |states| == |all| + 1 && Trace(f, session.reply, all, states, |all|)
    requires State(session.calls, total0, true) == states[batch0]
    modifies session
    ensures session.Valid()
    ensures args == Pending(rows, bulkSize, m + 1) && batch == SeqCount(bulkSize, m + 1) <= |all|
    ensures State(session.calls, total, ok) == states[if ok then batch else |all|]
  {
    SeqAt(rows, bulkSize, m, k, args0, batch0, all);
    args, batch, total, ok := args0 + rows[m].args, batch0, total0, true;
    if m + 1 >= bulkSize {
      var ofs := Offset(batch, bulkSize);
      total, ok := RunListed(session, f, Part(args, ofs), total0, all, batch0, states);
      args, batch := [], batch0 + 1;
    }
  }

  /** The loop of execSeq over its first k rows; `sent` tells whether every batch was executed. */
  method SeqBatches(session: Session, f: Fields, rows: seq<Row>, bulkSize: nat)
      returns (total: int, ok: bool, ghost sent: bool, ghost k: nat)
    requires |f.out| > 0 && bulkSize > 0 && session.Valid()
    modifies session
    ensures session.Valid() && k == Leading(rows, |f.out|, 0) && ok == (sent && k == |rows|)
    ensures State(session.calls, total, sent)
            == RunState(f, session.reply, old(session.calls), SeqSent(rows, bulkSize, k))
  {
    k, total := Leading(rows, |f.out|, 0), 0;
    ghost var all := SeqSent(rows, bulkSize, k);
    ghost var states := States(f, session.reply, session.calls, all, |all|);
    var args, batch, n := [], 0, 0;
    for m := 0 to |rows|
      invariant session.Valid() && k == Leading(rows, |f.out|, m)
      invariant n == m && args == Pending(rows, bulkSize, m) && batch == SeqCount(bulkSize, m) <= |all|
      invariant State(session.calls, total, true) == states[batch]
    {
      if |rows[m].args| != |f.out| {
        return total, false, true, k;
      }
      args, batch, total, ok := SeqRow(session, f, rows, bulkSize, m, args, batch, total, all, states, k);
      if !ok {
        return total, false, false, k;
      }
      n := n + 1;
    }
    SeqEnd(rows, bulkSize, args, batch, all);
    total, ok := SeqRest(session, f, rows, bulkSize, args, batch, total, all, states);
    sent := ok;
  }

  lemma {:induction false} SeqEnd(rows: seq<Row>, b: nat, args: seq<NamedValue>, batch: nat, all: seq<Part>)
    requires b > 0 && args == Pending(rows, b, |rows|) && batch == SeqCount(b, |rows|) && all == SeqAll(rows, b)
    ensures if |rows| == 0 then batch == |all|
            else |all| == batch + 1 && all[batch] == Part(args, ArgCount(batch, b))
  {
  }

  /** The last batch of execSeq, possibly empty. */
  method SeqRest(session: Session, f: Fields, rows: seq<Row>, bulkSize: nat, args: seq<NamedValue>, batch: nat,
                 total0: int, ghost all: seq<Part>, ghost states: seq<State>)
      returns (total: int, ok: bool)
    requires |f.out| > 0 && bulkSize > 0 && session.Valid()
    requires if |rows| == 0 then batch == |all|
             else |all| == batch + 1 && all[batch] == Part(args, ArgCount(batch, bulkSize))
    requires |states| == |all| + 1 && Trace(f, session.reply, all, states, |all|)
    requires State(session.calls, total0, true) == states[batch]
    modifies session
    ensures session.Valid()
    ensures State(session.calls, total, ok) == states[|all|]
  {
    if |rows| == 0 {
      return total0, true;
    }
    var ofs := Offset(batch, bulkSize);
    total, ok := RunListed(session, f, Part(args, ofs), total0, all, batch, states);
  }
}
