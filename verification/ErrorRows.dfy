/**
  Errors and row counts of a bulk execution: rowsAffected.Total
  (driver/internal/protocol/rowsaffected.go), the link of server errors to rows at the end of
  Reader.IterateParts (driver/internal/protocol/protocol.go) and HdbErrors.setStmtNo
  (driver/internal/protocol/error.go).
 */
module ErrorRows {
  import opened Bytes

  const EXECUTION_FAILED: int := -3

  /** The sum of the positive row counts. */
  function Positives(rows: seq<int>): (sum: nat)
  {
    if |rows| == 0 then 0
    else Positives(rows[..|rows| - 1]) + if rows[|rows| - 1] > 0 then rows[|rows| - 1] else 0
  }

  /** Every positive count is added once, wherever it is; other counts add nothing. */
  lemma {:induction false} PositivesAdd(a: seq<int>, n: int, b: seq<int>)
    ensures Positives(a + [n] + b) == Positives(a) + (if n > 0 then n else 0) + Positives(b)
  {
    if |b| == 0 {
      assert a + [n] + b == a + [n] && (a + [n])[..|a|] == a;
    } else {
      var k := |b| - 1;
      PositivesAdd(a, n, b[..k]);
      assert (a + [n] + b)[..|a| + 1 + k] == a + [n] + b[..k];
    }
  }

  /** Of the counts 3, -3, 2, -2, -3 (-2: success without a count) five rows are affected, and rows 1 and 4 failed. */
  lemma CountsExample()
    ensures Positives([3, -3, 2, -2, -3]) == 5 && Failed([3, -3, 2, -2, -3]) == [1, 4]
  {
    var r := [3, -3, 2, -2, -3];
    assert r[..4] == [3, -3, 2, -2] && r[..4][..3] == [3, -3, 2] && r[..4][..3][..2] == [3, -3];
    assert [3, -3][..1] == [3] && [3][..0] == [];
    assert Positives([3]) == 3 && Positives([3, -3]) == 3 && Positives([3, -3, 2]) == 5;
    assert Failed([3]) == [] && Failed([3, -3]) == [1] && Failed([3, -3, 2]) == [1] && Failed([3, -3, 2, -2]) == [1];
  }

  method Total(rows: seq<int>) returns (total: int)
    ensures total == Positives(rows)
  {
    total := 0;
    for i := 0 to |rows|
      invariant total == Positives(rows[..i])
    {
      assert rows[..i + 1][..i] == rows[..i];
      if rows[i] > 0 {
        total := total + rows[i];
      }
    }
    assert rows[..|rows|] == rows;
  }

  /** The indices of the failed rows, in order. */
  function Failed(rows: seq<int>): (idx: seq<nat>)
  {
    if |rows| == 0 then []
    else
      var i := |rows| - 1;
      Failed(rows[..i]) + if rows[i] == EXECUTION_FAILED then [i] else []
  }

  /** Failed lists failed rows only, each once and in order. */
  lemma {:induction false} FailedMeans(rows: seq<int>)
    ensures forall k :: 0 <= k < |Failed(rows)| ==>
              Failed(rows)[k] < |rows| && rows[Failed(rows)[k]] == EXECUTION_FAILED
    ensures forall k, l :: 0 <= k < l < |Failed(rows)| ==> Failed(rows)[k] < Failed(rows)[l]
  {
    if |rows| > 0 {
      FailedMeans(rows[..|rows| - 1]);
    }
  }

  /** Failed lists every failed row. */
  lemma {:induction false} FailedHas(rows: seq<int>, i: nat) returns (k: nat)
    requires i < |rows| && rows[i] == EXECUTION_FAILED
    ensures k < |Failed(rows)| && Failed(rows)[k] == i
  {
    var last := |rows| - 1;
    if i == last {
      k := |Failed(rows)| - 1;
    } else {
      k := FailedHas(rows[..last], i);
    }
  }

  /** setStmtNo. */
  method SetStmtNo(errs: array<int>, idx: nat, no: int)
    modifies errs
    ensures forall k :: 0 <= k < errs.Length ==> errs[k] == if k == idx then no else old(errs[k])
  {
    if idx < errs.Length {
      errs[idx] := no;
    }
  }

  /** The statement numbers of the errors, 0 as decoded: the k-th error is the k-th failed row, from `offset` on. */
  method LinkErrors(errs: array<int>, rows: seq<int>, offset: int)
    modifies errs
    ensures forall k :: 0 <= k < errs.Length ==>
              errs[k] == if k < |Failed(rows)| then offset + Failed(rows)[k] else old(errs[k])
  {
    var j := 0;
    for i := 0 to |rows|
      invariant j == |Failed(rows[..i])|
      invariant forall k :: 0 <= k < errs.Length ==>
                  errs[k] == if k < j then offset + Failed(rows[..i])[k] else old(errs[k])
    {
      assert rows[..i + 1][..i] == rows[..i];
      if rows[i] == EXECUTION_FAILED {
        SetStmtNo(errs, j, offset + i);
        j := j + 1;
      }
    }
    assert rows[..|rows|] == rows;
  }

  /**
    What the server sends back for an execution: row counts, a number of errors, whether the errors are
    warnings only, whether the statement was a definition, or a failure of the exchange itself.
   */
  datatype Reply = Reply(counts: Option<seq<int>>, numErrors: nat, onlyWarnings: bool, ddl: bool, broken: bool)

  predicate Succeeds(r: Reply)
  {
    !r.broken && (r.numErrors == 0 || r.onlyWarnings)
  }

  /** The rows that a reply adds to the total; a definition reports none. */
  function RowsOf(r: Reply): (n: nat)
  {
    if r.ddl || r.counts.None? then 0 else Positives(r.counts.value)
  }

  /** The statement numbers that the errors of a reply carry. */
  function StmtNos(r: Reply, ofs: int): (nos: seq<int>)
    ensures |nos| == if r.broken then 0 else r.numErrors
  {
    if r.broken then []
    else seq(r.numErrors, k requires 0 <= k < r.numErrors => StmtNo(r, ofs, k))
  }

  /** The k-th error is the k-th failed row, counted from the offset; without row counts it keeps 0. */
  function StmtNo(r: Reply, ofs: int, k: nat): (no: int)
  {
    if r.counts.Some? && k < |Failed(r.counts.value)| then ofs + Failed(r.counts.value)[k] else 0
  }

  /** The reply of session.exec: rows affected, success, and the statement numbers of the errors. */
  method Evaluate(r: Reply, ofs: int) returns (rows: int, ok: bool, nos: seq<int>)
    ensures rows == RowsOf(r) || r.broken
    ensures ok == Succeeds(r) && nos == StmtNos(r, ofs)
  {
    if r.broken {
      return 0, false, [];
    }
    var errs := None;
    if r.numErrors > 0 {
      var a := new int[r.numErrors](_ => 0);
      errs := Some(a);
    }
    var fails;
    rows, fails := Conclude(r.counts, errs, r.onlyWarnings, ofs);
    ok := !fails;
    nos := [];
    if errs.Some? {
      nos := errs.value[..];
      assert forall k :: 0 <= k < |nos| ==> nos[k] == StmtNo(r, ofs, k);
    }
    if r.ddl {
      rows := 0;
    }
  }

  /** What IterateParts makes of the row counts and the errors of a reply: rows affected, and whether it fails. */
  method Conclude(counts: Option<seq<int>>, errs: Option<array<int>>, onlyWarnings: bool, offset: int)
      returns (numRow: int, fails: bool)
    modifies if errs.Some? then {errs.value} else {}
    ensures fails <==> errs.Some? && !onlyWarnings
    ensures numRow == if counts.Some? then Positives(counts.value) else 0
    ensures counts.Some? && errs.Some? ==>
              forall k :: 0 <= k < errs.value.Length ==>
                errs.value[k]
                == if k < |Failed(counts.value)| then offset + Failed(counts.value)[k] else old(errs.value[k])
    ensures counts.None? && errs.Some? ==> forall k :: 0 <= k < errs.value.Length ==>
              errs.value[k] == old(errs.value[k])
  {
    numRow := 0;
    if counts.Some? {
      numRow := Total(counts.value);
    }
    if errs.None? {
      return numRow, false;
    }
    if counts.Some? {
      LinkErrors(errs.value, counts.value, offset);
    }
    fails := !onlyWarnings;
  }
}
