/**
  The rows that server errors name: HdbError.StmtNo in a bulk execution (driver/stmt.go,
  driver/internal/protocol/protocol.go, driver/internal/protocol/error.go).
 */
module RowNumbers {
  import opened Bytes
  import opened Bulk
  import opened ErrorRows
  import opened Batches

  /**
    The offset of call c is the number of rows handed over before it, so that offset + i is the number
    of its i-th row among all rows of the bulk.
   */
  ghost predicate NumbersRows(calls: seq<Call>, c: nat, n: nat)
    requires c < |calls|
  {
    calls[c].ofs >= 0 && |Flat(calls[..c])| == ArgCount(calls[c].ofs, n)
  }

  lemma {:induction false} FlatOfPackages(s: seq<NamedValue>, n: nat, ofs: int, k: nat)
    requires n > 0 && Col(|s|, n) == 0 && k < |Packages(s, n, ofs)|
    ensures Flat(Packages(s, n, ofs)[..k]) == [] <==> k == 0
    ensures s != [] && Packages(s, n, ofs)[k].ofs == ofs
  {
    var calls := Packages(s, n, ofs);
    PackageInvariant(s, n, ofs);
    assert GoodPackage(calls[0].args, n) && GoodPackage(calls[k].args, n);
    if k > 0 {
      assert GoodPackage(calls[k - 1].args, n);
      assert calls[..k][k - 1] == calls[k - 1];
    }
  }

  /**
    Statement numbers. In a run with right batch offsets, the numbers given to the errors of package k
    of the last batch are row numbers of the bulk exactly for the batch's first package: exec passes the
    offset of the batch on to all of its packages.
   */
  lemma {:induction false} StatementNumbers(f: Fields, init: seq<Part>, p: Part, sent: seq<Call>, batch: seq<Call>,
                                            k: nat)
    requires |f.out| > 0 && AllAccepted(f, init) && Accepted(f, p.raw) && OffsetsRight(init + [p], |f.out|)
    requires sent == Sent(f, init) && batch == BatchCalls(f, p.raw, p.ofs) && k < |batch|
    ensures NumbersRows(sent + batch, |sent| + k, |f.out|) <==> k == 0
  {
    PackagesOf(f, p, k);
    RowsBefore(f, init, p);
    NumbersIff(sent, batch, k, |f.out|, p.ofs);
  }

  lemma {:induction false} RowsBefore(f: Fields, init: seq<Part>, p: Part)
    requires |f.out| > 0 && AllAccepted(f, init) && OffsetsRight(init + [p], |f.out|) && p.raw != []
    ensures |Flat(Sent(f, init))| == ArgCount(p.ofs, |f.out|)
  {
    Conserved(f, init);
    OffsetsNext(init, p, |f.out|);
  }

  lemma PackagesOf(f: Fields, p: Part, k: nat)
    requires |f.out| > 0 && Accepted(f, p.raw) && k < |BatchCalls(f, p.raw, p.ofs)|
    ensures p.raw != [] && BatchCalls(f, p.raw, p.ofs)[k].ofs == p.ofs
    ensures Flat(BatchCalls(f, p.raw, p.ofs)[..k]) == [] <==> k == 0
  {
    FlatOfPackages(ConvertAll(f, p.raw).value, |f.out|, p.ofs, k);
  }

  lemma {:induction false} NumbersIff(sent: seq<Call>, batch: seq<Call>, k: nat, n: nat, ofs: nat)
    requires k < |batch| && batch[k].ofs == ofs && |Flat(sent)| == ArgCount(ofs, n)
    requires Flat(batch[..k]) == [] <==> k == 0
    ensures NumbersRows(sent + batch, |sent| + k, n) <==> k == 0
  {
    FlatBefore(sent, batch, k);
  }

  lemma FlatBefore(sent: seq<Call>, batch: seq<Call>, k: nat)
    requires k < |batch|
    ensures (sent + batch)[|sent| + k] == batch[k]
    ensures |Flat((sent + batch)[..|sent| + k])| == |Flat(sent)| + |Flat(batch[..k])|
  {
    assert (sent + batch)[..|sent| + k] == sent + batch[..k];
    FlatConcat(sent, batch[..k]);
  }

  /** A LOB column with chunks of one byte, and two rows of two bytes each. */
  const LOB_FIELD: Fields := Fields([false], (_, v) => Some(v), 1)
  const TWO_BYTES: NamedValue := NamedValue(false, Lob([1, 2], false, [], false))
  const CONVERTED: NamedValue := NamedValue(false, Lob([2], false, [1], false))

  /** The second row is a package of its own; it has row number 1, but is executed with offset 0. */
  lemma SecondPackage()
    ensures BatchCalls(LOB_FIELD, [TWO_BYTES, TWO_BYTES], 0) == [Call([CONVERTED], 0), Call([CONVERTED], 0)]
    ensures !NumbersRows(BatchCalls(LOB_FIELD, [TWO_BYTES, TWO_BYTES], 0), 1, 1)
  {
    var bytes: seq<byte> := [1, 2];
    assert bytes[..1] == [1] && bytes[1..] == [2];
    assert ConvertOne(LOB_FIELD, 0, TWO_BYTES) == Some(CONVERTED);
    TwoRows(LOB_FIELD, TWO_BYTES, CONVERTED);
    FlatOne(Call([CONVERTED], 0));
    assert [Call([CONVERTED], 0), Call([CONVERTED], 0)][..1] == [Call([CONVERTED], 0)];
    assert ArgCount(0, 1) == 0;
  }

  /** Two equal incomplete rows of one field. */
  lemma {:induction false} TwoRows(f: Fields, nv: NamedValue, c: NamedValue)
    requires |f.out| == 1 && ConvertOne(f, 0, nv) == Some(c) && HasMore(c)
    ensures BatchCalls(f, [nv, nv], 0) == [Call([c], 0), Call([c], 0)]
  {
    ConvertTwo(f, nv, c);
    FlagsOfTwo(c);
    EndsOfTwo();
    CutInTwo(c, c);
    assert Col(2, 1) == Col(1, 1) == 0;
  }

  lemma {:induction false} ConvertTwo(f: Fields, nv: NamedValue, c: NamedValue)
    requires |f.out| == 1 && ConvertOne(f, 0, nv) == Some(c)
    ensures ConvertAll(f, [nv, nv]) == Some([c, c])
  {
    assert Col(1, 1) == 0;
    assert [nv][..0] == [] && [] + [c] == [c];
    assert ConvertAll(f, [nv]) == Some([c]);
    ConvertConcat(f, [nv], [nv]);
    assert [nv] + [nv] == [nv, nv] && [c] + [c] == [c, c];
  }

  lemma {:induction false} FlagsOfTwo(c: NamedValue)
    requires HasMore(c)
    ensures Flags([c, c], 1) == [true, true]
  {
    assert [c][0] == c && Incomplete([c]);
    FlagsSnoc([], [c], 1);
    FlagsSnoc([c], [c], 1);
    assert [] + [c] == [c] && [c] + [c] == [c, c];
  }

  lemma {:induction false} EndsOfTwo()
    ensures Ends([true, true], 2) == [0, 1]
  {
    assert Ends([true, true], 1) == [0];
  }

  lemma {:induction false} CutInTwo(c: NamedValue, d: NamedValue)
    ensures Cut([c, d], 1, 0, [0, 1]) == [Call([c], 0), Call([d], 0)]
  {
    var s := [c, d];
    assert ArgCount(0, 1) == 0 && ArgCount(1, 1) == 1 && ArgCount(2, 1) == 2;
    assert s[0..1] == [c] && s[1..2] == [d];
    assert [0][..0] == [] && [0, 1][..1] == [0];
    assert Cut(s, 1, 0, [0]) == [Call(Slice(s, 0, 1), 0)];
  }

  // ---------------------------------------------------------------- the row behind a statement number

  /** Row F of the call is the conversion of row g of the arguments. */
  ghost predicate NamesRow(f: Fields, nvargs: seq<NamedValue>, call: Call, g: nat, row: nat)
    requires |f.out| > 0
  {
    var n := |f.out|;
    && ArgCount(g, n) <= ArgCount(g + 1, n) <= |nvargs|
    && ArgCount(row, n) <= ArgCount(row + 1, n) <= |call.args|
    && AllConverted(f, nvargs[ArgCount(g, n)..ArgCount(g + 1, n)], call.args[ArgCount(row, n)..ArgCount(row + 1, n)])
  }

  /** The reply counts the rows of the call. */
  predicate Counts(r: Reply, call: Call, n: nat)
  {
    r.counts.Some? && ArgCount(|r.counts.value|, n) == |call.args|
  }

  /**
    Every error that is linked to a failed row carries the number of that row among all rows of the
    bulk: the k-th error the number g of the k-th row of the call that is marked as failed.
   */
  ghost predicate NamesRows(f: Fields, nvargs: seq<NamedValue>, r: Reply, call: Call)
    requires |f.out| > 0
  {
    Counts(r, call, |f.out|) ==>
      forall k :: 0 <= k < |StmtNos(r, call.ofs)| && k < |Failed(r.counts.value)| ==>
        StmtNos(r, call.ofs)[k] >= 0 && NamesRow(f, nvargs, call, StmtNos(r, call.ofs)[k], Failed(r.counts.value)[k])
  }

  /** Converting whole rows converts every slice of whole rows. */
  lemma {:induction false} ConvertSlice(f: Fields, s: seq<NamedValue>, c: seq<NamedValue>, a: nat, b: nat)
    requires |f.out| > 0 && ConvertAll(f, s) == Some(c) && a <= b <= |s| && Col(a, |f.out|) == 0 && Col(b, |f.out|) == 0
    ensures ConvertAll(f, s[a..b]) == Some(c[a..b])
  {
    ConvertPrefix(f, s, c, b);
    ConvertSuffix(f, s[..b], c[..b], a);
    assert s[..b][a..] == s[a..b] && c[..b][a..] == c[a..b];
  }

  lemma {:induction false} ConvertPrefix(f: Fields, s: seq<NamedValue>, c: seq<NamedValue>, b: nat)
    requires |f.out| > 0 && ConvertAll(f, s) == Some(c) && b <= |s| && Col(b, |f.out|) == 0
    ensures ConvertAll(f, s[..b]) == Some(c[..b])
  {
    var x, y := s[..b], s[b..];
    assert s == x + y;
    ConvertConcat(f, x, y);
    Halves(ConvertAll(f, x), ConvertAll(f, y), c, b);
  }

  lemma {:induction false} ConvertSuffix(f: Fields, s: seq<NamedValue>, c: seq<NamedValue>, a: nat)
    requires |f.out| > 0 && ConvertAll(f, s) == Some(c) && a <= |s| && Col(a, |f.out|) == 0
    ensures ConvertAll(f, s[a..]) == Some(c[a..])
  {
    var x, y := s[..a], s[a..];
    assert s == x + y;
    ConvertConcat(f, x, y);
    Halves(ConvertAll(f, x), ConvertAll(f, y), c, a);
  }

  lemma Halves(x: Batch, y: Batch, c: seq<NamedValue>, k: nat)
    requires Join(x, y) == Some(c) && (x.Some? ==> |x.value| == k)
    ensures k <= |c| && x == Some(c[..k]) && y == Some(c[k..])
  {
  }

  /** The arguments `raw` are those of s from a on. */
  ghost predicate LiesAt(s: seq<NamedValue>, a: nat, raw: seq<NamedValue>)
  {
    a + |raw| <= |s| && forall k :: 0 <= k < |raw| ==> s[a + k] == raw[k]
  }

  /** A batch lies in the arguments at its offset. */
  lemma {:induction false} BatchAt(parts: seq<Part>, n: nat, i: nat)
    requires i < |parts| && OffsetsRight(parts, n) && parts[i].raw != []
    ensures LiesAt(Raws(parts), ArgCount(parts[i].ofs, n), parts[i].raw)
    decreases |parts|
  {
    var init := parts[..|parts| - 1];
    if i < |init| {
      BatchAt(init, n, i);
    }
  }

  lemma SliceOf(s: seq<NamedValue>, a: nat, raw: seq<NamedValue>, b: nat, c: nat)
    requires LiesAt(s, a, raw) && b <= c <= |raw|
    ensures s[a + b..a + c] == raw[b..c]
  {
    forall k | 0 <= k < c - b
      ensures s[a + b..a + c][k] == raw[b..c][k]
    {
      assert s[a + (b + k)] == raw[b + k];
    }
  }

  lemma RowInside(row: nat, rows: nat, n: nat)
    requires row < rows && n > 0
    ensures ArgCount(row, n) <= ArgCount(row + 1, n) <= ArgCount(rows, n)
    ensures Col(ArgCount(row, n), n) == 0 && Col(ArgCount(row + 1, n), n) == 0
  {
    ArgCountMonotone(row + 1, rows, n);
    ArgCountWhole(row, n);
    ArgCountWhole(row + 1, n);
  }

  /** The row behind a number, for a batch that is a single package. */
  lemma {:induction false} BatchRow(f: Fields, nvargs: seq<NamedValue>, ofs: nat, a: nat, raw: seq<NamedValue>,
                                    call: Call, row: nat, rows: nat, g: nat)
    requires |f.out| > 0 && ConvertAll(f, raw) == Some(call.args) && LiesAt(nvargs, a, raw)
    requires row < rows && ArgCount(rows, |f.out|) == |call.args| && a == ArgCount(ofs, |f.out|) && g == ofs + row
    ensures NamesRow(f, nvargs, call, g, row)
  {
    var n := |f.out|;
    var b, c := ArgCount(row, n), ArgCount(row + 1, n);
    RowInside(row, rows, n);
    RowOffset(ofs, row, n);
    BatchSlice(f, nvargs, raw, call, g, row, a, b, c);
  }

  lemma BatchSlice(f: Fields, nvargs: seq<NamedValue>, raw: seq<NamedValue>, call: Call, g: nat, row: nat, a: nat,
                   b: nat, c: nat)
    requires |f.out| > 0 && ConvertAll(f, raw) == Some(call.args) && LiesAt(nvargs, a, raw)
    requires b <= c <= |raw| && Col(b, |f.out|) == 0 && Col(c, |f.out|) == 0
    requires b == ArgCount(row, |f.out|) && c == ArgCount(row + 1, |f.out|)
    requires a + b == ArgCount(g, |f.out|) && a + c == ArgCount(g + 1, |f.out|)
    ensures NamesRow(f, nvargs, call, g, row)
  {
    ConvertSlice(f, raw, call.args, b, c);
    SliceOf(nvargs, a, raw, b, c);
    NamesRowAt(f, nvargs, call, g, row, a + b, a + c, b, c);
  }

  lemma NamesRowAt(f: Fields, nvargs: seq<NamedValue>, call: Call, g: nat, row: nat, g0: nat, g1: nat, r0: nat, r1: nat)
    requires |f.out| > 0 && g0 == ArgCount(g, |f.out|) && g1 == ArgCount(g + 1, |f.out|)
    requires r0 == ArgCount(row, |f.out|) && r1 == ArgCount(row + 1, |f.out|)
    requires g0 <= g1 <= |nvargs| && r0 <= r1 <= |call.args| && ConvertAll(f, nvargs[g0..g1]) == Some(call.args[r0..r1])
    ensures NamesRow(f, nvargs, call, g, row)
  {
    ConvertsTo(f, nvargs[g0..g1], call.args[r0..r1]);
  }

  lemma RowOffset(ofs: nat, row: nat, n: nat)
    ensures ArgCount(ofs + row, n) == ArgCount(ofs, n) + ArgCount(row, n)
    ensures ArgCount(ofs + row + 1, n) == ArgCount(ofs, n) + ArgCount(row + 1, n)
  {
    ArgCountSum(ofs, row, n);
  }

  lemma FlatOne(call: Call)
    ensures Flat([call]) == call.args
  {
    assert [call][..0] == [] && [] + call.args == call.args;
  }

  lemma LiesInPrefix(s: seq<NamedValue>, at: nat, a: nat, raw: seq<NamedValue>)
    requires at <= |s| && LiesAt(s[..at], a, raw)
    ensures LiesAt(s, a, raw)
  {
    forall k | 0 <= k < |raw|
      ensures s[a + k] == raw[k]
    {
      assert s[..at][a + k] == raw[k];
    }
  }

  lemma BatchLies(f: Fields, nvargs: seq<NamedValue>, parts: seq<Part>, at: nat, i: nat, p: Part)
    requires |f.out| > 0 && Sending(f, nvargs, parts, at) && i < |parts| && parts[i] == p && p.raw != []
    ensures LiesAt(nvargs, ArgCount(p.ofs, |f.out|), p.raw)
  {
    BatchAt(parts, |f.out|, i);
    LiesInPrefix(nvargs, at, ArgCount(p.ofs, |f.out|), p.raw);
  }

  lemma BatchNamesRows(f: Fields, nvargs: seq<NamedValue>, parts: seq<Part>, at: nat, i: nat, call: Call, r: Reply)
    requires |f.out| > 0 && Sending(f, nvargs, parts, at) && i < |parts|
    requires BatchCalls(f, parts[i].raw, parts[i].ofs) == [call]
    ensures NamesRows(f, nvargs, r, call)
  {
    var p := parts[i];
    PackagesOf(f, p, 0);
    BatchFlat(f, p.raw, p.ofs);
    FlatOne(call);
    BatchLies(f, nvargs, parts, at, i, p);
    CallNamesRows(f, nvargs, ArgCount(p.ofs, |f.out|), p.raw, call, r);
  }

  lemma {:induction false} CallNamesRows(f: Fields, nvargs: seq<NamedValue>, a: nat, raw: seq<NamedValue>, call: Call,
                                         r: Reply)
    requires |f.out| > 0 && call.ofs >= 0 && a == ArgCount(call.ofs, |f.out|)
    requires ConvertAll(f, raw) == Some(call.args) && LiesAt(nvargs, a, raw)
    ensures NamesRows(f, nvargs, r, call)
  {
    if Counts(r, call, |f.out|) {
      var rows, nos, failed := |r.counts.value|, StmtNos(r, call.ofs), Failed(r.counts.value);
      FailedMeans(r.counts.value);
      forall k | 0 <= k < |nos| && k < |failed|
        ensures nos[k] >= 0 && NamesRow(f, nvargs, call, nos[k], failed[k])
      {
        BatchRow(f, nvargs, call.ofs, a, raw, call, failed[k], rows, nos[k]);
      }
    }
  }

  /** Every batch is a single package, or none. */
  ghost predicate SinglePackages(f: Fields, parts: seq<Part>)
    requires |f.out| > 0
  {
    forall i :: 0 <= i < |parts| ==> |BatchCalls(f, parts[i].raw, parts[i].ofs)| <= 1
  }

  /** The errors of the calls from `from` to `to` name the rows of the arguments. */
  ghost predicate ErrorsNameRows(f: Fields, nvargs: seq<NamedValue>, reply: nat -> Reply, calls: seq<Call>,
                                 from: nat, to: nat)
    requires |f.out| > 0 && to <= |calls|
  {
    to <= from
    || (ErrorsNameRows(f, nvargs, reply, calls, from, to - 1) && NamesRows(f, nvargs, reply(to - 1), calls[to - 1]))
  }

  /**
    Statement numbers over a run: when every batch is a single package, the k-th error of every call
    carries the number of the row of the bulk that is the call's k-th failed row.
   */
  lemma {:induction false} RunNamesRows(f: Fields, nvargs: seq<NamedValue>, reply: nat -> Reply, s: seq<Call>,
                                        parts: seq<Part>, at: nat, r: State)
    requires |f.out| > 0 && r == RunState(f, reply, s, parts) && Sending(f, nvargs, parts, at)
             && SinglePackages(f, parts)
    ensures ErrorsNameRows(f, nvargs, reply, r.calls, |s|, |r.calls|)
  {
    RunCalls(f, reply, s, parts, r, Sent(f, parts));
    PartsNameable(f, nvargs, parts, at, |parts|);
    assert parts[..|parts|] == parts;
    CallsNameRows(f, nvargs, reply, s, r.calls, Sent(f, parts), |r.calls|);
  }

  /** Whatever the reply, the errors of the call name rows. */
  ghost predicate Nameable(f: Fields, nvargs: seq<NamedValue>, call: Call)
    requires |f.out| > 0
  {
    forall r: Reply :: NamesRows(f, nvargs, r, call)
  }

  ghost predicate AllNameable(f: Fields, nvargs: seq<NamedValue>, calls: seq<Call>)
    requires |f.out| > 0
  {
    |calls| == 0 || (AllNameable(f, nvargs, calls[..|calls| - 1]) && Nameable(f, nvargs, calls[|calls| - 1]))
  }

  lemma {:induction false} NameableAt(f: Fields, nvargs: seq<NamedValue>, calls: seq<Call>, c: nat)
    requires |f.out| > 0 && AllNameable(f, nvargs, calls) && c < |calls|
    ensures Nameable(f, nvargs, calls[c])
  {
    if c < |calls| - 1 {
      NameableAt(f, nvargs, calls[..|calls| - 1], c);
    }
  }

  lemma {:induction false} NameableNext(f: Fields, nvargs: seq<NamedValue>, calls: seq<Call>, call: Call)
    requires |f.out| > 0 && AllNameable(f, nvargs, calls) && Nameable(f, nvargs, call)
    ensures AllNameable(f, nvargs, calls + [call])
  {
    assert (calls + [call])[..|calls|] == calls;
  }

  lemma {:induction false} PartsNameable(f: Fields, nvargs: seq<NamedValue>, parts: seq<Part>, at: nat, k: nat)
    requires |f.out| > 0 && Sending(f, nvargs, parts, at) && SinglePackages(f, parts) && k <= |parts|
    ensures AllNameable(f, nvargs, Sent(f, parts[..k]))
  {
    if k > 0 {
      PartsNameable(f, nvargs, parts, at, k - 1);
      var sent, batch := Sent(f, parts[..k - 1]), BatchCalls(f, parts[k - 1].raw, parts[k - 1].ofs);
      SentNext(f, parts, k - 1, sent, batch);
      if |batch| == 1 {
        BatchNameable(f, nvargs, parts, at, k - 1, batch[0]);
        NameableNext(f, nvargs, sent, batch[0]);
        assert batch == [batch[0]];
      } else {
        assert sent + batch == sent;
      }
    }
  }

  lemma {:induction false} SentNext(f: Fields, parts: seq<Part>, k: nat, sent: seq<Call>, batch: seq<Call>)
    requires |f.out| > 0 && k < |parts|
    requires sent == Sent(f, parts[..k]) && batch == BatchCalls(f, parts[k].raw, parts[k].ofs)
    ensures Sent(f, parts[..k + 1]) == sent + batch
  {
    assert parts[..k + 1][..k] == parts[..k];
  }

  lemma {:induction false} BatchNameable(
    f: Fields, nvargs: seq<NamedValue>, parts: seq<Part>, at: nat, i: nat, call: Call)
    requires |f.out| > 0 && Sending(f, nvargs, parts, at) && i < |parts|
    requires BatchCalls(f, parts[i].raw, parts[i].ofs) == [call]
    ensures Nameable(f, nvargs, call)
  {
    forall r: Reply
      ensures NamesRows(f, nvargs, r, call)
    {
      BatchNamesRows(f, nvargs, parts, at, i, call, r);
    }
  }

  lemma {:induction false} CallsNameRows(f: Fields, nvargs: seq<NamedValue>, reply: nat -> Reply, s: seq<Call>,
                                         calls: seq<Call>, sent: seq<Call>, to: nat)
    requires |f.out| > 0 && AllNameable(f, nvargs, sent) && CallsFrom(calls, s, sent) && to <= |calls|
    ensures ErrorsNameRows(f, nvargs, reply, calls, |s|, to)
  {
    if to > |s| {
      CallsNameRows(f, nvargs, reply, s, calls, sent, to - 1);
      NameableAt(f, nvargs, sent, to - 1 - |s|);
      assert NamesRows(f, nvargs, reply(to - 1), calls[to - 1]);
    }
  }

  /** What it says of a single call. */
  lemma {:induction false} ErrorsOfCall(f: Fields, nvargs: seq<NamedValue>, reply: nat -> Reply, calls: seq<Call>,
                                        from: nat, to: nat, c: nat)
    requires |f.out| > 0 && from <= c < to <= |calls| && ErrorsNameRows(f, nvargs, reply, calls, from, to)
    ensures NamesRows(f, nvargs, reply(c), calls[c])
  {
    if c < to - 1 {
      ErrorsOfCall(f, nvargs, reply, calls, from, to - 1, c);
    }
  }

  /** The calls after s are the first of `sent`. */
  ghost predicate CallsFrom(calls: seq<Call>, s: seq<Call>, sent: seq<Call>)
  {
    |s| <= |calls| <= |s| + |sent| && forall c :: |s| <= c < |calls| ==> calls[c] == sent[c - |s|]
  }

  lemma {:induction false} RunCalls(
    f: Fields, reply: nat -> Reply, s: seq<Call>, parts: seq<Part>, r: State, sent: seq<Call>)
    requires |f.out| > 0 && r == RunState(f, reply, s, parts) && sent == Sent(f, parts)
    ensures CallsFrom(r.calls, s, sent)
  {
    RunMeans(f, reply, s, parts);
    PrefixCalls(r.calls, s, sent);
  }

  lemma PrefixCalls(calls: seq<Call>, s: seq<Call>, sent: seq<Call>)
    requires s <= calls <= s + sent
    ensures CallsFrom(calls, s, sent)
  {
    forall c | |s| <= c < |calls|
      ensures calls[c] == sent[c - |s|]
    {
      assert calls[c] == (s + sent)[c];
    }
  }

  /**
    What a bulk operation promises that executes the arguments nvargs in the batches `parts`. Its calls are
    those of the batches, in order, up to the first failure or the first refused batch; the total is the
    sum of the row counts of its calls; it succeeds exactly when there are no more rows than nvargs
    (`complete`), every argument can be converted and no call fails; all arguments have then been handed
    over, converted, once and in order. With single packages and right offsets, errors name rows.
   */
  ghost predicate Promised(f: Fields, nvargs: seq<NamedValue>, reply: nat -> Reply, s: seq<Call>, r: State,
                           parts: seq<Part>, complete: bool)
    requires |f.out| > 0
  {
    && Stops(reply, s, r.calls, Planned(f, parts)) && r.total == Affected(reply, |s|, |r.calls|)
    && (r.ok <==> complete && AllConvertible(f, nvargs) && NoFailure(reply, |s|, |r.calls|))
    && (r.ok ==> AllConverted(f, nvargs, Flat(r.calls[|s|..])))
    && (SinglePackages(f, parts) && OffsetsRight(parts, |f.out|) ==>
          ErrorsNameRows(f, nvargs, reply, r.calls, |s|, |r.calls|))
  }

  lemma {:induction false} BulkPromise(f: Fields, nvargs: seq<NamedValue>, reply: nat -> Reply, s: seq<Call>,
                                       parts: seq<Part>, at: nat, r: State, complete: bool)
    requires |f.out| > 0 && r == RunState(f, reply, s, parts) && AllWhole(parts, |f.out|)
    requires at <= |nvargs| && Raws(parts) == nvargs[..at] && (complete ==> at == |nvargs|)
    ensures Promised(f, nvargs, reply, s, r.(ok := r.ok && complete), parts, complete)
  {
    RunMeans(f, reply, s, parts);
    RunStops(f, reply, s, parts);
    AcceptedIff(f, parts);
    if complete {
      assert nvargs[..at] == nvargs;
      ConvertAllMeans(f, nvargs, Flat(r.calls[|s|..]));
      if r.ok {
        HandedOver(f, reply, s, parts);
      }
    }
    if SinglePackages(f, parts) && OffsetsRight(parts, |f.out|) {
      RunNamesRows(f, nvargs, reply, s, parts, at, r);
    }
  }
}
