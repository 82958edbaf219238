/**
  The conversion of the arguments of a batch (driver/convert.go convertExecArgs) and the packages that
  it is split into (driver/stmt.go exec), which end where a row has LOB data left to stream.
 */
module Bulk {
  import opened Bytes
  import LobWrite

  /** An argument value. A LOB descriptor belongs to its argument: rest of the reader, first chunk, last flag. */
  datatype Value = Plain(x: int) | Out | Lob(rd: seq<byte>, bad: bool, buf: seq<byte>, last: bool)

  datatype NamedValue = NamedValue(named: bool, value: Value)

  /** The fields of the statement (true: output field), the conversion of a value for a field, and the chunk size. */
  datatype Fields = Fields(out: seq<bool>, convert: (nat, Value) -> Option<Value>, chunkSize: nat)

  /** LobInDescr.FetchNext. */
  function FetchNext(v: Value, chunkSize: nat): (r: Option<Value>)
    requires v.Lob?
  {
    var c := LobWrite.CopyN(v.rd, v.bad, chunkSize);
    if c.ok then Some(Lob(c.rest, v.bad, c.buf, c.last)) else None
  }

  /** The checks and the conversion of one argument for field j. */
  function ConvertOne(f: Fields, j: nat, nv: NamedValue): (r: Option<NamedValue>)
    requires j < |f.out|
  {
    if f.out[j] || nv.value.Out? || nv.named then None
    else
      var v := f.convert(j, nv.value);
      if v.None? then None
      else if v.value.Lob? then
        var w := FetchNext(v.value, f.chunkSize);
        if w.None? then None else Some(nv.(value := w.value))
      else Some(nv.(value := v.value))
  }

  type Batch = Option<seq<NamedValue>>

  /** Both parts, unless one of them is refused. */
  function Join(x: Batch, y: Batch): (r: Batch)
  {
    if x.Some? && y.Some? then Some(x.value + y.value) else None
  }

  lemma JoinAssoc(x: Batch, y: Batch, z: Batch)
    ensures Join(Join(x, y), z) == Join(x, Join(y, z))
  {
    if x.Some? && y.Some? && z.Some? {
      Assoc(x.value, y.value, z.value);
    }
  }

  function Single(f: Fields, k: nat, nv: NamedValue): (r: Batch)
    requires |f.out| > 0
    ensures r.Some? ==> |r.value| == 1
  {
    var c := ConvertOne(f, Col(k, |f.out|), nv);
    if c.Some? then Some([c.value]) else None
  }

  /** All arguments, field by field and row by row; None if any of them is refused. */
  function ConvertAll(f: Fields, s: seq<NamedValue>): (r: Batch)
    requires |f.out| > 0
    ensures r.Some? ==> |r.value| == |s|
  {
    if |s| == 0 then Some([]) else Join(ConvertAll(f, s[..|s| - 1]), Single(f, |s| - 1, s[|s| - 1]))
  }

  /** Conversion of whole rows and what follows them is independent. */
  lemma {:induction false} ConvertConcat(f: Fields, a: seq<NamedValue>, b: seq<NamedValue>)
    requires |f.out| > 0 && Col(|a|, |f.out|) == 0
    ensures ConvertAll(f, a + b) == Join(ConvertAll(f, a), ConvertAll(f, b))
  {
    if |b| == 0 {
      assert a + b == a;
      JoinNothing(ConvertAll(f, a));
    } else {
      var k := |b| - 1;
      ConvertConcat(f, a, b[..k]);
      assert (a + b)[..|a| + k] == a + b[..k] && (a + b)[|a| + k] == b[k];
      SameColumn(|a|, k, |f.out|);
      SingleSame(f, |a| + k, k, b[k]);
      JoinAssoc(ConvertAll(f, a), ConvertAll(f, b[..k]), Single(f, k, b[k]));
    }
  }

  lemma {:induction false} SingleSame(f: Fields, k: nat, l: nat, nv: NamedValue)
    requires |f.out| > 0 && Col(k, |f.out|) == Col(l, |f.out|)
    ensures Single(f, k, nv) == Single(f, l, nv)
  {
  }

  lemma JoinNothing(x: Batch)
    ensures Join(x, Some([])) == x
  {
    if x.Some? {
      assert x.value + [] == x.value;
    }
  }

  /** The column of argument k in rows of n: k % n, by subtraction (ColIs). */
  function Col(k: nat, n: nat): (j: nat)
    requires n > 0
    ensures j < n
  {
    if k < n then k else Col(k - n, n)
  }

  lemma {:induction false} ColIs(k: nat, n: nat)
    requires n > 0
    ensures Col(k, n) == k % n
  {
    if k >= n {
      ColIs(k - n, n);
      DivModUnique(k, n, (k - n) / n + 1, (k - n) % n);
    }
  }

  lemma {:induction false} SameColumn(m: nat, k: nat, n: nat)
    requires n > 0 && Col(m, n) == 0
    ensures Col(m + k, n) == Col(k, n) && (k < n ==> Col(k, n) == k)
  {
    if m >= n {
      SameColumn(m - n, k, n);
    }
  }

  // ---------------------------------------------------------------- what conversion means

  /** `w` is the LOB v with its first chunk fetched; it is the last one when less than chunkSize bytes were there. */
  predicate Begun(v: Value, w: Value, chunkSize: nat)
    requires v.Lob?
  {
    && w.Lob? && w.bad == v.bad && w.buf + w.rd == v.rd && w.last == (|v.rd| < chunkSize)
    && |w.buf| == if |v.rd| < chunkSize then |v.rd| else chunkSize
  }

  /** Argument nv is accepted for field j: an unnamed value, no output, convertible, and its first chunk readable. */
  predicate Convertible(f: Fields, j: nat, nv: NamedValue)
    requires j < |f.out|
  {
    && !f.out[j] && !nv.value.Out? && !nv.named
    && var v := f.convert(j, nv.value);
    && v.Some? && (v.value.Lob? ==> !v.value.bad || |v.value.rd| >= f.chunkSize)
  }

  /** `w` is what is handed over for it: the converted value, a LOB with its first chunk. */
  predicate Converted(f: Fields, j: nat, nv: NamedValue, w: NamedValue)
    requires j < |f.out|
  {
    && Convertible(f, j, nv) && !w.named
    && var v := f.convert(j, nv.value).value;
       if v.Lob? then Begun(v, w.value, f.chunkSize) else w.value == v
  }

  lemma ConvertOneMeans(f: Fields, j: nat, nv: NamedValue, w: NamedValue)
    requires j < |f.out|
    ensures ConvertOne(f, j, nv) == Some(w) <==> Converted(f, j, nv, w)
    ensures ConvertOne(f, j, nv).Some? <==> Convertible(f, j, nv)
  {
    if Convertible(f, j, nv) && f.convert(j, nv.value).value.Lob? {
      ChunkMeans(f.convert(j, nv.value).value, f.chunkSize, w.value);
    }
  }

  lemma ChunkMeans(v: Value, chunkSize: nat, w: Value)
    requires v.Lob? && (!v.bad || |v.rd| >= chunkSize)
    ensures FetchNext(v, chunkSize) == Some(w) <==> Begun(v, w, chunkSize)
  {
    if Begun(v, w, chunkSize) {
      assert v.rd[..|w.buf|] == w.buf && v.rd[|w.buf|..] == w.rd;
    }
  }

  /** Every argument is accepted for the field of its column. */
  ghost predicate AllConvertible(f: Fields, s: seq<NamedValue>)
    requires |f.out| > 0
  {
    forall k :: 0 <= k < |s| ==> Convertible(f, Col(k, |f.out|), s[k])
  }

  /** Every argument of s is handed over, converted, at its place in c. */
  ghost predicate AllConverted(f: Fields, s: seq<NamedValue>, c: seq<NamedValue>)
    requires |f.out| > 0
  {
    |c| == |s| && forall k :: 0 <= k < |s| ==> Converted(f, Col(k, |f.out|), s[k], c[k])
  }

  /** The conversion of a batch succeeds exactly if every argument is accepted, and yields what is handed over. */
  lemma {:induction false} ConvertAllMeans(f: Fields, s: seq<NamedValue>, c: seq<NamedValue>)
    requires |f.out| > 0
    ensures ConvertAll(f, s) == Some(c) <==> AllConverted(f, s, c)
    ensures ConvertAll(f, s).Some? <==> AllConvertible(f, s)
  {
    AcceptedConverts(f, s);
    if ConvertAll(f, s).Some? {
      ConvertsTo(f, s, ConvertAll(f, s).value);
      if AllConverted(f, s, c) {
        SameConversion(f, s, c, ConvertAll(f, s).value);
      }
    }
  }

  lemma {:induction false} ConvertsTo(f: Fields, s: seq<NamedValue>, c: seq<NamedValue>)
    requires |f.out| > 0 && ConvertAll(f, s) == Some(c)
    ensures AllConverted(f, s, c) && AllConvertible(f, s)
  {
    if |s| > 0 {
      var k := |s| - 1;
      ConvertsTo(f, s[..k], c[..k]);
      ConvertOneMeans(f, Col(k, |f.out|), s[k], c[k]);
      forall i | 0 <= i < |s|
        ensures Converted(f, Col(i, |f.out|), s[i], c[i])
      {
        if i < k {
          assert Converted(f, Col(i, |f.out|), s[..k][i], c[..k][i]);
        }
      }
    }
  }

  lemma {:induction false} AcceptedConverts(f: Fields, s: seq<NamedValue>)
    requires |f.out| > 0
    ensures AllConvertible(f, s) ==> ConvertAll(f, s).Some?
  {
    if |s| > 0 && AllConvertible(f, s) {
      var k := |s| - 1;
      AcceptedConverts(f, s[..k]);
      ConvertOneMeans(f, Col(k, |f.out|), s[k], s[k]);
    }
  }

  lemma SameConversion(f: Fields, s: seq<NamedValue>, c: seq<NamedValue>, d: seq<NamedValue>)
    requires |f.out| > 0 && AllConverted(f, s, c) && AllConverted(f, s, d)
    ensures c == d
  {
    forall k | 0 <= k < |s|
      ensures c[k] == d[k]
    {
      ConvertOneMeans(f, Col(k, |f.out|), s[k], c[k]);
      ConvertOneMeans(f, Col(k, |f.out|), s[k], d[k]);
    }
  }

  // ---------------------------------------------------------------- packages

  /** Some LOB of the row has data left after its first chunk. */
  predicate Incomplete(row: seq<NamedValue>)
  {
    |row| > 0 && (Incomplete(row[..|row| - 1]) || HasMore(row[|row| - 1]))
  }

  predicate HasMore(nv: NamedValue)
  {
    nv.value.Lob? && !nv.value.last
  }

  /** For each row of n arguments, whether it is incomplete. */
  function Flags(s: seq<NamedValue>, n: nat): (flags: seq<bool>)
    requires n > 0
  {
    if |s| < n then [] else Flags(s[..|s| - n], n) + [Incomplete(s[|s| - n..])]
  }

  lemma {:induction false} FlagsSnoc(s: seq<NamedValue>, row: seq<NamedValue>, n: nat)
    requires n > 0 && |row| == n
    ensures Flags(s + row, n) == Flags(s, n) + [Incomplete(row)]
  {
    var t := s + row;
    assert t[..|t| - n] == s && t[|t| - n..] == row;
  }

  /** The rows before row i that end a package: incomplete rows and the last row. */
  function Ends(flags: seq<bool>, i: nat): (ends: seq<nat>)
    requires i <= |flags|
  {
    if i == 0 then [] else Ends(flags, i - 1) + if flags[i - 1] || i == |flags| then [i - 1] else []
  }

  /** The first row after the packages that end in `ends`. */
  function Next(ends: seq<nat>): (r: nat)
  {
    if |ends| == 0 then 0 else ends[|ends| - 1] + 1
  }

  /** The k-th package goes from row Next(ends[..k]) to row ends[k]; its rows before the last are complete. */
  ghost predicate Package(flags: seq<bool>, ends: seq<nat>, k: nat)
    requires k < |ends|
  {
    && Next(ends[..k]) <= ends[k] < |flags|
    && (forall i :: Next(ends[..k]) <= i < ends[k] ==> !flags[i])
    && (flags[ends[k]] || ends[k] + 1 == |flags|)
  }

  lemma {:induction false} EndsArePackages(flags: seq<bool>, i: nat)
    requires i <= |flags|
    ensures forall k :: 0 <= k < |Ends(flags, i)| ==> Package(flags, Ends(flags, i), k)
    ensures Next(Ends(flags, i)) <= i && (forall k :: Next(Ends(flags, i)) <= k < i ==> !flags[k])
    ensures i == |flags| ==> Next(Ends(flags, i)) == i
  {
    if i > 0 {
      EndsArePackages(flags, i - 1);
      var e0, e := Ends(flags, i - 1), Ends(flags, i);
      forall k | 0 <= k < |e|
        ensures Package(flags, e, k)
      {
        if k < |e0| {
          assert e[..k] == e0[..k] && Package(flags, e0, k);
        } else {
          assert e[..k] == e0;
        }
      }
    }
  }

  // ---------------------------------------------------------------- convertExecArgs

  lemma {:induction false} RefusedStays(f: Fields, s: seq<NamedValue>, k: nat)
    requires |f.out| > 0 && k <= |s| && ConvertAll(f, s[..k]).None?
    ensures ConvertAll(f, s).None?
    decreases |s| - k
  {
    if k == |s| {
      assert s[..k] == s;
    } else {
      ConvertNext(f, s, k);
      RefusedStays(f, s, k + 1);
    }
  }

  lemma {:induction false} ConvertNext(f: Fields, s: seq<NamedValue>, k: nat)
    requires |f.out| > 0 && k < |s|
    ensures ConvertAll(f, s[..k + 1]) == Join(ConvertAll(f, s[..k]), Single(f, k, s[k]))
  {
    assert s[..k + 1][..k] == s[..k];
  }

  /** The arguments s, converted in place up to k. */
  ghost predicate Progress(f: Fields, args: seq<NamedValue>, s: seq<NamedValue>, k: nat)
    requires |f.out| > 0
  {
    k <= |s| == |args| && ConvertAll(f, s[..k]) == Some(args[..k]) && args[k..] == s[k..]
  }

  /** Only element k changed, to c. */
  ghost predicate Changed(before: seq<NamedValue>, after: seq<NamedValue>, k: nat, c: NamedValue)
  {
    k < |before| == |after| && after[k] == c && forall i :: 0 <= i < |before| && i != k ==> after[i] == before[i]
  }

  lemma ProgressStep(f: Fields, args: seq<NamedValue>, args': seq<NamedValue>, s: seq<NamedValue>, k: nat,
                     c: NamedValue)
    requires |f.out| > 0 && k < |s| && Progress(f, args, s, k) && Single(f, k, s[k]) == Some([c])
    requires Changed(args, args', k, c)
    ensures Progress(f, args', s, k + 1)
  {
    ConvertNext(f, s, k);
    assert args'[..k + 1] == args[..k] + [c];
    assert args'[k + 1..] == args[k..][1..];
  }

  /** One argument, converted in place. */
  method ConvertField(f: Fields, args: array<NamedValue>, ghost s: seq<NamedValue>, k: nat, j: nat)
      returns (c: Option<NamedValue>)
    requires |f.out| > 0 && k < |s| && Col(k, |f.out|) == j && Progress(f, args[..], s, k)
    modifies args
    ensures c.None? ==> ConvertAll(f, s).None?
    ensures c.Some? ==> Changed(old(args[..]), args[..], k, c.value) && Progress(f, args[..], s, k + 1)
  {
    ghost var before := args[..];
    assert args[k] == before[k..][0] == s[k];
    c := ConvertOne(f, j, args[k]);
    ConvertNext(f, s, k);
    if c.None? {
      RefusedStays(f, s, k + 1);
    } else {
      args[k] := c.value;
      ProgressStep(f, before, args[..], s, k, c.value);
    }
  }

  /** The fields of the row that starts at k; `has` tells whether LOB data is left. */
  method ConvertRow(f: Fields, args: array<NamedValue>, ghost s: seq<NamedValue>, k: nat, next: nat)
      returns (ok: bool, has: bool, ghost row: seq<NamedValue>)
    requires |f.out| > 0 && Col(k, |f.out|) == 0 && next == k + |f.out| <= |s| && Progress(f, args[..], s, k)
    modifies args
    ensures !ok ==> ConvertAll(f, s).None?
    ensures ok ==> Progress(f, args[..], s, next)
    ensures ok ==> RowDone(old(args[..]), args[..], k, |f.out|, row) && has == Incomplete(row)
  {
    has, row := false, [];
    ghost var start := args[..];
    for j := 0 to |f.out|
      invariant Progress(f, args[..], s, k + j)
      invariant RowDone(start, args[..], k, j, row) && has == Incomplete(row)
    {
      var c := ConvertCell(f, args, s, k, j, start, row);
      if c.None? {
        return false, has, row;
      }
      row := row + [c.value];
      if HasMore(c.value) {
        has := true;
      }
    }
    assert k + |f.out| == next;
    ok := true;
  }

  method ConvertCell(f: Fields, args: array<NamedValue>, ghost s: seq<NamedValue>, k: nat, j: nat,
                     ghost start: seq<NamedValue>, ghost row: seq<NamedValue>)
      returns (c: Option<NamedValue>)
    requires j < |f.out| && Col(k, |f.out|) == 0 && k + |f.out| <= |s| && Progress(f, args[..], s, k + j)
    requires RowDone(start, args[..], k, j, row)
    modifies args
    ensures c.None? ==> ConvertAll(f, s).None?
    ensures c.Some? ==> Progress(f, args[..], s, k + (j + 1)) && RowDone(start, args[..], k, j + 1, row + [c.value])
    ensures c.Some? ==> (Incomplete(row + [c.value]) <==> Incomplete(row) || HasMore(c.value))
  {
    SameColumn(k, j, |f.out|);
    ghost var before := args[..];
    c := ConvertField(f, args, s, k + j, j);
    if c.Some? {
      RowNext(start, before, args[..], k, j, row, c.value);
      IncompleteSnoc(row, c.value);
    }
  }

  /** From `start` on, the arguments from k to k + j were replaced by `row`. */
  ghost predicate RowDone(start: seq<NamedValue>, args: seq<NamedValue>, k: nat, j: nat, row: seq<NamedValue>)
  {
    k + j <= |args| == |start| && args[..k] == start[..k] && args[k..k + j] == row
  }

  lemma RowNext(start: seq<NamedValue>, before: seq<NamedValue>, after: seq<NamedValue>, k: nat, j: nat,
                row: seq<NamedValue>, c: NamedValue)
    requires RowDone(start, before, k, j, row) && Changed(before, after, k + j, c)
    ensures RowDone(start, after, k, j + 1, row + [c])
  {
    assert after[..k] == before[..k];
    assert after[k..k + j + 1] == before[k..k + j] + [c];
  }

  lemma {:induction false} IncompleteSnoc(row: seq<NamedValue>, nv: NamedValue)
    ensures Incomplete(row + [nv]) <==> Incomplete(row) || HasMore(nv)
  {
    assert (row + [nv])[..|row|] == row;
  }

  /** The arguments are converted in place; the result lists the rows that end a package. */
  method ConvertExecArgs(f: Fields, args: array<NamedValue>) returns (r: Option<seq<nat>>)
    requires |f.out| > 0
    modifies args
    ensures r.Some? <==> Col(args.Length, |f.out|) == 0 && AllConvertible(f, old(args[..]))
    ensures r.Some? ==> AllConverted(f, old(args[..]), args[..])
    ensures ConvertedBatch(f, old(args[..]), args[..], r)
  {
    r := ConvertBatch(f, args);
    ConvertAllMeans(f, old(args[..]), args[..]);
  }

  /** The same in terms of ConvertAll, with the rows that end a package. */
  ghost predicate ConvertedBatch(f: Fields, s: seq<NamedValue>, c: seq<NamedValue>, r: Option<seq<nat>>)
    requires |f.out| > 0
  {
    && (r.Some? <==> Col(|s|, |f.out|) == 0 && ConvertAll(f, s).Some?)
    && (r.Some? ==> ConvertAll(f, s) == Some(c) && r.value == Ends(Flags(c, |f.out|), |Flags(c, |f.out|)|))
  }

  method ConvertBatch(f: Fields, args: array<NamedValue>) returns (r: Option<seq<nat>>)
    requires |f.out| > 0
    modifies args
    ensures ConvertedBatch(f, old(args[..]), args[..], r)
  {
    ColIs(args.Length, |f.out|);
    if args.Length % |f.out| != 0 {
      return None;
    }
    ghost var s := args[..];
    var numRow := RowCount(args.Length, |f.out|);
    var ok, ends := ConvertRows(f, args, s, numRow);
    if !ok {
      return None;
    }
    assert s[..|s|] == s && args[..][..|s|] == args[..];
    EndsAll(Flags(args[..], |f.out|));
    r := Some(ends);
  }

  /** The number of rows of len arguments, no argument being left over. */
  method RowCount(len: nat, n: nat) returns (r: nat)
    requires n > 0 && Col(len, n) == 0
    ensures ArgCount(r, n) == len
  {
    ColIs(len, n);
    ArgCountIs(len / n, n);
    r := len / n;
  }

  lemma {:induction false} WholeRows(len: nat, n: nat) returns (m: nat)
    requires n > 0 && Col(len, n) == 0
    ensures ArgCount(m, n) == len
  {
    if len == 0 {
      m := 0;
    } else {
      m := WholeRows(len - n, n);
      m := m + 1;
    }
  }

  method ConvertRows(f: Fields, args: array<NamedValue>, ghost s: seq<NamedValue>, numRow: nat)
      returns (ok: bool, ends: seq<nat>)
    requires |f.out| > 0 && s == args[..] && ArgCount(numRow, |f.out|) == |s|
    modifies args
    ensures !ok ==> ConvertAll(f, s).None?
    ensures ok ==> Progress(f, args[..], s, |s|) && Collected(args[..][..|s|], |f.out|, numRow, numRow, ends)
  {
    ends := [];
    var k := 0; // i * numField
    assert s[..0] == [] && args[..][..0] == [];
    for i := 0 to numRow
      invariant k == ArgCount(i, |f.out|) <= |s| && Progress(f, args[..], s, k)
      invariant Collected(args[..][..k], |f.out|, i, numRow, ends)
    {
      RowFits(i, |f.out|, numRow);
      ok, ends, k := ConvertNextRow(f, args, s, k, i, numRow, ends);
      if !ok {
        return;
      }
    }
    ok := true;
  }

  /** The package ends among the i rows done so far are collected. */
  ghost predicate Collected(done: seq<NamedValue>, n: nat, i: nat, numRow: nat, ends: seq<nat>)
    requires n > 0
  {
    |Flags(done, n)| == i && ends == EndsSoFar(Flags(done, n), numRow)
  }

  method ConvertNextRow(f: Fields, args: array<NamedValue>, ghost s: seq<NamedValue>, k: nat, i: nat, numRow: nat,
                        ends0: seq<nat>)
      returns (ok: bool, ends: seq<nat>, next: nat)
    requires |f.out| > 0 && Col(k, |f.out|) == 0 && k + |f.out| <= |s|
    requires Progress(f, args[..], s, k) && Collected(args[..][..k], |f.out|, i, numRow, ends0)
    modifies args
    ensures !ok ==> ConvertAll(f, s).None?
    ensures next == k + |f.out|
    ensures ok ==> Progress(f, args[..], s, next) && Collected(args[..][..next], |f.out|, i + 1, numRow, ends)
  {
    next := k + |f.out|;
    ghost var start, row := args[..], [];
    var has;
    ok, has, row := ConvertRow(f, args, s, k, next);
    ends := ends0;
    if ok {
      if has || i == numRow - 1 {
        ends := ends + [i];
      }
      CollectNext(start, args[..], row, k, |f.out|, i, numRow, ends0, has, ends, next);
    }
  }

  lemma {:induction false} CollectNext(start: seq<NamedValue>, args: seq<NamedValue>, row: seq<NamedValue>, k: nat,
                                       n: nat, i: nat, numRow: nat, ends0: seq<nat>, has: bool, ends: seq<nat>,
                                       next: nat)
    requires n > 0 && RowDone(start, args, k, n, row) && Collected(start[..k], n, i, numRow, ends0) && next == k + n
    requires has == Incomplete(row) && ends == (if has || i == numRow - 1 then ends0 + [i] else ends0)
    ensures Collected(args[..next], n, i + 1, numRow, ends)
  {
    var done := start[..k];
    assert args[..next] == done + row;
    FlagsSnoc(done, row, n);
    EndsSnoc(Flags(done, n), has, numRow);
  }

  /** The number of arguments in i rows of n: i * n, by addition (ArgCountIs). */
  function ArgCount(i: nat, n: nat): (k: nat)
  {
    if i == 0 then 0 else ArgCount(i - 1, n) + n
  }

  lemma {:induction false} ArgCountIs(i: nat, n: nat)
    requires n > 0
    ensures ArgCount(i, n) == i * n
  {
    if i > 0 {
      ArgCountIs(i - 1, n);
    }
  }

  lemma {:induction false} ArgCountWhole(i: nat, n: nat)
    requires n > 0
    ensures Col(ArgCount(i, n), n) == 0
  {
    if i > 0 {
      ArgCountWhole(i - 1, n);
      SameColumn(ArgCount(i - 1, n), n, n);
    }
  }

  lemma {:induction false} RowFits(i: nat, n: nat, numRow: nat)
    requires n > 0 && i < numRow
    ensures ArgCount(i + 1, n) == ArgCount(i, n) + n <= ArgCount(numRow, n) && Col(ArgCount(i, n), n) == 0
    decreases numRow - i
  {
    ArgCountWhole(i, n);
    if i + 1 < numRow {
      RowFits(i + 1, n, numRow);
    }
  }

  lemma {:induction false} EndsSnoc(flags: seq<bool>, has: bool, numRow: nat)
    ensures EndsSoFar(flags + [has], numRow)
            == EndsSoFar(flags, numRow) + if has || |flags| == numRow - 1 then [|flags|] else []
  {
    assert (flags + [has])[..|flags|] == flags;
  }

  ghost function EndsSoFar(flags: seq<bool>, numRow: nat): (ends: seq<nat>)
  {
    if |flags| == 0 then []
    else
      var i := |flags| - 1;
      EndsSoFar(flags[..i], numRow) + if flags[i] || i == numRow - 1 then [i] else []
  }

  lemma {:induction false} EndsPrefix(flags: seq<bool>, i: nat)
    requires i <= |flags|
    ensures EndsSoFar(flags[..i], |flags|) == Ends(flags, i)
  {
    if i > 0 {
      EndsPrefix(flags, i - 1);
      assert flags[..i][..i - 1] == flags[..i - 1];
    }
  }

  lemma {:induction false} EndsAll(flags: seq<bool>)
    ensures EndsSoFar(flags, |flags|) == Ends(flags, |flags|)
  {
    EndsPrefix(flags, |flags|);
    assert flags[..|flags|] == flags;
  }

  // ---------------------------------------------------------------- the packages of a batch

  /** A call of session.exec: the arguments of a package and the row offset for error reports. */
  datatype Call = Call(args: seq<NamedValue>, ofs: int)

  function Slice(s: seq<NamedValue>, lo: nat, hi: nat): (r: seq<NamedValue>)
  {
    if lo <= hi <= |s| then s[lo..hi] else []
  }

  /** The calls for packages that end in the rows `ends`. */
  function Cut(s: seq<NamedValue>, n: nat, ofs: int, ends: seq<nat>): (calls: seq<Call>)
    ensures |calls| == |ends|
  {
    if |ends| == 0 then []
    else
      var k := |ends| - 1;
      Cut(s, n, ofs, ends[..k]) + [Call(Slice(s, ArgCount(Next(ends[..k]), n), ArgCount(ends[k] + 1, n)), ofs)]
  }

  /** All arguments of the calls, in order. */
  function Flat(calls: seq<Call>): (s: seq<NamedValue>)
  {
    if |calls| == 0 then [] else Flat(calls[..|calls| - 1]) + calls[|calls| - 1].args
  }

  lemma {:induction false} FlatConcat(a: seq<Call>, b: seq<Call>)
    ensures Flat(a + b) == Flat(a) + Flat(b)
  {
    if |b| == 0 {
      assert a + b == a;
    } else {
      FlatConcat(a, b[..|b| - 1]);
      assert (a + b)[..|a + b| - 1] == a + b[..|b| - 1];
      Assoc(Flat(a), Flat(b[..|b| - 1]), b[|b| - 1].args);
    }
  }

  lemma {:induction false} ArgCountMonotone(a: nat, b: nat, n: nat)
    requires a <= b
    ensures ArgCount(a, n) <= ArgCount(b, n)
    decreases b
  {
    if a < b {
      ArgCountMonotone(a, b - 1, n);
    }
  }

  /** The flags of whole rows at the front. */
  lemma {:induction false} FlagsPrefix(s: seq<NamedValue>, n: nat, m: nat, b: nat)
    requires n > 0 && |s| == ArgCount(m, n) && b <= m
    ensures |Flags(s, n)| == m && ArgCount(b, n) <= |s| && Flags(s[..ArgCount(b, n)], n) == Flags(s, n)[..b]
    decreases m
  {
    ArgCountMonotone(b, m, n);
    if b == m {
      assert s[..ArgCount(b, n)] == s;
      if m > 0 {
        FlagsPrefix(s[..|s| - n], n, m - 1, m - 1);
      }
      assert Flags(s, n)[..b] == Flags(s, n);
    } else {
      ArgCountMonotone(b, m - 1, n);
      FlagsPrefix(s[..|s| - n], n, m - 1, b);
      assert s[..|s| - n][..ArgCount(b, n)] == s[..ArgCount(b, n)];
    }
  }

  lemma {:induction false} FlagsConcat(x: seq<NamedValue>, y: seq<NamedValue>, n: nat, m: nat)
    requires n > 0 && |y| == ArgCount(m, n)
    ensures Flags(x + y, n) == Flags(x, n) + Flags(y, n)
    decreases m
  {
    if m == 0 {
      assert x + y == x && y == [];
    } else {
      var y0, row := y[..|y| - n], y[|y| - n..];
      FlagsConcat(x, y0, n, m - 1);
      assert x + y == (x + y0) + row && y == y0 + row;
      FlagsSnoc(x + y0, row, n);
      FlagsSnoc(y0, row, n);
      Assoc(Flags(x, n), Flags(y0, n), [Incomplete(row)]);
    }
  }

  lemma {:induction false} ArgCountSum(a: nat, c: nat, n: nat)
    ensures ArgCount(a + c, n) == ArgCount(a, n) + ArgCount(c, n)
    decreases c
  {
    if c > 0 {
      ArgCountSum(a, c - 1, n);
    }
  }

  /** The rows from a to b of s have the flags from a to b. */
  lemma FlagsSlice(s: seq<NamedValue>, n: nat, m: nat, a: nat, b: nat)
    requires n > 0 && |s| == ArgCount(m, n) && a <= b <= m
    ensures var p := Slice(s, ArgCount(a, n), ArgCount(b, n));
            && |Flags(s, n)| == m && ArgCount(a, n) <= ArgCount(b, n) <= |s|
            && |p| == ArgCount(b - a, n) && Flags(p, n) == Flags(s, n)[a..b]
  {
    ArgCountMonotone(a, b, n);
    ArgCountMonotone(b, m, n);
    ArgCountSum(a, b - a, n);
    var x, y := s[..ArgCount(a, n)], s[ArgCount(a, n)..ArgCount(b, n)];
    assert x + y == s[..ArgCount(b, n)];
    FlagsConcat(x, y, n, b - a);
    FlagsPrefix(s, n, m, a);
    FlagsPrefix(s, n, m, b);
    assert Flags(s, n)[..b] == Flags(s, n)[..a] + Flags(s, n)[a..b];
  }

  /** A row is flagged exactly when it has a LOB of which the last byte has not been read. */
  lemma {:induction false} FlagsMean(s: seq<NamedValue>, n: nat, m: nat, i: nat, row: seq<NamedValue>)
    requires n > 0 && |s| == ArgCount(m, n) && i < m && row == Slice(s, ArgCount(i, n), ArgCount(i + 1, n))
    ensures |Flags(s, n)| == m && |row| == n
    ensures Flags(s, n)[i] <==> exists k :: 0 <= k < |row| && row[k].value.Lob? && !row[k].value.last
  {
    FlagsSlice(s, n, m, i, i + 1);
    FlagOfRow(row, n);
    IncompleteMeans(row);
  }

  lemma {:induction false} FlagOfRow(row: seq<NamedValue>, n: nat)
    requires n > 0 && |row| == ArgCount(1, n)
    ensures |row| == n && Flags(row, n) == [Incomplete(row)]
  {
    assert ArgCount(1, n) == ArgCount(0, n) + n;
    FlagsSnoc([], row, n);
    assert [] + row == row;
  }

  lemma {:induction false} IncompleteMeans(row: seq<NamedValue>)
    ensures Incomplete(row) <==> exists k :: 0 <= k < |row| && row[k].value.Lob? && !row[k].value.last
  {
    if |row| > 0 {
      IncompleteMeans(row[..|row| - 1]);
      assert forall k :: 0 <= k < |row| - 1 ==> row[..|row| - 1][k] == row[k];
    }
  }

  /** A package has rows, and only its last one may be incomplete. */
  ghost predicate GoodPackage(p: seq<NamedValue>, n: nat)
    requires n > 0
  {
    && |p| == ArgCount(|Flags(p, n)|, n) && |Flags(p, n)| > 0
    && forall i :: 0 <= i < |Flags(p, n)| - 1 ==> !Flags(p, n)[i]
  }

  /** The last row of the package is incomplete. */
  ghost predicate EndsIncomplete(p: seq<NamedValue>, n: nat)
    requires n > 0
  {
    |Flags(p, n)| > 0 && Flags(p, n)[|Flags(p, n)| - 1]
  }

  lemma {:induction false} PackageIsGood(s: seq<NamedValue>, n: nat, m: nat, flags: seq<bool>, a: nat, b: nat,
                                         p: seq<NamedValue>)
    requires n > 0 && |s| == ArgCount(m, n) && flags == Flags(s, n) && |flags| == m && a < b <= m
    requires p == Slice(s, ArgCount(a, n), ArgCount(b, n))
    requires (forall i :: a <= i < b - 1 ==> !flags[i]) && (flags[b - 1] || b == |flags|)
    ensures GoodPackage(p, n) && (b < m ==> EndsIncomplete(p, n))
  {
    FlagsSlice(s, n, m, a, b);
    GoodFlags(p, n, flags, a, b);
  }

  lemma {:induction false} GoodFlags(p: seq<NamedValue>, n: nat, flags: seq<bool>, a: nat, b: nat)
    requires n > 0 && a < b <= |flags| && Flags(p, n) == flags[a..b] && |p| == ArgCount(b - a, n)
    requires (forall i :: a <= i < b - 1 ==> !flags[i]) && (flags[b - 1] || b == |flags|)
    ensures GoodPackage(p, n) && (b < |flags| ==> EndsIncomplete(p, n))
  {
  }

  lemma {:induction false} FlatCut(s: seq<NamedValue>, n: nat, ofs: int, ends: seq<nat>, lo: nat, hi: nat)
    requires |ends| > 0 && lo <= hi <= |s|
    requires lo == ArgCount(Next(ends[..|ends| - 1]), n) && hi == ArgCount(ends[|ends| - 1] + 1, n)
    requires Flat(Cut(s, n, ofs, ends[..|ends| - 1])) == s[..lo]
    ensures Flat(Cut(s, n, ofs, ends)) == s[..hi]
  {
    var calls := Cut(s, n, ofs, ends);
    assert calls[..|ends| - 1] == Cut(s, n, ofs, ends[..|ends| - 1]);
    assert s[..lo] + s[lo..hi] == s[..hi];
  }

  lemma NextAt(ends: seq<nat>, k: nat)
    requires 0 < k <= |ends|
    ensures ends[..k][..k - 1] == ends[..k - 1] && ends[..k][k - 1] == ends[k - 1] && Next(ends[..k]) == ends[k - 1] + 1
  {
  }

  lemma {:induction false} CutFlat(s: seq<NamedValue>, n: nat, flags: seq<bool>, ofs: int, ends: seq<nat>, k: nat)
    requires |s| == ArgCount(|flags|, n) && k <= |ends|
    requires forall i :: 0 <= i < |ends| ==> Package(flags, ends, i)
    ensures Next(ends[..k]) <= |flags| && ArgCount(Next(ends[..k]), n) <= |s|
    ensures Flat(Cut(s, n, ofs, ends[..k])) == s[..ArgCount(Next(ends[..k]), n)]
  {
    if k > 0 {
      CutFlat(s, n, flags, ofs, ends, k - 1);
      NextAt(ends, k);
      assert Package(flags, ends, k - 1);
      var from, to := Next(ends[..k - 1]), ends[k - 1] + 1;
      ArgCountMonotone(from, to, n);
      ArgCountMonotone(to, |flags|, n);
      FlatCut(s, n, ofs, ends[..k], ArgCount(from, n), ArgCount(to, n));
    }
  }

  lemma {:induction false} CutAt(s: seq<NamedValue>, n: nat, ofs: int, ends: seq<nat>, k: nat)
    requires k < |ends|
    ensures Cut(s, n, ofs, ends)[k] == Call(Slice(s, ArgCount(Next(ends[..k]), n), ArgCount(ends[k] + 1, n)), ofs)
  {
    if k < |ends| - 1 {
      CutAt(s, n, ofs, ends[..|ends| - 1], k);
      assert ends[..|ends| - 1][..k] == ends[..k];
    }
  }

  /** The calls for one batch of converted arguments. */
  function Packages(s: seq<NamedValue>, n: nat, ofs: int): (calls: seq<Call>)
    requires n > 0
  {
    Cut(s, n, ofs, Ends(Flags(s, n), |Flags(s, n)|))
  }

  /**
    The package invariant: the calls hand over all rows in order; every package has rows of which only
    the last may have LOB data left to stream, and every package but the last ends in such a row.
   */
  lemma {:induction false} PackageInvariant(s: seq<NamedValue>, n: nat, ofs: int)
    requires n > 0 && Col(|s|, n) == 0
    ensures var calls := Packages(s, n, ofs);
            && Flat(calls) == s
            && (forall k :: 0 <= k < |calls| ==> GoodPackage(calls[k].args, n) && calls[k].ofs == ofs)
            && (forall k :: 0 <= k < |calls| - 1 ==> EndsIncomplete(calls[k].args, n))
  {
    var m := WholeRows(|s|, n);
    FlagsPrefix(s, n, m, m);
    var flags := Flags(s, n);
    var ends, calls := Ends(flags, m), Packages(s, n, ofs);
    EndsArePackages(flags, m);
    CutFlat(s, n, flags, ofs, ends, |ends|);
    assert ends[..|ends|] == ends && s[..|s|] == s;
    forall k | 0 <= k < |calls|
      ensures GoodPackage(calls[k].args, n) && calls[k].ofs == ofs && (k < |calls| - 1 ==>
                EndsIncomplete(calls[k].args, n))
    {
      CutAt(s, n, ofs, ends, k);
      GoodCall(s, n, m, flags, ends, k, calls[k].args);
    }
  }

  lemma {:induction false} GoodCall(s: seq<NamedValue>, n: nat, m: nat, flags: seq<bool>, ends: seq<nat>, k: nat,
                                    p: seq<NamedValue>)
    requires n > 0 && |s| == ArgCount(m, n) && flags == Flags(s, n) && |flags| == m && k < |ends|
    requires Package(flags, ends, k) && (k + 1 < |ends| ==> Package(flags, ends, k + 1))
    requires p == Slice(s, ArgCount(Next(ends[..k]), n), ArgCount(ends[k] + 1, n))
    ensures GoodPackage(p, n) && (k + 1 < |ends| ==> EndsIncomplete(p, n))
  {
    if k + 1 < |ends| {
      EndsBelow(flags, ends, k);
    }
    PackageIsGood(s, n, m, flags, Next(ends[..k]), ends[k] + 1, p);
  }

  lemma EndsBelow(flags: seq<bool>, ends: seq<nat>, k: nat)
    requires k + 1 < |ends| && Package(flags, ends, k) && Package(flags, ends, k + 1)
    ensures ends[k] + 1 < |flags|
  {
    assert ends[..k + 1][k] == ends[k];
  }
}
