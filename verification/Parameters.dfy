/**
  InputParameters (driver/internal/protocol/parameter.go): size() computes the length of the part and
  sets the positions of the LOBs in a first pass, encode() writes the bytes in a second one.
 */
module Parameters {
  import opened Bytes
  import opened Cesu8Text
  import opened LobWrite
  import opened Fields

  // ---------------------------------------------------------------- the layout

  /** What the layout depends on: the size of a parameter and, for a LOB, its first chunk. */
  datatype Cell = Cell(size: int, lob: Option<seq<byte>>)

  function Heads(cells: seq<Cell>): (n: int)
  {
    if |cells| == 0 then 0 else Heads(cells[..|cells| - 1]) + 1 + cells[|cells| - 1].size
  }

  function Chunk(c: Cell): (s: seq<byte>)
  {
    if c.lob.Some? then c.lob.value else []
  }

  /** The first chunks of a row, in the order of the columns. */
  function Chunks(cells: seq<Cell>): (s: seq<byte>)
  {
    if |cells| == 0 then [] else Chunks(cells[..|cells| - 1]) + Chunk(cells[|cells| - 1])
  }

  function RowSize(cells: seq<Cell>, lobs: bool): (n: int)
  {
    Heads(cells) + if lobs then |Chunks(cells)| else 0
  }

  function RowsSize(rows: seq<seq<Cell>>, lobs: bool): (n: int)
  {
    if |rows| == 0 then 0 else RowsSize(rows[..|rows| - 1], lobs) + RowSize(rows[|rows| - 1], lobs)
  }

  /** A parameter has at least -1 bytes behind its type code: -1 is the size of one that is too long. */
  ghost predicate Sized(cells: seq<Cell>)
  {
    |cells| == 0 || (Sized(cells[..|cells| - 1]) && cells[|cells| - 1].size >= -1)
  }

  ghost predicate AllSized(rows: seq<seq<Cell>>)
  {
    |rows| == 0 || (AllSized(rows[..|rows| - 1]) && Sized(rows[|rows| - 1]))
  }

  lemma {:induction false} HeadsSize(cells: seq<Cell>)
    requires Sized(cells)
    ensures Heads(cells) >= 0
  {
    if |cells| > 0 {
      HeadsSize(cells[..|cells| - 1]);
    }
  }

  lemma {:induction false} NonNegativeSize(rows: seq<seq<Cell>>, lobs: bool)
    requires AllSized(rows)
    ensures RowsSize(rows, lobs) >= 0
  {
    if |rows| > 0 {
      NonNegativeSize(rows[..|rows| - 1], lobs);
      HeadsSize(rows[|rows| - 1]);
    }
  }

  /** The offset of the parameter in row i and column j. */
  function HeadPos(rows: seq<seq<Cell>>, lobs: bool, i: nat, j: nat): (n: int)
    requires i < |rows| && j <= |rows[i]|
  {
    RowsSize(rows[..i], lobs) + Heads(rows[i][..j])
  }

  /** The offset of the first chunk of the LOB in row i and column j: after all parameters of its row. */
  function LobPos(rows: seq<seq<Cell>>, i: nat, j: nat): (n: int)
    requires i < |rows| && j <= |rows[i]|
  {
    RowsSize(rows[..i], true) + Heads(rows[i]) + |Chunks(rows[i][..j])|
  }

  function Concat(ss: seq<seq<byte>>): (s: seq<byte>)
  {
    if |ss| == 0 then [] else Concat(ss[..|ss| - 1]) + ss[|ss| - 1]
  }

  function RowBytes(heads: seq<seq<byte>>, cells: seq<Cell>, lobs: bool): (s: seq<byte>)
  {
    Concat(heads) + if lobs then Chunks(cells) else []
  }

  /** The bytes of the part, given those of every parameter. */
  function PartBytes(heads: seq<seq<seq<byte>>>, rows: seq<seq<Cell>>, lobs: bool): (s: seq<byte>)
    requires |heads| == |rows|
  {
    if |rows| == 0 then []
    else PartBytes(heads[..|rows| - 1], rows[..|rows| - 1], lobs) + RowBytes(heads[|rows| - 1], rows[|rows| - 1], lobs)
  }

  ghost predicate RowFits(heads: seq<seq<byte>>, cells: seq<Cell>)
  {
    |heads| == |cells| && forall j :: 0 <= j < |cells| ==> |heads[j]| == 1 + cells[j].size
  }

  ghost predicate Fits(heads: seq<seq<seq<byte>>>, rows: seq<seq<Cell>>)
  {
    |heads| == |rows| && forall i :: 0 <= i < |rows| ==> RowFits(heads[i], rows[i])
  }

  lemma {:induction false} ConcatSize(heads: seq<seq<byte>>, cells: seq<Cell>)
    requires RowFits(heads, cells)
    ensures |Concat(heads)| == Heads(cells)
  {
    if |cells| > 0 {
      ConcatSize(heads[..|cells| - 1], cells[..|cells| - 1]);
    }
  }

  /** The part has the computed size. */
  lemma {:induction false} PartSize(heads: seq<seq<seq<byte>>>, rows: seq<seq<Cell>>, lobs: bool)
    requires Fits(heads, rows)
    ensures |PartBytes(heads, rows, lobs)| == RowsSize(rows, lobs)
  {
    if |rows| > 0 {
      PartSize(heads[..|rows| - 1], rows[..|rows| - 1], lobs);
      ConcatSize(heads[|rows| - 1], rows[|rows| - 1]);
    }
  }

  /** `piece` is in `s` at offset `at`. */
  ghost predicate At(s: seq<byte>, at: int, piece: seq<byte>)
  {
    0 <= at && at + |piece| <= |s| && s[at..at + |piece|] == piece
  }

  lemma AtLonger(s: seq<byte>, t: seq<byte>, at: int, piece: seq<byte>)
    requires At(s, at, piece)
    ensures At(s + t, at, piece)
  {
    assert (s + t)[at..at + |piece|] == s[at..at + |piece|];
  }

  lemma AtBehind(p: seq<byte>, s: seq<byte>, at: int, piece: seq<byte>, pos: int)
    requires At(s, at, piece) && pos == |p| + at
    ensures At(p + s, pos, piece)
  {
    assert (p + s)[pos..pos + |piece|] == s[at..at + |piece|];
  }

  lemma {:induction false} ConcatAt(heads: seq<seq<byte>>, cells: seq<Cell>, j: nat)
    requires RowFits(heads, cells) && j < |cells|
    ensures At(Concat(heads), Heads(cells[..j]), heads[j])
  {
    var n := |cells| - 1;
    ConcatSize(heads[..n], cells[..n]);
    if j == n {
      AtBehind(Concat(heads[..n]), heads[j], 0, heads[j], Heads(cells[..n]));
    } else {
      ConcatAt(heads[..n], cells[..n], j);
      assert cells[..n][..j] == cells[..j];
      AtLonger(Concat(heads[..n]), heads[n], Heads(cells[..j]), heads[j]);
    }
  }

  lemma {:induction false} ChunksAt(cells: seq<Cell>, j: nat)
    requires j < |cells|
    ensures At(Chunks(cells), |Chunks(cells[..j])|, Chunk(cells[j]))
  {
    var n := |cells| - 1;
    if j == n {
      AtBehind(Chunks(cells[..n]), Chunk(cells[j]), 0, Chunk(cells[j]), |Chunks(cells[..n])|);
    } else {
      ChunksAt(cells[..n], j);
      assert cells[..n][..j] == cells[..j];
      AtLonger(Chunks(cells[..n]), Chunk(cells[n]), |Chunks(cells[..j])|, Chunk(cells[j]));
    }
  }

  lemma {:induction false} RowAt(heads: seq<seq<byte>>, cells: seq<Cell>, lobs: bool, j: nat)
    requires RowFits(heads, cells) && j < |cells|
    ensures At(RowBytes(heads, cells, lobs), Heads(cells[..j]), heads[j])
    ensures lobs ==> At(RowBytes(heads, cells, lobs), Heads(cells) + |Chunks(cells[..j])|, Chunk(cells[j]))
  {
    ConcatSize(heads, cells);
    ConcatAt(heads, cells, j);
    AtLonger(Concat(heads), if lobs then Chunks(cells) else [], Heads(cells[..j]), heads[j]);
    if lobs {
      ChunksAt(cells, j);
      var at := |Chunks(cells[..j])|;
      AtBehind(Concat(heads), Chunks(cells), at, Chunk(cells[j]), Heads(cells) + at);
    }
  }

  lemma {:induction false} PartRowAt(heads: seq<seq<seq<byte>>>, rows: seq<seq<Cell>>, lobs: bool, i: nat, at: int,
                                     piece: seq<byte>, pos: int)
    requires Fits(heads, rows) && i < |rows| && pos == RowsSize(rows[..i], lobs) + at
    requires At(RowBytes(heads[i], rows[i], lobs), at, piece)
    ensures At(PartBytes(heads, rows, lobs), pos, piece)
  {
    var n := |rows| - 1;
    var before, row := PartBytes(heads[..n], rows[..n], lobs), RowBytes(heads[n], rows[n], lobs);
    if i == n {
      PartSize(heads[..n], rows[..n], lobs);
      AtBehind(before, row, at, piece, pos);
    } else {
      assert rows[..n][..i] == rows[..i];
      PartRowAt(heads[..n], rows[..n], lobs, i, at, piece, pos);
      AtLonger(before, row, pos, piece);
    }
  }

  /** Every parameter and every first chunk is found at the offset computed for it. */
  lemma {:induction false} PartAt(heads: seq<seq<seq<byte>>>, rows: seq<seq<Cell>>, lobs: bool, i: nat, j: nat)
    requires Fits(heads, rows) && i < |rows| && j < |rows[i]|
    ensures At(PartBytes(heads, rows, lobs), HeadPos(rows, lobs, i, j), heads[i][j])
    ensures lobs ==> At(PartBytes(heads, rows, lobs), LobPos(rows, i, j), Chunk(rows[i][j]))
  {
    RowAt(heads[i], rows[i], lobs, j);
    PartRowAt(heads, rows, lobs, i, Heads(rows[i][..j]), heads[i][j], HeadPos(rows, lobs, i, j));
    if lobs {
      PartRowAt(heads, rows, lobs, i, Heads(rows[i]) + |Chunks(rows[i][..j])|, Chunk(rows[i][j]), LobPos(rows, i, j));
    }
  }

  // ---------------------------------------------------------------- rows and columns of the arguments

  /** The arguments by rows; an incomplete last row is ignored. */
  function Grid(nvargs: seq<Prm>, n: nat): (g: seq<seq<Prm>>)
    requires n > 0
    ensures forall i :: 0 <= i < |g| ==> |g[i]| == n
  {
    if |nvargs| < n then [] else [nvargs[..n]] + Grid(nvargs[n..], n)
  }

  lemma {:induction false} GridLength(nvargs: seq<Prm>, n: nat)
    requires n > 0
    ensures |Grid(nvargs, n)| == |nvargs| / n
  {
    if |nvargs| < n {
      DivModUnique(|nvargs|, n, 0, |nvargs|);
    } else {
      GridLength(nvargs[n..], n);
      LessOneRow(|nvargs|, n);
    }
  }

  /** Row i and column j of the grid hold argument k = i * n + j. */
  lemma {:induction false} GridAt(nvargs: seq<Prm>, n: nat, i: nat, j: nat, k: nat)
    requires n > 0 && i < |Grid(nvargs, n)| && j < n && k == i * n + j
    ensures k < |nvargs| && Grid(nvargs, n)[i][j] == nvargs[k]
    decreases i
  {
    if i > 0 {
      NextRow(i - 1, n);
      GridAt(nvargs[n..], n, i - 1, j, k - n);
    }
  }

  lemma LessOneRow(len: nat, n: nat)
    requires 0 < n <= len
    ensures len / n == (len - n) / n + 1
  {
    var q, r := (len - n) / n, (len - n) % n;
    NextRow(q, n);
    DivModUnique(len, n, q + 1, r);
  }

  lemma NextRow(i: nat, n: nat)
    ensures (i + 1) * n == i * n + n
    ensures i * n >= 0
  {
  }

  /** The argument in row i and column j. */
  method ArgAt(nvargs: seq<Prm>, n: nat, i: nat, j: nat, ghost grid: seq<seq<Prm>>) returns (v: Prm)
    requires n > 0 && grid == Grid(nvargs, n) && i < |grid| && j < n
    ensures v == grid[i][j]
  {
    NextRow(i, n);
    var k := i * n + j;
    GridAt(nvargs, n, i, j, k);
    v := nvargs[k];
  }

  /** `row` is the i-th row of the arguments. */
  ghost predicate IsRow(row: seq<Prm>, i: nat, grid: seq<seq<Prm>>, nvargs: seq<Prm>, n: nat)
  {
    n > 0 && grid == Grid(nvargs, n) && i < |grid| && row == grid[i]
  }

  method NumRows(nvargs: seq<Prm>, n: nat, ghost grid: seq<seq<Prm>>) returns (m: nat)
    requires n > 0 && grid == Grid(nvargs, n)
    ensures m == |grid|
  {
    GridLength(nvargs, n);
    m := |nvargs| / n;
  }

  predicate TypedRow(fields: seq<ParameterField>, row: seq<Prm>)
  {
    |row| == |fields| && forall j :: 0 <= j < |row| ==> Typed(fields[j], row[j])
  }

  predicate TypedGrid(fields: seq<ParameterField>, grid: seq<seq<Prm>>)
  {
    forall i :: 0 <= i < |grid| ==> TypedRow(fields, grid[i])
  }

  /** The LOB descriptors among the arguments. */
  ghost function Descrs(grid: seq<seq<Prm>>): (ds: set<LobInDescr>)
  {
    set i, j | 0 <= i < |grid| && 0 <= j < |grid[i]| && grid[i][j].Lob? :: grid[i][j].d
  }

  ghost function RowDescrs(row: seq<Prm>): (ds: set<LobInDescr>)
  {
    set j | 0 <= j < |row| && row[j].Lob? :: row[j].d
  }

  /** The first chunks of the LOBs, as the parts of a message are sized and encoded without fetching. */
  type Buffers = map<LobInDescr, seq<byte>>

  ghost function BuffersOf(grid: seq<seq<Prm>>): (bufs: Buffers)
    reads Descrs(grid)`buf
    ensures bufs.Keys == Descrs(grid)
  {
    map d | d in Descrs(grid) :: d.buf
  }

  ghost predicate Buffered(bufs: Buffers)
    reads bufs.Keys`buf
  {
    forall d :: d in bufs ==> d.buf == bufs[d]
  }

  ghost function CellOf(f: ParameterField, v: Prm, bufs: Buffers): (c: Cell)
    requires Typed(f, v) && (v.Lob? ==> v.d in bufs)
  {
    Cell(PrmSize(f, v), if v.Lob? then Some(bufs[v.d]) else None)
  }

  ghost function CellsOf(fields: seq<ParameterField>, row: seq<Prm>, bufs: Buffers): (cells: seq<Cell>)
    requires TypedRow(fields, row) && RowDescrs(row) <= bufs.Keys
    ensures |cells| == |row| && forall j :: 0 <= j < |row| ==> cells[j] == CellOf(fields[j], row[j], bufs)
  {
    seq(|row|, j requires 0 <= j < |row| => InRow(row, j, bufs.Keys); CellOf(fields[j], row[j], bufs))
  }

  lemma InRow(row: seq<Prm>, j: nat, ds: set<LobInDescr>)
    requires j < |row| && RowDescrs(row) <= ds
    ensures row[j].Lob? ==> row[j].d in ds
  {
  }

  ghost function RowsOf(fields: seq<ParameterField>, grid: seq<seq<Prm>>, bufs: Buffers): (rows: seq<seq<Cell>>)
    requires TypedGrid(fields, grid) && Descrs(grid) <= bufs.Keys
    ensures |rows| == |grid|
    ensures forall i :: 0 <= i < |grid| ==> RowDescrs(grid[i]) <= bufs.Keys && rows[i] == CellsOf(fields, grid[i], bufs)
  {
    seq(|grid|, i requires 0 <= i < |grid| => CellsOf(fields, grid[i], bufs))
  }

  /** The cells of a row of typed arguments. */
  ghost predicate RowCells(fields: seq<ParameterField>, row: seq<Prm>, bufs: Buffers, cells: seq<Cell>)
  {
    TypedRow(fields, row) && RowDescrs(row) <= bufs.Keys && cells == CellsOf(fields, row, bufs)
  }

  function IsLobField(f: ParameterField): (b: bool)
  {
    KindOf(f.tc).LobKind? && f.input
  }

  /** The loops compute this flag anew for every row. */
  ghost predicate HasInLob(fields: seq<ParameterField>)
  {
    |fields| > 0 && (HasInLob(fields[..|fields| - 1]) || IsLobField(fields[|fields| - 1]))
  }

  /** The first chunks are written exactly if some field is an input field of a LOB type. */
  lemma {:induction false} HasInLobMeans(fields: seq<ParameterField>)
    ensures HasInLob(fields) <==> exists j :: 0 <= j < |fields| && KindOf(fields[j].tc).LobKind? && fields[j].input
  {
    if |fields| > 0 {
      HasInLobMeans(fields[..|fields| - 1]);
      assert forall j :: 0 <= j < |fields| - 1 ==> fields[..|fields| - 1][j] == fields[j];
    }
  }

  lemma ColumnStep(fields: seq<ParameterField>, cells: seq<Cell>, j: nat)
    requires j < |cells| == |fields|
    ensures Heads(cells[..j + 1]) == Heads(cells[..j]) + 1 + cells[j].size
    ensures Chunks(cells[..j + 1]) == Chunks(cells[..j]) + Chunk(cells[j])
    ensures HasInLob(fields[..j + 1]) <==> HasInLob(fields[..j]) || IsLobField(fields[j])
  {
    assert cells[..j + 1][..j] == cells[..j] && fields[..j + 1][..j] == fields[..j];
  }

  // ---------------------------------------------------------------- first pass

  type Positions = map<LobInDescr, int>

  /** The positions set for the first j LOBs of a row whose chunks start at `base`; a later one wins. */
  ghost function PlaceRow(m: Positions, row: seq<Prm>, cells: seq<Cell>, base: int, j: nat): (r: Positions)
    requires j <= |row| == |cells|
  {
    if j == 0 then m
    else
      var p := PlaceRow(m, row, cells, base, j - 1);
      if row[j - 1].Lob? then p[row[j - 1].d := base + |Chunks(cells[..j - 1])|] else p
  }

  /** The positions set for the LOBs of the first i rows. */
  ghost function Place(grid: seq<seq<Prm>>, rows: seq<seq<Cell>>, i: nat): (m: Positions)
    requires i <= |grid| == |rows| && forall k :: 0 <= k < |grid| ==> |grid[k]| == |rows[k]|
  {
    if i == 0 then map[]
    else
      var n := i - 1;
      PlaceRow(Place(grid, rows, n), grid[n], rows[n], RowsSize(rows[..n], true) + Heads(rows[n]), |grid[n]|)
  }

  ghost predicate Placed(m: Positions)
    reads m.Keys`pos
  {
    forall d :: d in m ==> d.pos == m[d]
  }

  method ColumnSize(f: ParameterField, v: Prm, ghost bufs: Buffers) returns (n: int)
    requires Typed(f, v) && (v.Lob? ==> v.d in bufs)
    ensures n == CellOf(f, v, bufs).size
  {
    n := PrmSize(f, v);
  }

  /** The sizes of one row. */
  method SizeRow(fields: seq<ParameterField>, nvargs: seq<Prm>, i: nat, size0: int,
                 ghost grid: seq<seq<Prm>>, ghost row: seq<Prm>, ghost cells: seq<Cell>, ghost bufs: Buffers)
      returns (size: int, hasInLob: bool)
    requires IsRow(row, i, grid, nvargs, |fields|)
    requires RowCells(fields, row, bufs, cells)
    ensures size == size0 + Heads(cells)
    ensures hasInLob == HasInLob(fields)
  {
    size, hasInLob := size0 + |fields|, false;
    for j := 0 to |fields|
      invariant size == size0 + |fields| - j + Heads(cells[..j])
      invariant hasInLob == HasInLob(fields[..j])
    {
      var v := ArgAt(nvargs, |fields|, i, j, grid);
      InRow(row, j, bufs.Keys);
      var n := ColumnSize(fields[j], v, bufs);
      ColumnStep(fields, cells, j);
      size := size + n;
      if IsLobField(fields[j]) {
        hasInLob := true;
      }
    }
    assert cells[..|cells|] == cells && fields[..|fields|] == fields;
  }

  /** Sets the position of one LOB. */
  method PlaceColumn(v: Prm, size0: int, ghost bufs: Buffers, ghost m: Positions, ghost next: Positions)
      returns (size: int)
    requires Buffered(bufs) && Placed(m) && (v.Lob? ==> v.d in bufs)
    requires next == if v.Lob? then m[v.d := size0] else m
    modifies (if v.Lob? then {v.d} else {})`pos
    ensures size == size0 + if v.Lob? then |bufs[v.d]| else 0
    ensures Placed(next)
  {
    size := size0;
    if v.Lob? {
      v.d.pos := size;
      size := size + |v.d.buf|;
    }
  }

  method PlaceAt(nvargs: seq<Prm>, n: nat, i: nat, j: nat, size0: int, ghost grid: seq<seq<Prm>>, ghost v: Prm,
                 ghost c: Cell,
                 ghost bufs: Buffers, ghost m: Positions, ghost next: Positions) returns (size: int)
    requires n > 0 && grid == Grid(nvargs, n) && i < |grid| && j < n && v == grid[i][j]
    requires Buffered(bufs) && Placed(m) && (v.Lob? ==>
               v.d in bufs) && c.lob == (if v.Lob? then Some(bufs[v.d]) else None)
    requires next == if v.Lob? then m[v.d := size0] else m
    modifies (if v.Lob? then {v.d} else {})`pos
    ensures size == size0 + |Chunk(c)|
    ensures Placed(next)
  {
    var w := ArgAt(nvargs, n, i, j, grid);
    size := PlaceColumn(w, size0, bufs, m, next);
  }

  lemma PlaceStep(m: Positions, row: seq<Prm>, cells: seq<Cell>, base: int, j: nat, size: int)
    requires j < |row| == |cells| && size == base + |Chunks(cells[..j])|
    ensures PlaceRow(m, row, cells, base, j + 1)
            == var p := PlaceRow(m, row, cells, base, j); if row[j].Lob? then p[row[j].d := size] else p
  {
  }

  lemma RowCell(fields: seq<ParameterField>, row: seq<Prm>, bufs: Buffers, cells: seq<Cell>, j: nat)
    requires RowCells(fields, row, bufs, cells) && j < |row|
    ensures |row| == |cells| && (row[j].Lob? ==> row[j].d in bufs && row[j].d in RowDescrs(row))
    ensures cells[j].lob == if row[j].Lob? then Some(bufs[row[j].d]) else None
  {
    InRow(row, j, bufs.Keys);
  }

  /** Sets the positions of the LOBs of one row. */
  method PlaceLobs(fields: seq<ParameterField>, nvargs: seq<Prm>, i: nat, size0: int,
                   ghost grid: seq<seq<Prm>>, ghost row: seq<Prm>, ghost cells: seq<Cell>, ghost bufs: Buffers,
                   ghost m: Positions, ghost next: Positions)
      returns (size: int)
    requires IsRow(row, i, grid, nvargs, |fields|)
    requires RowCells(fields, row, bufs, cells) && Buffered(bufs) && Placed(m)
             && next == PlaceRow(m, row, cells, size0, |row|)
    modifies RowDescrs(row)`pos
    ensures size == size0 + |Chunks(cells)| && Placed(next)
  {
    size := size0;
    for j := 0 to |fields|
      invariant Buffered(bufs)
      invariant size == size0 + |Chunks(cells[..j])|
      invariant Placed(PlaceRow(m, row, cells, size0, j))
    {
      PlaceStep(m, row, cells, size0, j, size);
      RowCell(fields, row, bufs, cells, j);
      ColumnStep(fields, cells, j);
      size := PlaceAt(nvargs, |fields|, i, j, size, grid, row[j], cells[j], bufs,
                      PlaceRow(m, row, cells, size0, j), PlaceRow(m, row, cells, size0, j + 1));
    }
    assert cells[..|cells|] == cells;
  }

  /** One row of the first pass. */
  method SizeAndPlace(fields: seq<ParameterField>, nvargs: seq<Prm>, i: nat, size0: int,
                      ghost grid: seq<seq<Prm>>, ghost row: seq<Prm>, ghost cells: seq<Cell>, ghost bufs: Buffers,
                      ghost m: Positions, ghost next: Positions)
      returns (size: int)
    requires IsRow(row, i, grid, nvargs, |fields|)
    requires RowCells(fields, row, bufs, cells) && Buffered(bufs)
    requires (HasInLob(fields) ==> Placed(m)) && next == PlaceRow(m, row, cells, size0 + Heads(cells), |row|)
    modifies RowDescrs(row)`pos
    ensures size == size0 + RowSize(cells, HasInLob(fields))
    ensures HasInLob(fields) ==> Placed(next)
  {
    var hasInLob;
    size, hasInLob := SizeRow(fields, nvargs, i, size0, grid, row, cells, bufs);
    if hasInLob {
      size := PlaceLobs(fields, nvargs, i, size, grid, row, cells, bufs, m, next);
    }
  }

  /** size(): the size of the part; as a side effect, every LOB knows its position. */
  method Size(fields: seq<ParameterField>, nvargs: seq<Prm>, ghost grid: seq<seq<Prm>>, ghost rows: seq<seq<Cell>>,
              ghost bufs: Buffers)
      returns (size: int)
    requires |fields| > 0 && grid == Grid(nvargs, |fields|) && TypedGrid(fields, grid)
    requires Descrs(grid) <= bufs.Keys && Buffered(bufs) && rows == RowsOf(fields, grid, bufs)
    modifies Descrs(grid)`pos
    ensures size == RowsSize(rows, HasInLob(fields))
    ensures HasInLob(fields) ==> Placed(Place(grid, rows, |grid|))
  {
    size := 0;
    ghost var lobs := HasInLob(fields);
    var numRow := NumRows(nvargs, |fields|, grid);
    for i := 0 to numRow
      invariant Buffered(bufs)
      invariant size == RowsSize(rows[..i], lobs)
      invariant lobs ==> Placed(Place(grid, rows, i))
    {
      size := SizeGridRow(fields, nvargs, i, size, grid, rows, bufs, lobs);
    }
    assert rows[..|rows|] == rows;
  }

  method SizeGridRow(fields: seq<ParameterField>, nvargs: seq<Prm>, i: nat, size0: int,
                     ghost grid: seq<seq<Prm>>, ghost rows: seq<seq<Cell>>, ghost bufs: Buffers, ghost lobs: bool)
      returns (size: int)
    requires |fields| > 0 && grid == Grid(nvargs, |fields|) && TypedGrid(fields, grid) && i < |grid|
    requires Descrs(grid) <= bufs.Keys && Buffered(bufs) && rows == RowsOf(fields, grid, bufs)
             && lobs == HasInLob(fields)
    requires size0 == RowsSize(rows[..i], lobs) && (lobs ==> Placed(Place(grid, rows, i)))
    modifies Descrs(grid)`pos
    ensures size == RowsSize(rows[..i + 1], lobs)
    ensures lobs ==> Placed(Place(grid, rows, i + 1))
  {
    RowFacts(fields, i, grid, rows, bufs);
    RowStep(grid, rows, lobs, i);
    size := SizeStep(fields, nvargs, i, size0, grid, rows, bufs, lobs);
  }

  method SizeStep(fields: seq<ParameterField>, nvargs: seq<Prm>, i: nat, size0: int,
                  ghost grid: seq<seq<Prm>>, ghost rows: seq<seq<Cell>>, ghost bufs: Buffers, ghost lobs: bool)
      returns (size: int)
    requires |fields| > 0 && lobs == HasInLob(fields) && grid == Grid(nvargs, |fields|)
    requires i < |grid| == |rows| && forall k :: 0 <= k < |grid| ==> |grid[k]| == |rows[k]|
    requires RowCells(fields, grid[i], bufs, rows[i]) && Buffered(bufs)
    requires size0 == RowsSize(rows[..i], lobs) && (lobs ==> Placed(Place(grid, rows, i)))
    modifies RowDescrs(grid[i])`pos
    ensures size == size0 + RowSize(rows[i], lobs)
    ensures lobs ==> Placed(Place(grid, rows, i + 1))
  {
    ghost var base := size0 + Heads(rows[i]);
    ghost var m, row, cells := Place(grid, rows, i), grid[i], rows[i];
    ghost var next := PlaceRow(m, row, cells, base, |row|);
    size := SizeAndPlace(fields, nvargs, i, size0, grid, row, cells, bufs, m, next);
    if lobs {
      PlacedStep(grid, rows, i, base, next);
    }
  }

  lemma RowFacts(fields: seq<ParameterField>, i: nat, grid: seq<seq<Prm>>, rows: seq<seq<Cell>>, bufs: Buffers)
    requires TypedGrid(fields, grid) && i < |grid| && Descrs(grid) <= bufs.Keys && rows == RowsOf(fields, grid, bufs)
    ensures RowDescrs(grid[i]) <= Descrs(grid) && RowCells(fields, grid[i], bufs, rows[i])
  {
  }

  lemma {:induction false} RowStep(grid: seq<seq<Prm>>, rows: seq<seq<Cell>>, lobs: bool, i: nat)
    requires i < |grid| == |rows| && forall k :: 0 <= k < |grid| ==> |grid[k]| == |rows[k]|
    ensures RowsSize(rows[..i + 1], lobs) == RowsSize(rows[..i], lobs) + RowSize(rows[i], lobs)
  {
    assert rows[..i + 1][..i] == rows[..i];
  }

  lemma {:induction false} PlacedStep(grid: seq<seq<Prm>>, rows: seq<seq<Cell>>, i: nat, base: int, next: Positions)
    requires i < |grid| == |rows| && forall k :: 0 <= k < |grid| ==> |grid[k]| == |rows[k]|
    requires base == RowsSize(rows[..i], true) + Heads(rows[i])
    requires next == PlaceRow(Place(grid, rows, i), grid[i], rows[i], base, |grid[i]|) && Placed(next)
    ensures Placed(Place(grid, rows, i + 1))
  {
  }

  // ---------------------------------------------------------------- second pass

  type Views = map<LobInDescr, LobView>

  ghost function ViewsOf(grid: seq<seq<Prm>>): (views: Views)
    reads Descrs(grid)
    ensures views.Keys == Descrs(grid)
  {
    map d | d in Descrs(grid) :: View(Lob(d))
  }

  ghost predicate Viewed(views: Views)
    reads views.Keys
  {
    forall d :: d in views ==> views[d] == View(Lob(d))
  }

  /** The encoding of one parameter, from which a reader gets the value. */
  ghost predicate Form(f: ParameterField, v: Prm, views: Views, s: seq<byte>)
  {
    && Typed(f, v) && (v.Lob? ==> v.d in views && views[v.d].LobView?)
    && PrmForm(f, v, if v.Lob? then views[v.d] else Absent, Some(s))
    && Encodable(f, v) && |s| == 1 + PrmSize(f, v)
    && (Sent(f, v) ==> BodyReads(f, v, if v.Lob? then views[v.d] else Absent, s[1..]))
  }

  ghost predicate RowForms(fields: seq<ParameterField>, row: seq<Prm>, views: Views, heads: seq<seq<byte>>)
    requires |fields| == |row|
  {
    |heads| == |row| && forall j :: 0 <= j < |row| ==> Form(fields[j], row[j], views, heads[j])
  }

  ghost predicate Forms(fields: seq<ParameterField>, grid: seq<seq<Prm>>, views: Views, heads: seq<seq<seq<byte>>>)
  {
    && |heads| == |grid|
    && forall i :: 0 <= i < |grid| ==> |grid[i]| == |fields| && RowForms(fields, grid[i], views, heads[i])
  }

  lemma RowFormsFit(fields: seq<ParameterField>, row: seq<Prm>, views: Views, heads: seq<seq<byte>>, bufs: Buffers)
    requires TypedRow(fields, row) && RowDescrs(row) <= bufs.Keys && RowForms(fields, row, views, heads)
    ensures RowFits(heads, CellsOf(fields, row, bufs))
  {
    forall j | 0 <= j < |row|
      ensures |heads[j]| == 1 + PrmSize(fields[j], row[j])
    {
      assert Form(fields[j], row[j], views, heads[j]);
    }
  }

  /** Every parameter of the row can be encoded. */
  ghost predicate RowEncodable(fields: seq<ParameterField>, row: seq<Prm>)
    requires TypedRow(fields, row)
  {
    forall j :: 0 <= j < |row| ==> Encodable(fields[j], row[j])
  }

  ghost predicate GridEncodable(fields: seq<ParameterField>, grid: seq<seq<Prm>>)
    requires TypedGrid(fields, grid)
  {
    forall i :: 0 <= i < |grid| ==> RowEncodable(fields, grid[i])
  }

  lemma RowFormsEncodable(fields: seq<ParameterField>, row: seq<Prm>, views: Views, heads: seq<seq<byte>>)
    requires TypedRow(fields, row) && RowForms(fields, row, views, heads)
    ensures RowEncodable(fields, row)
  {
    forall j | 0 <= j < |row|
      ensures Encodable(fields[j], row[j])
    {
      assert Form(fields[j], row[j], views, heads[j]);
    }
  }

  /** What has been encoded is encodable. */
  lemma FormsEncodable(fields: seq<ParameterField>, grid: seq<seq<Prm>>, views: Views, heads: seq<seq<seq<byte>>>)
    requires TypedGrid(fields, grid) && Forms(fields, grid, views, heads)
    ensures GridEncodable(fields, grid)
  {
    forall i | 0 <= i < |grid|
      ensures RowEncodable(fields, grid[i])
    {
      RowFormsEncodable(fields, grid[i], views, heads[i]);
    }
  }

  lemma NotEncodable(fields: seq<ParameterField>, grid: seq<seq<Prm>>, i: nat)
    requires TypedGrid(fields, grid) && i < |grid| && !RowEncodable(fields, grid[i])
    ensures !GridEncodable(fields, grid)
  {
  }

  method EncodeColumn(enc: Encoder, f: ParameterField, v: Prm, ghost views: Views)
      returns (ok: bool, ghost s: seq<byte>)
    requires Typed(f, v) && enc.b.Length >= 16 && (v.Lob? ==> v.d in views) && Viewed(views)
    modifies enc, enc.b
    ensures Viewed(views)
    ensures ok <==> Encodable(f, v)
    ensures ok ==> Form(f, v, views, s) && enc.wr == old(enc.wr) + s
  {
    ghost var r;
    ok, r := EncodePrm(enc, f, v);
    s := if ok then r.value else [];
  }

  /** The parameters of one row. */
  method EncodeHeads(enc: Encoder, fields: seq<ParameterField>, nvargs: seq<Prm>, i: nat,
                     ghost grid: seq<seq<Prm>>, ghost row: seq<Prm>, ghost views: Views)
      returns (ok: bool, hasInLob: bool, ghost heads: seq<seq<byte>>)
    requires IsRow(row, i, grid, nvargs, |fields|) && TypedRow(fields, row)
    requires enc.b.Length >= 16 && RowDescrs(row) <= views.Keys && Viewed(views)
    modifies enc, enc.b
    ensures Viewed(views)
    ensures !ok ==> !RowEncodable(fields, row)
    ensures ok ==>
              && RowForms(fields, row, views, heads) && enc.wr == old(enc.wr) + Concat(heads)
              && hasInLob == HasInLob(fields)
  {
    hasInLob, heads := false, [];
    for j := 0 to |fields|
      invariant Viewed(views)
      invariant RowForms(fields[..j], row[..j], views, heads)
      invariant enc.wr == Written(old(enc.wr), heads)
      invariant hasInLob == HasInLob(fields[..j])
    {
      var v := ArgAt(nvargs, |fields|, i, j, grid);
      InRow(row, j, views.Keys);
      ghost var s;
      ok, s := EncodeColumn(enc, fields[j], v, views);
      if !ok {
        return;
      }
      HeadStep(old(enc.wr), heads, s);
      FormsStep(fields, row, views, heads, j, s);
      heads := heads + [s];
      if IsLobField(fields[j]) {
        hasInLob := true;
      }
    }
    assert fields[..|fields|] == fields && row[..|row|] == row;
    ok := true;
  }

  function Written(w: seq<byte>, heads: seq<seq<byte>>): (r: seq<byte>)
  {
    w + Concat(heads)
  }

  lemma FormsStep(fields: seq<ParameterField>, row: seq<Prm>, views: Views, heads: seq<seq<byte>>, j: nat, s: seq<byte>)
    requires j < |fields| == |row| && RowForms(fields[..j], row[..j], views, heads) && Form(fields[j], row[j], views, s)
    ensures RowForms(fields[..j + 1], row[..j + 1], views, heads + [s])
    ensures HasInLob(fields[..j + 1]) <==> HasInLob(fields[..j]) || IsLobField(fields[j])
  {
    var fs, vs, hs := fields[..j + 1], row[..j + 1], heads + [s];
    forall k | 0 <= k < j + 1
      ensures Form(fs[k], vs[k], views, hs[k])
    {
      if k < j {
        assert Form(fields[..j][k], row[..j][k], views, heads[k]);
      }
    }
    assert fields[..j + 1][..j] == fields[..j];
  }

  lemma HeadStep(w: seq<byte>, heads: seq<seq<byte>>, s: seq<byte>)
    ensures Written(w, heads + [s]) == Written(w, heads) + s
  {
    assert (heads + [s])[..|heads|] == heads;
    Assoc(w, Concat(heads), s);
  }

  /** writeFirst. */
  method WriteColumn(enc: Encoder, v: Prm, ghost bufs: Buffers, ghost c: Cell)
    requires Buffered(bufs) && (v.Lob? ==> v.d in bufs) && c.lob == (if v.Lob? then Some(bufs[v.d]) else None)
    modifies enc
    ensures enc.wr == old(enc.wr) + Chunk(c)
  {
    if v.Lob? {
      enc.wr := enc.wr + v.d.buf;
    }
  }

  /** The first chunks of the LOBs of one row. */
  method WriteChunks(enc: Encoder, fields: seq<ParameterField>, nvargs: seq<Prm>, i: nat,
                     ghost grid: seq<seq<Prm>>, ghost row: seq<Prm>, ghost cells: seq<Cell>, ghost bufs: Buffers)
    requires IsRow(row, i, grid, nvargs, |fields|)
    requires RowCells(fields, row, bufs, cells) && Buffered(bufs)
    modifies enc
    ensures enc.wr == old(enc.wr) + Chunks(cells)
  {
    for j := 0 to |fields|
      invariant Buffered(bufs)
      invariant enc.wr == old(enc.wr) + Chunks(cells[..j])
    {
      var v := ArgAt(nvargs, |fields|, i, j, grid);
      InRow(row, j, bufs.Keys);
      ColumnStep(fields, cells, j);
      Assoc(old(enc.wr), Chunks(cells[..j]), Chunk(cells[j]));
      WriteColumn(enc, v, bufs, cells[j]);
    }
    assert cells[..|cells|] == cells;
  }

  ghost function BuffersIn(views: Views): (bufs: Buffers)
    ensures bufs.Keys == views.Keys
  {
    map d | d in views :: if views[d].LobView? then views[d].buf else []
  }

  /** One row of the second pass. */
  method EncodeRow(enc: Encoder, fields: seq<ParameterField>, nvargs: seq<Prm>, i: nat,
                   ghost grid: seq<seq<Prm>>, ghost row: seq<Prm>, ghost cells: seq<Cell>, ghost views: Views)
      returns (ok: bool, ghost heads: seq<seq<byte>>)
    requires IsRow(row, i, grid, nvargs, |fields|)
    requires enc.b.Length >= 16 && Viewed(views) && RowCells(fields, row, BuffersIn(views), cells)
    modifies enc, enc.b
    ensures Viewed(views)
    ensures !ok ==> !RowEncodable(fields, row)
    ensures ok ==>
              RowForms(fields, row, views, heads) && enc.wr == old(enc.wr) + RowBytes(heads, cells, HasInLob(fields))
  {
    var hasInLob;
    ok, hasInLob, heads := EncodeHeads(enc, fields, nvargs, i, grid, row, views);
    if ok && hasInLob {
      Assoc(old(enc.wr), Concat(heads), Chunks(cells));
      ViewsBuffered(views);
      WriteChunks(enc, fields, nvargs, i, grid, row, cells, BuffersIn(views));
    }
  }

  lemma ViewsBuffered(views: Views)
    requires Viewed(views)
    ensures Buffered(BuffersIn(views))
  {
  }

  method EncodeGridRow(enc: Encoder, fields: seq<ParameterField>, nvargs: seq<Prm>, i: nat,
                       ghost heads0: seq<seq<seq<byte>>>,
                       ghost grid: seq<seq<Prm>>, ghost rows: seq<seq<Cell>>, ghost views: Views, ghost w: seq<byte>)
      returns (ok: bool, ghost heads: seq<seq<seq<byte>>>)
    requires |fields| > 0 && grid == Grid(nvargs, |fields|) && TypedGrid(fields, grid) && i < |grid|
    requires Descrs(grid) <= views.Keys && Viewed(views) && rows == RowsOf(fields, grid, BuffersIn(views))
    requires enc.b.Length >= 16 && |heads0| == i && Forms(fields, grid[..i], views, heads0)
    requires enc.wr == PartSoFar(w, heads0, rows, i, HasInLob(fields))
    modifies enc, enc.b
    ensures Viewed(views)
    ensures !ok ==> !RowEncodable(fields, grid[i])
    ensures ok ==> |heads| == i + 1 && Forms(fields, grid[..i + 1], views, heads)
    ensures ok ==> enc.wr == PartSoFar(w, heads, rows, i + 1, HasInLob(fields))
  {
    RowFacts(fields, i, grid, rows, BuffersIn(views));
    ghost var hs;
    heads := heads0;
    ok, hs := EncodeRow(enc, fields, nvargs, i, grid, grid[i], rows[i], views);
    if ok {
      GridFormsStep(fields, grid, views, heads0, i, hs);
      PartStep(w, heads0, rows, i, hs, HasInLob(fields));
      heads := heads0 + [hs];
    }
  }

  function PartSoFar(w: seq<byte>, heads: seq<seq<seq<byte>>>, rows: seq<seq<Cell>>, i: nat, lobs: bool): (r: seq<byte>)
    requires |heads| == i <= |rows|
  {
    w + PartBytes(heads, rows[..i], lobs)
  }

  lemma GridFormsStep(fields: seq<ParameterField>, grid: seq<seq<Prm>>, views: Views, heads: seq<seq<seq<byte>>>,
                      i: nat, hs: seq<seq<byte>>)
    requires i < |grid| && |grid[i]| == |fields| && Forms(fields, grid[..i], views, heads)
             && RowForms(fields, grid[i], views, hs)
    ensures Forms(fields, grid[..i + 1], views, heads + [hs])
  {
    var g, h := grid[..i + 1], heads + [hs];
    forall k | 0 <= k < i + 1
      ensures |g[k]| == |fields| && RowForms(fields, g[k], views, h[k])
    {
      if k < i {
        assert RowForms(fields, grid[..i][k], views, heads[k]);
      }
    }
  }

  lemma PartStep(w: seq<byte>, heads: seq<seq<seq<byte>>>, rows: seq<seq<Cell>>, i: nat, hs: seq<seq<byte>>, lobs: bool)
    requires |heads| == i < |rows|
    ensures PartSoFar(w, heads + [hs], rows, i + 1, lobs)
            == PartSoFar(w, heads, rows, i, lobs) + RowBytes(hs, rows[i], lobs)
  {
    assert (heads + [hs])[..i] == heads && rows[..i + 1][..i] == rows[..i];
    Assoc(w, PartBytes(heads, rows[..i], lobs), RowBytes(hs, rows[i], lobs));
  }

  /** encode(): the bytes of every parameter, row by row, each row followed by the first chunks of its LOBs. */
  method Encode(enc: Encoder, fields: seq<ParameterField>, nvargs: seq<Prm>,
                    ghost grid: seq<seq<Prm>>, ghost rows: seq<seq<Cell>>, ghost views: Views)
      returns (ok: bool, ghost heads: seq<seq<seq<byte>>>)
    requires |fields| > 0 && grid == Grid(nvargs, |fields|) && TypedGrid(fields, grid)
    requires Descrs(grid) <= views.Keys && Viewed(views) && rows == RowsOf(fields, grid, BuffersIn(views))
    requires enc.b.Length >= 16
    modifies enc, enc.b
    ensures Viewed(views)
    ensures ok <==> GridEncodable(fields, grid)
    ensures ok ==> Forms(fields, grid, views, heads) && enc.wr == old(enc.wr) + PartBytes(heads, rows, HasInLob(fields))
  {
    heads := [];
    assert enc.wr == old(enc.wr) + [];
    var numRow := NumRows(nvargs, |fields|, grid);
    for i := 0 to numRow
      invariant Viewed(views) && |heads| == i
      invariant Forms(fields, grid[..i], views, heads)
      invariant enc.wr == PartSoFar(old(enc.wr), heads, rows, i, HasInLob(fields))
    {
      ok, heads := EncodeGridRow(enc, fields, nvargs, i, heads, grid, rows, views, old(enc.wr));
      if !ok {
        NotEncodable(fields, grid, i);
        return;
      }
    }
    assert rows[..|rows|] == rows && grid[..|rows|] == grid;
    FormsEncodable(fields, grid, views, heads);
    ok := true;
  }

  // ---------------------------------------------------------------- both passes

  /** (i, j) is the last place of the descriptor d in the first n rows. */
  ghost predicate LastAt(grid: seq<seq<Prm>>, d: LobInDescr, i: nat, j: nat, n: nat)
  {
    && i < n <= |grid| && LastBefore(grid[i], d, j, |grid[i]|)
    && (forall k :: i < k < n ==> Lob(d) !in grid[k])
  }

  /** j is the last place of d before column k of the row. */
  ghost predicate LastBefore(row: seq<Prm>, d: LobInDescr, j: nat, k: nat)
  {
    j < k <= |row| && row[j] == Lob(d) && forall l :: j < l < k ==> row[l] != Lob(d)
  }

  lemma {:induction false} RowPlaces(m: Positions, row: seq<Prm>, cells: seq<Cell>, base: int, d: LobInDescr, k: nat)
      returns (found: bool, j: nat)
    requires k <= |row| == |cells|
    ensures var p := PlaceRow(m, row, cells, base, k);
            && (found ==> LastBefore(row, d, j, k) && d in p && p[d] == base + |Chunks(cells[..j])|)
            && (!found ==> && (forall l :: 0 <= l < k ==> row[l] != Lob(d))
                           && (d in p <==> d in m) && (d in m ==> p[d] == m[d]))
  {
    found, j := false, 0;
    if k > 0 {
      if row[k - 1] == Lob(d) {
        found, j := true, k - 1;
      } else {
        found, j := RowPlaces(m, row, cells, base, d, k - 1);
      }
    }
  }

  /** Row k sets the position of a LOB to that of its last place in the row, or leaves it alone. */
  lemma {:induction false} PlacedInRow(grid: seq<seq<Prm>>, rows: seq<seq<Cell>>, d: LobInDescr, k: nat,
                                       m: Positions, next: Positions)
      returns (found: bool, j: nat)
    requires k < |grid| == |rows| && forall i :: 0 <= i < |grid| ==> |grid[i]| == |rows[i]|
    requires m == Place(grid, rows, k) && next == Place(grid, rows, k + 1)
    ensures found ==> LastAt(grid, d, k, j, k + 1) && d in next && next[d] == LobPos(rows, k, j)
    ensures !found ==> Lob(d) !in grid[k] && (d in next <==> d in m) && (d in m ==> next[d] == m[d])
  {
    var base := RowsSize(rows[..k], true) + Heads(rows[k]);
    found, j := RowPlaces(m, grid[k], rows[k], base, d, |grid[k]|);
  }

  /** The position of a LOB is that of its last place among the first n rows. */
  lemma {:induction false} PlacedLast(grid: seq<seq<Prm>>, rows: seq<seq<Cell>>, d: LobInDescr, n: nat)
      returns (found: bool, i: nat, j: nat)
    requires n <= |grid| == |rows| && forall k :: 0 <= k < |grid| ==> |grid[k]| == |rows[k]|
    ensures found ==>
              LastAt(grid, d, i, j, n) && d in Place(grid, rows, n) && Place(grid, rows, n)[d] == LobPos(rows, i, j)
    ensures !found ==> forall k :: 0 <= k < n ==> Lob(d) !in grid[k]
  {
    found, i, j := false, 0, 0;
    if n > 0 {
      var k := n - 1;
      found, j := PlacedInRow(grid, rows, d, k, Place(grid, rows, k), Place(grid, rows, n));
      i := k;
      if !found {
        found, i, j := PlacedLast(grid, rows, d, k);
      }
    }
  }

  lemma LastUnique(grid: seq<seq<Prm>>, d: LobInDescr, i: nat, j: nat, i2: nat, j2: nat)
    requires LastAt(grid, d, i, j, |grid|) && LastAt(grid, d, i2, j2, |grid|)
    ensures i == i2 && j == j2
  {
    assert Lob(d) in grid[i] && Lob(d) in grid[i2];
  }

  /** Every parameter is in the part at its offset, in the form of its type. */
  ghost predicate ParametersLaid(fields: seq<ParameterField>, grid: seq<seq<Prm>>, views: Views, part: seq<byte>,
                                 heads: seq<seq<seq<byte>>>)
    requires TypedGrid(fields, grid) && Descrs(grid) <= views.Keys
  {
    var rows := RowsOf(fields, grid, BuffersIn(views));
    && |heads| == |grid|
    && forall i, j :: 0 <= i < |grid| && 0 <= j < |fields| ==>
         && |heads[i]| == |fields|
         && Form(fields[j], grid[i][j], views, heads[i][j])
         && At(part, HeadPos(rows, HasInLob(fields), i, j), heads[i][j])
  }

  /** Every LOB finds its first chunk at its position; that is the chunk of its own last place. */
  ghost predicate LobsLaid(fields: seq<ParameterField>, grid: seq<seq<Prm>>, views: Views, part: seq<byte>)
    requires TypedGrid(fields, grid) && Descrs(grid) <= views.Keys
  {
    && (forall d :: d in Descrs(grid) ==> views[d].LobView? && At(part, views[d].pos, views[d].buf))
    && (forall d, i, j :: d in Descrs(grid) && LastAt(grid, d, i, j, |grid|) ==>
          views[d].pos == LobPos(RowsOf(fields, grid, BuffersIn(views)), i, j))
  }

  /** The positions seen are those set. */
  ghost predicate Shown(views: Views, m: Positions)
  {
    forall d :: d in m && d in views ==> views[d].LobView? && views[d].pos == m[d]
  }

  lemma FormsFit(fields: seq<ParameterField>, grid: seq<seq<Prm>>, views: Views, heads: seq<seq<seq<byte>>>,
                 bufs: Buffers)
    requires TypedGrid(fields, grid) && Descrs(grid) <= bufs.Keys && Forms(fields, grid, views, heads)
    ensures Fits(heads, RowsOf(fields, grid, bufs))
  {
    forall i | 0 <= i < |grid|
      ensures RowFits(heads[i], RowsOf(fields, grid, bufs)[i])
    {
      RowFormsFit(fields, grid[i], views, heads[i], bufs);
    }
  }

  lemma {:induction false} LayParameters(fields: seq<ParameterField>, grid: seq<seq<Prm>>, views: Views,
                                         part: seq<byte>, heads: seq<seq<seq<byte>>>, rows: seq<seq<Cell>>, lobs: bool)
    requires TypedGrid(fields, grid) && lobs == HasInLob(fields) && Descrs(grid) <= views.Keys
    requires rows == RowsOf(fields, grid, BuffersIn(views)) && Forms(fields, grid, views, heads)
    requires Fits(heads, rows) && part == PartBytes(heads, rows, lobs)
    ensures ParametersLaid(fields, grid, views, part, heads)
  {
    forall i, j | 0 <= i < |grid| && 0 <= j < |fields|
      ensures |heads[i]| == |fields|
      ensures Form(fields[j], grid[i][j], views, heads[i][j])
      ensures At(part, HeadPos(rows, lobs, i, j), heads[i][j])
    {
      PartAt(heads, rows, lobs, i, j);
      assert RowForms(fields, grid[i], views, heads[i]);
    }
  }

  lemma LayLob(fields: seq<ParameterField>, grid: seq<seq<Prm>>, views: Views, part: seq<byte>,
               heads: seq<seq<seq<byte>>>, rows: seq<seq<Cell>>, d: LobInDescr) returns (i: nat, j: nat)
    requires TypedGrid(fields, grid) && Descrs(grid) <= views.Keys
    requires rows == RowsOf(fields, grid, BuffersIn(views)) && Shown(views, Place(grid, rows, |grid|))
    requires Fits(heads, rows) && part == PartBytes(heads, rows, true) && d in Descrs(grid)
    ensures views[d].LobView? && At(part, views[d].pos, views[d].buf)
    ensures LastAt(grid, d, i, j, |grid|) && views[d].pos == LobPos(rows, i, j)
  {
    var found;
    found, i, j := PlacedLast(grid, rows, d, |grid|);
    PartAt(heads, rows, true, i, j);
    assert rows[i][j] == CellOf(fields[j], grid[i][j], BuffersIn(views));
  }

  lemma {:induction false} LayLobs(fields: seq<ParameterField>, grid: seq<seq<Prm>>, views: Views, part: seq<byte>,
                                   heads: seq<seq<seq<byte>>>, rows: seq<seq<Cell>>)
    requires TypedGrid(fields, grid) && Descrs(grid) <= views.Keys
    requires rows == RowsOf(fields, grid, BuffersIn(views)) && Shown(views, Place(grid, rows, |grid|))
    requires Fits(heads, rows) && part == PartBytes(heads, rows, true)
    ensures LobsLaid(fields, grid, views, part)
  {
    forall d | d in Descrs(grid)
      ensures views[d].LobView? && At(part, views[d].pos, views[d].buf)
    {
      var _, _ := LayLob(fields, grid, views, part, heads, rows, d);
    }
    forall d, i, j | d in Descrs(grid) && LastAt(grid, d, i, j, |grid|)
      ensures views[d].pos == LobPos(rows, i, j)
    {
      var i2, j2 := LayLob(fields, grid, views, part, heads, rows, d);
      LastUnique(grid, d, i, j, i2, j2);
    }
  }

  /** The layout of the part, once both passes have met the same rows. */
  lemma {:induction false} Layout(fields: seq<ParameterField>, grid: seq<seq<Prm>>, views: Views, part: seq<byte>,
                                  heads: seq<seq<seq<byte>>>, rows: seq<seq<Cell>>, lobs: bool)
    requires TypedGrid(fields, grid) && lobs == HasInLob(fields) && Descrs(grid) <= views.Keys
    requires rows == RowsOf(fields, grid, BuffersIn(views)) && Forms(fields, grid, views, heads)
    requires part == PartBytes(heads, rows, lobs) && (lobs ==> Shown(views, Place(grid, rows, |grid|)))
    ensures |part| == RowsSize(rows, lobs)
    ensures ParametersLaid(fields, grid, views, part, heads)
    ensures lobs ==> LobsLaid(fields, grid, views, part)
  {
    FormsFit(fields, grid, views, heads, BuffersIn(views));
    PartSize(heads, rows, lobs);
    LayParameters(fields, grid, views, part, heads, rows, lobs);
    if lobs {
      LayLobs(fields, grid, views, part, heads, rows);
    }
  }

  lemma ShownWhenPlaced(views: Views, m: Positions)
    requires Viewed(views) && Placed(m)
    ensures Shown(views, m)
  {
  }

  lemma SameBuffers(grid: seq<seq<Prm>>, bufs: Buffers, views: Views)
    requires bufs.Keys == Descrs(grid) && Buffered(bufs) && views == ViewsOf(grid)
    ensures Viewed(views) && BuffersIn(views) == bufs
  {
  }

  lemma SameRows(fields: seq<ParameterField>, grid: seq<seq<Prm>>, bufs: Buffers, same: Buffers)
    requires TypedGrid(fields, grid) && Descrs(grid) <= bufs.Keys && same == bufs
    ensures RowsOf(fields, grid, same) == RowsOf(fields, grid, bufs)
  {
  }

  lemma {:induction false} SizedRow(fields: seq<ParameterField>, row: seq<Prm>, bufs: Buffers, k: nat)
    requires TypedRow(fields, row) && RowDescrs(row) <= bufs.Keys && k <= |row|
    ensures Sized(CellsOf(fields, row, bufs)[..k])
  {
    if k > 0 {
      SizedRow(fields, row, bufs, k - 1);
      var cells := CellsOf(fields, row, bufs);
      assert cells[..k][..k - 1] == cells[..k - 1];
      assert cells[..k][k - 1] == CellOf(fields[k - 1], row[k - 1], bufs);
    }
  }

  lemma {:induction false} SizedRows(fields: seq<ParameterField>, grid: seq<seq<Prm>>, bufs: Buffers, k: nat)
    requires TypedGrid(fields, grid) && Descrs(grid) <= bufs.Keys && k <= |grid|
    ensures AllSized(RowsOf(fields, grid, bufs)[..k])
  {
    if k > 0 {
      SizedRows(fields, grid, bufs, k - 1);
      var rows := RowsOf(fields, grid, bufs);
      assert rows[..k][..k - 1] == rows[..k - 1];
      SizedRow(fields, grid[k - 1], bufs, |grid[k - 1]|);
      assert rows[k - 1][..|grid[k - 1]|] == rows[k - 1];
    }
  }

  /** The first pass, with the view of the descriptors it leaves. */
  method SizeAndView(fields: seq<ParameterField>, nvargs: seq<Prm>, ghost grid: seq<seq<Prm>>)
      returns (size: int, ghost rows: seq<seq<Cell>>, ghost views: Views)
    requires |fields| > 0 && grid == Grid(nvargs, |fields|) && TypedGrid(fields, grid)
    modifies Descrs(grid)`pos
    ensures views.Keys == Descrs(grid) && Viewed(views) && rows == RowsOf(fields, grid, BuffersIn(views))
    ensures size == RowsSize(rows, HasInLob(fields)) >= 0
    ensures HasInLob(fields) ==> Shown(views, Place(grid, rows, |grid|))
  {
    ghost var bufs := BuffersOf(grid);
    rows := RowsOf(fields, grid, bufs);
    size := Size(fields, nvargs, grid, rows, bufs);
    views := ViewsOf(grid);
    SameBuffers(grid, bufs, views);
    SameRows(fields, grid, bufs, BuffersIn(views));
    SizedRows(fields, grid, bufs, |grid|);
    assert rows[..|grid|] == rows;
    NonNegativeSize(rows, HasInLob(fields));
    if HasInLob(fields) {
      ShownWhenPlaced(views, Place(grid, rows, |grid|));
    }
  }

  /**
    Both passes, as the writer of a message calls them: encode() writes as many bytes as size()
    announced, every parameter shows its type code and value at its offset, and every LOB the position
    of its first chunk, whether or not a descriptor occurs twice.
   */
  method WritePart(enc: Encoder, fields: seq<ParameterField>, nvargs: seq<Prm>)
      returns (size: int, ok: bool, ghost part: seq<byte>, ghost heads: seq<seq<seq<byte>>>, ghost views: Views)
    requires |fields| > 0 ==> TypedGrid(fields, Grid(nvargs, |fields|))
    requires enc.b.Length >= 16
    modifies enc, enc.b, (if |fields| > 0 then Descrs(Grid(nvargs, |fields|)) else {})`pos
    ensures size >= 0
    ensures ok <==> |fields| == 0 || GridEncodable(fields, Grid(nvargs, |fields|))
    ensures ok ==> enc.wr == old(enc.wr) + part && |part| == size
    ensures Viewed(views)
    ensures ok && |fields| > 0 ==>
              var grid := Grid(nvargs, |fields|);
              && views.Keys == Descrs(grid)
              && ParametersLaid(fields, grid, views, part, heads)
              && (HasInLob(fields) ==> LobsLaid(fields, grid, views, part))
  {
    part, heads, views := [], [], map[];
    if |fields| == 0 { // both passes return at once
      return 0, true, part, heads, views;
    }
    ghost var grid := Grid(nvargs, |fields|);
    ghost var rows;
    size, rows, views := SizeAndView(fields, nvargs, grid);
    ok, heads := Encode(enc, fields, nvargs, grid, rows, views);
    if ok {
      part := PartBytes(heads, rows, HasInLob(fields));
      Layout(fields, grid, views, part, heads, rows, HasInLob(fields));
    }
  }
}
