/** The playing field: a 10 x 20 grid of cells, the fit test, locking a
    piece into the grid, and clearing full rows. Row 0 is the top row,
    row H - 1 the bottom one; a grid is indexed g[row][column]. */
module Board {
  import opened Shapes

  /** BOARD_W and BOARD_H. */
  const W: int := 10
  const H: int := 20

  /** EMPTY and FILLED. */
  datatype Cell = Empty | Filled

  type Row = r: seq<Cell> | |r| == W witness seq(10, _ => Empty)
  type Grid = g: seq<Row> | |g| == H witness seq(20, _ => seq(10, _ => Empty))

  const EmptyRow: Row := [Empty, Empty, Empty, Empty, Empty, Empty, Empty, Empty, Empty, Empty]
  const EmptyGrid: Grid := Blanks(H)

  /** A piece: the board position of the top-left corner of its 4 x 4 box,
      its shape and its rotation. */
  datatype Piece = Piece(x: int, y: int, shape: ShapeId, rot: RotId)

  predicate InBounds(x: int, y: int) { 0 <= x < W && 0 <= y < H }

  /** Board cell (x, y) lies under an occupied cell of the piece's box. */
  predicate Covers(p: Piece, x: int, y: int)
  {
    Occupied(p.shape, p.rot, x - p.x, y - p.y)
  }

  /** The placement is legal: every occupied cell of the piece maps to a
      board cell with 0 <= x < W and 0 <= y < H that is empty. A cell above
      the top row (y < 0) makes the placement illegal. */
  predicate Fits(g: Grid, p: Piece)
  {
    forall rx, ry | 0 <= rx < Size && 0 <= ry < Size && Occupied(p.shape, p.rot, rx, ry) ::
      InBounds(p.x + rx, p.y + ry) && g[p.y + ry][p.x + rx] == Empty
  }

  /** Cell (rx, ry) of bitmap b, with its box corner at (px, py), is either
      unoccupied or maps to an empty board cell. */
  predicate CellFits(g: Grid, b: Bitmap, px: int, py: int, rx: int, ry: int)
  {
    BitOccupied(b, rx, ry) ==> InBounds(px + rx, py + ry) && g[py + ry][px + rx] == Empty
  }

  /** The fit test cell by cell over the piece's box. */
  lemma FitsByCells(g: Grid, p: Piece)
    ensures Fits(g, p) <==> forall rx, ry | 0 <= rx < Size && 0 <= ry < Size ::
      CellFits(g, Tetromino[p.shape][p.rot], p.x, p.y, rx, ry)
  {
    var b := Tetromino[p.shape][p.rot];
    if Fits(g, p) {
      forall rx, ry | 0 <= rx < Size && 0 <= ry < Size ensures CellFits(g, b, p.x, p.y, rx, ry) {
        if BitOccupied(b, rx, ry) {
          assert Occupied(p.shape, p.rot, rx, ry);
        }
      }
    } else {
      var rx, ry :| 0 <= rx < Size && 0 <= ry < Size && Occupied(p.shape, p.rot, rx, ry) &&
        !(InBounds(p.x + rx, p.y + ry) && g[p.y + ry][p.x + rx] == Empty);
      assert !CellFits(g, b, p.x, p.y, rx, ry);
    }
  }

  /** The grid after locking p: every board cell under an occupied cell of
      the piece is filled, every other cell is as before. */
  function Locked(g: Grid, p: Piece): Grid
  {
    Stamp(g, Tetromino[p.shape][p.rot], p.x, p.y)
  }

  /** The grid with every board cell under an occupied cell of bitmap b,
      placed with its box corner at (px, py), filled. */
  function Stamp(g: Grid, b: Bitmap, px: int, py: int): Grid
  {
    seq(H, y requires 0 <= y < H =>
      seq(W, x requires 0 <= x < W => if BitOccupied(b, x - px, y - py) then Filled else g[y][x]))
  }

  // ----- counting filled cells -----

  function RowCount(r: seq<Cell>): nat
  {
    if r == [] then 0 else (if r[0] == Filled then 1 else 0) + RowCount(r[1..])
  }

  /** Number of filled cells in a stack of rows. */
  function FilledCount(rows: seq<Row>): nat
  {
    if rows == [] then 0 else RowCount(rows[0]) + FilledCount(rows[1..])
  }

  lemma {:induction false} FilledCountAppend(a: seq<Row>, b: seq<Row>)
    ensures FilledCount(a + b) == FilledCount(a) + FilledCount(b)
  {
    if a != [] {
      assert (a + b)[0] == a[0];
      assert (a + b)[1..] == a[1..] + b;
      FilledCountAppend(a[1..], b);
    } else {
      assert a + b == b;
    }
  }

  lemma {:induction false} RowCountAllFilled(r: seq<Cell>)
    requires forall x | 0 <= x < |r| :: r[x] == Filled
    ensures RowCount(r) == |r|
  {
    if r != [] {
      RowCountAllFilled(r[1..]);
    }
  }

  lemma {:induction false} RowCountNoneFilled(r: seq<Cell>)
    requires forall x | 0 <= x < |r| :: r[x] == Empty
    ensures RowCount(r) == 0
  {
    if r != [] {
      RowCountNoneFilled(r[1..]);
    }
  }

  /** Filling one empty cell of a row adds one to its count. */
  lemma {:induction false} RowCountFillOne(r: seq<Cell>, x: int)
    requires 0 <= x < |r| && r[x] == Empty
    ensures RowCount(r[x := Filled]) == RowCount(r) + 1
  {
    if x > 0 {
      assert r[x := Filled][1..] == r[1..][x - 1 := Filled];
      RowCountFillOne(r[1..], x - 1);
    }
  }

  /** Replacing one row changes the count by the difference of the rows' counts. */
  lemma {:induction false} FilledCountReplaceRow(rows: seq<Row>, y: int, r: Row)
    requires 0 <= y < |rows|
    ensures FilledCount(rows[y := r]) + RowCount(rows[y]) == FilledCount(rows) + RowCount(r)
  {
    if y > 0 {
      assert rows[y := r][1..] == rows[1..][y - 1 := r];
      FilledCountReplaceRow(rows[1..], y - 1, r);
    }
  }

  // ----- locking, position by position, as the source's loop does -----

  /** The grid after the lock loop has visited scan positions i..15 of
      bitmap b placed with its box corner at (px, py). */
  function PaintFrom(g: Grid, b: Bitmap, px: int, py: int, i: nat): Grid
    requires i <= 16
    decreases 16 - i
  {
    if i == 16 then g else PaintFrom(PaintCell(g, b, px, py, i), b, px, py, i + 1)
  }

  /** The lock loop's visit of scan position i: column i % 4 of row i / 4
      of the box; the cell is filled when occupied and on the board. */
  function PaintCell(g: Grid, b: Bitmap, px: int, py: int, i: nat): Grid
    requires i < 16
  {
    var x, y := px + i % 4, py + i / 4;
    if b[i] != 0 && InBounds(x, y) then g[y := g[y][x := Filled]] else g
  }

  lemma {:induction false} PaintFromAt(g: Grid, b: Bitmap, px: int, py: int, i: nat, x: int, y: int)
    requires i <= 16 && InBounds(x, y)
    ensures PaintFrom(g, b, px, py, i)[y][x] ==
      if BitOccupied(b, x - px, y - py) && 4 * (y - py) + (x - px) >= i then Filled else g[y][x]
    decreases 16 - i
  {
    if i < 16 {
      var cx, cy := px + i % 4, py + i / 4;
      PaintFromAt(PaintCell(g, b, px, py, i), b, px, py, i + 1, x, y);
      if x == cx && y == cy {
        assert 4 * (y - py) + (x - px) == i;
      } else if 0 <= x - px < 4 && 0 <= y - py < 4 {
        assert 4 * (y - py) + (x - px) != i;
      }
    }
  }

  /** The full scan paints exactly the stamped cells. */
  lemma PaintIsStamp(g: Grid, b: Bitmap, px: int, py: int)
    ensures PaintFrom(g, b, px, py, 0) == Stamp(g, b, px, py)
  {
    forall y, x | 0 <= y < H && 0 <= x < W
      ensures PaintFrom(g, b, px, py, 0)[y][x] == Stamp(g, b, px, py)[y][x]
    {
      PaintFromAt(g, b, px, py, 0, x, y);
    }
    forall y | 0 <= y < H ensures PaintFrom(g, b, px, py, 0)[y] == Stamp(g, b, px, py)[y] { }
  }

  /** Painting cells that are all on the board and empty adds one filled cell each. */
  lemma {:induction false} PaintFromCount(g: Grid, b: Bitmap, px: int, py: int, i: nat)
    requires i <= 16
    requires forall j | i <= j < 16 && b[j] != 0 ::
      InBounds(px + j % 4, py + j / 4) && g[py + j / 4][px + j % 4] == Empty
    ensures FilledCount(PaintFrom(g, b, px, py, i)) == FilledCount(g) + OccupiedFrom(b, i)
    decreases 16 - i
  {
    if i < 16 {
      var x, y := px + i % 4, py + i / 4;
      if b[i] != 0 {
        var g' := g[y := g[y][x := Filled]];
        RowCountFillOne(g[y], x);
        FilledCountReplaceRow(g, y, g[y][x := Filled]);
        forall j | i + 1 <= j < 16 && b[j] != 0
          ensures InBounds(px + j % 4, py + j / 4) && g'[py + j / 4][px + j % 4] == Empty
        {
          assert (j % 4, j / 4) != (i % 4, i / 4);
        }
        assert PaintCell(g, b, px, py, i) == g';
        PaintFromCount(g', b, px, py, i + 1);
      } else {
        PaintFromCount(g, b, px, py, i + 1);
      }
    }
  }

  /** Locking a piece that fits adds exactly four filled cells. */
  lemma LockAddsFour(g: Grid, p: Piece)
    requires Fits(g, p)
    ensures FilledCount(Locked(g, p)) == FilledCount(g) + 4
  {
    var b := Tetromino[p.shape][p.rot];
    forall j | 0 <= j < 16 && b[j] != 0
      ensures InBounds(p.x + j % 4, p.y + j / 4) && g[p.y + j / 4][p.x + j % 4] == Empty
    {
      assert 4 * (j / 4) + j % 4 == j;
      assert Occupied(p.shape, p.rot, j % 4, j / 4);
    }
    PaintFromCount(g, b, p.x, p.y, 0);
    PaintIsStamp(g, b, p.x, p.y);
    ScanCountsCells(b);
    FourCells(p.shape, p.rot);
  }

  /** Locking fills exactly the board cells under the piece and leaves every
      other cell as it was; cells of the box off the board are dropped. */
  lemma LockExact(g: Grid, p: Piece, x: int, y: int)
    requires InBounds(x, y)
    ensures Locked(g, p)[y][x] == if Covers(p, x, y) then Filled else g[y][x]
    ensures Locked(g, p)[y][x] != g[y][x] <==> Covers(p, x, y) && g[y][x] == Empty
  {
  }

  /** Locking the same piece twice gives the grid of locking it once. */
  lemma LockIdempotent(g: Grid, p: Piece)
    ensures Locked(Locked(g, p), p) == Locked(g, p)
  {
    forall y | 0 <= y < H ensures Locked(Locked(g, p), p)[y] == Locked(g, p)[y] { }
  }

  /** After locking, the piece's own cells are taken: it no longer fits there. */
  lemma LockedPieceBlocks(g: Grid, p: Piece)
    requires Fits(g, p)
    ensures !Fits(Locked(g, p), p)
  {
    var rx, ry := HasCell(p.shape, p.rot);
    assert Covers(p, p.x + rx, p.y + ry);
  }

  // ----- full rows and line clearing -----

  /** Every cell of the row is filled. */
  predicate IsFull(r: Row)
  {
    forall x | 0 <= x < W :: r[x] == Filled
  }

  predicate NoFullRow(g: Grid)
  {
    forall y | 0 <= y < H :: !IsFull(g[y])
  }

  /** Number of full rows in a stack of rows. */
  function FullCount(rows: seq<Row>): nat
  {
    if rows == [] then 0 else (if IsFull(rows[0]) then 1 else 0) + FullCount(rows[1..])
  }

  /** The rows that are not full, top to bottom, in their original order. */
  function KeepRows(rows: seq<Row>): (r: seq<Row>)
    ensures |r| + FullCount(rows) == |rows|
    ensures forall i | 0 <= i < |r| :: !IsFull(r[i])
  {
    if rows == [] then []
    else (if IsFull(rows[0]) then [] else [rows[0]]) + KeepRows(rows[1..])
  }

  function Blanks(n: nat): seq<Row>
  {
    seq(n, _ => EmptyRow)
  }

  /** The grid once every full row is gone: the surviving rows keep their
      order and sit at the bottom, and one empty row per removed row fills
      the top. */
  function AfterClear(g: Grid): (r: Grid)
    ensures NoFullRow(r)
  {
    var kept := KeepRows(g);
    var stack := Blanks(FullCount(g)) + kept;
    assert forall y | 0 <= y < FullCount(g) :: stack[y][0] == Empty;
    assert forall y | FullCount(g) <= y < H :: stack[y] == kept[y - FullCount(g)];
    stack
  }

  /** One step of the shift: row y disappears, rows 0..y-1 move down one
      and an empty row enters at the top. */
  function RemoveRow(g: Grid, y: int): Grid
    requires 0 <= y < H
  {
    [EmptyRow] + g[..y] + g[y + 1..]
  }

  /** Row by row: the new empty row on top, the rows above y one lower,
      the rows below y where they were. */
  lemma RemoveRowAt(g: Grid, y: int, i: int)
    requires 0 <= y < H && 0 <= i < H
    ensures RemoveRow(g, y)[i] == if i == 0 then EmptyRow else if i <= y then g[i - 1] else g[i]
  {
  }

  lemma {:induction false} FullCountAppend(a: seq<Row>, b: seq<Row>)
    ensures FullCount(a + b) == FullCount(a) + FullCount(b)
  {
    if a != [] {
      assert (a + b)[0] == a[0];
      assert (a + b)[1..] == a[1..] + b;
      FullCountAppend(a[1..], b);
    } else {
      assert a + b == b;
    }
  }

  lemma {:induction false} KeepRowsAppend(a: seq<Row>, b: seq<Row>)
    ensures KeepRows(a + b) == KeepRows(a) + KeepRows(b)
  {
    if a != [] {
      assert (a + b)[0] == a[0];
      assert (a + b)[1..] == a[1..] + b;
      KeepRowsAppend(a[1..], b);
    } else {
      assert a + b == b;
    }
  }

  lemma EmptyRowNotFull()
    ensures !IsFull(EmptyRow) && RowCount(EmptyRow) == 0
  {
    assert EmptyRow[0] == Empty;
    RowCountNoneFilled(EmptyRow);
  }

  /** The three-part views of a grid around row y, before and after the shift. */
  lemma RemoveRowSplit(g: Grid, y: int)
    requires 0 <= y < H
    ensures g == g[..y] + [g[y]] + g[y + 1..]
    ensures RemoveRow(g, y) == [EmptyRow] + (g[..y] + g[y + 1..])
  {
  }

  lemma ThreeParts(a: seq<Row>, m: Row, b: seq<Row>)
    ensures KeepRows(a + [m] + b) == KeepRows(a) + KeepRows([m]) + KeepRows(b)
    ensures FullCount(a + [m] + b) == FullCount(a) + FullCount([m]) + FullCount(b)
    ensures FilledCount(a + [m] + b) == FilledCount(a) + FilledCount([m]) + FilledCount(b)
  {
    KeepRowsAppend(a + [m], b);
    KeepRowsAppend(a, [m]);
    FullCountAppend(a + [m], b);
    FullCountAppend(a, [m]);
    FilledCountAppend(a + [m], b);
    FilledCountAppend(a, [m]);
  }

  lemma OneRow(m: Row)
    ensures KeepRows([m]) == if IsFull(m) then [] else [m]
    ensures FullCount([m]) == if IsFull(m) then 1 else 0
    ensures FilledCount([m]) == RowCount(m)
  {
    assert [m][1..] == [];
  }

  lemma ShiftFull(above: seq<Row>, m: Row, below: seq<Row>)
    requires IsFull(m)
    ensures FullCount([EmptyRow] + (above + below)) + 1 == FullCount(above + [m] + below)
  {
    EmptyRowNotFull();
    OneRow(m);
    OneRow(EmptyRow);
    FullCountAppend(above + [m], below);
    FullCountAppend(above, [m]);
    FullCountAppend([EmptyRow], above + below);
    FullCountAppend(above, below);
  }

  lemma ShiftFilled(above: seq<Row>, m: Row, below: seq<Row>)
    requires IsFull(m)
    ensures FilledCount([EmptyRow] + (above + below)) + W == FilledCount(above + [m] + below)
  {
    EmptyRowNotFull();
    RowCountAllFilled(m);
    OneRow(m);
    OneRow(EmptyRow);
    FilledCountAppend(above + [m], below);
    FilledCountAppend(above, [m]);
    FilledCountAppend([EmptyRow], above + below);
    FilledCountAppend(above, below);
  }

  lemma ShiftKeep(above: seq<Row>, m: Row, below: seq<Row>)
    requires IsFull(m)
    ensures KeepRows([EmptyRow] + (above + below)) == [EmptyRow] + KeepRows(above + [m] + below)
  {
    EmptyRowNotFull();
    OneRow(m);
    OneRow(EmptyRow);
    KeepRowsAppend(above + [m], below);
    KeepRowsAppend(above, [m]);
    KeepRowsAppend([EmptyRow], above + below);
    KeepRowsAppend(above, below);
    assert KeepRows(above) + [] == KeepRows(above);
  }

  /** Removing a full row takes one full row and W filled cells off the
      grid, and keeps the rows that are not full, below one new empty row. */
  lemma RemoveRowCounts(g: Grid, y: int)
    requires 0 <= y < H && IsFull(g[y])
    ensures FullCount(RemoveRow(g, y)) + 1 == FullCount(g)
    ensures FilledCount(RemoveRow(g, y)) + W == FilledCount(g)
    ensures KeepRows(RemoveRow(g, y)) == [EmptyRow] + KeepRows(g)
  {
    RemoveRowSplit(g, y);
    ShiftFull(g[..y], g[y], g[y + 1..]);
    ShiftFilled(g[..y], g[y], g[y + 1..]);
    ShiftKeep(g[..y], g[y], g[y + 1..]);
  }

  /** So removing a full row leaves the final result of clearing unchanged. */
  lemma RemoveRowStep(g: Grid, y: int)
    requires 0 <= y < H && IsFull(g[y])
    ensures AfterClear(RemoveRow(g, y)) == AfterClear(g)
    ensures FullCount(RemoveRow(g, y)) + 1 == FullCount(g)
    ensures FilledCount(RemoveRow(g, y)) + W == FilledCount(g)
  {
    var g' := RemoveRow(g, y);
    RemoveRowCounts(g, y);
    var n := FullCount(g');
    assert Blanks(n + 1) == Blanks(n) + [EmptyRow];
    assert AfterClear(g') == Blanks(n) + ([EmptyRow] + KeepRows(g));
  }

  lemma {:induction false} NoFullKeepsAll(rows: seq<Row>)
    requires forall i | 0 <= i < |rows| :: !IsFull(rows[i])
    ensures KeepRows(rows) == rows && FullCount(rows) == 0
  {
    if rows != [] {
      NoFullKeepsAll(rows[1..]);
    }
  }

  /** A grid without a full row is left as it is by clearing. */
  lemma ClearFixesClearGrid(g: Grid)
    requires NoFullRow(g)
    ensures AfterClear(g) == g
  {
    NoFullKeepsAll(g);
  }

  /** Clearing twice is clearing once. */
  lemma ClearIdempotent(g: Grid)
    ensures AfterClear(AfterClear(g)) == AfterClear(g)
  {
    ClearFixesClearGrid(AfterClear(g));
  }

  lemma {:induction false} KeepRowsCount(rows: seq<Row>)
    ensures FilledCount(KeepRows(rows)) + W * FullCount(rows) == FilledCount(rows)
  {
    if rows != [] {
      KeepRowsCount(rows[1..]);
      var head := if IsFull(rows[0]) then [] else [rows[0]];
      FilledCountAppend(head, KeepRows(rows[1..]));
      if IsFull(rows[0]) {
        RowCountAllFilled(rows[0]);
      }
    }
  }

  lemma {:induction false} BlanksCount(n: nat)
    ensures FilledCount(Blanks(n)) == 0
  {
    if n > 0 {
      EmptyRowNotFull();
      assert Blanks(n)[1..] == Blanks(n - 1);
      BlanksCount(n - 1);
    }
  }

  /** Each removed row takes exactly W filled cells off the board. */
  lemma ClearCount(g: Grid)
    ensures FilledCount(AfterClear(g)) + W * FullCount(g) == FilledCount(g)
  {
    KeepRowsCount(g);
    BlanksCount(FullCount(g));
    FilledCountAppend(Blanks(FullCount(g)), KeepRows(g));
  }

  /** If every full row has its index in [a, b), there are at most b - a of them. */
  lemma {:induction false} FullRowsWithin(rows: seq<Row>, a: int, b: int)
    requires 0 <= a <= b
    requires forall i | 0 <= i < |rows| && IsFull(rows[i]) :: a <= i < b
    ensures FullCount(rows) <= b - a
  {
    if rows != [] {
      var a', b' := if a > 0 then a - 1 else 0, if b > 0 then b - 1 else 0;
      forall i | 0 <= i < |rows| - 1 && IsFull(rows[1..][i]) ensures a' <= i < b' {
        assert rows[1..][i] == rows[i + 1];
      }
      FullRowsWithin(rows[1..], a', b');
    }
  }

  /** Locking a piece that fits into a grid with no full row produces at
      most four full rows: each of them must hold one of the piece's cells,
      and the piece spans four rows. */
  lemma AtMostFourFull(g: Grid, p: Piece)
    requires NoFullRow(g) && Fits(g, p)
    ensures FullCount(Locked(g, p)) <= 4
  {
    var l := Locked(g, p);
    var a := if p.y < 0 then 0 else p.y;
    forall y | 0 <= y < H && IsFull(l[y]) ensures a <= y < a + 4 {
      var x :| 0 <= x < W && g[y][x] == Empty;
      assert l[y][x] == Filled;
      assert Covers(p, x, y);
    }
    FullRowsWithin(l, a, a + 4);
  }

  // ----- falling -----

  /** The piece one row lower. */
  function Down(p: Piece): Piece
  {
    p.(y := p.y + 1)
  }

  /** A piece that fits has an occupied cell on the board, so its box
      starts above the floor. */
  lemma FitsAboveFloor(g: Grid, p: Piece)
    requires Fits(g, p)
    ensures p.y < H
  {
    var rx, ry := HasCell(p.shape, p.rot);
    assert InBounds(p.x + rx, p.y + ry);
  }

  /** Where a piece comes to rest when dropped straight down: the first
      position, going down from p, whose next step does not fit. Every
      position passed on the way fits, and so does the last one when p did. */
  function Landed(g: Grid, p: Piece): (q: Piece)
    ensures q.x == p.x && q.shape == p.shape && q.rot == p.rot && p.y <= q.y
    ensures !Fits(g, Down(q))
    ensures Fits(g, p) ==> Fits(g, q)
    ensures forall k | p.y < k <= q.y :: Fits(g, Piece(p.x, k, p.shape, p.rot))
    decreases H - p.y
  {
    if Fits(g, Down(p)) then
      FitsAboveFloor(g, Down(p));
      Landed(g, Down(p))
    else p
  }

  // ----- spawning -----

  /** The spawn placement: box column (W / 2) - (Size / 2) = 3, one row
      above the board, rotation 0. */
  function SpawnAt(shape: ShapeId): (p: Piece)
    ensures p.x == 3 && p.y == -1 && p.shape == shape && p.rot == 0
  {
    Piece(W / 2 - Size / 2, -1, shape, 0)
  }

  /** Only the I piece can fit at the spawn placement, and it fits exactly
      when columns 3 to 6 of the top row are empty: every other shape has a
      cell in row 0 of its box, which lands above the board. */
  lemma SpawnFits(g: Grid, shape: ShapeId)
    ensures Fits(g, SpawnAt(shape)) <==>
      shape == 0 && forall x | 3 <= x <= 6 :: g[0][x] == Empty
  {
    var p := SpawnAt(shape);
    if shape != 0 {
      var rx := TopRowOccupied(shape);
      assert !InBounds(p.x + rx, p.y);
    } else {
      if Fits(g, p) {
        forall x | 3 <= x <= 6 ensures g[0][x] == Empty {
          FlatI(x - 3, 1);
        }
      } else {
        var rx, ry :| 0 <= rx < Size && 0 <= ry < Size && Occupied(0, 0, rx, ry) &&
          !(InBounds(p.x + rx, p.y + ry) && g[p.y + ry][p.x + rx] == Empty);
        FlatI(rx, ry);
      }
    }
  }
}
