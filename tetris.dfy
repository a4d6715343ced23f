/** The engine as the program runs it: the board is a 20 x 10 array written
    in place, and the piece and the counters are fields updated by each
    action. Every method is proved to compute the transition of the same
    name in module Rules. */
module Tetris {
  import opened Shapes
  import opened Board
  import opened Scoring
  import Rules

  class Game {
    /** `board[BOARD_H][BOARD_W]`, indexed [row, column]. */
    const board: array2<Cell>
    /** The contents of `board` as a value. */
    ghost var cells: Grid
    var current: Piece
    var nextPiece: ShapeId
    var score: int
    var level: int
    var linesCleared: int
    /** A spawn has failed; the program exits at that point. */
    var over: bool

    /** The array has the board's dimensions and holds `cells`. */
    ghost predicate Wf()
      reads this`cells, board
    {
      board.Length0 == H && board.Length1 == W &&
      forall y, x | 0 <= y < H && 0 <= x < W :: board[y, x] == cells[y][x]
    }

    /** The whole game state as a value. */
    ghost function Snapshot(): Rules.Session
      reads this
    {
      Rules.Session(cells, current, nextPiece, Stats(score, level, linesCleared), over)
    }

    ghost predicate Valid()
      reads this, board
    {
      Wf() && Rules.Inv(Snapshot())
    }

    /** `init_game`: clear the board, draw the next shape, spawn, reset
        the counters. `first` and `second` are the two shapes drawn. */
    constructor (first: ShapeId, second: ShapeId)
      ensures Valid() && fresh(board)
      ensures Snapshot() == Rules.Init(first, second)
    {
      board := new Cell[H, W]((y, x) => Empty);
      cells := EmptyGrid;
      current := Piece(0, 0, 0, 0);
      nextPiece := first;
      score, level, linesCleared := 0, 1, 0;
      over := false;
      new;
      SpawnPiece(second);
      score, level, linesCleared := 0, 1, 0;
      Rules.InitInv(first, second);
    }

    /** `fits`: scans the box row by row and stops at the first occupied
        cell that is off the board or on a filled cell. */
    method Fits(p: Piece) returns (ok: bool)
      requires Wf()
      ensures ok == Board.Fits(cells, p)
    {
      ok := FitsBitmap(Tetromino[p.shape][p.rot], p.x, p.y);
      FitsByCells(cells, p);
    }

    /** The scan of `fits` over one bitmap placed with its box corner at (px, py). */
    method FitsBitmap(b: Bitmap, px: int, py: int) returns (ok: bool)
      requires Wf()
      ensures ok == forall rx, ry | 0 <= rx < Size && 0 <= ry < Size :: CellFits(cells, b, px, py, rx, ry)
    {
      var ry := 0;
      while ry < Size
        invariant 0 <= ry <= Size
        invariant forall rx', ry' | 0 <= rx' < Size && 0 <= ry' < ry :: CellFits(cells, b, px, py, rx', ry')
      {
        var rx := 0;
        while rx < Size
          invariant 0 <= rx <= Size
          invariant forall rx', ry' | 0 <= rx' < Size && 0 <= ry' < ry :: CellFits(cells, b, px, py, rx', ry')
          invariant forall rx' | 0 <= rx' < rx :: CellFits(cells, b, px, py, rx', ry)
        {
          var cell := b[4 * ry + rx];
          if cell != 0 {
            var x, y := px + rx, py + ry;
            if x < 0 || x >= W || y < 0 || y >= H {
              assert !CellFits(cells, b, px, py, rx, ry);
              return false;
            }
            if board[y, x] != Empty {
              assert !CellFits(cells, b, px, py, rx, ry);
              return false;
            }
          }
          rx := rx + 1;
        }
        ry := ry + 1;
      }
      return true;
    }

    /** `lock_piece`: fills the board cells under the piece's occupied
        cells, skipping those off the board. */
    method LockPiece(p: Piece)
      requires Wf()
      modifies board, this`cells
      ensures Wf() && cells == Locked(old(cells), p)
    {
      LockBitmap(Tetromino[p.shape][p.rot], p.x, p.y);
    }

    /** The loop of `lock_piece` over one bitmap placed with its box corner
        at (px, py), visiting the box row by row. */
    method LockBitmap(b: Bitmap, px: int, py: int)
      requires Wf()
      modifies board, this`cells
      ensures Wf() && cells == Stamp(old(cells), b, px, py)
    {
      PaintIsStamp(cells, b, px, py);
      ghost var target := PaintFrom(cells, b, px, py, 0);
      var ry := 0;
      while ry < Size
        invariant 0 <= ry <= Size
        invariant Wf()
        invariant PaintFrom(cells, b, px, py, 4 * ry) == target
      {
        var rx := 0;
        while rx < Size
          invariant 0 <= rx <= Size
          invariant Wf()
          invariant PaintFrom(cells, b, px, py, 4 * ry + rx) == target
        {
          LockCell(b, px, py, rx, ry);
          rx := rx + 1;
        }
        assert 4 * ry + rx == 4 * (ry + 1);
        ry := ry + 1;
      }
    }

    /** One visit of the loop of `lock_piece`: an occupied cell of the box
        that lies on the board is filled. */
    method LockCell(b: Bitmap, px: int, py: int, rx: int, ry: int)
      requires Wf() && 0 <= rx < Size && 0 <= ry < Size
      modifies board, this`cells
      ensures Wf() && cells == PaintCell(old(cells), b, px, py, 4 * ry + rx)
    {
      Position(rx, ry);
      var cell := b[4 * ry + rx];
      if cell != 0 {
        var x, y := px + rx, py + ry;
        if y >= 0 && y < H && x >= 0 && x < W {
          board[y, x] := Filled;
          cells := cells[y := cells[y][x := Filled]];
        }
      }
    }

    /** The full-row test of `clear_lines`, stopping at the first empty cell. */
    method RowFull(y: int) returns (full: bool)
      requires Wf() && 0 <= y < H
      ensures full == IsFull(cells[y])
    {
      full := true;
      var x := 0;
      while x < W
        invariant 0 <= x <= W
        invariant forall x' | 0 <= x' < x :: cells[y][x'] == Filled
      {
        if board[y, x] == Empty {
          full := false;
          break;
        }
        x := x + 1;
      }
    }

    /** The shift of `clear_lines`: rows y - 1, ..., 0 move down one row
        each, overwriting row y, and row 0 is emptied. */
    method ShiftDown(y: int)
      requires Wf() && 0 <= y < H
      modifies board, this`cells
      ensures Wf() && cells == RemoveRow(old(cells), y)
    {
      ghost var g := cells;
      var yy := y;
      while yy > 0
        invariant 0 <= yy <= y
        invariant Wf()
        invariant forall i | 0 <= i <= yy :: cells[i] == g[i]
        invariant forall i | yy < i <= y :: cells[i] == g[i - 1]
        invariant forall i | y < i < H :: cells[i] == g[i]
      {
        ghost var c := cells;
        var x := 0;
        while x < W
          invariant 0 <= x <= W
          invariant cells == c
          invariant forall i, x' | 0 <= i < H && 0 <= x' < W ::
            board[i, x'] == if i == yy && x' < x then cells[yy - 1][x'] else cells[i][x']
        {
          board[yy, x] := board[yy - 1, x];
          x := x + 1;
        }
        assert cells[yy - 1] == g[yy - 1];
        cells := cells[yy := cells[yy - 1]];
        yy := yy - 1;
      }
      ghost var c := cells;
      var x := 0;
      while x < W
        invariant 0 <= x <= W
        invariant cells == c
        invariant forall i, x' | 0 <= i < H && 0 <= x' < W ::
          board[i, x'] == if i == 0 && x' < x then Empty else cells[i][x']
      {
        board[0, x] := Empty;
        x := x + 1;
      }
      cells := cells[0 := EmptyRow];
      forall i | 0 <= i < H ensures cells[i] == RemoveRow(g, y)[i] {
        RemoveRowAt(g, y, i);
      }
    }

    /** `clear_lines`: removes the full rows, then the counters take the
        points for the rows removed. */
    method ClearLines() returns (cleared: nat)
      requires Wf()
      modifies board, this`cells, this`score, this`level, this`linesCleared
      ensures Wf()
      ensures cleared == FullCount(old(cells)) && cells == AfterClear(old(cells))
      ensures Stats(score, level, linesCleared) == Award(old(Stats(score, level, linesCleared)), cleared)
    {
      cleared := RemoveFullRows();
      AddScore(cleared);
    }

    /** The scan of `clear_lines` from the bottom row up: a full row is
        removed and the same row index is examined again, so a run of full
        rows is removed one after the other. */
    method RemoveFullRows() returns (cleared: nat)
      requires Wf()
      modifies board, this`cells
      ensures Wf()
      ensures cleared == FullCount(old(cells)) && cells == AfterClear(old(cells))
    {
      cleared := 0;
      var y := H - 1;
      while y >= 0
        invariant -1 <= y < H
        invariant Wf()
        invariant forall k | y < k < H :: !IsFull(cells[k])
        invariant AfterClear(cells) == AfterClear(old(cells))
        invariant cleared + FullCount(cells) == FullCount(old(cells))
        decreases FilledCount(cells), y
      {
        var full := RowFull(y);
        if full {
          RemoveRowStep(cells, y);
          ShiftDown(y);
          cleared := cleared + 1;
          y := y + 1;
        }
        y := y - 1;
      }
      ClearFixesClearGrid(cells);
      NoFullKeepsAll(cells);
    }

    /** The scoring of `clear_lines`: points by the number of rows at the
        level held before the update, then the line count and the level. */
    method AddScore(cleared: nat)
      modifies this`score, this`level, this`linesCleared
      ensures Stats(score, level, linesCleared) == Award(old(Stats(score, level, linesCleared)), cleared)
    {
      if cleared != 0 {
        linesCleared := linesCleared + cleared;
        var points;
        if cleared == 1 {
          points := 40 * level;
        } else if cleared == 2 {
          points := 100 * level;
        } else if cleared == 3 {
          points := 300 * level;
        } else {
          points := 1200 * level;
        }
        score := score + points;
        level := 1 + linesCleared / 10;
      }
    }

    /** `spawn_piece`: the next shape enters at column 3, one row above the
        board, in rotation 0; `r` is the shape drawn as the new next one.
        A failed fit ends the game. */
    method SpawnPiece(r: ShapeId)
      requires Wf()
      modifies this`current, this`nextPiece, this`over
      ensures Snapshot() == Rules.Spawn(old(Snapshot()), r)
    {
      current := current.(shape := nextPiece);
      nextPiece := r;
      current := current.(rot := 0, x := W / 2 - Size / 2, y := -1);
      var ok := Fits(current);
      if !ok {
        over := true;
      }
    }

    /** Lock, clear, spawn: what every branch does when the piece cannot
        move down. */
    method Settle(r: ShapeId)
      requires Wf()
      modifies board, this
      ensures Wf() && Snapshot() == Rules.Settle(old(Snapshot()), r)
    {
      LockPiece(current);
      var cleared := ClearLines();
      SpawnPiece(r);
    }

    method MoveLeft()
      requires Wf()
      modifies this`current
      ensures Snapshot() == Rules.MoveLeft(old(Snapshot()))
    {
      var tmp := current.(x := current.x - 1);
      var ok := Fits(tmp);
      if ok {
        current := current.(x := current.x - 1);
      }
    }

    method MoveRight()
      requires Wf()
      modifies this`current
      ensures Snapshot() == Rules.MoveRight(old(Snapshot()))
    {
      var tmp := current.(x := current.x + 1);
      var ok := Fits(tmp);
      if ok {
        current := current.(x := current.x + 1);
      }
    }

    method Rotate()
      requires Wf()
      modifies this`current
      ensures Snapshot() == Rules.Rotate(old(Snapshot()))
    {
      var tmp := current.(rot := (current.rot + 1) % 4);
      var ok := Fits(tmp);
      if ok {
        current := current.(rot := tmp.rot);
      }
    }

    /** Soft drop, and the gravity step: one row down, or settle. */
    method Fall(r: ShapeId)
      requires Wf()
      modifies board, this
      ensures Wf() && Snapshot() == Rules.Fall(old(Snapshot()), r)
    {
      var tmp := current.(y := current.y + 1);
      var ok := Fits(tmp);
      if ok {
        current := current.(y := current.y + 1);
      } else {
        Settle(r);
      }
    }

    /** Hard drop: step down while the next row fits, then settle. */
    method HardDrop(r: ShapeId)
      requires Wf()
      modifies board, this
      ensures Wf() && Snapshot() == Rules.Drop(old(Snapshot()), r)
    {
      while true
        invariant Wf()
        invariant Snapshot() == old(Snapshot()).(current := current)
        invariant Landed(cells, current) == Landed(cells, old(current))
        decreases H - current.y
      {
        var tmp := current.(y := current.y + 1);
        var ok := Fits(tmp);
        if ok {
          FitsAboveFloor(cells, tmp);
          current := current.(y := current.y + 1);
        } else {
          Settle(r);
          break;
        }
      }
    }

    /** One pass of the main loop: the key, if it is one the loop handles,
        then the gravity step when it is due. The result says whether the
        loop goes on: Quit and game over end it. */
    method Tick(key: Rules.Key, gravityDue: bool, r1: ShapeId, r2: ShapeId) returns (running: bool)
      requires Valid()
      modifies board, this
      ensures Valid()
      ensures Snapshot() == Rules.Tick(old(Snapshot()), key, gravityDue, r1, r2)
      ensures running == Rules.Running(Snapshot(), key)
    {
      Rules.TickInv(Snapshot(), key, gravityDue, r1, r2);
      if over || key == Rules.KeyQuit {
        return false;
      }
      match key {
        case KeyLeft => MoveLeft();
        case KeyRight => MoveRight();
        case KeyRotate => Rotate();
        case KeyDown => Fall(r1);
        case KeySpace => HardDrop(r1);
        case _ =>
      }
      if gravityDue && !over {
        Fall(r2);
      }
      running := !over;
    }
  }
}
