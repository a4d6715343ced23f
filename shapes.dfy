/** The shape catalog: seven tetrominoes, each given by four precomputed
    rotations, each rotation a 4x4 row-major occupancy bitmap. */
module Shapes {

  /** Side of the square box a tetromino is drawn in (TET_SIZE). */
  const Size: int := 4

  /** Number of distinct shapes (I, J, L, O, S, T, Z). */
  const ShapeCount: int := 7

  type ShapeId = s: int | 0 <= s < ShapeCount
  type RotId = r: int | 0 <= r < 4

  /** One rotation of one shape: cell (rx, ry) is entry ry * 4 + rx. */
  type Bitmap = b: seq<int> | |b| == 16 witness [0,0,0,0, 0,0,0,0, 0,0,0,0, 0,0,0,0]

  /** The four rotations of one shape. */
  type Rotations = rs: seq<Bitmap> | |rs| == 4 witness [Blank, Blank, Blank, Blank]

  type Table = t: seq<Rotations> | |t| == ShapeCount
    witness [BlankShape, BlankShape, BlankShape, BlankShape, BlankShape, BlankShape, BlankShape]

  /** The bitmap with no occupied cell. */
  const Blank: Bitmap := [0,0,0,0, 0,0,0,0, 0,0,0,0, 0,0,0,0]
  const BlankShape: Rotations := [Blank, Blank, Blank, Blank]

  /** The constant table `tetromino[7][4][16]`, one entry per shape. */
  const Tetromino: Table := [ShapeI, ShapeJ, ShapeL, ShapeO, ShapeS, ShapeT, ShapeZ]

  const ShapeI: Rotations := [
    [0,0,0,0, 1,1,1,1, 0,0,0,0, 0,0,0,0],
    [0,0,1,0, 0,0,1,0, 0,0,1,0, 0,0,1,0],
    [0,0,0,0, 0,0,0,0, 1,1,1,1, 0,0,0,0],
    [0,1,0,0, 0,1,0,0, 0,1,0,0, 0,1,0,0]
  ]
  const ShapeJ: Rotations := [
    [1,0,0,0, 1,1,1,0, 0,0,0,0, 0,0,0,0],
    [0,1,1,0, 0,1,0,0, 0,1,0,0, 0,0,0,0],
    [0,0,0,0, 1,1,1,0, 0,0,1,0, 0,0,0,0],
    [0,1,0,0, 0,1,0,0, 1,1,0,0, 0,0,0,0]
  ]
  const ShapeL: Rotations := [
    [0,0,1,0, 1,1,1,0, 0,0,0,0, 0,0,0,0],
    [0,1,0,0, 0,1,0,0, 0,1,1,0, 0,0,0,0],
    [0,0,0,0, 1,1,1,0, 1,0,0,0, 0,0,0,0],
    [1,1,0,0, 0,1,0,0, 0,1,0,0, 0,0,0,0]
  ]
  const ShapeO: Rotations := [
    [0,1,1,0, 0,1,1,0, 0,0,0,0, 0,0,0,0],
    [0,1,1,0, 0,1,1,0, 0,0,0,0, 0,0,0,0],
    [0,1,1,0, 0,1,1,0, 0,0,0,0, 0,0,0,0],
    [0,1,1,0, 0,1,1,0, 0,0,0,0, 0,0,0,0]
  ]
  const ShapeS: Rotations := [
    [0,1,1,0, 1,1,0,0, 0,0,0,0, 0,0,0,0],
    [0,1,0,0, 0,1,1,0, 0,0,1,0, 0,0,0,0],
    [0,0,0,0, 0,1,1,0, 1,1,0,0, 0,0,0,0],
    [1,0,0,0, 1,1,0,0, 0,1,0,0, 0,0,0,0]
  ]
  const ShapeT: Rotations := [
    [0,1,0,0, 1,1,1,0, 0,0,0,0, 0,0,0,0],
    [0,1,0,0, 0,1,1,0, 0,1,0,0, 0,0,0,0],
    [0,0,0,0, 1,1,1,0, 0,1,0,0, 0,0,0,0],
    [0,1,0,0, 1,1,0,0, 0,1,0,0, 0,0,0,0]
  ]
  const ShapeZ: Rotations := [
    [1,1,0,0, 0,1,1,0, 0,0,0,0, 0,0,0,0],
    [0,0,1,0, 0,1,1,0, 0,1,0,0, 0,0,0,0],
    [0,0,0,0, 1,1,0,0, 0,1,1,0, 0,0,0,0],
    [0,1,0,0, 1,1,0,0, 1,0,0,0, 0,0,0,0]
  ]

  /** Cell (rx, ry) of the box of `shape` in rotation `rot` is occupied
      (the table entry at position 4 * ry + rx is non-zero). */
  predicate Occupied(shape: ShapeId, rot: RotId, rx: int, ry: int)
  {
    BitOccupied(Tetromino[shape][rot], rx, ry)
  }

  /** Cell (rx, ry) of bitmap b is occupied. */
  predicate BitOccupied(b: Bitmap, rx: int, ry: int)
  {
    0 <= rx < Size && 0 <= ry < Size && b[4 * ry + rx] != 0
  }

  /** Scan position 4 * ry + rx is column rx of row ry of the box. */
  lemma Position(rx: int, ry: int)
    requires 0 <= rx < Size && 0 <= ry
    ensures (4 * ry + rx) % 4 == rx && (4 * ry + rx) / 4 == ry
  {
  }

  /** 1 for an occupied entry, 0 for an empty one. */
  function Bit(v: int): nat { if v != 0 then 1 else 0 }

  /** Number of occupied entries of `b` at scan positions i, i+1, ..., 15
      (the row-major order in which the source visits the box). */
  function OccupiedFrom(b: Bitmap, i: nat): nat
    requires i <= 16
    decreases 16 - i
  {
    if i == 16 then 0 else Bit(b[i]) + OccupiedFrom(b, i + 1)
  }

  /** Occupied entries of row ry of `b`. */
  function RowBits(b: Bitmap, ry: int): nat
    requires 0 <= ry < Size
  {
    Bit(b[4 * ry]) + Bit(b[4 * ry + 1]) + Bit(b[4 * ry + 2]) + Bit(b[4 * ry + 3])
  }

  /** Number of occupied cells of a bitmap, counted row by row. */
  function CellCount(b: Bitmap): nat
  {
    RowBits(b, 0) + RowBits(b, 1) + RowBits(b, 2) + RowBits(b, 3)
  }

  /** Scanning one row of the box counts that row's occupied entries. */
  lemma RowStep(b: Bitmap, ry: int)
    requires 0 <= ry < Size
    ensures OccupiedFrom(b, 4 * ry) == RowBits(b, ry) + OccupiedFrom(b, 4 * ry + 4)
  {
    var i := 4 * ry;
    assert OccupiedFrom(b, i + 2) == Bit(b[i + 2]) + Bit(b[i + 3]) + OccupiedFrom(b, i + 4);
    assert OccupiedFrom(b, i) == Bit(b[i]) + Bit(b[i + 1]) + OccupiedFrom(b, i + 2);
  }

  /** A scan over the whole box meets every occupied cell exactly once. */
  lemma ScanCountsCells(b: Bitmap)
    ensures OccupiedFrom(b, 0) == CellCount(b)
  {
    RowStep(b, 0);
    RowStep(b, 1);
    RowStep(b, 2);
    RowStep(b, 3);
  }

  /** A scan that still has cells to meet reaches an occupied position. */
  lemma {:induction false} ScanFindsCell(b: Bitmap, i: nat)
    requires i <= 16 && OccupiedFrom(b, i) > 0
    ensures exists j :: i <= j < 16 && b[j] != 0
    decreases 16 - i
  {
    if b[i] == 0 {
      ScanFindsCell(b, i + 1);
    }
  }

  lemma FourCellsI()
    ensures forall rot: RotId :: CellCount(ShapeI[rot]) == 4
  {
    assert CellCount(ShapeI[0]) == 4;
    assert CellCount(ShapeI[1]) == 4;
    assert CellCount(ShapeI[2]) == 4;
    assert CellCount(ShapeI[3]) == 4;
  }

  lemma FourCellsJ()
    ensures forall rot: RotId :: CellCount(ShapeJ[rot]) == 4
  {
    assert CellCount(ShapeJ[0]) == 4;
    assert CellCount(ShapeJ[1]) == 4;
    assert CellCount(ShapeJ[2]) == 4;
    assert CellCount(ShapeJ[3]) == 4;
  }

  lemma FourCellsL()
    ensures forall rot: RotId :: CellCount(ShapeL[rot]) == 4
  {
    assert CellCount(ShapeL[0]) == 4;
    assert CellCount(ShapeL[1]) == 4;
    assert CellCount(ShapeL[2]) == 4;
    assert CellCount(ShapeL[3]) == 4;
  }

  lemma FourCellsO()
    ensures forall rot: RotId :: CellCount(ShapeO[rot]) == 4
  {
    assert CellCount(ShapeO[0]) == 4;
    assert CellCount(ShapeO[1]) == 4;
    assert CellCount(ShapeO[2]) == 4;
    assert CellCount(ShapeO[3]) == 4;
  }

  lemma FourCellsS()
    ensures forall rot: RotId :: CellCount(ShapeS[rot]) == 4
  {
    assert CellCount(ShapeS[0]) == 4;
    assert CellCount(ShapeS[1]) == 4;
    assert CellCount(ShapeS[2]) == 4;
    assert CellCount(ShapeS[3]) == 4;
  }

  lemma FourCellsT()
    ensures forall rot: RotId :: CellCount(ShapeT[rot]) == 4
  {
    assert CellCount(ShapeT[0]) == 4;
    assert CellCount(ShapeT[1]) == 4;
    assert CellCount(ShapeT[2]) == 4;
    assert CellCount(ShapeT[3]) == 4;
  }

  lemma FourCellsZ()
    ensures forall rot: RotId :: CellCount(ShapeZ[rot]) == 4
  {
    assert CellCount(ShapeZ[0]) == 4;
    assert CellCount(ShapeZ[1]) == 4;
    assert CellCount(ShapeZ[2]) == 4;
    assert CellCount(ShapeZ[3]) == 4;
  }

  /** Every bitmap of the table has exactly four occupied cells. */
  lemma FourCells(shape: ShapeId, rot: RotId)
    ensures CellCount(Tetromino[shape][rot]) == 4
  {
    FourCellsI(); FourCellsJ(); FourCellsL(); FourCellsO(); FourCellsS(); FourCellsT(); FourCellsZ();
  }

  /** A bitmap with a cell has an occupied scan position. */
  lemma SomePosition(b: Bitmap) returns (j: int)
    requires CellCount(b) > 0
    ensures 0 <= j < 16 && b[j] != 0
  {
    ScanCountsCells(b);
    ScanFindsCell(b, 0);
    j :| 0 <= j < 16 && b[j] != 0;
  }

  /** So every rotation of every shape occupies some cell of its box. */
  lemma HasCell(shape: ShapeId, rot: RotId) returns (rx: int, ry: int)
    ensures Occupied(shape, rot, rx, ry)
  {
    FourCells(shape, rot);
    var j := SomePosition(Tetromino[shape][rot]);
    rx, ry := j % 4, j / 4;
    assert 4 * ry + rx == j;
  }

  /** In rotation 0 the I piece occupies exactly row 1 of its box. */
  lemma FlatI(rx: int, ry: int)
    ensures Occupied(0, 0, rx, ry) <==> ry == 1 && 0 <= rx < Size
  {
    var b := Tetromino[0][0];
    assert b == [0,0,0,0, 1,1,1,1, 0,0,0,0, 0,0,0,0];
    if 0 <= rx < Size && 0 <= ry < Size {
      var k := 4 * ry + rx;
      assert k == 0 || k == 1 || k == 2 || k == 3 || k == 4 || k == 5 || k == 6 || k == 7 ||
             k == 8 || k == 9 || k == 10 || k == 11 || k == 12 || k == 13 || k == 14 || k == 15;
    }
  }

  /** Every other shape occupies row 0 of its box in rotation 0. */
  lemma TopRowOccupied(shape: ShapeId) returns (rx: int)
    requires shape != 0
    ensures Occupied(shape, 0, rx, 0)
  {
    rx := if shape == 1 || shape == 6 then 0 else if shape == 2 then 2 else 1;
  }
}
