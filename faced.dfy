/**
  The quadrant ("faced") layout of one 32x32 tile.

  A tile is stored as four contiguous 16x16 faces in the order top-left,
  top-right, bottom-left, bottom-right; inside a face the cells are row-major.
  `FacedOffset` is the closed-form mapping of the kernels, `QuadrantOffset`
  the explicit case split that `unpacker_collect` writes out, and the
  pointer-stepping constants of the kernels walk the same mapping.
*/
module Faced {

  /** Tile edge, face edge, and the number of cells in a face and in a tile. */
  const TILE_DIM: nat := 32
  const FACE_DIM: nat := 16
  const FACE_SIZE: nat := 256
  const TILE_SIZE: nat := 1024

  /** Vector pages are 1024 bytes, i.e. 256 floats; a chunk is a batch of such pages. */
  const VEC_PAGE_SIZE: nat := 1024
  const VECS_PER_PAGE: nat := VEC_PAGE_SIZE / 4

  /** The invalid column address that pads ELLPACK rows (`UINT32_MAX`). */
  const SENTINEL: nat := 0xFFFF_FFFF

  /** Pointer steps of the kernels when the faced layout is selected. */
  const NEXT_ROW_OFFSET: nat := 16
  const NEXT_FACE_ROW_OFFSET: nat := 16 * 16 + 16
  const NEXT_FACE_COL_OFFSET: nat := 16 * 16 - 15

  /** A column address as stored in the address tiles: an unsigned 32-bit value. */
  type Addr = a: nat | a <= SENTINEL

  /**
    `faced_offset(row, col)`: the masks `& 0xF`, `& 0x10` and the shift `>> 5`
    of the unsigned source are written as remainders and quotients.
  */
  function FacedOffset(row: nat, col: nat): (off: nat)
    ensures row < TILE_DIM && col < TILE_DIM ==> off < TILE_SIZE
  {
    var inFaceRow := row % 16;
    var faceId := 2 * ((row / 16) % 2) + (col / 16) % 2 + 4 * (row / 32);
    var inFaceCol := col % 16;
    faceId * 256 + inFaceRow * 16 + inFaceCol
  }

  /** The row of the tile cell stored at offset `off` (inverse of `FacedOffset`). */
  function FacedRow(off: nat): nat
  {
    (off / 512) * 16 + (off % 256) / 16
  }

  /** The column of the tile cell stored at offset `off` (inverse of `FacedOffset`). */
  function FacedCol(off: nat): nat
  {
    ((off / 256) % 2) * 16 + off % 16
  }

  /**
    The explicit quadrant formula that `unpacker_collect` uses instead of
    calling `faced_offset`; it is linear in each quadrant.
  */
  function QuadrantOffset(row: nat, col: nat): (off: nat)
    requires row < TILE_DIM && col < TILE_DIM
    ensures off < TILE_SIZE
  {
    if row < 16 then
      if col < 16 then row * 16 + col else 256 + row * 16 + (col - 16)
    else
      if col < 16 then 512 + (row - 16) * 16 + col
      else 768 + (row - 16) * 16 + (col - 16)
  }

  /** Reading back the row and column of the offset `face * 256 + faceRow * 16 + faceCol`. */
  lemma OffsetDigits(face: nat, faceRow: nat, faceCol: nat)
    requires face < 4 && faceRow < 16 && faceCol < 16
    ensures FacedRow(face * 256 + faceRow * 16 + faceCol) == (face / 2) * 16 + faceRow
    ensures FacedCol(face * 256 + faceRow * 16 + faceCol) == (face % 2) * 16 + faceCol
  {
    var low := faceRow * 16 + faceCol;
    assert low < 256 && low / 16 == faceRow && low % 16 == faceCol;
    var off := face * 256 + low;
    assert off / 512 == face / 2 by {
      assert off == (face / 2) * 512 + ((face % 2) * 256 + low);
    }
    assert off / 256 == face && off % 256 == low;
    assert off % 16 == faceCol by {
      assert off == (face * 16 + faceRow) * 16 + faceCol;
    }
  }

  /** The masked formula and the quadrant formula agree on the tile. */
  lemma QuadrantIsFaced(row: nat, col: nat)
    requires row < TILE_DIM && col < TILE_DIM
    ensures FacedOffset(row, col) == QuadrantOffset(row, col)
  {
    if row < 16 {
      assert row / 16 == 0 && row % 16 == row && row / 32 == 0;
    } else {
      assert row / 16 == 1 && row % 16 == row - 16 && row / 32 == 0;
    }
    if col < 16 {
      assert col / 16 == 0 && col % 16 == col;
    } else {
      assert col / 16 == 1 && col % 16 == col - 16;
    }
  }

  /** The quadrant offset of a cell, written as face, row in face and column in face. */
  lemma QuadrantDigits(row: nat, col: nat)
    requires row < TILE_DIM && col < TILE_DIM
    ensures FacedOffset(row, col)
      == (2 * (row / 16) + col / 16) * 256 + (row % 16) * 16 + col % 16
    ensures (2 * (row / 16) + col / 16) / 2 * 16 + row % 16 == row
    ensures (2 * (row / 16) + col / 16) % 2 * 16 + col % 16 == col
  {
    QuadrantIsFaced(row, col);
    if row < 16 {
      assert row / 16 == 0 && row % 16 == row;
    } else {
      assert row / 16 == 1 && row % 16 == row - 16;
    }
    if col < 16 {
      assert col / 16 == 0 && col % 16 == col;
    } else {
      assert col / 16 == 1 && col % 16 == col - 16;
    }
    var face := 2 * (row / 16) + col / 16;
    assert face / 2 == row / 16 && face % 2 == col / 16;
  }

  /** Reading back the coordinates of a cell's offset gives the cell. */
  lemma FacedOffsetInverse(row: nat, col: nat)
    requires row < TILE_DIM && col < TILE_DIM
    ensures FacedRow(FacedOffset(row, col)) == row
    ensures FacedCol(FacedOffset(row, col)) == col
  {
    QuadrantDigits(row, col);
    OffsetDigits(2 * (row / 16) + col / 16, row % 16, col % 16);
  }

  /** Every offset of a tile is the offset of exactly the cell read back from it. */
  lemma FacedOffsetOnto(off: nat)
    requires off < TILE_SIZE
    ensures FacedRow(off) < TILE_DIM && FacedCol(off) < TILE_DIM
    ensures FacedOffset(FacedRow(off), FacedCol(off)) == off
  {
    var face := off / 256;
    var faceRow := (off % 256) / 16;
    var faceCol := off % 16;
    assert off == face * 256 + faceRow * 16 + faceCol;
    OffsetDigits(face, faceRow, faceCol);
    var row := (face / 2) * 16 + faceRow;
    var col := (face % 2) * 16 + faceCol;
    QuadrantDigits(row, col);
    assert row / 16 == face / 2 && row % 16 == faceRow;
    assert col / 16 == face % 2 && col % 16 == faceCol;
  }

  /** `FacedOffset` is injective on the 32x32 square. */
  lemma FacedOffsetInjective(r1: nat, c1: nat, r2: nat, c2: nat)
    requires r1 < TILE_DIM && c1 < TILE_DIM && r2 < TILE_DIM && c2 < TILE_DIM
    requires FacedOffset(r1, c1) == FacedOffset(r2, c2)
    ensures r1 == r2 && c1 == c2
  {
    FacedOffsetInverse(r1, c1);
    FacedOffsetInverse(r2, c2);
  }

  /** The step from column `col` to `col + 1` along a row: 1, or 241 when leaving the left face. */
  function ColStep(col: nat): nat
  {
    if col == 15 then NEXT_FACE_COL_OFFSET else 1
  }

  /** The step from row `row` to `row + 1`: 16, or 272 when leaving the top faces. */
  function RowStep(row: nat): nat
  {
    if row == 15 then NEXT_FACE_ROW_OFFSET else NEXT_ROW_OFFSET
  }

  /** Advancing a cell pointer by `ColStep` moves to the next column of the same row. */
  lemma ColStepIsFaced(row: nat, col: nat)
    requires row < TILE_DIM && col + 1 < TILE_DIM
    ensures FacedOffset(row, col) + ColStep(col) == FacedOffset(row, col + 1)
  {
    QuadrantIsFaced(row, col);
    QuadrantIsFaced(row, col + 1);
  }

  /** Advancing a row pointer by `RowStep` moves to column 0 of the next row. */
  lemma RowStepIsFaced(row: nat)
    requires row + 1 < TILE_DIM
    ensures FacedOffset(row, 0) + RowStep(row) == FacedOffset(row + 1, 0)
  {
    QuadrantIsFaced(row, 0);
    QuadrantIsFaced(row + 1, 0);
  }

  /**
    Where the diagonal cell `(d, d)` lives: `17 d` in face 0, `768 + 17 (d - 16)`
    in face 3 (`DiagonalCellIsFaced`). For `d >= 1` it lies strictly beyond
    position `d`, which is what lets the diagonal be gathered in place.
  */
  function DiagonalCell(d: nat): (off: nat)
    requires d < TILE_DIM
    ensures off < TILE_SIZE
    ensures 1 <= d ==> d < off
  {
    if d < FACE_DIM then 17 * d else 3 * FACE_SIZE + 17 * (d - FACE_DIM)
  }

  /** `DiagonalCell` is the faced offset of the diagonal cell. */
  lemma DiagonalCellIsFaced(d: nat)
    requires d < TILE_DIM
    ensures DiagonalCell(d) == FacedOffset(d, d)
  {
    QuadrantIsFaced(d, d);
  }

  /**
    Index of cell `(row, col)` of tile number `tile` in a buffer of
    consecutive tiles; the in-tile part is the faced offset, in its quadrant
    form (`TileCellInTile` states the equality).
  */
  function TileCell(tile: nat, row: nat, col: nat): nat
    requires row < TILE_DIM && col < TILE_DIM
  {
    tile * TILE_SIZE + QuadrantOffset(row, col)
  }

  /** Cell `(row, col)` of tile `tile` lies inside that tile's 1024 entries, at its faced offset. */
  lemma TileCellInTile(tile: nat, row: nat, col: nat)
    requires row < TILE_DIM && col < TILE_DIM
    ensures tile * TILE_SIZE <= TileCell(tile, row, col) < (tile + 1) * TILE_SIZE
    ensures TileCell(tile, row, col) == tile * TILE_SIZE + FacedOffset(row, col)
  {
    QuadrantIsFaced(row, col);
  }

  /** Every entry of a tile buffer is a cell: entry `i` is the cell read back from its offset in tile `i / 1024`. */
  lemma TileCellOnto(i: nat)
    ensures FacedRow(i % TILE_SIZE) < TILE_DIM && FacedCol(i % TILE_SIZE) < TILE_DIM
    ensures TileCell(i / TILE_SIZE, FacedRow(i % TILE_SIZE), FacedCol(i % TILE_SIZE)) == i
  {
    FacedOffsetOnto(i % TILE_SIZE);
    TileCellInTile(i / TILE_SIZE, FacedRow(i % TILE_SIZE), FacedCol(i % TILE_SIZE));
  }

  /** Distinct cells of a tile buffer occupy distinct entries. */
  lemma TileCellInjective(t1: nat, r1: nat, c1: nat, t2: nat, r2: nat, c2: nat)
    requires r1 < TILE_DIM && c1 < TILE_DIM && r2 < TILE_DIM && c2 < TILE_DIM
    requires TileCell(t1, r1, c1) == TileCell(t2, r2, c2)
    ensures t1 == t2 && r1 == r2 && c1 == c2
  {
    TileCellInTile(t1, r1, c1);
    TileCellInTile(t2, r2, c2);
    FacedOffsetInjective(r1, c1, r2, c2);
  }

  /** Row `row` of tile `tile`, read in column order through the faced layout. */
  function TileRow<T>(buf: seq<T>, tile: nat, row: nat): (cells: seq<T>)
    requires row < TILE_DIM && (tile + 1) * TILE_SIZE <= |buf|
    ensures |cells| == TILE_DIM
    ensures forall c :: 0 <= c < TILE_DIM ==> cells[c] == buf[TileCell(tile, row, c)]
  {
    seq(TILE_DIM, c requires 0 <= c < TILE_DIM => TileCellInTile(tile, row, c); buf[TileCell(tile, row, c)])
  }

  /**
    Position of the first sentinel address of a row (its length if there is
    none); `FirstSentinelBefore` states that no earlier address is the sentinel.
  */
  function FirstSentinel(row: seq<Addr>): (k: nat)
    ensures k <= |row|
    ensures k < |row| ==> row[k] == SENTINEL
  {
    SentinelFrom(row, 0)
  }

  /** The first sentinel at or after column `from`. */
  function SentinelFrom(row: seq<Addr>, from: nat): (k: nat)
    requires from <= |row|
    ensures from <= k <= |row|
    ensures k < |row| ==> row[k] == SENTINEL
    decreases |row| - from
  {
    if from == |row| || row[from] == SENTINEL then from else SentinelFrom(row, from + 1)
  }

  /** No address before `FirstSentinel(row)` is the sentinel. */
  lemma FirstSentinelBefore(row: seq<Addr>)
    ensures forall c :: 0 <= c < FirstSentinel(row) ==> row[c] != SENTINEL
  {
    SentinelFromBefore(row, 0);
  }

  /** No address from `from` up to `SentinelFrom(row, from)` is the sentinel. */
  lemma {:induction false} SentinelFromBefore(row: seq<Addr>, from: nat)
    requires from <= |row|
    ensures forall c :: from <= c < SentinelFrom(row, from) ==> row[c] != SENTINEL
    decreases |row| - from
  {
    if from < |row| && row[from] != SENTINEL {
      SentinelFromBefore(row, from + 1);
    }
  }

  /** A row whose first `n` addresses are not the sentinel and whose cell `n` is (or that ends at `n`) has its first sentinel at `n`. */
  lemma {:induction false} SentinelFromAt(row: seq<Addr>, from: nat, n: nat)
    requires from <= n <= |row| && (n == |row| || row[n] == SENTINEL)
    requires forall c :: from <= c < n ==> row[c] != SENTINEL
    ensures SentinelFrom(row, from) == n
    decreases n - from
  {
    if from < n {
      SentinelFromAt(row, from + 1, n);
    }
  }
}
