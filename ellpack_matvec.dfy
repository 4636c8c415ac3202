/**
  The host side of the ELLPACK matrix-vector product: re-laying the
  row-major ELLPACK arrays into faced 32x32 tiles, sizing the launch, the
  per-row-tile column ranges, and the split of the batches over the cores
  with the vector chunks each core needs.
*/
module EllpackMatVec {
  import opened Faced
  import opened Arith

  // ---------------------------------------------------------------------------
  // tilize_buffer

  /** `r * cols + c` addresses inside a row-major `rows x cols` array. */
  lemma RowMajorBound(r: nat, c: nat, rows: nat, cols: nat)
    requires r < rows && c < cols
    ensures Times(r, cols) == r * cols && r * cols + c < rows * cols
  {
    TimesIsProduct(r, cols);
    MulMonotone(r + 1, rows, cols);
  }

  /**
    The element of the row-major `rows x cols` input that belongs in cell
    `(r, c)` of tile `(tr, tc)`: element `(gr, gc)` at address
    `gr * cols + gc`, or `pad` when that cell lies past the last row or
    column.
  */
  function TileSource<T>(input: seq<T>, rows: nat, cols: nat, pad: T, tr: nat, tc: nat, r: nat, c: nat): T
    requires rows * cols <= |input|
  {
    var gr := tr * TILE_DIM + r;
    var gc := tc * TILE_DIM + c;
    if gr < rows && gc < cols then
      RowMajorBound(gr, gc, rows, cols);
      input[Times(gr, cols) + gc]
    else pad
  }

  /**
    One of the four face loops of `tilize_buffer`: face `(faceRow, faceCol)`
    of tile `tile`, which starts at `tileStart`, receives the in-bounds input
    elements of rows `16 faceRow ..` and columns `16 faceCol ..` of the tile,
    the cells `tileStart + 256 face + 16 r + c`; out-of-bounds cells keep
    their value.
  */
  method FaceFill<T>(out: array<T>, input: seq<T>, rows: nat, cols: nat, tile: nat, tileStart: nat,
                     tr: nat, tc: nat, faceRow: nat, faceCol: nat)
    requires faceRow < 2 && faceCol < 2 && rows * cols <= |input|
    requires tileStart == tile * TILE_SIZE && tileStart + TILE_SIZE <= out.Length
    modifies out
    ensures forall r, c :: faceRow * FACE_DIM <= r < faceRow * FACE_DIM + FACE_DIM &&
                           faceCol * FACE_DIM <= c < faceCol * FACE_DIM + FACE_DIM ==>
      out[TileCell(tile, r, c)] == TileSource(input, rows, cols, old(out[TileCell(tile, r, c)]), tr, tc, r, c)
    ensures forall j :: 0 <= j < out.Length &&
                        !(tileStart + (2 * faceRow + faceCol) * FACE_SIZE <= j < tileStart + (2 * faceRow + faceCol + 1) * FACE_SIZE) ==>
      out[j] == old(out[j])
  {
    var faceBase := tileStart + (2 * faceRow + faceCol) * FACE_SIZE;
    var rowBase := faceRow * FACE_DIM;
    var colBase := faceCol * FACE_DIM;
    FaceCells(tile, faceBase, faceRow, faceCol);
    var r := 0;
    while r < 16
      invariant r <= 16
      invariant forall r', c :: rowBase <= r' < rowBase + FACE_DIM && colBase <= c < colBase + FACE_DIM ==>
        out[TileCell(tile, r', c)] ==
          if r' < rowBase + r then TileSource(input, rows, cols, old(out[TileCell(tile, r', c)]), tr, tc, r', c)
          else old(out[TileCell(tile, r', c)])
      invariant forall j :: 0 <= j < out.Length && !(faceBase <= j < faceBase + FACE_SIZE) ==> out[j] == old(out[j])
    {
      ghost var before := out[..];
      FaceRowFill(out, input, rows, cols, tile, faceBase, tr, tc, faceRow, faceCol, rowBase + r);
      assert forall r', c :: rowBase <= r' < rowBase + FACE_DIM && colBase <= c < colBase + FACE_DIM && r' != rowBase + r ==>
        out[TileCell(tile, r', c)] == before[TileCell(tile, r', c)];
      r := r + 1;
    }
  }

  /** Row `row` of a tile, which is row `row - 16 faceRow` of its face: the inner column loop of a face loop. */
  method FaceRowFill<T>(out: array<T>, input: seq<T>, rows: nat, cols: nat, tile: nat, faceBase: nat,
                        tr: nat, tc: nat, faceRow: nat, faceCol: nat, row: nat)
    requires faceRow < 2 && faceCol < 2 && faceRow * FACE_DIM <= row < faceRow * FACE_DIM + FACE_DIM && rows * cols <= |input|
    requires faceBase == tile * TILE_SIZE + (2 * faceRow + faceCol) * FACE_SIZE && faceBase + FACE_SIZE <= out.Length
    modifies out
    ensures forall c :: faceCol * FACE_DIM <= c < faceCol * FACE_DIM + FACE_DIM ==>
      out[TileCell(tile, row, c)] == TileSource(input, rows, cols, old(out[TileCell(tile, row, c)]), tr, tc, row, c)
    ensures forall j :: 0 <= j < out.Length &&
                        !(faceBase + (row - faceRow * FACE_DIM) * FACE_DIM <= j < faceBase + (row - faceRow * FACE_DIM) * FACE_DIM + FACE_DIM) ==>
      out[j] == old(out[j])
  {
    var r := row - faceRow * FACE_DIM;
    FaceCells(tile, faceBase, faceRow, faceCol);
    var c := 0;
    while c < 16
      invariant c <= 16
      invariant forall c' :: faceCol * FACE_DIM <= c' < faceCol * FACE_DIM + FACE_DIM ==>
        out[TileCell(tile, row, c')] ==
          if c' < faceCol * FACE_DIM + c then TileSource(input, rows, cols, old(out[TileCell(tile, row, c')]), tr, tc, row, c')
          else old(out[TileCell(tile, row, c')])
      invariant forall j :: 0 <= j < out.Length && !(faceBase + r * FACE_DIM <= j < faceBase + r * FACE_DIM + FACE_DIM) ==>
        out[j] == old(out[j])
    {
      var col := faceCol * FACE_DIM + c;
      assert faceBase + r * 16 + c == TileCell(tile, row, col);
      CellFill(out, input, rows, cols, tile, tr, tc, row, col, faceBase + r * 16 + c);
      c := c + 1;
    }
  }

  /** The cells of a face are 256 consecutive entries from `faceBase`, row by row. */
  lemma FaceCells(tile: nat, faceBase: nat, faceRow: nat, faceCol: nat)
    requires faceRow < 2 && faceCol < 2
    requires faceBase == tile * TILE_SIZE + (2 * faceRow + faceCol) * FACE_SIZE
    ensures forall r, c :: faceRow * FACE_DIM <= r < faceRow * FACE_DIM + FACE_DIM &&
                           faceCol * FACE_DIM <= c < faceCol * FACE_DIM + FACE_DIM ==>
      TileCell(tile, r, c) == faceBase + (r - faceRow * FACE_DIM) * FACE_DIM + (c - faceCol * FACE_DIM)
  {
  }

  /** One cell of a face row: the element at `(32 tr + row, 32 tc + col)` of the row-major input, when it exists, goes to `dst`. */
  method CellFill<T>(out: array<T>, input: seq<T>, rows: nat, cols: nat, tile: nat,
                     tr: nat, tc: nat, row: nat, col: nat, dst: nat)
    requires row < TILE_DIM && col < TILE_DIM && rows * cols <= |input|
    requires dst == TileCell(tile, row, col) && dst < out.Length
    modifies out
    ensures out[dst] == TileSource(input, rows, cols, old(out[dst]), tr, tc, row, col)
    ensures forall j :: 0 <= j < out.Length && j != dst ==> out[j] == old(out[j])
  {
    var globalR := tr * 32 + row;
    var globalC := tc * 32 + col;
    if globalR < rows && globalC < cols {
      RowMajorBound(globalR, globalC, rows, cols);
      out[dst] := input[globalR * cols + globalC];
    }
  }

  /** The body of the tile loops: the four face loops of tile `(tr, tc)`, number `tile`. */
  method TilizeTile<T>(out: array<T>, input: seq<T>, rows: nat, cols: nat, tile: nat, tr: nat, tc: nat)
    requires rows * cols <= |input| && (tile + 1) * TILE_SIZE <= out.Length
    modifies out
    ensures forall r, c :: 0 <= r < TILE_DIM && 0 <= c < TILE_DIM ==>
      out[TileCell(tile, r, c)] == TileSource(input, rows, cols, old(out[TileCell(tile, r, c)]), tr, tc, r, c)
    ensures forall j :: 0 <= j < out.Length && !(tile * TILE_SIZE <= j < (tile + 1) * TILE_SIZE) ==> out[j] == old(out[j])
  {
    var tileStart := tile * TILE_SIZE;
    FaceFill(out, input, rows, cols, tile, tileStart, tr, tc, 0, 0);
    FaceFill(out, input, rows, cols, tile, tileStart, tr, tc, 0, 1);
    FaceFill(out, input, rows, cols, tile, tileStart, tr, tc, 1, 0);
    FaceFill(out, input, rows, cols, tile, tileStart, tr, tc, 1, 1);
  }

  /** The number of 32-wide tiles along an edge of `n` elements. */
  function TilesFor(n: nat): nat
  {
    CeilDiv(n, TILE_DIM)
  }

  /** The number of tile `(tr, tc)` in row-major tile order, `ntc` tiles to a tile row. */
  function TileOf(tr: nat, tc: nat, ntc: nat): nat
  {
    tr * ntc + tc
  }

  /**
    The output of `tilize_buffer` as a property of a buffer: `ntr * ntc`
    tiles, tile `TileOf(tr, tc)` holding tile `(tr, tc)` of the input, every
    cell its input element or the padding.
  */
  ghost predicate Tilized<T>(out: seq<T>, input: seq<T>, rows: nat, cols: nat, pad: T)
    requires rows * cols <= |input|
  {
    |out| == TilesFor(rows) * TilesFor(cols) * TILE_SIZE &&
    TiledUpTo(out, input, rows, cols, pad, TilesFor(rows), 0, TilesFor(cols), TilesFor(rows) * TilesFor(cols))
  }

  /**
    The tiles before `(tr, tc)` in row-major tile order are tilized: their
    cells hold their input element or the padding.
  */
  ghost predicate TiledUpTo<T>(out: seq<T>, input: seq<T>, rows: nat, cols: nat, pad: T, tr: nat, tc: nat, ntc: nat, nt: nat)
    requires rows * cols <= |input| && |out| == nt * TILE_SIZE
  {
    forall tr': nat, tc': nat, r: nat, c: nat ::
      (tr' < tr || (tr' == tr && tc' < tc)) && tc' < ntc && TileOf(tr', tc', ntc) < nt && r < TILE_DIM && c < TILE_DIM ==>
      out[TileCell(TileOf(tr', tc', ntc), r, c)] == TileSource(input, rows, cols, pad, tr', tc', r, c)
  }

  /** Tiles are numbered in row-major tile order. */
  lemma TileOrder(tr': nat, tc': nat, tr: nat, tc: nat, ntc: nat)
    requires tc' < ntc && tc <= ntc
    requires tr' < tr || (tr' == tr && tc' < tc)
    ensures TileOf(tr', tc', ntc) < TileOf(tr, tc, ntc)
  {
    if tr' < tr {
      MulMonotone(tr' + 1, tr, ntc);
    }
  }

  /** The tiles of tile rows `0 .. tr` fit in `ntr * ntc` when `tr < ntr`. */
  lemma TileRowFits(tr: nat, ntr: nat, ntc: nat)
    requires tr < ntr
    ensures TileOf(tr + 1, 0, ntc) <= ntr * ntc
  {
    MulMonotone(tr + 1, ntr, ntc);
  }

  /** All `ntr * ntc` tiles are numbered below `ntr * ntc`. */
  lemma TileInRange(tr: nat, tc: nat, ntr: nat, ntc: nat)
    requires tr < ntr && tc < ntc
    ensures TileOf(tr, tc, ntc) < ntr * ntc
  {
    TileOrder(tr, tc, ntr, 0, ntc);
  }

  /**
    `tilize_buffer(out, in, rows, cols, ellpack_cols, pad)`: the output is
    filled with `pad`, then every tile `(tr, tc)` in row-major tile order gets
    its four faces. The `cols` argument of the source is not used by it and
    is not a parameter here; `cols` below is `ellpack_cols`.
  */
  method TilizeBuffer<T>(input: seq<T>, rows: nat, cols: nat, pad: T) returns (out: array<T>)
    requires rows * cols <= |input|
    ensures fresh(out)
    ensures Tilized(out[..], input, rows, cols, pad)
  {
    var ntr := (rows + 31) / 32;
    var ntc := (cols + 31) / 32;
    assert ntr == TilesFor(rows) && ntc == TilesFor(cols);
    var nt := ntr * ntc;
    out := new T[nt * 1024](_ => pad);
    var tr := 0;
    while tr < ntr
      invariant tr <= ntr
      invariant TiledUpTo(out[..], input, rows, cols, pad, tr, 0, ntc, nt)
      invariant forall j :: TileOf(tr, 0, ntc) * TILE_SIZE <= j < out.Length ==> out[j] == pad
    {
      TileRowFits(tr, ntr, ntc);
      TilizeTileRow(out, input, rows, cols, pad, tr, ntc, nt);
      tr := tr + 1;
    }
  }

  /** The inner tile loop: the tiles `(tr, 0), (tr, 1), ...` of tile row `tr`. */
  method TilizeTileRow<T>(out: array<T>, input: seq<T>, rows: nat, cols: nat, pad: T, tr: nat, ntc: nat, nt: nat)
    requires rows * cols <= |input| && out.Length == nt * TILE_SIZE && TileOf(tr + 1, 0, ntc) <= nt
    requires TiledUpTo(out[..], input, rows, cols, pad, tr, 0, ntc, nt)
    requires forall j :: TileOf(tr, 0, ntc) * TILE_SIZE <= j < out.Length ==> out[j] == pad
    modifies out
    ensures TiledUpTo(out[..], input, rows, cols, pad, tr + 1, 0, ntc, nt)
    ensures forall j :: TileOf(tr + 1, 0, ntc) * TILE_SIZE <= j < out.Length ==> out[j] == pad
  {
    var tc := 0;
    while tc < ntc
      invariant tc <= ntc
      invariant TiledUpTo(out[..], input, rows, cols, pad, tr, tc, ntc, nt)
      invariant forall j :: TileOf(tr, tc, ntc) * TILE_SIZE <= j < out.Length ==> out[j] == pad
    {
      var tile := tr * ntc + tc;
      ghost var before := out[..];
      TilizeTile(out, input, rows, cols, tile, tr, tc);
      TiledStep(before, out[..], input, rows, cols, pad, tr, tc, ntc, nt);
      tc := tc + 1;
    }
    TiledRowDone(out[..], input, rows, cols, pad, tr, ntc, nt);
  }

  /** Tilizing tile `(tr, tc)` extends the tilized prefix by that tile. */
  lemma TiledStep<T>(before: seq<T>, after: seq<T>, input: seq<T>, rows: nat, cols: nat, pad: T, tr: nat, tc: nat, ntc: nat, nt: nat)
    requires rows * cols <= |input| && |before| == nt * TILE_SIZE && |after| == |before| && tc < ntc
    requires TileOf(tr, tc, ntc) < nt
    requires TiledUpTo(before, input, rows, cols, pad, tr, tc, ntc, nt)
    requires forall j :: TileOf(tr, tc, ntc) * TILE_SIZE <= j < |before| ==> before[j] == pad
    requires forall r, c :: 0 <= r < TILE_DIM && 0 <= c < TILE_DIM ==>
      after[TileCell(TileOf(tr, tc, ntc), r, c)] == TileSource(input, rows, cols, before[TileCell(TileOf(tr, tc, ntc), r, c)], tr, tc, r, c)
    requires forall j :: 0 <= j < |after| && !(TileOf(tr, tc, ntc) * TILE_SIZE <= j < (TileOf(tr, tc, ntc) + 1) * TILE_SIZE) ==>
      after[j] == before[j]
    ensures TiledUpTo(after, input, rows, cols, pad, tr, tc + 1, ntc, nt)
    ensures forall j :: TileOf(tr, tc + 1, ntc) * TILE_SIZE <= j < |after| ==> after[j] == pad
  {
    forall tr': nat, tc': nat, r: nat, c: nat |
      (tr' < tr || (tr' == tr && tc' < tc + 1)) && tc' < ntc && TileOf(tr', tc', ntc) < nt && r < TILE_DIM && c < TILE_DIM
      ensures after[TileCell(TileOf(tr', tc', ntc), r, c)] == TileSource(input, rows, cols, pad, tr', tc', r, c)
    {
      TileCellInTile(TileOf(tr', tc', ntc), r, c);
      if tr' != tr || tc' != tc {
        TileOrder(tr', tc', tr, tc, ntc);
      } else {
        TileCellInTile(TileOf(tr, tc, ntc), r, c);
      }
    }
  }

  /** The tilized prefix up to `(tr, ntc)` is the one up to `(tr + 1, 0)`. */
  lemma TiledRowDone<T>(out: seq<T>, input: seq<T>, rows: nat, cols: nat, pad: T, tr: nat, ntc: nat, nt: nat)
    requires rows * cols <= |input| && |out| == nt * TILE_SIZE
    requires TiledUpTo(out, input, rows, cols, pad, tr, ntc, ntc, nt)
    ensures TiledUpTo(out, input, rows, cols, pad, tr + 1, 0, ntc, nt)
  {
  }

  /**
    Where element `(r, c)` of the input lands in the tilized buffer:
    cell `(r % 32, c % 32)` of tile `(r / 32, c / 32)`, that is
    `((r / 32) * ntc + c / 32) * 1024 + faced_offset(r % 32, c % 32)`.
  */
  function TiledIndex(r: nat, c: nat, ntc: nat): nat
  {
    TileCell(TileOf(r / TILE_DIM, c / TILE_DIM, ntc), r % TILE_DIM, c % TILE_DIM)
  }

  /** An in-bounds element's index is a cell of the tile that holds it, inside the buffer. */
  lemma TiledIndexIsCell(r: nat, c: nat, rows: nat, cols: nat)
    requires r < rows && c < cols
    ensures r / TILE_DIM < TilesFor(rows) && c / TILE_DIM < TilesFor(cols)
    ensures TileOf(r / TILE_DIM, c / TILE_DIM, TilesFor(cols)) < TilesFor(rows) * TilesFor(cols)
    ensures TiledIndex(r, c, TilesFor(cols)) == TileCell(TileOf(r / TILE_DIM, c / TILE_DIM, TilesFor(cols)), r % TILE_DIM, c % TILE_DIM)
    ensures TiledIndex(r, c, TilesFor(cols)) < TilesFor(rows) * TilesFor(cols) * TILE_SIZE
  {
    var ntc := TilesFor(cols);
    var t := TileOf(r / TILE_DIM, c / TILE_DIM, ntc);
    TileInRange(r / TILE_DIM, c / TILE_DIM, TilesFor(rows), ntc);
    TileCellInTile(t, r % TILE_DIM, c % TILE_DIM);
  }

  /** Element `(r, c)` of the input is found at `TiledIndex(r, c)` of the tilized buffer. */
  lemma TilizePlacement<T>(out: seq<T>, input: seq<T>, rows: nat, cols: nat, pad: T, r: nat, c: nat)
    requires rows * cols <= |input| && Tilized(out, input, rows, cols, pad)
    requires r < rows && c < cols
    ensures 0 <= r * cols + c < |input| && TiledIndex(r, c, TilesFor(cols)) < |out| &&
      out[TiledIndex(r, c, TilesFor(cols))] == input[r * cols + c]
  {
    TiledIndexIsCell(r, c, rows, cols);
    RowMajorBound(r, c, rows, cols);
    TilizedCell(out, input, rows, cols, pad, r / TILE_DIM, c / TILE_DIM, r % TILE_DIM, c % TILE_DIM);
    TileSourceInBounds(input, rows, cols, pad, r, c);
  }

  /** An in-bounds element is the source of its own tile cell. */
  lemma TileSourceInBounds<T>(input: seq<T>, rows: nat, cols: nat, pad: T, r: nat, c: nat)
    requires rows * cols <= |input| && r < rows && c < cols
    ensures r * cols + c < |input|
    ensures TileSource(input, rows, cols, pad, r / TILE_DIM, c / TILE_DIM, r % TILE_DIM, c % TILE_DIM) == input[r * cols + c]
  {
    RowMajorBound(r, c, rows, cols);
    assert (r / TILE_DIM) * TILE_DIM + r % TILE_DIM == r && (c / TILE_DIM) * TILE_DIM + c % TILE_DIM == c;
  }

  /** Distinct tile positions have distinct tile numbers. */
  lemma TileOfInjective(tr1: nat, tc1: nat, tr2: nat, tc2: nat, ntc: nat)
    requires tc1 < ntc && tc2 < ntc && TileOf(tr1, tc1, ntc) == TileOf(tr2, tc2, ntc)
    ensures tr1 == tr2 && tc1 == tc2
  {
    if tr1 < tr2 || (tr1 == tr2 && tc1 < tc2) {
      TileOrder(tr1, tc1, tr2, tc2, ntc);
    } else if tr2 < tr1 || (tr1 == tr2 && tc2 < tc1) {
      TileOrder(tr2, tc2, tr1, tc1, ntc);
    }
  }

  /** Every tile number below `ntr * ntc` is that of tile `(s / ntc, s % ntc)`. */
  lemma TileOfOnto(s: nat, ntr: nat, ntc: nat)
    requires s < ntr * ntc
    ensures ntc > 0 && s / ntc < ntr && s % ntc < ntc && TileOf(s / ntc, s % ntc, ntc) == s
  {
    assert ntc > 0;
    assert s == (s / ntc) * ntc + s % ntc;
  }

  /** Distinct elements of the input land at distinct indices. */
  lemma TiledIndexInjective(r1: nat, c1: nat, r2: nat, c2: nat, rows: nat, cols: nat)
    requires r1 < rows && c1 < cols && r2 < rows && c2 < cols
    requires TiledIndex(r1, c1, TilesFor(cols)) == TiledIndex(r2, c2, TilesFor(cols))
    ensures r1 == r2 && c1 == c2
  {
    var ntc := TilesFor(cols);
    TiledIndexIsCell(r1, c1, rows, cols);
    TiledIndexIsCell(r2, c2, rows, cols);
    TileCellInjective(TileOf(r1 / TILE_DIM, c1 / TILE_DIM, ntc), r1 % TILE_DIM, c1 % TILE_DIM,
                      TileOf(r2 / TILE_DIM, c2 / TILE_DIM, ntc), r2 % TILE_DIM, c2 % TILE_DIM);
    TileOfInjective(r1 / TILE_DIM, c1 / TILE_DIM, r2 / TILE_DIM, c2 / TILE_DIM, ntc);
  }

  /** A tile number below `ntr * ntc` lies in a tile row below `ntr`. */
  lemma TileRowBound(tr: nat, tc: nat, ntr: nat, ntc: nat)
    requires TileOf(tr, tc, ntc) < ntr * ntc
    ensures tr < ntr
  {
    if ntr <= tr {
      MulMonotone(ntr, tr, ntc);
    }
  }

  /**
    Every entry of a tilized buffer is accounted for: entry `i`, in tile
    `(tr, tc)` (`TileOfOnto` gives them: `i / 1024 / ntc` and `i / 1024 % ntc`),
    is cell `(FacedRow(i % 1024), FacedCol(i % 1024))` of that tile and holds
    the cell's input element, or `pad` when the cell lies outside the input.
  */
  lemma TilizedEntry<T>(out: seq<T>, input: seq<T>, rows: nat, cols: nat, pad: T, i: nat, tr: nat, tc: nat)
    requires rows * cols <= |input| && Tilized(out, input, rows, cols, pad)
    requires i < |out| && tc < TilesFor(cols) && TileOf(tr, tc, TilesFor(cols)) == i / TILE_SIZE
    ensures tr < TilesFor(rows)
    ensures out[i] == TileSource(input, rows, cols, pad, tr, tc, FacedRow(i % TILE_SIZE), FacedCol(i % TILE_SIZE))
  {
    TileRowBound(tr, tc, TilesFor(rows), TilesFor(cols));
    TileCellOnto(i);
    TilizedCell(out, input, rows, cols, pad, tr, tc, FacedRow(i % TILE_SIZE), FacedCol(i % TILE_SIZE));
  }

  /** One cell of a tilized buffer. */
  lemma TilizedCell<T>(out: seq<T>, input: seq<T>, rows: nat, cols: nat, pad: T, tr: nat, tc: nat, r: nat, c: nat)
    requires rows * cols <= |input| && Tilized(out, input, rows, cols, pad)
    requires tr < TilesFor(rows) && tc < TilesFor(cols) && r < TILE_DIM && c < TILE_DIM
    ensures TileCell(TileOf(tr, tc, TilesFor(cols)), r, c) < |out|
    ensures out[TileCell(TileOf(tr, tc, TilesFor(cols)), r, c)] == TileSource(input, rows, cols, pad, tr, tc, r, c)
  {
    TileInRange(tr, tc, TilesFor(rows), TilesFor(cols));
    TileCellInTile(TileOf(tr, tc, TilesFor(cols)), r, c);
  }

  /** The input as `rows` rows of `cols` elements. */
  function InputRows<T>(input: seq<T>, rows: nat, cols: nat): (m: seq<seq<T>>)
    requires rows * cols <= |input|
    ensures |m| == rows && forall r :: 0 <= r < rows ==> |m[r]| == cols
  {
    seq(rows, r requires 0 <= r < rows => RowSlice(input, rows, cols, r))
  }

  /** Row `r` of the input, `input[r * cols .. r * cols + cols]`. */
  function RowSlice<T>(input: seq<T>, rows: nat, cols: nat, r: nat): (row: seq<T>)
    requires rows * cols <= |input| && r < rows
    ensures |row| == cols && r * cols + cols <= |input|
    ensures forall c :: 0 <= c < cols ==> row[c] == input[r * cols + c]
  {
    MulMonotone(r + 1, rows, cols);
    input[r * cols .. r * cols + cols]
  }

  /** Reading a tilized buffer back, row by row, through `TiledIndex`. */
  function Untilize<T>(out: seq<T>, rows: nat, cols: nat): (m: seq<seq<T>>)
    requires |out| == TilesFor(rows) * TilesFor(cols) * TILE_SIZE
    ensures |m| == rows && forall r :: 0 <= r < rows ==> |m[r]| == cols
  {
    seq(rows, r requires 0 <= r < rows => UntilizeRow(out, rows, cols, r))
  }

  /** Row `r` read back from a tilized buffer. */
  function UntilizeRow<T>(out: seq<T>, rows: nat, cols: nat, r: nat): (row: seq<T>)
    requires |out| == TilesFor(rows) * TilesFor(cols) * TILE_SIZE && r < rows
    ensures |row| == cols
  {
    seq(cols, c requires 0 <= c < cols => TiledIndexIsCell(r, c, rows, cols); out[TiledIndex(r, c, TilesFor(cols))])
  }

  /** Tilizing then reading back through the same mapping gives the input exactly. */
  lemma TilizeRoundTrip<T>(out: seq<T>, input: seq<T>, rows: nat, cols: nat, pad: T)
    requires rows * cols <= |input| && Tilized(out, input, rows, cols, pad)
    ensures Untilize(out, rows, cols) == InputRows(input, rows, cols)
  {
    forall r | 0 <= r < rows
      ensures Untilize(out, rows, cols)[r] == InputRows(input, rows, cols)[r]
    {
      forall c | 0 <= c < cols
        ensures UntilizeRow(out, rows, cols, r)[c] == RowSlice(input, rows, cols, r)[c]
      {
        TiledIndexIsCell(r, c, rows, cols);
        TilizePlacement(out, input, rows, cols, pad, r, c);
      }
    }
  }

  // ---------------------------------------------------------------------------
  // Launch sizing

  /** The hardware path of the launch; the host calls it with `FPU`. */
  datatype EllpackHwImpl = None | FPU | SFPU

  /** Floats in one 1024-byte vector page: one vector chunk. */
  const VEC_ENTRIES_PER_CHUNK: nat := 256
  /** Row tiles of 32 results covered by one vector chunk. */
  const VEC_TILE_H_PER_CHUNK: nat := 8

  /** The sizes `tt_launch_ellpack_matVecOp` derives before splitting the work. */
  datatype LaunchSize = LaunchSize(diagWb: bool, ellTiles: nat, vecChunks: nat, batchSize: nat, batches: nat)

  /**
    `ell_tiles_total`, `vec_chunks_total`, `batch_size` and `batches_total`
    for `cellCount` rows: each a rounded-up quotient. The vector chunks are
    the 256-entry pages that hold `cellCount` results, and the diagonal
    write-back (4 tiles per batch) is chosen exactly for the FPU path.
  */
  function Sizing(cellCount: nat, hw: EllpackHwImpl): (s: LaunchSize)
    ensures s.diagWb <==> hw == FPU
    ensures s.batchSize == (if hw == FPU then 4 else 8)
    ensures cellCount <= s.ellTiles * TILE_DIM && (s.ellTiles - 1) * TILE_DIM < cellCount
    ensures cellCount <= s.vecChunks * VEC_ENTRIES_PER_CHUNK && (s.vecChunks - 1) * VEC_ENTRIES_PER_CHUNK < cellCount
    ensures s.ellTiles <= s.batches * s.batchSize && (s.batches - 1) * s.batchSize < s.ellTiles
  {
    var diagWb := hw == FPU;
    var ellTiles := CeilDiv(cellCount, TILE_DIM);
    var vecChunks := CeilDiv(ellTiles, VEC_TILE_H_PER_CHUNK);
    var batchSize := if diagWb then 4 else 8;
    NestedCeil(cellCount);
    LaunchSize(diagWb, ellTiles, vecChunks, batchSize, CeilDiv(ellTiles, batchSize))
  }

  /** Rounding up to tiles, then to 8 tiles, is rounding up to 256 entries. */
  lemma NestedCeil(n: nat)
    ensures CeilDiv(CeilDiv(n, TILE_DIM), VEC_TILE_H_PER_CHUNK) == CeilDiv(n, VEC_ENTRIES_PER_CHUNK)
  {
    var a := CeilDiv(n, TILE_DIM);
    var b := CeilDiv(a, VEC_TILE_H_PER_CHUNK);
    CeilDivUnique(n, VEC_ENTRIES_PER_CHUNK, b);
  }

  // ---------------------------------------------------------------------------
  // Device buffer round-up

  /** `TileSize(Float32)` and `TileSize(UInt32)`: one 32x32 tile of 4-byte words. */
  const TILE_BYTES: nat := 4096
  /** `PAGE_SIZE`, the page of the interleaved vector buffers. */
  const PAGE_SIZE: nat := 1024

  /** The `size` and `page_size` a device buffer is created with. */
  datatype BufferConfig = BufferConfig(size: nat, pageSize: nat)

  /**
    A buffer of `size` bytes over pages of `page` bytes: a larger buffer is
    rounded up to whole pages, a smaller one is a single page of its own size.
  */
  function DeviceBuffer(size: nat, page: nat): (b: BufferConfig)
    requires page > 0
    ensures size <= b.size < size + page
    ensures b.pageSize <= page && (b.pageSize == 0 <==> size == 0)
    ensures b.pageSize > 0 ==> b.size % b.pageSize == 0
    ensures size > page ==> b.pageSize == page
  {
    if size > page then
      var q := CeilDiv(size, page);
      MulMod(q, page);
      BufferConfig(q * page, page)
    else
      BufferConfig(size, size)
  }

  /** A tilized buffer of `nt` tiles is created with one page per tile and no slack. */
  lemma TiledBufferPages(nt: nat)
    requires nt > 0
    ensures DeviceBuffer(nt * TILE_SIZE * 4, TILE_BYTES) == BufferConfig(nt * TILE_BYTES, TILE_BYTES)
  {
    if nt > 1 {
      CeilDivUnique(nt * TILE_SIZE * 4, TILE_BYTES, nt);
    }
  }

  /**
    A vector of `n > 256` floats is created with one 1024-byte page per
    vector chunk: as many pages as `vec_chunks_total` for `n` rows.
  */
  lemma VectorPagesAreChunks(n: nat, hw: EllpackHwImpl)
    requires n > VEC_ENTRIES_PER_CHUNK
    ensures DeviceBuffer(4 * n, PAGE_SIZE) == BufferConfig(Sizing(n, hw).vecChunks * PAGE_SIZE, PAGE_SIZE)
  {
    var c := Sizing(n, hw).vecChunks;
    CeilDivUnique(4 * n, PAGE_SIZE, c);
  }

  // ---------------------------------------------------------------------------
  // Column ranges: row_tile_min_max and the per-core reduction

  /** A (least column, greatest column) pair. */
  datatype ColRange = ColRange(lo: Addr, hi: Addr)

  /** The range of no row at all: `(UINT32_MAX, 0)`. */
  const EMPTY_RANGE: ColRange := ColRange(SENTINEL, 0)

  /** Widen `acc` by `next` with the strict comparisons of the source loops. */
  function Widen(acc: ColRange, next: ColRange): ColRange
  {
    ColRange(if next.lo < acc.lo then next.lo else acc.lo, if next.hi > acc.hi then next.hi else acc.hi)
  }

  /** The running `(min, max)` after visiting the ranges of `w` from left to right. */
  function SpanOf(w: seq<ColRange>): ColRange
  {
    if |w| == 0 then EMPTY_RANGE else Widen(SpanOf(w[..|w| - 1]), w[|w| - 1])
  }

  /** The span bounds every range it visited: its low end is below each low end, its high end above each high end. */
  lemma {:induction false} SpanBounds(w: seq<ColRange>)
    ensures forall i :: 0 <= i < |w| ==> SpanOf(w).lo <= w[i].lo && w[i].hi <= SpanOf(w).hi
  {
    if |w| > 0 {
      SpanBounds(w[..|w| - 1]);
    }
  }

  /** A span over some ranges takes its ends from them; over none it is `(UINT32_MAX, 0)`. */
  lemma {:induction false} SpanAttained(w: seq<ColRange>)
    ensures |w| == 0 ==> SpanOf(w) == EMPTY_RANGE
    ensures |w| > 0 ==> exists i :: 0 <= i < |w| && SpanOf(w).lo == w[i].lo
    ensures |w| > 0 ==> exists j :: 0 <= j < |w| && SpanOf(w).hi == w[j].hi
  {
    if |w| > 1 {
      var w' := w[..|w| - 1];
      SpanAttained(w');
      var i :| 0 <= i < |w'| && SpanOf(w').lo == w'[i].lo;
      var j :| 0 <= j < |w'| && SpanOf(w').hi == w'[j].hi;
      if SpanOf(w).lo != w[|w| - 1].lo {
        assert SpanOf(w).lo == w[i].lo;
      }
      if SpanOf(w).hi != w[|w| - 1].hi {
        assert SpanOf(w).hi == w[j].hi;
      }
    } else if |w| == 1 {
      assert SpanOf(w).lo == w[0].lo && SpanOf(w).hi == w[0].hi;
    }
  }

  /** The rows `tr * 32 ..` of tile row `tr` that exist among `nrow` rows. */
  function TileRows(tr: nat, nrow: nat): (bounds: (nat, nat))
    ensures bounds.0 <= bounds.1 <= nrow && bounds.1 - bounds.0 <= TILE_DIM
    ensures bounds.0 < bounds.1 <==> tr * TILE_DIM < nrow
    ensures bounds.0 < bounds.1 ==> bounds.0 == tr * TILE_DIM
  {
    var first := if tr * TILE_DIM < nrow then tr * TILE_DIM else nrow;
    (first, if first + TILE_DIM < nrow then first + TILE_DIM else nrow)
  }

  /** The per-row ranges `(row_min_cols[g], row_max_cols[g])` of rows `lo .. hi`. */
  function RowRanges(rowMin: seq<Addr>, rowMax: seq<Addr>, lo: nat, hi: nat): (w: seq<ColRange>)
    requires lo <= hi <= |rowMin| && hi <= |rowMax|
    ensures |w| == hi - lo
    ensures forall k :: 0 <= k < |w| ==> w[k] == ColRange(rowMin[lo + k], rowMax[lo + k])
  {
    seq(hi - lo, k requires 0 <= k < hi - lo => ColRange(rowMin[lo + k], rowMax[lo + k]))
  }

  /** What `row_tile_min_max[tr]` holds: the span of the rows of tile row `tr`. */
  function TileSpan(rowMin: seq<Addr>, rowMax: seq<Addr>, nrow: nat, tr: nat): ColRange
    requires nrow <= |rowMin| && nrow <= |rowMax|
  {
    var b := TileRows(tr, nrow);
    SpanOf(RowRanges(rowMin, rowMax, b.0, b.1))
  }

  /**
    The `row_tile_min_max` reduction: for each of the `ceil(nrow / 32)` row
    tiles, the least `row_min_cols` and the greatest `row_max_cols` of its
    rows, stopping at the last row.
  */
  method RowTileMinMax(rowMin: seq<Addr>, rowMax: seq<Addr>, nrow: nat) returns (mm: seq<ColRange>)
    requires nrow <= |rowMin| && nrow <= |rowMax|
    ensures |mm| == CeilDiv(nrow, TILE_DIM)
    ensures forall tr :: 0 <= tr < |mm| ==> mm[tr] == TileSpan(rowMin, rowMax, nrow, tr)
  {
    var numTiles := (nrow + 31) / 32;
    assert numTiles == CeilDiv(nrow, TILE_DIM);
    var out := new ColRange[numTiles](_ => EMPTY_RANGE);
    for tr := 0 to numTiles
      invariant forall t :: 0 <= t < tr ==> out[t] == TileSpan(rowMin, rowMax, nrow, t)
    {
      var span := TileRowSpan(rowMin, rowMax, nrow, tr);
      out[tr] := span;
    }
    mm := out[..];
  }

  /** The body of the `row_tile_min_max` loop for one tile row `tr`: the running minimum and maximum over its rows. */
  method TileRowSpan(rowMin: seq<Addr>, rowMax: seq<Addr>, nrow: nat, tr: nat) returns (span: ColRange)
    requires nrow <= |rowMin| && nrow <= |rowMax|
    ensures span == TileSpan(rowMin, rowMax, nrow, tr)
  {
    var minVal: Addr := SENTINEL;
    var maxVal: Addr := 0;
    var r := 0;
    while r < TILE_DIM
      invariant r <= TILE_DIM && (r == 0 || tr * TILE_DIM + r <= nrow)
      invariant ColRange(minVal, maxVal) == SpanOf(RowRanges(rowMin, rowMax, TileRows(tr, nrow).0, TileRows(tr, nrow).0 + r))
    {
      var globalR := tr * TILE_DIM + r;
      if globalR >= nrow {
        break;
      }
      assert RowRanges(rowMin, rowMax, globalR - r, globalR + 1)[..r] == RowRanges(rowMin, rowMax, globalR - r, globalR);
      var rowMinV := rowMin[globalR];
      var rowMaxV := rowMax[globalR];
      if rowMinV < minVal {
        minVal := rowMinV;
      }
      if rowMaxV > maxVal {
        maxVal := rowMaxV;
      }
      r := r + 1;
    }
    assert TileRows(tr, nrow).0 + r == TileRows(tr, nrow).1;
    span := ColRange(minVal, maxVal);
  }

  /**
    Every row of tile row `tr` has its columns inside `row_tile_min_max[tr]`,
    whose ends are those of some row; a tile row past the last row gets
    `(UINT32_MAX, 0)`.
  */
  lemma TileSpanBounds(rowMin: seq<Addr>, rowMax: seq<Addr>, nrow: nat, tr: nat)
    requires nrow <= |rowMin| && nrow <= |rowMax|
    ensures forall g :: tr * TILE_DIM <= g < tr * TILE_DIM + TILE_DIM && g < nrow ==>
      TileSpan(rowMin, rowMax, nrow, tr).lo <= rowMin[g] && rowMax[g] <= TileSpan(rowMin, rowMax, nrow, tr).hi
    ensures tr * TILE_DIM >= nrow ==> TileSpan(rowMin, rowMax, nrow, tr) == EMPTY_RANGE
    ensures tr * TILE_DIM < nrow ==>
      (exists g :: tr * TILE_DIM <= g < nrow && TileSpan(rowMin, rowMax, nrow, tr).lo == rowMin[g]) &&
      (exists g :: tr * TILE_DIM <= g < nrow && TileSpan(rowMin, rowMax, nrow, tr).hi == rowMax[g])
  {
    var b := TileRows(tr, nrow);
    var w := RowRanges(rowMin, rowMax, b.0, b.1);
    SpanBounds(w);
    SpanAttained(w);
    forall g | tr * TILE_DIM <= g < tr * TILE_DIM + TILE_DIM && g < nrow
      ensures TileSpan(rowMin, rowMax, nrow, tr).lo <= rowMin[g] && rowMax[g] <= TileSpan(rowMin, rowMax, nrow, tr).hi
    {
      assert w[g - b.0] == ColRange(rowMin[g], rowMax[g]);
    }
    if tr * TILE_DIM < nrow {
      var i :| 0 <= i < |w| && SpanOf(w).lo == w[i].lo;
      var j :| 0 <= j < |w| && SpanOf(w).hi == w[j].hi;
      assert rowMin[b.0 + i] == SpanOf(w).lo;
      assert rowMax[b.0 + j] == SpanOf(w).hi;
    }
  }

  // ---------------------------------------------------------------------------
  // Per-core split of the batches, with the vector chunks each core reads

  /** `count` consecutive matrix tiles from tile `start`. */
  datatype TileRange = TileRange(start: nat, count: nat)

  /**
    The tiles of a core with `units` batches from batch `startBatch`:
    `units * batch_size` tiles from `start_batch * batch_size`, cut back to
    `end_tile - start_tile` when they would run past `end_tile`. That
    difference is unsigned 32-bit: it wraps when the core starts past
    `end_tile`.
  */
  function CoreTiles(startBatch: nat, units: nat, batchSize: nat, endTile: nat): (t: TileRange)
    ensures t.start == startBatch * batchSize
    ensures t.start <= endTile ==> t.start + t.count <= endTile && t.count <= units * batchSize
    ensures t.start + units * batchSize <= endTile ==> t.count == units * batchSize
    ensures endTile < t.start <= endTile + 0x1_0000_0000 ==> t.count == endTile + 0x1_0000_0000 - t.start
  {
    var tiles := units * batchSize;
    var startTile := startBatch * batchSize;
    if startTile + tiles > endTile then TileRange(startTile, Wrap32(endTile - startTile)) else TileRange(startTile, tiles)
  }

  /**
    The entries of `row_tile_min_max` that the first `n` rounds of a core's
    tile loop find: round `t` looks at `tile_idx = start_tile + t`, an
    unsigned 32-bit sum, and reads the entry only when that index is below
    the table's size.
  */
  function WindowUpTo(mm: seq<ColRange>, start: nat, n: nat): (w: seq<ColRange>)
    ensures |w| <= n
  {
    if n == 0 then []
    else
      var i := Wrap32(start + n - 1);
      WindowUpTo(mm, start, n - 1) + (if i < |mm| then [mm[i]] else [])
  }

  /** The entries of `row_tile_min_max` a core's whole tile loop finds. */
  function Window(mm: seq<ColRange>, r: TileRange): (w: seq<ColRange>)
    ensures |w| <= r.count
  {
    WindowUpTo(mm, r.start, r.count)
  }

  /** Without wrap-around the loop finds the entries of its tiles that exist, in order. */
  lemma {:induction false} WindowNoWrap(mm: seq<ColRange>, start: nat, n: nat)
    requires start + n <= 0x1_0000_0000
    ensures Min(start, |mm|) <= Min(start + n, |mm|)
    ensures WindowUpTo(mm, start, n) == mm[Min(start, |mm|) .. Min(start + n, |mm|)]
  {
    if n > 0 {
      WindowNoWrap(mm, start, n - 1);
      var i := start + n - 1;
      assert Wrap32(i) == i;
      if i < |mm| {
        assert mm[start .. start + n] == mm[start .. i] + [mm[i]];
      }
    }
  }

  /** Every existing entry whose wrapped index a round visits is found. */
  lemma {:induction false} WindowHas(mm: seq<ColRange>, start: nat, n: nat, t: nat)
    requires t < n && Wrap32(start + t) < |mm|
    ensures mm[Wrap32(start + t)] in WindowUpTo(mm, start, n)
  {
    var prev := WindowUpTo(mm, start, n - 1);
    var i := Wrap32(start + n - 1);
    assert WindowUpTo(mm, start, n) == prev + (if i < |mm| then [mm[i]] else []);
    if t < n - 1 {
      WindowHas(mm, start, n - 1, t);
      assert mm[Wrap32(start + t)] in prev;
    } else {
      assert i == Wrap32(start + t);
    }
  }

  /** Rounds whose wrapped index lies past the table find nothing. */
  lemma {:induction false} WindowPastTable(mm: seq<ColRange>, start: nat, n: nat)
    requires |mm| <= start && start + n <= 0x1_0000_0000
    ensures WindowUpTo(mm, start, n) == []
  {
    if n > 0 {
      WindowPastTable(mm, start, n - 1);
      assert Wrap32(start + n - 1) == start + n - 1;
    }
  }

  /** Rounds that have wrapped past 2^32 find the table from entry 0. */
  lemma {:induction false} WindowAfterWrap(mm: seq<ColRange>, start: nat, j: nat)
    requires |mm| <= start < 0x1_0000_0000 && j < 0x1_0000_0000
    ensures WindowUpTo(mm, start, 0x1_0000_0000 - start + j) == mm[.. Min(j, |mm|)]
  {
    if j == 0 {
      WindowPastTable(mm, start, 0x1_0000_0000 - start);
    } else {
      WindowAfterWrap(mm, start, j - 1);
      assert Wrap32(start + (0x1_0000_0000 - start + j) - 1) == j - 1;
      if j - 1 < |mm| {
        assert mm[.. j] == mm[.. j - 1] + [mm[j - 1]];
      }
    }
  }

  /**
    A core that starts past `end_tile` wraps its tile count and, through
    the wrapping `tile_idx`, visits the table from entry 0 to `end_tile`:
    when the table has no more than `end_tile` entries, its span is that of
    the whole table and it reads every chunk that the matrix needs.
  */
  lemma WrappedCoreSeesAll(startBatch: nat, units: nat, batchSize: nat, endTile: nat, mm: seq<ColRange>)
    requires endTile < startBatch * batchSize < 0x1_0000_0000 && |mm| <= endTile
    ensures Window(mm, CoreTiles(startBatch, units, batchSize, endTile)) == mm
    ensures CoreArgsFor(startBatch, units, batchSize, endTile, mm).chunks == ChunkRange(SpanOf(mm))
  {
    var r := CoreTiles(startBatch, units, batchSize, endTile);
    assert r.count == 0x1_0000_0000 - r.start + endTile;
    WindowAfterWrap(mm, r.start, endTile);
    assert Min(endTile, |mm|) == |mm| && mm[.. |mm|] == mm;
    assert Window(mm, r) == mm;
  }

  /** One more round of the tile loop widens the span by the entry it finds, if any. */
  lemma WindowSpanStep(mm: seq<ColRange>, start: nat, t: nat)
    ensures SpanOf(WindowUpTo(mm, start, t + 1)) ==
      if Wrap32(start + t) < |mm| then Widen(SpanOf(WindowUpTo(mm, start, t)), mm[Wrap32(start + t)])
      else SpanOf(WindowUpTo(mm, start, t))
  {
    var w := WindowUpTo(mm, start, t);
    if Wrap32(start + t) < |mm| {
      assert (w + [mm[Wrap32(start + t)]])[..|w|] == w;
    } else {
      assert WindowUpTo(mm, start, t + 1) == w;
    }
  }

  /**
    The `min_col` / `max_col` loop of the per-core body: over `t < tiles`,
    the entries `row_tile_min_max[start_tile + t]` that exist, with the
    index summed in unsigned 32-bit arithmetic, are folded with strict
    comparisons from `(UINT32_MAX, 0)`.
  */
  method CoreColSpan(mm: seq<ColRange>, r: TileRange) returns (span: ColRange)
    ensures span == SpanOf(Window(mm, r))
  {
    var minCol: Addr := SENTINEL;
    var maxCol: Addr := 0;
    for t := 0 to r.count
      invariant ColRange(minCol, maxCol) == SpanOf(WindowUpTo(mm, r.start, t))
    {
      var tileIdx := Wrap32(r.start + t);
      WindowSpanStep(mm, r.start, t);
      if tileIdx < |mm| {
        var tMin := mm[tileIdx].lo;
        var tMax := mm[tileIdx].hi;
        if tMin < minCol {
          minCol := tMin;
        }
        if tMax > maxCol {
          maxCol := tMax;
        }
      }
    }
    span := ColRange(minCol, maxCol);
  }

  /** `start_chunk` and `num_chunks`: the 256-entry vector chunks a core reads. */
  datatype ChunkSpan = ChunkSpan(start: nat, count: nat)

  /**
    The chunks from the one holding `min_col` to the one holding `max_col`;
    none when no tile of the core had a column. The chunks are exactly
    those that meet `[min_col, max_col]`.
  */
  function ChunkRange(span: ColRange): (c: ChunkSpan)
    ensures span.lo <= span.hi ==> c.count >= 1
    ensures span.lo <= span.hi ==> c.start * VEC_ENTRIES_PER_CHUNK <= span.lo < (c.start + 1) * VEC_ENTRIES_PER_CHUNK
    ensures span.lo <= span.hi ==> (c.start + c.count - 1) * VEC_ENTRIES_PER_CHUNK <= span.hi < (c.start + c.count) * VEC_ENTRIES_PER_CHUNK
    ensures span.hi < span.lo ==> c == ChunkSpan(0, 0)
  {
    if span.lo <= span.hi then
      var startChunk := span.lo / VEC_ENTRIES_PER_CHUNK;
      var endChunk := span.hi / VEC_ENTRIES_PER_CHUNK;
      ChunkSpan(startChunk, endChunk - startChunk + 1)
    else
      ChunkSpan(0, 0)
  }

  /** The runtime arguments of one core: its batches, its tiles and its vector chunks. */
  datatype CoreArgs = CoreArgs(startBatch: nat, units: nat, tiles: TileRange, chunks: ChunkSpan)

  /** The arguments the per-core body computes for a core with `units` batches from `startBatch`. */
  function CoreArgsFor(startBatch: nat, units: nat, batchSize: nat, endTile: nat, mm: seq<ColRange>): CoreArgs
  {
    var t := CoreTiles(startBatch, units, batchSize, endTile);
    CoreArgs(startBatch, units, t, ChunkRange(SpanOf(Window(mm, t))))
  }

  /** The body of the per-core loop, up to the runtime arguments it sets. */
  method CoreLaunch(startBatch: nat, units: nat, batchSize: nat, endTile: nat, mm: seq<ColRange>) returns (a: CoreArgs)
    ensures a == CoreArgsFor(startBatch, units, batchSize, endTile, mm)
  {
    var tiles := units * batchSize;
    var startTile := startBatch * batchSize;
    if startTile + tiles > endTile {
      tiles := Wrap32(endTile - startTile);
    }
    assert TileRange(startTile, tiles) == CoreTiles(startBatch, units, batchSize, endTile);
    var span := CoreColSpan(mm, TileRange(startTile, tiles));
    var startChunk := 0;
    var numChunks := 0;
    if span.lo <= span.hi {
      startChunk := span.lo / VEC_ENTRIES_PER_CHUNK;
      var endChunk := span.hi / VEC_ENTRIES_PER_CHUNK;
      numChunks := endChunk - startChunk + 1;
    }
    assert ChunkSpan(startChunk, numChunks) == ChunkRange(span);
    a := CoreArgs(startBatch, units, TileRange(startTile, tiles), ChunkSpan(startChunk, numChunks));
  }

  /** `s[0] + ... + s[|s| - 1]`. */
  function Sum(s: seq<nat>): nat
  {
    if |s| == 0 then 0 else Sum(s[..|s| - 1]) + s[|s| - 1]
  }

  /** The launch arguments of the cores given `units[0]`, `units[1]`, ... batches, in core order. */
  function Launches(units: seq<nat>, batchSize: nat, endTile: nat, mm: seq<ColRange>): (args: seq<CoreArgs>)
    ensures |args| == |units|
  {
    if |units| == 0 then []
    else
      var n := |units| - 1;
      Launches(units[..n], batchSize, endTile, mm) + [CoreArgsFor(Sum(units[..n]), units[n], batchSize, endTile, mm)]
  }

  /** Core `i` starts at the sum of the units of the cores before it. */
  lemma {:induction false} LaunchesAt(units: seq<nat>, batchSize: nat, endTile: nat, mm: seq<ColRange>, i: nat)
    requires i < |units|
    ensures Launches(units, batchSize, endTile, mm)[i] == CoreArgsFor(Sum(units[..i]), units[i], batchSize, endTile, mm)
  {
    var n := |units| - 1;
    if i < n {
      LaunchesAt(units[..n], batchSize, endTile, mm, i);
      assert units[..n][..i] == units[..i];
    }
  }

  /**
    The per-core loop over the used cores, core `i` given `units[i]`
    batches: `start_batch` accumulates the units, so core `i` starts at the
    sum of the units before it.
  */
  method SplitWork(units: seq<nat>, batchSize: nat, endTile: nat, mm: seq<ColRange>) returns (args: seq<CoreArgs>)
    ensures |args| == |units|
    ensures forall i :: 0 <= i < |units| ==> args[i] == CoreArgsFor(Sum(units[..i]), units[i], batchSize, endTile, mm)
  {
    var startBatch := 0;
    args := [];
    for i := 0 to |units|
      invariant startBatch == Sum(units[..i]) && args == Launches(units[..i], batchSize, endTile, mm)
    {
      var a := CoreLaunch(startBatch, units[i], batchSize, endTile, mm);
      args := args + [a];
      assert units[..i + 1][..i] == units[..i];
      startBatch := startBatch + units[i];
    }
    assert units[..|units|] == units;
    forall i | 0 <= i < |units|
      ensures args[i] == CoreArgsFor(Sum(units[..i]), units[i], batchSize, endTile, mm)
    {
      LaunchesAt(units, batchSize, endTile, mm, i);
    }
  }

  /** The tiles of core `i` when core `k` is given `units[k]` batches. */
  function CoreRange(units: seq<nat>, batchSize: nat, endTile: nat, i: nat): TileRange
    requires i < |units|
  {
    CoreTiles(Sum(units[..i]), units[i], batchSize, endTile)
  }

  /** With every core given a batch, the units before the last `|s| - i` cores leave at least one batch per core. */
  lemma {:induction false} SumPrefixBound(s: seq<nat>, i: nat)
    requires i <= |s| && forall k :: 0 <= k < |s| ==> s[k] >= 1
    ensures Sum(s[..i]) + (|s| - i) <= Sum(s)
  {
    if i < |s| {
      var s' := s[..|s| - 1];
      SumPrefixBound(s', i);
      assert s'[..i] == s[..i];
    } else {
      assert s[..i] == s;
    }
  }

  /**
    When the cores share `batches_total = ceil(end_tile / batch_size)`
    batches, at least one each, core `i` gets a non-empty range starting
    where the batches before it end, and the last core's range ends at
    `end_tile`: no core is cut short but the last, and no count wraps.
  */
  lemma CoreRangeExact(units: seq<nat>, batchSize: nat, endTile: nat, i: nat)
    requires batchSize > 0 && endTile <= SENTINEL && forall k :: 0 <= k < |units| ==> units[k] >= 1
    requires Sum(units) == CeilDiv(endTile, batchSize)
    requires i < |units|
    ensures CoreRange(units, batchSize, endTile, i).start == Sum(units[..i]) * batchSize
    ensures CoreRange(units, batchSize, endTile, i).count > 0
    ensures CoreRange(units, batchSize, endTile, i).start + CoreRange(units, batchSize, endTile, i).count ==
      (if i + 1 < |units| then Sum(units[..i + 1]) * batchSize else endTile)
  {
    var total, sum, u := Sum(units), Sum(units[..i]), units[i];
    assert units[..i + 1][..i] == units[..i];
    SumPrefixBound(units, i + 1);
    if i + 1 == |units| {
      assert units[..i + 1] == units;
    }
    CoreTilesExact(sum, u, total, batchSize, endTile);
  }

  /**
    The arithmetic of `CoreRangeExact` for one core: `sum` batches before
    it, `u >= 1` of its own, `total` in all.
  */
  lemma CoreTilesExact(sum: nat, u: nat, total: nat, batchSize: nat, endTile: nat)
    requires batchSize > 0 && endTile <= SENTINEL && u >= 1 && sum + u <= total && total == CeilDiv(endTile, batchSize)
    ensures CoreTiles(sum, u, batchSize, endTile).count > 0
    ensures sum + u < total ==> CoreTiles(sum, u, batchSize, endTile).start + CoreTiles(sum, u, batchSize, endTile).count == (sum + u) * batchSize
    ensures sum + u == total ==> CoreTiles(sum, u, batchSize, endTile).start + CoreTiles(sum, u, batchSize, endTile).count == endTile
  {
    MulDistrib(sum, u, batchSize);
    MulDistrib(total - 1, 1, batchSize);
    MulMonotone(1, u, batchSize);
    if sum + u < total {
      MulMonotone(sum + u, total - 1, batchSize);
    } else {
      MulMonotone(sum, total - 1, batchSize);
    }
  }

  /** The ranges of consecutive cores meet: each starts where the previous ends, the first at tile 0. */
  lemma CoresConsecutive(units: seq<nat>, batchSize: nat, endTile: nat, i: nat)
    requires batchSize > 0 && endTile <= SENTINEL && forall k :: 0 <= k < |units| ==> units[k] >= 1
    requires Sum(units) == CeilDiv(endTile, batchSize)
    requires i < |units|
    ensures i == 0 ==> CoreRange(units, batchSize, endTile, i).start == 0
    ensures i + 1 < |units| ==>
      CoreRange(units, batchSize, endTile, i).start + CoreRange(units, batchSize, endTile, i).count ==
      CoreRange(units, batchSize, endTile, i + 1).start
  {
    CoreRangeExact(units, batchSize, endTile, i);
    if i + 1 < |units| {
      CoreRangeExact(units, batchSize, endTile, i + 1);
    }
  }

  /** Tile `t` is one of the tiles of range `r`. */
  predicate InRange(r: TileRange, t: nat)
  {
    r.start <= t < r.start + r.count
  }

  /** Sums of longer prefixes are not smaller. */
  lemma {:induction false} SumPrefixMono(s: seq<nat>, i: nat, j: nat)
    requires i <= j <= |s|
    ensures Sum(s[..i]) <= Sum(s[..j])
  {
    if i < j {
      SumPrefixMono(s, i, j - 1);
      assert s[..j][..j - 1] == s[..j - 1];
    }
  }

  /** A later core's range starts no earlier than an earlier core's range ends. */
  lemma CoresOrdered(units: seq<nat>, batchSize: nat, endTile: nat, i: nat, j: nat)
    requires batchSize > 0 && endTile <= SENTINEL && forall k :: 0 <= k < |units| ==> units[k] >= 1
    requires Sum(units) == CeilDiv(endTile, batchSize)
    requires i < j < |units|
    ensures CoreRange(units, batchSize, endTile, i).start + CoreRange(units, batchSize, endTile, i).count <=
      CoreRange(units, batchSize, endTile, j).start
  {
    CoreRangeExact(units, batchSize, endTile, i);
    CoreRangeExact(units, batchSize, endTile, j);
    SumPrefixMono(units, i + 1, j);
    MulMonotone(Sum(units[..i + 1]), Sum(units[..j]), batchSize);
  }

  /**
    The split covers the matrix tiles exactly once: every tile below
    `end_tile` lies in the range of one core, and of no other.
  */
  lemma TileOwnedOnce(units: seq<nat>, batchSize: nat, endTile: nat, t: nat)
    requires batchSize > 0 && endTile <= SENTINEL && forall k :: 0 <= k < |units| ==> units[k] >= 1
    requires Sum(units) == CeilDiv(endTile, batchSize)
    requires t < endTile
    ensures exists i :: 0 <= i < |units| && InRange(CoreRange(units, batchSize, endTile, i), t)
    ensures forall i, j ::
      (0 <= i < |units| && 0 <= j < |units| &&
       InRange(CoreRange(units, batchSize, endTile, i), t) && InRange(CoreRange(units, batchSize, endTile, j), t)) ==> i == j
  {
    CoreRangeExact(units, batchSize, endTile, 0);
    assert units[..0] == [];
    OwnerFrom(units, batchSize, endTile, t, 0);
    forall i, j | 0 <= i < |units| && 0 <= j < |units| &&
      InRange(CoreRange(units, batchSize, endTile, i), t) && InRange(CoreRange(units, batchSize, endTile, j), t)
      ensures i == j
    {
      if i < j {
        CoresOrdered(units, batchSize, endTile, i, j);
      } else if j < i {
        CoresOrdered(units, batchSize, endTile, j, i);
      }
    }
  }

  /** Searching from core `k`, whose range starts at or before `t`, finds the core that holds `t`. */
  lemma OwnerFrom(units: seq<nat>, batchSize: nat, endTile: nat, t: nat, k: nat)
    requires batchSize > 0 && endTile <= SENTINEL && forall k :: 0 <= k < |units| ==> units[k] >= 1
    requires Sum(units) == CeilDiv(endTile, batchSize)
    requires t < endTile && k < |units| && CoreRange(units, batchSize, endTile, k).start <= t
    ensures exists i :: k <= i < |units| && InRange(CoreRange(units, batchSize, endTile, i), t)
    decreases |units| - k
  {
    CoresConsecutive(units, batchSize, endTile, k);
    CoreRangeExact(units, batchSize, endTile, k);
    if !InRange(CoreRange(units, batchSize, endTile, k), t) {
      OwnerFrom(units, batchSize, endTile, t, k + 1);
    }
  }

  /**
    Chunk pruning keeps what a core needs: every column inside the range of
    one of its tiles lies in the vector chunks it is given.
  */
  lemma CoreChunksCover(startBatch: nat, units: nat, batchSize: nat, endTile: nat, mm: seq<ColRange>, idx: nat, col: nat)
    requires InRange(CoreTiles(startBatch, units, batchSize, endTile), idx) && idx < |mm| && idx <= SENTINEL
    requires mm[idx].lo <= col <= mm[idx].hi
    ensures CoreArgsFor(startBatch, units, batchSize, endTile, mm).chunks.start * VEC_ENTRIES_PER_CHUNK <= col
    ensures col < (CoreArgsFor(startBatch, units, batchSize, endTile, mm).chunks.start +
      CoreArgsFor(startBatch, units, batchSize, endTile, mm).chunks.count) * VEC_ENTRIES_PER_CHUNK
  {
    var t := CoreTiles(startBatch, units, batchSize, endTile);
    var w := Window(mm, t);
    assert Wrap32(t.start + (idx - t.start)) == idx;
    WindowHas(mm, t.start, t.count, idx - t.start);
    var k :| 0 <= k < |w| && w[k] == mm[idx];
    SpanBounds(w);
  }

  /**
    The reduction and the pruning together: when `row_min_cols[g]` and
    `row_max_cols[g]` bound the columns of row `g`, every column of every row
    of a core's tiles lies in the vector chunks that core reads.
  */
  lemma RowColumnsInCoreChunks(rowMin: seq<Addr>, rowMax: seq<Addr>, nrow: nat, mm: seq<ColRange>,
                               startBatch: nat, units: nat, batchSize: nat, endTile: nat, g: nat, col: nat)
    requires nrow <= |rowMin| && nrow <= |rowMax|
    requires |mm| == CeilDiv(nrow, TILE_DIM) && forall tr :: 0 <= tr < |mm| ==> mm[tr] == TileSpan(rowMin, rowMax, nrow, tr)
    requires g < nrow && InRange(CoreTiles(startBatch, units, batchSize, endTile), g / TILE_DIM) && g / TILE_DIM <= SENTINEL
    requires rowMin[g] <= col <= rowMax[g]
    ensures CoreArgsFor(startBatch, units, batchSize, endTile, mm).chunks.start * VEC_ENTRIES_PER_CHUNK <= col
    ensures col < (CoreArgsFor(startBatch, units, batchSize, endTile, mm).chunks.start +
      CoreArgsFor(startBatch, units, batchSize, endTile, mm).chunks.count) * VEC_ENTRIES_PER_CHUNK
  {
    var tr := g / TILE_DIM;
    assert tr * TILE_DIM <= g < tr * TILE_DIM + TILE_DIM;
    TileSpanBounds(rowMin, rowMax, nrow, tr);
    CoreChunksCover(startBatch, units, batchSize, endTile, mm, tr, col);
  }
}

