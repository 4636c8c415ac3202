/**
  The direct multiply-accumulate compute kernel: for each tile of a batch,
  row `idx` of the result is the dot product of the tile's data row with its
  collected row, taken along the faced layout and stopped at the row's first
  sentinel address. `MAIN` runs the batches one after the other, collecting
  each batch's vector entries with `unpacker_collect` before multiplying.
*/
module ComputeNaive {
  import opened Faced
  import opened ComputeParts
  import opened Arith
  import GenerateMatrix

  /** `sum_{k < n} dat[k] * vec[k]`, accumulated from `k = 0` upwards as the kernel does. */
  function Dot(dat: seq<real>, vec: seq<real>, n: nat): real
    requires n <= |dat| && n <= |vec|
  {
    if n == 0 then 0.0 else Dot(dat, vec, n - 1) + dat[n - 1] * vec[n - 1]
  }

  /** One more term of the dot product. */
  lemma DotStep(dat: seq<real>, vec: seq<real>, k: nat, a: real, b: real, sum: real)
    requires k < |dat| && k < |vec| && dat[k] == a && vec[k] == b && sum == Dot(dat, vec, k)
    ensures Dot(dat, vec, k + 1) == sum + a * b
  {
  }

  /** Both tiles of a computation and the address tile hold tile `tile` of their buffers. */
  predicate HasTile(dat: seq<real>, addr: seq<Addr>, collect: seq<real>, tile: nat)
  {
    (tile + 1) * TILE_SIZE <= |dat| && (tile + 1) * TILE_SIZE <= |addr| && (tile + 1) * TILE_SIZE <= |collect|
  }

  /**
    The value `compute_mat_mul` stores for row `idx` of tile `tile`: the dot
    product of the data row and the collected row over the columns before
    the row's first sentinel address.
  */
  function RowResult(dat: seq<real>, addr: seq<Addr>, collect: seq<real>, tile: nat, idx: nat): real
    requires idx < TILE_DIM && HasTile(dat, addr, collect, tile)
  {
    Dot(TileRow(dat, tile, idx), TileRow(collect, tile, idx), FirstSentinel(TileRow(addr, tile, idx)))
  }

  /**
    The `k` loop of `compute_mat_mul` for row `idx`: the three entry pointers
    start at the row's cell `(idx, 0)` and step by 1, or 241 after column 15;
    the loop stops at the first sentinel address. The sum it returns is the
    row's result.
  */
  method RowMatMul(dat: seq<real>, addr: seq<Addr>, collect: seq<real>, tile: nat, idx: nat, rowStart: nat)
    returns (sum: real)
    requires idx < TILE_DIM && rowStart == TileCell(tile, idx, 0)
    requires HasTile(dat, addr, collect, tile)
    ensures sum == RowResult(dat, addr, collect, tile, idx)
  {
    ghost var row := TileRow(addr, tile, idx);
    ghost var datRow := TileRow(dat, tile, idx);
    ghost var collectRow := TileRow(collect, tile, idx);
    FirstSentinelBefore(row);
    sum := 0.0;
    var entry := rowStart;
    var k := 0;
    while k < 32
      invariant k <= FirstSentinel(row)
      invariant k < 32 ==> entry == TileCell(tile, idx, k)
      invariant sum == Dot(datRow, collectRow, k)
    {
      TileCellInTile(tile, idx, k);
      var adr := addr[entry];
      if adr == SENTINEL {
        assert row[k] == SENTINEL;
        break;
      }
      var matIn := dat[entry];
      var vecIn := collect[entry];
      DotStep(datRow, collectRow, k, matIn, vecIn, sum);
      sum := sum + matIn * vecIn;
      if k == 15 {
        entry := entry + NEXT_FACE_COL_OFFSET;
      } else {
        entry := entry + 1;
      }
      if k + 1 < 32 {
        ColStepIsFaced(idx, k);
      }
      k := k + 1;
    }
  }

  /**
    `compute_mat_mul`: the row pointers start at cell `(0, 0)` of tile `tile`
    and step by 16, or 272 after row 15; the result of row `idx` is stored at
    `res[resBase + idx]`. Only those 32 entries of `res` change; the data,
    address and collected tiles are read only.
  */
  method ComputeMatMul(dat: seq<real>, addr: seq<Addr>, collect: seq<real>, tile: nat, res: array<real>, resBase: nat)
    requires HasTile(dat, addr, collect, tile)
    requires resBase + TILE_DIM <= res.Length
    modifies res
    ensures forall idx :: 0 <= idx < TILE_DIM ==> res[resBase + idx] == RowResult(dat, addr, collect, tile, idx)
    ensures forall j :: 0 <= j < res.Length && !(resBase <= j < resBase + TILE_DIM) ==> res[j] == old(res[j])
  {
    var rowStart := tile * TILE_SIZE;
    var idx := 0;
    while idx < 32
      invariant 0 <= idx <= 32
      invariant idx < 32 ==> rowStart == TileCell(tile, idx, 0)
      invariant forall i :: 0 <= i < idx ==> res[resBase + i] == RowResult(dat, addr, collect, tile, i)
      invariant forall j :: 0 <= j < res.Length && !(resBase <= j < resBase + idx) ==> res[j] == old(res[j])
    {
      var sum := RowMatMul(dat, addr, collect, tile, idx, rowStart);
      res[resBase + idx] := sum;
      if idx == 15 {
        rowStart := rowStart + NEXT_FACE_ROW_OFFSET;
      } else {
        rowStart := rowStart + NEXT_ROW_OFFSET;
      }
      if idx + 1 < 32 {
        RowStepIsFaced(idx);
        TileCellInTile(tile, idx, 0);
        TileCellInTile(tile, idx + 1, 0);
      }
      idx := idx + 1;
    }
  }

  // ---------------------------------------------------------------------------
  // What a row's result depends on

  /** Two pairs of rows that agree on their first `n` entries have the same dot product over them. */
  lemma {:induction false} DotAgrees(dat1: seq<real>, vec1: seq<real>, dat2: seq<real>, vec2: seq<real>, n: nat)
    requires n <= |dat1| && n <= |vec1| && n <= |dat2| && n <= |vec2|
    requires forall k :: 0 <= k < n ==> dat1[k] == dat2[k] && vec1[k] == vec2[k]
    ensures Dot(dat1, vec1, n) == Dot(dat2, vec2, n)
  {
    if n > 0 {
      DotAgrees(dat1, vec1, dat2, vec2, n - 1);
    }
  }

  /**
    Cells at or after a row's first sentinel are never read: data and
    collected tiles that agree on the row's cells before the sentinel give
    the same result.
  */
  lemma RowResultReadsBeforeSentinel(dat1: seq<real>, collect1: seq<real>, dat2: seq<real>, collect2: seq<real>,
                                     addr: seq<Addr>, tile: nat, idx: nat)
    requires idx < TILE_DIM && HasTile(dat1, addr, collect1, tile) && HasTile(dat2, addr, collect2, tile)
    requires forall c :: 0 <= c < FirstSentinel(TileRow(addr, tile, idx)) ==>
      dat1[TileCell(tile, idx, c)] == dat2[TileCell(tile, idx, c)] &&
      collect1[TileCell(tile, idx, c)] == collect2[TileCell(tile, idx, c)]
    ensures RowResult(dat1, addr, collect1, tile, idx) == RowResult(dat2, addr, collect2, tile, idx)
  {
    DotAgrees(TileRow(dat1, tile, idx), TileRow(collect1, tile, idx), TileRow(dat2, tile, idx), TileRow(collect2, tile, idx),
              FirstSentinel(TileRow(addr, tile, idx)));
  }

  /** A row whose first address is the sentinel yields 0. */
  lemma EmptyRowIsZero(dat: seq<real>, addr: seq<Addr>, collect: seq<real>, tile: nat, idx: nat)
    requires idx < TILE_DIM && HasTile(dat, addr, collect, tile)
    requires addr[TileCell(tile, idx, 0)] == SENTINEL
    ensures RowResult(dat, addr, collect, tile, idx) == 0.0
  {
    assert TileRow(addr, tile, idx)[0] == SENTINEL;
  }

  // ---------------------------------------------------------------------------
  // Agreement with the ELLPACK product

  /** Every cell from the row's first sentinel on is the sentinel too, as ELLPACK padding is. */
  predicate LeftAligned(row: seq<Addr>)
  {
    forall c :: FirstSentinel(row) <= c < |row| ==> row[c] == SENTINEL
  }

  /** Every address of the first `n` cells of a row is the sentinel or an index of `x`. */
  predicate AddressesIn(inds: seq<Addr>, x: seq<real>, n: nat)
  {
    n <= |inds| && forall j :: 0 <= j < n ==> inds[j] == SENTINEL || inds[j] < |x|
  }

  /**
    The ELLPACK row product over the first `n` cells, a sentinel cell
    contributing nothing: `sum_j vals[j] * x[inds[j]]`.
  */
  function EllSum(vals: seq<real>, inds: seq<Addr>, x: seq<real>, n: nat): real
    requires n <= |vals| && AddressesIn(inds, x, n)
  {
    if n == 0 then 0.0
    else if inds[n - 1] == SENTINEL then EllSum(vals, inds, x, n - 1)
    else EllSum(vals, inds, x, n - 1) + vals[n - 1] * x[inds[n - 1]]
  }

  /** Before the sentinel, a dot product with the collected row is the ELLPACK product. */
  lemma {:induction false} DotIsEllSum(vals: seq<real>, inds: seq<Addr>, collected: seq<real>, x: seq<real>, n: nat)
    requires n <= |vals| && n <= |collected| && AddressesIn(inds, x, n)
    requires forall j :: 0 <= j < n ==> inds[j] != SENTINEL && collected[j] == x[inds[j]]
    ensures Dot(vals, collected, n) == EllSum(vals, inds, x, n)
  {
    if n > 0 {
      DotIsEllSum(vals, inds, collected, x, n - 1);
    }
  }

  /** Sentinel cells from `from` to `n` leave the ELLPACK product unchanged. */
  lemma {:induction false} EllSumPadding(vals: seq<real>, inds: seq<Addr>, x: seq<real>, from: nat, n: nat)
    requires from <= n <= |vals| && AddressesIn(inds, x, n)
    requires forall j :: from <= j < n ==> inds[j] == SENTINEL
    ensures EllSum(vals, inds, x, n) == EllSum(vals, inds, x, from)
  {
    if from < n {
      EllSumPadding(vals, inds, x, from, n - 1);
    }
  }

  /**
    The kernel's result against the ELLPACK product of the row: when the row
    is left aligned and every cell before the sentinel has collected the
    vector entry of its address, the stored value is the row's product with
    `x` over all 32 cells.
  */
  lemma RowResultIsEllSum(dat: seq<real>, addr: seq<Addr>, collect: seq<real>, tile: nat, idx: nat, x: seq<real>)
    requires idx < TILE_DIM && HasTile(dat, addr, collect, tile)
    requires LeftAligned(TileRow(addr, tile, idx))
    requires forall c :: 0 <= c < FirstSentinel(TileRow(addr, tile, idx)) ==>
      addr[TileCell(tile, idx, c)] < |x| && collect[TileCell(tile, idx, c)] == x[addr[TileCell(tile, idx, c)]]
    ensures AddressesIn(TileRow(addr, tile, idx), x, TILE_DIM)
    ensures RowResult(dat, addr, collect, tile, idx) == EllSum(TileRow(dat, tile, idx), TileRow(addr, tile, idx), x, TILE_DIM)
  {
    var row := TileRow(addr, tile, idx);
    FirstSentinelBefore(row);
    DotIsEllSum(TileRow(dat, tile, idx), row, TileRow(collect, tile, idx), x, FirstSentinel(row));
    EllSumPadding(TileRow(dat, tile, idx), row, x, FirstSentinel(row), TILE_DIM);
  }

  /**
    Collecting then multiplying computes the sparse matrix-vector product: a
    row whose pre-sentinel addresses never decrease, lie in the chunks
    collected and are followed only by padding ends with the ELLPACK product
    of the row with `x`.
  */
  lemma CollectThenMultiply(dat: seq<real>, addr: seq<Addr>, init: seq<real>, collect: seq<real>, tile: nat, idx: nat,
                            x: seq<real>, vecChunks: nat, vpc: nat)
    requires idx < TILE_DIM && HasTile(dat, addr, collect, tile) && |init| == |collect|
    requires ChunkStart(vecChunks, vpc) <= |x|
    requires RowSorted(TileRow(addr, tile, idx)) && LeftAligned(TileRow(addr, tile, idx))
    requires forall c :: 0 <= c < FirstSentinel(TileRow(addr, tile, idx)) ==>
      addr[TileCell(tile, idx, c)] < ChunkStart(vecChunks, vpc)
    requires forall c :: 0 <= c < TILE_DIM ==>
      collect[TileCell(tile, idx, c)] ==
        CellAfter(TileRow(addr, tile, idx), c, init[TileCell(tile, idx, c)], x, vecChunks, vpc)
    ensures AddressesIn(TileRow(addr, tile, idx), x, TILE_DIM)
    ensures RowResult(dat, addr, collect, tile, idx) == EllSum(TileRow(dat, tile, idx), TileRow(addr, tile, idx), x, TILE_DIM)
  {
    var row := TileRow(addr, tile, idx);
    var initRow := TileRow(init, tile, idx);
    CollectComplete(row, initRow, x, vecChunks, vpc);
    RowResultIsEllSum(dat, addr, collect, tile, idx, x);
  }

  // ---------------------------------------------------------------------------
  // MAIN: the batch loop

  /** The first tile of batch `b`: each batch advances by `tiles_per_batch`, clamped to `num_tiles`. */
  function BatchStart(b: nat, tpb: nat, numTiles: nat): (tile: nat)
    ensures tile <= numTiles
    ensures tile < numTiles ==> tile == b * tpb
  {
    if b * tpb < numTiles then b * tpb else numTiles
  }

  /** `end_tile_in_batch = min(num_tiles, tile + tiles_per_batch)` is where the next batch starts. */
  lemma BatchEnd(b: nat, tpb: nat, numTiles: nat)
    ensures BatchStart(b + 1, tpb, numTiles) ==
      if BatchStart(b, tpb, numTiles) + tpb < numTiles then BatchStart(b, tpb, numTiles) + tpb else numTiles
  {
    assert (b + 1) * tpb == b * tpb + tpb;
  }

  /** Batches start in increasing order. */
  lemma BatchStartMonotone(b1: nat, b2: nat, tpb: nat, numTiles: nat)
    requires b1 <= b2
    ensures BatchStart(b1, tpb, numTiles) <= BatchStart(b2, tpb, numTiles)
  {
    assert b1 * tpb <= b2 * tpb by {
      MulMonotone(b1, b2, tpb);
    }
  }

  /** The result page of batch `b < batches` lies inside the `batches` pages. */
  lemma PageFits(b: nat, batches: nat, tpb: nat)
    requires b < batches
    ensures b * tpb * TILE_DIM + tpb * TILE_DIM <= batches * tpb * TILE_DIM
  {
    MulMonotone(b + 1, batches, tpb * TILE_DIM);
    assert (b + 1) * (tpb * TILE_DIM) == b * tpb * TILE_DIM + tpb * TILE_DIM;
    assert batches * (tpb * TILE_DIM) == batches * tpb * TILE_DIM;
  }

  /**
    Every tile `t < num_tiles` is processed by exactly one batch, batch
    `t / tiles_per_batch`, and the batches run in tile order; when
    `batches * tiles_per_batch >= num_tiles` the batches together cover all
    tiles.
  */
  lemma TileInOneBatch(t: nat, b: nat, tpb: nat, numTiles: nat)
    requires t < numTiles && tpb > 0
    ensures BatchStart(b, tpb, numTiles) <= t < BatchStart(b + 1, tpb, numTiles) <==> b == t / tpb
  {
    var q := t / tpb;
    assert q * tpb <= t < (q + 1) * tpb;
    if b < q {
      MulMonotone(b + 1, q, tpb);
    } else if b > q {
      MulMonotone(q + 1, b, tpb);
    }
  }

  /** Enough batches process every tile. */
  lemma BatchesCover(batches: nat, tpb: nat, numTiles: nat)
    requires batches * tpb >= numTiles
    ensures BatchStart(batches, tpb, numTiles) == numTiles
  {
  }

  /**
    One batch of `MAIN`: `unpacker_collect` for tiles `tile .. end_tile - 1`,
    then `compute_mat_mul` for each, with the tile pointers advancing by 1024
    and the result pointer by 32 from `wr`, which is `32 * tile` for a
    non-empty batch. It extends `TilesComputed` from `tile` to `end_tile`,
    changes no collected cell of a later tile and no later result entry.
  */
  method ComputeBatch(dat: seq<real>, addr: seq<Addr>, collect: array<real>, x: seq<real>, vecChunks: nat, vpc: nat,
                      tile: nat, endTile: nat, res: array<real>, wr: nat, ghost orig: seq<real>)
    requires collect != res
    requires tile <= endTile && endTile - tile <= 8
    requires endTile * TILE_SIZE <= |dat| && endTile * TILE_SIZE <= |addr| && endTile * TILE_SIZE <= collect.Length
    requires vecChunks * vpc <= |x|
    requires wr + (endTile - tile) * TILE_DIM <= res.Length && (tile < endTile ==> wr == tile * TILE_DIM)
    requires TilesComputed(dat, addr, collect[..], orig, res[..], x, vecChunks, vpc, tile)
    requires forall j :: tile * TILE_SIZE <= j < collect.Length ==> collect[j] == orig[j]
    modifies collect, res
    ensures TilesComputed(dat, addr, collect[..], orig, res[..], x, vecChunks, vpc, endTile)
    ensures forall j :: endTile * TILE_SIZE <= j < collect.Length ==> collect[j] == orig[j]
    ensures forall j :: endTile * TILE_DIM <= j < res.Length ==> res[j] == old(res[j])
  {
    ghost var before := collect[..];
    ghost var resBefore := res[..];
    UnpackerCollect(addr, collect, tile, x, vecChunks, vpc, tile, endTile);
    MultiplyTiles(dat, addr, collect[..], tile, endTile, res, wr);
    BatchCellsStep(addr, before, collect[..], orig, x, vecChunks, vpc, tile, endTile);
    BatchResultsStep(dat, addr, before, collect[..], resBefore, res[..], tile, endTile, wr);
  }

  /**
    The `for (; tile < end_tile_in_batch; ++tile)` loop of `MAIN`: tile `t`'s
    32 results go to `wr + 32 * (t - tile)`.
  */
  method MultiplyTiles(dat: seq<real>, addr: seq<Addr>, collect: seq<real>, tile: nat, endTile: nat, res: array<real>, wr: nat)
    requires tile <= endTile
    requires endTile * TILE_SIZE <= |dat| && endTile * TILE_SIZE <= |addr| && endTile * TILE_SIZE <= |collect|
    requires wr + (endTile - tile) * TILE_DIM <= res.Length
    modifies res
    ensures forall t, idx :: tile <= t < endTile && 0 <= idx < TILE_DIM ==>
      res[wr + (t - tile) * TILE_DIM + idx] == RowResult(dat, addr, collect, t, idx)
    ensures forall j :: 0 <= j < res.Length && !(wr <= j < wr + (endTile - tile) * TILE_DIM) ==> res[j] == old(res[j])
  {
    var t := tile;
    var w := wr;
    while t < endTile
      invariant tile <= t <= endTile && w == wr + (t - tile) * TILE_DIM
      invariant forall s, idx :: tile <= s < t && 0 <= idx < TILE_DIM ==>
        res[wr + (s - tile) * TILE_DIM + idx] == RowResult(dat, addr, collect, s, idx)
      invariant forall j :: 0 <= j < res.Length && !(wr <= j < w) ==> res[j] == old(res[j])
    {
      ComputeMatMul(dat, addr, collect, t, res, w);
      t := t + 1;
      w := w + TILE_DIM;
    }
  }

  /**
    The state after the batches that cover tiles `0 .. done - 1`: each of
    their collected cells is as `unpacker_collect` leaves it when started from
    `orig`, and row `idx` of tile `t` has its result at `res[32 * t + idx]`.
  */
  ghost predicate TilesComputed(dat: seq<real>, addr: seq<Addr>, collect: seq<real>, orig: seq<real>, res: seq<real>,
                                x: seq<real>, vecChunks: nat, vpc: nat, done: nat)
  {
    CellsCollected(addr, collect, orig, x, vecChunks, vpc, done) && ResultsStored(dat, addr, collect, res, done)
  }

  /** The collected cells of tiles `0 .. done - 1` are as `unpacker_collect` leaves them when started from `orig`. */
  ghost predicate CellsCollected(addr: seq<Addr>, collect: seq<real>, orig: seq<real>, x: seq<real>, vecChunks: nat, vpc: nat,
                                 done: nat)
  {
    done * TILE_SIZE <= |addr| && done * TILE_SIZE <= |collect| && |orig| == |collect| && ChunkStart(vecChunks, vpc) <= |x| &&
    forall t, r, c :: 0 <= t < done && 0 <= r < TILE_DIM && 0 <= c < TILE_DIM ==>
      collect[TileCell(t, r, c)] == CellAfter(TileRow(addr, t, r), c, orig[TileCell(t, r, c)], x, vecChunks, vpc)
  }

  /** Row `idx` of every tile `t < done` has its result at `res[32 * t + idx]`. */
  ghost predicate ResultsStored(dat: seq<real>, addr: seq<Addr>, collect: seq<real>, res: seq<real>, done: nat)
  {
    done * TILE_SIZE <= |dat| && done * TILE_SIZE <= |addr| && done * TILE_SIZE <= |collect| && done * TILE_DIM <= |res| &&
    forall t, idx :: 0 <= t < done && 0 <= idx < TILE_DIM ==>
      res[t * TILE_DIM + idx] == RowResult(dat, addr, collect, t, idx)
  }

  /** One batch `tile .. endTile - 1` extends `CellsCollected` from `tile` to `endTile`. */
  lemma BatchCellsStep(addr: seq<Addr>, before: seq<real>, after: seq<real>, orig: seq<real>, x: seq<real>,
                       vecChunks: nat, vpc: nat, tile: nat, endTile: nat)
    requires CellsCollected(addr, before, orig, x, vecChunks, vpc, tile)
    requires tile <= endTile && endTile * TILE_SIZE <= |addr| && endTile * TILE_SIZE <= |before| && |after| == |before|
    requires forall j :: tile * TILE_SIZE <= j < |before| ==> before[j] == orig[j]
    requires forall t, r, c :: tile <= t < endTile && 0 <= r < TILE_DIM && 0 <= c < TILE_DIM ==>
      after[TileCell(t, r, c)] == CellAfter(TileRow(addr, t, r), c, before[TileCell(t, r, c)], x, vecChunks, vpc)
    requires forall j :: 0 <= j < |after| && !(tile * TILE_SIZE <= j < endTile * TILE_SIZE) ==> after[j] == before[j]
    ensures CellsCollected(addr, after, orig, x, vecChunks, vpc, endTile)
  {
    forall t, r, c | 0 <= t < endTile && 0 <= r < TILE_DIM && 0 <= c < TILE_DIM
      ensures after[TileCell(t, r, c)] == CellAfter(TileRow(addr, t, r), c, orig[TileCell(t, r, c)], x, vecChunks, vpc)
    {
      TileCellInTile(t, r, c);
    }
  }

  /** A batch leaves the results of the rows of earlier tiles as they were. */
  lemma EarlierRowKept(dat: seq<real>, addr: seq<Addr>, before: seq<real>, after: seq<real>, t: nat, idx: nat, tile: nat)
    requires idx < TILE_DIM && t < tile && HasTile(dat, addr, before, t) && tile * TILE_SIZE <= |before| && |after| == |before|
    requires forall j :: 0 <= j < tile * TILE_SIZE ==> after[j] == before[j]
    ensures RowResult(dat, addr, after, t, idx) == RowResult(dat, addr, before, t, idx)
  {
    forall c | 0 <= c < TILE_DIM
      ensures after[TileCell(t, idx, c)] == before[TileCell(t, idx, c)]
    {
      TileCellInTile(t, idx, c);
    }
    assert TileRow(after, t, idx) == TileRow(before, t, idx);
  }

  /** One batch `tile .. endTile - 1` extends `ResultsStored` from `tile` to `endTile`. */
  lemma BatchResultsStep(dat: seq<real>, addr: seq<Addr>, before: seq<real>, after: seq<real>,
                         resBefore: seq<real>, resAfter: seq<real>, tile: nat, endTile: nat, wr: nat)
    requires ResultsStored(dat, addr, before, resBefore, tile)
    requires tile <= endTile && endTile * TILE_SIZE <= |dat| && endTile * TILE_SIZE <= |addr|
    requires endTile * TILE_SIZE <= |before| && |after| == |before| && endTile * TILE_DIM <= |resBefore|
    requires |resAfter| == |resBefore| && (tile < endTile ==> wr == tile * TILE_DIM)
    requires forall j :: 0 <= j < tile * TILE_SIZE ==> after[j] == before[j]
    requires forall t, idx :: tile <= t < endTile && 0 <= idx < TILE_DIM ==>
      resAfter[wr + (t - tile) * TILE_DIM + idx] == RowResult(dat, addr, after, t, idx)
    requires forall j :: 0 <= j < |resAfter| && !(wr <= j < wr + (endTile - tile) * TILE_DIM) ==> resAfter[j] == resBefore[j]
    ensures ResultsStored(dat, addr, after, resAfter, endTile)
  {
    forall t, idx | 0 <= t < endTile && 0 <= idx < TILE_DIM
      ensures resAfter[t * TILE_DIM + idx] == RowResult(dat, addr, after, t, idx)
    {
      if t < tile {
        EarlierRowKept(dat, addr, before, after, t, idx, tile);
        assert t * TILE_DIM + idx < tile * TILE_DIM;
        assert resAfter[t * TILE_DIM + idx] == resBefore[t * TILE_DIM + idx];
      } else {
        assert wr + (t - tile) * TILE_DIM + idx == t * TILE_DIM + idx;
        assert resAfter[wr + (t - tile) * TILE_DIM + idx] == RowResult(dat, addr, after, t, idx);
      }
    }
  }

  /**
    `MAIN` of the compute kernel: `batches` batches, batch `b` covering tiles
    `BatchStart(b) .. BatchStart(b + 1) - 1` of the channels and pushing one
    result page of `tiles_per_batch * 32` values. The vector is read in
    chunks of `256 * vec_chunk_batch_size` entries. Afterwards every tile
    below `BatchStart(batches)` (all `num_tiles` tiles when the batches
    cover them, `BatchesCover`) has its collected cells completed and its 32
    results at `res[32 * t ..]`; later tiles and result entries are untouched.
  */
  method ComputeMain(dat: seq<real>, addr: seq<Addr>, collect: array<real>, x: seq<real>,
                     vecChunks: nat, vecChunkBatchSize: nat, batches: nat, tpb: nat, numTiles: nat, res: array<real>)
    requires collect != res
    requires tpb <= 8
    requires numTiles * TILE_SIZE <= |dat| && numTiles * TILE_SIZE <= |addr| && numTiles * TILE_SIZE <= collect.Length
    requires vecChunks * (VECS_PER_PAGE * vecChunkBatchSize) <= |x|
    requires batches * tpb * TILE_DIM <= res.Length
    modifies collect, res
    ensures TilesComputed(dat, addr, collect[..], old(collect[..]), res[..], x, vecChunks, VECS_PER_PAGE * vecChunkBatchSize,
                          BatchStart(batches, tpb, numTiles))
    ensures forall j :: BatchStart(batches, tpb, numTiles) * TILE_SIZE <= j < collect.Length ==> collect[j] == old(collect[j])
    ensures forall j :: BatchStart(batches, tpb, numTiles) * TILE_DIM <= j < res.Length ==> res[j] == old(res[j])
  {
    var vecsPerChunk := VECS_PER_PAGE * vecChunkBatchSize;
    ChunkStartIsProduct(vecChunks, vecsPerChunk);
    ghost var orig := collect[..];
    var tile := 0;
    var b := 0;
    while b < batches
      invariant b <= batches && tile == BatchStart(b, tpb, numTiles)
      invariant TilesComputed(dat, addr, collect[..], orig, res[..], x, vecChunks, vecsPerChunk, tile)
      invariant forall j :: tile * TILE_SIZE <= j < collect.Length ==> collect[j] == orig[j]
      invariant forall j :: tile * TILE_DIM <= j < res.Length ==> res[j] == old(res[j])
    {
      tile := ComputeStep(dat, addr, collect, x, vecChunks, vecsPerChunk, b, batches, tpb, numTiles, tile, res, orig);
      b := b + 1;
    }
  }

  /**
    Batch `b` of `MAIN`: its tiles run from `tile` to `end_tile_in_batch =
    min(num_tiles, tile + tiles_per_batch)`, and its results are written
    from `b * tiles_per_batch * 32` on.
  */
  method ComputeStep(dat: seq<real>, addr: seq<Addr>, collect: array<real>, x: seq<real>, vecChunks: nat, vpc: nat,
                     b: nat, batches: nat, tpb: nat, numTiles: nat, tile: nat, res: array<real>, ghost orig: seq<real>)
    returns (endTile: nat)
    requires collect != res
    requires tpb <= 8 && b < batches && tile == BatchStart(b, tpb, numTiles)
    requires numTiles * TILE_SIZE <= |dat| && numTiles * TILE_SIZE <= |addr| && numTiles * TILE_SIZE <= collect.Length
    requires vecChunks * vpc <= |x|
    requires batches * tpb * TILE_DIM <= res.Length
    requires TilesComputed(dat, addr, collect[..], orig, res[..], x, vecChunks, vpc, tile)
    requires forall j :: tile * TILE_SIZE <= j < collect.Length ==> collect[j] == orig[j]
    modifies collect, res
    ensures endTile == BatchStart(b + 1, tpb, numTiles)
    ensures TilesComputed(dat, addr, collect[..], orig, res[..], x, vecChunks, vpc, endTile)
    ensures forall j :: endTile * TILE_SIZE <= j < collect.Length ==> collect[j] == orig[j]
    ensures forall j :: endTile * TILE_DIM <= j < res.Length ==> res[j] == old(res[j])
  {
    endTile := if numTiles < tile + tpb then numTiles else tile + tpb;
    BatchEnd(b, tpb, numTiles);
    var wr := b * tpb * TILE_DIM;
    PageFits(b, batches, tpb);
    if tile < endTile {
      assert wr == tile * TILE_DIM;
    }
    ComputeBatch(dat, addr, collect, x, vecChunks, vpc, tile, endTile, res, wr, orig);
  }

  /**
    Every ELLPACK row `generate_matrix` produces, read as device addresses,
    is sorted and left-aligned: the shape the collection and the multiply
    rely on.
  */
  lemma GeneratedRowsFitKernel(g: GenerateMatrix.Grid, nnzs: seq<int>, vals: seq<real>, inds: seq<int>, x: seq<real>, b: seq<real>,
                               xexact: seq<real>, ellInds: seq<int>, r: nat)
    requires GenerateMatrix.ValidGrid(g) && GenerateMatrix.NumRows(g) < 0x8000_0000 && r < GenerateMatrix.NumRows(g)
    requires GenerateMatrix.Built(g, nnzs, vals, inds, x, b, xexact, GenerateMatrix.NumRows(g))
    requires GenerateMatrix.CsrOffsets(nnzs, GenerateMatrix.NumRows(g), |vals|) && GenerateMatrix.CsrOffsets(nnzs, GenerateMatrix.NumRows(g), |inds|)
    requires ellInds == GenerateMatrix.Ellpack(nnzs, inds, GenerateMatrix.INVALID_INDEX, GenerateMatrix.NumRows(g))
    ensures (r + 1) * GenerateMatrix.ELLPACK_COLS <= |ellInds|
    ensures RowSorted(GenerateMatrix.DeviceRow(ellInds, r)) && LeftAligned(GenerateMatrix.DeviceRow(ellInds, r))
  {
    GenerateMatrix.GeneratedDeviceRow(g, nnzs, vals, inds, x, b, xexact, ellInds, r);
    var row := GenerateMatrix.DeviceRow(ellInds, r);
    forall i, j | 0 <= i <= j < FirstSentinel(row)
      ensures AddrOrdered(row, i, j)
    {
    }
  }
}
