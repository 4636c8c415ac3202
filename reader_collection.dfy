/**
  The collecting reader kernel: it fetches the data and address tiles of each
  batch into the channels and fills the collected tiles itself, chunk by
  chunk of the vector, with a `collect_for_mul_tile` that reads the address
  tile row-major, writes the collected tile in the faced layout, and zeroes
  every cell from a row's first sentinel on.
*/
module ReaderCollection {
  import opened Faced
  import opened ComputeParts

  /**
    Row `r` of the address tile in slot `tile`, read row-major: entries
    `tile * 1024 + 32 r .. tile * 1024 + 32 r + 31`.
  */
  function RowMajorRow(addr: seq<Addr>, tile: nat, r: nat): (row: seq<Addr>)
    requires r < TILE_DIM && (tile + 1) * TILE_SIZE <= |addr|
    ensures |row| == TILE_DIM
    ensures forall c :: 0 <= c < TILE_DIM ==> row[c] == addr[tile * TILE_SIZE + r * TILE_DIM + c]
  {
    addr[tile * TILE_SIZE + r * TILE_DIM .. tile * TILE_SIZE + r * TILE_DIM + TILE_DIM]
  }

  /**
    On a tile stored in the faced layout, the row-major read of row `r`,
    column `c` sees the address of cell `(FacedRow(32 r + c), FacedCol(32 r + c))`,
    not of cell `(r, c)`: row 0 read this way is rows 0 and 1 of the first face.
  */
  lemma RowMajorReadsFacedCell(addr: seq<Addr>, tile: nat, r: nat, c: nat)
    requires r < TILE_DIM && c < TILE_DIM && (tile + 1) * TILE_SIZE <= |addr|
    ensures FacedRow(r * TILE_DIM + c) < TILE_DIM && FacedCol(r * TILE_DIM + c) < TILE_DIM
    ensures RowMajorRow(addr, tile, r)[c] == addr[TileCell(tile, FacedRow(r * TILE_DIM + c), FacedCol(r * TILE_DIM + c))]
  {
    var off := r * TILE_DIM + c;
    FacedOffsetOnto(off);
    TileCellInTile(tile, FacedRow(off), FacedCol(off));
    assert TileCell(tile, FacedRow(off), FacedCol(off)) == tile * TILE_SIZE + off;
    assert RowMajorRow(addr, tile, r)[c] == addr[tile * TILE_SIZE + off];
  }

  /**
    What the sticky `collect_for_mul_tile` leaves in column `c` of a row with
    addresses `row`: before the first sentinel, what `collect_for` gathers;
    from the sentinel on, 0.
  */
  function StickyCell(row: seq<Addr>, c: nat, cell: real, vec: seq<real>, lo: nat, hi: nat): real
    requires |row| == TILE_DIM && c < TILE_DIM && hi <= lo + |vec|
  {
    if c < FirstSentinel(row) then Gathered(cell, row[c], vec, lo, hi) else 0.0
  }

  /**
    The body of the column loop: `collect_for` runs while the line is not
    done, and once it is (now or before) the cell is zeroed.
  */
  method StickyColumn(collect: array<real>, at: nat, a: Addr, vec: seq<real>, lo: nat, hi: nat, lineDone: bool)
    returns (done: bool)
    requires at < collect.Length && hi <= lo + |vec| && hi <= SENTINEL
    modifies collect
    ensures done <==> lineDone || a == SENTINEL
    ensures collect[at] == if done then 0.0 else Gathered(old(collect[at]), a, vec, lo, hi)
    ensures forall j :: 0 <= j < collect.Length && j != at ==> collect[j] == old(collect[j])
  {
    done := lineDone;
    if !done {
      done := CollectFor(collect, at, a, vec, lo, hi);
    }
    if done {
      collect[at] := 0.0;
    }
  }

  /**
    One row of the sticky `collect_for_mul_tile`: addresses from
    `addr_ptr + 32 rowIdx`, collected cells from the faced position of
    `(rowIdx, 0)` stepping by 1, or 241 after column 15.
  */
  method StickyRow(addr: seq<Addr>, collect: array<real>, tile: nat, rowIdx: nat, collectRow: nat, addrRow: nat,
                   vec: seq<real>, offset: nat, chunkEnd: nat)
    requires rowIdx < TILE_DIM && collectRow == TileCell(tile, rowIdx, 0) && addrRow == tile * TILE_SIZE + rowIdx * TILE_DIM
    requires (tile + 1) * TILE_SIZE <= |addr| && (tile + 1) * TILE_SIZE <= collect.Length
    requires chunkEnd <= offset + |vec| && chunkEnd <= SENTINEL
    modifies collect
    ensures forall c :: 0 <= c < TILE_DIM ==>
      collect[TileCell(tile, rowIdx, c)] ==
        StickyCell(RowMajorRow(addr, tile, rowIdx), c, old(collect[TileCell(tile, rowIdx, c)]), vec, offset, chunkEnd)
    ensures RowFrame(collect[..], old(collect[..]), tile, rowIdx)
  {
    ghost var orig := collect[..];
    ghost var row := RowMajorRow(addr, tile, rowIdx);
    FirstSentinelBefore(row);
    var collectPtr := collectRow;
    var lineDone := false;
    var colIdx := 0;
    while colIdx < 32
      invariant 0 <= colIdx <= 32
      invariant colIdx < 32 ==> collectPtr == TileCell(tile, rowIdx, colIdx)
      invariant lineDone <==> FirstSentinel(row) < colIdx
      invariant forall c :: 0 <= c < TILE_DIM ==>
        collect[TileCell(tile, rowIdx, c)] ==
          if c < colIdx then StickyCell(row, c, orig[TileCell(tile, rowIdx, c)], vec, offset, chunkEnd)
          else orig[TileCell(tile, rowIdx, c)]
      invariant RowFrame(collect[..], orig, tile, rowIdx)
    {
      TileCellInTile(tile, rowIdx, colIdx);
      var adr := addr[addrRow + colIdx];
      assert adr == row[colIdx];
      ghost var before := collect[..];
      lineDone := StickyColumn(collect, collectPtr, adr, vec, offset, chunkEnd, lineDone);
      assert collect[..] == before[collectPtr := collect[collectPtr]];
      RowFrameWrite(before, orig, tile, rowIdx, colIdx, collect[collectPtr]);
      if colIdx == 15 {
        collectPtr := collectPtr + NEXT_FACE_COL_OFFSET;
      } else {
        collectPtr := collectPtr + 1;
      }
      if colIdx + 1 < 32 {
        ColStepIsFaced(rowIdx, colIdx);
      }
      colIdx := colIdx + 1;
    }
  }

  /** The sticky cell `(r, c)` of the tile in slot `tile`, its addresses read row-major. */
  function ReaderTileCell(addr: seq<Addr>, tile: nat, r: nat, c: nat, cell: real, vec: seq<real>, lo: nat, hi: nat): real
    requires r < TILE_DIM && c < TILE_DIM && (tile + 1) * TILE_SIZE <= |addr| && hi <= lo + |vec|
  {
    StickyCell(RowMajorRow(addr, tile, r), c, cell, vec, lo, hi)
  }

  /**
    The sticky `collect_for_mul_tile` on the tile in slot `tile`: the row
    pointer of the collected tile steps by 16, or 272 after row 15, the
    address row is `32 rowIdx` past the tile start. Every cell of the tile is
    visited once; nothing outside the tile changes.
  */
  method StickyMulTile(addr: seq<Addr>, collect: array<real>, tile: nat, vec: seq<real>, offset: nat, vecsPerChunk: nat)
    requires (tile + 1) * TILE_SIZE <= |addr| && (tile + 1) * TILE_SIZE <= collect.Length
    requires vecsPerChunk <= |vec| && offset + vecsPerChunk <= SENTINEL
    modifies collect
    ensures forall r, c :: 0 <= r < TILE_DIM && 0 <= c < TILE_DIM ==>
      collect[TileCell(tile, r, c)] ==
        ReaderTileCell(addr, tile, r, c, old(collect[TileCell(tile, r, c)]), vec, offset, offset + vecsPerChunk)
    ensures forall j :: 0 <= j < collect.Length && !(tile * TILE_SIZE <= j < (tile + 1) * TILE_SIZE) ==>
      collect[j] == old(collect[j])
  {
    var chunkEnd := offset + vecsPerChunk;
    ghost var orig := collect[..];
    var collectOuter := tile * TILE_SIZE;
    var rowIdx := 0;
    while rowIdx < 32
      invariant 0 <= rowIdx <= 32
      invariant rowIdx < 32 ==> collectOuter == TileCell(tile, rowIdx, 0)
      invariant forall r, c :: 0 <= r < TILE_DIM && 0 <= c < TILE_DIM ==>
        collect[TileCell(tile, r, c)] ==
          if r < rowIdx then ReaderTileCell(addr, tile, r, c, orig[TileCell(tile, r, c)], vec, offset, chunkEnd)
          else orig[TileCell(tile, r, c)]
      invariant forall j :: 0 <= j < collect.Length && !(tile * TILE_SIZE <= j < (tile + 1) * TILE_SIZE) ==>
        collect[j] == orig[j]
    {
      ghost var before := collect[..];
      var addrRow := tile * TILE_SIZE + rowIdx * 32;
      StickyRow(addr, collect, tile, rowIdx, collectOuter, addrRow, vec, offset, chunkEnd);
      forall r, c | 0 <= r < TILE_DIM && 0 <= c < TILE_DIM && r != rowIdx
        ensures collect[TileCell(tile, r, c)] == before[TileCell(tile, r, c)]
      {
        TileCellInTile(tile, r, c);
      }
      if rowIdx == 15 {
        collectOuter := collectOuter + NEXT_FACE_ROW_OFFSET;
      } else {
        collectOuter := collectOuter + NEXT_ROW_OFFSET;
      }
      if rowIdx + 1 < 32 {
        RowStepIsFaced(rowIdx);
      }
      rowIdx := rowIdx + 1;
    }
  }

  // ---------------------------------------------------------------------------
  // The chunk loop of kernel_main

  /**
    A cell after the chunks `0 .. w - 1` of `x`, chunk `k` being
    `[ChunkStart(k), ChunkStart(k) + vpc)`, starting from `init`: after the
    first chunk a cell at or after the row's sentinel is 0; a cell before it
    holds the vector entry of its address once a chunk has covered it, and
    `init` until then.
  */
  function ReaderCellAfter(row: seq<Addr>, c: nat, init: real, x: seq<real>, w: nat, vpc: nat): real
    requires |row| == TILE_DIM && c < TILE_DIM && ChunkStart(w, vpc) <= |x|
  {
    if w == 0 then init
    else if FirstSentinel(row) <= c then 0.0
    else if row[c] < ChunkStart(w, vpc) then x[row[c]]
    else init
  }

  /** One chunk more of the sticky collection moves a cell from its state after `w` chunks to its state after `w + 1`. */
  lemma ReaderChunkStep(row: seq<Addr>, c: nat, init: real, x: seq<real>, w: nat, vpc: nat)
    requires |row| == TILE_DIM && c < TILE_DIM && ChunkStart(w + 1, vpc) <= |x| && ChunkStart(w + 1, vpc) <= SENTINEL
    ensures ChunkStart(w, vpc) + vpc <= |x|
    ensures ReaderCellAfter(row, c, init, x, w + 1, vpc) ==
      StickyCell(row, c, ReaderCellAfter(row, c, init, x, w, vpc),
                 x[ChunkStart(w, vpc) .. ChunkStart(w, vpc) + vpc], ChunkStart(w, vpc), ChunkStart(w, vpc) + vpc)
  {
    FirstSentinelBefore(row);
  }

  /**
    One chunk for all `tiles_per_batch` slots: `collect_for_mul_tile` on each
    slot `t`, the address and collected pointers advancing by 1024.
  */
  method CollectSlots(addr: seq<Addr>, collect: array<real>, tpb: nat, vec: seq<real>, offset: nat, vecsPerChunk: nat)
    requires tpb * TILE_SIZE <= |addr| && tpb * TILE_SIZE <= collect.Length
    requires vecsPerChunk <= |vec| && offset + vecsPerChunk <= SENTINEL
    modifies collect
    ensures forall t, r, c :: 0 <= t < tpb && 0 <= r < TILE_DIM && 0 <= c < TILE_DIM ==>
      collect[TileCell(t, r, c)] ==
        ReaderTileCell(addr, t, r, c, old(collect[TileCell(t, r, c)]), vec, offset, offset + vecsPerChunk)
    ensures forall j :: tpb * TILE_SIZE <= j < collect.Length ==> collect[j] == old(collect[j])
  {
    ghost var orig := collect[..];
    var t := 0;
    while t < tpb
      invariant t <= tpb
      invariant forall s, r, c :: 0 <= s < t && 0 <= r < TILE_DIM && 0 <= c < TILE_DIM ==>
        collect[TileCell(s, r, c)] == ReaderTileCell(addr, s, r, c, orig[TileCell(s, r, c)], vec, offset, offset + vecsPerChunk)
      invariant forall j :: t * TILE_SIZE <= j < collect.Length ==> collect[j] == orig[j]
    {
      ghost var before := collect[..];
      StickyMulTile(addr, collect, t, vec, offset, vecsPerChunk);
      forall s, r, c | 0 <= s <= t && 0 <= r < TILE_DIM && 0 <= c < TILE_DIM
        ensures collect[TileCell(s, r, c)] == ReaderTileCell(addr, s, r, c, orig[TileCell(s, r, c)], vec, offset, offset + vecsPerChunk)
      {
        TileCellInTile(s, r, c);
        if s < t {
          assert collect[TileCell(s, r, c)] == before[TileCell(s, r, c)];
        }
      }
      t := t + 1;
    }
  }

  /** Iterations of `for (vec_chunk = 0; vec_chunk < vec_chunks; vec_chunk += batch)`. */
  function ChunkCount(vecChunks: nat, batch: nat): nat
    requires batch > 0
    decreases vecChunks
  {
    if vecChunks == 0 then 0 else if vecChunks <= batch then 1 else 1 + ChunkCount(vecChunks - batch, batch)
  }

  /**
    `ChunkCount` is the rounded-up quotient `ceil(vec_chunks / batch)`: the
    least `n` with `n * batch >= vec_chunks`.
  */
  lemma {:induction false} ChunkCountIsCeil(vecChunks: nat, batch: nat)
    requires batch > 0
    ensures ChunkCount(vecChunks, batch) * batch >= vecChunks
    ensures ChunkCount(vecChunks, batch) == 0 || (ChunkCount(vecChunks, batch) - 1) * batch < vecChunks
    decreases vecChunks
  {
    if vecChunks > batch {
      var n := ChunkCount(vecChunks - batch, batch);
      ChunkCountIsCeil(vecChunks - batch, batch);
      assert (n + 1) * batch == n * batch + batch;
      if n > 0 {
        assert n * batch == (n - 1) * batch + batch;
      }
    }
  }

  /** The collected slots after `k` chunks. */
  ghost predicate SlotsAfter(addr: seq<Addr>, collect: seq<real>, orig: seq<real>, tpb: nat, x: seq<real>, k: nat, vpc: nat)
  {
    tpb * TILE_SIZE <= |addr| && tpb * TILE_SIZE <= |collect| && |orig| == |collect| && ChunkStart(k, vpc) <= |x| &&
    forall t, r, c :: 0 <= t < tpb && 0 <= r < TILE_DIM && 0 <= c < TILE_DIM ==>
      collect[TileCell(t, r, c)] == ReaderCellAfter(RowMajorRow(addr, t, r), c, orig[TileCell(t, r, c)], x, k, vpc)
  }

  /** One pass of `CollectSlots` with chunk `k` takes `SlotsAfter` from `k` to `k + 1`. */
  lemma SlotsStep(addr: seq<Addr>, before: seq<real>, after: seq<real>, orig: seq<real>, tpb: nat, x: seq<real>, k: nat, vpc: nat)
    requires SlotsAfter(addr, before, orig, tpb, x, k, vpc)
    requires ChunkStart(k + 1, vpc) <= |x| && ChunkStart(k + 1, vpc) <= SENTINEL && |after| == |before|
    requires ChunkStart(k, vpc) + vpc <= |x|
    requires forall t, r, c :: 0 <= t < tpb && 0 <= r < TILE_DIM && 0 <= c < TILE_DIM ==>
      after[TileCell(t, r, c)] ==
        ReaderTileCell(addr, t, r, c, before[TileCell(t, r, c)],
                       x[ChunkStart(k, vpc) .. ChunkStart(k, vpc) + vpc], ChunkStart(k, vpc), ChunkStart(k, vpc) + vpc)
    ensures SlotsAfter(addr, after, orig, tpb, x, k + 1, vpc)
  {
    forall t, r, c | 0 <= t < tpb && 0 <= r < TILE_DIM && 0 <= c < TILE_DIM
      ensures after[TileCell(t, r, c)] == ReaderCellAfter(RowMajorRow(addr, t, r), c, orig[TileCell(t, r, c)], x, k + 1, vpc)
    {
      ReaderChunkStep(RowMajorRow(addr, t, r), c, orig[TileCell(t, r, c)], x, k, vpc);
    }
  }

  /**
    The chunk loop of `kernel_main` for one batch: `vec_chunk` runs over
    `0, batch, 2 batch, ...` below `vec_chunks`, the chunk offset of
    iteration `k` is `k * vecs_per_chunk` with `vecs_per_chunk = 256 * batch`,
    and every slot is collected for each chunk. The resident chunk of
    iteration `k` is `x[k * vecs_per_chunk ..][.. vecs_per_chunk]`.
  */
  method ReaderCollect(addr: seq<Addr>, collect: array<real>, tpb: nat, x: seq<real>, vecChunks: nat, batch: nat)
    returns (ghost chunks: nat)
    requires batch > 0
    requires tpb * TILE_SIZE <= |addr| && tpb * TILE_SIZE <= collect.Length
    requires ChunkStart(ChunkCount(vecChunks, batch), VECS_PER_PAGE * batch) <= |x|
    requires ChunkStart(ChunkCount(vecChunks, batch), VECS_PER_PAGE * batch) <= SENTINEL
    modifies collect
    ensures chunks == ChunkCount(vecChunks, batch)
    ensures SlotsAfter(addr, collect[..], old(collect[..]), tpb, x, chunks, VECS_PER_PAGE * batch)
    ensures forall j :: tpb * TILE_SIZE <= j < collect.Length ==> collect[j] == old(collect[j])
  {
    var vecsPerChunk := VECS_PER_PAGE * batch;
    ghost var orig := collect[..];
    var vecChunkOffset := 0;
    var vecChunk := 0;
    chunks := 0;
    while vecChunk < vecChunks
      invariant vecChunk < vecChunks ==> ChunkCount(vecChunks, batch) == chunks + ChunkCount(vecChunks - vecChunk, batch)
      invariant vecChunk >= vecChunks ==> chunks == ChunkCount(vecChunks, batch)
      invariant vecChunkOffset == ChunkStart(chunks, vecsPerChunk)
      invariant SlotsAfter(addr, collect[..], orig, tpb, x, chunks, vecsPerChunk)
      invariant forall j :: tpb * TILE_SIZE <= j < collect.Length ==> collect[j] == orig[j]
      decreases vecChunks - vecChunk
    {
      ChunkStartMonotone(chunks + 1, ChunkCount(vecChunks, batch), vecsPerChunk);
      var vec := x[vecChunkOffset .. vecChunkOffset + vecsPerChunk];
      ghost var before := collect[..];
      CollectSlots(addr, collect, tpb, vec, vecChunkOffset, vecsPerChunk);
      SlotsStep(addr, before, collect[..], orig, tpb, x, chunks, vecsPerChunk);
      vecChunkOffset := vecChunkOffset + vecsPerChunk;
      vecChunk := vecChunk + batch;
      chunks := chunks + 1;
    }
  }

  // ---------------------------------------------------------------------------
  // What a collected cell holds after the chunk loop

  /**
    A collected cell that the chunk loop has settled: after at least one
    chunk, a cell at or after its row's sentinel is 0; a cell before it
    whose address lies below `ChunkStart(k)` holds that vector entry.
  */
  ghost predicate CollectedCell(v: real, row: seq<Addr>, c: nat, x: seq<real>, k: nat, vpc: nat)
    requires |row| == TILE_DIM && c < TILE_DIM
  {
    (1 <= k && FirstSentinel(row) <= c ==> v == 0.0) &&
    (c < FirstSentinel(row) && row[c] < ChunkStart(k, vpc) && row[c] < |x| ==> v == x[row[c]])
  }

  /** Whatever a cell held before the chunk loop, it is settled after it. */
  lemma ReaderCellSettled(row: seq<Addr>, c: nat, init: real, x: seq<real>, k: nat, vpc: nat)
    requires |row| == TILE_DIM && c < TILE_DIM && ChunkStart(k, vpc) <= |x|
    ensures CollectedCell(ReaderCellAfter(row, c, init, x, k, vpc), row, c, x, k, vpc)
  {
    if k == 0 {
      ChunkStartIsProduct(0, vpc);
    }
  }

  /**
    With `ceil(vec_chunks / batch)` chunks of `256 batch` entries, the
    chunks reach past the `256 vec_chunks` entries of the vector.
  */
  lemma ChunksCoverVector(vecChunks: nat, batch: nat)
    requires batch > 0
    ensures ChunkStart(ChunkCount(vecChunks, batch), VECS_PER_PAGE * batch) >= VECS_PER_PAGE * vecChunks
  {
    var n := ChunkCount(vecChunks, batch);
    ChunkCountIsCeil(vecChunks, batch);
    ChunkStartIsProduct(n, VECS_PER_PAGE * batch);
    assert n * (VECS_PER_PAGE * batch) == VECS_PER_PAGE * (n * batch);
  }

  // ---------------------------------------------------------------------------
  // Fetching a batch

  /**
    The tiles a batch fetches end at `min(num_tiles, batch_first_tile +
    tiles_per_batch)`, as written: the bound is the tile count, not the end
    tile `first_tile_offset + num_tiles`.
  */
  function FetchEndAsWritten(numTiles: nat, batchFirst: nat, tpb: nat): nat
  {
    FetchEnd(numTiles, batchFirst, tpb)
  }

  /**
    As written, a core whose range starts at tile 4 and has 4 tiles, in
    batches of 4, fetches no tile in its one batch.
  */
  lemma FetchEndAsWrittenSkipsTiles()
    ensures var first, numTiles, tpb := 4, 4, 4;
      first < first + numTiles && FetchEndAsWritten(numTiles, first, tpb) <= first
  {
  }

  /** The corrected bound: the end tile of the core's range, `first_tile_offset + num_tiles`. */
  function FetchEnd(endTile: nat, batchFirst: nat, tpb: nat): (e: nat)
    ensures e <= batchFirst + tpb && e <= endTile
    ensures batchFirst < endTile && 0 < tpb ==> batchFirst < e
  {
    if endTile < batchFirst + tpb then endTile else batchFirst + tpb
  }

  /**
    With the corrected bound, the batches starting at `first, first + tpb,
    ...` fetch every tile of `[first, first + numTiles)`, tile `i` in the
    batch `(i - first) / tpb` and into slot `(i - first) % tpb`; with the
    bound as written, every tile at or past `num_tiles` is missed.
  */
  lemma FetchCoversRange(first: nat, numTiles: nat, tpb: nat, i: nat)
    requires 0 < tpb && first <= i < first + numTiles
    ensures var b := (i - first) / tpb; var bft := first + b * tpb;
      bft <= i < FetchEnd(first + numTiles, bft, tpb) && i - bft == (i - first) % tpb
    ensures numTiles <= i ==> forall bft: nat :: bft <= i ==> !(i < FetchEndAsWritten(numTiles, bft, tpb))
  {
  }

  /** Page `p` of a tiled buffer: its entries `1024 p .. 1024 p + 1023`. */
  function Page<T>(buf: seq<T>, p: nat): (page: seq<T>)
    requires (p + 1) * TILE_SIZE <= |buf|
    ensures |page| == TILE_SIZE
    ensures forall j :: 0 <= j < TILE_SIZE ==> page[j] == buf[p * TILE_SIZE + j]
  {
    buf[p * TILE_SIZE .. (p + 1) * TILE_SIZE]
  }

  /** `noc_async_read_page` of page `page` of a tiled buffer into slot `slot`. */
  method ReadPage<T>(buf: seq<T>, page: nat, dest: array<T>, slot: nat)
    requires (page + 1) * TILE_SIZE <= |buf| && (slot + 1) * TILE_SIZE <= dest.Length
    modifies dest
    ensures Page(dest[..], slot) == Page(buf, page)
    ensures forall j :: 0 <= j < dest.Length && !(slot * TILE_SIZE <= j < (slot + 1) * TILE_SIZE) ==> dest[j] == old(dest[j])
  {
    var at := slot * TILE_SIZE;
    forall j | at <= j < at + TILE_SIZE {
      dest[j] := buf[page * TILE_SIZE + j - at];
    }
  }

  /** A page other than the slot written keeps its contents. */
  lemma PageKept<T>(now: seq<T>, before: seq<T>, p: nat, slot: nat)
    requires |now| == |before| && (p + 1) * TILE_SIZE <= |now| && p != slot
    requires forall j :: 0 <= j < |now| && !(slot * TILE_SIZE <= j < (slot + 1) * TILE_SIZE) ==> now[j] == before[j]
    ensures Page(now, p) == Page(before, p)
  {
    forall j | 0 <= j < TILE_SIZE
      ensures Page(now, p)[j] == Page(before, p)[j]
    {
      assert !(slot * TILE_SIZE <= p * TILE_SIZE + j < (slot + 1) * TILE_SIZE);
    }
  }

  /**
    The fetch loop of a batch: tiles `batchFirst .. fetchEnd - 1` of the data
    and address buffers go to slots `0, 1, ...` of the two channels; later
    slots keep what they held.
  */
  method FetchTiles(valBuf: seq<real>, addrBuf: seq<Addr>, dat: array<real>, addrCb: array<Addr>,
                    batchFirst: nat, fetchEnd: nat)
    requires batchFirst <= fetchEnd && fetchEnd * TILE_SIZE <= |valBuf| && fetchEnd * TILE_SIZE <= |addrBuf|
    requires (fetchEnd - batchFirst) * TILE_SIZE <= dat.Length && (fetchEnd - batchFirst) * TILE_SIZE <= addrCb.Length
    modifies dat, addrCb
    ensures forall s :: 0 <= s < fetchEnd - batchFirst ==>
      Page(dat[..], s) == Page(valBuf, batchFirst + s) && Page(addrCb[..], s) == Page(addrBuf, batchFirst + s)
    ensures forall j :: (fetchEnd - batchFirst) * TILE_SIZE <= j < dat.Length ==> dat[j] == old(dat[j])
    ensures forall j :: (fetchEnd - batchFirst) * TILE_SIZE <= j < addrCb.Length ==> addrCb[j] == old(addrCb[j])
  {
    var i := batchFirst;
    while i < fetchEnd
      invariant batchFirst <= i <= fetchEnd
      invariant forall s :: 0 <= s < i - batchFirst ==>
        Page(dat[..], s) == Page(valBuf, batchFirst + s) && Page(addrCb[..], s) == Page(addrBuf, batchFirst + s)
      invariant forall j :: (i - batchFirst) * TILE_SIZE <= j < dat.Length ==> dat[j] == old(dat[j])
      invariant forall j :: (i - batchFirst) * TILE_SIZE <= j < addrCb.Length ==> addrCb[j] == old(addrCb[j])
    {
      ghost var datBefore := dat[..];
      ghost var addrBefore := addrCb[..];
      ReadPage(valBuf, i, dat, i - batchFirst);
      ReadPage(addrBuf, i, addrCb, i - batchFirst);
      forall s | 0 <= s < i - batchFirst
        ensures Page(dat[..], s) == Page(datBefore, s) && Page(addrCb[..], s) == Page(addrBefore, s)
      {
        PageKept(dat[..], datBefore, s, i - batchFirst);
        PageKept(addrCb[..], addrBefore, s, i - batchFirst);
      }
      i := i + 1;
    }
  }

  // ---------------------------------------------------------------------------
  // The batch loop of kernel_main

  /**
    `n` pushed tiles starting at matrix tile `bft`: page `s` of the pushed
    data is tile `bft + s` of the data buffer, and every cell of pushed
    collected tile `s` is settled for the addresses of tile `bft + s`.
  */
  ghost predicate BatchPushed(vals: seq<real>, cells: seq<real>, valBuf: seq<real>, addrBuf: seq<Addr>, x: seq<real>,
                              bft: nat, n: nat, k: nat, vpc: nat)
  {
    n * TILE_SIZE <= |vals| && n * TILE_SIZE <= |cells| &&
    (bft + n) * TILE_SIZE <= |valBuf| && (bft + n) * TILE_SIZE <= |addrBuf| &&
    (forall s :: 0 <= s < n ==> Page(vals, s) == Page(valBuf, bft + s)) &&
    forall s, r, c :: 0 <= s < n && 0 <= r < TILE_DIM && 0 <= c < TILE_DIM ==>
      CollectedCell(cells[TileCell(s, r, c)], RowMajorRow(addrBuf, bft + s, r), c, x, k, vpc)
  }

  /** A slot holding page `p` reads, row-major, the rows of tile `p`. */
  lemma SlotRows(slots: seq<Addr>, s: nat, addrBuf: seq<Addr>, p: nat, r: nat)
    requires (s + 1) * TILE_SIZE <= |slots| && (p + 1) * TILE_SIZE <= |addrBuf| && r < TILE_DIM
    requires Page(slots, s) == Page(addrBuf, p)
    ensures RowMajorRow(slots, s, r) == RowMajorRow(addrBuf, p, r)
  {
    forall c | 0 <= c < TILE_DIM
      ensures RowMajorRow(slots, s, r)[c] == RowMajorRow(addrBuf, p, r)[c]
    {
      assert Page(slots, s)[r * TILE_DIM + c] == Page(addrBuf, p)[r * TILE_DIM + c];
    }
  }

  /**
    After the chunk loop, the first `tpb` pages of the data channel and of
    the collected channel hold, in the slots of fetched tiles, those tiles'
    data and settled cells.
  */
  lemma BatchSettled(datAll: seq<real>, slots: seq<Addr>, cellsAll: seq<real>, orig: seq<real>, valBuf: seq<real>,
                     addrBuf: seq<Addr>, x: seq<real>, bft: nat, n: nat, tpb: nat, k: nat, vpc: nat)
    requires n <= tpb && tpb * TILE_SIZE <= |datAll| && tpb * TILE_SIZE <= |slots|
    requires (bft + n) * TILE_SIZE <= |valBuf| && (bft + n) * TILE_SIZE <= |addrBuf|
    requires forall s :: 0 <= s < n ==> Page(datAll, s) == Page(valBuf, bft + s) && Page(slots, s) == Page(addrBuf, bft + s)
    requires SlotsAfter(slots, cellsAll, orig, tpb, x, k, vpc)
    ensures BatchPushed(datAll[..tpb * TILE_SIZE], cellsAll[..tpb * TILE_SIZE], valBuf, addrBuf, x, bft, n, k, vpc)
  {
    var vals, cells := datAll[..tpb * TILE_SIZE], cellsAll[..tpb * TILE_SIZE];
    forall s | 0 <= s < n
      ensures Page(vals, s) == Page(valBuf, bft + s)
    {
      assert Page(vals, s) == Page(datAll, s);
    }
    forall s, r, c | 0 <= s < n && 0 <= r < TILE_DIM && 0 <= c < TILE_DIM
      ensures CollectedCell(cells[TileCell(s, r, c)], RowMajorRow(addrBuf, bft + s, r), c, x, k, vpc)
    {
      SlotCellSettled(slots, cellsAll, orig, addrBuf, x, bft, s, r, c, tpb, k, vpc);
    }
  }

  /** Cell `(r, c)` of fetched slot `s` is settled for the addresses of the matrix tile it holds. */
  lemma SlotCellSettled(slots: seq<Addr>, cellsAll: seq<real>, orig: seq<real>, addrBuf: seq<Addr>, x: seq<real>,
                        bft: nat, s: nat, r: nat, c: nat, tpb: nat, k: nat, vpc: nat)
    requires s < tpb && r < TILE_DIM && c < TILE_DIM && tpb * TILE_SIZE <= |slots|
    requires (bft + s + 1) * TILE_SIZE <= |addrBuf| && Page(slots, s) == Page(addrBuf, bft + s)
    requires SlotsAfter(slots, cellsAll, orig, tpb, x, k, vpc)
    ensures TileCell(s, r, c) < tpb * TILE_SIZE <= |cellsAll|
    ensures CollectedCell(cellsAll[..tpb * TILE_SIZE][TileCell(s, r, c)], RowMajorRow(addrBuf, bft + s, r), c, x, k, vpc)
  {
    TileCellInTile(s, r, c);
    ReaderCellSettled(RowMajorRow(slots, s, r), c, orig[TileCell(s, r, c)], x, k, vpc);
    SlotRows(slots, s, addrBuf, bft + s, r);
  }

  /** The pages of `a + b` are those of `a`, then those of `b`. */
  lemma PageAppend<T>(a: seq<T>, b: seq<T>, n: nat, p: nat)
    requires |a| == n * TILE_SIZE && (p + 1) * TILE_SIZE <= |a| + |b|
    ensures p < n ==> Page(a + b, p) == Page(a, p)
    ensures n <= p ==> Page(a + b, p) == Page(b, p - n)
  {
  }

  /** Pushing the tiles of one batch after those of the batches before it. */
  lemma PushedAppend(vals: seq<real>, cells: seq<real>, moreVals: seq<real>, moreCells: seq<real>,
                     valBuf: seq<real>, addrBuf: seq<Addr>, x: seq<real>, first: nat, mid: nat, end: nat, k: nat, vpc: nat)
    requires first <= mid <= end
    requires |vals| == (mid - first) * TILE_SIZE && |cells| == (mid - first) * TILE_SIZE
    requires BatchPushed(vals, cells, valBuf, addrBuf, x, first, mid - first, k, vpc)
    requires BatchPushed(moreVals, moreCells, valBuf, addrBuf, x, mid, end - mid, k, vpc)
    ensures BatchPushed(vals + moreVals, cells + moreCells, valBuf, addrBuf, x, first, end - first, k, vpc)
  {
    var n := mid - first;
    forall s | 0 <= s < end - first
      ensures Page(vals + moreVals, s) == Page(valBuf, first + s)
    {
      PageAppend(vals, moreVals, n, s);
    }
    forall s, r, c | 0 <= s < end - first && 0 <= r < TILE_DIM && 0 <= c < TILE_DIM
      ensures CollectedCell((cells + moreCells)[TileCell(s, r, c)], RowMajorRow(addrBuf, first + s, r), c, x, k, vpc)
    {
      CellAppend(cells, moreCells, n, s, r, c);
    }
  }

  /** Cell `(r, c)` of page `s` of `a + b` is that cell of page `s` of `a`, or of page `s - n` of `b`. */
  lemma CellAppend<T>(a: seq<T>, b: seq<T>, n: nat, s: nat, r: nat, c: nat)
    requires |a| == n * TILE_SIZE && (s + 1) * TILE_SIZE <= |a| + |b| && r < TILE_DIM && c < TILE_DIM
    ensures TileCell(s, r, c) < |a| + |b|
    ensures s < n ==> TileCell(s, r, c) < |a| && (a + b)[TileCell(s, r, c)] == a[TileCell(s, r, c)]
    ensures n <= s ==> TileCell(s - n, r, c) < |b| && (a + b)[TileCell(s, r, c)] == b[TileCell(s - n, r, c)]
  {
    TileCellInTile(s, r, c);
    if n <= s {
      TileCellInTile(s - n, r, c);
    }
  }

  /**
    One batch: fetch its tiles, run the chunk loop over every slot, and push
    all `tiles_per_batch` data and collected pages.
  */
  method ReaderBatch(valBuf: seq<real>, addrBuf: seq<Addr>, x: seq<real>, vecChunks: nat, batch: nat,
                     bft: nat, fetchEnd: nat, tpb: nat, dat: array<real>, addrCb: array<Addr>, collect: array<real>)
    returns (vals: seq<real>, cells: seq<real>)
    requires batch > 0 && bft <= fetchEnd <= bft + tpb
    requires fetchEnd * TILE_SIZE <= |valBuf| && fetchEnd * TILE_SIZE <= |addrBuf|
    requires tpb * TILE_SIZE <= dat.Length && tpb * TILE_SIZE <= addrCb.Length && tpb * TILE_SIZE <= collect.Length
    requires dat != collect
    requires ChunkStart(ChunkCount(vecChunks, batch), VECS_PER_PAGE * batch) <= |x|
    requires ChunkStart(ChunkCount(vecChunks, batch), VECS_PER_PAGE * batch) <= SENTINEL
    modifies dat, addrCb, collect
    ensures |vals| == tpb * TILE_SIZE && |cells| == tpb * TILE_SIZE
    ensures BatchPushed(vals, cells, valBuf, addrBuf, x, bft, fetchEnd - bft, ChunkCount(vecChunks, batch), VECS_PER_PAGE * batch)
  {
    FetchTiles(valBuf, addrBuf, dat, addrCb, bft, fetchEnd);
    ghost var fetched := dat[..];
    ghost var orig := collect[..];
    ghost var k := ReaderCollect(addrCb[..], collect, tpb, x, vecChunks, batch);
    assert dat[..] == fetched;
    BatchSettled(dat[..], addrCb[..], collect[..], orig, valBuf, addrBuf, x, bft, fetchEnd - bft, tpb, k, VECS_PER_PAGE * batch);
    vals := dat[..tpb * TILE_SIZE];
    cells := collect[..tpb * TILE_SIZE];
  }

  /** Pushing more pages after a pushed prefix keeps that prefix. */
  lemma PushedExtend(vals: seq<real>, cells: seq<real>, moreVals: seq<real>, moreCells: seq<real>,
                     valBuf: seq<real>, addrBuf: seq<Addr>, x: seq<real>, first: nat, m: nat, n: nat, k: nat, vpc: nat)
    requires n <= m && |vals| == m * TILE_SIZE && |cells| == m * TILE_SIZE
    requires BatchPushed(vals, cells, valBuf, addrBuf, x, first, n, k, vpc)
    ensures BatchPushed(vals + moreVals, cells + moreCells, valBuf, addrBuf, x, first, n, k, vpc)
  {
    forall s | 0 <= s < n
      ensures Page(vals + moreVals, s) == Page(valBuf, first + s)
    {
      PageAppend(vals, moreVals, m, s);
    }
    forall s, r, c | 0 <= s < n && 0 <= r < TILE_DIM && 0 <= c < TILE_DIM
      ensures CollectedCell((cells + moreCells)[TileCell(s, r, c)], RowMajorRow(addrBuf, first + s, r), c, x, k, vpc)
    {
      CellAppend(cells, moreCells, m, s, r, c);
    }
  }

  /**
    The batch loop of `kernel_main` on one core, with `bound` the first
    argument of the `std::min` that ends each batch's fetch: batches of
    `tiles_per_batch` tiles from `first_tile_offset` to `first_tile_offset +
    num_tiles`, each fetched up to `min(bound, batch_first_tile +
    tiles_per_batch)` (nothing when that lies before the batch), collected
    over all vector chunks and pushed in full. Every batch pushes
    `tiles_per_batch` pages; the pages of the tiles below `bound` hold those
    matrix tiles and their settled cells, in order.
  */
  method ReaderBatches(valBuf: seq<real>, addrBuf: seq<Addr>, x: seq<real>, vecChunks: nat, batch: nat,
                       first: nat, numTiles: nat, tpb: nat, bound: nat,
                       dat: array<real>, addrCb: array<Addr>, collect: array<real>)
    returns (pushedVals: seq<real>, pushedCells: seq<real>)
    requires batch > 0 && tpb > 0 && bound <= first + numTiles
    requires (first + numTiles) * TILE_SIZE <= |valBuf| && (first + numTiles) * TILE_SIZE <= |addrBuf|
    requires tpb * TILE_SIZE <= dat.Length && tpb * TILE_SIZE <= addrCb.Length && tpb * TILE_SIZE <= collect.Length
    requires dat != collect
    requires ChunkStart(ChunkCount(vecChunks, batch), VECS_PER_PAGE * batch) <= |x|
    requires ChunkStart(ChunkCount(vecChunks, batch), VECS_PER_PAGE * batch) <= SENTINEL
    modifies dat, addrCb, collect
    ensures |pushedVals| == |pushedCells| && numTiles * TILE_SIZE <= |pushedVals| < (numTiles + tpb) * TILE_SIZE
    ensures BatchPushed(pushedVals, pushedCells, valBuf, addrBuf, x, first, if first <= bound then bound - first else 0,
                        ChunkCount(vecChunks, batch), VECS_PER_PAGE * batch)
  {
    var endTile := first + numTiles;
    ghost var reach := if first <= bound then bound else first;
    pushedVals := [];
    pushedCells := [];
    var batchFirst := first;
    ghost var done: nat := 0;
    while batchFirst < endTile
      invariant first <= batchFirst < endTile + tpb && done == (if batchFirst < reach then batchFirst else reach) - first
      invariant |pushedVals| == |pushedCells| == (batchFirst - first) * TILE_SIZE
      invariant BatchPushed(pushedVals, pushedCells, valBuf, addrBuf, x, first, done, ChunkCount(vecChunks, batch), VECS_PER_PAGE * batch)
      decreases endTile - batchFirst
    {
      var fetchEnd := FetchEnd(bound, batchFirst, tpb);
      if fetchEnd < batchFirst {
        fetchEnd := batchFirst;
      }
      var vals, cells := ReaderBatch(valBuf, addrBuf, x, vecChunks, batch, batchFirst, fetchEnd, tpb, dat, addrCb, collect);
      if batchFirst < reach {
        PushedAppend(pushedVals, pushedCells, vals, cells, valBuf, addrBuf, x, first, batchFirst, fetchEnd,
                     ChunkCount(vecChunks, batch), VECS_PER_PAGE * batch);
        done := fetchEnd - first;
      } else {
        PushedExtend(pushedVals, pushedCells, vals, cells, valBuf, addrBuf, x, first, batchFirst - first, done,
                     ChunkCount(vecChunks, batch), VECS_PER_PAGE * batch);
      }
      pushedVals := pushedVals + vals;
      pushedCells := pushedCells + cells;
      batchFirst := batchFirst + tpb;
    }
  }

  /**
    `kernel_main` of the collecting reader on one core, as written: the fetch
    of each batch is bounded by the tile count `num_tiles`. Only the tiles of
    the range below tile `num_tiles` are pushed with their own data and
    settled cells; a core whose range starts at or past `num_tiles` pushes
    no matrix tile at all.
  */
  method ReaderMain(valBuf: seq<real>, addrBuf: seq<Addr>, x: seq<real>, vecChunks: nat, batch: nat,
                    first: nat, numTiles: nat, tpb: nat, dat: array<real>, addrCb: array<Addr>, collect: array<real>)
    returns (pushedVals: seq<real>, pushedCells: seq<real>)
    requires batch > 0 && tpb > 0
    requires (first + numTiles) * TILE_SIZE <= |valBuf| && (first + numTiles) * TILE_SIZE <= |addrBuf|
    requires tpb * TILE_SIZE <= dat.Length && tpb * TILE_SIZE <= addrCb.Length && tpb * TILE_SIZE <= collect.Length
    requires dat != collect
    requires ChunkStart(ChunkCount(vecChunks, batch), VECS_PER_PAGE * batch) <= |x|
    requires ChunkStart(ChunkCount(vecChunks, batch), VECS_PER_PAGE * batch) <= SENTINEL
    modifies dat, addrCb, collect
    ensures |pushedVals| == |pushedCells| && numTiles * TILE_SIZE <= |pushedVals| < (numTiles + tpb) * TILE_SIZE
    ensures BatchPushed(pushedVals, pushedCells, valBuf, addrBuf, x, first, if first <= numTiles then numTiles - first else 0,
                        ChunkCount(vecChunks, batch), VECS_PER_PAGE * batch)
  {
    pushedVals, pushedCells := ReaderBatches(valBuf, addrBuf, x, vecChunks, batch, first, numTiles, tpb, numTiles, dat, addrCb, collect);
  }

  /**
    `kernel_main` with the fetch bounded by the end tile `first_tile_offset +
    num_tiles`: matrix tile `i` of the range is pushed as page `i -
    first_tile_offset` of both channels; its data page is the matrix tile
    and every collected cell is settled.
  */
  method ReaderMainCorrected(valBuf: seq<real>, addrBuf: seq<Addr>, x: seq<real>, vecChunks: nat, batch: nat,
                             first: nat, numTiles: nat, tpb: nat, dat: array<real>, addrCb: array<Addr>, collect: array<real>)
    returns (pushedVals: seq<real>, pushedCells: seq<real>)
    requires batch > 0 && tpb > 0
    requires (first + numTiles) * TILE_SIZE <= |valBuf| && (first + numTiles) * TILE_SIZE <= |addrBuf|
    requires tpb * TILE_SIZE <= dat.Length && tpb * TILE_SIZE <= addrCb.Length && tpb * TILE_SIZE <= collect.Length
    requires dat != collect
    requires ChunkStart(ChunkCount(vecChunks, batch), VECS_PER_PAGE * batch) <= |x|
    requires ChunkStart(ChunkCount(vecChunks, batch), VECS_PER_PAGE * batch) <= SENTINEL
    modifies dat, addrCb, collect
    ensures |pushedVals| == |pushedCells| && numTiles * TILE_SIZE <= |pushedVals| < (numTiles + tpb) * TILE_SIZE
    ensures BatchPushed(pushedVals, pushedCells, valBuf, addrBuf, x, first, numTiles, ChunkCount(vecChunks, batch), VECS_PER_PAGE * batch)
  {
    pushedVals, pushedCells := ReaderBatches(valBuf, addrBuf, x, vecChunks, batch, first, numTiles, tpb, first + numTiles,
                                             dat, addrCb, collect);
  }

  /**
    The reader's collected tiles hold the vector: a cell before its row's
    sentinel whose address is one of the `256 vec_chunks` entries of `x` is
    that entry, and a cell from the sentinel on is 0.
  */
  lemma ReaderCollectsVector(v: real, row: seq<Addr>, c: nat, x: seq<real>, vecChunks: nat, batch: nat)
    requires batch > 0 && |row| == TILE_DIM && c < TILE_DIM && 1 <= vecChunks
    requires CollectedCell(v, row, c, x, ChunkCount(vecChunks, batch), VECS_PER_PAGE * batch)
    ensures FirstSentinel(row) <= c ==> v == 0.0
    ensures c < FirstSentinel(row) && row[c] < VECS_PER_PAGE * vecChunks && row[c] < |x| ==> v == x[row[c]]
  {
    ChunksCoverVector(vecChunks, batch);
  }
}
