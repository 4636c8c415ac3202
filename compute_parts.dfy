/**
  The gather step shared by the kernels: copying entries of the resident
  vector chunk into the "collected" tile that sits beside each address tile.

  `CollectFor` handles one cell, `CollectForMulTile` one tile for one chunk,
  and `UnpackerCollect` a whole batch of tiles across all vector chunks, as a
  resumable per-row state machine (`row_progress`).
*/
module ComputeParts {
  import opened Faced

  /**
    The value a collected cell holds after `collect_for` saw address `a` with
    the chunk `[lo, hi)` resident in `vec`: the chunk entry when `a` is inside
    the chunk, the cell's previous value otherwise.
  */
  function Gathered(cell: real, a: Addr, vec: seq<real>, lo: nat, hi: nat): real
    requires hi <= lo + |vec|
  {
    if lo <= a < hi then vec[a - lo] else cell
  }

  /**
    `collect_for`: reports the end of the row exactly for the sentinel address
    outside the chunk, and writes `*result` only for an address inside it.
  */
  method CollectFor(result: array<real>, at: nat, a: Addr, vec: seq<real>, lo: nat, hi: nat) returns (done: bool)
    requires at < result.Length
    requires hi <= lo + |vec|
    modifies result
    ensures done <==> a == SENTINEL && !(lo <= a < hi)
    ensures result[at] == Gathered(old(result[at]), a, vec, lo, hi)
    ensures forall j :: 0 <= j < result.Length && j != at ==> result[j] == old(result[j])
  {
    if a < lo || a >= hi {
      if a == SENTINEL {
        return true;
      }
    } else {
      var val := vec[a - lo];
      result[at] := val;
    }
    return false;
  }

  /** What `collect_for_mul_tile` leaves in cell `(r, c)` of a tile whose previous value is `cell`. */
  function MulTileCell(addr: seq<Addr>, tile: nat, r: nat, c: nat, cell: real, vec: seq<real>, lo: nat, hi: nat): real
    requires r < TILE_DIM && c < TILE_DIM && (tile + 1) * TILE_SIZE <= |addr|
    requires hi <= lo + |vec|
  {
    if c < FirstSentinel(TileRow(addr, tile, r)) then Gathered(cell, addr[TileCell(tile, r, c)], vec, lo, hi)
    else cell
  }

  /**
    One row of `collect_for_mul_tile`: the column loop, stepping both pointers
    by 1, or by 241 when leaving the left face, and stopping at the first
    sentinel. Only the cells of that row can change.
  */
  method CollectRow(addr: seq<Addr>, collect: array<real>, tile: nat, rowIdx: nat, rowStart: nat,
                    vec: seq<real>, offset: nat, chunkEnd: nat)
    requires rowIdx < TILE_DIM && rowStart == TileCell(tile, rowIdx, 0)
    requires (tile + 1) * TILE_SIZE <= |addr| && (tile + 1) * TILE_SIZE <= collect.Length
    requires chunkEnd <= offset + |vec| && chunkEnd <= SENTINEL
    modifies collect
    ensures forall c :: 0 <= c < TILE_DIM ==>
      collect[TileCell(tile, rowIdx, c)] ==
        MulTileCell(addr, tile, rowIdx, c, old(collect[TileCell(tile, rowIdx, c)]), vec, offset, chunkEnd)
    ensures forall r, c :: 0 <= r < TILE_DIM && 0 <= c < TILE_DIM && r != rowIdx ==>
      collect[TileCell(tile, r, c)] == old(collect[TileCell(tile, r, c)])
    ensures forall j :: 0 <= j < collect.Length && !(tile * TILE_SIZE <= j < (tile + 1) * TILE_SIZE) ==>
      collect[j] == old(collect[j])
  {
    ghost var orig := collect[..];
    ghost var row := TileRow(addr, tile, rowIdx);
    var collectPtr := rowStart;
    var addrEntry := rowStart;
    var colIdx := 0;
    while colIdx < 32
      invariant 0 <= colIdx <= 32
      invariant colIdx < 32 ==> collectPtr == TileCell(tile, rowIdx, colIdx) && addrEntry == collectPtr
      invariant colIdx <= FirstSentinel(row)
      invariant forall c :: 0 <= c < TILE_DIM ==>
        collect[TileCell(tile, rowIdx, c)] ==
          if c < colIdx then MulTileCell(addr, tile, rowIdx, c, orig[TileCell(tile, rowIdx, c)], vec, offset, chunkEnd)
          else orig[TileCell(tile, rowIdx, c)]
      invariant RowFrame(collect[..], orig, tile, rowIdx)
    {
      TileCellInTile(tile, rowIdx, colIdx);
      var adr := addr[addrEntry];
      ghost var before := collect[..];
      var lineDone := CollectFor(collect, collectPtr, adr, vec, offset, chunkEnd);
      assert collect[..] == before[collectPtr := collect[collectPtr]];
      RowFrameWrite(before, orig, tile, rowIdx, colIdx, collect[collectPtr]);
      if lineDone {
        FirstSentinelBefore(row);
        assert colIdx == FirstSentinel(row);
        break;
      }
      if colIdx == 15 {
        collectPtr := collectPtr + NEXT_FACE_COL_OFFSET;
        addrEntry := addrEntry + NEXT_FACE_COL_OFFSET;
      } else {
        collectPtr := collectPtr + 1;
        addrEntry := addrEntry + 1;
      }
      if colIdx + 1 < 32 {
        ColStepIsFaced(rowIdx, colIdx);
      }
      colIdx := colIdx + 1;
    }
  }

  /**
    Between `before` and `now`, no cell of tile `tile` outside row `rowIdx`
    and no entry outside the tile has changed.
  */
  ghost predicate RowFrame(now: seq<real>, before: seq<real>, tile: nat, rowIdx: nat)
  {
    |now| == |before| && (tile + 1) * TILE_SIZE <= |now| &&
    (forall r, c :: 0 <= r < TILE_DIM && 0 <= c < TILE_DIM && r != rowIdx ==>
      now[TileCell(tile, r, c)] == before[TileCell(tile, r, c)]) &&
    (forall j :: 0 <= j < |now| && !(tile * TILE_SIZE <= j < (tile + 1) * TILE_SIZE) ==> now[j] == before[j])
  }

  /**
    Storing into cell `(rowIdx, colIdx)` keeps `RowFrame` and leaves every
    other cell of the row as it was.
  */
  lemma RowFrameWrite(now: seq<real>, before: seq<real>, tile: nat, rowIdx: nat, colIdx: nat, v: real)
    requires rowIdx < TILE_DIM && colIdx < TILE_DIM
    requires RowFrame(now, before, tile, rowIdx)
    ensures RowFrame(now[TileCell(tile, rowIdx, colIdx) := v], before, tile, rowIdx)
    ensures forall c :: 0 <= c < TILE_DIM && c != colIdx ==>
      now[TileCell(tile, rowIdx, colIdx) := v][TileCell(tile, rowIdx, c)] == now[TileCell(tile, rowIdx, c)]
  {
    var at := TileCell(tile, rowIdx, colIdx);
    TileCellInTile(tile, rowIdx, colIdx);
    forall r, c | 0 <= r < TILE_DIM && 0 <= c < TILE_DIM && (r != rowIdx || c != colIdx)
      ensures TileCell(tile, r, c) != at
    {
      if TileCell(tile, r, c) == at {
        TileCellInjective(tile, r, c, tile, rowIdx, colIdx);
      }
    }
  }

  /**
    `collect_for_mul_tile` of the compute kernels: both the address pointer and
    the collected pointer walk the faced layout with the steps 1 / 241 along a
    row and 16 / 272 between rows, so cell `(r, c)` is visited at
    `faced_offset(r, c)`. Each row stops at its first sentinel; the cells from
    there on keep their value. Nothing outside the tile changes.
  */
  method CollectForMulTile(addr: seq<Addr>, collect: array<real>, tile: nat, vec: seq<real>, offset: nat, vecsPerChunk: nat)
    requires (tile + 1) * TILE_SIZE <= |addr| && (tile + 1) * TILE_SIZE <= collect.Length
    requires vecsPerChunk <= |vec|
    requires offset + vecsPerChunk <= SENTINEL
    modifies collect
    ensures forall r, c :: 0 <= r < TILE_DIM && 0 <= c < TILE_DIM ==>
      collect[TileCell(tile, r, c)] ==
        MulTileCell(addr, tile, r, c, old(collect[TileCell(tile, r, c)]), vec, offset, offset + vecsPerChunk)
    ensures forall j :: 0 <= j < collect.Length && !(tile * TILE_SIZE <= j < (tile + 1) * TILE_SIZE) ==>
      collect[j] == old(collect[j])
  {
    var chunkEnd := offset + vecsPerChunk;
    ghost var orig := collect[..];
    var collectRow := tile * TILE_SIZE;
    var rowIdx := 0;
    while rowIdx < 32
      invariant 0 <= rowIdx <= 32
      invariant rowIdx < 32 ==> collectRow == TileCell(tile, rowIdx, 0)
      invariant forall r, c :: 0 <= r < TILE_DIM && 0 <= c < TILE_DIM ==>
        collect[TileCell(tile, r, c)] ==
          if r < rowIdx then MulTileCell(addr, tile, r, c, orig[TileCell(tile, r, c)], vec, offset, chunkEnd)
          else orig[TileCell(tile, r, c)]
      invariant forall j :: 0 <= j < collect.Length && !(tile * TILE_SIZE <= j < (tile + 1) * TILE_SIZE) ==>
        collect[j] == orig[j]
    {
      ghost var before := collect[..];
      CollectRow(addr, collect, tile, rowIdx, collectRow, vec, offset, chunkEnd);
      forall r, c | 0 <= r < TILE_DIM && 0 <= c < TILE_DIM && r != rowIdx
        ensures collect[TileCell(tile, r, c)] == before[TileCell(tile, r, c)]
      {
        TileCellInTile(tile, r, c);
      }
      if rowIdx == 15 {
        collectRow := collectRow + NEXT_FACE_ROW_OFFSET;
      } else {
        collectRow := collectRow + NEXT_ROW_OFFSET;
      }
      if rowIdx + 1 < 32 {
        RowStepIsFaced(rowIdx);
      }
      rowIdx := rowIdx + 1;
    }
  }

  // ---------------------------------------------------------------------------
  // unpacker_collect: the resumable per-row walk across vector chunks
  // ---------------------------------------------------------------------------

  /**
    Where a walk along `row` that starts at column `from` stops for a chunk
    ending at `hi`: the first column holding the sentinel or an address at or
    beyond `hi`, or 32 when there is none.
  */
  function WalkStop(row: seq<Addr>, from: nat, hi: nat): (k: nat)
    requires |row| == TILE_DIM && from <= TILE_DIM
    ensures from <= k <= TILE_DIM
    ensures k < TILE_DIM ==> row[k] == SENTINEL || row[k] >= hi
    decreases TILE_DIM - from
  {
    if from == TILE_DIM || row[from] == SENTINEL || row[from] >= hi then from
    else WalkStop(row, from + 1, hi)
  }

  /** Every column a walk passes over holds an address inside the chunk, not the sentinel. */
  lemma {:induction false} WalkStopBefore(row: seq<Addr>, from: nat, hi: nat)
    requires |row| == TILE_DIM && from <= TILE_DIM
    ensures forall c :: from <= c < WalkStop(row, from, hi) ==> row[c] != SENTINEL && row[c] < hi
    decreases TILE_DIM - from
  {
    if from < TILE_DIM && row[from] != SENTINEL && row[from] < hi {
      WalkStopBefore(row, from + 1, hi);
    }
  }

  /**
    The `row_progress` entry after one chunk: a finished row (32) stays
    finished; otherwise the walk ends at the sentinel, which finishes the row,
    or at the first address beyond the chunk, where the next chunk resumes.
  */
  function NextProgress(row: seq<Addr>, p: nat, hi: nat): (q: nat)
    requires |row| == TILE_DIM
    ensures p <= TILE_DIM ==> p <= q <= TILE_DIM
  {
    if p >= TILE_DIM then p
    else
      var k := WalkStop(row, p, hi);
      if k < TILE_DIM && row[k] == SENTINEL then TILE_DIM else k
  }

  /**
    Where chunk `v` starts: `v * vpc`, accumulated one chunk at a time
    (`ChunkStartIsProduct` relates it to the product computed by
    the kernel).
  */
  function ChunkStart(v: nat, vpc: nat): nat
  {
    if v == 0 then 0 else ChunkStart(v - 1, vpc) + vpc
  }

  /** The `row_progress` entry of a row after the chunks `0 .. w - 1`, each `vpc` addresses wide. */
  function Progress(row: seq<Addr>, w: nat, vpc: nat): (p: nat)
    requires |row| == TILE_DIM
    ensures p <= TILE_DIM
  {
    if w == 0 then 0 else NextProgress(row, Progress(row, w - 1, vpc), ChunkStart(w, vpc))
  }

  /**
    What one chunk `[lo, hi)` does to cell `c` of a row whose walk resumes at
    column `p`: a cell the walk passes over receives its vector entry when its
    address is in the chunk and keeps `cell` otherwise. The entries are read
    from `vec`, which holds the vector from index `base` on: the resident
    chunk (`base == lo`) in the kernel, the whole vector (`base == 0`) in the
    specification.
  */
  function ChunkCell(row: seq<Addr>, c: nat, cell: real, p: nat, vec: seq<real>, base: nat, lo: nat, hi: nat): real
    requires |row| == TILE_DIM && c < TILE_DIM && base <= lo && hi <= base + |vec|
  {
    if p < TILE_DIM && p <= c < WalkStop(row, p, hi) && lo <= row[c] then
      WalkStopBefore(row, p, hi);
      vec[row[c] - base]
    else cell
  }

  /** Reading a chunk from its resident copy or from the whole vector gives the same cell. */
  lemma ChunkCellResident(row: seq<Addr>, c: nat, cell: real, p: nat, x: seq<real>, lo: nat, hi: nat)
    requires |row| == TILE_DIM && c < TILE_DIM && lo <= hi <= |x|
    ensures ChunkCell(row, c, cell, p, x[lo .. hi], lo, lo, hi) == ChunkCell(row, c, cell, p, x, 0, lo, hi)
  {
    if p < TILE_DIM {
      WalkStopBefore(row, p, hi);
    }
  }

  /**
    Cell `c` of a row after the chunks `0 .. w - 1` of the vector `x`, chunk
    `v` being `x[v * vpc .. v * vpc + vpc]`, starting from the value `init`.
  */
  function CellAfter(row: seq<Addr>, c: nat, init: real, x: seq<real>, w: nat, vpc: nat): real
    requires |row| == TILE_DIM && c < TILE_DIM && ChunkStart(w, vpc) <= |x|
  {
    if w == 0 then init
    else
      var lo := ChunkStart(w - 1, vpc);
      ChunkCell(row, c, CellAfter(row, c, init, x, w - 1, vpc), Progress(row, w - 1, vpc), x, 0, lo, lo + vpc)
  }

  /** One chunk more: chunk `w - 1` spans `[ChunkStart(w - 1), ChunkStart(w - 1) + vpc)`. */
  lemma ProgressStep(row: seq<Addr>, w: nat, vpc: nat)
    requires |row| == TILE_DIM && w > 0
    ensures ChunkStart(w, vpc) == ChunkStart(w - 1, vpc) + vpc
    ensures Progress(row, w, vpc) == NextProgress(row, Progress(row, w - 1, vpc), ChunkStart(w - 1, vpc) + vpc)
  {
  }

  /** A row's `row_progress` entry never decreases from one chunk to a later one. */
  lemma {:induction false} ProgressMonotone(row: seq<Addr>, w1: nat, w2: nat, vpc: nat)
    requires |row| == TILE_DIM && w1 <= w2
    ensures Progress(row, w1, vpc) <= Progress(row, w2, vpc)
    decreases w2
  {
    if w1 < w2 {
      ProgressMonotone(row, w1, w2 - 1, vpc);
    }
  }

  /** An unfinished row has not gone past its first sentinel. */
  lemma {:induction false} ProgressBeforeSentinel(row: seq<Addr>, w: nat, vpc: nat)
    requires |row| == TILE_DIM
    ensures Progress(row, w, vpc) < TILE_DIM ==> Progress(row, w, vpc) <= FirstSentinel(row)
  {
    if w > 0 {
      ProgressBeforeSentinel(row, w - 1, vpc);
      var p := Progress(row, w - 1, vpc);
      if p < TILE_DIM {
        WalkStopBefore(row, p, ChunkStart(w, vpc));
      }
    }
  }

  /** A row is marked finished (32) once its walk meets the sentinel, and stays finished. */
  lemma FinishedAtSentinel(row: seq<Addr>, w: nat, vpc: nat)
    requires |row| == TILE_DIM && w > 0
    requires Progress(row, w - 1, vpc) < TILE_DIM
    requires WalkStop(row, Progress(row, w - 1, vpc), ChunkStart(w, vpc)) == FirstSentinel(row) < TILE_DIM
    ensures forall w' :: w <= w' ==> Progress(row, w', vpc) == TILE_DIM
  {
    forall w' | w <= w'
      ensures Progress(row, w', vpc) == TILE_DIM
    {
      ProgressMonotone(row, w, w', vpc);
    }
  }

  /** One chunk writes only cells before the sentinel, each with the entry of its own in-chunk address. */
  lemma ChunkCellWrites(row: seq<Addr>, c: nat, cell: real, p: nat, x: seq<real>, lo: nat, hi: nat)
    requires |row| == TILE_DIM && c < TILE_DIM && lo <= hi <= |x|
    requires p < TILE_DIM ==> p <= FirstSentinel(row)
    ensures ChunkCell(row, c, cell, p, x, 0, lo, hi) == cell ||
      (c < FirstSentinel(row) && lo <= row[c] < hi && ChunkCell(row, c, cell, p, x, 0, lo, hi) == x[row[c]])
  {
    if p < TILE_DIM {
      WalkStopBefore(row, p, hi);
    }
  }

  /**
    The only cells the collection ever writes are cells before the row's
    sentinel, and a written cell holds the vector entry of its own address,
    which lies in some chunk already seen.
  */
  lemma {:induction false} CellAfterWritesOnlyAddressed(row: seq<Addr>, c: nat, init: real, x: seq<real>, w: nat, vpc: nat)
    requires |row| == TILE_DIM && c < TILE_DIM && ChunkStart(w, vpc) <= |x|
    ensures CellAfter(row, c, init, x, w, vpc) == init ||
      (c < FirstSentinel(row) && row[c] < ChunkStart(w, vpc) && CellAfter(row, c, init, x, w, vpc) == x[row[c]])
  {
    if w > 0 {
      var lo := ChunkStart(w - 1, vpc);
      var prev := CellAfter(row, c, init, x, w - 1, vpc);
      var p := Progress(row, w - 1, vpc);
      var cur := CellAfter(row, c, init, x, w, vpc);
      assert ChunkStart(w, vpc) == lo + vpc;
      CellAfterStep(row, c, init, x, w, vpc);
      CellAfterWritesOnlyAddressed(row, c, init, x, w - 1, vpc);
      ProgressBeforeSentinel(row, w - 1, vpc);
      ChunkCellWrites(row, c, prev, p, x, lo, lo + vpc);
      if cur == prev {
        assert prev == init || (c < FirstSentinel(row) && row[c] < lo && prev == x[row[c]]);
      } else {
        assert c < FirstSentinel(row) && row[c] < lo + vpc && cur == x[row[c]];
      }
    }
  }

  /** The addresses before a row's sentinel never decrease, as ELLPACK rows built from sorted CSR rows are. */
  predicate RowSorted(row: seq<Addr>)
  {
    forall i, j :: 0 <= i <= j < FirstSentinel(row) ==> AddrOrdered(row, i, j)
  }

  /** The address in column `i` is at most the one in column `j`. */
  predicate AddrOrdered(row: seq<Addr>, i: nat, j: nat)
    requires i <= j < |row|
  {
    row[i] <= row[j]
  }

  /**
    One chunk `[lo, hi)` keeps the walk invariant: if every address from an
    unfinished mark `p` up to the sentinel is at least `lo`, then the same
    holds for the new mark with `hi`, and every cell from `p` up to both the
    new mark and the sentinel receives its vector entry.
  */
  lemma ChunkStepInvariant(row: seq<Addr>, p: nat, hi: nat)
    requires |row| == TILE_DIM && RowSorted(row) && p < TILE_DIM && p <= FirstSentinel(row)
    ensures NextProgress(row, p, hi) < TILE_DIM ==>
      NextProgress(row, p, hi) <= FirstSentinel(row) &&
      forall c :: NextProgress(row, p, hi) <= c < FirstSentinel(row) ==> row[c] >= hi
    ensures NextProgress(row, p, hi) <= WalkStop(row, p, hi) || FirstSentinel(row) <= WalkStop(row, p, hi)
  {
    var s := FirstSentinel(row);
    var k := WalkStop(row, p, hi);
    WalkStopBefore(row, p, hi);
    FirstSentinelBefore(row);
    if NextProgress(row, p, hi) < TILE_DIM {
      forall c | k <= c < s
        ensures row[c] >= hi
      {
        assert AddrOrdered(row, k, c);
      }
    }
  }

  /**
    The walk invariant on the progress marks: after `w` chunks an unfinished
    mark has not passed the sentinel, and every address from it up to the
    sentinel lies beyond the chunks seen so far.
  */
  lemma {:induction false} ProgressInvariant(row: seq<Addr>, w: nat, vpc: nat)
    requires |row| == TILE_DIM && RowSorted(row)
    ensures Progress(row, w, vpc) < TILE_DIM ==>
      Progress(row, w, vpc) <= FirstSentinel(row) &&
      forall c :: Progress(row, w, vpc) <= c < FirstSentinel(row) ==> row[c] >= ChunkStart(w, vpc)
  {
    if w > 0 {
      ProgressInvariant(row, w - 1, vpc);
      var p := Progress(row, w - 1, vpc);
      if p < TILE_DIM {
        ChunkStepInvariant(row, p, ChunkStart(w, vpc));
      }
    }
  }

  /**
    The walk invariant on the cells: after `w` chunks, a cell before both the
    progress mark and the sentinel holds the vector entry of its address, which
    lies in the chunks seen so far.
  */
  lemma {:induction false} CellCollected(row: seq<Addr>, c: nat, init: real, x: seq<real>, w: nat, vpc: nat)
    requires |row| == TILE_DIM && c < TILE_DIM && ChunkStart(w, vpc) <= |x| && RowSorted(row)
    requires c < FirstSentinel(row) && c < Progress(row, w, vpc)
    ensures row[c] < ChunkStart(w, vpc) && CellAfter(row, c, init, x, w, vpc) == x[row[c]]
  {
    assert w > 0;
    var p := Progress(row, w - 1, vpc);
    if c < p {
      CellAfterStep(row, c, init, x, w, vpc);
      CellCollected(row, c, init, x, w - 1, vpc);
      assert ChunkStart(w - 1, vpc) <= ChunkStart(w, vpc);
    } else {
      CellCollectedByChunk(row, c, init, x, w, vpc);
    }
  }

  /** The cells chunk `w - 1` walks over receive their vector entries. */
  lemma CellCollectedByChunk(row: seq<Addr>, c: nat, init: real, x: seq<real>, w: nat, vpc: nat)
    requires |row| == TILE_DIM && c < TILE_DIM && ChunkStart(w, vpc) <= |x| && RowSorted(row) && w > 0
    requires Progress(row, w - 1, vpc) <= c < FirstSentinel(row) && c < Progress(row, w, vpc)
    ensures row[c] < ChunkStart(w, vpc) && CellAfter(row, c, init, x, w, vpc) == x[row[c]]
  {
    var lo := ChunkStart(w - 1, vpc);
    var p := Progress(row, w - 1, vpc);
    ProgressStep(row, w, vpc);
    ProgressInvariant(row, w - 1, vpc);
    CellAfterStep(row, c, init, x, w, vpc);
    ChunkCollectsCell(row, c, CellAfter(row, c, init, x, w - 1, vpc), p, x, lo, lo + vpc);
  }

  /** Chunk `w - 1` acting on cell `c`. */
  lemma CellAfterStep(row: seq<Addr>, c: nat, init: real, x: seq<real>, w: nat, vpc: nat)
    requires |row| == TILE_DIM && c < TILE_DIM && ChunkStart(w, vpc) <= |x| && w > 0
    ensures ChunkStart(w - 1, vpc) + vpc <= |x|
    ensures CellAfter(row, c, init, x, w, vpc) ==
      ChunkCell(row, c, CellAfter(row, c, init, x, w - 1, vpc), Progress(row, w - 1, vpc),
                x, 0, ChunkStart(w - 1, vpc), ChunkStart(w - 1, vpc) + vpc)
  {
  }

  /**
    A cell of a sorted row that lies before the sentinel and before the new
    mark of a chunk `[lo, hi)`, with an address at or beyond `lo`, receives its
    vector entry from that chunk.
  */
  lemma ChunkCollectsCell(row: seq<Addr>, c: nat, cell: real, p: nat, x: seq<real>, lo: nat, hi: nat)
    requires |row| == TILE_DIM && RowSorted(row) && lo <= hi <= |x|
    requires p < TILE_DIM && p <= FirstSentinel(row)
    requires p <= c < FirstSentinel(row) && c < NextProgress(row, p, hi) && lo <= row[c]
    ensures row[c] < hi && ChunkCell(row, c, cell, p, x, 0, lo, hi) == x[row[c]]
  {
    ChunkStepInvariant(row, p, hi);
    WalkStopBefore(row, p, hi);
  }

  /**
    Completeness of `unpacker_collect`: when the pre-sentinel addresses of a
    row never decrease and all lie in the chunks processed, every cell before
    the sentinel ends up holding its vector entry.
  */
  lemma CollectComplete(row: seq<Addr>, init: seq<real>, x: seq<real>, w: nat, vpc: nat)
    requires |row| == TILE_DIM && |init| == TILE_DIM && ChunkStart(w, vpc) <= |x| && RowSorted(row)
    requires forall c :: 0 <= c < FirstSentinel(row) ==> row[c] < ChunkStart(w, vpc)
    ensures forall c :: 0 <= c < FirstSentinel(row) ==> CellAfter(row, c, init[c], x, w, vpc) == x[row[c]]
  {
    ProgressInvariant(row, w, vpc);
    forall c | 0 <= c < FirstSentinel(row)
      ensures CellAfter(row, c, init[c], x, w, vpc) == x[row[c]]
    {
      CellCollected(row, c, init[c], x, w, vpc);
    }
  }

  /** `ChunkStart` is the product `v * vpc` the kernel computes. */
  lemma {:induction false} ChunkStartIsProduct(v: nat, vpc: nat)
    ensures ChunkStart(v, vpc) == v * vpc
  {
    if v > 0 {
      ChunkStartIsProduct(v - 1, vpc);
    }
  }

  /** Later chunks start no earlier. */
  lemma {:induction false} ChunkStartMonotone(v1: nat, v2: nat, vpc: nat)
    requires v1 <= v2
    ensures ChunkStart(v1, vpc) <= ChunkStart(v2, vpc)
    decreases v2
  {
    if v1 < v2 {
      ChunkStartMonotone(v1, v2 - 1, vpc);
    }
  }

  /** Index of the `row_progress` entry of row `rowIdx` of the `tile`-th tile of the batch. */
  function Slot(tile: nat, rowIdx: nat): nat
  {
    tile * TILE_DIM + rowIdx
  }

  /**
    The `while (colIdx < 32)` walk of `unpacker_collect` for one row and one
    chunk `[lo, hi)`, resuming at column `start`: it reads the address at the
    explicit quadrant offset, finishes the row on the sentinel, pauses on an
    address beyond the chunk and copies in-chunk entries. It returns the new
    `row_progress` entry; only cells of this row can change.
  */
  method WalkRow(addr: seq<Addr>, collect: array<real>, tile: nat, tileBase: nat, rowIdx: nat, start: nat,
                 vec: seq<real>, lo: nat, hi: nat) returns (colIdx: nat)
    requires tileBase == tile * TILE_SIZE && rowIdx < TILE_DIM && start < TILE_DIM
    requires (tile + 1) * TILE_SIZE <= |addr| && (tile + 1) * TILE_SIZE <= collect.Length
    requires hi <= lo + |vec|
    modifies collect
    ensures colIdx == NextProgress(TileRow(addr, tile, rowIdx), start, hi)
    ensures forall c :: 0 <= c < TILE_DIM ==>
      collect[TileCell(tile, rowIdx, c)] ==
        ChunkCell(TileRow(addr, tile, rowIdx), c, old(collect[TileCell(tile, rowIdx, c)]), start, vec, lo, lo, hi)
    ensures forall r, c :: 0 <= r < TILE_DIM && 0 <= c < TILE_DIM && r != rowIdx ==>
      collect[TileCell(tile, r, c)] == old(collect[TileCell(tile, r, c)])
    ensures forall j :: 0 <= j < collect.Length && !(tile * TILE_SIZE <= j < (tile + 1) * TILE_SIZE) ==>
      collect[j] == old(collect[j])
  {
    ghost var row := TileRow(addr, tile, rowIdx);
    ghost var orig := collect[..];
    ghost var walked := start;
    WalkStopBefore(row, start, hi);
    colIdx := start;
    while colIdx < 32
      invariant start <= colIdx <= WalkStop(row, start, hi) && walked == colIdx
      invariant RowWalked(collect[..], orig, row, tile, rowIdx, start, colIdx, vec, lo, hi)
      invariant RowFrame(collect[..], orig, tile, rowIdx)
    {
      var offset := QuadrantOffset(rowIdx, colIdx);
      var a := addr[tileBase + offset];
      assert a == row[colIdx];
      if a == SENTINEL || a >= hi {
        assert WalkStop(row, start, hi) == colIdx;
        if a == SENTINEL {
          colIdx := 32;
        }
        break;
      }
      CollectColumn(collect, tile, tileBase + offset, rowIdx, colIdx, a, vec, lo, hi, row, orig, start);
      colIdx := colIdx + 1;
      walked := colIdx;
    }
    assert walked == WalkStop(row, start, hi);
  }

  /**
    One column of the walk of `unpacker_collect` whose address `a` is neither
    the sentinel nor beyond the chunk: the entry is copied into the cell at
    `at` when `a` is at least the chunk start.
  */
  method CollectColumn(collect: array<real>, tile: nat, at: nat, rowIdx: nat, colIdx: nat, a: Addr,
                       vec: seq<real>, lo: nat, hi: nat, ghost row: seq<Addr>, ghost orig: seq<real>, ghost start: nat)
    requires rowIdx < TILE_DIM && colIdx < TILE_DIM && at == TileCell(tile, rowIdx, colIdx)
    requires RowWalked(collect[..], orig, row, tile, rowIdx, start, colIdx, vec, lo, hi)
    requires RowFrame(collect[..], orig, tile, rowIdx)
    requires start < TILE_DIM && start <= colIdx < WalkStop(row, start, hi) && row[colIdx] == a
    modifies collect
    ensures RowWalked(collect[..], orig, row, tile, rowIdx, start, colIdx + 1, vec, lo, hi)
    ensures RowFrame(collect[..], orig, tile, rowIdx)
  {
    ghost var before := collect[..];
    WalkStopBefore(row, start, hi);
    if a >= lo {
      collect[at] := vec[a - lo];
      assert collect[..] == before[at := vec[a - lo]];
      RowFrameWrite(before, orig, tile, rowIdx, colIdx, vec[a - lo]);
    }
    RowWalkedStep(before, collect[..], orig, row, tile, rowIdx, start, colIdx, vec, lo, hi);
  }

  /**
    The cells of row `rowIdx` after the walk has passed the columns
    `start .. k - 1`: those hold what `ChunkCell` gives, the others are as
    in `orig`.
  */
  ghost predicate RowWalked(now: seq<real>, orig: seq<real>, row: seq<Addr>, tile: nat, rowIdx: nat, start: nat, k: nat,
                            vec: seq<real>, lo: nat, hi: nat)
  {
    |row| == TILE_DIM && rowIdx < TILE_DIM && hi <= lo + |vec| &&
    |now| == |orig| && (tile + 1) * TILE_SIZE <= |now| &&
    forall c :: 0 <= c < TILE_DIM ==>
      now[TileCell(tile, rowIdx, c)] ==
        if c < k then ChunkCell(row, c, orig[TileCell(tile, rowIdx, c)], start, vec, lo, lo, hi)
        else orig[TileCell(tile, rowIdx, c)]
  }

  /** One column more of the walk: column `k` receives its entry when its address is at least `lo`. */
  lemma RowWalkedStep(now: seq<real>, next: seq<real>, orig: seq<real>, row: seq<Addr>, tile: nat, rowIdx: nat,
                      start: nat, k: nat, vec: seq<real>, lo: nat, hi: nat)
    requires RowWalked(now, orig, row, tile, rowIdx, start, k, vec, lo, hi)
    requires start < TILE_DIM && start <= k < WalkStop(row, start, hi)
    requires |next| == |now|
    requires next[TileCell(tile, rowIdx, k)] == ChunkCell(row, k, now[TileCell(tile, rowIdx, k)], start, vec, lo, lo, hi)
    requires forall c :: 0 <= c < TILE_DIM && c != k ==> next[TileCell(tile, rowIdx, c)] == now[TileCell(tile, rowIdx, c)]
    ensures RowWalked(next, orig, row, tile, rowIdx, start, k + 1, vec, lo, hi)
  {
  }

  /**
    The row loop of `unpacker_collect` over the `i`-th tile of the batch, which
    is tile `tile` of the address and collected buffers, for one chunk: a row
    whose `row_progress` entry is 32 is skipped, any other row is walked from
    its entry and the entry is updated. Only this tile's cells and this tile's
    32 entries can change.
  */
  method CollectTileChunk(addr: seq<Addr>, collect: array<real>, progress: array<nat>, i: nat, tile: nat, tileBase: nat,
                          vec: seq<real>, lo: nat, hi: nat)
    requires tileBase == tile * TILE_SIZE && progress.Length == 8 * TILE_DIM && i < 8
    requires (tile + 1) * TILE_SIZE <= |addr| && (tile + 1) * TILE_SIZE <= collect.Length
    requires hi <= lo + |vec|
    modifies collect, progress
    ensures TileChunkEffect(addr, old(collect[..]), collect[..], old(progress[..]), progress[..], i, tile, vec, lo, hi)
  {
    ghost var orig := collect[..];
    ghost var origProgress := progress[..];
    var rowIdx := 0;
    while rowIdx < 32
      invariant 0 <= rowIdx <= 32
      invariant forall r :: 0 <= r < TILE_DIM ==>
        progress[Slot(i, r)] ==
          if r < rowIdx then NextProgress(TileRow(addr, tile, r), origProgress[Slot(i, r)], hi)
          else origProgress[Slot(i, r)]
      invariant forall r, c :: 0 <= r < TILE_DIM && 0 <= c < TILE_DIM ==>
        collect[TileCell(tile, r, c)] ==
          if r < rowIdx then ChunkCell(TileRow(addr, tile, r), c, orig[TileCell(tile, r, c)], origProgress[Slot(i, r)], vec, lo, lo, hi)
          else orig[TileCell(tile, r, c)]
      invariant forall j :: 0 <= j < collect.Length && !(tile * TILE_SIZE <= j < (tile + 1) * TILE_SIZE) ==>
        collect[j] == orig[j]
      invariant forall k :: 0 <= k < progress.Length && !(i * TILE_DIM <= k < (i + 1) * TILE_DIM) ==>
        progress[k] == origProgress[k]
    {
      var colIdx := progress[Slot(i, rowIdx)];
      if colIdx < 32 {
        colIdx := WalkRow(addr, collect, tile, tileBase, rowIdx, colIdx, vec, lo, hi);
        progress[Slot(i, rowIdx)] := colIdx;
      }
      rowIdx := rowIdx + 1;
    }
    assert TileChunkEffect(addr, orig, collect[..], origProgress, progress[..], i, tile, vec, lo, hi);
  }

  /**
    What the row loop over one tile does for one chunk, on the states before
    and after: the tile's `row_progress` entries and cells advance as
    `NextProgress` and `ChunkCell` say, everything else stays.
  */
  ghost predicate TileChunkEffect(addr: seq<Addr>, before: seq<real>, after: seq<real>, beforeP: seq<nat>, afterP: seq<nat>,
                                  i: nat, tile: nat, vec: seq<real>, lo: nat, hi: nat)
  {
    |after| == |before| && |afterP| == |beforeP| == 8 * TILE_DIM && i < 8 &&
    (tile + 1) * TILE_SIZE <= |addr| && (tile + 1) * TILE_SIZE <= |before| && hi <= lo + |vec| &&
    (forall r :: 0 <= r < TILE_DIM ==>
      afterP[Slot(i, r)] == NextProgress(TileRow(addr, tile, r), beforeP[Slot(i, r)], hi)) &&
    (forall r, c :: 0 <= r < TILE_DIM && 0 <= c < TILE_DIM ==>
      after[TileCell(tile, r, c)] ==
        ChunkCell(TileRow(addr, tile, r), c, before[TileCell(tile, r, c)], beforeP[Slot(i, r)], vec, lo, lo, hi)) &&
    (forall j :: 0 <= j < |after| && !(tile * TILE_SIZE <= j < (tile + 1) * TILE_SIZE) ==> after[j] == before[j]) &&
    (forall k :: 0 <= k < |afterP| && !(i * TILE_DIM <= k < (i + 1) * TILE_DIM) ==> afterP[k] == beforeP[k])
  }

  /**
    One pass of the vector-chunk loop of `unpacker_collect`: the tiles of the
    batch in order, the tile pointers advancing by 1024. The batch's tiles are
    the tiles `first ..` of the buffers (the front of the channels).
  */
  method CollectChunk(addr: seq<Addr>, collect: array<real>, progress: array<nat>, first: nat, numTiles: nat,
                      vec: seq<real>, lo: nat, hi: nat)
    requires progress.Length == 8 * TILE_DIM && numTiles <= 8
    requires (first + numTiles) * TILE_SIZE <= |addr| && (first + numTiles) * TILE_SIZE <= collect.Length
    requires hi <= lo + |vec|
    modifies collect, progress
    ensures forall i, r :: 0 <= i < numTiles && 0 <= r < TILE_DIM ==>
      progress[Slot(i, r)] == NextProgress(TileRow(addr, first + i, r), old(progress[Slot(i, r)]), hi)
    ensures forall t, r, c :: first <= t < first + numTiles && 0 <= r < TILE_DIM && 0 <= c < TILE_DIM ==>
      collect[TileCell(t, r, c)] ==
        ChunkCell(TileRow(addr, t, r), c, old(collect[TileCell(t, r, c)]), old(progress[Slot(t - first, r)]), vec, lo, lo, hi)
    ensures forall j :: 0 <= j < collect.Length && !(first * TILE_SIZE <= j < (first + numTiles) * TILE_SIZE) ==>
      collect[j] == old(collect[j])
  {
    ghost var orig := collect[..];
    ghost var origProgress := progress[..];
    var tileBase := first * TILE_SIZE;
    var i := 0;
    while i < numTiles
      invariant 0 <= i <= numTiles && tileBase == (first + i) * TILE_SIZE
      invariant TilesDone(addr, collect[..], progress[..], orig, origProgress, first, numTiles, i, vec, lo, hi)
    {
      ghost var before := collect[..];
      ghost var beforeProgress := progress[..];
      CollectTileChunk(addr, collect, progress, i, first + i, tileBase, vec, lo, hi);
      TilesStep(addr, before, collect[..], beforeProgress, progress[..], orig, origProgress, first, numTiles, i, vec, lo, hi);
      tileBase := tileBase + 1024;
      i := i + 1;
    }
  }

  /**
    The state of one chunk pass after the batch's first `i` tiles: their rows
    have advanced by the chunk `[lo, hi)`, the other tiles are as on entry.
  */
  ghost predicate TilesDone(addr: seq<Addr>, collect: seq<real>, progress: seq<nat>, orig: seq<real>, origProgress: seq<nat>,
                            first: nat, numTiles: nat, i: nat, vec: seq<real>, lo: nat, hi: nat)
  {
    |progress| == |origProgress| == 8 * TILE_DIM && numTiles <= 8 && hi <= lo + |vec| &&
    (first + numTiles) * TILE_SIZE <= |addr| && (first + numTiles) * TILE_SIZE <= |collect| == |orig| &&
    (forall t, r :: 0 <= t < numTiles && 0 <= r < TILE_DIM ==>
      progress[Slot(t, r)] ==
        if t < i then NextProgress(TileRow(addr, first + t, r), origProgress[Slot(t, r)], hi)
        else origProgress[Slot(t, r)]) &&
    (forall t, r, c :: first <= t < first + numTiles && 0 <= r < TILE_DIM && 0 <= c < TILE_DIM ==>
      collect[TileCell(t, r, c)] ==
        if t < first + i then ChunkCell(TileRow(addr, t, r), c, orig[TileCell(t, r, c)], origProgress[Slot(t - first, r)], vec, lo, lo, hi)
        else orig[TileCell(t, r, c)]) &&
    (forall j :: 0 <= j < |collect| && !(first * TILE_SIZE <= j < (first + i) * TILE_SIZE) ==> collect[j] == orig[j])
  }

  /** One more tile of the chunk pass keeps `TilesDone`. */
  lemma TilesStep(addr: seq<Addr>, before: seq<real>, after: seq<real>, beforeP: seq<nat>, afterP: seq<nat>,
                  orig: seq<real>, origProgress: seq<nat>, first: nat, numTiles: nat, i: nat, vec: seq<real>, lo: nat, hi: nat)
    requires i < numTiles
    requires TilesDone(addr, before, beforeP, orig, origProgress, first, numTiles, i, vec, lo, hi)
    requires TileChunkEffect(addr, before, after, beforeP, afterP, i, first + i, vec, lo, hi)
    ensures TilesDone(addr, after, afterP, orig, origProgress, first, numTiles, i + 1, vec, lo, hi)
  {
    forall t, r | 0 <= t < numTiles && 0 <= r < TILE_DIM
      ensures afterP[Slot(t, r)] ==
        if t < i + 1 then NextProgress(TileRow(addr, first + t, r), origProgress[Slot(t, r)], hi)
        else origProgress[Slot(t, r)]
    {
      if t != i {
        assert !(i * TILE_DIM <= Slot(t, r) < (i + 1) * TILE_DIM);
      }
    }
    forall t, r, c | first <= t < first + numTiles && 0 <= r < TILE_DIM && 0 <= c < TILE_DIM
      ensures after[TileCell(t, r, c)] ==
        if t < first + i + 1 then ChunkCell(TileRow(addr, t, r), c, orig[TileCell(t, r, c)], origProgress[Slot(t - first, r)], vec, lo, lo, hi)
        else orig[TileCell(t, r, c)]
    {
      if t == first + i {
        assert before[TileCell(t, r, c)] == orig[TileCell(t, r, c)];
        assert beforeP[Slot(i, r)] == origProgress[Slot(i, r)];
      } else {
        TileCellInTile(t, r, c);
        assert after[TileCell(t, r, c)] == before[TileCell(t, r, c)];
      }
    }
    forall j | 0 <= j < |after| && !(first * TILE_SIZE <= j < (first + i + 1) * TILE_SIZE)
      ensures after[j] == orig[j]
    {
      assert !((first + i) * TILE_SIZE <= j < (first + i + 1) * TILE_SIZE);
    }
  }

  /**
    The state of `unpacker_collect` after the chunks `0 .. v - 1`: each
    `row_progress` entry is its row's `Progress`, and each collected cell of
    the batch's tiles `first .. first + numTiles - 1` is its row's `CellAfter`
    from its value `orig` on entry.
  */
  ghost predicate ChunksDone(addr: seq<Addr>, collect: seq<real>, progress: seq<nat>, orig: seq<real>,
                             first: nat, numTiles: nat, x: seq<real>, v: nat, vpc: nat)
  {
    |progress| == 8 * TILE_DIM && numTiles <= 8 &&
    (first + numTiles) * TILE_SIZE <= |addr| && (first + numTiles) * TILE_SIZE <= |collect| == |orig| &&
    ChunkStart(v, vpc) <= |x| &&
    (forall i, r :: 0 <= i < numTiles && 0 <= r < TILE_DIM ==>
      progress[Slot(i, r)] == Progress(TileRow(addr, first + i, r), v, vpc)) &&
    (forall t, r, c :: first <= t < first + numTiles && 0 <= r < TILE_DIM && 0 <= c < TILE_DIM ==>
      collect[TileCell(t, r, c)] == CellAfter(TileRow(addr, t, r), c, orig[TileCell(t, r, c)], x, v, vpc))
  }

  /**
    Chunk `v` of `unpacker_collect`: the chunk bounds `v * vpc` and
    `v * vpc + vpc`, the resident slice of the vector, and one pass over the
    tiles, advancing every row from its state after `v` chunks to its state
    after `v + 1`.
  */
  method CollectVecChunk(addr: seq<Addr>, collect: array<real>, progress: array<nat>, first: nat, numTiles: nat,
                         x: seq<real>, v: nat, vpc: nat, ghost orig: seq<real>)
    requires ChunkStart(v + 1, vpc) <= |x|
    requires ChunksDone(addr, collect[..], progress[..], orig, first, numTiles, x, v, vpc)
    modifies collect, progress
    ensures ChunksDone(addr, collect[..], progress[..], orig, first, numTiles, x, v + 1, vpc)
    ensures forall j :: 0 <= j < collect.Length && !(first * TILE_SIZE <= j < (first + numTiles) * TILE_SIZE) ==>
      collect[j] == old(collect[j])
  {
    ChunkStartIsProduct(v, vpc);
    var vecChunkStart := v * vpc;
    var vecChunkEnd := vecChunkStart + vpc;
    assert vecChunkEnd == ChunkStart(v + 1, vpc);
    var vec := x[vecChunkStart .. vecChunkEnd];
    ghost var progress0 := progress[..];
    CollectChunk(addr, collect, progress, first, numTiles, vec, vecChunkStart, vecChunkEnd);
    forall t, r, c | first <= t < first + numTiles && 0 <= r < TILE_DIM && 0 <= c < TILE_DIM
      ensures collect[TileCell(t, r, c)] == CellAfter(TileRow(addr, t, r), c, orig[TileCell(t, r, c)], x, v + 1, vpc)
    {
      CellAfterStep(TileRow(addr, t, r), c, orig[TileCell(t, r, c)], x, v + 1, vpc);
      ChunkCellResident(TileRow(addr, t, r), c, CellAfter(TileRow(addr, t, r), c, orig[TileCell(t, r, c)], x, v, vpc),
                        progress0[Slot(t - first, r)], x, vecChunkStart, vecChunkEnd);
    }
    assert ChunksDone(addr, collect[..], progress[..], orig, first, numTiles, x, v + 1, vpc);
  }

  /**
    `unpacker_collect` for a batch of `end_tile - start_tile` tiles (at most 8,
    the capacity of `row_progress`) sitting at the front of the address and
    collected channels, which are tiles `first ..` of the buffers, for the
    vector chunks `0 .. vec_chunks - 1`; chunk `v` of the vector is
    `x[v * vpc .. v * vpc + vpc]`. Each collected cell of the batch ends as
    `CellAfter` describes, the address tiles are read only, and nothing
    outside the batch's collected tiles changes.
  */
  method UnpackerCollect(addr: seq<Addr>, collect: array<real>, first: nat, x: seq<real>, vecChunks: nat, vpc: nat,
                         startTile: nat, endTile: nat)
    requires startTile <= endTile && endTile - startTile <= 8
    requires (first + endTile - startTile) * TILE_SIZE <= |addr|
    requires (first + endTile - startTile) * TILE_SIZE <= collect.Length
    requires vecChunks * vpc <= |x|
    modifies collect
    ensures ChunkStart(vecChunks, vpc) <= |x|
    ensures forall t, r, c :: first <= t < first + (endTile - startTile) && 0 <= r < TILE_DIM && 0 <= c < TILE_DIM ==>
      collect[TileCell(t, r, c)] == CellAfter(TileRow(addr, t, r), c, old(collect[TileCell(t, r, c)]), x, vecChunks, vpc)
    ensures forall j :: 0 <= j < collect.Length && !(first * TILE_SIZE <= j < (first + endTile - startTile) * TILE_SIZE) ==>
      collect[j] == old(collect[j])
  {
    ChunkStartIsProduct(vecChunks, vpc);
    ghost var orig := collect[..];
    var progress := new nat[256](_ => 0);
    var numTiles := endTile - startTile;
    forall i, r | 0 <= i < numTiles && 0 <= r < TILE_DIM
      ensures progress[Slot(i, r)] == Progress(TileRow(addr, first + i, r), 0, vpc)
    {
      assert Slot(i, r) < 256;
    }
    forall t, r, c | first <= t < first + numTiles && 0 <= r < TILE_DIM && 0 <= c < TILE_DIM
      ensures collect[TileCell(t, r, c)] == CellAfter(TileRow(addr, t, r), c, orig[TileCell(t, r, c)], x, 0, vpc)
    {
      TileCellInTile(t, r, c);
    }
    assert ChunksDone(addr, collect[..], progress[..], orig, first, numTiles, x, 0, vpc);
    var v := 0;
    while v < vecChunks
      invariant 0 <= v <= vecChunks
      invariant ChunksDone(addr, collect[..], progress[..], orig, first, numTiles, x, v, vpc)
      invariant forall j :: 0 <= j < collect.Length && !(first * TILE_SIZE <= j < (first + numTiles) * TILE_SIZE) ==>
        collect[j] == orig[j]
    {
      ChunkStartMonotone(v + 1, vecChunks, vpc);
      CollectVecChunk(addr, collect, progress, first, numTiles, x, v, vpc, orig);
      v := v + 1;
    }
  }
}
