# HPCCG sparse matrix-vector product on a Tenstorrent device: a Dafny model

HPCCG solves a linear system built from a 27-point stencil on an
`nx * ny * nz` grid. Its sparse matrix-vector product runs on a Tenstorrent
accelerator. The path to the device has these stages:

- The host generates the matrix in CSR form. It then re-lays the matrix as a
  fixed 32-wide ELLPACK array, padded with value 0 and the column sentinel
  `UINT32_MAX`.
- The host cuts the ELLPACK values and column addresses into 32x32 tiles.
  Each tile is stored as four 16x16 "faces": top-left, top-right,
  bottom-left, bottom-right.
- The host computes each row tile's least and greatest column. It splits
  the tile batches over the cores and gives each core only the 256-entry
  vector chunks its tiles can touch.
- On each core, a reader or compute kernel gathers, for every address cell,
  the vector entry it names into a "collected" tile. The gather either
  stops or zero-fills at the sentinel, and it can resume row by row across
  vector chunks.
- A multiply kernel sums `value * collected` along each row, up to the
  first sentinel.
- A write-back kernel gathers the 32 diagonal results of a block product
  into one line and writes it to its place in the paged result vector.

The project models this pipeline one source file per module:

- `Faced`: the faced tile layout that the kernels share;
- `Arith`: rounded-up quotients and product helpers;
- `GenerateMatrix`: `generate_matrix.cpp`;
- `EllpackMatVec`: `tenstorrent/rtl/lib/ellpack_matVec.cpp`;
- `ComputeParts`: `tenstorrent/rtl/kernels/mat_vec_compute_parts.hpp`;
- `ComputeNaive`: `tenstorrent/rtl/kernels/mat_vec_compute_naive.cpp`;
- `ReaderCollection`: `tenstorrent/rtl/kernels/mat_vec_reader_collection.cpp`;
- `DiagResultWb`: `tenstorrent/rtl/kernels/vec_diag_result_wb.cpp`.

How the model represents the source:

- Loops that fill arrays are methods over `array`s, with loop invariants.
  Each method is proved against a specification function or predicate, and
  the lemmas beside it state what that specification means.
- Values are `real`.
- Column addresses are `Addr`, a natural number up to `0xFFFF_FFFF`; the
  sentinel is `SENTINEL`.
- The generator's `int` index array keeps `UINT32_MAX` as `-1`
  (`INVALID_INDEX`). `GenerateMatrix.DeviceAddr` reads those four bytes back
  as the unsigned address the device sees.
- Circular buffers are arrays. A kernel that consumes or pushes a stream of
  tiles takes or returns a sequence of them.

Where the source disagrees with itself, the code is followed:

- `tilize_buffer` takes a `cols` argument that it never uses; the model
  drops it.
- `collect_for` appears twice with the same body
  (`mat_vec_compute_parts.hpp:22-37` and `mat_vec_reader_collection.cpp:12-27`).
  It is modelled once, as `ComputeParts.CollectFor`.
- `unpacker_collect` is modelled as defined in `mat_vec_compute_parts.hpp`:
  chunk `v` covers `[v * vpc, (v + 1) * vpc)`.

## Model

| member | source | states |
|---|---|---|
| `Faced.FacedOffset` | tenstorrent/rtl/kernels/mat_vec_compute_parts.hpp:13-20 | every cell of a 32x32 tile has its faced offset inside the tile's 1024 entries |
| `Faced.FacedOffsetInverse` | tenstorrent/rtl/kernels/mat_vec_compute_parts.hpp:13-20 | `FacedRow` and `FacedCol` recover the row and the column from a faced offset |
| `Faced.FacedOffsetOnto` | tenstorrent/rtl/kernels/mat_vec_compute_parts.hpp:13-20 | every offset below 1024 is the faced offset of a tile cell; with `FacedOffsetInverse` the layout is a bijection |
| `Faced.FacedOffsetInjective` | tenstorrent/rtl/kernels/mat_vec_compute_parts.hpp:13-20 | distinct cells have distinct faced offsets |
| `Faced.QuadrantIsFaced` | tenstorrent/rtl/kernels/mat_vec_compute_parts.hpp:131-139 | the four-case offset that `unpacker_collect` writes out equals `faced_offset` on every cell |
| `Faced.ColStepIsFaced` | tenstorrent/rtl/kernels/mat_vec_compute_parts.hpp:68-74 | stepping a cell pointer by 1, or by 241 after column 15, moves to the faced offset of the next column |
| `Faced.RowStepIsFaced` | tenstorrent/rtl/kernels/mat_vec_compute_parts.hpp:76-82 | stepping a row pointer by 16, or by 272 after row 15, moves to column 0 of the next row |
| `Faced.DiagonalCell` | tenstorrent/rtl/kernels/vec_diag_result_wb.cpp:53-56 | cell `(d, d)` lies at `17 d` or `768 + 17 (d - 16)`, strictly beyond position `d` for `d >= 1` |
| `Faced.DiagonalCellIsFaced` | tenstorrent/rtl/kernels/vec_diag_result_wb.cpp:11-18 | that position is the write-back kernel's `faced_offset(d, d)` |
| `Faced.TileCellInTile` | tenstorrent/rtl/kernels/mat_vec_compute_naive.cpp:179-181 | cell `(r, c)` of tile `t` in a buffer of tiles stepped by 1024 is `1024 t + faced_offset(r, c)`, inside tile `t` |
| `Faced.TileCellOnto` | tenstorrent/rtl/kernels/mat_vec_compute_naive.cpp:179-181 | every buffer index is a cell of exactly the tile `i / 1024` |
| `Faced.TileCellInjective` | tenstorrent/rtl/kernels/mat_vec_compute_naive.cpp:179-181 | distinct (tile, row, column) triples are distinct buffer indices |
| `Faced.TileRow` | tenstorrent/rtl/kernels/mat_vec_compute_naive.cpp:34-41 | row `r` of a tile, read through the faced layout, is the 32 cells `(r, 0 .. 31)` |
| `Faced.FirstSentinelBefore` | tenstorrent/rtl/kernels/mat_vec_compute_naive.cpp:43-65 | no column before a row's first sentinel holds the sentinel |
| `GenerateMatrix.IndexBound` | generate_matrix.cpp:99-102 | `currow = iz nx ny + iy nx + ix` of a grid point lies in `[0, nrow)` |
| `GenerateMatrix.IndexOrder` | generate_matrix.cpp:99-102 | rows are numbered in the `z`, `y`, `x` loop order |
| `GenerateMatrix.CoordsOfIndex` | generate_matrix.cpp:99-102 | a row number determines the grid point it was numbered from |
| `GenerateMatrix.IndexOfCoords` | generate_matrix.cpp:81 | every row below `nrow` is the row of some grid point |
| `GenerateMatrix.CoordsDivMod` | generate_matrix.cpp:99-102 | the grid point of row `r` is `(r % nx, r / nx % ny, r / nx / ny)` |
| `GenerateMatrix.Shift` | generate_matrix.cpp:104-106 | shift `k` of the `sz`, `sy`, `sx` loops is `(sz, sy, sx)` with `k = 9 (sz + 1) + 3 (sy + 1) + (sx + 1)` |
| `GenerateMatrix.ColumnOfShift` | generate_matrix.cpp:102-107 | `curcol` as the loops compute it is the specification's column of that shift |
| `GenerateMatrix.AdmittedIffNeighbour` | generate_matrix.cpp:107-111 | the filter admits a shift exactly when its neighbour lies in the grid, and `curcol` is that neighbour's row |
| `GenerateMatrix.StencilColsIncrease` | generate_matrix.cpp:104-111 | of two admitted shifts, the later one has the larger column |
| `GenerateMatrix.RowColsSorted` | generate_matrix.cpp:104-121 | the stored columns of a row are strictly increasing and lie in `[0, nrow)` |
| `GenerateMatrix.RowColsBelow` | generate_matrix.cpp:104-121 | every column stored before an admitted shift is below that shift's column |
| `GenerateMatrix.RowColsHas` | generate_matrix.cpp:111-119 | every admitted shift's column is stored |
| `GenerateMatrix.DiagonalShift` | generate_matrix.cpp:111-114 | the diagonal is shift 13, always admitted, and no other admitted shift gives it |
| `GenerateMatrix.StencilRowShape` | generate_matrix.cpp:104-124 | each row holds 1 to 27 strictly increasing in-range columns, its diagonal among them |
| `GenerateMatrix.RowValsDiagonal` | generate_matrix.cpp:113-117 | a stored value is 27 on the diagonal column and -1 on every other |
| `GenerateMatrix.RowValsSum` | generate_matrix.cpp:113-119 | after `k` shifts the values sum to `-n`, or to `28 - n` once the diagonal is stored, for `n` entries |
| `GenerateMatrix.RhsIsRowSum` | generate_matrix.cpp:127 | `b = 27 - (nnzrow - 1)` is the sum of the row's values |
| `GenerateMatrix.RowPrefixStep` | generate_matrix.cpp:111-119 | storing an admitted shift, or nothing for a rejected one, extends the row by that shift |
| `GenerateMatrix.StencilEntry` | generate_matrix.cpp:107-120 | the `sx` body stores value and column at the cursor exactly when the filter admits the shift |
| `GenerateMatrix.StencilLine` | generate_matrix.cpp:106-122 | the `sx` loop stores the admitted shifts of one `(sz, sy)` line after the earlier entries |
| `GenerateMatrix.StencilPlane` | generate_matrix.cpp:105-123 | the `sy` loop stores the admitted shifts of one `sz` plane |
| `GenerateMatrix.StencilRow` | generate_matrix.cpp:103-124 | the three stencil loops store the row's columns and values at the cursor and leave earlier entries alone |
| `GenerateMatrix.GenerateRow` | generate_matrix.cpp:102-128 | one `ix` iteration builds row `currow`: `nnzs[currow + 1]`, its entries, `x = 0`, `b` and `xexact = 1` |
| `GenerateMatrix.BuiltStep` | generate_matrix.cpp:125-128 | closing a row extends the built prefix of rows by one |
| `GenerateMatrix.RowKept` | generate_matrix.cpp:114-128 | storing a row leaves every earlier row as it was |
| `GenerateMatrix.BuiltStart` | generate_matrix.cpp:86-87 | with `nnzs[0] = 0` the empty prefix is built |
| `GenerateMatrix.GenerateLine` | generate_matrix.cpp:101-129 | the `ix` loop builds the rows of one line |
| `GenerateMatrix.GeneratePlane` | generate_matrix.cpp:100-130 | the `iy` loop builds the rows of one plane |
| `GenerateMatrix.GenerateRows` | generate_matrix.cpp:99-131 | the `iz` loop builds every row |
| `GenerateMatrix.GenerateCsr` | generate_matrix.cpp:72-131 | step 1 allocates `nrow + 1` offsets and `27 nrow` entries and builds all rows |
| `GenerateMatrix.BuiltRow` | generate_matrix.cpp:86-128 | afterwards `nnzs[0] = 0` and row `r` occupies `[nnzs[r], nnzs[r + 1])` holding its stencil row, with `x`, `b` and `xexact` set |
| `GenerateMatrix.BuiltIsCsr` | generate_matrix.cpp:86-87 | the offsets are non-decreasing, inside both entry arrays, and at most 27 apart |
| `GenerateMatrix.RowOfShape` | generate_matrix.cpp:103-127 | row `r` has 1 to 27 sorted in-range columns including `r`, value 27 there and -1 elsewhere, summing to `b[r]` |
| `GenerateMatrix.RowProductOnes` | generate_matrix.cpp:128 | a row's product with the all-ones vector is the sum of its values |
| `GenerateMatrix.ExactSolution` | generate_matrix.cpp:125-128 | every row's product with `xexact` is its `b`: `A * xexact = b` |
| `GenerateMatrix.DeviceAddr` | generate_matrix.cpp:162 | the invalid index reads back on the device as `UINT32_MAX`; real columns read back unchanged |
| `GenerateMatrix.MaxRowLenIsMax` | generate_matrix.cpp:140-144 | the scanned maximum bounds every row length and is 0 or some row's length |
| `GenerateMatrix.ScanMaxNnz` | generate_matrix.cpp:139-152 | the warning is printed exactly when some row is wider than 32, and `max_nnz_per_row` is then clamped to 32 |
| `GenerateMatrix.EllpackCell` | generate_matrix.cpp:159-176 | ELLPACK cell `(row, j)` holds CSR entry `nnzs[row] + j` for `j < min(rowlen, 32)` and the padding otherwise |
| `GenerateMatrix.CopyCell` | generate_matrix.cpp:169-175 | one copy step extends the filled ELLPACK prefix by cell `row * 32 + j` |
| `GenerateMatrix.CopyRow` | generate_matrix.cpp:166-176 | the copy of one row fills its 32 cells, padding included |
| `GenerateMatrix.ConvertToEllpack` | generate_matrix.cpp:154-176 | both ELLPACK arrays are exactly the ELLPACK layout of the CSR arrays, padded with 0 and the invalid index |
| `GenerateMatrix.GenerateMatrix` | generate_matrix.cpp:63-181 | `nrow = ncol = nx ny nz`, `nnz = 27 nrow`, all rows built, no truncation warning, `ellpack_cols = 32`, `ellpack_nnz = 32 nrow`, ELLPACK arrays as above |
| `GenerateMatrix.GeneratedDeviceRow` | generate_matrix.cpp:159-176 | on the device, generated ELLPACK row `r` holds its stencil columns in increasing order, then only sentinels, the first sentinel right after them |
| `GenerateMatrix.GeneratedCell` | generate_matrix.cpp:159-176 | cell `j` of generated row `r` is column and value `j` of the stencil row, or the padding |
| `EllpackMatVec.CellFill` | tenstorrent/rtl/lib/ellpack_matVec.cpp:54-58 | one cell receives its input element when it lies inside the input, and keeps its value otherwise |
| `EllpackMatVec.FaceCells` | tenstorrent/rtl/lib/ellpack_matVec.cpp:57-90 | the cells of face `f` are `tile_start + 256 f + 16 r + c`, row by row |
| `EllpackMatVec.FaceRowFill` | tenstorrent/rtl/lib/ellpack_matVec.cpp:53-59 | the column loop of a face fills one row of that face and touches nothing else |
| `EllpackMatVec.FaceFill` | tenstorrent/rtl/lib/ellpack_matVec.cpp:51-93 | a face loop fills its face from the input and touches no other cell |
| `EllpackMatVec.TilizeTile` | tenstorrent/rtl/lib/ellpack_matVec.cpp:49-93 | the four face loops fill every cell of tile `(tr, tc)` and touch no other tile |
| `EllpackMatVec.TilizeTileRow` | tenstorrent/rtl/lib/ellpack_matVec.cpp:48-94 | the `tc` loop tilizes one tile row, leaving later tiles as padding |
| `EllpackMatVec.TilizeBuffer` | tenstorrent/rtl/lib/ellpack_matVec.cpp:37-96 | the output has `ceil(rows / 32) ceil(cols / 32)` tiles, each cell its input element or `pad_value` |
| `EllpackMatVec.TiledIndexIsCell` | tenstorrent/rtl/lib/ellpack_matVec.cpp:42-49 | element `(r, c)` maps to cell `(r % 32, c % 32)` of tile `(r / 32) num_tiles_c + c / 32`, inside the buffer |
| `EllpackMatVec.TilizePlacement` | tenstorrent/rtl/lib/ellpack_matVec.cpp:47-93 | in-bounds element `(r, c)` is found at `((r / 32) num_tiles_c + c / 32) 1024 + faced_offset(r % 32, c % 32)` |
| `EllpackMatVec.TiledIndexInjective` | tenstorrent/rtl/lib/ellpack_matVec.cpp:47-93 | distinct input elements land at distinct indices |
| `EllpackMatVec.TileOfOnto` | tenstorrent/rtl/lib/ellpack_matVec.cpp:47-49 | every tile number below `num_tiles_r num_tiles_c` is that of one tile position |
| `EllpackMatVec.TilizedEntry` | tenstorrent/rtl/lib/ellpack_matVec.cpp:45-93 | every entry of the output is a cell of some tile and holds its input element, or `pad_value` outside the input |
| `EllpackMatVec.TileSourceInBounds` | tenstorrent/rtl/lib/ellpack_matVec.cpp:54-57 | an in-bounds element is the source of its own tile cell |
| `EllpackMatVec.TilizeRoundTrip` | tenstorrent/rtl/lib/ellpack_matVec.cpp:37-96 | reading the output back through the same mapping gives the input exactly |
| `EllpackMatVec.Sizing` | tenstorrent/rtl/lib/ellpack_matVec.cpp:116-131 | `diag_wb` iff FPU; `batch_size` 4 or 8; `ell_tiles_total`, `vec_chunks_total` and `batches_total` are the least counts that cover the rows, 256-entry chunks and tiles |
| `EllpackMatVec.NestedCeil` | tenstorrent/rtl/lib/ellpack_matVec.cpp:121-127 | rounding up to tiles and then to 8 tiles is rounding up to 256 rows |
| `EllpackMatVec.DeviceBuffer` | tenstorrent/rtl/lib/ellpack_matVec.cpp:536-555 | a buffer larger than a page is rounded up to whole pages, with less than a page of slack; a smaller one is one page of its own size |
| `EllpackMatVec.TiledBufferPages` | tenstorrent/rtl/lib/ellpack_matVec.cpp:612-631 | a tilized buffer gets one 4096-byte page per tile and no slack |
| `EllpackMatVec.VectorPagesAreChunks` | tenstorrent/rtl/lib/ellpack_matVec.cpp:686-705 | a vector of more than 256 floats gets one 1024-byte page per vector chunk |
| `EllpackMatVec.SpanBounds` | tenstorrent/rtl/lib/ellpack_matVec.cpp:322-331 | the running `(min, max)` is at most every visited low end and at least every visited high end |
| `EllpackMatVec.SpanAttained` | tenstorrent/rtl/lib/ellpack_matVec.cpp:322-331 | it is `(UINT32_MAX, 0)` over no range, and otherwise each end is taken from some visited range |
| `EllpackMatVec.TileRows` | tenstorrent/rtl/lib/ellpack_matVec.cpp:840-842 | tile row `tr` covers rows `32 tr ..`, at most 32 of them, and none when `32 tr >= nrow` |
| `EllpackMatVec.TileRowSpan` | tenstorrent/rtl/lib/ellpack_matVec.cpp:838-848 | the inner `r` loop, stopping at `nrow`, computes the span of the rows of tile row `tr` |
| `EllpackMatVec.RowTileMinMax` | tenstorrent/rtl/lib/ellpack_matVec.cpp:834-849 | `row_tile_min_max` has `ceil(nrow / 32)` entries, entry `tr` the span of tile row `tr` |
| `EllpackMatVec.TileSpanBounds` | tenstorrent/rtl/lib/ellpack_matVec.cpp:834-849 | that span bounds every row of the tile row and is attained by one; an empty tile row gives `(UINT32_MAX, 0)` |
| `EllpackMatVec.CoreTiles` | tenstorrent/rtl/lib/ellpack_matVec.cpp:316-320 | a core's tiles start at `start_batch * batch_size`; they are cut back to `end_tile`, and the unsigned count wraps when the core starts past `end_tile` |
| `EllpackMatVec.Window` | tenstorrent/rtl/lib/ellpack_matVec.cpp:324-327 | the tile loop finds at most one entry per round: the entry at the unsigned 32-bit index `start_tile + t`, when that index is below the table's size |
| `EllpackMatVec.WindowNoWrap` | tenstorrent/rtl/lib/ellpack_matVec.cpp:324-327 | while `start_tile + tiles` stays below 2^32, the loop finds exactly the existing entries `start_tile .. start_tile + tiles - 1`, in order |
| `EllpackMatVec.WindowHas` | tenstorrent/rtl/lib/ellpack_matVec.cpp:324-327 | every round whose wrapped index is below the table's size finds that entry |
| `EllpackMatVec.WindowPastTable` | tenstorrent/rtl/lib/ellpack_matVec.cpp:324-327 | rounds that start at or past the table's size and do not wrap find nothing |
| `EllpackMatVec.WindowAfterWrap` | tenstorrent/rtl/lib/ellpack_matVec.cpp:324-327 | once `tile_idx` wraps past 2^32, the loop finds the table again from entry 0 |
| `EllpackMatVec.WrappedCoreSeesAll` | tenstorrent/rtl/lib/ellpack_matVec.cpp:316-331 | a core that starts past `end_tile` wraps its tile count to `end_tile - start_tile + 2^32`. Through the wrapping `tile_idx` it finds the whole table, so its span and chunks are those of the whole matrix |
| `EllpackMatVec.WindowSpanStep` | tenstorrent/rtl/lib/ellpack_matVec.cpp:324-329 | one more round widens the span by the entry it finds, and leaves the span unchanged when its index is past the table |
| `EllpackMatVec.CoreColSpan` | tenstorrent/rtl/lib/ellpack_matVec.cpp:322-331 | the `min_col` and `max_col` loop, with its unsigned 32-bit `tile_idx`, computes the span of the entries the tile loop finds |
| `EllpackMatVec.ChunkRange` | tenstorrent/rtl/lib/ellpack_matVec.cpp:333-342 | for a non-empty span the chunks run from the one holding `min_col` to the one holding `max_col`; otherwise there are none |
| `EllpackMatVec.CoreLaunch` | tenstorrent/rtl/lib/ellpack_matVec.cpp:307-342 | the body of the per-core loop computes the core's tiles (`CoreTiles`, wrapped count included) and the chunks covering the span of the entries its wrapping tile loop finds (`Window`) |
| `EllpackMatVec.SplitWork` | tenstorrent/rtl/lib/ellpack_matVec.cpp:301-385 | core `i` starts at the sum of the units of the cores before it |
| `EllpackMatVec.LaunchesAt` | tenstorrent/rtl/lib/ellpack_matVec.cpp:383 | the launch of core `i` in the accumulated sequence is the one that starts at that sum |
| `EllpackMatVec.CoreRangeExact` | tenstorrent/rtl/lib/ellpack_matVec.cpp:301-320 | when the units, at least one per core, sum to `batches_total`, each core's range is non-empty and ends where the next begins, the last at `end_tile` |
| `EllpackMatVec.CoresConsecutive` | tenstorrent/rtl/lib/ellpack_matVec.cpp:316-320 | the first range starts at tile 0 and each range starts where the previous one ends |
| `EllpackMatVec.CoresOrdered` | tenstorrent/rtl/lib/ellpack_matVec.cpp:316-320 | a later core's range starts no earlier than an earlier core's range ends |
| `EllpackMatVec.TileOwnedOnce` | tenstorrent/rtl/lib/ellpack_matVec.cpp:301-385 | every tile below `end_tile` lies in the range of exactly one core |
| `EllpackMatVec.CoreChunksCover` | tenstorrent/rtl/lib/ellpack_matVec.cpp:322-342 | every column inside the span of one of a core's tiles lies in the chunks that core is given |
| `EllpackMatVec.RowColumnsInCoreChunks` | tenstorrent/rtl/lib/ellpack_matVec.cpp:834-849 | every column of every row of a core's tiles lies in the chunks that core reads |
| `ComputeParts.CollectFor` | tenstorrent/rtl/kernels/mat_vec_compute_parts.hpp:22-37 | returns true exactly for the sentinel outside the chunk, writes the chunk entry only for an in-chunk address, and touches no other cell |
| `ComputeParts.CollectRow` | tenstorrent/rtl/kernels/mat_vec_compute_parts.hpp:53-75 | the column loop gathers a row up to its first sentinel, stepping through the faced cells, and changes no other row |
| `ComputeParts.RowFrameWrite` | tenstorrent/rtl/kernels/mat_vec_compute_parts.hpp:61 | writing a cell of the current row leaves the other rows and the other cells of that row as they were |
| `ComputeParts.CollectForMulTile` | tenstorrent/rtl/kernels/mat_vec_compute_parts.hpp:39-84 | every cell before its row's sentinel gathers its address from the chunk, cells from the sentinel on are unchanged, and nothing outside the tile changes |
| `ComputeParts.WalkStop` | tenstorrent/rtl/kernels/mat_vec_compute_parts.hpp:130-151 | a walk stops at 32, at the sentinel or at the first address beyond the chunk |
| `ComputeParts.WalkStopBefore` | tenstorrent/rtl/kernels/mat_vec_compute_parts.hpp:130-159 | every column the walk passes holds an in-chunk-or-earlier address, not the sentinel |
| `ComputeParts.NextProgress` | tenstorrent/rtl/kernels/mat_vec_compute_parts.hpp:126-160 | one chunk never moves a `row_progress` entry backwards, nor past 32 |
| `ComputeParts.Progress` | tenstorrent/rtl/kernels/mat_vec_compute_parts.hpp:107-108 | a `row_progress` entry, starting at 0, stays at most 32 |
| `ComputeParts.ProgressMonotone` | tenstorrent/rtl/kernels/mat_vec_compute_parts.hpp:126-160 | `row_progress` entries never decrease across chunks |
| `ComputeParts.ProgressBeforeSentinel` | tenstorrent/rtl/kernels/mat_vec_compute_parts.hpp:143-146 | an unfinished entry never passes the row's first sentinel |
| `ComputeParts.FinishedAtSentinel` | tenstorrent/rtl/kernels/mat_vec_compute_parts.hpp:143-146 | a row whose walk meets the sentinel is marked 32 and stays finished |
| `ComputeParts.ChunkCellResident` | tenstorrent/rtl/kernels/mat_vec_compute_parts.hpp:153-156 | reading the resident chunk at `addr - vec_chunk_start` reads the vector at `addr` |
| `ComputeParts.ChunkCellWrites` | tenstorrent/rtl/kernels/mat_vec_compute_parts.hpp:153-157 | one chunk writes a cell only before the sentinel, with the entry of its own in-chunk address |
| `ComputeParts.CellAfterWritesOnlyAddressed` | tenstorrent/rtl/kernels/mat_vec_compute_parts.hpp:112-169 | over all chunks a cell keeps its value or holds the vector entry of its own address, which lies in a chunk already seen |
| `ComputeParts.ChunkStepInvariant` | tenstorrent/rtl/kernels/mat_vec_compute_parts.hpp:148-151 | in a sorted row, the stop at an address beyond the chunk leaves every later pre-sentinel address beyond it too |
| `ComputeParts.ProgressInvariant` | tenstorrent/rtl/kernels/mat_vec_compute_parts.hpp:112-169 | in a sorted row, after `w` chunks every address from the progress mark to the sentinel lies beyond those chunks |
| `ComputeParts.CellCollected` | tenstorrent/rtl/kernels/mat_vec_compute_parts.hpp:112-169 | after `w` chunks, a cell before both the progress mark and the sentinel holds the vector entry of its address |
| `ComputeParts.CollectComplete` | tenstorrent/rtl/kernels/mat_vec_compute_parts.hpp:112-169 | when a row is sorted and the chunks cover its addresses, every pre-sentinel cell ends holding `x[addr]` |
| `ComputeParts.ChunkStartIsProduct` | tenstorrent/rtl/kernels/mat_vec_compute_parts.hpp:117 | the chunk start accumulated chunk by chunk is `v * vecs_per_chunk` |
| `ComputeParts.ChunkStartMonotone` | tenstorrent/rtl/kernels/mat_vec_compute_parts.hpp:117-118 | later chunks start later |
| `ComputeParts.CollectColumn` | tenstorrent/rtl/kernels/mat_vec_compute_parts.hpp:141-158 | one step of the walk gathers cell `(rowIdx, colIdx)` when its address is in the chunk |
| `ComputeParts.WalkRow` | tenstorrent/rtl/kernels/mat_vec_compute_parts.hpp:125-160 | the `while` walk of one row returns the new progress entry and gathers exactly the cells it passes |
| `ComputeParts.CollectTileChunk` | tenstorrent/rtl/kernels/mat_vec_compute_parts.hpp:123-164 | the row loop of one tile updates that tile's 32 progress entries and collected cells and nothing else |
| `ComputeParts.CollectChunk` | tenstorrent/rtl/kernels/mat_vec_compute_parts.hpp:120-165 | the tile loop for one chunk advances every tile of the batch by that chunk |
| `ComputeParts.CollectVecChunk` | tenstorrent/rtl/kernels/mat_vec_compute_parts.hpp:112-165 | one iteration of the chunk loop takes every progress entry and cell from chunk `v` to chunk `v + 1` |
| `ComputeParts.UnpackerCollect` | tenstorrent/rtl/kernels/mat_vec_compute_parts.hpp:86-171 | each collected cell of the batch ends as the per-row walk over all chunks leaves it; nothing outside the batch's collected tiles changes |
| `ComputeNaive.DotStep` | tenstorrent/rtl/kernels/mat_vec_compute_naive.cpp:47-53 | `sum + mat_in * vec_in` adds the next term of the row's dot product |
| `ComputeNaive.RowMatMul` | tenstorrent/rtl/kernels/mat_vec_compute_naive.cpp:36-67 | the `k` loop sums `dat * collect` over the faced cells of row `idx` before the row's first sentinel |
| `ComputeNaive.ComputeMatMul` | tenstorrent/rtl/kernels/mat_vec_compute_naive.cpp:24-79 | `res_ptr[idx]` is row `idx`'s result for all 32 rows; only those 32 entries change |
| `ComputeNaive.DotAgrees` | tenstorrent/rtl/kernels/mat_vec_compute_naive.cpp:43-53 | two pairs of rows that agree on their first `n` entries have the same `n`-term dot product |
| `ComputeNaive.RowResultReadsBeforeSentinel` | tenstorrent/rtl/kernels/mat_vec_compute_naive.cpp:63-65 | cells at or after a row's first sentinel are never read |
| `ComputeNaive.EmptyRowIsZero` | tenstorrent/rtl/kernels/mat_vec_compute_naive.cpp:38-67 | a row whose first address is the sentinel yields 0 |
| `ComputeNaive.DotIsEllSum` | tenstorrent/rtl/kernels/mat_vec_compute_naive.cpp:43-66 | before the sentinel, the dot product with collected entries is the ELLPACK product with `x` |
| `ComputeNaive.EllSumPadding` | tenstorrent/rtl/kernels/mat_vec_compute_naive.cpp:63-64 | sentinel padding contributes nothing to the ELLPACK product |
| `ComputeNaive.RowResultIsEllSum` | tenstorrent/rtl/kernels/mat_vec_compute_naive.cpp:34-67 | for a left-aligned row with every pre-sentinel cell collected, the stored result is the row's ELLPACK product with `x` |
| `ComputeNaive.CollectThenMultiply` | tenstorrent/rtl/kernels/mat_vec_compute_naive.cpp:122-183 | collecting and then multiplying a sorted, left-aligned row covered by the chunks yields its ELLPACK product with `x` |
| `ComputeNaive.BatchStart` | tenstorrent/rtl/kernels/mat_vec_compute_naive.cpp:108-111 | batch `b` starts at `b * tiles_per_batch`, clamped to `num_tiles` |
| `ComputeNaive.BatchEnd` | tenstorrent/rtl/kernels/mat_vec_compute_naive.cpp:111-214 | `end_tile_in_batch = min(num_tiles, tile + tiles_per_batch)` is where the next batch starts |
| `ComputeNaive.BatchStartMonotone` | tenstorrent/rtl/kernels/mat_vec_compute_naive.cpp:109-214 | batches start in increasing order |
| `ComputeNaive.PageFits` | tenstorrent/rtl/kernels/mat_vec_compute_naive.cpp:173-182 | batch `b`'s `32 tiles_per_batch` results fit inside the `batches` result pages |
| `ComputeNaive.TileInOneBatch` | tenstorrent/rtl/kernels/mat_vec_compute_naive.cpp:109-215 | tile `t` is processed by batch `b` exactly when `b = t / tiles_per_batch` |
| `ComputeNaive.BatchesCover` | tenstorrent/rtl/kernels/mat_vec_compute_naive.cpp:109-215 | with `batches * tiles_per_batch >= num_tiles` the batches reach every tile |
| `ComputeNaive.MultiplyTiles` | tenstorrent/rtl/kernels/mat_vec_compute_naive.cpp:174-183 | tile `t`'s results go to `wr_ptr + 32 (t - tile)`, the tile pointers advancing by 1024; nothing else of the result changes |
| `ComputeNaive.BatchCellsStep` | tenstorrent/rtl/kernels/mat_vec_compute_naive.cpp:122-133 | a batch's collection completes the collected cells of its tiles |
| `ComputeNaive.EarlierRowKept` | tenstorrent/rtl/kernels/mat_vec_compute_naive.cpp:174-183 | a later batch leaves the results of earlier tiles' rows as they were |
| `ComputeNaive.BatchResultsStep` | tenstorrent/rtl/kernels/mat_vec_compute_naive.cpp:174-183 | a batch stores the results of its tiles' rows |
| `ComputeNaive.ComputeBatch` | tenstorrent/rtl/kernels/mat_vec_compute_naive.cpp:111-183 | one batch collects and multiplies its tiles and changes no later tile or result |
| `ComputeNaive.ComputeStep` | tenstorrent/rtl/kernels/mat_vec_compute_naive.cpp:110-214 | one batch iteration moves `tile` to the next batch's start with its tiles computed |
| `ComputeNaive.ComputeMain` | tenstorrent/rtl/kernels/mat_vec_compute_naive.cpp:81-218 | after `MAIN`, every tile below the last batch end has its cells collected and its 32 results at `32 t`; later tiles and results are untouched |
| `ComputeNaive.GeneratedRowsFitKernel` | tenstorrent/rtl/kernels/mat_vec_compute_parts.hpp:148-151 | every generated ELLPACK row, read as device addresses, is sorted and left-aligned, as the collection and the early exit assume |
| `ReaderCollection.RowMajorRow` | tenstorrent/rtl/kernels/mat_vec_reader_collection.cpp:40-46 | the reader's row `r` is the addresses `32 r .. 32 r + 31` of the tile |
| `ReaderCollection.RowMajorReadsFacedCell` | tenstorrent/rtl/kernels/mat_vec_reader_collection.cpp:39-46 | on a faced tile that row-major read sees cell `(FacedRow(32 r + c), FacedCol(32 r + c))`, not `(r, c)` |
| `ReaderCollection.StickyColumn` | tenstorrent/rtl/kernels/mat_vec_reader_collection.cpp:44-56 | the line is done once the sentinel is seen; a done cell is zeroed, and otherwise the cell gathers as `collect_for` does |
| `ReaderCollection.StickyRow` | tenstorrent/rtl/kernels/mat_vec_reader_collection.cpp:40-71 | one row gathers before the sentinel, zeroes the rest, and touches no other row |
| `ReaderCollection.StickyMulTile` | tenstorrent/rtl/kernels/mat_vec_reader_collection.cpp:29-73 | every cell of the tile is visited once and ends as the sticky gather of its row-major address; nothing outside the tile changes |
| `ReaderCollection.CollectSlots` | tenstorrent/rtl/kernels/mat_vec_reader_collection.cpp:147-156 | one chunk runs the sticky gather on every slot of the batch, pointers advancing by 1024 |
| `ReaderCollection.ReaderChunkStep` | tenstorrent/rtl/kernels/mat_vec_reader_collection.cpp:137-158 | one more chunk moves every cell from its state after `w` chunks to its state after `w + 1` |
| `ReaderCollection.ChunkCountIsCeil` | tenstorrent/rtl/kernels/mat_vec_reader_collection.cpp:137 | the chunk loop runs `ceil(vec_chunks / vec_chunk_batch_size)` times |
| `ReaderCollection.SlotsStep` | tenstorrent/rtl/kernels/mat_vec_reader_collection.cpp:151-158 | a pass over the slots with chunk `k` advances them to `k + 1` chunks |
| `ReaderCollection.ReaderCollect` | tenstorrent/rtl/kernels/mat_vec_reader_collection.cpp:136-159 | iteration `k` uses offset `k * vecs_per_chunk`, `vecs_per_chunk = 256 vec_chunk_batch_size`, and every slot is collected for every chunk |
| `ReaderCollection.ReaderCellSettled` | tenstorrent/rtl/kernels/mat_vec_reader_collection.cpp:137-159 | after the chunk loop a cell is 0 from the sentinel on, and before it holds the entry of its address once a chunk has covered it |
| `ReaderCollection.ChunksCoverVector` | tenstorrent/rtl/kernels/mat_vec_reader_collection.cpp:105-158 | the chunks together reach past the `256 vec_chunks` entries of the vector |
| `ReaderCollection.FetchEndAsWrittenSkipsTiles` | tenstorrent/rtl/kernels/mat_vec_reader_collection.cpp:112-114 | as written, a core starting at tile 4 with 4 tiles in batches of 4 fetches no tile |
| `ReaderCollection.FetchEnd` | tenstorrent/rtl/kernels/mat_vec_reader_collection.cpp:114 | the corrected end of a batch's fetch is at most one batch ahead and at most `end_tile`, and past the batch start when tiles remain |
| `ReaderCollection.FetchCoversRange` | tenstorrent/rtl/kernels/mat_vec_reader_collection.cpp:112-133 | with the corrected bound, tile `i` is fetched exactly by batch `(i - first) / tpb` into slot `(i - first) % tpb`; with the bound as written, tiles at or past `num_tiles` are never fetched |
| `ReaderCollection.ReadPage` | tenstorrent/rtl/kernels/mat_vec_reader_collection.cpp:129-131 | reading page `i` fills one slot with tile `i` and changes no other slot |
| `ReaderCollection.FetchTiles` | tenstorrent/rtl/kernels/mat_vec_reader_collection.cpp:124-134 | tiles `batch_first_tile .. end_tile_in_batch - 1` go to consecutive slots of the data and address channels; later slots keep their contents |
| `ReaderCollection.ReaderBatch` | tenstorrent/rtl/kernels/mat_vec_reader_collection.cpp:114-162 | one batch pushes `tiles_per_batch` pages of data and collected cells, the fetched ones holding their tiles and settled cells |
| `ReaderCollection.ReaderBatches` | tenstorrent/rtl/kernels/mat_vec_reader_collection.cpp:113-162 | with each fetch bounded by `min(bound, batch_first_tile + tiles_per_batch)`, every tile of the range below `bound` is pushed as page `i - first_tile_offset` of both channels, with its data and settled cells |
| `ReaderCollection.ReaderMain` | tenstorrent/rtl/kernels/mat_vec_reader_collection.cpp:76-171 | as written, with the fetch bounded by `num_tiles`: only the tiles of the core's range below tile `num_tiles` are pushed with their data and settled cells, and a core starting at or past `num_tiles` pushes none |
| `ReaderCollection.ReaderMainCorrected` | tenstorrent/rtl/kernels/mat_vec_reader_collection.cpp:76-171 | with the fetch bounded by the end tile `first_tile_offset + num_tiles`, every matrix tile `i` of the core's range is pushed as page `i - first_tile_offset` of both channels, with its data and settled cells |
| `ReaderCollection.ReaderCollectsVector` | tenstorrent/rtl/kernels/mat_vec_reader_collection.cpp:136-162 | a settled cell from its row's first sentinel on is 0; before it, a cell whose address lies in `x` and below `256 vec_chunks` holds `x[addr]` |
| `DiagResultWb.DiagReorder` | tenstorrent/rtl/kernels/vec_diag_result_wb.cpp:53-58 | the in-place loop leaves the first 32 entries holding the original cells `(d, d)` and changes nothing past them |
| `DiagResultWb.GatheredIsDiagonal` | tenstorrent/rtl/kernels/vec_diag_result_wb.cpp:53 | with `rd[0]` already cell `(0, 0)`, the gathered entries are the tile's diagonal line |
| `DiagResultWb.LinePlacement` | tenstorrent/rtl/kernels/vec_diag_result_wb.cpp:60-65 | page `tile >> 3` at byte offset `(tile & 7) * 128` is element `32 tile` of the vector, and the line fits in its page |
| `DiagResultWb.WriteLine` | tenstorrent/rtl/kernels/vec_diag_result_wb.cpp:65 | the 128-byte write stores the line at its place and changes nothing else |
| `DiagResultWb.DiagWriteBack` | tenstorrent/rtl/kernels/vec_diag_result_wb.cpp:20-87 | tiles `first_tile_offset ..` are handled in order, one result tile each, and entry `32 t + d` becomes the diagonal entry `d` of tile `t`'s result; nothing else changes |

## Left out

- Device plumbing: device lifecycle, buffer creation, enqueued reads and
  writes, kernel creation, runtime arguments and program launch. These are
  calls into a runtime that is not part of this model. Only the arithmetic
  that feeds them is modelled: sizes, page sizes, tile ranges and chunk
  ranges.
- Circular buffer synchronisation, NoC reads and writes, barriers,
  `tile_regs_*`, debug printing and profiler zones. These are concurrency
  and I/O between stages. Channels are arrays or sequences of tiles, and
  the reuse of a channel's slots from batch to batch is not modelled.
- `split_work_to_cores` is a library that is not part of this model. Where
  the partition matters, the lemmas take as a precondition that the
  per-core units are at least one each and sum to `batches_total`.
- IEEE single-precision rounding, TF32 and math fidelity. Values are `real`,
  so sums are exact.
- `EllpackMatVec.Sizing`: the host creates the launch with
  `EllpackHwImpl::FPU` (`ellpack_matVec.cpp:863`). It therefore runs the
  block-matmul compute kernel and the diagonal write-back. The matmul
  compute kernel, the naive reader and the bare write-back are not part of
  this model. The collecting reader is modelled even though the host never
  selects it (`0 ? ... : ...`, `ellpack_matVec.cpp:223`).
- `ComputeNaive.ComputeMain`: the call at `mat_vec_compute_naive.cpp:122-133`
  passes a `start_chunk` argument. `unpacker_collect` in
  `mat_vec_compute_parts.hpp:86-97` takes no such argument, so the model
  follows that definition. Pruned chunk ranges that start past chunk 0 are
  therefore not modelled on the compute side.
- `ComputeNaive.ComputeMain`: the `+4` pointer adjustment after
  `cb_get_tile` (`mat_vec_compute_naive.cpp:160-163`) is hardware-specific
  addressing. The model gives the kernel the tiles directly.
- `ReaderCollection.ReaderCollect`: the chunk loop reads one 1024-byte page
  per iteration (`mat_vec_reader_collection.cpp:143`). It uses it as
  `256 vec_chunk_batch_size` entries. The model takes the resident chunk as
  `x[k * vecs_per_chunk ..][.. vecs_per_chunk]`, which is what the page
  holds when `vec_chunk_batch_size = 1`, the value the host passes.
- `ComputeParts.UnpackerCollect` and `ComputeNaive.ComputeMain` require at
  most 8 tiles per batch, the capacity of the 256-entry `row_progress`
  array. The source does not check this bound; the host's batch sizes of 4
  and 8 meet it.
- `GenerateMatrix.GenerateMatrix`:
  - The `use_7pt_stencil` switch is the constant `false`, so the 7-point
    filter always passes and is not modelled.
  - The `int` products `nx * ny * nz` and `27 * nrow` are unbounded here;
    32-bit overflow is not modelled.
  - `GenerateMatrix.GeneratedDeviceRow` and
    `ComputeNaive.GeneratedRowsFitKernel` require `nrow < 2^31`, so that
    every column is a non-negative `int`.
- `GenerateMatrix.ScanMaxNnz`: the warning text written to `cerr` is not
  modelled; `truncated` says whether it is printed.
- `EllpackMatVec.TilizeBuffer` is modelled on element types in general. The
  host calls it with values padded by `0.0` (`ellpack_matVec.cpp:534`) and
  with addresses padded by `UINT32_MAX` (`ellpack_matVec.cpp:610`).
- `EllpackMatVec.CoreChunksCover` and `EllpackMatVec.RowColumnsInCoreChunks`
  require the tile index to be at most `UINT32_MAX`. The tile loop's
  `tile_idx` is an unsigned 32-bit value, so a table entry past `2^32` is
  never visited. The host's `row_tile_min_max` has one entry per row tile
  of an `int` row count, far below that bound.
- Vector lengths are bounded by `UINT32_MAX`. `ComputeParts.CollectRow`,
  `ComputeParts.CollectForMulTile`, `ReaderCollection.StickyColumn`,
  `ReaderCollection.StickyRow`, `ReaderCollection.StickyMulTile`,
  `ReaderCollection.ReaderChunkStep`, `ReaderCollection.CollectSlots`,
  `ReaderCollection.SlotsStep`, `ReaderCollection.ReaderCollect`,
  `ReaderCollection.ReaderBatch`, `ReaderCollection.ReaderBatches`,
  `ReaderCollection.ReaderMain` and `ReaderCollection.ReaderMainCorrected`
  require the end of the last vector chunk,
  `vec_chunk_start + vecs_per_chunk`, to be at most `UINT32_MAX`. The
  kernels compute that sum in `uint32_t`, and its wrap-around is not
  modelled. The vector comes from an `int` row count below `2^31`, so the
  host never reaches the bound.
- `HPC_sparsemv.cpp` only forwards to the device. `ellpack_matVec.hpp` holds
  declarations only, and `EllpackHwImpl` is a datatype in `EllpackMatVec`.

## Findings

| source | as written | input that shows it | evidently intended | confidence | as-written member | corrected member |
|---|---|---|---|---|---|---|
| tenstorrent/rtl/kernels/mat_vec_reader_collection.cpp:114 | `end_tile_in_batch = std::min(num_tiles, batch_first_tile + tiles_per_batch)` compares a tile count with an absolute tile index | `first_tile_offset = 4`, `num_tiles = 4`, `tiles_per_batch = 4`: the one batch fetches tiles `4 .. min(4, 8) - 1`, i.e. none | bound by the end tile `first_tile_offset + num_tiles` | not executed | `ReaderCollection.FetchEndAsWrittenSkipsTiles`, `ReaderCollection.ReaderMain` | `ReaderCollection.ReaderMainCorrected`, `ReaderCollection.FetchCoversRange` |
