/**
  The diagonal write-back stage: each result tile produced by the block-matmul
  strategy holds row `d`'s dot product at the faced position of cell `(d, d)`.
  The stage gathers the diagonal into the first 32 entries of the tile's buffer
  slot, in place, and writes those 32 values as one line of the output vector.
*/
module DiagResultWb {
  import opened Faced

  /** Output pages are vector pages (`VEC_PAGE_SIZE` bytes); one line is 32 floats (128 bytes). */
  const WRITES_PER_PAGE: nat := VECS_PER_PAGE / 32
  const WRITE_BYTES: nat := 32 * 4

  /**
    The line of results a tile stands for: entry `d` is the tile's cell
    `(d, d)`, at faced offset `DiagonalCell(d)`.
  */
  function Diagonal(tile: seq<real>): seq<real>
    requires |tile| >= TILE_SIZE
  {
    seq(TILE_DIM, d requires 0 <= d < TILE_DIM => tile[DiagonalCell(d)])
  }

  /**
    The in-place reorder loop `rd[d] := rd[faced_offset(d, d)]` for `d` in
    `1 .. 31`. Every read lies beyond every position written so far
    (`Faced.DiagonalCell`), so it sees the original value; `rd[0]` is cell
    `(0, 0)` already, and nothing past the first line is touched.
  */
  method DiagReorder(rd: array<real>)
    requires rd.Length >= TILE_SIZE
    modifies rd
    ensures rd[..TILE_DIM] == Diagonal(old(rd[..]))
    ensures rd[TILE_DIM..] == old(rd[TILE_DIM..])
  {
    ghost var orig := rd[..];
    var d := 1;
    while d < 32
      invariant 1 <= d <= 32
      invariant rd[0] == orig[0]
      invariant forall e :: 1 <= e < d ==> rd[e] == orig[DiagonalCell(e)]
      invariant forall i :: d <= i < rd.Length ==> rd[i] == orig[i]
    {
      var off := DiagonalCell(d);
      var dat := rd[off];
      rd[d] := dat;
      d := d + 1;
    }
    GatheredIsDiagonal(rd[..], orig);
  }

  /** A buffer whose first 32 entries hold the original cells `(d, d)` begins with the diagonal line. */
  lemma GatheredIsDiagonal(now: seq<real>, orig: seq<real>)
    requires |now| == |orig| >= TILE_SIZE
    requires now[0] == orig[0]
    requires forall e :: 1 <= e < TILE_DIM ==> now[e] == orig[DiagonalCell(e)]
    ensures now[..TILE_DIM] == Diagonal(orig)
  {
    forall e | 0 <= e < TILE_DIM
      ensures now[..TILE_DIM][e] == Diagonal(orig)[e]
    {
      if e == 0 {
        assert DiagonalCell(0) == 0;
      }
    }
  }

  /**
    Where tile `tile`'s line goes: page `tile >> 3` at byte offset
    `(tile & 7) * 128`. The line is element `tile * 32` of the output vector
    and fits inside its page.
  */
  function LinePlacement(tile: nat): (placement: (nat, nat))
    ensures placement.0 * VECS_PER_PAGE + placement.1 / 4 == tile * TILE_DIM
    ensures placement.1 % 4 == 0 && placement.1 + WRITE_BYTES <= VEC_PAGE_SIZE
  {
    (tile / WRITES_PER_PAGE, (tile % WRITES_PER_PAGE) * WRITE_BYTES)
  }

  /** The 128-byte write of one line into the output vector at element `start`. */
  method WriteLine(dest: array<real>, start: nat, line: seq<real>)
    requires start + |line| <= dest.Length
    modifies dest
    ensures forall j :: 0 <= j < |line| ==> dest[start + j] == line[j]
    ensures forall i :: 0 <= i < dest.Length && !(start <= i < start + |line|) ==> dest[i] == old(dest[i])
  {
    forall j | 0 <= j < |line| {
      dest[start + j] := line[j];
    }
  }

  /**
    `kernel_main`: tiles `firstTile .. firstTile + numTiles - 1` in increasing
    order, each consuming the next result tile `results[k]` of the channel,
    reordering it in its slot and writing its line into the paged output
    vector `dest`. Nothing else of `dest` changes.
  */
  method DiagWriteBack(results: seq<seq<real>>, firstTile: nat, numTiles: nat, dest: array<real>)
    requires |results| == numTiles
    requires forall k :: 0 <= k < numTiles ==> |results[k]| == TILE_SIZE
    requires (firstTile + numTiles) * TILE_DIM <= dest.Length
    modifies dest
    ensures forall i :: firstTile * TILE_DIM <= i < (firstTile + numTiles) * TILE_DIM ==>
      dest[i] == Diagonal(results[i / TILE_DIM - firstTile])[i % TILE_DIM]
    ensures forall i :: 0 <= i < dest.Length && !(firstTile * TILE_DIM <= i < (firstTile + numTiles) * TILE_DIM) ==>
      dest[i] == old(dest[i])
  {
    var endTile := firstTile + numTiles;
    var tile := firstTile;
    while tile < endTile
      invariant firstTile <= tile <= endTile
      invariant forall i :: firstTile * TILE_DIM <= i < tile * TILE_DIM ==>
        dest[i] == Diagonal(results[i / TILE_DIM - firstTile])[i % TILE_DIM]
      invariant forall i :: 0 <= i < dest.Length && !(firstTile * TILE_DIM <= i < tile * TILE_DIM) ==>
        dest[i] == old(dest[i])
    {
      // the channel slot holding the next result tile
      var rd := new real[TILE_SIZE](k requires 0 <= k < TILE_SIZE => results[tile - firstTile][k]);
      assert rd[..] == results[tile - firstTile];
      DiagReorder(rd);
      var placement := LinePlacement(tile);
      var start := placement.0 * VECS_PER_PAGE + placement.1 / 4;
      assert start == tile * TILE_DIM;
      WriteLine(dest, start, rd[..TILE_DIM]);
      forall i | tile * TILE_DIM <= i < (tile + 1) * TILE_DIM
        ensures dest[i] == Diagonal(results[i / TILE_DIM - firstTile])[i % TILE_DIM]
      {
        assert i / TILE_DIM == tile && i % TILE_DIM == i - start;
      }
      tile := tile + 1;
    }
  }
}
