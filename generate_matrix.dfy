/**
  `generate_matrix`: the 27-point stencil matrix of an `nx x ny x nz` grid in
  CSR form, with the right-hand side that makes the all-ones vector the
  exact solution, converted to a 32-wide ELLPACK layout padded with value 0
  and the sentinel address.
*/
module GenerateMatrix {
  import opened Faced
  import opened Arith

  // ---------------------------------------------------------------------------
  // The grid and the stencil

  /** The grid of the benchmark; its points, numbered x fastest, are the matrix rows. */
  datatype Grid = Grid(nx: nat, ny: nat, nz: nat)

  /** A grid with at least one point along every axis. */
  predicate ValidGrid(g: Grid)
  {
    g.nx > 0 && g.ny > 0 && g.nz > 0
  }

  /** Points in one `z` plane: `nx * ny`. */
  function Plane(g: Grid): nat
  {
    Times(g.nx, g.ny)
  }

  /** `nrow = nx * ny * nz`. */
  function NumRows(g: Grid): nat
  {
    Times(Plane(g), g.nz)
  }

  /** `Plane` and `NumRows` are the products they name. */
  lemma GridProducts(g: Grid)
    ensures Plane(g) == g.nx * g.ny && NumRows(g) == Plane(g) * g.nz
  {
    TimesIsProduct(g.nx, g.ny);
    TimesIsProduct(Plane(g), g.nz);
  }

  /** Point `(ix, iy, iz)` lies in the grid. */
  predicate InGrid(g: Grid, ix: int, iy: int, iz: int)
  {
    0 <= ix < g.nx && 0 <= iy < g.ny && 0 <= iz < g.nz
  }

  /** `iz * nx * ny + iy * nx + ix`: the row of point `(ix, iy, iz)`. */
  function Index(g: Grid, ix: int, iy: int, iz: int): int
  {
    Times(iz, Plane(g)) + Times(iy, g.nx) + ix
  }

  /** `Index` is the product form it names. */
  lemma IndexProduct(g: Grid, ix: int, iy: int, iz: int)
    ensures Index(g, ix, iy, iz) == iz * Plane(g) + iy * g.nx + ix
  {
    TimesIsProduct(iz, Plane(g));
    TimesIsProduct(iy, g.nx);
  }

  /**
    Shift `k` of the stencil loops: `sz`, `sy`, `sx` each run from -1 to 1,
    `sx` innermost, so `k = 9 (sz + 1) + 3 (sy + 1) + (sx + 1)`.
  */
  function Shift(k: nat): (s: (int, int, int))
    requires k < 27
    ensures -1 <= s.0 <= 1 && -1 <= s.1 <= 1 && -1 <= s.2 <= 1
    ensures k == 9 * (s.0 + 1) + 3 * (s.1 + 1) + (s.2 + 1)
  {
    var sz := if k < 9 then -1 else if k < 18 then 0 else 1;
    var rest := k - 9 * (sz + 1);
    var sy := if rest < 3 then -1 else if rest < 6 then 0 else 1;
    (sz, sy, rest - 3 * (sy + 1) - 1)
  }

  /** `curcol = currow + sz * nx * ny + sy * nx + sx` for shift `k` of the loops. */
  function StencilCol(g: Grid, ix: int, iy: int, iz: int, k: nat): int
    requires k < 27
  {
    var s := Shift(k);
    Index(g, ix, iy, iz) + Times(s.0, Plane(g)) + Times(s.1, g.nx) + s.2
  }

  /** The filter of the loops: the x and y neighbours lie in the grid and `curcol` is a row. */
  predicate Admitted(g: Grid, ix: int, iy: int, iz: int, k: nat)
    requires k < 27
  {
    var s := Shift(k);
    0 <= ix + s.2 < g.nx && 0 <= iy + s.1 < g.ny && 0 <= StencilCol(g, ix, iy, iz, k) < NumRows(g)
  }

  /** The columns the loops store for point `(ix, iy, iz)` after the first `k` shifts. */
  function RowCols(g: Grid, ix: int, iy: int, iz: int, k: nat): (cols: seq<int>)
    requires k <= 27
    ensures |cols| <= k
  {
    if k == 0 then []
    else RowCols(g, ix, iy, iz, k - 1) + (if Admitted(g, ix, iy, iz, k - 1) then [StencilCol(g, ix, iy, iz, k - 1)] else [])
  }

  /** The values stored beside them: 27 on the diagonal, -1 for every other neighbour. */
  function RowVals(g: Grid, ix: int, iy: int, iz: int, k: nat): (vals: seq<real>)
    requires k <= 27
    ensures |vals| == |RowCols(g, ix, iy, iz, k)|
  {
    if k == 0 then []
    else
      RowVals(g, ix, iy, iz, k - 1) +
      (if Admitted(g, ix, iy, iz, k - 1) then [if StencilCol(g, ix, iy, iz, k - 1) == Index(g, ix, iy, iz) then 27.0 else -1.0] else [])
  }

  // ---------------------------------------------------------------------------
  // Stencil properties

  /** The in-plane part `iy * nx + ix` of a row lies below `nx * ny`. */
  lemma PlaneBound(g: Grid, ix: int, iy: int)
    requires 0 <= ix < g.nx && 0 <= iy < g.ny
    ensures 0 <= iy * g.nx + ix < Plane(g)
  {
    GridProducts(g);
    MulMonotone(iy + 1, g.ny, g.nx);
    assert (iy + 1) * g.nx == iy * g.nx + g.nx;
  }

  /** A point of the grid has a row below `nrow`. */
  lemma IndexBound(g: Grid, ix: int, iy: int, iz: int)
    requires InGrid(g, ix, iy, iz)
    ensures 0 <= Index(g, ix, iy, iz) < NumRows(g)
  {
    GridProducts(g);
    IndexProduct(g, ix, iy, iz);
    PlaneBound(g, ix, iy);
    MulMonotone(iz + 1, g.nz, Plane(g));
    assert (iz + 1) * Plane(g) == iz * Plane(g) + Plane(g);
  }

  /** Rows follow the points in `z`, then `y`, then `x` order. */
  lemma IndexOrder(g: Grid, ix1: int, iy1: int, iz1: int, ix2: int, iy2: int, iz2: int)
    requires 0 <= ix1 < g.nx && 0 <= iy1 < g.ny && 0 <= ix2 < g.nx && 0 <= iy2 < g.ny
    requires iz1 < iz2 || (iz1 == iz2 && (iy1 < iy2 || (iy1 == iy2 && ix1 < ix2)))
    ensures Index(g, ix1, iy1, iz1) < Index(g, ix2, iy2, iz2)
  {
    IndexProduct(g, ix1, iy1, iz1);
    IndexProduct(g, ix2, iy2, iz2);
    PlaneBound(g, ix1, iy1);
    PlaneBound(g, ix2, iy2);
    if iz1 < iz2 {
      MulSign(iz2 - iz1, Plane(g));
      assert (iz2 - iz1) * Plane(g) == iz2 * Plane(g) - iz1 * Plane(g);
    } else if iy1 < iy2 {
      MulSign(iy2 - iy1, g.nx);
      assert (iy2 - iy1) * g.nx == iy2 * g.nx - iy1 * g.nx;
    }
  }

  /**
    The filter admits exactly the shifts whose neighbour lies in the grid
    (the `z` neighbour is checked through the row range), and the column of
    an admitted shift is the row of that neighbour.
  */
  lemma AdmittedIffNeighbour(g: Grid, ix: int, iy: int, iz: int, k: nat)
    requires InGrid(g, ix, iy, iz) && k < 27
    ensures StencilCol(g, ix, iy, iz, k) == Index(g, ix + Shift(k).2, iy + Shift(k).1, iz + Shift(k).0)
    ensures Admitted(g, ix, iy, iz, k) <==> InGrid(g, ix + Shift(k).2, iy + Shift(k).1, iz + Shift(k).0)
  {
    var s := Shift(k);
    var jx, jy, jz := ix + s.2, iy + s.1, iz + s.0;
    NeighbourIndex(g, ix, iy, iz, k);
    IndexProduct(g, jx, jy, jz);
    GridProducts(g);
    if 0 <= jx < g.nx && 0 <= jy < g.ny {
      PlaneBound(g, jx, jy);
      PlaneRange(jz, jy * g.nx + jx, Plane(g), g.nz);
    }
  }

  /** The column of shift `k` is the row of the shifted point. */
  lemma NeighbourIndex(g: Grid, ix: int, iy: int, iz: int, k: nat)
    requires k < 27
    ensures StencilCol(g, ix, iy, iz, k) == Index(g, ix + Shift(k).2, iy + Shift(k).1, iz + Shift(k).0)
  {
    var s := Shift(k);
    TimesIsProduct(s.0, Plane(g));
    TimesIsProduct(s.1, g.nx);
    IndexProduct(g, ix, iy, iz);
    IndexProduct(g, ix + s.2, iy + s.1, iz + s.0);
    MulDistrib(iz, s.0, Plane(g));
    MulDistrib(iy, s.1, g.nx);
  }

  /** With an in-plane part below `P`, the row `a * P + inner` lies in `[0, nz * P)` exactly when `a` lies in `[0, nz)`. */
  lemma PlaneRange(a: int, inner: int, P: nat, nz: nat)
    requires 0 <= inner < P
    ensures 0 <= a * P + inner < P * nz <==> 0 <= a < nz
  {
    MulSign(a, P);
    MulSign(a - nz + 1, P);
    assert (a - nz + 1) * P == a * P - P * nz + P;
    if 0 <= a < nz {
      MulMonotone(a + 1, nz, P);
    }
  }

  /** Later shifts of the loops give larger columns: the row is sorted as it is stored. */
  lemma StencilColsIncrease(g: Grid, ix: int, iy: int, iz: int, k1: nat, k2: nat)
    requires InGrid(g, ix, iy, iz) && k1 < k2 < 27
    requires Admitted(g, ix, iy, iz, k1) && Admitted(g, ix, iy, iz, k2)
    ensures StencilCol(g, ix, iy, iz, k1) < StencilCol(g, ix, iy, iz, k2)
  {
    AdmittedIffNeighbour(g, ix, iy, iz, k1);
    AdmittedIffNeighbour(g, ix, iy, iz, k2);
    var s1, s2 := Shift(k1), Shift(k2);
    IndexOrder(g, ix + s1.2, iy + s1.1, iz + s1.0, ix + s2.2, iy + s2.1, iz + s2.0);
  }

  /** Every column stored before shift `k` is below the column of shift `k`, when that one is admitted. */
  lemma {:induction false} RowColsBelow(g: Grid, ix: int, iy: int, iz: int, k: nat, k': nat)
    requires InGrid(g, ix, iy, iz) && k <= k' < 27 && Admitted(g, ix, iy, iz, k')
    ensures forall c :: c in RowCols(g, ix, iy, iz, k) ==> c < StencilCol(g, ix, iy, iz, k')
  {
    if k > 0 {
      RowColsBelow(g, ix, iy, iz, k - 1, k');
      if Admitted(g, ix, iy, iz, k - 1) {
        StencilColsIncrease(g, ix, iy, iz, k - 1, k');
      }
    }
  }

  /** The stored columns are strictly increasing rows of the matrix. */
  lemma {:induction false} RowColsSorted(g: Grid, ix: int, iy: int, iz: int, k: nat)
    requires InGrid(g, ix, iy, iz) && k <= 27
    ensures forall i, j :: 0 <= i < j < |RowCols(g, ix, iy, iz, k)| ==> RowCols(g, ix, iy, iz, k)[i] < RowCols(g, ix, iy, iz, k)[j]
    ensures forall c :: c in RowCols(g, ix, iy, iz, k) ==> 0 <= c < NumRows(g)
  {
    if k > 0 {
      RowColsSorted(g, ix, iy, iz, k - 1);
      if Admitted(g, ix, iy, iz, k - 1) {
        RowColsBelow(g, ix, iy, iz, k - 1, k - 1);
        var prev, cols := RowCols(g, ix, iy, iz, k - 1), RowCols(g, ix, iy, iz, k);
        forall i, j | 0 <= i < j < |cols|
          ensures cols[i] < cols[j]
        {
          if j == |prev| {
            assert cols[i] in prev;
          }
        }
      }
    }
  }

  /** A column admitted at some shift before `k` is among the stored columns. */
  lemma {:induction false} RowColsHas(g: Grid, ix: int, iy: int, iz: int, k: nat, k': nat)
    requires k' < k <= 27 && Admitted(g, ix, iy, iz, k')
    ensures StencilCol(g, ix, iy, iz, k') in RowCols(g, ix, iy, iz, k)
  {
    if k' < k - 1 {
      RowColsHas(g, ix, iy, iz, k - 1, k');
    }
  }

  /** The diagonal is shift 13, `(0, 0, 0)`, and no other admitted shift gives it. */
  lemma DiagonalShift(g: Grid, ix: int, iy: int, iz: int, k: nat)
    requires InGrid(g, ix, iy, iz) && k < 27
    ensures Admitted(g, ix, iy, iz, 13) && StencilCol(g, ix, iy, iz, 13) == Index(g, ix, iy, iz)
    ensures Admitted(g, ix, iy, iz, k) ==> (StencilCol(g, ix, iy, iz, k) == Index(g, ix, iy, iz) <==> k == 13)
  {
    AdmittedIffNeighbour(g, ix, iy, iz, 13);
    if Admitted(g, ix, iy, iz, k) && k != 13 {
      if k < 13 {
        StencilColsIncrease(g, ix, iy, iz, k, 13);
      } else {
        StencilColsIncrease(g, ix, iy, iz, 13, k);
      }
    }
  }

  /**
    Each stored row holds between 1 and 27 entries, strictly increasing
    columns inside `[0, nrow)`, and its own diagonal.
  */
  lemma StencilRowShape(g: Grid, ix: int, iy: int, iz: int)
    requires InGrid(g, ix, iy, iz)
    ensures 1 <= |RowCols(g, ix, iy, iz, 27)| <= 27
    ensures forall c :: c in RowCols(g, ix, iy, iz, 27) ==> 0 <= c < NumRows(g)
    ensures forall i, j :: 0 <= i < j < |RowCols(g, ix, iy, iz, 27)| ==> RowCols(g, ix, iy, iz, 27)[i] < RowCols(g, ix, iy, iz, 27)[j]
    ensures Index(g, ix, iy, iz) in RowCols(g, ix, iy, iz, 27)
  {
    RowColsSorted(g, ix, iy, iz, 27);
    DiagonalShift(g, ix, iy, iz, 13);
    RowColsHas(g, ix, iy, iz, 27, 13);
  }

  /** The sum of a sequence of values. */
  function Sum(s: seq<real>): real
  {
    if |s| == 0 then 0.0 else Sum(s[..|s| - 1]) + s[|s| - 1]
  }

  /** Every stored value is 27 exactly on the diagonal column and -1 elsewhere. */
  lemma {:induction false} RowValsDiagonal(g: Grid, ix: int, iy: int, iz: int, k: nat)
    requires k <= 27
    ensures forall i :: 0 <= i < |RowVals(g, ix, iy, iz, k)| ==>
      RowVals(g, ix, iy, iz, k)[i] == (if RowCols(g, ix, iy, iz, k)[i] == Index(g, ix, iy, iz) then 27.0 else -1.0)
  {
    if k > 0 {
      RowValsDiagonal(g, ix, iy, iz, k - 1);
    }
  }

  /**
    After the first `k` shifts the stored values sum to `-n` for `n`
    entries, and to `27 - (n - 1)` once the diagonal (shift 13) is past.
  */
  lemma {:induction false} RowValsSum(g: Grid, ix: int, iy: int, iz: int, k: nat)
    requires InGrid(g, ix, iy, iz) && k <= 27
    ensures Sum(RowVals(g, ix, iy, iz, k)) == (if k > 13 then 28.0 else 0.0) - |RowCols(g, ix, iy, iz, k)| as real
  {
    if k > 0 {
      RowValsSum(g, ix, iy, iz, k - 1);
      var prev, v := RowVals(g, ix, iy, iz, k - 1), RowVals(g, ix, iy, iz, k);
      var n := |RowCols(g, ix, iy, iz, k - 1)|;
      DiagonalShift(g, ix, iy, iz, k - 1);
      if Admitted(g, ix, iy, iz, k - 1) {
        var c := StencilCol(g, ix, iy, iz, k - 1);
        var val := if c == Index(g, ix, iy, iz) then 27.0 else -1.0;
        assert v == prev + [val];
        SumSnoc(prev, val);
        assert |RowCols(g, ix, iy, iz, k)| == n + 1;
        assert val == (if k - 1 == 13 then 27.0 else -1.0);
      } else {
        assert v == prev;
        assert RowCols(g, ix, iy, iz, k) == RowCols(g, ix, iy, iz, k - 1);
      }
    }
  }

  /** Appending a value adds it to the sum. */
  lemma SumSnoc(s: seq<real>, x: real)
    ensures Sum(s + [x]) == Sum(s) + x
  {
    assert (s + [x])[..|s|] == s;
  }

  /**
    The right-hand side `b[r] = 27 - (nnzrow - 1)` is the sum of row `r`'s
    values, so `A * xexact = b` for the all-ones `xexact`.
  */
  lemma RhsIsRowSum(g: Grid, ix: int, iy: int, iz: int)
    requires InGrid(g, ix, iy, iz)
    ensures Sum(RowVals(g, ix, iy, iz, 27)) == 27.0 - (|RowCols(g, ix, iy, iz, 27)| - 1) as real
  {
    RowValsSum(g, ix, iy, iz, 27);
  }

  // ---------------------------------------------------------------------------
  // Step 1: the CSR matrix

  /** `a / d` as the count of `d`s subtracted from `a`; like `Times`, it keeps unfolding linear. */
  function Quot(a: nat, d: nat): nat
    requires d > 0
    decreases a
  {
    if a < d then 0 else Quot(a - d, d) + 1
  }

  /** `a % d`: what is left of `a` after those subtractions. */
  function Rem(a: nat, d: nat): nat
    requires d > 0
    decreases a
  {
    if a < d then a else Rem(a - d, d)
  }

  lemma {:induction false} QuotRem(a: nat, d: nat)
    requires d > 0
    ensures Quot(a, d) == a / d && Rem(a, d) == a % d
  {
    if a < d {
      DivModUnique(a, d, 0, a);
    } else {
      QuotRem(a - d, d);
      MulDistrib(Quot(a - d, d), 1, d);
      DivModUnique(a, d, Quot(a, d), Rem(a, d));
    }
  }

  /** The grid point of row `r`: `x` fastest, then `y`, then `z`. */
  function Coords(g: Grid, r: nat): (int, int, int)
    requires ValidGrid(g)
  {
    (Rem(r, g.nx), Rem(Quot(r, g.nx), g.ny), Quot(Quot(r, g.nx), g.ny))
  }

  /** `Coords` as quotients and remainders: `(r % nx, r / nx % ny, r / nx / ny)`. */
  lemma CoordsDivMod(g: Grid, r: nat)
    requires ValidGrid(g)
    ensures Coords(g, r) == (r % g.nx, r / g.nx % g.ny, r / g.nx / g.ny)
  {
    QuotRem(r, g.nx);
    QuotRem(r / g.nx, g.ny);
  }

  /** The point of a row is the point the row was numbered from. */
  lemma CoordsOfIndex(g: Grid, ix: int, iy: int, iz: int)
    requires ValidGrid(g) && InGrid(g, ix, iy, iz)
    ensures Coords(g, Index(g, ix, iy, iz) as nat) == (ix, iy, iz)
  {
    IndexBound(g, ix, iy, iz);
    IndexProduct(g, ix, iy, iz);
    GridProducts(g);
    var r := Index(g, ix, iy, iz);
    CoordsDivMod(g, r as nat);
    MulRotate(iz, g.nx, g.ny);
    MulDistrib(iz * g.ny, iy, g.nx);
    assert r == (iz * g.ny + iy) * g.nx + ix;
    DivModUnique(r, g.nx, iz * g.ny + iy, ix);
    DivModUnique(iz * g.ny + iy, g.ny, iz, iy);
  }

  /** Every row below `nrow` is numbered from a point of the grid. */
  lemma IndexOfCoords(g: Grid, r: nat)
    requires ValidGrid(g) && r < NumRows(g)
    ensures InGrid(g, Coords(g, r).0, Coords(g, r).1, Coords(g, r).2)
    ensures Index(g, Coords(g, r).0, Coords(g, r).1, Coords(g, r).2) == r
  {
    var c := Coords(g, r);
    CoordsDivMod(g, r);
    GridProducts(g);
    IndexProduct(g, c.0, c.1, c.2);
    DivDivMod(r, g.nx, g.ny);
    PlaneBound(g, c.0, c.1);
    PlaneRange(c.2, c.1 * g.nx + c.0, Plane(g), g.nz);
  }

  /** The columns of row `r`: those of its grid point. */
  function RowOf(g: Grid, r: nat): seq<int>
    requires ValidGrid(g)
  {
    var c := Coords(g, r);
    RowCols(g, c.0, c.1, c.2, 27)
  }

  /** The values of row `r`. */
  function RowValsOf(g: Grid, r: nat): seq<real>
    requires ValidGrid(g)
  {
    var c := Coords(g, r);
    RowVals(g, c.0, c.1, c.2, 27)
  }

  /** `b[r] = 27 - (nnzrow - 1)`. */
  function Rhs(g: Grid, r: nat): real
    requires ValidGrid(g)
  {
    27.0 - (|RowOf(g, r)| - 1) as real
  }


  /**
    Row `r` is in place: it occupies `[nnzs[r], nnzs[r + 1])` of `inds` and
    `vals` and holds there the columns and values of the stencil row of its
    grid point, and `x`, `b` and `xexact` hold 0, the right-hand side and 1
    at `r`.
  */
  ghost predicate RowBuilt(g: Grid, nnzs: seq<int>, vals: seq<real>, inds: seq<int>, x: seq<real>, b: seq<real>, xexact: seq<real>, r: nat)
    requires ValidGrid(g)
  {
    r + 1 < |nnzs| && r < |x| && r < |b| && r < |xexact| &&
    0 <= nnzs[r] <= nnzs[r + 1] <= |inds| && nnzs[r + 1] <= |vals| &&
    inds[nnzs[r]..nnzs[r + 1]] == RowOf(g, r) && vals[nnzs[r]..nnzs[r + 1]] == RowValsOf(g, r) &&
    x[r] == 0.0 && b[r] == Rhs(g, r) && xexact[r] == 1.0
  }

  /**
    The arrays after rows `0 .. done - 1` of the generator: `nnzs[0] = 0`,
    every offset so far lies between 0 and the cursor `nnzs[done]`, which is
    at most 27 per row and inside `vals` and `inds`, and every row so far is
    in place.
  */
  ghost predicate Built(g: Grid, nnzs: seq<int>, vals: seq<real>, inds: seq<int>, x: seq<real>, b: seq<real>, xexact: seq<real>, done: nat)
    requires ValidGrid(g)
  {
    done < |nnzs| && done <= |x| && done <= |b| && done <= |xexact| &&
    nnzs[0] == 0 && nnzs[done] <= 27 * done && nnzs[done] <= |vals| && nnzs[done] <= |inds| &&
    (forall r :: 0 <= r <= done ==> 0 <= nnzs[r] <= nnzs[done]) &&
    forall r :: 0 <= r < done ==> RowBuilt(g, nnzs, vals, inds, x, b, xexact, r)
  }

  /** Part way through a row: the first `k` shifts are stored after the entries `pv`, `pi` of the earlier rows. */
  ghost predicate RowPrefix(g: Grid, ix: int, iy: int, iz: int, vals: seq<real>, inds: seq<int>, pv: seq<real>, pi: seq<int>, nnzrow: nat, k: nat)
  {
    k <= 27 && |pv| == |pi| && nnzrow == |RowCols(g, ix, iy, iz, k)| && |pi| + nnzrow <= |vals| && |pi| + nnzrow <= |inds| &&
    vals[..|pi| + nnzrow] == pv + RowVals(g, ix, iy, iz, k) &&
    inds[..|pi| + nnzrow] == pi + RowCols(g, ix, iy, iz, k)
  }

  /**
    The `sz, sy, sx` loops for point `(ix, iy, iz)`: each admitted neighbour
    is stored at the cursor `cur + nnzrow` and counted in `nnzrow`.
  */
  method StencilRow(g: Grid, vals: array<real>, inds: array<int>, ix: nat, iy: nat, iz: nat, currow: int, cur: nat) returns (nnzrow: nat)
    requires ValidGrid(g) && InGrid(g, ix, iy, iz) && currow == Index(g, ix, iy, iz)
    requires cur + 27 <= vals.Length && cur + 27 <= inds.Length
    modifies vals, inds
    ensures RowPrefix(g, ix, iy, iz, vals[..], inds[..], old(vals[..cur]), old(inds[..cur]), nnzrow, 27)
  {
    ghost var pv, pi := vals[..cur], inds[..cur];
    nnzrow := 0;
    for sz := -1 to 2
      invariant RowPrefix(g, ix, iy, iz, vals[..], inds[..], pv, pi, nnzrow, 9 * (sz + 1))
    {
      nnzrow := StencilPlane(g, vals, inds, ix, iy, iz, currow, cur, nnzrow, sz, pv, pi);
    }
  }

  /** The `sy` loop of one `sz` plane of the stencil: nine shifts. */
  method StencilPlane(g: Grid, vals: array<real>, inds: array<int>, ix: nat, iy: nat, iz: nat, currow: int, cur: nat, nnzrow: nat,
                      sz: int, ghost pv: seq<real>, ghost pi: seq<int>) returns (nnzrow': nat)
    requires ValidGrid(g) && InGrid(g, ix, iy, iz) && currow == Index(g, ix, iy, iz) && -1 <= sz <= 1
    requires cur + 27 <= vals.Length && cur + 27 <= inds.Length && |pi| == cur
    requires RowPrefix(g, ix, iy, iz, vals[..], inds[..], pv, pi, nnzrow, 9 * (sz + 1))
    modifies vals, inds
    ensures RowPrefix(g, ix, iy, iz, vals[..], inds[..], pv, pi, nnzrow', 9 * (sz + 1) + 9)
  {
    nnzrow' := nnzrow;
    for sy := -1 to 2
      invariant RowPrefix(g, ix, iy, iz, vals[..], inds[..], pv, pi, nnzrow', 9 * (sz + 1) + 3 * (sy + 1))
    {
      nnzrow' := StencilLine(g, vals, inds, ix, iy, iz, currow, cur, nnzrow', sz, sy, pv, pi);
    }
  }

  /** The `sx` loop of one `(sz, sy)` line of the stencil: three shifts. */
  method StencilLine(g: Grid, vals: array<real>, inds: array<int>, ix: nat, iy: nat, iz: nat, currow: int, cur: nat, nnzrow: nat,
                     sz: int, sy: int, ghost pv: seq<real>, ghost pi: seq<int>) returns (nnzrow': nat)
    requires ValidGrid(g) && InGrid(g, ix, iy, iz) && currow == Index(g, ix, iy, iz) && -1 <= sz <= 1 && -1 <= sy <= 1
    requires cur + 27 <= vals.Length && cur + 27 <= inds.Length && |pi| == cur
    requires RowPrefix(g, ix, iy, iz, vals[..], inds[..], pv, pi, nnzrow, 9 * (sz + 1) + 3 * (sy + 1))
    modifies vals, inds
    ensures RowPrefix(g, ix, iy, iz, vals[..], inds[..], pv, pi, nnzrow', 9 * (sz + 1) + 3 * (sy + 1) + 3)
  {
    nnzrow' := nnzrow;
    for sx := -1 to 2
      invariant RowPrefix(g, ix, iy, iz, vals[..], inds[..], pv, pi, nnzrow', 9 * (sz + 1) + 3 * (sy + 1) + (sx + 1))
    {
      nnzrow' := StencilEntry(g, vals, inds, ix, iy, iz, currow, cur, nnzrow', sz, sy, sx, pv, pi);
    }
  }

  /**
    The body of the `sx` loop: `curcol = currow + sz * nx * ny + sy * nx + sx`
    is stored with value 27 (diagonal) or -1 when the neighbour passes the
    filter. The 7-point switch of the source is the constant `false`, so its
    test always passes and is not modelled.
  */
  method StencilEntry(g: Grid, vals: array<real>, inds: array<int>, ix: nat, iy: nat, iz: nat, currow: int, cur: nat, nnzrow: nat,
                      sz: int, sy: int, sx: int, ghost pv: seq<real>, ghost pi: seq<int>) returns (nnzrow': nat)
    requires ValidGrid(g) && InGrid(g, ix, iy, iz) && currow == Index(g, ix, iy, iz)
    requires -1 <= sz <= 1 && -1 <= sy <= 1 && -1 <= sx <= 1
    requires cur + 27 <= vals.Length && cur + 27 <= inds.Length && |pi| == cur
    requires RowPrefix(g, ix, iy, iz, vals[..], inds[..], pv, pi, nnzrow, 9 * (sz + 1) + 3 * (sy + 1) + (sx + 1))
    modifies vals, inds
    ensures RowPrefix(g, ix, iy, iz, vals[..], inds[..], pv, pi, nnzrow', 9 * (sz + 1) + 3 * (sy + 1) + (sx + 1) + 1)
  {
    ghost var k := 9 * (sz + 1) + 3 * (sy + 1) + (sx + 1);
    ColumnOfShift(g, ix, iy, iz, sz, sy, sx);
    var curcol := currow + sz * g.nx * g.ny + sy * g.nx + sx;
    ghost var valsBefore, indsBefore := vals[..], inds[..];
    nnzrow' := nnzrow;
    if ix + sx >= 0 && ix + sx < g.nx && iy + sy >= 0 && iy + sy < g.ny && curcol >= 0 && curcol < NumRows(g) {
      if curcol == currow {
        vals[cur + nnzrow] := 27.0;
      } else {
        vals[cur + nnzrow] := -1.0;
      }
      inds[cur + nnzrow] := curcol;
      nnzrow' := nnzrow + 1;
    }
    RowPrefixStep(g, ix, iy, iz, valsBefore, indsBefore, vals[..], inds[..], pv, pi, nnzrow, k);
  }

  /** Storing shift `k` when it is admitted, and nothing otherwise, extends the row by one shift. */
  lemma RowPrefixStep(g: Grid, ix: int, iy: int, iz: int, vals: seq<real>, inds: seq<int>, vals': seq<real>, inds': seq<int>,
                      pv: seq<real>, pi: seq<int>, nnzrow: nat, k: nat)
    requires k < 27 && RowPrefix(g, ix, iy, iz, vals, inds, pv, pi, nnzrow, k)
    requires var at := |pi| + nnzrow;
      if Admitted(g, ix, iy, iz, k) then
        at < |vals| && at < |inds| &&
        vals' == vals[at := if StencilCol(g, ix, iy, iz, k) == Index(g, ix, iy, iz) then 27.0 else -1.0] &&
        inds' == inds[at := StencilCol(g, ix, iy, iz, k)]
      else vals' == vals && inds' == inds
    ensures RowPrefix(g, ix, iy, iz, vals', inds', pv, pi, nnzrow + (if Admitted(g, ix, iy, iz, k) then 1 else 0), k + 1)
  {
    var at := |pi| + nnzrow;
    if Admitted(g, ix, iy, iz, k) {
      assert vals'[..at + 1] == vals[..at] + [vals'[at]];
      assert inds'[..at + 1] == inds[..at] + [inds'[at]];
    }
  }

  /** The loop counters `(sz, sy, sx)` are shift `9 (sz + 1) + 3 (sy + 1) + (sx + 1)`. */
  lemma ShiftOf(sz: int, sy: int, sx: int)
    requires -1 <= sz <= 1 && -1 <= sy <= 1 && -1 <= sx <= 1
    ensures Shift(9 * (sz + 1) + 3 * (sy + 1) + (sx + 1)) == (sz, sy, sx)
  {
  }

  /** `a * nx * ny`, as the source groups it, is `a` planes. */
  lemma TimesPlane(g: Grid, a: int)
    ensures a * g.nx * g.ny == a * Plane(g)
  {
    GridProducts(g);
  }

  /** Shift `(sz, sy, sx)` of the loops is shift `k` of the specification, and `curcol` is its column. */
  lemma ColumnOfShift(g: Grid, ix: int, iy: int, iz: int, sz: int, sy: int, sx: int)
    requires -1 <= sz <= 1 && -1 <= sy <= 1 && -1 <= sx <= 1
    ensures Shift(9 * (sz + 1) + 3 * (sy + 1) + (sx + 1)) == (sz, sy, sx)
    ensures iz * g.nx * g.ny + iy * g.nx + ix == Index(g, ix, iy, iz)
    ensures StencilCol(g, ix, iy, iz, 9 * (sz + 1) + 3 * (sy + 1) + (sx + 1)) ==
      Index(g, ix, iy, iz) + sz * g.nx * g.ny + sy * g.nx + sx
  {
    ShiftOf(sz, sy, sx);
    TimesIsProduct(sz, Plane(g));
    TimesIsProduct(sy, g.nx);
    IndexProduct(g, ix, iy, iz);
    TimesPlane(g, iz);
    TimesPlane(g, sz);
  }

  /**
    One `(ix, iy, iz)` iteration of the generator: the stencil loops store
    row `currow` at the cursor `cur`, then `nnzs[currow + 1]`, `x`, `b` and
    `xexact` are set for the row.
  */
  method GenerateRow(g: Grid, nnzs: array<int>, vals: array<real>, inds: array<int>, x: array<real>, b: array<real>, xexact: array<real>,
                     ix: nat, iy: nat, iz: nat, ghost row: nat, cur: nat) returns (next: nat)
    requires ValidGrid(g) && InGrid(g, ix, iy, iz) && row == Index(g, ix, iy, iz) && row < NumRows(g)
    requires nnzs.Length == NumRows(g) + 1 && vals.Length == 27 * NumRows(g) && inds.Length == 27 * NumRows(g)
    requires x.Length == NumRows(g) && b.Length == NumRows(g) && xexact.Length == NumRows(g)
    requires nnzs != inds && vals != x && vals != b && vals != xexact && x != b && x != xexact && b != xexact
    requires Built(g, nnzs[..], vals[..], inds[..], x[..], b[..], xexact[..], row) && cur == nnzs[row]
    modifies nnzs, vals, inds, x, b, xexact
    ensures Built(g, nnzs[..], vals[..], inds[..], x[..], b[..], xexact[..], row + 1) && next == nnzs[row + 1]
  {
    var currow := iz * g.nx * g.ny + iy * g.nx + ix;
    ColumnOfShift(g, ix, iy, iz, 0, 0, 0);
    ghost var nnzs0, vals0, inds0, x0, b0, xexact0 := nnzs[..], vals[..], inds[..], x[..], b[..], xexact[..];
    var nnzrow := StencilRow(g, vals, inds, ix, iy, iz, currow, cur);
    nnzs[currow + 1] := nnzs[currow] + nnzrow;
    x[currow] := 0.0;
    b[currow] := 27.0 - (nnzrow - 1) as real;
    xexact[currow] := 1.0;
    BuiltStep(g, ix, iy, iz, row, nnzs0, vals0, inds0, x0, b0, xexact0, nnzs[..], vals[..], inds[..], x[..], b[..], xexact[..], nnzrow);
    next := cur + nnzrow;
  }

  /** Closing a row: the offsets, the entries and the vectors now cover one more row. */
  lemma BuiltStep(g: Grid, ix: int, iy: int, iz: int, done: nat,
                  nnzs: seq<int>, vals: seq<real>, inds: seq<int>, x: seq<real>, b: seq<real>, xexact: seq<real>,
                  nnzs': seq<int>, vals': seq<real>, inds': seq<int>, x': seq<real>, b': seq<real>, xexact': seq<real>, nnzrow: nat)
    requires ValidGrid(g) && InGrid(g, ix, iy, iz) && done == Index(g, ix, iy, iz) && done < NumRows(g)
    requires |nnzs| == NumRows(g) + 1 && |x| == NumRows(g) && |b| == NumRows(g) && |xexact| == NumRows(g)
    requires Built(g, nnzs, vals, inds, x, b, xexact, done)
    requires RowPrefix(g, ix, iy, iz, vals', inds', vals[..nnzs[done]], inds[..nnzs[done]], nnzrow, 27)
    requires nnzs' == nnzs[done + 1 := nnzs[done] + nnzrow]
    requires x' == x[done := 0.0] && b' == b[done := 27.0 - (nnzrow - 1) as real] && xexact' == xexact[done := 1.0]
    ensures Built(g, nnzs', vals', inds', x', b', xexact', done + 1)
  {
    var cur := nnzs[done];
    CoordsOfIndex(g, ix, iy, iz);
    assert RowOf(g, done) == RowCols(g, ix, iy, iz, 27) && RowValsOf(g, done) == RowVals(g, ix, iy, iz, 27);
    assert inds'[cur..cur + nnzrow] == inds'[..cur + nnzrow][cur..];
    assert vals'[cur..cur + nnzrow] == vals'[..cur + nnzrow][cur..];
    assert RowBuilt(g, nnzs', vals', inds', x', b', xexact', done);
    forall r | 0 <= r < done
      ensures RowBuilt(g, nnzs', vals', inds', x', b', xexact', r)
    {
      RowKept(g, nnzs, vals, inds, x, b, xexact, nnzs', vals', inds', x', b', xexact', done, r);
    }
  }

  /** Row `r` of the rows already built is untouched when row `done` is stored after them. */
  lemma RowKept(g: Grid, nnzs: seq<int>, vals: seq<real>, inds: seq<int>, x: seq<real>, b: seq<real>, xexact: seq<real>,
                nnzs': seq<int>, vals': seq<real>, inds': seq<int>, x': seq<real>, b': seq<real>, xexact': seq<real>, done: nat, r: nat)
    requires ValidGrid(g) && r < done && Built(g, nnzs, vals, inds, x, b, xexact, done)
    requires nnzs[done] <= |vals'| && nnzs[done] <= |inds'|
    requires vals'[..nnzs[done]] == vals[..nnzs[done]] && inds'[..nnzs[done]] == inds[..nnzs[done]]
    requires |nnzs'| == |nnzs| && nnzs'[r] == nnzs[r] && nnzs'[r + 1] == nnzs[r + 1]
    requires |x'| == |x| && |b'| == |b| && |xexact'| == |xexact| && x'[r] == x[r] && b'[r] == b[r] && xexact'[r] == xexact[r]
    ensures RowBuilt(g, nnzs', vals', inds', x', b', xexact', r)
  {
    assert RowBuilt(g, nnzs, vals, inds, x, b, xexact, r);
    var s, e, cur := nnzs[r], nnzs[r + 1], nnzs[done];
    assert e <= cur;
    assert inds'[s..e] == inds'[..cur][s..e];
    assert vals'[s..e] == vals'[..cur][s..e];
    assert inds[s..e] == inds[..cur][s..e];
    assert vals[s..e] == vals[..cur][s..e];
  }

  /** Before any row, `nnzs[0] = 0` and nothing is stored. */
  lemma BuiltStart(g: Grid, nnzs: seq<int>, vals: seq<real>, inds: seq<int>, x: seq<real>, b: seq<real>, xexact: seq<real>)
    requires ValidGrid(g) && |nnzs| > 0 && nnzs[0] == 0
    ensures Built(g, nnzs, vals, inds, x, b, xexact, 0)
  {
  }

  /**
    Step 1 of `generate_matrix`: the `iz, iy, ix` loops build every row of
    the stencil matrix in CSR form together with `x = 0`, `b` and
    `xexact = 1`; `nnz` is allocated as `27 * nrow`.
  */
  method GenerateCsr(g: Grid) returns (nnzs: array<int>, vals: array<real>, inds: array<int>, x: array<real>, b: array<real>, xexact: array<real>)
    requires ValidGrid(g)
    ensures nnzs.Length == NumRows(g) + 1 && vals.Length == 27 * NumRows(g) && inds.Length == 27 * NumRows(g)
    ensures x.Length == NumRows(g) && b.Length == NumRows(g) && xexact.Length == NumRows(g)
    ensures Built(g, nnzs[..], vals[..], inds[..], x[..], b[..], xexact[..], NumRows(g))
  {
    GridProducts(g);
    var nrow := g.nx * g.ny * g.nz;
    var nnz := 27 * nrow;
    nnzs := new int[nrow + 1];
    nnzs[0] := 0;
    vals := new real[nnz];
    inds := new int[nnz];
    x := new real[nrow];
    b := new real[nrow];
    xexact := new real[nrow];
    BuiltStart(g, nnzs[..], vals[..], inds[..], x[..], b[..], xexact[..]);
    GenerateRows(g, nnzs, vals, inds, x, b, xexact);
  }

  /** The `iz` loop of step 1, from no row built to every row built. */
  method GenerateRows(g: Grid, nnzs: array<int>, vals: array<real>, inds: array<int>, x: array<real>, b: array<real>, xexact: array<real>)
    requires ValidGrid(g)
    requires nnzs.Length == NumRows(g) + 1 && vals.Length == 27 * NumRows(g) && inds.Length == 27 * NumRows(g)
    requires x.Length == NumRows(g) && b.Length == NumRows(g) && xexact.Length == NumRows(g)
    requires nnzs != inds && vals != x && vals != b && vals != xexact && x != b && x != xexact && b != xexact
    requires Built(g, nnzs[..], vals[..], inds[..], x[..], b[..], xexact[..], 0)
    modifies nnzs, vals, inds, x, b, xexact
    ensures Built(g, nnzs[..], vals[..], inds[..], x[..], b[..], xexact[..], NumRows(g))
  {
    var cur := 0;
    ghost var done: nat := 0;
    IndexOrigin(g);
    for iz := 0 to g.nz
      invariant done == Index(g, 0, 0, iz)
      invariant Built(g, nnzs[..], vals[..], inds[..], x[..], b[..], xexact[..], done) && cur == nnzs[done]
    {
      IndexNextPlane(g, iz);
      ghost var end: nat := Index(g, 0, 0, iz + 1);
      cur := GeneratePlane(g, nnzs, vals, inds, x, b, xexact, iz, done, end, cur);
      done := end;
    }
    IndexNextPlane(g, g.nz);
  }

  /** One `iz` iteration: the `iy, ix` loops build rows `start .. end - 1`, those of plane `iz`. */
  method GeneratePlane(g: Grid, nnzs: array<int>, vals: array<real>, inds: array<int>, x: array<real>, b: array<real>, xexact: array<real>,
                       iz: nat, ghost start: nat, ghost end: nat, cur: nat) returns (next: nat)
    requires ValidGrid(g) && iz < g.nz && start == Index(g, 0, 0, iz) && end == Index(g, 0, 0, iz + 1)
    requires nnzs.Length == NumRows(g) + 1 && vals.Length == 27 * NumRows(g) && inds.Length == 27 * NumRows(g)
    requires x.Length == NumRows(g) && b.Length == NumRows(g) && xexact.Length == NumRows(g)
    requires nnzs != inds && vals != x && vals != b && vals != xexact && x != b && x != xexact && b != xexact
    requires Built(g, nnzs[..], vals[..], inds[..], x[..], b[..], xexact[..], start) && cur == nnzs[start]
    modifies nnzs, vals, inds, x, b, xexact
    ensures Built(g, nnzs[..], vals[..], inds[..], x[..], b[..], xexact[..], end) && next == nnzs[end]
  {
    next := cur;
    ghost var done := start;
    for iy := 0 to g.ny
      invariant done == Index(g, 0, iy, iz)
      invariant Built(g, nnzs[..], vals[..], inds[..], x[..], b[..], xexact[..], done) && next == nnzs[done]
    {
      IndexNextLine(g, iy, iz);
      IndexBound(g, 0, iy, iz);
      ghost var lineEnd: nat := Index(g, g.nx, iy, iz);
      next := GenerateLine(g, nnzs, vals, inds, x, b, xexact, iy, iz, done, lineEnd, next);
      done := lineEnd;
    }
    IndexNextPlane(g, iz);
  }

  /** One `iy` iteration: the `ix` loop builds rows `start .. end - 1`, those of line `iy` of plane `iz`. */
  method GenerateLine(g: Grid, nnzs: array<int>, vals: array<real>, inds: array<int>, x: array<real>, b: array<real>, xexact: array<real>,
                      iy: nat, iz: nat, ghost start: nat, ghost end: nat, cur: nat) returns (next: nat)
    requires ValidGrid(g) && iy < g.ny && iz < g.nz && start == Index(g, 0, iy, iz) && end == Index(g, g.nx, iy, iz)
    requires nnzs.Length == NumRows(g) + 1 && vals.Length == 27 * NumRows(g) && inds.Length == 27 * NumRows(g)
    requires x.Length == NumRows(g) && b.Length == NumRows(g) && xexact.Length == NumRows(g)
    requires nnzs != inds && vals != x && vals != b && vals != xexact && x != b && x != xexact && b != xexact
    requires Built(g, nnzs[..], vals[..], inds[..], x[..], b[..], xexact[..], start) && cur == nnzs[start]
    modifies nnzs, vals, inds, x, b, xexact
    ensures Built(g, nnzs[..], vals[..], inds[..], x[..], b[..], xexact[..], end) && next == nnzs[end]
  {
    next := cur;
    ghost var done := start;
    for ix := 0 to g.nx
      invariant done == Index(g, ix, iy, iz)
      invariant Built(g, nnzs[..], vals[..], inds[..], x[..], b[..], xexact[..], done) && next == nnzs[done]
    {
      IndexBound(g, ix, iy, iz);
      IndexNextPoint(g, ix, iy, iz);
      next := GenerateRow(g, nnzs, vals, inds, x, b, xexact, ix, iy, iz, done, next);
      done := done + 1;
    }
  }

  /** The next point along a line is the next row. */
  lemma IndexNextPoint(g: Grid, ix: int, iy: int, iz: int)
    ensures Index(g, ix + 1, iy, iz) == Index(g, ix, iy, iz) + 1
  {
  }

  /** Past the last point of a line comes the first point of the next line. */
  lemma IndexNextLine(g: Grid, iy: int, iz: int)
    ensures Index(g, g.nx, iy, iz) == Index(g, 0, iy + 1, iz)
  {
    IndexProduct(g, g.nx, iy, iz);
    IndexProduct(g, 0, iy + 1, iz);
    assert (iy + 1) * g.nx == iy * g.nx + g.nx;
  }

  /** The first point of the grid is row 0. */
  lemma IndexOrigin(g: Grid)
    ensures Index(g, 0, 0, 0) == 0
  {
    IndexProduct(g, 0, 0, 0);
  }

  /** Past the last line of a plane comes the first point of the next plane; after the last plane, `nrow`. */
  lemma IndexNextPlane(g: Grid, iz: nat)
    ensures Index(g, 0, g.ny, iz) == Index(g, 0, 0, iz + 1)
    ensures Index(g, 0, 0, g.nz) == NumRows(g)
  {
    GridProducts(g);
    IndexProduct(g, 0, g.ny, iz);
    IndexProduct(g, 0, 0, iz + 1);
    IndexProduct(g, 0, 0, g.nz);
    assert g.ny * g.nx == Plane(g);
    assert (iz + 1) * Plane(g) == iz * Plane(g) + Plane(g);
  }

  /**
    Once every row is built, `nnzs[0] = 0`, row `r` occupies
    `[nnzs[r], nnzs[r + 1])` of `inds` and `vals` and holds the stencil row
    of its grid point, and `x`, `b`, `xexact` hold 0, the right-hand side
    and 1.
  */
  lemma BuiltRow(g: Grid, nnzs: seq<int>, vals: seq<real>, inds: seq<int>, x: seq<real>, b: seq<real>, xexact: seq<real>, r: nat)
    requires ValidGrid(g) && Built(g, nnzs, vals, inds, x, b, xexact, NumRows(g)) && r < NumRows(g)
    ensures nnzs[0] == 0
    ensures 0 <= nnzs[r] <= nnzs[r + 1] <= |inds| && nnzs[r + 1] <= |vals|
    ensures inds[nnzs[r]..nnzs[r + 1]] == RowOf(g, r)
    ensures vals[nnzs[r]..nnzs[r + 1]] == RowValsOf(g, r)
    ensures x[r] == 0.0 && xexact[r] == 1.0 && b[r] == Rhs(g, r)
  {
    assert RowBuilt(g, nnzs, vals, inds, x, b, xexact, r);
  }

  /** Offsets that never decrease from one row to the next never decrease at all. */
  lemma {:induction false} OffsetsMonotone(nnzs: seq<int>, n: nat, r: nat, s: nat)
    requires n < |nnzs| && forall i :: 0 <= i < n ==> nnzs[i] <= nnzs[i + 1]
    requires r <= s <= n
    ensures nnzs[r] <= nnzs[s]
    decreases s - r
  {
    if r < s {
      OffsetsMonotone(nnzs, n, r + 1, s);
    }
  }

  /** `sum_k vals[k] * v[cols[k]]`: one row of a CSR product `A * v`. */
  function RowProduct(vals: seq<real>, cols: seq<int>, v: seq<real>): real
    requires |vals| == |cols| && forall k :: 0 <= k < |cols| ==> 0 <= cols[k] < |v|
  {
    if |vals| == 0 then 0.0
    else RowProduct(vals[..|vals| - 1], cols[..|cols| - 1], v) + vals[|vals| - 1] * v[cols[|cols| - 1]]
  }

  /** Against a vector of ones, a row product is the sum of the row's values. */
  lemma {:induction false} RowProductOnes(vals: seq<real>, cols: seq<int>, v: seq<real>)
    requires |vals| == |cols| && forall k :: 0 <= k < |cols| ==> 0 <= cols[k] < |v| && v[cols[k]] == 1.0
    ensures RowProduct(vals, cols, v) == Sum(vals)
  {
    if |vals| > 0 {
      RowProductOnes(vals[..|vals| - 1], cols[..|cols| - 1], v);
    }
  }

  /** Row `r` of a CSR array: the entries from `nnzs[r]` up to `nnzs[r + 1]`. */
  function CsrRow<T>(nnzs: seq<int>, arr: seq<T>, r: nat): seq<T>
    requires r + 1 < |nnzs| && 0 <= nnzs[r] <= nnzs[r + 1] <= |arr|
  {
    arr[nnzs[r]..nnzs[r + 1]]
  }

  /**
    The row of grid row `r` has between 1 and 27 entries, strictly
    increasing columns inside `[0, nrow)` that include `r` itself, value 27
    on the diagonal and -1 elsewhere, and its values sum to `b[r]`.
  */
  lemma RowOfShape(g: Grid, r: nat)
    requires ValidGrid(g) && r < NumRows(g)
    ensures 1 <= |RowOf(g, r)| <= 27 && |RowValsOf(g, r)| == |RowOf(g, r)|
    ensures forall k :: 0 <= k < |RowOf(g, r)| ==> 0 <= RowOf(g, r)[k] < NumRows(g)
    ensures forall k, l :: 0 <= k < l < |RowOf(g, r)| ==> RowOf(g, r)[k] < RowOf(g, r)[l]
    ensures r in RowOf(g, r)
    ensures forall k :: 0 <= k < |RowOf(g, r)| ==> RowValsOf(g, r)[k] == if RowOf(g, r)[k] == r then 27.0 else -1.0
    ensures Sum(RowValsOf(g, r)) == Rhs(g, r)
  {
    IndexOfCoords(g, r);
    var c := Coords(g, r);
    StencilRowShape(g, c.0, c.1, c.2);
    RowValsDiagonal(g, c.0, c.1, c.2, 27);
    RhsIsRowSum(g, c.0, c.1, c.2);
    var cols := RowOf(g, r);
    forall k | 0 <= k < |cols|
      ensures 0 <= cols[k] < NumRows(g)
    {
      assert cols[k] in cols;
    }
  }

  /**
    In the generated system every row's product with `xexact` is the
    row's `b`: `A * xexact = b`.
  */
  lemma ExactSolution(g: Grid, nnzs: seq<int>, vals: seq<real>, inds: seq<int>, x: seq<real>, b: seq<real>, xexact: seq<real>, r: nat)
    requires ValidGrid(g) && Built(g, nnzs, vals, inds, x, b, xexact, NumRows(g)) && r < NumRows(g)
    ensures 0 <= nnzs[r] <= nnzs[r + 1] <= |inds| && nnzs[r + 1] <= |vals|
    ensures |CsrRow(nnzs, vals, r)| == |CsrRow(nnzs, inds, r)|
    ensures forall k :: 0 <= k < |CsrRow(nnzs, inds, r)| ==> 0 <= CsrRow(nnzs, inds, r)[k] < |xexact|
    ensures b[r] == RowProduct(CsrRow(nnzs, vals, r), CsrRow(nnzs, inds, r), xexact)
  {
    BuiltRow(g, nnzs, vals, inds, x, b, xexact, r);
    RowOfShape(g, r);
    var cols := RowOf(g, r);
    forall k | 0 <= k < |cols|
      ensures 0 <= cols[k] < |xexact| && xexact[cols[k]] == 1.0
    {
      BuiltRow(g, nnzs, vals, inds, x, b, xexact, cols[k]);
    }
    RowProductOnes(RowValsOf(g, r), cols, xexact);
  }

  // ---------------------------------------------------------------------------
  // Step 2: the ELLPACK layout

  /** The fixed ELLPACK width: 32 cells per row. */
  const ELLPACK_COLS: nat := 32

  /**
    `UINT32_MAX` stored into the `int` index array, where it reads back as
    -1; the device reads the same four bytes as the unsigned sentinel.
  */
  const INVALID_INDEX: int := -1

  /** The address the device reads from an ELLPACK index cell: its four bytes as an unsigned 32-bit value. */
  function DeviceAddr(ind: int): (a: Addr)
    ensures ind == INVALID_INDEX ==> a == SENTINEL
    ensures 0 <= ind < SENTINEL ==> a == ind
  {
    Wrap32(ind)
  }

  /** `nnzs` delimits `nrow` rows of a CSR array of `len` entries: offsets in order and in bounds. */
  predicate CsrOffsets(nnzs: seq<int>, nrow: nat, len: nat)
  {
    |nnzs| == nrow + 1 && forall r, s :: 0 <= r <= s <= nrow ==> 0 <= nnzs[r] <= nnzs[s] <= len
  }

  /** The generated `nnzs` delimits the rows of both `inds` and `vals`, each row holding at most 27 entries. */
  lemma BuiltIsCsr(g: Grid, nnzs: seq<int>, vals: seq<real>, inds: seq<int>, x: seq<real>, b: seq<real>, xexact: seq<real>)
    requires ValidGrid(g) && Built(g, nnzs, vals, inds, x, b, xexact, NumRows(g)) && |nnzs| == NumRows(g) + 1
    ensures CsrOffsets(nnzs, NumRows(g), |inds|) && CsrOffsets(nnzs, NumRows(g), |vals|)
    ensures forall r :: 0 <= r < NumRows(g) ==> nnzs[r + 1] - nnzs[r] <= 27
  {
    var n := NumRows(g);
    forall i | 0 <= i < n
      ensures nnzs[i] <= nnzs[i + 1]
    {
      assert RowBuilt(g, nnzs, vals, inds, x, b, xexact, i);
    }
    forall r, s | 0 <= r <= s <= n
      ensures 0 <= nnzs[r] <= nnzs[s] <= nnzs[n]
    {
      OffsetsMonotone(nnzs, n, r, s);
    }
    if n > 0 {
      assert RowBuilt(g, nnzs, vals, inds, x, b, xexact, n - 1);
    }
    forall r | 0 <= r < n
      ensures nnzs[r + 1] - nnzs[r] <= 27
    {
      BuiltRow(g, nnzs, vals, inds, x, b, xexact, r);
      RowOfShape(g, r);
    }
  }

  /** `max_nnz_per_row` after scanning rows `0 .. n - 1`: `std::max` of 0 and the row lengths. */
  function MaxRowLen(nnzs: seq<int>, n: nat): (m: int)
    requires n < |nnzs|
    ensures m >= 0
  {
    if n == 0 then 0
    else
      var prev := MaxRowLen(nnzs, n - 1);
      if prev >= nnzs[n] - nnzs[n - 1] then prev else nnzs[n] - nnzs[n - 1]
  }

  /** `MaxRowLen` bounds every row length and is 0 or the length of some row. */
  lemma {:induction false} MaxRowLenIsMax(nnzs: seq<int>, n: nat)
    requires n < |nnzs|
    ensures forall i :: 0 <= i < n ==> nnzs[i + 1] - nnzs[i] <= MaxRowLen(nnzs, n)
    ensures MaxRowLen(nnzs, n) == 0 || exists i :: 0 <= i < n && nnzs[i + 1] - nnzs[i] == MaxRowLen(nnzs, n)
  {
    if n > 0 {
      MaxRowLenIsMax(nnzs, n - 1);
      if MaxRowLen(nnzs, n) != MaxRowLen(nnzs, n - 1) {
        assert nnzs[(n - 1) + 1] - nnzs[n - 1] == MaxRowLen(nnzs, n);
      }
    }
  }

  /**
    The scan for the widest row and the width check: `truncated` says the
    warning is printed, and `maxNnz` is then clamped to the ELLPACK width.
  */
  method ScanMaxNnz(nnzs: array<int>, nrow: nat) returns (maxNnz: int, truncated: bool)
    requires nnzs.Length == nrow + 1
    ensures truncated <==> MaxRowLen(nnzs[..], nrow) > ELLPACK_COLS
    ensures maxNnz == Min(MaxRowLen(nnzs[..], nrow), ELLPACK_COLS)
  {
    maxNnz := 0;
    for i := 0 to nrow
      invariant maxNnz == MaxRowLen(nnzs[..], i)
    {
      var nnzInRow := nnzs[i + 1] - nnzs[i];
      maxNnz := if maxNnz >= nnzInRow then maxNnz else nnzInRow;
    }
    truncated := maxNnz > ELLPACK_COLS;
    if truncated {
      maxNnz := ELLPACK_COLS;
    }
  }

  /** Cell `j` of ELLPACK row `row`: CSR entry `nnzs[row] + j` for `j < min(rowlen, 32)`, `pad` otherwise. */
  function EllpackAt<T>(nnzs: seq<int>, csr: seq<T>, pad: T, nrow: nat, row: nat, j: nat): T
    requires CsrOffsets(nnzs, nrow, |csr|) && row < nrow
  {
    if j < Min(nnzs[row + 1] - nnzs[row], ELLPACK_COLS) then csr[nnzs[row] + j] else pad
  }

  /** The ELLPACK array of `nrow * 32` cells, cell `i` being cell `i % 32` of row `i / 32`. */
  function Ellpack<T>(nnzs: seq<int>, csr: seq<T>, pad: T, nrow: nat): (ell: seq<T>)
    requires CsrOffsets(nnzs, nrow, |csr|)
    ensures |ell| == nrow * ELLPACK_COLS
  {
    seq(nrow * ELLPACK_COLS, i requires 0 <= i < nrow * ELLPACK_COLS => EllpackAt(nnzs, csr, pad, nrow, i / ELLPACK_COLS, i % ELLPACK_COLS))
  }

  /**
    ELLPACK cell `(row, j)` sits at `row * 32 + j`; it holds CSR entry
    `nnzs[row] + j` when `j` is below the row length (the rest of a longer
    row is cut off), and `pad` otherwise.
  */
  lemma EllpackCell<T>(nnzs: seq<int>, csr: seq<T>, pad: T, nrow: nat, row: nat, j: nat)
    requires CsrOffsets(nnzs, nrow, |csr|) && row < nrow && j < ELLPACK_COLS
    ensures row * ELLPACK_COLS + j < nrow * ELLPACK_COLS
    ensures Ellpack(nnzs, csr, pad, nrow)[row * ELLPACK_COLS + j] ==
      if j < nnzs[row + 1] - nnzs[row] then csr[nnzs[row] + j] else pad
  {
    DivModUnique(row * ELLPACK_COLS + j, ELLPACK_COLS, row, j);
  }

  /** The cells below `upto` hold the ELLPACK layout; the others still hold `pad`. */
  ghost predicate FilledUpTo<T>(ell: seq<T>, nnzs: seq<int>, csr: seq<T>, pad: T, nrow: nat, upto: nat)
    requires CsrOffsets(nnzs, nrow, |csr|)
  {
    |ell| == nrow * ELLPACK_COLS &&
    forall i :: 0 <= i < |ell| ==> ell[i] == if i < upto then Ellpack(nnzs, csr, pad, nrow)[i] else pad
  }

  /** Copying entry `j` of row `row` extends the filled prefix by one cell. */
  lemma FillStep<T>(ell: seq<T>, nnzs: seq<int>, csr: seq<T>, pad: T, nrow: nat, row: nat, j: nat)
    requires CsrOffsets(nnzs, nrow, |csr|) && row < nrow && j < Min(nnzs[row + 1] - nnzs[row], ELLPACK_COLS)
    requires FilledUpTo(ell, nnzs, csr, pad, nrow, row * ELLPACK_COLS + j)
    ensures row * ELLPACK_COLS + j < |ell|
    ensures FilledUpTo(ell[row * ELLPACK_COLS + j := csr[nnzs[row] + j]], nnzs, csr, pad, nrow, row * ELLPACK_COLS + j + 1)
  {
    EllpackCell(nnzs, csr, pad, nrow, row, j);
  }

  /** After the copied entries of a row, its remaining cells are padding already. */
  lemma FillRowDone<T>(ell: seq<T>, nnzs: seq<int>, csr: seq<T>, pad: T, nrow: nat, row: nat)
    requires CsrOffsets(nnzs, nrow, |csr|) && row < nrow
    requires FilledUpTo(ell, nnzs, csr, pad, nrow, row * ELLPACK_COLS + Min(nnzs[row + 1] - nnzs[row], ELLPACK_COLS))
    ensures FilledUpTo(ell, nnzs, csr, pad, nrow, (row + 1) * ELLPACK_COLS)
  {
    forall i | row * ELLPACK_COLS + Min(nnzs[row + 1] - nnzs[row], ELLPACK_COLS) <= i < (row + 1) * ELLPACK_COLS
      ensures Ellpack(nnzs, csr, pad, nrow)[i] == pad
    {
      EllpackCell(nnzs, csr, pad, nrow, row, i - row * ELLPACK_COLS);
    }
  }

  /** A layout filled up to its end is the ELLPACK array. */
  lemma FilledAll<T>(ell: seq<T>, nnzs: seq<int>, csr: seq<T>, pad: T, nrow: nat)
    requires CsrOffsets(nnzs, nrow, |csr|) && FilledUpTo(ell, nnzs, csr, pad, nrow, nrow * ELLPACK_COLS)
    ensures ell == Ellpack(nnzs, csr, pad, nrow)
  {
  }

  /**
    Step 2 of `generate_matrix`: both ELLPACK arrays of `nrow * 32` cells are
    first set to value 0 and the invalid index, then the first
    `min(rowlen, 32)` CSR entries of each row are copied into its cells.
  */
  method ConvertToEllpack(nnzs: array<int>, vals: array<real>, inds: array<int>, nrow: nat) returns (ellVals: array<real>, ellInds: array<int>)
    requires CsrOffsets(nnzs[..], nrow, vals.Length) && CsrOffsets(nnzs[..], nrow, inds.Length)
    ensures ellVals[..] == Ellpack(nnzs[..], vals[..], 0.0, nrow)
    ensures ellInds[..] == Ellpack(nnzs[..], inds[..], INVALID_INDEX, nrow)
  {
    var ellpackSize := nrow * ELLPACK_COLS;
    ellVals := new real[ellpackSize];
    ellInds := new int[ellpackSize];
    for i := 0 to ellpackSize
      invariant forall k :: 0 <= k < i ==> ellVals[k] == 0.0 && ellInds[k] == INVALID_INDEX
    {
      ellVals[i] := 0.0;
      ellInds[i] := INVALID_INDEX;
    }
    for row := 0 to nrow
      invariant FilledUpTo(ellVals[..], nnzs[..], vals[..], 0.0, nrow, row * ELLPACK_COLS)
      invariant FilledUpTo(ellInds[..], nnzs[..], inds[..], INVALID_INDEX, nrow, row * ELLPACK_COLS)
    {
      CopyRow(nnzs, vals, inds, nrow, row, ellVals, ellInds);
    }
    FilledAll(ellVals[..], nnzs[..], vals[..], 0.0, nrow);
    FilledAll(ellInds[..], nnzs[..], inds[..], INVALID_INDEX, nrow);
  }

  /** The copy of one row's first `min(rowlen, 32)` entries into its ELLPACK cells. */
  method CopyRow(nnzs: array<int>, vals: array<real>, inds: array<int>, nrow: nat, row: nat, ellVals: array<real>, ellInds: array<int>)
    requires CsrOffsets(nnzs[..], nrow, vals.Length) && CsrOffsets(nnzs[..], nrow, inds.Length) && row < nrow
    requires ellVals != vals && ellInds != inds && ellInds != nnzs
    requires FilledUpTo(ellVals[..], nnzs[..], vals[..], 0.0, nrow, row * ELLPACK_COLS)
    requires FilledUpTo(ellInds[..], nnzs[..], inds[..], INVALID_INDEX, nrow, row * ELLPACK_COLS)
    modifies ellVals, ellInds
    ensures FilledUpTo(ellVals[..], nnzs[..], vals[..], 0.0, nrow, (row + 1) * ELLPACK_COLS)
    ensures FilledUpTo(ellInds[..], nnzs[..], inds[..], INVALID_INDEX, nrow, (row + 1) * ELLPACK_COLS)
  {
    var nnzInRow := Min(nnzs[row + 1] - nnzs[row], ELLPACK_COLS);
    for j := 0 to nnzInRow
      invariant FilledUpTo(ellVals[..], nnzs[..], vals[..], 0.0, nrow, row * ELLPACK_COLS + j)
      invariant FilledUpTo(ellInds[..], nnzs[..], inds[..], INVALID_INDEX, nrow, row * ELLPACK_COLS + j)
    {
      CopyCell(nnzs, vals, inds, nrow, row, j, ellVals, ellInds);
    }
    FillRowDone(ellVals[..], nnzs[..], vals[..], 0.0, nrow, row);
    FillRowDone(ellInds[..], nnzs[..], inds[..], INVALID_INDEX, nrow, row);
  }

  /** The body of the copy loop: entry `j` of row `row` goes to ELLPACK cell `row * 32 + j`. */
  method CopyCell(nnzs: array<int>, vals: array<real>, inds: array<int>, nrow: nat, row: nat, j: nat, ellVals: array<real>, ellInds: array<int>)
    requires CsrOffsets(nnzs[..], nrow, vals.Length) && CsrOffsets(nnzs[..], nrow, inds.Length) && row < nrow
    requires j < Min(nnzs[row + 1] - nnzs[row], ELLPACK_COLS)
    requires ellVals != vals && ellInds != inds && ellInds != nnzs
    requires FilledUpTo(ellVals[..], nnzs[..], vals[..], 0.0, nrow, row * ELLPACK_COLS + j)
    requires FilledUpTo(ellInds[..], nnzs[..], inds[..], INVALID_INDEX, nrow, row * ELLPACK_COLS + j)
    modifies ellVals, ellInds
    ensures FilledUpTo(ellVals[..], nnzs[..], vals[..], 0.0, nrow, row * ELLPACK_COLS + j + 1)
    ensures FilledUpTo(ellInds[..], nnzs[..], inds[..], INVALID_INDEX, nrow, row * ELLPACK_COLS + j + 1)
  {
    var ellpackIdx := row * ELLPACK_COLS + j;
    var csrIdx := nnzs[row] + j;
    FillStep(ellVals[..], nnzs[..], vals[..], 0.0, nrow, row, j);
    FillStep(ellInds[..], nnzs[..], inds[..], INVALID_INDEX, nrow, row, j);
    ghost var before, beforeInds := ellVals[..], ellInds[..];
    ellVals[ellpackIdx] := vals[csrIdx];
    ellInds[ellpackIdx] := inds[csrIdx];
    assert ellVals[..] == before[ellpackIdx := vals[csrIdx]];
    assert ellInds[..] == beforeInds[ellpackIdx := inds[csrIdx]];
  }

  // ---------------------------------------------------------------------------
  // The whole generator

  /** The matrix record `generate_matrix` fills: the CSR arrays and the ELLPACK layout. */
  datatype SparseMatrix = SparseMatrix(
    nrow: nat, ncol: nat, nnz: nat,
    nnzs: array<int>, vals: array<real>, inds: array<int>,
    ellpackVals: array<real>, ellpackInds: array<int>, ellpackCols: nat, ellpackNnz: nat)

  /**
    `generate_matrix` on an `nx * ny * nz` grid: the 27-point stencil matrix
    in CSR form, `x = 0`, `xexact = 1`, `b = A * xexact`, and its ELLPACK
    layout of width 32. No generated row is wider than 27, so the
    truncation warning is never printed.
  */
  method GenerateMatrix(g: Grid) returns (a: SparseMatrix, x: array<real>, b: array<real>, xexact: array<real>, truncated: bool)
    requires ValidGrid(g)
    ensures a.nrow == NumRows(g) && a.ncol == NumRows(g) && a.nnz == 27 * NumRows(g)
    ensures a.nnzs.Length == a.nrow + 1 && a.vals.Length == a.nnz && a.inds.Length == a.nnz
    ensures x.Length == a.nrow && b.Length == a.nrow && xexact.Length == a.nrow
    ensures Built(g, a.nnzs[..], a.vals[..], a.inds[..], x[..], b[..], xexact[..], a.nrow)
    ensures !truncated
    ensures a.ellpackCols == ELLPACK_COLS && a.ellpackNnz == a.nrow * ELLPACK_COLS
    ensures CsrOffsets(a.nnzs[..], a.nrow, a.vals.Length) && CsrOffsets(a.nnzs[..], a.nrow, a.inds.Length)
    ensures a.ellpackVals[..] == Ellpack(a.nnzs[..], a.vals[..], 0.0, a.nrow)
    ensures a.ellpackInds[..] == Ellpack(a.nnzs[..], a.inds[..], INVALID_INDEX, a.nrow)
  {
    var nnzs, vals, inds;
    nnzs, vals, inds, x, b, xexact := GenerateCsr(g);
    var nrow := NumRows(g);
    BuiltIsCsr(g, nnzs[..], vals[..], inds[..], x[..], b[..], xexact[..]);
    var maxNnz;
    maxNnz, truncated := ScanMaxNnz(nnzs, nrow);
    MaxRowLenIsMax(nnzs[..], nrow);
    var ellVals, ellInds := ConvertToEllpack(nnzs, vals, inds, nrow);
    a := SparseMatrix(nrow, nrow, 27 * nrow, nnzs, vals, inds, ellVals, ellInds, ELLPACK_COLS, nrow * ELLPACK_COLS);
  }

  /** The 32 addresses the device reads for ELLPACK row `r`. */
  function DeviceRow(ellInds: seq<int>, r: nat): (row: seq<Addr>)
    requires (r + 1) * ELLPACK_COLS <= |ellInds|
    ensures |row| == ELLPACK_COLS
  {
    seq(ELLPACK_COLS, j requires 0 <= j < ELLPACK_COLS => DeviceCell(ellInds, r, j))
  }

  /** The device address of cell `j` of ELLPACK row `r`. */
  function DeviceCell(ellInds: seq<int>, r: nat, j: nat): Addr
    requires (r + 1) * ELLPACK_COLS <= |ellInds| && j < ELLPACK_COLS
  {
    DeviceAddr(ellInds[r * ELLPACK_COLS + j])
  }

  /**
    On the device, generated ELLPACK row `r` holds the columns of stencil
    row `r` in increasing order, left-aligned, with the first sentinel right
    after them and only sentinels behind it.
  */
  lemma GeneratedDeviceRow(g: Grid, nnzs: seq<int>, vals: seq<real>, inds: seq<int>, x: seq<real>, b: seq<real>, xexact: seq<real>,
                           ellInds: seq<int>, r: nat)
    requires ValidGrid(g) && NumRows(g) < 0x8000_0000 && Built(g, nnzs, vals, inds, x, b, xexact, NumRows(g)) && r < NumRows(g)
    requires CsrOffsets(nnzs, NumRows(g), |vals|) && CsrOffsets(nnzs, NumRows(g), |inds|)
    requires ellInds == Ellpack(nnzs, inds, INVALID_INDEX, NumRows(g))
    ensures (r + 1) * ELLPACK_COLS <= |ellInds|
    ensures FirstSentinel(DeviceRow(ellInds, r)) == |RowOf(g, r)|
    ensures forall j :: 0 <= j < |RowOf(g, r)| ==> DeviceRow(ellInds, r)[j] == RowOf(g, r)[j]
    ensures forall j, k :: 0 <= j < k < |RowOf(g, r)| ==> DeviceRow(ellInds, r)[j] < DeviceRow(ellInds, r)[k]
    ensures forall j :: |RowOf(g, r)| <= j < ELLPACK_COLS ==> DeviceRow(ellInds, r)[j] == SENTINEL
  {
    var n := NumRows(g);
    RowOfShape(g, r);
    var cols, row := RowOf(g, r), DeviceRow(ellInds, r);
    assert (r + 1) * ELLPACK_COLS <= n * ELLPACK_COLS;
    forall j | 0 <= j < ELLPACK_COLS
      ensures row[j] == if j < |cols| then cols[j] else SENTINEL
    {
      GeneratedCell(g, nnzs, vals, inds, x, b, xexact, Ellpack(nnzs, vals, 0.0, n), ellInds, r, j);
    }
    SentinelFromAt(row, 0, |cols|);
  }

  /** Cell `j` of generated ELLPACK row `r`: column and value `j` of the stencil row, or the padding. */
  lemma GeneratedCell(g: Grid, nnzs: seq<int>, vals: seq<real>, inds: seq<int>, x: seq<real>, b: seq<real>, xexact: seq<real>,
                      ellVals: seq<real>, ellInds: seq<int>, r: nat, j: nat)
    requires ValidGrid(g) && NumRows(g) < 0x8000_0000 && Built(g, nnzs, vals, inds, x, b, xexact, NumRows(g)) && r < NumRows(g)
    requires CsrOffsets(nnzs, NumRows(g), |vals|) && CsrOffsets(nnzs, NumRows(g), |inds|)
    requires ellVals == Ellpack(nnzs, vals, 0.0, NumRows(g)) && ellInds == Ellpack(nnzs, inds, INVALID_INDEX, NumRows(g))
    requires j < ELLPACK_COLS
    ensures (r + 1) * ELLPACK_COLS <= |ellInds| && r * ELLPACK_COLS + j < |ellVals|
    ensures DeviceCell(ellInds, r, j) == if j < |RowOf(g, r)| then RowOf(g, r)[j] else SENTINEL
    ensures ellVals[r * ELLPACK_COLS + j] == if j < |RowOf(g, r)| then RowValsOf(g, r)[j] else 0.0
  {
    var n := NumRows(g);
    BuiltRow(g, nnzs, vals, inds, x, b, xexact, r);
    RowOfShape(g, r);
    assert (r + 1) * ELLPACK_COLS <= n * ELLPACK_COLS;
    EllpackCell(nnzs, inds, INVALID_INDEX, n, r, j);
    EllpackCell(nnzs, vals, 0.0, n, r, j);
    var cols := RowOf(g, r);
    if j < |cols| {
      assert inds[nnzs[r] + j] == cols[j];
      assert vals[nnzs[r] + j] == RowValsOf(g, r)[j];
    }
  }
}
