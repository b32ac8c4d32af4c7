/** Cell indices and rectangular grids of per-cell values (labels,
    selection bits, cached rectangles). */
module Cells {

  /** A (row, column) index into the grid, as the source's `(row:, col:)` tuple. */
  datatype Pos = Pos(row: nat, col: nat)

  /** `g` has exactly `rows` rows of `cols` entries each. */
  predicate IsGrid<T>(g: seq<seq<T>>, rows: nat, cols: nat)
  {
    |g| == rows && forall a :: 0 <= a < |g| ==> |g[a]| == cols
  }

  /** Every row of `g` is as long as the first one. */
  predicate Rectangular<T>(g: seq<seq<T>>)
  {
    forall a :: 0 <= a < |g| ==> |g[a]| == |g[0]|
  }

  predicate InGrid(q: Pos, rows: nat, cols: nat)
  {
    q.row < rows && q.col < cols
  }

  function MinNat(a: nat, b: nat): nat { if a <= b then a else b }

  function MaxNat(a: nat, b: nat): nat { if a <= b then b else a }

  /** `x` lies in the inclusive run from `a` to `b`, in either order
      (the source's `min(a, b) ... max(a, b)`). */
  predicate Between(x: nat, a: nat, b: nat)
  {
    MinNat(a, b) <= x <= MaxNat(a, b)
  }
}
