/** The selection matrix and the writes that tap and drag make to it. */
module Selection {
  import opened Wrappers
  import opened Cells

  /** `enables`: one selection bit per cell, row-major. */
  type Matrix = seq<seq<bool>>

  /** Invert the bit of cell (i, j) and no other. */
  function Flip(m: Matrix, i: nat, j: nat): (r: Matrix)
    requires i < |m| && j < |m[i]|
    ensures |r| == |m| && forall a :: 0 <= a < |m| ==> |r[a]| == |m[a]|
    ensures forall a, b :: 0 <= a < |m| && 0 <= b < |m[a]| ==>
      r[a][b] == (if a == i && b == j then !m[a][b] else m[a][b])
  {
    m[i := m[i][j := !m[i][j]]]
  }

  /** `didTap`'s guards: the hit test found a cell, its row is below
      `enables.count` and its column below `enables.first.count`. */
  predicate TapHits(m: Matrix, hit: Option<Pos>)
  {
    hit.Some? && hit.value.row < |m| && |m| > 0 && hit.value.col < |m[0]|
  }

  /** The matrix after a tap that resolved to `hit`. */
  function Tapped(m: Matrix, hit: Option<Pos>): (r: Matrix)
    requires Rectangular(m)
    ensures |r| == |m| && forall a :: 0 <= a < |m| ==> |r[a]| == |m[a]|
    ensures !TapHits(m, hit) ==> r == m
    ensures TapHits(m, hit) ==> forall a, b :: 0 <= a < |m| && 0 <= b < |m[a]| ==>
      r[a][b] == (if a == hit.value.row && b == hit.value.col then !m[a][b] else m[a][b])
  {
    if TapHits(m, hit) then Flip(m, hit.value.row, hit.value.col) else m
  }

  /** Two taps resolving to the same cell restore the matrix. */
  lemma TapTwice(m: Matrix, hit: Option<Pos>)
    requires Rectangular(m)
    ensures Tapped(Tapped(m, hit), hit) == m
  {
    var m1 := Tapped(m, hit);
    assert Rectangular(m1);
    var m2 := Tapped(m1, hit);
    assert TapHits(m1, hit) == TapHits(m, hit);
    assert forall a :: 0 <= a < |m| ==> m2[a] == m[a];
  }

  /** Row `i` with the inclusive column run `lo..hi` set to `v`. */
  function RowRun(m: Matrix, i: nat, lo: nat, hi: nat, v: bool): (r: Matrix)
    requires i < |m|
    ensures |r| == |m| && forall a :: 0 <= a < |m| ==> |r[a]| == |m[a]|
  {
    m[i := seq(|m[i]|, b requires 0 <= b < |m[i]| => if lo <= b <= hi then v else m[i][b])]
  }

  /** Column `j` with the inclusive row run `lo..hi` set to `v`. */
  function ColumnRun(m: Matrix, j: nat, lo: nat, hi: nat, v: bool): (r: Matrix)
    requires forall a :: 0 <= a < |m| ==> j < |m[a]|
    ensures |r| == |m| && forall a :: 0 <= a < |m| ==> |r[a]| == |m[a]|
  {
    seq(|m|, a requires 0 <= a < |m| => if lo <= a <= hi then m[a][j := v] else m[a])
  }

  /** The row loop of `.changed`: `for index in lo ... hi { enables[i][index] = v }`. */
  method FillRow(m: Matrix, i: nat, lo: nat, hi: nat, v: bool) returns (r: Matrix)
    requires i < |m| && lo <= hi < |m[i]|
    ensures r == RowRun(m, i, lo, hi, v)
  {
    r := m;
    for index := lo to hi + 1
      invariant |r| == |m| && |r[i]| == |m[i]|
      invariant forall a :: 0 <= a < |m| && a != i ==> r[a] == m[a]
      invariant forall b :: 0 <= b < |m[i]| ==> r[i][b] == if lo <= b < index then v else m[i][b]
    {
      r := r[i := r[i][index := v]];
    }
    assert r[i] == RowRun(m, i, lo, hi, v)[i];
  }

  /** The column loop of `.changed`: `for index in lo ... hi { enables[index][j] = v }`. */
  method FillColumn(m: Matrix, j: nat, lo: nat, hi: nat, v: bool) returns (r: Matrix)
    requires lo <= hi < |m| && forall a :: 0 <= a < |m| ==> j < |m[a]|
    ensures r == ColumnRun(m, j, lo, hi, v)
  {
    r := m;
    for index := lo to hi + 1
      invariant |r| == |m|
      invariant forall a :: 0 <= a < |m| ==> r[a] == if lo <= a < index then m[a][j := v] else m[a]
    {
      r := r[index := r[index][j := v]];
    }
  }

  /** Cell (a, b) lies on the stroke from the anchor `start` to `at`: on the
      shared row between the two columns, or on the shared column between
      the two rows (ends included). */
  predicate OnStroke(start: Pos, at: Pos, a: nat, b: nat)
  {
    (start.row == at.row && a == at.row && Between(b, start.col, at.col)) ||
    (start.col == at.col && b == at.col && Between(a, start.row, at.row))
  }

  /** The matrix after one `.changed` step at `at` of a drag anchored at
      `start` with fill mode `fill`: the row loop when `at` shares the
      anchor's row, then the column loop when it shares the anchor's column,
      each writing `!fill`. */
  function Dragged(m: Matrix, rows: nat, cols: nat, start: Pos, at: Pos, fill: bool): (r: Matrix)
    requires IsGrid(m, rows, cols) && InGrid(start, rows, cols) && InGrid(at, rows, cols)
    ensures IsGrid(r, rows, cols)
  {
    var afterRow := if start.row == at.row
      then RowRun(m, at.row, MinNat(start.col, at.col), MaxNat(start.col, at.col), !fill)
      else m;
    if start.col == at.col
    then ColumnRun(afterRow, at.col, MinNat(start.row, at.row), MaxNat(start.row, at.row), !fill)
    else afterRow
  }

  /** Exactly the cells on the stroke become `!fill`; every other cell keeps
      its bit. */
  lemma DraggedAt(m: Matrix, rows: nat, cols: nat, start: Pos, at: Pos, fill: bool)
    requires IsGrid(m, rows, cols) && InGrid(start, rows, cols) && InGrid(at, rows, cols)
    ensures forall a, b :: 0 <= a < rows && 0 <= b < cols ==>
      Dragged(m, rows, cols, start, at, fill)[a][b] == if OnStroke(start, at, a, b) then !fill else m[a][b]
  {
  }

  /** When the current cell is the anchor both loops run, and both write
      `!fill` to the anchor alone: the same as a single write. */
  lemma DraggedSameCell(m: Matrix, rows: nat, cols: nat, start: Pos, fill: bool)
    requires IsGrid(m, rows, cols) && InGrid(start, rows, cols)
    ensures Dragged(m, rows, cols, start, start, fill) == m[start.row := m[start.row][start.col := !fill]]
  {
    var r := Dragged(m, rows, cols, start, start, fill);
    var w := m[start.row := m[start.row][start.col := !fill]];
    DraggedAt(m, rows, cols, start, start, fill);
    assert forall a :: 0 <= a < rows ==> r[a] == w[a];
  }

  /** A drag point off both of the anchor's axes changes nothing. */
  lemma DraggedOffAxes(m: Matrix, rows: nat, cols: nat, start: Pos, at: Pos, fill: bool)
    requires IsGrid(m, rows, cols) && InGrid(start, rows, cols) && InGrid(at, rows, cols)
    requires start.row != at.row && start.col != at.col
    ensures Dragged(m, rows, cols, start, at, fill) == m
  {
  }
}
