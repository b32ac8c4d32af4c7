/** Touches on a drawn grid: how hit testing on the rectangles of a draw
    pass and the tap handler's bounds checks fit together. */
module Touch {
  import opened Wrappers
  import opened Cells
  import opened Geometry
  import opened GridLayout
  import opened HitTest
  import opened Selection

  /** On the rectangles a draw pass lays out (positive item size,
      non-negative padding), a tap on a point of cell (i, j) flips exactly
      that cell of a matrix of the grid's shape. */
  lemma TapOnLayout(m: Matrix, rows: nat, cols: nat, item: Size, dir: Direction, margin: real, padding: real,
                    i: nat, j: nat, p: Point)
    requires IsGrid(m, rows, cols) && i < rows && j < cols
    requires item.width > 0.0 && item.height > 0.0 && padding >= 0.0
    requires Contains(CellRect(i, j, item, dir, margin, padding), p)
    ensures Tapped(m, FirstHit(CellRects(rows, cols, item, dir, margin, padding), p)) == Flip(m, i, j)
  {
    HitOnLayout(rows, cols, item, dir, margin, padding, i, j, p);
    assert TapHits(m, Some(Pos(i, j)));
  }

  /** A tap on a point outside every cell changes nothing. */
  lemma TapOffLayout(m: Matrix, rows: nat, cols: nat, item: Size, dir: Direction, margin: real, padding: real, p: Point)
    requires IsGrid(m, rows, cols)
    requires forall i, j :: 0 <= i < rows && 0 <= j < cols ==> !Contains(CellRect(i, j, item, dir, margin, padding), p)
    ensures Tapped(m, FirstHit(CellRects(rows, cols, item, dir, margin, padding), p)) == m
  {
    var rects := CellRects(rows, cols, item, dir, margin, padding);
    FirstHitMeaning(rects, p);
    assert NoHit(rects, p);
  }
}
