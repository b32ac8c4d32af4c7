/** `findPosition`: the linear scan that maps a touch point to the cell
    whose cached rectangle contains it. */
module HitTest {
  import opened Wrappers
  import opened Cells
  import opened Geometry
  import opened GridLayout

  /** The first column at or after `j` whose rectangle contains `p`. */
  function HitInRow(cells: seq<Rect>, p: Point, j: nat): Option<nat>
    decreases |cells| - j
  {
    if j >= |cells| then None
    else if Contains(cells[j], p) then Some(j)
    else HitInRow(cells, p, j + 1)
  }

  /** The first cell, from row `i` on in row-major order, containing `p`. */
  function HitFrom(rects: seq<seq<Rect>>, p: Point, i: nat): Option<Pos>
    decreases |rects| - i
  {
    if i >= |rects| then None
    else match HitInRow(rects[i], p, 0)
      case Some(j) => Some(Pos(i, j))
      case None => HitFrom(rects, p, i + 1)
  }

  /** What the hit test answers for `p`: nothing for an empty rectangle
      cache, else the first cell in row-major order that contains `p`. */
  function FirstHit(rects: seq<seq<Rect>>, p: Point): Option<Pos>
  {
    if |rects| == 0 then None else HitFrom(rects, p, 0)
  }

  /** Cell (a, b) precedes `q` in row-major order. */
  predicate Precedes(a: int, b: int, q: Pos)
  {
    a < q.row || (a == q.row && b < q.col)
  }

  /** `q` is a cell of `rects` containing `p`, and no earlier cell does. */
  predicate IsFirstHit(rects: seq<seq<Rect>>, p: Point, q: Pos)
  {
    q.row < |rects| && q.col < |rects[q.row]| && Contains(rects[q.row][q.col], p) &&
    forall a, b :: 0 <= a < |rects| && 0 <= b < |rects[a]| && Precedes(a, b, q) ==> !Contains(rects[a][b], p)
  }

  /** No cell of `rects` contains `p`. */
  predicate NoHit(rects: seq<seq<Rect>>, p: Point)
  {
    forall a, b :: 0 <= a < |rects| && 0 <= b < |rects[a]| ==> !Contains(rects[a][b], p)
  }

  lemma {:induction false} HitInRowSome(cells: seq<Rect>, p: Point, j: nat, k: nat)
    requires HitInRow(cells, p, j) == Some(k)
    ensures j <= k < |cells| && Contains(cells[k], p)
    ensures forall b :: j <= b < k ==> !Contains(cells[b], p)
    decreases |cells| - j
  {
    if j < |cells| && !Contains(cells[j], p) {
      HitInRowSome(cells, p, j + 1, k);
    }
  }

  lemma {:induction false} HitInRowNone(cells: seq<Rect>, p: Point, j: nat)
    requires HitInRow(cells, p, j) == None
    ensures forall b :: j <= b < |cells| ==> !Contains(cells[b], p)
    decreases |cells| - j
  {
    if j < |cells| {
      HitInRowNone(cells, p, j + 1);
    }
  }

  lemma {:induction false} HitFromSome(rects: seq<seq<Rect>>, p: Point, i: nat, q: Pos)
    requires HitFrom(rects, p, i) == Some(q)
    ensures i <= q.row < |rects| && q.col < |rects[q.row]| && Contains(rects[q.row][q.col], p)
    ensures forall a, b :: i <= a < |rects| && 0 <= b < |rects[a]| && Precedes(a, b, q) ==> !Contains(rects[a][b], p)
    decreases |rects| - i
  {
    match HitInRow(rects[i], p, 0)
    case Some(j) =>
      HitInRowSome(rects[i], p, 0, j);
    case None =>
      HitInRowNone(rects[i], p, 0);
      HitFromSome(rects, p, i + 1, q);
  }

  lemma {:induction false} HitFromNone(rects: seq<seq<Rect>>, p: Point, i: nat)
    requires HitFrom(rects, p, i) == None
    ensures forall a, b :: i <= a < |rects| && 0 <= b < |rects[a]| ==> !Contains(rects[a][b], p)
    decreases |rects| - i
  {
    if i < |rects| {
      match HitInRow(rects[i], p, 0)
      case Some(j) =>
      case None =>
        HitInRowNone(rects[i], p, 0);
        HitFromNone(rects, p, i + 1);
    }
  }

  /** A hit is a cell containing the point with no earlier cell containing it;
      there is no hit exactly when no cell contains the point. */
  lemma FirstHitMeaning(rects: seq<seq<Rect>>, p: Point)
    ensures FirstHit(rects, p).Some? ==> IsFirstHit(rects, p, FirstHit(rects, p).value)
    ensures FirstHit(rects, p).None? <==> NoHit(rects, p)
  {
    if |rects| > 0 {
      match HitFrom(rects, p, 0)
      case Some(q) =>
        HitFromSome(rects, p, 0, q);
      case None =>
        HitFromNone(rects, p, 0);
    }
  }

  /** `findPosition(by:from:)`: scan the rows, and each row's rectangles in
      turn, and answer the first (i, j) whose rectangle contains `p`. */
  method FindPosition(p: Point, rects: seq<seq<Rect>>) returns (position: Option<Pos>)
    ensures position == FirstHit(rects, p)
    ensures position.Some? ==> IsFirstHit(rects, p, position.value)
    ensures position.None? <==> NoHit(rects, p)
  {
    FirstHitMeaning(rects, p);
    if |rects| == 0 {
      return None;
    }
    for i := 0 to |rects|
      invariant HitFrom(rects, p, i) == FirstHit(rects, p)
    {
      for j := 0 to |rects[i]|
        invariant HitInRow(rects[i], p, j) == HitInRow(rects[i], p, 0)
      {
        if Contains(rects[i][j], p) {
          return Some(Pos(i, j));
        }
      }
    }
    return None;
  }

  /** On a drawn layout with positive item size and non-negative padding,
      a point inside cell (i, j)'s rectangle is resolved to (i, j). */
  lemma HitOnLayout(rows: nat, cols: nat, item: Size, dir: Direction, margin: real, padding: real,
                    i: nat, j: nat, p: Point)
    requires i < rows && j < cols
    requires item.width > 0.0 && item.height > 0.0 && padding >= 0.0
    requires Contains(CellRect(i, j, item, dir, margin, padding), p)
    ensures FirstHit(CellRects(rows, cols, item, dir, margin, padding), p) == Some(Pos(i, j))
  {
    var rects := CellRects(rows, cols, item, dir, margin, padding);
    FirstHitMeaning(rects, p);
    assert !NoHit(rects, p) by {
      assert Contains(rects[i][j], p);
    }
    var q := FirstHit(rects, p).value;
    CellsDisjoint(q.row, q.col, i, j, item, dir, margin, padding, p);
  }
}
