/** The full grid view: a rows x columns board of selectable cells laid out
    by direction, margin and padding, toggled by taps and drag strokes, with
    outlined "empty boxes" that span two cells. */
module AyGridView {
  import opened Wrappers
  import opened Cells
  import opened Geometry
  import opened GridLayout
  import opened HitTest
  import opened Selection
  import opened Drag

  /** An outlined box from the cell at `start` to the cell at `end`, both
      given as (row, column) indices that need not lie in the grid. */
  datatype EmptyBox = EmptyBox(start: (int, int), end: (int, int))

  /** The cached rectangle of the cell at `position`, or the zero rectangle
      when the row is outside `rects` or the column is outside its first row. */
  function FindRect(position: (int, int), rects: seq<seq<Rect>>): (r: Rect)
    requires Rectangular(rects)
    ensures 0 <= position.0 < |rects| && 0 <= position.1 < |rects[0]| ==>
      r == rects[position.0][position.1]
    ensures !(0 <= position.0 < |rects| && 0 <= position.1 < |rects[0]|) ==> r == ZeroRect
  {
    if !(0 <= position.0 < |rects|) then ZeroRect
    else if !(0 <= position.1 < |rects[0]|) then ZeroRect
    else rects[position.0][position.1]
  }

  /** The smallest upright rectangle holding both rectangles. */
  function MergeRects(r1: Rect, r2: Rect): (r: Rect)
    ensures r.size.width >= 0.0 && r.size.height >= 0.0
    ensures MinX(r) == Min(MinX(r1), MinX(r2)) && MaxX(r) == Max(MaxX(r1), MaxX(r2))
    ensures MinY(r) == Min(MinY(r1), MinY(r2)) && MaxY(r) == Max(MaxY(r1), MaxY(r2))
    ensures Encloses(r, r1) && Encloses(r, r2)
  {
    var maxX := if MaxX(r1) > MaxX(r2) then MaxX(r1) else MaxX(r2);
    var maxY := if MaxY(r1) > MaxY(r2) then MaxY(r1) else MaxY(r2);
    var minX := if MinX(r1) > MinX(r2) then MinX(r2) else MinX(r1);
    var minY := if MinY(r1) > MinY(r2) then MinY(r2) else MinY(r1);
    assert MinX(r1) <= MaxX(r1) && MinY(r1) <= MaxY(r1);
    Rect(Point(minX, minY), Size(maxX - minX, maxY - minY))
  }

  /** Any rectangle that holds both holds their merge. */
  lemma MergeRectsSmallest(r1: Rect, r2: Rect, outer: Rect)
    requires Encloses(outer, r1) && Encloses(outer, r2)
    ensures Encloses(outer, MergeRects(r1, r2))
  {
  }

  /** The order of the two rectangles does not matter. */
  lemma MergeRectsSymmetric(r1: Rect, r2: Rect)
    ensures MergeRects(r1, r2) == MergeRects(r2, r1)
  {
  }

  /** Two adjacent 40 x 40 cells on a diagonal merge into one 80 x 80 box. */
  lemma MergeRectsExample()
    ensures MergeRects(Rect(Point(0.0, 0.0), Size(40.0, 40.0)), Rect(Point(40.0, 40.0), Size(40.0, 40.0)))
      == Rect(Point(0.0, 0.0), Size(80.0, 80.0))
  {
  }

  /** The rectangle a box is outlined with: the merge of its two corners'
      cells. */
  function BoxOutline(box: EmptyBox, rects: seq<seq<Rect>>): Rect
    requires Rectangular(rects)
  {
    MergeRects(FindRect(box.start, rects), FindRect(box.end, rects))
  }

  /** `drawBox`: one outline per box, in order. */
  method BoxRects(boxes: seq<EmptyBox>, rects: seq<seq<Rect>>) returns (outlines: seq<Rect>)
    requires Rectangular(rects)
    ensures |outlines| == |boxes|
    ensures forall k :: 0 <= k < |boxes| ==> outlines[k] == BoxOutline(boxes[k], rects)
    ensures forall k :: 0 <= k < |boxes| ==>
      Encloses(outlines[k], FindRect(boxes[k].start, rects)) && Encloses(outlines[k], FindRect(boxes[k].end, rects))
  {
    outlines := [];
    for k := 0 to |boxes|
      invariant |outlines| == k
      invariant forall t :: 0 <= t < k ==> outlines[t] == BoxOutline(boxes[t], rects)
    {
      var r1 := FindRect(boxes[k].start, rects);
      var r2 := FindRect(boxes[k].end, rects);
      outlines := outlines + [MergeRects(r1, r2)];
    }
  }

  /** On the rectangles of a draw pass, FindRect reads back the layout of a
      cell of the grid and the zero rectangle for any other index. */
  lemma FindRectOnLayout(position: (int, int), rows: nat, cols: nat, item: Size, dir: Direction,
                         margin: real, padding: real)
    ensures var rect := FindRect(position, CellRects(rows, cols, item, dir, margin, padding));
      if 0 <= position.0 < rows && 0 <= position.1 < cols
      then rect == CellRect(position.0, position.1, item, dir, margin, padding)
      else rect == ZeroRect
  {
  }

  /** FindRect and hit testing are inverse on a laid-out grid: the origin of
      the rectangle FindRect gives for a cell hits that very cell. */
  lemma FindRectThenFindPosition(i: nat, j: nat, rows: nat, cols: nat, item: Size, dir: Direction,
                                 margin: real, padding: real)
    requires i < rows && j < cols
    requires item.width > 0.0 && item.height > 0.0 && padding >= 0.0
    ensures var rects := CellRects(rows, cols, item, dir, margin, padding);
      FirstHit(rects, FindRect((i, j), rects).origin) == Some(Pos(i, j))
  {
    var rects := CellRects(rows, cols, item, dir, margin, padding);
    var cell := CellRect(i, j, item, dir, margin, padding);
    assert FindRect((i, j), rects) == cell;
    HitOnLayout(rows, cols, item, dir, margin, padding, i, j, cell.origin);
  }

  /** Scaling by a non-negative step keeps the order of slot indices. */
  lemma ScaleOrder(v: nat, w: nat, step: real)
    requires v <= w && step >= 0.0
    ensures v as real * step <= w as real * step
  {
    var d := (w - v) as real;
    assert d * step >= 0.0;
    assert w as real * step == v as real * step + d * step;
  }

  /** Along one axis, a slot between two others lies within their span. */
  lemma AxisWithin(v: nat, lo: nat, hi: nat, step: real, extent: real, margin: real)
    requires Between(v, lo, hi) && step >= 0.0
    ensures Min(lo as real * step + margin, hi as real * step + margin) <= v as real * step + margin
    ensures v as real * step + margin + extent <= Max(lo as real * step + margin + extent, hi as real * step + margin + extent)
  {
    ScaleOrder(MinNat(lo, hi), v, step);
    ScaleOrder(v, MaxNat(lo, hi), step);
  }

  /** Where a cell's rectangle starts and ends along x: its slot times the
      step, plus the margin, and that plus the item width. */
  lemma CellEdgesX(i: nat, j: nat, item: Size, dir: Direction, margin: real, padding: real)
    requires item.width >= 0.0
    ensures var c := CellRect(i, j, item, dir, margin, padding);
      MinX(c) == SlotX(i, j, dir) as real * (item.width + padding) + margin &&
      MaxX(c) == SlotX(i, j, dir) as real * (item.width + padding) + margin + item.width
  {
  }

  /** The same along y. */
  lemma CellEdgesY(i: nat, j: nat, item: Size, dir: Direction, margin: real, padding: real)
    requires item.height >= 0.0
    ensures var c := CellRect(i, j, item, dir, margin, padding);
      MinY(c) == SlotY(i, j, dir) as real * (item.height + padding) + margin &&
      MaxY(c) == SlotY(i, j, dir) as real * (item.height + padding) + margin + item.height
  {
  }

  /** Edges `lo`/`hi` of a cell at slot `v` lie within those of the cells
      at slots `v1` and `v2` when `v` lies between them. */
  lemma EdgesWithin(lo: real, hi: real, lo1: real, hi1: real, lo2: real, hi2: real,
                    v: nat, v1: nat, v2: nat, step: real, extent: real, margin: real)
    requires step >= 0.0 && Between(v, v1, v2)
    requires lo == v as real * step + margin && hi == lo + extent
    requires lo1 == v1 as real * step + margin && hi1 == lo1 + extent
    requires lo2 == v2 as real * step + margin && hi2 == lo2 + extent
    ensures Min(lo1, lo2) <= lo && hi <= Max(hi1, hi2)
  {
    AxisWithin(v, v1, v2, step, extent, margin);
  }

  /** On a laid-out grid, a box with both corners in the grid is outlined
      by the merge of its corner cells. */
  lemma BoxOutlineOnLayout(box: EmptyBox, rows: nat, cols: nat, item: Size, dir: Direction,
                           margin: real, padding: real)
    requires 0 <= box.start.0 < rows && 0 <= box.start.1 < cols
    requires 0 <= box.end.0 < rows && 0 <= box.end.1 < cols
    ensures BoxOutline(box, CellRects(rows, cols, item, dir, margin, padding)) ==
      MergeRects(CellRect(box.start.0, box.start.1, item, dir, margin, padding),
                 CellRect(box.end.0, box.end.1, item, dir, margin, padding))
  {
  }

  /** Along x, a cell whose slot lies between two cells' slots lies within
      their span. */
  lemma WithinX(a: nat, b: nat, i1: nat, j1: nat, i2: nat, j2: nat, item: Size, dir: Direction,
                margin: real, padding: real)
    requires item.width >= 0.0 && padding >= 0.0
    requires Between(SlotX(a, b, dir), SlotX(i1, j1, dir), SlotX(i2, j2, dir))
    ensures var c1, c2 := CellRect(i1, j1, item, dir, margin, padding), CellRect(i2, j2, item, dir, margin, padding);
      var c := CellRect(a, b, item, dir, margin, padding);
      Min(MinX(c1), MinX(c2)) <= MinX(c) && MaxX(c) <= Max(MaxX(c1), MaxX(c2))
  {
    var c, c1, c2 := CellRect(a, b, item, dir, margin, padding),
      CellRect(i1, j1, item, dir, margin, padding), CellRect(i2, j2, item, dir, margin, padding);
    CellEdgesX(a, b, item, dir, margin, padding);
    CellEdgesX(i1, j1, item, dir, margin, padding);
    CellEdgesX(i2, j2, item, dir, margin, padding);
    EdgesWithin(MinX(c), MaxX(c), MinX(c1), MaxX(c1), MinX(c2), MaxX(c2),
                SlotX(a, b, dir), SlotX(i1, j1, dir), SlotX(i2, j2, dir), item.width + padding, item.width, margin);
  }

  /** The same along y. */
  lemma WithinY(a: nat, b: nat, i1: nat, j1: nat, i2: nat, j2: nat, item: Size, dir: Direction,
                margin: real, padding: real)
    requires item.height >= 0.0 && padding >= 0.0
    requires Between(SlotY(a, b, dir), SlotY(i1, j1, dir), SlotY(i2, j2, dir))
    ensures var c1, c2 := CellRect(i1, j1, item, dir, margin, padding), CellRect(i2, j2, item, dir, margin, padding);
      var c := CellRect(a, b, item, dir, margin, padding);
      Min(MinY(c1), MinY(c2)) <= MinY(c) && MaxY(c) <= Max(MaxY(c1), MaxY(c2))
  {
    var c, c1, c2 := CellRect(a, b, item, dir, margin, padding),
      CellRect(i1, j1, item, dir, margin, padding), CellRect(i2, j2, item, dir, margin, padding);
    CellEdgesY(a, b, item, dir, margin, padding);
    CellEdgesY(i1, j1, item, dir, margin, padding);
    CellEdgesY(i2, j2, item, dir, margin, padding);
    EdgesWithin(MinY(c), MaxY(c), MinY(c1), MaxY(c1), MinY(c2), MaxY(c2),
                SlotY(a, b, dir), SlotY(i1, j1, dir), SlotY(i2, j2, dir), item.height + padding, item.height, margin);
  }

  /** The outline of a box whose corners are cells of a laid-out grid (item
      size and padding non-negative) surrounds every cell of the block the
      two corners span. */
  lemma BoxEnclosesBlock(box: EmptyBox, rows: nat, cols: nat, item: Size, dir: Direction,
                         margin: real, padding: real, a: nat, b: nat)
    requires item.width >= 0.0 && item.height >= 0.0 && padding >= 0.0
    requires 0 <= box.start.0 < rows && 0 <= box.start.1 < cols
    requires 0 <= box.end.0 < rows && 0 <= box.end.1 < cols
    requires Between(a, box.start.0, box.end.0) && Between(b, box.start.1, box.end.1)
    ensures Encloses(BoxOutline(box, CellRects(rows, cols, item, dir, margin, padding)),
                     CellRect(a, b, item, dir, margin, padding))
  {
    var i1, j1, i2, j2 := box.start.0, box.start.1, box.end.0, box.end.1;
    var c, c1, c2 := CellRect(a, b, item, dir, margin, padding),
      CellRect(i1, j1, item, dir, margin, padding), CellRect(i2, j2, item, dir, margin, padding);
    BoxOutlineOnLayout(box, rows, cols, item, dir, margin, padding);
    WithinX(a, b, i1, j1, i2, j2, item, dir, margin, padding);
    WithinY(a, b, i1, j1, i2, j2, item, dir, margin, padding);
  }

  /** The view. `rects` is the cache the last draw pass left (empty before
      the first one); `startPoint`, `endPoint` and `fillMode` are the drag
      bookkeeping; `bounds` is the size the view currently has. */
  class GridView {
    const texts: seq<seq<string>>
    const row: nat
    const colum: nat
    var rects: seq<seq<Rect>>
    var enables: Matrix
    var startPoint: Option<Pos>
    ghost var endPoint: Option<Pos>
    var fillMode: Option<bool>
    var itemSize: Option<Size>
    var direction: Direction
    var margin: real
    var padding: real
    var bounds: Size
    var emptyBoxs: seq<EmptyBox>

    /** The selection matrix has the grid's shape; a grid has no rows
        exactly when it has no columns; the anchor and the fill mode are set
        together, the anchor is a cell, and the end point follows the anchor;
        the cached rectangles are empty or have the grid's shape. */
    ghost predicate Valid()
      reads this
    {
      IsGrid(enables, row, colum) && (row == 0 <==> colum == 0) &&
      (startPoint.Some? <==> fillMode.Some?) &&
      (startPoint.Some? ==> InGrid(startPoint.value, row, colum)) &&
      endPoint == startPoint &&
      (row > 0 ==> row == |texts| && colum == |texts[0]|) &&
      (rects == [] || IsGrid(rects, row, colum))
    }

    /** The drag state machine's view of this object. */
    function DragView(): DragState
      reads this
    {
      DragState(enables, startPoint, fillMode)
    }

    /** `getItemSize`: the explicit item size if set, zero for an empty
        grid, otherwise the bounds shared between the columns (width) and
        the rows (height), swapped under `.vertical`. */
    function GetItemSize(): (r: Size)
      reads this
      ensures itemSize.Some? ==> r == itemSize.value
      ensures itemSize.None? && (row == 0 || colum == 0) ==> r == ZeroSize
      ensures itemSize.None? && row > 0 && colum > 0 && direction == Horizontal ==>
        Span(colum, r.width, margin, padding) == bounds.width &&
        Span(row, r.height, margin, padding) == bounds.height
      ensures itemSize.None? && row > 0 && colum > 0 && direction == Vertical ==>
        Span(colum, r.height, margin, padding) == bounds.width &&
        Span(row, r.width, margin, padding) == bounds.height
    {
      ItemSizeAsWritten(itemSize, bounds, row, colum, margin, padding, direction)
    }

    /** `intrinsicContentSize`: without an explicit item size, no intrinsic
        metric; with one, the margins, paddings and items of the columns
        across and of the rows down, the item extents swapped under
        `.vertical`. */
    function IntrinsicContentSize(): (r: Size)
      reads this
      ensures itemSize.None? ==> r == Size(NoIntrinsicMetric, NoIntrinsicMetric)
      ensures itemSize.Some? ==>
        var item := itemSize.value;
        var sw, sh := if direction == Vertical then item.height else item.width,
                      if direction == Vertical then item.width else item.height;
        r == Size(Span(colum, sw, margin, padding), Span(row, sh, margin, padding))
      ensures itemSize.Some? && row > 0 && colum > 0 && itemSize.value.width >= 0.0 && itemSize.value.height >= 0.0 ==>
        var last := CellRect(row - 1, colum - 1, itemSize.value, direction, margin, padding);
        if direction == Horizontal then r.width == MaxX(last) + margin && r.height == MaxY(last) + margin
        else r.width == MaxY(last) + margin && r.height == MaxX(last) + margin
    {
      IntrinsicSizeAsWritten(itemSize, row, colum, margin, padding, direction)
    }

    /** `init(frame:texts:)` with `setupParams`: the grid has as many rows as
        `texts` and as many columns as its first row, unless either is zero,
        and every cell starts unselected. */
    constructor(frame: Rect, texts: seq<seq<string>>)
      ensures Valid()
      ensures this.texts == texts
      ensures |texts| > 0 && |texts[0]| > 0 ==> row == |texts| && colum == |texts[0]|
      ensures !(|texts| > 0 && |texts[0]| > 0) ==> row == 0 && colum == 0
      ensures forall a, b :: 0 <= a < row && 0 <= b < colum ==> !enables[a][b]
      ensures rects == [] && startPoint == None && fillMode == None && endPoint == None
      ensures itemSize == None && direction == Horizontal && margin == 0.0 && padding == 0.1
      ensures emptyBoxs == [] && bounds == Size(MaxX(frame) - MinX(frame), MaxY(frame) - MinY(frame))
    {
      this.texts := texts;
      var rows, cols := 0, 0;
      if |texts| > 0 && |texts[0]| > 0 {
        rows, cols := |texts|, |texts[0]|;
      }
      row, colum := rows, cols;
      enables := seq(rows, _ => seq(cols, _ => false));
      rects, startPoint, endPoint, fillMode := [], None, None, None;
      itemSize, direction, margin, padding := None, Horizontal, 0.0, 0.1;
      bounds := Size(MaxX(frame) - MinX(frame), MaxY(frame) - MinY(frame));
      emptyBoxs := [];
    }

    /** `didTap`: the point is resolved against the cached rectangles; a hit
        inside the grid flips that cell, asks for a redraw and hands the new
        matrix to the callback; anything else changes nothing. */
    method DidTap(p: Point) returns (redraw: bool, notified: Option<Matrix>)
      requires Valid()
      modifies this`enables
      ensures Valid()
      ensures enables == Tapped(old(enables), FirstHit(rects, p))
      ensures redraw <==> TapHits(old(enables), FirstHit(rects, p))
      ensures notified == if redraw then Some(enables) else None
    {
      var position := FindPosition(p, rects);
      if position.None? {
        return false, None;
      }
      var i, j := position.value.row, position.value.col;
      if i >= |enables| {
        return false, None;
      }
      if j >= |enables[0]| {
        return false, None;
      }
      enables := enables[i := enables[i][j := !enables[i][j]]];
      redraw, notified := true, Some(enables);
    }

    /** `didPan`: one call of the pan handler, exactly the step of the drag
        state machine for the cell the point hits. */
    method DidPan(g: Gesture, p: Point) returns (redraw: bool, notified: Option<Matrix>)
      requires Valid()
      modifies this`enables, this`startPoint, this`fillMode, this`endPoint
      ensures Valid()
      ensures var step := Pan(old(DragView()), row, colum, g, FirstHit(rects, p));
        DragView() == step.next && redraw == step.redraw &&
        notified == if step.notify then Some(enables) else None
    {
      var position := FindPosition(p, rects);
      if position.None? {
        return false, None;
      }
      var i, j := position.value.row, position.value.col;
      if !(i < row && j < colum) {
        return false, None;
      }
      match g {
        case Began =>
          fillMode := Some(enables[i][j]);
          startPoint := Some(Pos(i, j));
          endPoint := Some(Pos(i, j));
          redraw := false;
        case Changed =>
          if startPoint.None? || fillMode.None? {
            return false, None;
          }
          var start, fill := startPoint.value, fillMode.value;
          if start.row == i {
            enables := FillRow(enables, i, MinNat(start.col, j), MaxNat(start.col, j), !fill);
          }
          if start.col == j {
            enables := FillColumn(enables, j, MinNat(start.row, i), MaxNat(start.row, i), !fill);
          }
          redraw := true;
        case Ended =>
          fillMode, startPoint, endPoint := None, None, None;
          redraw := false;
        case Cancelled =>
          fillMode, startPoint, endPoint := None, None, None;
          redraw := false;
        case Failed =>
          fillMode, startPoint, endPoint := None, None, None;
          redraw := false;
        case Possible =>
          redraw := false;
      }
      notified := Some(enables);
    }

    /** `draw`: the cache is rebuilt with one rectangle per cell from the
        current item size, direction, margin and padding, then one outline
        per empty box is produced from the new cache. Every label the pass
        draws must exist. */
    method Draw() returns (outlines: seq<Rect>)
      requires Valid()
      requires forall i :: 0 <= i < row ==> colum <= |texts[i]|
      modifies this`rects
      ensures Valid()
      ensures rects == CellRects(row, colum, GetItemSize(), direction, margin, padding)
      ensures |outlines| == |emptyBoxs|
      ensures forall k :: 0 <= k < |emptyBoxs| ==> outlines[k] == BoxOutline(emptyBoxs[k], rects)
    {
      var item := GetItemSize();
      rects := BuildRects(row, colum, item, direction, margin, padding);
      assert forall i :: 0 <= i < row ==> rects[i] == CellRects(row, colum, item, direction, margin, padding)[i];
      outlines := BoxRects(emptyBoxs, rects);
    }
  }
}
