/** The earlier grid view: the same board of selectable cells, taps and
    drag strokes, without empty boxes. */
module BasicGridView {
  import opened Wrappers
  import opened Cells
  import opened Geometry
  import opened GridLayout
  import opened HitTest
  import opened Selection
  import opened Drag

  /** The view. `rects` is the cache the last draw pass left (empty before
      the first one); `startPoint`, `endPoint` and `fillMode` are the drag
      bookkeeping; `bounds` is the size the view currently has. This
      version has no empty boxes. */
  class GridView {
    const texts: seq<seq<string>>
    const row: nat
    const colum: nat
    var rects: seq<seq<Rect>>
    var enables: Matrix
    var startPoint: Option<Pos>
    ghost var endPoint: Option<Pos>
    var fillMode: Option<bool>
    var itemSize: Option<Size>
    var direction: Direction
    var margin: real
    var padding: real
    var bounds: Size

    /** The selection matrix has the grid's shape; a grid has no rows
        exactly when it has no columns; the anchor and the fill mode are set
        together, the anchor is a cell, and the end point follows the anchor;
        the cached rectangles are empty or have the grid's shape. */
    ghost predicate Valid()
      reads this
    {
      IsGrid(enables, row, colum) && (row == 0 <==> colum == 0) &&
      (startPoint.Some? <==> fillMode.Some?) &&
      (startPoint.Some? ==> InGrid(startPoint.value, row, colum)) &&
      endPoint == startPoint &&
      (row > 0 ==> row == |texts| && colum == |texts[0]|) &&
      (rects == [] || IsGrid(rects, row, colum))
    }

    /** The drag state machine's view of this object. */
    function DragView(): DragState
      reads this
    {
      DragState(enables, startPoint, fillMode)
    }

    /** `getItemSize`: the explicit item size if set, zero for an empty
        grid, otherwise the bounds shared between the columns (width) and
        the rows (height), swapped under `.vertical`. */
    function GetItemSize(): (r: Size)
      reads this
      ensures itemSize.Some? ==> r == itemSize.value
      ensures itemSize.None? && (row == 0 || colum == 0) ==> r == ZeroSize
      ensures itemSize.None? && row > 0 && colum > 0 && direction == Horizontal ==>
        Span(colum, r.width, margin, padding) == bounds.width &&
        Span(row, r.height, margin, padding) == bounds.height
      ensures itemSize.None? && row > 0 && colum > 0 && direction == Vertical ==>
        Span(colum, r.height, margin, padding) == bounds.width &&
        Span(row, r.width, margin, padding) == bounds.height
    {
      ItemSizeAsWritten(itemSize, bounds, row, colum, margin, padding, direction)
    }

    /** `intrinsicContentSize`: without an explicit item size, no intrinsic
        metric; with one, the margins, paddings and items of the columns
        across and of the rows down, the item extents swapped under
        `.vertical`. */
    function IntrinsicContentSize(): (r: Size)
      reads this
      ensures itemSize.None? ==> r == Size(NoIntrinsicMetric, NoIntrinsicMetric)
      ensures itemSize.Some? ==>
        var item := itemSize.value;
        var sw, sh := if direction == Vertical then item.height else item.width,
                      if direction == Vertical then item.width else item.height;
        r == Size(Span(colum, sw, margin, padding), Span(row, sh, margin, padding))
      ensures itemSize.Some? && row > 0 && colum > 0 && itemSize.value.width >= 0.0 && itemSize.value.height >= 0.0 ==>
        var last := CellRect(row - 1, colum - 1, itemSize.value, direction, margin, padding);
        if direction == Horizontal then r.width == MaxX(last) + margin && r.height == MaxY(last) + margin
        else r.width == MaxY(last) + margin && r.height == MaxX(last) + margin
    {
      IntrinsicSizeAsWritten(itemSize, row, colum, margin, padding, direction)
    }

    /** `init(frame:texts:)` with `setupParams`: the grid has as many rows as
        `texts` and as many columns as its first row, unless either is zero,
        and every cell starts unselected. */
    constructor(frame: Rect, texts: seq<seq<string>>)
      ensures Valid()
      ensures this.texts == texts
      ensures |texts| > 0 && |texts[0]| > 0 ==> row == |texts| && colum == |texts[0]|
      ensures !(|texts| > 0 && |texts[0]| > 0) ==> row == 0 && colum == 0
      ensures forall a, b :: 0 <= a < row && 0 <= b < colum ==> !enables[a][b]
      ensures rects == [] && startPoint == None && fillMode == None && endPoint == None
      ensures itemSize == None && direction == Horizontal && margin == 0.0 && padding == 0.1
      ensures bounds == Size(MaxX(frame) - MinX(frame), MaxY(frame) - MinY(frame))
    {
      this.texts := texts;
      var rows, cols := 0, 0;
      if |texts| > 0 && |texts[0]| > 0 {
        rows, cols := |texts|, |texts[0]|;
      }
      row, colum := rows, cols;
      enables := seq(rows, _ => seq(cols, _ => false));
      rects, startPoint, endPoint, fillMode := [], None, None, None;
      itemSize, direction, margin, padding := None, Horizontal, 0.0, 0.1;
      bounds := Size(MaxX(frame) - MinX(frame), MaxY(frame) - MinY(frame));
    }

    /** `didTap`: the point is resolved against the cached rectangles; a hit
        inside the grid flips that cell, asks for a redraw and hands the new
        matrix to the callback; anything else changes nothing. */
    method DidTap(p: Point) returns (redraw: bool, notified: Option<Matrix>)
      requires Valid()
      modifies this`enables
      ensures Valid()
      ensures enables == Tapped(old(enables), FirstHit(rects, p))
      ensures redraw <==> TapHits(old(enables), FirstHit(rects, p))
      ensures notified == if redraw then Some(enables) else None
    {
      var position := FindPosition(p, rects);
      if position.None? {
        return false, None;
      }
      var i, j := position.value.row, position.value.col;
      if i >= |enables| {
        return false, None;
      }
      if j >= |enables[0]| {
        return false, None;
      }
      enables := enables[i := enables[i][j := !enables[i][j]]];
      redraw, notified := true, Some(enables);
    }

    /** `didPan`: one call of the pan handler, exactly the step of the drag
        state machine for the cell the point hits. */
    method DidPan(g: Gesture, p: Point) returns (redraw: bool, notified: Option<Matrix>)
      requires Valid()
      modifies this`enables, this`startPoint, this`fillMode, this`endPoint
      ensures Valid()
      ensures var step := Pan(old(DragView()), row, colum, g, FirstHit(rects, p));
        DragView() == step.next && redraw == step.redraw &&
        notified == if step.notify then Some(enables) else None
    {
      var position := FindPosition(p, rects);
      if position.None? {
        return false, None;
      }
      var i, j := position.value.row, position.value.col;
      if !(i < row && j < colum) {
        return false, None;
      }
      match g {
        case Began =>
          fillMode := Some(enables[i][j]);
          startPoint := Some(Pos(i, j));
          endPoint := Some(Pos(i, j));
          redraw := false;
        case Changed =>
          if startPoint.None? || fillMode.None? {
            return false, None;
          }
          var start, fill := startPoint.value, fillMode.value;
          if start.row == i {
            enables := FillRow(enables, i, MinNat(start.col, j), MaxNat(start.col, j), !fill);
          }
          if start.col == j {
            enables := FillColumn(enables, j, MinNat(start.row, i), MaxNat(start.row, i), !fill);
          }
          redraw := true;
        case Ended =>
          fillMode, startPoint, endPoint := None, None, None;
          redraw := false;
        case Cancelled =>
          fillMode, startPoint, endPoint := None, None, None;
          redraw := false;
        case Failed =>
          fillMode, startPoint, endPoint := None, None, None;
          redraw := false;
        case Possible =>
          redraw := false;
      }
      notified := Some(enables);
    }

    /** `draw`: the cache is rebuilt with one rectangle per cell from the
        current item size, direction, margin and padding. Every label the
        pass draws must exist. */
    method Draw()
      requires Valid()
      requires forall i :: 0 <= i < row ==> colum <= |texts[i]|
      modifies this`rects
      ensures Valid()
      ensures rects == CellRects(row, colum, GetItemSize(), direction, margin, padding)
    {
      var item := GetItemSize();
      rects := BuildRects(row, colum, item, direction, margin, padding);
      assert forall i :: 0 <= i < row ==> rects[i] == CellRects(row, colum, item, direction, margin, padding)[i];
    }
  }
}
