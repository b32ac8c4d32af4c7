/** Cell layout of the draw pass and the two size computations,
    `getItemSize` and `intrinsicContentSize`. */
module GridLayout {
  import opened Wrappers
  import opened Cells
  import opened Geometry

  /** `.horizontal` puts rows down the view and columns across it;
      `.vertical` swaps the two axes. */
  datatype Direction = Horizontal | Vertical

  /** Rectangle of cell (i, j) in the draw loop: the index along an axis
      times (item extent + padding), plus the margin; the size is the item
      size, whatever the direction. */
  function CellRect(i: nat, j: nat, item: Size, dir: Direction, margin: real, padding: real): Rect
  {
    Rect(Point(SlotX(i, j, dir) as real * (item.width + padding) + margin,
               SlotY(i, j, dir) as real * (item.height + padding) + margin),
         item)
  }

  /** The source's `v` and `h`: the slot of cell (i, j) along x and along y. */
  function SlotX(i: nat, j: nat, dir: Direction): nat { if dir == Vertical then i else j }

  function SlotY(i: nat, j: nat, dir: Direction): nat { if dir == Vertical then j else i }

  /** The cached rectangles the draw pass leaves behind: `rows` rows of
      `cols` cell rectangles. */
  function CellRects(rows: nat, cols: nat, item: Size, dir: Direction, margin: real, padding: real): (rects: seq<seq<Rect>>)
    ensures IsGrid(rects, rows, cols)
  {
    seq(rows, i requires 0 <= i < rows =>
      seq(cols, j requires 0 <= j < cols => CellRect(i, j, item, dir, margin, padding)))
  }

  /** The rectangle-building loops of `draw`: `rects` is emptied and refilled
      row by row with one rectangle per cell. */
  method BuildRects(rows: nat, cols: nat, item: Size, dir: Direction, margin: real, padding: real)
    returns (rects: seq<seq<Rect>>)
    ensures IsGrid(rects, rows, cols)
    ensures forall i, j :: 0 <= i < rows && 0 <= j < cols ==>
      rects[i][j] == CellRect(i, j, item, dir, margin, padding)
  {
    rects := [];
    for i := 0 to rows
      invariant |rects| == i
      invariant forall a :: 0 <= a < i ==> |rects[a]| == cols
      invariant forall a, b :: 0 <= a < i && 0 <= b < cols ==>
        rects[a][b] == CellRect(a, b, item, dir, margin, padding)
    {
      var tempRects: seq<Rect> := [];
      for j := 0 to cols
        invariant |tempRects| == j
        invariant forall b :: 0 <= b < j ==> tempRects[b] == CellRect(i, b, item, dir, margin, padding)
      {
        var h, v := i, j;
        if dir == Vertical {
          h, v := v, h;
        }
        var x := v as real * (item.width + padding) + margin;
        var y := h as real * (item.height + padding) + margin;
        tempRects := tempRects + [Rect(Point(x, y), item)];
      }
      rects := rects + [tempRects];
    }
  }

  /** A later slot along an axis starts no earlier than an earlier slot ends. */
  lemma SlotOrder(v: nat, w: nat, step: real, extent: real, margin: real)
    requires v < w && 0.0 < extent <= step
    ensures v as real * step + margin + extent <= w as real * step + margin
  {
    var d := (w - v - 1) as real;
    assert d * step >= 0.0;
    assert w as real * step == v as real * step + step + d * step;
  }

  /** Along one axis, two cell slots of positive extent, `step` apart with
      `extent <= step` (non-negative padding), never share a coordinate. */
  lemma AxisSlotUnique(v: nat, w: nat, step: real, extent: real, margin: real, c: real)
    requires 0.0 < extent <= step
    requires v as real * step + margin <= c < v as real * step + margin + extent
    requires w as real * step + margin <= c < w as real * step + margin + extent
    ensures v == w
  {
    if v < w {
      SlotOrder(v, w, step, extent, margin);
    } else if w < v {
      SlotOrder(w, v, step, extent, margin);
    }
  }

  /** Two cells of positive width holding the same point share their slot
      along x (with non-negative padding). */
  lemma SameSlotX(i: nat, j: nat, i': nat, j': nat, item: Size, dir: Direction, margin: real, padding: real, p: Point)
    requires item.width > 0.0 && padding >= 0.0
    requires MinX(CellRect(i, j, item, dir, margin, padding)) <= p.x < MaxX(CellRect(i, j, item, dir, margin, padding))
    requires MinX(CellRect(i', j', item, dir, margin, padding)) <= p.x < MaxX(CellRect(i', j', item, dir, margin, padding))
    ensures SlotX(i, j, dir) == SlotX(i', j', dir)
  {
    AxisSlotUnique(SlotX(i, j, dir), SlotX(i', j', dir), item.width + padding, item.width, margin, p.x);
  }

  /** The same along y. */
  lemma SameSlotY(i: nat, j: nat, i': nat, j': nat, item: Size, dir: Direction, margin: real, padding: real, p: Point)
    requires item.height > 0.0 && padding >= 0.0
    requires MinY(CellRect(i, j, item, dir, margin, padding)) <= p.y < MaxY(CellRect(i, j, item, dir, margin, padding))
    requires MinY(CellRect(i', j', item, dir, margin, padding)) <= p.y < MaxY(CellRect(i', j', item, dir, margin, padding))
    ensures SlotY(i, j, dir) == SlotY(i', j', dir)
  {
    AxisSlotUnique(SlotY(i, j, dir), SlotY(i', j', dir), item.height + padding, item.height, margin, p.y);
  }

  /** With a positive item size and non-negative padding, no point lies in
      two different cells, in either direction. */
  lemma CellsDisjoint(i: nat, j: nat, i': nat, j': nat, item: Size, dir: Direction, margin: real, padding: real, p: Point)
    requires item.width > 0.0 && item.height > 0.0 && padding >= 0.0
    requires Contains(CellRect(i, j, item, dir, margin, padding), p)
    requires Contains(CellRect(i', j', item, dir, margin, padding), p)
    ensures i == i' && j == j'
  {
    SameSlotX(i, j, i', j', item, dir, margin, padding, p);
    SameSlotY(i, j, i', j', item, dir, margin, padding, p);
  }

  /** How many cells stand side by side along x, and along y. */
  function AcrossX(rows: nat, cols: nat, dir: Direction): nat { if dir == Vertical then rows else cols }

  function AcrossY(rows: nat, cols: nat, dir: Direction): nat { if dir == Vertical then cols else rows }

  /** Length taken by `n` items of the given extent, with the margin on both
      ends and the padding between neighbours. */
  function Span(n: nat, extent: real, margin: real, padding: real): real
  {
    margin * 2.0 + (n - 1) as real * padding + n as real * extent
  }

  /** Sharing a length evenly between `n` items spans exactly that length. */
  lemma ShareSpan(n: nat, length: real, margin: real, padding: real)
    requires n > 0
    ensures Span(n, (length - margin * 2.0 - (n - 1) as real * padding) / n as real, margin, padding) == length
  {
    var rest := length - margin * 2.0 - (n - 1) as real * padding;
    assert n as real * (rest / n as real) == rest;
  }

  /** The far edges of the last cell, plus the margin, are the spans of the
      layout along x and y. */
  lemma LastCellEdges(rows: nat, cols: nat, item: Size, dir: Direction, margin: real, padding: real)
    requires rows > 0 && cols > 0 && item.width >= 0.0 && item.height >= 0.0
    ensures var last := CellRect(rows - 1, cols - 1, item, dir, margin, padding);
      MaxX(last) + margin == Span(AcrossX(rows, cols, dir), item.width, margin, padding) &&
      MaxY(last) + margin == Span(AcrossY(rows, cols, dir), item.height, margin, padding)
  {
    var nx, ny := AcrossX(rows, cols, dir), AcrossY(rows, cols, dir);
    assert (nx - 1) as real * (item.width + padding) + item.width ==
      (nx - 1) as real * padding + nx as real * item.width;
    assert (ny - 1) as real * (item.height + padding) + item.height ==
      (ny - 1) as real * padding + ny as real * item.height;
  }

  /** `getItemSize` as the source writes it: the explicit item size if one is
      set; zero for an empty grid; otherwise the bounds shared evenly between
      the columns (width) and the rows (height), with the two results swapped
      under `.vertical`. Under `.vertical` the spans it achieves are
      transposed with respect to the bounds. */
  function ItemSizeAsWritten(itemSize: Option<Size>, bounds: Size, rows: nat, cols: nat,
                             margin: real, padding: real, dir: Direction): (r: Size)
    ensures itemSize.Some? ==> r == itemSize.value
    ensures itemSize.None? && (rows == 0 || cols == 0) ==> r == ZeroSize
    ensures itemSize.None? && rows > 0 && cols > 0 && dir == Horizontal ==>
      Span(cols, r.width, margin, padding) == bounds.width &&
      Span(rows, r.height, margin, padding) == bounds.height
    ensures itemSize.None? && rows > 0 && cols > 0 && dir == Vertical ==>
      Span(cols, r.height, margin, padding) == bounds.width &&
      Span(rows, r.width, margin, padding) == bounds.height
  {
    if itemSize.Some? then itemSize.value
    else if cols == 0 then ZeroSize
    else if rows == 0 then ZeroSize
    else
      var w := (bounds.width - margin * 2.0 - (cols - 1) as real * padding) / cols as real;
      var h := (bounds.height - margin * 2.0 - (rows - 1) as real * padding) / rows as real;
      ShareSpan(cols, bounds.width, margin, padding);
      ShareSpan(rows, bounds.height, margin, padding);
      if dir == Vertical then Size(h, w) else Size(w, h)
  }

  /** A one-cell grid in a 100 x 200 view: as written, `.vertical` gives the
      cell 200 x 100, which sticks out of the view, while `.horizontal` gives
      100 x 200. */
  lemma VerticalItemSizeOverflows()
    ensures ItemSizeAsWritten(None, Size(100.0, 200.0), 1, 1, 0.0, 0.0, Horizontal) == Size(100.0, 200.0)
    ensures ItemSizeAsWritten(None, Size(100.0, 200.0), 1, 1, 0.0, 0.0, Vertical) == Size(200.0, 100.0)
    ensures !Encloses(Rect(Point(0.0, 0.0), Size(100.0, 200.0)),
                      CellRect(0, 0, ItemSizeAsWritten(None, Size(100.0, 200.0), 1, 1, 0.0, 0.0, Vertical), Vertical, 0.0, 0.0))
  {
  }

  /** The corrected item size: as `getItemSize`, but under `.vertical` the
      width is shared between the rows laid across the view and the height
      between the columns laid down it, so that the cells fill the bounds in
      both directions. */
  function ItemSize(itemSize: Option<Size>, bounds: Size, rows: nat, cols: nat,
                    margin: real, padding: real, dir: Direction): (r: Size)
    ensures itemSize.Some? ==> r == itemSize.value
    ensures itemSize.None? && (rows == 0 || cols == 0) ==> r == ZeroSize
    ensures itemSize.None? && rows > 0 && cols > 0 ==>
      Span(AcrossX(rows, cols, dir), r.width, margin, padding) == bounds.width &&
      Span(AcrossY(rows, cols, dir), r.height, margin, padding) == bounds.height
  {
    if itemSize.Some? then itemSize.value
    else if cols == 0 then ZeroSize
    else if rows == 0 then ZeroSize
    else
      var nx, ny := AcrossX(rows, cols, dir), AcrossY(rows, cols, dir);
      ShareSpan(nx, bounds.width, margin, padding);
      ShareSpan(ny, bounds.height, margin, padding);
      Size((bounds.width - margin * 2.0 - (nx - 1) as real * padding) / nx as real,
           (bounds.height - margin * 2.0 - (ny - 1) as real * padding) / ny as real)
  }

  /** Under `.horizontal`, or with an explicit item size, the corrected item
      size is the one the source computes. */
  lemma ItemSizeAgreesHorizontally(itemSize: Option<Size>, bounds: Size, rows: nat, cols: nat,
                                   margin: real, padding: real, dir: Direction)
    requires itemSize.Some? || dir == Horizontal
    ensures ItemSize(itemSize, bounds, rows, cols, margin, padding, dir) ==
            ItemSizeAsWritten(itemSize, bounds, rows, cols, margin, padding, dir)
  {
  }

  /** With no explicit item size, the far corner of the last cell lies the
      margin away from the far corner of the bounds, in both directions. */
  lemma AutoLayoutFillsBounds(bounds: Size, rows: nat, cols: nat, margin: real, padding: real, dir: Direction)
    requires rows > 0 && cols > 0
    requires var item := ItemSize(None, bounds, rows, cols, margin, padding, dir);
      item.width >= 0.0 && item.height >= 0.0
    ensures var last := CellRect(rows - 1, cols - 1, ItemSize(None, bounds, rows, cols, margin, padding, dir),
                                 dir, margin, padding);
      MaxX(last) + margin == bounds.width && MaxY(last) + margin == bounds.height
  {
    LastCellEdges(rows, cols, ItemSize(None, bounds, rows, cols, margin, padding, dir), dir, margin, padding);
  }

  /** UIViewNoIntrinsicMetric, UIKit's "no preferred extent" value. */
  const NoIntrinsicMetric: real := -1.0

  /** `intrinsicContentSize` as the source writes it: with an explicit item
      size, the item extents are swapped under `.vertical` and the width is
      spanned by the columns, the height by the rows; otherwise no intrinsic
      metric. Under `.vertical` the reported size is the transpose of the
      drawn grid's. */
  function IntrinsicSizeAsWritten(itemSize: Option<Size>, rows: nat, cols: nat,
                                  margin: real, padding: real, dir: Direction): (r: Size)
    ensures itemSize.None? ==> r == Size(NoIntrinsicMetric, NoIntrinsicMetric)
    ensures itemSize.Some? ==>
      var item := itemSize.value;
      var sw, sh := if dir == Vertical then item.height else item.width, if dir == Vertical then item.width else item.height;
      r == Size(Span(cols, sw, margin, padding), Span(rows, sh, margin, padding))
    ensures itemSize.Some? && rows > 0 && cols > 0 && itemSize.value.width >= 0.0 && itemSize.value.height >= 0.0 ==>
      var last := CellRect(rows - 1, cols - 1, itemSize.value, dir, margin, padding);
      if dir == Horizontal then r.width == MaxX(last) + margin && r.height == MaxY(last) + margin
      else r.width == MaxY(last) + margin && r.height == MaxX(last) + margin
  {
    if itemSize.Some? then
      var w, h := if dir == Vertical then itemSize.value.height else itemSize.value.width,
                  if dir == Vertical then itemSize.value.width else itemSize.value.height;
      var maxW := margin * 2.0 + (cols - 1) as real * padding + cols as real * w;
      var maxH := margin * 2.0 + (rows - 1) as real * padding + rows as real * h;
      assert rows > 0 && cols > 0 && w >= 0.0 && h >= 0.0 ==> (LastCellEdges(rows, cols, itemSize.value, dir, margin, padding); true);
      Size(maxW, maxH)
    else Size(NoIntrinsicMetric, NoIntrinsicMetric)
  }

  /** A 1 x 2 grid of 40 x 40 items under `.vertical` is drawn 40 wide and
      80 high, but as written reports 80 x 40. */
  lemma VerticalIntrinsicSizeTransposed()
    ensures MaxX(CellRect(0, 1, Size(40.0, 40.0), Vertical, 0.0, 0.0)) == 40.0
    ensures MaxY(CellRect(0, 1, Size(40.0, 40.0), Vertical, 0.0, 0.0)) == 80.0
    ensures IntrinsicSizeAsWritten(Some(Size(40.0, 40.0)), 1, 2, 0.0, 0.0, Vertical) == Size(80.0, 40.0)
  {
  }

  /** The preferred size: with an explicit item size, the spans of the drawn
      grid along x and y (the margin beyond the far corner of the last cell);
      otherwise no intrinsic metric. */
  function IntrinsicSize(itemSize: Option<Size>, rows: nat, cols: nat,
                         margin: real, padding: real, dir: Direction): (r: Size)
    ensures itemSize.None? ==> r == Size(NoIntrinsicMetric, NoIntrinsicMetric)
    ensures itemSize.Some? ==>
      r == Size(Span(AcrossX(rows, cols, dir), itemSize.value.width, margin, padding),
                Span(AcrossY(rows, cols, dir), itemSize.value.height, margin, padding))
    ensures itemSize.Some? && rows > 0 && cols > 0 && itemSize.value.width >= 0.0 && itemSize.value.height >= 0.0 ==>
      var last := CellRect(rows - 1, cols - 1, itemSize.value, dir, margin, padding);
      r.width == MaxX(last) + margin && r.height == MaxY(last) + margin
  {
    if itemSize.Some? then
      var item := itemSize.value;
      assert rows > 0 && cols > 0 && item.width >= 0.0 && item.height >= 0.0 ==> (LastCellEdges(rows, cols, item, dir, margin, padding); true);
      Size(Span(AcrossX(rows, cols, dir), item.width, margin, padding),
           Span(AcrossY(rows, cols, dir), item.height, margin, padding))
    else Size(NoIntrinsicMetric, NoIntrinsicMetric)
  }

  /** Setting the automatically derived item size explicitly makes the view
      prefer exactly its current bounds. */
  lemma IntrinsicOfAutoItemSize(bounds: Size, rows: nat, cols: nat, margin: real, padding: real, dir: Direction)
    requires rows > 0 && cols > 0
    ensures IntrinsicSize(Some(ItemSize(None, bounds, rows, cols, margin, padding, dir)), rows, cols, margin, padding, dir) == bounds
  {
  }

  /** Cell origins for 40 x 40 items without margin or padding. */
  lemma LayoutExamples()
    ensures CellRect(0, 0, Size(40.0, 40.0), Horizontal, 0.0, 0.0).origin == Point(0.0, 0.0)
    ensures CellRect(1, 2, Size(40.0, 40.0), Horizontal, 0.0, 0.0).origin == Point(80.0, 40.0)
    ensures CellRect(1, 2, Size(40.0, 40.0), Vertical, 0.0, 0.0).origin == Point(40.0, 80.0)
  {
  }
}
