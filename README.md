# GridView, modelled in Dafny

GridView is a UIKit view that shows a board of `row` x `colum` labelled cells. The cell labels are a two-dimensional array of strings. Every cell holds one selection bit in the `enables` matrix.

- A **tap** flips the bit of the cell under the finger.
- A **pan** is a drag stroke. `.began` records an anchor cell and its bit as the fill mode. Each `.changed` writes the negated fill mode to the run of cells between the anchor and the current cell, provided the current cell shares the anchor's row or column. `.ended`, `.cancelled` and `.failed` forget the anchor.
- The **draw pass** lays the cells out and caches one rectangle per cell in `rects`. This cache is what both handlers hit-test against, with a first-match scan (`findPosition`). Each cell is placed by its index times (item extent + padding), plus the margin. `.vertical` swaps the row and column axes.
- The **item size** is either set explicitly or shared out of the view's bounds (`getItemSize`). `intrinsicContentSize` reports the size the grid would like to have.
- The later version (`AyGridView`) also outlines "empty boxes". Each box is the merge of the cached rectangles of two corner cells (`findRect`, `mergeRects`, `drawBox`).

The model is split by concern:

- `Cells`: indices and rectangular grids.
- `Geometry`: points, sizes and rectangles over `real`, with CoreGraphics's `contains` and standardised edges.
- `GridLayout`: the layout, the loop that builds `rects`, the item size and the intrinsic size.
- `HitTest`: the first-match scan, as a method proved against a recursive specification function.
- `Selection`: tap flips, row and column fills (loops) and one `.changed` step.
- `Drag`: the pan handler as a state machine over `(enables, startPoint, fillMode)`, replayed over event sequences.
- `Touch`: taps on a drawn grid.
- `AyGridView` and `BasicGridView`: one class per source file. Each class's fields are the view's state. Its methods are the event handlers and the draw pass, each proved equal to the specification functions above.

The handlers return two flags:

- whether they asked for a redraw (`setNeedsDisplay`);
- the matrix they would hand to `didChangeCallback`, as `Some(enables)`, or `None` when they return before reaching it.

In the earlier file `GridView/Classes/GridView.swift`, `getItemSize` (lines 162-170), `findPosition` (lines 182-192) and `intrinsicContentSize` (lines 194-208) are the same code as the later file's. The shared members `GridLayout.ItemSizeAsWritten`, `HitTest.FindPosition` and `GridLayout.IntrinsicSizeAsWritten` model both. Both classes use the as-written size functions. The corrected `GridLayout.ItemSize` and `GridLayout.IntrinsicSize` belong to the findings below.

## Model

| member | source | states |
|---|---|---|
| `GridLayout.BuildRects` | AyGridView/Classes/GridView.swift:94-123 | The draw loops leave exactly `row` rows of `colum` rectangles. Rectangle (i, j) sits at slot x = j, y = i (swapped under `.vertical`), at slot times (item extent + padding) plus the margin, and has the item size. |
| `GridLayout.CellsDisjoint` | AyGridView/Classes/GridView.swift:101-106 | With a positive item size and non-negative padding, a point inside two cell rectangles means the two cells are the same, in either direction: the laid-out cells never overlap. |
| `GridLayout.LastCellEdges` | AyGridView/Classes/GridView.swift:101-106 | The far x and y edges of the last cell, plus the margin, equal margin*2 + (n-1)*padding + n*extent, for the numbers of cells laid across x and down y. |
| `GridLayout.LayoutExamples` | AyGridView/Classes/GridView.swift:101-106 | With 40 x 40 items and no margin or padding: cell (0,0) is at (0,0); cell (1,2) is at (80,40) horizontally and at (40,80) vertically. |
| `GridLayout.ShareSpan` | AyGridView/Classes/GridView.swift:238-239 | Sharing a length among n > 0 items the way `getItemSize` divides yields items whose span (margins, paddings and items) is exactly that length. |
| `GridLayout.ItemSizeAsWritten` | AyGridView/Classes/GridView.swift:234-242 | Returns the explicit item size if set, and zero when there are no columns or no rows. Otherwise, horizontally, columns span the width and rows the height. Vertically, the swapped result spans the bounds transposed. |
| `GridLayout.VerticalItemSizeOverflows` | AyGridView/Classes/GridView.swift:238-240 | As written, a 1 x 1 grid in a 100 x 200 view gets a 100 x 200 cell horizontally, but a 200 x 100 cell vertically, which the view's bounds do not enclose. |
| `GridLayout.ItemSize` | AyGridView/Classes/GridView.swift:234-242 | Returns the explicit size if set, zero for an empty grid, and otherwise the item whose spans along x and along y equal the bounds' width and height, in both directions. |
| `GridLayout.ItemSizeAgreesHorizontally` | AyGridView/Classes/GridView.swift:234-242 | With an explicit item size or under `.horizontal`, the corrected item size equals the source's. |
| `GridLayout.AutoLayoutFillsBounds` | AyGridView/Classes/GridView.swift:234-242 | With no explicit item size (and a non-negative share), the far corner of the last cell lies exactly one margin inside the far corner of the bounds. |
| `GridLayout.IntrinsicSizeAsWritten` | AyGridView/Classes/GridView.swift:284-298 | Without an item size, both extents are UIViewNoIntrinsicMetric (-1). With any item size, the width is margin*2 + (colum-1)*padding + colum*w and the height the same over `row` and h, with w and h being the item extents swapped under `.vertical`. An empty grid gives 2*margin - padding. For a non-empty grid with non-negative extents, horizontally the size is the drawn grid's extent plus the margin. Vertically it is that size transposed. |
| `GridLayout.VerticalIntrinsicSizeTransposed` | AyGridView/Classes/GridView.swift:289-295 | A vertical 1 x 2 grid of 40 x 40 items is drawn 40 wide and 80 high, but as written reports 80 x 40. |
| `GridLayout.IntrinsicSize` | AyGridView/Classes/GridView.swift:284-298 | Without an item size, both extents are -1. With any item size, the width and height are the spans of the cells laid across x and down y, with the item's own width and height. For a non-empty grid with non-negative extents, they are the far edges of the last drawn cell plus the margin, in both directions. |
| `GridLayout.IntrinsicOfAutoItemSize` | AyGridView/Classes/GridView.swift:284-298 | Fixing the automatically shared item size makes the intrinsic size exactly the current bounds. |
| `HitTest.HitInRowSome` | AyGridView/Classes/GridView.swift:257-261 | A hit found scanning a row from column j is a later column that contains the point, and no column before it from j on does. |
| `HitTest.HitInRowNone` | AyGridView/Classes/GridView.swift:257-261 | No hit in a row from column j means that no rectangle from j on contains the point. |
| `HitTest.HitFromSome` | AyGridView/Classes/GridView.swift:256-262 | A hit found scanning from row i is a cell containing the point, and no cell before it in row-major order from row i on contains it. |
| `HitTest.HitFromNone` | AyGridView/Classes/GridView.swift:256-263 | No hit from row i means that no rectangle in rows i and after contains the point. |
| `HitTest.FirstHitMeaning` | AyGridView/Classes/GridView.swift:254-264 | The scan's result is the first cell in row-major order containing the point, and it is `nil` exactly when no cell contains it (including an empty cache). |
| `HitTest.FindPosition` | AyGridView/Classes/GridView.swift:254-264 | The nested loops with early return compute the first hit. They return the first containing cell in row-major order, or `nil` exactly when no rectangle contains the point. |
| `HitTest.HitOnLayout` | AyGridView/Classes/GridView.swift:254-264 | On the rectangles of a draw pass (positive item size, non-negative padding), a point inside cell (i, j) is resolved to (i, j). |
| `Selection.Flip` | AyGridView/Classes/GridView.swift:175 | Flipping (i, j) negates that bit alone and keeps the matrix's shape. |
| `Selection.Tapped` | AyGridView/Classes/GridView.swift:170-175 | A miss, a row outside the matrix or a column past the first row's length leaves the matrix unchanged. Otherwise exactly the hit cell's bit is negated. |
| `Selection.TapTwice` | AyGridView/Classes/GridView.swift:168-178 | Two taps resolving to the same cell cancel out. |
| `Selection.FillRow` | AyGridView/Classes/GridView.swift:200-206 | The `minIndex ... maxIndex` loop sets exactly cells lo..hi of row i to the value and leaves every other cell alone. |
| `Selection.FillColumn` | AyGridView/Classes/GridView.swift:208-214 | The loop down column j sets exactly rows lo..hi of that column to the value and leaves every other cell alone. |
| `Selection.DraggedAt` | AyGridView/Classes/GridView.swift:200-214 | After one `.changed` step, a cell holds `!fillMode` exactly when it is on the anchor's row between the two columns, or on the anchor's column between the two rows, with the current cell on that line. Every other cell keeps its bit. |
| `Selection.DraggedSameCell` | AyGridView/Classes/GridView.swift:200-214 | When the current cell is the anchor, both loops run and the result is a single write of `!fillMode` to the anchor. |
| `Selection.DraggedOffAxes` | AyGridView/Classes/GridView.swift:200-214 | A current cell on neither the anchor's row nor its column changes nothing. |
| `Drag.Pan` | AyGridView/Classes/GridView.swift:181-232 | The handler keeps the matrix shape and the anchor inside the grid. It sets the anchor and the fill mode together or not at all. A redraw implies a callback. No callback means no change at all. Only `.changed` changes the matrix. |
| `Drag.PanMissIsNoop` | AyGridView/Classes/GridView.swift:183-186 | A point hitting no cell, or a cell outside the grid, does nothing and reaches no callback, in every state (not even `.ended` clears the anchor). |
| `Drag.PanBegan` | AyGridView/Classes/GridView.swift:189-192 | `.began` on a cell records it as anchor and its bit as fill mode, keeps the matrix, requests no redraw and reaches the callback. |
| `Drag.PanChanged` | AyGridView/Classes/GridView.swift:194-216 | `.changed` while dragging paints exactly the stroke with `!fillMode`, keeps the anchor, redraws and notifies. Without an anchor it returns before the callback. |
| `Drag.PanPossible` | AyGridView/Classes/GridView.swift:227-231 | Any other phase (`.possible`, the `default` branch) on a cell keeps the anchor, the fill mode and the matrix, requests no redraw, and still reaches the callback. |
| `Drag.PanFinished` | AyGridView/Classes/GridView.swift:218-225 | `.ended`, `.cancelled` and `.failed` clear the anchor and the fill mode, keep the matrix and reach the callback. |
| `Drag.ReplayAppend` | AyGridView/Classes/GridView.swift:181-232 | Feeding two event sequences one after the other is the same as feeding their concatenation. |
| `Drag.ChangedAlongRow` | AyGridView/Classes/GridView.swift:200-206 | While dragging, a series of `.changed` events along the anchor's row keeps the anchor. It leaves `!fillMode` in exactly the cells of that row that some step's run covered, and every other cell unchanged. |
| `Drag.ChangedAlongColumn` | AyGridView/Classes/GridView.swift:208-214 | The same along the anchor's column. |
| `Drag.RowStroke` | AyGridView/Classes/GridView.swift:181-232 | A whole stroke (`.began` on (r, c0), `.changed` along row r, `.ended`) leaves the drag idle. The covered cells of row r hold the negation of (r, c0)'s earlier bit, and all other cells are unchanged. |
| `Drag.ColumnStroke` | AyGridView/Classes/GridView.swift:181-232 | The same for a stroke down a column. |
| `Drag.StraightCover` | AyGridView/Classes/GridView.swift:201-203 | When no step goes beyond the last one, the steps cover exactly the run from the anchor to the last point. |
| `Touch.TapOnLayout` | AyGridView/Classes/GridView.swift:168-178 | On a drawn grid, a tap inside cell (i, j) flips exactly (i, j). |
| `Touch.TapOffLayout` | AyGridView/Classes/GridView.swift:168-178 | On a drawn grid, a tap outside every cell changes nothing. |
| `AyGridView.FindRect` | AyGridView/Classes/GridView.swift:267-271 | Returns the cached rectangle when the row is inside the cache and the column inside its first row. Any other position, negative ones included, gives the zero rectangle. |
| `AyGridView.FindRectOnLayout` | AyGridView/Classes/GridView.swift:267-271 | On a drawn cache, `findRect` returns the laid-out rectangle of an in-grid cell. It returns the zero rectangle for any other index, and for every index of an empty grid's cache. |
| `AyGridView.FindRectThenFindPosition` | AyGridView/Classes/GridView.swift:254-271 | `findRect` and `findPosition` are inverse on a drawn grid: the origin of the rectangle found for (i, j) hit-tests back to (i, j). |
| `AyGridView.MergeRects` | AyGridView/Classes/GridView.swift:274-282 | The merge spans from the smaller to the larger of the two rectangles' edges along both axes, has non-negative extents and encloses both. |
| `AyGridView.MergeRectsSmallest` | AyGridView/Classes/GridView.swift:274-282 | Any rectangle enclosing both inputs encloses their merge: the merge is the smallest enclosing one. |
| `AyGridView.MergeRectsSymmetric` | AyGridView/Classes/GridView.swift:274-282 | The merge does not depend on the order of its arguments. |
| `AyGridView.MergeRectsExample` | AyGridView/Classes/GridView.swift:274-282 | (0,0,40,40) merged with (40,40,40,40) is (0,0,80,80). |
| `AyGridView.BoxRects` | AyGridView/Classes/GridView.swift:136-143 | `drawBox` produces one outline per box, in order. Each outline is the merge of the box's two corner rectangles and encloses both. |
| `AyGridView.BoxOutlineOnLayout` | AyGridView/Classes/GridView.swift:136-140 | On a drawn cache, a box with both corners in the grid is outlined by the merge of the two corners' cell rectangles. |
| `AyGridView.BoxEnclosesBlock` | AyGridView/Classes/GridView.swift:136-140 | On a drawn grid (non-negative item size and padding), a box's outline encloses every cell of the block between its two corners, in either direction. |
| `AyGridView.GridView.constructor` | AyGridView/Classes/GridView.swift:151-157 | Let `texts` have a first row that is not empty. Then the grid is `texts.count` rows by that row's length, and it is 0 x 0 otherwise. Every bit starts false, there is no cache and no anchor, and the defaults hold (margin 0, padding 0.1, horizontal, no item size, no boxes). The bounds are the frame's size. |
| `AyGridView.GridView.GetItemSize` | AyGridView/Classes/GridView.swift:234-242 | The view's `getItemSize` as written. It returns the explicit item size if set, and zero when it has no rows or columns. Otherwise, horizontally, the columns span the bounds' width and the rows their height. Vertically, the spans are transposed. |
| `AyGridView.GridView.IntrinsicContentSize` | AyGridView/Classes/GridView.swift:284-298 | The view's `intrinsicContentSize` as written. Without an item size it is -1 x -1. With any item size it is margin*2 + (colum-1)*padding + colum*w wide and the same over `row` and h high, with w and h swapped under `.vertical`, so an empty grid gives 2*margin - padding. For a non-empty grid, horizontally it is the drawn grid's extent plus the margin, and vertically the transpose of that. |
| `AyGridView.GridView.DidTap` | AyGridView/Classes/GridView.swift:168-178 | The new matrix is the tap applied at the first hit of the cached rectangles, and only `enables` changes. It redraws exactly when that hit passed the bounds checks, and then hands the new matrix to the callback. |
| `AyGridView.GridView.DidPan` | AyGridView/Classes/GridView.swift:181-232 | The new matrix, anchor and fill mode, the redraw flag and the callback argument are exactly the drag state machine's step for the first hit. The object invariant is kept, with the ghost end point following the anchor. |
| `AyGridView.GridView.Draw` | AyGridView/Classes/GridView.swift:90-143 | The cache becomes the layout for `getItemSize()` as written and the current direction, margin and padding, and nothing else changes. It yields one outline per empty box, computed on the new cache. |
| `BasicGridView.GridView.constructor` | GridView/Classes/GridView.swift:82-88 | As the later version: a `texts.count` x first-row-length grid of false bits, or 0 x 0, with the same defaults. |
| `BasicGridView.GridView.GetItemSize` | GridView/Classes/GridView.swift:162-170 | `getItemSize` as written, with the same cases and spans as the later version. |
| `BasicGridView.GridView.IntrinsicContentSize` | GridView/Classes/GridView.swift:194-208 | `intrinsicContentSize` as written, with the same cases as the later version. |
| `BasicGridView.GridView.DidTap` | GridView/Classes/GridView.swift:97-107 | The tap at the first hit of the cache, with the same redraw and callback behaviour as the later version. |
| `BasicGridView.GridView.DidPan` | GridView/Classes/GridView.swift:109-160 | Exactly the drag state machine's step for the first hit, as in the later version. |
| `BasicGridView.GridView.Draw` | GridView/Classes/GridView.swift:50-75 | The cache becomes the layout for `getItemSize()` as written and the current direction, margin and padding, and nothing else changes. |

## Left out

- Rendering is not modelled: bezier paths, fill and stroke colours, dashed borders, the drawing of the labels, the text attributes, the stroking of the empty boxes and the `String.draw(in:attributes:)` extension. The draw pass is modelled only as the cache it rebuilds and the outline rectangles it would stroke.
- The style properties (colours, font, corner radius, dash pattern, border sizes) are not in the model. The layout properties `itemSize`, `direction`, `margin`, `padding`, `emptyBoxs` and the view's `bounds` are mutable fields of the classes. The side effects of every property's `didSet` (redraw and intrinsic-size invalidation) are left out.
- Gesture-recognizer setup (`setupGesture`) is left out. The recognizer's state and its `location(in:)` are parameters of the handlers.
- `init?(coder:)` and `layoutSubviews` are left out; they only defer to UIKit.
- `setNeedsDisplay` and the optional `didChangeCallback` are effects. Each handler returns them as a redraw flag and as the matrix it would pass to the callback.
- CGFloat arithmetic is modelled as exact `real` arithmetic, without rounding.
- CGRect's `contains`, `minX` and `maxX` follow CoreGraphics's documented behaviour. That behaviour: a rectangle is standardised, and a point on its maximum edge is outside. It is not part of this source.
- Swift `Int` values are unbounded in the model: cell indices are naturals, and empty-box corners are integers, which may be negative, as `findRect` guards. No index computation here can overflow.
- `endPoint` is never read by the source. It is a ghost field that the invariant ties to `startPoint`.
- AyGridView.FindRect: requires the cache to be rectangular, because the source indexes row `position.0` after checking the column only against the first row. The view's cache is always a grid.
- AyGridView.GridView.Draw: requires every label row to have at least `colum` entries, because the draw pass reads `texts[i][j]` for every cell and a shorter row would trap. The same holds for BasicGridView.GridView.Draw.
- `didChangeCallback` is described only as the change callback. The code also fires it after `.began`, `.ended`, `.cancelled`, `.failed` and `.possible` (the `default` branch) once the point has hit a cell of the grid. The model follows the code.

## Findings

| source | as written | input that shows it | evidently intended | confidence | as-written member | corrected member |
|---|---|---|---|---|---|---|
| AyGridView/Classes/GridView.swift:238-240 (same code in GridView/Classes/GridView.swift:166-168) | Under `.vertical`, the width shared among the columns and the height shared among the rows are swapped. Yet the draw pass lays the rows across x and the columns down y, with the item width along x. | One cell, 100 x 200 bounds, no margin or padding, `.vertical`: a 200 x 100 cell that sticks out of the view (`GridLayout.VerticalItemSizeOverflows`). | Share the width among the cells laid across x and the height among those laid down y, so the cells fill the bounds in both directions. | not executed | `GridLayout.ItemSizeAsWritten` | `GridLayout.ItemSize` |
| AyGridView/Classes/GridView.swift:289-295 (same code in GridView/Classes/GridView.swift:199-205) | Under `.vertical` the item extents are swapped, then the width is spanned by the columns and the height by the rows, which is the transpose of the drawn grid. | A 1 x 2 grid of 40 x 40 items, `.vertical`: drawn 40 x 80, reported 80 x 40 (`GridLayout.VerticalIntrinsicSizeTransposed`). | Report the drawn grid's extents, as the draw pass lays them out. | not executed | `GridLayout.IntrinsicSizeAsWritten` | `GridLayout.IntrinsicSize` |
