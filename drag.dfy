/** `didPan`: the drag-fill state machine, idle (no anchor) or dragging
    (anchor and fill mode recorded). */
module Drag {
  import opened Wrappers
  import opened Cells
  import opened Selection

  /** The state of the pan gesture recognizer when it calls the handler. */
  datatype Gesture = Possible | Began | Changed | Ended | Cancelled | Failed

  /** The drag bookkeeping of the view: the selection matrix, the anchor
      cell `startPoint` and the `fillMode` read from the anchor. */
  datatype DragState = DragState(enables: Matrix, startPoint: Option<Pos>, fillMode: Option<bool>)

  /** One handler call: the new state, whether it asked for a redraw and
      whether it would hand `enables` to the change callback. */
  datatype Step = Step(next: DragState, redraw: bool, notify: bool)

  /** The matrix is `rows` x `cols` and a recorded anchor is a cell. */
  predicate ValidDrag(s: DragState, rows: nat, cols: nat)
  {
    IsGrid(s.enables, rows, cols) && (s.startPoint.Some? ==> InGrid(s.startPoint.value, rows, cols))
  }

  predicate Dragging(s: DragState)
  {
    s.startPoint.Some? && s.fillMode.Some?
  }

  /** One call of the pan handler whose touch point resolved to `hit`. A
      point in no cell, or in a cell outside the grid, returns at once;
      `.changed` without an anchor returns at once too. Otherwise `.began`
      records the anchor and its bit as fill mode, `.changed` paints the
      stroke from the anchor with `!fillMode`, `.ended`/`.cancelled`/`.failed`
      forget the anchor, and every one of these reaches the callback. */
  function Pan(s: DragState, rows: nat, cols: nat, g: Gesture, hit: Option<Pos>): (r: Step)
    requires ValidDrag(s, rows, cols)
    ensures ValidDrag(r.next, rows, cols)
    ensures r.redraw ==> r.notify
    ensures !r.notify ==> r.next == s && !r.redraw
    ensures r.next.enables != s.enables ==> g == Changed && r.redraw
    ensures (s.startPoint.Some? <==> s.fillMode.Some?) ==> (r.next.startPoint.Some? <==> r.next.fillMode.Some?)
  {
    if hit.None? || !InGrid(hit.value, rows, cols) then Step(s, false, false)
    else
      var at := hit.value;
      match g
      case Began =>
        Step(DragState(s.enables, Some(at), Some(s.enables[at.row][at.col])), false, true)
      case Changed =>
        if s.startPoint.None? || s.fillMode.None? then Step(s, false, false)
        else
          var next := Dragged(s.enables, rows, cols, s.startPoint.value, at, s.fillMode.value);
          Step(DragState(next, s.startPoint, s.fillMode), true, true)
      case Ended | Cancelled | Failed =>
        Step(DragState(s.enables, None, None), false, true)
      case Possible =>
        Step(s, false, true)
  }

  /** A touch point outside every cell changes nothing and reaches no
      callback, whatever the phase: not even `.ended` forgets the anchor. */
  lemma PanMissIsNoop(s: DragState, rows: nat, cols: nat, g: Gesture, hit: Option<Pos>)
    requires ValidDrag(s, rows, cols)
    requires hit.None? || !InGrid(hit.value, rows, cols)
    ensures Pan(s, rows, cols, g, hit) == Step(s, false, false)
  {
  }

  /** `.began` on a cell records it as anchor and its current bit as fill
      mode, and changes no cell. */
  lemma PanBegan(s: DragState, rows: nat, cols: nat, at: Pos)
    requires ValidDrag(s, rows, cols) && InGrid(at, rows, cols)
    ensures var r := Pan(s, rows, cols, Began, Some(at));
      r.next == DragState(s.enables, Some(at), Some(s.enables[at.row][at.col])) && r.notify && !r.redraw
  {
  }

  /** `.changed` on a cell while dragging sets exactly the cells of the
      stroke from the anchor to `!fillMode`, keeps the anchor, redraws and
      notifies; without an anchor it does nothing. */
  lemma PanChanged(s: DragState, rows: nat, cols: nat, at: Pos)
    requires ValidDrag(s, rows, cols) && InGrid(at, rows, cols)
    ensures var r := Pan(s, rows, cols, Changed, Some(at));
      if Dragging(s) then
        r.next.startPoint == s.startPoint && r.next.fillMode == s.fillMode && r.redraw && r.notify &&
        forall a, b :: 0 <= a < rows && 0 <= b < cols ==>
          r.next.enables[a][b] == if OnStroke(s.startPoint.value, at, a, b) then !s.fillMode.value else s.enables[a][b]
      else r == Step(s, false, false)
  {
    if Dragging(s) {
      DraggedAt(s.enables, rows, cols, s.startPoint.value, at, s.fillMode.value);
    }
  }

  /** `.ended`, `.cancelled` and `.failed` on a cell forget the anchor and
      the fill mode and keep the matrix as the last `.changed` left it. */
  lemma PanFinished(s: DragState, rows: nat, cols: nat, g: Gesture, at: Pos)
    requires ValidDrag(s, rows, cols) && InGrid(at, rows, cols)
    requires g == Ended || g == Cancelled || g == Failed
    ensures var r := Pan(s, rows, cols, g, Some(at));
      r.next == DragState(s.enables, None, None) && r.notify && !r.redraw
  {
  }

  /** Any other phase (`.possible`) on a cell keeps the anchor, the fill
      mode and the matrix, requests no redraw and still reaches the callback. */
  lemma PanPossible(s: DragState, rows: nat, cols: nat, at: Pos)
    requires ValidDrag(s, rows, cols) && InGrid(at, rows, cols)
    ensures Pan(s, rows, cols, Possible, Some(at)) == Step(s, false, true)
  {
  }

  /** One pan handler call per event, each with its resolved touch point. */
  datatype Event = Event(gesture: Gesture, hit: Option<Pos>)

  /** The state after the handler has seen `events` in order. */
  function Replay(s: DragState, rows: nat, cols: nat, events: seq<Event>): (r: DragState)
    requires ValidDrag(s, rows, cols)
    ensures ValidDrag(r, rows, cols)
    decreases |events|
  {
    if events == [] then s
    else Replay(Pan(s, rows, cols, events[0].gesture, events[0].hit).next, rows, cols, events[1..])
  }

  lemma {:induction false} ReplayAppend(s: DragState, rows: nat, cols: nat, e1: seq<Event>, e2: seq<Event>)
    requires ValidDrag(s, rows, cols)
    ensures Replay(s, rows, cols, e1 + e2) == Replay(Replay(s, rows, cols, e1), rows, cols, e2)
    decreases |e1|
  {
    if e1 == [] {
      assert e1 + e2 == e2;
    } else {
      assert (e1 + e2)[1..] == e1[1..] + e2;
      ReplayAppend(Pan(s, rows, cols, e1[0].gesture, e1[0].hit).next, rows, cols, e1[1..], e2);
    }
  }

  /** `.changed` events at the cells (r, cs[0]), (r, cs[1]), ... */
  function RowPath(r: nat, cs: seq<nat>): seq<Event>
  {
    seq(|cs|, t requires 0 <= t < |cs| => Event(Changed, Some(Pos(r, cs[t]))))
  }

  /** `.changed` events at the cells (rs[0], c), (rs[1], c), ... */
  function ColumnPath(c: nat, rs: seq<nat>): seq<Event>
  {
    seq(|rs|, t requires 0 <= t < |rs| => Event(Changed, Some(Pos(rs[t], c))))
  }

  /** Some step of a drag from `origin` through `path` covered `x`: `x` lies
      between `origin` and one of the points of `path`. */
  predicate CoveredBy(origin: nat, path: seq<nat>, x: nat)
    decreases |path|
  {
    |path| > 0 && (Between(x, origin, path[0]) || CoveredBy(origin, path[1..], x))
  }

  /** While dragging, `.changed` steps along the anchor's row leave `!fillMode`
      in every cell of that row some step covered, and the rest unchanged. */
  lemma {:induction false} ChangedAlongRow(s: DragState, rows: nat, cols: nat, path: seq<nat>)
    requires ValidDrag(s, rows, cols) && Dragging(s)
    requires forall t :: 0 <= t < |path| ==> path[t] < cols
    ensures var anchor, fill := s.startPoint.value, s.fillMode.value;
      var e := Replay(s, rows, cols, RowPath(anchor.row, path));
      e.startPoint == s.startPoint && e.fillMode == s.fillMode &&
      forall a, b {:trigger e.enables[a][b]} :: 0 <= a < rows && 0 <= b < cols ==>
        e.enables[a][b] == if a == anchor.row && CoveredBy(anchor.col, path, b) then !fill else s.enables[a][b]
    decreases |path|
  {
    var anchor, fill := s.startPoint.value, s.fillMode.value;
    if |path| > 0 {
      var at := Pos(anchor.row, path[0]);
      var s1 := Pan(s, rows, cols, Changed, Some(at)).next;
      PanChanged(s, rows, cols, at);
      assert RowPath(anchor.row, path)[1..] == RowPath(anchor.row, path[1..]);
      ChangedAlongRow(s1, rows, cols, path[1..]);
      var e := Replay(s1, rows, cols, RowPath(anchor.row, path[1..]));
      assert Replay(s, rows, cols, RowPath(anchor.row, path)) == e;
      forall a, b | 0 <= a < rows && 0 <= b < cols
        ensures e.enables[a][b] == if a == anchor.row && CoveredBy(anchor.col, path, b) then !fill else s.enables[a][b]
      {
        assert s1.enables[a][b] == if OnStroke(anchor, at, a, b) then !fill else s.enables[a][b];
        assert e.enables[a][b] == if a == anchor.row && CoveredBy(anchor.col, path[1..], b) then !fill else s1.enables[a][b];
        assert OnStroke(anchor, at, a, b) <==> a == anchor.row && Between(b, anchor.col, path[0]);
      }
    } else {
      assert RowPath(anchor.row, path) == [];
    }
  }

  /** The same along the anchor's column. */
  lemma {:induction false} ChangedAlongColumn(s: DragState, rows: nat, cols: nat, path: seq<nat>)
    requires ValidDrag(s, rows, cols) && Dragging(s)
    requires forall t :: 0 <= t < |path| ==> path[t] < rows
    ensures var anchor, fill := s.startPoint.value, s.fillMode.value;
      var e := Replay(s, rows, cols, ColumnPath(anchor.col, path));
      e.startPoint == s.startPoint && e.fillMode == s.fillMode &&
      forall a, b {:trigger e.enables[a][b]} :: 0 <= a < rows && 0 <= b < cols ==>
        e.enables[a][b] == if b == anchor.col && CoveredBy(anchor.row, path, a) then !fill else s.enables[a][b]
    decreases |path|
  {
    var anchor, fill := s.startPoint.value, s.fillMode.value;
    if |path| > 0 {
      var at := Pos(path[0], anchor.col);
      var s1 := Pan(s, rows, cols, Changed, Some(at)).next;
      PanChanged(s, rows, cols, at);
      assert ColumnPath(anchor.col, path)[1..] == ColumnPath(anchor.col, path[1..]);
      ChangedAlongColumn(s1, rows, cols, path[1..]);
      var e := Replay(s1, rows, cols, ColumnPath(anchor.col, path[1..]));
      assert Replay(s, rows, cols, ColumnPath(anchor.col, path)) == e;
      forall a, b | 0 <= a < rows && 0 <= b < cols
        ensures e.enables[a][b] == if b == anchor.col && CoveredBy(anchor.row, path, a) then !fill else s.enables[a][b]
      {
        assert s1.enables[a][b] == if OnStroke(anchor, at, a, b) then !fill else s.enables[a][b];
        assert e.enables[a][b] == if b == anchor.col && CoveredBy(anchor.row, path[1..], a) then !fill else s1.enables[a][b];
        assert OnStroke(anchor, at, a, b) <==> b == anchor.col && Between(a, anchor.row, path[0]);
      }
    } else {
      assert ColumnPath(anchor.col, path) == [];
    }
  }

  /** A whole stroke along row `r`: `.began` on (r, c0), `.changed` on
      (r, path[0]), (r, path[1]), ..., `.ended` on any cell. The drag is back
      to idle, the cells of row r some step covered hold the negation of
      (r, c0)'s bit before the drag, and every other cell is unchanged. */
  lemma RowStroke(s: DragState, rows: nat, cols: nat, r: nat, c0: nat, path: seq<nat>, endAt: Pos)
    requires ValidDrag(s, rows, cols) && r < rows && c0 < cols && InGrid(endAt, rows, cols)
    requires forall t :: 0 <= t < |path| ==> path[t] < cols
    ensures var e := Replay(s, rows, cols, [Event(Began, Some(Pos(r, c0)))] + RowPath(r, path) + [Event(Ended, Some(endAt))]);
      e.startPoint.None? && e.fillMode.None? &&
      forall a, b :: 0 <= a < rows && 0 <= b < cols ==>
        e.enables[a][b] == if a == r && CoveredBy(c0, path, b) then !s.enables[r][c0] else s.enables[a][b]
  {
    var began, ended := [Event(Began, Some(Pos(r, c0)))], [Event(Ended, Some(endAt))];
    ReplayAppend(s, rows, cols, began + RowPath(r, path), ended);
    ReplayAppend(s, rows, cols, began, RowPath(r, path));
    var s1 := Replay(s, rows, cols, began);
    assert s1 == DragState(s.enables, Some(Pos(r, c0)), Some(s.enables[r][c0]));
    ChangedAlongRow(s1, rows, cols, path);
    var s2 := Replay(s1, rows, cols, RowPath(r, path));
    assert Replay(s2, rows, cols, ended) == DragState(s2.enables, None, None);
  }

  /** A whole stroke along column `c`, the same way. */
  lemma ColumnStroke(s: DragState, rows: nat, cols: nat, r0: nat, c: nat, path: seq<nat>, endAt: Pos)
    requires ValidDrag(s, rows, cols) && r0 < rows && c < cols && InGrid(endAt, rows, cols)
    requires forall t :: 0 <= t < |path| ==> path[t] < rows
    ensures var e := Replay(s, rows, cols, [Event(Began, Some(Pos(r0, c)))] + ColumnPath(c, path) + [Event(Ended, Some(endAt))]);
      e.startPoint.None? && e.fillMode.None? &&
      forall a, b :: 0 <= a < rows && 0 <= b < cols ==>
        e.enables[a][b] == if b == c && CoveredBy(r0, path, a) then !s.enables[r0][c] else s.enables[a][b]
  {
    var began, ended := [Event(Began, Some(Pos(r0, c)))], [Event(Ended, Some(endAt))];
    ReplayAppend(s, rows, cols, began + ColumnPath(c, path), ended);
    ReplayAppend(s, rows, cols, began, ColumnPath(c, path));
    var s1 := Replay(s, rows, cols, began);
    assert s1 == DragState(s.enables, Some(Pos(r0, c)), Some(s.enables[r0][c]));
    ChangedAlongColumn(s1, rows, cols, path);
    var s2 := Replay(s1, rows, cols, ColumnPath(c, path));
    assert Replay(s2, rows, cols, ended) == DragState(s2.enables, None, None);
  }

  /** A drag that never goes past its last point covers exactly the run
      from its origin to that point. */
  lemma StraightCover(origin: nat, path: seq<nat>, x: nat)
    requires |path| > 0
    requires forall t :: 0 <= t < |path| ==> Between(path[t], origin, path[|path| - 1])
    ensures CoveredBy(origin, path, x) <==> Between(x, origin, path[|path| - 1])
  {
    var last := path[|path| - 1];
    CoveredWithin(origin, path, last, x);
    if Between(x, origin, last) {
      LastCovers(origin, path, x);
    }
  }

  /** Steps that stay within the run from `origin` to `last` cover only it. */
  lemma {:induction false} CoveredWithin(origin: nat, path: seq<nat>, last: nat, x: nat)
    requires forall t :: 0 <= t < |path| ==> Between(path[t], origin, last)
    ensures CoveredBy(origin, path, x) ==> Between(x, origin, last)
    decreases |path|
  {
    if |path| > 0 {
      assert Between(path[0], origin, last);
      CoveredWithin(origin, path[1..], last, x);
    }
  }

  /** The last step covers the run up to itself. */
  lemma {:induction false} LastCovers(origin: nat, path: seq<nat>, x: nat)
    requires |path| > 0 && Between(x, origin, path[|path| - 1])
    ensures CoveredBy(origin, path, x)
    decreases |path|
  {
    if |path| > 1 {
      assert path[1..][|path[1..]| - 1] == path[|path| - 1];
      LastCovers(origin, path[1..], x);
    }
  }
}
