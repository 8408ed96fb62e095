/** Rectangle Select (RectangleSelectTool.cs): tracks a drag and reports the
    normalised selection rectangle; it never reads or writes pixels. */
module RectangleSelectTool {
  import opened Basics

  /** The four edges passed to `SKRectI(left, top, right, bottom)`. The
      model's containment (`SelectionRectContains`) reads the right and
      bottom edges as inclusive; SkiaSharp reads them as exclusive
      (`SkiaContains`). */
  datatype Rect = Rect(left: int, top: int, right: int, bottom: int)

  /** `_isSelecting`, `_startPoint` and `_endPoint`. */
  datatype SelectTool = SelectTool(selecting: bool, start: Point, end: Point)

  const Name: string := "Rectangle Select"

  /** A fresh tool: not selecting, both points at the origin. */
  const Initial: SelectTool := SelectTool(false, Point(0, 0), Point(0, 0))

  /** The state after an event, and the rectangles sent to `SelectionChanged`
      during it, in order. */
  datatype Selection = Selection(tool: SelectTool, notified: seq<Rect>)

  /** `GetSelectionRect`: the rectangle the two points span, whichever comes
      first. */
  function SelectionRect(t: SelectTool): (r: Rect)
    ensures r.left <= r.right && r.top <= r.bottom
    ensures (r.left == t.start.x && r.right == t.end.x) || (r.left == t.end.x && r.right == t.start.x)
    ensures (r.top == t.start.y && r.bottom == t.end.y) || (r.top == t.end.y && r.bottom == t.start.y)
  {
    var left := if t.start.x <= t.end.x then t.start.x else t.end.x;
    var top := if t.start.y <= t.end.y then t.start.y else t.end.y;
    var right := if t.start.x <= t.end.x then t.end.x else t.start.x;
    var bottom := if t.start.y <= t.end.y then t.end.y else t.start.y;
    Rect(left, top, right, bottom)
  }

  /** The rectangle does not depend on which point is the start. */
  lemma SelectionRectSymmetric(a: Point, b: Point, s1: bool, s2: bool)
    ensures SelectionRect(SelectTool(s1, a, b)) == SelectionRect(SelectTool(s2, b, a))
  {
  }

  /** A point lies in the rectangle exactly when each of its coordinates lies
      between the two points' coordinates. */
  lemma SelectionRectContains(t: SelectTool, q: Point)
    ensures var r := SelectionRect(t);
            (r.left <= q.x <= r.right && r.top <= q.y <= r.bottom)
            <==> ((t.start.x <= q.x <= t.end.x || t.end.x <= q.x <= t.start.x)
                  && (t.start.y <= q.y <= t.end.y || t.end.y <= q.y <= t.start.y))
  {
  }

  /** SkiaSharp's reading of a rectangle: `Width` is `right - left`, and
      `Contains` tests `left <= x < right` and `top <= y < bottom`. */
  predicate SkiaContains(r: Rect, q: Point) {
    r.left <= q.x < r.right && r.top <= q.y < r.bottom
  }

  /** Read the way SkiaSharp reads it, the selection leaves out the last
      column and the last row the two points span; in particular the
      rectangle a single click reports contains no pixel at all. */
  lemma SkiaReadingDropsLastEdges(t: SelectTool, x: int, y: int, q: Point)
    ensures var lastX := if t.start.x <= t.end.x then t.end.x else t.start.x;
            var lastY := if t.start.y <= t.end.y then t.end.y else t.start.y;
            (q.x == lastX || q.y == lastY) ==> !SkiaContains(SelectionRect(t), q)
    ensures !SkiaContains(OnMouseDown(t, x, y).notified[0], q)
  {
  }

  /** Pointer-down: always starts a selection at the cursor, whatever the
      layer, and notifies once with the one-cell rectangle. */
  function OnMouseDown(t: SelectTool, x: int, y: int): (r: Selection)
    ensures r.tool.selecting && r.tool.start == r.tool.end == Point(x, y)
    ensures r.notified == [Rect(x, y, x, y)]
  {
    var t' := SelectTool(true, Point(x, y), Point(x, y));
    Selection(t', [SelectionRect(t')])
  }

  /** Pointer-move: while selecting, moves the end point and notifies once;
      otherwise nothing. */
  function OnMouseMove(t: SelectTool, x: int, y: int): (r: Selection)
    ensures !t.selecting ==> r == Selection(t, [])
    ensures t.selecting ==> r.tool == t.(end := Point(x, y)) && r.notified == [SelectionRect(r.tool)]
  {
    if t.selecting then
      var t' := t.(end := Point(x, y));
      Selection(t', [SelectionRect(t')])
    else Selection(t, [])
  }

  /** Pointer-up: while selecting, ends the selection at the cursor and
      notifies once; otherwise nothing. */
  function OnMouseUp(t: SelectTool, x: int, y: int): (r: Selection)
    ensures !t.selecting ==> r == Selection(t, [])
    ensures t.selecting ==> && r.tool == SelectTool(false, t.start, Point(x, y))
                            && r.notified == [SelectionRect(r.tool)]
  {
    if t.selecting then
      var t' := SelectTool(false, t.start, Point(x, y));
      Selection(t', [SelectionRect(t')])
    else Selection(t, [])
  }

  /** A drag from `a` to `b` (down, one move, up at the same place) reports
      the rectangle spanned by `a` and `b` last, and ends not selecting. */
  lemma DragReportsSpannedRect(t: SelectTool, a: Point, b: Point)
    ensures var d := OnMouseDown(t, a.x, a.y);
            var m := OnMouseMove(d.tool, b.x, b.y);
            var u := OnMouseUp(m.tool, b.x, b.y);
            && !u.tool.selecting
            && d.notified + m.notified + u.notified
               == [Rect(a.x, a.y, a.x, a.y), SelectionRect(SelectTool(false, a, b)), SelectionRect(SelectTool(false, a, b))]
  {
  }
}
