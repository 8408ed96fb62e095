/** The Rectangle tool (RectangleTool.cs): the Line tool's preview/commit
    machine, stroking the four edges of the box the anchor and the cursor
    span. */
module RectangleTool {
  import opened Basics
  import opened PixelCanvas
  import opened Layers
  import opened ToolCommon
  import Symmetry
  import DrawCommands

  /** `_isDrawing` with the anchor (`_startX`, `_startY`) and the snapshot. */
  datatype RectangleTool = Idle | Drawing(anchor: Point, snapshot: Bitmap)

  const Name: string := "Rectangle"

  /** A normalised box: `left <= right` and `top <= bottom`. */
  datatype Box = Box(left: int, top: int, right: int, bottom: int)

  function Min(a: int, b: int): int { if a <= b then a else b }
  function Max(a: int, b: int): int { if a <= b then b else a }

  /** The box two opposite corners span. */
  function BoxOf(p: Point, q: Point): (r: Box)
    ensures r.left <= r.right && r.top <= r.bottom
    ensures (r.left == p.x && r.right == q.x) || (r.left == q.x && r.right == p.x)
    ensures (r.top == p.y && r.bottom == q.y) || (r.top == q.y && r.bottom == p.y)
  {
    Box(Min(p.x, q.x), Min(p.y, q.y), Max(p.x, q.x), Max(p.y, q.y))
  }

  /** `q` lies on the outline of the box: inside it and on one of its edges. */
  predicate OnBorder(box: Box, q: Point) {
    && box.left <= q.x <= box.right && box.top <= q.y <= box.bottom
    && (q.x == box.left || q.x == box.right || q.y == box.top || q.y == box.bottom)
  }

  /** `q` lies strictly inside the box. */
  predicate Interior(box: Box, q: Point) {
    box.left < q.x < box.right && box.top < q.y < box.bottom
  }

  /** The first loop of `DrawRectangle`, from column `x` on: top then bottom
      cell of each column. */
  function Rows(box: Box, x: int): (ps: seq<Point>)
    ensures forall q :: q in ps <==> x <= q.x <= box.right && (q.y == box.top || q.y == box.bottom)
    decreases box.right - x + 1
  {
    if x > box.right then []
    else [Point(x, box.top), Point(x, box.bottom)] + Rows(box, x + 1)
  }

  /** The second loop of `DrawRectangle`, from row `y` on: left then right
      cell of each row. */
  function Columns(box: Box, y: int): (ps: seq<Point>)
    ensures forall q :: q in ps <==> y <= q.y <= box.bottom && (q.x == box.left || q.x == box.right)
    decreases box.bottom - y + 1
  {
    if y > box.bottom then []
    else [Point(box.left, y), Point(box.right, y)] + Columns(box, y + 1)
  }

  /** The cells `DrawRectangle` writes, in order. */
  function Outline(box: Box): (ps: seq<Point>)
    requires box.left <= box.right && box.top <= box.bottom
    ensures forall q :: q in ps <==> OnBorder(box, q)
  {
    Rows(box, box.left) + Columns(box, box.top)
  }

  /** `DrawRectangle`: the outline of the box the two corners span, and its
      mirrors, take the colour; out-of-bounds cells are skipped. */
  function DrawRectangle(b: Bitmap, symmetry: Option<Symmetry.SymmetryMode>, p: Point, q: Point, color: Color): (r: Bitmap)
    ensures SameSize(r, b)
    ensures forall z :: Get(r, z)
                     == if Symmetry.Covered(Symmetry.Effective(symmetry), b.width, b.height, Outline(BoxOf(p, q)), z)
                        then color else Get(b, z)
  {
    Symmetry.PlotAll(b, symmetry, Outline(BoxOf(p, q)), color)
  }

  /** The box, and so the drawing, is the same whichever corner is the
      anchor: the two corners swapped, or the other diagonal. */
  lemma AnchorIndependent(b: Bitmap, symmetry: Option<Symmetry.SymmetryMode>, x0: int, y0: int, x1: int, y1: int, color: Color)
    ensures BoxOf(Point(x0, y0), Point(x1, y1)) == BoxOf(Point(x1, y1), Point(x0, y0))
    ensures BoxOf(Point(x0, y0), Point(x1, y1)) == BoxOf(Point(x0, y1), Point(x1, y0))
    ensures DrawRectangle(b, symmetry, Point(x0, y0), Point(x1, y1), color)
         == DrawRectangle(b, symmetry, Point(x1, y1), Point(x0, y0), color)
         == DrawRectangle(b, symmetry, Point(x0, y1), Point(x1, y0), color)
         == DrawRectangle(b, symmetry, Point(x1, y0), Point(x0, y1), color)
  {
    assert BoxOf(Point(x1, y0), Point(x0, y1)) == BoxOf(Point(x0, y0), Point(x1, y1));
  }

  /** Without mirroring, the pixels written are exactly the in-bounds cells of
      the box's outline: no interior cell and nothing outside the box. */
  lemma PlainOutlineExact(b: Bitmap, symmetry: Option<Symmetry.SymmetryMode>, p: Point, q: Point, color: Color, z: Point)
    requires Symmetry.Effective(symmetry) == Symmetry.None
    ensures Get(DrawRectangle(b, symmetry, p, q, color), z)
         == if OnBorder(BoxOf(p, q), z) && b.Contains(z) then color else Get(b, z)
  {
    var box := BoxOf(p, q);
    var ps := Outline(box);
    Symmetry.CoveredWithoutMirror(b.width, b.height, ps, z);
    assert z in ps <==> OnBorder(box, z);
  }

  /** Every mirror image of an in-bounds border cell is painted. */
  lemma BorderMirrorPainted(b: Bitmap, symmetry: Option<Symmetry.SymmetryMode>, p: Point, q: Point, color: Color, e: Point, z: Point)
    requires OnBorder(BoxOf(p, q), e) && b.Contains(e)
    requires Symmetry.Mirrors(Symmetry.Effective(symmetry), b.width, b.height, e, z)
    ensures Get(DrawRectangle(b, symmetry, p, q, color), z) == color
  {
    var ps := Outline(BoxOf(p, q));
    var i :| 0 <= i < |ps| && ps[i] == e;
    assert Symmetry.Covered(Symmetry.Effective(symmetry), b.width, b.height, ps, z);
  }

  /** With a mirror, the reflected outline can cross the box's interior:
      on a canvas 8 wide, the box from (1,1) to (5,5) has its right edge
      cell (5,3) mirrored horizontally onto the interior cell (2,3). */
  lemma MirrorCanReachInterior(b: Bitmap, color: Color, p: Point, q: Point, z: Point)
    requires b.width == 8 && b.height >= 6
    requires p == Point(1, 1) && q == Point(5, 5) && z == Point(2, 3)
    ensures Interior(BoxOf(p, q), z)
    ensures Get(DrawRectangle(b, Some(Symmetry.Horizontal), p, q, color), z) == color
  {
    BorderMirrorPainted(b, Some(Symmetry.Horizontal), p, q, color, Point(5, 3), z);
  }

  /** Pointer-down: ignored on a null, locked or hidden layer; otherwise
      records the anchor and snapshot and draws nothing. */
  function OnMouseDown(t: RectangleTool, layer: Option<Layer>, x: int, y: int): (r: Step<RectangleTool>)
    ensures r.layer == layer && r.pushed.None?
    ensures !Editable(layer) ==> r.tool == t
    ensures Editable(layer) ==> r.tool == Drawing(Point(x, y), layer.value.bitmap)
  {
    if !Editable(layer) then Step(t, layer, None)
    else Step(Drawing(Point(x, y), layer.value.bitmap), layer, None)
  }

  /** Pointer-move: while drawing on an editable layer, the snapshot is
      drawn back over a cleared bitmap and the box outline drawn over it;
      otherwise nothing happens. */
  function OnMouseMove(t: RectangleTool, layer: Option<Layer>, x: int, y: int, color: Color,
                       symmetry: Option<Symmetry.SymmetryMode>): (r: Step<RectangleTool>)
    ensures OnlyPixels(layer, r.layer) && r.pushed.None? && r.tool == t
    ensures !(t.Drawing? && Editable(layer)) ==> r.layer == layer
    ensures t.Drawing? && Editable(layer) ==>
              r.layer.value.bitmap
              == DrawRectangle(DrawCommands.Restore(layer.value.bitmap, t.snapshot), symmetry, t.anchor, Point(x, y), color)
  {
    if !(t.Drawing? && Editable(layer)) then Step(t, layer, None)
    else
      var b := DrawCommands.Restore(layer.value.bitmap, t.snapshot);
      Step(t, WithBitmap(layer, DrawRectangle(b, symmetry, t.anchor, Point(x, y), color)), None)
  }

  /** Pointer-up: while drawing on an editable layer, the final outline is
      drawn over the current bitmap (no restore), the tool goes idle and one
      command from the snapshot is pushed; otherwise nothing happens. */
  function OnMouseUp(t: RectangleTool, layer: Option<Layer>, x: int, y: int, color: Color,
                     symmetry: Option<Symmetry.SymmetryMode>): (r: Step<RectangleTool>)
    ensures OnlyPixels(layer, r.layer)
    ensures !(t.Drawing? && Editable(layer)) ==> r == Step(t, layer, None)
    ensures t.Drawing? && Editable(layer) ==>
              && r.tool == Idle
              && r.layer.value.bitmap == DrawRectangle(layer.value.bitmap, symmetry, t.anchor, Point(x, y), color)
              && r.pushed == Some(StrokeCommand(r.layer.value, t.snapshot))
  {
    if !(t.Drawing? && Editable(layer)) then Step(t, layer, None)
    else
      var l := WithBitmap(layer, DrawRectangle(layer.value.bitmap, symmetry, t.anchor, Point(x, y), color));
      Step(Idle, l, Some(StrokeCommand(l.value, t.snapshot)))
  }

  /** On a layer of the snapshot's size, a move shows exactly the snapshot
      with the outline drawn on it, whatever earlier moves drew. */
  lemma MoveShowsSnapshotPlusOutline(t: RectangleTool, layer: Layer, x: int, y: int, color: Color,
                                     symmetry: Option<Symmetry.SymmetryMode>)
    requires t.Drawing? && Editable(Some(layer)) && SameSize(layer.bitmap, t.snapshot)
    ensures OnMouseMove(t, Some(layer), x, y, color, symmetry).layer.value.bitmap
         == DrawRectangle(t.snapshot, symmetry, t.anchor, Point(x, y), color)
  {
    DrawCommands.RestoreSameSize(layer.bitmap, t.snapshot);
  }

  /** Drawing the same outline twice is drawing it once. */
  lemma DrawRectangleIdempotent(b: Bitmap, symmetry: Option<Symmetry.SymmetryMode>, p: Point, q: Point, color: Color)
    ensures DrawRectangle(DrawRectangle(b, symmetry, p, q, color), symmetry, p, q, color)
         == DrawRectangle(b, symmetry, p, q, color)
  {
    var once := DrawRectangle(b, symmetry, p, q, color);
    Extensionality(DrawRectangle(once, symmetry, p, q, color), once);
  }

  /** Releasing where the last move was commits exactly the previewed
      outline over the snapshot. */
  lemma UpAtLastMoveCommitsPreview(t: RectangleTool, layer: Layer, x: int, y: int, color: Color,
                                   symmetry: Option<Symmetry.SymmetryMode>)
    requires t.Drawing? && Editable(Some(layer)) && SameSize(layer.bitmap, t.snapshot)
    ensures var m := OnMouseMove(t, Some(layer), x, y, color, symmetry);
            var u := OnMouseUp(m.tool, m.layer, x, y, color, symmetry);
            var outline := DrawRectangle(t.snapshot, symmetry, t.anchor, Point(x, y), color);
            u.pushed == Some(DrawCommands.DrawCommand(layer.key, t.snapshot, outline))
  {
    MoveShowsSnapshotPlusOutline(t, layer, x, y, color, symmetry);
    DrawRectangleIdempotent(t.snapshot, symmetry, t.anchor, Point(x, y), color);
  }
}
