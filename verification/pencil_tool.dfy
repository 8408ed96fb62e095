/** The Pencil (PencilTool.cs): on pointer-down it snapshots the layer and
    writes the cursor pixel and its mirrors; each move writes again, with no
    interpolation; pointer-up records one command for the whole stroke. */
module PencilTool {
  import opened Basics
  import opened PixelCanvas
  import opened Layers
  import opened ToolCommon
  import Symmetry
  import DrawCommands

  /** `_isDrawing` together with the stroke-start snapshot. */
  datatype PencilTool = Idle | Drawing(snapshot: Bitmap)

  const Name: string := "Pencil"

  /** `DrawPixel`: the cursor pixel and its mirrors take the colour. */
  function DrawPixel(layer: Layer, p: Point, color: Color, symmetry: Option<Symmetry.SymmetryMode>): (l: Layer)
    ensures l == layer.(bitmap := l.bitmap) && SameSize(l.bitmap, layer.bitmap)
    ensures forall q :: Get(l.bitmap, q)
                     == if layer.bitmap.Contains(p)
                           && Symmetry.Mirrors(Symmetry.Effective(symmetry), layer.bitmap.width, layer.bitmap.height, p, q)
                        then color else Get(layer.bitmap, q)
  {
    layer.(bitmap := Symmetry.Plot(layer.bitmap, symmetry, p, color))
  }

  /** Pointer-down: ignored on a null, locked or hidden layer; otherwise
      snapshots the bitmap, starts drawing and writes the cursor pixel. */
  function OnMouseDown(t: PencilTool, layer: Option<Layer>, x: int, y: int, color: Color,
                       symmetry: Option<Symmetry.SymmetryMode>): (r: Step<PencilTool>)
    ensures OnlyPixels(layer, r.layer) && r.pushed.None?
    ensures !Editable(layer) ==> r == Step(t, layer, None)
    ensures Editable(layer) ==>
              && r.tool == Drawing(layer.value.bitmap)
              && r.layer.value == DrawPixel(layer.value, Point(x, y), color, symmetry)
  {
    if !Editable(layer) then Step(t, layer, None)
    else Step(Drawing(layer.value.bitmap), Some(DrawPixel(layer.value, Point(x, y), color, symmetry)), None)
  }

  /** Pointer-move: writes one pixel (plus mirrors) only while drawing on an
      editable layer. */
  function OnMouseMove(t: PencilTool, layer: Option<Layer>, x: int, y: int, color: Color,
                       symmetry: Option<Symmetry.SymmetryMode>): (r: Step<PencilTool>)
    ensures OnlyPixels(layer, r.layer) && r.pushed.None? && r.tool == t
    ensures !(t.Drawing? && Editable(layer)) ==> r.layer == layer
    ensures t.Drawing? && Editable(layer) ==> r.layer.value == DrawPixel(layer.value, Point(x, y), color, symmetry)
  {
    if t.Drawing? && Editable(layer) then Step(t, Some(DrawPixel(layer.value, Point(x, y), color, symmetry)), None)
    else Step(t, layer, None)
  }

  /** Pointer-up: while drawing, returns to idle and pushes one command from
      the stroke-start snapshot to the current bitmap; while idle, nothing.
      The source dereferences the layer here, so it must not be null. */
  function OnMouseUp(t: PencilTool, layer: Option<Layer>, x: int, y: int, color: Color): (r: Step<PencilTool>)
    requires t.Drawing? ==> layer.Some?
    ensures r.tool == Idle && r.layer == layer
    ensures t.Idle? <==> r.pushed.None?
    ensures t.Drawing? ==> r.pushed == Some(StrokeCommand(layer.value, t.snapshot))
  {
    if t.Drawing? then Step(Idle, layer, Some(StrokeCommand(layer.value, t.snapshot)))
    else Step(t, layer, None)
  }

  /** The moves of a stroke, one after another. */
  function Moves(t: PencilTool, layer: Option<Layer>, pts: seq<Point>, color: Color,
                 symmetry: Option<Symmetry.SymmetryMode>): (r: Step<PencilTool>)
    ensures r.tool == t && r.pushed.None? && OnlyPixels(layer, r.layer)
    decreases |pts|
  {
    if |pts| == 0 then Step(t, layer, None)
    else
      var s := OnMouseMove(t, layer, pts[0].x, pts[0].y, color, symmetry);
      Moves(s.tool, s.layer, pts[1..], color, symmetry)
  }

  /** A whole stroke on an editable layer (down at `pts[0]`, a move to each
      later point, up) pushes exactly one command. Its "before" is the bitmap
      at pointer-down, and its "after" is that bitmap with every visited point
      and its mirrors painted — and only those. */
  lemma {:induction false} StrokeRecordsOneCommand(layer: Layer, pts: seq<Point>, color: Color,
                                                   symmetry: Option<Symmetry.SymmetryMode>, t: PencilTool)
    requires Editable(Some(layer)) && |pts| >= 1
    ensures var d := OnMouseDown(t, Some(layer), pts[0].x, pts[0].y, color, symmetry);
            var m := Moves(d.tool, d.layer, pts[1..], color, symmetry);
            var u := OnMouseUp(m.tool, m.layer, 0, 0, color);
            && u.pushed.Some?
            && u.pushed.value.layerKey == layer.key
            && u.pushed.value.before == layer.bitmap
            && u.pushed.value.after == Symmetry.PlotAll(layer.bitmap, symmetry, pts, color)
            && u.layer == Some(layer.(bitmap := Symmetry.PlotAll(layer.bitmap, symmetry, pts, color)))
  {
    var d := OnMouseDown(t, Some(layer), pts[0].x, pts[0].y, color, symmetry);
    MovesPaint(d.tool, d.layer.value, pts[1..], color, symmetry);
  }

  /** While drawing on an editable layer, a run of moves paints exactly the
      visited points and their mirrors. */
  lemma {:induction false} MovesPaint(t: PencilTool, layer: Layer, pts: seq<Point>, color: Color,
                                      symmetry: Option<Symmetry.SymmetryMode>)
    requires t.Drawing? && Editable(Some(layer))
    ensures Moves(t, Some(layer), pts, color, symmetry)
         == Step(t, Some(layer.(bitmap := Symmetry.PlotAll(layer.bitmap, symmetry, pts, color))), None)
    decreases |pts|
  {
    if |pts| == 0 {

    } else {
      var l1 := DrawPixel(layer, pts[0], color, symmetry);
      MovesPaint(t, l1, pts[1..], color, symmetry);
    }
  }
}
