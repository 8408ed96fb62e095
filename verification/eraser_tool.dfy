/** The Eraser (EraserTool.cs): the Pencil's event machine writing
    transparent pixels, with no symmetry. */
module EraserTool {
  import opened Basics
  import opened PixelCanvas
  import opened Layers
  import opened ToolCommon
  import DrawCommands

  /** `_isErasing` together with the stroke-start snapshot. */
  datatype EraserTool = Idle | Erasing(snapshot: Bitmap)

  const Name: string := "Eraser"

  /** `ErasePixel`: the pixel under the cursor becomes transparent when it is
      in bounds; nothing else changes. */
  function ErasePixel(layer: Layer, p: Point): (l: Layer)
    ensures l == layer.(bitmap := l.bitmap) && SameSize(l.bitmap, layer.bitmap)
    ensures forall q :: Get(l.bitmap, q)
                     == if q == p && layer.bitmap.Contains(p) then Transparent else Get(layer.bitmap, q)
  {
    layer.(bitmap := Set(layer.bitmap, p, Transparent))
  }

  /** Pointer-down: ignored on a null, locked or hidden layer; otherwise
      snapshots, starts erasing and erases the cursor pixel. */
  function OnMouseDown(t: EraserTool, layer: Option<Layer>, x: int, y: int): (r: Step<EraserTool>)
    ensures OnlyPixels(layer, r.layer) && r.pushed.None?
    ensures !Editable(layer) ==> r == Step(t, layer, None)
    ensures Editable(layer) ==>
              && r.tool == Erasing(layer.value.bitmap)
              && r.layer.value == ErasePixel(layer.value, Point(x, y))
  {
    if !Editable(layer) then Step(t, layer, None)
    else Step(Erasing(layer.value.bitmap), Some(ErasePixel(layer.value, Point(x, y))), None)
  }

  /** Pointer-move: erases one pixel only while erasing on an editable layer. */
  function OnMouseMove(t: EraserTool, layer: Option<Layer>, x: int, y: int): (r: Step<EraserTool>)
    ensures OnlyPixels(layer, r.layer) && r.pushed.None? && r.tool == t
    ensures !(t.Erasing? && Editable(layer)) ==> r.layer == layer
    ensures t.Erasing? && Editable(layer) ==> r.layer.value == ErasePixel(layer.value, Point(x, y))
  {
    if t.Erasing? && Editable(layer) then Step(t, Some(ErasePixel(layer.value, Point(x, y))), None)
    else Step(t, layer, None)
  }

  /** Pointer-up: while erasing, returns to idle and pushes one command from
      the stroke-start snapshot to the current bitmap. The source dereferences
      the layer here, so it must not be null. */
  function OnMouseUp(t: EraserTool, layer: Option<Layer>): (r: Step<EraserTool>)
    requires t.Erasing? ==> layer.Some?
    ensures r.tool == Idle && r.layer == layer
    ensures t.Idle? <==> r.pushed.None?
    ensures t.Erasing? ==> r.pushed == Some(StrokeCommand(layer.value, t.snapshot))
  {
    if t.Erasing? then Step(Idle, layer, Some(StrokeCommand(layer.value, t.snapshot)))
    else Step(t, layer, None)
  }

  /** The moves of a stroke, one after another. */
  function Moves(t: EraserTool, layer: Option<Layer>, pts: seq<Point>): (r: Step<EraserTool>)
    ensures r.tool == t && r.pushed.None? && OnlyPixels(layer, r.layer)
    decreases |pts|
  {
    if |pts| == 0 then Step(t, layer, None)
    else
      var s := OnMouseMove(t, layer, pts[0].x, pts[0].y);
      Moves(s.tool, s.layer, pts[1..])
  }

  /** While erasing on an editable layer, a run of moves clears exactly the
      visited in-bounds pixels. */
  lemma {:induction false} MovesErase(t: EraserTool, layer: Layer, pts: seq<Point>)
    requires t.Erasing? && Editable(Some(layer))
    ensures Moves(t, Some(layer), pts) == Step(t, Some(layer.(bitmap := SetAll(layer.bitmap, pts, Transparent))), None)
    decreases |pts|
  {
    if |pts| > 0 {
      MovesErase(t, ErasePixel(layer, pts[0]), pts[1..]);
    }
  }

  /** A whole stroke on an editable layer pushes one command from the bitmap
      at pointer-down to that bitmap with every visited in-bounds pixel
      cleared, and nothing else changed. */
  lemma StrokeRecordsOneCommand(layer: Layer, pts: seq<Point>, t: EraserTool)
    requires Editable(Some(layer)) && |pts| >= 1
    ensures var d := OnMouseDown(t, Some(layer), pts[0].x, pts[0].y);
            var m := Moves(d.tool, d.layer, pts[1..]);
            var u := OnMouseUp(m.tool, m.layer);
            var after := SetAll(layer.bitmap, pts, Transparent);
            && u.pushed == Some(DrawCommands.DrawCommand(layer.key, layer.bitmap, after))
            && u.layer == Some(layer.(bitmap := after))
            && (forall q :: Get(after, q) == if q in pts && layer.bitmap.Contains(q) then Transparent else Get(layer.bitmap, q))
  {
    var d := OnMouseDown(t, Some(layer), pts[0].x, pts[0].y);
    MovesErase(d.tool, d.layer.value, pts[1..]);
  }
}
