/** The Eyedropper (EyedropperTool.cs): pointer-down reports the colour under
    the cursor through its callback; it never writes and never records. */
module EyedropperTool {
  import opened Basics
  import opened PixelCanvas
  import opened Layers
  import opened ToolCommon

  /** The Eyedropper keeps no state between events. */
  datatype EyedropperTool = EyedropperTool

  const Name: string := "Eyedropper"

  /** `PickColor`: the colour at `p` when the layer exists and `p` is in
      bounds; nothing otherwise. Locked and hidden layers are read too. */
  function PickColor(layer: Option<Layer>, p: Point): (r: Option<Color>)
    ensures r.Some? <==> layer.Some? && layer.value.bitmap.Contains(p)
    ensures r.Some? ==> r.value == Get(layer.value.bitmap, p)
  {
    if layer.Some? && layer.value.bitmap.Contains(p) then Some(Get(layer.value.bitmap, p)) else None
  }

  /** Pointer-down: the layer and tool are untouched, nothing is pushed, and
      the picked colour (if any) is what the callback receives. */
  function OnMouseDown(t: EyedropperTool, layer: Option<Layer>, x: int, y: int): (r: (Step<EyedropperTool>, Option<Color>))
    ensures r.0 == Step(t, layer, None)
    ensures r.1.Some? <==> layer.Some? && layer.value.bitmap.Contains(Point(x, y))
    ensures r.1.Some? ==> r.1.value == Get(layer.value.bitmap, Point(x, y))
  {
    (Step(t, layer, None), PickColor(layer, Point(x, y)))
  }

  /** Pointer-move does nothing. */
  function OnMouseMove(t: EyedropperTool, layer: Option<Layer>): (r: Step<EyedropperTool>)
    ensures r == Step(t, layer, None)
  {
    Step(t, layer, None)
  }

  /** Pointer-up does nothing. */
  function OnMouseUp(t: EyedropperTool, layer: Option<Layer>): (r: Step<EyedropperTool>)
    ensures r == Step(t, layer, None)
  {
    Step(t, layer, None)
  }

  /** Picking has no eligibility guard: a locked, hidden layer still yields
      the colour under the cursor, where every drawing tool would refuse it. */
  lemma PicksFromIneligibleLayer(layer: Layer, p: Point)
    requires layer.isLocked && !layer.isVisible && layer.bitmap.Contains(p)
    ensures !Editable(Some(layer))
    ensures PickColor(Some(layer), p) == Some(Get(layer.bitmap, p))
  {
  }

  /** Picking a pixel just written with `c` yields `c`. */
  lemma PickAfterSet(layer: Layer, p: Point, c: Color)
    requires layer.bitmap.Contains(p)
    ensures PickColor(Some(layer.(bitmap := Set(layer.bitmap, p, c))), p) == Some(c)
  {
  }
}
