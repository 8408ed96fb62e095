/** What every tool shares (ITool.cs): the eligibility guard of the mutating
    tools and the shape of one pointer event's outcome. */
module ToolCommon {
  import opened Basics
  import opened PixelCanvas
  import opened Layers
  import DrawCommands

  type DrawCommand = DrawCommands.DrawCommand

  /** The guard every mutating tool applies: the layer exists, is unlocked
      and is visible. */
  predicate Editable(layer: Option<Layer>) {
    layer.Some? && !layer.value.isLocked && layer.value.isVisible
  }

  /** One pointer event's outcome: the tool's new state, the layer with its
      bitmap as the event left it, and the command pushed to history, if any. */
  datatype Step<S> = Step(tool: S, layer: Option<Layer>, pushed: Option<DrawCommand>)

  /** The same layer holding a different bitmap. */
  function WithBitmap(layer: Option<Layer>, b: Bitmap): (r: Option<Layer>)
    requires layer.Some?
    ensures r.Some? && r.value.bitmap == b && r.value == layer.value.(bitmap := b)
  {
    Some(layer.value.(bitmap := b))
  }

  /** The event changed at most the pixels of the layer: attributes,
      identity and size are kept, and a null layer stays null. */
  predicate OnlyPixels(before: Option<Layer>, after: Option<Layer>) {
    && before.None? == after.None?
    && (before.Some? ==>
          && after.value == before.value.(bitmap := after.value.bitmap)
          && SameSize(after.value.bitmap, before.value.bitmap))
  }

  /** The command a finished stroke records: the stroke-start snapshot and the
      layer's current bitmap. */
  function StrokeCommand(layer: Layer, snapshot: Bitmap): (cmd: DrawCommand)
    ensures cmd.layerKey == layer.key && cmd.before == snapshot && cmd.after == layer.bitmap
  {
    DrawCommands.Create(layer, snapshot, layer.bitmap)
  }
}
