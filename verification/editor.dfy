/** The editing session the canvas view model wires together
    (CanvasViewModel.cs): the layer stack, the history, the tool service and
    the active drawing colour. Pointer events go to the active tool with the
    active layer; the layer the tool edited is written back into the stack,
    a recorded command goes onto the history, and a picked colour becomes
    the active colour. Screen-to-canvas coordinate conversion is not part of
    this model: events arrive in canvas coordinates. */
module Editor {
  import opened Basics
  import opened PixelCanvas
  import opened Layers
  import opened ToolCommon
  import DrawCommands
  import History
  import LayerService
  import ToolService
  import PencilTool
  import Symmetry

  datatype Editor = Editor(
    stack: LayerService.LayerStack,
    history: History.HistoryService,
    tools: ToolService.ToolService,
    activeColor: Color)

  ghost predicate Valid(e: Editor) {
    LayerService.Valid(e.stack) && ToolService.Valid(e.tools)
  }

  /** SkiaSharp's SKColors.Black, the initial active colour. */
  const Black: Color := Opaque(0, 0, 0)

  /** A fresh session: one transparent layer, empty history, the default
      tools with the Pencil active, and black as the active colour. */
  function New(width: nat, height: nat): (e: Editor)
    ensures Valid(e)
    ensures e.stack == LayerService.New(width, height)
    ensures !History.CanUndo(e.history) && !History.CanRedo(e.history)
    ensures ToolService.ActiveTool(e.tools) == ToolService.Pencil(PencilTool.Idle)
    ensures e.activeColor == Black
  {
    Editor(LayerService.New(width, height), History.Fresh, ToolService.New(), Black)
  }

  /** The active layer's pixels. */
  function ActiveBitmap(e: Editor): Bitmap
    requires Valid(e)
  {
    LayerService.ActiveLayer(e.stack).bitmap
  }

  /** Writes an edited layer back over the member with the same identity;
      every other layer and the active layer stay as they were. */
  function Replace(s: LayerService.LayerStack, l: Layer): (r: LayerService.LayerStack)
    requires LayerService.Valid(s) && LayerService.Member(s.layers, l.key)
    requires l.bitmap.width == s.width && l.bitmap.height == s.height
    ensures LayerService.Valid(r)
    ensures r == s.(layers := r.layers) && |r.layers| == |s.layers|
    ensures forall i | 0 <= i < |s.layers| :: r.layers[i] == if s.layers[i].key == l.key then l else s.layers[i]
  {
    var i := LayerService.IndexOf(s.layers, l.key);
    LayerService.ReplaceFacts(s.layers, i, l, s.width, s.height, s.nextKey);
    s.(layers := s.layers[i := l])
  }

  /** `r` differs from `e` at most in the pixels of the active layer: the
      stack's attributes, every other layer, and the active layer's
      attributes are unchanged. */
  ghost predicate OnlyActivePixels(e: Editor, r: Editor) {
    && r.stack == e.stack.(layers := r.stack.layers)
    && |r.stack.layers| == |e.stack.layers|
    && forall i | 0 <= i < |e.stack.layers| ::
         && r.stack.layers[i] == e.stack.layers[i].(bitmap := r.stack.layers[i].bitmap)
         && (e.stack.layers[i].key != e.stack.activeKey ==> r.stack.layers[i] == e.stack.layers[i])
  }

  /** Two steps that each touch only the active layer's pixels together
      touch only those. */
  lemma OnlyActivePixelsTransitive(a: Editor, b: Editor, c: Editor)
    requires OnlyActivePixels(a, b) && OnlyActivePixels(b, c)
    ensures OnlyActivePixels(a, c)
  {
    assert b.stack.activeKey == a.stack.activeKey;
    forall i | 0 <= i < |a.stack.layers|
      ensures c.stack.layers[i] == a.stack.layers[i].(bitmap := c.stack.layers[i].bitmap)
      ensures a.stack.layers[i].key != a.stack.activeKey ==> c.stack.layers[i] == a.stack.layers[i]
    {
      assert b.stack.layers[i] == a.stack.layers[i].(bitmap := b.stack.layers[i].bitmap);
    }
  }

  /** Applies what a pointer event produced. */
  function Apply(e: Editor, out: ToolService.Outcome): (r: Editor)
    requires Valid(e) && ToolService.Valid(out.service)
    requires OnlyPixels(Some(LayerService.ActiveLayer(e.stack)), out.layer)
    ensures Valid(r)
    ensures OnlyActivePixels(e, r)
    ensures ActiveBitmap(r) == out.layer.value.bitmap
    ensures out.pushed.None? ==> r.history == e.history
    ensures out.pushed.Some? ==> r.history == History.Push(e.history, r.stack.layers, out.pushed.value).history
    ensures out.picked.None? ==> r.activeColor == e.activeColor
    ensures out.picked.Some? ==> r.activeColor == out.picked.value
  {
    var stack := Replace(e.stack, out.layer.value);
    var history := if out.pushed.Some? then History.Push(e.history, stack.layers, out.pushed.value).history else e.history;
    var color := if out.picked.Some? then out.picked.value else e.activeColor;
    Editor(stack, history, out.service, color)
  }

  /** `OnMouseDown` on the canvas. */
  function PointerDown(e: Editor, x: int, y: int): (r: Editor)
    requires Valid(e)
    ensures Valid(r) && OnlyActivePixels(e, r)
    ensures r.history == e.history || |r.history.undoStack| == |e.history.undoStack| + 1
  {
    var layer := LayerService.ActiveLayer(e.stack);
    Apply(e, ToolService.OnMouseDown(e.tools, Some(layer), x, y, e.activeColor))
  }

  /** `OnMouseMove` on the canvas. */
  function PointerMove(e: Editor, x: int, y: int): (r: Editor)
    requires Valid(e)
    ensures Valid(r) && OnlyActivePixels(e, r)
    ensures r.history == e.history && r.activeColor == e.activeColor
  {
    var layer := LayerService.ActiveLayer(e.stack);
    Apply(e, ToolService.OnMouseMove(e.tools, Some(layer), x, y, e.activeColor))
  }

  /** `OnMouseUp` on the canvas. The active layer is never null here, so the
      tools that dereference it on pointer-up are always safe. */
  function PointerUp(e: Editor, x: int, y: int): (r: Editor)
    requires Valid(e)
    ensures Valid(r) && OnlyActivePixels(e, r) && r.activeColor == e.activeColor
    ensures r.history == e.history || |r.history.undoStack| == |e.history.undoStack| + 1
  {
    var layer := LayerService.ActiveLayer(e.stack);
    Apply(e, ToolService.OnMouseUp(e.tools, Some(layer), x, y, e.activeColor))
  }

  /** Restoring a snapshot into the layers by identity keeps the stack valid. */
  lemma RestoreKeepsValid(s: LayerService.LayerStack, key: nat, snapshot: Bitmap)
    requires LayerService.Valid(s)
    ensures LayerService.Valid(s.(layers := DrawCommands.RestoreLayers(s.layers, key, snapshot)))
  {
    var r := DrawCommands.RestoreLayers(s.layers, key, snapshot);
    assert LayerService.Member(r, s.activeKey) by {
      var i :| 0 <= i < |s.layers| && s.layers[i].key == s.activeKey;
      assert r[i].key == s.activeKey;
    }
  }

  /** The undo button: `HistoryService.Undo` on the stack's layers. */
  function Undo(e: Editor): (r: Editor)
    requires Valid(e)
    ensures Valid(r) && r.tools == e.tools && r.activeColor == e.activeColor
    ensures r.stack == e.stack.(layers := r.stack.layers)
    ensures !History.CanUndo(e.history) ==> r == e
  {
    if History.CanUndo(e.history) then
      var cmd := e.history.undoStack[|e.history.undoStack| - 1];
      RestoreKeepsValid(e.stack, cmd.layerKey, cmd.before);
      var eff := History.Undo(e.history, e.stack.layers);
      e.(history := eff.history, stack := e.stack.(layers := eff.layers))
    else e
  }

  /** The redo button: `HistoryService.Redo` on the stack's layers. */
  function Redo(e: Editor): (r: Editor)
    requires Valid(e)
    ensures Valid(r) && r.tools == e.tools && r.activeColor == e.activeColor
    ensures r.stack == e.stack.(layers := r.stack.layers)
    ensures !History.CanRedo(e.history) ==> r == e
  {
    if History.CanRedo(e.history) then
      var cmd := e.history.redoStack[|e.history.redoStack| - 1];
      RestoreKeepsValid(e.stack, cmd.layerKey, cmd.after);
      var eff := History.Redo(e.history, e.stack.layers);
      e.(history := eff.history, stack := e.stack.(layers := eff.layers))
    else e
  }

  /** A pencil click: pointer-down then pointer-up at `p`. */
  function Click(e: Editor, p: Point): (r: Editor)
    requires Valid(e)
    ensures Valid(r) && OnlyActivePixels(e, r)
  {
    var down := PointerDown(e, p.x, p.y);
    var r := PointerUp(down, p.x, p.y);
    OnlyActivePixelsTransitive(e, down, r);
    r
  }

  /** With the idle Pencil active on an editable layer, a click paints `p`
      and its mirrors (under the service's symmetry mode) in the active colour
      and records one command; undo then gives back the layer stack exactly
      as it was, and redo gives back the painted stack and the history. */
  lemma {:induction false} ClickUndoRedo(e: Editor, p: Point)
    requires Valid(e)
    requires ToolService.ActiveTool(e.tools) == ToolService.Pencil(PencilTool.Idle)
    requires Editable(Some(LayerService.ActiveLayer(e.stack)))
    ensures var c := Click(e, p);
            var b := ActiveBitmap(e);
            && (forall q :: Get(ActiveBitmap(c), q)
                 == if b.Contains(p) && Symmetry.Mirrors(e.tools.symmetry.mode, b.width, b.height, p, q)
                    then e.activeColor else Get(b, q))
            && |c.history.undoStack| == |e.history.undoStack| + 1
            && !History.CanRedo(c.history)
            && Undo(c).stack == e.stack
            && Redo(Undo(c)).stack == c.stack
            && Redo(Undo(c)).history == c.history
  {
    var layer := LayerService.ActiveLayer(e.stack);
    var painted := PencilTool.DrawPixel(layer, p, e.activeColor, Some(e.tools.symmetry.mode));
    var cmd := StrokeCommand(painted, layer.bitmap);
    var c := Click(e, p);
    ClickRecords(e, p);
    StrokeUndoRedo(e, c, layer, painted);
  }

  /** What a pencil click leaves: the active layer replaced by the painted
      one, and the stroke's command alone on top of the undo stack. */
  lemma ClickRecords(e: Editor, p: Point)
    requires Valid(e)
    requires ToolService.ActiveTool(e.tools) == ToolService.Pencil(PencilTool.Idle)
    requires Editable(Some(LayerService.ActiveLayer(e.stack)))
    ensures var layer := LayerService.ActiveLayer(e.stack);
            var painted := PencilTool.DrawPixel(layer, p, e.activeColor, Some(e.tools.symmetry.mode));
            var c := Click(e, p);
            && c.stack == e.stack.(layers := c.stack.layers)
            && LayerService.ActiveLayer(c.stack) == painted
            && |c.stack.layers| == |e.stack.layers|
            && (forall i | 0 <= i < |e.stack.layers| ::
                  c.stack.layers[i] == if e.stack.layers[i].key == layer.key then painted else e.stack.layers[i])
            && c.history == History.HistoryService(e.history.undoStack + [StrokeCommand(painted, layer.bitmap)], [])
  {
    var layer := LayerService.ActiveLayer(e.stack);
    var d := PointerDown(e, p.x, p.y);
    var painted := PencilTool.DrawPixel(layer, p, e.activeColor, Some(e.tools.symmetry.mode));
    assert ToolService.ActiveTool(d.tools) == ToolService.Pencil(PencilTool.Drawing(layer.bitmap));
    assert LayerService.ActiveLayer(d.stack) == painted;
    var c := PointerUp(d, p.x, p.y);
    assert c.stack == d.stack;
  }

  /** Undo after a stroke that replaced `layer` by `painted` gives back the
      stack from before the stroke; redo then gives back the stroke's stack
      and history. */
  lemma StrokeUndoRedo(e: Editor, c: Editor, layer: Layer, painted: Layer)
    requires Valid(e) && Valid(c)
    requires layer == LayerService.ActiveLayer(e.stack)
    requires painted == layer.(bitmap := painted.bitmap) && SameSize(painted.bitmap, layer.bitmap)
    requires c.stack == e.stack.(layers := c.stack.layers) && |c.stack.layers| == |e.stack.layers|
    requires forall i | 0 <= i < |e.stack.layers| ::
               c.stack.layers[i] == if e.stack.layers[i].key == layer.key then painted else e.stack.layers[i]
    requires c.history == History.HistoryService(e.history.undoStack + [StrokeCommand(painted, layer.bitmap)], [])
    ensures Undo(c).stack == e.stack
    ensures Redo(Undo(c)).stack == c.stack && Redo(Undo(c)).history == c.history
  {
    var cmd := StrokeCommand(painted, layer.bitmap);
    StrokeUndoLayers(e.stack.layers, c.stack.layers, layer, painted);
    History.UndoThenRedo(c.history, c.stack.layers);
    assert DrawCommands.ShowsAfter(cmd, c.stack.layers) by {
      forall i | 0 <= i < |c.stack.layers| && c.stack.layers[i].key == cmd.layerKey
        ensures c.stack.layers[i].bitmap == cmd.after
      {
        assert e.stack.layers[i].key == layer.key;
      }
    }
  }

  /** Undoing the stroke's command on the painted layers gives back the
      layers from before the stroke. */
  lemma StrokeUndoLayers(before: seq<Layer>, after: seq<Layer>, layer: Layer, painted: Layer)
    requires painted == layer.(bitmap := painted.bitmap) && SameSize(painted.bitmap, layer.bitmap)
    requires |after| == |before|
    requires forall i | 0 <= i < |before| :: before[i].key == layer.key ==> before[i] == layer
    requires forall i | 0 <= i < |before| ::
               after[i] == if before[i].key == layer.key then painted else before[i]
    ensures DrawCommands.Undo(StrokeCommand(painted, layer.bitmap), after) == before
  {
    var u := DrawCommands.Undo(StrokeCommand(painted, layer.bitmap), after);
    DrawCommands.RestoreSameSize(painted.bitmap, layer.bitmap);
    forall i | 0 <= i < |before| ensures u[i] == before[i] {
    }
  }

  /** A 32 x 32 session: a click with red at (5, 5) paints that pixel red,
      undo makes it transparent again, and redo makes it red once more. */
  lemma PencilScenario(red: Color, p: Point)
    requires red == Opaque(255, 0, 0) && p == Point(5, 5)
    ensures var e := New(32, 32).(activeColor := red);
            && Get(ActiveBitmap(Click(e, p)), p) == red
            && Get(ActiveBitmap(Undo(Click(e, p))), p) == Transparent
            && Get(ActiveBitmap(Redo(Undo(Click(e, p)))), p) == red
  {
    var e := New(32, 32).(activeColor := red);
    ClickUndoRedo(e, p);
  }
}
