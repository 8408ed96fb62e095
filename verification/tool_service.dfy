/** The tool registry (ToolService.cs): the list of available tools, the
    active one, the symmetry settings shared with the Pencil, and the
    `ColorPicked` forwarding for the Eyedropper. Pointer events reach the
    active tool through this module's dispatch. */
module ToolService {
  import opened Basics
  import opened PixelCanvas
  import opened Layers
  import opened ToolCommon
  import Symmetry
  import PencilTool
  import EraserTool
  import EyedropperTool
  import FillTool
  import RectangleSelectTool
  import LineTool
  import RectangleTool
  import BlurTool

  /** The `SymmetrySettings` a Line or Rectangle tool was constructed with.
      The service builds neither, so whoever builds one chooses: the
      service's own settings object, whose mode follows `SetSymmetry`, or a
      separate object (`None` for `null`) whose mode nothing in the core
      changes afterwards. */
  datatype SettingsSource =
    | ServiceSettings
    | Separate(mode: Option<Symmetry.SymmetryMode>)

  /** Every tool the core defines, each with its own state. */
  datatype Tool =
    | Pencil(pencil: PencilTool.PencilTool)
    | Eraser(eraser: EraserTool.EraserTool)
    | Eyedropper
    | Fill
    | RectangleSelect(select: RectangleSelectTool.SelectTool)
    | Line(line: LineTool.LineTool, settings: SettingsSource)
    | Rectangle(rectangle: RectangleTool.RectangleTool, settings: SettingsSource)
    | Blur(blur: BlurTool.BlurTool)

  /** Each tool's `Name`. */
  function ToolName(t: Tool): string {
    match t
    case Pencil(_) => PencilTool.Name
    case Eraser(_) => EraserTool.Name
    case Eyedropper => EyedropperTool.Name
    case Fill => FillTool.Name
    case RectangleSelect(_) => RectangleSelectTool.Name
    case Line(_, _) => LineTool.Name
    case Rectangle(_, _) => RectangleTool.Name
    case Blur(_) => BlurTool.Name
  }

  /** The service: its tools (`AvailableTools`), the index of `ActiveTool`
      among them, and `SymmetrySettings`. */
  datatype ToolService = ToolService(tools: seq<Tool>, active: nat, symmetry: Symmetry.SymmetrySettings)

  predicate Valid(s: ToolService) {
    s.active < |s.tools|
  }

  function Names(tools: seq<Tool>): (r: seq<string>)
    ensures |r| == |tools| && forall i | 0 <= i < |tools| :: r[i] == ToolName(tools[i])
  {
    if |tools| == 0 then [] else [ToolName(tools[0])] + Names(tools[1..])
  }

  /** The constructor: Pencil, Eraser, Eyedropper, Fill and Rectangle Select,
      each fresh, in that order; the Pencil active; symmetry off. */
  function New(): (s: ToolService)
    ensures Valid(s) && s.active == 0
    ensures Names(s.tools) == ["Pencil", "Eraser", "Eyedropper", "Fill", "Rectangle Select"]
    ensures s.tools[s.active] == Pencil(PencilTool.Idle)
    ensures s.symmetry.mode == Symmetry.None
    ensures forall i | 0 <= i < |s.tools| :: !s.tools[i].Line? && !s.tools[i].Rectangle? && !s.tools[i].Blur?
  {
    ToolService([Pencil(PencilTool.Idle), Eraser(EraserTool.Idle), Eyedropper, Fill,
                 RectangleSelect(RectangleSelectTool.Initial)], 0, Symmetry.DefaultSettings)
  }

  /** `ActiveTool`. */
  function ActiveTool(s: ToolService): Tool
    requires Valid(s)
  {
    s.tools[s.active]
  }

  /** Setting `ActiveTool` to one of the available tools. */
  function SelectTool(s: ToolService, i: nat): (r: ToolService)
    requires i < |s.tools|
    ensures Valid(r) && ActiveTool(r) == s.tools[i] && r.tools == s.tools && r.symmetry == s.symmetry
  {
    s.(active := i)
  }

  /** Changing the shared symmetry mode, through the service's settings object. */
  function SetSymmetry(s: ToolService, m: Symmetry.SymmetryMode): (r: ToolService)
    ensures r.symmetry.mode == m && r.tools == s.tools && r.active == s.active
  {
    s.(symmetry := Symmetry.SetMode(s.symmetry, m).0)
  }

  /** What one pointer event produced: the service with the active tool's new
      state, the layer as the tool left it, the command pushed to history,
      the colour sent to `ColorPicked`, and the selection rectangles
      reported. */
  datatype Outcome = Outcome(
    service: ToolService,
    layer: Option<Layer>,
    pushed: Option<DrawCommand>,
    picked: Option<Color>,
    selections: seq<RectangleSelectTool.Rect>)

  function WithActive(s: ToolService, t: Tool): (r: ToolService)
    requires Valid(s)
    ensures Valid(r) && ActiveTool(r) == t && r.active == s.active && r.symmetry == s.symmetry
    ensures |r.tools| == |s.tools| && forall i | 0 <= i < |s.tools| && i != s.active :: r.tools[i] == s.tools[i]
  {
    s.(tools := s.tools[s.active := t])
  }

  /** The symmetry the Pencil sees: the service's settings object, which the
      constructor hands to it. */
  function Mirror(s: ToolService): Option<Symmetry.SymmetryMode> {
    Some(s.symmetry.mode)
  }

  /** The symmetry a Line or Rectangle tool sees through the settings object
      it was constructed with. */
  function MirrorOf(s: ToolService, src: SettingsSource): Option<Symmetry.SymmetryMode> {
    match src
    case ServiceSettings => Mirror(s)
    case Separate(m) => m
  }

  /** Pointer-down on the active tool. */
  function OnMouseDown(s: ToolService, layer: Option<Layer>, x: int, y: int, color: Color): (r: Outcome)
    requires Valid(s)
    ensures Valid(r.service) && r.service.active == s.active && r.service.symmetry == s.symmetry
    ensures OnlyPixels(layer, r.layer)
    ensures r.pushed.Some? ==> layer.Some? && r.pushed.value.layerKey == layer.value.key
    ensures ActiveTool(s).Eyedropper? ==> r.picked == EyedropperTool.PickColor(layer, Point(x, y)) && r.layer == layer
    ensures !ActiveTool(s).Eyedropper? ==> r.picked.None?
    ensures ActiveTool(s).RectangleSelect? <==> |r.selections| == 1
  {
    match ActiveTool(s)
    case Pencil(t) =>
      var st := PencilTool.OnMouseDown(t, layer, x, y, color, Mirror(s));
      Outcome(WithActive(s, Pencil(st.tool)), st.layer, st.pushed, None, [])
    case Eraser(t) =>
      var st := EraserTool.OnMouseDown(t, layer, x, y);
      Outcome(WithActive(s, Eraser(st.tool)), st.layer, st.pushed, None, [])
    case Eyedropper =>
      var (st, picked) := EyedropperTool.OnMouseDown(EyedropperTool.EyedropperTool, layer, x, y);
      Outcome(s, st.layer, st.pushed, picked, [])
    case Fill =>
      var st := FillTool.OnMouseDown(FillTool.FillTool, layer, x, y, color);
      Outcome(s, st.layer, st.pushed, None, [])
    case RectangleSelect(t) =>
      var sel := RectangleSelectTool.OnMouseDown(t, x, y);
      Outcome(WithActive(s, RectangleSelect(sel.tool)), layer, None, None, sel.notified)
    case Line(t, src) =>
      var st := LineTool.OnMouseDown(t, layer, x, y);
      Outcome(WithActive(s, Line(st.tool, src)), st.layer, st.pushed, None, [])
    case Rectangle(t, src) =>
      var st := RectangleTool.OnMouseDown(t, layer, x, y);
      Outcome(WithActive(s, Rectangle(st.tool, src)), st.layer, st.pushed, None, [])
    case Blur(t) =>
      var st := BlurTool.OnMouseDown(t, layer, x, y);
      Outcome(WithActive(s, Blur(st.tool)), st.layer, st.pushed, None, [])
  }

  /** Pointer-move on the active tool. */
  function OnMouseMove(s: ToolService, layer: Option<Layer>, x: int, y: int, color: Color): (r: Outcome)
    requires Valid(s)
    ensures Valid(r.service) && r.service.active == s.active && r.service.symmetry == s.symmetry
    ensures r.pushed.None? && r.picked.None? && OnlyPixels(layer, r.layer)
  {
    match ActiveTool(s)
    case Pencil(t) =>
      var st := PencilTool.OnMouseMove(t, layer, x, y, color, Mirror(s));
      Outcome(WithActive(s, Pencil(st.tool)), st.layer, st.pushed, None, [])
    case Eraser(t) =>
      var st := EraserTool.OnMouseMove(t, layer, x, y);
      Outcome(WithActive(s, Eraser(st.tool)), st.layer, st.pushed, None, [])
    case Eyedropper =>
      var st := EyedropperTool.OnMouseMove(EyedropperTool.EyedropperTool, layer);
      Outcome(s, st.layer, st.pushed, None, [])
    case Fill =>
      var st := FillTool.OnMouseMove(FillTool.FillTool, layer);
      Outcome(s, st.layer, st.pushed, None, [])
    case RectangleSelect(t) =>
      var sel := RectangleSelectTool.OnMouseMove(t, x, y);
      Outcome(WithActive(s, RectangleSelect(sel.tool)), layer, None, None, sel.notified)
    case Line(t, src) =>
      var st := LineTool.OnMouseMove(t, layer, x, y, color, MirrorOf(s, src));
      Outcome(WithActive(s, Line(st.tool, src)), st.layer, st.pushed, None, [])
    case Rectangle(t, src) =>
      var st := RectangleTool.OnMouseMove(t, layer, x, y, color, MirrorOf(s, src));
      Outcome(WithActive(s, Rectangle(st.tool, src)), st.layer, st.pushed, None, [])
    case Blur(t) =>
      var st := BlurTool.OnMouseMove(t, layer, x, y);
      Outcome(WithActive(s, Blur(st.tool)), st.layer, st.pushed, None, [])
  }

  /** The tools that dereference the layer on pointer-up without a null
      check need one while a stroke is in progress. */
  predicate UpAllowed(s: ToolService, layer: Option<Layer>)
    requires Valid(s)
  {
    match ActiveTool(s)
    case Pencil(t) => t.Drawing? ==> layer.Some?
    case Eraser(t) => t.Erasing? ==> layer.Some?
    case Blur(t) => t.phase.Applying? ==> layer.Some?
    case _ => true
  }

  /** Pointer-up on the active tool. */
  function OnMouseUp(s: ToolService, layer: Option<Layer>, x: int, y: int, color: Color): (r: Outcome)
    requires Valid(s) && UpAllowed(s, layer)
    ensures Valid(r.service) && r.service.active == s.active && r.service.symmetry == s.symmetry
    ensures r.picked.None? && OnlyPixels(layer, r.layer)
    ensures r.pushed.Some? ==> layer.Some? && r.pushed.value.layerKey == layer.value.key
  {
    match ActiveTool(s)
    case Pencil(t) =>
      var st := PencilTool.OnMouseUp(t, layer, x, y, color);
      Outcome(WithActive(s, Pencil(st.tool)), st.layer, st.pushed, None, [])
    case Eraser(t) =>
      var st := EraserTool.OnMouseUp(t, layer);
      Outcome(WithActive(s, Eraser(st.tool)), st.layer, st.pushed, None, [])
    case Eyedropper =>
      var st := EyedropperTool.OnMouseUp(EyedropperTool.EyedropperTool, layer);
      Outcome(s, st.layer, st.pushed, None, [])
    case Fill =>
      var st := FillTool.OnMouseUp(FillTool.FillTool, layer);
      Outcome(s, st.layer, st.pushed, None, [])
    case RectangleSelect(t) =>
      var sel := RectangleSelectTool.OnMouseUp(t, x, y);
      Outcome(WithActive(s, RectangleSelect(sel.tool)), layer, None, None, sel.notified)
    case Line(t, src) =>
      var st := LineTool.OnMouseUp(t, layer, x, y, color, MirrorOf(s, src));
      Outcome(WithActive(s, Line(st.tool, src)), st.layer, st.pushed, None, [])
    case Rectangle(t, src) =>
      var st := RectangleTool.OnMouseUp(t, layer, x, y, color, MirrorOf(s, src));
      Outcome(WithActive(s, Rectangle(st.tool, src)), st.layer, st.pushed, None, [])
    case Blur(t) =>
      var st := BlurTool.OnMouseUp(t, layer);
      Outcome(WithActive(s, Blur(st.tool)), st.layer, st.pushed, None, [])
  }

  /** The Pencil draws with the service's own settings: after the mode is
      changed through the service, a pointer-down with the Pencil active
      mirrors according to the new mode. */
  lemma PencilSeesServiceSymmetry(s: ToolService, m: Symmetry.SymmetryMode, layer: Layer, x: int, y: int, color: Color)
    requires Valid(s) && ActiveTool(s).Pencil? && Editable(Some(layer))
    ensures var s' := SetSymmetry(s, m);
            OnMouseDown(s', Some(layer), x, y, color).layer
            == Some(PencilTool.DrawPixel(layer, Point(x, y), color, Some(m)))
  {
  }

  /** A Line tool draws with the settings object it was constructed with:
      with the service's object a later `SetSymmetry` reaches it, with a
      separate object (or `null`) it does not. */
  lemma LineSeesItsOwnSettings(s: ToolService, m: Symmetry.SymmetryMode, layer: Layer, x: int, y: int, color: Color)
    requires Valid(s) && ActiveTool(s).Line?
    ensures var src := ActiveTool(s).settings;
            var mirror := if src.ServiceSettings? then Some(m) else src.mode;
            OnMouseMove(SetSymmetry(s, m), Some(layer), x, y, color).layer
            == LineTool.OnMouseMove(ActiveTool(s).line, Some(layer), x, y, color, mirror).layer
  {
    var s' := SetSymmetry(s, m);
    assert ActiveTool(s') == ActiveTool(s);
    var src := ActiveTool(s).settings;
    assert MirrorOf(s', src) == if src.ServiceSettings? then Some(m) else src.mode;
  }

  /** A picked colour reaches `ColorPicked` unchanged: with the Eyedropper
      active, pointer-down on an in-bounds pixel reports exactly that pixel's
      colour, and changes neither the layer nor the history. */
  lemma PickedColorForwarded(s: ToolService, layer: Layer, x: int, y: int, color: Color)
    requires Valid(s) && ActiveTool(s).Eyedropper? && layer.bitmap.Contains(Point(x, y))
    ensures var r := OnMouseDown(s, Some(layer), x, y, color);
            r.picked == Some(Get(layer.bitmap, Point(x, y))) && r.layer == Some(layer) && r.pushed.None?
  {
  }
}
