/** A layer: a bitmap plus display attributes (Layer.cs). */
module Layers {
  import opened Basics
  import opened PixelCanvas

  /** How a layer is combined with the layers below it. */
  datatype BlendMode = Normal | Multiply | Screen | Overlay | Darken | Lighten | Add | Difference

  /** Every blend mode, in declaration order. */
  const AllBlendModes: seq<BlendMode> :=
    [Normal, Multiply, Screen, Overlay, Darken, Lighten, Add, Difference]

  /** A layer. `key` stands for the object's identity: the source compares
      layers by reference, and the layer stack hands out distinct keys.
      `opacity` is a C# double, stored without validation. */
  datatype Layer = Layer(
    key: nat,
    name: string,
    isVisible: bool,
    opacity: real,
    blendMode: BlendMode,
    isLocked: bool,
    bitmap: Bitmap)

  /** The constructor: the given name, default attributes, and a transparent
      width x height bitmap. */
  function NewLayer(key: nat, width: nat, height: nat, name: string): (l: Layer)
    ensures l.key == key && l.name == name
    ensures l.isVisible && l.opacity == 1.0 && l.blendMode == Normal && !l.isLocked
    ensures l.bitmap.width == width && l.bitmap.height == height
    ensures forall p :: Get(l.bitmap, p) == Transparent
  {
    Layer(key, name, true, 1.0, Normal, false, New(width, height))
  }

  /** One property assignment through a public setter. */
  datatype Assignment =
    | AssignName(name: string)
    | AssignIsVisible(visible: bool)
    | AssignOpacity(opacity: real)
    | AssignBlendMode(mode: BlendMode)
    | AssignIsLocked(locked: bool)
    | AssignBitmap(bitmap: Bitmap)

  /** The property name a setter reports in its change notification. */
  function PropertyName(a: Assignment): string {
    match a
    case AssignName(_) => "Name"
    case AssignIsVisible(_) => "IsVisible"
    case AssignOpacity(_) => "Opacity"
    case AssignBlendMode(_) => "BlendMode"
    case AssignIsLocked(_) => "IsLocked"
    case AssignBitmap(_) => "Bitmap"
  }

  /** True when `l` already holds the value `a` would store. */
  predicate Holds(l: Layer, a: Assignment) {
    match a
    case AssignName(v) => l.name == v
    case AssignIsVisible(v) => l.isVisible == v
    case AssignOpacity(v) => l.opacity == v
    case AssignBlendMode(v) => l.blendMode == v
    case AssignIsLocked(v) => l.isLocked == v
    case AssignBitmap(v) => l.bitmap == v
  }

  /** True when `a` and `b` agree on every attribute except the one `asg` assigns. */
  predicate AgreeExcept(a: Layer, b: Layer, asg: Assignment) {
    && a.key == b.key
    && (asg.AssignName? || a.name == b.name)
    && (asg.AssignIsVisible? || a.isVisible == b.isVisible)
    && (asg.AssignOpacity? || a.opacity == b.opacity)
    && (asg.AssignBlendMode? || a.blendMode == b.blendMode)
    && (asg.AssignIsLocked? || a.isLocked == b.isLocked)
    && (asg.AssignBitmap? || a.bitmap == b.bitmap)
  }

  /** A setter: stores the value unconditionally, with no validation, and
      raises exactly one change notification naming the property (even when
      the value did not change). The result pairs the new layer with the
      notifications raised. */
  function Assign(l: Layer, a: Assignment): (r: (Layer, seq<string>))
    ensures Holds(r.0, a)
    ensures AgreeExcept(l, r.0, a)
    ensures r.1 == [PropertyName(a)]
  {
    var l' := match a
      case AssignName(v) => l.(name := v)
      case AssignIsVisible(v) => l.(isVisible := v)
      case AssignOpacity(v) => l.(opacity := v)
      case AssignBlendMode(v) => l.(blendMode := v)
      case AssignIsLocked(v) => l.(isLocked := v)
      case AssignBitmap(v) => l.(bitmap := v);
    (l', [PropertyName(a)])
  }

  /** Assigning the value a layer already holds leaves it unchanged but still
      raises a notification. */
  lemma AssignSameValue(l: Layer, a: Assignment)
    requires Holds(l, a)
    ensures Assign(l, a).0 == l
    ensures |Assign(l, a).1| == 1
  {
  }

  /** The eight blend modes are distinct and there are no others. */
  lemma BlendModesComplete(m: BlendMode)
    ensures m in AllBlendModes
    ensures |AllBlendModes| == 8
    ensures forall i, j | 0 <= i < j < |AllBlendModes| :: AllBlendModes[i] != AllBlendModes[j]
  {
  }
}
