/** The layer-selection part of `Render` (CanvasRenderer.cs): which layers
    are drawn, in which order, and with which Skia blend mode. The drawing
    itself is not modelled. */
module CanvasRenderer {
  import opened Layers
  import opened PixelCanvas

  /** SkiaSharp's SKBlendMode values. */
  datatype SkBlendMode =
    | Clear | Src | Dst | SrcOver | DstOver | SrcIn | DstIn | SrcOut | DstOut
    | SrcATop | DstATop | Xor | Plus | Modulate | Screen | Overlay | Darken
    | Lighten | ColorDodge | ColorBurn | HardLight | SoftLight | Difference
    | Exclusion | Multiply | Hue | Saturation | Color | Luminosity

  /** `GetSkiaBlendMode`: Normal is SrcOver, Add is Plus, and every other
      mode is the Skia mode of the same name. */
  function SkiaBlendMode(m: BlendMode): (r: SkBlendMode)
    ensures m == BlendMode.Normal <==> r == SrcOver
    ensures m == BlendMode.Add <==> r == Plus
    ensures m == BlendMode.Multiply ==> r == SkBlendMode.Multiply
    ensures m == BlendMode.Screen ==> r == SkBlendMode.Screen
    ensures m == BlendMode.Overlay ==> r == SkBlendMode.Overlay
    ensures m == BlendMode.Darken ==> r == SkBlendMode.Darken
    ensures m == BlendMode.Lighten ==> r == SkBlendMode.Lighten
    ensures m == BlendMode.Difference ==> r == SkBlendMode.Difference
  {
    match m
    case Normal => SrcOver
    case Multiply => SkBlendMode.Multiply
    case Screen => SkBlendMode.Screen
    case Overlay => SkBlendMode.Overlay
    case Darken => SkBlendMode.Darken
    case Lighten => SkBlendMode.Lighten
    case Add => Plus
    case Difference => SkBlendMode.Difference
  }

  /** Different layer blend modes never map to the same Skia mode. */
  lemma SkiaBlendModeInjective(a: BlendMode, b: BlendMode)
    requires SkiaBlendMode(a) == SkiaBlendMode(b)
    ensures a == b
  {
  }

  /** The mapping reaches exactly eight Skia modes, one per layer mode, and
      never Clear, Src or any mode the layer model has no name for. */
  lemma SkiaBlendModeImage(r: SkBlendMode)
    ensures (exists m :: SkiaBlendMode(m) == r)
        <==> r in {SrcOver, SkBlendMode.Multiply, SkBlendMode.Screen, SkBlendMode.Overlay,
                   SkBlendMode.Darken, SkBlendMode.Lighten, Plus, SkBlendMode.Difference}
  {
    if r in {SrcOver, SkBlendMode.Multiply, SkBlendMode.Screen, SkBlendMode.Overlay,
             SkBlendMode.Darken, SkBlendMode.Lighten, Plus, SkBlendMode.Difference} {
      var m := match r
        case SrcOver => BlendMode.Normal
        case Multiply => BlendMode.Multiply
        case Screen => BlendMode.Screen
        case Overlay => BlendMode.Overlay
        case Darken => BlendMode.Darken
        case Lighten => BlendMode.Lighten
        case Plus => BlendMode.Add
        case _ => BlendMode.Difference;
      assert SkiaBlendMode(m) == r;
    }
  }

  /** A layer is drawn when it is visible and its opacity is positive. */
  predicate Drawn(l: Layer) {
    l.isVisible && l.opacity > 0.0
  }

  /** The indices below `n` of the drawn layers, from the highest index down:
      the order of `layers.Reverse()`. */
  function DrawOrderBelow(layers: seq<Layer>, n: nat): (r: seq<nat>)
    requires n <= |layers|
    ensures forall k | 0 <= k < |r| :: r[k] < n && Drawn(layers[r[k]])
    ensures forall k, l | 0 <= k < l < |r| :: r[k] > r[l]
    ensures forall i | 0 <= i < n && Drawn(layers[i]) :: i in r
  {
    if n == 0 then []
    else
      var rest := DrawOrderBelow(layers, n - 1);
      if Drawn(layers[n - 1]) then [n - 1] + rest else rest
  }

  /** The indices of the layers `Render` draws, in drawing order: exactly the
      drawn layers, the highest index first, so index 0 is drawn last. */
  function DrawOrder(layers: seq<Layer>): (r: seq<nat>)
    ensures forall k | 0 <= k < |r| :: r[k] < |layers| && Drawn(layers[r[k]])
    ensures forall k, l | 0 <= k < l < |r| :: r[k] > r[l]
    ensures forall i | 0 <= i < |layers| :: Drawn(layers[i]) <==> i in r
  {
    DrawOrderBelow(layers, |layers|)
  }

  /** When the top layer (index 0) is drawn, it is drawn last, over all the
      others. */
  lemma TopLayerDrawnLast(layers: seq<Layer>)
    requires |layers| >= 1 && Drawn(layers[0])
    ensures |DrawOrder(layers)| >= 1 && DrawOrder(layers)[|DrawOrder(layers)| - 1] == 0
  {
    var r := DrawOrder(layers);
    assert 0 in r;
    var k :| 0 <= k < |r| && r[k] == 0;
  }

  /** One `DrawBitmap` call: the layer's bitmap, its opacity (turned into the
      paint's alpha by Skia) and the mapped blend mode. */
  datatype DrawCall = DrawCall(bitmap: Bitmap, opacity: real, blend: SkBlendMode)

  /** The call that draws layer `l`. */
  function CallOf(l: Layer): DrawCall {
    DrawCall(l.bitmap, l.opacity, SkiaBlendMode(l.blendMode))
  }

  /** The number of drawn layers among the indices `[lo..hi)`. */
  function CountDrawn(layers: seq<Layer>, lo: nat, hi: nat): nat
    requires lo <= hi <= |layers|
    decreases hi
  {
    if hi == lo then 0 else CountDrawn(layers, lo, hi - 1) + (if Drawn(layers[hi - 1]) then 1 else 0)
  }

  /** Counting over `[lo..hi)` is counting over `[lo..m)` and `[m..hi)`. */
  lemma {:induction false} CountDrawnSplit(layers: seq<Layer>, lo: nat, m: nat, hi: nat)
    requires lo <= m <= hi <= |layers|
    ensures CountDrawn(layers, lo, hi) == CountDrawn(layers, lo, m) + CountDrawn(layers, m, hi)
    decreases hi
  {
    if hi > m {
      CountDrawnSplit(layers, lo, m, hi - 1);
    }
  }

  /** The place of drawn layer `i` among the draw calls: one after each drawn
      layer with a higher index. */
  function Position(layers: seq<Layer>, i: nat): nat
    requires i < |layers|
  {
    CountDrawn(layers, i + 1, |layers|)
  }

  /** `DrawOrderBelow(layers, n)` holds one entry per drawn index below `n`. */
  lemma {:induction false} DrawOrderBelowLength(layers: seq<Layer>, n: nat)
    requires n <= |layers|
    ensures |DrawOrderBelow(layers, n)| == CountDrawn(layers, 0, n)
    decreases n
  {
    if n > 0 {
      DrawOrderBelowLength(layers, n - 1);
    }
  }

  /** In `DrawOrderBelow(layers, n)` the drawn index `i` sits right after
      the drawn indices in `(i..n)`. */
  lemma {:induction false} DrawOrderBelowPosition(layers: seq<Layer>, n: nat, i: nat)
    requires i < n <= |layers| && Drawn(layers[i])
    ensures CountDrawn(layers, i + 1, n) < |DrawOrderBelow(layers, n)|
    ensures DrawOrderBelow(layers, n)[CountDrawn(layers, i + 1, n)] == i
    decreases n
  {
    var r := DrawOrderBelow(layers, n);
    var rest := DrawOrderBelow(layers, n - 1);
    if i == n - 1 {
      assert CountDrawn(layers, n, n) == 0;
      assert r == [n - 1] + rest;
      assert r[0] == i;
    } else {
      DrawOrderBelowPosition(layers, n - 1, i);
      var c := CountDrawn(layers, i + 1, n - 1);
      assert rest[c] == i;
      if Drawn(layers[n - 1]) {
        assert CountDrawn(layers, i + 1, n) == c + 1;
        assert r == [n - 1] + rest;
        assert r[c + 1] == i;
      } else {
        assert CountDrawn(layers, i + 1, n) == c;
        assert r == rest;
      }
    }
  }

  /** The draw calls `Render` issues, in order: one per visible layer with
      positive opacity, and nothing for any other layer. The call for drawn
      layer `i` comes after the calls for every drawn layer with a higher
      index, so higher layers in the list are painted first. */
  function DrawCalls(layers: seq<Layer>): (r: seq<DrawCall>)
    ensures |r| == CountDrawn(layers, 0, |layers|)
    ensures forall i | 0 <= i < |layers| && Drawn(layers[i]) ::
              Position(layers, i) < |r| && r[Position(layers, i)] == CallOf(layers[i])
  {
    var order := DrawOrder(layers);
    DrawOrderBelowLength(layers, |layers|);
    forall i | 0 <= i < |layers| && Drawn(layers[i])
      ensures Position(layers, i) < |order| && order[Position(layers, i)] == i
    {
      DrawOrderBelowPosition(layers, |layers|, i);
    }
    seq(|order|, k requires 0 <= k < |order| => CallOf(layers[order[k]]))
  }

  /** Of two drawn layers, the one with the higher index is drawn first. */
  lemma HigherLayerDrawnFirst(layers: seq<Layer>, i: nat, j: nat)
    requires i < j < |layers| && Drawn(layers[i]) && Drawn(layers[j])
    ensures Position(layers, j) < Position(layers, i)
  {
    CountDrawnSplit(layers, i + 1, j, |layers|);
    CountDrawnSplit(layers, j, j + 1, |layers|);
    assert CountDrawn(layers, j, j + 1) == 1;
  }

  /** Distinct drawn layers take distinct places, so no call is shared. */
  lemma PositionsDistinct(layers: seq<Layer>, i: nat, j: nat)
    requires i < |layers| && j < |layers| && Drawn(layers[i]) && Drawn(layers[j])
    requires Position(layers, i) == Position(layers, j)
    ensures i == j
  {
    if i < j {
      HigherLayerDrawnFirst(layers, i, j);
    } else if j < i {
      HigherLayerDrawnFirst(layers, j, i);
    }
  }

  /** Hiding a layer, or setting its opacity to zero, removes exactly that
      layer from the drawing order. */
  lemma HidingRemovesOnlyThatLayer(layers: seq<Layer>, i: nat, l: Layer)
    requires i < |layers| && !Drawn(l)
    ensures forall j | 0 <= j < |layers| ::
              (j in DrawOrder(layers[i := l]) <==> j != i && j in DrawOrder(layers))
  {
    var hidden := layers[i := l];
    forall j | 0 <= j < |layers|
      ensures j in DrawOrder(hidden) <==> j != i && j in DrawOrder(layers)
    {
      assert j in DrawOrder(hidden) <==> Drawn(hidden[j]);
      assert j in DrawOrder(layers) <==> Drawn(layers[j]);
    }
  }
}
