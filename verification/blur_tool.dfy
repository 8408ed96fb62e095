/** The Blur tool (BlurTool.cs): each event replaces every in-bounds pixel
    of the (2r+1) x (2r+1) box around the cursor, in row-major order and in
    place, by the integer mean of its own in-bounds neighbourhood. */
module BlurTool {
  import opened Basics
  import opened PixelCanvas
  import opened Layers
  import opened ToolCommon
  import DrawCommands

  datatype BlurPhase = Idle | Applying(snapshot: Bitmap)

  /** `Strength` (a public, unvalidated int) with `_isApplying` and the
      snapshot. */
  datatype BlurTool = BlurTool(strength: int, phase: BlurPhase)

  const Name: string := "Blur"

  /** A fresh tool: strength 3, idle. */
  const Default: BlurTool := BlurTool(3, Idle)

  /** `Strength / 2` with C#'s division, which truncates toward zero. */
  function Radius(strength: int): (r: int)
    ensures 0 <= strength ==> 0 <= 2 * r <= strength < 2 * r + 2
    ensures strength < 0 ==> 2 * r - 2 < strength <= 2 * r <= 0
  {
    if strength >= 0 then strength / 2 else -((-strength) / 2)
  }

  /** The default strength gives radius 1; a negative odd strength of -1
      truncates to radius 0, where floor division would give -1. */
  lemma RadiusExamples()
    ensures Radius(Default.strength) == 1
    ensures Radius(-1) == 0 && Radius(-3) == -1
  {
  }

  /** The cells of row `y` from column `x` to `xHi`, left to right. */
  function RowCells(y: int, x: int, xHi: int): (ps: seq<Point>)
    ensures forall q :: q in ps <==> q.y == y && x <= q.x <= xHi
    decreases xHi - x + 1
  {
    if x > xHi then [] else [Point(x, y)] + RowCells(y, x + 1, xHi)
  }

  /** The cells of `[xLo..xHi] x [y..yHi]` in row-major order: the iteration
      order of both nested loops in the source. */
  function BoxCells(xLo: int, xHi: int, y: int, yHi: int): (ps: seq<Point>)
    ensures forall q :: q in ps <==> xLo <= q.x <= xHi && y <= q.y <= yHi
    decreases yHi - y + 1
  {
    if y > yHi then [] else RowCells(y, xLo, xHi) + BoxCells(xLo, xHi, y + 1, yHi)
  }

  /** The cells of `RowCells` run left to right. */
  lemma {:induction false} RowCellsOrdered(y: int, x: int, xHi: int)
    ensures forall i, j | 0 <= i < j < |RowCells(y, x, xHi)| :: RowCells(y, x, xHi)[i].x < RowCells(y, x, xHi)[j].x
    decreases xHi - x + 1
  {
    if x <= xHi {
      RowCellsOrdered(y, x + 1, xHi);
      var ps := RowCells(y, x, xHi);
      var rest := RowCells(y, x + 1, xHi);
      assert ps == [Point(x, y)] + rest;
      forall i, j | 0 <= i < j < |ps| ensures ps[i].x < ps[j].x {
        assert ps[j] == rest[j - 1] && ps[j] in rest;
        if i > 0 {
          assert ps[i] == rest[i - 1];
        }
      }
    }
  }

  /** `a` comes before `b` in row-major order. */
  predicate RowMajorBefore(a: Point, b: Point) {
    a.y < b.y || (a.y == b.y && a.x < b.x)
  }

  /** Every cell of `ps` comes before the later ones in row-major order. */
  ghost predicate RowMajorSorted(ps: seq<Point>) {
    forall i, j | 0 <= i < j < |ps| :: RowMajorBefore(ps[i], ps[j])
  }

  /** The cells of `BoxCells` are in strictly increasing row-major order, so
      no cell is visited twice. */
  lemma {:induction false} BoxCellsOrdered(xLo: int, xHi: int, y: int, yHi: int)
    ensures RowMajorSorted(BoxCells(xLo, xHi, y, yHi))
    decreases yHi - y + 1
  {
    if y <= yHi {
      BoxCellsOrdered(xLo, xHi, y + 1, yHi);
      RowCellsOrdered(y, xLo, xHi);
      var row := RowCells(y, xLo, xHi);
      var rest := BoxCells(xLo, xHi, y + 1, yHi);
      var ps := BoxCells(xLo, xHi, y, yHi);
      assert ps == row + rest;
      forall i, j | 0 <= i < j < |ps| ensures RowMajorBefore(ps[i], ps[j]) {
        if j < |row| {
          assert ps[i] == row[i] && ps[j] == row[j];
          assert row[i] in row && row[j] in row;
        } else if i < |row| {
          assert ps[i] == row[i] && row[i] in row;
          assert ps[j] == rest[j - |row|] && rest[j - |row|] in rest;
        } else {
          assert ps[i] == rest[i - |row|] && ps[j] == rest[j - |row|];
        }
      }
    }
  }

  /** The box of the given radius around `c`, visited in row-major order. */
  function Around(c: Point, radius: int): seq<Point> {
    BoxCells(c.x - radius, c.x + radius, c.y - radius, c.y + radius)
  }

  /** The colours of the in-bounds cells, in order. */
  function InBoundsColors(b: Bitmap, cells: seq<Point>): (cs: seq<Color>)
    ensures |cs| <= |cells|
    decreases |cells|
  {
    if |cells| == 0 then []
    else
      var rest := InBoundsColors(b, cells[1..]);
      if b.Contains(cells[0]) then [Get(b, cells[0])] + rest else rest
  }

  /** Every colour collected is the colour of an in-bounds cell, and an
      in-bounds cell among `cells` makes the collection non-empty. */
  lemma {:induction false} InBoundsColorsFacts(b: Bitmap, cells: seq<Point>, p: Point)
    ensures forall c | c in InBoundsColors(b, cells) :: exists q | q in cells :: b.Contains(q) && c == Get(b, q)
    ensures p in cells && b.Contains(p) ==> |InBoundsColors(b, cells)| >= 1
    decreases |cells|
  {
    if |cells| > 0 {
      InBoundsColorsFacts(b, cells[1..], p);
      assert forall q | q in cells[1..] :: q in cells;
      assert p in cells ==> p == cells[0] || p in cells[1..];
    }
  }

  /** Channel `k` of a colour: 0 red, 1 green, 2 blue, 3 alpha. */
  function Channel(c: Color, k: int): Byte {
    if k == 0 then c.red else if k == 1 then c.green else if k == 2 then c.blue else c.alpha
  }

  /** The sum of channel `k` over `cs`. */
  function ChannelSum(cs: seq<Color>, k: int): nat {
    if |cs| == 0 then 0 else Channel(cs[0], k) + ChannelSum(cs[1..], k)
  }

  /** Bounds on every element bound the sum. */
  lemma {:induction false} ChannelSumBounds(cs: seq<Color>, k: int, lo: int, hi: int)
    requires forall i | 0 <= i < |cs| :: lo <= Channel(cs[i], k) <= hi
    ensures lo * |cs| <= ChannelSum(cs, k) <= hi * |cs|
  {
    if |cs| > 0 {
      var tail := cs[1..];
      forall i | 0 <= i < |tail| ensures lo <= Channel(tail[i], k) <= hi {
        assert tail[i] == cs[i + 1];
      }
      ChannelSumBounds(tail, k, lo, hi);
      MulSucc(lo, |tail|);
      MulSucc(hi, |tail|);
    }
  }

  lemma MulSucc(a: int, n: nat)
    ensures a * (n + 1) == a * n + a
  {
  }

  /** A quotient of a sum bounded by `lo * n` and `hi * n` lies in `[lo..hi]`. */
  lemma DivBounds(s: nat, n: int, lo: int, hi: int)
    requires n > 0 && lo * n <= s <= hi * n
    ensures lo <= s / n <= hi
  {
    var q := s / n;
    assert s == q * n + s % n && 0 <= s % n < n;
    if q < lo {
      MulLe(q + 1, lo, n);
    }
    if q > hi {
      MulLe(hi + 1, q, n);
    }
  }

  /** Multiplying by a natural keeps the order. */
  lemma MulLe(a: int, b: int, n: nat)
    requires a <= b
    ensures a * n <= b * n
  {
    assert b * n == a * n + (b - a) * n;
  }

  /** The smallest and largest value of channel `k` over non-empty `cs`. */
  function MinChannel(cs: seq<Color>, k: int): (m: Byte)
    requires |cs| >= 1
    ensures forall i | 0 <= i < |cs| :: m <= Channel(cs[i], k)
    ensures exists i | 0 <= i < |cs| :: m == Channel(cs[i], k)
  {
    if |cs| == 1 then Channel(cs[0], k)
    else
      var m := MinChannel(cs[1..], k);
      assert forall i | 1 <= i < |cs| :: cs[i] == cs[1..][i - 1];
      if Channel(cs[0], k) <= m then Channel(cs[0], k) else m
  }

  function MaxChannel(cs: seq<Color>, k: int): (m: Byte)
    requires |cs| >= 1
    ensures forall i | 0 <= i < |cs| :: Channel(cs[i], k) <= m
    ensures exists i | 0 <= i < |cs| :: m == Channel(cs[i], k)
  {
    if |cs| == 1 then Channel(cs[0], k)
    else
      var m := MaxChannel(cs[1..], k);
      assert forall i | 1 <= i < |cs| :: cs[i] == cs[1..][i - 1];
      if Channel(cs[0], k) >= m then Channel(cs[0], k) else m
  }

  /** The truncated mean of channel `k`; it lies between the channel's
      minimum and maximum, so the source's `(byte)` cast never wraps. */
  function Mean(cs: seq<Color>, k: int): (m: Byte)
    requires |cs| >= 1
    ensures MinChannel(cs, k) <= m <= MaxChannel(cs, k)
  {
    ChannelSumBounds(cs, k, MinChannel(cs, k), MaxChannel(cs, k));
    DivBounds(ChannelSum(cs, k), |cs|, MinChannel(cs, k), MaxChannel(cs, k));
    ChannelSum(cs, k) / |cs|
  }

  /** A colour built channel by channel from the means keeps each channel
      between that channel's minimum and maximum. */
  lemma MeanInRange(cs: seq<Color>, c: Color)
    requires |cs| >= 1 && c == Color(Mean(cs, 0), Mean(cs, 1), Mean(cs, 2), Mean(cs, 3))
    ensures forall k | 0 <= k < 4 :: MinChannel(cs, k) <= Channel(c, k) <= MaxChannel(cs, k)
  {
    forall k | 0 <= k < 4 ensures MinChannel(cs, k) <= Channel(c, k) <= MaxChannel(cs, k) {
      if k == 0 {
        assert Channel(c, k) == Mean(cs, 0);
      } else if k == 1 {
        assert Channel(c, k) == Mean(cs, 1);
      } else if k == 2 {
        assert Channel(c, k) == Mean(cs, 2);
      } else {
        assert Channel(c, k) == Mean(cs, 3);
      }
    }
  }

  /** `GetBlurredColor`: the per-channel truncated mean of the in-bounds
      cells of the box around `p`. The centre is in bounds, so the divisor
      `count` is at least 1. */
  function BlurredColor(b: Bitmap, p: Point, radius: int): (c: Color)
    requires b.Contains(p) && radius >= 0
    ensures |InBoundsColors(b, Around(p, radius))| >= 1
    ensures forall k | 0 <= k < 4 ::
              Channel(c, k) == ChannelSum(InBoundsColors(b, Around(p, radius)), k)
                               / |InBoundsColors(b, Around(p, radius))|
    ensures forall k | 0 <= k < 4 ::
              MinChannel(InBoundsColors(b, Around(p, radius)), k) <= Channel(c, k)
              <= MaxChannel(InBoundsColors(b, Around(p, radius)), k)
  {
    var cells := Around(p, radius);
    assert p in cells;
    InBoundsColorsFacts(b, cells, p);
    var cs := InBoundsColors(b, cells);
    assert |cs| >= 1;
    var c := Color(Mean(cs, 0), Mean(cs, 1), Mean(cs, 2), Mean(cs, 3));
    MeanInRange(cs, c);
    MeanChannels(cs, c);
    c
  }

  /** A colour built channel by channel from the means has, in every
      channel, the channel sum divided by the count. */
  lemma MeanChannels(cs: seq<Color>, c: Color)
    requires |cs| >= 1 && c == Color(Mean(cs, 0), Mean(cs, 1), Mean(cs, 2), Mean(cs, 3))
    ensures forall k | 0 <= k < 4 :: Channel(c, k) == ChannelSum(cs, k) / |cs|
  {
    forall k | 0 <= k < 4 ensures Channel(c, k) == ChannelSum(cs, k) / |cs| {
      if k == 0 {
        assert Channel(c, k) == Mean(cs, 0);
      } else if k == 1 {
        assert Channel(c, k) == Mean(cs, 1);
      } else if k == 2 {
        assert Channel(c, k) == Mean(cs, 2);
      } else {
        assert Channel(c, k) == Mean(cs, 3);
      }
    }
  }

  /** Where every colour in the window is `c`, the mean is `c`. */
  lemma UniformMean(b: Bitmap, p: Point, radius: int, c: Color)
    requires b.Contains(p) && radius >= 0
    requires forall q :: b.Contains(q) && q in Around(p, radius) ==> Get(b, q) == c
    ensures BlurredColor(b, p, radius) == c
  {
    var cells := Around(p, radius);
    var cs := InBoundsColors(b, cells);
    UniformColors(b, cells, c);
    assert BlurredColor(b, p, radius) == Color(Mean(cs, 0), Mean(cs, 1), Mean(cs, 2), Mean(cs, 3));
    UniformMeans(cs, c);
  }

  /** The per-channel means of a uniform sequence are its colour. */
  lemma UniformMeans(cs: seq<Color>, c: Color)
    requires |cs| >= 1 && forall i | 0 <= i < |cs| :: cs[i] == c
    ensures Color(Mean(cs, 0), Mean(cs, 1), Mean(cs, 2), Mean(cs, 3)) == c
  {
    UniformChannelMean(cs, c, 0);
    UniformChannelMean(cs, c, 1);
    UniformChannelMean(cs, c, 2);
    UniformChannelMean(cs, c, 3);
  }

  lemma UniformChannelMean(cs: seq<Color>, c: Color, k: int)
    requires |cs| >= 1 && forall i | 0 <= i < |cs| :: cs[i] == c
    ensures Mean(cs, k) == Channel(c, k)
  {
    UniformMinMax(cs, c, k);
  }

  /** Where every in-bounds cell has colour `c`, every colour collected is `c`. */
  lemma {:induction false} UniformColors(b: Bitmap, cells: seq<Point>, c: Color)
    requires forall q :: b.Contains(q) && q in cells ==> Get(b, q) == c
    ensures forall i | 0 <= i < |InBoundsColors(b, cells)| :: InBoundsColors(b, cells)[i] == c
    decreases |cells|
  {
    if |cells| > 0 {
      assert forall q | q in cells[1..] :: q in cells;
      UniformColors(b, cells[1..], c);
    }
  }

  /** Over a uniform sequence the smallest and largest channel values are
      the common colour's. */
  lemma UniformMinMax(cs: seq<Color>, c: Color, k: int)
    requires |cs| >= 1 && forall i | 0 <= i < |cs| :: cs[i] == c
    ensures MinChannel(cs, k) == Channel(c, k) == MaxChannel(cs, k)
  {
  }

  /** The loops of `ApplyBlur` over `cells`, in order: each in-bounds cell
      takes the blurred colour computed from the bitmap as already updated.
      Cells not visited keep their colour. */
  function BlurCells(b: Bitmap, cells: seq<Point>, radius: int): (r: Bitmap)
    requires |cells| > 0 ==> radius >= 0
    ensures SameSize(r, b)
    ensures forall q :: q !in cells ==> Get(r, q) == Get(b, q)
    decreases |cells|
  {
    if |cells| == 0 then b
    else
      var b1 := if b.Contains(cells[0]) then Set(b, cells[0], BlurredColor(b, cells[0], radius)) else b;
      assert forall q :: q in cells[1..] ==> q in cells;
      BlurCells(b1, cells[1..], radius)
  }

  /** `ApplyBlur`: the box of radius `Strength / 2` around the cursor. A
      negative radius leaves the loops empty. */
  function ApplyBlur(b: Bitmap, center: Point, strength: int): (r: Bitmap)
    ensures SameSize(r, b)
    ensures forall q :: !(b.Contains(q) && q in Around(center, Radius(strength))) ==> Get(r, q) == Get(b, q)
    ensures Radius(strength) < 0 ==> r == b
  {
    var radius := Radius(strength);
    var cells := Around(center, radius);
    assert radius < 0 ==> cells == [];
    var r := BlurCells(b, cells, radius);
    assert forall q :: !b.Contains(q) ==> Get(r, q) == Transparent == Get(b, q);
    r
  }

  /** Blurring `cells` is blurring its first `i` cells and then the rest,
      starting from the bitmap the first part left behind. */
  lemma {:induction false} BlurCellsSplit(b: Bitmap, cells: seq<Point>, i: nat, radius: int)
    requires i <= |cells| && (|cells| > 0 ==> radius >= 0)
    ensures BlurCells(b, cells, radius) == BlurCells(BlurCells(b, cells[..i], radius), cells[i..], radius)
    decreases i
  {
    if i == 0 {
      assert cells[..0] == [] && cells[0..] == cells;
    } else {
      var b1 := if b.Contains(cells[0]) then Set(b, cells[0], BlurredColor(b, cells[0], radius)) else b;
      var head := cells[..i];
      assert head[0] == cells[0] && head[1..] == cells[1..][..i - 1];
      assert cells[1..][i - 1..] == cells[i..];
      assert BlurCells(b, head, radius) == BlurCells(b1, cells[1..][..i - 1], radius);
      assert BlurCells(b, cells, radius) == BlurCells(b1, cells[1..], radius);
      BlurCellsSplit(b1, cells[1..], i - 1, radius);
    }
  }

  /** The loops update in place: an in-bounds cell visited once ends with
      the blurred colour computed from the bitmap as the earlier cells left
      it. */
  lemma {:induction false} BlurCellsInPlace(b: Bitmap, cells: seq<Point>, i: nat, radius: int)
    requires i < |cells| && radius >= 0 && b.Contains(cells[i])
    requires forall j | i < j < |cells| :: cells[j] != cells[i]
    ensures BlurCells(b, cells[..i], radius).Contains(cells[i])
    ensures Get(BlurCells(b, cells, radius), cells[i])
            == BlurredColor(BlurCells(b, cells[..i], radius), cells[i], radius)
  {
    var before := BlurCells(b, cells[..i], radius);
    BlurCellsSplit(b, cells, i, radius);
    var p := cells[i];
    var b1 := Set(before, p, BlurredColor(before, p, radius));
    assert cells[i..][0] == p && cells[i..][1..] == cells[i + 1..];
    assert BlurCells(before, cells[i..], radius) == BlurCells(b1, cells[i + 1..], radius);
    assert p !in cells[i + 1..] by {
      var later := cells[i + 1..];
      forall j | 0 <= j < |later| ensures later[j] != p {
        assert later[j] == cells[i + 1 + j];
      }
    }
    GetAfterSet(before, p, BlurredColor(before, p, radius));
  }

  /** A cell of a strictly ordered sequence does not reappear after it. */
  lemma {:induction false} NotLater(ps: seq<Point>, i: nat)
    requires i < |ps| && RowMajorSorted(ps)
    ensures forall j | i < j < |ps| :: ps[j] != ps[i]
  {
    forall j | i < j < |ps| ensures ps[j] != ps[i] {
      assert RowMajorBefore(ps[i], ps[j]);
    }
  }

  /** `c` fills every in-bounds cell within Chebyshev distance `d` of `center`. */
  ghost predicate UniformAround(b: Bitmap, center: Point, d: int, c: Color) {
    forall q :: b.Contains(q) && center.x - d <= q.x <= center.x + d && center.y - d <= q.y <= center.y + d
                ==> Get(b, q) == c
  }

  /** Blurring cells of a uniform area changes nothing, as long as every
      visited cell's window stays inside the area. */
  lemma {:induction false} UniformBlurCells(b: Bitmap, cells: seq<Point>, radius: int, center: Point, c: Color)
    requires radius >= 0 && UniformAround(b, center, 2 * radius, c)
    requires forall q | q in cells :: center.x - radius <= q.x <= center.x + radius && center.y - radius <= q.y <= center.y + radius
    ensures BlurCells(b, cells, radius) == b
    decreases |cells|
  {
    if |cells| > 0 {
      var p := cells[0];
      if b.Contains(p) {
        UniformMean(b, p, radius, c);
        SetSameColor(b, p);
      }
      UniformBlurCells(b, cells[1..], radius, center, c);
    }
  }

  /** A uniform area stays unchanged: when every in-bounds cell within
      `2 * radius` of the cursor has one colour, blurring is the identity. */
  lemma UniformUnchanged(b: Bitmap, center: Point, strength: int, c: Color)
    requires UniformAround(b, center, 2 * Radius(strength), c)
    ensures ApplyBlur(b, center, strength) == b
  {
    if Radius(strength) >= 0 {
      UniformBlurCells(b, Around(center, Radius(strength)), Radius(strength), center, c);
    }
  }

  /** Pointer-down: ignored on a null, locked or hidden layer; otherwise
      snapshots, starts applying and blurs around the cursor. */
  function OnMouseDown(t: BlurTool, layer: Option<Layer>, x: int, y: int): (r: Step<BlurTool>)
    ensures OnlyPixels(layer, r.layer) && r.pushed.None? && r.tool.strength == t.strength
    ensures !Editable(layer) ==> r == Step(t, layer, None)
    ensures Editable(layer) ==>
              && r.tool.phase == Applying(layer.value.bitmap)
              && r.layer.value.bitmap == ApplyBlur(layer.value.bitmap, Point(x, y), t.strength)
  {
    if !Editable(layer) then Step(t, layer, None)
    else Step(t.(phase := Applying(layer.value.bitmap)),
              WithBitmap(layer, ApplyBlur(layer.value.bitmap, Point(x, y), t.strength)), None)
  }

  /** Pointer-move: blurs around the cursor only while applying on an
      editable layer. */
  function OnMouseMove(t: BlurTool, layer: Option<Layer>, x: int, y: int): (r: Step<BlurTool>)
    ensures OnlyPixels(layer, r.layer) && r.pushed.None? && r.tool == t
    ensures !(t.phase.Applying? && Editable(layer)) ==> r.layer == layer
    ensures t.phase.Applying? && Editable(layer) ==>
              r.layer.value.bitmap == ApplyBlur(layer.value.bitmap, Point(x, y), t.strength)
  {
    if t.phase.Applying? && Editable(layer) then
      Step(t, WithBitmap(layer, ApplyBlur(layer.value.bitmap, Point(x, y), t.strength)), None)
    else Step(t, layer, None)
  }

  /** Pointer-up: while applying, returns to idle and pushes one command from
      the snapshot to the current bitmap. The source dereferences the layer
      here, so it must not be null. */
  function OnMouseUp(t: BlurTool, layer: Option<Layer>): (r: Step<BlurTool>)
    requires t.phase.Applying? ==> layer.Some?
    ensures r.tool == t.(phase := Idle) && r.layer == layer
    ensures t.phase.Idle? <==> r.pushed.None?
    ensures t.phase.Applying? ==> r.pushed == Some(StrokeCommand(layer.value, t.phase.snapshot))
  {
    if t.phase.Applying? then Step(t.(phase := Idle), layer, Some(StrokeCommand(layer.value, t.phase.snapshot)))
    else Step(t, layer, None)
  }
}
