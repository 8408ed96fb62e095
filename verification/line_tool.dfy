/** The Line tool (LineTool.cs): pointer-down fixes the anchor, each move
    restores the snapshot and previews a Bresenham line to the cursor, and
    pointer-up draws the final line over the current bitmap and records one
    command. */
module LineTool {
  import opened Basics
  import opened PixelCanvas
  import opened Layers
  import opened ToolCommon
  import Symmetry
  import DrawCommands

  /** `_isDrawing` with the anchor (`_startX`, `_startY`) and the snapshot. */
  datatype LineTool = Idle | Drawing(anchor: Point, snapshot: Bitmap)

  const Name: string := "Line"

  function Abs(n: int): nat {
    if n < 0 then -n else n
  }

  /** Distance still to go to `target`, summed over both axes. */
  function Remaining(p: Point, target: Point): nat {
    Abs(target.x - p.x) + Abs(target.y - p.y)
  }

  /** Consecutive plotted points: at most one unit apart on each axis, never
      farther from the target on either axis, and strictly closer in all. */
  predicate StepToward(p: Point, q: Point, target: Point) {
    && Abs(q.x - p.x) <= 1 && Abs(q.y - p.y) <= 1
    && Abs(target.x - q.x) <= Abs(target.x - p.x)
    && Abs(target.y - q.y) <= Abs(target.y - p.y)
    && Remaining(q, target) < Remaining(p, target)
  }

  /** The state of the Bresenham loop at the top of an iteration: the steps
      point toward the target, the distance left on each axis is within the
      full run, and the error term equals its closed form in the distances
      already covered. */
  ghost predicate LoopState(p: Point, target: Point, dx: nat, dy: nat, sx: int, sy: int, err: int) {
    && (sx == 1 || sx == -1) && (sy == 1 || sy == -1)
    && (sx == 1 ==> p.x <= target.x) && (sx == -1 ==> p.x >= target.x)
    && (sy == 1 ==> p.y <= target.y) && (sy == -1 ==> p.y >= target.y)
    && Abs(target.x - p.x) <= dx && Abs(target.y - p.y) <= dy
    && err == dx - dy + Abs(target.x - p.x) * dy - Abs(target.y - p.y) * dx
  }

  /** For naturals, `a >= 1` gives `a * m >= m`. */
  lemma MulAtLeast(a: nat, m: nat)
    requires a >= 1
    ensures a * m >= m
  {
    assert a * m == (a - 1) * m + m;
  }

  /** Whether one iteration steps along x, and whether along y: `e2 > -dy`
      and `e2 < dx` with `e2 = 2 * err`. */
  predicate StepsX(dy: nat, err: int) {
    2 * err > -(dy as int)
  }

  predicate StepsY(dx: nat, err: int) {
    2 * err < dx
  }

  /** The point one iteration moves to. */
  function NextPoint(p: Point, dx: nat, dy: nat, sx: int, sy: int, err: int): Point {
    Point(if StepsX(dy, err) then p.x + sx else p.x, if StepsY(dx, err) then p.y + sy else p.y)
  }

  /** The error term after one iteration. */
  function NextErr(dx: nat, dy: nat, err: int): int {
    err - (if StepsX(dy, err) then dy else 0) + (if StepsY(dx, err) then dx else 0)
  }

  /** One iteration of the loop, away from the target, moves at least one
      axis one step toward it, and keeps the loop state. */
  lemma LoopStep(p: Point, target: Point, dx: nat, dy: nat, sx: int, sy: int, err: int)
    requires LoopState(p, target, dx, dy, sx, sy, err) && p != target
    ensures StepsX(dy, err) || StepsY(dx, err)
    ensures LoopState(NextPoint(p, dx, dy, sx, sy, err), target, dx, dy, sx, sy, NextErr(dx, dy, err))
    ensures StepToward(p, NextPoint(p, dx, dy, sx, sy, err), target)
  {
    var a := Abs(target.x - p.x);
    var b := Abs(target.y - p.y);
    StepGuards(a, b, dx, dy, err);
    var q := NextPoint(p, dx, dy, sx, sy, err);
    if StepsX(dy, err) {
      assert Abs(target.x - q.x) == a - 1;
      MulPred(a, dy);
    } else {
      assert q.x == p.x;
    }
    if StepsY(dx, err) {
      assert Abs(target.y - q.y) == b - 1;
      MulPred(b, dx);
    } else {
      assert q.y == p.y;
    }
  }

  /** The guards in terms of the distances `a` and `b` still to go: some
      axis steps, and an axis steps only when there is distance left on it. */
  lemma StepGuards(a: nat, b: nat, dx: nat, dy: nat, err: int)
    requires a <= dx && b <= dy && (a > 0 || b > 0)
    requires err == dx - dy + a * dy - b * dx
    ensures StepsX(dy, err) || StepsY(dx, err)
    ensures StepsX(dy, err) ==> a >= 1
    ensures StepsY(dx, err) ==> b >= 1
  {
    if a == 0 {
      MulAtLeast(b, dx);
    }
    if b == 0 {
      MulAtLeast(a, dy);
    }
  }

  /** For naturals, `a >= 1` gives `(a - 1) * m == a * m - m`. */
  lemma MulPred(a: nat, m: nat)
    requires a >= 1
    ensures (a - 1) * m == a * m - m
  {
  }

  /** The points `DrawLine` plots, from the loop state at `p` onward: the
      point itself, then, unless it is the target, one more iteration. */
  function LineFrom(p: Point, target: Point, dx: nat, dy: nat, sx: int, sy: int, err: int): (ps: seq<Point>)
    requires LoopState(p, target, dx, dy, sx, sy, err)
    ensures |ps| >= 1 && ps[0] == p && ps[|ps| - 1] == target
    ensures forall i | 0 <= i < |ps| - 1 :: StepToward(ps[i], ps[i + 1], target)
    decreases Remaining(p, target)
  {
    if p == target then [p]
    else
      LoopStep(p, target, dx, dy, sx, sy, err);
      var rest := LineFrom(NextPoint(p, dx, dy, sx, sy, err), target, dx, dy, sx, sy, NextErr(dx, dy, err));
      assert forall i | 1 <= i < |rest| + 1 :: ([p] + rest)[i] == rest[i - 1];
      [p] + rest
  }

  /** The points `DrawLine(x0, y0, x1, y1)` plots, in order. */
  function Line(from: Point, to: Point): (ps: seq<Point>)
    ensures |ps| >= 1 && ps[0] == from && ps[|ps| - 1] == to
    ensures forall i | 0 <= i < |ps| - 1 :: StepToward(ps[i], ps[i + 1], to)
  {
    var dx := Abs(to.x - from.x);
    var dy := Abs(to.y - from.y);
    var sx := if from.x < to.x then 1 else -1;
    var sy := if from.y < to.y then 1 else -1;
    LineFrom(from, to, dx, dy, sx, sy, dx - dy)
  }

  /** A plotted line never repeats a point: every step strictly closes in. */
  lemma LineVisitsEachPointOnce(from: Point, to: Point, i: int, j: int)
    requires 0 <= i < j < |Line(from, to)|
    ensures Line(from, to)[i] != Line(from, to)[j]
  {
    var ps := Line(from, to);
    var k := i;
    while k < j
      invariant i <= k <= j
      invariant Remaining(ps[k], to) <= Remaining(ps[i], to) - (k - i)
    {
      assert StepToward(ps[k], ps[k + 1], to);
      k := k + 1;
    }
  }

  /** Every plotted point is at least as close to the end, on each axis, as
      the start is: the line never leaves the box its end points span. */
  lemma LineStaysInBox(from: Point, to: Point, i: int)
    requires 0 <= i < |Line(from, to)|
    ensures Abs(to.x - Line(from, to)[i].x) <= Abs(to.x - from.x)
    ensures Abs(to.y - Line(from, to)[i].y) <= Abs(to.y - from.y)
  {
    var ps := Line(from, to);
    var k := 0;
    while k < i
      invariant 0 <= k <= i
      invariant Abs(to.x - ps[k].x) <= Abs(to.x - from.x)
      invariant Abs(to.y - ps[k].y) <= Abs(to.y - from.y)
    {
      assert StepToward(ps[k], ps[k + 1], to);
      k := k + 1;
    }
  }

  /** A line from a point to itself is that one point. */
  lemma LineToSelf(p: Point)
    ensures Line(p, p) == [p]
  {
  }

  /** `DrawLine`: the line's points and their mirrors take the colour. */
  function DrawLine(b: Bitmap, symmetry: Option<Symmetry.SymmetryMode>, from: Point, to: Point, color: Color): (r: Bitmap)
    ensures SameSize(r, b)
    ensures Get(r, from) == (if b.Contains(from) then color else Transparent)
    ensures Get(r, to) == (if b.Contains(to) then color else Transparent)
    ensures forall q :: Get(r, q)
                     == if Symmetry.Covered(Symmetry.Effective(symmetry), b.width, b.height, Line(from, to), q)
                        then color else Get(b, q)
  {
    var ps := Line(from, to);
    var r := Symmetry.PlotAll(b, symmetry, ps, color);
    var m := Symmetry.Effective(symmetry);
    assert b.Contains(from) ==> Symmetry.Covered(m, b.width, b.height, ps, from) by {
      if b.Contains(from) {
        assert InBounds(b.width, b.height, ps[0]) && Symmetry.Mirrors(m, b.width, b.height, ps[0], from);
      }
    }
    assert b.Contains(to) ==> Symmetry.Covered(m, b.width, b.height, ps, to) by {
      if b.Contains(to) {
        assert InBounds(b.width, b.height, ps[|ps| - 1]) && Symmetry.Mirrors(m, b.width, b.height, ps[|ps| - 1], to);
      }
    }
    r
  }

  /** Pointer-down: ignored on a null, locked or hidden layer; otherwise
      records the anchor and snapshot and draws nothing. */
  function OnMouseDown(t: LineTool, layer: Option<Layer>, x: int, y: int): (r: Step<LineTool>)
    ensures r.layer == layer && r.pushed.None?
    ensures !Editable(layer) ==> r.tool == t
    ensures Editable(layer) ==> r.tool == Drawing(Point(x, y), layer.value.bitmap)
  {
    if !Editable(layer) then Step(t, layer, None)
    else Step(Drawing(Point(x, y), layer.value.bitmap), layer, None)
  }

  /** Pointer-move: while drawing on an editable layer, the bitmap is cleared,
      the snapshot drawn back, and the line from the anchor to the cursor
      drawn over it; otherwise nothing happens. */
  function OnMouseMove(t: LineTool, layer: Option<Layer>, x: int, y: int, color: Color,
                       symmetry: Option<Symmetry.SymmetryMode>): (r: Step<LineTool>)
    ensures OnlyPixels(layer, r.layer) && r.pushed.None? && r.tool == t
    ensures !(t.Drawing? && Editable(layer)) ==> r.layer == layer
    ensures t.Drawing? && Editable(layer) ==>
              r.layer.value.bitmap
              == DrawLine(DrawCommands.Restore(layer.value.bitmap, t.snapshot), symmetry, t.anchor, Point(x, y), color)
  {
    if !(t.Drawing? && Editable(layer)) then Step(t, layer, None)
    else
      var b := DrawCommands.Restore(layer.value.bitmap, t.snapshot);
      Step(t, WithBitmap(layer, DrawLine(b, symmetry, t.anchor, Point(x, y), color)), None)
  }

  /** Pointer-up: while drawing on an editable layer, the final line is drawn
      over the current bitmap (no restore), the tool goes idle and one
      command from the snapshot is pushed; otherwise nothing happens and the
      tool stays as it was. */
  function OnMouseUp(t: LineTool, layer: Option<Layer>, x: int, y: int, color: Color,
                     symmetry: Option<Symmetry.SymmetryMode>): (r: Step<LineTool>)
    ensures OnlyPixels(layer, r.layer)
    ensures !(t.Drawing? && Editable(layer)) ==> r == Step(t, layer, None)
    ensures t.Drawing? && Editable(layer) ==>
              && r.tool == Idle
              && r.layer.value.bitmap == DrawLine(layer.value.bitmap, symmetry, t.anchor, Point(x, y), color)
              && r.pushed == Some(StrokeCommand(r.layer.value, t.snapshot))
  {
    if !(t.Drawing? && Editable(layer)) then Step(t, layer, None)
    else
      var l := WithBitmap(layer, DrawLine(layer.value.bitmap, symmetry, t.anchor, Point(x, y), color));
      Step(Idle, l, Some(StrokeCommand(l.value, t.snapshot)))
  }

  /** The preview after a move does not depend on what the layer held before
      the move: two layers that differ only in their pixels give the same
      result. */
  lemma MovePreviewIgnoresContent(t: LineTool, l1: Layer, l2: Layer, x: int, y: int, color: Color,
                                  symmetry: Option<Symmetry.SymmetryMode>)
    requires t.Drawing? && Editable(Some(l1))
    requires l2 == l1.(bitmap := l2.bitmap) && SameSize(l1.bitmap, l2.bitmap)
    ensures OnMouseMove(t, Some(l1), x, y, color, symmetry) == OnMouseMove(t, Some(l2), x, y, color, symmetry)
  {
    DrawCommands.RestoreIgnoresContent(l1.bitmap, l2.bitmap, t.snapshot);
  }

  /** On a layer of the snapshot's size, a move shows exactly the snapshot
      with the line from the anchor to the cursor drawn on it. */
  lemma MoveShowsSnapshotPlusLine(t: LineTool, layer: Layer, x: int, y: int, color: Color,
                                  symmetry: Option<Symmetry.SymmetryMode>)
    requires t.Drawing? && Editable(Some(layer)) && SameSize(layer.bitmap, t.snapshot)
    ensures OnMouseMove(t, Some(layer), x, y, color, symmetry).layer.value.bitmap
         == DrawLine(t.snapshot, symmetry, t.anchor, Point(x, y), color)
  {
    DrawCommands.RestoreSameSize(layer.bitmap, t.snapshot);
  }

  /** Drawing the same line twice is drawing it once. */
  lemma DrawLineIdempotent(b: Bitmap, symmetry: Option<Symmetry.SymmetryMode>, from: Point, to: Point, color: Color)
    ensures DrawLine(DrawLine(b, symmetry, from, to, color), symmetry, from, to, color)
         == DrawLine(b, symmetry, from, to, color)
  {
    var once := DrawLine(b, symmetry, from, to, color);
    Extensionality(DrawLine(once, symmetry, from, to, color), once);
  }

  /** Releasing where the last move was commits exactly the previewed line:
      the recorded "after" is the snapshot with that one line drawn. */
  lemma UpAtLastMoveCommitsPreview(t: LineTool, layer: Layer, x: int, y: int, color: Color,
                                   symmetry: Option<Symmetry.SymmetryMode>)
    requires t.Drawing? && Editable(Some(layer)) && SameSize(layer.bitmap, t.snapshot)
    ensures var m := OnMouseMove(t, Some(layer), x, y, color, symmetry);
            var u := OnMouseUp(m.tool, m.layer, x, y, color, symmetry);
            var line := DrawLine(t.snapshot, symmetry, t.anchor, Point(x, y), color);
            u.pushed == Some(DrawCommands.DrawCommand(layer.key, t.snapshot, line))
  {
    MoveShowsSnapshotPlusLine(t, layer, x, y, color, symmetry);
    DrawLineIdempotent(t.snapshot, symmetry, t.anchor, Point(x, y), color);
  }

  /** Releasing somewhere other than the last move keeps the stale preview:
      after a move to an in-bounds `p` that lies farther (horizontally) from
      the release point `q` than the anchor does, `p` stays painted although
      the committed line from the anchor to `q` never reaches it. Anchored at
      (0,0), a move to (3,0) and a release at (0,3) is such a case. */
  lemma UpElsewhereKeepsStalePreview(layer: Layer, color: Color, anchor: Point, p: Point, q: Point)
    requires Editable(Some(layer)) && layer.bitmap.Contains(p)
    requires Abs(q.x - p.x) > Abs(q.x - anchor.x)
    ensures var d := OnMouseDown(Idle, Some(layer), anchor.x, anchor.y);
            var m := OnMouseMove(d.tool, d.layer, p.x, p.y, color, None);
            var u := OnMouseUp(m.tool, m.layer, q.x, q.y, color, None);
            && p !in Line(anchor, q)
            && Get(u.layer.value.bitmap, p) == color
  {
    var d := OnMouseDown(Idle, Some(layer), anchor.x, anchor.y);
    var m := OnMouseMove(d.tool, d.layer, p.x, p.y, color, None);
    var restored := DrawCommands.Restore(layer.bitmap, layer.bitmap);
    assert restored.Contains(p);
    var preview := m.layer.value.bitmap;
    assert Get(preview, p) == color;
    OffLine(anchor, q, p);
  }

  /** A point farther from `to` along x than `from` is lies off the line. */
  lemma OffLine(from: Point, to: Point, p: Point)
    requires Abs(to.x - p.x) > Abs(to.x - from.x)
    ensures p !in Line(from, to)
  {
    var ps := Line(from, to);
    forall k | 0 <= k < |ps| ensures ps[k] != p {
      LineStaysInBox(from, to, k);
    }
  }
}
