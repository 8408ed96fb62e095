/** The Fill tool (FillTool.cs): a stack-based 4-connected flood fill run
    on pointer-down, recorded as one command. */
module FillTool {
  import opened Basics
  import opened PixelCanvas
  import opened Layers
  import opened ToolCommon
  import DrawCommands

  /** The Fill tool keeps no state between events. */
  datatype FillTool = FillTool

  const Name: string := "Fill"

  /** The four neighbours of `p`, in the order the source pushes them. */
  function Neighbours(p: Point): seq<Point> {
    [Point(p.x + 1, p.y), Point(p.x - 1, p.y), Point(p.x, p.y + 1), Point(p.x, p.y - 1)]
  }

  /** The in-bounds pixels of colour `c`. */
  function ColorCells(b: Bitmap, c: Color): set<Point> {
    set p | p in b.pixels && b.pixels[p] == c
  }

  /** Writing a different colour over an in-bounds `c` pixel leaves one
      fewer `c` pixel: the loop's termination measure. */
  lemma ColorCellsShrink(b: Bitmap, p: Point, c: Color, target: Color)
    requires b.Contains(p) && Get(b, p) == c && target != c
    ensures |ColorCells(Set(b, p, target), c)| == |ColorCells(b, c)| - 1
  {
    assert ColorCells(Set(b, p, target), c) == ColorCells(b, c) - {p};
  }

  /** The loop `while (stack.Count > 0)`, the top of the stack being the
      last element: pop, skip out-of-bounds points, and on a pixel still of
      the start colour write the target and push the four neighbours. */
  function FloodLoop(b: Bitmap, start: Color, target: Color, stack: seq<Point>): (r: Bitmap)
    requires start != target
    ensures SameSize(r, b)
    decreases |ColorCells(b, start)|, |stack|
  {
    if |stack| == 0 then b
    else
      var p := stack[|stack| - 1];
      var rest := stack[..|stack| - 1];
      if !b.Contains(p) then FloodLoop(b, start, target, rest)
      else if Get(b, p) == start then
        ColorCellsShrink(b, p, start, target);
        FloodLoop(Set(b, p, target), start, target, rest + Neighbours(p))
      else FloodLoop(b, start, target, rest)
  }

  /** A 4-connected path through pixels of colour `c`. */
  ghost predicate IsPath(b: Bitmap, c: Color, path: seq<Point>) {
    && |path| >= 1
    && (forall i | 0 <= i < |path| :: b.Contains(path[i]) && Get(b, path[i]) == c)
    && (forall i | 0 <= i < |path| - 1 :: path[i + 1] in Neighbours(path[i]))
  }

  /** `q` is in the seed's region: reachable from the in-bounds `seed`
      through 4-connected pixels of the seed's colour. */
  ghost predicate InRegion(b: Bitmap, seed: Point, q: Point) {
    b.Contains(seed)
    && exists path :: IsPath(b, Get(b, seed), path) && path[0] == seed && path[|path| - 1] == q
  }

  /** A region pixel's same-coloured neighbour is in the region. */
  lemma RegionExtends(b: Bitmap, seed: Point, p: Point, n: Point)
    requires InRegion(b, seed, p) && n in Neighbours(p) && b.Contains(n) && Get(b, n) == Get(b, seed)
    ensures InRegion(b, seed, n)
  {
    var c := Get(b, seed);
    var path :| IsPath(b, c, path) && path[0] == seed && path[|path| - 1] == p;
    var path' := path + [n];
    forall i | 0 <= i < |path'| ensures b.Contains(path'[i]) && Get(b, path'[i]) == c {
      if i < |path| { assert path'[i] == path[i]; }
    }
    forall i | 0 <= i < |path'| - 1 ensures path'[i + 1] in Neighbours(path'[i]) {
      if i + 1 < |path| {
        assert path'[i] == path[i] && path'[i + 1] == path[i + 1];
      } else {
        assert path'[i] == p && path'[i + 1] == n;
      }
    }
    assert IsPath(b, c, path') && path'[0] == seed && path'[|path'| - 1] == n;
  }

  /** `n` is an in-bounds pixel still of the start colour. */
  predicate Open(b: Bitmap, start: Color, n: Point) {
    b.Contains(n) && Get(b, n) == start
  }

  /** `q` has been filled: it had the start colour and now has the target. */
  predicate Filled(b0: Bitmap, b: Bitmap, start: Color, target: Color, q: Point) {
    b.Contains(q) && Get(b0, q) == start && Get(b, q) == target
  }

  /** The loop invariant, relative to the bitmap `b0` before the fill:
      changes are fills inside the region; open stack entries lie in the
      region; every open neighbour of a filled pixel is still on the stack;
      an open seed is on the stack. */
  ghost predicate LoopInvariant(b0: Bitmap, seed: Point, target: Color, b: Bitmap, stack: seq<Point>)
    requires b0.Contains(seed)
  {
    var start := Get(b0, seed);
    && SameSize(b, b0)
    && (forall q :: Get(b, q) == Get(b0, q) || (InRegion(b0, seed, q) && Get(b, q) == target))
    && (forall i | 0 <= i < |stack| :: Open(b, start, stack[i]) ==> InRegion(b0, seed, stack[i]))
    && (forall q | Filled(b0, b, start, target, q) ::
          forall k | 0 <= k < 4 :: Open(b, start, Neighbours(q)[k]) ==> Neighbours(q)[k] in stack)
    && (Open(b, start, seed) ==> seed in stack)
  }

  /** The loop keeps its invariant and, once the stack is empty, has filled
      exactly the region. */
  lemma {:induction false} FloodLoopCorrect(b0: Bitmap, seed: Point, target: Color, b: Bitmap, stack: seq<Point>)
    requires b0.Contains(seed) && Get(b0, seed) != target
    requires LoopInvariant(b0, seed, target, b, stack)
    ensures forall q :: Get(FloodLoop(b, Get(b0, seed), target, stack), q)
                     == if InRegion(b0, seed, q) then target else Get(b0, q)
    decreases |ColorCells(b, Get(b0, seed))|, |stack|
  {
    var start := Get(b0, seed);
    if |stack| == 0 {
      forall q ensures Get(b, q) == if InRegion(b0, seed, q) then target else Get(b0, q) {
        if InRegion(b0, seed, q) {
          RegionFilled(b0, seed, target, b, q);
        }
      }
    } else {
      var p := stack[|stack| - 1];
      var rest := stack[..|stack| - 1];
      if Open(b, start, p) {
        ColorCellsShrink(b, p, start, target);
        WriteKeepsInvariant(b0, seed, target, b, stack);
        FloodLoopCorrect(b0, seed, target, Set(b, p, target), rest + Neighbours(p));
      } else {
        SkipKeepsInvariant(b0, seed, target, b, stack);
        FloodLoopCorrect(b0, seed, target, b, rest);
      }
    }
  }

  /** Popping a pixel that is out of bounds or no longer of the start colour
      keeps the invariant. */
  lemma SkipKeepsInvariant(b0: Bitmap, seed: Point, target: Color, b: Bitmap, stack: seq<Point>)
    requires b0.Contains(seed) && Get(b0, seed) != target
    requires LoopInvariant(b0, seed, target, b, stack)
    requires |stack| > 0 && !Open(b, Get(b0, seed), stack[|stack| - 1])
    ensures LoopInvariant(b0, seed, target, b, stack[..|stack| - 1])
  {
    var p := stack[|stack| - 1];
    var rest := stack[..|stack| - 1];
    assert forall n | n in stack && n != p :: n in rest by {
      assert stack == rest + [p];
    }
    forall i | 0 <= i < |rest| ensures rest[i] == stack[i] { }
  }

  /** Popping an open pixel, filling it and pushing its four neighbours keeps
      the invariant. */
  lemma WriteKeepsInvariant(b0: Bitmap, seed: Point, target: Color, b: Bitmap, stack: seq<Point>)
    requires b0.Contains(seed) && Get(b0, seed) != target
    requires LoopInvariant(b0, seed, target, b, stack)
    requires |stack| > 0 && Open(b, Get(b0, seed), stack[|stack| - 1])
    ensures var p := stack[|stack| - 1];
            LoopInvariant(b0, seed, target, Set(b, p, target), stack[..|stack| - 1] + Neighbours(p))
  {
    var start := Get(b0, seed);
    var p := stack[|stack| - 1];
    var rest := stack[..|stack| - 1];
    assert stack == rest + [p];
    assert InRegion(b0, seed, p);
    WriteStackInRegion(b0, seed, target, b, rest, p);
    WriteNeighboursPushed(b0, seed, target, b, rest, p);
  }

  /** After filling the region pixel `p` and pushing its neighbours, every
      open stack entry still lies in the region. */
  lemma WriteStackInRegion(b0: Bitmap, seed: Point, target: Color, b: Bitmap, rest: seq<Point>, p: Point)
    requires b0.Contains(seed) && Get(b0, seed) != target && SameSize(b, b0)
    requires InRegion(b0, seed, p)
    requires forall q :: Get(b, q) == Get(b0, q) || Get(b, q) == target
    requires forall i | 0 <= i < |rest| :: Open(b, Get(b0, seed), rest[i]) ==> InRegion(b0, seed, rest[i])
    ensures var b' := Set(b, p, target);
            var stack' := rest + Neighbours(p);
            forall i | 0 <= i < |stack'| :: Open(b', Get(b0, seed), stack'[i]) ==> InRegion(b0, seed, stack'[i])
  {
    var start := Get(b0, seed);
    var b' := Set(b, p, target);
    var stack' := rest + Neighbours(p);
    forall i | 0 <= i < |stack'| && Open(b', start, stack'[i]) ensures InRegion(b0, seed, stack'[i]) {
      if i >= |rest| {
        var n := stack'[i];
        assert n == Neighbours(p)[i - |rest|];
        assert n != p && Get(b, n) == start;
        assert b0.Contains(n) && Get(b0, n) == start;
        RegionExtends(b0, seed, p, n);
      } else {
        assert stack'[i] == rest[i];
      }
    }
  }

  /** After filling `p` and pushing its neighbours, every open neighbour of a
      filled pixel is on the stack. */
  lemma WriteNeighboursPushed(b0: Bitmap, seed: Point, target: Color, b: Bitmap, rest: seq<Point>, p: Point)
    requires b0.Contains(seed) && Get(b0, seed) != target
    requires forall q | Filled(b0, b, Get(b0, seed), target, q) ::
               forall k | 0 <= k < 4 :: Open(b, Get(b0, seed), Neighbours(q)[k]) ==> Neighbours(q)[k] in rest + [p]
    ensures var start := Get(b0, seed);
            var b' := Set(b, p, target);
            forall q | Filled(b0, b', start, target, q) ::
              forall k | 0 <= k < 4 :: Open(b', start, Neighbours(q)[k]) ==> Neighbours(q)[k] in rest + Neighbours(p)
  {
    var start := Get(b0, seed);
    var b' := Set(b, p, target);
    var stack' := rest + Neighbours(p);
    forall q, k | Filled(b0, b', start, target, q) && 0 <= k < 4 && Open(b', start, Neighbours(q)[k])
      ensures Neighbours(q)[k] in stack'
    {
      if q == p {
        assert Neighbours(q)[k] == stack'[|rest| + k];
      } else {
        assert Filled(b0, b, start, target, q);
        assert Neighbours(q)[k] != p;
        assert Neighbours(q)[k] in rest + [p];
      }
    }
  }

  /** With the stack empty, every region pixel has been filled: walk a path
      from the seed, each step an open neighbour of a filled pixel. */
  lemma RegionFilled(b0: Bitmap, seed: Point, target: Color, b: Bitmap, q: Point)
    requires b0.Contains(seed) && Get(b0, seed) != target
    requires LoopInvariant(b0, seed, target, b, [])
    requires InRegion(b0, seed, q)
    ensures Get(b, q) == target
  {
    var start := Get(b0, seed);
    var path :| IsPath(b0, start, path) && path[0] == seed && path[|path| - 1] == q;
    var i := 0;
    while i < |path| - 1
      invariant 0 <= i < |path|
      invariant Filled(b0, b, start, target, path[i])
    {
      var k :| 0 <= k < 4 && Neighbours(path[i])[k] == path[i + 1];
      assert !Open(b, start, Neighbours(path[i])[k]);
      i := i + 1;
    }
  }

  /** `FloodFill`: an out-of-bounds seed, or a seed already of the target
      colour, changes nothing; otherwise exactly the seed's region takes the
      target colour. */
  function FloodFill(b: Bitmap, seed: Point, target: Color): (r: Bitmap)
    ensures SameSize(r, b)
    ensures !b.Contains(seed) || Get(b, seed) == target ==> r == b
    ensures b.Contains(seed) && Get(b, seed) != target ==>
              forall q :: Get(r, q) == if InRegion(b, seed, q) then target else Get(b, q)
  {
    if !b.Contains(seed) then b
    else
      var start := Get(b, seed);
      if start == target then b
      else
        assert InRegion(b, seed, seed) by {
          assert IsPath(b, start, [seed]);
        }
        FloodLoopCorrect(b, seed, target, b, [seed]);
        FloodLoop(b, start, target, [seed])
  }

  /** No pixel outside the region changes, and every region pixel ends with
      the target colour, so the fill is idempotent. */
  lemma FloodFillIdempotent(b: Bitmap, seed: Point, target: Color)
    ensures Get(FloodFill(b, seed, target), seed) == (if b.Contains(seed) then target else Transparent)
    ensures FloodFill(FloodFill(b, seed, target), seed, target) == FloodFill(b, seed, target)
  {
    if b.Contains(seed) && Get(b, seed) != target {
      assert InRegion(b, seed, seed) by {
        assert IsPath(b, Get(b, seed), [seed]);
      }
    }
  }

  /** Pointer-down: ignored on a null, locked or hidden layer; otherwise the
      fill runs and one command from the pre-fill bitmap to the result is
      pushed, even when the fill changed nothing. */
  function OnMouseDown(t: FillTool, layer: Option<Layer>, x: int, y: int, color: Color): (r: Step<FillTool>)
    ensures OnlyPixels(layer, r.layer) && r.tool == t
    ensures !Editable(layer) ==> r == Step(t, layer, None)
    ensures Editable(layer) ==>
              && r.layer.value.bitmap == FloodFill(layer.value.bitmap, Point(x, y), color)
              && r.pushed == Some(DrawCommands.DrawCommand(layer.value.key, layer.value.bitmap, r.layer.value.bitmap))
  {
    if !Editable(layer) then Step(t, layer, None)
    else
      var l := WithBitmap(layer, FloodFill(layer.value.bitmap, Point(x, y), color));
      Step(t, l, Some(StrokeCommand(l.value, layer.value.bitmap)))
  }

  /** Pointer-move does nothing. */
  function OnMouseMove(t: FillTool, layer: Option<Layer>): (r: Step<FillTool>)
    ensures r == Step(t, layer, None)
  {
    Step(t, layer, None)
  }

  /** Pointer-up does nothing. */
  function OnMouseUp(t: FillTool, layer: Option<Layer>): (r: Step<FillTool>)
    ensures r == Step(t, layer, None)
  {
    Step(t, layer, None)
  }
}
