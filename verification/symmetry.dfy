/** Symmetry settings (SymmetrySettings.cs) and the mirrored pixel write that
    the Pencil, Line and Rectangle tools share. */
module Symmetry {
  import Basics
  import opened PixelCanvas

  type Point = Basics.Point
  type Option<T> = Basics.Option<T>

  datatype SymmetryMode = None | Horizontal | Vertical | Both

  /** Every symmetry mode, in declaration order. */
  const AllModes: seq<SymmetryMode> := [None, Horizontal, Vertical, Both]

  /** A settings object. The tool service owns one and hands it to the
      Pencil; a Line or Rectangle tool is given one by whoever builds it. */
  datatype SymmetrySettings = SymmetrySettings(mode: SymmetryMode)

  /** A fresh settings object: no symmetry. */
  const DefaultSettings: SymmetrySettings := SymmetrySettings(None)

  /** The `Mode` setter: stores the value and raises one notification only
      when it differs from the current mode. The result pairs the new settings
      with the number of notifications raised. */
  function SetMode(s: SymmetrySettings, m: SymmetryMode): (r: (SymmetrySettings, nat))
    ensures r.0.mode == m
    ensures r.1 <= 1
    ensures r.1 == 0 <==> r.0 == s
  {
    if s.mode != m then (SymmetrySettings(m), 1) else (s, 0)
  }

  /** Setting a mode twice raises at most one notification in all, and the
      second call changes nothing. */
  lemma SetModeIdempotent(s: SymmetrySettings, m: SymmetryMode)
    ensures SetMode(SetMode(s, m).0, m) == (SetMode(s, m).0, 0)
    ensures SetMode(s, m).1 + SetMode(SetMode(s, m).0, m).1 <= 1
  {
  }

  /** The four modes are distinct and there are no others. */
  lemma ModesComplete(m: SymmetryMode)
    ensures m in AllModes
    ensures |AllModes| == 4
    ensures forall i, j | 0 <= i < j < |AllModes| :: AllModes[i] != AllModes[j]
  {
  }

  /** A tool built without a settings object behaves as mode None. */
  function Effective(settings: Option<SymmetryMode>): SymmetryMode {
    if settings.Some? then settings.value else None
  }

  predicate MirrorsX(m: SymmetryMode) {
    m == Horizontal || m == Both
  }

  predicate MirrorsY(m: SymmetryMode) {
    m == Vertical || m == Both
  }

  /** The pixels one primary write at `p` may touch: `p` itself, the mirror
      across the vertical centre line (x -> width-1-x), the mirror across the
      horizontal centre line (y -> height-1-y), and for Both the diagonal one. */
  ghost predicate Mirrors(m: SymmetryMode, width: int, height: int, p: Point, q: Point) {
    || q == p
    || (MirrorsX(m) && q == Basics.Point(width - 1 - p.x, p.y))
    || (MirrorsY(m) && q == Basics.Point(p.x, height - 1 - p.y))
    || (m == Both && q == Basics.Point(width - 1 - p.x, height - 1 - p.y))
  }

  /** The points written for a primary point, in the order the tools write
      them. An out-of-bounds primary point writes nothing, mirrors included;
      each mirror carries its own bounds check. */
  function Writes(settings: Option<SymmetryMode>, width: int, height: int, p: Point): seq<Point> {
    if !InBounds(width, height, p) then []
    else
      var m := Effective(settings);
      var mx := width - 1 - p.x;
      var my := height - 1 - p.y;
      [p]
      + (if MirrorsX(m) && 0 <= mx < width then [Basics.Point(mx, p.y)] else [])
      + (if MirrorsY(m) && 0 <= my < height then [Basics.Point(p.x, my)] else [])
      + (if m == Both && 0 <= mx < width && 0 <= my < height then [Basics.Point(mx, my)] else [])
  }

  /** The mirror images of an in-bounds point are in bounds, so the mirror
      bounds checks never drop a write. */
  lemma WritesAreMirrors(settings: Option<SymmetryMode>, width: int, height: int, p: Point, q: Point)
    ensures q in Writes(settings, width, height, p)
        <==> InBounds(width, height, p) && Mirrors(Effective(settings), width, height, p, q)
  {
  }

  /** One symmetric pixel write: `p` and its mirrors become `c`, nothing else
      changes. */
  function Plot(b: Bitmap, settings: Option<SymmetryMode>, p: Point, c: Color): (r: Bitmap)
    ensures SameSize(r, b)
    ensures forall q :: Get(r, q)
                     == if b.Contains(p) && Mirrors(Effective(settings), b.width, b.height, p, q) then c else Get(b, q)
  {
    var ws := Writes(settings, b.width, b.height, p);
    forall q ensures q in ws <==> b.Contains(p) && Mirrors(Effective(settings), b.width, b.height, p, q) {
      WritesAreMirrors(settings, b.width, b.height, p, q);
    }
    SetAll(b, ws, c)
  }

  /** `q` is written when some in-bounds point of `ps` has `q` among its mirrors. */
  ghost predicate Covered(m: SymmetryMode, width: int, height: int, ps: seq<Point>, q: Point) {
    exists i | 0 <= i < |ps| :: InBounds(width, height, ps[i]) && Mirrors(m, width, height, ps[i], q)
  }

  /** Without a mirror, the covered points are the in-bounds points of `ps`. */
  lemma CoveredWithoutMirror(width: int, height: int, ps: seq<Point>, q: Point)
    ensures Covered(None, width, height, ps, q) <==> q in ps && InBounds(width, height, q)
  {
    if q in ps && InBounds(width, height, q) {
      var i :| 0 <= i < |ps| && ps[i] == q;
      assert Mirrors(None, width, height, ps[i], q);
    }
  }

  /** Symmetric writes at every point of `ps`, in order. */
  function PlotAll(b: Bitmap, settings: Option<SymmetryMode>, ps: seq<Point>, c: Color): (r: Bitmap)
    ensures SameSize(r, b)
    ensures forall q :: Get(r, q)
                     == if Covered(Effective(settings), b.width, b.height, ps, q) then c else Get(b, q)
    decreases |ps|
  {
    if |ps| == 0 then b
    else
      var b1 := Plot(b, settings, ps[0], c);
      var r := PlotAll(b1, settings, ps[1..], c);
      var m := Effective(settings);
      forall q ensures Covered(m, b.width, b.height, ps, q)
        <==> (b.Contains(ps[0]) && Mirrors(m, b.width, b.height, ps[0], q))
             || Covered(m, b.width, b.height, ps[1..], q)
      {
        if Covered(m, b.width, b.height, ps, q) {
          var i :| 0 <= i < |ps| && InBounds(b.width, b.height, ps[i]) && Mirrors(m, b.width, b.height, ps[i], q);
          if i > 0 {
            assert ps[1..][i - 1] == ps[i];
          }
        }
        if Covered(m, b.width, b.height, ps[1..], q) {
          var i :| 0 <= i < |ps[1..]| && InBounds(b.width, b.height, ps[1..][i]) && Mirrors(m, b.width, b.height, ps[1..][i], q);
          assert ps[i + 1] == ps[1..][i];
        }
      }
      r
  }

  /** With mode Both, a write at the corner (0,0) of a 32 x 32 canvas sets
      exactly the four corners. */
  lemma BothModeCorners()
    ensures Writes(Basics.Some(Both), 32, 32, Basics.Point(0, 0))
      == [Basics.Point(0, 0), Basics.Point(31, 0), Basics.Point(0, 31), Basics.Point(31, 31)]
  {
  }
}
