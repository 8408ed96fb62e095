/** The pixel grid every layer owns: a width x height array of colours with
    bounds-checked reads and writes (PixelCanvas.cs, and the SKBitmap it wraps).
    Colours are exact values: a read returns the colour last written. */
module PixelCanvas {
  import opened Basics

  /** An RGBA colour with one byte per channel (SkiaSharp's SKColor). */
  datatype Color = Color(red: Byte, green: Byte, blue: Byte, alpha: Byte)

  /** SkiaSharp's SKColors.Transparent, which is white with zero alpha (0x00FFFFFF). */
  const Transparent: Color := Color(255, 255, 255, 0)

  /** An opaque colour built from three channels, as `new SKColor(r, g, b)` does. */
  function Opaque(r: Byte, g: Byte, b: Byte): Color {
    Color(r, g, b, 255)
  }

  predicate InBounds(width: int, height: int, p: Point) {
    0 <= p.x < width && 0 <= p.y < height
  }

  datatype Canvas = Canvas(width: nat, height: nat, pixels: map<Point, Color>) {
    /** Exactly the in-bounds points carry a colour. */
    ghost predicate Valid() {
      forall p :: p in pixels <==> InBounds(width, height, p)
    }

    predicate Contains(p: Point) {
      InBounds(width, height, p)
    }
  }

  /** A canvas whose pixel map covers exactly its width x height rectangle. */
  type Bitmap = c: Canvas | c.Valid() witness Canvas(0, 0, map[])

  /** True when two bitmaps have the same width and height. */
  predicate SameSize(a: Bitmap, b: Bitmap) {
    a.width == b.width && a.height == b.height
  }

  /** A new canvas, every pixel erased to transparent. */
  function New(width: nat, height: nat): (b: Bitmap)
    ensures b.width == width && b.height == height
    ensures forall p :: Get(b, p) == Transparent
  {
    var m := map x: int, y: int | 0 <= x < width && 0 <= y < height :: Point(x, y) := Transparent;
    assert forall p :: p in m <==> InBounds(width, height, p) by {
      forall p ensures p in m <==> InBounds(width, height, p) {
        if InBounds(width, height, p) {
          assert m[Point(p.x, p.y)] == Transparent;
        }
      }
    }
    Canvas(width, height, m)
  }

  /** The colour at `p`; transparent outside the canvas. */
  function Get(b: Bitmap, p: Point): Color {
    if b.Contains(p) then b.pixels[p] else Transparent
  }

  /** Writes `c` at `p`; a write outside the canvas is dropped. */
  function Set(b: Bitmap, p: Point, c: Color): (r: Bitmap)
    ensures SameSize(r, b)
    ensures forall q :: Get(r, q) == if q == p && b.Contains(p) then c else Get(b, q)
  {
    if b.Contains(p) then b.(pixels := b.pixels[p := c]) else b
  }

  /** Writes `c` at every point of `ps`, in order, each write bounds-checked. */
  function SetAll(b: Bitmap, ps: seq<Point>, c: Color): (r: Bitmap)
    ensures SameSize(r, b)
    ensures forall q :: Get(r, q) == if q in ps && b.Contains(q) then c else Get(b, q)
    decreases |ps|
  {
    if |ps| == 0 then b
    else
      var r := SetAll(Set(b, ps[0], c), ps[1..], c);
      assert forall q :: q in ps <==> q == ps[0] || q in ps[1..] by {
        assert ps == [ps[0]] + ps[1..];
      }
      r
  }

  /** Two bitmaps of the same size that agree on every pixel are equal. */
  lemma Extensionality(a: Bitmap, b: Bitmap)
    requires SameSize(a, b)
    requires forall p :: Get(a, p) == Get(b, p)
    ensures a == b
  {
    assert a.pixels.Keys == b.pixels.Keys;
    forall p | p in a.pixels
      ensures a.pixels[p] == b.pixels[p]
    {
      assert Get(a, p) == Get(b, p);
    }
  }

  /** Reading back an in-bounds write gives the written colour. */
  lemma GetAfterSet(b: Bitmap, p: Point, c: Color)
    requires b.Contains(p)
    ensures Get(Set(b, p, c), p) == c
  {
  }

  /** An out-of-bounds write leaves the whole canvas unchanged. */
  lemma SetOutOfBounds(b: Bitmap, p: Point, c: Color)
    requires !b.Contains(p)
    ensures Set(b, p, c) == b
  {
  }

  /** A write touches no pixel other than its own. */
  lemma SetFrame(b: Bitmap, p: Point, q: Point, c: Color)
    requires q != p
    ensures Get(Set(b, p, c), q) == Get(b, q)
  {
  }

  /** Writing a pixel its own colour is the identity. */
  lemma SetSameColor(b: Bitmap, p: Point)
    ensures Set(b, p, Get(b, p)) == b
  {
    Extensionality(Set(b, p, Get(b, p)), b);
  }
}
