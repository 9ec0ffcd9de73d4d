/**
 * The icon painter of the icon generator: a background with two horizontal
 * bars, the first drawn over the second. The bar rectangles come from
 * Math.round of floating-point multiples of the icon size; here they are the
 * fields of a Layout, so the classifier works on the integer bounds it is given.
 */
module Icon {
  import opened Bytes
  import opened Png

  /** The palette: a dark background (#111827), a white first bar, a blue (#60A5FA) second bar. */
  const Background: Rgba := Rgba(17, 24, 39, 255)
  const Bar1Colour: Rgba := Rgba(255, 255, 255, 255)
  const Bar2Colour: Rgba := Rgba(96, 165, 250, 255)

  /** The integer bar rectangles buildIcon computes for one icon size. */
  datatype Layout = Layout(
    bar1X: int, bar1Y: int, bar1Width: int,
    bar2X: int, bar2Y: int, bar2Width: int,
    barHeight: int)

  /** Pixel (x, y) lies in the half-open rectangle [left, left + width) x [top, top + height). */
  predicate InRect(x: int, y: int, left: int, top: int, width: int, height: int)
  {
    x >= left && x < left + width && y >= top && y < top + height
  }

  predicate InBar1(l: Layout, x: int, y: int)
  {
    InRect(x, y, l.bar1X, l.bar1Y, l.bar1Width, l.barHeight)
  }

  predicate InBar2(l: Layout, x: int, y: int)
  {
    InRect(x, y, l.bar2X, l.bar2Y, l.bar2Width, l.barHeight)
  }

  /** The pixel function buildIcon hands to createPng. */
  function IconPixel(l: Layout, x: nat, y: nat): Rgba
  {
    if InBar1(l, x, y) then Bar1Colour
    else if InBar2(l, x, y) then Bar2Colour
    else Background
  }

  /** The three colours are pairwise distinct, so a pixel's colour tells which case it fell in. */
  lemma PaletteDistinct()
    ensures Background != Bar1Colour && Background != Bar2Colour && Bar1Colour != Bar2Colour
  {
  }

  /**
   * The classifier, case by case: bar1's colour exactly on bar1 (whether or not
   * the pixel is also on bar2), bar2's colour exactly on the part of bar2 that
   * bar1 does not cover, and the background everywhere else.
   */
  lemma IconPixelCases(l: Layout, x: nat, y: nat)
    ensures IconPixel(l, x, y) == Bar1Colour <==> InBar1(l, x, y)
    ensures IconPixel(l, x, y) == Bar2Colour <==> !InBar1(l, x, y) && InBar2(l, x, y)
    ensures IconPixel(l, x, y) == Background <==> !InBar1(l, x, y) && !InBar2(l, x, y)
  {
    PaletteDistinct();
  }

  /**
   * The rectangles are half-open: along a bar of positive size the left and top
   * edges are inside it, the right and bottom edges (left + width, top + height)
   * are outside it.
   */
  lemma HalfOpenEdges(left: int, top: int, width: int, height: int, x: int, y: int)
    requires width > 0 && height > 0
    ensures InRect(left, top, left, top, width, height)
    ensures !InRect(left + width, y, left, top, width, height)
    ensures !InRect(x, top + height, left, top, width, height)
    ensures InRect(left + width - 1, top + height - 1, left, top, width, height)
  {
  }

  /** The pixel function, as the closure `(x, y) => ...` passed to createPng. */
  function Painter(l: Layout): (nat, nat) -> Rgba
  {
    (x: nat, y: nat) => IconPixel(l, x, y)
  }

  /** In the raw buffer of an icon, channel c of pixel (x, y) is channel c of the colour the classifier picks. */
  lemma IconRawBytes(size: nat, l: Layout, x: nat, y: nat, c: nat)
    requires x < size && y < size && c < 4
    ensures PixelOffset(size, x, y, c) < |RawImage(size, size, Painter(l))|
    ensures RawImage(size, size, Painter(l))[PixelOffset(size, x, y, c)] == Channels(IconPixel(l, x, y))[c]
  {
    PixelBytes(size, size, Painter(l), x, y, c);
  }

  /** buildIcon(size): a square PNG of the given size painted by the classifier. */
  method BuildIcon(size: uint32, l: Layout, deflate: seq<byte> -> seq<byte>) returns (png: seq<byte>)
    requires |deflate(RawImage(size, size, Painter(l)))| < TwoTo32
    ensures png == PngFile(size, size, deflate(RawImage(size, size, Painter(l))))
  {
    png := CreatePng(size, size, Painter(l), deflate);
  }
}
