/**
 Blit geometry and the debug frame (proxy/window.c).

 Rectangles are inclusive here, as the blit reads them: x2 and y2 name the last column and row.
 */
module Blit {
  import opened Rects

  /** The arguments of one copy: origin and size. */
  datatype Box = Box(x: int, y: int, w: int, h: int)

  predicate InBox(b: Box, p: Point) {
    b.x <= p.x < b.x + b.w && b.y <= p.y < b.y + b.h
  }

  predicate CoversInclusive(r: Rect, p: Point) {
    r.x1 <= p.x <= r.x2 && r.y1 <= p.y <= r.y2
  }

  predicate Normalised(r: Rect) {
    r.x1 <= r.x2 && r.y1 <= r.y2
  }

  predicate InBuffer(width: int, height: int, p: Point) {
    0 <= p.x < width && 0 <= p.y < height
  }

  function BoxOf(r: Rect): Box {
    Box(r.x1, r.y1, r.x2 - r.x1 + 1, r.y2 - r.y1 + 1)
  }

  /** The copy made for a requested rectangle of a window at (x, y). */
  function CopyBox(r: Rect, x: int, y: int, width: int, height: int): Box {
    BoxOf(ClipRect(TranslateRect(r, -x, -y), width - 1, height - 1))
  }

  /** Does the window-local rectangle reach into the buffer at all? */
  predicate Touches(r: Rect, width: int, height: int) {
    r.x1 <= width - 1 && 0 <= r.x2 && r.y1 <= height - 1 && 0 <= r.y2
  }

  predicate BoxInside(b: Box, width: int, height: int) {
    0 <= b.x && 0 <= b.y && b.x + b.w <= width && b.y + b.h <= height
  }

  /** A copied box never leaves the buffer, and a normalised request copies at least one pixel. */
  lemma CopyStaysInside(r: Rect, x: int, y: int, width: int, height: int)
    requires 1 <= width && 1 <= height
    ensures BoxInside(CopyBox(r, x, y, width, height), width, height)
    ensures Normalised(r) ==> CopyBox(r, x, y, width, height).w >= 1 && CopyBox(r, x, y, width, height).h >= 1
  {
  }

  /** The copied pixels are the requested ones that exist, unless the request misses the buffer:
      then clipping moves it onto the border and pixels nobody asked for are copied. */
  lemma CopyIsIntersectionIff(r: Rect, x: int, y: int, width: int, height: int)
    requires 1 <= width && 1 <= height && Normalised(r)
    ensures (forall p :: InBox(CopyBox(r, x, y, width, height), p) <==>
                         InBuffer(width, height, p) && CoversInclusive(TranslateRect(r, -x, -y), p))
       <==> Touches(TranslateRect(r, -x, -y), width, height)
  {
    var l := TranslateRect(r, -x, -y);
    var b := CopyBox(r, x, y, width, height);
    if !Touches(l, width, height) {
      var p := Point(b.x, b.y);
      assert InBox(b, p) && !CoversInclusive(l, p);
    }
  }

  /** A window's own request is never clipped: the buffer is the bounding box of the request, so each
      normalised rectangle of it is copied whole. */
  lemma OwnRequestIsWhole(rs: seq<Rect>, box: Rect, r: Rect)
    requires IsBoundingBox(box, rs) && r in rs && Normalised(r)
    ensures CopyBox(r, box.x1, box.y1, box.x2 - box.x1 + 1, box.y2 - box.y1 + 1) ==
            BoxOf(TranslateRect(r, -box.x1, -box.y1))
  {
    var i :| 0 <= i < |rs| && rs[i] == r;
    assert Encloses(box, rs[i]);
  }

  /** The part of the surface update that decides what is copied; the copy itself is a foreign call. */
  method CopyBoxes(rects: seq<Rect>, x: int, y: int, width: int, height: int) returns (boxes: seq<Box>)
    requires 1 <= width && 1 <= height
    ensures |boxes| == |rects|
    ensures forall i :: 0 <= i < |rects| ==> boxes[i] == CopyBox(rects[i], x, y, width, height)
    ensures forall i :: 0 <= i < |rects| ==> BoxInside(boxes[i], width, height)
  {
    var local := new Rect[|rects|](i requires 0 <= i < |rects| => rects[i]);
    assert local[..] == rects;
    Translate(local, -x, -y);
    assert local[..] == Translated(rects, -x, -y);
    Clip(local, width - 1, height - 1);
    assert local[..] == Clipped(Translated(rects, -x, -y), width - 1, height - 1);
    boxes := [];
    for i := 0 to local.Length
      invariant local[..] == Clipped(Translated(rects, -x, -y), width - 1, height - 1)
      invariant |boxes| == i
      invariant forall k :: 0 <= k < i ==> boxes[k] == CopyBox(rects[k], x, y, width, height)
      invariant forall k :: 0 <= k < i ==> BoxInside(boxes[k], width, height)
    {
      assert local[i] == local[..][i];
      boxes := boxes + [Box(local[i].x1, local[i].y1, local[i].x2 - local[i].x1 + 1, local[i].y2 - local[i].y1 + 1)];
      CopyStaysInside(rects[i], x, y, width, height);
    }
  }

  // ---------- the debug frame ----------

  type Pixel = bv32

  function Index(stride: int, x: int, y: int): int { y * stride + x }

  lemma IndexInBuffer(width: int, height: int, x: int, y: int)
    requires 0 <= x < width && 0 <= y < height
    ensures 0 <= Index(width, x, y) < width * height
  {
    assert (y + 1) * width <= height * width;
  }

  lemma IndexIsInjective(width: int, x: int, y: int, x': int, y': int)
    requires 0 <= x < width && 0 <= x' < width
    ensures Index(width, x, y) == Index(width, x', y') ==> x == x' && y == y'
  {
    if y < y' {
      assert (y + 1) * width <= y' * width;
    } else if y' < y {
      assert (y' + 1) * width <= y * width;
    }
  }

  /** The pixel at (x, y) of a width x height buffer. */
  function PixelAt(pixels: seq<Pixel>, width: int, height: int, x: int, y: int): Pixel
    requires |pixels| == width * height && 0 <= x < width && 0 <= y < height
  {
    IndexInBuffer(width, height, x, y);
    pixels[Index(width, x, y)]
  }

  /** Within depth of the edge of the rectangle, counted inwards. */
  predicate NearEdge(b: Box, depth: int, x: int, y: int) {
    && InBox(b, Point(x, y))
    && (x - b.x < depth || b.x + b.w - 1 - x < depth || y - b.y < depth || b.y + b.h - 1 - y < depth)
  }

  method SetPixel(pixels: array<Pixel>, width: int, height: int, x: int, y: int, color: Pixel)
    requires pixels.Length == width * height && 0 <= x < width && 0 <= y < height
    modifies pixels
    ensures forall qx, qy :: 0 <= qx < width && 0 <= qy < height ==>
              PixelAt(pixels[..], width, height, qx, qy) ==
              if qx == x && qy == y then color else PixelAt(old(pixels[..]), width, height, qx, qy)
  {
    IndexInBuffer(width, height, x, y);
    pixels[Index(width, x, y)] := color;
    forall qx, qy | 0 <= qx < width && 0 <= qy < height
      ensures PixelAt(pixels[..], width, height, qx, qy) ==
              if qx == x && qy == y then color else PixelAt(old(pixels[..]), width, height, qx, qy)
    {
      IndexInBuffer(width, height, qx, qy);
      IndexIsInjective(width, qx, qy, x, y);
    }
  }

  /** Exactly the pixels within min(2, w/2, h/2) of the rectangle's edge take the color. */
  method DrawDebugBorder(pixels: array<Pixel>, width: int, height: int, b: Box, color: Pixel)
    requires pixels.Length == width * height && BoxInside(b, width, height)
    modifies pixels
    ensures forall qx, qy :: 0 <= qx < width && 0 <= qy < height ==>
              PixelAt(pixels[..], width, height, qx, qy) ==
              if NearEdge(b, Min(2, Min(b.w / 2, b.h / 2)), qx, qy) then color
              else PixelAt(old(pixels[..]), width, height, qx, qy)
  {
    if b.w <= 0 || b.h <= 0 {
      return;
    }
    var rim := Min(2, Min(b.w / 2, b.h / 2));
    for t := 0 to rim
      invariant forall qx, qy :: 0 <= qx < width && 0 <= qy < height ==>
                  PixelAt(pixels[..], width, height, qx, qy) ==
                  if NearEdge(b, t, qx, qy) then color else PixelAt(old(pixels[..]), width, height, qx, qy)
    {
      for px := b.x to b.x + b.w
        invariant forall qx, qy :: 0 <= qx < width && 0 <= qy < height ==>
                    PixelAt(pixels[..], width, height, qx, qy) ==
                    if NearEdge(b, t, qx, qy) ||
                       (b.x <= qx < px && (qy == b.y + t || qy == b.y + b.h - 1 - t)) then color
                    else PixelAt(old(pixels[..]), width, height, qx, qy)
      {
        SetPixel(pixels, width, height, px, b.y + t, color);
        SetPixel(pixels, width, height, px, b.y + b.h - 1 - t, color);
      }
      for py := b.y + t + 1 to b.y + b.h - 1 - t
        invariant forall qx, qy :: 0 <= qx < width && 0 <= qy < height ==>
                    PixelAt(pixels[..], width, height, qx, qy) ==
                    if || NearEdge(b, t, qx, qy)
                       || (b.x <= qx < b.x + b.w && (qy == b.y + t || qy == b.y + b.h - 1 - t))
                       || (b.y + t + 1 <= qy < py && (qx == b.x + t || qx == b.x + b.w - 1 - t)) then color
                    else PixelAt(old(pixels[..]), width, height, qx, qy)
      {
        SetPixel(pixels, width, height, b.x + t, py, color);
        SetPixel(pixels, width, height, b.x + b.w - 1 - t, py, color);
      }
    }
  }
}
