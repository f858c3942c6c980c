/** Where the two scaling paths of the camera show the same colours (SurfaceCamera.cpp). */
module CameraColours {
  import opened Bytes
  import opened CameraPixels
  import CameraWire

  // ---- The two paths agree ----------------------------------------------

  /** The colour of the packed image at destination pixel (x, y). */
  function PackedColour(f: Frame, x: nat, y: nat, w: nat, h: nat): Rgba
    requires IsNv12(f) && EvenSize(w, h) && x < w && y < h
  {
    var luma, cb, cr := Site(Luma, x, y), Site(Cb, x / 2, y / 2), Site(Cr, x / 2, y / 2);
    SiteOfAddress(luma, w, h);
    SiteOfAddress(cb, w, h);
    SiteOfAddress(cr, w, h);
    var image, p := Scaled(f, w, h), Packed(w, h);
    Convert(image[Address(p, luma)], image[Address(p, cb)], image[Address(p, cr)])
  }

  /** The packed image's colour is converted from the sample at the even coordinates at or before (x, y). */
  lemma PackedColourIs(f: Frame, x: nat, y: nat, w: nat, h: nat)
    requires IsNv12(f) && EvenSize(w, h) && x < w && y < h
    ensures var c := ChromaIndex(f, x / 2 * 2, y / 2 * 2, w, h);
            PackedColour(f, x, y, w, h) == Convert(f.pixels[LumaIndex(f, x, y, w, h)], f.pixels[c], f.pixels[c + 1])
  {
    SiteOfAddress(Site(Luma, x, y), w, h);
    SiteOfAddress(Site(Cb, x / 2, y / 2), w, h);
    SiteOfAddress(Site(Cr, x / 2, y / 2), w, h);
  }

  /** For every frame and every permitted size, RGBA is the converted packed image at even coordinates. */
  lemma PathsAgreeAtEven(f: Frame, x: nat, y: nat, w: nat, h: nat)
    requires IsNv12(f) && EvenSize(w, h) && x < w && y < h && x % 2 == 0 && y % 2 == 0
    ensures RgbaAt(f, x, y, w, h) == PackedColour(f, x, y, w, h)
  {
    PackedColourIs(f, x, y, w, h);
  }

  // ---- Where they do not ------------------------------------------------

  /** Shrinking moves the last odd column to a different source pair than the even column before it. */
  lemma LastColumnMoves(m: nat, n: nat)
    requires 0 < n < m && n % 2 == 0 && m % 2 == 0
    ensures Scale(n - 1, m, n) / 2 > Scale(n - 2, m, n) / 2
  {
    LessOne(n, m);
    LessTwo(n, m);
    var r := ScaleRest(n - 1, m, n);
    var q := ScaleRest(n - 2, m, n);
    PairMoves(m, n, n * m, Scale(n - 1, m, n), r, Scale(n - 2, m, n), q);
  }

  lemma ScaleRest(x: nat, m: nat, n: nat) returns (r: nat)
    requires x < n && m > 0
    ensures r < n && Scale(x, m, n) * n + r == x * m
  {
    r := x * m % n;
  }

  lemma LessOne(n: nat, m: nat)
    ensures (n - 1) * m == n * m - m
  {
  }

  lemma LessTwo(n: nat, m: nat)
    ensures (n - 2) * m == n * m - 2 * m
  {
  }

  lemma PairMoves(m: nat, n: nat, p: nat, a: nat, r: nat, b: nat, q: nat)
    requires 0 < n < m && m % 2 == 0 && p == n * m && r < n && q < n && a * n + r == p - m && b * n + q == p - 2 * m
    ensures a / 2 > b / 2
  {
    if m <= 2 * n {
      LessOne(m, n);
      LessTwo(m, n);
      Between(a, m - 2, n, p - m, r);
      Below(b, m - 2, n, p - 2 * m, q);
    } else {
      assert (a - b) * n == a * n - b * n;
      Above(a - b, n, m + q - r);
    }
  }

  lemma Between(a: nat, k: nat, n: nat, v: nat, r: nat)
    requires a * n + r == v && r < n && k * n <= v < (k + 1) * n
    ensures a == k
  {
    Multiple(a - k, n);
    assert (a - k) * n == a * n - k * n;
  }

  lemma Below(b: nat, k: nat, n: nat, v: nat, q: nat)
    requires b * n + q == v < k * n
    ensures b < k
  {
    Multiple(b - k, n);
    assert (b - k) * n == b * n - k * n;
  }

  lemma Above(d: int, n: nat, v: int)
    requires d * n == v > n
    ensures d >= 2
  {
    Multiple(d, n);
  }

  /** Pixel (x, y)'s chroma comes from another pair than its even neighbour's. */
  predicate Moves(f: Frame, x: nat, y: nat, w: nat, h: nat)
    requires IsNv12(f) && x < w && y < h
  {
    ChromaIndex(f, x, y, w, h) != ChromaIndex(f, x / 2 * 2, y / 2 * 2, w, h)
  }

  lemma ColumnMoves(f: Frame, w: nat, h: nat)
    requires IsNv12(f) && EvenSize(w, h) && w < f.width
    ensures Moves(f, w - 1, 0, w, h)
  {
    LastColumnMoves(f.width, w);
    assert (w - 1) / 2 * 2 == w - 2;
  }

  lemma RowMoves(f: Frame, w: nat, h: nat)
    requires IsNv12(f) && EvenSize(w, h) && h < f.height
    ensures Moves(f, 0, h - 1, w, h)
  {
    LastColumnMoves(f.height, h);
    assert (h - 1) / 2 * 2 == h - 2;
    FurtherRow(Scale(h - 1, f.height, h) / 2, Scale(h - 2, f.height, h) / 2, f.width);
  }

  lemma FurtherRow(a: nat, b: nat, w: nat)
    requires a > b && w > 1
    ensures a * w >= b * w + w
  {
    assert a * w == b * w + (a - b) * w;
    Multiple(a - b, w);
  }

  lemma EqualSizesKeep(f: Frame, x: nat, y: nat)
    requires IsNv12(f) && x < f.width && y < f.height
    ensures !Moves(f, x, y, f.width, f.height)
  {
    var x', y' := x / 2 * 2, y / 2 * 2;
    ChromaKeeps(f, x, y);
    ChromaKeeps(f, x', y');
    assert x' / 2 == x / 2 && y' / 2 == y / 2;
  }

  /** At equal sizes the two paths show the same colour everywhere. */
  lemma PathsAgree(f: Frame, x: nat, y: nat)
    requires IsNv12(f) && x < f.width && y < f.height
    ensures RgbaAt(f, x, y, f.width, f.height) == PackedColour(f, x, y, f.width, f.height)
  {
    PackedColourIs(f, x, y, f.width, f.height);
    EqualSizesKeep(f, x, y);
  }

  lemma BlueDiffers(a: byte, b: byte)
    ensures Convert(0, 255, a) != Convert(0, 0, b)
  {
    assert Convert(0, 255, a).b == 255 && Convert(0, 0, b).b == 0;
  }

  /** A frame that is dark but for one byte. */
  function Spot(width: nat, height: nat, at: nat): Frame {
    Frame(width, height, seq(width * height + width * (height / 2), i => if i == at then 255 else 0))
  }

  predicate IsSpot(f: Frame, at: nat) { forall i :: 0 <= i < |f.pixels| ==> f.pixels[i] == if i == at then 255 else 0 }

  lemma SpotIsNv12(width: nat, height: nat, at: nat)
    requires EvenSize(width, height) && width * height + width * (height / 2) <= CameraWire.MAX_FRAME_BYTES
    ensures IsNv12(Spot(width, height, at)) && IsSpot(Spot(width, height, at), at)
  {
  }

  lemma SamePlaces(f: Frame, g: Frame, x: nat, y: nat, w: nat, h: nat)
    requires IsNv12(f) && IsNv12(g) && f.width == g.width && f.height == g.height && x < w && y < h
    ensures ChromaIndex(f, x, y, w, h) == ChromaIndex(g, x, y, w, h) >= f.width * f.height
  {
  }

  /** Two U bytes of a spot, one of them the spot, give different colours over its dark luma. */
  lemma SpotDiffers(f: Frame, at: nat, c: nat, l: nat)
    requires IsSpot(f, at) && at + 1 < |f.pixels| && c + 1 < |f.pixels| && l < at && c != at
    ensures Convert(f.pixels[l], f.pixels[at], f.pixels[at + 1]) != Convert(f.pixels[l], f.pixels[c], f.pixels[c + 1])
  {
    BlueDiffers(f.pixels[at + 1], f.pixels[c + 1]);
  }

  /** A pixel's colour, from the indices of its samples. */
  function ColourFrom(f: Frame, l: nat, c: nat): Rgba
    requires l < |f.pixels| && c + 1 < |f.pixels|
  {
    Convert(f.pixels[l], f.pixels[c], f.pixels[c + 1])
  }

  lemma RgbaIs(f: Frame, x: nat, y: nat, w: nat, h: nat)
    requires IsNv12(f) && x < w && y < h
    ensures RgbaAt(f, x, y, w, h) == ColourFrom(f, LumaIndex(f, x, y, w, h), ChromaIndex(f, x, y, w, h))
  {
  }

  lemma SpotShows(f: Frame, at: nat, x: nat, y: nat, w: nat, h: nat)
    requires IsNv12(f) && IsSpot(f, at) && EvenSize(w, h) && x < w && y < h
    requires at == ChromaIndex(f, x, y, w, h) && Moves(f, x, y, w, h)
    ensures RgbaAt(f, x, y, w, h) != PackedColour(f, x, y, w, h)
  {
    var l, c := LumaIndex(f, x, y, w, h), ChromaIndex(f, x / 2 * 2, y / 2 * 2, w, h);
    PackedColourIs(f, x, y, w, h);
    RgbaIs(f, x, y, w, h);
    SpotDiffers(f, at, c, l);
  }

  /** At any other permitted size some frame shows different colours somewhere. */
  lemma PathsDiffer(width: nat, height: nat, w: nat, h: nat) returns (f: Frame, x: nat, y: nat)
    requires EvenSize(width, height) && width * height + width * (height / 2) <= CameraWire.MAX_FRAME_BYTES
    requires EvenSize(w, h) && w <= width && h <= height && (w < width || h < height)
    ensures f.width == width && f.height == height && IsNv12(f) && x < w && y < h
    ensures RgbaAt(f, x, y, w, h) != PackedColour(f, x, y, w, h)
  {
    var dark := Spot(width, height, 0);
    SpotIsNv12(width, height, 0);
    if w < width {
      ColumnMoves(dark, w, h);
      x, y := w - 1, 0;
    } else {
      RowMoves(dark, w, h);
      x, y := 0, h - 1;
    }
    f := SpotAt(dark, x, y, w, h);
  }

  lemma SpotAt(dark: Frame, x: nat, y: nat, w: nat, h: nat) returns (f: Frame)
    requires IsNv12(dark) && EvenSize(w, h) && x < w && y < h && Moves(dark, x, y, w, h)
    ensures f.width == dark.width && f.height == dark.height && IsNv12(f)
    ensures RgbaAt(f, x, y, w, h) != PackedColour(f, x, y, w, h)
  {
    var at := ChromaIndex(dark, x, y, w, h);
    f := Spot(dark.width, dark.height, at);
    SpotIsNv12(dark.width, dark.height, at);
    SamePlaces(f, dark, x, y, w, h);
    SamePlaces(f, dark, x / 2 * 2, y / 2 * 2, w, h);
    SpotShows(f, at, x, y, w, h);
  }
}
