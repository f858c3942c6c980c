/** What the pixel paths show: which samples they take, and what the colour conversion of copyToRgba means. */
module CameraConversion {
  import opened Bytes
  import opened CameraPixels

  /** The signal above black, and below it none. */
  function Signal(luma: byte): real { if luma < 16 then 0.0 else (luma - 16) as real }

  /** A channel of video-range YCbCr in full-range RGB, before it is rounded. */
  function Red(luma: byte, cb: byte, cr: byte): real {
    1.164 * Signal(luma) + 1.596 * (cr as int - 128) as real
  }

  function Green(luma: byte, cb: byte, cr: byte): real {
    1.164 * Signal(luma) - 0.392 * (cb as int - 128) as real - 0.813 * (cr as int - 128) as real
  }

  function Blue(luma: byte, cb: byte, cr: byte): real {
    1.164 * Signal(luma) + 2.017 * (cb as int - 128) as real
  }

  function Clamped(value: real): real { if value < 0.0 then 0.0 else if value > 255.0 then 255.0 else value }

  /** `shown` is less than one step from `meant`. */
  predicate Near(shown: byte, meant: real) { -1.0 < shown as real - meant < 1.0 }

  /** Rounding and clamping a channel computed in 256ths. */
  lemma ClampNear(value: int, meant: real)
    requires -0.5 < value as real / 256.0 - meant < 0.5
    ensures Near(Clamp8((value + 128) / 256), Clamped(meant))
  {
    var q, r := (value + 128) / 256, (value + 128) % 256;
    assert value + 128 == 256 * q + r;
  }

  lemma RedIsNear(luma: byte, cb: byte, cr: byte)
    ensures Near(Convert(luma, cb, cr).r, Clamped(Red(luma, cb, cr)))
  {
    var y: int, v: int := if luma < 16 then 0 else luma as int - 16, cr as int - 128;
    assert (298 * y + 409 * v) as real == 298.0 * (y as real) + 409.0 * (v as real);
    ClampNear(298 * y + 409 * v, Red(luma, cb, cr));
  }

  lemma GreenIsNear(luma: byte, cb: byte, cr: byte)
    ensures Near(Convert(luma, cb, cr).g, Clamped(Green(luma, cb, cr)))
  {
    var y: int, u: int, v: int := if luma < 16 then 0 else luma as int - 16, cb as int - 128, cr as int - 128;
    assert (298 * y - 100 * u - 208 * v) as real == 298.0 * (y as real) - 100.0 * (u as real) - 208.0 * (v as real);
    ClampNear(298 * y - 100 * u - 208 * v, Green(luma, cb, cr));
  }

  lemma BlueIsNear(luma: byte, cb: byte, cr: byte)
    ensures Near(Convert(luma, cb, cr).b, Clamped(Blue(luma, cb, cr)))
  {
    var y: int, u: int := if luma < 16 then 0 else luma as int - 16, cb as int - 128;
    assert (298 * y + 516 * u) as real == 298.0 * (y as real) + 516.0 * (u as real);
    ClampNear(298 * y + 516 * u, Blue(luma, cb, cr));
  }

  /** Colour `c` is within one step of the conversion of video-range colours, and opaque. */
  predicate Converts(c: Rgba, luma: byte, cb: byte, cr: byte) {
    && Near(c.r, Clamped(Red(luma, cb, cr))) && Near(c.g, Clamped(Green(luma, cb, cr)))
    && Near(c.b, Clamped(Blue(luma, cb, cr))) && c.a == 255
  }

  lemma ConversionIsNear(luma: byte, cb: byte, cr: byte)
    ensures Converts(Convert(luma, cb, cr), luma, cb, cr)
  {
    RedIsNear(luma, cb, cr);
    GreenIsNear(luma, cb, cr);
    BlueIsNear(luma, cb, cr);
  }

  /** Neutral chroma gives greys: black up to luma 16, white from 235 on, and lighter for more luma. */
  lemma NeutralIsGrey(luma: byte, more: byte)
    requires luma <= more
    ensures var c := Convert(luma, 128, 128); c.r == c.g == c.b && c.r <= Convert(more, 128, 128).r
    ensures luma <= 16 ==> Convert(luma, 128, 128).r == 0
    ensures luma >= 235 ==> Convert(luma, 128, 128).r == 255
  {
  }

  /** Red follows Cr alone, blue follows Cb alone, and green falls with either. */
  lemma ChannelsFollowChroma(luma: byte, cb: byte, cr: byte, moreCb: byte, moreCr: byte)
    requires cb <= moreCb && cr <= moreCr
    ensures var c, d := Convert(luma, cb, cr), Convert(luma, moreCb, moreCr);
            c.r <= d.r && c.b <= d.b && c.g >= d.g
    ensures Convert(luma, cb, cr).r == Convert(luma, moreCb, cr).r
    ensures Convert(luma, cb, cr).b == Convert(luma, cb, moreCr).b
  {
  }

  /** The place `s` among `m` that stands for place `x` among `n`: the last one not after it in proportion. */
  predicate StandsFor(s: nat, m: nat, x: nat, n: nat) { s < m && s * n <= x * m < (s + 1) * n }

  lemma ScaleStandsFor(x: nat, m: nat, n: nat)
    requires x < n && m > 0
    ensures StandsFor(Scale(x, m, n), m, x, n)
  {
    var q, r := x * m / n, x * m % n;
    assert x * m == q * n + r && 0 <= r < n;
    assert (q + 1) * n == q * n + n;
  }

  /** Column `x` of row `y` in rows of `width`. */
  function Place(x: nat, y: nat, width: nat): nat { y * width + x }

  /** Where a frame holds the pair of the block of sample (sx, sy): behind the luma, in rows of the same width. */
  function PairAt(f: Frame, sx: nat, sy: nat): nat { f.height * f.width + (sy / 2 * f.width + sx / 2 * 2) }

  /** Where pair (x, y) stands in a chroma plane. */
  function PairStep(p: Planes, x: nat, y: nat): nat { y * p.cstride + x * p.step }

  /** The four bytes at `at` are the colour of luma sample `l` with the chroma pair at `c`. */
  predicate ShowsSamples(memory: seq<byte>, at: nat, f: Frame, l: nat, c: nat) {
    && at + 4 <= |memory| && l < |f.pixels| && c + 1 < |f.pixels|
    && Converts(Rgba(memory[at], memory[at + 1], memory[at + 2], memory[at + 3]), f.pixels[l], f.pixels[c],
                f.pixels[c + 1])
  }

  /**
   * What a finished copy shows at a pixel: the luma sample that stands for it and the chroma pair of that sample's
   * two-by-two block.
   */
  lemma PixelMeans(memory: seq<byte>, f: Frame, x: nat, y: nat, w: nat, h: nat, stride: nat) returns (sx: nat, sy: nat)
    requires IsNv12(f) && x < w && y < h && RowsShown(memory, f, h, w, h, stride)
    ensures StandsFor(sx, f.width, x, w) && StandsFor(sy, f.height, y, h)
    ensures ShowsSamples(memory, 4 * Place(x, y, stride), f, Place(sx, sy, f.width), PairAt(f, sx, sy))
  {
    sx, sy := Scale(x, f.width, w), Scale(y, f.height, h);
    ScaleStandsFor(x, f.width, w);
    ScaleStandsFor(y, f.height, h);
    PixelIsShown(memory, f, x, y, w, h, stride);
    var c, l := ChromaIndex(f, x, y, w, h), LumaIndex(f, x, y, w, h);
    ConversionIsNear(f.pixels[l], f.pixels[c], f.pixels[c + 1]);
  }

  /** Bytes behind the last pixel of a row, and behind the last row, are as they were. */
  lemma PaddingMeans(memory: seq<byte>, was: seq<byte>, w: nat, h: nat, stride: nat, x: nat, y: nat, k: nat)
    requires PaddingKept(memory, was, w, h, stride) && (w <= x < stride || h <= y) && x < stride && k < 4
    requires 4 * Place(x, y, stride) + k < |was|
    ensures memory[4 * Place(x, y, stride) + k] == was[4 * Place(x, y, stride) + k]
  {
    var i := 4 * Place(x, y, stride) + k;
    assert i / 4 == y * stride + x;
    RowColumn(y, x, stride);
    assert !InPixel(i, w, h, stride);
  }

  // ---- The planes -------------------------------------------------------

  /** Memory in which every sample of the planes has its source byte, as copyToYuv leaves it. */
  ghost predicate Filled(memory: seq<byte>, f: Frame, p: Planes, w: nat, h: nat)
    requires IsNv12(f)
  {
    forall s: Site :: InImage(s, w, h) ==>
      Address(p, s) < |memory| && memory[Address(p, s)] == f.pixels[SourceIndex(f, s, w, h)]
  }

  /** A byte of memory is a byte of the frame. */
  predicate Same(memory: seq<byte>, at: nat, f: Frame, i: nat) {
    at < |memory| && i < |f.pixels| && memory[at] == f.pixels[i]
  }

  /** A luma byte is the luma sample that stands for its place. */
  lemma LumaMeans(memory: seq<byte>, f: Frame, p: Planes, w: nat, h: nat, x: nat, y: nat) returns (sx: nat, sy: nat)
    requires IsNv12(f) && Filled(memory, f, p, w, h) && x < w && y < h
    ensures StandsFor(sx, f.width, x, w) && StandsFor(sy, f.height, y, h)
    ensures Same(memory, p.y + Place(x, y, p.ystride), f, Place(sx, sy, f.width))
  {
    sx, sy := Scale(x, f.width, w), Scale(y, f.height, h);
    ScaleStandsFor(x, f.width, w);
    ScaleStandsFor(y, f.height, h);
    assert InImage(Site(Luma, x, y), w, h);
  }

  /** The two bytes of a chroma pair are the pair of the sample that stands for its even coordinates, U before V. */
  lemma PairMeans(memory: seq<byte>, f: Frame, p: Planes, w: nat, h: nat, x: nat, y: nat) returns (sx: nat, sy: nat)
    requires IsNv12(f) && Filled(memory, f, p, w, h) && x < w / 2 && y < h / 2
    ensures StandsFor(sx, f.width, 2 * x, w) && StandsFor(sy, f.height, 2 * y, h)
    ensures Same(memory, p.cb + PairStep(p, x, y), f, PairAt(f, sx, sy))
    ensures Same(memory, p.cr + PairStep(p, x, y), f, PairAt(f, sx, sy) + 1)
  {
    sx, sy := Scale(x * 2, f.width, w), Scale(y * 2, f.height, h);
    ScaleStandsFor(x * 2, f.width, w);
    ScaleStandsFor(y * 2, f.height, h);
    SiteHolds(memory, f, p, w, h, Site(Cb, x, y));
    SiteHolds(memory, f, p, w, h, Site(Cr, x, y));
    PairPlace(f, x, y, w, h, sx, sy);
  }

  lemma SiteHolds(memory: seq<byte>, f: Frame, p: Planes, w: nat, h: nat, s: Site)
    requires IsNv12(f) && Filled(memory, f, p, w, h) && InImage(s, w, h)
    ensures Same(memory, Address(p, s), f, SourceIndex(f, s, w, h))
  {
  }

  lemma PairPlace(f: Frame, x: nat, y: nat, w: nat, h: nat, sx: nat, sy: nat)
    requires IsNv12(f) && x < w / 2 && y < h / 2 && sx == Scale(x * 2, f.width, w) && sy == Scale(y * 2, f.height, h)
    ensures SourceIndex(f, Site(Cb, x, y), w, h) == PairAt(f, sx, sy)
    ensures SourceIndex(f, Site(Cr, x, y), w, h) == PairAt(f, sx, sy) + 1
  {
  }

  /** The packed image is filled, with luma first and then the pairs, U before V. */
  lemma PackedIsFilled(f: Frame, w: nat, h: nat)
    requires IsNv12(f) && EvenSize(w, h)
    ensures |Scaled(f, w, h)| == w * h + w * h / 2
    ensures Filled(Scaled(f, w, h), f, Planes(true, 0, w * h, w * h + 1, w, w, 2), w, h)
  {
    forall s: Site | InImage(s, w, h)
      ensures Address(Packed(w, h), s) < |Scaled(f, w, h)|
      ensures Scaled(f, w, h)[Address(Packed(w, h), s)] == f.pixels[SourceIndex(f, s, w, h)]
    {
      SiteOfAddress(s, w, h);
    }
  }
}
