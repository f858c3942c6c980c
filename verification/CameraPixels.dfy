/**
 * The camera's pixel paths (SurfaceCamera.cpp): scaling an NV12 frame into planes, into packed NV12, and into
 * RGBA, with the memory each path reads and writes.
 */
module CameraPixels {
  import opened Bytes
  import opened Bits
  import CameraWire

  /** An NV12 frame: a luma plane, then rows of interleaved U and V at half the height. */
  datatype Frame = Frame(width: nat, height: nat, pixels: seq<byte>)

  /** What a capture delivers from an even-sized stream. */
  predicate IsNv12(f: Frame) {
    && f.width > 0 && f.height > 0 && f.width % 2 == 0 && f.height % 2 == 0
    && |f.pixels| == f.width * f.height + f.width * (f.height / 2) <= CameraWire.MAX_FRAME_BYTES
  }

  // ---- Arithmetic -------------------------------------------------------

  lemma InRow(y: nat, x: nat, h: nat, w: nat)
    requires y < h && x < w
    ensures y * w + x < h * w
  {
    assert (y + 1) * w <= h * w;
  }

  lemma RowColumn(y: nat, x: nat, w: nat)
    requires x < w
    ensures (y * w + x) / w == y && (y * w + x) % w == x
  {
    var q, r := (y * w + x) / w, (y * w + x) % w;
    var d := y - q;
    assert d * w == r - x;
    Multiple(d, w);
  }

  lemma Multiple(d: int, w: nat)
    ensures d >= 1 ==> d * w >= w
    ensures d <= -1 ==> d * w + w <= 0
  {
  }

  lemma Split(i: nat, h: nat, w: nat)
    requires i < h * w
    ensures w > 0 && i / w < h && i % w < w && i / w * w + i % w == i
  {
  }

  /** The source coordinate of destination coordinate `x` when `m` source samples become `n`. */
  function Scale(x: nat, m: nat, n: nat): (r: nat)
    requires x < n && m > 0
    ensures r < m
  {
    assert x * m < n * m;
    Split(x * m, m, n);
    x * m / n
  }

  /** x & ~1U in 32 bits. */
  function Even(x: nat): nat { And(x, 0xffff_fffe) }

  lemma EvenClears(x: nat)
    requires x < 0x1_0000_0000
    ensures Even(x) == x / 2 * 2
  {
    RoundEven(x);
  }

  // ---- What each destination byte is ------------------------------------

  datatype Channel = Luma | Cb | Cr

  /** A sample of the destination image; chroma coordinates count pairs. */
  datatype Site = Site(channel: Channel, x: nat, y: nat)

  predicate InImage(s: Site, w: nat, h: nat) {
    if s.channel.Luma? then s.x < w && s.y < h else s.x < w / 2 && s.y < h / 2
  }

  /** The index in the source of the U byte for destination pixel (x, y); V follows it. */
  function ChromaIndex(f: Frame, x: nat, y: nat, w: nat, h: nat): (i: nat)
    requires IsNv12(f) && x < w && y < h
    ensures f.width * f.height <= i && i + 1 < |f.pixels|
  {
    InRow(Scale(y, f.height, h) / 2, Scale(x, f.width, w) / 2 * 2 + 1, f.height / 2, f.width);
    PairIndex(f.width, f.height, Scale(x, f.width, w), Scale(y, f.height, h))
  }

  /** The index of the U byte for source pixel (sx, sy). */
  function PairIndex(width: nat, height: nat, sx: nat, sy: nat): nat { width * height + sy / 2 * width + sx / 2 * 2 }

  function LumaIndex(f: Frame, x: nat, y: nat, w: nat, h: nat): (i: nat)
    requires IsNv12(f) && x < w && y < h
    ensures i < f.width * f.height <= |f.pixels|
  {
    InRow(Scale(y, f.height, h), Scale(x, f.width, w), f.height, f.width);
    Scale(y, f.height, h) * f.width + Scale(x, f.width, w)
  }

  /** The source byte a sample is taken from. */
  function SourceIndex(f: Frame, s: Site, w: nat, h: nat): (i: nat)
    requires IsNv12(f) && InImage(s, w, h)
    ensures i < |f.pixels|
  {
    match s.channel
    case Luma => LumaIndex(f, s.x, s.y, w, h)
    case Cb => ChromaIndex(f, s.x * 2, s.y * 2, w, h)
    case Cr => ChromaIndex(f, s.x * 2, s.y * 2, w, h) + 1
  }

  /** `value` gives each sample's source byte; a proof asks for one sample at a time. */
  ghost predicate Samples(value: Site -> byte, f: Frame, w: nat, h: nat)
    requires IsNv12(f)
  {
    forall s: Site {:trigger Asked(s)} :: Asked(s) && InImage(s, w, h) ==> value(s) == f.pixels[SourceIndex(f, s, w, h)]
  }

  predicate Asked(s: Site) { true }

  /** The source byte of every sample. */
  function ValueOf(f: Frame, w: nat, h: nat): (value: Site -> byte)
    requires IsNv12(f)
  {
    (s: Site) => if InImage(s, w, h) then f.pixels[SourceIndex(f, s, w, h)] else 0
  }

  lemma ValuesAreSamples(f: Frame, w: nat, h: nat)
    requires IsNv12(f)
    ensures Samples(ValueOf(f, w, h), f, w, h)
  {
  }

  // ---- Planes -----------------------------------------------------------

  /** Where the planes lie in memory; `present` when all three pointers are set. */
  datatype Planes = Planes(present: bool, y: nat, cb: nat, cr: nat, ystride: nat, cstride: nat, step: nat)

  function Address(p: Planes, s: Site): nat {
    match s.channel
    case Luma => p.y + s.y * p.ystride + s.x
    case Cb => p.cb + (s.y * p.cstride + s.x * p.step)
    case Cr => p.cr + (s.y * p.cstride + s.x * p.step)
  }

  /** The planes fit `size` bytes of memory and no two samples share an address. */
  ghost predicate Laid(p: Planes, w: nat, h: nat, size: nat) {
    && (forall s: Site :: InImage(s, w, h) ==> Address(p, s) < size)
    && (forall s: Site, t: Site :: InImage(s, w, h) && InImage(t, w, h) && Address(p, s) == Address(p, t) ==> s == t)
  }

  predicate Before(s: Site, x: nat, y: nat) { s.y < y || (s.y == y && s.x < x) }

  /** Memory shows the samples of `value` up to row `y`, column `x`, of luma or of chroma. */
  ghost predicate Copied(memory: seq<byte>, p: Planes, value: Site -> byte, w: nat, h: nat, luma: bool, x: nat, y: nat)
    requires Laid(p, w, h, |memory|)
  {
    forall s: Site ::
      InImage(s, w, h) && s.channel.Luma? == luma && Before(s, x, y) ==> memory[Address(p, s)] == value(s)
  }

  /** Memory that holds no luma sample, or no chroma sample, is as it was. */
  ghost predicate Kept(memory: seq<byte>, was: seq<byte>, p: Planes, w: nat, h: nat, luma: bool) {
    && |memory| == |was|
    && forall i ::
         0 <= i < |was| && (forall s: Site :: InImage(s, w, h) && s.channel.Luma? == luma ==> Address(p, s) != i)
         ==> memory[i] == was[i]
  }

  /**
   * copyToYuv: every sample gets its source byte and no other byte of memory changes; refused for missing
   * planes and odd sizes.
   */
  method CopyToYuv(f: Frame, w: nat, h: nat, p: Planes, memory: array<byte>) returns (ok: bool)
    requires IsNv12(f) && w < 0x1_0000_0000 && h < 0x1_0000_0000
    requires p.present ==> Laid(p, w, h, memory.Length)
    modifies memory
    ensures ok <==> p.present && w % 2 == 0 && h % 2 == 0
    ensures !ok ==> memory[..] == old(memory[..])
    ensures ok ==> forall s: Site :: InImage(s, w, h) ==> memory[Address(p, s)] == f.pixels[SourceIndex(f, s, w, h)]
    ensures ok ==> forall i :: 0 <= i < memory.Length && (forall s: Site :: InImage(s, w, h) ==> Address(p, s) != i) ==>
                     memory[i] == old(memory[i])
  {
    if !p.present || w % 2 == 1 || h % 2 == 1 {
      return false;
    }
    ghost var value := ValueOf(f, w, h);
    ValuesAreSamples(f, w, h);
    CopyLuma(f, w, h, p, memory, value);
    CopyChroma(f, w, h, p, memory, value);
    forall s: Site | InImage(s, w, h) ensures memory[Address(p, s)] == f.pixels[SourceIndex(f, s, w, h)] {
      assert Asked(s) && memory[..][Address(p, s)] == value(s);
    }
    return true;
  }

  /** The source byte of one luma sample. */
  method ReadLuma(f: Frame, x: nat, y: nat, w: nat, h: nat, sy: nat, ghost value: Site -> byte) returns (luma: byte)
    requires IsNv12(f) && x < w && y < h && sy == Scale(y, f.height, h) && Samples(value, f, w, h)
    ensures luma == value(Site(Luma, x, y))
  {
    var sx := Scale(x, f.width, w);
    assert Asked(Site(Luma, x, y)) && SourceIndex(f, Site(Luma, x, y), w, h) == LumaIndex(f, x, y, w, h);
    luma := f.pixels[sy * f.width + sx];
  }

  method WriteLuma(p: Planes, x: nat, y: nat, luma: byte, memory: array<byte>)
    requires Address(p, Site(Luma, x, y)) < memory.Length
    modifies memory
    ensures memory[..] == old(memory[..])[Address(p, Site(Luma, x, y)) := luma]
  {
    memory[p.y + y * p.ystride + x] := luma;
  }

  /** The first half of copyToYuv. */
  method CopyLuma(f: Frame, w: nat, h: nat, p: Planes, memory: array<byte>, ghost value: Site -> byte)
    requires IsNv12(f) && Laid(p, w, h, memory.Length) && Samples(value, f, w, h)
    modifies memory
    ensures Copied(memory[..], p, value, w, h, true, 0, h) && Kept(memory[..], old(memory[..]), p, w, h, true)
  {
    for y := 0 to h
      invariant Copied(memory[..], p, value, w, h, true, 0, y) && Kept(memory[..], old(memory[..]), p, w, h, true)
    {
      var sy := Scale(y, f.height, h);
      for x := 0 to w
        invariant Copied(memory[..], p, value, w, h, true, x, y) && Kept(memory[..], old(memory[..]), p, w, h, true)
      {
        ghost var here := Site(Luma, x, y);
        assert InImage(here, w, h);
        var luma := ReadLuma(f, x, y, w, h, sy, value);
        WriteLuma(p, x, y, luma, memory);
      }
    }
  }

  /** The source bytes of one chroma sample, at masked coordinates. */
  method ReadChroma(f: Frame, x: nat, y: nat, w: nat, h: nat, sy: nat, ghost value: Site -> byte)
      returns (u: byte, v: byte)
    requires IsNv12(f) && InImage(Site(Cb, x, y), w, h) && sy == Even(Scale(y * 2, f.height, h))
    requires Samples(value, f, w, h)
    ensures u == value(Site(Cb, x, y)) && v == value(Site(Cr, x, y))
  {
    var uv, sx := f.width * f.height, Even(Scale(x * 2, f.width, w));
    ChromaSite(f, x, y, w, h);
    assert Asked(Site(Cb, x, y)) && Asked(Site(Cr, x, y));
    u, v := f.pixels[uv + sy / 2 * f.width + sx], f.pixels[uv + sy / 2 * f.width + sx + 1];
  }

  method WriteChroma(p: Planes, x: nat, y: nat, u: byte, v: byte, memory: array<byte>)
    requires Address(p, Site(Cb, x, y)) < memory.Length && Address(p, Site(Cr, x, y)) < memory.Length
    requires Address(p, Site(Cb, x, y)) != Address(p, Site(Cr, x, y))
    modifies memory
    ensures memory[..] == old(memory[..])[Address(p, Site(Cb, x, y)) := u][Address(p, Site(Cr, x, y)) := v]
  {
    var cb, cr := p.cb + (y * p.cstride + x * p.step), p.cr + (y * p.cstride + x * p.step);
    memory[cb] := u;
    memory[cr] := v;
  }

  /** One more chroma sample. */
  lemma ChromaStep(now: seq<byte>, before: seq<byte>, was: seq<byte>, p: Planes, value: Site -> byte, w: nat, h: nat,
      x: nat, y: nat)
    requires Laid(p, w, h, |before|) && InImage(Site(Cb, x, y), w, h)
    requires Copied(before, p, value, w, h, false, x, y) && Kept(before, was, p, w, h, false)
    requires InImage(Site(Cr, x, y), w, h)
    requires var first := before[Address(p, Site(Cb, x, y)) := value(Site(Cb, x, y))];
             now == first[Address(p, Site(Cr, x, y)) := value(Site(Cr, x, y))]
    ensures Laid(p, w, h, |now|) && Copied(now, p, value, w, h, false, x + 1, y) && Kept(now, was, p, w, h, false)
  {
  }

  lemma ChromaRow(memory: seq<byte>, p: Planes, value: Site -> byte, w: nat, h: nat, y: nat)
    requires Laid(p, w, h, |memory|)
    ensures Copied(memory, p, value, w, h, false, w / 2, y) <==> Copied(memory, p, value, w, h, false, 0, y + 1)
  {
  }

  /** The second half of copyToYuv. */
  method CopyChroma(f: Frame, w: nat, h: nat, p: Planes, memory: array<byte>, ghost value: Site -> byte)
    requires IsNv12(f) && Laid(p, w, h, memory.Length) && Samples(value, f, w, h)
    modifies memory
    ensures Copied(memory[..], p, value, w, h, false, 0, h / 2) && Kept(memory[..], old(memory[..]), p, w, h, false)
  {
    for y := 0 to h / 2
      invariant Copied(memory[..], p, value, w, h, false, 0, y) && Kept(memory[..], old(memory[..]), p, w, h, false)
    {
      var sy := Even(Scale(y * 2, f.height, h));
      for x := 0 to w / 2
        invariant Copied(memory[..], p, value, w, h, false, x, y) && Kept(memory[..], old(memory[..]), p, w, h, false)
      {
        ghost var cb, cr := Site(Cb, x, y), Site(Cr, x, y);
        assert InImage(cb, w, h) && InImage(cr, w, h);
        ghost var before := memory[..];
        var u, v := ReadChroma(f, x, y, w, h, sy, value);
        WriteChroma(p, x, y, u, v, memory);
        ChromaStep(memory[..], before, old(memory[..]), p, value, w, h, x, y);
      }
      ChromaRow(memory[..], p, value, w, h, y);
    }
  }

  lemma Bounded(f: Frame)
    requires IsNv12(f)
    ensures f.width < 0x1_0000_0000 && f.height < 0x1_0000_0000
  {
    Factors(f.width, f.height);
  }

  lemma Factors(a: nat, b: nat)
    requires a > 0 && b > 0
    ensures a <= a * b && b <= a * b
  {
  }

  /** The masked indices are the sample's. */
  lemma ChromaSite(f: Frame, x: nat, y: nat, w: nat, h: nat)
    requires IsNv12(f) && x < w / 2 && y < h / 2
    ensures var sx, sy := Even(Scale(x * 2, f.width, w)), Even(Scale(y * 2, f.height, h));
            ChromaIndex(f, x * 2, y * 2, w, h) == f.width * f.height + sy / 2 * f.width + sx
  {
    Bounded(f);
    EvenClears(Scale(x * 2, f.width, w));
    EvenClears(Scale(y * 2, f.height, h));
  }

  // ---- Packed NV12 ------------------------------------------------------

  function Packed(w: nat, h: nat): Planes { Planes(true, 0, w * h, w * h + 1, w, w, 2) }

  function PackedSize(w: nat, h: nat): nat { w * h + w * h / 2 }

  /** The one sample that byte `i` of a packed image holds. */
  function SiteAt(i: nat, w: nat, h: nat): Site
    requires w > 0
  {
    if i < w * h then Site(Luma, i % w, i / w)
    else
      var j := i - w * h;
      Site(if j % w % 2 == 0 then Cb else Cr, j % w / 2, j / w)
  }

  predicate EvenSize(w: nat, h: nat) { w > 0 && h > 0 && w % 2 == 0 && h % 2 == 0 }

  lemma HalfSize(w: nat, h: nat)
    requires EvenSize(w, h)
    ensures PackedSize(w, h) == w * h + h / 2 * w
  {
    assert w * h == 2 * (h / 2 * w);
  }

  /** A place in row `y`, counted from `start`, is found again by division. */
  lemma PlaceInRow(start: nat, x: nat, y: nat, w: nat, rows: nat)
    requires x < w && y < rows
    ensures start + y * w + x < start + rows * w
    ensures (y * w + x) % w == x && (y * w + x) / w == y
  {
    InRow(y, x, rows, w);
    RowColumn(y, x, w);
  }

  /** Every sample has an address of its own... */
  lemma SiteOfAddress(s: Site, w: nat, h: nat)
    requires EvenSize(w, h) && InImage(s, w, h)
    ensures Address(Packed(w, h), s) < PackedSize(w, h) && SiteAt(Address(Packed(w, h), s), w, h) == s
  {
    HalfSize(w, h);
    match s.channel
    case Luma =>
      PlaceInRow(0, s.x, s.y, w, h);
    case Cb =>
      PlaceInRow(w * h, s.x * 2, s.y, w, h / 2);
    case Cr =>
      PlaceInRow(w * h, s.x * 2 + 1, s.y, w, h / 2);
  }

  /** ... and every byte of the image is some sample's. */
  lemma AddressOfSite(i: nat, w: nat, h: nat)
    requires EvenSize(w, h) && i < PackedSize(w, h)
    ensures InImage(SiteAt(i, w, h), w, h) && Address(Packed(w, h), SiteAt(i, w, h)) == i
  {
    HalfSize(w, h);
    if i < w * h {
      Split(i, h, w);
    } else {
      Split(i - w * h, h / 2, w);
    }
  }

  lemma PackedIsLaid(w: nat, h: nat)
    requires EvenSize(w, h)
    ensures Laid(Packed(w, h), w, h, PackedSize(w, h))
  {
    forall s: Site | InImage(s, w, h) ensures Address(Packed(w, h), s) < PackedSize(w, h) {
      SiteOfAddress(s, w, h);
    }
    forall s: Site, t: Site | InImage(s, w, h) && InImage(t, w, h)
        && Address(Packed(w, h), s) == Address(Packed(w, h), t)
      ensures s == t
    {
      SiteOfAddress(s, w, h);
      SiteOfAddress(t, w, h);
    }
  }

  function ScaledByte(f: Frame, i: nat, w: nat, h: nat): byte
    requires IsNv12(f) && EvenSize(w, h) && i < PackedSize(w, h)
  {
    AddressOfSite(i, w, h);
    f.pixels[SourceIndex(f, SiteAt(i, w, h), w, h)]
  }

  /** The scaled image: every byte of it is one source byte. */
  function Scaled(f: Frame, w: nat, h: nat): seq<byte>
    requires IsNv12(f) && EvenSize(w, h)
  {
    seq(PackedSize(w, h), i requires 0 <= i < PackedSize(w, h) => ScaledByte(f, i, w, h))
  }

  /** A packed image that gives every sample its source byte is the scaled image. */
  lemma PackedIsScaled(memory: seq<byte>, f: Frame, w: nat, h: nat)
    requires IsNv12(f) && EvenSize(w, h) && |memory| == PackedSize(w, h) && Laid(Packed(w, h), w, h, |memory|)
    requires forall s: Site :: InImage(s, w, h) ==>
               memory[Address(Packed(w, h), s)] == f.pixels[SourceIndex(f, s, w, h)]
    ensures memory == Scaled(f, w, h)
  {
    forall i | 0 <= i < |memory| ensures memory[i] == Scaled(f, w, h)[i] {
      AddressOfSite(i, w, h);
    }
  }

  /** copyToScaledNv12: None when enlarging or for sizes that are zero or odd. */
  method CopyToScaledNv12(f: Frame, w: nat, h: nat) returns (ok: bool, pixels: array<byte>)
    requires IsNv12(f)
    ensures ok <==> EvenSize(w, h) && w <= f.width && h <= f.height
    ensures fresh(pixels)
    ensures ok ==> pixels[..] == Scaled(f, w, h)
  {
    if w == 0 || h == 0 || w % 2 == 1 || h % 2 == 1 || w > f.width || h > f.height {
      pixels := new byte[0];
      return false, pixels;
    }
    var yBytes := w * h;
    pixels := new byte[yBytes + yBytes / 2];
    Bounded(f);
    PackedIsLaid(w, h);
    ok := CopyToYuv(f, w, h, Planes(true, 0, yBytes, yBytes + 1, w, w, 2), pixels);
    PackedIsScaled(pixels[..], f, w, h);
  }

  lemma ScaleKeeps(x: nat, n: nat)
    requires x < n
    ensures Scale(x, n, n) == x
  {
    RowColumn(x, 0, n);
  }

  lemma LumaKeeps(f: Frame, x: nat, y: nat)
    requires IsNv12(f) && x < f.width && y < f.height
    ensures LumaIndex(f, x, y, f.width, f.height) == y * f.width + x
  {
    ScaleKeeps(x, f.width);
    ScaleKeeps(y, f.height);
  }

  lemma ChromaKeeps(f: Frame, x: nat, y: nat)
    requires IsNv12(f) && x < f.width && y < f.height
    ensures ChromaIndex(f, x, y, f.width, f.height) == f.width * f.height + y / 2 * f.width + x / 2 * 2
  {
    ScaleKeeps(x, f.width);
    ScaleKeeps(y, f.height);
  }

  lemma SourceIsAddress(f: Frame, s: Site)
    requires IsNv12(f) && InImage(s, f.width, f.height)
    ensures SourceIndex(f, s, f.width, f.height) == Address(Packed(f.width, f.height), s)
  {
    if s.channel.Luma? {
      LumaKeeps(f, s.x, s.y);
    } else {
      var x, y := s.x * 2, s.y * 2;
      ChromaKeeps(f, x, y);
      assert y / 2 == s.y && x / 2 * 2 == s.x * 2;
    }
  }

  /** At equal sizes nothing is resampled: the packed image is the frame. */
  lemma ScaledIsIdentity(f: Frame)
    requires IsNv12(f)
    ensures Scaled(f, f.width, f.height) == f.pixels
  {
    var w, h := f.width, f.height;
    HalfSize(w, h);
    forall i | 0 <= i < |f.pixels| ensures ScaledByte(f, i, w, h) == f.pixels[i] {
      AddressOfSite(i, w, h);
      SourceIsAddress(f, SiteAt(i, w, h));
    }
  }

  // ---- RGBA -------------------------------------------------------------

  datatype Rgba = Rgba(r: byte, g: byte, b: byte, a: byte)

  function Clamp8(value: int): byte { if value < 0 then 0 else if value > 255 then 255 else value }

  /** The fixed-point conversion; >> 8 rounds down. */
  function Convert(luma: byte, cb: byte, cr: byte): Rgba {
    var y: int, u: int, v: int := if luma < 16 then 0 else luma as int - 16, cb as int - 128, cr as int - 128;
    Rgba(Clamp8((298 * y + 409 * v + 128) / 256), Clamp8((298 * y - 100 * u - 208 * v + 128) / 256),
         Clamp8((298 * y + 516 * u + 128) / 256), 255)
  }

  function RgbaAt(f: Frame, x: nat, y: nat, w: nat, h: nat): Rgba
    requires IsNv12(f) && x < w && y < h
  {
    var c := ChromaIndex(f, x, y, w, h);
    Convert(f.pixels[LumaIndex(f, x, y, w, h)], f.pixels[c], f.pixels[c + 1])
  }

  /** Where row `y` starts when rows are `stride` pixels of four bytes apart. */
  function RowStart(y: nat, stride: nat): nat { y * stride * 4 }

  /** Byte `i` belongs to a pixel of the image rather than to the padding of a row. */
  predicate InPixel(i: nat, w: nat, h: nat, stride: nat) {
    stride > 0 && i / 4 / stride < h && i / 4 % stride < w
  }

  predicate Shows(memory: seq<byte>, at: nat, c: Rgba)
    requires at + 4 <= |memory|
  {
    memory[at] == c.r && memory[at + 1] == c.g && memory[at + 2] == c.b && memory[at + 3] == c.a
  }

  /** A byte inside the first `w` pixels of a row is no padding. */
  lemma RowBytes(i: nat, y: nat, w: nat, h: nat, stride: nat)
    requires w <= stride && y < h && RowStart(y, stride) <= i < RowStart(y, stride) + 4 * w
    ensures InPixel(i, w, h, stride)
  {
    var x := i / 4 - y * stride;
    RowColumn(y, x, stride);
  }

  lemma RowsApart(y: nat, z: nat, w: nat, stride: nat)
    requires y < z && w <= stride
    ensures RowStart(y, stride) + 4 * w <= RowStart(z, stride)
  {
    assert (y + 1) * stride <= z * stride;
  }

  /** The first `n` pixels of the row that starts at `start` show the colours of `colour`. */
  ghost predicate RowShown(memory: seq<byte>, start: nat, n: nat, colour: nat -> Rgba)
    requires start + 4 * n <= |memory|
  {
    forall x | 0 <= x < n :: Shows(memory, start + 4 * x, colour(x))
  }

  /** The colours of row `y`. */
  function RowColours(f: Frame, y: nat, w: nat, h: nat): nat -> Rgba
    requires IsNv12(f) && y < h
  {
    (x: nat) => if x < w then RgbaAt(f, x, y, w, h) else Rgba(0, 0, 0, 0)
  }

  /** Memory outside [lo, hi) is as it was. */
  ghost predicate KeptOutside(memory: seq<byte>, was: seq<byte>, lo: nat, hi: nat) {
    |memory| == |was| && forall i | 0 <= i < |was| && !(lo <= i < hi) :: memory[i] == was[i]
  }

  method WritePixel(destination: array<byte>, out: nat, c: Rgba)
    requires out + 4 <= destination.Length
    modifies destination
    ensures Shows(destination[..], out, c) && KeptOutside(destination[..], old(destination[..]), out, out + 4)
  {
    destination[out] := c.r;
    destination[out + 1] := c.g;
    destination[out + 2] := c.b;
    destination[out + 3] := c.a;
  }

  /** The 32-bit chroma index does not wrap, and is the sample's. */
  lemma MaskedIndex(f: Frame, x: nat, y: nat, w: nat, h: nat)
    requires IsNv12(f) && x < w && y < h
    ensures var sx, sy := Scale(x, f.width, w), Scale(y, f.height, h);
            f.width * f.height + (sy / 2 * f.width + Even(sx)) % 0x1_0000_0000 == ChromaIndex(f, x, y, w, h)
  {
    Bounded(f);
    MaskedSum(f.width, f.height, Scale(x, f.width, w), Scale(y, f.height, h));
  }

  lemma MaskedSum(width: nat, height: nat, sx: nat, sy: nat)
    requires width % 2 == 0 && height % 2 == 0 && sx < width < 0x1_0000_0000 && sy < height
    requires width * (height / 2) <= CameraWire.MAX_FRAME_BYTES
    ensures (sy / 2 * width + Even(sx)) % 0x1_0000_0000 == sy / 2 * width + sx / 2 * 2
  {
    EvenClears(sx);
    InRow(sy / 2, sx / 2 * 2, height / 2, width);
    Unwrapped(sy / 2 * width + Even(sx));
  }

  lemma Unwrapped(n: nat)
    requires n < 0x1_0000_0000
    ensures n % 0x1_0000_0000 == n
  {
  }

  /** The body of copyToRgba's inner loop, up to its four writes. */
  method Colour(f: Frame, x: nat, y: nat, w: nat, h: nat, sy: nat) returns (c: Rgba)
    requires IsNv12(f) && x < w && y < h && sy == Scale(y, f.height, h)
    ensures c == RgbaAt(f, x, y, w, h)
  {
    var uv, sx := f.width * f.height, Scale(x, f.width, w);
    var index := (sy / 2 * f.width + Even(sx)) % 0x1_0000_0000;
    MaskedIndex(f, x, y, w, h);
    assert uv + index == ChromaIndex(f, x, y, w, h);
    assert sy * f.width + sx == LumaIndex(f, x, y, w, h);
    c := Convert(f.pixels[sy * f.width + sx], f.pixels[uv + index], f.pixels[uv + index + 1]);
  }

  /** The inner loop of copyToRgba. */
  method CopyRow(f: Frame, y: nat, w: nat, h: nat, start: nat, destination: array<byte>, ghost colour: nat -> Rgba)
    requires IsNv12(f) && y < h && start + 4 * w <= destination.Length && colour == RowColours(f, y, w, h)
    modifies destination
    ensures RowShown(destination[..], start, w, colour)
    ensures KeptOutside(destination[..], old(destination[..]), start, start + 4 * w)
  {
    var sy := Scale(y, f.height, h);
    for x := 0 to w
      invariant RowShown(destination[..], start, x, colour)
      invariant KeptOutside(destination[..], old(destination[..]), start, start + 4 * x)
    {
      var c := RowColour(f, x, y, w, h, sy, colour);
      WritePixel(destination, start + 4 * x, c);
    }
  }

  method RowColour(f: Frame, x: nat, y: nat, w: nat, h: nat, sy: nat, ghost colour: nat -> Rgba) returns (c: Rgba)
    requires IsNv12(f) && x < w && y < h && sy == Scale(y, f.height, h) && colour == RowColours(f, y, w, h)
    ensures c == colour(x)
  {
    c := Colour(f, x, y, w, h, sy);
  }

  /** An earlier row, when the bytes of row `y` are rewritten. */
  lemma RowKept(now: seq<byte>, was: seq<byte>, y: nat, w: nat, stride: nat, z: nat, colour: nat -> Rgba)
    requires w <= stride && z < y && RowStart(z, stride) + 4 * w <= |was|
    requires KeptOutside(now, was, RowStart(y, stride), RowStart(y, stride) + 4 * w)
    requires RowShown(was, RowStart(z, stride), w, colour)
    ensures RowShown(now, RowStart(z, stride), w, colour)
  {
    RowsApart(z, y, w, stride);
    var start := RowStart(z, stride);
    forall x | 0 <= x < w ensures Shows(now, start + 4 * x, colour(x)) {
      assert Shows(was, start + 4 * x, colour(x));
    }
  }

  /** The first `n` rows show their colours. */
  ghost predicate RowsShown(memory: seq<byte>, f: Frame, n: nat, w: nat, h: nat, stride: nat)
    requires IsNv12(f) && n <= h
  {
    forall z | 0 <= z < n ::
      RowStart(z, stride) + 4 * w <= |memory| && RowShown(memory, RowStart(z, stride), w, RowColours(f, z, w, h))
  }

  lemma RowsKept(now: seq<byte>, was: seq<byte>, f: Frame, y: nat, w: nat, h: nat, stride: nat)
    requires IsNv12(f) && w <= stride && y < h && RowsShown(was, f, y, w, h, stride)
    requires RowStart(y, stride) + 4 * w <= |now|
    requires KeptOutside(now, was, RowStart(y, stride), RowStart(y, stride) + 4 * w)
    requires RowShown(now, RowStart(y, stride), w, RowColours(f, y, w, h))
    ensures RowsShown(now, f, y + 1, w, h, stride)
  {
    forall z | 0 <= z < y ensures RowShown(now, RowStart(z, stride), w, RowColours(f, z, w, h)) {
      RowKept(now, was, y, w, stride, z, RowColours(f, z, w, h));
    }
  }

  /** Bytes that no pixel covers are as they were. */
  ghost predicate PaddingKept(memory: seq<byte>, was: seq<byte>, w: nat, h: nat, stride: nat) {
    |memory| == |was| && forall i | 0 <= i < |was| && !InPixel(i, w, h, stride) :: memory[i] == was[i]
  }

  lemma PaddingStays(now: seq<byte>, before: seq<byte>, was: seq<byte>, y: nat, w: nat, h: nat, stride: nat)
    requires w <= stride && y < h && PaddingKept(before, was, w, h, stride)
    requires KeptOutside(now, before, RowStart(y, stride), RowStart(y, stride) + 4 * w)
    ensures PaddingKept(now, was, w, h, stride)
  {
    forall i | 0 <= i < |was| && !InPixel(i, w, h, stride) ensures now[i] == was[i] {
      if RowStart(y, stride) <= i < RowStart(y, stride) + 4 * w {
        RowBytes(i, y, w, h, stride);
      }
    }
  }

  /**
   * copyToRgba: every pixel shows the colour converted from its samples and no padding byte changes; refused
   * when the rows overlap.
   */
  method CopyToRgba(f: Frame, w: nat, h: nat, stride: nat, destination: array<byte>) returns (ok: bool)
    requires IsNv12(f) && RowStart(h, stride) <= destination.Length
    modifies destination
    ensures ok <==> stride >= w
    ensures !ok ==> destination[..] == old(destination[..])
    ensures ok ==> RowsShown(destination[..], f, h, w, h, stride)
    ensures ok ==> PaddingKept(destination[..], old(destination[..]), w, h, stride)
  {
    if stride < w {
      return false;
    }
    for y := 0 to h
      invariant RowsShown(destination[..], f, y, w, h, stride)
      invariant PaddingKept(destination[..], old(destination[..]), w, h, stride)
    {
      ghost var was := destination[..];
      RowsApart(y, h, w, stride);
      CopyRow(f, y, w, h, RowStart(y, stride), destination, RowColours(f, y, w, h));
      RowsKept(destination[..], was, f, y, w, h, stride);
      PaddingStays(destination[..], was, old(destination[..]), y, w, h, stride);
    }
    return true;
  }

  /** What the rows show, pixel by pixel. */
  lemma PixelIsShown(memory: seq<byte>, f: Frame, x: nat, y: nat, w: nat, h: nat, stride: nat)
    requires IsNv12(f) && x < w && y < h && RowsShown(memory, f, h, w, h, stride)
    ensures RowStart(y, stride) + 4 * x + 4 <= |memory|
            && Shows(memory, RowStart(y, stride) + 4 * x, RgbaAt(f, x, y, w, h))
  {
    assert RowShown(memory, RowStart(y, stride), w, RowColours(f, y, w, h));
    assert Shows(memory, RowStart(y, stride) + 4 * x, RowColours(f, y, w, h)(x));
  }
}
