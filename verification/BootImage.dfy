/**
 * The boot image: the package validator's header check and streaming inspection (system-package.py) and the
 * native size readers (StorageImageSizes.h).
 */
module BootImage {
  import opened Wrappers
  import opened Bytes
  import opened Bits

  datatype BootError = BadHeader | Reserved | BadSize | WrongLength | NotArm64 | NotGzip

  datatype Layout = Layout(kernel: nat, ramdisk: nat, ramdiskAt: nat)

  /** "ANDROID!", "ARM" with 0x64, and the gzip magic. */
  const ANDROID: seq<byte> := [65, 78, 68, 82, 79, 73, 68, 33]
  const ARM64: seq<byte> := [65, 82, 77, 0x64]
  const GZIP: seq<byte> := [0x1f, 0x8b, 0x08]

  predicate Zero(s: seq<byte>) { forall i :: 0 <= i < |s| ==> s[i] == 0 }

  function Pages(n: nat): nat { (n + 4095) / 4096 * 4096 }

  /** boot_header: the layout of a boot file of `length` bytes that starts with `data`. */
  function BootHeader(data: seq<byte>, length: nat): Result<Layout, BootError> {
    if |data| < 4096 || data[..8] != ANDROID || Num(data, 40, 4) != 4 then Err(BadHeader)
    else
      var kernel, ramdisk := Num(data, 8, 4), Num(data, 12, 4);
      if Num(data, 20, 4) != 1584 || !Zero(data[24..40]) || !Zero(data[44..4096]) then Err(Reserved)
      else if !(64 <= kernel <= 0x1000_0000) || !(10 <= ramdisk <= 0x400_0000) then Err(BadSize)
      else
        var ramdiskAt := 4096 + Pages(kernel);
        if length != ramdiskAt + Pages(ramdisk) then Err(WrongLength) else Ok(Layout(kernel, ramdisk, ramdiskAt))
  }

  // ---- The native readers -----------------------------------------------

  function Le32(h: seq<byte>, at: nat): nat
    requires at + 4 <= |h|
  {
    var b0: nat, b1: nat, b2: nat, b3: nat := h[at], h[at + 1], h[at + 2], h[at + 3];
    Or(Or(Or(b0, b1 * Pow2(8)), b2 * Pow2(16)), b3 * Pow2(24))
  }

  const TWO_TO_THE_64: nat := 0x1_0000_0000_0000_0000

  /** (x + 4095) & ~uint64_t(4095). */
  function Align(x: nat): nat { And((x + 4095) % TWO_TO_THE_64, TWO_TO_THE_64 - 1 - 4095) }

  function ImageBytes(kernel: nat, ramdisk: nat): nat {
    (4096 + Align(kernel) + Align(ramdisk)) % TWO_TO_THE_64
  }

  /** The 32-bit words of a header. */
  function Words(h: seq<byte>): nat -> nat {
    (at: nat) => if at + 4 <= |h| then Le32(h, at) else 0
  }

  predicate Supported(whole: bool, word: nat -> nat) {
    whole && word(40) == 4 && word(20) == 1584 && word(1580) == 0 && word(8) != 0
  }

  /** The image's size from the words of a header that is `whole` and carries the magic. */
  function SizeOf(whole: bool, word: nat -> nat, capacity: nat): Option<nat> {
    if !Supported(whole, word) || ImageBytes(word(8), word(12)) > capacity then None
    else Some(ImageBytes(word(8), word(12)))
  }

  /** bootBytes: the image's size; None when the header is unsupported or the size exceeds `capacity`. */
  function BootBytes(h: seq<byte>, capacity: nat): Option<nat> {
    SizeOf(|h| >= 4096 && h[..8] == ANDROID, Words(h), capacity)
  }

  /** erofsBytes: the size of a raw EROFS image with 4 KiB blocks. */
  function ErofsBytes(h: seq<byte>, capacity: nat): (size: Option<nat>)
    ensures size.Some? ==> 4096 <= size.value <= capacity
  {
    if |h| < 4096 || Le32(h, 1024) != 0xe0f5e1e2 || h[1036] != 12 || And(Le32(h, 1104), 0x80) != 0 then None
    else
      var bytes := Le32(h, 1060) * 4096 % TWO_TO_THE_64;
      if bytes < 4096 || bytes > capacity then None else Some(bytes)
  }

  lemma FourBytes(h: seq<byte>, at: nat)
    requires at + 4 <= |h|
    ensures Num(h, at, 4) == h[at] as int + 0x100 * h[at + 1] as int + 0x1_0000 * h[at + 2] as int
            + 0x100_0000 * h[at + 3] as int
  {
    assert LittleEndian(h, at + 3, at + 4) == h[at + 3];
    assert LittleEndian(h, at + 2, at + 4) == h[at + 2] as int + 256 * h[at + 3] as int;
    assert LittleEndian(h, at + 1, at + 4) == h[at + 1] as int + 256 * LittleEndian(h, at + 2, at + 4);
  }

  /** The bytes joined by shifts and ors are the little-endian number the Python side unpacks. */
  lemma Le32IsNumber(h: seq<byte>, at: nat)
    requires at + 4 <= |h|
    ensures Le32(h, at) == Num(h, at, 4) < 0x1_0000_0000
  {
    Powers();
    var b0: nat, b1: nat, b2: nat, b3: nat := h[at], h[at + 1], h[at + 2], h[at + 3];
    OrShifted(b0, b1, 8);
    OrShifted(b0 + b1 * 0x100, b2, 16);
    OrShifted(b0 + b1 * 0x100 + b2 * 0x1_0000, b3, 24);
    FourBytes(h, at);
  }

  lemma InRange(x: nat)
    requires x < TWO_TO_THE_64
    ensures x % TWO_TO_THE_64 == x
  {
  }

  /** Alignment by mask is alignment by division. */
  lemma AlignIsPages(x: nat)
    requires x < 0x1_0000_0000
    ensures Align(x) == Pages(x)
  {
    var y := x + 4095;
    InRange(y);
    RoundDown(y);
  }

  /** A size computed by masks and shifts in 64 bits is the sum of the rounded parts. */
  lemma ImageBytesIsPages(kernel: nat, ramdisk: nat)
    requires kernel < 0x1_0000_0000 && ramdisk < 0x1_0000_0000
    ensures ImageBytes(kernel, ramdisk) == 4096 + Pages(kernel) + Pages(ramdisk)
  {
    AlignIsPages(kernel);
    AlignIsPages(ramdisk);
    PagesBound(kernel);
    PagesBound(ramdisk);
    SumInRange(Pages(kernel), Pages(ramdisk));
  }

  lemma SumInRange(a: nat, b: nat)
    requires a < 0x2_0000_0000 && b < 0x2_0000_0000
    ensures (4096 + a + b) % TWO_TO_THE_64 == 4096 + a + b
  {
    InRange(4096 + a + b);
  }

  lemma PagesBound(x: nat)
    ensures x <= Pages(x) < x + 4096
  {
  }

  lemma {:induction false} ZeroNumber(s: seq<byte>, lo: nat, hi: nat)
    requires lo <= hi <= |s| && Zero(s[lo..hi])
    ensures LittleEndian(s, lo, hi) == 0
    decreases hi - lo
  {
    if lo != hi {
      assert s[lo] == s[lo..hi][0];
      assert s[lo + 1..hi] == s[lo..hi][1..];
      ZeroNumber(s, lo + 1, hi);
    }
  }

  lemma AcceptedFields(data: seq<byte>, length: nat)
    requires BootHeader(data, length).Ok?
    ensures |data| >= 4096 && data[..8] == ANDROID
    ensures Num(data, 40, 4) == 4 && Num(data, 20, 4) == 1584 && Num(data, 1580, 4) == 0 && Num(data, 8, 4) >= 64
    ensures length == 4096 + Pages(Num(data, 8, 4)) + Pages(Num(data, 12, 4)) <= 0x2000_0000
  {
    forall i | 0 <= i < 4 ensures data[1580..1584][i] == 0 {
      assert data[1580..1584][i] == data[44..4096][1536 + i];
    }
    ZeroNumber(data, 1580, 1584);
  }

  lemma WordIsNumber(h: seq<byte>, at: nat)
    requires at + 4 <= |h|
    ensures Words(h)(at) == Num(h, at, 4) < 0x1_0000_0000
  {
    Le32IsNumber(h, at);
  }

  lemma AcceptedIsSupported(data: seq<byte>, length: nat)
    requires BootHeader(data, length).Ok?
    ensures |data| >= 4096 && data[..8] == ANDROID && Supported(true, Words(data))
    ensures Words(data)(8) < 0x1_0000_0000 && Words(data)(12) < 0x1_0000_0000
    ensures length == 4096 + Pages(Words(data)(8)) + Pages(Words(data)(12))
  {
    AcceptedFields(data, length);
    WordIsNumber(data, 8);
    WordIsNumber(data, 12);
    WordIsNumber(data, 20);
    WordIsNumber(data, 40);
    WordIsNumber(data, 1580);
  }

  lemma {:induction false} SupportedSize(word: nat -> nat, capacity: nat)
    requires Supported(true, word) && word(8) < 0x1_0000_0000 && word(12) < 0x1_0000_0000
    ensures var length := 4096 + Pages(word(8)) + Pages(word(12));
            SizeOf(true, word, capacity) == if length <= capacity then Some(length) else None
  {
    ImageBytesIsPages(word(8), word(12));
  }

  lemma SupportedBytes(data: seq<byte>, length: nat, capacity: nat)
    requires |data| >= 4096 && data[..8] == ANDROID && Supported(true, Words(data))
    requires Words(data)(8) < 0x1_0000_0000 && Words(data)(12) < 0x1_0000_0000
    requires length == 4096 + Pages(Words(data)(8)) + Pages(Words(data)(12))
    ensures BootBytes(data, capacity) == if length <= capacity then Some(length) else None
  {
    SupportedSize(Words(data), capacity);
  }

  /** Where the validator accepts a boot file of length L, the native reader measures L, exactly when L fits. */
  lemma NativeSizeAgrees(data: seq<byte>, length: nat, capacity: nat)
    requires BootHeader(data, length).Ok?
    ensures BootBytes(data, capacity) == if length <= capacity then Some(length) else None
  {
    AcceptedIsSupported(data, length);
    SupportedBytes(data, length, capacity);
  }

  lemma NoWrap(n: nat)
    requires n < 0x1_0000_0000
    ensures n * 4096 % TWO_TO_THE_64 == n * 4096
  {
  }

  lemma AndBit7(x: nat)
    ensures And(x, 0x80) != 0 <==> x / 128 % 2 == 1
  {
    Powers();
    AndShifted(x / 128, x % 128, 1, 7);
    AndLow(x / 256, x / 128 % 2, 1);
  }

  /** erofsBytes accepts whole blocks that fit, and the feature bit it rejects is bit 7. */
  lemma ErofsIsBlocks(h: seq<byte>, capacity: nat)
    requires |h| >= 4096
    ensures ErofsBytes(h, capacity).Some? <==>
              && Num(h, 1024, 4) == 0xe0f5e1e2 && h[1036] == 12 && Num(h, 1104, 4) / 128 % 2 == 0
              && 1 <= Num(h, 1060, 4) && Num(h, 1060, 4) * 4096 <= capacity
    ensures ErofsBytes(h, capacity).Some? ==> ErofsBytes(h, capacity).value == Num(h, 1060, 4) * 4096
  {
    Le32IsNumber(h, 1024);
    Le32IsNumber(h, 1060);
    Le32IsNumber(h, 1104);
    AndBit7(Le32(h, 1104));
    NoWrap(Le32(h, 1060));
  }

  // ---- The streaming inspection -----------------------------------------

  /** s[lo..hi] as Python slices it. */
  function Slice(s: seq<byte>, lo: nat, hi: nat): seq<byte>
    requires lo <= hi
  {
    s[if lo < |s| then lo else |s|..if hi < |s| then hi else |s|]
  }

  /** What the kernel digest is fed, and the three bytes taken for the ramdisk's magic. */
  datatype Inspection = Inspection(header: seq<byte>, kernel: seq<byte>, magic: seq<byte>)

  predicate Arm64(data: seq<byte>) {
    Slice(data, 4152, 4156) == ARM64 && And(Num(data, 4120, 8) / 2, 3) == 1
  }

  type Parser = seq<byte> -> Result<Layout, BootError>

  /** The result for a file whose first chunk has `first` bytes, with `parse` reading the header. */
  function InspectWith(file: seq<byte>, first: nat, length: nat, parse: Parser): Result<Inspection, BootError>
    requires first <= |file| && (file != [] ==> first > 0)
  {
    if file == [] then Err(if length != 0 then WrongLength else NotGzip)
    else
      var boot := parse(Slice(file[..first], 0, 4096));
      if boot.Err? then Err(boot.error)
      else if !Arm64(file[..first]) then Err(NotArm64)
      else if |file| != length then Err(WrongLength)
      else
        var magic := Slice(file, boot.value.ramdiskAt, boot.value.ramdiskAt + 3);
        if magic != GZIP then Err(NotGzip)
        else Ok(Inspection(Slice(file, 0, 4096), Slice(file, 4096, 4096 + boot.value.kernel), magic))
  }

  function Inspect(file: seq<byte>, first: nat, length: nat): Result<Inspection, BootError>
    requires first <= |file| && (file != [] ==> first > 0)
  {
    InspectWith(file, first, length, data => BootHeader(data, length))
  }

  /** The part of `data` that falls in [lo, hi) when it starts at `offset`. */
  function Overlap(data: seq<byte>, offset: nat, lo: nat, hi: nat): seq<byte>
    requires lo <= hi
  {
    var begin := if lo > offset then lo else offset;
    var end := if hi < offset + |data| then hi else offset + |data|;
    if begin < end then data[begin - offset..end - offset] else []
  }

  lemma SliceAcross(s: seq<byte>, data: seq<byte>, lo: nat, end: nat)
    requires lo <= |s| <= end <= |s| + |data|
    ensures (s + data)[lo..end] == s[lo..] + data[..end - |s|]
  {
  }

  lemma SliceInside(s: seq<byte>, data: seq<byte>, lo: nat, end: nat)
    requires |s| <= lo <= end <= |s| + |data|
    ensures (s + data)[lo..end] == data[lo - |s|..end - |s|]
  {
  }

  /** A window that ends within the bytes seen before. */
  lemma WindowBefore(s: seq<byte>, data: seq<byte>, lo: nat, hi: nat)
    requires lo <= hi <= |s|
    ensures Slice(s + data, lo, hi) == Slice(s, lo, hi) && Overlap(data, |s|, lo, hi) == []
  {
    assert Slice(s + data, lo, hi) == (s + data)[lo..hi];
    assert (s + data)[lo..hi] == s[lo..hi];
  }

  /** A window that starts in the bytes seen before and ends in the new ones, or after them. */
  lemma WindowAcross(s: seq<byte>, data: seq<byte>, lo: nat, hi: nat)
    requires lo <= |s| < hi
    ensures Slice(s + data, lo, hi) == Slice(s, lo, hi) + Overlap(data, |s|, lo, hi)
  {
    var end := if hi < |s| + |data| then hi else |s| + |data|;
    SliceAcross(s, data, lo, end);
    assert Slice(s + data, lo, hi) == (s + data)[lo..end];
    assert Slice(s, lo, hi) == s[lo..];
    assert Overlap(data, |s|, lo, hi) == data[..end - |s|];
  }

  /** A window that starts after the bytes seen before. */
  lemma WindowAfter(s: seq<byte>, data: seq<byte>, lo: nat, hi: nat)
    requires |s| < lo <= hi
    ensures Slice(s + data, lo, hi) == Overlap(data, |s|, lo, hi) && Slice(s, lo, hi) == []
  {
    if lo < |s| + |data| {
      var end := if hi < |s| + |data| then hi else |s| + |data|;
      SliceInside(s, data, lo, end);
      assert Slice(s + data, lo, hi) == (s + data)[lo..end];
      assert Overlap(data, |s|, lo, hi) == data[lo - |s|..end - |s|];
    }
  }

  lemma SliceExtends(s: seq<byte>, data: seq<byte>, lo: nat, hi: nat)
    requires lo <= hi
    ensures Slice(s + data, lo, hi) == Slice(s, lo, hi) + Overlap(data, |s|, lo, hi)
  {
    if hi <= |s| {
      WindowBefore(s, data, lo, hi);
    } else if lo <= |s| {
      WindowAcross(s, data, lo, hi);
    } else {
      WindowAfter(s, data, lo, hi);
    }
  }

  /** What has been collected once `seen` has gone by. */
  predicate Collected(seen: seq<byte>, boot: Layout, header: seq<byte>, kernelFed: seq<byte>, magic: seq<byte>) {
    && header == Slice(seen, 0, 4096)
    && kernelFed == Slice(seen, 4096, 4096 + boot.kernel)
    && magic == Slice(seen, boot.ramdiskAt, boot.ramdiskAt + 3)
  }

  lemma CollectedExtends(seen: seq<byte>, data: seq<byte>, boot: Layout, header: seq<byte>, kernelFed: seq<byte>,
      magic: seq<byte>)
    requires Collected(seen, boot, header, kernelFed, magic)
    ensures Collected(seen + data, boot, header + Slice(data, 0, 4096 - |header|),
                      kernelFed + Overlap(data, |seen|, 4096, 4096 + boot.kernel),
                      magic + Overlap(data, |seen|, boot.ramdiskAt, boot.ramdiskAt + 3))
  {
    SliceExtends(seen, data, 0, 4096);
    SliceExtends(seen, data, 4096, 4096 + boot.kernel);
    SliceExtends(seen, data, boot.ramdiskAt, boot.ramdiskAt + 3);
  }

  /** One chunk: the header, the kernel's share and the ramdisk's share grow by what falls in their windows. */
  method Take(boot: Layout, offset: nat, data: seq<byte>, header: seq<byte>, kernelFed: seq<byte>, magic: seq<byte>,
              ghost seen: seq<byte>)
    returns (h: seq<byte>, k: seq<byte>, m: seq<byte>)
    requires offset == |seen| && Collected(seen, boot, header, kernelFed, magic)
    ensures Collected(seen + data, boot, h, k, m)
  {
    CollectedExtends(seen, data, boot, header, kernelFed, magic);
    h := header + Slice(data, 0, 4096 - |header|);
    k := kernelFed + Overlap(data, offset, 4096, 4096 + boot.kernel);
    m := magic + Overlap(data, offset, boot.ramdiskAt, boot.ramdiskAt + 3);
  }

  lemma Start(boot: Layout)
    ensures Collected([], boot, [], [], [])
  {
  }

  /** The loop over the chunks a stream delivers; a digest is a function of the bytes fed to it so far. */
  method InspectStream(chunks: seq<seq<byte>>, length: nat, parse: Parser) returns (r: Result<Inspection, BootError>)
    requires forall i :: 0 <= i < |chunks| ==> chunks[i] != []
    ensures r == InspectWith(Flatten(chunks), if chunks == [] then 0 else |chunks[0]|, length, parse)
  {
    var header: seq<byte>, kernelFed: seq<byte>, magic: seq<byte> := [], [], [];
    var boot: Option<Layout> := None;
    var offset := 0;
    assert chunks != [] ==> Flatten(chunks)[..|chunks[0]|] == chunks[0];
    for i := 0 to |chunks|
      invariant offset == |Flatten(chunks[..i])| && (i == 0 <==> offset == 0)
      invariant boot.Some? <==> i > 0
      invariant i == 0 ==> header == kernelFed == magic == []
      invariant i > 0 ==> parse(Slice(chunks[0], 0, 4096)) == Ok(boot.value) && Arm64(chunks[0])
      invariant i > 0 ==> Collected(Flatten(chunks[..i]), boot.value, header, kernelFed, magic)
    {
      var data := chunks[i];
      ghost var seen := Flatten(chunks[..i]);
      FlattenSplit(chunks, i);
      if boot.None? {
        match parse(Slice(data, 0, 4096))
        case Err(error) => return Err(error);
        case Ok(found) => boot := Some(found);
        Start(boot.value);
      }
      header, kernelFed, magic := Take(boot.value, offset, data, header, kernelFed, magic, seen);
      if offset == 0 && !Arm64(data) {
        return Err(NotArm64);
      }
      offset := offset + |data|;
    }
    assert chunks[..|chunks|] == chunks;
    if offset != length {
      return Err(WrongLength);
    }
    r := if magic != GZIP then Err(NotGzip) else Ok(Inspection(header, kernelFed, magic));
  }

  /** validate_package's inspection of payload/boot.img. */
  method InspectBoot(chunks: seq<seq<byte>>, length: nat) returns (r: Result<Inspection, BootError>)
    requires forall i :: 0 <= i < |chunks| ==> chunks[i] != []
    ensures r == Inspect(Flatten(chunks), if chunks == [] then 0 else |chunks[0]|, length)
  {
    r := InspectStream(chunks, length, data => BootHeader(data, length));
  }

  /** What a first chunk that covers the inspected bytes shows of the file. */
  lemma ChunkShows(file: seq<byte>, a: nat)
    requires 4156 <= a <= |file|
    ensures Slice(file[..a], 0, 4096) == file[..4096] && Arm64(file[..a]) == Arm64(file)
  {
    assert file[..a][..4096] == file[..4096];
    assert file[..a][4152..4156] == file[4152..4156];
    assert file[..a][4120..4128] == file[4120..4128];
    LittleEndianMoved(file[..a], 4120, 4128, file, 4120);
  }

  /** Cutting the file differently changes nothing once the first chunk covers the inspected bytes. */
  lemma ChunksDoNotMatter(file: seq<byte>, a: nat, b: nat, length: nat)
    requires 4156 <= a <= |file| && 4156 <= b <= |file|
    ensures Inspect(file, a, length) == Inspect(file, b, length)
  {
    ChunkShows(file, a);
    ChunkShows(file, b);
  }

  /** A shorter first chunk is refused, whatever follows it. */
  lemma ShortChunkFails(file: seq<byte>, first: nat, length: nat)
    requires first <= |file| && (file != [] ==> first > 0) && first < 4156
    ensures Inspect(file, first, length).Err?
  {
    if 4152 <= first {
      assert |Slice(file[..first], 4152, 4156)| < 4;
    }
  }

  lemma LowTwoBits(x: nat)
    ensures And(x, 3) == x % 4
  {
    AndLow(x / 4, x % 4, 2);
    Powers();
  }

  lemma Arm64Means(file: seq<byte>, first: nat)
    requires 4156 <= first <= |file|
    ensures Arm64(file[..first]) <==> file[4152..4156] == ARM64 && Num(file, 4120, 8) / 2 % 4 == 1
  {
    assert Slice(file[..first], 4152, 4156) == file[4152..4156];
    assert file[..first][4120..4128] == file[4120..4128];
    LittleEndianMoved(file[..first], 4120, 4128, file, 4120);
    LowTwoBits(Num(file, 4120, 8) / 2);
  }

  lemma AcceptedWindows(data: seq<byte>, length: nat)
    requires BootHeader(data, length).Ok?
    ensures var boot := BootHeader(data, length).value;
            4096 + boot.kernel <= boot.ramdiskAt && boot.ramdiskAt + 10 <= length
  {
    PagesBound(Num(data, 8, 4));
    PagesBound(Num(data, 12, 4));
  }

  /**
   * An accepted stream had the declared length and a valid header; the kernel digest was fed exactly
   * file[4096..4096 + kernel], all of it, and the magic is the three bytes at the ramdisk offset.
   */
  lemma AcceptedIsExact(file: seq<byte>, first: nat, length: nat)
    requires first <= |file| && (file != [] ==> first > 0) && Inspect(file, first, length).Ok?
    ensures 4156 <= first && |file| == length && BootHeader(file[..4096], length).Ok?
    ensures var boot, seen := BootHeader(file[..4096], length).value, Inspect(file, first, length).value;
            && 4096 + boot.kernel <= boot.ramdiskAt && boot.ramdiskAt + 10 <= |file|
            && seen == Inspection(file[..4096], file[4096..4096 + boot.kernel], GZIP)
            && file[boot.ramdiskAt..boot.ramdiskAt + 3] == GZIP
    ensures file[4152..4156] == ARM64 && Num(file, 4120, 8) / 2 % 4 == 1
  {
    if first < 4156 {
      ShortChunkFails(file, first, length);
    }
    assert Slice(file[..first], 0, 4096) == file[..4096];
    AcceptedWindows(file[..4096], length);
    Arm64Means(file, first);
  }

  /** Exactly the well-formed boot files are accepted, and the native reader measures each to the byte. */
  lemma AcceptedIff(file: seq<byte>, first: nat, length: nat)
    requires first <= |file| && (file != [] ==> first > 0)
    ensures Inspect(file, first, length).Ok? <==>
              && 4156 <= first && |file| == length && BootHeader(file[..4096], length).Ok?
              && file[4152..4156] == ARM64 && Num(file, 4120, 8) / 2 % 4 == 1
              && (var at := BootHeader(file[..4096], length).value.ramdiskAt; Slice(file, at, at + 3) == GZIP)
    ensures Inspect(file, first, length).Ok? ==>
              forall capacity: nat {:trigger BootBytes(file[..4096], capacity)} ::
                BootBytes(file[..4096], capacity) == if |file| <= capacity then Some(|file|) else None
  {
    if first < 4156 {
      ShortChunkFails(file, first, length);
    } else {
      assert Slice(file[..first], 0, 4096) == file[..4096];
      Arm64Means(file, first);
      if Inspect(file, first, length).Ok? {
        forall capacity: nat
          ensures BootBytes(file[..4096], capacity) == if |file| <= capacity then Some(|file|) else None {
          NativeSizeAgrees(file[..4096], length, capacity);
        }
      }
    }
  }
}
