/** The headers the package validator accepts, against a writer of such headers. */
module BootHeaders {
  import opened Wrappers
  import opened Bytes
  import opened BootImage

  function Zeros(n: nat): (s: seq<byte>)
    ensures |s| == n && Zero(s)
  {
    seq(n, i => 0)
  }

  /** A boot header of version 4: magic, two sizes, the free version bytes, and nothing else set. */
  function HeaderBytes(kernel: nat, ramdisk: nat, version: seq<byte>): seq<byte> {
    Ascii("ANDROID!") + LeBytes(kernel, 4) + LeBytes(ramdisk, 4) + version + LeBytes(1584, 4) + Zeros(16)
    + LeBytes(4, 4) + Zeros(4052)
  }

  /** `m` is `n` rounded up to whole pages. */
  predicate Padded(m: int, n: int) { m % 4096 == 0 && n <= m < n + 4096 }

  /** `data` starts with a header for a kernel and a ramdisk that fill `length` bytes with their paddings. */
  predicate Heads(data: seq<byte>, length: nat, boot: Layout, version: seq<byte>) {
    && |data| >= 4096 && |version| == 4 && data[..4096] == HeaderBytes(boot.kernel, boot.ramdisk, version)
    && 64 <= boot.kernel <= 256 * 1024 * 1024 && 10 <= boot.ramdisk <= 64 * 1024 * 1024
    && Padded(boot.ramdiskAt - 4096, boot.kernel) && boot.ramdiskAt <= length
    && Padded(length - boot.ramdiskAt, boot.ramdisk)
  }

  lemma PagesArePadded(n: nat, m: int)
    ensures Padded(m, n) <==> m == Pages(n)
  {
  }

  /** The fields of a header, given as its eight parts. */
  lemma EightParts(h: seq<byte>, magic: seq<byte>, k: seq<byte>, r: seq<byte>, v: seq<byte>, size: seq<byte>,
      reserved: seq<byte>, four: seq<byte>, rest: seq<byte>)
    requires |magic| == 8 && |k| == |r| == |v| == |size| == |four| == 4 && |reserved| == 16 && |rest| == 4052
    requires |h| == 4096
    ensures h == magic + k + r + v + size + reserved + four + rest <==>
              && h[..8] == magic && h[8..12] == k && h[12..16] == r && h[16..20] == v && h[20..24] == size
              && h[24..40] == reserved && h[40..44] == four && h[44..] == rest
  {
    var whole := magic + k + r + v + size + reserved + four + rest;
    assert whole[..8] == magic && whole[8..12] == k && whole[12..16] == r && whole[16..20] == v;
    assert whole[20..24] == size && whole[24..40] == reserved && whole[40..44] == four && whole[44..] == rest;
    assert h == h[..8] + h[8..12] + h[12..16] + h[16..20] + h[20..24] + h[24..40] + h[40..44] + h[44..];
  }

  /** A field holds a number exactly when its bytes are the number's. */
  lemma FieldIff(s: seq<byte>, at: nat, n: nat, width: nat)
    requires width == 4 && at + 4 <= |s| && n < 0x1_0000_0000
    ensures Num(s, at, 4) == n <==> s[at..at + 4] == LeBytes(n, width)
  {
    Widths();
    BytesOfLittleEndian(s, at, at + width);
    if s[at..at + 4] == LeBytes(n, width) {
      LittleEndianOfBytes(s, at, at + width, n);
    }
  }

  lemma ZerosIff(s: seq<byte>)
    ensures Zero(s) <==> s == Zeros(|s|)
  {
  }

  lemma MagicIsText()
    ensures ANDROID == Ascii("ANDROID!") && ARM64 == Ascii("ARM") + [0x64]
  {
  }

  /** The header's parts, read as the validator reads them. */
  lemma PartsIff(data: seq<byte>, kernel: nat, ramdisk: nat, version: seq<byte>, width: nat)
    requires |data| >= 4096 && |version| == 4 && kernel < 0x1_0000_0000 && ramdisk < 0x1_0000_0000 && width == 4
    ensures data[..4096] == HeaderBytes(kernel, ramdisk, version) <==>
              && data[..8] == ANDROID && Num(data, 8, 4) == kernel && Num(data, 12, 4) == ramdisk
              && data[16..20] == version && Num(data, 20, 4) == 1584 && Zero(data[24..40])
              && Num(data, 40, 4) == 4 && Zero(data[44..4096])
  {
    var h := data[..4096];
    MagicIsText();
    EightParts(h, ANDROID, LeBytes(kernel, width), LeBytes(ramdisk, width), version, LeBytes(1584, width), Zeros(16),
               LeBytes(4, width), Zeros(4052));
    FieldIff(data, 8, kernel, width);
    FieldIff(data, 12, ramdisk, width);
    FieldIff(data, 20, 1584, width);
    FieldIff(data, 40, 4, width);
    ZerosIff(data[24..40]);
    ZerosIff(data[44..4096]);
    assert h[..8] == data[..8] && h[8..12] == data[8..12] && h[12..16] == data[12..16] && h[16..20] == data[16..20];
    assert h[20..24] == data[20..24] && h[24..40] == data[24..40] && h[40..44] == data[40..44];
    assert h[44..] == data[44..4096];
  }

  /** What the validator checks, for sizes that fit their fields. */
  lemma LayoutIff(data: seq<byte>, length: nat, boot: Layout, version: seq<byte>)
    requires |data| >= 4096 && version == data[16..20]
    requires boot.kernel < 0x1_0000_0000 && boot.ramdisk < 0x1_0000_0000
    ensures BootHeader(data, length) == Ok(boot) <==> Heads(data, length, boot, version)
  {
    PartsIff(data, boot.kernel, boot.ramdisk, version, 4);
    PagesArePadded(boot.kernel, boot.ramdiskAt - 4096);
    PagesArePadded(boot.ramdisk, length - boot.ramdiskAt);
  }

  lemma VersionIsRead(data: seq<byte>, length: nat, boot: Layout, version: seq<byte>)
    requires Heads(data, length, boot, version)
    ensures version == data[16..20]
  {
    PartsIff(data, boot.kernel, boot.ramdisk, version, 4);
  }

  /** A header is accepted with a layout exactly when it was written for that layout's sizes and the file's length. */
  lemma HeaderIff(data: seq<byte>, length: nat, boot: Layout)
    ensures BootHeader(data, length) == Ok(boot) <==> exists version :: Heads(data, length, boot, version)
  {
    if |data| >= 4096 && boot.kernel < 0x1_0000_0000 && boot.ramdisk < 0x1_0000_0000 {
      LayoutIff(data, length, boot, data[16..20]);
      forall version | Heads(data, length, boot, version) ensures version == data[16..20] {
        VersionIsRead(data, length, boot, version);
      }
    }
  }

  /** The bits of a little-endian number that its lowest byte holds. */
  lemma LowBits(s: seq<byte>, at: nat)
    requires at + 8 <= |s|
    ensures Num(s, at, 8) / 2 % 4 == s[at] / 2 % 4
  {
    LowBitsOf(Num(s, at, 8), s[at], LittleEndian(s, at + 1, at + 8));
  }

  lemma LowBitsOf(n: nat, low: nat, high: nat)
    requires n == low + 256 * high
    ensures n / 2 % 4 == low / 2 % 4
  {
    assert n / 2 == low / 2 + 128 * high;
    assert n / 2 == low / 2 + 4 * (32 * high);
  }

  /** A kernel for 4 KiB pages and a gzip ramdisk stand where the layout puts them. */
  predicate Holds(file: seq<byte>, boot: Layout) {
    && |file| >= 4156 && file[4152..4156] == Ascii("ARM") + [0x64] && file[4120] / 2 % 4 == 1
    && boot.ramdiskAt + 3 <= |file| && file[boot.ramdiskAt..boot.ramdiskAt + 3] == [0x1f, 0x8b, 0x08]
  }

  /** The header of a file is that of its first page. */
  lemma FirstPage(file: seq<byte>, length: nat, boot: Layout)
    requires |file| >= 4096
    ensures BootHeader(file[..4096], length) == Ok(boot) <==> exists version :: Heads(file, length, boot, version)
  {
    HeaderIff(file[..4096], length, boot);
    assert file[..4096][..4096] == file[..4096];
    forall version ensures Heads(file[..4096], length, boot, version) <==> Heads(file, length, boot, version) {
    }
  }

  /** An accepted file holds its kernel and ramdisk. */
  lemma AcceptedHolds(file: seq<byte>, first: nat, length: nat)
    requires first <= |file| && (file != [] ==> first > 0) && Inspect(file, first, length).Ok?
    ensures 4156 <= first && |file| == length && BootHeader(file[..4096], length).Ok?
    ensures Holds(file, BootHeader(file[..4096], length).value)
    ensures Inspect(file, first, length).value.kernel
            == file[4096..][..BootHeader(file[..4096], length).value.kernel]
  {
    MagicIsText();
    AcceptedIsExact(file, first, length);
    LowBits(file, 4120);
    var kernel := BootHeader(file[..4096], length).value.kernel;
    assert file[4096..4096 + kernel] == file[4096..][..kernel];
  }

  lemma HoldingIsAccepted(file: seq<byte>, first: nat, length: nat, boot: Layout)
    requires 4156 <= first <= |file| == length && BootHeader(file[..4096], length) == Ok(boot) && Holds(file, boot)
    ensures Inspect(file, first, length).Ok?
  {
    MagicIsText();
    LowBits(file, 4120);
    AcceptedIff(file, first, length);
    assert Slice(file, boot.ramdiskAt, boot.ramdiskAt + 3) == file[boot.ramdiskAt..boot.ramdiskAt + 3];
  }

  /**
   * Exactly the files written for a header, with kernel and ramdisk in place, are accepted, and their kernel is
   * what the digest is fed.
   */
  lemma FileIff(file: seq<byte>, first: nat, length: nat)
    requires first <= |file| && (file != [] ==> first > 0)
    ensures Inspect(file, first, length).Ok? <==>
              && 4156 <= first && |file| == length
              && exists boot, version :: Heads(file, length, boot, version) && Holds(file, boot)
    ensures forall boot, version :: Heads(file, length, boot, version) && Inspect(file, first, length).Ok? ==>
              Inspect(file, first, length).value.kernel == file[4096..][..boot.kernel]
  {
    if Inspect(file, first, length).Ok? {
      AcceptedHolds(file, first, length);
      FirstPage(file, length, BootHeader(file[..4096], length).value);
    }
    forall boot, version | Heads(file, length, boot, version)
      ensures BootHeader(file[..4096], length) == Ok(boot)
      ensures 4156 <= first && |file| == length && Holds(file, boot) ==> Inspect(file, first, length).Ok?
    {
      FirstPage(file, length, boot);
      if 4156 <= first && |file| == length && Holds(file, boot) {
        HoldingIsAccepted(file, first, length, boot);
      }
    }
  }

  /** The native reader measures a header exactly when its magic, version, sizes and signature fields are right. */
  lemma NativeIff(h: seq<byte>, capacity: nat, size: nat)
    ensures BootBytes(h, capacity) == Some(size) <==>
              && |h| >= 4096 && h[..8] == Ascii("ANDROID!") && Num(h, 40, 4) == 4 && Num(h, 20, 4) == 1584
              && Num(h, 1580, 4) == 0 && Num(h, 8, 4) > 0 && size <= capacity
              && size == 4096 + Pages(Num(h, 8, 4)) + Pages(Num(h, 12, 4))
  {
    MagicIsText();
    if |h| >= 4096 {
      SupportedIff(h);
      if h[..8] == ANDROID && Supported(true, Words(h)) {
        SupportedIsMeasured(h, capacity);
      }
    }
  }

  lemma SupportedIsMeasured(h: seq<byte>, capacity: nat)
    requires |h| >= 4096 && h[..8] == ANDROID && Supported(true, Words(h))
    ensures var length := 4096 + Pages(Num(h, 8, 4)) + Pages(Num(h, 12, 4));
            BootBytes(h, capacity) == if length <= capacity then Some(length) else None
  {
    WordIsNumber(h, 8);
    WordIsNumber(h, 12);
    SupportedBytes(h, 4096 + Pages(Num(h, 8, 4)) + Pages(Num(h, 12, 4)), capacity);
  }

  lemma SupportedIff(h: seq<byte>)
    requires |h| >= 4096
    ensures Supported(true, Words(h)) <==>
              Num(h, 40, 4) == 4 && Num(h, 20, 4) == 1584 && Num(h, 1580, 4) == 0 && Num(h, 8, 4) > 0
  {
    WordIsNumber(h, 8);
    WordIsNumber(h, 20);
    WordIsNumber(h, 40);
    WordIsNumber(h, 1580);
  }
}
