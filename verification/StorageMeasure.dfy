/** The native storage measurement (kiki_storage_stats.cpp): what it reads, checks and adds up. */
module StorageMeasure {
  import opened Wrappers
  import opened Bytes
  import opened BootImage

  datatype Slot = A | B
  datatype Role = BootRole | SystemRole | VendorRole

  /** A block device: its parent disk, its size, and what reading its first 4096 bytes gave. */
  datatype Block = Block(parent: nat, size: nat, header: seq<byte>)

  /** Everything one measurement reads; None where a device cannot be opened. */
  datatype Machine = Machine(
    userdata: Option<Block>, mounted: bool, f2fs: bool, blockSize: nat, blocks: nat, disk: Option<nat>,
    partition: (Slot, Role) -> Option<Block>)

  datatype Measurement = Measurement(disk: nat, data: nat, images: nat)

  const SLOTS: seq<Slot> := [A, B]
  const ROLES: seq<Role> := [BootRole, SystemRole, VendorRole]

  function Budget(role: Role): nat {
    match role
    case BootRole => 0x400_0000
    case SystemRole => 0x1_0000_0000
    case VendorRole => 0x2000_0000
  }

  /** The size of the image in one partition of the expected layout. */
  function ImageSize(b: Option<Block>, parent: nat, role: Role): (size: Option<nat>)
    ensures size.Some? ==> size.value <= Budget(role) <= 0x1_0000_0000
    ensures size.Some? && role.SystemRole? ==> size.value > 0
  {
    if b.None? || b.value.parent != parent || b.value.size != Budget(role) || |b.value.header| != 4096 then None
    else if role.BootRole? then BootBytes(b.value.header, b.value.size)
    else ErofsBytes(b.value.header, b.value.size)
  }

  type Sizes = (Slot, Role) -> Option<nat>

  predicate Bounded(sizes: Sizes) {
    && (forall slot: Slot, role: Role :: sizes(slot, role).Some? ==> sizes(slot, role).value <= 0x1_0000_0000)
    && (sizes(A, SystemRole).Some? ==> sizes(A, SystemRole).value > 0)
  }

  function SizesOf(m: Machine, parent: nat): (sizes: Sizes)
    ensures Bounded(sizes)
  {
    assert forall slot: Slot, role: Role ::
             ImageSize(m.partition(slot, role), parent, role).Some? ==>
               ImageSize(m.partition(slot, role), parent, role).value <= 0x1_0000_0000;
    (slot, role) => ImageSize(m.partition(slot, role), parent, role)
  }

  function Plus(a: Option<nat>, b: Option<nat>): Option<nat> {
    if a.None? || b.None? then None else Some(a.value + b.value)
  }

  /** The images of the first `n` roles of one slot; None when one cannot be measured. */
  function InSlot(sizes: Sizes, slot: Slot, n: nat): (images: Option<nat>)
    requires Bounded(sizes) && n <= 3
    ensures images.Some? ==> images.value <= n * 0x1_0000_0000
  {
    if n == 0 then Some(0) else Plus(InSlot(sizes, slot, n - 1), sizes(slot, ROLES[n - 1]))
  }

  /** The images of all six partitions. */
  function Total(sizes: Sizes): (images: Option<nat>)
    requires Bounded(sizes)
    ensures images.Some? ==> images.value <= 6 * 0x1_0000_0000
  {
    Plus(InSlot(sizes, A, 3), InSlot(sizes, B, 3))
  }

  function Capacity(m: Machine): nat { m.blocks * 4096 % TWO_TO_THE_64 }

  function Measured(m: Machine): Option<Measurement> {
    if m.userdata.None? || !m.mounted || !m.f2fs || m.blockSize != 4096 then None
    else if Capacity(m) == 0 || Capacity(m) > m.userdata.value.size then None
    else if m.disk.None? || m.disk.value < m.userdata.value.size then None
    else
      var images := Total(SizesOf(m, m.userdata.value.parent));
      if images.None? || images.value > m.disk.value || Capacity(m) > m.disk.value - images.value then None
      else Some(Measurement(m.disk.value, Capacity(m), images.value))
  }

  /** The inner loop: one slot's images added to `before`, in 64 bits. */
  method MeasureSlot(sizes: Sizes, slot: Slot, before: nat) returns (images: Option<nat>)
    requires Bounded(sizes) && before <= 3 * 0x1_0000_0000
    ensures images == Plus(Some(before), InSlot(sizes, slot, 3))
  {
    var total := before;
    for j := 0 to |ROLES|
      invariant Some(total) == Plus(Some(before), InSlot(sizes, slot, j))
    {
      var size := sizes(slot, ROLES[j]);
      if size.None? {
        NothingMore(sizes, slot, j + 1, 3);
        return None;
      }
      InRange(total + size.value);
      total := (total + size.value) % TWO_TO_THE_64;
    }
    return Some(total);
  }

  /** The nested loops over the six images. */
  method MeasureImages(sizes: Sizes) returns (images: Option<nat>)
    requires Bounded(sizes)
    ensures images == Total(sizes)
  {
    images := Some(0);
    for i := 0 to |SLOTS|
      invariant images == if i == 0 then Some(0) else if i == 1 then InSlot(sizes, A, 3) else Total(sizes)
      invariant images.Some?
    {
      var next := MeasureSlot(sizes, SLOTS[i], images.value);
      if next.None? {
        return None;
      }
      images := next;
    }
  }

  lemma {:induction false} NothingMore(sizes: Sizes, slot: Slot, k: nat, n: nat)
    requires Bounded(sizes) && k <= n <= 3 && InSlot(sizes, slot, k).None?
    ensures InSlot(sizes, slot, n).None?
  {
    if k < n {
      NothingMore(sizes, slot, k, n - 1);
    }
  }

  /** main, up to the first property it publishes. */
  method Measure(m: Machine) returns (r: Option<Measurement>)
    ensures r == Measured(m)
  {
    if m.userdata.None? || !m.mounted || !m.f2fs || m.blockSize != 4096 {
      return None;
    }
    var dataBytes := m.blocks * 4096 % TWO_TO_THE_64;
    if dataBytes == 0 || dataBytes > m.userdata.value.size {
      return None;
    }
    if m.disk.None? || m.disk.value < m.userdata.value.size {
      return None;
    }
    var images := MeasureImages(SizesOf(m, m.userdata.value.parent));
    if images.None? || images.value > m.disk.value || dataBytes > m.disk.value - images.value {
      return None;
    }
    return Some(Measurement(m.disk.value, dataBytes, images.value));
  }

  lemma SlotIsTheSum(sizes: Sizes, slot: Slot, n: nat)
    requires Bounded(sizes) && n == 3
    ensures InSlot(sizes, slot, n)
            == Plus(Plus(sizes(slot, BootRole), sizes(slot, SystemRole)), sizes(slot, VendorRole))
  {
    assert InSlot(sizes, slot, n - 3) == Some(0);
    assert InSlot(sizes, slot, n - 2) == sizes(slot, BootRole);
  }

  /** The total is the sum of all six sizes, and there is one exactly when all six can be measured. */
  lemma TotalIsTheSum(sizes: Sizes)
    requires Bounded(sizes)
    ensures Total(sizes).Some? <==> forall slot: Slot, role: Role :: sizes(slot, role).Some?
    ensures Total(sizes).Some? ==>
              Total(sizes).value == sizes(A, BootRole).value + sizes(A, SystemRole).value + sizes(A, VendorRole).value
                                    + sizes(B, BootRole).value + sizes(B, SystemRole).value + sizes(B, VendorRole).value
  {
    SlotIsTheSum(sizes, A, 3);
    SlotIsTheSum(sizes, B, 3);
    forall slot: Slot, role: Role | Total(sizes).Some? ensures sizes(slot, role).Some? {
      assert slot == A || slot == B;
      assert role == BootRole || role == SystemRole || role == VendorRole;
    }
  }

  /** What a published measurement promises. */
  predicate Sound(x: Measurement) {
    0 < x.data && 0 < x.images <= 6 * 0x1_0000_0000 && x.images + x.data <= x.disk
  }

  /** Every measurement is sound, fits the disk and covers userdata; its capacity is exact unless it wrapped. */
  lemma MeasuredIsSound(m: Machine)
    requires Measured(m).Some?
    ensures Sound(Measured(m).value)
    ensures Measured(m).value.data <= m.userdata.value.size <= Measured(m).value.disk
    ensures Measured(m).value.data == m.blocks * 4096 <==> m.blocks < 0x10_0000_0000_0000
  {
    var sizes := SizesOf(m, m.userdata.value.parent);
    TotalIsTheSum(sizes);
    CapacityWraps(m.blocks);
  }

  lemma CapacityWraps(blocks: nat)
    ensures blocks * 4096 % TWO_TO_THE_64 == blocks * 4096 <==> blocks < 0x10_0000_0000_0000
  {
  }

  // ---- A machine that is measured ---------------------------------------

  /** A boot header with a one-byte kernel and no ramdisk. */
  function BootSample(): seq<byte> {
    seq(4096, i requires 0 <= i < 4096 =>
      if i < 8 then ANDROID[i] else if i == 8 then 1 else if i == 20 then 0x30 else if i == 21 then 6
      else if i == 40 then 4 else 0)
  }

  /** An EROFS header with `n` blocks. */
  function ErofsSample(n: byte): seq<byte> {
    seq(4096, i requires 0 <= i < 4096 =>
      if i == 1024 then 0xe2 else if i == 1025 then 0xe1 else if i == 1026 then 0xf5 else if i == 1027 then 0xe0
      else if i == 1036 then 12 else if i == 1060 then n else 0)
  }

  function Sample(n: byte): Machine {
    Machine(Some(Block(0, 4096, [])), true, true, 4096, 1, Some(0x10_0000_0000),
            (slot, role) => Some(Block(0, Budget(role), if role.BootRole? then BootSample() else ErofsSample(n))))
  }

  lemma BootSampleSize(capacity: nat)
    requires capacity >= 8192
    ensures BootBytes(BootSample(), capacity) == Some(8192)
  {
    BootSampleWords(BootSample());
    SampleWordsSize(Words(BootSample()), capacity);
  }

  lemma SampleWordsSize(word: nat -> nat, capacity: nat)
    requires Supported(true, word) && word(8) < 0x1_0000_0000 && word(12) < 0x1_0000_0000
    requires Pages(word(8)) == 4096 && Pages(word(12)) == 0 && capacity >= 8192
    ensures SizeOf(true, word, capacity) == Some(8192)
  {
    SupportedSize(word, capacity);
  }

  lemma BootSampleWords(h: seq<byte>)
    requires h == BootSample()
    ensures h[..8] == ANDROID && Supported(true, Words(h)) && Words(h)(8) < 0x1_0000_0000
            && Words(h)(12) < 0x1_0000_0000
    ensures Pages(Words(h)(8)) == 4096 && Pages(Words(h)(12)) == 0
  {
    WordOf(h, 8);
    WordOf(h, 12);
    WordOf(h, 20);
    WordOf(h, 40);
    WordOf(h, 1580);
  }

  lemma WordOf(h: seq<byte>, at: nat)
    requires at + 4 <= |h|
    ensures Words(h)(at)
            == h[at] as int + 0x100 * h[at + 1] as int + 0x1_0000 * h[at + 2] as int + 0x100_0000 * h[at + 3] as int
  {
    WordIsNumber(h, at);
    FourBytes(h, at);
  }

  lemma ErofsSampleSize(n: byte, capacity: nat)
    requires n > 0 && capacity >= 0x10_0000
    ensures ErofsBytes(ErofsSample(n), capacity) == Some((n as int) * 4096)
  {
    ErofsIsBlocks(ErofsSample(n), capacity);
    ErofsSampleWords(n, ErofsSample(n));
  }

  lemma ErofsSampleWords(n: byte, h: seq<byte>)
    requires h == ErofsSample(n)
    ensures Num(h, 1024, 4) == 0xe0f5e1e2 && h[1036] == 12 && Num(h, 1060, 4) == n && Num(h, 1104, 4) == 0
  {
    FourBytes(h, 1024);
    FourBytes(h, 1060);
    FourBytes(h, 1104);
  }

  lemma SampleSizes(n: byte, slot: Slot, role: Role)
    requires n > 0
    ensures ImageSize(Sample(n).partition(slot, role), 0, role)
            == Some(if role.BootRole? then 8192 else (n as int) * 4096)
  {
    if role.BootRole? {
      BootSampleSize(Budget(role));
    } else {
      ErofsSampleSize(n, Budget(role));
      assert Sample(n).partition(slot, role) == Some(Block(0, Budget(role), ErofsSample(n)));
    }
  }

  predicate Row(sizes: Sizes, slot: Slot, boot: nat, other: nat) {
    sizes(slot, BootRole) == Some(boot) && sizes(slot, SystemRole) == sizes(slot, VendorRole) == Some(other)
  }

  /** The total when all boot images are alike and so are all others. */
  lemma TableTotal(sizes: Sizes, boot: nat, other: nat)
    requires Bounded(sizes) && Row(sizes, A, boot, other) && Row(sizes, B, boot, other)
    ensures Total(sizes) == Some(2 * boot + 4 * other)
  {
    SlotIsTheSum(sizes, A, 3);
    SlotIsTheSum(sizes, B, 3);
  }

  lemma SampleRow(n: byte, slot: Slot, sizes: Sizes)
    requires n > 0 && sizes == SizesOf(Sample(n), 0)
    ensures Row(sizes, slot, 8192, (n as int) * 4096)
  {
    SampleSizes(n, slot, BootRole);
    SampleSizes(n, slot, SystemRole);
    SampleSizes(n, slot, VendorRole);
  }

  /** What is left of a measurement once the images are known. */
  lemma TotalIsMeasured(m: Machine, sizes: Sizes, images: nat)
    requires m.userdata == Some(Block(0, 4096, [])) && m.mounted && m.f2fs && m.blockSize == 4096 && m.blocks == 1
    requires m.disk == Some(0x10_0000_0000) && sizes == SizesOf(m, 0) && Total(sizes) == Some(images)
    requires images < 0x1000_0000
    ensures Measured(m) == Some(Measurement(0x10_0000_0000, 4096, images))
  {
    assert Capacity(m) == 4096;
  }

  lemma TableIsMeasured(m: Machine, sizes: Sizes, boot: nat, other: nat)
    requires m.userdata == Some(Block(0, 4096, [])) && m.mounted && m.f2fs && m.blockSize == 4096 && m.blocks == 1
    requires m.disk == Some(0x10_0000_0000) && sizes == SizesOf(m, 0) && 2 * boot + 4 * other < 0x1000_0000
    requires Row(sizes, A, boot, other) && Row(sizes, B, boot, other)
    ensures Measured(m) == Some(Measurement(0x10_0000_0000, 4096, 2 * boot + 4 * other))
  {
    TableTotal(sizes, boot, other);
    TotalIsMeasured(m, sizes, 2 * boot + 4 * other);
  }

  /** The conditions for a measurement can be met, with totals that differ. */
  lemma SampleIsMeasured(n: byte)
    requires n > 0
    ensures Measured(Sample(n)) == Some(Measurement(0x10_0000_0000, 4096, 16384 + 4 * ((n as int) * 4096)))
  {
    var sizes := SizesOf(Sample(n), 0);
    SampleRow(n, A, sizes);
    SampleRow(n, B, sizes);
    TableIsMeasured(Sample(n), sizes, 8192, (n as int) * 4096);
  }
}
