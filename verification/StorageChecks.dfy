/** Exactly which machines the native storage tool measures, and what it makes of them. */
module StorageChecks {
  import opened Wrappers
  import opened Bytes
  import opened BootImage
  import opened BootHeaders
  import opened StorageMeasure

  const MIB := 1024 * 1024

  /** The fixed size of a partition. */
  function Room(role: Role): nat {
    if role == BootRole then 64 * MIB else if role == SystemRole then 4096 * MIB else 512 * MIB
  }

  /** `h` heads an image of `size` bytes: a boot image in whole pages, or an EROFS image in whole blocks. */
  predicate Heads(h: seq<byte>, role: Role, size: nat) {
    && |h| == 4096 && size <= Room(role)
    && if role.BootRole?
       then
         && h[..8] == Ascii("ANDROID!") && Num(h, 40, 4) == 4 && Num(h, 20, 4) == 1584 && Num(h, 1580, 4) == 0
         && Num(h, 8, 4) > 0 && size == 4096 + Pages(Num(h, 8, 4)) + Pages(Num(h, 12, 4))
       else
         && Num(h, 1024, 4) == 0xe0f5e1e2 && h[1036] == 12 && Num(h, 1104, 4) / 128 % 2 == 0
         && Num(h, 1060, 4) >= 1 && size == Num(h, 1060, 4) * 4096
  }

  /** A partition of the expected layout, on the disk that holds userdata, with an image of `size` bytes. */
  predicate Carries(m: Machine, slot: Slot, role: Role, size: nat) {
    && m.userdata.Some? && m.partition(slot, role).Some?
    && m.partition(slot, role).value.parent == m.userdata.value.parent
    && m.partition(slot, role).value.size == Room(role)
    && Heads(m.partition(slot, role).value.header, role, size)
  }

  lemma HeadsIff(h: seq<byte>, role: Role, size: nat)
    requires |h| == 4096
    ensures Heads(h, role, size) <==>
              (if role.BootRole? then BootBytes(h, Room(role)) else ErofsBytes(h, Room(role))) == Some(size)
  {
    NativeIff(h, Room(role), size);
    ErofsIsBlocks(h, Room(role));
  }

  lemma SizeIff(m: Machine, slot: Slot, role: Role, size: nat)
    requires m.userdata.Some?
    ensures Carries(m, slot, role, size) <==>
              ImageSize(m.partition(slot, role), m.userdata.value.parent, role) == Some(size)
  {
    var b := m.partition(slot, role);
    if b.Some? && |b.value.header| == 4096 {
      HeadsIff(b.value.header, role, size);
    }
  }

  /** All six partitions carry images, of these sizes. */
  predicate CarriesAll(m: Machine, size: (Slot, Role) -> nat) {
    forall slot: Slot, role: Role :: Carries(m, slot, role, size(slot, role))
  }

  function Sum(size: (Slot, Role) -> nat): nat {
    size(A, BootRole) + size(A, SystemRole) + size(A, VendorRole)
    + size(B, BootRole) + size(B, SystemRole) + size(B, VendorRole)
  }

  /** `sizes` are all known and are those of `size`. */
  predicate Known(sizes: Sizes, size: (Slot, Role) -> nat) {
    forall slot: Slot, role: Role :: sizes(slot, role) == Some(size(slot, role))
  }

  lemma AllAreKnown(m: Machine, sizes: Sizes, size: (Slot, Role) -> nat)
    requires m.userdata.Some? && sizes == SizesOf(m, m.userdata.value.parent)
    ensures CarriesAll(m, size) <==> Known(sizes, size)
  {
    if CarriesAll(m, size) {
      forall slot: Slot, role: Role ensures sizes(slot, role) == Some(size(slot, role)) {
        SizeIff(m, slot, role, size(slot, role));
      }
    } else {
      var slot: Slot, role: Role :| !Carries(m, slot, role, size(slot, role));
      SizeIff(m, slot, role, size(slot, role));
    }
  }

  /** Known sizes add up to the total, and a total has known sizes. */
  lemma KnownAreAdded(sizes: Sizes) returns (size: (Slot, Role) -> nat)
    requires Bounded(sizes)
    ensures Total(sizes).Some? ==> Known(sizes, size) && Total(sizes) == Some(Sum(size))
    ensures forall known :: Known(sizes, known) ==> Total(sizes) == Some(Sum(known))
  {
    TotalIsTheSum(sizes);
    size := (slot, role) => if sizes(slot, role).Some? then sizes(slot, role).value else 0;
    forall known | Known(sizes, known) ensures Total(sizes) == Some(Sum(known)) {
      assert forall slot: Slot, role: Role :: sizes(slot, role) == Some(known(slot, role));
    }
  }

  /** A machine is measured exactly when every check passes; then the measurement is its disk, data and images. */
  lemma MeasuredIff(m: Machine, x: Measurement)
    ensures Measured(m) == Some(x) <==>
              && m.userdata.Some? && m.mounted && m.f2fs && m.blockSize == 4096
              && 0 < x.data == m.blocks * 4096 % 0x1_0000_0000_0000_0000 <= m.userdata.value.size <= x.disk
              && m.disk == Some(x.disk) && x.images + x.data <= x.disk
              && exists size :: CarriesAll(m, size) && x.images == Sum(size)
  {
    if m.userdata.Some? {
      var sizes := SizesOf(m, m.userdata.value.parent);
      var size := KnownAreAdded(sizes);
      AllAreKnown(m, sizes, size);
      forall size | CarriesAll(m, size) ensures Known(sizes, size) {
        AllAreKnown(m, sizes, size);
      }
    }
  }
}
