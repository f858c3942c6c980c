/**
 * The writer side of a package: contiguous local records, their central directory and the end
 * records of APPNOTE.TXT sections 4.3.7, 4.3.12, 4.3.14 to 4.3.16 and 4.5.3; and the round trip
 * through the strict reader.
 */
module ZipWriter {
  import opened Wrappers
  import opened Bytes
  import opened ZipReader

  /**
   * One packed file: its bytes as stored, and what its two headers say besides. Sizes are the 32-bit fields
   * as written, sentinels included; `wide` sends the reader to `extra` for the local offset.
   */
  datatype Member = Member(
    name: Name, flags: nat, compression: nat,
    version: seq<byte>, localTimes: seq<byte>, localStored: nat, localSize: nat, localExtra: seq<byte>, data: seq<byte>,
    versions: seq<byte>, times: seq<byte>, stored: nat, size: nat, attributes: seq<byte>, wide: bool, extra: seq<byte>)

  /** The fields fit the widths that the format gives them. */
  predicate Encodable(m: Member) {
    && |m.name| < 0x1_0000 && m.flags < 0x1_0000 && m.compression < 0x1_0000
    && |m.localExtra| < 0x1_0000 && |m.extra| < 0x1_0000
    && m.localStored <= MAX32 && m.localSize <= MAX32 && m.stored <= MAX32 && m.size <= MAX32
    && |m.version| == 2 && |m.versions| == 4 && |m.localTimes| == |m.times| == 8 && |m.attributes| == 6
  }

  function LocalHeader(m: Member): seq<seq<byte>> {
    [LOCAL_SIG, m.version, LeBytes(m.flags, 2), LeBytes(m.compression, 2), m.localTimes,
     LeBytes(m.localStored, 4), LeBytes(m.localSize, 4), LeBytes(|m.name|, 2), LeBytes(|m.localExtra|, 2),
     m.name, m.localExtra, m.data]
  }

  function LocalLength(m: Member): nat { 30 + |m.name| + |m.localExtra| + |m.data| }

  /** The 32-bit field for an offset, or the sentinel that sends its reader to the extra field. */
  function OffsetField(m: Member, at: nat): nat { if m.wide || at >= MAX32 then MAX32 else at }

  function CentralHeader(m: Member, at: nat): seq<seq<byte>> {
    [CENTRAL_SIG, m.versions, LeBytes(m.flags, 2), LeBytes(m.compression, 2), m.times,
     LeBytes(m.stored, 4), LeBytes(m.size, 4), LeBytes(|m.name|, 2), LeBytes(|m.extra|, 2),
     LeBytes(0, 2), LeBytes(0, 2), m.attributes, LeBytes(OffsetField(m, at), 4), m.name, m.extra]
  }

  function CentralLength(m: Member): nat { 46 + |m.name| + |m.extra| }

  /** How members are rendered; what a sequence of them looks like does not depend on the details. */
  datatype Layout = Layout(local: Member -> seq<byte>, central: (Member, nat) -> seq<byte>)

  function Standard(): Layout {
    Layout((m: Member) => Flatten(LocalHeader(m)), (m: Member, at: nat) => Flatten(CentralHeader(m, at)))
  }

  /** `lay` is the standard layout; a proof asks for one member at a time. */
  ghost predicate IsStandard(lay: Layout) {
    forall m: Member, at: nat {:trigger Rendered(m, at)} :: Rendered(m, at) ==>
      lay.local(m) == Flatten(LocalHeader(m)) && lay.central(m, at) == Flatten(CentralHeader(m, at))
  }

  predicate Rendered(m: Member, at: nat) { true }

  function Locals(lay: Layout, ms: seq<Member>): seq<byte> {
    if ms == [] then [] else lay.local(ms[0]) + Locals(lay, ms[1..])
  }

  /** The central headers of members whose local records start at `at`. */
  function Centrals(lay: Layout, ms: seq<Member>, at: nat): seq<byte> {
    if ms == [] then []
    else lay.central(ms[0], at) + Centrals(lay, ms[1..], at + |lay.local(ms[0])|)
  }

  // ---- Fields of a written header ---------------------------------------

  /** Where field `k` of a header starts. */
  function Offset(fields: seq<seq<byte>>, k: nat): nat
    requires k <= |fields|
    decreases k
  {
    if k == 0 then 0 else Offset(fields, k - 1) + |fields[k - 1]|
  }

  lemma {:induction false} OffsetIsLength(fields: seq<seq<byte>>, k: nat)
    requires k <= |fields|
    ensures Offset(fields, k) == |Flatten(fields[..k])|
  {
    if k != 0 {
      OffsetIsLength(fields, k - 1);
      FlattenSplit(fields, k - 1);
    }
  }

  /** `bytes` stand in `file` at `pos`. */
  predicate StandsAt(file: seq<byte>, pos: nat, bytes: seq<byte>) {
    pos + |bytes| <= |file| && file[pos..pos + |bytes|] == bytes
  }

  lemma PiecesStand(file: seq<byte>, pos: nat, a: seq<byte>, b: seq<byte>)
    requires StandsAt(file, pos, a + b)
    ensures StandsAt(file, pos, a) && StandsAt(file, pos + |a|, b)
  {
    var w := file[pos..pos + |a + b|];
    assert w[..|a|] == a && w[|a|..] == b;
    assert file[pos..pos + |a|] == w[..|a|];
    assert file[pos + |a|..pos + |a| + |b|] == w[|a|..];
  }

  lemma MiddleStands(file: seq<byte>, pos: nat, pre: seq<byte>, mid: seq<byte>, post: seq<byte>)
    requires StandsAt(file, pos, pre + mid + post)
    ensures StandsAt(file, pos + |pre|, mid)
  {
    PiecesStand(file, pos, pre + mid, post);
    PiecesStand(file, pos, pre, mid);
  }

  lemma FieldStands(file: seq<byte>, pos: nat, fields: seq<seq<byte>>, k: nat)
    requires StandsAt(file, pos, Flatten(fields)) && k < |fields|
    ensures StandsAt(file, pos + Offset(fields, k), fields[k])
  {
    FlattenSplit(fields, k);
    OffsetIsLength(fields, k);
    MiddleStands(file, pos, Flatten(fields[..k]), fields[k], Flatten(fields[k + 1..]));
  }

  lemma NumStands(file: seq<byte>, pos: nat, n: nat, width: nat)
    requires StandsAt(file, pos, LeBytes(n, width)) && n < Power256(width)
    ensures Num(file, pos, width) == n
  {
    LittleEndianOfBytes(file, pos, pos + width, n);
  }

  lemma NumField(file: seq<byte>, pos: nat, fields: seq<seq<byte>>, k: nat, n: nat, width: nat)
    requires StandsAt(file, pos, Flatten(fields)) && k < |fields|
    requires fields[k] == LeBytes(n, width) && n < Power256(width)
    ensures pos + Offset(fields, k) + width <= |file| && Num(file, pos + Offset(fields, k), width) == n
  {
    FieldStands(file, pos, fields, k);
    NumStands(file, pos + Offset(fields, k), n, width);
  }

  // ---- What the reader finds in one written member ----------------------

  lemma OffsetStep(fields: seq<seq<byte>>, k: nat, at: nat)
    requires k < |fields| && Offset(fields, k) == at
    ensures Offset(fields, k + 1) == at + |fields[k]|
  {
  }

  lemma WholeLength(fields: seq<seq<byte>>)
    ensures |Flatten(fields)| == Offset(fields, |fields|)
  {
    OffsetIsLength(fields, |fields|);
    assert fields[..|fields|] == fields;
  }

  lemma LocalOffsets(m: Member, h: seq<seq<byte>>)
    requires Encodable(m) && h == LocalHeader(m)
    ensures Offset(h, 0) == 0 && Offset(h, 2) == 6 && Offset(h, 3) == 8 && Offset(h, 5) == 18 && Offset(h, 7) == 26
    ensures Offset(h, 8) == 28 && Offset(h, 9) == 30 && Offset(h, 11) == 30 + |m.name| + |m.localExtra|
    ensures |Flatten(h)| == LocalLength(m)
  {
    OffsetStep(h, 0, 0);
    OffsetStep(h, 1, 4);
    OffsetStep(h, 2, 6);
    OffsetStep(h, 3, 8);
    OffsetStep(h, 4, 10);
    OffsetStep(h, 5, 18);
    OffsetStep(h, 6, 22);
    OffsetStep(h, 7, 26);
    OffsetStep(h, 8, 28);
    OffsetStep(h, 9, 30);
    OffsetStep(h, 10, 30 + |m.name|);
    OffsetStep(h, 11, 30 + |m.name| + |m.localExtra|);
    WholeLength(h);
  }

  lemma LocalFields(file: seq<byte>, pos: nat, m: Member)
    requires Encodable(m) && StandsAt(file, pos, Flatten(LocalHeader(m)))
    ensures |Flatten(LocalHeader(m))| == LocalLength(m) && pos + LocalLength(m) <= |file|
    ensures HasSig(file, pos, LOCAL_SIG)
    ensures Num(file, pos + 6, 2) == m.flags && Num(file, pos + 8, 2) == m.compression
    ensures Num(file, pos + 18, 4) == m.localStored
    ensures Num(file, pos + 26, 2) == |m.name| && Num(file, pos + 28, 2) == |m.localExtra|
    ensures file[pos + 30..pos + 30 + |m.name|] == m.name
    ensures StandsAt(file, pos + 30 + |m.name| + |m.localExtra|, m.data)
  {
    var h := LocalHeader(m);
    Widths();
    LocalOffsets(m, h);
    FieldStands(file, pos, h, 0);
    assert file[pos..pos + 4] == LOCAL_SIG;
    NumField(file, pos, h, 2, m.flags, 2);
    NumField(file, pos, h, 3, m.compression, 2);
    NumField(file, pos, h, 5, m.localStored, 4);
    NumField(file, pos, h, 7, |m.name|, 2);
    NumField(file, pos, h, 8, |m.localExtra|, 2);
    FieldStands(file, pos, h, 9);
    FieldStands(file, pos, h, 11);
  }

  lemma CentralOffsets(m: Member, at: nat, h: seq<seq<byte>>)
    requires Encodable(m) && h == CentralHeader(m, at)
    ensures Offset(h, 0) == 0 && Offset(h, 2) == 8 && Offset(h, 3) == 10 && Offset(h, 5) == 20 && Offset(h, 6) == 24
    ensures Offset(h, 7) == 28 && Offset(h, 8) == 30 && Offset(h, 9) == 32 && Offset(h, 10) == 34
    ensures Offset(h, 12) == 42 && Offset(h, 13) == 46 && Offset(h, 14) == 46 + |m.name|
    ensures |Flatten(h)| == CentralLength(m)
  {
    OffsetStep(h, 0, 0);
    OffsetStep(h, 1, 4);
    OffsetStep(h, 2, 8);
    OffsetStep(h, 3, 10);
    OffsetStep(h, 4, 12);
    OffsetStep(h, 5, 20);
    OffsetStep(h, 6, 24);
    OffsetStep(h, 7, 28);
    OffsetStep(h, 8, 30);
    OffsetStep(h, 9, 32);
    OffsetStep(h, 10, 34);
    OffsetStep(h, 11, 36);
    OffsetStep(h, 12, 42);
    OffsetStep(h, 13, 46);
    OffsetStep(h, 14, 46 + |m.name|);
    WholeLength(h);
  }

  lemma CentralSizes(file: seq<byte>, pos: nat, m: Member, at: nat)
    requires Encodable(m) && StandsAt(file, pos, Flatten(CentralHeader(m, at)))
    ensures |Flatten(CentralHeader(m, at))| == CentralLength(m) && pos + CentralLength(m) <= |file|
    ensures Num(file, pos + 20, 4) == m.stored && Num(file, pos + 24, 4) == m.size
    ensures Num(file, pos + 28, 2) == |m.name| && Num(file, pos + 30, 2) == |m.extra|
    ensures Num(file, pos + 42, 4) == OffsetField(m, at)
  {
    var h := CentralHeader(m, at);
    Widths();
    CentralOffsets(m, at, h);
    NumField(file, pos, h, 5, m.stored, 4);
    NumField(file, pos, h, 6, m.size, 4);
    NumField(file, pos, h, 7, |m.name|, 2);
    NumField(file, pos, h, 8, |m.extra|, 2);
    NumField(file, pos, h, 12, OffsetField(m, at), 4);
  }

  lemma CentralFlags(file: seq<byte>, pos: nat, m: Member, at: nat)
    requires Encodable(m) && StandsAt(file, pos, Flatten(CentralHeader(m, at))) && pos + 46 <= |file|
    ensures HasSig(file, pos, CENTRAL_SIG)
    ensures Num(file, pos + 8, 2) == m.flags && Num(file, pos + 10, 2) == m.compression
    ensures Num(file, pos + 32, 2) == 0 && Num(file, pos + 34, 2) == 0
  {
    var h := CentralHeader(m, at);
    Widths();
    CentralOffsets(m, at, h);
    FieldStands(file, pos, h, 0);
    assert file[pos..pos + 4] == CENTRAL_SIG;
    NumField(file, pos, h, 2, m.flags, 2);
    NumField(file, pos, h, 3, m.compression, 2);
    NumField(file, pos, h, 9, 0, 2);
    NumField(file, pos, h, 10, 0, 2);
  }

  lemma CentralNames(file: seq<byte>, pos: nat, m: Member, at: nat)
    requires Encodable(m) && StandsAt(file, pos, Flatten(CentralHeader(m, at))) && pos + CentralLength(m) <= |file|
    ensures file[pos + 46..pos + 46 + |m.name|] == m.name
    ensures file[pos + 46 + |m.name|..pos + CentralLength(m)] == m.extra
  {
    var h := CentralHeader(m, at);
    CentralOffsets(m, at, h);
    FieldStands(file, pos, h, 13);
    FieldStands(file, pos, h, 14);
  }

  // ---- Reading one written member ---------------------------------------

  /** The members a strict reader can accept one by one. */
  predicate Packable(m: Member) {
    Encodable(m) && m.flags % 2 == 0 && m.compression in {0, 8} && m.name != [] && Allowed(m.name)
  }

  /** Bytes of the ZIP64 block that its clipped sizes take. */
  function ClippedBytes(m: Member): nat { (if m.size == MAX32 then 8 else 0) + (if m.stored == MAX32 then 8 else 0) }

  /** A clipped offset is held by the extra field. */
  predicate OffsetHeld(m: Member, at: nat) {
    OffsetField(m, at) == MAX32 ==> OffsetFrom(m.extra, 0, ClippedBytes(m), None) == Some(at)
  }

  function EntryOf(m: Member, cursor: nat, at: nat): Entry {
    Entry(cursor, m.name, m.flags, m.compression, |m.extra|, at)
  }

  lemma OffsetIsRead(file: seq<byte>, cursor: nat, m: Member, at: nat)
    requires OffsetHeld(m, at) && cursor + CentralLength(m) <= |file|
    requires Num(file, cursor + 20, 4) == m.stored && Num(file, cursor + 24, 4) == m.size
    requires Num(file, cursor + 28, 2) == |m.name| && Num(file, cursor + 30, 2) == |m.extra|
    requires Num(file, cursor + 42, 4) == OffsetField(m, at)
    requires file[cursor + 46 + |m.name|..cursor + CentralLength(m)] == m.extra
    ensures LocalOffset(file, cursor) == Some(at)
  {
  }

  lemma HeaderIsRead(file: seq<byte>, g: Geometry, cursor: nat, m: Member, at: nat)
    requires Encodable(m) && StandsAt(file, cursor, Flatten(CentralHeader(m, at)))
    requires cursor + CentralLength(m) <= g.end <= |file|
    ensures HeaderOk(file, g, cursor) <==> m.flags % 2 == 0 && 1 <= |m.name| <= MAX_NAME
  {
    CentralSizes(file, cursor, m, at);
    CentralFlags(file, cursor, m, at);
  }

  /** The fields of a central header, put together. */
  lemma CentralFollows(file: seq<byte>, g: Geometry, cursor: nat, m: Member, at: nat)
    requires m.name != [] && Allowed(m.name) && cursor + CentralLength(m) <= |file|
    requires HeaderOk(file, g, cursor) <==> |m.name| <= MAX_NAME
    requires LocalOffset.requires(file, cursor) && LocalOffset(file, cursor) == Some(at)
    requires Num(file, cursor + 28, 2) == |m.name| && Num(file, cursor + 30, 2) == |m.extra|
    requires Num(file, cursor + 8, 2) == m.flags && Num(file, cursor + 10, 2) == m.compression
    requires file[cursor + 46..cursor + 46 + |m.name|] == m.name
    ensures CentralEntry(file, g, cursor) == if |m.name| <= MAX_NAME then Some(EntryOf(m, cursor, at)) else None
  {
  }

  /** A written central header is read back exactly when its name is not longer than the reader allows. */
  lemma CentralIsRead(file: seq<byte>, g: Geometry, cursor: nat, m: Member, at: nat)
    requires Packable(m) && OffsetHeld(m, at) && g.end <= |file|
    requires StandsAt(file, cursor, Flatten(CentralHeader(m, at))) && cursor + CentralLength(m) <= g.end
    ensures CentralEntry(file, g, cursor) == if |m.name| <= MAX_NAME then Some(EntryOf(m, cursor, at)) else None
  {
    HeaderIsRead(file, g, cursor, m, at);
    CentralSizes(file, cursor, m, at);
    CentralFlags(file, cursor, m, at);
    CentralNames(file, cursor, m, at);
    OffsetIsRead(file, cursor, m, at);
    CentralFollows(file, g, cursor, m, at);
  }

  lemma LocalIsRead(file: seq<byte>, e: Entry, m: Member, limit: nat)
    requires Encodable(m) && StandsAt(file, e.localAt, Flatten(LocalHeader(m)))
    requires e.localAt + LocalLength(m) <= limit <= |file|
    requires e.name == m.name && e.flags == m.flags && e.compression == m.compression
    ensures LocalMatches(file, e, limit)
  {
    LocalFields(file, e.localAt, m);
  }

  lemma EntryIsRead(file: seq<byte>, g: Geometry, cursor: nat, m: Member, at: nat)
    requires Packable(m) && OffsetHeld(m, at) && g.offset <= g.end <= |file|
    requires StandsAt(file, cursor, Flatten(CentralHeader(m, at))) && cursor + CentralLength(m) <= g.end
    requires StandsAt(file, at, Flatten(LocalHeader(m))) && at + LocalLength(m) <= g.offset
    ensures EntryAt(file, g, cursor) == if |m.name| <= MAX_NAME then Some(EntryOf(m, cursor, at)) else None
  {
    CentralIsRead(file, g, cursor, m, at);
    LocalIsRead(file, EntryOf(m, cursor, at), m, g.offset);
  }

  // ---- The whole archive ------------------------------------------------

  /** Members whose local records start at `at`, each with its offset held where its directory entry clips it. */
  predicate AllPackable(ms: seq<Member>, at: nat) {
    ms == [] || (Packable(ms[0]) && OffsetHeld(ms[0], at) && AllPackable(ms[1..], at + LocalLength(ms[0])))
  }

  lemma RenderedLengths(lay: Layout, m: Member, at: nat)
    requires Encodable(m) && IsStandard(lay)
    ensures lay.local(m) == Flatten(LocalHeader(m)) && |lay.local(m)| == LocalLength(m)
    ensures lay.central(m, at) == Flatten(CentralHeader(m, at)) && |lay.central(m, at)| == CentralLength(m)
  {
    assert Rendered(m, at);
    LocalOffsets(m, LocalHeader(m));
    CentralOffsets(m, at, CentralHeader(m, at));
  }

  /** `bytes` fill file[at..limit]. */
  predicate Fills(file: seq<byte>, at: nat, limit: nat, bytes: seq<byte>) {
    at <= limit <= |file| && file[at..limit] == bytes
  }

  lemma FillsStep(file: seq<byte>, at: nat, limit: nat, head: seq<byte>, rest: seq<byte>)
    requires Fills(file, at, limit, head + rest)
    ensures StandsAt(file, at, head) && at + |head| <= limit && Fills(file, at + |head|, limit, rest)
  {
    PiecesStand(file, at, head, rest);
  }

  /** The entries a reader should find for members written at `at` with central headers from `cursor` on. */
  function EntriesOf(ms: seq<Member>, at: nat, cursor: nat): (es: seq<Entry>)
    ensures |es| == |ms|
  {
    if ms == [] then []
    else [EntryOf(ms[0], cursor, at)] + EntriesOf(ms[1..], at + LocalLength(ms[0]), cursor + CentralLength(ms[0]))
  }

  /** What a strict reader makes of a written entry. */
  predicate Finds(read: nat -> Option<Entry>, e: Entry) {
    read(e.at) == if |e.name| <= MAX_NAME then Some(e) else None
  }

  predicate AllFound(read: nat -> Option<Entry>, es: seq<Entry>) {
    es == [] || (Finds(read, es[0]) && AllFound(read, es[1..]))
  }

  lemma HeadIsFound(file: seq<byte>, g: Geometry, m: Member, at: nat, cursor: nat, read: nat -> Option<Entry>)
    requires Packable(m) && OffsetHeld(m, at) && Reads(read, file, g)
    requires g.offset <= g.end <= |file|
    requires StandsAt(file, at, Flatten(LocalHeader(m))) && at + LocalLength(m) <= g.offset
    requires StandsAt(file, cursor, Flatten(CentralHeader(m, at))) && cursor + CentralLength(m) <= g.end
    ensures Finds(read, EntryOf(m, cursor, at))
  {
    EntryIsRead(file, g, cursor, m, at);
    assert Asked(cursor);
  }

  /** The first of the members that fill the two halves, and the rest. */
  lemma HeadStands(lay: Layout, file: seq<byte>, ms: seq<Member>, at: nat, limit: nat, cursor: nat, end: nat)
    requires ms != [] && Encodable(ms[0]) && IsStandard(lay)
    requires Fills(file, at, limit, Locals(lay, ms)) && Fills(file, cursor, end, Centrals(lay, ms, at))
    ensures var m := ms[0];
            && StandsAt(file, at, Flatten(LocalHeader(m))) && at + LocalLength(m) <= limit
            && StandsAt(file, cursor, Flatten(CentralHeader(m, at))) && cursor + CentralLength(m) <= end
            && Fills(file, at + LocalLength(m), limit, Locals(lay, ms[1..]))
            && Fills(file, cursor + CentralLength(m), end, Centrals(lay, ms[1..], at + LocalLength(m)))
  {
    var m := ms[0];
    RenderedLengths(lay, m, at);
    FillsStep(file, at, limit, lay.local(m), Locals(lay, ms[1..]));
    FillsStep(file, cursor, end, lay.central(m, at), Centrals(lay, ms[1..], at + LocalLength(m)));
  }

  /** The first written entry is found, and the rest fill what is left. */
  lemma HeadAndRest(lay: Layout, file: seq<byte>, g: Geometry, ms: seq<Member>, at: nat, cursor: nat,
      read: nat -> Option<Entry>)
    requires ms != [] && Packable(ms[0]) && OffsetHeld(ms[0], at) && IsStandard(lay) && Reads(read, file, g)
    requires g.offset <= g.end
    requires Fills(file, at, g.offset, Locals(lay, ms)) && Fills(file, cursor, g.end, Centrals(lay, ms, at))
    ensures Finds(read, EntryOf(ms[0], cursor, at))
    ensures Fills(file, at + LocalLength(ms[0]), g.offset, Locals(lay, ms[1..]))
    ensures Fills(file, cursor + CentralLength(ms[0]), g.end, Centrals(lay, ms[1..], at + LocalLength(ms[0])))
  {
    HeadStands(lay, file, ms, at, g.offset, cursor, g.end);
    HeadIsFound(file, g, ms[0], at, cursor, read);
  }

  /** Every written entry is found. */
  lemma {:induction false} WrittenAreFound(
      lay: Layout, file: seq<byte>, g: Geometry, ms: seq<Member>, at: nat, cursor: nat, read: nat -> Option<Entry>)
    requires AllPackable(ms, at) && IsStandard(lay) && Reads(read, file, g) && g.offset <= g.end
    requires Fills(file, at, g.offset, Locals(lay, ms)) && Fills(file, cursor, g.end, Centrals(lay, ms, at))
    ensures AllFound(read, EntriesOf(ms, at, cursor))
    decreases |ms|
  {
    if ms != [] {
      HeadAndRest(lay, file, g, ms, at, cursor, read);
      WrittenAreFound(lay, file, g, ms[1..], at + LocalLength(ms[0]), cursor + CentralLength(ms[0]), read);
    }
  }

  /** The written entries tile the directory. */
  lemma {:induction false} EntriesTile(lay: Layout, file: seq<byte>, ms: seq<Member>, at: nat, cursor: nat, end: nat)
    requires AllPackable(ms, at) && IsStandard(lay) && Fills(file, cursor, end, Centrals(lay, ms, at))
    ensures Tiles(EntriesOf(ms, at, cursor), cursor, end)
    decreases |ms|
  {
    if ms != [] {
      var next := at + LocalLength(ms[0]);
      RenderedLengths(lay, ms[0], at);
      FillsStep(file, cursor, end, lay.central(ms[0], at), Centrals(lay, ms[1..], next));
      EntriesTile(lay, file, ms[1..], next, cursor + CentralLength(ms[0]), end);
    }
  }

  /** Names short enough for the reader, distinct and not among `names`. */
  predicate Strict(es: seq<Entry>, names: set<Name>) {
    es == [] || (|es[0].name| <= MAX_NAME && es[0].name !in names && Strict(es[1..], names + {es[0].name}))
  }

  /** Walking found entries succeeds exactly for strict names, and collects them all. */
  lemma {:induction false} WalkFound(read: nat -> Option<Entry>, es: seq<Entry>, cursor: nat, end: nat,
      names: set<Name>)
    requires Tiles(es, cursor, end) && AllFound(read, es)
    ensures WalkFrom(read, cursor, end, names, |es|) == if Strict(es, names) then Some(names + NamesOf(es)) else None
    decreases |es|
  {
    if es == [] {
      assert names + NamesOf(es) == names;
    } else {
      WalkFound(read, es[1..], cursor + Extent(es[0]), end, names + {es[0].name});
      assert names + {es[0].name} + NamesOf(es[1..]) == names + NamesOf(es);
    }
  }

  /**
   * The end of an archive: the end record alone, or after a ZIP64 record and locator. The flags say
   * which fields of the end record hold the sentinel that announces the ZIP64 record.
   */
  datatype EndStyle = Plain | Zip64(count16: bool, size32: bool, offset32: bool)

  function EndRecord(count: nat, size: nat, offset: nat): seq<seq<byte>> {
    [END_SIG, LeBytes(0, 2), LeBytes(0, 2), LeBytes(count, 2), LeBytes(count, 2), LeBytes(size, 4),
     LeBytes(offset, 4), LeBytes(0, 2)]
  }

  function Zip64Record(count: nat, size: nat, offset: nat): seq<seq<byte>> {
    [END64_SIG, LeBytes(44, 8), LeBytes(45, 2), LeBytes(45, 2), LeBytes(0, 4), LeBytes(0, 4),
     LeBytes(count, 8), LeBytes(count, 8), LeBytes(size, 8), LeBytes(offset, 8)]
  }

  function Locator(recordAt: nat): seq<seq<byte>> {
    [LOCATOR_SIG, LeBytes(0, 4), LeBytes(recordAt, 8), LeBytes(1, 4)]
  }

  /** The fields of the end record; a sentinel where the style announces the ZIP64 record. */
  function ShownCount(style: EndStyle, count: nat): nat { if style.Zip64? && style.count16 then MAX16 else count }

  function ShownSize(style: EndStyle, size: nat): nat { if style.Zip64? && style.size32 then MAX32 else size }

  function ShownOffset(style: EndStyle, offset: nat): nat { if style.Zip64? && style.offset32 then MAX32 else offset }

  function LastRecord(count: nat, size: nat, offset: nat, style: EndStyle): seq<seq<byte>> {
    EndRecord(ShownCount(style, count), ShownSize(style, size), ShownOffset(style, offset))
  }

  function EndBytes(count: nat, size: nat, offset: nat, style: EndStyle): seq<byte> {
    if style.Plain? then Flatten(LastRecord(count, size, offset, style))
    else
      Flatten(Zip64Record(count, size, offset)) + Flatten(Locator(offset + size))
      + Flatten(LastRecord(count, size, offset, style))
  }

  function Archive(ms: seq<Member>, style: EndStyle): seq<byte> {
    var locals, centrals := Locals(Standard(), ms), Centrals(Standard(), ms, 0);
    locals + centrals + EndBytes(|ms|, |centrals|, |locals|, style)
  }

  /**
   * The numbers of the directory fit the fields that hold them, below the sentinels where those mean something
   * else.
   */
  predicate Fits(count: nat, size: nat, offset: nat, style: EndStyle) {
    && offset + size < 0x1_0000_0000_0000_0000
    && count < MAX16 && size < MAX32
    && (style.Plain? || !style.offset32 ==> offset < MAX32)
  }

  /** The end record announces the ZIP64 record whenever there is one. */
  predicate Announced(style: EndStyle) {
    style.Zip64? ==> style.count16 || style.size32 || style.offset32
  }

  lemma EndOffsets(count: nat, size: nat, offset: nat, h: seq<seq<byte>>)
    requires h == EndRecord(count, size, offset)
    ensures Offset(h, 0) == 0 && Offset(h, 1) == 4 && Offset(h, 2) == 6 && Offset(h, 3) == 8 && Offset(h, 4) == 10
    ensures Offset(h, 5) == 12 && Offset(h, 6) == 16 && Offset(h, 7) == 20 && |Flatten(h)| == 22
  {
    OffsetStep(h, 0, 0);
    OffsetStep(h, 1, 4);
    OffsetStep(h, 2, 6);
    OffsetStep(h, 3, 8);
    OffsetStep(h, 4, 10);
    OffsetStep(h, 5, 12);
    OffsetStep(h, 6, 16);
    OffsetStep(h, 7, 20);
    WholeLength(h);
  }

  lemma EndFields(file: seq<byte>, pos: nat, count: nat, size: nat, offset: nat)
    requires StandsAt(file, pos, Flatten(EndRecord(count, size, offset))) && pos + 22 == |file|
    requires count <= MAX16 && size <= MAX32 && offset <= MAX32
    ensures HasSig(file, pos, END_SIG)
    ensures Num(file, pos + 4, 2) == 0 && Num(file, pos + 6, 2) == 0 && Num(file, pos + 20, 2) == 0
    ensures Num(file, pos + 8, 2) == count && Num(file, pos + 10, 2) == count
    ensures Num(file, pos + 12, 4) == size && Num(file, pos + 16, 4) == offset
  {
    var h := EndRecord(count, size, offset);
    Widths();
    EndOffsets(count, size, offset, h);
    FieldStands(file, pos, h, 0);
    assert file[pos..pos + 4] == END_SIG;
    NumField(file, pos, h, 1, 0, 2);
    NumField(file, pos, h, 2, 0, 2);
    NumField(file, pos, h, 3, count, 2);
    NumField(file, pos, h, 4, count, 2);
    NumField(file, pos, h, 5, size, 4);
    NumField(file, pos, h, 6, offset, 4);
    NumField(file, pos, h, 7, 0, 2);
  }

  lemma Zip64Offsets(count: nat, size: nat, offset: nat, h: seq<seq<byte>>)
    requires h == Zip64Record(count, size, offset)
    ensures Offset(h, 0) == 0 && Offset(h, 1) == 4 && Offset(h, 4) == 16 && Offset(h, 5) == 20 && Offset(h, 6) == 24
    ensures Offset(h, 7) == 32 && Offset(h, 8) == 40 && Offset(h, 9) == 48 && |Flatten(h)| == 56
  {
    OffsetStep(h, 0, 0);
    OffsetStep(h, 1, 4);
    OffsetStep(h, 2, 12);
    OffsetStep(h, 3, 14);
    OffsetStep(h, 4, 16);
    OffsetStep(h, 5, 20);
    OffsetStep(h, 6, 24);
    OffsetStep(h, 7, 32);
    OffsetStep(h, 8, 40);
    OffsetStep(h, 9, 48);
    WholeLength(h);
  }

  lemma Zip64Fields(file: seq<byte>, pos: nat, count: nat, size: nat, offset: nat)
    requires StandsAt(file, pos, Flatten(Zip64Record(count, size, offset))) && pos + 56 <= |file|
    requires count < MAX16 && size < MAX32 && offset < 0x1_0000_0000_0000_0000
    ensures HasSig(file, pos, END64_SIG) && Num(file, pos + 4, 8) == 44
    ensures Num(file, pos + 16, 4) == 0 && Num(file, pos + 20, 4) == 0
    ensures Num(file, pos + 24, 8) == count && Num(file, pos + 32, 8) == count
    ensures Num(file, pos + 40, 8) == size && Num(file, pos + 48, 8) == offset
  {
    var h := Zip64Record(count, size, offset);
    Widths();
    Zip64Offsets(count, size, offset, h);
    FieldStands(file, pos, h, 0);
    assert file[pos..pos + 4] == END64_SIG;
    NumField(file, pos, h, 1, 44, 8);
    NumField(file, pos, h, 4, 0, 4);
    NumField(file, pos, h, 5, 0, 4);
    NumField(file, pos, h, 6, count, 8);
    NumField(file, pos, h, 7, count, 8);
    NumField(file, pos, h, 8, size, 8);
    NumField(file, pos, h, 9, offset, 8);
  }

  lemma LocatorOffsets(recordAt: nat, h: seq<seq<byte>>)
    requires h == Locator(recordAt)
    ensures Offset(h, 0) == 0 && Offset(h, 1) == 4 && Offset(h, 2) == 8 && Offset(h, 3) == 16 && |Flatten(h)| == 20
  {
    OffsetStep(h, 0, 0);
    OffsetStep(h, 1, 4);
    OffsetStep(h, 2, 8);
    OffsetStep(h, 3, 16);
    WholeLength(h);
  }

  lemma LocatorFields(file: seq<byte>, pos: nat, recordAt: nat)
    requires StandsAt(file, pos, Flatten(Locator(recordAt))) && recordAt < 0x1_0000_0000_0000_0000
    ensures pos + 20 <= |file| && HasSig(file, pos, LOCATOR_SIG)
    ensures Num(file, pos + 4, 4) == 0 && Num(file, pos + 8, 8) == recordAt && Num(file, pos + 16, 4) == 1
  {
    var h := Locator(recordAt);
    Widths();
    LocatorOffsets(recordAt, h);
    FieldStands(file, pos, h, 0);
    assert file[pos..pos + 4] == LOCATOR_SIG;
    NumField(file, pos, h, 1, 0, 4);
    NumField(file, pos, h, 2, recordAt, 8);
    NumField(file, pos, h, 3, 1, 4);
  }

  /** The geometry a reader derives when no field of the end record is a sentinel. */
  lemma PlainGeometry(file: seq<byte>, count: nat, size: nat, offset: nat)
    requires |file| >= 22 && HasSig(file, 0, LOCAL_SIG) && count < MAX16 && size < MAX32 && offset < MAX32
    requires StandsAt(file, |file| - 22, Flatten(EndRecord(count, size, offset)))
    ensures GeometryOf(file) == Checked(count, size, offset, |file| - 22)
  {
    EndFields(file, |file| - 22, count, size, offset);
  }

  /** The geometry a reader derives from a ZIP64 record and locator that the end record announces. */
  lemma AnnouncedGeometry(file: seq<byte>, at: nat, count: nat, size: nat, offset: nat)
    requires |file| == at + 98 && SimpleEnd(file) && NeedsZip64(file)
    requires StandsAt(file, at, Flatten(Zip64Record(count, size, offset)))
    requires StandsAt(file, at + 56, Flatten(Locator(at)))
    requires count < MAX16 && size < MAX32 && offset < 0x1_0000_0000_0000_0000 && at < 0x1_0000_0000_0000_0000
    ensures GeometryOf(file) == Checked(count, size, offset, at)
  {
    Zip64Fields(file, at, count, size, offset);
    LocatorFields(file, at + 56, at);
    assert Zip64End(file);
  }

  /** What the end record shows of the sizes of a directory with a ZIP64 record. */
  lemma ShownFields(file: seq<byte>, count: nat, size: nat, offset: nat, style: EndStyle)
    requires style.Zip64? && Fits(count, size, offset, style) && |file| >= 22 && HasSig(file, 0, LOCAL_SIG)
    requires StandsAt(file, |file| - 22, Flatten(LastRecord(count, size, offset, style)))
    ensures SimpleEnd(file) && (NeedsZip64(file) <==> Announced(style))
  {
    EndFields(file, |file| - 22, ShownCount(style, count), ShownSize(style, size), ShownOffset(style, offset));
  }

  /** The geometry a reader derives from ZIP64 end bytes: none, unless they are announced. */
  lemma Zip64Geometry(file: seq<byte>, at: nat, count: nat, size: nat, offset: nat, style: EndStyle)
    requires style.Zip64? && Fits(count, size, offset, style) && at == offset + size
    requires |file| == at + 98 && HasSig(file, 0, LOCAL_SIG)
    requires StandsAt(file, at, Flatten(Zip64Record(count, size, offset)))
    requires StandsAt(file, at + 56, Flatten(Locator(at)))
    requires StandsAt(file, at + 76, Flatten(LastRecord(count, size, offset, style)))
    ensures GeometryOf(file) == if Announced(style) then Checked(count, size, offset, at) else None
  {
    if Announced(style) {
      ShownFields(file, count, size, offset, style);
      AnnouncedGeometry(file, at, count, size, offset);
    } else {
      assert LastRecord(count, size, offset, style) == EndRecord(count, size, offset);
      PlainGeometry(file, count, size, offset);
    }
  }

  /** `file` starts with local records and their central headers. */
  predicate HoldsMembers(lay: Layout, file: seq<byte>, ms: seq<Member>, offset: nat, end: nat) {
    Fills(file, 0, offset, Locals(lay, ms)) && Fills(file, offset, end, Centrals(lay, ms, 0))
  }

  /** `file` ends at `end` with the end bytes of a directory. */
  predicate HoldsEnd(file: seq<byte>, count: nat, size: nat, offset: nat, end: nat, style: EndStyle) {
    && end == offset + size
    && StandsAt(file, end, EndBytes(count, size, offset, style))
    && |file| == end + |EndBytes(count, size, offset, style)|
  }

  lemma ArchiveHolds(ms: seq<Member>, style: EndStyle, size: nat, offset: nat, end: nat)
    requires offset == |Locals(Standard(), ms)| && size == |Centrals(Standard(), ms, 0)| && end == offset + size
    ensures HoldsMembers(Standard(), Archive(ms, style), ms, offset, end)
    ensures HoldsEnd(Archive(ms, style), |ms|, size, offset, end, style)
  {
    Concatenated(Locals(Standard(), ms), Centrals(Standard(), ms, 0), EndBytes(|ms|, size, offset, style));
  }

  lemma Concatenated(a: seq<byte>, b: seq<byte>, c: seq<byte>)
    ensures Fills(a + b + c, 0, |a|, a) && Fills(a + b + c, |a|, |a| + |b|, b) && StandsAt(a + b + c, |a| + |b|, c)
  {
  }

  lemma LastSize(count: nat, size: nat, offset: nat, style: EndStyle)
    ensures |Flatten(LastRecord(count, size, offset, style))| == 22
  {
    EndOffsets(ShownCount(style, count), ShownSize(style, size), ShownOffset(style, offset),
        LastRecord(count, size, offset, style));
  }

  lemma RecordSizes(count: nat, size: nat, offset: nat)
    ensures |Flatten(Zip64Record(count, size, offset))| == 56 && |Flatten(Locator(offset + size))| == 20
  {
    Zip64Offsets(count, size, offset, Zip64Record(count, size, offset));
    LocatorOffsets(offset + size, Locator(offset + size));
  }

  /** End bytes, piece by piece. */
  lemma EndPieces(file: seq<byte>, at: nat, count: nat, size: nat, offset: nat, style: EndStyle)
    requires StandsAt(file, at, EndBytes(count, size, offset, style))
    ensures |EndBytes(count, size, offset, style)| == if style.Plain? then 22 else 98
    ensures StandsAt(file, if style.Plain? then at else at + 76, Flatten(LastRecord(count, size, offset, style)))
    ensures style.Zip64? ==>
              StandsAt(file, at, Flatten(Zip64Record(count, size, offset)))
              && StandsAt(file, at + 56, Flatten(Locator(offset + size)))
  {
    LastSize(count, size, offset, style);
    if style.Zip64? {
      RecordSizes(count, size, offset);
      var record, locator := Flatten(Zip64Record(count, size, offset)), Flatten(Locator(offset + size));
      PiecesStand(file, at, record + locator, Flatten(LastRecord(count, size, offset, style)));
      PiecesStand(file, at, record, locator);
    }
  }

  /** Which geometry the reader derives from a written archive. */
  lemma WrittenGeometry(file: seq<byte>, count: nat, size: nat, offset: nat, end: nat, style: EndStyle)
    requires Fits(count, size, offset, style) && HoldsEnd(file, count, size, offset, end, style)
    ensures |file| >= end + 22
    ensures GeometryOf(file) ==
            if HasSig(file, 0, LOCAL_SIG) && Announced(style) then Checked(count, size, offset, end) else None
  {
    EndPieces(file, end, count, size, offset, style);
    if !HasSig(file, 0, LOCAL_SIG) {
    } else if style.Zip64? {
      Zip64Geometry(file, end, count, size, offset, style);
    } else {
      PlainGeometry(file, count, size, offset);
    }
  }

  /** A file of records starts with a local header. */
  lemma FirstBytes(lay: Layout, file: seq<byte>, ms: seq<Member>, offset: nat)
    requires ms != [] && Encodable(ms[0]) && IsStandard(lay) && Fills(file, 0, offset, Locals(lay, ms))
    ensures |file| >= 4 && HasSig(file, 0, LOCAL_SIG)
  {
    RenderedLengths(lay, ms[0], 0);
    FillsStep(file, 0, offset, lay.local(ms[0]), Locals(lay, ms[1..]));
    LocalFields(file, 0, ms[0]);
  }

  /** An archive of nothing starts with its end records. */
  lemma EmptyStart(file: seq<byte>, style: EndStyle)
    requires HoldsEnd(file, 0, 0, 0, 0, style)
    ensures |file| >= 4 && !HasSig(file, 0, LOCAL_SIG)
  {
    EndPieces(file, 0, 0, 0, 0, style);
    if style.Plain? {
      EndFields(file, 0, 0, 0, 0);
    } else {
      Zip64Fields(file, 0, 0, 0, 0);
    }
  }

  /** Names short enough for the reader, pairwise distinct and not among `names`. */
  predicate StrictNames(ms: seq<Member>, names: set<Name>) {
    && (forall i :: 0 <= i < |ms| ==> |ms[i].name| <= MAX_NAME && ms[i].name !in names)
    && (forall i, j :: 0 <= i < j < |ms| ==> ms[i].name != ms[j].name)
  }

  lemma StrictCons(ms: seq<Member>, names: set<Name>)
    requires ms != []
    ensures StrictNames(ms, names) <==>
            |ms[0].name| <= MAX_NAME && ms[0].name !in names && StrictNames(ms[1..], names + {ms[0].name})
  {
    var rest := ms[1..];
    if StrictNames(rest, names + {ms[0].name}) && |ms[0].name| <= MAX_NAME && ms[0].name !in names {
      forall i | 0 <= i < |ms| ensures |ms[i].name| <= MAX_NAME && ms[i].name !in names {
        if i > 0 { assert ms[i] == rest[i - 1]; }
      }
      forall i, j | 0 <= i < j < |ms| ensures ms[i].name != ms[j].name {
        assert ms[j] == rest[j - 1];
        if i > 0 { assert ms[i] == rest[i - 1]; }
      }
    }
    if StrictNames(ms, names) {
      forall i | 0 <= i < |rest| ensures |rest[i].name| <= MAX_NAME && rest[i].name !in names + {ms[0].name} {
        assert rest[i] == ms[i + 1];
      }
      forall i, j | 0 <= i < j < |rest| ensures rest[i].name != rest[j].name {
        assert rest[i] == ms[i + 1] && rest[j] == ms[j + 1];
      }
    }
  }

  function MemberNames(ms: seq<Member>): set<Name> {
    set m | m in ms :: m.name
  }

  /** The written entries carry the members' names. */
  lemma {:induction false} EntriesCarryNames(ms: seq<Member>, at: nat, cursor: nat)
    ensures NamesOf(EntriesOf(ms, at, cursor)) == MemberNames(ms)
    decreases |ms|
  {
    if ms != [] {
      EntriesCarryNames(ms[1..], at + LocalLength(ms[0]), cursor + CentralLength(ms[0]));
      assert ms == [ms[0]] + ms[1..];
    }
  }

  lemma {:induction false} EntriesAreStrict(ms: seq<Member>, at: nat, cursor: nat, names: set<Name>)
    ensures Strict(EntriesOf(ms, at, cursor), names) <==> StrictNames(ms, names)
    decreases |ms|
  {
    if ms != [] {
      EntriesAreStrict(ms[1..], at + LocalLength(ms[0]), cursor + CentralLength(ms[0]), names + {ms[0].name});
      StrictCons(ms, names);
    }
  }

  lemma StandardIsStandard()
    ensures IsStandard(Standard())
  {
  }

  lemma ReaderReads(file: seq<byte>, g: Geometry)
    ensures Reads(Reader(file, g), file, g)
  {
  }

  /** Walking the written entries gives the members' names. */
  lemma WalkNames(ms: seq<Member>, cursor: nat, end: nat, read: nat -> Option<Entry>)
    requires Tiles(EntriesOf(ms, 0, cursor), cursor, end) && AllFound(read, EntriesOf(ms, 0, cursor))
    ensures WalkFrom(read, cursor, end, {}, |ms|) == if StrictNames(ms, {}) then Some(MemberNames(ms)) else None
  {
    var es := EntriesOf(ms, 0, cursor);
    WalkFound(read, es, cursor, end, {});
    EntriesAreStrict(ms, 0, cursor, {});
    EntriesCarryNames(ms, 0, cursor);
    assert {} + NamesOf(es) == MemberNames(ms);
  }

  /** What walking the directory of an archive gives. */
  lemma ArchiveWalk(lay: Layout, file: seq<byte>, ms: seq<Member>, g: Geometry, read: nat -> Option<Entry>)
    requires AllPackable(ms, 0) && IsStandard(lay) && Reads(read, file, g)
    requires HoldsMembers(lay, file, ms, g.offset, g.end)
    ensures WalkFrom(read, g.offset, g.end, {}, |ms|) == if StrictNames(ms, {}) then Some(MemberNames(ms)) else None
  {
    WrittenAreFound(lay, file, g, ms, 0, g.offset, read);
    EntriesTile(lay, file, ms, 0, g.offset, g.end);
    WalkNames(ms, g.offset, g.end, read);
  }

  /** The reader's geometry of an archive. */
  lemma ArchiveGeometry(lay: Layout, file: seq<byte>, ms: seq<Member>, style: EndStyle, g: Geometry, size: nat)
    requires AllPackable(ms, 0) && IsStandard(lay) && HoldsMembers(lay, file, ms, g.offset, g.end)
    requires g.count == |ms| && HoldsEnd(file, g.count, size, g.offset, g.end, style) && (ms == [] ==> g.end == 0)
    requires Fits(g.count, size, g.offset, style)
    ensures GeometryOf(file) == if ms != [] && Announced(style) then Checked(g.count, size, g.offset, g.end) else None
  {
    if ms != [] {
      FirstBytes(lay, file, ms, g.offset);
    } else {
      EmptyStart(file, style);
    }
    WrittenGeometry(file, g.count, size, g.offset, g.end, style);
  }

  /** What the strict reader returns, given its geometry and its reading of entries. */
  predicate Returns(names: Option<set<Name>>, geometry: Option<Geometry>, read: nat -> Option<Entry>) {
    names == if geometry.None? then None
             else var g := geometry.value; WalkFrom(read, g.offset, g.end, {}, g.count)
  }

  lemma NamesAreReturned(file: seq<byte>, g: Geometry)
    requires GeometryOf(file).Some? ==> GeometryOf(file) == Some(g)
    ensures Returns(ZipNames(file), GeometryOf(file), Reader(file, g)) && Reads(Reader(file, g), file, g)
  {
    ReaderReads(file, g);
  }

  lemma RoundTripOf(lay: Layout, file: seq<byte>, ms: seq<Member>, style: EndStyle, g: Geometry, size: nat,
                    geometry: Option<Geometry>, read: nat -> Option<Entry>, names: Option<set<Name>>)
    requires AllPackable(ms, 0) && IsStandard(lay) && HoldsMembers(lay, file, ms, g.offset, g.end)
    requires g.count == |ms| && g.end == g.offset + size
    requires geometry == if ms != [] && Announced(style) then Checked(g.count, size, g.offset, g.end) else None
    requires Reads(read, file, g) && Returns(names, geometry, read)
    ensures names ==
            if 1 <= g.count <= MAX_ENTRIES && StrictNames(ms, {}) && size <= MAX_DIRECTORY && Announced(style)
            then Some(MemberNames(ms)) else None
  {
    ArchiveWalk(lay, file, ms, g, read);
  }

  /**
   * Round trip: whatever its versions, times, attributes, extra fields and clipped fields, a written archive is
   * accepted exactly when it packs 1 to 69 distinct names of at most 128 bytes, its directory takes at most
   * 1 MiB, and its end record announces a ZIP64 record if there is one; then it returns exactly the packed names.
   */
  lemma RoundTrip(ms: seq<Member>, style: EndStyle)
    requires AllPackable(ms, 0) && Fits(|ms|, |Centrals(Standard(), ms, 0)|, |Locals(Standard(), ms)|, style)
    ensures ZipNames(Archive(ms, style)) ==
            if 1 <= |ms| <= MAX_ENTRIES && StrictNames(ms, {}) && |Centrals(Standard(), ms, 0)| <= MAX_DIRECTORY
                && Announced(style)
            then Some(MemberNames(ms)) else None
  {
    var lay, file := Standard(), Archive(ms, style);
    var offset, size := |Locals(lay, ms)|, |Centrals(lay, ms, 0)|;
    var g := Geometry(|ms|, offset, offset + size);
    ArchiveHolds(ms, style, size, offset, g.end);
    StandardIsStandard();
    ArchiveGeometry(lay, file, ms, style, g, size);
    NamesAreReturned(file, g);
    RoundTripOf(lay, file, ms, style, g, size, GeometryOf(file), Reader(file, g), ZipNames(file));
  }

  // ---- Archives as the packaging library clips them ---------------------

  /** Beyond this the library moves a number to the ZIP64 extra field; both sizes move together. */
  const LIBRARY_LIMIT := 0x7fff_ffff

  function LibraryBody(stored: nat, size: nat, at: nat): seq<byte> {
    (if size > LIBRARY_LIMIT || stored > LIBRARY_LIMIT then LeBytes(size, 8) + LeBytes(stored, 8) else [])
    + (if at > LIBRARY_LIMIT then LeBytes(at, 8) else [])
  }

  function LibraryExtra(stored: nat, size: nat, at: nat): seq<byte> {
    var body := LibraryBody(stored, size, at);
    if body == [] then [] else LeBytes(1, 2) + LeBytes(|body|, 2) + body
  }

  /** The directory entry of a file of `size` bytes, as the library writes it; the local header is free. */
  predicate LibraryWrites(m: Member, size: nat, at: nat) {
    var clipped := size > LIBRARY_LIMIT || |m.data| > LIBRARY_LIMIT;
    && size < 0x1_0000_0000_0000_0000 && at < 0x1_0000_0000_0000_0000
    && m.stored == (if clipped then MAX32 else |m.data|) && m.size == (if clipped then MAX32 else size)
    && m.wide == (at > LIBRARY_LIMIT) && m.extra == LibraryExtra(|m.data|, size, at)
  }

  /** One ZIP64 block that is a whole extra field. */
  lemma OneBlock(extra: seq<byte>, skip: nat)
    requires 12 + skip <= |extra| && Num(extra, 0, 2) == 1 && Num(extra, 2, 2) == |extra| - 4
    ensures OffsetFrom(extra, 0, skip, None) == Some(Num(extra, 4 + skip, 8))
  {
    assert NextBlock(extra, 0) == |extra|;
  }

  lemma BlockHolds(extra: seq<byte>, sizes: seq<byte>, at: nat)
    requires |sizes| <= 16 && at < 0x1_0000_0000_0000_0000
    requires extra == LeBytes(1, 2) + LeBytes(|sizes + LeBytes(at, 8)|, 2) + (sizes + LeBytes(at, 8))
    ensures OffsetFrom(extra, 0, |sizes|, None) == Some(at)
  {
    var tag, length := LeBytes(1, 2), LeBytes(|sizes + LeBytes(at, 8)|, 2);
    Widths();
    assert StandsAt(extra, 0, extra);
    PiecesStand(extra, 0, tag + length, sizes + LeBytes(at, 8));
    PiecesStand(extra, 0, tag, length);
    PiecesStand(extra, 4, sizes, LeBytes(at, 8));
    NumStands(extra, 0, 1, 2);
    NumStands(extra, 2, |sizes + LeBytes(at, 8)|, 2);
    NumStands(extra, 4 + |sizes|, at, 8);
    OneBlock(extra, |sizes|);
  }

  /** The library's extra field holds every offset it clips. */
  lemma LibraryHolds(m: Member, size: nat, at: nat)
    requires LibraryWrites(m, size, at)
    ensures OffsetHeld(m, at)
  {
    if at > LIBRARY_LIMIT {
      var wide := size > LIBRARY_LIMIT || |m.data| > LIBRARY_LIMIT;
      var sizes := if wide then LeBytes(size, 8) + LeBytes(|m.data|, 8) else [];
      assert LibraryBody(|m.data|, size, at) == sizes + LeBytes(at, 8);
      assert sizes + LeBytes(at, 8) != [];
      assert |sizes| == ClippedBytes(m);
      BlockHolds(m.extra, sizes, at);
    }
  }

  /** Members of the given sizes, with their local records from `at` on, as the library writes them. */
  predicate AllLibrary(ms: seq<Member>, sizes: seq<nat>, at: nat)
    decreases |ms|
  {
    if ms == [] || sizes == [] then ms == [] && sizes == []
    else
      && Packable(ms[0]) && LibraryWrites(ms[0], sizes[0], at)
      && AllLibrary(ms[1..], sizes[1..], at + LocalLength(ms[0]))
  }

  lemma LibraryRest(ms: seq<Member>, sizes: seq<nat>, at: nat)
    requires ms != [] && AllLibrary(ms, sizes, at)
    ensures sizes != [] && AllLibrary(ms[1..], sizes[1..], at + LocalLength(ms[0]))
  {
  }

  lemma LibraryHead(ms: seq<Member>, sizes: seq<nat>, at: nat)
    requires ms != [] && AllLibrary(ms, sizes, at)
    ensures Packable(ms[0]) && OffsetHeld(ms[0], at)
  {
    LibraryHolds(ms[0], sizes[0], at);
  }

  lemma {:induction false} LibraryPacks(ms: seq<Member>, sizes: seq<nat>, at: nat)
    requires AllLibrary(ms, sizes, at)
    ensures AllPackable(ms, at)
    decreases |ms|
  {
    if ms != [] {
      LibraryRest(ms, sizes, at);
      LibraryPacks(ms[1..], sizes[1..], at + LocalLength(ms[0]));
      LibraryHead(ms, sizes, at);
    }
  }

  /** The library's end records: beyond its limit it adds a ZIP64 record, and clips what does not fit 32 bits. */
  function LibraryStyle(size: nat, offset: nat): EndStyle {
    if size > LIBRARY_LIMIT || offset > LIBRARY_LIMIT then Zip64(false, size >= MAX32, offset >= MAX32) else Plain
  }

  /**
   * What the library writes is accepted exactly when it packs 1 to 69 distinct names of at most 128 bytes, its
   * directory takes at most 1 MiB, and the directory does not start between 2 and 4 GiB: there the library adds
   * a ZIP64 record that its end record does not announce.
   */
  lemma LibraryRoundTrip(ms: seq<Member>, sizes: seq<nat>)
    requires AllLibrary(ms, sizes, 0) && |ms| < MAX16
    requires |Centrals(Standard(), ms, 0)| < MAX32
    requires |Locals(Standard(), ms)| + |Centrals(Standard(), ms, 0)| < 0x1_0000_0000_0000_0000
    ensures var offset, size := |Locals(Standard(), ms)|, |Centrals(Standard(), ms, 0)|;
            ZipNames(Archive(ms, LibraryStyle(size, offset))) ==
            if 1 <= |ms| <= MAX_ENTRIES && StrictNames(ms, {}) && size <= MAX_DIRECTORY
                && !(LIBRARY_LIMIT < offset < MAX32)
            then Some(MemberNames(ms)) else None
  {
    LibraryPacks(ms, sizes, 0);
    RoundTrip(ms, LibraryStyle(|Centrals(Standard(), ms, 0)|, |Locals(Standard(), ms)|));
  }
}
