/** The strict preflight of a system package's ZIP metadata (scripts/system-package.py). */
module ZipReader {
  import opened Wrappers
  import opened Bytes

  const LOCAL_SIG: seq<byte> := [0x50, 0x4b, 3, 4]
  const CENTRAL_SIG: seq<byte> := [0x50, 0x4b, 1, 2]
  const END_SIG: seq<byte> := [0x50, 0x4b, 5, 6]
  const END64_SIG: seq<byte> := [0x50, 0x4b, 6, 6]
  const LOCATOR_SIG: seq<byte> := [0x50, 0x4b, 6, 7]
  const MAX16 := 0xffff
  const MAX32 := 0xffff_ffff
  const MAX_ENTRIES := 69
  const MAX_DIRECTORY := 1048576
  const MAX_NAME := 128

  /** The format's signatures: "PK" and two numbers. */
  lemma SignaturesAreText()
    ensures LOCAL_SIG == Ascii("PK") + [3, 4] && CENTRAL_SIG == Ascii("PK") + [1, 2] && END_SIG == Ascii("PK") + [5, 6]
    ensures END64_SIG == Ascii("PK") + [6, 6] && LOCATOR_SIG == Ascii("PK") + [6, 7]
  {
  }

  type Name = seq<byte>

  const PATHS: seq<Name> := [
    Ascii("manifest.json"), Ascii("payload/boot.img"), Ascii("payload/system.img"), Ascii("payload/vendor.img"),
    Ascii("provenance/source-lock.json")]
  const LICENSE_PREFIX := Ascii("licenses/")
  const LICENSE_SUFFIX := Ascii(".txt")

  predicate LowerOrDigit(b: byte) { 0x61 <= b <= 0x7a || 0x30 <= b <= 0x39 }

  /** A license file: one lower-case letter or digit, then also underscores and hyphens. */
  predicate LicenseName(name: Name) {
    var first, last := |LICENSE_PREFIX|, |name| - |LICENSE_SUFFIX|;
    && first < last
    && (forall i :: 0 <= i < first ==> name[i] == LICENSE_PREFIX[i])
    && (forall i :: last <= i < |name| ==> name[i] == LICENSE_SUFFIX[i - last])
    && LowerOrDigit(name[first])
    && forall i :: first < i < last ==> LowerOrDigit(name[i]) || name[i] == 0x5f || name[i] == 0x2d
  }

  /** The pathname allow-list of a format-1 package. */
  predicate Allowed(name: Name) {
    name in PATHS || LicenseName(name)
  }

  predicate HasSig(file: seq<byte>, at: nat, sig: seq<byte>)
    requires at + 4 <= |file| && |sig| == 4
  {
    file[at] == sig[0] && file[at + 1] == sig[1] && file[at + 2] == sig[2] && file[at + 3] == sig[3]
  }

  // ---- Where the directory is -------------------------------------------

  /** What an end record declares: `count` entries occupying file[offset..end]. */
  datatype Geometry = Geometry(count: nat, offset: nat, end: nat)

  predicate NeedsZip64(file: seq<byte>)
    requires |file| >= 22
  {
    var at := |file| - 22;
    Num(file, at + 10, 2) == MAX16 || Num(file, at + 12, 4) == MAX32 || Num(file, at + 16, 4) == MAX32
  }

  /** The end record itself: one disk, no comment, consistent counts. */
  predicate SimpleEnd(file: seq<byte>) {
    && |file| >= 22
    && HasSig(file, 0, LOCAL_SIG)
    && var at := |file| - 22;
    && HasSig(file, at, END_SIG)
    && Num(file, at + 20, 2) == 0 && Num(file, at + 4, 2) == 0 && Num(file, at + 6, 2) == 0
    && Num(file, at + 8, 2) == Num(file, at + 10, 2)
  }

  /** The ZIP64 locator and end record stand right before the end record. */
  predicate Zip64End(file: seq<byte>) {
    && |file| >= 42
    && var loc := |file| - 42;
    && HasSig(file, loc, LOCATOR_SIG) && Num(file, loc + 4, 4) == 0 && Num(file, loc + 16, 4) == 1
    && var rec := Num(file, loc + 8, 8);
    && rec + 56 == loc
    && HasSig(file, rec, END64_SIG) && Num(file, rec + 4, 8) == 44
    && Num(file, rec + 16, 4) == 0 && Num(file, rec + 20, 4) == 0
    && Num(file, rec + 24, 8) == Num(file, rec + 32, 8)
  }

  /** The directory `offset` and `end` leave `size` bytes for, within the limits. */
  function Checked(count: nat, size: nat, offset: nat, end: nat): Option<Geometry> {
    if 1 <= count <= MAX_ENTRIES && size <= MAX_DIRECTORY && offset <= end && size == end - offset
    then Some(Geometry(count, offset, end)) else None
  }

  function GeometryOf(file: seq<byte>): Option<Geometry> {
    if !SimpleEnd(file) then None
    else
      var at := |file| - 22;
      if !NeedsZip64(file) then Checked(Num(file, at + 10, 2), Num(file, at + 12, 4), Num(file, at + 16, 4), at)
      else if !Zip64End(file) then None
      else
        var rec := |file| - 98;
        Checked(Num(file, rec + 32, 8), Num(file, rec + 40, 8), Num(file, rec + 48, 8), rec)
  }

  // ---- Extra fields -----------------------------------------------------

  /** Where the block after the one at `at` starts; past the end when that block is truncated. */
  function NextBlock(extra: seq<byte>, at: nat): (next: nat)
    requires at + 4 <= |extra|
    ensures next >= at + 4
  {
    at + 4 + Num(extra, at + 2, 2)
  }

  /**
   * The local offset held by the ZIP64 blocks from `at` on, given the one `found` before `at`.
   * Fewer than four trailing bytes are ignored; a truncated, short or repeated block is refused.
   */
  function OffsetFrom(extra: seq<byte>, at: nat, skip: nat, found: Option<nat>): Option<nat>
    requires at <= |extra|
    decreases |extra| - at
  {
    if at + 4 > |extra| then found
    else
      var next := NextBlock(extra, at);
      if next > |extra| then None
      else if Num(extra, at, 2) != 1 then OffsetFrom(extra, next, skip, found)
      else if found.Some? || at + 4 + skip + 8 > next then None
      else OffsetFrom(extra, next, skip, Some(Num(extra, at + 4 + skip, 8)))
  }

  method FindZip64Offset(extra: seq<byte>, skip: nat) returns (r: Option<nat>)
    ensures r == OffsetFrom(extra, 0, skip, None)
  {
    var at := 0;
    r := None;
    while at + 4 <= |extra|
      invariant at <= |extra|
      invariant OffsetFrom(extra, at, skip, r) == OffsetFrom(extra, 0, skip, None)
      decreases |extra| - at
    {
      var tag, size := Num(extra, at, 2), Num(extra, at + 2, 2);
      at := at + 4;
      if size > |extra| - at {
        return None;
      }
      if tag == 1 {
        if r.Some? || skip + 8 > size {
          return None;
        }
        r := Some(Num(extra, at + skip, 8));
      }
      at := at + size;
    }
  }

  /** `p` is where a block of the walk from `at` starts. */
  predicate StartsBlock(extra: seq<byte>, at: nat, p: nat): (starts: bool)
    ensures starts ==> at <= p && p + 4 <= |extra|
    decreases |extra| - at
  {
    at + 4 <= |extra| && (p == at || StartsBlock(extra, NextBlock(extra, at), p))
  }

  /** A ZIP64 block at `p`, whole and long enough to hold an offset after `skip` bytes of sizes. */
  predicate HoldsOffset(extra: seq<byte>, p: nat, skip: nat, value: nat) {
    && p + 4 <= |extra| && Num(extra, p, 2) == 1
    && p + 4 + skip + 8 <= NextBlock(extra, p) <= |extra|
    && value == Num(extra, p + 4 + skip, 8)
  }

  /** An offset is found exactly when it was already there or one block, the only ZIP64 one, holds it. */
  lemma {:induction false} OffsetMeaning(extra: seq<byte>, at: nat, skip: nat, found: Option<nat>, value: nat)
    requires at <= |extra| && OffsetFrom(extra, at, skip, found) == Some(value)
    ensures forall p :: StartsBlock(extra, at, p) ==> NextBlock(extra, p) <= |extra|
    ensures found.Some? ==> found == Some(value) && forall p :: StartsBlock(extra, at, p) ==> Num(extra, p, 2) != 1
    ensures found.None? ==> exists p :: StartsBlock(extra, at, p) && HoldsOffset(extra, p, skip, value)
                                        && forall q :: StartsBlock(extra, at, q) && Num(extra, q, 2) == 1 ==> q == p
    decreases |extra| - at
  {
    if at + 4 <= |extra| {
      var next := NextBlock(extra, at);
      if Num(extra, at, 2) != 1 {
        OffsetMeaning(extra, next, skip, found, value);
        if found.None? {
          var p :| StartsBlock(extra, next, p) && HoldsOffset(extra, p, skip, value)
                   && forall q :: StartsBlock(extra, next, q) && Num(extra, q, 2) == 1 ==> q == p;
          assert StartsBlock(extra, at, p);
        }
      } else {
        OffsetMeaning(extra, next, skip, Some(Num(extra, at + 4 + skip, 8)), value);
        assert StartsBlock(extra, at, at) && HoldsOffset(extra, at, skip, value);
      }
    }
  }

  // ---- One central entry ------------------------------------------------

  datatype Entry = Entry(at: nat, name: Name, flags: nat, compression: nat, extraBytes: nat, localAt: nat)

  /** Bytes a central entry occupies; comments are forbidden. */
  function Extent(e: Entry): nat { 46 + |e.name| + e.extraBytes }

  /** Bytes that the clipped sizes of the central header at `at` take in its ZIP64 block, ahead of the offset. */
  function SizesBefore(file: seq<byte>, at: nat): nat
    requires at + 46 <= |file|
  {
    (if Num(file, at + 24, 4) == MAX32 then 8 else 0) + (if Num(file, at + 20, 4) == MAX32 then 8 else 0)
  }

  /** The local offset an entry at `at` declares, directly or in its extra field. */
  function LocalOffset(file: seq<byte>, at: nat): Option<nat>
    requires at + 46 <= |file| && at + 46 + Num(file, at + 28, 2) + Num(file, at + 30, 2) <= |file|
  {
    var direct := Num(file, at + 42, 4);
    if direct != MAX32 then Some(direct)
    else
      var extra := at + 46 + Num(file, at + 28, 2);
      OffsetFrom(file[extra..extra + Num(file, at + 30, 2)], 0, SizesBefore(file, at), None)
  }

  /** The fixed-size header at `at` and its lengths are acceptable. */
  predicate HeaderOk(file: seq<byte>, g: Geometry, at: nat) {
    && at + 46 <= g.end <= |file|
    && HasSig(file, at, CENTRAL_SIG)
    && Num(file, at + 8, 2) % 2 == 0 && Num(file, at + 34, 2) == 0
    && var nameBytes := Num(file, at + 28, 2);
    && 1 <= nameBytes <= MAX_NAME && Num(file, at + 32, 2) == 0
    && at + 46 + nameBytes + Num(file, at + 30, 2) <= g.end
  }

  /** The local header `e` points at repeats its name, flags and method and ends before `limit`. */
  predicate LocalMatches(file: seq<byte>, e: Entry, limit: nat) {
    && e.localAt + 30 + |e.name| <= limit <= |file|
    && HasSig(file, e.localAt, LOCAL_SIG)
    && Num(file, e.localAt + 26, 2) == |e.name|
    && e.localAt + 30 + |e.name| + Num(file, e.localAt + 28, 2) <= limit
    && Num(file, e.localAt + 8, 2) == e.compression
    && Num(file, e.localAt + 6, 2) == e.flags
    && file[e.localAt + 30..e.localAt + 30 + |e.name|] == e.name
  }

  /** The entry a central header at `at` describes, whatever it points at. */
  function CentralEntry(file: seq<byte>, g: Geometry, at: nat): Option<Entry> {
    if !HeaderOk(file, g, at) || LocalOffset(file, at).None? then None
    else
      var name := file[at + 46..at + 46 + Num(file, at + 28, 2)];
      if !Allowed(name) then None
      else Some(Entry(at, name, Num(file, at + 8, 2), Num(file, at + 10, 2),
                      Num(file, at + 30, 2), LocalOffset(file, at).value))
  }

  /** The valid entry at `at`, if there is one. */
  function EntryAt(file: seq<byte>, g: Geometry, at: nat): Option<Entry> {
    var e := CentralEntry(file, g, at);
    if e.Some? && e.value.compression in {0, 8} && LocalMatches(file, e.value, g.offset) then e else None
  }

  method IsLocal(file: seq<byte>, e: Entry, limit: nat) returns (ok: bool)
    requires limit <= |file|
    ensures ok <==> LocalMatches(file, e, limit)
  {
    if e.localAt >= limit || e.localAt + 30 > |file| {
      ok := false;
    } else {
      var nameBytes, extraBytes := Num(file, e.localAt + 26, 2), Num(file, e.localAt + 28, 2);
      ok := HasSig(file, e.localAt, LOCAL_SIG) && nameBytes == |e.name|
            && e.localAt + 30 + nameBytes + extraBytes <= limit
            && Num(file, e.localAt + 8, 2) == e.compression
            && Num(file, e.localAt + 6, 2) == e.flags
            && file[e.localAt + 30..e.localAt + 30 + nameBytes] == e.name;
    }
  }

  /** The local offset of an entry whose header is in bounds. */
  method ReadOffset(file: seq<byte>, at: nat) returns (r: Option<nat>)
    requires at + 46 <= |file| && at + 46 + Num(file, at + 28, 2) + Num(file, at + 30, 2) <= |file|
    ensures r == LocalOffset(file, at)
  {
    r := Some(Num(file, at + 42, 4));
    if r == Some(MAX32) {
      var extra := at + 46 + Num(file, at + 28, 2);
      var skip := (if Num(file, at + 24, 4) == MAX32 then 8 else 0) + (if Num(file, at + 20, 4) == MAX32 then 8 else 0);
      r := FindZip64Offset(file[extra..extra + Num(file, at + 30, 2)], skip);
    }
  }

  method ReadCentral(file: seq<byte>, g: Geometry, at: nat) returns (r: Option<Entry>)
    ensures r == CentralEntry(file, g, at)
  {
    if !HeaderOk(file, g, at) {
      return None;
    }
    var nameBytes, extraBytes := Num(file, at + 28, 2), Num(file, at + 30, 2);
    var name := file[at + 46..at + 46 + nameBytes];
    if !Allowed(name) {
      return None;
    }
    var localAt := ReadOffset(file, at);
    r := if localAt.None? then None
         else Some(Entry(at, name, Num(file, at + 8, 2), Num(file, at + 10, 2), extraBytes, localAt.value));
  }

  /** `read` finds the entries of `file`; a proof asks for one place at a time. */
  ghost predicate Reads(read: nat -> Option<Entry>, file: seq<byte>, g: Geometry) {
    forall at: nat {:trigger Asked(at)} :: Asked(at) ==> read(at) == EntryAt(file, g, at)
  }

  predicate Asked(at: nat) { true }

  method ReadEntry(file: seq<byte>, g: Geometry, at: nat, ghost read: nat -> Option<Entry>) returns (r: Option<Entry>)
    requires g.offset <= g.end <= |file| && Reads(read, file, g)
    ensures r == read(at)
  {
    r := ReadCentral(file, g, at);
    if r.Some? {
      var local := IsLocal(file, r.value, g.offset);
      if !local || r.value.compression !in {0, 8} {
        r := None;
      }
    }
    assert Asked(at);
  }

  // ---- The whole directory ----------------------------------------------

  /** Entries that follow one another without gaps, from `at` up to `end`. */
  predicate Tiles(es: seq<Entry>, at: nat, end: nat) {
    if es == [] then at == end
    else es[0].at == at && Tiles(es[1..], at + Extent(es[0]), end)
  }

  predicate AllRead(read: nat -> Option<Entry>, es: seq<Entry>) {
    forall i :: 0 <= i < |es| ==> read(es[i].at) == Some(es[i])
  }

  function NamesOf(es: seq<Entry>): set<Name> {
    if es == [] then {} else {es[0].name} + NamesOf(es[1..])
  }

  predicate Distinct(es: seq<Entry>) {
    es == [] || (es[0].name !in NamesOf(es[1..]) && Distinct(es[1..]))
  }

  lemma {:induction false} DistinctCount(es: seq<Entry>)
    requires Distinct(es)
    ensures |NamesOf(es)| == |es|
  {
    if es != [] {
      DistinctCount(es[1..]);
    }
  }

  function Reader(file: seq<byte>, g: Geometry): nat -> Option<Entry> {
    (at: nat) => EntryAt(file, g, at)
  }

  /** The names of `left` more entries from `cursor` on, which must end the directory at `end`. */
  function WalkFrom(read: nat -> Option<Entry>, cursor: nat, end: nat, names: set<Name>, left: nat): Option<set<Name>>
    decreases left
  {
    if left == 0 then if cursor == end then Some(names) else None
    else match read(cursor)
      case None => None
      case Some(e) =>
        if e.name in names then None
        else WalkFrom(read, cursor + Extent(e), end, names + {e.name}, left - 1)
  }

  function ZipNames(file: seq<byte>): Option<set<Name>> {
    match GeometryOf(file)
    case None => None
    case Some(g) => WalkFrom(Reader(file, g), g.offset, g.end, {}, g.count)
  }

  /** `es` are exactly the entries from `cursor` to `end`, with names distinct and not among `names`. */
  predicate Continues(read: nat -> Option<Entry>, cursor: nat, end: nat, names: set<Name>, es: seq<Entry>) {
    && Tiles(es, cursor, end)
    && AllRead(read, es)
    && Distinct(es)
    && NamesOf(es) !! names
  }

  /** A walk that succeeds read entries that tile the directory. */
  lemma {:induction false} WalkIsSound(read: nat -> Option<Entry>, cursor: nat, end: nat, names: set<Name>, left: nat)
    returns (es: seq<Entry>)
    requires forall at :: read(at).Some? ==> read(at).value.at == at
    requires WalkFrom(read, cursor, end, names, left).Some?
    ensures |es| == left && Continues(read, cursor, end, names, es)
    ensures WalkFrom(read, cursor, end, names, left).value == names + NamesOf(es)
    decreases left
  {
    if left == 0 {
      es := [];
    } else {
      var e := read(cursor).value;
      var rest := WalkIsSound(read, cursor + Extent(e), end, names + {e.name}, left - 1);
      es := [e] + rest;
      assert es[1..] == rest;
      forall i | 0 <= i < |es| ensures read(es[i].at) == Some(es[i]) {
        if i > 0 { assert es[i] == rest[i - 1]; }
      }
    }
  }

  /** Entries that tile the directory make the walk succeed with exactly their names. */
  lemma {:induction false} WalkIsComplete(read: nat -> Option<Entry>, cursor: nat, end: nat, names: set<Name>,
      es: seq<Entry>)
    requires Continues(read, cursor, end, names, es)
    ensures WalkFrom(read, cursor, end, names, |es|) == Some(names + NamesOf(es))
    decreases |es|
  {
    if es != [] {
      var e, rest := es[0], es[1..];
      assert es == [e] + rest;
      assert read(cursor) == Some(e);
      WalkIsComplete(read, cursor + Extent(e), end, names + {e.name}, rest);
      assert names + {e.name} + NamesOf(rest) == names + NamesOf(es);
    } else {
      assert names + NamesOf(es) == names;
    }
  }

  // ---- What acceptance means --------------------------------------------

  /** The local offset of an entry: its direct field, or what follows the clipped sizes in its one ZIP64 block. */
  ghost predicate OffsetDeclared(file: seq<byte>, e: Entry)
    requires e.at + Extent(e) <= |file|
  {
    if Num(file, e.at + 42, 4) != MAX32 then Num(file, e.at + 42, 4) == e.localAt
    else
      var extra := file[e.at + 46 + |e.name|..e.at + Extent(e)];
      exists p :: StartsBlock(extra, 0, p) && HoldsOffset(extra, p, SizesBefore(file, e.at), e.localAt)
                  && forall q :: StartsBlock(extra, 0, q) && Num(extra, q, 2) == 1 ==> q == p
  }

  /** Both headers of an entry are in bounds, agree, and keep to their side of the directory. */
  ghost predicate Consistent(file: seq<byte>, g: Geometry, e: Entry) {
    && g.offset <= e.at && e.at + Extent(e) <= g.end <= |file|
    && HasSig(file, e.at, CENTRAL_SIG)
    && Num(file, e.at + 8, 2) == e.flags && e.flags % 2 == 0
    && Num(file, e.at + 10, 2) == e.compression && e.compression in {0, 8}
    && file[e.at + 46..e.at + 46 + |e.name|] == e.name
    && 1 <= |e.name| <= MAX_NAME && Allowed(e.name)
    && LocalMatches(file, e, g.offset)
  }

  lemma OffsetIsDeclared(file: seq<byte>, g: Geometry, e: Entry)
    requires CentralEntry(file, g, e.at) == Some(e)
    ensures OffsetDeclared(file, e)
  {
    if Num(file, e.at + 42, 4) == MAX32 {
      var extra := file[e.at + 46 + |e.name|..e.at + Extent(e)];
      OffsetMeaning(extra, 0, SizesBefore(file, e.at), None, e.localAt);
    }
  }

  /** The fields an entry was read from. */
  lemma EntryFields(file: seq<byte>, g: Geometry, e: Entry)
    requires CentralEntry(file, g, e.at) == Some(e)
    ensures HeaderOk(file, g, e.at) && Num(file, e.at + 28, 2) == |e.name| && Num(file, e.at + 30, 2) == e.extraBytes
    ensures Num(file, e.at + 8, 2) == e.flags && Num(file, e.at + 10, 2) == e.compression
    ensures file[e.at + 46..e.at + 46 + |e.name|] == e.name && Allowed(e.name)
  {
  }

  lemma EntryIsConsistent(file: seq<byte>, g: Geometry, e: Entry)
    requires g.offset <= e.at && EntryAt(file, g, e.at) == Some(e)
    ensures Consistent(file, g, e)
  {
    EntryFields(file, g, e);
  }

  /** The bytes of the given entries, one after another. */
  function DirectoryBytes(file: seq<byte>, es: seq<Entry>): seq<byte> {
    if es == [] then []
    else (if es[0].at + Extent(es[0]) <= |file| then file[es[0].at..es[0].at + Extent(es[0])] else [])
         + DirectoryBytes(file, es[1..])
  }

  lemma {:induction false} TilesCover(file: seq<byte>, es: seq<Entry>, at: nat, end: nat)
    requires Tiles(es, at, end) && end <= |file|
    ensures at <= end
    ensures forall i :: 0 <= i < |es| ==> at <= es[i].at && es[i].at + Extent(es[i]) <= end
    ensures DirectoryBytes(file, es) == file[at..end]
  {
    if es != [] {
      var next := at + Extent(es[0]);
      TilesCover(file, es[1..], next, end);
      forall i | 0 <= i < |es| ensures at <= es[i].at && es[i].at + Extent(es[i]) <= end {
        if i > 0 { assert es[i] == es[1..][i - 1]; }
      }
      assert file[at..end] == file[at..next] + file[next..end];
    }
  }

  /**
   * An accepted file: its entries tile exactly the bytes between directory offset and end, there are as
   * many distinct names as declared, and every entry agrees with its local header before the directory.
   */
  lemma AcceptedIsConsistent(file: seq<byte>) returns (g: Geometry, es: seq<Entry>)
    requires ZipNames(file).Some?
    ensures GeometryOf(file) == Some(g) && g.end <= |file| && 1 <= g.count <= MAX_ENTRIES
    ensures |es| == g.count == |ZipNames(file).value| && ZipNames(file).value == NamesOf(es)
    ensures Tiles(es, g.offset, g.end)
    ensures forall i :: 0 <= i < |es| ==> Consistent(file, g, es[i]) && OffsetDeclared(file, es[i])
    ensures DirectoryBytes(file, es) == file[g.offset..g.end]
  {
    g := GeometryOf(file).value;
    es := WalkIsSound(Reader(file, g), g.offset, g.end, {}, g.count);
    DistinctCount(es);
    assert {} + NamesOf(es) == NamesOf(es);
    TilesCover(file, es, g.offset, g.end);
    forall i | 0 <= i < |es| ensures Consistent(file, g, es[i]) && OffsetDeclared(file, es[i]) {
      EntryIsConsistent(file, g, es[i]);
      OffsetIsDeclared(file, g, es[i]);
    }
  }

  lemma {:induction false} EntriesAccept(file: seq<byte>, g: Geometry, es: seq<Entry>)
    requires GeometryOf(file) == Some(g) && |es| == g.count && Continues(Reader(file, g), g.offset, g.end, {}, es)
    ensures ZipNames(file) == Some(NamesOf(es))
  {
    WalkIsComplete(Reader(file, g), g.offset, g.end, {}, es);
    assert {} + NamesOf(es) == NamesOf(es);
  }

  /** Acceptance with `names` is the same as having a directory of exactly those names. */
  lemma AcceptedIff(file: seq<byte>, names: set<Name>)
    ensures ZipNames(file) == Some(names) <==>
            exists g, es :: GeometryOf(file) == Some(g) && |es| == g.count && names == NamesOf(es)
                            && Continues(Reader(file, g), g.offset, g.end, {}, es)
  {
    if ZipNames(file) == Some(names) {
      var g := GeometryOf(file).value;
      var es := WalkIsSound(Reader(file, g), g.offset, g.end, {}, g.count);
      assert names == NamesOf(es);
    }
    forall g, es | GeometryOf(file) == Some(g) && |es| == g.count && names == NamesOf(es)
                   && Continues(Reader(file, g), g.offset, g.end, {}, es)
      ensures ZipNames(file) == Some(names)
    {
      EntriesAccept(file, g, es);
    }
  }

  // ---- The reader -------------------------------------------------------

  /** The end record's checks. */
  method ReadEnd(file: seq<byte>) returns (ok: bool)
    ensures ok <==> SimpleEnd(file)
  {
    if |file| < 22 || !HasSig(file, 0, LOCAL_SIG) {
      ok := false;
    } else {
      var at := |file| - 22;
      ok := HasSig(file, at, END_SIG) && Num(file, at + 20, 2) == 0 && Num(file, at + 4, 2) == 0
            && Num(file, at + 6, 2) == 0 && Num(file, at + 8, 2) == Num(file, at + 10, 2);
    }
  }

  /** The checks of a ZIP64 locator and record; `rec` is where the record stands. */
  method ReadZip64End(file: seq<byte>) returns (ok: bool, rec: nat)
    ensures ok <==> Zip64End(file)
    ensures ok ==> rec == |file| - 98
  {
    ok, rec := false, 0;
    if |file| >= 42 {
      var loc := |file| - 42;
      rec := Num(file, loc + 8, 8);
      ok := HasSig(file, loc, LOCATOR_SIG) && Num(file, loc + 4, 4) == 0 && Num(file, loc + 16, 4) == 1
            && rec + 56 <= |file| && HasSig(file, rec, END64_SIG) && Num(file, rec + 4, 8) == 44 && rec + 56 == loc
            && Num(file, rec + 16, 4) == 0 && Num(file, rec + 20, 4) == 0
            && Num(file, rec + 24, 8) == Num(file, rec + 32, 8);
    }
  }

  method ReadGeometry(file: seq<byte>) returns (r: Option<Geometry>)
    ensures r == GeometryOf(file)
  {
    var simple := ReadEnd(file);
    if !simple {
      return None;
    }
    var end := |file| - 22;
    var count, size, offset := Num(file, end + 10, 2), Num(file, end + 12, 4), Num(file, end + 16, 4);
    if count == MAX16 || size == MAX32 || offset == MAX32 {
      var ok, rec := ReadZip64End(file);
      if !ok {
        return None;
      }
      count, size, offset, end := Num(file, rec + 32, 8), Num(file, rec + 40, 8), Num(file, rec + 48, 8), rec;
    }
    if !(1 <= count <= MAX_ENTRIES) || size > MAX_DIRECTORY || offset > end || size != end - offset {
      return None;
    }
    return Some(Geometry(count, offset, end));
  }

  method ReadDirectory(file: seq<byte>, g: Geometry, ghost read: nat -> Option<Entry>) returns (r: Option<set<Name>>)
    requires g.offset <= g.end <= |file| && Reads(read, file, g)
    ensures r == WalkFrom(read, g.offset, g.end, {}, g.count)
  {
    var names: set<Name>, cursor: nat, i := {}, g.offset, 0;
    while i < g.count
      invariant i <= g.count
      invariant WalkFrom(read, cursor, g.end, names, g.count - i) == WalkFrom(read, g.offset, g.end, {}, g.count)
      decreases g.count - i
    {
      var entry := ReadEntry(file, g, cursor, read);
      if entry.None? || entry.value.name in names {
        return None;
      }
      names := names + {entry.value.name};
      cursor := cursor + Extent(entry.value);
      i := i + 1;
    }
    r := if cursor == g.end then Some(names) else None;
  }

  /** Reads the names of a package, or refuses it. */
  method RawZipNames(file: seq<byte>) returns (r: Option<set<Name>>)
    ensures r == ZipNames(file)
  {
    var geometry := ReadGeometry(file);
    if geometry.None? {
      r := None;
    } else {
      r := ReadDirectory(file, geometry.value, Reader(file, geometry.value));
    }
  }
}
