/** The walk over local headers that finds the stored payload of an update (UpdateService.java). */
module PayloadOffset {
  import opened Wrappers
  import opened Bits
  import opened Bytes
  import ZipReader
  import opened ZipWriter

  const PAYLOAD: seq<byte> := [0x70, 0x61, 0x79, 0x6c, 0x6f, 0x61, 0x64, 0x2e, 0x62, 0x69, 0x6e]
  const MAX_EXTRA := 4096

  /** The fixed header at `p` begins a record whose flags and lengths are supported. */
  predicate Supported(file: seq<byte>, p: nat)
    requires p + 30 <= |file|
  {
    var flags := Num(file, p + 6, 2);
    && Num(file, p + 26, 2) <= ZipReader.MAX_NAME && Num(file, p + 28, 2) <= MAX_EXTRA
    && flags % 2 == 0 && flags / 8 % 2 == 0
    && p + 30 + Num(file, p + 26, 2) <= |file|
  }

  /** Where the stored bytes of the record at `p` begin. */
  function DataStart(file: seq<byte>, p: nat): (start: nat)
    requires p + 30 <= |file|
    ensures start >= p + 30
  {
    p + 30 + Num(file, p + 26, 2) + Num(file, p + 28, 2)
  }

  /** The first payload record from `p` on; None where the service throws. */
  function Locate(file: seq<byte>, size: nat, p: nat): Option<nat>
    decreases |file| - p
  {
    if p + 30 >= |file| || !ZipReader.HasSig(file, p, ZipReader.LOCAL_SIG) || !Supported(file, p) then None
    else
      var start, stored := DataStart(file, p), Num(file, p + 18, 4);
      if file[p + 30..p + 30 + Num(file, p + 26, 2)] == PAYLOAD then
        if stored == size && Num(file, p + 8, 2) == 0 && start + size <= |file| then Some(start) else None
      else Locate(file, size, start + stored)
  }

  lemma {:induction false} ByteShift(i: nat)
    ensures Power256(i) == Pow2(8 * i)
  {
    if i > 0 {
      ByteShift(i - 1);
      NextByte(8 * (i - 1));
    }
  }

  /** The next byte, shifted above the ones so far, joins them to the longer number. */
  lemma OrExtends(b: seq<byte>, p: nat, i: nat, v: nat, next: nat)
    requires p + i < |b| && v == LittleEndian(b, p, p + i) && next == b[p + i]
    ensures Or(v, next * Pow2(8 * i)) == LittleEndian(b, p, p + i + 1)
  {
    LittleEndianAppend(b, p, p + i);
    LittleEndianBound(b, p, p + i);
    ByteShift(i);
    OrShifted(v, next, 8 * i);
  }

  /** le: bytes shifted and joined by or; seven of them always fit a long. */
  method LittleEndianValue(b: seq<byte>, p: nat, n: nat) returns (v: nat)
    requires p + n <= |b| && n <= 7
    ensures v == Num(b, p, n)
  {
    v := 0;
    for i := 0 to n
      invariant v == LittleEndian(b, p, p + i)
    {
      var next: nat := b[p + i];
      OrExtends(b, p, i, v, next);
      v := Or(v, next * Pow2(8 * i));
    }
  }

  /** One turn of the walk: its result, or the next header's position. */
  method ReadRecord(file: seq<byte>, size: nat, p: nat) returns (done: bool, r: Option<nat>, next: nat)
    requires p + 30 < |file|
    ensures done ==> Locate(file, size, p) == r
    ensures !done ==> next > p && Locate(file, size, p) == Locate(file, size, next)
  {
    done, r, next := true, None, p;
    if ZipReader.HasSig(file, p, ZipReader.LOCAL_SIG) {
      var stored := LittleEndianValue(file, p + 18, 4);
      var nameBytes := LittleEndianValue(file, p + 26, 2);
      var extraBytes := LittleEndianValue(file, p + 28, 2);
      var flags := LittleEndianValue(file, p + 6, 2);
      if nameBytes <= ZipReader.MAX_NAME && extraBytes <= MAX_EXTRA && flags % 2 == 0 && flags / 8 % 2 == 0
         && p + 30 + nameBytes <= |file| {
        var start := p + 30 + nameBytes + extraBytes;
        if file[p + 30..p + 30 + nameBytes] == PAYLOAD {
          var compression := LittleEndianValue(file, p + 8, 2);
          r := if stored == size && compression == 0 && start + size <= |file| then Some(start) else None;
        } else {
          done, next := false, start + stored;
        }
      }
    }
  }

  method FindPayload(file: seq<byte>, size: nat) returns (r: Option<nat>)
    ensures r == Locate(file, size, 0)
  {
    var p, done := 0, false;
    r := None;
    while !done && p + 30 < |file|
      invariant if done then r == Locate(file, size, 0) else r == None && Locate(file, size, p) == Locate(file, size, 0)
      decreases !done, |file| - p
    {
      done, r, p := ReadRecord(file, size, p);
      if !done {
        r := None;
      }
    }
  }

  // ---- Contiguous records -----------------------------------------------

  /** A local header the walk admits: no encryption, no trailing descriptor, short name and extra field. */
  predicate Admitted(m: Member) {
    && m.flags % 2 == 0 && m.flags / 8 % 2 == 0
    && |m.name| <= 128 && |m.localExtra| <= 4096
  }

  lemma PayloadIsText()
    ensures PAYLOAD == Ascii("payload.bin")
  {
  }

  predicate AllEncodable(ms: seq<Member>) {
    ms == [] || (Encodable(ms[0]) && AllEncodable(ms[1..]))
  }

  /** The local header gives the stored length itself, rather than a sentinel or anything else. */
  predicate SizeIsDirect(m: Member) { m.localStored == |m.data| }

  function StartOf(m: Member, at: nat): nat { at + 30 + |m.name| + |m.localExtra| }

  /**
   * The walk in terms of the records: where a record's size field is not its stored length the walk goes on
   * at some other place of the file, which `beyond` gives.
   */
  function Walk(ms: seq<Member>, at: nat, size: nat, length: nat, beyond: nat -> Option<nat>): Option<nat>
    decreases |ms|
  {
    if ms == [] then beyond(at)
    else if !Admitted(ms[0]) then None
    else
      var start := StartOf(ms[0], at);
      if ms[0].name == PAYLOAD then
        if ms[0].localStored == size && ms[0].compression == 0 && start + size <= length then Some(start) else None
      else if SizeIsDirect(ms[0]) then Walk(ms[1..], start + |ms[0].data|, size, length, beyond)
      else beyond(start + ms[0].localStored)
  }

  lemma StepFields(file: seq<byte>, p: nat, m: Member)
    requires Encodable(m) && StandsAt(file, p, Flatten(LocalHeader(m)))
    ensures p + LocalLength(m) <= |file| && ZipReader.HasSig(file, p, ZipReader.LOCAL_SIG)
    ensures Supported(file, p) <==> Admitted(m)
    ensures DataStart(file, p) == StartOf(m, p) && Num(file, p + 18, 4) == m.localStored
    ensures Num(file, p + 8, 2) == m.compression && Num(file, p + 26, 2) == |m.name|
    ensures file[p + 30..p + 30 + |m.name|] == m.name
  {
    LocalFields(file, p, m);
  }

  /** `find` is the walk over `file`; a proof asks for one position at a time. */
  ghost predicate Finds(find: nat -> Option<nat>, file: seq<byte>, size: nat) {
    forall p: nat {:trigger ZipReader.Asked(p)} :: ZipReader.Asked(p) ==> find(p) == Locate(file, size, p)
  }

  /** The walk looks no further within 30 bytes of the end. */
  lemma NearEnd(find: nat -> Option<nat>, file: seq<byte>, p: nat, size: nat)
    requires Finds(find, file, size) && p + 30 >= |file|
    ensures find(p) == None
  {
    assert ZipReader.Asked(p);
  }

  /** One record of the walk. */
  lemma LocateStep(find: nat -> Option<nat>, file: seq<byte>, p: nat, m: Member, size: nat)
    requires Finds(find, file, size)
    requires Encodable(m) && StandsAt(file, p, Flatten(LocalHeader(m))) && p + 30 < |file|
    ensures find(p) ==
            if !Admitted(m) then None
            else if m.name != PAYLOAD then find(StartOf(m, p) + m.localStored)
            else if m.localStored == size && m.compression == 0 && StartOf(m, p) + size <= |file| then
              Some(StartOf(m, p))
            else None
  {
    StepFields(file, p, m);
    assert ZipReader.Asked(p) && ZipReader.Asked(StartOf(m, p) + m.localStored);
  }

  /** For records of every kind, the walk is the walk over the records. */
  lemma {:induction false} WalkIsByRecords(
      lay: Layout, find: nat -> Option<nat>, file: seq<byte>, ms: seq<Member>, p: nat, size: nat)
    requires AllEncodable(ms) && IsStandard(lay) && Finds(find, file, size) && StandsAt(file, p, Locals(lay, ms))
    ensures find(p) == Walk(ms, p, size, |file|, find)
    decreases |ms|
  {
    if ms != [] {
      var m := ms[0];
      LocalsHead(lay, file, ms, p);
      WalkIsByRecords(lay, find, file, ms[1..], p + LocalLength(m), size);
      if p + 30 < |file| {
        LocateStep(find, file, p, m, size);
      } else {
        NearEnd(find, file, p, size);
        NearEnd(find, file, StartOf(m, p) + m.localStored, size);
        assert m.name != PAYLOAD by { assert |PAYLOAD| == 11; }
      }
    }
  }

  // ---- What is found ----------------------------------------------------

  /** The first member called payload.bin. */
  function FirstPayload(ms: seq<Member>): (k: Option<nat>)
    ensures k.Some? ==> k.value < |ms| && ms[k.value].name == PAYLOAD
    ensures k.None? ==> forall m :: m in ms ==> m.name != PAYLOAD
  {
    if ms == [] then None
    else if ms[0].name == PAYLOAD then Some(0)
    else match FirstPayload(ms[1..])
      case None => None
      case Some(k) => Some(k + 1)
  }

  /** Where the data of member `k` begins when the records start at `at`. */
  function DataAt(ms: seq<Member>, at: nat, k: nat): nat
    requires k < |ms|
  {
    if k == 0 then StartOf(ms[0], at) else DataAt(ms[1..], at + LocalLength(ms[0]), k - 1)
  }

  /** The walk comes to record `k`: those before it are admitted and give their stored lengths. */
  predicate Reached(ms: seq<Member>, k: nat)
    requires k < |ms|
  {
    k == 0 || (Admitted(ms[0]) && SizeIsDirect(ms[0]) && Reached(ms[1..], k - 1))
  }

  /**
   * Up to the first payload, a record that the walk would step over by a wrong length sends it past the end:
   * a sentinel does so in every file shorter than 4 GiB. No record starts where the members end.
   */
  predicate LeadsOut(ms: seq<Member>, at: nat, file: seq<byte>)
    decreases |ms|
  {
    if ms == [] then at + 30 < |file| ==> !ZipReader.HasSig(file, at, ZipReader.LOCAL_SIG)
    else if !Admitted(ms[0]) || ms[0].name == PAYLOAD then true
    else if SizeIsDirect(ms[0]) then LeadsOut(ms[1..], at + LocalLength(ms[0]), file)
    else StartOf(ms[0], at) + ms[0].localStored + 30 >= |file|
  }

  /** The record of the payload is as the walk wants it. */
  predicate Fits(m: Member, start: nat, size: nat, length: nat) {
    Admitted(m) && m.compression == 0 && m.localStored == size && start + size <= length
  }

  lemma LocateStops(find: nat -> Option<nat>, file: seq<byte>, p: nat, size: nat)
    requires Finds(find, file, size) && (p + 30 < |file| ==> !ZipReader.HasSig(file, p, ZipReader.LOCAL_SIG))
    ensures find(p) == None
  {
    assert ZipReader.Asked(p);
  }

  /** A payload that is reached and fits is found, wherever wrong lengths behind it lead. */
  lemma {:induction false} ReachedIsFound(ms: seq<Member>, at: nat, size: nat, length: nat,
      beyond: nat -> Option<nat>, k: nat)
    requires FirstPayload(ms) == Some(k) && Reached(ms, k)
    ensures Walk(ms, at, size, length, beyond) ==
            if Fits(ms[k], DataAt(ms, at, k), size, length) then Some(DataAt(ms, at, k)) else None
    decreases |ms|
  {
    if k > 0 {
      ReachedIsFound(ms[1..], at + LocalLength(ms[0]), size, length, beyond, k - 1);
    }
  }

  /** Where the payload is not reached nothing is found, unless a wrong length leads back into the file. */
  lemma {:induction false} UnreachedIsMissed(
      find: nat -> Option<nat>, file: seq<byte>, ms: seq<Member>, at: nat, size: nat)
    requires Finds(find, file, size) && LeadsOut(ms, at, file)
    requires var k := FirstPayload(ms); k.Some? ==> !Reached(ms, k.value)
    ensures Walk(ms, at, size, |file|, find) == None
    decreases |ms|
  {
    if ms == [] {
      LocateStops(find, file, at, size);
    } else if Admitted(ms[0]) && ms[0].name != PAYLOAD {
      if SizeIsDirect(ms[0]) {
        UnreachedIsMissed(find, file, ms[1..], at + LocalLength(ms[0]), size);
      } else {
        NearEnd(find, file, StartOf(ms[0], at) + ms[0].localStored, size);
      }
    }
  }

  lemma LocalsHead(lay: Layout, file: seq<byte>, ms: seq<Member>, p: nat)
    requires ms != [] && Encodable(ms[0]) && IsStandard(lay) && StandsAt(file, p, Locals(lay, ms))
    ensures StandsAt(file, p, Flatten(LocalHeader(ms[0])))
            && StandsAt(file, p + LocalLength(ms[0]), Locals(lay, ms[1..]))
  {
    RenderedLengths(lay, ms[0], 0);
    PiecesStand(file, p, lay.local(ms[0]), Locals(lay, ms[1..]));
  }

  /** The data of member `k` stands where DataAt says. */
  lemma {:induction false} DataStands(lay: Layout, file: seq<byte>, ms: seq<Member>, p: nat, k: nat)
    requires AllEncodable(ms) && IsStandard(lay) && StandsAt(file, p, Locals(lay, ms)) && k < |ms|
    ensures Encodable(ms[k]) && StandsAt(file, DataAt(ms, p, k), ms[k].data)
    decreases k
  {
    LocalsHead(lay, file, ms, p);
    if k == 0 {
      LocalFields(file, p, ms[0]);
    } else {
      DataStands(lay, file, ms[1..], p + LocalLength(ms[0]), k - 1);
    }
  }

  /**
   * For contiguous records of any kind, with any data, signatures included: the walk succeeds exactly when a
   * payload is present, the first one is reached, admitted and stored, and its local header itself gives the
   * declared size. What it gives is where that member's data begins, and the range is the data.
   */
  lemma OffsetIsExact(ms: seq<Member>, tail: seq<byte>, size: nat)
    requires AllEncodable(ms) && LeadsOut(ms, 0, Locals(Standard(), ms) + tail)
    ensures var file, k := Locals(Standard(), ms) + tail, FirstPayload(ms);
            var r := Locate(file, size, 0);
            && (r.Some? <==> k.Some? && Reached(ms, k.value) && Fits(ms[k.value], DataAt(ms, 0, k.value), size, |file|))
            && (r.Some? ==> r.value == DataAt(ms, 0, k.value) && r.value + size <= |file|)
            && (r.Some? && SizeIsDirect(ms[k.value]) ==> file[r.value..r.value + size] == ms[k.value].data)
  {
    var lay, file := Standard(), Locals(Standard(), ms) + tail;
    StandardIsStandard();
    assert StandsAt(file, 0, Locals(lay, ms));
    var find := (p: nat) => Locate(file, size, p);
    WalkIsByRecords(lay, find, file, ms, 0, size);
    var k := FirstPayload(ms);
    if k.Some? && Reached(ms, k.value) {
      ReachedIsFound(ms, 0, size, |file|, find, k.value);
      DataStands(lay, file, ms, 0, k.value);
    } else {
      UnreachedIsMissed(find, file, ms, 0, size);
    }
  }

  /** With the declared size the payload's own: it is found exactly when its local header gives that size directly. */
  lemma PayloadIsFoundIff(ms: seq<Member>, tail: seq<byte>, k: nat)
    requires AllEncodable(ms) && LeadsOut(ms, 0, Locals(Standard(), ms) + tail) && FirstPayload(ms) == Some(k)
    ensures Locate(Locals(Standard(), ms) + tail, |ms[k].data|, 0).Some? <==>
              Reached(ms, k) && Admitted(ms[k]) && ms[k].compression == 0 && SizeIsDirect(ms[k])
  {
    var file := Locals(Standard(), ms) + tail;
    OffsetIsExact(ms, tail, |ms[k].data|);
    StandardIsStandard();
    assert StandsAt(file, 0, Locals(Standard(), ms));
    DataStands(Standard(), file, ms, 0, k);
  }

  /** With distinct names there is one payload: what was hashed through the directory is the range found. */
  lemma HashedIsApplied(ms: seq<Member>, tail: seq<byte>, hashed: Member)
    requires AllEncodable(ms) && LeadsOut(ms, 0, Locals(Standard(), ms) + tail)
    requires hashed in ms && hashed.name == PAYLOAD && forall m :: m in ms && m.name == PAYLOAD ==> m == hashed
    ensures var file, size := Locals(Standard(), ms) + tail, |hashed.data|;
            var r := Locate(file, size, 0);
            r.Some? ==> r.value + size <= |file| && file[r.value..r.value + size] == hashed.data
  {
    OffsetIsExact(ms, tail, |hashed.data|);
    var k := FirstPayload(ms).value;
    assert ms[k] in ms;
  }

  /** Local size fields are direct, or the sentinel that sends their reader to the ZIP64 extra field. */
  predicate SizesConform(ms: seq<Member>) {
    ms == [] || ((SizeIsDirect(ms[0]) || ms[0].localStored == ZipReader.MAX32) && SizesConform(ms[1..]))
  }

  /** In files shorter than 4 GiB conforming records lead out. */
  lemma {:induction false} SmallFilesLeadOut(ms: seq<Member>, at: nat, file: seq<byte>)
    requires SizesConform(ms) && |file| <= ZipReader.MAX32
    requires forall p :: p + 30 < |file| && p == at + LengthOf(ms) ==> !ZipReader.HasSig(file, p, ZipReader.LOCAL_SIG)
    ensures LeadsOut(ms, at, file)
    decreases |ms|
  {
    if ms != [] && Admitted(ms[0]) && ms[0].name != PAYLOAD && SizeIsDirect(ms[0]) {
      SmallFilesLeadOut(ms[1..], at + LocalLength(ms[0]), file);
    }
  }

  function LengthOf(ms: seq<Member>): nat {
    if ms == [] then 0 else LocalLength(ms[0]) + LengthOf(ms[1..])
  }

  /** A payload behind a sentinel is never found, whatever its size and whatever follows it. */
  lemma SentinelIsMissed(ms: seq<Member>, tail: seq<byte>)
    requires AllEncodable(ms) && ms != [] && ms[0].name == PAYLOAD
    requires ms[0].localStored == ZipReader.MAX32 != |ms[0].data|
    ensures Locate(Locals(Standard(), ms) + tail, |ms[0].data|, 0) == None
  {
    PayloadIsFoundIff(ms, tail, 0);
  }

  /** The library puts the sentinel into a local header from this size on, leaving room for growth by 5 percent. */
  predicate LibrarySentinel(size: nat) { size * 105 > LIBRARY_LIMIT * 100 }

  /**
   * An update as the packaging script writes it, payload first and stored: the payload is found exactly below
   * 2,045,222,521 bytes (or when its size is the sentinel's own value).
   */
  lemma PackagedPayloadIff(ms: seq<Member>, tail: seq<byte>)
    requires AllEncodable(ms) && ms != [] && ms[0].name == PAYLOAD && Admitted(ms[0]) && ms[0].compression == 0
    requires ms[0].localStored == if LibrarySentinel(|ms[0].data|) then ZipReader.MAX32 else |ms[0].data|
    ensures Locate(Locals(Standard(), ms) + tail, |ms[0].data|, 0).Some? <==>
              |ms[0].data| < 2_045_222_521 || |ms[0].data| == ZipReader.MAX32
  {
    PayloadIsFoundIff(ms, tail, 0);
  }

  /** A payload of 4 GiB or more is never found, although packages of up to 8 GiB are admitted. */
  lemma {:induction false} LargePayloadFails(file: seq<byte>, size: nat, p: nat)
    requires size > ZipReader.MAX32
    ensures Locate(file, size, p) == None
    decreases |file| - p
  {
    if p + 30 < |file| {
      LittleEndianBound(file, p + 18, p + 22);
      Widths();
      LargePayloadFails(file, size, DataStart(file, p) + Num(file, p + 18, 4));
    }
  }

  lemma StepsInside(find: nat -> Option<nat>, file: seq<byte>, m: Member, inner: Member, rest: seq<byte>)
    requires Finds(find, file, |inner.data|) && Encodable(m) && Admitted(m) && m.name != PAYLOAD && m.localStored == 0
    requires Encodable(inner) && Admitted(inner) && inner.name == PAYLOAD && inner.compression == 0
    requires SizeIsDirect(inner)
    requires StandsAt(file, 0, Flatten(LocalHeader(m))) && m.data == Flatten(LocalHeader(inner)) + rest
    ensures find(0) == Some(StartOf(inner, StartOf(m, 0)))
  {
    LocalFields(file, 0, m);
    PiecesStand(file, StartOf(m, 0), Flatten(LocalHeader(inner)), rest);
    LocalFields(file, StartOf(m, 0), inner);
    assert |PAYLOAD| == 11;
    LocateStep(find, file, 0, m, |inner.data|);
    LocateStep(find, file, StartOf(m, 0), inner, |inner.data|);
  }

  /** A record that gives a wrong length can lead the walk into its own data. */
  lemma WrongLengthMisleads(m: Member, inner: Member, rest: seq<byte>, tail: seq<byte>)
    requires Encodable(m) && Admitted(m) && m.name != PAYLOAD && m.localStored == 0
    requires Encodable(inner) && Admitted(inner) && inner.name == PAYLOAD && inner.compression == 0
    requires SizeIsDirect(inner)
    requires m.data == Flatten(LocalHeader(inner)) + rest
    ensures Locate(Locals(Standard(), [m]) + tail, |inner.data|, 0) == Some(StartOf(inner, StartOf(m, 0)))
    ensures FirstPayload([m]) == None
  {
    var file := Locals(Standard(), [m]) + tail;
    StandardIsStandard();
    assert StandsAt(file, 0, Locals(Standard(), [m]));
    LocalsHead(Standard(), file, [m], 0);
    StepsInside((p: nat) => Locate(file, |inner.data|, p), file, m, inner, rest);
  }
}
