/** The strict reader accepts exactly what a writer of the format writes: every header read is a header written. */
module ZipExact {
  import opened Wrappers
  import opened Bytes
  import opened ZipReader
  import opened ZipWriter

  lemma NumIff(file: seq<byte>, pos: nat, n: nat, width: nat)
    requires pos + width <= |file| && n < Power256(width)
    ensures StandsAt(file, pos, LeBytes(n, width)) <==> Num(file, pos, width) == n
  {
    BytesOfLittleEndian(file, pos, pos + width);
    if StandsAt(file, pos, LeBytes(n, width)) {
      NumStands(file, pos, n, width);
    }
  }

  lemma SigIff(file: seq<byte>, pos: nat, sig: seq<byte>)
    requires |sig| == 4 && pos + 4 <= |file|
    ensures StandsAt(file, pos, sig) <==> HasSig(file, pos, sig)
  {
    assert file[pos..pos + 4] == [file[pos], file[pos + 1], file[pos + 2], file[pos + 3]];
    assert sig == [sig[0], sig[1], sig[2], sig[3]];
  }

  lemma JoinStands(file: seq<byte>, pos: nat, a: seq<byte>, b: seq<byte>)
    requires StandsAt(file, pos, a) && StandsAt(file, pos + |a|, b)
    ensures StandsAt(file, pos, a + b)
  {
    assert file[pos..pos + |a + b|] == file[pos..pos + |a|] + file[pos + |a|..pos + |a| + |b|];
  }

  /** A header stands exactly when its first field and the rest do. */
  lemma FirstIff(file: seq<byte>, pos: nat, first: seq<byte>, rest: seq<seq<byte>>)
    ensures StandsAt(file, pos, Flatten([first] + rest)) <==>
              StandsAt(file, pos, first) && StandsAt(file, pos + |first|, Flatten(rest))
  {
    assert ([first] + rest)[1..] == rest;
    if StandsAt(file, pos, Flatten([first] + rest)) {
      PiecesStand(file, pos, first, Flatten(rest));
    } else if StandsAt(file, pos, first) && StandsAt(file, pos + |first|, Flatten(rest)) {
      JoinStands(file, pos, first, Flatten(rest));
    }
  }

  lemma TwoIff(file: seq<byte>, pos: nat, a: seq<byte>, b: seq<byte>, rest: seq<seq<byte>>)
    ensures StandsAt(file, pos, Flatten([a, b] + rest)) <==>
              StandsAt(file, pos, a) && StandsAt(file, pos + |a|, b) && StandsAt(file, pos + |a| + |b|, Flatten(rest))
  {
    FirstIff(file, pos, a, [b] + rest);
    FirstIff(file, pos + |a|, b, rest);
    assert [a, b] + rest == [a] + ([b] + rest);
  }

  lemma FourIff(file: seq<byte>, pos: nat, a: seq<byte>, b: seq<byte>, c: seq<byte>, d: seq<byte>,
      rest: seq<seq<byte>>)
    ensures StandsAt(file, pos, Flatten([a, b, c, d] + rest)) <==>
              && StandsAt(file, pos, a) && StandsAt(file, pos + |a|, b) && StandsAt(file, pos + |a| + |b|, c)
              && StandsAt(file, pos + |a| + |b| + |c|, d)
              && StandsAt(file, pos + |a| + |b| + |c| + |d|, Flatten(rest))
  {
    var more := [c, d] + rest;
    assert [a, b, c, d] + rest == [a, b] + more;
    TwoIff(file, pos, a, b, more);
    TwoIff(file, pos + |a| + |b|, c, d, rest);
  }

  /** An end record stands exactly where its fields do... */
  lemma EndPlaces(file: seq<byte>, pos: nat, count: nat, size: nat, offset: nat, h: seq<seq<byte>>)
    requires pos + 22 <= |file| && h == EndRecord(count, size, offset)
    ensures StandsAt(file, pos, Flatten(h)) <==>
              && StandsAt(file, pos, h[0]) && StandsAt(file, pos + 4, h[1]) && StandsAt(file, pos + 6, h[2])
              && StandsAt(file, pos + 8, h[3]) && StandsAt(file, pos + 10, h[4]) && StandsAt(file, pos + 12, h[5])
              && StandsAt(file, pos + 16, h[6]) && StandsAt(file, pos + 20, h[7])
  {
    FourIff(file, pos, h[0], h[1], h[2], h[3], [h[4], h[5], h[6], h[7]]);
    FourIff(file, pos + 10, h[4], h[5], h[6], h[7], []);
    assert h == [h[0], h[1], h[2], h[3]] + [h[4], h[5], h[6], h[7]];
    assert [h[4], h[5], h[6], h[7]] == [h[4], h[5], h[6], h[7]] + [];
  }

  /** ... which is where the reader finds them. */
  lemma EndIff(file: seq<byte>, pos: nat, count: nat, size: nat, offset: nat, zero: nat)
    requires pos + 22 <= |file| && count <= MAX16 && size <= MAX32 && offset <= MAX32 && zero == 0
    ensures StandsAt(file, pos, Flatten(EndRecord(count, size, offset))) <==>
              && HasSig(file, pos, END_SIG) && Num(file, pos + 4, 2) == 0 && Num(file, pos + 6, 2) == 0
              && Num(file, pos + 8, 2) == count && Num(file, pos + 10, 2) == count
              && Num(file, pos + 12, 4) == size && Num(file, pos + 16, 4) == offset && Num(file, pos + 20, 2) == 0
  {
    Widths();
    EndPlaces(file, pos, count, size, offset, EndRecord(count, size, offset));
    SigIff(file, pos, END_SIG);
    NumIff(file, pos + 4, zero, 2);
    NumIff(file, pos + 6, zero, 2);
    NumIff(file, pos + 8, count, 2);
    NumIff(file, pos + 10, count, 2);
    NumIff(file, pos + 12, size, 4);
    NumIff(file, pos + 16, offset, 4);
    NumIff(file, pos + 20, zero, 2);
  }

  /** A ZIP64 end record; the versions of writer and reader are free. */
  function WideRecord(versions: seq<byte>, count: nat, size: nat, offset: nat): seq<seq<byte>> {
    [END64_SIG, LeBytes(44, 8), versions, LeBytes(0, 4), LeBytes(0, 4),
     LeBytes(count, 8), LeBytes(count, 8), LeBytes(size, 8), LeBytes(offset, 8)]
  }

  lemma {:induction false} WidePlaces(file: seq<byte>, pos: nat, versions: seq<byte>, count: nat, size: nat,
      offset: nat, h: seq<seq<byte>>)
    requires pos + 56 <= |file| && |versions| == 4 && h == WideRecord(versions, count, size, offset)
    ensures StandsAt(file, pos, Flatten(h)) <==>
              && StandsAt(file, pos, h[0]) && StandsAt(file, pos + 4, h[1]) && StandsAt(file, pos + 12, h[2])
              && StandsAt(file, pos + 16, h[3]) && StandsAt(file, pos + 20, h[4]) && StandsAt(file, pos + 24, h[5])
              && StandsAt(file, pos + 32, h[6]) && StandsAt(file, pos + 40, h[7]) && StandsAt(file, pos + 48, h[8])
  {
    FourIff(file, pos, h[0], h[1], h[2], h[3], [h[4], h[5], h[6], h[7], h[8]]);
    FourIff(file, pos + 20, h[4], h[5], h[6], h[7], [h[8]]);
    FlattenOne(h[8]);
    assert h == [h[0], h[1], h[2], h[3]] + [h[4], h[5], h[6], h[7], h[8]];
    assert [h[4], h[5], h[6], h[7], h[8]] == [h[4], h[5], h[6], h[7]] + [h[8]];
  }

  lemma WideIff(file: seq<byte>, pos: nat, versions: seq<byte>, count: nat, size: nat, offset: nat, zero: nat,
      rest: nat)
    requires pos + 56 <= |file| && |versions| == 4 && zero == 0 && rest == 44
    requires count < Power256(8) && size < Power256(8) && offset < Power256(8)
    ensures StandsAt(file, pos, Flatten(WideRecord(versions, count, size, offset))) <==>
              && HasSig(file, pos, END64_SIG) && Num(file, pos + 4, 8) == 44 && StandsAt(file, pos + 12, versions)
              && Num(file, pos + 16, 4) == 0 && Num(file, pos + 20, 4) == 0
              && Num(file, pos + 24, 8) == count && Num(file, pos + 32, 8) == count
              && Num(file, pos + 40, 8) == size && Num(file, pos + 48, 8) == offset
  {
    Widths();
    WidePlaces(file, pos, versions, count, size, offset, WideRecord(versions, count, size, offset));
    SigIff(file, pos, END64_SIG);
    NumIff(file, pos + 4, rest, 8);
    NumIff(file, pos + 16, zero, 4);
    NumIff(file, pos + 20, zero, 4);
    NumIff(file, pos + 24, count, 8);
    NumIff(file, pos + 32, count, 8);
    NumIff(file, pos + 40, size, 8);
    NumIff(file, pos + 48, offset, 8);
  }

  lemma LocatorIff(file: seq<byte>, pos: nat, recordAt: nat, zero: nat, one: nat)
    requires pos + 20 <= |file| && zero == 0 && one == 1 && recordAt < Power256(8)
    ensures StandsAt(file, pos, Flatten(Locator(recordAt))) <==>
              && HasSig(file, pos, LOCATOR_SIG) && Num(file, pos + 4, 4) == 0
              && Num(file, pos + 8, 8) == recordAt && Num(file, pos + 16, 4) == 1
  {
    var h := Locator(recordAt);
    Widths();
    FourIff(file, pos, h[0], h[1], h[2], h[3], []);
    assert h == [h[0], h[1], h[2], h[3]] + [];
    SigIff(file, pos, LOCATOR_SIG);
    NumIff(file, pos + 4, zero, 4);
    NumIff(file, pos + 8, recordAt, 8);
    NumIff(file, pos + 16, one, 4);
  }

  // ---- The end of the file ----------------------------------------------

  /** The file ends with an end record for a directory of `size` bytes that announces no ZIP64 record. */
  predicate EndsPlain(file: seq<byte>, g: Geometry) {
    && g.offset <= g.end && g.end + 22 == |file| && g.offset < MAX32
    && StandsAt(file, g.end, Flatten(EndRecord(g.count, g.end - g.offset, g.offset)))
  }

  /** The file ends with a ZIP64 record, its locator, and an end record that announces them by some sentinel. */
  predicate EndsWide(file: seq<byte>, g: Geometry, versions: seq<byte>, count: nat, size: nat, offset: nat) {
    && g.offset <= g.end && g.end + 98 == |file| && g.end < Power256(8) && |versions| == 4
    && StandsAt(file, g.end, Flatten(WideRecord(versions, g.count, g.end - g.offset, g.offset)))
    && StandsAt(file, g.end + 56, Flatten(Locator(g.end)))
    && StandsAt(file, g.end + 76, Flatten(EndRecord(count, size, offset)))
    && count <= MAX16 && size <= MAX32 && offset <= MAX32 && (count == MAX16 || size == MAX32 || offset == MAX32)
  }

  predicate Limited(g: Geometry) { 1 <= g.count <= 69 && g.offset <= g.end <= g.offset + 1024 * 1024 }

  lemma PlainIff(file: seq<byte>, g: Geometry)
    requires Limited(g) && |file| >= 22 && HasSig(file, 0, LOCAL_SIG)
    ensures EndsPlain(file, g) <==> SimpleEnd(file) && !NeedsZip64(file) && GeometryOf(file) == Some(g)
  {
    var at := |file| - 22;
    if g.end == at && g.offset < MAX32 {
      EndIff(file, at, g.count, g.end - g.offset, g.offset, 0);
    }
    NumBelow(file, at + 16, 4);
  }

  lemma NumBelow(file: seq<byte>, at: nat, width: nat)
    requires at + width <= |file|
    ensures Num(file, at, width) < Power256(width)
  {
    LittleEndianBound(file, at, at + width);
  }

  /** What the reader checks of such an end. */
  lemma WideChecks(file: seq<byte>, g: Geometry, versions: seq<byte>, count: nat, size: nat, offset: nat)
    requires Limited(g) && |file| >= 22 && HasSig(file, 0, LOCAL_SIG)
    requires EndsWide(file, g, versions, count, size, offset)
    ensures SimpleEnd(file) && NeedsZip64(file) && Zip64End(file)
    ensures Num(file, g.end + 32, 8) == g.count && Num(file, g.end + 40, 8) == g.end - g.offset
    ensures Num(file, g.end + 48, 8) == g.offset
  {
    Widths();
    EndIff(file, |file| - 22, count, size, offset, 0);
    WideIff(file, g.end, versions, g.count, g.end - g.offset, g.offset, 0, 44);
    LocatorIff(file, g.end + 56, g.end, 0, 1);
  }

  /** The end records of a file whose end record announces a ZIP64 record. */
  lemma WideGeometry(file: seq<byte>, g: Geometry, versions: seq<byte>, count: nat, size: nat, offset: nat)
    requires Limited(g) && |file| >= 22 && HasSig(file, 0, LOCAL_SIG)
    requires EndsWide(file, g, versions, count, size, offset)
    ensures GeometryOf(file) == Some(g)
  {
    WideChecks(file, g, versions, count, size, offset);
  }

  /** What the reader took from a ZIP64 record. */
  lemma WideFacts(file: seq<byte>, g: Geometry)
    requires GeometryOf(file) == Some(g) && NeedsZip64(file)
    ensures Limited(g) && |file| >= 98 && g.end == |file| - 98 && SimpleEnd(file) && Zip64End(file)
    ensures Num(file, g.end + 32, 8) == g.count && Num(file, g.end + 40, 8) == g.end - g.offset
    ensures Num(file, g.end + 48, 8) == g.offset
  {
  }

  lemma RecordIsWritten(file: seq<byte>, g: Geometry)
    requires Limited(g) && |file| >= 98 && g.end == |file| - 98 && Zip64End(file)
    requires Num(file, g.end + 32, 8) == g.count && Num(file, g.end + 40, 8) == g.end - g.offset
    requires Num(file, g.end + 48, 8) == g.offset
    ensures var versions := file[g.end + 12..g.end + 16];
            StandsAt(file, g.end, Flatten(WideRecord(versions, g.count, g.end - g.offset, g.offset)))
    ensures g.end < Power256(8) && StandsAt(file, g.end + 56, Flatten(Locator(g.end)))
  {
    Widths();
    NumBelow(file, |file| - 34, 8);
    NumBelow(file, g.end + 48, 8);
    assert StandsAt(file, g.end + 12, file[g.end + 12..g.end + 16]);
    WideIff(file, g.end, file[g.end + 12..g.end + 16], g.count, g.end - g.offset, g.offset, 0, 44);
    LocatorIff(file, g.end + 56, g.end, 0, 1);
  }

  /** What a file read through a ZIP64 record ends with. */
  lemma WideIsWritten(file: seq<byte>, g: Geometry)
    requires GeometryOf(file) == Some(g) && NeedsZip64(file)
    ensures Limited(g)
    ensures var at := |file| - 22;
            && |file| >= 98
            && EndsWide(file, g, file[g.end + 12..g.end + 16], Num(file, at + 10, 2), Num(file, at + 12, 4),
                        Num(file, at + 16, 4))
  {
    var at := |file| - 22;
    WideFacts(file, g);
    RecordIsWritten(file, g);
    Widths();
    NumBelow(file, at + 10, 2);
    NumBelow(file, at + 12, 4);
    NumBelow(file, at + 16, 4);
    EndIff(file, at, Num(file, at + 10, 2), Num(file, at + 12, 4), Num(file, at + 16, 4), 0);
  }

  /** A file's directory is found exactly where an end record, or a ZIP64 record and its announcement, put it. */
  lemma GeometryIff(file: seq<byte>, g: Geometry)
    ensures GeometryOf(file) == Some(g) <==>
              && Limited(g) && |file| >= 22 && file[..4] == Ascii("PK") + [3, 4]
              && (EndsPlain(file, g)
                  || exists versions, count: nat, size: nat, offset: nat ::
                       EndsWide(file, g, versions, count, size, offset))
  {
    assert LOCAL_SIG == Ascii("PK") + [3, 4];
    if |file| >= 22 {
      SigIff(file, 0, LOCAL_SIG);
      assert file[0..0 + 4] == file[..4];
      if Limited(g) && HasSig(file, 0, LOCAL_SIG) {
        PlainIff(file, g);
        forall versions, count: nat, size: nat, offset: nat | EndsWide(file, g, versions, count, size, offset)
          ensures GeometryOf(file) == Some(g)
        {
          WideGeometry(file, g, versions, count, size, offset);
        }
      }
      if GeometryOf(file) == Some(g) && NeedsZip64(file) {
        WideIsWritten(file, g);
      }
    }
  }

  // ---- Entries ----------------------------------------------------------

  /** The central header that a member has, for a local record at `at`, stands at `pos`. */
  predicate CentralStands(file: seq<byte>, pos: nat, m: Member, at: nat) {
    Encodable(m) && StandsAt(file, pos, Flatten(CentralHeader(m, at)))
  }

  /** Four fields stand one after the other. */
  predicate FourStand(file: seq<byte>, pos: nat, h: seq<seq<byte>>)
    requires |h| >= 4
  {
    && StandsAt(file, pos, h[0]) && StandsAt(file, pos + |h[0]|, h[1]) && StandsAt(file, pos + |h[0]| + |h[1]|, h[2])
    && StandsAt(file, pos + |h[0]| + |h[1]| + |h[2]|, h[3])
  }

  function FourLength(h: seq<seq<byte>>): nat
    requires |h| == 4
  {
    |h[0]| + |h[1]| + |h[2]| + |h[3]|
  }

  lemma FourAt(file: seq<byte>, pos: nat, h: seq<seq<byte>>, p: nat, q: nat, r: nat)
    requires |h| == 4 && p == pos + |h[0]| && q == p + |h[1]| && r == q + |h[2]|
    requires StandsAt(file, pos, h[0]) && StandsAt(file, p, h[1]) && StandsAt(file, q, h[2]) && StandsAt(file, r, h[3])
    ensures FourStand(file, pos, h)
  {
  }

  lemma FourFirst(file: seq<byte>, pos: nat, h: seq<seq<byte>>, rest: seq<seq<byte>>, next: nat)
    requires |h| == 4 && next == pos + FourLength(h)
    ensures StandsAt(file, pos, Flatten(h + rest)) <==> FourStand(file, pos, h) && StandsAt(file, next, Flatten(rest))
  {
    assert h == [h[0], h[1], h[2], h[3]];
    FourIff(file, pos, h[0], h[1], h[2], h[3], rest);
  }

  lemma ThreeLast(file: seq<byte>, pos: nat, h: seq<seq<byte>>)
    requires |h| == 3
    ensures StandsAt(file, pos, Flatten(h)) <==>
              && StandsAt(file, pos, h[0]) && StandsAt(file, pos + |h[0]|, h[1])
              && StandsAt(file, pos + |h[0]| + |h[1]|, h[2])
  {
    assert h == [h[0], h[1]] + [h[2]];
    TwoIff(file, pos, h[0], h[1], [h[2]]);
    FlattenOne(h[2]);
  }

  /** Twelve fields in fours and three last ones, where they start. */
  lemma FifteenPlaces(file: seq<byte>, pos: nat, a: seq<seq<byte>>, b: seq<seq<byte>>, c: seq<seq<byte>>,
      d: seq<seq<byte>>, p: nat, q: nat, r: nat)
    requires |a| == |b| == |c| == 4 && |d| == 3
    requires p == pos + FourLength(a) && q == p + FourLength(b) && r == q + FourLength(c)
    ensures StandsAt(file, pos, Flatten(a + (b + (c + d)))) <==>
              && FourStand(file, pos, a) && FourStand(file, p, b) && FourStand(file, q, c)
              && StandsAt(file, r, d[0]) && StandsAt(file, r + |d[0]|, d[1])
              && StandsAt(file, r + |d[0]| + |d[1]|, d[2])
  {
    FourFirst(file, pos, a, b + (c + d), p);
    FourFirst(file, p, b, c + d, q);
    FourFirst(file, q, c, d, r);
    ThreeLast(file, r, d);
  }

  /** The member a central header describes; what only its local record holds is left empty. */
  function MemberAt(file: seq<byte>, pos: nat, at: nat): Member
    requires pos + 46 <= |file| && pos + 46 + Num(file, pos + 28, 2) + Num(file, pos + 30, 2) <= |file|
  {
    var name, extra := Num(file, pos + 28, 2), Num(file, pos + 30, 2);
    Member(file[pos + 46..pos + 46 + name], Num(file, pos + 8, 2), Num(file, pos + 10, 2),
           [0, 0], seq(8, i => 0), 0, 0, [], [],
           file[pos + 4..pos + 8], file[pos + 12..pos + 20], Num(file, pos + 20, 4), Num(file, pos + 24, 4),
           file[pos + 36..pos + 42], Num(file, pos + 42, 4) == MAX32, file[pos + 46 + name..pos + 46 + name + extra])
  }

  function CentralHead(m: Member): seq<seq<byte>> {
    [CENTRAL_SIG, m.versions, LeBytes(m.flags, 2), LeBytes(m.compression, 2)]
  }

  function CentralSizesOf(m: Member): seq<seq<byte>> {
    [m.times, LeBytes(m.stored, 4), LeBytes(m.size, 4), LeBytes(|m.name|, 2)]
  }

  function CentralRest(m: Member, none: nat): seq<seq<byte>> {
    [LeBytes(|m.extra|, 2), LeBytes(none, 2), LeBytes(none, 2), m.attributes]
  }

  function CentralTail(m: Member, at: nat): seq<seq<byte>> { [LeBytes(OffsetField(m, at), 4), m.name, m.extra] }

  lemma HeadStandsAt(file: seq<byte>, pos: nat, m: Member)
    requires Encodable(m) && pos + 46 <= |file|
    requires HasSig(file, pos, CENTRAL_SIG) && file[pos + 4..pos + 8] == m.versions
    requires Num(file, pos + 8, 2) == m.flags && Num(file, pos + 10, 2) == m.compression
    ensures FourStand(file, pos, CentralHead(m))
  {
    Widths();
    SigIff(file, pos, CENTRAL_SIG);
    assert StandsAt(file, pos + 4, m.versions);
    NumIff(file, pos + 8, m.flags, 2);
    NumIff(file, pos + 10, m.compression, 2);
    FourAt(file, pos, CentralHead(m), pos + 4, pos + 8, pos + 10);
  }

  lemma SizesStandAt(file: seq<byte>, pos: nat, m: Member)
    requires Encodable(m) && pos + 46 <= |file| && file[pos + 12..pos + 20] == m.times
    requires Num(file, pos + 20, 4) == m.stored && Num(file, pos + 24, 4) == m.size
    requires Num(file, pos + 28, 2) == |m.name|
    ensures FourStand(file, pos + 12, CentralSizesOf(m))
  {
    Widths();
    assert StandsAt(file, pos + 12, m.times);
    NumIff(file, pos + 20, m.stored, 4);
    NumIff(file, pos + 24, m.size, 4);
    NumIff(file, pos + 28, |m.name|, 2);
    FourAt(file, pos + 12, CentralSizesOf(m), pos + 20, pos + 24, pos + 28);
  }

  lemma RestStandsAt(file: seq<byte>, pos: nat, m: Member, none: nat)
    requires Encodable(m) && pos + 46 <= |file| && file[pos + 36..pos + 42] == m.attributes && none == 0
    requires Num(file, pos + 30, 2) == |m.extra| && Num(file, pos + 32, 2) == 0 && Num(file, pos + 34, 2) == 0
    ensures FourStand(file, pos + 30, CentralRest(m, none))
  {
    Widths();
    assert StandsAt(file, pos + 36, m.attributes);
    NumIff(file, pos + 30, |m.extra|, 2);
    NumIff(file, pos + 32, none, 2);
    NumIff(file, pos + 34, none, 2);
    FourAt(file, pos + 30, CentralRest(m, none), pos + 32, pos + 34, pos + 36);
  }

  lemma TailStandsAt(file: seq<byte>, pos: nat, m: Member, at: nat)
    requires Encodable(m) && pos + 46 + |m.name| + |m.extra| <= |file| && Num(file, pos + 42, 4) == OffsetField(m, at)
    requires file[pos + 46..pos + 46 + |m.name|] == m.name
    requires file[pos + 46 + |m.name|..pos + 46 + |m.name| + |m.extra|] == m.extra
    ensures StandsAt(file, pos + 42, LeBytes(OffsetField(m, at), 4)) && StandsAt(file, pos + 46, m.name)
    ensures StandsAt(file, pos + 46 + |m.name|, m.extra)
  {
    Widths();
    NumIff(file, pos + 42, OffsetField(m, at), 4);
  }

  /** A central header stands when its parts do. */
  lemma CentralJoins(file: seq<byte>, pos: nat, m: Member, at: nat)
    requires Encodable(m) && FourStand(file, pos, CentralHead(m)) && FourStand(file, pos + 12, CentralSizesOf(m))
    requires FourStand(file, pos + 30, CentralRest(m, 0)) && StandsAt(file, pos + 42, LeBytes(OffsetField(m, at), 4))
    requires StandsAt(file, pos + 46, m.name) && StandsAt(file, pos + 46 + |m.name|, m.extra)
    ensures CentralStands(file, pos, m, at)
  {
    var a, b, c, d := CentralHead(m), CentralSizesOf(m), CentralRest(m, 0), CentralTail(m, at);
    FifteenPlaces(file, pos, a, b, c, d, pos + 12, pos + 30, pos + 42);
    assert CentralHeader(m, at) == a + (b + (c + d));
  }

  predicate InBounds(file: seq<byte>, pos: nat) {
    pos + 46 <= |file| && pos + 46 + Num(file, pos + 28, 2) + Num(file, pos + 30, 2) <= |file|
  }

  lemma MemberIsEncodable(file: seq<byte>, pos: nat, at: nat)
    requires InBounds(file, pos)
    ensures Encodable(MemberAt(file, pos, at))
  {
    Widths();
    NumBelow(file, pos + 8, 2);
    NumBelow(file, pos + 10, 2);
    NumBelow(file, pos + 20, 4);
    NumBelow(file, pos + 24, 4);
    NumBelow(file, pos + 28, 2);
    NumBelow(file, pos + 30, 2);
  }

  /** The member of a header without comment, on the first disk, has exactly that header. */
  lemma MemberStands(file: seq<byte>, pos: nat, at: nat, m: Member)
    requires InBounds(file, pos) && m == MemberAt(file, pos, at) && HasSig(file, pos, CENTRAL_SIG)
    requires Num(file, pos + 32, 2) == 0 && Num(file, pos + 34, 2) == 0 && OffsetField(m, at) == Num(file, pos + 42, 4)
    ensures CentralStands(file, pos, m, at)
  {
    MemberIsEncodable(file, pos, at);
    HeadStandsAt(file, pos, m);
    SizesStandAt(file, pos, m);
    RestStandsAt(file, pos, m, 0);
    TailStandsAt(file, pos, m, at);
    CentralJoins(file, pos, m, at);
  }

  lemma OffsetIsWritten(file: seq<byte>, pos: nat, at: nat, m: Member)
    requires InBounds(file, pos) && LocalOffset(file, pos) == Some(at) && m == MemberAt(file, pos, at)
    ensures OffsetField(m, at) == Num(file, pos + 42, 4) && OffsetHeld(m, at)
  {
    Widths();
    NumBelow(file, pos + 42, 4);
  }

  /** What the reader checked of an entry's central header. */
  lemma EntryChecks(file: seq<byte>, g: Geometry, e: Entry)
    requires EntryAt(file, g, e.at) == Some(e) && InBounds(file, e.at)
    ensures e.at + Extent(e) <= g.end <= |file| && HasSig(file, e.at, CENTRAL_SIG)
    ensures Num(file, e.at + 32, 2) == 0 && Num(file, e.at + 34, 2) == 0
    ensures e.flags % 2 == 0 && e.compression in {0, 8} && 1 <= |e.name| <= MAX_NAME && Allowed(e.name)
    ensures LocalOffset(file, e.at) == Some(e.localAt)
  {
  }

  /** An entry with the fields of the header at its place, and a member that has them. */
  predicate Describes(file: seq<byte>, e: Entry, m: Member) {
    && InBounds(file, e.at) && m == MemberAt(file, e.at, e.localAt)
    && Num(file, e.at + 8, 2) == e.flags && Num(file, e.at + 10, 2) == e.compression
    && Num(file, e.at + 28, 2) == |e.name| && Num(file, e.at + 30, 2) == e.extraBytes
    && file[e.at + 46..e.at + 46 + |e.name|] == e.name
  }

  lemma DescribedIsWritten(file: seq<byte>, e: Entry, m: Member)
    requires Describes(file, e, m) && HasSig(file, e.at, CENTRAL_SIG) && LocalOffset(file, e.at) == Some(e.localAt)
    requires Num(file, e.at + 32, 2) == 0 && Num(file, e.at + 34, 2) == 0
    ensures Encodable(m) && m.name == e.name && m.flags == e.flags && m.compression == e.compression
    ensures OffsetHeld(m, e.localAt) && CentralStands(file, e.at, m, e.localAt) && e == EntryOf(m, e.at, e.localAt)
  {
    MemberIsEncodable(file, e.at, e.localAt);
    OffsetIsWritten(file, e.at, e.localAt, m);
    MemberStands(file, e.at, e.localAt, m);
  }

  lemma EntryIsWritten(file: seq<byte>, g: Geometry, e: Entry, m: Member)
    requires EntryAt(file, g, e.at) == Some(e) && InBounds(file, e.at) && m == MemberAt(file, e.at, e.localAt)
    ensures e.at + Extent(e) <= g.end <= |file| && Packable(m) && |m.name| <= MAX_NAME
    ensures OffsetHeld(m, e.localAt) && CentralStands(file, e.at, m, e.localAt) && e == EntryOf(m, e.at, e.localAt)
  {
    EntryFields(file, g, e);
    EntryChecks(file, g, e);
    DescribedIsWritten(file, e, m);
  }

  // ---- Local headers ----------------------------------------------------

  predicate LocalInBounds(file: seq<byte>, at: nat) {
    at + 30 <= |file| && at + 30 + Num(file, at + 26, 2) + Num(file, at + 28, 2) <= |file|
  }

  /** A member with what its local header says; its data is not part of either header. */
  function WithLocal(m: Member, file: seq<byte>, at: nat): Member
    requires LocalInBounds(file, at)
  {
    var name, extra := Num(file, at + 26, 2), Num(file, at + 28, 2);
    m.(version := file[at + 4..at + 6], localTimes := file[at + 10..at + 18],
       localStored := Num(file, at + 18, 4), localSize := Num(file, at + 22, 4),
       localExtra := file[at + 30 + name..at + 30 + name + extra], data := [])
  }

  function LocalHead(m: Member): seq<seq<byte>> {
    [LOCAL_SIG, m.version, LeBytes(m.flags, 2), LeBytes(m.compression, 2)]
  }

  function LocalSizesOf(m: Member): seq<seq<byte>> {
    [m.localTimes, LeBytes(m.localStored, 4), LeBytes(m.localSize, 4), LeBytes(|m.name|, 2)]
  }

  function LocalTail(m: Member): seq<seq<byte>> { [LeBytes(|m.localExtra|, 2), m.name, m.localExtra, m.data] }

  /** Both headers describe the same member. */
  predicate SameMember(file: seq<byte>, at: nat, m: Member) {
    && LocalInBounds(file, at) && HasSig(file, at, LOCAL_SIG)
    && Num(file, at + 6, 2) == m.flags && Num(file, at + 8, 2) == m.compression && Num(file, at + 26, 2) == |m.name|
    && file[at + 30..at + 30 + |m.name|] == m.name
  }

  lemma LocalHeadStands(file: seq<byte>, at: nat, m: Member)
    requires Encodable(m) && SameMember(file, at, m) && m.version == file[at + 4..at + 6]
    ensures FourStand(file, at, LocalHead(m))
  {
    Widths();
    SigIff(file, at, LOCAL_SIG);
    assert StandsAt(file, at + 4, m.version);
    NumIff(file, at + 6, m.flags, 2);
    NumIff(file, at + 8, m.compression, 2);
    FourAt(file, at, LocalHead(m), at + 4, at + 6, at + 8);
  }

  lemma LocalSizesStand(file: seq<byte>, at: nat, m: Member)
    requires Encodable(m) && SameMember(file, at, m) && m.localTimes == file[at + 10..at + 18]
    requires m.localStored == Num(file, at + 18, 4) && m.localSize == Num(file, at + 22, 4)
    ensures FourStand(file, at + 10, LocalSizesOf(m))
  {
    Widths();
    assert StandsAt(file, at + 10, m.localTimes);
    NumIff(file, at + 18, m.localStored, 4);
    NumIff(file, at + 22, m.localSize, 4);
    NumIff(file, at + 26, |m.name|, 2);
    FourAt(file, at + 10, LocalSizesOf(m), at + 18, at + 22, at + 26);
  }

  lemma LocalTailStands(file: seq<byte>, at: nat, m: Member)
    requires Encodable(m) && SameMember(file, at, m) && m.data == [] && |m.localExtra| == Num(file, at + 28, 2)
    requires m.localExtra == file[at + 30 + |m.name|..at + 30 + |m.name| + |m.localExtra|]
    ensures FourStand(file, at + 28, LocalTail(m))
  {
    Widths();
    NumIff(file, at + 28, |m.localExtra|, 2);
  }

  lemma LocalJoins(file: seq<byte>, at: nat, m: Member)
    requires Encodable(m) && m.data == [] && at + LocalLength(m) <= |file|
    requires FourStand(file, at, LocalHead(m)) && FourStand(file, at + 10, LocalSizesOf(m))
    requires FourStand(file, at + 28, LocalTail(m))
    ensures StandsAt(file, at, Flatten(LocalHeader(m)))
  {
    var a, b, c := LocalHead(m), LocalSizesOf(m), LocalTail(m);
    FourFirst(file, at, a, b + (c + []), at + 10);
    FourFirst(file, at + 10, b, c + [], at + 28);
    FourFirst(file, at + 28, c, [], at + LocalLength(m));
    assert LocalHeader(m) == a + (b + (c + []));
  }

  lemma LocalIsWritten(file: seq<byte>, at: nat, m: Member, limit: nat)
    requires Encodable(m) && SameMember(file, at, m)
    requires at + 30 + |m.name| + Num(file, at + 28, 2) <= limit <= |file|
    ensures var full := WithLocal(m, file, at);
            Encodable(full) && StandsAt(file, at, Flatten(LocalHeader(full))) && at + LocalLength(full) <= limit
  {
    var full := WithLocal(m, file, at);
    Widths();
    NumBelow(file, at + 18, 4);
    NumBelow(file, at + 22, 4);
    NumBelow(file, at + 28, 2);
    LocalHeadStands(file, at, full);
    LocalSizesStand(file, at, full);
    LocalTailStands(file, at, full);
    LocalJoins(file, at, full);
  }

  /** `e` is the entry of a member, without its data, whose two headers stand where `e` and the directory say. */
  predicate Written(file: seq<byte>, g: Geometry, e: Entry, m: Member) {
    && g.offset <= g.end <= |file| && Packable(m) && |m.name| <= 128 && m.data == [] && OffsetHeld(m, e.localAt)
    && CentralStands(file, e.at, m, e.localAt) && e.at + CentralLength(m) <= g.end
    && StandsAt(file, e.localAt, Flatten(LocalHeader(m))) && e.localAt + LocalLength(m) <= g.offset
    && e == EntryOf(m, e.at, e.localAt)
  }

  /** What only the local header says plays no part in the directory. */
  lemma SameInDirectory(m: Member, n: Member, file: seq<byte>, pos: nat, at: nat)
    requires Packable(m) && OffsetHeld(m, at) && CentralStands(file, pos, m, at) && Encodable(n)
    requires n == m.(version := n.version, localTimes := n.localTimes, localStored := n.localStored,
                     localSize := n.localSize, localExtra := n.localExtra, data := n.data)
    ensures Packable(n) && OffsetHeld(n, at) && CentralStands(file, pos, n, at) && CentralLength(n) == CentralLength(m)
    ensures EntryOf(n, pos, at) == EntryOf(m, pos, at)
  {
    assert CentralHeader(n, at) == CentralHeader(m, at);
  }

  lemma MatchIsSame(file: seq<byte>, g: Geometry, e: Entry, m: Member)
    requires g.offset <= g.end <= |file| && EntryAt(file, g, e.at) == Some(e)
    requires m.name == e.name && m.flags == e.flags && m.compression == e.compression
    ensures SameMember(file, e.localAt, m) && e.localAt + 30 + |m.name| + Num(file, e.localAt + 28, 2) <= g.offset
  {
  }

  lemma EntryInBounds(file: seq<byte>, g: Geometry, e: Entry)
    requires EntryAt(file, g, e.at) == Some(e)
    ensures InBounds(file, e.at)
  {
    EntryFields(file, g, e);
  }

  /** The two headers of one member, put together. */
  lemma BothHeaders(file: seq<byte>, g: Geometry, e: Entry, m: Member) returns (full: Member)
    requires g.offset <= g.end <= |file| && Packable(m) && |m.name| <= 128 && OffsetHeld(m, e.localAt)
    requires CentralStands(file, e.at, m, e.localAt) && e.at + CentralLength(m) <= g.end
    requires SameMember(file, e.localAt, m)
    requires e.localAt + 30 + |m.name| + Num(file, e.localAt + 28, 2) <= g.offset
    requires e == EntryOf(m, e.at, e.localAt)
    ensures Written(file, g, e, full)
  {
    LocalIsWritten(file, e.localAt, m, g.offset);
    full := WithLocal(m, file, e.localAt);
    SameInDirectory(m, full, file, e.at, e.localAt);
  }

  lemma ReadIsWritten(file: seq<byte>, g: Geometry, e: Entry, m: Member) returns (full: Member)
    requires g.offset <= g.end <= |file| && EntryAt(file, g, e.at) == Some(e) && InBounds(file, e.at)
    requires m == MemberAt(file, e.at, e.localAt)
    ensures Written(file, g, e, full)
  {
    EntryIsWritten(file, g, e, m);
    MatchIsSame(file, g, e, m);
    full := BothHeaders(file, g, e, m);
  }

  /** The reader finds an entry exactly where both headers of a packable member stand. */
  lemma EntryIff(file: seq<byte>, g: Geometry, e: Entry)
    requires g.offset <= g.end <= |file|
    ensures EntryAt(file, g, e.at) == Some(e) <==> exists m :: Written(file, g, e, m)
  {
    if EntryAt(file, g, e.at) == Some(e) {
      EntryInBounds(file, g, e);
      var m := ReadIsWritten(file, g, e, MemberAt(file, e.at, e.localAt));
    }
    forall m | Written(file, g, e, m) ensures EntryAt(file, g, e.at) == Some(e) {
      EntryIsRead(file, g, e.at, m, e.localAt);
    }
  }

  // ---- The extra field --------------------------------------------------

  /** The blocks from `at` on are whole, and one at `p`, the only ZIP64 one, holds `value` after `skip` bytes. */
  ghost predicate OnlyBlock(extra: seq<byte>, at: nat, skip: nat, p: nat, value: nat) {
    && (forall q :: StartsBlock(extra, at, q) ==> NextBlock(extra, q) <= |extra|)
    && StartsBlock(extra, at, p) && HoldsOffset(extra, p, skip, value)
    && forall q :: StartsBlock(extra, at, q) && Num(extra, q, 2) == 1 ==> q == p
  }

  /** Once an offset was found, it stays when the later blocks are whole and none is a ZIP64 block. */
  lemma {:induction false} FoundStays(extra: seq<byte>, at: nat, skip: nat, value: nat)
    requires at <= |extra|
    requires forall q :: StartsBlock(extra, at, q) ==> NextBlock(extra, q) <= |extra| && Num(extra, q, 2) != 1
    ensures OffsetFrom(extra, at, skip, Some(value)) == Some(value)
    decreases |extra| - at
  {
    if at + 4 <= |extra| {
      assert StartsBlock(extra, at, at);
      FoundStays(extra, NextBlock(extra, at), skip, value);
    }
  }

  lemma {:induction false} BlockIsFound(extra: seq<byte>, at: nat, skip: nat, p: nat, value: nat)
    requires at <= |extra| && OnlyBlock(extra, at, skip, p, value)
    ensures OffsetFrom(extra, at, skip, None) == Some(value)
    decreases |extra| - at
  {
    assert StartsBlock(extra, at, at);
    var next := NextBlock(extra, at);
    if p == at {
      forall q | StartsBlock(extra, next, q) ensures NextBlock(extra, q) <= |extra| && Num(extra, q, 2) != 1 {
        assert StartsBlock(extra, at, q);
      }
      FoundStays(extra, next, skip, value);
    } else {
      forall q | StartsBlock(extra, next, q) ensures StartsBlock(extra, at, q) {
      }
      BlockIsFound(extra, next, skip, p, value);
    }
  }

  /** The extra field gives an offset exactly when its blocks are whole and its only ZIP64 block holds it. */
  lemma OffsetIff(extra: seq<byte>, skip: nat, value: nat)
    ensures OffsetFrom(extra, 0, skip, None) == Some(value) <==> exists p :: OnlyBlock(extra, 0, skip, p, value)
  {
    if OffsetFrom(extra, 0, skip, None) == Some(value) {
      OffsetMeaning(extra, 0, skip, None, value);
      var p :| StartsBlock(extra, 0, p) && HoldsOffset(extra, p, skip, value)
               && forall q :: StartsBlock(extra, 0, q) && Num(extra, q, 2) == 1 ==> q == p;
      assert OnlyBlock(extra, 0, skip, p, value);
    }
    forall p | OnlyBlock(extra, 0, skip, p, value) ensures OffsetFrom(extra, 0, skip, None) == Some(value) {
      BlockIsFound(extra, 0, skip, p, value);
    }
  }

  // ---- The whole file ---------------------------------------------------

  /** The file ends as a directory of geometry `g` must. */
  ghost predicate EndsFor(file: seq<byte>, g: Geometry) {
    && Limited(g) && |file| >= 22 && file[..4] == Ascii("PK") + [3, 4]
    && (EndsPlain(file, g)
        || exists versions, count: nat, size: nat, offset: nat :: EndsWide(file, g, versions, count, size, offset))
  }

  /** Some member is written for `e`. */
  ghost predicate IsWritten(file: seq<byte>, g: Geometry, e: Entry) { exists m :: Written(file, g, e, m) }

  /** Entries that tile the directory, each written for a member, with names that differ. */
  ghost predicate Directory(file: seq<byte>, g: Geometry, es: seq<Entry>) {
    && |es| == g.count && Tiles(es, g.offset, g.end) && Distinct(es)
    && forall i :: 0 <= i < |es| ==> IsWritten(file, g, es[i])
  }

  lemma ReaderIff(file: seq<byte>, g: Geometry, e: Entry)
    requires g.offset <= g.end <= |file|
    ensures Reader(file, g)(e.at) == Some(e) <==> IsWritten(file, g, e)
  {
    EntryIff(file, g, e);
  }

  /** Reading every entry and having it written come to the same, whatever reading and writing are. */
  lemma ContinuesIff(read: nat -> Option<Entry>, written: Entry -> bool, g: Geometry, es: seq<Entry>)
    requires forall e: Entry :: read(e.at) == Some(e) <==> written(e)
    ensures Continues(read, g.offset, g.end, {}, es) <==>
              Tiles(es, g.offset, g.end) && Distinct(es) && forall i :: 0 <= i < |es| ==> written(es[i])
  {
  }

  lemma DirectoryIff(file: seq<byte>, g: Geometry, es: seq<Entry>)
    requires g.offset <= g.end <= |file| && |es| == g.count
    ensures Directory(file, g, es) <==> Continues(Reader(file, g), g.offset, g.end, {}, es)
  {
    ghost var written := (e: Entry) => IsWritten(file, g, e);
    forall e: Entry ensures Reader(file, g)(e.at) == Some(e) <==> written(e) {
      ReaderIff(file, g, e);
    }
    ContinuesIff(Reader(file, g), written, g, es);
  }

  /**
   * A file is accepted with a set of names exactly when it ends as a writer ends it, and its directory is one that
   * a writer writes for members of these names whose local headers stand in the file.
   */
  lemma AcceptedExactly(file: seq<byte>, names: set<Name>)
    ensures ZipNames(file) == Some(names) <==>
              exists g, es :: EndsFor(file, g) && Directory(file, g, es) && names == NamesOf(es)
  {
    AcceptedIff(file, names);
    forall g ensures EndsFor(file, g) <==> GeometryOf(file) == Some(g) {
      GeometryIff(file, g);
    }
    forall g, es | GeometryOf(file) == Some(g) && |es| == g.count
      ensures Directory(file, g, es) <==> Continues(Reader(file, g), g.offset, g.end, {}, es)
    {
      DirectoryIff(file, g, es);
    }
    if ZipNames(file) == Some(names) {
      var g, es :| GeometryOf(file) == Some(g) && |es| == g.count && names == NamesOf(es)
                   && Continues(Reader(file, g), g.offset, g.end, {}, es);
      assert EndsFor(file, g) && Directory(file, g, es);
    }
  }
}
