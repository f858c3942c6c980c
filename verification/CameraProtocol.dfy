/** What the camera transport keeps over every sequence of calls, whatever the port and the bridge do. */
module CameraProtocol {
  import opened Wrappers
  import opened Bytes
  import opened CameraWire
  import opened CameraTransport
  import CameraRequest
  import CameraPixels

  /** The stream the bridge reads in the OPEN line for the transport's facing and size. */
  function Asks(t: Transport): Option<CameraRequest.Stream> {
    CameraRequest.Requested(OpenLine(t.facing, t.width, t.height))
  }

  predicate GoodScript(script: seq<Reply>) { forall i :: 0 <= i < |script| ==> IsReply(script[i]) }

  /**
   * Between calls nothing is left unread, so the stream stands at a reply boundary; at most one camera is open
   * and none without an owner; and the only unfinished line the bridge can hold is the start of a FRAME.
   */
  predicate Inv(t: Transport) {
    && !t.wire.clash && GoodScript(t.wire.script) && t.wire.inbox == [] && t.wire.cameras <= 1
    && (!t.fd ==> t.owner.None?)
    && (t.owner.None? ==> t.wire.cameras == 0 && t.wire.partial == [] && t.facing == [])
    && (t.wire.cameras > 0 ==> t.wire.asked == Asks(t))
    && (t.wire.partial != [] ==> t.wire.partial[0] == FRAME[0]) && NoLine(t.wire.partial)
  }

  function Fresh(port: Wire): Transport { Transport(false, None, [], 0, 0, 0, port) }

  predicate FreshPort(port: Wire) {
    GoodScript(port.script) && port.inbox == [] && port.partial == [] && port.cameras == 0 && !port.clash
  }

  datatype Call =
    | AcquireCall(owner: Owner, facing: seq<byte>, width: nat, height: nat, available: bool)
    | ReleaseCall(owner: Owner)
    | CaptureCall(owner: Owner)

  predicate IsCall(c: Call) { c.AcquireCall? ==> NoLine(c.facing) }

  function Do(t: Transport, c: Call, scan: Scanner): Transport {
    match c
    case AcquireCall(owner, facing, width, height, available) =>
      Acquire(t, owner, facing, width, height, available, scan).0
    case ReleaseCall(owner) => Release(t, owner)
    case CaptureCall(owner) => Capture(t, owner).0
  }

  function Run(t: Transport, calls: seq<Call>, scan: Scanner): Transport
    decreases |calls|
  {
    if calls == [] then t else Run(Do(t, calls[0], scan), calls[1..], scan)
  }

  lemma GoodRest(script: seq<Reply>)
    requires GoodScript(script) && script != []
    ensures IsReply(script[0]) && GoodScript(script[1..])
  {
  }

  lemma {:induction false} DigitsAreOneLine(n: nat)
    ensures NoLine(Digits(n))
  {
    if n >= 10 {
      DigitsAreOneLine(n / 10);
    }
  }

  lemma OpenLineIsOne(facing: seq<byte>, width: nat, height: nat)
    requires NoLine(facing)
    ensures NoLine(OpenLine(facing, width, height)) && OPEN <= OpenLine(facing, width, height)
  {
    DigitsAreOneLine(width);
    DigitsAreOneLine(height);
  }

  /** The text of a reply that is not a frame, with what the client makes of it. */
  function TextOf(r: Reply, line: seq<byte>): seq<byte> {
    if line != CLOSE && Stripped(r.text) == CLOSED then ERROR else r.text
  }

  lemma TextIsText(r: Reply, line: seq<byte>)
    requires IsReply(r)
    ensures IsText(TextOf(r, line))
    ensures Stripped(TextOf(r, line)) == CLOSED ==> line == CLOSE && Stripped(r.text) == CLOSED
  {
    assert Stripped(ERROR) == ERROR by {
      assert ERROR[1..] == [82, 82, 79, 82];
      assert ERROR[1..][1..] == [82, 79, 82];
    }
  }

  /** A request line is written and its reply line read: one reply is consumed, or the exchange failed. */
  lemma LineExchange(w: Wire, line: seq<byte>)
    requires NoLine(line) && NoLine(w.partial) && w.inbox == [] && GoodScript(w.script) && w.partial + line != FRAME
    ensures var (sent, ok) := Write(w, line + [LF]);
            !ok ==> sent == w.(partial := sent.partial, outputs := sent.outputs)
    ensures var (sent, ok) := Write(w, line + [LF]);
            var (after, reply) := ReadLine(sent, 512);
            ok ==>
              && GoodScript(after.script)
              && after.clash == (w.clash || (w.script != [] && OPEN <= w.partial + line && w.cameras > 0))
              && (reply.Some? ==>
                    && w.script != [] && after.inbox == [] && after.partial == []
                    && reply.value == Stripped(TextOf(w.script[0], w.partial + line))
                    && after.cameras == Receive(w, w.partial + line).cameras
                    && after.asked == Receive(w, w.partial + line).asked)
  {
    var (sent, ok) := Write(w, line + [LF]);
    LineDelivers(w, line);
    if ok {
      var whole := w.partial + line;
      if w.script == [] {
        NoLineFromNothing(sent, 512);
      } else {
        GoodRest(w.script);
        var text := TextOf(w.script[0], whole);
        TextIsText(w.script[0], whole);
        assert sent.inbox == text + [LF];
        LineTakes(sent, text, 512);
      }
    }
  }

  lemma NoLineFromNothing(w: Wire, left: nat)
    requires w.inbox == []
    ensures ReadLine(w, left).1.None? && ReadLine(w, left).0 == w.(inputs := ReadLine(w, left).0.inputs)
  {
    if left != 0 {
      var k := ReadTakes(w, 1);
      assert w.inbox[k..] == [];
    }
  }

  /** A camera is given up only by an acknowledged CLOSE or by closing the port. */
  lemma CloseKeepsInv(t: Transport)
    requires Inv(t)
    ensures Inv(CloseCamera(t).0) && CloseCamera(t).0.owner.None? && CloseCamera(t).0.wire.cameras == 0
    ensures !CloseCamera(t).1 ==> !CloseCamera(t).0.fd
    ensures t.fd && CloseCamera(t).1 ==> CloseCamera(t).0.fd
    ensures t.wire.partial != [] ==> !CloseCamera(t).1
    ensures var after := CloseCamera(t).0; t.owner.Some? ==> after.width == after.height == after.stride == 0
  {
    if t.fd && t.owner.Some? {
      if t.wire.partial != [] {
        assert (t.wire.partial + CLOSE)[0] == FRAME[0];
      } else {
        assert t.wire.partial + CLOSE == CLOSE;
      }
      LineExchange(t.wire, CLOSE);
      if t.wire.script != [] {
        TextIsText(t.wire.script[0], t.wire.partial + CLOSE);
      }
    }
  }

  lemma OpenKeepsInv(t: Transport, owner: Owner, facing: seq<byte>, width: nat, height: nat, scan: Scanner)
    requires Inv(t) && t.owner.None? && t.fd && NoLine(facing)
    ensures var (after, ok) := OpenCamera(t, owner, facing, width, height, scan);
            Inv(after) && if ok then after.fd && after.owner == Some(owner) else !after.fd
  {
    OpenLineIsOne(facing, width, height);
    assert t.wire.partial + OpenLine(facing, width, height) == OpenLine(facing, width, height);
    LineExchange(t.wire, OpenLine(facing, width, height));
  }

  lemma AcquireKeepsInv(t: Transport, owner: Owner, facing: seq<byte>, width: nat, height: nat, available: bool,
      scan: Scanner)
    requires Inv(t) && NoLine(facing)
    ensures var (after, ok) := Acquire(t, owner, facing, width, height, available, scan);
            && Inv(after)
            && if ok then
                 && after.fd && after.owner == Some(owner) && after.facing == facing
                 && after.width == width && after.height == height
               else !after.fd && after.owner.None? && after.wire.cameras == 0
  {
    if !(t.owner == Some(owner) && t.facing == facing && t.width == width && t.height == height)
        && (t.fd || available) {
      var ready := t.(fd := true);
      if t.owner.Some? {
        CloseKeepsInv(ready);
        if CloseCamera(ready).1 {
          OpenKeepsInv(CloseCamera(ready).0, owner, facing, width, height, scan);
        }
      } else {
        OpenKeepsInv(ready, owner, facing, width, height, scan);
      }
    }
  }

  // ---- Frames -----------------------------------------------------------

  lemma TextIsNoMagic(text: seq<byte>)
    requires IsText(text) && |text| >= 3
    ensures (text + [LF])[..4] != KCF1
  {
    if |text| == 3 {
      assert (text + [LF])[..4][3] == LF;
    } else {
      assert (text + [LF])[..4] == text[..4];
    }
  }

  lemma TextIsNoFrame(w: Wire, text: seq<byte>, width: nat, height: nat)
    requires IsText(text) && w.inbox == text + [LF]
    ensures ReadFrame(w, width, height).1.None?
    ensures var after := ReadFrame(w, width, height).0; after == w.(inputs := after.inputs, inbox := after.inbox)
  {
    var k := ReadTakes(w, 4);
    if |text| >= 3 {
      TextIsNoMagic(text);
    }
  }

  function PictureOf(f: Frame): Picture
    requires |f.fields| == 32
  {
    var h := DecodeFields(f.fields);
    Picture(h.width, h.height, h.stride, h.sequence, h.timestamp, f.pixels)
  }

  /** A frame read whole is the frame sent, to the last byte. */
  lemma FrameTakes(w: Wire, f: Frame, width: nat, height: nat)
    requires IsFrame(f) && w.inbox == KCF1 + f.fields + f.pixels
    ensures var (after, got) := ReadFrame(w, width, height);
            && after == w.(inputs := after.inputs, inbox := after.inbox)
            && (got.Some? ==>
                  after.inbox == [] && Acceptable(DecodeFields(f.fields), width, height) && got.value == PictureOf(f))
  {
    var (w1, magic) := Read(w, 4);
    var k1 := ReadTakes(w, 4);
    if magic == Some(KCF1) {
      assert w1.inbox == f.fields + f.pixels;
      var (w2, got) := Read(w1, 32);
      var k2 := ReadTakes(w1, 32);
      if got.Some? {
        assert got.value == f.fields && w2.inbox == f.pixels;
        var k3 := ReadTakes(w2, |f.pixels|);
      }
    }
  }

  /** A served read of what the inbox starts with. */
  lemma {:induction false} PartServed(w: Wire, part: seq<byte>, rest: seq<byte>)
    requires w.inbox == part + rest && Live(w.inputs, |part| + |rest|)
    ensures var (after, got) := Read(w, |part|); got == Some(part) && after.inbox == rest && Live(after.inputs, |rest|)
  {
    assert w.inbox[..|part|] == part && w.inbox[|part|..] == rest;
    ReadServed(w, |part|, |rest|);
    var k := ReadTakes(w, |part|);
    assert k == |part|;
  }

  lemma FrameServed(w: Wire, f: Frame, width: nat, height: nat)
    requires IsFrame(f) && w.inbox == KCF1 + f.fields + f.pixels && Live(w.inputs, 36 + |f.pixels|)
    ensures ReadFrame(w, width, height).1.Some? <==> Acceptable(DecodeFields(f.fields), width, height)
  {
    assert w.inbox == KCF1 + (f.fields + f.pixels);
    PartServed(w, KCF1, f.fields + f.pixels);
    var w1 := Read(w, 4).0;
    PartServed(w1, f.fields, f.pixels);
    var w2 := Read(w1, 32).0;
    assert w2.inbox == f.pixels + [];
    PartServed(w2, f.pixels, []);
  }

  lemma NothingIsNoFrame(w: Wire, width: nat, height: nat)
    requires w.inbox == []
    ensures ReadFrame(w, width, height).1.None?
            && ReadFrame(w, width, height).0 == w.(inputs := ReadFrame(w, width, height).0.inputs)
  {
    var k := ReadTakes(w, 4);
    assert w.inbox[k..] == [];
  }

  /** Only a whole FRAME line is answered by a frame, and only then there is a picture. */
  lemma FrameAnswered(w: Wire, sent: Wire, width: nat, height: nat)
    requires w.inbox == [] && GoodScript(w.script) && (w.partial != [] ==> w.partial[0] == FRAME[0])
    requires sent == Receive(w.(partial := []), w.partial + FRAME).(outputs := sent.outputs)
    ensures var (after, got) := ReadFrame(sent, width, height);
            && GoodScript(after.script) && after.clash == w.clash && after.cameras == w.cameras
            && after.asked == w.asked && after.partial == []
            && (got.Some? ==>
                  && w.partial == [] && w.script != [] && after.inbox == [] && after.script == w.script[1..]
                  && w.script[0].frame.Some?
                  && IsFrame(w.script[0].frame.value) && got.value == PictureOf(w.script[0].frame.value)
                  && Acceptable(DecodeFields(w.script[0].frame.value.fields), width, height))
  {
    var whole := w.partial + FRAME;
    assert whole[0] == FRAME[0];
    assert !(OPEN <= whole) && whole != CLOSE;
    if w.script == [] {
      NothingIsNoFrame(sent, width, height);
    } else {
      GoodRest(w.script);
      if whole == FRAME && w.script[0].frame.Some? {
        FrameTakes(sent, w.script[0].frame.value, width, height);
      } else {
        TextIsText(w.script[0], whole);
        TextIsNoFrame(sent, TextOf(w.script[0], whole), width, height);
      }
    }
  }

  /** What a FRAME exchange can do to the port, and the only way it yields a picture. */
  lemma FrameExchange(w: Wire, width: nat, height: nat)
    requires w.inbox == [] && GoodScript(w.script) && NoLine(w.partial)
             && (w.partial != [] ==> w.partial[0] == FRAME[0])
    ensures var (sent, ok) := Write(w, FRAME + [LF]);
            !ok ==> sent == w.(partial := sent.partial, outputs := sent.outputs) && NoLine(sent.partial)
                    && (sent.partial != [] ==> sent.partial[0] == FRAME[0])
    ensures var (sent, ok) := Write(w, FRAME + [LF]);
            var (after, got) := ReadFrame(sent, width, height);
            ok ==>
              && GoodScript(after.script) && after.clash == w.clash && after.cameras == w.cameras
              && after.asked == w.asked && after.partial == []
              && (got.Some? ==>
                    && w.partial == [] && w.script != [] && after.inbox == [] && after.script == w.script[1..]
                    && w.script[0].frame.Some?
                    && IsFrame(w.script[0].frame.value) && got.value == PictureOf(w.script[0].frame.value)
                    && Acceptable(DecodeFields(w.script[0].frame.value.fields), width, height))
  {
    var (sent, ok) := Write(w, FRAME + [LF]);
    LineDelivers(w, FRAME);
    if ok {
      FrameAnswered(w, sent, width, height);
    }
  }

  lemma CaptureKeepsInv(t: Transport, owner: Owner)
    requires Inv(t)
    ensures Inv(Capture(t, owner).0)
  {
    if t.owner == Some(owner) && t.fd {
      FrameExchange(t.wire, t.width, t.height);
    }
  }

  // ---- Main results -----------------------------------------------------

  lemma DoKeepsInv(t: Transport, c: Call, scan: Scanner)
    requires Inv(t) && IsCall(c)
    ensures Inv(Do(t, c, scan))
  {
    match c
    case AcquireCall(owner, facing, width, height, available) =>
      AcquireKeepsInv(t, owner, facing, width, height, available, scan);
    case ReleaseCall(owner) => CloseKeepsInv(t);
    case CaptureCall(owner) => CaptureKeepsInv(t, owner);
  }

  lemma {:induction false} RunKeepsInv(t: Transport, calls: seq<Call>, scan: Scanner)
    requires Inv(t) && forall i :: 0 <= i < |calls| ==> IsCall(calls[i])
    ensures Inv(Run(t, calls, scan))
    decreases |calls|
  {
    if calls != [] {
      DoKeepsInv(t, calls[0], scan);
      RunKeepsInv(Do(t, calls[0], scan), calls[1..], scan);
    }
  }

  /**
   * Over every interleaving of calls by any owners, every split, interruption and failure of reads and writes,
   * and every behaviour of the bridge: at most one camera is open, none is open without an owner, no OPEN ever
   * reached the bridge with a camera open, and the stream stands at a reply boundary.
   */
  lemma AtMostOneCamera(port: Wire, calls: seq<Call>, scan: Scanner)
    requires FreshPort(port) && forall i :: 0 <= i < |calls| ==> IsCall(calls[i])
    ensures var t := Run(Fresh(port), calls, scan);
            && t.wire.cameras <= 1 && (t.owner.None? ==> t.wire.cameras == 0) && !t.wire.clash
            && t.wire.inbox == [] && (!t.fd ==> t.wire.partial == [] && t.owner.None?)
  {
    RunKeepsInv(Fresh(port), calls, scan);
  }

  lemma {:induction false} DigitsAreValue(n: nat)
    ensures CameraRequest.IsNumber(Digits(n)) && CameraRequest.Value(Digits(n)) == n
  {
    if n >= 10 {
      DigitsAreValue(n / 10);
      assert Digits(n)[..|Digits(n)| - 1] == Digits(n / 10);
    } else {
      assert Digits(n)[..0] == [];
    }
  }

  /** The bridge reads an OPEN line as a request for exactly the facing and size the client was asked for. */
  lemma OpenLineAsks(facing: seq<byte>, width: nat, height: nat)
    requires CameraRequest.SPACE !in facing
    ensures CameraRequest.Requested(OpenLine(facing, width, height))
            == Some(CameraRequest.Stream(facing, width, height))
  {
    DigitsAreValue(width);
    DigitsAreValue(height);
    var open := Ascii("OPEN");
    assert OPEN == open + [CameraRequest.SPACE];
    CameraRequest.FourWords(open, facing, Digits(width), Digits(height));
  }

  /** Over every sequence of calls, an open camera is the owner's: opened for its facing and its size. */
  lemma OpenCameraIsTheOwners(port: Wire, calls: seq<Call>, scan: Scanner)
    requires FreshPort(port) && forall i :: 0 <= i < |calls| ==> IsCall(calls[i])
    ensures var t := Run(Fresh(port), calls, scan);
            t.wire.cameras > 0 && CameraRequest.SPACE !in t.facing ==>
              && t.fd && t.owner.Some?
              && t.wire.asked == Some(CameraRequest.Stream(t.facing, t.width, t.height))
  {
    RunKeepsInv(Fresh(port), calls, scan);
    var t := Run(Fresh(port), calls, scan);
    if CameraRequest.SPACE !in t.facing {
      OpenLineAsks(t.facing, t.width, t.height);
    }
  }

  /** After a successful OPEN to which the bridge did open a camera, that camera is open as asked. */
  lemma OpenedAsAsked(t: Transport, owner: Owner, facing: seq<byte>, width: nat, height: nat, scan: Scanner)
    requires Inv(t) && t.fd && t.owner.None? && NoLine(facing) && CameraRequest.SPACE !in facing
    requires OpenCamera(t, owner, facing, width, height, scan).1
    ensures var after := OpenCamera(t, owner, facing, width, height, scan).0;
            && t.wire.script != [] && after.wire.cameras == (if t.wire.script[0].opens then 1 else 0)
            && (t.wire.script[0].opens ==> after.wire.asked == Some(CameraRequest.Stream(facing, width, height)))
  {
    var line := OpenLine(facing, width, height);
    OpenLineIsOne(facing, width, height);
    OpenLineAsks(facing, width, height);
    assert t.wire.partial + line == line;
    LineExchange(t.wire, line);
    assert line[0] == OPEN[0] && line != CLOSE;
  }

  /** After its release an owner has nothing; without one, or for a port that never comes, an acquire sends nothing. */
  lemma QuietCalls(t: Transport, owner: Owner, facing: seq<byte>, width: nat, height: nat, available: bool,
      scan: Scanner)
    requires Inv(t)
    ensures Release(t, owner).owner != Some(owner)
    ensures t.owner == Some(owner) ==> Release(t, owner).owner.None? && Release(t, owner).wire.cameras == 0
    ensures t.owner == Some(owner) && t.facing == facing && t.width == width && t.height == height ==>
              Acquire(t, owner, facing, width, height, available, scan) == (t, true)
    ensures t.owner.None? && !t.fd && !available ==>
              Acquire(t, owner, facing, width, height, available, scan) == (t, false)
  {
    CloseKeepsInv(t);
  }

  /** The replies left when a line that was to be `length` bytes long got out or did not. */
  function RepliesLeft(w: Wire, length: nat): seq<Reply> {
    if Delivered(w.outputs, length) == length && w.script != [] then w.script[1..] else w.script
  }

  lemma LineCosts(w: Wire, line: seq<byte>)
    requires NoLine(line)
    ensures Write(w, line + [LF]).0.script == RepliesLeft(w, |line| + 1)
  {
    LineDelivers(w, line);
  }

  /** Every line that gets out costs exactly one reply, whatever becomes of it: a CLOSE... */
  lemma CloseCosts(t: Transport)
    requires t.fd && t.owner.Some?
    ensures CloseCamera(t).0.wire.script == RepliesLeft(t.wire, |CLOSE| + 1)
  {
    LineCosts(t.wire, CLOSE);
    LineLeavesScript(Write(t.wire, CLOSE + [LF]).0, 512);
  }

  /** ... an OPEN... */
  lemma OpenCosts(t: Transport, owner: Owner, facing: seq<byte>, width: nat, height: nat, scan: Scanner)
    requires NoLine(facing)
    ensures OpenCamera(t, owner, facing, width, height, scan).0.wire.script
            == RepliesLeft(t.wire, |OpenLine(facing, width, height)| + 1)
  {
    var line := OpenLine(facing, width, height);
    OpenLineIsOne(facing, width, height);
    LineCosts(t.wire, line);
    LineLeavesScript(Write(t.wire, line + [LF]).0, 512);
  }

  /** ... and a FRAME. */
  lemma CaptureCosts(t: Transport, owner: Owner)
    requires t.fd && t.owner == Some(owner)
    ensures Capture(t, owner).0.wire.script == RepliesLeft(t.wire, |FRAME| + 1)
  {
    LineCosts(t.wire, FRAME);
    ScriptStays(Write(t.wire, FRAME + [LF]).0, t.width, t.height);
  }

  /** Reading takes no reply beyond the bytes already sent. */
  lemma ScriptStays(w: Wire, width: nat, height: nat)
    ensures ReadFrame(w, width, height).0.script == w.script
  {
    var k1 := ReadTakes(w, 4);
    var w1 := Read(w, 4).0;
    var k2 := ReadTakes(w1, 32);
    var (w2, fields) := Read(w1, 32);
    if fields.Some? {
      var k3 := ReadTakes(w2, DecodeFields(fields.value).bytes);
    }
  }

  lemma {:induction false} LineLeavesScript(w: Wire, left: nat)
    ensures ReadLine(w, left).0.script == w.script
    decreases left
  {
    if left != 0 {
      var k := ReadTakes(w, 1);
      LineLeavesScript(Read(w, 1).0, left - 1);
    }
  }

  /** A release or a capture by someone other than `owner`. */
  predicate IsBystander(c: Call, owner: Owner) { !c.AcquireCall? && c.owner != owner }

  lemma {:induction false} BystandersChangeNothing(t: Transport, owner: Owner, calls: seq<Call>, scan: Scanner)
    requires t.owner == Some(owner) && forall i :: 0 <= i < |calls| ==> IsBystander(calls[i], owner)
    ensures Run(t, calls, scan) == t
    decreases |calls|
  {
    if calls != [] {
      assert IsBystander(calls[0], owner);
      BystandersChangeNothing(t, owner, calls[1..], scan);
    }
  }

  /**
   * After a hand-over, late releases and captures by anyone else, however many, change nothing; the new owner
   * keeps the stream it asked for.
   */
  lemma FormerOwnersAreIgnored(t: Transport, owner: Owner, facing: seq<byte>, width: nat, height: nat, available: bool,
                               calls: seq<Call>, scan: Scanner)
    requires Inv(t) && NoLine(facing) && Acquire(t, owner, facing, width, height, available, scan).1
    requires forall i :: 0 <= i < |calls| ==> IsBystander(calls[i], owner)
    ensures var after := Acquire(t, owner, facing, width, height, available, scan).0;
            && Run(after, calls, scan) == after
            && after.fd && after.owner == Some(owner) && after.facing == facing
            && after.width == width && after.height == height
  {
    AcquireKeepsInv(t, owner, facing, width, height, available, scan);
    BystandersChangeNothing(Acquire(t, owner, facing, width, height, available, scan).0, owner, calls, scan);
  }

  /**
   * A successful capture returns the very frame the bridge sent, in the owner's dimensions, with the payload of
   * exactly that size, and leaves only the port's consumed calls and reply behind.
   */
  lemma CaptureIsExact(t: Transport, owner: Owner)
    requires Inv(t) && Capture(t, owner).1.Some?
    ensures var (after, got) := Capture(t, owner);
            && t.owner == Some(owner) && t.wire.partial == [] && t.wire.script != [] && t.wire.script[0].frame.Some?
            && IsFrame(t.wire.script[0].frame.value) && got.value == PictureOf(t.wire.script[0].frame.value)
            && got.value.width == got.value.stride == t.width && got.value.height == t.height
            && |got.value.pixels| == Expected(t.width, t.height) <= MAX_FRAME_BYTES
            && after == t.(wire := after.wire) && after.wire.script == t.wire.script[1..]
            && after.wire.inbox == after.wire.partial == []
  {
    FrameExchange(t.wire, t.width, t.height);
    GoodRest(t.wire.script);
  }

  /** The payload check means width * height * 3 / 2 exactly when three times the pixels fit 64 bits. */
  lemma ExpectedIff(width: nat, height: nat)
    ensures Expected(width, height) == width * height * 3 / 2 <==> width * height * 3 < 0x1_0000_0000_0000_0000
  {
    var n := width * height * 3;
    var wrap := 0x1_0000_0000_0000_0000;
    if n >= wrap {
      assert n % wrap < wrap <= n;
      assert n % wrap == n - wrap * (n / wrap) && n / wrap >= 1;
      assert n % wrap <= n - wrap;
    }
  }

  /** What a capture of an even-sized stream delivers is a frame the pixel paths can read. */
  lemma CaptureFeedsPixels(t: Transport, owner: Owner)
    requires Inv(t) && Capture(t, owner).1.Some?
    requires t.width > 0 && t.height > 0 && t.width % 2 == 0 && t.height % 2 == 0
    requires t.width * t.height * 3 < 0x1_0000_0000_0000_0000
    ensures var p := Capture(t, owner).1.value; CameraPixels.IsNv12(CameraPixels.Frame(p.width, p.height, p.pixels))
  {
    CaptureIsExact(t, owner);
    ExpectedIff(t.width, t.height);
    Nv12Size(t.width, t.height);
  }

  lemma Nv12Size(width: nat, height: nat)
    requires height % 2 == 0
    ensures width * height * 3 / 2 == width * height + width * (height / 2)
  {
    var half := width * (height / 2);
    assert width * height == 2 * half;
  }

  /** A served exchange: the picture is returned exactly when the frame is acceptable, whatever the split. */
  lemma CaptureServed(t: Transport, owner: Owner)
    requires Inv(t) && t.fd && t.owner == Some(owner) && t.wire.partial == []
    requires t.wire.script != [] && t.wire.script[0].frame.Some?
    requires Live(t.wire.outputs, 6) && Live(t.wire.inputs, 36 + |t.wire.script[0].frame.value.pixels|)
    ensures IsFrame(t.wire.script[0].frame.value)
    ensures var h := DecodeFields(t.wire.script[0].frame.value.fields);
            Capture(t, owner).1.Some? <==>
              && h.format == 1 && h.width == h.stride == t.width && h.height == t.height
              && h.bytes == Expected(t.width, t.height) <= 32 * 1024 * 1024
    ensures Capture(t, owner).1.None? ==> !Capture(t, owner).0.fd
  {
    var f := t.wire.script[0].frame.value;
    GoodRest(t.wire.script);
    WriteServed(t.wire, FRAME + [LF], 0);
    LineDelivers(t.wire, FRAME);
    assert t.wire.partial + FRAME == FRAME;
    FrameServed(Write(t.wire, FRAME + [LF]).0, f, t.width, t.height);
  }

  /** A served line is read whole exactly when it is short enough. */
  lemma LineIsServed(w: Wire, text: seq<byte>)
    requires NoLine(text) && w.inbox == text + [LF] && Live(w.inputs, |text| + 1)
    ensures ReadLine(w, 512).1 == if |text| < 512 then Some(Stripped(text)) else None
  {
    LineTakes(w, text, 512);
    if |text| < 512 {
      LineServed(w, text, 512, 0);
    }
  }

  /** A served OPEN succeeds exactly when the bridge announces the requested stream. */
  lemma OpenServed(t: Transport, owner: Owner, facing: seq<byte>, width: nat, height: nat, scan: Scanner)
    requires Inv(t) && t.fd && t.owner.None? && NoLine(facing) && t.wire.script != []
    requires Stripped(t.wire.script[0].text) != CLOSED
    requires Live(t.wire.inputs, |t.wire.script[0].text| + 1)
    requires Live(t.wire.outputs, |OpenLine(facing, width, height)| + 1)
    ensures var (after, ok) := OpenCamera(t, owner, facing, width, height, scan);
            ok ==> scan(Stripped(t.wire.script[0].text)) == Some(Ready(facing, width, height, after.stride))
    ensures OpenCamera(t, owner, facing, width, height, scan).1 <==>
              && |t.wire.script[0].text| < 512
              && exists stride: nat :: stride >= width
                   && scan(Stripped(t.wire.script[0].text)) == Some(Ready(facing, width, height, stride))
  {
    var line := OpenLine(facing, width, height);
    GoodRest(t.wire.script);
    OpenLineIsOne(facing, width, height);
    WriteServed(t.wire, line + [LF], 0);
    LineDelivers(t.wire, line);
    assert t.wire.partial + line == line;
    var sent := Write(t.wire, line + [LF]).0;
    LineIsServed(sent, t.wire.script[0].text);
    if |t.wire.script[0].text| < 512 {
      var ready := scan(Stripped(t.wire.script[0].text));
      assert Matches(ready, facing, width, height) ==> ready == Some(Ready(facing, width, height, ready.value.stride));
    }
  }

  /** A served CLOSE succeeds exactly when the bridge answers CLOSED. */
  lemma CloseServed(t: Transport)
    requires Inv(t) && t.fd && t.owner.Some? && t.wire.partial == [] && t.wire.script != []
    requires Live(t.wire.inputs, |t.wire.script[0].text| + 1) && Live(t.wire.outputs, 6)
    ensures CloseCamera(t).1 <==> |t.wire.script[0].text| < 512 && Stripped(t.wire.script[0].text) == CLOSED
  {
    GoodRest(t.wire.script);
    CloseIsAnswered(t.wire);
    LineIsServed(Write(t.wire, CLOSE + [LF]).0, t.wire.script[0].text);
  }

  /** A served CLOSE gets out, and the next reply's text is on its way. */
  lemma CloseIsAnswered(w: Wire)
    requires w.inbox == [] && w.partial == [] && w.script != [] && Live(w.outputs, 6)
    ensures var (sent, ok) := Write(w, CLOSE + [LF]);
            ok && sent.inbox == w.script[0].text + [LF] && sent.inputs == w.inputs
  {
    WriteServed(w, CLOSE + [LF], 0);
    LineDelivers(w, CLOSE);
    assert w.partial + CLOSE == CLOSE;
  }

  /**
   * A FRAME whose write fails after some of its bytes leaves the bridge in the middle of a line without closing
   * the port; giving the camera up, or a capture that gets its line out, then closes the port.
   */
  lemma TornFrameHeals(t: Transport, owner: Owner)
    requires Inv(t) && t.owner == Some(owner) && t.wire.partial != []
    ensures !Release(t, owner).fd
    ensures Capture(t, owner).1.None?
    ensures Write(t.wire, FRAME + [LF]).1 ==> !Capture(t, owner).0.fd
  {
    CloseKeepsInv(t);
    FrameExchange(t.wire, t.width, t.height);
  }

  /**
   * The bridge is left inside a line exactly when the calls of the FRAME move some of its six bytes and then
   * fail, or move none and it was inside one before; then only the unfinished line grew.
   */
  lemma TornFrameIff(t: Transport, owner: Owner)
    requires Inv(t) && t.owner == Some(owner)
    ensures var after, d := Capture(t, owner).0, Delivered(t.wire.outputs, 6);
            && (after.fd && after.wire.partial != [] <==> d < 6 && (d > 0 || t.wire.partial != []))
            && (d < 6 ==> Capture(t, owner).1.None?
                          && after == t.(wire := t.wire.(partial := t.wire.partial + FRAME[..d],
                                                             outputs := after.wire.outputs)))
  {
    LineDelivers(t.wire, FRAME);
    FrameExchange(t.wire, t.width, t.height);
  }

  /** One short write followed by a failure tears a FRAME. */
  lemma TornFrame(t: Transport, owner: Owner, n: nat)
    requires Inv(t) && t.owner == Some(owner) && t.wire.partial == [] && t.wire.outputs == [Moved(n), Failed]
    requires 0 < n < 6
    ensures Capture(t, owner).1.None? && Capture(t, owner).0.fd && Capture(t, owner).0.wire.partial == FRAME[..n]
  {
    TornFrameIff(t, owner);
    assert t.wire.outputs[1..] == [Failed];
    assert Delivered(t.wire.outputs, 6) == n;
  }
}
