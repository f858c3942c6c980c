/**
 * The camera transport (SurfaceCamera.cpp): one port shared by two owners. Its calls run one at a time under
 * a lock; each is given as a function of the transport's state, the class's methods are proved to compute
 * those functions, and the protocol's promises are proved for every sequence of calls.
 */
module CameraTransport {
  import opened Wrappers
  import opened Bytes
  import opened CameraWire

  type Owner = nat

  /** What a READY line announces. */
  datatype Ready = Ready(facing: seq<byte>, width: nat, height: nat, stride: nat)

  type Scanner = seq<byte> -> Option<Ready>

  datatype Picture = Picture(width: nat, height: nat, stride: nat, sequence: nat, timestamp: nat, pixels: seq<byte>)

  /** The transport: whether the port is open, the owner and its stream, and the port. */
  datatype Transport = Transport(
    fd: bool, owner: Option<Owner>, facing: seq<byte>, width: nat, height: nat, stride: nat, wire: Wire)

  /** Payload size of an NV12 frame, as 64-bit arithmetic computes it. */
  function Expected(width: nat, height: nat): nat { width * height * 3 % 0x1_0000_0000_0000_0000 / 2 }

  /** Closing the port: both directions are emptied and the bridge closes what it had open. */
  function Hung(w: Wire): Wire { w.(partial := [], inbox := [], cameras := 0) }

  function Reset(t: Transport): Transport {
    Transport(false, None, [], 0, 0, 0, if t.fd then Hung(t.wire) else t.wire)
  }

  function CloseCamera(t: Transport): (Transport, bool) {
    if !t.fd || t.owner.None? then (t.(owner := None, facing := []), true)
    else
      var (w, written) := Write(t.wire, CLOSE + [LF]);
      if !written then (Reset(t.(wire := w)), false)
      else
        var (after, reply) := ReadLine(w, 512);
        if reply != Some(CLOSED) then (Reset(t.(wire := after)), false)
        else (Transport(true, None, [], 0, 0, 0, after), true)
  }

  /** A decimal number. */
  function Digits(n: nat): seq<byte> {
    if n < 10 then [48 + n] else Digits(n / 10) + [48 + n % 10]
  }

  function OpenLine(facing: seq<byte>, width: nat, height: nat): seq<byte> {
    OPEN + facing + [32] + Digits(width) + [32] + Digits(height)
  }

  predicate Matches(ready: Option<Ready>, facing: seq<byte>, width: nat, height: nat) {
    ready.Some? && ready.value.facing == facing && ready.value.width == width && ready.value.height == height
    && ready.value.stride >= width
  }

  /** OPEN and its READY, with the port open and no owner. */
  function OpenCamera(t: Transport, owner: Owner, facing: seq<byte>, width: nat, height: nat, scan: Scanner)
      : (Transport, bool) {
    var (w, written) := Write(t.wire, OpenLine(facing, width, height) + [LF]);
    if !written then (Reset(t.(wire := w)), false)
    else
      var (after, reply) := ReadLine(w, 512);
      if reply.None? || !Matches(scan(reply.value), facing, width, height) then (Reset(t.(wire := after)), false)
      else (Transport(true, Some(owner), facing, width, height, scan(reply.value).value.stride, after), true)
  }

  function Acquire(t: Transport, owner: Owner, facing: seq<byte>, width: nat, height: nat, available: bool,
      scan: Scanner)
    : (Transport, bool)
  {
    if t.owner == Some(owner) && t.facing == facing && t.width == width && t.height == height then (t, true)
    else if !t.fd && !available then (t, false)
    else
      var (closed, ok) := CloseCamera(t.(fd := true));
      if t.owner.Some? && !ok then (closed, false)
      else OpenCamera(if t.owner.Some? then closed else t.(fd := true), owner, facing, width, height, scan)
  }

  function Release(t: Transport, owner: Owner): Transport {
    if t.owner == Some(owner) then CloseCamera(t).0 else t
  }

  predicate Acceptable(h: Header, width: nat, height: nat) {
    h.format == 1 && h.width == width && h.height == height && h.stride == h.width
    && h.bytes == Expected(h.width, h.height) && h.bytes <= MAX_FRAME_BYTES
  }

  /** The reply to FRAME. */
  function ReadFrame(w: Wire, width: nat, height: nat): (Wire, Option<Picture>) {
    var (w1, magic) := Read(w, 4);
    if magic != Some(KCF1) then (w1, None)
    else
      var (w2, fields) := Read(w1, 32);
      if fields.None? then (w2, None)
      else
        var h := DecodeFields(fields.value);
        if !Acceptable(h, width, height) then (w2, None)
        else
          var (w3, pixels) := Read(w2, h.bytes);
          (w3, if pixels.None? then None
               else Some(Picture(h.width, h.height, h.stride, h.sequence, h.timestamp, pixels.value)))
  }

  function Capture(t: Transport, owner: Owner): (Transport, Option<Picture>) {
    if t.owner != Some(owner) || !t.fd then (t, None)
    else
      var (w, written) := Write(t.wire, FRAME + [LF]);
      if !written then (t.(wire := w), None)
      else
        var (after, picture) := ReadFrame(w, t.width, t.height);
        (if picture.None? then Reset(t.(wire := after)) else t.(wire := after), picture)
  }

  // ---- The class --------------------------------------------------------

  class SurfaceCameraTransport {
    var fd: bool
    var owner: Option<Owner>
    var facing: seq<byte>
    var width: nat
    var height: nat
    var stride: nat
    var wire: Wire

    ghost function View(): Transport
      reads this
    {
      Transport(fd, owner, facing, width, height, stride, wire)
    }

    constructor (port: Wire)
      ensures View() == Transport(false, None, [], 0, 0, 0, port)
    {
      fd, owner, facing, width, height, stride, wire := false, None, [], 0, 0, 0, port;
    }

    method WriteFully(data: seq<byte>) returns (ok: bool)
      modifies this`wire
      ensures (wire, ok) == Write(old(wire), data)
    {
      var cursor := 0;
      ghost var goal := Write(wire, data);
      assert data[0..] == data;
      while cursor < |data|
        invariant 0 <= cursor <= |data|
        invariant goal == Write(wire, data[cursor..])
        decreases |wire.outputs|
      {
        if wire.outputs == [] {
          return false;
        }
        var call := wire.outputs[0];
        wire := wire.(outputs := wire.outputs[1..]);
        if call.Failed? || call == Moved(0) {
          return false;
        }
        if call.Moved? {
          var written := Min(call.count, |data| - cursor);
          assert data[cursor..][..written] == data[cursor..cursor + written];
          assert data[cursor..][written..] == data[cursor + written..];
          wire := Arrive(wire, data[cursor..cursor + written]).(outputs := wire.outputs);
          cursor := cursor + written;
        }
      }
      return true;
    }

    method ReadFully(size: nat) returns (got: Option<seq<byte>>)
      modifies this`wire
      ensures (wire, got) == Read(old(wire), size)
    {
      var buffer: seq<byte> := [];
      ghost var goal := Read(wire, size);
      assert forall x: seq<byte> :: [] + x == x;
      while |buffer| < size
        invariant |buffer| <= size
        invariant goal.0 == Read(wire, size - |buffer|).0
        invariant goal.1 == if Read(wire, size - |buffer|).1.None? then None
                  else Some(buffer + Read(wire, size - |buffer|).1.value)
        decreases |wire.inputs|
      {
        if wire.inputs == [] {
          return None;
        }
        var call := wire.inputs[0];
        wire := wire.(inputs := wire.inputs[1..]);
        if call.Failed? {
          return None;
        }
        if call.Moved? {
          var received := Min(call.count, Min(size - |buffer|, |wire.inbox|));
          if received == 0 {
            return None;
          }
          assert forall x: seq<byte> :: buffer + (wire.inbox[..received] + x) == buffer + wire.inbox[..received] + x;
          buffer := buffer + wire.inbox[..received];
          wire := wire.(inbox := wire.inbox[received..]);
        }
      }
      assert buffer + [] == buffer;
      return Some(buffer);
    }

    method ReadLineFully() returns (line: Option<seq<byte>>)
      modifies this`wire
      ensures (wire, line) == ReadLine(old(wire), 512)
    {
      var text: seq<byte> := [];
      var left := 512;
      ghost var goal := ReadLine(wire, left);
      assert forall x: seq<byte> :: [] + x == x;
      while left > 0
        invariant goal.0 == ReadLine(wire, left).0
        invariant goal.1 == if ReadLine(wire, left).1.None? then None else Some(text + ReadLine(wire, left).1.value)
      {
        var ch := ReadFully(1);
        if ch.None? {
          return None;
        }
        if ch.value[0] == LF {
          assert text + [] == text;
          return Some(text);
        }
        var more := if ch.value[0] == CR then [] else ch.value;
        assert forall x: seq<byte> :: text + (more + x) == text + more + x;
        text := text + more;
        left := left - 1;
      }
      return None;
    }

    method ResetLocked()
      modifies this
      ensures View() == Reset(old(View()))
    {
      if fd {
        wire := Hung(wire);
      }
      fd, owner, facing, width, height, stride := false, None, [], 0, 0, 0;
    }

    method CloseCameraLocked() returns (ok: bool)
      modifies this
      ensures (View(), ok) == CloseCamera(old(View()))
    {
      if !fd || owner.None? {
        owner, facing := None, [];
        return true;
      }
      ok := WriteFully(CLOSE + [LF]);
      if ok {
        var reply := ReadLineFully();
        ok := reply == Some(CLOSED);
      }
      if !ok {
        ResetLocked();
      } else {
        owner, facing, width, height, stride := None, [], 0, 0, 0;
      }
    }

    /** `available`: the port appears and opens when it has to be opened. */
    method AcquireFor(who: Owner, side: seq<byte>, w: nat, h: nat, available: bool, scan: Scanner) returns (ok: bool)
      modifies this
      ensures (View(), ok) == Acquire(old(View()), who, side, w, h, available, scan)
    {
      if owner == Some(who) && facing == side && width == w && height == h {
        return true;
      }
      if !fd {
        if !available {
          return false;
        }
        fd := true;
      }
      if owner.Some? {
        ok := CloseCameraLocked();
        if !ok {
          return;
        }
      }
      ghost var opening := View();
      ok := WriteFully(OpenLine(side, w, h) + [LF]);
      if !ok {
        ResetLocked();
        return;
      }
      var reply := ReadLineFully();
      if reply.None? || !Matches(scan(reply.value), side, w, h) {
        ResetLocked();
        return false;
      }
      owner, facing, width, height, stride := Some(who), side, w, h, scan(reply.value).value.stride;
      return true;
    }

    method ReleaseFor(who: Owner)
      modifies this
      ensures View() == Release(old(View()), who)
    {
      if owner == Some(who) {
        var _ := CloseCameraLocked();
      }
    }

    method CaptureFor(who: Owner) returns (picture: Option<Picture>)
      modifies this
      ensures (View(), picture) == Capture(old(View()), who)
    {
      if owner != Some(who) || !fd {
        return None;
      }
      var ok := WriteFully(FRAME + [LF]);
      if !ok {
        return None;
      }
      picture := None;
      var magic := ReadFully(4);
      if magic == Some(KCF1) {
        var fields := ReadFully(32);
        if fields.Some? {
          var h := DecodeFields(fields.value);
          if Acceptable(h, width, height) {
            var pixels := ReadFully(h.bytes);
            if pixels.Some? {
              picture := Some(Picture(h.width, h.height, h.stride, h.sequence, h.timestamp, pixels.value));
            }
          }
        }
      }
      if picture.None? {
        ResetLocked();
      }
    }
  }
}
