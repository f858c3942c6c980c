/**
 * The virtio port between the camera client and the host bridge (SurfaceCamera.cpp): a byte stream whose
 * reads and writes may be short, interrupted or fail, and a bridge that answers each line it receives.
 */
module CameraWire {
  import opened Wrappers
  import opened Bytes
  import opened CameraRequest

  const LF: byte := 10
  const CR: byte := 13
  /** "CLOSE", "CLOSED", "FRAME", "OPEN ", "KCF1" and "ERROR". */
  const CLOSE: seq<byte> := [67, 76, 79, 83, 69]
  const CLOSED: seq<byte> := [67, 76, 79, 83, 69, 68]
  const FRAME: seq<byte> := [70, 82, 65, 77, 69]
  const OPEN: seq<byte> := [79, 80, 69, 78, 32]
  const KCF1: seq<byte> := [75, 67, 70, 49]
  const ERROR: seq<byte> := [69, 82, 82, 79, 82]

  lemma WordsAreText()
    ensures CLOSE == Ascii("CLOSE") && CLOSED == Ascii("CLOSED") && FRAME == Ascii("FRAME") && OPEN == Ascii("OPEN ")
    ensures KCF1 == Ascii("KCF1") && ERROR == Ascii("ERROR")
  {
  }

  const MAX_FRAME_BYTES := 0x200_0000

  type Word = x: nat | x < 0x1_0000_0000
  type DoubleWord = x: nat | x < 0x1_0000_0000_0000_0000

  // ---- The frame header -------------------------------------------------

  datatype Header = Header(width: Word, height: Word, stride: Word, format: Word, sequence: Word,
      timestamp: DoubleWord, bytes: Word)

  /** The 32 bytes that follow the magic; every field is big-endian. */
  function EncodeFields(h: Header): (s: seq<byte>)
    ensures |s| == 32
  {
    EncodeWith(h, |KCF1|)
  }

  function EncodeWith(h: Header, word: nat): (s: seq<byte>)
    ensures |s| == 8 * word
  {
    BeBytes(h.width, word) + BeBytes(h.height, word) + BeBytes(h.stride, word) + BeBytes(h.format, word)
    + BeBytes(h.sequence, word) + BeBytes(h.timestamp, 2 * word) + BeBytes(h.bytes, word)
  }

  function BeWord(s: seq<byte>, at: nat): (n: Word)
    requires at + 4 <= |s|
  {
    BigEndianBound(s, at, at + 4);
    Widths();
    BigEndian(s, at, at + 4)
  }

  /** The fields as the client decodes them from the 32 bytes after the magic. */
  function DecodeFields(s: seq<byte>): Header
    requires |s| == 32
  {
    DecodeAt(s, |s| - 32)
  }

  function DecodeAt(s: seq<byte>, at: nat): Header
    requires at + 32 <= |s|
  {
    BigEndianBound(s, at + 20, at + 28);
    Widths();
    Header(BeWord(s, at), BeWord(s, at + 4), BeWord(s, at + 8), BeWord(s, at + 12), BeWord(s, at + 16),
           BigEndian(s, at + 20, at + 28), BeWord(s, at + 28))
  }

  lemma {:induction false} BigEndianBound(s: seq<byte>, lo: nat, hi: nat)
    requires lo <= hi <= |s|
    ensures BigEndian(s, lo, hi) < Power256(hi - lo)
    decreases hi - lo
  {
    if lo != hi {
      BigEndianBound(s, lo, hi - 1);
    }
  }

  lemma BeWordOfBytes(s: seq<byte>, at: nat, n: Word, word: nat)
    requires word == 4 && at + 4 <= |s| && s[at..at + 4] == BeBytes(n, word)
    ensures BeWord(s, at) == n
  {
    Widths();
    BigEndianOfBytes(s, at, at + 4, n);
  }

  /** Seven fields, one of them twice as long, are the slices of what they make up. */
  lemma SevenSlices(s: seq<byte>, a: seq<byte>, b: seq<byte>, c: seq<byte>, d: seq<byte>, e: seq<byte>, f: seq<byte>,
      g: seq<byte>)
    requires |a| == |b| == |c| == |d| == |e| == |g| == 4 && |f| == 8 && s == a + b + c + d + e + f + g
    ensures |s| == 32 && s[0..4] == a && s[4..8] == b && s[8..12] == c && s[12..16] == d && s[16..20] == e
    ensures s[20..28] == f && s[28..32] == g
  {
  }

  /** Decoding a header inverts its encoding. */
  lemma HeaderRoundTrip(h: Header)
    ensures DecodeFields(EncodeFields(h)) == h
  {
    var s, word := EncodeFields(h), |KCF1|;
    SevenSlices(s, BeBytes(h.width, word), BeBytes(h.height, word), BeBytes(h.stride, word), BeBytes(h.format, word),
                BeBytes(h.sequence, word), BeBytes(h.timestamp, 2 * word), BeBytes(h.bytes, word));
    BeWordOfBytes(s, 0, h.width, word);
    BeWordOfBytes(s, 4, h.height, word);
    BeWordOfBytes(s, 8, h.stride, word);
    BeWordOfBytes(s, 12, h.format, word);
    BeWordOfBytes(s, 16, h.sequence, word);
    Widths();
    BigEndianOfBytes(s, 20, 28, h.timestamp);
    BeWordOfBytes(s, 28, h.bytes, word);
  }

  lemma BytesOfBeWord(s: seq<byte>, at: nat, word: nat)
    requires word == 4 && at + 4 <= |s|
    ensures BeBytes(BeWord(s, at), word) == s[at..at + 4]
  {
    BytesOfBigEndian(s, at, at + 4);
  }

  lemma JoinSlices(s: seq<byte>)
    requires |s| == 32
    ensures s == s[0..4] + s[4..8] + s[8..12] + s[12..16] + s[16..20] + s[20..28] + s[28..32]
  {
  }

  lemma DecodedBytes(s: seq<byte>, h: Header, word: nat)
    requires |s| == 32 && h == DecodeFields(s) && word == 4
    ensures BeBytes(h.width, word) == s[0..4] && BeBytes(h.height, word) == s[4..8]
    ensures BeBytes(h.stride, word) == s[8..12] && BeBytes(h.format, word) == s[12..16]
    ensures BeBytes(h.sequence, word) == s[16..20] && BeBytes(h.timestamp, 2 * word) == s[20..28]
    ensures BeBytes(h.bytes, word) == s[28..32]
  {
    BytesOfBeWord(s, 0, word);
    BytesOfBeWord(s, 4, word);
    BytesOfBeWord(s, 8, word);
    BytesOfBeWord(s, 12, word);
    BytesOfBeWord(s, 16, word);
    BytesOfBigEndian(s, 20, 28);
    BytesOfBeWord(s, 28, word);
  }

  /** Encoding a decoded header gives its bytes back: no two byte strings decode alike. */
  lemma BytesRoundTrip(s: seq<byte>)
    requires |s| == 32
    ensures EncodeFields(DecodeFields(s)) == s
  {
    DecodedBytes(s, DecodeFields(s), |KCF1|);
    JoinSlices(s);
  }

  // ---- The bridge -------------------------------------------------------

  /** A frame as the bridge sends it: 32 bytes of fields, and as many payload bytes as those declare. */
  datatype Frame = Frame(fields: seq<byte>, pixels: seq<byte>)

  predicate IsFrame(f: Frame) { |f.fields| == 32 && DecodeFields(f.fields).bytes == |f.pixels| }

  predicate NoLine(s: seq<byte>) { forall i :: 0 <= i < |s| ==> s[i] != LF }

  /** A reply line: no newline inside it, and not mistakable for a frame. */
  predicate IsText(s: seq<byte>) { NoLine(s) && !(KCF1 <= s) }

  /**
   * What the bridge does with the next line: the text it answers, whether an OPEN opens a camera (whatever the
   * text says), and the frame with which it answers FRAME, if any.
   */
  datatype Reply = Reply(text: seq<byte>, opens: bool, frame: Option<Frame>)

  predicate IsReply(r: Reply) {
    IsText(r.text) && (r.frame.Some? ==> IsFrame(r.frame.value))
  }

  /** What one read or write call does: moves some bytes, is interrupted, or fails; moving none is a failure too. */
  datatype Io = Moved(count: nat) | Interrupted | Failed

  /**
   * The open port: calls to come, the unfinished line the bridge holds, bytes not read yet, replies to come,
   * cameras the bridge has open, the stream the latest of them was opened for, and whether an OPEN ever reached
   * it with a camera open.
   */
  datatype Wire = Wire(
    inputs: seq<Io>, outputs: seq<Io>, partial: seq<byte>, inbox: seq<byte>, script: seq<Reply>, cameras: nat,
    asked: Option<Stream>, clash: bool)

  /** A line as the client sees it. */
  function Stripped(s: seq<byte>): seq<byte> {
    if s == [] then [] else (if s[0] == CR then [] else [s[0]]) + Stripped(s[1..])
  }

  /** Exactly the carriage returns are gone, wherever they stood. */
  lemma {:induction false} StrippedHasNone(a: seq<byte>)
    ensures CR !in Stripped(a) && (CR !in a ==> Stripped(a) == a)
  {
    if a != [] {
      StrippedHasNone(a[1..]);
      assert a == [a[0]] + a[1..];
    }
  }

  lemma {:induction false} StrippedJoins(a: seq<byte>, b: seq<byte>)
    ensures Stripped(a + b) == Stripped(a) + Stripped(b)
    decreases |a|
  {
    if a == [] {
      assert a + b == b;
    } else {
      var first := if a[0] == CR then [] else [a[0]];
      StrippedJoins(a[1..], b);
      assert (a + b)[0] == a[0] && (a + b)[1..] == a[1..] + b;
      assert Stripped(a) == first + Stripped(a[1..]) && Stripped(a + b) == first + Stripped(a[1..] + b);
      Associates(first, Stripped(a[1..]), Stripped(b));
    }
  }

  function Answer(r: Reply, line: seq<byte>): seq<byte> {
    if line == FRAME && r.frame.Some? then KCF1 + r.frame.value.fields + r.frame.value.pixels
    else if line != CLOSE && Stripped(r.text) == CLOSED then ERROR + [LF]
    else r.text + [LF]
  }

  /** The bridge receives a whole line; once its script ends it no longer answers. */
  function Receive(w: Wire, line: seq<byte>): Wire {
    if w.script == [] then w
    else
      var r := w.script[0];
      w.(script := w.script[1..], inbox := w.inbox + Answer(r, line),
         clash := w.clash || (OPEN <= line && w.cameras > 0),
         cameras := if OPEN <= line && r.opens then w.cameras + 1
                    else if line == CLOSE && Stripped(r.text) == CLOSED then 0 else w.cameras,
         asked := if OPEN <= line && r.opens then Requested(line) else w.asked)
  }

  /** Bytes arrive at the bridge. */
  function Arrive(w: Wire, data: seq<byte>): Wire
    decreases |data|
  {
    if data == [] then w
    else if data[0] == LF then Arrive(Receive(w.(partial := []), w.partial), data[1..])
    else Arrive(w.(partial := w.partial + [data[0]]), data[1..])
  }

  function Min(a: nat, b: nat): nat { if a < b then a else b }

  /** writeFully: whether all of `data` was written, and the port afterwards. */
  function Write(w: Wire, data: seq<byte>): (Wire, bool)
    decreases |w.outputs|
  {
    if data == [] then (w, true)
    else if w.outputs == [] then (w, false)
    else
      var next := w.(outputs := w.outputs[1..]);
      match w.outputs[0]
      case Interrupted => Write(next, data)
      case Failed => (next, false)
      case Moved(k) =>
        if k == 0 then (next, false)
        else var n := Min(k, |data|); Write(Arrive(next, data[..n]).(outputs := next.outputs), data[n..])
  }

  /** readFully: the next `n` bytes if all of them were read, and the port afterwards. */
  function Read(w: Wire, n: nat): (r: (Wire, Option<seq<byte>>))
    ensures r.1.Some? ==> |r.1.value| == n
    decreases |w.inputs|
  {
    if n == 0 then (w, Some([]))
    else if w.inputs == [] then (w, None)
    else
      var next := w.(inputs := w.inputs[1..]);
      match w.inputs[0]
      case Interrupted => Read(next, n)
      case Failed => (next, None)
      case Moved(k) =>
        var m := Min(k, Min(n, |w.inbox|));
        if m == 0 then (next, None)
        else
          var (after, rest) := Read(next.(inbox := w.inbox[m..]), n - m);
          (after, if rest.Some? then Some(w.inbox[..m] + rest.value) else None)
  }

  /** readLine with `left` characters to go. */
  function ReadLine(w: Wire, left: nat): (Wire, Option<seq<byte>>)
    decreases left
  {
    if left == 0 then (w, None)
    else
      var (next, b) := Read(w, 1);
      if b.None? then (next, None)
      else if b.value[0] == LF then (next, Some([]))
      else
        var (after, rest) := ReadLine(next, left - 1);
        (after, if rest.Some? then Some((if b.value[0] == CR then [] else b.value) + rest.value) else None)
  }

  // ---- Whatever the split into calls ------------------------------------

  /** Whole or not, a read takes a prefix of what was sent, in order, and touches nothing else. */
  lemma {:induction false} ReadTakes(w: Wire, n: nat) returns (k: nat)
    ensures var (after, got) := Read(w, n);
            && k <= |w.inbox| && after == w.(inputs := after.inputs, inbox := w.inbox[k..])
            && (got.Some? ==> k == n && got.value == w.inbox[..n])
    decreases |w.inputs|
  {
    k := 0;
    if n != 0 && w.inputs != [] {
      var next := w.(inputs := w.inputs[1..]);
      match w.inputs[0]
      case Interrupted => k := ReadTakes(next, n);
      case Failed =>
      case Moved(count) =>
        var m := Min(count, Min(n, |w.inbox|));
        if m != 0 {
          var j := ReadTakes(next.(inbox := w.inbox[m..]), n - m);
          k := m + j;
          assert w.inbox[m..][j..] == w.inbox[k..];
          assert n <= |w.inbox| ==> w.inbox[..m] + w.inbox[m..][..n - m] == w.inbox[..n];
        }
    }
  }

  /** A line read whole is the text sent, without carriage returns; it is consumed with its newline. */
  lemma {:induction false} LineTakes(w: Wire, text: seq<byte>, left: nat)
    requires NoLine(text) && w.inbox == text + [LF]
    ensures var (after, got) := ReadLine(w, left);
            && after == w.(inputs := after.inputs, inbox := after.inbox)
            && (got.Some? ==> got.value == Stripped(text) && after.inbox == [] && |text| < left)
    decreases left
  {
    if left != 0 {
      var (next, b) := Read(w, 1);
      var k := ReadTakes(w, 1);
      if b.Some? {
        assert b.value == [w.inbox[0]] && next.inbox == w.inbox[1..];
        if text == [] {
          assert w.inbox[0] == LF && w.inbox[1..] == [];
        } else {
          assert w.inbox[0] == text[0] && w.inbox[1..] == text[1..] + [LF];
          LineTakes(next, text[1..], left - 1);
        }
      }
    }
  }

  lemma {:induction false} ArriveText(w: Wire, data: seq<byte>)
    requires NoLine(data)
    ensures Arrive(w, data) == w.(partial := w.partial + data)
    decreases |data|
  {
    if data == [] {
      assert w.partial + data == w.partial;
    } else {
      ArriveText(w.(partial := w.partial + [data[0]]), data[1..]);
      assert w.partial + [data[0]] + data[1..] == w.partial + data;
    }
  }

  lemma {:induction false} ArriveJoin(w: Wire, a: seq<byte>, b: seq<byte>)
    ensures Arrive(Arrive(w, a), b) == Arrive(w, a + b)
    decreases |a|
  {
    if a == [] {
      assert a + b == b;
    } else {
      assert (a + b)[0] == a[0] && (a + b)[1..] == a[1..] + b;
      if a[0] == LF {
        ArriveJoin(Receive(w.(partial := []), w.partial), a[1..], b);
      } else {
        ArriveJoin(w.(partial := w.partial + [a[0]]), a[1..], b);
      }
    }
  }

  lemma {:induction false} ArriveIgnoresOutputs(w: Wire, data: seq<byte>, outputs: seq<Io>)
    ensures Arrive(w.(outputs := outputs), data) == Arrive(w, data).(outputs := outputs)
    decreases |data|
  {
    if data != [] {
      if data[0] == LF {
        assert Receive(w.(outputs := outputs, partial := []), w.partial)
            == Receive(w.(partial := []), w.partial).(outputs := outputs);
        ArriveIgnoresOutputs(Receive(w.(partial := []), w.partial), data[1..], outputs);
      } else {
        ArriveIgnoresOutputs(w.(partial := w.partial + [data[0]]), data[1..], outputs);
      }
    }
  }

  /** Two pieces of a write arrive like one; the calls to come play no part in it. */
  lemma ArriveTwice(w: Wire, outputs: seq<Io>, data: seq<byte>, n: nat, j: nat)
    requires n + j <= |data|
    ensures Arrive(Arrive(w.(outputs := outputs), data[..n]).(outputs := outputs), data[n..][..j])
            == Arrive(w, data[..n + j]).(outputs := outputs)
  {
    var first, second := data[..n], data[n..][..j];
    ArriveIgnoresOutputs(w, first, outputs);
    ArriveIgnoresOutputs(Arrive(w, first), second, outputs);
    ArriveJoin(w, first, second);
    assert first + second == data[..n + j];
  }

  /** How many of `n` bytes the calls move before the first failure. */
  function Delivered(outputs: seq<Io>, n: nat): (k: nat)
    ensures k <= n
    decreases |outputs|
  {
    if n == 0 || outputs == [] then 0
    else match outputs[0]
      case Interrupted => Delivered(outputs[1..], n)
      case Failed => 0
      case Moved(k) => if k == 0 then 0 else Min(k, n) + Delivered(outputs[1..], n - Min(k, n))
  }

  /** Whatever the split, a write delivers exactly the bytes moved before a failure; it succeeds when that is all. */
  lemma {:induction false} WriteDelivers(w: Wire, data: seq<byte>)
    ensures var (after, ok), k := Write(w, data), Delivered(w.outputs, |data|);
            (ok <==> k == |data|) && after == Arrive(w, data[..k]).(outputs := after.outputs)
    decreases |w.outputs|
  {
    if data == [] || w.outputs == [] || w.outputs[0].Failed? || w.outputs[0] == Moved(0) {
      assert data[..0] == [];
    } else {
      var next := w.(outputs := w.outputs[1..]);
      match w.outputs[0]
      case Interrupted =>
        WriteDelivers(next, data);
        ArriveIgnoresOutputs(w, data[..Delivered(next.outputs, |data|)], next.outputs);
      case Moved(count) =>
        var n := Min(count, |data|);
        var rest, j := data[n..], Delivered(next.outputs, |data| - n);
        WriteDelivers(Arrive(next, data[..n]).(outputs := next.outputs), rest);
        ArriveTwice(w, next.outputs, data, n, j);
    }
  }

  /** A line written whole is received as one line; a failed one leaves what was moved as an unfinished line. */
  lemma LineDelivers(w: Wire, line: seq<byte>)
    requires NoLine(line)
    ensures var (after, ok), k := Write(w, line + [LF]), Delivered(w.outputs, |line| + 1);
            && (ok <==> k == |line| + 1)
            && after == if ok then Receive(w.(partial := []), w.partial + line).(outputs := after.outputs)
                        else w.(partial := w.partial + line[..k], outputs := after.outputs)
  {
    var data, k := line + [LF], Delivered(w.outputs, |line| + 1);
    WriteDelivers(w, data);
    if k == |data| {
      assert data[..k] == data;
      ArriveText(w, line);
      ArriveJoin(w, line, [LF]);
      var full := w.(partial := w.partial + line);
      assert Arrive(full, [LF]) == Arrive(Receive(full.(partial := []), full.partial), []);
    } else {
      assert data[..k] == line[..k];
      ArriveText(w, line[..k]);
    }
  }

  // ---- Service ----------------------------------------------------------

  /** Interruptions apart, the next `n` calls each move something. */
  predicate Live(ios: seq<Io>, n: nat)
    decreases |ios|
  {
    n == 0 || (ios != [] && match ios[0]
                            case Interrupted => Live(ios[1..], n)
                            case Failed => false
                            case Moved(k) => k > 0 && Live(ios[1..], n - 1))
  }

  lemma {:induction false} LiveLess(ios: seq<Io>, n: nat, m: nat)
    requires Live(ios, n) && m <= n
    ensures Live(ios, m)
    decreases |ios|
  {
    if m != 0 {
      if ios[0].Interrupted? {
        LiveLess(ios[1..], n, m);
      } else {
        LiveLess(ios[1..], n - 1, m - 1);
      }
    }
  }

  /** With enough live calls and enough bytes, a read is served, and later inputs stay as live. */
  lemma {:induction false} ReadServed(w: Wire, n: nat, more: nat)
    requires n <= |w.inbox| && Live(w.inputs, n + more)
    ensures var (after, got) := Read(w, n); got.Some? && Live(after.inputs, more)
    decreases |w.inputs|
  {
    if n != 0 {
      var next := w.(inputs := w.inputs[1..]);
      match w.inputs[0]
      case Interrupted => ReadServed(next, n, more);
      case Moved(count) =>
        var m := Min(count, Min(n, |w.inbox|));
        LiveLess(next.inputs, n + more - 1, n - m + more);
        ReadServed(next.(inbox := w.inbox[m..]), n - m, more);
    }
  }

  lemma {:induction false} LineServed(w: Wire, text: seq<byte>, left: nat, more: nat)
    requires NoLine(text) && w.inbox == text + [LF] && |text| < left && Live(w.inputs, |text| + 1 + more)
    ensures var (after, got) := ReadLine(w, left); got.Some? && Live(after.inputs, more)
    decreases left
  {
    var (next, b) := Read(w, 1);
    ReadServed(w, 1, |text| + more);
    var k := ReadTakes(w, 1);
    if text == [] {
      assert w.inbox[0] == LF;
    } else {
      assert w.inbox[0] == text[0] && w.inbox[1..] == text[1..] + [LF];
      LineServed(next, text[1..], left - 1, more);
    }
  }

  lemma {:induction false} WriteServed(w: Wire, data: seq<byte>, more: nat)
    requires Live(w.outputs, |data| + more)
    ensures var (after, ok) := Write(w, data); ok && Live(after.outputs, more)
    decreases |w.outputs|
  {
    if data != [] {
      var next := w.(outputs := w.outputs[1..]);
      match w.outputs[0]
      case Interrupted => WriteServed(next, data, more);
      case Moved(count) =>
        var n := Min(count, |data|);
        LiveLess(next.outputs, |data| + more - 1, |data| - n + more);
        WriteServed(Arrive(next, data[..n]).(outputs := next.outputs), data[n..], more);
    }
  }
}
