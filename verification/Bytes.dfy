/** Byte strings, their little-endian and big-endian numbers, and concatenation. */
module Bytes {
  type byte = x: int | 0 <= x < 256

  /** The bytes of an ASCII text; other characters become question marks. */
  function Ascii(text: string): seq<byte> {
    seq(|text|, i requires 0 <= i < |text| => if text[i] as int < 128 then text[i] as int else 0x3f)
  }

  /** The little-endian number in s[lo..hi]. */
  function LittleEndian(s: seq<byte>, lo: nat, hi: nat): nat
    requires lo <= hi <= |s|
    decreases hi - lo
  {
    if lo == hi then 0 else s[lo] + 256 * LittleEndian(s, lo + 1, hi)
  }

  /** The big-endian number in s[lo..hi]. */
  function BigEndian(s: seq<byte>, lo: nat, hi: nat): nat
    requires lo <= hi <= |s|
    decreases hi - lo
  {
    if lo == hi then 0 else 256 * BigEndian(s, lo, hi - 1) + s[hi - 1]
  }

  /** The little-endian field of `width` bytes at `at`. */
  function Num(s: seq<byte>, at: nat, width: nat): nat
    requires at + width <= |s|
  {
    LittleEndian(s, at, at + width)
  }

  /** A little-endian field of `width` bytes; higher bytes of `n` are dropped. */
  function LeBytes(n: nat, width: nat): (s: seq<byte>)
    ensures |s| == width
  {
    if width == 0 then [] else [n % 256] + LeBytes(n / 256, width - 1)
  }

  function BeBytes(n: nat, width: nat): (s: seq<byte>)
    ensures |s| == width
  {
    if width == 0 then [] else BeBytes(n / 256, width - 1) + [n % 256]
  }

  function Power256(width: nat): nat {
    if width == 0 then 1 else 256 * Power256(width - 1)
  }

  /** The most significant byte of a field comes last. */
  lemma {:induction false} LittleEndianAppend(s: seq<byte>, lo: nat, hi: nat)
    requires lo <= hi < |s|
    ensures LittleEndian(s, lo, hi + 1) == LittleEndian(s, lo, hi) + s[hi] * Power256(hi - lo)
    decreases hi - lo
  {
    if lo != hi {
      LittleEndianAppend(s, lo + 1, hi);
      assert 256 * (s[hi] * Power256(hi - lo - 1)) == s[hi] * Power256(hi - lo);
    }
  }

  lemma {:induction false} LittleEndianBound(s: seq<byte>, lo: nat, hi: nat)
    requires lo <= hi <= |s|
    ensures LittleEndian(s, lo, hi) < Power256(hi - lo)
    decreases hi - lo
  {
    if lo != hi {
      LittleEndianBound(s, lo + 1, hi);
    }
  }

  /** Reading back a little-endian field where it was written. */
  lemma {:induction false} LittleEndianOfBytes(s: seq<byte>, lo: nat, hi: nat, n: nat)
    requires lo <= hi <= |s| && n < Power256(hi - lo)
    requires s[lo..hi] == LeBytes(n, hi - lo)
    ensures LittleEndian(s, lo, hi) == n
    decreases hi - lo
  {
    if lo != hi {
      assert s[lo..hi] == [s[lo]] + s[lo + 1..hi];
      assert LeBytes(n, hi - lo)[1..] == LeBytes(n / 256, hi - lo - 1);
      LittleEndianOfBytes(s, lo + 1, hi, n / 256);
    }
  }

  /** Writing back a little-endian field gives its bytes. */
  lemma {:induction false} BytesOfLittleEndian(s: seq<byte>, lo: nat, hi: nat)
    requires lo <= hi <= |s|
    ensures LeBytes(LittleEndian(s, lo, hi), hi - lo) == s[lo..hi]
    decreases hi - lo
  {
    if lo != hi {
      BytesOfLittleEndian(s, lo + 1, hi);
      assert s[lo..hi] == [s[lo]] + s[lo + 1..hi];
    }
  }

  /** A field read from equal bytes elsewhere. */
  lemma {:induction false} LittleEndianMoved(s: seq<byte>, lo: nat, hi: nat, t: seq<byte>, at: nat)
    requires lo <= hi <= |s| && at + (hi - lo) <= |t|
    requires s[lo..hi] == t[at..at + (hi - lo)]
    ensures LittleEndian(s, lo, hi) == LittleEndian(t, at, at + (hi - lo))
    decreases hi - lo
  {
    if lo != hi {
      assert s[lo] == s[lo..hi][0] && t[at] == t[at..at + (hi - lo)][0];
      assert s[lo + 1..hi] == s[lo..hi][1..] && t[at + 1..at + (hi - lo)] == t[at..at + (hi - lo)][1..];
      LittleEndianMoved(s, lo + 1, hi, t, at + 1);
    }
  }

  lemma {:induction false} BigEndianOfBytes(s: seq<byte>, lo: nat, hi: nat, n: nat)
    requires lo <= hi <= |s| && n < Power256(hi - lo)
    requires s[lo..hi] == BeBytes(n, hi - lo)
    ensures BigEndian(s, lo, hi) == n
    decreases hi - lo
  {
    if lo != hi {
      assert s[lo..hi] == s[lo..hi - 1] + [s[hi - 1]];
      assert BeBytes(n, hi - lo)[..hi - lo - 1] == BeBytes(n / 256, hi - lo - 1);
      assert s[lo..hi][..hi - lo - 1] == s[lo..hi - 1];
      BigEndianOfBytes(s, lo, hi - 1, n / 256);
    }
  }

  lemma {:induction false} BytesOfBigEndian(s: seq<byte>, lo: nat, hi: nat)
    requires lo <= hi <= |s|
    ensures BeBytes(BigEndian(s, lo, hi), hi - lo) == s[lo..hi]
    decreases hi - lo
  {
    if lo != hi {
      BytesOfBigEndian(s, lo, hi - 1);
      assert s[lo..hi] == s[lo..hi - 1] + [s[hi - 1]];
    }
  }

  lemma Widths()
    ensures Power256(1) == 0x100 && Power256(2) == 0x1_0000 && Power256(4) == 0x1_0000_0000
    ensures Power256(8) == 0x1_0000_0000_0000_0000
  {
    assert Power256(3) == 256 * Power256(2);
    assert Power256(5) == 256 * Power256(4);
    assert Power256(6) == 256 * Power256(5);
    assert Power256(7) == 256 * Power256(6);
  }

  function Flatten(parts: seq<seq<byte>>): seq<byte> {
    if parts == [] then [] else parts[0] + Flatten(parts[1..])
  }

  lemma Associates(a: seq<byte>, b: seq<byte>, c: seq<byte>)
    ensures a + (b + c) == a + b + c
  {
  }

  lemma {:induction false} FlattenAppend(a: seq<seq<byte>>, b: seq<seq<byte>>)
    ensures Flatten(a + b) == Flatten(a) + Flatten(b)
    decreases |a|
  {
    if a == [] {
      assert a + b == b;
    } else {
      FlattenAppend(a[1..], b);
      assert (a + b)[1..] == a[1..] + b;
      Associates(a[0], Flatten(a[1..]), Flatten(b));
    }
  }

  lemma FlattenOne(part: seq<byte>)
    ensures Flatten([part]) == part
  {
    assert [part][1..] == [];
  }

  lemma FlattenNext(parts: seq<seq<byte>>, k: nat)
    requires k < |parts|
    ensures Flatten(parts[..k + 1]) == Flatten(parts[..k]) + parts[k]
  {
    assert parts[..k + 1] == parts[..k] + [parts[k]];
    FlattenAppend(parts[..k], [parts[k]]);
    FlattenOne(parts[k]);
  }

  /** Part `k` of a concatenation stands between the parts before and after it. */
  lemma FlattenSplit(parts: seq<seq<byte>>, k: nat)
    requires k < |parts|
    ensures Flatten(parts) == Flatten(parts[..k]) + parts[k] + Flatten(parts[k + 1..])
    ensures Flatten(parts[..k + 1]) == Flatten(parts[..k]) + parts[k]
  {
    assert parts == parts[..k + 1] + parts[k + 1..];
    FlattenAppend(parts[..k + 1], parts[k + 1..]);
    FlattenNext(parts, k);
  }
}
