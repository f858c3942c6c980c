/** Valid byte sequences against the encoding of code points (section 3 of RFC 3629). */
module Utf8Scalars {
  import opened Bytes
  import opened Utf8

  /** A code point that is no surrogate. */
  predicate Scalar(c: nat) { c < 0xd800 || 0xe000 <= c < 0x11_0000 }

  function Encoded(c: nat): (s: seq<byte>)
    requires Scalar(c)
    ensures 1 <= |s| <= 4
  {
    if c < 0x80 then [c]
    else if c < 0x800 then [0xc0 + c / 64, 0x80 + c % 64]
    else if c < 0x1_0000 then [0xe0 + c / 4096, 0x80 + c / 64 % 64, 0x80 + c % 64]
    else [0xf0 + c / 262144, 0x80 + c / 4096 % 64, 0x80 + c / 64 % 64, 0x80 + c % 64]
  }

  predicate Scalars(cs: seq<nat>) { forall i :: 0 <= i < |cs| ==> Scalar(cs[i]) }

  function Text(cs: seq<nat>): seq<byte>
    requires Scalars(cs)
  {
    if cs == [] then [] else Encoded(cs[0]) + Text(cs[1..])
  }

  /** The encoding of `c` starts at `at`. */
  predicate Starts(s: seq<byte>, at: nat, c: nat) {
    Scalar(c) && at + |Encoded(c)| <= |s| && s[at..at + |Encoded(c)|] == Encoded(c)
  }

  /** The bytes of an encoding, one by one. */
  lemma EncodedBytes(s: seq<byte>, at: nat, c: nat)
    requires Starts(s, at, c)
    ensures at < |s| && s[at] == Encoded(c)[0]
    ensures |Encoded(c)| > 1 ==> s[at + 1] == Encoded(c)[1]
    ensures |Encoded(c)| > 2 ==> s[at + 2] == Encoded(c)[2]
    ensures |Encoded(c)| > 3 ==> s[at + 3] == Encoded(c)[3]
  {
    var e := Encoded(c);
    forall i | 0 <= i < |e| ensures s[at + i] == e[i] {
      assert s[at..at + |e|][i] == e[i];
    }
  }

  lemma ShortCharacter(s: seq<byte>, at: nat, c: nat)
    requires Starts(s, at, c) && c < 0x800
    ensures CharLength(s, at) == |Encoded(c)|
  {
    EncodedBytes(s, at, c);
  }

  lemma MiddleCharacter(s: seq<byte>, at: nat, c: nat)
    requires Starts(s, at, c) && 0x800 <= c < 0x1_0000
    ensures CharLength(s, at) == 3
  {
    EncodedBytes(s, at, c);
    var a, b := c / 4096, c / 64 % 64;
    assert c / 64 == a * 64 + b;
    assert a == 0 ==> b >= 32;
    assert a == 13 ==> b < 32;
  }

  lemma LongCharacter(s: seq<byte>, at: nat, c: nat)
    requires Starts(s, at, c) && 0x1_0000 <= c
    ensures CharLength(s, at) == 4
  {
    EncodedBytes(s, at, c);
    var a, b := c / 262144, c / 4096 % 64;
    assert c / 4096 == a * 64 + b;
    assert a == 0 ==> b >= 16;
    assert a == 4 ==> b < 16;
  }

  lemma EncodedIsCharacter(s: seq<byte>, at: nat, c: nat)
    requires Starts(s, at, c)
    ensures at < |s| && CharLength(s, at) == |Encoded(c)|
  {
    if c < 0x800 {
      ShortCharacter(s, at, c);
    } else if c < 0x1_0000 {
      MiddleCharacter(s, at, c);
    } else {
      LongCharacter(s, at, c);
    }
  }

  /** The digits of a number in base 64, over three places. */
  lemma Digits64(a: nat, b: nat, c: nat, d: nat, n: nat)
    requires b < 64 && c < 64 && d < 64 && n == a * 262144 + b * 4096 + c * 64 + d
    ensures n / 262144 == a && n / 4096 % 64 == b && n / 64 % 64 == c && n % 64 == d
  {
    assert n / 4096 == a * 64 + b;
    assert n / 64 == (a * 64 + b) * 64 + c;
  }

  lemma TwoBytes(s: seq<byte>, at: nat) returns (c: nat)
    requires at < |s| && CharLength(s, at) == 2
    ensures Starts(s, at, c) && |Encoded(c)| == 2
  {
    var a: nat, b: nat := s[at] as int - 0xc0, s[at + 1] as int - 0x80;
    c := a * 64 + b;
    Digits64(0, 0, a, b, c);
    assert s[at..at + 2] == [s[at], s[at + 1]];
  }

  lemma ThreeBytes(s: seq<byte>, at: nat) returns (c: nat)
    requires at < |s| && CharLength(s, at) == 3
    ensures Starts(s, at, c) && |Encoded(c)| == 3
  {
    var a: nat, b: nat, d: nat := s[at] as int - 0xe0, s[at + 1] as int - 0x80, s[at + 2] as int - 0x80;
    c := a * 4096 + b * 64 + d;
    Digits64(0, a, b, d, c);
    assert s[at..at + 3] == [s[at], s[at + 1], s[at + 2]];
  }

  lemma FourBytes(s: seq<byte>, at: nat) returns (c: nat)
    requires at < |s| && CharLength(s, at) == 4
    ensures Starts(s, at, c) && |Encoded(c)| == 4
  {
    var a: nat, b: nat, d: nat, e: nat :=
      s[at] as int - 0xf0, s[at + 1] as int - 0x80, s[at + 2] as int - 0x80, s[at + 3] as int - 0x80;
    c := a * 262144 + b * 4096 + d * 64 + e;
    Digits64(a, b, d, e, c);
    assert s[at..at + 4] == [s[at], s[at + 1], s[at + 2], s[at + 3]];
  }

  lemma CharacterIsEncoded(s: seq<byte>, at: nat) returns (c: nat)
    requires at < |s| && CharLength(s, at) > 0
    ensures Starts(s, at, c) && |Encoded(c)| == CharLength(s, at)
  {
    match CharLength(s, at)
    case 1 =>
      c := s[at];
      assert s[at..at + 1] == [s[at]];
    case 2 => c := TwoBytes(s, at);
    case 3 => c := ThreeBytes(s, at);
    case _ => c := FourBytes(s, at);
  }

  lemma SliceOfRest(s: seq<byte>, at: nat, a: seq<byte>, b: seq<byte>)
    requires at <= |s| && s[at..] == a + b
    ensures at + |a| <= |s| && s[at..at + |a|] == a && s[at + |a|..] == b
  {
    assert (a + b)[..|a|] == a && (a + b)[|a|..] == b;
    assert s[at..at + |a|] == s[at..][..|a|] && s[at + |a|..] == s[at..][|a|..];
  }

  lemma {:induction false} TextDecodes(cs: seq<nat>, s: seq<byte>, at: nat)
    requires Scalars(cs) && at <= |s| && s[at..] == Text(cs)
    ensures Valid(s, at, |s|)
    decreases |cs|
  {
    if cs != [] {
      SliceOfRest(s, at, Encoded(cs[0]), Text(cs[1..]));
      EncodedIsCharacter(s, at, cs[0]);
      TextDecodes(cs[1..], s, at + |Encoded(cs[0])|);
    }
  }

  lemma {:induction false} DecodedIsText(s: seq<byte>, at: nat) returns (cs: seq<nat>)
    requires at <= |s| && Valid(s, at, |s|)
    ensures Scalars(cs) && s[at..] == Text(cs)
    decreases |s| - at
  {
    cs := [];
    if at < |s| {
      var c := CharacterIsEncoded(s, at);
      var n := |Encoded(c)|;
      var rest := DecodedIsText(s, at + n);
      cs := [c] + rest;
      assert cs[1..] == rest;
      assert s[at..] == s[at..at + n] + s[at + n..];
    }
  }

  /** Bytes decode exactly when they are the encoding of some code points. */
  lemma DecodesIff(s: seq<byte>)
    ensures Decodes(s) <==> exists cs :: Scalars(cs) && s == Text(cs)
  {
    assert s[0..] == s;
    if Decodes(s) {
      var cs := DecodedIsText(s, 0);
    }
    forall cs | Scalars(cs) && s == Text(cs) ensures Decodes(s) {
      TextDecodes(cs, s, 0);
    }
  }
}
