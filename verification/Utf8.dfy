/** UTF-8 byte sequences as section 4 of RFC 3629 defines them. */
module Utf8 {
  import opened Bytes

  predicate Within(s: seq<byte>, at: nat, lo: byte, hi: byte) {
    at < |s| && lo <= s[at] <= hi
  }

  predicate Tail(s: seq<byte>, at: nat) { Within(s, at, 0x80, 0xbf) }

  /** Bytes of the character that starts at `at`, or 0 when none does. */
  function CharLength(s: seq<byte>, at: nat): (n: nat)
    requires at < |s|
    ensures n <= 4 && at + n <= |s|
    ensures n == 1 <==> s[at] < 0x80
    ensures forall i :: at < i < at + n ==> s[i] >= 0x80
  {
    var b := s[at];
    if b <= 0x7f then 1
    else if 0xc2 <= b <= 0xdf then if Tail(s, at + 1) then 2 else 0
    else if 0xe0 <= b <= 0xef then
      var lo, hi := if b == 0xe0 then 0xa0 else 0x80, if b == 0xed then 0x9f else 0xbf;
      if Within(s, at + 1, lo, hi) && Tail(s, at + 2) then 3 else 0
    else if 0xf0 <= b <= 0xf4 then
      var lo, hi := if b == 0xf0 then 0x90 else 0x80, if b == 0xf4 then 0x8f else 0xbf;
      if Within(s, at + 1, lo, hi) && Tail(s, at + 2) && Tail(s, at + 3) then 4 else 0
    else 0
  }

  /** s[at..end] decodes. */
  predicate Valid(s: seq<byte>, at: nat, end: nat)
    requires at <= end <= |s|
    decreases end - at
  {
    at == end
    || (0 < CharLength(s, at) && at + CharLength(s, at) <= end && Valid(s, at + CharLength(s, at), end))
  }

  predicate Decodes(s: seq<byte>) { Valid(s, 0, |s|) }

  /** Validity of a window depends on its bytes only. */
  lemma {:induction false} ValidMoved(s: seq<byte>, at: nat, end: nat, t: seq<byte>, from: nat)
    requires at <= end <= |s| && from + (end - at) <= |t|
    requires s[at..end] == t[from..from + (end - at)]
    ensures Valid(s, at, end) <==> Valid(t, from, from + (end - at))
    decreases end - at
  {
    if at != end {
      SameBytes(s, at, end, t, from);
      var n, m := CharLength(s, at), CharLength(t, from);
      if (0 < n && at + n <= end) || (0 < m && from + m <= from + (end - at)) {
        assert n == m;
        assert s[at + n..end] == s[at..end][n..] && t[from + n..from + (end - at)] == t[from..from + (end - at)][n..];
        ValidMoved(s, at + n, end, t, from + n);
      }
    }
  }

  lemma SameBytes(s: seq<byte>, at: nat, end: nat, t: seq<byte>, from: nat)
    requires at < end <= |s| && from + (end - at) <= |t|
    requires s[at..end] == t[from..from + (end - at)]
    ensures s[at] == t[from]
    ensures at + 1 < end ==> s[at + 1] == t[from + 1]
    ensures at + 2 < end ==> s[at + 2] == t[from + 2]
    ensures at + 3 < end ==> s[at + 3] == t[from + 3]
  {
    var w, v := s[at..end], t[from..from + (end - at)];
    assert w[0] == s[at] && v[0] == t[from];
    if at + 1 < end { assert w[1] == s[at + 1] && v[1] == t[from + 1]; }
    if at + 2 < end { assert w[2] == s[at + 2] && v[2] == t[from + 2]; }
    if at + 3 < end { assert w[3] == s[at + 3] && v[3] == t[from + 3]; }
  }

  /** Text up to a decodable prefix leaves decodable text. */
  lemma {:induction false} SuffixDecodes(s: seq<byte>, at: nat, cut: nat, end: nat)
    requires at <= cut <= end <= |s| && Valid(s, at, end) && Valid(s, at, cut)
    ensures Valid(s, cut, end)
    decreases end - at
  {
    if at != cut {
      SuffixDecodes(s, at + CharLength(s, at), cut, end);
    }
  }

  /** At most three bytes before any cut stands a character boundary. */
  lemma {:induction false} NearBoundary(s: seq<byte>, at: nat, cut: nat, end: nat) returns (b: nat)
    requires at <= cut <= end <= |s| && Valid(s, at, end)
    ensures at <= b <= cut < b + 4 && Valid(s, at, b)
    decreases end - at
  {
    if at == cut || cut < at + CharLength(s, at) {
      b := at;
    } else {
      b := NearBoundary(s, at + CharLength(s, at), cut, end);
    }
  }

  /** The byte after an ASCII character is a boundary. */
  lemma {:induction false} AsciiBoundary(s: seq<byte>, at: nat, i: nat, end: nat)
    requires at <= i < end <= |s| && Valid(s, at, end) && s[i] < 0x80
    ensures Valid(s, at, i + 1)
    decreases end - at
  {
    if at != i {
      AsciiBoundary(s, at + CharLength(s, at), i, end);
    }
  }
}
