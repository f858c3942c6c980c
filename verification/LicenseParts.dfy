/** Splitting license text without breaking a character (scripts/package-clean-release.py). */
module LicenseParts {
  import opened Wrappers
  import opened Bytes
  import opened Utf8

  const NEWLINE: byte := 10

  datatype SplitError = LimitTooSmall | NotUtf8 | Empty

  /** The last newline in s[lo..hi], if any. */
  function LastNewline(s: seq<byte>, lo: nat, hi: nat): (r: Option<nat>)
    requires hi <= |s|
    ensures r.Some? ==> lo <= r.value < hi && s[r.value] == NEWLINE
    ensures r.Some? ==> forall i :: r.value < i < hi ==> s[i] != NEWLINE
    ensures r.None? ==> forall i :: lo <= i < hi ==> s[i] != NEWLINE
    decreases hi
  {
    if hi <= lo then None
    else if s[hi - 1] == NEWLINE then Some(hi - 1)
    else LastNewline(s, lo, hi - 1)
  }

  /** The longest decodable prefix of at most `cut` bytes. */
  function BackOff(s: seq<byte>, cut: nat): (b: nat)
    requires cut <= |s|
    ensures b <= cut && Valid(s, 0, b)
    ensures forall j :: b < j <= cut ==> !Valid(s, 0, j)
    decreases cut
  {
    if cut == 0 || Valid(s, 0, cut) then cut else BackOff(s, cut - 1)
  }

  /** Where `s` is first cut. */
  function Cut(s: seq<byte>, limit: nat): (c: nat)
    ensures c <= |s|
  {
    if |s| <= limit then |s|
    else
      var newline := LastNewline(s, limit / 2, limit);
      BackOff(s, if newline.Some? then newline.value + 1 else limit)
  }

  /** The parts of `s`; None when no character fits the limit. */
  function Parts(s: seq<byte>, limit: nat): Option<seq<seq<byte>>>
    decreases |s|
  {
    if s == [] then Some([])
    else
      var c := Cut(s, limit);
      if c == 0 then None
      else match Parts(s[c..], limit)
        case None => None
        case Some(rest) => Some([s[..c]] + rest)
  }

  function Joined(done: seq<seq<byte>>, rest: Option<seq<seq<byte>>>): Option<seq<seq<byte>>> {
    match rest case None => None case Some(parts) => Some(done + parts)
  }

  lemma JoinedOne(done: seq<seq<byte>>, part: seq<byte>, rest: Option<seq<seq<byte>>>)
    ensures Joined(done, match rest case None => None case Some(parts) => Some([part] + parts))
            == Joined(done + [part], rest)
  {
    if rest.Some? {
      assert done + ([part] + rest.value) == done + [part] + rest.value;
    }
  }

  /** Searches the window for its last newline and backs off until the prefix decodes; 0 when none does. */
  method FindCut(raw: seq<byte>, limit: nat) returns (cut: nat)
    ensures cut == Cut(raw, limit)
  {
    cut := if limit <= |raw| then limit else |raw|;
    if cut < |raw| {
      var newline := LastNewline(raw, limit / 2, cut);
      if newline.Some? {
        cut := newline.value + 1;
      }
      ghost var first := cut;
      while cut != 0 && !Valid(raw, 0, cut)
        invariant cut <= first <= |raw| && BackOff(raw, cut) == BackOff(raw, first)
        decreases cut
      {
        cut := cut - 1;
      }
    }
  }

  method Split(text: seq<byte>, limit: nat) returns (r: Result<seq<seq<byte>>, SplitError>)
    ensures limit < 4 ==> r == Err(LimitTooSmall)
    ensures limit >= 4 && !Decodes(text) ==> r == Err(NotUtf8)
    ensures limit >= 4 && text == [] ==> r == Err(Empty)
    ensures limit >= 4 && Decodes(text) && text != [] ==>
              r == match Parts(text, limit) case None => Err(LimitTooSmall) case Some(parts) => Ok(parts)
  {
    if limit < 4 {
      return Err(LimitTooSmall);
    }
    if !Decodes(text) {
      return Err(NotUtf8);
    }
    var raw, result: seq<seq<byte>> := text, [];
    assert forall parts: seq<seq<byte>> :: result + parts == parts;
    while raw != []
      invariant Joined(result, Parts(raw, limit)) == Parts(text, limit)
      invariant result == [] ==> raw == text
      decreases |raw|
    {
      var cut := FindCut(raw, limit);
      if cut == 0 {
        return Err(LimitTooSmall);
      }
      JoinedOne(result, raw[..cut], Parts(raw[cut..], limit));
      result := result + [raw[..cut]];
      raw := raw[cut..];
    }
    if result == [] {
      return Err(Empty);
    }
    assert result + [] == result;
    return Ok(result);
  }

  // ---- What the parts of valid text are ---------------------------------

  /** A cut of valid text is a boundary; with a newline in the window it ends in the last one. */
  lemma CutIsBoundary(s: seq<byte>, limit: nat)
    requires limit >= 4 && s != [] && Decodes(s)
    ensures var c := Cut(s, limit);
            && 0 < c <= limit && Valid(s, 0, c) && Valid(s, c, |s|)
            && (c < |s| ==> c > limit / 2 || c > limit - 4)
            && (c < |s| && LastNewline(s, limit / 2, limit).Some? ==> c == LastNewline(s, limit / 2, limit).value + 1)
            && (c < |s| && LastNewline(s, limit / 2, limit).None? ==> forall j :: c < j <= limit ==> !Valid(s, 0, j))
  {
    if |s| > limit {
      var newline := LastNewline(s, limit / 2, limit);
      if newline.Some? {
        AsciiBoundary(s, 0, newline.value, |s|);
      } else {
        var b := NearBoundary(s, 0, limit, |s|);
      }
    }
    SuffixDecodes(s, 0, Cut(s, limit), |s|);
  }

  /**
   * The cut is after the last newline of the second half of the limit, if there is one, and else at the last
   * boundary.
   */
  lemma CutIsLatest(s: seq<byte>, limit: nat)
    requires 4 <= limit < |s| && Decodes(s)
    ensures (exists i :: limit / 2 <= i < limit && s[i] == 10) ==>
              var c := Cut(s, limit);
              limit / 2 < c <= limit && s[c - 1] == 10 && forall i :: c <= i < limit ==> s[i] != 10
    ensures (forall i :: limit / 2 <= i < limit ==> s[i] != 10) ==>
              var c := Cut(s, limit); Valid(s, 0, c) && forall j :: c < j <= limit ==> !Valid(s, 0, j)
  {
    CutIsBoundary(s, limit);
    if newline: nat :| limit / 2 <= newline < limit && s[newline] == 10 {
      assert LastNewline(s, limit / 2, limit).Some?;
    }
  }

  /** Every part is non-empty, within the limit, and decodes. */
  predicate GoodParts(parts: seq<seq<byte>>, limit: nat) {
    parts == [] || (0 < |parts[0]| <= limit && Decodes(parts[0]) && GoodParts(parts[1..], limit))
  }

  /** Every part but the last is longer than half the limit. */
  predicate HalfFull(parts: seq<seq<byte>>, limit: nat) {
    |parts| <= 1 || (|parts[0]| > limit / 2 && HalfFull(parts[1..], limit))
  }

  lemma WindowDecodes(s: seq<byte>, lo: nat, hi: nat)
    requires lo <= hi <= |s| && Valid(s, lo, hi)
    ensures Decodes(s[lo..hi])
  {
    var window := s[lo..hi];
    assert window[0..hi - lo] == window;
    ValidMoved(s, lo, hi, window, 0);
  }

  lemma PrefixDecodes(s: seq<byte>, c: nat)
    requires c <= |s| && Valid(s, 0, c) && Valid(s, c, |s|)
    ensures Decodes(s[..c]) && Decodes(s[c..])
  {
    WindowDecodes(s, 0, c);
    WindowDecodes(s, c, |s|);
    assert s[0..c] == s[..c] && s[c..|s|] == s[c..];
  }

  lemma PartsCons(part: seq<byte>, rest: seq<seq<byte>>, limit: nat)
    requires 0 < |part| <= limit && Decodes(part) && GoodParts(rest, limit)
    requires limit >= 7 ==> HalfFull(rest, limit) && (rest == [] || |part| > limit / 2)
    ensures GoodParts([part] + rest, limit) && Flatten([part] + rest) == part + Flatten(rest)
    ensures limit >= 7 ==> HalfFull([part] + rest, limit)
  {
    assert ([part] + rest)[1..] == rest;
  }

  /** Valid text is always split, into non-empty valid parts within the limit that join to the text. */
  lemma {:induction false} PartsOfText(s: seq<byte>, limit: nat)
    requires limit >= 4 && Decodes(s)
    ensures Parts(s, limit).Some? && (s != [] ==> Parts(s, limit).value != [])
    ensures GoodParts(Parts(s, limit).value, limit) && Flatten(Parts(s, limit).value) == s
    ensures limit >= 7 ==> HalfFull(Parts(s, limit).value, limit)
    decreases |s|
  {
    if s != [] {
      var c := Cut(s, limit);
      CutIsBoundary(s, limit);
      PrefixDecodes(s, c);
      PartsOfText(s[c..], limit);
      PartsCons(s[..c], Parts(s[c..], limit).value, limit);
      assert s == s[..c] + s[c..];
    }
  }

  /** Parts over half the limit are few. */
  lemma {:induction false} PartsAreFew(parts: seq<seq<byte>>, limit: nat)
    requires parts != [] && HalfFull(parts, limit)
    ensures (|parts| - 1) * (limit / 2 + 1) <= |Flatten(parts)|
    decreases |parts|
  {
    if |parts| > 1 {
      var rest := parts[1..];
      PartsAreFew(rest, limit);
      var half := limit / 2 + 1;
      assert (|parts| - 1) * half == (|rest| - 1) * half + half;
    }
  }

  /** `n` letters followed by one four-byte character. */
  function Straddling(n: nat): (s: seq<byte>)
    ensures |s| == n + 4 && s[n..] == [0xf0, 0x9f, 0x98, 0x80] && forall i :: 0 <= i < n ==> s[i] == 0x61
  {
    seq(n, i => 0x61) + [0xf0, 0x9f, 0x98, 0x80]
  }

  /** It decodes up to any letter and at its end, but not inside the last character. */
  lemma {:induction false} StraddlingBoundaries(n: nat, at: nat, j: nat)
    requires at <= n && at <= j <= n + 4
    ensures Valid(Straddling(n), at, j) <==> j <= n || j == n + 4
    decreases n - at
  {
    var s := Straddling(n);
    if at == n {
      assert s[n] == s[n..][0] && s[n + 1] == s[n..][1] && s[n + 2] == s[n..][2] && s[n + 3] == s[n..][3];
      assert CharLength(s, n) == 4;
    } else if at != j {
      assert CharLength(s, at) == 1;
      StraddlingBoundaries(n, at + 1, j);
    }
  }

  lemma StraddlingHasNoNewline(n: nat, i: nat)
    requires i < n + 4
    ensures Straddling(n)[i] != NEWLINE
  {
    if i >= n { assert Straddling(n)[i] == Straddling(n)[n..][i - n]; }
  }

  /** A limit inside the last character cuts before it. */
  lemma StraddlingCut(n: nat, limit: nat)
    requires n < limit < n + 4
    ensures Cut(Straddling(n), limit) == n
  {
    var s := Straddling(n);
    forall i | 0 <= i < limit ensures s[i] != NEWLINE {
      StraddlingHasNoNewline(n, i);
    }
    assert LastNewline(s, limit / 2, limit).None?;
    StraddlingBoundaries(n, 0, n);
    forall j | n < j <= limit ensures !Valid(s, 0, j) {
      StraddlingBoundaries(n, 0, j);
    }
    var b := BackOff(s, limit);
    assert b == n;
  }

  /** Below 7 the half-full promise breaks: a four-byte character can push the cut back too far. */
  lemma ShortLimitsFail(limit: nat)
    requires 4 <= limit <= 6
    ensures var s := Straddling(limit - 3);
            Decodes(s) && Parts(s, limit).Some? && !HalfFull(Parts(s, limit).value, limit)
  {
    var n := limit - 3;
    var s := Straddling(n);
    StraddlingBoundaries(n, 0, n);
    StraddlingBoundaries(n, 0, |s|);
    StraddlingCut(n, limit);
    PartsOfText(s, limit);
    SuffixDecodes(s, 0, n, |s|);
    PrefixDecodes(s, n);
    PartsOfText(s[n..], limit);
    assert Parts(s, limit).value == [s[..n]] + Parts(s[n..], limit).value;
  }

  /** The exact limits from which every part but the last of every text is over half full. */
  lemma HalfFullIff(limit: nat)
    requires limit >= 4
    ensures (forall s :: Decodes(s) ==> Parts(s, limit).Some? && HalfFull(Parts(s, limit).value, limit)) <==> limit >= 7
  {
    if limit >= 7 {
      forall s | Decodes(s) ensures Parts(s, limit).Some? && HalfFull(Parts(s, limit).value, limit) {
        PartsOfText(s, limit);
      }
    } else {
      ShortLimitsFail(limit);
    }
  }
}
