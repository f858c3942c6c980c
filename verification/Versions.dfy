/** Package version strings and their order (`version` in system-package.py), against Semantic Versioning 2.0.0. */
module Versions {
  import opened Wrappers

  const MAX_NUMBER: nat := 18446744073709551615

  datatype Identifier = Numeric(n: nat) | Text(s: string)

  /** The tuple the parser returns; a release has no identifiers. */
  datatype Version = Version(major: nat, minor: nat, patch: nat, release: bool, pre: seq<Identifier>)

  // ---- Decimal numbers --------------------------------------------------

  predicate Digit(c: char) { '0' <= c <= '9' }

  predicate Digits(s: string) { forall i :: 0 <= i < |s| ==> Digit(s[i]) }

  /** str.isdecimal on this syntax's characters. */
  predicate IsDecimal(s: string) { s != "" && Digits(s) }

  /** No leading zero unless the number is 0 itself. */
  predicate Canonical(s: string) { IsDecimal(s) && (s[0] == '0' ==> |s| == 1) }

  function Value(s: string): nat
    requires Digits(s)
  {
    if s == "" then 0 else 10 * Value(s[..|s| - 1]) + (s[|s| - 1] as int - '0' as int)
  }

  function Decimal(n: nat): (s: string)
    ensures Canonical(s)
  {
    if n < 10 then [('0' as int + n) as char] else Decimal(n / 10) + [('0' as int + n % 10) as char]
  }

  lemma {:induction false} ValueOfDecimal(n: nat)
    ensures Value(Decimal(n)) == n
  {
    if n >= 10 {
      ValueOfDecimal(n / 10);
      assert Decimal(n)[..|Decimal(n)| - 1] == Decimal(n / 10);
    } else {
      assert Decimal(n)[..0] == "";
    }
  }

  lemma {:induction false} CanonicalIsPositive(s: string)
    requires Canonical(s) && s[0] != '0'
    ensures Value(s) > 0
  {
    if |s| > 1 {
      CanonicalIsPositive(s[..|s| - 1]);
    }
  }

  lemma {:induction false} DecimalOfValue(s: string)
    requires Canonical(s)
    ensures Decimal(Value(s)) == s
  {
    var last := |s| - 1;
    if last == 0 {
      assert s[..0] == "" && s == [s[0]];
    } else {
      DecimalOfValue(s[..last]);
      CanonicalIsPositive(s[..last]);
      assert s == s[..last] + [s[last]];
    }
  }

  // ---- Splitting and joining --------------------------------------------

  /** str.split with a one-character separator. */
  function Split(s: string, c: char): (parts: seq<string>)
    ensures parts != []
  {
    if s == "" then [""]
    else
      var rest := Split(s[1..], c);
      if s[0] == c then [""] + rest else [[s[0]] + rest[0]] + rest[1..]
  }

  function Join(parts: seq<string>, c: char): string {
    if parts == [] then "" else if |parts| == 1 then parts[0] else parts[0] + [c] + Join(parts[1..], c)
  }

  predicate Free(parts: seq<string>, c: char) { forall i :: 0 <= i < |parts| ==> c !in parts[i] }

  /** An empty first part joins to a separator in front. */
  lemma JoinSeparator(rest: seq<string>, c: char)
    requires rest != [] && Free(rest, c)
    ensures Join([""] + rest, c) == [c] + Join(rest, c) && Free([""] + rest, c)
  {
    assert ([""] + rest)[1..] == rest;
    assert "" + [c] == [c];
  }

  /** One more character in front of the first part. */
  lemma JoinCharacter(x: char, rest: seq<string>, c: char)
    requires rest != [] && Free(rest, c) && x != c
    ensures Join([[x] + rest[0]] + rest[1..], c) == [x] + Join(rest, c) && Free([[x] + rest[0]] + rest[1..], c)
  {
    var parts := [[x] + rest[0]] + rest[1..];
    assert parts[1..] == rest[1..];
    if |rest| > 1 {
      assert [x] + rest[0] + [c] + Join(rest[1..], c) == [x] + (rest[0] + [c] + Join(rest[1..], c));
    }
  }

  lemma {:induction false} JoinOfSplit(s: string, c: char)
    ensures Join(Split(s, c), c) == s && Free(Split(s, c), c)
  {
    if s != "" {
      var rest := Split(s[1..], c);
      JoinOfSplit(s[1..], c);
      if s[0] == c {
        JoinSeparator(rest, c);
      } else {
        JoinCharacter(s[0], rest, c);
      }
      assert s == [s[0]] + s[1..];
    }
  }

  /** Splitting off a first part. */
  lemma {:induction false} SplitFirst(p: string, rest: string, c: char)
    requires c !in p
    ensures Split(p + [c] + rest, c) == [p] + Split(rest, c)
    ensures Split(p, c) == [p]
  {
    if p == "" {
      assert p + [c] + rest == [c] + rest;
    } else {
      SplitFirst(p[1..], rest, c);
      var s := p + [c] + rest;
      assert s[1..] == p[1..] + [c] + rest && s[0] == p[0];
      assert ([p[1..]] + Split(rest, c))[1..] == Split(rest, c);
      assert [p[0]] + p[1..] == p;
    }
  }

  lemma {:induction false} SplitOfJoin(parts: seq<string>, c: char)
    requires parts != [] && Free(parts, c)
    ensures Split(Join(parts, c), c) == parts
  {
    if |parts| == 1 {
      SplitFirst(parts[0], "", c);
      assert parts == [parts[0]];
    } else {
      SplitOfJoin(parts[1..], c);
      SplitFirst(parts[0], Join(parts[1..], c), c);
      assert parts == [parts[0]] + parts[1..];
    }
  }

  // ---- Parsing ----------------------------------------------------------

  predicate IdentifierChar(c: char) { 'a' <= c <= 'z' || Digit(c) || c == '-' }

  predicate IdentifierText(s: string) { s != "" && forall i :: 0 <= i < |s| ==> IdentifierChar(s[i]) }

  function Number(s: string): Option<nat> {
    if Canonical(s) && Value(s) <= MAX_NUMBER then Some(Value(s)) else None
  }

  function ParseIdentifier(s: string): Option<Identifier> {
    if !IdentifierText(s) || (IsDecimal(s) && !Canonical(s)) then None
    else if IsDecimal(s) then Some(Numeric(Value(s))) else Some(Text(s))
  }

  function ParseIdentifiers(parts: seq<string>): Option<seq<Identifier>> {
    if parts == [] then Some([])
    else
      var first, rest := ParseIdentifier(parts[0]), ParseIdentifiers(parts[1..]);
      if first.None? || rest.None? then None else Some([first.value] + rest.value)
  }

  /** The text before the first hyphen, and after it if there is one. */
  function Cut(s: string): (string, Option<string>) {
    if s == "" then ("", None)
    else if s[0] == '-' then ("", Some(s[1..]))
    else var (core, pre) := Cut(s[1..]); ([s[0]] + core, pre)
  }

  function ParseCore(core: string): Option<(nat, nat, nat)> {
    var parts := Split(core, '.');
    if |parts| != 3 then None
    else
      var a, b, c := Number(parts[0]), Number(parts[1]), Number(parts[2]);
      if a.None? || b.None? || c.None? then None else Some((a.value, b.value, c.value))
  }

  function Parse(s: string): Option<Version> {
    var (text, suffix) := Cut(s);
    var core := ParseCore(text);
    if core.None? then None
    else
      var (a, b, c) := core.value;
      if suffix.None? then Some(Version(a, b, c, true, []))
      else
        var pre := ParseIdentifiers(Split(suffix.value, '.'));
        if pre.None? then None else Some(Version(a, b, c, false, pre.value))
  }

  // ---- Printing ---------------------------------------------------------

  /** Sections 2 and 9 of Semantic Versioning 2.0.0, with lower-case letters only and 64-bit core numbers. */
  predicate ValidIdentifier(i: Identifier) {
    i.Text? ==>
      && (forall k :: 0 <= k < |i.s| ==> i.s[k] in "abcdefghijklmnopqrstuvwxyz0123456789-")
      && exists k :: 0 <= k < |i.s| && i.s[k] in "abcdefghijklmnopqrstuvwxyz-"
  }

  lemma CharactersAre(c: char)
    ensures IdentifierChar(c) <==> c in "abcdefghijklmnopqrstuvwxyz0123456789-"
    ensures IdentifierChar(c) && !Digit(c) <==> c in "abcdefghijklmnopqrstuvwxyz-"
  {
  }

  lemma TextIdentifierIff(s: string)
    ensures ValidIdentifier(Text(s)) <==> IdentifierText(s) && !IsDecimal(s)
  {
    forall k | 0 <= k < |s|
      ensures IdentifierChar(s[k]) <==> s[k] in "abcdefghijklmnopqrstuvwxyz0123456789-"
      ensures IdentifierChar(s[k]) && !Digit(s[k]) <==> s[k] in "abcdefghijklmnopqrstuvwxyz-"
    {
      CharactersAre(s[k]);
    }
  }

  predicate Valid(v: Version) {
    && v.major < 0x1_0000_0000_0000_0000 && v.minor < 0x1_0000_0000_0000_0000 && v.patch < 0x1_0000_0000_0000_0000
    && (v.release <==> v.pre == [])
    && forall i :: 0 <= i < |v.pre| ==> ValidIdentifier(v.pre[i])
  }

  function PrintIdentifier(i: Identifier): string { if i.Numeric? then Decimal(i.n) else i.s }

  function PrintIdentifiers(pre: seq<Identifier>): (parts: seq<string>)
    ensures |parts| == |pre|
  {
    if pre == [] then [] else [PrintIdentifier(pre[0])] + PrintIdentifiers(pre[1..])
  }

  function PrintCore(v: Version): string { Join([Decimal(v.major), Decimal(v.minor), Decimal(v.patch)], '.') }

  function Print(v: Version): string {
    PrintCore(v) + if v.release then "" else "-" + Join(PrintIdentifiers(v.pre), '.')
  }

  lemma {:induction false} CutAt(core: string, rest: string)
    requires '-' !in core
    ensures Cut(core + "-" + rest) == (core, Some(rest)) && Cut(core) == (core, None)
  {
    if core == "" {
      assert core + "-" + rest == "-" + rest;
    } else {
      CutAt(core[1..], rest);
      var s := core + "-" + rest;
      assert s[1..] == core[1..] + "-" + rest && s[0] == core[0];
      assert [core[0]] + core[1..] == core;
    }
  }

  lemma {:induction false} CutJoins(s: string)
    ensures var (core, pre) := Cut(s); '-' !in core && s == core + if pre.None? then "" else "-" + pre.value
  {
    if s != "" {
      if s[0] == '-' {
        assert s == "-" + s[1..];
      } else {
        CutJoins(s[1..]);
        assert s == [s[0]] + s[1..];
      }
    }
  }

  lemma DigitsHaveNoDot(s: string)
    requires IdentifierText(s)
    ensures '.' !in s
  {
  }

  lemma OneParses(i: Identifier)
    requires ValidIdentifier(i)
    ensures ParseIdentifier(PrintIdentifier(i)) == Some(i) && '.' !in PrintIdentifier(i)
  {
    if i.Numeric? {
      ValueOfDecimal(i.n);
    } else {
      TextIdentifierIff(i.s);
    }
    DigitsHaveNoDot(PrintIdentifier(i));
  }

  lemma OnePrints(part: string)
    requires ParseIdentifier(part).Some?
    ensures ValidIdentifier(ParseIdentifier(part).value) && PrintIdentifier(ParseIdentifier(part).value) == part
  {
    if IsDecimal(part) {
      DecimalOfValue(part);
    } else {
      TextIdentifierIff(part);
    }
  }

  lemma {:induction false} IdentifiersParse(pre: seq<Identifier>)
    requires forall i :: 0 <= i < |pre| ==> ValidIdentifier(pre[i])
    ensures ParseIdentifiers(PrintIdentifiers(pre)) == Some(pre) && Free(PrintIdentifiers(pre), '.')
  {
    if pre != [] {
      var parts := PrintIdentifiers(pre);
      assert parts[1..] == PrintIdentifiers(pre[1..]);
      IdentifiersParse(pre[1..]);
      OneParses(pre[0]);
      assert pre == [pre[0]] + pre[1..];
      FreeMore(parts, '.');
    }
  }

  lemma FreeMore(parts: seq<string>, c: char)
    requires parts != [] && c !in parts[0] && Free(parts[1..], c)
    ensures Free(parts, c)
  {
    forall i | 0 <= i < |parts| ensures c !in parts[i] {
      assert i > 0 ==> parts[i] == parts[1..][i - 1];
    }
  }

  lemma {:induction false} IdentifiersPrint(parts: seq<string>)
    requires ParseIdentifiers(parts).Some?
    ensures PrintIdentifiers(ParseIdentifiers(parts).value) == parts
    ensures var pre := ParseIdentifiers(parts).value;
            |pre| == |parts| && forall i :: 0 <= i < |pre| ==> ValidIdentifier(pre[i])
  {
    if parts != [] {
      IdentifiersPrint(parts[1..]);
      OnePrints(parts[0]);
      assert parts == [parts[0]] + parts[1..];
      assert ParseIdentifiers(parts).value[1..] == ParseIdentifiers(parts[1..]).value;
    }
  }

  lemma CoreParses(v: Version)
    requires v.major <= MAX_NUMBER && v.minor <= MAX_NUMBER && v.patch <= MAX_NUMBER
    ensures ParseCore(PrintCore(v)) == Some((v.major, v.minor, v.patch)) && '-' !in PrintCore(v)
  {
    var parts := [Decimal(v.major), Decimal(v.minor), Decimal(v.patch)];
    SplitOfJoin(parts, '.');
    ValueOfDecimal(v.major);
    ValueOfDecimal(v.minor);
    ValueOfDecimal(v.patch);
    assert Join(parts[1..], '.') == parts[1] + "." + Join(parts[1..][1..], '.');
  }

  lemma CorePrints(core: string, v: Version)
    requires ParseCore(core) == Some((v.major, v.minor, v.patch))
    ensures PrintCore(v) == core && v.major <= MAX_NUMBER && v.minor <= MAX_NUMBER && v.patch <= MAX_NUMBER
  {
    var parts := Split(core, '.');
    JoinOfSplit(core, '.');
    DecimalOfValue(parts[0]);
    DecimalOfValue(parts[1]);
    DecimalOfValue(parts[2]);
    assert parts == [parts[0], parts[1], parts[2]];
  }

  /** A string parses to v exactly when v is valid and printing it gives the string back. */
  lemma ParseIff(s: string, v: Version)
    ensures Parse(s) == Some(v) <==> Valid(v) && Print(v) == s
  {
    if Valid(v) && Print(v) == s {
      CoreParses(v);
      if v.release {
        assert s == PrintCore(v);
        CutAt(s, "");
      } else {
        var parts := PrintIdentifiers(v.pre);
        CutAt(PrintCore(v), Join(parts, '.'));
        assert s == PrintCore(v) + "-" + Join(parts, '.');
        IdentifiersParse(v.pre);
        SplitOfJoin(parts, '.');
      }
    }
    if Parse(s) == Some(v) {
      CutJoins(s);
      var (text, suffix) := Cut(s);
      CorePrints(text, v);
      if suffix.Some? {
        var parts := Split(suffix.value, '.');
        JoinOfSplit(suffix.value, '.');
        IdentifiersPrint(parts);
      }
    }
  }

  /** No two strings parse alike. */
  lemma ParseIsInjective(s: string, t: string)
    requires Parse(s).Some? && Parse(s) == Parse(t)
    ensures s == t
  {
    ParseIff(s, Parse(s).value);
    ParseIff(t, Parse(t).value);
  }
}
