/** The order of parsed versions: Python's tuple comparison against section 11 of Semantic Versioning 2.0.0. */
module VersionOrder {
  import opened Versions

  // ---- Lexicographic order ----------------------------------------------

  /** Python's comparison of sequences: by the first difference, else the shorter one first. */
  predicate LexLess<T(==)>(a: seq<T>, b: seq<T>, less: (T, T) -> bool) {
    if b == [] then false
    else if a == [] then true
    else if a[0] != b[0] then less(a[0], b[0])
    else LexLess(a[1..], b[1..], less)
  }

  /** The elements at the first difference are in order, or `a` is a proper beginning of `b`. */
  ghost predicate FirstDifference<T>(a: seq<T>, b: seq<T>, less: (T, T) -> bool) {
    || (exists k :: 0 <= k < |a| && k < |b| && a[..k] == b[..k] && a[k] != b[k] && less(a[k], b[k]))
    || (|a| < |b| && b[..|a|] == a)
  }

  lemma {:induction false} LexIsFirstDifference<T>(a: seq<T>, b: seq<T>, less: (T, T) -> bool)
    ensures LexLess(a, b, less) <==> FirstDifference(a, b, less)
  {
    if a != [] && b != [] {
      if a[0] == b[0] {
        LexIsFirstDifference(a[1..], b[1..], less);
        if LexLess(a[1..], b[1..], less) {
          if |a[1..]| < |b[1..]| && b[1..][..|a[1..]|] == a[1..] {
            assert b[..|a|] == [b[0]] + b[1..][..|a| - 1] && a == [a[0]] + a[1..];
          } else {
            var k :| 0 <= k < |a[1..]| && k < |b[1..]| && a[1..][..k] == b[1..][..k]
              && a[1..][k] != b[1..][k] && less(a[1..][k], b[1..][k]);
            assert a[..k + 1] == [a[0]] + a[1..][..k] && b[..k + 1] == [b[0]] + b[1..][..k];
            assert a[k + 1] == a[1..][k] && b[k + 1] == b[1..][k];
          }
        }
        if FirstDifference(a, b, less) {
          if |a| < |b| && b[..|a|] == a {
            assert b[1..][..|a[1..]|] == b[..|a|][1..];
          } else {
            var k :| 0 <= k < |a| && k < |b| && a[..k] == b[..k] && a[k] != b[k] && less(a[k], b[k]);
            assert a[1..][..k - 1] == a[..k][1..] && b[1..][..k - 1] == b[..k][1..];
            assert a[1..][k - 1] == a[k] && b[1..][k - 1] == b[k];
          }
        }
      } else {
        assert a[..0] == b[..0];
        forall k | 0 < k <= |a| && k <= |b| ensures a[..k] != b[..k] {
          assert a[..k][0] == a[0] && b[..k][0] == b[0];
        }
        assert a[..|a|] == a;
      }
    }
  }

  /** A strict total order on the elements. */
  ghost predicate TotalOrder<T(!new)>(less: (T, T) -> bool) {
    && (forall x: T :: !less(x, x))
    && (forall x: T, y: T :: x == y || less(x, y) || less(y, x))
    && (forall x: T, y: T, z: T :: less(x, y) && less(y, z) ==> less(x, z))
  }

  lemma {:induction false} LexTrichotomy<T(!new)>(a: seq<T>, b: seq<T>, less: (T, T) -> bool)
    requires TotalOrder(less)
    ensures !LexLess(a, a, less)
    ensures a == b || LexLess(a, b, less) || LexLess(b, a, less)
    decreases |a|
  {
    if a != [] {
      LexTrichotomy(a[1..], if b == [] then [] else b[1..], less);
      if b != [] && a[0] == b[0] {
        assert a == [a[0]] + a[1..] && b == [b[0]] + b[1..];
      }
    }
  }

  lemma {:induction false} LexTransitive<T(!new)>(a: seq<T>, b: seq<T>, c: seq<T>, less: (T, T) -> bool)
    requires TotalOrder(less) && LexLess(a, b, less) && LexLess(b, c, less)
    ensures LexLess(a, c, less)
    decreases |a|
  {
    if a != [] && a[0] == b[0] && b[0] == c[0] {
      LexTransitive(a[1..], b[1..], c[1..], less);
    }
  }

  // ---- Identifiers ------------------------------------------------------

  predicate CharLess(a: char, b: char) { a < b }

  /** (0, number) and (1, text) pairs, compared as Python compares tuples. */
  predicate IdentifierLess(a: Identifier, b: Identifier) {
    if a.Numeric? && b.Numeric? then a.n < b.n
    else if a.Text? && b.Text? then LexLess(a.s, b.s, CharLess)
    else a.Numeric?
  }

  lemma CharsAreOrdered()
    ensures TotalOrder(CharLess)
  {
  }

  lemma IdentifiersAreOrdered()
    ensures TotalOrder(IdentifierLess)
  {
    CharsAreOrdered();
    forall x: Identifier, y: Identifier
        ensures !IdentifierLess(x, x) && (x == y || IdentifierLess(x, y) || IdentifierLess(y, x)) {
      if x.Text? {
        LexTrichotomy(x.s, if y.Text? then y.s else "", CharLess);
      }
    }
    forall x: Identifier, y: Identifier, z: Identifier | IdentifierLess(x, y) && IdentifierLess(y, z)
        ensures IdentifierLess(x, z) {
      if x.Text? && y.Text? && z.Text? {
        LexTransitive(x.s, y.s, z.s, CharLess);
      }
    }
  }

  // ---- Versions ---------------------------------------------------------

  /** The flag the tuple carries in fourth place: 0 before identifiers, 1 for a release. */
  function Flag(v: Version): nat { if v.release then 1 else 0 }

  /** Python's comparison of two parsed tuples. */
  predicate Less(v: Version, w: Version) {
    if v.major != w.major then v.major < w.major
    else if v.minor != w.minor then v.minor < w.minor
    else if v.patch != w.patch then v.patch < w.patch
    else if Flag(v) != Flag(w) then Flag(v) < Flag(w)
    else LexLess(v.pre, w.pre, IdentifierLess)
  }

  /** 11.4.1 to 11.4.3: numbers numerically, text in ASCII order, numbers below text. */
  ghost predicate LowerIdentifier(a: Identifier, b: Identifier) {
    || (a.Numeric? && b.Numeric? && a.n < b.n)
    || (a.Text? && b.Text? && FirstDifference(a.s, b.s, CharLess))
    || (a.Numeric? && b.Text?)
  }

  /** 11.4: the first differing identifiers decide; with none, more identifiers come later. */
  ghost predicate LowerPrerelease(a: seq<Identifier>, b: seq<Identifier>) {
    || (exists k :: 0 <= k < |a| && k < |b| && a[..k] == b[..k] && a[k] != b[k] && LowerIdentifier(a[k], b[k]))
    || (|a| < |b| && b[..|a|] == a)
  }

  predicate SameCore(v: Version, w: Version) { v.major == w.major && v.minor == w.minor && v.patch == w.patch }

  /** Section 11: the version's precedence is lower. */
  ghost predicate Precedes(v: Version, w: Version) {
    || v.major < w.major
    || (v.major == w.major && v.minor < w.minor)
    || (v.major == w.major && v.minor == w.minor && v.patch < w.patch)
    || (SameCore(v, w) && v.pre != [] && w.pre == [])
    || (SameCore(v, w) && v.pre != [] && w.pre != [] && LowerPrerelease(v.pre, w.pre))
  }

  lemma IdentifierLessIsLower(a: Identifier, b: Identifier)
    ensures IdentifierLess(a, b) <==> LowerIdentifier(a, b)
  {
    if a.Text? && b.Text? {
      LexIsFirstDifference(a.s, b.s, CharLess);
    }
  }

  lemma LexIsLower(a: seq<Identifier>, b: seq<Identifier>)
    ensures LexLess(a, b, IdentifierLess) <==> LowerPrerelease(a, b)
  {
    LexIsFirstDifference(a, b, IdentifierLess);
    forall x: Identifier, y: Identifier ensures IdentifierLess(x, y) <==> LowerIdentifier(x, y) {
      IdentifierLessIsLower(x, y);
    }
  }

  /** On valid versions the tuple comparison is exactly the standard's precedence. */
  lemma LessIsPrecedence(v: Version, w: Version)
    requires Valid(v) && Valid(w)
    ensures Less(v, w) <==> Precedes(v, w)
  {
    LexIsLower(v.pre, w.pre);
  }

  /** The comparison is a strict total order: two valid versions tie only when they are equal. */
  lemma LessIsTotal(u: Version, v: Version, w: Version)
    requires Valid(u) && Valid(v) && Valid(w)
    ensures !Less(v, v)
    ensures v == w || Less(v, w) || Less(w, v)
    ensures Less(u, v) && Less(v, w) ==> Less(u, w)
  {
    IdentifiersAreOrdered();
    LexTrichotomy(v.pre, w.pre, IdentifierLess);
    if LexLess(u.pre, v.pre, IdentifierLess) && LexLess(v.pre, w.pre, IdentifierLess) {
      LexTransitive(u.pre, v.pre, w.pre, IdentifierLess);
    }
  }
}
