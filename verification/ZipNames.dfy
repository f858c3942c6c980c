/** The pathname allow-list of a package, character by character, and the names the packaging script writes. */
module ZipNames {
  import opened Bytes
  import opened ZipReader
  import Versions

  const LETTERS := "abcdefghijklmnopqrstuvwxyz0123456789"

  /** A byte that is one of the characters of `alphabet`. */
  predicate OneOf(b: byte, alphabet: string) { b as char in alphabet }

  lemma LettersAre(b: byte)
    ensures LowerOrDigit(b) <==> OneOf(b, LETTERS)
  {
    var c := b as char;
    assert c in LETTERS <==> c in "abcdefghijklmnopqrstuvwxyz" || c in "0123456789" by {
      assert LETTERS == "abcdefghijklmnopqrstuvwxyz" + "0123456789";
    }
  }

  /** What may stand between `licenses/` and `.txt`. */
  predicate Stem(stem: seq<byte>) {
    && stem != [] && OneOf(stem[0], LETTERS)
    && forall i :: 0 <= i < |stem| ==> OneOf(stem[i], LETTERS + "_-")
  }

  function License(stem: seq<byte>): Name { Ascii("licenses/") + stem + Ascii(".txt") }

  lemma StemBytes(b: byte)
    ensures OneOf(b, LETTERS + "_-") <==> LowerOrDigit(b) || b == 0x5f || b == 0x2d
  {
    LettersAre(b);
    var c := b as char;
    assert c in LETTERS + "_-" <==> c in LETTERS || c in "_-";
  }

  /** What a license name holds between its prefix and its suffix is a stem. */
  lemma LicenseHasStem(name: Name) returns (stem: seq<byte>)
    requires LicenseName(name)
    ensures Stem(stem) && name == License(stem)
  {
    var first, last := |LICENSE_PREFIX|, |name| - |LICENSE_SUFFIX|;
    stem := name[first..last];
    assert name[..first] == LICENSE_PREFIX && name[last..] == LICENSE_SUFFIX;
    assert name == name[..first] + stem + name[last..];
    LettersAre(stem[0]);
    forall i | 0 <= i < |stem| ensures OneOf(stem[i], LETTERS + "_-") {
      assert stem[i] == name[first + i];
      assert i > 0 ==> LowerOrDigit(name[first + i]) || name[first + i] == 0x5f || name[first + i] == 0x2d;
      StemBytes(stem[i]);
    }
  }

  lemma StemIsLicense(stem: seq<byte>)
    requires Stem(stem)
    ensures LicenseName(License(stem))
  {
    var name, first, last := License(stem), |LICENSE_PREFIX|, |LICENSE_PREFIX| + |stem|;
    assert name[..first] == LICENSE_PREFIX && name[first..last] == stem && name[last..] == LICENSE_SUFFIX;
    LettersAre(stem[0]);
    forall i | first < i < last ensures LowerOrDigit(name[i]) || name[i] == 0x5f || name[i] == 0x2d {
      assert name[i] == stem[i - first];
      StemBytes(stem[i - first]);
    }
  }

  /** Exactly these names are allowed. */
  lemma AllowedIff(name: Name)
    ensures Allowed(name) <==>
              || name == Ascii("manifest.json") || name == Ascii("payload/boot.img")
              || name == Ascii("payload/system.img") || name == Ascii("payload/vendor.img")
              || name == Ascii("provenance/source-lock.json")
              || exists stem :: Stem(stem) && name == License(stem)
  {
    if LicenseName(name) {
      var stem := LicenseHasStem(name);
    }
    forall stem | Stem(stem) && name == License(stem) ensures LicenseName(name) {
      StemIsLicense(stem);
    }
  }

  /** The number of a part as the packaging script writes it: at least two digits. */
  function PartNumber(n: nat): string { (if n < 10 then "0" else "") + Versions.Decimal(n) }

  /** The path of part `n` of the platform's licence text, counted from 1. */
  function PartPath(n: nat): string {
    "licenses/" + (if n == 1 then "aosp" else "aosp-" + PartNumber(n)) + ".txt"
  }

  predicate LowerOrDigitText(text: string) {
    forall i :: 0 <= i < |text| ==> 'a' <= text[i] <= 'z' || Versions.Digit(text[i])
  }

  /** Letters and digits, and more of them after a hyphen, are a stem. */
  lemma StemOfText(word: string, digits: string)
    requires word != "" && LowerOrDigitText(word) && LowerOrDigitText(digits)
    ensures Stem(Ascii(word)) && Stem(Ascii(word) + [0x2d] + Ascii(digits))
  {
    var stem := Ascii(word) + [0x2d] + Ascii(digits);
    LettersAre(stem[0]);
    forall i | 0 <= i < |stem| ensures OneOf(stem[i], LETTERS + "_-") {
      StemBytes(stem[i]);
    }
    forall i | 0 <= i < |word| ensures OneOf(Ascii(word)[i], LETTERS + "_-") {
      assert Ascii(word)[i] == stem[i];
    }
  }

  lemma AsciiJoins(a: string, b: string)
    ensures Ascii(a + b) == Ascii(a) + Ascii(b)
  {
  }

  lemma LicenseOfText(text: string)
    ensures Ascii("licenses/" + text + ".txt") == License(Ascii(text))
  {
    AsciiJoins("licenses/" + text, ".txt");
    AsciiJoins("licenses/", text);
  }

  lemma NumberedIsStem(digits: string)
    requires LowerOrDigitText(digits)
    ensures Stem(Ascii("aosp-" + digits))
  {
    StemOfText("aosp", digits);
    AsciiJoins("aosp-", digits);
    assert Ascii("aosp-") == Ascii("aosp") + [0x2d];
  }

  /** The packaging script's part names are allowed, whatever their number. */
  lemma PartPathIsAllowed(n: nat)
    ensures Allowed(Ascii(PartPath(n)))
  {
    var text := if n == 1 then "aosp" else "aosp-" + PartNumber(n);
    if n == 1 {
      StemOfText("aosp", "");
    } else {
      NumberedIsStem(PartNumber(n));
    }
    LicenseOfText(text);
    StemIsLicense(Ascii(text));
  }

  /** No two dots stand side by side, so no part of the path is `..`; nor does the path start at the root. */
  predicate Plain(name: Name) {
    && name != [] && name[0] != 0x2f
    && forall i :: 0 <= i < |name| - 1 ==> !(name[i] == 0x2e && name[i + 1] == 0x2e)
  }

  lemma StemHasNoDot(stem: seq<byte>, i: nat)
    requires Stem(stem) && i < |stem|
    ensures stem[i] != 0x2e
  {
    StemBytes(stem[i]);
  }

  /** Bytes between which no two dots meet. */
  lemma JoinIsPlain(a: Name, b: seq<byte>, c: seq<byte>)
    requires Plain(a) && (forall i :: 0 <= i < |a| ==> a[i] != 0x2e) && (forall i :: 0 <= i < |b| ==> b[i] != 0x2e)
    requires forall i :: 1 <= i < |c| ==> c[i] != 0x2e
    ensures Plain(a + b + c)
  {
    var s := a + b + c;
    forall i | 0 <= i < |s| && s[i] == 0x2e ensures i == |a| + |b| {
      if i >= |a| + |b| {
        assert s[i] == c[i - |a| - |b|];
      }
    }
  }

  lemma LicenseIsPlain(stem: seq<byte>)
    requires Stem(stem)
    ensures Plain(License(stem))
  {
    forall i | 0 <= i < |stem| ensures stem[i] != 0x2e {
      StemHasNoDot(stem, i);
    }
    EndsArePlain();
    JoinIsPlain(Ascii("licenses/"), stem, Ascii(".txt"));
  }

  lemma EndsArePlain()
    ensures Plain(Ascii("licenses/")) && forall i :: 0 <= i < |Ascii("licenses/")| ==> Ascii("licenses/")[i] != 0x2e
    ensures forall i :: 1 <= i < |Ascii(".txt")| ==> Ascii(".txt")[i] != 0x2e
  {
    TextIsPlain("licenses/");
  }

  /** A name without two dots in a row is plain when given as text. */
  lemma TextIsPlain(text: string)
    requires text != "" && text[0] != '/' && forall i :: 0 <= i < |text| - 1 ==> text[i] != '.' || text[i + 1] != '.'
    ensures Plain(Ascii(text))
  {
  }

  lemma ImagePathsArePlain()
    ensures Plain(Ascii("payload/boot.img")) && Plain(Ascii("payload/system.img")) && Plain(Ascii("payload/vendor.img"))
  {
    TextIsPlain("payload/boot.img");
    TextIsPlain("payload/system.img");
    TextIsPlain("payload/vendor.img");
  }

  lemma RecordPathsArePlain()
    ensures Plain(Ascii("manifest.json")) && Plain(Ascii("provenance/source-lock.json"))
  {
    TextIsPlain("manifest.json");
    TextIsPlain("provenance/source-lock.json");
  }

  /** Whatever the packages hold is extracted below where they are extracted. */
  lemma AllowedIsPlain(name: Name)
    requires Allowed(name)
    ensures Plain(name)
  {
    if LicenseName(name) {
      var stem := LicenseHasStem(name);
      LicenseIsPlain(stem);
    } else {
      ImagePathsArePlain();
      RecordPathsArePlain();
    }
  }
}
