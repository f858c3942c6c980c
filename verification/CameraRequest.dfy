/** An OPEN line as the host bridge reads it: words separated by spaces, sizes as decimal numbers. */
module CameraRequest {
  import opened Wrappers
  import opened Bytes

  /** What an OPEN asks for. */
  datatype Stream = Stream(facing: seq<byte>, width: nat, height: nat)

  const SPACE: byte := 0x20

  /** The words of a line, empty ones included. */
  function Words(s: seq<byte>): (words: seq<seq<byte>>)
    ensures words != []
  {
    if s == [] then [[]]
    else
      var rest := Words(s[1..]);
      if s[0] == SPACE then [[]] + rest else [[s[0]] + rest[0]] + rest[1..]
  }

  predicate IsNumber(s: seq<byte>) { s != [] && forall i :: 0 <= i < |s| ==> 0x30 <= s[i] <= 0x39 }

  function Value(s: seq<byte>): nat
    requires forall i :: 0 <= i < |s| ==> 0x30 <= s[i] <= 0x39
  {
    if s == [] then 0 else 10 * Value(s[..|s| - 1]) + (s[|s| - 1] - 0x30)
  }

  /** The stream that a line asks for; None when it is no OPEN. */
  function Requested(line: seq<byte>): Option<Stream> {
    var words := Words(line);
    if |words| == 4 && words[0] == Ascii("OPEN") && IsNumber(words[2]) && IsNumber(words[3])
    then Some(Stream(words[1], Value(words[2]), Value(words[3])))
    else None
  }

  /** A first word without spaces is split off whole. */
  lemma {:induction false} WordsFirst(word: seq<byte>, rest: seq<byte>)
    requires SPACE !in word
    ensures Words(word + [SPACE] + rest) == [word] + Words(rest)
    ensures Words(word) == [word]
  {
    if word == [] {
      assert word + [SPACE] + rest == [SPACE] + rest;
    } else {
      WordsFirst(word[1..], rest);
      var s := word + [SPACE] + rest;
      assert s[1..] == word[1..] + [SPACE] + rest && s[0] == word[0];
      assert ([word[1..]] + Words(rest))[1..] == Words(rest);
      assert [word[0]] + word[1..] == word;
    }
  }

  /** A line of four words without spaces in them. */
  lemma {:induction false} FourWords(a: seq<byte>, b: seq<byte>, c: seq<byte>, d: seq<byte>)
    requires SPACE !in a && SPACE !in b && SPACE !in c && SPACE !in d
    ensures Words(a + [SPACE] + b + [SPACE] + c + [SPACE] + d) == [a, b, c, d]
  {
    var line := a + [SPACE] + b + [SPACE] + c + [SPACE] + d;
    assert line == a + [SPACE] + (b + [SPACE] + (c + [SPACE] + d));
    WordsFirst(a, b + [SPACE] + (c + [SPACE] + d));
    WordsFirst(b, c + [SPACE] + d);
    WordsFirst(c, d);
    WordsFirst(d, []);
  }
}
