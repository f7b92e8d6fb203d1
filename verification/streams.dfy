/** Byte streams read line by line, as `for line in f` does on a binary file:
    each line runs up to and including the next newline, and the last line
    may lack one. */
module Streams {
  import opened Bytes

  /** A newline-terminated line with no other newline in it. */
  predicate IsLine(l: seq<byte>)
  {
    |l| > 0 && l[|l| - 1] == NL && NL !in l[..|l| - 1]
  }

  /** The bytes written by writing each element of `ls` in turn. */
  function Concat(ls: seq<seq<byte>>): seq<byte>
    decreases |ls|
  {
    if ls == [] then [] else ls[0] + Concat(ls[1..])
  }

  /** The length of the first line of a non-empty stream: through the first
      newline, or the whole stream when it holds none before its last byte. */
  function LineLength(s: seq<byte>): (k: nat)
    requires s != []
    ensures 0 < k <= |s|
    ensures NL !in s[..k - 1]
    ensures k < |s| ==> s[k - 1] == NL
    decreases |s|
  {
    if s[0] == NL || |s| == 1 then 1
    else
      var k := 1 + LineLength(s[1..]);
      assert s[..k - 1] == [s[0]] + s[1..][..k - 2];
      k
  }

  /** The lines `for line in f` yields on a stream holding `s`. */
  function Lines(s: seq<byte>): seq<seq<byte>>
    decreases |s|
  {
    if s == [] then [] else [s[..LineLength(s)]] + Lines(s[LineLength(s)..])
  }

  /** Reading a stream line by line loses and adds nothing. */
  lemma {:induction false} ConcatLines(s: seq<byte>)
    ensures Concat(Lines(s)) == s
    decreases |s|
  {
    if s != [] {
      var k := LineLength(s);
      ConcatLines(s[k..]);
      assert Lines(s)[1..] == Lines(s[k..]);
      assert s[..k] + s[k..] == s;
    }
  }

  /** On a stream that is empty or ends in a newline, every line read is a
      newline-terminated line. */
  lemma {:induction false} LinesTerminated(s: seq<byte>)
    requires s == [] || s[|s| - 1] == NL
    ensures forall i :: 0 <= i < |Lines(s)| ==> IsLine(Lines(s)[i])
    decreases |s|
  {
    if s != [] {
      var k := LineLength(s);
      var l := s[..k];
      assert l[..k - 1] == s[..k - 1];
      if k < |s| {
        LinesTerminated(s[k..]);
      }
      assert Lines(s) == [l] + Lines(s[k..]);
    }
  }

  /** The first line of a stream that starts with a terminated line is that line. */
  lemma LineLengthOfLine(l: seq<byte>, t: seq<byte>)
    requires IsLine(l)
    ensures LineLength(l + t) == |l|
  {
    var s := l + t;
    var k := LineLength(s);
    assert forall j :: 0 <= j < |l| - 1 ==> s[j] == l[j] && l[j] in l[..|l| - 1];
    assert s[|l| - 1] == NL;
    assert forall j :: 0 <= j < k - 1 ==> s[j] in s[..k - 1];
  }

  /** Writing terminated lines one after another and reading the stream back
      line by line yields exactly the lines written. */
  lemma {:induction false} LinesConcat(ls: seq<seq<byte>>)
    requires forall i :: 0 <= i < |ls| ==> IsLine(ls[i])
    ensures Lines(Concat(ls)) == ls
    decreases |ls|
  {
    if ls != [] {
      var s := Concat(ls);
      LineLengthOfLine(ls[0], Concat(ls[1..]));
      assert s[..|ls[0]|] == ls[0];
      assert s[|ls[0]|..] == Concat(ls[1..]);
      LinesConcat(ls[1..]);
      assert [ls[0]] + ls[1..] == ls;
    }
  }
}
