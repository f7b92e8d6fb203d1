/** Byte strings and the byte-level operations applied to every line:
    stripping trailing newlines, and splitting and joining on a one-byte
    separator (Python's `bytes.rstrip`, `bytes.split` and `bytes.join`). */
module Bytes {

  newtype byte = x: int | 0 <= x < 256

  const TAB: byte := 9
  const NL: byte := 10

  /** `s.rstrip(b'\n')`: the longest prefix of `s` that does not end in a
      newline and is followed only by newlines. */
  function StripTrailingNewlines(s: seq<byte>): (r: seq<byte>)
    ensures r <= s
    ensures |r| == 0 || r[|r| - 1] != NL
    ensures forall i :: |r| <= i < |s| ==> s[i] == NL
    decreases |s|
  {
    if |s| > 0 && s[|s| - 1] == NL then StripTrailingNewlines(s[..|s| - 1]) else s
  }

  /** Stripping leaves a byte string that does not end in a newline unchanged,
      and removes every newline appended to it. */
  lemma StripAppendedNewlines(body: seq<byte>, n: nat)
    requires |body| == 0 || body[|body| - 1] != NL
    ensures StripTrailingNewlines(body + seq(n, _ => NL)) == body
  {
    var s := body + seq(n, _ => NL);
    var r := StripTrailingNewlines(s);
    assert r == s[..|body|] == body;
  }

  /** `s.split(sep)`: the maximal runs of `s` between separators; never empty,
      and no field contains the separator. */
  function SplitOn(sep: byte, s: seq<byte>): (fs: seq<seq<byte>>)
    ensures |fs| >= 1
    ensures forall i :: 0 <= i < |fs| ==> sep !in fs[i]
    decreases |s|
  {
    if s == [] then [[]]
    else
      var rest := SplitOn(sep, s[1..]);
      if s[0] == sep then [[]] + rest
      else [[s[0]] + rest[0]] + rest[1..]
  }

  /** `sep.join(fs)`. */
  function JoinWith(sep: byte, fs: seq<seq<byte>>): seq<byte>
    decreases |fs|
  {
    if |fs| == 0 then []
    else if |fs| == 1 then fs[0]
    else fs[0] + [sep] + JoinWith(sep, fs[1..])
  }

  /** Joining the fields of a split restores the original byte string. */
  lemma {:induction false} JoinSplit(sep: byte, s: seq<byte>)
    ensures JoinWith(sep, SplitOn(sep, s)) == s
    decreases |s|
  {
    if s != [] {
      var rest := SplitOn(sep, s[1..]);
      JoinSplit(sep, s[1..]);
      if s[0] == sep {
        assert SplitOn(sep, s) == [[]] + rest;
        assert ([[]] + rest)[1..] == rest;
      } else {
        var fs := SplitOn(sep, s);
        assert fs == [[s[0]] + rest[0]] + rest[1..];
        if |rest| == 1 {
          assert JoinWith(sep, fs) == [s[0]] + rest[0];
        } else {
          assert fs[1..] == rest[1..];
          assert JoinWith(sep, fs) == [s[0]] + rest[0] + [sep] + JoinWith(sep, rest[1..]);
          assert JoinWith(sep, rest) == rest[0] + [sep] + JoinWith(sep, rest[1..]);
        }
      }
    }
  }

  /** Splitting a byte string whose head `f` holds no separator: `f` is glued
      to the first field of the tail's split. */
  lemma {:induction false} SplitPrefix(sep: byte, f: seq<byte>, t: seq<byte>)
    requires sep !in f
    ensures SplitOn(sep, f + t) == [f + SplitOn(sep, t)[0]] + SplitOn(sep, t)[1..]
    decreases |f|
  {
    var x := SplitOn(sep, t);
    if f == [] {
      assert f + t == t;
      assert f + x[0] == x[0];
      assert [x[0]] + x[1..] == x;
    } else {
      SplitPrefix(sep, f[1..], t);
      assert (f + t)[1..] == f[1..] + t;
      assert [f[0]] + (f[1..] + x[0]) == f + x[0];
    }
  }

  /** Splitting a join of separator-free fields gives the fields back. */
  lemma {:induction false} SplitJoin(sep: byte, fs: seq<seq<byte>>)
    requires |fs| >= 1
    requires forall i :: 0 <= i < |fs| ==> sep !in fs[i]
    ensures SplitOn(sep, JoinWith(sep, fs)) == fs
    decreases |fs|
  {
    if |fs| == 1 {
      SplitPrefix(sep, fs[0], []);
      assert fs[0] + [] == fs[0];
    } else {
      var j := JoinWith(sep, fs[1..]);
      SplitJoin(sep, fs[1..]);
      assert JoinWith(sep, fs) == fs[0] + ([sep] + j);
      SplitPrefix(sep, fs[0], [sep] + j);
      assert ([sep] + j)[1..] == j;
      assert SplitOn(sep, [sep] + j) == [[]] + fs[1..];
      assert fs[0] + [] == fs[0];
    }
  }

  /** A byte that is neither the separator nor in any field is not in the join. */
  lemma {:induction false} JoinExcludes(sep: byte, fs: seq<seq<byte>>, b: byte)
    requires b != sep
    requires forall i :: 0 <= i < |fs| ==> b !in fs[i]
    ensures b !in JoinWith(sep, fs)
    decreases |fs|
  {
    if |fs| > 1 {
      JoinExcludes(sep, fs[1..], b);
    }
  }

  /** A byte absent from `s` is absent from every field of its split. */
  lemma {:induction false} SplitExcludes(sep: byte, s: seq<byte>, b: byte)
    requires b !in s
    ensures forall i :: 0 <= i < |SplitOn(sep, s)| ==> b !in SplitOn(sep, s)[i]
    decreases |s|
  {
    if s != [] {
      SplitExcludes(sep, s[1..], b);
      var rest := SplitOn(sep, s[1..]);
      if s[0] != sep {
        assert b !in [s[0]] + rest[0];
      }
    }
  }
}
