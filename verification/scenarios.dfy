/** A worked case: the middle field of a three-field line goes through a
    filter that replaces it, and the line comes back with only that field
    changed (for instance `a\t1\tc` becoming `a\t10\tc`). */
module Scenarios {
  import opened Bytes
  import opened Fields
  import opened Col
  import opened Pipeline

  /** The fields of a three-field line. */
  lemma FieldsOfThree(a: byte, b: byte, c: byte)
    requires a != TAB && b != TAB && c != TAB && a != NL && b != NL && c != NL
    ensures FieldsOf([a, TAB, b, TAB, c, NL]) == [[a], [b], [c]]
  {
    StripAppendedNewlines([a, TAB, b, TAB, c], 1);
    assert [a, TAB, b, TAB, c, NL] == [a, TAB, b, TAB, c] + seq(1, _ => NL);
    SplitJoin(TAB, [[a], [b], [c]]);
    assert [[a], [b], [c]][1..] == [[b], [c]] && [[b], [c]][1..] == [[c]];
    assert JoinWith(TAB, [[b], [c]]) == [b, TAB, c];
    assert JoinWith(TAB, [[a], [b], [c]]) == [a, TAB, b, TAB, c];
  }

  /** Merging a value into the middle of a two-field remainder. */
  lemma MergeThree(a: byte, c: byte, v: seq<byte>)
    requires NL !in v
    ensures MergeLine(1, [[a], [c]], v + [NL]) == [a, TAB] + v + [TAB, c, NL]
  {
    StripAppendedNewlines(v, 1);
    assert v + [NL] == v + seq(1, _ => NL);
    assert InsertAt([[a], [c]], 1, v) == [[a], v, [c]];
    assert [[a], v, [c]][1..] == [v, [c]] && [v, [c]][1..] == [[c]];
    assert JoinWith(TAB, [v, [c]]) == v + [TAB, c];
    assert JoinWith(TAB, [[a], v, [c]]) == [a, TAB] + v + [TAB, c];
  }

  /** `split` writes the middle field alone, and `merge` reading back the
      filter's replacement `v` writes the line with `v` in the middle. */
  lemma MiddleColumnScenario(a: byte, x: byte, c: byte, v: seq<byte>)
    requires a != TAB && x != TAB && c != TAB && a != NL && x != NL && c != NL
    requires NL !in v
    ensures var s := SplitRun(1, [[a, TAB, x, TAB, c, NL]]);
      s.written == [[x, NL]] &&
      MergeRun(1, s.pushed, [v + [NL]]) == MergeTrace([[a, TAB] + v + [TAB, c, NL]], 2, Pass)
  {
    var lines := [[a, TAB, x, TAB, c, NL]];
    var fin := [v + [NL]];
    FieldsOfThree(a, x, c);
    assert RemainderOf(1, lines[0]) == [[a], [c]];
    SplitPassShape(1, lines);
    Alignment(1, lines, fin);
    MergeThree(a, c, v);
    var s := SplitRun(1, lines);
    assert s.written[0] == [x] + [NL] == [x, NL];
  }
}
