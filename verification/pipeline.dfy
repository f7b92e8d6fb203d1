/** Properties of `split` followed by `merge` over one alignment queue: the
    remainders line up with the filter's output line by line, any mismatch in
    line counts is reported, and an identity filter gives back the input. */
module Pipeline {
  import opened Wrappers
  import opened Bytes
  import opened Fields
  import opened Streams
  import opened Col

  /** The queue after a complete `split` of `n` lines has its sentinel at `n`. */
  lemma FirstSentinelAfterSplit(column: nat, lines: seq<seq<byte>>)
    requires forall j :: 0 <= j < |lines| ==> HasColumn(column, lines[j])
    ensures FirstSentinel(SplitRun(column, lines).pushed) == |lines|
  {
    SplitPassShape(column, lines);
  }

  /** Row-count mismatch detection: after a successful `split` of `n` lines,
      `merge` over `m` filter lines succeeds exactly when `m == n`, fails with
      "more lines" exactly when `m > n` and with "fewer lines" exactly when
      `m < n`, never blocks, writes `min(m, n)` lines, and pairs the `j`-th
      filter line with the `j`-th input line's remainder. */
  lemma {:induction false} Alignment(column: nat, lines: seq<seq<byte>>, fin: seq<seq<byte>>)
    requires forall j :: 0 <= j < |lines| ==> HasColumn(column, lines[j])
    ensures var t := MergeRun(column, SplitRun(column, lines).pushed, fin);
      (t.outcome == Pass <==> |fin| == |lines|) &&
      (t.outcome == Fail(MoreLines) <==> |fin| > |lines|) &&
      (t.outcome == Fail(FewerLines) <==> |fin| < |lines|) &&
      t.outcome != Fail(Blocked) &&
      |t.output| == Min(|fin|, |lines|) &&
      t.popped == Min(|fin|, |lines|) + 1 &&
      (forall j :: 0 <= j < |t.output| ==>
        t.output[j] == MergeLine(column, RemainderOf(column, lines[j]), fin[j]))
  {
    var pushed := SplitRun(column, lines).pushed;
    SplitPassShape(column, lines);
    FirstSentinelAfterSplit(column, lines);
    MergeRunSpec(column, pushed, fin);
    var t := MergeRun(column, pushed, fin);
    forall j | 0 <= j < |t.output|
      ensures t.output[j] == MergeLine(column, RemainderOf(column, lines[j]), fin[j])
    {
      assert pushed[j] == Some(RemainderOf(column, lines[j]));
    }
  }

  /** The two flows run one after the other over a fresh queue: `split`
      feeds the input lines, and `merge` reads the filter's output lines
      `fromChild` against what `split` queued. A line without the column
      stops the whole run before `merge` (col.py kills its own
      process). Otherwise `merge` succeeds exactly when the filter wrote one
      line per line it was given, reporting "more lines" or "fewer lines"
      otherwise, and each output line holds the filter's line in the input
      line's remainder. */
  method Run(column: nat, lines: seq<seq<byte>>, fromChild: seq<seq<byte>>)
    returns (toChild: seq<seq<byte>>, splitOutcome: Outcome, output: seq<seq<byte>>, mergeOutcome: Outcome)
    ensures toChild == SplitRun(column, lines).written
    ensures splitOutcome == SplitRun(column, lines).outcome
    ensures splitOutcome == Pass <==> forall j :: 0 <= j < |lines| ==> HasColumn(column, lines[j])
    ensures splitOutcome == Pass ==> |toChild| == |lines|
    ensures splitOutcome != Pass ==> output == [] && mergeOutcome == splitOutcome
    ensures splitOutcome == Pass ==>
      (mergeOutcome == Pass <==> |fromChild| == |lines|) &&
      (mergeOutcome == Fail(MoreLines) <==> |fromChild| > |lines|) &&
      (mergeOutcome == Fail(FewerLines) <==> |fromChild| < |lines|) &&
      |output| == Min(|fromChild|, |lines|) &&
      (forall j :: 0 <= j < |output| ==>
        output[j] == MergeLine(column, RemainderOf(column, lines[j]), fromChild[j]))
  {
    var queue := new AlignmentQueue();
    toChild, splitOutcome := Split(column, queue, lines);
    SplitOutcome(column, lines);
    if splitOutcome != Pass {
      output, mergeOutcome := [], splitOutcome;
      return;
    }
    assert queue.entries == SplitRun(column, lines).pushed;
    SplitPassShape(column, lines);
    output, mergeOutcome := Merge(column, queue, fromChild);
    Alignment(column, lines, fromChild);
  }

  /** The fields of a merged line: the transformed value at `column` and the
      remainder around it, provided no field holds a tab or a newline and
      the remainder reaches `column`. */
  lemma MergedFields(column: nat, rem: Remainder, field: seq<byte>)
    requires column <= |rem|
    requires forall i :: 0 <= i < |rem| ==> TAB !in rem[i] && NL !in rem[i]
    requires TAB !in StripTrailingNewlines(field) && NL !in StripTrailingNewlines(field)
    ensures |FieldsOf(MergeLine(column, rem, field))| == |rem| + 1
    ensures FieldsOf(MergeLine(column, rem, field))[column] == StripTrailingNewlines(field)
    ensures RemoveAt(FieldsOf(MergeLine(column, rem, field)), column) == rem
  {
    var v := StripTrailingNewlines(field);
    var fs := InsertAt(rem, column, v);
    assert forall i :: 0 <= i < |fs| ==> TAB !in fs[i] && NL !in fs[i] by {
      forall i | 0 <= i < |fs| ensures TAB !in fs[i] && NL !in fs[i] {
        if i < column { assert fs[i] == rem[i]; }
        else if i > column { assert fs[i] == rem[i - 1]; }
      }
    }
    JoinExcludes(TAB, fs, NL);
    StripAppendedNewlines(JoinWith(TAB, fs), 1);
    assert seq(1, _ => NL) == [NL];
    SplitJoin(TAB, fs);
    RemoveInsert(rem, column, v);
  }

  /** A field of a line with no newline before its end holds no newline. */
  lemma FieldsNewlineFree(line: seq<byte>)
    requires NL !in StripTrailingNewlines(line)
    ensures forall i :: 0 <= i < |FieldsOf(line)| ==> NL !in FieldsOf(line)[i]
  {
    SplitExcludes(TAB, StripTrailingNewlines(line), NL);
  }

  /** Merging gives back each remainder: removing `column` from the fields of
      the `j`-th output line yields the `j`-th input line's remainder, and the
      field at `column` is the `j`-th filter line without its newlines. */
  lemma MergeRestoresRemainder(column: nat, lines: seq<seq<byte>>, fin: seq<seq<byte>>, j: nat)
    requires forall i :: 0 <= i < |lines| ==> HasColumn(column, lines[i])
    requires j < |lines| && j < |fin|
    requires NL !in StripTrailingNewlines(lines[j])
    requires TAB !in StripTrailingNewlines(fin[j]) && NL !in StripTrailingNewlines(fin[j])
    ensures var t := MergeRun(column, SplitRun(column, lines).pushed, fin);
      j < |t.output| && column < |FieldsOf(t.output[j])| &&
      FieldsOf(t.output[j])[column] == StripTrailingNewlines(fin[j]) &&
      RemoveAt(FieldsOf(t.output[j]), column) == RemainderOf(column, lines[j])
  {
    Alignment(column, lines, fin);
    var rem := RemainderOf(column, lines[j]);
    var fs := FieldsOf(lines[j]);
    FieldsNewlineFree(lines[j]);
    assert forall i :: 0 <= i < |rem| ==> TAB !in rem[i] && NL !in rem[i] by {
      forall i | 0 <= i < |rem| ensures TAB !in rem[i] && NL !in rem[i] {
        if i < column { assert rem[i] == fs[i]; } else { assert rem[i] == fs[i + 1]; }
      }
    }
    MergedFields(column, rem, fin[j]);
  }

  /** One line through `split`, an identity filter and `merge` comes back
      unchanged, when it is newline-terminated and has a field at `column`. */
  lemma LineRoundTrip(column: nat, line: seq<byte>)
    requires IsLine(line) && HasColumn(column, line)
    ensures MergeLine(column, RemainderOf(column, line), Selected(column, line)) == line
  {
    var body := line[..|line| - 1];
    assert line == body + seq(1, _ => NL);
    StripAppendedNewlines(body, 1);
    var fs := FieldsOf(line);
    SplitExcludes(TAB, body, NL);
    StripAppendedNewlines(fs[column], 1);
    assert fs[column] + seq(1, _ => NL) == Selected(column, line);
    InsertRemove(fs, column);
    JoinSplit(TAB, body);
  }

  /** Identity round trip over lines: `merge` fed with exactly the values
      `split` wrote reproduces every input line, succeeds, and pops every
      entry including the sentinel. */
  lemma {:induction false} RoundTrip(column: nat, lines: seq<seq<byte>>)
    requires forall j :: 0 <= j < |lines| ==> IsLine(lines[j]) && HasColumn(column, lines[j])
    ensures var s := SplitRun(column, lines);
      s.outcome == Pass &&
      MergeRun(column, s.pushed, s.written) == MergeTrace(lines, |lines| + 1, Pass)
  {
    var s := SplitRun(column, lines);
    SplitPassShape(column, lines);
    Alignment(column, lines, s.written);
    var t := MergeRun(column, s.pushed, s.written);
    forall j | 0 <= j < |lines| ensures t.output[j] == lines[j] {
      LineRoundTrip(column, lines[j]);
    }
  }

  /** What `split` writes to the filter is a sequence of newline-terminated
      lines, one per input line. */
  lemma WrittenAreLines(column: nat, lines: seq<seq<byte>>)
    requires forall j :: 0 <= j < |lines| ==> IsLine(lines[j]) && HasColumn(column, lines[j])
    ensures var w := SplitRun(column, lines).written;
      forall j :: 0 <= j < |w| ==> IsLine(w[j])
  {
    SplitPassShape(column, lines);
    var w := SplitRun(column, lines).written;
    forall j | 0 <= j < |w| ensures IsLine(w[j]) {
      var line := lines[j];
      var body := line[..|line| - 1];
      assert line == body + seq(1, _ => NL);
      StripAppendedNewlines(body, 1);
      FieldsNewlineFree(line);
      var f := FieldsOf(line)[column];
      assert w[j] == f + [NL] && w[j][..|w[j]| - 1] == f;
    }
  }

  /** Identity round trip over byte streams: for an input stream that is
      empty or ends in a newline and whose every line has a field at
      `column`, `split` succeeds, and `merge` reading back the exact bytes
      written to the filter succeeds and writes the input stream byte for
      byte. */
  lemma StreamRoundTrip(column: nat, input: seq<byte>)
    requires input == [] || input[|input| - 1] == NL
    requires forall j :: 0 <= j < |Lines(input)| ==> HasColumn(column, Lines(input)[j])
    ensures var s := SplitRun(column, Lines(input));
      var t := MergeRun(column, s.pushed, Lines(Concat(s.written)));
      s.outcome == Pass && t.outcome == Pass && Concat(t.output) == input
  {
    var lines := Lines(input);
    LinesTerminated(input);
    var s := SplitRun(column, lines);
    WrittenAreLines(column, lines);
    LinesConcat(s.written);
    RoundTrip(column, lines);
    ConcatLines(input);
  }

  /** Line-count invariance: whatever values a filter writes, as long as it
      writes one line per line it was given, `merge` succeeds and writes as
      many lines as the input had. */
  lemma LineCountInvariance(column: nat, lines: seq<seq<byte>>, fin: seq<seq<byte>>)
    requires forall j :: 0 <= j < |lines| ==> HasColumn(column, lines[j])
    requires |fin| == |SplitRun(column, lines).written|
    ensures var t := MergeRun(column, SplitRun(column, lines).pushed, fin);
      t.outcome == Pass && |t.output| == |lines|
  {
    SplitPassShape(column, lines);
    Alignment(column, lines, fin);
  }
}
