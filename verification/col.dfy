/** The alignment-queue transformation of col.py.

    `split` reads tab-separated input lines, writes the field at `column` of
    each to the filter's input and pushes the rest of the line (its
    "remainder") onto a FIFO queue, ending with a `None` sentinel. `merge`
    reads the filter's output lines, pops one remainder per line, puts the
    transformed field back at `column` and writes the re-joined line; it fails
    when the filter produced more or fewer lines than it was given.

    The two run as threads around a subprocess in col.py; here
    they run one after the other over the same queue object, which gives the
    same data since the queue has one producer and one consumer. */
module Col {
  import opened Wrappers
  import opened Bytes
  import opened Fields

  /** The fields of a line other than the one at the column index. */
  type Remainder = seq<seq<byte>>

  /** An alignment-queue entry: a remainder, or `None`, the sentinel that
      says no remainder will follow. */
  type Entry = Option<Remainder>

  datatype Fatal =
    | ColumnOutOfRange(line: nat)  // `fields[column]` raises IndexError on input line `line`
    | MoreLines                    // the filter produced more lines than it was given
    | FewerLines                   // the filter produced fewer lines than it was given
    | Blocked                      // a pop on an empty queue that nothing will ever fill

  datatype Outcome = Pass | Fail(failure: Fatal)

  const DefaultMessage: string := "Unexpected `None`"

  /** `none_throws`: the value inside `optional`, or an AssertionError
      carrying `message` when there is none. */
  function NoneThrows<T>(optional: Option<T>, message: string := DefaultMessage): (r: Result<T, string>)
    ensures r.Success? <==> optional.Some?
    ensures optional.Some? ==> r.value == optional.value
    ensures optional.None? ==> r.error == message
  {
    match optional
    case None => Failure(message)
    case Some(v) => Success(v)
  }

  /** The FIFO shared by `split` (the only producer) and `merge` (the only
      consumer). */
  class AlignmentQueue {
    var entries: seq<Entry>

    constructor ()
      ensures entries == []
    {
      entries := [];
    }

    method Put(e: Entry)
      modifies this
      ensures entries == old(entries) + [e]
    {
      entries := entries + [e];
    }

    /** Pops the oldest entry; on an empty queue `queue.get()` in col.py blocks. */
    method Get() returns (e: Entry)
      requires entries != []
      modifies this
      ensures e == old(entries)[0] && entries == old(entries)[1..]
    {
      e := entries[0];
      entries := entries[1..];
    }
  }

  // ---------------------------------------------------------------------
  // split

  /** `line.rstrip(b'\n').split(b'\t')`. */
  function FieldsOf(line: seq<byte>): seq<seq<byte>>
  {
    SplitOn(TAB, StripTrailingNewlines(line))
  }

  /** Whether `fields[column]` exists for this line. */
  predicate HasColumn(column: nat, line: seq<byte>)
  {
    column < |FieldsOf(line)|
  }

  /** `fields[:column] + fields[(column+1):]`, the remainder pushed for a line. */
  function RemainderOf(column: nat, line: seq<byte>): Remainder
  {
    RemoveAt(FieldsOf(line), column)
  }

  /** `fields[column] + b'\n'`, the value written to the filter for a line. */
  function Selected(column: nat, line: seq<byte>): seq<byte>
    requires HasColumn(column, line)
  {
    FieldsOf(line)[column] + [NL]
  }

  /** The index of the first line that has no field at `column`, or the
      number of lines when every line has one. */
  function FirstShort(column: nat, lines: seq<seq<byte>>): (k: nat)
    ensures k <= |lines|
    ensures forall j :: 0 <= j < k ==> HasColumn(column, lines[j])
    ensures k < |lines| ==> !HasColumn(column, lines[k])
    decreases |lines|
  {
    if lines == [] || !HasColumn(column, lines[0]) then 0
    else 1 + FirstShort(column, lines[1..])
  }

  function Remainders(column: nat, lines: seq<seq<byte>>): seq<Entry>
  {
    seq(|lines|, i requires 0 <= i < |lines| => Some(RemainderOf(column, lines[i])))
  }

  function Selections(column: nat, lines: seq<seq<byte>>): seq<seq<byte>>
    requires forall i :: 0 <= i < |lines| ==> HasColumn(column, lines[i])
  {
    seq(|lines|, i requires 0 <= i < |lines| => Selected(column, lines[i]))
  }

  /** What a run of `split` does: the entries it pushes, the values it writes
      to the filter, and how it ends. */
  datatype SplitTrace = SplitTrace(pushed: seq<Entry>, written: seq<seq<byte>>, outcome: Outcome)

  /** The specification of `split` over the input lines `lines`: every line
      up to and including the first one without a field at `column` has its
      remainder pushed; every line before it has its field written; the
      sentinel is pushed only when no line is short. */
  function SplitRun(column: nat, lines: seq<seq<byte>>): SplitTrace
  {
    var k := FirstShort(column, lines);
    if k == |lines| then
      SplitTrace(Remainders(column, lines) + [None], Selections(column, lines), Pass)
    else
      SplitTrace(Remainders(column, lines[..k + 1]), Selections(column, lines[..k]), Fail(ColumnOutOfRange(k)))
  }

  lemma RemaindersStep(column: nat, lines: seq<seq<byte>>, i: nat)
    requires i < |lines|
    ensures Remainders(column, lines[..i + 1]) == Remainders(column, lines[..i]) + [Some(RemainderOf(column, lines[i]))]
  {
  }

  lemma SelectionsStep(column: nat, lines: seq<seq<byte>>, i: nat)
    requires i < |lines|
    requires forall j :: 0 <= j <= i ==> HasColumn(column, lines[j])
    ensures Selections(column, lines[..i + 1]) == Selections(column, lines[..i]) + [Selected(column, lines[i])]
  {
  }

  /** The first short line is the one found by scanning from the start. */
  lemma FirstShortAt(column: nat, lines: seq<seq<byte>>, i: nat)
    requires i <= |lines|
    requires forall j :: 0 <= j < i ==> HasColumn(column, lines[j])
    requires i < |lines| ==> !HasColumn(column, lines[i])
    ensures FirstShort(column, lines) == i
  {
  }

  /** `split(column, queue, fin, fout)`: `written` is what goes to `fout`. */
  method Split(column: nat, queue: AlignmentQueue, fin: seq<seq<byte>>)
    returns (written: seq<seq<byte>>, outcome: Outcome)
    modifies queue
    ensures queue.entries == old(queue.entries) + SplitRun(column, fin).pushed
    ensures written == SplitRun(column, fin).written
    ensures outcome == SplitRun(column, fin).outcome
  {
    written := [];
    for i := 0 to |fin|
      invariant queue.entries == old(queue.entries) + Remainders(column, fin[..i])
      invariant forall j :: 0 <= j < i ==> HasColumn(column, fin[j])
      invariant written == Selections(column, fin[..i])
    {
      var fields := FieldsOf(fin[i]);
      queue.Put(Some(RemoveAt(fields, column)));
      RemaindersStep(column, fin, i);
      if column >= |fields| {
        // fields[column] raises IndexError after the remainder is queued
        FirstShortAt(column, fin, i);
        outcome := Fail(ColumnOutOfRange(i));
        return;
      }
      written := written + [fields[column] + [NL]];
      SelectionsStep(column, fin, i);
    }
    FirstShortAt(column, fin, |fin|);
    assert fin[..|fin|] == fin;
    queue.Put(None);
    outcome := Pass;
  }

  /** `split` succeeds exactly when every line has a field at `column`. */
  lemma SplitOutcome(column: nat, lines: seq<seq<byte>>)
    ensures SplitRun(column, lines).outcome == Pass <==> forall j :: 0 <= j < |lines| ==> HasColumn(column, lines[j])
  {
  }

  /** When every line has a field at `column`, `split` pushes one remainder
      per line, in order, then a single sentinel, and writes one value per
      line, in order. */
  lemma SplitPassShape(column: nat, lines: seq<seq<byte>>)
    requires forall j :: 0 <= j < |lines| ==> HasColumn(column, lines[j])
    ensures var t := SplitRun(column, lines);
      t.outcome == Pass &&
      |t.pushed| == |lines| + 1 && t.pushed[|lines|] == None &&
      (forall j :: 0 <= j < |lines| ==> t.pushed[j] == Some(RemainderOf(column, lines[j]))) &&
      |t.written| == |lines| &&
      (forall j :: 0 <= j < |lines| ==> t.written[j] == FieldsOf(lines[j])[column] + [NL])
  {
  }

  /** When line `k` is the first without a field at `column`, `split` fails
      there after pushing the remainders of lines `0..k`, the last being that
      line's whole field list, and no sentinel; it has written the values of
      the lines before `k`. */
  lemma SplitFailShape(column: nat, lines: seq<seq<byte>>, k: nat)
    requires k < |lines| && !HasColumn(column, lines[k])
    requires forall j :: 0 <= j < k ==> HasColumn(column, lines[j])
    ensures var t := SplitRun(column, lines);
      t.outcome == Fail(ColumnOutOfRange(k)) &&
      |t.pushed| == k + 1 && None !in t.pushed &&
      (forall j :: 0 <= j <= k ==> t.pushed[j] == Some(RemainderOf(column, lines[j]))) &&
      t.pushed[k] == Some(FieldsOf(lines[k])) &&
      |t.written| == k &&
      (forall j :: 0 <= j < k ==> t.written[j] == FieldsOf(lines[j])[column] + [NL])
  {
  }

  /** A remainder is the line's field list with the selected field taken out:
      one field shorter, and putting the field back restores the list. */
  lemma RemainderShape(column: nat, line: seq<byte>)
    requires HasColumn(column, line)
    ensures |RemainderOf(column, line)| == |FieldsOf(line)| - 1
    ensures InsertAt(RemainderOf(column, line), column, FieldsOf(line)[column]) == FieldsOf(line)
  {
  }

  // ---------------------------------------------------------------------
  // merge

  /** `b'\t'.join(fields[:column] + [field.rstrip(b'\n')] + fields[column:]) + b'\n'`. */
  function MergeLine(column: nat, rem: Remainder, field: seq<byte>): seq<byte>
  {
    JoinWith(TAB, InsertAt(rem, column, StripTrailingNewlines(field))) + [NL]
  }

  /** What a run of `merge` does: the lines it writes, the number of entries
      it pops, and how it ends. */
  datatype MergeTrace = MergeTrace(output: seq<seq<byte>>, popped: nat, outcome: Outcome)

  /** The specification of `merge` on a queue holding `entries` and the
      filter's output lines `fin`: one pop per filter line, then one more. */
  function MergeRun(column: nat, entries: seq<Entry>, fin: seq<seq<byte>>): MergeTrace
    decreases |fin|
  {
    if entries == [] then MergeTrace([], 0, Fail(Blocked))
    else if fin == [] then MergeTrace([], 1, if entries[0].None? then Pass else Fail(FewerLines))
    else match entries[0]
      case None => MergeTrace([], 1, Fail(MoreLines))
      case Some(rem) =>
        var rest := MergeRun(column, entries[1..], fin[1..]);
        MergeTrace([MergeLine(column, rem, fin[0])] + rest.output, 1 + rest.popped, rest.outcome)
  }

  lemma MergeRunStep(column: nat, entries: seq<Entry>, fin: seq<seq<byte>>, i: nat)
    requires i < |fin| && entries != [] && entries[0].Some?
    ensures var rest := MergeRun(column, entries[1..], fin[i + 1..]);
      MergeRun(column, entries, fin[i..])
        == MergeTrace([MergeLine(column, entries[0].value, fin[i])] + rest.output, 1 + rest.popped, rest.outcome)
  {
  }

  /** `merge(column, queue, fin, fout)`: `output` is what goes to `fout`. A pop
      from an empty queue ends the run as `Blocked`: nothing can fill the
      queue once `split` has finished. */
  method Merge(column: nat, queue: AlignmentQueue, fin: seq<seq<byte>>)
    returns (output: seq<seq<byte>>, outcome: Outcome)
    modifies queue
    ensures var t := MergeRun(column, old(queue.entries), fin);
      output == t.output && outcome == t.outcome &&
      t.popped <= |old(queue.entries)| && queue.entries == old(queue.entries)[t.popped..]
  {
    ghost var q0 := queue.entries;
    output := [];
    for i := 0 to |fin|
      invariant i <= |q0| && queue.entries == q0[i..]
      invariant var t := MergeRun(column, queue.entries, fin[i..]);
        MergeRun(column, q0, fin) == MergeTrace(output + t.output, i + t.popped, t.outcome)
    {
      if queue.entries == [] {
        outcome := Fail(Blocked);
        return;
      }
      var fields := queue.Get();
      if fields.None? {
        outcome := Fail(MoreLines);
        return;
      }
      var line := JoinWith(TAB, InsertAt(fields.value, column, StripTrailingNewlines(fin[i]))) + [NL];
      MergeRunStep(column, q0[i..], fin, i);
      assert q0[i..][1..] == q0[i + 1..];
      ghost var rest := MergeRun(column, queue.entries, fin[i + 1..]);
      assert output + [line] + rest.output == output + ([line] + rest.output);
      output := output + [line];
    }
    if queue.entries == [] {
      outcome := Fail(Blocked);
      return;
    }
    var last := queue.Get();
    if last.Some? {
      outcome := Fail(FewerLines);
      return;
    }
    outcome := Pass;
  }

  /** The index of the first sentinel among `entries`, or their number when
      there is none. */
  function FirstSentinel(entries: seq<Entry>): (k: nat)
    ensures k <= |entries|
    ensures forall j :: 0 <= j < k ==> entries[j].Some?
    ensures k < |entries| ==> entries[k].None?
    decreases |entries|
  {
    if entries == [] || entries[0].None? then 0 else 1 + FirstSentinel(entries[1..])
  }

  /** How `merge` ends, decided by where the first sentinel `k` sits against
      the number `n` of filter lines: it writes one line per remainder popped
      before the sentinel or the end of the filter output, fails with "more
      lines" when it pops the sentinel while filter lines remain, with "fewer
      lines" when the entry after the last filter line is not the sentinel,
      and succeeds exactly when the sentinel comes right after `n` remainders. */
  lemma {:induction false} MergeRunSpec(column: nat, entries: seq<Entry>, fin: seq<seq<byte>>)
    ensures var t := MergeRun(column, entries, fin);
      var k, n := FirstSentinel(entries), |fin|;
      (t.outcome == Pass <==> k == n < |entries|) &&
      (t.outcome == Fail(MoreLines) <==> k < n && k < |entries|) &&
      (t.outcome == Fail(FewerLines) <==> n < k) &&
      (t.outcome == Fail(Blocked) <==> k == |entries| <= n) &&
      |t.output| == Min(k, n) &&
      t.popped == Min(Min(k, n) + 1, |entries|) &&
      (forall j :: 0 <= j < |t.output| ==> t.output[j] == MergeLine(column, entries[j].value, fin[j]))
    decreases |fin|
  {
    if entries != [] && fin != [] && entries[0].Some? {
      MergeRunSpec(column, entries[1..], fin[1..]);
      var rest := MergeRun(column, entries[1..], fin[1..]);
      var t := MergeRun(column, entries, fin);
      assert FirstSentinel(entries) == 1 + FirstSentinel(entries[1..]);
      assert forall j :: 1 <= j < |t.output| ==> t.output[j] == rest.output[j - 1];
    }
  }
}
