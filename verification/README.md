# col: one column through a filter, re-aligned with the rest of each line

`col.py <column> <command> [args...]` reads tab-separated lines, sends only
the field at index `column` of each line to a filter subprocess, and writes
each line again with the filter's output in place of that field. Two threads
do the work around a FIFO queue:

- `split` strips each input line's trailing newlines, splits it on the tab
  byte, pushes the other fields (the *remainder*) onto the queue and writes
  the selected field plus a newline to the filter. After the last line it
  pushes one `None` sentinel.
- `merge` pops one queue entry per line the filter writes back, puts the
  transformed value (newlines stripped) back at `column` in the remainder
  and writes the tab-joined line. Popping the sentinel too early means the
  filter produced more lines than it was given; when the filter's output
  ends, the next entry must be the sentinel, or it produced fewer lines.

This project models that transformation in Dafny and proves its alignment
properties. Modules:

- `Bytes` (`bytes.dfy`): bytes, `rstrip(b'\n')`, `split(b'\t')` and
  `b'\t'.join`, with split and join proved inverse in both directions.
- `Streams` (`streams.dfy`): a binary stream read line by line, as
  `for line in f` does, with reading and re-writing proved lossless.
- `Fields` (`fields.dfy`): removing and inserting a field with Python's list
  slice semantics, including an index past the end.
- `Col` (`col.dfy`): the queue as a class, `split` and `merge` as methods
  with loops, each proved against a specification function (`SplitRun`,
  `MergeRun`), and `none_throws`.
- `Pipeline` (`pipeline.dfy`): `split` followed by `merge` over one queue:
  row-count mismatch detection, remainders restored, identity round trip.
- `Scenarios` (`scenarios.dfy`): a worked three-field case.

The two threads share only the queue, with one producer and one consumer,
so the data they produce does not depend on how they interleave. The model
therefore runs `Split` to completion and then `Merge` on the same fresh
queue object (`Pipeline.Run`). The filter is a black box: its output lines are a parameter of
`Merge`. For the identity round trip, that parameter is the stream `Split`
wrote, read back line by line.

Two details of the code decide the model's edge cases:

- `rstrip(b'\n')` removes every trailing newline, not just one, and so does
  `StripTrailingNewlines`.
- `split` pushes a line's remainder before it looks up `fields[column]`. So
  a line with too few fields still has its remainder queued when the
  IndexError is raised. That remainder is the line's whole field list,
  because a Python slice past the end is empty.

## Model

| member | source | states |
|---|---|---|
| `Bytes.StripTrailingNewlines` | col.py:37 | the result is the longest prefix not ending in a newline such that only newlines follow it |
| `Bytes.StripAppendedNewlines` | col.py:37 | stripping a byte string that does not end in a newline, after appending any number of newlines, gives it back |
| `Bytes.SplitOn` | col.py:37 | a split has at least one field and no field contains the separator |
| `Bytes.JoinWith` | col.py:49 | `sep.join(fs)`: the fields with one separator between neighbours, empty for no fields |
| `Bytes.JoinSplit` | col.py:37 | joining the fields of a split with the same separator restores the byte string |
| `Bytes.SplitJoin` | col.py:49 | splitting a join of a non-empty list of separator-free fields gives the list back |
| `Bytes.JoinExcludes` | col.py:49 | a byte that is not the separator and is in no field is not in the join |
| `Bytes.SplitExcludes` | col.py:37 | a byte absent from the input is absent from every field of its split |
| `Streams.LineLength` | col.py:36 | the first line of a stream runs through its first newline, or to the end when there is none before the last byte |
| `Streams.Concat` | col.py:39 | the bytes a stream holds after each element is written to it in turn |
| `Streams.Lines` | col.py:36 | the lines `for line in f` yields: each runs through the next newline, the last possibly without one |
| `Streams.ConcatLines` | col.py:36 | concatenating the lines read from a stream gives the stream |
| `Streams.LinesTerminated` | col.py:36 | a stream that ends in a newline is read as newline-terminated lines with no other newline |
| `Streams.LinesConcat` | col.py:45 | writing terminated lines and reading them back line by line yields exactly those lines |
| `Fields.RemoveAt` | col.py:38 | `fs[:i] + fs[i+1:]` is one shorter and keeps every other element in order; an index past the end changes nothing |
| `Fields.InsertAt` | col.py:49 | `fs[:i] + [x] + fs[i:]` is one longer, holds `x` at `min(i, len(fs))` and keeps the other elements in order around it |
| `Fields.InsertRemove` | col.py:38 | putting the removed element back at its index restores the list |
| `Fields.RemoveInsert` | col.py:49 | removing an element inserted at an index no greater than the length restores the list |
| `Col.NoneThrows` | col.py:18-21 | returns the value exactly when there is one, and the given message as the error otherwise |
| `Col.AlignmentQueue.constructor` | col.py:13 | the queue starts empty |
| `Col.AlignmentQueue.Put` | col.py:38 | appends the entry at the back |
| `Col.AlignmentQueue.Get` | col.py:46 | removes and returns the oldest entry |
| `Col.FieldsOf` | col.py:37 | `line.rstrip(b'\n').split(b'\t')` |
| `Col.RemainderOf` | col.py:38 | `fields[:column] + fields[(column+1):]`, the remainder queued for a line |
| `Col.Selected` | col.py:39 | `fields[column] + b'\n'`, the value written to the filter, defined only when the line has the column |
| `Col.FirstShort` | col.py:39 | the index of the first line without a field at `column`, every earlier line having one |
| `Col.SplitRun` | col.py:35-41 | the specification of `split`: the remainders of the lines up to the first line without the column, or of all lines followed by the sentinel; the values of the lines before it; and the outcome |
| `Col.Split` | col.py:35-41 | the queue gains exactly the entries, and the filter receives exactly the values, that `SplitRun` gives, and the outcome is `SplitRun`'s |
| `Col.SplitOutcome` | col.py:36-39 | split succeeds exactly when every input line has a field at `column` |
| `Col.SplitPassShape` | col.py:36-40 | when every line has the column, split queues one remainder per line in order, then a single sentinel, and writes one value, `fields[column] + b'\n'`, per line in order |
| `Col.SplitFailShape` | col.py:36-39 | at the first line without the column, split fails after queuing the remainders up to and including that line (its whole field list), with no sentinel, having written the values of the earlier lines |
| `Col.RemainderShape` | col.py:37-38 | a remainder is one field shorter than the line's field list, and inserting the selected field at `column` restores the list |
| `Col.MergeLine` | col.py:49 | the output line: the stripped filter value inserted at `column` in the remainder, tab-joined, with a newline |
| `Col.MergeRun` | col.py:44-52 | the specification of `merge`: one pop per filter line, failing on a sentinel; after the last filter line one more pop, failing unless it is the sentinel; a pop from an empty queue is `Blocked` |
| `Col.Merge` | col.py:44-52 | the output, outcome and entries popped are those of `MergeRun`; the queue keeps the rest |
| `Col.FirstSentinel` | col.py:47 | the index of the first sentinel, every earlier entry being a remainder |
| `Col.MergeRunSpec` | col.py:45-51 | with the first sentinel at `k` and `n` filter lines: "more lines" iff `k < n`, "fewer lines" iff `n < k`, success iff `k == n`, blocked only when no sentinel is left; `min(k, n)` lines are written, the `j`-th merging the `j`-th remainder with the `j`-th filter line |
| `Pipeline.FirstSentinelAfterSplit` | col.py:40 | after a complete split of `n` lines the first sentinel is at index `n` |
| `Pipeline.Alignment` | col.py:36-51 | after a successful split of `n` lines, merge over `m` filter lines succeeds iff `m == n`, reports "more lines" iff `m > n` and "fewer lines" iff `m < n`, never blocks, and pairs each filter line with the remainder of the input line at the same position |
| `Pipeline.Run` | col.py:35-52 | `Split` then `Merge` on one fresh queue, for any input: the filter receives exactly what `SplitRun` writes and split's outcome is `SplitRun`'s, passing iff every line has the column; a failed split ends the run with no merge output; after a successful split, merge succeeds iff the filter wrote as many lines as it was given, reports "more lines" iff more and "fewer lines" iff fewer, and pairs each filter line with the matching input line's remainder |
| `Pipeline.MergedFields` | col.py:49 | a merged line splits into the remainder with the stripped value at `column`, so removing `column` gives the remainder back |
| `Pipeline.MergeRestoresRemainder` | col.py:38-49 | removing `column` from the fields of the `j`-th output line gives the `j`-th input line's remainder, and the field at `column` is the `j`-th filter line stripped |
| `Pipeline.LineRoundTrip` | col.py:37-49 | a terminated line with the column comes back unchanged through split, an identity filter and merge |
| `Pipeline.RoundTrip` | col.py:35-52 | merge fed with exactly what split wrote reproduces every input line and succeeds, popping every entry |
| `Pipeline.WrittenAreLines` | col.py:39 | every value split writes to the filter is a newline-terminated line |
| `Pipeline.StreamRoundTrip` | col.py:35-52 | for an input stream ending in a newline whose every line has the column, split and then merge over the bytes written to an identity filter reproduce the input byte for byte |
| `Pipeline.LineCountInvariance` | col.py:45-51 | a filter that writes one line per line it was given makes merge succeed with as many output lines as input lines |
| `Scenarios.MiddleColumnScenario` | col.py:35-52 | a three-field line with column 1 sends only the middle field, and comes back with the filter's value in the middle |

## Left out

- Spawning the filter (`Popen`) and waiting for it (`child.wait()`): OS process I/O with an external program. The filter's output lines are a parameter of `Merge`.
- The two threads, `SimpleQueue`'s blocking and `join`: `Split` runs to completion before `Merge`. With one producer and one consumer this gives the same data. A pop from an empty queue, which would wait forever, is the `Blocked` failure; after a complete split it cannot happen (`Pipeline.Alignment`).
- `exit_on_throw` and its `SIGKILL` of the whole process: modelled only as the `Fail` outcome of `Split` or `Merge`. In the concurrent program, `merge` may already have written some lines when `split` fails; the sequential model does not capture that output.
- The exit codes (2 when the command is not found, 127 for other failures, otherwise the filter's own code) and the module-level orchestration: process control.
- `fout.close()`, `print_exc` and the error messages' wording: stream side effects with no data semantics.
- Negative `column` values: these fall into Python's negative-index slicing, which is not the intended use, so `column` is a `nat`.
- `Col.AlignmentQueue.Get`: requires a non-empty queue instead of blocking; `Col.Merge` checks for an empty queue before each pop and reports `Blocked`.
