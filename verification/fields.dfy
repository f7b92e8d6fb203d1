/** Taking a field out of a line's field list and putting one back, with the
    slice semantics of Python lists for a non-negative index
    (`fs[:i] + fs[i+1:]` and `fs[:i] + [x] + fs[i:]`). */
module Fields {

  function Min(a: nat, b: nat): nat
  {
    if a <= b then a else b
  }

  /** `fs[:i] + fs[i+1:]`: drops the element at `i`, keeping the others in
      order; an index past the end drops nothing. */
  function RemoveAt<T>(fs: seq<T>, i: nat): (r: seq<T>)
    ensures |r| == if i < |fs| then |fs| - 1 else |fs|
    ensures forall j :: 0 <= j < Min(i, |r|) ==> r[j] == fs[j]
    ensures forall j :: i <= j < |r| ==> r[j] == fs[j + 1]
    ensures |fs| <= i ==> r == fs
  {
    fs[..Min(i, |fs|)] + fs[Min(i + 1, |fs|)..]
  }

  /** `fs[:i] + [x] + fs[i:]`: `x` lands at `i`, or at the end when `i` is
      past it; the other elements keep their order around it. */
  function InsertAt<T>(fs: seq<T>, i: nat, x: T): (r: seq<T>)
    ensures |r| == |fs| + 1
    ensures r[Min(i, |fs|)] == x
    ensures forall j :: 0 <= j < Min(i, |fs|) ==> r[j] == fs[j]
    ensures forall j :: Min(i, |fs|) < j < |r| ==> r[j] == fs[j - 1]
  {
    fs[..Min(i, |fs|)] + [x] + fs[Min(i, |fs|)..]
  }

  /** Putting the removed element back where it was restores the list. */
  lemma InsertRemove<T>(fs: seq<T>, i: nat)
    requires i < |fs|
    ensures InsertAt(RemoveAt(fs, i), i, fs[i]) == fs
  {
  }

  /** Removing an inserted element gives the list back, provided the index
      was not past the end (otherwise the element went to the end instead). */
  lemma RemoveInsert<T>(fs: seq<T>, i: nat, x: T)
    requires i <= |fs|
    ensures RemoveAt(InsertAt(fs, i, x), i) == fs
  {
  }
}
