module Options {
  datatype Option<+T> = None | Some(value: T)

  /** The index of the first element from `start` on that passes `test`, as `find` and a search loop have it. */
  function FindFrom<T>(xs: seq<T>, test: T -> bool, start: nat): (found: Option<nat>)
    requires start <= |xs|
    ensures found.Some? ==> start <= found.value < |xs| && test(xs[found.value])
    ensures forall i | start <= i < |xs| && (found.None? || i < found.value) :: !test(xs[i])
    decreases |xs| - start
  {
    if start == |xs| then None
    else if test(xs[start]) then Some(start)
    else FindFrom(xs, test, start + 1)
  }
}
