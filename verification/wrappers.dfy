/** Failure-carrying results shared by the modules of this model. */
module Wrappers {

  /** A value that may be absent: stands for a nullable pointer of the source. */
  datatype Option<+T> = None | Some(value: T)

  /** The outcome of an operation that either produces a value or fails with an error. */
  datatype Result<+T, +E> = Success(value: T) | Failure(error: E)

  /** The outcome of an operation that produces nothing but may fail. */
  datatype Outcome<+E> = Pass | Fail(error: E)

  /**
   * The index of the first element of `s` satisfying `p`, or None: the
   * position of the iterator `std::find_if` returns, with the end iterator
   * as None.
   */
  function FirstWhere<T>(s: seq<T>, p: T -> bool): (r: Option<nat>)
    ensures r.Some? ==> r.value < |s| && p(s[r.value])
    ensures r.Some? ==> forall j | 0 <= j < r.value :: !p(s[j])
    ensures r.None? ==> forall j | 0 <= j < |s| :: !p(s[j])
  {
    if |s| == 0 then None
    else if p(s[0]) then Some(0)
    else match FirstWhere(s[1..], p)
      case None => None
      case Some(i) => Some(i + 1)
  }

  /** An element satisfying `p` with none before it is the one `FirstWhere` finds. */
  lemma FirstWhereIs<T>(s: seq<T>, p: T -> bool, i: nat)
    requires i < |s| && p(s[i])
    requires forall j | 0 <= j < i :: !p(s[j])
    ensures FirstWhere(s, p) == Some(i)
  {
    match FirstWhere(s, p)
    case None =>
    case Some(k) =>
  }
}
