/** Small shared datatypes: an optional value, and the outcome of a call into
    a third-party library that may throw. */
module Base {

  /** A value that may be absent (`null`/`undefined` in the workspace's code). */
  datatype Option<+T> = None | Some(value: T) {

    /** The value, or `default` when absent (the `??` operator). */
    function GetOr(default: T): T {
      match this
      case Some(v) => v
      case None => default
    }
  }

  /** The outcome of a call that either returns a value or throws. What was
      thrown is never inspected by the workspace, so it is not recorded. */
  datatype Try<+T> = Ok(value: T) | Thrown

  /** The ordinals `0, 1, ..., n - 1` in increasing order. */
  function Range(n: nat): (r: seq<nat>)
    ensures |r| == n
    ensures forall i :: 0 <= i < n ==> r[i] == i
  {
    seq(n, i => i)
  }
}
