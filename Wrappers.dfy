/** Failure-compatible result types shared by the model. */
module Wrappers {

  /** A value that may be missing: a `None` lookup, an absent query parameter, a null selection. */
  datatype Option<+T> = None | Some(value: T)

  /** The outcome of an API route: the response body, or the HTTP error the route raises. */
  datatype Result<+T, +E> = Success(value: T) | Failure(error: E)

  /** The first `n` elements of `s`, or all of `s` when it is shorter (a cursor's `to_list(n)` or `$limit`). */
  function Take<T>(s: seq<T>, n: nat): (r: seq<T>)
    ensures |r| <= n && |r| <= |s|
    ensures |s| <= n ==> r == s
    ensures n <= |s| ==> |r| == n
    ensures forall i :: 0 <= i < |r| ==> r[i] == s[i]
  {
    if |s| <= n then s else s[..n]
  }
}
