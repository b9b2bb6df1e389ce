/** Values that may be missing, and lists of one repeated value. */
module Wrappers {

  datatype Option<+T> = None | Some(value: T)

  function Times<T>(n: nat, x: T): (xs: seq<T>)
    ensures |xs| == n && forall i :: 0 <= i < n ==> xs[i] == x
  {
    seq(n, _ => x)
  }
}
