/** Small concepts the components share. */
module Basics {

  datatype Option<+T> = None | Some(value: T)

  function Min(a: nat, b: nat): nat {
    if a < b then a else b
  }

  /** `s` with `x` put in at `pos`. */
  function Splice<T>(s: seq<T>, pos: nat, x: T): (t: seq<T>)
    requires pos <= |s|
    ensures |t| == |s| + 1
    ensures forall k :: 0 <= k < |t| ==> t[k] == if k < pos then s[k] else if k == pos then x else s[k - 1]
  {
    s[..pos] + [x] + s[pos..]
  }
}
