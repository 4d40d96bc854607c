/** Small pieces that several components share. */
module Basics {
  datatype Option<+T> = None | Some(value: T)

  function Min(a: nat, b: nat): nat {
    if a < b then a else b
  }

  /** The sequence without its element at `n`. */
  ghost function Without<X>(s: seq<X>, n: nat): (r: seq<X>)
    requires n < |s|
    ensures |r| == |s| - 1
    ensures forall i :: 0 <= i < n ==> r[i] == s[i]
    ensures forall i :: n <= i < |r| ==> r[i] == s[i + 1]
    ensures forall y :: y in r ==> y in s
  {
    s[..n] + s[n + 1..]
  }
}
