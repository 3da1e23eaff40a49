/** Sequence helpers shared by the modules. */
module Sequences {
  /** `s` with the element at `i` removed, as `Vec::remove` leaves it. */
  function Without<T>(s: seq<T>, i: nat): (r: seq<T>)
    requires i < |s|
    ensures |r| == |s| - 1
  {
    s[..i] + s[i + 1..]
  }
}
