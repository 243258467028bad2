/** Small definitions the other modules share. */
module Wrappers {

  datatype Option<T> = None | Some(value: T)

  /** The position of the first occurrence of x in s. */
  function Position<T(==)>(s: seq<T>, x: T): (r: nat)
    requires x in s
    ensures r < |s| && s[r] == x
    ensures forall j :: 0 <= j < r ==> s[j] != x
  {
    if s[0] == x then 0 else 1 + Position(s[1..], x)
  }
}
