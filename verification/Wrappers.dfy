/** Shared small definitions. */
module Wrappers {
  datatype Option<+T> = None | Some(value: T)

  /** The first position at which a test holds, or the length. */
  function IndexWhere<T>(s: seq<T>, test: T -> bool): (i: nat)
    ensures i <= |s| && (i < |s| ==> test(s[i]))
    ensures forall j :: 0 <= j < i ==> !test(s[j])
  {
    if s == [] || test(s[0]) then 0 else 1 + IndexWhere(s[1..], test)
  }
}
