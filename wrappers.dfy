/** Small value types shared by the other modules. */
module Wrappers {

  /** Swift's optional: `nil` is `None`. */
  datatype Option<+T> = None | Some(value: T)

  /**
   * The lookup that Swift synthesises for an enumeration with `String` raw
   * values (`init?(rawValue:)`): the first case, in declaration order, whose
   * raw value is `s`, or `None` when no case has that raw value.
   */
  function FindByRawValue<T>(cases: seq<T>, raw: T -> string, s: string): (r: Option<T>)
    ensures r.Some? ==> r.value in cases && raw(r.value) == s
    ensures r.None? ==> forall k :: 0 <= k < |cases| ==> raw(cases[k]) != s
  {
    if cases == [] then None
    else if raw(cases[0]) == s then Some(cases[0])
    else FindByRawValue(cases[1..], raw, s)
  }
}
