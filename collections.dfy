/**
 * `subscript(safe:)` of Collection+Ex.swift, on an array: the element at an
 * index the collection has, `nil` for any other index.
 */
module Collections {
  import opened Wrappers

  function SafeIndex<T>(s: seq<T>, index: int): (r: Option<T>)
    ensures r.Some? <==> 0 <= index < |s|
    ensures r.Some? ==> r.value == s[index]
  {
    if 0 <= index < |s| then Some(s[index]) else None
  }
}
