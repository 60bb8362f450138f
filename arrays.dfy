/**
 * `append(_ elements:)` of Array+Ex.swift. A Swift array is a value and the
 * method is `mutating`, so the model takes the array and returns the new one.
 */
module Arrays {

  /** Appends the elements one by one, in order. */
  method AppendAll<T>(self: seq<T>, elements: seq<T>) returns (r: seq<T>)
    ensures r == self + elements
    ensures |r| == |self| + |elements|
    ensures r[..|self|] == self
  {
    r := self;
    for i := 0 to |elements|
      invariant r == self + elements[..i]
    {
      r := r + [elements[i]];
    }
    assert elements[..|elements|] == elements;
  }
}
