/**
 * Index-based access to a string (String+Ex.swift): the subscripts of the
 * `String` extension and `substring(form:/to:/with:/at:length:)`, `insert` and
 * `replace(with:_:)` of the `kc` wrapper. Indices count characters from 0.
 * Where the Swift code would trap (an index outside the string, a closed range
 * reaching `endIndex`), the model states the trap's absence as a `requires`.
 * Debug-only `assert` calls are not part of the release build and are not
 * modelled.
 */
module StringIndex {

  /** The setter of `subscript(_ idx: Int)`: the string rebuilt from its character
    * array with one element replaced. */
  method SetCharAt(s: string, idx: int, c: char) returns (r: string)
    requires 0 <= idx < |s|
    ensures |r| == |s| && r[idx] == c
    ensures forall j :: 0 <= j < |s| && j != idx ==> r[j] == s[j]
  {
    var arr := new char[|s|](i requires 0 <= i < |s| => s[i]);
    arr[idx] := c;
    r := arr[..];
  }

  /** `subscript(_ idxs: Int...)`: the characters at the listed indices, in the
    * order listed (indices may repeat). */
  method CharsAt(s: string, idxs: seq<int>) returns (r: string)
    requires forall k :: 0 <= k < |idxs| ==> 0 <= idxs[k] < |s|
    ensures |r| == |idxs|
    ensures forall k :: 0 <= k < |idxs| ==> r[k] == s[idxs[k]]
  {
    r := [];
    for k := 0 to |idxs|
      invariant |r| == k
      invariant forall j :: 0 <= j < k ==> r[j] == s[idxs[j]]
    {
      r := r + [s[idxs[k]]];
    }
  }

  /** `subscript(_ idxs: CountableRange<Int>)`, `s[lo..<hi]`. */
  function SliceHalfOpen(s: string, lo: int, hi: int): (r: string)
    requires 0 <= lo <= hi <= |s|
    ensures |r| == hi - lo && forall k :: 0 <= k < |r| ==> r[k] == s[lo + k]
  {
    s[lo..hi]
  }

  /** `subscript(_ idxs: CountableClosedRange<Int>)`, `s[lo...hi]`: both ends kept. */
  function SliceClosed(s: string, lo: int, hi: int): (r: string)
    requires 0 <= lo <= hi < |s|
    ensures |r| == hi - lo + 1 && r[0] == s[lo] && r[|r| - 1] == s[hi]
    ensures r == SliceHalfOpen(s, lo, hi + 1)
  {
    s[lo..hi + 1]
  }

  /** `subscript(_ idxs: CountablePartialRangeFrom<Int>)`, `s[lo...]`: the closed
    * range up to index `count - 1`, which is why the empty string traps. */
  function SliceFrom(s: string, lo: int): (r: string)
    requires 0 <= lo < |s|
    ensures s == s[..lo] + r
    ensures r == SliceClosed(s, lo, |s| - 1)
  {
    SliceClosed(s, lo, |s| - 1)
  }

  /** `subscript(_ idxs: PartialRangeThrough<Int>)`, `s[...hi]`, with `hi` clamped
    * to the last index. */
  function SliceThrough(s: string, hi: int): (r: string)
    requires 0 <= hi && |s| >= 1
    ensures hi < |s| ==> |r| == hi + 1
    ensures hi >= |s| ==> r == s
    ensures r <= s
  {
    SliceClosed(s, 0, if hi < |s| - 1 then hi else |s| - 1)
  }

  /** `subscript(_ idxs: PartialRangeUpTo<Int>)`, `s[..<hi]`, with `hi` clamped to
    * the length. */
  function SliceUpTo(s: string, hi: int): (r: string)
    requires 0 <= hi
    ensures hi <= |s| ==> |r| == hi
    ensures hi >= |s| ==> r == s
    ensures r <= s
  {
    SliceHalfOpen(s, 0, if hi < |s| then hi else |s|)
  }

  /** `substring(form: i)`: everything from index `i` on. */
  function SubstringFrom(s: string, i: int): (r: string)
    requires 0 <= i <= |s|
    ensures |r| == |s| - i && s == s[..i] + r
  {
    s[i..]
  }

  /** `substring(to: i)`: the whole string when `i > count`, otherwise the
    * characters up to AND INCLUDING index `i`. `i == count` and negative `i`
    * trap in the source. */
  function SubstringTo(s: string, i: int): (r: string)
    requires 0 <= i && i != |s|
    ensures i > |s| ==> r == s
    ensures i < |s| ==> |r| == i + 1 && r <= s
  {
    if i > |s| then s else s[..i + 1]
  }

  /** The closed range `lo...hi` clamped as `substring(with:)` and
    * `replace(with:_:)` clamp it: `max(0, lo)` and `min(count, hi)`. The upper
    * clamp does not prevent the trap at `hi >= count`, so the range must end
    * inside the string. */
  predicate ClampedRangeFits(s: string, lo: int, hi: int)
  {
    lo <= hi && 0 <= hi < |s|
  }

  /** `max(0, lo)`: the least natural number at or above `lo`. */
  function ClampLow(lo: int): (start: nat)
    ensures start >= lo
    ensures start == 0 || start == lo
  {
    if lo < 0 then 0 else lo
  }

  /** `substring(with: lo...hi)`. */
  function SubstringWith(s: string, lo: int, hi: int): (r: string)
    requires ClampedRangeFits(s, lo, hi)
    ensures |r| == hi - ClampLow(lo) + 1
    ensures forall k :: 0 <= k < |r| ==> r[k] == s[ClampLow(lo) + k]
  {
    SliceClosed(s, ClampLow(lo), if |s| < hi then |s| else hi)
  }

  /** `substring(at: location, length: length)`: appends the characters one by
    * one. A zero length runs no step and gives "" wherever `location` is; a
    * negative length traps in the range `location..<(location + length)`. */
  method SubstringAt(s: string, location: int, length: int) returns (r: string)
    requires 0 <= length && (length == 0 || (0 <= location && location + length <= |s|))
    ensures |r| == length
    ensures forall k :: 0 <= k < length ==> r[k] == s[location + k]
  {
    r := "";
    for idx := location to location + length
      invariant length > 0 ==> r == s[location..idx]
      invariant length == 0 ==> r == ""
    {
      r := r + [s[idx]];
    }
  }

  /** `insert(a, at: k)`: `substring(to: k - 1) + a + substring(form: k)`. Index
    * 0 traps in `substring(to: -1)`, so `k` ranges over 1...count. */
  function Insert(s: string, a: string, k: int): (r: string)
    requires 1 <= k <= |s|
    ensures r == s[..k] + a + s[k..]
  {
    SubstringTo(s, k - 1) + a + SubstringFrom(s, k)
  }

  /** `replace(with: a, lo...hi)`: the clamped closed range replaced by `a`. */
  function ReplaceRange(s: string, a: string, lo: int, hi: int): (r: string)
    requires ClampedRangeFits(s, lo, hi)
    ensures |r| == |s| - (hi - ClampLow(lo) + 1) + |a|
    ensures r == s[..ClampLow(lo)] + a + s[hi + 1..]
    ensures s == s[..ClampLow(lo)] + SubstringWith(s, lo, hi) + s[hi + 1..]
  {
    var start := ClampLow(lo);
    var end := if |s| < hi then |s| else hi;
    s[..start] + a + s[end + 1..]
  }

  /** Replacing a range by the characters it holds gives the string back. */
  lemma ReplaceBySameIsIdentity(s: string, lo: int, hi: int)
    requires ClampedRangeFits(s, lo, hi)
    ensures ReplaceRange(s, SubstringWith(s, lo, hi), lo, hi) == s
  {
  }

  /** Splitting at any index by the inclusive and exclusive conventions
    * reassembles the string. */
  lemma {:induction false} SubstringToFromSplit(s: string, i: int)
    requires 0 <= i < |s|
    ensures SubstringTo(s, i) + SubstringFrom(s, i + 1) == s
  {
    assert s[..i + 1] + s[i + 1..] == s;
  }
}
