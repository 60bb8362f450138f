/**
 * Substring search in String+Ex.swift: `indexOf`, `contains`, `split` (Foundation's
 * `components(separatedBy:)`) and `toNSRanges`. Foundation finds no occurrence
 * of the empty string, and `components(separatedBy: "")` gives the string back
 * whole; the model follows both.
 */
module StringSearch {
  import opened Wrappers
  import Chars

  predicate OccursAt(s: string, t: string, i: int)
  {
    0 <= i && i + |t| <= |s| && s[i..i + |t|] == t
  }

  /** The leftmost occurrence of `t` at or after index `i`. */
  function FindFrom(s: string, t: string, i: nat): (r: Option<nat>)
    requires i <= |s|
    decreases |s| - i
    ensures r.Some? ==> (i <= r.value && OccursAt(s, t, r.value)
      && forall m :: i <= m < r.value ==> !OccursAt(s, t, m))
    ensures r.None? ==> forall m :: i <= m <= |s| ==> !OccursAt(s, t, m)
  {
    if OccursAt(s, t, i) then Some(i)
    else if i == |s| then None
    else FindFrom(s, t, i + 1)
  }

  /** `range(of: t)` (`.literal`): the first occurrence, none for an empty `t`. */
  function Find(s: string, t: string): (r: Option<nat>)
    ensures r.Some? ==> (t != [] && OccursAt(s, t, r.value)
      && forall m :: 0 <= m < r.value ==> !OccursAt(s, t, m))
    ensures r.None? ==> t == [] || forall m :: 0 <= m <= |s| ==> !OccursAt(s, t, m)
  {
    if t == [] then None else FindFrom(s, t, 0)
  }

  /** The rightmost occurrence of `t` at or before index `i`. */
  function FindLastUpTo(s: string, t: string, i: nat): (r: Option<nat>)
    ensures r.Some? ==> (r.value <= i && OccursAt(s, t, r.value)
      && forall m :: r.value < m <= i ==> !OccursAt(s, t, m))
    ensures r.None? ==> forall m :: 0 <= m <= i ==> !OccursAt(s, t, m)
  {
    if OccursAt(s, t, i) then Some(i)
    else if i == 0 then None
    else FindLastUpTo(s, t, i - 1)
  }

  /** `range(of: t, options: .backwards)`: the last occurrence. */
  function FindLast(s: string, t: string): (r: Option<nat>)
    ensures r.Some? ==> (t != [] && OccursAt(s, t, r.value)
      && forall m :: r.value < m <= |s| ==> !OccursAt(s, t, m))
    ensures r.None? ==> t == [] || forall m :: 0 <= m <= |s| ==> !OccursAt(s, t, m)
  {
    if t == [] then None else FindLastUpTo(s, t, |s|)
  }

  /** `indexOf(t, reversed:)`: the index of the first (last, when `reversed`)
    * occurrence, or -1. */
  function IndexOf(s: string, t: string, reversed: bool): (r: int)
    ensures r >= -1
    ensures r >= 0 ==> t != [] && OccursAt(s, t, r)
    ensures r >= 0 && !reversed ==> forall m :: 0 <= m < r ==> !OccursAt(s, t, m)
    ensures r >= 0 && reversed ==> forall m :: r < m <= |s| ==> !OccursAt(s, t, m)
    ensures r == -1 <==> t == [] || forall m :: 0 <= m <= |s| ==> !OccursAt(s, t, m)
  {
    var found := if reversed then FindLast(s, t) else Find(s, t);
    if found.Some? then found.value else -1
  }

  /** `contains(t)` with its default `ignore = true`: a case-insensitive search
    * (ASCII letters fold). */
  predicate ContainsIgnoringCase(s: string, t: string)
  {
    Find(Chars.Lowercased(s), Chars.Lowercased(t)).Some?
  }

  /** `components(separatedBy: sep)`: the pieces between the successive leftmost
    * occurrences of `sep`. */
  function Split(s: string, sep: string): (parts: seq<string>)
    decreases |s|
    ensures |parts| >= 1
  {
    if sep == [] then [s]
    else match Find(s, sep)
      case None => [s]
      case Some(i) => [s[..i]] + Split(s[i + |sep|..], sep)
  }

  /** The inverse of `Split`: the pieces glued back with the separator. */
  function Join(parts: seq<string>, sep: string): string
  {
    if parts == [] then ""
    else if |parts| == 1 then parts[0]
    else parts[0] + sep + Join(parts[1..], sep)
  }

  lemma {:induction false} SplitJoin(s: string, sep: string)
    ensures Join(Split(s, sep), sep) == s
    decreases |s|
  {
    if sep != [] && Find(s, sep).Some? {
      var piece, rest := SplitFirst(s, sep);
      SplitJoin(rest, sep);
      JoinCons(piece, Split(rest, sep), sep);
    }
  }

  /** Splitting at the first occurrence: the piece before it, and what follows
    * it split in turn. */
  lemma SplitFirst(s: string, sep: string) returns (piece: string, rest: string)
    requires sep != [] && Find(s, sep).Some?
    ensures s == piece + sep + rest && |rest| < |s|
    ensures Split(s, sep) == [piece] + Split(rest, sep)
  {
    var i := Find(s, sep).value;
    piece, rest := s[..i], s[i + |sep|..];
    CutAround(s, sep, i);
  }

  /** Gluing a piece in front of at least one other. */
  lemma JoinCons(a: string, parts: seq<string>, sep: string)
    requires |parts| >= 1
    ensures Join([a] + parts, sep) == a + sep + Join(parts, sep)
  {
    assert ([a] + parts)[1..] == parts;
  }

  /** A string is what comes before an occurrence, the occurrence, and what
    * follows it. */
  lemma CutAround(s: string, t: string, i: nat)
    requires OccursAt(s, t, i)
    ensures s == s[..i] + t + s[i + |t|..]
  {
  }

  /** An occurrence stays one behind a prefix, shifted by its length. */
  lemma OccursAfterPrefix(a: string, s: string, t: string, p: int)
    requires OccursAt(s, t, p)
    ensures OccursAt(a + s, t, |a| + p)
  {
    assert (a + s)[|a| + p..|a| + p + |t|] == s[p..p + |t|];
  }

  /** The separator between two pieces is an occurrence of it. */
  lemma OccursBetween(a: string, t: string, b: string)
    ensures OccursAt(a + t + b, t, |a|)
  {
    assert (a + t + b)[|a|..|a| + |t|] == t;
  }

  /** Nothing before the first occurrence holds another one. */
  lemma PrefixBeforeFirstFree(s: string, sep: string, i: nat)
    requires sep != [] && Find(s, sep) == Some(i)
    ensures Find(s[..i], sep).None?
  {
    forall m | 0 <= m <= i ensures !OccursAt(s[..i], sep, m) {
      if m + |sep| <= i {
        assert !OccursAt(s, sep, m);
        assert s[..i][m..m + |sep|] == s[m..m + |sep|];
      }
    }
  }

  /** No piece contains the separator. */
  lemma {:induction false} SplitPiecesFree(s: string, sep: string, k: nat)
    requires sep != [] && k < |Split(s, sep)|
    ensures Find(Split(s, sep)[k], sep).None?
    decreases |s|
  {
    var f := Find(s, sep);
    if f.Some? {
      var i := f.value;
      var rest := s[i + |sep|..];
      assert Split(s, sep) == [s[..i]] + Split(rest, sep);
      if k == 0 {
        PrefixBeforeFirstFree(s, sep, i);
      } else {
        SplitPiecesFree(rest, sep, k - 1);
      }
    }
  }

  /** Where the `i`-th piece of `parts` starts inside `Join(parts, sep)`. */
  function PieceStart(parts: seq<string>, sepLength: nat, i: nat): nat
    requires i < |parts|
  {
    if i == 0 then 0 else |parts[0]| + sepLength + PieceStart(parts[1..], sepLength, i - 1)
  }

  /** The separator after the `i`-th piece sits right where that piece ends. */
  lemma {:induction false} SeparatorAfterPiece(parts: seq<string>, sep: string, i: nat)
    requires i + 1 < |parts|
    ensures OccursAt(Join(parts, sep), sep, PieceStart(parts, |sep|, i) + |parts[i]|)
  {
    var tail := Join(parts[1..], sep);
    assert parts == [parts[0]] + parts[1..];
    JoinCons(parts[0], parts[1..], sep);
    if i == 0 {
      OccursBetween(parts[0], sep, tail);
    } else {
      SeparatorAfterPiece(parts[1..], sep, i - 1);
      var p := PieceStart(parts[1..], |sep|, i - 1) + |parts[1..][i - 1]|;
      OccursAfterPrefix(parts[0] + sep, tail, sep, p);
    }
  }

  /** Splitting on an absent character gives the text back as the only piece. */
  lemma SplitOnAbsentChar(s: string, c: char)
    requires c !in s
    ensures Split(s, [c]) == [s]
  {
    forall m | 0 <= m <= |s| ensures !OccursAt(s, [c], m) {
      if m < |s| {
        assert s[m..m + 1][0] == s[m];
      }
    }
  }

  /** A character at index `m` is an occurrence of it there. */
  lemma CharOccurs(s: string, c: char, m: nat)
    requires m < |s| && s[m] == c
    ensures OccursAt(s, [c], m)
  {
    assert s[m..m + 1] == [c];
  }

  /** Splitting on a present character: the first piece is the text before its
    * first occurrence and the other pieces split what follows it. */
  lemma SplitOnPresentChar(s: string, c: char) returns (i: nat)
    requires c in s
    ensures i < |s| && s[i] == c && c !in s[..i]
    ensures Split(s, [c]) == [s[..i]] + Split(s[i + 1..], [c])
  {
    var f := Find(s, [c]);
    if f.None? {
      var m :| 0 <= m < |s| && s[m] == c;
      CharOccurs(s, c, m);
      assert false;
    }
    i := f.value;
    assert s[i..i + 1] == [c];
    forall m | 0 <= m < i ensures s[..i][m] != c {
      if s[m] == c {
        CharOccurs(s, c, m);
      }
    }
  }

  /** Splitting at a character after a prefix free of it. */
  lemma SplitAfterCharFree(a: string, c: char, rest: string)
    requires c !in a
    ensures Split(a + [c] + rest, [c]) == [a] + Split(rest, [c])
  {
    var s := a + [c] + rest;
    assert s[|a|] == c;
    var i := SplitOnPresentChar(s, c);
    assert i == |a|;
    assert s[..i] == a && s[i + 1..] == rest;
  }

  /** Three fields free of `c`, joined by `c`, split back into those fields. */
  lemma SplitThree(a: string, b: string, d: string, c: char)
    requires c !in a && c !in b && c !in d
    ensures Split(a + [c] + b + [c] + d, [c]) == [a, b, d]
  {
    assert a + [c] + b + [c] + d == a + [c] + (b + [c] + d);
    SplitAfterCharFree(a, c, b + [c] + d);
    SplitAfterCharFree(b, c, d);
    SplitOnAbsentChar(d, c);
  }

  /** An `NSRange`. */
  datatype NSRange = NSRange(location: int, length: int)

  /** `r` is an occurrence of one of the first `n` strings of `strs`. */
  predicate RangeOfOneOf(s: string, strs: seq<string>, n: nat, r: NSRange)
  {
    r.length >= 1 && exists j :: 0 <= j < n && j < |strs| && r.length == |strs[j]| && OccursAt(s, strs[j], r.location)
  }

  /** Where the separator after the `k`-th piece of `parts` starts. */
  function SeparatorAt(parts: seq<string>, sepLength: nat, k: nat): nat
    requires k < |parts|
  {
    PieceStart(parts, sepLength, k) + |parts[k]|
  }

  /** The ranges of the first `n` separators between the pieces `parts`. */
  function SeparatorRanges(parts: seq<string>, sepLength: nat, n: nat): (r: seq<NSRange>)
    requires n < |parts|
    ensures |r| == n
    ensures forall k :: 0 <= k < n ==> r[k] == NSRange(SeparatorAt(parts, sepLength, k), sepLength)
  {
    if n == 0 then [] else SeparatorRanges(parts, sepLength, n - 1) + [NSRange(SeparatorAt(parts, sepLength, n - 1), sepLength)]
  }

  /** The ranges `toNSRanges(of:)` is meant to report for one string: those of
    * the occurrences `split` separates on, when the case-insensitive test finds
    * the string at all. */
  function RangesOf(s: string, str: string): seq<NSRange>
  {
    if ContainsIgnoringCase(s, str) then
      var subs := Split(s, str);
      SeparatorRanges(subs, |str|, |subs| - 1)
    else []
  }

  /** The ranges for every string of `strs`, string after string. */
  function AllRanges(s: string, strs: seq<string>): seq<NSRange>
  {
    if strs == [] then [] else AllRanges(s, strs[..|strs| - 1]) + RangesOf(s, strs[|strs| - 1])
  }

  /** `toNSRanges(of:)` with the locations computed as running offsets: for every
    * string found (case-insensitively), the occurrences that `split` separates
    * on, in order. */
  method ToNSRanges(s: string, strs: seq<string>) returns (ranges: seq<NSRange>)
    ensures ranges == AllRanges(s, strs)
    ensures forall k :: 0 <= k < |ranges| ==> RangeOfOneOf(s, strs, |strs|, ranges[k])
  {
    ranges := [];
    for n := 0 to |strs|
      invariant ranges == AllRanges(s, strs[..n])
      invariant forall k :: 0 <= k < |ranges| ==> RangeOfOneOf(s, strs, n, ranges[k])
    {
      var str := strs[n];
      assert strs[..n + 1][..n] == strs[..n];
      OneOfMore(s, strs, n, ranges);
      if ContainsIgnoringCase(s, str) {
        var subs := Split(s, str);
        SplitJoin(s, str);
        SeveralPiecesNeedSeparator(s, str);
        var subIdx := 0;
        ghost var before := ranges;
        for i := 0 to |subs| - 1
          invariant subIdx == (if i == 0 then 0 else SeparatorAt(subs, |str|, i - 1))
          invariant ranges == before + SeparatorRanges(subs, |str|, i)
          invariant forall k :: 0 <= k < |ranges| ==> RangeOfOneOf(s, strs, n + 1, ranges[k])
        {
          if i == 0 {
            subIdx := subIdx + |subs[0]|;
          } else {
            subIdx := subIdx + |str| + |subs[i]|;
            PieceStartStep(subs, |str|, i);
          }
          PieceOccurrence(s, strs, n, subs, i, subIdx);
          ranges := ranges + [NSRange(subIdx, |str|)];
        }
      }
    }
    assert strs[..|strs|] == strs;
  }

  /** One range per separator, each an occurrence of `str` of its length. */
  lemma RangesOfOccur(s: string, str: string)
    ensures |RangesOf(s, str)| == if ContainsIgnoringCase(s, str) then |Split(s, str)| - 1 else 0
    ensures forall k :: 0 <= k < |RangesOf(s, str)| ==>
      RangesOf(s, str)[k].length == |str| && OccursAt(s, str, RangesOf(s, str)[k].location)
  {
    var r := RangesOf(s, str);
    if ContainsIgnoringCase(s, str) {
      var subs := Split(s, str);
      SplitJoin(s, str);
      SeveralPiecesNeedSeparator(s, str);
      forall k | 0 <= k < |r| ensures OccursAt(s, str, r[k].location) {
        SeparatorAfterPiece(subs, str, k);
      }
    }
  }

  /** Where the search for the `k`-th range of `r` starts: at the beginning, or
    * just after the range before it. */
  function SearchStart(r: seq<NSRange>, sepLength: nat, k: nat): int
    requires k <= |r|
  {
    if k == 0 then 0 else r[k - 1].location + sepLength
  }

  /** The ranges are the leftmost occurrences, each searched from the end of
    * the one before: no occurrence starts before the first range, between two
    * ranges, or after the last one. */
  lemma RangesOfLeftmost(s: string, str: string)
    requires ContainsIgnoringCase(s, str)
    ensures var r := RangesOf(s, str);
      (forall k, m :: 0 <= k < |r| && SearchStart(r, |str|, k) <= m < r[k].location ==> !OccursAt(s, str, m))
      && forall m :: SearchStart(r, |str|, |r|) <= m ==> !OccursAt(s, str, m)
  {
    var r := RangesOf(s, str);
    forall k | 0 <= k <= |r|
      ensures forall m :: SearchStart(r, |str|, k) <= m < (if k < |r| then r[k].location else |s|) ==>
        !OccursAt(s, str, m)
    {
      GapFree(s, str, k);
    }
  }

  /** The `k`-th gap, from the search start to the `k`-th range (to the end of
    * the text after the last range), is the `k`-th piece, which holds no
    * occurrence. */
  lemma GapFree(s: string, str: string, k: nat)
    requires ContainsIgnoringCase(s, str) && k <= |RangesOf(s, str)|
    ensures var r := RangesOf(s, str);
      forall m :: SearchStart(r, |str|, k) <= m < (if k < |r| then r[k].location else |s|) ==> !OccursAt(s, str, m)
  {
    var r := RangesOf(s, str);
    var subs := Split(s, str);
    var L := |str|;
    assert str != [] by {
      assert |Chars.Lowercased(str)| == |str|;
    }
    assert |r| == |subs| - 1;
    if k > 0 {
      PieceStartStep(subs, L, k);
      assert SearchStart(r, L, k) == PieceStart(subs, L, k);
    }
    if k == |r| {
      SplitJoin(s, str);
      JoinLength(subs, str);
    }
    PiecesHoldNoOccurrence(s, str, k);
  }

  /** No occurrence of the separator starts inside a piece. */
  lemma {:induction false} PiecesHoldNoOccurrence(s: string, sep: string, k: nat)
    requires sep != [] && k < |Split(s, sep)|
    ensures forall m :: PieceStart(Split(s, sep), |sep|, k) <= m < SeparatorAt(Split(s, sep), |sep|, k) ==>
      !OccursAt(s, sep, m)
    decreases |s|
  {
    var f := Find(s, sep);
    if f.Some? {
      var i := f.value;
      var rest := s[i + |sep|..];
      var subs := Split(s, sep);
      assert subs == [s[..i]] + Split(rest, sep);
      if k > 0 {
        PiecesHoldNoOccurrence(rest, sep, k - 1);
        assert subs[1..] == Split(rest, sep);
        forall m | PieceStart(subs, |sep|, k) <= m < SeparatorAt(subs, |sep|, k)
          ensures !OccursAt(s, sep, m)
        {
          OccursInSuffix(s, sep, i + |sep|, m - (i + |sep|));
        }
      }
    }
  }

  /** An occurrence past a cut point is one in the suffix, shifted. */
  lemma OccursInSuffix(s: string, t: string, p: nat, m: nat)
    requires p <= |s|
    ensures OccursAt(s, t, p + m) <==> OccursAt(s[p..], t, m)
  {
    if m + |t| <= |s| - p {
      assert s[p..][m..m + |t|] == s[p + m..p + m + |t|];
    }
  }

  /** The pieces and the separators between them make up the whole text. */
  lemma {:induction false} JoinLength(parts: seq<string>, sep: string)
    requires |parts| >= 1
    ensures |Join(parts, sep)| == SeparatorAt(parts, |sep|, |parts| - 1)
  {
    if |parts| > 1 {
      JoinLength(parts[1..], sep);
      JoinCons(parts[0], parts[1..], sep);
      assert parts == [parts[0]] + parts[1..];
    }
  }

  /** Only a non-empty separator splits a string in more than one piece. */
  lemma SeveralPiecesNeedSeparator(s: string, sep: string)
    ensures |Split(s, sep)| > 1 ==> sep != []
  {
  }

  /** An occurrence of one of `n` strings is one of `n + 1`. */
  lemma OneOfMore(s: string, strs: seq<string>, n: nat, ranges: seq<NSRange>)
    requires forall k :: 0 <= k < |ranges| ==> RangeOfOneOf(s, strs, n, ranges[k])
    ensures forall k :: 0 <= k < |ranges| ==> RangeOfOneOf(s, strs, n + 1, ranges[k])
  {
  }

  /** The separator after the `i`-th piece is an occurrence of the `n`-th
    * string. */
  lemma PieceOccurrence(s: string, strs: seq<string>, n: nat, subs: seq<string>, i: nat, at: nat)
    requires n < |strs| && strs[n] != [] && Join(subs, strs[n]) == s
    requires i + 1 < |subs| && at == PieceStart(subs, |strs[n]|, i) + |subs[i]|
    ensures RangeOfOneOf(s, strs, n + 1, NSRange(at, |strs[n]|))
  {
    SeparatorAfterPiece(subs, strs[n], i);
  }

  lemma {:induction false} PieceStartStep(parts: seq<string>, sepLength: nat, i: nat)
    requires 1 <= i < |parts|
    ensures PieceStart(parts, sepLength, i) == PieceStart(parts, sepLength, i - 1) + |parts[i - 1]| + sepLength
  {
    if i > 1 {
      PieceStartStep(parts[1..], sepLength, i - 1);
    }
  }

  /** The locations as `toNSRanges(of:)` computes them: the first one correct, each
    * later one `2 * |piece| + |str|` for the piece before it. */
  function AsWrittenLocations(subs: seq<string>, strLength: nat, i: nat, subIdx: int): (locs: seq<int>)
    requires i <= |subs|
    decreases |subs| - i
    ensures |locs| == if i < |subs| then |subs| - 1 - i else 0
  {
    if i + 1 >= |subs| then []
    else
      var next := if i == 0 then subIdx + |subs[0]| else 2 * |subs[i]| + strLength;
      [next] + AsWrittenLocations(subs, strLength, i + 1, next)
  }

  /** For "aXbbX" and "X" the second location is 5, where the second "X" is at 4. */
  lemma ToNSRangesAsWrittenMisplaces()
    ensures var subs := Split("aXbbX", "X");
      AsWrittenLocations(subs, 1, 0, 0) == [1, 5] && OccursAt("aXbbX", "X", 4)
      && !OccursAt("aXbbX", "X", 5)
  {
    SplitExample();
    assert "aXbbX"[4..5] == "X";
  }

  /** "aXbbX" splits on "X" as "a", "bb" and "". */
  lemma SplitExample()
    ensures Split("aXbbX", "X") == ["a", "bb", ""]
  {
    SplitOnAbsentChar("", 'X');
    SplitAfterCharFree("bb", 'X', "");
    assert "bb" + ['X'] + "" == "bbX";
    SplitAfterCharFree("a", 'X', "bbX");
    assert "a" + ['X'] + "bbX" == "aXbbX";
  }
}
