/**
 * Display formatting in String+Ex.swift: `hidePhone`, `addDecimalZero`,
 * `toVerticalText` and `toArrs`.
 */
module StringFormat {
  import StringTrim
  import StringIndex
  import StringSearch

  /** `hidePhone(replaceStr)`: when the text stripped of every space and line feed
    * has at least 11 characters, that stripped text with characters 3 to 6
    * replaced; otherwise the input exactly as given. */
  function HidePhone(s: string, replaceStr: string): (r: string)
    ensures var phone := StringTrim.Trim(s, true);
      (|phone| >= 11 ==> r == phone[..3] + replaceStr + phone[7..])
      && (|phone| < 11 ==> r == s)
  {
    var phone := StringTrim.Trim(s, true);
    if |phone| >= 11 then StringIndex.ReplaceRange(phone, replaceStr, 3, 6) else s
  }

  /** With the default mask the number keeps its length, its first three and its
    * last digits, and shows four stars in between. */
  lemma HidePhoneMasksMiddle(s: string)
    requires |StringTrim.Trim(s, true)| >= 11
    ensures var phone := StringTrim.Trim(s, true); var r := HidePhone(s, "****");
      |r| == |phone| && r[..3] == phone[..3] && r[3..7] == "****" && r[7..] == phone[7..]
      && ' ' !in r[..3] && ' ' !in r[7..]
  {
    var phone := StringTrim.Trim(s, true);
    StringTrim.TrimAllRemoves(s);
    var r := HidePhone(s, "****");
    assert r[..3] == phone[..3] && r[7..] == phone[7..];
    assert forall k :: 0 <= k < 3 ==> r[..3][k] == phone[k];
    assert forall k :: 0 <= k < |r| - 7 ==> r[7..][k] == phone[7 + k];
  }

  /** `k` zeros, none when `k` is not positive. */
  function Zeros(k: int): (z: string)
    ensures |z| == (if k <= 0 then 0 else k)
    ensures forall i :: 0 <= i < |z| ==> z[i] == '0'
  {
    if k <= 0 then "" else Zeros(k - 1) + "0"
  }

  /** `addDecimalZero(decimal)` as the source writes it: the guard
    * `count > 0 || count <= 2` always holds, so a text with two or more points
    * keeps only its first two pieces. */
  function AddDecimalZeroAsWritten(s: string, decimal: int): string
  {
    if decimal <= 0 then s
    else
      var subStrings := StringSearch.Split(s, ".");
      if !(|subStrings| > 0 || |subStrings| <= 2) then s
      else if |subStrings| == 1 then subStrings[0] + "." + Zeros(decimal)
      else if |subStrings[1]| == decimal then s
      else subStrings[0] + "." + subStrings[1] + Zeros(decimal - |subStrings[1]|)
  }

  /** As written, a text with three pieces keeps the first two, padded. */
  lemma AddDecimalZeroAsWrittenKeepsTwo(a: string, b: string, c: string, decimal: int)
    requires '.' !in a && '.' !in b && '.' !in c && decimal > 0 && |b| != decimal
    ensures AddDecimalZeroAsWritten(a + "." + b + "." + c, decimal) == a + "." + b + Zeros(decimal - |b|)
  {
    StringSearch.SplitThree(a, b, c, '.');
  }

  /** "1.2.3" padded to two decimals loses its third piece. */
  lemma AddDecimalZeroAsWrittenDropsPieces()
    ensures AddDecimalZeroAsWritten("1.2.3", 2) == "1.20"
  {
    assert "1.2.3" == "1" + "." + "2" + "." + "3";
    AddDecimalZeroAsWrittenKeepsTwo("1", "2", "3", 2);
    assert Zeros(1) == "0";
  }

  /** The only point of `s` is at index `i`. */
  predicate OnlyPointAt(s: string, i: int)
  {
    0 <= i < |s| && s[i] == '.' && '.' !in s[..i] && '.' !in s[i + 1..]
  }

  /** `s` has two points or more. */
  predicate SeveralPoints(s: string)
  {
    exists i, j :: 0 <= i < j < |s| && s[i] == '.' && s[j] == '.'
  }

  /** What `split(".")` tells about the points of a text. */
  lemma PointPieces(s: string)
    ensures var parts := StringSearch.Split(s, ".");
      ('.' !in s ==> parts == [s])
      && ('.' in s ==> |parts| >= 2 && !OnlyPointAt(s, -1))
      && (|parts| == 2 ==> s == parts[0] + "." + parts[1] && OnlyPointAt(s, |parts[0]|) && !SeveralPoints(s))
      && (|parts| >= 3 ==> SeveralPoints(s))
  {
    if '.' !in s {
      StringSearch.SplitOnAbsentChar(s, '.');
    } else {
      var p := StringSearch.SplitOnPresentChar(s, '.');
      if '.' !in s[p + 1..] {
        OnePoint(s, p);
      } else {
        ManyPoints(s, p);
      }
    }
  }

  /** A text whose first point at `p` is its last splits in two pieces. */
  lemma OnePoint(s: string, p: nat)
    requires p < |s| && s[p] == '.' && '.' !in s[..p] && '.' !in s[p + 1..]
    requires StringSearch.Split(s, ".") == [s[..p]] + StringSearch.Split(s[p + 1..], ".")
    ensures var parts := StringSearch.Split(s, ".");
      parts == [s[..p], s[p + 1..]] && s == parts[0] + "." + parts[1]
      && OnlyPointAt(s, |parts[0]|) && !SeveralPoints(s)
  {
    StringSearch.SplitOnAbsentChar(s[p + 1..], '.');
    assert s == s[..p] + "." + s[p + 1..];
    OnlyPointExcludesOthers(s, p);
  }

  /** A text with a point after its first point at `p` splits in three pieces
    * or more. */
  lemma ManyPoints(s: string, p: nat)
    requires p < |s| && s[p] == '.' && '.' in s[p + 1..]
    requires StringSearch.Split(s, ".") == [s[..p]] + StringSearch.Split(s[p + 1..], ".")
    ensures |StringSearch.Split(s, ".")| >= 3 && SeveralPoints(s)
  {
    var rest := s[p + 1..];
    var q := StringSearch.SplitOnPresentChar(rest, '.');
    assert s[p + 1 + q] == rest[q];
  }

  /** A text with its only point at `p` has no other point. */
  lemma OnlyPointExcludesOthers(s: string, p: int)
    requires OnlyPointAt(s, p)
    ensures !SeveralPoints(s)
    ensures forall i :: OnlyPointAt(s, i) ==> i == p
  {
    assert forall i, j :: 0 <= i < j < |s| && s[i] == '.' ==> s[j] != '.';
    assert forall i :: OnlyPointAt(s, i) ==> i == p;
  }

  /** A text with several points has no only point. */
  lemma SeveralPointsExcludeOnly(s: string, i: int)
    requires SeveralPoints(s)
    ensures !OnlyPointAt(s, i)
  {
    if OnlyPointAt(s, i) {
      OnlyPointExcludesOthers(s, i);
    }
  }

  /** `addDecimalZero(decimal)` with the guard `count > 0 && count <= 2` its
    * authors meant: a text without a point gets one and `decimal` zeros; a text
    * with one point is padded with zeros up to `decimal` fraction digits (longer
    * fractions are kept); a text with more points is returned unchanged. */
  method AddDecimalZero(s: string, decimal: int) returns (r: string)
    ensures decimal <= 0 ==> r == s
    ensures decimal > 0 && '.' !in s ==> r == s + "." + Zeros(decimal)
    ensures forall i :: OnlyPointAt(s, i) && decimal > 0 ==> r == s + Zeros(decimal - (|s| - 1 - i))
    ensures SeveralPoints(s) ==> r == s
  {
    if decimal <= 0 {
      return s;
    }
    var subStrings := StringSearch.Split(s, ".");
    PointPieces(s);
    if !(|subStrings| > 0 && |subStrings| <= 2) {
      forall i ensures !OnlyPointAt(s, i) {
        SeveralPointsExcludeOnly(s, i);
      }
      return s;
    }
    if |subStrings| == 1 {
      var sub := subStrings[0] + ".";
      for k := 0 to decimal
        invariant sub == subStrings[0] + "." + Zeros(k)
      {
        sub := sub + "0";
      }
      return sub;
    }
    OnlyPointExcludesOthers(s, |subStrings[0]|);
    var sub1 := subStrings[0];
    var sub2 := subStrings[1];
    if |sub2| == decimal {
      return s;
    }
    var poor := decimal - |sub2|;
    if poor > 0 {
      for k := 0 to poor
        invariant sub2 == subStrings[1] + Zeros(k)
      {
        sub2 := sub2 + "0";
      }
    }
    return sub1 + "." + sub2;
  }

  /** Characters with a line feed after each but the last. */
  function Vertical(s: string): (r: string)
    requires |s| >= 1
    ensures |r| == 2 * |s| - 1
    ensures forall k :: 0 <= k < |s| ==> r[2 * k] == s[k]
    ensures forall k :: 0 <= k < |s| - 1 ==> r[2 * k + 1] == '\n'
  {
    if |s| == 1 then s else Vertical(s[..|s| - 1]) + "\n" + [s[|s| - 1]]
  }

  /** `toVerticalText`: a line feed inserted at `2 * idx - 1` for each `idx` from 1
    * to `count - 1`. The range `1..<count` traps on the empty string. */
  method ToVerticalText(s: string) returns (r: string)
    requires |s| >= 1
    ensures |r| == 2 * |s| - 1
    ensures forall k :: 0 <= k < |s| ==> r[2 * k] == s[k]
    ensures forall k :: 0 <= k < |s| - 1 ==> r[2 * k + 1] == '\n'
  {
    r := s;
    assert s == Vertical(s[..1]) + s[1..];
    for idx := 1 to |s|
      invariant r == Vertical(s[..idx]) + s[idx..]
    {
      VerticalStep(s, idx);
      r := r[..idx * 2 - 1] + "\n" + r[idx * 2 - 1..];
    }
    assert s[..|s|] == s;
  }

  /** The line feed inserted at `2 * idx - 1` ends the vertical part after the
    * `idx`-th character and makes room for the next one. */
  lemma VerticalStep(s: string, idx: nat)
    requires 1 <= idx < |s|
    ensures var r := Vertical(s[..idx]) + s[idx..];
      r[..idx * 2 - 1] + "\n" + r[idx * 2 - 1..] == Vertical(s[..idx + 1]) + s[idx + 1..]
  {
    var v := Vertical(s[..idx]);
    assert s[..idx + 1][..idx] == s[..idx];
    assert Vertical(s[..idx + 1]) == v + "\n" + [s[idx]];
    assert s[idx..] == [s[idx]] + s[idx + 1..];
  }

  /** The strings of `parts` glued together. */
  function Concat(parts: seq<string>): string
  {
    if parts == [] then "" else parts[0] + Concat(parts[1..])
  }

  lemma {:induction false} ConcatSnoc(parts: seq<string>, p: string)
    ensures Concat(parts + [p]) == Concat(parts) + p
  {
    if parts != [] {
      assert (parts + [p])[1..] == parts[1..] + [p];
      ConcatSnoc(parts[1..], p);
    }
  }

  /** `toArrs`: each character as a string of its own, `[""]` for the empty
    * string; gluing the pieces gives the string back. */
  method ToArrs(s: string) returns (arrs: seq<string>)
    ensures s == [] ==> arrs == [""]
    ensures s != [] ==> |arrs| == |s| && forall k :: 0 <= k < |s| ==> arrs[k] == [s[k]]
    ensures Concat(arrs) == s
  {
    if |s| == 0 {
      return [""];
    }
    arrs := [];
    for idx := 0 to |s|
      invariant |arrs| == idx && forall k :: 0 <= k < idx ==> arrs[k] == [s[k]]
      invariant Concat(arrs) == s[..idx]
    {
      ConcatSnoc(arrs, [s[idx]]);
      assert s[..idx + 1] == s[..idx] + [s[idx]];
      arrs := arrs + [[s[idx]]];
    }
    assert s[..|s|] == s;
  }
}
