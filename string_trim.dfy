/**
 * Space and newline stripping (String+Ex.swift `trimLines`, `trimSpace`, `trim`).
 * With `isAll` every `"\n"` (resp. `" "`) is removed wherever it occurs; without
 * it only the leading and trailing characters of Foundation's `.newlines`
 * (resp. `.whitespaces`) character set are trimmed.
 */
module StringTrim {

  /** Foundation's predefined character sets used by the toolkit. */
  datatype CharClass = Whitespaces | Newlines | WhitespacesAndNewlines

  /** `.newlines`: U+000A through U+000D, U+0085, U+2028 and U+2029. */
  predicate IsNewline(c: char)
  {
    '\U{000A}' <= c <= '\U{000D}' || c == '\U{0085}' || c == '\U{2028}' || c == '\U{2029}'
  }

  /** `.whitespaces`: the space separators (general category Zs) and tab. */
  predicate IsWhitespace(c: char)
  {
    c == '\t' || c == ' ' || c == '\U{00A0}' || c == '\U{1680}' || '\U{2000}' <= c <= '\U{200A}'
    || c == '\U{202F}' || c == '\U{205F}' || c == '\U{3000}'
  }

  predicate InClass(c: char, k: CharClass)
  {
    match k
    case Whitespaces => IsWhitespace(c)
    case Newlines => IsNewline(c)
    case WhitespacesAndNewlines => IsWhitespace(c) || IsNewline(c)
  }

  /** `replacingOccurrences(of: [c], with: "")`: every `c` removed. */
  function RemoveAll(s: string, c: char): (r: string)
    ensures c !in r && |r| <= |s|
  {
    if s == [] then [] else (if s[0] == c then [] else [s[0]]) + RemoveAll(s[1..], c)
  }

  lemma {:induction false} RemoveAllAppend(a: string, b: string, c: char)
    ensures RemoveAll(a + b, c) == RemoveAll(a, c) + RemoveAll(b, c)
  {
    if a == [] {
      assert a + b == b;
    } else {
      var h := if a[0] == c then [] else [a[0]];
      assert (a + b)[0] == a[0] && (a + b)[1..] == a[1..] + b;
      assert RemoveAll(a + b, c) == h + RemoveAll(a[1..] + b, c);
      RemoveAllAppend(a[1..], b, c);
      assert RemoveAll(a, c) == h + RemoveAll(a[1..], c);
    }
  }

  lemma {:induction false} RemoveAllAbsent(s: string, c: char)
    requires c !in s
    ensures RemoveAll(s, c) == s
  {
    if s != [] {
      RemoveAllAbsent(s[1..], c);
    }
  }

  /** No other character is lost or gained. */
  lemma {:induction false} RemoveAllKeepsOthers(s: string, c: char, d: char)
    requires d != c
    ensures multiset(RemoveAll(s, c))[d] == multiset(s)[d]
  {
    if s != [] {
      assert s == [s[0]] + s[1..];
      RemoveAllKeepsOthers(s[1..], c, d);
    }
  }

  /** Drops the leading characters of class `k`. */
  function DropLeading(s: string, k: CharClass): (r: string)
    ensures |r| <= |s| && r == s[|s| - |r|..]
    ensures forall m {:trigger InClass(s[m], k)} :: 0 <= m < |s| - |r| ==> InClass(s[m], k)
    ensures r != [] ==> !InClass(r[0], k)
  {
    if s != [] && InClass(s[0], k) then DropLeading(s[1..], k) else s
  }

  /** Drops the trailing characters of class `k`. */
  function DropTrailing(s: string, k: CharClass): (r: string)
    ensures |r| <= |s| && r == s[..|r|]
    ensures forall m {:trigger InClass(s[m], k)} :: |r| <= m < |s| ==> InClass(s[m], k)
    ensures r != [] ==> !InClass(r[|r| - 1], k)
  {
    if s != [] && InClass(s[|s| - 1], k) then DropTrailing(s[..|s| - 1], k) else s
  }

  /** `trimmingCharacters(in: k)`: a contiguous slice of `s` whose ends are not in
    * the class, everything cut off on either side being in the class. */
  function TrimEnds(s: string, k: CharClass): (r: string)
    ensures r != [] ==> !InClass(r[0], k) && !InClass(r[|r| - 1], k)
  {
    DropTrailing(DropLeading(s, k), k)
  }

  /** The trimmed string is `s[i..j]`, with only class-`k` characters outside. */
  lemma TrimEndsIsSlice(s: string, k: CharClass) returns (i: nat, j: nat)
    ensures i <= j <= |s| && TrimEnds(s, k) == s[i..j]
    ensures forall m {:trigger InClass(s[m], k)} :: 0 <= m < i ==> InClass(s[m], k)
    ensures forall m {:trigger InClass(s[m], k)} :: j <= m < |s| ==> InClass(s[m], k)
  {
    var d := DropLeading(s, k);
    var r := DropTrailing(d, k);
    i := |s| - |d|;
    j := i + |r|;
    assert d == s[i..];
    assert r == d[..|r|];
    assert s[i..][..|r|] == s[i..j];
    forall m | j <= m < |s| ensures InClass(s[m], k) {
      assert s[m] == d[m - i];
      assert |r| <= m - i < |d|;
    }
  }

  /** Trimming that removes nothing leaves the string as it was. */
  lemma TrimEndsFull(s: string, k: CharClass)
    requires |TrimEnds(s, k)| == |s|
    ensures TrimEnds(s, k) == s
  {
    var i, j := TrimEndsIsSlice(s, k);
    assert s[i..j] == s;
  }

  lemma DigitIsNotSpace(c: char)
    requires '0' <= c <= '9'
    ensures !InClass(c, Whitespaces) && !InClass(c, Newlines) && !InClass(c, WhitespacesAndNewlines)
  {
  }

  lemma {:induction false} DropLeadingNoop(s: string, k: CharClass)
    requires s != [] ==> !InClass(s[0], k)
    ensures DropLeading(s, k) == s
  {
  }

  lemma TrimEndsIdempotent(s: string, k: CharClass)
    ensures TrimEnds(TrimEnds(s, k), k) == TrimEnds(s, k)
  {
    var r := TrimEnds(s, k);
    DropLeadingNoop(r, k);
  }

  /** `trimLines(isAll)`. */
  function TrimLines(s: string, isAll: bool): (r: string)
    ensures isAll ==> '\n' !in r
  {
    if isAll then RemoveAll(s, '\n') else TrimEnds(s, Newlines)
  }

  /** `trimSpace(isAll)`. */
  function TrimSpace(s: string, isAll: bool): (r: string)
    ensures isAll ==> ' ' !in r
  {
    if isAll then RemoveAll(s, ' ') else TrimEnds(s, Whitespaces)
  }

  /** `trim(isAll)`: newlines first, then spaces. */
  function Trim(s: string, isAll: bool): string
  {
    TrimSpace(TrimLines(s, isAll), isAll)
  }

  lemma {:induction false} RemoveAllKeepsAbsence(s: string, c: char, d: char)
    requires d !in s
    ensures d !in RemoveAll(s, c)
  {
    if s != [] {
      RemoveAllKeepsAbsence(s[1..], c, d);
    }
  }

  /** With `isAll`, `trim` leaves neither a space nor a line feed. */
  lemma TrimAllRemoves(s: string)
    ensures ' ' !in Trim(s, true) && '\n' !in Trim(s, true)
  {
    RemoveAllKeepsAbsence(RemoveAll(s, '\n'), ' ', '\n');
  }

  /** ...keeps every other character the same number of times... */
  lemma TrimAllKeepsOthers(s: string, d: char)
    requires d != ' ' && d != '\n'
    ensures multiset(Trim(s, true))[d] == multiset(s)[d]
  {
    RemoveAllKeepsOthers(s, '\n', d);
    RemoveAllKeepsOthers(RemoveAll(s, '\n'), ' ', d);
  }

  /** ...in their original order: `trim` distributes over concatenation and keeps a
    * single other character. */
  lemma TrimAllKeepsOrder(a: string, b: string)
    ensures Trim(a + b, true) == Trim(a, true) + Trim(b, true)
  {
    RemoveAllAppend(a, b, '\n');
    RemoveAllAppend(RemoveAll(a, '\n'), RemoveAll(b, '\n'), ' ');
  }

  lemma TrimAllSingle(d: char)
    ensures Trim([d], true) == if d == ' ' || d == '\n' then [] else [d]
  {
    assert [d][1..] == [];
  }

  lemma TrimAllIdempotent(s: string)
    ensures Trim(Trim(s, true), true) == Trim(s, true)
  {
    var r := Trim(s, true);
    TrimAllRemoves(s);
    RemoveAllAbsent(r, '\n');
    RemoveAllAbsent(r, ' ');
  }
}
