/**
 * The input formatter of UITextField+Ex.swift. A text field is its text and its
 * selection; the formatter decides whether UIKit may apply an edit and, in most
 * cases, applies a formatted version of the edit itself and answers `false`.
 *
 * The UIKit primitives the formatter calls are modelled as follows (stated
 * assumptions): `deleteBackward` removes the selection or, when it is empty,
 * the character before the cursor; `insertText` replaces the selection and
 * puts the cursor after the inserted text; assigning `text` puts the cursor at
 * the end; setting the cursor to an offset outside the text fails to build a
 * position, and the force unwrap traps. Offsets are counted in characters (the
 * text holds one UTF-16 unit per character).
 */
module TextFieldFormat {
  import opened Wrappers
  import Chars
  import StringTrim
  import StringIndex
  import StringSearch
  import StringValidate

  /** `UITextField.FormatType`. */
  datatype FormatType = MobilePhone | IdentityCard | BankCard | CodeUnit | Decimal

  /** The range UIKit passes to the delegate; never negative. */
  datatype EditRange = EditRange(location: nat, length: nat)

  /** What a call ends in: an answer to UIKit, or a trap. */
  datatype Outcome = Returned(allow: bool) | Trapped

  /** The separator locations and the digit limit of a grouped format. */
  function Layout(t: FormatType): (r: (seq<int>, int))
    requires t in {MobilePhone, IdentityCard, BankCard}
    ensures forall i :: 0 <= i < |r.0| ==> r.0[i] >= 1
    ensures forall i, j :: 0 <= i < j < |r.0| ==> r.0[i] < r.0[j]
    ensures t == MobilePhone ==> r == ([3, 8], 11)
    ensures t == IdentityCard ==> r == ([6, 15], 18)
    ensures t == BankCard ==> r == ([4, 9, 14, 19], 19)
  {
    match t
    case MobilePhone => ([3, 8], 11)
    case IdentityCard => ([6, 15], 18)
    case BankCard => ([4, 9, 14, 19], 19)
  }

  /** The `.codeUnit` rule: a location up to 5 and a replacement that is empty or
    * holds a decimal digit. */
  function CodeUnitAccepts(range: EditRange, str: string): (ok: bool)
    ensures ok <==> range.location <= 5 && (str == [] || exists i :: 0 <= i < |str| && Chars.IsDigit(str[i]))
  {
    if range.location <= 5 then
      if |str| > 0 then StringValidate.IsExist(str, StringValidate.Digit) else true
    else false
  }

  /** A space inserted at `location` when the text is longer than that. */
  function GroupStep(cur: string, location: int): (r: string)
    requires location >= 1
    ensures |cur| > location ==> r == cur[..location] + " " + cur[location..]
    ensures |cur| <= location ==> r == cur
  {
    if |cur| > location then StringIndex.Insert(cur, " ", location) else cur
  }

  /** The spaces inserted at each location in turn. */
  function Grouped(t: string, locations: seq<int>): string
    requires forall i :: 0 <= i < |locations| ==> locations[i] >= 1
  {
    if locations == [] then t
    else GroupStep(Grouped(t, locations[..|locations| - 1]), locations[|locations| - 1])
  }

  /** `insertString(aString, locations:)`: nothing for the empty string, otherwise
    * the text without spaces regrouped. */
  function InsertSpaces(a: string, locations: seq<int>): Option<string>
    requires forall i :: 0 <= i < |locations| ==> locations[i] >= 1
  {
    if a == [] then None else Some(Grouped(StringTrim.RemoveAll(a, ' '), locations))
  }

  /** The loop of `insertString`. */
  method InsertString(a: string, locations: seq<int>) returns (r: Option<string>)
    requires forall i :: 0 <= i < |locations| ==> locations[i] >= 1
    ensures r == InsertSpaces(a, locations)
  {
    if a == [] {
      return None;
    }
    var newStr := StringTrim.RemoveAll(a, ' ');
    var resultStr := newStr;
    for k := 0 to |locations|
      invariant resultStr == Grouped(newStr, locations[..k])
    {
      assert locations[..k + 1][..k] == locations[..k];
      if |resultStr| > locations[k] {
        resultStr := StringIndex.Insert(resultStr, " ", locations[k]);
      }
    }
    assert locations[..|locations|] == locations;
    return Some(resultStr);
  }

  lemma RemoveSpaceFromSpace()
    ensures StringTrim.RemoveAll([' '], ' ') == []
  {
    assert [' '][1..] == [];
  }

  /** A space inserted anywhere disappears again when the spaces are removed. */
  lemma RemoveInsertedSpace(p: string, q: string)
    ensures StringTrim.RemoveAll(p + [' '] + q, ' ') == StringTrim.RemoveAll(p + q, ' ')
  {
    RemoveSpaceFromSpace();
    StringTrim.RemoveAllAppend(p + [' '], q, ' ');
    StringTrim.RemoveAllAppend(p, [' '], ' ');
    StringTrim.RemoveAllAppend(p, q, ' ');
  }

  /** Removing the spaces again gives the text that was grouped. */
  lemma {:induction false} GroupedStripsBack(t: string, locations: seq<int>)
    requires forall i :: 0 <= i < |locations| ==> locations[i] >= 1
    ensures StringTrim.RemoveAll(Grouped(t, locations), ' ') == StringTrim.RemoveAll(t, ' ')
  {
    if locations != [] {
      var prev := locations[..|locations| - 1];
      GroupedStripsBack(t, prev);
      var cur := Grouped(t, prev);
      var loc := locations[|locations| - 1];
      if |cur| > loc {
        RemoveInsertedSpace(cur[..loc], cur[loc..]);
        assert cur[..loc] + cur[loc..] == cur;
      }
    }
  }

  /** Removing the spaces from the result of `insertString` gives the input with
    * its spaces removed. */
  lemma InsertSpacesKeepsDigits(a: string, locations: seq<int>)
    requires forall i :: 0 <= i < |locations| ==> locations[i] >= 1
    requires InsertSpaces(a, locations).Some?
    ensures StringTrim.RemoveAll(InsertSpaces(a, locations).value, ' ') == StringTrim.RemoveAll(a, ' ')
  {
    var t := StringTrim.RemoveAll(a, ' ');
    GroupedStripsBack(t, locations);
    StringTrim.RemoveAllAbsent(t, ' ');
  }

  /** `insertString` is idempotent on every result it can be applied to again. */
  lemma InsertSpacesIdempotent(a: string, locations: seq<int>)
    requires forall i :: 0 <= i < |locations| ==> locations[i] >= 1
    requires InsertSpaces(a, locations).Some? && InsertSpaces(a, locations).value != []
    ensures InsertSpaces(InsertSpaces(a, locations).value, locations) == InsertSpaces(a, locations)
  {
    InsertSpacesKeepsDigits(a, locations);
  }

  /** An 11-digit mobile number is shown as `ddd dddd dddd`. */
  lemma MobilePhoneGrouping(t: string)
    requires |t| == 11 && ' ' !in t
    ensures InsertSpaces(t, [3, 8]) == Some(t[..3] + " " + t[3..7] + " " + t[7..])
  {
    StringTrim.RemoveAllAbsent(t, ' ');
    var locs: seq<int> := [3, 8];
    assert locs[..1] == [3] && locs[..1][..0] == [];
    var g1 := Grouped(t, locs[..1]);
    assert Grouped(t, locs[..1][..0]) == t;
    assert g1 == GroupStep(t, 3);
    assert g1 == t[..3] + " " + t[3..];
    assert Grouped(t, locs) == GroupStep(g1, 8);
    assert g1[..8] == t[..3] + " " + t[3..7] && g1[8..] == t[7..];
  }

  /** The text `insertString` leaves in the field: `nil` reads back as "". */
  function Regrouped(a: string, locations: seq<int>): string
    requires forall i :: 0 <= i < |locations| ==> locations[i] >= 1
  {
    match InsertSpaces(a, locations)
    case None => ""
    case Some(r) => r
  }

  /** The limit check: the digits already there, plus the replacement, minus the
    * replaced range, must not exceed the limit (0 meaning no limit). */
  predicate LimitExceeded(text: string, str: string, range: EditRange, limitCount: int)
  {
    limitCount != 0 && |StringTrim.RemoveAll(text, ' ')| + |str| - range.length > limitCount
  }

  /** The number of separator locations equal to `location`. */
  function Hits(locations: seq<int>, location: int): nat
  {
    multiset(locations)[location]
  }

  /** `deleteBackward` on text `t` with selection `a..b`: the text and the cursor. */
  function Backspace(t: string, a: nat, b: nat): (r: (string, nat))
    requires a <= b <= |t|
    ensures r.1 <= |r.0|
  {
    if a < b then (t[..a] + t[b..], a)
    else if a > 0 then (t[..a - 1] + t[a..], a - 1)
    else (t, 0)
  }

  class TextField {
    var text: string
    var selStart: nat
    var selEnd: nat

    predicate Valid()
      reads this
    {
      selStart <= selEnd <= |text|
    }

    /** A field showing `t` with the cursor at the end. */
    constructor(t: string)
      ensures text == t && selStart == |t| && selEnd == |t| && Valid()
    {
      text := t;
      selStart := |t|;
      selEnd := |t|;
    }

    method DeleteBackward()
      requires Valid()
      modifies this
      ensures (text, selStart) == Backspace(old(text), old(selStart), old(selEnd))
      ensures selEnd == selStart && Valid()
    {
      var r := Backspace(text, selStart, selEnd);
      text := r.0;
      selStart := r.1;
      selEnd := r.1;
    }

    method InsertText(str: string)
      requires Valid()
      modifies this
      ensures text == old(text[..selStart]) + str + old(text[selEnd..])
      ensures selStart == selEnd == old(selStart) + |str| && Valid()
    {
      text := text[..selStart] + str + text[selEnd..];
      selStart := selStart + |str|;
      selEnd := selStart;
    }

    method SetText(t: string)
      modifies this
      ensures text == t && selStart == selEnd == |t| && Valid()
    {
      text := t;
      selStart := |t|;
      selEnd := |t|;
    }

    /** `__configCursorLocation(offset)`: false when the position cannot be built
      * (the source traps there). */
    method SetCursor(offset: int) returns (ok: bool)
      modifies this
      ensures ok <==> 0 <= offset <= |text|
      ensures text == old(text)
      ensures ok ==> selStart == selEnd == offset
      ensures !ok ==> selStart == old(selStart) && selEnd == old(selEnd)
    {
      ok := 0 <= offset <= |text|;
      if ok {
        selStart := offset;
        selEnd := offset;
      }
    }

    /** The deletion of one character that is not the last: a space just
      * before the cursor goes with it, the text is regrouped and the cursor put
      * back where the deletion happened. */
    method DeleteOne(range: EditRange, locations: seq<int>) returns (outcome: Outcome)
      requires Valid() && forall i :: 0 <= i < |locations| ==> locations[i] >= 1
      modifies this
      ensures outcome != Returned(true)
      ensures var spaced := range.location < |old(text)| && old(text)[range.location] == ' ' && old(selStart) == old(selEnd);
        var first := Backspace(old(text), old(selStart), old(selEnd));
        var offset := if spaced then range.location - 1 else range.location;
        text == Regrouped(if spaced then Backspace(first.0, first.1, first.1).0 else first.0, locations)
        && (outcome == Returned(false) <==> 0 <= offset <= |text|)
        && (outcome == Returned(false) ==> selStart == selEnd == offset)
      ensures outcome != Trapped ==> Valid()
    {
      var offset: int := range.location;
      if range.location < |text| && text[range.location] == ' ' && selStart == selEnd {
        DeleteBackward();
        offset := offset - 1;
      }
      DeleteBackward();
      var grouped := InsertString(text, locations);
      SetText(if grouped.Some? then grouped.value else "");
      var ok := SetCursor(offset);
      return if ok then Returned(false) else Trapped;
    }

    /** The deletion of a longer range: the text is regrouped and, unless the
      * range reached the end, the cursor put at the start of the range. */
    method DeleteMany(range: EditRange, locations: seq<int>) returns (outcome: Outcome)
      requires Valid() && forall i :: 0 <= i < |locations| ==> locations[i] >= 1
      modifies this
      ensures outcome != Returned(true)
      ensures text == Regrouped(Backspace(old(text), old(selStart), old(selEnd)).0, locations)
      ensures range.location + range.length == |old(text)| ==>
        outcome == Returned(false) && selStart == selEnd == |text|
      ensures range.location + range.length != |old(text)| ==>
        (outcome == Returned(false) <==> range.location <= |text|)
        && (outcome == Returned(false) ==> selStart == selEnd == range.location)
      ensures outcome != Trapped ==> Valid()
    {
      var lastLocation := false;
      if range.location + range.length == |text| {
        lastLocation := true;
      }
      DeleteBackward();
      var grouped := InsertString(text, locations);
      SetText(if grouped.Some? then grouped.value else "");
      if !lastLocation {
        var ok := SetCursor(range.location);
        if !ok {
          return Trapped;
        }
      }
      return Returned(false);
    }

    /** A non-empty replacement: rejected over the limit, otherwise inserted, the
      * text regrouped and the cursor put after the insertion, one further for
      * each separator location the edit starts at. */
    method InsertEdit(range: EditRange, str: string, locations: seq<int>, limitCount: int)
      returns (outcome: Outcome)
      requires Valid() && forall i :: 0 <= i < |locations| ==> locations[i] >= 1
      modifies this
      ensures outcome != Returned(true)
      ensures LimitExceeded(old(text), str, range, limitCount) ==>
        outcome == Returned(false) && text == old(text) && selStart == old(selStart) && selEnd == old(selEnd)
      ensures !LimitExceeded(old(text), str, range, limitCount) ==>
        var offset := range.location + |str| + Hits(locations, range.location);
        text == Regrouped(old(text[..selStart]) + str + old(text[selEnd..]), locations)
        && (outcome == Returned(false) <==> offset <= |text|)
        && (outcome == Returned(false) ==> selStart == selEnd == offset)
      ensures outcome != Trapped ==> Valid()
    {
      var limit := true;
      if limitCount == 0 {
        limit := false;
      }
      if limit {
        var newString := StringTrim.RemoveAll(text, ' ');
        if |newString| + |str| - range.length > limitCount {
          return Returned(false);
        }
      }
      InsertText(str);
      var grouped := InsertString(text, locations);
      SetText(if grouped.Some? then grouped.value else "");
      var offset := range.location + |str|;
      for k := 0 to |locations|
        invariant offset == range.location + |str| + Hits(locations[..k], range.location)
      {
        assert locations[..k + 1] == locations[..k] + [locations[k]];
        if range.location == locations[k] {
          offset := offset + 1;
        }
      }
      assert locations[..|locations|] == locations;
      var ok := SetCursor(offset);
      return if ok then Returned(false) else Trapped;
    }

    /** `__configField`: UIKit may apply the edit itself only when the last
      * character is deleted or an empty range is replaced by nothing; every
      * other edit is rejected when over the limit, or applied here and answered
      * with `false`. */
    method ConfigField(range: EditRange, str: string, locations: seq<int>, limitCount: int)
      returns (outcome: Outcome)
      requires Valid() && forall i :: 0 <= i < |locations| ==> locations[i] >= 1
      modifies this
      ensures outcome == Returned(true) <==>
        str == [] && (range.length == 0 || (range.length == 1 && range.location + 1 == |old(text)|))
      ensures outcome == Returned(true) ==>
        text == old(text) && selStart == old(selStart) && selEnd == old(selEnd)
      ensures str != [] && LimitExceeded(old(text), str, range, limitCount) ==>
        outcome == Returned(false) && text == old(text) && selStart == old(selStart) && selEnd == old(selEnd)
      ensures str != [] && !LimitExceeded(old(text), str, range, limitCount) ==>
        var offset := range.location + |str| + Hits(locations, range.location);
        text == Regrouped(old(text[..selStart]) + str + old(text[selEnd..]), locations)
        && (outcome == Returned(false) <==> offset <= |text|)
        && (outcome == Returned(false) ==> selStart == selEnd == offset)
      ensures str == [] && range.length == 1 && range.location + 1 != |old(text)| ==>
        var spaced := range.location < |old(text)| && old(text)[range.location] == ' ' && old(selStart) == old(selEnd);
        var first := Backspace(old(text), old(selStart), old(selEnd));
        var offset := if spaced then range.location - 1 else range.location;
        text == Regrouped(if spaced then Backspace(first.0, first.1, first.1).0 else first.0, locations)
        && (outcome == Returned(false) <==> 0 <= offset <= |text|)
        && (outcome == Returned(false) ==> selStart == selEnd == offset)
      ensures str == [] && range.length > 1 ==>
        text == Regrouped(Backspace(old(text), old(selStart), old(selEnd)).0, locations)
        && (range.location + range.length == |old(text)| ==> outcome == Returned(false) && selStart == selEnd == |text|)
        && (range.location + range.length != |old(text)| ==>
          (outcome == Returned(false) <==> range.location <= |text|)
          && (outcome == Returned(false) ==> selStart == selEnd == range.location))
      ensures outcome != Trapped ==> Valid()
    {
      if str == "" {
        if range.length == 1 {
          if range.location == |text| - 1 {
            return Returned(true);
          } else {
            outcome := DeleteOne(range, locations);
          }
        } else if range.length > 1 {
          outcome := DeleteMany(range, locations);
        } else {
          return Returned(true);
        }
      } else {
        outcome := InsertEdit(range, str, locations, limitCount);
      }
    }

    /** `textField(_:type:range:replacementString:)`: the grouped formats with their
      * layouts, the `.codeUnit` rule, and the decimal field. */
    method ShouldChange(t: FormatType, range: EditRange, str: string) returns (outcome: Outcome)
      requires Valid()
      modifies this
      ensures t == CodeUnit ==> (outcome == Returned(CodeUnitAccepts(range, str))
        && text == old(text) && selStart == old(selStart) && selEnd == old(selEnd))
      ensures outcome != Trapped ==> Valid()
    {
      if t == CodeUnit {
        return Returned(CodeUnitAccepts(range, str));
      }
      if t == Decimal {
        outcome := ConfigDecimalField(range, str);
        return;
      }
      var layout := Layout(t);
      outcome := ConfigField(range, str, layout.0, layout.1);
    }

    /** The cursor is after the point and two decimals are already there. */
    static predicate DecimalsFull(t: string, cursor: int)
    {
      var index := StringSearch.IndexOf(t, ".", false);
      index != -1 && cursor > index && |t| - index > 2
    }

    /** The characters the decimal field accepts at `location`: a point only in
      * text without one, and not in front of everything. */
    static function DecimalAllowed(index: int, location: int): string
    {
      if index == -1 && location != 0 then "0123456789.\n" else "0123456789\n"
    }

    /** A non-empty replacement that gets past the decimals test, the cursor
      * placement and the rules for the integer part, on to the leading-zero
      * test. */
    static predicate ReachesZeroTest(t: string, cursor: int, range: EditRange, str: string)
    {
      var index := StringSearch.IndexOf(t, ".", false);
      str != [] && !DecimalsFull(t, cursor) && range.location <= |t|
      && !(index == -1 && range.location != 0 && (range.location >= 9 || (str == "." && |t| > range.location)))
    }

    /** The leading `0` is replaced: it is the whole text and the replacement is
      * neither `0` nor a point. */
    static predicate ZeroReplaced(t: string, str: string)
    {
      StringSearch.IndexOf(t, "0", false) == 0 && str != "0" && str != "." && |t| == 1
    }

    /** A second `0` after a leading one, in text without a point. */
    static predicate ZeroRefused(t: string, str: string)
    {
      StringSearch.IndexOf(t, "0", false) == 0 && !ZeroReplaced(t, str)
      && StringSearch.IndexOf(t, ".", false) == -1 && str == "0"
    }

    /** `__configDecimalField`: amounts with at most two decimals and at most
      * nine integer digits. `index` is the position of the first point, -1 when
      * there is none. */
    method ConfigDecimalField(range: EditRange, str: string) returns (outcome: Outcome)
      requires Valid()
      modifies this
      ensures str != [] && DecimalsFull(old(text), old(selStart)) ==>
        outcome == Returned(false) && text == old(text) && selStart == old(selStart) && selEnd == old(selEnd)
      ensures str == [] ==> outcome == Returned(true) && text == old(text) && selStart == old(selStart) && selEnd == old(selEnd)
      ensures str != [] && !DecimalsFull(old(text), old(selStart)) && range.location > |old(text)| ==>
        outcome == Trapped
      ensures var index := StringSearch.IndexOf(old(text), ".", false);
        index == -1 && str != [] && 9 <= range.location <= |old(text)| ==>
        outcome == Returned(str == "." && range.location == 9)
      ensures var index := StringSearch.IndexOf(old(text), ".", false);
        index == -1 && str == "." && 0 < range.location < 9 && range.location == |old(text)| - 1 ==>
        outcome == Trapped
      ensures var index := StringSearch.IndexOf(old(text), ".", false);
        index == -1 && str == "." && 0 < range.location < 9 && range.location < |old(text)| - 1 ==>
        outcome == Returned(false)
        && text == (old(text)[..range.location] + "." + old(text)[range.location..])[..range.location + 3]
      ensures outcome == Returned(true) && str != [] ==>
        var index := StringSearch.IndexOf(old(text), ".", false);
        var allowed := DecimalAllowed(index, range.location);
        (forall i :: 0 <= i < |str| ==> str[i] in allowed)
        && (index != -1 ==> range.location <= index + 2)
        && (|old(text)| <= 11 || (index == -1 && str == "." && range.location == 9))
      ensures ReachesZeroTest(old(text), old(selStart), range, str) && ZeroReplaced(old(text), str) ==>
        outcome == Returned(false) && text == str && selStart == selEnd == |str|
      ensures ReachesZeroTest(old(text), old(selStart), range, str) && ZeroRefused(old(text), str) ==>
        outcome == Returned(false) && text == old(text) && selStart == selEnd == range.location
      ensures (ReachesZeroTest(old(text), old(selStart), range, str)
        && !ZeroReplaced(old(text), str) && !ZeroRefused(old(text), str)) ==>
        var index := StringSearch.IndexOf(old(text), ".", false);
        text == old(text) && selStart == selEnd == range.location
        && (outcome == Returned(true) <==>
          (forall i :: 0 <= i < |str| ==> str[i] in DecimalAllowed(index, range.location))
          && !(index != -1 && range.location > index + 2)
          && |old(text)| <= 11)
        && outcome != Trapped
      ensures outcome == Returned(true) ==> text == old(text)
      ensures outcome != Trapped ==> Valid()
    {
      var index := StringSearch.IndexOf(text, ".", false);
      if selStart > index && index != -1 {
        var subString := StringIndex.SubstringFrom(text, index);
        if str != "" {
          if |subString| > 2 && index != -1 {
            return Returned(false);
          }
        }
      }
      if str != "" {
        var allowed: string;
        var ok := SetCursor(range.location);
        if !ok {
          return Trapped;
        }
        if index == -1 && range.location != 0 {
          allowed := "0123456789.\n";
          if range.location >= 9 {
            if str == "." && range.location == 9 {
              return Returned(true);
            } else {
              return Returned(false);
            }
          } else {
            if str == "." && |text| > range.location {
              var str1 := StringIndex.Insert(text, str, range.location);
              if range.location + 2 == |str1| {
                return Trapped;
              }
              SetText(StringIndex.SubstringTo(str1, range.location + 2));
              return Returned(false);
            }
          }
        } else {
          allowed := "0123456789\n";
        }
        var zero := StringSearch.IndexOf(text, "0", false);
        if zero == 0 {
          if str != "0" && str != "." && |text| == 1 {
            SetText(str);
            return Returned(false);
          } else {
            if index == -1 {
              if str == "0" {
                return Returned(false);
              }
            }
          }
        }
        if exists i :: 0 <= i < |str| && str[i] !in allowed {
          return Returned(false);
        }
        if index != -1 && range.location > index + 2 {
          return Returned(false);
        }
        return Returned(|text| <= 11);
      } else {
        return Returned(true);
      }
    }
  }
}
