/**
 * String-to-number conversions of String+Ex.swift: `toInt(hexString:)`, the
 * Foundation readings `integerValue`/`intValue` and `boolValue` behind `toInteger`,
 * `toInt` and `toBool`, Swift's `Int(String)`, and `toPercentString` and `reverse`.
 * Integers are unbounded: the 64-bit (and for `intValue` 32-bit) limits are not
 * modelled.
 */
module StringNumbers {
  import opened Wrappers
  import Chars
  import StringTrim

  /** The UTF-8 encoding of one Unicode scalar value. */
  function Utf8(c: char): (bytes: seq<nat>)
    ensures 1 <= |bytes| <= 4
    ensures (c as int) < 128 <==> bytes == [c as int]
    ensures forall i :: 0 <= i < |bytes| ==> bytes[i] < 256
  {
    var v := c as int;
    if v < 0x80 then [v]
    else if v < 0x800 then [0xC0 + v / 64, 0x80 + v % 64]
    else if v < 0x10000 then [0xE0 + v / 4096, 0x80 + (v / 64) % 64, 0x80 + v % 64]
    else [0xF0 + v / 262144, 0x80 + (v / 4096) % 64, 0x80 + (v / 64) % 64, 0x80 + v % 64]
  }

  /** `s.utf8`. */
  function Utf8Bytes(s: string): seq<nat>
  {
    if s == [] then [] else Utf8Bytes(s[..|s| - 1]) + Utf8(s[|s| - 1])
  }

  /** The value the loop of `toInt(hexString:)` accumulates over the bytes `b`:
    * each byte adds `b - 48`, less 7 more when `b >= 65`. */
  function HexAccumulate(bytes: seq<nat>): int
  {
    if bytes == [] then 0
    else
      var b := bytes[|bytes| - 1];
      HexAccumulate(bytes[..|bytes| - 1]) * 16 + b - 48 - (if b >= 65 then 7 else 0)
  }

  /** `toInt(hexString:)`: upper-cases, then folds over the UTF-8 bytes. */
  method ToIntHex(hexString: string) returns (sum: int)
    ensures sum == HexAccumulate(Utf8Bytes(Chars.Uppercased(hexString)))
    ensures Chars.AllHexDigits(hexString) ==> sum == Chars.HexValue(hexString)
  {
    var bytes := Utf8Bytes(Chars.Uppercased(hexString));
    sum := 0;
    for k := 0 to |bytes|
      invariant sum == HexAccumulate(bytes[..k])
    {
      assert bytes[..k + 1][..k] == bytes[..k];
      sum := sum * 16 + bytes[k] - 48;
      if bytes[k] >= 65 {
        sum := sum - 7;
      }
    }
    assert bytes[..|bytes|] == bytes;
    if Chars.AllHexDigits(hexString) {
      HexParserIsStandard(hexString);
    }
  }

  /** On ASCII text UTF-8 is one byte per character: its code. */
  lemma {:induction false} Utf8OfAscii(s: string)
    requires forall i :: 0 <= i < |s| ==> (s[i] as int) < 128
    ensures Utf8Bytes(s) == seq(|s|, i requires 0 <= i < |s| => s[i] as int)
  {
    if s != [] {
      Utf8OfAscii(s[..|s| - 1]);
    }
  }

  lemma {:induction false} HexAccumulateOfUpperDigits(s: string)
    requires Chars.AllHexDigits(s)
    ensures HexAccumulate(seq(|s|, i requires 0 <= i < |s| => Chars.ToUpper(s[i]) as int)) == Chars.HexValue(s)
  {
    var b := seq(|s|, i requires 0 <= i < |s| => Chars.ToUpper(s[i]) as int);
    if s != [] {
      var p := s[..|s| - 1];
      assert b[..|b| - 1] == seq(|p|, i requires 0 <= i < |p| => Chars.ToUpper(p[i]) as int);
      HexAccumulateOfUpperDigits(p);
    }
  }

  /** The parser gives the standard base-16 value of any string of 0-9, a-f, A-F. */
  lemma HexParserIsStandard(s: string)
    requires Chars.AllHexDigits(s)
    ensures HexAccumulate(Utf8Bytes(Chars.Uppercased(s))) == Chars.HexValue(s)
  {
    var u := Chars.Uppercased(s);
    Utf8OfAscii(u);
    assert seq(|u|, i requires 0 <= i < |u| => u[i] as int)
      == seq(|s|, i requires 0 <= i < |s| => Chars.ToUpper(s[i]) as int);
    HexAccumulateOfUpperDigits(s);
  }

  /** The longest prefix of decimal digits. */
  function LeadingDigits(t: string): (r: string)
    ensures Chars.AllDigits(r) && r <= t
    ensures |r| < |t| ==> !Chars.IsDigit(t[|r|])
  {
    if t != [] && Chars.IsDigit(t[0]) then [t[0]] + LeadingDigits(t[1..]) else []
  }

  /** Foundation's `integerValue` (also `intValue`, below 32-bit limits): leading
    * white space skipped, an optional sign, then as many decimal digits as
    * follow; 0 when there are none. */
  function IntegerValue(s: string): int
  {
    ReadSigned(StringTrim.DropLeading(s, StringTrim.WhitespacesAndNewlines))
  }

  /** An optional sign and the digits after it. */
  function ReadSigned(t: string): int
  {
    if t != [] && t[0] == '-' then 0 - Chars.DigitsValue(LeadingDigits(t[1..]))
    else if t != [] && t[0] == '+' then Chars.DigitsValue(LeadingDigits(t[1..]))
    else Chars.DigitsValue(LeadingDigits(t))
  }

  lemma ReadSignedOfDigit(c: char)
    requires Chars.IsDigit(c)
    ensures ReadSigned([c]) == Chars.DigitValue(c)
  {
    assert [c][1..] == [] && [c][..0] == [];
    assert LeadingDigits([c]) == [c];
    assert Chars.DigitsValue([c]) == Chars.DigitValue(c);
  }

  lemma ReadSignedOfNonDigit(t: string)
    requires |t| <= 1 && (t != [] ==> !Chars.IsDigit(t[0]))
    ensures ReadSigned(t) == 0
  {
    if t != [] {
      assert t[1..] == [];
    }
  }

  /** A one-character string reads as its digit, anything else as 0. */
  lemma IntegerValueOfChar(c: char)
    ensures IntegerValue([c]) == if Chars.IsDigit(c) then Chars.DigitValue(c) else 0
  {
    var t := StringTrim.DropLeading([c], StringTrim.WhitespacesAndNewlines);
    if Chars.IsDigit(c) {
      StringTrim.DigitIsNotSpace(c);
      assert t == [c];
      ReadSignedOfDigit(c);
    } else {
      assert t == [c][1 - |t|..];
      ReadSignedOfNonDigit(t);
    }
  }

  lemma AllDigitsLeading(s: string)
    requires Chars.AllDigits(s)
    ensures LeadingDigits(s) == s
  {
    if s != [] {
      AllDigitsLeading(s[1..]);
    }
  }

  /** `"\(n)"` reads back as `n`. */
  lemma IntegerValueOfDecimal(n: nat)
    ensures IntegerValue(Chars.NatToDecimal(n)) == n
  {
    var d := Chars.NatToDecimal(n);
    assert Chars.IsDigit(d[0]);
    StringTrim.DigitIsNotSpace(d[0]);
    StringTrim.DropLeadingNoop(d, StringTrim.WhitespacesAndNewlines);
    AllDigitsLeading(d);
    Chars.DecimalRoundTrip(n);
  }

  /** Swift's `Int(String)`: an optional sign and at least one digit, nothing else. */
  function ParseInt(s: string): (r: Option<int>)
    ensures r.Some? <==> ((Chars.AllDigits(s) && s != [])
      || (|s| >= 2 && (s[0] == '-' || s[0] == '+') && Chars.AllDigits(s[1..])))
  {
    if |s| >= 2 && s[0] == '-' && Chars.AllDigits(s[1..]) then Some(0 - Chars.DigitsValue(s[1..]))
    else if |s| >= 2 && s[0] == '+' && Chars.AllDigits(s[1..]) then Some(Chars.DigitsValue(s[1..]))
    else if s != [] && Chars.AllDigits(s) then Some(Chars.DigitsValue(s))
    else None
  }

  lemma ParseIntOfDecimal(n: nat)
    ensures ParseInt(Chars.NatToDecimal(n)) == Some(n)
  {
    Chars.DecimalRoundTrip(n);
  }

  /** Foundation's `boolValue`: after leading white space, an optional sign and
    * zeros, true on "Y", "y", "T", "t" or a digit 1-9. */
  predicate BoolValue(s: string)
  {
    var t := StringTrim.DropLeading(s, StringTrim.WhitespacesAndNewlines);
    var u := if t != [] && (t[0] == '-' || t[0] == '+') then t[1..] else t;
    var v := DropZeros(u);
    v != [] && (v[0] in "YyTt" || '1' <= v[0] <= '9')
  }

  function DropZeros(u: string): (v: string)
    ensures |v| <= |u| && v == u[|u| - |v|..]
  {
    if u != [] && u[0] == '0' then DropZeros(u[1..]) else u
  }

  /** `toBool`: `boolValue` of a string that lower-cases to "true", false otherwise. */
  function ToBool(s: string): bool
  {
    if Chars.Lowercased(s) == "true" then BoolValue(s) else false
  }

  /** `toBool` holds exactly for the spellings of "true" in any letter case. */
  lemma ToBoolIff(s: string)
    ensures ToBool(s) <==> Chars.Lowercased(s) == "true"
  {
    if Chars.Lowercased(s) == "true" {
      assert Chars.ToLower(s[0]) == 't';
      assert s[0] == 't' || s[0] == 'T';
      assert !StringTrim.InClass(s[0], StringTrim.WhitespacesAndNewlines);
    }
  }

  /** `toPercentString`: the string with "%" appended when it starts with "%". */
  function ToPercentString(s: string): (r: string)
    ensures |s| >= 1 && s[0] == '%' ==> r == s + "%"
    ensures (s == [] || s[0] != '%') ==> r == s
  {
    if |s| < 1 then s else if !("%" <= s) then s else s + "%"
  }

  /** `reverse()`. */
  function Reverse(s: string): (r: string)
    ensures |r| == |s|
    ensures forall i :: 0 <= i < |s| ==> r[i] == s[|s| - 1 - i]
  {
    if s == [] then [] else Reverse(s[1..]) + [s[0]]
  }

  lemma ReverseInvolution(s: string)
    ensures Reverse(Reverse(s)) == s
  {
  }
}
