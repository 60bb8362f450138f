/**
 * Hex colour decoding in UIColor+Ex.swift: channels taken out of an integer by
 * masks and shifts, the `#` / `0x` prefix handling of `init(hexString:)` and
 * `color(hexString:)`, the length-driven `hexStringToRGB`, and the channel
 * arithmetic of `toRGB`, `toGradientRGB` and `reversed`.
 *
 * A mask-and-shift such as `(v & 0xFF0000) >> 16` is written `Field(v, 0x10000,
 * 0x100)`: the value shifted right, then its low bits kept. Dafny's Euclidean
 * `/` and `%` by powers of two agree with the shift and the mask on the two's
 * complement representation, negative values included.
 */
module HexColor {
  import Chars
  import StringTrim
  import Arith

  /** A colour by its components in `[0, 1]` (`getRed(_:green:blue:alpha:)`). */
  datatype Color = Color(red: real, green: real, blue: real, alpha: real)

  /** An `(red, green, blue)` tuple. */
  datatype Rgb = Rgb(red: real, green: real, blue: real)

  const UInt64Max: nat := 0xFFFF_FFFF_FFFF_FFFF
  const IntMin: int := -0x8000_0000_0000_0000
  const IntMax: int := 0x7FFF_FFFF_FFFF_FFFF

  // ---------------------------------------------------------------------------
  // Integer channels
  // ---------------------------------------------------------------------------

  /** The bits of `v` from `unit` up, `size` values wide: `(v >> k) & (size - 1)`
    * for `unit == 2^k`. */
  function Field(v: int, unit: nat, size: nat): (n: nat)
    requires unit > 0 && size > 0
    ensures n < size
  {
    (v / unit) % size
  }

  /** `init(hexValue:alpha:)` and `color(hexValue:alpha:)` (the two compute the
    * same expressions): the numerators over 255 of red, green and blue. */
  function HexValueChannels(hexValue: int): (c: (nat, nat, nat))
    requires IntMin <= hexValue <= IntMax
    ensures c.0 <= 255 && c.1 <= 255 && c.2 <= 255
  {
    (Field(hexValue, 0x1_0000, 0x100), Field(hexValue, 0x100, 0x100), Field(hexValue, 1, 0x100))
  }

  /** The three low bytes of `v`, most significant first, recombine to
    * `v & 0xFFFFFF`. */
  lemma BytesRecombine(v: int)
    ensures Field(v, 0x1_0000, 0x100) * 0x1_0000 + Field(v, 0x100, 0x100) * 0x100 + Field(v, 1, 0x100)
      == v % 0x100_0000
  {
    var q1, b := v / 0x100, v % 0x100;
    var q2, g := q1 / 0x100, q1 % 0x100;
    var q3, r := q2 / 0x100, q2 % 0x100;
    assert v == q1 * 0x100 + b && q1 == q2 * 0x100 + g && q2 == q3 * 0x100 + r;
    Arith.DivModUnique(v, 0x1_0000, q2, g * 0x100 + b);
    Arith.DivModUnique(v, 0x100_0000, q3, r * 0x1_0000 + g * 0x100 + b);
  }

  /** The channels are the three low bytes of the value, most significant first:
    * `r * 65536 + g * 256 + b == v & 0xFFFFFF`. */
  lemma HexValueChannelsRecombine(hexValue: int)
    requires IntMin <= hexValue <= IntMax
    ensures var c := HexValueChannels(hexValue);
      c.0 * 0x1_0000 + c.1 * 0x100 + c.2 == hexValue % 0x100_0000
  {
    BytesRecombine(hexValue);
  }

  /** The colour of three numerators over 255. */
  function ColorOf(c: (nat, nat, nat), alpha: real): (r: Color)
    requires c.0 <= 255 && c.1 <= 255 && c.2 <= 255
    ensures 0.0 <= r.red <= 1.0 && 0.0 <= r.green <= 1.0 && 0.0 <= r.blue <= 1.0
  {
    Color(Over(c.0, 255), Over(c.1, 255), Over(c.2, 255), alpha)
  }

  // ---------------------------------------------------------------------------
  // Scanning hex strings
  // ---------------------------------------------------------------------------

  /** The longest prefix of hex digits. */
  function LeadingHexDigits(t: string): (r: string)
    ensures Chars.AllHexDigits(r) && r <= t
    ensures |r| < |t| ==> !Chars.IsHexDigit(t[|r|])
  {
    if t != [] && Chars.IsHexDigit(t[0]) then [t[0]] + LeadingHexDigits(t[1..]) else []
  }

  function Pow16(k: nat): (p: nat)
    ensures p >= 1
  {
    if k == 0 then 1 else 16 * Pow16(k - 1)
  }

  /** `Scanner.scanHexInt64` from the start of `s`, as this model assumes it:
    * leading white space and newlines are skipped, then an optional `0x` or `0X`
    * (when a hex digit follows), then as many hex digits as there are; the value
    * saturates at `UInt64.max`, and is 0 when there are no digits. */
  function ScanHexInt64(s: string): (v: nat)
    ensures v <= UInt64Max
  {
    var digits := LeadingHexDigits(SkipHexPrefix(StringTrim.DropLeading(s, StringTrim.WhitespacesAndNewlines)));
    var value := Chars.HexValue(digits);
    if value > UInt64Max then UInt64Max else value
  }

  /** `t` without a `0x` or `0X` that is followed by a hex digit. */
  function SkipHexPrefix(t: string): string
  {
    if |t| >= 3 && t[0] == '0' && (t[1] == 'x' || t[1] == 'X') && Chars.IsHexDigit(t[2]) then t[2..] else t
  }

  /** `HexValue` of a concatenation: the digits of `a` shifted by those of `b`. */
  lemma {:induction false} HexValueAppend(a: string, b: string)
    requires Chars.AllHexDigits(a) && Chars.AllHexDigits(b)
    ensures Chars.AllHexDigits(a + b) && Chars.HexValue(a + b) == Chars.HexValue(a) * Pow16(|b|) + Chars.HexValue(b)
  {
    if b == [] {
      assert a + b == a;
    } else {
      var b' := b[..|b| - 1];
      assert (a + b)[..|a + b| - 1] == a + b';
      HexValueAppend(a, b');
      var c := Chars.HexDigitValue(b[|b| - 1]);
      assert Chars.HexValue(a + b) == Chars.HexValue(a + b') * 16 + c;
      assert Chars.HexValue(b) == Chars.HexValue(b') * 16 + c;
      ShiftDigit(Chars.HexValue(a), Pow16(|b'|), Chars.HexValue(b'), c);
    }
  }

  lemma ShiftDigit(x: int, p: int, y: int, c: int)
    ensures (x * p + y) * 16 + c == x * (16 * p) + (y * 16 + c)
  {
  }

  lemma {:induction false} HexValueBound(s: string)
    requires Chars.AllHexDigits(s)
    ensures Chars.HexValue(s) < Pow16(|s|)
  {
    if s != [] {
      HexValueBound(s[..|s| - 1]);
    }
  }

  /** Lower-casing keeps the digits and their values. */
  lemma {:induction false} HexValueLowercased(s: string)
    requires Chars.AllHexDigits(s)
    ensures Chars.AllHexDigits(Chars.Lowercased(s)) && Chars.HexValue(Chars.Lowercased(s)) == Chars.HexValue(s)
  {
    if s != [] {
      var p := s[..|s| - 1];
      assert Chars.Lowercased(s)[..|s| - 1] == Chars.Lowercased(p);
      HexValueLowercased(p);
    }
  }

  /** A string of hex digits that does not start with `0x` scans as its value. */
  lemma ScanHexOfDigits(s: string)
    requires Chars.AllHexDigits(s) && |s| <= 8
    ensures ScanHexInt64(s) == Chars.HexValue(s)
  {
    DigitsScanned(s);
    HexValueFits(s);
  }

  /** The scanner reads all of a string of hex digits. */
  lemma DigitsScanned(s: string)
    requires Chars.AllHexDigits(s)
    ensures LeadingHexDigits(SkipHexPrefix(StringTrim.DropLeading(s, StringTrim.WhitespacesAndNewlines))) == s
  {
    NoLeadingSpace(s);
    NoHexPrefix(s);
    LeadingHexDigitsOfDigits(s);
  }

  /** Eight hex digits fit in a `UInt64`. */
  lemma HexValueFits(s: string)
    requires Chars.AllHexDigits(s) && |s| <= 8
    ensures Chars.HexValue(s) <= UInt64Max
  {
    HexValueBound(s);
    Pow16Monotone(|s|, 8);
  }

  lemma NoHexPrefix(s: string)
    requires Chars.AllHexDigits(s)
    ensures SkipHexPrefix(s) == s
  {
    if |s| >= 3 {
      var c := s[1];
      assert Chars.IsHexDigit(c);
      assert c != 'x' && c != 'X';
    }
  }

  lemma NoLeadingSpace(s: string)
    requires Chars.AllHexDigits(s)
    ensures StringTrim.DropLeading(s, StringTrim.WhitespacesAndNewlines) == s
  {
    if s != [] {
      assert Chars.IsHexDigit(s[0]);
      assert !StringTrim.InClass(s[0], StringTrim.WhitespacesAndNewlines);
    }
  }

  lemma {:induction false} LeadingHexDigitsOfDigits(s: string)
    requires Chars.AllHexDigits(s)
    ensures LeadingHexDigits(s) == s
  {
    if s != [] {
      LeadingHexDigitsOfDigits(s[1..]);
    }
  }

  lemma {:induction false} Pow16Monotone(j: nat, k: nat)
    requires j <= k
    ensures Pow16(j) <= Pow16(k) && Pow16(8) == 0x1_0000_0000
  {
    if j < k {
      Pow16Monotone(j, k - 1);
    }
  }

  // ---------------------------------------------------------------------------
  // Hex strings
  // ---------------------------------------------------------------------------

  /** The string handed to the scanner by `color(hexString:)`: the input stripped
    * of spaces and line feeds and lower-cased, without a leading `#`; after a
    * `0x` the ORIGINAL argument minus its first two characters. */
  function StrippedHex(hexString: string): (hex: string)
    ensures |hex| <= |hexString|
  {
    var hex0 := Chars.Lowercased(StringTrim.Trim(hexString, true));
    var hex1 := if |hex0| >= 1 && hex0[0] == '#' then hex0[1..] else hex0;
    if |hex1| >= 2 && hex1[..2] == "0x" then (if |hexString| >= 2 then hexString[2..] else [])
    else hex1
  }

  /** The channel expressions of the string initialisers on the scanned value:
    * `Int(v >> 16) & 0xFF`, `Int(v >> 8) & 0xFF`, `Int(v) & 0xFF`. */
  function ScannedChannels(v: nat): (c: (nat, nat, nat))
    ensures c.0 <= 255 && c.1 <= 255 && c.2 <= 255
  {
    (Field(v, 0x1_0000, 0x100), Field(v, 0x100, 0x100), Field(v, 1, 0x100))
  }

  /** `color(hexString:alpha:)`: the stripped string scanned. `Int(hexValue)`
    * traps when the scanned value does not fit an `Int`. */
  function ColorHexString(hexString: string, alpha: real): (r: Color)
    requires ScanHexInt64(StrippedHex(hexString)) <= IntMax
    ensures r == ColorOf(ScannedChannels(ScanHexInt64(StrippedHex(hexString))), alpha)
    ensures r.alpha == alpha
  {
    ColorOf(ScannedChannels(ScanHexInt64(StrippedHex(hexString))), alpha)
  }

  /** `init(hexString:alpha:)` as written: it computes the stripped `hex` but
    * hands the original argument to the scanner. */
  function InitHexStringAsWritten(hexString: string, alpha: real): (r: Color)
    requires ScanHexInt64(hexString) <= IntMax
    ensures r == ColorOf(ScannedChannels(ScanHexInt64(hexString)), alpha)
  {
    ColorOf(ScannedChannels(ScanHexInt64(hexString)), alpha)
  }

  /** The scanner stops at the `#`, so `init(hexString: "#ff0000")` is black. */
  lemma InitHexStringAsWrittenIgnoresHash()
    ensures ScanHexInt64("#ff0000") == 0
    ensures InitHexStringAsWritten("#ff0000", 1.0) == Color(0.0, 0.0, 0.0, 1.0)
  {
    var s := "#ff0000";
    assert !StringTrim.InClass(s[0], StringTrim.WhitespacesAndNewlines);
    StringTrim.DropLeadingNoop(s, StringTrim.WhitespacesAndNewlines);
    assert LeadingHexDigits(s) == [];
  }

  /** Three bytes packed big-endian come apart again. */
  lemma PackedBytes(r: nat, g: nat, b: nat)
    requires r < 256 && g < 256 && b < 256
    ensures ScannedChannels(r * 0x1_0000 + g * 0x100 + b) == (r, g, b)
  {
    var v := r * 0x1_0000 + g * 0x100 + b;
    Arith.DivModUnique(v, 0x1_0000, r, g * 0x100 + b);
    Arith.DivModUnique(r, 0x100, 0, r);
    Arith.DivModUnique(v, 0x100, r * 0x100 + g, b);
    Arith.DivModUnique(r * 0x100 + g, 0x100, r, g);
    Arith.DivModUnique(v, 1, v, 0);
  }

  /** The values of the digit pairs `rr`, `gg` and `bb` of `rrggbb`. */
  function DigitPairs(d: string): (c: (nat, nat, nat))
    requires |d| == 6 && Chars.AllHexDigits(d)
    ensures c.0 < 256 && c.1 < 256 && c.2 < 256
  {
    SixDigits(d);
    (Chars.HexValue(d[..2]), Chars.HexValue(d[2..4]), Chars.HexValue(d[4..]))
  }

  /** The six digits of `rrggbb` are three bytes. */
  lemma SixDigits(d: string)
    requires |d| == 6 && Chars.AllHexDigits(d)
    ensures Chars.HexValue(d) == Chars.HexValue(d[..2]) * 0x1_0000 + Chars.HexValue(d[2..4]) * 0x100 + Chars.HexValue(d[4..])
    ensures Chars.HexValue(d[..2]) < 256 && Chars.HexValue(d[2..4]) < 256 && Chars.HexValue(d[4..]) < 256
  {
    var a, b, c := d[..2], d[2..4], d[4..];
    assert d == (a + b) + c;
    assert Pow16(2) == 256;
    HexValueAppend(a, b);
    HexValueAppend(a + b, c);
    HexValueBound(a);
    HexValueBound(b);
    HexValueBound(c);
    ThreeBytes(Chars.HexValue(a), Chars.HexValue(b), Chars.HexValue(c));
  }

  lemma ThreeBytes(x: int, y: int, z: int)
    ensures (x * 256 + y) * 256 + z == x * 0x1_0000 + y * 0x100 + z
  {
  }

  /** A `#` followed by hex digits is stripped to the lower-cased digits. */
  lemma StrippedHexOfHash(d: string)
    requires |d| >= 2 && Chars.AllHexDigits(d)
    ensures StrippedHex("#" + d) == Chars.Lowercased(d)
  {
    var s := "#" + d;
    NoSpaceInHash(d);
    var low := Chars.Lowercased(s);
    assert low[0] == '#';
    assert low[1..] == Chars.Lowercased(d);
    var c := Chars.Lowercased(d)[1];
    assert Chars.IsHexDigit(d[1]) && c == Chars.ToLower(d[1]);
    assert c != 'x';
  }

  /** `trim()` leaves a `#` and hex digits as they are. */
  lemma NoSpaceInHash(d: string)
    requires Chars.AllHexDigits(d)
    ensures StringTrim.Trim("#" + d, true) == "#" + d
  {
    var s := "#" + d;
    assert ' ' !in s && '\n' !in s by {
      forall i | 0 <= i < |s| ensures s[i] != ' ' && s[i] != '\n' {
        if i > 0 {
          assert s[i] == d[i - 1];
        }
      }
    }
    StringTrim.RemoveAllAbsent(s, '\n');
    StringTrim.RemoveAllAbsent(s, ' ');
  }

  /** Six hex digits scan as their three bytes. */
  lemma ScanSixDigits(d: string)
    requires |d| == 6 && Chars.AllHexDigits(d)
    ensures ScannedChannels(ScanHexInt64(d)) == DigitPairs(d)
  {
    ScanHexOfDigits(d);
    SixDigitsBytes(d);
  }

  lemma SixDigitsBytes(d: string)
    requires |d| == 6 && Chars.AllHexDigits(d)
    ensures ScannedChannels(Chars.HexValue(d)) == DigitPairs(d)
  {
    SixDigits(d);
    PackedBytes(Chars.HexValue(d[..2]), Chars.HexValue(d[2..4]), Chars.HexValue(d[4..]));
  }

  /** `color(hexString: "#rrggbb")` has the channels `rr`, `gg` and `bb`,
    * whichever case the digits are in. */
  lemma ColorHexStringOfHash(d: string, alpha: real)
    requires |d| == 6 && Chars.AllHexDigits(d)
    ensures ScanHexInt64(StrippedHex("#" + d)) <= IntMax
    ensures ColorHexString("#" + d, alpha) == ColorOf(DigitPairs(d), alpha)
  {
    StrippedHexOfHash(d);
    var low := Chars.Lowercased(d);
    HexValueLowercased(d);
    ScanHexOfDigits(low);
    ScanHexOfDigits(d);
    assert ScanHexInt64(StrippedHex("#" + d)) == Chars.HexValue(d);
    HexValueBound(d);
    Pow16Monotone(6, 8);
    SixDigits(d);
    ScanSixDigits(d);
  }

  /** `hexStringToRGB(_:alpha:)`: a `#` (or `0x` / `0X`) prefix is skipped by the
    * scanner, and the number of characters after it picks the format: 3 and 4
    * are 4-bit fields over 15, 6 and 8 are 8-bit fields over 255, the 4- and
    * 8-character forms with alpha in the last field; any other length leaves
    * the components 0 and the given alpha. */
  function HexStringToRGB(hexString: string, alpha: real): (c: Color)
    ensures var n := |hexString| - PrefixLength(hexString);
      !(n in {3, 4, 6, 8}) ==> c == Color(0.0, 0.0, 0.0, alpha)
    ensures var n := |hexString| - PrefixLength(hexString);
      (n == 3 || n == 6) ==> c.alpha == alpha
  {
    var length := PrefixLength(hexString);
    var hexValue := ScanHexInt64(hexString[length..]);
    var n := |hexString| - length;
    if n == 3 then
      Color(Over(Field(hexValue, 0x100, 0x10), 15), Over(Field(hexValue, 0x10, 0x10), 15),
            Over(Field(hexValue, 1, 0x10), 15), alpha)
    else if n == 4 then
      Color(Over(Field(hexValue, 0x1000, 0x10), 15), Over(Field(hexValue, 0x100, 0x10), 15),
            Over(Field(hexValue, 0x10, 0x10), 15), Over(Field(hexValue, 1, 0x10), 15))
    else if n == 6 then
      Color(Over(Field(hexValue, 0x1_0000, 0x100), 255), Over(Field(hexValue, 0x100, 0x100), 255),
            Over(Field(hexValue, 1, 0x100), 255), alpha)
    else if n == 8 then
      Color(Over(Field(hexValue, 0x100_0000, 0x100), 255), Over(Field(hexValue, 0x1_0000, 0x100), 255),
            Over(Field(hexValue, 0x100, 0x100), 255), Over(Field(hexValue, 1, 0x100), 255))
    else Color(0.0, 0.0, 0.0, alpha)
  }

  /** A numerator over its largest value, in `[0, 1]`. */
  function Over(n: nat, max: nat): (x: real)
    requires 0 < max && n <= max
    ensures 0.0 <= x <= 1.0 && x * max as real == n as real
  {
    n as real / max as real
  }

  /** Where `hexStringToRGB` starts scanning: after a `#`, else after `0x` in
    * either case, else at the start. */
  function PrefixLength(hexString: string): (k: nat)
    ensures k <= |hexString|
    ensures k == 1 <==> |hexString| >= 1 && hexString[0] == '#'
    ensures k == 2 <==> |hexString| >= 2 && hexString[0] == '0' && Chars.ToUpper(hexString[1]) == 'X'
  {
    if |hexString| >= 1 && hexString[0] == '#' then 1
    else if |hexString| >= 2 && Chars.Uppercased(hexString)[..2] == "0X" then 2
    else 0
  }

  /** Every component `hexStringToRGB` produces from the string lies in `[0, 1]`. */
  lemma HexStringToRGBInRange(hexString: string, alpha: real)
    ensures var c := HexStringToRGB(hexString, alpha);
      0.0 <= c.red <= 1.0 && 0.0 <= c.green <= 1.0 && 0.0 <= c.blue <= 1.0
    ensures var n := |hexString| - PrefixLength(hexString);
      (n == 4 || n == 8) ==> 0.0 <= HexStringToRGB(hexString, alpha).alpha <= 1.0
  {
  }

  /** `hexStringToRGB("#rrggbb", a)` has the channels `rr`, `gg`, `bb` and alpha `a`. */
  lemma HexStringToRGBOfHash(d: string, alpha: real)
    requires |d| == 6 && Chars.AllHexDigits(d)
    ensures var c := DigitPairs(d);
      HexStringToRGB("#" + d, alpha) == Color(c.0 as real / 255.0, c.1 as real / 255.0, c.2 as real / 255.0, alpha)
  {
    var s := "#" + d;
    assert PrefixLength(s) == 1 && s[1..] == d;
    ScanSixDigits(d);
  }

  /** `hexStringToRGB("#rgb", a)`: each digit over 15, with alpha `a`. */
  lemma HexStringToRGBOfThreeDigits(d: string, alpha: real)
    requires |d| == 3 && Chars.AllHexDigits(d)
    ensures HexStringToRGB("#" + d, alpha)
      == Color(Chars.HexDigitValue(d[0]) as real / 15.0, Chars.HexDigitValue(d[1]) as real / 15.0,
               Chars.HexDigitValue(d[2]) as real / 15.0, alpha)
  {
    var s := "#" + d;
    assert PrefixLength(s) == 1 && s[1..] == d;
    ScanHexOfDigits(d);
    ThreeDigitFields(d);
  }

  /** The three 4-bit fields of three hex digits are the digits. */
  lemma ThreeDigitFields(d: string)
    requires |d| == 3 && Chars.AllHexDigits(d)
    ensures Field(Chars.HexValue(d), 0x100, 0x10) == Chars.HexDigitValue(d[0])
    ensures Field(Chars.HexValue(d), 0x10, 0x10) == Chars.HexDigitValue(d[1])
    ensures Field(Chars.HexValue(d), 1, 0x10) == Chars.HexDigitValue(d[2])
  {
    Pow16Values();
    DigitField(d, 0);
    DigitField(d, 1);
    DigitField(d, 2);
  }

  /** `hexStringToRGB("#rgba", a)`: each digit over 15, alpha from the last one
    * whatever `a` is. */
  lemma HexStringToRGBOfFourDigits(d: string, alpha: real)
    requires |d| == 4 && Chars.AllHexDigits(d)
    ensures HexStringToRGB("#" + d, alpha)
      == Color(Chars.HexDigitValue(d[0]) as real / 15.0, Chars.HexDigitValue(d[1]) as real / 15.0,
               Chars.HexDigitValue(d[2]) as real / 15.0, Chars.HexDigitValue(d[3]) as real / 15.0)
  {
    var s := "#" + d;
    assert PrefixLength(s) == 1 && s[1..] == d;
    ScanHexOfDigits(d);
    FourDigitFields(d);
  }

  /** The four 4-bit fields of four hex digits are the digits. */
  lemma FourDigitFields(d: string)
    requires |d| == 4 && Chars.AllHexDigits(d)
    ensures Field(Chars.HexValue(d), 0x1000, 0x10) == Chars.HexDigitValue(d[0])
    ensures Field(Chars.HexValue(d), 0x100, 0x10) == Chars.HexDigitValue(d[1])
    ensures Field(Chars.HexValue(d), 0x10, 0x10) == Chars.HexDigitValue(d[2])
    ensures Field(Chars.HexValue(d), 1, 0x10) == Chars.HexDigitValue(d[3])
  {
    Pow16Values();
    DigitField(d, 0);
    DigitField(d, 1);
    DigitField(d, 2);
    DigitField(d, 3);
  }

  /** `hexStringToRGB("#rrggbbaa", a)`: each digit pair over 255, alpha from the
    * last pair whatever `a` is. */
  lemma HexStringToRGBOfEightDigits(d: string, alpha: real)
    requires |d| == 8 && Chars.AllHexDigits(d)
    ensures Chars.AllHexDigits(d[..2]) && Chars.AllHexDigits(d[2..4])
    ensures Chars.AllHexDigits(d[4..6]) && Chars.AllHexDigits(d[6..])
    ensures HexStringToRGB("#" + d, alpha)
      == Color(Chars.HexValue(d[..2]) as real / 255.0, Chars.HexValue(d[2..4]) as real / 255.0,
               Chars.HexValue(d[4..6]) as real / 255.0, Chars.HexValue(d[6..]) as real / 255.0)
  {
    var s := "#" + d;
    assert PrefixLength(s) == 1 && s[1..] == d;
    ScanHexOfDigits(d);
    EightDigitFields(d);
  }

  /** The four byte fields of eight hex digits are their digit pairs. */
  lemma EightDigitFields(d: string)
    requires |d| == 8 && Chars.AllHexDigits(d)
    ensures Chars.AllHexDigits(d[..2]) && Chars.AllHexDigits(d[2..4])
    ensures Chars.AllHexDigits(d[4..6]) && Chars.AllHexDigits(d[6..])
    ensures Field(Chars.HexValue(d), 0x100_0000, 0x100) == Chars.HexValue(d[..2])
    ensures Field(Chars.HexValue(d), 0x1_0000, 0x100) == Chars.HexValue(d[2..4])
    ensures Field(Chars.HexValue(d), 0x100, 0x100) == Chars.HexValue(d[4..6])
    ensures Field(Chars.HexValue(d), 1, 0x100) == Chars.HexValue(d[6..])
  {
    Pow16Values();
    DigitsField(d, 0, 2);
    DigitsField(d, 2, 4);
    DigitsField(d, 4, 6);
    DigitsField(d, 6, 8);
    assert d[0..2] == d[..2] && d[6..8] == d[6..];
  }

  /** The digits `d[i..j]` are a field of the value of `d`: the value shifted
    * past the digits after `j`, then masked to `j - i` digits. */
  lemma DigitsField(d: string, i: nat, j: nat)
    requires i <= j <= |d| && Chars.AllHexDigits(d)
    ensures Chars.AllHexDigits(d[i..j])
    ensures Field(Chars.HexValue(d), Pow16(|d| - j), Pow16(j - i)) == Chars.HexValue(d[i..j])
  {
    var a, b, c := d[..i], d[i..j], d[j..];
    assert d == (a + b) + c;
    assert Chars.AllHexDigits(a) && Chars.AllHexDigits(b) && Chars.AllHexDigits(c);
    HexValueAppend(a, b);
    HexValueAppend(a + b, c);
    HexValueBound(b);
    HexValueBound(c);
    Arith.DivModUnique(Chars.HexValue(d), Pow16(|c|), Chars.HexValue(a + b), Chars.HexValue(c));
    Arith.DivModUnique(Chars.HexValue(a + b), Pow16(|b|), Chars.HexValue(a), Chars.HexValue(b));
  }

  /** The single digit `d[i]` is the 4-bit field `|d| - 1 - i` of the value. */
  lemma DigitField(d: string, i: nat)
    requires i < |d| && Chars.AllHexDigits(d)
    ensures Field(Chars.HexValue(d), Pow16(|d| - 1 - i), 0x10) == Chars.HexDigitValue(d[i])
  {
    DigitsField(d, i, i + 1);
    assert d[i..i + 1] == [d[i]];
    assert Chars.HexValue([d[i]]) == Chars.HexDigitValue(d[i]) by {
      assert [d[i]][..0] == [];
    }
  }

  /** The shifts `hexStringToRGB` uses, as powers of 16. */
  lemma Pow16Values()
    ensures Pow16(0) == 1 && Pow16(1) == 0x10 && Pow16(2) == 0x100 && Pow16(3) == 0x1000
    ensures Pow16(4) == 0x1_0000 && Pow16(6) == 0x100_0000
  {
    assert Pow16(4) == 0x1_0000 by {
      assert Pow16(3) == 0x1000;
    }
    assert Pow16(6) == 0x100_0000 by {
      assert Pow16(5) == 0x10_0000;
    }
  }

  // ---------------------------------------------------------------------------
  // Channel arithmetic
  // ---------------------------------------------------------------------------

  /** `init(r:g:b:a:)` / `color(r:g:b:a:)`: components over 255. */
  function ColorFromRGB(r: real, g: real, b: real, a: real): (c: Color)
    ensures c.red * 255.0 == r && c.green * 255.0 == g && c.blue * 255.0 == b && c.alpha == a
  {
    Color(r / 255.0, g / 255.0, b / 255.0, a)
  }

  /** `toRGB`: the components scaled to 255. */
  function ToRGB(c: Color): (t: Rgb)
    ensures t.red == c.red * 255.0 && t.green == c.green * 255.0 && t.blue == c.blue * 255.0
  {
    Rgb(c.red * 255.0, c.green * 255.0, c.blue * 255.0)
  }

  /** `toRGB` undoes `color(r:g:b:a:)`. */
  lemma ToRGBOfColorFromRGB(r: real, g: real, b: real, a: real)
    ensures ToRGB(ColorFromRGB(r, g, b, a)) == Rgb(r, g, b)
  {
  }

  /** `toGradientRGB(lhs:rhs:)` on tuples: the componentwise difference. */
  function GradientRGB(lhs: Rgb, rhs: Rgb): (d: Rgb)
    ensures d.red + rhs.red == lhs.red && d.green + rhs.green == lhs.green && d.blue + rhs.blue == lhs.blue
  {
    Rgb(lhs.red - rhs.red, lhs.green - rhs.green, lhs.blue - rhs.blue)
  }

  /** `toGradientRGB(lhs:rhs:)` on colours: the difference of their `toRGB`. */
  function GradientOfColors(lhs: Color, rhs: Color): (d: Rgb)
    ensures d == GradientRGB(ToRGB(lhs), ToRGB(rhs))
  {
    Rgb(lhs.red * 255.0 - rhs.red * 255.0, lhs.green * 255.0 - rhs.green * 255.0,
        lhs.blue * 255.0 - rhs.blue * 255.0)
  }

  /** A colour's gradient to itself is zero, and swapping the colours negates it. */
  lemma GradientAntisymmetric(lhs: Rgb, rhs: Rgb)
    ensures GradientRGB(lhs, lhs) == Rgb(0.0, 0.0, 0.0)
    ensures GradientRGB(rhs, lhs) == Rgb(-GradientRGB(lhs, rhs).red, -GradientRGB(lhs, rhs).green,
                                         -GradientRGB(lhs, rhs).blue)
  {
  }

  /** `reversed()`: every colour component `c` becomes `1 - c`, alpha 1. */
  function Reversed(c: Color): (r: Color)
    ensures r.red + c.red == 1.0 && r.green + c.green == 1.0 && r.blue + c.blue == 1.0 && r.alpha == 1.0
  {
    Color(1.0 - c.red, 1.0 - c.green, 1.0 - c.blue, 1.0)
  }

  /** Reversing twice gives the colour back, made opaque; components in `[0, 1]`
    * stay there. */
  lemma ReversedTwice(c: Color)
    ensures Reversed(Reversed(c)) == c.(alpha := 1.0)
    ensures 0.0 <= c.red <= 1.0 ==> 0.0 <= Reversed(c).red <= 1.0
  {
  }
}
