/**
 * The character scans `isExistDigit`/`Letter`/`Chinese`/`Emoji`/`SpeciaChar` and
 * the fixed-pattern validators `isValid*` of String+Ex.swift. The validators are
 * regular expressions matched against the whole string; each is written out
 * here by hand. `\d` is read as the ASCII digits 0-9.
 */
module StringValidate {
  import Chars
  import StringTrim
  import StringSearch

  /** The character tests behind the `isExist*` scans. */
  datatype CharTest = Digit | Letter | Chinese | Emoji

  predicate IsLetter(c: char) { 'a' <= c <= 'z' || 'A' <= c <= 'Z' }

  /** CJK Unified Ideographs U+4E00 through U+9FA5. */
  predicate IsChinese(c: char) { '\U{4E00}' <= c <= '\U{9FA5}' }

  /** The scalar ranges `isExistEmoji` lists. */
  predicate IsEmojiScalar(c: char)
  {
    '\U{1F600}' <= c <= '\U{1F64F}' || '\U{1F300}' <= c <= '\U{1F5FF}'
    || '\U{1F680}' <= c <= '\U{1F6FF}' || '\U{2600}' <= c <= '\U{26FF}'
    || '\U{2700}' <= c <= '\U{27BF}' || '\U{FE00}' <= c <= '\U{FE0F}'
  }

  predicate Passes(c: char, k: CharTest)
  {
    match k
    case Digit => Chars.IsDigit(c)
    case Letter => IsLetter(c)
    case Chinese => IsChinese(c)
    case Emoji => IsEmojiScalar(c)
  }

  /** `isExistDigit`, `isExistLetter`, `isExistChinese`, `isExistEmoji`: the scan
    * stops at the first passing character. */
  function IsExist(s: string, k: CharTest): (r: bool)
    ensures r <==> exists i :: 0 <= i < |s| && Passes(s[i], k)
  {
    if s == [] then false
    else if Passes(s[0], k) then true
    else
      assert forall i :: 1 <= i < |s| ==> s[i] == s[1..][i - 1];
      IsExist(s[1..], k)
  }

  /** The bracket set of `isExistSpeciaChar`. */
  predicate IsSpecialChar(c: char)
  {
    c in "`~!@#$^&*()=|{}':;,[].<>/?！￥…（）—【】‘；：”“。，、？"
  }

  /** `isExistSpeciaChar`, the pattern `.*[set].*`: `.` matches no line terminator,
    * so the whole string must be free of them. */
  predicate IsExistSpecialChar(s: string)
  {
    (forall i :: 0 <= i < |s| ==> !StringTrim.IsNewline(s[i]))
    && exists i :: 0 <= i < |s| && IsSpecialChar(s[i])
  }

  /** `^-?([0-9]+)$`. */
  predicate IsValidInt(s: string)
  {
    (|s| >= 1 && Chars.AllDigits(s)) || (|s| >= 2 && s[0] == '-' && Chars.AllDigits(s[1..]))
  }

  /** The text after an optional leading minus sign. */
  function Unsigned(s: string): (t: string)
    ensures s == t || s == "-" + t
  {
    if s != [] && s[0] == '-' then s[1..] else s
  }

  /** `^-?([0-9]+)(\.\d*)$`: digits, a point, and possibly more digits. */
  predicate IsValidFloat(s: string)
  {
    var t := Unsigned(s);
    var dot := StringSearch.Find(t, ".");
    dot.Some? && dot.value >= 1 && Chars.AllDigits(t[..dot.value]) && Chars.AllDigits(t[dot.value + 1..])
  }

  /** `^[A-Za-z]+$`. */
  predicate IsValidPureLetter(s: string)
  {
    |s| >= 1 && forall i :: 0 <= i < |s| ==> IsLetter(s[i])
  }

  /** `^[一-龥]+$`. */
  predicate IsValidPureChinese(s: string)
  {
    |s| >= 1 && forall i :: 0 <= i < |s| ==> IsChinese(s[i])
  }

  /** `^((1[3-9][0-9]))\d{8}$`: eleven digits starting 13 to 19. */
  predicate IsValidPhone(s: string)
  {
    |s| == 11 && s[0] == '1' && '3' <= s[1] <= '9' && Chars.AllDigits(s)
  }

  /** `^\d{6}$`, shared by `isValidVerifyCode` and `isValidPaypassword`. */
  predicate IsSixDigits(s: string)
  {
    |s| == 6 && Chars.AllDigits(s)
  }

  /** `^.{6,20}$`: 6 to 20 characters, none a line terminator. */
  predicate IsValidLoginPassword(s: string)
  {
    6 <= |s| <= 20 && forall i :: 0 <= i < |s| ==> !StringTrim.IsNewline(s[i])
  }

  /** The strings `isValidNonSerialPaypassword` refuses: six equal digits and the
    * ten six-digit runs up and down. */
  const SerialPasswords: set<string> :=
    {"000000", "111111", "222222", "333333", "444444", "555555", "666666", "777777",
     "888888", "999999", "012345", "123456", "234567", "345678", "456789", "987654",
     "876543", "765432", "654321", "543210"}

  /** `isValidNonSerialPaypassword`: the negated match of the serial pattern; it
    * checks neither the length nor that the characters are digits. */
  predicate IsValidNonSerialPaypassword(s: string)
  {
    s !in SerialPasswords
  }

  predicate IsUserNameChar(c: char) { IsLetter(c) || IsChinese(c) }

  /** `^[a-zA-Z一-龥]{1,20}$`. */
  predicate IsValidUserName(s: string)
  {
    1 <= |s| <= 20 && forall i :: 0 <= i < |s| ==> IsUserNameChar(s[i])
  }

  /** `^[a-zA-Z一-龥0-9]{1,20}$`. */
  predicate IsValidNickName(s: string)
  {
    1 <= |s| <= 20 && forall i :: 0 <= i < |s| ==> IsUserNameChar(s[i]) || Chars.IsDigit(s[i])
  }

  /** `^\-?([1-9]\d*|0)(\.\d{2})$`. */
  predicate IsValid2Decimal(s: string)
  {
    var t := Unsigned(s);
    |t| >= 4 && t[|t| - 3] == '.' && Chars.AllDigits(t[|t| - 2..])
    && var u := t[..|t| - 3];
    (u == "0" || ('1' <= u[0] <= '9' && Chars.AllDigits(u)))
  }

  /** `^(\d{16}|\d{19})$`. */
  predicate IsValidBankCard(s: string)
  {
    (|s| == 16 || |s| == 19) && Chars.AllDigits(s)
  }

  /** `^[0-9]{17}([0-9]|X)$`. */
  predicate IsValidIdCard(s: string)
  {
    |s| == 18 && Chars.AllDigits(s[..17]) && (Chars.IsDigit(s[17]) || s[17] == 'X')
  }

  /** `^[A-Za-z]{1}[A-Za-z_0-9]{5}$`. */
  predicate IsValidCarNum(s: string)
  {
    |s| == 6 && IsLetter(s[0])
    && forall i :: 1 <= i < 6 ==> IsLetter(s[i]) || s[i] == '_' || Chars.IsDigit(s[i])
  }

  /** `^[0-8]\d{5}(?!\d)$`. */
  predicate IsValidPostalcode(s: string)
  {
    |s| == 6 && '0' <= s[0] <= '8' && Chars.AllDigits(s)
  }

  lemma PhoneIsInt(s: string)
    requires IsValidPhone(s)
    ensures IsValidInt(s) && IsExist(s, Digit) && !IsExist(s, Letter)
  {
    assert Chars.IsDigit(s[0]);
    forall i | 0 <= i < |s| ensures !IsLetter(s[i]) {
      assert Chars.IsDigit(s[i]);
    }
  }

  lemma TwoDecimalIsFloat(s: string)
    requires IsValid2Decimal(s)
    ensures IsValidFloat(s)
  {
    var t := Unsigned(s);
    var k := |t| - 3;
    var u := t[..k];
    assert t[..k] == u && t[k..k + 1] == ".";
    forall m | 0 <= m < k ensures !StringSearch.OccursAt(t, ".", m) {
      assert t[m] == u[m];
      assert Chars.IsDigit(u[m]);
      assert t[m..m + 1][0] == t[m];
    }
    assert StringSearch.OccursAt(t, ".", k);
    assert t[k + 1..] == t[|t| - 2..];
  }

  lemma UserNameIsNickName(s: string)
    requires IsValidUserName(s)
    ensures IsValidNickName(s)
  {
  }

  lemma PureLetterHasNoDigit(s: string)
    requires IsValidPureLetter(s)
    ensures IsExist(s, Letter) && !IsExist(s, Digit) && !IsExist(s, Chinese)
  {
    assert IsLetter(s[0]);
  }

  /** A six-digit code that is one digit repeated is refused. */
  lemma RepeatedDigitIsSerial(d: char)
    requires Chars.IsDigit(d)
    ensures !IsValidNonSerialPaypassword([d, d, d, d, d, d])
  {
    var n := Chars.DigitValue(d);
    assert n == 0 || n == 1 || n == 2 || n == 3 || n == 4 || n == 5 || n == 6 || n == 7 || n == 8 || n == 9;
  }

  /** The non-serial check alone accepts strings of any length and content. */
  lemma NonSerialIgnoresLength()
    ensures IsValidNonSerialPaypassword("ab") && !IsSixDigits("ab")
  {
    assert |"ab"| == 2;
  }
}
