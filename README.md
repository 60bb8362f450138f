# KeenExtension core, modelled in Dafny

KeenExtension is a Swift library of `kc.`-prefixed extensions over Foundation
and UIKit. Most of it is thin glue over UIKit, but several parts are
self-contained logic:

- **String toolkit** (`String+Ex.swift`):
  - index-based slicing, insertion and replacement, with the library's inclusive conventions;
  - space and newline stripping;
  - hex parsing;
  - the `hh:mm:ss` time bar;
  - phone masking and decimal padding;
  - the Luhn bank-card check and the GB 11643-1999 resident-ID check;
  - the fixed-pattern `isValid*` validators.
- **Text-field formatter** (`UITextField+Ex.swift`): a state machine over the field's text and selection.
- **GIF frame normalisation** (`UIImage+Ex.swift`): the delay GCD, the frame replication, the delay fallback rule, the pixel offset, and the width/height swap.
- **Hex colour decoding** (`UIColor+Ex.swift`).
- **Image-type sniffing** (`Data+Ex.swift`).
- **Month, week and "time ago" arithmetic** (`Date+Ex.swift`).
- **Grid layout and common-superview search** (`SnapKit+Ex.swift`).
- **Navigation-stack trimming** (`UIViewController+Ex.swift`).
- **Frame accessors and tap throttling** (`UIView+Ex.swift`, `UIControl+Ex.swift`).
- **File-size unit selection** (`FileManager+Ex.swift`).
- **Small numeric and collection helpers** (`Basic+Ex.swift`, `Dictionary+Ex.swift`, `Array+Ex.swift`, `Collection+Ex.swift`).

There is one Dafny module per Swift file. A few shared modules sit beside them:

- `Wrappers`: `Option`.
- `Chars`: decimal and hex digits, ASCII case mapping.
- `Geometry`: `CGPoint`, `CGSize`, `CGRect`, `UIEdgeInsets`.
- `ViewTree`: the superview relation.
- `Throttle`: the tap throttle shared by views and controls.
- `Gregorian`: leap years and month lengths.
- `Arith`: small division facts.

Code that changes state step by step is modelled imperatively:

- **Classes** stand for objects whose fields the source updates:
  - `ViewFrame.View`, `ControlHit.Control`, `Navigation.NavigationController`, `TextFieldFormat.TextField`.
- **Loops** become methods with loop invariants, each proved against a specification function:
  - `TimebarToSeconds`, `IsValidBankCardLocal`, `ToIntHex`;
  - `PerPairFrame`, `PicFrames`, `AnimatedWithSource`;
  - `WeeksDetailNumber`, `ClosestCommonSuperview`, `CalculateFileSize`, `InsertString`;
  - and others.
- **Expressions** become functions and lemmas.

Conventions of the model:

- **Characters.**
  - A Dafny `char` is one Swift `Character`, taken to be one Unicode scalar.
  - Text is assumed to lie in the Basic Multilingual Plane, so `count`, `utf16.count` and `NSString` lengths agree.
  - `\d` in the patterns is read as the ASCII digits.
- **Numbers.**
  - `CGFloat` and `TimeInterval` are exact `real`s.
  - `Int` is an unbounded integer.
  - Where the source relies on a bound (`UInt64` for file sizes, `Int` for scanned hex values), the bound is a `requires`.
- **Traps.**
  - A Swift trap is an index out of range, a force-unwrapped `nil`, or a `%` by zero. The model makes each one a `requires` of the member, since the caller must avoid it.
  - The text-field model is the exception. There a trap depends on the field's state during an edit, e.g. a cursor beyond the text, so a trap is an explicit `Trapped` outcome.
- **Debug asserts.** The debug-only `assert`s of `substring` and `insert` are not modelled. The model follows the release build.
- **View and controller hierarchies.**
  - These are finite maps from an id to its parent (superview, presented controller).
  - Ids are numbered so that a parent's id is smaller than its child's, which makes every chain end.
- **UIKit primitives** are modelled by their documented effect on the state the extension reads:
  - `deleteBackward`, `insertText`, setting `text`, setting the selection;
  - `popViewController(animated:)`, `popToViewController`, `setViewControllers`;
  - `Scanner.scanHexInt64`;
  - `components(separatedBy:)`.
  - A `Calendar` weekday is an absolute day number modulo 7.
- **Dictionary values.** In the dictionary subscripts, `as? T` with `T` the dictionary's value type is taken as always succeeding. `nil` is the only value that removes a key.

## Model

| member | source | states |
|---|---|---|
| StringIndex.SetCharAt | KeenExtension/Classes/FoundationEx/String+Ex.swift:28-32 | the subscript setter changes exactly the character at `idx` and keeps the length |
| StringIndex.CharsAt | KeenExtension/Classes/FoundationEx/String+Ex.swift:37-43 | the `Int...` subscript returns, for each index in order, the character at it |
| StringIndex.SliceHalfOpen | KeenExtension/Classes/FoundationEx/String+Ex.swift:46-50 | `s[lo..<hi]` has `hi - lo` characters, the k-th being `s[lo + k]` |
| StringIndex.SliceClosed | KeenExtension/Classes/FoundationEx/String+Ex.swift:53-57 | `s[lo...hi]` has `hi - lo + 1` characters from `s[lo]` to `s[hi]`, and equals the half-open slice to `hi + 1` |
| StringIndex.SliceFrom | KeenExtension/Classes/FoundationEx/String+Ex.swift:60-64 | `s[lo...]` is the suffix after the first `lo` characters, the closed slice to the last index |
| StringIndex.SliceThrough | KeenExtension/Classes/FoundationEx/String+Ex.swift:67-70 | `s[...hi]` is a prefix of `hi + 1` characters, or the whole string when `hi` is past the end |
| StringIndex.SliceUpTo | KeenExtension/Classes/FoundationEx/String+Ex.swift:73-76 | `s[..<hi]` is a prefix of `hi` characters, or the whole string when `hi` is past the end |
| StringIndex.SubstringFrom | KeenExtension/Classes/FoundationEx/String+Ex.swift:695-701 | `substring(form: i)` is the suffix after the first `i` characters |
| StringIndex.SubstringTo | KeenExtension/Classes/FoundationEx/String+Ex.swift:706-712 | `substring(to: i)` keeps index `i` itself: `i + 1` characters when `i < count`, the whole string when `i > count` (`i == count` traps) |
| StringIndex.ClampLow | KeenExtension/Classes/FoundationEx/String+Ex.swift:718 | `max(0, lo)`: at or above both 0 and `lo`, and equal to one of them |
| StringIndex.SubstringWith | KeenExtension/Classes/FoundationEx/String+Ex.swift:717-724 | `substring(with:)` returns the characters from the clamped lower bound through the upper bound, inclusive |
| StringIndex.SubstringAt | KeenExtension/Classes/FoundationEx/String+Ex.swift:731-741 | the loop of `substring(at:length:)` returns exactly `length` characters starting at `location`, and "" for length 0 at any location |
| StringIndex.Insert | KeenExtension/Classes/FoundationEx/String+Ex.swift:683-690 | `insert(a, at: k)` is `s[..k] + a + s[k..]` |
| StringIndex.ReplaceRange | KeenExtension/Classes/FoundationEx/String+Ex.swift:780-790 | `replace(with:_:)` splices `a` over the clamped closed range, and the length changes by the difference in lengths |
| StringIndex.ReplaceBySameIsIdentity | KeenExtension/Classes/FoundationEx/String+Ex.swift:780-790 | replacing a closed range by its own `substring(with:)` gives the string back |
| StringIndex.SubstringToFromSplit | KeenExtension/Classes/FoundationEx/String+Ex.swift:695-712 | `substring(to: i) + substring(form: i + 1)` is the whole string |
| StringTrim.RemoveAll | KeenExtension/Classes/FoundationEx/String+Ex.swift:771-773 | `replace(of: c, with: "")` leaves no `c` and never grows |
| StringTrim.RemoveAllAppend | KeenExtension/Classes/FoundationEx/String+Ex.swift:771-773 | removing a character distributes over concatenation |
| StringTrim.RemoveAllAbsent | KeenExtension/Classes/FoundationEx/String+Ex.swift:771-773 | removing an absent character changes nothing |
| StringTrim.RemoveAllKeepsOthers | KeenExtension/Classes/FoundationEx/String+Ex.swift:771-773 | every other character keeps its number of occurrences |
| StringTrim.RemoveAllKeepsAbsence | KeenExtension/Classes/FoundationEx/String+Ex.swift:771-773 | removing a character introduces no character that was absent |
| StringTrim.DropLeading | KeenExtension/Classes/FoundationEx/String+Ex.swift:806-823 | the leading part of `trimmingCharacters(in:)`: what is dropped is all in the class, and the result starts outside it |
| StringTrim.DropTrailing | KeenExtension/Classes/FoundationEx/String+Ex.swift:806-823 | the trailing part: what is dropped is all in the class, and the result ends outside it |
| StringTrim.TrimEnds | KeenExtension/Classes/FoundationEx/String+Ex.swift:806-823 | `trimmingCharacters(in:)` neither starts nor ends with a class character |
| StringTrim.TrimEndsIsSlice | KeenExtension/Classes/FoundationEx/String+Ex.swift:806-823 | the trimmed string is a slice `s[i..j]`, and everything outside it is in the class |
| StringTrim.TrimEndsFull | KeenExtension/Classes/FoundationEx/String+Ex.swift:806-823 | a trim that keeps the length keeps the string |
| StringTrim.DigitIsNotSpace | KeenExtension/Classes/FoundationEx/String+Ex.swift:806-823 | a decimal digit is in none of the three trimming classes |
| StringTrim.DropLeadingNoop | KeenExtension/Classes/FoundationEx/String+Ex.swift:806-823 | dropping the leading class characters of a string that starts outside the class is the identity |
| StringTrim.TrimEndsIdempotent | KeenExtension/Classes/FoundationEx/String+Ex.swift:806-823 | trimming the ends twice is trimming once |
| StringTrim.TrimLines | KeenExtension/Classes/FoundationEx/String+Ex.swift:806-812 | `trimLines(true)` leaves no `"\n"` |
| StringTrim.TrimSpace | KeenExtension/Classes/FoundationEx/String+Ex.swift:817-823 | `trimSpace(true)` leaves no `" "` |
| StringTrim.TrimAllRemoves | KeenExtension/Classes/FoundationEx/String+Ex.swift:828-830 | `trim()` leaves neither `' '` nor `'\n'` |
| StringTrim.TrimAllKeepsOthers | KeenExtension/Classes/FoundationEx/String+Ex.swift:828-830 | `trim()` keeps the number of occurrences of every other character |
| StringTrim.TrimAllKeepsOrder | KeenExtension/Classes/FoundationEx/String+Ex.swift:828-830 | `trim()` distributes over concatenation, so the kept characters stay in order |
| StringTrim.TrimAllSingle | KeenExtension/Classes/FoundationEx/String+Ex.swift:828-830 | on one character, `trim()` drops it exactly when it is a space or a newline |
| StringTrim.TrimAllIdempotent | KeenExtension/Classes/FoundationEx/String+Ex.swift:828-830 | `trim()` twice is `trim()` once |
| StringTrim.Trim | KeenExtension/Classes/FoundationEx/String+Ex.swift:828-830 | `trim(isAll)`: `trimLines` first, then `trimSpace` |
| StringNumbers.Utf8 | KeenExtension/Classes/FoundationEx/String+Ex.swift:188-200 | the UTF-8 encoding of a scalar is 1 to 4 bytes, and is the scalar itself exactly for ASCII |
| StringNumbers.ToIntHex | KeenExtension/Classes/FoundationEx/String+Ex.swift:188-200 | the byte loop of `toInt(hexString:)` computes the accumulation over the uppercased UTF-8 bytes; for a string of hex digits this is its base-16 value |
| StringNumbers.Utf8OfAscii | KeenExtension/Classes/FoundationEx/String+Ex.swift:188-200 | ASCII text encodes to its own code points |
| StringNumbers.HexAccumulateOfUpperDigits | KeenExtension/Classes/FoundationEx/String+Ex.swift:188-200 | the accumulation over the uppercased digits of a hex string is its base-16 value |
| StringNumbers.HexParserIsStandard | KeenExtension/Classes/FoundationEx/String+Ex.swift:188-200 | `toInt(hexString:)` is the standard base-16 value of any string of 0-9, a-f, A-F |
| StringNumbers.LeadingDigits | KeenExtension/Classes/FoundationEx/String+Ex.swift:950-970 | the digit prefix `Int(_:)`-style reading consumes is the longest prefix of digits |
| StringNumbers.ReadSignedOfDigit | KeenExtension/Classes/FoundationEx/String+Ex.swift:950-970 | a single digit reads as its value |
| StringNumbers.ReadSignedOfNonDigit | KeenExtension/Classes/FoundationEx/String+Ex.swift:950-970 | an empty string or a single non-digit reads as 0 |
| StringNumbers.IntegerValueOfChar | KeenExtension/Classes/FoundationEx/String+Ex.swift:950-970 | `integerValue` of a one-character string is its digit value, or 0 |
| StringNumbers.IntegerValue | KeenExtension/Classes/FoundationEx/String+Ex.swift:87 | `integerValue`: leading white space skipped, an optional sign, then the digits that follow; 0 without digits |
| StringNumbers.AllDigitsLeading | KeenExtension/Classes/FoundationEx/String+Ex.swift:950-970 | a string of digits is its own digit prefix |
| StringNumbers.IntegerValueOfDecimal | KeenExtension/Classes/FoundationEx/String+Ex.swift:975-1003 | `integerValue` reads back the decimal rendering of any natural number |
| StringNumbers.ParseInt | KeenExtension/Classes/FoundationEx/String+Ex.swift:950-970 | `Int(_:)` succeeds exactly on a non-empty digit string with an optional sign |
| StringNumbers.ParseIntOfDecimal | KeenExtension/Classes/FoundationEx/String+Ex.swift:950-970 | `Int(_:)` reads back the decimal rendering of any natural number |
| StringNumbers.DropZeros | KeenExtension/Classes/FoundationEx/String+Ex.swift:97-102 | the digits left after `NSString.boolValue` skips leading zeros are a suffix of them |
| StringNumbers.ToBoolIff | KeenExtension/Classes/FoundationEx/String+Ex.swift:97-102 | `toBool` holds exactly when the lowercased text is `"true"` |
| StringNumbers.ToBool | KeenExtension/Classes/FoundationEx/String+Ex.swift:97-102 | `boolValue` of text that lowercases to "true", false otherwise |
| StringNumbers.ToPercentString | KeenExtension/Classes/FoundationEx/String+Ex.swift:141-149 | a `%` is appended only to text that starts with `%`; other text is returned as it is |
| StringNumbers.Reverse | KeenExtension/Classes/FoundationEx/String+Ex.swift:129 | `reverse` puts the k-th character at position `count - 1 - k` |
| StringNumbers.ReverseInvolution | KeenExtension/Classes/FoundationEx/String+Ex.swift:129 | reversing twice gives the string back |
| StringSearch.FindFrom | KeenExtension/Classes/FoundationEx/String+Ex.swift:263-272 | the first occurrence at or after `i`, with none before it, or none at all |
| StringSearch.Find | KeenExtension/Classes/FoundationEx/String+Ex.swift:263-272 | `range(of:)`: the first occurrence of a non-empty needle, or none |
| StringSearch.FindLastUpTo | KeenExtension/Classes/FoundationEx/String+Ex.swift:263-272 | the last occurrence at or before `i`, with none after it, or none at all |
| StringSearch.FindLast | KeenExtension/Classes/FoundationEx/String+Ex.swift:263-272 | `range(of:options: .backwards)`: the last occurrence of a non-empty needle, or none |
| StringSearch.IndexOf | KeenExtension/Classes/FoundationEx/String+Ex.swift:263-272 | `indexOf` is the first (or, reversed, the last) occurrence, and -1 exactly when the needle is empty or absent |
| StringSearch.Split | KeenExtension/Classes/FoundationEx/String+Ex.swift:674-676 | `components(separatedBy:)` always returns at least one piece |
| StringSearch.SplitJoin | KeenExtension/Classes/FoundationEx/String+Ex.swift:674-676 | joining the pieces with the separator gives the string back |
| StringSearch.SplitFirst | KeenExtension/Classes/FoundationEx/String+Ex.swift:674-676 | at the first occurrence, the first piece is split off and the rest is split again |
| StringSearch.PrefixBeforeFirstFree | KeenExtension/Classes/FoundationEx/String+Ex.swift:674-676 | the text before the first occurrence holds no occurrence |
| StringSearch.SplitPiecesFree | KeenExtension/Classes/FoundationEx/String+Ex.swift:674-676 | no piece contains the separator |
| StringSearch.SeparatorAfterPiece | KeenExtension/Classes/FoundationEx/String+Ex.swift:478-498 | in a join, the separator occurs right after every piece but the last |
| StringSearch.SplitOnAbsentChar | KeenExtension/Classes/FoundationEx/String+Ex.swift:674-676 | splitting on an absent character gives the one piece |
| StringSearch.CharOccurs | KeenExtension/Classes/FoundationEx/String+Ex.swift:674-676 | a character at position `m` is an occurrence of the one-character needle there |
| StringSearch.SplitOnPresentChar | KeenExtension/Classes/FoundationEx/String+Ex.swift:674-676 | splitting on a present character cuts at its first position |
| StringSearch.SplitAfterCharFree | KeenExtension/Classes/FoundationEx/String+Ex.swift:674-676 | a prefix free of the character becomes the first piece |
| StringSearch.SplitThree | KeenExtension/Classes/FoundationEx/String+Ex.swift:674-676 | three fields free of a character, joined by it, split back into exactly those three fields |
| StringSearch.ToNSRanges | KeenExtension/Classes/FoundationEx/String+Ex.swift:478-498 | corrected `toNSRanges`: the ranges are exactly `AllRanges`, string after string, each an occurrence of one of the searched strings |
| StringSearch.SeparatorRanges | KeenExtension/Classes/FoundationEx/String+Ex.swift:484-494 | `n` ranges, the k-th at the separator after piece k, as long as the separator |
| StringSearch.RangesOf | KeenExtension/Classes/FoundationEx/String+Ex.swift:481-495 | for one string: the ranges of the separators `split` cuts at, when the case-insensitive test finds the string; none otherwise |
| StringSearch.AllRanges | KeenExtension/Classes/FoundationEx/String+Ex.swift:478-498 | the ranges of every string of the array, in array order |
| StringSearch.RangesOfOccur | KeenExtension/Classes/FoundationEx/String+Ex.swift:481-495 | one range per separator of `split` (none when the test fails), each an occurrence of the string with its length |
| StringSearch.RangesOfLeftmost | KeenExtension/Classes/FoundationEx/String+Ex.swift:481-495 | the ranges are the successive leftmost occurrences: none starts before the first, between two, or after the last |
| StringSearch.GapFree | KeenExtension/Classes/FoundationEx/String+Ex.swift:481-495 | the text from each search start up to its range, and after the last range, holds no occurrence |
| StringSearch.PiecesHoldNoOccurrence | KeenExtension/Classes/FoundationEx/String+Ex.swift:674-676 | no occurrence of the separator starts inside a piece of `split` |
| StringSearch.SeveralPiecesNeedSeparator | KeenExtension/Classes/FoundationEx/String+Ex.swift:478-498 | more than one piece means a non-empty separator |
| StringSearch.OneOfMore | KeenExtension/Classes/FoundationEx/String+Ex.swift:478-498 | a range of one of the first `n` strings is a range of one of the first `n + 1` |
| StringSearch.PieceOccurrence | KeenExtension/Classes/FoundationEx/String+Ex.swift:478-498 | the running offset after a piece is an occurrence of that search string |
| StringSearch.PieceStartStep | KeenExtension/Classes/FoundationEx/String+Ex.swift:478-498 | each piece starts one piece and one separator after the previous one |
| StringSearch.AsWrittenLocations | KeenExtension/Classes/FoundationEx/String+Ex.swift:484-494 | the locations the source computes: one per separator |
| StringSearch.ToNSRangesAsWrittenMisplaces | KeenExtension/Classes/FoundationEx/String+Ex.swift:484-494 | on "aXbbX" with ["X"], the source reports 5 as the second location, where no "X" occurs; it is at 4 |
| StringSearch.SplitExample | KeenExtension/Classes/FoundationEx/String+Ex.swift:674-676 | "aXbbX" splits on "X" into "a", "bb" and "" |
| StringTimebar.ReplaceChar | KeenExtension/Classes/FoundationEx/String+Ex.swift:950-970 | replacing the full-width colon keeps the length and changes only that character |
| StringTimebar.ReplaceCharRemoves | KeenExtension/Classes/FoundationEx/String+Ex.swift:950-970 | after the replacement the full-width colon is gone; without one, nothing changes |
| StringTimebar.Pad2 | KeenExtension/Classes/FoundationEx/String+Ex.swift:975-1003 | `%02d`: digits that read back as the number, exactly two below 100, `0` then the digit below 10 |
| StringTimebar.Fields | KeenExtension/Classes/FoundationEx/String+Ex.swift:975-1003 | hours, minutes below 60 and seconds below 60 that add up to the total |
| StringTimebar.SecondsToTimebar | KeenExtension/Classes/FoundationEx/String+Ex.swift:975-1003 | a non-positive count gives "00：00" in every style; otherwise the bar holds only digits and colons |
| StringTimebar.HourStyleFields | KeenExtension/Classes/FoundationEx/String+Ex.swift:975-1003 | `.hour` writes `hh:mm:ss` with `mm < 60`, `ss < 60` and `hh·3600 + mm·60 + ss = n` |
| StringTimebar.HourStyleLength | KeenExtension/Classes/FoundationEx/String+Ex.swift:975-1003 | below 100 hours the `.hour` bar is exactly the eight characters of `hh:mm:ss` |
| StringTimebar.NormalStyleDropsZeroFields | KeenExtension/Classes/FoundationEx/String+Ex.swift:975-1003 | `.normal` is the hour style from an hour up, the minute style from a minute up, and the second style below |
| StringTimebar.Contribution | KeenExtension/Classes/FoundationEx/String+Ex.swift:950-970 | only a field that is present and matches the integer pattern contributes |
| StringTimebar.TimebarToSeconds | KeenExtension/Classes/FoundationEx/String+Ex.swift:950-970 | the loop of `timebarToSeconds` returns the decimal rendering of the bar's value |
| StringTimebar.PaddedContribution | KeenExtension/Classes/FoundationEx/String+Ex.swift:950-970 | a zero-padded field contributes its value times its weight |
| StringTimebar.ZeroBarIsZero | KeenExtension/Classes/FoundationEx/String+Ex.swift:950-1003 | the "00：00" bar reads as 0 |
| StringTimebar.TimebarRoundTrip | KeenExtension/Classes/FoundationEx/String+Ex.swift:950-1003 | `timebarToSeconds(secondsToTimebar(n, .hour)) == n` for every `n >= 0` |
| StringFormat.HidePhone | KeenExtension/Classes/FoundationEx/String+Ex.swift:618-625 | with 11 or more characters after stripping, characters 3 to 6 of the stripped text are replaced; otherwise the unstripped input comes back |
| StringFormat.HidePhoneMasksMiddle | KeenExtension/Classes/FoundationEx/String+Ex.swift:618-625 | the masked phone keeps the stripped length, the first three and the last characters, and has `****` in the middle |
| StringFormat.Zeros | KeenExtension/Classes/FoundationEx/String+Ex.swift:642-666 | the padding is `k` zeros, none for `k <= 0` |
| StringFormat.AddDecimalZeroAsWrittenKeepsTwo | KeenExtension/Classes/FoundationEx/String+Ex.swift:645-666 | as written, a string with two points keeps only its first two pieces and pads the second |
| StringFormat.AddDecimalZeroAsWritten | KeenExtension/Classes/FoundationEx/String+Ex.swift:642-666 | `addDecimalZero` with its always-true guard `count > 0 \|\| count <= 2` |
| StringFormat.AddDecimalZeroAsWrittenDropsPieces | KeenExtension/Classes/FoundationEx/String+Ex.swift:645-666 | as written, `"1.2.3".addDecimalZero(2)` is `"1.20"` |
| StringFormat.PointPieces | KeenExtension/Classes/FoundationEx/String+Ex.swift:642-666 | no point gives one piece; one point gives two; several points give three or more |
| StringFormat.OnePoint | KeenExtension/Classes/FoundationEx/String+Ex.swift:642-666 | with exactly one point, the pieces are the text before and after it |
| StringFormat.ManyPoints | KeenExtension/Classes/FoundationEx/String+Ex.swift:642-666 | with a second point after the first, there are at least three pieces |
| StringFormat.OnlyPointExcludesOthers | KeenExtension/Classes/FoundationEx/String+Ex.swift:642-666 | a sole point is unique and rules out several points |
| StringFormat.SeveralPointsExcludeOnly | KeenExtension/Classes/FoundationEx/String+Ex.swift:642-666 | several points rule out a sole point |
| StringFormat.AddDecimalZero | KeenExtension/Classes/FoundationEx/String+Ex.swift:642-666 | corrected `addDecimalZero`: appends a point and `decimal` zeros to an integer, pads a one-point decimal up to `decimal` places, and leaves other text as it is |
| StringFormat.Vertical | KeenExtension/Classes/FoundationEx/String+Ex.swift:152-158 | the characters in order, with a newline between each two |
| StringFormat.ToVerticalText | KeenExtension/Classes/FoundationEx/String+Ex.swift:152-158 | the insertion loop of `toVerticalText` puts character k at `2k` and a newline at each odd position |
| StringFormat.VerticalStep | KeenExtension/Classes/FoundationEx/String+Ex.swift:152-158 | one insertion of the loop extends the vertical prefix by one character |
| StringFormat.ConcatSnoc | KeenExtension/Classes/FoundationEx/String+Ex.swift:161-170 | concatenation distributes over appending a piece |
| StringFormat.ToArrs | KeenExtension/Classes/FoundationEx/String+Ex.swift:161-170 | `toArrs` yields each character as a string, or `[""]` for empty text, and the pieces concatenate back to the text |
| StringValidate.IsExist | KeenExtension/Classes/FoundationEx/String+Ex.swift:1090-1135 | `isExistDigit`/`Letter`/`Chinese`/`Emoji` hold exactly when some character passes the test |
| StringValidate.IsExistSpecialChar | KeenExtension/Classes/FoundationEx/String+Ex.swift:1138-1140 | some character is in the bracket set, and none is a line terminator |
| StringValidate.IsValidInt | KeenExtension/Classes/FoundationEx/String+Ex.swift:1143-1145 | one or more digits, after an optional minus |
| StringValidate.IsValidFloat | KeenExtension/Classes/FoundationEx/String+Ex.swift:1148-1150 | after an optional minus: one or more digits, a point, then any number of digits |
| StringValidate.IsValidPureLetter | KeenExtension/Classes/FoundationEx/String+Ex.swift:1153-1155 | one or more ASCII letters |
| StringValidate.IsValidPureChinese | KeenExtension/Classes/FoundationEx/String+Ex.swift:1158-1160 | one or more characters from U+4E00 to U+9FA5 |
| StringValidate.IsValidPhone | KeenExtension/Classes/FoundationEx/String+Ex.swift:1163-1165 | eleven digits, starting with 1 and then 3 to 9 |
| StringValidate.IsSixDigits | KeenExtension/Classes/FoundationEx/String+Ex.swift:1168-1180 | exactly six digits, for `isValidVerifyCode` and `isValidPaypassword` |
| StringValidate.IsValidLoginPassword | KeenExtension/Classes/FoundationEx/String+Ex.swift:1173-1175 | 6 to 20 characters, none a line terminator |
| StringValidate.IsValidNonSerialPaypassword | KeenExtension/Classes/FoundationEx/String+Ex.swift:1183-1189 | not one of the twenty serial six-digit passwords |
| StringValidate.IsValidUserName | KeenExtension/Classes/FoundationEx/String+Ex.swift:1192-1194 | 1 to 20 letters or Chinese characters |
| StringValidate.IsValidNickName | KeenExtension/Classes/FoundationEx/String+Ex.swift:1197-1199 | 1 to 20 letters, Chinese characters or digits |
| StringValidate.IsValid2Decimal | KeenExtension/Classes/FoundationEx/String+Ex.swift:1202-1204 | after an optional minus: `0` or digits not starting with 0, a point, then exactly two digits |
| StringValidate.IsValidBankCard | KeenExtension/Classes/FoundationEx/String+Ex.swift:1207-1209 | 16 or 19 digits |
| StringValidate.IsValidIdCard | KeenExtension/Classes/FoundationEx/String+Ex.swift:1248-1250 | 17 digits, then a digit or `X` |
| StringValidate.IsValidCarNum | KeenExtension/Classes/FoundationEx/String+Ex.swift:1306-1308 | six characters: a letter, then letters, digits or `_` |
| StringValidate.IsValidPostalcode | KeenExtension/Classes/FoundationEx/String+Ex.swift:1311-1313 | six digits, the first 0 to 8 |
| StringValidate.Unsigned | KeenExtension/Classes/FoundationEx/String+Ex.swift:1143-1150 | the text after an optional leading minus sign |
| StringValidate.PhoneIsInt | KeenExtension/Classes/FoundationEx/String+Ex.swift:1143-1165 | a valid phone number is a valid integer with a digit and no letter |
| StringValidate.TwoDecimalIsFloat | KeenExtension/Classes/FoundationEx/String+Ex.swift:1202-1204 | a valid two-decimal amount is a valid float |
| StringValidate.UserNameIsNickName | KeenExtension/Classes/FoundationEx/String+Ex.swift:1192-1199 | every valid user name is a valid nickname |
| StringValidate.PureLetterHasNoDigit | KeenExtension/Classes/FoundationEx/String+Ex.swift:1153-1155 | pure-letter text has a letter, no digit and no Chinese character |
| StringValidate.RepeatedDigitIsSerial | KeenExtension/Classes/FoundationEx/String+Ex.swift:1183-1189 | six equal digits are refused by `isValidNonSerialPaypassword` |
| StringValidate.NonSerialIgnoresLength | KeenExtension/Classes/FoundationEx/String+Ex.swift:1178-1189 | `isValidNonSerialPaypassword` accepts "ab", which is not a six-digit password: it checks only the serial list |
| StringChecksum.DigitOrZero | KeenExtension/Classes/FoundationEx/String+Ex.swift:1212-1245 | a digit counts as its value; any other character counts as 0 |
| StringChecksum.LuhnTerm | KeenExtension/Classes/FoundationEx/String+Ex.swift:1212-1245 | each Luhn term, doubled and reduced by 9 or not, is below 10 |
| StringChecksum.LuhnBetweenSnoc | KeenExtension/Classes/FoundationEx/String+Ex.swift:1212-1245 | the partial Luhn sum grows by one term per position |
| StringChecksum.ReadDigit | KeenExtension/Classes/FoundationEx/String+Ex.swift:1222-1230 | the digit read of the stride loop is the digit value, or 0 |
| StringChecksum.SourceTerm | KeenExtension/Classes/FoundationEx/String+Ex.swift:1222-1240 | the loop's doubling at odd distance from the last digit is the Luhn term |
| StringChecksum.IsValidBankCardLocal | KeenExtension/Classes/FoundationEx/String+Ex.swift:1212-1245 | true exactly for 16 to 19 characters whose Luhn sum (ISO/IEC 7812-1, Annex B) is divisible by 10, non-digits counting 0 |
| StringChecksum.LuhnSum | KeenExtension/Classes/FoundationEx/String+Ex.swift:1212-1245 | the Luhn sum over the whole string |
| StringChecksum.SumsBeforeLast | KeenExtension/Classes/FoundationEx/String+Ex.swift:1218-1240 | the stride loop's `evenSum + oddSum` is the Luhn sum of all but the last character |
| StringChecksum.LuhnSumOfLast | KeenExtension/Classes/FoundationEx/String+Ex.swift:1241-1245 | the last digit is added undoubled |
| StringChecksum.LuhnBetweenSplit | KeenExtension/Classes/FoundationEx/String+Ex.swift:1212-1245 | partial Luhn sums add up over adjacent ranges |
| StringChecksum.LuhnBetweenSame | KeenExtension/Classes/FoundationEx/String+Ex.swift:1212-1245 | the partial sum depends only on the characters in its range |
| StringChecksum.LuhnDetectsSingleDigitError | KeenExtension/Classes/FoundationEx/String+Ex.swift:1212-1245 | changing any one digit changes the Luhn sum modulo 10 |
| StringChecksum.LuhnTermInjective | KeenExtension/Classes/FoundationEx/String+Ex.swift:1212-1245 | two different digits give different terms at the same position |
| StringChecksum.DayUpToIsRange | KeenExtension/Classes/FoundationEx/String+Ex.swift:1256-1265 | the day alternatives of the pattern match exactly 1 to the month's last day |
| StringChecksum.MonthDayIsCommonYear | KeenExtension/Classes/FoundationEx/String+Ex.swift:1256-1265 | the month-and-day part matches exactly the dates of a common year |
| StringChecksum.LeapTailIsMultipleOfFour | KeenExtension/Classes/FoundationEx/String+Ex.swift:1256-1265 | the two-digit year alternatives for 29 February are the non-zero multiples of four |
| StringChecksum.LeapTailDigits | KeenExtension/Classes/FoundationEx/String+Ex.swift:1256-1265 | the leap-tail test on characters is the test on their digit values |
| StringChecksum.LeapTailValues | KeenExtension/Classes/FoundationEx/String+Ex.swift:1256-1265 | the leap-tail value test is a non-zero multiple of four |
| StringChecksum.LeapYearsOfTheTwoCenturies | KeenExtension/Classes/FoundationEx/String+Ex.swift:1256-1265 | in 1900-2099 a year is a leap year exactly for a non-zero multiple of four, or 2000 |
| StringChecksum.BirthDateIsGregorian | KeenExtension/Classes/FoundationEx/String+Ex.swift:1256-1265 | the eight birth-date digits match exactly a Gregorian date of 1900-2099, 29 February only in leap years |
| StringChecksum.CenturyDigits | KeenExtension/Classes/FoundationEx/String+Ex.swift:1256-1265 | the century is 19 or 20 |
| StringChecksum.LeapDayDigits | KeenExtension/Classes/FoundationEx/String+Ex.swift:1256-1265 | "0229" and "20000229" read as the dates they spell |
| StringChecksum.IdDigitIsToInt | KeenExtension/Classes/FoundationEx/String+Ex.swift:1270-1279 | each digit the weighted sum reads is `integerValue` of that one character |
| StringChecksum.WeightsArePowersOfTwo | KeenExtension/Classes/FoundationEx/String+Ex.swift:1270-1279 | the 17 weights 7, 9, 10, ... are `2^(17-p) mod 11`, the weights of GB 11643-1999 |
| StringChecksum.WeightsLow | KeenExtension/Classes/FoundationEx/String+Ex.swift:1270-1279 | the first nine weights are the powers of two modulo 11 |
| StringChecksum.WeightsHigh | KeenExtension/Classes/FoundationEx/String+Ex.swift:1270-1279 | the last eight weights are the powers of two modulo 11 |
| StringChecksum.GroupedSumIsWeighted | KeenExtension/Classes/FoundationEx/String+Ex.swift:1270-1279 | the source's grouped sum of `(dᵢ + dᵢ₊₁₀)·w` is the plain weighted sum over positions 0 to 16 |
| StringChecksum.WeightedSumLow | KeenExtension/Classes/FoundationEx/String+Ex.swift:1270-1279 | the weighted sum over positions 0 to 8, written out |
| StringChecksum.WeightedSumHigh | KeenExtension/Classes/FoundationEx/String+Ex.swift:1270-1279 | the weighted sum over positions 9 to 16, written out |
| StringChecksum.CheckTableIsMod11_2 | KeenExtension/Classes/FoundationEx/String+Ex.swift:1282-1286 | `"10X98765432"[r]` is the ISO 7064 MOD 11-2 check character: the remainder plus its value is 1 modulo 11 |
| StringChecksum.TrimmedIsWhole | KeenExtension/Classes/FoundationEx/String+Ex.swift:1253-1255 | an 18-character string that trims to 18 characters is untrimmed |
| StringChecksum.IdCardLocalUntrimmed | KeenExtension/Classes/FoundationEx/String+Ex.swift:1253-1286 | an accepted ID needs no trimming, and itself passes both the pattern and its check-character test |
| StringChecksum.IdCardAccepted | KeenExtension/Classes/FoundationEx/String+Ex.swift:1256-1286 | the pattern of area, birth date and sequence, and the matching check character |
| StringChecksum.IsValidIdCardLocal | KeenExtension/Classes/FoundationEx/String+Ex.swift:1253-1286 | 18 characters whose trimmed text is accepted |
| StringChecksum.AcceptedParts | KeenExtension/Classes/FoundationEx/String+Ex.swift:1256-1286 | an accepted ID has 18 characters: 17 digits, then a digit or `X`/`x` that matches the table of check characters |
| StringChecksum.AreaDigits | KeenExtension/Classes/FoundationEx/String+Ex.swift:1256-1265 | the area prefix is two digits |
| StringChecksum.BirthDateDigits | KeenExtension/Classes/FoundationEx/String+Ex.swift:1256-1265 | a matching birth date is eight digits |
| StringChecksum.FirstSeventeenDigits | KeenExtension/Classes/FoundationEx/String+Ex.swift:1256-1265 | area, birth date and sequence make 17 digits |
| StringChecksum.CheckCompletes | KeenExtension/Classes/FoundationEx/String+Ex.swift:1282-1286 | a last character equal to the table entry completes the sum to 1 modulo 11 |
| StringChecksum.CheckCharIsMod11_2 | KeenExtension/Classes/FoundationEx/String+Ex.swift:1270-1286 | the matching check character satisfies ISO 7064 MOD 11-2 over all 18 positions |
| StringChecksum.IdCardLocalIsMod11_2 | KeenExtension/Classes/FoundationEx/String+Ex.swift:1253-1286 | `isValidIdCardLocal` implies 18 characters satisfying ISO 7064 MOD 11-2 |
| StringChecksum.CheckValueOfUpper | KeenExtension/Classes/FoundationEx/String+Ex.swift:1282-1286 | `x` and `X` have the same check value |
| StringChecksum.IdCardLocalMatchesPattern | KeenExtension/Classes/FoundationEx/String+Ex.swift:1248-1286 | an ID accepted by `isValidIdCardLocal`, not ending in a lowercase `x`, also passes `isValidIdCard` |
| TextFieldFormat.Layout | KeenExtension/Classes/Extensions/UIKitEx/UITextField+Ex.swift:362-385 | mobile phone: separators [3, 8], limit 11; identity card: [6, 15], 18; bank card: [4, 9, 14, 19], 19 |
| TextFieldFormat.CodeUnitAccepts | KeenExtension/Classes/Extensions/UIKitEx/UITextField+Ex.swift:386-395 | accepted exactly when the location is at most 5 and the replacement is empty or holds a digit |
| TextFieldFormat.GroupStep | KeenExtension/Classes/Extensions/UIKitEx/UITextField+Ex.swift:564-574 | one step inserts a space at a location below the current length, and otherwise changes nothing |
| TextFieldFormat.InsertString | KeenExtension/Classes/Extensions/UIKitEx/UITextField+Ex.swift:564-574 | the loop of `insertString` returns `nil` for empty input, and otherwise the spaces-stripped text with a space at each listed location |
| TextFieldFormat.InsertSpaces | KeenExtension/Classes/Extensions/UIKitEx/UITextField+Ex.swift:564-574 | `nil` for empty text; otherwise the text without spaces, grouped |
| TextFieldFormat.RemoveSpaceFromSpace | KeenExtension/Classes/Extensions/UIKitEx/UITextField+Ex.swift:564-574 | stripping a lone space leaves nothing |
| TextFieldFormat.RemoveInsertedSpace | KeenExtension/Classes/Extensions/UIKitEx/UITextField+Ex.swift:564-574 | an inserted space vanishes when spaces are stripped |
| TextFieldFormat.GroupedStripsBack | KeenExtension/Classes/Extensions/UIKitEx/UITextField+Ex.swift:566-573 | stripping spaces from the grouped text gives the stripped input |
| TextFieldFormat.InsertSpacesKeepsDigits | KeenExtension/Classes/Extensions/UIKitEx/UITextField+Ex.swift:566-573 | removing spaces from the result of `insertString` gives the input without spaces |
| TextFieldFormat.InsertSpacesIdempotent | KeenExtension/Classes/Extensions/UIKitEx/UITextField+Ex.swift:566-573 | `insertString` of its own result changes nothing |
| TextFieldFormat.MobilePhoneGrouping | KeenExtension/Classes/Extensions/UIKitEx/UITextField+Ex.swift:564-574 | eleven characters group as 3 + 4 + 4, e.g. "13812345678" becomes "138 1234 5678" |
| TextFieldFormat.Backspace | KeenExtension/Classes/Extensions/UIKitEx/UITextField+Ex.swift:431-445 | `deleteBackward` leaves the cursor inside the new text |
| TextFieldFormat.TextField.constructor | KeenExtension/Classes/Extensions/UIKitEx/UITextField+Ex.swift:413-419 | a field holding `t` with the cursor at its end |
| TextFieldFormat.TextField.DeleteBackward | KeenExtension/Classes/Extensions/UIKitEx/UITextField+Ex.swift:431-445 | deletes the selection, or the character before the cursor, and collapses the selection |
| TextFieldFormat.TextField.InsertText | KeenExtension/Classes/Extensions/UIKitEx/UITextField+Ex.swift:461 | replaces the selection by the text and puts the cursor after it |
| TextFieldFormat.TextField.SetText | KeenExtension/Classes/Extensions/UIKitEx/UITextField+Ex.swift:435-462 | setting `text` moves the cursor to the end |
| TextFieldFormat.TextField.SetCursor | KeenExtension/Classes/Extensions/UIKitEx/UITextField+Ex.swift:554-557 | `__configCursorLocation` moves the cursor when the offset is within the text; otherwise the position is `nil`, which the force unwrap turns into a trap |
| TextFieldFormat.TextField.DeleteOne | KeenExtension/Classes/Extensions/UIKitEx/UITextField+Ex.swift:423-438 | deleting one character not at the end: an extra backspace over a space, regrouping, and the cursor at the location, one less after a space |
| TextFieldFormat.TextField.DeleteMany | KeenExtension/Classes/Extensions/UIKitEx/UITextField+Ex.swift:439-450 | deleting a range: one backspace, regrouping, and the cursor at the location unless the range reached the end |
| TextFieldFormat.TextField.InsertEdit | KeenExtension/Classes/Extensions/UIKitEx/UITextField+Ex.swift:454-470 | rejected when the stripped length plus the replacement minus the range exceeds the limit; otherwise inserted, regrouped, with the cursor at location + length + one per separator at the location |
| TextFieldFormat.LimitExceeded | KeenExtension/Classes/Extensions/UIKitEx/UITextField+Ex.swift:456-458 | a non-zero limit, and the stripped digits plus the replacement minus the range exceed it |
| TextFieldFormat.TextField.ConfigField | KeenExtension/Classes/Extensions/UIKitEx/UITextField+Ex.swift:413-473 | `__configField` returns true exactly when deleting the last character or replacing an empty range by nothing; an insertion is refused over the limit or applied and regrouped; the deletion of one other character or of a longer range leaves the regrouped text and the cursor `DeleteOne` and `DeleteMany` state; every applied edit answers false |
| TextFieldFormat.TextField.ShouldChange | KeenExtension/Classes/Extensions/UIKitEx/UITextField+Ex.swift:355-403 | the dispatch on `FormatType`: the code-unit rule decides without changing the field |
| TextFieldFormat.TextField.ConfigDecimalField | KeenExtension/Classes/Extensions/UIKitEx/UITextField+Ex.swift:481-548 | two decimals already typed: refused. Without a point, from location 9 only "." at exactly 9 is accepted, and a point typed before the last digit traps. Past those tests, a lone leading 0 is replaced by the replacement, a second 0 without a point is refused, and otherwise the call answers true exactly when every character is allowed, the location is at most two past the point, and the text has at most 11 characters |
| TextFieldFormat.TextField.DecimalAllowed | KeenExtension/Classes/Extensions/UIKitEx/UITextField+Ex.swift:500-521 | digits and newline, plus a point when the text has none and the location is not 0 |
| TextFieldFormat.TextField.ReachesZeroTest | KeenExtension/Classes/Extensions/UIKitEx/UITextField+Ex.swift:486-521 | a non-empty replacement that passes the decimals test, the cursor placement and the integer-part rules |
| TextFieldFormat.TextField.ZeroReplaced | KeenExtension/Classes/Extensions/UIKitEx/UITextField+Ex.swift:522-528 | the text is the lone `0` and the replacement is neither `0` nor a point |
| TextFieldFormat.TextField.ZeroRefused | KeenExtension/Classes/Extensions/UIKitEx/UITextField+Ex.swift:529-534 | a `0` typed after a leading `0` in text without a point |
| GifFrames.Gcd | KeenExtension/Classes/UIKitEx/UIImage+Ex.swift:1326-1356 | Euclid's gcd is positive unless both arguments are 0 |
| GifFrames.DividesCombination | KeenExtension/Classes/UIKitEx/UIImage+Ex.swift:1326-1356 | a common divisor divides `q·x + y` |
| GifFrames.GcdIsGreatest | KeenExtension/Classes/UIKitEx/UIImage+Ex.swift:1326-1356 | the gcd divides both arguments, and every common divisor divides it |
| GifFrames.DividesAntisymmetric | KeenExtension/Classes/UIKitEx/UIImage+Ex.swift:1326-1356 | natural numbers that divide each other are equal |
| GifFrames.GcdCommutes | KeenExtension/Classes/UIKitEx/UIImage+Ex.swift:1326-1356 | the gcd does not depend on argument order |
| GifFrames.PerPairFrame | KeenExtension/Classes/UIKitEx/UIImage+Ex.swift:1326-1356 | the swapping loop returns gcd(a, b) for positive a and b, the other argument when one is `nil`, and 0 when both are |
| GifFrames.GcdOf | KeenExtension/Classes/UIKitEx/UIImage+Ex.swift:1317-1324 | the gcd of positive delays is positive |
| GifFrames.GcdOfIsGreatest | KeenExtension/Classes/UIKitEx/UIImage+Ex.swift:1317-1324 | the gcd of all delays divides each of them, and every common divisor divides it |
| GifFrames.DividesTransitive | KeenExtension/Classes/UIKitEx/UIImage+Ex.swift:1317-1324 | divisibility is transitive |
| GifFrames.DividesAllPrefix | KeenExtension/Classes/UIKitEx/UIImage+Ex.swift:1317-1324 | a divisor of all delays divides those of the prefix and the last |
| GifFrames.PicFrames | KeenExtension/Classes/UIKitEx/UIImage+Ex.swift:1317-1324 | the fold of `picFrames` returns 1 for no delays, and the gcd of all delays otherwise |
| GifFrames.DelayOf | KeenExtension/Classes/UIKitEx/UIImage+Ex.swift:1281-1314 | the unclamped delay, or the clamped one when the unclamped delay is 0, or 0.1; always positive |
| GifFrames.Millis | KeenExtension/Classes/UIKitEx/UIImage+Ex.swift:1240-1246 | `Int(delay * 1000)` is the whole number of milliseconds |
| GifFrames.Repeat | KeenExtension/Classes/UIKitEx/UIImage+Ex.swift:1256-1266 | `n` copies of one frame |
| GifFrames.ExpandLength | KeenExtension/Classes/UIKitEx/UIImage+Ex.swift:1256-1266 | with a divisor of all delays, frame count × gcd is the total delay |
| GifFrames.ExpandDrawsFromImages | KeenExtension/Classes/UIKitEx/UIImage+Ex.swift:1256-1266 | every frame is one of the source images |
| GifFrames.DelaysOf | KeenExtension/Classes/UIKitEx/UIImage+Ex.swift:1240-1246 | one delay in milliseconds per source frame, in order |
| GifFrames.ImagesOf | KeenExtension/Classes/UIKitEx/UIImage+Ex.swift:1240-1246 | one image per source frame, in order |
| GifFrames.CollectSource | KeenExtension/Classes/UIKitEx/UIImage+Ex.swift:1240-1246 | the collecting loop gathers every delay, and every image when all are present |
| GifFrames.Duration | KeenExtension/Classes/UIKitEx/UIImage+Ex.swift:1248-1254 | the duration loop sums the delays |
| GifFrames.ReplicateFrames | KeenExtension/Classes/UIKitEx/UIImage+Ex.swift:1256-1266 | the replication loop puts image i `delays[i] / g` times in a row, in source order |
| GifFrames.Expand | KeenExtension/Classes/UIKitEx/UIImage+Ex.swift:1256-1266 | image i repeated `delays[i] / g` times, in source order |
| GifFrames.AnimatedWithSource | KeenExtension/Classes/UIKitEx/UIImage+Ex.swift:1236-1272 | the duration is the total delay, and the frames are the images replicated by their delay over the gcd |
| GifFrames.FramesKeepDuration | KeenExtension/Classes/UIKitEx/UIImage+Ex.swift:1256-1266 | the frame count is the total delay divided by the gcd |
| GifFrames.PixelOffsetAsWrittenOverruns | KeenExtension/Classes/UIKitEx/UIImage+Ex.swift:40-48 | as written, the guard `x > width` lets `(width, height)` through, whose offset is past the `width·height·4` bytes |
| GifFrames.PixelOffsetAsWritten | KeenExtension/Classes/UIKitEx/UIImage+Ex.swift:40-42 | the pixel offset behind the guard as written, which refuses only `x > width` and `y > height` |
| GifFrames.PixelOffset | KeenExtension/Classes/UIKitEx/UIImage+Ex.swift:40-48 | corrected guard: an offset exactly for `0 <= x < width` and `0 <= y < height`, equal to `(width·y + x)·4`, with its four bytes in the buffer |
| GifFrames.PixelAt | KeenExtension/Classes/UIKitEx/UIImage+Ex.swift:39-56 | the pixel is the four bytes at the offset, each over 255, so every channel is in [0, 1] |
| GifFrames.ImageSwapSize | KeenExtension/Classes/UIKitEx/UIImage+Ex.swift:762-766 | the width and height exchange and the origin stays |
| GifFrames.SwappedInvolution | KeenExtension/Classes/UIKitEx/UIImage+Ex.swift:762-766 | swapping twice restores the rect |
| HexColor.Field | KeenExtension/Classes/Extensions/UIKitEx/UIColor+Ex.swift:19-24 | a shifted and masked field is below its mask's size |
| HexColor.HexValueChannels | KeenExtension/Classes/Extensions/UIKitEx/UIColor+Ex.swift:19-24 | `init(hexValue:)` and `color(hexValue:)` extract channels in [0, 255] |
| HexColor.BytesRecombine | KeenExtension/Classes/Extensions/UIKitEx/UIColor+Ex.swift:19-24 | the three byte fields recombine to the value modulo 2^24 |
| HexColor.HexValueChannelsRecombine | KeenExtension/Classes/Extensions/UIKitEx/UIColor+Ex.swift:19-24 | `r·65536 + g·256 + b = v & 0xFFFFFF` |
| HexColor.ColorOf | KeenExtension/Classes/Extensions/UIKitEx/UIColor+Ex.swift:14-16 | channels over 255 lie in [0, 1] |
| HexColor.LeadingHexDigits | KeenExtension/Classes/Extensions/UIKitEx/UIColor+Ex.swift:177-194 | the digits the scanner reads are the longest prefix of hex digits |
| HexColor.ScanHexInt64 | KeenExtension/Classes/Extensions/UIKitEx/UIColor+Ex.swift:186 | `scanHexInt64` yields a `UInt64` |
| HexColor.HexValueAppend | KeenExtension/Classes/Extensions/UIKitEx/UIColor+Ex.swift:177-194 | the value of concatenated digits is the first shifted plus the second |
| HexColor.HexValueBound | KeenExtension/Classes/Extensions/UIKitEx/UIColor+Ex.swift:177-194 | `k` hex digits have a value below `16^k` |
| HexColor.HexValueLowercased | KeenExtension/Classes/Extensions/UIKitEx/UIColor+Ex.swift:177-194 | lowercasing hex digits keeps their value |
| HexColor.ScanHexOfDigits | KeenExtension/Classes/Extensions/UIKitEx/UIColor+Ex.swift:186 | up to eight hex digits scan to their value |
| HexColor.DigitsScanned | KeenExtension/Classes/Extensions/UIKitEx/UIColor+Ex.swift:186 | the scanner reads all of a string of hex digits |
| HexColor.HexValueFits | KeenExtension/Classes/Extensions/UIKitEx/UIColor+Ex.swift:186 | up to eight hex digits fit in a `UInt64` |
| HexColor.NoHexPrefix | KeenExtension/Classes/Extensions/UIKitEx/UIColor+Ex.swift:186 | plain digits carry no `0x` prefix |
| HexColor.NoLeadingSpace | KeenExtension/Classes/Extensions/UIKitEx/UIColor+Ex.swift:186 | plain digits carry no leading space for the scanner to skip |
| HexColor.LeadingHexDigitsOfDigits | KeenExtension/Classes/Extensions/UIKitEx/UIColor+Ex.swift:186 | a string of hex digits is its own digit prefix |
| HexColor.Pow16Monotone | KeenExtension/Classes/Extensions/UIKitEx/UIColor+Ex.swift:186 | powers of 16 grow with the exponent, and `16^8 = 2^32` |
| HexColor.StrippedHex | KeenExtension/Classes/Extensions/UIKitEx/UIColor+Ex.swift:177-185 | `color(hexString:)` strips to a string no longer than its argument |
| HexColor.ScannedChannels | KeenExtension/Classes/Extensions/UIKitEx/UIColor+Ex.swift:187-193 | `(v>>16)&0xFF`, `(v>>8)&0xFF` and `v&0xFF` are in [0, 255] |
| HexColor.ColorHexString | KeenExtension/Classes/Extensions/UIKitEx/UIColor+Ex.swift:177-194 | `color(hexString:)` is the colour of the channels of the scanned, stripped text, with the given alpha |
| HexColor.InitHexStringAsWritten | KeenExtension/Classes/Extensions/UIKitEx/UIColor+Ex.swift:27-42 | `init(hexString:)` as written scans the original argument |
| HexColor.InitHexStringAsWrittenIgnoresHash | KeenExtension/Classes/Extensions/UIKitEx/UIColor+Ex.swift:36 | as written, `"#ff0000"` scans as 0 and gives black, not red |
| HexColor.PackedBytes | KeenExtension/Classes/Extensions/UIKitEx/UIColor+Ex.swift:187-193 | the channels of `r·65536 + g·256 + b` are `(r, g, b)` |
| HexColor.DigitPairs | KeenExtension/Classes/Extensions/UIKitEx/UIColor+Ex.swift:177-194 | the values of the three digit pairs are bytes |
| HexColor.SixDigits | KeenExtension/Classes/Extensions/UIKitEx/UIColor+Ex.swift:177-194 | six hex digits are three bytes, high pair first |
| HexColor.StrippedHexOfHash | KeenExtension/Classes/Extensions/UIKitEx/UIColor+Ex.swift:177-185 | `"#" + d` strips to the lowercased digits |
| HexColor.NoSpaceInHash | KeenExtension/Classes/Extensions/UIKitEx/UIColor+Ex.swift:177-185 | `"#" + d` trims to itself |
| HexColor.ScanSixDigits | KeenExtension/Classes/Extensions/UIKitEx/UIColor+Ex.swift:186-193 | six scanned hex digits give the three pair values as channels |
| HexColor.SixDigitsBytes | KeenExtension/Classes/Extensions/UIKitEx/UIColor+Ex.swift:187-193 | the channels of a six-digit value are its digit pairs |
| HexColor.ColorHexStringOfHash | KeenExtension/Classes/Extensions/UIKitEx/UIColor+Ex.swift:177-194 | `color(hexString: "#rrggbb")` has the pairs `rr`, `gg`, `bb` as channels; `init(hexString:)` should agree with it |
| HexColor.HexStringToRGB | KeenExtension/Classes/Extensions/UIKitEx/UIColor+Ex.swift:201-240 | lengths other than 3, 4, 6 and 8 give (0, 0, 0, alpha); the 3- and 6-digit forms keep the given alpha |
| HexColor.Over | KeenExtension/Classes/Extensions/UIKitEx/UIColor+Ex.swift:201-240 | a field over its maximum is in [0, 1] |
| HexColor.PrefixLength | KeenExtension/Classes/Extensions/UIKitEx/UIColor+Ex.swift:201-210 | the prefix is 1 for `#` and 2 for `0x`/`0X` |
| HexColor.HexStringToRGBInRange | KeenExtension/Classes/Extensions/UIKitEx/UIColor+Ex.swift:201-240 | every decoded channel is in [0, 1], and so is a decoded alpha |
| HexColor.HexStringToRGBOfHash | KeenExtension/Classes/Extensions/UIKitEx/UIColor+Ex.swift:201-240 | `"#rrggbb"` decodes to the pairs over 255 with the given alpha |
| HexColor.HexStringToRGBOfThreeDigits | KeenExtension/Classes/Extensions/UIKitEx/UIColor+Ex.swift:218-221 | `"#rgb"` decodes to each digit over 15 with the given alpha |
| HexColor.HexStringToRGBOfFourDigits | KeenExtension/Classes/Extensions/UIKitEx/UIColor+Ex.swift:222-226 | `"#rgba"` decodes to each digit over 15, alpha from the last digit whatever alpha was given |
| HexColor.HexStringToRGBOfEightDigits | KeenExtension/Classes/Extensions/UIKitEx/UIColor+Ex.swift:231-235 | `"#rrggbbaa"` decodes to each digit pair over 255, alpha from the last pair |
| HexColor.ThreeDigitFields | KeenExtension/Classes/Extensions/UIKitEx/UIColor+Ex.swift:218-221 | the three 4-bit fields of three digits are the digits, first digit highest |
| HexColor.FourDigitFields | KeenExtension/Classes/Extensions/UIKitEx/UIColor+Ex.swift:222-226 | the four 4-bit fields of four digits are the digits, first digit highest |
| HexColor.EightDigitFields | KeenExtension/Classes/Extensions/UIKitEx/UIColor+Ex.swift:231-235 | the four byte fields of eight digits are their digit pairs, high pair first |
| HexColor.DigitsField | KeenExtension/Classes/Extensions/UIKitEx/UIColor+Ex.swift:218-235 | digits i..j of a hex string are the value shifted past the later digits and masked to j−i digits |
| HexColor.DigitField | KeenExtension/Classes/Extensions/UIKitEx/UIColor+Ex.swift:218-226 | digit i is the 4-bit field counted from the end |
| HexColor.ColorFromRGB | KeenExtension/Classes/Extensions/UIKitEx/UIColor+Ex.swift:147-149 | `color(r:g:b:a:)` divides each channel by 255 |
| HexColor.ToRGB | KeenExtension/Classes/Extensions/UIKitEx/UIColor+Ex.swift:60-64 | `toRGB` multiplies each channel by 255 |
| HexColor.ToRGBOfColorFromRGB | KeenExtension/Classes/Extensions/UIKitEx/UIColor+Ex.swift:60-64 | `toRGB` undoes `color(r:g:b:a:)` |
| HexColor.GradientRGB | KeenExtension/Classes/Extensions/UIKitEx/UIColor+Ex.swift:119-124 | the tuple form is the componentwise difference |
| HexColor.GradientOfColors | KeenExtension/Classes/Extensions/UIKitEx/UIColor+Ex.swift:105-112 | the colour form is the difference of the two `toRGB` tuples |
| HexColor.GradientAntisymmetric | KeenExtension/Classes/Extensions/UIKitEx/UIColor+Ex.swift:105-124 | a gradient from a colour to itself is zero, and swapping negates it |
| HexColor.Reversed | KeenExtension/Classes/Extensions/UIKitEx/UIColor+Ex.swift:132-138 | each channel `c` becomes `1 − c`, with alpha 1 |
| HexColor.ReversedTwice | KeenExtension/Classes/Extensions/UIKitEx/UIColor+Ex.swift:132-138 | reversing twice restores the channels with alpha 1, and keeps channels in [0, 1] |
| ImageSniff.Ascii | KeenExtension/Classes/Extensions/FoundationEx/Data+Ex.swift:40-60 | the ASCII reading of header bytes, byte for byte |
| ImageSniff.ImageTypeOf | KeenExtension/Classes/Extensions/FoundationEx/Data+Ex.swift:32-64 | first byte 0xFF jpg, 0x89 png, 0x47 gif, 0x49/0x4D tiff; 0x52 webp exactly for a RIFF/WEBP header; 0x00 heic or heif exactly for their `ftyp` brands; empty data unknow |
| ImageSniff.OtherFirstByteIsUnknown | KeenExtension/Classes/Extensions/FoundationEx/Data+Ex.swift:61-63 | any other first byte is unknow |
| ImageSniff.PngIsPng | KeenExtension/Classes/Extensions/FoundationEx/Data+Ex.swift:37 | data starting with the PNG signature (PNG specification, section 5.2) is png |
| ImageSniff.JpegIsJpg | KeenExtension/Classes/Extensions/FoundationEx/Data+Ex.swift:36 | data starting with the JPEG start-of-image marker is jpg |
| ImageSniff.GifIsGif | KeenExtension/Classes/Extensions/FoundationEx/Data+Ex.swift:38 | a GIF87a/GIF89a header is gif |
| ImageSniff.TiffIsTiff | KeenExtension/Classes/Extensions/FoundationEx/Data+Ex.swift:39 | the `II`/`MM` byte-order marks of TIFF 6.0, section 2 are tiff |
| ImageSniff.RiffIsWebpIff | KeenExtension/Classes/Extensions/FoundationEx/Data+Ex.swift:40-46 | a RIFF header is webp exactly when its form is `WEBP` |
| ImageSniff.FtypBrands | KeenExtension/Classes/Extensions/FoundationEx/Data+Ex.swift:47-60 | an `ftyp` box (ISO/IEC 14496-12, section 4.3) is heic or heif exactly by its major brand, and unknow for other brands |
| Basic.BoolToInt | KeenExtension/Classes/Extensions/UIKitEx/Basic+Ex.swift:122 | `toInt` is 1 exactly for true, and 0 otherwise |
| Basic.IntToBool | KeenExtension/Classes/Extensions/UIKitEx/Basic+Ex.swift:133 | `toBool` is false exactly for 0 |
| Basic.BoolIntRoundTrip | KeenExtension/Classes/Extensions/UIKitEx/Basic+Ex.swift:122-133 | `toBool` of `toInt` gives the Bool back |
| Basic.SwiftRem | KeenExtension/Classes/Extensions/UIKitEx/Basic+Ex.swift:145 | Swift's `%` truncates: the remainder has the dividend's sign and is smaller than the divisor |
| Basic.IsEvenNumIff | KeenExtension/Classes/Extensions/UIKitEx/Basic+Ex.swift:145 | `isEvenNum` holds exactly for an even number, negative ones included |
| Basic.IsEvenNum | KeenExtension/Classes/Extensions/UIKitEx/Basic+Ex.swift:145 | `n % 2 == 0` with Swift's truncating `%` |
| Basic.NatToHex | KeenExtension/Classes/Extensions/UIKitEx/Basic+Ex.swift:147 | `String(_:radix: 16, uppercase: true)` writes uppercase hex digits with no leading zero |
| Basic.ToHexString | KeenExtension/Classes/Extensions/UIKitEx/Basic+Ex.swift:147 | a negative number is written with a minus sign |
| Basic.NatToHexValue | KeenExtension/Classes/Extensions/UIKitEx/Basic+Ex.swift:147 | the hex rendering reads back as the number |
| Basic.HexStringRoundTrip | KeenExtension/Classes/Extensions/UIKitEx/Basic+Ex.swift:147 | `toInt(hexString: n.toHexString) == n` for every `n >= 0` |
| Basic.MidCoordinate | KeenExtension/Classes/Extensions/UIKitEx/Basic+Ex.swift:46-52 | the average lies equally far from both ends |
| Basic.Mid | KeenExtension/Classes/Extensions/UIKitEx/Basic+Ex.swift:46-52 | `mid` is the per-coordinate average |
| Basic.MidSymmetric | KeenExtension/Classes/Extensions/UIKitEx/Basic+Ex.swift:46-52 | `mid` is symmetric, and the mid of a point with itself is the point |
| Basic.EdgeInsets | KeenExtension/Classes/Extensions/UIKitEx/Basic+Ex.swift:62-64 | `tb.0` is top, `tb.1` bottom, `lr.0` left, `lr.1` right |
| Basic.RoundingModeFor | KeenExtension/Classes/Extensions/UIKitEx/Basic+Ex.swift:105 | rounding is plain; otherwise down for non-negative numbers and up for negative ones |
| Basic.DecimalNumber | KeenExtension/Classes/Extensions/UIKitEx/Basic+Ex.swift:98-113 | `notANumber` exactly when the text read is `notANumber`; otherwise the number rounded to `decimal` places in the chosen mode, a negative scale rounding to tens, hundreds and so on; a scale outside 16 bits traps |
| Basic.DecimalNumberRoundsToNearest | KeenExtension/Classes/Extensions/UIKitEx/Basic+Ex.swift:98-113 | with rounding, the result is within half a unit of the last kept place |
| Basic.DecimalNumberTruncates | KeenExtension/Classes/Extensions/UIKitEx/Basic+Ex.swift:98-113 | without rounding, `decimalNumber` truncates toward zero |
| Basic.ScaleKeepsSign | KeenExtension/Classes/Extensions/UIKitEx/Basic+Ex.swift:98-113 | scaling by a positive power keeps the sign |
| Basic.TruncateTowardZero | KeenExtension/Classes/Extensions/UIKitEx/Basic+Ex.swift:98-113 | the truncated number lies between zero and the number |
| Gregorian.DaysInMonth | KeenExtension/Classes/FoundationEx/Date+Ex.swift:96-98 | `dateTotalDays`: 31, 30, or 28/29 for February by the leap-year rule |
| DateMath.MonthNumberInjective | KeenExtension/Classes/FoundationEx/Date+Ex.swift:225-252 | the month count `12·year + month` identifies the month |
| DateMath.PreviousMonth | KeenExtension/Classes/FoundationEx/Date+Ex.swift:227-233 | January steps back to December of the year before; others step back one month |
| DateMath.NextMonth | KeenExtension/Classes/FoundationEx/Date+Ex.swift:243-249 | December steps to January of the next year; others step on one month |
| DateMath.MonthStepsInverse | KeenExtension/Classes/FoundationEx/Date+Ex.swift:225-252 | the two steps undo each other |
| DateMath.DateFrom | KeenExtension/Classes/FoundationEx/Date+Ex.swift:219-251 | `calendar.date(from:)` keeps a valid date, and lets a day past the month's end run into the next month |
| DateMath.CurrentMonthDate | KeenExtension/Classes/FoundationEx/Date+Ex.swift:215-220 | the first day, or the last day, of the receiver's month |
| DateMath.PreviousMonthDateAsWritten | KeenExtension/Classes/FoundationEx/Date+Ex.swift:225-236 | as written: the previous month with day 1, or with the day count of the receiver's own month |
| DateMath.NextMonthDateAsWritten | KeenExtension/Classes/FoundationEx/Date+Ex.swift:241-252 | as written: the next month with day 1, or with the day count of the receiver's own month |
| DateMath.MonthEndAsWrittenOverruns | KeenExtension/Classes/FoundationEx/Date+Ex.swift:234-250 | when the target month is shorter, the as-written month end falls in the month after it |
| DateMath.PreviousMonthEndAsWrittenStaysInMonth | KeenExtension/Classes/FoundationEx/Date+Ex.swift:225-236 | when the previous month is shorter, the as-written "previous month end" lands back in the receiver's own month |
| DateMath.PreviousMonthEndAsWrittenExample | KeenExtension/Classes/FoundationEx/Date+Ex.swift:225-236 | from any day of March 2023, the as-written previous month end is 3 March 2023 |
| DateMath.PreviousMonthDate | KeenExtension/Classes/FoundationEx/Date+Ex.swift:225-236 | corrected: a date in the previous month, on its first day or on its last day |
| DateMath.NextMonthDate | KeenExtension/Classes/FoundationEx/Date+Ex.swift:241-252 | corrected: a date in the next month, on its first day or on its last day |
| DateMath.Weekday | KeenExtension/Classes/FoundationEx/Date+Ex.swift:308-356 | the `Calendar` weekday is 1 to 7 |
| DateMath.WeekdayStep | KeenExtension/Classes/FoundationEx/Date+Ex.swift:308-356 | the weekday advances by one per day, cyclically |
| DateMath.DateWeekday | KeenExtension/Classes/FoundationEx/Date+Ex.swift:75-78 | `dateWeekday` is 0 (Sunday) to 6, fixed by the epoch's Thursday |
| DateMath.DateWeekdayPeriodic | KeenExtension/Classes/FoundationEx/Date+Ex.swift:75-78 | it repeats every seven days and advances by one per day |
| DateMath.WeeksNumber | KeenExtension/Classes/FoundationEx/Date+Ex.swift:308-330 | the end is six days after the start, the start falls on the first weekday, and the week holds the shifted day exactly when its weekday is not before the first weekday |
| DateMath.WeekStart | KeenExtension/Classes/FoundationEx/Date+Ex.swift:315 | stepping back by the weekday difference reaches the first weekday |
| DateMath.WeeksNumberSkipsAhead | KeenExtension/Classes/FoundationEx/Date+Ex.swift:315-316 | a day whose weekday is before the first weekday gets the following week |
| DateMath.WeeksDetailNumber | KeenExtension/Classes/FoundationEx/Date+Ex.swift:338-356 | the loop yields exactly seven consecutive days, from the week's start to its end |
| DateMath.WeekDetailWeekdays | KeenExtension/Classes/FoundationEx/Date+Ex.swift:338-356 | the k-th day of the week has the weekday `first + k`, cyclically |
| DateMath.TimestampToDate | KeenExtension/Classes/FoundationEx/Date+Ex.swift:378-388 | 10 characters are seconds, 13 are milliseconds over 1000, and any other length is the error case |
| DateMath.TimestampSecondsRoundTrip | KeenExtension/Classes/FoundationEx/Date+Ex.swift:378-388 | a 10-digit count of seconds reads back as itself |
| DateMath.TimestampMillisecondsRoundTrip | KeenExtension/Classes/FoundationEx/Date+Ex.swift:378-388 | a 13-digit count of milliseconds reads back as itself over 1000 |
| DateMath.IntValue | KeenExtension/Classes/FoundationEx/Date+Ex.swift:409-443 | `Int(_:)` of a non-negative interval is its floor |
| DateMath.Units | KeenExtension/Classes/FoundationEx/Date+Ex.swift:409-443 | the whole number of units in an interval |
| DateMath.UnitsOf | KeenExtension/Classes/FoundationEx/Date+Ex.swift:409-443 | the floor of the quotient is the whole number of units |
| DateMath.CommentBucket | KeenExtension/Classes/FoundationEx/Date+Ex.swift:409-443 | "just now" below a minute, including negative intervals; then whole minutes, hours, days, 30-day months and 360-day years, each bucket holding exactly its range |
| DateMath.CommentBarText | KeenExtension/Classes/FoundationEx/Date+Ex.swift:409-443 | the text is 刚刚 exactly below a minute; otherwise the bucket's count followed by 分钟前, 小时前, 天前, 个月前 or 年前 by bucket |
| DateMath.Counted | KeenExtension/Classes/FoundationEx/Date+Ex.swift:423-439 | `"\(n)"` + unit: decimal digits that read back as n, then exactly the unit word |
| DateMath.CommentBarTextExamples | KeenExtension/Classes/FoundationEx/Date+Ex.swift:409-443 | 300 s reads 5分钟前 and 7200 s reads 2小时前 |
| GridLayout.SudokuGuardAsWrittenAdmitsAnyPerLine | KeenExtension/Classes/SnapKitEx/SnapKit+Ex.swift:185-187 | as written, the `\|\|` guard admits any number per line once there are two views, 0 included |
| GridLayout.AxisGuard | KeenExtension/Classes/SnapKitEx/SnapKit+Ex.swift:67-69 | `distributeViewsAlongAxis` needs more than one view |
| GridLayout.SudokuGuardAsWritten | KeenExtension/Classes/SnapKitEx/SnapKit+Ex.swift:185-187 | the grid guard as written: more than one view, or at least one view per line |
| GridLayout.SudokuGuard | KeenExtension/Classes/SnapKitEx/SnapKit+Ex.swift:185-187 | the guard its message asks for: more than one view and at least one view per line |
| GridLayout.SudokuGuardCorrects | KeenExtension/Classes/SnapKitEx/SnapKit+Ex.swift:185-253 | under the corrected guard the grid arithmetic is defined: at least one row, and every view of the array, or of the items padded to `numberOfPerLine`, lands in a row of the grid and a column below `numberOfPerLine` |
| GridLayout.RowCount | KeenExtension/Classes/SnapKitEx/SnapKit+Ex.swift:189 | the rows hold every view, and the last row is not empty |
| GridLayout.RowCountIsCeiling | KeenExtension/Classes/SnapKitEx/SnapKit+Ex.swift:189 | `rowCount` is ⌈count / numberOfPerLine⌉ |
| GridLayout.Cell | KeenExtension/Classes/SnapKitEx/SnapKit+Ex.swift:190-194 | the column is below the number per line, and `idx = row·numberOfPerLine + column` |
| GridLayout.CellInGrid | KeenExtension/Classes/SnapKitEx/SnapKit+Ex.swift:189-194 | every view falls in a row below `rowCount` |
| GridLayout.CellInverse | KeenExtension/Classes/SnapKitEx/SnapKit+Ex.swift:190-194 | a row and a column give back their index |
| GridLayout.GridCells | KeenExtension/Classes/SnapKitEx/SnapKit+Ex.swift:189-194 | the layout loop gives every view its row and column, inside the grid |
| GridLayout.PadWithEmptyViews | KeenExtension/Classes/SnapKitEx/SnapKit+Ex.swift:245-252 | pads to `max(count, numberOfPerLine)` with fresh empty subviews of the common superview, keeping the views as a prefix; the superview map keeps every old entry and gains exactly the new views as keys |
| GridLayout.ClosestCommonSuperview | KeenExtension/Classes/SnapKitEx/SnapKit+Ex.swift:322-336 | the nested loops return the first view of the argument's chain that is in the receiver's chain, or `nil` |
| GridLayout.CommonSuperviewOfViews | KeenExtension/Classes/SnapKitEx/SnapKit+Ex.swift:300-317 | the `forEach` fold returns the fold of the pairwise search |
| GridLayout.CommonFold | KeenExtension/Classes/SnapKitEx/SnapKit+Ex.swift:300-317 | the first view, then the closest common superview of the result so far and each further view; `nil` for no views or once a search fails |
| GridLayout.CommonFoldIsCommon | KeenExtension/Classes/SnapKitEx/SnapKit+Ex.swift:300-317 | a result is an ancestor-or-self of every view |
| GridLayout.CommonFoldIsLowest | KeenExtension/Classes/SnapKitEx/SnapKit+Ex.swift:300-336 | if the views have any common ancestor, the result exists and lies below every one of them |
| ViewTree.Chain | KeenExtension/Classes/SnapKitEx/SnapKit+Ex.swift:322-336 | the ancestor-or-self chain starts at the view, steps to the superview, and ends at a root |
| ViewTree.ChainSuffix | KeenExtension/Classes/SnapKitEx/SnapKit+Ex.swift:322-336 | the chain of an ancestor is a suffix of the chain |
| ViewTree.ChainTransitive | KeenExtension/Classes/SnapKitEx/SnapKit+Ex.swift:300-336 | an ancestor of an ancestor is an ancestor |
| ViewTree.FirstIndexIn | KeenExtension/Classes/SnapKitEx/SnapKit+Ex.swift:322-336 | the first position in the set, with none before it |
| ViewTree.FirstIn | KeenExtension/Classes/UIKitEx/UIView+Ex.swift:526-533 | the first element in the set, or `nil` when there is none |
| ViewTree.FirstInChainStep | KeenExtension/Classes/UIKitEx/UIView+Ex.swift:526-533 | the first match is the view itself, or the first match above it |
| ViewTree.FirstInCons | KeenExtension/Classes/SnapKitEx/SnapKit+Ex.swift:322-336 | the first match of a sequence with one element prepended |
| ViewTree.FirstCommonIsLowest | KeenExtension/Classes/SnapKitEx/SnapKit+Ex.swift:322-336 | any common ancestor lies above the first common one |
| Navigation.IndexOf | KeenExtension/Classes/Extensions/UIKitEx/UIViewController+Ex.swift:167-176 | the first position of a controller in the stack |
| Navigation.NavigationController.constructor | KeenExtension/Classes/Extensions/UIKitEx/UIViewController+Ex.swift:151-216 | a stack of controllers, presented or not, not yet dismissed |
| Navigation.NavigationController.PopViewController | KeenExtension/Classes/Extensions/UIKitEx/UIViewController+Ex.swift:155 | pops the top controller, but never the root |
| Navigation.NavigationController.PopToViewController | KeenExtension/Classes/Extensions/UIKitEx/UIViewController+Ex.swift:172 | keeps the stack up to and including the controller |
| Navigation.NavigationController.PopToRootViewController | KeenExtension/Classes/Extensions/UIKitEx/UIViewController+Ex.swift:187 | keeps only the root |
| Navigation.NavigationController.SetViewControllers | KeenExtension/Classes/Extensions/UIKitEx/UIViewController+Ex.swift:182-216 | replaces the stack |
| Navigation.NavigationController.Dismiss | KeenExtension/Classes/Extensions/UIKitEx/UIViewController+Ex.swift:157 | dismissing marks the navigation controller dismissed |
| Navigation.Dismiss | KeenExtension/Classes/Extensions/UIKitEx/UIViewController+Ex.swift:151-161 | pops one controller above the root; else dismisses a presented navigation controller; else nothing; without one it dismisses self |
| Navigation.FirstMatchFrom | KeenExtension/Classes/Extensions/UIKitEx/UIViewController+Ex.swift:167-176 | the first matching position from `i`, with none between |
| Navigation.DismissTo | KeenExtension/Classes/Extensions/UIKitEx/UIViewController+Ex.swift:167-176 | the top-down pops to every exact-class match leave the stack trimmed to the lowest match |
| Navigation.PopToStep | KeenExtension/Classes/Extensions/UIKitEx/UIViewController+Ex.swift:167-176 | one more, lower match trims the stack further, to it |
| Navigation.TrimToLowestMatchShape | KeenExtension/Classes/Extensions/UIKitEx/UIViewController+Ex.swift:167-176 | no match leaves the stack; otherwise it becomes a prefix ending at the lowest match, with no match before it |
| Navigation.TrimToLowestMatch | KeenExtension/Classes/Extensions/UIKitEx/UIViewController+Ex.swift:167-176 | the stack up to and including the lowest controller of the class, or the stack itself without one |
| Navigation.TrimFrom | KeenExtension/Classes/Extensions/UIKitEx/UIViewController+Ex.swift:167-176 | the stack cut above the lowest match at or above position i |
| Navigation.DismissCount | KeenExtension/Classes/Extensions/UIKitEx/UIViewController+Ex.swift:182-193 | count < 1 changes nothing, count ≥ n leaves the root, and otherwise the first n − count controllers stay |
| Navigation.DismissCountTo | KeenExtension/Classes/Extensions/UIKitEx/UIViewController+Ex.swift:200-216 | gives [root, vc] when count ≥ n, and the first n − count controllers followed by vc otherwise |
| Navigation.PresentedTop | KeenExtension/Classes/Extensions/UIKitEx/UIViewController+Ex.swift:117-120 | following `presentedViewController` ends at a controller with nothing presented |
| Navigation.Unwrap | KeenExtension/Classes/Extensions/UIKitEx/UIViewController+Ex.swift:121-126 | unwrapping a tab bar or navigation controller keeps `nil` as `nil` |
| Navigation.TopViewController | KeenExtension/Classes/Extensions/UIKitEx/UIViewController+Ex.swift:105-131 | the chosen window's root, followed up the presentation chain and unwrapped; `nil` without a key window |
| Navigation.ChosenWindow | KeenExtension/Classes/Extensions/UIKitEx/UIViewController+Ex.swift:106-116 | the key window when it is at the normal level, else a normal-level window of the list, else the key window |
| Navigation.ChosenFromIsNormal | KeenExtension/Classes/Extensions/UIKitEx/UIViewController+Ex.swift:106-116 | the search from `i` yields the key window or a normal window from position `i` on |
| ViewFrame.View.constructor | KeenExtension/Classes/UIKitEx/UIView+Ex.swift:1068-1101 | a view with its frame and the default throttle state: last tap 0, interval 1.0 |
| ViewFrame.View.MidX | KeenExtension/Classes/UIKitEx/UIView+Ex.swift:185 | `midX(w)` centres something `w` wide: the two margins are equal |
| ViewFrame.View.X | KeenExtension/Classes/UIKitEx/UIView+Ex.swift:83-89 | the frame's origin x |
| ViewFrame.View.Y | KeenExtension/Classes/UIKitEx/UIView+Ex.swift:91-97 | the frame's origin y |
| ViewFrame.View.Width | KeenExtension/Classes/UIKitEx/UIView+Ex.swift:99-105 | the frame's width |
| ViewFrame.View.Height | KeenExtension/Classes/UIKitEx/UIView+Ex.swift:107-113 | the frame's height |
| ViewFrame.View.CenterX | KeenExtension/Classes/UIKitEx/UIView+Ex.swift:131-137 | x plus half the width |
| ViewFrame.View.CenterY | KeenExtension/Classes/UIKitEx/UIView+Ex.swift:139-145 | y plus half the height |
| ViewFrame.View.Top | KeenExtension/Classes/UIKitEx/UIView+Ex.swift:147-153 | y |
| ViewFrame.View.Left | KeenExtension/Classes/UIKitEx/UIView+Ex.swift:155-161 | x |
| ViewFrame.View.Bottom | KeenExtension/Classes/UIKitEx/UIView+Ex.swift:163-169 | y plus height |
| ViewFrame.View.Right | KeenExtension/Classes/UIKitEx/UIView+Ex.swift:171-177 | x plus width |
| ViewFrame.View.MinX | KeenExtension/Classes/UIKitEx/UIView+Ex.swift:179 | the smaller of the two horizontal edges |
| ViewFrame.View.MaxX | KeenExtension/Classes/UIKitEx/UIView+Ex.swift:180 | the larger of the two horizontal edges |
| ViewFrame.View.MinY | KeenExtension/Classes/UIKitEx/UIView+Ex.swift:182 | the smaller of the two vertical edges |
| ViewFrame.View.MaxY | KeenExtension/Classes/UIKitEx/UIView+Ex.swift:183 | the larger of the two vertical edges |
| ViewFrame.View.MidY | KeenExtension/Classes/UIKitEx/UIView+Ex.swift:186 | `midY(h)` centres something `h` tall |
| ViewFrame.View.EdgesOrdered | KeenExtension/Classes/UIKitEx/UIView+Ex.swift:179-183 | `minX` ... `maxY` bound the frame, and are its edges when width and height are non-negative |
| ViewFrame.View.SetX | KeenExtension/Classes/UIKitEx/UIView+Ex.swift:83-89 | setting `x` changes only the frame's x |
| ViewFrame.View.SetY | KeenExtension/Classes/UIKitEx/UIView+Ex.swift:91-97 | setting `y` changes only the frame's y |
| ViewFrame.View.SetWidth | KeenExtension/Classes/UIKitEx/UIView+Ex.swift:99-105 | setting `width` changes only the width |
| ViewFrame.View.SetHeight | KeenExtension/Classes/UIKitEx/UIView+Ex.swift:107-113 | setting `height` changes only the height |
| ViewFrame.View.SetOrigin | KeenExtension/Classes/UIKitEx/UIView+Ex.swift:115-121 | setting `origin` keeps the size |
| ViewFrame.View.SetSize | KeenExtension/Classes/UIKitEx/UIView+Ex.swift:123-129 | setting `size` keeps the origin |
| ViewFrame.View.SetTop | KeenExtension/Classes/UIKitEx/UIView+Ex.swift:147-153 | `top` is an alias of `y` |
| ViewFrame.View.SetLeft | KeenExtension/Classes/UIKitEx/UIView+Ex.swift:155-161 | `left` is an alias of `x` |
| ViewFrame.View.SetBottom | KeenExtension/Classes/UIKitEx/UIView+Ex.swift:163-169 | after setting `bottom` to v, `bottom` reads v, and the height, x and width are unchanged |
| ViewFrame.View.SetRight | KeenExtension/Classes/UIKitEx/UIView+Ex.swift:171-177 | after setting `right` to v, `right` reads v, and the width, y and height are unchanged |
| ViewFrame.View.SetCenterX | KeenExtension/Classes/UIKitEx/UIView+Ex.swift:131-137 | setting `centerX` keeps `centerY` and the size |
| ViewFrame.View.SetCenterY | KeenExtension/Classes/UIKitEx/UIView+Ex.swift:139-145 | setting `centerY` keeps `centerX` and the size |
| ViewFrame.View.ClickMethod | KeenExtension/Classes/UIKitEx/UIView+Ex.swift:1054-1065 | a tap inside the interval is ignored; otherwise it becomes the last tap and fires only if recognized |
| ViewFrame.BorderStrip | KeenExtension/Classes/UIKitEx/UIView+Ex.swift:579-607 | top (0, 0, W, w), left (0, 0, w, H), bottom (0, H − w, W, w), right (W − w, 0, w, H); `.all` sets the layer border instead |
| ViewFrame.BorderStripInside | KeenExtension/Classes/UIKitEx/UIView+Ex.swift:589-604 | a strip no thicker than the view lies inside its bounds |
| ViewFrame.SeekNextAsWritten | KeenExtension/Classes/UIKitEx/UIView+Ex.swift:527 | as written, the `next` closure always returns a present (double-optional) value |
| ViewFrame.SeekElementAsWrittenOnChain | KeenExtension/Classes/UIKitEx/UIView+Ex.swift:526-533 | as written, the sequence yields the strict ancestors and then `nil` for ever |
| ViewFrame.SeekElementAsWritten | KeenExtension/Classes/UIKitEx/UIView+Ex.swift:526-533 | the k-th element of `sequence(first:next:)` as written |
| ViewFrame.SeekSuperViewAsWrittenNeverEnds | KeenExtension/Classes/UIKitEx/UIView+Ex.swift:526-533 | as written, with no ancestor of the type, the loop never finds one and never runs out |
| ViewFrame.SeekSuperView | KeenExtension/Classes/UIKitEx/UIView+Ex.swift:526-533 | corrected: the nearest strict ancestor of the type, or `nil` exactly when there is none |
| ControlHit.Inset | KeenExtension/Classes/Extensions/UIKitEx/UIControl+Ex.swift:99-100 | `inset(by:)` moves each edge inward by its inset |
| ControlHit.NonPositiveInsetsEnlarge | KeenExtension/Classes/Extensions/UIKitEx/UIControl+Ex.swift:99-100 | negative insets enlarge the hit area |
| ControlHit.Control.constructor | KeenExtension/Classes/Extensions/UIKitEx/UIControl+Ex.swift:73-184 | the defaults: `hitEdgeInsets` zero, last tap 0, interval 1.0 |
| ControlHit.Control.PointInside | KeenExtension/Classes/Extensions/UIKitEx/UIControl+Ex.swift:91-101 | defers to super for zero insets, disabled, non-interactive, alpha ≤ 0.01 or hidden; otherwise a hit exactly inside the inset bounds |
| ControlHit.Control.UsesHitArea | KeenExtension/Classes/Extensions/UIKitEx/UIControl+Ex.swift:92-96 | the guard: an extra hit area, enabled, interactive, alpha above 0.01, not hidden |
| ControlHit.Control.ClickAction | KeenExtension/Classes/Extensions/UIKitEx/UIControl+Ex.swift:139-148 | a tap inside the interval is ignored; otherwise it becomes the last tap and runs the action |
| Throttle.Accepted | KeenExtension/Classes/UIKitEx/UIView+Ex.swift:1054-1065 | the taps that get through are among those made |
| Throttle.AcceptedSpacing | KeenExtension/Classes/Extensions/UIKitEx/UIControl+Ex.swift:139-148 | taps that get through are at least the interval apart, the first one at least the interval after the last stored tap |
| Throttle.NoIntervalAcceptsAll | KeenExtension/Classes/Extensions/UIKitEx/UIControl+Ex.swift:139-148 | with a non-positive interval, every tap in time order gets through |
| FileSize.CalculateFileSize | KeenExtension/Classes/Extensions/FoundationEx/FileManager+Ex.swift:219-228 | the loop ends with value ≤ 1024, value · 1024^idx = size, idx ≤ 6 and the unit `values[idx]` |
| FileSize.StepDown | KeenExtension/Classes/Extensions/FoundationEx/FileManager+Ex.swift:223-226 | one more division by 1024 keeps the invariant and idx within the table |
| FileSize.TooLargeForSeven | KeenExtension/Classes/Extensions/FoundationEx/FileManager+Ex.swift:222-227 | a `UInt64` never needs a seventh step |
| FileSize.LeastSteps | KeenExtension/Classes/Extensions/FoundationEx/FileManager+Ex.swift:223-226 | idx is the least number of steps; a size of at most 1024, 1024 included, stays in bytes unchanged |
| Dictionaries.Get | KeenExtension/Classes/Extensions/FoundationEx/Dictionary+Ex.swift:15-17 | the value for a present key, `nil` otherwise |
| Dictionaries.Contains | KeenExtension/Classes/Extensions/FoundationEx/Dictionary+Ex.swift:48 | `contains(_:)`: the key is present |
| Dictionaries.Set | KeenExtension/Classes/Extensions/FoundationEx/Dictionary+Ex.swift:18-20 | a value is stored under the key, `nil` removes it, and the other entries stay |
| Dictionaries.GetAfterSet | KeenExtension/Classes/Extensions/FoundationEx/Dictionary+Ex.swift:14-21 | reading after writing gives what was written |
| Dictionaries.ValuesFor | KeenExtension/Classes/Extensions/FoundationEx/Dictionary+Ex.swift:24-32 | at most one value per key |
| Dictionaries.ValuesForContents | KeenExtension/Classes/Extensions/FoundationEx/Dictionary+Ex.swift:24-32 | holds the value of every present key, and nothing else |
| Dictionaries.ValuesForKeys | KeenExtension/Classes/Extensions/FoundationEx/Dictionary+Ex.swift:24-32 | the appending loop returns the values of the present keys in key order, one per key when all are present |
| Dictionaries.AllPresentKeepsLength | KeenExtension/Classes/Extensions/FoundationEx/Dictionary+Ex.swift:24-32 | with every key present, there is one value per key |
| Dictionaries.IsEmpty | KeenExtension/Classes/Extensions/FoundationEx/Dictionary+Ex.swift:39-48 | `isEmpty` holds exactly without keys, that is when `contains` holds for no key |
| Dictionaries.AllKeys | KeenExtension/Classes/Extensions/FoundationEx/Dictionary+Ex.swift:42 | every key exactly once |
| Dictionaries.AllValues | KeenExtension/Classes/Extensions/FoundationEx/Dictionary+Ex.swift:45 | one value per key, listed in some order of the keys |
| Dictionaries.ToArray | KeenExtension/Classes/Extensions/FoundationEx/Dictionary+Ex.swift:51 | `count` elements, `f` applied to each entry in some order of the keys |
| Arrays.AppendAll | KeenExtension/Classes/FoundationEx/Array+Ex.swift:15-17 | the old array followed by the elements: the length grows by their count and the old prefix stays |
| Collections.SafeIndex | KeenExtension/Classes/FoundationEx/Collection+Ex.swift:14-16 | `self[safe: i]` is `self[i]` for an index in range, and `nil` for any other, negative included |

## Left out

- **Characters.** A `Character` is one Unicode scalar, and text is assumed to lie in the Basic Multilingual Plane, so `count`, `utf16.count` and `NSString.length` agree.
  - Grapheme clusters and surrogate pairs are not modelled.
  - Case mapping is ASCII only.
- **Integer overflow.** Swift `Int` overflow traps are not modelled, e.g. in `timebarToSeconds` and `toInt(hexString:)`. Integers are unbounded.
- **Unicode length.** `StringNumbers.Utf8`: encodes scalars up to U+10FFFF by the UTF-8 lengths. Invalid scalars cannot occur in Dafny's `char`.
- **Formatting engines.**
  - `String(format:)` is modelled only where the model needs its output: `%02d` in the time bar.
  - `"%4.2f %@"` in `calculateFileSize` is not modelled; the method returns the value and its unit.
  - `DateFormatter` is not modelled, and neither are Calendar conversions between dates and components.
- **Calendar.**
  - Dates are (year, month, day) values of the proleptic Gregorian calendar.
  - A weekday is a day number modulo 7.
  - Time zones, locales and `firstWeekday` settings are not modelled.
- **timestampToDate.** The release build returns `Date()` for a bad length, in place of `fatalError`. Both are the model's `None`: the clock is not modelled.
- **Floating point.**
  - `CGFloat`, `TimeInterval` and `Double` are exact reals.
  - `DecimalNumber`'s `NSDecimalNumber` engine is replaced by exact arithmetic on reals.
  - `FileSize.CalculateFileSize`: the divisions are exact rather than `Double` rounding.
- **containsEmoji** reads index `length`, a guaranteed out-of-range read, and is not modelled.
- **Unmodelled validators.** The `NSPredicate` patterns `isValidEmail`, `isValidURL`, `isValidHTML`, `isValidMacAddress` and `isValidIPAddress` are not written out.
- **GIF delays.**
  - `GifFrames.DelayOf`: both delay entries of a GIF dictionary are taken to be numbers. A missing entry or one that is not a `Double` is not modelled.
  - `GifFrames.PerPairFrame`: requires positive delays when both are present; negative inputs, on which Swift's `%` differs, are not modelled. A delay below one millisecond gives `Millis` 0, and `perPairFrame` then traps in `%` by zero: `GifFrames.AnimatedWithSource` requires every delay of the source to be positive, which excludes that trap.
- **Dictionary order.** `Dictionaries.AllKeys`, `Dictionaries.AllValues`, `Dictionaries.ToArray`: the order is unspecified. The contracts state membership, one entry per key, and the value for each key, not the hash order.
- **toJson** of `Array` and `Dictionary` is JSON serialisation, not modelled.
- **Arrays.AppendAll** returns the new array as a value. Swift arrays are values, so the mutating `append` is a reassignment.
- **Navigation.DismissCount**: the result with 1 ≤ count < n is stated for a stack without repeated controllers. `popToViewController` pops to some occurrence, which is unambiguous only then.
- **Navigation.DismissTo** assumes the pops are synchronous and the stack has no repeated controllers.
- **Navigation.TopViewController**: connected scenes are given as a window list, and the class tests (`UINavigationController`, `UITabBarController`, level `.normal`) are given as data.
- **View hierarchies** are values (maps from a view to its superview), not objects. Aliasing between views is not modelled.
  - `seekSuperView`'s type test is a set of views.
  - `viewBorder` computes the strip's frame. Drawing the layer is not modelled.
- **Text field.**
  - `TextFieldFormat.TextField.ShouldChange`: its contract states the code-unit case only. The other formats forward to `ConfigField` and `ConfigDecimalField`, whose own contracts state them.
  - Marked (IME) text, undo and `UITextPosition` are not modelled, and neither are the notifications that UIKit sends.
- **Basic.DecimalNumber**: `.plain` rounds halves away from zero. The argument is the value `NSDecimalNumber(string:)` reads, or `None` for `notANumber`; the grammar of that reading and `NSDecimalNumber`'s 38-digit precision are not modelled.
- **Outside the core.** Rendering, image processing, animation, gestures' recognition state machine, I/O, concurrency, runtime swizzling, randomness and chainable setters are not modelled.

## Findings

| source | as written | input that shows it | evidently intended | confidence | as-written member | corrected member |
|---|---|---|---|---|---|---|
| KeenExtension/Classes/FoundationEx/String+Ex.swift:484-494 | `toNSRanges` sets each later location to `2·\|piece\| + \|str\|`, forgetting the pieces and separators before it | "aXbbX" with ["X"]: the second range starts at 5, past the end; the "X" is at 4 | each range starts where the separator follows its piece | not executed | StringSearch.ToNSRangesAsWrittenMisplaces | StringSearch.ToNSRanges |
| KeenExtension/Classes/FoundationEx/String+Ex.swift:645 | the guard `count > 0 \|\| count <= 2` is always true, so text with several points loses its later pieces | `"1.2.3".addDecimalZero(2)` gives `"1.20"` | text that is not a number with at most one point is returned unchanged | not executed | StringFormat.AddDecimalZeroAsWrittenDropsPieces | StringFormat.AddDecimalZero |
| KeenExtension/Classes/UIKitEx/UIImage+Ex.swift:40-42 | the pixel guard refuses `x > width` and `y > height`, so `x == width` and `y == height` pass | pixel (width, height) of any image: offset `(w·h + w)·4` is past the `w·h·4` bytes | refuse `x >= width` and `y >= height` | not executed | GifFrames.PixelOffsetAsWrittenOverruns | GifFrames.PixelOffset |
| KeenExtension/Classes/Extensions/UIKitEx/UIColor+Ex.swift:36 | `init(hexString:)` strips `#` or `0x` into `hex` but scans the original argument | `"#ff0000"` scans as 0 and gives black | scan `hex`, as `color(hexString:)` does | not executed | HexColor.InitHexStringAsWrittenIgnoresHash | HexColor.ColorHexStringOfHash |
| KeenExtension/Classes/FoundationEx/Date+Ex.swift:234 | the month end of `previousMonthDate(true)` uses the receiver's own day count on the previous month | any day of March 2023: day 31 of February 2023 is 3 March 2023 | the last day of the previous month | not executed | DateMath.PreviousMonthEndAsWrittenExample | DateMath.PreviousMonthDate |
| KeenExtension/Classes/FoundationEx/Date+Ex.swift:250 | `nextMonthDate(true)` uses the receiver's own day count on the next month | any day of January 2023: day 31 of February 2023 runs into March | the last day of the next month | not executed | DateMath.MonthEndAsWrittenOverruns | DateMath.NextMonthDate |
| KeenExtension/Classes/SnapKitEx/SnapKit+Ex.swift:185-187 | the grid guard `array.count > 1 \|\| numberOfPerLine >= 1` fails only when both fail | two views with `numberOfPerLine = 0`: the guard passes, and `array.count % numberOfPerLine` then divides by zero | require both, as the message "views to distribute need to bigger than one" says, so at least one view per line; this also refuses a lone view, which the guard as written lays out | not executed | GridLayout.SudokuGuardAsWrittenAdmitsAnyPerLine | GridLayout.SudokuGuardCorrects |
| KeenExtension/Classes/UIKitEx/UIView+Ex.swift:526-533 | `sequence(first: base.superview, next: { $0?.superview })` has `UIView?` elements, so `next` never returns `nil` and the sequence never ends | a view with no ancestor of the type: the loop runs for ever | stop at the root and return `nil` | not executed | ViewFrame.SeekSuperViewAsWrittenNeverEnds | ViewFrame.SeekSuperView |
