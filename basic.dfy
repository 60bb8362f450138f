/**
 * The numeric helpers of Basic+Ex.swift: `Bool`/`Int` conversions, parity,
 * `toHexString`, the midpoint of two points, `UIEdgeInsets(tb:lr:)` and the
 * rounding mode `decimalNumber` picks.
 */
module Basic {
  import opened Wrappers
  import Chars
  import StringNumbers
  import opened Geometry

  /** `Bool.kc.toInt`. */
  function BoolToInt(b: bool): (n: int)
    ensures n == 1 || n == 0
    ensures n == 1 <==> b
  {
    if b then 1 else 0
  }

  /** `Int.kc.toBool`: false exactly for 0. */
  function IntToBool(n: int): (b: bool)
    ensures !b <==> n == 0
  {
    if n == 0 then false else true
  }

  /** `toBool` undoes `toInt`. */
  lemma BoolIntRoundTrip(b: bool)
    ensures IntToBool(BoolToInt(b)) == b
  {
  }

  /** Swift's `%` on `Int`: the remainder of the division truncated toward zero,
    * with the sign of the dividend. */
  function SwiftRem(a: int, b: int): (r: int)
    requires b != 0
    ensures a >= 0 ==> 0 <= r < (if b > 0 then b else -b)
    ensures a < 0 ==> -(if b > 0 then b else -b) < r <= 0
  {
    var m := if b > 0 then b else -b;
    if a >= 0 then a % m else -((-a) % m)
  }

  /** `Int.kc.isEvenNum` (and `NSNumber`'s, on `int64Value`): `n % 2 == 0`. */
  predicate IsEvenNum(n: int)
  {
    SwiftRem(n, 2) == 0
  }

  /** Parity does not depend on the sign convention of `%`: `isEvenNum` holds
    * exactly for the multiples of two, negative ones included. */
  lemma IsEvenNumIff(n: int)
    ensures IsEvenNum(n) <==> n % 2 == 0
    ensures IsEvenNum(n) <==> exists k :: n == 2 * k
  {
    if n % 2 == 0 {
      assert n == 2 * (n / 2);
    }
    if IsEvenNum(n) {
      if n >= 0 {
        assert n == 2 * (n / 2);
      } else {
        assert -n == 2 * ((-n) / 2);
        assert n == 2 * (-((-n) / 2));
      }
    }
    if exists k :: n == 2 * k {
      var k :| n == 2 * k;
      if n >= 0 {
        assert n % 2 == 0;
      } else {
        assert -n == 2 * (-k);
      }
    }
  }

  /** The upper-case base-16 digits of `n`, no leading zeros, "0" for zero. */
  function NatToHex(n: nat): (r: string)
    ensures |r| >= 1 && Chars.AllHexDigits(r)
    ensures forall i :: 0 <= i < |r| ==> !('a' <= r[i] <= 'z')
    ensures n >= 16 ==> r[0] != '0'
  {
    if n < 16 then [Chars.HexDigitChar(n)] else NatToHex(n / 16) + [Chars.HexDigitChar(n % 16)]
  }

  /** `Int.kc.toHexString`: `String(n, radix: 16, uppercase: true)`, with a minus
    * sign before the digits of a negative number. */
  function ToHexString(n: int): (r: string)
    ensures n >= 0 ==> r == NatToHex(n)
    ensures n < 0 ==> r == "-" + NatToHex(-n)
  {
    if n < 0 then "-" + NatToHex(-n) else NatToHex(n)
  }

  /** The standard base-16 value of the digits is `n`. */
  lemma {:induction false} NatToHexValue(n: nat)
    ensures Chars.HexValue(NatToHex(n)) == n
  {
    var r := NatToHex(n);
    if n >= 16 {
      assert r[..|r| - 1] == NatToHex(n / 16);
      NatToHexValue(n / 16);
    } else {
      assert r[..0] == [];
    }
  }

  /** `toInt(hexString: n.kc.toHexString) == n` for every `n >= 0`: the parser
    * of `toInt(hexString:)` reads the rendering back. */
  lemma HexStringRoundTrip(n: nat)
    ensures StringNumbers.HexAccumulate(StringNumbers.Utf8Bytes(Chars.Uppercased(ToHexString(n)))) == n
  {
    StringNumbers.HexParserIsStandard(NatToHex(n));
    NatToHexValue(n);
  }

  /** `CGPoint.kc.midX` / `midY`: the average of two coordinates. */
  function MidCoordinate(a: real, b: real): (m: real)
    ensures m - a == b - m
  {
    (a + b) * 0.5
  }

  /** `CGPoint.kc.mid`: the point halfway between the two. */
  function Mid(p: CGPoint, q: CGPoint): (m: CGPoint)
    ensures m.x - p.x == q.x - m.x && m.y - p.y == q.y - m.y
  {
    CGPoint(MidCoordinate(p.x, q.x), MidCoordinate(p.y, q.y))
  }

  /** The midpoint does not depend on the order of the points, and a point is its
    * own midpoint. */
  lemma MidSymmetric(p: CGPoint, q: CGPoint)
    ensures Mid(p, q) == Mid(q, p)
    ensures Mid(p, p) == p
  {
  }

  /** `UIEdgeInsets(tb:lr:)`: the first of each pair is top / left, the second
    * bottom / right. */
  function EdgeInsets(tb: (real, real), lr: (real, real)): (e: UIEdgeInsets)
    ensures e.top == tb.0 && e.bottom == tb.1 && e.left == lr.0 && e.right == lr.1
  {
    UIEdgeInsets(tb.0, lr.0, tb.1, lr.1)
  }

  /** `NSDecimalNumber.RoundingMode`, the three `decimalNumber` uses. */
  datatype RoundingMode = Plain | Down | Up

  /** The mode `decimalNumber(_:decimal:isRound:)` hands to its handler. */
  function RoundingModeFor(number: real, isRound: bool): (m: RoundingMode)
    ensures isRound ==> m == Plain
    ensures !isRound && number >= 0.0 ==> m == Down
    ensures !isRound && number < 0.0 ==> m == Up
  {
    if isRound then Plain else if number >= 0.0 then Down else Up
  }

  /** The factor a scale of `k` decimals multiplies by: `10^k`, and for a
    * negative scale `1 / 10^-k`, which rounds to tens, hundreds, ... */
  function ScaleFactor(k: int): (p: real)
    ensures p > 0.0
  {
    if k >= 0 then Chars.Pow10(k) as real else 1.0 / Chars.Pow10(-k) as real
  }

  function Ceil(x: real): int
  {
    -((-x).Floor)
  }

  /** `rounding(accordingToBehavior:)` to `scale` decimals: `.down` and `.up`
    * round toward negative and positive infinity, `.plain` to the nearest with
    * halves away from zero. */
  function RoundTo(x: real, scale: int, mode: RoundingMode): real
  {
    var y := x * ScaleFactor(scale);
    var n := match mode
      case Down => y.Floor
      case Up => Ceil(y)
      case Plain => if y >= 0.0 then (y + 0.5).Floor else Ceil(y - 0.5);
    n as real / ScaleFactor(scale)
  }

  /** Truncation toward zero to `scale` decimals. */
  function Truncate(x: real, scale: int): real
  {
    var y := x * ScaleFactor(scale);
    (if y >= 0.0 then y.Floor else Ceil(y)) as real / ScaleFactor(scale)
  }

  /** `Int16(decimal)` traps outside the range of a 16-bit integer. */
  predicate IsInt16(k: int)
  {
    -0x8000 <= k < 0x8000
  }

  /** `decimalNumber(_:decimal:isRound:)`. `number` is what `NSDecimalNumber(string:)`
    * reads, `None` standing for `notANumber`, which the rounding leaves as it
    * is. */
  function DecimalNumber(number: Option<real>, decimal: int, isRound: bool): (r: Option<real>)
    requires IsInt16(decimal)
    ensures r.None? <==> number.None?
  {
    match number
    case None => None
    case Some(x) => Some(RoundTo(x, decimal, RoundingModeFor(x, isRound)))
  }

  /** Without rounding, `decimalNumber` truncates toward zero: `.down` for
    * non-negative numbers, `.up` for negative ones. */
  lemma DecimalNumberTruncates(number: real, decimal: int)
    requires IsInt16(decimal)
    ensures DecimalNumber(Some(number), decimal, false) == Some(Truncate(number, decimal))
  {
    var y := number * ScaleFactor(decimal);
    assert number >= 0.0 <==> y >= 0.0 by {
      ScaleKeepsSign(number, ScaleFactor(decimal));
    }
  }

  /** With rounding, the result is within half a unit of the last kept place,
    * on either side. */
  lemma DecimalNumberRoundsToNearest(number: real, decimal: int)
    requires IsInt16(decimal)
    ensures var p := ScaleFactor(decimal);
      var r := DecimalNumber(Some(number), decimal, true).value;
      -0.5 <= (r - number) * p <= 0.5
  {
    var p := ScaleFactor(decimal);
    var y := number * p;
    var n: real := (if y >= 0.0 then (y + 0.5).Floor else Ceil(y - 0.5)) as real;
    assert -0.5 <= n - y <= 0.5;
    assert n / p * p == n;
    assert (n / p - number) * p == n - y;
  }

  lemma ScaleKeepsSign(x: real, p: real)
    requires p > 0.0
    ensures x >= 0.0 <==> x * p >= 0.0
  {
    if x < 0.0 {
      assert x * p < 0.0;
    }
  }

  /** The truncated value never moves away from zero. */
  lemma TruncateTowardZero(x: real, scale: int)
    ensures x >= 0.0 ==> 0.0 <= Truncate(x, scale) <= x
    ensures x < 0.0 ==> x <= Truncate(x, scale) <= 0.0
  {
    var p := ScaleFactor(scale);
    var y := x * p;
    ScaleKeepsSign(x, p);
    var n: real := (if y >= 0.0 then y.Floor else Ceil(y)) as real;
    assert y >= 0.0 ==> 0.0 <= n <= y;
    assert y < 0.0 ==> y <= n <= 0.0;
    assert n / p * p == n;
    if x >= 0.0 {
      assert n / p <= x by {
        assert n <= x * p;
      }
    } else {
      assert x <= n / p by {
        assert x * p <= n;
      }
    }
  }
}
