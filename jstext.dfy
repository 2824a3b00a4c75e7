/**
 * JavaScript strings as the browser scripts see them: sequences of UTF-16 code units,
 * with the few built-in string operations those scripts use.
 */
module JsText {
  import opened Wrappers
  import Decimal

  /** One UTF-16 code unit (what `charCodeAt` returns). */
  type CodeUnit = x: int | 0 <= x < 0x1_0000

  type JsString = seq<CodeUnit>

  /** The UTF-16 encoding of one Unicode scalar value: one unit in the BMP, a surrogate pair above it. */
  function Utf16Char(c: char): (r: JsString)
    ensures |r| == if c as int < 0x1_0000 then 1 else 2
  {
    var n := c as int;
    if n < 0x1_0000 then [n as CodeUnit]
    else [(0xD800 + (n - 0x1_0000) / 0x400) as CodeUnit, (0xDC00 + (n - 0x1_0000) % 0x400) as CodeUnit]
  }

  /** The UTF-16 encoding of a string of Unicode scalar values. */
  function Utf16(s: string): (r: JsString)
  {
    if s == [] then [] else Utf16Char(s[0]) + Utf16(s[1..])
  }

  lemma {:induction false} Utf16Append(a: string, b: string)
    ensures Utf16(a + b) == Utf16(a) + Utf16(b)
  {
    if a != [] {
      assert (a + b)[0] == a[0] && (a + b)[1..] == a[1..] + b;
      Utf16Append(a[1..], b);
    } else {
      assert a + b == b;
    }
  }

  /** Text of the Basic Multilingual Plane is encoded unit for unit. */
  lemma {:induction false} Utf16Bmp(s: string)
    requires forall i | 0 <= i < |s| :: s[i] as int < 0x1_0000
    ensures |Utf16(s)| == |s|
    ensures forall i | 0 <= i < |s| :: Utf16(s)[i] == s[i] as int
  {
    if s != [] {
      Utf16Bmp(s[1..]);
    }
  }

  /**
   * The white space of ECMAScript's `\s`, `trim()` and `parseInt`: the WhiteSpace and
   * LineTerminator code points (section 12.2 and 12.3 of ECMA-262), all of which lie in the BMP.
   */
  predicate IsWhiteSpace(u: CodeUnit) {
    u == 0x09 || u == 0x0A || u == 0x0B || u == 0x0C || u == 0x0D || u == 0x20 || u == 0xA0
    || u == 0x1680 || (0x2000 <= u <= 0x200A) || u == 0x2028 || u == 0x2029 || u == 0x202F
    || u == 0x205F || u == 0x3000 || u == 0xFEFF
  }

  /** The number of white-space units at the start of `s`. */
  function LeadingWhiteSpace(s: JsString): (k: nat)
    ensures k <= |s|
    ensures forall i | 0 <= i < k :: IsWhiteSpace(s[i])
    ensures k < |s| ==> !IsWhiteSpace(s[k])
  {
    if s == [] || !IsWhiteSpace(s[0]) then 0 else 1 + LeadingWhiteSpace(s[1..])
  }

  /** The number of white-space units at the end of `s`. */
  function TrailingWhiteSpace(s: JsString): (k: nat)
    ensures k <= |s|
    ensures forall i | |s| - k <= i < |s| :: IsWhiteSpace(s[i])
    ensures k < |s| ==> !IsWhiteSpace(s[|s| - 1 - k])
  {
    if s == [] || !IsWhiteSpace(s[|s| - 1]) then 0 else 1 + TrailingWhiteSpace(s[..|s| - 1])
  }

  function TrimStart(s: JsString): JsString {
    s[LeadingWhiteSpace(s)..]
  }

  /** `s.trim()`. */
  function Trim(s: JsString): JsString {
    var t := TrimStart(s);
    t[..|t| - TrailingWhiteSpace(t)]
  }

  /** Trimming leaves nothing exactly when the text is all white space, and otherwise leaves no white space at either end. */
  lemma TrimProperties(s: JsString)
    ensures Trim(s) == [] <==> forall i | 0 <= i < |s| :: IsWhiteSpace(s[i])
    ensures Trim(s) != [] ==> !IsWhiteSpace(Trim(s)[0]) && !IsWhiteSpace(Trim(s)[|Trim(s)| - 1])
  {
    var k := LeadingWhiteSpace(s);
    var t := TrimStart(s);
    var j := TrailingWhiteSpace(t);
    if k < |s| {
      assert t[0] == s[k];
      assert j < |t|;
      assert !(forall i | 0 <= i < |s| :: IsWhiteSpace(s[i])) by {
        assert !IsWhiteSpace(s[k]);
      }
    }
  }

  /** `needle` occurs in `hay` starting at position `i`. */
  predicate OccursAt(hay: JsString, needle: JsString, i: int) {
    0 <= i <= |hay| - |needle| && hay[i..i + |needle|] == needle
  }

  /** `hay.includes(needle)`. */
  predicate Contains(hay: JsString, needle: JsString) {
    exists i | 0 <= i <= |hay| - |needle| :: OccursAt(hay, needle, i)
  }

  function LowerUnit(u: CodeUnit): CodeUnit {
    if 0x41 <= u <= 0x5A then u + 0x20 else u
  }

  /** `toLowerCase()` restricted to the Basic Latin letters A-Z. */
  function AsciiLower(s: JsString): (r: JsString)
    ensures |r| == |s|
  {
    seq(|s|, i requires 0 <= i < |s| => LowerUnit(s[i]))
  }

  lemma AsciiLowerIdempotent(s: JsString)
    ensures AsciiLower(AsciiLower(s)) == AsciiLower(s)
  {
  }

  /** The value of a unit read as a digit of radix up to 36, or 36 when it is not a digit at all. */
  function DigitValue(u: CodeUnit): nat {
    if 0x30 <= u <= 0x39 then u - 0x30
    else if 0x61 <= u <= 0x7A then u - 0x61 + 10
    else if 0x41 <= u <= 0x5A then u - 0x41 + 10
    else 36
  }

  /** The length of the longest prefix of `s` made of digits of `radix`. */
  function DigitRun(s: JsString, radix: nat): (k: nat)
    ensures k <= |s|
    ensures forall i | 0 <= i < k :: DigitValue(s[i]) < radix
    ensures k < |s| ==> DigitValue(s[k]) >= radix
  {
    if s == [] || DigitValue(s[0]) >= radix then 0 else 1 + DigitRun(s[1..], radix)
  }

  /** The number a run of digits denotes in `radix`. */
  function RadixValue(ds: JsString, radix: nat): nat {
    if ds == [] then 0 else RadixValue(ds[..|ds| - 1], radix) * radix + DigitValue(ds[|ds| - 1])
  }

  /** The digits of `u` after an optional `0x`/`0X` prefix, read in radix 16 after the prefix and 10 otherwise. */
  function ParseUnsigned(u: JsString): Option<nat> {
    var hex := |u| >= 2 && u[0] == 0x30 && (u[1] == 0x78 || u[1] == 0x58);
    var radix := if hex then 16 else 10;
    var v := if hex then u[2..] else u;
    var k := DigitRun(v, radix);
    if k == 0 then None else Some(RadixValue(v[..k], radix))
  }

  /** `v` negated when `t` starts with `-`. */
  function ApplySign(t: JsString, v: nat): int {
    if t != [] && t[0] == 0x2D then -(v as int) else v
  }

  /** `t` without its leading sign, if it has one. */
  function WithoutSign(t: JsString): JsString {
    if t != [] && (t[0] == 0x2D || t[0] == 0x2B) then t[1..] else t
  }

  /**
   * `parseInt(s)` without a radix (section 19.2.5 of ECMA-262): skip leading white space, read an
   * optional sign, switch to radix 16 after a `0x`/`0X` prefix, and read the longest run of digits.
   * `None` is NaN. Results are exact integers, not doubles.
   */
  function ParseInt(s: JsString): Option<int> {
    ParseSigned(TrimStart(s))
  }

  /** The number at the start of `t`, with its optional sign. */
  function ParseSigned(t: JsString): Option<int> {
    match ParseUnsigned(WithoutSign(t))
    case None => None
    case Some(v) => Some(ApplySign(t, v))
  }

  /** Decimal digits read in radix 10 give the value Java and JavaScript print them for. */
  lemma {:induction false} RadixValueOfDecimal(d: string)
    requires forall i | 0 <= i < |d| :: Decimal.IsDigit(d[i])
    ensures |Utf16(d)| == |d|
    ensures RadixValue(Utf16(d), 10) == Decimal.DigitsValue(d)
  {
    Utf16Bmp(d);
    if d != [] {
      var n := |d| - 1;
      Utf16Bmp(d[..n]);
      assert Utf16(d)[..n] == Utf16(d[..n]);
      RadixValueOfDecimal(d[..n]);
    }
  }

  /** A non-empty run of decimal digits, with or without a leading minus sign. */
  lemma ParseIntOfDigits(ud: JsString)
    requires |ud| > 0 && forall i | 0 <= i < |ud| :: 0x30 <= ud[i] <= 0x39
    ensures ParseInt(ud) == Some(RadixValue(ud, 10))
    ensures ParseInt([0x2D] + ud) == Some(-(RadixValue(ud, 10) as int))
  {
    ParseUnsignedOfDigits(ud);
    PositiveDigits(ud);
    NegativeDigits(ud, [0x2D] + ud);
  }

  /** Text starting with a digit is read without a sign. */
  lemma PositiveDigits(ud: JsString)
    requires |ud| > 0 && 0x30 <= ud[0] <= 0x39
    ensures ParseUnsigned(ud).Some? ==> ParseInt(ud) == Some(ParseUnsigned(ud).value)
  {
    NoLeadingWhiteSpace(ud);
    assert !(ud[0] == 0x2D || ud[0] == 0x2B);
  }

  lemma NegativeDigits(ud: JsString, neg: JsString)
    requires |ud| > 0 && 0x30 <= ud[0] <= 0x39 && neg == [0x2D] + ud
    requires ParseUnsigned(ud) == Some(RadixValue(ud, 10))
    ensures ParseInt(neg) == Some(-(RadixValue(ud, 10) as int))
  {
    NoLeadingWhiteSpace(neg);
    assert neg[1..] == ud;
    assert WithoutSign(neg) == ud;
  }

  lemma NoLeadingWhiteSpace(t: JsString)
    requires |t| > 0 && (t[0] == 0x2D || 0x30 <= t[0] <= 0x39)
    ensures TrimStart(t) == t
  {
    assert !IsWhiteSpace(t[0]);
    assert LeadingWhiteSpace(t) == 0;
  }

  lemma ParseUnsignedOfDigits(ud: JsString)
    requires |ud| > 0 && forall i | 0 <= i < |ud| :: 0x30 <= ud[i] <= 0x39
    ensures ParseUnsigned(ud) == Some(RadixValue(ud, 10))
  {
    var k := DigitRun(ud, 10);
    assert k == |ud|;
    assert ud[..k] == ud;
    if |ud| >= 2 {
      assert 0x30 <= ud[1] <= 0x39;
    }
  }

  /** `parseInt` reads back every integer's decimal rendering. */
  lemma ParseIntRoundTrip(n: int)
    ensures ParseInt(Utf16(Decimal.IntToDecimal(n))) == Some(n)
  {
    var m: nat := if n < 0 then -n else n;
    var d := Decimal.NatToDecimal(m);
    RadixValueOfDecimal(d);
    Decimal.NatToDecimalRoundTrip(m);
    var ud := Utf16(d);
    Utf16Bmp(d);
    assert forall i | 0 <= i < |ud| :: 0x30 <= ud[i] <= 0x39 by {
      forall i | 0 <= i < |ud| ensures 0x30 <= ud[i] <= 0x39 {
        assert Decimal.IsDigit(d[i]);
      }
    }
    ParseIntOfDigits(ud);
    if n < 0 {
      assert Decimal.IntToDecimal(n) == "-" + d;
      Utf16Append("-", d);
    }
  }

  /** `${n}` for an integer `n`: its decimal numeral as code units. */
  function JsDecimal(n: int): JsString {
    Utf16(Decimal.IntToDecimal(n))
  }

  /** A numeral holds only decimal digits and the minus sign. */
  lemma JsDecimalUnits(n: int)
    ensures forall i | 0 <= i < |JsDecimal(n)| :: JsDecimal(n)[i] == 0x2D || 0x30 <= JsDecimal(n)[i] <= 0x39
  {
    var d := Decimal.IntToDecimal(n);
    var m := if n < 0 then -n else n;
    assert forall i | 0 <= i < |d| :: d[i] == '-' || Decimal.IsDigit(d[i]) by {
      if n < 0 {
        forall i | 0 <= i < |d| ensures d[i] == '-' || Decimal.IsDigit(d[i]) {
          if i > 0 {
            assert d[i] == Decimal.NatToDecimal(m)[i - 1];
          }
        }
      }
    }
    Utf16Bmp(d);
  }

  lemma JsDecimalInjective(m: int, n: int)
    requires JsDecimal(m) == JsDecimal(n)
    ensures m == n
  {
    ParseIntRoundTrip(m);
    ParseIntRoundTrip(n);
  }
}
