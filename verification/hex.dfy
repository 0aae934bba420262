/**
 * Hexadecimal digit strings: Java's `Integer.toHexString` (lower case, no
 * leading zeros, "0" for zero, the two's-complement bit pattern for negative
 * ints) and the digit parsing shared by `Integer.decode` and Python's `int(_, 16)`.
 */
module Hex {

  predicate IsLowerHexDigit(c: char) {
    '0' <= c <= '9' || 'a' <= c <= 'f'
  }

  predicate IsHexDigit(c: char) {
    '0' <= c <= '9' || 'a' <= c <= 'f' || 'A' <= c <= 'F'
  }

  predicate AllHexDigits(s: string) {
    forall i :: 0 <= i < |s| ==> IsHexDigit(s[i])
  }

  /** The shape of everything `Integer.toHexString` prints. */
  predicate IsCanonical(s: string) {
    && |s| >= 1
    && (forall i :: 0 <= i < |s| ==> IsLowerHexDigit(s[i]))
    && (|s| > 1 ==> s[0] != '0')
  }

  function DigitValue(c: char): (d: nat)
    requires IsHexDigit(c)
    ensures d < 16
    ensures d == 0 <==> c == '0'
  {
    if '0' <= c <= '9' then c as int - '0' as int
    else if 'a' <= c <= 'f' then c as int - 'a' as int + 10
    else c as int - 'A' as int + 10
  }

  function DigitChar(d: nat): (c: char)
    requires d < 16
    ensures IsLowerHexDigit(c)
    ensures DigitValue(c) == d
  {
    if d < 10 then ('0' as int + d) as char else ('a' as int + d - 10) as char
  }

  lemma LowerDigitRoundTrip(c: char)
    requires IsLowerHexDigit(c)
    ensures DigitChar(DigitValue(c)) == c
  {}

  function Pow16(k: nat): (p: nat)
    ensures p >= 1
  {
    if k == 0 then 1 else 16 * Pow16(k - 1)
  }

  /** Hexadecimal rendering of a non-negative number. */
  function ToHex(n: nat): (s: string)
    ensures IsCanonical(s)
    ensures s[0] == '0' <==> n == 0
    decreases n
  {
    if n < 16 then [DigitChar(n)] else ToHex(n / 16) + [DigitChar(n % 16)]
  }

  /** Value of a string of hexadecimal digits of either case, read most significant first. */
  function ParseHex(s: string): nat
    requires AllHexDigits(s)
    decreases |s|
  {
    if |s| == 0 then 0 else ParseHex(s[..|s| - 1]) * 16 + DigitValue(s[|s| - 1])
  }

  lemma {:induction false} ParseHexOfToHex(n: nat)
    ensures ParseHex(ToHex(n)) == n
    decreases n
  {
    if n >= 16 {
      var s := ToHex(n);
      assert s[..|s| - 1] == ToHex(n / 16);
      ParseHexOfToHex(n / 16);
    }
  }

  lemma {:induction false} ParseHexPositive(s: string)
    requires AllHexDigits(s) && |s| >= 1 && s[0] != '0'
    ensures ParseHex(s) >= Pow16(|s| - 1)
    decreases |s|
  {
    if |s| > 1 {
      ParseHexPositive(s[..|s| - 1]);
    }
  }

  /** A canonical string is the rendering of its own value: `ToHex` and `ParseHex` are inverse on canonical strings. */
  lemma {:induction false} ToHexOfCanonical(s: string)
    requires IsCanonical(s)
    ensures ToHex(ParseHex(s)) == s
    decreases |s|
  {
    var last := s[|s| - 1];
    LowerDigitRoundTrip(last);
    if |s| > 1 {
      var p := s[..|s| - 1];
      ParseHexPositive(p);
      ToHexOfCanonical(p);
      var n := ParseHex(s);
      assert n / 16 == ParseHex(p) && n % 16 == DigitValue(last);
      assert s == p + [last];
    }
  }

  lemma {:induction false} ToHexLength(n: nat, k: nat)
    requires 1 <= k && n < Pow16(k)
    ensures |ToHex(n)| <= k
    decreases k
  {
    if n >= 16 {
      assert k >= 2;
      ToHexLength(n / 16, k - 1);
    }
  }

  /** `s` without its redundant leading zeros; a lone "0" stays. */
  function StripLeadingZeros(s: string): (t: string)
    ensures |s| >= 1 ==> |t| >= 1
    ensures |t| > 1 ==> t[0] != '0'
    ensures AllHexDigits(s) ==> AllHexDigits(t)
    decreases |s|
  {
    if |s| > 1 && s[0] == '0' then StripLeadingZeros(s[1..]) else s
  }

  function LowerChar(c: char): char {
    if 'A' <= c <= 'F' then (c as int - 'A' as int + 'a' as int) as char else c
  }

  function LowerHex(s: string): (t: string)
    requires AllHexDigits(s)
    ensures |t| == |s|
    ensures forall i :: 0 <= i < |t| ==> IsLowerHexDigit(t[i]) && DigitValue(t[i]) == DigitValue(s[i])
  {
    seq(|s|, i requires 0 <= i < |s| => LowerChar(s[i]))
  }

  lemma {:induction false} ParseHexOfLower(s: string)
    requires AllHexDigits(s)
    ensures ParseHex(LowerHex(s)) == ParseHex(s)
    decreases |s|
  {
    if |s| > 0 {
      assert LowerHex(s)[..|s| - 1] == LowerHex(s[..|s| - 1]);
      ParseHexOfLower(s[..|s| - 1]);
    }
  }

  lemma {:induction false} ParseHexIgnoresLeadingZero(t: string)
    requires AllHexDigits(t)
    ensures AllHexDigits("0" + t) && ParseHex("0" + t) == ParseHex(t)
    decreases |t|
  {
    if |t| > 0 {
      var u := "0" + t;
      assert u[..|u| - 1] == "0" + t[..|t| - 1];
      ParseHexIgnoresLeadingZero(t[..|t| - 1]);
    }
  }

  lemma {:induction false} ParseHexOfStripped(s: string)
    requires AllHexDigits(s)
    ensures ParseHex(StripLeadingZeros(s)) == ParseHex(s)
    decreases |s|
  {
    if |s| > 1 && s[0] == '0' {
      assert s == "0" + s[1..];
      ParseHexIgnoresLeadingZero(s[1..]);
      ParseHexOfStripped(s[1..]);
    }
  }

  /** Reading any digit string and printing it back yields its normal form: lower case, leading zeros removed. */
  lemma ToHexOfParseHex(s: string)
    requires AllHexDigits(s) && |s| >= 1
    ensures ToHex(ParseHex(s)) == LowerHex(StripLeadingZeros(s))
  {
    var t := StripLeadingZeros(s);
    ParseHexOfStripped(s);
    ParseHexOfLower(t);
    ToHexOfCanonical(LowerHex(t));
  }

  const TwoTo32: int := 0x1_0000_0000

  predicate IsInt32(v: int) {
    -0x8000_0000 <= v < 0x8000_0000
  }

  /** Java's `Integer.toHexString`: the unsigned 32-bit reading of `v`, in at most eight lower-case digits. */
  function ToHexString(v: int): (s: string)
    requires IsInt32(v)
    ensures IsCanonical(s) && |s| <= 8
    ensures ParseHex(s) == v % TwoTo32
    ensures v >= 0 ==> s == ToHex(v)
  {
    var u := if v < 0 then v + TwoTo32 else v;
    assert Pow16(8) == TwoTo32;
    ToHexLength(u, 8);
    ParseHexOfToHex(u);
    ToHex(u)
  }
}
