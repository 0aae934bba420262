/**
 * UTF-16 as Java strings hold it: `Character.toChars` (the encoding of
 * section 2.1 of RFC 2781) and the table's `hexString`, which decodes one
 * unit or a surrogate pair (section 2.2 of RFC 2781) and prints the code
 * point with `Integer.toHexString`.
 */
module Utf16 {
  import opened Wrappers
  import opened Hex

  /** One UTF-16 code unit, a Java `char`. */
  type CodeUnit = u: int | 0 <= u < 0x1_0000

  predicate IsHighSurrogate(u: int) { 0xD800 <= u <= 0xDBFF }

  predicate IsLowSurrogate(u: int) { 0xDC00 <= u <= 0xDFFF }

  /** Java's `Character.isValidCodePoint`: surrogate code points included. */
  predicate IsValidCodePoint(cp: int) { 0 <= cp <= 0x10FFFF }

  predicate IsSupplementary(cp: int) { 0x10000 <= cp <= 0x10FFFF }

  /** The strings `Character.toChars` can produce: one unit, or a high surrogate followed by a low one. */
  predicate IsGlyph(g: seq<CodeUnit>) {
    |g| == 1 || (|g| == 2 && IsHighSurrogate(g[0]) && IsLowSurrogate(g[1]))
  }

  function HighSurrogate(cp: int): (u: CodeUnit)
    requires IsSupplementary(cp)
    ensures IsHighSurrogate(u)
  {
    cp / 0x400 + (0xD800 - 0x10000 / 0x400)
  }

  function LowSurrogate(cp: int): (u: CodeUnit)
    requires IsSupplementary(cp)
    ensures IsLowSurrogate(u)
  {
    cp % 0x400 + 0xDC00
  }

  /** `Character.toChars(cp)`; `None` is its IllegalArgumentException. */
  function ToChars(cp: int): (r: Option<seq<CodeUnit>>)
    ensures r.Some? <==> IsValidCodePoint(cp)
    ensures r.Some? ==> IsGlyph(r.value) && (|r.value| == 1 <==> cp < 0x10000)
  {
    if !IsValidCodePoint(cp) then None
    else if cp < 0x10000 then Some([cp])
    else Some([HighSurrogate(cp), LowSurrogate(cp)])
  }

  /** The Java int expression `((hi - 0xD800) * 0x400) + (lo - 0xDC00) + 0x10000` of `hexString`. */
  function DecodePair(hi: CodeUnit, lo: CodeUnit): (v: int)
    ensures IsInt32(v)
    ensures IsHighSurrogate(hi) && IsLowSurrogate(lo) ==> IsSupplementary(v)
  {
    (hi - 0xD800) * 0x400 + (lo - 0xDC00) + 0x10000
  }

  /** Decoding undoes encoding on supplementary code points. */
  lemma DecodeOfEncode(cp: int)
    requires IsSupplementary(cp)
    ensures DecodePair(HighSurrogate(cp), LowSurrogate(cp)) == cp
  {}

  /** Encoding undoes decoding on well-formed pairs. */
  lemma EncodeOfDecode(hi: CodeUnit, lo: CodeUnit)
    requires IsHighSurrogate(hi) && IsLowSurrogate(lo)
    ensures ToChars(DecodePair(hi, lo)) == Some([hi, lo])
  {
    var cp := DecodePair(hi, lo);
    assert cp == (hi - 0xD7C0) * 0x400 + (lo - 0xDC00);
    assert cp / 0x400 == hi - 0xD7C0;
    assert cp % 0x400 == lo - 0xDC00;
  }

  /**
   * `hexString(utf)`. `None` is the out-of-bounds exception on an empty
   * string; from two units on, only the first two are read, and a pair that
   * is not well formed can give a negative int, printed unsigned.
   */
  function HexString(utf: seq<CodeUnit>): (r: Option<string>)
    ensures r.None? <==> |utf| == 0
    ensures r.Some? ==> IsCanonical(r.value) && |r.value| <= 8
    ensures |utf| == 1 ==> r.Some? && ParseHex(r.value) == utf[0]
    ensures |utf| >= 2 ==> r.Some? && ParseHex(r.value) == DecodePair(utf[0], utf[1]) % TwoTo32
    ensures |utf| >= 2 && IsHighSurrogate(utf[0]) && IsLowSurrogate(utf[1]) ==>
              r.Some? && IsSupplementary(ParseHex(r.value))
  {
    if |utf| == 0 then None
    else if |utf| == 1 then Some(ToHexString(utf[0]))
    else Some(ToHexString(DecodePair(utf[0], utf[1])))
  }

  /** Round trip code point -> `toChars` -> `hexString`: the hex of every valid code point comes back. */
  lemma HexStringOfToChars(cp: int)
    requires IsValidCodePoint(cp)
    ensures HexString(ToChars(cp).value) == Some(ToHex(cp))
  {
    if cp >= 0x10000 {
      DecodeOfEncode(cp);
    }
  }

  /** Round trip glyph -> `hexString` -> `toChars`: every glyph the table can hold is rebuilt from its hex. */
  lemma ToCharsOfHexString(g: seq<CodeUnit>)
    requires IsGlyph(g)
    ensures HexString(g).Some?
    ensures ToChars(ParseHex(HexString(g).value)) == Some(g)
  {
    if |g| == 2 {
      PairRoundTrip(g[0], g[1]);
      assert g == [g[0], g[1]];
    } else {
      assert g == [g[0]];
      UnitRoundTrip(g[0]);
    }
  }

  lemma UnitRoundTrip(u: CodeUnit)
    ensures ToChars(ParseHex(HexString([u]).value)) == Some([u])
  {}

  lemma PairRoundTrip(hi: CodeUnit, lo: CodeUnit)
    requires IsHighSurrogate(hi) && IsLowSurrogate(lo)
    ensures ToChars(ParseHex(HexString([hi, lo]).value)) == Some([hi, lo])
  {
    var cp := DecodePair(hi, lo);
    assert ParseHex(HexString([hi, lo]).value) == cp;
    EncodeOfDecode(hi, lo);
  }
}
