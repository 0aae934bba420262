/**
 * The strings the table's right-click menu hands to the clipboard for a
 * glyph cell: "Copy as Unicode" (`"U+" + hexString(g)`) and "Copy as HTML
 * entity" (`"&#x" + hexString(g) + ';'`). `None` is `hexString`'s exception
 * on an empty cell.
 */
module CopyFormats {
  import opened Wrappers
  import opened Hex
  import opened Utf16

  const UnicodePrefix := "U+"
  const EntityPrefix := "&#x"
  const EntitySuffix := ";"

  function CopyAsUnicode(glyph: seq<CodeUnit>): (r: Option<string>)
    ensures r.Some? <==> |glyph| >= 1
    ensures r.Some? ==> |r.value| >= 3 && r.value[..2] == UnicodePrefix && IsCanonical(r.value[2..])
  {
    match HexString(glyph)
    case None => None
    case Some(h) => Some(UnicodePrefix + h)
  }

  function CopyAsHtmlEntity(glyph: seq<CodeUnit>): (r: Option<string>)
    ensures r.Some? <==> |glyph| >= 1
    ensures r.Some? ==> |r.value| >= 5 && r.value[..3] == EntityPrefix && r.value[|r.value| - 1] == ';'
                        && IsCanonical(r.value[3..|r.value| - 1])
  {
    match HexString(glyph)
    case None => None
    case Some(h) => Some(EntityPrefix + h + EntitySuffix)
  }

  /**
   * For the glyph of a code point, both notations carry the code point's
   * hex, and reading that hex back gives the code point.
   */
  lemma CopiedNotationsReadBack(cp: int)
    requires IsValidCodePoint(cp)
    ensures var g := ToChars(cp).value;
            && CopyAsUnicode(g) == Some(UnicodePrefix + ToHex(cp))
            && CopyAsHtmlEntity(g) == Some(EntityPrefix + ToHex(cp) + EntitySuffix)
            && ParseHex(CopyAsUnicode(g).value[2..]) == cp
            && ParseHex(CopyAsHtmlEntity(g).value[3..|CopyAsHtmlEntity(g).value| - 1]) == cp
  {
    HexStringOfToChars(cp);
    ParseHexOfToHex(cp);
    var h := ToHex(cp);
    assert (UnicodePrefix + h)[2..] == h;
    assert (EntityPrefix + h + EntitySuffix)[3..|EntityPrefix + h + EntitySuffix| - 1] == h;
  }
}
