/**
 * The older `unicode` version. Its key handler clears the table rows,
 * splices the search text unescaped into a LIKE pattern, and reads at most
 * 500 result rows; for each it appends column 1 (the block) to CODE_BLOCKS
 * and then a table row holding the glyph `Character.toChars(Integer.decode("0x" + column 2))`
 * and column 3 (the description).
 */
module LegacyTable {
  import opened Wrappers
  import opened Hex
  import opened Text
  import opened Utf16
  import opened TableModel
  import opened CopyFormats

  const SelectLike := "SELECT * FROM unicode WHERE description LIKE "
  const PatternOpen := "'%"
  const PatternClose := "%'"
  const RowCap := 500

  /**
   * Result columns 1..3 as this handler reads them: block name, hexadecimal
   * code point, description. This is not the column order `gen_table.py`
   * creates, so the rows are taken as given.
   */
  datatype LegacyRow = LegacyRow(block: string, hexCode: string, description: string)

  type Database = string -> seq<LegacyRow>

  /** The statement text, with the search text spliced between the wildcards as is. */
  function SearchSql(text: string): (sql: string)
    ensures StartsWith(sql, SelectLike + PatternOpen) && EndsWith(sql, PatternClose)
    ensures |sql| == |SelectLike + PatternOpen| + |text| + |PatternClose|
    ensures sql[|SelectLike + PatternOpen|..|sql| - |PatternClose|] == text
  {
    var sql := SelectLike + PatternOpen + text + PatternClose;
    assert sql[..|SelectLike + PatternOpen|] == SelectLike + PatternOpen;
    assert sql[|sql| - |PatternClose|..] == PatternClose;
    assert sql[|SelectLike + PatternOpen|..|sql| - |PatternClose|] == text;
    sql
  }

  lemma SelectLikeHasNoQuote()
    ensures CountChar(SelectLike, '\'') == 0
  {
    assert SelectLike == "SELECT * FROM " + "unicode WHERE " + "description LIKE ";
    assert '\'' !in "SELECT * FROM ";
    assert '\'' !in "unicode WHERE ";
    assert '\'' !in "description LIKE ";
  }

  lemma QuotesOfPattern()
    ensures CountChar(PatternOpen, '\'') == 1 && CountChar(PatternClose, '\'') == 1
  {
    assert PatternOpen[..1] == "'";
    assert PatternClose[..1] == "%";
  }

  /**
   * Nothing is escaped: the pattern's quotes are the only ones in the
   * statement exactly when the search text has none.
   */
  lemma PatternIntactIffNoQuote(text: string)
    ensures CountChar(SearchSql(text), '\'') == 2 + CountChar(text, '\'')
    ensures CountChar(SearchSql(text), '\'') == 2 <==> '\'' !in text
  {
    SelectLikeHasNoQuote();
    QuotesOfPattern();
    CountCharConcat(SelectLike, PatternOpen, '\'');
    CountCharConcat(SelectLike + PatternOpen, text, '\'');
    CountCharConcat(SelectLike + PatternOpen + text, PatternClose, '\'');
  }

  /** `Integer.decode("0x" + hex)`; `None` is its NumberFormatException (empty, a non-digit or a sign, above 0x7FFFFFFF). */
  function DecodeCode(hex: string): (r: Option<int>)
    ensures r.Some? <==> |hex| >= 1 && AllHexDigits(hex) && ParseHex(hex) < 0x8000_0000
    ensures r.Some? ==> r.value == ParseHex(hex)
  {
    if |hex| >= 1 && AllHexDigits(hex) && ParseHex(hex) < 0x8000_0000 then Some(ParseHex(hex)) else None
  }

  /** The glyph cell of a result row; `None` is the exception of `Integer.decode` or of `Character.toChars`. */
  function LegacyGlyph(row: LegacyRow): (r: Option<seq<CodeUnit>>)
    ensures r.Some? <==> |row.hexCode| >= 1 && AllHexDigits(row.hexCode) && ParseHex(row.hexCode) <= 0x10FFFF
    ensures r.Some? ==> IsGlyph(r.value)
  {
    match DecodeCode(row.hexCode)
    case None => None
    case Some(cp) => ToChars(cp)
  }

  /** The glyph of a row prints back as its column 2, lower-cased and without leading zeros. */
  lemma LegacyGlyphHex(row: LegacyRow)
    requires LegacyGlyph(row).Some?
    ensures HexString(LegacyGlyph(row).value) == Some(LowerHex(StripLeadingZeros(row.hexCode)))
  {
    var cp := ParseHex(row.hexCode);
    HexStringOfToChars(cp);
    ToHexOfParseHex(row.hexCode);
  }

  /** "Copy as Unicode" (the only notation this version offers) on a row's glyph. */
  lemma LegacyCopyAsUnicode(row: LegacyRow)
    requires LegacyGlyph(row).Some?
    ensures CopyAsUnicode(LegacyGlyph(row).value) == Some(UnicodePrefix + LowerHex(StripLeadingZeros(row.hexCode)))
  {
    LegacyGlyphHex(row);
  }

  /**
   * `keyReleased`: the `for (i = 0; i != 500; i++)` loop with its `break` at
   * the end of the results. `aborted` is the decode or `toChars` exception,
   * raised after that row's block was added; it leaves the handler.
   */
  method KeyReleased(w: Window, text: string, db: Database)
    returns (sql: string, w': Window, added: nat, aborted: bool)
    ensures sql == SearchSql(text)
    ensures added <= RowCap && added <= |db(sql)|
    ensures !aborted ==> added == if |db(sql)| < RowCap then |db(sql)| else RowCap
    ensures aborted ==> added < RowCap && added < |db(sql)| && LegacyGlyph(db(sql)[added]).None?
    ensures |w'.rows| == added
    ensures forall i :: 0 <= i < added ==>
              LegacyGlyph(db(sql)[i]).Some? && w'.rows[i] == TableRow(LegacyGlyph(db(sql)[i]).value, db(sql)[i].description)
    ensures var consumed := if aborted then added + 1 else added;
            |w'.codeBlocks| == |w.codeBlocks| + consumed && w'.codeBlocks[..|w.codeBlocks|] == w.codeBlocks
            && forall i :: 0 <= i < consumed ==> w'.codeBlocks[|w.codeBlocks| + i] == db(sql)[i].block
  {
    sql := SearchSql(text);
    var results := db(sql);
    var rows: seq<TableRow> := [];
    var blocks := w.codeBlocks;
    aborted := false;
    var i := 0;
    while i != RowCap
      invariant 0 <= i <= RowCap && i <= |results|
      invariant |rows| == i
      invariant forall j :: 0 <= j < i ==>
                  LegacyGlyph(results[j]).Some? && rows[j] == TableRow(LegacyGlyph(results[j]).value, results[j].description)
      invariant |blocks| == |w.codeBlocks| + i && blocks[..|w.codeBlocks|] == w.codeBlocks
      invariant forall j :: 0 <= j < i ==> blocks[|w.codeBlocks| + j] == results[j].block
      decreases RowCap - i
    {
      if i < |results| {
        blocks := blocks + [results[i].block];
        var glyph := LegacyGlyph(results[i]);
        if glyph.None? {
          aborted := true;
          break;
        }
        rows := rows + [TableRow(glyph.value, results[i].description)];
        i := i + 1;
      } else {
        break;
      }
    }
    w' := Window(rows, blocks);
    added := i;
  }
}
