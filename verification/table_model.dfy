/**
 * The window's state that both versions of the program keep: the table
 * rows (glyph and description columns) and CODE_BLOCKS, the list of block
 * names the glyph renderer reads by row index for its tooltip.
 */
module TableModel {
  import opened Wrappers
  import opened Utf16

  datatype TableRow = TableRow(glyph: seq<CodeUnit>, description: string)

  datatype Window = Window(rows: seq<TableRow>, codeBlocks: seq<string>)

  const EmptyWindow := Window([], [])

  /**
   * The tooltip's format string filled in: the description, the block and the
   * hex each sit at a fixed place between the markup, so each can be read back.
   */
  function TooltipText(description: string, block: string, hex: string): (t: string)
    ensures |t| == 64 + |description| + |block| + |hex|
    ensures t[9..9 + |description|] == description
    ensures t[28 + |description|..28 + |description| + |block|] == block
    ensures t[|t| - 11 - |hex|..|t| - 11] == hex
  {
    "<html><b>" + description + "</b><br/>Block: <b>" + block + "</b><br/>Character: <b>U+" + hex + "</b></html>"
  }

  /**
   * The glyph cell's tooltip for `row`: its description, `CODE_BLOCKS.get(row)`
   * and the glyph's hex. `None` is the exception of a CODE_BLOCKS index out
   * of range or of `hexString` on an empty cell.
   */
  function Tooltip(w: Window, row: nat): (r: Option<string>)
    requires row < |w.rows|
    ensures r.Some? <==> row < |w.codeBlocks| && |w.rows[row].glyph| >= 1
  {
    if row >= |w.codeBlocks| then None
    else match HexString(w.rows[row].glyph)
      case None => None
      case Some(h) => Some(TooltipText(w.rows[row].description, w.codeBlocks[row], h))
  }

  /** Two tooltips that differ only in the block name are different strings. */
  lemma TooltipTextBlockMatters(description: string, b1: string, b2: string, hex: string)
    requires b1 != b2
    ensures TooltipText(description, b1, hex) != TooltipText(description, b2, hex)
  {
    var t1, t2 := TooltipText(description, b1, hex), TooltipText(description, b2, hex);
    if |b1| == |b2| {
      var at := 28 + |description|;
      assert t1[at..at + |b1|] == b1 && t2[at..at + |b2|] == b2;
    } else {
      assert |t1| != |t2|;
    }
  }
}
