/**
 * `query(text)` of the tk.ivybits version: clear the table rows, run the
 * prepared statement, and for each result row append its block to
 * CODE_BLOCKS and then a table row holding `Character.toChars(char)` and the
 * description. The database is a function from the statement and its bound
 * values to the rows it returns. The `catch (SQLException)` around the
 * statement and the loop keeps the rows read so far, so a failing `next()`
 * is a database that returned only those rows; a getter failing after
 * `CODE_BLOCKS.add` within a row is not modelled.
 */
module IvybitsTable {
  import opened Wrappers
  import opened Hex
  import opened Utf16
  import opened TableModel
  import opened SearchQuery

  /** Result columns 1..3: `char` (an int code point), `description`, `block`. */
  datatype ResultRow = ResultRow(code: int, description: string, block: string)

  type Database = (string, seq<string>) -> seq<ResultRow>

  function BlocksOf(results: seq<ResultRow>): (bs: seq<string>)
    ensures |bs| == |results| && forall i :: 0 <= i < |bs| ==> bs[i] == results[i].block
  {
    seq(|results|, i requires 0 <= i < |results| => results[i].block)
  }

  function RowOf(r: ResultRow): TableRow
    requires IsValidCodePoint(r.code)
  {
    TableRow(ToChars(r.code).value, r.description)
  }

  /**
   * Rows and block names added by the `while (chars.next())` loop.
   * `aborted` is the IllegalArgumentException of `Character.toChars` on a
   * code outside 0..0x10FFFF, raised after that row's block was added.
   */
  datatype Loaded = Loaded(rows: seq<TableRow>, blocks: seq<string>, aborted: bool)

  function Load(results: seq<ResultRow>): (r: Loaded)
    ensures |r.rows| <= |results|
    ensures forall i :: 0 <= i < |r.rows| ==> IsValidCodePoint(results[i].code) && r.rows[i] == RowOf(results[i])
    ensures r.aborted <==> |r.rows| < |results|
    ensures r.aborted ==> !IsValidCodePoint(results[|r.rows|].code)
    ensures r.blocks == BlocksOf(results[..if r.aborted then |r.rows| + 1 else |r.rows|])
    decreases |results|
  {
    if |results| == 0 then Loaded([], [], false)
    else if !IsValidCodePoint(results[0].code) then
      assert results[..1] == [results[0]];
      Loaded([], [results[0].block], true)
    else
      var rest := Load(results[1..]);
      var consumed := if rest.aborted then |rest.rows| + 1 else |rest.rows|;
      BlocksOfCons(results, consumed + 1);
      var r := Loaded([RowOf(results[0])] + rest.rows, [results[0].block] + rest.blocks, rest.aborted);
      RowsOfCons(results, rest.rows);
      r
  }

  /** The row of a valid first result, put in front of the rows loaded from the rest. */
  lemma RowsOfCons(results: seq<ResultRow>, restRows: seq<TableRow>)
    requires |results| >= 1 && IsValidCodePoint(results[0].code) && |restRows| < |results|
    requires forall i :: 0 <= i < |restRows| ==>
               IsValidCodePoint(results[1..][i].code) && restRows[i] == RowOf(results[1..][i])
    ensures var rows := [RowOf(results[0])] + restRows;
            forall i :: 0 <= i < |rows| ==> IsValidCodePoint(results[i].code) && rows[i] == RowOf(results[i])
  {
    var rows := [RowOf(results[0])] + restRows;
    forall i | 1 <= i < |rows|
      ensures IsValidCodePoint(results[i].code) && rows[i] == RowOf(results[i])
    {
      assert rows[i] == restRows[i - 1] && results[1..][i - 1] == results[i];
    }
  }

  lemma BlocksOfCons(results: seq<ResultRow>, n: nat)
    requires 1 <= n <= |results|
    ensures BlocksOf(results[..n]) == [results[0].block] + BlocksOf(results[1..][..n - 1])
  {
    assert results[1..][..n - 1] == results[1..n];
  }

  datatype QueryOutcome = QueryOutcome(sql: string, parameters: seq<string>, window: Window, aborted: bool)

  /** `query(text)` as written: the table rows are replaced, CODE_BLOCKS is only appended to. */
  function Query(w: Window, text: string, db: Database): (r: QueryOutcome)
    ensures r.sql == QueryText(text) && r.parameters == Parameters(text)
    ensures var loaded := Load(db(r.sql, r.parameters));
            r.window.rows == loaded.rows && r.window.codeBlocks == w.codeBlocks + loaded.blocks
    ensures |r.window.codeBlocks| >= |w.codeBlocks| + |r.window.rows|
    ensures r.window.codeBlocks[..|w.codeBlocks|] == w.codeBlocks
    ensures r.aborted == Load(db(r.sql, r.parameters)).aborted
    ensures var results := db(r.sql, r.parameters);
            r.aborted <==> exists i :: 0 <= i < |results| && !IsValidCodePoint(results[i].code)
  {
    var sql := QueryText(text);
    var parameters := Parameters(text);
    var loaded := Load(db(sql, parameters));
    QueryOutcome(sql, parameters, Window(loaded.rows, w.codeBlocks + loaded.blocks), loaded.aborted)
  }

  /**
   * The window right after construction: `query("")` on an empty window.
   * Every description matches, and CODE_BLOCKS holds exactly the blocks read.
   */
  function Opened(db: Database): (r: QueryOutcome)
    ensures r.sql == SelectClause + LikePlaceholder + LimitClause && r.parameters == ["%%"]
    ensures var loaded := Load(db(r.sql, ["%%"]));
            r.window.rows == loaded.rows && r.window.codeBlocks == loaded.blocks && r.aborted == loaded.aborted
  {
    EmptySearchMatchesEverything();
    Query(EmptyWindow, "", db)
  }

  /** However the window got where it is, every row's tooltip can read a block name. */
  lemma TooltipAlwaysHasBlock(w: Window, text: string, db: Database, row: nat)
    ensures row < |Query(w, text, db).window.rows| ==> Tooltip(Query(w, text, db).window, row).Some?
  {
    var r := Query(w, text, db);
    if row < |r.window.rows| {
      assert IsValidCodePoint(db(r.sql, r.parameters)[row].code);
    }
  }

  /**
   * As written, the tooltip of a row reads the block that CODE_BLOCKS held at
   * that index before the query, whenever there was one: a block from an
   * earlier search, not the block of the row's own result.
   */
  lemma TooltipShowsEarlierBlock(w: Window, text: string, db: Database, row: nat)
    ensures var r := Query(w, text, db);
            row < |r.window.rows| && row < |w.codeBlocks| ==>
              Tooltip(r.window, row) == Some(TooltipText(r.window.rows[row].description, w.codeBlocks[row],
                                                         HexString(r.window.rows[row].glyph).value))
  {
    var r := Query(w, text, db);
    if row < |r.window.rows| && row < |w.codeBlocks| {
      assert IsValidCodePoint(db(r.sql, r.parameters)[row].code);
    }
  }

  /** A concrete pair of searches: after the second one, row 0 is a Greek letter whose tooltip says "Latin". */
  lemma StaleBlockAfterSecondSearch()
    ensures var first: Database := (q, ps) => [ResultRow(0x41, "A", "Latin")];
            var second: Database := (q, ps) => [ResultRow(0x3B1, "ALPHA", "Greek")];
            var w := Query(Opened(first).window, "alpha", second).window;
            && w.rows == [TableRow([0x3B1], "ALPHA")]
            && Tooltip(w, 0) == Some(TooltipText("ALPHA", "Latin", ToHex(0x3B1)))
            && Tooltip(w, 0) != Some(TooltipText("ALPHA", "Greek", ToHex(0x3B1)))
  {
    var first: Database := (q, ps) => [ResultRow(0x41, "A", "Latin")];
    var second: Database := (q, ps) => [ResultRow(0x3B1, "ALPHA", "Greek")];
    var w1 := Opened(first).window;
    assert w1.codeBlocks == ["Latin"];
    var w := Query(w1, "alpha", second).window;
    assert w.rows == [TableRow([0x3B1], "ALPHA")];
    HexStringOfToChars(0x3B1);
    TooltipShowsEarlierBlock(w1, "alpha", second, 0);
    TooltipTextBlockMatters("ALPHA", "Latin", "Greek", ToHex(0x3B1));
  }

  /** Each added row sits at the same index as its own block among the blocks the loop added. */
  lemma LoadedBlocksAligned(results: seq<ResultRow>)
    ensures var loaded := Load(results);
            forall i :: 0 <= i < |loaded.rows| ==> i < |loaded.blocks| && loaded.blocks[i] == results[i].block
  {
    var loaded := Load(results);
    var consumed := results[..if loaded.aborted then |loaded.rows| + 1 else |loaded.rows|];
    assert forall i :: 0 <= i < |loaded.rows| ==> consumed[i] == results[i];
  }

  /**
   * The evidently intended `query`: CODE_BLOCKS is cleared together with the
   * rows. It runs the same statement and adds the same rows as `Query`; its
   * CODE_BLOCKS is what `Query` appends to the old list.
   */
  function QueryCorrected(w: Window, text: string, db: Database): (r: QueryOutcome)
    ensures var asWritten := Query(w, text, db);
            && r.sql == asWritten.sql && r.parameters == asWritten.parameters
            && r.window.rows == asWritten.window.rows && r.aborted == asWritten.aborted
            && r.window.codeBlocks == asWritten.window.codeBlocks[|w.codeBlocks|..]
  {
    var sql := QueryText(text);
    var parameters := Parameters(text);
    var loaded := Load(db(sql, parameters));
    QueryOutcome(sql, parameters, Window(loaded.rows, loaded.blocks), loaded.aborted)
  }

  /** With CODE_BLOCKS cleared, every row's tooltip names the block of that row's own result. */
  lemma CorrectedTooltipShowsOwnBlock(w: Window, text: string, db: Database, row: nat)
    ensures var r := QueryCorrected(w, text, db);
            row < |r.window.rows| ==>
              var result := db(r.sql, r.parameters)[row];
              Tooltip(r.window, row) == Some(TooltipText(result.description, result.block, ToHex(result.code)))
  {
    var r := QueryCorrected(w, text, db);
    if row < |r.window.rows| {
      var results := db(r.sql, r.parameters);
      LoadedBlocksAligned(results);
      HexStringOfToChars(results[row].code);
    }
  }
}
