# UnicodeTable — a verified model of its pure core

UnicodeTable is a desktop utility for searching a Unicode character database by
description. The user types words and gets a table of glyphs, and three clipboard
actions produce the glyph, its `U+XXXX` form and its HTML entity. Two versions of the
window class exist: `tk.ivybits.unicode.UnicodeTable` and the older
`unicode.UnicodeTable`. A Python script, `gen_table.py`, builds the database from
the Unicode NamesList file.

Below the Swing code there are four small pure computations. This project models
them in Dafny and proves what they promise:

- **UTF-16 code-point recovery.** `hexString` decodes one unit, or a surrogate pair
  as in section 2.2 of RFC 2781, and prints the result with `Integer.toHexString`.
  `Character.toChars` is the encoding of section 2.1 of RFC 2781. Both directions
  of the round trip are proved (modules `Hex`, `Utf16`, `CopyFormats`).
- **Search-query construction.** In the tk.ivybits version the text is split on
  single spaces with Java `String.split(" ")` semantics. Each token gives one
  `LIKE ?`, bound to `"%" + letters-and-digits + "%"`. Result rows are appended to
  the table and to CODE_BLOCKS (modules `Text`, `SearchQuery`, `IvybitsTable`,
  `TableModel`). The older version splices the text unescaped into a LIKE
  pattern and reads at most 500 rows (module `LegacyTable`).
- **Glyph font selection.** The renderer's loop has no `break`, so the last loaded
  font that can display the whole string wins. If no font can, the label keeps
  its font (module `FontChoice`).
- **NamesList fold.** `gen_table.py` folds over the lines, carrying the current
  block and emitting `(code point, name, block)` rows (module `NamesList`).

Conventions:

- A Java `char` is a `CodeUnit` (0..0xFFFF), and a Java string holding glyphs is a
  `seq<CodeUnit>`. Other text is a Dafny `string`.
- Exceptions the source does not catch become `None` / `Err` results. Examples:
  `hexString` of an empty string, `Character.toChars` out of range, a failing
  `Integer.decode`, and Python's IndexError and ValueError.
- The database is a function parameter. For the tk.ivybits version it maps the
  statement and its bound values to result rows. For the older version it maps
  the statement to result rows. The `catch (SQLException)` wraps the statement
  and the whole loop. When preparing or running the statement fails, or
  `next()` fails, the rows read so far stay in the table, and the model reads
  this as the database returning only those rows. A getter failing in the
  middle of a row is not modelled (see "Left out").
- The font list is a `seq<Option<F>>`, where `None` is a font file that failed to
  load. `canDisplayUpTo(s) == -1` is a predicate parameter.

The renderer's font loop has no `break`, so the last font that can display the
glyph wins, not the first. Only the tk.ivybits version has the HTML-entity copy
action.

## Model

| member | source | states |
|---|---|---|
| `Hex.ToHexString` | src/main/java/tk/ivybits/unicode/UnicodeTable.java:80 | `Integer.toHexString`: canonical lower-case digits (no leading zero, "0" for zero), at most eight, whose value is the int read as unsigned 32-bit |
| `Hex.ToHex` | src/main/java/tk/ivybits/unicode/UnicodeTable.java:80 | the hex of a non-negative number is canonical and starts with '0' only for zero |
| `Hex.ParseHexOfToHex` | src/main/java/unicode/UnicodeTable.java:109 | reading back a printed hex gives the number |
| `Hex.ToHexOfCanonical` | src/main/java/unicode/UnicodeTable.java:109 | a canonical digit string is the print of its own value (printing and reading are inverse) |
| `Hex.ToHexOfParseHex` | src/main/java/unicode/UnicodeTable.java:109 | reading any digit string and printing it gives the string lower-cased with leading zeros stripped |
| `Hex.ToHexLength` | src/main/java/tk/ivybits/unicode/UnicodeTable.java:80 | a number below 16^k prints in at most k digits |
| `Utf16.ToChars` | src/main/java/tk/ivybits/unicode/UnicodeTable.java:109 | `Character.toChars` is defined exactly on 0..0x10FFFF; it yields one unit below 0x10000 and a high/low surrogate pair above |
| `Utf16.DecodePair` | src/main/java/tk/ivybits/unicode/UnicodeTable.java:80 | `hexString`'s int expression never overflows a Java int, and maps every well-formed pair into 0x10000..0x10FFFF |
| `Utf16.DecodeOfEncode` | src/main/java/tk/ivybits/unicode/UnicodeTable.java:80 | decoding the pair that `toChars` produces gives the supplementary code point back |
| `Utf16.EncodeOfDecode` | src/main/java/tk/ivybits/unicode/UnicodeTable.java:80 | encoding the decoded value of a well-formed pair gives the same pair |
| `Utf16.HexString` | src/main/java/tk/ivybits/unicode/UnicodeTable.java:78-81 | `hexString` fails only on an empty string. One unit gives that unit's value. Two or more units give the decoded first pair mod 2^32, which is 0x10000..0x10FFFF for a well-formed pair. The older version's helper at src/main/java/unicode/UnicodeTable.java:82-85 computes the same |
| `Utf16.HexStringOfToChars` | src/main/java/tk/ivybits/unicode/UnicodeTable.java:109 | round trip: for every valid code point, `hexString(toChars(cp))` is the lower-case hex of cp |
| `Utf16.ToCharsOfHexString` | src/main/java/tk/ivybits/unicode/UnicodeTable.java:78-81 | round trip: every glyph `toChars` can produce is rebuilt from the value its `hexString` prints |
| `CopyFormats.CopyAsUnicode` | src/main/java/tk/ivybits/unicode/UnicodeTable.java:138 | "Copy as Unicode" gives `U+` followed by canonical hex, for every non-empty cell |
| `CopyFormats.CopyAsHtmlEntity` | src/main/java/tk/ivybits/unicode/UnicodeTable.java:144 | "Copy as HTML entity" gives `&#x`, canonical hex, `;` for every non-empty cell |
| `CopyFormats.CopiedNotationsReadBack` | src/main/java/tk/ivybits/unicode/UnicodeTable.java:135-146 | for the glyph of a code point, both notations hold that code point's hex, and reading the hex back gives the code point |
| `FontChoice.LastRenderer` | src/main/java/tk/ivybits/unicode/UnicodeTable.java:161-163 | reference search from the end: the index of a loaded font that displays the string with no such font after it, or none at all |
| `FontChoice.ChooseFont` | src/main/java/tk/ivybits/unicode/UnicodeTable.java:161-163 | the front-to-back loop leaves the label on the last loaded font that can display the string, and on its old font when there is none (the same loop is at src/main/java/unicode/UnicodeTable.java:152-154) |
| `FontChoice.WindowsFontDisplaysImpliesChoice` | src/main/java/tk/ivybits/unicode/UnicodeTable.java:25 | the first entry is built by name and never null, so when it can display the string some font is always chosen and the label does not keep its old font |
| `FontChoice.UnicodeFonts` | src/main/java/tk/ivybits/unicode/UnicodeTable.java:24-34 | UNICODE_FONTS has nine entries. Entry 0 is the font built by name and is never null. The other eight are the bundled fonts, any of which may have failed to load |
| `Text.SplitOn` | src/main/python/gen_table.py:15 | `split('\t')` gives one more piece than there are tabs, and no piece contains a tab |
| `Text.JoinSplitOn` | src/main/python/gen_table.py:15 | joining the pieces with the separator restores the line |
| `Text.SplitOnJoin` | src/main/python/gen_table.py:15 | splitting a join of separator-free pieces gives the pieces back |
| `Text.JavaSplit` | src/main/java/tk/ivybits/unicode/UnicodeTable.java:96 | `split(" ")`: tokens hold no space; "" gives [""]; a text of only spaces gives no token; the last token is non-empty once a space occurred; the tokens joined by spaces are the text less a trailing run of spaces |
| `Text.AlnumOnly` | src/main/java/tk/ivybits/unicode/UnicodeTable.java:104 | `replaceAll("[^A-Za-z0-9]", "")` keeps only ASCII letters and digits, and leaves an all-alphanumeric token unchanged |
| `Text.AlnumOnlyCounts` | src/main/java/tk/ivybits/unicode/UnicodeTable.java:104 | every letter and digit keeps its number of occurrences, and every other character has none |
| `Text.AlnumOnlyConcat` | src/main/java/tk/ivybits/unicode/UnicodeTable.java:104 | filtering distributes over concatenation, so the kept characters stay in order |
| `SearchQuery.Repeat` | src/main/java/tk/ivybits/unicode/UnicodeTable.java:98-100 | appending ` LIKE ?` once per token gives a string made of that many blocks, each block equal to the appended clause |
| `SearchQuery.QueryText` | src/main/java/tk/ivybits/unicode/UnicodeTable.java:97-101 | the statement is the SELECT ... WHERE description head, then exactly one ` LIKE ?` per token (the i-th seven characters after the head are the i-th ` LIKE ?`), then ` LIMIT 200`, and nothing else. So it has exactly one `?` per token |
| `SearchQuery.BindParameter` | src/main/java/tk/ivybits/unicode/UnicodeTable.java:104 | a bound value is `%`, then the token's letters and digits, then `%`: everything between the wildcards is alphanumeric |
| `SearchQuery.Parameters` | src/main/java/tk/ivybits/unicode/UnicodeTable.java:103-105 | one bound value per token, the i-th value (parameter i+1) made from the i-th token |
| `SearchQuery.PlaceholdersMatchParameters` | src/main/java/tk/ivybits/unicode/UnicodeTable.java:96-105 | the number of placeholders equals the number of bound values |
| `SearchQuery.EmptySearchMatchesEverything` | src/main/java/tk/ivybits/unicode/UnicodeTable.java:54 | the opening `query("")` has one `LIKE ?`, bound to `%%` |
| `SearchQuery.SpacesOnlySearchHasNoFilter` | src/main/java/tk/ivybits/unicode/UnicodeTable.java:96-101 | text made only of spaces gives no token, so the statement has no LIKE and no parameter |
| `SearchQuery.ParametersCoverText` | src/main/java/tk/ivybits/unicode/UnicodeTable.java:96-104 | each bound value without its wildcards is its token's letters and digits, and the tokens rejoined cover the text up to trailing spaces |
| `TableModel.Tooltip` | src/main/java/tk/ivybits/unicode/UnicodeTable.java:166-168 | the glyph tooltip exists exactly when CODE_BLOCKS has an entry at the row and the cell is non-empty |
| `TableModel.TooltipText` | src/main/java/tk/ivybits/unicode/UnicodeTable.java:166-168 | the filled-in format string has the description, the block and the hex each at a fixed place between the markup, so all three can be read back from it |
| `IvybitsTable.Load` | src/main/java/tk/ivybits/unicode/UnicodeTable.java:107-110 | the result loop adds the table rows of the results before the first code outside 0..0x10FFFF, in order. It stops there with the exception, and adds one block per result read, including the failing one |
| `IvybitsTable.Query` | src/main/java/tk/ivybits/unicode/UnicodeTable.java:92-115 | `query` replaces the rows with the loaded ones and binds `Parameters` into `QueryText`. It only appends to CODE_BLOCKS: the old list stays a prefix, and at least one block is added per row. It throws (`aborted`) exactly when some result row's code is outside 0..0x10FFFF. That is `Character.toChars`'s IllegalArgumentException at :109, which the `catch (SQLException)` at :111 does not catch, so it escapes `query` |
| `IvybitsTable.Opened` | src/main/java/tk/ivybits/unicode/UnicodeTable.java:54 | the constructor's `query("")` runs the statement with one `LIKE ?` bound to `%%`, and starts CODE_BLOCKS with exactly the blocks it read. An invalid code in the results makes it throw out of the constructor |
| `IvybitsTable.TooltipAlwaysHasBlock` | src/main/java/tk/ivybits/unicode/UnicodeTable.java:167 | after any query, every row's tooltip can be built (CODE_BLOCKS is never shorter than the rows) |
| `IvybitsTable.TooltipShowsEarlierBlock` | src/main/java/tk/ivybits/unicode/UnicodeTable.java:93 | as written, a row's tooltip shows the block that CODE_BLOCKS held at that index before the query |
| `IvybitsTable.StaleBlockAfterSecondSearch` | src/main/java/tk/ivybits/unicode/UnicodeTable.java:166-168 | concrete case: after a second search, a Greek letter's tooltip says "Latin", the first search's block, and not "Greek" |
| `IvybitsTable.LoadedBlocksAligned` | src/main/java/tk/ivybits/unicode/UnicodeTable.java:107-110 | within one query, the i-th added block is the block of the i-th added row's result |
| `IvybitsTable.QueryCorrected` | src/main/java/tk/ivybits/unicode/UnicodeTable.java:92-110 | the corrected query runs the same statement and adds the same rows; its CODE_BLOCKS is exactly what the as-written query appends |
| `IvybitsTable.CorrectedTooltipShowsOwnBlock` | src/main/java/tk/ivybits/unicode/UnicodeTable.java:166-168 | with CODE_BLOCKS cleared, every row's tooltip shows its own description, its own block and the hex of its own code |
| `LegacyTable.SearchSql` | src/main/java/unicode/UnicodeTable.java:105 | the statement is the fixed head, `'%`, the search text verbatim, then `%'` |
| `LegacyTable.PatternIntactIffNoQuote` | src/main/java/unicode/UnicodeTable.java:104-105 | nothing is escaped: the statement has two more quotes than the text, so the pattern's quotes are the only ones exactly when the text has none |
| `LegacyTable.DecodeCode` | src/main/java/unicode/UnicodeTable.java:109 | `Integer.decode("0x" + col2)` succeeds exactly on a non-empty digit string of value below 2^31 |
| `LegacyTable.LegacyGlyph` | src/main/java/unicode/UnicodeTable.java:109 | a row's glyph exists exactly when column 2 is a non-empty hex string of value at most 0x10FFFF, and it is one unit or a surrogate pair |
| `LegacyTable.LegacyGlyphHex` | src/main/java/unicode/UnicodeTable.java:82-85 | `hexString` of a row's glyph is column 2 lower-cased with its leading zeros stripped |
| `LegacyTable.LegacyCopyAsUnicode` | src/main/java/unicode/UnicodeTable.java:135 | "Copy as Unicode" of a row's glyph is `U+` and column 2 in that normal form |
| `LegacyTable.KeyReleased` | src/main/java/unicode/UnicodeTable.java:98-119 | the handler builds `SearchSql`. It adds min(n, 500) rows, the first ones and in order, unless a row's code fails to decode; then it stops before that row. It appends one block per row read, the failing one included, and keeps the old CODE_BLOCKS as a prefix |
| `NamesList.ParseInt16` | src/main/python/gen_table.py:22 | `int(_, 16)` reads any non-empty digit string as its hex value. It fails on an empty or all-blank field, and on any field holding a character that is not a hex digit, a blank, a sign, `x` or `X` |
| `NamesList.ParseInt16OfToHex` | src/main/python/gen_table.py:22 | `int(_, 16)` reads back every hex rendering |
| `NamesList.Classify` | src/main/python/gen_table.py:15-22 | The `@@\t` test comes first: a header yields its third field and fails with IndexError when that field is missing. Otherwise a line led by a tab, `@` or `;` is skipped. A line with no tab fails with IndexError. A second field starting with `<` is skipped. Any other line is an entry carrying `int(field0, 16)` and field 1 verbatim, or fails with ValueError when `int(field0, 16)` does |
| `NamesList.Step` | src/main/python/gen_table.py:16-23 | one pass of the loop body fails exactly when the line's classification does, with the same exception. Otherwise it keeps every earlier row, adds at most one, and moves the count by as many as it adds |
| `NamesList.StepEffect` | src/main/python/gen_table.py:16-22 | only a header moves `table`, to its third field. Only an entry adds a row, carrying the entry's code and name and the block from before the line |
| `NamesList.ClassifyEntry` | src/main/python/gen_table.py:20-22 | a line passing both skip tests with a readable first field is an entry |
| `NamesList.HeaderSetsBlock` | src/main/python/gen_table.py:16-19 | a header line changes the current block and adds no row |
| `NamesList.EntryAddsOneRow` | src/main/python/gen_table.py:22-23 | an entry line adds exactly one row, built from its code, its verbatim name and the current block, and increments the count |
| `NamesList.Run` | src/main/python/gen_table.py:12-24 | the fold starts with block "" and no rows. It succeeds exactly when every line classifies, and otherwise fails at the first failing line. The final count equals the number of rows |
| `NamesList.CurrentBlock` | src/main/python/gen_table.py:12-17 | the current block is "" before any header and otherwise the third field of the most recent header |
| `NamesList.RunComputesExpectedRows` | src/main/python/gen_table.py:12-23 | the fold's rows are one per entry line, in file order, each with the block of the most recent preceding header |
| `NamesList.RunExtendsPrefix` | src/main/python/gen_table.py:14-23 | reading more lines only appends rows: the rows of every prefix of the file are a prefix of the rows |
| `NamesList.EntryNameKeepsTerminator` | src/main/python/gen_table.py:14-22 | a line `code<TAB>name<LF>` becomes an entry whose name keeps the line feed, because lines keep their terminator |

## Left out

- Swing and AWT: frame construction, layout, look-and-feel, the popup menus, `clearSelection`, `fireTableDataChanged` and the clipboard write itself. Only the strings handed to the clipboard and the tooltip text are modelled.
- "Copy as text" hands the glyph cell to the clipboard unchanged. There is nothing to model beyond the identity.
- JDBC and SQLite: the connection, statement preparation and execution, `ResultSet` iteration, and what SQLite makes of the statements. The database is an uninterpreted function from statement text (and bound values) to rows. `getInt`'s narrowing of a stored integer to a Java int is not modelled.
- The older version reads result columns 1..3 as block, hex code and description. `gen_table.py` creates the table as `(char integer, description text, block text)` (src/main/python/gen_table.py:10). Over that database, `SELECT *` would hand the description to `Integer.decode`. The older version evidently expects an earlier schema. Its database is a parameter here, so the model takes the older column reading as given.
- An SQLException from a column getter after `CODE_BLOCKS.add` in the same row is not modelled. In the tk.ivybits version these are `getInt(1)` and `getString(2)` at src/main/java/tk/ivybits/unicode/UnicodeTable.java:109, after the add at :108. In the older version they are `getString(2)` and `getString(3)` at src/main/java/unicode/UnicodeTable.java:109. The exception is caught outside the loop and leaves one more block than rows. The database result type cannot express this failure: it returns complete rows only.
- Font loading (`font`, `create`) and `Font.canDisplayUpTo`. These are resource I/O and a property of font files, so they are parameters.
- `createIcon`, including the `Random` icon pick and the drawing. This is graphics and nondeterminism.
- `main`, the static initialiser and, in `gen_table.py`, `urllib2`, the SQLite DROP/CREATE/INSERT/commit and the progress `print`s. The script is modelled as a function from lines to rows.
- Search text is a sequence of Unicode scalar values. An unpaired surrogate typed into the search box is not representable in the model.
- LegacyTable.DecodeCode: `Integer.decode` also accepts non-ASCII digits that `Character.digit` recognises, such as full-width forms. The model accepts only ASCII hex digits.
- NamesList.ParseInt16: Python 2's `int(_, 16)` on a byte string also accepts blanks between the sign and the digits; the model rejects them. Otherwise the model accepts what it does: surrounding blanks, an optional sign, an optional `0x` and ASCII hex digits. The contract pins the plain digit strings and the rejections; which arrangements of signs and `0x` succeed is left to the body.

## Findings

| source | as written | input that shows it | evidently intended | confidence | as-written member | corrected member |
|---|---|---|---|---|---|---|
| src/main/java/tk/ivybits/unicode/UnicodeTable.java:93 | `query` clears the table rows but never CODE_BLOCKS, and the tooltip reads `CODE_BLOCKS.get(row)`. From the second query on, row i's tooltip shows the block of row i of the first query. The older version has the same pattern at src/main/java/unicode/UnicodeTable.java:101,108,158 | open the window on a database returning `(0x41, "A", "Latin")`, then search "alpha" getting `(0x3B1, "ALPHA", "Greek")`. The tooltip of row 0 says `Block: Latin` | CODE_BLOCKS is cleared with the rows, so each tooltip names the row's own block | high (not executed) | `IvybitsTable.StaleBlockAfterSecondSearch` | `IvybitsTable.QueryCorrected` |
