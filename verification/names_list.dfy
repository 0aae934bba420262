/**
 * gen_table.py: the loop that turns the lines of the Unicode NamesList file
 * into `(code point, name, block)` rows. Lines are given as the script reads
 * them, terminator included. A `@@<TAB>` header line makes its third field
 * the current block; a line starting with a tab, `@` or `;`, or whose second
 * field starts with `<`, is skipped; every other line becomes one row.
 */
module NamesList {
  import opened Wrappers
  import opened Hex
  import opened Text

  datatype NameRow = NameRow(code: int, name: string, block: string)

  /** The Python exceptions a line can raise: `values[k]` missing, or `int(_, 16)` failing. */
  datatype PyError = IndexError | ValueError

  datatype LineKind = Header(block: string) | Skip | Entry(code: int, name: string)

  /** The loop's variables: `table`, the rows inserted so far, and `count`. */
  datatype State = State(block: string, rows: seq<NameRow>, count: nat)

  datatype LineError = LineError(line: nat, error: PyError)

  const Initial := State("", [], 0)

  predicate IsPyWhitespace(c: char) {
    c == ' ' || 9 <= c as int <= 13
  }

  function TrimStart(s: string): (t: string)
    ensures |t| <= |s|
    decreases |s|
  {
    if |s| > 0 && IsPyWhitespace(s[0]) then TrimStart(s[1..]) else s
  }

  function TrimEnd(s: string): (t: string)
    ensures |t| <= |s|
    decreases |s|
  {
    if |s| > 0 && IsPyWhitespace(s[|s| - 1]) then TrimEnd(s[..|s| - 1]) else s
  }

  /**
   * Python's `int(s, 16)`: surrounding whitespace, an optional sign and an
   * optional `0x` prefix around one or more hexadecimal digits; `None` is
   * the ValueError.
   */
  function ParseInt16(s: string): (r: Option<int>)
    ensures |s| >= 1 && AllHexDigits(s) ==> r == Some(ParseHex(s))
    ensures (forall i :: 0 <= i < |s| ==> IsPyWhitespace(s[i])) ==> r.None?
    ensures (exists i :: 0 <= i < |s| && IsForeignToInt16(s[i])) ==> r.None?
  {
    var t := TrimEnd(TrimStart(s));
    assert (forall i :: 0 <= i < |s| ==> IsPyWhitespace(s[i])) ==> TrimStart(s) == [] by {
      AllWhitespaceTrims(s);
    }
    var negative := |t| > 0 && t[0] == '-';
    var unsigned := if |t| > 0 && (t[0] == '-' || t[0] == '+') then t[1..] else t;
    var digits := if |unsigned| >= 2 && unsigned[0] == '0' && (unsigned[1] == 'x' || unsigned[1] == 'X')
                  then unsigned[2..] else unsigned;
    assert (exists i :: 0 <= i < |s| && IsForeignToInt16(s[i])) ==> !AllHexDigits(digits) by {
      if i :| 0 <= i < |s| && IsForeignToInt16(s[i]) {
        TrimKeeps(s, s[i]);
        ForeignCharKept(s[i], t, unsigned, digits);
      }
    }
    if |digits| >= 1 && AllHexDigits(digits) then
      var magnitude: int := ParseHex(digits);
      Some(if negative then -magnitude else magnitude)
    else None
  }

  lemma {:induction false} AllWhitespaceTrims(s: string)
    ensures (forall i :: 0 <= i < |s| ==> IsPyWhitespace(s[i])) ==> TrimStart(s) == []
    decreases |s|
  {
    if |s| > 0 && forall i :: 0 <= i < |s| ==> IsPyWhitespace(s[i]) {
      AllWhitespaceTrims(s[1..]);
    }
  }

  /** A character `int(_, 16)` never accepts anywhere in its argument. */
  predicate IsForeignToInt16(c: char) {
    !IsHexDigit(c) && !IsPyWhitespace(c) && c != '+' && c != '-' && c != 'x' && c != 'X'
  }

  lemma {:induction false} TrimStartKeeps(s: string, c: char)
    requires c in s && !IsPyWhitespace(c)
    ensures c in TrimStart(s)
    decreases |s|
  {
    if |s| > 0 && IsPyWhitespace(s[0]) {
      var i :| 0 <= i < |s| && s[i] == c;
      assert s[1..][i - 1] == c;
      TrimStartKeeps(s[1..], c);
    }
  }

  lemma {:induction false} TrimEndKeeps(s: string, c: char)
    requires c in s && !IsPyWhitespace(c)
    ensures c in TrimEnd(s)
    decreases |s|
  {
    if |s| > 0 && IsPyWhitespace(s[|s| - 1]) {
      var i :| 0 <= i < |s| && s[i] == c;
      assert s[..|s| - 1][i] == c;
      TrimEndKeeps(s[..|s| - 1], c);
    }
  }

  /** Stripping surrounding whitespace keeps every other character. */
  lemma TrimKeeps(s: string, c: char)
    requires c in s && !IsPyWhitespace(c)
    ensures c in TrimEnd(TrimStart(s))
  {
    TrimStartKeeps(s, c);
    TrimEndKeeps(TrimStart(s), c);
  }

  /** Removing a sign and a `0x` prefix cannot remove a foreign character. */
  lemma ForeignCharKept(c: char, t: string, unsigned: string, digits: string)
    requires c in t && IsForeignToInt16(c)
    requires unsigned == t || (|t| > 0 && (t[0] == '-' || t[0] == '+') && unsigned == t[1..])
    requires digits == unsigned
             || (|unsigned| >= 2 && unsigned[0] == '0' && (unsigned[1] == 'x' || unsigned[1] == 'X')
                 && digits == unsigned[2..])
    ensures !AllHexDigits(digits)
  {
    var i :| 0 <= i < |t| && t[i] == c;
    var j := if unsigned == t then i else i - 1;
    assert unsigned[j] == c;
    var k := if digits == unsigned then j else j - 2;
    assert digits[k] == c;
  }

  /** `int(_, 16)` reads back every hex rendering. */
  lemma ParseInt16OfToHex(n: nat)
    ensures ParseInt16(ToHex(n)) == Some(n)
  {
    ParseHexOfToHex(n);
  }

  /** `line.split('\t')`. */
  function Fields(line: string): seq<string> {
    SplitOn(line, '\t')
  }

  predicate IsHeaderLine(line: string) {
    StartsWith(line, "@@\t")
  }

  /** `line and line[0] in '\t@;'`. */
  predicate HasSkippedLead(line: string) {
    |line| > 0 && (line[0] == '\t' || line[0] == '@' || line[0] == ';')
  }

  /** What the loop body does with one line, in the script's order of tests. */
  function Classify(line: string): (r: Result<LineKind, PyError>)
    ensures IsHeaderLine(line) ==> (r.Ok? <==> |Fields(line)| >= 3) && (r.Ok? ==> r.value.Header?)
    ensures IsHeaderLine(line) && |Fields(line)| < 3 ==> r == Err(IndexError)
    ensures r.Ok? && r.value.Header? ==> IsHeaderLine(line) && r.value.block == Fields(line)[2]
    ensures !IsHeaderLine(line) && HasSkippedLead(line) ==> r == Ok(Skip)
    ensures !HasSkippedLead(line) && '\t' !in line ==> r == Err(IndexError)
    ensures !HasSkippedLead(line) && '\t' in line && StartsWith(Fields(line)[1], "<") ==> r == Ok(Skip)
    ensures r.Ok? && r.value.Entry? ==>
              && !HasSkippedLead(line) && |Fields(line)| >= 2
              && r.value.name == Fields(line)[1] && !StartsWith(r.value.name, "<")
              && ParseInt16(Fields(line)[0]) == Some(r.value.code)
    ensures r == Err(ValueError) ==> |Fields(line)| >= 2 && ParseInt16(Fields(line)[0]).None?
    ensures !HasSkippedLead(line) && |Fields(line)| >= 2 && !StartsWith(Fields(line)[1], "<") ==>
              r == match ParseInt16(Fields(line)[0])
                   case None => Err(ValueError)
                   case Some(code) => Ok(Entry(code, Fields(line)[1]))
  {
    var values := Fields(line);
    if IsHeaderLine(line) then
      assert line[0] == '@';
      if |values| < 3 then Err(IndexError) else Ok(Header(values[2]))
    else if HasSkippedLead(line) then Ok(Skip)
    else if |values| < 2 then Err(IndexError)
    else if StartsWith(values[1], "<") then Ok(Skip)
    else match ParseInt16(values[0])
      case None => Err(ValueError)
      case Some(code) => Ok(Entry(code, values[1]))
  }

  /**
   * One pass of the loop body: a header replaces the current block, a skipped
   * line changes nothing, an entry appends one row and counts it, and an
   * exception stops the script.
   */
  function Step(st: State, line: string): (r: Result<State, PyError>)
    ensures r.Err? <==> Classify(line).Err?
    ensures r.Err? ==> r.error == Classify(line).error
    ensures r.Ok? ==> st.rows <= r.value.rows && |r.value.rows| - |st.rows| == r.value.count - st.count <= 1
  {
    match Classify(line)
    case Err(e) => Err(e)
    case Ok(Header(b)) => Ok(State(b, st.rows, st.count))
    case Ok(Skip) => Ok(st)
    case Ok(Entry(code, name)) => Ok(State(st.block, st.rows + [NameRow(code, name, st.block)], st.count + 1))
  }

  /**
   * The `for line in unidata` loop over the whole file, as a left fold;
   * the first failing line stops the script.
   */
  function Run(lines: seq<string>): (r: Result<State, LineError>)
    ensures r.Ok? ==> r.value.count == |r.value.rows|
    ensures r.Ok? <==> forall i :: 0 <= i < |lines| ==> Classify(lines[i]).Ok?
    ensures r.Err? ==> && r.error.line < |lines|
                       && Classify(lines[r.error.line]) == Err(r.error.error)
                       && forall i :: 0 <= i < r.error.line ==> Classify(lines[i]).Ok?
    decreases |lines|
  {
    if |lines| == 0 then Ok(Initial)
    else
      var prefix := lines[..|lines| - 1];
      var last := lines[|lines| - 1];
      assert lines == prefix + [last];
      match Run(prefix)
      case Err(e) =>
        assert lines[e.line] == prefix[e.line];
        assert forall i :: 0 <= i < e.line ==> lines[i] == prefix[i];
        Err(e)
      case Ok(st) =>
        assert forall i :: 0 <= i < |prefix| ==> Classify(prefix[i]).Ok?;
        match Step(st, last)
        case Err(e) =>
          assert Classify(last) == Err(e);
          Err(LineError(|lines| - 1, e))
        case Ok(st') =>
          assert Classify(last).Ok?;
          Ok(st')
  }

  predicate DeclaresBlock(line: string) {
    Classify(line).Ok? && Classify(line).value.Header?
  }

  /** Reference definition of `table` after some lines: the block of the most recent header, "" before the first. */
  function CurrentBlock(lines: seq<string>): (b: string)
    ensures (forall j :: 0 <= j < |lines| ==> !DeclaresBlock(lines[j])) ==> b == ""
    ensures forall j :: 0 <= j < |lines| && DeclaresBlock(lines[j])
                        && (forall k :: j < k < |lines| ==> !DeclaresBlock(lines[k])) ==>
                          b == Classify(lines[j]).value.block
    decreases |lines|
  {
    if |lines| == 0 then ""
    else
      var prefix := lines[..|lines| - 1];
      assert forall i :: 0 <= i < |prefix| ==> prefix[i] == lines[i];
      if DeclaresBlock(lines[|lines| - 1]) then Classify(lines[|lines| - 1]).value.block
      else CurrentBlock(prefix)
  }

  /** Reference definition of the rows: one per entry line, in file order, tagged with the block current at that line. */
  function ExpectedRows(lines: seq<string>): seq<NameRow>
    decreases |lines|
  {
    if |lines| == 0 then []
    else
      var prefix := lines[..|lines| - 1];
      ExpectedRows(prefix) +
        match Classify(lines[|lines| - 1])
        case Ok(Entry(code, name)) => [NameRow(code, name, CurrentBlock(prefix))]
        case _ => []
  }

  /** The fold computes the reference rows and leaves `table` at the reference block. */
  lemma {:induction false} RunComputesExpectedRows(lines: seq<string>)
    requires Run(lines).Ok?
    ensures Run(lines).value.rows == ExpectedRows(lines)
    ensures Run(lines).value.block == CurrentBlock(lines)
    decreases |lines|
  {
    if |lines| > 0 {
      RunComputesExpectedRows(lines[..|lines| - 1]);
    }
  }

  lemma RunOneLineMore(lines: seq<string>)
    requires |lines| > 0 && Run(lines).Ok?
    ensures var before := Run(lines[..|lines| - 1]);
            && before.Ok?
            && |before.value.rows| <= |Run(lines).value.rows|
            && Run(lines).value.rows[..|before.value.rows|] == before.value.rows
  {}

  /** Reading more lines only appends rows: the rows of any prefix are a prefix of the rows. */
  lemma {:induction false} RunExtendsPrefix(lines: seq<string>, k: nat)
    requires k <= |lines| && Run(lines).Ok?
    ensures Run(lines[..k]).Ok?
    ensures |Run(lines[..k]).value.rows| <= |Run(lines).value.rows|
    ensures Run(lines).value.rows[..|Run(lines[..k]).value.rows|] == Run(lines[..k]).value.rows
    decreases |lines| - k
  {
    if k == |lines| {
      assert lines[..k] == lines;
    } else {
      RunExtendsPrefix(lines, k + 1);
      var longer := lines[..k + 1];
      RunOneLineMore(longer);
      assert longer[..k] == lines[..k];
      PrefixTransitive(Run(lines).value.rows, Run(longer).value.rows, Run(lines[..k]).value.rows);
    }
  }

  lemma PrefixTransitive<T>(all: seq<T>, mid: seq<T>, short: seq<T>)
    requires |mid| <= |all| && all[..|mid|] == mid
    requires |short| <= |mid| && mid[..|short|] == short
    ensures |short| <= |all| && all[..|short|] == short
  {
    assert all[..|short|] == mid[..|short|];
  }

  /** Only a header moves the current block, and only an entry adds a row: its code, its name and the block before it. */
  lemma StepEffect(st: State, line: string)
    requires Step(st, line).Ok?
    ensures var st' := Step(st, line).value;
            && (st'.block != st.block ==> IsHeaderLine(line) && st'.block == Fields(line)[2])
            && (|st'.rows| > |st.rows| ==>
                  var kind := Classify(line).value;
                  kind.Entry? && st'.rows[|st.rows|] == NameRow(kind.code, kind.name, st.block))
  {}

  /** A header line: the block changes, no row is added. */
  lemma HeaderSetsBlock(st: State, line: string)
    requires IsHeaderLine(line) && |Fields(line)| >= 3
    ensures Step(st, line) == Ok(State(Fields(line)[2], st.rows, st.count))
  {}

  /** An entry line adds exactly one row, with its second field kept verbatim and the current block. */
  lemma EntryAddsOneRow(st: State, line: string)
    requires !HasSkippedLead(line) && |Fields(line)| >= 2 && !StartsWith(Fields(line)[1], "<")
    requires ParseInt16(Fields(line)[0]).Some?
    ensures Step(st, line) == Ok(State(st.block, st.rows + [NameRow(ParseInt16(Fields(line)[0]).value, Fields(line)[1], st.block)],
                                       st.count + 1))
  {
    ClassifyEntry(line);
  }

  lemma FieldsOfTwo(first: string, second: string)
    requires '\t' !in first && '\t' !in second
    ensures Fields(first + "\t" + second) == [first, second]
  {
    assert Join([first, second], '\t') == first + "\t" + second;
    SplitOnJoin([first, second], '\t');
  }

  lemma ClassifyEntry(line: string)
    requires !HasSkippedLead(line) && |Fields(line)| >= 2 && !StartsWith(Fields(line)[1], "<")
    requires ParseInt16(Fields(line)[0]).Some?
    ensures Classify(line) == Ok(Entry(ParseInt16(Fields(line)[0]).value, Fields(line)[1]))
  {
    assert !IsHeaderLine(line) by {
      assert |line| >= 3 ==> line[..3][0] == line[0];
    }
  }

  /** Since lines keep their terminator, the name of a two-field entry ends with the newline. */
  lemma EntryNameKeepsTerminator(code: string, name: string)
    requires |code| >= 1 && AllHexDigits(code) && '\t' !in name
    requires |name| == 0 || name[0] != '<'
    ensures Classify(code + "\t" + name + "\n") == Ok(Entry(ParseHex(code), name + "\n"))
  {
    var second := name + "\n";
    assert !StartsWith(second, "<") by {
      if |name| == 0 {
        assert second == "\n";
      } else {
        assert second[0] == name[0];
      }
    }
    assert code[0] != '\t' && code[0] != '@' && code[0] != ';' by {
      assert IsHexDigit(code[0]);
    }
    assert '\t' !in code by {
      assert forall i :: 0 <= i < |code| ==> code[i] != '\t';
    }
    var line := code + "\t" + second;
    assert code + "\t" + name + "\n" == line;
    assert line[0] == code[0];
    FieldsOfTwo(code, second);
    ClassifyEntry(line);
  }
}
