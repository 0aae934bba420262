/**
 * The tk.ivybits version's prepared statement: the search text is split on
 * single spaces, each token contributes one `LIKE ?`, and each placeholder
 * is bound to the token's letters and digits between two `%` wildcards.
 */
module SearchQuery {
  import opened Text

  /** The statement head; written in short pieces so that the verifier can see it holds no `?`. */
  const SelectClause := "SELECT char, " + "description, " + "block FROM " + "unicode WHERE " + "description"
  const LikePlaceholder := " LIKE ?"
  const LimitClause := " LIMIT 200"

  function SearchTokens(text: string): seq<string> {
    JavaSplit(text, ' ')
  }

  /** The `i`-th block of `|s|` characters of `r` is `s`. */
  predicate BlockIs(r: string, s: string, i: nat) {
    (i + 1) * |s| <= |r| && r[i * |s|..(i + 1) * |s|] == s
  }

  /** `n` copies of `s` back to back: every one of the `n` blocks of `|s|` characters is `s`. */
  function Repeat(s: string, n: nat): (r: string)
    ensures |r| == n * |s|
    ensures forall i :: 0 <= i < n ==> BlockIs(r, s, i)
  {
    if n == 0 then ""
    else
      var prefix := Repeat(s, n - 1);
      RepeatStep(s, n - 1, prefix);
      prefix + s
  }

  /** Appending one more copy keeps every earlier block and adds the last one. */
  lemma RepeatStep(s: string, m: nat, prefix: string)
    requires |prefix| == m * |s|
    requires forall i :: 0 <= i < m ==> BlockIs(prefix, s, i)
    ensures |prefix + s| == (m + 1) * |s|
    ensures forall i :: 0 <= i < m + 1 ==> BlockIs(prefix + s, s, i)
  {
    MulSucc(m, |s|);
    forall i | 0 <= i < m + 1
      ensures BlockIs(prefix + s, s, i)
    {
      if i < m {
        EarlierBlock(s, prefix, i);
      } else {
        LastBlock(s, m, prefix);
      }
    }
  }

  lemma EarlierBlock(s: string, prefix: string, i: nat)
    requires BlockIs(prefix, s, i)
    ensures BlockIs(prefix + s, s, i)
  {
    SliceOfPrefix(prefix, s, i * |s|, (i + 1) * |s|);
  }

  lemma LastBlock(s: string, m: nat, prefix: string)
    requires |prefix| == m * |s|
    ensures BlockIs(prefix + s, s, m)
  {
    MulSucc(m, |s|);
    assert (prefix + s)[|prefix|..] == s;
  }

  lemma MulSucc(a: nat, b: nat)
    ensures (a + 1) * b == a * b + b
  {}

  lemma SliceOfPrefix(a: string, b: string, x: nat, y: nat)
    requires x <= y <= |a|
    ensures (a + b)[x..y] == a[x..y]
  {}

  lemma {:induction false} PlaceholdersInRepeat(n: nat)
    ensures CountChar(Repeat(LikePlaceholder, n), '?') == n
  {
    if n > 0 {
      PlaceholdersInRepeat(n - 1);
      CountCharConcat(Repeat(LikePlaceholder, n - 1), LikePlaceholder, '?');
      assert LikePlaceholder == " LIKE " + "?";
      CountCharConcat(" LIKE ", "?", '?');
    }
  }

  lemma ClausesHaveNoPlaceholder()
    ensures CountChar(SelectClause, '?') == 0 && CountChar(LimitClause, '?') == 0
  {
    assert '?' !in "SELECT char, " && '?' !in "description, " && '?' !in "block FROM ";
    assert '?' !in "unicode WHERE " && '?' !in "description";
    assert '?' !in LimitClause;
  }

  lemma SliceOfMiddle(a: string, b: string, c: string, x: nat, y: nat)
    requires x <= y <= |b|
    ensures (a + b + c)[|a| + x..|a| + y] == b[x..y]
  {
    assert forall j :: |a| + x <= j < |a| + y ==> (a + b + c)[j] == b[j - |a|];
  }

  /** The i-th group of seven characters after the head is the i-th ` LIKE ?`. */
  lemma PlaceholdersInQuery(n: nat)
    ensures var q := SelectClause + Repeat(LikePlaceholder, n) + LimitClause;
            forall i :: 0 <= i < n ==> q[|SelectClause| + 7 * i..|SelectClause| + 7 * (i + 1)] == LikePlaceholder
  {
    var likes := Repeat(LikePlaceholder, n);
    forall i | 0 <= i < n
      ensures (SelectClause + likes + LimitClause)[|SelectClause| + 7 * i..|SelectClause| + 7 * (i + 1)] == LikePlaceholder
    {
      assert BlockIs(likes, LikePlaceholder, i);
      SliceOfMiddle(SelectClause, likes, LimitClause, 7 * i, 7 * (i + 1));
    }
  }

  /**
   * The SQL text: the fixed head, then one ` LIKE ?` per token, then the
   * LIMIT clause; so exactly one `?` per token.
   */
  function QueryText(text: string): (q: string)
    ensures StartsWith(q, SelectClause) && EndsWith(q, LimitClause)
    ensures |q| == |SelectClause| + |SearchTokens(text)| * |LikePlaceholder| + |LimitClause|
    ensures forall i :: 0 <= i < |SearchTokens(text)| ==>
              q[|SelectClause| + 7 * i..|SelectClause| + 7 * (i + 1)] == LikePlaceholder
    ensures CountChar(q, '?') == |SearchTokens(text)|
  {
    var n := |SearchTokens(text)|;
    var q := SelectClause + Repeat(LikePlaceholder, n) + LimitClause;
    PlaceholdersInQuery(n);
    ClausesHaveNoPlaceholder();
    PlaceholdersInRepeat(n);
    CountCharConcat(SelectClause, Repeat(LikePlaceholder, n), '?');
    CountCharConcat(SelectClause + Repeat(LikePlaceholder, n), LimitClause, '?');
    assert q[..|SelectClause|] == SelectClause;
    assert q[|q| - |LimitClause|..] == LimitClause;
    q
  }

  /** `"%" + token.replaceAll("[^A-Za-z0-9]", "") + "%"`. */
  function BindParameter(token: string): (p: string)
    ensures |p| >= 2 && p[0] == '%' && p[|p| - 1] == '%'
    ensures forall i :: 0 < i < |p| - 1 ==> IsAsciiAlnum(p[i])
    ensures p[1..|p| - 1] == AlnumOnly(token)
  {
    "%" + AlnumOnly(token) + "%"
  }

  /** The values bound to parameters 1, 2, ..., one per token, in token order. */
  function Parameters(text: string): (ps: seq<string>)
    ensures |ps| == |SearchTokens(text)|
    ensures forall i :: 0 <= i < |ps| ==> ps[i] == BindParameter(SearchTokens(text)[i])
  {
    var tokens := SearchTokens(text);
    seq(|tokens|, i requires 0 <= i < |tokens| => BindParameter(tokens[i]))
  }

  /** Every placeholder of the statement gets a value and every value a placeholder. */
  lemma PlaceholdersMatchParameters(text: string)
    ensures CountChar(QueryText(text), '?') == |Parameters(text)|
  {}

  /** The window's opening query: empty text is one empty token, bound to "%%". */
  lemma EmptySearchMatchesEverything()
    ensures Parameters("") == ["%%"]
    ensures QueryText("") == SelectClause + LikePlaceholder + LimitClause
  {
    assert SearchTokens("") == [""];
    assert AlnumOnly("") == "";
    assert BindParameter("") == "%%";
    assert Repeat(LikePlaceholder, 1) == LikePlaceholder;
  }

  /** Text made only of spaces splits into no tokens: the statement has no LIKE and no parameter. */
  lemma SpacesOnlySearchHasNoFilter(text: string)
    requires |text| > 0 && forall i :: 0 <= i < |text| ==> text[i] == ' '
    ensures Parameters(text) == []
    ensures QueryText(text) == SelectClause + LimitClause
  {
    assert SearchTokens(text) == [];
    assert SelectClause + "" == SelectClause;
  }

  /**
   * The words of the search survive into the parameters: the bound values,
   * stripped of their wildcards, are the tokens' letters and digits, and the
   * tokens joined by spaces are the text less its trailing spaces.
   */
  lemma ParametersCoverText(text: string)
    ensures var ps := Parameters(text);
            var tokens := SearchTokens(text);
            var joined := Join(tokens, ' ');
            && (forall i :: 0 <= i < |ps| ==> ps[i][1..|ps[i]| - 1] == AlnumOnly(tokens[i]))
            && |joined| <= |text| && text[..|joined|] == joined
            && (forall i :: |joined| <= i < |text| ==> text[i] == ' ')
  {}
}
