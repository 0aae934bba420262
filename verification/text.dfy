/**
 * String utilities the source leans on: separator splitting (Python's
 * `str.split(sep)` and Java's `String.split` with a one-character pattern),
 * joining, and Java's `replaceAll("[^A-Za-z0-9]", "")`.
 */
module Text {

  predicate StartsWith(s: string, prefix: string) {
    |prefix| <= |s| && s[..|prefix|] == prefix
  }

  predicate EndsWith(s: string, suffix: string) {
    |suffix| <= |s| && s[|s| - |suffix|..] == suffix
  }

  function CountChar(s: string, c: char): (n: nat)
    ensures n <= |s|
    ensures n == 0 <==> c !in s
    decreases |s|
  {
    if |s| == 0 then 0
    else
      assert s == s[..|s| - 1] + [s[|s| - 1]];
      CountChar(s[..|s| - 1], c) + (if s[|s| - 1] == c then 1 else 0)
  }

  lemma {:induction false} CountCharConcat(a: string, b: string, c: char)
    ensures CountChar(a + b, c) == CountChar(a, c) + CountChar(b, c)
    decreases |b|
  {
    if |b| > 0 {
      var b' := b[..|b| - 1];
      assert (a + b)[..|a + b| - 1] == a + b';
      assert (a + b)[|a + b| - 1] == b[|b| - 1];
      CountCharConcat(a, b', c);
      assert CountChar(a + b, c) == CountChar(a + b', c) + (if b[|b| - 1] == c then 1 else 0);
      assert CountChar(b, c) == CountChar(b', c) + (if b[|b| - 1] == c then 1 else 0);
    } else {
      assert a + b == a;
    }
  }

  /**
   * The pieces of `s` between occurrences of `sep`, all kept, empty ones
   * included: Python's `s.split(sep)`.
   */
  function SplitOn(s: string, sep: char): (parts: seq<string>)
    ensures |parts| == CountChar(s, sep) + 1
    ensures forall i :: 0 <= i < |parts| ==> sep !in parts[i]
    decreases |s|
  {
    if |s| == 0 then [""]
    else
      var init := SplitOn(s[..|s| - 1], sep);
      var last := s[|s| - 1];
      if last == sep then init + [""]
      else init[..|init| - 1] + [init[|init| - 1] + [last]]
  }

  function Join(parts: seq<string>, sep: char): string
    decreases |parts|
  {
    if |parts| == 0 then ""
    else if |parts| == 1 then parts[0]
    else Join(parts[..|parts| - 1], sep) + [sep] + parts[|parts| - 1]
  }

  /** Joining the pieces back restores the string. */
  lemma {:induction false} JoinSplitOn(s: string, sep: char)
    ensures Join(SplitOn(s, sep), sep) == s
    decreases |s|
  {
    if |s| > 0 {
      var s', c := s[..|s| - 1], s[|s| - 1];
      var init := SplitOn(s', sep);
      JoinSplitOn(s', sep);
      SplitOnUnfold(s, sep);
      assert s == s' + [c];
      if c == sep {
        JoinAppendEmpty(init, sep);
      } else {
        JoinExtendLast(init, c, sep);
      }
    }
  }

  /** One step of `SplitOn`: the last character either starts a new piece or extends the last one. */
  lemma SplitOnUnfold(s: string, sep: char)
    requires |s| > 0
    ensures var init := SplitOn(s[..|s| - 1], sep);
            SplitOn(s, sep) == if s[|s| - 1] == sep then init + [""]
                               else init[..|init| - 1] + [init[|init| - 1] + [s[|s| - 1]]]
  {}

  lemma JoinAppendEmpty(parts: seq<string>, sep: char)
    requires |parts| >= 1
    ensures Join(parts + [""], sep) == Join(parts, sep) + [sep]
  {
    assert (parts + [""])[..|parts|] == parts;
  }

  lemma JoinExtendLast(parts: seq<string>, c: char, sep: char)
    requires |parts| >= 1
    ensures Join(parts[..|parts| - 1] + [parts[|parts| - 1] + [c]], sep) == Join(parts, sep) + [c]
  {
    var extended := parts[..|parts| - 1] + [parts[|parts| - 1] + [c]];
    if |parts| > 1 {
      assert extended[..|extended| - 1] == parts[..|parts| - 1];
    }
  }

  lemma {:induction false} SplitOnAppendPlain(t: string, x: string, sep: char)
    requires sep !in x
    ensures var p := SplitOn(t, sep);
            SplitOn(t + x, sep) == p[..|p| - 1] + [p[|p| - 1] + x]
    decreases |x|
  {
    var p := SplitOn(t, sep);
    if |x| == 0 {
      assert t + x == t;
      assert p[|p| - 1] + x == p[|p| - 1];
      assert p[..|p| - 1] + [p[|p| - 1]] == p;
    } else {
      var x' := x[..|x| - 1];
      var c := x[|x| - 1];
      assert c in x;
      assert x == x' + [c];
      SplitOnAppendPlain(t, x', sep);
      SplitOnAppendOne(t, x', c, sep);
      assert SplitOn(t + x, sep) == ExtendLast(p, x);
    }
  }

  /** `p` with `x` appended to its last piece. */
  function ExtendLast(p: seq<string>, x: string): seq<string>
    requires |p| >= 1
  {
    p[..|p| - 1] + [p[|p| - 1] + x]
  }

  /** The induction step of `SplitOnAppendPlain`: one more plain character extends the last piece. */
  lemma SplitOnAppendOne(t: string, x: string, c: char, sep: char)
    requires c != sep
    requires SplitOn(t + x, sep) == ExtendLast(SplitOn(t, sep), x)
    ensures SplitOn(t + (x + [c]), sep) == ExtendLast(SplitOn(t, sep), x + [c])
  {
    var p := SplitOn(t, sep);
    var v := t + x;
    assert t + (x + [c]) == v + [c];
    assert SplitOn(v + [c], sep) == ExtendLast(ExtendLast(p, x), [c]) by {
      SplitOnAppendChar(v, c, sep);
    }
    ExtendLastAgain(p, x, c);
  }

  lemma SplitOnAppendChar(v: string, c: char, sep: char)
    requires c != sep
    ensures SplitOn(v + [c], sep) == ExtendLast(SplitOn(v, sep), [c])
  {
    var u := v + [c];
    assert u[..|u| - 1] == v;
  }

  lemma ExtendLastAgain(p: seq<string>, x: string, c: char)
    requires |p| >= 1
    ensures ExtendLast(ExtendLast(p, x), [c]) == ExtendLast(p, x + [c])
  {
    var q := ExtendLast(p, x);
    assert q[..|q| - 1] == p[..|p| - 1];
    assert q[|q| - 1] + [c] == p[|p| - 1] + (x + [c]);
  }

  lemma SplitOnSeparatorAtEnd(t: string, sep: char)
    ensures SplitOn(t + [sep], sep) == SplitOn(t, sep) + [""]
  {
    var u := t + [sep];
    assert u[..|u| - 1] == t;
  }

  /** Splitting a join of separator-free pieces gives the pieces back. */
  lemma {:induction false} SplitOnJoin(parts: seq<string>, sep: char)
    requires |parts| >= 1
    requires forall i :: 0 <= i < |parts| ==> sep !in parts[i]
    ensures SplitOn(Join(parts, sep), sep) == parts
    decreases |parts|
  {
    var x := parts[|parts| - 1];
    if |parts| == 1 {
      SplitOnAppendPlain("", x, sep);
      assert "" + x == x;
    } else {
      var q := parts[..|parts| - 1];
      SplitOnJoin(q, sep);
      assert parts == q + [x];
      SplitOnJoinStep(q, x, sep);
    }
  }

  lemma SplitOnJoinStep(q: seq<string>, x: string, sep: char)
    requires |q| >= 1 && sep !in x
    requires SplitOn(Join(q, sep), sep) == q
    ensures SplitOn(Join(q + [x], sep), sep) == q + [x]
  {
    var t := Join(q, sep) + [sep];
    SplitOnSeparatorAtEnd(Join(q, sep), sep);
    SplitOnAppendPlain(t, x, sep);
    var p := SplitOn(t, sep);
    assert p == q + [""];
    assert p[..|p| - 1] == q;
    assert p[|p| - 1] + x == x;
    assert (q + [x])[..|q|] == q;
    assert Join(q + [x], sep) == t + x;
  }

  lemma {:induction false} SplitOnAllSeparators(s: string, sep: char)
    ensures (forall i :: 0 <= i < |s| ==> s[i] == sep) ==>
              forall i :: 0 <= i < |SplitOn(s, sep)| ==> SplitOn(s, sep)[i] == ""
    decreases |s|
  {
    if |s| > 0 && forall i :: 0 <= i < |s| ==> s[i] == sep {
      SplitOnAllSeparators(s[..|s| - 1], sep);
    }
  }

  /** Java's `String.split` with limit 0 drops every trailing empty string. */
  function DropTrailingEmpty(parts: seq<string>): (r: seq<string>)
    ensures |r| <= |parts| && r == parts[..|r|]
    ensures |r| > 0 ==> r[|r| - 1] != ""
    ensures forall i :: |r| <= i < |parts| ==> parts[i] == ""
    decreases |parts|
  {
    if |parts| > 0 && parts[|parts| - 1] == "" then DropTrailingEmpty(parts[..|parts| - 1]) else parts
  }

  /** What the dropped pieces took out of the join is a run of separators at its end. */
  lemma {:induction false} JoinDropTrailingEmpty(parts: seq<string>, sep: char)
    ensures var t := Join(DropTrailingEmpty(parts), sep);
            var u := Join(parts, sep);
            |t| <= |u| && u[..|t|] == t && forall i :: |t| <= i < |u| ==> u[i] == sep
    decreases |parts|
  {
    if |parts| > 0 && parts[|parts| - 1] == "" {
      JoinDropTrailingEmpty(parts[..|parts| - 1], sep);
    }
  }

  /**
   * Java's `s.split(String.valueOf(sep))`: a string without the separator is
   * its own only token (so "" gives [""]); otherwise the pieces, less the
   * trailing empty ones.
   */
  function JavaSplit(s: string, sep: char): (tokens: seq<string>)
    ensures forall i :: 0 <= i < |tokens| ==> sep !in tokens[i]
    ensures s == "" ==> tokens == [""]
    ensures |s| > 0 && (forall i :: 0 <= i < |s| ==> s[i] == sep) ==> tokens == []
    ensures sep in s && |tokens| > 0 ==> tokens[|tokens| - 1] != ""
    ensures var t := Join(tokens, sep);
            |t| <= |s| && s[..|t|] == t && forall i :: |t| <= i < |s| ==> s[i] == sep
  {
    if sep !in s then
      assert |s| > 0 ==> s[0] != sep;
      [s]
    else
      var parts := SplitOn(s, sep);
      JoinSplitOn(s, sep);
      JoinDropTrailingEmpty(parts, sep);
      SplitOnAllSeparators(s, sep);
      DropTrailingEmpty(parts)
  }

  predicate IsAsciiAlnum(c: char) {
    'A' <= c <= 'Z' || 'a' <= c <= 'z' || '0' <= c <= '9'
  }

  /** Java's `s.replaceAll("[^A-Za-z0-9]", "")`: the ASCII letters and digits of `s`, in order. */
  function AlnumOnly(s: string): (r: string)
    ensures |r| <= |s|
    ensures forall i :: 0 <= i < |r| ==> IsAsciiAlnum(r[i])
    ensures (forall i :: 0 <= i < |s| ==> IsAsciiAlnum(s[i])) ==> r == s
    decreases |s|
  {
    if |s| == 0 then ""
    else
      assert s == s[..|s| - 1] + [s[|s| - 1]];
      AlnumOnly(s[..|s| - 1]) + (if IsAsciiAlnum(s[|s| - 1]) then [s[|s| - 1]] else [])
  }

  /** Every letter or digit survives with its multiplicity; nothing else does. */
  lemma {:induction false} AlnumOnlyCounts(s: string, c: char)
    ensures CountChar(AlnumOnly(s), c) == if IsAsciiAlnum(c) then CountChar(s, c) else 0
    decreases |s|
  {
    if |s| > 0 {
      var last := s[|s| - 1];
      AlnumOnlyCounts(s[..|s| - 1], c);
      CountCharConcat(AlnumOnly(s[..|s| - 1]), if IsAsciiAlnum(last) then [last] else [], c);
    }
  }

  /** Filtering commutes with concatenation, so the kept characters keep their order. */
  lemma {:induction false} AlnumOnlyConcat(a: string, b: string)
    ensures AlnumOnly(a + b) == AlnumOnly(a) + AlnumOnly(b)
    decreases |b|
  {
    if |b| > 0 {
      assert (a + b)[..|a + b| - 1] == a + b[..|b| - 1];
      AlnumOnlyConcat(a, b[..|b| - 1]);
    } else {
      assert a + b == a;
    }
  }
}
