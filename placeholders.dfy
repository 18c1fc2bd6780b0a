/** Finding the placeholder a binding fills, and replacing it. The watcher
    uses a regular expression whose lookahead requires that the rest of the
    statement after the token holds only complete pairs of single quotes and
    no backslash; here that lookahead is the predicate Eligible on the suffix. */
module Placeholders {
  import opened Results
  import Quoting
  import Replacement

  function Count(c: char, s: string): nat {
    if s == [] then 0 else (if s[0] == c then 1 else 0) + Count(c, s[1..])
  }

  lemma {:induction false} CountConcat(c: char, a: string, b: string)
    ensures Count(c, a + b) == Count(c, a) + Count(c, b)
  {
    if a == [] {
      assert a + b == b;
    } else {
      assert (a + b)[0] == a[0] && (a + b)[1..] == a[1..] + b;
      CountConcat(c, a[1..], b);
    }
  }

  lemma {:induction false} CountAbsent(c: char, s: string)
    requires c !in s
    ensures Count(c, s) == 0
  {
    if s != [] {
      assert c !in s[1..] by {
        forall k | 0 <= k < |s[1..]| ensures s[1..][k] == s[k + 1] { }
      }
      CountAbsent(c, s[1..]);
    }
  }

  /** The lookahead: the text after the token has an even number of single
      quotes and no backslash. */
  predicate Eligible(suffix: string) {
    Count('\'', suffix) % 2 == 0 && '\\' !in suffix
  }

  /** The token occurs at position i and is eligible there. */
  predicate IsMatch(sql: string, tok: string, i: nat) {
    i + |tok| <= |sql| && sql[i..i + |tok|] == tok && Eligible(sql[i + |tok|..])
  }

  ghost predicate NoMatch(sql: string, tok: string) {
    forall i: nat :: !IsMatch(sql, tok, i)
  }

  /** i is the match the pattern finds first: no match starts before it. */
  ghost predicate LeftmostMatch(sql: string, tok: string, i: nat) {
    IsMatch(sql, tok, i) && forall j: nat | j < i :: !IsMatch(sql, tok, j)
  }

  /** The first match at or after position `from`. */
  function FirstMatch(sql: string, tok: string, from: nat): (r: Option<nat>)
    ensures r.Some? ==> from <= r.value && IsMatch(sql, tok, r.value)
    ensures r.Some? ==> forall j: nat | from <= j < r.value :: !IsMatch(sql, tok, j)
    ensures r.None? ==> forall j: nat | from <= j :: !IsMatch(sql, tok, j)
    decreases |sql| + 1 - from
  {
    if from + |tok| > |sql| then None
    else if IsMatch(sql, tok, from) then Some(from)
    else FirstMatch(sql, tok, from + 1)
  }

  /** One substitution step (preg_replace with limit 1, the text inserted as it
      is): the leftmost eligible occurrence of the token is replaced and the
      text on both sides of it is kept verbatim; with no eligible occurrence
      the statement is unchanged. */
  function ReplaceFirst(sql: string, tok: string, text: string): (r: string)
    ensures NoMatch(sql, tok) ==> r == sql
    ensures forall i: nat | LeftmostMatch(sql, tok, i) :: r == sql[..i] + text + sql[i + |tok|..]
  {
    match FirstMatch(sql, tok, 0)
    case None => sql
    case Some(i) => sql[..i] + text + sql[i + |tok|..]
  }

  /** Whenever the token has an eligible occurrence, one of them is the leftmost. */
  lemma LeftmostExists(sql: string, tok: string, j: nat)
    requires IsMatch(sql, tok, j)
    ensures exists i: nat :: LeftmostMatch(sql, tok, i)
  {
    var r := FirstMatch(sql, tok, 0);
    assert LeftmostMatch(sql, tok, r.value);
  }

  /** An eligible occurrence before which the token's first character does not
      appear is the leftmost match. */
  lemma FirstOccurrenceIsLeftmost(sql: string, tok: string, i: nat)
    requires tok != [] && IsMatch(sql, tok, i) && tok[0] !in sql[..i]
    ensures LeftmostMatch(sql, tok, i)
  {
    forall j: nat | j < i ensures !IsMatch(sql, tok, j) {
      assert sql[..i][j] == sql[j];
      if j + |tok| <= |sql| {
        assert sql[j..j + |tok|][0] == sql[j];
      }
    }
  }

  /** A token that starts inside an open string literal is never replaced: when
      the statement's quotes are balanced and an odd number of them precede
      position i, the text after a token at i has an odd number of quotes. */
  lemma InsideLiteralNeverMatched(sql: string, tok: string, i: nat)
    requires Count('\'', sql) % 2 == 0
    requires i <= |sql| && Count('\'', sql[..i]) % 2 == 1
    requires '\'' !in tok
    ensures !IsMatch(sql, tok, i)
  {
    if i + |tok| <= |sql| && sql[i..i + |tok|] == tok {
      var rest := sql[i + |tok|..];
      assert sql == sql[..i] + tok + rest;
      CountConcat('\'', sql[..i] + tok, rest);
      CountConcat('\'', sql[..i], tok);
      CountAbsent('\'', tok);
    }
  }

  /** When the token's first character does not occur before it and neither a
      quote nor a backslash follows it, that occurrence is the leftmost match
      and is the one replaced. */
  lemma ReplaceAfterPlainPrefix(pre: string, tok: string, suffix: string, text: string)
    requires tok != [] && tok[0] !in pre && '\'' !in suffix && '\\' !in suffix
    ensures LeftmostMatch(pre + tok + suffix, tok, |pre|)
    ensures ReplaceFirst(pre + tok + suffix, tok, text) == pre + text + suffix
  {
    var sql := pre + tok + suffix;
    assert sql[|pre|..|pre| + |tok|] == tok && sql[|pre| + |tok|..] == suffix;
    CountAbsent('\'', suffix);
    assert IsMatch(sql, tok, |pre|);
    assert sql[..|pre|] == pre;
    FirstOccurrenceIsLeftmost(sql, tok, |pre|);
  }

  /** A token written inside a complete single-quoted literal is skipped, and
      the first occurrence after the literal is the one replaced. */
  lemma SkipsTokenInsideLiteral(a: string, lit: string, b: string, tok: string, suffix: string, text: string)
    requires tok != [] && '\'' !in tok
    requires '\'' !in a && '\'' !in lit && '\'' !in b && tok[0] !in a && tok[0] !in b
    requires '\'' !in suffix && '\\' !in suffix
    ensures ReplaceFirst(a + "'" + lit + "'" + b + tok + suffix, tok, text)
         == a + "'" + lit + "'" + b + text + suffix
  {
    var pre := a + "'" + lit + "'" + b;
    var sql := pre + tok + suffix;
    var close := |a| + 1 + |lit|;
    assert sql[|pre|..|pre| + |tok|] == tok && sql[|pre| + |tok|..] == suffix;
    CountAbsent('\'', suffix);
    assert IsMatch(sql, tok, |pre|);
    // the statement holds exactly two quotes
    CountAbsent('\'', a); CountAbsent('\'', lit); CountAbsent('\'', b); CountAbsent('\'', tok);
    CountConcat('\'', a, "'");
    CountConcat('\'', a + "'", lit);
    CountConcat('\'', a + "'" + lit, "'");
    CountConcat('\'', a + "'" + lit + "'", b);
    CountConcat('\'', pre, tok);
    CountConcat('\'', pre + tok, suffix);
    forall j: nat | j < |pre| ensures !IsMatch(sql, tok, j) {
      if j < |a| {
        assert sql[j] == a[j];
        if j + |tok| <= |sql| { assert sql[j..j + |tok|][0] == sql[j]; }
      } else if j == |a| || j == close {
        if j + |tok| <= |sql| { assert sql[j..j + |tok|][0] == sql[j] == '\''; }
      } else if j < close {
        var inside := lit[..j - |a| - 1];
        assert sql[..j] == (a + "'") + inside;
        assert '\'' !in inside by {
          forall k | 0 <= k < |inside| ensures inside[k] == lit[k] { }
        }
        CountAbsent('\'', inside);
        CountConcat('\'', a + "'", inside);
        InsideLiteralNeverMatched(sql, tok, j);
      } else {
        assert sql[j] == b[j - close - 1];
        if j + |tok| <= |sql| { assert sql[j..j + |tok|][0] == sql[j]; }
      }
    }
    assert LeftmostMatch(sql, tok, |pre|);
    assert sql[..|pre|] == pre;
  }

  /** A character that is in neither the statement nor the inserted text is
      not in the result. */
  lemma ReplaceFirstAddsOnlyText(sql: string, tok: string, text: string, c: char)
    requires c !in sql && c !in text
    ensures c !in ReplaceFirst(sql, tok, text)
  {
    match FirstMatch(sql, tok, 0)
    case None =>
    case Some(i) =>
      var r := sql[..i] + text + sql[i + |tok|..];
      forall k | 0 <= k < |r| ensures r[k] != c {
        if k < i {
          assert r[k] == sql[k];
        } else if k >= i + |text| {
          assert r[k] == sql[k - |text| + |tok|];
        }
      }
  }

  /** The named token `:k` has no word boundary: it also matches the start of
      a longer name such as `:kx`, which then wins as the leftmost match. */
  lemma NamedTokenMatchesLongerName()
    ensures ReplaceFirst(":kx = :k", ":k", "1") == "1x = :k"
  {
    var sql := ":kx = :k";
    assert sql[2..] == "x = :k";
    CountAbsent('\'', "x = :k");
    assert LeftmostMatch(sql, ":k", 0);
  }

  /** The watcher's step as written (line 71): the rendered binding is handed
      to preg_replace as its replacement template, so what is inserted is its
      expansion, not the rendered text itself. */
  function ReplaceFirstAsWritten(sql: string, tok: string, text: string): (r: string)
    ensures NoMatch(sql, tok) ==> r == sql
    ensures forall i: nat | LeftmostMatch(sql, tok, i) :: r == sql[..i] + Replacement.Expand(text, tok) + sql[i + |tok|..]
  {
    ReplaceFirst(sql, tok, Replacement.Expand(text, tok))
  }

  /** For rendered text without backslash or dollar sign the step as written
      and the literal step agree. */
  lemma AsWrittenAgreesOnPlainText(sql: string, tok: string, text: string)
    requires '\\' !in text && '$' !in text
    ensures ReplaceFirstAsWritten(sql, tok, text) == ReplaceFirst(sql, tok, text)
  {
    Replacement.ExpandPlain(text, tok);
  }

  lemma FallbackOfBackslash()
    ensures Quoting.Fallback("a\\b") == "'a\\\\b'"
  {
    assert Quoting.Escape("b") == "b";
    assert Quoting.Escape("\\b") == "\\\\b";
    assert Quoting.Escape("a\\b") == "a\\\\b";
  }

  lemma ExpandCollapsesBackslash()
    ensures Replacement.Expand("'a\\\\b'", "?") == "'a\\b'"
  {
    assert Replacement.Expand("'", "?") == "'";
    assert Replacement.Expand("b'", "?") == "b'";
    assert Replacement.Expand("\\\\b'", "?") == "\\b'";
    assert Replacement.Expand("a\\\\b'", "?") == "a\\b'";
  }

  lemma UnquoteBackspace()
    ensures Quoting.Unquote("'a\\b'") == Some("a" + [Quoting.Backspace])
  {
    var e := "\\b";
    assert e[0] == '\\' && e[1] == 'b' && e[2..] == [];
    assert Quoting.Unescaped('b') == Some(Quoting.Backspace);
    assert Quoting.Unescape(e[2..]) == Some([]);
    assert Quoting.Unescape(e) == Some([Quoting.Backspace] + []);
    assert [Quoting.Backspace] + [] == [Quoting.Backspace];
    var t := "a\\b";
    assert t[0] == 'a' && !Quoting.IsSpecial('a') && t[1..] == e;
    assert Quoting.Unescape(t[1..]) == Some([Quoting.Backspace]);
    assert Quoting.Unescape(t) == Some(['a'] + [Quoting.Backspace]);
    assert "'a\\b'"[1..4] == "a\\b";
  }

  lemma AsWrittenStepOnBackslash()
    ensures ReplaceFirstAsWritten("select " + "?", "?", Quoting.Fallback("a\\b")) == "select " + "'a\\b'"
  {
    FallbackOfBackslash();
    ExpandCollapsesBackslash();
    ReplaceAfterPlainPrefix("select ", "?", [], "'a\\b'");
    assert "select " + "?" + [] == "select " + "?";
    assert "select " + "'a\\b'" + [] == "select " + "'a\\b'";
  }

  lemma LiteralStepOnBackslash()
    ensures ReplaceFirst("select " + "?", "?", Quoting.Fallback("a\\b")) == "select " + "'a\\\\b'"
  {
    FallbackOfBackslash();
    ReplaceAfterPlainPrefix("select ", "?", [], "'a\\\\b'");
    assert "select " + "?" + [] == "select " + "?";
    assert "select " + "'a\\\\b'" + [] == "select " + "'a\\\\b'";
  }

  /** The string `a\b` quoted by the fallback is `'a\\b'`; the step as written
      collapses the doubled backslash, and the literal shown, `'a\b'`, reads
      back as `a` followed by a backspace. The literal step keeps `'a\\b'`,
      which reads back as `a\b`. */
  lemma AsWrittenCollapsesBackslash()
    ensures ReplaceFirstAsWritten("select " + "?", "?", Quoting.Fallback("a\\b")) == "select " + "'a\\b'"
    ensures Quoting.Unquote("'a\\b'") == Some("a" + [Quoting.Backspace])
    ensures ReplaceFirst("select " + "?", "?", Quoting.Fallback("a\\b")) == "select " + "'a\\\\b'"
    ensures Quoting.Unquote("'a\\\\b'") == Some("a\\b")
  {
    AsWrittenStepOnBackslash();
    UnquoteBackspace();
    LiteralStepOnBackslash();
    FallbackOfBackslash();
    Quoting.FallbackRoundTrip("a\\b");
  }
}
