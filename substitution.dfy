/** replaceBindings: the bindings, in order, each fill one placeholder of the
    statement text produced by the bindings before them. */
module Substitution {
  import opened Results
  import opened Placeholders
  import Rendering
  import Quoting

  /** A binding's key after normalization: an integer position or a name. */
  datatype Key = Position(index: int) | Name(name: string)

  datatype Binding = Binding(key: Key, value: Rendering.Value)

  /** The placeholder a binding fills: `?` for a position, `:name` for a name. */
  function Token(k: Key): string {
    match k
    case Position(_) => "?"
    case Name(n) => ":" + n
  }

  /** The reconstructed statement: each binding in turn renders its value and
      replaces the leftmost eligible occurrence of its token in the text left by
      the previous bindings; the first driver error ends the reconstruction. */
  function Statement(sql: string, bindings: seq<Binding>, native: string -> Quoting.NativeQuote): Result<string>
    decreases |bindings|
  {
    if bindings == [] then Ok(sql)
    else
      match Rendering.Render(bindings[0].value, native)
      case Err(code) => Err(code)
      case Ok(text) => Statement(ReplaceFirst(sql, Token(bindings[0].key), text), bindings[1..], native)
  }

  /** The watcher's loop over the bindings, reassigning the statement text on each pass. */
  method ReplaceBindings(sql: string, bindings: seq<Binding>, native: string -> Quoting.NativeQuote)
    returns (r: Result<string>)
    ensures r == Statement(sql, bindings, native)
  {
    var stmt := sql;
    for i := 0 to |bindings|
      invariant Statement(sql, bindings, native) == Statement(stmt, bindings[i..], native)
    {
      var binding := bindings[i];
      var rendered := Rendering.Render(binding.value, native);
      if rendered.Err? {
        return Err(rendered.code);
      }
      assert bindings[i..][1..] == bindings[i + 1..];
      stmt := ReplaceFirst(stmt, Token(binding.key), rendered.value);
    }
    assert bindings[|bindings|..] == [];
    return Ok(stmt);
  }

  /** One binding that renders to t: the statement after it is the step's result. */
  lemma StatementStep(sql: string, b: Binding, rest: seq<Binding>, native: string -> Quoting.NativeQuote, t: string)
    requires Rendering.Render(b.value, native) == Ok(t)
    ensures Statement(sql, [b] + rest, native) == Statement(ReplaceFirst(sql, Token(b.key), t), rest, native)
  {
    assert ([b] + rest)[0] == b && ([b] + rest)[1..] == rest;
  }

  /** The reconstruction succeeds exactly when every binding renders; a binding
      without a placeholder left is no error. */
  lemma {:induction false} StatementOkIff(sql: string, bindings: seq<Binding>, native: string -> Quoting.NativeQuote)
    ensures Statement(sql, bindings, native).Ok?
        <==> forall k | 0 <= k < |bindings| :: Rendering.Render(bindings[k].value, native).Ok?
    decreases |bindings|
  {
    if bindings != [] {
      var rendered := Rendering.Render(bindings[0].value, native);
      if rendered.Ok? {
        StatementOkIff(ReplaceFirst(sql, Token(bindings[0].key), rendered.value), bindings[1..], native);
        assert forall k | 1 <= k < |bindings| :: bindings[1..][k - 1] == bindings[k];
      }
    }
  }

  /** A driver error other than IM001 while quoting a string binding is the
      result, provided every binding before it rendered. */
  lemma {:induction false} DriverErrorPropagates(sql: string, bindings: seq<Binding>, native: string -> Quoting.NativeQuote, k: nat)
    requires k < |bindings| && bindings[k].value.Str?
    requires native(bindings[k].value.s).Raised? && native(bindings[k].value.s).code != Quoting.Unsupported
    requires forall j | 0 <= j < k :: Rendering.Render(bindings[j].value, native).Ok?
    ensures Statement(sql, bindings, native) == Err(native(bindings[k].value.s).code)
    decreases k
  {
    var rendered := Rendering.Render(bindings[0].value, native);
    if k == 0 {
      assert rendered == Err(native(bindings[0].value.s).code);
    } else {
      assert rendered.Ok?;
      var next := ReplaceFirst(sql, Token(bindings[0].key), rendered.value);
      assert Statement(sql, bindings, native) == Statement(next, bindings[1..], native);
      forall j | 0 <= j < k - 1 ensures Rendering.Render(bindings[1..][j].value, native).Ok? {
        assert bindings[1..][j] == bindings[j + 1];
      }
      assert bindings[1..][k - 1] == bindings[k];
      DriverErrorPropagates(next, bindings[1..], native, k - 1);
    }
  }

  // ---------------------------------------------------------------------------
  // Bindings that all fill the same token, in a statement without literals

  /** The token occurs at position j (eligible or not). */
  predicate Occurs(s: string, tok: string, j: nat) {
    j + |tok| <= |s| && s[j..j + |tok|] == tok
  }

  /** Reference reading of "the texts fill the first occurrences of the token,
      left to right": one scan of the statement, consuming one text per occurrence. */
  function Fill(sql: string, tok: string, texts: seq<string>): string
    requires tok != []
    decreases |sql|
  {
    if sql == [] then []
    else if texts != [] && tok <= sql then texts[0] + Fill(sql[|tok|..], tok, texts[1..])
    else [sql[0]] + Fill(sql[1..], tok, texts)
  }

  lemma {:induction false} FillWithoutTexts(sql: string, tok: string)
    requires tok != []
    ensures Fill(sql, tok, []) == sql
    decreases |sql|
  {
    if sql != [] {
      FillWithoutTexts(sql[1..], tok);
      assert [sql[0]] + sql[1..] == sql;
    }
  }

  /** A prefix in which no occurrence of the token starts is copied as it is. */
  lemma {:induction false} FillSkips(a: string, b: string, tok: string, texts: seq<string>)
    requires tok != []
    requires forall j: nat | j < |a| :: !Occurs(a + b, tok, j)
    ensures Fill(a + b, tok, texts) == a + Fill(b, tok, texts)
    decreases |a|
  {
    if a == [] {
      assert a + b == b;
    } else {
      var s := a + b;
      assert !Occurs(s, tok, 0);
      assert !(tok <= s) by {
        if |tok| <= |s| { assert s[..|tok|] == s[0..|tok|]; }
      }
      assert s[0] == a[0] && s[1..] == a[1..] + b;
      forall j: nat | j < |a[1..]| ensures !Occurs(a[1..] + b, tok, j) {
        assert !Occurs(s, tok, j + 1);
        var s' := a[1..] + b;
        if j + |tok| <= |s'| {
          forall m | j <= m < j + |tok| ensures s'[m] == s[m + 1] { }
          assert s'[j..j + |tok|] == s[j + 1..j + 1 + |tok|];
        }
      }
      FillSkips(a[1..], b, tok, texts);
      assert [a[0]] + (a[1..] + Fill(b, tok, texts)) == a + Fill(b, tok, texts);
    }
  }

  /** In a statement without quotes or backslashes every suffix is eligible. */
  lemma SuffixEligible(sql: string, k: nat)
    requires '\'' !in sql && '\\' !in sql && k <= |sql|
    ensures Eligible(sql[k..])
  {
    forall m | 0 <= m < |sql[k..]| ensures sql[k..][m] == sql[k + m] { }
    CountAbsent('\'', sql[k..]);
  }

  lemma NoOccurrenceBeforeLeftmost(sql: string, tok: string, i: nat, j: nat)
    requires '\'' !in sql && '\\' !in sql
    requires LeftmostMatch(sql, tok, i) && j < i
    ensures !Occurs(sql, tok, j)
  {
    assert !IsMatch(sql, tok, j);
    if j + |tok| <= |sql| {
      SuffixEligible(sql, j + |tok|);
    }
  }

  /** Filling a statement whose first eligible occurrence is at i consumes one
      text there and copies the prefix before it. */
  lemma FillAtLeftmost(sql: string, tok: string, i: nat, t: string, ts: seq<string>)
    requires tok != [] && '\'' !in sql && '\\' !in sql
    requires LeftmostMatch(sql, tok, i)
    ensures Fill(sql, tok, [t] + ts) == sql[..i] + t + Fill(sql[i + |tok|..], tok, ts)
  {
    var pre, rest := sql[..i], sql[i + |tok|..];
    SplitAtMatch(sql, tok, i);
    forall j: nat | j < |pre| ensures !Occurs(sql, tok, j) {
      NoOccurrenceBeforeLeftmost(sql, tok, i, j);
    }
    FillSkips(pre, tok + rest, tok, [t] + ts);
    FillAtToken(tok, rest, t, ts);
  }

  lemma SplitAtMatch(sql: string, tok: string, i: nat)
    requires IsMatch(sql, tok, i)
    ensures sql == sql[..i] + (tok + sql[i + |tok|..])
  {
    assert sql[..i] + sql[i..i + |tok|] + sql[i + |tok|..] == sql;
  }

  lemma FillAtToken(tok: string, rest: string, t: string, ts: seq<string>)
    requires tok != []
    ensures Fill(tok + rest, tok, [t] + ts) == t + Fill(rest, tok, ts)
  {
    assert tok <= tok + rest && (tok + rest)[|tok|..] == rest;
  }

  /** Text whose characters are all foreign to the token: non-empty, and no
      character of the token in it. It can neither form nor complete an
      occurrence of the token. */
  predicate Foreign(text: string, tok: string) {
    text != [] && forall k | 0 <= k < |text| :: text[k] !in tok
  }

  /** A prefix that no occurrence of the token can start in, whatever follows
      it: no occurrence lies inside it, and its last character is not in the
      token. */
  predicate Sealed(p: string, tok: string) {
    (forall j: nat | j < |p| :: !Occurs(p, tok, j)) && (p == [] || p[|p| - 1] !in tok)
  }

  lemma ForeignCharBreaksWindow(s: string, tok: string, j: nat, k: nat)
    requires j <= k < j + |tok| <= |s| && s[k] !in tok
    ensures s[j..j + |tok|] != tok
  {
    assert s[j..j + |tok|][k - j] == s[k];
  }

  lemma SealedBlocks(p: string, rest: string, tok: string, j: nat)
    requires Sealed(p, tok) && j < |p|
    ensures !Occurs(p + rest, tok, j)
  {
    var s := p + rest;
    if j + |tok| <= |s| {
      if j + |tok| <= |p| {
        assert s[j..j + |tok|] == p[j..j + |tok|];
        assert !Occurs(p, tok, j);
      } else {
        assert s[|p| - 1] == p[|p| - 1];
        ForeignCharBreaksWindow(s, tok, j, |p| - 1);
      }
    }
  }

  /** A match in the text after a prefix is a match of the whole statement, shifted. */
  lemma ShiftMatch(p: string, rest: string, tok: string, j: nat)
    ensures IsMatch(p + rest, tok, |p| + j) == IsMatch(rest, tok, j)
  {
    var s := p + rest;
    if |p| + j + |tok| <= |s| {
      assert s[|p| + j..|p| + j + |tok|] == rest[j..j + |tok|];
      assert s[|p| + j + |tok|..] == rest[j + |tok|..];
    }
  }

  /** Replacing the first occurrence of the token in the unsealed part by a
      foreign text moves the seal to the end of that text. */
  lemma SealedExtend(p: string, rest: string, tok: string, i: nat, t: string)
    requires tok != [] && Sealed(p, tok) && i <= |rest|
    requires forall j: nat | j < i :: !Occurs(rest, tok, j)
    requires Foreign(t, tok)
    ensures Sealed(p + rest[..i] + t, tok)
  {
    var q := p + rest[..i] + t;
    assert q[|q| - 1] == t[|t| - 1];
    forall j: nat | j + |tok| <= |q| ensures !Occurs(q, tok, j) {
      if j < |p| {
        assert p + (rest[..i] + t) == q;
        SealedBlocks(p, rest[..i] + t, tok, j);
      } else if j + |tok| <= |p| + i {
        forall m | j <= m < j + |tok| ensures q[m] == rest[m - |p|] {
          assert q[m] == rest[..i][m - |p|];
        }
        assert q[j..j + |tok|] == rest[j - |p|..j - |p| + |tok|];
        assert !Occurs(rest, tok, j - |p|);
      } else {
        var k := if j >= |p| + i then j else |p| + i;
        assert q[k] == t[k - |p| - i];
        ForeignCharBreaksWindow(q, tok, j, k);
      }
    }
  }

  /** The rendered text of a binding, for bindings that all render. */
  function Texts(bindings: seq<Binding>, native: string -> Quoting.NativeQuote): seq<string>
    requires forall b <- bindings :: Rendering.Render(b.value, native).Ok?
  {
    if bindings == [] then []
    else [Rendering.Render(bindings[0].value, native).value] + Texts(bindings[1..], native)
  }

  /** The first eligible occurrence after a sealed prefix is the first
      occurrence of the plain remainder, and that is what one step replaces. */
  lemma StepAfterSealed(p: string, rest: string, tok: string, i: nat, t: string)
    requires tok != [] && Sealed(p, tok) && LeftmostMatch(rest, tok, i)
    ensures ReplaceFirst(p + rest, tok, t) == (p + rest[..i] + t) + rest[i + |tok|..]
  {
    LeftmostAfterSealed(p, rest, tok, i);
    var s := p + rest;
    assert s[..|p| + i] == p + rest[..i] && s[|p| + i + |tok|..] == rest[i + |tok|..];
  }

  lemma LeftmostAfterSealed(p: string, rest: string, tok: string, i: nat)
    requires tok != [] && Sealed(p, tok) && LeftmostMatch(rest, tok, i)
    ensures LeftmostMatch(p + rest, tok, |p| + i)
  {
    forall j: nat | j < |p| + i ensures !IsMatch(p + rest, tok, j) {
      if j < |p| {
        SealedBlocks(p, rest, tok, j);
      } else {
        ShiftMatch(p, rest, tok, j - |p|);
      }
    }
    ShiftMatch(p, rest, tok, i);
  }

  /** With no eligible occurrence in the plain remainder, none exists after a
      sealed prefix either, and the step leaves the statement unchanged. */
  lemma NoStepAfterSealed(p: string, rest: string, tok: string, t: string)
    requires tok != [] && Sealed(p, tok)
    requires forall j: nat :: !IsMatch(rest, tok, j)
    ensures ReplaceFirst(p + rest, tok, t) == p + rest
  {
    forall j: nat ensures !IsMatch(p + rest, tok, j) {
      if j < |p| {
        SealedBlocks(p, rest, tok, j);
      } else {
        ShiftMatch(p, rest, tok, j - |p|);
        assert !IsMatch(rest, tok, j - |p|);
      }
    }
    assert NoMatch(p + rest, tok);
  }

  /** Filling a plain statement with no occurrence of the token leaves it as it is. */
  lemma FillWithoutOccurrence(rest: string, tok: string, texts: seq<string>)
    requires tok != [] && '\'' !in rest && '\\' !in rest
    requires forall j: nat :: !IsMatch(rest, tok, j)
    ensures Fill(rest, tok, texts) == rest
  {
    forall j: nat ensures !Occurs(rest, tok, j) {
      if j + |tok| <= |rest| {
        SuffixEligible(rest, j + |tok|);
        assert !IsMatch(rest, tok, j);
      }
    }
    assert rest + [] == rest;
    FillSkips(rest, [], tok, texts);
  }

  /** One step after a sealed prefix, when the plain remainder still holds an
      occurrence: the inserted text joins the sealed prefix, and the fill of the
      remainder advances by one text. */
  lemma InsertAfterSealed(p: string, rest: string, tok: string, i: nat, t: string, ts: seq<string>)
    requires tok != [] && Sealed(p, tok) && '\'' !in rest && '\\' !in rest
    requires LeftmostMatch(rest, tok, i) && Foreign(t, tok)
    ensures ReplaceFirst(p + rest, tok, t) == (p + rest[..i] + t) + rest[i + |tok|..]
    ensures Sealed(p + rest[..i] + t, tok)
    ensures '\'' !in rest[i + |tok|..] && '\\' !in rest[i + |tok|..]
    ensures p + Fill(rest, tok, [t] + ts) == (p + rest[..i] + t) + Fill(rest[i + |tok|..], tok, ts)
  {
    StepAfterSealed(p, rest, tok, i, t);
    forall j: nat | j < i ensures !Occurs(rest, tok, j) {
      NoOccurrenceBeforeLeftmost(rest, tok, i, j);
    }
    SealedExtend(p, rest, tok, i, t);
    PlainTail(rest, i + |tok|);
    FillAfterInsert(p, rest, tok, i, t, ts);
  }

  lemma SeqAssoc(p: string, a: string, t: string, f: string)
    ensures p + (a + t + f) == (p + a + t) + f
  {
  }

  lemma PlainTail(s: string, k: nat)
    requires '\'' !in s && '\\' !in s && k <= |s|
    ensures '\'' !in s[k..] && '\\' !in s[k..]
  {
    forall m | 0 <= m < |s[k..]| ensures s[k..][m] == s[k + m] { }
  }

  lemma FillAfterInsert(p: string, rest: string, tok: string, i: nat, t: string, ts: seq<string>)
    requires tok != [] && '\'' !in rest && '\\' !in rest && LeftmostMatch(rest, tok, i)
    ensures p + Fill(rest, tok, [t] + ts) == (p + rest[..i] + t) + Fill(rest[i + |tok|..], tok, ts)
  {
    FillAtLeftmost(rest, tok, i, t, ts);
    var a, f := rest[..i], Fill(rest[i + |tok|..], tok, ts);
    assert Fill(rest, tok, [t] + ts) == a + t + f;
    SeqAssoc(p, a, t, f);
  }

  /** One step after a sealed prefix, when the plain remainder holds no
      eligible occurrence: nothing changes, and neither does the fill. */
  lemma SkipAfterSealed(p: string, rest: string, tok: string, t: string, ts: seq<string>)
    requires tok != [] && Sealed(p, tok) && '\'' !in rest && '\\' !in rest
    requires forall j: nat :: !IsMatch(rest, tok, j)
    ensures ReplaceFirst(p + rest, tok, t) == p + rest
    ensures Fill(rest, tok, [t] + ts) == Fill(rest, tok, ts)
  {
    NoStepAfterSealed(p, rest, tok, t);
    FillWithoutOccurrence(rest, tok, [t] + ts);
    FillWithoutOccurrence(rest, tok, ts);
  }

  /** The induction behind SameTokenFillsInOrder: the statement is a sealed
      prefix, holding the texts inserted so far, followed by the untouched
      plain remainder of the original statement. */
  lemma {:induction false} FillsAfterSealed(p: string, rest: string, tok: string, bindings: seq<Binding>, native: string -> Quoting.NativeQuote)
    requires tok != [] && Sealed(p, tok) && '\'' !in rest && '\\' !in rest
    requires forall b <- bindings :: Token(b.key) == tok && Rendering.Render(b.value, native).Ok?
    requires forall b <- bindings :: Foreign(Rendering.Render(b.value, native).value, tok)
    ensures Statement(p + rest, bindings, native) == Ok(p + Fill(rest, tok, Texts(bindings, native)))
    decreases |bindings|
  {
    if bindings == [] {
      FillWithoutTexts(rest, tok);
    } else {
      var b, others := bindings[0], bindings[1..];
      var t := Rendering.Render(b.value, native).value;
      var ts := Texts(others, native);
      assert Texts(bindings, native) == [t] + ts;
      assert bindings == [b] + others;
      assert Foreign(t, tok) && Token(b.key) == tok;
      assert forall c <- others :: c in bindings;
      StatementStep(p + rest, b, others, native, t);
      match FirstMatch(rest, tok, 0)
      case Some(i) =>
        InsertAfterSealed(p, rest, tok, i, t, ts);
        FillsAfterSealed(p + rest[..i] + t, rest[i + |tok|..], tok, others, native);
      case None =>
        SkipAfterSealed(p, rest, tok, t, ts);
        FillsAfterSealed(p, rest, tok, others, native);
    }
  }

  /** Bindings that all fill the same token, in a statement without quotes or
      backslashes, fill its first occurrences left to right, one per binding,
      in binding order; occurrences beyond the bindings stay as they are. The
      inserted texts may hold quotes and backslashes (string bindings quoted
      natively or by the fallback): each lands before every occurrence still
      to be filled, so it never makes one of them ineligible. */
  lemma SameTokenFillsInOrder(sql: string, tok: string, bindings: seq<Binding>, native: string -> Quoting.NativeQuote)
    requires tok != [] && '\'' !in sql && '\\' !in sql
    requires forall b <- bindings :: Token(b.key) == tok && Rendering.Render(b.value, native).Ok?
    requires forall b <- bindings :: Foreign(Rendering.Render(b.value, native).value, tok)
    ensures Statement(sql, bindings, native) == Ok(Fill(sql, tok, Texts(bindings, native)))
  {
    assert Sealed([], tok);
    FillsAfterSealed([], sql, tok, bindings, native);
    assert [] + sql == sql && [] + Fill(sql, tok, Texts(bindings, native)) == Fill(sql, tok, Texts(bindings, native));
  }

  /** With a statement free of quotes and backslashes and only null or integer
      positional bindings, n bindings replace the first n `?` tokens, left to right. */
  lemma PositionalFillsLeftToRight(sql: string, bindings: seq<Binding>, native: string -> Quoting.NativeQuote)
    requires '\'' !in sql && '\\' !in sql
    requires forall b <- bindings :: b.key.Position? && (b.value.Null? || b.value.Int?)
    ensures Statement(sql, bindings, native) == Ok(Fill(sql, "?", Texts(bindings, native)))
  {
    forall b <- bindings
      ensures Token(b.key) == "?" && Rendering.Render(b.value, native).Ok?
      ensures Foreign(Rendering.Render(b.value, native).value, "?")
    {
      Rendering.PlainRendering(b.value, native);
      var t := Rendering.Render(b.value, native).value;
      forall k | 0 <= k < |t| ensures t[k] != '\'' && t[k] != '\\' && t[k] != '?' {
        assert t[k] == '-' || Rendering.IsDigit(t[k]) || t[k] in "nul";
      }
    }
    SameTokenFillsInOrder(sql, "?", bindings, native);
  }
}
