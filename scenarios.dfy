/** Worked statements: the reconstruction of particular queries, derived from
    the general contracts. Each statement is written as the concatenation of
    its parts (the parts the general lemmas speak of). */
module Scenarios {
  import opened Results
  import opened Placeholders
  import opened Substitution
  import Rendering
  import Quoting

  /** `select '?' , ?` with the single binding 5 becomes `select '?' , 5`: the
      `?` inside the quoted literal is left alone. */
  lemma QuotedPlaceholderIsSkipped(native: string -> Quoting.NativeQuote)
    ensures Statement("select " + "'" + "?" + "'" + " , " + "?", [Binding(Position(0), Rendering.Int(5))], native)
         == Ok("select " + "'" + "?" + "'" + " , " + "5")
  {
    var b := Binding(Position(0), Rendering.Int(5));
    assert Rendering.IntText(5) == "5";
    var a := "select " + "'" + "?" + "'" + " , ";
    SkipsTokenInsideLiteral("select ", "?", " , ", "?", [], "5");
    assert a + "?" + [] == a + "?" && a + "5" + [] == a + "5";
    StatementStep(a + "?", b, [], native, "5");
    assert [b] + [] == [b];
  }

  lemma RepeatedNameFirstStep()
    ensures ReplaceFirst("where a = " + ":x" + " and b = " + ":x", ":x", "1")
         == "where a = " + "1" + " and b = " + ":x" + []
  {
    ReplaceAfterPlainPrefix("where a = ", ":x", " and b = " + ":x", "1");
    assert "where a = " + ":x" + (" and b = " + ":x") == "where a = " + ":x" + " and b = " + ":x";
    assert "where a = " + "1" + (" and b = " + ":x") == "where a = " + "1" + " and b = " + ":x" + [];
  }

  lemma RepeatedNameSecondStep()
    ensures ReplaceFirst("where a = " + "1" + " and b = " + ":x" + [], ":x", "2")
         == "where a = " + "1" + " and b = " + "2" + []
  {
    ReplaceAfterPlainPrefix("where a = " + "1" + " and b = ", ":x", [], "2");
  }

  /** `where a = :x and b = :x` with x bound to 1 and then to 2 becomes
      `where a = 1 and b = 2`: the first value goes to the first occurrence. */
  lemma RepeatedNameFilledInOrder(native: string -> Quoting.NativeQuote)
    ensures Statement("where a = " + ":x" + " and b = " + ":x",
                      [Binding(Name("x"), Rendering.Int(1)), Binding(Name("x"), Rendering.Int(2))], native)
         == Ok("where a = " + "1" + " and b = " + "2")
  {
    var b1, b2 := Binding(Name("x"), Rendering.Int(1)), Binding(Name("x"), Rendering.Int(2));
    assert Rendering.IntText(1) == "1" && Rendering.IntText(2) == "2";
    assert Token(Name("x")) == ":x";
    var s0 := "where a = " + ":x" + " and b = " + ":x";
    var s1 := "where a = " + "1" + " and b = " + ":x" + [];
    var s2 := "where a = " + "1" + " and b = " + "2" + [];
    RepeatedNameFirstStep();
    RepeatedNameSecondStep();
    assert [b1, b2] == [b1] + [b2] && [b2] == [b2] + [];
    StatementStep(s0, b1, [b2], native, "1");
    StatementStep(s1, b2, [], native, "2");
    assert s2 == "where a = " + "1" + " and b = " + "2";
  }

  lemma FallbackOfName()
    ensures Quoting.Fallback("O'Brien") == "'O\\'Brien'"
  {
    Quoting.EscapeKeepsOrdinaryText("Brien");
    assert Quoting.Escape("'Brien") == "\\'" + "Brien";
    assert Quoting.Escape("O'Brien") == "O" + "\\'Brien";
    assert "'" + "O\\'Brien" + "'" == "'O\\'Brien'";
  }

  lemma RenderNameByFallback(native: string -> Quoting.NativeQuote)
    requires native("O'Brien") == Quoting.Raised(Quoting.Unsupported)
    ensures Rendering.Render(Rendering.Str("O'Brien"), native) == Ok("'O\\'Brien'")
  {
    FallbackOfName();
  }

  lemma FallbackScenarioFirstStep()
    ensures ReplaceFirst("select * from t where id = " + "?" + " and name = " + ":n", "?", "7")
         == "select * from t where id = " + "7" + " and name = " + ":n" + []
  {
    var pre := "select * from t where id = ";
    ReplaceAfterPlainPrefix(pre, "?", " and name = " + ":n", "7");
    assert pre + "?" + (" and name = " + ":n") == pre + "?" + " and name = " + ":n";
    assert pre + "7" + (" and name = " + ":n") == pre + "7" + " and name = " + ":n" + [];
  }

  lemma FallbackScenarioSecondStep()
    ensures ReplaceFirst("select * from t where id = " + "7" + " and name = " + ":n" + [], ":n", "'O\\'Brien'")
         == "select * from t where id = " + "7" + " and name = " + "'O\\'Brien'" + []
  {
    ReplaceAfterPlainPrefix("select * from t where id = " + "7" + " and name = ", ":n", [], "'O\\'Brien'");
  }

  /** `select * from t where id = ? and name = :n` with 7 at position 0 and
      `O'Brien` for n, on a driver whose quoting raises IM001, becomes
      `select * from t where id = 7 and name = 'O\'Brien'`: the integer goes in
      unquoted, the string through the fallback. */
  lemma FallbackScenario(native: string -> Quoting.NativeQuote)
    requires native("O'Brien") == Quoting.Raised(Quoting.Unsupported)
    ensures Statement("select * from t where id = " + "?" + " and name = " + ":n",
                      [Binding(Position(0), Rendering.Int(7)), Binding(Name("n"), Rendering.Str("O'Brien"))],
                      native)
         == Ok("select * from t where id = " + "7" + " and name = " + "'O\\'Brien'")
  {
    var b1, b2 := Binding(Position(0), Rendering.Int(7)), Binding(Name("n"), Rendering.Str("O'Brien"));
    assert Rendering.IntText(7) == "7";
    RenderNameByFallback(native);
    assert Token(b1.key) == "?" && Token(b2.key) == ":n";
    var s0 := "select * from t where id = " + "?" + " and name = " + ":n";
    var s1 := "select * from t where id = " + "7" + " and name = " + ":n" + [];
    var s2 := "select * from t where id = " + "7" + " and name = " + "'O\\'Brien'" + [];
    FallbackScenarioFirstStep();
    FallbackScenarioSecondStep();
    assert [b1, b2] == [b1] + [b2] && [b2] == [b2] + [];
    StatementStep(s0, b1, [b2], native, "7");
    StatementStep(s1, b2, [], native, "'O\\'Brien'");
    assert s2 == "select * from t where id = " + "7" + " and name = " + "'O\\'Brien'";
  }
}
