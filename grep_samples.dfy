/**
 * The two texts the grep unit tests search, and what searching them gives.
 * Both grep modules run their tests against these facts.
 */
module GrepSamples {
  import opened GrepLines

  /** The text of the case-sensitive test, four lines joined by '\n'. */
  const DuctTape: string :=
    "Rust:" + "\n" + ("safe, fast, productive." + "\n" + ("Pick three." + "\n" + "Duct tape."))

  /** The text of the case-insensitive test, four lines joined by '\n'. */
  const TrustMe: string :=
    "Rust:" + "\n" + ("safe, fast, productive." + "\n" + ("Pick three." + "\n" + "Trust me."))

  /** Four lines without line breaks or carriage returns, joined by '\n', split back into themselves. */
  lemma LinesOfFour(a: string, b: string, c: string, d: string)
    requires '\n' !in a && '\n' !in b && '\n' !in c && '\n' !in d && d != []
    requires StripCarriageReturn(a) == a && StripCarriageReturn(b) == b && StripCarriageReturn(c) == c
    ensures Lines(a + "\n" + (b + "\n" + (c + "\n" + d))) == [a, b, c, d]
  {
    var t3 := c + "\n" + d;
    var t2 := b + "\n" + t3;
    LinesLast(d);
    LinesCons(c, d);
    assert Lines(t3) == [c, d];
    LinesCons(b, t3);
    assert Lines(t2) == [b, c, d];
    LinesCons(a, t2);
  }

  lemma SelectedFour(a: string, b: string, c: string, d: string, query: string, ignoreCase: bool)
    ensures Selected([a, b, c, d], query, ignoreCase)
         == Selected([a], query, ignoreCase) + Selected([b], query, ignoreCase)
          + Selected([c], query, ignoreCase) + Selected([d], query, ignoreCase)
  {
    SelectedAppend([a], [b], query, ignoreCase);
    SelectedAppend([a, b], [c], query, ignoreCase);
    SelectedAppend([a, b, c], [d], query, ignoreCase);
    assert [a] + [b] == [a, b];
    assert [a, b] + [c] == [a, b, c];
    assert [a, b, c] + [d] == [a, b, c, d];
  }

  lemma DuctTapeLines()
    ensures Lines(DuctTape) == ["Rust:", "safe, fast, productive.", "Pick three.", "Duct tape."]
  {
    LinesOfFour("Rust:", "safe, fast, productive.", "Pick three.", "Duct tape.");
  }

  lemma TrustMeLines()
    ensures Lines(TrustMe) == ["Rust:", "safe, fast, productive.", "Pick three.", "Trust me."]
  {
    LinesOfFour("Rust:", "safe, fast, productive.", "Pick three.", "Trust me.");
  }

  lemma ProductiveHasDuct()
    ensures Contains("safe, fast, productive.", "duct")
  {
    ContainsSuffix("safe, fast, pro", "ductive.", "duct");
    assert "safe, fast, pro" + "ductive." == "safe, fast, productive.";
  }

  /** Only the second line of DuctTape contains "duct": the capital D of "Duct" does not match. */
  lemma DuctSearch()
    ensures Selected(Lines(DuctTape), "duct", false) == ["safe, fast, productive."]
  {
    DuctTapeLines();
    SelectedFour("Rust:", "safe, fast, productive.", "Pick three.", "Duct tape.", "duct", false);
    FirstCharAbsent("Rust:", "duct");
    ProductiveHasDuct();
    FirstCharAbsent("Pick three.", "duct");
    FirstCharAbsent("Duct tape.", "duct");
    SelectedSingle("Rust:", "duct", false);
    SelectedSingle("safe, fast, productive.", "duct", false);
    SelectedSingle("Pick three.", "duct", false);
    SelectedSingle("Duct tape.", "duct", false);
  }

  lemma LowerSamples()
    ensures Lower("rUsT") == "rust"
    ensures Lower("Rust:") == "rust:"
    ensures Lower("safe, fast, productive.") == "safe, fast, productive."
    ensures Lower("Pick three.") == "pick three."
    ensures Lower("Trust me.") == "trust me."
  {
  }

  lemma ProductiveLacksRust()
    ensures !Contains("safe, fast, productive.", "rust")
  {
    SkipPrefix("safe, fast, p", "roductive.", "rust");
    assert "safe, fast, p" + "roductive." == "safe, fast, productive.";
    StepOver("roductive.", "rust", 1);
    assert "roductive."[1..] == "oductive.";
    FirstCharAbsent("oductive.", "rust");
  }

  lemma ThreeLacksRust()
    ensures !Contains("pick three.", "rust")
  {
    SkipPrefix("pick th", "ree.", "rust");
    assert "pick th" + "ree." == "pick three.";
    StepOver("ree.", "rust", 1);
    assert "ree."[1..] == "ee.";
    FirstCharAbsent("ee.", "rust");
  }

  lemma TrustHasRust()
    ensures Contains("trust me.", "rust") && Contains("rust:", "rust")
  {
    ContainsSuffix("t", "rust me.", "rust");
    assert "t" + "rust me." == "trust me.";
    ContainsSuffix("", "rust:", "rust");
    assert "" + "rust:" == "rust:";
  }

  /** Ignoring case, "rUsT" matches "Rust:" and "Trust me." and nothing else. */
  lemma RustSearch()
    ensures Selected(Lines(TrustMe), "rUsT", true) == ["Rust:", "Trust me."]
  {
    TrustMeLines();
    LowerSamples();
    SelectedFour("Rust:", "safe, fast, productive.", "Pick three.", "Trust me.", "rUsT", true);
    TrustHasRust();
    ProductiveLacksRust();
    ThreeLacksRust();
    SelectedSingle("Rust:", "rUsT", true);
    SelectedSingle("safe, fast, productive.", "rUsT", true);
    SelectedSingle("Pick three.", "rUsT", true);
    SelectedSingle("Trust me.", "rUsT", true);
  }
}
