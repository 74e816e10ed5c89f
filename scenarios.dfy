/** Worked examples: concrete lines and patterns and what the tool does with them. */
module Scenarios {
  import opened Text
  import opened Wrappers
  import opened Normalizer
  import opened GherkinProperties

  /** Only one keyword is removed, so normalising a signature again can
      remove another one: the normaliser is not idempotent in general. */
  lemma KeywordRemovedOnce()
    ensures NormalizeGherkin("Given When I log in") == "When I log in"
    ensures NormalizeGherkin("When I log in") == "I log in"
  {
    LogInWords();
    KeywordThenPlain("Given", "given", "When I log in");
    KeywordThenPlain("When", "when", "I log in");
  }

  /** A canonical line made of a keyword, one space and plain text. */
  lemma KeywordThenPlain(w: string, k: string, u: string)
    requires k in GherkinKeywords && EqualsIgnoreCase(w, k)
    requires Canonical(w + " " + u) && Canonical(u) && u != []
    requires '"' !in u && DigitsInWords(u, false)
    ensures NormalizeGherkin(w + " " + u) == u
  {
    var a := w + " " + u;
    CanonicalStrip(a);
    KeywordLine(w, k, u);
    PlainBody(a);
    TidyCanonical(u);
  }

  lemma LogInWords()
    ensures "Given" + " " + "When I log in" == "Given When I log in"
    ensures "When" + " " + "I log in" == "When I log in"
    ensures EqualsIgnoreCase("Given", "given") && EqualsIgnoreCase("When", "when")
    ensures Canonical("Given When I log in") && Canonical("When I log in") && Canonical("I log in")
    ensures '"' !in "When I log in" && DigitsInWords("When I log in", false)
    ensures '"' !in "I log in" && DigitsInWords("I log in", false)
  {
    LogInCase();
    LogInShape();
    LogInPlain();
  }

  lemma LogInCase()
    ensures EqualsIgnoreCase("Given", "given") && EqualsIgnoreCase("When", "when")
  {
    assert Lower('G') == 'g' && Lower('W') == 'w';
  }

  lemma LogInShape()
    ensures Canonical("Given When I log in") && Canonical("When I log in") && Canonical("I log in")
  {
  }

  lemma LogInPlain()
    ensures '"' !in "When I log in" && DigitsInWords("When I log in", false)
    ensures '"' !in "I log in" && DigitsInWords("I log in", false)
  {
  }

  /** `Feature:` is not stripped: the keyword must be followed by whitespace. */
  lemma FeatureHeaderKept()
    ensures NormalizeGherkin("Feature: Login") == "Feature: Login"
  {
    FeatureHeaderFacts();
    FixedPoint("Feature: Login");
  }

  lemma FeatureHeaderFacts()
    ensures Canonical("Feature: Login") && '"' !in "Feature: Login"
    ensures DigitsInWords("Feature: Login", false)
    ensures forall k :: k in GherkinKeywords ==> !KeywordAt("Feature: Login", k)
  {
    var s := "Feature: Login";
    assert s[7] == ':';
    forall k | k in GherkinKeywords ensures !KeywordAt(s, k) {
      if k == "feature" {
      } else {
        assert Lower(s[0]) == 'f';
        assert k[0] != 'f';
      }
    }
  }

  /** `Scenario Outline` is not a keyword of its own: only `Scenario` goes. */
  lemma OutlineHeader()
    ensures NormalizeGherkin("Scenario Outline: Login") == "Outline: Login"
  {
    OutlineFacts();
    KeywordThenPlain("Scenario", "scenario", "Outline: Login");
  }

  lemma OutlineFacts()
    ensures "Scenario" + " " + "Outline: Login" == "Scenario Outline: Login"
    ensures EqualsIgnoreCase("Scenario", "scenario")
    ensures Canonical("Scenario Outline: Login") && Canonical("Outline: Login")
    ensures '"' !in "Outline: Login" && DigitsInWords("Outline: Login", false)
  {
    OutlineCase();
    OutlineShape();
  }

  lemma OutlineCase()
    ensures EqualsIgnoreCase("Scenario", "scenario")
  {
    assert Lower('S') == 's';
  }

  lemma OutlineShape()
    ensures Canonical("Scenario Outline: Login") && Canonical("Outline: Login")
  {
  }

  /** Digits inside a word are not a numeral: `item3` survives. */
  lemma WordWithDigitKept()
    ensures NormalizeGherkin("Given I pick item3") == "I pick item3"
  {
    ItemFacts();
    KeywordThenPlain("Given", "given", "I pick item3");
  }

  lemma ItemFacts()
    ensures "Given" + " " + "I pick item3" == "Given I pick item3"
    ensures EqualsIgnoreCase("Given", "given")
    ensures Canonical("Given I pick item3") && Canonical("I pick item3")
    ensures '"' !in "I pick item3" && DigitsInWords("I pick item3", false)
  {
    LogInCase();
    ItemShape();
    ItemPlain();
  }

  lemma ItemShape()
    ensures Canonical("Given I pick item3") && Canonical("I pick item3")
  {
  }

  lemma ItemPlain()
    ensures '"' !in "I pick item3" && DigitsInWords("I pick item3", false)
  {
    assert "I pick item3"[10] == 'm';
  }

  /** Steps that differ only in a standalone numeral share a signature. */
  lemma WaitSteps()
    ensures NormalizeGherkin("Then I wait 3 seconds") == NormalizeGherkin("Then I wait 42.5 seconds")
  {
    WaitFacts();
    NumeralIrrelevant("Then I wait ", "3", "42.5", " seconds");
  }

  lemma WaitFacts()
    ensures "Then I wait " + "3" + " seconds" == "Then I wait 3 seconds"
    ensures "Then I wait " + "42.5" + " seconds" == "Then I wait 42.5 seconds"
    ensures IsNumeral("3") && IsNumeral("42.5")
  {
    assert AllDigits("42.5"[..2]) && AllDigits("42.5"[3..]);
  }

  /** Steps that differ only inside double quotes share a signature. */
  lemma StatusSteps()
    ensures NormalizeGherkin("Then the response status code should be \"200\"")
         == NormalizeGherkin("Then the response status code should be \"404\"")
  {
    StatusFacts();
    QuotedContentIrrelevant("Then the response status code should be ", "200", "404", "");
  }

  lemma StatusFacts()
    ensures "Then the response status code should be " + "\"" + "200" + "\"" + ""
         == "Then the response status code should be \"200\""
    ensures "Then the response status code should be " + "\"" + "404" + "\"" + ""
         == "Then the response status code should be \"404\""
  {
  }

  /** `Andrew` starts with `And` but no whitespace follows it, so nothing is stripped. */
  lemma AndrewKept()
    ensures NormalizeGherkin("Andrew logs in") == "Andrew logs in"
  {
    AndrewFacts();
    FixedPoint("Andrew logs in");
  }

  lemma AndrewFacts()
    ensures Canonical("Andrew logs in") && '"' !in "Andrew logs in"
    ensures DigitsInWords("Andrew logs in", false)
    ensures forall k :: k in GherkinKeywords ==> !KeywordAt("Andrew logs in", k)
  {
    var s := "Andrew logs in";
    assert s[3] == 'r';
    forall k | k in GherkinKeywords ensures !KeywordAt(s, k) {
      if k == "and" {
      } else {
        assert Lower(s[0]) == 'a';
        assert k[0] != 'a';
      }
    }
  }

  /** Single-quoted text on a feature line is kept as written. */
  lemma SingleQuotesKept()
    ensures NormalizeGherkin("When I type 'abc'") == "I type 'abc'"
  {
    TypeFacts();
    KeywordThenPlain("When", "when", "I type 'abc'");
  }

  lemma TypeFacts()
    ensures "When" + " " + "I type 'abc'" == "When I type 'abc'"
    ensures EqualsIgnoreCase("When", "when")
    ensures Canonical("When I type 'abc'") && Canonical("I type 'abc'")
    ensures '"' !in "I type 'abc'" && DigitsInWords("I type 'abc'", false)
  {
    LogInCase();
    TypeShape();
  }

  lemma TypeShape()
    ensures Canonical("When I type 'abc'") && Canonical("I type 'abc'")
  {
  }
}
