/** Worked examples of the catalogue: a decorator line, the record it
    gives, the feature line it serves, the lookup and the report. */
module StepScenarios {
  import opened Text
  import opened Wrappers
  import opened Sequences
  import opened Normalizer
  import opened GherkinProperties
  import opened PatternProperties
  import opened StepCatalog
  import opened UndefinedSteps
  import opened Scenarios
  import opened Idempotence

  const Phrase: string := "the status is "
  const Signature: string := Phrase + "\"{}\""
  const StepLine: string := "Then " + Phrase + "\"200\""
  const Pattern: string := Phrase + "\"{code}\""
  const Raw: string := "'" + Pattern + "'"
  const DecoratorLine: string := "@then(" + Raw + ")"
  const StepsPath: string := "features/steps/api_steps.py"
  const FeaturePath: string := "features/api.feature"

  /** The record of `Phrase` with its placeholder, on line `n`. */
  function StatusRecord(n: nat): StepDef {
    StepDef(StepsPath, n, Raw, Signature, "then")
  }

  // ---------------------------------------------------------------------
  // The feature line

  /** A quoted value becomes `"{}"` and the keyword goes. */
  lemma StepSignature()
    ensures NormalizeGherkin(StepLine) == Signature
  {
    StepBody();
    SignatureFacts();
    NumeralsInWords(Signature, false);
    TidyCanonical(Signature);
  }

  /** The status line's signature is its own signature. */
  lemma StatusIdempotent()
    ensures NormalizeGherkin(NormalizeGherkin(StepLine)) == NormalizeGherkin(StepLine)
  {
    StepSignature();
    SignatureNoKeyword();
    Idempotent(StepLine);
  }

  lemma SignatureNoKeyword()
    ensures forall k :: k in GherkinKeywords ==> !KeywordAt(Signature, k)
  {
    forall k | k in GherkinKeywords ensures !KeywordAt(Signature, k) {
      assert Signature[..4] == "the ";
      if |k| <= |Signature| {
        if k == "then" {
          assert Lower(Signature[..|k|][3]) != k[3];
        } else {
          assert Lower(Signature[..|k|][0]) != k[0];
        }
      }
    }
  }

  lemma StepBody()
    ensures ReplaceQuoted(StripKeyword(Strip(StepLine)), '"') == Signature
  {
    StepLineShape();
    var b := QuotedBody("Then " + Phrase, "200", "");
    FrontOfThen();
  }

  lemma StepLineShape()
    ensures "Then " + Phrase + "\"" + "200" + "\"" + "" == StepLine
    ensures TrimRight("") == [] && ReplaceQuoted([], '"') == []
  {
  }

  lemma FrontOfThen()
    ensures Front("Then " + Phrase) == Phrase
  {
    ThenVisible();
    ThenKeyword();
    assert "Then " + Phrase == "Then" + " " + Phrase;
  }

  lemma ThenVisible()
    ensures TrimLeft("Then " + Phrase) == "Then " + Phrase
  {
    assert ("Then " + Phrase)[0] == 'T';
  }

  lemma ThenKeyword()
    ensures StripKeyword("Then" + " " + Phrase) == Phrase
  {
    ThenCase();
    assert Phrase[0] == 't';
    KeywordLine("Then", "then", Phrase);
  }

  lemma ThenCase()
    ensures EqualsIgnoreCase("Then", "then")
  {
    assert Lower('T') == 't';
  }

  lemma SignatureFacts()
    ensures Canonical(Signature) && DigitsInWords(Signature, false)
    ensures '\'' !in Signature && '(' !in Signature
  {
    assert Signature == "the status is \"{}\"";
    SignatureShape();
    SignaturePlain();
  }

  lemma SignatureShape()
    ensures Canonical("the status is \"{}\"")
  {
  }

  lemma SignaturePlain()
    ensures DigitsInWords("the status is \"{}\"", false)
    ensures '\'' !in "the status is \"{}\""
    ensures '(' !in "the status is \"{}\""
  {
    SignatureDigits();
    SignatureBrackets();
  }

  lemma SignatureDigits()
    ensures DigitsInWords("the status is \"{}\"", false)
  {
  }

  lemma SignatureBrackets()
    ensures '\'' !in "the status is \"{}\""
    ensures '(' !in "the status is \"{}\""
  {
  }

  // ---------------------------------------------------------------------
  // The decorator

  /** The placeholder becomes `{}`; the rest of the pattern is already a
      signature. */
  lemma PatternSignature()
    ensures NormalizeInner(Pattern) == Signature
  {
    PatternBraces();
    SignatureFacts();
    GroupsNone(Signature);
    SignatureQuoted();
    QuotedNone(Signature, '\'');
    TidyCanonical(Signature);
  }

  lemma PatternBraces()
    ensures ReplaceBraces(Pattern) == Signature
  {
    PatternShape();
    BracesAt(Phrase + "\"", "code", "\"");
  }

  lemma PatternShape()
    ensures Pattern == (Phrase + "\"") + "{" + "code" + "}" + "\""
    ensures Signature == (Phrase + "\"") + ("{}" + "\"")
    ensures '{' !in Phrase + "\"" && '"' !in Phrase
    ensures ReplaceBraces("\"") == "\""
  {
  }

  lemma SignatureQuoted()
    ensures ReplaceQuoted(Signature, '"') == Signature
  {
    PatternShape();
    assert Signature == Phrase + (['"'] + "{}" + ['"'] + []);
    QuotedPlain(Phrase, ['"'] + "{}" + ['"'] + [], '"');
    QuotedRun("{}", [], '"');
  }

  /** `@then('the status is "{code}"')` gives the
      record of that pattern, whose signature is the feature line's. */
  lemma DecoratorRecord(n: nat)
    ensures StepDefAt(StepsPath, n, DecoratorLine) == Some(StatusRecord(n))
  {
    DecoratorMatch();
    RawText();
    FourLetterRecord(StepsPath, n, DecoratorLine, Raw, "then");
    PatternWrapped('\'', Pattern);
    PatternSignature();
    assert NormalizePattern(Raw) == Signature;
  }

  /** The record of a line that starts with a four-letter decorator and
      ends with its `)`, whose argument is already stripped. */
  lemma FourLetterRecord(path: string, n: nat, line: string, raw: string, kw: string)
    requires 6 < |line| && DecoratorAt(line, 0, 5, |line| - 1)
    requires line[6..|line| - 1] == raw && Strip(raw) == raw
    requires LowerAll(line[1..5]) == kw
    ensures StepDefAt(path, n, line) == Some(StepDef(path, n, raw, NormalizePattern(raw), kw))
  {
    var d := EndRecord(path, n, line);
    StepDefAtSpec(path, n, line);
  }

  lemma EndRecord(path: string, n: nat, line: string) returns (d: StepDef)
    requires 6 < |line| && DecoratorAt(line, 0, 5, |line| - 1)
    ensures StepDefAt(path, n, line) == Some(d)
    ensures d.raw == Strip(line[6..|line| - 1]) && d.keyword == LowerAll(line[1..5])
  {
    CloseAtEnd(line, 0, 5);
    StepDefOfMatch(path, n, line, 0, 5, |line| - 1);
    d := StepDefAt(path, n, line).value;
  }

  /** A `)` at the very end is as far as `.+` can reach. */
  lemma CloseAtEnd(line: string, at: nat, o: nat)
    ensures forall c: nat :: DecoratorAt(line, at, o, c) ==> c <= |line| - 1
  {
  }

  lemma DecoratorMatch()
    ensures DecoratorAt(DecoratorLine, 0, 5, |DecoratorLine| - 1)
    ensures DecoratorLine[6..|DecoratorLine| - 1] == Raw
    ensures LowerAll(DecoratorLine[1..5]) == "then"
  {
    DecoratorParts();
    ThenWord();
    RawNoNewline();
  }

  lemma DecoratorParts()
    ensures |DecoratorLine| > 6 && DecoratorLine[0] == '@' && DecoratorLine[5] == '('
    ensures DecoratorLine[|DecoratorLine| - 1] == ')'
    ensures DecoratorLine[..0] == [] && DecoratorLine[1..5] == "then"
    ensures DecoratorLine[6..|DecoratorLine| - 1] == Raw
  {
  }

  lemma RawNoNewline()
    ensures '\n' !in Raw
  {
  }

  lemma ThenWord()
    ensures StepWord("then") && LowerAll("then") == "then"
  {
    assert EqualsIgnoreCase("then", "then");
  }

  lemma RawText()
    ensures Strip(Raw) == Raw && Raw == ['\''] + Pattern + ['\'']
  {
    StripVisibleEnds(Raw);
  }

  // ---------------------------------------------------------------------
  // Lookup and report

  const StepsFile: SourceFile := SourceFile(StepsPath, [DecoratorLine])
  const FeatureFile: SourceFile := SourceFile(FeaturePath, [StepLine])

  /** `find_match` on the feature line finds the decorator. */
  lemma StatusLookup()
    ensures FirstMatch(Index([StepsFile]), NormalizeGherkin(StepLine)) == Some(StatusRecord(1))
  {
    DecoratorRecord(1);
    SingleFileIndex(StepsFile, StatusRecord(1));
    StepSignature();
  }

  /** Without step files the feature line is reported as undefined. */
  lemma StatusUndefined()
    ensures Report([], Some([FeatureFile])) == [Undefined(FeaturePath, 1, StepLine, Signature)]
  {
    assert Index([]) == [];
    assert Signatures(Index([])) == {};
    StatusLineFacts();
    OneLineReport([], FeaturePath, StepLine, Signature);
  }

  /** With the decorator in place nothing is reported. */
  lemma StatusDefined()
    ensures Report([StepsFile], Some([FeatureFile])) == []
  {
    DecoratorRecord(1);
    SingleFileIndex(StepsFile, StatusRecord(1));
    assert StatusRecord(1).normalized == Signature;
    assert Signature in Signatures([StatusRecord(1)]);
    StatusLineFacts();
    OneLineReport([StepsFile], FeaturePath, StepLine, Signature);
  }

  /** The report over one feature file holding one step line: empty exactly
      when the line's signature is among those of the step files. */
  lemma OneLineReport(corpus: seq<SourceFile>, path: string, line: string, sig: string)
    requires StepEntry(line, sig)
    ensures Report(corpus, Some([SourceFile(path, [line])]))
         == if sig in Signatures(Index(corpus)) then [] else [Undefined(path, 1, line, sig)]
  {
    var sigs := Signatures(Index(corpus));
    SingleFileReport(SourceFile(path, [line]), sigs);
    EntryOfStep(path, 1, line, sig, sigs);
  }

  /** A stripped step line with a non-empty signature `sig`. */
  predicate StepEntry(line: string, sig: string) {
    NormalizeGherkin(line) == sig && sig != [] && HasStepWord(line) && Strip(line) == line
  }

  /** The feature line is such a line, with signature `Signature`. */
  lemma StatusLineFacts()
    ensures StepEntry(StepLine, Signature)
  {
    StepSignature();
    StepLineFacts();
    SignatureFacts();
  }

  /** The entry `list_undefined` makes of such a line is absent exactly when
      its signature is among the signatures. */
  lemma EntryOfStep(path: string, n: nat, line: string, sig: string, sigs: set<string>)
    requires StepEntry(line, sig)
    ensures sig in sigs ==> UndefinedAt(path, n, line, sigs) == None
    ensures sig !in sigs ==> UndefinedAt(path, n, line, sigs) == Some(Undefined(path, n, line, sig))
  {
    assert Reported(line, sigs) <==> sig !in sigs;
  }

  lemma StepLineFacts()
    ensures StepWordAt(StepLine, 0) && HasStepWord(StepLine)
    ensures Strip(StepLine) == StepLine
  {
    var line := StepLine;
    assert line[..4] == "Then" && line[4] == ' ';
    assert WordAt(line, 0, "Then");
    StripVisibleEnds(line);
  }

  /** The index of a single file with a single decorator line. */
  lemma SingleFileIndex(file: SourceFile, d: StepDef)
    requires |file.lines| == 1 && StepDefAt(file.path, 1, file.lines[0]) == Some(d)
    ensures Index([file]) == [d]
  {
    IndexOfOne(file);
    FileIndexOfOne(file.path, file.lines, d);
  }

  lemma IndexOfOne(file: SourceFile)
    ensures Index([file]) == FileIndex(file.path, file.lines)
  {
    assert FileIndexes([file]) == [FileIndex(file.path, file.lines)];
    FlattenOne(FileIndex(file.path, file.lines));
  }

  lemma FileIndexOfOne(path: string, lines: seq<string>, d: StepDef)
    requires |lines| == 1 && StepDefAt(path, 1, lines[0]) == Some(d)
    ensures FileIndex(path, lines) == [d]
  {
    assert LineRecords(path, lines) == [Some(d)];
    SomesOne(Some(d));
  }

  /** The report over a single one-line feature file. */
  lemma SingleFileReport(file: SourceFile, sigs: set<string>)
    requires |file.lines| == 1
    ensures AllUndefined([file], sigs)
         == (match UndefinedAt(file.path, 1, file.lines[0], sigs) case None => [] case Some(u) => [u])
  {
    ReportOfOne(file, sigs);
    FileReportOfOne(file.path, file.lines, sigs);
  }

  lemma ReportOfOne(file: SourceFile, sigs: set<string>)
    ensures AllUndefined([file], sigs) == FileUndefined(file.path, file.lines, sigs)
  {
    assert FeatureReports([file], sigs) == [FileUndefined(file.path, file.lines, sigs)];
    FlattenOne(FileUndefined(file.path, file.lines, sigs));
  }

  lemma FileReportOfOne(path: string, lines: seq<string>, sigs: set<string>)
    requires |lines| == 1
    ensures FileUndefined(path, lines, sigs)
         == (match UndefinedAt(path, 1, lines[0], sigs) case None => [] case Some(u) => [u])
  {
    var u := UndefinedAt(path, 1, lines[0], sigs);
    assert LineReports(path, lines, sigs) == [u];
    SomesOne(u);
  }

  // ---------------------------------------------------------------------
  // Escaped quotes in a double-quoted decorator argument

  const EscapedPattern: string := Phrase + "\\\"{code}\\\""
  const EscapedRaw: string := "\"" + EscapedPattern + "\""
  const EscapedSignature: string := Phrase + "\\\"{}\""

  /** The decorator text is not unescaped: in `"the status is \"{code}\""`
      the first backslash stays and the quoted run starts after it, so the
      signature keeps a backslash and differs from the feature line's. */
  lemma EscapedQuotesKept()
    ensures NormalizePattern(EscapedRaw) == EscapedSignature
    ensures NormalizePattern(EscapedRaw) != NormalizeGherkin(StepLine)
  {
    EscapedShape();
    PatternWrapped('"', EscapedPattern);
    EscapedBraces();
    var braced := Phrase + "\\\"{}\\\"";
    GroupsNone(braced);
    EscapedQuoted();
    QuotedNone(EscapedSignature, '\'');
    EscapedCanonical();
    TidyCanonical(EscapedSignature);
    StepSignature();
    assert EscapedSignature[|Phrase|] != Signature[|Phrase|];
  }

  lemma EscapedShape()
    ensures EscapedRaw == ['"'] + EscapedPattern + ['"']
    ensures EscapedPattern == (Phrase + "\\\"") + "{" + "code" + "}" + "\\\""
    ensures '{' !in Phrase + "\\\"" && '"' !in Phrase + "\\"
    ensures '(' !in Phrase + "\\\"{}\\\""
    ensures '\'' !in EscapedSignature
  {
  }

  lemma EscapedBraces()
    ensures ReplaceBraces(EscapedPattern) == Phrase + "\\\"{}\\\""
  {
    EscapedShape();
    BracesAt(Phrase + "\\\"", "code", "\\\"");
    assert ReplaceBraces("\\\"") == "\\\"";
  }

  lemma EscapedQuoted()
    ensures ReplaceQuoted(Phrase + "\\\"{}\\\"", '"') == EscapedSignature
  {
    EscapedShape();
    var b := Phrase + "\\\"{}\\\"";
    assert b == (Phrase + "\\") + (['"'] + "{}\\" + ['"'] + []);
    QuotedPlain(Phrase + "\\", ['"'] + "{}\\" + ['"'] + [], '"');
    QuotedRun("{}\\", [], '"');
  }

  lemma EscapedCanonical()
    ensures Canonical(EscapedSignature) && DigitsInWords(EscapedSignature, false)
  {
    assert EscapedSignature == "the status is \\\"{}\"";
    EscapedSpaces();
    EscapedDigits();
  }

  lemma EscapedSpaces()
    ensures Canonical("the status is \\\"{}\"")
  {
  }

  lemma EscapedDigits()
    ensures DigitsInWords("the status is \\\"{}\"", false)
  {
  }

  // ---------------------------------------------------------------------
  // A different wording is not matched

  const OtherLine: string := "Then the status differs"

  /** A step whose wording differs from every pattern is not found. */
  lemma OtherWordingUnmatched()
    ensures NormalizeGherkin(OtherLine) == "the status differs"
    ensures FirstMatch(Index([StepsFile]), NormalizeGherkin(OtherLine)).None?
  {
    OtherSignature();
    DecoratorRecord(1);
    SingleFileIndex(StepsFile, StatusRecord(1));
    OtherDiffers();
    SingleMiss(StatusRecord(1), "the status differs");
  }

  lemma SingleMiss(d: StepDef, target: string)
    requires d.normalized != target
    ensures FirstMatch([d], target).None?
  {
  }

  lemma OtherSignature()
    ensures NormalizeGherkin(OtherLine) == "the status differs"
  {
    OtherFacts();
    KeywordThenPlain("Then", "then", "the status differs");
  }

  lemma OtherDiffers()
    ensures "the status differs" != StatusRecord(1).normalized
  {
    assert "the status differs"[|Phrase|] != Signature[|Phrase|];
  }

  lemma OtherFacts()
    ensures "Then" + " " + "the status differs" == OtherLine
    ensures EqualsIgnoreCase("Then", "then")
    ensures Canonical(OtherLine) && Canonical("the status differs")
    ensures '"' !in "the status differs" && DigitsInWords("the status differs", false)
  {
    ThenCase();
    OtherShape();
    OtherPlain();
  }

  lemma OtherShape()
    ensures Canonical("Then the status differs") && Canonical("the status differs")
  {
  }

  lemma OtherPlain()
    ensures '"' !in "the status differs" && DigitsInWords("the status differs", false)
  {
  }

  // ---------------------------------------------------------------------
  // An empty catalogue

  /** With no step files the index is empty, and every step line with a
      non-empty signature is reported. */
  lemma EmptyCorpusReportsAll(line: string)
    ensures Index([]) == []
    ensures Reported(line, Signatures(Index([]))) <==> HasStepWord(line) && NormalizeGherkin(line) != []
  {
    assert FileIndexes([]) == [];
    assert Signatures([]) == {};
  }
}
