/** The report of feature lines no step definition matches
    (`list_undefined`): every line of every feature file that holds a step
    keyword as a whole word and whose signature is not among the
    signatures of the index. The feature files are given as the paths and
    lines they hold; `None` stands for a missing features directory. */
module UndefinedSteps {
  import opened Text
  import opened Wrappers
  import opened Sequences
  import opened Normalizer
  import opened StepCatalog

  /** One entry of the report. */
  datatype Undefined = Undefined(featureFile: string, line: nat, text: string, normalized: string)

  // ---------------------------------------------------------------------
  // Which lines are steps

  /** `w` occurs at `i` with a word boundary (`\b`) on both sides. Every
      word `w` used here starts and ends with a letter. */
  predicate WordAt(line: string, i: nat, w: string) {
    && i + |w| <= |line| && line[i..i + |w|] == w
    && (i == 0 || !IsWordChar(line[i - 1]))
    && (i + |w| == |line| || !IsWordChar(line[i + |w|]))
  }

  /** `\b(Given|When|Then|And|But)\b` matches at `i`; the regex has no
      `re.I`, so the case must be exactly this. */
  predicate StepWordAt(line: string, i: nat) {
    WordAt(line, i, "Given") || WordAt(line, i, "When") || WordAt(line, i, "Then")
    || WordAt(line, i, "And") || WordAt(line, i, "But")
  }

  /** `re.search` from position `from` on. */
  function SearchFrom(line: string, from: nat): (found: bool)
    requires from <= |line|
    ensures found <==> exists i: nat :: from <= i < |line| && StepWordAt(line, i)
    decreases |line| - from
  {
    if from == |line| then false
    else StepWordAt(line, from) || SearchFrom(line, from + 1)
  }

  /** The line holds a step keyword as a whole word, anywhere. */
  function HasStepWord(line: string): (found: bool)
    ensures found <==> exists i: nat :: i < |line| && StepWordAt(line, i)
  {
    SearchFrom(line, 0)
  }

  // ---------------------------------------------------------------------
  // What is reported

  /** The signatures of the index, as a set: a signature is in it exactly
      when `find_match` finds a definition for it. */
  function Signatures(index: seq<StepDef>): (sigs: set<string>)
    ensures forall s :: s in sigs <==> exists k :: 0 <= k < |index| && index[k].normalized == s
    ensures forall s :: s in sigs <==> FirstMatch(index, s).Some?
  {
    set e | e in index :: e.normalized
  }

  /** A step line whose signature is non-empty and not among `sigs`. */
  predicate Reported(line: string, sigs: set<string>) {
    HasStepWord(line) && NormalizeGherkin(line) != [] && NormalizeGherkin(line) !in sigs
  }

  /** The entry `list_undefined` makes of line number `n`, if any. */
  function UndefinedAt(path: string, n: nat, line: string, sigs: set<string>): Option<Undefined>
  {
    if Reported(line, sigs) then Some(Undefined(path, n, Strip(line), NormalizeGherkin(line))) else None
  }

  /** The entries of each line of one file, in line order. */
  function LineReports(path: string, lines: seq<string>, sigs: set<string>): (reps: seq<Option<Undefined>>)
    ensures |reps| == |lines|
    ensures forall i :: 0 <= i < |lines| ==> reps[i] == UndefinedAt(path, i + 1, lines[i], sigs)
  {
    seq(|lines|, i requires 0 <= i < |lines| => UndefinedAt(path, i + 1, lines[i], sigs))
  }

  /** The entries of one feature file. */
  function FileUndefined(path: string, lines: seq<string>, sigs: set<string>): seq<Undefined>
  {
    Somes(LineReports(path, lines, sigs))
  }

  /** The entries of each feature file, in the order the files are found. */
  function FeatureReports(features: seq<SourceFile>, sigs: set<string>): (groups: seq<seq<Undefined>>)
    ensures |groups| == |features|
    ensures forall f :: 0 <= f < |features| ==> groups[f] == FileUndefined(features[f].path, features[f].lines, sigs)
  {
    seq(|features|, f requires 0 <= f < |features| => FileUndefined(features[f].path, features[f].lines, sigs))
  }

  /** The whole report against the signatures `sigs`. */
  function AllUndefined(features: seq<SourceFile>, sigs: set<string>): seq<Undefined>
  {
    Flatten(FeatureReports(features, sigs))
  }

  /** What `list_undefined` returns for the step files `corpus`. */
  function Report(corpus: seq<SourceFile>, features: Option<seq<SourceFile>>): seq<Undefined>
  {
    match features
    case None => []
    case Some(fs) => AllUndefined(fs, Signatures(Index(corpus)))
  }

  // ---------------------------------------------------------------------
  // The operation

  /** `list_undefined`: build the index once, then check every line of
      every feature file against its signatures. */
  method ListUndefined(corpus: seq<SourceFile>, features: Option<seq<SourceFile>>) returns (missing: seq<Undefined>)
    ensures missing == Report(corpus, features)
  {
    if features.None? {
      return [];
    }
    var fs := features.value;
    var index := BuildIndex(corpus);
    var sigs := Signatures(index);
    missing := [];
    for f := 0 to |fs|
      invariant missing == AllUndefined(fs[..f], sigs)
    {
      var file := fs[f];
      for i := 0 to |file.lines|
        invariant missing == AllUndefined(fs[..f], sigs) + FileUndefined(file.path, file.lines[..i], sigs)
      {
        var line := file.lines[i];
        ghost var done := AllUndefined(fs[..f], sigs);
        ghost var part := FileUndefined(file.path, file.lines[..i], sigs);
        LineReportsSnoc(file.path, file.lines, i, sigs);
        if HasStepWord(line) {
          var norm := NormalizeGherkin(line);
          if norm != [] && norm !in sigs {
            var entry := Undefined(file.path, i + 1, Strip(line), norm);
            Associative(done, part, [entry]);
            missing := missing + [entry];
          }
        }
      }
      assert file.lines[..|file.lines|] == file.lines;
      AllUndefinedSnoc(fs, f, sigs);
    }
    assert fs[..|fs|] == fs;
  }

  /** One more line adds its entry, if any, at the end. */
  lemma LineReportsSnoc(path: string, lines: seq<string>, i: nat, sigs: set<string>)
    requires i < |lines|
    ensures Reported(lines[i], sigs) ==>
              FileUndefined(path, lines[..i + 1], sigs)
              == FileUndefined(path, lines[..i], sigs) + [Undefined(path, i + 1, Strip(lines[i]), NormalizeGherkin(lines[i]))]
    ensures !Reported(lines[i], sigs) ==>
              FileUndefined(path, lines[..i + 1], sigs) == FileUndefined(path, lines[..i], sigs)
  {
    LineReportsAppend(path, lines, i, sigs);
  }

  lemma LineReportsAppend(path: string, lines: seq<string>, i: nat, sigs: set<string>)
    requires i < |lines|
    ensures FileUndefined(path, lines[..i + 1], sigs)
            == FileUndefined(path, lines[..i], sigs) + (match UndefinedAt(path, i + 1, lines[i], sigs) case None => [] case Some(u) => [u])
  {
    var a := LineReports(path, lines[..i + 1], sigs);
    var b := LineReports(path, lines[..i], sigs);
    assert a[..i] == b by {
      forall j | 0 <= j < i ensures a[j] == b[j] {
        assert lines[..i + 1][j] == lines[..i][j];
      }
    }
    assert a[i] == UndefinedAt(path, i + 1, lines[i], sigs);
  }

  /** One more feature file adds its entries at the end. */
  lemma AllUndefinedSnoc(features: seq<SourceFile>, f: nat, sigs: set<string>)
    requires f < |features|
    ensures AllUndefined(features[..f + 1], sigs)
            == AllUndefined(features[..f], sigs) + FileUndefined(features[f].path, features[f].lines, sigs)
  {
    var g := FeatureReports(features[..f + 1], sigs);
    var h := FeatureReports(features[..f], sigs);
    assert g[..f] == h by {
      forall j | 0 <= j < f ensures g[j] == h[j] {
        assert features[..f + 1][j] == features[..f][j];
      }
    }
    assert g[f] == FileUndefined(features[f].path, features[f].lines, sigs);
  }

  // ---------------------------------------------------------------------
  // Properties

  /** The `k`th entry of a file is the entry of the line it names. */
  lemma FileUndefinedSound(path: string, lines: seq<string>, sigs: set<string>, k: nat)
    requires k < |FileUndefined(path, lines, sigs)|
    ensures var u := FileUndefined(path, lines, sigs)[k];
      && u.line == SomePositions(LineReports(path, lines, sigs))[k] + 1
      && exists i :: 0 <= i < |lines| && u.line == i + 1 && UndefinedAt(path, i + 1, lines[i], sigs) == Some(u)
  {
    var reps := LineReports(path, lines, sigs);
    SomeAt(reps, k);
    var i := SomePositions(reps)[k];
    var u := FileUndefined(path, lines, sigs)[k];
    assert reps[i] == UndefinedAt(path, i + 1, lines[i], sigs) == Some(u);
    assert u.line == i + 1;
  }

  /** Line numbers strictly increase along a file's entries: at most one
      entry per line, in line order. */
  lemma FileUndefinedOrdered(path: string, lines: seq<string>, sigs: set<string>, k1: nat, k2: nat)
    requires k1 < k2 < |FileUndefined(path, lines, sigs)|
    ensures FileUndefined(path, lines, sigs)[k1].line < FileUndefined(path, lines, sigs)[k2].line
  {
    FileUndefinedSound(path, lines, sigs, k1);
    FileUndefinedSound(path, lines, sigs, k2);
    SomesOrdered(LineReports(path, lines, sigs), k1, k2);
  }

  /** Every reported line of a file has its entry. */
  lemma FileUndefinedComplete(path: string, lines: seq<string>, sigs: set<string>, i: nat)
    requires i < |lines| && Reported(lines[i], sigs)
    ensures UndefinedAt(path, i + 1, lines[i], sigs).value in FileUndefined(path, lines, sigs)
  {
    var reps := LineReports(path, lines, sigs);
    assert reps[i] == UndefinedAt(path, i + 1, lines[i], sigs);
    SomeTaken(reps, i);
  }

  /** The report holds exactly the entries of the reported lines of the
      feature files. */
  lemma ReportMembers(corpus: seq<SourceFile>, features: seq<SourceFile>)
    ensures var sigs := Signatures(Index(corpus));
      forall u :: u in Report(corpus, Some(features)) <==>
        exists f, i :: 0 <= f < |features| && 0 <= i < |features[f].lines|
                       && UndefinedAt(features[f].path, i + 1, features[f].lines[i], sigs) == Some(u)
  {
    var sigs := Signatures(Index(corpus));
    forall u | u in Report(corpus, Some(features))
      ensures exists f, i :: 0 <= f < |features| && 0 <= i < |features[f].lines|
                             && UndefinedAt(features[f].path, i + 1, features[f].lines[i], sigs) == Some(u)
    {
      var f, i := EntryOrigin(features, sigs, u);
    }
    forall u, f, i | 0 <= f < |features| && 0 <= i < |features[f].lines|
                     && UndefinedAt(features[f].path, i + 1, features[f].lines[i], sigs) == Some(u)
      ensures u in Report(corpus, Some(features))
    {
      EntryReported(features, sigs, f, i);
    }
  }

  /** The file and line an entry of the report comes from. */
  lemma EntryOrigin(features: seq<SourceFile>, sigs: set<string>, u: Undefined) returns (f: nat, i: nat)
    requires u in AllUndefined(features, sigs)
    ensures f < |features| && i < |features[f].lines|
    ensures UndefinedAt(features[f].path, i + 1, features[f].lines[i], sigs) == Some(u)
  {
    var groups := FeatureReports(features, sigs);
    var k;
    f, k := FlattenOrigin(groups, u);
    assert groups[f] == FileUndefined(features[f].path, features[f].lines, sigs);
    i := FileEntryOrigin(features[f].path, features[f].lines, sigs, k);
  }

  /** The line the `k`th entry of one file comes from. */
  lemma FileEntryOrigin(path: string, lines: seq<string>, sigs: set<string>, k: nat) returns (i: nat)
    requires k < |FileUndefined(path, lines, sigs)|
    ensures i < |lines| && UndefinedAt(path, i + 1, lines[i], sigs) == Some(FileUndefined(path, lines, sigs)[k])
  {
    FileUndefinedSound(path, lines, sigs, k);
    var u := FileUndefined(path, lines, sigs)[k];
    i :| 0 <= i < |lines| && u.line == i + 1 && UndefinedAt(path, i + 1, lines[i], sigs) == Some(u);
  }

  /** The entry of each reported line is in the report. */
  lemma EntryReported(features: seq<SourceFile>, sigs: set<string>, f: nat, i: nat)
    requires f < |features| && i < |features[f].lines|
    requires UndefinedAt(features[f].path, i + 1, features[f].lines[i], sigs).Some?
    ensures UndefinedAt(features[f].path, i + 1, features[f].lines[i], sigs).value in AllUndefined(features, sigs)
  {
    var groups := FeatureReports(features, sigs);
    FlattenMembers(groups);
    FileUndefinedComplete(features[f].path, features[f].lines, sigs, i);
  }

  /** A line is reported exactly when it is a step line with a non-empty
      signature that `find_match` finds no definition for. */
  lemma ReportedIffUnmatched(corpus: seq<SourceFile>, line: string)
    ensures Reported(line, Signatures(Index(corpus)))
        <==> HasStepWord(line) && NormalizeGherkin(line) != []
             && FirstMatch(Index(corpus), NormalizeGherkin(line)).None?
  {
  }
}
