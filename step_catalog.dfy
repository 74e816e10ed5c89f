/** The step catalogue: every `@given/@when/@then/@step(...)` decorator
    line of the step-definition files, and the lookup of a feature line in
    it (`build_index` and `find_match`). The files are given as the paths
    and lines they hold; finding and reading them is not modelled. */
module StepCatalog {
  import opened Text
  import opened Wrappers
  import opened Sequences
  import opened Normalizer

  /** One record of the index. */
  datatype StepDef = StepDef(file: string, line: nat, raw: string, normalized: string, keyword: string)

  /** A file as the path it was found at and its lines. */
  datatype SourceFile = SourceFile(path: string, lines: seq<string>)

  /** The decorator names, as `build_index` reports them. */
  const StepKeywords: seq<string> := ["given", "when", "then", "step"]

  /** `w` is one of the decorator names in any case (`re.I`). */
  predicate StepWord(w: string) {
    EqualsIgnoreCase(w, "given") || EqualsIgnoreCase(w, "when")
    || EqualsIgnoreCase(w, "then") || EqualsIgnoreCase(w, "step")
  }

  /** The decorator regex `^\s*@(given|when|then|step)\((.+)\)` matches
      `line` with the `@` at `at`, the `(` at `open` and the closing `)` at
      `close`: `.+` takes at least one character and never a newline. */
  predicate DecoratorAt(line: string, at: nat, open: nat, close: nat) {
    && at < open && open + 1 < close < |line|
    && AllSpace(line[..at]) && line[at] == '@'
    && StepWord(line[at + 1..open]) && line[open] == '('
    && line[close] == ')' && '\n' !in line[open + 1..close]
  }

  // ---------------------------------------------------------------------
  // Matching one line

  /** The first newline at or after `from`, or the end of the line. */
  function FirstNewline(line: string, from: nat): (n: nat)
    requires from <= |line|
    ensures from <= n <= |line| && '\n' !in line[from..n]
    ensures n < |line| ==> line[n] == '\n'
    decreases |line| - from
  {
    if from == |line| || line[from] == '\n' then from
    else
      var n := FirstNewline(line, from + 1);
      assert line[from..n] == [line[from]] + line[from + 1..n];
      n
  }

  /** The last `)` in `line[lo..hi]`. */
  function LastClose(line: string, lo: nat, hi: nat): (c: Option<nat>)
    requires hi <= |line|
    ensures c.Some? ==> lo <= c.value < hi && line[c.value] == ')'
    ensures c.Some? ==> forall k :: c.value < k < hi ==> line[k] != ')'
    ensures c.None? ==> forall k :: lo <= k < hi ==> line[k] != ')'
    decreases hi
  {
    if hi <= lo then None
    else if line[hi - 1] == ')' then Some(hi - 1)
    else LastClose(line, lo, hi - 1)
  }

  /** A decorator name ends with `(` right after the `@` at `at`; there is
      at most one such place. */
  function OpenParen(line: string, at: nat): (o: Option<nat>)
    requires at < |line|
    ensures o.Some? ==> at < o.value < |line| && StepWord(line[at + 1..o.value]) && line[o.value] == '('
  {
    if at + 5 < |line| && StepWord(line[at + 1..at + 5]) && line[at + 5] == '(' then
      OnlyFourLetters(line, at);
      Some(at + 5)
    else if at + 6 < |line| && StepWord(line[at + 1..at + 6]) && line[at + 6] == '(' then
      Some(at + 6)
    else
      None
  }

  lemma OnlyFourLetters(line: string, at: nat)
    requires at + 5 < |line| && StepWord(line[at + 1..at + 5])
    ensures !(at + 6 < |line| && StepWord(line[at + 1..at + 6]))
  {
    if at + 6 < |line| && StepWord(line[at + 1..at + 6]) {
      StepWordsDiffer(line[at + 1..at + 6]);
    }
  }

  /** `given` is the only five-letter name, and no four-letter name is a
      prefix of it. */
  lemma StepWordsDiffer(w: string)
    requires |w| == 5 && StepWord(w)
    ensures !StepWord(w[..4])
  {
    assert Lower(w[0]) == 'g';
    assert w[..4][0] == w[0];
  }

  /** The number of whitespace characters `\s*` takes at the start of `line`. */
  function Indent(line: string): (at: nat)
    ensures at <= |line| && AllSpace(line[..at]) && (at < |line| ==> !IsSpace(line[at]))
  {
    if line != [] && IsSpace(line[0]) then
      var at := 1 + Indent(line[1..]);
      assert line[..at] == [line[0]] + line[1..][..at - 1];
      at
    else 0
  }

  /** A visible character after only whitespace is the first visible one. */
  lemma FirstVisible(line: string, at: nat)
    requires at < |line| && AllSpace(line[..at]) && !IsSpace(line[at])
    ensures at == Indent(line)
  {
  }

  /** The match of the decorator regex at the start of `line`, as the
      positions of `@`, `(` and the closing `)`: the `@` must be the first
      visible character, the name is fixed by `OpenParen`, and `.+` runs to
      the last `)` before the first newline. `DecoratorSpanSound` and
      `DecoratorSpanSpec` say that this is the match `re.match` reports. */
  function DecoratorSpan(line: string): (m: Option<(nat, nat, nat)>)
    ensures m.Some? ==> m.value.0 < m.value.1 && m.value.1 + 1 < m.value.2 < |line|
  {
    var at := Indent(line);
    if at < |line| && line[at] == '@' && OpenParen(line, at).Some? then
      var o := OpenParen(line, at).value;
      var c := LastClose(line, o + 2, FirstNewline(line, o + 1));
      if c.Some? then Some((at, o, c.value)) else None
    else
      None
  }

  /** What `DecoratorSpan` finds is a match of the regex. */
  lemma DecoratorSpanSound(line: string)
    ensures var m := DecoratorSpan(line);
      m.Some? ==> DecoratorAt(line, m.value.0, m.value.1, m.value.2)
  {
    var at := Indent(line);
    if DecoratorSpan(line).Some? {
      var o := OpenParen(line, at).value;
      var n := FirstNewline(line, o + 1);
      DecoratorAtIntro(line, at, o, LastClose(line, o + 2, n).value, n);
    }
  }

  lemma DecoratorAtIntro(line: string, at: nat, o: nat, c: nat, n: nat)
    requires at < o < |line| && AllSpace(line[..at]) && line[at] == '@'
    requires StepWord(line[at + 1..o]) && line[o] == '('
    requires o + 1 <= n <= |line| && '\n' !in line[o + 1..n]
    requires o + 2 <= c < n && line[c] == ')'
    ensures DecoratorAt(line, at, o, c)
  {
    assert line[o + 1..c] == line[o + 1..n][..c - o - 1];
  }

  /** `DecoratorSpan` finds the match whenever there is one, and it is the
      match `re.match` reports: there is at most one place for the `@` and
      the `(`, and `.+` is greedy, so it ends at the last `)` it can reach. */
  lemma DecoratorSpanSpec(line: string)
    ensures DecoratorSpan(line).None? ==> forall at: nat, o: nat, c: nat :: !DecoratorAt(line, at, o, c)
    ensures DecoratorSpan(line).Some? ==>
              forall at: nat, o: nat, c: nat :: DecoratorAt(line, at, o, c) ==>
                at == DecoratorSpan(line).value.0 && o == DecoratorSpan(line).value.1
                && c <= DecoratorSpan(line).value.2
  {
    var first := Indent(line);
    forall at: nat, o: nat, c: nat | DecoratorAt(line, at, o, c)
      ensures DecoratorSpan(line).Some? && at == DecoratorSpan(line).value.0
      ensures o == DecoratorSpan(line).value.1 && c <= DecoratorSpan(line).value.2
    {
      SpanUniqueAt(line, first, at, o, c);
    }
  }

  /** A match starts at the first visible character, takes the one
      possible `(`, and ends before the first newline after it. */
  lemma SpanUniqueAt(line: string, first: nat, at: nat, o: nat, c: nat)
    requires first == Indent(line)
    requires DecoratorAt(line, at, o, c)
    ensures at == first && line[first] == '@' && OpenParen(line, first) == Some(o)
    ensures c < FirstNewline(line, o + 1)
    ensures DecoratorSpan(line).Some? && DecoratorSpan(line).value.0 == at
    ensures DecoratorSpan(line).value.1 == o && c <= DecoratorSpan(line).value.2
  {
    FirstVisible(line, at);
    OpenParenAt(line, at, o);
    var n := FirstNewline(line, o + 1);
    CloseBeforeNewline(line, o, c);
    LastCloseAtLeast(line, o + 2, n, c);
    SpanFromParts(line, at, o, n, LastClose(line, o + 2, n).value);
  }

  /** Wherever a decorator name is followed by `(`, `OpenParen` finds it. */
  lemma OpenParenAt(line: string, at: nat, o: nat)
    requires at < o < |line| && StepWord(line[at + 1..o]) && line[o] == '('
    ensures OpenParen(line, at) == Some(o)
  {
    assert |line[at + 1..o]| == 4 || |line[at + 1..o]| == 5;
    if o == at + 6 && StepWord(line[at + 1..at + 5]) {
      OnlyFourLetters(line, at);
    }
  }

  /** `DecoratorSpan` assembled from its parts. */
  lemma SpanFromParts(line: string, at: nat, o: nat, n: nat, c: nat)
    requires at == Indent(line) && at < |line| && line[at] == '@'
    requires OpenParen(line, at) == Some(o)
    requires o + 1 <= |line| && n == FirstNewline(line, o + 1)
    requires LastClose(line, o + 2, n) == Some(c)
    ensures DecoratorSpan(line) == Some((at, o, c))
  {
  }

  /** The `)` of a match comes before the first newline after the `(`. */
  lemma CloseBeforeNewline(line: string, o: nat, c: nat)
    requires o + 1 < c < |line| && line[c] == ')' && '\n' !in line[o + 1..c]
    ensures c < FirstNewline(line, o + 1)
  {
  }

  lemma LastCloseAtLeast(line: string, lo: nat, hi: nat, c: nat)
    requires lo <= c < hi <= |line| && line[c] == ')'
    ensures LastClose(line, lo, hi).Some? && c <= LastClose(line, lo, hi).value
  {
  }

  // ---------------------------------------------------------------------
  // Records

  /** The record `build_index` makes of line number `n` of the file at
      `path`, if the line is a step decorator. */
  function StepDefAt(path: string, n: nat, line: string): (d: Option<StepDef>)
    ensures d.Some? ==> d.value.file == path && d.value.line == n
  {
    match DecoratorSpan(line)
    case None => None
    case Some((at, o, c)) =>
      var raw := Strip(line[o + 1..c]);
      Some(StepDef(path, n, raw, NormalizePattern(raw), LowerAll(line[at + 1..o])))
  }

  /** A line gives a record exactly when the decorator regex matches it;
      the record's signature is the normalised raw pattern and its keyword
      one of the four decorator names in lower case. */
  lemma StepDefAtSpec(path: string, n: nat, line: string)
    ensures StepDefAt(path, n, line).Some? <==> exists at: nat, o: nat, c: nat :: DecoratorAt(line, at, o, c)
    ensures var d := StepDefAt(path, n, line);
      d.Some? ==> d.value.normalized == NormalizePattern(d.value.raw) && d.value.keyword in StepKeywords
  {
    DecoratorSpanSpec(line);
    DecoratorSpanSound(line);
    var m := DecoratorSpan(line);
    if m.Some? {
      var (at, o, c) := m.value;
      assert DecoratorAt(line, at, o, c);
      LowerStepWord(line[at + 1..o]);
    }
  }

  /** The record of a decorator line, read off the regex match itself:
      the raw pattern is group 2, taken as long as it can be (`.+` is
      greedy) and stripped, and the keyword is group 1 in lower case. */
  lemma StepDefOfMatch(path: string, n: nat, line: string, at: nat, o: nat, c: nat)
    requires DecoratorAt(line, at, o, c)
    requires forall c': nat :: DecoratorAt(line, at, o, c') ==> c' <= c
    ensures StepDefAt(path, n, line).Some?
    ensures StepDefAt(path, n, line).value.raw == Strip(line[o + 1..c])
    ensures StepDefAt(path, n, line).value.keyword == LowerAll(line[at + 1..o])
  {
    SpanOfMatch(line, at, o, c);
  }

  lemma SpanOfMatch(line: string, at: nat, o: nat, c: nat)
    requires DecoratorAt(line, at, o, c)
    requires forall c': nat :: DecoratorAt(line, at, o, c') ==> c' <= c
    ensures DecoratorSpan(line) == Some((at, o, c))
  {
    SpanFound(line, at, o, c);
    DecoratorSpanSound(line);
    var m := DecoratorSpan(line).value;
    assert DecoratorAt(line, at, o, m.2);
  }

  lemma SpanFound(line: string, at: nat, o: nat, c: nat)
    requires DecoratorAt(line, at, o, c)
    ensures DecoratorSpan(line).Some?
    ensures var m := DecoratorSpan(line).value; m.0 == at && m.1 == o && c <= m.2
  {
    SpanUniqueAt(line, Indent(line), at, o, c);
  }

  /** A decorator name in any case lower-cases to its listed spelling. */
  lemma LowerStepWord(w: string)
    requires StepWord(w)
    ensures LowerAll(w) in StepKeywords
  {
    var k := if EqualsIgnoreCase(w, "given") then "given"
             else if EqualsIgnoreCase(w, "when") then "when"
             else if EqualsIgnoreCase(w, "then") then "then" else "step";
    assert EqualsIgnoreCase(w, k);
    assert forall i :: 0 <= i < |w| ==> LowerAll(w)[i] == k[i];
    assert LowerAll(w) == k;
  }

  /** What `build_index` makes of each line of one file, in line order. */
  function LineRecords(path: string, lines: seq<string>): (recs: seq<Option<StepDef>>)
    ensures |recs| == |lines|
    ensures forall i :: 0 <= i < |lines| ==> recs[i] == StepDefAt(path, i + 1, lines[i])
  {
    seq(|lines|, i requires 0 <= i < |lines| => StepDefAt(path, i + 1, lines[i]))
  }

  /** `build_index` on one file: the records of its decorator lines, in line order. */
  function FileIndex(path: string, lines: seq<string>): seq<StepDef>
  {
    Somes(LineRecords(path, lines))
  }

  /** The `k`th record of a file is the record `build_index` makes of the
      line it names. */
  lemma FileIndexSound(path: string, lines: seq<string>, k: nat)
    requires k < |FileIndex(path, lines)|
    ensures var d, i := FileIndex(path, lines)[k], SomePositions(LineRecords(path, lines))[k];
      i < |lines| && d.file == path && d.line == i + 1 && StepDefAt(path, i + 1, lines[i]) == Some(d)
  {
    var recs := LineRecords(path, lines);
    SomeAt(recs, k);
    var i := SomePositions(recs)[k];
    var d := FileIndex(path, lines)[k];
    assert recs[i] == StepDefAt(path, i + 1, lines[i]) == Some(d);
    assert d.line == i + 1;
  }

  /** Line numbers strictly increase along a file's records: at most one
      record per line, in line order. */
  lemma FileIndexOrdered(path: string, lines: seq<string>, k1: nat, k2: nat)
    requires k1 < k2 < |FileIndex(path, lines)|
    ensures FileIndex(path, lines)[k1].line < FileIndex(path, lines)[k2].line
  {
    FileIndexSound(path, lines, k1);
    FileIndexSound(path, lines, k2);
    SomesOrdered(LineRecords(path, lines), k1, k2);
  }

  /** Every decorator line has its record in the file's index. */
  lemma FileIndexComplete(path: string, lines: seq<string>, i: nat)
    requires i < |lines| && StepDefAt(path, i + 1, lines[i]).Some?
    ensures StepDefAt(path, i + 1, lines[i]).value in FileIndex(path, lines)
  {
    var recs := LineRecords(path, lines);
    var d := StepDefAt(path, i + 1, lines[i]).value;
    assert recs[i] == Some(d);
    SomeTaken(recs, i);
  }

  /** The index of each file, in corpus order. */
  function FileIndexes(corpus: seq<SourceFile>): (groups: seq<seq<StepDef>>)
    ensures |groups| == |corpus|
    ensures forall f :: 0 <= f < |corpus| ==> groups[f] == FileIndex(corpus[f].path, corpus[f].lines)
  {
    seq(|corpus|, f requires 0 <= f < |corpus| => FileIndex(corpus[f].path, corpus[f].lines))
  }

  /** `build_index` over all step files: the files' records one file after
      the other, in the order the files are found. */
  function Index(corpus: seq<SourceFile>): seq<StepDef>
  {
    Flatten(FileIndexes(corpus))
  }

  /** The index holds exactly the records of the files' own indexes. */
  lemma IndexMembers(corpus: seq<SourceFile>)
    ensures forall e :: e in Index(corpus) <==>
              exists f :: 0 <= f < |corpus| && e in FileIndex(corpus[f].path, corpus[f].lines)
  {
    var groups := FileIndexes(corpus);
    FlattenMembers(groups);
    forall e ensures e in Index(corpus) <==> exists f :: 0 <= f < |corpus| && e in FileIndex(corpus[f].path, corpus[f].lines)
    {
      if e in Index(corpus) {
        var f :| 0 <= f < |groups| && e in groups[f];
        assert e in FileIndex(corpus[f].path, corpus[f].lines);
      }
      if exists f :: 0 <= f < |corpus| && e in FileIndex(corpus[f].path, corpus[f].lines) {
        var f :| 0 <= f < |corpus| && e in FileIndex(corpus[f].path, corpus[f].lines);
        assert e in groups[f];
      }
    }
  }

  /** One more file adds its records at the end. */
  lemma IndexSnoc(corpus: seq<SourceFile>, f: nat)
    requires f < |corpus|
    ensures Index(corpus[..f + 1]) == Index(corpus[..f]) + FileIndex(corpus[f].path, corpus[f].lines)
  {
    var g := FileIndexes(corpus[..f + 1]);
    var h := FileIndexes(corpus[..f]);
    assert g[..f] == h by {
      forall j | 0 <= j < f ensures g[j] == h[j] {
        assert corpus[..f + 1][j] == corpus[..f][j];
      }
    }
    assert g[f] == FileIndex(corpus[f].path, corpus[f].lines);
  }

  /** `build_index`: every line of every file, in order, matched against
      the decorator regex. */
  method BuildIndex(corpus: seq<SourceFile>) returns (res: seq<StepDef>)
    ensures res == Index(corpus)
  {
    res := [];
    for f := 0 to |corpus|
      invariant res == Index(corpus[..f])
    {
      var file := corpus[f];
      for i := 0 to |file.lines|
        invariant res == Index(corpus[..f]) + FileIndex(file.path, file.lines[..i])
      {
        var d := StepDefAt(file.path, i + 1, file.lines[i]);
        LineRecordsSnoc(file.path, file.lines, i);
        if d.Some? {
          ghost var done := Index(corpus[..f]);
          ghost var part := FileIndex(file.path, file.lines[..i]);
          Associative(done, part, [d.value]);
          res := res + [d.value];
        }
      }
      assert file.lines[..|file.lines|] == file.lines;
      IndexSnoc(corpus, f);
    }
    assert corpus[..|corpus|] == corpus;
  }

  /** One more line adds its record, if any, at the end. */
  lemma LineRecordsSnoc(path: string, lines: seq<string>, i: nat)
    requires i < |lines|
    ensures FileIndex(path, lines[..i + 1])
            == FileIndex(path, lines[..i]) + (match StepDefAt(path, i + 1, lines[i]) case None => [] case Some(d) => [d])
  {
    var a := LineRecords(path, lines[..i + 1]);
    var b := LineRecords(path, lines[..i]);
    assert a[..i] == b by {
      forall j | 0 <= j < i ensures a[j] == b[j] {
        assert lines[..i + 1][j] == lines[..i][j];
      }
    }
    assert a[i] == StepDefAt(path, i + 1, lines[i]);
  }

  // ---------------------------------------------------------------------
  // Lookup

  /** The first record whose signature is `target`. */
  function FirstMatch(index: seq<StepDef>, target: string): (m: Option<StepDef>)
    ensures m.None? <==> forall k :: 0 <= k < |index| ==> index[k].normalized != target
    ensures m.Some? ==> m.value in index && m.value.normalized == target
  {
    if index == [] then None
    else if index[0].normalized == target then Some(index[0])
    else FirstMatch(index[1..], target)
  }

  /** The record found is the first with that signature. */
  lemma {:induction false} FirstMatchFirst(index: seq<StepDef>, target: string)
    ensures FirstMatch(index, target).Some? ==>
              exists k :: 0 <= k < |index| && index[k] == FirstMatch(index, target).value
                          && forall j :: 0 <= j < k ==> index[j].normalized != target
  {
    if index != [] && index[0].normalized != target {
      var m := FirstMatch(index[1..], target);
      FirstMatchFirst(index[1..], target);
      if m.Some? {
        var k :| 0 <= k < |index[1..]| && index[1..][k] == m.value
                 && forall j :: 0 <= j < k ==> index[1..][j].normalized != target;
        assert index[k + 1] == m.value;
        assert forall j :: 1 <= j < k + 1 ==> index[j] == index[1..][j - 1];
      }
    } else if index != [] {
      assert index[0] == FirstMatch(index, target).value;
    }
  }

  /** A later record with the signature of an earlier one is never returned
      in its place: the lookup stops at the first. */
  lemma Shadowed(index: seq<StepDef>, i: nat, j: nat)
    requires i < j < |index| && index[i].normalized == index[j].normalized
    ensures FirstMatch(index, index[j].normalized).Some?
    ensures exists k :: 0 <= k <= i && FirstMatch(index, index[j].normalized) == Some(index[k])
  {
    var t := index[j].normalized;
    var m := FirstMatch(index, t);
    FirstMatchFirst(index, t);
    var k :| 0 <= k < |index| && index[k] == m.value
             && forall l :: 0 <= l < k ==> index[l].normalized != t;
    assert k <= i;
  }

  /** Looking from `k` on: the record at `k` if it matches, else the search
      from `k + 1`. */
  lemma FirstMatchStep(index: seq<StepDef>, k: nat, target: string)
    requires k < |index|
    ensures FirstMatch(index[k..], target)
            == if index[k].normalized == target then Some(index[k]) else FirstMatch(index[k + 1..], target)
  {
    assert index[k..][1..] == index[k + 1..];
  }

  /** `find_match`: normalise the feature line, build the index, return the
      first record with the same signature. */
  method FindMatch(corpus: seq<SourceFile>, gherkinLine: string) returns (m: Option<StepDef>)
    ensures m == FirstMatch(Index(corpus), NormalizeGherkin(gherkinLine))
  {
    var target := NormalizeGherkin(gherkinLine);
    var index := BuildIndex(corpus);
    m := Lookup(index, target);
  }

  /** The scan of `find_match` over the index, in index order. */
  method Lookup(index: seq<StepDef>, target: string) returns (m: Option<StepDef>)
    ensures m == FirstMatch(index, target)
  {
    for k := 0 to |index|
      invariant FirstMatch(index[k..], target) == FirstMatch(index, target)
    {
      FirstMatchStep(index, k, target);
      if index[k].normalized == target {
        return Some(index[k]);
      }
    }
    return None;
  }
}
