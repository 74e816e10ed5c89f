# find_step: step signatures, the step index, lookup and undefined steps

This project models the step-matching core of `tools/find_step.py`, a helper that
links behave feature files to their Python step definitions.

The helper reduces both sides to a common *signature*:

- `normalize_gherkin` turns a feature-file line (`Then the status is "200"`) into a
  signature. It removes the Gherkin keyword, turns every double-quoted run into `"{}"`
  (the quotes stay), and turns every standalone numeral into `{}`.
- `normalize_pattern` turns the argument of a step decorator
  (`@then('the status is "{code}"')`) into a signature. It removes the string prefix
  and the outer quotes, and turns placeholders and numeric regex groups into `{}`. It
  turns double-quoted runs into `"{}"` and single-quoted runs into `'{}'`, keeping the
  quotes.

The *index* is the list of records `{file, line, raw, normalized, keyword}`, one for
each decorator line of each step file. `find_match` returns the first record whose
signature equals that of a feature line. `list_undefined` reports every feature step
line whose signature is in no record.

Module layout:

- `Text` (text.dfy): the character classes of Python's `\s`, `\d` and `\w` over ASCII,
  and `str.strip`, written as `Strip`. It also holds whitespace collapsing (`\s+` → one
  space), written as `CollapseSpaces` and `Tidy`, and the `Canonical` shape they produce.
- `Normalizer` (normalizer.dfy): each regular-expression substitution as a hand-written
  scanner over `string`. The two normalisers are pipelines of those scanners, exactly as
  the source rebinds `s`/`pat`.
- `GherkinProperties` and `PatternProperties`: what the two normalisers keep and what they
  forget.
- `Idempotence` (idempotence.dfy): `normalize_gherkin` applied to its own output.
- `StepCatalog` (step_catalog.dfy): the decorator regex on one line, the index as a
  function of the step files (`Index`), and the two loops that compute it and search it:
  the methods `BuildIndex`, `Lookup` and `FindMatch`.
- `UndefinedSteps` (undefined_steps.dfy): the report as a function of the step files and
  the feature files (`Report`), and the method `ListUndefined` with its nested loops.
- `Scenarios` and `StepScenarios`: concrete lines and decorators worked through the model.
- `Sequences` and `Wrappers`: the `Option` type, and the flattening and filtering of
  sequences.

Where the helper's comments and its code disagree, the model follows the code:

- The keyword regex has no `Outline` alternative. `Scenario Outline: Login` loses only
  `Scenario` (`Scenarios.OutlineHeader`).
- The keyword must be followed by whitespace, so `Feature: Login` is kept whole
  (`Scenarios.FeatureHeaderKept`).
- The feature-line side replaces only double-quoted runs: single quotes stay
  (`Scenarios.SingleQuotesKept`).
- Only the feature-line side replaces numerals. The pattern side leaves literal numbers
  alone.
- The comment at line 61 promises `(\d+\.\d+)`. The regex there matches `(d+.` or `(\d+.`
  followed by one literal digit, `+)`. `Normalizer.DecimalGroupLength` models the regex
  as written (`PatternProperties.DecimalGroupAsWritten`).
- A pattern written with escaped quotes (`"the status is \"{code}\""`) keeps a backslash
  in its signature. So it does not match the feature line `Then the status is "200"`
  (`StepScenarios.EscapedQuotesKept`). The worked scenario therefore uses a single-quoted
  decorator argument.
- `normalize_gherkin` is not idempotent in general: `Given When I log in` gives
  `When I log in`, which gives `I log in` (`Scenarios.KeywordRemovedOnce`). It is
  idempotent on every line whose signature does not itself start with a keyword followed
  by whitespace (`Idempotence.Idempotent`). That covers signatures with `"{}"`
  placeholders, such as `the status is "{}"`.

Regular expressions are modelled over ASCII:

- `\s` is space, `\t` to `\r` and `\x1c` to `\x1f`.
- `\d` is `0`-`9`.
- `\w` is ASCII letters, digits and `_`.
- `re.I` compares ASCII letters without regard to case.

## Model

| member | source | states |
|---|---|---|
| Text.TrimLeft | tools/find_step.py:31 | the left half of `str.strip`: the result is a suffix of the input, what is removed is all whitespace, and the result starts with a visible character or is empty |
| Text.TrimRight | tools/find_step.py:31 | the right half of `str.strip`: a prefix, only whitespace removed, ends with a visible character or is empty |
| Text.StripSpec | tools/find_step.py:31 | stripping keeps every visible character in order and leaves no whitespace at either end |
| Text.CollapseSpaces | tools/find_step.py:40 | the result of `\s+` → space holds only plain spaces, never two in a row, is empty exactly when the input is, and starts with a space exactly when the input starts with whitespace; `CollapseAround` adds that each run becomes exactly one space |
| Text.CollapseAround | tools/find_step.py:40 | a whitespace run between two visible characters becomes exactly one space, and the text on either side is collapsed on its own |
| Text.CollapsePlainPrefix | tools/find_step.py:40 | text without whitespace passes the collapse unchanged, whatever follows it |
| Text.CollapseVisible | tools/find_step.py:40 | collapsing whitespace keeps the visible characters unchanged and in order |
| Text.Tidy | tools/find_step.py:40-41 | collapse then strip gives a canonical string: no whitespace at the ends, only single plain spaces inside; `TidyAround` adds that words stay apart |
| Text.TidyAround | tools/find_step.py:40-41 | a whitespace run between two visible characters leaves exactly one space between the two tidied sides, so words are never joined |
| Text.Strip | tools/find_step.py:31 | `str.strip` as `TrimRight` after `TrimLeft`; `StripSpec` states what it keeps and that no whitespace is left at either end |
| Text.TidyVisible | tools/find_step.py:40-41 | collapse then strip keeps the visible characters unchanged |
| Text.TidyCanonical | tools/find_step.py:66-67 | collapse then strip leaves an already canonical string unchanged |
| Normalizer.KeywordUnique | tools/find_step.py:32 | at most one keyword of the alternation matches at the start of a line, so the order of the alternation does not matter |
| Normalizer.StripKeywordSpec | tools/find_step.py:32 | when a keyword (any case) followed by whitespace starts the line, it and the whitespace after it are removed; otherwise the line is unchanged |
| Normalizer.StripFirstKeyword | tools/find_step.py:32 | the alternation tried keyword by keyword; `StripKeywordSpec` and `KeywordUnique` state the outcome |
| Normalizer.StripKeyword | tools/find_step.py:32 | `re.sub` of the keyword regex with `re.I`; `StripKeywordSpec` states both cases |
| Normalizer.ReplaceQuoted | tools/find_step.py:34 | `"[^"]*"` → `"{}"` (and `'[^']*'` → `'{}'` on the pattern side); `QuotedRun`, `QuotedPlain` and `Idempotence.QuotesSettle` state what it does |
| Normalizer.IndexOf | tools/find_step.py:34 | the index of the first occurrence of a character, used to find the closing quote of a `"[^"]*"` run |
| Normalizer.DigitRunSpec | tools/find_step.py:36 | `\d+` takes every leading digit and stops at the first non-digit |
| Normalizer.DigitRun | tools/find_step.py:36 | the `\d+` part of the numeral regex; `DigitRunSpec` states where it stops |
| Normalizer.NumeralLength | tools/find_step.py:36 | the length of the numeral match at a digit, within the text; `NumeralLengthSpec` states which match the engine finds |
| Normalizer.ReplaceNumerals | tools/find_step.py:36 | `\b\d+(\.\d+)?\b` → `{}`; `NumeralStep`, `NumeralsInWords` and `Idempotence.NumeralsIdempotent` state what it does |
| Normalizer.NumeralLengthSpec | tools/find_step.py:36 | `\d+(\.\d+)?\b` at a digit matches the longest numeral prefix followed by a word boundary, and fails when no numeral prefix is followed by one |
| Normalizer.NormalizeGherkin | tools/find_step.py:22-41 | the signature of a feature line is canonical: no surrounding whitespace, no whitespace but single spaces |
| Normalizer.ReplaceBraces | tools/find_step.py:58 | after `\{[^}]+\}` → `{}` no named placeholder is left; a string with no `}` is unchanged; the first character survives when it is not `{` |
| Normalizer.StripStringPrefix | tools/find_step.py:53 | one leading `r`/`u`/`R`/`U` and the whitespace after it removed; `StringPrefixSpec` states it |
| Normalizer.StripOuterQuotes | tools/find_step.py:55-56 | one pair of equal outer quotes removed; `OuterQuotesRoundTrip` and `OuterQuotesKeep` state it |
| Normalizer.ReplaceIntGroups | tools/find_step.py:60 | `(\d+)` and `(d+)` → `{}`; `IntGroupRun` and `GroupsNone` state it |
| Normalizer.ReplaceDecimalGroups | tools/find_step.py:61 | the decimal-group regex → `{}`; `DecimalGroupRun`, `DecimalGroupsPlain` and `DecimalGroupAsWritten` state it |
| Normalizer.DecimalGroupLength | tools/find_step.py:61 | a match of the decimal-group regex starts with `(` and ends with `)` within the string |
| Normalizer.NormalizePattern | tools/find_step.py:43-67 | the signature of a decorator argument is canonical |
| Normalizer.NormalizeInner | tools/find_step.py:58-67 | the stages after the quotes are removed yield a canonical string |
| GherkinProperties.StripKeywordAppend | tools/find_step.py:32 | keyword removal looks only at the start: text appended after a visible prefix passes through unchanged |
| GherkinProperties.KeywordAppend | tools/find_step.py:32 | whether a keyword matches depends only on the first characters of the line |
| GherkinProperties.QuotedPlain | tools/find_step.py:34 | text without a quote character passes through quote replacement unchanged |
| GherkinProperties.QuotedRun | tools/find_step.py:34 | a quoted run whatever its contents becomes the quoted placeholder |
| GherkinProperties.QuotedContentIrrelevant | tools/find_step.py:34 | two feature lines that differ only inside a double-quoted run have the same signature |
| GherkinProperties.NumeralsAppend | tools/find_step.py:36 | numeral replacement splits at whitespace: on a text ending in whitespace followed by more text it is the replacement of each part |
| GherkinProperties.NumeralWhole | tools/find_step.py:36 | a whole numeral followed by whitespace or the end is matched whole |
| GherkinProperties.LongerNumeral | tools/find_step.py:36 | a numeral never reaches across a whitespace character |
| GherkinProperties.NumeralStep | tools/find_step.py:36 | a numeral at a word boundary becomes `{}` and the scan goes on after it |
| GherkinProperties.NumeralIrrelevant | tools/find_step.py:36 | two feature lines that differ only in one whitespace-delimited integer or decimal numeral have the same signature |
| GherkinProperties.NumeralsInWords | tools/find_step.py:36 | digits joined to word characters (`item3`) are left unchanged |
| GherkinProperties.QuotedNone | tools/find_step.py:34 | a line without double quotes is untouched by quote replacement; single quotes are not replaced |
| GherkinProperties.PlainBody | tools/find_step.py:31-41 | with no double quote and no standalone numeral after the keyword, the signature is that text with canonical spacing |
| GherkinProperties.FixedPoint | tools/find_step.py:22-41 | a canonical line with no keyword at its start, no double quote and no standalone numeral is its own signature (the general statement is `Idempotence.Idempotent`) |
| GherkinProperties.KeywordLine | tools/find_step.py:32 | a keyword in any case, one space and visible text leave that text |
| Idempotence.Idempotent | tools/find_step.py:22-41 | a line whose signature does not start with a keyword and whitespace has that signature as its own signature |
| Idempotence.QuotesSettle | tools/find_step.py:34 | after the quote step every double quote with a partner after it opens a `"{}"` run |
| Idempotence.SettledFixed | tools/find_step.py:34 | the quote step leaves such settled text unchanged, so it is idempotent |
| Idempotence.NumeralsKeepSettled | tools/find_step.py:34-36 | the numeral step keeps text settled |
| Idempotence.TidyKeepsSettled | tools/find_step.py:40-41 | collapse and strip keep text settled |
| Idempotence.CollapseKeepsSettled | tools/find_step.py:40 | the collapse keeps text settled |
| Idempotence.NumeralsIdempotent | tools/find_step.py:36 | the numeral step leaves no standalone numeral: applied to its own output it changes nothing |
| Idempotence.NumeralBeforeSeparator | tools/find_step.py:36 | a numeral match ends before a character that is neither a word character nor a dot |
| Idempotence.NumeralsSeparate | tools/find_step.py:36 | text on either side of such a separator goes through the numeral step independently |
| Idempotence.NumeralsCollapse | tools/find_step.py:36-40 | the numeral step and the collapse commute |
| Idempotence.NumeralsStrip | tools/find_step.py:31-36 | the numeral step and `str.strip` commute |
| Idempotence.NumeralsTidy | tools/find_step.py:36-41 | the numeral step and collapse-then-strip commute |
| PatternProperties.StringPrefixSpec | tools/find_step.py:53 | at most one leading `r`/`u`/`R`/`U` and the whitespace after it is removed, and only when the pattern starts with one |
| PatternProperties.OuterQuotesRoundTrip | tools/find_step.py:55-56 | wrapping in a pair of equal quotes, then removing the outer quotes, gives the text back |
| PatternProperties.OuterQuotesKeep | tools/find_step.py:55-56 | a string that does not start and end with the same quote character is unchanged |
| PatternProperties.BracesRun | tools/find_step.py:58 | a non-empty `{...}` becomes `{}` |
| PatternProperties.BracesNameIrrelevant | tools/find_step.py:58 | the name inside a placeholder does not matter |
| PatternProperties.IntGroupRun | tools/find_step.py:60 | `(\d+)` and `(d+)` become `{}` |
| PatternProperties.GroupsNone | tools/find_step.py:60-61 | a pattern without `(` is unchanged by both group replacements |
| PatternProperties.DecimalGroupRun | tools/find_step.py:61 | `(\d+.` or `(d+.`, any one digit and `+)` become `{}`, whatever follows |
| PatternProperties.DecimalGroupsPlain | tools/find_step.py:61 | text without `(` passes the decimal rewrite unchanged, whatever follows |
| PatternProperties.DecimalGroupAsWritten | tools/find_step.py:61 | the decimal-group regex does not match `(\d+\.\d+)`; it matches `(\d+.5+)` and `(d+.5+)` |
| PatternProperties.PatternWrapped | tools/find_step.py:51-56 | a pattern wrapped in equal quotes has the signature of its inside |
| PatternProperties.PlaceholderNameIrrelevant | tools/find_step.py:55-58 | two quoted patterns that differ only in a placeholder's name have the same signature |
| PatternProperties.IntGroupLikePlaceholder | tools/find_step.py:58-60 | an integer group and a named placeholder in the same place give the same signature |
| StepCatalog.FirstNewline | tools/find_step.py:81 | the first newline at or after a position, since `.` does not match a newline |
| StepCatalog.LastClose | tools/find_step.py:81 | the last `)` in a range, since `.+` is greedy |
| StepCatalog.OpenParen | tools/find_step.py:81 | the `(` that follows one of the step words after `@` |
| StepCatalog.OnlyFourLetters | tools/find_step.py:81 | after `@`, a four-letter step word and a five-letter one never both fit, so the word before `(` is determined |
| StepCatalog.Indent | tools/find_step.py:81 | `^\s*` takes all leading whitespace and stops at the first visible character |
| StepCatalog.DecoratorSpan | tools/find_step.py:81 | the positions of `@`, `(` and the closing `)` of the one match, in order and inside the line |
| StepCatalog.DecoratorSpanSound | tools/find_step.py:81 | the span found is a match of the decorator regex: indentation, `@`, one of `given`, `when`, `then`, `step` in any case, `(`, a non-empty text without newline, `)` |
| StepCatalog.DecoratorSpanSpec | tools/find_step.py:81 | when no span is found there is no match; when one is found every match starts at its `@` and `(` and ends no later than its `)` |
| StepCatalog.StepDefAt | tools/find_step.py:81-91 | the record of a line carries the file and the line number it was given |
| StepCatalog.StepDefAtSpec | tools/find_step.py:81-91 | a line gives a record exactly when the decorator regex matches; then its signature is `NormalizePattern` of its raw text and its keyword is a lower-case step word |
| StepCatalog.StepDefOfMatch | tools/find_step.py:83-90 | from any match, the raw text is the stripped text between `(` and the last `)`, and the keyword is the matched word in lower case |
| StepCatalog.LowerStepWord | tools/find_step.py:90 | a step word in any case lowers to one of `given`, `when`, `then`, `step` |
| StepCatalog.DecoratorAt | tools/find_step.py:81 | the decorator regex matching with `@` at one position, `(` at another and the closing `)` at a third; `DecoratorSpanSound` and `DecoratorSpanSpec` state which match is taken |
| StepCatalog.FileIndex | tools/find_step.py:80-91 | the records of one step file; `FileIndexSound`, `FileIndexOrdered` and `FileIndexComplete` state them |
| StepCatalog.Index | tools/find_step.py:75-92 | the records of all step files in file order; `IndexMembers` and `IndexSnoc` state them |
| StepCatalog.FileIndexSound | tools/find_step.py:80-91 | each record of a file comes from its line: that line's record, with the file path and its 1-based number |
| StepCatalog.FileIndexOrdered | tools/find_step.py:80 | the records of one file come in increasing line order |
| StepCatalog.FileIndexComplete | tools/find_step.py:80-91 | every decorator line of a file has its record in the file's index |
| StepCatalog.IndexMembers | tools/find_step.py:75-92 | a record is in the index exactly when it is in the records of one of the step files |
| StepCatalog.IndexSnoc | tools/find_step.py:75-91 | one more step file appends its records after all earlier ones |
| StepCatalog.BuildIndex | tools/find_step.py:69-92 | the nested loops over files and enumerated lines build exactly `Index(corpus)` |
| StepCatalog.LineRecordsSnoc | tools/find_step.py:80-91 | one more line appends its record, if any, to the file's records |
| StepCatalog.FirstMatch | tools/find_step.py:97-100 | no result exactly when no entry has the target signature; a result is an index entry with that signature |
| StepCatalog.FirstMatchFirst | tools/find_step.py:97-99 | the result is the entry at the first position with the target signature; no earlier entry has it |
| StepCatalog.Shadowed | tools/find_step.py:97-99 | an entry is shadowed by any earlier entry with the same signature: the lookup returns an entry at or before it |
| StepCatalog.FirstMatchStep | tools/find_step.py:97-99 | one step of the scan: return the current entry when it matches, otherwise go on with the rest |
| StepCatalog.Lookup | tools/find_step.py:97-100 | the loop with early return yields `FirstMatch(index, target)` |
| StepCatalog.FindMatch | tools/find_step.py:94-100 | `find_match` returns the first record of `Index(corpus)` whose signature equals the line's signature, and none if there is none |
| UndefinedSteps.SearchFrom | tools/find_step.py:116 | true exactly when a whole-word, case-sensitive step word occurs at or after a position |
| UndefinedSteps.HasStepWord | tools/find_step.py:116 | the search for a step word is true exactly when one of `Given`, `When`, `Then`, `And`, `But` occurs as a whole word, case-sensitive, somewhere in the line |
| UndefinedSteps.Signatures | tools/find_step.py:108 | a signature is in the set exactly when `find_match`'s scan of the index finds a record for it |
| UndefinedSteps.StepWordAt | tools/find_step.py:116 | one of the five step words, case-sensitive, with a word boundary on both sides; `HasStepWord` states the search |
| UndefinedSteps.Reported | tools/find_step.py:116-118 | the three conditions under which a line is reported; `ReportedIffUnmatched` ties them to `find_match` |
| UndefinedSteps.UndefinedAt | tools/find_step.py:116-124 | the entry of one line, with its 1-based number, stripped text and signature; `LineReportsSnoc` states it |
| UndefinedSteps.FileUndefined | tools/find_step.py:115-124 | the entries of one feature file; `FileUndefinedSound`, `FileUndefinedOrdered` and `FileUndefinedComplete` state them |
| UndefinedSteps.AllUndefined | tools/find_step.py:110-124 | the entries of all feature files in order; `AllUndefinedSnoc` and `ReportMembers` state them |
| UndefinedSteps.Report | tools/find_step.py:102-124 | nothing without a features directory, else the entries against the index's signatures; `ReportMembers`, `EntryOrigin` and `EntryReported` state it |
| UndefinedSteps.ListUndefined | tools/find_step.py:102-125 | the loops produce exactly `Report(corpus, features)`: nothing when there is no features directory, else the entries of every feature file in order |
| UndefinedSteps.LineReportsSnoc | tools/find_step.py:115-124 | one more line appends its entry, with the stripped text and the signature, when it is reported, and nothing otherwise |
| UndefinedSteps.AllUndefinedSnoc | tools/find_step.py:110-124 | one more feature file appends its entries after all earlier ones |
| UndefinedSteps.FileUndefinedSound | tools/find_step.py:115-124 | each entry of a file comes from one of its lines: the 1-based line number, the stripped line and its signature |
| UndefinedSteps.FileUndefinedOrdered | tools/find_step.py:115 | the entries of one file come in increasing line order |
| UndefinedSteps.FileUndefinedComplete | tools/find_step.py:115-124 | every reported line of a file has its entry |
| UndefinedSteps.ReportMembers | tools/find_step.py:107-124 | an entry is in the report exactly when some line of some feature file produces it |
| UndefinedSteps.EntryOrigin | tools/find_step.py:110-124 | every entry of the report names the feature file and the line that produced it |
| UndefinedSteps.EntryReported | tools/find_step.py:110-124 | every reported line of every feature file has its entry in the report |
| UndefinedSteps.ReportedIffUnmatched | tools/find_step.py:116-118 | a line is reported exactly when it has a step word, its signature is non-empty, and `find_match` would find nothing for it |
| Scenarios.KeywordRemovedOnce | tools/find_step.py:32 | only one keyword is removed: `Given When I log in` gives `When I log in`, which gives `I log in` |
| Scenarios.KeywordThenPlain | tools/find_step.py:31-41 | a keyword, a space and canonical plain text give that text |
| Scenarios.FeatureHeaderKept | tools/find_step.py:32 | `Feature: Login` keeps its first word, since a colon is not whitespace |
| Scenarios.OutlineHeader | tools/find_step.py:32 | `Scenario Outline: Login` gives `Outline: Login` |
| Scenarios.WordWithDigitKept | tools/find_step.py:36 | `Given I pick item3` gives `I pick item3` |
| Scenarios.WaitSteps | tools/find_step.py:36 | `Then I wait 3 seconds` and `Then I wait 42.5 seconds` have the same signature |
| Scenarios.StatusSteps | tools/find_step.py:34 | status lines with `"200"` and `"404"` have the same signature |
| Scenarios.AndrewKept | tools/find_step.py:32 | `Andrew logs in` is its own signature: `And` must be followed by whitespace |
| Scenarios.SingleQuotesKept | tools/find_step.py:34 | `When I type 'abc'` gives `I type 'abc'` |
| StepScenarios.StepSignature | tools/find_step.py:31-41 | `Then the status is "200"` has the signature `the status is "{}"` |
| StepScenarios.StatusIdempotent | tools/find_step.py:22-41 | the signature `the status is "{}"` of `Then the status is "200"` is its own signature |
| StepScenarios.PatternSignature | tools/find_step.py:58-67 | the inside `the status is "{code}"` has the same signature |
| StepScenarios.DecoratorRecord | tools/find_step.py:81-91 | `@then('the status is "{code}"')` gives the record with raw text, that signature and keyword `then` |
| StepScenarios.StatusLookup | tools/find_step.py:94-100 | looking up the feature line in that step file finds that record |
| StepScenarios.StatusUndefined | tools/find_step.py:102-125 | with no step files the feature line is reported, with its line number, text and signature |
| StepScenarios.StatusDefined | tools/find_step.py:102-125 | with that step file nothing is reported |
| StepScenarios.OneLineReport | tools/find_step.py:102-125 | for a feature file holding one stripped step line with a non-empty signature, the report is empty when the signature is among the step files' signatures and otherwise is that line's single entry |
| StepScenarios.EntryOfStep | tools/find_step.py:116-124 | a stripped step line with a non-empty signature has no entry exactly when its signature is among the signatures, and otherwise has the entry with its line number, text and signature |
| StepScenarios.EscapedQuotesKept | tools/find_step.py:55-64 | the escaped-quote pattern `"the status is \"{code}\""` keeps a backslash and does not match the feature line |
| StepScenarios.OtherWordingUnmatched | tools/find_step.py:94-100 | a differently worded line finds no record |
| StepScenarios.EmptyCorpusReportsAll | tools/find_step.py:102-118 | with no step files the index is empty and every step line with a non-empty signature is reported |

## Left out

- `main`, the argument parser and the JSON output (tools/find_step.py:127-145) are command-line plumbing and are not modelled.
- The file system is not modelled. The step files and the feature files are given as sequences of (path, lines). A missing steps directory is an empty sequence of step files. A missing features directory is `None`. A file that cannot be read is simply absent. The order `rglob` yields is whatever order the sequences are given in.
- `str.splitlines` is not modelled: lines arrive already split. Line breaks other than `\n` inside a line, such as `\r` or form feed, are not treated specially.
- Regular expressions are hand-written for the patterns the helper uses, over ASCII only. Unicode whitespace, Unicode digits, Unicode word characters and the non-ASCII case folding of `re.I` are not modelled.
- The commented-out UUID and hex heuristic (tools/find_step.py:37-38) is disabled in the source and is not modelled.
- `find_match` and `list_undefined` rebuild the index from the disk on every call. In the model the step files are an argument, and `FindMatch` builds the index from them once.
- The record's `file` is the path as given, not Python's `str(py)` of an absolute path.
- GherkinProperties.NumeralIrrelevant: stated only for a numeral with whitespace or the line's end on both sides and no double quote before it. A numeral next to punctuation, such as `3,`, is not covered by the lemma, although the normaliser itself models it.
- GherkinProperties.QuotedContentIrrelevant: stated for the first double-quoted run of a line, the one preceded by no other double quote.
