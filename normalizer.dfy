/** The two normalisers of tools/find_step.py: `normalize_gherkin` turns a
    feature-file line into a signature, `normalize_pattern` turns the
    argument of a step decorator into one. Each regular-expression
    substitution of the source is a left-to-right scanner here, which
    re-implements the leftmost, non-overlapping matching of `re.sub` for
    that one pattern. */
module Normalizer {
  import opened Text
  import opened Wrappers

  // ---------------------------------------------------------------------
  // Scanning helpers

  /** Index of the first `c` in `s`. */
  function IndexOf(s: string, c: char): (i: nat)
    requires c in s
    ensures i < |s| && s[i] == c && c !in s[..i]
  {
    if s[0] == c then 0 else 1 + IndexOf(s[1..], c)
  }

  predicate HasPrefix(s: string, p: string) {
    |p| <= |s| && s[..|p|] == p
  }

  // ---------------------------------------------------------------------
  // Leading keyword: re.sub(r'^(Feature|...|But)\s+', '', s, flags=re.I)

  /** The alternation of the keyword regex, in its order, lower-cased.
      `Scenario Outline` is not among them. */
  const GherkinKeywords: seq<string> := ["feature", "scenario", "given", "when", "then", "and", "but"]

  predicate LowerWord(k: string) {
    forall i :: 0 <= i < |k| ==> 'a' <= k[i] <= 'z'
  }

  lemma GherkinKeywordsLower()
    ensures forall k :: k in GherkinKeywords ==> LowerWord(k)
  {
    forall k | k in GherkinKeywords ensures LowerWord(k) {
      if k == "feature" {} else if k == "scenario" {} else if k == "given" {}
      else if k == "when" {} else if k == "then" {} else if k == "and" {} else {}
    }
  }

  /** `s` starts with the keyword `k` in any case, and a whitespace character follows it. */
  predicate KeywordAt(s: string, k: string) {
    |s| > |k| && EqualsIgnoreCase(s[..|k|], k) && IsSpace(s[|k|])
  }

  /** Two all-letter keywords cannot both lead the same string: the
      whitespace after the shorter one is not a letter of the longer one. */
  lemma KeywordUnique(s: string, k1: string, k2: string)
    requires LowerWord(k1) && LowerWord(k2)
    requires KeywordAt(s, k1) && KeywordAt(s, k2)
    ensures k1 == k2
  {
    if |k1| == |k2| {
      assert forall i :: 0 <= i < |k1| ==> k1[i] == Lower(s[i]) == k2[i];
    }
  }

  /** The first keyword of `ks` that leads `s`, and the whitespace after it, removed. */
  function StripFirstKeyword(s: string, ks: seq<string>): string
  {
    if ks == [] then s
    else if KeywordAt(s, ks[0]) then TrimLeft(s[|ks[0]|..])
    else StripFirstKeyword(s, ks[1..])
  }

  /** The keyword step of `normalize_gherkin`. */
  function StripKeyword(s: string): string
  {
    StripFirstKeyword(s, GherkinKeywords)
  }

  /** A leading keyword followed by whitespace goes, with all the whitespace
      after it; when no keyword leads, nothing goes. */
  lemma StripKeywordSpec(s: string)
    ensures forall k :: k in GherkinKeywords && KeywordAt(s, k) ==> StripKeyword(s) == TrimLeft(s[|k|..])
    ensures (forall k :: k in GherkinKeywords ==> !KeywordAt(s, k)) ==> StripKeyword(s) == s
  {
    GherkinKeywordsLower();
    StripFirstSpec(s, GherkinKeywords);
  }

  lemma {:induction false} StripFirstSpec(s: string, ks: seq<string>)
    requires forall k :: k in ks ==> LowerWord(k)
    ensures forall k :: k in ks && KeywordAt(s, k) ==> StripFirstKeyword(s, ks) == TrimLeft(s[|k|..])
    ensures (forall k :: k in ks ==> !KeywordAt(s, k)) ==> StripFirstKeyword(s, ks) == s
  {
    if ks != [] {
      if KeywordAt(s, ks[0]) {
        forall k | k in ks && KeywordAt(s, k) ensures k == ks[0] {
          KeywordUnique(s, k, ks[0]);
        }
      } else {
        StripFirstSpec(s, ks[1..]);
      }
    }
  }

  // ---------------------------------------------------------------------
  // Quoted runs: re.sub(r'"[^"]*"', '"{}"', s) and the single-quote twin

  /** Every run `q...q` without an inner `q` becomes `q{}q`. */
  function ReplaceQuoted(s: string, q: char): (r: string)
    decreases |s|
  {
    if s == [] then []
    else if s[0] == q && q in s[1..] then
      var close := 1 + IndexOf(s[1..], q);
      [q, '{', '}', q] + ReplaceQuoted(s[close + 1..], q)
    else
      [s[0]] + ReplaceQuoted(s[1..], q)
  }

  // ---------------------------------------------------------------------
  // Numerals: re.sub(r'\b\d+(\.\d+)?\b', '{}', s)

  /** Number of leading decimal digits. */
  function DigitRun(s: string): (n: nat)
    ensures n <= |s|
  {
    if s != [] && IsDigit(s[0]) then 1 + DigitRun(s[1..]) else 0
  }

  /** The run is all digits and stops at the first character that is not one. */
  lemma {:induction false} DigitRunSpec(s: string)
    ensures forall i :: 0 <= i < DigitRun(s) ==> IsDigit(s[i])
    ensures DigitRun(s) < |s| ==> !IsDigit(s[DigitRun(s)])
  {
    if s != [] && IsDigit(s[0]) {
      DigitRunSpec(s[1..]);
      forall i | 0 <= i < DigitRun(s) ensures IsDigit(s[i]) {
        if i > 0 {
          assert s[i] == s[1..][i - 1];
        }
      }
    }
  }

  predicate AllDigits(s: string) {
    |s| > 0 && forall i :: 0 <= i < |s| ==> IsDigit(s[i])
  }

  /** What `\d+(\.\d+)?` matches as a whole. */
  predicate IsNumeral(t: string) {
    AllDigits(t) || exists p :: 0 < p < |t| && t[p] == '.' && AllDigits(t[..p]) && AllDigits(t[p + 1..])
  }

  /** `\b` after a match of length `n` that ends in a digit. */
  predicate BoundaryAfter(s: string, n: nat)
    requires n <= |s|
  {
    n == |s| || !IsWordChar(s[n])
  }

  /** The length of the match of `\d+(\.\d+)?\b` at the start of `s`, as the
      backtracking engine finds it: the whole decimal if a boundary follows
      it, else the integer part if a boundary follows that, else none. */
  function NumeralLength(s: string): (r: Option<nat>)
    requires s != [] && IsDigit(s[0])
    ensures r.Some? ==> 0 < r.value <= |s|
  {
    var q := DigitRun(s);
    if q + 1 < |s| && s[q] == '.' && IsDigit(s[q + 1]) then
      var e := q + 1 + DigitRun(s[q + 1..]);
      if e == |s| || !IsWordChar(s[e]) then Some(e) else Some(q)
    else if q == |s| || !IsWordChar(s[q]) then Some(q)
    else None
  }

  /** The match found is the longest numeral prefix that a word boundary
      follows, and there is none when no such prefix exists. */
  lemma NumeralLengthSpec(s: string)
    requires s != [] && IsDigit(s[0])
    ensures var r := NumeralLength(s);
      && (r.Some? ==> IsNumeral(s[..r.value]) && BoundaryAfter(s, r.value))
      && (r.Some? ==> forall n :: r.value < n <= |s| && IsNumeral(s[..n]) ==> !BoundaryAfter(s, n))
      && (r.None? ==> forall n :: 0 < n <= |s| && IsNumeral(s[..n]) ==> !BoundaryAfter(s, n))
  {
    var q := DigitRun(s);
    DigitRunSpec(s);
    NumeralPrefixes(s, q);
    if q + 1 < |s| && s[q] == '.' && IsDigit(s[q + 1]) {
      DigitRunSpec(s[q + 1..]);
      var e := q + 1 + DigitRun(s[q + 1..]);
      var t := s[..e];
      assert t[..q] == s[..q] && t[q + 1..] == s[q + 1..e] && t[q] == '.';
      assert AllDigits(t[..q]) && AllDigits(t[q + 1..]);
      assert IsNumeral(t);
    }
  }

  /** The numeral prefixes of `s` that a boundary follows end at its leading
      digit run `q`, or after `q`, a dot and the digit run that follows. */
  lemma NumeralPrefixes(s: string, q: nat)
    requires s != [] && IsDigit(s[0]) && q == DigitRun(s)
    ensures q > 0 && IsNumeral(s[..q])
    ensures forall n :: 0 < n <= |s| && IsNumeral(s[..n]) && BoundaryAfter(s, n) ==>
      n == q || (q + 1 < |s| && s[q] == '.' && n == q + 1 + DigitRun(s[q + 1..]))
  {
    DigitRunSpec(s);
    assert AllDigits(s[..q]);
    forall n | 0 < n <= |s| && IsNumeral(s[..n]) && BoundaryAfter(s, n)
      ensures n == q || (q + 1 < |s| && s[q] == '.' && n == q + 1 + DigitRun(s[q + 1..]))
    {
      if AllDigits(s[..n]) {
        DigitPrefixEnd(s, n);
      } else {
        DottedPrefixEnd(s, n);
      }
    }
  }

  lemma DigitPrefixEnd(s: string, n: nat)
    requires 0 < n <= |s| && AllDigits(s[..n]) && BoundaryAfter(s, n)
    ensures n == DigitRun(s)
  {
    DigitRunSpec(s);
  }

  lemma DottedPrefixEnd(s: string, n: nat)
    requires 0 < n <= |s| && IsNumeral(s[..n]) && !AllDigits(s[..n]) && BoundaryAfter(s, n)
    ensures DigitRun(s) + 1 < |s| && s[DigitRun(s)] == '.' && n == DigitRun(s) + 1 + DigitRun(s[DigitRun(s) + 1..])
  {
    var t := s[..n];
    var p :| 0 < p < |t| && t[p] == '.' && AllDigits(t[..p]) && AllDigits(t[p + 1..]);
    assert t[..p] == s[..p];
    assert t[p + 1..] == s[p + 1..n];
    DottedPrefixEndAt(s, n, p);
  }

  lemma DottedPrefixEndAt(s: string, n: nat, p: nat)
    requires 0 < p < n <= |s| && s[p] == '.' && AllDigits(s[..p]) && AllDigits(s[p + 1..n]) && BoundaryAfter(s, n)
    ensures p == DigitRun(s) && n == p + 1 + DigitRun(s[p + 1..])
  {
    DigitPrefixEnd(s, p);
    var u := s[p + 1..];
    assert u[..n - p - 1] == s[p + 1..n];
    assert n - p - 1 < |u| ==> u[n - p - 1] == s[n];
    DigitPrefixEnd(u, n - p - 1);
  }

  /** Every standalone numeral becomes `{}`. `afterWord` says whether the
      character before `s` was a word character (the `\b` look-behind). */
  function ReplaceNumerals(s: string, afterWord: bool): (r: string)
    decreases |s|
  {
    if s == [] then []
    else if !afterWord && IsDigit(s[0]) && NumeralLength(s).Some? then
      "{}" + ReplaceNumerals(s[NumeralLength(s).value..], true)
    else
      [s[0]] + ReplaceNumerals(s[1..], IsWordChar(s[0]))
  }

  // ---------------------------------------------------------------------
  // normalize_gherkin

  /** normalize_gherkin: strip, drop one leading keyword, double-quoted runs
      to `"{}"`, standalone numerals to `{}`, collapse whitespace, strip. */
  function NormalizeGherkin(line: string): (sig: string)
    ensures Canonical(sig)
  {
    var trimmed := Strip(line);
    var body := StripKeyword(trimmed);
    var quoted := ReplaceQuoted(body, '"');
    var numbered := ReplaceNumerals(quoted, false);
    Tidy(numbered)
  }

  // ---------------------------------------------------------------------
  // normalize_pattern

  /** re.sub(r'^[ruRU]\s*', '', pat): one string-prefix letter and the
      whitespace after it. */
  function StripStringPrefix(s: string): (r: string)
  {
    if s != [] && s[0] in "ruRU" then TrimLeft(s[1..]) else s
  }

  /** One pair of surrounding quotes, when the first and last characters are
      the same quote (a lone quote counts as both, as `pat[1:-1]` does). */
  function StripOuterQuotes(s: string): (r: string)
  {
    if s != [] && (s[0] == '"' || s[0] == '\'') && s[|s| - 1] == s[0] then
      if |s| >= 2 then s[1..|s| - 1] else []
    else s
  }

  /** No named placeholder is left: the first `}` after any `{` is the very next character. */
  predicate NoNamedPlaceholder(s: string) {
    forall i, j :: 0 <= i < j < |s| && s[i] == '{' && s[j] == '}' ==> s[i + 1] == '}'
  }

  /** re.sub(r'\{[^}]+\}', '{}', s): every non-empty `{...}` becomes `{}`. */
  function ReplaceBraces(s: string): (r: string)
    ensures NoNamedPlaceholder(r)
    ensures '}' !in s ==> r == s
    ensures s != [] && s[0] != '{' ==> r != [] && r[0] == s[0]
    decreases |s|
  {
    if s == [] then []
    else if s[0] == '{' && '}' in s[1..] && IndexOf(s[1..], '}') > 0 then
      var close := 1 + IndexOf(s[1..], '}');
      var rest := ReplaceBraces(s[close + 1..]);
      assert forall i :: 2 <= i < |rest| + 2 ==> ("{}" + rest)[i] == rest[i - 2];
      "{}" + rest
    else
      var rest := ReplaceBraces(s[1..]);
      assert forall i :: 1 <= i < |rest| + 1 ==> ([s[0]] + rest)[i] == rest[i - 1];
      assert s[0] == '{' && '}' in s[1..] ==> rest[0] == '}';
      [s[0]] + rest
  }

  const IntGroup: string := "(\\d+)"
  const BareIntGroup: string := "(d+)"

  /** re.sub(r'\(\\?d\+\)', '{}', s): the groups `(\d+)` and `(d+)` become `{}`. */
  function ReplaceIntGroups(s: string): (r: string)
    decreases |s|
  {
    if s == [] then []
    else if HasPrefix(s, IntGroup) then "{}" + ReplaceIntGroups(s[|IntGroup|..])
    else if HasPrefix(s, BareIntGroup) then "{}" + ReplaceIntGroups(s[|BareIntGroup|..])
    else [s[0]] + ReplaceIntGroups(s[1..])
  }

  /** Length of a match of `\(\\?d\+\.\d\+\)` at the start of `s`: a `(`, an
      optional backslash, `d+.`, ONE digit, then `+)`. */
  function DecimalGroupLength(s: string): (n: nat)
    ensures n == 0 || (n <= |s| && s[0] == '(' && s[n - 1] == ')')
  {
    if |s| >= 8 && s[..5] == "(\\d+." && IsDigit(s[5]) && s[6..8] == "+)" then 8
    else if |s| >= 7 && s[..4] == "(d+." && IsDigit(s[4]) && s[5..7] == "+)" then 7
    else 0
  }

  /** re.sub(r'\(\\?d\+\.\d\+\)', '{}', s). */
  function ReplaceDecimalGroups(s: string): (r: string)
    decreases |s|
  {
    if s == [] then []
    else if DecimalGroupLength(s) > 0 then "{}" + ReplaceDecimalGroups(s[DecimalGroupLength(s)..])
    else [s[0]] + ReplaceDecimalGroups(s[1..])
  }

  /** normalize_pattern: strip, drop a string prefix and one pair of outer
      quotes, then rewrite what is inside. */
  function NormalizePattern(pat: string): (sig: string)
    ensures Canonical(sig)
  {
    var trimmed := Strip(pat);
    var unprefixed := StripStringPrefix(trimmed);
    var inner := StripOuterQuotes(unprefixed);
    NormalizeInner(inner)
  }

  /** The rest of normalize_pattern: placeholders and integer groups to `{}`,
      quoted runs to `"{}"` and `'{}'`, collapse whitespace, strip. */
  function NormalizeInner(inner: string): (sig: string)
    ensures Canonical(sig)
  {
    var braces := ReplaceBraces(inner);
    var ints := ReplaceIntGroups(braces);
    var decimals := ReplaceDecimalGroups(ints);
    var doubled := ReplaceQuoted(decimals, '"');
    var singled := ReplaceQuoted(doubled, '\'');
    Tidy(singled)
  }
}
