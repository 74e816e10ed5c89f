/** What `normalize_gherkin` promises: which parts of a feature-file line
    the signature forgets (the keyword, the contents of double-quoted runs,
    standalone numerals, the spacing) and which it keeps. */
module GherkinProperties {
  import opened Text
  import opened Sequences
  import opened Wrappers
  import opened Normalizer

  // ---------------------------------------------------------------------
  // The keyword step looks only at the front of the line

  /** The keyword regex cannot reach past a character that is neither a
      letter nor whitespace, so what follows such a character is kept as is. */
  lemma StripKeywordAppend(p: string, u: string)
    requires u != [] && !IsSpace(u[0]) && !IsLetter(u[0])
    ensures StripKeyword(p + u) == StripKeyword(p) + u
  {
    GherkinKeywordsLower();
    StripFirstAppend(p, u, GherkinKeywords);
  }

  lemma {:induction false} StripFirstAppend(p: string, u: string, ks: seq<string>)
    requires u != [] && !IsSpace(u[0]) && !IsLetter(u[0])
    requires forall k :: k in ks ==> LowerWord(k)
    ensures StripFirstKeyword(p + u, ks) == StripFirstKeyword(p, ks) + u
  {
    if ks != [] {
      var k := ks[0];
      KeywordAppend(p, u, k);
      if KeywordAt(p, k) {
        assert (p + u)[|k|..] == p[|k|..] + u;
        TrimLeftAppend(p[|k|..], u);
      } else {
        StripFirstAppend(p, u, ks[1..]);
      }
    }
  }

  /** The keyword step only ever removes a prefix. */
  lemma {:induction false} StripFirstSuffix(p: string, ks: seq<string>)
    ensures |StripFirstKeyword(p, ks)| <= |p|
    ensures StripFirstKeyword(p, ks) == p[|p| - |StripFirstKeyword(p, ks)|..]
  {
    if ks != [] && !KeywordAt(p, ks[0]) {
      StripFirstSuffix(p, ks[1..]);
    }
  }

  lemma KeywordAppend(p: string, u: string, k: string)
    requires u != [] && !IsSpace(u[0]) && !IsLetter(u[0])
    requires LowerWord(k)
    ensures KeywordAt(p + u, k) <==> KeywordAt(p, k)
  {
    if |p| > |k| {
      assert (p + u)[..|k|] == p[..|k|];
      assert (p + u)[|k|] == p[|k|];
    } else if |p| < |k| {
      assert (p + u)[|p|] == u[0];
    }
  }

  // ---------------------------------------------------------------------
  // Quoted runs

  /** Text without the quote character passes through unchanged. */
  lemma {:induction false} QuotedPlain(u: string, t: string, q: char)
    requires q !in u
    ensures ReplaceQuoted(u + t, q) == u + ReplaceQuoted(t, q)
  {
    if u == [] {
      assert u + t == t;
    } else {
      assert (u + t)[0] == u[0];
      assert (u + t)[1..] == u[1..] + t;
      QuotedPlain(u[1..], t, q);
    }
  }

  /** A closed run `q x q` becomes `q{}q`, whatever `x` holds. */
  lemma QuotedRun(x: string, t: string, q: char)
    requires q !in x
    ensures ReplaceQuoted([q] + x + [q] + t, q) == [q, '{', '}', q] + ReplaceQuoted(t, q)
  {
    var s := [q] + x + [q] + t;
    assert s[1..] == x + [q] + t;
    assert (x + [q] + t)[|x|] == q;
    assert (x + [q] + t)[..|x|] == x;
    assert IndexOf(s[1..], q) == |x|;
    assert s[|x| + 2..] == t;
  }

  /** The quote step keeps the first character of text that does not open a run. */
  lemma QuotedFirst(t: string, q: char)
    requires t != [] && t[0] != q
    ensures ReplaceQuoted(t, q) != [] && ReplaceQuoted(t, q)[0] == t[0]
  {
  }

  /** Two feature lines that differ only inside their first double-quoted
      run have the same signature: `is "ok"` and `is "fail"` both give `is "{}"`. */
  lemma QuotedContentIrrelevant(p: string, x: string, y: string, t: string)
    requires '"' !in p && '"' !in x && '"' !in y
    ensures NormalizeGherkin(p + "\"" + x + "\"" + t) == NormalizeGherkin(p + "\"" + y + "\"" + t)
  {
    var b1 := QuotedBody(p, x, t);
    var b2 := QuotedBody(p, y, t);
    assert b1 == b2;
  }

  /** The line after the quote step: the prefix, the placeholder, the rest. */
  lemma QuotedBody(p: string, x: string, t: string) returns (b: string)
    requires '"' !in p && '"' !in x
    ensures b == ReplaceQuoted(StripKeyword(Strip(p + "\"" + x + "\"" + t)), '"')
    ensures b == Front(p) + "\"{}\"" + ReplaceQuoted(TrimRight(t), '"')
  {
    var m := "\"" + x + "\"";
    var tail := TrimRight(t);
    assert p + "\"" + x + "\"" + t == p + m + t by {
      Associative(p, "\"", x);
      Associative(p, "\"" + x, "\"");
    }
    FrontAround(p, m, t);
    FrontSuffix(p);
    QuotedPlain(Front(p), m + tail, '"');
    assert m + tail == ['"'] + x + ['"'] + tail;
    QuotedRun(x, tail, '"');
    b := Front(p) + "\"{}\"" + ReplaceQuoted(tail, '"');
  }

  /** Before the quote step, a line `p m t` whose middle `m` starts with
      neither a letter nor whitespace and ends visibly has lost only the
      front of `p` and the trailing whitespace of `t`. */
  lemma FrontAround(p: string, m: string, t: string)
    requires m != [] && !IsSpace(m[0]) && !IsLetter(m[0]) && !IsSpace(m[|m| - 1])
    ensures StripKeyword(Strip(p + m + t)) == Front(p) + (m + TrimRight(t))
  {
    StripAround(p, m, t);
    StripKeywordAppend(TrimLeft(p), m + TrimRight(t));
  }

  /** What is left of the part of a line before its first non-letter, once
      the leading whitespace and keyword are gone. */
  function Front(p: string): string {
    StripKeyword(TrimLeft(p))
  }

  /** That part is a suffix of the original prefix. */
  lemma FrontSuffix(p: string)
    ensures |Front(p)| <= |p| && Front(p) == p[|p| - |Front(p)|..]
  {
    var l := TrimLeft(p);
    StripKeywordSuffix(l);
    SuffixOfSuffix(p, l, StripKeyword(l));
  }

  lemma StripKeywordSuffix(l: string)
    ensures |StripKeyword(l)| <= |l| && StripKeyword(l) == l[|l| - |StripKeyword(l)|..]
  {
    StripFirstSuffix(l, GherkinKeywords);
  }

  lemma SuffixOfSuffix(p: string, l: string, f: string)
    requires |l| <= |p| && l == p[|p| - |l|..]
    requires |f| <= |l| && f == l[|l| - |f|..]
    ensures |f| <= |p| && f == p[|p| - |f|..]
  {
  }

  /** A suffix holds only characters of the whole and ends where it ends. */
  lemma SuffixChars(p: string, f: string)
    requires |f| <= |p| && f == p[|p| - |f|..]
    ensures forall c :: c in f ==> c in p
    ensures f != [] ==> f[|f| - 1] == p[|p| - 1]
  {
    forall c | c in f ensures c in p {
      var i :| 0 <= i < |f| && f[i] == c;
      assert p[|p| - |f| + i] == c;
    }
  }

  // ---------------------------------------------------------------------
  // Numerals

  lemma {:induction false} DigitRunAppend(u: string, v: string)
    requires DigitRun(u) < |u|
    ensures DigitRun(u + v) == DigitRun(u)
  {
    if IsDigit(u[0]) {
      assert (u + v)[1..] == u[1..] + v;
      DigitRunAppend(u[1..], v);
    }
  }

  /** A numeral match that starts before a whitespace character ends before it. */
  lemma NumeralLengthAppend(u: string, v: string)
    requires u != [] && IsDigit(u[0]) && IsSpace(u[|u| - 1])
    ensures NumeralLength(u + v) == NumeralLength(u)
    ensures NumeralLength(u).Some? ==> NumeralLength(u).value < |u|
  {
    var s := u + v;
    var q := DigitRunBeforeSpace(u);
    DigitRunAppend(u, v);
    assert s[q] == u[q];
    if q + 1 < |u| {
      var w := u[q + 1..];
      assert w[|w| - 1] == u[|u| - 1];
      var d := DigitRunBeforeSpace(w);
      assert s[q + 1] == u[q + 1];
      assert s[q + 1..] == w + v;
      DigitRunAppend(w, v);
      var e := q + 1 + d;
      assert e < |u|;
      assert s[e] == u[e];
    }
  }

  /** A digit run stops at the latest at a final whitespace character. */
  lemma DigitRunBeforeSpace(u: string) returns (q: nat)
    requires u != [] && IsSpace(u[|u| - 1])
    ensures q == DigitRun(u) && q < |u|
  {
    q := DigitRun(u);
    DigitRunSpec(u);
  }

  /** The numeral step treats the text on either side of a whitespace
      character independently. */
  lemma {:induction false} NumeralsAppend(u: string, v: string, afterWord: bool)
    requires u != [] && IsSpace(u[|u| - 1])
    ensures ReplaceNumerals(u + v, afterWord) == ReplaceNumerals(u, afterWord) + ReplaceNumerals(v, false)
    decreases |u|, 1
  {
    if |u| == 1 {
      NumeralStepChar(u, v, afterWord);
      assert u[1..] + v == v;
    } else if !afterWord && IsDigit(u[0]) && NumeralLength(u).Some? {
      NumeralsAppendMatch(u, v, afterWord);
    } else {
      NumeralsAppendChar(u, v, afterWord);
    }
  }

  /** `NumeralsAppend` when `u` starts with a numeral that is replaced. */
  lemma {:induction false} NumeralsAppendMatch(u: string, v: string, afterWord: bool)
    requires |u| > 1 && IsSpace(u[|u| - 1])
    requires !afterWord && IsDigit(u[0]) && NumeralLength(u).Some?
    ensures ReplaceNumerals(u + v, afterWord) == ReplaceNumerals(u, afterWord) + ReplaceNumerals(v, false)
    decreases |u|, 0
  {
    var n := NumeralStepMatch(u, v, afterWord);
    NumeralsAppend(u[n..], v, true);
    Associative("{}", ReplaceNumerals(u[n..], true), ReplaceNumerals(v, false));
  }

  /** `NumeralsAppend` when the first character of `u` is kept. */
  lemma {:induction false} NumeralsAppendChar(u: string, v: string, afterWord: bool)
    requires |u| > 1 && IsSpace(u[|u| - 1])
    requires !(!afterWord && IsDigit(u[0]) && NumeralLength(u).Some?)
    ensures ReplaceNumerals(u + v, afterWord) == ReplaceNumerals(u, afterWord) + ReplaceNumerals(v, false)
    decreases |u|, 0
  {
    NumeralStepChar(u, v, afterWord);
    NumeralsAppend(u[1..], v, IsWordChar(u[0]));
    Associative([u[0]], ReplaceNumerals(u[1..], IsWordChar(u[0])), ReplaceNumerals(v, false));
  }

  /** One step of the numeral scan on `u + v` where it replaces a numeral
      that starts `u`: the numeral ends inside `u`. */
  lemma NumeralStepMatch(u: string, v: string, afterWord: bool) returns (n: nat)
    requires |u| > 1 && IsSpace(u[|u| - 1])
    requires !afterWord && IsDigit(u[0]) && NumeralLength(u).Some?
    ensures n == NumeralLength(u).value && 0 < n < |u| && IsSpace(u[n..][|u[n..]| - 1])
    ensures ReplaceNumerals(u + v, afterWord) == "{}" + ReplaceNumerals(u[n..] + v, true)
    ensures ReplaceNumerals(u, afterWord) == "{}" + ReplaceNumerals(u[n..], true)
  {
    var s := u + v;
    assert s[0] == u[0];
    NumeralLengthAppend(u, v);
    n := NumeralLength(u).value;
    assert s[n..] == u[n..] + v;
  }

  /** One step of the numeral scan on `u + v` where it keeps the first
      character of `u`. */
  lemma NumeralStepChar(u: string, v: string, afterWord: bool)
    requires u != [] && IsSpace(u[|u| - 1])
    requires |u| == 1 || !(!afterWord && IsDigit(u[0]) && NumeralLength(u).Some?)
    ensures ReplaceNumerals(u + v, afterWord) == [u[0]] + ReplaceNumerals(u[1..] + v, IsWordChar(u[0]))
    ensures ReplaceNumerals(u, afterWord) == [u[0]] + ReplaceNumerals(u[1..], IsWordChar(u[0]))
  {
    var s := u + v;
    assert s[0] == u[0];
    if IsDigit(u[0]) {
      NumeralLengthAppend(u, v);
    }
    assert s[1..] == u[1..] + v;
  }

  lemma NumeralChars(t: string)
    requires IsNumeral(t)
    ensures t != [] && IsDigit(t[0]) && IsDigit(t[|t| - 1])
    ensures forall i :: 0 <= i < |t| ==> IsDigit(t[i]) || t[i] == '.'
  {
    if !AllDigits(t) {
      var p :| 0 < p < |t| && t[p] == '.' && AllDigits(t[..p]) && AllDigits(t[p + 1..]);
      assert t[0] == t[..p][0];
      assert t[|t| - 1] == t[p + 1..][|t| - p - 2];
      forall i | 0 <= i < |t| ensures IsDigit(t[i]) || t[i] == '.' {
        if i < p {
          assert t[i] == t[..p][i];
        } else if p < i {
          assert t[i] == t[p + 1..][i - p - 1];
        }
      }
    }
  }

  /** A whole numeral followed by whitespace (or nothing) is matched whole. */
  lemma NumeralWhole(n: string, t: string)
    requires IsNumeral(n) && (t == [] || IsSpace(t[0]))
    ensures NumeralLength(n + t) == Some(|n|)
  {
    var s := n + t;
    NumeralChars(n);
    assert s[..|n|] == n;
    assert |n| < |s| ==> s[|n|] == t[0];
    assert BoundaryAfter(s, |n|);
    NumeralLengthSpec(s);
    var r := NumeralLength(s);
    if r.Some? && r.value > |n| {
      LongerNumeral(s, |n|, r.value);
    }
  }

  /** A numeral has no whitespace in it. */
  lemma LongerNumeral(s: string, i: nat, m: nat)
    requires i < m <= |s| && IsSpace(s[i])
    ensures !IsNumeral(s[..m])
  {
    if IsNumeral(s[..m]) {
      NumeralChars(s[..m]);
    }
  }

  /** The numeral step on a numeral and the text after it. */
  lemma NumeralStep(n: string, t: string)
    requires IsNumeral(n) && (t == [] || IsSpace(t[0]))
    ensures ReplaceNumerals(n + t, false) == "{}" + ReplaceNumerals(t, true)
  {
    NumeralChars(n);
    NumeralWhole(n, t);
    assert (n + t)[0] == n[0];
    assert (n + t)[|n|..] == t;
  }

  /** Two feature lines that differ only in one whitespace-delimited numeral
      have the same signature: `waits 3 seconds` and `waits 42.5 seconds`
      both give `waits {} seconds`. */
  lemma NumeralIrrelevant(p: string, n1: string, n2: string, t: string)
    requires '"' !in p && (p == [] || IsSpace(p[|p| - 1]))
    requires IsNumeral(n1) && IsNumeral(n2)
    requires t == [] || IsSpace(t[0])
    ensures NormalizeGherkin(p + n1 + t) == NormalizeGherkin(p + n2 + t)
  {
    var b1 := NumeralBody(p, n1, t);
    var b2 := NumeralBody(p, n2, t);
  }

  /** The line after the numeral step: the numeral is a placeholder and
      nothing else depends on it. */
  lemma NumeralBody(p: string, n: string, t: string) returns (b: string)
    requires '"' !in p && (p == [] || IsSpace(p[|p| - 1]))
    requires IsNumeral(n)
    requires t == [] || IsSpace(t[0])
    ensures b == ReplaceNumerals(ReplaceQuoted(StripKeyword(Strip(p + n + t)), '"'), false)
    ensures b == (if Front(p) == [] then [] else ReplaceNumerals(Front(p), false))
                 + ("{}" + ReplaceNumerals(ReplaceQuoted(TrimRight(t), '"'), true))
  {
    var front := Front(p);
    var rest := NumeralQuoted(p, n, t);
    FrontSuffix(p);
    SuffixChars(p, front);
    NumeralTail(front, n, rest);
    b := (if front == [] then [] else ReplaceNumerals(front, false)) + ("{}" + ReplaceNumerals(rest, true));
  }

  /** The quote step leaves a line with a numeral and no quote before it
      unchanged up to the numeral. */
  lemma NumeralQuoted(p: string, n: string, t: string) returns (rest: string)
    requires '"' !in p && IsNumeral(n)
    requires t == [] || IsSpace(t[0])
    ensures rest == ReplaceQuoted(TrimRight(t), '"')
    ensures rest == [] || IsSpace(rest[0])
    ensures ReplaceQuoted(StripKeyword(Strip(p + n + t)), '"') == Front(p) + n + rest
  {
    var tail := TrimRight(t);
    NumeralFront(p, n, t);
    QuotedPlain(Front(p) + n, tail, '"');
    rest := ReplaceQuoted(tail, '"');
    if tail != [] {
      QuotedFirst(tail, '"');
    }
  }

  /** Before the quote step: the front of the prefix, the numeral and the
      trimmed tail, with no quote before the tail. */
  lemma NumeralFront(p: string, n: string, t: string)
    requires '"' !in p && IsNumeral(n)
    ensures StripKeyword(Strip(p + n + t)) == (Front(p) + n) + TrimRight(t)
    ensures '"' !in Front(p) + n
  {
    NumeralChars(n);
    FrontAround(p, n, t);
    Associative(Front(p), n, TrimRight(t));
    FrontNoQuote(p);
    NumeralNoQuote(Front(p), n);
  }

  lemma FrontNoQuote(p: string)
    requires '"' !in p
    ensures '"' !in Front(p)
  {
    FrontSuffix(p);
    SuffixChars(p, Front(p));
  }

  lemma NumeralNoQuote(front: string, n: string)
    requires '"' !in front && IsNumeral(n)
    ensures '"' !in front + n
  {
    NumeralChars(n);
  }

  /** The numeral step on the text around a whitespace-delimited numeral. */
  lemma NumeralTail(front: string, n: string, rest: string)
    requires front == [] || IsSpace(front[|front| - 1])
    requires IsNumeral(n)
    requires rest == [] || IsSpace(rest[0])
    ensures ReplaceNumerals(front + n + rest, false)
            == (if front == [] then [] else ReplaceNumerals(front, false)) + ("{}" + ReplaceNumerals(rest, true))
  {
    NumeralStep(n, rest);
    if front == [] {
      assert front + n + rest == n + rest;
    } else {
      Associative(front, n, rest);
      NumeralsAppend(front, n + rest, false);
    }
  }

  // ---------------------------------------------------------------------
  // Text without quotes or standalone numerals

  /** Every digit of `s` continues a word (`item3`, `v2`), so `\b` never
      sits in front of it; `afterWord` says whether a word character comes
      just before `s`. */
  predicate DigitsInWords(s: string, afterWord: bool) {
    && (s != [] && IsDigit(s[0]) ==> afterWord)
    && forall i :: 0 < i < |s| && IsDigit(s[i]) ==> IsWordChar(s[i - 1])
  }

  lemma {:induction false} QuotedNone(s: string, q: char)
    requires q !in s
    ensures ReplaceQuoted(s, q) == s
  {
    if s != [] {
      QuotedNone(s[1..], q);
    }
  }

  /** Digits inside words are not numerals: `item3` is kept. */
  lemma {:induction false} NumeralsInWords(s: string, afterWord: bool)
    requires DigitsInWords(s, afterWord)
    ensures ReplaceNumerals(s, afterWord) == s
  {
    if s != [] {
      assert DigitsInWords(s[1..], IsWordChar(s[0])) by {
        forall i | 0 < i < |s[1..]| && IsDigit(s[1..][i])
          ensures IsWordChar(s[1..][i - 1])
        {
          assert s[1..][i] == s[i + 1];
        }
        assert |s| > 1 ==> s[1..][0] == s[1];
      }
      NumeralsInWords(s[1..], IsWordChar(s[0]));
      assert s == [s[0]] + s[1..];
    }
  }

  /** When what is left after the keyword holds no double quote and no
      standalone numeral, the signature is that text with its spacing
      made canonical. */
  lemma PlainBody(line: string)
    requires '"' !in StripKeyword(Strip(line))
    requires DigitsInWords(StripKeyword(Strip(line)), false)
    ensures NormalizeGherkin(line) == Tidy(StripKeyword(Strip(line)))
  {
    var body := StripKeyword(Strip(line));
    QuotedNone(body, '"');
    NumeralsInWords(body, false);
  }

  lemma CanonicalStrip(s: string)
    requires Canonical(s)
    ensures Strip(s) == s
  {
  }

  /** A canonical signature that does not start with a keyword, has no double
      quote and no standalone numeral normalises to itself: in that case the
      normaliser is idempotent. */
  lemma FixedPoint(s: string)
    requires Canonical(s) && '"' !in s && DigitsInWords(s, false)
    requires forall k :: k in GherkinKeywords ==> !KeywordAt(s, k)
    ensures NormalizeGherkin(s) == s
  {
    CanonicalStrip(s);
    StripKeywordSpec(s);
    PlainBody(s);
    TidyCanonical(s);
  }

  /** A line that starts with a keyword (in any case) and one space loses
      exactly that much. */
  lemma KeywordLine(w: string, k: string, u: string)
    requires k in GherkinKeywords && EqualsIgnoreCase(w, k)
    requires u != [] && !IsSpace(u[0])
    ensures StripKeyword(w + " " + u) == u
  {
    var s := w + " " + u;
    var rest := " " + u;
    assert s == w + rest;
    assert s[..|w|] == w && s[|w|..] == rest;
    assert KeywordAt(s, k);
    StripKeywordAt(s, k);
    assert rest[1..] == u;
  }

  /** The keyword-removal contract narrowed to the one keyword that matches. */
  lemma StripKeywordAt(s: string, k: string)
    requires k in GherkinKeywords && KeywordAt(s, k)
    ensures StripKeyword(s) == TrimLeft(s[|k|..])
  {
    StripKeywordSpec(s);
  }
}
