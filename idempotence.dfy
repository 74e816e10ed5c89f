/** `normalize_gherkin` applied to its own output. The quote step leaves only
    settled quotes behind, the numeral step leaves no standalone numeral, and
    both facts survive the whitespace steps; so a signature that does not
    itself start with a keyword normalises to itself. */
module Idempotence {
  import opened Text
  import opened Sequences
  import opened Wrappers
  import opened Normalizer
  import opened GherkinProperties

  // ---------------------------------------------------------------------
  // Quotes

  /** What the quote step leaves behind: every double quote that has a
      partner later on opens a `"{}"` run, so only a last quote without a
      partner stays as it was. */
  predicate Settled(s: string)
    decreases |s|
  {
    s == [] ||
    if s[0] == '"' && '"' in s[1..] then
      |s| >= 4 && s[..4] == "\"{}\"" && Settled(s[4..])
    else
      Settled(s[1..])
  }

  lemma {:induction false} SettledPlain(s: string)
    requires '"' !in s
    ensures Settled(s)
  {
    if s != [] {
      assert s[0] in s;
      assert s == [s[0]] + s[1..];
      SettledPlain(s[1..]);
    }
  }

  lemma PairSettled(t: string)
    requires Settled(t)
    ensures Settled("\"{}\"" + t)
  {
    var s := "\"{}\"" + t;
    assert s[1..][2] == '"';
    assert s[..4] == "\"{}\"" && s[4..] == t;
  }

  lemma LoneSettled(t: string)
    requires '"' !in t
    ensures Settled(['"'] + t)
  {
    var s := ['"'] + t;
    assert s[1..] == t;
    SettledPlain(t);
  }

  lemma {:induction false} SettledPrefix(p: string, t: string)
    requires '"' !in p && Settled(t)
    ensures Settled(p + t)
  {
    if p == [] {
      assert p + t == t;
    } else {
      assert p[0] in p;
      assert (p + t)[0] == p[0] && (p + t)[1..] == p[1..] + t;
      assert p == [p[0]] + p[1..];
      SettledPrefix(p[1..], t);
    }
  }

  lemma {:induction false} SettledDrop(p: string, t: string)
    requires '"' !in p && Settled(p + t)
    ensures Settled(t)
  {
    if p == [] {
      assert p + t == t;
    } else {
      assert p[0] in p;
      assert (p + t)[0] == p[0] && (p + t)[1..] == p[1..] + t;
      assert p == [p[0]] + p[1..];
      SettledDrop(p[1..], t);
    }
  }

  lemma {:induction false} SettledTrunc(r: string, w: string)
    requires '"' !in w && Settled(r + w)
    ensures Settled(r)
    decreases |r|
  {
    if r != [] {
      var s := r + w;
      assert s[0] == r[0] && s[1..] == r[1..] + w;
      if r[0] == '"' && '"' in s[1..] {
        assert forall i :: |r| <= i < |s| ==> s[i] == w[i - |r|];
        assert s[3] == '"';
        assert |r| >= 4;
        assert r[..4] == s[..4] && s[4..] == r[4..] + w;
        SettledTrunc(r[4..], w);
        assert '"' in r[1..] by {
          assert r[1..][2] == '"';
        }
      } else if r[0] == '"' {
        assert '"' !in r[1..] by {
          assert forall i :: 0 <= i < |r| - 1 ==> r[1..][i] == s[1..][i];
        }
        SettledPlain(r[1..]);
      } else {
        SettledTrunc(r[1..], w);
      }
    }
  }

  /** Settled text is left as it is by the quote step. */
  lemma {:induction false} SettledFixed(s: string)
    requires Settled(s)
    ensures ReplaceQuoted(s, '"') == s
    decreases |s|
  {
    if s != [] {
      if s[0] == '"' && '"' in s[1..] {
        var t := s[1..];
        assert t[0] == '{' && t[1] == '}' && t[2] == '"';
        var i := IndexOf(t, '"');
        assert '"' !in t[..i] && t[i] == '"';
        assert forall j :: 0 <= j < i ==> t[..i][j] == t[j];
        assert i == 2;
        SettledFixed(s[4..]);
        assert s == s[..4] + s[4..];
      } else {
        SettledFixed(s[1..]);
        assert s == [s[0]] + s[1..];
      }
    }
  }

  /** The quote step settles every quote it can pair. */
  lemma {:induction false} QuotesSettle(s: string)
    ensures Settled(ReplaceQuoted(s, '"'))
    decreases |s|
  {
    if s != [] {
      if s[0] == '"' && '"' in s[1..] {
        var close := 1 + IndexOf(s[1..], '"');
        QuotesSettle(s[close + 1..]);
        PairSettled(ReplaceQuoted(s[close + 1..], '"'));
      } else if s[0] == '"' {
        QuotedNone(s[1..], '"');
        LoneSettled(s[1..]);
      } else {
        QuotesSettle(s[1..]);
        SettledPrefix([s[0]], ReplaceQuoted(s[1..], '"'));
      }
    }
  }

  lemma SpacesNoQuote(w: string)
    requires AllSpace(w)
    ensures '"' !in w
  {
    assert !IsSpace('"');
  }

  lemma {:induction false} CollapseNoQuote(s: string)
    requires '"' !in s
    ensures '"' !in CollapseSpaces(s)
    decreases |s|
  {
    if s != [] {
      assert s == [s[0]] + s[1..];
      if IsSpace(s[0]) {
        var t := s[1..];
        var l := TrimLeft(t);
        assert t == t[..|t| - |l|] + l;
        CollapseNoQuote(l);
      } else {
        CollapseNoQuote(s[1..]);
      }
    }
  }

  /** Collapsing whitespace keeps text settled. */
  lemma {:induction false} CollapseKeepsSettled(s: string)
    requires Settled(s)
    ensures Settled(CollapseSpaces(s))
    decreases |s|, 1
  {
    if s == [] {
    } else if IsSpace(s[0]) {
      CollapseSettledSpace(s);
    } else if s[0] == '"' && '"' in s[1..] {
      CollapseSettledPair(s);
    } else if s[0] == '"' {
      CollapseNoQuote(s[1..]);
      CollapseSettledLone(s);
    } else {
      CollapseSettledChar(s);
    }
  }

  lemma {:induction false} CollapseSettledSpace(s: string)
    requires s != [] && IsSpace(s[0]) && Settled(s[1..])
    ensures Settled(CollapseSpaces(s))
    decreases |s|, 0
  {
    var l := TrimLeft(s[1..]);
    TrimLeftKeepsSettled(s[1..]);
    CollapseKeepsSettled(l);
    SettledPrefix([' '], CollapseSpaces(l));
  }

  lemma {:induction false} CollapseSettledPair(s: string)
    requires |s| >= 4 && s[..4] == "\"{}\"" && Settled(s[4..])
    ensures Settled(CollapseSpaces(s))
    decreases |s|, 0
  {
    assert s == "\"{}\"" + s[4..];
    CollapsePlainPrefix("\"{}\"", s[4..]);
    CollapseKeepsSettled(s[4..]);
    PairSettled(CollapseSpaces(s[4..]));
  }

  lemma CollapseSettledLone(s: string)
    requires s != [] && s[0] == '"' && '"' !in CollapseSpaces(s[1..])
    ensures Settled(CollapseSpaces(s))
  {
    CollapseVisibleHead(s);
    LoneSettled(CollapseSpaces(s[1..]));
  }

  lemma CollapseVisibleHead(s: string)
    requires s != [] && !IsSpace(s[0])
    ensures CollapseSpaces(s) == [s[0]] + CollapseSpaces(s[1..])
  {
  }

  lemma {:induction false} CollapseSettledChar(s: string)
    requires s != [] && !IsSpace(s[0]) && s[0] != '"' && Settled(s[1..])
    ensures Settled(CollapseSpaces(s))
    decreases |s|, 0
  {
    CollapseVisibleHead(s);
    CollapseKeepsSettled(s[1..]);
    SettledPrefix([s[0]], CollapseSpaces(s[1..]));
  }

  /** The last two steps keep text settled. */
  lemma TidyKeepsSettled(y: string)
    requires Settled(y)
    ensures Settled(Tidy(y))
  {
    var c := CollapseSpaces(y);
    CollapseKeepsSettled(y);
    TrimLeftKeepsSettled(c);
    TrimRightKeepsSettled(TrimLeft(c));
    assert Tidy(y) == TrimRight(TrimLeft(c));
  }

  lemma TrimLeftKeepsSettled(c: string)
    requires Settled(c)
    ensures Settled(TrimLeft(c))
  {
    var l := TrimLeft(c);
    var lead := c[..|c| - |l|];
    assert c == lead + l;
    SpacesNoQuote(lead);
    SettledDrop(lead, l);
  }

  lemma TrimRightKeepsSettled(l: string)
    requires Settled(l)
    ensures Settled(TrimRight(l))
  {
    var r := TrimRight(l);
    var tail := l[|r|..];
    assert l == r + tail;
    SpacesNoQuote(tail);
    SettledTrunc(r, tail);
  }

  // ---------------------------------------------------------------------
  // Numerals

  /** A character that cannot start a numeral here passes the numeral step
      unchanged. */
  lemma NumeralsKeep(c: char, t: string, afterWord: bool)
    requires afterWord || !IsDigit(c)
    ensures ReplaceNumerals([c] + t, afterWord) == [c] + ReplaceNumerals(t, IsWordChar(c))
  {
    var s := [c] + t;
    assert s[0] == c && s[1..] == t;
  }

  /** Text without word characters passes the numeral step unchanged. */
  lemma {:induction false} NumeralsNoWord(p: string, t: string, afterWord: bool)
    requires p != [] && forall i :: 0 <= i < |p| ==> !IsWordChar(p[i])
    ensures ReplaceNumerals(p + t, afterWord) == p + ReplaceNumerals(t, false)
    decreases |p|
  {
    assert p + t == [p[0]] + (p[1..] + t);
    NumeralsKeep(p[0], p[1..] + t, afterWord);
    if |p| > 1 {
      NumeralsNoWord(p[1..], t, false);
      Associative([p[0]], p[1..], ReplaceNumerals(t, false));
    } else {
      assert p[1..] + t == t;
    }
    assert p == [p[0]] + p[1..];
  }

  lemma NumeralsBraces(t: string, afterWord: bool)
    ensures ReplaceNumerals("{}" + t, afterWord) == "{}" + ReplaceNumerals(t, false)
  {
    NumeralsNoWord("{}", t, afterWord);
  }

  lemma NumeralsPair(t: string, afterWord: bool)
    ensures ReplaceNumerals("\"{}\"" + t, afterWord) == "\"{}\"" + ReplaceNumerals(t, false)
  {
    NumeralsNoWord("\"{}\"", t, afterWord);
  }

  /** Whether a word character came before does not matter in front of a
      character that is not a digit. */
  lemma NumeralsFlag(t: string)
    requires t == [] || !IsDigit(t[0])
    ensures ReplaceNumerals(t, true) == ReplaceNumerals(t, false)
  {
  }

  lemma {:induction false} NumeralsNoQuote(s: string, afterWord: bool)
    requires '"' !in s
    ensures '"' !in ReplaceNumerals(s, afterWord)
    decreases |s|
  {
    if s != [] {
      assert s == [s[0]] + s[1..];
      if !afterWord && IsDigit(s[0]) && NumeralLength(s).Some? {
        var n := NumeralLength(s).value;
        assert s == s[..n] + s[n..];
        NumeralsNoQuote(s[n..], true);
      } else {
        NumeralsNoQuote(s[1..], IsWordChar(s[0]));
      }
    }
  }

  /** The numeral step keeps text settled. */
  lemma {:induction false} NumeralsKeepSettled(s: string, afterWord: bool)
    requires Settled(s)
    ensures Settled(ReplaceNumerals(s, afterWord))
    decreases |s|
  {
    if s != [] {
      if s[0] == '"' && '"' in s[1..] {
        assert s == "\"{}\"" + s[4..];
        NumeralsPair(s[4..], afterWord);
        NumeralsKeepSettled(s[4..], false);
        PairSettled(ReplaceNumerals(s[4..], false));
      } else if s[0] == '"' {
        assert s == ['"'] + s[1..];
        NumeralsKeep('"', s[1..], afterWord);
        NumeralsNoQuote(s[1..], false);
        LoneSettled(ReplaceNumerals(s[1..], false));
      } else if !afterWord && IsDigit(s[0]) && NumeralLength(s).Some? {
        var n := NumeralLength(s).value;
        NumeralLengthSpec(s);
        NumeralChars(s[..n]);
        assert '"' !in s[..n];
        assert s == s[..n] + s[n..];
        SettledDrop(s[..n], s[n..]);
        NumeralsKeepSettled(s[n..], true);
        SettledPrefix("{}", ReplaceNumerals(s[n..], true));
      } else {
        NumeralsKeepSettled(s[1..], IsWordChar(s[0]));
        SettledPrefix([s[0]], ReplaceNumerals(s[1..], IsWordChar(s[0])));
      }
    }
  }

  /** A digit run ends where the digits end, whatever follows a non-digit. */
  lemma {:induction false} DigitRunSep(u: string, v: string)
    requires v != [] && !IsDigit(v[0])
    ensures DigitRun(u + v) == DigitRun(u)
    decreases |u|
  {
    if u == [] {
      assert u + v == v;
    } else {
      assert (u + v)[0] == u[0] && (u + v)[1..] == u[1..] + v;
      DigitRunSep(u[1..], v);
    }
  }

  lemma AllDigitsRun(d: string)
    requires AllDigits(d)
    ensures DigitRun(d) == |d|
  {
    DigitRunSpec(d);
  }

  /** A numeral match that starts in `u` stops before a separator that
      follows `u`. */
  lemma NumeralBeforeSeparator(u: string, v: string)
    requires u != [] && IsDigit(u[0])
    requires v != [] && !IsWordChar(v[0]) && v[0] != '.'
    ensures NumeralLength(u + v) == NumeralLength(u)
  {
    var s := u + v;
    assert s[0] == u[0];
    DigitRunSep(u, v);
    var q := DigitRun(u);
    assert forall i :: 0 <= i < |u| ==> s[i] == u[i];
    assert s[|u|] == v[0];
    if q + 1 < |u| && u[q] == '.' && IsDigit(u[q + 1]) {
      assert s[q + 1..] == u[q + 1..] + v;
      DigitRunSep(u[q + 1..], v);
    }
  }

  /** No numeral starts at a digit run that a letter or `_` ends. */
  lemma NumeralNone(s: string) returns (q: nat)
    requires s != [] && IsDigit(s[0]) && NumeralLength(s).None?
    ensures q == DigitRun(s) && 0 < q < |s| && IsWordChar(s[q]) && !IsDigit(s[q])
    ensures AllDigits(s[..q]) && forall i :: 0 <= i < q ==> IsDigit(s[i])
  {
    q := DigitRun(s);
    DigitRunSpec(s);
  }

  lemma NumeralNoneOf(d: string, w: char, z: string)
    requires AllDigits(d) && IsWordChar(w) && !IsDigit(w)
    ensures d + [w] + z != [] && IsDigit((d + [w] + z)[0])
    ensures NumeralLength(d + [w] + z).None?
  {
    var s := d + [w] + z;
    assert s == d + ([w] + z);
    DigitRunSep(d, [w] + z);
    AllDigitsRun(d);
    assert s[0] == d[0] && s[|d|] == w;
  }

  lemma {:induction false} NumeralsWordPrefix(p: string, z: string)
    requires forall i :: 0 <= i < |p| ==> IsWordChar(p[i])
    ensures ReplaceNumerals(p + z, true) == p + ReplaceNumerals(z, true)
    decreases |p|
  {
    if p == [] {
      assert p + z == z;
    } else {
      assert p + z == [p[0]] + (p[1..] + z);
      NumeralsKeep(p[0], p[1..] + z, true);
      NumeralsWordPrefix(p[1..], z);
      Associative([p[0]], p[1..], ReplaceNumerals(z, true));
      assert p == [p[0]] + p[1..];
    }
  }

  /** The numeral step leaves no standalone numeral behind: applied to its
      own output it changes nothing. */
  lemma {:induction false} NumeralsIdempotent(s: string, afterWord: bool)
    ensures ReplaceNumerals(ReplaceNumerals(s, afterWord), afterWord) == ReplaceNumerals(s, afterWord)
    decreases |s|, 1
  {
    if s != [] {
      if !afterWord && IsDigit(s[0]) && NumeralLength(s).Some? {
        var n := NumeralLength(s).value;
        var t := s[n..];
        NumeralLengthSpec(s);
        assert t == [] || t[0] == s[n];
        NumeralsFlag(t);
        NumeralsIdempotent(t, false);
        NumeralsBraces(ReplaceNumerals(t, false), afterWord);
      } else if afterWord || !IsDigit(s[0]) {
        assert s == [s[0]] + s[1..];
        var r := ReplaceNumerals(s[1..], IsWordChar(s[0]));
        NumeralsKeep(s[0], r, afterWord);
        NumeralsIdempotent(s[1..], IsWordChar(s[0]));
      } else {
        NumeralsIdempotentWord(s);
      }
    }
  }

  lemma {:induction false} NumeralsIdempotentWord(s: string)
    requires s != [] && IsDigit(s[0]) && NumeralLength(s).None?
    ensures ReplaceNumerals(ReplaceNumerals(s, false), false) == ReplaceNumerals(s, false)
    decreases |s|, 0
  {
    var r := ReplaceNumerals(s, false);
    var r1 := ReplaceNumerals(s[1..], true);
    assert r == [s[0]] + r1;
    var q := NumeralsWordRun(s);
    NumeralNoneOf(s[..q], s[q], ReplaceNumerals(s[q + 1..], true));
    assert r[0] == s[0] && r[1..] == r1;
    NumeralsIdempotent(s[1..], true);
  }

  /** Digits that a letter or `_` ends are kept, together with that character. */
  lemma NumeralsWordRun(s: string) returns (q: nat)
    requires s != [] && IsDigit(s[0]) && NumeralLength(s).None?
    ensures 0 < q < |s| && AllDigits(s[..q]) && IsWordChar(s[q]) && !IsDigit(s[q])
    ensures ReplaceNumerals(s, false) == s[..q] + [s[q]] + ReplaceNumerals(s[q + 1..], true)
  {
    q := NumeralNone(s);
    var p := s[1..q + 1];
    assert s[1..] == p + s[q + 1..];
    forall i | 0 <= i < |p| ensures IsWordChar(p[i]) {
      assert p[i] == s[i + 1];
    }
    NumeralsWordPrefix(p, s[q + 1..]);
    assert [s[0]] + p == s[..q] + [s[q]];
    Associative([s[0]], p, ReplaceNumerals(s[q + 1..], true));
  }

  // ---------------------------------------------------------------------
  // The numeral step commutes with the whitespace steps

  lemma NumeralsHead(t: string, afterWord: bool)
    requires t != []
    ensures ReplaceNumerals(t, afterWord) != []
    ensures IsSpace(ReplaceNumerals(t, afterWord)[0]) <==> IsSpace(t[0])
  {
  }

  lemma {:induction false} NumeralsTrimLeft(t: string)
    ensures TrimLeft(ReplaceNumerals(t, false)) == ReplaceNumerals(TrimLeft(t), false)
    decreases |t|
  {
    if t != [] {
      if IsSpace(t[0]) {
        NumeralsAfterSpace(t);
        TrimLeftAfterSpace(t[0], ReplaceNumerals(t[1..], false));
        TrimLeftAfterSpace(t[0], t[1..]);
        NumeralsTrimLeft(t[1..]);
      } else {
        NumeralsHead(t, false);
        VisibleHeadTrimLeft(t);
        VisibleHeadTrimLeft(ReplaceNumerals(t, false));
      }
    }
  }

  lemma NumeralsAfterSpace(t: string)
    requires t != [] && IsSpace(t[0])
    ensures ReplaceNumerals(t, false) == [t[0]] + ReplaceNumerals(t[1..], false)
  {
    assert t == [t[0]] + t[1..];
    assert !IsWordChar(t[0]);
    NumeralsKeep(t[0], t[1..], false);
  }

  lemma TrimLeftAfterSpace(c: char, r: string)
    requires IsSpace(c)
    ensures TrimLeft([c] + r) == TrimLeft(r)
  {
    assert ([c] + r)[0] == c && ([c] + r)[1..] == r;
  }

  lemma VisibleHeadTrimLeft(t: string)
    requires t != [] && !IsSpace(t[0])
    ensures TrimLeft(t) == t
  {
  }

  lemma {:induction false} NumeralsSpaces(w: string, afterWord: bool)
    requires AllSpace(w)
    ensures ReplaceNumerals(w, afterWord) == w
    decreases |w|
  {
    if w != [] {
      NumeralsSpaces(w[1..], false);
      assert w == [w[0]] + w[1..];
    }
  }

  /** Text on either side of a separator (not `\w`, not a dot) goes through
      the numeral step independently. */
  lemma {:induction false} NumeralsSeparate(u: string, v: string, afterWord: bool)
    requires v != [] && !IsWordChar(v[0]) && v[0] != '.'
    ensures ReplaceNumerals(u + v, afterWord) == ReplaceNumerals(u, afterWord) + ReplaceNumerals(v, false)
    decreases |u|
  {
    if u == [] {
      assert u + v == v;
      NumeralsFlag(v);
    } else {
      var s := u + v;
      assert s[0] == u[0];
      if !afterWord && IsDigit(u[0]) {
        NumeralBeforeSeparator(u, v);
      }
      if !afterWord && IsDigit(u[0]) && NumeralLength(u).Some? {
        var n := NumeralLength(u).value;
        assert s[n..] == u[n..] + v;
        NumeralsSeparate(u[n..], v, true);
        Associative("{}", ReplaceNumerals(u[n..], true), ReplaceNumerals(v, false));
      } else {
        assert s[1..] == u[1..] + v;
        NumeralsSeparate(u[1..], v, IsWordChar(u[0]));
        Associative([u[0]], ReplaceNumerals(u[1..], IsWordChar(u[0])), ReplaceNumerals(v, false));
      }
    }
  }

  lemma {:induction false} NumeralsEndVisibly(r: string, afterWord: bool)
    requires r != [] && !IsSpace(r[|r| - 1])
    ensures var x := ReplaceNumerals(r, afterWord); x != [] && !IsSpace(x[|x| - 1])
    decreases |r|
  {
    if !afterWord && IsDigit(r[0]) && NumeralLength(r).Some? {
      var n := NumeralLength(r).value;
      if n < |r| {
        assert r[n..][|r[n..]| - 1] == r[|r| - 1];
        NumeralsEndVisibly(r[n..], true);
      }
    } else if |r| > 1 {
      assert r[1..][|r[1..]| - 1] == r[|r| - 1];
      NumeralsEndVisibly(r[1..], IsWordChar(r[0]));
    }
  }

  lemma {:induction false} TrimRightSpaces(w: string)
    requires AllSpace(w)
    ensures TrimRight(w) == []
  {
    if w != [] {
      TrimRightSpaces(w[..|w| - 1]);
    }
  }

  lemma NumeralsTrimRight(t: string, afterWord: bool)
    ensures TrimRight(ReplaceNumerals(t, afterWord)) == ReplaceNumerals(TrimRight(t), afterWord)
  {
    var r := TrimRight(t);
    var w := t[|r|..];
    TakeDrop(t, |r|);
    if r == [] {
      assert t == w;
      NumeralsSpaces(t, afterWord);
      TrimRightSpaces(t);
    } else if w == [] {
      assert t == r;
      NumeralsEndVisibly(r, afterWord);
      VisibleEndTrimRight(ReplaceNumerals(r, afterWord));
    } else {
      NumeralsTrimRightSpaces(r, w, afterWord);
    }
  }

  lemma NumeralsTrimRightSpaces(r: string, w: string, afterWord: bool)
    requires r != [] && !IsSpace(r[|r| - 1])
    requires w != [] && AllSpace(w)
    ensures TrimRight(ReplaceNumerals(r + w, afterWord)) == ReplaceNumerals(r, afterWord)
  {
    NumeralsSeparate(r, w, afterWord);
    NumeralsSpaces(w, false);
    NumeralsEndVisibly(r, afterWord);
    TrimRightAppend(ReplaceNumerals(r, afterWord), w);
    TrimRightSpaces(w);
    assert ReplaceNumerals(r, afterWord) + [] == ReplaceNumerals(r, afterWord);
  }

  lemma VisibleEndTrimRight(x: string)
    requires x != [] && !IsSpace(x[|x| - 1])
    ensures TrimRight(x) == x
  {
  }

  lemma NumeralsStrip(c: string)
    ensures ReplaceNumerals(Strip(c), false) == Strip(ReplaceNumerals(c, false))
  {
    NumeralsTrimLeft(c);
    NumeralsTrimRight(TrimLeft(c), false);
  }

  /** The longest prefix without whitespace. */
  lemma {:induction false} VisibleSplit(s: string) returns (m: nat)
    ensures m <= |s| && (m < |s| ==> IsSpace(s[m]))
    ensures forall i :: 0 <= i < m ==> !IsSpace(s[i])
    decreases |s|
  {
    if s == [] || IsSpace(s[0]) {
      m := 0;
    } else {
      var k := VisibleSplit(s[1..]);
      m := 1 + k;
      forall i | 0 <= i < m ensures !IsSpace(s[i]) {
        if i > 0 {
          assert s[i] == s[1..][i - 1];
        }
      }
    }
  }

  lemma {:induction false} NumeralsCollapse(x: string, afterWord: bool)
    ensures ReplaceNumerals(CollapseSpaces(x), afterWord) == CollapseSpaces(ReplaceNumerals(x, afterWord))
    decreases |x|, 1
  {
    if x == [] {
    } else if IsSpace(x[0]) {
      NumeralsCollapseSpace(x, afterWord);
    } else if !afterWord && IsDigit(x[0]) && NumeralLength(x).Some? {
      NumeralsCollapseMatch(x);
    } else {
      NumeralsCollapseChar(x, afterWord);
    }
  }

  lemma {:induction false} NumeralsCollapseSpace(x: string, afterWord: bool)
    requires x != [] && IsSpace(x[0])
    ensures ReplaceNumerals(CollapseSpaces(x), afterWord) == CollapseSpaces(ReplaceNumerals(x, afterWord))
    decreases |x|, 0
  {
    var t := x[1..];
    var l := TrimLeft(t);
    var y := ReplaceNumerals(t, false);
    assert !IsWordChar(x[0]) && !IsWordChar(' ');
    assert x == [x[0]] + t;
    assert CollapseSpaces(x) == [' '] + CollapseSpaces(l);
    NumeralsKeep(' ', CollapseSpaces(l), afterWord);
    assert ReplaceNumerals(CollapseSpaces(x), afterWord) == [' '] + ReplaceNumerals(CollapseSpaces(l), false);
    NumeralsKeep(x[0], t, afterWord);
    assert ReplaceNumerals(x, afterWord) == [x[0]] + y;
    CollapseAfterSpaceChar(x[0], y);
    NumeralsTrimLeft(t);
    NumeralsCollapse(l, false);
  }

  lemma CollapseAfterSpaceChar(c: char, y: string)
    requires IsSpace(c)
    ensures CollapseSpaces([c] + y) == [' '] + CollapseSpaces(TrimLeft(y))
  {
    assert ([c] + y)[0] == c && ([c] + y)[1..] == y;
  }

  lemma {:induction false} NumeralsCollapseMatch(x: string)
    requires x != [] && IsDigit(x[0]) && NumeralLength(x).Some?
    ensures ReplaceNumerals(CollapseSpaces(x), false) == CollapseSpaces(ReplaceNumerals(x, false))
    decreases |x|, 0
  {
    var n := NumeralLength(x).value;
    var c := CollapseSpaces(x[n..]);
    CollapseAfterNumeral(x, n);
    NumeralsAtMatch(x[..n] + c, n);
    assert (x[..n] + c)[n..] == c;
    NumeralsAtMatch(x, n);
    NumeralsCollapse(x[n..], true);
    CollapsePlainPrefix("{}", ReplaceNumerals(x[n..], true));
  }

  lemma NumeralsAtMatch(z: string, n: nat)
    requires z != [] && IsDigit(z[0]) && NumeralLength(z) == Some(n)
    ensures ReplaceNumerals(z, false) == "{}" + ReplaceNumerals(z[n..], true)
  {
  }

  /** Text whose first `m` characters are visible keeps them through the collapse. */
  lemma CollapseKeepPrefix(x: string, m: nat)
    requires m <= |x| && forall i :: 0 <= i < m ==> !IsSpace(x[i])
    ensures CollapseSpaces(x) == x[..m] + CollapseSpaces(x[m..])
  {
    var p, t := x[..m], x[m..];
    assert forall i :: 0 <= i < |p| ==> !IsSpace(p[i]) by {
      assert forall i :: 0 <= i < |p| ==> p[i] == x[i];
    }
    CollapsePlainPrefix(p, t);
    TakeDrop(x, m);
  }

  lemma TakeDrop(x: string, m: nat)
    requires m <= |x|
    ensures x[..m] + x[m..] == x
  {
  }

  lemma NumeralMatchVisible(x: string, n: nat)
    requires x != [] && IsDigit(x[0]) && NumeralLength(x) == Some(n)
    ensures forall i :: 0 <= i < n ==> !IsSpace(x[i])
  {
    NumeralLengthSpec(x);
    NumeralChars(x[..n]);
    assert forall i :: 0 <= i < n ==> x[..n][i] == x[i];
  }

  /** Collapsing keeps a numeral match in place: it starts the collapsed
      text with the same length. */
  lemma CollapseAfterNumeral(x: string, n: nat)
    requires x != [] && IsDigit(x[0]) && NumeralLength(x) == Some(n)
    ensures CollapseSpaces(x) == x[..n] + CollapseSpaces(x[n..])
    ensures NumeralLength(x[..n] + CollapseSpaces(x[n..])) == Some(n)
  {
    NumeralMatchVisible(x, n);
    CollapseKeepPrefix(x, n);
    var k := VisibleSplit(x[n..]);
    CollapseKeepPrefix(x[n..], k);
    var m := n + k;
    VisibleParts(x, n, m);
    SameNumeralAt(x, m, CollapseSpaces(x[m..]));
    assert n <= m;
  }

  lemma VisibleParts(x: string, n: nat, m: nat)
    requires n <= m <= |x|
    ensures x[..n] + (x[n..][..m - n] + CollapseSpaces(x[n..][m - n..])) == x[..m] + CollapseSpaces(x[m..])
  {
    assert x[n..][m - n..] == x[m..];
    assert x[..n] + x[n..][..m - n] == x[..m];
    Associative(x[..n], x[n..][..m - n], CollapseSpaces(x[m..]));
  }

  /** Whitespace after position `m` cuts off any numeral match that starts
      at 0, whatever the rest is. */
  lemma SameNumeralAt(x: string, m: nat, c: string)
    requires x != [] && IsDigit(x[0]) && 0 < m <= |x|
    requires m < |x| ==> IsSpace(x[m]) && c != [] && IsSpace(c[0])
    requires m == |x| ==> c == []
    ensures NumeralLength(x[..m] + c) == NumeralLength(x)
  {
    assert x[..m][0] == x[0];
    if m < |x| {
      assert x == x[..m] + x[m..];
      NumeralBeforeSeparator(x[..m], x[m..]);
      NumeralBeforeSeparator(x[..m], c);
    } else {
      assert x[..m] + c == x;
    }
  }

  lemma {:induction false} NumeralsCollapseChar(x: string, afterWord: bool)
    requires x != [] && !IsSpace(x[0])
    requires afterWord || !IsDigit(x[0]) || NumeralLength(x).None?
    ensures ReplaceNumerals(CollapseSpaces(x), afterWord) == CollapseSpaces(ReplaceNumerals(x, afterWord))
    decreases |x|, 0
  {
    var t := x[1..];
    var wc := IsWordChar(x[0]);
    assert x == [x[0]] + t;
    CollapsePlainPrefix([x[0]], t);
    CollapsePlainPrefix([x[0]], ReplaceNumerals(t, wc));
    if !afterWord && IsDigit(x[0]) {
      CollapseKeepsNoNumeral(x);
    }
    var z := [x[0]] + CollapseSpaces(t);
    assert z[0] == x[0] && z[1..] == CollapseSpaces(t);
    NumeralsCollapse(t, wc);
  }

  /** Collapsing does not create a numeral where a letter or `_` ended the
      digits. */
  lemma CollapseKeepsNoNumeral(x: string)
    requires x != [] && IsDigit(x[0]) && NumeralLength(x).None?
    ensures CollapseSpaces(x) != [] && CollapseSpaces(x)[0] == x[0]
    ensures NumeralLength(CollapseSpaces(x)).None?
  {
    var q := NumeralNone(x);
    CollapseWordRun(x, q);
  }

  lemma CollapseWordRun(x: string, q: nat)
    requires 0 < q < |x| && (forall i :: 0 <= i < q ==> IsDigit(x[i]))
    requires IsWordChar(x[q]) && !IsDigit(x[q])
    ensures CollapseSpaces(x) != [] && CollapseSpaces(x)[0] == x[0]
    ensures NumeralLength(CollapseSpaces(x)).None?
  {
    assert forall i :: 0 <= i < q + 1 ==> !IsSpace(x[i]);
    CollapseKeepPrefix(x, q + 1);
    TakeOneMore(x, q);
    assert AllDigits(x[..q]) by {
      assert forall i :: 0 <= i < q ==> x[..q][i] == x[i];
    }
    NumeralNoneOf(x[..q], x[q], CollapseSpaces(x[q + 1..]));
  }

  lemma TakeOneMore(x: string, q: nat)
    requires q < |x|
    ensures x[..q + 1] == x[..q] + [x[q]]
  {
  }

  lemma NumeralsTidy(y: string)
    ensures ReplaceNumerals(Tidy(y), false) == Tidy(ReplaceNumerals(y, false))
  {
    NumeralsStrip(CollapseSpaces(y));
    NumeralsCollapse(y, false);
  }

  // ---------------------------------------------------------------------
  // normalize_gherkin on its own output

  /** A signature that does not itself start with a keyword followed by
      whitespace normalises to itself. */
  lemma Idempotent(x: string)
    requires forall k :: k in GherkinKeywords ==> !KeywordAt(NormalizeGherkin(x), k)
    ensures NormalizeGherkin(NormalizeGherkin(x)) == NormalizeGherkin(x)
  {
    var s := NormalizeGherkin(x);
    var body := StripKeyword(Strip(x));
    var q := ReplaceQuoted(body, '"');
    var y := ReplaceNumerals(q, false);
    assert s == Tidy(y);
    CanonicalStrip(s);
    StripKeywordSpec(s);
    QuotesSettle(body);
    NumeralsKeepSettled(q, false);
    TidyKeepsSettled(y);
    SettledFixed(s);
    NumeralsTidy(y);
    NumeralsIdempotent(q, false);
    TidyCanonical(s);
  }
}
