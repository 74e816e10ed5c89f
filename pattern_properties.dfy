/** What `normalize_pattern` promises: which parts of a decorator argument
    the signature forgets (a string prefix, the outer quotes, placeholder
    names, integer groups, the contents of quoted runs, the spacing). */
module PatternProperties {
  import opened Text
  import opened Sequences
  import opened Normalizer

  // ---------------------------------------------------------------------
  // String prefix and outer quotes

  /** At most one prefix letter and the whitespace after it go, from the front only. */
  lemma StringPrefixSpec(s: string)
    ensures var r := StripStringPrefix(s);
      && |r| <= |s| && r == s[|s| - |r|..]
      && (r != s <==> s != [] && s[0] in "ruRU")
      && (r != s ==> AllSpace(s[1..|s| - |r|]) && (r == [] || !IsSpace(r[0])))
  {
    var r := StripStringPrefix(s);
    if s != [] && s[0] in "ruRU" {
      var l := s[1..];
      assert r == TrimLeft(l);
      assert s[1..|s| - |r|] == l[..|l| - |r|];
    }
  }

  /** Wrapping in a pair of quotes and removing the outer quotes are inverse. */
  lemma OuterQuotesRoundTrip(q: char, x: string)
    requires q == '"' || q == '\''
    ensures StripOuterQuotes([q] + x + [q]) == x
  {
    var s := [q] + x + [q];
    assert s[1..|s| - 1] == x;
  }

  /** Text that is not wrapped in one kind of quote is kept whole. */
  lemma OuterQuotesKeep(s: string)
    requires s == [] || (s[0] != '"' && s[0] != '\'') || s[|s| - 1] != s[0]
    ensures StripOuterQuotes(s) == s
  {
  }

  // ---------------------------------------------------------------------
  // Named placeholders

  lemma {:induction false} BracesPlain(u: string, t: string)
    requires '{' !in u
    ensures ReplaceBraces(u + t) == u + ReplaceBraces(t)
  {
    if u == [] {
      assert u + t == t;
    } else {
      assert (u + t)[0] == u[0];
      assert (u + t)[1..] == u[1..] + t;
      BracesPlain(u[1..], t);
      Associative([u[0]], u[1..], ReplaceBraces(t));
      assert [u[0]] + u[1..] == u;
    }
  }

  /** A named placeholder becomes `{}`, whatever its name. */
  lemma BracesRun(x: string, t: string)
    requires x != [] && '}' !in x
    ensures ReplaceBraces("{" + x + "}" + t) == "{}" + ReplaceBraces(t)
  {
    var s := "{" + x + "}" + t;
    var after := s[1..];
    assert after == x + "}" + t;
    assert after[|x|] == '}';
    var i := IndexOf(after, '}');
    assert i == |x|;
    assert s[i + 2..] == t;
  }

  /** Decorators that differ only in a placeholder name share a signature
      after the placeholder step. */
  lemma BracesNameIrrelevant(p: string, x: string, y: string, t: string)
    requires '{' !in p
    requires x != [] && '}' !in x && y != [] && '}' !in y
    ensures ReplaceBraces(p + "{" + x + "}" + t) == p + ("{}" + ReplaceBraces(t))
    ensures ReplaceBraces(p + "{" + x + "}" + t) == ReplaceBraces(p + "{" + y + "}" + t)
  {
    BracesAt(p, x, t);
    BracesAt(p, y, t);
  }

  lemma BracesAt(p: string, x: string, t: string)
    requires '{' !in p
    requires x != [] && '}' !in x
    ensures ReplaceBraces(p + "{" + x + "}" + t) == p + ("{}" + ReplaceBraces(t))
  {
    var m := "{" + x + "}" + t;
    assert p + "{" + x + "}" + t == p + m;
    BracesPlain(p, m);
    BracesRun(x, t);
  }

  // ---------------------------------------------------------------------
  // Integer groups

  lemma {:induction false} IntGroupsPlain(u: string, t: string)
    requires '(' !in u
    ensures ReplaceIntGroups(u + t) == u + ReplaceIntGroups(t)
  {
    if u == [] {
      assert u + t == t;
    } else {
      var s := u + t;
      assert s[0] == u[0];
      assert !HasPrefix(s, IntGroup) && !HasPrefix(s, BareIntGroup) by {
        assert IntGroup[0] == '(' && BareIntGroup[0] == '(';
      }
      assert s[1..] == u[1..] + t;
      IntGroupsPlain(u[1..], t);
      Associative([u[0]], u[1..], ReplaceIntGroups(t));
      assert [u[0]] + u[1..] == u;
    }
  }

  /** `(\d+)` and `(d+)` both become `{}`. */
  lemma IntGroupRun(g: string, t: string)
    requires g == IntGroup || g == BareIntGroup
    ensures ReplaceIntGroups(g + t) == "{}" + ReplaceIntGroups(t)
  {
    var s := g + t;
    assert s[..|g|] == g;
    if g == BareIntGroup {
      assert !HasPrefix(s, IntGroup) by {
        assert s[1] == 'd' && IntGroup[1] == '\\';
      }
    }
    assert s[|g|..] == t;
  }

  /** Text without a `(` has no integer or decimal group. */
  lemma {:induction false} GroupsNone(s: string)
    requires '(' !in s
    ensures ReplaceIntGroups(s) == s
    ensures ReplaceDecimalGroups(s) == s
  {
    if s != [] {
      assert IntGroup[0] == '(' && BareIntGroup[0] == '(';
      GroupsNone(s[1..]);
    }
  }

  /** The decimal rewrite matches `(\d+.` followed by a single digit and
      `+)`: the regex group `(\d+\.\d+)` itself is left alone, while
      `(\d+.5+)` is rewritten. */
  lemma DecimalGroupAsWritten()
    ensures DecimalGroupLength("(\\d+\\.\\d+)") == 0
    ensures DecimalGroupLength("(\\d+.5+)") == 8
    ensures DecimalGroupLength("(d+.5+)") == 7
  {
    var regexGroup := "(\\d+\\.\\d+)";
    assert regexGroup[..5][4] != "(\\d+."[4];
    assert regexGroup[..4][1] != "(d+."[1];
    assert "(\\d+.5+)"[..5] == "(\\d+.";
    assert "(d+.5+)"[..4] == "(d+.";
  }

  /** Every match of the decimal pattern, with either spelling and any
      single digit, becomes `{}` whatever follows it. */
  lemma DecimalGroupRun(g: string, t: string, d: char)
    requires IsDigit(d)
    requires g == "(\\d+." + [d] + "+)" || g == "(d+." + [d] + "+)"
    ensures ReplaceDecimalGroups(g + t) == "{}" + ReplaceDecimalGroups(t)
  {
    var s := g + t;
    assert s[..|g|] == g && s[|g|..] == t;
    if |g| == 8 {
      assert s[..5] == g[..5] == "(\\d+.";
      assert s[5] == d && s[6..8] == g[6..8] == "+)";
    } else {
      assert s[..5] != "(\\d+." by {
        assert s[1] == 'd';
      }
      assert s[..4] == g[..4] == "(d+.";
      assert s[4] == d && s[5..7] == g[5..7] == "+)";
    }
  }

  /** Text without a `(` passes the decimal rewrite unchanged, whatever follows. */
  lemma {:induction false} DecimalGroupsPlain(u: string, t: string)
    requires '(' !in u
    ensures ReplaceDecimalGroups(u + t) == u + ReplaceDecimalGroups(t)
  {
    if u == [] {
      assert u + t == t;
    } else {
      var s := u + t;
      assert s[0] == u[0] && u[0] in u;
      assert s[1..] == u[1..] + t;
      DecimalGroupsPlain(u[1..], t);
      Associative([u[0]], u[1..], ReplaceDecimalGroups(t));
      assert [u[0]] + u[1..] == u;
    }
  }

  // ---------------------------------------------------------------------
  // The whole pattern

  /** A pattern written as a quoted string literal loses its quotes and
      is rewritten inside. */
  lemma PatternWrapped(q: char, x: string)
    requires q == '"' || q == '\''
    ensures NormalizePattern([q] + x + [q]) == NormalizeInner(x)
  {
    WrappedStrip(q, x);
    QuoteFirst(q, x);
    OuterQuotesRoundTrip(q, x);
  }

  lemma WrappedStrip(q: char, x: string)
    requires q == '"' || q == '\''
    ensures Strip([q] + x + [q]) == [q] + x + [q]
  {
    var s := [q] + x + [q];
    assert s[0] == q && s[|s| - 1] == q;
    StripVisibleEnds(s);
  }

  lemma QuoteFirst(q: char, x: string)
    requires q == '"' || q == '\''
    ensures StripStringPrefix([q] + x + [q]) == [q] + x + [q]
  {
    assert ([q] + x + [q])[0] == q;
  }

  /** Decorators whose quoted argument differs only in a placeholder name
      share a signature. */
  lemma PlaceholderNameIrrelevant(q: char, p: string, x: string, y: string, t: string)
    requires q == '"' || q == '\''
    requires '{' !in p
    requires x != [] && '}' !in x && y != [] && '}' !in y
    ensures NormalizePattern([q] + (p + "{" + x + "}" + t) + [q])
         == NormalizePattern([q] + (p + "{" + y + "}" + t) + [q])
  {
    PatternWrapped(q, p + "{" + x + "}" + t);
    PatternWrapped(q, p + "{" + y + "}" + t);
    BracesNameIrrelevant(p, x, y, t);
  }

  /** An integer group and a named placeholder in the same place give the
      same signature: `(\d+)` and `{count}` are both `{}`. */
  lemma IntGroupLikePlaceholder(q: char, p: string, x: string, t: string)
    requires q == '"' || q == '\''
    requires '{' !in p && '(' !in p
    requires x != [] && '}' !in x
    ensures NormalizePattern([q] + (p + IntGroup + t) + [q])
         == NormalizePattern([q] + (p + "{" + x + "}" + t) + [q])
  {
    PatternWrapped(q, p + IntGroup + t);
    PatternWrapped(q, p + "{" + x + "}" + t);
    IntGroupStage(p, t);
    PlaceholderStage(p, x, t);
  }

  lemma IntGroupStage(p: string, t: string)
    requires '{' !in p && '(' !in p
    ensures ReplaceIntGroups(ReplaceBraces(p + IntGroup + t)) == p + ("{}" + ReplaceIntGroups(ReplaceBraces(t)))
  {
    var rest := ReplaceBraces(t);
    assert '{' !in p + IntGroup;
    BracesPlain(p + IntGroup, t);
    Associative(p, IntGroup, rest);
    IntGroupsPlain(p, IntGroup + rest);
    IntGroupRun(IntGroup, rest);
  }

  lemma PlaceholderStage(p: string, x: string, t: string)
    requires '{' !in p && '(' !in p
    requires x != [] && '}' !in x
    ensures ReplaceIntGroups(ReplaceBraces(p + "{" + x + "}" + t)) == p + ("{}" + ReplaceIntGroups(ReplaceBraces(t)))
  {
    var rest := ReplaceBraces(t);
    BracesAt(p, x, t);
    IntGroupsPlain(p, "{}" + rest);
    IntGroupsPlain("{}", rest);
  }
}
