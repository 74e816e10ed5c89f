/** Character classes and whitespace handling shared by both normalisers.
    Every class is the ASCII part of what Python's `re` and `str` use:
    `\s` and `str.strip` (space, \t \n \v \f \r and the separators \x1c-\x1f),
    `\d` (0-9) and `\w` (letters, digits, underscore). */
module Text {
  import opened Sequences

  predicate IsSpace(c: char) {
    c == ' ' || ('\t' <= c <= '\r') || ('\U{1C}' <= c <= '\U{1F}')
  }

  predicate IsDigit(c: char) {
    '0' <= c <= '9'
  }

  predicate IsLetter(c: char) {
    ('a' <= c <= 'z') || ('A' <= c <= 'Z')
  }

  /** A character of `\w`; `\b` sits between a word character and anything else. */
  predicate IsWordChar(c: char) {
    IsLetter(c) || IsDigit(c) || c == '_'
  }

  /** ASCII lower-casing, as `re.I` and `str.lower` treat the letters A-Z. */
  function Lower(c: char): char {
    if 'A' <= c <= 'Z' then (c as int + 32) as char else c
  }

  function LowerAll(s: string): (r: string)
    ensures |r| == |s|
  {
    seq(|s|, i requires 0 <= i < |s| => Lower(s[i]))
  }

  /** `s` spells the lower-case word `k` ignoring case (the effect of `re.I`). */
  predicate EqualsIgnoreCase(s: string, k: string) {
    |s| == |k| && forall i :: 0 <= i < |s| ==> Lower(s[i]) == k[i]
  }

  predicate AllSpace(s: string) {
    forall i :: 0 <= i < |s| ==> IsSpace(s[i])
  }

  /** Leading whitespace removed (`str.lstrip`, or a leading `\s*` consumed). */
  function TrimLeft(s: string): (r: string)
    ensures |r| <= |s| && r == s[|s| - |r|..]
    ensures AllSpace(s[..|s| - |r|])
    ensures r == [] || !IsSpace(r[0])
  {
    if s != [] && IsSpace(s[0]) then
      var r := TrimLeft(s[1..]);
      assert s[..|s| - |r|] == [s[0]] + s[1..][..|s| - 1 - |r|];
      r
    else s
  }

  /** Trailing whitespace removed (`str.rstrip`). */
  function TrimRight(s: string): (r: string)
    ensures |r| <= |s| && r == s[..|r|]
    ensures AllSpace(s[|r|..])
    ensures r == [] || !IsSpace(r[|r| - 1])
  {
    if s != [] && IsSpace(s[|s| - 1]) then
      var r := TrimRight(s[..|s| - 1]);
      assert s[|r|..] == s[..|s| - 1][|r|..] + [s[|s| - 1]];
      r
    else s
  }

  /** `str.strip`. */
  function Strip(s: string): string {
    TrimRight(TrimLeft(s))
  }

  /** `Strip` removes whitespace only, and what it returns starts and ends
      with a visible character. */
  lemma StripSpec(s: string)
    ensures Visible(Strip(s)) == Visible(s)
    ensures Strip(s) == [] || (!IsSpace(Strip(s)[0]) && !IsSpace(Strip(s)[|Strip(s)| - 1]))
  {
    var l := TrimLeft(s);
    TrimLeftVisible(s);
    TrimRightVisible(l);
    StripEnds(l, TrimRight(l));
  }

  lemma StripEnds(l: string, r: string)
    requires l == [] || !IsSpace(l[0])
    requires |r| <= |l| && r == l[..|r|] && (r == [] || !IsSpace(r[|r| - 1]))
    ensures r == [] || (!IsSpace(r[0]) && !IsSpace(r[|r| - 1]))
  {
    if r != [] {
      assert r[0] == l[0];
    }
  }

  /** No whitespace character other than the plain space. */
  predicate OnlyPlainSpaces(s: string) {
    forall i :: 0 <= i < |s| ==> IsSpace(s[i]) ==> s[i] == ' '
  }

  predicate NoDoubleSpace(s: string) {
    forall i :: 0 <= i < |s| - 1 ==> !(IsSpace(s[i]) && IsSpace(s[i + 1]))
  }

  /** The shape of every signature: single plain spaces between words, none at the ends. */
  predicate Canonical(s: string) {
    OnlyPlainSpaces(s) && NoDoubleSpace(s) && (s == [] || (!IsSpace(s[0]) && !IsSpace(s[|s| - 1])))
  }

  /** The non-whitespace characters of `s`, in order. */
  function Visible(s: string): string {
    if s == [] then [] else (if IsSpace(s[0]) then [] else [s[0]]) + Visible(s[1..])
  }

  /** `re.sub(r'\s+', ' ', s)`: every run of whitespace becomes one space. */
  function CollapseSpaces(s: string): (r: string)
    ensures OnlyPlainSpaces(r) && NoDoubleSpace(r)
    ensures r == [] <==> s == []
    ensures r != [] ==> (IsSpace(r[0]) <==> IsSpace(s[0]))
  {
    if s == [] then []
    else
      var rest := if IsSpace(s[0]) then TrimLeft(s[1..]) else s[1..];
      var c := CollapseSpaces(rest);
      var head := if IsSpace(s[0]) then ' ' else s[0];
      assert IsSpace(s[0]) && c != [] ==> !IsSpace(c[0]);
      assert forall i :: 1 <= i < |c| + 1 ==> ([head] + c)[i] == c[i - 1];
      [head] + c
  }

  /** Collapsing changes whitespace only. */
  lemma {:induction false} CollapseVisible(s: string)
    ensures Visible(CollapseSpaces(s)) == Visible(s)
  {
    if s != [] {
      if IsSpace(s[0]) {
        var t := s[1..];
        var rest := TrimLeft(t);
        var lead := t[..|t| - |rest|];
        assert t == lead + rest;
        VisibleOfSpaces(lead);
        VisibleAppend(lead, rest);
        CollapseVisible(rest);
        VisibleAppend([' '], CollapseSpaces(rest));
      } else {
        CollapseVisible(s[1..]);
        VisibleAppend([s[0]], CollapseSpaces(s[1..]));
      }
    }
  }

  lemma {:induction false} VisibleAppend(a: string, b: string)
    ensures Visible(a + b) == Visible(a) + Visible(b)
  {
    if a != [] {
      assert (a + b)[0] == a[0];
      assert (a + b)[1..] == a[1..] + b;
      VisibleAppend(a[1..], b);
    } else {
      assert a + b == b;
    }
  }

  lemma {:induction false} VisibleOfSpaces(s: string)
    requires AllSpace(s)
    ensures Visible(s) == []
  {
    if s != [] {
      VisibleOfSpaces(s[1..]);
    }
  }

  lemma SliceShape(s: string, i: nat, j: nat)
    requires i <= j <= |s|
    requires OnlyPlainSpaces(s) && NoDoubleSpace(s)
    ensures OnlyPlainSpaces(s[i..j]) && NoDoubleSpace(s[i..j])
  {
    assert forall k :: 0 <= k < j - i ==> s[i..j][k] == s[i + k];
  }

  /** Collapse, then strip: the last two steps of both normalisers. */
  function Tidy(s: string): (r: string)
    ensures Canonical(r)
  {
    var c := CollapseSpaces(s);
    TrimShape(c);
    Strip(c)
  }

  lemma TrimShape(c: string)
    requires OnlyPlainSpaces(c) && NoDoubleSpace(c)
    ensures Canonical(TrimRight(TrimLeft(c)))
  {
    var l := TrimLeft(c);
    SliceShape(c, |c| - |l|, |c|);
    var r := TrimRight(l);
    SliceShape(l, 0, |r|);
    assert r != [] ==> r[0] == l[0];
  }

  /** The whitespace steps keep every other character, in order. */
  lemma TidyVisible(s: string)
    ensures Visible(Tidy(s)) == Visible(s)
  {
    var c := CollapseSpaces(s);
    CollapseVisible(s);
    TrimLeftVisible(c);
    TrimRightVisible(TrimLeft(c));
  }

  lemma TrimLeftVisible(s: string)
    ensures Visible(TrimLeft(s)) == Visible(s)
  {
    var l := TrimLeft(s);
    var lead := s[..|s| - |l|];
    assert s == lead + l;
    VisibleAppend(lead, l);
    VisibleOfSpaces(lead);
  }

  lemma TrimRightVisible(s: string)
    ensures Visible(TrimRight(s)) == Visible(s)
  {
    var r := TrimRight(s);
    var trail := s[|r|..];
    assert s == r + trail;
    VisibleAppend(r, trail);
    VisibleOfSpaces(trail);
  }

  /** A canonical string is a fixed point of the whitespace steps. */
  lemma {:induction false} TidyCanonical(s: string)
    requires Canonical(s)
    ensures Tidy(s) == s
  {
    CollapseNoop(s);
  }

  lemma {:induction false} CollapseNoop(s: string)
    requires OnlyPlainSpaces(s) && NoDoubleSpace(s)
    ensures CollapseSpaces(s) == s
  {
    if s != [] {
      if IsSpace(s[0]) {
        assert |s| > 1 ==> !IsSpace(s[1]);
        assert TrimLeft(s[1..]) == s[1..];
      }
      CollapseNoop(s[1..]);
    }
  }

  /** Leading whitespace is a property of the front of a string only. */
  lemma {:induction false} TrimLeftAppend(p: string, u: string)
    requires u != [] && !IsSpace(u[0])
    ensures TrimLeft(p + u) == TrimLeft(p) + u
  {
    if p == [] {
      assert p + u == u;
    } else {
      assert (p + u)[1..] == p[1..] + u;
      if IsSpace(p[0]) {
        TrimLeftAppend(p[1..], u);
      }
    }
  }

  /** Trailing whitespace is a property of the back of a string only. */
  lemma {:induction false} TrimRightAppend(v: string, t: string)
    requires v != [] && !IsSpace(v[|v| - 1])
    ensures TrimRight(v + t) == v + TrimRight(t)
  {
    if t == [] {
      assert v + t == v;
    } else {
      assert (v + t)[..|v + t| - 1] == v + t[..|t| - 1];
      if IsSpace(t[|t| - 1]) {
        TrimRightAppend(v, t[..|t| - 1]);
      }
    }
  }

  /** Text that starts and ends visibly is its own `strip`. */
  lemma StripVisibleEnds(s: string)
    requires s != [] && !IsSpace(s[0]) && !IsSpace(s[|s| - 1])
    ensures Strip(s) == s
  {
  }

  /** Stripping a line whose middle part has visible ends touches only the outer parts. */
  lemma StripAround(p: string, m: string, t: string)
    requires m != [] && !IsSpace(m[0]) && !IsSpace(m[|m| - 1])
    ensures Strip(p + m + t) == TrimLeft(p) + (m + TrimRight(t))
  {
    var l := TrimLeft(p);
    var r := TrimRight(t);
    Associative(p, m, t);
    TrimLeftAppend(p, m + t);
    Associative(l, m, t);
    TrimRightAppend(l + m, t);
    Associative(l, m, r);
  }

  // ---------------------------------------------------------------------
  // Whitespace between words: `\s+` becomes exactly one space

  /** A whitespace run on its own collapses to a single space. */
  lemma CollapseRun(w: string)
    requires w != [] && AllSpace(w)
    ensures CollapseSpaces(w) == " "
  {
    var l := TrimLeft(w[1..]);
  }

  /** Collapsing treats the text before a visible character on its own. */
  lemma {:induction false} CollapseBeforeVisible(u: string, v: string)
    requires v != [] && !IsSpace(v[0])
    ensures CollapseSpaces(u + v) == CollapseSpaces(u) + CollapseSpaces(v)
    decreases |u|
  {
    if u == [] {
      assert u + v == v;
    } else if IsSpace(u[0]) {
      var t := u[1..];
      var l := TrimLeft(t);
      assert (u + v)[0] == u[0] && (u + v)[1..] == t + v;
      TrimLeftAppend(t, v);
      assert CollapseSpaces(u + v) == [' '] + CollapseSpaces(l + v);
      CollapseBeforeVisible(l, v);
      assert CollapseSpaces(u) == [' '] + CollapseSpaces(l);
      Associative([' '], CollapseSpaces(l), CollapseSpaces(v));
    } else {
      assert (u + v)[0] == u[0] && (u + v)[1..] == u[1..] + v;
      assert CollapseSpaces(u + v) == [u[0]] + CollapseSpaces(u[1..] + v);
      CollapseBeforeVisible(u[1..], v);
      assert CollapseSpaces(u) == [u[0]] + CollapseSpaces(u[1..]);
      Associative([u[0]], CollapseSpaces(u[1..]), CollapseSpaces(v));
    }
  }

  /** Leading whitespace of a text that ends visibly stays inside that text. */
  lemma {:induction false} TrimLeftBeforeAny(p: string, v: string)
    requires p != [] && !IsSpace(p[|p| - 1])
    ensures TrimLeft(p + v) == TrimLeft(p) + v
    ensures TrimLeft(p) != [] && !IsSpace(TrimLeft(p)[|TrimLeft(p)| - 1])
  {
    if IsSpace(p[0]) {
      assert (p + v)[1..] == p[1..] + v;
      TrimLeftBeforeAny(p[1..], v);
    }
  }

  /** Collapsing treats the text after a visible character on its own. */
  lemma {:induction false} CollapseAfterVisible(u: string, v: string)
    requires u != [] && !IsSpace(u[|u| - 1])
    ensures CollapseSpaces(u + v) == CollapseSpaces(u) + CollapseSpaces(v)
    decreases |u|, 1
  {
    if |u| == 1 {
      assert (u + v)[0] == u[0] && (u + v)[1..] == v && u[1..] == [];
      assert CollapseSpaces(u + v) == [u[0]] + CollapseSpaces(v);
    } else if IsSpace(u[0]) {
      CollapseAfterSpace(u, v);
    } else {
      CollapseAfterChar(u, v);
    }
  }

  lemma {:induction false} CollapseAfterSpace(u: string, v: string)
    requires |u| > 1 && IsSpace(u[0]) && !IsSpace(u[|u| - 1])
    ensures CollapseSpaces(u + v) == CollapseSpaces(u) + CollapseSpaces(v)
    decreases |u|, 0
  {
    var t := u[1..];
    var l := TrimLeft(t);
    assert (u + v)[0] == u[0] && (u + v)[1..] == t + v;
    TrimLeftBeforeAny(t, v);
    assert CollapseSpaces(u + v) == [' '] + CollapseSpaces(l + v);
    CollapseAfterVisible(l, v);
    assert CollapseSpaces(u) == [' '] + CollapseSpaces(l);
    Associative([' '], CollapseSpaces(l), CollapseSpaces(v));
  }

  lemma {:induction false} CollapseAfterChar(u: string, v: string)
    requires |u| > 1 && !IsSpace(u[0]) && !IsSpace(u[|u| - 1])
    ensures CollapseSpaces(u + v) == CollapseSpaces(u) + CollapseSpaces(v)
    decreases |u|, 0
  {
    assert (u + v)[0] == u[0] && (u + v)[1..] == u[1..] + v;
    assert CollapseSpaces(u + v) == [u[0]] + CollapseSpaces(u[1..] + v);
    CollapseAfterVisible(u[1..], v);
    assert CollapseSpaces(u) == [u[0]] + CollapseSpaces(u[1..]);
    Associative([u[0]], CollapseSpaces(u[1..]), CollapseSpaces(v));
  }

  /** Two words with a whitespace run between them stay two words, one
      space apart: `re.sub(r'\s+', ' ', ...)` never deletes a separator. */
  lemma CollapseAround(a: string, w: string, b: string)
    requires a != [] && !IsSpace(a[|a| - 1])
    requires w != [] && AllSpace(w)
    requires b != [] && !IsSpace(b[0])
    ensures CollapseSpaces(a + w + b) == CollapseSpaces(a) + " " + CollapseSpaces(b)
  {
    CollapseBeforeVisible(a + w, b);
    CollapseAfterVisible(a, w);
    CollapseRun(w);
  }

  /** Collapsing keeps a visible last character. */
  lemma CollapseEndsVisibly(u: string)
    requires u != [] && !IsSpace(u[|u| - 1])
    ensures CollapseSpaces(u) != [] && CollapseSpaces(u)[|CollapseSpaces(u)| - 1] == u[|u| - 1]
  {
    var n := |u| - 1;
    assert u == u[..n] + [u[n]];
    CollapseBeforeVisible(u[..n], [u[n]]);
    assert CollapseSpaces([u[n]]) == [u[n]];
  }

  /** The same for collapse-then-strip: the words on either side of a
      whitespace run end up exactly one space apart. */
  lemma TidyAround(a: string, w: string, b: string)
    requires a != [] && !IsSpace(a[|a| - 1])
    requires w != [] && AllSpace(w)
    requires b != [] && !IsSpace(b[0])
    ensures Tidy(a + w + b) == Tidy(a) + " " + Tidy(b)
  {
    var ca, cb := CollapseSpaces(a), CollapseSpaces(b);
    CollapseAround(a, w, b);
    CollapseEndsVisibly(a);
    TidySides(ca, cb);
  }

  lemma TidySides(ca: string, cb: string)
    requires ca != [] && !IsSpace(ca[|ca| - 1])
    requires cb != [] && !IsSpace(cb[0])
    ensures Strip(ca + " " + cb) == Strip(ca) + " " + Strip(cb)
  {
    var l := TrimLeft(ca);
    TrimLeftSide(ca, cb);
    TrimRightSide(l, cb);
    TrimRightAppend(l, []);
    assert l + [] == l;
    TrimLeftAppend([], cb);
    assert [] + cb == cb;
  }

  lemma TrimLeftSide(ca: string, cb: string)
    requires ca != [] && !IsSpace(ca[|ca| - 1])
    ensures TrimLeft(ca + " " + cb) == TrimLeft(ca) + " " + cb
    ensures TrimLeft(ca) != [] && !IsSpace(TrimLeft(ca)[|TrimLeft(ca)| - 1])
  {
    TrimLeftBeforeAny(ca, " " + cb);
    Associative(ca, " ", cb);
    Associative(TrimLeft(ca), " ", cb);
  }

  lemma TrimRightSide(l: string, cb: string)
    requires cb != [] && !IsSpace(cb[0])
    ensures TrimRight(l + " " + cb) == l + " " + TrimRight(cb)
  {
    var c0, rest := [cb[0]], cb[1..];
    assert cb == c0 + rest;
    Associative(l + " ", c0, rest);
    TrimRightAppend(l + " " + c0, rest);
    TrimRightAppend(c0, rest);
    Associative(l + " ", c0, TrimRight(rest));
  }

  /** Text without whitespace passes the collapse unchanged. */
  lemma {:induction false} CollapsePlainPrefix(p: string, t: string)
    requires forall i :: 0 <= i < |p| ==> !IsSpace(p[i])
    ensures CollapseSpaces(p + t) == p + CollapseSpaces(t)
    decreases |p|
  {
    if p == [] {
      assert p + t == t;
    } else {
      assert (p + t)[0] == p[0] && (p + t)[1..] == p[1..] + t;
      assert CollapseSpaces(p + t) == [p[0]] + CollapseSpaces(p[1..] + t);
      CollapsePlainPrefix(p[1..], t);
      Associative([p[0]], p[1..], CollapseSpaces(t));
      assert p == [p[0]] + p[1..];
    }
  }
}
