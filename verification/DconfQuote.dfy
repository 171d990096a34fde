/** Quoting of string values for dconf: splitting on separators that are not escaped, and the
    normal form of a quoted string. */
module DconfQuote {
  import opened GoStrings

  // ---------------------------------------------------------------- backslashes

  /** The number of backslashes directly in front of place p. */
  function Run(s: string, p: nat): (r: nat)
    requires p <= |s|
    ensures r <= p
    ensures forall i :: p - r <= i < p ==> s[i] == '\\'
    ensures r < p ==> s[p - r - 1] != '\\'
  {
    if p == 0 || s[p - 1] != '\\' then 0 else Run(s, p - 1) + 1
  }

  predicate Escaped(s: string, p: nat)
    requires p <= |s|
  {
    Run(s, p) % 2 == 1
  }

  /** A separator that counts. */
  predicate CutsAt(s: string, sep: char, p: nat) {
    p < |s| && s[p] == sep && !Escaped(s, p)
  }

  lemma {:induction false} RunOfPrefix(s: string, t: string, p: nat)
    requires p <= |s| && p <= |t| && s[..p] == t[..p]
    ensures Run(s, p) == Run(t, p)
    decreases p
  {
    if p > 0 {
      assert s[p - 1] == s[..p][p - 1] == t[..p][p - 1] == t[p - 1];
      assert s[..p - 1] == s[..p][..p - 1] == t[..p][..p - 1] == t[..p - 1];
      RunOfPrefix(s, t, p - 1);
    }
  }

  /** Nothing in front of a character that is no backslash matters. */
  lemma {:induction false} RunBehind(a: string, c: char, b: string, p: nat)
    requires c != '\\' && p <= |b|
    ensures Run(a + [c] + b, |a| + 1 + p) == Run(b, p)
    decreases p
  {
    var s := a + [c] + b;
    assert s[|a|] == c;
    if p > 0 {
      assert s[|a| + p] == b[p - 1];
      RunBehind(a, c, b, p - 1);
    }
  }

  // ---------------------------------------------------------------- splitting and joining

  lemma JoinOneMore(ts: seq<string>, t: string, sep: string)
    requires ts != []
    ensures Join(ts + [t], sep) == Join(ts, sep) + sep + t
  {
    assert (ts + [t])[..|ts|] == ts;
  }

  lemma {:induction false} JoinLast(ts: seq<string>, tail: string, sep: string)
    requires ts != []
    ensures Join(ts[|ts| - 1 := ts[|ts| - 1] + tail], sep) == Join(ts, sep) + tail
  {
    var ts' := ts[|ts| - 1 := ts[|ts| - 1] + tail];
    assert ts'[..|ts| - 1] == ts[..|ts| - 1];
    if |ts| > 1 { assert Join(ts[..|ts| - 1], sep) + sep + (ts[|ts| - 1] + tail) == Join(ts, sep) + tail; }
  }

  /** The places of the separators between tokens, as the tokens are joined. */
  function Boundaries(ts: seq<string>): set<nat> {
    if |ts| <= 1 then {}
    else Boundaries(ts[..|ts| - 1]) + {|Join(ts[..|ts| - 1], " ")|}
  }

  /** The tokens joined give back v, and their seams are exactly the separators of v that are
      preceded by an even run of backslashes. */
  ghost predicate IsSplit(ts: seq<string>, v: string, sep: char) {
    && ts != [] && Join(ts, [sep]) == v
    && forall p: nat :: p in Boundaries(ts) <==> CutsAt(v, sep, p)
  }

  lemma {:induction false} JoinLength(ts: seq<string>, sep: string, sep': string)
    requires |sep| == |sep'|
    ensures |Join(ts, sep)| == |Join(ts, sep')|
    decreases |ts|
  {
    if |ts| > 1 { JoinLength(ts[..|ts| - 1], sep, sep'); }
  }

  lemma {:induction false} BoundariesBelow(ts: seq<string>, sep: char)
    requires ts != []
    ensures forall p: nat :: p in Boundaries(ts) ==> p < |Join(ts, [sep])|
    decreases |ts|
  {
    if |ts| > 1 {
      BoundariesBelow(ts[..|ts| - 1], sep);
      JoinLength(ts[..|ts| - 1], " ", [sep]);
    }
  }

  lemma {:induction false} SplitJoins(s: string, sep: char)
    ensures Join(Split(s, sep), [sep]) == s
    ensures forall t :: t in Split(s, sep) ==> sep !in t
    decreases |s|
  {
    if s != [] {
      var front := Split(s[..|s| - 1], sep);
      SplitJoins(s[..|s| - 1], sep);
      if s[|s| - 1] == sep {
        JoinOneMore(front, "", [sep]);
        assert s == s[..|s| - 1] + [sep] + "";
      } else {
        JoinLast(front, [s[|s| - 1]], [sep]);
        assert front[|front| - 1] in front;
        assert s == s[..|s| - 1] + [s[|s| - 1]];
        forall t | t in Split(s, sep) ensures sep !in t {
          assert t in front || t == front[|front| - 1] + [s[|s| - 1]];
        }
      }
    }
  }

  /** The characters behind the last one that is no backslash: the program's test on a piece. */
  function TrailingRun(t: string): nat { Run(t, |t|) }

  lemma TrailingRunInPlace(pieces: seq<string>, sep: char)
    requires pieces != [] && sep != '\\' && sep !in pieces[|pieces| - 1]
    ensures Run(Join(pieces, [sep]), |Join(pieces, [sep])|) == TrailingRun(pieces[|pieces| - 1])
  {
    if |pieces| > 1 {
      var t := pieces[|pieces| - 1];
      RunBehind(Join(pieces[..|pieces| - 1], [sep]), sep, t, |t|);
    }
  }

  lemma CutsOfPrefix(v: string, w: string, sep: char, p: nat)
    requires p < |v|
    ensures CutsAt(v + w, sep, p) <==> CutsAt(v, sep, p)
  {
    RunOfPrefix(v + w, v, p);
  }

  lemma NoCutsInPiece(v: string, e: string, sep: char, p: nat)
    requires sep !in e && |v| <= p
    ensures !CutsAt(v + e, sep, p)
  {
    if p < |v + e| { assert (v + e)[p] == e[p - |v|]; }
  }

  /** One more piece: the separator in front of it is a seam unless it is escaped. */
  lemma OnePieceMore(ts: seq<string>, v: string, e: string, sep: char)
    requires IsSplit(ts, v, sep) && sep !in e
    ensures Escaped(v, |v|) ==> IsSplit(ts[|ts| - 1 := ts[|ts| - 1] + ([sep] + e)], v + [sep] + e, sep)
    ensures !Escaped(v, |v|) ==> IsSplit(ts + [e], v + [sep] + e, sep)
  {
    var w := v + [sep] + e;
    BoundariesBelow(ts, sep);
    RunOfPrefix(w, v, |v|);
    forall p: nat ensures CutsAt(w, sep, p) <==> CutsAt(v, sep, p) || (p == |v| && !Escaped(v, |v|)) {
      if p < |v| {
        assert w == v + ([sep] + e);
        CutsOfPrefix(v, [sep] + e, sep, p);
      } else if p > |v| {
        NoCutsInPiece(v + [sep], e, sep, p);
      }
    }
    if Escaped(v, |v|) {
      JoinLast(ts, [sep] + e, [sep]);
      assert w == v + ([sep] + e);
      assert ts[|ts| - 1 := ts[|ts| - 1] + ([sep] + e)][..|ts| - 1] == ts[..|ts| - 1];
    } else {
      JoinOneMore(ts, e, [sep]);
      JoinLength(ts, " ", [sep]);
      assert (ts + [e])[..|ts|] == ts;
    }
  }

  /** Seams and joined text leave no choice. */
  lemma {:induction false} SplitUnique(a: seq<string>, b: seq<string>, v: string, sep: char)
    requires IsSplit(a, v, sep) && IsSplit(b, v, sep)
    ensures a == b
    decreases |a|
  {
    SeamsOf(a, v, sep);
    SeamsOf(b, v, sep);
    if |a| > 1 || |b| > 1 {
      var m := |Join(a[..|a| - 1], " ")|;
      SplitUnique(a[..|a| - 1], b[..|b| - 1], v[..m], sep);
      assert a == a[..|a| - 1] + [a[|a| - 1]] && b == b[..|b| - 1] + [b[|b| - 1]];
    }
  }

  /** The last seam is the last cut, and what is in front of it is split in the same way. */
  lemma SeamsOf(ts: seq<string>, v: string, sep: char)
    requires IsSplit(ts, v, sep)
    ensures |ts| == 1 ==> ts == [v] && forall p: nat :: !CutsAt(v, sep, p)
    ensures |ts| > 1 ==>
              var m := |Join(ts[..|ts| - 1], " ")|;
              && CutsAt(v, sep, m) && (forall p: nat :: m < p ==> !CutsAt(v, sep, p))
              && ts[|ts| - 1] == v[m + 1..] && IsSplit(ts[..|ts| - 1], v[..m], sep)
  {
    if |ts| > 1 {
      var front := ts[..|ts| - 1];
      var m := |Join(front, " ")|;
      JoinLength(front, " ", [sep]);
      BoundariesBelow(front, sep);
      assert v == Join(front, [sep]) + ([sep] + ts[|ts| - 1]);
      forall p: nat | m < p ensures !CutsAt(v, sep, p) { assert p !in Boundaries(ts); }
      assert v[..m] == Join(front, [sep]) && v[m + 1..] == ts[|ts| - 1];
      forall p: nat ensures p in Boundaries(front) <==> CutsAt(v[..m], sep, p) {
        if p < m { CutsOfPrefix(v[..m], v[m..], sep, p); assert v == v[..m] + v[m..]; }
      }
    }
  }

  /** The split in closed form, character by character. */
  function Tokens(v: string, sep: char): (r: seq<string>)
    ensures r != []
  {
    if v == [] then [""]
    else
      var front := Tokens(v[..|v| - 1], sep);
      if CutsAt(v, sep, |v| - 1) then front + [""]
      else front[|front| - 1 := front[|front| - 1] + [v[|v| - 1]]]
  }

  lemma {:induction false} TokensAreTheSplit(v: string, sep: char)
    ensures IsSplit(Tokens(v, sep), v, sep)
    decreases |v|
  {
    if v == [] {
      FirstPiece("", sep);
    } else {
      hide IsSplit, CutsAt;
      var u, c := v[..|v| - 1], v[|v| - 1];
      TokensAreTheSplit(u, sep);
      assert v == u + [c];
      OneCharMore(Tokens(u, sep), u, c, sep);
    }
  }

  /** One character more is a separator that counts, or belongs to the last token. */
  lemma OneCharMore(ts: seq<string>, u: string, c: char, sep: char)
    requires IsSplit(ts, u, sep)
    ensures CutsAt(u + [c], sep, |u|) ==> IsSplit(ts + [""], u + [c], sep)
    ensures !CutsAt(u + [c], sep, |u|) ==> IsSplit(ts[|ts| - 1 := ts[|ts| - 1] + [c]], u + [c], sep)
  {
    var v := u + [c];
    BoundariesBelow(ts, sep);
    JoinLength(ts, " ", [sep]);
    CutsOneMore(u, c, sep);
    if CutsAt(v, sep, |u|) {
      JoinOneMore(ts, "", [sep]);
      assert u + [sep] + "" == v;
      assert (ts + [""])[..|ts|] == ts;
    } else {
      JoinLast(ts, [c], [sep]);
      assert ts[|ts| - 1 := ts[|ts| - 1] + [c]][..|ts| - 1] == ts[..|ts| - 1];
    }
  }

  lemma CutsOneMore(u: string, c: char, sep: char)
    ensures forall p: nat :: CutsAt(u + [c], sep, p) <==> CutsAt(u, sep, p) || (p == |u| && CutsAt(u + [c], sep, |u|))
  {
    forall p: nat ensures CutsAt(u + [c], sep, p) <==> CutsAt(u, sep, p) || (p == |u| && CutsAt(u + [c], sep, |u|)) {
      if p < |u| { CutsOfPrefix(u, [c], sep, p); }
    }
  }

  /** Splits v by sep, only where sep is not escaped. A backslash as separator is never escaped: no
      piece can end in one. */
  method SplitOnNonEscaped(v: string, sep: char) returns (tokens: seq<string>)
    ensures sep != '\\' ==> IsSplit(tokens, v, sep) && tokens == Tokens(v, sep)
    ensures sep == '\\' ==> tokens == Split(v, sep)
    ensures Join(tokens, [sep]) == v
  {
    hide IsSplit, Split, Join;
    var t := Split(v, sep);
    SplitJoins(v, sep);
    tokens := [t[0]];
    assert t[..1] == [t[0]];
    FirstPiece(t[0], sep);
    JoinOne(t[0], [sep]);
    for i := 1 to |t|
      invariant sep != '\\' ==> tokens != [] && IsSplit(tokens, Join(t[..i], [sep]), sep)
      invariant sep == '\\' ==> tokens == t[..i]
    {
      var e := t[i];
      assert t[i - 1] in t && t[i] in t;
      if sep != '\\' {
        assert t[..i][|t[..i]| - 1] == t[i - 1];
        TrailingRunInPlace(t[..i], sep);
        OnePieceMore(tokens, Join(t[..i], [sep]), e, sep);
      }
      JoinOneMore(t[..i], e, [sep]);
      assert t[..i + 1] == t[..i] + [e];
      if TrailingRun(t[i - 1]) % 2 == 1 {
        tokens := tokens[|tokens| - 1 := tokens[|tokens| - 1] + ([sep] + e)];
        continue;
      }
      tokens := tokens + [e];
    }
    assert t[..|t|] == t;
    if sep != '\\' {
      TokensAreTheSplit(v, sep);
      SplitUnique(tokens, Tokens(v, sep), v, sep);
      JoinOfSplit(tokens, v, sep);
    }
  }

  lemma JoinOfSplit(ts: seq<string>, v: string, sep: char)
    requires IsSplit(ts, v, sep)
    ensures Join(ts, [sep]) == v
  {}

  lemma JoinOne(t: string, sep: string)
    ensures Join([t], sep) == t
  {}

  lemma FirstPiece(e: string, sep: char)
    requires sep !in e
    ensures IsSplit([e], e, sep)
  {
    forall p: nat ensures !CutsAt(e, sep, p) {
      NoCutsInPiece("", e, sep, p);
      assert "" + e == e;
    }
  }

  // ---------------------------------------------------------------- quoting

  function TrimQuotes(s: string): string {
    var t := if "'" <= s then s[1..] else s;
    if t != [] && t[|t| - 1] == '\'' then t[..|t| - 1] else t
  }

  /** What is to stand between the quotes. */
  function Inner(s: string): string {
    var s1 := if s == "'" then "'''" else if s == "\\'" then "'\\''" else s;
    TrimQuotes(TrimSpace(s1))
  }

  function EscapeQuotes(t: string): string { Join(Tokens(t, '\''), "\\'") }

  function QuoteValue(s: string): string { "'" + EscapeQuotes(Inner(s)) + "'" }

  /** Escaping character by character. */
  lemma EscapeStep(u: string, c: char)
    ensures EscapeQuotes(u + [c]) ==
            EscapeQuotes(u) + if c == '\'' && !Escaped(u, |u|) then "\\'" else [c]
  {
    var v := u + [c];
    assert v[..|v| - 1] == u;
    RunOfPrefix(v, u, |u|);
    var front := Tokens(u, '\'');
    if CutsAt(v, '\'', |u|) {
      JoinOneMore(front, "", "\\'");
      assert Join(front, "\\'") + "\\'" + "" == Join(front, "\\'") + "\\'";
    } else {
      JoinLast(front, [c], "\\'");
    }
  }

  lemma RunStep(u: string, c: char)
    ensures Run(u + [c], |u| + 1) == if c == '\\' then Run(u, |u|) + 1 else 0
  {
    RunOfPrefix(u + [c], u, |u|);
  }

  /** Escaping keeps the run of backslashes at the end, and leaves no quote that would cut. */
  lemma {:induction false} EscapedRun(t: string)
    ensures Run(EscapeQuotes(t), |EscapeQuotes(t)|) == Run(t, |t|)
    ensures forall p: nat :: !CutsAt(EscapeQuotes(t), '\'', p)
    decreases |t|
  {
    if t == [] {
      assert EscapeQuotes(t) == "";
    } else {
      hide Run, CutsAt, EscapeQuotes;
      var u, c := t[..|t| - 1], t[|t| - 1];
      assert t == u + [c];
      EscapedRun(u);
      EscapeStep(u, c);
      RunStep(u, c);
      var e := EscapeQuotes(u);
      if c == '\'' && !Escaped(u, |u|) {
        EscapedQuoteAdded(e);
      } else {
        RunStep(e, c);
        NoCutAdded(e, c);
      }
    }
  }

  lemma EscapedQuoteAdded(e: string)
    requires !Escaped(e, |e|) && forall p: nat :: !CutsAt(e, '\'', p)
    ensures Run(e + "\\'", |e + "\\'"|) == 0
    ensures forall p: nat :: !CutsAt(e + "\\'", '\'', p)
  {
    hide Run, CutsAt;
    RunStep(e, '\\');
    RunStep(e + ['\\'], '\'');
    assert e + "\\'" == e + ['\\'] + ['\''];
    NoCutAdded(e, '\\');
    NoCutAdded(e + ['\\'], '\'');
  }

  lemma NoCutAdded(e: string, c: char)
    requires forall p: nat :: !CutsAt(e, '\'', p)
    requires c == '\'' ==> Escaped(e, |e|)
    ensures forall p: nat :: !CutsAt(e + [c], '\'', p)
  {
    RunOfPrefix(e + [c], e, |e|);
    forall p: nat ensures !CutsAt(e + [c], '\'', p) {
      if p < |e| { CutsOfPrefix(e, [c], '\'', p); }
    }
  }

  lemma {:induction false} NothingToEscape(t: string)
    requires forall p: nat :: !CutsAt(t, '\'', p)
    ensures EscapeQuotes(t) == t
    decreases |t|
  {
    if t != [] {
      var u, c := t[..|t| - 1], t[|t| - 1];
      assert t == u + [c];
      RunOfPrefix(t, u, |u|);
      forall p: nat ensures !CutsAt(u, '\'', p) {
        if p < |u| { CutsOfPrefix(u, [c], '\'', p); }
      }
      assert !CutsAt(t, '\'', |u|);
      NothingToEscape(u);
      EscapeStep(u, c);
    }
  }

  /** What stands between the quotes of a quoted string is what is found there again. */
  lemma InnerOfQuoted(e: string)
    ensures |e| > 0 ==> Inner("'" + e + "'") == e
    ensures e == [] ==> Inner("'" + e + "'") == ""
  {
    var q := "'" + e + "'";
    assert q[0] == '\'' && q[|q| - 1] == '\'';
    assert q != "'" && q != "\\'";
    assert TrimSpace(q) == q;
    assert q[1..] == e + "'";
    assert (e + "'")[..|e|] == e;
  }

  /** Main result: quoting is idempotent, on every string. */
  lemma QuoteIsIdempotent(s: string)
    ensures QuoteValue(QuoteValue(s)) == QuoteValue(s)
  {
    var e := EscapeQuotes(Inner(s));
    InnerOfQuoted(e);
    EscapedRun(Inner(s));
    NothingToEscape(e);
  }

  lemma RunInQuotes(e: string, p: nat)
    requires p <= |e|
    ensures Run("'" + e + "'", p + 1) == Run(e, p)
  {
    hide Run;
    RunBehind("", '\'', e + "'", p);
    assert "'" + e + "'" == "" + ['\''] + (e + "'");
    assert (e + "'")[..p] == e[..p];
    RunOfPrefix(e + "'", e, p);
  }

  /** Every quote between the first and the last character of a quoted string is escaped. The last
      one is not, and so closes the string, exactly when what is quoted does not end in an odd run of
      backslashes. */
  lemma QuotedIsClosed(s: string)
    ensures var q := QuoteValue(s);
            && |q| >= 2 && q[0] == '\'' && q[|q| - 1] == '\''
            && (forall p: nat :: 0 < p < |q| - 1 && q[p] == '\'' ==> Escaped(q, p))
            && (!Escaped(q, |q| - 1) <==> !Escaped(Inner(s), |Inner(s)|))
  {
    hide Run, Inner, EscapeQuotes;
    var e := EscapeQuotes(Inner(s));
    var q := QuoteValue(s);
    EscapedRun(Inner(s));
    assert q == "'" + e + "'";
    forall p: nat | p <= |e| ensures Run(q, p + 1) == Run(e, p) {
      RunInQuotes(e, p);
    }
    forall p: nat | 0 < p < |q| - 1 && q[p] == '\'' ensures Escaped(q, p) {
      assert !CutsAt(e, '\'', p - 1);
      assert Run(q, p - 1 + 1) == Run(e, p - 1);
    }
    assert Run(q, |e| + 1) == Run(e, |e|);
  }

  /** The one that is not closed. */
  lemma TrailingBackslashIsNotClosed()
    ensures QuoteValue("\\") == "'\\'" && Escaped(QuoteValue("\\"), 2)
  {
    var b := "\\";
    assert b == "" + ['\\'] && EscapeQuotes("") == "";
    EscapeStep("", '\\');
    assert Inner(b) == b;
    assert QuoteValue(b) == "'\\'";
    assert Run("'\\'", 1) == 0;
    assert Run("'\\'", 2) == 1;
  }

  /** What a string says once its escapes are resolved: every character but the backslashes that
      escape the next one. */
  function Unescape(t: string): string {
    if t == [] then []
    else
      var u, c := t[..|t| - 1], t[|t| - 1];
      Unescape(u) + if c == '\\' && !Escaped(u, |u|) then [] else [c]
  }

  lemma UnescapeStep(u: string, c: char)
    ensures Unescape(u + [c]) == Unescape(u) + if c == '\\' && !Escaped(u, |u|) then [] else [c]
  {
    hide Run;
    var v := u + [c];
    assert v[..|v| - 1] == u && v[|v| - 1] == c;
  }

  /** Escaping the quotes does not change what the string says. */
  lemma {:induction false} EscapingKeepsMeaning(t: string)
    ensures Unescape(EscapeQuotes(t)) == Unescape(t)
    decreases |t|
  {
    if t == [] {
      assert EscapeQuotes(t) == "";
    } else {
      var u, c := t[..|t| - 1], t[|t| - 1];
      assert t == u + [c];
      var e := EscapeQuotes(u);
      EscapingKeepsMeaning(u);
      EscapeStep(u, c);
      EscapedRun(u);
      UnescapeStep(u, c);
      UnescapeStep(e, c);
      if c == '\'' && !Escaped(u, |u|) {
        UnescapeStep(e, '\\');
        UnescapeStep(e + ['\\'], '\'');
        RunStep(e, '\\');
        assert e + "\\'" == e + ['\\'] + ['\''];
        assert Unescape(e) + [] == Unescape(e);
      }
    }
  }

  // ---------------------------------------------------------------- what is quoted

  /** A text as it is usually given: no spaces or quotes at its ends. */
  predicate Tidy(t: string) {
    t != "" && !IsSpace(t[0]) && !IsSpace(t[|t| - 1]) && t[0] != '\'' && t[|t| - 1] != '\''
  }

  /** Spaces around a tidy text go, and so does one pair of quotes. */
  lemma InnerIs(l: string, t: string, r: string)
    requires Tidy(t) && Blank(l) && Blank(r)
    ensures Inner(l + t + r) == t
    ensures Inner(l + ("'" + t + "'") + r) == t
  {
    hide Tidy, IsSpace, TrimSpace;
    var q := "'" + t + "'";
    TidyEnds(t);
    TrimSpaceIs(l, t, r);
    TrimSpaceIs(l, q, r);
    LastOfText(l, t, r);
    assert |l + q + r| > 2;
    assert q[1..] == t + "'" && (t + "'")[..|t|] == t;
  }

  lemma TidyEnds(t: string)
    requires Tidy(t)
    ensures t != "" && t[0] != '\'' && t[|t| - 1] != '\'' && !IsSpace(t[0]) && !IsSpace(t[|t| - 1])
    ensures !IsSpace('\'')
  {}

  lemma QuoteIsNoSpace()
    ensures !IsSpace('\'')
  {}

  lemma LastOfText(l: string, t: string, r: string)
    requires Tidy(t) && Blank(r)
    ensures var s := l + t + r; s != "" && s[|s| - 1] != '\''
  {
    var s := l + t + r;
    assert s[|s| - 1] == if r == "" then t[|t| - 1] else r[|r| - 1];
  }

  lemma {:induction false} NothingToUnescape(t: string)
    requires '\\' !in t
    ensures Unescape(t) == t
    decreases |t|
  {
    if t != [] {
      assert t[|t| - 1] in t && t == t[..|t| - 1] + [t[|t| - 1]];
      NothingToUnescape(t[..|t| - 1]);
    }
  }

  /** From end to end: a tidy text without backslashes, with or without quotes and spaces around it,
      is put between quotes, and says there what it said. */
  lemma QuotedSaysTheText(l: string, t: string, r: string)
    requires Tidy(t) && '\\' !in t && Blank(l) && Blank(r)
    ensures var q := QuoteValue(l + t + r);
            |q| >= 2 && q[0] == '\'' && q[|q| - 1] == '\'' && Unescape(q[1..|q| - 1]) == t
    ensures QuoteValue(l + ("'" + t + "'") + r) == QuoteValue(l + t + r)
  {
    hide Inner, EscapeQuotes, Unescape;
    InnerIs(l, t, r);
    EscapingKeepsMeaning(t);
    NothingToUnescape(t);
    var q := QuoteValue(l + t + r);
    assert q[1..|q| - 1] == EscapeQuotes(t);
  }

  /** A quote on its own, escaped or not, is a quote. */
  lemma LoneQuote()
    ensures QuoteValue("'") == "'\\''" && QuoteValue("\\'") == "'\\''"
  {
    hide Inner, EscapeQuotes;
    LoneInner();
    LoneEscaped();
  }

  lemma LoneInner()
    ensures Inner("'") == "'" && Inner("\\'") == "\\'"
  {
    hide IsSpace;
    QuoteIsNoSpace();
    var a, b := "'''", "'\\''";
    assert TrimSpace(a) == a && TrimSpace(b) == b;
    assert a[1..] == "''" && b[1..] == "\\''";
    assert "''"[..1] == "'" && "\\''"[..2] == "\\'";
  }

  lemma LoneEscaped()
    ensures EscapeQuotes("'") == "\\'" && EscapeQuotes("\\'") == "\\'"
  {
    hide EscapeQuotes, Run;
    NoText();
    EscapeStep("", '\'');
    EscapeStep("", '\\');
    EscapeStep("\\", '\'');
    RunStep("", '\\');
    assert "" + ['\''] == "'" && "" + ['\\'] == "\\" && "\\" + ['\''] == "\\'";
  }

  lemma NoText()
    ensures EscapeQuotes("") == "" && Run("", 0) == 0
  {}
}
