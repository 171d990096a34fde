/** The few functions of Go's strings, unicode and path/filepath packages that the program leans on. */
module GoStrings {

  /** strings.Join. */
  function Join(ts: seq<string>, sep: string): string {
    if ts == [] then "" else if |ts| == 1 then ts[0] else Join(ts[..|ts| - 1], sep) + sep + ts[|ts| - 1]
  }

  /** strings.Split: the pieces between separators. */
  function Split(s: string, sep: char): (r: seq<string>)
    ensures r != []
  {
    if s == [] then [""]
    else
      var front := Split(s[..|s| - 1], sep);
      if s[|s| - 1] == sep then front + [""]
      else front[|front| - 1 := front[|front| - 1] + [s[|s| - 1]]]
  }

  /** unicode.IsSpace. */
  predicate IsSpace(c: char) {
    || '\U{9}' <= c <= '\U{D}' || c == ' ' || c == '\U{85}' || c == '\U{A0}' || c == '\U{1680}'
    || '\U{2000}' <= c <= '\U{200A}' || c == '\U{2028}' || c == '\U{2029}' || c == '\U{202F}'
    || c == '\U{205F}' || c == '\U{3000}'
  }

  function TrimLeft(s: string): string { if s != [] && IsSpace(s[0]) then TrimLeft(s[1..]) else s }

  function TrimRight(s: string): string {
    if s != [] && IsSpace(s[|s| - 1]) then TrimRight(s[..|s| - 1]) else s
  }

  function TrimSpace(s: string): string { TrimRight(TrimLeft(s)) }

  /** The place of the last slash, or -1. */
  function LastSlash(s: string): (r: int)
    ensures -1 <= r < |s|
  {
    if s == [] then -1 else if s[|s| - 1] == '/' then |s| - 1 else LastSlash(s[..|s| - 1])
  }

  function FirstSlash(s: string): (r: nat)
    ensures r <= |s|
  {
    if s == [] then 0 else if s[0] == '/' then 0 else FirstSlash(s[1..]) + 1
  }

  /** filepath.Base and filepath.Dir of a clean relative path. */
  function Base(s: string): string { if s == [] then "." else s[LastSlash(s) + 1..] }

  function Dir(s: string): (r: string)
    ensures r != []
  {
    if LastSlash(s) < 0 then "." else if LastSlash(s) == 0 then "/" else s[..LastSlash(s)]
  }

  /** strings.TrimPrefix. */
  function TrimPrefix(s: string, prefix: string): string { if prefix <= s then s[|prefix|..] else s }

  // ---------------------------------------------------------------- what they do

  predicate Blank(s: string) { forall i :: 0 <= i < |s| ==> IsSpace(s[i]) }

  lemma {:induction false} TrimLeftIs(l: string, t: string)
    requires Blank(l) && (t == [] || !IsSpace(t[0]))
    ensures TrimLeft(l + t) == t
  {
    hide IsSpace;
    if l == [] {
      assert l + t == t;
    } else {
      assert (l + t)[1..] == l[1..] + t;
      TrimLeftIs(l[1..], t);
    }
  }

  lemma {:induction false} TrimRightIs(t: string, r: string)
    requires Blank(r) && (t == [] || !IsSpace(t[|t| - 1]))
    ensures TrimRight(t + r) == t
    decreases |r|
  {
    hide IsSpace;
    if r == [] {
      assert t + r == t;
    } else {
      assert (t + r)[..|t + r| - 1] == t + r[..|r| - 1];
      TrimRightIs(t, r[..|r| - 1]);
    }
  }

  /** Spaces around a text go, and nothing else does. */
  lemma TrimSpaceIs(l: string, t: string, r: string)
    requires Blank(l) && Blank(r) && t != [] && !IsSpace(t[0]) && !IsSpace(t[|t| - 1])
    ensures TrimSpace(l + t + r) == t
    ensures TrimSpace(l) == ""
  {
    hide IsSpace;
    assert l + t + r == l + (t + r);
    TrimLeftIs(l, t + r);
    TrimRightIs(t, r);
    TrimLeftIs(l, []);
    assert l + [] == l;
  }

  /** Among the first 128 characters, six are spaces. */
  lemma SpacesAre(c: char)
    requires c < '\U{80}'
    ensures IsSpace(c) <==> c in {'\t', '\n', '\U{B}', '\U{C}', '\r', ' '}
  {}

  /** Joined with a separator that is in none of them, pieces come out of a split as they went in. */
  lemma {:induction false} SplitOfJoin(ts: seq<string>, sep: char)
    requires ts != [] && forall t :: t in ts ==> sep !in t
    ensures Split(Join(ts, [sep]), sep) == ts
    decreases |ts|
  {
    var last := ts[|ts| - 1];
    assert last in ts;
    if |ts| == 1 {
      SplitGrows("", last, sep);
      assert "" + last == last && ts == [last];
      assert [""][0 := "" + last] == [last];
    } else {
      var front := ts[..|ts| - 1];
      SplitOfJoin(front, sep);
      var v := Join(front, [sep]) + [sep];
      assert v[..|v| - 1] == Join(front, [sep]);
      assert Split(v, sep) == front + [""];
      SplitGrows(v, last, sep);
      assert (front + [""])[|front| := "" + last] == ts;
    }
  }

  /** Text without a separator goes to the last piece. */
  lemma {:induction false} SplitGrows(v: string, w: string, sep: char)
    requires sep !in w
    ensures var ts := Split(v, sep); Split(v + w, sep) == ts[|ts| - 1 := ts[|ts| - 1] + w]
    decreases |w|
  {
    var ts := Split(v, sep);
    if w == [] {
      assert v + w == v && ts[|ts| - 1] + w == ts[|ts| - 1];
    } else {
      var u, c := w[..|w| - 1], w[|w| - 1];
      assert c in w && (v + w)[..|v + w| - 1] == v + u && w == u + [c];
      SplitGrows(v, u, sep);
      assert ts[|ts| - 1] + u + [c] == ts[|ts| - 1] + w;
    }
  }

  lemma {:induction false} LastSlashIs(front: string, b: string)
    requires '/' !in b
    ensures LastSlash(front + "/" + b) == |front|
    ensures LastSlash(b) == -1
    decreases |b|
  {
    var s := front + "/" + b;
    if b != [] {
      assert b[|b| - 1] in b && s[..|s| - 1] == front + "/" + b[..|b| - 1];
      LastSlashIs(front, b[..|b| - 1]);
    }
  }

  /** A path is taken apart at its last slash. */
  lemma BaseAndDir(front: string, b: string)
    requires '/' !in b && b != ""
    ensures Base(front + "/" + b) == b && Dir(front + "/" + b) == if front == "" then "/" else front
    ensures Base(b) == b && Dir(b) == "."
  {
    LastSlashIs(front, b);
    assert (front + "/" + b)[..|front|] == front && (front + "/" + b)[|front| + 1..] == b;
  }
}
