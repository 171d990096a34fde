/** The suggestion helper of the command line: the edit distance behind "Did you mean this?".
    Strings are sequences of bytes, as the program indexes them; case folding is a parameter. */
module Levenshtein {

  type Byte = bv8

  type Str = seq<Byte>

  // ---------------------------------------------------------------- edit scripts

  /** One keystroke: the alphabet of edit scripts. */
  datatype Edit =
    | Insert(pos: nat, c: Byte)
    | Delete(pos: nat)
    | Substitute(pos: nat, c: Byte)

  predicate Applicable(e: Edit, s: Str) {
    match e
    case Insert(p, _) => p <= |s|
    case Delete(p) => p < |s|
    case Substitute(p, _) => p < |s|
  }

  function Apply(e: Edit, s: Str): Str
    requires Applicable(e, s)
  {
    match e
    case Insert(p, c) => s[..p] + [c] + s[p..]
    case Delete(p) => s[..p] + s[p + 1..]
    case Substitute(p, c) => s[p := c]
  }

  /** The script, run from its first edit to its last, turns s into t. */
  predicate Turns(script: seq<Edit>, s: Str, t: Str) {
    if script == [] then s == t
    else Applicable(script[0], s) && Turns(script[1..], Apply(script[0], s), t)
  }

  // ---------------------------------------------------------------- the recurrence

  function Min(a: int, b: int): int { if b < a then b else a }

  function Init(s: Str): Str
    requires s != []
  {
    s[..|s| - 1]
  }

  function Last(s: Str): Byte
    requires s != []
  {
    s[|s| - 1]
  }

  /** The table's recurrence on prefixes: equal last bytes take the diagonal and never look at
      the two other neighbours. */
  function Distance(s: Str, t: Str): nat
    decreases |s| + |t|
  {
    if s == [] then |t|
    else if t == [] then |s|
    else if Last(s) == Last(t) then Distance(Init(s), Init(t))
    else 1 + Min(Min(Distance(Init(s), t), Distance(s, Init(t))), Distance(Init(s), Init(t)))
  }

  lemma {:induction false} Symmetric(s: Str, t: Str)
    ensures Distance(s, t) == Distance(t, s)
    decreases |s| + |t|
  {
    if s != [] && t != [] {
      Symmetric(Init(s), Init(t));
      Symmetric(Init(s), t);
      Symmetric(s, Init(t));
    }
  }

  /** Neighbouring cells of the table differ by at most one. */
  lemma {:induction false} Neighbours(s: Str, t: Str)
    requires t != []
    ensures -1 <= Distance(s, t) - Distance(s, Init(t)) <= 1
    decreases |s| + |t|
  {
    if s != [] {
      // the same fact one row up, read along the other axis
      Neighbours(Init(t), s);
      Symmetric(Init(t), s);
      Symmetric(Init(t), Init(s));
      Neighbours(Init(s), t);
    }
  }

  /** The three moves are always allowed, so the greedy diagonal loses nothing. */
  lemma Moves(s: Str, t: Str)
    ensures s != [] ==> Distance(s, t) <= Distance(Init(s), t) + 1
    ensures t != [] ==> Distance(s, t) <= Distance(s, Init(t)) + 1
    ensures s != [] && t != [] ==>
              Distance(s, t) <= Distance(Init(s), Init(t)) + if Last(s) == Last(t) then 0 else 1
  {
    if s != [] {
      Neighbours(t, s);
      Symmetric(t, s);
      Symmetric(t, Init(s));
    }
    if t != [] { Neighbours(s, t); }
  }

  lemma {:induction false} Triangle(a: Str, b: Str, c: Str)
    ensures Distance(a, c) <= Distance(a, b) + Distance(b, c)
    decreases |a| + |b| + |c|
  {
    Moves(a, c);
    if a != [] {
      Triangle(Init(a), b, c);
      if b != [] { Triangle(Init(a), Init(b), c); }
      if c != [] && b != [] { Triangle(Init(a), Init(b), Init(c)); }
    }
    if c != [] {
      Triangle(a, b, Init(c));
      if b != [] { Triangle(a, Init(b), Init(c)); }
    }
    if b != [] { Triangle(a, Init(b), c); }
  }

  lemma {:induction false} ZeroIffEqual(s: Str, t: Str)
    ensures Distance(s, t) == 0 <==> s == t
    decreases |s|
  {
    if s != [] && t != [] {
      ZeroIffEqual(Init(s), Init(t));
      assert s == Init(s) + [Last(s)] && t == Init(t) + [Last(t)];
    }
  }

  lemma {:induction false} Bounds(s: Str, t: Str)
    ensures |s| - |t| <= Distance(s, t)
    ensures |t| - |s| <= Distance(s, t)
    ensures Distance(s, t) <= if |s| < |t| then |t| else |s|
    decreases |s| + |t|
  {
    if s != [] && t != [] {
      Bounds(Init(s), Init(t));
      Bounds(Init(s), t);
      Bounds(s, Init(t));
    }
  }

  // ---------------------------------------------------------------- no script is shorter

  lemma {:induction false} CommonSuffix(u: Str, v: Str, w: Str)
    ensures Distance(u + w, v + w) <= Distance(u, v)
    decreases |w|
  {
    if w == [] {
      assert u + w == u && v + w == v;
    } else {
      CommonSuffix(u, v, Init(w));
      assert Init(u + w) == u + Init(w) && Init(v + w) == v + Init(w);
    }
  }

  /** Two words that differ only in their last byte, or by having none, are one edit apart. */
  lemma LastByte(head: Str, a: Byte, b: Byte)
    ensures Distance(head, head + [b]) <= 1
    ensures Distance(head + [a], head) <= 1
    ensures Distance(head + [a], head + [b]) <= 1
  {
    ZeroIffEqual(head, head);
    assert Init(head + [a]) == head == Init(head + [b]);
    Moves(head, head + [b]);
    Moves(head + [a], head);
    Moves(head + [a], head + [b]);
  }

  lemma OneEdit(e: Edit, s: Str)
    requires Applicable(e, s)
    ensures Distance(s, Apply(e, s)) <= 1
  {
    var p := e.pos;
    var u, v, w := Around(e, s);
    CommonSuffix(u, v, w);
    LastByte(s[..p], if e.Insert? then 0 else s[p], if e.Delete? then 0 else e.c);
  }

  /** What an edit leaves alone behind the byte it touches. */
  lemma Around(e: Edit, s: Str) returns (u: Str, v: Str, w: Str)
    requires Applicable(e, s)
    ensures s == u + w && Apply(e, s) == v + w
    ensures u == if e.Insert? then s[..e.pos] else s[..e.pos] + [s[e.pos]]
    ensures v == if e.Delete? then s[..e.pos] else s[..e.pos] + [e.c]
  {
    u := if e.Insert? then s[..e.pos] else s[..e.pos] + [s[e.pos]];
    v := if e.Delete? then s[..e.pos] else s[..e.pos] + [e.c];
    w := if e.Insert? then s[e.pos..] else s[e.pos + 1..];
  }

  lemma {:induction false} NoShorterScript(script: seq<Edit>, s: Str, t: Str)
    requires Turns(script, s, t)
    ensures Distance(s, t) <= |script|
    decreases |script|
  {
    if script == [] {
      ZeroIffEqual(s, t);
    } else {
      var next := Apply(script[0], s);
      NoShorterScript(script[1..], next, t);
      OneEdit(script[0], s);
      Triangle(s, next, t);
    }
  }

  // ---------------------------------------------------------------- a script that short exists

  lemma {:induction false} TurnsConcat(first: seq<Edit>, second: seq<Edit>, s: Str, t: Str, u: Str)
    requires Turns(first, s, t) && Turns(second, t, u)
    ensures Turns(first + second, s, u)
    decreases |first|
  {
    if first == [] {
      assert first + second == second;
    } else {
      TurnsConcat(first[1..], second, Apply(first[0], s), t, u);
      assert (first + second)[1..] == first[1..] + second;
    }
  }

  lemma {:induction false} TurnsUnder(script: seq<Edit>, s: Str, t: Str, w: Str)
    requires Turns(script, s, t)
    ensures Turns(script, s + w, t + w)
    decreases |script|
  {
    if script != [] {
      var e := script[0];
      assert Apply(e, s + w) == Apply(e, s) + w;
      TurnsUnder(script[1..], Apply(e, s), t, w);
    }
  }

  /** A shortest script, read off the recurrence. */
  ghost function Script(s: Str, t: Str): seq<Edit>
    decreases |s| + |t|
  {
    if s == [] && t == [] then []
    else if s == [] then Script(s, Init(t)) + [Insert(|t| - 1, Last(t))]
    else if t == [] then [Delete(|s| - 1)] + Script(Init(s), t)
    else if Last(s) == Last(t) then Script(Init(s), Init(t))
    else if Distance(s, t) == 1 + Distance(Init(s), t) then [Delete(|s| - 1)] + Script(Init(s), t)
    else if Distance(s, t) == 1 + Distance(s, Init(t)) then Script(s, Init(t)) + [Insert(|t| - 1, Last(t))]
    else Script(Init(s), Init(t)) + [Substitute(|t| - 1, Last(t))]
  }

  lemma {:induction false} ScriptReachesDistance(s: Str, t: Str)
    ensures Turns(Script(s, t), s, t) && |Script(s, t)| == Distance(s, t)
    decreases |s| + |t|
  {
    if t != [] {
      ScriptReachesDistance(s, Init(t));
      AppendLast(Script(s, Init(t)), s, t);
    }
    if s != [] {
      ScriptReachesDistance(Init(s), t);
      DropLast(Script(Init(s), t), s, t);
    }
    if s != [] && t != [] {
      ScriptReachesDistance(Init(s), Init(t));
      Diagonal(Script(Init(s), Init(t)), s, t);
    }
  }

  lemma AppendLast(script: seq<Edit>, s: Str, t: Str)
    requires t != [] && Turns(script, s, Init(t))
    ensures Turns(script + [Insert(|t| - 1, Last(t))], s, t)
  {
    assert Apply(Insert(|t| - 1, Last(t)), Init(t)) == t;
    LastStep(Insert(|t| - 1, Last(t)), Init(t), t);
    TurnsConcat(script, [Insert(|t| - 1, Last(t))], s, Init(t), t);
  }

  lemma DropLast(script: seq<Edit>, s: Str, t: Str)
    requires s != [] && Turns(script, Init(s), t)
    ensures Turns([Delete(|s| - 1)] + script, s, t)
  {
    assert Apply(Delete(|s| - 1), s) == Init(s);
    LastStep(Delete(|s| - 1), s, Init(s));
    TurnsConcat([Delete(|s| - 1)], script, s, Init(s), t);
  }

  lemma Diagonal(script: seq<Edit>, s: Str, t: Str)
    requires s != [] && t != [] && Turns(script, Init(s), Init(t))
    ensures Last(s) == Last(t) ==> Turns(script, s, t)
    ensures Turns(script + [Substitute(|t| - 1, Last(t))], s, t)
  {
    hide Turns, Apply, Applicable, Init, Last;
    var x := [Last(s)];
    TurnsUnder(script, Init(s), Init(t), x);
    InitLast(s);
    InitLast(t);
    SubstituteLast(t, Last(s));
    LastStep(Substitute(|t| - 1, Last(t)), Init(t) + x, t);
    TurnsConcat(script, [Substitute(|t| - 1, Last(t))], s, Init(t) + x, t);
  }

  lemma InitLast(s: Str)
    requires s != []
    ensures Init(s) + [Last(s)] == s
  {}

  lemma SubstituteLast(t: Str, c: Byte)
    requires t != []
    ensures Applicable(Substitute(|t| - 1, Last(t)), Init(t) + [c])
    ensures Apply(Substitute(|t| - 1, Last(t)), Init(t) + [c]) == t
  {}

  lemma LastStep(e: Edit, s: Str, t: Str)
    requires Applicable(e, s) && Apply(e, s) == t
    ensures Turns([e], s, t)
  {
    assert [e][1..] == [];
  }

  /** Main result: the recurrence is the length of a shortest edit script. */
  lemma DistanceIsMinimal(s: Str, t: Str)
    ensures exists script :: Turns(script, s, t) && |script| == Distance(s, t)
    ensures forall script :: Turns(script, s, t) ==> Distance(s, t) <= |script|
  {
    ScriptReachesDistance(s, t);
    forall script | Turns(script, s, t) ensures Distance(s, t) <= |script| {
      NoShorterScript(script, s, t);
    }
  }

  // ---------------------------------------------------------------- the table and its user

  function Folded(s: Str, ignoreCase: bool, lower: Str -> Str): Str {
    if ignoreCase then lower(s) else s
  }

  /** What the table is to hold at row i and column j. */
  function Cell(s: Str, t: Str, i: nat, j: nat): nat
    requires i <= |s| && j <= |t|
  {
    Distance(s[..i], t[..j])
  }

  /** The first `rows` cells of a column are final. */
  ghost predicate Right(d: array2<nat>, s: Str, t: Str, rows: nat, j: nat)
    requires rows <= |s| + 1 == d.Length0 && j <= |t| && |t| + 1 == d.Length1
    reads d
  {
    forall i :: 0 <= i < rows ==> d[i, j] == Cell(s, t, i, j)
  }

  /** The first `cols` columns are final. */
  ghost predicate Columns(d: array2<nat>, s: Str, t: Str, cols: nat)
    requires |s| + 1 == d.Length0 && cols <= |t| + 1 == d.Length1
    reads d
  {
    forall i, k :: 0 <= i <= |s| && 0 <= k < cols ==> d[i, k] == Cell(s, t, i, k)
  }

  lemma CellStep(s: Str, t: Str, i: nat, j: nat)
    requires 0 < i <= |s| && 0 < j <= |t|
    ensures Cell(s, t, i, j) ==
            if s[i - 1] == t[j - 1] then Cell(s, t, i - 1, j - 1)
            else 1 + Min(Min(Cell(s, t, i - 1, j), Cell(s, t, i, j - 1)), Cell(s, t, i - 1, j - 1))
  {
    assert Init(s[..i]) == s[..i - 1] && Init(t[..j]) == t[..j - 1];
  }

  lemma Edges(s: Str, t: Str)
    ensures forall i :: 0 <= i <= |s| ==> Cell(s, t, i, 0) == i
    ensures forall j :: 0 <= j <= |t| ==> Cell(s, t, 0, j) == j
  {}

  lemma Corner(s: Str, t: Str)
    ensures Cell(s, t, |s|, |t|) == Distance(s, t)
  {
    assert s[..|s|] == s && t[..|t|] == t;
  }

  /** Fills the whole table column by column and returns its last cell. */
  method Ld(s0: Str, t0: Str, ignoreCase: bool, lower: Str -> Str) returns (r: nat)
    ensures exists script ::
              Turns(script, Folded(s0, ignoreCase, lower), Folded(t0, ignoreCase, lower)) && |script| == r
    ensures forall script ::
              Turns(script, Folded(s0, ignoreCase, lower), Folded(t0, ignoreCase, lower)) ==> r <= |script|
    ensures r == if ignoreCase then Distance(lower(s0), lower(t0)) else Distance(s0, t0)
  {
    var s, t := s0, t0;
    if ignoreCase {
      s := lower(s);
      t := lower(t);
    }
    hide Cell, Turns;
    Edges(s, t);
    var d := new nat[|s| + 1, |t| + 1];
    for i := 0 to |s| + 1
      invariant forall k :: 0 <= k < i ==> d[k, 0] == k
    {
      d[i, 0] := i;
    }
    for j := 0 to |t| + 1
      invariant forall k :: 0 <= k <= |s| ==> d[k, 0] == k
      invariant forall k :: 0 <= k < j ==> d[0, k] == k
    {
      d[0, j] := j;
    }
    for j := 1 to |t| + 1
      invariant forall k :: 0 <= k <= |t| ==> d[0, k] == k
      invariant forall k :: 0 <= k <= |s| ==> d[k, 0] == k
      invariant Columns(d, s, t, j)
    {
      for i := 1 to |s| + 1
        invariant forall k :: 0 <= k <= |t| ==> d[0, k] == k
        invariant forall k :: 0 <= k <= |s| ==> d[k, 0] == k
        invariant Columns(d, s, t, j)
        invariant Right(d, s, t, i, j)
      {
        CellStep(s, t, i, j);
        assert d[i - 1, j] == Cell(s, t, i - 1, j);
        if s[i - 1] == t[j - 1] {
          d[i, j] := d[i - 1, j - 1];
        } else {
          var minValue := d[i - 1, j];
          if d[i, j - 1] < minValue {
            minValue := d[i, j - 1];
          }
          if d[i - 1, j - 1] < minValue {
            minValue := d[i - 1, j - 1];
          }
          d[i, j] := minValue + 1;
        }
      }
    }
    assert d[|s|, |t|] == Cell(s, t, |s|, |t|);
    r := d[|s|, |t|];
    Corner(s, t);
    DistanceIsMinimal(s, t);
  }

  /** A candidate is suggested exactly when a short enough script reaches it or it extends what was
      typed; otherwise the answer is empty. */
  method SuggestsByPrefixOrLd(typedName: Str, candidate: Str, minDistance: int, lower: Str -> Str)
    returns (r: Str)
    ensures (exists script :: Turns(script, lower(typedName), lower(candidate)) && |script| <= minDistance)
            || lower(typedName) <= lower(candidate)
            ==> r == candidate
    ensures !(exists script :: Turns(script, lower(typedName), lower(candidate)) && |script| <= minDistance)
            && !(lower(typedName) <= lower(candidate))
            ==> r == []
  {
    var levenshteinDistance := Ld(typedName, candidate, true, lower);
    var suggestByPrefix := lower(typedName) <= lower(candidate);
    if !(levenshteinDistance <= minDistance) && !suggestByPrefix {
      return [];
    }
    return candidate;
  }
}
