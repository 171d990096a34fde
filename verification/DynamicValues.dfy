/** Expansion of ${VAR} placeholders in policy values. */
module DynamicValues {
  import opened Basics

  datatype Error = Unterminated | EmptyName | Unknown(name: string) | UserOnly(name: string)

  datatype Result = Ok(value: string) | Err(error: Error)

  /** The resolved values of one run; user and fullUser are empty for computers. */
  datatype Context = Context(user: string, fullUser: string, hostname: string, fullHostname: string, domain: string,
                             isComputer: bool)

  function Values(ctx: Context): map<string, string> {
    map["USER" := ctx.user, "FULL_USER" := ctx.fullUser, "HOSTNAME" := ctx.hostname,
        "FULL_HOSTNAME" := ctx.fullHostname, "DOMAIN" := ctx.domain]
  }

  const USER_ONLY_VARS := {"USER", "FULL_USER"}

  // ---------------------------------------------------------------- the grammar

  /** A value is a sequence of plain characters and placeholders; a "${" without its "}" takes all
      the rest. */
  datatype Segment = Chr(c: char) | Var(name: string) | Open(tail: string)

  function Render(s: Segment): string {
    match s
    case Chr(c) => [c]
    case Var(n) => "${" + n + "}"
    case Open(t) => "${" + t
  }

  function RenderAll(ss: seq<Segment>): string {
    if ss == [] then "" else Render(ss[0]) + RenderAll(ss[1..])
  }

  /** No plain "${", names up to the first "}", and an open placeholder only at the end. */
  predicate Canonical(ss: seq<Segment>) {
    ss == [] ||
    (match ss[0]
     case Chr(c) => !(c == '$' && |ss| > 1 && ss[1] == Chr('{')) && Canonical(ss[1..])
     case Var(n) => '}' !in n && Canonical(ss[1..])
     case Open(t) => '}' !in t && |ss| == 1)
  }

  predicate StartsPlaceholder(v: string) { |v| >= 2 && v[0] == '$' && v[1] == '{' }

  /** The place of the first "}", or the length. */
  function Brace(v: string): (r: nat)
    ensures r <= |v| && (r < |v| ==> v[r] == '}') && '}' !in v[..r]
  {
    if v == [] || v[0] == '}' then 0 else Brace(v[1..]) + 1
  }

  function Parse(v: string): seq<Segment>
    decreases |v|
  {
    if v == [] then []
    else if !StartsPlaceholder(v) then [Chr(v[0])] + Parse(v[1..])
    else
      var rel := Brace(v[2..]);
      if rel == |v| - 2 then [Open(v[2..])] else [Var(v[2..2 + rel])] + Parse(v[3 + rel..])
  }

  lemma RenderCons(s: Segment, ss: seq<Segment>)
    ensures RenderAll([s] + ss) == Render(s) + RenderAll(ss)
  {
    hide Render;
    assert ([s] + ss)[1..] == ss;
  }

  lemma {:induction false} ParseRenders(v: string)
    ensures RenderAll(Parse(v)) == v
    decreases |v|
  {
    hide RenderAll;
    if v == [] {
      RenderNone();
    } else if !StartsPlaceholder(v) {
      ParseRenders(v[1..]);
      RenderCons(Chr(v[0]), Parse(v[1..]));
    } else {
      var rel := Brace(v[2..]);
      if rel == |v| - 2 {
        RenderCons(Open(v[2..]), []);
        RenderNone();
        assert [Open(v[2..])] + [] == [Open(v[2..])];
        assert v == "${" + v[2..] + "";
      } else {
        ParseRenders(v[3 + rel..]);
        RenderCons(Var(v[2..2 + rel]), Parse(v[3 + rel..]));
        assert v[2..][rel] == '}';
        assert v == "${" + v[2..2 + rel] + "}" + v[3 + rel..];
      }
    }
  }

  lemma RenderNone()
    ensures RenderAll([]) == ""
  {}

  lemma {:induction false} ParseIsCanonical(v: string)
    ensures Canonical(Parse(v))
    decreases |v|
  {
    hide Canonical;
    if v == [] {
      assert Canonical([]) by { NothingIsCanonical(); }
    } else if !StartsPlaceholder(v) {
      ParseIsCanonical(v[1..]);
      if v[1..] != [] { FirstChar(v[1..]); }
      CanonicalCons(Chr(v[0]), Parse(v[1..]));
    } else {
      var rel := Brace(v[2..]);
      if rel != |v| - 2 {
        ParseIsCanonical(v[3 + rel..]);
        assert v[2..2 + rel] == v[2..][..rel];
        CanonicalCons(Var(v[2..2 + rel]), Parse(v[3 + rel..]));
      } else {
        assert v[2..][..rel] == v[2..];
        NothingIsCanonical();
        CanonicalCons(Open(v[2..]), []);
        assert [Open(v[2..])] + [] == [Open(v[2..])];
      }
    }
  }

  lemma NothingIsCanonical()
    ensures Canonical([])
  {}

  lemma CanonicalCons(s: Segment, ss: seq<Segment>)
    requires Canonical(ss)
    ensures Canonical([s] + ss) <==>
            match s
            case Chr(c) => !(c == '$' && ss != [] && ss[0] == Chr('{'))
            case Var(n) => '}' !in n
            case Open(t) => '}' !in t && ss == []
  {
    assert ([s] + ss)[1..] == ss;
  }

  lemma {:induction false} BraceIs(n: string, rest: string)
    requires '}' !in n
    ensures Brace(n + "}" + rest) == |n|
  {
    if n == [] {
      assert n + "}" + rest == "}" + rest;
    } else {
      assert n[0] in n;
      assert (n + "}" + rest)[1..] == n[1..] + "}" + rest;
      BraceIs(n[1..], rest);
    }
  }

  lemma {:induction false} NoBrace(t: string)
    requires '}' !in t
    ensures Brace(t) == |t|
  {
    if t != [] {
      assert t[0] in t;
      NoBrace(t[1..]);
    }
  }

  /** A value has exactly one canonical parse. */
  lemma {:induction false} ParseIsUnique(ss: seq<Segment>)
    requires Canonical(ss)
    ensures Parse(RenderAll(ss)) == ss
    decreases |ss|
  {
    if ss != [] {
      var rest := RenderAll(ss[1..]);
      assert ss == [ss[0]] + ss[1..];
      match ss[0] {
        case Chr(c) =>
          ParseIsUnique(ss[1..]);
          FirstOfRest(ss);
          assert (Render(ss[0]) + rest)[1..] == rest;
        case Var(n) =>
          ParseIsUnique(ss[1..]);
          ParseVar(n, rest);
        case Open(t) =>
          assert ss[1..] == [] && "${" + t + "" == "${" + t;
          ParseOpen(t);
      }
    }
  }

  lemma ParseVar(n: string, rest: string)
    requires '}' !in n
    ensures Parse("${" + n + "}" + rest) == [Var(n)] + Parse(rest)
  {
    var v := "${" + n + "}" + rest;
    assert v == "${" + (n + "}" + rest);
    BraceIs(n, rest);
    assert v[2..] == n + "}" + rest && v[2..2 + |n|] == n && v[3 + |n|..] == rest;
  }

  lemma ParseOpen(t: string)
    requires '}' !in t
    ensures Parse("${" + t) == [Open(t)]
  {
    NoBrace(t);
    assert ("${" + t)[2..] == t;
  }

  lemma FirstOfRest(ss: seq<Segment>)
    requires Canonical(ss) && ss != [] && ss[0].Chr?
    ensures !StartsPlaceholder(Render(ss[0]) + RenderAll(ss[1..]))
  {
    if |ss| > 1 {
      assert ss[1..][0] == ss[1];
      var rest := Render(ss[1]) + RenderAll(ss[1..][1..]);
      assert rest[0] == Render(ss[1])[0];
    }
  }

  // ---------------------------------------------------------------- expansion

  function Resolve(s: Segment, ctx: Context, upper: string -> string): Result {
    match s
    case Chr(c) => Ok([c])
    case Open(_) => Err(Unterminated)
    case Var(n) =>
      if n == "" then Err(EmptyName)
      else if upper(n) !in Values(ctx) then Err(Unknown(n))
      else if ctx.isComputer && upper(n) in USER_ONLY_VARS then Err(UserOnly(n))
      else Ok(Values(ctx)[upper(n)])
  }

  function Then(a: Result, b: Result): Result {
    if a.Err? then a else if b.Err? then b else Ok(a.value + b.value)
  }

  /** Every segment is resolved once and the results are put together; the first error wins. What a
      variable stands for is never looked at again. */
  function ExpandAll(ss: seq<Segment>, ctx: Context, upper: string -> string): Result {
    if ss == [] then Ok("") else Then(Resolve(ss[0], ctx, upper), ExpandAll(ss[1..], ctx, upper))
  }

  function Expanded(v: string, ctx: Context, upper: string -> string): Result {
    ExpandAll(Parse(v), ctx, upper)
  }

  lemma ThenAssociative(a: Result, b: Result, c: Result)
    ensures Then(Then(a, b), c) == Then(a, Then(b, c))
  {
    if a.Ok? && b.Ok? && c.Ok? { assert a.value + b.value + c.value == a.value + (b.value + c.value); }
  }

  lemma ThenUnit(a: Result)
    ensures Then(Ok(""), a) == a && Then(a, Ok("")) == a
  {
    if a.Ok? { assert "" + a.value == a.value && a.value + "" == a.value; }
  }

  lemma {:induction false} ExpandConcat(a: seq<Segment>, b: seq<Segment>, ctx: Context, upper: string -> string)
    ensures ExpandAll(a + b, ctx, upper) == Then(ExpandAll(a, ctx, upper), ExpandAll(b, ctx, upper))
    decreases |a|
  {
    if a == [] {
      assert a + b == b;
      ThenUnit(ExpandAll(b, ctx, upper));
    } else {
      ExpandConcat(a[1..], b, ctx, upper);
      assert (a + b)[1..] == a[1..] + b;
      ThenAssociative(Resolve(a[0], ctx, upper), ExpandAll(a[1..], ctx, upper), ExpandAll(b, ctx, upper));
    }
  }

  /** Expansion succeeds exactly when every segment of the unique parse resolves. */
  lemma {:induction false} SucceedsIff(ss: seq<Segment>, ctx: Context, upper: string -> string)
    ensures ExpandAll(ss, ctx, upper).Ok? <==> forall i :: 0 <= i < |ss| ==> Resolve(ss[i], ctx, upper).Ok?
    ensures ExpandAll(ss, ctx, upper).Err? ==>
              exists i :: 0 <= i < |ss| && Resolve(ss[i], ctx, upper) == ExpandAll(ss, ctx, upper)
                          && forall j :: 0 <= j < i ==> Resolve(ss[j], ctx, upper).Ok?
    decreases |ss|
  {
    if ss != [] {
      var rest := ss[1..];
      SucceedsIff(rest, ctx, upper);
      assert forall i :: 0 < i < |ss| ==> ss[i] == rest[i - 1];
      if Resolve(ss[0], ctx, upper).Ok? && ExpandAll(rest, ctx, upper).Err? {
        var i :| 0 <= i < |rest| && Resolve(rest[i], ctx, upper) == ExpandAll(rest, ctx, upper)
                 && forall j :: 0 <= j < i ==> Resolve(rest[j], ctx, upper).Ok?;
        assert ss[i + 1] == rest[i];
      }
    }
  }

  ghost predicate HasMarker(v: string) { exists i :: 0 <= i < |v| - 1 && v[i] == '$' && v[i + 1] == '{' }

  lemma {:induction false} NoMarkerUnchanged(v: string, ctx: Context, upper: string -> string)
    requires !HasMarker(v)
    ensures Expanded(v, ctx, upper) == Ok(v)
    decreases |v|
  {
    if v != [] {
      assert !StartsPlaceholder(v);
      forall i | 0 <= i < |v[1..]| - 1 ensures !(v[1..][i] == '$' && v[1..][i + 1] == '{') {
        assert v[1..][i] == v[i + 1] && v[1..][i + 1] == v[i + 1 + 1];
      }
      NoMarkerUnchanged(v[1..], ctx, upper);
      assert Parse(v)[1..] == Parse(v[1..]);
      assert v == [v[0]] + v[1..];
    }
  }

  /** strings.Contains(value, "${"). */
  method ContainsMarker(value: string) returns (b: bool)
    ensures b <==> HasMarker(value)
  {
    var i := 0;
    while i + 1 < |value|
      invariant 0 <= i
      invariant forall j :: 0 <= j < i && j < |value| - 1 ==> !(value[j] == '$' && value[j + 1] == '{')
    {
      if value[i] == '$' && value[i + 1] == '{' {
        return true;
      }
      i := i + 1;
    }
    return false;
  }

  lemma OneStep(v: string, ctx: Context, upper: string -> string)
    requires v != []
    ensures !StartsPlaceholder(v) ==> Expanded(v, ctx, upper) == Then(Ok([v[0]]), Expanded(v[1..], ctx, upper))
    ensures StartsPlaceholder(v) && Brace(v[2..]) == |v| - 2 ==> Expanded(v, ctx, upper) == Err(Unterminated)
    ensures StartsPlaceholder(v) && Brace(v[2..]) < |v| - 2 ==>
              var rel := Brace(v[2..]);
              Expanded(v, ctx, upper) == Then(Resolve(Var(v[2..2 + rel]), ctx, upper), Expanded(v[3 + rel..], ctx, upper))
  {
    hide ExpandAll, Resolve;
    if !StartsPlaceholder(v) {
      ExpandCons(Chr(v[0]), Parse(v[1..]), ctx, upper);
      ResolvePlain(v[0], "", ctx, upper);
    } else if Brace(v[2..]) == |v| - 2 {
      ExpandCons(Open(v[2..]), [], ctx, upper);
      assert [Open(v[2..])] + [] == [Open(v[2..])];
      ResolvePlain(v[0], v[2..], ctx, upper);
    } else {
      var rel := Brace(v[2..]);
      ExpandCons(Var(v[2..2 + rel]), Parse(v[3 + rel..]), ctx, upper);
    }
  }

  lemma ExpandCons(s: Segment, ss: seq<Segment>, ctx: Context, upper: string -> string)
    ensures ExpandAll([s] + ss, ctx, upper) == Then(Resolve(s, ctx, upper), ExpandAll(ss, ctx, upper))
  {
    hide Resolve;
    assert ([s] + ss)[1..] == ss;
  }

  lemma ResolvePlain(c: char, tail: string, ctx: Context, upper: string -> string)
    ensures Resolve(Chr(c), ctx, upper) == Ok([c]) && Resolve(Open(tail), ctx, upper) == Err(Unterminated)
  {}

  /** Replaces the placeholders of a value in one pass from left to right. */
  method Expand(value: string, ctx: Context, upper: string -> string) returns (r: Result)
    ensures r == Expanded(value, ctx, upper)
  {
    hide Expanded;
    var contains := ContainsMarker(value);
    if !contains {
      NoMarkerUnchanged(value, ctx, upper);
      return Ok(value);
    }
    var values := Values(ctx);
    var b: string := "";
    var i := 0;
    ghost var all := Expanded(value, ctx, upper);
    ThenUnit(all);
    assert value[0..] == value;
    while i < |value|
      invariant 0 <= i <= |value|
      invariant all == Then(Ok(b), Expanded(value[i..], ctx, upper))
    {
      ghost var rest := value[i..];
      OneStep(rest, ctx, upper);
      if value[i] != '$' || i + 1 >= |value| || value[i + 1] != '{' {
        assert rest[1..] == value[i + 1..];
        ThenAssociative(Ok(b), Ok([value[i]]), Expanded(value[i + 1..], ctx, upper));
        b := b + [value[i]];
        i := i + 1;
        continue;
      }
      assert rest[2..] == value[i + 2..];
      var rel := Brace(value[i + 2..]);
      if rel == |value[i + 2..]| {
        return Err(Unterminated);
      }
      var name := value[i + 2..i + 2 + rel];
      assert rest[2..2 + rel] == name && rest[3 + rel..] == value[i + 2 + rel + 1..];
      if name == "" {
        return Err(EmptyName);
      }
      var canonical := upper(name);
      if canonical !in values {
        return Err(Unknown(name));
      }
      if ctx.isComputer && canonical in USER_ONLY_VARS {
        return Err(UserOnly(name));
      }
      ThenAssociative(Ok(b), Ok(values[canonical]), Expanded(value[i + 2 + rel + 1..], ctx, upper));
      b := b + values[canonical];
      i := i + 2 + rel + 1;
    }
    assert value[i..] == "";
    assert Expanded("", ctx, upper) == Ok("") by { NothingToExpand(ctx, upper); }
    ThenUnit(Ok(b));
    return Ok(b);
  }

  lemma NothingToExpand(ctx: Context, upper: string -> string)
    ensures Expanded("", ctx, upper) == Ok("")
  {}

  // ---------------------------------------------------------------- cutting a value in two

  /** A placeholder straddles the cut: one is left open by a, or its "${" is cut itself. */
  predicate Straddles(a: string, b: string) {
    b != [] && ((Parse(a) != [] && Parse(a)[|Parse(a)| - 1].Open?)
                || (a != [] && a[|a| - 1] == '$' && b[0] == '{'))
  }

  lemma {:induction false} RenderConcat(a: seq<Segment>, b: seq<Segment>)
    ensures RenderAll(a + b) == RenderAll(a) + RenderAll(b)
    decreases |a|
  {
    hide RenderAll;
    if a == [] {
      RenderNone();
      assert a + b == b && "" + RenderAll(b) == RenderAll(b);
    } else {
      RenderConcat(a[1..], b);
      RenderCons(a[0], a[1..]);
      RenderCons(a[0], a[1..] + b);
      assert a + b == [a[0]] + (a[1..] + b) && a == [a[0]] + a[1..];
      Associative(Render(a[0]), RenderAll(a[1..]), RenderAll(b));
    }
  }

  /** Two canonical parses can be put together unless a placeholder is open or a "${" arises. */
  lemma {:induction false} CanonicalConcat(a: seq<Segment>, b: seq<Segment>)
    requires Canonical(a) && Canonical(b)
    ensures Canonical(a + b) <==>
            a == [] || b == [] || !(a[|a| - 1].Open? || (a[|a| - 1] == Chr('$') && b[0] == Chr('{')))
    decreases |a|
  {
    if a == [] {
      assert a + b == b;
    } else if b == [] {
      assert a + b == a;
    } else {
      assert (a + b)[1..] == a[1..] + b;
      CanonicalConcat(a[1..], b);
      if |a| > 1 { assert a[1..][|a| - 2] == a[|a| - 1] && (a + b)[1] == a[1]; } else { assert (a + b)[1] == b[0]; }
    }
  }

  /** The last character of a value, seen in its parse. */
  lemma {:induction false} LastChar(ss: seq<Segment>)
    requires ss != [] && Canonical(ss)
    ensures var v := RenderAll(ss);
            v != [] && (ss[|ss| - 1].Chr? ==> v[|v| - 1] == ss[|ss| - 1].c) && (ss[|ss| - 1].Var? ==> v[|v| - 1] == '}')
    decreases |ss|
  {
    hide RenderAll;
    assert ss == [ss[0]] + ss[1..];
    RenderCons(ss[0], ss[1..]);
    if |ss| > 1 {
      LastChar(ss[1..]);
    } else {
      assert ss[1..] == [];
      RenderNone();
      assert Render(ss[0]) + "" == Render(ss[0]);
    }
  }

  lemma FirstChar(v: string)
    requires v != []
    ensures Parse(v) != [] && (Parse(v)[0] == Chr('{') <==> v[0] == '{')
  {}

  /** Main result: a value can be parsed, and so expanded, in two parts exactly when no placeholder
      straddles the cut. */
  lemma CutIff(a: string, b: string)
    ensures Parse(a + b) == Parse(a) + Parse(b) <==> !Straddles(a, b)
    ensures !Straddles(a, b) ==>
              forall ctx, upper :: Expanded(a + b, ctx, upper) == Then(Expanded(a, ctx, upper), Expanded(b, ctx, upper))
  {
    hide Parse, Canonical, RenderAll, ExpandAll;
    var pa, pb := Parse(a), Parse(b);
    RenderNone();
    ParseIsCanonical(a);
    ParseIsCanonical(b);
    ParseIsCanonical(a + b);
    ParseRenders(a);
    ParseRenders(b);
    RenderConcat(pa, pb);
    CanonicalConcat(pa, pb);
    if pa != [] { LastChar(pa); }
    if pb != [] { LastChar(pb); }
    if b != [] { FirstChar(b); }
    if Canonical(pa + pb) { ParseIsUnique(pa + pb); }
    if !Straddles(a, b) {
      forall ctx, upper ensures Expanded(a + b, ctx, upper) == Then(Expanded(a, ctx, upper), Expanded(b, ctx, upper)) {
        ExpandConcat(pa, pb, ctx, upper);
      }
    }
  }

  // ---------------------------------------------------------------- what each variable stands for

  /** A placeholder on its own. */
  lemma OnePlaceholder(n: string, ctx: Context, upper: string -> string)
    requires '}' !in n
    ensures Expanded("${" + n + "}", ctx, upper) == Resolve(Var(n), ctx, upper)
  {
    assert "${" + n + "}" + "" == "${" + n + "}";
    ParseVar(n, "");
    assert Parse("") == [] && [Var(n)] + [] == [Var(n)];
    ExpandCons(Var(n), [], ctx, upper);
    ThenUnit(Resolve(Var(n), ctx, upper));
  }

  /** The five variables, by what their name is in upper case. */
  lemma VariablesMean(n: string, ctx: Context, upper: string -> string)
    requires n != "" && '}' !in n
    ensures var r := Expanded("${" + n + "}", ctx, upper);
            && (upper(n) == "USER" ==> r == if ctx.isComputer then Err(UserOnly(n)) else Ok(ctx.user))
            && (upper(n) == "FULL_USER" ==> r == if ctx.isComputer then Err(UserOnly(n)) else Ok(ctx.fullUser))
            && (upper(n) == "HOSTNAME" ==> r == Ok(ctx.hostname))
            && (upper(n) == "FULL_HOSTNAME" ==> r == Ok(ctx.fullHostname))
            && (upper(n) == "DOMAIN" ==> r == Ok(ctx.domain))
            && (upper(n) !in {"USER", "FULL_USER", "HOSTNAME", "FULL_HOSTNAME", "DOMAIN"} ==> r == Err(Unknown(n)))
  {
    OnePlaceholder(n, ctx, upper);
    NamesApart();
  }

  lemma NamesApart()
    ensures "USER" != "FULL_USER" && "USER" != "HOSTNAME" && "USER" != "FULL_HOSTNAME" && "USER" != "DOMAIN"
    ensures "FULL_USER" != "HOSTNAME" && "FULL_USER" != "FULL_HOSTNAME" && "FULL_USER" != "DOMAIN"
    ensures "HOSTNAME" != "FULL_HOSTNAME" && "HOSTNAME" != "DOMAIN" && "FULL_HOSTNAME" != "DOMAIN"
  {
    assert |"USER"| == 4 && |"FULL_USER"| == 9 && |"HOSTNAME"| == 8 && |"FULL_HOSTNAME"| == 13 && |"DOMAIN"| == 6;
  }

  /** Placeholders that are none. */
  lemma Malformed(tail: string, ctx: Context, upper: string -> string)
    ensures Expanded("${}", ctx, upper) == Err(EmptyName)
    ensures '}' !in tail ==> Expanded("${" + tail, ctx, upper) == Err(Unterminated)
  {
    OnePlaceholder("", ctx, upper);
    assert "${" + "" + "}" == "${}";
    if '}' !in tail {
      ParseOpen(tail);
      ExpandCons(Open(tail), [], ctx, upper);
      assert [Open(tail)] + [] == [Open(tail)];
    }
  }
}
