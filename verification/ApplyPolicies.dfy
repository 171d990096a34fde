/** The rule pipeline of the policy manager: merge, drop what needs a subscription, expand
    placeholders in place, hand the rules out and save the GPOs. Rules live in arrays, as the
    program's slices do, so that what is expanded and what is saved could be the same memory. */
module ApplyPolicies {
  import opened Basics
  import opened Entries
  import Merge
  import MergeLaws
  import DV = DynamicValues

  const PRO_ONLY_RULES := ["privilege", "scripts", "mount", "apparmor", "proxy", "certificate"]

  /** A GPO with its rules in memory. */
  datatype StoredGPO = StoredGPO(id: string, name: string, rules: map<string, array<Entry>>)

  ghost function ArraysOf(rules: map<string, array<Entry>>): set<object> { set t | t in rules :: rules[t] }

  function Contents(rules: map<string, array<Entry>>): map<string, seq<Entry>>
    reads ArraysOf(rules)
  {
    map t | t in rules :: rules[t][..]
  }

  function ContentsOf(g: StoredGPO): GPO
    reads ArraysOf(g.rules)
  {
    GPO(g.id, g.name, Contents(g.rules))
  }

  ghost function AllArrays(gpos: seq<StoredGPO>): set<object> {
    set i, t | 0 <= i < |gpos| && t in gpos[i].rules :: gpos[i].rules[t] as object
  }

  function ContentsUpTo(gpos: seq<StoredGPO>, n: nat): seq<GPO>
    requires n <= |gpos|
    reads AllArrays(gpos)
  {
    if n == 0 then [] else ContentsUpTo(gpos, n - 1) + [ContentsOf(gpos[n - 1])]
  }

  function ContentsAll(gpos: seq<StoredGPO>): seq<GPO>
    reads AllArrays(gpos)
  {
    ContentsUpTo(gpos, |gpos|)
  }

  // ---------------------------------------------------------------- what is to be handed out

  /** Without a subscription the rules of Pro-only types are empty. */
  function Allowed(rules: map<string, seq<Entry>>, subscribed: bool): map<string, seq<Entry>> {
    map t | t in rules :: if !subscribed && ProOnly(t) then [] else rules[t]
  }

  predicate ProOnly(t: string) { t in PRO_ONLY_RULES }

  function ExpandEntry(e: Entry, ctx: DV.Context, upper: string -> string): Option<Entry> {
    if e.disabled then Some(e)
    else match DV.Expanded(e.value, ctx, upper)
         case Ok(v) => Some(e.(value := v))
         case Err(_) => None
  }

  /** Every entry expanded once, disabled ones left as they are. */
  ghost predicate ExpandedFrom(after: seq<Entry>, before: seq<Entry>, ctx: DV.Context, upper: string -> string) {
    |after| == |before| && forall i :: 0 <= i < |before| ==> ExpandEntry(before[i], ctx, upper) == Some(after[i])
  }

  ghost predicate BadEntry(e: Entry, ctx: DV.Context, upper: string -> string) { ExpandEntry(e, ctx, upper).None? }

  /** What the error of a bad entry may be. */
  ghost predicate BadWith(e: Entry, err: DV.Error, ctx: DV.Context, upper: string -> string) {
    !e.disabled && DV.Expanded(e.value, ctx, upper) == DV.Err(err)
  }

  ghost predicate AnyBadWith(rules: map<string, seq<Entry>>, err: DV.Error, ctx: DV.Context, upper: string -> string) {
    exists t, i :: t in rules && 0 <= i < |rules[t]| && BadWith(rules[t][i], err, ctx, upper)
  }

  ghost predicate AnyBad(rules: map<string, seq<Entry>>, ctx: DV.Context, upper: string -> string) {
    exists t, i :: t in rules && 0 <= i < |rules[t]| && BadEntry(rules[t][i], ctx, upper)
  }

  /** A bad entry in one of these types, and in none of them. */
  ghost predicate BadAmong(rules: map<string, seq<Entry>>, ts: set<string>, ctx: DV.Context, upper: string -> string) {
    exists t, i :: t in rules && t in ts && 0 <= i < |rules[t]| && BadEntry(rules[t][i], ctx, upper)
  }

  ghost predicate BadElsewhere(rules: map<string, seq<Entry>>, ts: set<string>, ctx: DV.Context, upper: string -> string) {
    exists t, i :: t in rules && t !in ts && 0 <= i < |rules[t]| && BadEntry(rules[t][i], ctx, upper)
  }

  lemma AnyBadIsSomewhere(rules: map<string, seq<Entry>>, ts: set<string>, ctx: DV.Context, upper: string -> string)
    ensures AnyBad(rules, ctx, upper) <==> BadAmong(rules, ts, ctx, upper) || BadElsewhere(rules, ts, ctx, upper)
  {
    hide BadEntry;
    if AnyBad(rules, ctx, upper) {
      var t, i :| t in rules && 0 <= i < |rules[t]| && BadEntry(rules[t][i], ctx, upper);
      assert t in ts ==> BadAmong(rules, ts, ctx, upper);
      assert t !in ts ==> BadElsewhere(rules, ts, ctx, upper);
    }
  }

  /** The last "@" of a name, or -1. */
  function LastAt(s: string): (r: int)
    ensures -1 <= r < |s|
  {
    if s == [] then -1 else if s[|s| - 1] == '@' then |s| - 1 else LastAt(s[..|s| - 1])
  }

  function ContextFor(objectName: string, isComputer: bool, hostname: string, machineDomain: string): Option<DV.Context> {
    var full := if machineDomain != "" && '.' !in hostname then hostname + "." + machineDomain else hostname;
    if isComputer then Some(DV.Context("", "", hostname, full, machineDomain, true))
    else
      var at := LastAt(objectName);
      if at == -1 then None
      else Some(DV.Context(objectName[..at], objectName, hostname, full, objectName[at + 1..], false))
  }

  // ---------------------------------------------------------------- the steps

  ghost predicate Apart(rules: map<string, array<Entry>>) {
    forall t, t' :: t in rules && t' in rules && t != t' ==> rules[t] != rules[t']
  }

  /** The same, array by array. */
  ghost predicate Hold(gpos: seq<StoredGPO>, gs: seq<GPO>)
    reads AllArrays(gpos)
  {
    && |gs| == |gpos|
    && (forall i :: 0 <= i < |gpos| ==>
                      gs[i].id == gpos[i].id && gs[i].name == gpos[i].name && gs[i].rules.Keys == gpos[i].rules.Keys)
    && forall i, t :: 0 <= i < |gpos| && t in gpos[i].rules ==> gs[i].rules[t] == gpos[i].rules[t][..]
  }

  lemma {:induction false} UpToHolds(gpos: seq<StoredGPO>, n: nat)
    requires n <= |gpos|
    ensures |ContentsUpTo(gpos, n)| == n
    ensures forall i :: 0 <= i < n ==> ContentsUpTo(gpos, n)[i] == ContentsOf(gpos[i])
  {
    if n > 0 { UpToHolds(gpos, n - 1); }
  }

  lemma HoldIsContents(gpos: seq<StoredGPO>, gs: seq<GPO>)
    ensures Hold(gpos, gs) <==> gs == ContentsAll(gpos)
  {
    UpToHolds(gpos, |gpos|);
    if Hold(gpos, gs) {
      forall i | 0 <= i < |gpos| ensures gs[i] == ContentsOf(gpos[i]) {
        assert gs[i].rules == Contents(gpos[i].rules);
      }
    }
  }

  /** The merged rules in memory of their own. */
  method UniqueRules(gpos: seq<StoredGPO>) returns (rules: map<string, array<Entry>>)
    ensures (forall t :: t in rules ==> fresh(rules[t])) && Apart(rules)
    ensures Merge.IsUniqueRules(ContentsAll(gpos), Contents(rules)) <==> Merge.Unambiguous(ContentsAll(gpos))
    ensures ContentsAll(gpos) == old(ContentsAll(gpos))
  {
    hide Merge.Unambiguous, Merge.IsUniqueRules, Merge.Types, ContentsAll, ContentsUpTo;
    ghost var before := ContentsAll(gpos);
    HoldIsContents(gpos, before);
    var merged := Merge.GetUniqueRules(ContentsAll(gpos));
    rules := map[];
    var todo := merged.Keys;
    while todo != {}
      invariant todo <= merged.Keys && rules.Keys == merged.Keys - todo
      invariant (forall t :: t in rules ==> fresh(rules[t])) && Apart(rules)
      invariant forall t :: t in rules ==> rules[t][..] == merged[t]
    {
      var t :| t in todo;
      var list := merged[t];
      var a := new Entry[|list|](i requires 0 <= i < |list| => list[i]);
      assert a[..] == list;
      ghost var others := rules;
      rules := rules[t := a];
      assert forall t' :: t' in rules && t' != t ==> t' in others && rules[t'] == others[t'];
      todo := todo - {t};
    }
    assert Contents(rules) == merged;
    HoldIsContents(gpos, before);
  }

  /** Those of a list that are in a set, in the order of the list. */
  function OfThese(order: seq<string>, ts: set<string>): seq<string> {
    if order == [] then [] else (if order[0] in ts then [order[0]] else []) + OfThese(order[1..], ts)
  }

  lemma {:induction false} OfTheseAre(order: seq<string>, ts: set<string>)
    ensures forall t :: t in OfThese(order, ts) <==> t in order && t in ts
  {
    if order != [] { OfTheseAre(order[1..], ts); }
  }

  /** What sorting by the place in a list does to a list without repetitions. */
  method SortAsIn(order: seq<string>, ts: seq<string>) returns (r: seq<string>)
    ensures r == OfThese(order, set t | t in ts)
  {
    r := [];
    var n := |order|;
    while n > 0
      invariant 0 <= n <= |order| && r == OfThese(order[n..], set t | t in ts)
    {
      n := n - 1;
      assert order[n..][1..] == order[n + 1..];
      if order[n] in ts {
        r := [order[n]] + r;
      }
    }
    assert order[0..] == order;
  }

  /** Empties the rules of Pro-only types in the map, in the order the map gives them, and names them
      in the order of the Pro-only types. */
  method FilterRules(rules: map<string, array<Entry>>) returns (rules': map<string, array<Entry>>, filtered: seq<string>)
    requires Apart(rules)
    ensures filtered == OfThese(PRO_ONLY_RULES, rules.Keys)
    ensures Contents(rules') == Allowed(Contents(rules), false) && Apart(rules')
    ensures rules'.Keys == rules.Keys && forall t :: t in rules' ==> rules'[t] == rules[t] || fresh(rules'[t])
  {
    hide ProOnly, OfThese, Allowed;
    rules', filtered := Filtered(rules);
    ghost var before, after := Contents(rules), Contents(rules');
    ProOnlyPresent(filtered, rules.Keys);
    filtered := SortAsIn(PRO_ONLY_RULES, filtered);
    assert Contents(rules) == before && Contents(rules') == after;
  }

  lemma ProOnlyPresent(ts: seq<string>, keys: set<string>)
    requires forall t :: t in ts <==> t in keys && ProOnly(t)
    ensures OfThese(PRO_ONLY_RULES, set t | t in ts) == OfThese(PRO_ONLY_RULES, keys)
  {
    assert forall t :: t in PRO_ONLY_RULES <==> ProOnly(t);
    OnlyPresent(PRO_ONLY_RULES, ts, keys);
  }

  /** The loop, in the order the map gives. */
  method Filtered(rules: map<string, array<Entry>>) returns (rules': map<string, array<Entry>>, filtered: seq<string>)
    requires Apart(rules)
    ensures forall t :: t in filtered <==> t in rules && ProOnly(t)
    ensures Contents(rules') == Allowed(Contents(rules), false) && Apart(rules')
    ensures rules'.Keys == rules.Keys && forall t :: t in rules' ==> rules'[t] == rules[t] || fresh(rules'[t])
  {
    hide ProOnly, Allowed;
    rules', filtered := rules, [];
    ghost var was := Contents(rules);
    var todo := rules.Keys;
    while todo != {}
      invariant todo <= rules.Keys == rules'.Keys
      invariant forall t :: t in filtered <==> t in rules.Keys && t !in todo && ProOnly(t)
      invariant Apart(rules')
      invariant forall t :: t in rules ==> if t in filtered then Emptied(rules'[t]) && fresh(rules'[t]) else rules'[t] == rules[t]
    {
      var t :| t in todo;
      todo := todo - {t};
      if ProOnly(t) {
        filtered := filtered + [t];
        var none := new Entry[0];
        rules' := rules'[t := none];
      }
    }
    assert Contents(rules) == was;
    WhatIsLeft(rules, rules', filtered);
  }

  /** Types named have been emptied, the others have not. */
  lemma WhatIsLeft(rules: map<string, array<Entry>>, rules': map<string, array<Entry>>, filtered: seq<string>)
    requires rules'.Keys == rules.Keys && forall t :: t in filtered <==> t in rules.Keys && ProOnly(t)
    requires forall t :: t in rules ==> if t in filtered then Emptied(rules'[t]) else rules'[t] == rules[t]
    ensures Contents(rules') == Allowed(Contents(rules), false)
  {
    hide ProOnly;
    forall t | t in rules ensures rules'[t][..] == Allowed(Contents(rules), false)[t] {
      assert t in filtered <==> ProOnly(t);
    }
  }

  predicate Emptied(a: array<Entry>) { a.Length == 0 }

  lemma {:induction false} OnlyPresent(order: seq<string>, ts: seq<string>, keys: set<string>)
    requires forall t :: t in order ==> (t in ts <==> t in keys)
    ensures OfThese(order, set t | t in ts) == OfThese(order, keys)
  {
    if order != [] { OnlyPresent(order[1..], ts, keys); }
  }

  /** Expands one list in place, up to its first bad entry. */
  method ExpandList(a: array<Entry>, ctx: DV.Context, upper: string -> string) returns (err: Option<DV.Error>)
    modifies a
    ensures err.None? ==> ExpandedFrom(a[..], old(a[..]), ctx, upper)
    ensures err.Some? <==> exists i :: 0 <= i < a.Length && BadEntry(old(a[i]), ctx, upper)
    ensures err.Some? ==> exists i :: 0 <= i < a.Length && BadWith(old(a[i]), err.value, ctx, upper)
                                      && forall k :: 0 <= k < i ==> !BadEntry(old(a[k]), ctx, upper)
  {
    hide DV.Expanded;
    ghost var was := a[..];
    for i := 0 to a.Length
      invariant forall k :: 0 <= k < i ==> ExpandEntry(was[k], ctx, upper) == Some(a[k])
      invariant forall k :: i <= k < a.Length ==> a[k] == was[k]
    {
      if a[i].disabled {
        continue;
      }
      var r := DV.Expand(a[i].value, ctx, upper);
      if r.Err? {
        assert BadEntry(was[i], ctx, upper) && BadWith(was[i], r.error, ctx, upper);
        return Some(r.error);
      }
      a[i] := a[i].(value := r.value);
    }
    return None;
  }

  /** Expands all lists in place. Lists that are apart are each expanded once, whatever the order. */
  method ExpandDynamicValues(rules: map<string, array<Entry>>, ctx: DV.Context, upper: string -> string)
    returns (err: Option<DV.Error>)
    requires Apart(rules)
    modifies ArraysOf(rules)
    ensures err.Some? <==> old(AnyBad(Contents(rules), ctx, upper))
    ensures err.Some? ==> AnyBadWith(old(Contents(rules)), err.value, ctx, upper)
    ensures err.None? ==> forall t :: t in rules ==> ExpandedFrom(rules[t][..], old(rules[t][..]), ctx, upper)
  {
    hide ExpandedFrom, BadEntry, BadWith;
    ghost var was := Contents(rules);
    var todo := rules.Keys;
    while todo != {}
      invariant todo <= rules.Keys
      invariant forall t :: t in todo ==> rules[t][..] == was[t]
      invariant forall t :: t in rules && t !in todo ==> ExpandedFrom(rules[t][..], was[t], ctx, upper)
      invariant forall t, i :: t in rules && t !in todo && 0 <= i < |was[t]| ==> !BadEntry(was[t][i], ctx, upper)
    {
      var t :| t in todo;
      assert rules[t][..] == was[t];
      err := ExpandList(rules[t], ctx, upper);
      if err.Some? {
        assert exists i :: 0 <= i < |was[t]| && BadWith(was[t][i], err.value, ctx, upper);
        return;
      }
      todo := todo - {t};
    }
    return None;
  }

  // ---------------------------------------------------------------- the pipeline

  datatype Failure = InvalidUserName | BadTemplate(error: DV.Error)

  datatype Outcome = Applied(handed: map<string, seq<Entry>>, saved: seq<GPO>) | Refused(failure: Failure)

  /** The types the managers are given; gdm only on the machine. */
  function Handed(isComputer: bool): set<string> {
    {"dconf", "privilege", "scripts", "mount", "apparmor", "proxy", "certificate"} + if isComputer then {"gdm"} else {}
  }

  /** What the managers are given is the merge, without what needs a subscription, each enabled entry
      expanded once. A bad template refuses everything before anything is handed out: one in a rule
      that is to be handed out, but also one in a rule of a type that no manager is given. What is
      saved are the GPOs as they came: no expansion ever reaches them. */
  method Apply(objectName: string, isComputer: bool, hostname: string, machineDomain: string, subscribed: bool,
               gpos: seq<StoredGPO>, upper: string -> string)
    returns (r: Outcome, ghost merged: map<string, seq<Entry>>)
    ensures Merge.IsUniqueRules(old(ContentsAll(gpos)), merged) <==> Merge.Unambiguous(old(ContentsAll(gpos)))
    ensures var ctx := ContextFor(objectName, isComputer, hostname, machineDomain);
            && (r.Refused? <==>
                  || ctx.None?
                  || BadAmong(Allowed(merged, subscribed), Handed(isComputer), ctx.value, upper)
                  || BadElsewhere(Allowed(merged, subscribed), Handed(isComputer), ctx.value, upper))
            && (r == Refused(InvalidUserName) <==> ctx.None?)
            && (r.Refused? && ctx.Some? ==>
                  r.failure.BadTemplate? && AnyBadWith(Allowed(merged, subscribed), r.failure.error, ctx.value, upper))
            && (r.Applied? ==>
                  && r.saved == old(ContentsAll(gpos)) == ContentsAll(gpos)
                  && r.handed.Keys == Handed(isComputer)
                  && forall t :: t in r.handed ==>
                                   ExpandedFrom(r.handed[t], Get(Allowed(merged, subscribed), t), ctx.value, upper))
  {
    hide Merge.Unambiguous, Merge.IsUniqueRules, ContentsAll, ContentsUpTo, AnyBad, BadAmong, BadElsewhere;
    hide AnyBadWith, ContextFor, ExpandedFrom, Allowed;
    ghost var before := ContentsAll(gpos);
    HoldIsContents(gpos, before);
    var rules;
    rules, merged := RulesToApply(gpos, subscribed);
    var ctx := ContextFor(objectName, isComputer, hostname, machineDomain);
    if ctx.None? {
      return Refused(InvalidUserName), merged;
    }
    AnyBadIsSomewhere(Allowed(merged, subscribed), Handed(isComputer), ctx.value, upper);
    var err := ExpandDynamicValues(rules, ctx.value, upper);
    if err.Some? {
      return Refused(BadTemplate(err.value)), merged;
    }
    var handed := map t | t in Handed(isComputer) :: if t in rules then rules[t][..] else [];
    HoldIsContents(gpos, before);
    NothingToDo(ctx.value, upper);
    return Applied(handed, ContentsAll(gpos)), merged;
  }

  /** Merge and filter: the rules that are left, in memory of their own. */
  method RulesToApply(gpos: seq<StoredGPO>, subscribed: bool)
    returns (rules: map<string, array<Entry>>, ghost merged: map<string, seq<Entry>>)
    ensures Merge.IsUniqueRules(ContentsAll(gpos), merged) <==> Merge.Unambiguous(ContentsAll(gpos))
    ensures ContentsAll(gpos) == old(ContentsAll(gpos))
    ensures (forall t :: t in rules ==> fresh(rules[t])) && Apart(rules)
    ensures Contents(rules) == Allowed(merged, subscribed)
    ensures rules.Keys == merged.Keys
    ensures forall t :: t in rules ==> rules[t][..] == Get(Allowed(merged, subscribed), t)
    ensures forall t :: t !in rules ==> Get(Allowed(merged, subscribed), t) == []
  {
    hide Merge.Unambiguous, Merge.IsUniqueRules, ContentsAll, ContentsUpTo, OfThese, ProOnly;
    ghost var before := ContentsAll(gpos);
    HoldIsContents(gpos, before);
    rules := UniqueRules(gpos);
    merged := Contents(rules);
    assert subscribed ==> Allowed(merged, subscribed) == merged;
    hide Allowed;
    if !subscribed {
      ghost var all := rules;
      var filtered;
      rules, filtered := FilterRules(rules);
      assert Contents(all) == merged;
    }
    assert forall t :: t in rules ==> rules[t][..] == Contents(rules)[t];
    HoldIsContents(gpos, before);
  }

  /** The remark that filtering keeps a bad template in a rule that is not applied from doing harm is
      true of Pro-only types alone. For a user, a "gdm" rule is given to no manager; one that leaves a
      placeholder open refuses all of the user's policies, with a subscription and without. */
  lemma HarmFromElsewhere(k: string, ctx: DV.Context, subscribed: bool, upper: string -> string)
    ensures var rules := map["gdm" := [Entry(k, "${", false, "", "", None)]];
            && Merge.IsUniqueRules([GPO("", "", rules)], rules)
            && BadElsewhere(Allowed(rules, subscribed), Handed(false), ctx, upper)
            && !BadAmong(Allowed(rules, subscribed), Handed(false), ctx, upper)
  {
    var e := Entry(k, "${", false, "", "", None);
    var rules := map["gdm" := [e]];
    OneEntry(e, "gdm");
    hide Merge.IsUniqueRules, BadEntry;
    ProOnlyAre("gdm");
    assert Allowed(rules, subscribed) == rules;
    OpenIsBad(e, ctx, upper);
    assert BadEntry(rules["gdm"][0], ctx, upper);
  }

  lemma OpenIsBad(e: Entry, ctx: DV.Context, upper: string -> string)
    requires e.value == "${" && !e.disabled
    ensures BadEntry(e, ctx, upper)
  {
    hide DV.Expanded;
    DV.Malformed("", ctx, upper);
    assert "${" + "" == "${";
  }

  /** A GPO with one entry is its own merge. */
  lemma OneEntry(e: Entry, t: string)
    requires !Appends(e)
    ensures Merge.IsUniqueRules([GPO("", "", map[t := [e]])], map[t := [e]])
  {
    hide Merge.Merged, Merge.Occurrences, Below;
    var g := GPO("", "", map[t := [e]]);
    forall t', k ensures Merge.Merged(Merge.Occurrences([g], t', k)) == if t' == t && k == e.key then Some(e) else None {
      OneOccurrence(e, t, t', k);
    }
    assert [g][..0] == [] && Merge.Types([]) == {} && Merge.Types([g]) == {t};
  }

  lemma OneOccurrence(e: Entry, t: string, t': string, k: string)
    requires !Appends(e)
    ensures Merge.Merged(Merge.Occurrences([GPO("", "", map[t := [e]])], t', k)) == if t' == t && k == e.key then Some(e) else None
  {
    var g := GPO("", "", map[t := [e]]);
    assert [g][..0] == [] && [e][..0] == [];
    assert Merge.Occurrences([g], t', k) == Merge.Keyed(Merge.Rules(g, t'), k);
    assert Merge.Keyed([e], k) == if e.key == k then [e] else [];
    assert Merge.EffectiveOnes([e]) == [e];
  }

  lemma NothingToDo(ctx: DV.Context, upper: string -> string)
    ensures ExpandedFrom([], [], ctx, upper)
  {}

  // ---------------------------------------------------------------- in plain terms

  lemma {:induction false} LastAtIs(u: string, d: string)
    requires '@' !in d
    ensures LastAt(u + "@" + d) == |u| && LastAt(d) == -1
    decreases |d|
  {
    var s := u + "@" + d;
    if d != [] {
      assert d[|d| - 1] in d && s[..|s| - 1] == u + "@" + d[..|d| - 1];
      LastAtIs(u, d[..|d| - 1]);
    }
  }

  /** A user's name is taken apart at its last "@"; without one it is refused. */
  lemma UserContext(u: string, d: string, hostname: string, machineDomain: string)
    requires '@' !in d
    ensures var full := if machineDomain == "" || '.' in hostname then hostname else hostname + "." + machineDomain;
            && ContextFor(u + "@" + d, false, hostname, machineDomain) ==
               Some(DV.Context(u, u + "@" + d, hostname, full, d, false))
            && ContextFor(d, false, hostname, machineDomain) == None
            && ContextFor(u, true, hostname, machineDomain) ==
               Some(DV.Context("", "", hostname, full, machineDomain, true))
  {
    LastAtIs(u, d);
    var s := u + "@" + d;
    assert s[..|u|] == u && s[|u| + 1..] == d;
  }

  /** What becomes of a user's entry that is one placeholder. */
  lemma UserPlaceholder(e: Entry, n: string, u: string, d: string, hostname: string, machineDomain: string,
                        upper: string -> string)
    requires '@' !in d && n != "" && '}' !in n && e.value == "${" + n + "}"
    ensures var ctx := ContextFor(u + "@" + d, false, hostname, machineDomain);
            && ctx.Some?
            && var r := ExpandEntry(e, ctx.value, upper);
               if e.disabled then r == Some(e)
               else
                 && (upper(n) == "USER" ==> r == Some(e.(value := u)))
                 && (upper(n) == "FULL_USER" ==> r == Some(e.(value := u + "@" + d)))
                 && (upper(n) == "HOSTNAME" ==> r == Some(e.(value := hostname)))
                 && (upper(n) == "FULL_HOSTNAME" && '.' in hostname ==> r == Some(e.(value := hostname)))
                 && (upper(n) == "FULL_HOSTNAME" && '.' !in hostname && machineDomain != "" ==>
                       r == Some(e.(value := hostname + "." + machineDomain)))
                 && (upper(n) == "DOMAIN" ==> r == Some(e.(value := d)))
                 && (upper(n) !in {"USER", "FULL_USER", "HOSTNAME", "FULL_HOSTNAME", "DOMAIN"} ==> r == None)
  {
    hide DV.Expanded, ContextFor;
    UserContext(u, d, hostname, machineDomain);
    DV.VariablesMean(n, ContextFor(u + "@" + d, false, hostname, machineDomain).value, upper);
  }

  /** What becomes of the machine's. */
  lemma MachinePlaceholder(e: Entry, n: string, name: string, hostname: string, machineDomain: string,
                           upper: string -> string)
    requires n != "" && '}' !in n && e.value == "${" + n + "}"
    ensures var ctx := ContextFor(name, true, hostname, machineDomain);
            && ctx.Some?
            && var r := ExpandEntry(e, ctx.value, upper);
               if e.disabled then r == Some(e)
               else
                 && (upper(n) == "HOSTNAME" ==> r == Some(e.(value := hostname)))
                 && (upper(n) == "DOMAIN" ==> r == Some(e.(value := machineDomain)))
                 && (upper(n) !in {"HOSTNAME", "FULL_HOSTNAME", "DOMAIN"} ==> r == None)
  {
    hide DV.Expanded, ContextFor;
    UserContext(name, "", hostname, machineDomain);
    DV.VariablesMean(n, ContextFor(name, true, hostname, machineDomain).value, upper);
  }

  /** Without a subscription a user is handed dconf rules and no others, a machine those of dconf and gdm. */
  lemma LeftWithoutSubscription(rules: map<string, seq<Entry>>, isComputer: bool, t: string)
    requires t in Handed(isComputer)
    ensures Get(Allowed(rules, true), t) == Get(rules, t)
    ensures Get(Allowed(rules, false), t) == if t == "dconf" || t == "gdm" then Get(rules, t) else []
    ensures Handed(true) == MergeLaws.MANAGED_TYPES && Handed(false) == MergeLaws.MANAGED_TYPES - {"gdm"}
  {
    ProOnlyAre(t);
  }

  /** The types that need a subscription. */
  lemma ProOnlyAre(t: string)
    ensures ProOnly(t) <==> t in {"privilege", "scripts", "mount", "apparmor", "proxy", "certificate"}
    ensures !ProOnly("dconf") && !ProOnly("gdm")
  {
    assert |"dconf"| == 5 && "dconf"[0] == 'd' && |"gdm"| == 3;
    assert "proxy"[0] == 'p' && "mount"[0] == 'm';
  }

  /** And in which order they are reported. */
  lemma ReportedInOrder(keys: set<string>)
    requires MergeLaws.MANAGED_TYPES <= keys
    ensures OfThese(PRO_ONLY_RULES, keys) == ["privilege", "scripts", "mount", "apparmor", "proxy", "certificate"]
  {
    AllOfThese(PRO_ONLY_RULES, keys);
  }

  lemma {:induction false} AllOfThese(order: seq<string>, keys: set<string>)
    requires forall t :: t in order ==> t in keys
    ensures OfThese(order, keys) == order
  {
    if order != [] { AllOfThese(order[1..], keys); }
  }
}
