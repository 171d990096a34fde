/** How a list of GPOs is shown: every rule with a mark telling whether a closer rule overrides it. */
module Display {
  import opened Basics
  import opened Entries
  import opened Merge
  import MergeLaws

  /** One line of the listing. Trimming and the folding of newlines in values are not kept. */
  datatype Line =
    | MachineTitle | UserTitle
    | Header(name: string, id: string)
    | Domain(domain: string)
    | Rule(domain: string, entry: Entry, overridden: bool)

  // ---------------------------------------------------------------- what the marks mean

  /** All rules of a domain, closest GPO first. */
  function Listing(gpos: seq<GPO>, d: string): seq<Entry> {
    if gpos == [] then [] else Listing(gpos[..|gpos| - 1], d) + Rules(gpos[|gpos| - 1], d)
  }

  ghost predicate Hidden(earlier: seq<Entry>, k: string) {
    exists e :: e in earlier && e.key == k && !Appends(e)
  }

  /** A rule is marked when a rule that is not an append came before it for the same key. */
  ghost function Marks(l: seq<Entry>): seq<(Entry, bool)> {
    if l == [] then []
    else
      var last := |l| - 1;
      Marks(l[..last]) + [(l[last], Hidden(l[..last], l[last].key))]
  }

  function Marked(lines: seq<Line>, d: string): seq<(Entry, bool)> {
    if lines == [] then []
    else
      var last := lines[|lines| - 1];
      Marked(lines[..|lines| - 1], d) + if last.Rule? && last.domain == d then [(last.entry, last.overridden)] else []
  }

  function Unhidden(ms: seq<(Entry, bool)>): seq<(Entry, bool)> {
    if ms == [] then []
    else Unhidden(ms[..|ms| - 1]) + if ms[|ms| - 1].1 then [] else [ms[|ms| - 1]]
  }

  function Shown(ms: seq<(Entry, bool)>, withOverridden: bool): seq<(Entry, bool)> {
    if withOverridden then ms else Unhidden(ms)
  }

  lemma {:induction false} MarksAt(l: seq<Entry>, p: nat)
    requires p < |l|
    ensures |Marks(l)| == |l| && Marks(l)[p] == (l[p], Hidden(l[..p], l[p].key))
    decreases |l|
  {
    MarksLength(l);
    if p < |l| - 1 {
      MarksLength(l[..|l| - 1]);
      MarksAt(l[..|l| - 1], p);
      assert l[..|l| - 1][..p] == l[..p];
    }
  }

  lemma {:induction false} MarksLength(l: seq<Entry>)
    ensures |Marks(l)| == |l|
    decreases |l|
  {
    if l != [] { MarksLength(l[..|l| - 1]); }
  }

  // ---------------------------------------------------------------- who contributes

  /** The place of the first effective rule of a key, or the length. */
  function FirstEffective(l: seq<Entry>, k: string): (f: nat)
    ensures f <= |l|
    ensures forall i :: 0 <= i < f ==> !(l[i].key == k && Effective(l[i]))
    ensures f < |l| ==> l[f].key == k && Effective(l[f])
  {
    if l == [] then 0 else if l[0].key == k && Effective(l[0]) then 0 else FirstEffective(l[1..], k) + 1
  }

  /** The rules the merge takes its result from: the first override, or every enabled append. */
  predicate Contributes(l: seq<Entry>, p: nat)
    requires p < |l|
  {
    var f := FirstEffective(l, l[p].key);
    f < |l| && if Appends(l[f]) then Appends(l[p]) && !l[p].disabled else p == f
  }

  function Contributors(l: seq<Entry>, k: string, n: nat): seq<Entry>
    requires n <= |l|
  {
    if n == 0 then []
    else Contributors(l, k, n - 1) + if l[n - 1].key == k && Contributes(l, n - 1) then [l[n - 1]] else []
  }

  lemma {:induction false} KeyedSplit(l: seq<Entry>, k: string, n: nat)
    requires n <= |l|
    ensures Keyed(l, k) == Keyed(l[..n], k) + Keyed(l[n..], k)
    decreases |l|
  {
    if n == |l| {
      assert l[..n] == l;
    } else {
      KeyedSplit(l[..|l| - 1], k, n);
      assert l[..|l| - 1][..n] == l[..n] && l[n..][..|l| - n - 1] == l[..|l| - 1][n..];
    }
  }

  lemma LastRule(occ: seq<Entry>, e: Entry)
    ensures occ + [] == occ
    ensures EffectiveOnes(occ + [e]) == EffectiveOnes(occ) + if Effective(e) then [e] else []
    ensures Additions(occ + [e]) == Additions(occ) + if Appends(e) && !e.disabled then [e] else []
  {
    assert (occ + [e])[..|occ|] == occ;
  }

  lemma {:induction false} NothingEffective(l: seq<Entry>, k: string, n: nat)
    requires n <= |l| && forall i :: 0 <= i < n ==> !(l[i].key == k && Effective(l[i]))
    ensures EffectiveOnes(Keyed(l[..n], k)) == []
    decreases n
  {
    if n > 0 {
      assert l[..n][..n - 1] == l[..n - 1];
      NothingEffective(l, k, n - 1);
      LastRule(Keyed(l[..n - 1], k), l[n - 1]);
    }
  }

  /** The first effective rule of the key, as the merge sees it. */
  lemma FirstEffectiveDecides(l: seq<Entry>, k: string)
    ensures var f, eff := FirstEffective(l, k), EffectiveOnes(Keyed(l, k));
            (eff == [] <==> f == |l|) && (f < |l| ==> eff[0] == l[f])
  {
    var f := FirstEffective(l, k);
    NothingEffective(l, k, f);
    KeyedSplit(l, k, f);
    MergeLaws.Concat(Keyed(l[..f], k), Keyed(l[f..], k));
    if f < |l| {
      KeyedSplit(l[f..], k, 1);
      assert l[f..][..1] == [l[f]] && [l[f]][..0] == [];
      assert Keyed([l[f]], k) == [l[f]];
      MergeLaws.Concat([l[f]], Keyed(l[f..][1..], k));
      MergeLaws.Singleton(l[f]);
    } else {
      assert l[f..] == [];
    }
  }

  lemma {:induction false} AppendContributors(l: seq<Entry>, k: string, n: nat)
    requires n <= |l|
    requires FirstEffective(l, k) < |l| && Appends(l[FirstEffective(l, k)])
    ensures Contributors(l, k, n) == Additions(Keyed(l[..n], k))
    decreases n
  {
    if n > 0 {
      AppendContributors(l, k, n - 1);
      assert l[..n][..n - 1] == l[..n - 1];
      LastRule(Keyed(l[..n - 1], k), l[n - 1]);
    }
  }

  lemma {:induction false} OverrideContributors(l: seq<Entry>, k: string, n: nat)
    requires n <= |l|
    requires FirstEffective(l, k) < |l| ==> !Appends(l[FirstEffective(l, k)])
    ensures Contributors(l, k, n) == if FirstEffective(l, k) < n then [l[FirstEffective(l, k)]] else []
    decreases n
  {
    if n > 0 { OverrideContributors(l, k, n - 1); }
  }

  /** The contributors are what the merge is made of: merging them alone gives the same result, and
      their number is that of the values in it. */
  lemma ContributorsMakeTheMerge(l: seq<Entry>, k: string)
    ensures Merged(Contributors(l, k, |l|)) == Merged(Keyed(l, k))
    ensures Merged(Keyed(l, k)).Some? ==>
              Contributors(l, k, |l|) ==
              if Appends(Merged(Keyed(l, k)).value) then Additions(Keyed(l, k)) else [Merged(Keyed(l, k)).value]
  {
    var f := FirstEffective(l, k);
    FirstEffectiveDecides(l, k);
    assert l[..|l|] == l;
    if f < |l| && Appends(l[f]) {
      AppendContributors(l, k, |l|);
      MergeOfAdditions(Keyed(l, k));
    } else {
      OverrideContributors(l, k, |l|);
      if f < |l| { MergeLaws.MergedAlone(l[f]); }
    }
  }

  lemma MergeOfAdditions(occ: seq<Entry>)
    requires Merged(occ).Some? && Appends(EffectiveOnes(occ)[0])
    ensures Merged(Additions(occ)) == Merged(occ) && Appends(Merged(occ).value)
  {
    MergeLaws.OfMerged(occ);
    AdditionsOfAdditions(occ);
    AppendFirstHasAdditions(occ);
  }

  lemma {:induction false} AdditionsOfAdditions(occ: seq<Entry>)
    ensures Additions(Additions(occ)) == Additions(occ) == EffectiveOnes(Additions(occ))
    decreases |occ|
  {
    if occ != [] {
      AdditionsOfAdditions(occ[..|occ| - 1]);
      LastRule(Additions(occ[..|occ| - 1]), occ[|occ| - 1]);
    }
  }

  // ---------------------------------------------------------------- display against application

  /** The display tells the truth about a key: its unmarked rules are those that contribute. */
  ghost predicate Agrees(l: seq<Entry>, k: string) {
    forall p :: 0 <= p < |l| && l[p].key == k ==> (!Hidden(l[..p], k) <==> Contributes(l, p))
  }

  /** The key's first rule is an override, or all its rules are enabled appends. */
  ghost predicate Clean(l: seq<Entry>, k: string) {
    || (forall p :: 0 <= p < |l| && l[p].key == k ==> Appends(l[p]) && !l[p].disabled)
    || exists p :: 0 <= p < |l| && l[p].key == k && !Appends(l[p]) && forall q :: 0 <= q < p ==> l[q].key != k
  }

  lemma HiddenBy(l: seq<Entry>, p: nat, k: string)
    requires p <= |l|
    ensures Hidden(l[..p], k) <==> exists q :: 0 <= q < p && l[q].key == k && !Appends(l[q])
  {
    if Hidden(l[..p], k) {
      var e :| e in l[..p] && e.key == k && !Appends(e);
      var q :| 0 <= q < p && l[..p][q] == e;
      assert l[q] == e;
    }
    if q :| 0 <= q < p && l[q].key == k && !Appends(l[q]) {
      assert l[..p][q] in l[..p];
    }
  }

  /** The place of the first rule of a key, or the length. */
  function FirstOf(l: seq<Entry>, k: string): (p: nat)
    ensures p <= |l|
    ensures p < |l| ==> l[p].key == k
    ensures forall q :: 0 <= q < p ==> l[q].key != k
  {
    if l == [] then 0 else if l[0].key == k then 0 else FirstOf(l[1..], k) + 1
  }

  lemma CleanAgrees(l: seq<Entry>, k: string)
    requires Clean(l, k)
    ensures Agrees(l, k)
  {
    var f := FirstEffective(l, k);
    forall p | 0 <= p < |l| && l[p].key == k ensures !Hidden(l[..p], k) <==> Contributes(l, p) {
      HiddenBy(l, p, k);
    }
  }

  lemma AgreesClean(l: seq<Entry>, k: string)
    requires Agrees(l, k)
    ensures Clean(l, k)
  {
    var first, f := FirstOf(l, k), FirstEffective(l, k);
    if first < |l| && Appends(l[first]) {
      HiddenBy(l, first, k);
      assert Contributes(l, first);
      assert Appends(l[f]);
      forall p | 0 <= p < |l| && l[p].key == k ensures Appends(l[p]) && !l[p].disabled {
        AppendsUpTo(l, k, p);
        HiddenBy(l, p, k);
        assert Contributes(l, p);
      }
    }
  }

  lemma {:induction false} AppendsUpTo(l: seq<Entry>, k: string, p: nat)
    requires p < |l| && Agrees(l, k)
    requires FirstEffective(l, k) < |l| && Appends(l[FirstEffective(l, k)])
    ensures forall q :: 0 <= q < p && l[q].key == k ==> Appends(l[q])
    decreases p
  {
    if p > 0 {
      AppendsUpTo(l, k, p - 1);
      HiddenBy(l, p - 1, k);
      if l[p - 1].key == k { assert Contributes(l, p - 1); }
    }
  }

  /** Main result: for one object's GPOs, the rules shown as not overridden are exactly those that
      contribute to what is applied if and only if the key's first rule is an override or all its
      rules are enabled appends. */
  lemma DisplayAgreesIff(l: seq<Entry>, k: string)
    ensures Agrees(l, k) <==> Clean(l, k)
  {
    if Clean(l, k) { CleanAgrees(l, k); }
    if Agrees(l, k) { AgreesClean(l, k); }
  }

  /** The listing of a user has the machine's rules m in front of the user's own rules u, but what is
      applied to the user is made of the user's own rules alone. */
  ghost predicate AgreesForUser(m: seq<Entry>, u: seq<Entry>, k: string) {
    forall p :: 0 <= p < |u| && u[p].key == k ==> (!Hidden(m + u[..p], k) <==> Contributes(u, p))
  }

  ghost predicate NothingToApply(u: seq<Entry>, k: string) {
    forall p :: 0 <= p < |u| && u[p].key == k ==> Appends(u[p]) && u[p].disabled
  }

  /** The user's rules shown as not overridden are exactly those that contribute if and only if the
      key is clean in the user's own list, with no override of the machine's in front of it; behind
      one, if and only if all the user's rules of the key are disabled appends. */
  lemma UserDisplayAgreesIff(m: seq<Entry>, u: seq<Entry>, k: string)
    ensures AgreesForUser(m, u, k) <==> if Hidden(m, k) then NothingToApply(u, k) else Clean(u, k)
  {
    hide Contributes, Clean;
    forall p | 0 <= p <= |u| ensures Hidden(m + u[..p], k) <==> Hidden(m, k) || Hidden(u[..p], k) {
      HiddenConcat(m, u[..p], k);
    }
    if Hidden(m, k) {
      NothingContributes(u, k);
    } else {
      DisplayAgreesIff(u, k);
    }
  }

  lemma HiddenConcat(a: seq<Entry>, b: seq<Entry>, k: string)
    ensures Hidden(a + b, k) <==> Hidden(a, k) || Hidden(b, k)
  {
    if Hidden(a, k) {
      var e :| e in a && e.key == k && !Appends(e);
      assert e in a + b;
    }
    if Hidden(b, k) {
      var e :| e in b && e.key == k && !Appends(e);
      assert e in a + b;
    }
  }

  lemma NothingContributes(u: seq<Entry>, k: string)
    ensures (forall p :: 0 <= p < |u| && u[p].key == k ==> !Contributes(u, p)) <==> NothingToApply(u, k)
  {
    var f := FirstEffective(u, k);
    if f < |u| {
      assert Contributes(u, f);
    }
  }

  /** Where it does not agree: an override further away than an append is shown as being applied. */
  lemma OverrideBehindAppend(v: string, w: string)
    ensures var l := [Entry("k", v, false, "", "append", None), Entry("k", w, false, "", "override", None)];
            |Marks(l)| == 2 && Marks(l)[1] == (l[1], false) && !Contributes(l, 1) && !Agrees(l, "k")
  {
    var l := [Entry("k", v, false, "", "append", None), Entry("k", w, false, "", "override", None)];
    MarksAt(l, 1);
    HiddenBy(l, 1, "k");
    assert FirstEffective(l, "k") == 0;
  }

  lemma {:induction false} ListingKeyed(gpos: seq<GPO>, d: string, k: string)
    ensures Keyed(Listing(gpos, d), k) == Occurrences(gpos, d, k)
    decreases |gpos|
  {
    if gpos != [] {
      var front := Listing(gpos[..|gpos| - 1], d);
      ListingKeyed(gpos[..|gpos| - 1], d, k);
      KeyedSplit(front + Rules(gpos[|gpos| - 1], d), k, |front|);
    }
  }

  // ---------------------------------------------------------------- the listing itself

  /** The rules written so far, hidden ones included. */
  type Log = seq<(string, Entry)>

  ghost function OfDomain(log: Log, d: string): seq<Entry> {
    if log == [] then []
    else OfDomain(log[..|log| - 1], d) + if log[|log| - 1].0 == d then [log[|log| - 1].1] else []
  }

  /** What hides the next rule of a domain with a key: something among the rules in front of it. */
  type Hides = (Log, string, string) -> bool

  /** What is meant to: an override of the same domain and key. */
  ghost function OwnKey(): Hides { (log, d, k) => Hidden(OfDomain(log, d), k) }

  /** What does: an override whose domain and key are the same when joined. */
  ghost function JoinedKey(join: (string, string) -> string): Hides { (log, d, k) => JoinHidden(log, join(d, k), join) }

  ghost predicate JoinHidden(log: Log, s: string, join: (string, string) -> string) {
    exists i :: 0 <= i < |log| && !Appends(log[i].1) && join(log[i].0, log[i].1.key) == s
  }

  ghost function Tagged(d: string, es: seq<Entry>): Log {
    seq(|es|, i requires 0 <= i < |es| => (d, es[i]))
  }

  /** The lines of a domain's rules, behind all that was written before. */
  ghost function RuleLines(h: Hides, log: Log, d: string, rules: seq<Entry>, withOverridden: bool): seq<Line> {
    if rules == [] then []
    else
      var front, e := rules[..|rules| - 1], rules[|rules| - 1];
      var overr := h(log + Tagged(d, front), d, e.key);
      RuleLines(h, log, d, front, withOverridden) + if overr && !withOverridden then [] else [Rule(d, e, overr)]
  }

  /** The rules of a GPO's domains, in the order given. */
  ghost function LogOfDomains(log: Log, g: GPO, domains: seq<string>): Log {
    if domains == [] then log
    else
      var front, d := domains[..|domains| - 1], domains[|domains| - 1];
      LogOfDomains(log, g, front) + Tagged(d, Rules(g, d))
  }

  /** The lines of a GPO's domains in the order given. */
  ghost function DomainLines(h: Hides, log: Log, g: GPO, domains: seq<string>, withOverridden: bool): seq<Line> {
    if domains == [] then []
    else
      var front, d := domains[..|domains| - 1], domains[|domains| - 1];
      DomainLines(h, log, g, front, withOverridden)
      + ([Domain(d)] + RuleLines(h, LogOfDomains(log, g, front), d, Rules(g, d), withOverridden))
  }

  /** The rules of the first n GPOs, their domains in the order given. */
  ghost function LogOf(gpos: seq<GPO>, order: seq<seq<string>>, n: nat): Log
    requires n <= |gpos| && n <= |order|
  {
    if n == 0 then [] else LogOfDomains(LogOf(gpos, order, n - 1), gpos[n - 1], order[n - 1])
  }

  /** The lines of the GPOs from m to n. */
  ghost function GPOLines(h: Hides, gpos: seq<GPO>, order: seq<seq<string>>, m: nat, n: nat, withRules: bool,
                          withOverridden: bool): seq<Line>
    requires m <= n <= |gpos| && n <= |order|
    decreases n
  {
    if n == m then []
    else
      GPOLines(h, gpos, order, m, n - 1, withRules, withOverridden) + [Header(gpos[n - 1].name, gpos[n - 1].id)]
      + if withRules then DomainLines(h, LogOf(gpos, order, n - 1), gpos[n - 1], order[n - 1], withOverridden) else []
  }

  /** The whole listing of an object: titles, the machine's GPOs unless only the object's are asked
      for, the object's GPOs; they share what hides. */
  ghost function DumpLines(h: Hides, machine: seq<GPO>, own: seq<GPO>, order: seq<seq<string>>, computerOnly: bool,
                           withRules: bool, withOverridden: bool): seq<Line>
    requires |order| == |machine| + |own|
  {
    var gpos := machine + own;
    var lines := GPOLines(h, gpos, order, |machine|, |gpos|, withRules, withOverridden);
    if computerOnly then lines
    else [MachineTitle] + GPOLines(h, gpos, order, 0, |machine|, withRules, withOverridden) + [UserTitle] + lines
  }

  // ---------------------------------------------------------------- the loops that write it

  /** `already` holds the joined key of every rule written that is not an append. */
  ghost predicate AlreadyTracks(log: Log, already: set<string>, join: (string, string) -> string) {
    forall s :: s in already <==> JoinHidden(log, s, join)
  }

  lemma JoinHiddenOneMore(log: Log, d: string, e: Entry, s: string, join: (string, string) -> string)
    ensures JoinHidden(log + [(d, e)], s, join) <==> JoinHidden(log, s, join) || (!Appends(e) && join(d, e.key) == s)
  {
    var log' := log + [(d, e)];
    if i :| 0 <= i < |log| && !Appends(log[i].1) && join(log[i].0, log[i].1.key) == s { assert log'[i] == log[i]; }
    if !Appends(e) && join(d, e.key) == s { assert log'[|log|] == (d, e); }
  }

  lemma AlreadyOneMore(log: Log, already: set<string>, join: (string, string) -> string, d: string, e: Entry)
    requires AlreadyTracks(log, already, join)
    ensures AlreadyTracks(log + [(d, e)], if Appends(e) then already else already + {join(d, e.key)}, join)
    ensures join(d, e.key) in already ==> AlreadyTracks(log + [(d, e)], already, join)
  {
    hide JoinHidden;
    forall s ensures JoinHidden(log + [(d, e)], s, join) <==> JoinHidden(log, s, join) || (!Appends(e) && join(d, e.key) == s) {
      JoinHiddenOneMore(log, d, e, s, join);
    }
  }

  lemma RuleLinesStep(h: Hides, log: Log, d: string, rules: seq<Entry>, n: nat, withOverridden: bool)
    requires n < |rules|
    ensures log + Tagged(d, rules[..n + 1]) == log + Tagged(d, rules[..n]) + [(d, rules[n])]
    ensures var overr := h(log + Tagged(d, rules[..n]), d, rules[n].key);
            RuleLines(h, log, d, rules[..n + 1], withOverridden) ==
            RuleLines(h, log, d, rules[..n], withOverridden) + if overr && !withOverridden then [] else [Rule(d, rules[n], overr)]
  {
    assert rules[..n + 1][..n] == rules[..n];
  }

  lemma NoRuleLines(h: Hides, log: Log, d: string, rules: seq<Entry>, withOverridden: bool)
    requires rules == []
    ensures RuleLines(h, log, d, rules, withOverridden) == [] && log + Tagged(d, rules) == log
  {}

  /** One domain: its line, then the loop over its rules. */
  method FormatDomain(g: GPO, d: string, withOverridden: bool, join: (string, string) -> string,
                      already0: set<string>, lines0: seq<Line>, ghost log: Log)
    returns (lines: seq<Line>, already: set<string>)
    requires d in g.rules && AlreadyTracks(log, already0, join)
    ensures lines == lines0 + ([Domain(d)] + RuleLines(JoinedKey(join), log, d, g.rules[d], withOverridden))
    ensures AlreadyTracks(log + Tagged(d, g.rules[d]), already, join)
  {
    hide JoinHidden, RuleLines, Tagged;
    lines, already := lines0 + [Domain(d)], already0;
    ghost var h, start := JoinedKey(join), lines;
    var rules := g.rules[d];
    NoRuleLines(h, log, d, rules[..0], withOverridden);
    for n := 0 to |rules|
      invariant lines == start + RuleLines(h, log, d, rules[..n], withOverridden)
      invariant AlreadyTracks(log + Tagged(d, rules[..n]), already, join)
    {
      var r := rules[n];
      ghost var sofar := log + Tagged(d, rules[..n]);
      RuleLinesStep(h, log, d, rules, n, withOverridden);
      AlreadyOneMore(sofar, already, join, d, r);
      var k := join(d, r.key);
      var overr := k in already;
      assert overr == h(sofar, d, r.key);
      if !withOverridden && overr {
        continue;
      }
      lines := lines + [Rule(d, r, overr)];
      if r.strategy == "append" {
        continue;
      }
      already := already + {k};
    }
    assert rules[..|rules|] == rules;
  }

  /** The one sorted list of a GPO's domains. */
  ghost predicate InOrder(g: GPO, domains: seq<string>) {
    StrictlySorted(domains) && forall d :: d in domains <==> d in g.rules
  }

  /** The domains of a GPO in an arbitrary order, then sorted. */
  method SortedDomains(g: GPO) returns (domains: seq<string>)
    ensures InOrder(g, domains)
  {
    var unsorted: seq<string>, todo := [], g.rules.Keys;
    while todo != {}
      invariant todo <= g.rules.Keys && Distinct(unsorted)
      invariant forall d :: d in unsorted <==> d in g.rules.Keys - todo
    {
      var d :| d in todo;
      unsorted := unsorted + [d];
      todo := todo - {d};
    }
    domains := SortStrings(unsorted);
    assert forall d :: d in domains <==> d in multiset(domains);
    assert forall d :: d in unsorted <==> d in multiset(unsorted);
  }

  lemma NoDomainLines(h: Hides, log: Log, g: GPO, domains: seq<string>, withOverridden: bool)
    requires domains == []
    ensures DomainLines(h, log, g, domains, withOverridden) == [] && LogOfDomains(log, g, domains) == log
  {}

  lemma DomainLinesStep(h: Hides, log: Log, g: GPO, domains: seq<string>, n: nat, withOverridden: bool)
    requires n < |domains|
    ensures var before, d := LogOfDomains(log, g, domains[..n]), domains[n];
            && LogOfDomains(log, g, domains[..n + 1]) == before + Tagged(d, Rules(g, d))
            && DomainLines(h, log, g, domains[..n + 1], withOverridden) ==
               DomainLines(h, log, g, domains[..n], withOverridden)
               + ([Domain(d)] + RuleLines(h, before, d, Rules(g, d), withOverridden))
  {
    hide RuleLines;
    assert domains[..n + 1][..n] == domains[..n];
  }

  /** One GPO: its header, then its rules by sorted domain. Without rules the shared set is dropped. */
  method Format(g: GPO, withRules: bool, withOverridden: bool, join: (string, string) -> string,
                lines0: seq<Line>, already0: set<string>, ghost log: Log)
    returns (lines: seq<Line>, already: set<string>, ghost domains: seq<string>)
    requires withRules ==> AlreadyTracks(log, already0, join)
    ensures InOrder(g, domains)
    ensures !withRules ==> lines == lines0 + [Header(g.name, g.id)] && already == {}
    ensures withRules ==>
              && lines == lines0 + [Header(g.name, g.id)] + DomainLines(JoinedKey(join), log, g, domains, withOverridden)
              && AlreadyTracks(LogOfDomains(log, g, domains), already, join)
  {
    hide AlreadyTracks, StrictlySorted, DomainLines, RuleLines, LogOfDomains, Tagged;
    lines, already := lines0 + [Header(g.name, g.id)], already0;
    var ds := SortedDomains(g);
    domains := ds;
    if !withRules {
      already := {};
      return;
    }
    ghost var h, start := JoinedKey(join), lines;
    NoDomainLines(h, log, g, ds[..0], withOverridden);
    for n := 0 to |ds|
      invariant lines == start + DomainLines(h, log, g, ds[..n], withOverridden)
      invariant AlreadyTracks(LogOfDomains(log, g, ds[..n]), already, join)
    {
      var d := ds[n];
      assert d in ds;
      DomainLinesStep(h, log, g, ds, n, withOverridden);
      lines, already := FormatDomain(g, d, withOverridden, join, already, lines, LogOfDomains(log, g, ds[..n]));
    }
    assert ds[..|ds|] == ds;
  }

  ghost predicate AllInOrder(gpos: seq<GPO>, order: seq<seq<string>>, n: nat)
    requires n <= |gpos|
  {
    |order| == n && forall i :: 0 <= i < n ==> InOrder(gpos[i], order[i])
  }

  /** More orders do not change the lines of the GPOs in front. */
  lemma {:induction false} OrderPrefix(h: Hides, gpos: seq<GPO>, order: seq<seq<string>>, more: seq<seq<string>>, m: nat,
                                       n: nat, withRules: bool, withOverridden: bool)
    requires m <= n <= |order| && n <= |gpos| && order <= more
    ensures LogOf(gpos, more, n) == LogOf(gpos, order, n)
    ensures GPOLines(h, gpos, more, m, n, withRules, withOverridden) == GPOLines(h, gpos, order, m, n, withRules, withOverridden)
    decreases n
  {
    hide LogOfDomains, DomainLines;
    if n > m {
      OrderPrefix(h, gpos, order, more, m, n - 1, withRules, withOverridden);
    } else if n > 0 {
      OrderPrefix(h, gpos, order, more, n - 1, n - 1, withRules, withOverridden);
    }
  }

  lemma NoGPOLines(h: Hides, gpos: seq<GPO>, order: seq<seq<string>>, m: nat, withRules: bool, withOverridden: bool)
    requires m <= |gpos| && m <= |order|
    ensures GPOLines(h, gpos, order, m, m, withRules, withOverridden) == []
  {}

  lemma GPOLinesStep(h: Hides, gpos: seq<GPO>, order: seq<seq<string>>, domains: seq<string>, m: nat, n: nat,
                     withRules: bool, withOverridden: bool)
    requires m <= n == |order| && n < |gpos|
    ensures LogOf(gpos, order + [domains], n + 1) == LogOfDomains(LogOf(gpos, order, n), gpos[n], domains)
    ensures GPOLines(h, gpos, order + [domains], m, n + 1, withRules, withOverridden) ==
            GPOLines(h, gpos, order, m, n, withRules, withOverridden) + [Header(gpos[n].name, gpos[n].id)]
            + if withRules then DomainLines(h, LogOf(gpos, order, n), gpos[n], domains, withOverridden) else []
  {
    hide DomainLines, LogOfDomains;
    OrderPrefix(h, gpos, order, order + [domains], m, n, withRules, withOverridden);
  }

  /** The GPOs from m to n, one after the other. */
  method FormatAll(gpos: seq<GPO>, m: nat, n: nat, withRules: bool, withOverridden: bool, join: (string, string) -> string,
                   lines0: seq<Line>, already0: set<string>, ghost order0: seq<seq<string>>)
    returns (lines: seq<Line>, already: set<string>, ghost order: seq<seq<string>>)
    requires m <= n <= |gpos| && AllInOrder(gpos, order0, m)
    requires withRules ==> AlreadyTracks(LogOf(gpos, order0, m), already0, join)
    ensures AllInOrder(gpos, order, n) && order0 == order[..m]
    ensures withRules ==> AlreadyTracks(LogOf(gpos, order, n), already, join)
    ensures lines == lines0 + GPOLines(JoinedKey(join), gpos, order, m, n, withRules, withOverridden)
  {
    hide AlreadyTracks, InOrder, DomainLines, GPOLines, LogOf, LogOfDomains;
    ghost var h := JoinedKey(join);
    NoGPOLines(h, gpos, order0, m, withRules, withOverridden);
    lines, already, order := lines0, already0, order0;
    for i := m to n
      invariant AllInOrder(gpos, order, i) && order0 == order[..m]
      invariant withRules ==> AlreadyTracks(LogOf(gpos, order, i), already, join)
      invariant lines == lines0 + GPOLines(h, gpos, order, m, i, withRules, withOverridden)
    {
      ghost var domains;
      lines, already, domains := Format(gpos[i], withRules, withOverridden, join, lines, already, LogOf(gpos, order, i));
      GPOLinesStep(h, gpos, order, domains, m, i, withRules, withOverridden);
      order := order + [domains];
    }
  }

  /** The listing of an object: the machine's GPOs first unless only the object's are asked for, all
      sharing the set of rules already seen. It fails when the policies of one of them are not there.
      Every line is in its place: titles, GPOs closest first, their domains sorted, the rules of each
      domain in order, and marked when an override with the same joined key stands in front, the marked
      ones only on demand. */
  method DumpPolicies(host: Option<seq<GPO>>, target: Option<seq<GPO>>, computerOnly: bool, withRules: bool,
                      withOverridden: bool, join: (string, string) -> string)
    returns (r: Option<seq<Line>>, ghost order: seq<seq<string>>)
    ensures r.None? <==> (!computerOnly && host.None?) || target.None?
    ensures r.Some? ==>
              var machine, own := if computerOnly then [] else host.value, target.value;
              && AllInOrder(machine + own, order, |machine + own|)
              && r.value == DumpLines(JoinedKey(join), machine, own, order, computerOnly, withRules, withOverridden)
  {
    hide AlreadyTracks, InOrder, GPOLines;
    order := [];
    var lines: seq<Line>, already: set<string> := [], {};
    if !computerOnly {
      lines := lines + [MachineTitle];
      if host.None? {
        return None, [];
      }
    }
    if target.None? {
      return None, [];
    }
    var machine := if computerOnly then [] else host.value;
    var gpos := machine + target.value;
    NothingListed(gpos, already, join);
    ghost var order0 := [];
    if !computerOnly {
      lines, already, order0 := FormatAll(gpos, 0, |machine|, withRules, withOverridden, join, lines, already, []);
      lines := lines + [UserTitle];
    }
    lines, already, order := FormatAll(gpos, |machine|, |gpos|, withRules, withOverridden, join, lines, already, order0);
    OrderPrefix(JoinedKey(join), gpos, order0, order, 0, |order0|, withRules, withOverridden);
    return Some(lines), order;
  }

  lemma NothingListed(gpos: seq<GPO>, already: set<string>, join: (string, string) -> string)
    requires already == {}
    ensures AlreadyTracks(LogOf(gpos, [], 0), already, join)
  {}

  // ---------------------------------------------------------------- when the joined keys tell the truth

  lemma {:induction false} InDomain(log: Log, d: string)
    ensures forall e :: e in OfDomain(log, d) <==> exists i :: 0 <= i < |log| && log[i] == (d, e)
    decreases |log|
  {
    if log != [] {
      var front := log[..|log| - 1];
      InDomain(front, d);
      forall e ensures e in OfDomain(log, d) <==> exists i :: 0 <= i < |log| && log[i] == (d, e) {
        if e in OfDomain(front, d) {
          var i :| 0 <= i < |front| && front[i] == (d, e);
          assert log[i] == (d, e);
        }
        if i :| 0 <= i < |log| && log[i] == (d, e) {
          if i < |front| { assert front[i] == (d, e); }
        }
      }
    }
  }

  lemma OwnIsJoined(log: Log, d: string, k: string, join: (string, string) -> string)
    ensures OwnKey()(log, d, k) ==> JoinedKey(join)(log, d, k)
  {
    InDomain(log, d);
    if Hidden(OfDomain(log, d), k) {
      var e :| e in OfDomain(log, d) && e.key == k && !Appends(e);
      var i :| 0 <= i < |log| && log[i] == (d, e);
      assert log[i].0 == d && log[i].1 == e;
      assert JoinHidden(log, join(d, k), join);
    }
  }

  /** The one hides no more than the other. */
  ghost predicate Within(h: Hides, h': Hides) { forall log, d, k :: h(log, d, k) ==> h'(log, d, k) }

  /** Both hide, or both show, each of the rules from a to b. */
  ghost predicate Agree(h: Hides, h': Hides, log: Log, a: nat, b: nat)
    requires b <= |log|
  {
    forall p :: a <= p < b ==> h(log[..p], log[p].0, log[p].1.key) == h'(log[..p], log[p].0, log[p].1.key)
  }

  lemma AgreeInFront(h: Hides, h': Hides, log: Log, more: Log, a: nat, b: nat)
    requires b <= |log|
    ensures Agree(h, h', log + more, a, b) <==> Agree(h, h', log, a, b)
  {
    assert forall p :: a <= p < b ==> (log + more)[..p] == log[..p] && (log + more)[p] == log[p];
  }

  lemma ConcatSame<T>(x: seq<T>, y: seq<T>, x': seq<T>, y': seq<T>)
    requires |x'| <= |x| && |y'| <= |y|
    ensures x + y == x' + y' <==> x == x' && y == y'
  {
    if x + y == x' + y' {
      assert |x| == |x'|;
      assert x == (x + y)[..|x|] && y == (x + y)[|x|..];
    }
  }

  lemma {:induction false} SameRuleLines(h: Hides, h': Hides, log: Log, d: string, rules: seq<Entry>, withOverridden: bool)
    requires Within(h, h')
    ensures |RuleLines(h', log, d, rules, withOverridden)| <= |RuleLines(h, log, d, rules, withOverridden)|
    ensures RuleLines(h, log, d, rules, withOverridden) == RuleLines(h', log, d, rules, withOverridden)
            <==> Agree(h, h', log + Tagged(d, rules), |log|, |log| + |rules|)
    decreases |rules|
  {
    if rules != [] {
      var n := |rules| - 1;
      var front, all := log + Tagged(d, rules[..n]), log + Tagged(d, rules);
      SameRuleLines(h, h', log, d, rules[..n], withOverridden);
      assert all == front + [(d, rules[n])] && all[..|front|] == front;
      AgreeInFront(h, h', front, [(d, rules[n])], |log|, |front|);
      hide RuleLines;
      RuleLinesStep(h, log, d, rules, n, withOverridden);
      RuleLinesStep(h', log, d, rules, n, withOverridden);
      assert rules[..n + 1] == rules;
      var o, o' := h(front, d, rules[n].key), h'(front, d, rules[n].key);
      ConcatSame(RuleLines(h, log, d, rules[..n], withOverridden), if o && !withOverridden then [] else [Rule(d, rules[n], o)],
                 RuleLines(h', log, d, rules[..n], withOverridden), if o' && !withOverridden then [] else [Rule(d, rules[n], o')]);
    }
  }

  lemma AgreeParts(h: Hides, h': Hides, log: Log, a: nat, b: nat, c: nat)
    requires a <= b <= c <= |log|
    ensures Agree(h, h', log, a, c) <==> Agree(h, h', log, a, b) && Agree(h, h', log, b, c)
  {}

  lemma {:induction false} SameDomainLines(h: Hides, h': Hides, log: Log, g: GPO, domains: seq<string>, withOverridden: bool)
    requires Within(h, h')
    ensures log <= LogOfDomains(log, g, domains)
    ensures |DomainLines(h', log, g, domains, withOverridden)| <= |DomainLines(h, log, g, domains, withOverridden)|
    ensures DomainLines(h, log, g, domains, withOverridden) == DomainLines(h', log, g, domains, withOverridden)
            <==> Agree(h, h', LogOfDomains(log, g, domains), |log|, |LogOfDomains(log, g, domains)|)
    decreases |domains|
  {
    hide RuleLines, Agree, Within;
    if domains == [] {
      NothingToAgreeOn(h, h', log);
    } else {
      var n := |domains| - 1;
      var d, front := domains[n], LogOfDomains(log, g, domains[..n]);
      SameDomainLines(h, h', log, g, domains[..n], withOverridden);
      assert domains[..n + 1] == domains;
      DomainLinesStep(h, log, g, domains, n, withOverridden);
      DomainLinesStep(h', log, g, domains, n, withOverridden);
      hide LogOfDomains, DomainLines;
      SameRuleLines(h, h', front, d, Rules(g, d), withOverridden);
      var x, x' := RuleLines(h, front, d, Rules(g, d), withOverridden), RuleLines(h', front, d, Rules(g, d), withOverridden);
      ConcatSame([Domain(d)], x, [Domain(d)], x');
      ConcatSame(DomainLines(h, log, g, domains[..n], withOverridden), [Domain(d)] + x,
                 DomainLines(h', log, g, domains[..n], withOverridden), [Domain(d)] + x');
      AgreeInFront(h, h', front, Tagged(d, Rules(g, d)), |log|, |front|);
      AgreeParts(h, h', front + Tagged(d, Rules(g, d)), |log|, |front|, |front + Tagged(d, Rules(g, d))|);
    }
  }

  lemma NothingToAgreeOn(h: Hides, h': Hides, log: Log)
    ensures Agree(h, h', log, |log|, |log|)
  {}

  lemma {:induction false} SameGPOLines(h: Hides, h': Hides, gpos: seq<GPO>, order: seq<seq<string>>, m: nat, n: nat,
                                        withOverridden: bool)
    requires Within(h, h') && m <= n <= |gpos| && n <= |order|
    ensures LogOf(gpos, order, m) <= LogOf(gpos, order, n)
    ensures |GPOLines(h', gpos, order, m, n, true, withOverridden)| <= |GPOLines(h, gpos, order, m, n, true, withOverridden)|
    ensures GPOLines(h, gpos, order, m, n, true, withOverridden) == GPOLines(h', gpos, order, m, n, true, withOverridden)
            <==> Agree(h, h', LogOf(gpos, order, n), |LogOf(gpos, order, m)|, |LogOf(gpos, order, n)|)
    decreases n
  {
    hide DomainLines, LogOfDomains, Agree, Within;
    if n == m {
      NothingToAgreeOn(h, h', LogOf(gpos, order, n));
    } else {
      var g, front, all := gpos[n - 1], LogOf(gpos, order, n - 1), LogOf(gpos, order, n);
      SameGPOLines(h, h', gpos, order, m, n - 1, withOverridden);
      SameDomainLines(h, h', front, g, order[n - 1], withOverridden);
      var x, x' := GPOLines(h, gpos, order, m, n - 1, true, withOverridden), GPOLines(h', gpos, order, m, n - 1, true, withOverridden);
      ConcatSame(x, [Header(g.name, g.id)], x', [Header(g.name, g.id)]);
      ConcatSame(x + [Header(g.name, g.id)], DomainLines(h, front, g, order[n - 1], withOverridden),
                 x' + [Header(g.name, g.id)], DomainLines(h', front, g, order[n - 1], withOverridden));
      assert all == front + all[|front|..];
      AgreeInFront(h, h', front, all[|front|..], |LogOf(gpos, order, m)|, |front|);
      AgreeParts(h, h', all, |LogOf(gpos, order, m)|, |front|, |all|);
    }
  }

  /** No rule is hidden by a rule of another domain or key alone. */
  ghost predicate NoFalseHiding(log: Log, join: (string, string) -> string) {
    forall p :: 0 <= p < |log| && JoinHidden(log[..p], join(log[p].0, log[p].1.key), join)
                ==> Hidden(OfDomain(log[..p], log[p].0), log[p].1.key)
  }

  lemma AgreeIsNoFalseHiding(log: Log, join: (string, string) -> string)
    ensures Agree(OwnKey(), JoinedKey(join), log, 0, |log|) <==> NoFalseHiding(log, join)
  {
    hide JoinHidden, Hidden, OfDomain;
    forall p | 0 <= p < |log| ensures OwnKey()(log[..p], log[p].0, log[p].1.key) ==> JoinedKey(join)(log[..p], log[p].0, log[p].1.key) {
      OwnIsJoined(log[..p], log[p].0, log[p].1.key, join);
    }
  }

  /** Main result: the listing is the one that is meant, every rule marked by the overrides of its own
      domain and key, if and only if no rule is hidden by a rule of another domain or key alone, whose
      joined key is the same. */
  lemma DumpIsMeantIff(machine: seq<GPO>, own: seq<GPO>, order: seq<seq<string>>, computerOnly: bool, withOverridden: bool,
                       join: (string, string) -> string)
    requires |order| == |machine| + |own| && (computerOnly ==> machine == [])
    ensures DumpLines(JoinedKey(join), machine, own, order, computerOnly, true, withOverridden)
            == DumpLines(OwnKey(), machine, own, order, computerOnly, true, withOverridden)
            <==> NoFalseHiding(LogOf(machine + own, order, |machine + own|), join)
  {
    hide Agree, NoFalseHiding, GPOLines, Hidden, JoinHidden, OfDomain, LogOfDomains;
    var h, h', gpos, m := OwnKey(), JoinedKey(join), machine + own, |machine|;
    forall log, d, k ensures h(log, d, k) ==> h'(log, d, k) { OwnIsJoined(log, d, k, join); }
    var all, front := LogOf(gpos, order, |gpos|), LogOf(gpos, order, m);
    SameGPOLines(h, h', gpos, order, 0, m, withOverridden);
    SameGPOLines(h, h', gpos, order, m, |gpos|, withOverridden);
    assert all == front + all[|front|..];
    AgreeInFront(h, h', front, all[|front|..], 0, |front|);
    AgreeParts(h, h', all, 0, |front|, |all|);
    AgreeIsNoFalseHiding(all, join);
    var x, x' := GPOLines(h, gpos, order, 0, m, true, withOverridden), GPOLines(h', gpos, order, 0, m, true, withOverridden);
    var y, y' := GPOLines(h, gpos, order, m, |gpos|, true, withOverridden), GPOLines(h', gpos, order, m, |gpos|, true, withOverridden);
    if computerOnly {
      AgreeNone(h, h', all, front);
    } else {
      ConcatSame([MachineTitle], x, [MachineTitle], x');
      ConcatSame([MachineTitle] + x, [UserTitle], [MachineTitle] + x', [UserTitle]);
      ConcatSame([MachineTitle] + x + [UserTitle], y, [MachineTitle] + x' + [UserTitle], y');
    }
  }

  lemma AgreeNone(h: Hides, h': Hides, log: Log, front: Log)
    requires front == []
    ensures Agree(h, h', log, 0, |front|)
  {}

  /** The (type, key) pairs present. */
  ghost predicate Present(gpos: seq<GPO>, t: string, k: string) {
    exists i, n :: 0 <= i < |gpos| && t in gpos[i].rules && 0 <= n < |gpos[i].rules[t]| && gpos[i].rules[t][n].key == k
  }

  /** Joining domain and key tells the rules of these GPOs apart. */
  ghost predicate JoinClear(gpos: seq<GPO>, join: (string, string) -> string) {
    forall t, k, t', k' {:trigger Present(gpos, t, k), Present(gpos, t', k')} ::
      Present(gpos, t, k) && Present(gpos, t', k') && join(t, k) == join(t', k') ==> t == t' && k == k'
  }

  ghost predicate AllPresent(gpos: seq<GPO>, log: Log) {
    forall i :: 0 <= i < |log| ==> Present(gpos, log[i].0, log[i].1.key)
  }

  lemma {:induction false} DomainsPresent(gpos: seq<GPO>, g: nat, log: Log, domains: seq<string>)
    requires g < |gpos| && AllPresent(gpos, log)
    ensures AllPresent(gpos, LogOfDomains(log, gpos[g], domains))
    decreases |domains|
  {
    if domains != [] { DomainsPresent(gpos, g, log, domains[..|domains| - 1]); }
  }

  lemma {:induction false} LogPresent(gpos: seq<GPO>, order: seq<seq<string>>, n: nat)
    requires n <= |gpos| && n <= |order|
    ensures AllPresent(gpos, LogOf(gpos, order, n))
    decreases n
  {
    if n > 0 {
      LogPresent(gpos, order, n - 1);
      DomainsPresent(gpos, n - 1, LogOf(gpos, order, n - 1), order[n - 1]);
    }
  }

  /** It is so when joining domain and key tells the rules present apart. */
  lemma ClearHidesNothingFalsely(gpos: seq<GPO>, order: seq<seq<string>>, join: (string, string) -> string)
    requires |order| == |gpos| && JoinClear(gpos, join)
    ensures NoFalseHiding(LogOf(gpos, order, |gpos|), join)
  {
    hide Present, LogOf;
    var log := LogOf(gpos, order, |gpos|);
    LogPresent(gpos, order, |gpos|);
    forall p | 0 <= p < |log| && JoinHidden(log[..p], join(log[p].0, log[p].1.key), join)
      ensures Hidden(OfDomain(log[..p], log[p].0), log[p].1.key)
    {
      var d, k := log[p].0, log[p].1.key;
      var i :| 0 <= i < |log[..p]| && !Appends(log[..p][i].1) && join(log[..p][i].0, log[..p][i].1.key) == join(d, k);
      assert log[..p][i] == log[i] && Present(gpos, log[i].0, log[i].1.key) && Present(gpos, d, k);
      InDomain(log[..p], d);
      assert log[..p][i] == (d, log[i].1);
    }
  }

  /** Domains without a slash, joined to clean keys by one, tell all rules apart. */
  lemma SlashFreeIsClear(gpos: seq<GPO>, join: (string, string) -> string)
    requires forall t :: t in Types(gpos) ==> '/' !in t
    requires forall t, k :: Present(gpos, t, k) ==> join(t, k) == t + "/" + k
    ensures JoinClear(gpos, join)
  {
    forall t, k, t', k' | Present(gpos, t, k) && Present(gpos, t', k') && join(t, k) == join(t', k')
      ensures t == t' && k == k'
    {
      PresentType(gpos, t, k);
      PresentType(gpos, t', k');
      FirstSlashTells(t, k, t', k');
    }
  }

  lemma PresentType(gpos: seq<GPO>, t: string, k: string)
    requires Present(gpos, t, k)
    ensures t in Types(gpos)
  {
    var i, n :| 0 <= i < |gpos| && t in gpos[i].rules && 0 <= n < |gpos[i].rules[t]| && gpos[i].rules[t][n].key == k;
    TypePresent(gpos, i, t);
  }

  lemma {:induction false} TypePresent(gpos: seq<GPO>, i: nat, t: string)
    requires i < |gpos| && t in gpos[i].rules
    ensures t in Types(gpos)
    decreases |gpos|
  {
    if i < |gpos| - 1 { TypePresent(gpos[..|gpos| - 1], i, t); }
  }

  lemma FirstSlashTells(t: string, k: string, t': string, k': string)
    requires '/' !in t && '/' !in t' && t + "/" + k == t' + "/" + k'
    ensures t == t' && k == k'
  {
    var s := t + "/" + k;
    LongerHasSlash(t, k, t', k');
    LongerHasSlash(t', k', t, k);
    assert t == s[..|t|] && t' == s[..|t'|] && k == s[|t| + 1..] && k' == s[|t'| + 1..];
  }

  lemma LongerHasSlash(t: string, k: string, t': string, k': string)
    requires t + "/" + k == t' + "/" + k'
    ensures |t| < |t'| ==> '/' in t'
  {
    if |t| < |t'| { assert t'[|t|] == (t' + "/" + k')[|t|] == (t + "/" + k)[|t|]; }
  }

  /** And this is how it can fail: a domain and key, and another, that are one path. */
  lemma FalselyHidden(v: string, w: string, join: (string, string) -> string)
    requires join("a", "b/c") == "a/b/c" && join("a/b", "c") == "a/b/c"
    ensures var log := [("a", Entry("b/c", v, false, "", "override", None)), ("a/b", Entry("c", w, false, "", "override", None))];
            JoinHidden(log[..1], "a/b/c", join) && !Hidden(OfDomain(log[..1], "a/b"), "c") && !NoFalseHiding(log, join)
  {
    var e, f := Entry("b/c", v, false, "", "override", None), Entry("c", w, false, "", "override", None);
    var log: Log := [("a", e), ("a/b", f)];
    assert log[..1] == [("a", e)] && log[..1][0] == ("a", e) && log[..1][..0] == [];
    assert "a" != "a/b";
    assert OfDomain(log[..1], "a/b") == [];
    assert log[1] == ("a/b", f);
  }

  // ---------------------------------------------------------------- the listing, domain by domain

  lemma LogOneMore(log: Log, d: string, e: Entry)
    ensures forall d' :: OfDomain(log + [(d, e)], d') == OfDomain(log, d') + if d == d' then [e] else []
  {
    assert (log + [(d, e)])[..|log|] == log;
  }

  lemma {:induction false} TaggedOfDomain(log: Log, d: string, es: seq<Entry>, d': string)
    ensures OfDomain(log + Tagged(d, es), d') == OfDomain(log, d') + if d' == d then es else []
    decreases |es|
  {
    hide OfDomain;
    if es == [] {
      assert log + Tagged(d, es) == log;
    } else {
      var m := |es| - 1;
      TaggedOfDomain(log, d, es[..m], d');
      assert log + Tagged(d, es) == (log + Tagged(d, es[..m])) + [(d, es[m])];
      LogOneMore(log + Tagged(d, es[..m]), d, es[m]);
    }
  }

  lemma MarksOneMore(l: seq<Entry>, e: Entry, withOverridden: bool)
    ensures Shown(Marks(l + [e]), withOverridden) ==
            Shown(Marks(l), withOverridden) + if withOverridden || !Hidden(l, e.key) then [(e, Hidden(l, e.key))] else []
  {
    assert (l + [e])[..|l|] == l;
    var m := (e, Hidden(l, e.key));
    assert (Marks(l) + [m])[..|Marks(l)|] == Marks(l);
  }

  lemma {:induction false} MarkedConcat(a: seq<Line>, b: seq<Line>, d: string)
    ensures Marked(a + b, d) == Marked(a, d) + Marked(b, d)
    decreases |b|
  {
    if b == [] {
      assert a + b == a;
    } else {
      MarkedConcat(a, b[..|b| - 1], d);
      assert (a + b)[..|a + b| - 1] == a + b[..|b| - 1];
    }
  }

  lemma {:induction false} MarkedRules(log: Log, d: string, rules: seq<Entry>, withOverridden: bool, d': string)
    ensures d' != d ==> Marked(RuleLines(OwnKey(), log, d, rules, withOverridden), d') == []
    ensures Shown(Marks(OfDomain(log, d)), withOverridden) + Marked(RuleLines(OwnKey(), log, d, rules, withOverridden), d)
            == Shown(Marks(OfDomain(log, d) + rules), withOverridden)
    decreases |rules|
  {
    hide Marks, Shown, Hidden, Marked, OfDomain;
    var before := OfDomain(log, d);
    if rules == [] {
      assert before + rules == before;
      MarkedNone(d);
      MarkedNone(d');
    } else {
      var front, e := rules[..|rules| - 1], rules[|rules| - 1];
      TaggedOfDomain(log, d, front, d);
      var line := Rule(d, e, Hidden(before + front, e.key));
      MarkedRules(log, d, front, withOverridden, d');
      var lines, shown := RuleLines(OwnKey(), log, d, front, withOverridden), Shown(Marks(before), withOverridden);
      MarkedConcat(lines, [line], d);
      MarkedConcat(lines, [line], d');
      MarkedOne(line, d);
      MarkedOne(line, d');
      MarksOneMore(before + front, e, withOverridden);
      assert before + rules == before + front + [e];
      assert lines + [] == lines && Marked(lines, d') + [] == Marked(lines, d');
      assert shown + Marked(lines, d) + [] == shown + Marked(lines, d);
      Associative(shown, Marked(lines, d), Marked([line], d));
    }
  }

  lemma MarkedNone(d: string)
    ensures Marked([], d) == []
  {}

  lemma {:induction false} MarkedDomains(log: Log, g: GPO, domains: seq<string>, withOverridden: bool, d: string)
    ensures Shown(Marks(OfDomain(log, d)), withOverridden) + Marked(DomainLines(OwnKey(), log, g, domains, withOverridden), d)
            == Shown(Marks(OfDomain(LogOfDomains(log, g, domains), d)), withOverridden)
    decreases |domains|
  {
    hide Marked, RuleLines, Marks, Shown, Hidden, Rules, OfDomain;
    var shown := Shown(Marks(OfDomain(log, d)), withOverridden);
    if domains == [] {
      MarkedNone(d);
      assert shown + [] == shown;
    } else {
      var front, last := domains[..|domains| - 1], domains[|domains| - 1];
      var before := LogOfDomains(log, g, front);
      var x, y := DomainLines(OwnKey(), log, g, front, withOverridden), RuleLines(OwnKey(), before, last, Rules(g, last), withOverridden);
      MarkedDomains(log, g, front, withOverridden, d);
      MarkedConcat(x, [Domain(last)] + y, d);
      MarkedConcat([Domain(last)], y, d);
      MarkedOne(Domain(last), d);
      assert [] + Marked(y, d) == Marked(y, d);
      MarkedRules(before, last, Rules(g, last), withOverridden, d);
      TaggedOfDomain(before, last, Rules(g, last), d);
      Associative(shown, Marked(x, d), Marked(y, d));
      if d != last {
        assert shown + Marked(x, d) + [] == shown + Marked(x, d);
        assert OfDomain(before, d) + [] == OfDomain(before, d);
      }
    }
  }

  lemma MarkedOne(line: Line, d: string)
    ensures Marked([line], d) == if line.Rule? && line.domain == d then [(line.entry, line.overridden)] else []
  {
    assert [line][..0] == [];
  }

  lemma {:induction false} DomainsListed(log: Log, g: GPO, domains: seq<string>, d: string)
    requires Distinct(domains)
    ensures OfDomain(LogOfDomains(log, g, domains), d) == OfDomain(log, d) + if d in domains then Rules(g, d) else []
    decreases |domains|
  {
    hide OfDomain, Rules;
    if domains == [] {
      assert OfDomain(log, d) + [] == OfDomain(log, d);
    } else {
      var front, last := domains[..|domains| - 1], domains[|domains| - 1];
      DomainsListed(log, g, front, d);
      TaggedOfDomain(LogOfDomains(log, g, front), last, Rules(g, last), d);
      assert domains == front + [last] && last !in front;
      assert OfDomain(log, d) + [] == OfDomain(log, d);
      assert OfDomain(LogOfDomains(log, g, front), d) + [] == OfDomain(LogOfDomains(log, g, front), d);
    }
  }

  /** What is meant, domain by domain: the rules shown, over all GPOs, are those of the listing that the
      marks are about, with their marks, or without the marked ones. */
  lemma {:induction false} ShownAreMarked(gpos: seq<GPO>, order: seq<seq<string>>, n: nat, withOverridden: bool, d: string)
    requires n <= |gpos| && n <= |order| && forall i :: 0 <= i < n ==> InOrder(gpos[i], order[i])
    ensures OfDomain(LogOf(gpos, order, n), d) == Listing(gpos[..n], d)
    ensures Marked(GPOLines(OwnKey(), gpos, order, 0, n, true, withOverridden), d)
            == Shown(Marks(Listing(gpos[..n], d)), withOverridden)
    decreases n
  {
    hide Marked, DomainLines, LogOfDomains, Marks, Shown, Below;
    if n == 0 {
      MarkedNone(d);
      NothingShown(withOverridden);
    } else {
      var g, log, domains := gpos[n - 1], LogOf(gpos, order, n - 1), order[n - 1];
      assert gpos[..n][..n - 1] == gpos[..n - 1];
      ShownAreMarked(gpos, order, n - 1, withOverridden, d);
      var lines := GPOLines(OwnKey(), gpos, order, 0, n - 1, true, withOverridden);
      MarkedConcat(lines + [Header(g.name, g.id)], DomainLines(OwnKey(), log, g, domains, withOverridden), d);
      MarkedConcat(lines, [Header(g.name, g.id)], d);
      MarkedOne(Header(g.name, g.id), d);
      assert Marked(lines, d) + [] == Marked(lines, d);
      SortedIsDistinct(domains);
      MarkedDomains(log, g, domains, withOverridden, d);
      DomainsListed(log, g, domains, d);
    }
  }

  lemma NothingShown(withOverridden: bool)
    ensures Shown(Marks([]), withOverridden) == []
  {}

  lemma SortedIsDistinct(domains: seq<string>)
    requires StrictlySorted(domains)
    ensures Distinct(domains)
  {
    forall i, j | 0 <= i < j < |domains| ensures domains[i] != domains[j] {
      BelowIrreflexive(domains[i]);
      assert Below(domains[i], domains[j]);
    }
  }

  // ---------------------------------------------------------------- the listing in plain terms

  /** The lines that are titles or GPOs. */
  function Tops(lines: seq<Line>): seq<Line> {
    if lines == [] then []
    else
      var last := lines[|lines| - 1];
      Tops(lines[..|lines| - 1]) + if last.Domain? || last.Rule? then [] else [last]
  }

  function Headers(gpos: seq<GPO>): seq<Line> { seq(|gpos|, i requires 0 <= i < |gpos| => Header(gpos[i].name, gpos[i].id)) }

  lemma {:induction false} TopsConcat(a: seq<Line>, b: seq<Line>)
    ensures Tops(a + b) == Tops(a) + Tops(b)
    decreases |b|
  {
    if b == [] {
      assert a + b == a;
    } else {
      assert (a + b)[..|a + b| - 1] == a + b[..|b| - 1];
      TopsConcat(a, b[..|b| - 1]);
    }
  }

  lemma {:induction false} NoTops(lines: seq<Line>)
    requires forall l :: l in lines ==> l.Domain? || l.Rule?
    ensures Tops(lines) == []
    decreases |lines|
  {
    if lines != [] {
      assert lines[|lines| - 1] in lines;
      NoTops(lines[..|lines| - 1]);
    }
  }

  lemma {:induction false} RulesAreNoTops(h: Hides, log: Log, d: string, rules: seq<Entry>, withOverridden: bool)
    ensures forall l :: l in RuleLines(h, log, d, rules, withOverridden) ==> l.Rule?
    decreases |rules|
  {
    if rules != [] { RulesAreNoTops(h, log, d, rules[..|rules| - 1], withOverridden); }
  }

  lemma {:induction false} DomainsAreNoTops(h: Hides, log: Log, g: GPO, domains: seq<string>, withOverridden: bool)
    ensures forall l :: l in DomainLines(h, log, g, domains, withOverridden) ==> l.Domain? || l.Rule?
    decreases |domains|
  {
    hide RuleLines;
    if domains != [] {
      var front, d := domains[..|domains| - 1], domains[|domains| - 1];
      DomainsAreNoTops(h, log, g, front, withOverridden);
      RulesAreNoTops(h, LogOfDomains(log, g, front), d, Rules(g, d), withOverridden);
    }
  }

  lemma OneTop(line: Line)
    requires !line.Domain? && !line.Rule?
    ensures Tops([line]) == [line] && Tops([]) == []
  {
    assert [line][..0] == [];
  }

  lemma {:induction false} TopsOfGPOs(h: Hides, gpos: seq<GPO>, order: seq<seq<string>>, m: nat, n: nat, withRules: bool,
                                      withOverridden: bool)
    requires m <= n <= |gpos| && n <= |order|
    ensures Tops(GPOLines(h, gpos, order, m, n, withRules, withOverridden)) == Headers(gpos[m..n])
    decreases n
  {
    hide Tops, DomainLines, LogOfDomains;
    OneTop(MachineTitle);
    if m < n {
      var g := gpos[n - 1];
      var front := GPOLines(h, gpos, order, m, n - 1, withRules, withOverridden);
      var rest := if withRules then DomainLines(h, LogOf(gpos, order, n - 1), g, order[n - 1], withOverridden) else [];
      TopsOfGPOs(h, gpos, order, m, n - 1, withRules, withOverridden);
      DomainsAreNoTops(h, LogOf(gpos, order, n - 1), g, order[n - 1], withOverridden);
      NoTops(rest);
      OneTop(Header(g.name, g.id));
      TopsConcat(front + [Header(g.name, g.id)], rest);
      TopsConcat(front, [Header(g.name, g.id)]);
      assert gpos[m..n] == gpos[m..n - 1] + [g];
      assert Headers(gpos[m..n]) == Headers(gpos[m..n - 1]) + [Header(g.name, g.id)];
    } else {
      assert gpos[m..n] == [];
    }
  }

  /** Leaving domains and rules aside, a listing is the machine's title, its GPOs, the user's title and
      the user's GPOs, or, for the object alone, its GPOs. */
  lemma DumpTops(h: Hides, machine: seq<GPO>, own: seq<GPO>, order: seq<seq<string>>, withRules: bool, withOverridden: bool)
    requires |order| == |machine| + |own|
    ensures Tops(DumpLines(h, machine, own, order, true, withRules, withOverridden)) == Headers(own)
    ensures Tops(DumpLines(h, machine, own, order, false, withRules, withOverridden))
            == [MachineTitle] + Headers(machine) + [UserTitle] + Headers(own)
  {
    hide Tops, GPOLines, Headers;
    var gpos := machine + own;
    assert gpos[0..|machine|] == machine && gpos[|machine|..|gpos|] == own;
    TopsOfGPOs(h, gpos, order, 0, |machine|, withRules, withOverridden);
    TopsOfGPOs(h, gpos, order, |machine|, |gpos|, withRules, withOverridden);
    OneTop(MachineTitle);
    OneTop(UserTitle);
    var a, b := GPOLines(h, gpos, order, 0, |machine|, withRules, withOverridden),
                GPOLines(h, gpos, order, |machine|, |gpos|, withRules, withOverridden);
    TopsConcat([MachineTitle] + a + [UserTitle], b);
    TopsConcat([MachineTitle] + a, [UserTitle]);
    TopsConcat([MachineTitle], a);
  }

  /** A rule of the machine's and one of the user's for the same key, line by line. */
  lemma TwoRules(m: GPO, u: GPO, d: string, e: Entry, e': Entry, withOverridden: bool, join: (string, string) -> string)
    requires m.rules == map[d := [e]] && u.rules == map[d := [e']] && e.key == e'.key
    ensures DumpLines(JoinedKey(join), [m], [u], [[d], [d]], false, true, withOverridden) ==
            [MachineTitle, Header(m.name, m.id), Domain(d), Rule(d, e, false),
             UserTitle, Header(u.name, u.id), Domain(d)]
            + if e.strategy == "append" then [Rule(d, e', false)]
              else if withOverridden then [Rule(d, e', true)]
              else []
  {
    hide GPOLines, JoinHidden;
    var h := JoinedKey(join);
    FirstOfTwo(h, m, u, d, e, withOverridden);
    SecondOfTwo(h, m, u, d, e, e', withOverridden);
    NothingWritten(join(d, e.key), join);
    JoinHiddenOneMore([], d, e, join(d, e.key), join);
    assert [] + [(d, e)] == [(d, e)];
    assert !h([], d, e.key) && (h([(d, e)], d, e'.key) <==> !Appends(e));
  }

  lemma FirstOfTwo(h: Hides, m: GPO, u: GPO, d: string, e: Entry, withOverridden: bool)
    requires m.rules == map[d := [e]]
    ensures GPOLines(h, [m] + [u], [[d], [d]], 0, 1, true, withOverridden) ==
            [Header(m.name, m.id), Domain(d)] + if h([], d, e.key) && !withOverridden then [] else [Rule(d, e, h([], d, e.key))]
    ensures LogOf([m] + [u], [[d], [d]], 1) == [(d, e)]
  {
    hide DomainLines, LogOfDomains;
    var gpos, order := [m] + [u], [[d], [d]];
    OneRule(h, [], m, d, e, withOverridden);
    NoGPOLines(h, gpos, order, 0, true, withOverridden);
    assert LogOf(gpos, order, 0) == [];
    assert [] + [(d, e)] == [(d, e)];
  }

  lemma SecondOfTwo(h: Hides, m: GPO, u: GPO, d: string, e: Entry, e': Entry, withOverridden: bool)
    requires m.rules == map[d := [e]] && u.rules == map[d := [e']]
    ensures var overr := h([(d, e)], d, e'.key);
            GPOLines(h, [m] + [u], [[d], [d]], 1, 2, true, withOverridden) ==
            [Header(u.name, u.id), Domain(d)] + if overr && !withOverridden then [] else [Rule(d, e', overr)]
  {
    hide DomainLines, LogOfDomains, LogOf;
    var gpos, order := [m] + [u], [[d], [d]];
    FirstOfTwo(h, m, u, d, e, withOverridden);
    OneRule(h, [(d, e)], u, d, e', withOverridden);
    NoGPOLines(h, gpos, order, 1, true, withOverridden);
  }

  lemma NothingWritten(s: string, join: (string, string) -> string)
    ensures !JoinHidden([], s, join)
  {}

  /** The lines of a GPO that has just one rule. */
  lemma OneRule(h: Hides, log: Log, g: GPO, d: string, e: Entry, withOverridden: bool)
    requires g.rules == map[d := [e]]
    ensures var overr := h(log, d, e.key);
            DomainLines(h, log, g, [d], withOverridden) ==
            [Domain(d)] + if overr && !withOverridden then [] else [Rule(d, e, overr)]
    ensures LogOfDomains(log, g, [d]) == log + [(d, e)]
  {
    assert Rules(g, d) == [e] && [e][..0] == [] && [d][..0] == [];
    assert log + Tagged(d, []) == log && Tagged(d, [e]) == [(d, e)];
    NoRuleLines(h, log, d, [], withOverridden);
    RuleLinesStep(h, log, d, [e], 0, withOverridden);
  }
}
