/** What merging does to lists of GPOs that are themselves merged, and when the program's `seen`
    set can be trusted. */
module MergeLaws {
  import opened Basics
  import opened Entries
  import opened Merge

  // ---------------------------------------------------------------- merging one key in pieces

  function Opt(m: Option<Entry>): seq<Entry> {
    match m
    case None => []
    case Some(e) => [e]
  }

  lemma Concat(a: seq<Entry>, b: seq<Entry>)
    ensures EffectiveOnes(a + b) == EffectiveOnes(a) + EffectiveOnes(b)
    ensures Additions(a + b) == Additions(a) + Additions(b)
    ensures ValuesReversed(a + b) == ValuesReversed(b) + ValuesReversed(a)
  {
    EffectiveConcat(a, b);
    AdditionsConcat(a, b);
    ValuesConcat(a, b);
  }

  lemma {:induction false} EffectiveConcat(a: seq<Entry>, b: seq<Entry>)
    ensures EffectiveOnes(a + b) == EffectiveOnes(a) + EffectiveOnes(b)
    decreases |b|
  {
    if b == [] {
      assert a + b == a;
    } else {
      var front, last := b[..|b| - 1], b[|b| - 1];
      EffectiveConcat(a, front);
      assert (a + b)[..|a + b| - 1] == a + front && (a + b)[|a + b| - 1] == last;
      Associative(EffectiveOnes(a), EffectiveOnes(front), if Effective(last) then [last] else []);
    }
  }

  lemma {:induction false} AdditionsConcat(a: seq<Entry>, b: seq<Entry>)
    ensures Additions(a + b) == Additions(a) + Additions(b)
    decreases |b|
  {
    if b == [] {
      assert a + b == a;
    } else {
      var front, last := b[..|b| - 1], b[|b| - 1];
      AdditionsConcat(a, front);
      assert (a + b)[..|a + b| - 1] == a + front && (a + b)[|a + b| - 1] == last;
      Associative(Additions(a), Additions(front), if Appends(last) && !last.disabled then [last] else []);
    }
  }

  lemma {:induction false} ValuesConcat(a: seq<Entry>, b: seq<Entry>)
    ensures ValuesReversed(a + b) == ValuesReversed(b) + ValuesReversed(a)
    decreases |b|
  {
    if b == [] {
      assert a + b == a;
    } else {
      var front, last := b[..|b| - 1], b[|b| - 1];
      ValuesConcat(a, front);
      assert (a + b)[..|a + b| - 1] == a + front && (a + b)[|a + b| - 1] == last;
      Associative([last.value], ValuesReversed(front), ValuesReversed(a));
    }
  }

  lemma {:induction false} LinesConcat(xs: seq<string>, ys: seq<string>)
    ensures xs != [] && ys != [] ==> Lines(xs + ys) == Lines(xs) + "\n" + Lines(ys)
    ensures xs == [] ==> Lines(xs + ys) == Lines(ys)
    ensures ys == [] ==> Lines(xs + ys) == Lines(xs)
    decreases |xs|
  {
    if xs == [] {
      assert xs + ys == ys;
    } else if ys == [] {
      assert xs + ys == xs;
    } else {
      LinesConcat(xs[1..], ys);
      assert (xs + ys)[1..] == xs[1..] + ys;
    }
  }

  /** Merged sees its argument only through these two lists. */
  lemma Singleton(e: Entry)
    ensures EffectiveOnes([e]) == if Effective(e) then [e] else []
    ensures Additions([e]) == if Appends(e) && !e.disabled then [e] else []
    ensures ValuesReversed([e]) == [e.value]
  {
    assert [e][..0] == [];
  }

  lemma OfMerged(a: seq<Entry>)
    requires Merged(a).Some?
    ensures Effective(Merged(a).value)
    ensures Appends(Merged(a).value) == Appends(EffectiveOnes(a)[0])
    ensures Appends(Merged(a).value) ==> !Merged(a).value.disabled && Additions(a) != []
  {
    AppendFirstHasAdditions(a);
    NoEffectNoAdditions(a);
    AllEffective(a);
  }

  lemma {:induction false} AllEffective(a: seq<Entry>)
    ensures forall e :: e in EffectiveOnes(a) ==> Effective(e)
    decreases |a|
  {
    if a != [] { AllEffective(a[..|a| - 1]); }
  }

  lemma AppendCase(a: seq<Entry>, b: seq<Entry>)
    requires Merged(a).Some? && Appends(Merged(a).value)
    ensures Merged(a + b).Some?
    ensures var m, adds := Merged(a).value, Additions(b);
            Merged(a + b).value ==
            if adds == [] then m
            else adds[|adds| - 1].(value := Lines(ValuesReversed(adds)) + "\n" + m.value, meta := m.meta)
  {
    OfMerged(a);
    Concat(a, b);
    AppendFirstHasAdditions(a);
    var x, y := Additions(a), Additions(b);
    Concat(x, y);
    LinesConcat(ValuesReversed(y), ValuesReversed(x));
    if y == [] { assert x + y == x; }
  }

  lemma OtherCases(a: seq<Entry>, b: seq<Entry>)
    ensures Merged(a).None? ==> Merged(a + b) == Merged(b)
    ensures Merged(a).Some? && !Appends(Merged(a).value) ==> Merged(a + b) == Merged(a)
  {
    Concat(a, b);
    NoEffectNoAdditions(a);
    if Merged(a).None? {
      assert [] + EffectiveOnes(b) == EffectiveOnes(b) && [] + Additions(b) == Additions(b);
    } else {
      OfMerged(a);
    }
  }

  /** Replacing the closest GPOs by their own merge changes nothing. */
  lemma MergedPrefix(a: seq<Entry>, b: seq<Entry>)
    ensures Merged(Opt(Merged(a)) + b) == Merged(a + b)
  {
    if Merged(a).None? {
      OtherCases(a, b);
      assert Opt(Merged(a)) + b == b;
    } else {
      var m := Merged(a).value;
      OfMerged(a);
      MergedAlone(m);
      if Appends(m) {
        AppendCase(a, b);
        AppendCase([m], b);
      } else {
        OtherCases(a, b);
        OtherCases([m], b);
      }
    }
  }

  lemma MergedAlone(m: Entry)
    requires Effective(m)
    ensures Merged([m]) == Some(m)
  {
    Singleton(m);
    if Appends(m) { Concat([], [m]); }
  }

  /** The one way to lose a value by merging the two halves first: the closer half appends, and the
      further half has hidden its own appends behind an override of its own. */
  predicate Loses(a: seq<Entry>, b: seq<Entry>) {
    Merged(a).Some? && Appends(Merged(a).value)
    && Merged(b).Some? && !Appends(Merged(b).value) && Additions(b) != []
  }

  lemma MergedHalves(a: seq<Entry>, b: seq<Entry>)
    ensures Merged(Opt(Merged(a)) + Opt(Merged(b))) == Merged(a + b) <==> !Loses(a, b)
  {
    MergedPrefix(a, Opt(Merged(b)));
    if Merged(a).None? || !Appends(Merged(a).value) {
      OtherCases(a, b);
      OtherCases(a, Opt(Merged(b)));
      MergedPrefix(b, []);
      assert Opt(Merged(b)) + [] == Opt(Merged(b)) && b + [] == b;
    } else {
      AppendCase(a, b);
      AppendCase(a, Opt(Merged(b)));
      NoEffectNoAdditions(b);
      if Merged(b).Some? {
        var m := Merged(b).value;
        OfMerged(b);
        Singleton(m);
        if Appends(m) {
          AppendFirstHasAdditions(b);
        } else if Additions(b) != [] {
          assert |Merged(a + b).value.value| > |Merged(a).value.value|;
        }
      }
    }
  }

  predicate OneStrategy(occ: seq<Entry>) {
    (forall e :: e in occ ==> Appends(e)) || (forall e :: e in occ ==> !Appends(e))
  }

  lemma OneStrategyLosesNothing(a: seq<Entry>, b: seq<Entry>)
    requires OneStrategy(a + b)
    ensures !Loses(a, b)
  {
    if Merged(a).Some? && Merged(b).Some? {
      var x := Decider(a);
      var y := Decider(b);
      assert x in a + b && y in a + b;
    }
  }

  /** The occurrence whose strategy the merge has. */
  lemma Decider(a: seq<Entry>) returns (x: Entry)
    requires Merged(a).Some?
    ensures x in a && Appends(x) == Appends(Merged(a).value)
  {
    OfMerged(a);
    NoEffectNoAdditions(a);
    x := EffectiveOnes(a)[0];
  }

  // ---------------------------------------------------------------- the same for whole GPO lists

  lemma {:induction false} OccurrencesConcat(a: seq<GPO>, b: seq<GPO>, t: string, k: string)
    ensures Occurrences(a + b, t, k) == Occurrences(a, t, k) + Occurrences(b, t, k)
    ensures Types(a + b) == Types(a) + Types(b)
    decreases |b|
  {
    hide Keyed, Rules;
    if b == [] {
      assert a + b == a;
    } else {
      var front, last := b[..|b| - 1], b[|b| - 1];
      OccurrencesConcat(a, front, t, k);
      assert (a + b)[..|a + b| - 1] == a + front && (a + b)[|a + b| - 1] == last;
      assert Types(a + b) == Types(a + front) + last.rules.Keys;
      Associative(Occurrences(a, t, k), Occurrences(front, t, k), Keyed(Rules(last, t), k));
    }
  }

  lemma {:induction false} KeyedInSorted(es: seq<Entry>, k: string)
    requires forall i, j :: 0 <= i < j < |es| ==> Below(es[i].key, es[j].key)
    ensures Keyed(es, k) == [] || exists e :: e in es && e.key == k && Keyed(es, k) == [e]
    ensures Keyed(es, k) == [] <==> !exists e :: e in es && e.key == k
    decreases |es|
  {
    hide Below;
    KeyedKeys(es, k);
    if es != [] {
      var last := es[|es| - 1];
      KeyedInSorted(es[..|es| - 1], k);
      assert Keyed(es, k) == Keyed(es[..|es| - 1], k) + if last.key == k then [last] else [];
      hide Keyed;
      if last.key == k {
        BelowIrreflexive(k);
        forall e | e in es[..|es| - 1] ensures e.key != k {
          var i :| 0 <= i < |es| - 1 && es[i] == e;
          assert Below(es[i].key, last.key);
        }
        assert last in es && Keyed(es[..|es| - 1], k) == [];
        assert Keyed(es, k) == [last];
      } else {
        assert es == es[..|es| - 1] + [last];
      }
    }
  }

  /** A merged list holds, for each key, just the merge of that key. */
  lemma KeyedOfMerged(gpos: seq<GPO>, r: map<string, seq<Entry>>, t: string, k: string)
    requires IsUniqueRules(gpos, r)
    ensures Keyed(Rules(GPO("", "", r), t), k) == Opt(Merged(Occurrences(gpos, t, k)))
  {
    if t in r {
      assert IsMergedList(gpos, t, r[t]);
      KeyedInSorted(r[t], k);
      MergedKey(gpos, t, k);
    } else {
      NoSuchType(gpos, t, k);
    }
  }

  function AsGPO(r: map<string, seq<Entry>>): GPO { GPO("", "", r) }

  lemma OccurrencesOfMerged(a: seq<GPO>, ra: map<string, seq<Entry>>, t: string, k: string)
    requires IsUniqueRules(a, ra)
    ensures Occurrences([AsGPO(ra)], t, k) == Opt(Merged(Occurrences(a, t, k)))
    ensures Types([AsGPO(ra)]) == Types(a)
  {
    KeyedOfMerged(a, ra, t, k);
    assert [AsGPO(ra)][..0] == [];
  }

  ghost predicate SameAt(g1: seq<GPO>, g2: seq<GPO>, t: string, k: string) {
    Merged(Occurrences(g1, t, k)) == Merged(Occurrences(g2, t, k))
  }

  ghost predicate LosesAt(a: seq<GPO>, b: seq<GPO>, t: string, k: string) {
    Loses(Occurrences(a, t, k), Occurrences(b, t, k))
  }

  /** Two GPO lists that merge every key alike have the same results. */
  lemma SameMerges(g1: seq<GPO>, g2: seq<GPO>, r: map<string, seq<Entry>>)
    requires IsUniqueRules(g1, r) && Types(g1) == Types(g2)
    requires forall t, k :: SameAt(g1, g2, t, k)
    ensures IsUniqueRules(g2, r)
  {
    forall t | t in r ensures IsMergedList(g2, t, r[t]) {
      SameMergesList(g1, g2, t, r[t]);
    }
  }

  lemma SameMergesList(g1: seq<GPO>, g2: seq<GPO>, t: string, es: seq<Entry>)
    requires IsMergedList(g1, t, es)
    requires forall k :: SameAt(g1, g2, t, k)
    ensures IsMergedList(g2, t, es)
  {
    forall e | e in es ensures Merged(Occurrences(g2, t, e.key)) == Some(e) {
      assert SameAt(g1, g2, t, e.key);
    }
    forall k | Merged(Occurrences(g2, t, k)).Some? ensures Merged(Occurrences(g2, t, k)).value in es {
      assert SameAt(g1, g2, t, k);
    }
  }

  /** And `seen` is confused by both or by none. */
  lemma SameAmbiguity(g1: seq<GPO>, g2: seq<GPO>)
    requires forall t, k :: Contributes(g1, t, k) <==> Contributes(g2, t, k)
    ensures Unambiguous(g1) <==> Unambiguous(g2)
  {
    hide Contributes;
  }

  /** The result for A followed by B is the result for one GPO holding the merge of A, then B. */
  lemma MergeIsCompositional(a: seq<GPO>, b: seq<GPO>, ra: map<string, seq<Entry>>, r: map<string, seq<Entry>>)
    requires IsUniqueRules(a, ra) && IsUniqueRules(a + b, r)
    ensures IsUniqueRules([AsGPO(ra)] + b, r)
    ensures Unambiguous([AsGPO(ra)] + b) <==> Unambiguous(a + b)
  {
    forall t, k ensures SameAt(a + b, [AsGPO(ra)] + b, t, k) {
      OccurrencesOfMerged(a, ra, t, k);
      OccurrencesConcat(a, b, t, k);
      OccurrencesConcat([AsGPO(ra)], b, t, k);
      MergedPrefix(Occurrences(a, t, k), Occurrences(b, t, k));
    }
    OccurrencesOfMerged(a, ra, "", "");
    OccurrencesConcat(a, b, "", "");
    OccurrencesConcat([AsGPO(ra)], b, "", "");
    SameMerges(a + b, [AsGPO(ra)] + b, r);
    forall t, k ensures Contributes(a + b, t, k) <==> Contributes([AsGPO(ra)] + b, t, k) {
      assert SameAt(a + b, [AsGPO(ra)] + b, t, k);
    }
    SameAmbiguity(a + b, [AsGPO(ra)] + b);
  }

  /** Merging a merged result changes nothing. */
  lemma MergeIsIdempotent(a: seq<GPO>, ra: map<string, seq<Entry>>)
    requires IsUniqueRules(a, ra)
    ensures IsUniqueRules([AsGPO(ra)], ra) && (Unambiguous([AsGPO(ra)]) <==> Unambiguous(a))
  {
    assert a + [] == a && [AsGPO(ra)] + [] == [AsGPO(ra)];
    MergeIsCompositional(a, [], ra, ra);
  }

  lemma HalvesOfKey(a: seq<GPO>, b: seq<GPO>, ra: map<string, seq<Entry>>, rb: map<string, seq<Entry>>, t: string,
                    k: string)
    requires IsUniqueRules(a, ra) && IsUniqueRules(b, rb)
    ensures SameAt(a + b, [AsGPO(ra)] + [AsGPO(rb)], t, k) <==> !LosesAt(a, b, t, k)
  {
    OccurrencesOfMerged(a, ra, t, k);
    OccurrencesOfMerged(b, rb, t, k);
    OccurrencesConcat(a, b, t, k);
    OccurrencesConcat([AsGPO(ra)], [AsGPO(rb)], t, k);
    MergedHalves(Occurrences(a, t, k), Occurrences(b, t, k));
  }

  /** Whatever is lost, no key is lost altogether. */
  lemma HalvesContribute(a: seq<GPO>, b: seq<GPO>, ra: map<string, seq<Entry>>, rb: map<string, seq<Entry>>, t: string,
                         k: string)
    requires IsUniqueRules(a, ra) && IsUniqueRules(b, rb)
    ensures Contributes(a + b, t, k) <==> Contributes([AsGPO(ra)] + [AsGPO(rb)], t, k)
  {
    hide Occurrences, Merged, Opt;
    OccurrencesOfMerged(a, ra, t, k);
    OccurrencesOfMerged(b, rb, t, k);
    OccurrencesConcat(a, b, t, k);
    OccurrencesConcat([AsGPO(ra)], [AsGPO(rb)], t, k);
    OptContributes(Occurrences(a, t, k), Occurrences(b, t, k));
  }

  lemma OptContributes(x: seq<Entry>, y: seq<Entry>)
    ensures Merged(x + y).Some? <==> Merged(Opt(Merged(x)) + Opt(Merged(y))).Some?
  {
    EffectiveConcat(x, y);
    EffectiveConcat(Opt(Merged(x)), Opt(Merged(y)));
    MergedOrNot(x);
    MergedOrNot(y);
    MergedOrNot(x + y);
    MergedOrNot(Opt(Merged(x)) + Opt(Merged(y)));
  }

  lemma MergedOrNot(x: seq<Entry>)
    ensures Merged(x).Some? <==> EffectiveOnes(x) != []
    ensures EffectiveOnes(Opt(Merged(x))) == [] <==> EffectiveOnes(x) == []
  {
    if Merged(x).Some? {
      OfMerged(x);
      Singleton(Merged(x).value);
    }
  }

  /** What can be lost: an append of the further half, behind an override of that half. */
  lemma SomethingIsLost(v: string, w: string, x: string)
    ensures var a := [Entry("k", v, false, "", "append", None)];
            var b := [Entry("k", w, false, "", "override", None), Entry("k", x, false, "", "append", None)];
            && Loses(a, b) && Merged(a + b).Some? && Merged(Opt(Merged(a)) + Opt(Merged(b))).Some?
            && Merged(a + b).value.value == x + "\n" + v
            && Merged(Opt(Merged(a)) + Opt(Merged(b))).value.value == v
  {
    var e, f, g := Entry("k", v, false, "", "append", None), Entry("k", w, false, "", "override", None),
                   Entry("k", x, false, "", "append", None);
    MergedAlone(e);
    MergedAlone(f);
    assert [f, g] == [f] + [g];
    OtherCases([f], [g]);
    Concat([f], [g]);
    Singleton(f);
    Singleton(g);
    AppendCase([e], [f, g]);
    AppendCase([e], [f]);
    assert ValuesReversed([g]) == [x];
  }

  /** Merging two halves on their own and then together gives the result for the whole exactly when
      no key loses the further half's appends. */
  lemma MergeOfHalves(a: seq<GPO>, b: seq<GPO>, ra: map<string, seq<Entry>>, rb: map<string, seq<Entry>>,
                      r: map<string, seq<Entry>>)
    requires IsUniqueRules(a, ra) && IsUniqueRules(b, rb) && IsUniqueRules(a + b, r)
    ensures IsUniqueRules([AsGPO(ra), AsGPO(rb)], r) <==> forall t, k :: !LosesAt(a, b, t, k)
    ensures Unambiguous([AsGPO(ra), AsGPO(rb)]) <==> Unambiguous(a + b)
  {
    var halves := [AsGPO(ra)] + [AsGPO(rb)];
    assert [AsGPO(ra), AsGPO(rb)] == halves;
    forall t, k ensures SameAt(a + b, halves, t, k) <==> !LosesAt(a, b, t, k) {
      HalvesOfKey(a, b, ra, rb, t, k);
    }
    forall t, k ensures Contributes(a + b, t, k) <==> Contributes(halves, t, k) {
      HalvesContribute(a, b, ra, rb, t, k);
    }
    SameAmbiguity(a + b, halves);
    HalvesTypes(a, b, ra, rb);
    if forall t, k :: !LosesAt(a, b, t, k) { SameMerges(a + b, halves, r); }
    if IsUniqueRules(halves, r) { SameResultSameMerges(a + b, halves, r); }
  }

  lemma HalvesTypes(a: seq<GPO>, b: seq<GPO>, ra: map<string, seq<Entry>>, rb: map<string, seq<Entry>>)
    requires IsUniqueRules(a, ra) && IsUniqueRules(b, rb)
    ensures Types([AsGPO(ra)] + [AsGPO(rb)]) == Types(a + b)
  {
    OccurrencesOfMerged(a, ra, "", "");
    OccurrencesOfMerged(b, rb, "", "");
    OccurrencesConcat(a, b, "", "");
    OccurrencesConcat([AsGPO(ra)], [AsGPO(rb)], "", "");
  }

  lemma SameResultSameMerges(g1: seq<GPO>, g2: seq<GPO>, r: map<string, seq<Entry>>)
    requires IsUniqueRules(g1, r) && IsUniqueRules(g2, r)
    ensures forall t, k :: SameAt(g1, g2, t, k)
  {
    forall t, k ensures SameAt(g1, g2, t, k) {
      KeyedOfMerged(g1, r, t, k);
      KeyedOfMerged(g2, r, t, k);
      OptInjective(Merged(Occurrences(g1, t, k)), Merged(Occurrences(g2, t, k)));
    }
  }

  lemma OptInjective(x: Option<Entry>, y: Option<Entry>)
    requires Opt(x) == Opt(y)
    ensures x == y
  {
    if x.Some? { assert Opt(x)[0] == x.value; }
    if y.Some? { assert Opt(y)[0] == y.value; }
  }

  // ---------------------------------------------------------------- when `seen` can be trusted

  /** No type present is a proper prefix of another. */
  ghost predicate PrefixFree(ts: set<string>) {
    forall t, t' :: t in ts && t' in ts && t <= t' ==> t == t'
  }

  lemma PrefixFreeIsUnambiguous(gpos: seq<GPO>)
    requires PrefixFree(Types(gpos))
    ensures Unambiguous(gpos)
  {
    hide Contributes;
    forall t, k, t', k' | Contributes(gpos, t, k) && Contributes(gpos, t', k') && t + k == t' + k'
      ensures t == t' && k == k'
    {
      ContributingType(gpos, t, k);
      ContributingType(gpos, t', k');
      PrefixesOfOne(t, k, t', k');
    }
  }

  lemma PrefixesOfOne(t: string, k: string, t': string, k': string)
    requires t + k == t' + k'
    ensures t <= t' || t' <= t
    ensures t == t' ==> k == k'
  {
    if |t| <= |t'| {
      assert t == (t + k)[..|t|] == (t' + k')[..|t|] == t'[..|t|];
    } else {
      assert t' == (t' + k')[..|t'|] == (t + k)[..|t'|] == t[..|t'|];
    }
    if t == t' { assert k == (t + k)[|t|..] == (t' + k')[|t|..] == k'; }
  }

  /** The types the managers ask for. */
  const MANAGED_TYPES := {"dconf", "privilege", "scripts", "mount", "apparmor", "proxy", "certificate", "gdm"}

  /** With those types and no other, the result is always the one the GPOs mean. */
  lemma ManagedTypesAreUnambiguous(gpos: seq<GPO>)
    requires Types(gpos) <= MANAGED_TYPES
    ensures Unambiguous(gpos)
  {
    forall t, t' | t in MANAGED_TYPES && t' in MANAGED_TYPES && t <= t' ensures t == t' {
      assert t[0] == t'[0] && t[2] == t'[2];
    }
    PrefixFreeIsUnambiguous(gpos);
  }

  // ---------------------------------------------------------------- merging in plain terms

  /** An override that comes first is the result, disabled or not, whatever follows. */
  lemma OverrideFirst(e: Entry, occ: seq<Entry>)
    requires e.strategy != "append"
    ensures Merged([e] + occ) == Some(e)
  {
    MergedAlone(e);
    OtherCases([e], occ);
  }

  /** A disabled append might as well not be there. */
  lemma DisabledAppend(a: seq<Entry>, e: Entry, b: seq<Entry>)
    requires e.strategy == "append" && e.disabled
    ensures Merged(a + [e] + b) == Merged(a + b)
  {
    Singleton(e);
    Concat(a, [e]);
    Concat(a + [e], b);
    Concat(a, b);
    assert EffectiveOnes(a) + [] == EffectiveOnes(a) && Additions(a) + [] == Additions(a);
  }

  /** An enabled append that comes first gathers those that follow, each on a line in front, keeps its
      own meta, and is not touched by overrides. */
  lemma AppendFirst(e: Entry, occ: seq<Entry>, f: Entry)
    requires e.strategy == "append" && !e.disabled
    ensures Merged([e]) == Some(e)
    ensures f.strategy != "append" ==> Merged([e] + occ + [f]) == Merged([e] + occ)
    ensures f.strategy == "append" && !f.disabled ==>
              var m := Merged([e] + occ);
              m.Some? && Merged([e] + occ + [f]) == Some(f.(value := f.value + "\n" + m.value.value, meta := e.meta))
  {
    MergedAlone(e);
    AppendCase([e], occ);
    MergedStep([e] + occ, f);
    NoEffectNoAdditions(occ);
  }

  lemma {:induction false} TypesAre(gpos: seq<GPO>, t: string)
    ensures t in Types(gpos) <==> exists i :: 0 <= i < |gpos| && t in gpos[i].rules
    decreases |gpos|
  {
    if gpos != [] {
      var front := gpos[..|gpos| - 1];
      TypesAre(front, t);
      if i :| 0 <= i < |front| && t in front[i].rules { assert gpos[i] == front[i]; }
      if i :| 0 <= i < |gpos| && t in gpos[i].rules { assert i < |front| ==> front[i] == gpos[i]; }
    }
  }

  /** Of two GPOs that override the same key the closest, which is the first, has its way. */
  lemma ClosestOverrides(g: GPO, rest: seq<GPO>, t: string, e: Entry)
    requires t in g.rules && g.rules[t] != [] && g.rules[t][0] == e && e.strategy != "append"
    ensures Merged(Occurrences([g] + rest, t, e.key)) == Some(e)
  {
    hide Merged, Keyed, Occurrences;
    OccurrencesConcat([g], rest, t, e.key);
    OneGPO(g, t, e.key);
    KeyedFirst(g.rules[t], e.key);
    var k := Keyed(g.rules[t], e.key);
    assert k == [e] + k[1..];
    assert k + Occurrences(rest, t, e.key) == [e] + (k[1..] + Occurrences(rest, t, e.key));
    OverrideFirst(e, k[1..] + Occurrences(rest, t, e.key));
  }

  lemma OneGPO(g: GPO, t: string, k: string)
    requires t in g.rules
    ensures Occurrences([g], t, k) == Keyed(g.rules[t], k)
  {
    hide Keyed;
    assert [g][..0] == [] && Occurrences([], t, k) == [];
  }

  lemma {:induction false} KeyedFirst(es: seq<Entry>, k: string)
    requires es != [] && es[0].key == k
    ensures Keyed(es, k) != [] && Keyed(es, k)[0] == es[0]
    decreases |es|
  {
    if |es| > 1 {
      KeyedFirst(es[..|es| - 1], k);
    } else {
      assert es[..0] == [] && Keyed(es[..0], k) == [];
    }
  }
}
