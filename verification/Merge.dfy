/** Merging the rules of an ordered list of GPOs, closest first, into one entry per type and key. */
module Merge {
  import opened Basics
  import opened Entries

  // ---------------------------------------------------------------- what merging means

  function Keyed(es: seq<Entry>, k: string): seq<Entry> {
    if es == [] then []
    else Keyed(es[..|es| - 1], k) + if es[|es| - 1].key == k then [es[|es| - 1]] else []
  }

  function Rules(g: GPO, t: string): seq<Entry> {
    Get(g.rules, t)
  }

  /** Everything the GPOs say about a key of a type, closest GPO first. */
  function Occurrences(gpos: seq<GPO>, t: string, k: string): seq<Entry> {
    if gpos == [] then []
    else Occurrences(gpos[..|gpos| - 1], t, k) + Keyed(Rules(gpos[|gpos| - 1], t), k)
  }

  /** A disabled append has no effect at all. */
  predicate Effective(e: Entry) { !(Appends(e) && e.disabled) }

  function EffectiveOnes(occ: seq<Entry>): seq<Entry> {
    if occ == [] then []
    else EffectiveOnes(occ[..|occ| - 1]) + if Effective(occ[|occ| - 1]) then [occ[|occ| - 1]] else []
  }

  /** The enabled appends, closest first. */
  function Additions(occ: seq<Entry>): seq<Entry> {
    if occ == [] then []
    else Additions(occ[..|occ| - 1])
         + if Appends(occ[|occ| - 1]) && !occ[|occ| - 1].disabled then [occ[|occ| - 1]] else []
  }

  function Lines(vs: seq<string>): string {
    if vs == [] then "" else if |vs| == 1 then vs[0] else vs[0] + "\n" + Lines(vs[1..])
  }

  /** The values of a list of entries, last entry first. */
  function ValuesReversed(es: seq<Entry>): seq<string> {
    if es == [] then [] else [es[|es| - 1].value] + ValuesReversed(es[..|es| - 1])
  }

  /** The first effective occurrence decides. An override is taken as it is and is final. An append
      gathers every enabled append: one line each, the furthest GPO first, with the closest meta. */
  function Merged(occ: seq<Entry>): Option<Entry> {
    var eff := EffectiveOnes(occ);
    if eff == [] then None
    else if !Appends(eff[0]) then Some(eff[0])
    else
      AppendFirstHasAdditions(occ);
      var adds := Additions(occ);
      Some(adds[|adds| - 1].(value := Lines(ValuesReversed(adds)), meta := adds[0].meta))
  }

  lemma {:induction false} AppendFirstHasAdditions(occ: seq<Entry>)
    ensures EffectiveOnes(occ) != [] && Appends(EffectiveOnes(occ)[0]) ==>
              Additions(occ) != [] && Additions(occ)[0] == EffectiveOnes(occ)[0]
    decreases |occ|
  {
    if occ != [] {
      AppendFirstHasAdditions(occ[..|occ| - 1]);
      NoEffectNoAdditions(occ[..|occ| - 1]);
    }
  }

  lemma {:induction false} NoEffectNoAdditions(occ: seq<Entry>)
    ensures EffectiveOnes(occ) == [] ==> Additions(occ) == []
    ensures forall e :: e in EffectiveOnes(occ) ==> e in occ
    ensures forall e :: e in Additions(occ) ==> e in occ && Appends(e) && !e.disabled
    decreases |occ|
  {
    if occ != [] { NoEffectNoAdditions(occ[..|occ| - 1]); }
  }

  /** The types present in some GPO. */
  function Types(gpos: seq<GPO>): set<string> {
    if gpos == [] then {} else Types(gpos[..|gpos| - 1]) + gpos[|gpos| - 1].rules.Keys
  }

  /** The result of the whole merge: the types are those present, each type's list is strictly
      sorted by key and holds exactly the merged entries of that type. */
  ghost predicate IsUniqueRules(gpos: seq<GPO>, r: map<string, seq<Entry>>) {
    && r.Keys == Types(gpos)
    && forall t :: t in r ==> IsMergedList(gpos, t, r[t])
  }

  ghost predicate IsMergedList(gpos: seq<GPO>, t: string, es: seq<Entry>) {
    && (forall i, j :: 0 <= i < j < |es| ==> Below(es[i].key, es[j].key))
    && (forall e :: e in es ==> Merged(Occurrences(gpos, t, e.key)) == Some(e))
    && (forall k :: Merged(Occurrences(gpos, t, k)).Some? ==> Merged(Occurrences(gpos, t, k)).value in es)
  }

  // ---------------------------------------------------------------- there is one such result

  lemma {:induction false} KeyedKeys(es: seq<Entry>, k: string)
    ensures forall e :: e in Keyed(es, k) <==> e in es && e.key == k
    decreases |es|
  {
    if es != [] { KeyedKeys(es[..|es| - 1], k); }
  }

  lemma {:induction false} OccurrenceKeys(gpos: seq<GPO>, t: string, k: string)
    ensures forall e :: e in Occurrences(gpos, t, k) ==> e.key == k
    decreases |gpos|
  {
    if gpos != [] {
      OccurrenceKeys(gpos[..|gpos| - 1], t, k);
      KeyedKeys(Rules(gpos[|gpos| - 1], t), k);
    }
  }

  lemma MergedKey(gpos: seq<GPO>, t: string, k: string)
    ensures Merged(Occurrences(gpos, t, k)).Some? ==> Merged(Occurrences(gpos, t, k)).value.key == k
  {
    var occ := Occurrences(gpos, t, k);
    OccurrenceKeys(gpos, t, k);
    NoEffectNoAdditions(occ);
    AppendFirstHasAdditions(occ);
  }

  function KeysOf(es: seq<Entry>): seq<string> { seq(|es|, i requires 0 <= i < |es| => es[i].key) }

  lemma MergedListUnique(gpos: seq<GPO>, t: string, xs: seq<Entry>, ys: seq<Entry>)
    requires IsMergedList(gpos, t, xs) && IsMergedList(gpos, t, ys)
    ensures xs == ys
  {
    forall k ensures k in KeysOf(xs) <==> k in KeysOf(ys) {
      MergedKey(gpos, t, k);
      if k in KeysOf(xs) {
        var i :| 0 <= i < |xs| && KeysOf(xs)[i] == k;
        assert xs[i] in xs && xs[i] in ys;
        var j :| 0 <= j < |ys| && ys[j] == xs[i];
        assert KeysOf(ys)[j] == k;
      }
      if k in KeysOf(ys) {
        var i :| 0 <= i < |ys| && KeysOf(ys)[i] == k;
        assert ys[i] in ys && ys[i] in xs;
        var j :| 0 <= j < |xs| && xs[j] == ys[i];
        assert KeysOf(xs)[j] == k;
      }
    }
    SortedUnique(KeysOf(xs), KeysOf(ys));
    assert |xs| == |KeysOf(xs)| == |ys|;
    forall i | 0 <= i < |xs| ensures xs[i] == ys[i] {
      assert KeysOf(xs)[i] == KeysOf(ys)[i];
      assert xs[i] in xs && ys[i] in ys;
    }
  }

  /** Whatever order Go walks its maps in, there is only one result it can return. */
  lemma UniqueRulesUnique(gpos: seq<GPO>, r1: map<string, seq<Entry>>, r2: map<string, seq<Entry>>)
    requires IsUniqueRules(gpos, r1) && IsUniqueRules(gpos, r2)
    ensures r1 == r2
  {
    assert forall t :: t in r1 <==> t in r2;
    forall t | t in r1 ensures r1[t] == r2[t] {
      MergedListUnique(gpos, t, r1[t], r2[t]);
    }
  }

  // ---------------------------------------------------------------- the program's maps

  /** One more occurrence, as the program folds it in: an override is only taken first, an append is
      put in front of the value so far unless that value is an override's. */
  lemma MergedStep(occ: seq<Entry>, e: Entry)
    ensures !Effective(e) ==> Merged(occ + [e]) == Merged(occ)
    ensures Effective(e) && Merged(occ).None? ==> Merged(occ + [e]) == Some(e)
    ensures Merged(occ).Some? && !(Appends(e) && Appends(Merged(occ).value)) ==> Merged(occ + [e]) == Merged(occ)
    ensures Merged(occ).Some? && Effective(e) && Appends(e) && Appends(Merged(occ).value) ==>
              Merged(occ + [e]) ==
              Some(e.(value := e.value + "\n" + Merged(occ).value.value, meta := Merged(occ).value.meta))
  {
    AppendFirstHasAdditions(occ);
    NoEffectNoAdditions(occ);
    AppendFirstHasAdditions(occ + [e]);
    OneMore(occ, e);
    LinesOneMore(Additions(occ), e);
    hide EffectiveOnes, Additions, ValuesReversed, Lines;
    var eff, adds := EffectiveOnes(occ), Additions(occ);
    assert eff + [] == eff && adds + [] == adds;
  }

  lemma OneMore(occ: seq<Entry>, e: Entry)
    ensures EffectiveOnes(occ + [e]) == EffectiveOnes(occ) + if Effective(e) then [e] else []
    ensures Additions(occ + [e]) == Additions(occ) + if Appends(e) && !e.disabled then [e] else []
  {
    assert (occ + [e])[..|occ|] == occ;
  }

  lemma LinesOneMore(adds: seq<Entry>, e: Entry)
    ensures Lines(ValuesReversed(adds + [e])) ==
            if adds == [] then e.value else e.value + "\n" + Lines(ValuesReversed(adds))
  {
    assert (adds + [e])[..|adds|] == adds;
    assert ValuesReversed(adds + [e]) == [e.value] + ValuesReversed(adds);
    assert ([e.value] + ValuesReversed(adds))[1..] == ValuesReversed(adds);
  }

  /** Some GPO has something to say about the key of this type: it has to be in the result. */
  predicate Contributes(gpos: seq<GPO>, t: string, k: string) { Merged(Occurrences(gpos, t, k)).Some? }

  /** `seen` is keyed by the type and the key run together; that tells the pairs that have to be in the
      result apart. */
  ghost predicate Unambiguous(gpos: seq<GPO>) {
    forall t, k, t', k' {:trigger Contributes(gpos, t, k), Contributes(gpos, t', k')} ::
      Contributes(gpos, t, k) && Contributes(gpos, t', k') && t + k == t' + k' ==> t == t' && k == k'
  }

  lemma {:induction false} EffectiveIsKept(occ: seq<Entry>, e: Entry)
    requires e in occ && Effective(e)
    ensures e in EffectiveOnes(occ)
    decreases |occ|
  {
    if e != occ[|occ| - 1] { EffectiveIsKept(occ[..|occ| - 1], e); }
  }

  lemma {:induction false} EffectiveContributes(gpos: seq<GPO>, g: nat, t: string, e: Entry)
    requires g < |gpos| && t in gpos[g].rules && e in gpos[g].rules[t] && Effective(e)
    ensures e in Occurrences(gpos, t, e.key) && Contributes(gpos, t, e.key)
    decreases |gpos|
  {
    hide Merged;
    if g < |gpos| - 1 {
      EffectiveContributes(gpos[..|gpos| - 1], g, t, e);
    } else {
      KeyedKeys(Rules(gpos[g], t), e.key);
    }
    EffectiveMerges(Occurrences(gpos, t, e.key), e);
  }

  lemma EffectiveMerges(occ: seq<Entry>, e: Entry)
    requires e in occ && Effective(e)
    ensures Merged(occ).Some?
  {
    EffectiveIsKept(occ, e);
  }

  lemma {:induction false} NoSuchType(gpos: seq<GPO>, t: string, k: string)
    ensures t !in Types(gpos) ==> Occurrences(gpos, t, k) == []
    decreases |gpos|
  {
    if gpos != [] { NoSuchType(gpos[..|gpos| - 1], t, k); }
  }

  lemma ContributingType(gpos: seq<GPO>, t: string, k: string)
    requires Contributes(gpos, t, k)
    ensures t in Types(gpos)
  {
    NoSuchType(gpos, t, k);
  }

  type Dedup = map<string, map<string, Entry>>

  predicate Has(dedup: Dedup, t: string, k: string) { t in dedup && k in dedup[t] }

  function Lookup(dedup: Dedup, t: string, k: string): Entry {
    if Has(dedup, t, k) then dedup[t][k] else ZERO_ENTRY
  }

  /** The entries handled so far, in the order they were handled in. */
  type Log = seq<(string, Entry)>

  ghost function Handled(log: Log, t: string, k: string): seq<Entry> {
    if log == [] then []
    else
      var (t', e) := log[|log| - 1];
      Handled(log[..|log| - 1], t, k) + if t' == t && e.key == k then [e] else []
  }

  /** The value so far of every pair is the merge of what was handled. */
  ghost predicate Tracks(log: Log, dedup: Dedup) {
    forall t, k :: Merged(Handled(log, t, k)) == if Has(dedup, t, k) then Some(Lookup(dedup, t, k)) else None
  }

  /** Whatever was handled, the maps are about the same pairs, `met`, no two of which share the key
      that `seen` has for them. */
  ghost predicate Shape(dedup: Dedup, seen: set<string>, keys: map<string, seq<string>>, met: set<(string, string)>) {
    DedupShape(dedup, met) && SeenShape(seen, met) && KeysShape(keys, met)
  }

  ghost predicate DedupShape(dedup: Dedup, met: set<(string, string)>) {
    forall t, k :: ((t, k) in met <==> Has(dedup, t, k)) && (Has(dedup, t, k) ==> Lookup(dedup, t, k).key == k)
  }

  ghost predicate SeenShape(seen: set<string>, met: set<(string, string)>) {
    && (forall p :: p in met ==> p.0 + p.1 in seen)
    && (forall s :: s in seen ==> exists p :: p in met && p.0 + p.1 == s)
    && ToldApart(met)
  }

  ghost predicate ToldApart(met: set<(string, string)>) {
    forall p, q :: p in met && q in met && p.0 + p.1 == q.0 + q.1 ==> p == q
  }

  ghost predicate KeysShape(keys: map<string, seq<string>>, met: set<(string, string)>) {
    forall t :: KeysShapeOne(if t in keys then keys[t] else [], t, met)
  }

  ghost predicate KeysShapeOne(ks: seq<string>, t: string, met: set<(string, string)>) {
    (forall k :: k in ks <==> (t, k) in met) && Distinct(ks)
  }

  lemma LookupUpdate(dedup: Dedup, t: string, k: string, m: Entry)
    requires t in dedup
    ensures var dedup' := dedup[t := dedup[t][k := m]];
            forall t', k' ::
              && (Has(dedup', t', k') <==> Has(dedup, t', k') || (t' == t && k' == k))
              && Lookup(dedup', t', k') == if t' == t && k' == k then m else Lookup(dedup, t', k')
  {}

  lemma TracksSkip(log: Log, dedup: Dedup, t: string, e: Entry)
    requires Tracks(log, dedup) && Merged(Handled(log, t, e.key) + [e]) == Merged(Handled(log, t, e.key))
    ensures Tracks(log + [(t, e)], dedup)
  {
    hide Merged, Handled;
    MergedOneMore(log, t, e);
  }

  lemma TracksUpdate(log: Log, dedup: Dedup, t: string, e: Entry, m: Entry)
    requires Tracks(log, dedup) && t in dedup && Merged(Handled(log, t, e.key) + [e]) == Some(m)
    ensures Tracks(log + [(t, e)], dedup[t := dedup[t][e.key := m]])
  {
    hide Merged, Handled;
    MergedOneMore(log, t, e);
    LookupUpdate(dedup, t, e.key, m);
  }

  lemma ShapeReplace(dedup: Dedup, met: set<(string, string)>, t: string, m: Entry)
    requires DedupShape(dedup, met) && Has(dedup, t, m.key)
    ensures DedupShape(dedup[t := dedup[t][m.key := m]], met)
  {
    LookupUpdate(dedup, t, m.key, m);
  }

  lemma ShapeNew(dedup: Dedup, seen: set<string>, keys: map<string, seq<string>>, met: set<(string, string)>, t: string,
                 m: Entry)
    requires Shape(dedup, seen, keys, met) && t in dedup && t + m.key !in seen
    ensures Shape(dedup[t := dedup[t][m.key := m]], seen + {t + m.key},
                  keys[t := (if t in keys then keys[t] else []) + [m.key]], met + {(t, m.key)})
  {
    LookupUpdate(dedup, t, m.key, m);
    SeenNew(seen, met, t, m.key);
    KeysNew(keys, met, t, m.key);
  }

  lemma SeenNew(seen: set<string>, met: set<(string, string)>, t: string, k: string)
    requires SeenShape(seen, met) && t + k !in seen
    ensures SeenShape(seen + {t + k}, met + {(t, k)})
  {
    var seen', met' := seen + {t + k}, met + {(t, k)};
    forall s | s in seen' ensures exists p :: p in met' && p.0 + p.1 == s {
      if s in seen {
        var p :| p in met && p.0 + p.1 == s;
        assert p in met';
      } else {
        assert (t, k) in met';
      }
    }
  }

  lemma KeysNew(keys: map<string, seq<string>>, met: set<(string, string)>, t: string, k: string)
    requires KeysShape(keys, met) && (t, k) !in met
    ensures KeysShape(keys[t := (if t in keys then keys[t] else []) + [k]], met + {(t, k)})
  {
    var earlier := if t in keys then keys[t] else [];
    var keys' := keys[t := earlier + [k]];
    forall t' ensures KeysShapeOne(if t' in keys' then keys'[t'] else [], t', met + {(t, k)}) {
      assert KeysShapeOne(if t' in keys then keys[t'] else [], t', met);
      if t' == t { assert forall i :: 0 <= i < |earlier| ==> earlier[i] in earlier; }
    }
  }

  lemma MergedOneMore(log: Log, t: string, e: Entry)
    ensures forall t', k :: Merged(Handled(log + [(t, e)], t', k)) ==
                            if t == t' && e.key == k then Merged(Handled(log, t, e.key) + [e])
                            else Merged(Handled(log, t', k))
  {
    HandledOneMore(log, t, e);
    forall t', k | !(t == t' && e.key == k)
      ensures Handled(log + [(t, e)], t', k) == Handled(log, t', k)
    {
      assert Handled(log, t', k) + [] == Handled(log, t', k);
    }
  }

  /** The body of the innermost loop. `clear`: no other pair has taken this one's place in `seen`. */
  method AddEntry(t: string, e0: Entry, dedup: Dedup, seen: set<string>, keys: map<string, seq<string>>,
                  ghost log: Log, ghost met: set<(string, string)>, ghost clear: bool)
    returns (dedup': Dedup, seen': set<string>, keys': map<string, seq<string>>, ghost met': set<(string, string)>)
    requires t in dedup && Shape(dedup, seen, keys, met)
    requires clear ==> Tracks(log, dedup)
    requires clear && Effective(e0) ==> forall p :: p in met && p.0 + p.1 == t + e0.key ==> p == (t, e0.key)
    ensures dedup'.Keys == dedup.Keys && Shape(dedup', seen', keys', met')
    ensures met' == met || (Effective(e0) && met' == met + {(t, e0.key)})
    ensures clear ==> Tracks(log + [(t, e0)], dedup')
  {
    hide Tracks, Merged, Handled, SeenShape, KeysShape;
    dedup', seen', keys', met' := dedup, seen, keys, met;
    MergedStep(Handled(log, t, e0.key), e0);
    if clear { MergedSoFar(log, dedup, t, e0.key); }
    SeenIs(seen, met, t, e0.key);
    var e := e0;
    if e.strategy == STRATEGY_APPEND {
      if e.disabled {
        if clear { TracksSkip(log, dedup, t, e0); }
        return;
      }
      var keyAlreadySeen := false;
      if t + e.key in seen {
        keyAlreadySeen := true;
        if Lookup(dedup, t, e.key).strategy != STRATEGY_APPEND {
          if clear { TracksSkip(log, dedup, t, e0); }
          return;
        }
        e := e.(value := e.value + "\n" + Lookup(dedup, t, e.key).value, meta := Lookup(dedup, t, e.key).meta);
      }
      dedup' := dedup[t := dedup[t][e.key := e]];
      if keyAlreadySeen {
        ShapeReplace(dedup, met, t, e);
        if clear { TracksUpdate(log, dedup, t, e0, e); }
        return;
      }
    } else {
      if t + e.key in seen {
        if clear { TracksSkip(log, dedup, t, e0); }
        return;
      }
      dedup' := dedup[t := dedup[t][e.key := e]];
    }
    keys' := keys[t := (if t in keys then keys[t] else []) + [e.key]];
    seen' := seen + {t + e.key};
    met' := met + {(t, e0.key)};
    ShapeNew(dedup, seen, keys, met, t, e);
    if clear { TracksUpdate(log, dedup, t, e0, e); }
  }

  lemma MergedSoFar(log: Log, dedup: Dedup, t: string, k: string)
    requires Tracks(log, dedup)
    ensures Merged(Handled(log, t, k)) == if Has(dedup, t, k) then Some(Lookup(dedup, t, k)) else None
  {}

  lemma SeenIs(seen: set<string>, met: set<(string, string)>, t: string, k: string)
    requires SeenShape(seen, met)
    ensures (t, k) in met ==> t + k in seen
    ensures t + k in seen && (forall p :: p in met && p.0 + p.1 == t + k ==> p == (t, k)) ==> (t, k) in met
  {}

  lemma HandledOneMore(log: Log, t: string, e: Entry)
    ensures forall t', k :: Handled(log + [(t, e)], t', k) ==
                            Handled(log, t', k) + if t == t' && e.key == k then [e] else []
  {
    assert (log + [(t, e)])[..|log|] == log;
  }

  lemma EmptyType(log: Log, dedup: Dedup, met: set<(string, string)>, t: string)
    requires t !in dedup
    ensures DedupShape(dedup, met) ==> DedupShape(dedup[t := map[]], met)
    ensures Tracks(log, dedup) ==> Tracks(log, dedup[t := map[]])
  {
    var dedup' := dedup[t := map[]];
    forall t', k ensures (Has(dedup', t', k) <==> Has(dedup, t', k)) && Lookup(dedup', t', k) == Lookup(dedup, t', k) {
    }
    if DedupShape(dedup, met) {
      forall t', k ensures ((t', k) in met <==> Has(dedup', t', k)) && (Has(dedup', t', k) ==> Lookup(dedup', t', k).key == k) {
        assert (t', k) in met <==> Has(dedup, t', k);
      }
    }
  }

  ghost predicate AllContribute(gpos: seq<GPO>, met: set<(string, string)>) {
    forall p :: p in met ==> Contributes(gpos, p.0, p.1)
  }

  /** A type's list as it is handled. */
  ghost function Tagged(t: string, es: seq<Entry>): Log {
    seq(|es|, i requires 0 <= i < |es| => (t, es[i]))
  }

  lemma {:induction false} HandledTagged(log: Log, t: string, es: seq<Entry>, t': string, k: string)
    ensures Handled(log + Tagged(t, es), t', k) == Handled(log, t', k) + if t' == t then Keyed(es, k) else []
    decreases |es|
  {
    hide Handled;
    if es == [] {
      assert log + Tagged(t, es) == log;
    } else {
      var m := |es| - 1;
      HandledTagged(log, t, es[..m], t', k);
      assert log + Tagged(t, es) == (log + Tagged(t, es[..m])) + [(t, es[m])];
      HandledOneMore(log + Tagged(t, es[..m]), t, es[m]);
    }
  }

  lemma OnlyOnePair(gpos: seq<GPO>, met: set<(string, string)>, t: string, k: string)
    requires Unambiguous(gpos) && AllContribute(gpos, met) && Contributes(gpos, t, k)
    ensures forall p :: p in met && p.0 + p.1 == t + k ==> p == (t, k)
  {
    hide Contributes;
    forall p | p in met && p.0 + p.1 == t + k ensures p == (t, k) {
      assert Contributes(gpos, p.0, p.1);
    }
  }

  /** The loop over one type's entries of one GPO. */
  method AddRules(gpos: seq<GPO>, g: nat, t: string, dedup: Dedup, seen: set<string>, keys: map<string, seq<string>>,
                  ghost log: Log, ghost met: set<(string, string)>)
    returns (dedup': Dedup, seen': set<string>, keys': map<string, seq<string>>, ghost met': set<(string, string)>)
    requires g < |gpos| && t in gpos[g].rules && AllContribute(gpos, met) && Shape(dedup, seen, keys, met)
    requires Unambiguous(gpos) ==> Tracks(log, dedup)
    ensures dedup'.Keys == dedup.Keys + {t} && AllContribute(gpos, met') && Shape(dedup', seen', keys', met')
    ensures Unambiguous(gpos) ==> Tracks(log + Tagged(t, gpos[g].rules[t]), dedup')
  {
    hide Tracks, DedupShape, SeenShape, KeysShape, Unambiguous, Contributes;
    dedup', seen', keys', met' := dedup, seen, keys, met;
    ghost var clear := Unambiguous(gpos);
    if t !in dedup {
      dedup' := dedup[t := map[]];
      EmptyType(log, dedup, met, t);
    }
    var entries := gpos[g].rules[t];
    assert log + Tagged(t, entries[..0]) == log;
    for n := 0 to |entries|
      invariant dedup'.Keys == dedup.Keys + {t} && AllContribute(gpos, met') && Shape(dedup', seen', keys', met')
      invariant clear ==> Tracks(log + Tagged(t, entries[..n]), dedup')
    {
      ghost var sofar, e := log + Tagged(t, entries[..n]), entries[n];
      if Effective(e) {
        EffectiveContributes(gpos, g, t, e);
        if clear { OnlyOnePair(gpos, met', t, e.key); }
      }
      dedup', seen', keys', met' := AddEntry(t, entries[n], dedup', seen', keys', sofar, met', clear);
      assert log + Tagged(t, entries[..n + 1]) == sofar + [(t, entries[n])];
    }
    assert entries[..|entries|] == entries;
  }

  /** The loop over the types of one GPO, in the order the map happens to give them. */
  method AddGPO(gpos: seq<GPO>, g: nat, dedup: Dedup, seen: set<string>, keys: map<string, seq<string>>,
                ghost log: Log, ghost met: set<(string, string)>)
    returns (dedup': Dedup, seen': set<string>, keys': map<string, seq<string>>,
             ghost log': Log, ghost met': set<(string, string)>)
    requires g < |gpos| && AllContribute(gpos, met) && Shape(dedup, seen, keys, met)
    requires Unambiguous(gpos) ==> Tracks(log, dedup)
    ensures dedup'.Keys == dedup.Keys + gpos[g].rules.Keys
    ensures AllContribute(gpos, met') && Shape(dedup', seen', keys', met')
    ensures Unambiguous(gpos) ==> Tracks(log', dedup')
    ensures forall t, k :: Handled(log', t, k) == Handled(log, t, k) + Keyed(Rules(gpos[g], t), k)
  {
    hide Tracks, Shape, Unambiguous, Handled, AllContribute;
    dedup', seen', keys', log', met' := dedup, seen, keys, log, met;
    ghost var clear := Unambiguous(gpos);
    var todo := gpos[g].rules.Keys;
    while todo != {}
      invariant todo <= gpos[g].rules.Keys
      invariant dedup'.Keys == dedup.Keys + (gpos[g].rules.Keys - todo)
      invariant AllContribute(gpos, met') && Shape(dedup', seen', keys', met')
      invariant clear ==> Tracks(log', dedup')
      invariant forall t, k :: Handled(log', t, k) == Handled(log, t, k) + TypeDone(gpos[g], todo, t, k)
    {
      var t :| t in todo;
      dedup', seen', keys', met' := AddRules(gpos, g, t, dedup', seen', keys', log', met');
      AnotherType(gpos[g], log, log', todo, t);
      log' := log' + Tagged(t, gpos[g].rules[t]);
      todo := todo - {t};
    }
  }

  ghost function TypeDone(g: GPO, todo: set<string>, t: string, k: string): seq<Entry> {
    if t in todo then [] else Keyed(Rules(g, t), k)
  }

  lemma AnotherType(g: GPO, log: Log, log': Log, todo: set<string>, t: string)
    requires t in todo && t in g.rules
    requires forall t', k :: Handled(log', t', k) == Handled(log, t', k) + TypeDone(g, todo, t', k)
    ensures forall t', k :: Handled(log' + Tagged(t, g.rules[t]), t', k)
                            == Handled(log, t', k) + TypeDone(g, todo - {t}, t', k)
  {
    forall t', k
      ensures Handled(log' + Tagged(t, g.rules[t]), t', k) == Handled(log, t', k) + TypeDone(g, todo - {t}, t', k)
    {
      HandledTagged(log', t, g.rules[t], t', k);
    }
  }

  ghost predicate AllHandled(log: Log, gpos: seq<GPO>) {
    forall t, k :: Handled(log, t, k) == Occurrences(gpos, t, k)
  }

  lemma AnotherGPO(gpos: seq<GPO>, g: nat, log: Log, log': Log)
    requires g < |gpos| && AllHandled(log, gpos[..g])
    requires forall t, k :: Handled(log', t, k) == Handled(log, t, k) + Keyed(Rules(gpos[g], t), k)
    ensures AllHandled(log', gpos[..g + 1])
  {
    assert gpos[..g + 1][..g] == gpos[..g];
  }

  lemma TypesOneMore(gpos: seq<GPO>, g: nat)
    requires g < |gpos|
    ensures Types(gpos[..g + 1]) == Types(gpos[..g]) + gpos[g].rules.Keys
  {
    assert gpos[..g + 1][..g] == gpos[..g];
  }

  /** Ordered rules, one entry per type and key. The result is the one the GPOs mean, whatever order
      the maps are walked in, if and only if running type and key together confuses no two pairs that
      have to be in it. */
  method GetUniqueRules(gpos: seq<GPO>) returns (r: map<string, seq<Entry>>)
    ensures IsUniqueRules(gpos, r) <==> Unambiguous(gpos)
    ensures r.Keys == Types(gpos)
  {
    hide IsMergedList, Tracks, AllHandled, Unambiguous, Contributes;
    var keys: map<string, seq<string>> := map[];
    var dedup: Dedup, seen: set<string> := map[], {};
    ghost var log: Log, met: set<(string, string)> := [], {};
    ghost var clear := Unambiguous(gpos);
    NothingHandled(log, dedup);
    for g := 0 to |gpos|
      invariant AllContribute(gpos, met) && Shape(dedup, seen, keys, met)
      invariant clear ==> Tracks(log, dedup)
      invariant AllHandled(log, gpos[..g])
      invariant dedup.Keys == Types(gpos[..g])
    {
      ghost var before := log;
      dedup, seen, keys, log, met := AddGPO(gpos, g, dedup, seen, keys, log, met);
      AnotherGPO(gpos, g, before, log);
      TypesOneMore(gpos, g);
    }
    assert gpos[..|gpos|] == gpos;
    r := OrderAll(dedup, keys, gpos, log, met);
    if IsUniqueRules(gpos, r) { OnlyOneMakesIt(gpos, r, met); }
  }

  lemma NothingHandled(log: Log, dedup: Dedup)
    requires log == [] && dedup == map[]
    ensures Tracks(log, dedup) && AllHandled(log, [])
  {}

  /** Every entry of the result is one of the pairs met. */
  ghost predicate OnlyMet(r: map<string, seq<Entry>>, met: set<(string, string)>) {
    forall t :: t in r ==> OnlyMetIn(t, r[t], met)
  }

  ghost predicate OnlyMetIn(t: string, es: seq<Entry>, met: set<(string, string)>) {
    forall e :: e in es ==> (t, e.key) in met
  }

  /** Of two pairs that share their key in `seen` just one is met; so a result that has all it is to
      have is not confused. */
  lemma OnlyOneMakesIt(gpos: seq<GPO>, r: map<string, seq<Entry>>, met: set<(string, string)>)
    requires IsUniqueRules(gpos, r) && OnlyMet(r, met) && ToldApart(met)
    ensures Unambiguous(gpos)
  {
    hide Merged, Occurrences;
    forall t, k | Contributes(gpos, t, k) ensures (t, k) in met {
      ContributingType(gpos, t, k);
      assert IsMergedList(gpos, t, r[t]) && OnlyMetIn(t, r[t], met);
      MergedKey(gpos, t, k);
    }
    forall t, k, t', k' | Contributes(gpos, t, k) && Contributes(gpos, t', k') && t + k == t' + k'
      ensures t == t' && k == k'
    {
      assert (t, k) in met && (t', k') in met;
      assert (t, k) == (t', k');
    }
  }

  /** The last loop: every type's keys sorted, then the entries they name. */
  method OrderAll(dedup: Dedup, keys: map<string, seq<string>>, ghost gpos: seq<GPO>, ghost log: Log,
                  ghost met: set<(string, string)>)
    returns (r: map<string, seq<Entry>>)
    requires AllHandled(log, gpos) && DedupShape(dedup, met) && KeysShape(keys, met)
    ensures r.Keys == dedup.Keys && OnlyMet(r, met)
    ensures Tracks(log, dedup) ==> forall t :: t in r ==> IsMergedList(gpos, t, r[t])
  {
    hide IsMergedList, Tracks, AllHandled, DedupShape, OnlyMetIn;
    r := map[];
    var todo := dedup.Keys;
    while todo != {}
      invariant todo <= dedup.Keys && r.Keys == dedup.Keys - todo && OnlyMet(r, met)
      invariant Tracks(log, dedup) ==> forall t :: t in r ==> IsMergedList(gpos, t, r[t])
    {
      var t :| t in todo;
      var entries := Ordered(t, dedup, if t in keys then keys[t] else [], gpos, log, met);
      r := r[t := entries];
      todo := todo - {t};
    }
  }

  method Ordered(t: string, dedup: Dedup, ks: seq<string>, ghost gpos: seq<GPO>, ghost log: Log,
                 ghost met: set<(string, string)>)
    returns (entries: seq<Entry>)
    requires AllHandled(log, gpos) && DedupShape(dedup, met) && KeysShapeOne(ks, t, met)
    ensures OnlyMetIn(t, entries, met)
    ensures Tracks(log, dedup) ==> IsMergedList(gpos, t, entries)
  {
    var sorted := SortStrings(ks);
    entries := [];
    for i := 0 to |sorted|
      invariant |entries| == i
      invariant forall j :: 0 <= j < i ==> entries[j] == Lookup(dedup, t, sorted[j])
    {
      entries := entries + [Lookup(dedup, t, sorted[i])];
    }
    assert forall k :: k in sorted <==> k in multiset(sorted);
    assert forall k :: k in ks <==> k in multiset(ks);
    OrderedIsMerged(t, dedup, sorted, entries, gpos, log, met);
  }

  lemma OrderedIsMerged(t: string, dedup: Dedup, sorted: seq<string>, entries: seq<Entry>, gpos: seq<GPO>, log: Log,
                        met: set<(string, string)>)
    requires AllHandled(log, gpos) && DedupShape(dedup, met) && StrictlySorted(sorted)
    requires forall k :: k in sorted <==> (t, k) in met
    requires |entries| == |sorted| && forall j :: 0 <= j < |sorted| ==> entries[j] == Lookup(dedup, t, sorted[j])
    ensures OnlyMetIn(t, entries, met)
    ensures Tracks(log, dedup) ==> IsMergedList(gpos, t, entries)
  {
    hide Merged, Handled, Occurrences;
    forall i | 0 <= i < |entries| ensures entries[i].key == sorted[i] && (t, sorted[i]) in met {
      assert sorted[i] in sorted && Has(dedup, t, sorted[i]);
    }
    if Tracks(log, dedup) {
      forall i | 0 <= i < |entries| ensures Merged(Occurrences(gpos, t, sorted[i])) == Some(entries[i]) {
        assert Has(dedup, t, sorted[i]);
        MergedSoFar(log, dedup, t, sorted[i]);
        assert Handled(log, t, sorted[i]) == Occurrences(gpos, t, sorted[i]);
      }
      forall k | Merged(Occurrences(gpos, t, k)).Some? ensures Merged(Occurrences(gpos, t, k)).value in entries {
        MergedSoFar(log, dedup, t, k);
        assert Handled(log, t, k) == Occurrences(gpos, t, k);
        assert k in sorted;
        var i :| 0 <= i < |sorted| && sorted[i] == k;
        assert entries[i] in entries;
      }
    }
  }

  // ---------------------------------------------------------------- confused and not

  /** Two types and keys that are the same when run together: only one of the two entries is in the
      result, whichever it is. */
  lemma ClashLoses(v: string, w: string)
    ensures var e, f := Entry("bc", v, false, "", "override", None), Entry("c", w, false, "", "override", None);
            !Unambiguous([GPO("", "", map["a" := [e]]), GPO("", "", map["ab" := [f]])])
  {
    var e, f := Entry("bc", v, false, "", "override", None), Entry("c", w, false, "", "override", None);
    var gpos := [GPO("", "", map["a" := [e]]), GPO("", "", map["ab" := [f]])];
    assert e in gpos[0].rules["a"] && f in gpos[1].rules["ab"];
    EffectiveContributes(gpos, 0, "a", e);
    EffectiveContributes(gpos, 1, "ab", f);
    assert "a" + "bc" == "ab" + "c";
    assert "a" != "ab";
  }
}
