/** The entry loop that turns the decoded registry entries of one GPO into rules: every "all" entry
    is a rule, and entries for this release may replace its value. */
module ReleaseOverride {
  import opened Basics
  import opened Entries
  import opened GoStrings

  const KEY_FILTER_PREFIX := "Software/Policies/Ubuntu/"
  const CERT_AUTO_ENROLL_KEY := "Software/Policies/Microsoft/Cryptography/AutoEnrollment/AEPolicy"
  const POLICY_SERVERS_PREFIX := "Software/Policies/Microsoft/Cryptography/PolicyServers/"

  // ---------------------------------------------------------------- keys

  /** The two families of certificate keys are moved under the filter prefix. */
  function Rewritten(k: string): string {
    var k1 := if k == CERT_AUTO_ENROLL_KEY then KEY_FILTER_PREFIX + "certificate/autoenroll/all" else k;
    if POLICY_SERVERS_PREFIX <= k1 then KEY_FILTER_PREFIX + "certificate/" + k1 + "/all" else k1
  }

  /** An entry as the loop sees it: whether its key is supported, and the key taken apart into
      type, path and release. */
  datatype Item = Item(supported: bool, keyType: string, path: string, release: string, entry: Entry)

  function Look(e: Entry): Item {
    var k := Rewritten(e.key);
    var rest := TrimPrefix(k, KEY_FILTER_PREFIX);
    var keyType := rest[..FirstSlash(rest)];
    Item(KEY_FILTER_PREFIX <= k, keyType, Dir(TrimPrefix(rest, keyType + "/")), Base(rest), e)
  }

  function Items(es: seq<Entry>): seq<Item> { seq(|es|, i requires 0 <= i < |es| => Look(es[i])) }

  // ---------------------------------------------------------------- blocks

  predicate IsAll(e: Item) { e.supported && e.release == "all" }

  /** An override flag for this release, switched on. */
  predicate IsFlag(e: Item, version: string) {
    e.supported && !IsAll(e) && "Override" + version <= e.release && e.entry.value == "true"
  }

  /** The "all" entry that opened the block place n is in. */
  function Opener(es: seq<Item>, n: nat): (r: Option<nat>)
    requires n <= |es|
    ensures r.Some? ==> r.value < n && IsAll(es[r.value]) && forall k :: r.value < k < n ==> !IsAll(es[k])
    ensures r.None? ==> forall k :: 0 <= k < n ==> !IsAll(es[k])
  {
    if n == 0 then None else if IsAll(es[n - 1]) then Some(n - 1) else Opener(es, n - 1)
  }

  /** Some flag for the block's key has been seen since the block was opened. */
  ghost predicate Flagged(es: seq<Item>, o: nat, n: nat, version: string)
    requires o < n <= |es|
  {
    exists f :: o < f < n && IsFlag(es[f], version) && es[f].path == es[o].path
  }

  /** An entry whose value replaces that of a rule. */
  ghost predicate Applied(es: seq<Item>, i: nat, version: string)
    requires i < |es|
  {
    && es[i].supported && !IsAll(es[i]) && !IsFlag(es[i], version) && es[i].release == version
    && Opener(es, i).Some? && es[Opener(es, i).value].path == es[i].path
    && Flagged(es, Opener(es, i).value, i, version)
  }

  /** The "all" entries of a type, in input order. */
  function Openers(es: seq<Item>, n: nat, t: string): seq<nat>
    requires n <= |es|
  {
    if n == 0 then []
    else Openers(es, n - 1, t) + if IsAll(es[n - 1]) && es[n - 1].keyType == t then [n - 1] else []
  }

  /** The rule an applied entry writes to: the last one of the entry's own type. */
  function Target(es: seq<Item>, i: nat): Option<nat>
    requires i < |es|
  {
    var os := Openers(es, i, es[i].keyType);
    if os == [] then None else Some(os[|os| - 1])
  }

  /** The last of the first n entries whose value goes to the rule opened at o. */
  ghost function LastUpdate(es: seq<Item>, o: nat, n: nat, version: string): (r: Option<nat>)
    requires n <= |es|
    ensures r.Some? ==> r.value < n && Applied(es, r.value, version) && Target(es, r.value) == Some(o)
    ensures r.Some? ==> forall i :: r.value < i < n ==> !(Applied(es, i, version) && Target(es, i) == Some(o))
    ensures r.None? ==> forall i :: 0 <= i < n ==> !(Applied(es, i, version) && Target(es, i) == Some(o))
  {
    if n == 0 then None
    else if Applied(es, n - 1, version) && Target(es, n - 1) == Some(o) then Some(n - 1)
    else LastUpdate(es, o, n - 1, version)
  }

  ghost function RuleAt(es: seq<Item>, o: nat, n: nat, version: string): Entry
    requires o < |es| && n <= |es|
  {
    var u := LastUpdate(es, o, n, version);
    es[o].entry.(key := es[o].path, value := if u.Some? then es[u.value].entry.value else es[o].entry.value)
  }

  datatype Outcome = Rules(rules: map<string, seq<Entry>>) | ParseError | IndexPanic

  /** Where the loop does not get past: a supported entry with an error, or an applied entry without
      any rule of its type to write to. */
  ghost predicate Fails(es: seq<Item>, i: nat)
    requires i < |es|
  {
    es[i].supported && es[i].entry.err.Some?
  }

  ghost predicate Panics(es: seq<Item>, i: nat, version: string)
    requires i < |es|
  {
    !Fails(es, i) && Applied(es, i, version) && Target(es, i).None?
  }

  ghost predicate Holds(rules: map<string, seq<Entry>>, es: seq<Item>, n: nat, version: string)
    requires n <= |es|
  {
    && (forall t :: t in rules <==> Openers(es, n, t) != [])
    && (forall t :: HoldsType(Get(rules, t), es, n, t, version))
  }

  ghost predicate HoldsType(rs: seq<Entry>, es: seq<Item>, n: nat, t: string, version: string)
    requires n <= |es|
  {
    var os := Openers(es, n, t);
    |rs| == |os| && forall k :: 0 <= k < |os| ==> os[k] < n && rs[k] == RuleAt(es, os[k], n, version)
  }

  // ---------------------------------------------------------------- the loop

  lemma {:induction false} OpenersIncrease(es: seq<Item>, n: nat, t: string)
    requires n <= |es|
    ensures forall k :: 0 <= k < |Openers(es, n, t)| ==> Openers(es, n, t)[k] < n
    ensures forall k :: 0 <= k < |Openers(es, n, t)| ==>
                          var o := Openers(es, n, t)[k]; o < n && IsAll(es[o]) && es[o].keyType == t
    ensures forall j, k :: 0 <= j < k < |Openers(es, n, t)| ==> Openers(es, n, t)[j] < Openers(es, n, t)[k]
    decreases n
  {
    if n > 0 {
      OpenersIncrease(es, n - 1, t);
      assert Openers(es, n - 1, t) + [] == Openers(es, n - 1, t);
    }
  }

  /** How the lists of "all" entries grow. */
  lemma OpenersStep(es: seq<Item>, n: nat, t: string)
    requires n < |es|
    ensures IsAll(es[n]) && es[n].keyType == t ==> Openers(es, n + 1, t) == Openers(es, n, t) + [n]
    ensures !(IsAll(es[n]) && es[n].keyType == t) ==> Openers(es, n + 1, t) == Openers(es, n, t)
  {
    hide IsAll;
    assert Openers(es, n, t) + [] == Openers(es, n, t);
  }

  /** A type's rules after an entry that does not write to any of them. */
  lemma TypeUntouched(rs: seq<Entry>, es: seq<Item>, n: nat, t: string, version: string)
    requires n < |es| && HoldsType(rs, es, n, t, version) && !(IsAll(es[n]) && es[n].keyType == t)
    requires Applied(es, n, version) && Target(es, n).Some? ==> es[n].keyType != t
    ensures HoldsType(rs, es, n + 1, t, version)
  {
    hide Applied, IsAll, Target, Openers;
    var os := Openers(es, n, t);
    OpenersStep(es, n, t);
    forall k | 0 <= k < |os| ensures RuleAt(es, os[k], n + 1, version) == RuleAt(es, os[k], n, version) {
      if Applied(es, n, version) && Target(es, n).Some? { OtherTarget(es, n, os[k], t); }
    }
  }

  lemma OtherTarget(es: seq<Item>, n: nat, o: nat, t: string)
    requires n < |es| && o in Openers(es, n, t) && es[n].keyType != t
    ensures Target(es, n) != Some(o)
  {
    OpenersIncrease(es, n, t);
    OpenersIncrease(es, n, es[n].keyType);
  }

  lemma Quiet(rules: map<string, seq<Entry>>, es: seq<Item>, n: nat, version: string)
    requires n < |es| && Holds(rules, es, n, version) && !IsAll(es[n]) && !Applied(es, n, version)
    ensures Holds(rules, es, n + 1, version)
  {
    hide Applied, IsAll, HoldsType;
    forall t ensures Openers(es, n + 1, t) == Openers(es, n, t) && HoldsType(Get(rules, t), es, n + 1, t, version) {
      OpenersStep(es, n, t);
      TypeUntouched(Get(rules, t), es, n, t, version);
    }
  }

  lemma NewRule(rules: map<string, seq<Entry>>, es: seq<Item>, n: nat, version: string)
    requires n < |es| && Holds(rules, es, n, version) && IsAll(es[n])
    ensures var t := es[n].keyType;
            Holds(rules[t := Get(rules, t) + [es[n].entry.(key := es[n].path)]], es, n + 1, version)
  {
    var t0 := es[n].keyType;
    var rules' := rules[t0 := Get(rules, t0) + [es[n].entry.(key := es[n].path)]];
    assert !Applied(es, n, version);
    hide Applied, IsAll, HoldsType;
    forall t ensures (t in rules' <==> Openers(es, n + 1, t) != []) && HoldsType(Get(rules', t), es, n + 1, t, version) {
      OpenersStep(es, n, t);
      if t == t0 {
        NewRuleSame(Get(rules, t), es, n, version);
      } else {
        TypeUntouched(Get(rules, t), es, n, t, version);
      }
    }
  }

  lemma NewRuleSame(rs: seq<Entry>, es: seq<Item>, n: nat, version: string)
    requires n < |es| && HoldsType(rs, es, n, es[n].keyType, version) && IsAll(es[n]) && !Applied(es, n, version)
    ensures HoldsType(rs + [es[n].entry.(key := es[n].path)], es, n + 1, es[n].keyType, version)
  {
    Untouched(es, n, version);
    hide Applied, IsAll;
    OpenersStep(es, n, es[n].keyType);
  }

  /** A rule just opened has not been written to. */
  lemma Untouched(es: seq<Item>, o: nat, version: string)
    requires o < |es| && IsAll(es[o])
    ensures LastUpdate(es, o, o + 1, version).None?
  {
    var u := LastUpdate(es, o, o + 1, version);
    if u.Some? {
      OpenersIncrease(es, u.value, es[u.value].keyType);
      assert false;
    }
  }

  lemma Replaced(rules: map<string, seq<Entry>>, es: seq<Item>, n: nat, version: string)
    requires n < |es| && Holds(rules, es, n, version) && !IsAll(es[n])
    requires Applied(es, n, version) && Target(es, n).Some?
    ensures var t := es[n].keyType;
            && t in rules && rules[t] != []
            && Holds(rules[t := rules[t][|rules[t]| - 1 := rules[t][|rules[t]| - 1].(value := es[n].entry.value)]], es, n + 1, version)
  {
    hide Applied, IsAll, HoldsType, Target;
    var t0 := es[n].keyType;
    TargetIsLast(rules, es, n, version);
    var last := |rules[t0]| - 1;
    var rules' := rules[t0 := rules[t0][last := rules[t0][last].(value := es[n].entry.value)]];
    forall t ensures Openers(es, n + 1, t) == Openers(es, n, t) && HoldsType(Get(rules', t), es, n + 1, t, version) {
      OpenersStep(es, n, t);
      if t == t0 {
        ReplacedSame(rules[t0], es, n, version);
      } else {
        TypeUntouched(Get(rules, t), es, n, t, version);
      }
    }
  }

  lemma ReplacedSame(rs: seq<Entry>, es: seq<Item>, n: nat, version: string)
    requires n < |es| && HoldsType(rs, es, n, es[n].keyType, version) && !IsAll(es[n])
    requires Applied(es, n, version) && Target(es, n).Some? && rs != []
    ensures HoldsType(rs[|rs| - 1 := rs[|rs| - 1].(value := es[n].entry.value)], es, n + 1, es[n].keyType, version)
  {
    hide Applied, IsAll;
    var os := Openers(es, n, es[n].keyType);
    OpenersIncrease(es, n, es[n].keyType);
    OpenersStep(es, n, es[n].keyType);
    forall k | 0 <= k < |os| - 1 ensures RuleAt(es, os[k], n + 1, version) == RuleAt(es, os[k], n, version) {
      assert os[k] != os[|os| - 1];
    }
  }

  /** The two local variables are those of the block the loop is in. */
  ghost predicate InBlock(es: seq<Item>, n: nat, currentKey: string, overrideEnabled: bool, version: string)
    requires n <= |es|
  {
    match Opener(es, n)
    case None => currentKey == "" && !overrideEnabled
    case Some(o) => currentKey == es[o].path && overrideEnabled == Flagged(es, o, n, version)
  }

  lemma InBlockStep(es: seq<Item>, n: nat, currentKey: string, overrideEnabled: bool, version: string)
    requires n < |es| && InBlock(es, n, currentKey, overrideEnabled, version) && es[n].path != ""
    ensures IsAll(es[n]) ==> InBlock(es, n + 1, es[n].path, false, version)
    ensures !IsAll(es[n]) && !(IsFlag(es[n], version) && currentKey == es[n].path) ==>
              InBlock(es, n + 1, currentKey, overrideEnabled, version)
    ensures !IsAll(es[n]) && IsFlag(es[n], version) && currentKey == es[n].path ==>
              InBlock(es, n + 1, currentKey, true, version)
  {
    if !IsAll(es[n]) && Opener(es, n).Some? {
      var o := Opener(es, n).value;
      assert Flagged(es, o, n, version) ==> Flagged(es, o, n + 1, version);
      if Flagged(es, o, n + 1, version) {
        var f :| o < f < n + 1 && IsFlag(es[f], version) && es[f].path == es[o].path;
        assert f < n ==> Flagged(es, o, n, version);
      }
      if IsFlag(es[n], version) && currentKey == es[n].path { assert Flagged(es, o, n + 1, version); }
    }
  }

  /** The loop over the entries of a GPO, for this release. It gets to the end exactly when no
      supported entry has an error and no applied entry lacks a rule of its type, and then the rules
      of every type are its "all" entries in order, each with the last value written to it. */
  method ParseGPO(pols: seq<Entry>, version: string) returns (r: Outcome)
    ensures var es := Items(pols);
            && (r.Rules? ==> Holds(r.rules, es, |es|, version))
            && (r.Rules? <==> forall i :: 0 <= i < |es| ==> !Fails(es, i) && !Panics(es, i, version))
            && (r.ParseError? ==> exists i :: 0 <= i < |es| && Fails(es, i)
                                              && forall j :: 0 <= j < i ==> !Fails(es, j) && !Panics(es, j, version))
            && (r.IndexPanic? ==> exists i :: 0 <= i < |es| && Panics(es, i, version)
                                              && forall j :: 0 <= j < i ==> !Fails(es, j) && !Panics(es, j, version))
  {
    hide Holds, IsFlag, Look, InBlock, Applied, Target;
    ghost var es := Items(pols);
    var rules: map<string, seq<Entry>> := map[];
    var currentKey, overrideEnabled := "", false;
    AtStart(rules, es, version);
    for n := 0 to |pols|
      invariant Holds(rules, es, n, version)
      invariant InBlock(es, n, currentKey, overrideEnabled, version)
      invariant forall i :: 0 <= i < n ==> !Fails(es, i) && !Panics(es, i, version)
    {
      var it := Look(pols[n]);
      assert it == es[n] && it.path != "" by { LookHasPath(pols[n]); }
      FlagIs(es[n], version);
      InBlockStep(es, n, currentKey, overrideEnabled, version);
      WhenApplied(es, n, currentKey, overrideEnabled, version);
      if !it.supported {
        Quiet(rules, es, n, version);
        continue;
      }
      if it.entry.err.Some? {
        assert Fails(es, n);
        return ParseError;
      }
      if it.release == "all" {
        NewRule(rules, es, n, version);
        currentKey := it.path;
        overrideEnabled := false;
        rules := rules[it.keyType := Get(rules, it.keyType) + [it.entry.(key := it.path)]];
        continue;
      }
      if currentKey != it.path {
        Quiet(rules, es, n, version);
        continue;
      }
      if "Override" + version <= it.release && it.entry.value == "true" {
        Quiet(rules, es, n, version);
        overrideEnabled := true;
        continue;
      }
      if !overrideEnabled || it.release != version {
        Quiet(rules, es, n, version);
        continue;
      }
      var iLast := |Get(rules, it.keyType)| - 1;
      TargetIsLast(rules, es, n, version);
      if iLast < 0 {
        assert Panics(es, n, version);
        return IndexPanic;
      }
      Replaced(rules, es, n, version);
      var p := rules[it.keyType][iLast];
      p := p.(value := it.entry.value);
      rules := rules[it.keyType := rules[it.keyType][iLast := p]];
    }
    return Rules(rules);
  }

  lemma LookHasPath(e: Entry)
    ensures Look(e).path != ""
  {}

  lemma AtStart(rules: map<string, seq<Entry>>, es: seq<Item>, version: string)
    requires rules == map[]
    ensures Holds(rules, es, 0, version) && InBlock(es, 0, "", false, version)
  {
    assert forall t :: Get(rules, t) == [];
  }

  lemma FlagIs(e: Item, version: string)
    ensures IsFlag(e, version) <==>
            e.supported && e.release != "all" && "Override" + version <= e.release && e.entry.value == "true"
  {}

  /** What being applied means in terms of the two local variables. */
  lemma WhenApplied(es: seq<Item>, n: nat, currentKey: string, overrideEnabled: bool, version: string)
    requires n < |es| && InBlock(es, n, currentKey, overrideEnabled, version) && es[n].path != ""
    ensures Applied(es, n, version) <==>
            && es[n].supported && es[n].release != "all" && !IsFlag(es[n], version) && es[n].release == version
            && currentKey == es[n].path && overrideEnabled
  {}

  lemma TargetIsLast(rules: map<string, seq<Entry>>, es: seq<Item>, n: nat, version: string)
    requires n < |es| && Holds(rules, es, n, version)
    ensures Target(es, n).Some? <==> Get(rules, es[n].keyType) != []
  {
    assert HoldsType(Get(rules, es[n].keyType), es, n, es[n].keyType, version);
  }

  // ---------------------------------------------------------------- block by block

  /** Entries for this release have the type of the "all" entry that opened their block. */
  ghost predicate TypesMatch(es: seq<Item>, version: string) {
    forall i :: 0 <= i < |es| && Applied(es, i, version) ==> es[Opener(es, i).value].keyType == es[i].keyType
  }

  lemma {:induction false} OpenerIsLast(es: seq<Item>, n: nat, t: string)
    requires n <= |es| && Opener(es, n).Some? && es[Opener(es, n).value].keyType == t
    ensures var os := Openers(es, n, t); os != [] && os[|os| - 1] == Opener(es, n).value
    decreases n
  {
    if !IsAll(es[n - 1]) {
      OpenerIsLast(es, n - 1, t);
      assert Openers(es, n - 1, t) + [] == Openers(es, n - 1, t);
    }
  }

  /** The last value for this release, in the block opened at o, behind an enabled flag. */
  ghost predicate LastOfBlock(es: seq<Item>, o: nat, u: Option<nat>, version: string) {
    match u
    case Some(i) =>
      && i < |es| && Applied(es, i, version) && Opener(es, i) == Some(o)
      && forall j :: i < j < |es| ==> !(Applied(es, j, version) && Opener(es, j) == Some(o))
    case None => forall j :: 0 <= j < |es| ==> !(Applied(es, j, version) && Opener(es, j) == Some(o))
  }

  /** The rules are those of the blocks: nothing panics, and every rule has been written to last by
      the last entry for this release in its own block that is behind an enabled flag. */
  ghost predicate BlockByBlock(es: seq<Item>, version: string) {
    && (forall i :: 0 <= i < |es| ==> !Panics(es, i, version))
    && forall o :: 0 <= o < |es| && IsAll(es[o]) ==> LastOfBlock(es, o, LastUpdate(es, o, |es|, version), version)
  }

  lemma MatchingIsBlockByBlock(es: seq<Item>, version: string)
    requires TypesMatch(es, version)
    ensures BlockByBlock(es, version)
  {
    forall i | 0 <= i < |es| && Applied(es, i, version) ensures Target(es, i) == Opener(es, i) {
      OpenerIsLast(es, i, es[i].keyType);
    }
  }

  lemma {:induction false} OpenerMonotone(es: seq<Item>, m: nat, n: nat)
    requires m <= n <= |es| && Opener(es, m).Some?
    ensures Opener(es, n).Some? && Opener(es, m).value <= Opener(es, n).value
    decreases n - m
  {
    if m < n { OpenerMonotone(es, m, n - 1); }
  }

  /** A value of another type than its block's goes to a rule that an earlier block opened, if any. */
  lemma MistargetedIsEarlier(es: seq<Item>, i: nat)
    requires i < |es| && Opener(es, i).Some? && es[Opener(es, i).value].keyType != es[i].keyType
    ensures Target(es, i).Some? ==> Target(es, i).value < Opener(es, i).value && IsAll(es[Target(es, i).value])
  {
    OpenersIncrease(es, i, es[i].keyType);
  }

  /** That rule was not written to last by its own block. */
  lemma MistargetedBreaks(es: seq<Item>, i: nat, version: string)
    requires i < |es| && Applied(es, i, version) && Target(es, i).Some?
    requires es[AppliedOpener(es, i, version)].keyType != es[i].keyType
    ensures var o := Target(es, i).value;
            o < |es| && IsAll(es[o]) && !LastOfBlock(es, o, LastUpdate(es, o, |es|, version), version)
  {
    hide Applied, Target, IsAll;
    MistargetedIsEarlier(es, i);
    var u := LastUpdate(es, Target(es, i).value, |es|, version);
    assert u.Some? && i <= u.value;
    OpenerMonotone(es, i, u.value);
  }

  lemma BlockByBlockMatches(es: seq<Item>, version: string)
    requires BlockByBlock(es, version) && forall i :: 0 <= i < |es| ==> !Fails(es, i)
    ensures TypesMatch(es, version)
  {
    hide Applied, Target, IsAll, LastOfBlock;
    forall i | 0 <= i < |es| && Applied(es, i, version)
      ensures es[AppliedOpener(es, i, version)].keyType == es[i].keyType
    {
      assert !Panics(es, i, version);
      if es[AppliedOpener(es, i, version)].keyType != es[i].keyType { MistargetedBreaks(es, i, version); }
    }
  }

  ghost function AppliedOpener(es: seq<Item>, i: nat, version: string): (o: nat)
    requires i < |es| && Applied(es, i, version)
    ensures o < i && Opener(es, i) == Some(o)
  {
    Opener(es, i).value
  }

  /** Main result: without entries in error, the loop is the block specification if and only if every
      value applied has the type of its block. */
  lemma BlocksIff(es: seq<Item>, version: string)
    requires forall i :: 0 <= i < |es| ==> !Fails(es, i)
    ensures BlockByBlock(es, version) <==> TypesMatch(es, version)
  {
    if TypesMatch(es, version) { MatchingIsBlockByBlock(es, version); }
    if BlockByBlock(es, version) { BlockByBlockMatches(es, version); }
  }

  // ---------------------------------------------------------------- entries as they come

  lemma {:induction false} FirstSlashAt(a: string, rest: string)
    requires '/' !in a
    ensures FirstSlash(a + "/" + rest) == |a|
  {
    var s := a + "/" + rest;
    if a != [] {
      assert a[0] in a && s[1..] == a[1..] + "/" + rest;
      FirstSlashAt(a[1..], rest);
    }
  }

  /** The key the policy templates give a setting: its type, its path, its release. */
  function KeyFor(keyType: string, path: string, release: string): string {
    KEY_FILTER_PREFIX + (keyType + "/" + path + "/" + release)
  }

  /** Such a key is taken apart into what it was made of. */
  lemma LookAt(e: Entry, keyType: string, path: string, release: string)
    requires e.key == KeyFor(keyType, path, release)
    requires '/' !in keyType && '/' !in release && path != ""
    ensures Look(e) == Item(true, keyType, path, release, e)
  {
    NotRewritten(keyType + "/" + path + "/" + release);
    LookRewritten(e, keyType, path, release);
  }

  lemma LookRewritten(e: Entry, keyType: string, path: string, release: string)
    requires Rewritten(e.key) == KeyFor(keyType, path, release)
    requires '/' !in keyType && '/' !in release && path != ""
    ensures Look(e) == Item(true, keyType, path, release, e)
  {
    var rest := keyType + "/" + path + "/" + release;
    NotRewritten(rest);
    PartsOf(keyType, path, release);
    hide FirstSlash, Base, Dir, Rewritten, TrimPrefix;
  }

  lemma PartsOf(keyType: string, path: string, release: string)
    requires '/' !in keyType && '/' !in release && path != ""
    ensures var rest := keyType + "/" + path + "/" + release;
            && rest[..FirstSlash(rest)] == keyType && Base(rest) == release
            && Dir(TrimPrefix(rest, keyType + "/")) == path
  {
    hide FirstSlash, LastSlash;
    var rest := keyType + "/" + path + "/" + release;
    assert rest == keyType + "/" + (path + "/" + release);
    FirstSlashAt(keyType, path + "/" + release);
    LastSlashIs(keyType + "/" + path, release);
    LastSlashIs(path, release);
    assert rest[|keyType| + 1..] == path + "/" + release;
    assert (path + "/" + release)[..|path|] == path;
  }

  lemma NotRewritten(rest: string)
    ensures Rewritten(KEY_FILTER_PREFIX + rest) == KEY_FILTER_PREFIX + rest
    ensures TrimPrefix(KEY_FILTER_PREFIX + rest, KEY_FILTER_PREFIX) == rest
  {
    var k := KEY_FILTER_PREFIX + rest;
    assert k[18] == 'U' && CERT_AUTO_ENROLL_KEY[18] == 'M' && POLICY_SERVERS_PREFIX[18] == 'M';
  }

  /** Three entries of one path, the last of them of another type than its block. */
  function Mismatched(blockType: string, otherType: string, path: string, version: string, value: string): seq<Entry> {
    [Entry(KeyFor(blockType, path, "all"), value, false, "", "", None),
     Entry(KeyFor(blockType, path, "Override" + version), "true", false, "", "", None),
     Entry(KeyFor(otherType, path, version), value, false, "", "", None)]
  }

  /** On them, for any two types, the loop indexes an empty list. */
  lemma MismatchPanics(blockType: string, otherType: string, path: string, version: string, value: string)
    requires blockType != otherType && '/' !in blockType && '/' !in otherType && path != ""
    requires '/' !in version && version != "all"
    ensures Panics(Items(Mismatched(blockType, otherType, path, version, value)), 2, version)
    ensures !TypesMatch(Items(Mismatched(blockType, otherType, path, version, value)), version)
  {
    hide Look;
    var pols := Mismatched(blockType, otherType, path, version, value);
    var es := Items(pols);
    LookAt(pols[0], blockType, path, "all");
    LookAt(pols[1], blockType, path, "Override" + version);
    LookAt(pols[2], otherType, path, version);
    assert ("Override" + version)[0] == 'O';
    assert IsAll(es[0]) && IsFlag(es[1], version) && !IsAll(es[1]);
    assert Opener(es, 1) == Some(0);
    assert Opener(es, 2) == Some(0);
    assert Flagged(es, 0, 2, version);
    assert Applied(es, 2, version);
    assert Openers(es, 0, otherType) == [];
    assert Openers(es, 1, otherType) == [];
    assert Openers(es, 2, otherType) == [];
  }

  // ---------------------------------------------------------------- which keys, and to what effect

  /** The keys that are looked at at all. */
  lemma SupportedIff(e: Entry)
    ensures Look(e).supported <==>
            || "Software/Policies/Ubuntu/" <= e.key
            || e.key == "Software/Policies/Microsoft/Cryptography/AutoEnrollment/AEPolicy"
            || "Software/Policies/Microsoft/Cryptography/PolicyServers/" <= e.key
    ensures Look(e).entry == e
  {
    hide FirstSlash, LastSlash, Dir, Base;
    Markers();
    var k := e.key;
    if k == CERT_AUTO_ENROLL_KEY {
      EnrollKeyMoves();
    } else if POLICY_SERVERS_PREFIX <= k {
      assert Rewritten(k) == KEY_FILTER_PREFIX + ("certificate/" + k + "/all");
    }
  }

  lemma Markers()
    ensures KEY_FILTER_PREFIX == "Software/Policies/Ubuntu/"
    ensures CERT_AUTO_ENROLL_KEY == "Software/Policies/Microsoft/Cryptography/AutoEnrollment/AEPolicy"
    ensures POLICY_SERVERS_PREFIX == "Software/Policies/Microsoft/Cryptography/PolicyServers/"
  {}

  lemma EnrollKeyMoves()
    ensures Rewritten(CERT_AUTO_ENROLL_KEY) == KEY_FILTER_PREFIX + "certificate/autoenroll/all"
  {
    assert CERT_AUTO_ENROLL_KEY[41] == 'A' && POLICY_SERVERS_PREFIX[41] == 'P';
    assert KEY_FILTER_PREFIX[18] == 'U' && POLICY_SERVERS_PREFIX[18] == 'M';
    assert (KEY_FILTER_PREFIX + "certificate/autoenroll/all")[18] == 'U';
  }

  /** The two families of certificate keys become rules of the type "certificate" for all releases. */
  lemma CertificateKeys(e: Entry)
    ensures e.key == "Software/Policies/Microsoft/Cryptography/AutoEnrollment/AEPolicy" ==>
              Look(e) == Item(true, "certificate", "autoenroll", "all", e)
    ensures "Software/Policies/Microsoft/Cryptography/PolicyServers/" <= e.key ==>
              Look(e) == Item(true, "certificate", e.key, "all", e)
  {
    hide Look, Rewritten;
    Markers();
    if e.key == CERT_AUTO_ENROLL_KEY {
      EnrollKeyMoves();
      assert "certificate/autoenroll/all" == "certificate" + "/" + "autoenroll" + "/" + "all";
      LookRewritten(e, "certificate", "autoenroll", "all");
    }
    if POLICY_SERVERS_PREFIX <= e.key {
      ServersKeyMoves(e.key);
      LookRewritten(e, "certificate", e.key, "all");
    }
  }

  lemma ServersKeyMoves(k: string)
    requires POLICY_SERVERS_PREFIX <= k
    ensures Rewritten(k) == KeyFor("certificate", k, "all")
  {
    assert POLICY_SERVERS_PREFIX[41] == 'P' && CERT_AUTO_ENROLL_KEY[41] == 'A' && k[41] == 'P';
    assert KEY_FILTER_PREFIX + "certificate/" + k + "/all" == KEY_FILTER_PREFIX + ("certificate" + "/" + k + "/" + "all");
  }

  /** What it takes for a value to be applied, without looking at blocks: it is for this release, and
      in front of it stand an "all" entry and, behind that, a flag that is on, both of the same path,
      with no other "all" entry between the first and the value. */
  lemma AppliedIff(es: seq<Item>, i: nat, version: string)
    requires i < |es| && version != "all"
    ensures Applied(es, i, version) <==>
            && es[i].supported && es[i].release == version
            && exists o, f :: 0 <= o < f < i && es[o].supported && es[f].supported
                              && es[o].release == "all" && "Override" + version <= es[f].release && es[f].release != "all"
                              && es[f].entry.value == "true" && es[o].path == es[f].path == es[i].path
                              && forall k :: o < k < i && es[k].supported ==> es[k].release != "all"
  {
    assert |"Override" + version| > |version|;
    if Applied(es, i, version) {
      var o := Opener(es, i).value;
      var f :| o < f < i && IsFlag(es[f], version) && es[f].path == es[o].path;
    }
    if o, f :| 0 <= o < f < i && es[o].supported && es[f].supported
               && es[o].release == "all" && "Override" + version <= es[f].release && es[f].release != "all"
               && es[f].entry.value == "true" && es[o].path == es[f].path == es[i].path
               && forall k :: o < k < i && es[k].supported ==> es[k].release != "all" {
      assert IsAll(es[o]) && IsFlag(es[f], version);
      assert Opener(es, i) == Some(o);
      if es[i].supported && es[i].release == version { assert Flagged(es, o, i, version); }
    }
  }

  /** From end to end: a switched-on flag, whatever its name goes on with, lets the value for this
      release into the rule, which is otherwise the "all" entry under its path; a flag that is not on
      does not. */
  lemma OverrideTakesEffect(keyType: string, path: string, version: string, more: string, all: Entry, flag: Entry, own: Entry)
    requires '/' !in keyType && path != "" && '/' !in version && version != "all" && '/' !in more
    requires all.key == KeyFor(keyType, path, "all") && flag.key == KeyFor(keyType, path, "Override" + version + more)
    requires own.key == KeyFor(keyType, path, version)
    ensures RuleAt(Items([all, flag, own]), 0, 3, version) ==
            Entry(path, if flag.value == "true" then own.value else all.value, all.disabled, all.meta, all.strategy, all.err)
    ensures Openers(Items([all, flag, own]), 3, keyType) == [0]
  {
    hide Look;
    var es := Items([all, flag, own]);
    LookAt(all, keyType, path, "all");
    LookAt(flag, keyType, path, "Override" + version + more);
    LookAt(own, keyType, path, version);
    OneBlock(es, keyType, path, version, "Override" + version + more);
  }

  /** A block of three entries: its opener, a flag or a flag that is off, and a value for this release. */
  lemma OneBlock(es: seq<Item>, keyType: string, path: string, version: string, flag: string)
    requires |es| == 3 && version != "all" && "Override" + version <= flag
    requires es[0] == Item(true, keyType, path, "all", es[0].entry)
    requires es[1] == Item(true, keyType, path, flag, es[1].entry)
    requires es[2] == Item(true, keyType, path, version, es[2].entry)
    ensures RuleAt(es, 0, 3, version) ==
            es[0].entry.(key := path, value := if es[1].entry.value == "true" then es[2].entry.value else es[0].entry.value)
    ensures Openers(es, 3, keyType) == [0]
  {
    assert flag[0] == 'O';
    assert IsAll(es[0]) && !IsAll(es[1]) && !IsAll(es[2]);
    assert IsFlag(es[1], version) <==> es[1].entry.value == "true";
    assert |"Override" + version| > |version|;
    assert !IsFlag(es[2], version);
    OpenersStep(es, 0, keyType);
    OpenersStep(es, 1, keyType);
    OpenersStep(es, 2, keyType);
    assert Openers(es, 0, keyType) == [] && Openers(es, 1, keyType) == [0] && Openers(es, 2, keyType) == [0];
    assert Opener(es, 1) == Some(0);
    assert Opener(es, 2) == Some(0);
    assert Flagged(es, 0, 2, version) <==> es[1].entry.value == "true" by {
      if es[1].entry.value == "true" { assert 0 < 1 < 2 && IsFlag(es[1], version) && es[1].path == es[0].path; }
    }
    assert !Applied(es, 0, version) && !Applied(es, 1, version);
    assert Applied(es, 2, version) <==> es[1].entry.value == "true";
    assert Target(es, 2) == Some(0);
    var u := LastUpdate(es, 0, 3, version);
    assert u.Some? ==> u.value == 2;
  }

  // ---------------------------------------------------------------- what is not supported is not there

  /** Where things are once one has been put in at place a. */
  function Shift(a: nat, i: nat): nat { if i < a then i else i + 1 }

  function ShiftOpt(a: nat, o: Option<nat>): Option<nat> {
    match o
    case None => None
    case Some(i) => Some(Shift(a, i))
  }

  function ShiftAll(a: nat, os: seq<nat>): seq<nat> { seq(|os|, i requires 0 <= i < |os| => Shift(a, os[i])) }

  lemma {:induction false} OpenerSkips(a: seq<Item>, x: Item, b: seq<Item>, n: nat)
    requires !x.supported && n <= |a + b|
    ensures n <= |a| ==> Opener(a + [x] + b, n) == Opener(a + b, n)
    ensures n >= |a| ==> Opener(a + [x] + b, n + 1) == ShiftOpt(|a|, Opener(a + b, n))
    decreases n
  {
    var whole, part := a + [x] + b, a + b;
    if n > 0 {
      OpenerSkips(a, x, b, n - 1);
      if n <= |a| { assert whole[n - 1] == part[n - 1]; } else { assert whole[n] == part[n - 1]; }
    }
    if n == |a| { assert whole[n] == x; }
  }

  lemma {:induction false} OpenersInFront(a: seq<Item>, more: seq<Item>, n: nat, t: string)
    requires n <= |a|
    ensures Openers(a + more, n, t) == Openers(a, n, t)
    decreases n
  {
    if n > 0 {
      OpenersInFront(a, more, n - 1, t);
      assert (a + more)[n - 1] == a[n - 1];
    }
  }

  lemma ShiftSmall(a: nat, os: seq<nat>)
    requires forall k :: 0 <= k < |os| ==> os[k] < a
    ensures ShiftAll(a, os) == os
  {}

  lemma {:induction false} OpenersSkip(a: seq<Item>, x: Item, b: seq<Item>, n: nat, t: string)
    requires !x.supported && n <= |a + b|
    ensures n <= |a| ==> Openers(a + [x] + b, n, t) == Openers(a + b, n, t)
    ensures n >= |a| ==> Openers(a + [x] + b, n + 1, t) == ShiftAll(|a|, Openers(a + b, n, t))
    decreases n
  {
    var whole, part := a + [x] + b, a + b;
    assert whole == a + ([x] + b);
    if n <= |a| {
      OpenersInFront(a, [x] + b, n, t);
      OpenersInFront(a, b, n, t);
    }
    if n == |a| {
      OpenersStep(whole, n, t);
      OpenersIncrease(part, n, t);
      ShiftSmall(|a|, Openers(part, n, t));
    } else if n > |a| {
      OpenersSkip(a, x, b, n - 1, t);
      assert whole[n] == part[n - 1];
      OpenersStep(whole, n, t);
      OpenersStep(part, n - 1, t);
      hide Openers, IsAll;
      var os := Openers(part, n - 1, t);
      assert ShiftAll(|a|, os + [n - 1]) == ShiftAll(|a|, os) + [n];
    }
  }

  lemma FlaggedSkips(a: seq<Item>, x: Item, b: seq<Item>, o: nat, n: nat, version: string)
    requires !x.supported && o < n <= |a + b|
    ensures Flagged(a + [x] + b, Shift(|a|, o), Shift(|a|, n), version) <==> Flagged(a + b, o, n, version)
  {
    hide IsFlag;
    assert !IsFlag(x, version) by { NotAFlag(x, version); }
    var whole, part := a + [x] + b, a + b;
    assert forall i :: 0 <= i < |part| ==> whole[Shift(|a|, i)] == part[i];
    if Flagged(part, o, n, version) {
      var f :| o < f < n && IsFlag(part[f], version) && part[f].path == part[o].path;
      assert IsFlag(whole[Shift(|a|, f)], version);
    }
    if Flagged(whole, Shift(|a|, o), Shift(|a|, n), version) {
      var f :| Shift(|a|, o) < f < Shift(|a|, n) && IsFlag(whole[f], version) && whole[f].path == whole[Shift(|a|, o)].path;
      assert f != |a|;
      var g := if f < |a| then f else f - 1;
      assert whole[f] == part[g];
    }
  }

  lemma NotAFlag(x: Item, version: string)
    requires !x.supported
    ensures !IsFlag(x, version)
  {}

  lemma AppliedSkips(a: seq<Item>, x: Item, b: seq<Item>, i: nat, version: string)
    requires !x.supported && i < |a + b|
    ensures Applied(a + [x] + b, Shift(|a|, i), version) <==> Applied(a + b, i, version)
    ensures Target(a + [x] + b, Shift(|a|, i)) == ShiftOpt(|a|, Target(a + b, i))
    ensures Fails(a + [x] + b, Shift(|a|, i)) <==> Fails(a + b, i)
  {
    hide IsAll, IsFlag, Flagged;
    var whole, part := a + [x] + b, a + b;
    assert whole[Shift(|a|, i)] == part[i];
    OpenerSkips(a, x, b, i);
    var t := part[i].keyType;
    OpenersSkip(a, x, b, i, t);
    OpenersIncrease(part, i, t);
    if Opener(part, i).Some? {
      var o := Opener(part, i).value;
      assert whole[Shift(|a|, o)] == part[o];
      FlaggedSkips(a, x, b, o, i, version);
    }
    if i < |a| { assert ShiftAll(|a|, Openers(part, i, t)) == Openers(part, i, t); }
  }

  lemma {:induction false} LastUpdateSkips(a: seq<Item>, x: Item, b: seq<Item>, o: nat, n: nat, version: string)
    requires !x.supported && n <= |a + b|
    ensures n <= |a| ==> LastUpdate(a + [x] + b, Shift(|a|, o), n, version) == LastUpdate(a + b, o, n, version)
    ensures n >= |a| ==> LastUpdate(a + [x] + b, Shift(|a|, o), n + 1, version) == ShiftOpt(|a|, LastUpdate(a + b, o, n, version))
    decreases n
  {
    hide Applied, Target;
    var whole := a + [x] + b;
    if n > 0 {
      LastUpdateSkips(a, x, b, o, n - 1, version);
      AppliedSkips(a, x, b, n - 1, version);
    }
    if n == |a| {
      assert whole[n] == x;
      assert !Applied(whole, n, version) by { NotApplied(whole, n, version); }
    }
  }

  lemma NotApplied(es: seq<Item>, i: nat, version: string)
    requires i < |es| && !es[i].supported
    ensures !Applied(es, i, version) && !Fails(es, i) && !Panics(es, i, version)
  {}

  /** Main result: an entry that is not supported, wherever it stands and whatever is wrong with it,
      changes neither the rules nor where the loop fails or panics. */
  lemma UnsupportedIsSkipped(a: seq<Item>, x: Item, b: seq<Item>, version: string)
    requires !x.supported
    ensures forall rules :: Holds(rules, a + [x] + b, |a + [x] + b|, version) <==> Holds(rules, a + b, |a + b|, version)
    ensures !Fails(a + [x] + b, |a|) && !Panics(a + [x] + b, |a|, version)
    ensures forall i :: 0 <= i < |a + b| ==>
                          && (Fails(a + [x] + b, Shift(|a|, i)) <==> Fails(a + b, i))
                          && (Panics(a + [x] + b, Shift(|a|, i), version) <==> Panics(a + b, i, version))
  {
    hide Applied, Target, Fails, Holds;
    var whole, part := a + [x] + b, a + b;
    assert whole[|a|] == x;
    NotApplied(whole, |a|, version);
    forall i | 0 <= i < |part|
      ensures (Fails(whole, Shift(|a|, i)) <==> Fails(part, i)) && (Panics(whole, Shift(|a|, i), version) <==> Panics(part, i, version))
    {
      AppliedSkips(a, x, b, i, version);
    }
    forall rules ensures Holds(rules, whole, |whole|, version) <==> Holds(rules, part, |part|, version) {
      HoldsSkips(rules, a, x, b, version);
    }
  }

  lemma HoldsSkips(rules: map<string, seq<Entry>>, a: seq<Item>, x: Item, b: seq<Item>, version: string)
    requires !x.supported
    ensures Holds(rules, a + [x] + b, |a + [x] + b|, version) <==> Holds(rules, a + b, |a + b|, version)
  {
    hide HoldsType, Openers;
    var whole, part := a + [x] + b, a + b;
    forall t ensures Openers(whole, |whole|, t) == ShiftAll(|a|, Openers(part, |part|, t)) {
      OpenersSkip(a, x, b, |part|, t);
    }
    forall t ensures HoldsType(Get(rules, t), whole, |whole|, t, version) <==> HoldsType(Get(rules, t), part, |part|, t, version) {
      HoldsTypeSkips(Get(rules, t), a, x, b, t, version);
    }
  }

  lemma HoldsTypeSkips(rs: seq<Entry>, a: seq<Item>, x: Item, b: seq<Item>, t: string, version: string)
    requires !x.supported
    ensures HoldsType(rs, a + [x] + b, |a + [x] + b|, t, version) <==> HoldsType(rs, a + b, |a + b|, t, version)
  {
    hide Openers, LastUpdate;
    var whole, part := a + [x] + b, a + b;
    var os, os' := Openers(part, |part|, t), Openers(whole, |whole|, t);
    OpenersSkip(a, x, b, |part|, t);
    OpenersIncrease(part, |part|, t);
    OpenersIncrease(whole, |whole|, t);
    forall k | 0 <= k < |os| ensures RuleAt(whole, os'[k], |whole|, version) == RuleAt(part, os[k], |part|, version) {
      assert os'[k] == Shift(|a|, os[k]) && whole[os'[k]] == part[os[k]];
      LastUpdateSkips(a, x, b, os[k], |part|, version);
      var u := LastUpdate(part, os[k], |part|, version);
      if u.Some? { assert whole[Shift(|a|, u.value)] == part[u.value]; }
    }
  }
}
