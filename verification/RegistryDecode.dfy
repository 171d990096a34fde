/** From raw registry entries to policy entries: containers that disable or describe the keys that
    follow them, single keys, and the conversion of data to values. */
module RegistryDecode {
  import opened Basics
  import opened RegistryScan
  import opened RegistryPolicy
  import RT = RegistryRoundTrip

  const REG_SZ: Byte := 1
  const REG_DWORD: Byte := 4
  const REG_MULTI_SZ: Byte := 7

  datatype Meta = Meta(empty: Text, meta: Text, strategy: Text)

  const NO_META := Meta([], [], [])

  type Metas = map<Text, Meta>

  /** `err`: the entry cannot be used, which matters only if its key is supported. */
  datatype PolicyEntry = PolicyEntry(key: Text, value: Text, disabled: bool, meta: Text, strategy: Text, err: bool)

  datatype Decoded = Policy(entries: seq<PolicyEntry>) | Undecodable

  /** What is taken as given: the JSON reading of meta values and filepath.Join. */
  datatype Env = Env(getMeta: Bytes -> Option<Metas>, join: (Text, Text) -> Text)

  // ---------------------------------------------------------------- names

  predicate IsAscii(s: string) { forall i :: 0 <= i < |s| ==> s[i] < 128 as char }

  function Ascii(s: string): Text
    requires IsAscii(s)
  {
    seq(|s|, i requires 0 <= i < |s| => CodeUnit(s[i] as int as Byte, 0))
  }

  const DEL := Ascii("**del.")
  const CONTAINER := Ascii("metaValues")
  const SINGLE := Ascii("basic")
  const ALL := Ascii("all")
  const DISABLED := Ascii("DISABLED")

  predicate Deleted(e: RawEntry) { DEL <= e.key }

  /** The value name without its deletion mark. */
  function Name(e: RawEntry): Text { if Deleted(e) then e.key[|DEL|..] else e.key }

  predicate IsContainer(e: RawEntry) { Name(e) == CONTAINER }

  predicate IsSingle(e: RawEntry) { Name(e) == SINGLE }

  function Slashes(t: Text): Text {
    seq(|t|, i requires 0 <= i < |t| => if t[i] == CodeUnit(0x5C, 0) then CodeUnit(0x2F, 0) else t[i])
  }

  function Newlines(t: Text): Text {
    seq(|t|, i requires 0 <= i < |t| => if t[i] == ZERO then CodeUnit(10, 0) else t[i])
  }

  function Decimal(n: nat): Text {
    (if n < 10 then [] else Decimal(n / 10)) + [CodeUnit((48 + n % 10) as Byte, 0)]
  }

  function LittleEndian(b: Bytes): nat {
    if b == [] then 0 else b[0] as nat + 0x100 * LittleEndian(b[1..])
  }

  // ---------------------------------------------------------------- what each entry is worth

  /** The meta values an entry sets for itself and those behind it; None if it leaves them alone. */
  function Sets(e: RawEntry, env: Env): Option<Option<Metas>> {
    if (IsContainer(e) || IsSingle(e)) && e.dType == REG_SZ then Some(env.getMeta(e.data))
    else if IsSingle(e) then Some(Some(map[]))
    else None
  }

  predicate SaysDisabled(e: RawEntry, env: Env) {
    e.dType == REG_SZ && env.getMeta(e.data).Some? && DISABLED in env.getMeta(e.data).value
  }

  /** The nearest container in front of place i. */
  function NearestContainer(es: seq<RawEntry>, i: nat): (r: Option<nat>)
    requires i <= |es|
    ensures r.Some? ==> r.value < i && IsContainer(es[r.value]) && forall k :: r.value < k < i ==> !IsContainer(es[k])
    ensures r.None? ==> forall k :: 0 <= k < i ==> !IsContainer(es[k])
  {
    if i == 0 then None else if IsContainer(es[i - 1]) then Some(i - 1) else NearestContainer(es, i - 1)
  }

  /** The nearest entry in front of place i that sets meta values. */
  function NearestSetter(es: seq<RawEntry>, i: nat, env: Env): (r: Option<nat>)
    requires i <= |es|
    ensures r.Some? ==> r.value < i && Sets(es[r.value], env).Some? && forall k :: r.value < k < i ==> Sets(es[k], env).None?
    ensures r.None? ==> forall k :: 0 <= k < i ==> Sets(es[k], env).None?
  {
    if i == 0 then None else if Sets(es[i - 1], env).Some? then Some(i - 1) else NearestSetter(es, i - 1, env)
  }

  /** Children inherit from the nearest container: it was deleted or its meta values say DISABLED. */
  predicate Inherited(es: seq<RawEntry>, i: nat, env: Env)
    requires i <= |es|
  {
    match NearestContainer(es, i)
    case None => false
    case Some(j) => Deleted(es[j]) || SaysDisabled(es[j], env)
  }

  predicate DisabledAt(es: seq<RawEntry>, i: nat, env: Env)
    requires i < |es|
  {
    Deleted(es[i]) || if IsSingle(es[i]) then SaysDisabled(es[i], env) else Inherited(es, i, env)
  }

  /** The meta values in force behind the first i entries. */
  function MetasBehind(es: seq<RawEntry>, i: nat, env: Env): Metas
    requires i <= |es|
  {
    match NearestSetter(es, i, env)
    case None => map[]
    case Some(j) => if Sets(es[j], env).value.Some? then Sets(es[j], env).value.value else map[]
  }

  function MetaOf(ms: Metas, k: Text): Meta { if k in ms then ms[k] else NO_META }

  /** Containers, and single keys that are no strings, emit nothing. */
  predicate Emits(e: RawEntry) { !IsContainer(e) && (IsSingle(e) ==> e.dType == REG_SZ) }

  function KeyAt(e: RawEntry): Text { if IsSingle(e) then ALL else Name(e) }

  function DataAt(e: RawEntry): Bytes { if IsSingle(e) then [] else e.data }

  /** The value of an enabled entry; None if its data cannot be read. */
  function ValueOf(dType: Byte, data: Bytes, default: Text): Option<Text> {
    if dType == REG_SZ || dType == REG_MULTI_SZ then
      match DecodeUtf16(data)
      case None => None
      case Some(t) =>
        var res := if t == [] then default else t;
        Some(if dType == REG_MULTI_SZ then Newlines(res) else res)
    else if dType == REG_DWORD then
      if |data| < 4 then None else Some(Decimal(LittleEndian(data[..4])))
    else Some([])
  }

  predicate Supported(dType: Byte) { dType in {REG_SZ, REG_MULTI_SZ, REG_DWORD} }

  /** Entries that make the whole policy unreadable. */
  predicate Fails(es: seq<RawEntry>, i: nat, env: Env)
    requires i < |es|
  {
    || Sets(es[i], env) == Some(None)
    || (Emits(es[i]) && !DisabledAt(es, i, env) && ValueOf(es[i].dType, DataAt(es[i]), []).None?)
  }

  function EntryAt(es: seq<RawEntry>, i: nat, env: Env): PolicyEntry
    requires i < |es|
  {
    var e, k, disabled := es[i], KeyAt(es[i]), DisabledAt(es, i, env);
    var m := MetaOf(MetasBehind(es, i + 1, env), k);
    var value := if disabled then Some([]) else ValueOf(e.dType, DataAt(e), m.empty);
    PolicyEntry(env.join(Slashes(e.path), k), if value.Some? then value.value else [], disabled, m.meta, m.strategy,
                e.err || (!disabled && !Supported(e.dType)))
  }

  function Emitted(es: seq<RawEntry>, n: nat, env: Env): seq<PolicyEntry>
    requires n <= |es|
  {
    if n == 0 then []
    else Emitted(es, n - 1, env) + if Emits(es[n - 1]) then [EntryAt(es, n - 1, env)] else []
  }

  // ---------------------------------------------------------------- the loop

  lemma UnreadableWhateverTheDefault(dType: Byte, data: Bytes, default: Text)
    ensures ValueOf(dType, data, default).None? <==> ValueOf(dType, data, []).None?
  {}

  /** How the two running variables change with an entry. */
  lemma Behind(es: seq<RawEntry>, n: nat, env: Env)
    requires n < |es|
    ensures Inherited(es, n + 1, env) ==
            if IsContainer(es[n]) then Deleted(es[n]) || SaysDisabled(es[n], env) else Inherited(es, n, env)
    ensures MetasBehind(es, n + 1, env) ==
            if Sets(es[n], env).None? then MetasBehind(es, n, env)
            else if Sets(es[n], env).value.Some? then Sets(es[n], env).value.value else map[]
  {}

  lemma NamesDiffer()
    ensures CONTAINER != SINGLE
  {
    assert |CONTAINER| == 10 && |SINGLE| == 5;
  }

  /** A container says how things stand behind it, and emits nothing. */
  lemma AtContainer(es: seq<RawEntry>, n: nat, env: Env)
    requires n < |es| && Name(es[n]) == CONTAINER
    ensures !Emits(es[n]) && (Fails(es, n, env) <==> es[n].dType == REG_SZ && env.getMeta(es[n].data).None?)
    ensures es[n].dType != REG_SZ ==>
              MetasBehind(es, n + 1, env) == MetasBehind(es, n, env) && Inherited(es, n + 1, env) == Deleted(es[n])
    ensures es[n].dType == REG_SZ && env.getMeta(es[n].data).Some? ==>
              var ms := env.getMeta(es[n].data).value;
              MetasBehind(es, n + 1, env) == ms && Inherited(es, n + 1, env) == (Deleted(es[n]) || DISABLED in ms)
  {
    hide MetasBehind, Inherited, Ascii;
    NamesDiffer();
    Behind(es, n, env);
  }

  /** A single key sets its own meta values and leaves the container's flag alone. */
  lemma AtSingle(es: seq<RawEntry>, n: nat, env: Env)
    requires n < |es| && Name(es[n]) == SINGLE
    ensures Inherited(es, n + 1, env) == Inherited(es, n, env)
    ensures es[n].dType != REG_SZ ==> !Emits(es[n]) && !Fails(es, n, env) && MetasBehind(es, n + 1, env) == map[]
    ensures es[n].dType == REG_SZ && env.getMeta(es[n].data).None? ==> Fails(es, n, env)
    ensures es[n].dType == REG_SZ && env.getMeta(es[n].data).Some? ==>
              var ms := env.getMeta(es[n].data).value;
              && Emits(es[n]) && Sets(es[n], env) != Some(None) && MetasBehind(es, n + 1, env) == ms
              && KeyAt(es[n]) == ALL && DataAt(es[n]) == []
              && DisabledAt(es, n, env) == (Deleted(es[n]) || DISABLED in ms)
  {
    hide MetasBehind, Inherited, Ascii;
    NamesDiffer();
    Behind(es, n, env);
  }

  /** Anything else is a child of the container in force. */
  lemma AtChild(es: seq<RawEntry>, n: nat, env: Env)
    requires n < |es| && Name(es[n]) != CONTAINER && Name(es[n]) != SINGLE
    ensures Inherited(es, n + 1, env) == Inherited(es, n, env) && MetasBehind(es, n + 1, env) == MetasBehind(es, n, env)
    ensures Emits(es[n]) && Sets(es[n], env) != Some(None) && KeyAt(es[n]) == Name(es[n]) && DataAt(es[n]) == es[n].data
    ensures DisabledAt(es, n, env) == (Deleted(es[n]) || Inherited(es, n, env))
  {
    hide MetasBehind, Inherited, Ascii;
    Behind(es, n, env);
  }

  lemma Behind0(es: seq<RawEntry>, env: Env)
    ensures MetasBehind(es, 0, env) == map[] && !Inherited(es, 0, env)
  {}

  /** The running meta values and container flag give every entry what the nearest entries in front
      of it say: the policy is undecodable exactly when some entry fails, and otherwise the emitted
      entries come out in order. */
  method DecodePolicy(es: seq<RawEntry>, env: Env) returns (r: Decoded)
    ensures r.Undecodable? <==> exists i :: 0 <= i < |es| && Fails(es, i, env)
    ensures r.Policy? ==> r.entries == Emitted(es, |es|, env)
  {
    hide MetasBehind, Inherited, NearestContainer, NearestSetter, ValueOf, EntryAt;
    hide IsContainer, IsSingle, Sets, SaysDisabled, Emits, DisabledAt, Fails, KeyAt, DataAt, Ascii, IsAscii;
    Behind0(es, env);
    var entries: seq<PolicyEntry> := [];
    var metaValues: Metas := map[];
    var disabledContainer := false;
    for n := 0 to |es|
      invariant entries == Emitted(es, n, env)
      invariant metaValues == MetasBehind(es, n, env)
      invariant disabledContainer == Inherited(es, n, env)
      invariant forall i :: 0 <= i < n ==> !Fails(es, i, env)
    {
      var e := es[n];
      var disabled := DEL <= e.key;
      var key := if disabled then e.key[|DEL|..] else e.key;
      var data := e.data;
      if key == CONTAINER {
        AtContainer(es, n, env);
        disabledContainer := disabled;
        if e.dType != REG_SZ {
          continue;
        }
        var ms := env.getMeta(e.data);
        if ms.None? {
          assert Fails(es, n, env);
          return Undecodable;
        }
        metaValues := ms.value;
        if DISABLED in metaValues {
          disabledContainer := true;
        }
        continue;
      } else if key == SINGLE {
        AtSingle(es, n, env);
        if e.dType != REG_SZ {
          metaValues := map[];
          continue;
        }
        var ms := env.getMeta(e.data);
        if ms.None? {
          assert Fails(es, n, env);
          return Undecodable;
        }
        metaValues := ms.value;
        if DISABLED in metaValues {
          disabled := true;
        }
        key := ALL;
        data := [];
      } else {
        AtChild(es, n, env);
        if disabledContainer {
          disabled := true;
        }
      }
      assert metaValues == MetasBehind(es, n + 1, env) && disabled == DisabledAt(es, n, env);
      assert Emits(e) && key == KeyAt(e) && data == DataAt(e);
      var entry := Convert(es, n, env, key, data, disabled, metaValues);
      if entry.None? {
        return Undecodable;
      }
      entries := entries + [entry.value];
    }
    return Policy(entries);
  }

  /** The end of the loop's body: the value of an entry that is enabled, and the entry itself. */
  method Convert(es: seq<RawEntry>, n: nat, env: Env, key: Text, data: Bytes, disabled: bool, metaValues: Metas)
    returns (r: Option<PolicyEntry>)
    requires n < |es| && Emits(es[n]) && Sets(es[n], env) != Some(None)
    requires key == KeyAt(es[n]) && data == DataAt(es[n])
    requires disabled == DisabledAt(es, n, env) && metaValues == MetasBehind(es, n + 1, env)
    ensures r.None? <==> Fails(es, n, env)
    ensures r.Some? ==> r.value == EntryAt(es, n, env)
  {
    hide MetasBehind, DisabledAt, Slashes, KeyAt, DataAt;
    var e := es[n];
    var res: Text := [];
    var err := e.err;
    if !disabled {
      UnreadableWhateverTheDefault(e.dType, data, MetaOf(metaValues, key).empty);
      var v := ReadValue(e.dType, data, metaValues, key);
      if v.None? {
        return None;
      }
      res := v.value;
      err := err || !Supported(e.dType);
    }
    return Some(PolicyEntry(env.join(Slashes(e.path), key), res, disabled, MetaOf(metaValues, key).meta,
                            MetaOf(metaValues, key).strategy, err));
  }

  /** The switch over the data type. */
  method ReadValue(dType: Byte, data: Bytes, metaValues: Metas, key: Text) returns (v: Option<Text>)
    ensures v == ValueOf(dType, data, MetaOf(metaValues, key).empty)
  {
    if dType == REG_SZ || dType == REG_MULTI_SZ {
      v := DecodeUtf16(data);
      if v.None? {
        return None;
      }
      if v.value == [] {
        v := Some(MetaOf(metaValues, key).empty);
      }
      if dType == REG_MULTI_SZ {
        v := Some(Newlines(v.value));
      }
    } else if dType == REG_DWORD {
      if |data| < 4 {
        return None;
      }
      v := Some(Decimal(LittleEndian(data[..4])));
    } else {
      v := Some([]);
    }
  }

  // ---------------------------------------------------------------- values read back

  predicate IsDigit(c: CodeUnit) { 48 <= c.lo <= 57 && c.hi == 0 }

  /** The number a text of digits says. */
  function Said(t: Text): nat
    requires forall i :: 0 <= i < |t| ==> IsDigit(t[i])
  {
    if t == [] then 0 else assert IsDigit(t[|t| - 1]); 10 * Said(t[..|t| - 1]) + (t[|t| - 1].lo as nat - 48)
  }

  /** Digits, at least one, and none too many. */
  predicate IsNumeral(t: Text) {
    t != [] && (forall i :: 0 <= i < |t| ==> IsDigit(t[i])) && (|t| > 1 ==> t[0].lo != 48)
  }

  lemma {:induction false} DecimalSays(n: nat)
    ensures IsNumeral(Decimal(n)) && Said(Decimal(n)) == n
    ensures n > 0 ==> Decimal(n)[0].lo != 48
    decreases n
  {
    if n >= 10 {
      DecimalSays(n / 10);
      assert Decimal(n)[..|Decimal(n)| - 1] == Decimal(n / 10);
    }
  }

  lemma FourBytes(v: RT.Dword)
    ensures LittleEndian(RT.EncodeDword(v)) == v
  {
    hide LittleEndian;
    var b := RT.EncodeDword(v);
    assert b == [b[0], b[1], b[2], b[3]];
    OfFour(b[0], b[1], b[2], b[3]);
    FourDigits(v);
  }

  lemma FourDigits(v: RT.Dword)
    ensures v == v % 0x100 + 0x100 * (v / 0x100 % 0x100 + 0x100 * (v / 0x1_0000 % 0x100 + 0x100 * (v / 0x100_0000 % 0x100)))
  {
    var q1, q2, q3 := v / 0x100, v / 0x1_0000, v / 0x100_0000;
    assert v == 0x100 * q1 + v % 0x100 && q1 == 0x100 * q2 + q1 % 0x100 && q2 == 0x100 * q3 + q2 % 0x100 && q3 < 0x100;
  }

  lemma LowByteFirst(a: Byte, rest: Bytes)
    ensures LittleEndian([a] + rest) == a as nat + 0x100 * LittleEndian(rest)
  {
    assert ([a] + rest)[1..] == rest;
  }

  lemma OfFour(a: Byte, b: Byte, c: Byte, d: Byte)
    ensures LittleEndian([a, b, c, d]) == a as nat + 0x100 * (b as nat + 0x100 * (c as nat + 0x100 * d as nat))
  {
    LowByteFirst(a, [b, c, d]);
    LowByteFirst(b, [c, d]);
    LowByteFirst(c, [d]);
    LowByteFirst(d, []);
    assert [a] + [b, c, d] == [a, b, c, d] && [b] + [c, d] == [b, c, d] && [c] + [d] == [c, d] && [d] + [] == [d];
  }

  /** A DWORD comes out as the numeral of the number that its first four bytes encode. */
  lemma DwordReadsBack(v: RT.Dword, more: Bytes, default: Text)
    ensures var t := ValueOf(REG_DWORD, RT.EncodeDword(v) + more, default);
            t.Some? && IsNumeral(t.value) && Said(t.value) == v
  {
    assert (RT.EncodeDword(v) + more)[..4] == RT.EncodeDword(v);
    FourBytes(v);
    DecimalSays(v);
  }

  lemma TerminatedDecodes(t: Text)
    ensures DecodeUtf16(RT.EncodeText(t) + RT.NUL) == Some(t)
  {
    EncodedMark();
    hide Units, RT.EncodeText;
    RT.EncodeTextConcat(t, [ZERO]);
    RT.TextRoundTrip(t + [ZERO]);
    assert (t + [ZERO])[..|t|] == t;
  }

  lemma EncodedMark()
    ensures RT.EncodeText([ZERO]) == RT.NUL
  {
    assert [ZERO][1..] == [];
  }

  /** A terminated string comes out as it is, the empty one as the default. */
  lemma StringReadsBack(t: Text, default: Text)
    ensures ValueOf(REG_SZ, RT.EncodeText(t) + RT.NUL, default) == Some(if t == [] then default else t)
  {
    TerminatedDecodes(t);
  }

  /** Strings, each with an end mark. */
  function Terminated(ts: seq<Text>, mark: CodeUnit): Text {
    if ts == [] then [] else ts[0] + [mark] + Terminated(ts[1..], mark)
  }

  lemma {:induction false} NewlinesForMarks(ts: seq<Text>)
    requires forall i :: 0 <= i < |ts| ==> ZERO !in ts[i]
    ensures Newlines(Terminated(ts, ZERO)) == Terminated(ts, CodeUnit(10, 0))
  {
    if ts != [] {
      NewlinesForMarks(ts[1..]);
      var t, rest := ts[0], Terminated(ts[1..], ZERO);
      assert forall i :: 0 <= i < |t| ==> t[i] in t;
      assert Newlines(t + [ZERO] + rest) == t + [CodeUnit(10, 0)] + Newlines(rest);
    }
  }

  /** A list of strings, written with a NUL behind each and one more at the end, comes out with a
      newline behind each. */
  lemma MultiStringReadsBack(ts: seq<Text>, default: Text)
    requires ts != [] && forall i :: 0 <= i < |ts| ==> ZERO !in ts[i]
    ensures ValueOf(REG_MULTI_SZ, RT.EncodeText(Terminated(ts, ZERO)) + RT.NUL, default)
            == Some(Terminated(ts, CodeUnit(10, 0)))
  {
    TerminatedDecodes(Terminated(ts, ZERO));
    NewlinesForMarks(ts);
  }

  // ---------------------------------------------------------------- string containers start afresh

  lemma {:induction false} AfreshAt(a: seq<RawEntry>, c: RawEntry, b: seq<RawEntry>, i: nat, env: Env)
    requires IsContainer(c) && c.dType == REG_SZ && i <= |b|
    ensures Inherited(a + [c] + b, |a| + 1 + i, env) == Inherited([c] + b, 1 + i, env)
    ensures MetasBehind(a + [c] + b, |a| + 1 + i, env) == MetasBehind([c] + b, 1 + i, env)
    decreases i
  {
    hide Inherited, MetasBehind;
    var whole, part := a + [c] + b, [c] + b;
    if i == 0 {
      assert whole[|a|] == c == part[0];
      Behind(whole, |a|, env);
      Behind(part, 0, env);
    } else {
      assert whole[|a| + i] == b[i - 1] == part[i];
      AfreshAt(a, c, b, i - 1, env);
      Behind(whole, |a| + i, env);
      Behind(part, i, env);
    }
  }

  lemma EntryAfresh(a: seq<RawEntry>, c: RawEntry, b: seq<RawEntry>, i: nat, env: Env)
    requires IsContainer(c) && c.dType == REG_SZ && i <= |b|
    ensures var whole, part := a + [c] + b, [c] + b;
            && whole[|a| + i] == part[i]
            && (Fails(whole, |a| + i, env) <==> Fails(part, i, env))
            && (Emits(part[i]) ==> EntryAt(whole, |a| + i, env) == EntryAt(part, i, env))
  {
    hide Inherited, MetasBehind, ValueOf;
    var whole, part := a + [c] + b, [c] + b;
    if i == 0 {
      assert whole[|a|] == c == part[0];
    } else {
      assert whole[|a| + i] == b[i - 1] == part[i];
      AfreshAt(a, c, b, i - 1, env);
    }
    AfreshAt(a, c, b, i, env);
  }

  lemma {:induction false} EmittedAfresh(a: seq<RawEntry>, c: RawEntry, b: seq<RawEntry>, i: nat, env: Env)
    requires IsContainer(c) && c.dType == REG_SZ && i <= |b| + 1
    ensures Emitted(a + [c] + b, |a| + i, env) == Emitted(a + [c] + b, |a|, env) + Emitted([c] + b, i, env)
    decreases i
  {
    hide Emits, EntryAt, IsContainer, Fails;
    var whole, part := a + [c] + b, [c] + b;
    if i == 0 {
      assert Emitted(part, 0, env) == [];
    } else {
      EmittedAfresh(a, c, b, i - 1, env);
      EntryAfresh(a, c, b, i - 1, env);
      Associative(Emitted(whole, |a|, env), Emitted(part, i - 1, env),
                  if Emits(part[i - 1]) then [EntryAt(part, i - 1, env)] else []);
    }
  }

  lemma {:induction false} PrefixOnly(a: seq<RawEntry>, more: seq<RawEntry>, n: nat, env: Env)
    requires n <= |a|
    ensures Inherited(a + more, n, env) == Inherited(a, n, env)
    ensures MetasBehind(a + more, n, env) == MetasBehind(a, n, env)
    ensures Emitted(a + more, n, env) == Emitted(a, n, env)
    decreases n
  {
    hide Inherited, MetasBehind, ValueOf, IsContainer, IsSingle, Deleted, SaysDisabled, Sets, Emits, KeyAt, DataAt;
    Behind0(a, env);
    Behind0(a + more, env);
    if n > 0 {
      PrefixOnly(a, more, n - 1, env);
      assert (a + more)[n - 1] == a[n - 1];
      Behind(a, n - 1, env);
      Behind(a + more, n - 1, env);
    }
  }

  lemma PrefixFails(a: seq<RawEntry>, more: seq<RawEntry>, i: nat, env: Env)
    requires i < |a|
    ensures Fails(a + more, i, env) <==> Fails(a, i, env)
  {
    hide Inherited, ValueOf;
    PrefixOnly(a, more, i, env);
  }

  /** Decoding is piecewise: what stands from a string container on is decoded as if nothing stood in
      front of it, and what stands in front as if nothing followed. */
  lemma StringContainerStartsAfresh(a: seq<RawEntry>, c: RawEntry, b: seq<RawEntry>, env: Env)
    requires IsContainer(c) && c.dType == REG_SZ
    ensures var whole, part := a + [c] + b, [c] + b;
            && Emitted(whole, |whole|, env) == Emitted(a, |a|, env) + Emitted(part, |part|, env)
            && ((exists i :: 0 <= i < |whole| && Fails(whole, i, env))
                <==> (exists i :: 0 <= i < |a| && Fails(a, i, env)) || (exists i :: 0 <= i < |part| && Fails(part, i, env)))
  {
    hide Fails, Emitted;
    var whole, part := a + [c] + b, [c] + b;
    assert whole == a + part;
    EmittedAfresh(a, c, b, |b| + 1, env);
    PrefixOnly(a, part, |a|, env);
    forall i | 0 <= i < |part| ensures Fails(whole, |a| + i, env) <==> Fails(part, i, env) {
      EntryAfresh(a, c, b, i, env);
    }
    forall i | 0 <= i < |a| ensures Fails(whole, i, env) <==> Fails(a, i, env) {
      PrefixFails(a, part, i, env);
    }
    if i :| 0 <= i < |whole| && Fails(whole, i, env) {
      if i >= |a| {
        assert |a| + (i - |a|) == i;
        assert Fails(part, i - |a|, env);
      } else {
        assert Fails(a, i, env);
      }
    }
    if i :| 0 <= i < |a| && Fails(a, i, env) { assert Fails(whole, i, env); }
    if i :| 0 <= i < |part| && Fails(part, i, env) { assert Fails(whole, |a| + i, env); }
  }

  // ---------------------------------------------------------------- in plain terms

  /** The names and types that matter. */
  lemma NamesAre()
    ensures DEL == Ascii("**del.") && CONTAINER == Ascii("metaValues") && SINGLE == Ascii("basic")
    ensures ALL == Ascii("all") && DISABLED == Ascii("DISABLED")
    ensures REG_SZ == 1 && REG_DWORD == 4 && REG_MULTI_SZ == 7
  {}

  /** A plain name lies in the file with a zero behind each of its characters. */
  lemma EncodedAscii(s: string, i: nat)
    requires IsAscii(s) && i < |s|
    ensures |RT.EncodeText(Ascii(s))| == 2 * |s|
    ensures RT.EncodeText(Ascii(s))[2 * i] as int == s[i] as int && RT.EncodeText(Ascii(s))[2 * i + 1] == 0
  {
    EncodedPlaces(Ascii(s), i);
  }

  lemma {:induction false} EncodedPlaces(t: Text, i: nat)
    requires i < |t|
    ensures |RT.EncodeText(t)| == 2 * |t|
    ensures RT.EncodeText(t)[2 * i] == t[i].lo && RT.EncodeText(t)[2 * i + 1] == t[i].hi
    decreases i
  {
    RT.TextRoundTrip(t);
    if i > 0 {
      EncodedPlaces(t[1..], i - 1);
      assert RT.EncodeText(t) == [t[0].lo, t[0].hi] + RT.EncodeText(t[1..]);
    }
  }

  /** A deletion mark is taken off the name. */
  lemma MarkedName(path: Text, name: Text, dType: Byte, data: Bytes, err: bool)
    ensures var e := RawEntry(path, DEL + name, dType, data, err); Deleted(e) && Name(e) == name
    ensures !(DEL <= name) ==> var e := RawEntry(path, name, dType, data, err); !Deleted(e) && Name(e) == name
  {}

  /** Backslashes are turned round, and nothing else is. */
  lemma SlashesTurn(t: Text)
    ensures |Slashes(t)| == |t|
    ensures forall i :: 0 <= i < |t| ==>
                          (t[i] == CodeUnit(0x5C, 0) ==> Slashes(t)[i] == CodeUnit(0x2F, 0))
                          && (t[i] != CodeUnit(0x5C, 0) ==> Slashes(t)[i] == t[i])
  {}

  /** Neither a container nor a single key. */
  predicate Child(e: RawEntry) { Name(e) != CONTAINER && Name(e) != SINGLE }

  /** What children behind a container do not change. */
  lemma {:induction false} ChildrenChangeNothing(es: seq<RawEntry>, n: nat, m: nat, env: Env)
    requires n <= m <= |es| && forall i :: n <= i < m ==> Child(es[i])
    ensures Inherited(es, m, env) == Inherited(es, n, env) && MetasBehind(es, m, env) == MetasBehind(es, n, env)
    decreases m
  {
    hide Inherited, MetasBehind;
    if n < m {
      ChildrenChangeNothing(es, n, m - 1, env);
      AtChild(es, m - 1, env);
    }
  }

  lemma LastEmitted(es: seq<RawEntry>, e: RawEntry, env: Env)
    requires Emits(e)
    ensures Emitted(es + [e], |es + [e]|, env) == Emitted(es, |es|, env) + [EntryAt(es + [e], |es|, env)]
  {
    hide EntryAt;
    PrefixOnly(es, [e], |es|, env);
  }

  /** What is said by a child behind a string container with readable meta values and any children in
      between: the container's meta and strategy for its name, each in its place; whether it is
      disabled, and if not its value, with the container's default for the empty string. */
  lemma ChildTakesFromContainer(a: seq<RawEntry>, c: RawEntry, mid: seq<RawEntry>, e: RawEntry, env: Env, ms: Metas)
    requires IsContainer(c) && c.dType == REG_SZ && env.getMeta(c.data) == Some(ms)
    requires (forall i :: 0 <= i < |mid| ==> Child(mid[i])) && Child(e)
    ensures var es := a + [c] + mid;
            var p, k := EntryAt(es + [e], |es|, env), Name(e);
            && Emitted(es + [e], |es + [e]|, env) == Emitted(es, |es|, env) + [p]
            && p.key == env.join(Slashes(e.path), k)
            && p.meta == (if k in ms then ms[k].meta else [])
            && p.strategy == (if k in ms then ms[k].strategy else [])
            && p.disabled == (Deleted(e) || Deleted(c) || DISABLED in ms)
            && (p.disabled ==> p.value == [] && p.err == e.err)
            && (!p.disabled && ValueOf(e.dType, e.data, if k in ms then ms[k].empty else []).Some? ==>
                  && p.value == ValueOf(e.dType, e.data, if k in ms then ms[k].empty else []).value
                  && p.err == (e.err || e.dType !in {1, 4, 7}))
  {
    hide Inherited, MetasBehind, ValueOf, Emitted, Ascii;
    var es := a + [c] + mid;
    var all := es + [e];
    assert all[|a|] == c && all[|es|] == e && forall i :: |a| < i < |es| ==> all[i] == mid[i - |a| - 1];
    AtContainer(all, |a|, env);
    ChildrenChangeNothing(all, |a| + 1, |es|, env);
    AtChild(all, |es|, env);
    LastEmitted(es, e, env);
  }

  /** A string child that is enabled says what it was written with, or its default. */
  lemma ChildString(a: seq<RawEntry>, c: RawEntry, mid: seq<RawEntry>, e: RawEntry, t: Text, env: Env, ms: Metas)
    requires IsContainer(c) && c.dType == REG_SZ && env.getMeta(c.data) == Some(ms)
    requires (forall i :: 0 <= i < |mid| ==> Child(mid[i])) && Child(e)
    requires e.dType == REG_SZ && e.data == RT.EncodeText(t) + RT.NUL
    requires !Deleted(e) && !Deleted(c) && DISABLED !in ms
    ensures var es := a + [c] + mid;
            EntryAt(es + [e], |es|, env).value ==
            if t == [] && Name(e) in ms then ms[Name(e)].empty else t
  {
    hide EntryAt, Child, IsContainer, Deleted, Emitted, ValueOf;
    ChildTakesFromContainer(a, c, mid, e, env, ms);
    StringReadsBack(t, if Name(e) in ms then ms[Name(e)].empty else []);
  }

  /** A single key is for all releases, with its own meta values and nothing else as its value. */
  lemma SingleIsForAll(a: seq<RawEntry>, e: RawEntry, env: Env, ms: Metas)
    requires IsSingle(e) && e.dType == REG_SZ && env.getMeta(e.data) == Some(ms)
    ensures var p := EntryAt(a + [e], |a|, env);
            && Emitted(a + [e], |a + [e]|, env) == Emitted(a, |a|, env) + [p]
            && p.key == env.join(Slashes(e.path), ALL)
            && p.meta == (if ALL in ms then ms[ALL].meta else [])
            && p.strategy == (if ALL in ms then ms[ALL].strategy else [])
            && p.disabled == (Deleted(e) || DISABLED in ms)
            && p.value == (if !p.disabled && ALL in ms then ms[ALL].empty else [])
            && p.err == e.err
  {
    hide Inherited, MetasBehind, Emitted, Ascii;
    assert (a + [e])[|a|] == e;
    AtSingle(a + [e], |a|, env);
    LastEmitted(a, e, env);
    assert Units([]) == [];
  }

  /** Containers emit nothing, and neither do single keys that are no strings. */
  lemma SilentOnes(a: seq<RawEntry>, e: RawEntry, env: Env)
    requires IsContainer(e) || (IsSingle(e) && e.dType != REG_SZ)
    ensures Emitted(a + [e], |a + [e]|, env) == Emitted(a, |a|, env)
  {
    hide Ascii, EntryAt;
    NamesDiffer();
    PrefixOnly(a, [e], |a|, env);
    assert (a + [e])[|a|] == e && !Emits(e);
    assert Emitted(a, |a|, env) + [] == Emitted(a, |a|, env);
  }

  /** A container of another type keeps the meta values in force and disables its children only by
      being deleted; a single key of another type clears the meta values. */
  lemma OtherTypes(a: seq<RawEntry>, c: RawEntry, env: Env)
    requires c.dType != REG_SZ
    ensures IsContainer(c) ==> MetasBehind(a + [c], |a| + 1, env) == MetasBehind(a + [c], |a|, env)
                               && Inherited(a + [c], |a| + 1, env) == Deleted(c)
    ensures IsSingle(c) ==> MetasBehind(a + [c], |a| + 1, env) == map[]
                            && Inherited(a + [c], |a| + 1, env) == Inherited(a + [c], |a|, env)
  {
    hide Inherited, MetasBehind, Ascii;
    assert (a + [c])[|a|] == c;
    if IsContainer(c) { AtContainer(a + [c], |a|, env); }
    if IsSingle(c) { AtSingle(a + [c], |a|, env); }
  }

  /** What makes the policy unreadable: meta values that are, and enabled data that is cut short. */
  lemma UnreadableData(dType: Byte, data: Bytes, default: Text)
    ensures (dType == 1 || dType == 7) && |data| % 2 == 1 ==> ValueOf(dType, data, default) == None
    ensures dType == 4 && |data| < 4 ==> ValueOf(dType, data, default) == None
    ensures dType != 1 && dType != 4 && dType != 7 ==> ValueOf(dType, data, default) == Some([])
  {}
}
