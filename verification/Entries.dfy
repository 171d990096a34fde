/** The entry type shared by the policy modules, and the order `sort.Strings` sorts by. */
module Entries {
  import opened Basics

  const STRATEGY_APPEND := "append"

  /** A key/value policy entry. Any strategy but "append" means override. */
  datatype Entry = Entry(
    key: string,
    value: string,
    disabled: bool,
    meta: string,
    strategy: string,
    err: Option<string>)

  predicate Appends(e: Entry) { e.strategy == STRATEGY_APPEND }

  /** What reading a missing key of a Go map yields. */
  const ZERO_ENTRY := Entry("", "", false, "", "", None)

  /** A GPO: rules by type ("dconf", "scripts", ...). */
  datatype GPO = GPO(id: string, name: string, rules: map<string, seq<Entry>>)

  /** The rules of a type, none if it is missing. */
  function Get(rules: map<string, seq<Entry>>, t: string): seq<Entry> { if t in rules then rules[t] else [] }

  // ---------------------------------------------------------------- string order

  predicate Below(a: string, b: string) {
    b != [] && (a == [] || a[0] < b[0] || (a[0] == b[0] && Below(a[1..], b[1..])))
  }

  /** Byte by byte, and a string in front of those that go on behind it. */
  lemma {:induction false} BelowIs(a: string, b: string)
    ensures Below(a, b) <==> a < b || exists i :: 0 <= i < |a| && i < |b| && a[..i] == b[..i] && a[i] < b[i]
  {
    if a != [] && b != [] {
      if a[0] == b[0] {
        BelowIs(a[1..], b[1..]);
        if i :| 0 <= i < |a[1..]| && i < |b[1..]| && a[1..][..i] == b[1..][..i] && a[1..][i] < b[1..][i] {
          assert a[..i + 1] == [a[0]] + a[1..][..i] && b[..i + 1] == [b[0]] + b[1..][..i];
          assert a[i + 1] < b[i + 1];
        }
        if i :| 0 <= i < |a| && i < |b| && a[..i] == b[..i] && a[i] < b[i] {
          assert i > 0 && a[1..][..i - 1] == a[..i][1..] && b[1..][..i - 1] == b[..i][1..];
          assert a[1..][i - 1] < b[1..][i - 1];
        }
        assert a < b <==> a[1..] < b[1..];
      } else {
        assert a[..0] == b[..0];
        if i :| 0 <= i < |a| && i < |b| && a[..i] == b[..i] && a[i] < b[i] {
          if i > 0 { assert a[..i][0] == b[..i][0]; }
        }
      }
    }
  }

  lemma {:induction false} BelowIrreflexive(a: string)
    ensures !Below(a, a)
  {
    if a != [] { BelowIrreflexive(a[1..]); }
  }

  lemma {:induction false} BelowTransitive(a: string, b: string, c: string)
    requires Below(a, b) && Below(b, c)
    ensures Below(a, c)
  {
    if a != [] && a[0] == b[0] == c[0] { BelowTransitive(a[1..], b[1..], c[1..]); }
  }

  lemma {:induction false} BelowTotal(a: string, b: string)
    ensures a == b || Below(a, b) || Below(b, a)
  {
    if a != [] && b != [] && a[0] == b[0] {
      BelowTotal(a[1..], b[1..]);
      assert a == [a[0]] + a[1..] && b == [b[0]] + b[1..];
    }
  }

  ghost predicate StrictlySorted(ks: seq<string>) {
    forall i, j :: 0 <= i < j < |ks| ==> Below(ks[i], ks[j])
  }

  /** A strictly sorted list is determined by its elements. */
  lemma {:induction false} SortedUnique(xs: seq<string>, ys: seq<string>)
    requires StrictlySorted(xs) && StrictlySorted(ys)
    requires forall k :: k in xs <==> k in ys
    ensures xs == ys
    decreases |xs|
  {
    if xs == [] {
      if ys != [] {
        var k := AnElement(ys);
        assert false;
      }
    } else {
      assert xs[0] in ys;
      FirstIsFirst(xs, ys);
      var x := xs[0];
      forall k ensures k in xs[1..] <==> k in ys[1..] {
        HeadIsFresh(xs, k);
        HeadIsFresh(ys, k);
      }
      SortedUnique(xs[1..], ys[1..]);
      assert xs == [x] + xs[1..] && ys == [x] + ys[1..];
    }
  }

  lemma AnElement(xs: seq<string>) returns (k: string)
    requires xs != []
    ensures k in xs
  {
    k := xs[0];
  }

  lemma HeadIsFresh(xs: seq<string>, k: string)
    requires StrictlySorted(xs) && xs != []
    ensures k in xs[1..] <==> k in xs && k != xs[0]
  {
    assert xs == [xs[0]] + xs[1..];
    BelowIrreflexive(xs[0]);
    forall i | 0 <= i < |xs[1..]| ensures xs[1..][i] != xs[0] {
      assert Below(xs[0], xs[1..][i]);
    }
  }

  lemma FirstIsFirst(xs: seq<string>, ys: seq<string>)
    requires StrictlySorted(xs) && StrictlySorted(ys) && xs != [] && ys != []
    requires forall k :: k in xs <==> k in ys
    ensures xs[0] == ys[0]
  {
    assert xs[0] in ys && ys[0] in xs;
    var i :| 0 <= i < |ys| && ys[i] == xs[0];
    var j :| 0 <= j < |xs| && xs[j] == ys[0];
    if i > 0 && j > 0 {
      BelowTransitive(xs[0], ys[0], xs[0]);
      BelowIrreflexive(xs[0]);
    }
  }

  /** In order, repetitions allowed. */
  ghost predicate Sorted(ks: seq<string>) {
    forall i, j :: 0 <= i < j < |ks| ==> ks[i] == ks[j] || Below(ks[i], ks[j])
  }

  ghost predicate Distinct(ks: seq<string>) {
    forall i, j :: 0 <= i < j < |ks| ==> ks[i] != ks[j]
  }

  lemma SortedDistinct(ks: seq<string>, r: seq<string>)
    requires Sorted(r) && multiset(r) == multiset(ks) && Distinct(ks)
    ensures StrictlySorted(r)
  {
    forall i, j | 0 <= i < j < |r| ensures Below(r[i], r[j]) {
      if r[i] == r[j] {
        Twice(r, i, j);
        Once(ks, r[i]);
        assert false;
      }
    }
  }

  lemma Twice(r: seq<string>, i: nat, j: nat)
    requires i < j < |r| && r[i] == r[j]
    ensures multiset(r)[r[i]] >= 2
  {
    assert r == r[..i] + [r[i]] + r[i + 1..j] + [r[j]] + r[j + 1..];
  }

  lemma {:induction false} Once(ks: seq<string>, k: string)
    requires Distinct(ks)
    ensures multiset(ks)[k] <= 1
  {
    if ks != [] {
      assert ks == [ks[0]] + ks[1..];
      Once(ks[1..], k);
      if k == ks[0] { assert k !in ks[1..]; }
    }
  }

  /** What sort.Strings promises, by insertion. */
  method SortStrings(ks: seq<string>) returns (r: seq<string>)
    ensures Sorted(r) && multiset(r) == multiset(ks)
    ensures Distinct(ks) ==> StrictlySorted(r)
  {
    r := [];
    for n := 0 to |ks|
      invariant Sorted(r) && multiset(r) == multiset(ks[..n])
    {
      r := InsertString(r, ks[n]);
      assert ks[..n + 1] == ks[..n] + [ks[n]];
    }
    assert ks[..|ks|] == ks;
    if Distinct(ks) { SortedDistinct(ks, r); }
  }

  method InsertString(ks: seq<string>, k: string) returns (r: seq<string>)
    requires Sorted(ks)
    ensures Sorted(r) && multiset(r) == multiset(ks) + multiset{k}
  {
    hide Below;
    var i := 0;
    while i < |ks| && Below(ks[i], k)
      invariant 0 <= i <= |ks|
      invariant forall j :: 0 <= j < i ==> Below(ks[j], k)
    {
      i := i + 1;
    }
    r := ks[..i] + [k] + ks[i..];
    assert ks == ks[..i] + ks[i..];
    InsertedIsSorted(ks, k, i);
  }

  lemma InsertedIsSorted(ks: seq<string>, k: string, i: nat)
    requires Sorted(ks) && i <= |ks| && (forall j :: 0 <= j < i ==> Below(ks[j], k))
    requires i < |ks| ==> !Below(ks[i], k)
    ensures Sorted(ks[..i] + [k] + ks[i..])
  {
    hide Below;
    var r := ks[..i] + [k] + ks[i..];
    forall j | i <= j < |ks| ensures k == ks[j] || Below(k, ks[j]) {
      BelowTotal(ks[i], k);
      if i < j && k != ks[i] && ks[i] != ks[j] { BelowTransitive(k, ks[i], ks[j]); }
    }
    forall a, b | 0 <= a < b < |r| ensures r[a] == r[b] || Below(r[a], r[b]) {
      if a == i {
        assert r[b] == ks[b - 1];
      } else if a < i < b {
        assert r[b] == ks[b - 1] && r[a] == ks[a];
      }
    }
  }
}
