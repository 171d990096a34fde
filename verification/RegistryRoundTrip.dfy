/** The file format the reader is for, section 2.2.1 of [MS-GPREG], and exactly which settings
    survive being written in that format and read back. */
module RegistryRoundTrip {
  import opened Basics
  import opened RegistryScan
  import opened RegistryPolicy

  // ---------------------------------------------------------------- the encoder

  type Dword = n: int | 0 <= n < 0x1_0000_0000

  /** A registry setting as the format describes it: key path and value name without their
      terminators, a type and a block of data. */
  datatype Setting = Setting(path: Text, key: Text, dType: Dword, data: Bytes)

  const OPEN: Bytes := [0x5B, 0]
  const SEP: Bytes := [0x3B, 0]
  const CLOSE: Bytes := [0x5D, 0]
  const NUL: Bytes := [0, 0]

  function EncodeText(t: Text): Bytes {
    if t == [] then [] else [t[0].lo, t[0].hi] + EncodeText(t[1..])
  }

  function Byte0(n: int): Byte { (n % 256) as Byte }

  function EncodeDword(n: int): Bytes {
    [Byte0(n), Byte0(n / 0x100), Byte0(n / 0x1_0000), Byte0(n / 0x100_0000)]
  }

  /** key;value;type;size;data with both strings terminated. */
  function Fields(e: Setting): Bytes {
    EncodeText(e.path) + NUL + SEP + Fields1(e)
  }

  function Fields1(e: Setting): Bytes { EncodeText(e.key) + NUL + SEP + Fields2(e) }

  function Fields2(e: Setting): Bytes { EncodeDword(e.dType) + SEP + Fields3(e) }

  function Fields3(e: Setting): Bytes { EncodeDword(|e.data|) + SEP + e.data }

  function Encode(e: Setting): Bytes { OPEN + Fields(e) + CLOSE }

  function EncodeAll(es: seq<Setting>): Bytes {
    if es == [] then [] else Encode(es[0]) + EncodeAll(es[1..])
  }

  // ---------------------------------------------------------------- what survives

  ghost predicate DelimFree(d: Bytes) { forall i: nat :: !DelimAt(d, i) }

  predicate NoTrailingNul(t: Text) { t == [] || t[|t| - 1] != ZERO }

  /** Everything the reader needs of a setting. The two strings, terminators included, must not hold
      the field delimiter at any byte offset; type and size must fit the halves of their DWORDs that
      the reader keeps; the first end marker at any byte offset must be the item's own, which also
      asks that the data is empty or ends in a NUL (or a ";"); and the item must fit the buffer. */
  ghost predicate WellFormed(e: Setting, cap: nat) {
    && e.path != [] && NoTrailingNul(e.path) && NoTrailingNul(e.key)
    && DelimFree(EncodeText(e.path) + NUL) && DelimFree(EncodeText(e.key) + NUL)
    && e.dType < 0x100 && |e.data| < 0x1_0000
    && FindEnd(Fields(e) + CLOSE, 0) == Some(|Fields(e)| - 2)
    && |Encode(e)| <= cap
  }

  /** The setting as the reader represents it; an empty value name is kept with its error. */
  function RawOf(e: Setting): RawEntry {
    RawEntry(e.path, e.key, Byte0(e.dType), e.data, e.key == [])
  }

  function RawsOf(es: seq<Setting>): seq<RawEntry> {
    if es == [] then [] else [RawOf(es[0])] + RawsOf(es[1..])
  }

  // ---------------------------------------------------------------- texts and numbers

  lemma {:induction false} TextRoundTrip(t: Text)
    ensures |EncodeText(t)| == 2 * |t| && Units(EncodeText(t)) == t
  {
    if t != [] {
      TextRoundTrip(t[1..]);
      assert EncodeText(t)[2..] == EncodeText(t[1..]);
    }
  }

  lemma {:induction false} UnitsRoundTrip(b: Bytes)
    requires |b| % 2 == 0
    ensures EncodeText(Units(b)) == b
    decreases |b|
  {
    if b != [] {
      UnitsRoundTrip(b[2..]);
      assert Units(b)[1..] == Units(b[2..]);
    }
  }

  lemma {:induction false} EncodeTextConcat(a: Text, b: Text)
    ensures EncodeText(a + b) == EncodeText(a) + EncodeText(b)
  {
    if a == [] {
      assert a + b == b;
    } else {
      EncodeTextConcat(a[1..], b);
      assert (a + b)[1..] == a[1..] + b;
    }
  }

  lemma TextDecodes(t: Text)
    requires NoTrailingNul(t)
    ensures DecodeUtf16(EncodeText(t)) == Some(t)
  {
    TextRoundTrip(t);
  }

  /** Only two byte strings decode to a text: its encoding with and without a terminator. */
  lemma DecodesOnlyFrom(b: Bytes, t: Text)
    requires DecodeUtf16(b) == Some(t)
    ensures b == EncodeText(t) || b == EncodeText(t) + NUL
    ensures b == EncodeText(t) ==> NoTrailingNul(t)
  {
    UnitsRoundTrip(b);
    TextRoundTrip(t);
    var ints := Units(b);
    if ints != [] && ints[|ints| - 1] == ZERO {
      assert ints == t + [ZERO];
      EncodeTextConcat(t, [ZERO]);
      assert [ZERO][1..] == [];
    }
  }

  // ---------------------------------------------------------------- one field at a time

  lemma {:induction false} FindDelimIs(d: Bytes, i: nat, m: nat)
    requires i <= m && DelimAt(d, m)
    requires forall j: nat :: i <= j < m ==> !DelimAt(d, j)
    ensures FindDelim(d, i) == Some(m)
    decreases m - i
  {
    if i < m { FindDelimIs(d, i + 1, m); }
  }

  /** A string field is cut at its terminator exactly when it is free of the delimiter. */
  lemma StringField(f: Bytes, rest: Bytes)
    ensures var d := f + NUL + SEP + rest;
            FindDelim(d, 0) == Some(|f|) <==> DelimFree(f + NUL)
  {
    var d := f + NUL + SEP + rest;
    assert DelimAt(d, |f|);
    if DelimFree(f + NUL) {
      forall j: nat | j < |f| ensures !DelimAt(d, j) {
        assert !DelimAt(f + NUL, j);
      }
      FindDelimIs(d, 0, |f|);
    }
    if FindDelim(d, 0) == Some(|f|) {
      forall j: nat ensures !DelimAt(f + NUL, j) {
        if j < |f| { assert !DelimAt(d, j); }
      }
    }
  }

  lemma CutString(f: Bytes, rest: Bytes, n: nat)
    requires DelimFree(f + NUL) && n > 1
    ensures SplitN(f + NUL + SEP + rest, n) == [f] + SplitN(rest, n - 1)
  {
    StringField(f, rest);
    var d := f + NUL + SEP + rest;
    assert d[..|f|] == f && d[|f| + 4..] == rest;
  }

  lemma CutDword(v: int, rest: Bytes, n: nat)
    requires 0 <= v < 0x1_0000 && n > 1
    ensures SplitN(EncodeDword(v) + SEP + rest, n) == [EncodeDword(v)[..2]] + SplitN(rest, n - 1)
  {
    var d := EncodeDword(v) + SEP + rest;
    assert d[0] == Byte0(v) && d[1] == Byte0(v / 0x100) && d[2] == 0 && d[3] == 0 && d[4] == 0x3B && d[5] == 0;
    assert !DelimAt(d, 0) && !DelimAt(d, 1);
    FindDelimIs(d, 0, 2);
    assert d[..2] == EncodeDword(v)[..2] && d[6..] == rest;
  }

  lemma FieldsSplit(e: Setting)
    requires DelimFree(EncodeText(e.path) + NUL) && DelimFree(EncodeText(e.key) + NUL)
    requires e.dType < 0x1_0000 && |e.data| < 0x1_0000
    ensures SplitN(Fields(e), 5) == [EncodeText(e.path), EncodeText(e.key), EncodeDword(e.dType)[..2],
                                     EncodeDword(|e.data|)[..2], e.data]
  {
    hide EncodeText, EncodeDword, DelimFree, FindDelim, SplitN;
    CutString(EncodeText(e.path), Fields1(e), 5);
    CutString(EncodeText(e.key), Fields2(e), 4);
    CutDword(e.dType, Fields3(e), 3);
    CutDword(|e.data|, e.data, 2);
    NoCut(e.data);
  }

  lemma NoCut(d: Bytes)
    ensures SplitN(d, 1) == [d]
  {}

  /** The five fields of a well-formed setting come out as they went in. */
  lemma FieldsParse(e: Setting, cap: nat)
    requires WellFormed(e, cap)
    ensures ParseItem(Fields(e)) == Raw(RawOf(e))
  {
    hide FindEnd, EncodeText, DecodeUtf16, Fields, SplitN;
    FieldsSplit(e);
    TextDecodes(e.path);
    TextDecodes(e.key);
  }

  // ---------------------------------------------------------------- one item

  /** An item starts at its "[", and its end is looked for in what follows. */
  lemma ItemAt(e: Setting, more: Bytes)
    ensures FindStart(Encode(e) + more, 0) == 0
    ensures FindEnd(Encode(e) + more, 2) ==
            match FindEnd(Fields(e) + CLOSE + more, 0) { case Some(i) => Some(i + 2) case None => None }
  {
    var all := Encode(e) + more;
    assert StartAt(all, 0);
    FindStartIs(all, 0, 0);
    assert all[2..] == Fields(e) + CLOSE + more;
    ShiftedEnd(all, 2, 0);
  }

  lemma EndIsStable(d: Bytes, more: Bytes)
    requires FindEnd(d, 0).Some?
    ensures FindEnd(d + more, 0) == FindEnd(d, 0)
  {
    var i := FindEnd(d, 0).value;
    forall j: nat | j < i ensures !EndAt(d + more, j) { assert !EndAt(d, j); }
    FindEndIs(d + more, 0, i);
  }

  lemma WellFormedItem(e: Setting, more: Bytes, cap: nat)
    requires WellFormed(e, cap)
    ensures NextItem(Encode(e) + more, cap) == Item(|Encode(e)|, Fields(e))
  {
    ItemAt(e, more);
    EndIsStable(Fields(e) + CLOSE, more);
    assert (Encode(e) + more)[2..|Fields(e)| + 2] == Fields(e);
  }

  /** Reading is left inverse to writing, for every list of well-formed settings, whatever follows. */
  lemma {:induction false} PoliciesOfEncoded(es: seq<Setting>, rest: Bytes, cap: nat)
    requires forall i :: 0 <= i < |es| ==> WellFormed(es[i], cap)
    ensures Policies(EncodeAll(es) + rest, cap) == Prepend(RawsOf(es), Policies(rest, cap))
    decreases |es|
  {
    if es == [] {
      assert EncodeAll(es) + rest == rest;
      PrependTwice([], [], Policies(rest, cap));
    } else {
      EncodeAllStep(es, rest);
      PoliciesOfOne(es[0], EncodeAll(es[1..]) + rest, cap);
      PoliciesOfEncoded(es[1..], rest, cap);
      PrependTwice([RawOf(es[0])], RawsOf(es[1..]), Policies(rest, cap));
    }
  }

  lemma EncodeAllStep(es: seq<Setting>, rest: Bytes)
    requires es != []
    ensures EncodeAll(es) + rest == Encode(es[0]) + (EncodeAll(es[1..]) + rest)
    ensures RawsOf(es) == [RawOf(es[0])] + RawsOf(es[1..])
  {
    Associative(Encode(es[0]), EncodeAll(es[1..]), rest);
  }

  lemma NothingToRead(cap: nat)
    ensures Policies([], cap) == Entries([])
  {
    assert FindEnd([], 2).None?;
  }

  lemma PoliciesOfOne(e: Setting, rest: Bytes, cap: nat)
    requires WellFormed(e, cap)
    ensures Policies(Encode(e) + rest, cap) == Prepend([RawOf(e)], Policies(rest, cap))
  {
    WellFormedItem(e, rest, cap);
    FieldsParse(e, cap);
    assert (Encode(e) + rest)[|Encode(e)|..] == rest;
  }

  /** Round trip over whole files. */
  lemma RoundTrip(es: seq<Setting>)
    requires forall i :: 0 <= i < |es| ==> WellFormed(es[i], MAX_TOKEN_SIZE)
    ensures ReadSpec(HEADER + EncodeAll(es)) == Entries(RawsOf(es))
  {
    var file := HEADER + EncodeAll(es);
    assert file[..8] == HEADER && file[8..] == EncodeAll(es);
    assert EncodeAll(es) + [] == EncodeAll(es) && RawsOf(es) + [] == RawsOf(es);
    PoliciesOfEncoded(es, [], MAX_TOKEN_SIZE);
    NothingToRead(MAX_TOKEN_SIZE);
  }

  /** One item that no buffer holds: the settings in front of it, well formed as they are, and all
      that follows are gone, and there is no error. */
  lemma OversizedItemEmptiesFile(es: seq<Setting>, e: Setting, more: Bytes)
    requires forall i :: 0 <= i < |es| ==> WellFormed(es[i], MAX_TOKEN_SIZE)
    requires FindEnd(Fields(e) + CLOSE, 0) == Some(|Fields(e)| - 2) && |Encode(e)| > MAX_TOKEN_SIZE
    ensures ReadSpec(HEADER + EncodeAll(es) + Encode(e) + more) == Entries([])
  {
    var rest := Encode(e) + more;
    BehindHeader(EncodeAll(es), Encode(e), more);
    PoliciesOfEncoded(es, rest, MAX_TOKEN_SIZE);
    Oversized(e, more, MAX_TOKEN_SIZE);
  }

  /** A file cut off behind well-formed settings, in the middle of an item: with fewer than 64 KiB of
      that item the reader fails, as it should. With more, all settings are gone and there is no error. */
  lemma CutOffFile(es: seq<Setting>, tail: Bytes)
    requires forall i :: 0 <= i < |es| ==> WellFormed(es[i], MAX_TOKEN_SIZE)
    requires StartAt(tail, 0) && forall i: nat :: !EndAt(tail, i)
    ensures ReadSpec(HEADER + EncodeAll(es) + tail) ==
            if |tail| >= BASE_TOKEN_SIZE then Entries([]) else Failed(NotTerminated)
  {
    hide Policies, StartAt, EndAt, EncodeAll;
    BehindHeader(EncodeAll(es), tail, []);
    assert HEADER + EncodeAll(es) + tail + [] == HEADER + EncodeAll(es) + tail && tail + [] == tail;
    PoliciesOfEncoded(es, tail, MAX_TOKEN_SIZE);
    Unterminated(tail, MAX_TOKEN_SIZE);
  }

  lemma Unterminated(tail: Bytes, cap: nat)
    requires StartAt(tail, 0) && forall i: nat :: !EndAt(tail, i)
    ensures Policies(tail, cap) == Failed(if |tail| >= BASE_TOKEN_SIZE then ItemTooLong else NotTerminated)
  {
    FindStartIs(tail, 0, 0);
    assert FindEnd(tail, 2).None?;
  }

  lemma BehindHeader(a: Bytes, b: Bytes, c: Bytes)
    ensures var file := HEADER + a + b + c;
            |file| >= 8 && file[..8] == HEADER && file[8..] == a + (b + c)
  {}

  lemma Oversized(e: Setting, more: Bytes, cap: nat)
    requires FindEnd(Fields(e) + CLOSE, 0) == Some(|Fields(e)| - 2) && |Encode(e)| > cap
    ensures Policies(Encode(e) + more, cap) == Failed(ItemTooLong)
  {
    ItemAt(e, more);
    EndIsStable(Fields(e) + CLOSE, more);
    assert NextItem(Encode(e) + more, cap) == Stop(EndTooLong);
  }

  /** A size field can itself look like an end marker. Data of exactly 0x5D00 bytes, a length a
      string may well have, is never read back. */
  lemma SizeThatLooksLikeAnEnd(e: Setting)
    requires |e.data| == 0x5D00 || |e.data| == 0x5D
    ensures !WellFormed(e, MAX_TOKEN_SIZE)
    ensures !Survives(e, MAX_TOKEN_SIZE)
  {
    hide EncodeText, FindEnd, Survives;
    var front := EncodeText(e.path) + NUL + SEP + EncodeText(e.key) + NUL + SEP + EncodeDword(e.dType);
    assert Fields(e) + CLOSE == front + SEP + EncodeDword(|e.data|) + (SEP + e.data + CLOSE);
    SizeIsAnEnd(front, |e.data|, SEP + e.data + CLOSE);
    assert |Fields(e)| - 2 >= |front| + 6;
    SurvivesIff(e);
  }

  lemma SizeIsAnEnd(front: Bytes, size: int, rest: Bytes)
    requires size == 0x5D00 || size == 0x5D
    ensures EndAt(front + SEP + EncodeDword(size) + rest, if size == 0x5D then |front| else |front| + 1)
  {
    assert EncodeDword(0x5D00) == [0, 0x5D, 0, 0] && EncodeDword(0x5D) == [0x5D, 0, 0, 0];
    var body := front + SEP + EncodeDword(size) + rest;
    assert forall k :: 0 <= k < 4 ==> body[|front| + 2 + k] == EncodeDword(size)[k];
  }

  // ---------------------------------------------------------------- plain settings

  /** Characters below U+0100, no NUL and no "]". */
  predicate Plain(t: Text) {
    forall i :: 0 <= i < |t| ==> t[i].hi == 0 && t[i].lo != 0 && t[i].lo != 0x5D
  }

  lemma {:induction false} PlainBytes(t: Text)
    requires Plain(t)
    ensures |EncodeText(t)| == 2 * |t|
    ensures forall i :: 0 <= i < |t| ==> EncodeText(t)[2 * i] == t[i].lo && EncodeText(t)[2 * i + 1] == 0
  {
    if t != [] {
      PlainBytes(t[1..]);
      forall i | 0 <= i < |t| ensures EncodeText(t)[2 * i] == t[i].lo && EncodeText(t)[2 * i + 1] == 0 {
        if i > 0 {
          assert EncodeText(t)[2 * i] == EncodeText(t[1..])[2 * (i - 1)];
          assert EncodeText(t)[2 * i + 1] == EncodeText(t[1..])[2 * (i - 1) + 1];
        }
      }
    }
  }

  lemma PlainIsDelimFree(t: Text)
    requires Plain(t)
    ensures DelimFree(EncodeText(t) + NUL) && NoTrailingNul(t)
    ensures 0x5D !in EncodeText(t)
  {
    PlainBytes(t);
    var d := EncodeText(t) + NUL;
    forall j: nat | j < 2 * |t| ensures (j % 2 == 0 ==> d[j] != 0) && d[j] != 0x5D {
      assert j == 2 * (j / 2) + j % 2;
    }
    forall j: nat ensures !DelimAt(d, j) {
      if j + 1 < 2 * |t| { assert j % 2 == 0 || (j + 1) % 2 == 0; }
    }
  }

  /** The settings the policy templates produce are well formed: plain names, a small type, data
      that is empty or ends in a NUL, and no byte 0x5D in data or size. */
  lemma PlainIsWellFormed(e: Setting, cap: nat)
    requires e.path != [] && Plain(e.path) && Plain(e.key)
    requires e.dType < 0x100 && e.dType != 0x5D && |e.data| < 0x1_0000 && |Encode(e)| <= cap
    requires 0x5D !in e.data && 0x5D !in EncodeDword(|e.data|)
    requires e.data == [] || (|e.data| >= 2 && e.data[|e.data| - 2..] == NUL)
    ensures WellFormed(e, cap)
  {
    PlainIsDelimFree(e.path);
    PlainIsDelimFree(e.key);
    PlainFields(e);
    LastTwo(e);
    hide Fields, Encode, EncodeText, DelimFree, FindEnd, Plain;
    EndOfItem(Fields(e));
  }

  /** No byte of the fields looks like the "]" of an end marker. */
  lemma PlainFields(e: Setting)
    requires 0x5D !in EncodeText(e.path) && 0x5D !in EncodeText(e.key) && 0x5D !in e.data
    requires e.dType < 0x100 && e.dType != 0x5D && |e.data| < 0x1_0000 && 0x5D !in EncodeDword(|e.data|)
    ensures 0x5D !in Fields(e)
  {
    hide EncodeText;
    assert 0x5D !in EncodeDword(e.dType);
  }

  lemma EndOfItem(f: Bytes)
    requires 0x5D !in f && |f| >= 2 && (f[|f| - 2] == 0 || f[|f| - 2] == 0x3B) && f[|f| - 1] == 0
    ensures FindEnd(f + CLOSE, 0) == Some(|f| - 2)
  {
    assert EndAt(f + CLOSE, |f| - 2);
    forall j: nat | j < |f| - 2 ensures !EndAt(f + CLOSE, j) {
      assert (f + CLOSE)[j + 2] == f[j + 2];
      assert f[j + 2] in f;
    }
    FindEndIs(f + CLOSE, 0, |f| - 2);
  }

  lemma LastTwo(e: Setting)
    requires e.data == [] || (|e.data| >= 2 && e.data[|e.data| - 2..] == NUL)
    ensures var f := Fields(e);
            |f| >= 2 && (f[|f| - 2] == 0 || f[|f| - 2] == 0x3B) && f[|f| - 1] == 0
  {
    var f := Fields(e);
    var front := EncodeText(e.path) + NUL + SEP + EncodeText(e.key) + NUL + SEP + EncodeDword(e.dType) + SEP
                 + EncodeDword(|e.data|);
    assert f == front + SEP + e.data;
  }

  // ---------------------------------------------------------------- nothing else survives

  /** Reading back gives just this setting; the type counts as its full DWORD. */
  ghost predicate Survives(e: Setting, cap: nat) {
    match Policies(Encode(e), cap)
    case Entries(es) => es == [RawOf(e)] && e.dType < 0x100
    case Failed(_) => false
  }

  /** A first piece that decodes to the string it was written from was cut where it should be. */
  lemma StringCut(f: Text, rest: Bytes, token: Bytes)
    requires token <= EncodeText(f) + NUL + SEP + rest
    requires FindDelim(token, 0).Some? && DecodeUtf16(token[..FindDelim(token, 0).value]) == Some(f)
    ensures FindDelim(token, 0).value == |EncodeText(f)|
    ensures NoTrailingNul(f) && DelimFree(EncodeText(f) + NUL)
    ensures token[|EncodeText(f)| + 4..] <= rest
  {
    var whole, m := EncodeText(f) + NUL + SEP + rest, FindDelim(token, 0).value;
    assert forall j :: 0 <= j < |token| ==> token[j] == whole[j];
    DecodesOnlyFrom(token[..m], f);
    assert whole[|EncodeText(f)| + 2] == 0x3B;
    assert DelimAt(token, m) && m == |EncodeText(f)|;
    forall j: nat ensures !DelimAt(EncodeText(f) + NUL, j) {
      if j + 1 < m { assert !DelimAt(token, j); }
    }
    assert whole[m + 4..] == rest && token == whole[..|token|];
  }

  /** The same for the two-byte piece of the type. */
  lemma DwordCut(v: Dword, rest: Bytes, token: Bytes)
    requires token <= EncodeDword(v) + SEP + rest
    requires FindDelim(token, 0) == Some(2)
    ensures v < 0x1_0000 && token[6..] <= rest
  {
    var whole := EncodeDword(v) + SEP + rest;
    assert forall j :: 0 <= j < |token| ==> token[j] == whole[j];
    assert DelimAt(token, 2);
    assert whole[6..] == rest && token == whole[..|token|];
  }

  /** Data that equals itself shifted by one ";" is nothing but ";". */
  lemma {:induction false} AllSemicolons(data: Bytes, n: nat)
    requires n <= |data| && forall j :: 0 <= j < n ==> data[j] == (SEP + data)[j]
    ensures forall j :: 0 <= j < n && j % 2 == 0 ==> data[j] == 0x3B
  {
    if n > 0 {
      AllSemicolons(data, n - 1);
      if n > 2 && (n - 1) % 2 == 0 { assert data[n - 3] == 0x3B; }
    }
  }

  /** The last cut: with the data intact, the size fits two bytes and nothing is missing. */
  lemma SizeCut(data: Bytes, token: Bytes)
    requires |data| < 0x1_0000_0000
    requires token <= EncodeDword(|data|) + SEP + data
    requires FindDelim(token, 0).Some? && token[FindDelim(token, 0).value + 4..] == data
    requires |token| < |data| + 6 ==>
               |token| + 2 <= |data| + 6 && (EncodeDword(|data|) + SEP + data)[|token|] == 0x5D
    ensures |data| < 0x1_0000 && token == EncodeDword(|data|) + SEP + data
  {
    hide FindDelim;
    var whole, m := EncodeDword(|data|) + SEP + data, FindDelim(token, 0).value;
    assert forall j :: 0 <= j < |token| ==> token[j] == whole[j];
    assert DelimAt(token, m) && |token| == m + 4 + |data|;
    assert whole[4] == 0x3B && whole[5] == 0;
    if m == 0 { SizeIsNoDelimiter(data, token); }
    assert m != 1;
    assert |token| == |whole| ==> token == whole;
  }

  /** The size itself cannot be the fourth cut. */
  lemma SizeIsNoDelimiter(data: Bytes, token: Bytes)
    requires |data| < 0x1_0000_0000
    requires token <= EncodeDword(|data|) + SEP + data
    requires DelimAt(token, 0) && token[4..] == data
    ensures |token| + 2 == |data| + 6 && (EncodeDword(|data|) + SEP + data)[|token|] != 0x5D
  {
    var size := EncodeDword(|data|);
    var whole := size + SEP + data;
    assert token == whole[..|token|];
    assert size[2] == whole[2] == token[2] == 0x3B && size[0] == token[0] == 0 && size[1] == token[1] == 0;
    assert size[3] == token[3] == 0;
    assert |data| == 0x3B_0000;
    assert whole[4..] == SEP + data;
    forall j | 0 <= j < |data| ensures data[j] == (SEP + data)[j] {
      assert data[j] == token[j + 4] == whole[j + 4] == whole[4..][j];
    }
    assert whole[|token|] == data[|data| - 2];
    AllSemicolons(data, |data|);
  }

  lemma FirstEntry(input: Bytes, cap: nat, first: RawEntry)
    requires Policies(input, cap).Entries? && Policies(input, cap).entries == [first]
    ensures NextItem(input, cap).Item?
    ensures ParseItem(NextItem(input, cap).token) == Raw(first)
  {
    hide NextItem, ParseItem;
    var next := NextItem(input, cap);
    if next.Item? && ParseItem(next.token).Raw? {
      var entry, rest := ParseItem(next.token).entry, Policies(input[next.advance..], cap);
      assert Policies(input, cap) == Prepend([entry], rest);
      assert ([entry] + rest.entries)[0] == entry;
    }
  }

  /** Whatever is cut out of an encoded setting is a prefix of its fields, up to an end marker. */
  lemma ItemIsPrefix(e: Setting, cap: nat)
    requires NextItem(Encode(e), cap).Item?
    ensures var token := NextItem(Encode(e), cap).token;
            && FindEnd(Fields(e) + CLOSE, 0) == Some(|token| - 2) && |token| + 4 <= cap
            && token <= Fields(e)
            && (|token| < |Fields(e)| ==> |token| + 2 <= |Fields(e)| && Fields(e)[|token|] == 0x5D)
  {
    EncodedEnd(e);
    ItemOf(Encode(e), Fields(e), cap);
  }

  lemma ItemOf(item: Bytes, f: Bytes, cap: nat)
    requires item == OPEN + f + CLOSE && FindStart(item, 0) == 0 && NextItem(item, cap).Item?
    requires FindEnd(item, 2) == match FindEnd(f + CLOSE, 0) { case Some(i) => Some(i + 2) case None => None }
    ensures var token := NextItem(item, cap).token;
            && FindEnd(f + CLOSE, 0) == Some(|token| - 2) && |token| + 4 <= cap
            && token <= f && (|token| < |f| ==> |token| + 2 <= |f| && f[|token|] == 0x5D)
  {
    hide FindStart, FindEnd, EndAt, StartAt;
    var i := FindEnd(f + CLOSE, 0).value;
    UpToMarker(f, i);
    TokenOfItem(f, i);
  }

  lemma EncodedEnd(e: Setting)
    ensures FindStart(Encode(e), 0) == 0
    ensures FindEnd(Encode(e), 2) ==
            match FindEnd(Fields(e) + CLOSE, 0) { case Some(i) => Some(i + 2) case None => None }
  {
    assert Encode(e) == Encode(e) + [] && Fields(e) + CLOSE + [] == Fields(e) + CLOSE;
    ItemAt(e, []);
  }

  lemma UpToMarker(f: Bytes, i: nat)
    requires EndAt(f + CLOSE, i)
    ensures i + 2 <= |f|
    ensures i + 2 < |f| ==> i + 4 <= |f| && f[i + 2] == 0x5D
  {
    assert (f + CLOSE)[i + 3] == 0;
  }

  lemma TokenOfItem(f: Bytes, i: nat)
    requires i + 2 <= |f|
    ensures (OPEN + f + CLOSE)[2..i + 4] == f[..i + 2]
  {}

  lemma SplitStep(d: Bytes, n: nat)
    requires n > 1 && |SplitN(d, n)| > 1
    ensures FindDelim(d, 0).Some?
    ensures SplitN(d, n)[0] == d[..FindDelim(d, 0).value]
    ensures SplitN(d, n)[1..] == SplitN(d[FindDelim(d, 0).value + 4..], n - 1)
  {}

  lemma SurvivorIsWellFormed(e: Setting, cap: nat)
    requires |e.data| < 0x1_0000_0000 && Survives(e, cap)
    ensures WellFormed(e, cap)
  {
    hide Policies, ParseItem, FindEnd, Fields, Encode, DelimFree;
    var token := SurvivorToken(e, cap);
    SurvivorPath(e, token);
    EncodedLength(e);
  }

  lemma EncodedLength(e: Setting)
    ensures |Encode(e)| == |Fields(e)| + 4
  {}

  lemma SurvivorToken(e: Setting, cap: nat) returns (token: Bytes)
    requires Survives(e, cap)
    ensures e.dType < 0x100 && ParseItem(token) == Raw(RawOf(e))
    ensures FindEnd(Fields(e) + CLOSE, 0) == Some(|token| - 2) && |token| + 4 <= cap
    ensures token <= Fields(e) && (|token| < |Fields(e)| ==> |token| + 2 <= |Fields(e)| && Fields(e)[|token|] == 0x5D)
  {
    hide Policies, NextItem, ParseItem, FindEnd, Fields, Encode;
    FirstEntry(Encode(e), cap, RawOf(e));
    ItemIsPrefix(e, cap);
    token := NextItem(Encode(e), cap).token;
  }

  lemma FieldsOf(token: Bytes, raw: RawEntry)
    requires ParseItem(token) == Raw(raw)
    ensures |SplitN(token, 5)| == 5 && raw.path != []
    ensures var elems := SplitN(token, 5);
            && DecodeUtf16(elems[0]) == Some(raw.path) && DecodeUtf16(elems[1]) == Some(raw.key)
            && |elems[2]| == 2 && elems[4] == raw.data
  {
    hide SplitN, DecodeUtf16;
  }

  lemma SurvivorPath(e: Setting, token: Bytes)
    requires |e.data| < 0x1_0000_0000 && token <= Fields(e)
    requires |token| < |Fields(e)| ==> |token| + 2 <= |Fields(e)| && Fields(e)[|token|] == 0x5D
    requires ParseItem(token) == Raw(RawOf(e))
    ensures e.path != [] && NoTrailingNul(e.path) && NoTrailingNul(e.key)
    ensures DelimFree(EncodeText(e.path) + NUL) && DelimFree(EncodeText(e.key) + NUL)
    ensures |e.data| < 0x1_0000 && token == Fields(e)
  {
    hide ParseItem, FindDelim, FindEnd, EncodeText, Fields1;
    FieldsOf(token, RawOf(e));
    SplitStep(token, 5);
    StringCut(e.path, Fields1(e), token);
    var front, rest := EncodeText(e.path) + NUL + SEP, token[|EncodeText(e.path)| + 4..];
    assert Fields(e) == front + Fields1(e) && token == front + rest;
    SurvivorKey(e, rest);
  }

  lemma SurvivorKey(e: Setting, token: Bytes)
    requires |e.data| < 0x1_0000_0000 && token <= Fields1(e)
    requires |token| < |Fields1(e)| ==> |token| + 2 <= |Fields1(e)| && Fields1(e)[|token|] == 0x5D
    requires |SplitN(token, 4)| == 4
    requires var elems := SplitN(token, 4); DecodeUtf16(elems[0]) == Some(e.key) && |elems[1]| == 2 && elems[3] == e.data
    ensures NoTrailingNul(e.key) && DelimFree(EncodeText(e.key) + NUL) && |e.data| < 0x1_0000 && token == Fields1(e)
  {
    SplitStep(token, 4);
    StringCut(e.key, Fields2(e), token);
    var front, rest := EncodeText(e.key) + NUL + SEP, token[|EncodeText(e.key)| + 4..];
    assert Fields1(e) == front + Fields2(e) && token == front + rest;
    SurvivorNumbers(e, rest);
  }

  lemma SurvivorNumbers(e: Setting, token: Bytes)
    requires |e.data| < 0x1_0000_0000 && token <= Fields2(e)
    requires |token| < |Fields2(e)| ==> |token| + 2 <= |Fields2(e)| && Fields2(e)[|token|] == 0x5D
    requires |SplitN(token, 3)| == 3
    requires var elems := SplitN(token, 3); |elems[0]| == 2 && elems[2] == e.data
    ensures |e.data| < 0x1_0000 && token == Fields2(e)
  {
    SplitStep(token, 3);
    DwordCut(e.dType, Fields3(e), token);
    var front, rest := EncodeDword(e.dType) + SEP, token[6..];
    assert Fields2(e) == front + Fields3(e) && token == front + rest;
    SplitStep(rest, 2);
    SizeCut(e.data, rest);
  }

  /** Main result: over all settings whose data a size DWORD can describe, a setting is read back as
      it was written if and only if it is well formed. */
  lemma SurvivesIff(e: Setting)
    requires |e.data| < 0x1_0000_0000
    ensures Survives(e, MAX_TOKEN_SIZE) <==> WellFormed(e, MAX_TOKEN_SIZE)
  {
    if WellFormed(e, MAX_TOKEN_SIZE) {
      PoliciesOfOne(e, [], MAX_TOKEN_SIZE);
      assert Encode(e) + [] == Encode(e);
      NothingToRead(MAX_TOKEN_SIZE);
    }
    if Survives(e, MAX_TOKEN_SIZE) { SurvivorIsWellFormed(e, MAX_TOKEN_SIZE); }
  }

  // ---------------------------------------------------------------- down to the bytes

  /** The signature and version in front of every file, low bytes first, and the sizes of the buffer. */
  lemma NumbersInTheFile()
    ensures HEADER == EncodeDword(0x6765_5250) + EncodeDword(1)
    ensures EncodeDword(0x0403_0201) == [1, 2, 3, 4]
    ensures BASE_TOKEN_SIZE == 65536 && MAX_TOKEN_SIZE == 67_108_864
  {
    hide EncodeDword;
    SignatureBytes();
    CountingBytes();
    SmallDwords();
  }

  lemma SignatureBytes()
    ensures EncodeDword(0x6765_5250) == [0x50, 0x52, 0x65, 0x67]
  {}

  lemma CountingBytes()
    ensures EncodeDword(0x0403_0201) == [1, 2, 3, 4]
  {}

  /** A setting as it is written: "[", key path, ";", value name, ";", type, ";", size, ";", data, "]", the
      names ended by a NUL. */
  lemma SettingInBytes(p: CodeUnit, k: CodeUnit, dType: Dword, data: Bytes)
    ensures Encode(Setting([p], [k], dType, data)) ==
            [0x5B, 0, p.lo, p.hi, 0, 0, 0x3B, 0, k.lo, k.hi, 0, 0, 0x3B, 0] + EncodeDword(dType) + [0x3B, 0]
            + EncodeDword(|data|) + [0x3B, 0] + data + [0x5D, 0]
  {
    hide EncodeText, EncodeDword;
    OneUnit(p);
    OneUnit(k);
  }

  lemma OneUnit(u: CodeUnit)
    ensures EncodeText([u]) == [u.lo, u.hi]
  {
    assert [u][1..] == [];
  }

  /** And as it is read: a file with one setting of the type REG_SZ, from its bytes to its fields. */
  lemma FileInBytes()
    ensures ReadSpec([0x50, 0x52, 0x65, 0x67, 1, 0, 0, 0]
                     + [0x5B, 0, 0x61, 0, 0, 0, 0x3B, 0, 0x62, 0, 0, 0, 0x3B, 0]
                     + [1, 0, 0, 0, 0x3B, 0] + [4, 0, 0, 0, 0x3B, 0]
                     + [0x63, 0, 0, 0] + [0x5D, 0])
            == Entries([RawEntry([CodeUnit(0x61, 0)], [CodeUnit(0x62, 0)], 1, [0x63, 0, 0, 0], false)])
  {
    hide Encode, ReadSpec, WellFormed;
    var e := Setting([CodeUnit(0x61, 0)], [CodeUnit(0x62, 0)], 1, [0x63, 0, 0, 0]);
    ExampleInBytes(e);
    ExampleIsWellFormed(e);
    OneSettingFile(e);
    assert Byte0(1) == 1;
  }

  lemma ExampleInBytes(e: Setting)
    requires e == Setting([CodeUnit(0x61, 0)], [CodeUnit(0x62, 0)], 1, [0x63, 0, 0, 0])
    ensures HEADER + Encode(e) ==
            [0x50, 0x52, 0x65, 0x67, 1, 0, 0, 0]
            + [0x5B, 0, 0x61, 0, 0, 0, 0x3B, 0, 0x62, 0, 0, 0, 0x3B, 0]
            + [1, 0, 0, 0, 0x3B, 0] + [4, 0, 0, 0, 0x3B, 0]
            + [0x63, 0, 0, 0] + [0x5D, 0]
  {
    hide Encode, EncodeDword;
    SettingInBytes(CodeUnit(0x61, 0), CodeUnit(0x62, 0), 1, [0x63, 0, 0, 0]);
    SmallDwords();
    assert [1, 0, 0, 0] + [0x3B, 0] == [1, 0, 0, 0, 0x3B, 0] && [4, 0, 0, 0] + [0x3B, 0] == [4, 0, 0, 0, 0x3B, 0];
    Regroup(HEADER, [0x5B, 0, 0x61, 0, 0, 0, 0x3B, 0, 0x62, 0, 0, 0, 0x3B, 0], [1, 0, 0, 0], [0x3B, 0], [4, 0, 0, 0], e.data,
            [0x5D, 0]);
  }

  lemma Regroup(h: Bytes, front: Bytes, a: Bytes, s: Bytes, b: Bytes, data: Bytes, c: Bytes)
    ensures h + (front + a + s + b + s + data + c) == h + front + (a + s) + (b + s) + data + c
  {}

  lemma SmallDwords()
    ensures EncodeDword(1) == [1, 0, 0, 0] && EncodeDword(4) == [4, 0, 0, 0]
  {}

  lemma ExampleIsWellFormed(e: Setting)
    requires e == Setting([CodeUnit(0x61, 0)], [CodeUnit(0x62, 0)], 1, [0x63, 0, 0, 0])
    ensures WellFormed(e, MAX_TOKEN_SIZE)
  {
    hide WellFormed;
    SettingInBytes(CodeUnit(0x61, 0), CodeUnit(0x62, 0), 1, [0x63, 0, 0, 0]);
    SmallDwords();
    PlainIsWellFormed(e, MAX_TOKEN_SIZE);
  }

  lemma OneSettingFile(e: Setting)
    requires WellFormed(e, MAX_TOKEN_SIZE)
    ensures ReadSpec(HEADER + Encode(e)) == Entries([RawEntry(e.path, e.key, Byte0(e.dType), e.data, e.key == [])])
  {
    hide WellFormed, Encode, ReadSpec;
    RoundTrip([e]);
    assert [e][1..] == [] && EncodeAll([]) == [] && RawsOf([]) == [];
    assert EncodeAll([e]) == Encode(e) + [] == Encode(e);
    assert RawsOf([e]) == [RawOf(e)] + [] == [RawOf(e)];
  }

  /** The ways a file fails before its first item. */
  lemma BadHeaders(file: Bytes)
    ensures |file| == 0 ==> ReadSpec(file) == Failed(EmptyFile)
    ensures 0 < |file| < 8 ==> ReadSpec(file) == Failed(ShortHeader)
    ensures |file| >= 8 && file[..8] != [0x50, 0x52, 0x65, 0x67, 1, 0, 0, 0] ==> ReadSpec(file) == Failed(BadHeader)
  {}

  /** The ways an item fails, in the order they are looked at: too few fields, a name of odd length, no
      key path, a type that is not two bytes. No value name is an error that is kept for later. */
  lemma BadItems(path: Bytes, key: Bytes, t: Bytes, size: Bytes, data: Bytes)
    requires DelimFree(path + NUL) && DelimFree(key + NUL) && DelimFree(t + NUL) && DelimFree(size + NUL)
    ensures var item := path + NUL + SEP + (key + NUL + SEP + (t + NUL + SEP + (size + NUL + SEP + data)));
            ParseItem(item) ==
            if |path| % 2 == 1 || |key| % 2 == 1 then Bad(OddLength)
            else if path == [] || path == [0, 0] then Bad(EmptyKey)
            else if |t| != 2 then Bad(InvalidType)
            else Raw(RawEntry(DecodeUtf16(path).value, DecodeUtf16(key).value, t[0], data, key == [] || key == [0, 0]))
    ensures DelimFree(path) ==> ParseItem(path) == Bad(NotFiveFields)
  {
    hide FindDelim, DelimFree, Units, DecodeUtf16;
    var item := path + NUL + SEP + (key + NUL + SEP + (t + NUL + SEP + (size + NUL + SEP + data)));
    FiveCuts(path, key, t, size, data);
    DecodesTo(path);
    DecodesTo(key);
    if DelimFree(path) { NoDelimiter(path); }
  }

  lemma FiveCuts(path: Bytes, key: Bytes, t: Bytes, size: Bytes, data: Bytes)
    requires DelimFree(path + NUL) && DelimFree(key + NUL) && DelimFree(t + NUL) && DelimFree(size + NUL)
    ensures SplitN(path + NUL + SEP + (key + NUL + SEP + (t + NUL + SEP + (size + NUL + SEP + data))), 5)
            == [path, key, t, size, data]
  {
    hide DelimFree, SplitN;
    CutString(path, key + NUL + SEP + (t + NUL + SEP + (size + NUL + SEP + data)), 5);
    CutString(key, t + NUL + SEP + (size + NUL + SEP + data), 4);
    CutString(t, size + NUL + SEP + data, 3);
    CutString(size, data, 2);
    NoCut(data);
  }

  lemma NoDelimiter(d: Bytes)
    requires DelimFree(d)
    ensures SplitN(d, 5) == [d]
  {
    assert FindDelim(d, 0).None?;
  }

  lemma DecodesTo(b: Bytes)
    ensures DecodeUtf16(b).None? <==> |b| % 2 == 1
    ensures |b| % 2 == 0 ==> (DecodeUtf16(b).value == [] <==> b == [] || b == [0, 0])
  {
    if |b| % 2 == 0 {
      UnitsRoundTrip(b);
      TextRoundTrip(Units(b));
      if DecodeUtf16(b).value == [] { DecodesOnlyFrom(b, []); }
      if b == [0, 0] { assert b[2..] == [] && Units(b) == [ZERO]; }
    }
  }
}
