/** From scanned items to raw policy entries: fields, the scan over a file, and the retry with a
    buffer that doubles. */
module RegistryPolicy {
  import opened Basics
  import opened RegistryScan

  // ---------------------------------------------------------------- fields

  /** "\0;", at any byte offset. */
  predicate DelimAt(d: Bytes, i: nat) {
    i + 3 < |d| && d[i] == 0 && d[i + 1] == 0 && d[i + 2] == 0x3B && d[i + 3] == 0
  }

  function FindDelim(d: Bytes, i: nat): (r: Option<nat>)
    ensures r.Some? ==> i <= r.value && DelimAt(d, r.value) && forall j: nat :: i <= j < r.value ==> !DelimAt(d, j)
    ensures r.None? ==> forall j: nat :: i <= j ==> !DelimAt(d, j)
    decreases |d| - i
  {
    if i + 3 >= |d| then None else if DelimAt(d, i) then Some(i) else FindDelim(d, i + 1)
  }

  /** bytes.SplitN with the field delimiter: at most n pieces, cut at the leftmost delimiters. */
  function SplitN(d: Bytes, n: nat): (r: seq<Bytes>)
    requires n > 0
    ensures 0 < |r| <= n
  {
    if n == 1 then [d]
    else match FindDelim(d, 0)
         case None => [d]
         case Some(m) => [d[..m]] + SplitN(d[m + 4..], n - 1)
  }

  function Units(b: Bytes): Text
    requires |b| % 2 == 0
  {
    if b == [] then [] else [CodeUnit(b[0], b[1])] + Units(b[2..])
  }

  /** Up to the decoding of surrogates: an odd length is an error, one trailing NUL is dropped. */
  function DecodeUtf16(b: Bytes): Option<Text> {
    if |b| % 2 != 0 then None
    else
      var ints := Units(b);
      Some(if ints != [] && ints[|ints| - 1] == ZERO then ints[..|ints| - 1] else ints)
  }

  // ---------------------------------------------------------------- raw entries

  /** `err`: the value name is empty, an error only if the key turns out to be supported. */
  datatype RawEntry = RawEntry(path: Text, key: Text, dType: Byte, data: Bytes, err: bool)

  datatype Error =
    | EmptyFile | ShortHeader | BadHeader
    | NotFiveFields | OddLength | EmptyKey | InvalidType
    | NotTerminated | ItemTooLong

  datatype Result = Entries(entries: seq<RawEntry>) | Failed(error: Error)

  datatype Parsed = Raw(entry: RawEntry) | Bad(error: Error)

  /** The fields of one item, checked in the order the program checks them. */
  function ParseItem(token: Bytes): Parsed {
    var elems := SplitN(token, 5);
    if |elems| != 5 then Bad(NotFiveFields)
    else
      var prefix, suffix := DecodeUtf16(elems[0]), DecodeUtf16(elems[1]);
      if prefix.None? || suffix.None? then Bad(OddLength)
      else if prefix.value == [] then Bad(EmptyKey)
      else if |elems[2]| != 2 then Bad(InvalidType)
      else Raw(RawEntry(prefix.value, suffix.value, elems[2][0], elems[4], suffix.value == []))
  }

  // ---------------------------------------------------------------- one pass over the file

  function Prepend(es: seq<RawEntry>, r: Result): Result {
    match r
    case Entries(rest) => Entries(es + rest)
    case Failed(e) => Failed(e)
  }

  function Ended(why: Ending): Result {
    match why
    case Done => Entries([])
    case EndTooLong => Failed(ItemTooLong)
    case EndUnterminated => Failed(NotTerminated)
  }

  /** One scan of the whole input at once: the items in order, up to the first that is bad. */
  function Policies(input: Bytes, cap: nat): Result
    decreases |input|
  {
    match NextItem(input, cap)
    case Stop(why) => Ended(why)
    case Item(advance, token) =>
      match ParseItem(token)
      case Bad(e) => Failed(e)
      case Raw(e) => Prepend([e], Policies(input[advance..], cap))
  }

  lemma PrependTwice(xs: seq<RawEntry>, ys: seq<RawEntry>, r: Result)
    ensures Prepend(xs, Prepend(ys, r)) == Prepend(xs + ys, r)
  {
    if r.Entries? { assert xs + (ys + r.entries) == xs + ys + r.entries; }
  }

  /** Streaming equals batch: the loop over the scanner yields what one scan of all bytes would,
      whatever pieces the bytes come in. */
  method ScanForPolicies(s: Scanner) returns (r: Result)
    requires s.Valid() && s.stopped.None?
    modifies s`start, s`end, s`stopped
    ensures r == Policies(s.input[old(s.start)..], s.cap)
  {
    var entries: seq<RawEntry> := [];
    ghost var all := Policies(s.input[s.start..], s.cap);
    PrependTwice([], [], all);
    var more := true;
    while more
      invariant s.Valid() && (more ==> s.stopped.None?)
      invariant more ==> all == Prepend(entries, Policies(s.input[s.start..], s.cap))
      invariant !more ==> s.stopped.Some? && all == Prepend(entries, Ended(s.stopped.value))
      decreases |s.input| - s.start, more
    {
      ghost var rest := s.input[s.start..];
      var token := s.Scan();
      if token.None? {
        more := false;
      } else {
        assert rest[NextItem(rest, s.cap).advance..] == s.input[s.start..];
        match ParseItem(token.value) {
          case Bad(e) =>
            return Failed(e);
          case Raw(e) =>
            PrependTwice(entries, [e], Policies(s.input[s.start..], s.cap));
            entries := entries + [e];
        }
      }
    }
    match s.stopped.value {
      case Done =>
        assert entries + [] == entries;
        return Entries(entries);
      case EndTooLong =>
        return Failed(ItemTooLong);
      case EndUnterminated =>
        return Failed(NotTerminated);
    }
  }

  // ---------------------------------------------------------------- the retry

  /** "PReg" and version 1, little endian. */
  const HEADER: Bytes := [0x50, 0x52, 0x65, 0x67, 1, 0, 0, 0]

  /** A larger buffer gives the same result unless the smaller one was too small. */
  lemma {:induction false} LargerBuffer(input: Bytes, cap: nat, cap': nat)
    requires BASE_TOKEN_SIZE <= cap <= cap'
    requires Policies(input, cap) != Failed(ItemTooLong)
    ensures Policies(input, cap') == Policies(input, cap)
    decreases |input|
  {
    var next := NextItem(input, cap);
    if next.Item? && ParseItem(next.token).Raw? {
      LargerBuffer(input[next.advance..], cap, cap');
    }
  }

  /** Rescanning from the first byte of the file, header included, finds the same items as scanning
      from behind the header, as long as there is anything behind it. */
  lemma HeaderIsSkipped(body: Bytes, cap: nat)
    requires body != []
    ensures Policies(HEADER + body, cap) == Policies(body, cap)
  {
    var all := HEADER + body;
    assert all[8..] == body;
    forall j: nat | j < 8 ensures !StartAt(all, j) {
      assert all[j] == HEADER[j];
    }
    StartFreePrefix(all, 8, cap);
    match NextItem(body, cap) {
      case Stop(_) =>
      case Item(a, _) => assert all[8 + a..] == body[a..];
    }
  }

  /** The whole file in closed form. A scan that fails as too long even with the largest buffer makes
      the file read as empty, without an error. */
  function ReadSpec(file: Bytes): Result {
    if file == [] then Failed(EmptyFile)
    else if |file| < 8 then Failed(ShortHeader)
    else if file[..8] != HEADER then Failed(BadHeader)
    else
      var r := Policies(file[8..], MAX_TOKEN_SIZE);
      if r == Failed(ItemTooLong) then Entries([]) else r
  }

  // ---------------------------------------------------------------- when a file reads as empty

  /** What the reader can use: an item with an end, that fits the largest buffer and has its fields. */
  predicate Usable(rest: Bytes) {
    var s := FindStart(rest, 0);
    match FindEnd(rest, s + 2)
    case Some(i) => i + 4 - s <= MAX_TOKEN_SIZE && ParseItem(rest[s + 2..i + 2]).Raw?
    case None => false
  }

  function Behind(rest: Bytes): (r: nat)
    requires Usable(rest)
    ensures 0 < r <= |rest|
  {
    FindEnd(rest, FindStart(rest, 0) + 2).value + 4
  }

  /** The first p bytes are usable items, one after the other. */
  predicate UsableUpTo(body: Bytes, p: nat)
    requires p <= |body|
    decreases p
  {
    p == 0 || (Usable(body) && Behind(body) <= p && UsableUpTo(body[Behind(body)..], p - Behind(body)))
  }

  /** What loses the file: an item with an end but larger than the largest buffer, or one without an
      end that has at least the size of the smallest buffer. The latter need not be long: it is what
      is left of a file cut off in the middle. */
  predicate LosesFile(rest: Bytes) {
    var s := FindStart(rest, 0);
    match FindEnd(rest, s + 2)
    case Some(i) => i + 4 - s > MAX_TOKEN_SIZE
    case None => |rest| - s >= BASE_TOKEN_SIZE
  }

  ghost predicate LosesAt(body: Bytes, p: nat) {
    p <= |body| && UsableUpTo(body, p) && LosesFile(body[p..])
  }

  lemma {:induction false} TooLongIff(body: Bytes)
    ensures Policies(body, MAX_TOKEN_SIZE) == Failed(ItemTooLong) <==> exists p: nat :: LosesAt(body, p)
    decreases |body|
  {
    hide ParseItem, FindStart, FindEnd, LosesAt;
    LosesAtStart(body);
    if Usable(body) {
      var b := Behind(body);
      TooLongIff(body[b..]);
      assert Policies(body, MAX_TOKEN_SIZE) ==
             Prepend([ParseItem(NextItem(body, MAX_TOKEN_SIZE).token).entry], Policies(body[b..], MAX_TOKEN_SIZE));
      if p: nat :| LosesAt(body, p) {
        LosesBehind(body, p);
        assert LosesAt(body[b..], p - b);
      }
      if p: nat :| LosesAt(body[b..], p) {
        LosesBehind(body, b + p);
        assert LosesAt(body, b + p);
      }
    } else {
      StopsHere(body);
      forall p: nat | LosesAt(body, p) ensures LosesAt(body, 0) { NothingUsable(body, p); }
    }
  }

  lemma StopsHere(body: Bytes)
    requires !Usable(body)
    ensures Policies(body, MAX_TOKEN_SIZE) == Failed(ItemTooLong) <==> LosesFile(body)
  {
    hide FindStart, FindEnd, SplitN, DecodeUtf16;
  }

  lemma LosesAtStart(body: Bytes)
    ensures LosesAt(body, 0) <==> LosesFile(body)
  {
    assert body[0..] == body;
  }

  lemma NothingUsable(body: Bytes, p: nat)
    requires !Usable(body) && LosesAt(body, p)
    ensures p == 0
  {}

  /** Usable items in front make no difference. */
  lemma LosesBehind(body: Bytes, p: nat)
    requires Usable(body)
    ensures LosesAt(body, p) <==> p >= Behind(body) && LosesAt(body[Behind(body)..], p - Behind(body))
  {
    hide ParseItem, FindStart, FindEnd;
    var b := Behind(body);
    if p == 0 {
      assert body[0..] == body;
      UsableLosesNothing(body);
    } else if b <= p <= |body| {
      assert body[b..][p - b..] == body[p..];
    }
  }

  lemma UsableLosesNothing(body: Bytes)
    requires Usable(body)
    ensures !LosesFile(body)
  {}

  lemma OnlyEmptyIsEmpty(body: Bytes, cap: nat)
    ensures Policies(body, cap) == Entries([]) <==> body == []
  {}

  /** Main result, over all files: exactly which read as empty without an error. Those with nothing
      behind the header, and those in which the first item that is not usable loses the file. */
  lemma ReadsEmptyIff(file: Bytes)
    ensures ReadSpec(file) == Entries([]) <==>
            && |file| >= 8 && file[..8] == HEADER
            && (|file| == 8 || exists p: nat :: LosesAt(file[8..], p))
  {
    if |file| >= 8 {
      TooLongIff(file[8..]);
      OnlyEmptyIsEmpty(file[8..], MAX_TOKEN_SIZE);
      if |file| > 8 { assert file[8..][0] == file[8]; }
    }
  }

  // ---------------------------------------------------------------- the retry itself

  function Doubled(n: nat, times: nat): (r: nat)
    ensures n <= r
  {
    if times == 0 then n else 2 * Doubled(n, times - 1)
  }

  lemma {:induction false} DoubledGrows(n: nat, i: nat, j: nat)
    requires n > 0 && i < j
    ensures Doubled(n, i) < Doubled(n, j)
    decreases j
  {
    if i < j - 1 { DoubledGrows(n, i, j - 1); }
  }

  lemma AtMostTen(k: nat)
    requires Doubled(BASE_TOKEN_SIZE, k) <= MAX_TOKEN_SIZE
    ensures k <= 10
    ensures k < 10 ==> Doubled(BASE_TOKEN_SIZE, k) < MAX_TOKEN_SIZE
  {
    TenDoublings();
    if k > 10 { DoubledGrows(BASE_TOKEN_SIZE, 10, k); }
    if k < 10 { DoubledGrows(BASE_TOKEN_SIZE, k, 10); }
  }

  lemma TenDoublings()
    ensures Doubled(BASE_TOKEN_SIZE, 10) == MAX_TOKEN_SIZE
  {
    assert Doubled(BASE_TOKEN_SIZE, 5) == BASE_TOKEN_SIZE * 32;
    assert Doubled(BASE_TOKEN_SIZE, 8) == BASE_TOKEN_SIZE * 256;
  }

  lemma SomethingTooLong(body: Bytes, cap: nat)
    requires Policies(body, cap) == Failed(ItemTooLong)
    ensures body != []
  {}

  /** One pass with a new scanner. */
  method Pass(input: Bytes, tokenSize: nat) returns (r: Result)
    requires tokenSize >= BASE_TOKEN_SIZE
    ensures r == Policies(input, tokenSize)
  {
    var s := new Scanner(input, tokenSize);
    assert s.input[0..] == s.input;
    r := ScanForPolicies(s);
  }

  /** What a pass from the right offset says about the body. */
  lemma PassTells(body: Bytes, k: nat, tokenSize: nat)
    requires tokenSize == Doubled(BASE_TOKEN_SIZE, k) && tokenSize <= MAX_TOKEN_SIZE
    requires k > 0 ==> Policies(body, Doubled(BASE_TOKEN_SIZE, k - 1)) == Failed(ItemTooLong)
    ensures Policies(if k == 0 then body else HEADER + body, tokenSize) == Policies(body, tokenSize)
    ensures Policies(body, tokenSize) != Failed(ItemTooLong) ==>
              Policies(body, MAX_TOKEN_SIZE) == Policies(body, tokenSize)
  {
    if k > 0 {
      SomethingTooLong(body, Doubled(BASE_TOKEN_SIZE, k - 1));
      HeaderIsSkipped(body, tokenSize);
    }
    if Policies(body, tokenSize) != Failed(ItemTooLong) { LargerBuffer(body, tokenSize, MAX_TOKEN_SIZE); }
  }

  /** Header, then passes over the items with a buffer that doubles while an item does not fit. */
  method ReadPolicy(file: Bytes) returns (r: Result)
    ensures r == ReadSpec(file)
  {
    if file == [] {
      return Failed(EmptyFile);
    }
    if |file| < 8 {
      return Failed(ShortHeader);
    }
    if file[..8] != HEADER {
      return Failed(BadHeader);
    }
    r := ReadItems(file);
  }

  method ReadItems(file: Bytes) returns (r: Result)
    requires |file| >= 8 && file[..8] == HEADER
    ensures Policies(file[8..], MAX_TOKEN_SIZE) == Failed(ItemTooLong) ==> r == Entries([])
    ensures Policies(file[8..], MAX_TOKEN_SIZE) != Failed(ItemTooLong) ==> r == Policies(file[8..], MAX_TOKEN_SIZE)
  {
    hide Policies;
    ghost var body := file[8..];
    var offset := 8;
    var tokenSize := BASE_TOKEN_SIZE;
    ghost var k := 0;
    TenDoublings();
    while tokenSize <= MAX_TOKEN_SIZE
      invariant tokenSize == Doubled(BASE_TOKEN_SIZE, k) && k <= 11
      invariant offset == if k == 0 then 8 else 0
      invariant k > 0 ==> Policies(body, Doubled(BASE_TOKEN_SIZE, k - 1)) == Failed(ItemTooLong)
      decreases 11 - k
    {
      AtMostTen(k);
      PassTells(body, k, tokenSize);
      var pass := Pass(file[offset..], tokenSize);
      assert file[offset..] == if k == 0 then body else HEADER + body;
      if pass != Failed(ItemTooLong) {
        return pass;
      }
      tokenSize := tokenSize * 2;
      offset := 0;
      k := k + 1;
    }
    if k < 10 { DoubledGrows(BASE_TOKEN_SIZE, k, 10); }
    return Entries([]);
  }
}
