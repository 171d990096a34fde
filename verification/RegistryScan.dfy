/** Reading a registry policy file: the split function of the scanner, the buffered scanner around
    it, the field splitter and the retry with a growing buffer. */
module RegistryScan {
  import opened Basics

  newtype Byte = b: int | 0 <= b < 256

  type Bytes = seq<Byte>

  /** A UTF-16 code unit as it lies in the file, low byte first. */
  datatype CodeUnit = CodeUnit(lo: Byte, hi: Byte)

  type Text = seq<CodeUnit>

  const ZERO := CodeUnit(0, 0)

  /** bufio.MaxScanTokenSize, and the largest buffer ever tried. */
  const BASE_TOKEN_SIZE: nat := 65536
  const MAX_TOKEN_SIZE: nat := BASE_TOKEN_SIZE * 1024

  // ---------------------------------------------------------------- the split function

  /** "[" */
  predicate StartAt(d: Bytes, i: nat) {
    i + 1 < |d| && d[i] == 0x5B && d[i + 1] == 0
  }

  /** "\0]" or ";]", at any byte offset. */
  predicate EndAt(d: Bytes, i: nat) {
    i + 3 < |d| && (d[i] == 0 || d[i] == 0x3B) && d[i + 1] == 0 && d[i + 2] == 0x5D && d[i + 3] == 0
  }

  /** Where the first "[" is; without one, the last byte, which might be the first half of one. */
  function FindStart(d: Bytes, i: nat): (s: nat)
    requires i <= |d|
    ensures i <= s <= |d|
    ensures s + 1 < |d| ==> StartAt(d, s)
    ensures forall j: nat :: i <= j < s ==> !StartAt(d, j)
    ensures i < |d| ==> s < |d|
    decreases |d| - i
  {
    if i + 1 < |d| && !StartAt(d, i) then FindStart(d, i + 1) else i
  }

  /** Where the first end marker from i on is. */
  function FindEnd(d: Bytes, i: nat): (r: Option<nat>)
    ensures r.Some? ==> i <= r.value && EndAt(d, r.value) && forall j: nat :: i <= j < r.value ==> !EndAt(d, j)
    ensures r.None? ==> forall j: nat :: i <= j ==> !EndAt(d, j)
    decreases |d| - i
  {
    if i + 3 >= |d| then None else if EndAt(d, i) then Some(i) else FindEnd(d, i + 1)
  }

  /** What the split function answers its scanner. */
  datatype Split =
    | More(advance: nat)
    | Token(advance: nat, token: Bytes)
    | Unterminated
    | TooLong

  function SplitSpec(data: Bytes, atEOF: bool): Split {
    var s := FindStart(data, 0);
    match FindEnd(data, s + 2)
    case Some(i) => Token(i + 4, data[s + 2..i + 2])
    case None =>
      if atEOF && |data| > s then if |data| >= BASE_TOKEN_SIZE then TooLong else Unterminated
      else More(s)
  }

  method ScanPolicyEntries(data: Bytes, atEOF: bool) returns (r: Split)
    ensures r == SplitSpec(data, atEOF)
  {
    var start := 0;
    while start + 1 < |data|
      invariant 0 <= start <= |data|
      invariant FindStart(data, 0) == FindStart(data, start)
    {
      if data[start] == 0x5B && data[start + 1] == 0 {
        break;
      }
      start := start + 1;
    }
    var i := start + 2;
    while i + 3 < |data|
      invariant start + 2 <= i
      invariant FindEnd(data, start + 2) == FindEnd(data, i)
    {
      assert data[i..i + 4] == [data[i], data[i + 1], data[i + 2], data[i + 3]];
      assert EndAt(data, i) <==> data[i..i + 4] == [0, 0, 0x5D, 0] || data[i..i + 4] == [0x3B, 0, 0x5D, 0];
      if data[i..i + 4] == [0, 0, 0x5D, 0] || data[i..i + 4] == [0x3B, 0, 0x5D, 0] {
        return Token(i + 4, data[start + 2..i + 2]);
      }
      i := i + 1;
    }
    if atEOF && |data| > start {
      if |data| >= BASE_TOKEN_SIZE {
        return TooLong;
      }
      return Unterminated;
    }
    return More(start);
  }

  // ---------------------------------------------------------------- the next item, all bytes at hand

  datatype Ending = Done | EndTooLong | EndUnterminated

  datatype Read = Item(advance: nat, token: Bytes) | Stop(why: Ending)

  /** The next item of all that is left. It has to fit the buffer from its "[" to its "]"; what is
      not terminated fails, as too long from the smallest buffer size on. */
  function NextItem(rest: Bytes, cap: nat): (r: Read)
    ensures r.Item? ==> 0 < r.advance <= |rest|
  {
    var s := FindStart(rest, 0);
    match FindEnd(rest, s + 2)
    case Some(i) => if i + 4 - s > cap then Stop(EndTooLong) else Item(i + 4, rest[s + 2..i + 2])
    case None =>
      if rest == [] then Stop(Done)
      else if |rest| - s >= BASE_TOKEN_SIZE then Stop(EndTooLong)
      else Stop(EndUnterminated)
  }

  // ---------------------------------------------------------------- why the buffer does not matter

  lemma {:induction false} FindStartIs(d: Bytes, i: nat, s: nat)
    requires i <= s < |d| && (s + 1 < |d| ==> StartAt(d, s))
    requires forall j: nat :: i <= j < s ==> !StartAt(d, j)
    ensures FindStart(d, i) == s
    decreases s - i
  {
    if i < s { FindStartIs(d, i + 1, s); }
  }

  lemma {:induction false} FindEndIs(d: Bytes, i: nat, e: nat)
    requires i <= e && EndAt(d, e)
    requires forall j: nat :: i <= j < e ==> !EndAt(d, j)
    ensures FindEnd(d, i) == Some(e)
    decreases e - i
  {
    if i < e { FindEndIs(d, i + 1, e); }
  }

  /** A token found in a window is the token of every longer window. */
  lemma TokenIsStable(window: Bytes, more: Bytes, atEOF: bool)
    requires SplitSpec(window, atEOF).Token?
    ensures SplitSpec(window + more, atEOF) == SplitSpec(window, atEOF)
  {
    var s := FindStart(window, 0);
    var i := FindEnd(window, s + 2).value;
    assert EndAt(window, i) && StartAt(window, s);
    forall j: nat | j < s ensures !StartAt(window + more, j) { assert !StartAt(window, j); }
    FindStartIs(window + more, 0, s);
    forall j: nat | s + 2 <= j < i ensures !EndAt(window + more, j) { assert !EndAt(window, j); }
    FindEndIs(window + more, s + 2, i);
    assert (window + more)[s + 2..i + 2] == window[s + 2..i + 2];
  }

  /** The next item, seen from further back. */
  ghost predicate SameNext(far: Bytes, near: Bytes, skipped: nat, cap: nat) {
    match NextItem(near, cap)
    case Item(a, t) => NextItem(far, cap) == Item(skipped + a, t)
    case Stop(w) => NextItem(far, cap) == Stop(w)
  }

  /** Dropping what a split in vain says can be dropped changes nothing but offsets. */
  lemma SkippedIsGarbage(window: Bytes, more: Bytes, cap: nat)
    requires SplitSpec(window, false).More?
    ensures var s := SplitSpec(window, false).advance;
            s <= |window| && SameNext(window + more, (window + more)[s..], s, cap)
  {
    var s := FindStart(window, 0);
    forall j: nat | j < s ensures !StartAt(window + more, j) { assert !StartAt(window, j); }
    if (window + more)[s..] == [] {
      assert window + more == [];
    } else {
      StartFreePrefix(window + more, s, cap);
    }
  }

  lemma StartFreePrefix(all: Bytes, s: nat, cap: nat)
    requires s < |all| && forall j: nat :: j < s ==> !StartAt(all, j)
    ensures SameNext(all, all[s..], s, cap)
  {
    hide FindStart, FindEnd;
    var rest := all[s..];
    var f := FindStart(rest, 0);
    forall j: nat | j < s + f ensures !StartAt(all, j) {
      if j >= s { assert !StartAt(rest, j - s); }
    }
    FindStartIs(all, 0, s + f);
    ShiftedEnd(all, s, f + 2);
    match FindEnd(rest, f + 2) {
      case Some(i) => assert rest[f + 2..i + 2] == all[s + f + 2..s + i + 2];
      case None =>
    }
  }

  lemma ShiftedEnd(all: Bytes, s: nat, i: nat)
    requires s <= |all|
    ensures FindEnd(all, s + i) == match FindEnd(all[s..], i) { case Some(e) => Some(s + e) case None => None }
  {
    var rest := all[s..];
    match FindEnd(rest, i) {
      case Some(e) =>
        forall j: nat | s + i <= j < s + e ensures !EndAt(all, j) { assert !EndAt(rest, j - s); }
        FindEndIs(all, s + i, s + e);
      case None =>
        forall j: nat | s + i <= j ensures !EndAt(all, j) { assert !EndAt(rest, j - s); }
    }
  }

  /** A window that has been split in vain and trimmed. */
  predicate Settled(w: Bytes) {
    FindStart(w, 0) == 0 && FindEnd(w, 2).None?
  }

  lemma TrimSettles(w: Bytes)
    requires SplitSpec(w, false).More?
    ensures Settled(w[FindStart(w, 0)..])
  {
    var s := FindStart(w, 0);
    var r := w[s..];
    if |r| > 1 {
      assert StartAt(w, s);
      assert StartAt(r, 0);
    }
    ShiftedEnd(w, s, 2);
  }

  /** A full buffer that holds no item says that the next item is too long. */
  lemma FullMeansTooLong(w: Bytes, more: Bytes, cap: nat)
    requires cap >= BASE_TOKEN_SIZE && |w| == cap && Settled(w)
    ensures NextItem(w + more, cap) == Stop(EndTooLong)
  {
    assert StartAt(w, 0);
    assert StartAt(w + more, 0);
    FindStartIs(w + more, 0, 0);
    match FindEnd(w + more, 2) {
      case Some(i) =>
        if i + 4 <= cap { assert EndAt(w, i); }
      case None =>
    }
  }

  function Shift(skipped: nat, r: Read): Read {
    match r
    case Item(a, t) => Item(skipped + a, t)
    case Stop(w) => Stop(w)
  }

  /** What an attempt on the buffer tells about all that is left. */
  lemma AttemptTells(input: Bytes, start: nat, end: nat, atEOF: bool, cap: nat)
    requires start <= end <= |input| && end - start <= cap && cap >= BASE_TOKEN_SIZE
    requires atEOF ==> end == |input| && Settled(input[start..end])
    ensures match SplitSpec(input[start..end], atEOF)
            case Token(a, t) => a <= end - start && NextItem(input[start..], cap) == Item(a, t)
            case TooLong => NextItem(input[start..], cap) == Stop(EndTooLong)
            case Unterminated => NextItem(input[start..], cap) == Stop(EndUnterminated)
            case More(a) =>
              a <= end - start && Settled(input[start + a..end]) && (atEOF ==> start + a == |input|)
              && NextItem(input[start..], cap) == Shift(a, NextItem(input[start + a..], cap))
  {
    hide FindStart, FindEnd, NextItem, SplitSpec, Settled;
    var w, more := input[start..end], input[end..];
    assert input[start..] == w + more;
    match SplitSpec(w, atEOF) {
      case Token(_, _) => TokenTells(w, more, atEOF, cap);
      case TooLong => FailureTells(w, more, atEOF, cap);
      case Unterminated => FailureTells(w, more, atEOF, cap);
      case More(a) =>
        MoreTells(w, more, atEOF, cap);
        assert (w + more)[a..] == input[start + a..] && w[a..] == input[start + a..end];
    }
  }

  lemma TokenTells(w: Bytes, more: Bytes, atEOF: bool, cap: nat)
    requires |w| <= cap && SplitSpec(w, atEOF).Token?
    ensures var t := SplitSpec(w, atEOF); t.advance <= |w| && NextItem(w + more, cap) == Item(t.advance, t.token)
  {
    TokenIsStable(w, more, atEOF);
  }

  lemma FailureTells(w: Bytes, more: Bytes, atEOF: bool, cap: nat)
    requires cap >= BASE_TOKEN_SIZE && |w| <= cap && (atEOF ==> more == [] && Settled(w))
    ensures SplitSpec(w, atEOF).TooLong? ==> NextItem(w + more, cap) == Stop(EndTooLong)
    ensures SplitSpec(w, atEOF).Unterminated? ==> NextItem(w + more, cap) == Stop(EndUnterminated)
  {
    assert atEOF ==> w + more == w;
  }

  lemma MoreTells(w: Bytes, more: Bytes, atEOF: bool, cap: nat)
    requires SplitSpec(w, atEOF).More? && (atEOF ==> more == [] && Settled(w))
    ensures var a := SplitSpec(w, atEOF).advance;
            a <= |w| && Settled(w[a..]) && (atEOF ==> w == [])
            && NextItem(w + more, cap) == Shift(a, NextItem((w + more)[a..], cap))
  {
    assert SplitSpec(w, false) == SplitSpec(w, atEOF);
    SkippedIsGarbage(w, more, cap);
    TrimSettles(w);
  }

  lemma EmptySettles(w: Bytes)
    requires w == []
    ensures Settled(w)
  {}

  lemma NothingLeft(input: Bytes, cap: nat)
    ensures NextItem(input[|input|..], cap) == Stop(Done)
  {}

  lemma FullBuffer(input: Bytes, start: nat, end: nat, cap: nat)
    requires start <= end <= |input| && end - start == cap && cap >= BASE_TOKEN_SIZE && Settled(input[start..end])
    ensures NextItem(input[start..], cap) == Stop(EndTooLong)
  {
    assert input[start..] == input[start..end] + input[end..];
    FullMeansTooLong(input[start..end], input[end..], cap);
  }

  // ---------------------------------------------------------------- the scanner

  /** bufio.Scanner with a fixed buffer over the bytes of a file from the current offset on. The
      buffer holds input[start..end]; a read brings any positive number of bytes that fits. */
  class Scanner {
    const input: Bytes
    const cap: nat
    var start: nat
    var end: nat
    var stopped: Option<Ending>

    predicate Valid()
      reads this
    {
      start <= end <= |input| && end - start <= cap && cap >= BASE_TOKEN_SIZE
    }

    constructor (input: Bytes, cap: nat)
      requires cap >= BASE_TOKEN_SIZE
      ensures Valid() && this.input == input && this.cap == cap && start == 0 && stopped.None?
    {
      this.input, this.cap := input, cap;
      start, end, stopped := 0, 0, None;
    }

    /** One attempt to split what is in the buffer. */
    method Attempt(atEOF: bool) returns (token: Option<Bytes>)
      requires Valid() && stopped.None?
      requires atEOF ==> end == |input| && Settled(input[start..end])
      modifies this`start, this`stopped
      ensures Valid() && old(start) <= start
      ensures token.Some? ==>
                stopped.None? && NextItem(input[old(start)..], cap) == Item(start - old(start), token.value)
      ensures stopped.Some? ==> token.None? && NextItem(input[old(start)..], cap) == Stop(stopped.value)
      ensures token.None? && stopped.None? ==>
                && Settled(input[start..end]) && (atEOF ==> start == |input|)
                && NextItem(input[old(start)..], cap) == Shift(start - old(start), NextItem(input[start..], cap))
    {
      AttemptTells(input, start, end, atEOF, cap);
      var r := ScanPolicyEntries(input[start..end], atEOF);
      match r {
        case Token(advance, t) =>
          start := start + advance;
          return Some(t);
        case TooLong =>
          stopped := Some(EndTooLong);
          return None;
        case Unterminated =>
          stopped := Some(EndUnterminated);
          return None;
        case More(advance) =>
          start := start + advance;
          return None;
      }
    }

    /** However the bytes arrive, the answer is that of the whole rest of the input. */
    method Scan() returns (token: Option<Bytes>)
      requires Valid() && stopped.None?
      modifies this`start, this`end, this`stopped
      ensures Valid() && old(start) <= start
      ensures match NextItem(input[old(start)..], cap)
              case Item(a, t) => token == Some(t) && start == old(start) + a && stopped.None?
              case Stop(w) => token == None && stopped == Some(w)
    {
      hide NextItem, Settled, FindStart, FindEnd;
      ghost var s0 := start;
      ghost var answer := NextItem(input[start..], cap);
      var atEOF := false;
      while true
        invariant Valid() && stopped.None? && s0 <= start
        invariant answer == Shift(start - s0, NextItem(input[start..], cap))
        invariant atEOF ==> end == |input| && Settled(input[start..end])
        decreases |input| - end, !atEOF
      {
        if end > start || atEOF {
          token := Attempt(atEOF);
          if token.Some? || stopped.Some? {
            return;
          }
        }
        if atEOF {
          NothingLeft(input, cap);
          stopped := Some(Done);
          return None;
        }
        // a full buffer cannot grow
        if end - start == cap {
          FullBuffer(input, start, end, cap);
          stopped := Some(EndTooLong);
          return None;
        }
        if end == |input| {
          if start == end { EmptySettles(input[start..end]); }
          atEOF := true;
        } else {
          var n :| 1 <= n <= cap - (end - start) && n <= |input| - end;
          end := end + n;
        }
      }
    }
  }
}
