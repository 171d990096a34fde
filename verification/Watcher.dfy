/** The watch loop: changes below the configured directories are recorded by root, and after a grace
    period without changes the GPT.INI version of every recorded root is bumped. */
module Watcher {
  import opened Basics
  import opened Entries

  // ---------------------------------------------------------------- roots

  /** Path cleaning and the test for our own file are taken as given. */
  datatype Env = Env(clean: string -> string, isOwnFile: string -> bool, dirs: seq<string>)

  /** r is a cleaned root that is a string prefix of the cleaned path, and none is longer. */
  ghost predicate IsRoot(r: string, path: string, dirs: seq<string>, clean: string -> string) {
    && r != "" && r <= clean(path)
    && (exists d :: d in dirs && clean(d) == r)
    && forall d :: d in dirs && clean(d) <= clean(path) ==> |clean(d)| <= |r|
  }

  /** The root of a path, by a running maximum over the first n directories. */
  function RootUpTo(path: string, dirs: seq<string>, n: nat, clean: string -> string): string
    requires n <= |dirs|
  {
    if n == 0 then ""
    else
      var best, root := RootUpTo(path, dirs, n - 1, clean), clean(dirs[n - 1]);
      if root <= clean(path) && |root| > |best| then root else best
  }

  function Root(path: string, dirs: seq<string>, clean: string -> string): Option<string> {
    var r := RootUpTo(path, dirs, |dirs|, clean);
    if r == "" then None else Some(r)
  }

  lemma {:induction false} RootUpToIs(path: string, dirs: seq<string>, n: nat, clean: string -> string)
    requires n <= |dirs|
    ensures var r := RootUpTo(path, dirs, n, clean);
            && r <= clean(path)
            && (r != "" ==> exists d :: d in dirs && clean(d) == r)
            && forall i :: 0 <= i < n && clean(dirs[i]) <= clean(path) ==> |clean(dirs[i])| <= |r|
    decreases n
  {
    if n > 0 {
      RootUpToIs(path, dirs, n - 1, clean);
      assert dirs[n - 1] in dirs;
    }
  }

  /** The running maximum finds the longest match, and there is no root exactly when nothing but the
      empty string matches. */
  lemma RootIsLongest(path: string, dirs: seq<string>, clean: string -> string)
    ensures var r := Root(path, dirs, clean);
            && (r.Some? ==> IsRoot(r.value, path, dirs, clean))
            && (r.None? <==> forall d :: d in dirs && clean(d) <= clean(path) ==> clean(d) == "")
  {
    RootUpToIs(path, dirs, |dirs|, clean);
    var r := RootUpTo(path, dirs, |dirs|, clean);
    forall d | d in dirs && clean(d) <= clean(path) ensures |clean(d)| <= |r| {
      var i :| 0 <= i < |dirs| && dirs[i] == d;
    }
  }

  /** The longest match is unique, so the order of the configured directories does not matter. */
  lemma RootIgnoresOrder(path: string, dirs: seq<string>, dirs': seq<string>, clean: string -> string)
    requires forall d :: d in dirs <==> d in dirs'
    ensures Root(path, dirs, clean) == Root(path, dirs', clean)
  {
    RootIsLongest(path, dirs, clean);
    RootIsLongest(path, dirs', clean);
    var r, r' := Root(path, dirs, clean), Root(path, dirs', clean);
    if r.Some? && r'.Some? {
      assert r.value == clean(path)[..|r.value|] && r'.value == clean(path)[..|r'.value|];
    }
  }

  /** r is the cleaned path p, or a directory above it. */
  predicate Above(r: string, p: string) {
    r != "" && r <= p && (|r| == |p| || r[|r| - 1] == '/' || p[|r|] == '/')
  }

  /** The root a change is meant to be recorded under: the most nested configured directory above it. */
  ghost predicate IsInnermost(r: string, path: string, dirs: seq<string>, clean: string -> string) {
    && Above(r, clean(path)) && (exists d :: d in dirs && clean(d) == r)
    && forall d :: d in dirs && Above(clean(d), clean(path)) ==> |clean(d)| <= |r|
  }

  /** A configured directory that is not above the path but starts its name. */
  predicate Beside(d: string, path: string, clean: string -> string) {
    clean(d) <= clean(path) && !Above(clean(d), clean(path))
  }

  ghost predicate Outdone(d: string, path: string, dirs: seq<string>, clean: string -> string) {
    exists a :: a in dirs && Above(clean(a), clean(path)) && |clean(d)| < |clean(a)|
  }

  /** Matching strings and not path elements is right exactly when every configured directory beside
      the path that starts its name is shorter than some configured directory above the path. */
  lemma RootIsInnermostIff(path: string, dirs: seq<string>, clean: string -> string)
    requires exists d :: d in dirs && Above(clean(d), clean(path))
    ensures Root(path, dirs, clean).Some?
    ensures IsInnermost(Root(path, dirs, clean).value, path, dirs, clean)
            <==> forall d :: d in dirs && Beside(d, path, clean) ==> Outdone(d, path, dirs, clean)
  {
    RootIsLongest(path, dirs, clean);
    var above :| above in dirs && Above(clean(above), clean(path));
    var r, p := Root(path, dirs, clean).value, clean(path);
    var d :| d in dirs && clean(d) == r;
    if Above(r, p) {
      // two prefixes of one length are the same
      forall b | b in dirs && Beside(b, path, clean) ensures |clean(b)| < |clean(d)| {
        assert clean(b) == p[..|clean(b)|] && r == p[..|r|];
      }
      assert forall b :: b in dirs && Beside(b, path, clean) ==> Outdone(b, path, dirs, clean);
    } else {
      assert Beside(d, path, clean);
      assert !Outdone(d, path, dirs, clean);
    }
  }

  /** With one configured directory inside another, a file beside the inner one, whose name it starts,
      is recorded under the inner one. */
  lemma RootOfNeighbour(clean: string -> string)
    requires clean("/srv") == "/srv" && clean("/srv/sysvol") == "/srv/sysvol"
    requires clean("/srv/sysvol-old/x") == "/srv/sysvol-old/x"
    ensures var path, dirs := "/srv/sysvol-old/x", ["/srv", "/srv/sysvol"];
            && Root(path, dirs, clean) == Some("/srv/sysvol")
            && Above("/srv", path) && !Above("/srv/sysvol", path) && !IsInnermost("/srv/sysvol", path, dirs, clean)
  {
    var path, dirs := "/srv/sysvol-old/x", ["/srv", "/srv/sysvol"];
    assert "/srv" == path[..4] && "/srv/sysvol" == path[..11] && path[11] == '-';
    assert RootUpTo(path, dirs, 0, clean) == "";
    assert RootUpTo(path, dirs, 1, clean) == "/srv";
  }

  method GetRootDir(path: string, dirs: seq<string>, clean: string -> string) returns (r: Option<string>)
    ensures r == Root(path, dirs, clean)
    ensures r.Some? ==> IsRoot(r.value, path, dirs, clean)
  {
    var p := clean(path);
    var rootDir := "";
    var currentRootDirLength := 0;
    for n := 0 to |dirs|
      invariant rootDir == RootUpTo(path, dirs, n, clean) && currentRootDirLength == |rootDir|
    {
      var root := clean(dirs[n]);
      if root <= p {
        if |root| <= currentRootDirLength {
          continue;
        }
        rootDir := root;
        currentRootDirLength := |root|;
      }
    }
    RootIsLongest(path, dirs, clean);
    if rootDir == "" {
      return None;
    }
    return Some(rootDir);
  }

  // ---------------------------------------------------------------- the loop, step by step

  datatype FileOp = Create | Write | Remove | Rename | Chmod

  /** What the select of the loop may find: an event (`statFails` tells of a created file that is gone
      already), an error, the tick of the timer, the end. Expire is the timer running out. */
  datatype Input = Event(name: string, ops: set<FileOp>, statFails: bool) | WatchError | Expire | Tick | Cancel

  /** Armed, run out with its tick unreceived, or neither. */
  datatype Timer = Idle | Armed | Fired

  datatype Log = Recorded(root: string) | Bumped(root: string)

  datatype State = State(modified: seq<string>, timer: Timer, log: seq<Log>, stopped: bool)

  const START := State([], Idle, [], false)

  /** The root an input makes the loop record. */
  function RecordOf(i: Input, env: Env): Option<string> {
    if !i.Event? || i.name == "" || env.isOwnFile(i.name) then None
    else if Create in i.ops && i.statFails then None
    else if Write !in i.ops && Create !in i.ops && Remove !in i.ops then None
    else Root(i.name, env.dirs, env.clean)
  }

  function Bumps(roots: seq<string>): seq<Log> {
    if roots == [] then [] else Bumps(roots[..|roots| - 1]) + [Bumped(roots[|roots| - 1])]
  }

  /** One turn of the loop. The roots recorded are never forgotten, not even by a flush. A timer that
      has run out still counts as running until its tick is received. */
  function Next(s: State, i: Input, env: Env): State {
    if s.stopped then s
    else
      match i
      case Event(_, _, _) =>
        (match RecordOf(i, env)
         case None => s
         case Some(r) =>
           s.(modified := if r in s.modified then s.modified else s.modified + [r], timer := Armed,
              log := s.log + [Recorded(r)]))
      case WatchError => s
      case Expire => if s.timer.Armed? then s.(timer := Fired) else s
      case Tick => if s.timer.Fired? then s.(timer := Idle, log := s.log + Bumps(s.modified)) else s
      case Cancel =>
        if s.timer.Idle? then s.(stopped := true)
        else s.(timer := Idle, stopped := true, log := s.log + Bumps(s.modified))
  }

  function RunOf(inputs: seq<Input>, env: Env): State {
    if inputs == [] then START else Next(RunOf(inputs[..|inputs| - 1], env), inputs[|inputs| - 1], env)
  }

  // ---------------------------------------------------------------- nothing is lost

  /** Every recorded change has a bump of its root behind it. */
  ghost predicate Settled(log: seq<Log>) {
    forall p :: 0 <= p < |log| && log[p].Recorded? ==> exists q :: p < q < |log| && log[q] == Bumped(log[p].root)
  }

  ghost predicate IsRecorded(log: seq<Log>, r: string) {
    exists p :: 0 <= p < |log| && log[p] == Recorded(r)
  }

  ghost predicate Inv(s: State) {
    && Distinct(s.modified)
    && (forall r :: r in s.modified <==> IsRecorded(s.log, r))
    && (s.timer.Idle? ==> Settled(s.log))
    && (s.stopped ==> s.timer.Idle?)
  }

  lemma {:induction false} BumpsAt(roots: seq<string>)
    ensures |Bumps(roots)| == |roots|
    ensures forall i :: 0 <= i < |roots| ==> Bumps(roots)[i] == Bumped(roots[i])
    decreases |roots|
  {
    if roots != [] { BumpsAt(roots[..|roots| - 1]); }
  }

  lemma FlushSettles(log: seq<Log>, roots: seq<string>)
    requires forall r :: IsRecorded(log, r) ==> r in roots
    ensures Settled(log + Bumps(roots))
    ensures forall r :: IsRecorded(log + Bumps(roots), r) <==> IsRecorded(log, r)
  {
    BumpsAt(roots);
    var all := log + Bumps(roots);
    forall p | 0 <= p < |all| && all[p].Recorded? ensures exists q :: p < q < |all| && all[q] == Bumped(all[p].root) {
      assert p < |log| && all[p] == log[p];
      assert IsRecorded(log, log[p].root);
      var i :| 0 <= i < |roots| && roots[i] == log[p].root;
      assert all[|log| + i] == Bumped(roots[i]);
    }
    forall r ensures IsRecorded(all, r) <==> IsRecorded(log, r) {
      if IsRecorded(log, r) {
        var p :| 0 <= p < |log| && log[p] == Recorded(r);
        assert all[p] == Recorded(r);
      }
    }
  }

  lemma RecordAdds(log: seq<Log>, r: string)
    ensures forall x :: IsRecorded(log + [Recorded(r)], x) <==> IsRecorded(log, x) || x == r
  {
    var all := log + [Recorded(r)];
    assert all[|log|] == Recorded(r);
    forall x ensures IsRecorded(all, x) <==> IsRecorded(log, x) || x == r {
      if IsRecorded(log, x) {
        var p :| 0 <= p < |log| && log[p] == Recorded(x);
        assert all[p] == Recorded(x);
      }
    }
  }

  lemma InvStep(s: State, i: Input, env: Env)
    requires Inv(s)
    ensures Inv(Next(s, i, env))
  {
    hide RecordOf, Settled, IsRecorded;
    FlushSettles(s.log, s.modified);
    match RecordOf(i, env) {
      case Some(r) => RecordAdds(s.log, r);
      case None =>
    }
  }

  lemma {:induction false} InvAlways(inputs: seq<Input>, env: Env)
    ensures Inv(RunOf(inputs, env))
    decreases |inputs|
  {
    if inputs != [] {
      InvAlways(inputs[..|inputs| - 1], env);
      InvStep(RunOf(inputs[..|inputs| - 1], env), inputs[|inputs| - 1], env);
    }
  }

  /** Main result: in every run that ends by cancellation, and whenever the timer is idle, each
      recorded change is followed by an attempt to bump its root. */
  lemma NoLostChange(inputs: seq<Input>, env: Env)
    ensures RunOf(inputs, env).stopped || RunOf(inputs, env).timer.Idle? ==> Settled(RunOf(inputs, env).log)
  {
    InvAlways(inputs, env);
  }

  /** A turn that flushes attempts each root recorded so far exactly once, and nothing else; a turn
      that does not flush attempts none. */
  lemma FlushIsExact(inputs: seq<Input>, i: Input, env: Env)
    ensures var s, t := RunOf(inputs, env), RunOf(inputs + [i], env);
            && (forall r :: r in s.modified <==> IsRecorded(s.log, r)) && Distinct(s.modified)
            && (if !s.stopped && ((i.Tick? && s.timer.Fired?) || (i.Cancel? && !s.timer.Idle?))
                then t.log == s.log + Bumps(s.modified)
                else t.log == s.log || exists r :: t.log == s.log + [Recorded(r)])
  {
    hide RecordOf, Settled;
    InvAlways(inputs, env);
    assert (inputs + [i])[..|inputs|] == inputs;
    OnlyEventsRecord(i, env);
  }

  // ---------------------------------------------------------------- the grace period

  lemma {:induction false} GoesOn(inputs: seq<Input>, env: Env)
    requires Cancel !in inputs
    ensures !RunOf(inputs, env).stopped
    decreases |inputs|
  {
    hide RecordOf;
    if inputs != [] {
      assert inputs[|inputs| - 1] in inputs;
      GoesOn(inputs[..|inputs| - 1], env);
    }
  }

  lemma GraceStep(s: State, i: Input, env: Env)
    requires s.timer == Armed && !s.stopped && i != Cancel && i != Expire
    ensures Next(s, i, env).timer == Armed && !Next(s, i, env).stopped
    ensures Next(s, i, env).log == s.log || exists r :: Next(s, i, env).log == s.log + [Recorded(r)]
  {
    hide RecordOf;
  }

  /** Every change starts the grace period anew: until the timer runs out behind the last one, nothing
      is bumped, whatever ticks were due. */
  lemma {:induction false} GraceIsGiven(a: seq<Input>, e: Input, b: seq<Input>, env: Env)
    requires RecordOf(e, env).Some? && Cancel !in a + b && Expire !in b
    ensures var s, t := RunOf(a, env), RunOf(a + [e] + b, env);
            t.timer == Armed && s.log < t.log && forall q :: |s.log| <= q < |t.log| ==> t.log[q].Recorded?
    decreases |b|
  {
    var all := a + [e] + b;
    if b == [] {
      GoesOn(a, env);
      assert all == a + [e] && all[..|a|] == a;
    } else {
      hide RecordOf, Next;
      var front, last := b[..|b| - 1], b[|b| - 1];
      assert all[..|all| - 1] == a + [e] + front && last in b && last in a + b && b == front + [last];
      assert Cancel !in a + front && Expire !in front by {
        assert forall i :: i in a + front ==> i in a + b;
      }
      GraceIsGiven(a, e, front, env);
      assert forall i :: i in all ==> i in a + b || i == e;
      assert e != Cancel by { OnlyEventsRecord(e, env); }
      GoesOn(a + [e] + front, env);
      GraceStep(RunOf(a + [e] + front, env), last, env);
    }
  }

  /** Once it has, its tick flushes. */
  lemma GraceEnds(a: seq<Input>, e: Input, b: seq<Input>, env: Env)
    requires RecordOf(e, env).Some? && Cancel !in a + b && Expire !in b
    ensures var s, t := RunOf(a + [e] + b, env), RunOf(a + [e] + b + [Expire] + [Tick], env);
            t.log == s.log + Bumps(s.modified) && t.timer.Idle? && Settled(t.log)
  {
    hide RecordOf, Settled;
    var all := a + [e] + b;
    GraceIsGiven(a, e, b, env);
    assert forall i :: i in all ==> i in a + b || i == e;
    assert e != Cancel by { OnlyEventsRecord(e, env); }
    GoesOn(all, env);
    assert (all + [Expire])[..|all|] == all && (all + [Expire] + [Tick])[..|all| + 1] == all + [Expire];
    NoLostChange(all + [Expire] + [Tick], env);
  }

  // ---------------------------------------------------------------- what is recorded

  function RecordsIn(log: seq<Log>): seq<string> {
    if log == [] then []
    else RecordsIn(log[..|log| - 1]) + if log[|log| - 1].Recorded? then [log[|log| - 1].root] else []
  }

  /** The roots of the relevant events up to the first cancellation, in order. */
  function ChangesIn(inputs: seq<Input>, env: Env): seq<string> {
    if inputs == [] then []
    else
      var front := inputs[..|inputs| - 1];
      ChangesIn(front, env)
      + match RecordOf(inputs[|inputs| - 1], env)
        case Some(r) => if Cancel in front then [] else [r]
        case None => []
  }

  lemma {:induction false} RecordsConcat(a: seq<Log>, b: seq<Log>)
    ensures RecordsIn(a + b) == RecordsIn(a) + RecordsIn(b)
    decreases |b|
  {
    if b == [] {
      assert a + b == a;
    } else {
      RecordsConcat(a, b[..|b| - 1]);
      assert (a + b)[..|a + b| - 1] == a + b[..|b| - 1];
    }
  }

  lemma {:induction false} NoRecordsInBumps(roots: seq<string>)
    ensures RecordsIn(Bumps(roots)) == []
    decreases |roots|
  {
    if roots != [] {
      NoRecordsInBumps(roots[..|roots| - 1]);
      var front := Bumps(roots[..|roots| - 1]);
      assert (front + [Bumped(roots[|roots| - 1])])[..|front|] == front;
    }
  }

  /** The log records exactly the relevant events, by root, in order, until the loop is cancelled. */
  lemma {:induction false} RecordedExactly(inputs: seq<Input>, env: Env)
    ensures RecordsIn(RunOf(inputs, env).log) == ChangesIn(inputs, env)
    ensures RunOf(inputs, env).stopped <==> Cancel in inputs
    decreases |inputs|
  {
    hide RecordOf, Next, RecordsIn;
    if inputs == [] { NoRecordsAtStart(); }
    if inputs != [] {
      var front, i := inputs[..|inputs| - 1], inputs[|inputs| - 1];
      var s := RunOf(front, env);
      assert inputs == front + [i];
      RecordedExactly(front, env);
      RecordsStep(s, i, env);
      assert ChangesIn(front, env) + [] == ChangesIn(front, env);
    }
  }

  lemma NoRecordsAtStart()
    ensures RecordsIn(START.log) == []
  {}

  lemma RecordsStep(s: State, i: Input, env: Env)
    ensures RecordsIn(Next(s, i, env).log) ==
            RecordsIn(s.log) + match RecordOf(i, env) { case Some(r) => if s.stopped then [] else [r] case None => [] }
    ensures Next(s, i, env).stopped <==> s.stopped || i == Cancel
  {
    hide RecordOf, RecordsIn, Bumps;
    OnlyEventsRecord(i, env);
    RecordsConcat(s.log, Bumps(s.modified));
    NoRecordsInBumps(s.modified);
    assert RecordsIn(s.log) + [] == RecordsIn(s.log);
    if RecordOf(i, env).Some? { OneRecordMore(s.log, RecordOf(i, env).value); }
  }

  lemma OneRecordMore(log: seq<Log>, r: string)
    ensures RecordsIn(log + [Recorded(r)]) == RecordsIn(log) + [r]
  {
    assert (log + [Recorded(r)])[..|log|] == log;
  }

  lemma OnlyEventsRecord(i: Input, env: Env)
    ensures !i.Event? ==> RecordOf(i, env).None?
  {}

  lemma {:induction false} ChangesPrefix(a: seq<Input>, b: seq<Input>, env: Env)
    ensures ChangesIn(a, env) <= ChangesIn(a + b, env)
    decreases |b|
  {
    hide RecordOf;
    if b == [] {
      assert a + b == a;
    } else {
      ChangesPrefix(a, b[..|b| - 1], env);
      assert (a + b)[..|a + b| - 1] == a + b[..|b| - 1];
    }
  }

  /** The changes of b, made behind a. */
  function LaterChanges(a: seq<Input>, b: seq<Input>, env: Env): seq<string> {
    ChangesPrefix(a, b, env);
    ChangesIn(a + b, env)[|ChangesIn(a, env)|..]
  }

  lemma {:induction false} RecordedAre(log: seq<Log>, r: string)
    ensures IsRecorded(log, r) <==> r in RecordsIn(log)
    decreases |log|
  {
    if log != [] {
      var front := log[..|log| - 1];
      RecordedAre(front, r);
      if p :| 0 <= p < |front| && front[p] == Recorded(r) { assert log[p] == Recorded(r); }
      if p :| 0 <= p < |log| && log[p] == Recorded(r) { assert p < |front| ==> front[p] == Recorded(r); }
      if log[|log| - 1] == Recorded(r) { assert IsRecorded(log, r); }
    }
  }

  /** Whether a flush behind a and b bumps only roots that have changed since a: exactly if all roots
      that changed in a have changed again. */
  lemma FlushIsFreshIff(a: seq<Input>, b: seq<Input>, env: Env)
    ensures (forall r :: r in RunOf(a + b, env).modified ==> r in LaterChanges(a, b, env))
            <==> forall r :: r in ChangesIn(a, env) ==> r in LaterChanges(a, b, env)
  {
    ChangesPrefix(a, b, env);
    InvAlways(a + b, env);
    RecordedExactly(a + b, env);
    var s := RunOf(a + b, env);
    assert ChangesIn(a + b, env) == ChangesIn(a, env) + LaterChanges(a, b, env);
    forall r ensures r in s.modified <==> r in ChangesIn(a, env) || r in LaterChanges(a, b, env) {
      RecordedAre(s.log, r);
    }
  }

  // ---------------------------------------------------------------- the versions

  /** A GPT.INI: one that cannot be loaded, one whose version is no number, or a version. */
  datatype Gpt = Unloadable | Malformed | Version(v: int)

  function Bump(g: Gpt): Gpt {
    match g
    case Unloadable => Version(1)
    case Malformed => Malformed
    case Version(v) => Version(v + 1)
  }

  function GptOf(files: map<string, Gpt>, r: string): Gpt { if r in files then files[r] else Unloadable }

  /** The loop over the recorded roots: each file is bumped once, the others are left alone, and a
      file that cannot be bumped does not keep the next ones from it. */
  method UpdateVersions(modified: seq<string>, files: map<string, Gpt>, log: seq<Log>)
    returns (files': map<string, Gpt>, log': seq<Log>)
    requires Distinct(modified)
    ensures log' == log + Bumps(modified)
    ensures forall r :: GptOf(files', r) == if r in modified then Bump(GptOf(files, r)) else GptOf(files, r)
  {
    files', log' := files, log;
    for n := 0 to |modified|
      invariant log' == log + Bumps(modified[..n])
      invariant forall r :: GptOf(files', r) == if r in modified[..n] then Bump(GptOf(files, r)) else GptOf(files, r)
    {
      var dir := modified[n];
      assert dir !in modified[..n];
      assert modified[..n + 1] == modified[..n] + [dir] && modified[..n + 1][..n] == modified[..n];
      files' := files'[dir := Bump(GptOf(files', dir))];
      log' := log' + [Bumped(dir)];
    }
    assert modified[..|modified|] == modified;
  }

  /** How often a root's file was to be bumped. */
  function Attempts(log: seq<Log>, r: string): nat {
    if log == [] then 0 else Attempts(log[..|log| - 1], r) + if log[|log| - 1] == Bumped(r) then 1 else 0
  }

  function Times(g: Gpt, n: nat): Gpt { if n == 0 then g else Bump(Times(g, n - 1)) }

  lemma AttemptsOneMore(log: seq<Log>, l: Log, r: string)
    ensures Attempts(log + [l], r) == Attempts(log, r) + if l == Bumped(r) then 1 else 0
  {
    assert (log + [l])[..|log|] == log;
  }

  lemma {:induction false} AttemptsOfFlush(log: seq<Log>, roots: seq<string>, r: string)
    requires Distinct(roots)
    ensures Attempts(log + Bumps(roots), r) == Attempts(log, r) + if r in roots then 1 else 0
    decreases |roots|
  {
    if roots == [] {
      assert log + Bumps(roots) == log;
    } else {
      var front, last := roots[..|roots| - 1], roots[|roots| - 1];
      AttemptsOfFlush(log, front, r);
      assert log + Bumps(roots) == log + Bumps(front) + [Bumped(last)];
      AttemptsOneMore(log + Bumps(front), Bumped(last), r);
      assert roots == front + [last] && last !in front;
    }
  }

  /** Every file has been bumped as often as the log says. */
  ghost predicate FilesTrack(files: map<string, Gpt>, files0: map<string, Gpt>, log: seq<Log>) {
    forall r :: GptOf(files, r) == Times(GptOf(files0, r), Attempts(log, r))
  }

  lemma FlushTracks(files: map<string, Gpt>, files': map<string, Gpt>, files0: map<string, Gpt>, log: seq<Log>,
                    roots: seq<string>)
    requires FilesTrack(files, files0, log) && Distinct(roots)
    requires forall r :: GptOf(files', r) == if r in roots then Bump(GptOf(files, r)) else GptOf(files, r)
    ensures FilesTrack(files', files0, log + Bumps(roots))
  {
    forall r ensures GptOf(files', r) == Times(GptOf(files0, r), Attempts(log + Bumps(roots), r)) {
      AttemptsOfFlush(log, roots, r);
    }
  }

  lemma RecordTracks(files: map<string, Gpt>, files0: map<string, Gpt>, log: seq<Log>, r: string)
    requires FilesTrack(files, files0, log)
    ensures FilesTrack(files, files0, log + [Recorded(r)])
  {
    forall x ensures Attempts(log + [Recorded(r)], x) == Attempts(log, x) {
      AttemptsOneMore(log, Recorded(r), x);
    }
  }

  // ---------------------------------------------------------------- the loop itself

  /** The select loop over what the scheduler brings it, until it is cancelled. */
  method Watch(inputs: seq<Input>, env: Env, files0: map<string, Gpt>)
    returns (log: seq<Log>, cancelled: bool, files: map<string, Gpt>)
    ensures log == RunOf(inputs, env).log && cancelled == (Cancel in inputs)
    ensures cancelled ==> Settled(log)
    ensures FilesTrack(files, files0, log)
    ensures forall r :: r in files0 && files0[r].Version? ==>
                          r in files && files[r] == Version(files0[r].v + Attempts(log, r))
  {
    hide Inv, Settled, Root, FilesTrack, Times, Attempts;
    var modifiedRootDirs: seq<string> := [];
    var timer := Idle;
    log, cancelled, files := [], false, files0;
    assert FilesTrack(files, files0, log) by { NothingTracked(files0); }
    for n := 0 to |inputs|
      invariant RunOf(inputs[..n], env) == State(modifiedRootDirs, timer, log, false)
      invariant FilesTrack(files, files0, log)
    {
      assert inputs[..n + 1][..n] == inputs[..n];
      ModifiedDistinct(inputs[..n], env);
      match inputs[n] {
        case Event(name, ops, statFails) =>
          if name == "" || env.isOwnFile(name) {
            continue;
          }
          if Create in ops && statFails {
            continue;
          }
          if Write !in ops && Create !in ops && Remove !in ops {
            continue;
          }
          var rootDir := GetRootDir(name, env.dirs, env.clean);
          if rootDir.None? {
            continue;
          }
          var alreadyAdded := Contains(modifiedRootDirs, rootDir.value);
          if !alreadyAdded {
            modifiedRootDirs := modifiedRootDirs + [rootDir.value];
          }
          // stopped and drained, then started again
          timer := Armed;
          RecordTracks(files, files0, log, rootDir.value);
          log := log + [Recorded(rootDir.value)];
        case WatchError =>
          continue;
        case Expire =>
          if timer.Armed? {
            timer := Fired;
          }
        case Tick =>
          if timer.Fired? {
            timer := Idle;
            files, log := Flush(modifiedRootDirs, files, log, files0);
          }
        case Cancel =>
          var wasRunning := !timer.Idle?;
          timer := Idle;
          if wasRunning {
            files, log := Flush(modifiedRootDirs, files, log, files0);
          }
          StoppedStays(inputs, n + 1, env);
          NoLostChange(inputs, env);
          RecordedExactly(inputs, env);
          VersionsCount(files, files0, log);
          return log, true, files;
      }
    }
    assert inputs[..|inputs|] == inputs;
    RecordedExactly(inputs, env);
    VersionsCount(files, files0, log);
  }

  /** A version has gone up by one for each attempt. */
  lemma VersionsCount(files: map<string, Gpt>, files0: map<string, Gpt>, log: seq<Log>)
    requires FilesTrack(files, files0, log)
    ensures forall r :: r in files0 && files0[r].Version? ==>
                          r in files && files[r] == Version(files0[r].v + Attempts(log, r))
  {
    hide Attempts;
    forall r | r in files0 && files0[r].Version?
      ensures r in files && files[r] == Version(files0[r].v + Attempts(log, r))
    {
      TimesCounts(files0[r].v, Attempts(log, r));
      assert GptOf(files, r) == Times(GptOf(files0, r), Attempts(log, r));
    }
  }

  lemma NothingTracked(files0: map<string, Gpt>)
    ensures FilesTrack(files0, files0, [])
  {}

  /** UpdateVersions, seen from the start of the loop. */
  method Flush(modified: seq<string>, files: map<string, Gpt>, log: seq<Log>, ghost files0: map<string, Gpt>)
    returns (files': map<string, Gpt>, log': seq<Log>)
    requires Distinct(modified) && FilesTrack(files, files0, log)
    ensures log' == log + Bumps(modified) && FilesTrack(files', files0, log')
  {
    files', log' := UpdateVersions(modified, files, log);
    FlushTracks(files, files', files0, log, modified);
  }

  method Contains(roots: seq<string>, r: string) returns (b: bool)
    ensures b == (r in roots)
  {
    for n := 0 to |roots|
      invariant r !in roots[..n]
    {
      if r == roots[n] {
        return true;
      }
    }
    return false;
  }

  lemma ModifiedDistinct(inputs: seq<Input>, env: Env)
    ensures Distinct(RunOf(inputs, env).modified)
  {
    InvAlways(inputs, env);
  }

  lemma {:induction false} StoppedStays(inputs: seq<Input>, n: nat, env: Env)
    requires n <= |inputs| && RunOf(inputs[..n], env).stopped
    ensures RunOf(inputs, env) == RunOf(inputs[..n], env)
    decreases |inputs|
  {
    hide RecordOf;
    if n == |inputs| {
      assert inputs[..n] == inputs;
    } else {
      assert inputs[..|inputs| - 1][..n] == inputs[..n];
      StoppedStays(inputs[..|inputs| - 1], n, env);
    }
  }

  // ---------------------------------------------------------------- in numbers and names

  /** A version counts its bumps; a file that cannot be loaded starts at one; one that is malformed is
      left as it is. */
  lemma {:induction false} TimesCounts(v: int, n: nat)
    ensures Times(Version(v), n) == Version(v + n)
    ensures Times(Unloadable, n) == if n == 0 then Unloadable else Version(n)
    ensures Times(Malformed, n) == Malformed
  {
    if n > 0 { TimesCounts(v, n - 1); }
  }

  /** A log counts the attempts on a root, wherever they are. */
  lemma {:induction false} AttemptsCount(log: seq<Log>, r: string)
    ensures Attempts(log, r) == |set q | 0 <= q < |log| && log[q] == Bumped(r)|
    decreases |log|
  {
    if log != [] {
      var n := |log| - 1;
      AttemptsCount(log[..n], r);
      var front, all := set q | 0 <= q < n && log[..n][q] == Bumped(r), set q | 0 <= q < |log| && log[q] == Bumped(r);
      assert all == front + if log[n] == Bumped(r) then {n} else {};
    }
  }

  /** What the loop takes note of: events that write, create or remove, whatever else they do, with a
      name that is not that of our own file; not those that only rename or change modes, and not the
      creation of what is gone already. */
  lemma WhatCounts(name: string, ops: set<FileOp>, statFails: bool, env: Env)
    ensures name == "" || env.isOwnFile(name) ==> RecordOf(Event(name, ops, statFails), env) == None
    ensures ops <= {Rename, Chmod} ==> RecordOf(Event(name, ops, statFails), env) == None
    ensures Create in ops && statFails ==> RecordOf(Event(name, ops, statFails), env) == None
    ensures name != "" && !env.isOwnFile(name) && (Write in ops || Remove in ops || Create in ops) && !(Create in ops && statFails)
            ==> RecordOf(Event(name, ops, statFails), env) == Root(name, env.dirs, env.clean)
    ensures RecordOf(WatchError, env) == RecordOf(Expire, env) == RecordOf(Tick, env) == RecordOf(Cancel, env) == None
  {
    if ops <= {Rename, Chmod} { assert Write !in ops && Create !in ops && Remove !in ops; }
  }
}
