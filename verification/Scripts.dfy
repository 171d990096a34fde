/** Setting up and running the scripts of one object, a user or the machine: ApplyPolicy fills a
    directory step by step and may stop anywhere, RunScripts runs what is ready and marks a session.
    Every step is one operation on the directory. */
module Scripts {
  import opened Basics
  import opened Entries
  import opened GoStrings

  // ---------------------------------------------------------------- what a policy lists

  /** A script to run at a point of the life cycle (logon, logoff, startup, shutdown). */
  datatype Item = Item(lifecycle: string, script: string)

  /** The lines of a value that name a script. */
  function Named(lines: seq<string>, lifecycle: string): seq<Item> {
    if lines == [] then []
    else
      var s := TrimSpace(lines[|lines| - 1]);
      Named(lines[..|lines| - 1], lifecycle) + if s == "" then [] else [Item(lifecycle, s)]
  }

  function Listed(entries: seq<Entry>): seq<Item> {
    if entries == [] then []
    else
      var e := entries[|entries| - 1];
      Listed(entries[..|entries| - 1]) + Named(Split(e.value, '\n'), Base(e.key))
  }

  /** The scripts of one life cycle point, in order, as paths below the object's directory. */
  function Paths(items: seq<Item>, l: string): seq<string> {
    if items == [] then []
    else
      var i := items[|items| - 1];
      Paths(items[..|items| - 1], l) + if i.lifecycle == l then ["scripts/" + i.script] else []
  }

  // ---------------------------------------------------------------- the directory and its users

  datatype Asset = File(executable: bool) | Folder

  predicate IsFile(scripts: map<string, Asset>, name: string) { name in scripts && scripts[name].File? }

  /** `scripts` are the assets dumped; `orders` are the lines of order files. */
  datatype Directory = Directory(
    present: bool,
    ready: bool,
    running: bool,
    scripts: map<string, Asset>,
    orders: map<string, seq<string>>)

  const NO_DIRECTORY := Directory(false, false, false, map[], map[])

  /** How far ApplyPolicy is, behind the removal of the old directory. */
  datatype Apply =
    | NotApplying
    | Making(items: seq<Item>)
    | Dumping(items: seq<Item>)
    | Checking(items: seq<Item>, n: nat, content: map<string, seq<string>>)
    | Ordering(items: seq<Item>, content: map<string, seq<string>>, todo: set<string>)
    | Writing(items: seq<Item>, content: map<string, seq<string>>, todo: set<string>, l: string, n: nat)

  /** A RunScripts between its look at the ready flag and its end. */
  datatype Stage = Checked | Started

  datatype Run = Run(lifecycle: string, stage: Stage)

  /** `applied`: what the policy behind the ready flag listed. */
  datatype State = State(isComputer: bool, dir: Directory, apply: Apply, runs: map<nat, Run>, applied: seq<Item>)

  datatype Step =
    | StartApply(entries: seq<Entry>)          // the look at the session flag and the removal
    | Fail                                     // ApplyPolicy returns an error
    | MakeDirs
    | DumpFile(name: string, asset: Asset)     // one asset, with whatever mode it has
    | DumpDone
    | CheckScript                              // the next script is there, a file, and made executable
    | ChecksDone
    | CreateOrder(l: string) | WriteLine | CloseOrder
    | CreateReady
    | CheckReady(id: nat, lifecycle: string)   // RunScripts sees the ready flag
    | CreateRunning(id: nat)                   // and marks the session
    | EndRun(id: nat)                          // scripts are run, the session may end

  predicate ClearsSession(isComputer: bool, lifecycle: string) {
    lifecycle == if isComputer then "shutdown" else "logoff"
  }

  predicate Enabled(s: State, step: Step) {
    match step
    case StartApply(_) => s.apply.NotApplying?
    case Fail => !s.apply.NotApplying?
    case MakeDirs => s.apply.Making?
    case DumpFile(_, _) => s.apply.Dumping?
    case DumpDone => s.apply.Dumping?
    case CheckScript => s.apply.Checking? && s.apply.n < |s.apply.items| && IsFile(s.dir.scripts, s.apply.items[s.apply.n].script)
    case ChecksDone => s.apply.Checking? && s.apply.n == |s.apply.items|
    case CreateOrder(l) => s.apply.Ordering? && l in s.apply.todo
    case WriteLine => s.apply.Writing? && s.apply.l in s.apply.content && s.apply.n < |s.apply.content[s.apply.l]|
    case CloseOrder => s.apply.Writing? && s.apply.l in s.apply.content && s.apply.n == |s.apply.content[s.apply.l]|
    case CreateReady => s.apply.Ordering? && s.apply.todo == {}
    case CheckReady(id, _) => id !in s.runs && s.dir.ready
    case CreateRunning(id) => id in s.runs && s.runs[id].stage.Checked? && s.dir.present
    case EndRun(id) => id in s.runs
  }

  function Lines(orders: map<string, seq<string>>, l: string): seq<string> { if l in orders then orders[l] else [] }

  function Next(s: State, step: Step): State
    requires Enabled(s, step)
  {
    match step
    case StartApply(entries) =>
      // a session is running: leave everything as it is
      if s.dir.running then s
      else s.(dir := NO_DIRECTORY, apply := if entries == [] then NotApplying else Making(Listed(entries)))
    case Fail => s.(apply := NotApplying)
    case MakeDirs => s.(dir := s.dir.(present := true), apply := Dumping(s.apply.items))
    case DumpFile(name, x) => s.(dir := s.dir.(scripts := s.dir.scripts[name := x]))
    case DumpDone => s.(apply := Checking(s.apply.items, 0, map[]))
    case CheckScript =>
      var i, c := s.apply.items[s.apply.n], s.apply.content;
      s.(dir := s.dir.(scripts := s.dir.scripts[i.script := File(true)]),
         apply := Checking(s.apply.items, s.apply.n + 1, c[i.lifecycle := Lines(c, i.lifecycle) + ["scripts/" + i.script]]))
    case ChecksDone => s.(apply := Ordering(s.apply.items, s.apply.content, s.apply.content.Keys))
    case CreateOrder(l) =>
      s.(dir := s.dir.(orders := s.dir.orders[l := []]),
         apply := Writing(s.apply.items, s.apply.content, s.apply.todo - {l}, l, 0))
    case WriteLine =>
      var l, n := s.apply.l, s.apply.n;
      s.(dir := s.dir.(orders := s.dir.orders[l := Lines(s.dir.orders, l) + [s.apply.content[l][n]]]),
         apply := s.apply.(n := n + 1))
    case CloseOrder => s.(apply := Ordering(s.apply.items, s.apply.content, s.apply.todo))
    case CreateReady => s.(dir := s.dir.(ready := true), apply := NotApplying, applied := s.apply.items)
    case CheckReady(id, l) => s.(runs := s.runs[id := Run(l, Checked)])
    case CreateRunning(id) => s.(dir := s.dir.(running := true), runs := s.runs[id := s.runs[id].(stage := Started)])
    case EndRun(id) =>
      var r := s.runs[id];
      s.(runs := s.runs - {id},
         dir := if r.stage.Started? && ClearsSession(s.isComputer, r.lifecycle) then s.dir.(running := false) else s.dir)
  }

  predicate Reaches(s: State, steps: seq<Step>, t: State)
    decreases |steps|
  {
    if steps == [] then s == t
    else Enabled(s, steps[0]) && Reaches(Next(s, steps[0]), steps[1..], t)
  }

  function Init(isComputer: bool): State { State(isComputer, NO_DIRECTORY, NotApplying, map[], []) }

  // ---------------------------------------------------------------- what ready promises

  /** The order files are those of the policy, complete, and no other; every script in them is there
      and executable. */
  ghost predicate Complete(dir: Directory, items: seq<Item>) {
    && (forall l :: l in dir.orders <==> Paths(items, l) != [])
    && (forall l :: l in dir.orders ==> dir.orders[l] == Paths(items, l))
    && (forall i :: 0 <= i < |items| ==> items[i].script in dir.scripts && dir.scripts[items[i].script] == File(true))
  }

  ghost predicate ContentIs(content: map<string, seq<string>>, items: seq<Item>) {
    && (forall l :: l in content <==> Paths(items, l) != [])
    && (forall l :: l in content ==> content[l] == Paths(items, l))
  }

  ghost predicate AllExecutable(scripts: map<string, Asset>, items: seq<Item>) {
    forall i :: 0 <= i < |items| ==> items[i].script in scripts && scripts[items[i].script] == File(true)
  }

  /** Order files written so far are those not to be written any more. */
  ghost predicate WrittenBut(orders: map<string, seq<string>>, content: map<string, seq<string>>, todo: set<string>) {
    && todo <= content.Keys
    && orders.Keys == content.Keys - todo
    && forall l :: l in orders ==> orders[l] == content[l]
  }

  ghost predicate Inv(s: State) {
    && (s.dir.ready ==> Complete(s.dir, s.applied) && s.dir.present)
    && (!s.apply.NotApplying? ==> !s.dir.ready)
    && InvApply(s.dir, s.apply)
  }

  ghost predicate InvApply(dir: Directory, apply: Apply) {
    match apply
    case NotApplying => true
    case Making(_) => dir == NO_DIRECTORY
    case Dumping(_) => dir.present && dir.orders == map[]
    case Checking(items, n, content) =>
      dir.present && dir.orders == map[] && n <= |items| && ContentIs(content, items[..n]) && AllExecutable(dir.scripts, items[..n])
    case Ordering(items, content, todo) =>
      dir.present && ContentIs(content, items) && AllExecutable(dir.scripts, items) && WrittenBut(dir.orders, content, todo)
    case Writing(items, content, todo, l, n) =>
      && dir.present && ContentIs(content, items) && AllExecutable(dir.scripts, items)
      && l in content && l !in todo && l in dir.orders && n <= |content[l]| && dir.orders[l] == content[l][..n]
      && WrittenBut(dir.orders - {l}, content, todo + {l})
  }

  lemma ContentOneMore(content: map<string, seq<string>>, items: seq<Item>, n: nat)
    requires n < |items| && ContentIs(content, items[..n])
    ensures var i := items[n];
            ContentIs(content[i.lifecycle := Lines(content, i.lifecycle) + ["scripts/" + i.script]], items[..n + 1])
  {
    assert items[..n + 1][..n] == items[..n];
    var i := items[n];
    forall l ensures Paths(items[..n + 1], l) == Paths(items[..n], l) + if i.lifecycle == l then ["scripts/" + i.script] else [] {
    }
  }

  lemma CheckStep(s: State)
    requires Inv(s) && Enabled(s, CheckScript)
    ensures Inv(Next(s, CheckScript))
  {
    hide ContentIs, AllExecutable, Complete, Lines;
    ContentOneMore(s.apply.content, s.apply.items, s.apply.n);
    ExecutableOneMore(s.dir.scripts, s.apply.items, s.apply.n);
  }

  lemma ExecutableOneMore(scripts: map<string, Asset>, items: seq<Item>, n: nat)
    requires n < |items| && AllExecutable(scripts, items[..n])
    ensures AllExecutable(scripts[items[n].script := File(true)], items[..n + 1])
  {
    assert items[..n + 1] == items[..n] + [items[n]];
  }

  lemma OneOrderMore(orders: map<string, seq<string>>, content: map<string, seq<string>>, todo: set<string>, l: string)
    requires WrittenBut(orders - {l}, content, todo + {l})
    requires l in content && l !in todo && l in orders && orders[l] == content[l]
    ensures WrittenBut(orders, content, todo)
  {
    assert forall k :: k in orders && k != l ==> k in orders - {l} && (orders - {l})[k] == orders[k];
    assert orders.Keys == (orders - {l}).Keys + {l};
  }

  lemma OrderSteps(s: State, step: Step)
    requires Inv(s) && Enabled(s, step) && (step.CreateOrder? || step.WriteLine? || step.CloseOrder?)
    ensures Inv(Next(s, step))
  {
    hide ContentIs, AllExecutable, Complete;
    match step
    case CreateOrder(l) =>
      var o := s.dir.orders[l := []];
      assert l !in s.dir.orders;
      assert o - {l} == s.dir.orders && s.apply.todo - {l} + {l} == s.apply.todo;
      assert s.apply.content[l][..0] == [];
    case WriteLine =>
      var l, n := s.apply.l, s.apply.n;
      var o := Next(s, step).dir.orders;
      assert o - {l} == s.dir.orders - {l};
      assert s.apply.content[l][..n + 1] == s.apply.content[l][..n] + [s.apply.content[l][n]];
    case CloseOrder =>
      var l := s.apply.l;
      assert s.apply.content[l][..s.apply.n] == s.apply.content[l];
      OneOrderMore(s.dir.orders, s.apply.content, s.apply.todo, l);
  }

  lemma InvStep(s: State, step: Step)
    requires Inv(s) && Enabled(s, step)
    ensures Inv(Next(s, step))
  {
    hide Paths, Listed;
    match step
    case CheckScript => CheckStep(s);
    case CreateOrder(_) => OrderSteps(s, step);
    case WriteLine => OrderSteps(s, step);
    case CloseOrder => OrderSteps(s, step);
    case DumpDone =>
      assert s.apply.items[..0] == [];
      NothingListed();
    case ChecksDone =>
      assert s.apply.items[..s.apply.n] == s.apply.items;
    case _ =>
  }

  lemma NothingListed()
    ensures ContentIs(map[], [])
  {}

  lemma {:induction false} InvAlways(s: State, steps: seq<Step>, t: State)
    requires Inv(s) && Reaches(s, steps, t)
    ensures Inv(t)
    decreases |steps|
  {
    if steps != [] {
      InvStep(s, steps[0]);
      InvAlways(Next(s, steps[0]), steps[1..], t);
    }
  }

  /** Over every run, whoever acts when and whatever step ApplyPolicy fails at: with the ready flag
      there, the order files are exactly and completely those of the last policy and all their scripts
      are there and executable; nothing is ready while a policy is being applied. */
  lemma ReadyMeansComplete(isComputer: bool, steps: seq<Step>, t: State)
    requires Reaches(Init(isComputer), steps, t)
    ensures t.dir.ready ==> Complete(t.dir, t.applied) && t.apply.NotApplying?
  {
    InvAlways(Init(isComputer), steps, t);
  }

  // ---------------------------------------------------------------- sessions are of ready scripts

  /** In every state of the run, a session flag means a ready flag. */
  predicate SessionsReady(s: State, steps: seq<Step>)
    decreases |steps|
  {
    && (s.dir.running ==> s.dir.ready)
    && (steps != [] && Enabled(s, steps[0]) ==> SessionsReady(Next(s, steps[0]), steps[1..]))
  }

  /** Every session is marked while the ready flag is still there. */
  predicate MarksReady(s: State, steps: seq<Step>)
    decreases |steps|
  {
    steps != [] && Enabled(s, steps[0]) ==>
      (steps[0].CreateRunning? ==> s.dir.ready) && MarksReady(Next(s, steps[0]), steps[1..])
  }

  /** A step breaks "a session flag means a ready flag" only by marking a session that is not ready. */
  lemma MarkStep(s: State, step: Step)
    requires Inv(s) && (s.dir.running ==> s.dir.ready) && Enabled(s, step)
    ensures (Next(s, step).dir.running ==> Next(s, step).dir.ready) <==> (step.CreateRunning? ==> s.dir.ready)
  {
    hide Complete, InvApply;
  }

  lemma {:induction false} SessionsReadyFrom(s: State, steps: seq<Step>, t: State)
    requires Inv(s) && (s.dir.running ==> s.dir.ready) && Reaches(s, steps, t)
    ensures SessionsReady(s, steps) <==> MarksReady(s, steps)
    ensures MarksReady(s, steps) ==> (t.dir.running ==> t.dir.ready)
    decreases |steps|
  {
    hide Inv, Next, Enabled;
    if steps != [] {
      var next := Next(s, steps[0]);
      InvStep(s, steps[0]);
      MarkStep(s, steps[0]);
      if next.dir.running ==> next.dir.ready {
        SessionsReadyFrom(next, steps[1..], t);
      }
    }
  }

  /** Main result: throughout a run sessions have their scripts ready if and only if no run marks a
      session whose ready flag, seen before, is gone by then. */
  lemma SessionsReadyIff(isComputer: bool, steps: seq<Step>, t: State)
    requires Reaches(Init(isComputer), steps, t)
    ensures SessionsReady(Init(isComputer), steps) <==> MarksReady(Init(isComputer), steps)
  {
    SessionsReadyFrom(Init(isComputer), steps, t);
  }

  /** Every run that has seen the ready flag and not marked its session will still find the flag. */
  ghost predicate CheckedReady(s: State) {
    forall id :: id in s.runs && s.runs[id].stage.Checked? ==> s.dir.ready
  }

  /** No ApplyPolicy looks at the session flag between a run's look at the ready flag and its mark. */
  predicate UndisturbedStep(s: State, step: Step) {
    step.StartApply? ==> forall id :: id in s.runs ==> s.runs[id].stage.Started?
  }

  predicate Undisturbed(s: State, steps: seq<Step>)
    decreases |steps|
  {
    steps != [] && Enabled(s, steps[0]) ==>
      UndisturbedStep(s, steps[0]) && Undisturbed(Next(s, steps[0]), steps[1..])
  }

  lemma CheckedStep(s: State, step: Step)
    requires CheckedReady(s) && Enabled(s, step) && UndisturbedStep(s, step)
    ensures CheckedReady(Next(s, step)) && (step.CreateRunning? ==> s.dir.ready)
  {}

  /** With the look and the mark as one, every session is of ready scripts. */
  lemma {:induction false} UndisturbedMarksReady(s: State, steps: seq<Step>, t: State)
    requires CheckedReady(s) && Reaches(s, steps, t) && Undisturbed(s, steps)
    ensures MarksReady(s, steps)
    decreases |steps|
  {
    hide CheckedReady, UndisturbedStep, Next, Enabled;
    if steps != [] {
      CheckedStep(s, steps[0]);
      UndisturbedMarksReady(Next(s, steps[0]), steps[1..], t);
    }
  }

  /** Ready for a policy that lists no script. */
  function ReadyForNothing(isComputer: bool): State {
    State(isComputer, Directory(true, true, false, map[], map[]), NotApplying, map[], [])
  }

  /** That state can be reached from the start, and so can all that can be reached from it. */
  lemma ReadyFromStart(isComputer: bool, e: Entry, rest: seq<Step>, t: State)
    requires e.value == "" && Reaches(ReadyForNothing(isComputer), rest, t)
    ensures exists steps :: Reaches(Init(isComputer), steps, t)
  {
    EmptyListsNothing(e);
    hide Reaches, Listed;
    var s0 := Init(isComputer);
    var s1 := Next(s0, StartApply([e]));
    var rest' := ReadyOnceDumped(isComputer, rest, t);
    Prepend(s1, MakeDirs, rest', t);
    Prepend(s0, StartApply([e]), [MakeDirs] + rest', t);
  }

  lemma ReadyOnceDumped(isComputer: bool, rest: seq<Step>, t: State) returns (steps: seq<Step>)
    requires Reaches(ReadyForNothing(isComputer), rest, t)
    ensures Reaches(State(isComputer, NO_DIRECTORY.(present := true), Dumping([]), map[], []), steps, t)
  {
    hide Reaches;
    var s2 := State(isComputer, NO_DIRECTORY.(present := true), Dumping([]), map[], []);
    var s3 := Next(s2, DumpDone);
    var s4 := Next(s3, ChecksDone);
    Prepend(s4, CreateReady, rest, t);
    Prepend(s3, ChecksDone, [CreateReady] + rest, t);
    steps := [ChecksDone] + ([CreateReady] + rest);
    Prepend(s2, DumpDone, steps, t);
    steps := [DumpDone] + steps;
  }

  lemma EmptyListsNothing(e: Entry)
    requires e.value == ""
    ensures Listed([e]) == []
  {
    assert Split(e.value, '\n') == [""] && TrimSpace("") == "";
    assert [e][..0] == [] && [""][..0] == [];
    assert Named([""], Base(e.key)) == [];
  }

  lemma Prepend(s: State, step: Step, rest: seq<Step>, t: State)
    requires Enabled(s, step) && Reaches(Next(s, step), rest, t)
    ensures Reaches(s, [step] + rest, t)
  {
    assert ([step] + rest)[1..] == rest;
  }

  /** A session marked while a policy is being applied. */
  lemma MarkedTooLate(s: State, id: nat) returns (steps: seq<Step>, t: State)
    requires s.apply.Making? && s.dir == NO_DIRECTORY && id in s.runs && s.runs[id].stage.Checked?
    ensures Reaches(s, steps, t) && t.dir.running && !t.dir.ready && t.apply.Dumping?
  {
    var s1 := Next(s, MakeDirs);
    t := Next(s1, CreateRunning(id));
    Prepend(s1, CreateRunning(id), [], t);
    Prepend(s, MakeDirs, [CreateRunning(id)] + [], t);
    steps := [MakeDirs] + ([CreateRunning(id)] + []);
  }

  /** An ApplyPolicy that starts in between leaves a session without anything ready. */
  lemma DisturbedStart(s: State, e: Entry, id: nat)
    requires s.dir.ready && !s.dir.running && s.apply.NotApplying? && id !in s.runs
    ensures exists steps, t :: Reaches(s, steps, t) && t.dir.running && !t.dir.ready && t.apply.Dumping?
  {
    hide Reaches, Listed;
    var s1 := Next(s, CheckReady(id, "logon"));
    var s2 := Next(s1, StartApply([e]));
    var steps, t := MarkedTooLate(s2, id);
    Prepend(s1, StartApply([e]), steps, t);
    Prepend(s, CheckReady(id, "logon"), [StartApply([e])] + steps, t);
  }

  /** So from the start a session without anything ready can be reached. */
  lemma UnreadySession(isComputer: bool)
    ensures exists steps, t :: Reaches(Init(isComputer), steps, t) && t.dir.running && !t.dir.ready && t.apply.Dumping?
  {
    var e, s := Entry("scripts/logon", "", false, "", "", None), ReadyForNothing(isComputer);
    DisturbedStart(s, e, 0);
    var rest, t :| Reaches(s, rest, t) && t.dir.running && !t.dir.ready && t.apply.Dumping?;
    ReadyFromStart(isComputer, e, rest, t);
  }

  // ---------------------------------------------------------------- a session keeps its scripts

  /** The session flag is there before every step. */
  predicate InSession(s: State, steps: seq<Step>)
    decreases |steps|
  {
    s.dir.running && (steps != [] && Enabled(s, steps[0]) ==> InSession(Next(s, steps[0]), steps[1..]))
  }

  /** The check of the scripts has still to come to one that is missing, and has nothing to make
      executable in front of it. */
  ghost predicate CheckFails(s: State) {
    s.apply.Checking? &&
    exists j :: s.apply.n <= j < |s.apply.items| && !IsFile(s.dir.scripts, s.apply.items[j].script)
                && AllExecutable(s.dir.scripts, s.apply.items[s.apply.n..j])
  }

  /** No policy is being applied, or only the rest of one that will fail without touching anything. */
  ghost predicate Still(s: State) { s.apply.NotApplying? || CheckFails(s) }

  lemma CheckFailsStep(s: State, step: Step)
    requires CheckFails(s) && Enabled(s, step) && step.CheckScript?
    ensures Next(s, step).dir == s.dir && CheckFails(Next(s, step))
  {
    var items, n, scripts := s.apply.items, s.apply.n, s.dir.scripts;
    var j :| n <= j < |items| && !IsFile(scripts, items[j].script) && AllExecutable(scripts, items[n..j]);
    hide IsFile;
    assert items[n..j] == [items[n]] + items[n + 1..j];
    RestExecutable(scripts, items[n], items[n + 1..j]);
    assert scripts[items[n].script := File(true)] == scripts;
  }

  lemma RestExecutable(scripts: map<string, Asset>, i: Item, rest: seq<Item>)
    requires AllExecutable(scripts, [i] + rest)
    ensures i.script in scripts && scripts[i.script] == File(true) && AllExecutable(scripts, rest)
  {
    assert ([i] + rest)[0] == i;
    forall k | 0 <= k < |rest| ensures rest[k] == ([i] + rest)[k + 1] {}
  }

  lemma StillStep(s: State, step: Step)
    requires s.dir.running && Still(s) && Enabled(s, step)
    ensures Next(s, step).dir.running ==>
              Next(s, step).dir == s.dir && Next(s, step).applied == s.applied && Still(Next(s, step))
  {
    hide AllExecutable;
    if step.CheckScript? { CheckFailsStep(s, step); }
  }

  lemma {:induction false} StillKept(s: State, steps: seq<Step>, t: State)
    requires Still(s) && Reaches(s, steps, t) && InSession(s, steps)
    ensures t.dir == s.dir && t.applied == s.applied
    decreases |steps|
  {
    hide Still, Next, Enabled;
    if steps != [] {
      StillStep(s, steps[0]);
      StillKept(Next(s, steps[0]), steps[1..], t);
    }
  }

  /** As long as the session lasts, its directory stays as it is. */
  ghost predicate Unchanging(s: State) {
    forall steps, t :: Reaches(s, steps, t) && InSession(s, steps) ==> t.dir == s.dir
  }

  /** As long as the session lasts, its directory stays as it is, ready, and complete. */
  ghost predicate KeepsScripts(s: State) {
    forall steps, t :: Reaches(s, steps, t) && InSession(s, steps) ==>
                         t.dir == s.dir && t.dir.ready && Complete(t.dir, t.applied)
  }

  function Rank(a: Apply): nat {
    match a
    case Checking(items, n, _) => if n < |items| then |items| - n + 2 else 2
    case Writing(_, _, _, _, _) => 1
    case _ => 0
  }

  /** An ApplyPolicy that is not bound to fail has a step that changes the directory or brings the next
      one closer. */
  lemma OnwardStep(s: State) returns (step: Step)
    requires Inv(s) && s.dir.running && !Still(s)
    ensures Enabled(s, step) && Next(s, step).dir.running
    ensures Next(s, step).dir != s.dir || (!Still(Next(s, step)) && Rank(Next(s, step).apply) < Rank(s.apply))
  {
    hide Complete, ContentIs, AllExecutable, WrittenBut;
    match s.apply {
      case Dumping(_) =>
        var other := if "" in s.dir.scripts && s.dir.scripts[""].Folder? then File(true) else Folder;
        step := DumpFile("", other);
        assert Next(s, step).dir.scripts[""] == other;
      case Checking(items, n, _) =>
        step := if n < |items| then CheckScript else ChecksDone;
        if n < |items| { CheckGoesOn(s); }
      case Ordering(_, _, _) =>
        step := OrderGoesOn(s);
      case Writing(_, content, _, l, n) =>
        step := if n < |content[l]| then WriteLine else CloseOrder;
        if n < |content[l]| { WritingGoesOn(s); }
    }
  }

  lemma CheckGoesOn(s: State)
    requires s.apply.Checking? && s.apply.n < |s.apply.items| && !CheckFails(s)
    ensures Enabled(s, CheckScript)
    ensures Next(s, CheckScript).dir != s.dir || !CheckFails(Next(s, CheckScript))
  {
    assert s.apply.items[s.apply.n..s.apply.n] == [];
    if Next(s, CheckScript).dir == s.dir && CheckFails(Next(s, CheckScript)) { FailsBefore(s); }
  }

  /** A check bound to fail behind a script that need not be changed was bound to fail in front of it. */
  lemma FailsBefore(s: State)
    requires Enabled(s, CheckScript) && Next(s, CheckScript).dir == s.dir && CheckFails(Next(s, CheckScript))
    ensures CheckFails(s)
  {
    hide IsFile;
    var items, n, scripts := s.apply.items, s.apply.n, s.dir.scripts;
    assert Next(s, CheckScript).dir.scripts[items[n].script] == File(true);
    var j :| n + 1 <= j < |items| && !IsFile(scripts, items[j].script) && AllExecutable(scripts, items[n + 1..j]);
    assert items[n..j] == [items[n]] + items[n + 1..j];
    assert AllExecutable(scripts, items[n..j]);
  }

  lemma OrderGoesOn(s: State) returns (step: Step)
    requires s.apply.Ordering? && !s.dir.ready && WrittenBut(s.dir.orders, s.apply.content, s.apply.todo)
    ensures Enabled(s, step) && Next(s, step).dir.running == s.dir.running && Next(s, step).dir != s.dir
  {
    if s.apply.todo == {} {
      step := CreateReady;
    } else {
      var l :| l in s.apply.todo;
      step := CreateOrder(l);
      assert l in Next(s, step).dir.orders && l !in s.dir.orders;
    }
  }

  lemma WritingGoesOn(s: State)
    requires s.apply.Writing? && s.apply.l in s.apply.content && s.apply.l in s.dir.orders
    requires s.apply.n < |s.apply.content[s.apply.l]|
    ensures Enabled(s, WriteLine) && Next(s, WriteLine).dir.running == s.dir.running && Next(s, WriteLine).dir != s.dir
  {
    assert |Next(s, WriteLine).dir.orders[s.apply.l]| == |s.dir.orders[s.apply.l]| + 1;
  }

  /** An ApplyPolicy that is not bound to fail changes the directory, session or not. */
  lemma {:induction false} ChangeComes(s: State) returns (steps: seq<Step>, t: State)
    requires Inv(s) && s.dir.running && !Still(s)
    ensures Reaches(s, steps, t) && InSession(s, steps) && t.dir != s.dir
    decreases Rank(s.apply)
  {
    var step := OnwardStep(s);
    var next := Next(s, step);
    InvStep(s, step);
    if next.dir != s.dir {
      steps, t := [step], next;
      assert [step][1..] == [];
    } else {
      var rest;
      rest, t := ChangeComes(next);
      steps := [step] + rest;
      assert steps[1..] == rest;
    }
  }

  /** Main result: a session's scripts are kept as they are, ready and complete, to its end, however
      many policies are applied meanwhile, if and only if they are ready. */
  lemma SessionKeepsScriptsIff(isComputer: bool, before: seq<Step>, s: State)
    requires Reaches(Init(isComputer), before, s) && s.dir.running
    ensures KeepsScripts(s) <==> s.dir.ready
  {
    InvAlways(Init(isComputer), before, s);
    if s.dir.ready {
      forall steps, t | Reaches(s, steps, t) && InSession(s, steps)
        ensures t.dir == s.dir && t.dir.ready && Complete(t.dir, t.applied)
      {
        StillKept(s, steps, t);
      }
    } else {
      assert Reaches(s, [], s) && InSession(s, []);
    }
  }

  /** And ready or not, the directory stays unchanged if and only if no policy is being applied, or one
      whose check of the scripts is bound to fail with nothing left to change. */
  lemma SessionUnchangingIff(isComputer: bool, before: seq<Step>, s: State)
    requires Reaches(Init(isComputer), before, s) && s.dir.running
    ensures Unchanging(s) <==> Still(s)
  {
    InvAlways(Init(isComputer), before, s);
    if Still(s) {
      forall steps, t | Reaches(s, steps, t) && InSession(s, steps) ensures t.dir == s.dir { StillKept(s, steps, t); }
    } else {
      var steps, t := ChangeComes(s);
      assert !Unchanging(s);
    }
  }

  /** From the start there is a run in which a policy changes the directory of a session. */
  lemma ChangedDuringSession(isComputer: bool)
    ensures exists before, s, during, t ::
              Reaches(Init(isComputer), before, s) && Reaches(s, during, t) && InSession(s, during) && t.dir != s.dir
  {
    UnreadySession(isComputer);
    var before, s :| Reaches(Init(isComputer), before, s) && s.dir.running && !s.dir.ready && s.apply.Dumping?;
    InvAlways(Init(isComputer), before, s);
    var during, t := ChangeComes(s);
  }

  // ---------------------------------------------------------------- the loops of the check

  lemma ContentAppend(content: map<string, seq<string>>, done: seq<Item>, i: Item)
    requires ContentIs(content, done)
    ensures ContentIs(content[i.lifecycle := Lines(content, i.lifecycle) + ["scripts/" + i.script]], done + [i])
  {
    assert (done + [i])[..|done|] == done;
    ContentOneMore(content, done + [i], |done|);
    assert (done + [i])[..|done| + 1] == done + [i];
  }

  lemma NamedOneMore(lines: seq<string>, k: nat, l: string)
    requires k < |lines|
    ensures Named(lines[..k + 1], l) ==
            Named(lines[..k], l) + if TrimSpace(lines[k]) == "" then [] else [Item(l, TrimSpace(lines[k]))]
  {
    assert lines[..k + 1][..k] == lines[..k];
  }

  lemma {:induction false} ListedPrefix(entries: seq<Entry>, n: nat)
    requires n <= |entries|
    ensures Listed(entries[..n]) <= Listed(entries)
    decreases |entries|
  {
    if n < |entries| {
      ListedPrefix(entries[..|entries| - 1], n);
      assert entries[..|entries| - 1][..n] == entries[..n];
    } else {
      assert entries[..n] == entries;
    }
  }

  lemma {:induction false} NamedPrefix(lines: seq<string>, k: nat, l: string)
    requires k <= |lines|
    ensures Named(lines[..k], l) <= Named(lines, l)
    decreases |lines|
  {
    if k < |lines| {
      NamedPrefix(lines[..|lines| - 1], k, l);
      assert lines[..|lines| - 1][..k] == lines[..k];
    } else {
      assert lines[..k] == lines;
    }
  }

  lemma ListedOneMore(entries: seq<Entry>, n: nat)
    requires n < |entries|
    ensures Listed(entries[..n + 1]) ==
            Listed(entries[..n]) + Named(Split(entries[n].value, '\n'), Base(entries[n].key))
  {
    assert entries[..n + 1][..n] == entries[..n];
  }

  lemma ExecutableAppend(scripts: map<string, Asset>, done: seq<Item>, i: Item)
    requires AllExecutable(scripts, done)
    ensures AllExecutable(scripts[i.script := File(true)], done + [i])
  {}

  ghost predicate AllFiles(scripts: map<string, Asset>, items: seq<Item>) {
    forall i :: 0 <= i < |items| ==> IsFile(scripts, items[i].script)
  }

  /** What is wrong with a script that is listed: it is not there, or a folder. A name below a file is
      neither: looking at it fails in another way, and what was not found is used all the same. */
  datatype Problem = Missing(script: string) | IsFolder(script: string) | NilInfoPanic(script: string)

  predicate BelowFile(scripts: map<string, Asset>, name: string) {
    exists p :: p in scripts && scripts[p].File? && p + "/" <= name
  }

  ghost predicate Told(p: Problem, scripts: map<string, Asset>, items: seq<Item>) {
    && (exists i :: 0 <= i < |items| && items[i].script == p.script && AllFiles(scripts, items[..i]))
    && match p
       case Missing(s) => s !in scripts && !BelowFile(scripts, s)
       case NilInfoPanic(s) => s !in scripts && BelowFile(scripts, s)
       case IsFolder(s) => s in scripts && scripts[s].Folder?
  }

  /** Modes are changed, nothing else. */
  ghost predicate SameKinds(scripts: map<string, Asset>, scripts0: map<string, Asset>) {
    scripts.Keys == scripts0.Keys && forall k :: k in scripts ==> (scripts[k].File? <==> scripts0[k].File?)
  }

  /** What is not listed is as it was. */
  ghost predicate OnlyListed(scripts: map<string, Asset>, scripts0: map<string, Asset>, items: seq<Item>) {
    forall k :: k in scripts && k in scripts0 && scripts[k] != scripts0[k] ==> exists i :: 0 <= i < |items| && items[i].script == k
  }

  lemma OnlyListedOneMore(scripts: map<string, Asset>, scripts0: map<string, Asset>, items: seq<Item>, i: Item)
    requires OnlyListed(scripts, scripts0, items) && i.script in scripts
    ensures OnlyListed(scripts[i.script := File(true)], scripts0, items + [i])
  {
    var scripts', more := scripts[i.script := File(true)], items + [i];
    forall k | k in scripts' && k in scripts0 && scripts'[k] != scripts0[k]
      ensures exists j :: 0 <= j < |more| && more[j].script == k
    {
      if k == i.script {
        assert more[|items|] == i;
      } else {
        var j :| 0 <= j < |items| && items[j].script == k;
        assert more[j].script == k;
      }
    }
  }

  /** Changes of a part of what is listed, and then of another. */
  lemma OnlyListedParts(scripts: map<string, Asset>, scripts1: map<string, Asset>, scripts0: map<string, Asset>,
                        a: seq<Item>, b: seq<Item>, all: seq<Item>)
    requires SameKinds(scripts1, scripts0) && OnlyListed(scripts1, scripts0, a) && OnlyListed(scripts, scripts1, b) && a + b <= all
    ensures OnlyListed(scripts, scripts0, all)
  {
    forall k | k in scripts && k in scripts0 && scripts[k] != scripts0[k]
      ensures exists i :: 0 <= i < |all| && all[i].script == k
    {
      if scripts1[k] != scripts0[k] {
        var i :| 0 <= i < |a| && a[i].script == k;
        assert all[i] == (a + b)[i];
      } else {
        var i :| 0 <= i < |b| && b[i].script == k;
        assert all[|a| + i] == (a + b)[|a| + i];
      }
    }
  }

  lemma SameBelow(scripts: map<string, Asset>, scripts0: map<string, Asset>, name: string)
    requires SameKinds(scripts, scripts0)
    ensures BelowFile(scripts, name) <==> BelowFile(scripts0, name)
  {}

  /** There is just one problem to tell: the first listed script that is no file, and what it is. */
  lemma ToldIsDetermined(p: Problem, q: Problem, scripts: map<string, Asset>, items: seq<Item>)
    requires Told(p, scripts, items) && Told(q, scripts, items)
    ensures p == q
  {
    hide BelowFile;
    var i :| 0 <= i < |items| && items[i].script == p.script && AllFiles(scripts, items[..i]);
    var j :| 0 <= j < |items| && items[j].script == q.script && AllFiles(scripts, items[..j]);
    assert i == j;
  }

  /** The loop over the lines of one value; `done` is what the entries in front listed. */
  method CheckLines(lines: seq<string>, lifecycle: string, scripts0: map<string, Asset>, content0: map<string, seq<string>>,
                    ghost done: seq<Item>)
    returns (problem: Option<Problem>, scripts: map<string, Asset>, content: map<string, seq<string>>)
    requires ContentIs(content0, done) && AllExecutable(scripts0, done)
    ensures problem.None? <==> AllFiles(scripts0, Named(lines, lifecycle))
    ensures problem.Some? ==> Told(problem.value, scripts0, Named(lines, lifecycle))
    ensures SameKinds(scripts, scripts0) && OnlyListed(scripts, scripts0, Named(lines, lifecycle))
    ensures problem.None? ==>
              ContentIs(content, done + Named(lines, lifecycle)) && AllExecutable(scripts, done + Named(lines, lifecycle))
  {
    hide TrimSpace, ContentIs, AllExecutable, OnlyListed, Lines, Named, BelowFile;
    problem, scripts, content := None, scripts0, content0;
    ghost var items: seq<Item> := [];
    assert done + [] == done;
    NoneNamed(lifecycle);
    NothingExecutable(scripts0);
    assert lines[..0] == [];
    for k := 0 to |lines|
      invariant items == Named(lines[..k], lifecycle) && SameKinds(scripts, scripts0)
      invariant AllFiles(scripts0, items) && OnlyListed(scripts, scripts0, items)
      invariant ContentIs(content, done + items) && AllExecutable(scripts, done + items)
    {
      NamedOneMore(lines, k, lifecycle);
      NamedPrefix(lines, k + 1, lifecycle);
      var script := TrimSpace(lines[k]);
      if script == "" {
        assert items + [] == items;
        continue;
      }
      ghost var i := Item(lifecycle, script);
      if !IsFile(scripts, script) {
        assert Named(lines, lifecycle)[|items|] == i && Named(lines, lifecycle)[..|items|] == items;
        SameBelow(scripts, scripts0, script);
        OnlyListedParts(scripts, scripts, scripts0, items, [], Named(lines, lifecycle));
        if script !in scripts {
          return Some(if BelowFile(scripts, script) then NilInfoPanic(script) else Missing(script)), scripts, content;
        }
        return Some(IsFolder(script)), scripts, content;
      }
      ContentAppend(content, done + items, i);
      ExecutableAppend(scripts, done + items, i);
      OnlyListedOneMore(scripts, scripts0, items, i);
      scripts := scripts[script := File(true)];
      content := content[lifecycle := Lines(content, lifecycle) + ["scripts/" + script]];
      assert done + items + [i] == done + (items + [i]);
      items := items + [i];
    }
    assert lines[..|lines|] == lines;
  }

  lemma NoneNamed(l: string)
    ensures Named([], l) == []
  {}

  /** Goes through the entries and the lines of their values: every script named has to be a file in
      the directory and is made executable, and the order files' contents are gathered. The first one
      that is not is reported. */
  method CheckScripts(entries: seq<Entry>, scripts0: map<string, Asset>)
    returns (problem: Option<Problem>, scripts: map<string, Asset>, content: map<string, seq<string>>)
    ensures problem.None? <==> AllFiles(scripts0, Listed(entries))
    ensures problem.Some? ==> Told(problem.value, scripts0, Listed(entries))
    ensures SameKinds(scripts, scripts0) && OnlyListed(scripts, scripts0, Listed(entries))
    ensures problem.None? ==> ContentIs(content, Listed(entries)) && AllExecutable(scripts, Listed(entries))
  {
    hide ContentIs, AllExecutable, OnlyListed, Named, Listed, Split, Base, AllFiles, Told;
    problem, scripts, content := None, scripts0, map[];
    NothingListed();
    NothingExecutable(scripts);
    assert entries[..0] == [];
    for n := 0 to |entries|
      invariant problem.None? && SameKinds(scripts, scripts0) && AllFiles(scripts0, Listed(entries[..n]))
      invariant OnlyListed(scripts, scripts0, Listed(entries[..n]))
      invariant ContentIs(content, Listed(entries[..n])) && AllExecutable(scripts, Listed(entries[..n]))
    {
      var e := entries[n];
      ListedOneMore(entries, n);
      ListedPrefix(entries, n + 1);
      ghost var done, named := Listed(entries[..n]), Named(Split(e.value, '\n'), Base(e.key));
      FilesConcat(scripts, scripts0, done, named, Listed(entries));
      ghost var was := scripts;
      problem, scripts, content := CheckLines(Split(e.value, '\n'), Base(e.key), scripts, content, done);
      OnlyListedParts(scripts, was, scripts0, done, named, Listed(entries));
      OnlyListedParts(scripts, was, scripts0, done, named, Listed(entries[..n + 1]));
      if problem.Some? {
        return;
      }
    }
    assert entries[..|entries|] == entries;
  }

  lemma FilesConcat(scripts: map<string, Asset>, scripts0: map<string, Asset>, a: seq<Item>, b: seq<Item>, all: seq<Item>)
    requires SameKinds(scripts, scripts0) && a + b <= all && AllFiles(scripts0, a)
    ensures AllFiles(scripts, b) ==> AllFiles(scripts0, a + b)
    ensures !AllFiles(scripts, b) ==> !AllFiles(scripts0, all)
    ensures forall p :: Told(p, scripts, b) ==> Told(p, scripts0, all)
  {
    hide BelowFile;
    if i :| 0 <= i < |b| && !IsFile(scripts, b[i].script) { assert all[|a| + i] == b[i]; }
    forall p | Told(p, scripts, b) ensures Told(p, scripts0, all) {
      var i :| 0 <= i < |b| && b[i].script == p.script && AllFiles(scripts, b[..i]);
      assert all[|a| + i] == b[i] && all[..|a| + i] == a + b[..i];
      SameBelow(scripts, scripts0, p.script);
    }
  }

  lemma NothingExecutable(scripts: map<string, Asset>)
    ensures AllExecutable(scripts, []) && AllFiles(scripts, []) && OnlyListed(scripts, scripts, []) && Listed([]) == []
  {}

  // ---------------------------------------------------------------- in plain terms

  lemma {:induction false} NamedConcat(a: seq<string>, b: seq<string>, l: string)
    ensures Named(a + b, l) == Named(a, l) + Named(b, l)
    decreases |b|
  {
    if b == [] {
      assert a + b == a;
    } else {
      assert (a + b)[..|a + b| - 1] == a + b[..|b| - 1];
      NamedConcat(a, b[..|b| - 1], l);
    }
  }

  /** A line names the script that is left of it without the spaces around it, and an empty one none. */
  lemma OneLine(left: string, script: string, right: string, l: string)
    requires Blank(left) && Blank(right)
    requires script != "" && !IsSpace(script[0]) && !IsSpace(script[|script| - 1])
    ensures Named([left + script + right], l) == [Item(l, script)]
    ensures Named([left], l) == []
  {
    hide TrimSpace, IsSpace;
    TrimSpaceIs(left, script, right);
    assert [left][..0] == [] && [left + script + right][..0] == [];
    NoneNamed(l);
  }

  /** An entry lists, for the last element of its key, what its lines name. */
  lemma OneEntryLists(e: Entry, front: string, l: string, lines: seq<string>)
    requires e.key == front + "/" + l && '/' !in l && l != ""
    requires e.value == Join(lines, "\n") && lines != [] && forall line :: line in lines ==> '\n' !in line
    ensures Listed([e]) == Named(lines, l)
  {
    hide Named, Split, Join, Base;
    BaseAndDir(front, l);
    SplitOfJoin(lines, '\n');
    assert "\n" == ['\n'] && [e][..0] == [];
    EmptyListing();
  }

  lemma EmptyListing()
    ensures Listed([]) == []
  {}

  lemma {:induction false} ListedConcat(a: seq<Entry>, b: seq<Entry>)
    ensures Listed(a + b) == Listed(a) + Listed(b)
    decreases |b|
  {
    hide Named, Split, Base;
    if b == [] {
      assert a + b == a;
    } else {
      assert (a + b)[..|a + b| - 1] == a + b[..|b| - 1];
      ListedConcat(a, b[..|b| - 1]);
    }
  }

  /** The order file of a life cycle point has the scripts of that point, below "scripts". */
  lemma {:induction false} PathsAre(items: seq<Item>, l: string)
    ensures (forall i :: 0 <= i < |items| ==> items[i].lifecycle == l) ==>
              |Paths(items, l)| == |items|
              && forall i :: 0 <= i < |items| ==> Paths(items, l)[i] == "scripts/" + items[i].script
    ensures (forall i :: 0 <= i < |items| ==> items[i].lifecycle != l) ==> Paths(items, l) == []
    decreases |items|
  {
    if items != [] { PathsAre(items[..|items| - 1], l); }
  }

  lemma {:induction false} PathsConcat(a: seq<Item>, b: seq<Item>, l: string)
    ensures Paths(a + b, l) == Paths(a, l) + Paths(b, l)
    decreases |b|
  {
    if b == [] {
      assert a + b == a;
    } else {
      assert (a + b)[..|a + b| - 1] == a + b[..|b| - 1];
      PathsConcat(a, b[..|b| - 1], l);
    }
  }

  predicate NoneAt(last: string, s: State, steps: seq<Step>) {
    && (forall id :: id in s.runs ==> s.runs[id].lifecycle != last)
    && forall i :: 0 <= i < |steps| && steps[i].CheckReady? ==> steps[i].lifecycle != last
  }

  lemma SessionStep(s: State, step: Step)
    requires Enabled(s, step) && s.dir.running && NoneAt(if s.isComputer then "shutdown" else "logoff", s, [step])
    ensures Next(s, step).dir.running && Next(s, step).isComputer == s.isComputer
    ensures forall id :: id in Next(s, step).runs ==>
                           Next(s, step).runs[id].lifecycle != if s.isComputer then "shutdown" else "logoff"
  {
    hide Listed, Lines;
    assert [step][0] == step;
  }

  /** A session goes on through any run in which no shutdown or logoff scripts are run. */
  lemma {:induction false} SessionGoesOn(s: State, steps: seq<Step>, t: State)
    requires Reaches(s, steps, t) && s.dir.running
    requires NoneAt(if s.isComputer then "shutdown" else "logoff", s, steps)
    ensures t.dir.running
    decreases |steps|
  {
    hide Next, Enabled;
    if steps != [] {
      SessionStep(s, steps[0]);
      assert forall i :: 0 <= i < |steps[1..]| ==> steps[1..][i] == steps[i + 1];
      SessionGoesOn(Next(s, steps[0]), steps[1..], t);
    }
  }

  /** And is over once they have been, whoever marked it. */
  lemma SessionEnds(s: State, steps: seq<Step>, t: State, id: nat)
    requires Reaches(s, steps, t) && id in t.runs && t.runs[id].stage.Started?
    requires t.runs[id].lifecycle == if t.isComputer then "shutdown" else "logoff"
    ensures Reaches(s, steps + [EndRun(id)], Next(t, EndRun(id)))
    ensures Next(t, EndRun(id)).dir == t.dir.(running := false)
  {
    Append(s, steps, t, EndRun(id));
  }

  /** A policy does nothing during a session. Otherwise the old directory goes, and without entries
      that is all. */
  lemma PolicyStarts(s: State, entries: seq<Entry>)
    requires s.apply.NotApplying?
    ensures Enabled(s, StartApply(entries))
    ensures var t := Next(s, StartApply(entries));
            if s.dir.running then t == s
            else
              && !t.dir.present && !t.dir.ready && t.dir.scripts == map[] && t.dir.orders == map[]
              && (entries == [] <==> t.apply.NotApplying?) && (entries != [] ==> t.apply == Making(Listed(entries)))
              && t.runs == s.runs
  {
    hide Listed;
  }

  lemma {:induction false} Append(s: State, steps: seq<Step>, t: State, step: Step)
    requires Reaches(s, steps, t) && Enabled(t, step)
    ensures Reaches(s, steps + [step], Next(t, step))
    decreases |steps|
  {
    if steps != [] {
      Append(Next(s, steps[0]), steps[1..], t, step);
      assert (steps + [step])[1..] == steps[1..] + [step];
    } else {
      assert [] + [step] == [step] && [step][1..] == [];
    }
  }
}
