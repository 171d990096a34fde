/** The Smb/Exec arbiter: a goroutine behind four unbuffered channels that lets any number of
    clients be in one of two modes at a time. A send and the arbiter's matching receive are one
    step, so a client is blocked exactly while the arbiter's current select does not list its
    channel. */
module Arbiter {

  /** The four calls of the package; each is one send on the channel of that name. */
  datatype Op = WaitSmb | DoneSmb | WaitExec | DoneExec

  /** A client: the calls it has still to make, and the holds it has taken and not given back. */
  datatype Client = Client(todo: seq<Op>, smb: nat, exec: nat)

  type Positive = n: int | n > 0 witness 1

  /** Where the arbiter goroutine is: the outer select, the inner loop of either mode with its
      counter, or between the last doneSmb and the return of restoresigchild. */
  datatype Mode = Outer | InSmb(numSmb: Positive) | Restoring | InExec(numExec: Positive)

  /** `overridden`: libsmbclient has replaced the SIGCHLD handler since it was last restored. */
  datatype State = State(clients: seq<Client>, mode: Mode, overridden: bool)

  // ---------------------------------------------------------------- the arbiter's selects

  /** The channels listed by the select the arbiter is blocked in. */
  predicate Listens(m: Mode, op: Op) {
    match m
    case Outer => op.WaitSmb? || op.WaitExec?
    case InSmb(_) => op.WaitSmb? || op.DoneSmb?
    case Restoring => false
    case InExec(_) => op.WaitExec? || op.DoneExec?
  }

  /** What the arbiter does with a received op. An inner loop is left as soon as its
      counter is zero. */
  function Receive(m: Mode, op: Op): Mode
    requires Listens(m, op)
  {
    match m
    case Outer => if op.WaitSmb? then InSmb(1) else InExec(1)
    case InSmb(n) =>
      if op.WaitSmb? then InSmb(n + 1) else if n - 1 == 0 then Restoring else InSmb(n - 1)
    case InExec(n) =>
      if op.WaitExec? then InExec(n + 1) else if n - 1 == 0 then Outer else InExec(n - 1)
  }

  /** The client's own book-keeping of a call that has returned. */
  function Called(c: Client): Client
    requires c.todo != []
  {
    var rest := c.(todo := c.todo[1..]);
    match c.todo[0]
    case WaitSmb => rest.(smb := c.smb + 1)
    case DoneSmb => rest.(smb := if c.smb == 0 then 0 else c.smb - 1)
    case WaitExec => rest.(exec := c.exec + 1)
    case DoneExec => rest.(exec := if c.exec == 0 then 0 else c.exec - 1)
  }

  // ---------------------------------------------------------------- steps

  datatype Step = Rendezvous(i: nat) | Restore | Override(i: nat)

  predicate Enabled(s: State, step: Step) {
    match step
    case Rendezvous(i) =>
      i < |s.clients| && s.clients[i].todo != [] && Listens(s.mode, s.clients[i].todo[0])
    case Restore => s.mode.Restoring?
    case Override(i) => i < |s.clients| && s.clients[i].smb > 0
  }

  function Next(s: State, step: Step): State
    requires Enabled(s, step)
  {
    match step
    case Rendezvous(i) =>
      s.(clients := s.clients[i := Called(s.clients[i])], mode := Receive(s.mode, s.clients[i].todo[0]))
    case Restore => s.(mode := Outer, overridden := false)
    case Override(_) => s.(overridden := true)
  }

  predicate Starts(s: State) {
    s.mode == Outer && !s.overridden && forall i :: 0 <= i < |s.clients| ==> s.clients[i].smb == s.clients[i].exec == 0
  }

  /** A run, as the steps taken from s, ends in t. */
  predicate Reaches(s: State, steps: seq<Step>, t: State)
    decreases |steps|
  {
    if steps == [] then s == t
    else Enabled(s, steps[0]) && Reaches(Next(s, steps[0]), steps[1..], t)
  }

  // ---------------------------------------------------------------- what clients owe

  /** Every Done of the calls still to come gives back a hold that is there. */
  predicate Paired(c: Client)
    decreases |c.todo|
  {
    c.todo == [] ||
    ((c.todo[0].DoneSmb? ==> c.smb > 0) && (c.todo[0].DoneExec? ==> c.exec > 0) && Paired(Called(c)))
  }

  /** Paired, never asking for one mode while holding the other, and holding nothing at the end. */
  predicate Disciplined(c: Client)
    decreases |c.todo|
  {
    if c.todo == [] then c.smb == c.exec == 0
    else
      && (c.todo[0].DoneSmb? ==> c.smb > 0) && (c.todo[0].DoneExec? ==> c.exec > 0)
      && (c.todo[0].WaitExec? ==> c.smb == 0) && (c.todo[0].WaitSmb? ==> c.exec == 0)
      && Disciplined(Called(c))
  }

  lemma {:induction false} DisciplinedArePaired(c: Client)
    requires Disciplined(c)
    ensures Paired(c)
    decreases |c.todo|
  {
    if c.todo != [] { DisciplinedArePaired(Called(c)); }
  }

  predicate AllPaired(cs: seq<Client>) {
    forall i :: 0 <= i < |cs| ==> Paired(cs[i])
  }

  predicate AllDisciplined(cs: seq<Client>) {
    forall i :: 0 <= i < |cs| ==> Disciplined(cs[i])
  }

  // ---------------------------------------------------------------- counting holds

  function SmbHolds(cs: seq<Client>): nat {
    if cs == [] then 0 else cs[0].smb + SmbHolds(cs[1..])
  }

  function ExecHolds(cs: seq<Client>): nat {
    if cs == [] then 0 else cs[0].exec + ExecHolds(cs[1..])
  }

  lemma {:induction false} HoldsUpdate(cs: seq<Client>, i: nat, c: Client)
    requires i < |cs|
    ensures SmbHolds(cs[i := c]) == SmbHolds(cs) - cs[i].smb + c.smb
    ensures ExecHolds(cs[i := c]) == ExecHolds(cs) - cs[i].exec + c.exec
  {
    if i == 0 {
      assert cs[i := c][1..] == cs[1..];
    } else {
      HoldsUpdate(cs[1..], i - 1, c);
      assert cs[i := c][1..] == cs[1..][i - 1 := c];
    }
  }

  lemma {:induction false} HoldsBoundEach(cs: seq<Client>, i: nat)
    requires i < |cs|
    ensures cs[i].smb <= SmbHolds(cs) && cs[i].exec <= ExecHolds(cs)
  {
    if i > 0 { HoldsBoundEach(cs[1..], i - 1); }
  }

  /** A positive total is somebody's hold. */
  lemma {:induction false} SomeHolder(cs: seq<Client>) returns (smb: nat, exec: nat)
    ensures SmbHolds(cs) > 0 ==> smb < |cs| && cs[smb].smb > 0
    ensures ExecHolds(cs) > 0 ==> exec < |cs| && cs[exec].exec > 0
  {
    smb, exec := 0, 0;
    if cs != [] {
      var a, b := SomeHolder(cs[1..]);
      smb := if cs[0].smb > 0 then 0 else a + 1;
      exec := if cs[0].exec > 0 then 0 else b + 1;
    }
  }

  lemma {:induction false} NoHolds(cs: seq<Client>)
    requires forall i :: 0 <= i < |cs| ==> cs[i].smb == cs[i].exec == 0
    ensures SmbHolds(cs) == ExecHolds(cs) == 0
  {
    if cs != [] { NoHolds(cs[1..]); }
  }

  // ---------------------------------------------------------------- safety

  /** The arbiter's counter is the number of outstanding holds of its mode and there are none of
      the other; the handler can only be overridden in Smb mode. */
  ghost predicate Agreement(s: State) {
    && (match s.mode
        case Outer => SmbHolds(s.clients) == 0 && ExecHolds(s.clients) == 0
        case InSmb(n) => SmbHolds(s.clients) == n && ExecHolds(s.clients) == 0
        case Restoring => SmbHolds(s.clients) == 0 && ExecHolds(s.clients) == 0
        case InExec(n) => SmbHolds(s.clients) == 0 && ExecHolds(s.clients) == n)
    && (s.overridden ==> s.mode.InSmb? || s.mode.Restoring?)
  }

  /** A Done that is received gives back a hold its client has. */
  predicate GivesBack(s: State, step: Step)
    requires Enabled(s, step)
  {
    step.Rendezvous? ==>
      var c := s.clients[step.i];
      (c.todo[0].DoneSmb? ==> c.smb > 0) && (c.todo[0].DoneExec? ==> c.exec > 0)
  }

  /** Every step keeps the agreement, but a Done without a hold: that one breaks it. */
  lemma AgreementStep(s: State, step: Step)
    requires Agreement(s) && Enabled(s, step)
    ensures Agreement(Next(s, step)) <==> GivesBack(s, step)
  {
    match step {
      case Rendezvous(i) =>
        HoldsUpdate(s.clients, i, Called(s.clients[i]));
        HoldsBoundEach(s.clients, i);
      case Restore =>
      case Override(i) =>
        HoldsBoundEach(s.clients, i);
    }
  }

  /** The run receives no Done without a hold. */
  predicate PairedRun(s: State, steps: seq<Step>)
    decreases |steps|
  {
    steps != [] && Enabled(s, steps[0]) ==> GivesBack(s, steps[0]) && PairedRun(Next(s, steps[0]), steps[1..])
  }

  ghost predicate AgreementThroughout(s: State, steps: seq<Step>)
    decreases |steps|
  {
    && Agreement(s)
    && (steps != [] && Enabled(s, steps[0]) ==> AgreementThroughout(Next(s, steps[0]), steps[1..]))
  }

  lemma {:induction false} AgreementFrom(s: State, steps: seq<Step>, t: State)
    requires Agreement(s) && Reaches(s, steps, t)
    ensures AgreementThroughout(s, steps) <==> PairedRun(s, steps)
    ensures PairedRun(s, steps) ==> Agreement(t)
    decreases |steps|
  {
    hide Agreement, GivesBack, Next, Enabled;
    if steps != [] {
      AgreementStep(s, steps[0]);
      if GivesBack(s, steps[0]) { AgreementFrom(Next(s, steps[0]), steps[1..], t); }
    }
  }

  /** Over every run of any clients: counters, mode and holds agree in all its states if and only if
      the run receives no Done without a hold. */
  lemma AgreementIff(s: State, steps: seq<Step>, t: State)
    requires Starts(s) && Reaches(s, steps, t)
    ensures AgreementThroughout(s, steps) <==> PairedRun(s, steps)
  {
    NoHolds(s.clients);
    AgreementFrom(s, steps, t);
  }

  /** Clients that pair their calls have only such runs. */
  lemma {:induction false} PairedClients(s: State, steps: seq<Step>, t: State)
    requires AllPaired(s.clients) && Reaches(s, steps, t)
    ensures PairedRun(s, steps) && AllPaired(t.clients)
    decreases |steps|
  {
    if steps != [] { PairedClients(Next(s, steps[0]), steps[1..], t); }
  }

  /** Safety over every such run: nobody holds Smb while somebody holds Exec, the counters are exact,
      and an Exec hold means SIGCHLD is the original one. Asking for the other mode while holding one
      is allowed here: it blocks, it does not break. */
  lemma MutualExclusion(s: State, steps: seq<Step>, t: State)
    requires Starts(s) && Reaches(s, steps, t) && PairedRun(s, steps)
    ensures forall i, j :: 0 <= i < |t.clients| && 0 <= j < |t.clients| ==>
                             !(t.clients[i].smb > 0 && t.clients[j].exec > 0)
    ensures t.mode.InSmb? ==> t.mode.numSmb == SmbHolds(t.clients) > 0
    ensures t.mode.InExec? ==> t.mode.numExec == ExecHolds(t.clients) > 0
    ensures forall j :: 0 <= j < |t.clients| && t.clients[j].exec > 0 ==> t.mode.InExec? && !t.overridden
    ensures forall i :: 0 <= i < |t.clients| && t.clients[i].smb > 0 ==> t.mode.InSmb?
  {
    NoHolds(s.clients);
    AgreementFrom(s, steps, t);
    forall i | 0 <= i < |t.clients|
      ensures t.clients[i].smb <= SmbHolds(t.clients) && t.clients[i].exec <= ExecHolds(t.clients)
    {
      HoldsBoundEach(t.clients, i);
    }
  }

  // ---------------------------------------------------------------- progress

  ghost predicate Unfinished(s: State) {
    s.mode != Outer || exists i :: 0 <= i < |s.clients| && s.clients[i].todo != []
  }

  /** A step that is not libsmbclient's own doing. */
  predicate Advances(step: Step) { !step.Override? }

  /** Disciplined clients are never stuck: a holder can always go on in its own mode, which is why
      a nested WaitSmb is safe, and with no holder the outer select takes any request. */
  lemma SomeStep(s: State) returns (step: Step)
    requires AllDisciplined(s.clients) && Agreement(s) && Unfinished(s)
    ensures Enabled(s, step) && Advances(step)
    ensures s.mode.Restoring? ==> step == Restore
    ensures s.mode.InSmb? ==> step.Rendezvous? && s.clients[step.i].smb > 0
    ensures s.mode.InExec? ==> step.Rendezvous? && s.clients[step.i].exec > 0
    ensures s.mode.Outer? ==> step.Rendezvous?
  {
    var smb, exec := SomeHolder(s.clients);
    match s.mode {
      case Restoring => step := Restore;
      case InSmb(_) =>
        step := Rendezvous(smb);
        HoldsBoundEach(s.clients, smb);
        assert Disciplined(s.clients[smb]);
      case InExec(_) =>
        step := Rendezvous(exec);
        HoldsBoundEach(s.clients, exec);
        assert Disciplined(s.clients[exec]);
      case Outer =>
        var i :| 0 <= i < |s.clients| && s.clients[i].todo != [];
        step := Rendezvous(i);
        HoldsBoundEach(s.clients, i);
        assert Disciplined(s.clients[i]);
    }
  }

  lemma DisciplineStep(s: State, step: Step)
    requires AllDisciplined(s.clients) && Agreement(s) && Enabled(s, step)
    ensures AllDisciplined(Next(s, step).clients) && Agreement(Next(s, step))
  {
    if step.Rendezvous? { assert Disciplined(s.clients[step.i]); }
    AgreementStep(s, step);
  }

  lemma {:induction false} DisciplineAlways(s: State, steps: seq<Step>, t: State)
    requires AllDisciplined(s.clients) && Agreement(s) && Reaches(s, steps, t)
    ensures AllDisciplined(t.clients) && Agreement(t)
    decreases |steps|
  {
    if steps != [] {
      DisciplineStep(s, steps[0]);
      DisciplineAlways(Next(s, steps[0]), steps[1..], t);
    }
  }

  /** No deadlock, over every run. */
  lemma NoDeadlock(s: State, steps: seq<Step>, t: State)
    requires Starts(s) && AllDisciplined(s.clients) && Reaches(s, steps, t)
    ensures Unfinished(t) ==> exists step :: Enabled(t, step) && Advances(step)
  {
    NoHolds(s.clients);
    DisciplineAlways(s, steps, t);
    if Unfinished(t) { var step := SomeStep(t); }
  }

  /** A current Smb holder that calls WaitSmb again is let in at once. */
  lemma ReentrantSmb(s: State, steps: seq<Step>, t: State, i: nat)
    requires Starts(s) && Reaches(s, steps, t) && PairedRun(s, steps)
    requires i < |t.clients| && t.clients[i].smb > 0 && t.clients[i].todo != [] && t.clients[i].todo[0] == WaitSmb
    ensures Enabled(t, Rendezvous(i))
    ensures Next(t, Rendezvous(i)).mode == InSmb(SmbHolds(t.clients) + 1)
  {
    MutualExclusion(s, steps, t);
  }

  /** Without the discipline the claim is false: one client that asks for Exec inside its Smb
      section, all calls paired, leaves the arbiter waiting for a doneSmb that cannot come. */
  lemma UndisciplinedDeadlock()
    ensures var c := Client([WaitSmb, WaitExec, DoneExec, DoneSmb], 0, 0);
            var s, t := State([c], Outer, false), State([Called(c)], InSmb(1), false);
            Starts(s) && Paired(c) && Reaches(s, [Rendezvous(0)], t)
            && Unfinished(t) && !exists step :: Enabled(t, step) && Advances(step)
  {
    var c := Client([WaitSmb, WaitExec, DoneExec, DoneSmb], 0, 0);
    var c1 := Called(c);
    var c2 := Called(c1);
    var c3 := Called(c2);
    assert Called(c3).todo == [];
    assert Paired(c3) && Paired(c2) && Paired(c1);
    var s, t := State([c], Outer, false), State([c1], InSmb(1), false);
    assert Next(s, Rendezvous(0)) == t;
    assert Reaches(t, [], t);
    assert [Rendezvous(0)][1..] == [];
    assert t.clients[0].todo != [];
  }

  // ---------------------------------------------------------------- exactly who deadlocks

  /** The arbiter can always go on: in every reachable state with work left there is a step. */
  ghost predicate AlwaysProgress(s: State) {
    forall steps, t :: Reaches(s, steps, t) && Unfinished(t) ==> CanAdvance(t)
  }

  ghost predicate CanAdvance(s: State) { exists step :: Enabled(s, step) && Advances(step) }

  /** A holder that will not give back what it holds: it is done, or waits for the other mode. */
  predicate StuckHolder(s: State, i: nat) {
    && i < |s.clients|
    && var c := s.clients[i];
       || (c.smb > 0 && (c.todo == [] || c.todo[0].WaitExec?))
       || (c.exec > 0 && (c.todo == [] || c.todo[0].WaitSmb?))
  }

  ghost predicate Sound(s: State) { AllPaired(s.clients) && Agreement(s) }

  lemma SoundStep(s: State, step: Step)
    requires Sound(s) && Enabled(s, step)
    ensures Sound(Next(s, step))
  {
    if step.Rendezvous? { assert Paired(s.clients[step.i]); }
    AgreementStep(s, step);
  }

  /** It stays as it is, whatever the others do: its mode goes on and its call is not listened to. */
  lemma StuckStep(s: State, step: Step, i: nat)
    requires Sound(s) && StuckHolder(s, i) && Enabled(s, step)
    ensures Sound(Next(s, step)) && StuckHolder(Next(s, step), i)
  {
    HoldsBoundEach(s.clients, i);
    SoundStep(s, step);
  }

  predicate OthersHoldNothing(cs: seq<Client>, i: nat) {
    forall j :: 0 <= j < |cs| && j != i ==> cs[j].smb == cs[j].exec == 0
  }

  lemma {:induction false} OnlyHolder(cs: seq<Client>, i: nat)
    requires i < |cs| && OthersHoldNothing(cs, i)
    ensures SmbHolds(cs) == cs[i].smb && ExecHolds(cs) == cs[i].exec
  {
    var none := cs[i := Client([], 0, 0)];
    NoHolds(none);
    HoldsUpdate(cs, i, Client([], 0, 0));
  }

  predicate Settling(m: Mode) { m.Restoring? }

  /** A paired client that is not disciplined, run alone, gets to where it is a stuck holder. */
  lemma {:induction false} RunAlone(s: State, i: nat) returns (steps: seq<Step>, t: State)
    requires Sound(s) && i < |s.clients| && !Disciplined(s.clients[i]) && OthersHoldNothing(s.clients, i)
    ensures Reaches(s, steps, t) && Sound(t) && StuckHolder(t, i)
    decreases |s.clients[i].todo|, Settling(s.mode)
  {
    var c := s.clients[i];
    assert Paired(c);
    OnlyHolder(s.clients, i);
    if StuckHolder(s, i) {
      steps, t := [], s;
    } else {
      var step := if s.mode.Restoring? then Restore else Rendezvous(i);
      SoundStep(s, step);
      var rest;
      rest, t := RunAlone(Next(s, step), i);
      steps := [step] + rest;
      assert steps[1..] == rest;
    }
  }

  /** Whatever else there is to do, it comes to an end. */
  lemma {:induction false} Exhaust(s: State, i: nat) returns (steps: seq<Step>, t: State)
    requires Sound(s) && StuckHolder(s, i)
    ensures Reaches(s, steps, t) && Sound(t) && StuckHolder(t, i) && !CanAdvance(t)
    decreases Remaining(s.clients), Settling(s.mode)
  {
    if CanAdvance(s) {
      var step :| Enabled(s, step) && Advances(step);
      StuckStep(s, step, i);
      if step.Rendezvous? { RemainingUpdate(s.clients, step.i, Called(s.clients[step.i])); }
      var rest;
      rest, t := Exhaust(Next(s, step), i);
      steps := [step] + rest;
      assert steps[1..] == rest;
    } else {
      steps, t := [], s;
    }
  }

  lemma {:induction false} ReachesConcat(s: State, first: seq<Step>, t: State, second: seq<Step>, u: State)
    requires Reaches(s, first, t) && Reaches(t, second, u)
    ensures Reaches(s, first + second, u)
    decreases |first|
  {
    if first == [] {
      assert first + second == second;
    } else {
      ReachesConcat(Next(s, first[0]), first[1..], t, second, u);
      assert (first + second)[1..] == first[1..] + second;
    }
  }

  lemma UndisciplinedGetStuck(s: State, i: nat)
    requires Starts(s) && AllPaired(s.clients) && i < |s.clients| && !Disciplined(s.clients[i])
    ensures !AlwaysProgress(s)
  {
    NoHolds(s.clients);
    var first, t := RunAlone(s, i);
    var second, u := Exhaust(t, i);
    ReachesConcat(s, first, t, second, u);
    HoldsBoundEach(u.clients, i);
    assert Unfinished(u);
  }

  /** Main result: clients that pair their calls can always go on if and only if each of them is
      disciplined. */
  lemma ProgressIff(s: State)
    requires Starts(s)
    ensures AllPaired(s.clients) && AlwaysProgress(s) <==> AllDisciplined(s.clients)
  {
    if AllDisciplined(s.clients) {
      forall i | 0 <= i < |s.clients| ensures Paired(s.clients[i]) { DisciplinedArePaired(s.clients[i]); }
      forall steps, t | Reaches(s, steps, t) && Unfinished(t) ensures CanAdvance(t) {
        NoDeadlock(s, steps, t);
      }
    } else if AllPaired(s.clients) {
      var i :| 0 <= i < |s.clients| && !Disciplined(s.clients[i]);
      UndisciplinedGetStuck(s, i);
    }
  }

  /** One client that only takes a hold and one that only gives one back. */
  function Rescue(): State { State([Client([WaitSmb], 0, 0), Client([DoneSmb], 0, 0)], Outer, false) }

  predicate Rescuing(s: State) {
    || s.(overridden := false) == Rescue()
    || (s.clients == [Client([], 1, 0), Client([DoneSmb], 0, 0)] && s.mode == InSmb(1))
    || (s.clients == [Client([], 1, 0), Client([], 0, 0)] && (s.mode.Restoring? || s.mode.Outer?))
  }

  lemma RescuingStep(s: State, step: Step)
    requires Rescuing(s) && Enabled(s, step)
    ensures Rescuing(Next(s, step))
  {
    assert Called(Client([WaitSmb], 0, 0)) == Client([], 1, 0) && Called(Client([DoneSmb], 0, 0)) == Client([], 0, 0);
    if step.Rendezvous? {
      var cs := Next(s, step).clients;
      assert |cs| == 2 && cs == [cs[0], cs[1]];
    }
  }

  lemma {:induction false} RescuingAlways(s: State, steps: seq<Step>, t: State)
    requires Rescuing(s) && Reaches(s, steps, t)
    ensures Rescuing(t)
    decreases |steps|
  {
    if steps != [] {
      RescuingStep(s, steps[0]);
      RescuingAlways(Next(s, steps[0]), steps[1..], t);
    }
  }

  /** Without pairing that is not so: one client may give back what another forgets. */
  lemma UnpairedMayProgress()
    ensures AlwaysProgress(Rescue()) && !AllDisciplined(Rescue().clients)
  {
    var s := Rescue();
    forall steps, t | Reaches(s, steps, t) && Unfinished(t) ensures CanAdvance(t) {
      RescuingAlways(s, steps, t);
      var step := if t.mode.Outer? then Rendezvous(0) else if t.mode.InSmb? then Rendezvous(1) else Restore;
      assert Enabled(t, step);
    }
    assert !Disciplined(s.clients[1]);
  }

  // ---------------------------------------------------------------- the goroutine

  /** Calls still to be made: each rendezvous takes one away. */
  function Remaining(cs: seq<Client>): nat {
    if cs == [] then 0 else |cs[0].todo| + Remaining(cs[1..])
  }

  lemma {:induction false} RemainingUpdate(cs: seq<Client>, i: nat, c: Client)
    requires i < |cs|
    ensures Remaining(cs[i := c]) == Remaining(cs) - |cs[i].todo| + |c.todo|
  {
    if i == 0 {
      assert cs[i := c][1..] == cs[1..];
    } else {
      RemainingUpdate(cs[1..], i - 1, c);
      assert cs[i := c][1..] == cs[1..][i - 1 := c];
    }
  }

  /** A run of disciplined clients so far. */
  ghost predicate OnTrack(s0: State, steps: seq<Step>, s: State) {
    AllDisciplined(s.clients) && Agreement(s) && |s.clients| == |s0.clients| && Reaches(s0, steps, s)
  }

  lemma Extend(s0: State, steps: seq<Step>, s: State, step: Step)
    requires OnTrack(s0, steps, s) && Enabled(s, step)
    ensures OnTrack(s0, steps + [step], Next(s, step))
    ensures Remaining(Next(s, step).clients) == Remaining(s.clients) - if step.Rendezvous? then 1 else 0
  {
    DisciplineStep(s, step);
    assert [step][1..] == [];
    ReachesConcat(s0, steps, s, [step], Next(s, step));
    if step.Rendezvous? { RemainingUpdate(s.clients, step.i, Called(s.clients[step.i])); }
  }

  predicate Ready(cs: seq<Client>, m: Mode, i: nat) {
    i < |cs| && cs[i].todo != [] && Listens(m, cs[i].todo[0])
  }

  /** The select of a mode: some client's send is received, the scheduler chooses whose. */
  method Select(s0: State, ghost steps: seq<Step>, s: State) returns (i: nat)
    requires OnTrack(s0, steps, s) && Unfinished(s) && !s.mode.Restoring?
    ensures Ready(s.clients, s.mode, i) && OnTrack(s0, steps + [Rendezvous(i)], Next(s, Rendezvous(i)))
    ensures Remaining(Next(s, Rendezvous(i)).clients) < Remaining(s.clients)
  {
    ghost var some := SomeStep(s);
    assert Ready(s.clients, s.mode, some.i);
    i :| 0 <= i < |s.clients| && Ready(s.clients, s.mode, i);
    assert Ready(s.clients, s.mode, i);
    Extend(s0, steps, s, Rendezvous(i));
  }

  /** The Smb branch: the inner loop, then the restoration of SIGCHLD. */
  method SmbMode(s0: State, ghost steps0: seq<Step>, s: State) returns (t: State, ghost steps: seq<Step>)
    requires OnTrack(s0, steps0, s) && s.mode == InSmb(1)
    ensures OnTrack(s0, steps, t) && t.mode == Outer && !t.overridden && Remaining(t.clients) <= Remaining(s.clients)
  {
    t, steps := s, steps0;
    var numSmb := 1;
    while true
      invariant OnTrack(s0, steps, t) && numSmb > 0 && t.mode == InSmb(numSmb)
      invariant Remaining(t.clients) <= Remaining(s.clients)
      decreases Remaining(t.clients)
    {
      // a running Smb section may take the handler at any time
      if * {
        ghost var smb, _ := SomeHolder(t.clients);
        Extend(s0, steps, t, Override(smb));
        t, steps := t.(overridden := true), steps + [Override(smb)];
      }
      var i := Select(s0, steps, t);
      if t.clients[i].todo[0] == WaitSmb {
        numSmb := numSmb + 1;
      } else {
        numSmb := numSmb - 1;
      }
      t, steps := Next(t, Rendezvous(i)), steps + [Rendezvous(i)];
      if numSmb == 0 {
        break;
      }
    }
    Extend(s0, steps, t, Restore);
    t, steps := t.(mode := Outer, overridden := false), steps + [Restore];
  }

  /** The Exec branch. */
  method ExecMode(s0: State, ghost steps0: seq<Step>, s: State) returns (t: State, ghost steps: seq<Step>)
    requires OnTrack(s0, steps0, s) && s.mode == InExec(1)
    ensures OnTrack(s0, steps, t) && t.mode == Outer && t.overridden == s.overridden
    ensures Remaining(t.clients) <= Remaining(s.clients)
  {
    t, steps := s, steps0;
    var numExec := 1;
    while true
      invariant OnTrack(s0, steps, t) && numExec > 0 && t.mode == InExec(numExec) && t.overridden == s.overridden
      invariant Remaining(t.clients) <= Remaining(s.clients)
      decreases Remaining(t.clients)
    {
      var i := Select(s0, steps, t);
      if t.clients[i].todo[0] == WaitExec {
        numExec := numExec + 1;
      } else {
        numExec := numExec - 1;
      }
      t, steps := Next(t, Rendezvous(i)), steps + [Rendezvous(i)];
      if numExec == 0 {
        break;
      }
    }
  }

  /** The arbiter's loop against a set of clients, every rendezvous chosen by the scheduler. It
      returns, so with disciplined clients every run ends with every call made, no hold left and
      SIGCHLD restored. The ghost `steps` is the run; it is one of those the lemmas speak of. */
  method Arbitrate(initial: seq<Client>) returns (t: State, ghost steps: seq<Step>)
    requires AllDisciplined(initial)
    requires forall i :: 0 <= i < |initial| ==> initial[i].smb == initial[i].exec == 0
    ensures Reaches(State(initial, Outer, false), steps, t)
    ensures t.mode == Outer && !t.overridden && |t.clients| == |initial|
    ensures forall i :: 0 <= i < |t.clients| ==> t.clients[i] == Client([], 0, 0)
  {
    ghost var s0 := State(initial, Outer, false);
    NoHolds(initial);
    t, steps := State(initial, Outer, false), [];
    while exists i :: 0 <= i < |t.clients| && t.clients[i].todo != []
      invariant OnTrack(s0, steps, t) && t.mode == Outer && !t.overridden
      decreases Remaining(t.clients)
    {
      var i := Select(State(initial, Outer, false), steps, t);
      t, steps := Next(t, Rendezvous(i)), steps + [Rendezvous(i)];
      if t.mode.InSmb? {
        t, steps := SmbMode(State(initial, Outer, false), steps, t);
      } else {
        t, steps := ExecMode(State(initial, Outer, false), steps, t);
      }
    }
    forall i | 0 <= i < |t.clients| ensures t.clients[i] == Client([], 0, 0) {
      assert Disciplined(t.clients[i]);
    }
  }
}
