/** The daemon's idling timeout and shutdown: connection hooks, timeout changes and quits on one
    side, the keepAlive goroutine on the other, meeting on an unbuffered channel. Every step below is
    one that no other goroutine can be seen in the middle of. */
module Idler {

  datatype Op = StopTimeout | StartTimeout | QuitGracefully | QuitNow

  /** Armed: running. Fired: expired, its tick not received yet. Spent: stopped, or its tick received. */
  datatype Timer = Armed | Fired | Spent

  /** What a sender found in the operations field when its select began. Sending on the nil channel
      never succeeds; sending on the live one panics once that channel is closed. */
  datatype Chan = Live | Nil

  /** Who holds the mutex, and how far it is. `send` is the operation still to be sent, `then` the
      one after it (only ChangeTimeout sends two). */
  datatype Holder =
    | Free
    | Sending(send: Op, on: Chan, andThen: seq<Op>)
    | Closing
    | Clearing

  /** The keepAlive goroutine. Draining waits for the tick of a timer that Stop found not running. */
  datatype Loop =
    | Selecting
    | Handling(op: Op)
    | Draining
    | Stopping(force: bool)
    | Leaving
    | Gone

  /** The once-guarded Quit. Later calls wait for the first and do nothing. */
  datatype Shutdown = NotYet | Sent(op: Op, on: Chan) | ListenerClosed(force: bool) | Over

  datatype State = State(
    currentRequests: int,
    timer: Timer,
    field: Chan,          // the operations field
    closed: bool,         // the channel itself
    holder: Holder,
    loop: Loop,
    shutdown: Shutdown,
    stops: nat,           // how often keepAlive has stopped the server
    listenerCloses: nat,
    spawned: nat,         // Quit(true) goroutines started by expiries and not run yet
    panicked: bool)

  function Init(): State {
    State(0, Armed, Live, false, Free, Selecting, NotYet, 0, 0, 0, false)
  }

  datatype Step =
    | New | Done | ChangeTimeout           // a hook takes the mutex
    | Rendezvous                           // the mutex holder's send is received
    | Drop                                 // the mutex holder's send times out
    | Quit(force: bool)                    // first call of Quit, from outside
    | SpawnedQuit                          // a Quit(true) started by an expiry runs
    | QuitSend                             // Quit comes to its select
    | QuitRendezvous | QuitDrop
    | Expire                               // the timer runs out
    | Tick                                 // keepAlive receives the tick
    | Handle                               // keepAlive acts on an operation
    | Drain                                // keepAlive gets the tick it waits for
    | StopServer                           // keepAlive stops the server and leaves its loop
    | TakeMutex | Close | Clear            // keepAlive's last steps

  predicate Enabled(s: State, step: Step) {
    !s.panicked &&
    match step
    case New => s.holder.Free?
    case Done => s.holder.Free?
    case ChangeTimeout => s.holder.Free?
    // a send on a closed channel is a step as well: it panics
    case Rendezvous => s.holder.Sending? && s.holder.on.Live? && (s.loop.Selecting? || s.closed)
    case Drop => s.holder.Sending?
    case Quit(_) => s.shutdown.NotYet?
    case SpawnedQuit => s.spawned > 0 && (s.shutdown.NotYet? || s.shutdown.Over?)
    case QuitSend => s.shutdown.ListenerClosed?
    case QuitRendezvous => s.shutdown.Sent? && s.shutdown.on.Live? && (s.loop.Selecting? || s.closed)
    case QuitDrop => s.shutdown.Sent?
    case Expire => s.timer.Armed?
    case Tick => s.loop.Selecting? && s.timer.Fired?
    case Handle => s.loop.Handling?
    case Drain => s.loop.Draining? && s.timer.Fired?
    case StopServer => s.loop.Stopping?
    case TakeMutex => s.loop.Leaving? && s.holder.Free?
    case Close => s.holder.Closing?
    case Clear => s.holder.Clearing?
  }

  /** The mutex holder's send is over, received or dropped. */
  function NextSend(s: State): Holder
    requires s.holder.Sending?
  {
    if s.holder.andThen == [] then Free else Sending(s.holder.andThen[0], s.field, s.holder.andThen[1..])
  }

  function QuitStarts(s: State, force: bool): State {
    s.(listenerCloses := s.listenerCloses + 1, shutdown := ListenerClosed(force))
  }

  function Next(s: State, step: Step): State
    requires Enabled(s, step)
  {
    match step
    case New =>
      var n := s.currentRequests + 1;
      if n != 1 then s.(currentRequests := n)
      else s.(currentRequests := n, holder := Sending(StopTimeout, s.field, []))
    case Done =>
      var n := s.currentRequests - 1;
      if n > 0 then s.(currentRequests := n)
      else s.(currentRequests := n, holder := Sending(StartTimeout, s.field, []))
    case ChangeTimeout => s.(holder := Sending(StopTimeout, s.field, [StartTimeout]))
    case Rendezvous =>
      if s.closed then s.(panicked := true)
      else s.(loop := Handling(s.holder.send), holder := NextSend(s))
    case Drop => s.(holder := NextSend(s))
    case Quit(force) => QuitStarts(s, force)
    case SpawnedQuit =>
      var t := s.(spawned := s.spawned - 1);
      if s.shutdown.NotYet? then QuitStarts(t, true) else t
    case QuitSend => s.(shutdown := Sent(if s.shutdown.force then QuitNow else QuitGracefully, s.field))
    case QuitRendezvous =>
      if s.closed then s.(panicked := true)
      else s.(loop := Handling(s.shutdown.op), shutdown := Over)
    case QuitDrop => s.(shutdown := Over)
    case Expire => s.(timer := Fired)
    case Tick => s.(timer := Spent, spawned := s.spawned + 1)
    case Handle =>
      (match s.loop.op
       // Stop is false, and the tick waited for, only if the timer is spent already
       case StopTimeout => if s.timer.Spent? then s.(loop := Draining) else s.(timer := Spent, loop := Selecting)
       case StartTimeout => s.(timer := Armed, loop := Selecting)
       case QuitGracefully => s.(loop := Stopping(false))
       case QuitNow => s.(loop := Stopping(true)))
    case Drain => s.(timer := Spent, loop := Selecting)
    case StopServer => s.(stops := s.stops + 1, loop := Leaving)
    case TakeMutex => s.(holder := Closing)
    case Close => if s.closed then s.(panicked := true) else s.(closed := true, holder := Clearing)
    case Clear => s.(field := Nil, holder := Free, loop := Gone)
  }

  predicate Reaches(s: State, steps: seq<Step>, t: State)
    decreases |steps|
  {
    if steps == [] then s == t
    else Enabled(s, steps[0]) && Reaches(Next(s, steps[0]), steps[1..], t)
  }

  // ---------------------------------------------------------------- no panic, one stop

  predicate IsQuit(op: Op) { op.QuitGracefully? || op.QuitNow? }

  /** The loop has received the quit that ends it. */
  predicate Ending(l: Loop) {
    (l.Handling? && IsQuit(l.op)) || l.Stopping? || l.Leaving? || l.Gone?
  }

  /** Only Quit ends the loop, and it sends once; only the loop closes the channel, with the mutex, so
      no hook is waiting on it then, and Quit is over. The tick the loop waits for does not come. */
  predicate Safe(s: State) {
    && !s.panicked
    && (Ending(s.loop) ==> s.shutdown.Over?)
    && (s.holder.Sending? ==> !IsQuit(s.holder.send) && (forall op :: op in s.holder.andThen ==> !IsQuit(op))
                              && (s.holder.on.Live? ==> !s.closed))
    && (s.holder.Closing? ==> s.loop.Leaving? && !s.closed)
    && (s.holder.Clearing? ==> s.loop.Leaving? && s.closed)
    && (s.closed ==> s.loop.Gone? || s.holder.Clearing?)
    && (s.loop.Gone? ==> s.field.Nil?)
    && (s.field.Nil? ==> s.loop.Gone?)
    && (s.shutdown.Sent? ==> IsQuit(s.shutdown.op) && s.shutdown.on.Live?)
    && (s.loop.Draining? ==> s.timer.Spent?)
    && s.stops == (if s.loop.Leaving? || s.loop.Gone? then 1 else 0)
    && s.listenerCloses == (if s.shutdown.NotYet? then 0 else 1)
  }

  lemma SafeStep(s: State, step: Step)
    requires Safe(s) && Enabled(s, step)
    ensures Safe(Next(s, step))
  {
    match step
    case Rendezvous =>
    case Drop =>
    case _ =>
  }

  lemma {:induction false} SafeAlways(s: State, steps: seq<Step>, t: State)
    requires Safe(s) && Reaches(s, steps, t)
    ensures Safe(t)
    decreases |steps|
  {
    if steps != [] {
      SafeStep(s, steps[0]);
      SafeAlways(Next(s, steps[0]), steps[1..], t);
    }
  }

  /** Over all interleavings: nothing sends on a closed channel or closes it again, the server is
      stopped at most once by keepAlive, and the listener channel is closed at most once. */
  lemma NeverPanics(steps: seq<Step>, t: State)
    requires Reaches(Init(), steps, t)
    ensures !t.panicked && t.stops <= 1 && t.listenerCloses <= 1
    ensures t.closed ==> t.stops == 1 && t.shutdown.Over?
    ensures t.holder.Sending? && t.holder.on.Live? ==> !t.closed
    ensures t.shutdown.Sent? && t.shutdown.on.Live? ==> !t.closed
  {
    SafeAlways(Init(), steps, t);
  }

  // ---------------------------------------------------------------- the timer

  /** Runs with paired calls in which no send is dropped and the timer does not run out. */
  predicate Calm(s: State, step: Step) {
    match step
    case Done => s.currentRequests > 0
    case Drop => false
    case Expire => false
    case _ => true
  }

  predicate ReachesCalmly(s: State, steps: seq<Step>, t: State)
    decreases |steps|
  {
    if steps == [] then s == t
    else Enabled(s, steps[0]) && Calm(s, steps[0]) && ReachesCalmly(Next(s, steps[0]), steps[1..], t)
  }

  /** The timer once the loop has acted on the operation it has just received. */
  function TimerToBe(s: State): Timer {
    if s.loop == Handling(StopTimeout) then Spent
    else if s.loop == Handling(StartTimeout) then Armed
    else s.timer
  }

  predicate Idle(s: State) { s.currentRequests == 0 }

  predicate TimerTracks(s: State) {
    && s.currentRequests >= 0 && !s.timer.Fired? && !s.loop.Draining?
    && (s.loop == Handling(StopTimeout) ==> s.timer.Armed?)
    && (match s.holder
        case Sending(op, _, rest) =>
          // the one step behind: what is still to be sent will bring the timer to where it belongs
          || (op.StopTimeout? && rest == [] && s.currentRequests == 1 && TimerToBe(s).Armed?)
          || (op.StartTimeout? && rest == [] && s.currentRequests == 0 && TimerToBe(s).Spent?)
          || (op.StopTimeout? && rest == [StartTimeout] && s.currentRequests == 0 && TimerToBe(s).Armed?)
        case _ => TimerToBe(s) == if Idle(s) then Armed else Spent)
  }

  /** A timeout change on its way to the wait for a tick of a stopped timer. */
  predicate Hanging(s: State) {
    s.holder.Sending? &&
    ( || (s.holder.send.StopTimeout? && s.holder.andThen == [StartTimeout] && TimerToBe(s).Spent?)
      || (s.holder.send.StartTimeout? && s.holder.andThen == [] && s.timer.Spent?
          && (s.loop == Handling(StopTimeout) || s.loop.Draining?)))
  }

  lemma HangingStep(s: State, step: Step)
    requires Safe(s) && Hanging(s) && Enabled(s, step) && !step.Drop?
    ensures Hanging(Next(s, step))
  {
    match step
    case Rendezvous =>
      assert s.holder.andThen == [StartTimeout] ==> s.holder.andThen[1..] == [];
    case _ =>
  }

  lemma TimerStep(s: State, step: Step)
    requires Safe(s) && TimerTracks(s) && Enabled(s, step) && Calm(s, step)
    ensures step.ChangeTimeout? && s.currentRequests > 0 ==> Hanging(Next(s, step))
    ensures !(step.ChangeTimeout? && s.currentRequests > 0) ==> TimerTracks(Next(s, step))
  {
    match step
    case Rendezvous =>
      if s.holder.andThen == [StartTimeout] { assert s.holder.andThen[1..] == []; }
    case _ =>
  }

  lemma {:induction false} TimerAlways(s: State, steps: seq<Step>, t: State)
    requires (TimerTracks(s) || Hanging(s)) && Safe(s) && ReachesCalmly(s, steps, t)
    ensures (TimerTracks(t) || Hanging(t)) && Safe(t)
    decreases |steps|
  {
    hide Safe, Next, Enabled, TimerTracks, Hanging;
    if steps != [] {
      if TimerTracks(s) { TimerStep(s, steps[0]); } else { HangingStep(s, steps[0]); }
      SafeStep(s, steps[0]);
      TimerAlways(Next(s, steps[0]), steps[1..], t);
    }
  }

  /** Over every calm run, whatever timeout changes there are: whenever the mutex is free, the timer
      is, or is about to be made by the operation in keepAlive's hands, armed exactly when no request
      is open; with keepAlive back in its select it is. */
  lemma TimerArmedIffIdle(steps: seq<Step>, t: State)
    requires ReachesCalmly(Init(), steps, t) && t.holder.Free?
    ensures TimerToBe(t).Armed? <==> t.currentRequests == 0
    ensures t.loop.Selecting? ==> (t.timer.Armed? <==> t.currentRequests == 0)
  {
    TimerAlways(Init(), steps, t);
  }

  /** An expiry, a dropped send and a Done without its New each break it. */
  lemma CalmIsNeeded()
    ensures var t := Next(Init(), Expire);
            t.holder.Free? && t.loop.Selecting? && t.currentRequests == 0 && !t.timer.Armed?
    ensures var t := Next(Next(Init(), New), Drop);
            t.holder.Free? && t.loop.Selecting? && t.currentRequests == 1 && t.timer.Armed?
    ensures var t := Next(Next(Next(Init(), Done), Rendezvous), Handle);
            t.holder.Free? && t.loop.Selecting? && t.currentRequests == -1 && t.timer.Armed?
  {}

  // ---------------------------------------------------------------- timeout changes

  /** Runs in which no send is dropped. */
  predicate ReachesUndropped(s: State, steps: seq<Step>, t: State)
    decreases |steps|
  {
    if steps == [] then s == t
    else Enabled(s, steps[0]) && !steps[0].Drop? && ReachesUndropped(Next(s, steps[0]), steps[1..], t)
  }

  /** In no such run is the mutex free again. */
  ghost predicate NeverFree(s: State) {
    forall steps, t :: ReachesUndropped(s, steps, t) ==> !t.holder.Free?
  }

  /** A sender that found the loop on its way out waits until its send is dropped, and so does one
      that hangs. */
  lemma {:induction false} Stuck(s: State, steps: seq<Step>, t: State)
    requires Safe(s) && ReachesUndropped(s, steps, t)
    requires Hanging(s) || (s.holder.Sending? && Ending(s.loop))
    ensures t.holder.Sending?
    decreases |steps|
  {
    if steps != [] {
      SafeStep(s, steps[0]);
      if Hanging(s) { HangingStep(s, steps[0]); }
      Stuck(Next(s, steps[0]), steps[1..], t);
    }
  }

  lemma Prepend(s: State, step: Step, rest: seq<Step>, t: State)
    requires Enabled(s, step) && !step.Drop? && ReachesUndropped(Next(s, step), rest, t)
    ensures ReachesUndropped(s, [step] + rest, t)
  {
    assert ([step] + rest)[1..] == rest;
  }

  /** Stop and start are both received: the run of a timeout change that comes to its end. */
  lemma ChangeCompletes(s: State) returns (steps: seq<Step>, t: State)
    requires Safe(s) && s.holder.Free? && !TimerToBe(s).Spent? && !Ending(s.loop)
    ensures ReachesUndropped(Next(s, ChangeTimeout), steps, t) && t.holder.Free?
  {
    var s1 := Next(s, ChangeTimeout);
    var s2 := if s1.loop.Selecting? then s1 else Next(s1, Handle);
    var s3 := Next(s2, Rendezvous);
    var s4 := Next(s3, Handle);
    t := Next(s4, Rendezvous);
    Prepend(s4, Rendezvous, [], t);
    Prepend(s3, Handle, [Rendezvous] + [], t);
    Prepend(s2, Rendezvous, [Handle] + ([Rendezvous] + []), t);
    steps := [Rendezvous] + ([Handle] + ([Rendezvous] + []));
    if !s1.loop.Selecting? {
      Prepend(s1, Handle, steps, t);
      steps := [Handle] + steps;
    }
  }

  /** Exactly which timeout changes, in any run, give the mutex back by dropping a send alone: those
      that find the timer stopped, or about to be, and those that find the loop on its way out. */
  lemma ChangeHangsIff(steps: seq<Step>, s: State)
    requires Reaches(Init(), steps, s) && Enabled(s, ChangeTimeout)
    ensures NeverFree(Next(s, ChangeTimeout)) <==> TimerToBe(s).Spent? || Ending(s.loop)
  {
    SafeAlways(Init(), steps, s);
    var changed := Next(s, ChangeTimeout);
    SafeStep(s, ChangeTimeout);
    if TimerToBe(s).Spent? || Ending(s.loop) {
      forall more, t | ReachesUndropped(changed, more, t) ensures !t.holder.Free? { Stuck(changed, more, t); }
    } else {
      var more, t := ChangeCompletes(s);
      assert ReachesUndropped(changed, more, t);
      assert !NeverFree(changed);
    }
  }

  lemma {:induction false} CalmIsARun(s: State, steps: seq<Step>, t: State)
    requires ReachesCalmly(s, steps, t)
    ensures Reaches(s, steps, t)
    decreases |steps|
  {
    if steps != [] { CalmIsARun(Next(s, steps[0]), steps[1..], t); }
  }

  /** In calm runs those are the changes during a request. */
  lemma CalmChangeHangsIff(steps: seq<Step>, s: State)
    requires ReachesCalmly(Init(), steps, s) && Enabled(s, ChangeTimeout)
    ensures NeverFree(Next(s, ChangeTimeout)) <==> s.currentRequests > 0 || Ending(s.loop)
  {
    CalmIsARun(Init(), steps, s);
    ChangeHangsIff(steps, s);
    TimerAlways(Init(), steps, s);
  }

  /** keepAlive waits for the tick of a timer that is not running. */
  predicate Deadlocked(s: State) { Safe(s) && s.loop.Draining? }

  /** Nothing ends that wait: over all runs, with drops, expiries and quits, keepAlive receives no
      operation and no quit any more, so the server is never stopped. */
  lemma {:induction false} DeadlockIsForever(s: State, steps: seq<Step>, t: State)
    requires Deadlocked(s) && Reaches(s, steps, t)
    ensures Deadlocked(t) && t.timer.Spent? && t.stops == 0 && !t.closed
    decreases |steps|
  {
    if steps != [] {
      SafeStep(s, steps[0]);
      DeadlockIsForever(Next(s, steps[0]), steps[1..], t);
    }
  }

  /** A timeout change that finds the timer stopped leads there as soon as its stop is received: what
      keepAlive does next is to wait. */
  lemma DeadlockFromChange(s: State)
    requires Safe(s) && Enabled(s, ChangeTimeout) && s.timer.Spent? && s.loop.Selecting?
    ensures var received := Next(Next(s, ChangeTimeout), Rendezvous);
            Enabled(received, Handle) && Deadlocked(Next(received, Handle))
  {
    SafeStep(s, ChangeTimeout);
    SafeStep(Next(s, ChangeTimeout), Rendezvous);
    SafeStep(Next(Next(s, ChangeTimeout), Rendezvous), Handle);
  }

  /** Every timeout change of the run comes while no request is open. */
  predicate ChangesWhenIdle(s: State, steps: seq<Step>)
    decreases |steps|
  {
    steps != [] && Enabled(s, steps[0]) ==>
      (steps[0].ChangeTimeout? ==> Idle(s)) && ChangesWhenIdle(Next(s, steps[0]), steps[1..])
  }

  lemma {:induction false} TracksWhenIdle(s: State, steps: seq<Step>, t: State)
    requires Safe(s) && TimerTracks(s) && ReachesCalmly(s, steps, t) && ChangesWhenIdle(s, steps)
    ensures TimerTracks(t)
    decreases |steps|
  {
    hide Safe, Next, Enabled, Calm, TimerTracks, Hanging;
    if steps != [] {
      TimerStep(s, steps[0]);
      SafeStep(s, steps[0]);
      TracksWhenIdle(Next(s, steps[0]), steps[1..], t);
    }
  }

  /** And in calm runs nothing else leads there. */
  lemma DeadlockNeedsChange(steps: seq<Step>, t: State)
    requires ReachesCalmly(Init(), steps, t) && Deadlocked(t)
    ensures !ChangesWhenIdle(Init(), steps)
  {
    if ChangesWhenIdle(Init(), steps) { TracksWhenIdle(Init(), steps, t); }
  }

  /** Such a run from the start. */
  lemma ChangeDuringRequest()
    ensures exists steps, t ::
              ReachesUndropped(Init(), steps, t) && t.currentRequests == 1 && Deadlocked(t) && t.shutdown.NotYet?
  {
    var s3 := Init().(currentRequests := 1, timer := Spent);
    FirstRequest();
    ChangeOnSpent(s3);
    var s6 := s3.(holder := Sending(StartTimeout, Live, []), loop := Draining);
    hide ReachesUndropped;
    var rest := [ChangeTimeout] + ([Rendezvous] + ([Handle] + []));
    FirstRequestThen(rest, s6);
  }

  /** A request comes and its stop of the timer is received. */
  lemma FirstRequest()
    ensures Next(Next(Next(Init(), New), Rendezvous), Handle) == Init().(currentRequests := 1, timer := Spent)
  {}

  lemma FirstRequestThen(rest: seq<Step>, t: State)
    requires ReachesUndropped(Init().(currentRequests := 1, timer := Spent), rest, t)
    ensures ReachesUndropped(Init(), [New] + ([Rendezvous] + ([Handle] + rest)), t)
  {
    hide ReachesUndropped;
    FirstRequest();
    var s1 := Next(Init(), New);
    var s2 := Next(s1, Rendezvous);
    Prepend(s2, Handle, rest, t);
    Prepend(s1, Rendezvous, [Handle] + rest, t);
    Prepend(Init(), New, [Rendezvous] + ([Handle] + rest), t);
  }

  lemma ChangeOnSpent(s: State)
    requires s == Init().(currentRequests := 1, timer := Spent)
    ensures ReachesUndropped(s, [ChangeTimeout] + ([Rendezvous] + ([Handle] + [])),
                             s.(holder := Sending(StartTimeout, Live, []), loop := Draining))
  {
    var s4 := Next(s, ChangeTimeout);
    var s5 := Next(s4, Rendezvous);
    var s6 := Next(s5, Handle);
    assert ReachesUndropped(s6, [], s6);
    hide ReachesUndropped;
    assert [StartTimeout][1..] == [];
    Prepend(s5, Handle, [], s6);
    Prepend(s4, Rendezvous, [Handle] + [], s6);
    Prepend(s, ChangeTimeout, [Rendezvous] + ([Handle] + []), s6);
  }

  // ---------------------------------------------------------------- a quit can be lost

  /** Quit is over and keepAlive has not received it. */
  predicate Orphaned(s: State) {
    Safe(s) && s.shutdown.Over? && !Ending(s.loop)
  }

  /** If keepAlive is not back in its select in time, Quit gives up, and being guarded by the once it
      never tries again: from then on no run, with however many further quits and expiries, stops the
      server or closes the channel. */
  lemma {:induction false} LostQuitIsForever(s: State, steps: seq<Step>, t: State)
    requires Orphaned(s) && Reaches(s, steps, t)
    ensures Orphaned(t) && t.stops == 0 && !t.closed
    decreases |steps|
  {
    if steps != [] {
      SafeStep(s, steps[0]);
      LostQuitIsForever(Next(s, steps[0]), steps[1..], t);
    }
  }

  /** From the start there is a run that loses the quit. */
  lemma LostQuit()
    ensures exists steps, t :: Reaches(Init(), steps, t) && Orphaned(t)
  {
    ChangeDuringRequest();
    var steps, t :| ReachesUndropped(Init(), steps, t) && t.currentRequests == 1 && Deadlocked(t) && t.shutdown.NotYet?;
    var t1 := Next(t, Quit(false));
    var t2 := Next(t1, QuitSend);
    UndroppedIsARun(Init(), steps, t);
    OneMore(Init(), steps, t, Quit(false));
    OneMore(Init(), steps + [Quit(false)], t1, QuitSend);
    OneMore(Init(), steps + [Quit(false)] + [QuitSend], t2, QuitDrop);
    SafeStep(t, Quit(false));
    SafeStep(t1, QuitSend);
    SafeStep(t2, QuitDrop);
  }

  lemma {:induction false} UndroppedIsARun(s: State, steps: seq<Step>, t: State)
    requires ReachesUndropped(s, steps, t)
    ensures Reaches(s, steps, t)
    decreases |steps|
  {
    if steps != [] { UndroppedIsARun(Next(s, steps[0]), steps[1..], t); }
  }

  lemma {:induction false} OneMore(s: State, steps: seq<Step>, t: State, step: Step)
    requires Reaches(s, steps, t) && Enabled(t, step)
    ensures Reaches(s, steps + [step], Next(t, step))
    decreases |steps|
  {
    hide Next, Enabled;
    if steps == [] {
      assert (steps + [step])[1..] == [];
      assert Reaches(Next(t, step), [], Next(t, step));
    } else {
      OneMore(Next(s, steps[0]), steps[1..], t, step);
      assert (steps + [step])[1..] == steps[1..] + [step];
    }
  }

  /** Runs in which the quit's send is not dropped. */
  predicate ReachesQuitKept(s: State, steps: seq<Step>, t: State)
    decreases |steps|
  {
    if steps == [] then s == t
    else Enabled(s, steps[0]) && !steps[0].QuitDrop? && ReachesQuitKept(Next(s, steps[0]), steps[1..], t)
  }

  /** However long the quit waits, keepAlive does not receive it. */
  ghost predicate CannotArrive(s: State) {
    forall steps, t :: ReachesQuitKept(s, steps, t) ==> t.shutdown.Sent?
  }

  /** keepAlive waits for a tick that does not come, or is about to. */
  predicate Deaf(s: State) {
    s.loop.Draining? || (s.loop == Handling(StopTimeout) && s.timer.Spent?)
  }

  lemma {:induction false} DeafIsForever(s: State, steps: seq<Step>, t: State)
    requires Safe(s) && Deaf(s) && s.shutdown.Sent? && ReachesQuitKept(s, steps, t)
    ensures t.shutdown.Sent?
    decreases |steps|
  {
    if steps != [] {
      SafeStep(s, steps[0]);
      DeafIsForever(Next(s, steps[0]), steps[1..], t);
    }
  }

  /** Otherwise keepAlive gets back to its select, if it is not there, and takes the quit. */
  lemma QuitArrives(s: State) returns (steps: seq<Step>, t: State)
    requires Safe(s) && s.shutdown.Sent? && !Deaf(s)
    ensures ReachesQuitKept(s, steps, t) && t.shutdown.Over?
  {
    var s1 := if s.loop.Selecting? then s else Next(s, Handle);
    SafeStep(s, if s.loop.Selecting? then QuitRendezvous else Handle);
    t := Next(s1, QuitRendezvous);
    steps := [QuitRendezvous];
    assert steps[1..] == [];
    assert ReachesQuitKept(s1, steps, t);
    if !s.loop.Selecting? {
      assert ([Handle] + steps)[1..] == steps;
      steps := [Handle] + steps;
    }
  }

  /** Exactly which sent quits, in any run, can only be lost: those that find keepAlive waiting for a
      tick that does not come, or about to. */
  lemma QuitCannotArriveIff(steps: seq<Step>, s: State)
    requires Reaches(Init(), steps, s) && s.shutdown.Sent?
    ensures CannotArrive(s) <==> s.loop.Draining? || (s.loop == Handling(StopTimeout) && s.timer.Spent?)
  {
    SafeAlways(Init(), steps, s);
    if Deaf(s) {
      forall more, t | ReachesQuitKept(s, more, t) ensures t.shutdown.Sent? { DeafIsForever(s, more, t); }
    } else {
      var more, t := QuitArrives(s);
      assert !CannotArrive(s);
    }
  }

  /** The one step that gives a quit up: dropping its send. */
  lemma QuitIsGivenUpBy(steps: seq<Step>, t: State, step: Step)
    requires Reaches(Init(), steps, t) && Enabled(t, step) && !t.shutdown.Over?
    ensures Orphaned(Next(t, step)) <==> step == QuitDrop
  {
    SafeAlways(Init(), steps, t);
    SafeStep(t, step);
  }

  // ---------------------------------------------------------------- which quit it is

  predicate Quits(step: Step) { step.Quit? || step.SpawnedQuit? }

  /** Quit and loop are on the way to that stop and to no other. */
  predicate Carries(s: State, force: bool) {
    && (s.shutdown.ListenerClosed? ==> s.shutdown.force == force)
    && (s.shutdown.Sent? ==> s.shutdown.op == if force then QuitNow else QuitGracefully)
    && (s.loop.Handling? && IsQuit(s.loop.op) ==> s.loop.op == if force then QuitNow else QuitGracefully)
    && (s.loop.Stopping? ==> s.loop.force == force)
  }

  lemma CarriesStep(s: State, step: Step, force: bool)
    requires Safe(s) && Carries(s, force) && !s.shutdown.NotYet? && Enabled(s, step)
    ensures Carries(Next(s, step), force) && !Next(s, step).shutdown.NotYet?
  {
    match step
    case Rendezvous =>
    case _ =>
  }

  lemma {:induction false} CarriedOn(s: State, steps: seq<Step>, t: State, force: bool)
    requires Safe(s) && Carries(s, force) && !s.shutdown.NotYet? && Reaches(s, steps, t)
    ensures Carries(t, force)
    decreases |steps|
  {
    hide Carries, Safe, Next, Enabled;
    if steps != [] {
      CarriesStep(s, steps[0], force);
      SafeStep(s, steps[0]);
      CarriedOn(Next(s, steps[0]), steps[1..], t, force);
    }
  }

  /** The first quit of the run is the one that has been asked for. */
  lemma {:induction false} FirstQuit(s: State, steps: seq<Step>, t: State) returns (i: nat, force: bool)
    requires Safe(s) && s.shutdown.NotYet? && Reaches(s, steps, t) && !t.shutdown.NotYet?
    ensures i < |steps| && Carries(t, force) && steps[i] in {Quit(force), if force then SpawnedQuit else Quit(false)}
    ensures forall j :: 0 <= j < i ==> !Quits(steps[j])
    decreases |steps|
  {
    var step := steps[0];
    SafeStep(s, step);
    var next := Next(s, step);
    if Quits(step) {
      i, force := 0, step.SpawnedQuit? || step.force;
      CarriedOn(next, steps[1..], t, force);
    } else {
      i, force := FirstQuit(next, steps[1..], t);
      forall j | 0 <= j < i + 1 ensures !Quits(steps[j]) {
        if j > 0 { assert steps[j] == steps[1..][j - 1]; }
      }
      i := i + 1;
    }
  }

  /** The server is stopped by force exactly when the first quit of the run is forced: the first call
      from outside is made with force, or an expired timeout comes before any. */
  lemma StopsAsFirstQuit(steps: seq<Step>, t: State)
    requires Reaches(Init(), steps, t) && t.loop.Stopping?
    ensures exists i :: 0 <= i < |steps| && (forall j :: 0 <= j < i ==> !steps[j].Quit? && !steps[j].SpawnedQuit?)
                        && (t.loop.force ==> steps[i] == Quit(true) || steps[i] == SpawnedQuit)
                        && (!t.loop.force ==> steps[i] == Quit(false))
  {
    SafeAlways(Init(), steps, t);
    var i, force := FirstQuit(Init(), steps, t);
    assert forall j :: 0 <= j < i ==> !Quits(steps[j]) ==> !steps[j].Quit? && !steps[j].SpawnedQuit?;
  }
}
