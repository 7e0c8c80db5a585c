/** The debug adapter's pause and step protocol: the program thread enters a
    control callback before every instruction, and client requests change the
    shared session between its lock-held sections. */
module DebugSession {
  import opened Wrappers

  datatype StepMode = Next(depth: nat) | In | Out(depth: nat)

  datatype Frame = Frame(function_: string, depth: nat, line: nat)

  datatype StopReason = AtBreakpoint | Paused | AtEntry | Stepped

  datatype Event = Stopped(reason: StopReason) | Continued

  /** What the mutex guards. */
  datatype Shared = Shared(
    paused: bool,
    pauseRequested: bool,
    step: Option<StepMode>,
    terminate: bool,
    started: bool,
    stopOnEntry: bool,
    frame: Option<Frame>,
    events: seq<Event>)

  /** The program thread: running an instruction, waiting in a callback, or
      over because a callback returned `Terminate`. */
  datatype Program = Running | Waiting | Over

  /** The whole session; `sent` is what the event thread has taken so far. */
  datatype System = System(shared: Shared, program: Program, sent: seq<Event>)

  function Launched(stopOnEntry: bool): System {
    System(Shared(false, false, None, false, false, stopOnEntry, None, []), Running, [])
  }

  // ----- lock-held sections -----------------------------------------------------------------

  predicate Moved(at: Frame, previous: Frame) {
    at.line != previous.line || at.depth != previous.depth || at.function_ != previous.function_
  }

  predicate StepStops(step: Option<StepMode>, at: Frame, previous: Frame) {
    var moved := Moved(at, previous);
    match step
    case None => false
    case Some(Next(target)) => at.depth < target || (at.depth <= target && moved)
    case Some(In) => moved || at.depth > previous.depth
    case Some(Out(target)) => at.depth <= target && (at.depth < previous.depth || moved)
  }

  /** The frame a callback compares with; none counts as line and depth 0. */
  function PreviousFrame(s: Shared): Frame {
    if s.frame.Some? then s.frame.value else Frame("", 0, 0)
  }

  predicate StopsAtEntry(s: Shared) {
    s.stopOnEntry && !s.started
  }

  predicate MustStop(s: Shared, at: Frame, breakpoint: bool) {
    StopsAtEntry(s) || StepStops(s.step, at, PreviousFrame(s)) || breakpoint || s.pauseRequested
  }

  function ReasonFor(s: Shared, breakpoint: bool): StopReason {
    if breakpoint then AtBreakpoint
    else if s.pauseRequested then Paused
    else if StopsAtEntry(s) then AtEntry
    else Stepped
  }

  /** The callback up to its wait. */
  function Entered(s: Shared, at: Frame, breakpoint: bool): Shared {
    if MustStop(s, at, breakpoint)
    then s.(frame := Some(at), started := true, step := None, pauseRequested := false, paused := true,
            events := s.events + [Stopped(ReasonFor(s, breakpoint))])
    else s.(frame := Some(at), started := true)
  }

  /** Where the program goes when the wait condition is tested. */
  function AfterTest(s: Shared): Program {
    if s.paused && !s.terminate then Waiting else if s.terminate then Over else Running
  }

  function Resumed(s: Shared, step: Option<StepMode>): Shared {
    s.(step := step, paused := false, events := s.events + [Continued])
  }

  // ----- interleavings -----------------------------------------------------------------------

  datatype Action =
    | Callback(at: Frame, breakpoint: bool)
    | Wake
    | Resume(step: Option<StepMode>)
    | RequestPause
    | Terminate
    | TakeEvents

  /** Callbacks come from a running program, wake-ups from a waiting one;
      requests and the event thread come at any time. */
  predicate Enabled(s: System, a: Action) {
    match a
    case Callback(_, _) => s.program.Running?
    case Wake => s.program.Waiting?
    case _ => true
  }

  function Act(s: System, a: Action): System
    requires Enabled(s, a)
  {
    match a
    case Callback(at, breakpoint) =>
      var entered := Entered(s.shared, at, breakpoint);
      s.(shared := entered, program := AfterTest(entered))
    case Wake => s.(program := AfterTest(s.shared))
    case Resume(step) => s.(shared := Resumed(s.shared, step))
    case RequestPause => s.(shared := s.shared.(pauseRequested := true))
    case Terminate => s.(shared := s.shared.(terminate := true, paused := false))
    case TakeEvents => s.(shared := s.shared.(events := []), sent := s.sent + s.shared.events)
  }

  /** Every reachable session: a launch, then actions in any order. */
  ghost predicate Runs(s: System, actions: seq<Action>, t: System)
    decreases |actions|
  {
    if actions == [] then s == t
    else Enabled(s, actions[0]) && Runs(Act(s, actions[0]), actions[1..], t)
  }

  // ----- the session object --------------------------------------------------------------------

  class Session {
    var paused: bool
    var pauseRequested: bool
    var step: Option<StepMode>
    var terminate: bool
    var started: bool
    var stopOnEntry: bool
    var frame: Option<Frame>
    var events: seq<Event>

    ghost function Value(): Shared
      reads this
    {
      Shared(paused, pauseRequested, step, terminate, started, stopOnEntry, frame, events)
    }

    constructor (stopOnEntry: bool)
      ensures Value() == Launched(stopOnEntry).shared
    {
      paused, pauseRequested, step, terminate, started := false, false, None, false, false;
      this.stopOnEntry := stopOnEntry;
      frame, events := None, [];
    }

    /** The callback from taking the lock to the first test of its wait. */
    method ControlCallback(at: Frame, breakpoint: bool) returns (next: Program)
      modifies this
      ensures Value() == Entered(old(Value()), at, breakpoint)
      ensures next == AfterTest(Value())
    {
      hide StepStops;
      var stepPause := StepPause(at, if frame.Some? then frame.value else Frame("", 0, 0));
      frame := Some(at);
      var stopAtEntry := stopOnEntry && !started;
      if stopAtEntry || stepPause || breakpoint || pauseRequested {
        var reason := if breakpoint then AtBreakpoint else if pauseRequested then Paused
                      else if stopAtEntry then AtEntry else Stepped;
        started, step, pauseRequested, paused := true, None, false, true;
        events := events + [Stopped(reason)];
      } else if !started {
        started := true;
      }
      next := TestWait();
    }

    method StepPause(at: Frame, previous: Frame) returns (r: bool)
      ensures r == StepStops(step, at, previous)
    {
      var moved := Moved(at, previous);
      match step
      case None => return false;
      case Some(Next(target)) => return at.depth < target || (at.depth <= target && moved);
      case Some(In) => return moved || at.depth > previous.depth;
      case Some(Out(target)) => return at.depth <= target && (at.depth < previous.depth || moved);
    }

    /** One test of the wait condition, on entry and after each wake-up. */
    method TestWait() returns (next: Program)
      ensures next == AfterTest(Value())
    {
      if paused && !terminate {
        return Waiting;
      }
      return if terminate then Over else Running;
    }

    method ResumeSession(mode: Option<StepMode>)
      modifies this
      ensures Value() == Resumed(old(Value()), mode)
    {
      step, paused := mode, false;
      events := events + [Continued];
    }

    method PauseSession()
      modifies this`pauseRequested
      ensures Value() == old(Value()).(pauseRequested := true)
    {
      pauseRequested := true;
    }

    method TerminateSession()
      modifies this`terminate, this`paused
      ensures Value() == old(Value()).(terminate := true, paused := false)
    {
      terminate, paused := true, false;
    }

    method Drain() returns (taken: seq<Event>)
      modifies this`events
      ensures taken == old(events) && Value() == old(Value()).(events := [])
    {
      taken, events := events, [];
    }
  }

  // ----- safety over every interleaving ---------------------------------------------------------

  /** Everything the client is or will be told, in order. */
  function Log(s: System): seq<Event> {
    s.sent + s.shared.events
  }

  /** Between any two stops the client was told of a continue. */
  predicate Alternates(log: seq<Event>) {
    forall i, j | 0 <= i < j < |log| && log[i].Stopped? && log[j].Stopped? ::
      exists k :: i < k < j && log[k] == Continued
  }

  /** The last thing said is that the program stopped. */
  predicate StopPending(log: seq<Event>) {
    log != [] && log[|log| - 1].Stopped?
  }

  predicate Safe(s: System) {
    && (s.program.Running? ==> !s.shared.paused && !StopPending(Log(s)))
    && (s.program.Waiting? ==> s.shared.paused || s.shared.terminate || !StopPending(Log(s)))
    && Alternates(Log(s))
  }

  lemma AlternatesSnoc(log: seq<Event>, e: Event)
    requires Alternates(log) && (e.Stopped? ==> !StopPending(log))
    ensures Alternates(log + [e])
  {
    var more := log + [e];
    forall i, j | 0 <= i < j < |more| && more[i].Stopped? && more[j].Stopped?
      ensures exists k :: i < k < j && more[k] == Continued
    {
      if j < |log| {
        assert log[i].Stopped? && log[j].Stopped?;
        var k :| i < k < j && log[k] == Continued;
        assert more[k] == Continued;
      } else {
        assert log[|log| - 1] == Continued;
        assert more[|log| - 1] == Continued;
      }
    }
  }

  /** Every action keeps the session safe. */
  lemma ActKeepsSafe(s: System, a: Action)
    requires Safe(s) && Enabled(s, a)
    ensures Safe(Act(s, a))
  {
    var t := Act(s, a);
    match a
    case Callback(at, breakpoint) =>
      if MustStop(s.shared, at, breakpoint) {
        var e := Stopped(ReasonFor(s.shared, breakpoint));
        AlternatesSnoc(Log(s), e);
        assert Log(t) == Log(s) + [e];
      } else {
        assert Log(t) == Log(s);
      }
    case Resume(step) =>
      AlternatesSnoc(Log(s), Continued);
      assert Log(t) == Log(s) + [Continued];
    case TakeEvents =>
      assert Log(t) == Log(s);
    case _ =>
      assert Log(t) == Log(s);
  }

  lemma {:induction false} RunsKeepSafe(s: System, actions: seq<Action>, t: System)
    requires Safe(s) && Runs(s, actions, t)
    ensures Safe(t)
    decreases |actions|
  {
    if actions != [] {
      ActKeepsSafe(s, actions[0]);
      RunsKeepSafe(Act(s, actions[0]), actions[1..], t);
    }
  }

  /** In every interleaving no instruction runs while the session is paused,
      and a continue separates any two stops. */
  lemma PauseIsSafe(stopOnEntry: bool, actions: seq<Action>, t: System)
    requires Runs(Launched(stopOnEntry), actions, t)
    ensures t.program.Running? ==> !t.shared.paused
    ensures Alternates(Log(t))
  {
    RunsKeepSafe(Launched(stopOnEntry), actions, t);
  }

  /** After a terminate request no run clears it, no callback waits or lets an
      instruction run, and a waiting program is over at its next test. */
  lemma {:induction false} TerminateIsFinal(s: System, actions: seq<Action>, t: System)
    requires s.shared.terminate && Runs(s, actions, t)
    ensures t.shared.terminate
    ensures Enabled(t, Wake) ==> Act(t, Wake).program.Over?
    ensures forall at, breakpoint | Enabled(t, Callback(at, breakpoint)) ::
              Act(t, Callback(at, breakpoint)).program.Over?
    decreases |actions|
  {
    if actions != [] {
      TerminateIsFinal(Act(s, actions[0]), actions[1..], t);
    }
  }

  predicate IsCallback(a: Action) {
    a.Callback?
  }

  /** A pause request is never lost: until the program's next callback it
      stands, and that callback does not let an instruction run. */
  lemma {:induction false} PauseIsHonoured(s: System, actions: seq<Action>, t: System, at: Frame, breakpoint: bool)
    requires s.shared.pauseRequested && Runs(s, actions, t) && forall a <- actions :: !IsCallback(a)
    requires Enabled(t, Callback(at, breakpoint))
    ensures !Act(t, Callback(at, breakpoint)).program.Running?
    ensures StopPending(Log(Act(t, Callback(at, breakpoint))))
    decreases |actions|
  {
    if actions != [] {
      assert actions[0] in actions;
      assert Act(s, actions[0]).shared.pauseRequested;
      PauseIsHonoured(Act(s, actions[0]), actions[1..], t, at, breakpoint);
    }
  }

  /** A waiting program runs on only after the client resumed it. */
  lemma {:induction false} OnlyResumeReleases(s: System, actions: seq<Action>, t: System)
    requires s.program.Waiting? && s.shared.paused && Runs(s, actions, t)
    requires forall a <- actions :: !a.Resume?
    ensures !t.program.Running?
    decreases |actions|
  {
    if actions != [] {
      assert actions[0] in actions;
      var next := Act(s, actions[0]);
      if next.shared.paused && next.program.Waiting? {
        OnlyResumeReleases(next, actions[1..], t);
      } else {
        TerminatedStaysOut(next, actions[1..], t);
      }
    }
  }

  lemma {:induction false} TerminatedStaysOut(s: System, actions: seq<Action>, t: System)
    requires s.shared.terminate && !s.program.Running? && Runs(s, actions, t)
    ensures !t.program.Running?
    decreases |actions|
  {
    if actions != [] {
      TerminatedStaysOut(Act(s, actions[0]), actions[1..], t);
    }
  }

  // ----- stepping ------------------------------------------------------------------------------------

  predicate IsCallAbove(a: Action, depth: nat) {
    a.Callback? && a.at.depth > depth && !a.breakpoint
  }

  /** Stepping over or out never stops in a frame above its depth, however long
      the calls run, and stops at the first instruction back at that depth: after
      a call even on the line it left. */
  lemma {:induction false} StepEndsAtDepth(s: System, actions: seq<Action>, t: System, depth: nat, at: Frame)
    requires s.program.Running? && s.shared.step in {Some(Next(depth)), Some(Out(depth))}
    requires s.shared.started && !s.shared.pauseRequested && !s.shared.paused && !s.shared.terminate
    requires Runs(s, actions, t) && forall a <- actions :: IsCallAbove(a, depth)
    ensures t.program.Running? && t.shared.step == s.shared.step && Log(t) == Log(s)
    ensures at.depth <= depth && (actions != [] || Moved(at, PreviousFrame(s.shared))) ==>
              var stopped := Act(t, Callback(at, false));
              stopped.program.Waiting? && stopped.shared.step.None? && Log(stopped) == Log(t) + [Stopped(Stepped)]
    decreases |actions|
  {
    if actions == [] {
      assert t.sent + (t.shared.events + [Stopped(Stepped)]) == Log(t) + [Stopped(Stepped)];
    } else {
      assert actions[0] in actions && IsCallAbove(actions[0], depth);
      var next := Act(s, actions[0]);
      assert PreviousFrame(next.shared) == actions[0].at;
      StepEndsAtDepth(next, actions[1..], t, depth, at);
    }
  }

  // ----- when a callback stops ------------------------------------------------------------------------

  /** A breakpoint always stops the program, before anything else is asked for. */
  lemma BreakpointStops(s: System, at: Frame)
    requires s.program.Running? && !s.shared.terminate
    ensures var t := Act(s, Callback(at, true));
            && t.program.Waiting? && t.shared.paused && Log(t) == Log(s) + [Stopped(AtBreakpoint)]
            && t.shared.step.None? && !t.shared.pauseRequested && t.shared.frame == Some(at)
  {
    assert s.sent + (s.shared.events + [Stopped(AtBreakpoint)]) == Log(s) + [Stopped(AtBreakpoint)];
  }

  /** Off breakpoints a callback stops exactly for a pending pause request, for
      the entry of a program to be stopped there, or for a step that is done, and
      gives the first of these as its reason; otherwise it says nothing and runs
      on.  A step into is done anywhere else than at the last frame seen; a step
      over, below its depth or elsewhere at it; a step out, elsewhere at or below
      its depth. */
  lemma CallbackStops(s: System, at: Frame)
    requires s.program.Running? && !s.shared.terminate && !s.shared.paused
    ensures var t := Act(s, Callback(at, false));
            var last := if s.shared.frame.Some? then s.shared.frame.value else Frame("", 0, 0);
            var elsewhere :=
              (at.function_, at.depth, at.line) != (last.function_, last.depth, last.line);
            var entry := s.shared.stopOnEntry && !s.shared.started;
            var done :=
              || (s.shared.step == Some(In) && elsewhere)
              || (s.shared.step.Some? && s.shared.step.value.Next? &&
                    (at.depth < s.shared.step.value.depth ||
                       (at.depth == s.shared.step.value.depth && elsewhere)))
              || (s.shared.step.Some? && s.shared.step.value.Out? &&
                    at.depth <= s.shared.step.value.depth && elsewhere);
            && t.shared.frame == Some(at) && t.shared.started
            && (t.program.Waiting? <==> s.shared.pauseRequested || entry || done)
            && (t.program.Waiting? ==>
                  && t.shared.paused && t.shared.step.None? && !t.shared.pauseRequested
                  && Log(t) == Log(s) + [Stopped(if s.shared.pauseRequested then Paused
                                                 else if entry then AtEntry else Stepped)])
            && (!t.program.Waiting? ==> t.program.Running? && Log(t) == Log(s) && t.shared.step == s.shared.step)
  {
    var t := Act(s, Callback(at, false));
    if t.program.Waiting? {
      var e := t.shared.events[|t.shared.events| - 1];
      assert s.sent + (s.shared.events + [e]) == Log(s) + [e];
    }
  }

  /** A resumed program runs on, with the step it was given, once it wakes, and
      the client has been told that it continues. */
  lemma ResumeReleases(s: System, step: Option<StepMode>)
    requires s.program.Waiting? && !s.shared.terminate
    ensures var t := Act(Act(s, Resume(step)), Wake);
            t.program.Running? && t.shared.step == step && Log(t) == Log(s) + [Continued]
  {
    assert s.sent + (s.shared.events + [Continued]) == Log(s) + [Continued];
  }

  /** The event thread sends everything queued, in order, and loses nothing. */
  lemma EventsAreSent(s: System)
    ensures var t := Act(s, TakeEvents);
            t.sent == Log(s) == Log(t) && t.shared == s.shared.(events := [])
  {
  }

  // ----- the state, by what has happened ------------------------------------------------------------

  /** The frame of the last callback. */
  function LastFrame(actions: seq<Action>): Option<Frame> {
    if actions == [] then None
    else
      var last := actions[|actions| - 1];
      if last.Callback? then Some(last.at) else LastFrame(actions[..|actions| - 1])
  }

  /** Whether a pause was requested since the last callback. */
  predicate PauseAsked(actions: seq<Action>) {
    actions != [] &&
    var last := actions[|actions| - 1];
    !last.Callback? && (last.RequestPause? || PauseAsked(actions[..|actions| - 1]))
  }

  lemma {:induction false} RunsSnoc(s: System, actions: seq<Action>, t: System) returns (before: System)
    requires actions != [] && Runs(s, actions, t)
    ensures var last := actions[|actions| - 1];
            Runs(s, actions[..|actions| - 1], before) && Enabled(before, last) && Act(before, last) == t
    decreases |actions|
  {
    if |actions| == 1 {
      before := s;
      assert actions[1..] == [] && actions[..0] == [];
    } else {
      var next := Act(s, actions[0]);
      before := RunsSnoc(next, actions[1..], t);
      assert actions[1..][..|actions| - 2] == actions[..|actions| - 1][1..];
    }
  }

  /** In every run from a launch the session remembers exactly the frame of the
      last callback, whether there was one, a pause request since it, and whether
      termination was requested. */
  lemma {:induction false} StateIsHistory(stopOnEntry: bool, actions: seq<Action>, t: System)
    requires Runs(Launched(stopOnEntry), actions, t)
    ensures t.shared.stopOnEntry == stopOnEntry
    ensures t.shared.frame == LastFrame(actions)
    ensures t.shared.started <==> exists a <- actions :: IsCallback(a)
    ensures t.shared.pauseRequested <==> PauseAsked(actions)
    ensures t.shared.terminate <==> Terminate in actions
    decreases |actions|
  {
    if actions != [] {
      var init, last := actions[..|actions| - 1], actions[|actions| - 1];
      var before := RunsSnoc(Launched(stopOnEntry), actions, t);
      StateIsHistory(stopOnEntry, init, before);
      ActRemembers(before, last);
      hide Act;
      assert actions == init + [last];
      SnocHas(init, last);
    }
  }

  lemma ActRemembers(s: System, a: Action)
    requires Enabled(s, a)
    ensures var t := Act(s, a).shared;
            && t.stopOnEntry == s.shared.stopOnEntry
            && t.frame == (if a.Callback? then Some(a.at) else s.shared.frame)
            && (t.started <==> s.shared.started || a.Callback?)
            && (t.pauseRequested <==> !a.Callback? && (a.RequestPause? || s.shared.pauseRequested))
            && (t.terminate <==> s.shared.terminate || a.Terminate?)
  {
    hide StepStops;
  }

  lemma SnocHas(init: seq<Action>, last: Action)
    ensures Terminate in init + [last] <==> Terminate in init || last.Terminate?
    ensures (exists a <- init + [last] :: IsCallback(a)) <==> (exists a <- init :: IsCallback(a)) || last.Callback?
  {
    assert IsCallback(last) <==> last.Callback?;
    assert last in init + [last];
    assert forall a <- init :: a in init + [last];
  }

  /** The first instruction of a program launched to stop on entry stops it, and
      says so unless a pause was requested before; one launched otherwise and left
      alone runs on. */
  lemma EntryIsFirstCallback(stopOnEntry: bool, actions: seq<Action>, t: System, at: Frame)
    requires Runs(Launched(stopOnEntry), actions, t) && t.program.Running?
    requires Terminate !in actions && forall a <- actions :: !IsCallback(a) && !a.Resume?
    ensures var next := Act(t, Callback(at, false));
            && (next.program.Waiting? <==> stopOnEntry || RequestPause in actions)
            && (next.program.Waiting? ==>
                  Log(next) == [Stopped(if RequestPause in actions then Paused else AtEntry)])
            && (!next.program.Waiting? ==> next.program.Running? && Log(next) == [])
  {
    StateIsHistory(stopOnEntry, actions, t);
    RunsKeepSafe(Launched(stopOnEntry), actions, t);
    NothingSaid(stopOnEntry, actions, t);
    PauseAskedIs(actions);
    CallbackStops(t, at);
  }

  lemma {:induction false} NothingSaid(stopOnEntry: bool, actions: seq<Action>, t: System)
    requires Runs(Launched(stopOnEntry), actions, t) && forall a <- actions :: !IsCallback(a) && !a.Resume?
    ensures Log(t) == [] && t.shared.step.None?
    decreases |actions|
  {
    if actions != [] {
      var before := RunsSnoc(Launched(stopOnEntry), actions, t);
      assert actions[|actions| - 1] in actions;
      NothingSaid(stopOnEntry, actions[..|actions| - 1], before);
    }
  }

  lemma {:induction false} PauseAskedIs(actions: seq<Action>)
    requires forall a <- actions :: !IsCallback(a)
    ensures PauseAsked(actions) <==> RequestPause in actions
    decreases |actions|
  {
    if actions != [] {
      var init, last := actions[..|actions| - 1], actions[|actions| - 1];
      assert actions == init + [last] && last in actions;
      PauseAskedIs(init);
    }
  }
}
