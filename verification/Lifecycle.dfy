/** The synchronizer's state machine (network/synchronizer.go): the Start goroutine, the
    readiness monitors it spawns, and their interleavings.  Everything done under the mutex
    is one step; a monitor that has passed its height check may act after being cancelled. */
module Lifecycle {
  import opened Types

  datatype SyncState = NotStarted | Starting | Syncing | Ready | Retrying | Stopped

  /** Where a monitor goroutine is: in its select, past the height check, after its
      transition, or gone. */
  datatype Phase = Waiting | CaughtUp | Leaving | Exited

  datatype Monitor = Monitor(cancelled: bool, phase: Phase)

  /** Where Start is: not called, in its loop, waiting for monitors, about to close, returned. */
  datatype Main = NotCalled | Looping | Joining | Closing | Returned

  /** What the mutex guards, and the monitors; `cancel` is the stored cancel function, naming
      the monitor it cancels. */
  datatype Core = Core(
    state: SyncState, lastErr: Option<string>, cancel: Option<nat>, monitors: seq<Monitor>, runCancelled: bool)

  const NewCore := Core(NotStarted, None, None, [], false)

  datatype State = State(core: Core, main: Main, closes: nat)

  const Initial := State(NewCore, NotCalled, 0)

  // ---------------------------------------------------------------- transition

  function CancelMonitor(s: Core): Core {
    if s.cancel.None? || s.cancel.value >= |s.monitors| then s.(cancel := None)
    else
      var c := s.cancel.value;
      s.(cancel := None, monitors := s.monitors[c := s.monitors[c].(cancelled := true)])
  }

  function Transitioned(s: Core, to: SyncState, err: Option<string>): Core {
    if s.state.Stopped? then s
    else
      var moved := s.(state := to);
      var left := if s.state.Syncing? && s.cancel.Some? then CancelMonitor(moved) else moved;
      match to
      case Syncing =>
        if s.runCancelled then left.(lastErr := None)
        else left.(lastErr := None, cancel := Some(|s.monitors|), monitors := left.monitors + [Monitor(false, Waiting)])
      case Retrying => left.(lastErr := err)
      case Stopped => if left.cancel.Some? then CancelMonitor(left) else left
      case _ => left
  }

  class Synchronizer {
    var state: SyncState
    var lastSyncErr: Option<string>
    var monitorCancel: Option<nat>
    var monitors: seq<Monitor>
    var runCancelled: bool

    ghost function Contents(): Core
      reads this
    {
      Core(state, lastSyncErr, monitorCancel, monitors, runCancelled)
    }

    constructor ()
      ensures Contents() == NewCore
    {
      state, lastSyncErr, monitorCancel, monitors, runCancelled := NotStarted, None, None, [], false;
    }

    method Transition(to: SyncState, err: Option<string>)
      modifies this
      ensures Contents() == Transitioned(old(Contents()), to, err)
    {
      var from := state;
      if from.Stopped? { return; }
      state := to;
      if from.Syncing? && monitorCancel.Some? { Cancel(); }
      match to {
        case Syncing =>
          lastSyncErr := None;
          if runCancelled { return; }
          monitorCancel := Some(|monitors|);
          monitors := monitors + [Monitor(false, Waiting)];
        case Retrying =>
          lastSyncErr := err;
        case Stopped =>
          if monitorCancel.Some? { Cancel(); }
        case _ =>
      }
    }

    method Cancel()
      requires monitorCancel.Some?
      modifies this
      ensures Contents() == CancelMonitor(old(Contents()))
    {
      var c := monitorCancel.value;
      if c < |monitors| { monitors := monitors[c := monitors[c].(cancelled := true)]; }
      monitorCancel := None;
    }
  }

  // --------------------------------------------------------------------- steps

  datatype Step =
    | CallStart
    | CancelRun
    | LoopTransition(to: SyncState, err: Option<string>)
    | LeaveLoop
    | Join
    | ClosePeer
    | PassCheck(i: nat)
    | BecomeReady(i: nat)
    | SeeCancelled(i: nat)
    | Finish(i: nat)

  predicate InPhase(s: State, i: nat, p: Phase) { i < |s.core.monitors| && s.core.monitors[i].phase == p }

  predicate AllExited(s: State) { forall i | 0 <= i < |s.core.monitors| :: s.core.monitors[i].phase.Exited? }

  /** Start's loop only ever enters Syncing or Retrying, and ends only once its context is
      cancelled; a monitor leaves its select when its own or the run context is cancelled. */
  predicate Enabled(s: State, step: Step) {
    match step
    case CallStart => s.core.state.NotStarted?
    case CancelRun => true
    case LoopTransition(to, _) => s.main.Looping? && (to.Syncing? || to.Retrying?)
    case LeaveLoop => s.main.Looping? && s.core.runCancelled
    case Join => s.main.Joining? && AllExited(s)
    case ClosePeer => s.main.Closing?
    case PassCheck(i) => InPhase(s, i, Waiting)
    case BecomeReady(i) => InPhase(s, i, CaughtUp)
    case SeeCancelled(i) => InPhase(s, i, Waiting) && (s.core.monitors[i].cancelled || s.core.runCancelled)
    case Finish(i) => InPhase(s, i, Leaving)
  }

  function MoveTo(s: State, i: nat, p: Phase): State
    requires i < |s.core.monitors|
  {
    s.(core := s.core.(monitors := s.core.monitors[i := s.core.monitors[i].(phase := p)]))
  }

  function Moved(s: State, to: SyncState, err: Option<string>): State { s.(core := Transitioned(s.core, to, err)) }

  function Next(s: State, step: Step): State {
    if !Enabled(s, step) then s
    else
      match step
      case CallStart => s.(core := s.core.(state := Starting), main := Looping)
      case CancelRun => s.(core := s.core.(runCancelled := true))
      case LoopTransition(to, err) => Moved(s, to, err)
      case LeaveLoop => Moved(s, Stopped, None).(main := Joining)
      case Join => s.(main := Closing)
      case ClosePeer => s.(main := Returned, closes := s.closes + 1)
      case PassCheck(i) => MoveTo(s, i, CaughtUp)
      case BecomeReady(i) => Moved(MoveTo(s, i, Leaving), Ready, None)
      case SeeCancelled(i) => MoveTo(s, i, Exited)
      case Finish(i) => MoveTo(s, i, Exited)
  }

  function Run(steps: seq<Step>): State {
    if steps == [] then Initial else Next(Run(steps[..|steps| - 1]), steps[|steps| - 1])
  }

  // ---------------------------------------------------------------- invariants

  ghost predicate Inv(s: State) {
    // A stored cancel exists only while Syncing and names a monitor not cancelled yet.
    && (s.core.cancel.Some? ==> s.core.state.Syncing? && s.core.cancel.value < |s.core.monitors|)
    // At most one monitor is uncancelled, and it is the one the stored cancel names.
    && (forall i | 0 <= i < |s.core.monitors| :: s.core.monitors[i].cancelled <==> s.core.cancel != Some(i))
    && (s.main.NotCalled? <==> s.core.state.NotStarted?)
    && (s.core.state.NotStarted? ==> s.core.monitors == [])
    && (s.core.state.Stopped? <==> s.main.Joining? || s.main.Closing? || s.main.Returned?)
    && (s.core.state.Stopped? ==> s.core.runCancelled)
    && (s.main.Closing? || s.main.Returned? ==> AllExited(s))
    && s.closes == (if s.main.Returned? then 1 else 0)
  }

  lemma TransitionKeeps(s: State, to: SyncState, err: Option<string>)
    requires Inv(s) && !s.core.state.NotStarted? && !s.core.state.Stopped? && (to.Syncing? || to.Retrying? || to.Ready?)
    ensures Inv(Moved(s, to, err))
  {
  }

  lemma StopKeeps(s: State)
    requires Inv(s) && s.main.Looping? && s.core.runCancelled
    ensures Inv(Moved(s, Stopped, None).(main := Joining))
  {
  }

  lemma StepKeeps(s: State, step: Step)
    requires Inv(s)
    ensures Inv(Next(s, step))
  {
    if Enabled(s, step) {
      match step
      case LoopTransition(to, err) => TransitionKeeps(s, to, err);
      case LeaveLoop => StopKeeps(s);
      case BecomeReady(i) =>
        var m := MoveTo(s, i, Leaving);
        assert Inv(m);
        if !m.core.state.Stopped? { TransitionKeeps(m, Ready, None); }
      case _ =>
    }
  }

  /** The whole lifecycle, over every interleaving of Start, its context and any number of
      live and stale monitors. */
  lemma {:induction false} LifecycleInvariant(steps: seq<Step>)
    ensures Inv(Run(steps))
  {
    if steps != [] {
      LifecycleInvariant(steps[..|steps| - 1]);
      StepKeeps(Run(steps[..|steps| - 1]), steps[|steps| - 1]);
    }
  }

  /** Stopped is terminal, and no monitor starts any more. */
  lemma {:induction false} StoppedIsTerminal(steps: seq<Step>, more: seq<Step>)
    requires Run(steps).core.state.Stopped?
    ensures Run(steps + more).core.state.Stopped? && |Run(steps + more).core.monitors| == |Run(steps).core.monitors|
  {
    if more == [] {
      assert steps + more == steps;
    } else {
      assert (steps + more)[..|steps + more| - 1] == steps + more[..|more| - 1];
      StoppedIsTerminal(steps, more[..|more| - 1]);
      LifecycleInvariant(steps + more[..|more| - 1]);
    }
  }

  /** Once Start has returned, every monitor has exited, the peer was closed exactly once,
      and nothing but the caller's own context can change again. */
  lemma {:induction false} ReturnedIsFinal(steps: seq<Step>, more: seq<Step>)
    requires Run(steps).main.Returned?
    ensures var s := Run(steps);
            && AllExited(s) && s.closes == 1 && s.core.state.Stopped?
            && Run(steps + more) == s.(core := s.core.(runCancelled := Run(steps + more).core.runCancelled))
  {
    LifecycleInvariant(steps);
    if more == [] {
      assert steps + more == steps;
    } else {
      assert (steps + more)[..|steps + more| - 1] == steps + more[..|more| - 1];
      ReturnedIsFinal(steps, more[..|more| - 1]);
    }
  }

  /** The peer is closed only after the last monitor has exited, and never twice. */
  lemma CloseComesLast(steps: seq<Step>)
    requires Enabled(Run(steps), ClosePeer)
    ensures AllExited(Run(steps)) && Run(steps).closes == 0
  {
    LifecycleInvariant(steps);
  }

  /** Shutdown cannot stall: while Start waits for its monitors, one of them can move. */
  lemma JoinMakesProgress(steps: seq<Step>)
    requires Run(steps).main.Joining?
    ensures var s := Run(steps);
            Enabled(s, Join)
            || exists i: nat :: Enabled(s, SeeCancelled(i)) || Enabled(s, BecomeReady(i)) || Enabled(s, Finish(i))
  {
    LifecycleInvariant(steps);
    var s := Run(steps);
    if !AllExited(s) {
      var i :| 0 <= i < |s.core.monitors| && !s.core.monitors[i].phase.Exited?;
      assert Enabled(s, SeeCancelled(i)) || Enabled(s, BecomeReady(i)) || Enabled(s, Finish(i));
    }
  }

  /** What a transition does to a running synchronizer: the state and the error are the new ones,
      every monitor so far is cancelled, and entering Syncing starts exactly one more, unless the
      run is already being cancelled. */
  lemma TransitionEffects(steps: seq<Step>, to: SyncState, err: Option<string>)
    requires Enabled(Run(steps), LoopTransition(to, err))
    ensures var (c, d) := (Run(steps).core, Run(steps + [LoopTransition(to, err)]).core);
            && d.state == to && d.runCancelled == c.runCancelled
            && d.lastErr == (if to.Syncing? then None else err)
            && (forall i | 0 <= i < |c.monitors| ::
                  i < |d.monitors| && d.monitors[i] == c.monitors[i].(cancelled := true))
            && (if to.Syncing? && !c.runCancelled
                then |d.monitors| == |c.monitors| + 1 && d.monitors[|c.monitors|] == Monitor(false, Waiting)
                     && d.cancel == Some(|c.monitors|)
                else |d.monitors| == |c.monitors| && d.cancel.None?)
  {
    LifecycleInvariant(steps);
    assert (steps + [LoopTransition(to, err)])[..|steps|] == steps;
  }

  /** Ready reports the current syncing period exactly when the monitor that announces it has
      not been cancelled. */
  lemma ReadyIsCurrentIff(steps: seq<Step>, i: nat)
    requires Enabled(Run(steps), BecomeReady(i))
    ensures var c := Run(steps).core; !c.monitors[i].cancelled <==> c.state.Syncing? && c.cancel == Some(i)
    ensures Next(Run(steps), BecomeReady(i)).core.state == if Run(steps).core.state.Stopped? then Stopped else Ready
  {
    LifecycleInvariant(steps);
  }

  /** A stale monitor makes a synchronizer that is backing off after an error report Ready. */
  lemma StaleMonitorReportsReady()
    ensures var before := [CallStart, LoopTransition(Syncing, None), PassCheck(0),
                           LoopTransition(Retrying, Some("stream error"))];
            && Run(before).core.state.Retrying? && Run(before).core.monitors == [Monitor(true, CaughtUp)]
            && Run(before + [BecomeReady(0)]).core.state.Ready?
  {
    var a: Step := CallStart;
    var b := LoopTransition(Syncing, None);
    var c: Step := PassCheck(0);
    var d := LoopTransition(Retrying, Some("stream error"));
    var e: Step := BecomeReady(0);
    var s1, s2, s3 := Next(Initial, a), Next(Next(Initial, a), b), Next(Next(Next(Initial, a), b), c);
    assert [a][..0] == [] && Run([a]) == s1;
    assert [a, b][..1] == [a] && Run([a, b]) == s2;
    assert [a, b, c][..2] == [a, b] && Run([a, b, c]) == s3;
    assert [a, b, c, d][..3] == [a, b, c] && Run([a, b, c, d]) == Next(s3, d);
    assert ([a, b, c, d] + [e])[..4] == [a, b, c, d];
  }
}
