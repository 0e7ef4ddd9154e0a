/** The bounded hand-off of notification/all_tx.go: the peer's receive loop, the goroutine
    that runs the handlers, Stream itself, and cancellation, interleaved in every way.
    A call of a handler is one step that may succeed or fail at any time. */
module Streamer {
  import opened Types

  /** One committed block's worth of events; `payload` stands for its content. */
  datatype Batch = Batch(blockNumber: nat, payload: Bytes)

  /** The receive loop: between calls of ProcessBatch, blocked on a full queue, or returned. */
  datatype Recv = Idle | Offering(batch: Batch) | Returned

  /** The handler goroutine: at the loop head, in its select, about to call handler `i`,
      after runHandlers returned (with the index of a failing handler), or exited. */
  datatype Worker =
    | LoopHead
    | Selecting
    | Running(batch: Batch, i: nat)
    | Leaving(failed: Option<nat>)
    | Gone(failed: Option<nat>)

  datatype Main = InStream | Awaiting | Done

  datatype State = State(
    depth: nat, queue: seq<Batch>, recv: Recv, worker: Worker, main: Main,
    cancelled: bool, callerCancelled: bool,
    accepted: seq<Batch>, taken: seq<Batch>, handled: seq<seq<Batch>>)

  function NewState(queueDepth: int, handlers: nat): State {
    State(if queueDepth <= 0 then 64 else queueDepth, [], Idle, LoopHead, InStream, false, false,
          [], [], seq(handlers, _ => []))
  }

  datatype Step =
    | CallProcess(batch: Batch)   // ProcessBatch, up to its first select
    | OfferSend                   // the blocking select: room in the queue
    | OfferAbort                  // the blocking select: stream torn down
    | PeerReturns
    | CloseQueue
    | MainReturns
    | CallerCancels
    | CheckContext
    | WorkerSeesCancel
    | WorkerTakes
    | WorkerSeesClosed
    | HandlerReturns(ok: bool)
    | WorkerEnds

  /** The peer calls ProcessBatch sequentially and never after it has returned. */
  predicate Enabled(s: State, step: Step) {
    match step
    case CallProcess(_) => s.recv.Idle?
    case OfferSend => s.recv.Offering? && |s.queue| < s.depth
    case OfferAbort => s.recv.Offering? && s.cancelled
    case PeerReturns => s.recv.Idle?
    case CloseQueue => s.main.InStream? && s.recv.Returned?
    case MainReturns => s.main.Awaiting? && s.worker.Gone?
    case CallerCancels => true
    case CheckContext => s.worker.LoopHead?
    case WorkerSeesCancel => s.worker.Selecting? && s.cancelled
    case WorkerTakes => s.worker.Selecting? && s.queue != []
    case WorkerSeesClosed => s.worker.Selecting? && s.queue == [] && !s.main.InStream?
    case HandlerReturns(_) => s.worker.Running?
    case WorkerEnds => s.worker.Leaving?
  }

  predicate WorkerStep(step: Step) {
    step.CheckContext? || step.WorkerSeesCancel? || step.WorkerTakes? || step.WorkerSeesClosed?
    || step.HandlerReturns? || step.WorkerEnds?
  }

  /** The loop over the handlers ends after the last one. */
  function Call(s: State, batch: Batch, i: nat): State {
    s.(worker := if i < |s.handled| then Running(batch, i) else LoopHead)
  }

  function Accept(s: State, b: Batch): State { s.(queue := s.queue + [b], accepted := s.accepted + [b]) }

  function Next(s: State, step: Step): State {
    if !Enabled(s, step) then s
    else
      match step
      case CallProcess(b) => if |s.queue| < s.depth then Accept(s, b) else s.(recv := Offering(b))
      case OfferSend => Accept(s, s.recv.batch).(recv := Idle)
      case OfferAbort => s.(recv := Idle)
      case PeerReturns => s.(recv := Returned)
      case CloseQueue => s.(main := Awaiting)
      case MainReturns => s.(main := Done, cancelled := true)
      case CallerCancels => s.(callerCancelled := true, cancelled := true)
      case CheckContext => s.(worker := if s.cancelled then Leaving(None) else Selecting)
      case WorkerSeesCancel => s.(worker := Leaving(None))
      case WorkerTakes => Call(s.(queue := s.queue[1..], taken := s.taken + [s.queue[0]]), s.queue[0], 0)
      case WorkerSeesClosed => s.(worker := Leaving(None))
      case HandlerReturns(ok) =>
        var b, i := s.worker.batch, s.worker.i;
        if ok && i < |s.handled| then Call(s.(handled := s.handled[i := s.handled[i] + [b]]), b, i + 1)
        else s.(worker := Leaving(Some(i)))
      case WorkerEnds => s.(worker := Gone(s.worker.failed), cancelled := true)
  }

  function Run(depth: int, handlers: nat, steps: seq<Step>): State {
    if steps == [] then NewState(depth, handlers)
    else Next(Run(depth, handlers, steps[..|steps| - 1]), steps[|steps| - 1])
  }

  // ---------------------------------------------------------------- invariants

  /** The handlers before position `i` have the last batch taken, the others have not. */
  ghost predicate UpToHandler(s: State, i: nat) {
    && s.taken != [] && i < |s.handled|
    && forall j | 0 <= j < |s.handled| :: s.handled[j] == if j < i then s.taken else s.taken[..|s.taken| - 1]
  }

  ghost predicate AllHandled(s: State) { forall j | 0 <= j < |s.handled| :: s.handled[j] == s.taken }

  ghost predicate WorkerInv(s: State) {
    match s.worker
    case LoopHead => AllHandled(s)
    case Selecting => AllHandled(s)
    case Running(b, i) => UpToHandler(s, i) && s.taken[|s.taken| - 1] == b
    case Leaving(f) => if f.Some? then UpToHandler(s, f.value) else AllHandled(s)
    case Gone(f) => if f.Some? then UpToHandler(s, f.value) else AllHandled(s)
  }

  /** The worker left without an error: its caller cancelled, or the closed queue was drained. */
  predicate LeftCleanly(s: State) {
    (s.worker.Leaving? || s.worker.Gone?) && s.worker.failed.None?
  }

  ghost predicate Inv(s: State) {
    && 0 < s.depth && |s.queue| <= s.depth
    && s.accepted == s.taken + s.queue
    && WorkerInv(s)
    && (s.cancelled ==> s.callerCancelled || s.worker.Gone? || s.main.Done?)
    && (s.worker.Gone? ==> s.cancelled)
    && (!s.main.InStream? ==> s.recv.Returned?)
    && (s.main.Done? ==> s.worker.Gone?)
    && (LeftCleanly(s) ==> s.callerCancelled || (s.queue == [] && !s.main.InStream?))
  }

  lemma RecvKeeps(s: State, step: Step)
    requires Inv(s) && !WorkerStep(step)
    ensures Inv(Next(s, step))
  {
    if Enabled(s, step) {
      match step
      case CallProcess(b) => if |s.queue| < s.depth { AcceptKeeps(s, b); }
      case OfferSend => AcceptKeeps(s, s.recv.batch);
      case _ => ControlKeeps(s, step);
    }
  }

  /** Steps that move no batch. */
  lemma ControlKeeps(s: State, step: Step)
    requires Inv(s) && !WorkerStep(step) && !step.CallProcess? && !step.OfferSend?
    ensures Inv(Next(s, step))
  {
    var t := Next(s, step);
    assert t.queue == s.queue && t.taken == s.taken && t.worker == s.worker && t.handled == s.handled;
    assert WorkerInv(t);
  }

  lemma AcceptKeeps(s: State, b: Batch)
    requires Inv(s) && |s.queue| < s.depth && !s.recv.Returned?
    ensures Inv(Accept(s, b))
  {
    assert s.accepted + [b] == s.taken + (s.queue + [b]);
  }

  lemma WorkerKeeps(s: State, step: Step)
    requires Inv(s) && WorkerStep(step)
    ensures Inv(Next(s, step))
  {
    if Enabled(s, step) {
      match step
      case WorkerTakes => TakeKeeps(s);
      case HandlerReturns(ok) => HandlerKeeps(s, ok);
      case _ =>
    }
  }

  lemma TakeKeeps(s: State)
    requires Inv(s) && Enabled(s, WorkerTakes)
    ensures Inv(Next(s, WorkerTakes))
  {
    var t := s.taken + [s.queue[0]];
    assert t + s.queue[1..] == s.taken + s.queue && t[..|t| - 1] == s.taken;
  }

  lemma HandlerKeeps(s: State, ok: bool)
    requires Inv(s) && Enabled(s, HandlerReturns(ok))
    ensures Inv(Next(s, HandlerReturns(ok)))
  {
    var t := s.taken;
    assert t[..|t| - 1] + [t[|t| - 1]] == t;
  }

  lemma {:induction false} StreamInvariant(depth: int, handlers: nat, steps: seq<Step>)
    ensures Inv(Run(depth, handlers, steps)) && |Run(depth, handlers, steps).handled| == handlers
  {
    if steps != [] {
      var s, step := Run(depth, handlers, steps[..|steps| - 1]), steps[|steps| - 1];
      StreamInvariant(depth, handlers, steps[..|steps| - 1]);
      if WorkerStep(step) { WorkerKeeps(s, step); } else { RecvKeeps(s, step); }
    }
  }

  /** The queue's capacity is the configured one, 64 when none is. */
  lemma {:induction false} DepthIsFixed(depth: int, handlers: nat, steps: seq<Step>)
    ensures Run(depth, handlers, steps).depth == if depth <= 0 then 64 else depth
  {
    if steps != [] {
      var p := steps[..|steps| - 1];
      DepthIsFixed(depth, handlers, p);
      StepKeepsDepth(Run(depth, handlers, p), steps[|steps| - 1]);
    }
  }

  lemma StepKeepsDepth(s: State, step: Step)
    ensures Next(s, step).depth == s.depth
  {
  }

  // ------------------------------------------------------------ order and drain

  /** In every interleaving each handler has seen a prefix of the accepted batches, in order,
      and is at most one batch behind the handler before it. */
  lemma HandlersInOrder(depth: int, handlers: nat, steps: seq<Step>, j: nat)
    requires j < handlers
    ensures var s := Run(depth, handlers, steps);
            && |s.handled| == handlers && s.handled[j] <= s.accepted
            && (j + 1 < handlers ==>
                  s.handled[j + 1] <= s.handled[j] && |s.handled[j]| <= |s.handled[j + 1]| + 1)
  {
    StreamInvariant(depth, handlers, steps);
  }

  /** The batches the peer handed to ProcessBatch, in order. */
  function Offered(depth: int, handlers: nat, steps: seq<Step>): seq<Batch> {
    if steps == [] then []
    else
      var p, step := steps[..|steps| - 1], steps[|steps| - 1];
      if step.CallProcess? && Enabled(Run(depth, handlers, p), step) then Offered(depth, handlers, p) + [step.batch]
      else Offered(depth, handlers, p)
  }

  function InFlight(r: Recv): seq<Batch> { if r.Offering? then [r.batch] else [] }

  /** Backpressure drops nothing: until the stream is torn down every batch the peer offered is
      accepted, in order, except the one the receive loop is blocked on. */
  lemma {:induction false} OfferedIsAccepted(depth: int, handlers: nat, steps: seq<Step>)
    ensures var s := Run(depth, handlers, steps);
            !s.cancelled ==> s.accepted + InFlight(s.recv) == Offered(depth, handlers, steps)
  {
    if steps != [] {
      var p := steps[..|steps| - 1];
      OfferedIsAccepted(depth, handlers, p);
      StreamInvariant(depth, handlers, p);
      OfferStep(Run(depth, handlers, p), steps[|steps| - 1]);
    }
  }

  /** One step adds to what is held exactly the batch it offers, unless the stream is cancelled. */
  lemma OfferStep(s: State, step: Step)
    ensures var t := Next(s, step);
            && (s.cancelled ==> t.cancelled)
            && (!t.cancelled ==>
                  t.accepted + InFlight(t.recv)
                  == if step.CallProcess? && Enabled(s, step) then s.accepted + InFlight(s.recv) + [step.batch]
                     else s.accepted + InFlight(s.recv))
  {
  }

  /** A worker that leaves on its own, after the receive loop has returned, leaves nothing
      offered behind. */
  lemma {:induction false} OfferedBeforeEnd(depth: int, handlers: nat, steps: seq<Step>)
    requires var s := Run(depth, handlers, steps);
             s.recv.Returned? && !s.callerCancelled && LeftCleanly(s)
    ensures Run(depth, handlers, steps).accepted == Offered(depth, handlers, steps)
  {
    var p, step := steps[..|steps| - 1], steps[|steps| - 1];
    var s, t := Run(depth, handlers, p), Run(depth, handlers, steps);
    StreamInvariant(depth, handlers, p);
    if s.recv.Returned? && LeftCleanly(s) {
      OfferedBeforeEnd(depth, handlers, p);
      SettledStep(s, step);
    } else {
      OfferedIsAccepted(depth, handlers, p);
      FirstCleanLeave(s, step);
    }
  }

  lemma SettledStep(s: State, step: Step)
    requires Inv(s) && s.recv.Returned?
    ensures Next(s, step).accepted == s.accepted && !(step.CallProcess? && Enabled(s, step))
  {
  }

  /** Nothing had been cancelled yet, and nothing was in flight. */
  lemma FirstCleanLeave(s: State, step: Step)
    requires Inv(s) && !(s.recv.Returned? && LeftCleanly(s))
    requires var t := Next(s, step); t.recv.Returned? && !t.callerCancelled && LeftCleanly(t)
    ensures !s.cancelled && InFlight(s.recv) == [] && Next(s, step).accepted == s.accepted
    ensures !(step.CallProcess? && Enabled(s, step))
  {
  }

  /** When Stream ends without a handler error and was not cancelled by its caller, every batch
      the peer offered was handled by every handler, in order. */
  lemma NothingIsLost(depth: int, handlers: nat, steps: seq<Step>, j: nat)
    requires j < handlers
    requires var s := Run(depth, handlers, steps);
             s.main.Done? && !s.callerCancelled && s.worker.Gone? && s.worker.failed.None?
    ensures var s := Run(depth, handlers, steps);
            |s.handled| == handlers && s.handled[j] == s.accepted == Offered(depth, handlers, steps)
  {
    StreamInvariant(depth, handlers, steps);
    OfferedBeforeEnd(depth, handlers, steps);
    var s := Run(depth, handlers, steps);
    assert s.taken + [] == s.taken;
  }

  // ------------------------------------------------------------ cancellation

  /** The worker may still take a batch: it is in its select, having checked the context. */
  function MayTake(s: State): nat { if s.worker.Selecting? then 1 else 0 }

  lemma CancelledStep(s: State, step: Step)
    requires s.cancelled
    ensures var t := Next(s, step);
            t.cancelled && |s.taken| <= |t.taken| && |t.taken| + MayTake(t) <= |s.taken| + MayTake(s)
  {
  }

  /** Once the stream is cancelled the worker takes at most one batch more, however the run
      goes on. */
  lemma {:induction false} AtMostOneMore(depth: int, handlers: nat, steps: seq<Step>, more: seq<Step>)
    requires Run(depth, handlers, steps).cancelled
    ensures var (s, t) := (Run(depth, handlers, steps), Run(depth, handlers, steps + more));
            t.cancelled && |t.taken| + MayTake(t) <= |s.taken| + MayTake(s) <= |s.taken| + 1
  {
    if more == [] {
      assert steps + more == steps;
    } else {
      var p := more[..|more| - 1];
      AtMostOneMore(depth, handlers, steps, p);
      assert (steps + more)[..|steps + more| - 1] == steps + p;
      CancelledStep(Run(depth, handlers, steps + p), more[|more| - 1]);
    }
  }

  /** Cancelling by the caller, and the end of the worker, do cancel the stream. */
  lemma WhatCancels(depth: int, handlers: nat, steps: seq<Step>)
    ensures var s := Run(depth, handlers, steps);
            s.callerCancelled || s.worker.Gone? || s.main.Done? <==> s.cancelled
  {
    StreamInvariant(depth, handlers, steps);
    CallerCancelCancels(depth, handlers, steps);
  }

  lemma {:induction false} CallerCancelCancels(depth: int, handlers: nat, steps: seq<Step>)
    ensures Run(depth, handlers, steps).callerCancelled ==> Run(depth, handlers, steps).cancelled
  {
    if steps != [] {
      CallerCancelCancels(depth, handlers, steps[..|steps| - 1]);
      FlagStep(Run(depth, handlers, steps[..|steps| - 1]), steps[|steps| - 1]);
    }
  }

  lemma FlagStep(s: State, step: Step)
    requires s.callerCancelled ==> s.cancelled
    ensures Next(s, step).callerCancelled ==> Next(s, step).cancelled
    ensures Next(s, step).callerCancelled <==> s.callerCancelled || step.CallerCancels?
  {
  }

  // ------------------------------------------------------------ no stuck state

  /** The goroutine that runs the handlers can always move, unless it has exited or waits
      on an empty queue that is still open with nothing cancelled. */
  lemma WorkerCanMove(s: State)
    requires Inv(s) && !s.worker.Gone? && (s.worker.Selecting? ==> s.queue != [] || s.cancelled || !s.main.InStream?)
    ensures exists step :: WorkerStep(step) && Enabled(s, step)
  {
    match s.worker
    case LoopHead => assert WorkerStep(CheckContext) && Enabled(s, CheckContext);
    case Selecting =>
      if s.cancelled {
        assert WorkerStep(WorkerSeesCancel) && Enabled(s, WorkerSeesCancel);
      } else if s.queue != [] {
        assert WorkerStep(WorkerTakes) && Enabled(s, WorkerTakes);
      } else {
        assert WorkerStep(WorkerSeesClosed) && Enabled(s, WorkerSeesClosed);
      }
    case Running(_, _) => assert WorkerStep(HandlerReturns(true)) && Enabled(s, HandlerReturns(true));
    case Leaving(_) => assert WorkerStep(WorkerEnds) && Enabled(s, WorkerEnds);
  }

  /** A receive loop blocked on a full queue is never stuck: it can abort or send, or the
      worker can move. */
  lemma BlockedReceiverIsReleased(depth: int, handlers: nat, steps: seq<Step>)
    requires Run(depth, handlers, steps).recv.Offering?
    ensures var s := Run(depth, handlers, steps);
            Enabled(s, OfferSend) || Enabled(s, OfferAbort) || exists step :: WorkerStep(step) && Enabled(s, step)
  {
    StreamInvariant(depth, handlers, steps);
    var s := Run(depth, handlers, steps);
    if |s.queue| == s.depth && !s.cancelled { WorkerCanMove(s); }
  }

  /** Stream waiting for the worker is never stuck. */
  lemma AwaitingEnds(depth: int, handlers: nat, steps: seq<Step>)
    requires Run(depth, handlers, steps).main.Awaiting?
    ensures var s := Run(depth, handlers, steps);
            Enabled(s, MainReturns) || exists step :: WorkerStep(step) && Enabled(s, step)
  {
    StreamInvariant(depth, handlers, steps);
    var s := Run(depth, handlers, steps);
    if !s.worker.Gone? { WorkerCanMove(s); }
  }

  /** An upper bound on the worker's remaining steps once nothing can be enqueued. */
  function Remaining(s: State): nat {
    var phase := match s.worker
      case Gone(_) => 0
      case Leaving(_) => 1
      case Selecting => 2
      case LoopHead => 3
      case Running(_, i) => if i < |s.handled| then 4 + |s.handled| - i else 4;
    |s.queue| * (|s.handled| + 5) + phase
  }

  /** ... and the wait is bounded: every step of the worker brings it closer to its end. */
  lemma WorkerStepsAreBounded(s: State, step: Step)
    requires WorkerStep(step) && Enabled(s, step)
    ensures Remaining(Next(s, step)) < Remaining(s)
  {
    if step.WorkerTakes? {
      var n := |s.handled| + 5;
      assert |s.queue| * n == (|s.queue| - 1) * n + n;
    }
  }

  /** After the receive loop has returned no other step can add to the queue. */
  lemma NothingIsEnqueuedAfterReturn(s: State, step: Step)
    requires Inv(s) && s.recv.Returned? && !WorkerStep(step)
    ensures Next(s, step).queue == s.queue && Remaining(Next(s, step)) == Remaining(s) && Next(s, step).recv.Returned?
  {
  }

  /** How many steps the worker takes during `more`. */
  function WorkerMoves(depth: int, handlers: nat, steps: seq<Step>, more: seq<Step>): nat {
    if more == [] then 0
    else
      var p, step := more[..|more| - 1], more[|more| - 1];
      WorkerMoves(depth, handlers, steps, p)
      + if WorkerStep(step) && Enabled(Run(depth, handlers, steps + p), step) then 1 else 0
  }

  /** However the run goes on after the receive loop has returned, the worker takes no more
      than the remaining number of steps: the wait in Stream is finite. */
  lemma {:induction false} WaitIsBounded(depth: int, handlers: nat, steps: seq<Step>, more: seq<Step>)
    requires Run(depth, handlers, steps).recv.Returned?
    ensures Run(depth, handlers, steps + more).recv.Returned?
    ensures WorkerMoves(depth, handlers, steps, more) + Remaining(Run(depth, handlers, steps + more))
         <= Remaining(Run(depth, handlers, steps))
  {
    if more == [] {
      assert steps + more == steps;
    } else {
      var p, step := more[..|more| - 1], more[|more| - 1];
      WaitIsBounded(depth, handlers, steps, p);
      assert (steps + more)[..|steps + more| - 1] == steps + p;
      StreamInvariant(depth, handlers, steps + p);
      AfterReturn(Run(depth, handlers, steps + p), step);
    }
  }

  lemma AfterReturn(s: State, step: Step)
    requires Inv(s) && s.recv.Returned?
    ensures Next(s, step).recv.Returned?
    ensures Remaining(Next(s, step)) + (if WorkerStep(step) && Enabled(s, step) then 1 else 0) <= Remaining(s)
  {
    if !WorkerStep(step) {
      NothingIsEnqueuedAfterReturn(s, step);
    } else if Enabled(s, step) {
      WorkerStepsAreBounded(s, step);
    }
  }

  /** Nothing is ever sent on the closed queue. */
  lemma NoSendAfterClose(depth: int, handlers: nat, steps: seq<Step>, step: Step)
    requires !Run(depth, handlers, steps).main.InStream?
    ensures Next(Run(depth, handlers, steps), step).accepted == Run(depth, handlers, steps).accepted
  {
    StreamInvariant(depth, handlers, steps);
  }
}
