/** The pending-waiter table of notification/finality.go.  Register, Unregister, the stream's
    events and reconciliation act on it in any order; each does so under the mutex. */
module Finality {
  import opened Types

  datatype Event = Event(txId: string, status: Status, blockNum: nat)

  /** An event put into a channel, and whether reconciliation put it there. */
  datatype Sent = Sent(event: Event, reconciled: bool)

  /** A response channel (capacity 1) made for a transaction, with all it was ever sent. */
  datatype Chan = Chan(txId: string, sent: seq<Sent>)

  /** `pending` maps a transaction to the index of the channel that waits for it. */
  datatype Table = Table(pending: map<string, nat>, chans: seq<Chan>)

  const Empty := Table(map[], [])

  // ------------------------------------------------------------------ operations

  /** The channel is made before the duplicate check; `None` is ErrAlreadyRegistered. */
  function Registered(t: Table, txId: string): (Table, Option<nat>) {
    var chans := t.chans + [Chan(txId, [])];
    if txId in t.pending then (Table(t.pending, chans), None)
    else (Table(t.pending[txId := |t.chans|], chans), Some(|t.chans|))
  }

  function Unregistered(t: Table, txId: string): Table { t.(pending := t.pending - {txId}) }

  function Delivered(t: Table, e: Event, reconciled: bool): Table {
    if e.txId !in t.pending || t.pending[e.txId] >= |t.chans| then t
    else
      var c := t.pending[e.txId];
      var ch := t.chans[c].(sent := t.chans[c].sent + [Sent(e, reconciled)]);
      Table(t.pending - {e.txId}, t.chans[c := ch])
  }

  function HandledAll(t: Table, es: seq<Event>, reconciled: bool): Table {
    if es == [] then t
    else Delivered(HandledAll(t, es[..|es| - 1], reconciled), es[|es| - 1], reconciled)
  }

  function FinalOnly(es: seq<Event>): (out: seq<Event>)
    ensures forall e :: e in out <==> e in es && e.status.IsFinal()
  {
    if es == [] then []
    else
      var last, p := es[|es| - 1], FinalOnly(es[..|es| - 1]);
      assert es == es[..|es| - 1] + [last];
      if last.status.IsFinal() then p + [last] else p
  }

  function Reconciled(t: Table, es: seq<Event>): Table { HandledAll(t, FinalOnly(es), true) }

  ghost predicate Inv(t: Table) {
    && (forall x | x in t.pending :: t.pending[x] < |t.chans| && t.chans[t.pending[x]] == Chan(x, []))
    && (forall c | 0 <= c < |t.chans| ::
          && |t.chans[c].sent| <= 1
          && forall m | m in t.chans[c].sent ::
               m.event.txId == t.chans[c].txId && (m.reconciled ==> m.event.status.IsFinal()))
  }

  class FinalityListener {
    var pending: map<string, nat>
    var chans: seq<Chan>

    ghost function Contents(): Table
      reads this
    {
      Table(pending, chans)
    }

    constructor ()
      ensures Contents() == Empty
    {
      pending, chans := map[], [];
    }

    /** The critical section of Register. */
    method Register(txId: string) returns (ch: Option<nat>)
      modifies this
      ensures (Contents(), ch) == Registered(old(Contents()), txId)
    {
      var responseCh := |chans|;
      chans := chans + [Chan(txId, [])];
      if txId in pending { return None; }
      pending := pending[txId := responseCh];
      return Some(responseCh);
    }

    /** Also what Register does when its context ends before the subscription is queued. */
    method Unregister(txId: string)
      modifies this
      ensures Contents() == Unregistered(old(Contents()), txId)
    {
      pending := pending - {txId};
    }

    /** `reconciled` records on whose behalf it is called. */
    method Handle(es: seq<Event>, reconciled: bool)
      requires Inv(Contents()) && (reconciled ==> forall e | e in es :: e.status.IsFinal())
      modifies this
      ensures Contents() == HandledAll(old(Contents()), es, reconciled) && Inv(Contents())
    {
      for i := 0 to |es|
        invariant Inv(Contents()) && Contents() == HandledAll(old(Contents()), es[..i], reconciled)
      {
        assert es[..i + 1][..i] == es[..i];
        DeliverKeeps(Contents(), es[i], reconciled);
        if es[i].txId in pending {
          var c := pending[es[i].txId];
          assert chans[c].sent == [];  // the channel is empty: the send never blocks
          chans := chans[c := Chan(chans[c].txId, chans[c].sent + [Sent(es[i], reconciled)])];
          pending := pending - {es[i].txId};
        }
      }
      assert es[..|es|] == es;
    }

    /** Deliver what the status query found to be final; `answer` is `Err` when it failed. */
    method Reconcile(answer: Result<seq<Event>>)
      requires Inv(Contents())
      modifies this
      ensures Contents() == if answer.Ok? then Reconciled(old(Contents()), answer.value) else old(Contents())
      ensures Inv(Contents())
    {
      if answer.Err? { return; }
      var es, final: seq<Event> := answer.value, [];
      for i := 0 to |es|
        invariant final == FinalOnly(es[..i])
      {
        assert es[..i + 1][..i] == es[..i];
        if es[i].status.IsFinal() { final := final + [es[i]]; }
      }
      assert es[..|es|] == es;
      if |final| > 0 { Handle(final, true); }
    }
  }

  // ---------------------------------------------------------------- conservation

  lemma DeliverKeeps(t: Table, e: Event, reconciled: bool)
    requires Inv(t) && (reconciled ==> e.status.IsFinal())
    ensures Inv(Delivered(t, e, reconciled))
  {
  }

  lemma {:induction false} HandleKeeps(t: Table, es: seq<Event>, reconciled: bool)
    requires Inv(t) && (reconciled ==> forall e | e in es :: e.status.IsFinal())
    ensures Inv(HandledAll(t, es, reconciled)) && |HandledAll(t, es, reconciled).chans| == |t.chans|
  {
    if es != [] {
      HandleKeeps(t, es[..|es| - 1], reconciled);
      DeliverKeeps(HandledAll(t, es[..|es| - 1], reconciled), es[|es| - 1], reconciled);
    }
  }

  /** Every operation a client, the stream or a (possibly outdated) reconciliation performs. */
  datatype Step =
    | RegisterStep(txId: string)
    | UnregisterStep(txId: string)
    | StreamStep(events: seq<Event>)
    | ReconcileStep(answer: seq<Event>)

  function Next(t: Table, step: Step): Table {
    match step
    case RegisterStep(x) => Registered(t, x).0
    case UnregisterStep(x) => Unregistered(t, x)
    case StreamStep(es) => HandledAll(t, es, false)
    case ReconcileStep(es) => Reconciled(t, es)
  }

  function Run(steps: seq<Step>): Table {
    if steps == [] then Empty else Next(Run(steps[..|steps| - 1]), steps[|steps| - 1])
  }

  lemma StepKeeps(t: Table, step: Step)
    requires Inv(t)
    ensures Inv(Next(t, step)) && |t.chans| <= |Next(t, step).chans|
  {
    match step
    case StreamStep(es) => HandleKeeps(t, es, false);
    case ReconcileStep(es) => HandleKeeps(t, FinalOnly(es), true);
    case _ =>
  }

  lemma {:induction false} RunKeeps(steps: seq<Step>)
    ensures Inv(Run(steps))
  {
    if steps != [] {
      RunKeeps(steps[..|steps| - 1]);
      StepKeeps(Run(steps[..|steps| - 1]), steps[|steps| - 1]);
    }
  }

  datatype Fate = Waiting | Given(sent: Sent) | Dropped

  predicate IsPending(t: Table, c: nat) {
    c < |t.chans| && t.chans[c].txId in t.pending && t.pending[t.chans[c].txId] == c
  }

  function FateOf(t: Table, c: nat): Fate
    requires c < |t.chans|
  {
    if IsPending(t, c) then Waiting else if t.chans[c].sent != [] then Given(t.chans[c].sent[0]) else Dropped
  }

  /** In every interleaving each channel ever made is exactly one of: pending and empty, given
      one event that carries its own transaction (final, when reconciliation gave it), or
      dropped and empty. */
  lemma Conservation(steps: seq<Step>, c: nat)
    requires c < |Run(steps).chans|
    ensures var t := Run(steps); var ch := t.chans[c];
            match FateOf(t, c)
            case Waiting => ch.sent == []
            case Given(m) => ch.sent == [m] && !IsPending(t, c) && m.event.txId == ch.txId
                             && (m.reconciled ==> m.event.status.IsFinal())
            case Dropped => ch.sent == [] && !IsPending(t, c)
  {
    RunKeeps(steps);
  }

  /** A channel that is no longer pending never changes again. */
  lemma {:induction false} SettledStays(steps: seq<Step>, more: seq<Step>, c: nat)
    requires c < |Run(steps).chans| && !IsPending(Run(steps), c)
    ensures c < |Run(steps + more).chans| && !IsPending(Run(steps + more), c)
         && Run(steps + more).chans[c] == Run(steps).chans[c]
  {
    if more == [] {
      assert steps + more == steps;
    } else {
      var all := steps + more[..|more| - 1];
      assert (steps + more)[..|steps + more| - 1] == all;
      SettledStays(steps, more[..|more| - 1], c);
      RunKeeps(all);
      StepSettled(Run(all), more[|more| - 1], c);
    }
  }

  lemma StepSettled(t: Table, step: Step, c: nat)
    requires Inv(t) && c < |t.chans| && !IsPending(t, c)
    ensures c < |Next(t, step).chans| && !IsPending(Next(t, step), c) && Next(t, step).chans[c] == t.chans[c]
  {
    match step
    case StreamStep(es) => HandleSettled(t, es, false, c);
    case ReconcileStep(es) => HandleSettled(t, FinalOnly(es), true, c);
    case _ =>
  }

  lemma {:induction false} HandleSettled(t: Table, es: seq<Event>, reconciled: bool, c: nat)
    requires Inv(t) && c < |t.chans| && !IsPending(t, c) && (reconciled ==> forall e | e in es :: e.status.IsFinal())
    ensures var u := HandledAll(t, es, reconciled); c < |u.chans| && !IsPending(u, c) && u.chans[c] == t.chans[c]
  {
    if es != [] {
      HandleSettled(t, es[..|es| - 1], reconciled, c);
      HandleKeeps(t, es[..|es| - 1], reconciled);
    }
  }

  // --------------------------------------------------------- what Handle resolves

  /** The first event of a transaction in a batch. */
  function FirstFor(es: seq<Event>, x: string): Option<Event> {
    if es == [] then None else if es[0].txId == x then Some(es[0]) else FirstFor(es[1..], x)
  }

  lemma {:induction false} FirstForSnoc(es: seq<Event>, e: Event, x: string)
    ensures FirstFor(es + [e], x)
         == if FirstFor(es, x).Some? then FirstFor(es, x) else if e.txId == x then Some(e) else None
  {
    if es != [] {
      assert (es + [e])[1..] == es[1..] + [e];
      FirstForSnoc(es[1..], e, x);
    } else {
      assert [] + [e] == [e] && [e][1..] == [];
    }
  }

  /** A batch gives every waiter it mentions the first event about its transaction, removes it
      from the table, and leaves the other waiters waiting. */
  lemma {:induction false} HandleResolves(t: Table, es: seq<Event>, reconciled: bool, x: string)
    requires Inv(t) && (reconciled ==> forall e | e in es :: e.status.IsFinal()) && x in t.pending
    ensures var u := HandledAll(t, es, reconciled);
            |u.chans| == |t.chans| &&
            match FirstFor(es, x)
            case Some(e) => x !in u.pending && u.chans[t.pending[x]] == Chan(x, [Sent(e, reconciled)])
            case None => x in u.pending && u.pending[x] == t.pending[x] && u.chans[t.pending[x]] == Chan(x, [])
  {
    if es != [] {
      var p, e := es[..|es| - 1], es[|es| - 1];
      HandleResolves(t, p, reconciled, x);
      HandleKeeps(t, p, reconciled);
      FirstForSnoc(p, e, x);
      assert p + [e] == es;
      var u := HandledAll(t, p, reconciled);
      if e.txId in u.pending && e.txId != x { assert u.chans[u.pending[e.txId]].txId == e.txId; }
    }
  }

  /** Registering makes one new empty channel.  It waits for the transaction unless another one
      already does; that one is left as it is, like every other waiter. */
  lemma RegisterMeans(t: Table, x: string)
    requires Inv(t)
    ensures var (u, ch) := Registered(t, x);
            && (ch.Some? <==> x !in t.pending)
            && t.chans <= u.chans && |u.chans| == |t.chans| + 1 && u.chans[|t.chans|] == Chan(x, [])
            && (forall y | y in t.pending :: y in u.pending && u.pending[y] == t.pending[y])
            && (forall y | y in u.pending && y !in t.pending :: y == x)
            && x in u.pending && (ch.Some? ==> ch.value == u.pending[x] == |t.chans|)
  {
  }

  /** Unregistering ends the wait of that transaction only, and sends nothing. */
  lemma UnregisterMeans(t: Table, x: string)
    ensures var u := Unregistered(t, x);
            && u.chans == t.chans && x !in u.pending
            && forall y | y != x ::
                 (y in u.pending <==> y in t.pending) && (y in t.pending ==> u.pending[y] == t.pending[y])
  {
  }

  /** Position `i` holds the first final event for the transaction. */
  ghost predicate FirstFinalAt(es: seq<Event>, x: string, i: int) {
    && 0 <= i < |es| && es[i].txId == x && es[i].status.IsFinal()
    && forall j | 0 <= j < i && es[j].txId == x :: !es[j].status.IsFinal()
  }

  lemma {:induction false} FirstOfFinal(es: seq<Event>, x: string)
    ensures match FirstFor(FinalOnly(es), x)
            case Some(e) => exists i :: FirstFinalAt(es, x, i) && es[i] == e
            case None => forall e | e in es && e.txId == x :: !e.status.IsFinal()
  {
    if es != [] {
      var p, last := es[..|es| - 1], es[|es| - 1];
      FirstOfFinal(p, x);
      assert es == p + [last];
      if last.status.IsFinal() { FirstForSnoc(FinalOnly(p), last, x); }
      if FirstFor(FinalOnly(p), x).Some? {
        var i :| FirstFinalAt(p, x, i) && p[i] == FirstFor(FinalOnly(p), x).value;
        assert FirstFinalAt(es, x, i);
      } else if last.status.IsFinal() && last.txId == x {
        assert forall j | 0 <= j < |p| :: es[j] in p;
        assert FirstFinalAt(es, x, |p|);
      }
    }
  }

  /** Reconciliation gives a waiter the first final event of the answer for its transaction, and
      leaves it waiting when there is none. */
  lemma ReconcileResolves(t: Table, es: seq<Event>, x: string)
    requires Inv(t) && x in t.pending
    ensures var u := Reconciled(t, es);
            && |u.chans| == |t.chans|
            && (forall i | FirstFinalAt(es, x, i) ::
                  x !in u.pending && u.chans[t.pending[x]] == Chan(x, [Sent(es[i], true)]))
            && ((forall e | e in es && e.txId == x :: !e.status.IsFinal()) ==>
                  x in u.pending && u.pending[x] == t.pending[x] && u.chans[t.pending[x]] == Chan(x, []))
  {
    HandleResolves(t, FinalOnly(es), true, x);
    FirstOfFinal(es, x);
    assert forall i, j | FirstFinalAt(es, x, i) && FirstFinalAt(es, x, j) :: i == j;
    assert forall i | FirstFinalAt(es, x, i) :: es[i] in es;
  }

  // ----------------------------------------------- a Register that gives up late

  /** Unregister goes by transaction, not by channel: a Register that gives up takes another
      caller's waiter with it exactly when its own is no longer pending and the transaction was
      registered again in the meantime. */
  lemma AbortDropsAnotherIff(t: Table, x: string, own: nat)
    requires Inv(t) && own < |t.chans| && t.chans[own].txId == x
    ensures (exists c: nat :: c != own && IsPending(t, c) && !IsPending(Unregistered(t, x), c))
       <==> x in t.pending && t.pending[x] != own
  {
    if x in t.pending && t.pending[x] != own {
      var c := t.pending[x];
      assert c != own && IsPending(t, c) && !IsPending(Unregistered(t, x), c);
    }
  }

  /** It does happen: the second caller never unregistered, and its channel stays empty. */
  lemma AbortDropsAnother(x: string, e: Event)
    requires e.txId == x
    ensures var t := Run([RegisterStep(x), StreamStep([e]), RegisterStep(x), UnregisterStep(x)]);
            && |t.chans| == 2 && FateOf(t, 0) == Given(Sent(e, false)) && FateOf(t, 1) == Dropped
  {
    var a, b, d := RegisterStep(x), StreamStep([e]), UnregisterStep(x);
    assert [a][..0] == [] && [a, b][..1] == [a] && [a, b, a][..2] == [a, b] && [a, b, a, d][..3] == [a, b, a];
    assert [e][..0] == [];
    var t := Table(map[x := 0], [Chan(x, [])]);
    assert Run([a]) == t && t.pending - {x} == map[];
    assert Delivered(t, e, false) == Table(map[], [Chan(x, [Sent(e, false)])]) by {
      assert t.chans[0].sent + [Sent(e, false)] == [Sent(e, false)];
      assert t.chans[0 := Chan(x, [Sent(e, false)])] == [Chan(x, [Sent(e, false)])];
    }
    assert HandledAll(t, [e], false) == Delivered(HandledAll(t, [], false), e, false);
    assert Run([a, b]) == HandledAll(Run([a]), [e], false);
    assert Run([a, b, a]) == Table(map[x := 1], [Chan(x, [Sent(e, false)]), Chan(x, [])]);
    assert Run([a, b, a, d]) == Unregistered(Run([a, b, a]), x);
  }
}
