/** The batching loop of the test orderer (fabrictest/orderer.go): one goroutine that selects
    among incoming envelopes, a timer, forced cuts, reverts and the stop signal. */
module Orderer {
  import opened Types
  import opened Parser

  /** A cut time of zero cuts at once; a maximum of zero or less means no limit. */
  datatype Config = Config(blockCutTime: int, maxTxPerBlock: int)

  /** What the select picks.  `ok` says whether the ledger call it leads to succeeds. */
  datatype Event =
    | Arrives(env: Envelope, ok: bool)
    | TimerFires(ok: bool)
    | CutRequest(ok: bool)
    | RevertRequest(num: nat, ok: bool)
    | StopSignal

  /** `cuts` holds the envelopes of each block after genesis.  The loop is over after the
      stop signal, or after a panic in flush. */
  datatype State = State(batch: seq<Envelope>, armed: bool, cuts: seq<seq<Envelope>>, over: bool)

  const Initial := State([], false, [], false)

  function Flushed(s: State, ok: bool): State {
    if s.batch == [] then s
    else if !ok then s.(over := true)
    else State([], false, s.cuts + [s.batch], false)
  }

  predicate CutsNow(cfg: Config, n: nat) {
    cfg.blockCutTime == 0 || (cfg.maxTxPerBlock > 0 && n >= cfg.maxTxPerBlock)
  }

  /** The timer can only fire while it is armed. */
  function Next(cfg: Config, s: State, e: Event): State {
    if s.over then s
    else
      match e
      case Arrives(env, ok) =>
        var batch := s.batch + [env];
        var t := s.(batch := batch, armed := s.armed || (|batch| == 1 && cfg.blockCutTime > 0));
        if CutsNow(cfg, |batch|) then Flushed(t, ok) else t
      case TimerFires(ok) => if s.armed then Flushed(s, ok) else s
      case CutRequest(ok) => if ok then s.(cuts := s.cuts + [[]]) else s
      case RevertRequest(num, ok) =>
        State([], false, if ok && num <= |s.cuts| then s.cuts[..num] else s.cuts, false)
      case StopSignal => s.(over := true)
  }

  function Run(cfg: Config, es: seq<Event>): State {
    if es == [] then Initial else Next(cfg, Run(cfg, es[..|es| - 1]), es[|es| - 1])
  }

  method BatchingLoop(cfg: Config, es: seq<Event>)
    returns (cuts: seq<seq<Envelope>>, batch: seq<Envelope>, armed: bool, over: bool)
    ensures State(batch, armed, cuts, over) == Run(cfg, es)
  {
    cuts, batch, armed, over := [], [], false, false;
    for i := 0 to |es|
      invariant State(batch, armed, cuts, over) == Run(cfg, es[..i])
    {
      assert es[..i + 1][..i] == es[..i];
      if over { continue; }
      var flush, ok := false, true;
      match es[i] {
        case Arrives(env, processed) =>
          batch := batch + [env];
          if |batch| == 1 && cfg.blockCutTime > 0 { armed := true; }
          flush, ok := CutsNow(cfg, |batch|), processed;
        case TimerFires(processed) =>
          flush, ok := armed, processed;
        case CutRequest(processed) =>
          if processed { cuts := cuts + [[]]; }
        case RevertRequest(num, processed) =>
          batch, armed := [], false;
          if processed && num <= |cuts| { cuts := cuts[..num]; }
        case StopSignal =>
          over := true;
      }
      if flush && |batch| != 0 {
        if !ok {
          over := true;
        } else {
          cuts := cuts + [batch];
          batch, armed := [], false;
        }
      }
    }
    assert es[..|es|] == es;
  }

  // ---------------------------------------------------------------- properties

  ghost predicate Inv(cfg: Config, s: State) {
    && (s.armed <==> s.batch != [] && cfg.blockCutTime > 0)
    && (cfg.maxTxPerBlock > 0 ==>
          && (forall c | c in s.cuts :: |c| <= cfg.maxTxPerBlock)
          && |s.batch| <= cfg.maxTxPerBlock && (!s.over ==> |s.batch| < cfg.maxTxPerBlock))
  }

  /** In every event sequence the timer is armed exactly when the batch is non-empty and a cut
      time is set, and no block exceeds a positive maximum. */
  lemma {:induction false} BatchingInvariant(cfg: Config, es: seq<Event>)
    ensures Inv(cfg, Run(cfg, es))
  {
    if es != [] {
      var s := Run(cfg, es[..|es| - 1]);
      BatchingInvariant(cfg, es[..|es| - 1]);
      if es[|es| - 1].RevertRequest? {
        assert forall num | 0 <= num <= |s.cuts| :: forall c | c in s.cuts[..num] :: c in s.cuts;
      }
    }
  }

  /** What each event does to a loop that is still running: an arrival joins the batch, which
      is cut when the cut time is zero or the maximum is reached; a fired timer cuts the batch; a
      forced cut adds one empty block and leaves the batch; a revert drops the batch and keeps the
      blocks up to the given one, or all of them when the ledger refuses. */
  lemma EventEffects(cfg: Config, es: seq<Event>, e: Event)
    requires !Run(cfg, es).over
    ensures var (s, t) := (Run(cfg, es), Run(cfg, es + [e]));
            match e
            case Arrives(env, ok) =>
              var full := cfg.maxTxPerBlock > 0 && |s.batch| + 1 >= cfg.maxTxPerBlock;
              if cfg.blockCutTime != 0 && !full then t.batch == s.batch + [env] && t.cuts == s.cuts && !t.over
              else if ok then t.batch == [] && t.cuts == s.cuts + [s.batch + [env]] && !t.over
              else t.over && t.cuts == s.cuts
            case TimerFires(ok) =>
              if s.batch == [] || cfg.blockCutTime <= 0 then t == s
              else if ok then t.batch == [] && t.cuts == s.cuts + [s.batch] && !t.over
              else t.over && t.cuts == s.cuts
            case CutRequest(ok) => t == s.(cuts := if ok then s.cuts + [[]] else s.cuts)
            case RevertRequest(num, ok) =>
              && t.batch == [] && !t.over
              && (if ok && num <= |s.cuts| then |t.cuts| == num && t.cuts <= s.cuts else t.cuts == s.cuts)
            case StopSignal => t == s.(over := true)
  {
    BatchingInvariant(cfg, es);
    assert (es + [e])[..|es|] == es;
  }

  /** With a zero cut time nothing ever waits. */
  lemma {:induction false} ZeroTimeNeverWaits(cfg: Config, es: seq<Event>)
    requires cfg.blockCutTime == 0 && !Run(cfg, es).over
    ensures Run(cfg, es).batch == []
  {
    if es != [] { ZeroTimeNeverWaits(cfg, es[..|es| - 1]); }
  }

  function Concat(cuts: seq<seq<Envelope>>): seq<Envelope> {
    if cuts == [] then [] else Concat(cuts[..|cuts| - 1]) + cuts[|cuts| - 1]
  }

  /** The envelopes taken from the input channel by the events `more`, while the loop ran. */
  function Received(cfg: Config, es: seq<Event>, more: seq<Event>): seq<Envelope> {
    if more == [] then []
    else
      var e, p := more[|more| - 1], more[..|more| - 1];
      if e.Arrives? && !Run(cfg, es + p).over then Received(cfg, es, p) + [e.env] else Received(cfg, es, p)
  }

  function Held(s: State): seq<Envelope> { Concat(s.cuts) + s.batch }

  lemma ConcatSnoc(cuts: seq<seq<Envelope>>, c: seq<Envelope>)
    ensures Concat(cuts + [c]) == Concat(cuts) + c
  {
    assert (cuts + [c])[..|cuts|] == cuts;
  }

  lemma FlushKeeps(s: State, ok: bool)
    ensures Held(Flushed(s, ok)) == Held(s)
  {
    ConcatSnoc(s.cuts, s.batch);
  }

  lemma StepKeepsEnvelopes(cfg: Config, s: State, e: Event)
    requires !e.RevertRequest?
    ensures Held(Next(cfg, s, e)) == if e.Arrives? && !s.over then Held(s) + [e.env] else Held(s)
  {
    match e
    case Arrives(env, ok) =>
      var t := s.(batch := s.batch + [env], armed := s.armed || (|s.batch| == 0 && cfg.blockCutTime > 0));
      assert Held(t) == Held(s) + [env];
      FlushKeeps(t, ok);
    case TimerFires(ok) => FlushKeeps(s, ok);
    case CutRequest(_) => ConcatSnoc(s.cuts, []);
    case StopSignal =>
  }

  lemma RunSnoc(cfg: Config, es: seq<Event>, more: seq<Event>)
    requires more != []
    ensures Run(cfg, es + more) == Next(cfg, Run(cfg, es + more[..|more| - 1]), more[|more| - 1])
  {
    assert (es + more)[..|es + more| - 1] == es + more[..|more| - 1];
  }

  /** From any point of a run up to the next revert, what the blocks and the pending batch
      hold grows by exactly the envelopes received, in order. */
  lemma {:induction false} NothingLostSince(cfg: Config, es: seq<Event>, more: seq<Event>)
    requires forall e | e in more :: !e.RevertRequest?
    ensures Held(Run(cfg, es + more)) == Held(Run(cfg, es)) + Received(cfg, es, more)
  {
    if more == [] {
      assert es + more == es;
    } else {
      assert forall x | x in more[..|more| - 1] :: x in more;
      NothingLostSince(cfg, es, more[..|more| - 1]);
      assert more[|more| - 1] in more;
      HeldNext(cfg, es, more);
    }
  }

  lemma HeldNext(cfg: Config, es: seq<Event>, more: seq<Event>)
    requires more != [] && !more[|more| - 1].RevertRequest?
    requires var p := more[..|more| - 1]; Held(Run(cfg, es + p)) == Held(Run(cfg, es)) + Received(cfg, es, p)
    ensures Held(Run(cfg, es + more)) == Held(Run(cfg, es)) + Received(cfg, es, more)
  {
    var p, e := more[..|more| - 1], more[|more| - 1];
    var s, h, r := Run(cfg, es + p), Held(Run(cfg, es)), Received(cfg, es, p);
    assert Held(Run(cfg, es + more)) == if e.Arrives? && !s.over then Held(s) + [e.env] else Held(s) by {
      RunSnoc(cfg, es, more);
      StepKeepsEnvelopes(cfg, s, e);
    }
    assert e.Arrives? ==> h + r + [e.env] == h + (r + [e.env]);
  }

  /** Without reverts, the envelopes of all blocks followed by the pending batch are exactly
      those received, in order, wherever forced empty blocks were cut. */
  lemma NothingLostOrReordered(cfg: Config, es: seq<Event>)
    requires forall e | e in es :: !e.RevertRequest?
    ensures Concat(Run(cfg, es).cuts) + Run(cfg, es).batch == Received(cfg, [], es)
  {
    NothingLostSince(cfg, [], es);
    assert [] + es == es;
  }
}
