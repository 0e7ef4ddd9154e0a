/** Keeping a local store in step with a peer (network/synchronizer.go, blocks/processor.go):
    blocks are delivered at least once, through a chain of handlers one of which is the
    store; streams break, parses and handlers fail, and every restart resumes from the
    height the store reports. */
module Replication {
  import opened Types
  import opened WorldState
  import opened Parser
  import Ledger
  import StatusCodes
  import TimeTravel

  // ---------------------------------------------------------- the handler chain

  /** The handlers in order: `logs[i]` is what handler `i` has succeeded on; the store sits
      at position `storeAt`. */
  datatype Handlers = Handlers(store: Store, logs: seq<seq<Block>>, storeAt: nat)

  function Logged(h: Handlers, i: nat, b: Block): Handlers
    requires i < |h.logs|
  {
    h.(logs := h.logs[i := h.logs[i] + [b]])
  }

  /** Run the handlers from `i` on, stopping at the first error.  `oks(i)` says whether
      handler `i` succeeds; for the store, whether its database does. */
  function RunHandlers(h: Handlers, b: Block, oks: nat -> bool, i: nat): (Handlers, bool)
    requires i <= |h.logs|
    decreases |h.logs| - i
  {
    if i == |h.logs| then (h, true)
    else if !oks(i) then (h, false)
    else if i == h.storeAt then
      match Update(h.store, b)
      case Err => (h, false)
      case Ok(s) => RunHandlers(Logged(h.(store := s), i, b), b, oks, i + 1)
    else RunHandlers(Logged(h, i, b), b, oks, i + 1)
  }

  function ProcessedBlock(p: Protocol, h: Handlers, raw: RawBlock, oks: nat -> bool): (Handlers, bool) {
    match Parsed(p, raw)
    case Err => (h, false)
    case Ok(b) => RunHandlers(h, b, oks, 0)
  }

  class Processor {
    const proto: Protocol
    var handlers: Handlers

    constructor (proto: Protocol, count: nat, storeAt: nat)
      ensures this.proto == proto && handlers == Handlers(EmptyStore, seq(count, _ => []), storeAt)
    {
      this.proto := proto;
      handlers := Handlers(EmptyStore, seq(count, _ => []), storeAt);
    }

    method ProcessBlock(raw: RawBlock, oks: nat -> bool) returns (ok: bool)
      modifies this
      ensures (handlers, ok) == ProcessedBlock(proto, old(handlers), raw, oks)
    {
      var r := Parse(proto, raw);
      if r.Err? { return false; }
      var i := 0;
      while i < |handlers.logs|
        invariant i <= |handlers.logs| == |old(handlers).logs|
        invariant RunHandlers(old(handlers), r.value, oks, 0) == RunHandlers(handlers, r.value, oks, i)
      {
        if !oks(i) { return false; }
        if i == handlers.storeAt {
          var u := Update(handlers.store, r.value);
          if u.Err? { return false; }
          handlers := Logged(handlers.(store := u.value), i, r.value);
        } else {
          handlers := Logged(handlers, i, r.value);
        }
        i := i + 1;
      }
      return true;
    }
  }

  /** Whatever fails, the store moves by at most this one block, and only after every handler
      before it has succeeded on the block. */
  lemma {:induction false} HandlersInOrder(h: Handlers, b: Block, oks: nat -> bool, i: nat)
    requires i <= |h.logs|
    ensures var (g, ok) := RunHandlers(h, b, oks, i);
            && g.storeAt == h.storeAt && |g.logs| == |h.logs|
            && (forall j | 0 <= j < |h.logs| :: h.logs[j] <= g.logs[j])
            && (g.store == h.store || (i <= h.storeAt && Update(h.store, b) == Ok(g.store)
                                       && forall j | i <= j < h.storeAt :: j < |g.logs| && b in g.logs[j]))
            && (ok && i <= h.storeAt < |h.logs| ==> Update(h.store, b) == Ok(g.store))
    decreases |h.logs| - i
  {
    if i < |h.logs| && oks(i) {
      if i == h.storeAt {
        var u := Update(h.store, b);
        if u.Ok? { HandlersInOrder(Logged(h.(store := u.value), i, b), b, oks, i + 1); }
      } else {
        HandlersInOrder(Logged(h, i, b), b, oks, i + 1);
        var before, after := Logged(h, i, b).logs[i], RunHandlers(h, b, oks, i).0.logs[i];
        assert before <= after && before[|before| - 1] == b;
        assert after[|before| - 1] == b;
      }
    }
  }

  /** Handler `j` does not accept the block. */
  predicate Refuses(h: Handlers, b: Block, oks: nat -> bool, j: nat) {
    !oks(j) || (j == h.storeAt && Update(h.store, b).Err?)
  }

  /** Exactly the handlers before the first one that refuses, wherever the store sits among
      them, see the block, once; all of them when none does, and only then does it succeed. */
  lemma {:induction false} HandlersRun(h: Handlers, b: Block, oks: nat -> bool, i: nat) returns (f: nat)
    requires i <= |h.logs|
    ensures i <= f <= |h.logs| && (forall j | i <= j < f :: !Refuses(h, b, oks, j))
    ensures f < |h.logs| ==> Refuses(h, b, oks, f)
    ensures var (g, ok) := RunHandlers(h, b, oks, i);
            && (ok <==> f == |h.logs|)
            && g.storeAt == h.storeAt && |g.logs| == |h.logs|
            && (forall j | 0 <= j < |h.logs| :: g.logs[j] == if i <= j < f then h.logs[j] + [b] else h.logs[j])
            && Ok(g.store) == if i <= h.storeAt < f then Update(h.store, b) else Ok(h.store)
    decreases |h.logs| - i
  {
    if i == |h.logs| || Refuses(h, b, oks, i) {
      f := i;
    } else {
      var h' := Logged(if i == h.storeAt then h.(store := Update(h.store, b).value) else h, i, b);
      assert RunHandlers(h, b, oks, i) == RunHandlers(h', b, oks, i + 1);
      f := HandlersRun(h', b, oks, i + 1);
      assert forall j | i < j :: Refuses(h', b, oks, j) <==> Refuses(h, b, oks, j);
    }
  }

  // ------------------------------------------------------------- synchronization

  /** The peer's chain, the local handlers, and the block the open stream delivers next. */
  datatype Sync = Sync(chain: seq<RawBlock>, handlers: Handlers, stream: Option<nat>)

  datatype Step =
    | Grow(raw: RawBlock)
    | Connect
    | Deliver(oks: nat -> bool)
    | Break

  /** Height 0 may mean "nothing yet" or "block 0 is the last one": start from 0 either way. */
  function StartFrom(s: Store): nat { if BlockNumber(s) > 0 then BlockNumber(s) + 1 else 0 }

  /** The peer only appends the next block and delivers contiguously from the requested start. */
  function Next(p: Protocol, s: Sync, step: Step): Sync {
    match step
    case Grow(raw) => if raw.header.number == |s.chain| then s.(chain := s.chain + [raw]) else s
    case Connect => s.(stream := Some(StartFrom(s.handlers.store)))
    case Break => s.(stream := None)
    case Deliver(oks) =>
      if s.stream.None? || s.stream.value >= |s.chain| then s
      else
        var (h, ok) := ProcessedBlock(p, s.handlers, s.chain[s.stream.value], oks);
        Sync(s.chain, h, if ok then Some(s.stream.value + 1) else None)
  }

  function RunSync(p: Protocol, count: nat, storeAt: nat, steps: seq<Step>): Sync {
    if steps == [] then Sync([], Handlers(EmptyStore, seq(count, _ => []), storeAt), None)
    else Next(p, RunSync(p, count, storeAt, steps[..|steps| - 1]), steps[|steps| - 1])
  }

  /** How many blocks of the chain the store has applied. */
  function Applied(s: Store): nat { if s.progress.None? then 0 else s.progress.value + 1 }

  ghost predicate SyncInv(net: Ledger.Net, s: Sync) {
    var h, k := s.handlers, Applied(s.handlers.store);
    && (forall i | 0 <= i < |s.chain| :: s.chain[i].header.number == i)
    && Holds(net, s.chain, k, h.store)
    && (s.stream.Some? ==> s.stream.value == k || (s.stream.value == 0 && k == 1))
    && LogsCover(net, s.chain, k, h)
  }

  /** The store is the fold of the first `k` blocks, all of which parse. */
  ghost predicate Holds(net: Ledger.Net, chain: seq<RawBlock>, k: nat, s: Store) {
    && k <= |chain| && (forall i | 0 <= i < k :: Parsed(net.proto, chain[i]).Ok?)
    && Ledger.Fold(Ledger.ReparsedAll(net, chain[..k])) == Ok(s)
  }

  /** Every handler before the store has succeeded on the first `k` blocks. */
  ghost predicate LogsCover(net: Ledger.Net, chain: seq<RawBlock>, k: nat, h: Handlers) {
    && k <= |chain| && h.storeAt < |h.logs|
    && forall i, j | 0 <= i < k && 0 <= j < h.storeAt :: Ledger.Reparsed(net, chain[i]) in h.logs[j]
  }

  // ----------------------------------------------------------------- the proof

  lemma ParsedAscends(p: Protocol, raw: RawBlock)
    requires Parsed(p, raw).Ok?
    ensures TimeTravel.AscendingTxs(Parsed(p, raw).value.txs) && Parsed(p, raw).value.number == raw.header.number
  {
    ParsePositions(p, raw.filter.value, raw.data);
  }

  /** A store fed in chain order is a run of the time-travel model. */
  lemma {:induction false} FoldIsRun(bs: seq<Block>, s: Store)
    requires Ledger.Fold(bs) == Ok(s) && TimeTravel.Ascending(bs)
    ensures TimeTravel.RunInv(TimeTravel.Replica(s, bs))
  {
    if bs == [] {
      EmptyRun();
    } else {
      var p, b := bs[..|bs| - 1], bs[|bs| - 1];
      var t := Ledger.Fold(p).value;
      AscendingLast(bs);
      FoldIsRun(p, t);
      RunNext(t, p, b, s);
      assert bs == p + [b];
    }
  }

  lemma EmptyRun()
    ensures TimeTravel.RunInv(TimeTravel.Replica(EmptyStore, []))
  {
  }

  lemma AscendingLast(bs: seq<Block>)
    requires TimeTravel.Ascending(bs) && bs != []
    ensures var p, b := bs[..|bs| - 1], bs[|bs| - 1];
            TimeTravel.Ascending(p) && TimeTravel.AscendingTxs(b.txs) && forall a | a in p :: a.number < b.number
  {
    assert bs[|bs| - 1] in bs && forall x | x in bs[..|bs| - 1] :: x in bs;
  }

  lemma RunNext(t: Store, p: seq<Block>, b: Block, s: Store)
    requires TimeTravel.RunInv(TimeTravel.Replica(t, p)) && Update(t, b) == Ok(s)
    requires TimeTravel.AscendingTxs(b.txs) && forall a | a in p :: a.number < b.number
    ensures TimeTravel.RunInv(TimeTravel.Replica(s, p + [b]))
  {
    TimeTravel.DeliverKeepsInv(TimeTravel.Replica(t, p), TimeTravel.Delivery(b, false));
  }

  /** Delivering the first block again changes nothing. */
  lemma FirstAgain(b: Block, s: Store)
    requires Ledger.Fold([b]) == Ok(s) && TimeTravel.AscendingTxs(b.txs)
    ensures Update(s, b) == Ok(s)
  {
    FoldIsRun([b], s);
    TimeTravel.RedeliveryIsNoOp(TimeTravel.Replica(s, [b]), b);
  }

  lemma ReparsedSnoc(net: Ledger.Net, chain: seq<RawBlock>, k: nat)
    requires k < |chain|
    ensures Ledger.ReparsedAll(net, chain[..k + 1])
         == Ledger.ReparsedAll(net, chain[..k]) + [Ledger.Reparsed(net, chain[k])]
    ensures Ledger.Fold(Ledger.ReparsedAll(net, chain[..k + 1]))
         == match Ledger.Fold(Ledger.ReparsedAll(net, chain[..k]))
            case Err => Err
            case Ok(s) => Update(s, Ledger.Reparsed(net, chain[k]))
  {
    assert chain[..k + 1][..k] == chain[..k];
    var a, b := Ledger.ReparsedAll(net, chain[..k]), Ledger.Reparsed(net, chain[k]);
    assert (a + [b])[..|a|] == a;
  }

  ghost predicate LogsGrow(a: Handlers, b: Handlers) {
    a.storeAt == b.storeAt && |a.logs| == |b.logs| && forall j | 0 <= j < |a.logs| :: a.logs[j] <= b.logs[j]
  }

  lemma LogsKeep(a: Handlers, b: Handlers, j: nat, x: Block)
    requires LogsGrow(a, b) && j < |a.logs| && x in a.logs[j]
    ensures x in b.logs[j]
  {
    var i :| 0 <= i < |a.logs[j]| && a.logs[j][i] == x;
    assert b.logs[j][i] == x;
  }

  /** The store stays where it was. */
  lemma StoreStays(net: Ledger.Net, s: Sync, g: Handlers, stream: Option<nat>)
    requires SyncInv(net, s) && LogsGrow(s.handlers, g) && g.store == s.handlers.store
    requires stream.None? || stream.value == Applied(g.store)
    ensures SyncInv(net, Sync(s.chain, g, stream))
  {
    StillCovered(net, s.chain, Applied(g.store), s.handlers, g);
  }

  lemma StillCovered(net: Ledger.Net, chain: seq<RawBlock>, k: nat, h: Handlers, g: Handlers)
    requires LogsCover(net, chain, k, h) && LogsGrow(h, g)
    ensures LogsCover(net, chain, k, g)
  {
    forall i, j | 0 <= i < k && 0 <= j < g.storeAt ensures Ledger.Reparsed(net, chain[i]) in g.logs[j] {
      LogsKeep(h, g, j, Ledger.Reparsed(net, chain[i]));
    }
  }

  lemma AppliedNext(p: Protocol, raw: RawBlock, b: Block, s: Store, t: Store)
    requires Parsed(p, raw) == Ok(b) && raw.header.number == Applied(s) && Update(s, b) == Ok(t)
    ensures Applied(t) == Applied(s) + 1
  {
    ParsedAscends(p, raw);
  }

  lemma HoldsNext(net: Ledger.Net, chain: seq<RawBlock>, k: nat, b: Block, s: Store, t: Store)
    requires Holds(net, chain, k, s) && k < |chain| && Parsed(net.proto, chain[k]) == Ok(b)
    requires Update(s, b) == Ok(t)
    ensures Holds(net, chain, k + 1, t)
  {
    ReparsedSnoc(net, chain, k);
  }

  lemma CoveredNext(net: Ledger.Net, chain: seq<RawBlock>, k: nat, b: Block, h: Handlers, g: Handlers)
    requires LogsCover(net, chain, k, h) && LogsGrow(h, g) && k < |chain| && Ledger.Reparsed(net, chain[k]) == b
    requires forall j | 0 <= j < g.storeAt :: b in g.logs[j]
    ensures LogsCover(net, chain, k + 1, g)
  {
    StillCovered(net, chain, k, h, g);
  }

  /** The store applies the next block of the chain. */
  lemma StoreAdvances(net: Ledger.Net, s: Sync, k: nat, b: Block, g: Handlers, stream: Option<nat>)
    requires SyncInv(net, s) && LogsGrow(s.handlers, g)
    requires k == Applied(s.handlers.store) && k < |s.chain| && Parsed(net.proto, s.chain[k]) == Ok(b)
    requires Update(s.handlers.store, b) == Ok(g.store)
    requires forall j | 0 <= j < g.storeAt :: b in g.logs[j]
    requires stream.None? || stream.value == k + 1
    ensures SyncInv(net, Sync(s.chain, g, stream))
  {
    assert Holds(net, s.chain, k + 1, g.store) by { HoldsNext(net, s.chain, k, b, s.handlers.store, g.store); }
    assert Applied(g.store) == k + 1 by { AppliedNext(net.proto, s.chain[k], b, s.handlers.store, g.store); }
    assert LogsCover(net, s.chain, k + 1, g) by { CoveredNext(net, s.chain, k, b, s.handlers, g); }
  }

  lemma DeliverKeepsInv(net: Ledger.Net, s: Sync, oks: nat -> bool)
    requires SyncInv(net, s)
    ensures SyncInv(net, Next(net.proto, s, Deliver(oks)))
  {
    if s.stream.Some? && s.stream.value < |s.chain| {
      if Parsed(net.proto, s.chain[s.stream.value]).Err? {
        StoreStays(net, s, s.handlers, None);
      } else {
        var b := Ledger.Reparsed(net, s.chain[s.stream.value]);
        var (g, ok) := RunHandlers(s.handlers, b, oks, 0);
        HandlersInOrder(s.handlers, b, oks, 0);
        HandledKeepsInv(net, s, b, g, ok);
      }
    }
  }

  /** The handlers ran on the block the stream was at, with outcome `g` and `ok`. */
  lemma HandledKeepsInv(net: Ledger.Net, s: Sync, b: Block, g: Handlers, ok: bool)
    requires SyncInv(net, s) && s.stream.Some? && s.stream.value < |s.chain| && LogsGrow(s.handlers, g)
    requires Parsed(net.proto, s.chain[s.stream.value]) == Ok(b)
    requires g.store == s.handlers.store
             || (&& Update(s.handlers.store, b) == Ok(g.store)
                 && forall j | 0 <= j < g.storeAt :: j < |g.logs| && b in g.logs[j])
    requires ok ==> Update(s.handlers.store, b) == Ok(g.store)
    ensures SyncInv(net, Sync(s.chain, g, if ok then Some(s.stream.value + 1) else None))
  {
    var stream := if ok then Some(s.stream.value + 1) else None;
    if s.stream.value < Applied(s.handlers.store) {
      ReplayedFirst(net, s, b);
      StoreStays(net, s, g, stream);
    } else if g.store == s.handlers.store {
      if ok { AppliedNext(net.proto, s.chain[s.stream.value], b, s.handlers.store, g.store); }
      StoreStays(net, s, g, stream);
    } else {
      StoreAdvances(net, s, s.stream.value, b, g, stream);
    }
  }

  lemma ReplayedFirst(net: Ledger.Net, s: Sync, b: Block)
    requires SyncInv(net, s) && Applied(s.handlers.store) == 1 && b == Ledger.Reparsed(net, s.chain[0])
    ensures Update(s.handlers.store, b) == Ok(s.handlers.store)
  {
    ParsedAscends(net.proto, s.chain[0]);
    ReparsedSnoc(net, s.chain, 0);
    assert Ledger.ReparsedAll(net, s.chain[..1]) == [b];
    FirstAgain(b, s.handlers.store);
  }

  lemma GrowKeepsInv(net: Ledger.Net, s: Sync, raw: RawBlock)
    requires SyncInv(net, s)
    ensures SyncInv(net, Next(net.proto, s, Grow(raw)))
  {
    HoldsLonger(net, s.chain, raw, Applied(s.handlers.store), s.handlers);
  }

  lemma HoldsLonger(net: Ledger.Net, chain: seq<RawBlock>, raw: RawBlock, k: nat, h: Handlers)
    requires Holds(net, chain, k, h.store) && LogsCover(net, chain, k, h)
    ensures Holds(net, chain + [raw], k, h.store) && LogsCover(net, chain + [raw], k, h)
  {
    assert (chain + [raw])[..k] == chain[..k];
    assert forall i | 0 <= i < k :: (chain + [raw])[i] == chain[i];
  }

  lemma StepKeepsInv(net: Ledger.Net, s: Sync, step: Step)
    requires SyncInv(net, s)
    ensures SyncInv(net, Next(net.proto, s, step))
  {
    match step
    case Deliver(oks) => DeliverKeepsInv(net, s, oks);
    case Grow(raw) => GrowKeepsInv(net, s, raw);
    case Connect =>
    case Break =>
  }

  /** At-least-once delivery refines exactly-once: after any sequence of stream failures,
      parse errors, handler errors and restarts, the store is the fold of a gap-free prefix
      of the chain, and every handler placed before it has succeeded on every block of it. */
  lemma {:induction false} AtLeastOnceIsExactlyOnce(net: Ledger.Net, count: nat, storeAt: nat, steps: seq<Step>)
    requires storeAt < count
    ensures SyncInv(net, RunSync(net.proto, count, storeAt, steps))
  {
    if steps != [] {
      AtLeastOnceIsExactlyOnce(net, count, storeAt, steps[..|steps| - 1]);
      StepKeepsInv(net, RunSync(net.proto, count, storeAt, steps[..|steps| - 1]), steps[|steps| - 1]);
    }
  }

  // ------------------------------------------------------------------- progress

  /** Opening a stream resumes at the first block the store lacks; only the first block is
      asked for again, as the height does not tell whether it was applied. */
  lemma ConnectResumes(net: Ledger.Net, s: Sync)
    ensures var (t, k) := (Next(net.proto, s, Connect), Applied(s.handlers.store));
            t.handlers == s.handlers && t.chain == s.chain && t.stream == Some(if k <= 1 then 0 else k)
  {
  }

  /** A delivery that nothing refuses brings the store one block further, and every handler, on
      either side of the store, the block. */
  lemma DeliverAdvances(net: Ledger.Net, s: Sync, oks: nat -> bool)
    requires SyncInv(net, s) && (forall i: nat :: oks(i))
    requires var k := Applied(s.handlers.store);
             && k < |s.chain| && s.stream == Some(k) && Parsed(net.proto, s.chain[k]).Ok?
             && Update(s.handlers.store, Ledger.Reparsed(net, s.chain[k])).Ok?
    ensures var (t, k) := (Next(net.proto, s, Deliver(oks)), Applied(s.handlers.store));
            && t.chain == s.chain && t.stream == Some(k + 1) && Applied(t.handlers.store) == k + 1
            && |t.handlers.logs| == |s.handlers.logs|
            && forall j | 0 <= j < |s.handlers.logs| ::
                 t.handlers.logs[j] == s.handlers.logs[j] + [Ledger.Reparsed(net, s.chain[k])]
  {
    var k := Applied(s.handlers.store);
    var b := Ledger.Reparsed(net, s.chain[k]);
    var f := HandlersRun(s.handlers, b, oks, 0);
    AppliedNext(net.proto, s.chain[k], b, s.handlers.store, Update(s.handlers.store, b).value);
  }

  /** A block that does not parse, or that a handler refuses, ends the stream: nothing after it
      is delivered before a reconnect. */
  lemma DeliverStops(net: Ledger.Net, s: Sync, oks: nat -> bool, j: nat)
    requires s.stream.Some? && s.stream.value < |s.chain|
    requires var r := Parsed(net.proto, s.chain[s.stream.value]);
             r.Err? || (j < |s.handlers.logs| && Refuses(s.handlers, r.value, oks, j))
    ensures Next(net.proto, s, Deliver(oks)).stream.None?
  {
    var r := Parsed(net.proto, s.chain[s.stream.value]);
    if r.Ok? { var f := HandlersRun(s.handlers, r.value, oks, 0); }
  }

  /** Every block of the chain parses and applies after the ones before it. */
  ghost predicate Applicable(net: Ledger.Net, chain: seq<RawBlock>) {
    forall k | 0 <= k < |chain| :: AppliesAt(net, chain, k)
  }

  ghost predicate AppliesAt(net: Ledger.Net, chain: seq<RawBlock>, k: nat)
    requires k < |chain|
  {
    Parsed(net.proto, chain[k]).Ok? && Ledger.Fold(Ledger.ReparsedAll(net, chain[..k + 1])).Ok?
  }

  lemma NextApplies(net: Ledger.Net, s: Sync)
    requires SyncInv(net, s) && Applicable(net, s.chain) && Applied(s.handlers.store) < |s.chain|
    ensures Parsed(net.proto, s.chain[Applied(s.handlers.store)]).Ok?
    ensures Update(s.handlers.store, Ledger.Reparsed(net, s.chain[Applied(s.handlers.store)])).Ok?
  {
    assert AppliesAt(net, s.chain, Applied(s.handlers.store));
    ReparsedSnoc(net, s.chain, Applied(s.handlers.store));
  }

  /** The first block again: the store stays and the stream moves on. */
  lemma DeliverFirstAgain(net: Ledger.Net, s: Sync, oks: nat -> bool)
    requires SyncInv(net, s) && (forall i: nat :: oks(i)) && Applied(s.handlers.store) == 1 && s.stream == Some(0)
    ensures var t := Next(net.proto, s, Deliver(oks));
            t.chain == s.chain && t.stream == Some(1) && t.handlers.store == s.handlers.store
  {
    var b := Ledger.Reparsed(net, s.chain[0]);
    ReplayedFirst(net, s, b);
    var f := HandlersRun(s.handlers, b, oks, 0);
  }

  const AllSucceed := (i: nat) => true

  lemma RunSnoc(p: Protocol, count: nat, storeAt: nat, steps: seq<Step>, step: Step)
    ensures RunSync(p, count, storeAt, steps + [step]) == Next(p, RunSync(p, count, storeAt, steps), step)
  {
    assert (steps + [step])[..|steps|] == steps;
  }

  /** The node has applied `k` blocks of the chain, and its stream is there too. */
  ghost predicate OnTrack(net: Ledger.Net, chain: seq<RawBlock>, s: Sync, k: nat) {
    SyncInv(net, s) && s.chain == chain && Applied(s.handlers.store) == k && s.stream == Some(k)
  }

  /** One undisturbed delivery. */
  lemma OneFurther(net: Ledger.Net, chain: seq<RawBlock>, s: Sync, k: nat)
    requires OnTrack(net, chain, s, k) && Applicable(net, chain) && k < |chain|
    ensures OnTrack(net, chain, Next(net.proto, s, Deliver(AllSucceed)), k + 1)
  {
    NextApplies(net, s);
    DeliverAdvances(net, s, AllSucceed);
    DeliverKeepsInv(net, s, AllSucceed);
  }

  /** After these steps the node is on track. */
  ghost predicate Tracks(net: Ledger.Net, chain: seq<RawBlock>, count: nat, storeAt: nat, steps: seq<Step>, k: nat) {
    OnTrack(net, chain, RunSync(net.proto, count, storeAt, steps), k)
  }

  /** Undisturbed deliveries bring a node that is on track to the end of the chain. */
  lemma {:induction false} Further(net: Ledger.Net, chain: seq<RawBlock>, count: nat, storeAt: nat, steps: seq<Step>,
                                   k: nat)
    returns (later: seq<Step>)
    requires k <= |chain| && Tracks(net, chain, count, storeAt, steps, k) && Applicable(net, chain)
    ensures steps <= later && Tracks(net, chain, count, storeAt, later, |chain|)
    decreases |chain| - k
  {
    if k == |chain| {
      later := steps;
    } else {
      FurtherByOne(net, chain, count, storeAt, steps, k);
      later := Further(net, chain, count, storeAt, steps + [Deliver(AllSucceed)], k + 1);
    }
  }

  lemma FurtherByOne(net: Ledger.Net, chain: seq<RawBlock>, count: nat, storeAt: nat, steps: seq<Step>, k: nat)
    requires k < |chain| && Tracks(net, chain, count, storeAt, steps, k) && Applicable(net, chain)
    ensures Tracks(net, chain, count, storeAt, steps + [Deliver(AllSucceed)], k + 1)
  {
    OneFurther(net, chain, RunSync(net.proto, count, storeAt, steps), k);
    RunSnoc(net.proto, count, storeAt, steps, Deliver(AllSucceed));
  }

  /** Reconnecting gets a node on track ... */
  lemma ConnectOnTrack(net: Ledger.Net, s: Sync)
    requires SyncInv(net, s) && Applied(s.handlers.store) != 1
    ensures OnTrack(net, s.chain, Next(net.proto, s, Connect), Applied(s.handlers.store))
  {
    StepKeepsInv(net, s, Connect);
  }

  /** ... after the first block if that comes again. */
  lemma ConnectAndSkip(net: Ledger.Net, s: Sync)
    requires SyncInv(net, s) && Applied(s.handlers.store) == 1
    ensures OnTrack(net, s.chain, Next(net.proto, Next(net.proto, s, Connect), Deliver(AllSucceed)), 1)
  {
    var c := Next(net.proto, s, Connect);
    StepKeepsInv(net, s, Connect);
    DeliverFirstAgain(net, c, AllSucceed);
    DeliverKeepsInv(net, c, AllSucceed);
  }

  lemma GetsOnTrack(net: Ledger.Net, count: nat, storeAt: nat, steps: seq<Step>) returns (later: seq<Step>, k: nat)
    requires storeAt < count
    ensures steps <= later
    ensures Tracks(net, RunSync(net.proto, count, storeAt, steps).chain, count, storeAt, later, k)
  {
    var s := RunSync(net.proto, count, storeAt, steps);
    AtLeastOnceIsExactlyOnce(net, count, storeAt, steps);
    RunSnoc(net.proto, count, storeAt, steps, Connect);
    k := Applied(s.handlers.store);
    later := steps + [Connect];
    if k != 1 {
      ConnectOnTrack(net, s);
    } else {
      RunSnoc(net.proto, count, storeAt, later, Deliver(AllSucceed));
      later := later + [Deliver(AllSucceed)];
      ConnectAndSkip(net, s);
    }
  }

  /** Whatever has happened, a node can catch up: every run continues to one in which the store
      has applied the peer's whole chain. */
  lemma CanCatchUp(net: Ledger.Net, count: nat, storeAt: nat, steps: seq<Step>) returns (later: seq<Step>)
    requires storeAt < count && Applicable(net, RunSync(net.proto, count, storeAt, steps).chain)
    ensures steps <= later
    ensures var chain := RunSync(net.proto, count, storeAt, steps).chain;
            Tracks(net, chain, count, storeAt, later, |chain|)
  {
    var chain := RunSync(net.proto, count, storeAt, steps).chain;
    var start, k := GetsOnTrack(net, count, storeAt, steps);
    OnChain(net, chain, RunSync(net.proto, count, storeAt, start), k);
    later := Further(net, chain, count, storeAt, start, k);
  }

  lemma OnChain(net: Ledger.Net, chain: seq<RawBlock>, s: Sync, k: nat)
    requires OnTrack(net, chain, s, k)
    ensures k <= |chain|
  {
  }

  /** A ledger's chain is such a chain. */
  lemma LedgerChainApplies(net: Ledger.Net, evs: seq<Ledger.Event>)
    requires StatusCodes.Reversible(net.proto.forward, net.codes)
    ensures Applicable(net, Ledger.RunLedger(net, true, evs).blocks)
  {
    var bs := Ledger.RunLedger(net, true, evs).blocks;
    Ledger.LedgerInvariant(net, true, evs);
    Ledger.ReplicaConverges(net, evs);
    forall k | 0 <= k < |bs| ensures AppliesAt(net, bs, k) {
      FoldPrefix(net, bs, k + 1);
    }
  }

  lemma {:induction false} FoldPrefix(net: Ledger.Net, bs: seq<RawBlock>, k: nat)
    requires k <= |bs| && Ledger.Fold(Ledger.ReparsedAll(net, bs)).Ok?
    ensures Ledger.Fold(Ledger.ReparsedAll(net, bs[..k])).Ok?
    decreases |bs|
  {
    if k < |bs| {
      var n := |bs| - 1;
      assert bs[..n + 1] == bs && bs[..n][..k] == bs[..k];
      ReparsedSnoc(net, bs, n);
      FoldPrefix(net, bs[..n], k);
    } else {
      assert bs[..k] == bs;
    }
  }

  /** A node that has caught up with a ledger's chain, by whatever route, holds the world
      state the ledger itself computed. */
  lemma CaughtUpNodeAgrees(net: Ledger.Net, evs: seq<Ledger.Event>, count: nat, storeAt: nat, steps: seq<Step>)
    requires storeAt < count && StatusCodes.Reversible(net.proto.forward, net.codes)
    requires var n := RunSync(net.proto, count, storeAt, steps);
             n.chain == Ledger.RunLedger(net, true, evs).blocks && Applied(n.handlers.store) == |n.chain|
    ensures var n, l := RunSync(net.proto, count, storeAt, steps), Ledger.RunLedger(net, true, evs);
            && l.store.Some?
            && n.handlers.store.rows == l.store.value.rows
            && BlockNumber(n.handlers.store) == BlockNumber(l.store.value)
  {
    var n := RunSync(net.proto, count, storeAt, steps);
    AtLeastOnceIsExactlyOnce(net, count, storeAt, steps);
    HoldsAll(net, n);
    Ledger.ReplicaConverges(net, evs);
  }

  lemma HoldsAll(net: Ledger.Net, s: Sync)
    requires SyncInv(net, s) && Applied(s.handlers.store) == |s.chain|
    ensures Ledger.Fold(Ledger.ReparsedAll(net, s.chain)) == Ok(s.handlers.store)
  {
    assert s.chain[..|s.chain|] == s.chain;
  }
}
