/** Contract simulation on a pinned snapshot (state/sim.go), as an overlay of the
    transaction's own writes over the snapshot, and contract programs that run on it. */
module Simulation {
  import opened Types

  /** The recorded accesses, by key. */
  datatype Sim = Sim(readMap: map<string, KVRead>, writeMap: map<string, KVWrite>)

  const EmptySim := Sim(map[], map[])

  datatype Op = GetOp(key: string) | PutOp(key: string, value: Bytes) | DelOp(key: string)

  /** What an operation gives back: a value (empty for nil), success, or an error. */
  datatype Resp = Value(value: Bytes) | Success | Failed

  predicate IsTombstone(rec: Option<WriteRecord>) { rec.Some? && rec.value.isDelete }

  /** The value a record stands for; nil when there is none. */
  function LiveValue(rec: Option<WriteRecord>): Bytes {
    if rec.None? || rec.value.isDelete then [] else rec.value.value
  }

  function ValueOf(w: KVWrite): Bytes { if w.isDelete then [] else w.value }

  /** The read a simulation records for a key it fetched from the snapshot. */
  function ReadOf(mono: bool, key: string, rec: Option<WriteRecord>): KVRead {
    match rec
    case None => KVRead(key, None)
    case Some(r) => KVRead(key, Some(if mono then Version(r.version, 0) else Version(r.blockNum, r.txNum)))
  }

  function GetStep(ns: string, mono: bool, snap: Getter, s: Sim, key: string): (Sim, Resp) {
    if key in s.writeMap then (s, Value(ValueOf(s.writeMap[key])))
    else
      match snap(ns, key)
      case Err => (s, Failed)
      case Ok(rec) =>
        if IsTombstone(rec) then (s, Value([]))
        else (s.(readMap := s.readMap[key := ReadOf(mono, key, rec)]), Value(LiveValue(rec)))
  }

  /** The write an operation records: an empty value deletes, an empty key is refused by Put only. */
  function WriteOf(op: Op): Option<KVWrite> {
    match op
    case GetOp(_) => None
    case PutOp(k, v) =>
      if k == "" then None else if v == [] then Some(KVWrite(k, true, [])) else Some(KVWrite(k, false, v))
    case DelOp(k) => Some(KVWrite(k, true, []))
  }

  function Step(ns: string, mono: bool, snap: Getter, s: Sim, op: Op): (Sim, Resp) {
    if op.GetOp? then GetStep(ns, mono, snap, s, op.key)
    else
      match WriteOf(op)
      case None => (s, Failed)
      case Some(w) => (s.(writeMap := s.writeMap[w.key := w]), Success)
  }

  /** `list` holds the values of `m`, each key once, in some order. */
  ghost predicate ListsReads(list: seq<KVRead>, m: map<string, KVRead>) {
    && (forall i, j | 0 <= i < j < |list| :: list[i].key != list[j].key)
    && (forall r | r in list :: r.key in m && m[r.key] == r)
    && (forall k | k in m :: m[k] in list)
  }

  ghost predicate ListsWrites(list: seq<KVWrite>, m: map<string, KVWrite>) {
    && (forall i, j | 0 <= i < j < |list| :: list[i].key != list[j].key)
    && (forall w | w in list :: w.key in m && m[w.key] == w)
    && (forall k | k in m :: m[k] in list)
  }

  ghost predicate KeyedSim(s: Sim) {
    && (forall k | k in s.readMap :: s.readMap[k].key == k)
    && (forall k | k in s.writeMap :: s.writeMap[k].key == k)
  }

  class SimulationStore {
    const namespace: string
    const snap: Getter
    const monotonicVersions: bool
    var readMap: map<string, KVRead>
    var writeMap: map<string, KVWrite>

    ghost function Contents(): Sim
      reads this
    {
      Sim(readMap, writeMap)
    }

    /** Every entry is stored under its own key. */
    ghost predicate Valid()
      reads this
    {
      KeyedSim(Contents())
    }

    constructor (snap: Getter, namespace: string, monotonicVersions: bool)
      ensures Valid()
      ensures this.snap == snap && this.namespace == namespace && this.monotonicVersions == monotonicVersions
      ensures Contents() == EmptySim
    {
      this.snap, this.namespace, this.monotonicVersions := snap, namespace, monotonicVersions;
      readMap, writeMap := map[], map[];
    }

    method GetState(key: string) returns (r: Resp)
      requires Valid()
      modifies this
      ensures Valid()
      ensures (Contents(), r) == Step(namespace, monotonicVersions, snap, old(Contents()), GetOp(key))
    {
      if key in writeMap {
        if writeMap[key].isDelete { return Value([]); }
        return Value(writeMap[key].value);
      }
      var got := snap(namespace, key);
      if got.Err? { return Failed; }
      var record := got.value;
      var val: Bytes := [];
      var version: Option<Version> := None;
      if record.Some? {
        if record.value.isDelete { return Value([]); }
        if monotonicVersions {
          version := Some(Version(record.value.version, 0));
        } else {
          version := Some(Version(record.value.blockNum, record.value.txNum));
        }
        val := record.value.value;
      }
      readMap := readMap[key := KVRead(key, version)];
      return Value(val);
    }

    method PutState(key: string, value: Bytes) returns (r: Resp)
      requires Valid()
      modifies this
      ensures Valid()
      ensures (Contents(), r) == Step(namespace, monotonicVersions, snap, old(Contents()), PutOp(key, value))
    {
      if |key| == 0 { return Failed; }
      if |value| == 0 {
        r := DelState(key);
        return;
      }
      writeMap := writeMap[key := KVWrite(key, false, value)];
      return Success;
    }

    method DelState(key: string) returns (r: Resp)
      requires Valid()
      modifies this
      ensures Valid()
      ensures (Contents(), r) == Step(namespace, monotonicVersions, snap, old(Contents()), DelOp(key))
    {
      writeMap := writeMap[key := KVWrite(key, true, [])];
      return Success;
    }

    /** Both maps, in whatever order they are iterated. */
    method Result() returns (rws: ReadWriteSet)
      requires Valid()
      ensures ListsReads(rws.readSet, readMap) && ListsWrites(rws.writeSet, writeMap)
    {
      var rs := ListReads(readMap);
      var ws := ListWrites(writeMap);
      rws := ReadWriteSet(rs, ws);
    }
  }

  method ListReads(m: map<string, KVRead>) returns (rs: seq<KVRead>)
    requires forall k | k in m :: m[k].key == k
    ensures ListsReads(rs, m)
  {
    rs := [];
    var todo := m.Keys;
    while todo != {}
      invariant todo <= m.Keys
      invariant forall i, j | 0 <= i < j < |rs| :: rs[i].key != rs[j].key
      invariant forall r | r in rs :: r.key in m && r.key !in todo && m[r.key] == r
      invariant forall k | k in m :: k in todo || m[k] in rs
      decreases |todo|
    {
      var k :| k in todo;
      rs := rs + [m[k]];
      todo := todo - {k};
    }
  }

  method ListWrites(m: map<string, KVWrite>) returns (ws: seq<KVWrite>)
    requires forall k | k in m :: m[k].key == k
    ensures ListsWrites(ws, m)
  {
    ws := [];
    var todo := m.Keys;
    while todo != {}
      invariant todo <= m.Keys
      invariant forall i, j | 0 <= i < j < |ws| :: ws[i].key != ws[j].key
      invariant forall w | w in ws :: w.key in m && w.key !in todo && m[w.key] == w
      invariant forall k | k in m :: k in todo || m[k] in ws
      decreases |todo|
    {
      var k :| k in todo;
      ws := ws + [m[k]];
      todo := todo - {k};
    }
  }

  // ------------------------------------------- sequences of Get, Put and Del

  function After(ns: string, mono: bool, snap: Getter, ops: seq<Op>): Sim {
    if ops == [] then EmptySim
    else Step(ns, mono, snap, After(ns, mono, snap, ops[..|ops| - 1]), ops[|ops| - 1]).0
  }

  /** The operation writes the key: a delete, or a put that is not refused. */
  predicate Writes(op: Op, key: string) {
    match op
    case GetOp(_) => false
    case PutOp(k, _) => k == key && key != ""
    case DelOp(k) => k == key
  }

  /** The last operation that writes a key. */
  function LastOf(ops: seq<Op>, key: string): Option<Op> {
    if ops == [] then None
    else if Writes(ops[|ops| - 1], key) then Some(ops[|ops| - 1])
    else LastOf(ops[..|ops| - 1], key)
  }

  /** A put leaves its value for the reads that follow, a delete leaves nothing; a put of an
      empty key is refused and changes nothing. */
  lemma ReadYourWrites(ns: string, mono: bool, snap: Getter, s: Sim, key: string, v: Bytes)
    ensures var (p, r) := Step(ns, mono, snap, s, PutOp(key, v));
            if key == "" then p == s && r == Failed
            else r == Success && Step(ns, mono, snap, p, GetOp(key)) == (p, Value(v))
    ensures var (d, r) := Step(ns, mono, snap, s, DelOp(key));
            r == Success && Step(ns, mono, snap, d, GetOp(key)) == (d, Value([]))
  {
  }

  /** A write changes what no other key reads. */
  lemma WritesAreLocal(ns: string, mono: bool, snap: Getter, s: Sim, op: Op, key: string)
    requires !Writes(op, key) && !op.GetOp?
    ensures Step(ns, mono, snap, Step(ns, mono, snap, s, op).0, GetOp(key)).1 == Step(ns, mono, snap, s, GetOp(key)).1
  {
  }

  /** `Result` holds exactly the last write of each key: a delete for a delete and for a put of
      nothing, the value otherwise. */
  lemma {:induction false} WritesAreTheLast(ns: string, mono: bool, snap: Getter, ops: seq<Op>, key: string)
    ensures var m := After(ns, mono, snap, ops).writeMap;
            && KeyedSim(After(ns, mono, snap, ops))
            && (key in m <==> LastOf(ops, key).Some?)
            && match LastOf(ops, key)
               case None => true
               case Some(PutOp(_, v)) => m[key] == KVWrite(key, v == [], v)
               case Some(_) => m[key] == KVWrite(key, true, [])
  {
    if ops != [] { WritesAreTheLast(ns, mono, snap, ops[..|ops| - 1], key); }
  }

  /** GetState answers with the snapshot overlaid with the writes made so far. */
  lemma GetReturnsOverlay(ns: string, mono: bool, snap: Getter, ops: seq<Op>, key: string)
    ensures var r := Step(ns, mono, snap, After(ns, mono, snap, ops), GetOp(key)).1;
            match LastOf(ops, key)
            case Some(PutOp(_, v)) => r == Value(v)
            case Some(_) => r == Value([])
            case None => r == match snap(ns, key) case Ok(rec) => Value(LiveValue(rec)) case Err => Failed
  {
    WritesAreTheLast(ns, mono, snap, ops, key);
  }

  /** The key is read from the snapshot at position `i`: before any own write. */
  ghost predicate FetchedAt(ops: seq<Op>, key: string, i: int) {
    0 <= i < |ops| && ops[i] == GetOp(key) && LastOf(ops[..i], key).None?
  }

  /** `Result` holds the snapshot version of exactly the keys read before they were written,
      tombstones and failed reads left out. */
  lemma {:induction false} ReadsAreSnapshotVersions(ns: string, mono: bool, snap: Getter, ops: seq<Op>, key: string)
    ensures var m := After(ns, mono, snap, ops).readMap;
            && (key in m
                <==> (exists i :: FetchedAt(ops, key, i)) && snap(ns, key).Ok? && !IsTombstone(snap(ns, key).value))
            && (key in m ==> m[key] == ReadOf(mono, key, snap(ns, key).value))
  {
    if ops != [] {
      var p := ops[..|ops| - 1];
      ReadsAreSnapshotVersions(ns, mono, snap, p, key);
      WritesAreTheLast(ns, mono, snap, p, key);
      forall i ensures FetchedAt(ops, key, i) <==> FetchedAt(p, key, i) || (i == |p| && FetchedAt(ops, key, i)) {
        if 0 <= i < |p| { assert p[..i] == ops[..i]; }
      }
      assert FetchedAt(ops, key, |p|) <==> ops[|p|] == GetOp(key) && LastOf(p, key).None?;
    }
  }

  // ------------------------------------------------------- contract programs

  datatype Action = Do(op: Op) | Return(out: Bytes)

  /** A deterministic contract: the answers so far decide what it does next. */
  type Program = seq<Resp> -> Action

  /** What a run leaves: the value of each written key (nil when deleted), the answers it got,
      and what it returns. */
  datatype RunResult = RunResult(writes: map<string, Bytes>, trace: seq<Resp>, out: Bytes)

  datatype SimOutcome = SimOutcome(sim: Sim, result: RunResult)

  function Values(m: map<string, KVWrite>): map<string, Bytes> { map k | k in m :: ValueOf(m[k]) }

  /** Run a program on the simulation store for at most `n` operations; `None` if it needs more. */
  function SimRun(prog: Program, ns: string, mono: bool, snap: Getter, s: Sim, hist: seq<Resp>, n: nat)
    : Option<SimOutcome>
    decreases n
  {
    match prog(hist)
    case Return(out) => Some(SimOutcome(s, RunResult(Values(s.writeMap), hist, out)))
    case Do(op) =>
      if n == 0 then None
      else
        var (s', r) := Step(ns, mono, snap, s, op);
        SimRun(prog, ns, mono, snap, s', hist + [r], n - 1)
  }

  /** One operation on a plain key-value state: `ws` are the keys updated so far. */
  function PlainStep(world: string -> Bytes, ws: map<string, Bytes>, op: Op): (map<string, Bytes>, Resp) {
    match op
    case GetOp(k) => (ws, Value(if k in ws then ws[k] else world(k)))
    case PutOp(k, v) => if k == "" then (ws, Failed) else (ws[k := v], Success)
    case DelOp(k) => (ws[k := []], Success)
  }

  /** The reference: the program on the plain state, with no versions, no records and no read
      set. */
  function PlainRun(prog: Program, world: string -> Bytes, ws: map<string, Bytes>, hist: seq<Resp>, n: nat)
    : Option<RunResult>
    decreases n
  {
    match prog(hist)
    case Return(out) => Some(RunResult(ws, hist, out))
    case Do(op) =>
      if n == 0 then None
      else
        var (ws', r) := PlainStep(world, ws, op);
        PlainRun(prog, world, ws', hist + [r], n - 1)
  }

  /** The keys the program takes from the underlying state. */
  function Fetched(prog: Program, world: string -> Bytes, ws: map<string, Bytes>, hist: seq<Resp>, n: nat)
    : set<string>
    decreases n
  {
    match prog(hist)
    case Return(out) => {}
    case Do(op) =>
      if n == 0 then {}
      else
        var (ws', r) := PlainStep(world, ws, op);
        var rest := Fetched(prog, world, ws', hist + [r], n - 1);
        if op.GetOp? && op.key !in ws then {op.key} + rest else rest
  }

  /** No fetch of the run fails. */
  ghost predicate Answered(prog: Program, ns: string, snap: Getter, ws: map<string, Bytes>, hist: seq<Resp>, n: nat) {
    forall k | k in Fetched(prog, WorldOf(snap, ns), ws, hist, n) :: snap(ns, k).Ok?
  }

  /** The plain state a snapshot stands for. */
  function WorldOf(snap: Getter, ns: string): string -> Bytes {
    (k: string) => match snap(ns, k) case Ok(rec) => LiveValue(rec) case Err => []
  }

  /** The simulation store and the plain state are indistinguishable to a program, unless a
      fetch fails. */
  lemma {:induction false} SimRefinesPlain(prog: Program, ns: string, mono: bool, snap: Getter, s: Sim,
                                           hist: seq<Resp>, n: nat)
    requires Answered(prog, ns, snap, Values(s.writeMap), hist, n)
    ensures var a := SimRun(prog, ns, mono, snap, s, hist, n);
            var b := PlainRun(prog, WorldOf(snap, ns), Values(s.writeMap), hist, n);
            (a.Some? <==> b.Some?) && (a.Some? ==> a.value.result == b.value)
    decreases n
  {
    if prog(hist).Do? && n > 0 {
      var op := prog(hist).op;
      var (s', r) := Step(ns, mono, snap, s, op);
      assert op.GetOp? && op.key !in s.writeMap ==>
          op.key in Fetched(prog, WorldOf(snap, ns), Values(s.writeMap), hist, n);
      StepRefinesPlain(ns, mono, snap, s, op);
      SimRefinesPlain(prog, ns, mono, snap, s', hist + [r], n - 1);
    }
  }

  /** One operation gives the same answer, and leaves the same values, on both. */
  lemma StepRefinesPlain(ns: string, mono: bool, snap: Getter, s: Sim, op: Op)
    requires op.GetOp? && op.key !in s.writeMap ==> snap(ns, op.key).Ok?
    ensures var (s', r) := Step(ns, mono, snap, s, op);
            (Values(s'.writeMap), r) == PlainStep(WorldOf(snap, ns), Values(s.writeMap), op)
  {
    var (s', r) := Step(ns, mono, snap, s, op);
    assert Values(s'.writeMap) == PlainStep(WorldOf(snap, ns), Values(s.writeMap), op).0;
  }

  /** The recorded reads are snapshot versions of keys that are not tombstones. */
  ghost predicate SnapshotReads(m: map<string, KVRead>, ns: string, mono: bool, snap: Getter) {
    forall k | k in m ::
      snap(ns, k).Ok? && !IsTombstone(snap(ns, k).value) && m[k] == ReadOf(mono, k, snap(ns, k).value)
  }

  /** The read set of a run: the snapshot versions of the keys it fetched, tombstones left out. */
  lemma {:induction false} RunReads(prog: Program, ns: string, mono: bool, snap: Getter, s: Sim,
                                    hist: seq<Resp>, n: nat)
    requires Answered(prog, ns, snap, Values(s.writeMap), hist, n) && SimRun(prog, ns, mono, snap, s, hist, n).Some?
    requires SnapshotReads(s.readMap, ns, mono, snap)
    ensures var f := Fetched(prog, WorldOf(snap, ns), Values(s.writeMap), hist, n);
            var m := SimRun(prog, ns, mono, snap, s, hist, n).value.sim.readMap;
            && SnapshotReads(m, ns, mono, snap)
            && AddsReads(m, s.readMap, f, ns, snap)
    decreases n
  {
    if prog(hist).Do? {
      var op := prog(hist).op;
      var (s', r) := Step(ns, mono, snap, s, op);
      assert op.GetOp? && op.key !in s.writeMap ==> snap(ns, op.key).Ok? by {
        assert op.GetOp? && op.key !in s.writeMap ==>
            op.key in Fetched(prog, WorldOf(snap, ns), Values(s.writeMap), hist, n);
      }
      FetchedStep(prog, ns, mono, snap, s, hist, n);
      StepReads(ns, mono, snap, s, op);
      assert Answered(prog, ns, snap, Values(s'.writeMap), hist + [r], n - 1);
      RunReads(prog, ns, mono, snap, s', hist + [r], n - 1);
    }
  }

  /** `m` has the reads of `before` and those of the fetched keys that are not tombstones. */
  ghost predicate AddsReads(m: map<string, KVRead>, before: map<string, KVRead>, fetched: set<string>, ns: string,
                            snap: Getter)
    requires forall k | k in fetched :: snap(ns, k).Ok?
  {
    forall k :: k in m <==> k in before || (k in fetched && !IsTombstone(snap(ns, k).value))
  }

  /** One operation adds at most the read of the key it fetches. */
  lemma StepReads(ns: string, mono: bool, snap: Getter, s: Sim, op: Op)
    requires SnapshotReads(s.readMap, ns, mono, snap)
    requires op.GetOp? && op.key !in s.writeMap ==> snap(ns, op.key).Ok?
    ensures var m := Step(ns, mono, snap, s, op).0.readMap;
            && SnapshotReads(m, ns, mono, snap)
            && AddsReads(m, s.readMap, if op.GetOp? && op.key !in s.writeMap then {op.key} else {}, ns, snap)
  {
  }

  lemma FetchedStep(prog: Program, ns: string, mono: bool, snap: Getter, s: Sim, hist: seq<Resp>, n: nat)
    requires n > 0 && prog(hist).Do?
    requires var op := prog(hist).op; op.GetOp? && op.key !in s.writeMap ==> snap(ns, op.key).Ok?
    ensures var op := prog(hist).op;
            var (s', r) := Step(ns, mono, snap, s, op);
            var rest := Fetched(prog, WorldOf(snap, ns), Values(s'.writeMap), hist + [r], n - 1);
            Fetched(prog, WorldOf(snap, ns), Values(s.writeMap), hist, n)
            == if op.GetOp? && op.key !in s.writeMap then {op.key} + rest else rest
  {
    StepRefinesPlain(ns, mono, snap, s, prog(hist).op);
  }

  /** A rerun on a state that agrees on the fetched keys does exactly the same. */
  lemma {:induction false} Replay(prog: Program, w1: string -> Bytes, w2: string -> Bytes,
                                  ws: map<string, Bytes>, hist: seq<Resp>, n: nat)
    requires forall k | k in Fetched(prog, w1, ws, hist, n) :: w1(k) == w2(k)
    ensures PlainRun(prog, w1, ws, hist, n) == PlainRun(prog, w2, ws, hist, n)
    decreases n
  {
    if prog(hist).Do? && n > 0 {
      var op := prog(hist).op;
      var (ws', r) := PlainStep(w1, ws, op);
      assert op.GetOp? && op.key !in ws ==> op.key in Fetched(prog, w1, ws, hist, n);
      assert PlainStep(w2, ws, op) == (ws', r);
      Replay(prog, w1, w2, ws', hist + [r], n - 1);
    }
  }

  /** Running a program leaves both maps keyed by their entries' own keys. */
  lemma {:induction false} RunIsKeyed(prog: Program, ns: string, mono: bool, snap: Getter, s: Sim,
                                      hist: seq<Resp>, n: nat)
    requires KeyedSim(s) && SimRun(prog, ns, mono, snap, s, hist, n).Some?
    ensures KeyedSim(SimRun(prog, ns, mono, snap, s, hist, n).value.sim)
    decreases n
  {
    if prog(hist).Do? {
      var (s', r) := Step(ns, mono, snap, s, prog(hist).op);
      RunIsKeyed(prog, ns, mono, snap, s', hist + [r], n - 1);
    }
  }
}
