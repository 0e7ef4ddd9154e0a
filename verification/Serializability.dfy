/** Serializability of the commit pipeline: programs simulated on older snapshots, validated
    block by block and applied to the versioned table, have the effect of running the
    committed programs one after the other on a plain key-value state. */
module Serializability {
  import opened Types
  import opened WorldState
  import opened Mvcc
  import opened Simulation
  import opened OneByOne
  import opened TimeTravel

  // ------------------------------------------------- transactions and programs

  /** A contract run: program, namespace, the number of operations it performed, and the
      view it ran on: the table after the first `snapBlocks` blocks, at height `height`, with
      the keys whose lookup failed. */
  datatype Exec = Exec(ns: string, prog: Program, steps: nat, snapBlocks: nat, height: nat, fails: string -> bool)

  function ViewOf(e: Exec, t: Table): Getter {
    (ns: string, key: string) => if e.fails(key) then Err else Ok(GetAt(t, ns, key, e.height))
  }

  function SimResult(e: Exec, mono: bool, snap: Table): Option<SimOutcome> {
    SimRun(e.prog, e.ns, mono, ViewOf(e, snap), EmptySim, [], e.steps)
  }

  predicate SameVersion(mono: bool, a: Option<Version>, b: Option<Version>) {
    match (a, b)
    case (None, None) => true
    case (Some(v), Some(w)) => v.blockNum == w.blockNum && (mono || v.txNum == w.txNum)
    case _ => false
  }

  /** The read/write set carries the recorded reads and writes: every read with its version
      as far as the mode uses it, every write with the value it leaves. */
  ghost predicate Carries(rws: ReadWriteSet, mono: bool, s: Sim) {
    && (forall k | k in s.readMap ::
          exists r :: r in rws.readSet && r.key == k && SameVersion(mono, r.version, s.readMap[k].version))
    && DistinctWrites(rws.writeSet)
    && (forall w | w in rws.writeSet :: w.key in s.writeMap && ValueOf(w) == ValueOf(s.writeMap[w.key]))
    && (forall k | k in s.writeMap :: exists w :: w in rws.writeSet && w.key == k)
  }

  /** The keys the run took from its view. */
  function FetchedBy(e: Exec, snap: Table): set<string> {
    Fetched(e.prog, WorldOf(ViewOf(e, snap), e.ns), map[], [], e.steps)
  }

  /** A fetch that fails, and one that meets a tombstone, leave no read behind. */
  ghost predicate NoFailureSeen(e: Exec, snap: Table) { forall k | k in FetchedBy(e, snap) :: !e.fails(k) }

  ghost predicate NoTombstoneSeen(e: Exec, snap: Table) {
    forall k | k in FetchedBy(e, snap) :: !IsTombstone(GetAt(snap, e.ns, k, e.height))
  }

  ghost predicate AllRecorded(e: Exec, snap: Table) { NoFailureSeen(e, snap) && NoTombstoneSeen(e, snap) }

  /** The transaction is the endorsed outcome of the run. */
  ghost predicate FromExec(tx: Transaction, e: Exec, mono: bool, snap: Table) {
    && SimResult(e, mono, snap).Some?
    && |tx.nsRWS| == 1 && tx.nsRWS[0].ns == e.ns
    && Carries(tx.nsRWS[0].rws, mono, SimResult(e, mono, snap).value.sim)
  }

  function WorldAt(t: Table, ns: string): string -> Bytes { (k: string) => LiveValue(Get(t, ns, k)) }

  // ------------------------------------------------------- one transaction

  /** A row observed at a snapshot and still current at validation is the same row. */
  lemma ObservedIsCurrent(snap: Table, t: Table, mono: bool, ns: string, key: string, h: nat, v: Option<Version>)
    requires TableInv(t) && snap <= t && !IsTombstone(GetAt(snap, ns, key, h))
    requires SameVersion(mono, v, ReadOf(mono, key, GetAt(snap, ns, key, h)).version)
    requires ReadOk(mono, Get(t, ns, key), v)
    ensures LiveValue(Get(t, ns, key)) == LiveValue(GetAt(snap, ns, key, h))
  {
    var seen := GetAt(snap, ns, key, h);
    if seen.Some? {
      assert seen.value in t by {
        var i :| 0 <= i < |snap| && snap[i] == seen.value;
        assert t[i] == seen.value;
      }
      RowIdentity(t, seen.value, Get(t, ns, key).value);
    }
  }

  /** A committed transaction, rerun on the state holding all earlier blocks and the
      earlier committed transactions of its own block, sees the same values, returns the
      same result and writes the same set. */
  lemma CommittedReplays(tx: Transaction, e: Exec, mono: bool, snap: Table, t: Table, n: nat, done: seq<Transaction>)
    requires TableInv(t) && snap <= t && FromExec(tx, e, mono, snap) && AllRecorded(e, snap)
    requires InsertAll(t, BlockWrites(n, done)).Ok?
    requires TxVerdict(PendingAfter(done), DbOf(t), mono, tx.nsRWS).Committed?
    ensures PlainRun(e.prog, WorldAt(InsertAll(t, BlockWrites(n, done)).value, e.ns), map[], [], e.steps)
         == Some(SimResult(e, mono, snap).value.result)
  {
    var view, u := ViewOf(e, snap), InsertAll(t, BlockWrites(n, done)).value;
    var seen := WorldOf(view, e.ns);
    SimRefinesPlain(e.prog, e.ns, mono, view, EmptySim, [], e.steps);
    RunReads(e.prog, e.ns, mono, view, EmptySim, [], e.steps);
    CommittedMeans(PendingAfter(done), DbOf(t), mono, tx.nsRWS);
    var m := SimResult(e, mono, snap).value.sim.readMap;
    assert tx.nsRWS[0] in tx.nsRWS;
    forall k | k in Fetched(e.prog, seen, map[], [], e.steps) ensures seen(k) == WorldAt(u, e.ns)(k) {
      assert k in m;
      var r :| r in tx.nsRWS[0].rws.readSet && r.key == k && SameVersion(mono, r.version, m[k].version);
      NotPendingUnaffected(t, n, done, e.ns, k);
      ObservedIsCurrent(snap, t, mono, e.ns, k, e.height, r.version);
    }
    Replay(e.prog, seen, WorldAt(u, e.ns), map[], [], e.steps);
  }

  // ----------------------------------------------------- the plain reference

  /** A plain state: namespaces and keys to values, nil where nothing is stored. */
  type World = (string, string) -> Bytes

  ghost predicate SameWorld(t: Table, w: World) {
    forall ns: string, k: string :: LiveValue(Get(t, ns, k)) == w(ns, k)
  }

  function ApplyWrites(w: World, ns: string, ws: map<string, Bytes>): World {
    (n: string, k: string) => if n == ns && k in ws then ws[k] else w(n, k)
  }

  /** Run the program on the plain state and store what it wrote. */
  function RunOn(w: World, e: Exec): (World, Option<RunResult>) {
    var o := PlainRun(e.prog, (k: string) => w(e.ns, k), map[], [], e.steps);
    match o
    case None => (w, None)
    case Some(x) => (ApplyWrites(w, e.ns, x.writes), o)
  }

  /** The committed programs of a block, one after the other. */
  function RunCommitted(w: World, done: seq<Transaction>, execs: seq<Exec>): World
    requires |done| == |execs|
  {
    if done == [] then w
    else
      var before := RunCommitted(w, done[..|done| - 1], execs[..|done| - 1]);
      if done[|done| - 1].Valid() then RunOn(before, execs[|done| - 1]).0 else before
  }

  // ------------------------------------------------------ applying one block

  /** Every row is older than position (n, m). */
  ghost predicate Before(t: Table, n: nat, m: nat) {
    forall r | r in t :: r.blockNum < n || (r.blockNum == n && r.txNum < m)
  }

  /** Inserting the writes of a new transaction succeeds. */
  lemma ApplyTxOk(t: Table, n: nat, tx: Transaction, ns: string, ws: seq<KVWrite>)
    requires TableInv(t) && Before(t, n, tx.number) && DistinctWrites(ws)
    ensures var r := InsertAll(t, NsWrites(n, tx, ns, ws));
            r.Ok? && TableInv(r.value) && NewRows(t, r.value, n, tx.number, ws)
  {
    var rows := NsWrites(n, tx, ns, ws);
    NsWritesKeys(n, tx, ns, ws);
    FreshWritesInsert(t, rows);
    InsertAllKeepsInv(t, rows);
    forall x | x in InsertAll(t, rows).value && x !in t
      ensures x.blockNum == n && x.txNum == tx.number && exists w :: w in ws && w.key == x.key
    {
      RowsComeFromWrites(t, rows, x);
      var y :| y in rows && IsRow(x, y);
      NsWritesFrom(n, tx, ns, ws, y);
    }
  }

  lemma InsertSnoc(t: Table, n: nat, tx: Transaction, ns: string, p: seq<KVWrite>, w: KVWrite)
    ensures InsertAll(t, NsWrites(n, tx, ns, p + [w]))
         == match InsertAll(t, NsWrites(n, tx, ns, p))
            case Err => Err
            case Ok(u) => Insert(u, Write(ns, w.key, n, tx.number, w.value, w.isDelete, tx.id))
  {
    assert (p + [w])[..|p|] == p;
  }

  /** The rows `u` has beyond `t` are at position (n, m), of keys in `ws`. */
  ghost predicate NewRows(t: Table, u: Table, n: nat, m: nat, ws: seq<KVWrite>) {
    forall x | x in u && x !in t :: x.blockNum == n && x.txNum == m && exists w :: w in ws && w.key == x.key
  }

  /** ... and overlays exactly its writes. */
  lemma {:induction false} ApplyTxGet(t: Table, n: nat, tx: Transaction, ns: string, ws: seq<KVWrite>,
                                      m: string, k: string)
    requires TableInv(t) && Before(t, n, tx.number) && DistinctWrites(ws)
    requires InsertAll(t, NsWrites(n, tx, ns, ws)).Ok?
    ensures var g := Get(InsertAll(t, NsWrites(n, tx, ns, ws)).value, m, k);
            && (forall w | w in ws && m == ns && w.key == k :: LiveValue(g) == ValueOf(w))
            && (m != ns || (forall w | w in ws :: w.key != k) ==> g == Get(t, m, k))
  {
    if ws != [] {
      var p, w := ws[..|ws| - 1], ws[|ws| - 1];
      assert ws == p + [w];
      assert DistinctWrites(p) && forall y | y in p :: y.key != w.key;
      GetAfterNext(t, n, tx, ns, p, w, m, k);
      ApplyTxGet(t, n, tx, ns, p, m, k);
    }
  }

  lemma GetAfterNext(t: Table, n: nat, tx: Transaction, ns: string, p: seq<KVWrite>, w: KVWrite, m: string, k: string)
    requires TableInv(t) && Before(t, n, tx.number) && DistinctWrites(p + [w])
    ensures var u, v := InsertAll(t, NsWrites(n, tx, ns, p)), InsertAll(t, NsWrites(n, tx, ns, p + [w]));
            && u.Ok? && v.Ok?
            && (if m == ns && k == w.key then LiveValue(Get(v.value, m, k)) == ValueOf(w)
                else Get(v.value, m, k) == Get(u.value, m, k))
  {
    InsertSnoc(t, n, tx, ns, p, w);
    NextIsFresh(t, n, tx, ns, p, w);
    var u := InsertAll(t, NsWrites(n, tx, ns, p)).value;
    var x := Write(ns, w.key, n, tx.number, w.value, w.isDelete, tx.id);
    InsertFresh(u, x, m, k);
  }

  lemma NextIsFresh(t: Table, n: nat, tx: Transaction, ns: string, p: seq<KVWrite>, w: KVWrite)
    requires TableInv(t) && Before(t, n, tx.number) && DistinctWrites(p + [w])
    ensures var u := InsertAll(t, NsWrites(n, tx, ns, p));
            && u.Ok? && TableInv(u.value)
            && FindRow(u.value, Write(ns, w.key, n, tx.number, w.value, w.isDelete, tx.id)).None?
  {
    assert forall i | 0 <= i < |p| :: (p + [w])[i] == p[i] && (p + [w])[|p|] == w;
    assert DistinctWrites(p) && forall y | y in p :: y.key != w.key;
    ApplyTxOk(t, n, tx, ns, p);
  }

  lemma InsertFresh(u: Table, x: Write, m: string, k: string)
    requires TableInv(u) && FindRow(u, x).None?
    ensures Get(Insert(u, x).value, m, k) == if m == x.ns && k == x.key then Some(NewRow(u, x)) else Get(u, m, k)
  {
    InsertKeepsInv(u, x);
    GetAppend(u, NewRow(u, x), m, k);
  }

  lemma TxWritesOfSingle(n: nat, tx: Transaction)
    requires |tx.nsRWS| == 1
    ensures TxWrites(n, tx, tx.nsRWS) == NsWrites(n, tx, tx.nsRWS[0].ns, tx.nsRWS[0].rws.writeSet)
  {
    assert tx.nsRWS[..0] == [];
  }

  /** Applying a transaction to the table is applying its program's writes to the world. */
  lemma TxStep(u: Table, n: nat, tx: Transaction, e: Exec, mono: bool, snap: Table, w: World)
    requires TableInv(u) && Before(u, n, tx.number) && FromExec(tx, e, mono, snap) && SameWorld(u, w)
    requires PlainRun(e.prog, WorldAt(u, e.ns), map[], [], e.steps) == Some(SimResult(e, mono, snap).value.result)
    ensures var r := InsertAll(u, TxWrites(n, tx, tx.nsRWS));
            && r.Ok? && TableInv(r.value)
            && (forall x | x in r.value && x !in u :: x.blockNum == n && x.txNum == tx.number)
            && SameWorld(r.value, RunOn(w, e).0)
            && RunOn(w, e).1 == Some(SimResult(e, mono, snap).value.result)
  {
    TxWritesOfSingle(n, tx);
    var ws := tx.nsRWS[0].rws.writeSet;
    ApplyTxOk(u, n, tx, e.ns, ws);
    Replay(e.prog, WorldAt(u, e.ns), (k: string) => w(e.ns, k), map[], [], e.steps);
    var m := SimResult(e, mono, snap).value.result.writes;
    var v := InsertAll(u, TxWrites(n, tx, tx.nsRWS)).value;
    SimWrites(e, mono, snap);
    forall ns: string, k: string ensures LiveValue(Get(v, ns, k)) == RunOn(w, e).0(ns, k) {
      ApplyTxGet(u, n, tx, e.ns, ws, ns, k);
      if ns == e.ns && k in m {
        var x :| x in ws && x.key == k;
      } else {
        assert Get(v, ns, k) == Get(u, ns, k);
      }
    }
  }

  lemma {:induction false} SimWrites(e: Exec, mono: bool, snap: Table)
    requires SimResult(e, mono, snap).Some?
    ensures SimResult(e, mono, snap).value.result.writes == Values(SimResult(e, mono, snap).value.sim.writeMap)
  {
    SimRunWrites(e.prog, e.ns, mono, ViewOf(e, snap), EmptySim, [], e.steps);
  }

  lemma {:induction false} SimRunWrites(prog: Program, ns: string, mono: bool, snap: Getter, s: Sim,
                                        hist: seq<Resp>, n: nat)
    requires SimRun(prog, ns, mono, snap, s, hist, n).Some?
    ensures var o := SimRun(prog, ns, mono, snap, s, hist, n).value; o.result.writes == Values(o.sim.writeMap)
    decreases n
  {
    if prog(hist).Do? {
      var (s', r) := Step(ns, mono, snap, s, prog(hist).op);
      SimRunWrites(prog, ns, mono, snap, s', hist + [r], n - 1);
    }
  }

  // ------------------------------------------------------------- whole blocks

  /** Every transaction of the block is the endorsed outcome of its run, on a view of an
      earlier table of this chain. */
  ghost predicate Endorsed(txs: seq<Transaction>, execs: seq<Exec>, mono: bool, t: Table, snaps: seq<Table>)
    requires |txs| == |execs| == |snaps|
  {
    forall i | 0 <= i < |txs| ::
      snaps[i] <= t && FromExec(txs[i], execs[i], mono, snaps[i]) && AllRecorded(execs[i], snaps[i])
  }

  /** After each prefix of a validated block, table and plain state agree, and the next
      committed program, run on the plain state, reproduces its simulated outcome. */
  lemma {:induction false} BlockPrefix(t: Table, n: nat, mono: bool, codes: map<Status, int>, txs: seq<Transaction>,
                                       done: seq<Transaction>, execs: seq<Exec>, snaps: seq<Table>, w: World, i: nat)
    requires TableInv(t) && (forall r | r in t :: r.blockNum < n) && AscendingTxs(txs) && SameWorld(t, w)
    requires |txs| == |execs| == |snaps| && Endorsed(txs, execs, mono, t, snaps)
    requires done == Validated(DbOf(t), mono, codes, txs).done && i <= |done|
    ensures var r := InsertAll(t, BlockWrites(n, done[..i]));
            && r.Ok? && TableInv(r.value) && t <= r.value
            && (forall x | x in r.value :: x in t || (x.blockNum == n && i > 0 && x.txNum <= txs[i - 1].number))
            && SameWorld(r.value, RunCommitted(w, done[..i], execs[..i]))
    ensures i < |done| && done[i].Valid() ==>
              RunOn(RunCommitted(w, done[..i], execs[..i]), execs[i]).1
              == Some(SimResult(execs[i], mono, snaps[i]).value.result)
  {
    if i > 0 {
      BlockPrefix(t, n, mono, codes, txs, done, execs, snaps, w, i - 1);
      InsertUpTo(t, n, done, i);
      RunCommittedSnoc(w, done, execs, i);
      if done[i - 1].Valid() { NextTx(t, n, mono, codes, txs, done, execs, snaps, w, i - 1); }
    }
    if i < |done| && done[i].Valid() { NextTx(t, n, mono, codes, txs, done, execs, snaps, w, i); }
  }

  lemma RunCommittedSnoc(w: World, done: seq<Transaction>, execs: seq<Exec>, i: nat)
    requires 0 < i <= |done| && i <= |execs|
    ensures RunCommitted(w, done[..i], execs[..i])
         == (var before := RunCommitted(w, done[..i - 1], execs[..i - 1]);
             if done[i - 1].Valid() then RunOn(before, execs[i - 1]).0 else before)
  {
    assert done[..i][..i - 1] == done[..i - 1] && execs[..i][..i - 1] == execs[..i - 1];
  }

  lemma NextTx(t: Table, n: nat, mono: bool, codes: map<Status, int>, txs: seq<Transaction>,
               done: seq<Transaction>, execs: seq<Exec>, snaps: seq<Table>, w: World, i: nat)
    requires TableInv(t) && (forall r | r in t :: r.blockNum < n) && AscendingTxs(txs)
    requires |txs| == |execs| == |snaps| && Endorsed(txs, execs, mono, t, snaps)
    requires done == Validated(DbOf(t), mono, codes, txs).done && i < |done| && done[i].Valid()
    requires var r := InsertAll(t, BlockWrites(n, done[..i]));
             && r.Ok? && TableInv(r.value) && t <= r.value
             && (forall x | x in r.value :: x in t || (x.blockNum == n && i > 0 && x.txNum <= txs[i - 1].number))
             && SameWorld(r.value, RunCommitted(w, done[..i], execs[..i]))
    ensures var u := InsertAll(t, BlockWrites(n, done[..i])).value;
            var r := InsertAll(u, TxWrites(n, done[i], done[i].nsRWS));
            && r.Ok? && TableInv(r.value) && u <= r.value
            && (forall x | x in r.value && x !in u :: x.blockNum == n && x.txNum == txs[i].number)
            && SameWorld(r.value, RunOn(RunCommitted(w, done[..i], execs[..i]), execs[i]).0)
    ensures RunOn(RunCommitted(w, done[..i], execs[..i]), execs[i]).1
         == Some(SimResult(execs[i], mono, snaps[i]).value.result)
  {
    var u := InsertAll(t, BlockWrites(n, done[..i])).value;
    ValidatedAt(DbOf(t), mono, codes, txs, i);
    CommittedReplays(done[i], execs[i], mono, snaps[i], t, n, done[..i]);
    TxStep(u, n, done[i], execs[i], mono, snaps[i], RunCommitted(w, done[..i], execs[..i]));
    InsertAllKeepsInv(u, TxWrites(n, done[i], done[i].nsRWS));
  }

  // --------------------------------------------------------------- whole runs

  /** One block of a run, with the contract run behind each of its transactions. */
  datatype Cut = Cut(block: Block, execs: seq<Exec>)

  /** Validate against the current table, then apply; nothing changes on a failure. */
  function Commit(t: Table, mono: bool, codes: map<Status, int>, b: Block): Table {
    var o := Validated(DbOf(t), mono, codes, b.txs);
    if !o.fault.NoFault? then t
    else
      match InsertAll(t, BlockWrites(b.number, o.done))
      case Ok(u) => u
      case Err => t
  }

  function RowsAfter(mono: bool, codes: map<Status, int>, run: seq<Cut>): Table {
    if run == [] then [] else Commit(RowsAfter(mono, codes, run[..|run| - 1]), mono, codes, run[|run| - 1].block)
  }

  const EmptyWorld: World := (ns: string, k: string) => []

  /** The reference run: the committed programs of all blocks, one at a time, on a plain
      state; the pipeline is consulted only for which transactions committed. */
  function WorldAfter(mono: bool, codes: map<Status, int>, run: seq<Cut>): World {
    if run == [] then EmptyWorld
    else
      var p, c := run[..|run| - 1], run[|run| - 1];
      var o := Validated(DbOf(RowsAfter(mono, codes, p)), mono, codes, c.block.txs);
      if !o.fault.NoFault? || |o.done| != |c.execs| then WorldAfter(mono, codes, p)
      else RunCommitted(WorldAfter(mono, codes, p), o.done, c.execs)
  }

  function Snaps(mono: bool, codes: map<Status, int>, run: seq<Cut>, execs: seq<Exec>): (s: seq<Table>)
    requires forall e | e in execs :: e.snapBlocks <= |run|
    ensures |s| == |execs| && forall i | 0 <= i < |execs| :: s[i] == RowsAfter(mono, codes, run[..execs[i].snapBlocks])
  {
    seq(|execs|, i requires 0 <= i < |execs| => RowsAfter(mono, codes, run[..execs[i].snapBlocks]))
  }

  /** Block numbers increase, positions increase inside a block, and every transaction was
      simulated on a view of the table after some earlier block, without meeting a tombstone. */
  ghost predicate EndorsedRun(mono: bool, codes: map<Status, int>, run: seq<Cut>) {
    run == []
    || (var p, c := run[..|run| - 1], run[|run| - 1];
        && EndorsedRun(mono, codes, p)
        && (forall d | d in p :: d.block.number < c.block.number)
        && AscendingTxs(c.block.txs) && |c.block.txs| == |c.execs|
        && (forall i | 0 <= i < |c.execs| :: EndorsedOn(mono, codes, p, c.block.txs[i], c.execs[i])))
  }

  /** Endorsed on some state of the chain `p`, with every fetch recorded. */
  ghost predicate EndorsedOn(mono: bool, codes: map<Status, int>, p: seq<Cut>, tx: Transaction, e: Exec) {
    && e.snapBlocks <= |p|
    && var snap := RowsAfter(mono, codes, p[..e.snapBlocks]);
       FromExec(tx, e, mono, snap) && AllRecorded(e, snap)
  }

  lemma {:induction false} RowsGrow(mono: bool, codes: map<Status, int>, run: seq<Cut>, k: nat)
    requires k <= |run|
    ensures TableInv(RowsAfter(mono, codes, run)) && RowsAfter(mono, codes, run[..k]) <= RowsAfter(mono, codes, run)
    decreases |run|
  {
    if run != [] {
      var p, b := run[..|run| - 1], run[|run| - 1].block;
      var t := RowsAfter(mono, codes, p);
      RowsGrow(mono, codes, p, if k < |run| then k else 0);
      CommitGrows(t, mono, codes, b);
      if k < |run| { assert p[..k] == run[..k]; } else { assert run[..k] == run; }
    }
  }

  lemma CommitGrows(t: Table, mono: bool, codes: map<Status, int>, b: Block)
    requires TableInv(t)
    ensures TableInv(Commit(t, mono, codes, b)) && t <= Commit(t, mono, codes, b)
  {
    var ws := BlockWrites(b.number, Validated(DbOf(t), mono, codes, b.txs).done);
    if InsertAll(t, ws).Ok? { InsertAllKeepsInv(t, ws); }
  }

  lemma {:induction false} RowsBelow(mono: bool, codes: map<Status, int>, run: seq<Cut>, r: WriteRecord)
    requires r in RowsAfter(mono, codes, run)
    ensures exists c :: c in run && c.block.number == r.blockNum
  {
    var p, c := run[..|run| - 1], run[|run| - 1];
    var t := RowsAfter(mono, codes, p);
    if r in t {
      RowsBelow(mono, codes, p, r);
      var d :| d in p && d.block.number == r.blockNum;
      assert d in run;
    } else {
      RowsComeFromWrites(t, BlockWrites(c.block.number, Validated(DbOf(t), mono, codes, c.block.txs).done), r);
      assert c in run;
    }
  }

  /** Serializability: after every run the table holds exactly the state that executing the
      committed programs serially, in chain order, leaves behind. */
  lemma {:induction false} Serializable(mono: bool, codes: map<Status, int>, run: seq<Cut>)
    requires EndorsedRun(mono, codes, run)
    ensures SameWorld(RowsAfter(mono, codes, run), WorldAfter(mono, codes, run))
  {
    if run != [] {
      var p, c := run[..|run| - 1], run[|run| - 1];
      var t := RowsAfter(mono, codes, p);
      var o := Validated(DbOf(t), mono, codes, c.block.txs);
      Serializable(mono, codes, p);
      if o.fault.NoFault? {
        LastBlock(mono, codes, run, |o.done|);
        assert o.done[..|o.done|] == o.done && c.execs[..|o.done|] == c.execs;
      }
    }
  }

  /** And each committed program, run at its place in the serial order, returns what its
      simulation returned: the same answers, result and writes. */
  lemma SerialOutcomes(mono: bool, codes: map<Status, int>, run: seq<Cut>, i: nat)
    requires run != [] && EndorsedRun(mono, codes, run)
    requires var p, c := run[..|run| - 1], run[|run| - 1];
             var done := Validated(DbOf(RowsAfter(mono, codes, p)), mono, codes, c.block.txs).done;
             i < |done| && done[i].Valid()
    ensures var p, c := run[..|run| - 1], run[|run| - 1];
            var done := Validated(DbOf(RowsAfter(mono, codes, p)), mono, codes, c.block.txs).done;
            RunOn(RunCommitted(WorldAfter(mono, codes, p), done[..i], c.execs[..i]), c.execs[i]).1
            == Some(SimResult(c.execs[i], mono, RowsAfter(mono, codes, p[..c.execs[i].snapBlocks])).value.result)
  {
    Serializable(mono, codes, run[..|run| - 1]);
    LastBlock(mono, codes, run, i);
  }

  lemma ReadyForBlock(mono: bool, codes: map<Status, int>, p: seq<Cut>, c: Cut, snaps: seq<Table>)
    requires |c.block.txs| == |c.execs| && (forall d | d in p :: d.block.number < c.block.number)
    requires forall i | 0 <= i < |c.execs| :: EndorsedOn(mono, codes, p, c.block.txs[i], c.execs[i])
    requires (forall e | e in c.execs :: e.snapBlocks <= |p|) && snaps == Snaps(mono, codes, p, c.execs)
    ensures var t := RowsAfter(mono, codes, p);
            && TableInv(t) && (forall r | r in t :: r.blockNum < c.block.number)
            && Endorsed(c.block.txs, c.execs, mono, t, snaps)
  {
    var t := RowsAfter(mono, codes, p);
    RowsGrow(mono, codes, p, 0);
    forall i | 0 <= i < |c.execs| ensures snaps[i] <= t {
      assert EndorsedOn(mono, codes, p, c.block.txs[i], c.execs[i]);
      RowsGrow(mono, codes, p, c.execs[i].snapBlocks);
    }
    forall r | r in t ensures r.blockNum < c.block.number { RowsBelow(mono, codes, p, r); }
  }

  lemma LastBlock(mono: bool, codes: map<Status, int>, run: seq<Cut>, i: nat)
    requires run != [] && EndorsedRun(mono, codes, run)
    requires var p := run[..|run| - 1]; SameWorld(RowsAfter(mono, codes, p), WorldAfter(mono, codes, p))
    requires var p, c := run[..|run| - 1], run[|run| - 1];
             i <= |Validated(DbOf(RowsAfter(mono, codes, p)), mono, codes, c.block.txs).done|
    ensures var p, c := run[..|run| - 1], run[|run| - 1];
            var t, w := RowsAfter(mono, codes, p), WorldAfter(mono, codes, p);
            var done := Validated(DbOf(t), mono, codes, c.block.txs).done;
            var r := InsertAll(t, BlockWrites(c.block.number, done[..i]));
            && r.Ok? && SameWorld(r.value, RunCommitted(w, done[..i], c.execs[..i]))
            && (i < |done| && done[i].Valid() ==>
                  RunOn(RunCommitted(w, done[..i], c.execs[..i]), c.execs[i]).1
                  == Some(SimResult(c.execs[i], mono, RowsAfter(mono, codes, p[..c.execs[i].snapBlocks])).value.result))
  {
    var p, c := run[..|run| - 1], run[|run| - 1];
    var t := RowsAfter(mono, codes, p);
    var snaps := Snaps(mono, codes, p, c.execs);
    ReadyForBlock(mono, codes, p, c, snaps);
    BlockPrefix(t, c.block.number, mono, codes, c.block.txs, Validated(DbOf(t), mono, codes, c.block.txs).done,
                c.execs, snaps, WorldAfter(mono, codes, p), i);
  }

  /** The same guarantee for one endorsed transaction when the other transactions of the
      run are arbitrary: rerun on everything committed before it, it repeats itself. */
  lemma ReplaysInEveryRun(mono: bool, codes: map<Status, int>, run: seq<Cut>, b: Block, i: nat, e: Exec)
    requires i < |b.txs| && EndorsedOn(mono, codes, run, b.txs[i], e)
    requires var t := RowsAfter(mono, codes, run);
             var done := Validated(DbOf(t), mono, codes, b.txs).done;
             && i < |done| && done[i].Valid() && InsertAll(t, BlockWrites(b.number, done[..i])).Ok?
    ensures var t := RowsAfter(mono, codes, run);
            var done := Validated(DbOf(t), mono, codes, b.txs).done;
            var snap := RowsAfter(mono, codes, run[..e.snapBlocks]);
            PlainRun(e.prog, WorldAt(InsertAll(t, BlockWrites(b.number, done[..i])).value, e.ns), map[], [], e.steps)
            == Some(SimResult(e, mono, snap).value.result)
  {
    var t := RowsAfter(mono, codes, run);
    var done := Validated(DbOf(t), mono, codes, b.txs).done;
    RowsGrow(mono, codes, run, e.snapBlocks);
    ValidatedAt(DbOf(t), mono, codes, b.txs, i);
    CommittedReplays(b.txs[i], e, mono, RowsAfter(mono, codes, run[..e.snapBlocks]), t, b.number, done[..i]);
  }

  // --------------------------------------------------------------- tombstones

  ghost predicate NoDeletes(txs: seq<Transaction>) {
    forall tx, m, w | tx in txs && m in tx.nsRWS && w in m.rws.writeSet :: !w.isDelete
  }

  /** Blocks without delete records, as Fabric-X decoding produces them, never leave a
      tombstone, so no simulation can meet one. */
  lemma {:induction false} NoDeletesNoTombstones(mono: bool, codes: map<Status, int>, run: seq<Cut>, r: WriteRecord)
    requires (forall c | c in run :: NoDeletes(c.block.txs)) && r in RowsAfter(mono, codes, run)
    ensures !r.isDelete
  {
    var p, b := run[..|run| - 1], run[|run| - 1].block;
    assert run[|run| - 1] in run;
    var t := RowsAfter(mono, codes, p);
    if r in t {
      NoDeletesNoTombstones(mono, codes, p, r);
    } else {
      var done := Validated(DbOf(t), mono, codes, b.txs).done;
      RowsComeFromWrites(t, BlockWrites(b.number, done), r);
      var w :| w in BlockWrites(b.number, done) && IsRow(r, w) && SameContent(r, w);
      BlockWritesFrom(b.number, done, w);
      var tx, m, x :| tx in done && m in tx.nsRWS && x in m.rws.writeSet
                   && m.ns == w.ns && x.key == w.key && x.isDelete == w.isDelete;
      var k :| 0 <= k < |done| && done[k] == tx;
      ValidatedAt(DbOf(t), mono, codes, b.txs, k);
      assert b.txs[k] in b.txs;
    }
  }

  lemma NoDeletesNoneSeen(mono: bool, codes: map<Status, int>, run: seq<Cut>, e: Exec)
    requires forall c | c in run :: NoDeletes(c.block.txs)
    ensures NoTombstoneSeen(e, RowsAfter(mono, codes, run))
  {
    var t := RowsAfter(mono, codes, run);
    forall k: string ensures !IsTombstone(GetAt(t, e.ns, k, e.height)) {
      if GetAt(t, e.ns, k, e.height).Some? {
        NoDeletesNoTombstones(mono, codes, run, GetAt(t, e.ns, k, e.height).value);
      }
    }
  }

  // --------------------------------------------------------------- unrecorded reads

  /** Read one key and return its value; treat a failed lookup as an absent key. */
  function Probe(key: string): Program {
    (hist: seq<Resp>) => if hist == [] then Do(GetOp(key)) else Return(if hist[0].Value? then hist[0].value else [])
  }

  /** The table, with every lookup failing or none. */
  function ProbeView(t: Table, fails: bool): Getter {
    (ns: string, key: string) => if fails then Err else Ok(Get(t, ns, key))
  }

  function ProbeRun(t: Table, ns: string, key: string, mono: bool, fails: bool): Option<SimOutcome> {
    SimRun(Probe(key), ns, mono, ProbeView(t, fails), EmptySim, [], 1)
  }

  /** Whenever the probe commits against a later table, rerunning it there repeats it. */
  ghost predicate ProbeSerializable(t: Table, ns: string, key: string, mono: bool, fails: bool) {
    var o := ProbeRun(t, ns, key, mono, fails);
    && o.Some?
    && forall u: Table, rws: ReadWriteSet | CommitsOn(t, u, ns, mono, rws, o.value.sim.readMap)
         :: Repeats(u, ns, key, o.value.result)
  }

  ghost predicate Repeats(u: Table, ns: string, key: string, x: RunResult) {
    PlainRun(Probe(key), WorldAt(u, ns), map[], [], 1) == Some(x)
  }

  /** The later table `u` accepts a listing of the reads. */
  ghost predicate CommitsOn(t: Table, u: Table, ns: string, mono: bool, rws: ReadWriteSet,
                            readMap: map<string, KVRead>) {
    && t <= u && TableInv(u) && ListsReads(rws.readSet, readMap)
    && TxVerdict({}, DbOf(u), mono, [NsReadWriteSet(ns, rws)]).Committed?
  }

  lemma ProbeRuns(t: Table, ns: string, key: string, mono: bool, fails: bool)
    ensures var rec, o := Get(t, ns, key), ProbeRun(t, ns, key, mono, fails);
            && o.Some?
            && o.value.result == (if fails then RunResult(map[], [Failed], [])
                                  else RunResult(map[], [Value(LiveValue(rec))], LiveValue(rec)))
            && o.value.sim.readMap == (if fails || IsTombstone(rec) then map[] else map[key := ReadOf(mono, key, rec)])
  {
    var (s, r) := Step(ns, mono, ProbeView(t, fails), EmptySim, GetOp(key));
    assert SimRun(Probe(key), ns, mono, ProbeView(t, fails), s, [r], 0).Some?;
    assert [] + [r] == [r];
  }

  lemma ProbePlain(key: string, world: string -> Bytes)
    ensures PlainRun(Probe(key), world, map[], [], 1) == Some(RunResult(map[], [Value(world(key))], world(key)))
  {
    assert [] + [Value(world(key))] == [Value(world(key))];
    assert PlainRun(Probe(key), world, map[], [Value(world(key))], 0).Some?;
  }

  function NextBlock(t: Table): (n: nat)
    ensures forall r | r in t :: r.blockNum < n
  {
    if t == [] then 0
    else
      var n, last := NextBlock(t[..|t| - 1]), t[|t| - 1];
      assert t == t[..|t| - 1] + [last];
      if last.blockNum >= n then last.blockNum + 1 else n
  }

  /** A lookup that meets a tombstone, or fails, leaves no trace in the read set, so the
      validator cannot notice a later write of the key: reading a key is serializable exactly
      when the lookup succeeds and its record is not a tombstone. */
  lemma ProbeSerializableIff(t: Table, ns: string, key: string, mono: bool, fails: bool)
    requires TableInv(t)
    ensures ProbeSerializable(t, ns, key, mono, fails) <==> !fails && !IsTombstone(Get(t, ns, key))
  {
    if fails || IsTombstone(Get(t, ns, key)) {
      ProbeMisled(t, ns, key, mono, fails);
    } else {
      ProbeKept(t, ns, key, mono);
    }
  }

  /** Some later table gives the key a value. */
  lemma WrittenLater(t: Table, ns: string, key: string) returns (u: Table)
    requires TableInv(t)
    ensures t <= u && TableInv(u) && LiveValue(Get(u, ns, key)) == [1]
  {
    var w := Write(ns, key, NextBlock(t), 0, [1], false, "");
    assert FindRow(t, w).None?;
    u := Insert(t, w).value;
    assert t <= u && TableInv(u) by { InsertKeepsInv(t, w); }
    assert Get(u, ns, key) == Some(NewRow(t, w)) by { InsertFresh(t, w, ns, key); }
  }

  lemma ProbeMisled(t: Table, ns: string, key: string, mono: bool, fails: bool)
    requires TableInv(t) && (fails || IsTombstone(Get(t, ns, key)))
    ensures !ProbeSerializable(t, ns, key, mono, fails)
  {
    var u := WrittenLater(t, ns, key);
    EmptyCommits(t, u, ns, mono);
    Misleads(t, u, ns, key, mono, fails);
  }

  lemma Misleads(t: Table, u: Table, ns: string, key: string, mono: bool, fails: bool)
    requires (fails || IsTombstone(Get(t, ns, key))) && LiveValue(Get(u, ns, key)) == [1]
    requires CommitsOn(t, u, ns, mono, ReadWriteSet([], []), map[])
    ensures !ProbeSerializable(t, ns, key, mono, fails)
  {
    var o := ProbeRun(t, ns, key, mono, fails);
    assert o.Some? && o.value.sim.readMap == map[] && o.value.result.out == [] by {
      ProbeRuns(t, ns, key, mono, fails);
    }
    assert !Repeats(u, ns, key, o.value.result) by { ProbePlain(key, WorldAt(u, ns)); }
  }

  lemma EmptyCommits(t: Table, u: Table, ns: string, mono: bool)
    requires t <= u && TableInv(u)
    ensures CommitsOn(t, u, ns, mono, ReadWriteSet([], []), map[])
  {
    CommittedMeans({}, DbOf(u), mono, [NsReadWriteSet(ns, ReadWriteSet([], []))]);
  }

  lemma ProbeKept(t: Table, ns: string, key: string, mono: bool)
    requires TableInv(t) && !IsTombstone(Get(t, ns, key))
    ensures ProbeSerializable(t, ns, key, mono, false)
  {
    ProbeRuns(t, ns, key, mono, false);
    var o := ProbeRun(t, ns, key, mono, false).value;
    var h := NextBlock(t);
    GetAtEverything(t, ns, key, h);
    forall u: Table, rws: ReadWriteSet | CommitsOn(t, u, ns, mono, rws, o.sim.readMap)
      ensures Repeats(u, ns, key, o.result)
    {
      CommittedMeans({}, DbOf(u), mono, [NsReadWriteSet(ns, rws)]);
      var r := o.sim.readMap[key];
      assert NsReadWriteSet(ns, rws) in [NsReadWriteSet(ns, rws)] && r in rws.readSet;
      ObservedIsCurrent(t, u, mono, ns, key, h, r.version);
      ProbePlain(key, WorldAt(u, ns));
    }
  }
}
