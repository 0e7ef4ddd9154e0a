/** From simulation to committed state: the transaction in the block is the endorsed
    read/write set after its trip over the wire. */
module Pipeline {
  import opened Types
  import opened Mvcc
  import opened Simulation
  import opened FabricCodec
  import opened FabricxCodec
  import opened OneByOne
  import opened Serializability
  import Sorting
  import TimeTravel

  // ----------------------------------- validation does not notice the encoding

  ghost predicate ErrorFreeDb(db: Getter) { forall ns: string, k: string :: db(ns, k).Ok? }

  lemma SameNsVerdict(pending: set<string>, db: Getter, ns: string, rws: ReadWriteSet, out: ReadWriteSet)
    requires ErrorFreeDb(db) && IsImage(rws, out)
    ensures NsVerdict(pending, db, true, ns, rws.readSet) == NsVerdict(pending, db, true, ns, out.readSet)
  {
    FirstProblemMeans(db, true, ns, rws.readSet);
    FirstProblemMeans(db, true, ns, out.readSet);
    forall r | r in rws.readSet ensures OverWireRead(r) in out.readSet {}
    assert HitsPending(pending, ns, rws.readSet) ==> HitsPending(pending, ns, out.readSet) by {
      if i :| 0 <= i < |rws.readSet| && PendingKey(ns, rws.readSet[i].key) in pending {
        assert OverWireRead(rws.readSet[i]) in out.readSet;
      }
    }
    assert HitsPending(pending, ns, out.readSet) ==> HitsPending(pending, ns, rws.readSet) by {
      if i :| 0 <= i < |out.readSet| && PendingKey(ns, out.readSet[i].key) in pending {
        assert out.readSet[i] in out.readSet;
        var r :| r in rws.readSet && out.readSet[i] == OverWireRead(r);
      }
    }
  }

  lemma SamePending(ns: string, rws: ReadWriteSet, out: ReadWriteSet)
    requires IsImage(rws, out)
    ensures TxPending([NsReadWriteSet(ns, rws)]) == TxPending([NsReadWriteSet(ns, out)])
  {
    var a, b := [NsReadWriteSet(ns, rws)], [NsReadWriteSet(ns, out)];
    assert a[..0] == [] && b[..0] == [];
    forall w | w in rws.writeSet ensures OverWireWrite(w) in out.writeSet {}
    assert NsPending(ns, rws.writeSet) == NsPending(ns, out.writeSet);
  }

  /** `b` is `a` after a trip over the wire: its one read/write set built into some message
      by buildTx, and that message decoded. */
  ghost predicate OverWire(a: Transaction, b: Transaction) {
    && |a.nsRWS| == 1 && DistinctRWS(a.nsRWS[0].rws)
    && exists pb: PbTx, nsVersion: nat, metadata: seq<Bytes> ::
         IsBuild(a.nsRWS[0].rws, a.nsRWS[0].ns, nsVersion, metadata, pb) && b == a.(nsRWS := Decoded(pb.namespaces))
  }

  lemma OverWireIsImage(a: Transaction, b: Transaction)
    requires OverWire(a, b)
    ensures |b.nsRWS| == 1 && b.nsRWS[0].ns == a.nsRWS[0].ns && IsImage(a.nsRWS[0].rws, b.nsRWS[0].rws)
  {
    var pb: PbTx, nsVersion: nat, metadata: seq<Bytes> :|
      IsBuild(a.nsRWS[0].rws, a.nsRWS[0].ns, nsVersion, metadata, pb) && b == a.(nsRWS := Decoded(pb.namespaces));
    RoundTrip(a.nsRWS[0].rws, a.nsRWS[0].ns, nsVersion, metadata, pb);
  }

  lemma SameTx(pending: set<string>, db: Getter, a: Transaction, b: Transaction)
    requires ErrorFreeDb(db) && |a.nsRWS| == 1 && |b.nsRWS| == 1 && b.nsRWS[0].ns == a.nsRWS[0].ns
    requires IsImage(a.nsRWS[0].rws, b.nsRWS[0].rws)
    ensures TxVerdict(pending, db, true, a.nsRWS) == TxVerdict(pending, db, true, b.nsRWS)
    ensures TxPending(a.nsRWS) == TxPending(b.nsRWS)
  {
    var n, x, y := a.nsRWS[0].ns, a.nsRWS[0].rws, b.nsRWS[0].rws;
    assert a.nsRWS == [NsReadWriteSet(n, x)] && b.nsRWS == [NsReadWriteSet(n, y)];
    SingleVerdict(pending, db, NsReadWriteSet(n, x));
    SingleVerdict(pending, db, NsReadWriteSet(n, y));
    SameNsVerdict(pending, db, n, x, y);
    SamePending(n, x, y);
  }

  ghost predicate SameOutcome(x: Outcome, y: Outcome) {
    && x.fault == y.fault && |x.done| == |y.done|
    && forall i | 0 <= i < |x.done| :: x.done[i].status == y.done[i].status && x.done[i].rawCode == y.done[i].rawCode
  }

  /** The validator cannot tell the two transactions apart. */
  ghost predicate Alike(db: Getter, a: Transaction, b: Transaction) {
    && TxPending(a.nsRWS) == TxPending(b.nsRWS)
    && forall q: set<string> :: TxVerdict(q, db, true, a.nsRWS) == TxVerdict(q, db, true, b.nsRWS)
  }

  lemma {:induction false} AlikeVerdicts(pending: set<string>, db: Getter, codes: map<Status, int>,
                                         a: seq<Transaction>, b: seq<Transaction>)
    requires |a| == |b| && forall i | 0 <= i < |a| :: Alike(db, a[i], b[i])
    ensures SameOutcome(ValidateFrom(pending, db, true, codes, a), ValidateFrom(pending, db, true, codes, b))
    decreases |a|
  {
    if a != [] {
      assert Alike(db, a[0], b[0]);
      var v := TxVerdict(pending, db, true, a[0].nsRWS);
      var pending' := if v.Committed? then pending + TxPending(a[0].nsRWS) else pending;
      AlikeVerdicts(pending', db, codes, a[1..], b[1..]);
      AlikeCons(SetStatus(a[0], v, CodeFor(codes, v)), SetStatus(b[0], v, CodeFor(codes, v)),
                ValidateFrom(pending', db, true, codes, a[1..]), ValidateFrom(pending', db, true, codes, b[1..]));
    }
  }

  lemma AlikeCons(a: Transaction, b: Transaction, x: Outcome, y: Outcome)
    requires a.status == b.status && a.rawCode == b.rawCode && SameOutcome(x, y)
    ensures SameOutcome(Outcome([a] + x.done, x.fault), Outcome([b] + y.done, y.fault))
  {
  }

  /** In monotonic mode, against any error-free store, a block of read/write sets and the
      block of their built and decoded messages get the same verdicts and codes. */
  lemma EncodingKeepsVerdicts(db: Getter, codes: map<Status, int>, a: seq<Transaction>, b: seq<Transaction>)
    requires ErrorFreeDb(db) && |a| == |b| && forall i | 0 <= i < |a| :: OverWire(a[i], b[i])
    ensures SameOutcome(Validated(db, true, codes, a), Validated(db, true, codes, b))
  {
    forall i | 0 <= i < |a| ensures Alike(db, a[i], b[i]) {
      OverWireIsImage(a[i], b[i]);
      forall q: set<string> ensures TxVerdict(q, db, true, a[i].nsRWS) == TxVerdict(q, db, true, b[i].nsRWS) {
        SameTx(q, db, a[i], b[i]);
      }
      SameTx({}, db, a[i], b[i]);
    }
    AlikeVerdicts({}, db, codes, a, b);
  }

  lemma SingleVerdict(pending: set<string>, db: Getter, n: NsReadWriteSet)
    ensures TxVerdict(pending, db, true, [n]) == NsVerdict(pending, db, true, n.ns, n.rws.readSet)
  {
    assert [n][1..] == [];
  }

  // ------------------------------------------------------------ end to end

  /** The simulation's result, listed in some order, carries the simulation, in both modes. */
  lemma ResultCarries(rws: ReadWriteSet, mono: bool, s: Sim)
    requires KeyedSim(s) && ListsReads(rws.readSet, s.readMap) && ListsWrites(rws.writeSet, s.writeMap)
    ensures Carries(rws, mono, s)
  {
    forall k | k in s.readMap
      ensures exists r :: r in rws.readSet && r.key == k && SameVersion(mono, r.version, s.readMap[k].version)
    {
      assert s.readMap[k] in rws.readSet;
    }
    forall k | k in s.writeMap ensures exists w :: w in rws.writeSet && w.key == k {
      assert s.writeMap[k] in rws.writeSet;
    }
  }

  /** So does its Fabric-X encoding, for monotonic versions. */
  lemma ImageCarries(rws: ReadWriteSet, out: ReadWriteSet, s: Sim)
    requires KeyedSim(s) && IsImage(rws, out)
    requires ListsReads(rws.readSet, s.readMap) && ListsWrites(rws.writeSet, s.writeMap)
    ensures Carries(out, true, s)
    ensures forall w | w in out.writeSet :: !w.isDelete
  {
    ImageReads(rws, out, s);
    ImageWritesCover(rws, out, s);
    ImageWritesFrom(rws, out, s);
    DistinctByKey(out.writeSet);
  }

  lemma ImageReads(rws: ReadWriteSet, out: ReadWriteSet, s: Sim)
    requires KeyedSim(s) && ListsReads(rws.readSet, s.readMap) && IsImage(rws, out)
    ensures forall k | k in s.readMap ::
              exists r :: r in out.readSet && r.key == k && SameVersion(true, r.version, s.readMap[k].version)
  {
    forall k | k in s.readMap
      ensures exists r :: r in out.readSet && r.key == k && SameVersion(true, r.version, s.readMap[k].version)
    {
      assert s.readMap[k] in rws.readSet;
      assert OverWireRead(s.readMap[k]) in out.readSet;
    }
  }

  lemma ImageWritesCover(rws: ReadWriteSet, out: ReadWriteSet, s: Sim)
    requires KeyedSim(s) && ListsWrites(rws.writeSet, s.writeMap) && IsImage(rws, out)
    ensures forall k | k in s.writeMap :: exists w :: w in out.writeSet && w.key == k
  {
    forall k | k in s.writeMap ensures exists w :: w in out.writeSet && w.key == k {
      assert s.writeMap[k] in rws.writeSet;
      assert OverWireWrite(s.writeMap[k]) in out.writeSet;
    }
  }

  lemma ImageWritesFrom(rws: ReadWriteSet, out: ReadWriteSet, s: Sim)
    requires ListsWrites(rws.writeSet, s.writeMap) && IsImage(rws, out)
    ensures forall w | w in out.writeSet ::
              !w.isDelete && w.key in s.writeMap && ValueOf(w) == ValueOf(s.writeMap[w.key])
  {
    forall w | w in out.writeSet
      ensures !w.isDelete && w.key in s.writeMap && ValueOf(w) == ValueOf(s.writeMap[w.key])
    {
      var x :| x in rws.writeSet && w == OverWireWrite(x);
      assert s.writeMap[x.key] == x;
    }
  }

  lemma DistinctByKey(ws: seq<KVWrite>)
    requires Sorting.DistinctKeys(WriteKey, ws)
    ensures DistinctWrites(ws)
  {
    forall i, j | 0 <= i < j < |ws| ensures ws[i].key != ws[j].key {
      assert WriteKey(ws[i]) != WriteKey(ws[j]);
    }
  }

  /** The transaction a Fabric-X parser finds in the block: the run's result, listed by
      `Result` in some order, built into a message by an endorser and decoded. */
  ghost predicate EndorsedX(tx: Transaction, e: Exec, snap: seq<WriteRecord>) {
    SimResult(e, true, snap).Some? && EncodedFrom(tx.nsRWS, e.ns, SimResult(e, true, snap).value.sim)
  }

  ghost predicate EncodedFrom(nsRWS: seq<NsReadWriteSet>, ns: string, s: Sim) {
    exists rws: ReadWriteSet, pb: PbTx, nsVersion: nat, metadata: seq<Bytes> ::
      EncodesSim(s, ns, rws, pb, nsVersion, metadata) && nsRWS == Decoded(pb.namespaces)
  }

  ghost predicate EncodesSim(s: Sim, ns: string, rws: ReadWriteSet, pb: PbTx, nsVersion: nat, metadata: seq<Bytes>) {
    && ListsReads(rws.readSet, s.readMap) && ListsWrites(rws.writeSet, s.writeMap)
    && IsBuild(rws, ns, nsVersion, metadata, pb)
  }

  lemma ListedIsDistinct(rws: ReadWriteSet, s: Sim)
    requires ListsReads(rws.readSet, s.readMap) && ListsWrites(rws.writeSet, s.writeMap)
    ensures DistinctRWS(rws)
  {
  }

  lemma EndorsedXIsFromExec(tx: Transaction, e: Exec, snap: seq<WriteRecord>)
    requires EndorsedX(tx, e, snap)
    ensures FromExec(tx, e, true, snap) && NoDeletes([tx])
  {
    RunIsKeyed(e.prog, e.ns, true, ViewOf(e, snap), EmptySim, [], e.steps);
    EncodedCarries(tx.nsRWS, e.ns, SimResult(e, true, snap).value.sim);
  }

  lemma EncodedCarries(nsRWS: seq<NsReadWriteSet>, ns: string, s: Sim)
    requires KeyedSim(s) && EncodedFrom(nsRWS, ns, s)
    ensures |nsRWS| == 1 && nsRWS[0].ns == ns && Carries(nsRWS[0].rws, true, s)
    ensures forall w | w in nsRWS[0].rws.writeSet :: !w.isDelete
  {
    var rws: ReadWriteSet, pb: PbTx, nsVersion: nat, metadata: seq<Bytes> :|
      EncodesSim(s, ns, rws, pb, nsVersion, metadata) && nsRWS == Decoded(pb.namespaces);
    BuiltCarries(rws, pb, ns, nsVersion, metadata, s);
  }

  lemma BuiltCarries(rws: ReadWriteSet, pb: PbTx, ns: string, nsVersion: nat, metadata: seq<Bytes>, s: Sim)
    requires KeyedSim(s) && EncodesSim(s, ns, rws, pb, nsVersion, metadata)
    ensures |Decoded(pb.namespaces)| == 1
    ensures var n := Decoded(pb.namespaces)[0];
            n.ns == ns && Carries(n.rws, true, s) && forall w | w in n.rws.writeSet :: !w.isDelete
  {
    ListedIsDistinct(rws, s);
    RoundTrip(rws, ns, nsVersion, metadata, pb);
    ImageCarries(rws, Decoded(pb.namespaces)[0].rws, s);
  }

  /** A Fabric-X run: increasing block numbers and positions, every transaction endorsed on
      some earlier state of this chain by a run none of whose fetches failed.  What the
      fetches met does not matter. */
  ghost predicate FabricxRun(codes: map<Status, int>, run: seq<Cut>) {
    run == []
    || (var p, c := run[..|run| - 1], run[|run| - 1];
        && FabricxRun(codes, p)
        && (forall d | d in p :: d.block.number < c.block.number)
        && TimeTravel.AscendingTxs(c.block.txs) && |c.block.txs| == |c.execs|
        && (forall i | 0 <= i < |c.execs| :: EndorsedXOn(codes, p, c.block.txs[i], c.execs[i])))
  }

  ghost predicate EndorsedXOn(codes: map<Status, int>, p: seq<Cut>, tx: Transaction, e: Exec) {
    && e.snapBlocks <= |p|
    && var snap := RowsAfter(true, codes, p[..e.snapBlocks]);
       EndorsedX(tx, e, snap) && NoFailureSeen(e, snap)
  }

  lemma {:induction false} FabricxRunIsEndorsed(codes: map<Status, int>, run: seq<Cut>)
    requires FabricxRun(codes, run)
    ensures EndorsedRun(true, codes, run) && forall c | c in run :: NoDeletes(c.block.txs)
  {
    if run != [] {
      var p, c := run[..|run| - 1], run[|run| - 1];
      FabricxRunIsEndorsed(codes, p);
      forall i | 0 <= i < |c.execs|
        ensures EndorsedOn(true, codes, p, c.block.txs[i], c.execs[i]) && NoDeletes([c.block.txs[i]])
      {
        EndorsedXAfter(codes, p, c.block.txs[i], c.execs[i]);
      }
      NoDeletesEach(c.block.txs);
      assert run == p + [c];
    }
  }

  lemma EndorsedXAfter(codes: map<Status, int>, p: seq<Cut>, tx: Transaction, e: Exec)
    requires (forall d | d in p :: NoDeletes(d.block.txs)) && EndorsedXOn(codes, p, tx, e)
    ensures EndorsedOn(true, codes, p, tx, e) && NoDeletes([tx])
  {
    EndorsedXIsFromExec(tx, e, RowsAfter(true, codes, p[..e.snapBlocks]));
    assert forall d | d in p[..e.snapBlocks] :: d in p;
    NoDeletesNoneSeen(true, codes, p[..e.snapBlocks], e);
  }

  lemma NoDeletesEach(txs: seq<Transaction>)
    requires forall i | 0 <= i < |txs| :: NoDeletes([txs[i]])
    ensures NoDeletes(txs)
  {
    forall tx, m, w | tx in txs && m in tx.nsRWS && w in m.rws.writeSet ensures !w.isDelete {
      var i :| 0 <= i < |txs| && txs[i] == tx;
      assert txs[i] in [txs[i]];
    }
  }

  /** Fabric-X, end to end: simulate, build, decode, validate, apply, for any number of
      blocks; the table always holds the state a serial execution of the committed programs
      leaves. */
  lemma FabricxSerializable(codes: map<Status, int>, run: seq<Cut>)
    requires FabricxRun(codes, run)
    ensures SameWorld(RowsAfter(true, codes, run), WorldAfter(true, codes, run))
  {
    FabricxRunIsEndorsed(codes, run);
    Serializable(true, codes, run);
  }

  // ------------------------------------------------------------ Fabric, end to end

  /** The transaction a Fabric parser finds in the block: the run's result, listed by
      `Result` in some order, marshalled by an endorser and parsed. */
  ghost predicate EndorsedF(tx: Transaction, e: Exec, snap: seq<WriteRecord>) {
    SimResult(e, false, snap).Some? && MarshalledFrom(tx.nsRWS, e.ns, SimResult(e, false, snap).value.sim)
  }

  ghost predicate MarshalledFrom(nsRWS: seq<NsReadWriteSet>, ns: string, s: Sim) {
    exists rws: ReadWriteSet, out: ReadWriteSet ::
      && ListsReads(rws.readSet, s.readMap) && ListsWrites(rws.writeSet, s.writeMap)
      && IsMarshalled(rws, out) && nsRWS == [NsReadWriteSet(ns, out)]
  }

  lemma MarshalledCarries(nsRWS: seq<NsReadWriteSet>, ns: string, s: Sim)
    requires KeyedSim(s) && MarshalledFrom(nsRWS, ns, s)
    ensures |nsRWS| == 1 && nsRWS[0].ns == ns && Carries(nsRWS[0].rws, false, s)
  {
    var rws: ReadWriteSet, out: ReadWriteSet :|
      && ListsReads(rws.readSet, s.readMap) && ListsWrites(rws.writeSet, s.writeMap)
      && IsMarshalled(rws, out) && nsRWS == [NsReadWriteSet(ns, out)];
    MarshalledLists(rws, out, s);
    ResultCarries(out, false, s);
  }

  lemma EndorsedFIsFromExec(tx: Transaction, e: Exec, snap: seq<WriteRecord>)
    requires EndorsedF(tx, e, snap)
    ensures FromExec(tx, e, false, snap)
  {
    RunIsKeyed(e.prog, e.ns, false, ViewOf(e, snap), EmptySim, [], e.steps);
    MarshalledCarries(tx.nsRWS, e.ns, SimResult(e, false, snap).value.sim);
  }

  /** A Fabric run: increasing block numbers and positions, every transaction endorsed on
      some earlier state of this chain by a run that recorded all its fetches. */
  ghost predicate FabricRun(codes: map<Status, int>, run: seq<Cut>) {
    run == []
    || (var p, c := run[..|run| - 1], run[|run| - 1];
        && FabricRun(codes, p)
        && (forall d | d in p :: d.block.number < c.block.number)
        && TimeTravel.AscendingTxs(c.block.txs) && |c.block.txs| == |c.execs|
        && (forall i | 0 <= i < |c.execs| :: EndorsedFOn(codes, p, c.block.txs[i], c.execs[i])))
  }

  ghost predicate EndorsedFOn(codes: map<Status, int>, p: seq<Cut>, tx: Transaction, e: Exec) {
    && e.snapBlocks <= |p|
    && var snap := RowsAfter(false, codes, p[..e.snapBlocks]);
       EndorsedF(tx, e, snap) && AllRecorded(e, snap)
  }

  lemma {:induction false} FabricRunIsEndorsed(codes: map<Status, int>, run: seq<Cut>)
    requires FabricRun(codes, run)
    ensures EndorsedRun(false, codes, run)
  {
    if run != [] {
      var p, c := run[..|run| - 1], run[|run| - 1];
      FabricRunIsEndorsed(codes, p);
      forall i | 0 <= i < |c.execs| ensures EndorsedOn(false, codes, p, c.block.txs[i], c.execs[i]) {
        var e := c.execs[i];
        EndorsedFIsFromExec(c.block.txs[i], e, RowsAfter(false, codes, p[..e.snapBlocks]));
      }
    }
  }

  /** Fabric, end to end: simulate, list, marshal, parse, validate, apply, for any number of
      blocks of runs that met no tombstone and no failure; the table always holds the state a
      serial execution of the committed programs leaves. */
  lemma FabricSerializable(codes: map<Status, int>, run: seq<Cut>)
    requires FabricRun(codes, run)
    ensures SameWorld(RowsAfter(false, codes, run), WorldAfter(false, codes, run))
  {
    FabricRunIsEndorsed(codes, run);
    Serializable(false, codes, run);
  }
}
