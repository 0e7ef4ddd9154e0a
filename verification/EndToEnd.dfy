/** From envelopes to replicas: a ledger with its own store that is fed envelopes of simulated
    contract runs, among any others it drops, and the nodes that follow it, hold the state of a
    serial execution of the committed programs. */
module EndToEnd {
  import opened Types
  import opened WorldState
  import opened Mvcc
  import opened Parser
  import opened FabricCodec
  import opened FabricxCodec
  import opened Serializability
  import opened Pipeline
  import Ledger
  import OneByOne
  import Replication
  import Simulation
  import StatusCodes
  import TimeTravel

  // ------------------------------------------------------- the chain as a run

  /** The contract run behind envelope `j` of block `n`. */
  type Sims = (nat, nat) -> Exec

  /** The block as it was parsed before validation. */
  function Batch(p: Protocol, raw: RawBlock): Block {
    match ParseTxs(p, Ledger.Zeros(|raw.data|), raw.data)
    case Ok(ts) => Block(raw.header.number, ts)
    case Err => Block(raw.header.number, [])
  }

  function CutOf(p: Protocol, sims: Sims, raw: RawBlock): Cut {
    var b := Batch(p, raw);
    Cut(b, seq(|b.txs|, i requires 0 <= i < |b.txs| => sims(b.number, b.txs[i].number)))
  }

  /** The whole chain, genesis included. */
  function RunOf(p: Protocol, sims: Sims, bs: seq<RawBlock>): (run: seq<Cut>)
    ensures |run| == |bs|
  {
    if bs == [] then [] else RunOf(p, sims, bs[..|bs| - 1]) + [CutOf(p, sims, bs[|bs| - 1])]
  }

  lemma {:induction false} RunOfAt(p: Protocol, sims: Sims, bs: seq<RawBlock>, i: nat)
    requires i < |bs|
    ensures RunOf(p, sims, bs)[i] == CutOf(p, sims, bs[i])
  {
    if i < |bs| - 1 { RunOfAt(p, sims, bs[..|bs| - 1], i); }
  }

  lemma RunOfSnoc(p: Protocol, sims: Sims, bs: seq<RawBlock>, raw: RawBlock)
    ensures RunOf(p, sims, bs + [raw]) == RunOf(p, sims, bs) + [CutOf(p, sims, raw)]
  {
    assert (bs + [raw])[..|bs|] == bs;
  }

  // ----------------------------------------------------- the ledger's own store

  /** The rows the ledger's store holds are those of the abstract run of its chain. */
  ghost predicate StoreIsRun(net: Ledger.Net, sims: Sims, s: Ledger.State) {
    s.store.Some? && s.store.value.rows == RowsAfter(net.mono, net.codes, RunOf(net.proto, sims, s.blocks))
  }

  lemma RowsSnoc(mono: bool, codes: map<Status, int>, run: seq<Cut>, c: Cut)
    ensures RowsAfter(mono, codes, run + [c])
         == Serializability.Commit(RowsAfter(mono, codes, run), mono, codes, c.block)
  {
    assert (run + [c])[..|run|] == run;
  }

  lemma GenesisRows(net: Ledger.Net, sims: Sims)
    ensures RowsAfter(net.mono, net.codes, RunOf(net.proto, sims, [Ledger.Genesis(net)])) == []
  {
    var g := Ledger.Genesis(net);
    Ledger.GenesisParses(net);
    RunOfSnoc(net.proto, sims, [], g);
    assert [] + [g] == [g];
    RowsSnoc(net.mono, net.codes, [], CutOf(net.proto, sims, g));
    assert BlockWrites(0, []) == [];
  }

  /** Appending a cut block is committing its batch. */
  lemma CutCommits(net: Ledger.Net, t: Table, n: nat, prev: Bytes, envs: seq<Envelope>)
    requires Ledger.Cut(net, OneByOne.DbOf(t), n, prev, envs).Ok?
    ensures var (raw, b) := Ledger.Cut(net, OneByOne.DbOf(t), n, prev, envs).value;
            var r := InsertAll(t, BlockWrites(b.number, b.txs));
            && raw.data == envs && raw.header.number == n
            && Serializability.Commit(t, net.mono, net.codes, Batch(net.proto, raw)) == if r.Ok? then r.value else t
  {
  }

  lemma ProcessKeepsRun(net: Ledger.Net, sims: Sims, s: Ledger.State, envs: seq<Envelope>, ext: Getter, sqlFails: bool)
    requires s.blocks != [] && StoreIsRun(net, sims, s) && Ledger.Processed(net, s, envs, ext, sqlFails).Ok?
    ensures StoreIsRun(net, sims, Ledger.Processed(net, s, envs, ext, sqlFails).value)
  {
    var t := s.store.value.rows;
    var prev := net.headerHash(s.blocks[|s.blocks| - 1].header);
    var (raw, b) := Ledger.Cut(net, OneByOne.DbOf(t), |s.blocks|, prev, envs).value;
    CutCommits(net, t, |s.blocks|, prev, envs);
    RunOfSnoc(net.proto, sims, s.blocks, raw);
    RowsSnoc(net.mono, net.codes, RunOf(net.proto, sims, s.blocks), CutOf(net.proto, sims, raw));
  }

  /** After every event sequence a ledger with its own store holds the rows of the abstract
      validate-and-apply run of its chain. */
  lemma {:induction false} LedgerRows(net: Ledger.Net, sims: Sims, evs: seq<Ledger.Event>)
    ensures StoreIsRun(net, sims, Ledger.RunLedger(net, true, evs))
  {
    if evs == [] {
      GenesisRows(net, sims);
    } else {
      var s, e := Ledger.RunLedger(net, true, evs[..|evs| - 1]), evs[|evs| - 1];
      LedgerRows(net, sims, evs[..|evs| - 1]);
      if e.ProcessEvent? && Ledger.Processed(net, s, e.envs, e.ext, e.sqlFails).Ok? {
        ProcessKeepsRun(net, sims, s, e.envs, e.ext, e.sqlFails);
      }
    }
  }

  // ------------------------------------------------- envelopes of simulated runs

  /** The envelope was endorsed for the run `e`, simulated on some earlier state of the chain
      `p`: its body is the message an endorser builds, or marshals, from the simulation's
      result.  Fetches did not fail and, on Fabric, met no tombstone. */
  ghost predicate EnvelopeOf(kind: Kind, codes: map<Status, int>, p: seq<Cut>, env: Envelope, e: Exec) {
    && e.snapBlocks <= |p|
    && match kind
       case FabricX =>
         var snap := RowsAfter(true, codes, p[..e.snapBlocks]);
         && SimResult(e, true, snap).Some? && NoFailureSeen(e, snap)
         && env.MessageTx? && env.fabricxBody.Some?
         && Encodes(SimResult(e, true, snap).value.sim, e.ns, env.fabricxBody.value)
       case Fabric =>
         var snap := RowsAfter(false, codes, p[..e.snapBlocks]);
         && SimResult(e, false, snap).Some? && AllRecorded(e, snap)
         && env.EndorserTx? && env.fabricBody.Some?
         && Marshals(SimResult(e, false, snap).value.sim, e.ns, env.fabricBody.value)
  }

  ghost predicate Encodes(s: Simulation.Sim, ns: string, pb: PbTx) {
    exists rws: ReadWriteSet, nsVersion: nat, metadata: seq<Bytes> :: EncodesSim(s, ns, rws, pb, nsVersion, metadata)
  }

  ghost predicate Marshals(s: Simulation.Sim, ns: string, body: seq<FabricNs>) {
    && ns != ""
    && exists rws: ReadWriteSet, out: ReadWriteSet ::
         && Simulation.ListsReads(rws.readSet, s.readMap) && Simulation.ListsWrites(rws.writeSet, s.writeMap)
         && IsMarshalled(rws, out) && body == [FabricNs(ns, Some(out))]
  }

  /** Every envelope of the block that is a transaction comes from its simulated run; the
      others may be anything. */
  ghost predicate BlockSimulated(net: Ledger.Net, sims: Sims, p: seq<Cut>, raw: RawBlock) {
    forall j | 0 <= j < |raw.data| && TxOf(net.proto, raw.data[j]).GotTx? ::
      EnvelopeOf(net.proto.kind, net.codes, p, raw.data[j], sims(raw.header.number, j))
  }

  ghost predicate Simulated(net: Ledger.Net, sims: Sims, bs: seq<RawBlock>) {
    forall n | 0 <= n < |bs| :: BlockSimulated(net, sims, RunOf(net.proto, sims, bs[..n]), bs[n])
  }

  ghost predicate Numbered(bs: seq<RawBlock>) { forall i | 0 <= i < |bs| :: bs[i].header.number == i }

  lemma SimulatedLast(net: Ledger.Net, sims: Sims, bs: seq<RawBlock>)
    requires Simulated(net, sims, bs) && bs != []
    ensures Simulated(net, sims, bs[..|bs| - 1])
    ensures BlockSimulated(net, sims, RunOf(net.proto, sims, bs[..|bs| - 1]), bs[|bs| - 1])
  {
    var p := bs[..|bs| - 1];
    forall n | 0 <= n < |p| ensures BlockSimulated(net, sims, RunOf(net.proto, sims, p[..n]), p[n]) {
      assert p[..n] == bs[..n];
    }
  }

  lemma EarlierNumbers(p: Protocol, sims: Sims, bs: seq<RawBlock>)
    requires Numbered(bs)
    ensures forall d | d in RunOf(p, sims, bs) :: d.block.number < |bs|
  {
    forall d | d in RunOf(p, sims, bs) ensures d.block.number < |bs| {
      var i :| 0 <= i < |bs| && RunOf(p, sims, bs)[i] == d;
      RunOfAt(p, sims, bs, i);
    }
  }

  /** Each parsed transaction of the block is endorsed for the run behind its envelope. */
  lemma BatchEndorsed(net: Ledger.Net, sims: Sims, p: seq<Cut>, raw: RawBlock, i: nat)
    requires BlockSimulated(net, sims, p, raw) && i < |Batch(net.proto, raw).txs|
    ensures var c := CutOf(net.proto, sims, raw);
            match net.proto.kind
            case FabricX => EndorsedXOn(net.codes, p, c.block.txs[i], c.execs[i])
            case Fabric => EndorsedFOn(net.codes, p, c.block.txs[i], c.execs[i])
  {
    var tx := Batch(net.proto, raw).txs[i];
    ParsedFrom(net.proto, Ledger.Zeros(|raw.data|), raw.data);
    assert tx in Batch(net.proto, raw).txs;
    TransactionOf(net, p, raw.data[tx.number], sims(raw.header.number, tx.number), tx);
  }

  lemma TransactionOf(net: Ledger.Net, p: seq<Cut>, env: Envelope, e: Exec, tx: Transaction)
    requires EnvelopeOf(net.proto.kind, net.codes, p, env, e) && TxOf(net.proto, env) == GotTx(tx.id, tx.nsRWS)
    ensures match net.proto.kind
            case FabricX => EndorsedXOn(net.codes, p, tx, e)
            case Fabric => EndorsedFOn(net.codes, p, tx, e)
  {
    match net.proto.kind
    case FabricX =>
      EncodedBody(tx.nsRWS, e.ns, SimResult(e, true, RowsAfter(true, net.codes, p[..e.snapBlocks])).value.sim,
                  env.fabricxBody.value);
    case Fabric =>
      MarshalledBody(tx.nsRWS, e.ns, SimResult(e, false, RowsAfter(false, net.codes, p[..e.snapBlocks])).value.sim,
                     env.fabricBody.value);
  }

  lemma EncodedBody(nsRWS: seq<NsReadWriteSet>, ns: string, s: Simulation.Sim, pb: PbTx)
    requires Encodes(s, ns, pb) && nsRWS == Decoded(pb.namespaces)
    ensures EncodedFrom(nsRWS, ns, s)
  {
    var rws: ReadWriteSet, nsVersion: nat, metadata: seq<Bytes> :| EncodesSim(s, ns, rws, pb, nsVersion, metadata);
  }

  lemma MarshalledBody(nsRWS: seq<NsReadWriteSet>, ns: string, s: Simulation.Sim, body: seq<FabricNs>)
    requires Marshals(s, ns, body) && FabricSets(body) == Some(nsRWS)
    ensures MarshalledFrom(nsRWS, ns, s)
  {
    var rws: ReadWriteSet, out: ReadWriteSet :|
      && Simulation.ListsReads(rws.readSet, s.readMap) && Simulation.ListsWrites(rws.writeSet, s.writeMap)
      && IsMarshalled(rws, out) && body == [FabricNs(ns, Some(out))];
    assert body[..0] == [] && nsRWS == [NsReadWriteSet(ns, out)];
  }

  lemma {:induction false} ChainIsFabricxRun(net: Ledger.Net, sims: Sims, bs: seq<RawBlock>)
    requires net.proto.kind.FabricX? && Numbered(bs) && Simulated(net, sims, bs)
    ensures FabricxRun(net.codes, RunOf(net.proto, sims, bs))
  {
    if bs != [] {
      var q, raw := bs[..|bs| - 1], bs[|bs| - 1];
      SimulatedLast(net, sims, bs);
      ChainIsFabricxRun(net, sims, q);
      EarlierNumbers(net.proto, sims, q);
      BatchAscends(net.proto, raw);
      var p, c := RunOf(net.proto, sims, q), CutOf(net.proto, sims, raw);
      forall i | 0 <= i < |c.execs| ensures EndorsedXOn(net.codes, p, c.block.txs[i], c.execs[i]) {
        BatchEndorsed(net, sims, p, raw, i);
      }
      assert (p + [c])[..|p|] == p;
    }
  }

  lemma {:induction false} ChainIsFabricRun(net: Ledger.Net, sims: Sims, bs: seq<RawBlock>)
    requires net.proto.kind.Fabric? && Numbered(bs) && Simulated(net, sims, bs)
    ensures FabricRun(net.codes, RunOf(net.proto, sims, bs))
  {
    if bs != [] {
      var q, raw := bs[..|bs| - 1], bs[|bs| - 1];
      SimulatedLast(net, sims, bs);
      ChainIsFabricRun(net, sims, q);
      EarlierNumbers(net.proto, sims, q);
      BatchAscends(net.proto, raw);
      var p, c := RunOf(net.proto, sims, q), CutOf(net.proto, sims, raw);
      forall i | 0 <= i < |c.execs| ensures EndorsedFOn(net.codes, p, c.block.txs[i], c.execs[i]) {
        BatchEndorsed(net, sims, p, raw, i);
      }
      assert (p + [c])[..|p|] == p;
    }
  }

  lemma BatchAscends(p: Protocol, raw: RawBlock)
    ensures TimeTravel.AscendingTxs(Batch(p, raw).txs) && Batch(p, raw).number == raw.header.number
  {
    if ParseTxs(p, Ledger.Zeros(|raw.data|), raw.data).Ok? { ParsePositions(p, Ledger.Zeros(|raw.data|), raw.data); }
  }

  // ------------------------------------------------------------- the main results

  /** Fabric-X networks validate monotonic versions, Fabric ones block and transaction. */
  predicate ModeFits(net: Ledger.Net) { net.mono == net.proto.kind.FabricX? }

  /** The ledger's own store holds the serial state. */
  lemma LedgerIsSerial(net: Ledger.Net, sims: Sims, evs: seq<Ledger.Event>)
    requires StatusCodes.Reversible(net.proto.forward, net.codes) && ModeFits(net)
    requires Simulated(net, sims, Ledger.RunLedger(net, true, evs).blocks)
    ensures var l := Ledger.RunLedger(net, true, evs);
            && l.store.Some?
            && SameWorld(l.store.value.rows, WorldAfter(net.mono, net.codes, RunOf(net.proto, sims, l.blocks)))
  {
    var bs := Ledger.RunLedger(net, true, evs).blocks;
    LedgerRows(net, sims, evs);
    Ledger.LedgerInvariant(net, true, evs);
    match net.proto.kind
    case FabricX =>
      ChainIsFabricxRun(net, sims, bs);
      FabricxSerializable(net.codes, RunOf(net.proto, sims, bs));
    case Fabric =>
      ChainIsFabricRun(net, sims, bs);
      FabricSerializable(net.codes, RunOf(net.proto, sims, bs));
  }

  /** ... and so does every node that has caught up with it, by whatever route. */
  lemma CaughtUpNodeIsSerial(net: Ledger.Net, sims: Sims, evs: seq<Ledger.Event>, count: nat, storeAt: nat,
                             steps: seq<Replication.Step>)
    requires StatusCodes.Reversible(net.proto.forward, net.codes) && ModeFits(net) && storeAt < count
    requires Simulated(net, sims, Ledger.RunLedger(net, true, evs).blocks)
    requires var n := Replication.RunSync(net.proto, count, storeAt, steps);
             && n.chain == Ledger.RunLedger(net, true, evs).blocks
             && Replication.Applied(n.handlers.store) == |n.chain|
    ensures var n := Replication.RunSync(net.proto, count, storeAt, steps);
            SameWorld(n.handlers.store.rows, WorldAfter(net.mono, net.codes, RunOf(net.proto, sims, n.chain)))
  {
    LedgerIsSerial(net, sims, evs);
    Replication.CaughtUpNodeAgrees(net, evs, count, storeAt, steps);
  }
}
