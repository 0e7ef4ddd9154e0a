/** The hash-linked ledger of fabrictest/ledger.go: it parses and validates each batch,
    writes the verdicts into the block's filter, applies the block to its own world state if
    it has one, and appends it. */
module Ledger {
  import opened Types
  import opened WorldState
  import opened Mvcc
  import opened StatusCodes
  import opened Parser
  import opened OneByOne
  import opened VersionedDb
  import TimeTravel

  /** A network: ledger type, validator configuration and the (uninterpreted) hashes. */
  datatype Net = Net(
    proto: Protocol, mono: bool, codes: map<Status, int>,
    headerHash: Header -> Bytes, dataHash: seq<Envelope> -> Bytes, genesisConfig: Bytes)

  datatype State = State(blocks: seq<RawBlock>, store: Option<Store>)

  function Zeros(n: nat): (f: seq<byte>)
    ensures |f| == n
  {
    seq(n, _ => 0 as byte)
  }

  function MakeBlock(net: Net, n: nat, prev: Bytes, envs: seq<Envelope>): RawBlock {
    RawBlock(Header(n, prev, net.dataHash(envs)), envs, Some(Zeros(|envs|)))
  }

  /** Block 0: a single CONFIG envelope, chained onto nothing. */
  function Genesis(net: Net): RawBlock { MakeBlock(net, 0, [], [ConfigEnvelope(Some(net.genesisConfig))]) }

  ghost predicate Fits(filter: seq<byte>, done: seq<Transaction>) {
    forall t | t in done :: t.number < |filter| && 0 <= t.rawCode < 256
  }

  /** Each code goes to its transaction's position in the block. */
  ghost function Scatter(filter: seq<byte>, done: seq<Transaction>): (f: seq<byte>)
    requires Fits(filter, done)
    ensures |f| == |filter|
  {
    if done == [] then filter
    else
      var t := done[|done| - 1];
      Scatter(filter, done[..|done| - 1])[t.number := t.rawCode as byte]
  }

  // ------------------------------------------------------------ specification

  /** The block as committed: parsed, validated against `db`, verdicts filled in. */
  ghost function Cut(net: Net, db: Getter, n: nat, prev: Bytes, envs: seq<Envelope>): Result<(RawBlock, Block)> {
    var raw := MakeBlock(net, n, prev, envs);
    match Parsed(net.proto, raw)
    case Err => Err
    case Ok(b) =>
      var o := Validated(db, net.mono, net.codes, b.txs);
      if !o.fault.NoFault? then Err
      else
        assert Fits(raw.filter.value, o.done) by { DoneFits(net, db, raw, b); }
        Ok((raw.(filter := Some(Scatter(raw.filter.value, o.done))), Block(n, o.done)))
  }

  lemma DoneFits(net: Net, db: Getter, raw: RawBlock, b: Block)
    requires raw.filter.Some? && |raw.filter.value| == |raw.data| && Parsed(net.proto, raw) == Ok(b)
    ensures Fits(raw.filter.value, Validated(db, net.mono, net.codes, b.txs).done)
  {
    ParsePositions(net.proto, raw.filter.value, raw.data);
    var done := Validated(db, net.mono, net.codes, b.txs).done;
    forall t | t in done ensures t.number < |raw.data| {
      var i :| 0 <= i < |done| && done[i] == t;
      ValidatedAt(db, net.mono, net.codes, b.txs, i);
      assert b.txs[i] in b.txs;
    }
  }

  /** `ext` is the external world state a ledger without its own validates against;
      `sqlFails` an error of the database. */
  ghost function Processed(net: Net, s: State, envs: seq<Envelope>, ext: Getter, sqlFails: bool): Result<State>
    requires s.blocks != []
  {
    var prev := net.headerHash(s.blocks[|s.blocks| - 1].header);
    var db := if s.store.Some? then DbOf(s.store.value.rows) else ext;
    match Cut(net, db, |s.blocks|, prev, envs)
    case Err => Err
    case Ok((raw, b)) => Appended(s, raw, b, sqlFails)
  }

  lemma ProcessedIs(net: Net, s: State, envs: seq<Envelope>, ext: Getter, sqlFails: bool,
                    cut: Result<(RawBlock, Block)>)
    requires s.blocks != []
    requires cut == Cut(net, if s.store.Some? then DbOf(s.store.value.rows) else ext, |s.blocks|,
                        net.headerHash(s.blocks[|s.blocks| - 1].header), envs)
    ensures Processed(net, s, envs, ext, sqlFails)
         == if cut.Err? then Err else Appended(s, cut.value.0, cut.value.1, sqlFails)
  {
  }

  /** Own world state first, then the chain. */
  function Appended(s: State, raw: RawBlock, b: Block, sqlFails: bool): Result<State> {
    if s.store.None? then Ok(State(s.blocks + [raw], None))
    else if sqlFails then Err
    else
      match Update(s.store.value, b)
      case Err => Err
      case Ok(st) => Ok(State(s.blocks + [raw], Some(st)))
  }

  function Truncated(s: State, num: nat): Result<State> {
    if s.store.Some? || num >= |s.blocks| then Err else Ok(State(s.blocks[..num + 1], None))
  }

  // ------------------------------------------------------------------ the object

  method ScatterCodes(filter: seq<byte>, txs: seq<Transaction>, codes: seq<byte>) returns (out: seq<byte>)
    requires Fits(filter, txs) && |codes| == |txs| && forall i | 0 <= i < |txs| :: codes[i] as int == txs[i].rawCode
    ensures out == Scatter(filter, txs)
  {
    out := filter;
    for i := 0 to |txs|
      invariant Fits(filter, txs[..i]) && out == Scatter(filter, txs[..i])
    {
      assert txs[..i + 1][..i] == txs[..i];
      out := out[txs[i].number := codes[i]];
    }
    assert txs[..|txs|] == txs;
  }

  class Ledger {
    const net: Net
    const db: VersionedDB?
    const validator: MVCCValidator
    var blocks: seq<RawBlock>

    ghost predicate Valid()
      reads this
    {
      blocks != [] && validator.monotonicVersions == net.mono && validator.codes == net.codes
    }

    ghost function Contents(): State
      reads this, db
    {
      State(blocks, if db == null then None else Some(db.Contents()))
    }

    constructor (net: Net, db: VersionedDB?)
      ensures Valid() && this.net == net && this.db == db && fresh(validator)
      ensures blocks == [Genesis(net)]
    {
      this.net, this.db := net, db;
      validator := new MVCCValidator(net.mono, net.codes);
      blocks := [Genesis(net)];
    }

    method Process(envs: seq<Envelope>, ext: Getter, sqlFails: bool) returns (ok: bool)
      requires Valid()
      modifies this, validator, db
      ensures Valid()
      ensures var r := Processed(net, old(Contents()), envs, ext, sqlFails);
              ok == r.Ok? && Contents() == if ok then r.value else old(Contents())
    {
      var blockNum, prevHash := Next();
      var getter := if db == null then ext else DbOf(db.rows);
      var cut := CutBlock(getter, blockNum, prevHash, envs);
      ProcessedIs(net, Contents(), envs, ext, sqlFails, cut);
      if cut.Err? { return false; }
      ok := Commit(cut.value.1, cut.value.0, sqlFails);
    }

    /** Parse, validate and fill in the block's filter. */
    method CutBlock(getter: Getter, blockNum: nat, prevHash: Bytes, envs: seq<Envelope>)
      returns (r: Result<(RawBlock, Block)>)
      requires Valid()
      modifies validator
      ensures r == Cut(net, getter, blockNum, prevHash, envs)
    {
      var fbl := MakeBlock(net, blockNum, prevHash, envs);
      var bl := Parse(net.proto, fbl);
      if bl.Err? { return Err; }
      var txs, txFilter, fault := ValidateTxs(getter, bl.value.txs);
      if !fault.NoFault? { return Err; }
      DoneFits(net, getter, fbl, bl.value);
      var blockFilter := ScatterCodes(fbl.filter.value, txs, txFilter);
      return Ok((fbl.(filter := Some(blockFilter)), Block(blockNum, txs)));
    }

    /** The validator updates the parsed transactions in place. */
    method ValidateTxs(getter: Getter, parsed: seq<Transaction>)
      returns (txs: seq<Transaction>, txFilter: seq<byte>, fault: Fault)
      requires Valid()
      modifies validator
      ensures var o := Validated(getter, net.mono, net.codes, parsed);
              && fault == o.fault
              && (fault.NoFault? ==>
                    && txs == o.done && |txFilter| == |txs|
                    && forall i | 0 <= i < |txs| :: txFilter[i] as int == txs[i].rawCode)
    {
      var a := new Transaction[|parsed|](i requires 0 <= i < |parsed| => parsed[i]);
      assert a[..] == parsed;
      txFilter, fault := validator.Validate(getter, a);
      txs := a[..];
    }

    /** Own world state first, then the chain: a failed update leaves both as they were. */
    method Commit(bl: Block, fbl: RawBlock, sqlFails: bool) returns (ok: bool)
      requires Valid()
      modifies this, db
      ensures Valid()
      ensures var r := Appended(old(Contents()), fbl, bl, sqlFails);
              ok == r.Ok? && Contents() == if ok then r.value else old(Contents())
    {
      if db != null {
        var updated := db.UpdateWorldState(bl, sqlFails);
        if !updated { return false; }
      }
      blocks := blocks + [fbl];
      return true;
    }

    method Truncate(num: nat) returns (ok: bool)
      requires Valid()
      modifies this
      ensures Valid()
      ensures var r := Truncated(old(Contents()), num);
              ok == r.Ok? && Contents() == if ok then r.value else old(Contents())
    {
      if db != null || num >= |blocks| { return false; }
      blocks := blocks[..num + 1];
      return true;
    }

    /** The number the next block takes and the header hash it chains onto. */
    method Next() returns (n: nat, prev: Bytes)
      requires Valid()
      ensures n == |blocks| && prev == net.headerHash(blocks[n - 1].header)
    {
      n, prev := |blocks|, net.headerHash(blocks[|blocks| - 1].header);
    }
  }

  // ------------------------------------------------------- what the operations do

  /** The transactions of a batch of envelopes, before validation. */
  function BatchTxs(net: Net, envs: seq<Envelope>): seq<Transaction> {
    match ParseTxs(net.proto, Zeros(|envs|), envs) case Ok(ts) => ts case Err => []
  }

  /** The state a ledger validates against: its own store, or the external one. */
  function ValidatesOn(s: State, ext: Getter): Getter { if s.store.Some? then DbOf(s.store.value.rows) else ext }

  /** Processing succeeds exactly when the batch parses, no validation fault stops it, and the
      own store, if there is one, takes the writes. */
  lemma ProcessSucceedsIff(net: Net, s: State, envs: seq<Envelope>, ext: Getter, sqlFails: bool)
    requires s.blocks != []
    ensures var o := Validated(ValidatesOn(s, ext), net.mono, net.codes, BatchTxs(net, envs));
            Processed(net, s, envs, ext, sqlFails).Ok?
            <==> (&& ConfigEnvelope(None) !in envs && o.fault.NoFault?
                  && (s.store.Some? ==>
                        !sqlFails && InsertAll(s.store.value.rows, BlockWrites(|s.blocks|, o.done)).Ok?))
  {
    ParseTxsFailsIff(net.proto, Zeros(|envs|), envs);
  }

  /** Then the chain is one block longer, with or without an own store: the envelopes as they
      came, the next number, both hashes; and parsing it anywhere gives the verdicts reached
      against the state the ledger validates on. */
  lemma ProcessExtends(net: Net, s: State, envs: seq<Envelope>, ext: Getter, sqlFails: bool)
    requires s.blocks != [] && Reversible(net.proto.forward, net.codes) && Processed(net, s, envs, ext, sqlFails).Ok?
    ensures var t := Processed(net, s, envs, ext, sqlFails).value;
            var tip := t.blocks[|t.blocks| - 1];
            && |t.blocks| == |s.blocks| + 1 && s.blocks <= t.blocks && (t.store.Some? <==> s.store.Some?)
            && tip.data == envs
            && tip.header == Header(|s.blocks|, net.headerHash(s.blocks[|s.blocks| - 1].header), net.dataHash(envs))
            && Parsed(net.proto, tip)
               == Ok(Block(|s.blocks|, Validated(ValidatesOn(s, ext), net.mono, net.codes, BatchTxs(net, envs)).done))
  {
    ReparseIsValidated(net, ValidatesOn(s, ext), |s.blocks|, net.headerHash(s.blocks[|s.blocks| - 1].header), envs);
  }

  /** Truncation is for ledgers without an own store and numbers on the chain, and leaves
      exactly the blocks 0 to num. */
  lemma TruncateMeans(s: State, num: nat)
    ensures Truncated(s, num).Ok? <==> s.store.None? && num < |s.blocks|
    ensures Truncated(s, num).Ok? ==>
              var t := Truncated(s, num).value; |t.blocks| == num + 1 && t.blocks <= s.blocks && t.store.None?
  {
  }

  /** Block 0 chains onto nothing and holds one CONFIG envelope. */
  lemma GenesisMeans(net: Net)
    ensures var g := Genesis(net);
            && g.header.number == 0 && g.header.previousHash == []
            && g.data == [ConfigEnvelope(Some(net.genesisConfig))] && g.header.dataHash == net.dataHash(g.data)
            && g.filter == Some([0])
  {
    assert Zeros(1) == [0];
  }

  /** Positions without a transaction keep the byte they had. */
  lemma {:induction false} ScatterElsewhere(filter: seq<byte>, done: seq<Transaction>, n: nat)
    requires Fits(filter, done) && n < |filter| && forall t | t in done :: t.number != n
    ensures Scatter(filter, done)[n] == filter[n]
  {
    if done != [] { ScatterElsewhere(filter, done[..|done| - 1], n); }
  }

  // --------------------------------------------------- re-parsing a committed block

  lemma {:induction false} ScatterAt(filter: seq<byte>, done: seq<Transaction>, i: nat)
    requires Fits(filter, done) && TimeTravel.AscendingTxs(done) && i < |done|
    ensures Scatter(filter, done)[done[i].number] as int == done[i].rawCode
  {
    if i < |done| - 1 { ScatterAt(filter, done[..|done| - 1], i); }
  }

  /** Parsing the committed block anywhere yields exactly the transactions, positions and
      verdicts the ledger computed, whatever malformed, CONFIG or foreign envelopes lie between. */
  lemma ReparseIsValidated(net: Net, db: Getter, n: nat, prev: Bytes, envs: seq<Envelope>)
    requires Reversible(net.proto.forward, net.codes) && Cut(net, db, n, prev, envs).Ok?
    ensures var (raw, b) := Cut(net, db, n, prev, envs).value; Parsed(net.proto, raw) == Ok(b)
  {
    var zero := Zeros(|envs|);
    var (raw, b) := Cut(net, db, n, prev, envs).value;
    var f := raw.filter.value;
    var unvalidated := MakeBlock(net, n, prev, envs);
    DoneFits(net, db, unvalidated, Parsed(net.proto, unvalidated).value);
    FilterOnlyStatuses(net.proto, zero, f, envs);
    var again := ParseTxs(net.proto, f, envs).value;
    forall i | 0 <= i < |again| ensures again[i] == b.txs[i] {
      ReparsedTx(net, db, envs, i);
    }
    assert again == b.txs;
  }

  lemma DoneAscends(net: Net, db: Getter, txs: seq<Transaction>)
    requires TimeTravel.AscendingTxs(txs)
    ensures TimeTravel.AscendingTxs(Validated(db, net.mono, net.codes, txs).done)
  {
    var done := Validated(db, net.mono, net.codes, txs).done;
    forall i, j | 0 <= i < j < |done| ensures done[i].number < done[j].number {
      ValidatedAt(db, net.mono, net.codes, txs, i);
      ValidatedAt(db, net.mono, net.codes, txs, j);
    }
  }

  /** One transaction: its code sits at its position, and decodes to its verdict. */
  lemma ReparsedTx(net: Net, db: Getter, envs: seq<Envelope>, i: nat)
    requires Reversible(net.proto.forward, net.codes) && ParseTxs(net.proto, Zeros(|envs|), envs).Ok?
    requires var parsed := ParseTxs(net.proto, Zeros(|envs|), envs).value;
             && i < |parsed| && Validated(db, net.mono, net.codes, parsed).fault.NoFault?
             && Fits(Zeros(|envs|), Validated(db, net.mono, net.codes, parsed).done)
    ensures var parsed := ParseTxs(net.proto, Zeros(|envs|), envs).value;
            var done := Validated(db, net.mono, net.codes, parsed).done;
            var again := ParseTxs(net.proto, Scatter(Zeros(|envs|), done), envs);
            again.Ok? && i < |again.value| && again.value[i] == done[i]
  {
    var zero := Zeros(|envs|);
    var parsed := ParseTxs(net.proto, zero, envs).value;
    var done := Validated(db, net.mono, net.codes, parsed).done;
    var f := Scatter(zero, done);
    FilterOnlyStatuses(net.proto, zero, f, envs);
    var again := ParseTxs(net.proto, f, envs).value;
    ParsePositions(net.proto, zero, envs);
    DoneAscends(net, db, parsed);
    ValidatedAt(db, net.mono, net.codes, parsed, i);
    NotUnknown(db, net, parsed, i);
    ScatterAt(zero, done, i);
    StatusAt(net.proto, f, envs, i);
  }

  lemma StatusAt(p: Protocol, f: seq<byte>, envs: seq<Envelope>, i: nat)
    requires ParseTxs(p, f, envs).Ok? && i < |ParseTxs(p, f, envs).value|
    ensures var t := ParseTxs(p, f, envs).value[i];
            t.number < |envs| && (t.status, t.rawCode) == StatusForTx(p, f, t.number)
  {
    ParsePositions(p, f, envs);
    assert ParseTxs(p, f, envs).value[i] in ParseTxs(p, f, envs).value;
  }

  lemma NotUnknown(db: Getter, net: Net, txs: seq<Transaction>, i: nat)
    requires Validated(db, net.mono, net.codes, txs).fault.NoFault? && i < |txs|
    ensures var s := Validated(db, net.mono, net.codes, txs).done[i].status; s == Committed || s == MVCCConflict
  {
    ValidateNotUnknown({}, db, net, txs, i);
  }

  lemma {:induction false} ValidateNotUnknown(pending: set<string>, db: Getter, net: Net, txs: seq<Transaction>, i: nat)
    requires ValidateFrom(pending, db, net.mono, net.codes, txs).fault.NoFault? && i < |txs|
    ensures var s := ValidateFrom(pending, db, net.mono, net.codes, txs).done[i].status;
            s == Committed || s == MVCCConflict
    decreases i
  {
    if i > 0 {
      var tx := ValidateFrom(pending, db, net.mono, net.codes, txs).done[0];
      ValidateNotUnknown(AfterFirst(pending, tx), db, net, txs[1..], i - 1);
    }
  }

  // ------------------------------------------------------------------ whole runs

  datatype Event =
    | ProcessEvent(envs: seq<Envelope>, ext: Getter, sqlFails: bool)
    | TruncateEvent(num: nat)

  ghost function StepLedger(net: Net, s: State, e: Event): State
    requires s.blocks != []
  {
    var r := match e
      case ProcessEvent(envs, ext, sqlFails) => Processed(net, s, envs, ext, sqlFails)
      case TruncateEvent(num) => Truncated(s, num);
    if r.Ok? then r.value else s
  }

  ghost function RunLedger(net: Net, owns: bool, evs: seq<Event>): (s: State)
    ensures s.blocks != []
  {
    if evs == [] then State([Genesis(net)], if owns then Some(EmptyStore) else None)
    else StepLedger(net, RunLedger(net, owns, evs[..|evs| - 1]), evs[|evs| - 1])
  }

  /** The block another node gets from parsing; a block that fails to parse counts as empty. */
  function Reparsed(net: Net, b: RawBlock): Block {
    match Parsed(net.proto, b) case Ok(x) => x case Err => Block(b.header.number, [])
  }

  function ReparsedAll(net: Net, bs: seq<RawBlock>): (out: seq<Block>)
    ensures |out| == |bs|
  {
    if bs == [] then [] else ReparsedAll(net, bs[..|bs| - 1]) + [Reparsed(net, bs[|bs| - 1])]
  }

  /** A store fed with blocks in order. */
  function Fold(bs: seq<Block>): Result<Store> {
    if bs == [] then Ok(EmptyStore)
    else
      match Fold(bs[..|bs| - 1])
      case Err => Err
      case Ok(s) => Update(s, bs[|bs| - 1])
  }

  ghost predicate ChainInv(net: Net, bs: seq<RawBlock>) {
    && bs != [] && bs[0] == Genesis(net)
    && (forall i | 0 <= i < |bs| ::
          && bs[i].header.number == i && bs[i].header.dataHash == net.dataHash(bs[i].data)
          && Parsed(net.proto, bs[i]).Ok?)
    && (forall i | 0 < i < |bs| :: bs[i].header.previousHash == net.headerHash(bs[i - 1].header))
  }

  ghost predicate LedgerInv(net: Net, s: State) {
    && ChainInv(net, s.blocks)
    && (s.store.Some? ==> Fold(ReparsedAll(net, s.blocks[1..])) == Ok(s.store.value))
  }

  lemma StepKeepsLedger(net: Net, s: State, e: Event)
    requires Reversible(net.proto.forward, net.codes) && LedgerInv(net, s)
    ensures LedgerInv(net, StepLedger(net, s, e))
  {
    if e.ProcessEvent? && Processed(net, s, e.envs, e.ext, e.sqlFails).Ok? {
      var prev := net.headerHash(s.blocks[|s.blocks| - 1].header);
      var db := if s.store.Some? then DbOf(s.store.value.rows) else e.ext;
      var cut := Cut(net, db, |s.blocks|, prev, e.envs);
      ProcessedIs(net, s, e.envs, e.ext, e.sqlFails, cut);
      assert Parsed(net.proto, cut.value.0) == Ok(cut.value.1) by {
        ReparseIsValidated(net, db, |s.blocks|, prev, e.envs);
      }
      AppendKeepsLedger(net, s, cut.value.0, cut.value.1, e.sqlFails);
    }
  }

  lemma AppendKeepsLedger(net: Net, s: State, raw: RawBlock, b: Block, sqlFails: bool)
    requires LedgerInv(net, s) && Parsed(net.proto, raw) == Ok(b) && Appended(s, raw, b, sqlFails).Ok?
    requires raw.header == Header(|s.blocks|, net.headerHash(s.blocks[|s.blocks| - 1].header), net.dataHash(raw.data))
    ensures LedgerInv(net, Appended(s, raw, b, sqlFails).value)
  {
    FoldSnoc(net, s.blocks, raw, b);
    LinksNext(net, s.blocks, raw);
  }

  lemma LinksNext(net: Net, bs: seq<RawBlock>, raw: RawBlock)
    requires ChainInv(net, bs) && Parsed(net.proto, raw).Ok?
    requires raw.header == Header(|bs|, net.headerHash(bs[|bs| - 1].header), net.dataHash(raw.data))
    ensures ChainInv(net, bs + [raw])
  {
  }

  lemma FoldSnoc(net: Net, bs: seq<RawBlock>, raw: RawBlock, b: Block)
    requires bs != [] && Reparsed(net, raw) == b
    ensures Fold(ReparsedAll(net, (bs + [raw])[1..]))
         == match Fold(ReparsedAll(net, bs[1..])) case Err => Err case Ok(s) => Update(s, b)
  {
    var more := bs[1..] + [raw];
    assert (bs + [raw])[1..] == more && more[..|more| - 1] == bs[1..];
    var parsed := ReparsedAll(net, bs[1..]);
    assert (parsed + [b])[..|parsed|] == parsed;
  }

  /** After any mix of process, cut and truncate steps, failures included, the chain is
      linked from genesis and the ledger's own store is the fold of the parsed chain. */
  lemma {:induction false} LedgerInvariant(net: Net, owns: bool, evs: seq<Event>)
    requires Reversible(net.proto.forward, net.codes)
    ensures LedgerInv(net, RunLedger(net, owns, evs))
    ensures RunLedger(net, owns, evs).store.Some? <==> owns
  {
    if evs == [] {
      GenesisParses(net);
    } else {
      LedgerInvariant(net, owns, evs[..|evs| - 1]);
      StepKeepsLedger(net, RunLedger(net, owns, evs[..|evs| - 1]), evs[|evs| - 1]);
    }
  }

  lemma GenesisParses(net: Net)
    ensures Parsed(net.proto, Genesis(net)) == Ok(Block(0, []))
  {
    var data := [ConfigEnvelope(Some(net.genesisConfig))];
    assert data[..0] == [];
    assert ParseTxs(net.proto, Zeros(1), data) == Ok([]);
  }

  // --------------------------------------------------------------- convergence

  /** The genesis block adds no rows: a node that applies it as well ends with the same rows
      and the same height. */
  lemma {:induction false} GenesisIsNeutral(bs: seq<Block>, s: Store)
    requires Fold(bs) == Ok(s)
    ensures var r := Fold([Block(0, [])] + bs);
            r.Ok? && r.value.rows == s.rows && BlockNumber(r.value) == BlockNumber(s) && r.value.progress.Some?
  {
    var all := [Block(0, [])] + bs;
    if bs == [] {
      assert all[..0] == [];
      assert BlockWrites(0, []) == [];
    } else {
      assert all[..|all| - 1] == [Block(0, [])] + bs[..|bs| - 1];
      GenesisIsNeutral(bs[..|bs| - 1], Fold(bs[..|bs| - 1]).value);
    }
  }

  lemma {:induction false} ReparsedSplit(net: Net, b: RawBlock, bs: seq<RawBlock>)
    ensures ReparsedAll(net, [b] + bs) == [Reparsed(net, b)] + ReparsedAll(net, bs)
  {
    if bs == [] {
      assert [b] + bs == [b] && [b][..0] == [];
    } else {
      assert ([b] + bs)[..|bs|] == [b] + bs[..|bs| - 1];
      ReparsedSplit(net, b, bs[..|bs| - 1]);
    }
  }

  /** A store that is fed every block of the chain as parsed from the wire holds the same
      rows at the same height as the ledger that validated them, after every run. */
  lemma ReplicaConverges(net: Net, evs: seq<Event>)
    requires Reversible(net.proto.forward, net.codes)
    ensures var s := RunLedger(net, true, evs);
            var r := Fold(ReparsedAll(net, s.blocks));
            && s.store.Some? && r.Ok?
            && r.value.rows == s.store.value.rows && BlockNumber(r.value) == BlockNumber(s.store.value)
  {
    LedgerInvariant(net, true, evs);
    var s := RunLedger(net, true, evs);
    GenesisParses(net);
    assert s.blocks == [s.blocks[0]] + s.blocks[1..];
    ReparsedSplit(net, s.blocks[0], s.blocks[1..]);
    GenesisIsNeutral(ReparsedAll(net, s.blocks[1..]), s.store.value);
  }
}
