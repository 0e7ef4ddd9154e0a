/** Time-travel reads and pinned views over whole runs of the store: blocks are first
    applied in increasing number, may be delivered again any number of times, and any
    delivery may fail. */
module TimeTravel {
  import opened Types
  import opened WorldState

  // -------------------------------------------------------------------- runs

  /** A store and, for the specification, the blocks it has applied, oldest first. */
  datatype Replica = Replica(store: Store, applied: seq<Block>)

  datatype Delivery = Delivery(block: Block, sqlFails: bool)

  function Deliver(r: Replica, d: Delivery): Replica {
    if d.sqlFails then r
    else
      match Update(r.store, d.block)
      case Err => r
      case Ok(s) => Replica(s, if d.block in r.applied then r.applied else r.applied + [d.block])
  }

  function Run(ds: seq<Delivery>): Replica {
    if ds == [] then Replica(EmptyStore, [])
    else Deliver(Run(ds[..|ds| - 1]), ds[|ds| - 1])
  }

  /** Parsed blocks number their transactions by position, skipping dropped ones. */
  ghost predicate AscendingTxs(txs: seq<Transaction>) {
    forall i, j | 0 <= i < j < |txs| :: txs[i].number < txs[j].number
  }

  ghost predicate InOrder(r: Replica, b: Block) {
    AscendingTxs(b.txs) && (b in r.applied || forall a | a in r.applied :: a.number < b.number)
  }

  ghost predicate InOrderRun(ds: seq<Delivery>) {
    ds == [] || (InOrderRun(ds[..|ds| - 1]) && InOrder(Run(ds[..|ds| - 1]), ds[|ds| - 1].block))
  }

  // -------------------------------------------------------------- invariants

  predicate PosLe(b1: nat, t1: nat, b2: nat, t2: nat) { b1 < b2 || (b1 == b2 && t1 <= t2) }

  ghost predicate Ordered(t: Table) {
    forall i, j | 0 <= i < j < |t| :: PosLe(t[i].blockNum, t[i].txNum, t[j].blockNum, t[j].txNum)
  }

  ghost predicate OrderedWrites(ws: seq<Write>) {
    forall i, j | 0 <= i < j < |ws| :: PosLe(ws[i].block, ws[i].tx, ws[j].block, ws[j].tx)
  }

  ghost predicate Ascending(bs: seq<Block>) {
    && (forall i, j | 0 <= i < j < |bs| :: bs[i].number < bs[j].number)
    && (forall b | b in bs :: AscendingTxs(b.txs))
  }

  ghost predicate RunInv(r: Replica) {
    && TableInv(r.store.rows)
    && Ordered(r.store.rows)
    && FoldOf(r.applied, r.store.rows)
    && r.store.progress == (if r.applied == [] then None else Some(r.applied[|r.applied| - 1].number))
  }

  /** The rows are the writes of the blocks, inserted in chain order. */
  ghost predicate FoldOf(bs: seq<Block>, rows: Table) {
    Ascending(bs) && OrderedWrites(AllWrites(bs)) && InsertAll([], AllWrites(bs)) == Ok(rows)
  }

  // ------------------------------------------------- writes in chain order

  lemma {:induction false} BlockWritesOrdered(n: nat, txs: seq<Transaction>)
    requires AscendingTxs(txs)
    ensures OrderedWrites(BlockWrites(n, txs))
    ensures forall w | w in BlockWrites(n, txs) :: txs != [] && w.tx <= txs[|txs| - 1].number
  {
    if txs != [] {
      var p, tx := txs[..|txs| - 1], txs[|txs| - 1];
      BlockWritesOrdered(n, p);
      var a := BlockWrites(n, p);
      assert forall w | w in a :: w.tx < tx.number;
      var b := if tx.Valid() then TxWrites(n, tx, tx.nsRWS) else [];
      assert forall i | |a| <= i < |a + b| :: (a + b)[i] in b && (a + b)[i].tx == tx.number;
    }
  }

  lemma {:induction false} AllWritesBlocks(bs: seq<Block>, w: Write)
    requires w in AllWrites(bs)
    ensures exists b :: b in bs && b.number == w.block
  {
    var p, b := bs[..|bs| - 1], bs[|bs| - 1];
    if w in BlockWrites(b.number, b.txs) {
      assert b in bs;
    } else {
      AllWritesBlocks(p, w);
      var c :| c in p && c.number == w.block;
      assert c in bs;
    }
  }

  lemma AllWritesSnoc(bs: seq<Block>, b: Block)
    ensures AllWrites(bs + [b]) == AllWrites(bs) + BlockWrites(b.number, b.txs)
  {
    assert (bs + [b])[..|bs|] == bs;
  }

  lemma AllWritesAppend(bs: seq<Block>, b: Block)
    requires OrderedWrites(AllWrites(bs)) && AscendingTxs(b.txs)
    requires forall a | a in bs :: a.number < b.number
    ensures AllWrites(bs + [b]) == AllWrites(bs) + BlockWrites(b.number, b.txs)
    ensures OrderedWrites(AllWrites(bs + [b]))
  {
    AllWritesSnoc(bs, b);
    BlockWritesOrdered(b.number, b.txs);
    forall w | w in AllWrites(bs) ensures w.block < b.number {
      AllWritesBlocks(bs, w);
    }
  }

  /** Every row was written by one of the inserted writes. */
  lemma {:induction false} RowsComeFromWrites(t: Table, ws: seq<Write>, r: WriteRecord)
    requires InsertAll(t, ws).Ok? && r in InsertAll(t, ws).value && r !in t
    ensures exists w :: w in ws && IsRow(r, w) && SameContent(r, w)
  {
    if ws != [] {
      var p, w := ws[..|ws| - 1], ws[|ws| - 1];
      var u := InsertAll(t, p).value;
      if r in u {
        RowsComeFromWrites(t, p, r);
        var x :| x in p && IsRow(r, x) && SameContent(r, x);
        assert x in ws;
      } else {
        assert r == NewRow(u, w) && w in ws;
      }
    }
  }

  lemma {:induction false} InsertKeepsOrder(ws: seq<Write>)
    requires OrderedWrites(ws) && InsertAll([], ws).Ok?
    ensures Ordered(InsertAll([], ws).value)
  {
    if ws != [] {
      var p, w := ws[..|ws| - 1], ws[|ws| - 1];
      InsertKeepsOrder(p);
      var t := InsertAll([], p).value;
      forall r | r in t ensures PosLe(r.blockNum, r.txNum, w.block, w.tx) {
        RowsComeFromWrites([], p, r);
      }
    }
  }

  // ----------------------------------------------------------------- replays

  ghost predicate Present(t: Table, w: Write) {
    exists r :: r in t && IsRow(r, w) && SameContent(r, w)
  }

  lemma {:induction false} InsertedArePresent(t: Table, ws: seq<Write>)
    requires TableInv(t) && InsertAll(t, ws).Ok?
    ensures forall w | w in ws :: Present(InsertAll(t, ws).value, w)
  {
    if ws != [] {
      var p, w := ws[..|ws| - 1], ws[|ws| - 1];
      var u, v := InsertAll(t, p).value, InsertAll(t, ws).value;
      InsertedArePresent(t, p);
      InsertAllKeepsInv(t, p);
      InsertKeepsInv(u, w);
      var r := if FindRow(u, w).None? then NewRow(u, w) else FindRow(u, w).value;
      assert r in v && IsRow(r, w) && SameContent(r, w);
      forall x | x in p ensures Present(v, x) {
        var r :| r in u && IsRow(r, x) && SameContent(r, x);
        assert r in v;
      }
    }
  }

  /** Inserting writes that are already there, with the same content, changes nothing. */
  lemma {:induction false} ReplayIsNoOp(t: Table, ws: seq<Write>)
    requires TableInv(t) && forall w | w in ws :: Present(t, w)
    ensures InsertAll(t, ws) == Ok(t)
  {
    if ws != [] {
      var w := ws[|ws| - 1];
      ReplayIsNoOp(t, ws[..|ws| - 1]);
      assert Present(t, w);
      var r :| r in t && IsRow(r, w) && SameContent(r, w);
      var f := FindRow(t, w);
      assert f.Some?;
      RowIdentity(t, r, f.value);
    }
  }

  lemma {:induction false} BlockWritesOfApplied(bs: seq<Block>, b: Block, w: Write)
    requires b in bs && w in BlockWrites(b.number, b.txs)
    ensures w in AllWrites(bs)
  {
    if b in bs[..|bs| - 1] {
      BlockWritesOfApplied(bs[..|bs| - 1], b, w);
    } else {
      assert b == bs[|bs| - 1];
    }
  }

  /** Delivering a block the store has applied leaves the whole store as it is. */
  lemma RedeliveryIsNoOp(r: Replica, b: Block)
    requires RunInv(r) && b in r.applied
    ensures Update(r.store, b) == Ok(r.store)
  {
    InsertedArePresent([], AllWrites(r.applied));
    forall w | w in BlockWrites(b.number, b.txs) ensures Present(r.store.rows, w) {
      BlockWritesOfApplied(r.applied, b, w);
    }
    ReplayIsNoOp(r.store.rows, BlockWrites(b.number, b.txs));
  }

  lemma DeliverKeepsInv(r: Replica, d: Delivery)
    requires RunInv(r) && InOrder(r, d.block)
    ensures RunInv(Deliver(r, d))
  {
    var b := d.block;
    if b in r.applied {
      RedeliveryIsNoOp(r, b);
    } else if !d.sqlFails && Update(r.store, b).Ok? {
      NewBlockKeepsInv(r, b, InsertAll(r.store.rows, BlockWrites(b.number, b.txs)).value);
      if r.applied != [] { assert r.applied[|r.applied| - 1] in r.applied; }
    }
  }

  lemma NewBlockKeepsInv(r: Replica, b: Block, rows: Table)
    requires RunInv(r) && AscendingTxs(b.txs) && forall a | a in r.applied :: a.number < b.number
    requires InsertAll(r.store.rows, BlockWrites(b.number, b.txs)) == Ok(rows)
    ensures RunInv(Replica(Store(rows, Some(b.number)), r.applied + [b]))
  {
    FoldNext(r.applied, r.store.rows, b, rows);
    FoldIsSound(r.applied + [b], rows);
  }

  lemma FoldNext(bs: seq<Block>, t: Table, b: Block, rows: Table)
    requires FoldOf(bs, t) && AscendingTxs(b.txs) && forall a | a in bs :: a.number < b.number
    requires InsertAll(t, BlockWrites(b.number, b.txs)) == Ok(rows)
    ensures FoldOf(bs + [b], rows)
  {
    AllWritesAppend(bs, b);
    assert InsertAll([], AllWrites(bs) + BlockWrites(b.number, b.txs)) == Ok(rows) by {
      InsertAllSplit([], AllWrites(bs), BlockWrites(b.number, b.txs));
    }
  }

  lemma FoldIsSound(bs: seq<Block>, rows: Table)
    requires FoldOf(bs, rows)
    ensures TableInv(rows) && Ordered(rows)
  {
    var ws := AllWrites(bs);
    assert TableInv(rows) by { InsertAllKeepsInv([], ws); }
    assert Ordered(rows) by { InsertKeepsOrder(ws); }
  }

  /** Every in-order run keeps the store equal to the fold of the blocks it applied,
      with each block counted once however often it was delivered. */
  lemma {:induction false} RunKeepsInv(ds: seq<Delivery>)
    requires InOrderRun(ds)
    ensures RunInv(Run(ds))
  {
    if ds != [] {
      RunKeepsInv(ds[..|ds| - 1]);
      DeliverKeepsInv(Run(ds[..|ds| - 1]), ds[|ds| - 1]);
    }
  }

  lemma {:induction false} TableOfEveryRun(ds: seq<Delivery>)
    ensures TableInv(Run(ds).store.rows)
  {
    if ds != [] {
      var r, d := Run(ds[..|ds| - 1]), ds[|ds| - 1];
      TableOfEveryRun(ds[..|ds| - 1]);
      var ws := BlockWrites(d.block.number, d.block.txs);
      if InsertAll(r.store.rows, ws).Ok? { InsertAllKeepsInv(r.store.rows, ws); }
    }
  }

  /** In every run, whatever the order of the blocks, the versions of a key with n rows are
      exactly 0 .. n-1, each held by one row. */
  lemma VersionsOfEveryRun(ds: seq<Delivery>, ns: string, key: string, v: nat)
    ensures var t := Run(ds).store.rows;
            && ((exists r :: r in t && IsKey(r, ns, key) && r.version == v) <==> v < Count(t, ns, key))
            && forall a, b | a in t && b in t && IsKey(a, ns, key) && IsKey(b, ns, key) && a.version == b.version ::
                 a == b
  {
    var t := Run(ds).store.rows;
    TableOfEveryRun(ds);
    VersionsExactly(t, ns, key, v);
    forall a, b | a in t && b in t && IsKey(a, ns, key) && IsKey(b, ns, key) && a.version == b.version ensures a == b {
      RowIdentity(t, a, b);
    }
  }

  // ------------------------------------------------------------ time travel

  /** On the rows of one key, version order is chain order. */
  lemma VersionOrderIsChainOrder(r: Replica, a: WriteRecord, b: WriteRecord)
    requires RunInv(r) && a in r.store.rows && b in r.store.rows && SameKey(a, b)
    ensures a.version < b.version
       <==> (a.blockNum < b.blockNum || (a.blockNum == b.blockNum && a.txNum < b.txNum))
  {
    var t := r.store.rows;
    var i :| 0 <= i < |t| && t[i] == a;
    var j :| 0 <= j < |t| && t[j] == b;
    if i < j { VersionsIncrease(t, i, j); }
    if j < i { VersionsIncrease(t, j, i); }
  }

  /** The last write of a key in a list of writes. */
  function LastWrite(ws: seq<Write>, ns: string, key: string): Option<Write> {
    if ws == [] then None
    else
      var w := ws[|ws| - 1];
      if w.ns == ns && w.key == key then Some(w) else LastWrite(ws[..|ws| - 1], ns, key)
  }

  function UpTo(bs: seq<Block>, h: nat): seq<Block> {
    if bs == [] then []
    else
      var b := bs[|bs| - 1];
      if b.number <= h then UpTo(bs[..|bs| - 1], h) + [b] else UpTo(bs[..|bs| - 1], h)
  }

  ghost predicate Agrees(r: Option<WriteRecord>, w: Option<Write>) {
    match (r, w)
    case (None, None) => true
    case (Some(x), Some(y)) => IsRow(x, y) && SameContent(x, y)
    case _ => false
  }

  function WritesUpTo(ws: seq<Write>, h: nat): (out: seq<Write>)
    ensures forall w | w in out :: w in ws && w.block <= h
  {
    if ws == [] then []
    else
      var w := ws[|ws| - 1];
      if w.block <= h then WritesUpTo(ws[..|ws| - 1], h) + [w] else WritesUpTo(ws[..|ws| - 1], h)
  }

  lemma {:induction false} WritesUpToConcat(a: seq<Write>, b: seq<Write>, h: nat)
    ensures WritesUpTo(a + b, h) == WritesUpTo(a, h) + WritesUpTo(b, h)
  {
    if b == [] {
      assert a + b == a;
    } else {
      assert (a + b)[..|a + b| - 1] == a + b[..|b| - 1];
      WritesUpToConcat(a, b[..|b| - 1], h);
    }
  }

  lemma {:induction false} WritesUpToAllOrNone(ws: seq<Write>, n: nat, h: nat)
    requires forall w | w in ws :: w.block == n
    ensures WritesUpTo(ws, h) == if n <= h then ws else []
  {
    if ws != [] { WritesUpToAllOrNone(ws[..|ws| - 1], n, h); }
  }

  lemma {:induction false} WritesOfBlocksUpTo(bs: seq<Block>, h: nat)
    ensures AllWrites(UpTo(bs, h)) == WritesUpTo(AllWrites(bs), h)
  {
    if bs != [] {
      var p, b := bs[..|bs| - 1], bs[|bs| - 1];
      WritesOfBlocksUpTo(p, h);
      WritesUpToConcat(AllWrites(p), BlockWrites(b.number, b.txs), h);
      WritesUpToAllOrNone(BlockWrites(b.number, b.txs), b.number, h);
      AllWritesSnoc(UpTo(p, h), b);
    }
  }

  /** With dense versions the newest visible row is the last visible one. */
  lemma GetAtAppend(t: Table, x: WriteRecord, ns: string, key: string, h: nat)
    requires Dense(t + [x])
    ensures GetAt(t + [x], ns, key, h) == if Visible(x, ns, key, h) then Some(x) else GetAt(t, ns, key, h)
  {
    var u := t + [x];
    assert u[..|t|] == t;
    var g := GetAt(t, ns, key, h);
    if Visible(x, ns, key, h) && g.Some? {
      var i :| 0 <= i < |t| && t[i] == g.value;
      VersionsIncrease(u, i, |t|);
    }
  }

  lemma GetAppend(t: Table, x: WriteRecord, ns: string, key: string)
    requires Dense(t + [x])
    ensures Get(t + [x], ns, key) == if IsKey(x, ns, key) then Some(x) else Get(t, ns, key)
  {
    var u := t + [x];
    assert u[..|t|] == t;
    var g := Get(t, ns, key);
    if IsKey(x, ns, key) && g.Some? {
      var i :| 0 <= i < |t| && t[i] == g.value;
      VersionsIncrease(u, i, |t|);
    }
  }

  /** A read at height `h` answers with the last write of the key up to `h`. */
  ghost predicate ReadsLast(ws: seq<Write>, ns: string, key: string, h: nat) {
    var r := InsertAll([], ws);
    r.Ok? ==> Agrees(GetAt(r.value, ns, key, h), LastWrite(WritesUpTo(ws, h), ns, key))
  }

  lemma {:induction false} GetAtIsLastWrite(ws: seq<Write>, ns: string, key: string, h: nat)
    requires OrderedWrites(ws)
    ensures ReadsLast(ws, ns, key, h)
  {
    if ws != [] {
      var p, w := ws[..|ws| - 1], ws[|ws| - 1];
      GetAtIsLastWrite(p, ns, key, h);
      assert ws == p + [w];
      ReadsLastNext(p, w, ns, key, h);
    }
  }

  lemma ReadsLastNext(p: seq<Write>, w: Write, ns: string, key: string, h: nat)
    requires OrderedWrites(p + [w]) && ReadsLast(p, ns, key, h)
    ensures ReadsLast(p + [w], ns, key, h)
  {
    assert (p + [w])[..|p|] == p;
    LastWriteSnoc(WritesUpTo(p, h), w, ns, key);
    if InsertAll([], p).Ok? && Insert(InsertAll([], p).value, w).Ok? { GetAtAfterInsert(p, w, ns, key, h); }
  }

  lemma LastWriteSnoc(ws: seq<Write>, w: Write, ns: string, key: string)
    ensures LastWrite(ws + [w], ns, key) == if w.ns == ns && w.key == key then Some(w) else LastWrite(ws, ns, key)
  {
    assert (ws + [w])[..|ws|] == ws;
  }

  /** One insert, in chain order, makes its own row the answer to the reads that see it
      and changes no other read. */
  lemma GetAtAfterInsert(p: seq<Write>, w: Write, ns: string, key: string, h: nat)
    requires OrderedWrites(p + [w]) && InsertAll([], p).Ok? && Insert(InsertAll([], p).value, w).Ok?
    ensures var t := InsertAll([], p).value;
            var g := GetAt(Insert(t, w).value, ns, key, h);
            if w.ns == ns && w.key == key && w.block <= h then Agrees(g, Some(w)) else g == GetAt(t, ns, key, h)
  {
    var t := InsertAll([], p).value;
    assert TableInv(t) by { InsertAllKeepsInv([], p); }
    match FindRow(t, w)
    case None =>
      assert Dense(t + [NewRow(t, w)]) by { InsertKeepsInv(t, w); }
      GetAtAppend(t, NewRow(t, w), ns, key, h);
    case Some(r) =>
      if w.ns == ns && w.key == key && w.block <= h {
        assert Ordered(t) by {
          assert forall i | 0 <= i < |p| :: (p + [w])[i] == p[i];
          InsertKeepsOrder(p);
        }
        LastIsRepeated(p, w, r, h);
      }
  }

  /** A write repeated inside its own transaction finds its row still the newest one. */
  lemma LastIsRepeated(p: seq<Write>, w: Write, r: WriteRecord, h: nat)
    requires OrderedWrites(p + [w]) && InsertAll([], p).Ok?
    requires TableInv(InsertAll([], p).value) && Ordered(InsertAll([], p).value)
    requires r in InsertAll([], p).value && IsRow(r, w) && w.block <= h
    ensures GetAt(InsertAll([], p).value, w.ns, w.key, h) == Some(r)
  {
    var t := InsertAll([], p).value;
    var g := GetAt(t, w.ns, w.key, h).value;
    RowsComeFromWrites([], p, g);
    var x :| x in p && IsRow(g, x) && SameContent(g, x);
    var k :| 0 <= k < |p| && p[k] == x;
    assert (p + [w])[k] == x && (p + [w])[|p|] == w;
    var i :| 0 <= i < |t| && t[i] == g;
    var j :| 0 <= j < |t| && t[j] == r;
    if i < j { VersionsIncrease(t, i, j); }
    RowIdentity(t, g, r);
  }

  /** GetAt answers with the last write of the key in the fold of the blocks up to `h`. */
  lemma TimeTravelIsFold(ds: seq<Delivery>, ns: string, key: string, h: nat)
    requires InOrderRun(ds)
    ensures Agrees(GetAt(Run(ds).store.rows, ns, key, h),
                   LastWrite(AllWrites(UpTo(Run(ds).applied, h)), ns, key))
  {
    RunKeepsInv(ds);
    GetAtIsLastWrite(AllWrites(Run(ds).applied), ns, key, h);
    WritesOfBlocksUpTo(Run(ds).applied, h);
  }

  lemma RowsBelowProgress(r: Replica, x: WriteRecord)
    requires RunInv(r) && x in r.store.rows
    ensures r.store.progress.Some? && x.blockNum <= r.store.progress.value
  {
    RowsComeFromWrites([], AllWrites(r.applied), x);
    var w :| w in AllWrites(r.applied) && IsRow(x, w);
    AllWritesBlocks(r.applied, w);
  }

  lemma {:induction false} GetAtEverything(t: Table, ns: string, key: string, h: nat)
    requires forall x | x in t :: x.blockNum <= h
    ensures GetAt(t, ns, key, h) == Get(t, ns, key)
  {
    if t != [] {
      assert t[|t| - 1] in t;
      GetAtEverything(t[..|t| - 1], ns, key, h);
    }
  }

  /** The latest state is the state at the current height. */
  lemma GetIsGetAtHeight(ds: seq<Delivery>, ns: string, key: string)
    requires InOrderRun(ds)
    ensures Get(Run(ds).store.rows, ns, key) == GetAt(Run(ds).store.rows, ns, key, BlockNumber(Run(ds).store))
  {
    RunKeepsInv(ds);
    forall x | x in Run(ds).store.rows ensures x.blockNum <= BlockNumber(Run(ds).store) {
      RowsBelowProgress(Run(ds), x);
    }
    GetAtEverything(Run(ds).store.rows, ns, key, BlockNumber(Run(ds).store));
  }

  // ------------------------------------------------------------ pinned views

  /** The height a view is pinned to: SnapshotAt caps the request at the current height. */
  function SnapshotHeight(s: Store, requested: nat): nat {
    if requested <= BlockNumber(s) then requested else BlockNumber(s)
  }

  lemma {:induction false} GetAtIgnoresHigher(t: Table, ws: seq<Write>, ns: string, key: string, h: nat)
    requires TableInv(t) && InsertAll(t, ws).Ok? && forall w | w in ws :: w.block > h
    ensures GetAt(InsertAll(t, ws).value, ns, key, h) == GetAt(t, ns, key, h)
  {
    if ws != [] {
      var p, w := ws[..|ws| - 1], ws[|ws| - 1];
      GetAtIgnoresHigher(t, p, ns, key, h);
      InsertAllKeepsInv(t, p);
      InsertAllKeepsInv(t, ws);
      var u := InsertAll(t, p).value;
      if FindRow(u, w).None? { GetAtAppend(u, NewRow(u, w), ns, key, h); }
    }
  }

  /** What makes a view at this store immune to later blocks: something was applied,
      or the block 0 still to come, if any, writes nothing. */
  ghost predicate Pinned(r: Replica, ds: seq<Delivery>) {
    r.applied != [] || forall d | d in ds && d.block.number == 0 :: BlockWrites(0, d.block.txs) == []
  }

  function RunFrom(r: Replica, ds: seq<Delivery>): Replica {
    if ds == [] then r else Deliver(RunFrom(r, ds[..|ds| - 1]), ds[|ds| - 1])
  }

  ghost predicate InOrderFrom(r: Replica, ds: seq<Delivery>) {
    ds == [] || (InOrderFrom(r, ds[..|ds| - 1]) && InOrder(RunFrom(r, ds[..|ds| - 1]), ds[|ds| - 1].block))
  }

  /** A view opened on `r` answers every key alike after any later in-order run of new
      blocks, replays and failures. */
  lemma {:induction false} SnapshotIsStable(r: Replica, ds: seq<Delivery>, requested: nat, ns: string, key: string)
    requires RunInv(r) && InOrderFrom(r, ds) && Pinned(r, ds)
    ensures RunInv(RunFrom(r, ds)) && r.applied <= RunFrom(r, ds).applied
    ensures GetAt(RunFrom(r, ds).store.rows, ns, key, SnapshotHeight(r.store, requested))
         == GetAt(r.store.rows, ns, key, SnapshotHeight(r.store, requested))
  {
    if ds != [] {
      var p, d := ds[..|ds| - 1], ds[|ds| - 1];
      SnapshotIsStable(r, p, requested, ns, key);
      var m := RunFrom(r, p);
      DeliverKeepsInv(m, d);
      if d.block !in m.applied {
        assert d in ds;
        LaterBlockIsHigher(r, m, d.block, requested);
      }
      DeliveryIsUnseen(m, d, SnapshotHeight(r.store, requested), ns, key);
    }
  }

  /** A block not applied yet lies above the pinned height, or writes nothing. */
  lemma LaterBlockIsHigher(r: Replica, m: Replica, b: Block, requested: nat)
    requires RunInv(r) && r.applied <= m.applied && InOrder(m, b) && b !in m.applied
    requires r.applied != [] || (b.number == 0 ==> BlockWrites(0, b.txs) == [])
    ensures b.number > SnapshotHeight(r.store, requested) || BlockWrites(b.number, b.txs) == []
  {
    if r.applied != [] { assert m.applied[|r.applied| - 1] == r.applied[|r.applied| - 1]; }
  }

  lemma DeliveryIsUnseen(m: Replica, d: Delivery, h: nat, ns: string, key: string)
    requires RunInv(m) && InOrder(m, d.block)
    requires d.block in m.applied || d.block.number > h || BlockWrites(d.block.number, d.block.txs) == []
    ensures m.applied <= Deliver(m, d).applied
    ensures GetAt(Deliver(m, d).store.rows, ns, key, h) == GetAt(m.store.rows, ns, key, h)
  {
    if d.block in m.applied {
      RedeliveryIsNoOp(m, d.block);
    } else if !d.sqlFails && Update(m.store, d.block).Ok? {
      GetAtIgnoresHigher(m.store.rows, BlockWrites(d.block.number, d.block.txs), ns, key, h);
    }
  }

  /** A view shows the blocks up to the requested height, as far as there are any. */
  lemma SnapshotIsFold(ds: seq<Delivery>, requested: nat, ns: string, key: string)
    requires InOrderRun(ds)
    ensures Agrees(GetAt(Run(ds).store.rows, ns, key, SnapshotHeight(Run(ds).store, requested)),
                   LastWrite(AllWrites(UpTo(Run(ds).applied, requested)), ns, key))
    ensures requested >= BlockNumber(Run(ds).store) ==>
              GetAt(Run(ds).store.rows, ns, key, SnapshotHeight(Run(ds).store, requested))
              == Get(Run(ds).store.rows, ns, key)
  {
    var h := SnapshotHeight(Run(ds).store, requested);
    TimeTravelIsFold(ds, ns, key, h);
    RunKeepsInv(ds);
    if requested >= BlockNumber(Run(ds).store) {
      assert h == BlockNumber(Run(ds).store);
      GetIsGetAtHeight(ds, ns, key);
      NothingAbove(Run(ds), requested);
    }
  }

  /** Every applied block is at or below the store's height. */
  lemma NothingAbove(r: Replica, h: nat)
    requires RunInv(r) && h >= BlockNumber(r.store)
    ensures UpTo(r.applied, h) == UpTo(r.applied, BlockNumber(r.store)) == r.applied
  {
    var n := BlockNumber(r.store);
    forall b | b in r.applied ensures b.number <= n {
      var i :| 0 <= i < |r.applied| && r.applied[i] == b;
    }
    UpToAll(r.applied, n);
    UpToAll(r.applied, h);
  }

  lemma {:induction false} UpToAll(bs: seq<Block>, h: nat)
    requires forall b | b in bs :: b.number <= h
    ensures UpTo(bs, h) == bs
  {
    if bs != [] {
      assert bs[|bs| - 1] in bs;
      UpToAll(bs[..|bs| - 1], h);
    }
  }

  /** No block 0 that a fresh store would take, delivered without a failure, writes anything. */
  ghost predicate SilentBlockZero(ds: seq<Delivery>) {
    forall d | d in ds && d.block.number == 0 && !d.sqlFails && Update(EmptyStore, d.block).Ok? ::
      BlockWrites(0, d.block.txs) == []
  }

  /** On a store that has applied nothing the height 0 is ambiguous: a view opened there
      stays empty through a run exactly when the block 0 delivered in it writes nothing. */
  lemma FreshViewStableIff(ds: seq<Delivery>, requested: nat)
    requires InOrderRun(ds)
    ensures (forall ns: string, key: string ::
               GetAt(Run(ds).store.rows, ns, key, SnapshotHeight(EmptyStore, requested))
               == GetAt(EmptyStore.rows, ns, key, SnapshotHeight(EmptyStore, requested)))
       <==> SilentBlockZero(ds)
  {
    var t := Run(ds).store.rows;
    assert SnapshotHeight(EmptyStore, requested) == 0;
    assert forall ns: string, key: string :: GetAt(EmptyStore.rows, ns, key, 0) == None;
    assert EmptyAtZero(t) <==> SilentBlockZero(ds) by {
      EmptyAtZeroIff(ds);
      SilentIff(ds);
    }
    if !EmptyAtZero(t) {
      var ns: string, key: string :| GetAt(t, ns, key, 0).Some?;
      assert GetAt(t, ns, key, SnapshotHeight(EmptyStore, requested)) != GetAt(EmptyStore.rows, ns, key, 0);
    }
  }

  ghost predicate EmptyAtZero(t: Table) { forall ns: string, key: string :: GetAt(t, ns, key, 0).None? }

  lemma EmptyAtZeroIff(ds: seq<Delivery>)
    requires InOrderRun(ds)
    ensures EmptyAtZero(Run(ds).store.rows) <==> AllWrites(UpTo(Run(ds).applied, 0)) == []
  {
    var ws := AllWrites(UpTo(Run(ds).applied, 0));
    forall ns: string, key: string
      ensures GetAt(Run(ds).store.rows, ns, key, 0).None? <==> LastWrite(ws, ns, key).None?
    {
      TimeTravelIsFold(ds, ns, key, 0);
    }
    if ws != [] {
      var w := ws[|ws| - 1];
      assert LastWrite(ws, w.ns, w.key) == Some(w);
      assert GetAt(Run(ds).store.rows, w.ns, w.key, 0).Some?;
    }
  }

  lemma SilentIff(ds: seq<Delivery>)
    requires InOrderRun(ds)
    ensures AllWrites(UpTo(Run(ds).applied, 0)) == [] <==> SilentBlockZero(ds)
  {
    var bs := UpTo(Run(ds).applied, 0);
    WritesNothingIff(bs);
    UpToMembers(Run(ds).applied, 0);
    forall d | d in ds && d.block.number == 0 && Brings(d, d.block) ensures d.block in bs {
      AppliedZeroIff(ds, d.block);
    }
    forall b | b in bs ensures exists d :: d in ds && Brings(d, b) && b.number == 0 {
      AppliedZeroIff(ds, b);
    }
  }

  lemma {:induction false} WritesNothingIff(bs: seq<Block>)
    ensures AllWrites(bs) == [] <==> forall b | b in bs :: BlockWrites(b.number, b.txs) == []
  {
    if bs != [] {
      WritesNothingIff(bs[..|bs| - 1]);
      assert bs == bs[..|bs| - 1] + [bs[|bs| - 1]];
    }
  }

  lemma {:induction false} UpToMembers(bs: seq<Block>, h: nat)
    ensures forall b :: b in UpTo(bs, h) <==> b in bs && b.number <= h
  {
    if bs != [] {
      UpToMembers(bs[..|bs| - 1], h);
      assert bs == bs[..|bs| - 1] + [bs[|bs| - 1]];
    }
  }

  /** In an in-order run the applied blocks 0 are those a delivery brought to a fresh store. */
  lemma {:induction false} AppliedZeroIff(ds: seq<Delivery>, b: Block)
    requires InOrderRun(ds) && b.number == 0
    ensures b in Run(ds).applied <==> exists d :: d in ds && Brings(d, b)
  {
    if ds != [] {
      var p, d := ds[..|ds| - 1], ds[|ds| - 1];
      AppliedZeroIff(p, b);
      assert ds == p + [d];
      assert b in Run(ds).applied <==> b in Run(p).applied || Brings(d, b) by {
        RunKeepsInv(p);
        ZeroAfter(Run(p), d, b);
      }
    }
  }

  /** The delivery would apply the block to a fresh store. */
  predicate Brings(d: Delivery, b: Block) { d.block == b && !d.sqlFails && Update(EmptyStore, b).Ok? }

  lemma ZeroAfter(r: Replica, d: Delivery, b: Block)
    requires RunInv(r) && InOrder(r, d.block) && b.number == 0
    ensures b in Deliver(r, d).applied <==> b in r.applied || Brings(d, b)
  {
    if d.block.number == 0 { FirstZero(r, d.block); }
  }

  /** A block 0 comes to a store that has applied it already, or has applied nothing. */
  lemma FirstZero(r: Replica, b: Block)
    requires RunInv(r) && InOrder(r, b) && b.number == 0
    ensures b in r.applied || r == Replica(EmptyStore, [])
  {
    if r.applied != [] { assert r.applied[0] in r.applied; }
  }

  /** Block 0 with one committed write. */
  function WritingBlock(id: string, code: int, ns: string, key: string): Block {
    Block(0, [Transaction(id, 0, Committed, code, [NsReadWriteSet(ns, ReadWriteSet([], [KVWrite(key, false, [1])]))])])
  }

  /** It does fail: a committed write in block 0 shows up in a view opened before it. */
  lemma FreshViewChanges(id: string, code: int, ns: string, key: string)
    ensures var ds, h := [Delivery(WritingBlock(id, code, ns, key), false)], SnapshotHeight(EmptyStore, 0);
            && InOrderRun(ds)
            && GetAt(EmptyStore.rows, ns, key, h).None?
            && GetAt(Run(ds).store.rows, ns, key, h) == Some(WriteRecord(ns, key, 0, 0, 0, [1], false, id))
  {
    var d := Delivery(WritingBlock(id, code, ns, key), false);
    var row := WriteRecord(ns, key, 0, 0, 0, [1], false, id);
    UpdatedByOne(id, code, ns, key);
    assert [d][..0] == [] && [row][..0] == [];
    assert Run([]) == Replica(EmptyStore, []) && InOrderRun([]);
    assert Run([d]) == Deliver(Run([]), d);
    assert GetAt([row], ns, key, 0) == Some(row);
  }

  lemma UpdatedByOne(id: string, code: int, ns: string, key: string)
    ensures Update(EmptyStore, WritingBlock(id, code, ns, key))
         == Ok(Store([WriteRecord(ns, key, 0, 0, 0, [1], false, id)], Some(0)))
  {
    var b := WritingBlock(id, code, ns, key);
    var w := Write(ns, key, 0, 0, [1], false, id);
    WritesOfOne(id, code, ns, key);
    assert [w][..0] == [];
    assert InsertAll([], [w]) == Insert([], w);
    assert [] + [NewRow([], w)] == [NewRow([], w)];
  }

  lemma WritesOfOne(id: string, code: int, ns: string, key: string)
    ensures BlockWrites(0, WritingBlock(id, code, ns, key).txs) == [Write(ns, key, 0, 0, [1], false, id)]
  {
    var tx := WritingBlock(id, code, ns, key).txs[0];
    var ws := [KVWrite(key, false, [1])];
    assert ws[..0] == [] && tx.nsRWS[..0] == [] && [tx][..0] == [];
    assert NsWrites(0, tx, ns, ws) == [Write(ns, key, 0, 0, [1], false, id)];
    assert TxWrites(0, tx, tx.nsRWS) == NsWrites(0, tx, ns, ws);
  }

  // ---------------------------------------------------------------- history

  /** The rows of one key, in table order. */
  function RowsOf(t: Table, ns: string, key: string): Table {
    if t == [] then []
    else
      var p := RowsOf(t[..|t| - 1], ns, key);
      if IsKey(t[|t| - 1], ns, key) then p + [t[|t| - 1]] else p
  }

  lemma {:induction false} InsertKeepsPosition(s: Table, r: WriteRecord)
    requires Ordered(s)
    ensures Ordered(InsertByPosition(s, r)) && multiset(InsertByPosition(s, r)) == multiset(s) + multiset{r}
  {
    if s != [] {
      var p, last := s[..|s| - 1], s[|s| - 1];
      assert s == p + [last];
      if PosLe(last.blockNum, last.txNum, r.blockNum, r.txNum) {
        assert forall x | x in s :: PosLe(x.blockNum, x.txNum, r.blockNum, r.txNum);
        OrderedSnoc(s, r);
      } else {
        InsertKeepsPosition(p, r);
        var q := InsertByPosition(p, r);
        forall x | x in q ensures PosLe(x.blockNum, x.txNum, last.blockNum, last.txNum) {
          assert x in multiset(q);
          assert x == r || x in p;
        }
        OrderedSnoc(q, last);
      }
    }
  }

  lemma OrderedSnoc(s: Table, r: WriteRecord)
    requires Ordered(s) && forall x | x in s :: PosLe(x.blockNum, x.txNum, r.blockNum, r.txNum)
    ensures Ordered(s + [r])
  {
    assert forall i | 0 <= i < |s| :: (s + [r])[i] == s[i] && s[i] in s;
  }

  /** For every table, in whatever order its blocks came: the history of a key is by block and
      transaction, and holds each row of the key as often as the table does, and no other. */
  lemma HistoryIsComplete(t: Table, ns: string, key: string, r: WriteRecord)
    ensures Ordered(GetHistory(t, ns, key))
    ensures multiset(GetHistory(t, ns, key))[r] == if IsKey(r, ns, key) then multiset(t)[r] else 0
  {
    HistoryIsSorted(t, ns, key);
    RowsOfMembers(t, ns, key, r);
  }

  lemma {:induction false} HistoryIsSorted(t: Table, ns: string, key: string)
    ensures Ordered(GetHistory(t, ns, key)) && multiset(GetHistory(t, ns, key)) == multiset(RowsOf(t, ns, key))
  {
    if t != [] {
      HistoryIsSorted(t[..|t| - 1], ns, key);
      InsertKeepsPosition(GetHistory(t[..|t| - 1], ns, key), t[|t| - 1]);
    }
  }

  lemma {:induction false} RowsOfMembers(t: Table, ns: string, key: string, r: WriteRecord)
    ensures multiset(RowsOf(t, ns, key))[r] == if IsKey(r, ns, key) then multiset(t)[r] else 0
  {
    if t != [] {
      RowsOfMembers(t[..|t| - 1], ns, key, r);
      assert t == t[..|t| - 1] + [t[|t| - 1]];
    }
  }

  function InsertByPosition(s: Table, r: WriteRecord): Table {
    if s == [] then [r]
    else
      var last := s[|s| - 1];
      if PosLe(last.blockNum, last.txNum, r.blockNum, r.txNum) then s + [r]
      else InsertByPosition(s[..|s| - 1], r) + [last]
  }

  /** GetHistory: the rows of a key, ORDER BY version_block, version_tx. */
  function GetHistory(t: Table, ns: string, key: string): Table {
    if t == [] then []
    else
      var r := t[|t| - 1];
      var s := GetHistory(t[..|t| - 1], ns, key);
      if IsKey(r, ns, key) then InsertByPosition(s, r) else s
  }

  /** After any in-order run the history of a key lists its n rows by version 0 .. n-1. */
  lemma HistoryIsVersionOrder(ds: seq<Delivery>, ns: string, key: string)
    requires InOrderRun(ds)
    ensures var t := Run(ds).store.rows; var s := GetHistory(t, ns, key);
            && |s| == Count(t, ns, key)
            && forall i | 0 <= i < |s| :: s[i] in t && IsKey(s[i], ns, key) && s[i].version == i
  {
    RunKeepsInv(ds);
    HistoryOfOrdered(Run(ds).store.rows, ns, key);
  }

  lemma {:induction false} HistoryOfOrdered(t: Table, ns: string, key: string)
    requires Dense(t) && Ordered(t)
    ensures var s := GetHistory(t, ns, key);
            && |s| == Count(t, ns, key)
            && forall i | 0 <= i < |s| :: s[i] in t && IsKey(s[i], ns, key) && s[i].version == i
  {
    if t != [] {
      var p, r := t[..|t| - 1], t[|t| - 1];
      DenseLast(t);
      HistoryOfOrdered(p, ns, key);
      var s := GetHistory(p, ns, key);
      assert forall x | x in p :: x in t && PosLe(x.blockNum, x.txNum, r.blockNum, r.txNum);
      if IsKey(r, ns, key) { InsertedLast(s, r); }
    }
  }

  lemma DenseLast(t: Table)
    requires Dense(t) && t != []
    ensures var p, r := t[..|t| - 1], t[|t| - 1]; Dense(p) && r.version == Count(p, r.ns, r.key)
  {
    assert forall i | 0 <= i < |t| - 1 :: t[..|t| - 1][..i] == t[..i];
  }

  lemma InsertedLast(s: Table, r: WriteRecord)
    requires forall x | x in s :: PosLe(x.blockNum, x.txNum, r.blockNum, r.txNum)
    ensures InsertByPosition(s, r) == s + [r]
  {
    if s != [] { assert s[|s| - 1] in s; }
  }
}
