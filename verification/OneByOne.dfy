/** Block-at-once validation compared with a committer that checks each transaction
    against a store in which the earlier committed ones are already applied. */
module OneByOne {
  import opened Types
  import opened WorldState
  import opened Mvcc
  import Keys
  import Simulation
  import TimeTravel

  /** The committed state a table serves to the validator. */
  function DbOf(t: Table): Getter { (ns: string, key: string) => Ok(Get(t, ns, key)) }

  // ------------------------------------------------ pending keys and writes

  lemma {:induction false} NsWritesArePending(n: nat, tx: Transaction, ns: string, ws: seq<KVWrite>)
    ensures (set w | w in NsWrites(n, tx, ns, ws) :: PendingKey(w.ns, w.key)) == NsPending(ns, ws)
  {
    if ws != [] {
      var p, w := ws[..|ws| - 1], ws[|ws| - 1];
      NsWritesArePending(n, tx, ns, p);
      var row := Write(ns, w.key, n, tx.number, w.value, w.isDelete, tx.id);
      assert ws == p + [w];
      assert NsPending(ns, ws) == NsPending(ns, p) + {PendingKey(ns, w.key)};
      assert NsWrites(n, tx, ns, ws) == NsWrites(n, tx, ns, p) + [row];
    }
  }

  ghost function KeysOf(ws: seq<Write>): set<string> { set w | w in ws :: PendingKey(w.ns, w.key) }

  lemma KeysOfConcat(a: seq<Write>, b: seq<Write>)
    ensures KeysOf(a + b) == KeysOf(a) + KeysOf(b)
  {
  }

  lemma {:induction false} TxWritesArePending(n: nat, tx: Transaction, s: seq<NsReadWriteSet>)
    ensures KeysOf(TxWrites(n, tx, s)) == TxPending(s)
  {
    if s != [] {
      var p, last := s[..|s| - 1], s[|s| - 1];
      TxWritesArePending(n, tx, p);
      NsWritesArePending(n, tx, last.ns, last.rws.writeSet);
      KeysOfConcat(TxWrites(n, tx, p), NsWrites(n, tx, last.ns, last.rws.writeSet));
    }
  }

  /** The pending set is exactly the set of keys of the writes the block would insert. */
  lemma {:induction false} PendingIsWritten(n: nat, done: seq<Transaction>)
    ensures KeysOf(BlockWrites(n, done)) == PendingAfter(done)
  {
    if done != [] {
      var p, tx := done[..|done| - 1], done[|done| - 1];
      PendingIsWritten(n, p);
      TxWritesArePending(n, tx, tx.nsRWS);
      KeysOfConcat(BlockWrites(n, p), if tx.Valid() then TxWrites(n, tx, tx.nsRWS) else []);
    }
  }

  /** Writes to other keys do not change the latest record of a key. */
  lemma {:induction false} GetUnaffected(t: Table, ws: seq<Write>, ns: string, key: string)
    requires InsertAll(t, ws).Ok? && forall w | w in ws :: !(w.ns == ns && w.key == key)
    ensures Get(InsertAll(t, ws).value, ns, key) == Get(t, ns, key)
  {
    if ws != [] {
      var p, w := ws[..|ws| - 1], ws[|ws| - 1];
      GetUnaffected(t, p, ns, key);
      var u := InsertAll(t, p).value;
      if FindRow(u, w).None? { assert (u + [NewRow(u, w)])[..|u|] == u; }
    }
  }

  lemma NotPendingUnaffected(t: Table, n: nat, done: seq<Transaction>, ns: string, key: string)
    requires InsertAll(t, BlockWrites(n, done)).Ok? && PendingKey(ns, key) !in PendingAfter(done)
    ensures Get(InsertAll(t, BlockWrites(n, done)).value, ns, key) == Get(t, ns, key)
  {
    PendingIsWritten(n, done);
    forall w | w in BlockWrites(n, done) ensures !(w.ns == ns && w.key == key) {
      assert PendingKey(w.ns, w.key) in KeysOf(BlockWrites(n, done));
    }
    GetUnaffected(t, BlockWrites(n, done), ns, key);
  }

  // ---------------------------------------------------------------- soundness

  /** Whatever the block holds, a transaction the one-pass validator commits also passes
      the check against the store with the earlier committed ones applied. */
  lemma CommittedPassesOneByOne(t: Table, n: nat, mono: bool, codes: map<Status, int>, txs: seq<Transaction>, i: nat)
    requires var done := Validated(DbOf(t), mono, codes, txs).done;
             i < |done| && done[i].Valid() && InsertAll(t, BlockWrites(n, done[..i])).Ok?
    ensures var done := Validated(DbOf(t), mono, codes, txs).done;
            TxVerdict({}, DbOf(InsertAll(t, BlockWrites(n, done[..i])).value), mono, txs[i].nsRWS).Committed?
  {
    var done := Validated(DbOf(t), mono, codes, txs).done;
    var u := InsertAll(t, BlockWrites(n, done[..i])).value;
    ValidatedAt(DbOf(t), mono, codes, txs, i);
    CommittedMeans(PendingAfter(done[..i]), DbOf(t), mono, txs[i].nsRWS);
    CommittedMeans({}, DbOf(u), mono, txs[i].nsRWS);
    forall m, r | m in txs[i].nsRWS && r in m.rws.readSet
      ensures ReadOk(mono, Get(u, m.ns, r.key), r.version)
    {
      NotPendingUnaffected(t, n, done[..i], m.ns, r.key);
    }
  }

  // ---------------------------------------------------------------- exactness

  /** The reference: check, then apply, one transaction after the other. */
  function Serially(t: Table, n: nat, mono: bool, txs: seq<Transaction>): (Table, seq<Status>) {
    if txs == [] then (t, [])
    else
      var before := Serially(t, n, mono, txs[..|txs| - 1]);
      SerialStep(before.0, before.1, n, mono, txs[|txs| - 1])
  }

  function SerialStep(u: Table, vs: seq<Status>, n: nat, mono: bool, tx: Transaction): (Table, seq<Status>) {
    var v := TxVerdict({}, DbOf(u), mono, tx.nsRWS);
    var r := if v.Committed? then InsertAll(u, TxWrites(n, tx, tx.nsRWS)) else Ok(u);
    (if r.Ok? then r.value else u, vs + [v])
  }

  /** The version a read carries is that of a row of the table it was simulated on. */
  ghost predicate SnapshotDerived(t: Table, mono: bool, ns: string, r: KVRead) {
    r.version.None?
    || exists x :: x in t && IsKey(x, ns, r.key) && Simulation.ReadOf(mono, r.key, Some(x)) == r
  }

  predicate ColonFree(s: string) { ':' !in s }

  /** Where the two committers agree: reads come from snapshots of the store, the block
      deletes nothing, and namespaces hold no colon. */
  ghost predicate Comparable(t: Table, mono: bool, txs: seq<Transaction>) {
    forall tx, m | tx in txs && m in tx.nsRWS ::
      && ColonFree(m.ns)
      && (forall r | r in m.rws.readSet :: SnapshotDerived(t, mono, m.ns, r))
      && (forall w | w in m.rws.writeSet :: !w.isDelete)
  }

  /** Colon-free namespaces make the pending key injective. */
  lemma PendingKeyInjective(ns1: string, k1: string, ns2: string, k2: string)
    requires ColonFree(ns1) && ColonFree(ns2) && PendingKey(ns1, k1) == PendingKey(ns2, k2)
    ensures ns1 == ns2 && k1 == k2
  {
    Keys.JoinInjective(':', ns1, k1, ns2, k2);
  }

  lemma {:induction false} BlockWritesFrom(n: nat, done: seq<Transaction>, w: Write)
    requires w in BlockWrites(n, done)
    ensures exists tx, m, x :: tx in done && m in tx.nsRWS && x in m.rws.writeSet
                            && m.ns == w.ns && x.key == w.key && x.isDelete == w.isDelete
  {
    var p, tx := done[..|done| - 1], done[|done| - 1];
    if w in BlockWrites(n, p) {
      BlockWritesFrom(n, p, w);
      var tx', m, x :| tx' in p && m in tx'.nsRWS && x in m.rws.writeSet
                    && m.ns == w.ns && x.key == w.key && x.isDelete == w.isDelete;
      assert tx' in done;
    } else {
      TxWritesFrom(n, tx, tx.nsRWS, w);
    }
  }

  lemma {:induction false} TxWritesFrom(n: nat, tx: Transaction, s: seq<NsReadWriteSet>, w: Write)
    requires w in TxWrites(n, tx, s)
    ensures exists m, x :: m in s && x in m.rws.writeSet && m.ns == w.ns && x.key == w.key && x.isDelete == w.isDelete
  {
    var p, last := s[..|s| - 1], s[|s| - 1];
    if w in TxWrites(n, tx, p) {
      TxWritesFrom(n, tx, p, w);
      var m, x :| m in p && x in m.rws.writeSet && m.ns == w.ns && x.key == w.key && x.isDelete == w.isDelete;
      assert m in s;
    } else {
      NsWritesFrom(n, tx, last.ns, last.rws.writeSet, w);
    }
  }

  lemma {:induction false} NsWritesFrom(n: nat, tx: Transaction, ns: string, ws: seq<KVWrite>, w: Write)
    requires w in NsWrites(n, tx, ns, ws)
    ensures exists x :: x in ws && x.key == w.key && x.isDelete == w.isDelete
  {
    var p, last := ws[..|ws| - 1], ws[|ws| - 1];
    if w in NsWrites(n, tx, ns, p) {
      NsWritesFrom(n, tx, ns, p, w);
      var x :| x in p && x.key == w.key && x.isDelete == w.isDelete;
      assert x in ws;
    } else {
      assert last in ws;
    }
  }

  lemma NewBeatsOld(t: Table, u: Table, x: WriteRecord, r: WriteRecord)
    requires Dense(u) && t <= u && x in t && r in u && r !in t && SameKey(x, r)
    ensures x.version < r.version
  {
    assert u == t + u[|t|..] && r in u[|t|..];
    var i :| 0 <= i < |t| && t[i] == x;
    var j :| |t| <= j < |u| && u[j] == r;
    VersionsIncrease(u, i, j);
  }

  /** After a new block has written a key, the latest record of the key is one of its rows. */
  lemma WrittenIsNew(t: Table, n: nat, ws: seq<Write>, w: Write)
    requires TableInv(t) && InsertAll(t, ws).Ok? && w in ws
    requires forall x | x in ws :: x.block == n
    requires forall r | r in t :: r.blockNum < n
    ensures var g := Get(InsertAll(t, ws).value, w.ns, w.key);
            && g.Some? && g.value !in t && g.value.blockNum == n
            && (forall x | x in t && IsKey(x, w.ns, w.key) :: x.version < g.value.version)
            && exists x :: x in ws && IsRow(g.value, x) && SameContent(g.value, x)
  {
    var u := InsertAll(t, ws).value;
    InsertAllKeepsInv(t, ws);
    TimeTravel.InsertedArePresent(t, ws);
    assert TimeTravel.Present(u, w);
    var r :| r in u && IsRow(r, w);
    var g := Get(u, w.ns, w.key).value;
    forall x | x in t && IsKey(x, w.ns, w.key) ensures x.version < r.version {
      NewBeatsOld(t, u, x, r);
    }
    TimeTravel.RowsComeFromWrites(t, ws, g);
  }

  /** A read that the pending set flags also fails against the store with the writes applied. */
  lemma PendingReadFails(t: Table, n: nat, mono: bool, done: seq<Transaction>, m: NsReadWriteSet, r: KVRead)
    requires TableInv(t) && (forall x | x in t :: x.blockNum < n) && InsertAll(t, BlockWrites(n, done)).Ok?
    requires Comparable(t, mono, done) && ColonFree(m.ns) && SnapshotDerived(t, mono, m.ns, r)
    requires PendingKey(m.ns, r.key) in PendingAfter(done)
    ensures !ReadOk(mono, Get(InsertAll(t, BlockWrites(n, done)).value, m.ns, r.key), r.version)
  {
    var ws := BlockWrites(n, done);
    PendingIsWritten(n, done);
    var w :| w in ws && PendingKey(w.ns, w.key) == PendingKey(m.ns, r.key);
    BlockWritesFrom(n, done, w);
    PendingKeyInjective(w.ns, w.key, m.ns, r.key);
    WrittenIsNew(t, n, ws, w);
    var g := Get(InsertAll(t, ws).value, m.ns, r.key).value;
    var x :| x in ws && IsRow(g, x) && SameContent(g, x);
    BlockWritesFrom(n, done, x);
  }

  /** For snapshot-derived reads, no deletes and colon-free namespaces, the one-pass
      verdict of each transaction is the verdict of the one-by-one check, in both modes. */
  lemma VerdictsCoincide(t: Table, n: nat, mono: bool, codes: map<Status, int>, txs: seq<Transaction>, i: nat)
    requires TableInv(t) && (forall x | x in t :: x.blockNum < n) && Comparable(t, mono, txs)
    requires var done := Validated(DbOf(t), mono, codes, txs).done;
             i < |done| && InsertAll(t, BlockWrites(n, done[..i])).Ok?
    ensures var done := Validated(DbOf(t), mono, codes, txs).done;
            done[i].status == TxVerdict({}, DbOf(InsertAll(t, BlockWrites(n, done[..i])).value), mono, txs[i].nsRWS)
  {
    var done := Validated(DbOf(t), mono, codes, txs).done;
    ValidatedAt(DbOf(t), mono, codes, txs, i);
    ComparableDone(t, mono, codes, txs, done, i);
    assert txs[i] in txs;
    SameVerdict(t, n, mono, txs, done[..i], txs[i]);
  }

  lemma ComparableDone(t: Table, mono: bool, codes: map<Status, int>,
                       txs: seq<Transaction>, done: seq<Transaction>, i: nat)
    requires Comparable(t, mono, txs) && done == Validated(DbOf(t), mono, codes, txs).done && i <= |done|
    ensures Comparable(t, mono, done[..i])
  {
    forall tx | tx in done[..i] ensures exists x :: x in txs && x.nsRWS == tx.nsRWS {
      var k :| 0 <= k < i && done[k] == tx;
      ValidatedAt(DbOf(t), mono, codes, txs, k);
      assert txs[k] in txs;
    }
  }

  /** Against the pending keys of `prior` and the table before them, or against the table
      they leave: one verdict. */
  lemma SameVerdict(t: Table, n: nat, mono: bool, txs: seq<Transaction>, prior: seq<Transaction>, tx: Transaction)
    requires TableInv(t) && (forall x | x in t :: x.blockNum < n) && InsertAll(t, BlockWrites(n, prior)).Ok?
    requires Comparable(t, mono, txs) && Comparable(t, mono, prior) && tx in txs
    ensures TxVerdict(PendingAfter(prior), DbOf(t), mono, tx.nsRWS)
         == TxVerdict({}, DbOf(InsertAll(t, BlockWrites(n, prior)).value), mono, tx.nsRWS)
  {
    var u := InsertAll(t, BlockWrites(n, prior)).value;
    CommittedMeans(PendingAfter(prior), DbOf(t), mono, tx.nsRWS);
    CommittedMeans({}, DbOf(u), mono, tx.nsRWS);
    forall m, r | m in tx.nsRWS && r in m.rws.readSet
      ensures (PendingKey(m.ns, r.key) !in PendingAfter(prior) && ReadOk(mono, Get(t, m.ns, r.key), r.version))
         <==> ReadOk(mono, Get(u, m.ns, r.key), r.version)
    {
      if PendingKey(m.ns, r.key) in PendingAfter(prior) {
        PendingReadFails(t, n, mono, prior, m, r);
      } else {
        NotPendingUnaffected(t, n, prior, m.ns, r.key);
      }
    }
  }

  function Statuses(done: seq<Transaction>): seq<Status> {
    if done == [] then [] else Statuses(done[..|done| - 1]) + [done[|done| - 1].status]
  }

  /** Whole blocks, and every prefix: the two committers give the same verdicts and leave
      the same store. */
  lemma BlockAtOnceIsOneByOne(t: Table, n: nat, mono: bool, codes: map<Status, int>,
                              txs: seq<Transaction>, done: seq<Transaction>, i: nat)
    requires TableInv(t) && (forall x | x in t :: x.blockNum < n) && Comparable(t, mono, txs)
    requires done == Validated(DbOf(t), mono, codes, txs).done
    requires i <= |done| && InsertAll(t, BlockWrites(n, done[..i])).Ok?
    ensures Serially(t, n, mono, txs[..i]) == (InsertAll(t, BlockWrites(n, done[..i])).value, Statuses(done[..i]))
  {
    forall k | 0 <= k < |done| ensures StepAgrees(t, n, mono, txs, done, k) {
      if InsertAll(t, BlockWrites(n, done[..k])).Ok? { NextCoincides(t, n, mono, codes, txs, done, k); }
    }
    SameStepsAgree(t, n, mono, txs, done, i);
  }

  /** The check of `tx` on the table gives the status `d` has, and the same writes. */
  ghost predicate SameStep(u: Table, n: nat, mono: bool, tx: Transaction, d: Transaction) {
    && d.status == TxVerdict({}, DbOf(u), mono, tx.nsRWS)
    && TxWrites(n, tx, tx.nsRWS) == TxWrites(n, d, d.nsRWS)
  }

  ghost predicate StepAgrees(t: Table, n: nat, mono: bool, txs: seq<Transaction>, done: seq<Transaction>, k: nat)
    requires k < |done| <= |txs|
  {
    var r := InsertAll(t, BlockWrites(n, done[..k]));
    r.Ok? ==> SameStep(r.value, n, mono, txs[k], done[k])
  }

  /** After the first `i` transactions both committers have come to the same point. */
  ghost predicate AgreeAt(t: Table, n: nat, mono: bool, txs: seq<Transaction>, done: seq<Transaction>, i: nat)
    requires i <= |done| <= |txs|
  {
    var r := InsertAll(t, BlockWrites(n, done[..i]));
    r.Ok? ==> Serially(t, n, mono, txs[..i]) == (r.value, Statuses(done[..i]))
  }

  lemma {:induction false} SameStepsAgree(t: Table, n: nat, mono: bool,
                                          txs: seq<Transaction>, done: seq<Transaction>, i: nat)
    requires i <= |done| <= |txs| && forall k | 0 <= k < |done| :: StepAgrees(t, n, mono, txs, done, k)
    ensures AgreeAt(t, n, mono, txs, done, i)
  {
    if i == 0 {
      assert txs[..0] == [] && done[..0] == [];
    } else {
      SameStepsAgree(t, n, mono, txs, done, i - 1);
      assert StepAgrees(t, n, mono, txs, done, i - 1);
      AgreeNext(t, n, mono, txs, done, i - 1);
    }
  }

  lemma AgreeNext(t: Table, n: nat, mono: bool, txs: seq<Transaction>, done: seq<Transaction>, i: nat)
    requires i < |done| <= |txs| && AgreeAt(t, n, mono, txs, done, i) && StepAgrees(t, n, mono, txs, done, i)
    ensures AgreeAt(t, n, mono, txs, done, i + 1)
  {
    InsertUpTo(t, n, done, i + 1);
    var r := InsertAll(t, BlockWrites(n, done[..i]));
    if InsertAll(t, BlockWrites(n, done[..i + 1])).Ok? { OneMore(t, n, mono, txs, done, i, r.value); }
  }

  /** One step of both committers, from a common table. */
  lemma OneMore(t: Table, n: nat, mono: bool, txs: seq<Transaction>, done: seq<Transaction>, i: nat, u: Table)
    requires i < |done| <= |txs| && Serially(t, n, mono, txs[..i]) == (u, Statuses(done[..i]))
    requires SameStep(u, n, mono, txs[i], done[i])
    requires done[i].Valid() ==> InsertAll(u, TxWrites(n, done[i], done[i].nsRWS)).Ok?
    ensures Serially(t, n, mono, txs[..i + 1])
         == (if done[i].Valid() then InsertAll(u, TxWrites(n, done[i], done[i].nsRWS)).value else u,
             Statuses(done[..i + 1]))
  {
    assert txs[..i + 1][..i] == txs[..i] && done[..i + 1][..i] == done[..i];
    assert Serially(t, n, mono, txs[..i + 1]) == SerialStep(u, Statuses(done[..i]), n, mono, txs[i]);
  }

  lemma NextCoincides(t: Table, n: nat, mono: bool, codes: map<Status, int>,
                      txs: seq<Transaction>, done: seq<Transaction>, i: nat)
    requires TableInv(t) && (forall x | x in t :: x.blockNum < n) && Comparable(t, mono, txs)
    requires done == Validated(DbOf(t), mono, codes, txs).done
    requires i < |done| && InsertAll(t, BlockWrites(n, done[..i])).Ok?
    ensures done[i].status == TxVerdict({}, DbOf(InsertAll(t, BlockWrites(n, done[..i])).value), mono, txs[i].nsRWS)
    ensures TxWrites(n, txs[i], txs[i].nsRWS) == TxWrites(n, done[i], done[i].nsRWS)
  {
    VerdictsCoincide(t, n, mono, codes, txs, i);
    ValidatedAt(DbOf(t), mono, codes, txs, i);
    SameTxWrites(n, txs[i], done[i], txs[i].nsRWS);
  }

  lemma InsertUpTo(t: Table, n: nat, done: seq<Transaction>, i: nat)
    requires 0 < i <= |done|
    ensures InsertAll(t, BlockWrites(n, done[..i]))
         == match InsertAll(t, BlockWrites(n, done[..i - 1]))
            case Err => Err
            case Ok(u) =>
              if done[i - 1].Valid() then InsertAll(u, TxWrites(n, done[i - 1], done[i - 1].nsRWS)) else Ok(u)
  {
    assert done[..i][..i - 1] == done[..i - 1];
    InsertAllSplit(t, BlockWrites(n, done[..i - 1]),
                   if done[i - 1].Valid() then TxWrites(n, done[i - 1], done[i - 1].nsRWS) else []);
  }

  lemma {:induction false} SameTxWrites(n: nat, a: Transaction, b: Transaction, s: seq<NsReadWriteSet>)
    requires a.number == b.number && a.id == b.id
    ensures TxWrites(n, a, s) == TxWrites(n, b, s)
  {
    if s != [] {
      SameTxWrites(n, a, b, s[..|s| - 1]);
      SameNsWrites(n, a, b, s[|s| - 1].ns, s[|s| - 1].rws.writeSet);
    }
  }

  lemma {:induction false} SameNsWrites(n: nat, a: Transaction, b: Transaction, ns: string, ws: seq<KVWrite>)
    requires a.number == b.number && a.id == b.id
    ensures NsWrites(n, a, ns, ws) == NsWrites(n, b, ns, ws)
  {
    if ws != [] { SameNsWrites(n, a, b, ns, ws[..|ws| - 1]); }
  }

  // --------------------------------------------------- well-formed blocks apply

  /** Each namespace once, and each key once within it. */
  ghost predicate DistinctTx(s: seq<NsReadWriteSet>) {
    && (forall i, j | 0 <= i < j < |s| :: s[i].ns != s[j].ns)
    && (forall m | m in s :: DistinctWrites(m.rws.writeSet))
  }

  ghost predicate DistinctWrites(ws: seq<KVWrite>) {
    forall i, j | 0 <= i < j < |ws| :: ws[i].key != ws[j].key
  }

  /** Positions increase and no transaction writes a key twice: what a parser and a
      simulation produce. */
  ghost predicate WellFormed(txs: seq<Transaction>) {
    TimeTravel.AscendingTxs(txs) && forall tx | tx in txs :: DistinctTx(tx.nsRWS)
  }

  predicate SameSlot(a: Write, b: Write) {
    a.ns == b.ns && a.key == b.key && a.block == b.block && a.tx == b.tx
  }

  ghost predicate DistinctSlots(ws: seq<Write>) {
    forall i, j | 0 <= i < j < |ws| :: !SameSlot(ws[i], ws[j])
  }

  lemma DistinctSlotsConcat(a: seq<Write>, b: seq<Write>)
    requires DistinctSlots(a) && DistinctSlots(b) && forall x, y | x in a && y in b :: !SameSlot(x, y)
    ensures DistinctSlots(a + b)
  {
    assert forall i | 0 <= i < |a| :: (a + b)[i] in a;
    assert forall j | |a| <= j < |a + b| :: (a + b)[j] == b[j - |a|] && (a + b)[j] in b;
  }

  /** Writes to slots that are all different and not in the table never conflict. */
  lemma {:induction false} FreshWritesInsert(t: Table, ws: seq<Write>)
    requires DistinctSlots(ws) && forall r, w | r in t && w in ws :: !IsRow(r, w)
    ensures InsertAll(t, ws).Ok?
  {
    if ws != [] {
      var p, w := ws[..|ws| - 1], ws[|ws| - 1];
      FreshWritesInsert(t, p);
      var u := InsertAll(t, p).value;
      forall r | r in u ensures !IsRow(r, w) {
        if r !in t { TimeTravel.RowsComeFromWrites(t, p, r); }
      }
    }
  }

  lemma {:induction false} NsWritesKeys(n: nat, tx: Transaction, ns: string, ws: seq<KVWrite>)
    ensures |NsWrites(n, tx, ns, ws)| == |ws|
    ensures forall i | 0 <= i < |ws| :: NsWrites(n, tx, ns, ws)[i].key == ws[i].key
  {
    if ws != [] { NsWritesKeys(n, tx, ns, ws[..|ws| - 1]); }
  }

  lemma {:induction false} TxWritesDistinct(n: nat, tx: Transaction, s: seq<NsReadWriteSet>)
    requires DistinctTx(s)
    ensures DistinctSlots(TxWrites(n, tx, s))
  {
    if s != [] {
      var p, last := s[..|s| - 1], s[|s| - 1];
      TxWritesDistinct(n, tx, p);
      NsWritesKeys(n, tx, last.ns, last.rws.writeSet);
      assert last in s;
      forall x | x in TxWrites(n, tx, p) ensures x.ns != last.ns {
        TxWritesFrom(n, tx, p, x);
      }
      DistinctSlotsConcat(TxWrites(n, tx, p), NsWrites(n, tx, last.ns, last.rws.writeSet));
    }
  }

  lemma {:induction false} BlockWritesDistinct(n: nat, txs: seq<Transaction>)
    requires WellFormed(txs)
    ensures DistinctSlots(BlockWrites(n, txs))
  {
    if txs != [] {
      var p, tx := txs[..|txs| - 1], txs[|txs| - 1];
      assert tx in txs && forall x | x in p :: x in txs;
      BlockWritesDistinct(n, p);
      TxWritesDistinct(n, tx, tx.nsRWS);
      TimeTravel.BlockWritesOrdered(n, p);
      DistinctSlotsConcat(BlockWrites(n, p), if tx.Valid() then TxWrites(n, tx, tx.nsRWS) else []);
    }
  }

  lemma DoneWellFormed(db: Getter, mono: bool, codes: map<Status, int>, txs: seq<Transaction>, i: nat)
    requires WellFormed(txs) && i <= |Validated(db, mono, codes, txs).done|
    ensures WellFormed(Validated(db, mono, codes, txs).done[..i])
  {
    var done := Validated(db, mono, codes, txs).done;
    forall k | 0 <= k < i ensures done[k].number == txs[k].number && done[k].nsRWS == txs[k].nsRWS && txs[k] in txs {
      ValidatedAt(db, mono, codes, txs, k);
    }
  }

  /** The committed transactions of a well-formed block can always be applied: a table of
      older rows takes every prefix of them. */
  lemma EarlierOnesApply(t: Table, n: nat, db: Getter, mono: bool, codes: map<Status, int>,
                         txs: seq<Transaction>, i: nat)
    requires (forall x | x in t :: x.blockNum < n) && WellFormed(txs) && i <= |Validated(db, mono, codes, txs).done|
    ensures InsertAll(t, BlockWrites(n, Validated(db, mono, codes, txs).done[..i])).Ok?
  {
    var prior := Validated(db, mono, codes, txs).done[..i];
    DoneWellFormed(db, mono, codes, txs, i);
    BlockWritesDistinct(n, prior);
    FreshWritesInsert(t, BlockWrites(n, prior));
  }

  /** The two committers on a whole well-formed block. */
  lemma WellFormedBlocksCoincide(t: Table, n: nat, mono: bool, codes: map<Status, int>, txs: seq<Transaction>)
    requires TableInv(t) && (forall x | x in t :: x.blockNum < n) && Comparable(t, mono, txs) && WellFormed(txs)
    ensures var done := Validated(DbOf(t), mono, codes, txs).done;
            var r := InsertAll(t, BlockWrites(n, done));
            r.Ok? && Serially(t, n, mono, txs[..|done|]) == (r.value, Statuses(done))
  {
    var done := Validated(DbOf(t), mono, codes, txs).done;
    assert done[..|done|] == done;
    EarlierOnesApply(t, n, DbOf(t), mono, codes, txs, |done|);
    BlockAtOnceIsOneByOne(t, n, mono, codes, txs, done, |done|);
  }

  // ------------------------------------------- why exactness needs its conditions

  /** A committed blind write `w` followed by an up-to-date read of a key that is not a
      tombstone: the one-pass check refuses the reader exactly when the pending keys are
      equal, the one-by-one check exactly when the writer left a live record of that key.
      They differ for colliding names and for deletes of absent keys. */
  lemma ExactnessBoundary(t: Table, n: nat, mono: bool, a: Transaction, ns1: string, w: KVWrite,
                          ns2: string, k2: string)
    requires TableInv(t) && (forall x | x in t :: x.blockNum < n)
    requires a.Valid() && a.nsRWS == [NsReadWriteSet(ns1, ReadWriteSet([], [w]))]
    requires Get(t, ns2, k2) == Live(Get(t, ns2, k2))
    ensures var b := [NsReadWriteSet(ns2, ReadWriteSet([Simulation.ReadOf(mono, k2, Get(t, ns2, k2))], []))];
            var u := InsertAll(t, BlockWrites(n, [a]));
            && (TxVerdict(PendingAfter([a]), DbOf(t), mono, b).Committed?
                <==> PendingKey(ns1, w.key) != PendingKey(ns2, k2))
            && u.Ok?
            && (TxVerdict({}, DbOf(u.value), mono, b).Committed?
                <==> ns1 != ns2 || w.key != k2 || (w.isDelete && Get(t, ns2, k2).None?))
  {
    var r := Simulation.ReadOf(mono, k2, Get(t, ns2, k2));
    var x := Write(ns1, w.key, n, a.number, w.value, w.isDelete, a.id);
    SingleWrite(n, a, ns1, w);
    PendingIsWritten(n, [a]);
    assert KeysOf([x]) == {PendingKey(ns1, w.key)};
    OneReadVerdict(PendingAfter([a]), DbOf(t), mono, ns2, r);
    VerdictAfterInsert(t, n, mono, x, ns2, k2);
  }

  lemma OneReadVerdict(pending: set<string>, db: Getter, mono: bool, ns: string, r: KVRead)
    ensures TxVerdict(pending, db, mono, [NsReadWriteSet(ns, ReadWriteSet([r], []))]).Committed?
       <==> PendingKey(ns, r.key) !in pending && db(ns, r.key).Ok? && ReadOk(mono, db(ns, r.key).value, r.version)
  {
    var m := NsReadWriteSet(ns, ReadWriteSet([r], []));
    CommittedMeans(pending, db, mono, [m]);
    assert m in [m] && r in m.rws.readSet;
  }

  lemma VerdictAfterInsert(t: Table, n: nat, mono: bool, x: Write, ns: string, k: string)
    requires TableInv(t) && (forall r | r in t :: r.blockNum < n) && x.block == n
    requires Get(t, ns, k) == Live(Get(t, ns, k))
    ensures var r := Simulation.ReadOf(mono, k, Get(t, ns, k));
            && Insert(t, x).Ok?
            && (TxVerdict({}, DbOf(Insert(t, x).value), mono, [NsReadWriteSet(ns, ReadWriteSet([r], []))]).Committed?
                <==> x.ns != ns || x.key != k || (x.isDelete && Get(t, ns, k).None?))
  {
    assert FindRow(t, x).None?;
    InsertKeepsInv(t, x);
    TimeTravel.GetAppend(t, NewRow(t, x), ns, k);
    OneReadVerdict({}, DbOf(Insert(t, x).value), mono, ns, Simulation.ReadOf(mono, k, Get(t, ns, k)));
  }

  lemma SingleWrite(n: nat, a: Transaction, ns: string, w: KVWrite)
    requires a.Valid() && a.nsRWS == [NsReadWriteSet(ns, ReadWriteSet([], [w]))]
    ensures BlockWrites(n, [a]) == [Write(ns, w.key, n, a.number, w.value, w.isDelete, a.id)]
    ensures forall t: Table ::
              InsertAll(t, BlockWrites(n, [a]))
              == Insert(t, Write(ns, w.key, n, a.number, w.value, w.isDelete, a.id))
  {
    var x := Write(ns, w.key, n, a.number, w.value, w.isDelete, a.id);
    assert [a][..0] == [] && a.nsRWS[..0] == [] && [w][..0] == [] && [x][..0] == [];
    assert NsWrites(n, a, ns, [w]) == [x];
    assert TxWrites(n, a, a.nsRWS) == [] + [x];
    assert BlockWrites(n, [a]) == [] + TxWrites(n, a, a.nsRWS);
  }
}
