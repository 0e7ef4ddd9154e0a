/** The insert-only versioned table of state/db.go.  A table is the sequence of its
    rows in insertion order; no query depends on that order other than through the
    `version`, `version_block` and `version_tx` columns. */
module WorldState {
  import opened Types

  type Table = seq<WriteRecord>

  /** A write of a valid transaction together with its position in the chain:
      the arguments of one INSERT. */
  datatype Write = Write(
    ns: string, key: string, block: nat, tx: nat, value: Bytes, isDelete: bool, txId: string)

  predicate IsKey(r: WriteRecord, ns: string, key: string) { r.ns == ns && r.key == key }

  predicate SameKey(a: WriteRecord, b: WriteRecord) { IsKey(a, b.ns, b.key) }

  /** The primary key, for one channel. */
  predicate IsRow(r: WriteRecord, w: Write) {
    IsKey(r, w.ns, w.key) && r.blockNum == w.block && r.txNum == w.tx
  }

  predicate SameContent(r: WriteRecord, w: Write) {
    r.value == w.value && r.isDelete == w.isDelete && r.txId == w.txId
  }

  // ---------------------------------------------------------------- inserting

  /** COALESCE(MAX(version) + 1, 0) over the rows of one key. */
  function NextVersion(t: Table, ns: string, key: string): (n: nat)
    ensures forall r | r in t && IsKey(r, ns, key) :: r.version < n
    ensures n > 0 ==> exists r :: r in t && IsKey(r, ns, key) && r.version == n - 1
  {
    if t == [] then 0
    else
      var last := t[|t| - 1];
      var n := NextVersion(t[..|t| - 1], ns, key);
      assert t == t[..|t| - 1] + [last];
      if IsKey(last, ns, key) && last.version >= n then last.version + 1 else n
  }

  /** The row with the primary key of `w`, if there is one. */
  function FindRow(t: Table, w: Write): (r: Option<WriteRecord>)
    ensures r.Some? ==> r.value in t && IsRow(r.value, w)
    ensures r.None? ==> forall x | x in t :: !IsRow(x, w)
  {
    if t == [] then None
    else if IsRow(t[|t| - 1], w) then Some(t[|t| - 1])
    else FindRow(t[..|t| - 1], w)
  }

  function NewRow(t: Table, w: Write): WriteRecord {
    WriteRecord(w.ns, w.key, w.block, w.tx, NextVersion(t, w.ns, w.key), w.value, w.isDelete, w.txId)
  }

  /** One INSERT ... ON CONFLICT DO NOTHING followed by the comparison with the row
      that was already there; `Err` when that row differs. */
  function Insert(t: Table, w: Write): Result<Table> {
    match FindRow(t, w)
    case None => Ok(t + [NewRow(t, w)])
    case Some(r) => if SameContent(r, w) then Ok(t) else Err
  }

  function InsertAll(t: Table, ws: seq<Write>): Result<Table> {
    if ws == [] then Ok(t)
    else
      match InsertAll(t, ws[..|ws| - 1])
      case Err => Err
      case Ok(u) => Insert(u, ws[|ws| - 1])
  }

  function NsWrites(block: nat, tx: Transaction, ns: string, writes: seq<KVWrite>): (ws: seq<Write>)
    ensures forall w | w in ws :: w.block == block && w.tx == tx.number && w.ns == ns
  {
    if writes == [] then []
    else
      var w := writes[|writes| - 1];
      NsWrites(block, tx, ns, writes[..|writes| - 1])
      + [Write(ns, w.key, block, tx.number, w.value, w.isDelete, tx.id)]
  }

  function TxWrites(block: nat, tx: Transaction, nsRWS: seq<NsReadWriteSet>): (ws: seq<Write>)
    ensures forall w | w in ws :: w.block == block && w.tx == tx.number
  {
    if nsRWS == [] then []
    else
      var last := nsRWS[|nsRWS| - 1];
      TxWrites(block, tx, nsRWS[..|nsRWS| - 1]) + NsWrites(block, tx, last.ns, last.rws.writeSet)
  }

  /** The writes of the valid transactions of a block, in the order they are inserted. */
  function BlockWrites(block: nat, txs: seq<Transaction>): (ws: seq<Write>)
    ensures forall w | w in ws :: w.block == block
  {
    if txs == [] then []
    else
      var tx := txs[|txs| - 1];
      BlockWrites(block, txs[..|txs| - 1])
      + (if tx.Valid() then TxWrites(block, tx, tx.nsRWS) else [])
  }

  function AllWrites(blocks: seq<Block>): seq<Write> {
    if blocks == [] then []
    else
      var b := blocks[|blocks| - 1];
      AllWrites(blocks[..|blocks| - 1]) + BlockWrites(b.number, b.txs)
  }

  // ---------------------------------------------------------------- the store

  /** The two tables of one channel: the rows, and the highest block processed. */
  datatype Store = Store(rows: Table, progress: Option<nat>)

  const EmptyStore := Store([], None)

  /** BlockNumber: 0 also when nothing has been processed yet. */
  function BlockNumber(s: Store): nat {
    if s.progress.Some? then s.progress.value else 0
  }

  function Progress(p: Option<nat>, n: nat): Option<nat> {
    if p.Some? && p.value >= n then p else Some(n)
  }

  /** UpdateWorldState when no SQL statement fails: the whole block or nothing. */
  function Update(s: Store, b: Block): Result<Store> {
    match InsertAll(s.rows, BlockWrites(b.number, b.txs))
    case Err => Err
    case Ok(rows) => Ok(Store(rows, Progress(s.progress, b.number)))
  }

  // ------------------------------------------------------------------ queries

  predicate Visible(r: WriteRecord, ns: string, key: string, h: nat) {
    IsKey(r, ns, key) && r.blockNum <= h
  }

  /** GetAt: of the rows of the key at block height at most `h`, one with the highest version. */
  function GetAt(t: Table, ns: string, key: string, h: nat): (r: Option<WriteRecord>)
    ensures r.Some? ==>
      r.value in t && Visible(r.value, ns, key, h)
      && forall x | x in t && Visible(x, ns, key, h) :: x.version <= r.value.version
    ensures r.None? ==> forall x | x in t :: !Visible(x, ns, key, h)
  {
    if t == [] then None
    else
      var last := t[|t| - 1];
      var r := GetAt(t[..|t| - 1], ns, key, h);
      assert t == t[..|t| - 1] + [last];
      if Visible(last, ns, key, h) && (r.None? || last.version >= r.value.version) then Some(last) else r
  }

  /** Get: the row of the key with the highest version. */
  function Get(t: Table, ns: string, key: string): (r: Option<WriteRecord>)
    ensures r.Some? ==>
      r.value in t && IsKey(r.value, ns, key)
      && forall x | x in t && IsKey(x, ns, key) :: x.version <= r.value.version
    ensures r.None? ==> forall x | x in t :: !IsKey(x, ns, key)
  {
    if t == [] then None
    else
      var last := t[|t| - 1];
      var r := Get(t[..|t| - 1], ns, key);
      assert t == t[..|t| - 1] + [last];
      if IsKey(last, ns, key) && (r.None? || last.version >= r.value.version) then Some(last) else r
  }

  // ----------------------------------------------------- what every run keeps

  ghost predicate PkUnique(t: Table) {
    forall i, j | 0 <= i < j < |t| ::
      !(SameKey(t[i], t[j]) && t[i].blockNum == t[j].blockNum && t[i].txNum == t[j].txNum)
  }

  /** The number of rows of one key. */
  function Count(t: Table, ns: string, key: string): nat {
    if t == [] then 0
    else Count(t[..|t| - 1], ns, key) + (if IsKey(t[|t| - 1], ns, key) then 1 else 0)
  }

  /** The versions of each key are 0, 1, 2, ... in insertion order. */
  ghost predicate Dense(t: Table) {
    forall i | 0 <= i < |t| :: t[i].version == Count(t[..i], t[i].ns, t[i].key)
  }

  ghost predicate TableInv(t: Table) { PkUnique(t) && Dense(t) }

  lemma {:induction false} CountMonotone(t: Table, i: nat, j: nat, ns: string, key: string)
    requires i <= j <= |t|
    ensures Count(t[..i], ns, key) <= Count(t[..j], ns, key)
    decreases j
  {
    if i < j {
      assert t[..j][..j - 1] == t[..j - 1];
      CountMonotone(t, i, j - 1, ns, key);
    }
  }

  /** Later rows of a key carry higher versions. */
  lemma VersionsIncrease(t: Table, i: nat, j: nat)
    requires Dense(t) && i < j < |t| && SameKey(t[i], t[j])
    ensures t[i].version < t[j].version
  {
    assert t[..i + 1][..i] == t[..i];
    CountMonotone(t, i + 1, j, t[i].ns, t[i].key);
  }

  /** Two rows of the same key with the same version, or written by the same
      transaction, are the same row. */
  lemma RowIdentity(t: Table, a: WriteRecord, b: WriteRecord)
    requires TableInv(t) && a in t && b in t && SameKey(a, b)
    requires a.version == b.version || (a.blockNum == b.blockNum && a.txNum == b.txNum)
    ensures a == b
  {
    var i :| 0 <= i < |t| && t[i] == a;
    var j :| 0 <= j < |t| && t[j] == b;
    if i < j && a.version == b.version { VersionsIncrease(t, i, j); }
    if j < i && a.version == b.version { VersionsIncrease(t, j, i); }
  }

  lemma {:induction false} NextVersionIsCount(t: Table, ns: string, key: string)
    requires Dense(t)
    ensures NextVersion(t, ns, key) == Count(t, ns, key)
  {
    if t != [] {
      var p := t[..|t| - 1];
      assert forall i | 0 <= i < |p| :: p[..i] == t[..i];
      NextVersionIsCount(p, ns, key);
    }
  }

  lemma {:induction false} AppendDense(t: Table, r: WriteRecord)
    requires Dense(t) && r.version == Count(t, r.ns, r.key)
    ensures Dense(t + [r])
  {
    var u := t + [r];
    forall i | 0 <= i < |u| ensures u[i].version == Count(u[..i], u[i].ns, u[i].key) {
      assert u[..i] == t[..i];
      assert t[..|t|] == t;
    }
  }

  lemma {:induction false} InsertKeepsInv(t: Table, w: Write)
    requires TableInv(t) && Insert(t, w).Ok?
    ensures TableInv(Insert(t, w).value) && t <= Insert(t, w).value
  {
    if FindRow(t, w).None? {
      var r := NewRow(t, w);
      assert Dense(t + [r]) by {
        NextVersionIsCount(t, w.ns, w.key);
        AppendDense(t, r);
      }
      assert PkUnique(t + [r]) by { assert forall i | 0 <= i < |t| :: t[i] in t && !IsRow(t[i], w); }
    }
  }

  lemma {:induction false} InsertAllKeepsInv(t: Table, ws: seq<Write>)
    requires TableInv(t) && InsertAll(t, ws).Ok?
    ensures TableInv(InsertAll(t, ws).value) && t <= InsertAll(t, ws).value
  {
    if ws != [] {
      InsertAllKeepsInv(t, ws[..|ws| - 1]);
      InsertKeepsInv(InsertAll(t, ws[..|ws| - 1]).value, ws[|ws| - 1]);
    }
  }

  /** Inserting in two batches is inserting once. */
  lemma {:induction false} InsertAllSplit(t: Table, a: seq<Write>, b: seq<Write>)
    ensures InsertAll(t, a + b)
         == match InsertAll(t, a) case Err => Err case Ok(u) => InsertAll(u, b)
  {
    if b == [] {
      assert a + b == a;
    } else {
      assert (a + b)[..|a + b| - 1] == a + b[..|b| - 1];
      InsertAllSplit(t, a, b[..|b| - 1]);
    }
  }

  /** In every run of UpdateWorldState, with blocks in any order and any content, the
      versions of each key are exactly 0 .. n-1: one row per version, no gap. */
  lemma VersionsExactly(t: Table, ns: string, key: string, v: nat)
    requires TableInv(t)
    ensures (exists r :: r in t && IsKey(r, ns, key) && r.version == v) <==> v < Count(t, ns, key)
  {
    NextVersionIsCount(t, ns, key);
    if v < Count(t, ns, key) { VersionExists(t, ns, key, v); }
  }

  lemma {:induction false} VersionExists(t: Table, ns: string, key: string, v: nat)
    requires Dense(t) && v < Count(t, ns, key)
    ensures exists r :: r in t && IsKey(r, ns, key) && r.version == v
  {
    var p, last := t[..|t| - 1], t[|t| - 1];
    assert forall i | 0 <= i < |p| :: p[..i] == t[..i];
    if v < Count(p, ns, key) {
      VersionExists(p, ns, key, v);
      var r :| r in p && IsKey(r, ns, key) && r.version == v;
      assert r in t;
    } else {
      assert last in t && IsKey(last, ns, key) && last.version == v;
    }
  }
}
