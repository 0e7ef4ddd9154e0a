/** The object that owns a channel's tables: UpdateWorldState runs its nested loops
    inside one SQL transaction and commits whole or not at all. */
module VersionedDb {
  import opened Types
  import opened WorldState

  class VersionedDB {
    var rows: Table
    var progress: Option<nat>

    ghost function Contents(): Store
      reads this
    {
      Store(rows, progress)
    }

    constructor ()
      ensures Contents() == EmptyStore
    {
      rows, progress := [], None;
    }

    /** `sqlFails` says that some statement, or the final commit, returns an error;
        where it happens cannot be observed, since the transaction rolls back. */
    method UpdateWorldState(b: Block, sqlFails: bool) returns (ok: bool)
      modifies this
      ensures ok <==> !sqlFails && Update(old(Contents()), b).Ok?
      ensures Contents() == if ok then Update(old(Contents()), b).value else old(Contents())
    {
      var r := InsertBlock(rows, b);
      if r.Err? || sqlFails { return false; }
      rows := r.value;
      progress := Progress(progress, b.number);
      return true;
    }
  }

  // The three nested loops of the SQL transaction, the innermost first.

  method InsertNs(t: Table, block: nat, tx: Transaction, ns: string, ws: seq<KVWrite>) returns (r: Result<Table>)
    ensures r == InsertAll(t, NsWrites(block, tx, ns, ws))
  {
    var u := t;
    for k := 0 to |ws|
      invariant InsertAll(t, NsWrites(block, tx, ns, ws[..k])) == Ok(u)
    {
      NextWrite(t, block, tx, ns, ws, k, u);
      var v := Insert(u, Write(ns, ws[k].key, block, tx.number, ws[k].value, ws[k].isDelete, tx.id));
      if v.Err? {
        NsWritesPrefix(block, tx, ns, ws, k + 1);
        ErrStays(t, NsWrites(block, tx, ns, ws[..k + 1]), NsWrites(block, tx, ns, ws));
        return Err;
      }
      u := v.value;
    }
    assert ws[..|ws|] == ws;
    return Ok(u);
  }

  method InsertTx(t: Table, block: nat, tx: Transaction) returns (r: Result<Table>)
    ensures r == InsertAll(t, TxWrites(block, tx, tx.nsRWS))
  {
    var u := t;
    for j := 0 to |tx.nsRWS|
      invariant InsertAll(t, TxWrites(block, tx, tx.nsRWS[..j])) == Ok(u)
    {
      NextNs(t, block, tx, j, u);
      var v := InsertNs(u, block, tx, tx.nsRWS[j].ns, tx.nsRWS[j].rws.writeSet);
      if v.Err? {
        TxWritesPrefix(block, tx, tx.nsRWS, j + 1);
        ErrStays(t, TxWrites(block, tx, tx.nsRWS[..j + 1]), TxWrites(block, tx, tx.nsRWS));
        return Err;
      }
      u := v.value;
    }
    assert tx.nsRWS[..|tx.nsRWS|] == tx.nsRWS;
    return Ok(u);
  }

  method InsertBlock(t: Table, b: Block) returns (r: Result<Table>)
    ensures r == InsertAll(t, BlockWrites(b.number, b.txs))
  {
    var u := t;
    for i := 0 to |b.txs|
      invariant InsertAll(t, BlockWrites(b.number, b.txs[..i])) == Ok(u)
    {
      NextTx(t, b, i, u);
      if !b.txs[i].Valid() { continue; }
      var v := InsertTx(u, b.number, b.txs[i]);
      if v.Err? {
        BlockWritesPrefix(b.number, b.txs, i + 1);
        ErrStays(t, BlockWrites(b.number, b.txs[..i + 1]), BlockWrites(b.number, b.txs));
        return Err;
      }
      u := v.value;
    }
    assert b.txs[..|b.txs|] == b.txs;
    return Ok(u);
  }

  // One more turn of each loop.

  lemma NextWrite(t: Table, block: nat, tx: Transaction, ns: string, ws: seq<KVWrite>, k: nat, u: Table)
    requires k < |ws| && InsertAll(t, NsWrites(block, tx, ns, ws[..k])) == Ok(u)
    ensures InsertAll(t, NsWrites(block, tx, ns, ws[..k + 1]))
         == Insert(u, Write(ns, ws[k].key, block, tx.number, ws[k].value, ws[k].isDelete, tx.id))
  {
    assert ws[..k + 1][..k] == ws[..k];
  }

  lemma NextNs(t: Table, block: nat, tx: Transaction, j: nat, u: Table)
    requires j < |tx.nsRWS| && InsertAll(t, TxWrites(block, tx, tx.nsRWS[..j])) == Ok(u)
    ensures InsertAll(t, TxWrites(block, tx, tx.nsRWS[..j + 1]))
         == InsertAll(u, NsWrites(block, tx, tx.nsRWS[j].ns, tx.nsRWS[j].rws.writeSet))
  {
    assert tx.nsRWS[..j + 1][..j] == tx.nsRWS[..j];
    InsertAllSplit(t, TxWrites(block, tx, tx.nsRWS[..j]),
                   NsWrites(block, tx, tx.nsRWS[j].ns, tx.nsRWS[j].rws.writeSet));
  }

  lemma NextTx(t: Table, b: Block, i: nat, u: Table)
    requires i < |b.txs| && InsertAll(t, BlockWrites(b.number, b.txs[..i])) == Ok(u)
    ensures InsertAll(t, BlockWrites(b.number, b.txs[..i + 1]))
         == if b.txs[i].Valid() then InsertAll(u, TxWrites(b.number, b.txs[i], b.txs[i].nsRWS)) else Ok(u)
  {
    assert b.txs[..i + 1][..i] == b.txs[..i];
    InsertAllSplit(t, BlockWrites(b.number, b.txs[..i]),
                   if b.txs[i].Valid() then TxWrites(b.number, b.txs[i], b.txs[i].nsRWS) else []);
  }

  /** A conflicting write dooms the whole block, whatever follows it. */
  lemma ErrStays(t: Table, a: seq<Write>, all: seq<Write>)
    requires a <= all && InsertAll(t, a).Err?
    ensures InsertAll(t, all).Err?
  {
    InsertAllSplit(t, a, all[|a|..]);
    assert a + all[|a|..] == all;
  }

  // The writes of a prefix are a prefix of the writes.

  lemma {:induction false} NsWritesPrefix(block: nat, tx: Transaction, ns: string, ws: seq<KVWrite>, k: nat)
    requires k <= |ws|
    ensures NsWrites(block, tx, ns, ws[..k]) <= NsWrites(block, tx, ns, ws)
    decreases |ws|
  {
    if k < |ws| {
      NsWritesPrefix(block, tx, ns, ws[..|ws| - 1], k);
      assert ws[..|ws| - 1][..k] == ws[..k];
    } else {
      assert ws[..k] == ws;
    }
  }

  lemma {:induction false} TxWritesPrefix(block: nat, tx: Transaction, s: seq<NsReadWriteSet>, k: nat)
    requires k <= |s|
    ensures TxWrites(block, tx, s[..k]) <= TxWrites(block, tx, s)
    decreases |s|
  {
    if k < |s| {
      TxWritesPrefix(block, tx, s[..|s| - 1], k);
      assert s[..|s| - 1][..k] == s[..k];
    } else {
      assert s[..k] == s;
    }
  }

  lemma {:induction false} BlockWritesPrefix(block: nat, txs: seq<Transaction>, k: nat)
    requires k <= |txs|
    ensures BlockWrites(block, txs[..k]) <= BlockWrites(block, txs)
    decreases |txs|
  {
    if k < |txs| {
      BlockWritesPrefix(block, txs[..|txs| - 1], k);
      assert txs[..|txs| - 1][..k] == txs[..k];
    } else {
      assert txs[..k] == txs;
    }
  }
}
