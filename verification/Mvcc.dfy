/** The one-pass block validator of blocks/mvcc.go. */
module Mvcc {
  import opened Types

  const UNCUSTOMIZED_CODE := 99

  function CodeFor(codes: map<Status, int>, s: Status): int {
    if s in codes then codes[s] else UNCUSTOMIZED_CODE
  }

  /** The key under which an earlier write of the block is remembered. */
  function PendingKey(ns: string, key: string): string { ns + ":" + key }

  /** A tombstone has no live value: it counts as no record. */
  function Live(rec: Option<WriteRecord>): Option<WriteRecord> {
    if rec.Some? && rec.value.isDelete then None else rec
  }

  /** The state the read observed is the state `rec` reports. */
  predicate ReadOk(mono: bool, rec: Option<WriteRecord>, v: Option<Version>) {
    match Live(rec)
    case None => v.None?
    case Some(r) =>
      && v.Some?
      && (if mono then r.version == v.value.blockNum
          else r.blockNum == v.value.blockNum && r.txNum == v.value.txNum)
  }

  // ------------------------------------------------------------ specification

  /** The first read that fails decides: `Unknown` for a store error. */
  function FirstProblem(db: Getter, mono: bool, ns: string, rs: seq<KVRead>): (s: Status)
    ensures s.Committed? || s.MVCCConflict? || s.Unknown?
  {
    if rs == [] then Committed
    else
      match db(ns, rs[0].key)
      case Err => Unknown
      case Ok(rec) => if ReadOk(mono, rec, rs[0].version) then FirstProblem(db, mono, ns, rs[1..]) else MVCCConflict
  }

  predicate HitsPending(pending: set<string>, ns: string, rs: seq<KVRead>) {
    exists i | 0 <= i < |rs| :: PendingKey(ns, rs[i].key) in pending
  }

  function NsVerdict(pending: set<string>, db: Getter, mono: bool, ns: string, rs: seq<KVRead>): Status {
    if HitsPending(pending, ns, rs) then MVCCConflict else FirstProblem(db, mono, ns, rs)
  }

  function TxVerdict(pending: set<string>, db: Getter, mono: bool, s: seq<NsReadWriteSet>): (v: Status)
    ensures v.Committed? || v.MVCCConflict? || v.Unknown?
  {
    if s == [] then Committed
    else
      var v := NsVerdict(pending, db, mono, s[0].ns, s[0].rws.readSet);
      if v.Committed? then TxVerdict(pending, db, mono, s[1..]) else v
  }

  function NsPending(ns: string, ws: seq<KVWrite>): set<string> {
    set w | w in ws :: PendingKey(ns, w.key)
  }

  function TxPending(s: seq<NsReadWriteSet>): set<string> {
    if s == [] then {}
    else TxPending(s[..|s| - 1]) + NsPending(s[|s| - 1].ns, s[|s| - 1].rws.writeSet)
  }

  datatype Fault = NoFault | StoreFault | CodeFault

  /** The transactions that were given a status, in order, and what stopped the pass. */
  datatype Outcome = Outcome(done: seq<Transaction>, fault: Fault)

  function SetStatus(tx: Transaction, s: Status, code: int): Transaction { tx.(status := s, rawCode := code) }

  function ValidateFrom(pending: set<string>, db: Getter, mono: bool, codes: map<Status, int>,
                        txs: seq<Transaction>): (o: Outcome)
    ensures |o.done| <= |txs| && (o.fault.NoFault? ==> |o.done| == |txs|)
    ensures forall i | 0 <= i < |o.done| :: 0 <= o.done[i].rawCode < 256
    decreases txs
  {
    if txs == [] then Outcome([], NoFault)
    else
      var v := TxVerdict(pending, db, mono, txs[0].nsRWS);
      var code := CodeFor(codes, v);
      if code < 0 || code > 255 then Outcome([], CodeFault)
      else
        var tx := SetStatus(txs[0], v, code);
        if v.Unknown? then Outcome([tx], StoreFault)
        else
          var pending' := if v.Committed? then pending + TxPending(tx.nsRWS) else pending;
          var rest := ValidateFrom(pending', db, mono, codes, txs[1..]);
          Outcome([tx] + rest.done, rest.fault)
  }

  function Validated(db: Getter, mono: bool, codes: map<Status, int>, txs: seq<Transaction>): Outcome {
    ValidateFrom({}, db, mono, codes, txs)
  }

  /** The transactions `done` replace the first ones of `input`, and `filter` holds their
      codes, then zeros. */
  ghost predicate Written(now: seq<Transaction>, filter: seq<byte>, input: seq<Transaction>, done: seq<Transaction>) {
    && |now| == |filter| == |input| && |done| <= |input|
    && (forall k | 0 <= k < |now| :: now[k] == if k < |done| then done[k] else input[k])
    && (forall k | 0 <= k < |now| :: filter[k] as int == if k < |done| then done[k].rawCode else 0)
  }

  // ------------------------------------------------------------ the validator

  class MVCCValidator {
    const monotonicVersions: bool
    const codes: map<Status, int>
    var pendingWrites: set<string>

    constructor (monotonicVersions: bool, codes: map<Status, int>)
      ensures this.monotonicVersions == monotonicVersions && this.codes == codes
    {
      this.monotonicVersions, this.codes, pendingWrites := monotonicVersions, codes, {};
    }

    /** `db` is the committed state, which does not change while a block is validated.
        The filter holds the codes of the transactions that were given a status, then zeros. */
    method Validate(db: Getter, txs: array<Transaction>) returns (filter: seq<byte>, fault: Fault)
      modifies this, txs
      ensures var o := Validated(db, monotonicVersions, codes, old(txs[..]));
              fault == o.fault && Written(txs[..], filter, old(txs[..]), o.done)
    {
      pendingWrites := {};
      filter := seq(txs.Length, _ => 0 as byte);
      ghost var input := txs[..];
      ghost var total := Validated(db, monotonicVersions, codes, input);
      ghost var done: seq<Transaction> := [];
      for i := 0 to txs.Length
        invariant |done| == i && Written(txs[..], filter, input, done)
        invariant total == Resume(done, pendingWrites, db, input[i..])
      {
        var tx := txs[i];
        assert input[i..][0] == tx && input[i..][1..] == input[i + 1..];
        var status := CheckTx(db, tx.nsRWS);
        var code := CodeFor(codes, status);
        ResumeStep(done, pendingWrites, db, input[i..], status, code);
        if code < 0 || code > 255 {
          return filter, CodeFault;
        }
        tx := SetStatus(tx, status, code);
        WriteOne(txs[..], filter, input, done, tx);
        txs[i] := tx;
        filter := filter[i := code as byte];
        done := done + [tx];
        if status.Unknown? {
          return filter, StoreFault;
        }
        if status.Committed? {
          AddPending(tx.nsRWS);
        }
      }
      assert total.done == done;
      fault := NoFault;
    }

    lemma WriteOne(now: seq<Transaction>, filter: seq<byte>, input: seq<Transaction>, done: seq<Transaction>,
                   tx: Transaction)
      requires Written(now, filter, input, done) && |done| < |input| && 0 <= tx.rawCode < 256
      ensures Written(now[|done| := tx], filter[|done| := tx.rawCode as byte], input, done + [tx])
    {
    }

    ghost function Resume(done: seq<Transaction>, pending: set<string>, db: Getter, txs: seq<Transaction>): Outcome {
      var rest := ValidateFrom(pending, db, monotonicVersions, codes, txs);
      Outcome(done + rest.done, rest.fault)
    }

    lemma ResumeStep(done: seq<Transaction>, pending: set<string>, db: Getter, txs: seq<Transaction>,
                     v: Status, code: int)
      requires txs != [] && v == TxVerdict(pending, db, monotonicVersions, txs[0].nsRWS) && code == CodeFor(codes, v)
      ensures var tx := SetStatus(txs[0], v, code);
              Resume(done, pending, db, txs)
              == if code < 0 || code > 255 then Outcome(done, CodeFault)
                 else if v.Unknown? then Outcome(done + [tx], StoreFault)
                 else Resume(done + [tx], if v.Committed? then pending + TxPending(tx.nsRWS) else pending, db, txs[1..])
    {
      var tx := SetStatus(txs[0], v, code);
      var pending' := if v.Committed? then pending + TxPending(tx.nsRWS) else pending;
      var rest := ValidateFrom(pending', db, monotonicVersions, codes, txs[1..]).done;
      assert done + ([tx] + rest) == done + [tx] + rest;
    }

    /** The per-namespace loop of Validate. */
    method CheckTx(db: Getter, s: seq<NsReadWriteSet>) returns (status: Status)
      ensures status == TxVerdict(pendingWrites, db, monotonicVersions, s)
    {
      for i := 0 to |s|
        invariant TxVerdict(pendingWrites, db, monotonicVersions, s)
               == TxVerdict(pendingWrites, db, monotonicVersions, s[i..])
      {
        assert s[i..][0] == s[i] && s[i..][1..] == s[i + 1..];
        var v := CheckNs(db, s[i].ns, s[i].rws.readSet);
        if !v.Committed? { return v; }
      }
      return Committed;
    }

    /** Two passes: first against the earlier writes of the block, then against the store. */
    method CheckNs(db: Getter, ns: string, rs: seq<KVRead>) returns (status: Status)
      ensures status == NsVerdict(pendingWrites, db, monotonicVersions, ns, rs)
    {
      for i := 0 to |rs|
        invariant forall k | 0 <= k < i :: PendingKey(ns, rs[k].key) !in pendingWrites
      {
        if PendingKey(ns, rs[i].key) in pendingWrites { return MVCCConflict; }
      }
      for i := 0 to |rs|
        invariant FirstProblem(db, monotonicVersions, ns, rs) == FirstProblem(db, monotonicVersions, ns, rs[i..])
      {
        assert rs[i..][0] == rs[i] && rs[i..][1..] == rs[i + 1..];
        var got := db(ns, rs[i].key);
        if got.Err? { return Unknown; }
        var rec := got.value;
        if rec.Some? && rec.value.isDelete { rec := None; }
        var v := rs[i].version;
        if rec.None? {
          if v.None? { continue; }
          return MVCCConflict;
        }
        if v.None? { return MVCCConflict; }
        if monotonicVersions {
          if rec.value.version != v.value.blockNum { return MVCCConflict; }
        } else {
          if rec.value.blockNum != v.value.blockNum || rec.value.txNum != v.value.txNum { return MVCCConflict; }
        }
      }
      return Committed;
    }

    method AddPending(s: seq<NsReadWriteSet>)
      modifies this
      ensures pendingWrites == old(pendingWrites) + TxPending(s)
    {
      for i := 0 to |s|
        invariant pendingWrites == old(pendingWrites) + TxPending(s[..i])
      {
        assert s[..i + 1][..i] == s[..i];
        var ns, ws := s[i].ns, s[i].rws.writeSet;
        ghost var before := pendingWrites;
        for j := 0 to |ws|
          invariant pendingWrites == before + NsPending(ns, ws[..j])
        {
          assert NsPending(ns, ws[..j + 1]) == NsPending(ns, ws[..j]) + {PendingKey(ns, ws[j].key)} by {
            assert ws[..j + 1] == ws[..j] + [ws[j]];
          }
          pendingWrites := pendingWrites + {PendingKey(ns, ws[j].key)};
        }
        assert ws[..|ws|] == ws;
      }
      assert s[..|s|] == s;
    }
  }

  // ------------------------------------------------------- what a verdict means

  lemma {:induction false} FirstProblemMeans(db: Getter, mono: bool, ns: string, rs: seq<KVRead>)
    ensures FirstProblem(db, mono, ns, rs).Committed?
       <==> forall r | r in rs :: db(ns, r.key).Ok? && ReadOk(mono, db(ns, r.key).value, r.version)
    ensures (forall r | r in rs :: db(ns, r.key).Ok?) ==> !FirstProblem(db, mono, ns, rs).Unknown?
  {
    if rs != [] {
      FirstProblemMeans(db, mono, ns, rs[1..]);
      assert forall r :: r in rs <==> r == rs[0] || r in rs[1..];
    }
  }

  /** A transaction commits exactly when no read touches a key written earlier in the
      block and every read observed the state the store reports. */
  lemma {:induction false} CommittedMeans(pending: set<string>, db: Getter, mono: bool, s: seq<NsReadWriteSet>)
    ensures TxVerdict(pending, db, mono, s).Committed?
       <==> forall n, r | n in s && r in n.rws.readSet ::
              && PendingKey(n.ns, r.key) !in pending
              && db(n.ns, r.key).Ok? && ReadOk(mono, db(n.ns, r.key).value, r.version)
    ensures (forall n, r | n in s && r in n.rws.readSet :: db(n.ns, r.key).Ok?)
        ==> !TxVerdict(pending, db, mono, s).Unknown?
  {
    if s != [] {
      CommittedMeans(pending, db, mono, s[1..]);
      FirstProblemMeans(db, mono, s[0].ns, s[0].rws.readSet);
      assert forall n :: n in s <==> n == s[0] || n in s[1..];
    }
  }

  /** The read observed the state the store reports. */
  predicate Clean(db: Getter, mono: bool, ns: string, r: KVRead) {
    db(ns, r.key).Ok? && ReadOk(mono, db(ns, r.key).value, r.version)
  }

  /** The first read that is not clean is one whose lookup fails. */
  ghost predicate LookupFailsFirst(db: Getter, mono: bool, ns: string, rs: seq<KVRead>) {
    exists i :: FailsFirstAt(db, mono, ns, rs, i)
  }

  ghost predicate FailsFirstAt(db: Getter, mono: bool, ns: string, rs: seq<KVRead>, i: int) {
    0 <= i < |rs| && db(ns, rs[i].key).Err? && forall j | 0 <= j < i :: Clean(db, mono, ns, rs[j])
  }

  lemma {:induction false} FirstProblemUnknownIff(db: Getter, mono: bool, ns: string, rs: seq<KVRead>)
    ensures FirstProblem(db, mono, ns, rs).Unknown? <==> LookupFailsFirst(db, mono, ns, rs)
  {
    if rs != [] {
      var rest := rs[1..];
      FirstProblemUnknownIff(db, mono, ns, rest);
      if db(ns, rs[0].key).Err? {
        assert FailsFirstAt(db, mono, ns, rs, 0);
      } else if Clean(db, mono, ns, rs[0]) {
        if i :| FailsFirstAt(db, mono, ns, rest, i) { assert FailsFirstAt(db, mono, ns, rs, i + 1); }
        if i :| FailsFirstAt(db, mono, ns, rs, i) {
          assert forall j | 0 <= j < i - 1 :: rest[j] == rs[j + 1];
          assert FailsFirstAt(db, mono, ns, rest, i - 1);
        }
      } else {
        assert forall i | FailsFirstAt(db, mono, ns, rs, i) :: i == 0;
      }
    }
  }

  /** Namespace `a` is the first that does not pass, hits no pending key, and its first read
      that is not clean is one whose lookup fails. */
  ghost predicate StoreFailsAt(pending: set<string>, db: Getter, mono: bool, s: seq<NsReadWriteSet>, a: int) {
    && 0 <= a < |s| && !HitsPending(pending, s[a].ns, s[a].rws.readSet)
    && LookupFailsFirst(db, mono, s[a].ns, s[a].rws.readSet)
    && forall b | 0 <= b < a :: NsVerdict(pending, db, mono, s[b].ns, s[b].rws.readSet).Committed?
  }

  /** The verdict is Unknown exactly when a failed lookup is the first thing met; a conflict
      found earlier, or with an earlier write of the block, wins. */
  lemma {:induction false} UnknownMeans(pending: set<string>, db: Getter, mono: bool, s: seq<NsReadWriteSet>)
    ensures TxVerdict(pending, db, mono, s).Unknown? <==> exists a :: StoreFailsAt(pending, db, mono, s, a)
  {
    if s != [] {
      var rest := s[1..];
      UnknownMeans(pending, db, mono, rest);
      FirstProblemUnknownIff(db, mono, s[0].ns, s[0].rws.readSet);
      var v := NsVerdict(pending, db, mono, s[0].ns, s[0].rws.readSet);
      if v.Unknown? { assert StoreFailsAt(pending, db, mono, s, 0); }
      if v.Committed? {
        if a :| StoreFailsAt(pending, db, mono, rest, a) {
          assert forall b | 0 < b <= a :: s[b] == rest[b - 1];
          assert StoreFailsAt(pending, db, mono, s, a + 1);
        }
        if a :| StoreFailsAt(pending, db, mono, s, a) {
          assert a > 0 && forall b | 0 <= b < a :: rest[b] == s[b + 1];
          assert StoreFailsAt(pending, db, mono, rest, a - 1);
        }
      } else {
        assert forall a | StoreFailsAt(pending, db, mono, s, a) :: a == 0;
      }
    }
  }

  /** The recorded code is the configured one, 99 for a status without an entry. */
  lemma CodeRecorded(db: Getter, mono: bool, codes: map<Status, int>, txs: seq<Transaction>, i: nat)
    requires i < |Validated(db, mono, codes, txs).done|
    ensures var tx := Validated(db, mono, codes, txs).done[i];
            tx.rawCode == if tx.status in codes then codes[tx.status] else 99
  {
    ValidatedAt(db, mono, codes, txs, i);
  }

  /** The keys the committed transactions of a validated prefix have written. */
  function PendingAfter(done: seq<Transaction>): set<string> {
    if done == [] then {}
    else
      var tx := done[|done| - 1];
      PendingAfter(done[..|done| - 1]) + (if tx.Valid() then TxPending(tx.nsRWS) else {})
  }

  /** Position by position: every transaction of the pass is judged against the committed
      writes before it, and nothing but its status and code changes. */
  lemma ValidatedAt(db: Getter, mono: bool, codes: map<Status, int>, txs: seq<Transaction>, i: nat)
    requires i < |Validated(db, mono, codes, txs).done|
    ensures var done := Validated(db, mono, codes, txs).done;
            var v := TxVerdict(PendingAfter(done[..i]), db, mono, txs[i].nsRWS);
            done[i] == SetStatus(txs[i], v, CodeFor(codes, v))
  {
    ValidateFromAt({}, db, mono, codes, txs, i);
    var done := Validated(db, mono, codes, txs).done;
    assert {} + PendingAfter(done[..i]) == PendingAfter(done[..i]);
  }

  lemma {:induction false} ValidateFromAt(pending: set<string>, db: Getter, mono: bool, codes: map<Status, int>,
                                          txs: seq<Transaction>, i: nat)
    requires i < |ValidateFrom(pending, db, mono, codes, txs).done|
    ensures var done := ValidateFrom(pending, db, mono, codes, txs).done;
            var v := TxVerdict(pending + PendingAfter(done[..i]), db, mono, txs[i].nsRWS);
            done[i] == SetStatus(txs[i], v, CodeFor(codes, v))
    decreases i
  {
    var done := ValidateFrom(pending, db, mono, codes, txs).done;
    if i == 0 {
      assert pending + PendingAfter(done[..0]) == pending;
    } else {
      var rest := ValidateFrom(AfterFirst(pending, done[0]), db, mono, codes, txs[1..]).done;
      DoneTail(pending, db, mono, codes, txs);
      ValidateFromAt(AfterFirst(pending, done[0]), db, mono, codes, txs[1..], i - 1);
      assert done[..i] == [done[0]] + rest[..i - 1];
      PendingAfterCons(pending, done[0], rest[..i - 1]);
    }
  }

  lemma DoneTail(pending: set<string>, db: Getter, mono: bool, codes: map<Status, int>, txs: seq<Transaction>)
    requires |ValidateFrom(pending, db, mono, codes, txs).done| > 1
    ensures var done := ValidateFrom(pending, db, mono, codes, txs).done;
            done == [done[0]] + ValidateFrom(AfterFirst(pending, done[0]), db, mono, codes, txs[1..]).done
  {
  }

  ghost function AfterFirst(pending: set<string>, tx: Transaction): set<string> {
    if tx.Valid() then pending + TxPending(tx.nsRWS) else pending
  }

  // ------------------------------------------------------------ where a pass stops

  ghost predicate AllKnown(done: seq<Transaction>) { forall tx | tx in done :: !tx.status.Unknown? }

  /** The code configured for the status does not fit a filter byte. */
  predicate Oversized(codes: map<Status, int>, v: Status) { v in codes && !(0 <= codes[v] <= 255) }

  /** A pass ends after the last transaction, or with the transaction a lookup failed for, which
      has its status, or before the one whose verdict has a code that does not fit. */
  ghost predicate Stops(pending: set<string>, db: Getter, mono: bool, codes: map<Status, int>,
                        txs: seq<Transaction>, o: Outcome) {
    match o.fault
    case NoFault => |o.done| == |txs| && AllKnown(o.done)
    case StoreFault =>
      0 < |o.done| <= |txs| && o.done[|o.done| - 1].status.Unknown? && AllKnown(o.done[..|o.done| - 1])
    case CodeFault =>
      && |o.done| < |txs| && AllKnown(o.done)
      && Oversized(codes, TxVerdict(pending + PendingAfter(o.done), db, mono, txs[|o.done|].nsRWS))
  }

  lemma StopsCons(pending: set<string>, db: Getter, mono: bool, codes: map<Status, int>,
                  txs: seq<Transaction>, tx: Transaction, rest: Outcome)
    requires txs != [] && !tx.status.Unknown? && Stops(AfterFirst(pending, tx), db, mono, codes, txs[1..], rest)
    ensures Stops(pending, db, mono, codes, txs, Outcome([tx] + rest.done, rest.fault))
  {
    var done := [tx] + rest.done;
    if rest.fault.StoreFault? { assert done[..|done| - 1] == [tx] + rest.done[..|rest.done| - 1]; }
    if rest.fault.CodeFault? {
      PendingAfterCons(pending, tx, rest.done);
      assert txs[1..][|rest.done|] == txs[|done|];
    }
  }

  lemma {:induction false} StopsFrom(pending: set<string>, db: Getter, mono: bool, codes: map<Status, int>,
                                     txs: seq<Transaction>)
    ensures Stops(pending, db, mono, codes, txs, ValidateFrom(pending, db, mono, codes, txs))
    decreases txs
  {
    if txs != [] {
      var v := TxVerdict(pending, db, mono, txs[0].nsRWS);
      var code := CodeFor(codes, v);
      var tx := SetStatus(txs[0], v, code);
      if code < 0 || code > 255 {
        assert pending + PendingAfter([]) == pending;
      } else if v.Unknown? {
        assert [tx][..0] == [];
      } else {
        StopsFrom(AfterFirst(pending, tx), db, mono, codes, txs[1..]);
        StopsCons(pending, db, mono, codes, txs, tx, ValidateFrom(AfterFirst(pending, tx), db, mono, codes, txs[1..]));
      }
    }
  }

  /** Validation of a block faults exactly when a lookup fails first, or the code of a verdict
      does not fit; what had a status by then keeps it. */
  lemma StopsWhere(db: Getter, mono: bool, codes: map<Status, int>, txs: seq<Transaction>)
    ensures Stops({}, db, mono, codes, txs, Validated(db, mono, codes, txs))
  {
    StopsFrom({}, db, mono, codes, txs);
  }

  lemma {:induction false} PendingAfterCons(pending: set<string>, tx: Transaction, rest: seq<Transaction>)
    ensures pending + PendingAfter([tx] + rest) == AfterFirst(pending, tx) + PendingAfter(rest)
  {
    if rest == [] {
      assert [tx] + rest == [tx] && [tx][..0] == [];
    } else {
      assert ([tx] + rest)[..|rest|] == [tx] + rest[..|rest| - 1];
      PendingAfterCons(pending, tx, rest[..|rest| - 1]);
    }
  }
}
