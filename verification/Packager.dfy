/** Assembling a transaction from endorser responses (network/fabricx/packager.go): the
    payload comparison and the choice of endorsements. */
module Packager {
  import opened Types
  import opened FabricxCodec
  import opened Sorting

  datatype Endorsement = Endorsement(endorser: Bytes, signature: Bytes)

  datatype Response = Response(status: int, payload: Bytes, endorsement: Option<Endorsement>)

  predicate Successful(r: Response) { 200 <= r.status < 400 }

  ghost predicate Acceptable(rs: seq<Response>) {
    && rs != []
    && (forall r | r in rs :: Successful(r) && r.payload == rs[0].payload)
    && (exists r :: r in rs && r.endorsement.Some?)
  }

  /** Endorsement `e` is the first one of its endorser. */
  ghost predicate FirstAt(rs: seq<Response>, e: Endorsement, i: int) {
    && 0 <= i < |rs| && rs[i].endorsement == Some(e)
    && forall j | 0 <= j < i && rs[j].endorsement.Some? :: rs[j].endorsement.value.endorser != e.endorser
  }

  /** The first endorsement of each endorser, once, in response order. */
  ghost predicate FirstPerEndorser(rs: seq<Response>, es: seq<Endorsement>) {
    && (forall e :: e in es <==> exists i :: FirstAt(rs, e, i))
    && (forall a, b | 0 <= a < b < |es| :: es[a].endorser != es[b].endorser)
    && (forall a, b, i, j | 0 <= a < b < |es| && FirstAt(rs, es[a], i) && FirstAt(rs, es[b], j) :: i < j)
  }

  /** Up to the point where the endorsements are attached to the decoded payload. */
  method CreateTx(rs: seq<Response>) returns (r: Result<(Bytes, seq<Endorsement>)>)
    ensures r.Ok? <==> Acceptable(rs)
    ensures r.Ok? ==> r.value.0 == rs[0].payload && FirstPerEndorser(rs, r.value.1)
  {
    if |rs| == 0 { return Err; }
    var a1: Bytes := [];
    for n := 0 to |rs|
      invariant n > 0 ==> a1 == rs[0].payload
      invariant forall k | 0 <= k < n :: Successful(rs[k]) && rs[k].payload == rs[0].payload
    {
      assert rs[n] in rs;
      if rs[n].status < 200 || rs[n].status >= 400 { return Err; }
      if n == 0 {
        a1 := rs[0].payload;
        continue;
      }
      if a1 != rs[n].payload { return Err; }
    }
    var es := PickEndorsements(rs);
    forall i | 0 <= i < |rs| && rs[i].endorsement.Some? ensures es != [] { EveryEndorserCounts(rs, es, i); }
    if |es| == 0 { return Err; }
    assert es[0] in es;
    ghost var i :| FirstAt(rs, es[0], i);
    assert rs[i] in rs;
    return Ok((a1, es));
  }

  lemma {:induction false} EarliestOf(rs: seq<Response>, i: nat) returns (j: nat, e: Endorsement)
    requires i < |rs| && rs[i].endorsement.Some?
    ensures FirstAt(rs, e, j) && e.endorser == rs[i].endorsement.value.endorser
    decreases i
  {
    if k :| 0 <= k < i && EndorsedBy(rs[k], rs[i].endorsement.value.endorser) {
      j, e := EarliestOf(rs, k);
    } else {
      j, e := i, rs[i].endorsement.value;
    }
  }

  method PickEndorsements(rs: seq<Response>) returns (es: seq<Endorsement>)
    ensures FirstPerEndorser(rs, es)
  {
    var used: set<Bytes> := {};
    es := [];
    ghost var at: seq<nat> := [];
    for n := 0 to |rs|
      invariant forall k | 0 <= k < n && rs[k].endorsement.Some? :: rs[k].endorsement.value.endorser in used
      invariant forall b | b in used :: exists k :: 0 <= k < n && EndorsedBy(rs[k], b)
      invariant PickedAt(rs, es, at, n)
    {
      if rs[n].endorsement.None? { continue; }
      var e := rs[n].endorsement.value;
      if e.endorser in used { continue; }
      assert FirstAt(rs, e, n) && EndorsedBy(rs[n], e.endorser);
      es := es + [e];
      used := used + {e.endorser};
      at := at + [n];
    }
    PickedIsFirst(rs, es, at);
  }

  ghost predicate EndorsedBy(r: Response, b: Bytes) { r.endorsement.Some? && r.endorsement.value.endorser == b }

  /** `es` are the first endorsements among the first `n` responses, at the positions `at`. */
  ghost predicate PickedAt(rs: seq<Response>, es: seq<Endorsement>, at: seq<nat>, n: nat) {
    && |at| == |es|
    && (forall a | 0 <= a < |es| :: at[a] < n && FirstAt(rs, es[a], at[a]))
    && (forall a, b | 0 <= a < b < |es| :: at[a] < at[b])
    && (forall e, i | i < n && FirstAt(rs, e, i) :: e in es)
  }

  lemma PickedIsFirst(rs: seq<Response>, es: seq<Endorsement>, at: seq<nat>)
    requires PickedAt(rs, es, at, |rs|)
    ensures FirstPerEndorser(rs, es)
  {
    forall a, b | 0 <= a < b < |es| ensures es[a].endorser != es[b].endorser {
      assert FirstAt(rs, es[a], at[a]) && FirstAt(rs, es[b], at[b]) && at[a] < at[b];
    }
    forall a, i | 0 <= a < |es| && FirstAt(rs, es[a], i) ensures i == at[a] {
      assert FirstAt(rs, es[a], at[a]);
    }
  }

  /** Every endorser that answered is represented. */
  lemma EveryEndorserCounts(rs: seq<Response>, es: seq<Endorsement>, i: nat)
    requires FirstPerEndorser(rs, es) && i < |rs| && rs[i].endorsement.Some?
    ensures exists e :: e in es && e.endorser == rs[i].endorsement.value.endorser
  {
    var j, e := EarliestOf(rs, i);
    assert e in es;
  }

  /** Endorsers that executed to the same read/write set, each listing it in its own order,
      pass the payload comparison. */
  lemma HonestEndorsersAccepted(rs: seq<Response>, sets: seq<ReadWriteSet>, txs: seq<PbTx>, marshal: PbTx -> Bytes,
                                ns: string, nsVersion: nat, metadata: seq<Bytes>)
    requires |rs| == |sets| == |txs| && (exists r :: r in rs && r.endorsement.Some?)
    requires forall i | 0 <= i < |rs| ::
               && Successful(rs[i]) && rs[i].payload == marshal(txs[i])
               && IsBuild(sets[i], ns, nsVersion, metadata, txs[i]) && DistinctRWS(sets[i])
               && multiset(sets[i].readSet) == multiset(sets[0].readSet)
               && multiset(sets[i].writeSet) == multiset(sets[0].writeSet)
    ensures Acceptable(rs)
  {
    forall r | r in rs ensures Successful(r) && r.payload == rs[0].payload {
      var i :| 0 <= i < |rs| && rs[i] == r;
      EndorsersAgree(sets[i], sets[0], ns, nsVersion, metadata, txs[i], txs[0]);
    }
  }
}
