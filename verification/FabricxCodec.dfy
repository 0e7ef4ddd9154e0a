/** The Fabric-X transaction message: built by an endorser from a read/write set
    (endorsement/fabricx/builder.go) and decoded by every parser
    (blocks/fabricx/decode.go). */
module FabricxCodec {
  import opened Types
  import opened Sorting
  import opened Mvcc

  datatype PbRead = PbRead(key: string, version: Option<nat>)
  datatype PbReadWrite = PbReadWrite(key: string, version: Option<nat>, value: Bytes)
  datatype PbWrite = PbWrite(key: string, value: Bytes)

  datatype TxNamespace = TxNamespace(
    nsId: string, nsVersion: nat, readsOnly: seq<PbRead>, readWrites: seq<PbReadWrite>, blindWrites: seq<PbWrite>)

  datatype PbTx = PbTx(metadata: seq<Bytes>, namespaces: seq<TxNamespace>)

  const RoKey := (m: PbRead) => m.key
  const RwKey := (m: PbReadWrite) => m.key
  const BwKey := (m: PbWrite) => m.key
  const ReadKey := (r: KVRead) => r.key
  const WriteKey := (w: KVWrite) => w.key

  // ----------------------------------------------------------------- encoding

  function PbVersion(v: Option<Version>): Option<nat> { if v.Some? then Some(v.value.blockNum) else None }

  function RoMsg(r: KVRead): PbRead { PbRead(r.key, PbVersion(r.version)) }

  function PbValue(w: KVWrite): Bytes { if w.isDelete then [] else w.value }

  function RwMsg(w: KVWrite, r: KVRead): PbReadWrite { PbReadWrite(w.key, PbVersion(r.version), PbValue(w)) }

  function BwMsg(w: KVWrite): PbWrite { PbWrite(w.key, PbValue(w)) }

  /** The reads by key; the last one of a key wins. */
  function ReadsByKey(rs: seq<KVRead>): map<string, KVRead> {
    if rs == [] then map[] else ReadsByKey(rs[..|rs| - 1])[rs[|rs| - 1].key := rs[|rs| - 1]]
  }

  /** The loop over the writes: the reads not yet claimed, and the two kinds of writes. */
  datatype Split = Split(left: map<string, KVRead>, rw: seq<PbReadWrite>, bw: seq<PbWrite>)

  function SplitWrites(m: map<string, KVRead>, ws: seq<KVWrite>): Split {
    if ws == [] then Split(m, [], [])
    else
      var s, w := SplitWrites(m, ws[..|ws| - 1]), ws[|ws| - 1];
      if w.key in s.left then Split(s.left - {w.key}, s.rw + [RwMsg(w, s.left[w.key])], s.bw)
      else Split(s.left, s.rw, s.bw + [BwMsg(w)])
  }

  ghost predicate ListsLeft(ro: seq<PbRead>, left: map<string, KVRead>) {
    && DistinctKeys(RoKey, ro)
    && (forall m | m in ro :: m.key in left && m == RoMsg(left[m.key]))
    && (forall k | k in left :: RoMsg(left[k]) in ro)
  }

  /** What buildTx may produce, whatever order its maps are iterated in and however ties
      are sorted. */
  ghost predicate IsBuild(rws: ReadWriteSet, ns: string, nsVersion: nat, metadata: seq<Bytes>, tx: PbTx) {
    var s := SplitWrites(ReadsByKey(rws.readSet), rws.writeSet);
    && tx.metadata == metadata && |tx.namespaces| == 1
    && var t := tx.namespaces[0];
       && t.nsId == ns && t.nsVersion == nsVersion
       && SortedBy(RoKey, t.readsOnly) && SortedBy(RwKey, t.readWrites) && SortedBy(BwKey, t.blindWrites)
       && ListsLeft(t.readsOnly, s.left)
       && multiset(t.readWrites) == multiset(s.rw)
       && multiset(t.blindWrites) == multiset(s.bw)
  }

  method BuildTx(rws: ReadWriteSet, ns: string, nsVersion: nat, metadata: seq<Bytes>) returns (tx: PbTx)
    ensures IsBuild(rws, ns, nsVersion, metadata, tx)
  {
    var readByKey: map<string, KVRead> := map[];
    for i := 0 to |rws.readSet|
      invariant readByKey == ReadsByKey(rws.readSet[..i])
    {
      assert rws.readSet[..i + 1][..i] == rws.readSet[..i];
      readByKey := readByKey[rws.readSet[i].key := rws.readSet[i]];
    }
    assert rws.readSet[..|rws.readSet|] == rws.readSet;
    ReadsByKeyKeyed(rws.readSet);
    var readWrites: seq<PbReadWrite>, blindWrites: seq<PbWrite> := [], [];
    for i := 0 to |rws.writeSet|
      invariant Split(readByKey, readWrites, blindWrites) == SplitWrites(ReadsByKey(rws.readSet), rws.writeSet[..i])
      invariant forall k | k in readByKey :: readByKey[k].key == k
    {
      assert rws.writeSet[..i + 1][..i] == rws.writeSet[..i];
      var w := rws.writeSet[i];
      var value := if w.isDelete then [] else w.value;
      if w.key in readByKey {
        var r := readByKey[w.key];
        readByKey := readByKey - {w.key};
        var version := if r.version.Some? then Some(r.version.value.blockNum) else None;
        readWrites := readWrites + [PbReadWrite(w.key, version, value)];
      } else {
        blindWrites := blindWrites + [PbWrite(w.key, value)];
      }
    }
    assert rws.writeSet[..|rws.writeSet|] == rws.writeSet;
    var readsOnly := ListReadsOnly(readByKey);
    var sorted := SortByKey(RoKey, readsOnly);
    SortedLists(readsOnly, sorted, readByKey);
    tx := PbTx(metadata, [TxNamespace(ns, nsVersion, sorted,
                                      SortByKey(RwKey, readWrites), SortByKey(BwKey, blindWrites))]);
  }

  lemma {:induction false} ReadsByKeyKeyed(rs: seq<KVRead>)
    ensures forall k | k in ReadsByKey(rs) :: ReadsByKey(rs)[k].key == k
  {
    if rs != [] { ReadsByKeyKeyed(rs[..|rs| - 1]); }
  }

  /** The reads no write claimed, in whatever order the map yields them. */
  method ListReadsOnly(left: map<string, KVRead>) returns (ro: seq<PbRead>)
    requires forall k | k in left :: left[k].key == k
    ensures ListsLeft(ro, left)
  {
    ro := [];
    var todo := left.Keys;
    while todo != {}
      invariant todo <= left.Keys && DistinctKeys(RoKey, ro)
      invariant forall m | m in ro :: m.key in left && m.key !in todo && m == RoMsg(left[m.key])
      invariant forall k | k in left :: k in todo || RoMsg(left[k]) in ro
      decreases |todo|
    {
      var k :| k in todo;
      ro := ro + [RoMsg(left[k])];
      todo := todo - {k};
    }
  }

  lemma SortedLists(ro: seq<PbRead>, sorted: seq<PbRead>, left: map<string, KVRead>)
    requires ListsLeft(ro, left) && multiset(sorted) == multiset(ro)
    ensures ListsLeft(sorted, left)
  {
    PermutationKeepsDistinct(RoKey, ro, sorted);
    forall m ensures m in sorted <==> m in ro {
      assert m in multiset(sorted) <==> m in multiset(ro);
    }
  }

  // -------------------------------------------------------------- determinism

  ghost predicate DistinctRWS(rws: ReadWriteSet) {
    DistinctKeys(ReadKey, rws.readSet) && DistinctKeys(WriteKey, rws.writeSet)
  }

  lemma {:induction false} ReadsByKeyMembers(rs: seq<KVRead>)
    requires DistinctKeys(ReadKey, rs)
    ensures forall r | r in rs :: r.key in ReadsByKey(rs) && ReadsByKey(rs)[r.key] == r
    ensures forall k | k in ReadsByKey(rs) :: ReadsByKey(rs)[k] in rs && ReadsByKey(rs)[k].key == k
  {
    if rs != [] {
      var p, r := rs[..|rs| - 1], rs[|rs| - 1];
      ReadsByKeyMembers(p);
      assert rs == p + [r];
      assert forall x | x in p :: x.key != r.key;
    }
  }

  /** With distinct write keys the split depends on no order: it is given by membership. */
  lemma {:induction false} SplitLeft(m: map<string, KVRead>, ws: seq<KVWrite>)
    requires DistinctKeys(WriteKey, ws)
    ensures var s := SplitWrites(m, ws);
            && (forall k :: k in s.left <==> k in m && forall w | w in ws :: w.key != k)
            && (forall k | k in s.left :: s.left[k] == m[k])
  {
    if ws != [] {
      SplitLeft(m, ws[..|ws| - 1]);
      assert ws == ws[..|ws| - 1] + [ws[|ws| - 1]];
    }
  }

  /** The last write claims a read exactly when its key was read. */
  lemma SplitStep(m: map<string, KVRead>, p: seq<KVWrite>, w: KVWrite)
    requires DistinctKeys(WriteKey, p + [w])
    ensures DistinctKeys(WriteKey, p)
    ensures var s, t := SplitWrites(m, p), SplitWrites(m, p + [w]);
            && t.rw == (if w.key in m then s.rw + [RwMsg(w, m[w.key])] else s.rw)
            && t.bw == (if w.key in m then s.bw else s.bw + [BwMsg(w)])
  {
    assert (p + [w])[..|p|] == p && forall i | 0 <= i < |p| :: (p + [w])[i] == p[i];
    assert (p + [w])[|p|] == w && forall x | x in p :: x.key != w.key;
    SplitLeft(m, p);
  }

  lemma {:induction false} SplitReadWrites(m: map<string, KVRead>, ws: seq<KVWrite>)
    requires DistinctKeys(WriteKey, ws)
    ensures DistinctKeys(RwKey, SplitWrites(m, ws).rw)
    ensures forall x :: x in SplitWrites(m, ws).rw <==> exists w :: w in ws && w.key in m && x == RwMsg(w, m[w.key])
  {
    if ws != [] {
      var p, w := ws[..|ws| - 1], ws[|ws| - 1];
      assert ws == p + [w];
      SplitStep(m, p, w);
      SplitReadWrites(m, p);
      SplitReadWritesNext(m, p, w, SplitWrites(m, p).rw);
    }
  }

  lemma SplitReadWritesNext(m: map<string, KVRead>, p: seq<KVWrite>, w: KVWrite, rw: seq<PbReadWrite>)
    requires DistinctKeys(WriteKey, p + [w]) && DistinctKeys(RwKey, rw)
    requires forall x :: x in rw <==> exists y :: y in p && y.key in m && x == RwMsg(y, m[y.key])
    ensures var next := if w.key in m then rw + [RwMsg(w, m[w.key])] else rw;
            && DistinctKeys(RwKey, next)
            && forall x :: x in next <==> exists y :: y in p + [w] && y.key in m && x == RwMsg(y, m[y.key])
  {
    assert forall i | 0 <= i < |p| :: (p + [w])[i] == p[i] && (p + [w])[|p|] == w;
    assert forall x | x in p :: x.key != w.key;
    assert forall x | x in rw :: RwKey(x) != w.key;
    assert forall y :: y in p + [w] <==> y in p || y == w;
  }

  lemma {:induction false} SplitBlindWrites(m: map<string, KVRead>, ws: seq<KVWrite>)
    requires DistinctKeys(WriteKey, ws)
    ensures DistinctKeys(BwKey, SplitWrites(m, ws).bw)
    ensures forall x :: x in SplitWrites(m, ws).bw <==> exists w :: w in ws && w.key !in m && x == BwMsg(w)
  {
    if ws != [] {
      var p, w := ws[..|ws| - 1], ws[|ws| - 1];
      assert ws == p + [w];
      SplitStep(m, p, w);
      SplitBlindWrites(m, p);
      assert forall x | x in p :: x.key != w.key;
      assert forall x | x in SplitWrites(m, p).bw :: BwKey(x) != w.key;
    }
  }

  /** Endorsers that executed to the same set, listed in any order, build the same message. */
  lemma EndorsersAgree(a: ReadWriteSet, b: ReadWriteSet, ns: string, nsVersion: nat, metadata: seq<Bytes>,
                       t1: PbTx, t2: PbTx)
    requires DistinctRWS(a) && DistinctRWS(b)
    requires multiset(a.readSet) == multiset(b.readSet) && multiset(a.writeSet) == multiset(b.writeSet)
    requires IsBuild(a, ns, nsVersion, metadata, t1) && IsBuild(b, ns, nsVersion, metadata, t2)
    ensures t1 == t2
  {
    SameReadMap(a.readSet, b.readSet);
    SameMembers(a.writeSet, b.writeSet);
    var x, y := t1.namespaces[0], t2.namespaces[0];
    SameReadsOnly(ReadsByKey(a.readSet), a.writeSet, b.writeSet, x.readsOnly, y.readsOnly);
    SameSplit(ReadsByKey(a.readSet), a.writeSet, b.writeSet, x, y);
    assert t1.namespaces == [x] && t2.namespaces == [y];
  }

  lemma SameReadsOnly(m: map<string, KVRead>, a: seq<KVWrite>, b: seq<KVWrite>, x: seq<PbRead>, y: seq<PbRead>)
    requires DistinctKeys(WriteKey, a) && DistinctKeys(WriteKey, b) && forall w :: w in a <==> w in b
    requires SortedBy(RoKey, x) && SortedBy(RoKey, y)
    requires ListsLeft(x, SplitWrites(m, a).left) && ListsLeft(y, SplitWrites(m, b).left)
    ensures x == y
  {
    SameLeft(m, a, b);
    ListedAlike(x, y, SplitWrites(m, a).left);
    SortedIsUnique(RoKey, x, y);
  }

  lemma SameLeft(m: map<string, KVRead>, a: seq<KVWrite>, b: seq<KVWrite>)
    requires DistinctKeys(WriteKey, a) && DistinctKeys(WriteKey, b) && forall w :: w in a <==> w in b
    ensures SplitWrites(m, a).left == SplitWrites(m, b).left
  {
    SplitLeft(m, a);
    SplitLeft(m, b);
  }

  lemma ListedAlike(x: seq<PbRead>, y: seq<PbRead>, left: map<string, KVRead>)
    requires ListsLeft(x, left) && ListsLeft(y, left)
    ensures forall e :: e in x <==> e in y
  {
  }

  lemma SameSplit(m: map<string, KVRead>, a: seq<KVWrite>, b: seq<KVWrite>, x: TxNamespace, y: TxNamespace)
    requires DistinctKeys(WriteKey, a) && DistinctKeys(WriteKey, b) && forall w :: w in a <==> w in b
    requires SortedBy(RwKey, x.readWrites) && SortedBy(BwKey, x.blindWrites)
    requires SortedBy(RwKey, y.readWrites) && SortedBy(BwKey, y.blindWrites)
    requires multiset(x.readWrites) == multiset(SplitWrites(m, a).rw)
    requires multiset(x.blindWrites) == multiset(SplitWrites(m, a).bw)
    requires multiset(y.readWrites) == multiset(SplitWrites(m, b).rw)
    requires multiset(y.blindWrites) == multiset(SplitWrites(m, b).bw)
    ensures x.readWrites == y.readWrites && x.blindWrites == y.blindWrites
  {
    assert x.readWrites == y.readWrites by {
      SplitReadWrites(m, a);
      SplitReadWrites(m, b);
      SameSorted(RwKey, SplitWrites(m, a).rw, SplitWrites(m, b).rw, x.readWrites, y.readWrites);
    }
    SplitBlindWrites(m, a);
    SplitBlindWrites(m, b);
    SameSorted(BwKey, SplitWrites(m, a).bw, SplitWrites(m, b).bw, x.blindWrites, y.blindWrites);
  }

  lemma SameMembers<T>(a: seq<T>, b: seq<T>)
    requires multiset(a) == multiset(b)
    ensures forall x :: x in a <==> x in b
  {
    forall x ensures x in a <==> x in b { assert x in multiset(a) <==> x in multiset(b); }
  }

  lemma SameReadMap(a: seq<KVRead>, b: seq<KVRead>)
    requires DistinctKeys(ReadKey, a) && DistinctKeys(ReadKey, b) && multiset(a) == multiset(b)
    ensures ReadsByKey(a) == ReadsByKey(b)
  {
    SameMembers(a, b);
    ReadsByKeyMembers(a);
    ReadsByKeyMembers(b);
  }

  lemma SameSorted<T>(key: T -> string, a: seq<T>, b: seq<T>, x: seq<T>, y: seq<T>)
    requires DistinctKeys(key, a) && DistinctKeys(key, b) && forall e :: e in a <==> e in b
    requires SortedBy(key, x) && SortedBy(key, y) && multiset(x) == multiset(a) && multiset(y) == multiset(b)
    ensures x == y
  {
    PermutationKeepsDistinct(key, a, x);
    PermutationKeepsDistinct(key, b, y);
    SameMembers(x, a);
    SameMembers(y, b);
    SortedIsUnique(key, x, y);
  }

  // ----------------------------------------------------------------- decoding

  function KvVersion(v: Option<nat>): Option<Version> { if v.Some? then Some(Version(v.value, 0)) else None }

  function RoReads(ms: seq<PbRead>): (rs: seq<KVRead>)
    ensures |rs| == |ms| && forall i | 0 <= i < |ms| :: rs[i] == KVRead(ms[i].key, KvVersion(ms[i].version))
  {
    seq(|ms|, i requires 0 <= i < |ms| => KVRead(ms[i].key, KvVersion(ms[i].version)))
  }

  function RwReads(ms: seq<PbReadWrite>): (rs: seq<KVRead>)
    ensures |rs| == |ms| && forall i | 0 <= i < |ms| :: rs[i] == KVRead(ms[i].key, KvVersion(ms[i].version))
  {
    seq(|ms|, i requires 0 <= i < |ms| => KVRead(ms[i].key, KvVersion(ms[i].version)))
  }

  function RwWrites(ms: seq<PbReadWrite>): (ws: seq<KVWrite>)
    ensures |ws| == |ms| && forall i | 0 <= i < |ms| :: ws[i] == KVWrite(ms[i].key, false, ms[i].value)
  {
    seq(|ms|, i requires 0 <= i < |ms| => KVWrite(ms[i].key, false, ms[i].value))
  }

  function BwWrites(ms: seq<PbWrite>): (ws: seq<KVWrite>)
    ensures |ws| == |ms| && forall i | 0 <= i < |ms| :: ws[i] == KVWrite(ms[i].key, false, ms[i].value)
  {
    seq(|ms|, i requires 0 <= i < |ms| => KVWrite(ms[i].key, false, ms[i].value))
  }

  function DecodeNs(n: TxNamespace): NsReadWriteSet {
    NsReadWriteSet(n.nsId, ReadWriteSet(RoReads(n.readsOnly) + RwReads(n.readWrites),
                                        BwWrites(n.blindWrites) + RwWrites(n.readWrites)))
  }

  function Decoded(ns: seq<TxNamespace>): (s: seq<NsReadWriteSet>)
    ensures |s| == |ns| && forall i | 0 <= i < |ns| :: s[i] == DecodeNs(ns[i])
  {
    seq(|ns|, i requires 0 <= i < |ns| => DecodeNs(ns[i]))
  }

  method DecodeNamespaces(ns: seq<TxNamespace>) returns (out: seq<NsReadWriteSet>)
    ensures out == Decoded(ns)
  {
    out := [];
    for i := 0 to |ns|
      invariant |out| == i && forall k | 0 <= k < i :: out[k] == DecodeNs(ns[k])
    {
      var rs: seq<KVRead>, ws: seq<KVWrite> := [], [];
      for j := 0 to |ns[i].readsOnly|
        invariant rs == RoReads(ns[i].readsOnly)[..j]
      {
        var r := ns[i].readsOnly[j];
        rs := rs + [KVRead(r.key, if r.version.Some? then Some(Version(r.version.value, 0)) else None)];
      }
      for j := 0 to |ns[i].blindWrites|
        invariant ws == BwWrites(ns[i].blindWrites)[..j]
      {
        var w := ns[i].blindWrites[j];
        ws := ws + [KVWrite(w.key, false, w.value)];
      }
      for j := 0 to |ns[i].readWrites|
        invariant rs == RoReads(ns[i].readsOnly) + RwReads(ns[i].readWrites)[..j]
        invariant ws == BwWrites(ns[i].blindWrites) + RwWrites(ns[i].readWrites)[..j]
      {
        var rw := ns[i].readWrites[j];
        rs := rs + [KVRead(rw.key, if rw.version.Some? then Some(Version(rw.version.value, 0)) else None)];
        ws := ws + [KVWrite(rw.key, false, rw.value)];
      }
      out := out + [NsReadWriteSet(ns[i].nsId, ReadWriteSet(rs, ws))];
    }
  }

  /** Any message, built here or not: every entry of every list is decoded, in order, reads-only
      before read-writes and blind writes before read-writes, and no write is a delete. */
  lemma DecodedMeans(ns: seq<TxNamespace>, i: nat)
    requires i < |ns|
    ensures |Decoded(ns)| == |ns| && Decoded(ns)[i].ns == ns[i].nsId
    ensures var (n, out) := (ns[i], Decoded(ns)[i].rws);
            && |out.readSet| == |n.readsOnly| + |n.readWrites|
            && |out.writeSet| == |n.blindWrites| + |n.readWrites|
            && (forall j | 0 <= j < |n.readsOnly| ::
                  out.readSet[j].key == n.readsOnly[j].key && Keeps(n.readsOnly[j].version, out.readSet[j].version))
            && (forall j | 0 <= j < |n.blindWrites| ::
                  out.writeSet[j] == KVWrite(n.blindWrites[j].key, false, n.blindWrites[j].value))
            && forall j | 0 <= j < |n.readWrites| ::
                 var (r, w) := (out.readSet[|n.readsOnly| + j], out.writeSet[|n.blindWrites| + j]);
                 && r.key == n.readWrites[j].key && Keeps(n.readWrites[j].version, r.version)
                 && w == KVWrite(n.readWrites[j].key, false, n.readWrites[j].value)
  {
  }

  /** The decoded version is the message's, with transaction number 0. */
  predicate Keeps(v: Option<nat>, out: Option<Version>) {
    match (v, out)
    case (None, None) => true
    case (Some(n), Some(x)) => x.blockNum == n && x.txNum == 0
    case _ => false
  }

  // --------------------------------------------------------------- round trip

  /** What a read, and a write, become on the wire: the transaction number is dropped,
      a delete turns into a write of nil. */
  function OverWireRead(r: KVRead): KVRead { KVRead(r.key, KvVersion(PbVersion(r.version))) }

  function OverWireWrite(w: KVWrite): KVWrite { KVWrite(w.key, false, PbValue(w)) }

  ghost predicate IsImage(rws: ReadWriteSet, out: ReadWriteSet) {
    && DistinctRWS(out)
    && (forall x :: x in out.readSet <==> exists r :: r in rws.readSet && x == OverWireRead(r))
    && (forall x :: x in out.writeSet <==> exists w :: w in rws.writeSet && x == OverWireWrite(w))
  }

  /** Decoding what was built gives back every read and every write, once. */
  lemma RoundTrip(rws: ReadWriteSet, ns: string, nsVersion: nat, metadata: seq<Bytes>, tx: PbTx)
    requires DistinctRWS(rws) && IsBuild(rws, ns, nsVersion, metadata, tx)
    ensures |Decoded(tx.namespaces)| == 1
    ensures Decoded(tx.namespaces)[0].ns == ns && IsImage(rws, Decoded(tx.namespaces)[0].rws)
  {
    var t := tx.namespaces[0];
    var m := ReadsByKey(rws.readSet);
    BuiltReadWrites(m, rws.writeSet, t.readWrites);
    assert DistinctKeys(ReadKey, DecodeNs(t).rws.readSet)
        && (forall x :: x in DecodeNs(t).rws.readSet <==> exists r :: r in rws.readSet && x == OverWireRead(r)) by {
      ReadsByKeyMembers(rws.readSet);
      SplitLeft(m, rws.writeSet);
      RoundTripReads(rws, m, t);
    }
    BuiltBlindWrites(m, rws.writeSet, t.blindWrites);
    RoundTripWrites(rws, m, t);
  }

  lemma BuiltReadWrites(m: map<string, KVRead>, ws: seq<KVWrite>, out: seq<PbReadWrite>)
    requires DistinctKeys(WriteKey, ws) && multiset(out) == multiset(SplitWrites(m, ws).rw)
    ensures DistinctKeys(RwKey, out)
    ensures forall x :: x in out <==> exists w :: w in ws && w.key in m && x == RwMsg(w, m[w.key])
  {
    SplitReadWrites(m, ws);
    SameMembers(out, SplitWrites(m, ws).rw);
    PermutationKeepsDistinct(RwKey, SplitWrites(m, ws).rw, out);
  }

  lemma BuiltBlindWrites(m: map<string, KVRead>, ws: seq<KVWrite>, out: seq<PbWrite>)
    requires DistinctKeys(WriteKey, ws) && multiset(out) == multiset(SplitWrites(m, ws).bw)
    ensures DistinctKeys(BwKey, out)
    ensures forall x :: x in out <==> exists w :: w in ws && w.key !in m && x == BwMsg(w)
  {
    SplitBlindWrites(m, ws);
    SameMembers(out, SplitWrites(m, ws).bw);
    PermutationKeepsDistinct(BwKey, SplitWrites(m, ws).bw, out);
  }

  lemma DecodedReads(t: TxNamespace)
    requires DistinctKeys(RoKey, t.readsOnly) && DistinctKeys(RwKey, t.readWrites)
    requires forall x, y | x in t.readsOnly && y in t.readWrites :: x.key != y.key
    ensures DistinctKeys(ReadKey, DecodeNs(t).rws.readSet)
    ensures forall x ::
              x in DecodeNs(t).rws.readSet
              <==> ((exists y :: y in t.readsOnly && x == KVRead(y.key, KvVersion(y.version)))
                    || (exists y :: y in t.readWrites && x == KVRead(y.key, KvVersion(y.version))))
  {
    var a, b := RoReads(t.readsOnly), RwReads(t.readWrites);
    assert forall i | 0 <= i < |a| :: t.readsOnly[i] in t.readsOnly && a[i] in a;
    assert forall i | 0 <= i < |b| :: t.readWrites[i] in t.readWrites && b[i] in b;
  }

  lemma DecodedWrites(t: TxNamespace)
    requires DistinctKeys(RwKey, t.readWrites) && DistinctKeys(BwKey, t.blindWrites)
    requires forall x, y | x in t.blindWrites && y in t.readWrites :: x.key != y.key
    ensures DistinctKeys(WriteKey, DecodeNs(t).rws.writeSet)
    ensures forall x ::
              x in DecodeNs(t).rws.writeSet
              <==> ((exists y :: y in t.blindWrites && x == KVWrite(y.key, false, y.value))
                    || (exists y :: y in t.readWrites && x == KVWrite(y.key, false, y.value)))
  {
    var a, b := BwWrites(t.blindWrites), RwWrites(t.readWrites);
    assert forall i | 0 <= i < |a| :: t.blindWrites[i] in t.blindWrites && a[i] in a;
    assert forall i | 0 <= i < |b| :: t.readWrites[i] in t.readWrites && b[i] in b;
  }

  lemma RoundTripReads(rws: ReadWriteSet, m: map<string, KVRead>, t: TxNamespace)
    requires DistinctKeys(RoKey, t.readsOnly) && DistinctKeys(RwKey, t.readWrites)
    requires forall r | r in rws.readSet :: r.key in m && m[r.key] == r
    requires forall k | k in m :: m[k] in rws.readSet && m[k].key == k
    requires forall x | x in t.readsOnly ::
               x.key in m && (forall w | w in rws.writeSet :: w.key != x.key) && x == RoMsg(m[x.key])
    requires forall k | k in m && (forall w | w in rws.writeSet :: w.key != k) :: RoMsg(m[k]) in t.readsOnly
    requires forall x :: x in t.readWrites <==> exists w :: w in rws.writeSet && w.key in m && x == RwMsg(w, m[w.key])
    ensures var out := DecodeNs(t).rws.readSet;
            && DistinctKeys(ReadKey, out)
            && (forall x :: x in out <==> exists r :: r in rws.readSet && x == OverWireRead(r))
  {
    var out := DecodeNs(t).rws.readSet;
    DecodedReads(t);
    forall x ensures x in out ==> exists r :: r in rws.readSet && x == OverWireRead(r) {
      if y :| y in t.readsOnly && x == KVRead(y.key, KvVersion(y.version)) {
        assert x == OverWireRead(m[y.key]);
      } else if y :| y in t.readWrites && x == KVRead(y.key, KvVersion(y.version)) {
        assert x == OverWireRead(m[y.key]);
      }
    }
    forall r | r in rws.readSet ensures OverWireRead(r) in out {
      if w :| w in rws.writeSet && w.key == r.key {
        assert RwMsg(w, r) in t.readWrites;
      } else {
        assert RoMsg(r) in t.readsOnly;
      }
    }
  }

  lemma RoundTripWrites(rws: ReadWriteSet, m: map<string, KVRead>, t: TxNamespace)
    requires DistinctKeys(WriteKey, rws.writeSet)
    requires DistinctKeys(RwKey, t.readWrites) && DistinctKeys(BwKey, t.blindWrites)
    requires forall x :: x in t.readWrites <==> exists w :: w in rws.writeSet && w.key in m && x == RwMsg(w, m[w.key])
    requires forall x :: x in t.blindWrites <==> exists w :: w in rws.writeSet && w.key !in m && x == BwMsg(w)
    ensures var out := DecodeNs(t).rws.writeSet;
            && DistinctKeys(WriteKey, out)
            && (forall x :: x in out <==> exists w :: w in rws.writeSet && x == OverWireWrite(w))
  {
    var out := DecodeNs(t).rws.writeSet;
    DecodedWrites(t);
    forall x ensures x in out ==> exists w :: w in rws.writeSet && x == OverWireWrite(w) {
      if y :| y in t.blindWrites && x == KVWrite(y.key, false, y.value) {
        var w :| w in rws.writeSet && w.key !in m && y == BwMsg(w);
        assert x == OverWireWrite(w);
      } else if y :| y in t.readWrites && x == KVWrite(y.key, false, y.value) {
        var w :| w in rws.writeSet && w.key in m && y == RwMsg(w, m[w.key]);
        assert x == OverWireWrite(w);
      }
    }
    forall w | w in rws.writeSet ensures OverWireWrite(w) in out {
      if w.key in m { assert RwMsg(w, m[w.key]) in t.readWrites; } else { assert BwMsg(w) in t.blindWrites; }
    }
  }
}
