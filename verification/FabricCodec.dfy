/** The classic Fabric read/write set as an endorser marshals it
    (endorsement/fabric/builder.go), on messages rather than bytes. */
module FabricCodec {
  import opened Types
  import opened Sorting
  import opened Simulation
  import opened FabricxCodec

  /** What marshalRWSet may produce, however ties are sorted. */
  ghost predicate IsMarshalled(rws: ReadWriteSet, out: ReadWriteSet) {
    && SortedBy(ReadKey, out.readSet) && multiset(out.readSet) == multiset(rws.readSet)
    && SortedBy(WriteKey, out.writeSet) && multiset(out.writeSet) == multiset(rws.writeSet)
  }

  method MarshalRWSet(rws: ReadWriteSet) returns (out: ReadWriteSet)
    ensures IsMarshalled(rws, out)
  {
    var rs := CopyReads(SortByKey(ReadKey, rws.readSet));
    var ws := CopyWrites(SortByKey(WriteKey, rws.writeSet));
    out := ReadWriteSet(rs, ws);
  }

  method CopyReads(rs: seq<KVRead>) returns (out: seq<KVRead>)
    ensures out == rs
  {
    out := [];
    for i := 0 to |rs|
      invariant out == rs[..i]
    {
      var version: Option<Version> := None;
      if rs[i].version.Some? {
        version := Some(Version(rs[i].version.value.blockNum, rs[i].version.value.txNum));
      }
      out := out + [KVRead(rs[i].key, version)];
    }
  }

  method CopyWrites(ws: seq<KVWrite>) returns (out: seq<KVWrite>)
    ensures out == ws
  {
    out := [];
    for i := 0 to |ws|
      invariant out == ws[..i]
    {
      out := out + [KVWrite(ws[i].key, ws[i].isDelete, ws[i].value)];
    }
  }

  /** Endorsers that executed to the same set, listed in any order, marshal the same message. */
  lemma FabricEndorsersAgree(a: ReadWriteSet, b: ReadWriteSet, x: ReadWriteSet, y: ReadWriteSet)
    requires DistinctRWS(a) && IsMarshalled(a, x) && IsMarshalled(b, y)
    requires multiset(a.readSet) == multiset(b.readSet) && multiset(a.writeSet) == multiset(b.writeSet)
    ensures x == y
  {
    SameListing(ReadKey, a.readSet, x.readSet, y.readSet);
    SameListing(WriteKey, a.writeSet, x.writeSet, y.writeSet);
  }

  lemma SameListing<T>(key: T -> string, a: seq<T>, x: seq<T>, y: seq<T>)
    requires DistinctKeys(key, a) && multiset(x) == multiset(a) && multiset(y) == multiset(a)
    requires SortedBy(key, x) && SortedBy(key, y)
    ensures x == y
  {
    PermutationKeepsDistinct(key, a, x);
    PermutationKeepsDistinct(key, a, y);
    SameMembers(x, y);
    SortedIsUnique(key, x, y);
  }

  /** Marshalling a listing of a simulation's maps gives a listing of them. */
  lemma MarshalledLists(rws: ReadWriteSet, out: ReadWriteSet, s: Sim)
    requires ListsReads(rws.readSet, s.readMap) && ListsWrites(rws.writeSet, s.writeMap) && IsMarshalled(rws, out)
    ensures ListsReads(out.readSet, s.readMap) && ListsWrites(out.writeSet, s.writeMap)
  {
    SameMembers(rws.readSet, out.readSet);
    SameMembers(rws.writeSet, out.writeSet);
    PermutationKeepsDistinct(ReadKey, rws.readSet, out.readSet);
    PermutationKeepsDistinct(WriteKey, rws.writeSet, out.writeSet);
    assert forall i, j | 0 <= i < j < |out.readSet| :: ReadKey(out.readSet[i]) != ReadKey(out.readSet[j]);
    assert forall i, j | 0 <= i < j < |out.writeSet| :: WriteKey(out.writeSet[i]) != WriteKey(out.writeSet[j]);
  }
}
