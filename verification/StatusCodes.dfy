/** Ledger-specific status codes and their protocol-neutral meaning (blocks/status.go,
    blocks/fabric/status.go, blocks/fabricx/status.go).  The numeric values of the two
    protobuf enumerations live in generated code outside the repository, so they are
    parameters here; Go accepts a switch over them only when they are distinct. */
module StatusCodes {
  import opened Types

  /** A forward mapping: the status a code stands for, and the raw code it reports. */
  type Forward = int -> (Status, int)

  /** Only a committed transaction is valid, and every status but Unknown is final. */
  lemma StatusMeans(s: Status)
    ensures s.Valid() <==> s == Committed
    ensures s.IsFinal() <==> s != Unknown
  {
  }

  // ------------------------------------------------------- forward mappings

  /** peer.TxValidationCode: the codes with a meaning of their own. */
  datatype FabricCodes = FabricCodes(
    valid: int, badCreatorSignature: int, duplicateTxid: int, mvccReadConflict: int,
    phantomReadConflict: int, endorsementPolicyFailure: int, notValidated: int)
  {
    ghost predicate Distinct() {
      var s := [valid, badCreatorSignature, duplicateTxid, mvccReadConflict, phantomReadConflict,
                endorsementPolicyFailure, notValidated];
      forall i, j | 0 <= i < j < |s| :: s[i] != s[j]
    }
  }

  function StatusFromValidationCode(c: FabricCodes, code: int): (Status, int) {
    var status :=
      if code == c.valid then Committed
      else if code == c.badCreatorSignature then InvalidSignature
      else if code == c.duplicateTxid then DuplicateTxID
      else if code == c.mvccReadConflict || code == c.phantomReadConflict then MVCCConflict
      else if code == c.endorsementPolicyFailure then EndorsementPolicyFailure
      else if code == c.notValidated then Unknown
      else Malformed;
    (status, code)
  }

  /** committerpb.Status: the codes with a meaning of their own. */
  datatype CommitterCodes = CommitterCodes(
    committed: int, unspecified: int, signatureInvalid: int, mvccConflict: int, duplicateTxId: int)
  {
    ghost predicate Distinct() {
      var s := [committed, unspecified, signatureInvalid, mvccConflict, duplicateTxId];
      forall i, j | 0 <= i < j < |s| :: s[i] != s[j]
    }
  }

  function StatusFromCommitterStatus(c: CommitterCodes, code: int): (Status, int) {
    var status :=
      if code == c.committed then Committed
      else if code == c.unspecified then Unknown
      else if code == c.signatureInvalid then InvalidSignature
      else if code == c.mvccConflict then MVCCConflict
      else if code == c.duplicateTxId then DuplicateTxID
      else if code >= 100 then Malformed
      else Unrecognized;
    (status, code)
  }

  /** Every Fabric code by name; any other one means malformed, and raw codes are kept. */
  lemma FabricStatuses(c: FabricCodes, code: int)
    requires c.Distinct()
    ensures StatusFromValidationCode(c, c.valid).0 == Committed
    ensures StatusFromValidationCode(c, c.badCreatorSignature).0 == InvalidSignature
    ensures StatusFromValidationCode(c, c.duplicateTxid).0 == DuplicateTxID
    ensures StatusFromValidationCode(c, c.mvccReadConflict).0 == MVCCConflict
    ensures StatusFromValidationCode(c, c.phantomReadConflict).0 == MVCCConflict
    ensures StatusFromValidationCode(c, c.endorsementPolicyFailure).0 == EndorsementPolicyFailure
    ensures StatusFromValidationCode(c, c.notValidated).0 == Unknown
    ensures code !in {c.valid, c.badCreatorSignature, c.duplicateTxid, c.mvccReadConflict, c.phantomReadConflict,
                      c.endorsementPolicyFailure, c.notValidated}
            ==> StatusFromValidationCode(c, code).0 == Malformed
    ensures StatusFromValidationCode(c, code).1 == code
  {
    var s := [c.valid, c.badCreatorSignature, c.duplicateTxid, c.mvccReadConflict, c.phantomReadConflict,
              c.endorsementPolicyFailure, c.notValidated];
    assert s[0] != s[1] && s[0] != s[2] && s[0] != s[3] && s[0] != s[4] && s[0] != s[5] && s[0] != s[6];
    assert s[1] != s[2] && s[1] != s[3] && s[1] != s[4] && s[1] != s[5] && s[1] != s[6];
    assert s[2] != s[3] && s[2] != s[4] && s[2] != s[5] && s[2] != s[6];
    assert s[3] != s[5] && s[3] != s[6] && s[4] != s[5] && s[4] != s[6] && s[5] != s[6];
  }

  /** Every Fabric-X code by name; of the others, those from 100 mean malformed and the rest are
      not recognized; raw codes are kept. */
  lemma FabricxStatuses(c: CommitterCodes, code: int)
    requires c.Distinct()
    ensures StatusFromCommitterStatus(c, c.committed).0 == Committed
    ensures StatusFromCommitterStatus(c, c.unspecified).0 == Unknown
    ensures StatusFromCommitterStatus(c, c.signatureInvalid).0 == InvalidSignature
    ensures StatusFromCommitterStatus(c, c.mvccConflict).0 == MVCCConflict
    ensures StatusFromCommitterStatus(c, c.duplicateTxId).0 == DuplicateTxID
    ensures code !in {c.committed, c.unspecified, c.signatureInvalid, c.mvccConflict, c.duplicateTxId}
            ==> StatusFromCommitterStatus(c, code).0 == if code >= 100 then Malformed else Unrecognized
    ensures StatusFromCommitterStatus(c, code).1 == code
  {
    var s := [c.committed, c.unspecified, c.signatureInvalid, c.mvccConflict, c.duplicateTxId];
    assert s[0] != s[1] && s[0] != s[2] && s[0] != s[3] && s[0] != s[4];
    assert s[1] != s[2] && s[1] != s[3] && s[1] != s[4] && s[2] != s[3] && s[2] != s[4] && s[3] != s[4];
  }

  // ------------------------------------------------------- inverting a mapping

  ghost predicate Sorted(s: seq<int>) { forall i, j | 0 <= i < j < |s| :: s[i] <= s[j] }

  function InsertInt(x: int, s: seq<int>): (r: seq<int>)
    requires Sorted(s)
    ensures Sorted(r) && forall y :: y in r <==> y == x || y in s
  {
    if s == [] then [x]
    else if x <= s[0] then [x] + s
    else
      var r := InsertInt(x, s[1..]);
      assert s == [s[0]] + s[1..];
      assert forall y | y in s[1..] :: s[0] <= y;
      assert forall y | y in r :: s[0] <= y;
      assert forall j | 0 <= j < |r| :: r[j] in r;
      [s[0]] + r
  }

  function SortInts(s: seq<int>): (r: seq<int>)
    ensures Sorted(r) && forall y :: y in r <==> y in s
  {
    if s == [] then []
    else
      assert s == [s[0]] + s[1..];
      InsertInt(s[0], SortInts(s[1..]))
  }

  /** `c` is the smallest named code with the status. */
  ghost predicate Smallest(names: set<int>, fn: Forward, s: Status, c: int) {
    c in names && fn(c).0 == s && forall d | d in names && fn(d).0 == s :: c <= d
  }

  /** `raw` is the raw code of the smallest code with the status. */
  ghost predicate Picks(names: set<int>, fn: Forward, s: Status, raw: int) {
    exists c :: Smallest(names, fn, s, c) && raw == fn(c).1
  }

  ghost predicate PicksSmallest(names: set<int>, fn: Forward, m: map<Status, int>) {
    forall s | s in m :: Picks(names, fn, s, m[s])
  }

  /** The statuses that occur, each with the raw code of its smallest code. */
  ghost predicate IsInverse(names: set<int>, fn: Forward, m: map<Status, int>) {
    (forall c | c in names :: fn(c).0 in m) && PicksSmallest(names, fn, m)
  }

  method ListCodes(names: set<int>) returns (codes: seq<int>)
    ensures forall c :: c in codes <==> c in names
  {
    codes := [];
    var todo := names;
    while todo != {}
      invariant todo <= names && forall c :: c in codes <==> c in names && c !in todo
      decreases |todo|
    {
      assert (forall c :: c !in todo) ==> todo == {};
      var c :| c in todo;
      codes := codes + [c];
      todo := todo - {c};
    }
  }

  method CodesByStatus(names: set<int>, fn: Forward) returns (result: map<Status, int>)
    ensures IsInverse(names, fn, result)
  {
    var codes := ListCodes(names);
    codes := SortInts(codes);
    result := map[];
    for i := 0 to |codes|
      invariant forall k | 0 <= k < i :: fn(codes[k]).0 in result
      invariant PicksSmallest(names, fn, result)
    {
      var (status, rawCode) := fn(codes[i]);
      if status !in result {
        FirstIsSmallest(names, fn, codes, i);
        PickNext(names, fn, result, codes[i]);
        result := result[status := rawCode];
      }
    }
    assert forall c | c in names :: c in codes;
  }

  /** The first sorted code with its status is the smallest one. */
  lemma FirstIsSmallest(names: set<int>, fn: Forward, codes: seq<int>, i: nat)
    requires Sorted(codes) && (forall c :: c in codes <==> c in names) && i < |codes|
    requires forall k | 0 <= k < i :: fn(codes[k]).0 != fn(codes[i]).0
    ensures Smallest(names, fn, fn(codes[i]).0, codes[i])
  {
    forall d | d in names && fn(d).0 == fn(codes[i]).0 ensures codes[i] <= d {
      assert d in codes;
      var k :| 0 <= k < |codes| && codes[k] == d;
    }
  }

  lemma PickNext(names: set<int>, fn: Forward, m: map<Status, int>, c: int)
    requires PicksSmallest(names, fn, m) && Smallest(names, fn, fn(c).0, c)
    ensures PicksSmallest(names, fn, m[fn(c).0 := fn(c).1])
  {
    assert Picks(names, fn, fn(c).0, fn(c).1);
  }

  /** Codes picked by the inverse map back onto the status they were picked for. */
  lemma RightInverse(names: set<int>, fn: Forward, m: map<Status, int>, s: Status)
    requires IsInverse(names, fn, m) && s in m && forall c | c in names :: fn(c).1 == c
    ensures fn(m[s]) == (s, m[s]) && Smallest(names, fn, s, m[s])
  {
    assert Picks(names, fn, s, m[s]);
  }

  /** The inverse is determined: no two maps qualify, whatever order the names came in. */
  lemma InverseIsUnique(names: set<int>, fn: Forward, m1: map<Status, int>, m2: map<Status, int>)
    requires IsInverse(names, fn, m1) && IsInverse(names, fn, m2)
    ensures m1 == m2
  {
    forall s ensures s in m1 <==> s in m2 {
      assert s in m1 ==> Picks(names, fn, s, m1[s]);
      assert s in m2 ==> Picks(names, fn, s, m2[s]);
    }
    forall s | s in m1 ensures m1[s] == m2[s] {
      assert Picks(names, fn, s, m1[s]) && Picks(names, fn, s, m2[s]);
      var c :| Smallest(names, fn, s, c) && m1[s] == fn(c).1;
      var d :| Smallest(names, fn, s, d) && m2[s] == fn(d).1;
      assert c == d;
    }
  }

  /** What the validator needs of a code table: its verdicts survive a trip through the filter. */
  ghost predicate Reversible(fn: Forward, codes: map<Status, int>) {
    forall s | s == Committed || s == MVCCConflict :: s in codes && fn(codes[s]) == (s, codes[s])
  }

  lemma FabricReversible(c: FabricCodes, names: set<int>, codes: map<Status, int>)
    requires c.Distinct() && {c.valid, c.mvccReadConflict} <= names
    requires IsInverse(names, code => StatusFromValidationCode(c, code), codes)
    ensures Reversible(code => StatusFromValidationCode(c, code), codes)
    ensures codes[Committed] == c.valid
  {
    var fn := code => StatusFromValidationCode(c, code);
    var s := [c.valid, c.badCreatorSignature, c.duplicateTxid, c.mvccReadConflict, c.phantomReadConflict,
              c.endorsementPolicyFailure, c.notValidated];
    assert s[0] == c.valid && s[1] == c.badCreatorSignature && s[2] == c.duplicateTxid && s[3] == c.mvccReadConflict;
    assert fn(c.valid).0 == Committed && fn(c.mvccReadConflict).0 == MVCCConflict;
    RightInverse(names, fn, codes, Committed);
    RightInverse(names, fn, codes, MVCCConflict);
  }

  lemma FabricxReversible(c: CommitterCodes, names: set<int>, codes: map<Status, int>)
    requires c.Distinct() && {c.committed, c.mvccConflict} <= names
    requires IsInverse(names, code => StatusFromCommitterStatus(c, code), codes)
    ensures Reversible(code => StatusFromCommitterStatus(c, code), codes)
    ensures codes[Committed] == c.committed && codes[MVCCConflict] == c.mvccConflict
  {
    var fn := code => StatusFromCommitterStatus(c, code);
    var s := [c.committed, c.unspecified, c.signatureInvalid, c.mvccConflict, c.duplicateTxId];
    assert s[0] == c.committed && s[1] == c.unspecified && s[2] == c.signatureInvalid && s[3] == c.mvccConflict;
    assert fn(c.committed).0 == Committed && fn(c.mvccConflict).0 == MVCCConflict;
    RightInverse(names, fn, codes, Committed);
    RightInverse(names, fn, codes, MVCCConflict);
  }
}
