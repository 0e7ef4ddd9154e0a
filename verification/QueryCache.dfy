/** Snapshots of the query service (state/queryservice/store.go): a cache over one
    repeatable-read view, filled by concurrent Get calls. */
module QueryCache {
  import opened Types
  import Keys

  datatype Row = Row(key: string, value: Bytes, version: nat)

  /** The rows the service returns for one key of a namespace in the view. */
  type View = (string, string) -> seq<Row>

  predicate NulFree(s: string) { '\0' !in s }

  function CacheKey(ns: string, key: string): string { ns + "\0" + key }

  /** The first returned row of the key, as a record; nil when there is none. */
  function RecordOf(ns: string, key: string, rows: seq<Row>): Option<WriteRecord> {
    if rows == [] then None
    else if rows[0].key == key then Some(WriteRecord(ns, key, 0, 0, rows[0].version, rows[0].value, false, ""))
    else RecordOf(ns, key, rows[1..])
  }

  /** An uncached read of the view. */
  function ViewGet(view: View, ns: string, key: string): Option<WriteRecord> { RecordOf(ns, key, view(ns, key)) }

  /** The answer is the first returned row of the key, with its value and version and never a
      delete; nothing exactly when no row has the key. */
  lemma ViewGetMeans(view: View, ns: string, key: string)
    ensures match ViewGet(view, ns, key)
            case None => forall r | r in view(ns, key) :: r.key != key
            case Some(rec) =>
              && rec.ns == ns && rec.key == key && !rec.isDelete
              && exists i :: FirstRow(view(ns, key), key, i) && rec.value == view(ns, key)[i].value
                             && rec.version == view(ns, key)[i].version
  {
    RecordIsFirst(ns, key, view(ns, key));
  }

  ghost predicate FirstRow(rows: seq<Row>, key: string, i: int) {
    0 <= i < |rows| && rows[i].key == key && forall j | 0 <= j < i :: rows[j].key != key
  }

  lemma {:induction false} RecordIsFirst(ns: string, key: string, rows: seq<Row>)
    ensures match RecordOf(ns, key, rows)
            case None => forall r | r in rows :: r.key != key
            case Some(rec) =>
              && rec.ns == ns && rec.key == key && !rec.isDelete
              && exists i :: FirstRow(rows, key, i) && rec.value == rows[i].value && rec.version == rows[i].version
  {
    if rows != [] {
      assert rows == [rows[0]] + rows[1..];
      if rows[0].key == key {
        assert FirstRow(rows, key, 0);
      } else {
        RecordIsFirst(ns, key, rows[1..]);
        var rec := RecordOf(ns, key, rows);
        if rec.Some? {
          var i :| FirstRow(rows[1..], key, i) && rec.value.value == rows[1..][i].value
                   && rec.value.version == rows[1..][i].version;
          assert FirstRow(rows, key, i + 1);
        }
      }
    }
  }

  /** Store.get: one query; it fails when the service does. */
  method Fetch(view: View, ns: string, key: string, ok: bool) returns (r: Result<Option<WriteRecord>>)
    ensures r == if ok then Ok(ViewGet(view, ns, key)) else Err
  {
    if !ok { return Err; }
    var rows := view(ns, key);
    for i := 0 to |rows|
      invariant RecordOf(ns, key, rows) == RecordOf(ns, key, rows[i..])
    {
      assert rows[i..][0] == rows[i] && rows[i..][1..] == rows[i + 1..];
      if rows[i].key == key {
        return Ok(Some(WriteRecord(ns, key, 0, 0, rows[i].version, rows[i].value, false, "")));
      }
    }
    return Ok(None);
  }

  type Cache = map<string, Option<WriteRecord>>

  /** Every entry is what the view answers for every NUL-free namespace and key it stands for. */
  ghost predicate Faithful(view: View, cache: Cache) {
    forall ns: string, key: string | NulFree(ns) && CacheKey(ns, key) in cache ::
      cache[CacheKey(ns, key)] == ViewGet(view, ns, key)
  }

  lemma CacheKeyInjective(ns1: string, k1: string, ns2: string, k2: string)
    requires NulFree(ns1) && NulFree(ns2) && CacheKey(ns1, k1) == CacheKey(ns2, k2)
    ensures ns1 == ns2 && k1 == k2
  {
    Keys.JoinInjective('\0', ns1, k1, ns2, k2);
  }

  lemma StoreKeepsFaithful(view: View, cache: Cache, ns: string, key: string)
    requires Faithful(view, cache) && NulFree(ns)
    ensures Faithful(view, cache[CacheKey(ns, key) := ViewGet(view, ns, key)])
  {
    forall n: string, k: string | NulFree(n) && CacheKey(n, k) == CacheKey(ns, key) ensures n == ns && k == key {
      CacheKeyInjective(n, k, ns, key);
    }
  }

  class Snapshot {
    const view: View
    var cache: Cache

    constructor (view: View)
      ensures this.view == view && cache == map[]
    {
      this.view, cache := view, map[];
    }

    /** `ok` says whether the query succeeds, should one be needed.  On a faithful cache and
        for a NUL-free namespace the answer is that of an uncached read. */
    method Get(ns: string, key: string, ok: bool) returns (r: Result<Option<WriteRecord>>)
      modifies this
      ensures r == (if CacheKey(ns, key) in old(cache) then Ok(old(cache)[CacheKey(ns, key)])
                    else if ok then Ok(ViewGet(view, ns, key)) else Err)
      ensures cache == if ok && CacheKey(ns, key) !in old(cache)
                       then old(cache)[CacheKey(ns, key) := ViewGet(view, ns, key)] else old(cache)
      ensures old(Faithful(view, cache)) && NulFree(ns) ==>
                Faithful(view, cache) && (r.Ok? ==> r.value == ViewGet(view, ns, key))
    {
      var ck := CacheKey(ns, key);
      if ck in cache { return Ok(cache[ck]); }
      r := Fetch(view, ns, key, ok);
      if r.Err? { return; }
      if Faithful(view, cache) && NulFree(ns) { StoreKeepsFaithful(view, cache, ns, key); }
      cache := cache[ck := r.value];
    }
  }

  // ------------------------------------------------------------ concurrent calls

  /** Where a Get call is: before the lookup, after a miss, with a record to store, done. */
  datatype Pc = Started | Missed | Holding(rec: Option<WriteRecord>) | Finished(result: Result<Option<WriteRecord>>)

  datatype Call = Call(ns: string, key: string, pc: Pc)

  datatype State = State(cache: Cache, calls: seq<Call>)

  datatype Step = Begin(ns: string, key: string) | Lookup(i: nat) | Query(i: nat, ok: bool) | Put(i: nat)

  function SetPc(s: State, i: nat, pc: Pc): State
    requires i < |s.calls|
  {
    s.(calls := s.calls[i := s.calls[i].(pc := pc)])
  }

  /** The lookup and the store are separate critical sections; the query holds no lock. */
  function Next(view: View, s: State, step: Step): State {
    match step
    case Begin(ns, key) => s.(calls := s.calls + [Call(ns, key, Started)])
    case Lookup(i) =>
      if i < |s.calls| && s.calls[i].pc.Started? then
        var ck := CacheKey(s.calls[i].ns, s.calls[i].key);
        SetPc(s, i, if ck in s.cache then Finished(Ok(s.cache[ck])) else Missed)
      else s
    case Query(i, ok) =>
      if i < |s.calls| && s.calls[i].pc.Missed? then
        SetPc(s, i, if ok then Holding(ViewGet(view, s.calls[i].ns, s.calls[i].key)) else Finished(Err))
      else s
    case Put(i) =>
      if i < |s.calls| && s.calls[i].pc.Holding? then
        var c := s.calls[i];
        SetPc(s, i, Finished(Ok(c.pc.rec))).(cache := s.cache[CacheKey(c.ns, c.key) := c.pc.rec])
      else s
  }

  function Run(view: View, steps: seq<Step>): State {
    if steps == [] then State(map[], []) else Next(view, Run(view, steps[..|steps| - 1]), steps[|steps| - 1])
  }

  ghost predicate CallInv(view: View, c: Call) {
    && NulFree(c.ns)
    && (c.pc.Holding? ==> c.pc.rec == ViewGet(view, c.ns, c.key))
    && (c.pc.Finished? && c.pc.result.Ok? ==> c.pc.result.value == ViewGet(view, c.ns, c.key))
  }

  ghost predicate Inv(view: View, s: State) {
    Faithful(view, s.cache) && forall i | 0 <= i < |s.calls| :: CallInv(view, s.calls[i])
  }

  lemma StepKeeps(view: View, s: State, step: Step)
    requires Inv(view, s) && (step.Begin? ==> NulFree(step.ns))
    ensures Inv(view, Next(view, s, step))
  {
    if step.Put? && step.i < |s.calls| && s.calls[step.i].pc.Holding? {
      StoreKeepsFaithful(view, s.cache, s.calls[step.i].ns, s.calls[step.i].key);
    }
  }

  /** For NUL-free namespaces every interleaving of concurrent calls answers, whenever a call
      answers at all, what an uncached read of the view answers, absences included. */
  lemma {:induction false} CacheIsTransparent(view: View, steps: seq<Step>)
    requires forall t | t in steps && t.Begin? :: NulFree(t.ns)
    ensures Inv(view, Run(view, steps))
    ensures forall c | c in Run(view, steps).calls && c.pc.Finished? && c.pc.result.Ok? ::
              c.pc.result.value == ViewGet(view, c.ns, c.key)
  {
    if steps != [] {
      var p, t := steps[..|steps| - 1], steps[|steps| - 1];
      assert t in steps && forall x | x in p :: x in steps;
      CacheIsTransparent(view, p);
      StepKeeps(view, Run(view, p), t);
    }
  }

  /** A namespace shares a cache entry with another, NUL-free one exactly when it holds a NUL. */
  lemma CollidesIff(ns: string)
    ensures (exists key: string, ns2: string, k2: string ::
               NulFree(ns2) && ns2 != ns && CacheKey(ns, key) == CacheKey(ns2, k2))
       <==> !NulFree(ns)
  {
    if NulFree(ns) {
      forall key: string, ns2: string, k2: string | NulFree(ns2) && CacheKey(ns, key) == CacheKey(ns2, k2)
        ensures ns2 == ns
      {
        CacheKeyInjective(ns, key, ns2, k2);
      }
    } else {
      var i := FirstNul(ns);
      var ns2, k2 := ns[..i], ns[i + 1..] + "\0" + "";
      assert ns == ns2 + "\0" + ns[i + 1..];
      assert CacheKey(ns, "") == CacheKey(ns2, k2);
    }
  }

  lemma {:induction false} FirstNul(s: string) returns (i: nat)
    requires !NulFree(s)
    ensures i < |s| && s[i] == '\0' && NulFree(s[..i])
  {
    if s[0] == '\0' {
      i := 0;
    } else {
      assert s == [s[0]] + s[1..];
      var j := FirstNul(s[1..]);
      i := j + 1;
      assert s[..i] == [s[0]] + s[1..][..j];
    }
  }

  /** Reads are repeatable without a second query: once a call has answered, in whatever way,
      every later lookup of its key answers at once. */
  lemma {:induction false} AnsweredIsCached(view: View, steps: seq<Step>)
    ensures var s := Run(view, steps);
            forall c | c in s.calls && c.pc.Finished? && c.pc.result.Ok? :: CacheKey(c.ns, c.key) in s.cache
  {
    if steps != [] {
      AnsweredIsCached(view, steps[..|steps| - 1]);
      var s, t := Run(view, steps[..|steps| - 1]), Run(view, steps);
      assert forall i | 0 <= i < |s.calls| :: s.calls[i] in s.calls;
    }
  }

  lemma CachedAnswersAtOnce(view: View, steps: seq<Step>, i: nat)
    requires var s := Run(view, steps);
             i < |s.calls| && s.calls[i].pc.Started? && CacheKey(s.calls[i].ns, s.calls[i].key) in s.cache
    ensures var s, t := Run(view, steps), Run(view, steps + [Lookup(i)]);
            |t.calls| == |s.calls|
            && t.calls[i].pc == Finished(Ok(s.cache[CacheKey(s.calls[i].ns, s.calls[i].key)]))
  {
    assert (steps + [Lookup(i)])[..|steps|] == steps;
  }

  // ------------------------------------------------------- where the cache misleads

  ghost predicate AnswersRight(view: View, steps: seq<Step>) {
    forall c | c in Run(view, steps).calls && c.pc.Finished? && c.pc.result.Ok? ::
      c.pc.result.value == ViewGet(view, c.ns, c.key)
  }

  /** Calls use NUL-free namespaces, or `ns`. */
  ghost predicate Uses(ns: string, steps: seq<Step>) {
    forall t | t in steps && t.Begin? :: NulFree(t.ns) || t.ns == ns
  }

  /** Reading a namespace beside NUL-free ones is transparent, for every view and every
      interleaving, exactly when it holds no NUL itself. */
  lemma TransparentIff(ns: string)
    ensures (forall view: View, steps: seq<Step> | Uses(ns, steps) :: AnswersRight(view, steps)) <==> NulFree(ns)
  {
    if NulFree(ns) {
      forall view: View, steps: seq<Step> | Uses(ns, steps) ensures AnswersRight(view, steps) {
        CacheIsTransparent(view, steps);
      }
    } else {
      var view, steps := WrongAnswer(ns);
      assert Uses(ns, steps) && !AnswersRight(view, steps);
    }
  }

  /** A view with one record, at the empty key of the namespace. */
  function OneRecord(ns: string): View {
    (n: string, k: string) => if n == ns && k == "" then [Row("", [1], 0)] else []
  }

  /** Another key is read first, is absent, and is cached under the same cache key; the
      record that is there is then reported absent. */
  lemma WrongAnswer(ns: string) returns (view: View, steps: seq<Step>)
    requires !NulFree(ns)
    ensures Uses(ns, steps) && !AnswersRight(view, steps)
  {
    view := OneRecord(ns);
    var i := FirstNul(ns);
    var ns2, k2 := ns[..i], ns[i + 1..] + "\0";
    assert ns == ns2 + "\0" + ns[i + 1..];
    assert CacheKey(ns, "") == CacheKey(ns2, k2);
    var first := [Begin(ns2, k2), Lookup(0), Query(0, true), Put(0)];
    steps := first + [Begin(ns, ""), Lookup(1)];
    FirstCall(view, ns2, k2);
    var s := State(map[CacheKey(ns2, k2) := None], [Call(ns2, k2, Finished(Ok(None)))]);
    SecondCall(view, first, s, ns, "");
    var c := Call(ns, "", Finished(Ok(None)));
    assert c in Run(view, steps).calls && ViewGet(view, ns, "").Some?;
  }

  lemma FirstCall(view: View, ns: string, key: string)
    requires view(ns, key) == []
    ensures Run(view, [Begin(ns, key), Lookup(0), Query(0, true), Put(0)])
         == State(map[CacheKey(ns, key) := None], [Call(ns, key, Finished(Ok(None)))])
  {
    var a, b, c, d := Begin(ns, key), Lookup(0), Query(0, true), Put(0);
    assert [a][..0] == [] && [a, b][..1] == [a] && [a, b, c][..2] == [a, b] && [a, b, c, d][..3] == [a, b, c];
    assert Run(view, [a]) == State(map[], [Call(ns, key, Started)]);
    assert Run(view, [a, b]) == State(map[], [Call(ns, key, Missed)]);
    assert Run(view, [a, b, c]) == State(map[], [Call(ns, key, Holding(None))]);
  }

  /** A second call whose cache key is present answers from the cache. */
  lemma SecondCall(view: View, first: seq<Step>, s: State, ns: string, key: string)
    requires Run(view, first) == s && |s.calls| == 1 && CacheKey(ns, key) in s.cache
    ensures Run(view, first + [Begin(ns, key), Lookup(1)])
         == State(s.cache, s.calls + [Call(ns, key, Finished(Ok(s.cache[CacheKey(ns, key)])))])
  {
    var one, two := first + [Begin(ns, key)], first + [Begin(ns, key), Lookup(1)];
    assert one[..|first|] == first && two[..|first| + 1] == one;
    assert Run(view, one) == State(s.cache, s.calls + [Call(ns, key, Started)]);
    assert (s.calls + [Call(ns, key, Started)])[1] == Call(ns, key, Started);
  }
}
