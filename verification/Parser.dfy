/** Parsing raw blocks (blocks/fabric/parser.go, blocks/fabricx/parser.go), on messages
    rather than bytes: an envelope is what its unmarshalling yields. */
module Parser {
  import opened Types
  import opened FabricxCodec
  import opened StatusCodes
  import TimeTravel

  /** One namespace of a classic Fabric rwset; `None` when its KVRWSet does not decode. */
  datatype FabricNs = FabricNs(ns: string, kv: Option<ReadWriteSet>)

  /** An envelope by what the parsers find in it.  A body of `None` does not decode. */
  datatype Envelope =
    | BadEnvelope
    | ConfigEnvelope(config: Option<Bytes>)
    | EndorserTx(fabricId: string, fabricBody: Option<seq<FabricNs>>)
    | MessageTx(fabricxId: string, fabricxBody: Option<PbTx>)
    | OtherEnvelope

  datatype Header = Header(number: nat, previousHash: Bytes, dataHash: Bytes)

  /** `filter` is the TRANSACTIONS_FILTER metadata, `None` when the block has no such entry. */
  datatype RawBlock = RawBlock(header: Header, data: seq<Envelope>, filter: Option<seq<byte>>)

  datatype Kind = Fabric | FabricX

  /** A ledger type: its payload format and its status codes. */
  datatype Protocol = Protocol(kind: Kind, forward: Forward)

  // ------------------------------------------------------------ transactions

  datatype TxParse = TxError | NoTx | GotTx(id: string, nsRWS: seq<NsReadWriteSet>)

  /** Namespaces without a name are skipped; one that does not decode fails the transaction. */
  function FabricSets(s: seq<FabricNs>): Option<seq<NsReadWriteSet>> {
    if s == [] then Some([])
    else
      var last := s[|s| - 1];
      match FabricSets(s[..|s| - 1])
      case None => None
      case Some(out) =>
        if last.ns == "" then Some(out)
        else if last.kv.None? then None
        else Some(out + [NsReadWriteSet(last.ns, last.kv.value)])
  }

  function TxOf(p: Protocol, e: Envelope): TxParse {
    match (p.kind, e)
    case (Fabric, EndorserTx(id, Some(body))) =>
      (match FabricSets(body) case Some(s) => GotTx(id, s) case None => TxError)
    case (FabricX, MessageTx(id, Some(body))) => GotTx(id, Decoded(body.namespaces))
    case (Fabric, EndorserTx(_, None)) => TxError
    case (FabricX, MessageTx(_, None)) => TxError
    case _ => NoTx
  }

  method ParseTx(p: Protocol, e: Envelope) returns (r: TxParse)
    ensures r == TxOf(p, e)
  {
    if p.kind.Fabric? && e.EndorserTx? {
      if e.fabricBody.None? { return TxError; }
      var body := e.fabricBody.value;
      var out: seq<NsReadWriteSet> := [];
      for i := 0 to |body|
        invariant FabricSets(body[..i]) == Some(out)
      {
        assert body[..i + 1][..i] == body[..i];
        if body[i].ns == "" { continue; }
        if body[i].kv.None? {
          FabricSetsStuck(body, i + 1);
          return TxError;
        }
        out := out + [NsReadWriteSet(body[i].ns, body[i].kv.value)];
      }
      assert body[..|body|] == body;
      return GotTx(e.fabricId, out);
    }
    if p.kind.FabricX? && e.MessageTx? {
      if e.fabricxBody.None? { return TxError; }
      var s := DecodeNamespaces(e.fabricxBody.value.namespaces);
      return GotTx(e.fabricxId, s);
    }
    return NoTx;
  }

  lemma {:induction false} FabricSetsStuck(s: seq<FabricNs>, k: nat)
    requires k <= |s| && FabricSets(s[..k]).None?
    ensures FabricSets(s).None?
    decreases |s|
  {
    if k < |s| {
      assert s[..|s| - 1][..k] == s[..k];
      FabricSetsStuck(s[..|s| - 1], k);
    } else {
      assert s[..k] == s;
    }
  }

  /** A classic rwset decodes exactly when each of its named namespaces does. */
  lemma {:induction false} FabricSetsDecode(s: seq<FabricNs>)
    ensures FabricSets(s).Some? <==> forall m | m in s && m.ns != "" :: m.kv.Some?
  {
    if s != [] {
      FabricSetsDecode(s[..|s| - 1]);
      assert s == s[..|s| - 1] + [s[|s| - 1]];
    }
  }

  /** The positions of the named namespaces: all of them, increasing. */
  function Named(s: seq<FabricNs>): (at: seq<nat>)
    ensures forall i | 0 <= i < |at| :: at[i] < |s|
    ensures forall i, j | 0 <= i < j < |at| :: at[i] < at[j]
    ensures forall k | 0 <= k < |s| :: k in at <==> s[k].ns != ""
  {
    if s == [] then []
    else
      var at := Named(s[..|s| - 1]);
      assert forall k | k in at :: k < |s| - 1;
      if s[|s| - 1].ns == "" then at else at + [|s| - 1]
  }

  /** ... and then holds the named namespaces, all of them, in order, and nothing else. */
  lemma {:induction false} FabricSetsMeans(s: seq<FabricNs>)
    requires FabricSets(s).Some?
    ensures var (out, at) := (FabricSets(s).value, Named(s));
            && |out| == |at|
            && forall i | 0 <= i < |at| ::
                 s[at[i]].kv.Some? && out[i] == NsReadWriteSet(s[at[i]].ns, s[at[i]].kv.value)
  {
    if s != [] {
      var p := s[..|s| - 1];
      FabricSetsMeans(p);
      assert forall k | 0 <= k < |p| :: p[k] == s[k];
    }
  }

  /** Which envelopes are transactions of a ledger type, which are malformed ones, and which
      are none of its business. */
  lemma TxOfMeans(p: Protocol, e: Envelope)
    ensures TxOf(p, e).GotTx?
       <==> match p.kind
            case Fabric => e.EndorserTx? && e.fabricBody.Some?
                           && forall m | m in e.fabricBody.value && m.ns != "" :: m.kv.Some?
            case FabricX => e.MessageTx? && e.fabricxBody.Some?
    ensures TxOf(p, e).NoTx? <==> !(if p.kind.Fabric? then e.EndorserTx? else e.MessageTx?)
    ensures var t := TxOf(p, e);
            t.GotTx? ==>
              match p.kind
              case Fabric => t.id == e.fabricId && FabricSets(e.fabricBody.value) == Some(t.nsRWS)
              case FabricX => t.id == e.fabricxId && t.nsRWS == Decoded(e.fabricxBody.value.namespaces)
  {
    if e.EndorserTx? && e.fabricBody.Some? { FabricSetsDecode(e.fabricBody.value); }
  }

  // ------------------------------------------------------------------ blocks

  function StatusForTx(p: Protocol, filter: seq<byte>, n: nat): (Status, int) {
    if n >= |filter| then (Unknown, 0) else p.forward(filter[n] as int)
  }

  /** The transactions of the first envelopes, numbered by position; `Err` for a CONFIG
      envelope without a configuration. */
  function ParseTxs(p: Protocol, filter: seq<byte>, data: seq<Envelope>): Result<seq<Transaction>> {
    if data == [] then Ok([])
    else
      var n := |data| - 1;
      match ParseTxs(p, filter, data[..n])
      case Err => Err
      case Ok(ts) =>
        if data[n] == ConfigEnvelope(None) then Err
        else
          match TxOf(p, data[n])
          case GotTx(id, s) =>
            var (status, code) := StatusForTx(p, filter, n);
            Ok(ts + [Transaction(id, n, status, code, s)])
          case _ => Ok(ts)
  }

  function Parsed(p: Protocol, b: RawBlock): Result<Block> {
    if b.filter.None? then Err
    else
      match ParseTxs(p, b.filter.value, b.data)
      case Err => Err
      case Ok(ts) => Ok(Block(b.header.number, ts))
  }

  method Parse(p: Protocol, b: RawBlock) returns (r: Result<Block>)
    ensures r == Parsed(p, b)
  {
    if b.filter.None? { return Err; }
    var txs: seq<Transaction> := [];
    for n := 0 to |b.data|
      invariant ParseTxs(p, b.filter.value, b.data[..n]) == Ok(txs)
    {
      assert b.data[..n + 1][..n] == b.data[..n];
      var e := b.data[n];
      if e.BadEnvelope? { continue; }
      if e.ConfigEnvelope? {
        if e.config.None? {
          ParseStuck(p, b.filter.value, b.data, n + 1);
          return Err;
        }
        continue;
      }
      var t := ParseTx(p, e);
      if t.GotTx? {
        var (status, code) := StatusForTx(p, b.filter.value, n);
        txs := txs + [Transaction(t.id, n, status, code, t.nsRWS)];
      }
    }
    assert b.data[..|b.data|] == b.data;
    return Ok(Block(b.header.number, txs));
  }

  lemma {:induction false} ParseStuck(p: Protocol, filter: seq<byte>, data: seq<Envelope>, k: nat)
    requires k <= |data| && ParseTxs(p, filter, data[..k]).Err?
    ensures ParseTxs(p, filter, data).Err?
    decreases |data|
  {
    if k < |data| {
      assert data[..|data| - 1][..k] == data[..k];
      ParseStuck(p, filter, data[..|data| - 1], k);
    } else {
      assert data[..k] == data;
    }
  }

  /** Positions are strictly increasing block positions, and the status comes from the filter. */
  lemma {:induction false} ParsePositions(p: Protocol, filter: seq<byte>, data: seq<Envelope>)
    requires ParseTxs(p, filter, data).Ok?
    ensures var ts := ParseTxs(p, filter, data).value;
            && TimeTravel.AscendingTxs(ts)
            && forall t | t in ts :: t.number < |data| && (t.status, t.rawCode) == StatusForTx(p, filter, t.number)
  {
    if data != [] { ParsePositions(p, filter, data[..|data| - 1]); }
  }

  /** A transaction's status is what its own filter byte stands for; one beyond the filter has
      none yet. */
  lemma StatusOfParsed(p: Protocol, filter: seq<byte>, data: seq<Envelope>, t: Transaction)
    requires ParseTxs(p, filter, data).Ok? && t in ParseTxs(p, filter, data).value
    ensures if t.number < |filter| then (t.status, t.rawCode) == p.forward(filter[t.number] as int)
            else t.status == Unknown && t.rawCode == 0
  {
    ParsePositions(p, filter, data);
  }

  /** Nothing is dropped that is a transaction: the positions in the result are exactly those
      of the transaction envelopes. */
  lemma {:induction false} ParsedExactly(p: Protocol, filter: seq<byte>, data: seq<Envelope>, j: nat)
    requires ParseTxs(p, filter, data).Ok? && j < |data|
    ensures (exists t :: t in ParseTxs(p, filter, data).value && t.number == j) <==> TxOf(p, data[j]).GotTx?
  {
    var q, n := data[..|data| - 1], |data| - 1;
    var before, after := ParseTxs(p, filter, q).value, ParseTxs(p, filter, data).value;
    ParsePositions(p, filter, q);
    if j < n {
      ParsedExactly(p, filter, q, j);
      assert q[j] == data[j];
      assert forall t :: t in after && t.number == j <==> t in before && t.number == j;
    } else if TxOf(p, data[n]).GotTx? {
      assert after[|after| - 1].number == n && after[|after| - 1] in after;
    }
  }

  /** Parsing fails exactly for a CONFIG envelope without a configuration. */
  lemma {:induction false} ParseTxsFailsIff(p: Protocol, filter: seq<byte>, data: seq<Envelope>)
    ensures ParseTxs(p, filter, data).Err? <==> ConfigEnvelope(None) in data
  {
    if data != [] {
      var q, last := data[..|data| - 1], data[|data| - 1];
      ParseTxsFailsIff(p, filter, q);
      assert data == q + [last];
      assert ParseTxs(p, filter, data).Err? <==> ParseTxs(p, filter, q).Err? || last == ConfigEnvelope(None);
    }
  }

  /** ... or when the block has no filter; a parsed block carries the header's number. */
  lemma ParseFailsIff(p: Protocol, b: RawBlock)
    ensures Parsed(p, b).Err? <==> b.filter.None? || ConfigEnvelope(None) in b.data
    ensures Parsed(p, b).Ok? ==> Parsed(p, b).value.number == b.header.number
  {
    if b.filter.Some? { ParseTxsFailsIff(p, b.filter.value, b.data); }
  }

  /** Each transaction is what the envelope at its position holds. */
  lemma {:induction false} ParsedFrom(p: Protocol, filter: seq<byte>, data: seq<Envelope>)
    requires ParseTxs(p, filter, data).Ok?
    ensures forall t | t in ParseTxs(p, filter, data).value ::
              t.number < |data| && TxOf(p, data[t.number]) == GotTx(t.id, t.nsRWS)
  {
    if data != [] { ParsedFrom(p, filter, data[..|data| - 1]); }
  }

  /** The filter decides nothing but the statuses. */
  lemma {:induction false} FilterOnlyStatuses(p: Protocol, f: seq<byte>, g: seq<byte>, data: seq<Envelope>)
    requires ParseTxs(p, f, data).Ok?
    ensures ParseTxs(p, g, data).Ok?
    ensures var a, b := ParseTxs(p, f, data).value, ParseTxs(p, g, data).value;
            && |a| == |b|
            && forall i | 0 <= i < |a| :: b[i] == a[i].(status := b[i].status, rawCode := b[i].rawCode)
  {
    if data != [] { FilterOnlyStatuses(p, f, g, data[..|data| - 1]); }
  }
}
