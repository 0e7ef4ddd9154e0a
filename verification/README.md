# The commit pipeline of fabric-x-sdk, modelled and proved in Dafny

The model follows a transaction through the SDK. A contract program runs on a simulation
store over a pinned view (`Simulation`). Its read/write set is built into a Fabric-X message
and decoded again, or marshalled for Fabric (`FabricxCodec`, `FabricCodec`, `Sorting`,
`Packager`). Blocks are checked in one pass by the MVCC validator (`Mvcc`), appended to a hash-linked ledger (`Ledger`, `Parser`,
`StatusCodes`) and folded into an insert-only versioned table that answers time-travel reads
(`WorldState`, `VersionedDb`, `TimeTravel`).

The main results:

- **Serializability.** After every run of blocks, in both version modes, the table holds
  exactly the state that executing the committed programs one at a time, in chain order,
  leaves behind, and each program repeats the answers and writes of its simulation
  (`Serializability.Serializable`, `SerialOutcomes`). The condition is that every lookup of a
  simulation was recorded: none failed and none met a tombstone. For both ledger types the
  theorem covers the trip of the read/write set into the block and back
  (`Pipeline.FabricxSerializable`, `Pipeline.FabricSerializable`); on Fabric-X no tombstone
  can occur.
- **From envelopes to replicas.** A ledger that owns its store and is fed envelopes of
  simulated runs, among any others it drops, holds the serial state, and so does every node
  that has caught up with it (`EndToEnd.LedgerIsSerial`, `EndToEnd.CaughtUpNodeIsSerial`).
- **Block-at-once equals one-by-one** (`OneByOne`): soundness for every block, and equal
  verdicts and tables where reads come from snapshots, nothing is deleted and namespaces hold
  no colon, with the exact boundary of that equality.
- **Replication.** Re-parsing a committed block anywhere gives the verdicts the ledger
  computed; a node fed at least once through failures and restarts ends with the ledger's
  world state, and from every state it reaches it can catch up (`Ledger.ReplicaConverges`,
  `Replication.CaughtUpNodeAgrees`, `Replication.CanCatchUp`).
- **Concurrent components as state machines over all interleavings**: the synchronizer's
  lifecycle, the bounded stream hand-off, the finality table, the batching loop and the
  query-service cache.

Conventions. Go strings are byte strings. A nil byte slice and an empty one are the same
value. The world state is one table in insertion order; a block is applied whole or not at
all, and any SQL failure is one flag. A record getter may fail per key. Contract programs are
arbitrary functions from the answers so far to the next operation. Status codes of the
protobuf enums are symbolic and pairwise distinct, as a Go `switch` requires. Hashes are
arbitrary functions.

## Where the code and its promises differ

- The documentation of `monitorReadiness` (network/synchronizer.go:319-323) reads as if Ready
  were entered only while syncing. A cancelled monitor that has passed its height check still
  reports Ready, even while the loop backs off: `Lifecycle.StaleMonitorReportsReady` gives the
  interleaving, `Lifecycle.ReadyIsCurrentIff` the exact condition.
- The finality interface (notification/finality.go:24-41) speaks of one waiter per
  transaction. `Unregister` removes by transaction id, so a caller that gives up late can drop
  a newer caller's waiter: `Finality.AbortDropsAnother`, and exactly when in
  `Finality.AbortDropsAnotherIff`.
- `BlockNumber` is 0 both before anything is applied and after block 0, so a view opened on a
  fresh store is stable exactly when the block 0 delivered later writes nothing:
  `TimeTravel.FreshViewStableIff`, with a block that changes it in
  `TimeTravel.FreshViewChanges`.
- A lookup that meets a tombstone, or fails and is treated as an absence by the contract,
  leaves no read behind, so the validator cannot protect it:
  `Serializability.ProbeSerializableIff`. Fabric-X decoding never produces a delete, which is
  why the Fabric-X theorem does not exclude tombstones.
- The query-service snapshot answers like an uncached read for every view and interleaving
  exactly when the namespace holds no NUL byte: `QueryCache.TransparentIff`, with a run that
  reports a present record absent in `QueryCache.WrongAnswer`.

## Model

| member | source | states |
|---|---|---|
| WorldState.NextVersion | state/db.go:115-119 | The next version lies above every version of the key and directly above one of them, if there is any. |
| WorldState.GetAt | state/db.go:187-205 | Of the rows of the key at or below the height, one with the highest version; nothing exactly when there is no such row. |
| WorldState.Get | state/db.go:209-227 | A row of the key with the highest version, or nothing when the key has no row. |
| WorldState.InsertAllKeepsInv | state/db.go:106-183 | Any successful sequence of inserts keeps the primary key unique and versions dense, and only appends rows. |
| WorldState.VersionsExactly | state/db.go:115-119 | A key with n rows has exactly the versions 0 to n-1. |
| WorldState.RowIdentity | state/db.go:62-92 | Two rows of a key with the same version, or the same block and transaction, are the same row. |
| VersionedDb.VersionedDB.constructor | state/db.go:37-53 | A new store is empty and has processed nothing. |
| VersionedDb.VersionedDB.UpdateWorldState | state/db.go:106-183 | All writes of the valid transactions are inserted and progress moves, or, on an SQL failure or a conflicting row, nothing changes. |
| VersionedDb.InsertBlock | state/db.go:135-165 | The nested loops insert the writes of exactly the valid transactions, in block order, stopping at the first conflict. |
| TimeTravel.RedeliveryIsNoOp | state/db.go:106-183 | Delivering a block the store has applied leaves rows and progress as they are. |
| TimeTravel.RunKeepsInv | state/db.go:106-183 | In every run with first applications in increasing order, failures and redeliveries included, the table is the ordered fold of the applied blocks. |
| TimeTravel.VersionsOfEveryRun | state/db.go:115-119 | In every run, in any block order, the versions of a key with n rows are 0 to n-1, one row each. |
| TimeTravel.VersionOrderIsChainOrder | state/db.go:115-119 | On the rows of a key, version order and (block, transaction) order agree in both directions. |
| TimeTravel.TimeTravelIsFold | state/db.go:187-205 | After every in-order run GetAt at height h is the last write of the key in the blocks up to h. |
| TimeTravel.GetIsGetAtHeight | state/db.go:209-227 | After every in-order run Get equals GetAt at the store's own height. |
| TimeTravel.SnapshotIsStable | state/db.go:232-258 | A view opened at the smaller of request and height answers every key alike after any later new blocks, replays and failures, once a block was applied or if block 0 writes nothing. |
| TimeTravel.SnapshotIsFold | state/db.go:243-258 | A view requested at a height answers with the last write in the blocks up to that height, and like Get when the height is not below the store's. |
| TimeTravel.FreshViewStableIff | state/db.go:291-312 | A view opened on a store that has applied nothing stays empty through a run exactly when no block 0 delivered in it, without a failure and acceptable to a fresh store, writes anything. |
| TimeTravel.AppliedZeroIff | state/db.go:106-183 | In an in-order run the applied blocks 0 are exactly those a delivery would apply to a fresh store. |
| TimeTravel.FreshViewChanges | state/db.go:232-258 | A block 0 with one committed write, and the record it makes appear in a view opened before it. |
| TimeTravel.HistoryIsVersionOrder | state/db.go:263-289 | The history of a key lists all its n rows by version 0 to n-1 after every in-order run. |
| TimeTravel.HistoryIsComplete | state/db.go:263-289 | For every table, in whatever order its blocks came, the history of a key is by block and transaction and holds exactly the rows of the key, each as often as the table. |
| Mvcc.MVCCValidator.constructor | blocks/mvcc.go:20-26 | The validator keeps its mode and code table. |
| Mvcc.MVCCValidator.Validate | blocks/mvcc.go:69-115 | Statuses, raw codes and filter bytes are those of the specification for the prefix before a fault; everything after it is untouched and zero. |
| Mvcc.MVCCValidator.CheckTx | blocks/mvcc.go:79-91 | The verdict is that of the first namespace that is not clean. |
| Mvcc.MVCCValidator.CheckNs | blocks/mvcc.go:122-182 | A read of a pending key is a conflict before the store is consulted; otherwise the first failing read decides. |
| Mvcc.FirstProblemMeans | blocks/mvcc.go:130-180 | Reads are clean exactly when each one succeeds and its version, or absence, is that of the live record. |
| Mvcc.CommittedMeans | blocks/mvcc.go:69-182 | A transaction commits exactly when no read hits a pending key and every read matches the store. |
| Mvcc.ValidatedAt | blocks/mvcc.go:69-115 | The verdict of position i is the check against the pending keys of the earlier committed transactions. |
| Mvcc.UnknownMeans | blocks/mvcc.go:122-182 | The verdict is Unknown exactly when a failed lookup is the first thing met; a pending key or an earlier conflict wins. |
| Mvcc.StopsWhere | blocks/mvcc.go:69-115 | A pass covers the whole block with known verdicts, or ends with the transaction whose lookup failed, or before the first whose code does not fit a byte. |
| Mvcc.CodeRecorded | blocks/mvcc.go:56-61 | The recorded code is the configured one of the status, 99 without one. |
| Simulation.SimulationStore.constructor | state/sim.go:41-53 | A new simulation has recorded nothing. |
| Simulation.SimulationStore.GetState | state/sim.go:59-95 | Answer and recorded read are those of one overlay step, store errors and tombstones included. |
| Simulation.SimulationStore.PutState | state/sim.go:105-115 | The value is there for the reads that follow; an empty value is a delete, and a refused empty key changes nothing. |
| Simulation.SimulationStore.DelState | state/sim.go:119-122 | One overlay step that records a delete. |
| Simulation.SimulationStore.Result | state/sim.go:134-146 | Lists every recorded read and write exactly once, in any map order. |
| Simulation.ReadYourWrites | state/sim.go:59-122 | In every state a read after a put returns the put value and after a delete nil; a put of the empty key fails and changes nothing. |
| Simulation.WritesAreLocal | state/sim.go:105-122 | A write changes what no other key reads. |
| Simulation.GetReturnsOverlay | state/sim.go:59-95 | After any operations a read returns the value of the last put of the key, nil after a delete, or else the snapshot's live value or error. |
| Simulation.WritesAreTheLast | state/sim.go:105-122 | The write map holds exactly the last write of each written key: a delete for a delete and for a put of nothing, the put value otherwise. |
| Simulation.ReadsAreSnapshotVersions | state/sim.go:59-95 | The read map holds exactly the keys fetched before being written whose record is not a tombstone, at their snapshot version. |
| Simulation.SimRefinesPlain | state/sim.go:59-146 | A program none of whose lookups fails gets the answers, returns the result and leaves the values it does on a plain key-value state that each operation updates directly. |
| Simulation.StepRefinesPlain | state/sim.go:59-122 | Each operation gives the answer, and leaves the values, of the same operation on the plain state. |
| Simulation.RunReads | state/sim.go:59-95 | The reads of a whole program run are exactly the non-tombstone keys it fetched. |
| Simulation.Replay | state/sim.go:59-95 | Two states that agree on the fetched keys give a program the same run. |
| OneByOne.CommittedPassesOneByOne | blocks/mvcc.go:69-182 | Every transaction the block check commits also passes against the store with the earlier committed ones applied, whenever those can be applied; no condition on reads, deletes or names. |
| OneByOne.EarlierOnesApply | state/db.go:135-165 | The committed transactions of a block with increasing positions and no key written twice by one transaction can always be applied to a table of older rows. |
| OneByOne.WellFormedBlocksCoincide | blocks/mvcc.go:69-182 | On such a block, with snapshot-derived reads, no deletes and colon-free namespaces, both committers give the same verdicts and leave the same table. |
| OneByOne.VerdictsCoincide | blocks/mvcc.go:69-182 | With snapshot-derived reads, no deletes and colon-free namespaces the two checks give each transaction the same verdict, in both modes. |
| OneByOne.BlockAtOnceIsOneByOne | blocks/mvcc.go:69-182 | Under those conditions the two committers give all the same verdicts and leave the same table, at every prefix of the block that can be applied. |
| OneByOne.PendingKeyInjective | blocks/mvcc.go:108 | Pending keys of colon-free namespaces never collide. |
| OneByOne.ExactnessBoundary | blocks/mvcc.go:108-125 | For a write followed by a current read: exactly when each check refuses the reader, hence exactly when they differ. |
| Serializability.ObservedIsCurrent | blocks/mvcc.go:130-180 | A live record, or absence, seen at a snapshot and accepted at validation is still the current one. |
| Serializability.CommittedReplays | blocks/mvcc.go:69-182 | A committed transaction rerun on everything committed before it returns the same answers, result and writes. |
| Serializability.Serializable | blocks/mvcc.go:69-182 | After every run of transactions whose lookups were all recorded, the table holds the state of the serial execution of the committed programs. |
| Serializability.SerialOutcomes | state/sim.go:59-146 | Each committed program, at its place in the serial order, returns what its simulation returned. |
| Serializability.ReplaysInEveryRun | blocks/mvcc.go:69-182 | The same for one endorsed transaction when all the others are arbitrary. |
| Serializability.NoDeletesNoTombstones | state/db.go:106-183 | Runs without delete records never hold a tombstone. |
| Serializability.ProbeSerializableIff | state/sim.go:69-80 | Reading a key is serializable exactly when the lookup succeeds and its record is not a tombstone. |
| Sorting.SortByKey | endorsement/fabricx/builder.go:133-142 | Sorted by key and a permutation of the input. |
| Sorting.LexMeans | endorsement/fabricx/builder.go:133-142 | Keys are ordered bytewise: a prefix first, otherwise by the first difference. |
| Sorting.SortedIsUnique | endorsement/fabricx/builder.go:133-142 | Two sorted lists with distinct keys and the same members are equal. |
| FabricxCodec.BuildTx | endorsement/fabricx/builder.go:87-154 | Each read and write lands in the one of three sorted lists its kind calls for, whatever the map order. |
| FabricxCodec.EndorsersAgree | endorsement/fabricx/builder.go:87-154 | Any two listings of a set with distinct keys build the identical message. |
| FabricxCodec.DecodeNamespaces | blocks/fabricx/decode.go:65-114 | Namespaces in order; read-writes count as both a read and a write. |
| FabricxCodec.DecodedMeans | blocks/fabricx/decode.go:65-114 | Of any message, every entry of every list is decoded, in order, with its key, version and value, and no write is a delete. |
| FabricxCodec.RoundTrip | blocks/fabricx/decode.go:65-114 | Decoding what was built returns every read (transaction number dropped) and every write (deletes as nil) once, and nothing else. |
| FabricCodec.MarshalRWSet | endorsement/fabric/builder.go:90-131 | Reads and writes, each sorted by key and a permutation of the listed ones, with every field kept. |
| FabricCodec.FabricEndorsersAgree | endorsement/fabric/builder.go:90-131 | Any two listings of a set with distinct keys are marshalled to the identical message. |
| FabricCodec.MarshalledLists | endorsement/fabric/builder.go:90-131 | A marshalled listing of a simulation's maps is still a listing of them. |
| Packager.CreateTx | network/fabricx/packager.go:63-103 | Accepted exactly when there are responses, all successful with equal payloads, and some endorsement; then the first endorsement of each endorser is kept. |
| Packager.PickEndorsements | network/fabricx/packager.go:86-99 | Exactly the first endorsement of every endorser, once, in response order. |
| Packager.EveryEndorserCounts | network/fabricx/packager.go:86-99 | No endorser that answered is left out. |
| Packager.HonestEndorsersAccepted | network/fabricx/packager.go:68-84 | Endorsers that executed to the same set, each in its own order, pass the payload comparison. |
| Pipeline.EncodingKeepsVerdicts | blocks/mvcc.go:122-182 | In monotonic mode a block of read/write sets and the block of their built and decoded messages get the same verdicts and codes from any error-free store. |
| Pipeline.ResultCarries | state/sim.go:134-146 | A listing of the simulation's maps carries its reads, versions and writes, in both modes. |
| Pipeline.ImageCarries | blocks/fabricx/decode.go:65-114 | The decoded message carries the versions and values of the simulation and no delete. |
| Pipeline.FabricxSerializable | blocks/fabricx/decode.go:65-114 | Simulate, build, decode, validate, apply: the table always holds the state of a serial execution, for every Fabric-X run without failed lookups. |
| Pipeline.FabricSerializable | endorsement/fabric/builder.go:90-131 | Simulate, list, marshal, parse, validate, apply: the same for every Fabric run whose lookups neither failed nor met a tombstone. |
| EndToEnd.LedgerRows | fabrictest/ledger.go:76-170 | After every event sequence a ledger's own store holds the rows of the validate-and-apply run of its parsed batches. |
| EndToEnd.LedgerIsSerial | fabrictest/ledger.go:76-170 | Fed envelopes of simulated runs, among any it drops, the ledger's store holds the state of the serial execution of the committed programs. |
| EndToEnd.CaughtUpNodeIsSerial | network/synchronizer.go:141-186 | Every node that has caught up with such a ledger, through any failures and restarts, holds that serial state. |
| StatusCodes.CodesByStatus | blocks/status.go:75-90 | Maps exactly the reached statuses, each to the smallest code that yields it. |
| StatusCodes.InverseIsUnique | blocks/status.go:75-90 | The result does not depend on map iteration order. |
| StatusCodes.FabricStatuses | blocks/fabric/status.go:22-40 | The status of every named Fabric code, Malformed for any other, raw codes kept. |
| StatusCodes.FabricxStatuses | blocks/fabricx/status.go:18-43 | The status of every named Fabric-X code; of the others, Malformed from 100 and Unrecognized below; raw codes kept. |
| StatusCodes.StatusMeans | blocks/status.go:59-67 | Exactly Committed is valid, and exactly Unknown is not final. |
| StatusCodes.FabricReversible | blocks/fabric/status.go:22-46 | The validator's codes decode to its verdicts under the Fabric mapping. |
| StatusCodes.FabricxReversible | blocks/fabricx/status.go:18-49 | The validator's codes decode to its verdicts under the Fabric-X mapping. |
| Parser.ParseTx | blocks/fabricx/parser.go:112-146 | Which envelopes are transactions, which are dropped and which fail the block; for Fabric also the read/write-set loops. |
| Parser.TxOfMeans | blocks/fabric/parser.go:113-229 | Which envelopes are transactions of a ledger type, which are malformed and which are none, with the identifier and sets of the former. |
| Parser.FabricSetsDecode | blocks/fabric/parser.go:190-226 | A classic read/write set decodes exactly when each of its named namespaces does. |
| Parser.FabricSetsMeans | blocks/fabric/parser.go:190-226 | It then holds the named namespaces, all of them, in order, and nothing else. |
| Parser.Parse | blocks/fabricx/parser.go:32-103 | The loop over the envelopes yields the transactions of the specification, or an error exactly when that does. |
| Parser.ParsePositions | blocks/fabric/parser.go:33-111 | Transaction numbers are positions in the block, increasing, with the status of their own filter byte. |
| Parser.StatusOfParsed | blocks/fabricx/parser.go:105-110 | The status is what the transaction's own filter byte stands for; beyond the filter it is Unknown with code 0. |
| Parser.ParsedExactly | blocks/fabricx/parser.go:32-103 | The positions in the result are exactly those of the transaction envelopes: none is dropped. |
| Parser.ParseFailsIff | blocks/fabricx/parser.go:32-103 | Parsing fails exactly without a filter or with a CONFIG envelope that has no configuration; the number is the header's. |
| Parser.ParsedFrom | blocks/fabricx/parser.go:32-103 | Each transaction is what the envelope at its position holds. |
| Parser.FilterOnlyStatuses | blocks/fabricx/parser.go:32-110 | Changing the filter changes nothing but statuses and codes. |
| Ledger.Ledger.constructor | fabrictest/ledger.go:40-53 | A new ledger holds the genesis block. |
| Ledger.Ledger.Process | fabrictest/ledger.go:76-117 | The next block, linked and with its verdicts filled in, is appended and applied, or chain and store stay as they were. |
| Ledger.Ledger.CutBlock | fabrictest/ledger.go:76-109 | The cut block carries each verdict at its transaction's position. |
| Ledger.Ledger.Commit | fabrictest/ledger.go:146-170 | The own store is updated first; a failure leaves both store and chain unchanged. |
| Ledger.Ledger.Truncate | fabrictest/ledger.go:173-184 | Keeps blocks 0 to num; refused for a ledger with its own store or a number beyond the chain. |
| Ledger.Ledger.Next | fabrictest/ledger.go:213-218 | The number after the last block and the hash of its header. |
| Ledger.ScatterCodes | fabrictest/ledger.go:100-106 | Every code lands at its transaction's position, the other bytes stay. |
| Ledger.ScatterElsewhere | fabrictest/ledger.go:100-106 | Positions without a transaction keep the byte they had. |
| Ledger.ProcessSucceedsIff | fabrictest/ledger.go:76-117 | Processing succeeds exactly when the batch parses, no fault stops its validation, and the own store, if any, takes the writes. |
| Ledger.ProcessExtends | fabrictest/ledger.go:76-170 | With or without an own store, the chain is then one block longer, with the envelopes as they came, both hashes, and the verdicts reached against the state the ledger validates on. |
| Ledger.TruncateMeans | fabrictest/ledger.go:173-184 | Succeeds exactly for a ledger without an own store and a number on the chain, and leaves num + 1 blocks. |
| Ledger.GenesisMeans | fabrictest/ledger.go:56-70 | Block 0 has number 0, no previous hash and one CONFIG envelope. |
| Ledger.ReparseIsValidated | fabrictest/ledger.go:76-109 | Parsing the committed block yields the transactions, positions and verdicts the ledger computed, whatever was dropped between them. |
| Ledger.LedgerInvariant | fabrictest/ledger.go:76-184 | After any process, cut and truncate steps, failures included, the chain is linked from genesis and the own store is the fold of the chain. |
| Ledger.ReplicaConverges | fabrictest/ledger.go:76-184 | A store fed every parsed block holds the rows and height of the ledger's own store, after every run. |
| Replication.Processor.constructor | blocks/processor.go:17-23 | A new processor's handlers have succeeded on nothing. |
| Replication.Processor.ProcessBlock | blocks/processor.go:44-56 | Parse, then the handlers in order up to the first error. |
| Replication.HandlersRun | blocks/processor.go:44-56 | Exactly the handlers before the first one that refuses, on either side of the store, see the block, once; it succeeds exactly when none refuses. |
| Replication.HandlersInOrder | blocks/processor.go:44-56 | The store moves by at most this block, and only after every handler before it has succeeded on it. |
| Replication.AtLeastOnceIsExactlyOnce | network/synchronizer.go:141-186 | After any failures and restarts the store is the fold of a gap-free prefix of the chain, and the handlers before it have seen all of it. |
| Replication.ConnectResumes | network/synchronizer.go:141-160 | A stream resumes at the first block the store lacks; only block 0 is asked for again. |
| Replication.DeliverAdvances | network/synchronizer.go:141-186 | A delivery that nothing refuses brings the store one block further and every handler the block. |
| Replication.DeliverStops | network/synchronizer.go:160-186 | A block that does not parse, or that a handler refuses, ends the stream. |
| Replication.CanCatchUp | network/synchronizer.go:141-186 | From every reachable state some continuation applies the peer's whole chain, if its blocks parse and apply. |
| Replication.LedgerChainApplies | fabrictest/ledger.go:76-170 | Every chain a ledger with its own store builds is one whose blocks parse and apply. |
| Replication.CaughtUpNodeAgrees | network/synchronizer.go:141-186 | A node that has caught up with a ledger holds that ledger's rows and height. |
| Lifecycle.Synchronizer.constructor | network/synchronizer.go:100-114 | A new synchronizer is not started and has no monitors. |
| Lifecycle.Synchronizer.Transition | network/synchronizer.go:199-243 | State, error, stored cancel and monitors after a transition; nothing moves out of Stopped. |
| Lifecycle.TransitionEffects | network/synchronizer.go:199-243 | In every run: the new state and error, every earlier monitor cancelled, and exactly one new monitor on entering Syncing, none when the run is being cancelled. |
| Lifecycle.LifecycleInvariant | network/synchronizer.go:199-243 | In every interleaving a stored cancel exists only while Syncing, at most one monitor is uncancelled, and the peer is closed only after all have exited. |
| Lifecycle.StoppedIsTerminal | network/synchronizer.go:199-243 | Once Stopped, always Stopped, and no monitor starts again. |
| Lifecycle.ReturnedIsFinal | network/synchronizer.go:118-136 | When Start returns all monitors have exited, the peer was closed once, and nothing changes any more. |
| Lifecycle.CloseComesLast | network/synchronizer.go:118-136 | The peer is closed only when every monitor has exited. |
| Lifecycle.JoinMakesProgress | network/synchronizer.go:118-136 | Waiting for the monitors is never stuck. |
| Lifecycle.ReadyIsCurrentIff | network/synchronizer.go:324-352 | A monitor about to report Ready is current exactly when it has not been cancelled; it reports Ready either way unless Stopped. |
| Lifecycle.StaleMonitorReportsReady | network/synchronizer.go:345-347 | An interleaving in which a cancelled monitor turns Retrying into Ready. |
| Streamer.StreamInvariant | notification/all_tx.go:151-216 | Accepted batches are the taken ones followed by the queue, the queue is bounded, and each handler's position is exact. |
| Streamer.HandlersInOrder | notification/all_tx.go:193-216 | Each handler has seen a prefix of the accepted batches and is at most one behind the handler before it. |
| Streamer.NothingIsLost | notification/all_tx.go:151-190 | If Stream ends without a handler error or cancellation by its caller, every handler has handled every batch the peer offered, in order. |
| Streamer.OfferedIsAccepted | notification/all_tx.go:233-253 | Until the stream is cancelled, what was accepted, and the batch the receive loop is blocked on, are exactly the batches offered, in order: a full queue drops nothing. |
| Streamer.AtMostOneMore | notification/all_tx.go:193-216 | Once the stream is cancelled the worker takes at most one batch more, however the run goes on. |
| Streamer.WhatCancels | notification/all_tx.go:151-190 | The stream is cancelled exactly when its caller cancelled it, the worker has exited or Stream has returned. |
| Streamer.DepthIsFixed | notification/all_tx.go:136-141 | The queue holds the configured number of batches, 64 without one. |
| Streamer.BlockedReceiverIsReleased | notification/all_tx.go:233-253 | A receive loop blocked on a full queue always has a step, its own or the worker's. |
| Streamer.AwaitingEnds | notification/all_tx.go:151-190 | Stream waiting for the worker always has a step, its own or the worker's. |
| Streamer.WaitIsBounded | notification/all_tx.go:151-216 | After the receive loop has returned, every continuation holds only boundedly many worker steps. |
| Streamer.NoSendAfterClose | notification/all_tx.go:233-253 | Nothing is sent on the closed queue. |
| Finality.FinalityListener.constructor | notification/finality.go:107-117 | A new listener has no waiters. |
| Finality.FinalityListener.Register | notification/finality.go:219-241 | A fresh empty channel, or a refusal when the transaction already has a waiter. |
| Finality.RegisterMeans | notification/finality.go:219-241 | One new empty channel, waiting unless another one already does; that one, and every other waiter, is left as it is. |
| Finality.FinalityListener.Unregister | notification/finality.go:244-248 | Removes whichever waiter the transaction has; no channel is touched. |
| Finality.UnregisterMeans | notification/finality.go:244-248 | Ends the wait of that transaction only, and sends nothing. |
| Finality.FinalityListener.Handle | notification/finality.go:276-286 | Sends each event to the waiter of its transaction, if any, and keeps the table sound. |
| Finality.FinalityListener.Reconcile | notification/finality.go:191-216 | Only final statuses are delivered; a failed query changes nothing. |
| Finality.Conservation | notification/finality.go:191-286 | In every interleaving each channel is pending and empty, or was given one event of its own transaction, or was dropped empty. |
| Finality.SettledStays | notification/finality.go:191-286 | A channel that is no longer pending never changes again. |
| Finality.HandleResolves | notification/finality.go:276-286 | A waiter gets exactly the first event for its transaction; without one it stays pending and empty. |
| Finality.ReconcileResolves | notification/finality.go:191-216 | A waiter gets the first final event of the answer for its transaction, and goes on waiting when there is none. |
| Finality.AbortDropsAnotherIff | notification/finality.go:244-248 | Giving up drops another caller's waiter exactly when the pending channel is not one's own. |
| Finality.AbortDropsAnother | notification/finality.go:219-248 | A run in which a late abort drops a second caller's waiter. |
| Orderer.BatchingLoop | fabrictest/orderer.go:129-194 | The loop produces the cuts, pending batch and timer of the specification for every event sequence. |
| Orderer.BatchingInvariant | fabrictest/orderer.go:129-194 | The timer is armed exactly when the batch is non-empty and a cut time is set; no block exceeds a positive maximum. |
| Orderer.EventEffects | fabrictest/orderer.go:159-193 | In every run: when an arrival cuts, that a fired timer cuts the batch, that a forced cut adds one empty block, what a revert keeps, and that a failed cut ends the loop. |
| Orderer.ZeroTimeNeverWaits | fabrictest/orderer.go:167-175 | With a zero cut time no envelope is ever pending. |
| Orderer.NothingLostSince | fabrictest/orderer.go:129-194 | From any point up to the next revert, blocks and batch grow by exactly the envelopes received, in order. |
| Orderer.NothingLostOrReordered | fabrictest/orderer.go:129-194 | Without reverts, all blocks followed by the batch are exactly the envelopes received, in order. |
| QueryCache.Snapshot.constructor | state/queryservice/store.go:45-52 | A new snapshot has cached nothing. |
| QueryCache.Snapshot.Get | state/queryservice/store.go:106-125 | On a faithful cache and a NUL-free namespace the answer is that of an uncached read, and the cache stays faithful; failures are not cached. |
| QueryCache.ViewGetMeans | state/queryservice/store.go:64-75 | The answer is the first returned row of the key, with its value and version; nothing exactly when no row has the key. |
| QueryCache.AnsweredIsCached | state/queryservice/store.go:106-125 | In every interleaving the key of a call that has answered, absences included, is cached from then on. |
| QueryCache.CachedAnswersAtOnce | state/queryservice/store.go:106-125 | A lookup of a cached key answers without a query. |
| QueryCache.CacheKeyInjective | state/queryservice/store.go:106-125 | Cache keys of NUL-free namespaces never collide. |
| QueryCache.CacheIsTransparent | state/queryservice/store.go:106-125 | In every interleaving of concurrent reads each successful answer is that of an uncached read, absences included. |
| QueryCache.TransparentIff | state/queryservice/store.go:106-125 | Reading a namespace beside NUL-free ones gives uncached answers, for every view and interleaving, exactly when it holds no NUL byte. |
| QueryCache.WrongAnswer | state/queryservice/store.go:106-125 | For every namespace with a NUL byte, a view and a run in which a finished call answers something else than the view does. |
| QueryCache.CollidesIff | state/queryservice/store.go:106-125 | A namespace shares a cache key with another, NUL-free one exactly when it holds a NUL byte. |

## Left out

- gRPC, TLS, MSP identities, signatures and nonces: I/O and foreign cryptography; peers are modelled by what they deliver.
- Protobuf and ASN.1 bytes and hashing: messages are datatypes, marshalling and hashes are arbitrary functions.
- The SQLite driver, connection handling and further channels: one channel's tables are modelled; where in a transaction an SQL error occurs is not observable after the rollback.
- Unsigned 64-bit wrap-around of heights and versions: numbers are unbounded.
- The difference between nil and empty byte slices.
- Store errors that come and go for one key during a single validation or simulation: a key's lookups all fail or all succeed within one run.
- Packager.CreateTx: stops where the endorsements are chosen; decoding identities, attaching signatures and signing the envelope are not modelled.
- Goroutines of Stream, Start and the monitors: they are steps of state machines rather than methods, so Go's channel and mutex operations appear only as the atomicity of the steps.
- Parser.ParseTx: does not model input arguments, events and response payloads of a transaction, because no later step of the pipeline reads them.
- Parser.Parse: does not model block hashes, timestamps and the content of CONFIG transactions, because the world state does not depend on them.
- Ledger.Ledger.Commit: does not model the notification of subscribers, which touches neither chain nor store.
- Finality.FinalityListener.Register: models the critical section; queueing the subscription, and giving up when the context is done, are separate steps of the state machine.
- Ledger subscribers and gap-freedom of Deliver: commit drops a block when a subscriber's buffer is full; contiguity is assumed of the peer in `Replication`.
- The heights a readiness monitor compares: a monitor may find the node caught up at any time.
- Wall-clock time, backoff durations and the Live and Ready probes: timers and sleeps are events that may happen at any time.
- The subscription queue of the finality listener and its re-subscription on reconnect: only the waiter table is modelled; reconciliation may happen at any time with any answer.
- Status filters of the notification peer, concurrent LocalSubmitter calls and the height counter of the query service.
- Contract logs, loggers, error texts, reasons, timestamps, event metadata, the content of CONFIG transactions and Fabric-X metadata encoding.
