# Verified models of go-ten: blobs, the mock layer-1 chain, state rebuild

Dafny models of three parts of go-ten, with proofs about them:

- **Blobs.** Rollup bytes are wrapped in RLP, spread over EIP-4844 blobs (31 whole bytes per
  field element plus a six-bit stream across the top bytes), published, fetched back from a
  rotating pool of beacon clients and decoded.
- **The mock layer-1 network.** Nodes with a content-addressed block store choose the longest
  chain, search common ancestors, publish reorganisations, mine from a mempool behind a memoised
  transaction index, and gossip blocks in any order.
- **The enclave.** Missing batch states are rebuilt after a restart, and concurrent batch
  submissions are admitted by a check made before the lock.

`dafny verify dfyconfig.toml` checks everything.

## How it is organised

| file | content |
|---|---|
| Bits, Rlp, BlobCodec | bits of numbers, RLP for strings, packing and unpacking |
| ClientRotation, BlobRetrieval | the client pool; sidecars, matching, end-to-end recovery |
| Blocks, Ancestry, Lca | blocks, stores and reachability; ancestor tests; common ancestors |
| TxIndex | included transactions, the memo, mempool filter and garbage collection |
| ForkChoice | the fork-choice rule on values, followed over runs of one node |
| NodeSteps, Node | node events as functions; the node class proved to compute them |
| NodeEffects | what each of those functions does to the whole state of a node |
| Network, Delivery, Inclusion, OrderedDelivery, FaultScenario | runs of the whole network |
| StateReplay, BatchIngestion | state rebuild; interleaved submissions |

Code that updates state is a class or a method, proved equal to a function of the old state; the
properties of whole runs are proved about those functions.

## Modelling choices

- **Hashes are ideal.** A block or batch hash is a constructor around its preimage, so hashes are
  injective and cannot be cyclic. Operations only compare and look up hashes. State roots are
  injective by hypothesis (`RootsInjective`).
- **KZG is a parameter.** `Trusted` lists what is assumed: commitments exist for canonical blobs
  and bind them, proofs are sound and complete, versioned hashes are injective.
  `TrustedIsPossible` shows the assumptions are consistent.
- **Faults are values.** A `panic` or `logger.Crit` exit is `faulted`, `None` or `Panic`, so that
  its absence is something proved. An error return is `Err`.
- **Channels and goroutines.** Each unbuffered channel is a list of pending items, and each event
  of a node is one atomic step. Any interleaving is a run. Delays, clocks and which round fires
  first are free choices. `issued` is the order in which blocks are handed to subscribers.
- **Numbers.** Heights and sequence numbers are unbounded. The 16-bit accumulators of the blob
  codec are not: `Shl16` drops what is shifted past bit 15, and decoding is proved for every blob,
  top bytes above 0x3f included.
- The number of field elements in a blob is a parameter `n`, any positive multiple of four; the
  code is the case 4096.

## Where the code and its comments differ

- `LCA` is documented as returning the latest common ancestor. With a genesis second argument and
  a non-genesis first one it returns the first argument; `LCAExact` proves that this is the only
  exception among rooted blocks, and `IsForkExact` the matching one for `IsFork`.
- `processBlock` can panic: with the head still at genesis, a block whose parent is stored but
  whose ancestry is broken reaches the panic in `BlocksBetween`. `StepSafe` and `FaultsExactly`
  prove that this is the only way to fault, `NetworkFaultReachable` that two honest nodes get
  there when one delivery overtakes another.
- `removeCommittedTransactions` says it removes what is exactly `committedBlocks` deep; it removes
  everything at that depth or deeper when the block at that depth is in the cache, and nothing
  otherwise (`GcDropsExactly`, with both cases at work in `GcIsNotByDepthAlone`).
- The geth client's `IsBlockAncestor` tests `resolvedBlock == nil` where it means the opposite, so
  it never prunes by height; `MockAndGethAgree` gives the exact set of hashes on which it still
  agrees with the mock.
- A mined block is said to be broadcast only if it is the new head; a mined block that is the head
  already is broadcast again (`BroadcastsExactly`).
- `fetchSidecars` on an empty pool reports success with no sidecars, because joining no errors is
  no error. `NewL1BeaconClient` always puts one client in the pool, so only a pool built by hand
  gets there.

## Model

| member | source | states |
|---|---|---|
| `Rlp.DecodeExactly` | go/ethadapter/blob.go:139-141 | the first item of a stream is read as string `d` exactly when the stream starts with the encoding of `d`: decoding inverts encoding, ignores what follows, and accepts nothing else |
| `Rlp.LongHeader` | go/ethadapter/blob.go:50-53 | the header of a string of more than 55 bytes spells its length, big-endian and without a leading zero, in as many bytes as its first byte announces |
| `BlobCodec.FillBlobBytes` | go/ethadapter/blob.go:74-84 | in place: the low 31 bytes of each element receive the data in order for as far as it goes, every other byte keeps its value, and the rest of the data is returned |
| `BlobCodec.FillBlobBits` | go/ethadapter/blob.go:86-115 | in place: each top byte written holds exactly its six bits of the data stream, the last one written is the one that runs out, nothing else changes, and the spare-bits error is never returned |
| `BlobCodec.FilledLows` | go/ethadapter/blob.go:74-84 | byte by byte, what filling the low bytes changes in any blob, and to which data byte |
| `BlobCodec.FilledTops` | go/ethadapter/blob.go:86-115 | byte by byte, what filling the top bytes changes in any blob: exactly the top bytes that start no later than the data ends |
| `BlobCodec.LowLayout` | go/ethadapter/blob.go:74-84 | data byte 31e + j is byte 1 + j of element e, zero past the data |
| `BlobCodec.TopLayout` | go/ethadapter/blob.go:86-115 | bit b of top byte e is bit 6e + b of the data past the low bytes, least significant first, and the two high bits are clear |
| `BlobCodec.BlobsAt` | go/ethadapter/blob.go:60-71 | blob i is made from the i-th run of bytes of blob capacity, and there are as many blobs as the data reaches |
| `BlobCodec.EncodeBlobs` | go/ethadapter/blob.go:49-72 | refuses exactly the encodings of at least 32 bytes per element; otherwise terminates with the closed-form blobs of the encoding |
| `BlobCodec.ReadTops` | go/ethadapter/blob.go:124-137 | for any blob at all, the bytes read are the closed-form bit stream of its top bytes, two-bit spill of large top bytes included; nothing is lost in 16 bits and the spare-bits error is never returned |
| `BlobCodec.LowsLayout` | go/ethadapter/blob.go:120-123 | of any blob, byte 31e + j read back is byte 1 + j of element e |
| `BlobCodec.TopsLayout` | go/ethadapter/blob.go:124-134 | of any blob, which bits of which top bytes make up each bit of the bytes read after those |
| `BlobCodec.PayloadsAt` | go/ethadapter/blob.go:118-137 | the payload of blob i is the i-th run of capacity bytes of what is read |
| `BlobCodec.DecodeBlobs` | go/ethadapter/blob.go:118-142 | the result is the first RLP item of the concatenated payloads, for any blobs |
| `BlobCodec.PayloadsOfBlobs` | go/ethadapter/blob.go:60-134 | the blobs made from any data carry that data and then only zeros: six-bit writing is undone by eight-bit reading across any number of blobs |
| `BlobCodec.BlobRoundTrip` | go/ethadapter/blob.go:49-142 | encoding then decoding returns every byte string unchanged |
| `BlobCodec.DecodedExactly` | go/ethadapter/blob.go:118-142 | any blobs decode to `d` exactly when their payload starts with the encoding of `d` |
| `BlobCodec.BlobCount` | go/ethadapter/blob.go:55-71 | an accepted encoding of m bytes makes ceil(m / 130048) blobs, which is one or two |
| `BlobCodec.AcceptedExactly` | go/ethadapter/blob.go:50-57 | data is accepted exactly when it has at most 131067 bytes |
| `BlobCodec.ElementsBelowModulus` | go/ethadapter/blob.go:98-99 | every field element written, as a big-endian number, is below the BLS modulus of section "Parameters" of EIP-4844 |
| `ClientRotation.ClientPool.Next` | go/ethadapter/blob_beacon_client.go:127-132 | the index moves to the next client, modulo the number of clients |
| `ClientRotation.ClientPool.FetchSidecars` | go/ethadapter/blob_beacon_client.go:188-201 | asks clients in cyclic order up to the first that answers, rests on that client, and on failure has asked all and is back where it began |
| `ClientRotation.AskedInTurn` | go/ethadapter/blob_beacon_client.go:188-201 | the clients asked: first the one the pool rests on, then each time the next, or client 0 after the last; all but the last fail; the pool ends on the one that answered, or where it began |
| `ClientRotation.AskedOnce` | go/ethadapter/blob_beacon_client.go:188-201 | one fetch asks no client twice; it fails exactly when every client fails, and then it has asked every one |
| `ClientRotation.RestsOnLastAnswer` | go/ethadapter/blob_beacon_client.go:106-132 | over any sequence of fetches the pool rests on the client that answered the last successful one |
| `ClientRotation.RestsWithoutAnswer` | go/ethadapter/blob_beacon_client.go:106-132 | any number of failed fetches leaves the pool where it was |
| `BlobRetrieval.MakeSidecar` | go/ethadapter/blob.go:27-45 | succeeds exactly when every blob has a commitment and a proof, and lists them and the hashes in blob order |
| `BlobRetrieval.MatchSidecarsWithHashes` | go/ethadapter/blob_beacon_client.go:287-304 | one sidecar per hash in hash order, the last fetched under that hash; fails exactly when a hash has none |
| `BlobRetrieval.LastWithIs` | go/ethadapter/blob_beacon_client.go:288-292 | the sidecar left in the map has the hash and no later one has it; there is none exactly when no sidecar has the hash |
| `BlobRetrieval.FirstWithIs` | go/ethadapter/blob_beacon_client.go:264-270 | the sidecar the search stops at has the hash and no earlier one has it |
| `BlobRetrieval.BlobsFromSidecars` | go/ethadapter/blob_beacon_client.go:255-284 | succeeds exactly when the counts agree and each hash's first sidecar verifies; returns those blobs in hash order |
| `BlobRetrieval.FetchBlobs` | go/ethadapter/blob_beacon_client.go:238-253 | with hashes, the blobs in their order, or an error exactly when one is missing or fails its proof; without hashes, one blob for each sidecar |
| `BlobRetrieval.FetchBlobsVia` | go/ethadapter/blob_beacon_client.go:206-253 | the same on the answer of the first client that gives one |
| `BlobRetrieval.FetchIsSafe` | go/ethadapter/blob_beacon_client.go:255-304 | whatever a beacon node answers, a blob that passes is the published one |
| `BlobRetrieval.FetchFinds` | go/ethadapter/blob_beacon_client.go:255-304 | a blob whose sidecar is in the answer, in any place and among any others, is the one found unless a forged sidecar has its hash |
| `BlobRetrieval.FetchAll` | go/ethadapter/blob_beacon_client.go:244-252 | without hashes, whatever is answered: each blob returned is the one its sidecar's commitment was made for, in order; and if nothing is forged, all blobs of the answer are returned |
| `BlobRetrieval.EndToEnd` | go/ethadapter/blob_beacon_client.go:206-304 | for the hashes of the blobs of any data and any answer at all: the fetch succeeds exactly when each hash's last sidecar verifies, then returns the blobs in order and they decode to the data, and it succeeds when every hash is present and unforged |
| `BlobRetrieval.PublishAndRecover` | go/ethadapter/blob.go:27-142 | encode, publish, fetch, decode: publishes the blobs of the data with their commitments, proofs and hashes exactly when the data is accepted, fetches by those hashes, and recovers the data exactly when the fetch succeeds |
| `Blocks.NewBlockWellFormed` | integration/ethereummock/mock_blocks.go:13-41 | a block built on a well-formed parent is well formed, one higher, not genesis, and carries the miner, transactions and time given |
| `Blocks.ReachesIsPath` | integration/ethereummock/db.go:79-81 | reachability is the existence of a path of stored parents |
| `Blocks.OnChainIsPath` | integration/ethereummock/mock_blocks.go:13-41 | being on a chain is the existence of a path of parents |
| `Ancestry.IsAncestorIsReachability` | integration/ethereummock/db.go:83-98 | the height-pruned search answers reachability along stored parents exactly, in any store |
| `Ancestry.MockIsReachability` | integration/ethereummock/db.go:100-127 | answers reachability exactly, except that genesis counts as everyone's ancestor |
| `Ancestry.MockIsTrueAncestry` | integration/ethereummock/db.go:83-127 | on a rooted block both tests decide the true ancestor relation |
| `Ancestry.GethIsReachability` | go/ethadapter/geth_rpc_client.go:110-138 | on a rooted block it answers reachability for every hash it can resolve, without exiting |
| `Ancestry.MockAndGethAgree` | go/ethadapter/geth_rpc_client.go:110-138 | on a rooted block the two implementations agree exactly on non-zero hashes that are stored or trivial |
| `Ancestry.ZeroHashDiffers` | go/ethadapter/geth_rpc_client.go:111-113 | the zero hash is everyone's ancestor for geth and nobody's for the mock |
| `Lca.LCACorrect` | integration/ethereummock/gethutil.go:19-67 | above genesis, in any store: succeeds exactly when a common ancestor is reachable, and returns the latest one with the two paths |
| `Lca.LCAExact` | integration/ethereummock/gethutil.go:33-36 | on rooted blocks never fails, and names the latest common ancestor unless the second is genesis and the first is not |
| `Lca.GenesisExceptions` | integration/ethereummock/gethutil.go:33-36 | for every block above genesis, what the search answers in the two excepted cases |
| `Lca.LatestCommonUnique` | integration/ethereummock/gethutil.go:17-31 | there is only one latest common ancestor |
| `Lca.LCASymmetric` | integration/ethereummock/gethutil.go:33-67 | above genesis the ancestor does not depend on argument order, and the paths swap |
| `Lca.ForkPathShapes` | integration/ethereummock/gethutil.go:33-67 | both paths are unbroken hash chains from their block, as long as the height differences, the canonical one ending with the ancestor unless that is genesis |
| `Lca.IsForkExact` | go/common/types.go:181-183 | on rooted blocks `IsFork` holds exactly when the old head is not an ancestor of the new one, except for a genesis first argument |
| `TxIndex.IncludedExactly` | integration/ethereummock/utils.go:19-40 | a hash is in the plain union of a chain exactly when some block on it carries the hash |
| `TxIndex.IncludedNewest` | integration/ethereummock/utils.go:32-37 | under each hash sits the transaction of the newest block that carries it |
| `TxIndex.MemoRefinesUnion` | integration/ethereummock/utils.go:19-40 | under a correct cache the memoised lookup returns the plain union, every write keeps the cache correct, and it cannot panic on a rooted block |
| `TxIndex.FilledExactly` | integration/ethereummock/utils.go:19-40 | the entries after a lookup: those from before as they were, and, unless it panics, exactly one for each block above genesis from the given one down to the first that had an entry |
| `TxIndex.LookupPanicsExactly` | integration/ethereummock/utils.go:27-31 | it panics exactly when a missing parent comes before a cached block or genesis |
| `TxIndex.IncludedMonotone` | integration/ethereummock/utils.go:32-37 | a block includes what its ancestors include |
| `TxIndex.ChainTxsDistinct` | integration/ethereummock/utils.go:32-37 | the transactions of a chain are distinct exactly when no block repeats one and no two blocks share one |
| `TxIndex.AllIncludedTransactions` | integration/ethereummock/utils.go:19-40 | result and new cache for any old cache, as `FilledExactly` has it: the block looked up above genesis has its entry, and a panic leaves none |
| `TxIndex.RemoveExisting` | integration/ethereummock/utils.go:42-50 | keeps, in order, exactly the transactions whose hash is not listed |
| `TxIndex.MakeMap` | integration/ethereummock/utils.go:52-58 | holds exactly the hashes of the list, each with the last transaction that has it |
| `TxIndex.FindNotIncludedTxs` | integration/ethereummock/utils.go:14-17 | what a mining round takes: all that waits but what the chain of the head holds; the head is then in the cache, unless it is genesis |
| `TxIndex.MinedBlockRepeatsNothing` | integration/ethereummock/node.go:469-481 | on a chain without repeats, a mined block adds none exactly when every hash that is twice in the mempool is already on the chain |
| `TxIndex.DuplicateIsMinedTwice` | integration/ethereummock/utils.go:42-50 | any mempool that holds a hash twice, not yet on the chain, has it mined twice in one block |
| `TxIndex.RemoveCommittedTransactions` | integration/ethereummock/db.go:158-192 | the mempool after the walk of fifteen parents, unchanged at low heights or without a cache entry, with the exit on a missing parent |
| `TxIndex.DownExactly` | integration/ethereummock/db.go:170-184 | the walk of k parents finds a block exactly when it is k below and reachable in the store |
| `TxIndex.GcExitsExactly` | integration/ethereummock/db.go:177-179 | the exit is taken exactly when the block fifteen below cannot be reached |
| `TxIndex.GcKeepsOrder` | integration/ethereummock/db.go:158-192 | which list is left, order and repetitions included, for each height and cache |
| `TxIndex.GcDropsExactly` | integration/ethereummock/db.go:158-192 | on a connected block never exits and adds nothing; drops a transaction exactly when the block fifteen below has a cache entry and the chain up to it holds the transaction |
| `TxIndex.GcDropsOnlyDeep` | integration/ethereummock/db.go:158-192 | what is dropped is carried by a block at least fifteen below |
| `TxIndex.GcIsNotByDepthAlone` | integration/ethereummock/db.go:156-157 | on a chain of seventeen blocks, a transaction sixteen deep is dropped when block two is cached and kept when it is not |
| `TxIndex.GcInvisible` | integration/ethereummock/db.go:156-192 | with any later store, correct cache and newly gossiped transactions, a round on a head keeping the deep ancestor takes the same from the collected mempool; on other heads the exact condition for that |
| `ForkChoice.StepSafe` | integration/ethereummock/node.go:307-383 | one event: the head stays rooted in the node's own store, changes only to a higher block, the store grows, and the exact condition for a fault |
| `ForkChoice.InitSafe` | integration/ethereummock/node.go:301-305 | a started node is in a state from which `HeadSafety` applies |
| `ForkChoice.HeadSafety` | integration/ethereummock/node.go:307-383 | every run, blocks in any order: the head is rooted, only rises, and once it is above genesis nothing faults |
| `ForkChoice.FaultIsReachable` | integration/ethereummock/node.go:508-523 | blocks two and three before block one fault the node |
| `ForkChoice.StepLongest` | integration/ethereummock/node.go:361-383 | with parents first the head rises by exactly one or stays, the search would succeed, and the skew branch is not reached |
| `ForkChoice.LongestNeedsParentFirst` | integration/ethereummock/node.go:345-383 | from a longest head, a step leaves one exactly when the block or its parent was stored |
| `ForkChoice.HeadChangesExactly` | integration/ethereummock/node.go:361-383 | the head changes exactly for an offered block that extends it or is rooted on another branch |
| `ForkChoice.StepExactly` | integration/ethereummock/node.go:307-420 | all that one event does: a known peer block is ignored; any other is stored; a higher rooted one becomes head, goes to the miner once and is issued last; otherwise nothing else changes, but for the fault, with its condition |
| `ForkChoice.LongestChain` | integration/ethereummock/node.go:307-383 | every parent-first run keeps the head as high as anything stored, everything stored rooted, and the node running |
| `ForkChoice.EqualStoresEqualHeight` | integration/ethereummock/node.go:307-383 | two nodes that end with the same blocks, in any two parent-first orders, have heads of equal height |
| `ForkChoice.MeetIsLatestCommon` | integration/ethereummock/node.go:369-376 | the first block of one chain that is on the other is the latest common ancestor |
| `ForkChoice.ReorgBatch` | integration/ethereummock/node.go:366-420 | a reorg is issued as one unbroken ascending chain from the latest common ancestor to the new head, whatever the order of arrival |
| `ForkChoice.StepPublished` | integration/ethereummock/node.go:378-420 | a step keeps publication parent-closed and complete exactly when the block does not extend the head over a parent that was never issued |
| `ForkChoice.PublicationClosed` | integration/ethereummock/node.go:366-420 | in parent-first runs each block is issued after its parent and the whole canonical chain has been issued |
| `ForkChoice.PublicationGap` | integration/ethereummock/node.go:378-382 | without parent-first delivery a block of the canonical chain can go unissued |
| `Node.Node.constructor` | integration/ethereummock/node.go:301-305 | a started node stores genesis, has it as head and has issued it |
| `Node.Node.FetchHeadBlock` | integration/ethereummock/db.go:63-77 | a highest stored block, an error only on an empty store; as high as the head when the head is longest |
| `Node.Node.BlocksBetween` | integration/ethereummock/node.go:508-531 | the ascending chain between two blocks when one reaches the other, and the panic exactly otherwise |
| `Node.Node.ProcessBlock` | integration/ethereummock/node.go:345-383 | the ancestor test, the search and the walk together do exactly the simple rule: a rooted higher block becomes head |
| `Node.Node.OnPeerBlock` | integration/ethereummock/node.go:309-318 | one peer event of the fork choice |
| `Node.Node.OnMinedBlock` | integration/ethereummock/node.go:320-336 | one mined event; broadcasts the block with its parent exactly when it is the new head, and its parent is always found |
| `Node.Node.OnCanonicalBlock` | integration/ethereummock/node.go:455-469 | takes a canonical block, collects garbage and schedules a round on it |
| `Node.Node.OnRoundFired` | integration/ethereummock/node.go:469-482 | a round, however stale its head, mines on it what that head does not include |
| `NodeEffects.TakenExactly` | integration/ethereummock/node.go:455-469 | which canonical block is taken and which stay, the round scheduled, the mempool left, and that nothing else changes |
| `NodeEffects.FiredExactly` | integration/ethereummock/node.go:469-482 | the round fired goes and the others stay; its block holds exactly what waits and is not on its chain; the block it builds on has its cache entry; no entry is lost and nothing else changes |
| `NodeEffects.TakingFaults` | integration/ethereummock/db.go:177-180 | in any state, taking a canonical block exits exactly when the block fifteen below cannot be reached |
| `NodeEffects.FiringFaults` | integration/ethereummock/utils.go:27-31 | in any state, a round panics exactly when the lookup meets a missing parent before a cached block or genesis |
| `NodeEffects.BroadcastsExactly` | integration/ethereummock/node.go:320-336 | a mined block is broadcast exactly when it is higher than the head or is the head |
| `Network.BroadcastBlock` | integration/ethereummock/mock_l1_network.go:49-61 | what is scheduled for whom |
| `Network.RecipientsExactly` | integration/ethereummock/mock_l1_network.go:51-58 | every node but the sender is sent the pair, and nobody anything else |
| `Network.RecipientsOnce` | integration/ethereummock/mock_l1_network.go:51-58 | in node order, so no node is sent the pair twice |
| `Delivery.PairsConserved` | integration/ethereummock/mock_l1_network.go:49-61 | every run: the pairs delivered to a node and those on their way to it add up to the pairs broadcast to it |
| `Delivery.BlocksConserved` | integration/ethereummock/node.go:424-438 | every run: the blocks delivered and those still due add up to the parents delivered with them |
| `Delivery.DeliveredAsSent` | integration/ethereummock/node.go:424-438 | from the start, a node is handed a block at most as often as its parent, and that at most as often as the pair was broadcast; equally often once nothing is on its way |
| `Network.NextKeepsInv` | integration/ethereummock/mock_l1_network.go:49-61 | every step keeps the network invariant: rooted heads, rounds and mined blocks, correct caches, known messages, closed stores |
| `Network.UnionHoldsAncestry` | integration/ethereummock/mock_blocks.go:13-41 | every stored block is one higher than its parent, only genesis has height zero, and its whole ancestry is in the union of the stores |
| `Network.NetworkSafe` | integration/ethereummock/node.go:307-438 | every interleaving: the invariant holds, heads only rise, and a node above genesis never faults |
| `Network.FaultsExactly` | integration/ethereummock/node.go:520-523 | a node faults in a step exactly when a peer's block hits the broken-ancestry case at genesis; mining, collection and lookup never fault |
| `FaultScenario.NetworkFaultReachable` | integration/ethereummock/node.go:424-438 | two honest nodes and one overtaking delivery reach that fault |
| `Inclusion.NoDoubleInclusion` | integration/ethereummock/node.go:442-485 | when no transaction is gossiped to a mempool that already holds it, on every chain any node ever stores no hash is twice in a block or in two blocks |
| `Inclusion.NothingLost` | integration/ethereummock/node.go:452-459 | in every run, a transaction gossiped to a node at any step is at the end in its mempool, or fifteen deep on a chain the node holds |
| `Inclusion.HeldThroughout` | integration/ethereummock/node.go:452-459 | in every run, what waits in a mempool or is committed stays so |
| `OrderedDelivery.OrderedNetworkAgrees` | integration/ethereummock/node.go:307-438 | in network runs whose deliveries find the parent stored: no faults, every head longest, publication complete, equal stores give equal heights |
| `StateReplay.Enclave.ExecuteBatch` | go/enclave/components/batch_executor.go:334-367 | succeeds exactly when the parent's state is available and execution leads to the header's root; commits that state and nothing else |
| `StateReplay.Enclave.WalkBack` | go/enclave/enclave.go:944-959 | the batches without state from the head down, newest first, or an error exactly when storage lacks one |
| `StateReplay.WalkStoredExactly` | go/enclave/enclave.go:949-959 | the walk succeeds exactly when storage has the parent of every missing batch above genesis |
| `StateReplay.StoredChainWalks` | go/enclave/enclave.go:951-954 | with the whole chain in storage the walk succeeds, down to genesis when no state is available |
| `StateReplay.StateAfterIsExecution` | go/enclave/enclave.go:963-980 | the state after a batch is the last of the one execution of its chain from genesis, and is undefined when there is none |
| `StateReplay.Enclave.ReplayBatchesToValidState` | go/enclave/enclave.go:938-983 | succeeds exactly when the walk is stored and the head's state is defined from genesis, and then every available state of the chain is the fold from genesis; succeeding or failing, executes the missing batches oldest first up to the first undefined one, adds exactly the states below it and keeps the others; the index panic happens exactly when nothing is missing |
| `StateReplay.StopsExactly` | go/enclave/enclave.go:963-980 | the replay reaches the head exactly when the head's state is defined |
| `StateReplay.Enclave.RestoreStateDBCache` | go/enclave/enclave.go:901-923 | never panics, so the index in the log line is valid; leaves the head with its right state or reports an error, succeeds whenever the chain is stored and the head's state defined, and does nothing when there is nothing to do |
| `StateReplay.ReplayedAre` | go/enclave/enclave.go:963-980 | exactly the missing batches above genesis are executed |
| `StateReplay.ReplayOrder` | go/enclave/enclave.go:963-980 | in strictly rising height, each right after its parent |
| `StateReplay.DefinedIsCorrect` | go/enclave/enclave.go:925-932 | once the head's state is defined, every available state of its chain is the right one |
| `BatchIngestion.InvKept` | go/enclave/enclave.go:508-554 | in every interleaving, a passed check stays valid until its store, because storage only grows |
| `BatchIngestion.CheckExactly` | go/enclave/enclave.go:515-521 | a check passes exactly for numbers up to 2 and those whose predecessor is stored, and stores nothing |
| `BatchIngestion.StoredWasChecked` | go/enclave/enclave.go:515-546 | in every interleaving, a stored number was checked earlier in the run, at a moment when its predecessor was stored |
| `BatchIngestion.NoGaps` | go/enclave/enclave.go:515-546 | a stored sequence number has all numbers from 2 up to it stored |
| `BatchIngestion.EveryGapFreeSetReached` | go/enclave/enclave.go:515-546 | conversely every gap-free set is what some run stores |

## Left out

- Real hashing, KZG arithmetic, signatures and attestation: hypotheses stand for what is used of them.
- RLP of structs (`ReconstructRollup` after `DecodeBlobs`), JSON and gob: library encodings.
- Slot computation in `GetBlobSidecars` and HTTP requests: the answer of each client is a parameter.
- `interrupt` and `Stop`, log lines, the reorg counter, `ProcessBlobs`: no effect on the modelled state.
- The order in which `go sub.publish` goroutines reach a subscriber: only the order of issue is modelled.
- Subscriptions that start late: `issued` is what a subscriber present from the start is sent.
- The unsynchronised read of `mempool` by a firing round: a round reads it in one atomic step.
- The copy loop of `allIncludedTransactions` over the parent's map: maps are values here.
- The geth client's block cache and its `BlocksBetween`: the cache is transparent for ideal hashes.
- `FetchLastBatchSeqNo`, `BlockByNumber`, the in-memory blob resolver: test conveniences.
- Node.Node.ProcessBlock: assumes well-formed blocks, because every block comes from `NewBlock`; that this holds of all traffic is `Network.NextKeepsInv`.
- Node.Node.OnMinedBlock: assumes the same of mined blocks, and that none of them is genesis; both are part of `Network.NodeInv`.
- BlobCodec.EncodeBlobs: assumes data shorter than 2^64 bytes, which every Go slice is.
- StateReplay.Enclave.ReplayBatchesToValidState: assumes genesis batches carry the root of the genesis state, as `CreateGenesisState` builds them.
- BatchIngestion.NoGaps: models the sequence check and the store only; decryption, signature and execution are the `Abort` step or have no effect on what is stored.
- The rest of the enclave, host, RPC, contracts and launchers: delegation and I/O.
