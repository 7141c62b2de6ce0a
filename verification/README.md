# A verified model of a sharded proof-of-work node

The program is a node of a sharded proof-of-work blockchain. Each group has a
chain, a UTXO set and a pool of pending transactions; a miner grinds one nonce for
a batch of blocks of several groups; nodes gossip blocks and resolve forks by
adopting a longer chain. This project models that logic in Dafny and proves what
the parts promise each other. `dafny verify dfyconfig.toml` checks everything.

Hashes, encoders and the number of groups are uninterpreted constants (`Types`), so
every theorem holds for whatever functions are put there. Where a theorem needs
distinct hashes it says so as a hypothesis on the blocks and transactions at hand, or
on what is hashed for the tree and the path at hand. Database buckets are maps; the
block bucket keeps the real byte keys. Clocks, random nonces, retargeted
difficulties, the order of Go's map iterations and the replies of peers are
parameters or arbitrary choices.

| files | part |
|---|---|
| `Ledger`, `Scanning`, `UtxoSet`, `Incremental`, `IndexAgreement`, `RecordedIndex`, `Rollback`, `Conservation`, `ForkResolution`, `Tracking` | the UTXO set as an index over the chain |
| `Chain`, `Blockchain`, `Sync`, `Network`, `Node`, `Cluster` | the chain store, fork resolution, the network |
| `PoolGraph`, `TopoSort`, `Mempool`, `Expand`, `MemVerify`, `Payment`, `ChosenCoins` | the pool of pending transactions and payments |
| `MerkleTree`, `MerklePath`, `ProofOfWork`, `Hashing` | Merkle paths, batch mining and what hashes bind |
| `Numbers`, `Base58`, `Wallet`, `DatabaseKey`, `Queue` | addresses, database keys, the ring buffer |

## Main results

- **Rescan.** `Update` removes outputs by owner key, the rescan by output index, and
  the rescan walks a block forwards on its way backwards through the chain.
  `UpdateAgreesWithRescan` says exactly when the two give the same set, for all
  transactions with unique hashes: the unspent outputs of an old transaction are named
  by the block exactly as they are taken by key, and those of a transaction of the
  block are named before it exactly as they are taken after it (one without outputs is
  named after it). `ReplayKeepsIndex` lifts this to any number of updates, with the
  fallback to reindexing included.
  - Where every input carries the key of the output it names, the sets are the same if
    and only if the references inside the block agree and the block spends all of an
    owner's unspent outputs in an old transaction or none of them (`KeyedAgreement`).
    A mined block names nothing later in itself (`MinedBlockIsOrdered`); if its inputs
    are keyed in this way, it agrees if and only if none of its transactions spends
    from another or is without outputs, and owners are spent whole
    (`OrderedBlockAgrees`). `SpendInsideBlockDisagrees` and `SelfPaymentDisagrees`
    give a case for each: a spend of the block's own coinbase, and a spend of one of
    the two outputs that a payment to oneself leaves.
  - `FallbackExactly` says by the inputs alone when the update falls back.
  - The node's own payments need not carry that key: they record the position in what
    remains of an entry (core/utxo_set.go:205-215). `InputKeyedExactly` and
    `PaymentAgreesExactly`: the recorded index is right, and the rescan agrees, if and
    only if no output in front of the spent one was spent before.
    `ShiftedPaymentDisagrees` gives a case in which a reindex brings a spent output
    back.
- **Rollback.** `RollbackUndoesUpdates`: applying any number of blocks and rolling
  them back gives the old set entry by entry, plus exactly the leftover: the coinbase
  entries, which `Reverse` leaves behind, and the outputs it restores for inputs of
  other groups that had removed nothing. `SwitchReachesPeerSet` follows a whole fork
  switch from a set with any earlier leftovers: it ends as the peer's set plus the
  part of the leftover that the replay does not clear away.
- **Fork resolution.** `SyncBlocks`: if the peer serves the blocks, the local chain
  and all its indexes become the peer's, even if the peer's chain changed during
  the search; if any call fails, nothing has changed. Against a reliable peer it
  succeeds, and the search ends at the last common block.
- **Network.** `ReachableStatesAreGood`, `HeightsNeverFall`: over every run, every
  chain stays linked from height 0 on the shared genesis and no node gets lower.
  `Cluster.Drive` runs any sequence of deliveries, start-ups and creations on real
  nodes: it takes only such steps, every store stays valid, and every cached height
  is that of the stored last block. Where the circulating chains are exact, the UTXO
  set of every node follows its chain over all forks (`StepStaysOnTrack`), and where
  their blocks keep the index, it is the rescan of the chain plus stale outputs
  (`RunIsIndex`).
- **Pool.** `Sort` and `LeftOverIsLargest`: the batched sort lists a topological
  order, and what it evicts is the largest set in which every member spends from a
  member. `VerifyAncestry`, `Prune`: the recursive ancestor check accepts exactly what
  resolves through the pool to the chain, and exactly that survives.
  `ExpandTxnOutput` returns exactly the deepest level of pending spends, each coin as
  often as there are ways to it.
- **Payments.** `CreateTransaction` chooses the first coins that reach the amount and
  builds one input per chosen coin. A pending output to which two outputs of the key
  lead is chosen twice (`CommonCoinIsCountedTwice`). A payment applies exactly if and
  only if its inputs name different transactions and each finds exactly its own output
  (`PaymentExactly`); `BuiltPaymentIsExact` says which built payments do.
- **Merkle paths.** Folding the path of `FindPath` does not always give the root:
  `index < (l+r)/2` sends the last leaf of a left half to the right, and the range
  of a duplicated node is shifted on a copy. `PathFoldsExactly` gives the exact
  condition for every number of leaves and every index, if no hash of the tree
  collides with one computed in the fold; for 2^k leaves it is "even or last"
  (`PowerOfTwoDomain`). `FourLeavesFail` and `ThreeLeavesFold` show what is
  computed instead.
- **Value, addresses, keys.** `ValueIsConserved`; Base58 round trips in both
  directions for inputs of any length; `HeightKeysInjective` with its tight bound.

Where the code and its comments or evident intent disagree, the model follows the
code: the index a payment records is the position in the remaining outputs of an
entry (core/utxo_set.go:205-215, `RecordedIndex`); a height of -1 is looked up as
height 255 (global/database.go:88-96), which is why a failed search may move
"lastest" to block 255 before the refused range request moves it back;
`ExpandTxnOutput` drops every level but the last, also outputs that nobody spends;
popping an empty queue makes it show its other cells.

## Model

| member | source | states |
|---|---|---|
| `Ledger.ApplyTxnsAt` | core/utxo_set.go:46-85 | Applying a block acts on each entry of the set separately: the final entry depends only on the old entry, the inputs that name it and the transactions filed under it |
| `Ledger.ForeignInputIsSkipped` | core/utxo_set.go:53-61 | An input without an entry is skipped exactly if its key's first hash byte gives another group, and fails the update otherwise |
| `Ledger.OnlyCoinbasesSpendNothing` | types/transaction.go:28-30 | Exactly a single input of index -1 makes a transaction's inputs count for nothing |
| `UtxoSets.FilterOutputs` | core/utxo_set.go:64-68 | The loop keeps exactly the outputs of other owners, in order |
| `UtxoSets.UTXOSet.SpendAll` | core/utxo_set.go:50-75 | Spends inputs one by one; reports failure exactly when an input of this group finds no entry, and skips foreign inputs |
| `UtxoSets.UTXOSet.Update` | core/utxo_set.go:46-85 | The new set is the block applied, or the rescan of the chain when an own-group input finds no entry; the chain store stays valid |
| `UtxoSets.UTXOSet.Reverse` | core/utxo_set.go:87-108 | Undoes transactions last first, restoring recorded outputs and skipping coinbases |
| `UtxoSets.UTXOSet.Reindex` | core/utxo_set.go:110-121 | The set becomes exactly the backward scan of the stored chain |
| `Blockchains.Blockchain.FindUTXO` | core/blockchain.go:346-393 | Walking the stored hash links gives the scan over the blocks backwards and each block's transactions forwards |
| `Scanning.VisitTxn` | core/blockchain.go:359-386 | One transaction's outputs are collected unless their index was seen spent, then its inputs are marked |
| `Incremental.ScanAt` | core/blockchain.go:346-393 | With unique hashes the scan gives a transaction its outputs less those named by what was visited before it |
| `Incremental.ApplyEntryKept` | core/utxo_set.go:50-75 | Applying transactions removes from an entry exactly the outputs whose owner's key is carried by an input naming it |
| `Incremental.RemainingIsKept` | core/utxo_set.go:64-68 | Filtering what remains of an entry by a key is dropping exactly the indices that key owns |
| `Incremental.OldEntryAgrees` | core/utxo_set.go:46-85 | An entry of the old chain comes out of the update as the rescan of the longer chain has it if and only if its unspent outputs are named by the block exactly as they are taken |
| `Incremental.NewEntryAgrees` | core/blockchain.go:359-386 | An entry of the block agrees if and only if each of its outputs is taken after it in the block exactly when it is named before it |
| `Incremental.UpdateAgreesWithRescan` | core/utxo_set.go:46-85 | Update on the rescanned old chain equals the rescan of the new chain if and only if every unspent output is named by index exactly as it is taken by key |
| `Incremental.KeyedTakesOwners` | core/utxo_set.go:64-68 | Inputs keyed by the owner of the output they name take exactly the outputs of the owners they name |
| `Incremental.KeyedAgreement` | core/blockchain.go:359-386 | With inputs keyed in this way, indices and keys agree if and only if the block names all unspent outputs of an owner in an old transaction or none, and the references inside the block agree |
| `Incremental.DifferentOwnersAreWhole` | core/utxo_set.go:163-166 | The first of these always holds where the outputs of a transaction have different owners |
| `Incremental.NoReferencesAgree` | core/blockchain.go:358-386 | Without references between its transactions, all of which have outputs, the references of a block agree |
| `Incremental.OrderedRefsAgree` | core/blockchain.go:359-386 | In a keyed block that names nothing later in itself, references agree if and only if there are none and every transaction has outputs |
| `IndexAgreement.FallbackExactly` | core/utxo_set.go:53-61 | The update falls back if and only if, for some input of the group, what comes before it in the block leaves no entry under the hash it names |
| `IndexAgreement.ForeignInputsNeverFallBack` | core/utxo_set.go:53-57 | An update with a block whose inputs are all of other groups never falls back |
| `IndexAgreement.UpdateKeepsIndexExactly` | core/utxo_set.go:46-85 | With the fallback included: the set is the index of the longer chain if and only if an input finds nothing or indices and keys agree |
| `IndexAgreement.ReplayKeepsIndex` | core/utxo_set.go:46-85 | Over any number of updates the set stays the index if and only if every block keeps it |
| `IndexAgreement.MinedBlockIsOrdered` | commands/mining.go:44-48 | A block of a coinbase and the listed pool transactions names nothing later in itself |
| `IndexAgreement.OrderedBlockAgrees` | core/blockchain.go:359-386 | On a keyed block in that order, an update that does not fall back equals the rescan if and only if no transaction of the block spends from another or is without outputs, and the block spends all unspent outputs of an owner in an old transaction or none |
| `IndexAgreement.SpendInsideBlockDisagrees` | core/blockchain.go:359-386 | A coinbase and a spend of it in one block on top of a genesis: the update does not fall back and differs from the rescan |
| `RecordedIndex.PositionOfKept` | core/utxo_set.go:205-215 | The position of an owner's output in what remains of an entry is its index if and only if nothing in front of it is gone |
| `RecordedIndex.InputKeyedExactly` | core/utxo_set.go:143-160 | An input built from an entry takes one output of its value and key, and names that output if and only if no output in front of it was spent |
| `RecordedIndex.PendingInputIsKeyed` | global/mempool/index.go:176-184 | An input built from a pending transaction always names the output it takes |
| `RecordedIndex.PaymentAgreesExactly` | core/utxo_set.go:194-225 | A block of one payment leaves the entry it spends from as the rescan has it if and only if no output in front of the spent one was spent |
| `RecordedIndex.ShiftedPaymentDisagrees` | core/utxo_set.go:205-215 | Two owners of one transaction's outputs both spend, with the index the node records: the update takes the second output away and the rescan gives it back |
| `RecordedIndex.SelfPaymentDisagrees` | core/utxo_set.go:163-166 | One owner of both outputs of a transaction spends the first with its right index: the update takes both away and the rescan gives the second back |
| `Rollback.ExactSpendRemoves` | core/utxo_set.go:62-74 | An input with exactly one matching output takes that output out and keeps the others in order |
| `Rollback.RestoringUndoesSpending` | core/utxo_set.go:94-105 | Restoring the inputs of a transaction undoes their spending, entry by entry as bags, also when entries were deleted; inputs that had found no entry add their output |
| `Rollback.ReverseUndoesTxn` | core/utxo_set.go:87-108 | Reversing a transaction undoes it in the presence of stale outputs, removes what lies under its hash and adds what its skipped inputs restore |
| `Rollback.ReverseUndoesRun` | core/utxo_set.go:87-108 | Reversing an exact run, with spends inside it and skipped inputs of other groups, gives back the old set as bags plus exactly the leftover |
| `Rollback.RollbackUndoesUpdates` | api/sync.go:117-127 | The same for any number of blocks rolled back from the top |
| `Rollback.LeftoverIsCoinbases` | core/utxo_set.go:87-108 | If no input was skipped, the leftover is exactly the coinbase entries |
| `Rollback.RollbackLeavesCoinbases` | api/sync.go:117-127 | Then rolling back any number of blocks gives the old set plus exactly their coinbase entries |
| `ForkResolution.RunsMatch` | core/utxo_set.go:46-85 | Applying transactions to a set with stale outputs and other orders inside entries succeeds wherever it does without, and ends as that set plus the stale outputs that no transaction cleared away |
| `ForkResolution.ReplayedIsApply` | api/sync.go:129-138 | Where no update falls back, replaying blocks is applying their transactions in order |
| `ForkResolution.SwitchReachesPeerSet` | api/sync.go:117-138 | After rolling our blocks back and replaying the peer's, from a set with any stale outputs, the set is the peer's set as bags plus exactly the leftover of the abandoned blocks that the replay does not clear away |
| `ForkResolution.UpdatesConserveValue` | core/utxo_set.go:46-85 | Over any exact sequence of updates the total value grows by exactly the coinbase outputs and the values of skipped inputs of other groups |
| `Conservation.ValueIsConserved` | core/utxo_set.go:46-85 | The same for any exact run of balanced transactions |
| `Conservation.NothingImported` | core/utxo_set.go:55-57 | If no input is skipped, only coinbases add value |
| `Payments.FindUTXOs` | core/utxo_set.go:194-225 | The chosen coins are the first at the ends of the trails from different outputs of the key, as often as there are ways to them; no shorter choice reaches the amount; if the sum stays short, every output was followed and everything at the ends was chosen |
| `Payments.BuildInputs` | core/utxo_set.go:143-160 | As a bag, exactly one input per chosen coin with its transaction, index and value, under the sender's key; the values add up to the sum |
| `Payments.CreateTransaction` | core/utxo_set.go:124-171 | A built payment has exactly one input per chosen coin, is balanced, pays the amount to the receiver and any surplus to the sender; refusal means no key or that everything at the end of every trail is too little |
| `ChosenCoins.EndsHaveNoRepeats` | core/utxo_set.go:205-221 | Where no two outputs of the key lead to a common pending one, no coin is chosen twice |
| `ChosenCoins.CommonCoinIsCountedTwice` | core/utxo_set.go:205-221 | A pending payment that spends two outputs of a key and pays it back once is chosen twice, and a payment of more than its change is built from it |
| `ChosenCoins.PaymentExactly` | core/utxo_set.go:50-75 | A payment of one key applies exactly if and only if its inputs name different transactions and each finds exactly one output of the key, of its value |
| `ChosenCoins.RepeatedIsNeverExact` | core/utxo_set.go:62-74 | A payment that names an output twice applies exactly on no set |
| `ChosenCoins.BuiltPaymentIsExact` | core/utxo_set.go:124-171 | On top of the applied pool a built payment is exact, if no two outputs of the key lead to a common one, no owner has two outputs of one transaction, and nothing in the pool spends the chosen coins |
| `MemVerify.OverlayCovers` | core/utxo_set.go:238-278 | The overlay shows at least every output that really remains after the listed transactions |
| `MemVerify.ReplayIsUpdate` | core/utxo_set.go:46-85 | The replay the check stands for is `Update` wherever that does not give up |
| `MemVerify.OverlayIsExact` | core/utxo_set.go:238-278 | For an entry of the set that no listed input uses up, and for every hash the set does not have, the overlay shows exactly what the replay of the listed transactions leaves |
| `MemVerify.UTXOMemVerifyTransaction` | core/utxo_set.go:228-295 | Rejects only if replaying the listed transactions leaves no output for the key of some input in the entry it names, and always if that entry is there, was touched and was never used up; stops the process if a listed own-group input names what was never there |
| `MemVerify.ExitMeansFallback` | core/utxo_set.go:247-255 | Where no entry is empty, the check stops the process only if updating with the listed transactions would fall back |
| `MemVerify.DoubleSpendPasses` | core/utxo_set.go:263-264 | Acceptance does not mean that the replay succeeds: the second spend of an entry's only output is not refused |
| `UtxoSets.UTXOSet.MemVerify` | core/utxo_set.go:228-295 | The same for the set and the pool of a node: the listed transactions are the first of a topological order of the pool, and the rest of the pool is evicted |
| `DatabaseKey.EncodeInt` | global/database.go:79-96 | The loop computes the shortest little-endian bytes, one byte for negatives, and nothing from the wrapped bound on |
| `DatabaseKey.KeyBytes` | global/database.go:79-96 | Byte i of a key is the byte of that position, the lowest first |
| `DatabaseKey.LimitWraps` | global/database.go:83-92 | The shifted bound is exact below the last byte and wraps to 0 at the last |
| `DatabaseKey.HeightKeysInjective` | global/database.go:79-96 | Below 2^24 heights have equal keys only if equal, the same for `int32` and `int` |
| `DatabaseKey.HeightKeyLength` | global/database.go:88-96 | Height keys are one to three bytes, so never "lastest" nor a 32-byte hash |
| `DatabaseKey.HeightLimitIsTight` | global/database.go:88-96 | An `int32` height has the empty key if and only if it is at least 2^24 |
| `DatabaseKey.NegativeHeightAliases` | global/database.go:88-96 | A negative height has the key of its last byte |
| `Chain.AgreeBelow` | core/blockchain.go:138-150 | Linked chains that agree at one height agree at every lower one |
| `Chain.EntriesAt` | core/blockchain.go:200-208 | The bucket of a chain answers every height with the block's hash and every hash with the block |
| `Chain.EntriesOfShorter` | core/blockchain.go:242-249 | Deleting the last block's keys gives the entries of the shorter chain |
| `Chain.IndexOfShorter` | core/blockchain.go:246-248 | Deleting the last block's transactions gives the index of the shorter chain |
| `Chain.IndexAnswers` | core/blockchain.go:206-208 | The transaction index answers every transaction's hash with that transaction |
| `Chain.ReindexStep` | core/blockchain.go:62-70 | Indexing from the top down gives the same index as block after block |
| `Blockchains.Blockchain.ValidIsBucket` | core/blockchain.go:156-208 | A valid store is exactly the bucket and the transaction index of its chain |
| `Blockchains.Blockchain.GetBlockByHeight` | core/blockchain.go:138-150 | Gives the block of every stored height and nothing above; negative heights are looked up by their last byte |
| `Blockchains.Blockchain.GetHeight` | core/blockchain.go:170-191 | The cached height equals that of the stored last block, -1 without one |
| `Blockchains.Blockchain.AddBlock` | core/blockchain.go:193-240 | Only a block of the next height changes anything; it is written under its three keys, its transactions are indexed, exactly they leave the pool, the rest of the pool is pruned, and the store stays that of the longer chain |
| `Blockchains.Blockchain.DeleteBlock` | core/blockchain.go:242-249 | Removes a block's entries and leaves the store of the shorter chain |
| `Blockchains.Blockchain.TxnReindex` | core/blockchain.go:62-70 | Whatever the index held, it becomes that of the chain |
| `Blockchains.Blockchain.Next` | core/blockchain.go:83-92 | The iterator steps to the block the hash names and ends below the genesis |
| `Sync.GetHash` | api/db.go:384-398 | Answers a height with the hash of the stored block |
| `Sync.ServedHashesAreFixed` | api/db.go:384-398 | A node that answers like this from one chain of at least our height is the fixed peer of the search |
| `Sync.GetBlocks` | api/db.go:128-158 | Answers a range exactly when all of it is stored and it sits on the given hash; never from height 0; negative heights are looked up by their last byte |
| `Sync.ServedMeans` | api/db.go:128-158 | From a height on, what is served is that part of the chain, exactly when the range is above the genesis, stored and on the given hash |
| `Sync.FindFork` | api/sync.go:78-96 | The search ends with l = r+1 for any replies, and against a fixed chain at the last common height |
| `Sync.ServedContinues` | api/db.go:144-157 | Blocks served on top of our block r continue our own chain up to r, because the link was checked |
| `Sync.RollBack` | api/sync.go:117-127 | Store and set are rolled back to block r, from the top down |
| `Sync.ReplayAll` | api/sync.go:129-138 | The chain grows by all blocks and the set by one update per block |
| `Sync.Restore` | api/sync.go:110-115 | After a failed request the bucket and the cached height are as before |
| `Sync.SyncBlocks` | api/sync.go:57-139 | Adopts exactly the peer's blocks 0 to newHeight, on a common prefix up to r, with all indexes and the resolved set, or changes nothing, pool included; succeeds against a reliable peer, with r the last common height |
| `Sync.SyncWith` | api/sync.go:57-139 | Synchronising with a steady higher node on the same genesis, answered by its `GetHash` and `GetBlocks`, adopts its chain from the last common block on |
| `Network.NodeStepKeeps` | api/db.go:295-320 | A step keeps a chain linked, of contiguous heights, on the shared genesis, and never lowers it |
| `Network.ReachableStatesAreGood` | api/sync.go:57-139 | In every reachable state every chain is linked, of contiguous heights, on the shared genesis |
| `Network.HeightsNeverFall` | api/sync.go:62-67 | Over every run no node gets lower |
| `Network.NodesShareHistory` | api/sync.go:78-96 | In every reachable state nodes that agree at a height agree below it |
| `Nodes.Judge` | api/db.go:285-320 | Which of the handler's branches a block takes, in terms of the chain |
| `Nodes.GossipBlock` | api/db.go:273-324 | A block is added exactly when it continues the chain, a synchronisation is tried exactly for other blocks of at least our next height, a node without a chain takes over the genesis first, and the result is one or two network steps |
| `Nodes.StartUp` | api/sync.go:14-46 | A node without a chain installs the genesis and then synchronises; the result is the genesis alone or the peer's chain up to the height it told |
| `Nodes.Join` | api/sync.go:18-30 | A node without a chain takes over the genesis and rebuilds both indexes; any other is unchanged |
| `Nodes.MineGenesis` | core/blockchain.go:251-278 | Mining the first block gets through exactly from height -1 or when the nonce range is already exhausted; with target 1 the first nonce is taken |
| `Nodes.CreateBlockchain` | core/blockchain.go:94-106 | The bucket is cleared only from height -1, or without a mining round; from -1 it is the creation step of the network, the store holds exactly the new genesis and the set is its scan; from another height the block bucket is left empty and everything else as it was |
| `Nodes.MinedBlockContinues` | core/blockchain.go:303-318 | A mined block continues the chain it was drafted on |
| `Cluster.HandleAt` | api/db.go:273-324 | An event at a node keeps its store valid and is two network steps, of which either may change nothing; on exact chains it keeps the set on track |
| `Cluster.Drive` | api/sync.go:57-139 | Any sequence of deliveries, start-ups and creations takes only network steps, keeps every store valid with its cached height that of the stored last block, and lowers no node; on exact chains every set stays on track |
| `Tracking.SwitchTracks` | api/sync.go:117-138 | After a switch a set that followed its chain follows the new one, with exactly the leftover of the old blocks that the replay does not clear away |
| `Tracking.StepStaysOnTrack` | api/sync.go:14-139 | Every step of a node keeps its set on its chain: updates, switches and the installation of a genesis |
| `Tracking.RunIsIndex` | core/utxo_set.go:46-85 | Where every block keeps the index and none falls back, the run of a chain is its rescan |
| `Blockchains.Blockchain.CachedHeightIsStored` | core/blockchain.go:156-191 | In a valid store the cached height is that of the stored last block |
| `PoolGraph.LeftOverIsLargest` | global/mempool/index.go:132-146 | What a topological order leaves out, if it feeds itself, is the largest set that does |
| `PoolGraph.PrefixIsClosed` | global/mempool/index.go:132-141 | The listed first transactions contain all their parents in the pool |
| `TopoSort.AddInputs` | global/mempool/index.go:96-104 | Edges and in-degree of a transaction count exactly its inputs that name the pool |
| `TopoSort.BuildGraph` | global/mempool/index.go:83-104 | The graph has exactly the edges of the pool's spends |
| `TopoSort.TakeEdge` | global/mempool/index.go:121-126 | Following an edge keeps: listed exactly if the in-degree is 0, and all parents listed before |
| `TopoSort.ProcessNode` | global/mempool/index.go:119-127 | Processing a node takes its edges off and lists what becomes ready |
| `TopoSort.Sort` | global/mempool/index.go:64-130 | The batched loop ends with a topological order; what is left out feeds itself |
| `Mempools.Mempool.GetTxns` | global/mempool/index.go:64-149 | Returns the first 50 of a topological order, or all if there are fewer, and keeps exactly the ordered transactions; a pool of at most 50 without cycles is returned whole |
| `Mempools.AcyclicIsListed` | global/mempool/index.go:106-130 | Of a pool without cycles an order leaves nothing out |
| `Mempools.ResolvesByInputs` | core/blockchain.go:216-229 | An ancestry resolves, however deep, exactly when every input names the chain or a pool transaction that resolves |
| `Mempools.VerifyAncestry` | core/blockchain.go:216-229 | The recursive check ends on an ordered pool and accepts exactly the transactions whose whole ancestry resolves |
| `Mempools.SurvivesIffResolves` | core/blockchain.go:231-237 | The survivors of pruning are the transactions that resolved before it |
| `Mempools.Prune` | core/blockchain.go:231-237 | Of the listed transactions exactly those survive whose inputs all name the chain or the pool, which are those whose whole ancestry resolved before; the others are untouched |
| `Mempools.SurvivorsAreUnique` | core/blockchain.go:231-237 | The survivors are the only set with that property |
| `Mempools.Mempool.PruneListed` | core/blockchain.go:210-238 | Listing and pruning together, on the pool of a node: of the first 50 exactly those stay whose whole ancestry resolved, and the others of the order stay |
| `Mempools.SmallPoolIsPruned` | core/blockchain.go:231-237 | In a pool of at most 50 without cycles exactly what resolves stays |
| `Mempools.TakeBlock` | core/blockchain.go:210-238 | A block's transactions leave the pool, and the rest is pruned |
| `Expand.NotFollowedExactly` | global/mempool/index.go:169-184 | An output is not followed exactly when no pending transaction with an input of its transaction, owner and value pays that owner |
| `Expand.NextCoins` | global/mempool/index.go:169-187 | One level: exactly the outputs that pool spenders pay back to the owner, each once for every input that spends the coin |
| `Expand.WaysAreInputs` | global/mempool/index.go:169-187 | That count is the number of such inputs |
| `Expand.DepthIsBounded` | global/mempool/index.go:155-191 | On an acyclic pool no chain of spends is longer than the pool |
| `Expand.SameOwner` | global/mempool/index.go:176-184 | Every output reached has the owner of the first |
| `Expand.ExpandTxnOutput` | global/mempool/index.go:155-191 | Ends, and returns exactly the deepest level, each coin as often as there are ways to it; nothing returned has a spender that pays the owner back |
| `Expand.LevelIsReached` | global/mempool/index.go:155-191 | The coins of a level are exactly those reached by that many pool spends |
| `MerkleTree.NewMerkleTree` | core/merkle_tree.go:26-59 | Refuses only the empty input and otherwise ends with a tree of the shape the leaves determine, at the least sufficient height |
| `MerkleTree.NextLevel` | core/merkle_tree.go:38-54 | A level becomes the next one, with an odd last node paired with itself under its unshifted range |
| `MerkleTree.FindPath` | core/merkle_tree.go:71-100 | Walk and collection give the steps of the nodes passed, lowest first |
| `MerkleTree.FoldPath` | types/block.go:49-58 | The loop folds the path from the leaf |
| `MerklePath.FoldedIffWorks` | core/merkle_tree.go:71-100 | The fold reaches the node's own expression exactly under the arithmetic condition on level, leaf count and index |
| `MerklePath.PathFoldsToRoot` | core/merkle_tree.go:71-100 | Under the condition the fold gives the root, for every hash function |
| `MerklePath.EvalTellsApart` | core/merkle_tree.go:26-59 | Without a collision among what is hashed for them, expressions that hash alike are alike |
| `MerklePath.PathFoldsExactly` | core/merkle_tree.go:71-100 | If no hash of the tree collides with one computed in the fold, the fold gives the root if and only if the condition holds |
| `MerklePath.PowerOfTwoDomain` | core/merkle_tree.go:77-81 | For 2^k leaves the condition is: an even index or the last |
| `MerklePath.PowerOfTwoFolds` | core/merkle_tree.go:71-100 | With 2^k leaves every even index and the last one fold to the root |
| `MerklePath.FourLeavesFail` | core/merkle_tree.go:77-81 | With four leaves, leaf 1 is folded with leaf 3, and without collisions that is not the root |
| `MerklePath.ThreeLeavesFold` | core/merkle_tree.go:38-54 | With three leaves, leaf 1 is folded without its pair and leaf 2 without its doubling |
| `MerklePath.ThreeLeavesFail` | core/merkle_tree.go:77-81 | Without collisions, of three leaves exactly leaf 0 folds to the root |
| `MerklePath.RelayVerify` | types/transaction.go:125-139 | Accepts exactly when the path folds the transaction's hash to the root |
| `MerklePath.RelayedIsAccepted` | types/transaction.go:125-139 | A relayed transaction is accepted where its path works, and only there if no hash of the tree collides with one computed in the fold |
| `MerklePath.EqualRootsEqualLeaves` | core/merkle_tree.go:26-59 | Without a collision of `Sha256` trees over equally many leaves have one root only if the leaves are the same |
| `Hashing.TxnHashBinds` | types/transaction.go:20-22 | A transaction hash binds the encoded transaction |
| `Hashing.BlockHashBinds` | types/block.go:46-69 | A block hash binds the encoded header, group base, batch size and nonce |
| `ProofOfWork.HashBlock` | types/block.go:46-69 | Computes the block's hash by the folding loop |
| `ProofOfWork.LowestTarget` | core/proof_of_work.go:50-58 | The loop finds the lowest target of the batch |
| `ProofOfWork.Run` | core/proof_of_work.go:78-104 | Stops at the first nonce that meets the target, at the end of the range, or in the first round that finds a chain changed; the chains were checked in every round |
| `ProofOfWork.DraftBlocks` | core/blockchain.go:282-319 | One draft per slot on top of each group's last block, or the first group without one |
| `ProofOfWork.SlotIsPosition` | core/blockchain.go:332-333 | The slot recomputed modulo the number of groups is the batch position, and the mined group base is the first block's group |
| `ProofOfWork.MinedHash` | core/blockchain.go:330-334 | Where its slot's path works, a block's hash is the mined hash |
| `ProofOfWork.MinedHashExactly` | core/blockchain.go:330-334 | Only there, if no hash of the tree collides with one computed in the fold and the two roots hash apart |
| `ProofOfWork.EveryHashMeetsOne` | core/proof_of_work.go:72-76 | Every hash meets target 1 |
| `ProofOfWork.SmallBatchesWork` | core/merkle_tree.go:71-100 | For batches of 1 and 2 every slot's path works |
| `ProofOfWork.SmallerTargetIsEasier` | core/proof_of_work.go:72-76 | A hash that meets a target meets every smaller one |
| `ProofOfWork.MineBatch` | core/blockchain.go:321-343 | The kept blocks are exactly the mined ones that verify, also when the nonce range is exhausted; before that the nonce meets the lowest target |
| `ProofOfWork.WhichBlocksAreKept` | core/blockchain.go:328-343 | A block whose path works is kept exactly when the mined hash is below 2^256 div floor(Target); one with the lowest target always is |
| `ProofOfWork.KeptExactly` | core/blockchain.go:328-337 | Kept are exactly the drafts that meet their own target when completed with the nonce and the path of their slot |
| `ProofOfWork.MineBlocks` | core/blockchain.go:280-344 | Every draft has the transactions, timestamp and target it was ordered with and the root of those transactions; a nonce below the end of the range meets the least target; mining fails only without a last block or because a chain changed |
| `Base58.ReverseBytes` | utils/base58.go:10-14 | Reverses the array in place |
| `Base58.Base58Encode` | utils/base58.go:17-41 | Computes one '1' per leading zero byte and the base-58 digits of the number |
| `Base58.Base58Decode` | utils/base58.go:44-66 | Computes one zero byte per leading '1' and the bytes of the number, with -1 for foreign symbols |
| `Base58.DecodeEncode` | utils/base58.go:17-66 | Decoding an encoding gives every byte string back |
| `Base58.EncodeDecode` | utils/base58.go:17-66 | Encoding a decoding gives a string back if and only if it is over the alphabet |
| `Base58.AlphabetIsOrdered` | utils/base58.go:8 | The symbols increase over digits and letters without '0', 'I', 'O' and 'l' |
| `Base58.AlphabetIsComplete` | utils/base58.go:8 | Every such digit or letter is a symbol |
| `Numbers.FromBytesConcat` | utils/base58.go:17-41 | Bytes have their positional value, the first one highest |
| `Wallet.ValidMeansChecksummed` | wallet/wallet.go:62-75 | An address is valid exactly when it decodes to a non-empty payload followed by its checksum |
| `Wallet.AddressBelongsToKey` | wallet/wallet.go:33-83 | A key's address validates, its output is locked with exactly the keys of that hash, and both group computations agree |
| `Wallet.AddressesAreInjective` | wallet/wallet.go:33-43 | Equal addresses come from equal key hashes |
| `Wallet.AddressStartsWithOne` | wallet/wallet.go:33-43 | Every address starts with '1' |
| `Wallet.ChecksumIsDoubleHash` | wallet/wallet.go:78-83 | The last four bytes of a valid address are the first four of the double hash of the others |
| `Wallet.SameChecksumCollides` | wallet/wallet.go:62-75 | Two valid addresses with one checksum and different payloads are a collision of the shortened double hash |
| `RingQueue.Queue.Push` | types/queue.go:34-45 | The contents become the last n of the old contents and the item |
| `RingQueue.Queue.Pop` | types/queue.go:47-54 | Takes the oldest item; on an empty queue the other cells become visible |
| `RingQueue.Queue.Get` | types/queue.go:63-69 | Gives the contents in order |
| `RingQueue.Drive` | types/queue.go:19-69 | Any run of pushes and pops that never pops an empty queue refines the bounded sequence |
| `RingQueue.LastOfMeans` | types/queue.go:34-45 | The last n items are the end of the sequence, all of it if there are no more |
| `RingQueue.PushesKeepLast` | types/queue.go:34-45 | Pushing items keeps exactly the last n of all |

## Left out

- `MemVerify.UTXOMemVerifyTransaction`: promises of an accepted transaction only that the overlay refuses none of its inputs, because acceptance does not imply that the replay succeeds (`DoubleSpendPasses`).
- `Payments.CreateTransaction`: does not model signing, the wallet file or 64-bit overflow of the sum; a total supply beyond 2^63 is not reachable by 50 million units a block.
- `Payments.FindUTXOs`: takes the entries in any order instead of the database's key order.
- `Mempools.Mempool.GetTxns`: names nodes by transaction hash instead of numbering them; hashes are compared whole, while the source pads or cuts them to 32 bytes as map keys.
- `Blockchains.Blockchain.AddBlock`: does not model the block-head store, whose cached height does not survive reorganisations, nor the database's refusal of the empty key from height 2^24 on; well-formed chains stay below it.
- `Blockchains.Blockchain.DeleteBlock`: does not model the deletion from the block-head store.
- `Nodes.CreateBlockchain`: stops where the source's process stops, when the bucket was cleared from another height; that takes a random nonce of exactly 2^63-1, which `Cluster.Drive` leaves out.
- `Nodes.StartUp`: takes the answers to the genesis and version requests after their retries; a node that nobody answers waits, which changes nothing.
- `ProofOfWork.MineBlocks`: takes the retargeted difficulty (core/blockchain.go:296-301), timestamps and the heights seen while mining as parameters, and targets of at least 1 as the source's division demands.
- `Sync.SyncBlocks`: assumes that a served range comes from one well-formed chain; what a peer could do by answering with arbitrary blocks is not modelled.
- Locks and their order: every handler is one atomic step.
- HTTP, the command line, peer discovery, gossip shuffling and logging.
- Bolt transactions and JSON: buckets are maps and encoding is lossless.
- Transaction signatures and their verification (types/transaction.go:61-123).
- Balances (`GetBalance`, `FindUTXOByHash`): they hash a key hash again, so no useful statement holds.
- `GossipTxn` and `GossipRelayTxn`: plumbing around the pool check and `RelayVerify`.
- The filter of received blocks by group (utils/index.go:88-102): the model follows one group.
