# Verified model of V6Coin's core

A Dafny model of the parts of the V6Coin node in `code/go` whose correctness is hardest to see from
one function at a time. Objects that the Go code updates in place are classes, loops are loops with
invariants, and each is proved to follow a function on values about which the theorems are stated.

| file | component |
|---|---|
| `Election.dfy` | validator election: sort, prefix cap, truncation; the greedy choice is optimal |
| `TxHeap.dfy`, `TxPool.dfy` | transaction pool: heap with back-pointers, hash index, sender index |
| `BlockTree.dfy` | block tree, AddBlock, both fork searches, reorganisation paths |
| `Merkle.dfy` | Merkle roots and proofs: completeness, binding |
| `Emission.dfy` | block rewards and the bound on everything ever issued |
| `LruCache.dfy`, `FileStore.dfy`, `CachedStore.dfy` | LRU cache, map store with batches, write-through cache |
| `Ledger.dfy` | all transaction types and block rewards over account copies, and the sum of balances |
| `RateLimiter.dfy` | sliding-window limiter |
| `Kademlia.dfy` | routing table and nearest-node search |
| `OptionCodec.dfy` | Hop-by-Hop options and the transaction option (sections 4.2 and 4.3 of RFC 8200) |

`dafny verify dfyconfig.toml` checks everything.

## What comes in as a parameter

- Hash functions are arbitrary functions; in the Merkle theorems their results have 32 bytes. No theorem
  assumes that hashes do not collide: a block whose hash is taken is refused, and the Merkle theorems
  name the place where two different inputs have the same hash.
- The clock, the results of disk operations and of calls into the state database, and the order in
  which Go walks a map. Clock readings plus 30 seconds are below 2^63.
- A pooled transaction's priority, gas price and arrival time (`Rank`), and contribution scores, as
  real or integer inputs. Scores are not negative, as the source clamps them to 0..100.
- The genesis block. The chain's invariant holds from the start exactly when it has height 0 and its
  previous hash is the hash of no header, as with the node's empty one
  (`code/go/cmd/node/main.go:504-520`).

## Where the code does not do what its comments say

- Eviction from a full pool takes the heap root, which no other item beats, and not the lowest
  (`EvictsLowestExactlyWhen`, `FullPoolEvictsTheBest`). Pending transactions are listed in heap order:
  a list of m out of n is always sorted exactly when m or n is at most two (`SortedExactlyWhen`,
  `ListedInOrderExactlyWhen`).
- A second transaction with the same sender and nonce replaces the first one's index entry
  (`CompleteUnlessReused`), and removing the first one then deletes the second one's entry although
  it stays pooled (`RemovalDropsSlot`, `RemovingOldUnindexesNew`); expiry and eviction delete it the
  same way. So removal by nonce can miss pooled transactions. It also looks up raw address bytes in
  an index of printed addresses (`RawAddressReachesExactlyWhen`).
- The fork handler subtracts unsigned heights, so below `maxForkDepth` it never finds a fork
  (`FindRecentForkPoint`).
- The option parser computes the header length in eight bits, so headers longer than 2040 bytes lose
  options (`RoundTripExactlyWhen`).
- The file store changes its map before a disk operation that may fail, so the cache in front of it
  can go stale (`CacheIsTransparent`, `FailedDeleteShows`). Even a working disk fails to remove a file
  that is gone, and keys share files, each with the key that has a zero byte more: only with a file
  name of its own for each key would a working disk be enough (`WorkingDiskSafeExactlyWhen`,
  `FileNamesLeaveStale`).
- A plain set keeps the old expiry of a cached key, so a larger cache can miss where a smaller one,
  which had evicted the key, hits (`LargerCacheIncludes`, `SmallerCacheCanWin`).
- No transaction advances a nonce, so a successful one succeeds again for as long as its cost fits
  into the balance (`SucceedsAgainExactlyWhen`).
- The executor writes the receiver's copy last, so nothing that a migration moves and nothing that an
  unstaking returns arrives (`MigrationArrivesExactlyWhen`, `UnstakeReturnsNothing`); fees are taken
  for transfers only.
- The in-memory state root depends on the number of accounts alone (`SameRootExactlyWhen`).
- The rate limiter's question and record are separate calls, so with c unused yeses a second can hold
  c - 1 records more than the limit (`WindowNeverExceedsBound`, `BoundIsReached`).
- A transfer to oneself keeps the debited coins and adds the amount; an unknown sender spends a
  starting balance that nobody issued (`ConservedExactlyWhen`).
- A block whose reorganisation or reward payment fails stays stored (`AddBlock`).
- Bucket indexes come from whole bytes although the scan is by bits: 17 of the 256 buckets are ever
  used (`UsedExactlyWhen`, `TableHoldsAtMost`), and the index is the one by bits only for keys that
  agree or differ in their first bit (`BytesMatchBitsExactlyWhen`).
- Removing a node deletes the route of its key even if another node with that key stays in the
  bucket (`RemovalKeepsRoutedExactlyWhen`).
- A Merkle proof's length, sibling sizes and index are not checked (`InnerNodeAccepted`,
  `OtherSplitAccepted`, `EveryIndexAccepted`).
- The staking schedule pays one nano-V6 forever, consensus nothing after 37 intervals
  (`SchedulesAgreeExactlyWhen`).

## Model

| member | source | states |
|---|---|---|
| `Election.GreedyOptimal` | code/go/pkg/consensus/poc.go:214-259 | Sorting, capping each prefix and truncating elects distinct nodes within both limits, and no set of tracked nodes within both limits has a larger total score |
| `Election.ElectionOptimal` | code/go/pkg/consensus/poc.go:214-259 | The same with the caps stated on the first eight characters of the addresses themselves |
| `Election.SharePrefixExactlyWhen` | code/go/pkg/consensus/poc.go:336-343 | Two addresses share a prefix if and only if they agree in their first eight characters, or are equal when one is shorter |
| `Election.FeasibleIsAdmissible` | code/go/pkg/consensus/poc.go:244-259 | A cap on each prefix is a cap on each eight starting characters, and on everything if it is not positive |
| `Election.KeptExactlyWhen` | code/go/pkg/consensus/poc.go:244-259 | A node is kept if and only if fewer than the cap of better kept nodes have its first eight characters |
| `Election.NoRivalBeats` | code/go/pkg/consensus/poc.go:214-259 | The total score of any admissible rival set is at most that of the elected set |
| `Election.GreedyKeepsLead` | code/go/pkg/consensus/poc.go:214-259 | In every prefix of the ranking the elected nodes lead any rival in number, and their score lead is at least that number times the lowest score seen |
| `Election.KeptPicksMost` | code/go/pkg/consensus/poc.go:244-259 | In every prefix of the ranking at least as many nodes pass the prefix cap as any admissible set has there |
| `Election.KeptSaturates` | code/go/pkg/consensus/poc.go:244-259 | For each prefix either the cap is reached or every node seen with that prefix is kept; the count never exceeds the cap |
| `Election.WinnersAreTruncated` | code/go/pkg/consensus/poc.go:233-238 | The returned list names exactly the kept nodes that came before the committee was full |
| `Election.LimitedIsSorted` | code/go/pkg/consensus/poc.go:226-232 | The capped list stays ordered by falling score |
| `Election.GetTopValidators` | code/go/pkg/consensus/poc.go:214-241 | The elected list is duplicate-free, best score first, within the size and at most the cap for any eight starting characters, and no set of tracked nodes within these limits has a larger total score |
| `Election.ApplyPrefixLimits` | code/go/pkg/consensus/poc.go:244-259 | The loop with its map of counters keeps exactly the nodes whose prefix still has room, in order |
| `Election.CollectScores` | code/go/pkg/consensus/poc.go:218-224 | Every tracked node is a candidate once, with its score, whatever the map order |
| `Election.SortByScore` | code/go/pkg/consensus/poc.go:226-229 | The ranking lists the same nodes, best score first |
| `TxHeap.UpOrders` | code/go/pkg/tx/pool.go:54-78 | Sifting up restores heap order under Less when only one position is out of order towards its parent |
| `TxHeap.DownOrders` | code/go/pkg/tx/pool.go:54-88 | Sifting down restores heap order when only one position is out of order towards its children |
| `TxHeap.PushIsHeap` | code/go/pkg/tx/pool.go:73-78 | Pushing gives a heap of the old items and the new one |
| `TxHeap.RemoveAtIsHeap` | code/go/pkg/tx/pool.go:205-216 | Removal at any index, also in the middle, gives a heap of exactly the other items |
| `TxHeap.RemovedLast` | code/go/pkg/tx/pool.go:80-88 | During a removal the removed item is the one cut off last and nothing else is lost |
| `TxHeap.PopIsRemoveRoot` | code/go/pkg/tx/pool.go:413-418 | Popping equals removing index zero |
| `TxHeap.RootUnbeaten` | code/go/pkg/tx/pool.go:54-65 | No pooled item beats the root: it has the highest priority, among those the highest gas price, among those the earliest arrival |
| `TxHeap.PrecedesExactlyWhen` | code/go/pkg/tx/pool.go:54-65 | One item is not beaten by another if and only if it has a higher priority, or the same and a higher gas price, or both the same and no later arrival |
| `TxPool.FirstIsBest` | code/go/pkg/tx/pool.go:175-189 | In every consistent non-empty pool the first pending transaction precedes all others on these fields |
| `TxHeap.EvictsLowestExactlyWhen` | code/go/pkg/tx/pool.go:413-418 | The evicted root is a lowest item if and only if all pooled items rank the same |
| `TxHeap.EvictsTheBetter` | code/go/pkg/tx/pool.go:413-418 | In a queue of any length where nothing ties with the root, the evicted root beats everything that is kept |
| `TxPool.FullPoolEvictsTheBest` | code/go/pkg/tx/pool.go:137-142 | The same of a pool of MaxPoolSize transactions, where eviction happens |
| `TxHeap.SortedExactlyWhen` | code/go/pkg/tx/pool.go:174-189 | Given items of different ranks, the first m are in order in every queue of them, if and only if m or their number is at most two |
| `TxPool.ListedInOrderExactlyWhen` | code/go/pkg/tx/pool.go:174-189 | Consistent pools of a given size always answer a request for maxCount in order, if and only if the size is at most two or one or two are requested |
| `TxPool.PoolOfIsConsistent` | code/go/pkg/tx/pool.go:121-172 | Adding transactions with distinct hashes in order gives a consistent pool whose queue is their pushes |
| `TxHeap.HeapIsPushed` | code/go/pkg/tx/pool.go:73-78 | Every heap arises by pushing its items in order, so every one of these queues occurs |
| `TxHeap.FirstTwoInOrder` | code/go/pkg/tx/pool.go:175-189 | The first two listed items are always in order |
| `TxHeap.ThirdOutOfOrder` | code/go/pkg/tx/pool.go:175-189 | Any three or more items of different ranks have a queue that lists the third-best before the second-best |
| `TxHeap.DrainOrder` | code/go/pkg/tx/pool.go:175-229 | Taking the first item and removing it, repeatedly, yields each item exactly once and no later one beats an earlier one |
| `TxPool.DrainEmptiesPool` | code/go/pkg/tx/pool.go:175-229 | Over the whole pool: each item once, every earlier one preceding every later one on priority, gas price and arrival; queue, hash index and sender index end empty |
| `TxPool.RemovedConsistent` | code/go/pkg/tx/pool.go:205-229 | Removing any item keeps queue, hash index and sender index consistent and removes just that item |
| `TxPool.AddedConsistent` | code/go/pkg/tx/pool.go:160-169 | Adding a transaction with a new hash keeps all three structures consistent and adds just that item |
| `TxPool.CompleteUnlessReused` | code/go/pkg/tx/pool.go:165-169 | Adding keeps every pooled item reachable by sender and nonce if and only if no pooled one has that sender and nonce |
| `TxPool.RemovalDropsSlot` | code/go/pkg/tx/pool.go:221-228 | After a removal another pooled item is indexed if and only if it was and has a different sender or nonce than the removed one |
| `TxPool.CompleteAfterRemoval` | code/go/pkg/tx/pool.go:221-228 | For every consistent pool: after a removal all items are indexed if and only if all others were, in other slots |
| `TxPool.RemovingOldUnindexesNew` | code/go/pkg/tx/pool.go:165-169 | After a reused sender and nonce, removing the older transaction leaves the newer one pooled and no longer indexed |
| `TxPool.RemovalKeepsComplete` | code/go/pkg/tx/pool.go:205-229 | Once all items are indexed, a removal keeps them so |
| `TxPool.CompleteIndexReachesAll` | code/go/pkg/tx/pool.go:232-261 | When all items are reachable, removal by nonce selects exactly the sender's transactions from that nonce on |
| `TxPool.RawAddressReachesExactlyWhen` | code/go/pkg/tx/pool.go:232-238 | Looking up raw address bytes reaches a sender's transactions if and only if they read as the printed address |
| `TxPool.TxPool.constructor` | code/go/pkg/tx/pool.go:108-118 | The empty pool satisfies the pool invariant |
| `TxPool.TxPool.Swap` | code/go/pkg/tx/pool.go:67-71 | Swaps two items and both back-pointers |
| `TxPool.TxPool.SiftUp` | code/go/pkg/tx/pool.go:54-78 | Follows the specified sift-up; every back-pointer names its item's position |
| `TxPool.TxPool.SiftDown` | code/go/pkg/tx/pool.go:54-71 | Follows the specified sift-down, reports whether the item moved, keeps the back-pointers |
| `TxPool.TxPool.CutLast` | code/go/pkg/tx/pool.go:80-88 | Cuts off the last item and marks it with index -1 |
| `TxPool.TxPool.HeapPush` | code/go/pkg/tx/pool.go:73-78 | The queue becomes the specified push; back-pointers match |
| `TxPool.TxPool.HeapPop` | code/go/pkg/tx/pool.go:80-88 | Returns the old root; the queue becomes the removal of index zero |
| `TxPool.TxPool.HeapRemove` | code/go/pkg/tx/pool.go:205-216 | Returns the item at the index; the queue becomes its removal; back-pointers match |
| `TxPool.TxPool.AddTransaction` | code/go/pkg/tx/pool.go:121-172 | Exact result for every input (never pool full); a refusal changes nothing; an acceptance adds the transaction, after removing the root when the pool is full; the invariant holds throughout |
| `TxPool.AdmittedExactlyWhen` | code/go/pkg/tx/pool.go:311-355 | Each refusal, if and only if its check is the first to fail, on age, fee, account, balance and nonce |
| `TxPool.TxPool.Insert` | code/go/pkg/tx/pool.go:144-169 | Puts a new item into all three structures and keeps the invariant |
| `TxPool.TxPool.EvictLowestPriority` | code/go/pkg/tx/pool.go:413-432 | Fails only on an empty pool; otherwise removes the root from all three structures |
| `TxPool.TxPool.DropSenderEntry` | code/go/pkg/tx/pool.go:221-228 | Deletes the entry and, when it was the last one, the sender |
| `TxPool.TxPool.GetPendingTransactions` | code/go/pkg/tx/pool.go:175-189 | The first maxCount queued transactions, all of them when maxCount is not between 1 and the size; the first one precedes all pooled ones on priority, gas price and arrival |
| `TxPool.TxPool.RemoveTransaction` | code/go/pkg/tx/pool.go:205-229 | Unknown hash: no change; otherwise exactly that transaction leaves all three structures |
| `TxPool.TxPool.RemoveEntry` | code/go/pkg/tx/pool.go:250-256 | Removes one indexed item from the queue and both indexes |
| `TxPool.TxPool.RemoveEntries` | code/go/pkg/tx/pool.go:242-256 | In whatever order, exactly the items indexed under the chosen nonces go |
| `TxPool.TxPool.RemoveByNonce` | code/go/pkg/tx/pool.go:232-261 | Exactly the items indexed under the sender with at least that nonce go, and an emptied sender is deleted |
| `TxPool.TxPool.CleanExpired` | code/go/pkg/tx/pool.go:272-300 | Exactly the items older than MaxTTL go, in whatever map order; the index loses exactly their slots, so a complete one stays complete; the result counts them |
| `TxPool.ExpiredExactlyWhen` | code/go/pkg/tx/pool.go:279-283 | An item expires if and only if it has been pooled for more than seven days |
| `TxPool.StaysIndexedExactlyWhen` | code/go/pkg/tx/pool.go:283-297 | An item that survives is still indexed if and only if it was and no removed item had its sender and nonce |
| `TxPool.EntriesLeftComplete` | code/go/pkg/tx/pool.go:283-297 | Losing the removed items' slots keeps a complete index complete |
| `TxPool.IndexIsDetermined` | code/go/pkg/tx/pool.go:283-297 | The slots lost and the absence of empty senders determine the resulting index |
| `TxPool.DrainPool` | code/go/pkg/tx/pool.go:175-229 | Calling GetPendingTransactions(1) and RemoveTransaction until nothing is listed ends with the empty pool and yields the drained items' transactions in order |
| `BlockTree.WalkBack` | code/go/pkg/blockchain/chain.go:182-213 | From any block the walk visits one height at a time and ends at genesis after exactly its height in steps |
| `BlockTree.HeightBelowTimestamp` | code/go/pkg/blockchain/chain.go:389-401 | A stored block's height is at most its timestamp, so the 64-bit height plus one never wraps |
| `BlockTree.GrowKeepsWellFormed` | code/go/pkg/blockchain/chain.go:127-129 | Storing a block that extends a stored parent keeps the tree well formed |
| `BlockTree.GrowKeepsIndex` | code/go/pkg/blockchain/chain.go:127-129 | heightMap keeps listing every stored block of a height exactly once |
| `BlockTree.GrowKeepsWalks` | code/go/pkg/blockchain/chain.go:127-129 | Storing a block changes no walk from a block stored before |
| `BlockTree.ForkPointUnique` | code/go/pkg/blockchain/chain.go:182-200 | Two blocks have at most one highest common ancestor |
| `BlockTree.OnChainTransitive` | code/go/pkg/blockchain/chain.go:203-213 | An ancestor of a block on a chain is on that chain |
| `BlockTree.ForkPathIsLinked` | code/go/pkg/blockchain/chain.go:289-300 | The path from the fork is linked by parent hashes from the fork point's child to the new block |
| `BlockTree.IsInCurrentChain` | code/go/pkg/blockchain/chain.go:203-213 | True exactly for the blocks on the path from the head to genesis |
| `BlockTree.FindForkPoint` | code/go/pkg/blockchain/chain.go:182-200 | Finds the highest block common to the head's path and the path of a stored block, never nil; for a new block that of its parent, and nil exactly when the parent is not stored |
| `BlockTree.NewBlockForkPoint` | code/go/pkg/blockchain/chain.go:182-200 | For a new block one above its parent that is its own highest common block |
| `BlockTree.CalculateChainDifficulty` | code/go/pkg/blockchain/chain.go:216-228 | The number of heights from startHeight to the block, without wrap-around |
| `BlockTree.GetBlocksAfter` | code/go/pkg/blockchain/chain.go:275-286 | Exactly the descending path from the head to above the fork point |
| `BlockTree.GetBlocksFromFork` | code/go/pkg/blockchain/chain.go:289-300 | Exactly the ascending path from the fork point's child to the new block |
| `BlockTree.BlockChain.constructor` | code/go/pkg/blockchain/chain.go:56-77 | The chain with only genesis satisfies the invariant if and only if genesis has height 0 and its previous hash is the hash of no header |
| `BlockTree.BlockChain.ValidateBlock` | code/go/pkg/blockchain/chain.go:382-422 | Accepts exactly the blocks with the right version, height, parent hash, time, Merkle root and valid transactions; otherwise names the first check that fails |
| `BlockTree.ValidExactlyWhen` | code/go/pkg/blockchain/chain.go:425-450 | Version 256, two addresses of 16 bytes, a positive amount and a signature of 64 bytes |
| `BlockTree.BlockChain.AddBlock` | code/go/pkg/blockchain/chain.go:80-157 | Every call keeps the tree and index well formed and the head stored; which blocks are stored and what the head becomes, errors included; every refusal if and only if its cause is the first; ErrForkDetected never occurs and the head height never drops |
| `BlockTree.BlockChain.StoreBlock` | code/go/pkg/blockchain/chain.go:127-129 | Adds the block to both maps and keeps the invariant |
| `BlockTree.BlockChain.SelectBestChain` | code/go/pkg/blockchain/chain.go:160-179 | For a stored block higher than the head: always reorganises, over exactly the paths down from the head and up to the block from their highest common ancestor, failing exactly when a block of the upward path does not replay |
| `BlockTree.BlockChain.ReorgToNewChain` | code/go/pkg/blockchain/chain.go:231-259 | Undoes the descending path and replays the ascending one in order; the head changes only if all of it replays |
| `BlockTree.FindRecentForkPoint` | code/go/pkg/blockchain/fork.go:115-143 | The visited-set search gives the fork point of the nested walk exactly when the head is at least maxForkDepth high and the fork point at most maxForkDepth below it, and nil otherwise |
| `BlockTree.CollectRecent` | code/go/pkg/blockchain/fork.go:115-128 | Collects exactly the hashes of the block's chain from the threshold height up |
| `BlockTree.CalculateChainWork` | code/go/pkg/blockchain/fork.go:146-160 | The summed rewards of the heights walked; depends on heights only and never wraps |
| `Merkle.Completeness` | code/go/pkg/crypto/hash.go:209-264 | The proof built for any index of any non-empty list of non-empty hashes is accepted against the root, odd levels included |
| `Merkle.HonestPath` | code/go/pkg/crypto/hash.go:209-264 | Along an honest proof the verifier hashes, level by level, exactly what the tree builder hashed |
| `Merkle.Binding` | code/go/pkg/crypto/hash.go:245-264 | An accepted proof of one non-empty sibling per level, the leaf or the first sibling of 32 bytes, at any index, is for the leaf that the index wraps to, or at some level verifier and builder hashed different inputs to the same hash |
| `Merkle.WrapInRange` | code/go/pkg/crypto/hash.go:245-264 | An index in range wraps to itself |
| `Merkle.EveryIndexAccepted` | code/go/pkg/crypto/hash.go:245-264 | Every index, negative or beyond the list, is accepted for the leaf it wraps to, with that leaf's proof |
| `Merkle.OtherSplitAccepted` | code/go/pkg/crypto/hash.go:245-264 | The size is needed: the same 64 bytes split elsewhere are accepted for a leaf not in the list |
| `Merkle.InnerNodeAccepted` | code/go/pkg/crypto/hash.go:245-264 | The length is needed: an inner node is accepted with the rest of the proof below it |
| `Merkle.ShortProofBindsInnerNode` | code/go/pkg/crypto/hash.go:245-264 | A proof with fewer siblings binds its leaf to the inner node that many levels below the root, or yields a collision |
| `Merkle.LongProofBindsPreimage` | code/go/pkg/crypto/hash.go:245-264 | A proof with more siblings binds the hash its first ones lead up to, to the leaf above them, or yields a collision |
| `Merkle.EmptySiblingsSkipped` | code/go/pkg/crypto/hash.go:249-253 | A proof is accepted exactly when it is without its empty siblings |
| `Merkle.RootBindsList` | code/go/pkg/crypto/hash.go:97-125 | Equal-length lists with equal roots are equal, or the two trees hash different inputs to the same hash at the same place |
| `Merkle.RootForgetsLength` | code/go/pkg/crypto/hash.go:97-125 | Repeating the last entry of an odd list never changes the root, so the equal length is needed |
| `Merkle.RootOfHalves` | code/go/pkg/crypto/hash.go:97-125 | The root over two full halves is the hash of the left root and then the right one |
| `Merkle.RootOfThree` | code/go/pkg/crypto/hash.go:108-121 | The last hash of an odd level is paired with itself |
| `Merkle.DoubleHashCollision` | code/go/pkg/crypto/hash.go:62-65 | A collision of the double hash contains one of the single hash |
| `Merkle.ProofShape` | code/go/pkg/crypto/hash.go:209-242 | A proof has one sibling per level, each of 32 bytes |
| `Merkle.TransactionRootIs` | code/go/pkg/consensus/consensus.go:131-156 | The transaction root is the root over the hash of every transaction in order, and 32 zero bytes for none |
| `Merkle.TransactionRootBinds` | code/go/pkg/consensus/consensus.go:131-156 | Equal transaction roots of equal-length lists mean that the k-th transactions have equal hashes, for every k, or a collision in the trees over these hashes |
| `Merkle.HashPairs` | code/go/pkg/crypto/hash.go:108-121 | One pass pads an odd level and hashes its pairs into the next level |
| `Merkle.MerkleRoot` | code/go/pkg/crypto/hash.go:97-125 | The level loop ends with the root of the recursive tree; empty for an empty list |
| `Merkle.HashTreeProof` | code/go/pkg/crypto/hash.go:209-242 | An index out of range is an error; otherwise the siblings on the path of the recursive tree |
| `Merkle.VerifyMerkleProof` | code/go/pkg/crypto/hash.go:245-264 | True exactly when climbing with the siblings, empty ones skipped, ends at the root; any index |
| `Merkle.CompareHashes` | code/go/pkg/crypto/hash.go:267-277 | The constant-time comparison is equality |
| `Merkle.ComputeMerkleRoot` | code/go/pkg/consensus/consensus.go:131-156 | The root of the tree over the hash of every transaction in order; 32 zero bytes for no transactions |
| `Emission.EmissionBound` | code/go/pkg/consensus/consensus.go:527-540 | All rewards below any height sum to less than 2 * 10^11 * 12614400, which is below 2^64 |
| `Emission.IssuedPlusOutlook` | code/go/pkg/consensus/consensus.go:527-540 | What is issued plus the remaining share of two intervals at the current reward never exceeds the bound |
| `Emission.ShiftOnce` | code/go/pkg/consensus/consensus.go:535-537 | Halving a shifted number, rounding down, is shifting by one more bit |
| `Emission.RewardStep` | code/go/pkg/consensus/consensus.go:527-540 | From one height to the next the reward stays, or is halved at a multiple of the interval |
| `Emission.FirstRewards` | code/go/pkg/consensus/consensus.go:527-540 | 10^11 up to height 12614399 and half of it from the next |
| `Emission.NonIncreasing` | code/go/pkg/consensus/consensus.go:527-540 | The reward never rises with the height |
| `Emission.SpanBound` | code/go/pkg/blockchain/fork.go:146-160 | The rewards of any range of heights sum to less than 2^64 |
| `Emission.SpanDown` | code/go/pkg/blockchain/fork.go:146-160 | A range of rewards is its lowest reward plus the rest |
| `Emission.CalculateBlockReward` | code/go/pkg/consensus/consensus.go:527-540 | The halving loop gives 10^11 div 2^(height div 12614400) |
| `Emission.CalculateBlockRewardByHeight` | code/go/pkg/stake/reward.go:77-92 | The base reward div 2^(height div 12614400), but at least one; with the default base it is the consensus reward, but at least one |
| `Emission.SchedulesAgreeExactlyWhen` | code/go/pkg/stake/reward.go:77-92 | Consensus and staking schedule agree if and only if the height is below 37 halving intervals |
| `LruCache.OperationsKeepValid` | code/go/pkg/db/cache.go:42-173 | Every operation keeps the recency list a duplicate-free ordering of exactly the keys, within the size |
| `LruCache.HitsExactlyUntilExpiry` | code/go/pkg/db/cache.go:42-62 | After a set with expiry, as long as the key is neither removed nor stored again, a read hits with that value if and only if it is not past the expiry |
| `LruCache.PlainSetNeverExpires` | code/go/pkg/db/cache.go:65-93 | A plain set of a new key is read back at any time under the same condition |
| `LruCache.LargerCacheIncludes` | code/go/pkg/db/cache.go:42-173 | For any trace of sets, sets with expiry, gets at any times, deletes and clears: at every point whatever a cache would answer a larger one would answer too, if and only if no plain set met a key that only the larger one held, with an expiry |
| `LruCache.RunKeepsIncluded` | code/go/pkg/db/cache.go:42-173 | Over such a trace the smaller cache's items are the larger one's, in its order |
| `LruCache.KeptExpiryShows` | code/go/pkg/db/cache.go:71-75 | After such a set, a read past the kept expiry hits in the smaller cache only |
| `LruCache.SmallerCacheCanWin` | code/go/pkg/db/cache.go:65-125 | Sizes one and two: SetWithExpiry(a), Set(b), Set(a), and a read of a past the expiry |
| `LruCache.StepKeepsIncluded` | code/go/pkg/db/cache.go:42-143 | One operation on both caches keeps the smaller one included in the larger one, if and only if it is not such a set; a hit of the smaller is one of the larger |
| `LruCache.SetKeepsIncluded` | code/go/pkg/db/cache.go:65-93 | A set keeps the inclusion if and only if the larger cache does not keep an expiry of a key new to the smaller |
| `LruCache.PutKeepsIncluded` | code/go/pkg/db/cache.go:65-125 | Storing the same item in both keeps the inclusion, whichever of the two must evict |
| `LruCache.MakeRoomBoth` | code/go/pkg/db/cache.go:81-86 | If the larger cache must evict, so must the smaller, and inclusion survives |
| `LruCache.LRUCache.constructor` | code/go/pkg/db/cache.go:33-39 | A new cache is empty and well formed |
| `LruCache.LRUCache.Lookup` | code/go/pkg/db/cache.go:42-62 | A hit moves the key to the recent end; an expired item is removed; a miss changes nothing |
| `LruCache.LRUCache.Store` | code/go/pkg/db/cache.go:65-93 | Overwrites in place keeping the expiry, or evicts the least recently used and appends |
| `LruCache.LRUCache.StoreWithExpiry` | code/go/pkg/db/cache.go:96-125 | The same with a new expiry |
| `LruCache.LRUCache.Delete` | code/go/pkg/db/cache.go:128-134 | Removes the key from map and list |
| `LruCache.LRUCache.Clear` | code/go/pkg/db/cache.go:137-143 | Empties both |
| `LruCache.LRUCache.RemoveItem` | code/go/pkg/db/cache.go:154-162 | Removes the key from map and list |
| `LruCache.LRUCache.UpdateLRU` | code/go/pkg/db/cache.go:165-173 | Moves the key to the recent end |
| `FileStore.BatchMeansItsEdits` | code/go/pkg/db/filedb.go:124-154 | Writing a batch equals applying its edits one by one, last edit of a key winning; no key is both put and deleted |
| `FileStore.ReadAfterWrite` | code/go/pkg/db/filedb.go:43-154 | What every read gives after every put, delete and batch write of an open store, failing or not, and which of them succeed |
| `FileStore.HasExactlyWhenGets` | code/go/pkg/db/filedb.go:79-89 | An open store finds a key if and only if it has a value for it |
| `FileStore.ClosedRefuses` | code/go/pkg/db/filedb.go:43-154 | A closed store refuses every operation and stays as it is |
| `FileStore.SizeCountsPending` | code/go/pkg/db/utils.go:37-95 | The size is the total size of the accepted edits since the last batch written out, and the batch holds exactly those |
| `FileStore.SizeWithinLimit` | code/go/pkg/db/utils.go:37-80 | After an accepted edit the size is within a positive limit, or that edit alone exceeds it |
| `FileStore.RefusedExactlyWhen` | code/go/pkg/db/utils.go:37-80 | Without auto-flush an edit is refused if and only if it would exceed a positive limit |
| `FileStore.RetryIsHarmless` | code/go/pkg/db/filedb.go:124-154 | Writing a batch again after a partial write gives what one complete write gives |
| `FileStore.AddMeaning` | code/go/pkg/db/utils.go:37-80 | An accepted edit takes effect on what is pending, a refused one does not, flushes failing or not |
| `FileStore.FlushMeaning` | code/go/pkg/db/utils.go:83-95 | A flush keeps what is pending; it succeeds exactly when the batch is empty or the store is open and the disk works, and then the store holds it |
| `FileStore.RunMeaning` | code/go/pkg/db/utils.go:37-95 | Over any run the pending contents are the accepted edits applied in order |
| `FileStore.ChunkingPreservesMeaning` | code/go/pkg/db/utils.go:37-95 | For any size limit and any failures on the way, a final successful flush leaves exactly the accepted edits applied in order |
| `FileStore.NothingRefused` | code/go/pkg/db/utils.go:37-95 | With auto-flush, an open store and a working disk every edit is accepted |
| `FileStore.FileDB.PutKey` | code/go/pkg/db/filedb.go:43-56 | The map changes before the disk is asked; closed store refused |
| `FileStore.FileDB.DeleteKey` | code/go/pkg/db/filedb.go:92-105 | The same for a delete |
| `FileStore.FileDB.WriteBatch` | code/go/pkg/db/filedb.go:124-154 | Deletions then puts in whatever map order; fails exactly when some put fails, and then leaves the puts up to the first failing one |
| `FileStore.FileDB.Close` | code/go/pkg/db/filedb.go:188-198 | Only closes the store |
| `FileStore.FileBatch.PutKey` | code/go/pkg/db/filedb.go:396-400 | The key moves to the puts |
| `FileStore.FileBatch.DeleteKey` | code/go/pkg/db/filedb.go:402-406 | The key moves to the deletions |
| `FileStore.BatchBuilder.PutKey` | code/go/pkg/db/utils.go:37-58 | Flushes or refuses first when over the limit, then adds; exact reply and state; a disk failure exactly when it flushes and some pending put fails |
| `FileStore.BatchBuilder.DeleteKey` | code/go/pkg/db/utils.go:61-80 | The same for a delete |
| `FileStore.BatchBuilder.FlushAll` | code/go/pkg/db/utils.go:83-95 | Writes a non-empty batch and starts a new one only on success; a disk failure exactly when some pending put fails |
| `CachedStore.CacheIsTransparent` | code/go/pkg/db/cache.go:191-268 | From an empty cache of any size: at every point of a run every next reply is the reply of the store without a cache, if and only if no step left anything stale |
| `CachedStore.CachesWhatItSees` | code/go/pkg/db/cache.go:191-268 | What is put or read is cached, what is deleted is not, a batch write empties the cache, and nothing else gets in |
| `CachedStore.RunTransparentExactlyWhen` | code/go/pkg/db/cache.go:191-268 | The same for all reads and from any coherent state |
| `CachedStore.SameStore` | code/go/pkg/db/cache.go:191-268 | The cache never changes what happens to the store, coherent or not |
| `CachedStore.RunStaysCoherent` | code/go/pkg/db/cache.go:191-268 | Over such a run every cached entry equals the store's and the stores agree |
| `CachedStore.SameReply` | code/go/pkg/db/cache.go:191-268 | From a coherent state every operation replies and changes the store as without a cache |
| `CachedStore.CoherentUnlessStale` | code/go/pkg/db/cache.go:191-268 | A step keeps the cache coherent if and only if it is not a disk failure that changed a cached key |
| `CachedStore.TransparentIffNotStale` | code/go/pkg/db/cache.go:191-268 | After a step all reads agree with the store if and only if it was no such failure |
| `CachedStore.IncoherenceShows` | code/go/pkg/db/cache.go:204-222 | An incoherent cache answers some read wrongly |
| `CachedStore.WorkingDiskNeverStale` | code/go/pkg/db/cache.go:191-268 | Nothing is ever stale if no disk operation fails but the removal of a key that is not stored |
| `CachedStore.WorkingDiskSafeExactlyWhen` | code/go/pkg/db/filedb.go:273-279 | On a disk where a removal fails exactly when its file is gone and nothing else fails, no run of the cached store leaves anything stale, if and only if no two keys share a file name |
| `CachedStore.OneFileEach` | code/go/pkg/db/filedb.go:92-105 | With one file for each key such a disk fails only for keys that are not stored |
| `CachedStore.SharedFileShows` | code/go/pkg/db/filedb.go:92-105 | Two keys that share a file, put and then deleted: the second removal fails, and the cache still answers the deleted key |
| `CachedStore.ComputeSimpleHash` | code/go/pkg/db/filedb.go:381-387 | The loop xors the key into four bytes in turn |
| `CachedStore.FourBytesNameThemselves` | code/go/pkg/db/filedb.go:381-387 | A key of four bytes is its own file name |
| `CachedStore.GroupsAreXored` | code/go/pkg/db/filedb.go:381-387 | Whole groups of four bytes are xored into the name of the rest |
| `CachedStore.TrailingZeroSharesFile` | code/go/pkg/db/filedb.go:273-279 | Every key shares its file name with the key that has a zero byte more |
| `CachedStore.FileNamesLeaveStale` | code/go/pkg/db/filedb.go:273-279 | So with the store's own file names the cache goes stale on a working disk, whatever its size |
| `CachedStore.FailedDeleteShows` | code/go/pkg/db/cache.go:239-249 | A delete whose file removal fails: the store has lost the key, the cache still answers it |
| `CachedStore.CachedDatabase.constructor` | code/go/pkg/db/cache.go:183-188 | A new cache over any store is coherent |
| `CachedStore.CachedDatabase.PutKey` | code/go/pkg/db/cache.go:191-201 | Store first, cache only on success |
| `CachedStore.CachedDatabase.GetKey` | code/go/pkg/db/cache.go:204-222 | A hit is answered from the cache; a miss is filled from the store |
| `CachedStore.CachedDatabase.HasKey` | code/go/pkg/db/cache.go:225-236 | A hit answers true without asking the store |
| `CachedStore.CachedDatabase.DeleteKey` | code/go/pkg/db/cache.go:239-249 | Store first, cache only on success |
| `CachedStore.CachedDatabase.WriteBatch` | code/go/pkg/db/cache.go:257-268 | The whole cache is dropped after a successful write; a disk failure exactly when some put fails |
| `CachedStore.CachedDatabase.ClearAll` | code/go/pkg/db/cache.go:301-306 | Only the cache is emptied |
| `CachedStore.CachedDatabase.CloseStore` | code/go/pkg/db/cache.go:276-282 | The cache is emptied and the store closed |
| `Ledger.ConservedExactlyWhen` | code/go/pkg/state/executor.go:82-182 | A successful transaction of any type lowers the sum of balances by exactly what it burns (fee, stake, or all a migration moves), if and only if the sender has an account and is not the receiver, or sends to itself with nothing moved or burned |
| `Ledger.TransferIsExact` | code/go/pkg/state/executor.go:191-216 | A transfer between two accounts changes them by exactly the amounts, without wrap-around, and nobody else |
| `Ledger.StakeIsExact` | code/go/pkg/state/executor.go:251-274 | A stake takes its amount from the sender and changes nothing else |
| `Ledger.NothingMoves` | code/go/pkg/state/executor.go:277-355 | A proposal, a vote or an unstaking between existing accounts changes no account |
| `Ledger.MigrationArrivesExactlyWhen` | code/go/pkg/state/executor.go:219-248 | A migration empties the sender and leaves the receiver as it was, so what it moves arrives exactly when it was there before |
| `Ledger.UnstakeReturnsNothing` | code/go/pkg/state/executor.go:277-316 | An unstaking changes no account there was, and a new receiver starts with nothing |
| `Ledger.RewardAddsExactlyWhen` | code/go/pkg/state/executor.go:360-384 | A block reward adds itself to the supply if and only if the coinbase's balance does not wrap |
| `Ledger.SucceedsAgainExactlyWhen` | code/go/pkg/state/executor.go:107-110 | After n executions of a successful transaction that is not a migration, to another address, it succeeds again if and only if n + 1 times its cost fit into the sender's first balance; the balance then |
| `Ledger.SameRootExactlyWhen` | code/go/pkg/state/memory.go:123-139 | Two states have the same root if and only if their numbers of accounts agree modulo 2^32 |
| `Ledger.RootSpellsCount` | code/go/pkg/state/memory.go:123-139 | The first four bytes spell the number of accounts modulo 2^32, most significant first; the others are zero |
| `Ledger.SupplyAfter` | code/go/pkg/state/executor.go:82-182 | The sum of balances after a success of any type in all cases: self-addressed, unknown sender, wrapping receiver |
| `Ledger.SupplyExactlyWhenOrdinary` | code/go/pkg/state/executor.go:82-182 | At every point of a run of transactions and rewards the supply is its start plus the rewards minus what was burned, if and only if every success was ordinary |
| `Ledger.SupplyOverRuns` | code/go/pkg/state/executor.go:82-182 | Over a run with ordinary successes that sum holds and no balance reaches 2^64 |
| `Ledger.ThirdPartiesKeepTheirs` | code/go/pkg/state/executor.go:82-182 | An account that takes part in nothing of a run is the same after it |
| `Ledger.FailureChangesNothing` | code/go/pkg/state/executor.go:150-159 | A failed transaction leaves the accounts untouched |
| `Ledger.ExecuteTransaction` | code/go/pkg/state/executor.go:82-182 | Result and new database for every transaction type, failing in the source's order; both copies are taken first and the receiver is written last; a success has the nonce of the sender's account, or 0 |
| `Ledger.OutcomeExactlyWhen` | code/go/pkg/state/executor.go:101-150 | Every outcome, if and only if, over the accounts: wrong nonce, malformed transaction, unknown type, too low a balance, proposal without data, success |
| `Ledger.OneNonceSucceeds` | code/go/pkg/state/executor.go:107-110 | Of two transactions that differ only in their nonce at most one succeeds on the same accounts |
| `Ledger.ExecuteByType` | code/go/pkg/state/executor.go:135-150 | Each type changes the two copies as specified and in the database nothing but the receiver's entry, which is then overwritten |
| `Ledger.ExecuteMigration` | code/go/pkg/state/executor.go:219-248 | Empties the sender's copy and writes its balance, code and storage to the destination |
| `Ledger.ExecuteStake` | code/go/pkg/state/executor.go:251-274 | Takes the amount from the sender, or refuses |
| `Ledger.ExecuteUnstake` | code/go/pkg/state/executor.go:277-316 | Credits a copy of its own and stores it |
| `Ledger.ApplyBlockReward` | code/go/pkg/state/executor.go:360-384 | Credits the coinbase, which gets an account if it has none, modulo 2^64 |
| `Ledger.ExecuteValueTransfer` | code/go/pkg/state/executor.go:191-216 | Needs amount plus fee without overflow; debits both and credits the amount modulo 2^64 |
| `Ledger.LoadAccount` | code/go/pkg/state/executor.go:94-105 | A fresh copy of the stored account or a new one with the given balance |
| `Ledger.MemoryStateDB.GetAccount` | code/go/pkg/state/memory.go:24-34 | Hands out a fresh copy |
| `Ledger.MemoryStateDB.SetAccount` | code/go/pkg/state/memory.go:37-53 | Stores a copy under the address and recomputes the root from the number of accounts; deletes, with the root as it was, when given none |
| `Ledger.Account.Copy` | code/go/pkg/state/types.go:47-65 | A new object with the same nonce, balance, code and storage |
| `Ledger.Account.AddBalance` | code/go/pkg/state/types.go:105-108 | Adds modulo 2^64 |
| `Ledger.Account.SubBalance` | code/go/pkg/state/types.go:111-118 | Refuses, without a change, to go below zero |
| `RateLimiting.WindowNeverExceedsBound` | code/go/pkg/p2p/p2p.go:739-767 | With a non-decreasing clock, each record using up a yes and at most c yeses unused at any time, no window (t - 1 s, t] anywhere in a run holds more than limit - 1 + c records |
| `RateLimiting.BoundIsReached` | code/go/pkg/p2p/p2p.go:739-767 | For every positive limit and c some run fills a window to that number |
| `RateLimiting.WindowNeverExceedsLimit` | code/go/pkg/p2p/p2p.go:739-767 | So no window holds more records than the limit if nobody asks while a yes is unused, as when each record comes right after its yes |
| `RateLimiting.RunIsSafe` | code/go/pkg/p2p/p2p.go:739-767 | Over the run the slice still holds every record that can matter later, although old ones are discarded |
| `RateLimiting.StepIsSafe` | code/go/pkg/p2p/p2p.go:739-767 | One question, record or abandoned yes keeps both, together with a bound on the last second's records plus the unused yeses |
| `RateLimiting.RateLimiter.Allow` | code/go/pkg/p2p/p2p.go:739-759 | In place, keeps exactly the messages of the last second in order; yes exactly when they are fewer than the limit |
| `RateLimiting.RateLimiter.Record` | code/go/pkg/p2p/p2p.go:762-767 | Appends the time |
| `Kademlia.HigherBucketIsFarther` | code/go/pkg/p2p/discovery.go:265-302 | A node in a higher bucket is strictly farther from the local key than one in a lower bucket |
| `Kademlia.CompareIsNumeric` | code/go/pkg/p2p/discovery.go:322-332 | Comparing distances from the left is comparing the numbers they spell |
| `Kademlia.FirstDifferenceDecides` | code/go/pkg/p2p/discovery.go:322-332 | The first differing byte decides the comparison |
| `Kademlia.AddedOk` | code/go/pkg/p2p/discovery.go:65-98 | Adding keeps at most K distinct nodes per bucket, each in its own bucket, the local node in none |
| `Kademlia.AddedMembers` | code/go/pkg/p2p/discovery.go:65-98 | After an addition the table has its old nodes and the new one, unless that is the local node or its bucket has 20 nodes |
| `Kademlia.AddedAllOk` | code/go/pkg/p2p/discovery.go:362-393 | The same for a list of bootstrap nodes |
| `Kademlia.RemovedOk` | code/go/pkg/p2p/discovery.go:131-152 | The same for a removal |
| `Kademlia.XorDistance` | code/go/pkg/p2p/discovery.go:286-302 | Sixteen bytes, zero where either key is too short |
| `Kademlia.DistanceBit` | code/go/pkg/p2p/discovery.go:286-302 | A bit of the distance is set if and only if both keys have it and differ in it |
| `Kademlia.DistanceIsMetric` | code/go/pkg/p2p/discovery.go:286-302 | For 16-byte keys the distance is zero exactly for equal ones and the same both ways |
| `Kademlia.LongerPrefixIsNearer` | code/go/pkg/p2p/discovery.go:286-332 | A key that shares a longer bit prefix with the target is strictly nearer |
| `Kademlia.CompareDistance` | code/go/pkg/p2p/discovery.go:322-332 | The left-to-right order on the bytes both have |
| `Kademlia.CalculateBucketIndex` | code/go/pkg/p2p/discovery.go:265-283 | The bit scan finds 127 minus the first differing byte, or zero for equal keys |
| `Kademlia.BytesMatchBitsExactlyWhen` | code/go/pkg/p2p/discovery.go:265-283 | That is 127 minus the first differing bit if and only if the keys agree or differ in their very first bit |
| `Kademlia.FirstSetBitIsInFirstByte` | code/go/pkg/p2p/discovery.go:265-283 | The first set bit lies in the first non-zero byte |
| `Kademlia.SameBucketExactlyWhen` | code/go/pkg/p2p/discovery.go:265-283 | Two keys share a bucket if and only if they first differ from the local key in the same byte |
| `Kademlia.UsedExactlyWhen` | code/go/pkg/p2p/discovery.go:265-283 | An index occurs if and only if it is 0 or in 112..127 |
| `Kademlia.TableHoldsAtMost` | code/go/pkg/p2p/discovery.go:35-40 | All other buckets stay empty and a table holds at most 17 * 20 nodes |
| `Kademlia.AddingKeepsRouted` | code/go/pkg/p2p/discovery.go:86-95 | An addition keeps a route for every node of the table |
| `Kademlia.BootingKeepsRouted` | code/go/pkg/p2p/discovery.go:362-393 | So does bootstrapping |
| `Kademlia.RemovalKeepsRoutedExactlyWhen` | code/go/pkg/p2p/discovery.go:131-152 | After a removal every remaining node has a route, if and only if the key was not found or no node of the table but the one removed has a key of the same hash |
| `Kademlia.SecondNodeLosesRoute` | code/go/pkg/p2p/discovery.go:131-152 | Two nodes added with one key, of which one is removed: the other stays in the table without a route |
| `Kademlia.SortByDistance` | code/go/pkg/p2p/discovery.go:311-319 | The exchange sort orders the candidates in place by distance and keeps them all |
| `Kademlia.CollectCandidates` | code/go/pkg/p2p/discovery.go:169-182 | Every node of every bucket once, with its distance |
| `Kademlia.FindClosestNodes` | code/go/pkg/p2p/discovery.go:155-193 | Returns min(n, total) nodes, nearest first, and no omitted node is nearer than a returned one; a search for the 16-byte key of a stored node returns a node with that key first |
| `Kademlia.FlattenIsTable` | code/go/pkg/p2p/discovery.go:169-182 | The searched list has every node of the table and nothing else |
| `Kademlia.NearestHasKey` | code/go/pkg/p2p/discovery.go:155-193 | With 16-byte keys, what is nearest to the key of a stored node has that key |
| `Kademlia.Routing.constructor` | code/go/pkg/p2p/discovery.go:42-62 | The empty table is well formed |
| `Kademlia.Routing.AddNode` | code/go/pkg/p2p/discovery.go:65-98 | Keeps the table well formed; ignores the local node and a known node; a node whose bucket is full gets a route only |
| `Kademlia.Routing.Bootstrap` | code/go/pkg/p2p/discovery.go:362-393 | Fills the buckets as adding the nodes one by one does, although it checks in another order; gives a route only to nodes it puts in a bucket |
| `Kademlia.Routing.RemoveNode` | code/go/pkg/p2p/discovery.go:131-152 | Removes the first node with the key from its bucket, and the route of the key; reports whether there was one |
| `Kademlia.Routing.ClearAll` | code/go/pkg/p2p/discovery.go:250-262 | All buckets and the routes empty |
| `OptionCodec.RoundTripExactlyWhen` | code/go/pkg/ipv6/header.go:125-210 | Options come back in order, followed by at most one PadN, if and only if every length byte counts its data and the header has at most 2040 bytes |
| `OptionCodec.RoundTripFits` | code/go/pkg/ipv6/header.go:125-210 | The parsed header in full for at most 2040 bytes, with HdrExtLen = length / 8 - 1 |
| `OptionCodec.LongHeaderLosesOptions` | code/go/pkg/ipv6/header.go:125-140 | A longer header always comes back without some of its options, because the length byte wraps |
| `OptionCodec.ReserializeIsSame` | code/go/pkg/ipv6/header.go:162-210 | Serializing the options with the parsed padding gives the same bytes |
| `OptionCodec.SerializeLayout` | code/go/pkg/ipv6/header.go:162-210 | The bytes are next header, length, options one after the other, padding |
| `OptionCodec.PaddingLayout` | code/go/pkg/ipv6/header.go:196-207 | A Pad1 is one zero byte; a PadN has type one, its data length and zeros |
| `OptionCodec.ParseEncoded` | code/go/pkg/ipv6/header.go:125-159 | Options laid out one after the other are parsed one after the other |
| `OptionCodec.EndToEndExactlyWhen` | code/go/pkg/ipv6/header.go:125-362 | A transaction arrives unchanged if and only if addresses have 16 bytes, the signature 32 and the reserved part at most 172 |
| `OptionCodec.TxRoundTripExactlyWhen` | code/go/pkg/ipv6/header.go:257-362 | A transaction option parses back to the same transaction if and only if its fields have wire size |
| `OptionCodec.WireLayout` | code/go/pkg/ipv6/header.go:257-313 | Where each field is on the wire and what it holds, for addresses and signatures of any size |
| `OptionCodec.FoundBehindOthers` | code/go/pkg/ipv6/header.go:241-254 | A transaction option is found behind any options of other types |
| `OptionCodec.NotFoundExactlyWhen` | code/go/pkg/ipv6/header.go:241-254 | The search fails if and only if no option has type 0x7F |
| `OptionCodec.BigEndianRoundTrip` | code/go/pkg/ipv6/header.go:257-362 | Big-endian numbers that fit come back |
| `OptionCodec.MostSignificantFirst` | code/go/pkg/ipv6/header.go:257-362 | The first byte is the most significant one |
| `OptionCodec.SerializeHopByHopOptions` | code/go/pkg/ipv6/header.go:162-210 | The buffer filled by offset equals the specified bytes, for all options |
| `OptionCodec.FillBuffer` | code/go/pkg/ipv6/header.go:187-194 | Writes the options one after the other; copies stop at the end of the buffer |
| `OptionCodec.WritePadding` | code/go/pkg/ipv6/header.go:196-207 | Nothing, a Pad1, or a PadN of zeros up to the end |
| `OptionCodec.ParseHopByHopOptions` | code/go/pkg/ipv6/header.go:125-159 | The offset loop equals the recursive parser on every input, malformed ones included |
| `OptionCodec.SerializeV6CoinTransaction` | code/go/pkg/ipv6/header.go:257-313 | The buffer filled field by field equals the specified bytes, for fields of any size |
| `OptionCodec.ParseV6CoinExtensionHeader` | code/go/pkg/ipv6/header.go:241-254 | Parses the first option of the V6Coin type, or reports that there is none |

## Left out

- Election.SortByScore: stands for the library sort; it promises the order and the same nodes, as the source relies on no more.
- TxPool.TxPool.RemoveByNonce: its argument is the raw address read as text; how addresses are printed is not modelled.
- BlockTree.BlockChain.AddBlock: what a block does to the state database is an input (which transactions execute, the state root, which blocks of a branch replay, whether the reward is paid).
- BlockTree.FindForkPoint: blocks that share a stored block's header but not its transactions are not modelled as arguments.
- BlockTree.FindRecentForkPoint: a new block must be one above its stored parent; the fork handler also asks about blocks of other heights before they are validated.
- Ledger.Account.Copy: the time of the last update is not modelled.
- Kademlia.Routing.AddNode: the buckets' last-seen times are not modelled; addresses are in one canonical form.
- TxPool.DrainPool: the source has no such loop; it ties the drained order to the two operations.
- OptionCodec.EndToEndExactlyWhen: ParseV6CoinTransaction, which has no loop, is a function on the bytes.
- The Merkle Patricia trie (`state/mpt.go`, `state/node.go`): leaf lookup re-encodes stored paths, so it does not implement a map.
- Gas, logs and receipts of the executor.
- ForkHandler's decisions, its list of forks and its switch to another chain: they rest on a difference of unsigned work and set the head before validation. State rollback, which does nothing.
- EnforcePrefixLimit, UpdateValidators and the locking around them; concurrency in general: every operation runs under one lock and is modelled as one step.
- Stake pool totals and reward distribution beyond the height schedule.
- The fixed IPv6 header, traffic classes and packet length helpers: easy members only.
- FileDB files, loading, compaction and iterators; ForEach, Count, DeletePrefix, backup and restore; batches created on a closed store.
- Sharing of byte slices and of the Merkle level slices between caller and callee: byte strings are values.
- Signatures, key derivation and hash internals; floating-point score, priority and gas formulas.
- RPC, sockets, peer bookkeeping, wallet and node workers: plumbing.
