# A verified model of MultiChain's core data structures and protocols

This project models the parts of a MultiChain node that carry the most state: the parallel
script-check queue, the partial Merkle tree, the memory pool with its ordered hash list and fee
estimator, the active chain over the block index, the streaming hash with what is built on it
(HMAC, the deterministic nonce generator, cipher block chaining), and the chain parameter store.
Code that updates fields in place is modelled by classes and loops; each such method is proved
against functions on values, and the promises of the system are proved about those functions.

`dafny verify dfyconfig.toml` checks everything.

| files | component |
|---|---|
| `CheckQueue.dfy`, `CheckQueueRuns.dfy`, `CheckQueueCalls.dfy`, `CheckQueueObject.dfy` | the check queue: protocol steps and invariant, theorems over all runs, which uses keep it idle, the object |
| `MerkleTree.dfy`, `MerkleSound.dfy`, `MerkleRoundTrip.dfy`, `PartialMerkleTree.dfy`, `BlockRoot.dfy` | the partial Merkle tree: encoder and decoder; soundness; round trip and sizes; the object; the root of a block |
| `MemPool.dfy`, `TxMemPool.dfy`, `HashList.dfy`, `FeeEstimator.dfy` | the memory pool: consistency and closures on values; the object; the ordered list; fee estimates |
| `BlockTree.dfy`, `ActiveChain.dfy` | the block index with skip pointers; the active chain |
| `Sha256.dfy`, `Hmac.dfy`, `Rfc6979.dfy`, `Cbc.dfy` | streaming hash, HMAC, nonce generator, block chaining |
| `ParamFormat.dfy`, `ParamParse.dfy`, `ParamRecords.dfy`, `ParamStale.dfy`, `ParamStore.dfy` | the packed parameter format, its parser, answers and room, the parser's uninitialised variable, the store |
| `Arithmetic.dfy`, `BigEndian.dfy`, `Basics.dfy` | remainders; numbers as bytes; shared definitions |

How the modelling choices read:

- **Check queue.** A critical section is one atomic step and running one check is a step of its
  own; any number of threads, any batch size, any schedule, spurious wakeups included. Which
  checks were added since the last Wait is read off the schedule itself.
- **Hashes.** A Merkle digest is a free datatype, so that equal digests mean equal subtrees. Block
  compression and the block cipher are parameters; the cipher is only required to decrypt what
  it encrypts.
- **Block index.** An entry is complete once it is in the index, so its links are constants. The
  walk by skip pointers is modelled as written and proved equal to following predecessors.
- **Memory pool.** Transactions are values keyed by hash, and the sanity check of the pool is its
  invariant. Removal is specified by a least set closed under spending, which is shown to be the
  set that chains of spending reach.
- **Integers** are unbounded except where width matters and is written out: the byte counter of the
  hash, the fee-rate division, the maturity subtraction, little-endian fields and the 4-byte
  setup length.

Where the code does less than its documentation or its callers may expect, the model follows
the code, and the exact condition is a theorem:

- The header of the partial Merkle tree promises at most 2N - 1 flag bits and a size of at most
  10 + ceil(32.25 N). Both miss the extra bit of single-child nodes, and the second also the
  longer length prefixes of large trees (`DocumentedBitBound`, `SizeExact`).
- The decoder takes the number of transactions from the same bytes as everything else, and a
  tree of another height decodes to the true root as well (`DecodeSound`, `DecodeLevel`,
  `RootTakenForId`).
- A controller of the check queue that adds checks after its last Wait is destroyed without
  waiting for them (`ConstructorAssertExactly`; `IdleExactly` says when the queue is idle).
- After `shiftHashList(k)` the k+1st addition overwrites a listed hash (`PutExact`, `OneTooMany`),
  and a transaction that comes back before a compaction is listed twice (`RunListsOnce`).
- `AdjustSetupFirstBlocks` computes the floor in 64 bits and stores 32 of them (`RaisedValue`,
  `RaiseCanLower`). The parameter table limits the epoch length to 1000000, so a validated
  parameter set stays far below the limit.
- `Set` compares a record neither with the declared maximum nor with the buffer, and tests the
  first record against a size variable that may have no value yet. Where C leaves the outcome
  undefined, the model reports that instead of an outcome; `Set` says exactly when
  (`DeclaredFits`, `StaleExact`).
- Decrypting a buffer onto itself mixes each block with plaintext (`OntoExact`).

## Model

| member | source | states |
|---|---|---|
| `CheckQueue.BatchSize` | src/checkqueue.h:106-111 | a thread that finds a non-empty queue takes at least one check, never more than there are, and never more than the batch size (or one) |
| `CheckQueue.StepKeepsInv` | src/checkqueue.h:70-216 | every enabled step of every thread keeps the protocol invariant: the counters count what they are documented to count, every added check is in exactly one place, the shared verdict is false only if some added check fails, a sleeping un-notified master still has something to wait for |
| `CheckQueue.BeforeTailKeeps` | src/checkqueue.h:70-104 | a critical section keeps the invariant up to its test for an empty queue, with exactly one thread holding the mutex |
| `CheckQueue.NothingLeft` | src/checkqueue.h:81-105 | when `nTodo` is zero nobody holds a batch, everything added is accounted for, and the shared verdict is exactly the conjunction of all checks |
| `CheckQueueRuns.WaitVerdict` | src/checkqueue.h:70-128 | over every run, number of workers, batch size and schedule: Wait returns true exactly when every check added since the previous Wait evaluates to true |
| `CheckQueueRuns.EveryCheckInOnePlace` | src/checkqueue.h:70-128 | in every reachable state each check added since the last Wait is queued, in one batch, or done, and never two of these; `nTodo` is the queue length plus all unaccounted batch sizes |
| `CheckQueueRuns.CountersNonNegative` | src/checkqueue.h:81-111 | no counter goes negative, inside a critical section either, so the unsigned `nTodo` never wraps |
| `CheckQueueRuns.BatchSizeExact` | src/checkqueue.h:106-111 | in every run, where a thread decides how much to take the divisor is positive and the number is its share of the queue within the documented limits |
| `CheckQueueRuns.HoldersCounted` | src/checkqueue.h:81-105 | with the mutex free, `nTotal - nIdle` is the number of threads holding a batch |
| `CheckQueueRuns.IdleExactly` | src/checkqueue.h:166-170 | a reachable queue is idle exactly when everything added since the last Wait has been accounted for and passed |
| `CheckQueueRuns.IdleUntilNextAdd` | src/checkqueue.h:166-170 | from the return of a Wait to the next non-empty Add the queue is idle, whatever the workers do |
| `CheckQueueCalls.ConstructorAssertExactly` | src/checkqueue.h:185-216 | for a sequence of master calls, over every schedule of them and every prefix: the constructor's assertion holds if and only if no controller that has waited is destroyed with checks added since its last Wait |
| `CheckQueueCalls.ConstructorAssertHolds` | src/checkqueue.h:185-195 | the if half, for any run; a controller may Wait, Add and Wait again |
| `CheckQueueCalls.UnsettledCanBreak` | src/checkqueue.h:197-216 | the only-if half: such a destruction has a schedule of the same calls after which the next constructor meets a busy queue |
| `CheckQueueCalls.RunTracks` | src/checkqueue.h:177-217 | the calls alone determine whether the controller has waited and which checks are not covered by a Wait |
| `CheckQueueCalls.LazyRun` | src/checkqueue.h:70-128 | every run has one of the same calls in which no worker has taken anything since the last Wait returned |
| `CheckQueueCalls.LateAddBreaksNextConstructor` | src/checkqueue.h:206-216 | from any state: an Add after the Wait lets the destructor skip waiting and the next constructor meet a busy queue |
| `CheckQueueRuns.BlockedMaster` | src/checkqueue.h:86-104 | no lost wakeup: a blocked un-notified master has an empty queue, `nTodo > 0`, and some worker with a batch |
| `CheckQueueRuns.LastBatchWakesMaster` | src/checkqueue.h:81-86 | the step that brings `nTodo` to zero notifies a sleeping master |
| `CheckQueueRuns.AccountWakes` | src/checkqueue.h:81-86 | a worker that accounts for its batch wakes a sleeping master if and only if the batch was all that was left to do |
| `CheckQueueRuns.AddWakes` | src/checkqueue.h:147-159 | adding nothing wakes nobody, adding one check wakes exactly one sleeping worker if there is one, adding more wakes all; nothing else about any thread changes |
| `CheckQueueRuns.NoDeadlock` | src/checkqueue.h:70-128 | in every reachable state inside Wait a thread with a batch or a woken one can move |
| `CheckQueueRuns.WaitTerminates` | src/checkqueue.h:141-144 | Wait returns: a schedule inside it is no longer than the work left, plus two steps for each spurious wakeup |
| `CheckQueueObject.Queue.constructor` | src/checkqueue.h:131-132 | a new queue is idle |
| `CheckQueueObject.Queue.Add` | src/checkqueue.h:147-159 | the checks go on the queue in order and are counted; the result says whom to notify: nobody, one worker or all |
| `CheckQueueObject.NotifyOnAdd` | src/checkqueue.h:154-158 | that notification wakes as many sleeping workers as the Add step of the protocol does |
| `CheckQueueObject.Queue.IsIdle` | src/checkqueue.h:166-170 | answers the idleness that the run theorems speak of |
| `CheckQueueObject.Queue.Begin` | src/checkqueue.h:79-90 | the top of the critical section, in place, is the accounting step of the protocol, and says when the master is notified |
| `CheckQueueObject.Queue.Wake` | src/checkqueue.h:103-104 | back from the condition variable a thread is no longer counted idle, and nothing else changes |
| `CheckQueueObject.StepOnShared` | src/checkqueue.h:77-159 | each step of the protocol changes the shared fields as the methods in a row do: Begin or Wake, then Finish; or Add |
| `CheckQueueObject.Queue.Finish` | src/checkqueue.h:92-120 | the rest of the critical section, in place, is the protocol's choice of returning, sleeping or taking a batch |
| `CheckQueueObject.Queue.Swap` | src/checkqueue.h:112-118 | the batch is the last checks pushed, newest first, and the rest of the queue is untouched |
| `CheckQueue.ReversedAt` | src/checkqueue.h:112-118 | the batch in the order in which it was swapped out: the i-th check is the i-th from the back |
| `CheckQueueObject.Queue.RunBatch` | src/checkqueue.h:123-126 | running a batch with early skipping computes the conjunction of its checks, and is the protocol's execution steps in a row |
| `MerkleTree.WidthSpec` | src/chain/merkleblock.h:67-69 | a position is within the computed width of a level exactly when its first leaf exists |
| `MerkleSound.DecodeSound` | src/chain/merkleblock.cpp:128-159 | for arbitrary bits, hashes and number of transactions: if extraction succeeds with the root of the true list, and that number gives a tree of the true height, the matches are elements of the list at strictly increasing positions |
| `MerkleSound.ExtractSound` | src/chain/merkleblock.cpp:76-110 | the same for every subtree that decodes cleanly to its true digest, whatever number of transactions the decoder was told |
| `MerkleSound.DecodeLevel` | src/chain/merkleblock.cpp:128-159 | with a number that gives a lower tree, the matches are node digests of the level where that tree ends, at strictly increasing positions |
| `MerkleSound.DecodeDeeper` | src/chain/merkleblock.cpp:128-159 | with one that gives a higher tree nothing is extracted, as long as no id is the digest of a node |
| `MerkleSound.LevelTree` | src/chain/merkleblock.cpp:41-56 | the nodes of a level are the leaves of a tree with the same digests above them |
| `MerkleSound.RootTakenForId` | src/chain/merkleblock.cpp:128-159 | the height is needed: told of one transaction, the decoder accepts the root of any longer list and extracts it as an id, which it is not |
| `MerkleSound.AcceptsExactly` | src/chain/merkleblock.cpp:128-159 | extraction returns the root exactly when the counts are plausible, the traversal is clean, every hash and every byte of flags was used; otherwise zero |
| `MerkleSound.CursorsInside` | src/chain/merkleblock.cpp:76-110 | neither cursor ever passes the end of its list, nor moves back |
| `MerkleTree.UnpackPacked` | src/chain/merkleblock.h:93-104 | unpacking packed flag bits gives them back, followed by fewer than eight zero bits |
| `MerkleTree.SetBitAt` | src/chain/merkleblock.h:101-103 | setting a flag bit in the byte vector changes that bit and no other |
| `MerkleTree.PackedValue` | src/chain/merkleblock.h:100-104 | the i-th byte written is the number with binary digits 8i to 8i+7 of the flags, the first one weighing one |
| `MerkleTree.UnpackedValue` | src/chain/merkleblock.h:93-99 | and reading takes the flags from the digits of the bytes in the same order |
| `MerkleRoundTrip.ExtractBuilt` | src/chain/merkleblock.cpp:58-110 | what the encoder wrote for a subtree, anywhere in the streams, decodes to its digest and masked leaves, and flags an error exactly when equal siblings lie above a match |
| `MerkleRoundTrip.RoundTrip` | src/chain/merkleblock.cpp:58-159 | encode, pack, unpack, decode on any list and mask: the root and exactly the masked ids come back if and only if no two sibling digests above a match are equal |
| `MerkleRoundTrip.RoundTripDistinct` | src/chain/merkleblock.cpp:58-159 | for distinct ids, up to the block limit, the round trip always succeeds |
| `MerkleRoundTrip.DistinctNoTwins` | src/chain/merkleblock.cpp:98-104 | the equal-siblings check never fires on a tree of distinct ids |
| `MerkleRoundTrip.BitCount` | src/chain/merkleblock.cpp:58-74 | the encoder writes exactly 2N - 1 flag bits plus one for each single-child node above a match |
| `MerkleRoundTrip.EncodedHashes` | src/chain/merkleblock.h:37-41 | the documented bounds: N is at most the number of transactions, and at most 1 + matches * height |
| `MerkleRoundTrip.EncodedBits` | src/chain/merkleblock.cpp:58-74 | at least N and at most 2N - 1 + height flag bits |
| `MerkleRoundTrip.EncodedInOrder` | src/chain/merkleblock.cpp:58-74 | the hashes are those of nodes that tile the transactions from left to right, a single leaf where it is matched and otherwise a subtree without matches |
| `MerkleRoundTrip.TwoMatched` | src/chain/merkleblock.cpp:58-74 | for two transactions the flags and hashes written out |
| `MerkleRoundTrip.DocumentedBitBound` | src/chain/merkleblock.h:48 | the documented 2N - 1 bits hold if and only if no single-child node lies above a match |
| `MerkleRoundTrip.DocumentedBitBoundFails` | src/chain/merkleblock.h:48 | three transactions with the last one matched take four bits for two hashes |
| `MerkleRoundTrip.SizeExact` | src/chain/merkleblock.h:32-49 | the documented size guarantee holds if and only if N < 253, or N < 65536 and the single-child bits do not cross a byte boundary (the third one while the flag-byte count takes one byte) |
| `MerkleRoundTrip.DocumentedSizeFails` | src/chain/merkleblock.h:32-35 | a block of 1012 transactions, all matched, is one byte over the guarantee |
| `PartialMerkleTree.ComputeHeight` | src/chain/merkleblock.cpp:117-120 | the climbing loop finds the height |
| `PartialMerkleTree.ScanMatches` | src/chain/merkleblock.cpp:59-62 | the scan of the mask below a node finds whether the node is above a match |
| `PartialMerkleTree.Tree.constructor` | src/chain/merkleblock.cpp:112-124 | a tree built in place holds the encoding of the list and mask |
| `PartialMerkleTree.Tree.TraverseAndBuild` | src/chain/merkleblock.cpp:58-74 | the recursion appends to both vectors exactly the subtree's encoding |
| `PartialMerkleTree.Tree.TraverseAndExtract` | src/chain/merkleblock.cpp:76-110 | with cursors by reference and the sticky error flag, the decoder is the value-level decoder on every input |
| `PartialMerkleTree.Tree.ExtractMatches` | src/chain/merkleblock.cpp:128-159 | all checks around the traversal, in order, and the error flag that is left behind |
| `PartialMerkleTree.Tree.WriteBytes` | src/chain/merkleblock.h:100-104 | the written bytes are the flag bits packed least significant first, zero padded |
| `PartialMerkleTree.Tree.ReadBytes` | src/chain/merkleblock.h:93-99 | reading unpacks every bit of every byte and clears the error flag |
| `PartialMerkleTree.Relay` | src/chain/merkleblock.cpp:58-159 | build, write, read into another object, extract: the root and the selected ids arrive |
| `BlockRoot.RootBottomUp` | src/primitives/block.cpp:80-99 | pairing up level after level until one digest is left gives the root that the partial tree computes from the top |
| `BlockRoot.LevelAbove` | src/primitives/block.cpp:84-93 | pairing up the nodes of a level, the last one with itself if it is single, gives the nodes of the next |
| `BlockRoot.HashLevel` | src/primitives/block.cpp:84-93 | one round of the loop appends the next level, and reports whether the level ends in two equal digests that are a pair |
| `BlockRoot.BuildMerkleTree` | src/primitives/block.cpp:80-99 | the block root is the root of the partial tree, zero for no transactions; it is flagged as mutated if and only if some level ends in such a pair |
| `MemPool.SumRemove` | src/chain/txmempool.cpp:610-611 | the sum of sizes drops by exactly the size of what is removed |
| `MemPool.ClosureIsDescendants` | src/chain/txmempool.cpp:563-630 | the closure that recursive removal takes out is the roots in the pool and everything a chain of spending reaches from them |
| `MemPool.ClosureUnique` | src/chain/txmempool.cpp:563-630 | there is only one such set |
| `MemPool.ClosureUnion` | src/chain/txmempool.cpp:660-675 | removing one closure and then another from what is left is removing the closure of both |
| `MemPool.EraseOne` | src/chain/txmempool.cpp:597-612 | erasing inputs, entry and size of one transaction is exactly its removal from a consistent pool |
| `MemPool.SpendersRecorded` | src/chain/txmempool.cpp:589-596 | in a consistent pool the records find exactly the spenders of a transaction |
| `MemPool.NoSpenderLeft` | src/chain/txmempool.cpp:563-630 | after a recursive removal nothing left spends an output of the origin or of anything removed |
| `MemPool.AddKeepsConsistent` | src/chain/txmempool.cpp:477-505 | adding a fresh transaction keeps the pool consistent if and only if it spends nothing the pool spends and no output twice |
| `MemPool.RemovalKeepsOutputs` | src/chain/txmempool.cpp:733-739 | every removal keeps that an input whose transaction is in the pool names one of its outputs |
| `MemPool.AddKeepsOutputs` | src/chain/txmempool.cpp:733-739 | adding a fresh transaction keeps it if and only if its inputs, and the pool's inputs that name it, name outputs that exist |
| `TxMemPool.TransactionPool.Remove` | src/chain/txmempool.cpp:563-630 | the worklist terminates and removes exactly the closure of the origin (or of its spenders when it is not in the pool), lists each removed transaction once, and keeps the pool consistent; non-recursively only the origin goes |
| `TxMemPool.TransactionPool.RemoveOne` | src/chain/txmempool.cpp:588-612 | one turn of the worklist takes one transaction out and queues exactly its spenders |
| `TxMemPool.TransactionPool.EraseTx` | src/chain/txmempool.cpp:597-612 | the in-place updates of both maps and the total are the removal of one transaction |
| `TxMemPool.TransactionPool.Spenders` | src/chain/txmempool.cpp:589-596 | the scan over a transaction's outputs finds the recorded spenders |
| `TxMemPool.TransactionPool.RemoveConflicts` | src/chain/txmempool.cpp:660-675 | exactly the conflicting transactions and their descendants go, each listed once; nothing else left shares an input |
| `TxMemPool.TransactionPool.RemoveForBlock` | src/chain/txmempool.cpp:680-699 | afterwards no block transaction is in the pool, none shares an input with it, and nothing left spends what was removed as a conflict; everything removed is a block transaction, a conflict, or a descendant of a conflict; the conflict list grows by exactly what was removed as a conflict, each once; the estimator has seen the pool entries of the block |
| `TxMemPool.TransactionPool.RemoveCoinbaseSpends` | src/chain/txmempool.cpp:632-658 | exactly the spenders of missing coins or immature coinbases, and their descendants, are removed |
| `TxMemPool.TransactionPool.FindBadInputs` | src/chain/txmempool.cpp:636-653 | the scan lists each such spender, whatever order the map is walked in |
| `TxMemPool.TransactionPool.AddUnchecked` | src/chain/txmempool.cpp:477-505 | maps, total and hash list after an addition; consistency is kept if and only if the transaction is conflict free, and existing outputs are named if and only if the new ones are |
| `TxMemPool.TransactionPool.Clear` | src/chain/txmempool.cpp:702-713 | an empty pool, consistent again |
| `TxMemPool.TransactionPool.constructor` | src/chain/txmempool.cpp:419-441 | a new pool is empty and consistent, with an estimator over 25 blocks |
| `TxMemPool.TransactionPool.DefragmentHashList` | src/chain/txmempool.cpp:509-539 | in place, the list becomes its order-preserving filter by pool membership |
| `TxMemPool.TransactionPool.ShiftHashList` | src/chain/txmempool.cpp:541-558 | rows open at the front, zeroed unless the list was empty |
| `TxMemPool.TransactionPool.QueryHashes` | src/chain/txmempool.cpp:788-820 | the answer is the pool's hashes in list order, each as often as it is listed, all of them if the list covers the pool; the stop mark is where their sizes exceed a block |
| `TxMemPool.SendStopExact` | src/chain/txmempool.cpp:799-818 | the stop mark is zero exactly while everything fits, and otherwise the first hash that goes over |
| `TxMemPool.SpendableFrom` | src/chain/txmempool.cpp:643-651 | which coins the removal of coinbase spends looks for: those that are gone, and coinbase ones less than the maturity deep; from that depth on they are spendable |
| `TxMemPool.EntriesInOrder` | src/chain/txmempool.cpp:684-691 | what the estimator is told of a block: the entries of those of its transactions that the pool holds, in block order |
| `TxMemPool.SizeOfDistinct` | src/chain/txmempool.cpp:800-812 | the size counted for a list of distinct hashes is the total size of the pool restricted to them |
| `HashList.FilterCounts` | src/chain/txmempool.cpp:509-539 | compaction keeps the multiplicity of every pool hash and drops every other hash |
| `HashList.FilterInOrder` | src/chain/txmempool.cpp:517-529 | compaction keeps exactly the rows whose transaction is in the pool, in their order |
| `HashList.PutExact` | src/chain/txmempool.cpp:491-503 | an addition keeps every pool transaction listed if and only if it does not overwrite the only row of one |
| `HashList.PutInPlace` | src/chain/txmempool.cpp:491-502 | an addition writes one row, at the position counter or at the end, and no other row changes |
| `HashList.ShiftInPlace` | src/chain/txmempool.cpp:541-558 | a shift puts the given number of empty rows in front, keeps the others in order and restarts the counter |
| `HashList.RunCovers` | src/chain/txmempool.cpp:491-558 | over any run of additions, removals, shifts, compactions and clears with at most k additions between a shift by k and the next compaction or clear, every pool transaction stays listed |
| `HashList.OneTooMany` | src/chain/txmempool.cpp:491-558 | one addition more loses a transaction that is still in the pool |
| `HashList.PutCounts` | src/chain/txmempool.cpp:491-502 | an addition lists its hash once more than the rows it leaves, and every other hash as often as those do |
| `HashList.RunListsOnce` | src/chain/txmempool.cpp:491-558 | within the room, every pool hash is listed exactly once all along a run if and only if no addition is of a hash that has another row |
| `HashList.ListedTwice` | src/chain/txmempool.cpp:491-539 | a transaction that leaves the pool and comes back before a compaction is listed twice, also after it |
| `FeeEstimator.DescendingSorts` | src/chain/txmempool.cpp:323-329 | the cache order is a descending rearrangement of the samples |
| `FeeEstimator.EstimateMonotone` | src/chain/txmempool.cpp:316-380 | estimates of fee and of priority do not increase with the number of blocks asked for |
| `FeeEstimator.EstimateFalls` | src/chain/txmempool.cpp:316-380 | over a sane history this holds for any numbers of blocks, also beyond the history |
| `FeeEstimator.EstimateInRange` | src/chain/txmempool.cpp:316-380 | a fee estimate is zero or lies above the relay minimum and within ten thousand times it; a priority estimate is -1 or above the threshold |
| `FeeEstimator.EstimateRank` | src/chain/txmempool.cpp:338-349 | an estimate has the rank that the sample counts ask for: half of its own bucket and all faster ones lie before it among all samples, largest first |
| `FeeEstimator.SamplesMembers` | src/chain/txmempool.cpp:323-329 | the samples ranked are those of all buckets, and no others |
| `FeeEstimator.FeeRateExact` | src/structs/amount.cpp:11-17 | the fee rate is the fee for 1000 bytes rounded down, where the product fits 63 bits |
| `FeeEstimator.ConfirmExact` | src/chain/txmempool.cpp:214-242 | a sane fee rate is recorded exactly for an entry whose fee is sufficient and whose priority is not, a sane priority exactly for the opposite, and a full list forgets its oldest sample |
| `FeeEstimator.ConfirmAllExact` | src/chain/txmempool.cpp:214-242 | after any number of entries each list holds the newest hundred of what it held and what they bring, in order |
| `FeeEstimator.SampledGains` | src/chain/txmempool.cpp:281-297 | a bucket gains the samples of ten of its entries, of all where there are fewer, and its two sizes grow by exactly the number that qualify |
| `FeeEstimator.WaitingExact` | src/chain/txmempool.cpp:265-280 | an entry goes to the bucket of the number of blocks it waited, the last bucket taking all longer waits, as often as it is listed |
| `FeeEstimator.SampledSane` | src/chain/txmempool.cpp:214-242 | whatever a block's sampling picks, buffers stay within capacity and hold only sane samples |
| `FeeEstimator.MinerPolicyEstimator.constructor` | src/chain/txmempool.cpp:245-248 | empty buckets |
| `FeeEstimator.MinerPolicyEstimator.EstimateFee` | src/chain/txmempool.cpp:316-350 | the answer depends on the history alone; the cache stays empty or the descending sort of all current samples |
| `FeeEstimator.MinerPolicyEstimator.EstimatePriority` | src/chain/txmempool.cpp:351-380 | the same for priorities and their cache |
| `FeeEstimator.MinerPolicyEstimator.SeenBucket` | src/chain/txmempool.cpp:283-296 | a bucket takes at most ten of its entries, chosen arbitrarily, and no other bucket changes |
| `FeeEstimator.MinerPolicyEstimator.SeenBlock` | src/chain/txmempool.cpp:250-311 | stale blocks change nothing; otherwise every bucket samples the entries that waited that long, both caches stay right, a sane history stays sane |
| `FeeEstimator.Distribute` | src/chain/txmempool.cpp:265-280 | every confirmed entry lands in the bucket of its waiting time, the last bucket catching the rest |
| `BlockTree.GetSkipHeight` | src/core/main.cpp:5346-5355 | a skip height is below the height |
| `BlockTree.ClearsLowestOne` | src/core/main.cpp:5343-5344 | the bit trick clears the lowest one of the binary representation |
| `BlockTree.SkipHeightExact` | src/core/main.cpp:5346-5355 | an even height skips to itself without its lowest one; the height after it to one more than that without its own lowest one |
| `BlockTree.BlockIndex.constructor` | src/core/main.cpp:5386-5390 | the skip pointer of a new entry leads to its ancestor at the skip height |
| `BlockTree.BlockIndex.GetAncestor` | src/core/main.cpp:5357-5379 | the walk by skip pointers agrees with following predecessors, and answers null outside the chain |
| `BlockTree.AncestorCompose` | src/core/main.cpp:5357-5379 | an ancestor's ancestor is the ancestor |
| `BlockTree.AncestorsMeet` | src/chain/chain.cpp:14-27 | two chains that meet at one height agree below it |
| `ActiveChain.Chain.SetTip` | src/chain/chain.cpp:14-27 | despite stopping at the first matching slot, every slot is the new tip's ancestor at that height |
| `ActiveChain.Chain.FindFork` | src/chain/chain.cpp:57-63 | the result is the highest block both in the chain and among the ancestors, or there is none |
| `ActiveChain.Chain.GetLocator` | src/chain/chain.cpp:29-55 | index branch and ancestor branch together give the locator of the start block, or of the tip |
| `ActiveChain.LocatorAncestors` | src/chain/chain.cpp:29-55 | every block named is the start's ancestor, at a height that the start's height alone determines |
| `ActiveChain.LocatorDecreases` | src/chain/chain.cpp:29-55 | heights strictly decrease and end at the genesis block |
| `ActiveChain.LocatorLength` | src/chain/chain.cpp:29-55 | at most 12 + log2(height + 1) entries, beginning with the twelve nearest heights |
| `ActiveChain.LocatorGaps` | src/chain/chain.cpp:29-55 | the first eleven gaps are one, each later one doubles, and the last ends at the first block |
| `ActiveChain.NearestHeights` | src/chain/chain.cpp:29-55 | while the step is one, every block is named |
| `ActiveChain.Chain.NextIsSuccessor` | src/chain/chain.h:450-455 | Next is null exactly outside the chain and at its tip, and otherwise the block whose predecessor this is |
| `ActiveChain.Chain.SameTipSameChain` | src/chain/chain.h:439-442 | comparing length and tip compares whole chains, unless both are empty |
| `Sha256.PadZerosLeast` | src/crypto/sha256.cpp:167-182 | the padding is the shortest that completes a block with the length in it (section 5.1.1 of FIPS 180-4) |
| `Sha256.PaddedLayout` | src/crypto/sha256.cpp:167-173 | the padded message is the message, a byte 128, zeros, and eight bytes whose value is its length in bits, in the fewest whole blocks |
| `Sha256.OutputWords` | src/crypto/sha256.cpp:174-181 | every four bytes of the output have the value of one state word, in order |
| `BigEndian.BERoundTrip` | src/crypto/common.h:92-118 | the bytes of a number, the most significant first, have its value modulo 256^n |
| `BigEndian.Value32` | src/crypto/common.h:92-102 | four bytes hold every 32-bit number |
| `BigEndian.Value64` | src/crypto/common.h:104-118 | eight bytes hold every 64-bit number |
| `Sha256.AbsorbAppend` | src/crypto/sha256.cpp:141-165 | compressing a concatenation of whole blocks is compressing the parts in turn |
| `Sha256.CountMod` | src/crypto/sha256.cpp:144 | counting bytes modulo 2^64 loses nothing that buffering and the length field need |
| `Sha256.Hasher.constructor` | src/crypto/sha256.cpp:136-139 | a new hasher has taken the empty message |
| `Sha256.Hasher.Write` | src/crypto/sha256.cpp:141-165 | for any split of a message into pieces, the state is the fold over the complete blocks with the rest buffered |
| `Sha256.Hasher.Finalize` | src/crypto/sha256.cpp:167-182 | the output is the hash of the padded message, whatever the pieces were |
| `Sha256.Hasher.Reset` | src/crypto/sha256.cpp:184-189 | back to the empty message |
| `Hmac.MakeBlockKey` | src/crypto/hmac_sha256.cpp:11-18 | keys of any length become one block, hashed first if longer than a block |
| `Hmac.XorInPlace` | src/crypto/hmac_sha256.cpp:20-26 | the key is xored byte by byte in place |
| `Hmac.Mac.constructor` | src/crypto/hmac_sha256.cpp:9-27 | re-xoring the outer pad gives the inner pad: both hashers have taken their padded keys |
| `Hmac.Mac.Write` | src/crypto/hmac_sha256.h:24-28 | text accumulates in the inner hash |
| `Hmac.Mac.Finalize` | src/crypto/hmac_sha256.cpp:29-34 | the output is HMAC of section 2 of RFC 2104 |
| `Hmac.MacOfPieces` | src/crypto/rfc6979_hmac_sha256.cpp:16-22 | a MAC over pieces is the MAC of their concatenation |
| `Rfc6979.Generator.constructor` | src/crypto/rfc6979_hmac_sha256.cpp:14-23 | steps b to g of section 3.2 of RFC 6979 |
| `Rfc6979.Generator.Stir` | src/crypto/rfc6979_hmac_sha256.cpp:33-36 | step h.3 before every candidate but the first |
| `Rfc6979.Generator.Fill` | src/crypto/rfc6979_hmac_sha256.cpp:38-45 | the output is V after V, the last one cut short |
| `Rfc6979.Generator.Generate` | src/crypto/rfc6979_hmac_sha256.cpp:31-47 | over any sequence of requests of any lengths, each output is the candidate that section 3.2 of RFC 6979 defines |
| `Cbc.UnchainChain` | src/crypto/aes.cpp:45-120 | unchaining undoes chaining for any cipher whose decryption undoes encryption |
| `Cbc.ChainBlocks` | src/crypto/aes.cpp:45-79 | every block of the output is the encryption of its plaintext block mixed with the block before, the first with the initialisation vector |
| `Cbc.NoOtherPadding` | src/crypto/aes.cpp:103-115 | a text ends in well-formed padding of at most one length, the one its last byte names |
| `Cbc.StripsPadding` | src/crypto/aes.cpp:103-119 | what decryption reports for a padded message is the message's own length |
| `Cbc.CheckPadding` | src/crypto/aes.cpp:103-118 | the check without early exit fails exactly when the text does not end in well-formed padding |
| `Cbc.EncryptBlock` | src/crypto/aes.cpp:62-76 | a block is mixed in place with the previous ciphertext block, encrypted and kept |
| `Cbc.CBCEncrypt` | src/crypto/aes.cpp:45-79 | the output is the chained encryption of the message, padded or in whole blocks, also when it is written over the message; nothing is written for null, empty or ragged input, and nothing past the output |
| `Cbc.CBCDecrypt` | src/crypto/aes.cpp:81-120 | the output is the unchained text (written over the input, the text that OntoExact compares with it), and a non-zero reported length strips well-formed padding of exactly the announced length |
| `Cbc.OntoExact` | src/crypto/aes.cpp:95-101 | decrypting a buffer onto itself gives the plaintext if and only if every block but the last decrypts to itself, because the previous ciphertext block is read again after it was written over |
| `Cbc.OntoFails` | src/crypto/aes.cpp:95-101 | two blocks for which it does not, whatever they hold |
| `Cbc.RoundTrip` | src/crypto/aes.cpp:45-120 | decrypting what was encrypted gives back length and bytes |
| `ParamFormat.LERoundTrip` | src/utils/utility.cpp:66-91 | writing n low bytes and reading them back is reduction modulo 256^n |
| `ParamFormat.LEWeighed` | src/utils/utility.cpp:71-91 | the i-th byte of a little-endian number weighs 256^i |
| `ParamFormat.ValueInPlace` | src/chainparams/params.cpp:143-165 | a record's value is where its coordinates point |
| `ParamFormat.RecordsDisjoint` | src/chainparams/params.cpp:309-355 | stored parameters occupy disjoint records within the used size |
| `ParamFormat.EncodeOverwrite` | src/chainparams/params.cpp:1352-1359 | overwriting a value by one of the same size changes just its bytes and moves nothing |
| `ParamParse.ParseItems` | src/chainparams/params.cpp:1078-1124 | on any sequence of records the parser keeps the first of every known name |
| `ParamParse.ParseEncoded` | src/chainparams/params.cpp:1078-1124 | parsing a store's raw bytes gives back its records if and only if two bytes hold the size of each |
| `ParamParse.ParseExtends` | src/chainparams/params.cpp:1078-1124 | on arbitrary bytes the parser only adds well-formed records |
| `ParamRecords.DeclaredFits` | src/chainparams/params.cpp:401-422 | values within their declared maximum fit the allocated buffer, whichever parameters they are of and in whatever order |
| `ParamRecords.FirstIsKept` | src/chainparams/params.cpp:1078-1124 | of several records of one name the first counts, and a record the store has already counts before them |
| `ParamRecords.DeclaredRoom` | src/chainparams/params.cpp:336-352 | in a store of such values there is room to append one more |
| `ParamRecords.OneRecordFits` | src/chainparams/params.cpp:1078-1124 | a one-record source stays in bounds if and only if name and value fit the buffer of the table |
| `ParamRecords.LongValueDoesNotFit` | src/chainparams/params.cpp:1096-1116 | a 4-byte parameter given as 40 bytes is accepted by the parser and does not fit |
| `ParamStale.LoopParses` | src/chainparams/params.cpp:1087-1119 | once a size has been read, the loop with C integers ends with exactly the coordinates and the size of what the parser accepts |
| `ParamStale.StaleExact` | src/chainparams/params.cpp:1080-1119 | the uninitialised size variable makes no difference if and only if the source is empty or starts with a zero, its first size is present, the leftover is too large to pass the test, or the name is unknown and the leftover at least -3 |
| `ParamStale.KnownName` | src/chainparams/params.cpp:1091-1115 | with a known name and a leftover that passes, a record of negative size is stored and stays |
| `ParamStale.NeverEnds` | src/chainparams/params.cpp:1088-1118 | with an unknown name and a smaller leftover the cursor is moved back for good: the loop does not end |
| `ParamStale.NegativeSizeStored` | src/chainparams/params.cpp:1091-1115 | a source that ends after a known name, with a leftover of -3, stores a record of size -3 |
| `ParamStore.LookUp` | src/chainparams/params.cpp:143-165 | following the coordinates of an entry finds its stored value, or that there is none |
| `ParamStore.Params.constructor` | src/chainparams/params.cpp:393-433 | an empty store, its buffer allocated for every parameter at its declared maximum |
| `ParamStore.Params.GetParam` | src/chainparams/params.cpp:143-165 | the stored bytes of a known and stored name, nothing otherwise |
| `ParamStore.Params.GetInt64Param` | src/chainparams/params.cpp:84-104 | for values of up to eight bytes the stored number, else the table's default, else -1 |
| `ParamStore.Params.Append` | src/chainparams/params.cpp:336-352 | an appended record leaves every other one as it was; it stays in bounds exactly when there is room |
| `ParamStore.Params.SetParam` | src/chainparams/params.cpp:309-355 | only comment and calculated parameters, once, otherwise an error and no change; in bounds exactly when there is room, which values within their declared maximum always find |
| `ParamStore.Params.Set` | src/chainparams/params.cpp:1078-1124 | for arbitrary bytes and any leftover in the size variable: the call is well defined if and only if the leftover does not decide a record and what the parser accepts fits the buffer; then the store holds exactly that |
| `ParamStore.Transfer` | src/chainparams/params.cpp:1078-1124 | a store set from another store's raw bytes holds the same records, so answers every query alike, if and only if two bytes hold the size of each; always so for values within their declared maximum |
| `ParamStore.Params.Overwrite` | src/chainparams/params.cpp:1352-1359 | the in-place write changes one parameter and no other |
| `ParamStore.Params.AdjustSetupFirstBlocks` | src/chainparams/params.cpp:1275-1385 | no other parameter changes; the setup length reads as the floor modulo 2^32, and a second call finds nothing to do if and only if the floor is below 2^32; every guard and both error returns; never out of bounds for values within their declared maximum |
| `ParamStore.RaisedValue` | src/chainparams/params.cpp:1324-1372 | after the raise the setup length is the larger of the old value and the floor exactly when the floor fits four bytes |
| `ParamStore.RequiredSetupLeast` | src/chainparams/params.cpp:1324-1331 | the floor is the least setup length beyond the end of the epoch and its margin |
| `ParamStore.RaiseCanLower` | src/chainparams/params.cpp:1350-1372 | with an epoch of 2^32 - 9 blocks the raise lowers the setup length from 60 to 0 |

## Left out

- CheckQueueObject.Queue.Begin: the mutex and the condition variables appear in the protocol steps, not in the object; the result says whom to notify.
- CheckQueue: the never-set `fQuit`, controllers without a queue, and checks that throw.
- Cbc.CBCEncrypt: input and output are the same array or two; buffers that overlap at an offset, and a negative size, for which the loops do not stop as intended, are not modelled.
- Cbc.CBCDecrypt: as for encryption; that the padding check takes the same time on every text is not modelled either.
- Rfc6979.Generator.Generate: one output sequence per call instead of a caller's buffer.
- PartialMerkleTree.Tree.TraverseAndBuild: unsigned 32-bit positions do not wrap, because a position is below the number of transactions.
- BlockRoot.BuildMerkleTree: takes the hashes of the transactions; the chain option that hashes a coinbase without its unspendable outputs changes them beforehand.
- TxMemPool.TransactionPool.Remove: events, wallet flags and the reason strings; and transactions are values, so that the reference which `removeConflicts` passes into the map, and which is read again after its entry is erased, does not dangle.
- TxMemPool.TransactionPool.RemoveCoinbaseSpends: the coins of a transaction are a function argument, and the assertion that the sanity-check mode makes of them is left out.
- TxMemPool.TransactionPool.constructor: the total size starts at zero because the pool is a static object.
- TxMemPool.TransactionPool.ShiftHashList: what fresh rows of an empty list hold is an argument.
- FeeEstimator.MinerPolicyEstimator.SeenBlock: priorities are reals, and the shuffle is an arbitrary rearrangement.
- ParamStore.Params.GetInt64Param: promises nothing for values of more than eight bytes, for which the shift is undefined in C.
- ParamStore.Params.Set: what memory behind the buffer or in front of the source holds; the model stops there.
- ParamStore.Params.AdjustSetupFirstBlocks: promises only a valid store when a stored number has more than eight bytes or the floor overflows 64 bits.
- The pool's sanity check beyond its maps, total and named outputs: null outputs, and validity of inputs against a coin view.
- Reading and writing estimates to a file, which replaces the history without clearing the cache, and prioritisation deltas.
- The number of steps of the ancestor walk, which the source gives as an observation.
- Machine-integer limits on block heights and on the locator's step.
- Creating, printing, reading, cloning and validating parameter files; the store before its table is loaded.
- The proof-of-authority selector, weight engine and verifiable randomness, which rest on floating point and stream contents.
- SHA-1, SHA-512 and RIPEMD-160, which buffer in the same way as SHA-256.
- The bodies of the compression function and of AES.
- Two empty chains, for which comparing chains reads in front of an empty vector.
