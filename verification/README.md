# MetaNode suite: a verified model

Dafny models of the parts of the MetaNode tooling that hold an algorithm or a protocol, with proofs about every input,
every run or every interleaving. `dafny verify dfyconfig.toml` checks all of it.

- `Merkle.dfy`, `Transfer.dfy`: file storage. The padded Merkle tree, its proofs and the `index >> level` verifier they
  are made for; cutting a file into chunks; putting it together from workers that write in any order.
- `ReceiptRouter.dfy`, `ReceiptWaits.dfy`: the TCP client's receipt router as an object that changes its tables in place,
  and every interleaving of `waitReceipt` calls with it.
- `BlockScan.dfy`, `Watch.dfy`: the block hash checker. `BlockTable` says what a table of node answers amounts to without
  any scan state; `BlockChecker` is the one-pass scan, proved to report just that; `Watch` is the search back from a
  mismatch and the resumable watch.
- `CircuitBreaker.dfy`, `BlockStm.dfy`, `Nonces.dfy`, `Latency.dfy`: the circuit breaker, the status word of the block
  executor, the nonce allocator, the latency statistics.
- `Words.dfy`, `Wrappers.dfy`: the word size and the option type the others share.
- `Versions.dfy`, `Pragma.dfy`: the order on version strings, and the rewriting of `pragma solidity` lines.

Concurrent parts are step systems in which a step that is not enabled changes nothing, so that every sequence of steps is
a run and "in every interleaving" is "for every sequence". The state-changing code is written as classes whose methods are
proved to make the same step as the functions the lemmas are about.

## What does not hold

- A registration that meets an expired pending entry is neither answered nor queued (`ReceiptWaits.LossIsReachable`); it
  happens exactly when the entry under its hash is expired (`ReceiptWaits.RegistrationFate`), and then for good
  (`ReceiptWaits.LostIsForever`).
- A wait that a transaction error ends leaves its receipt in the channel exactly when one is there as the router takes its
  cancel (`ReceiptWaits.TxErrorStrandsIff`, with runs in `StrandedWhileQueued` and `StrandedInSlot`). A wait that returned
  or timed out leaves nothing (`ReceiptWaits.OtherWaysOutLeaveNothing`).
- A transaction error is lost to its wait exactly when a wait for another hash reads it
  (`ReceiptWaits.ErrorsAccounted`, `ReadErrorFate`, with a run in `ErrorStrays`).
- The watch does not look at every link: of a pass it misses the one into the first block and every twentieth after
  (`Watch.LinksSeen`, `Watch.FirstLinkIsFree`), and of a chain watched one block a tick all of them
  (`Watch.WatchBlockByBlock`, `Watch.BreaksGoUnseen`). A block with fewer than two valid answers is cleared without any
  comparison (`BlockChecker.ShortVerdict`).
- The download is checked by its count alone. It is right in every order exactly when the answers agree with the file
  wherever they land and what they leave uncovered was right before (`Download.RebuildsIff`); an empty answer can pass
  (`Download.StaleFileHidesEmptyAnswer`).
- The chunk count wraps to zero when length plus chunk size less one is 2^64 or more (`Chunking.SplitFile` has the exact
  condition).
- A Merkle root without the chunk count does not bind the chunks (`Merkle.RootAloneDoesNotBind`). For one padded size it
  binds them up to trailing empty ones (`Merkle.RootBindsPadded`); across sizes two lists share a root exactly when the
  shorter is made of the longer one's node strings, as leaves and nodes are hashed alike (`Merkle.RootAcrossSizes`).
- The name `txOrder` in a mismatch can depend on which node comes first (`BlockTable.TxOrderNameStableIff` has the exact
  condition), and so can the listing of a block as empty (`BlockTable.EmptyListingStableIff`); no other name and no
  verdict does (`BlockTable.NamedFieldIgnoresOrder`, `BlockTable.ListsIgnoreOrder`).
- A half-open breaker with a request limit of one or more can close before all its probes have succeeded
  (`CircuitBreaker.ClosesEarlyIff`), and lets through one call more than `MaxRequests` (`CircuitBreaker.EpisodeIsBounded`).
- A stale worker's verdict can land (`BlockStm.StaleVerdict` has the exact condition).
- Nonces start over after the largest uint64 (`Nonces.NoncesIncrease`, `Nonces.NoncesRepeat`), and an average is wrong
  once the sum leaves int64 (`Latency.AverageIsMeanIff`, `Latency.OverflowShown`).

## Model

| member | source | states |
|---|---|---|
| `Merkle.NextPowerOfTwo` | file-storage/up-down-debug/main.go:53-58 | the padded size is a power of two, at least the leaf count, and the least such |
| `Merkle.ParentsKeepRoot` | file-storage/up-down-debug/main.go:227-236 | hashing neighbours level by level, as the loop does, keeps the root of the tree defined top down, for every power-of-two size |
| `Merkle.ParentIs` | file-storage/up-down-debug/main.go:229-233 | parent j of a level is the hash of node 2j followed by node 2j+1 |
| `Merkle.RootIs` | file-storage/up-down-debug/main.go:227-237 | the root is the hash of the left half's root followed by the right half's |
| `Merkle.BuildMerkleTreePadded` | file-storage/up-down-debug/main.go:204-238 | no chunks: no leaves and the hash of nothing; otherwise every chunk hashed in place, the hash of the empty string up to the padded size, and the top-down root of those leaves |
| `Merkle.PadLeaves` | file-storage/up-down-debug/main.go:211-224 | the padding step alone: contents and length of the leaf list |
| `Merkle.NextLevel` | file-storage/up-down-debug/main.go:228-235 | the inner loop makes exactly the list of parents |
| `Merkle.GetMerkleProofPadded` | file-storage/up-down-debug/main.go:241-277 | for any index, in range or not, negative included, the proof is the list of siblings met on the way up; no leaves, no proof |
| `Merkle.ProofStep` | file-storage/up-down-debug/main.go:248-272 | one level of the generator: the level above, and the sibling if the index is in this level |
| `Merkle.ProofLength` | file-storage/up-down-debug/main.go:246-277 | a proof has the height of the tree exactly when its index names a leaf, and is never longer |
| `Merkle.StrayIndexGoesOn` | file-storage/up-down-debug/main.go:246-274 | an index that names no leaf finds nothing at its level and goes on at half of it, toward zero, so -1 goes on as 0 |
| `Merkle.ShiftingIsHalving` | file-storage/up-down-debug/main.go:202-204 | reading the side from bit `index >> level` is the same as halving the index at every level |
| `Merkle.ShrDivides` | file-storage/up-down-debug/main.go:202-204 | shifting right by a level is dividing by that power of two |
| `Merkle.ClimbStep` | file-storage/up-down-debug/main.go:202-204 | one step of the verifier hashes the value followed by the sibling when the bit of the index is 0, and the sibling followed by the value when it is 1 |
| `Merkle.ProofVerifies` | file-storage/up-down-debug/main.go:202-277 | completeness: for every tree size and every index the generated proof, folded onto its leaf with sides from `index >> level`, gives the builder's root, and has length log2 of the leaf count |
| `Merkle.ProofBinds` | file-storage/up-down-debug/main.go:225-277 | binding: whatever value and proof of the right length verify at index i are leaf i and its own proof, or the two paths hash two different strings to one digest at some level |
| `Merkle.ClimbsBind` | file-storage/up-down-debug/main.go:225-277 | the same for any two climbs from one index: equal ends, equal starts, or a collision on the way |
| `Merkle.RootBindsLeaves` | file-storage/up-down-debug/main.go:225-238 | equal roots over equally many leaves: equal leaves, or a collision among the strings the two trees hash |
| `Merkle.SmallRoots` | file-storage/up-down-debug/main.go:215-237 | one chunk: its hash; two: the hash of the first one's hash followed by the second's |
| `Merkle.RootBindsPadded` | file-storage/up-down-debug/main.go:204-238 | two chunk lists padded to one size have one root exactly when they are the same but for empty chunks at the end, or the hashing of the two holds a collision |
| `Merkle.RootBindsChunks` | file-storage/up-down-debug/main.go:204-238 | so equal roots over equally many chunks: equal chunks, or a collision among the strings hashed for the two |
| `Merkle.NodesMakeRoot` | file-storage/up-down-debug/main.go:227-236 | the node strings of any level, hashed like chunks, make the same root |
| `Merkle.RootAcrossSizes` | file-storage/up-down-debug/main.go:204-238 | across padded sizes: a shorter list has the root of a longer one exactly when its padded chunks are the node strings of the longer one's tree at that level, or there is a collision; a list that needs padding never has |
| `Merkle.RootAloneDoesNotBind` | file-storage/up-down-debug/main.go:211-238 | so, with no collision, one chunk can have the root of two, and an empty chunk looks like padding |
| `Chunking.CountCovers` | file-storage/up-down-debug/main.go:550-551 | while the rounded-up length fits in 64 bits, the chunk count covers the file and no chunk is empty |
| `Chunking.WrapLosesEverything` | file-storage/up-down-debug/main.go:551-551 | when it does not fit, the count wraps to zero chunks |
| `Chunking.SplitFile` | file-storage/up-down-debug/main.go:550-562 | the pieces are the file in order, each in its place, not empty, and full but for the last, exactly when length plus chunk size less one fits in 64 bits |
| `Chunking.SameCount` | file-storage/up-down-debug/main.go:550-562 | the length and the chunk size fix how many chunks there are |
| `Chunking.RootBindsFile` | file-storage/up-down-debug/main.go:550-565 | length, chunk size and Merkle root determine the file, or hashing the two files holds a collision |
| `Download.OutFile.Truncate` | file-storage/up-down-debug/main.go:925-925 | the asked length; each byte the file had is kept, and the others are zero |
| `Download.OutFile.WriteAt` | file-storage/up-down-debug/main.go:968-969 | the file byte by byte after a write at an offset: it grows over a gap of zeros when that lies past the end, and an empty write does nothing |
| `Download.PutKeepsLength` | file-storage/up-down-debug/main.go:968-973 | a whole or broken-off write keeps: not shorter than recorded, as long as every landed answer needs, and no longer than some answer reaches |
| `Download.PutKeepsByte` | file-storage/up-down-debug/main.go:968-973 | and: every byte is one some answer has for its position, or is as it was before and no answer for it has landed |
| `Download.NextKeepsCount` | file-storage/up-down-debug/main.go:953-981 | every worker step keeps: the counter is the number of workers that reached their last step |
| `Download.NextKeepsData` | file-storage/up-down-debug/main.go:953-981 | every worker step keeps both, whatever the servers answer: no size is assumed |
| `Download.RunKeepsInv` | file-storage/up-down-debug/main.go:950-982 | counter, length and bytes hold after every interleaving of any number of steps, failures included |
| `Download.FullCountBytes` | file-storage/up-down-debug/main.go:925-994 | a full count leaves at each position a byte some answer has for it or, where none has, what was there before, whatever was answered and in whatever order it was written |
| `Download.WrittenLast` | file-storage/up-down-debug/main.go:950-982 | any answer can be the last to be written in a run that counts every chunk |
| `Download.RebuildsIff` | file-storage/up-down-debug/main.go:925-994 | for answers of any sizes and contents: every run that counts every chunk rebuilds the file exactly when each answer agrees with the file wherever it lands and what no answer covers was right before |
| `Download.StaleFileHidesEmptyAnswer` | file-storage/up-down-debug/main.go:961-976 | a wrong answer can go unnoticed: an empty one over an old copy of the file |
| `Download.ChunksRebuild` | file-storage/up-down-debug/main.go:925-994 | the chunks themselves rebuild the file in every order, whatever it held before |
| `Download.DownloadRoundTrip` | file-storage/up-down-debug/main.go:925-994 | a completed run rebuilds the uploaded file if every answer is its chunk, and of answers of the recorded sizes no others do |
| `ReceiptRouter.Router.constructor` | pkg/client-tcp/client.go:592-594 | both tables start empty |
| `ReceiptRouter.Router.Send` | pkg/client-tcp/client.go:617-621 | the non-blocking send puts into an empty slot and counts a drop on a full one |
| `ReceiptRouter.Router.SweepBucket` | pkg/client-tcp/client.go:608-632 | one pass over a bucket: every matching waiter is sent the receipt and taken off, the others stay in order, an empty bucket is deleted |
| `ReceiptRouter.Router.HandleReceipt` | pkg/client-tcp/client.go:600-664 | a nil receipt changes nothing; any other makes both passes and is kept as pending for its minute, answered or not |
| `ReceiptRouter.Router.HandleRegister` | pkg/client-tcp/client.go:668-686 | answered from a live pending entry, queued when there is none, and on an expired entry neither |
| `ReceiptRouter.Router.HandleCancel` | pkg/client-tcp/client.go:688-701 | the first waiter with the channel leaves its bucket, and an empty bucket is deleted |
| `ReceiptRouter.Router.HandleCleanup` | pkg/client-tcp/client.go:704-710 | exactly the expired pending entries go |
| `ReceiptRouter.ReceiptAnswers` | pkg/client-tcp/client.go:600-659 | the two passes together push a receipt to exactly the queued waiters it answers, once each, and touch no other channel |
| `ReceiptRouter.ReceiptUnlists` | pkg/client-tcp/client.go:608-659 | and take exactly those off the queue, keeping every bucket non-empty and duplicate-free |
| `ReceiptRouter.CancelUnlists` | pkg/client-tcp/client.go:688-701 | a cancel takes off exactly the waiter with its hash and channel |
| `ReceiptRouter.RegisterLists` | pkg/client-tcp/client.go:668-686 | a registration adds exactly its own waiter, and only when no pending entry has its hash |
| `ReceiptRouter.WithoutFirstRemoves` | pkg/client-tcp/client.go:690-695 | removing the first waiter with a channel removes it for good, since a bucket holds a channel once |
| `ReceiptWaits.NextKeepsInv` | pkg/client-tcp/client.go:592-766 | every step of every client and of the router keeps the invariant that ties channels, queue, pending table and client phases together |
| `ReceiptWaits.ReachableInv` | pkg/client-tcp/client.go:592-766 | so it holds after every interleaving |
| `ReceiptWaits.RunExtends` | pkg/client-tcp/client.go:592-766 | no step takes back a wait's request, what was sent to it, its way out, or its loss |
| `ReceiptWaits.Accounting` | pkg/client-tcp/client.go:600-702 | in every run each wait has met exactly one of answered, queued, cancelled, lost on an expired entry once the router has acted on its registration, and none before; at most one answer is ever sent to it, one it asked for; no send is ever dropped |
| `ReceiptWaits.QueuedOnce` | pkg/client-tcp/client.go:682-686 | a queued wait is in exactly one place in the table, under its own hash |
| `ReceiptWaits.TimeoutIsFinal` | pkg/client-tcp/client.go:751-763 | a wait that returned the timeout error never had a receipt put in its channel, and in no continuation will |
| `ReceiptWaits.QueuedWaitIsAnswered` | pkg/client-tcp/client.go:600-659 | a matching receipt taken while a wait is queued is its answer: in no continuation does it end in the timeout error, it is what the wait returns if it returns, and until then it lies in the channel |
| `ReceiptWaits.QueuedWaitFate` | pkg/client-tcp/client.go:607-659 | a queued wait by transaction hash is answered by exactly the receipts with its hash there, one by receipt hash by exactly those with its hash there; through all others it stays queued |
| `ReceiptWaits.TakeReturns` | pkg/client-tcp/client.go:735-736 | a wait with a receipt in its channel can return it, and takes it out |
| `ReceiptWaits.TimeoutLooksOnce` | pkg/client-tcp/client.go:751-763 | after the timer the wait cancels and looks once: it returns what is in its channel, or times out |
| `ReceiptWaits.RegistrationFate` | pkg/client-tcp/client.go:668-686 | queued, answered or lost is decided by the pending entry under the hash: three exact conditions |
| `ReceiptWaits.RegistrationUsesUp` | pkg/client-tcp/client.go:669-680 | a registration takes the pending entry under its hash out of the table, expired or not, and leaves every other as it was |
| `ReceiptWaits.NextRegistrationIsQueued` | pkg/client-tcp/client.go:669-686 | so after any run without another receipt for the hash the next registration for it is queued, not answered |
| `ReceiptWaits.LostIsForever` | pkg/client-tcp/client.go:669-673 | a registration lost on an expired entry is never answered in any continuation, and without a timer its wait never ends |
| `ReceiptWaits.LossIsReachable` | pkg/client-tcp/client.go:669-673 | the loss happens: for every receipt, a run that ends in it |
| `ReceiptWaits.CleanupPreventsLoss` | pkg/client-tcp/client.go:669-710 | a registration taken right after a cleanup is answered or queued, never lost: what the cleanup is good for |
| `ReceiptWaits.FailedSlotStaysForever` | pkg/client-tcp/client.go:737-750 | nothing is put into or taken from the channel of a wait that a transaction error has ended, in any continuation |
| `ReceiptWaits.TxErrorStrandsIff` | pkg/client-tcp/client.go:737-750 | a wait on its way out by a transaction error ends that way in every continuation, and leaves a receipt in its channel exactly when one is there as the router takes its cancel |
| `ReceiptWaits.OtherWaysOutLeaveNothing` | pkg/client-tcp/client.go:735-763 | a wait that returned or timed out always leaves its channel empty, and one that an error ended leaves a receipt exactly when it was sent one |
| `ReceiptWaits.StrandedWhileQueued` | pkg/client-tcp/client.go:737-750 | a run into that for every receipt: it comes after the error, while the wait is still queued |
| `ReceiptWaits.StrandedInSlot` | pkg/client-tcp/client.go:733-750 | and another: the receipt is in the channel and the select takes the error |
| `ReceiptWaits.ErrorsAccounted` | pkg/client-tcp/client.go:737-742 | the errors share one channel: in every run each error for a hash ended one wait for it, or was read by a wait for another hash, or is still to be read; all were lost exactly when each was read by another |
| `ReceiptWaits.ReadErrorFate` | pkg/client-tcp/client.go:737-750 | which of the two it is, is decided by the hash of the wait that reads it; a wait for another hash changes nothing but drops it |
| `ReceiptWaits.StrayedIsLost` | pkg/client-tcp/client.go:739-742 | a dropped error does not come back: until another comes in for the hash, no wait for it ends by error |
| `ReceiptWaits.ErrorStrays` | pkg/client-tcp/client.go:739-742 | it happens, for any two hashes: a run in which one wait reads the other's error |
| `ReceiptWaits.EntryOutlasts` | pkg/client-tcp/client.go:661-664 | a pending entry survives, unchanged, every run within its minute that neither replaces it nor serves a registration for it |
| `ReceiptWaits.EarlyReceiptAnswers` | pkg/client-tcp/client.go:661-681 | a receipt that came before anyone asked answers the next registration for its hash within the minute, after any undisturbed run in between |
| `BlockTable.FirstNodeSpeaksForAll` | block/block_hash_checker/main.go:731-789 | comparing everyone with the first valid node names a field exactly when some two valid nodes differ in something compared |
| `BlockTable.AnswersPermute` | block/block_hash_checker/main.go:692-701 | a permutation of the nodes permutes the valid answers and keeps the count of missing ones |
| `BlockTable.VerdictIgnoresOrder` | block/block_hash_checker/main.go:682-908 | so the verdict on a block is the same in every order of the nodes |
| `BlockTable.ListsIgnoreOrder` | block/block_hash_checker/main.go:682-908 | and so are the lists of matched, mismatched, skipped and nil blocks |
| `BlockTable.NamedFieldIgnoresOrder` | block/block_hash_checker/main.go:738-773 | and every named field too, but for the transaction order |
| `BlockTable.HashNamesMean` | block/block_hash_checker/main.go:740-745 | the names for hash and parent hash are given exactly when two valid answers differ in just that |
| `BlockTable.StateNamesMean` | block/block_hash_checker/main.go:746-751 | the same for the two state roots |
| `BlockTable.RootNamesMean` | block/block_hash_checker/main.go:752-757 | the same for the roots of transactions and receipts |
| `BlockTable.MakerNamesMean` | block/block_hash_checker/main.go:761-766 | the same for miner and epoch |
| `BlockTable.IndexNamesMean` | block/block_hash_checker/main.go:767-772 | the same for the two indices |
| `BlockTable.TimeNameMeans` | block/block_hash_checker/main.go:758-760 | the same for the timestamp |
| `BlockTable.TxCountNameMeans` | block/block_hash_checker/main.go:774-775 | the transaction count is named exactly when two lists differ in length |
| `BlockTable.TxOrderNameMeans` | block/block_hash_checker/main.go:776-785 | the transaction order exactly when a list as long as that of the first answer differs from it |
| `BlockTable.TxOrderNameStableIff` | block/block_hash_checker/main.go:774-785 | the name of the transaction order is the same in every order of the nodes exactly when every valid answer has a rival, with as many transactions but another list, or none has |
| `BlockTable.EqualCountsFixTheName` | block/block_hash_checker/main.go:774-785 | so it is while all nodes have the same number of transactions |
| `BlockTable.TxOrderNameDependsOnOrder` | block/block_hash_checker/main.go:774-785 | and a case in which it is not: reordering three nodes changes whether it is named |
| `BlockTable.EmptyListingStableIff` | block/block_hash_checker/main.go:731-736 | whether a block is listed as empty is the same in every order exactly when all valid answers are empty or none |
| `BlockTable.EmptyListingDependsOnOrder` | block/block_hash_checker/main.go:731-736 | and a case in which it is not though the nodes agree, the count of system transactions being never compared |
| `BlockTable.BlocksWithContents` | block/block_hash_checker/main.go:682-716 | the list of blocks with a verdict holds exactly those, in ascending order |
| `BlockTable.VerdictsPartition` | block/block_hash_checker/main.go:682-908 | matches, mismatches, skips and nil blocks add up to the length of the range |
| `BlockTable.TwoValid` | block/block_hash_checker/main.go:687-703 | a block is compared exactly when two nodes answer without error |
| `BlockTable.DisagreeMeans` | block/block_hash_checker/main.go:738-789 | and the nodes disagree exactly when two of them that answer differ in a compared field, each written out |
| `BlockTable.VerdictMeans` | block/block_hash_checker/main.go:687-908 | what nil, skipped and mismatched mean node by node: errors, the text of a missing block, fields that differ, links that fail |
| `BlockTable.RunLengthIsMaximal` | block/block_hash_checker/main.go:971-999 | the run length is the number of entries right before with the same state root and epoch, and no more can be added |
| `BlockTable.FreezeMeansFiveEqual` | block/block_hash_checker/main.go:971-988 | the freeze condition is five such entries and user transactions |
| `BlockChecker.CollectValid` | block/block_hash_checker/main.go:687-701 | the valid answers in node order and the number of nodes without the block |
| `BlockChecker.CompareFields` | block/block_hash_checker/main.go:738-789 | the fields in which some later valid node differs from the first |
| `BlockChecker.SameTxOrder` | block/block_hash_checker/main.go:776-785 | the loop with its early exit decides equality of the transaction lists |
| `BlockChecker.RememberHashes` | block/block_hash_checker/main.go:718-725 | afterwards exactly the nodes valid here are remembered, with their hash here |
| `BlockChecker.ForgetAll` | block/block_hash_checker/main.go:710-712 | a nil block leaves no node remembered |
| `BlockChecker.CheckLinks` | block/block_hash_checker/main.go:803-818 | exactly the nodes whose parent hash is not the remembered one are marked, and the flag says whether there are any |
| `BlockChecker.CheckNode` | block/block_hash_checker/main.go:912-1006 | from the remembered entry and streak alone: the alarms the node's whole history calls for, and a streak that is its run length again |
| `BlockChecker.CheckAnomalies` | block/block_hash_checker/main.go:910-1007 | the same for all nodes of a compared block |
| `BlockChecker.CompareBlock` | block/block_hash_checker/main.go:730-834 | fields, marks and verdict of one block from the remembered hashes are those the table defines |
| `BlockChecker.ShortVerdict` | block/block_hash_checker/main.go:703-727 | a block with fewer than two valid answers is nil or skipped, never a mismatch, whatever its answers say |
| `BlockChecker.ScanShort` | block/block_hash_checker/main.go:703-727 | both early paths keep the scan state right for the next block |
| `BlockChecker.ScanFull` | block/block_hash_checker/main.go:730-1007 | and so does the long one |
| `BlockChecker.CheckBatch` | block/block_hash_checker/main.go:675-1010 | the one-pass scan reports, for every table of answers, exactly what the stateless definitions say: mismatches with marks and fields, matches, errors, skips, nil and empty blocks, alarms in order |
| `BlockChecker.MismatchReported` | block/block_hash_checker/main.go:834-836 | a mismatch is reported for a block exactly when two nodes answer and two answers are apart or a link fails; it shows every answer as it was, but for the marks |
| `BlockChecker.MarksAreBreaks` | block/block_hash_checker/main.go:791-832 | a node is marked at a block exactly when two nodes answer there, it answers there and right before, and its parent hash is not its hash before: no cascade, no comparison across a gap |
| `BlockChecker.EmptyListed` | block/block_hash_checker/main.go:731-736 | a block is listed as empty exactly when two nodes answer and the first that does has no transaction of either kind |
| `BlockChecker.ErrorsCounted` | block/block_hash_checker/main.go:683-685 | the error count is the number of blocks with some error, and the other four counts add up to the range |
| `BlockChecker.CleanMeansAgreement` | block/block_hash_checker/main.go:834-908 | no mismatch is reported exactly when at every compared block all valid nodes agree and no link is broken |
| `BlockChecker.TimeRaised` | block/block_hash_checker/main.go:941-949 | the timestamp alarm of a node at a block: both it and the last compared block before have a usable answer, and the time went back by more than 30 |
| `BlockChecker.GeiRaised` | block/block_hash_checker/main.go:951-956 | the index alarm: it is above zero and not above that of the last compared block |
| `BlockChecker.EpochFallRaised` | block/block_hash_checker/main.go:958-963 | the epoch alarm: above zero and below that of the last compared block |
| `BlockChecker.EpochJumpRaised` | block/block_hash_checker/main.go:964-968 | the jump alarm: the epoch after that of the last compared block is skipped, with uint64 wrap-around |
| `BlockChecker.HistoryIs` | block/block_hash_checker/main.go:910-1007 | what these checks remember of a node is its answers at the compared blocks, in order |
| `BlockChecker.FreezeRaised` | block/block_hash_checker/main.go:971-988 | a freeze is reported exactly for a compared block with user transactions whose node shows its state root and epoch at each of the five compared blocks right before |
| `Watch.ProbeSeesFieldsOnly` | block/block_hash_checker/main.go:2057-2060 | a probe of one block finds field differences and never a broken link |
| `Watch.BackwardSearch` | block/block_hash_checker/main.go:2050-2067 | without assuming any order among the probes: it ends at the mismatch it started from or at a block probed bad, and that is block 1 or has a block probed clean right before it; if bad blocks go on once they start, it is the first of them |
| `Watch.VotersMatch` | block/block_hash_checker/main.go:1953-1969 | agreement of the nodes other than the sync node, in any iteration order; an empty hash is overlooked when it comes first |
| `Watch.SyncNodeMismatchOnly` | block/block_hash_checker/main.go:1950-1973 | and over all mismatches of a batch |
| `Watch.ReadHeads` | block/block_hash_checker/main.go:1819-1845 | the lowest and highest head among the nodes that answered, and how many did |
| `Watch.RespondingCounts` | block/block_hash_checker/main.go:1885-1891 | the number of responding nodes is the number of heads that came in |
| `Watch.Watcher.CheckTwice` | block/block_hash_checker/main.go:1948-1981 | the result that counts is the first check's, unless it has mismatches and the sync node alone is off: then the second's |
| `Watch.SecondCheckIff` | block/block_hash_checker/main.go:1950-1980 | a batch with mismatches is checked again if in all of them the nodes other than m4 and node4 share a hash, and not if in one two of them differ |
| `Watch.Watcher.CheckChunks` | block/block_hash_checker/main.go:1940-1991 | batch j starts 20 j blocks in and is full unless the range ends in it, its rows are what the network answered at one time, and all are clean and cover the range; or the same up to the first batch with a mismatch, which is the last |
| `Watch.Watcher.CheckFrom` | block/block_hash_checker/main.go:1934-2067 | and after a mismatch the search back from it |
| `Watch.Watcher.WatchOnce` | block/block_hash_checker/main.go:1807-2067 | with fewer than two answers, or all heads at the largest uint64, nothing changes; a cursor past the lowest head goes back so that the pass checks that block anew, up to the highest head, and a stopped one leaves it right before; otherwise the pass starts after the cursor; in any case every block up to the cursor lies in a check without mismatch |
| `Watch.Watcher.RunWatch` | block/block_hash_checker/main.go:1776-1797 | over every sequence of passes: the cursor claims no block that no check cleared, and the watch stops with the first check that shows a mismatch and with no other |
| `Watch.SweepClears` | block/block_hash_checker/main.go:1940-1991 | every block of a clean pass is cleared by the batch it falls in |
| `Watch.LinksSeen` | block/block_hash_checker/main.go:1940-1991 | which links a pass looks at: those inside its batches and no other, not the one into its first block nor every twentieth after it |
| `Watch.SeenLinksHold` | block/block_hash_checker/main.go:791-832 | those links hold after a clean pass, for nodes valid on both sides of a compared block |
| `Watch.FirstLinkIsFree` | block/block_hash_checker/main.go:675-677 | and the link into the first block of a check is free: a clean check stays clean whatever parent hash its first block names |
| `Watch.SweepEndsIff` | block/block_hash_checker/main.go:1941-1941 | the batch counter of a clean pass ends past the highest head exactly when it does not wrap; otherwise it starts over below block 20 |
| `Watch.ClearedMeansAgreed` | block/block_hash_checker/main.go:2041-2041 | a cleared block was seen by some check with its valid answers in agreement, if there were two, and its links to the block before hold, if it was not first there |
| `Watch.WatchBlockByBlock` | block/block_hash_checker/main.go:1904-2041 | one new block a tick, answered alike or by fewer than two nodes: whatever the parent hashes, the watch never stops and the cursor keeps up |
| `Watch.BreaksGoUnseen` | block/block_hash_checker/main.go:1904-2041 | a chain in which every link is broken, watched to any height with every block cleared |
| `CircuitBreaker.Breaker.constructor` | pkg/network/circuit_breaker.go:61-84 | closed, all counters zero, with the given or the default configuration |
| `CircuitBreaker.Breaker.CanExecute` | pkg/network/circuit_breaker.go:87-115 | the answer and the whole next state |
| `CircuitBreaker.Breaker.RecordSuccess` | pkg/network/circuit_breaker.go:118-136 | the whole next state |
| `CircuitBreaker.Breaker.RecordFailure` | pkg/network/circuit_breaker.go:139-159 | the whole next state |
| `CircuitBreaker.Breaker.ResetAll` | pkg/network/circuit_breaker.go:187-195 | the whole next state: the totals and times stay |
| `CircuitBreaker.RunKeeps` | pkg/network/circuit_breaker.go:87-195 | every run: closed exactly while failures are below the maximum, requests zero outside half open and within the limit inside |
| `CircuitBreaker.SensibleConfig` | pkg/network/circuit_breaker.go:72-84 | that holds of every run exactly for the configurations with at least one failure and no negative request limit; the code checks neither |
| `CircuitBreaker.TotalsAddUp` | pkg/network/circuit_breaker.go:91-144 | every request is admitted or rejected, every report counted on its side |
| `CircuitBreaker.TripsExactly` | pkg/network/circuit_breaker.go:139-153 | a closed breaker opens exactly on the failure that makes the maximum in a row since the last success or reset |
| `CircuitBreaker.OpenLeavesBy` | pkg/network/circuit_breaker.go:96-104 | an open breaker leaves open only by a request more than the timeout after its last failure, to half open, or by a reset, to closed |
| `CircuitBreaker.ResetCloses` | pkg/network/circuit_breaker.go:187-195 | a reset closes with both counters zero from every state, and keeps totals and times |
| `CircuitBreaker.LastSuccessIs` | pkg/network/circuit_breaker.go:122-123 | the time of the last success is that of the last reported one |
| `CircuitBreaker.EpisodeIsBounded` | pkg/network/circuit_breaker.go:96-111 | a half-open spell lets through one call more than it counts, at most the limit plus one |
| `CircuitBreaker.HalfOpenEnds` | pkg/network/circuit_breaker.go:105-158 | half open is no dead end: when it is full some admitted call has yet to report, and either report ends the spell |
| `CircuitBreaker.LastFailureIsLatest` | pkg/network/circuit_breaker.go:139-145 | under a clock that does not run back the stored time is that of the latest failure |
| `CircuitBreaker.OpenWaitsOut` | pkg/network/circuit_breaker.go:96-104 | an open breaker admits exactly when every failure is more than the timeout past |
| `CircuitBreaker.ClosesEarlyIff` | pkg/network/circuit_breaker.go:105-132 | some run, with one report for each admitted call and a clock that does not run back, closes the breaker on fewer successes than the spell let calls through exactly when the request limit is at least one |
| `CircuitBreaker.ClosesExactly` | pkg/network/circuit_breaker.go:126-132 | a success closes exactly when the spell has let through all it may |
| `BlockStm.StatusArray.constructor` | aba_demo/main.go:16-18 | all statuses zero |
| `BlockStm.StatusArray.CompareAndSwap` | aba_demo/main.go:30-30 | succeeds exactly on the expected value, and then changes that one entry |
| `BlockStm.StatusArray.Try` | aba_demo/main.go:30-74 | the four swaps of the protocol |
| `BlockStm.RunInv` | aba_demo/main.go:27-80 | any number of workers, any interleaving: claims and releases alternate, a verdict comes last, and who holds a claim made it |
| `BlockStm.SwapsIff` | aba_demo/main.go:27-80 | which attempts swap: a claim on 1, a cascade on 2, a verdict on 2 by a worker that holds a claim; any other leaves the word alone |
| `BlockStm.StatusMeans` | aba_demo/main.go:27-80 | in every run the word is 3 exactly after a validation, 4 after an abort, 2 after a claim, and otherwise 1 |
| `BlockStm.ClaimsBalance` | aba_demo/main.go:27-80 | claims less releases less verdicts is one exactly while validating, and at most one verdict ever lands |
| `BlockStm.VerdictStays` | aba_demo/main.go:37-78 | after a verdict nothing swaps the word again |
| `BlockStm.StaleVerdict` | aba_demo/main.go:36-42 | a worker's verdict lands exactly when the word says validating; it decides a claim not its own exactly when a cascade and another worker's claim came in between |
| `BlockStm.DemoSchedule` | aba_demo/main.go:27-80 | the program's schedule is such a run, for any three workers |
| `BlockStm.Demo` | aba_demo/main.go:15-85 | played on the array it ends validated, with the stale verdict landed and the abort failed |
| `Nonces.Allocator.Allocate` | test-lagency/main.go:683-692 | the nonce and the whole next table, with uint64 wrap-around |
| `Nonces.NonceFits` | test-lagency/main.go:684-691 | a nonce is a uint64 and at least what the chain reported |
| `Nonces.NoncesIncrease` | test-lagency/main.go:683-692 | over every sequence of calls, reads failed or not: a nonce is above all earlier ones for its address exactly when none of those was the largest uint64 |
| `Nonces.NoncesHaveNoGaps` | test-lagency/main.go:684-691 | a nonce is what the chain reports, or one past the last for its address if that is more; the first is what the chain reports, or 0 |
| `Nonces.NoncesRepeat` | test-lagency/main.go:688-691 | three calls of which the last gets the nonce of the first |
| `Nonces.OtherAddressesDoNotMatter` | test-lagency/main.go:683-692 | over every sequence of calls, a nonce depends on the calls for its own address alone |
| `Latency.CalculateStats` | test-lagency/main.go:932-955 | no samples: zeros; otherwise extremes, percentiles and average as `Describes` says, on the samples themselves in any order |
| `Latency.SortedCopy` | test-lagency/main.go:941-943 | sorted, and a permutation of the samples |
| `Latency.WrappedSum` | test-lagency/main.go:948-951 | the int64 sum is the true sum wrapped once |
| `Latency.RankInSamples` | test-lagency/main.go:953-954 | the value at a sorted index has more than that many samples at or below it and at most that many below |
| `Latency.OrderDoesNotMatter` | test-lagency/main.go:941-951 | sums and ranks of a permutation are the same |
| `Latency.AverageBetween` | test-lagency/main.go:948-952 | the average lies between the extremes, negatives and truncation included, when the sum is an int64 |
| `Latency.AverageIsMeanIff` | test-lagency/main.go:948-952 | the average is the true mean, toward zero, exactly when the true sum is an int64 |
| `Latency.OverflowShown` | test-lagency/main.go:948-952 | two samples whose average comes out below both |
| `Versions.CompareFrom` | pkg/complier/complier.go:365-381 | the loop's result is the one decided by the first differing component, missing ones being zero |
| `Versions.CompareVersion` | pkg/complier/complier.go:356-382 | the loop computes that comparison for versions of any lengths |
| `Versions.DecidesOnce` | pkg/complier/complier.go:356-382 | there is one such result; zero means equal after zero padding |
| `Versions.CompareAntisymmetric` | pkg/complier/complier.go:374-381 | swapping the arguments flips the sign |
| `Versions.CompareTransitive` | pkg/complier/complier.go:374-381 | transitive, strictly if either step is strict: a total preorder |
| `Versions.SplitMeans` | pkg/complier/complier.go:357-358 | the parts joined by the dot give the version back, and none of them holds a dot |
| `Versions.LastComponent` | pkg/complier/complier.go:366-372 | a missing component counts as zero: one more component decides by its own sign |
| `Pragma.MatchIsLocal` | pkg/complier/complier.go:385-389 | a match depends on its own characters, so the replaced text matches again by itself |
| `Pragma.PragmaMatches` | pkg/complier/complier.go:385-389 | a pragma with any gaps of spaces is a match, with its version part as capture, whatever follows |
| `Pragma.SpacesAre` | pkg/complier/complier.go:385-398 | the spaces of the pattern and the blanks that are trimmed, by code point |
| `Pragma.CaretPragma` | pkg/complier/complier.go:396-401 | a caret pragma, with any gaps, is rewritten exactly when its version decides above the target component by component, and the rest of the text is adjusted after it |
| `Pragma.BoundPragma` | pkg/complier/complier.go:402-411 | a pragma with lower bounds likewise by its first bound of three numbers, whatever stands before or after it |
| `Pragma.PlainPragma` | pkg/complier/complier.go:396-413 | a pragma that neither leads with a caret nor has a bound with three numbers behind it is left alone |
| `Pragma.NoNewMatch` | pkg/complier/complier.go:385-388 | a text in front of a pragma starts a match or does not whatever that pragma goes on to say |
| `Pragma.UnmatchedStays` | pkg/complier/complier.go:388-414 | the rewriting opens no new match at an unmatched character |
| `Pragma.AdjustSettles` | pkg/complier/complier.go:384-415 | after the rewrite no pragma that the pattern finds asks for more than the target, in the sense of the three forms |
| `Pragma.AdjustIdempotent` | pkg/complier/complier.go:384-415 | rewriting twice is rewriting once |
| `Pragma.SettledTextUnchanged` | pkg/complier/complier.go:388-414 | a text is left alone exactly when nothing in it asks for more than the target |

## Left out

- Merkle.NextPowerOfTwo: does not model the floating-point logarithm and power of the code, but the integer they stand
  for.
- Merkle.ProofBinds: is about any hash into 32 bytes; Keccak itself is not part of this model, and a collision is
  exhibited rather than ruled out.
- Chunking.SplitFile: a chunk size of zero, on which the code panics, is not modelled.
- Download.RebuildsIff: offsets are not cut to int64, and the recorded length is the file's; requests and retries of one
  chunk appear as its success or failure.
- ReceiptWaits.ErrorsAccounted: the handler that brings errors waits while the channel is full; what else it then holds up
  is not modelled.
- ReceiptRouter.Router.HandleReceipt: one turn of the router loop is one step; the sends in it go to separate channels
  that only their own wait reads. The clock read in a turn is a parameter, and times are whole seconds.
- BlockChecker.CheckBatch: starts from the final answer of every node for every block. The fetching with its retries is
  not modelled; node names are distinct, as the maps keyed by name need. The text of a broken link is a constant (the
  code cuts both hashes to 18 characters, which panics on shorter ones), the text for a missing block stands for the
  checker's own, and the hexadecimal reader is a parameter. `ConsecutiveErrors` is written and never read, and
  `AggregateSignature` never compared.
- Watch.BackwardSearch: is stated from block 1 on, where the watch starts; from block 0 the code's unsigned upper bound
  would wrap.
- Watch.Watcher.WatchOnce: a pass whose batch counter would wrap is left out, because if clean it starts over and need
  not end (`Watch.SweepEndsIff`); only heads within 20 of the largest uint64 can do that, and `Watch.Watcher.RunWatch`
  leaves those out. The height warnings, the second fetch of the block found, and the report are not modelled.
- CircuitBreaker.Breaker.CanExecute: counters are unbounded integers and the clock is a parameter; the getters are left
  out.
- Nonces.Allocator.Allocate: the lock is the order of the calls; what the chain reports is a parameter.
- Latency.CalculateStats: the sort of the library is a sort of this model's own. The half for server latencies is the
  same code without the percentiles.
- Versions.CompareVersion: scanning a decimal from a component is a parameter.
- Pragma.AdjustIdempotent: the target is digits and dots, as the compiler prints it; invalid UTF-8 in the text is not
  modelled.
- The same Merkle and chunking code in the load test, which differs in its retries only.
- Network, HTTP, QUIC and JSON plumbing, signing, ABI packing, alerts, tables and log files: no property of their own.
- Deploy tools, scripts, BLS registration, the private chain and the root verifier: orchestration, or a simpler version
  of the watch cursor.
- The delivery of RPC and chain responses in the TCP client: the handler that ends a request is not in that file.
