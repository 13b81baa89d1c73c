# DEIChain in Dafny

DEIChain is a small concurrent blockchain. Generators put transactions into a fixed pool in shared
memory; miner threads reserve transactions there, search for a nonce and write the block to a named
pipe; validators check blocks, append them to a bounded ledger in shared memory and report to a
statistics process. This project models that behaviour in two layers and proves the two layers to fit
together.

**The protocol.** `Protocol.dfy` is a state machine over the pool's slots, the occupancy, the
semaphore count, the ledger, the pipe, one program counter with its held transactions for each miner
and each validator, and the statistics queue. A step is one mutex-protected section, one semaphore or
queue operation, or one stretch that is local to a process; 22 kinds of step may interleave in any
order. A state is reachable when some run leads to it from the start of a validly configured system; in
runs every identifier that a generator draws is a new one (`ProtocolDoubles` does without that). The
`Protocol*.dfy` files prove what every run keeps:

- no double commit, from an invariant that names one holder for every transaction (`ProtocolCustody`,
  `ProtocolSafety`). It has to: consumed and reserved slots keep their contents and still match the
  validators' pool check, so that check alone would let a transaction in twice;
- rewards are explained by ageing alone, from what the run's generators inserted (`ProtocolAgeing`,
  `ProtocolSafety`);
- the ledger is a chain or a tree (`ProtocolShape`), its capacity is exceeded by at most two blocks
  (`ProtocolCapacity`), rewards balance (`ProtocolRewards`), and what statistics has added up is what the
  validators have reported, in order (`ProtocolReports`);
- what the occupancy is a percentage of, what is decided by it, and how transactions age while they wait
  (`ProtocolPool`);
- every transaction has exactly one fate, and exactly which steps lose one (`ProtocolLoss`,
  `ProtocolFates`);
- inserts lose no wake-up (`ProtocolWakeups`), but returns notify nobody: when and for how long the
  system can stand still because of that (`ProtocolStalls`);
- identifiers of long-lived generators repeat, and then one can be committed twice: exactly when
  (`ProtocolDoubles`).

`ProtocolScenarios.dfy` and `ProtocolLossScenarios.dfy` build, for every configuration, runs that reach
the overrun by two blocks, a forked ledger, a system that stands still for ever, a loss of each kind, and
credit for a block that is in no ledger; and they prove which configurations have none. The pieces that
they and `ProtocolDoubles.dfy` put together are in `ProtocolBuilding.dfy`.

**The critical sections and kernels.** `Pool.dfy`, `SharedLedger.dfy`, `Pipe.dfy`, `Serialization.dfy`,
`Pow.dfy`, `Statistics.dfy`, `TxIds.dfy` and `Managing.dfy` are the loops of the program on arrays and
object fields, each proved against a function on values; the laws of the pool's functions are in
`PoolSpec.dfy`, those of the hash chain in `Chain.dfy`. The ledger segment is an array of bytes with
the addresses computed as the program computes them, proved to refine a sequence of blocks.

**Together.** `Mining.dfy` and `Validating.dfy` are one turn of a miner's loop and one iteration of a
validator's, as methods on the shared pool, the ledger segment and the pipe. `Mining.TurnIsRun` and
`Validating.IterationIsRun` prove that such a turn, when nothing interrupts it, is a run of the protocol;
the sections of the loops that others may interrupt are the protocol's steps by the methods' contracts.

The hash function is a parameter. Whatever is said of all runs holds for every function from bytes to 32
bytes. Most of the runs that are built need a miner that finds a nonce: for whatever tip and transactions
the first miner holds, there must be some timestamp with which its search succeeds, and not with a block
whose hash is INITIAL_HASH (`ProtocolBuilding.Mineable`); the runs that end in a stall, a refused insert
or a miner that gives up need nothing of the hash. That the tip hash determines the history is stated
without assuming it collision-free: either the histories are equal, or two of their own blocks are a
collision. A block the program builds carries `transactions_per_block` transactions; the array and its
count are one sequence in `Data.Block`.

Where the repository's README and the code differ, the model follows the code:

- the README says that transactions of a block that cannot be validated are returned to the pool; a
  block refused for its previous hash returns nothing (`ProtocolLoss.LinkRefusalLoses`), and one refused
  by the pool check returns only the transactions before the first that is missing
  (`ProtocolLoss.PoolRefusalReturnsIff`); it also says so of a failed search, but a transaction whose
  slot was reused meanwhile is lost (`ProtocolLoss.MinerGiveBackReturnsIff`). All causes of loss are in
  `ProtocolFates.LostInRunIff`, and all of them occur (`ProtocolLossScenarios.LossesHappenIff`);
- it has the notification semaphore announce new transactions and does not say what announces returned
  ones: nothing does, and every system can come to a halt with a full pool
  (`ProtocolScenarios.StallReachable`);
- it says only one validator writes at a time and the ledger is a sequential list; the link check, the
  capacity test and the append are separate, so that validators fork the chain
  (`ProtocolScenarios.ForkAttainedIff`) and overrun the capacity (`ProtocolScenarios.OverrunAttainedIff`),
  which then overwrites block 0 (`SharedLedger.OverflowHitsBlockZero`);
- it says validators are created and terminated with the occupancy; the count of active ones is never
  lowered, so at most two are created in the life of the system (`Managing.ChildrenAreFew`);
- a validated block that finds the ledger full is credited all the same (`ProtocolRewards`,
  `ProtocolLossScenarios.OverpaidIff`);
- a comment (data_structures.h:40) calls the transaction's identifier unique; snprintf cuts it to 15 characters,
  and a generator that lives long enough gets one committed twice (`ProtocolDoubles.DoubleCommitIff`).

## Model

| member | source | states |
|---|---|---|
| `Serialization.SerializeBlock` | pow.c:20-89 | The buffer has 152 + 32 n bytes, every copy lands inside it, and it holds what the next row says. |
| `Serialization.SerializedFields` | pow.c:41-86 | Which bytes hold which field and which transaction; the last seven are zero. |
| `Serialization.ParseInvertsBody` | pow.c:41-86 | The copied bytes determine every field and every transaction of the block, whatever bytes follow. |
| `Serialization.SerializeInjective` | pow.c:29-86 | Two blocks with equal buffers are equal in every field and transaction, even if their transaction counts were different to begin with. |
| `Pow.ComputeSha256` | pow.c:92-126 | For any hash function: character 2i of the output is the hex digit of the upper half of byte i of the digest of the serialised block, character 2i + 1 that of its lower half, in lower case; then a NUL. |
| `Pow.HexInjective` | pow.c:118-122 | Different digests print differently. |
| `Pow.CheckDifficulty` | pow.c:129-166 | Up to reward 1 the first two characters must be '0', for reward 2 the first three, from reward 3 on the first four, and nothing else. |
| `Pow.DifficultyIsABound` | pow.c:159-165 | z leading zero characters is the same as the digest, read as a big-endian number, being below 16 to the power 64 - z (for digests of any length). |
| `Pow.HigherRewardIsHarder` | pow.c:129-182 | A digest accepted for a reward is accepted for every lower one, and the numeric bounds are ordered the same way. |
| `Pow.MaxReward` | pow.c:189-196 | The result is at least 0 and every reward, and is attained unless it is 0. |
| `Pow.VerifyNonce` | pow.c:185-203 | True exactly when the digest, as a big-endian number, is below 16 to the 62nd, to the 61st if some transaction has a reward of 2 or more, and to the 60th if some has 3 or more. |
| `Pow.AcceptsByBytes` | pow.c:141-202 | The same test on bytes: the first is 0, the second below 16 if some reward is at least 2, and 0 if some is at least 3. |
| `Pow.SearchIsDecided` | pow.c:236-269 | Either every nonce below POW_MAX_OPS fails, or there is exactly one least nonce that verify_nonce accepts. |
| `Pow.TransactionBlock.ProofOfWork` | pow.c:206-270 | Terminates; reports an error exactly when verify_nonce refuses every nonce below 10000000; otherwise leaves the least nonce that it accepts, with operations = nonce + 1 and the matching hash; changes nothing but the nonce. |
| `TxIds.IdField` | txgen.c:20 | As a C string the identifier field reads as the text cut to 15 characters, whatever the stack held before. |
| `TxIds.FullIdReads` | txgen.c:20 | The text taken apart: "TX-", digits that read as the process id, a dash, digits that read as the counter. |
| `TxIds.IdTextCut` | txgen.c:20 | A text of at most 15 characters is kept whole, a longer one is its first 15. |
| `TxIds.IdsAreFresh` | txgen.c:20 | When the digits of process id and counter are at most 11 in both, equal identifiers mean equal process id and equal counter. |
| `TxIds.DistinctUpToIff` | txgen.c:20 | The first n + 1 identifiers of a generator are all different if and only if the digits of its process id and of n are at most 11 together. |
| `TxIds.Generator.GenerateTransaction` | txgen.c:16-32 | Advances the counter by one, names the transaction by the old counter, and gives it the requested reward if that is 1 to 3 and one more than rand() modulo 3 otherwise. |
| `PoolSpec.InsertAddsOne` | txgen.c:40-90 | A successful insert makes exactly one more slot live, a refused one none. |
| `PoolSpec.InsertIff` | txgen.c:40-90 | An insert is refused as full if and only if no slot is empty, as a duplicate if and only if one is and a live slot shows the identifier; otherwise the first empty slot gets the transaction with age 0. Nothing else changes. |
| `PoolSpec.OccupancyMeans` | txgen.c:67-74 | The occupancy is the percentage of slots that are not empty, rounded down. |
| `PoolSpec.Thresholds` | validator.c:278-298 | For such a percentage: at least 80 means at least four fifths of the slots, at least 60 three fifths, at most 40 less than 41 hundredths. |
| `PoolSpec.PickedAreDistinct` | miner.c:67-77 | Selected transactions have pairwise different identifiers, even from a pool with duplicates. |
| `PoolSpec.ReserveTakesFirst` | miner.c:48-109 | For any pool: select_transactions leaves it alone exactly when the live slots show fewer than k different identifiers; otherwise it takes the first k slots that are the first live ones of their identifiers, in index order, and touches no other slot. |
| `PoolSpec.RollbackIff` | miner.c:93-109 | The rollback is reached if and only if at least k slots are live but they show fewer than k different identifiers; never with distinct ones. |
| `PoolSpec.ReserveRemovesK` | miner.c:64-87 | A successful selection makes exactly k fewer slots live. |
| `PoolSpec.ReturnFirstIsReturnAll` | validator.c:548-555 | With unique identifiers the validator's way of returning (first match for each transaction) and the miner's (every slot that matches) give the same pool. |
| `PoolSpec.RemoveIsMatching` | validator.c:200-211 | With unique identifiers removal frees exactly the slots that show one of the block's transactions. |
| `PoolSpec.RemoveFirstAt` | validator.c:200-211 | For any pool, duplicates included: a slot is freed, with age 0, if and only if it is the first with its identifier and that is one of the block's. |
| `PoolSpec.ReturnFirstAt` | validator.c:548-555 | For any pool: a slot becomes live, with its age, if and only if it is the first with its identifier and that is one of the block's. |
| `PoolSpec.ReturnAllAt` | miner.c:345-355 | For any pool: a slot becomes live, with its age, if and only if its identifier is one of the miner's. |
| `PoolSpec.ReturnUndoesReserve` | miner.c:345-355 | Returning straight after a successful selection restores the pool exactly, by the miner's loop and by the validator's. |
| `PoolSpec.FoundPrefixMeaning` | validator.c:97-122 | The check passes over transactions that have a name and a slot, and stops at the first that lacks one. |
| `PoolSpec.CheckAcceptsIff` | validator.c:97-140 | The pool check succeeds if and only if every transaction is named and shown by some slot, live or not. |
| `PoolSpec.AgedTimes` | validator.c:238-248 | After n ageings of any pool each live slot is n older and has one more reward for each multiple of 50 that its age has reached; its other fields and the empty slots are as they were. |
| `Pool.TransactionPool.constructor` | controller.c:107-127 | Every slot starts empty with age 0 and the occupancy is 0. |
| `Pool.TransactionPool.CountOccupied` | miner.c:49-54 | Counts the live slots. |
| `Pool.TransactionPool.AddTransaction` | txgen.c:35-91 | Does to the slots what the protocol's insert does; only on success the occupancy becomes the percentage of slots that are not empty, rounded down. |
| `Pool.TransactionPool.Scan` | miner.c:64-87 | The loop's two arrays hold the chosen indices and copies, and exactly the chosen slots are marked. |
| `Pool.TransactionPool.UndoReservations` | miner.c:97-104 | The rollback as a section of its own: whatever the pool looks like by then, exactly the recorded slots become live. |
| `Pool.TransactionPool.CountAndScan` | miner.c:45-90 | The first section: nothing changes when fewer than k slots are live; otherwise the arrays hold the chosen indices and copies, and exactly those slots are marked. |
| `Pool.TransactionPool.SelectTransactions` | miner.c:45-113 | When nobody comes between its two sections, it computes the protocol's selection: all k transactions with their slots marked, or nothing and an untouched pool. |
| `Pool.TransactionPool.ReturnTransactions` | miner.c:345-355 | Makes live again exactly the slots whose identifier is among the transactions'. |
| `Pool.TransactionPool.Locate` | validator.c:92-122 | Records for each leading transaction that has a name and a slot the first such slot, and -1 for all others. |
| `Pool.TransactionPool.CheckTransactions` | validator.c:80-140 | Computes the protocol's pool check, giving back the located slots when it fails. |
| `Pool.TransactionPool.RemoveTransactions` | validator.c:196-225 | Computes the protocol's removal; the occupancy becomes the percentage of slots that are not empty, rounded down. |
| `Pool.TransactionPool.ReturnRefused` | validator.c:545-566 | Computes the protocol's return of a block that found the ledger full; the occupancy becomes the percentage of slots that are not empty, rounded down. |
| `Pool.TransactionPool.AgeTransactions` | validator.c:228-255 | Does nothing within the same second; otherwise every live slot is one older, with one more reward if its age has come to a multiple of 50, and empty slots are as they were. |
| `Chain.InitialIsHex` | data_structures.h:35 | The fixed first hash is the hex form of 32 bytes, so that a block's hash could be it. |
| `Chain.ChainAppend` | validator.c:58-76 | A ledger extended by a block is a proper chain if and only if it was one and the block names its tip. |
| `Chain.TreeAppend` | validator.c:58-76 | Appending a block that names INITIAL_HASH or the hash of some ledger block keeps the ledger a tree. |
| `Chain.ClashIsCollision` | pow.c:41-126 | Two different blocks with the same hash string are a collision of the hash function on their bytes. |
| `Chain.TipDeterminesHistory` | pow.c:92-126 | Two proper chains with the same tip hash agree in every field of every block and transaction, unless two of their own blocks collide or, for different lengths, a block hashes to INITIAL_HASH. |
| `Pipe.EncodeFields` | miner.c:151-177 | Which bytes of a message hold which field and which transaction. |
| `Pipe.EncodeAllAppend` | miner.c:151-177 | Writing more messages appends their bytes. |
| `Pipe.DecodeInvertsEncode` | validator.c:480-519 | A well-formed message is read back from the front of any stream, with the rest untouched. |
| `Pipe.DecodeAllInvertsEncodeAll` | validator.c:451-519 | The concatenation of any list of well-formed messages splits back into exactly that list. |
| `Pipe.DecodeFields` | validator.c:480-517 | Which bytes make up which field, that the last byte of both string fields is replaced by a NUL, and that counts outside 1 to k and short streams are refused. |
| `Pipe.PipeEnd.Send` | miner.c:151-177 | The seven writes append exactly one encoded message. |
| `Pipe.FullReadTakes` | validator.c:459-478 | What read_fully returns is how many bytes it has taken from the front of the stream, never more than asked for. |
| `Pipe.FullReadIsExact` | validator.c:459-478 | For every pattern of chunk sizes and EAGAIN results: a full read has met no end of file or error, and one that is not full has stopped at its first end of file or error, or because nothing more comes. |
| `Pipe.PipeEnd.ReadFully` | validator.c:459-478 | The loop returns, consumes and stores exactly that, the bytes in order. |
| `Pipe.ReceivedIsDecoded` | validator.c:451-519 | A message that is returned is the one at the front of the stream, and exactly its bytes are consumed. |
| `Pipe.NothingReceived` | validator.c:451-519 | Nothing is returned only if the first read() was short, reading was cut off, or the count is outside 1 to k; in that last case exactly the id and the header are consumed and the transactions are left in the pipe. |
| `Pipe.PipeEnd.Receive` | validator.c:451-519 | The sequence of reads returns and consumes exactly what the two statements above are about. |
| `SharedLedger.OffsetsExactIff` | validator.c:169 | The transaction offsets computed in 32-bit arithmetic are the intended ones for every block if and only if (blockchain_blocks - 1) * transactions_per_block fits an int. |
| `SharedLedger.Addresses` | controller.c:133-136 | Entries, transaction regions and the segment size in plain numbers: a header of 40 bytes, 168 for each entry, 32 for each transaction. |
| `SharedLedger.Layout` | validator.c:163-170 | Under that same condition entries and transaction regions of different blocks are disjoint and inside the segment. |
| `SharedLedger.Inside` | controller.c:133-136 | Each entry and each region fits the allocated size, entries before regions. |
| `SharedLedger.AppendStores` | validator.c:172-184 | After the four copies the stored block equals the received one field for field, and its pointer, count and flag are those of its own region. |
| `SharedLedger.AppendKeeps` | validator.c:163-184 | No earlier block, pointer, count or flag changes. |
| `SharedLedger.AppendRefines` | validator.c:162-187 | The segment stands for a sequence of blocks, and the four copies append exactly one block to it. |
| `SharedLedger.OverflowHitsTransactions` | validator.c:155-187 | Every append at num_blocks >= blockchain_blocks, all four copies: its entry lands among the stored transactions, with exactly the bytes of the new struct, pointer and flag, no other entry and no byte beside it changes, and its own transactions and the pointer to them are outside the segment. |
| `SharedLedger.OverflowHitsBlockZero` | validator.c:155-187 | The append at num_blocks = blockchain_blocks gives block 0's first transaction the start of the new block's id as identifier; block 0 is then no longer what was stored, unless the two begin alike. |
| `Mining.OverflowAlwaysCorrupts` | miner.c:125 | They never do: a generated identifier and a block id differ in their first character. |
| `SharedLedger.Ledger.constructor` | controller.c:133-152 | A segment of the computed size stands for the empty ledger. |
| `SharedLedger.Ledger.AddBlock` | validator.c:153-193 | Returns -1 and changes nothing when full; otherwise the sequence of blocks grows by exactly the given block. |
| `SharedLedger.Ledger.Load` | pow.c:76-77 | Reading a block through its stored pointer and count gives the block of the sequence. |
| `SharedLedger.Ledger.TipHash` | miner.c:212-224 | The hash computed from the segment is the tip of the sequence, INITIAL_HASH when there is no block. |
| `SharedLedger.Ledger.Dump` | controller.c:314-341 | Recomputing every address instead of following the pointers shows the same blocks. |
| `Statistics.FoldIsExact` | statistics.c:165-179 | After any messages each miner's counts are those of its valid and invalid messages, its credits the rewards of its valid ones, and its average times its count the sum of its elapsed times. |
| `Statistics.TotalsOfMessages` | statistics.c:57-92 | The printed totals, in terms of the messages of known miners: how many were valid, how many invalid, the rewards of the valid ones, and total time and total blocks, and so their quotient, over all of them. |
| `Statistics.ArrivalOrderIsIrrelevant` | statistics.c:154-179 | Messages arriving in another order leave the same table. |
| `Statistics.Collector.Receive` | statistics.c:165-179 | Updating the five arrays in place does what the fold does to one message, and ignores unknown miner ids. |
| `Statistics.Collector.PrintTotals` | statistics.c:57-78 | The printed totals are the sums over the miners of valid and invalid blocks and credits; the total time adds up average times blocks. |
| `ProtocolCustody.CustodyStep` | validator.c:97-225 | Every step of every process keeps each transaction with exactly one holder: a live slot, a miner, the pipe, a validator, or the ledger; the slot of a held one is empty. |
| `ProtocolCustody.SlotsInsert` | txgen.c:41-64 | Inserting a new identifier, even over a reserved slot, never puts an identifier into two slots and never makes a held one live. |
| `ProtocolCustody.SlotsReserve` | miner.c:65-87 | What a miner selects was held by the pool, is a full block of distinct transactions, and is no longer live. |
| `ProtocolCustody.ReturnFromValidator` | validator.c:128-136 | Giving back a validator's transactions makes live only what that validator held. |
| `ProtocolCustody.RemoveKeeps` | validator.c:196-225 | Removing a block's transactions changes nobody's holding. |
| `ProtocolSafety.NoDoubleCommit` | validator.c:153-225 | In every run of any number of generators, miners and up to three validators, with every identifier drawn a new one, no transaction identifier occurs twice in the ledger. |
| `ProtocolSafety.InFlightIsReserved` | miner.c:65-87 | A block between selection and ledger carries exactly transactions_per_block distinct transactions; none of them is committed and no live slot offers one. |
| `ProtocolSafety.HoldersAreDisjoint` | miner.c:345-392 | No two of all miners, queued messages and validators have a transaction in common. |
| `ProtocolSafety.PoolIsSound` | txgen.c:50-64 | In every run no transaction is in two slots, and live slots are named. |
| `ProtocolSafety.SelectionInRuns` | miner.c:48-109 | In every run selection succeeds exactly when enough slots are live, the rollback branch is never taken, and an immediate return restores the pool. |
| `ProtocolSafety.RemoveSparesWaiting` | validator.c:196-211 | In every run removal frees exactly the slots that still show the block's transactions, and no live slot among them. |
| `ProtocolSafety.RecordsAreTrue` | txgen.c:60-64 | Every transaction on record as inserted was generated and put into the pool, with that identifier, reward, value and timestamp, by a step of the run. |
| `ProtocolSafety.AgeingInvariant` | validator.c:238-248 | In every run each live slot shows the transaction that a generator's step of this run inserted, with one more reward per 50 of its age; each copy in flight and each committed transaction is such a transaction with nothing changed but a reward raised by waiting; a copy in flight equals what any slot still shows under its identifier. |
| `ProtocolWakeups.NoLostWakeup` | txgen.c:60-80 | In every run the live slots are at most the pending notifications (permits, woken miners yet to select, posts to come) + (k - 1) + transactions ever returned; so if nothing was ever returned and nothing is pending, fewer than k wait. Returned ones are not notified. |
| `ProtocolWakeups.NotifiedStep` | miner.c:200-234 | Every step of every process keeps that bound. |
| `ProtocolPool.ReturnedCounts` | miner.c:345-355 | The count of returned transactions grows by exactly the slots that a return makes live, and in no other step. |
| `ProtocolPool.OccupancyStep` | txgen.c:67-74 | An insert, a removal and the return from a full ledger leave the percentage of live slots, rounded down; every other step leaves the occupancy as it is. |
| `ProtocolPool.ManagedByLiveSlots` | validator.c:278-298 | While it is that percentage, a validator can be created from four fifths, or three fifths, of live slots on, and one can leave below 41 hundredths. |
| `ProtocolPool.WaitingAges` | validator.c:238-248 | Over every run: a slot that stays live has aged by the number of ageing steps in the run, with one more reward for each multiple of 50, and shows the same transaction otherwise. |
| `ProtocolCapacity.CapacityUnderRaces` | validator.c:153-190 | In every run the ledger exceeds its capacity by at most the number of extra validators, of which there are at most two; a lone validator never exceeds it. |
| `ProtocolCapacity.OverrunByAppendsIff` | validator.c:155-187 | From any state, appends alone can push the ledger past its capacity if and only if its blocks and the validators past the capacity test are together more than the capacity. |
| `ProtocolCapacity.TwoClearedOverrun` | validator.c:155-187 | The smallest case: from a state with two validators past the test for the last place, both append. ProtocolScenarios.ClearThree reaches such states, with three. |
| `ProtocolScenarios.ClearThree` | validator.c:153-160 | Under every hash with which the first miner can find a nonce at some time (one that does not hash to INITIAL_HASH), for every configuration whose pool can hold a block and every number of blocks below the capacity, some run leads to a ledger of that many blocks with three validators past the capacity test for the same tip. |
| `ProtocolScenarios.OverrunAttainedIff` | validator.c:153-190 | Under every such hash, for every configuration and any generator whose identifiers last, some run ends with two blocks more than the capacity if and only if a block fits into the pool. |
| `ProtocolScenarios.ForkAttainedIff` | validator.c:56-78 | Under every such hash, some run ends with a ledger that is not a chain if and only if a block fits into the pool. |
| `ProtocolStalls.JammedForever` | miner.c:345-355 | A full pool of live slots with no notification pending stays so in every continuation: the same transactions wait and no miner is woken. |
| `ProtocolStalls.WakesAgainIff` | miner.c:199-208 | With no notification pending, and a new identifier to be drawn, another notification is possible if and only if some slot is empty. |
| `ProtocolStalls.StalledForever` | miner.c:378-392 | If besides nothing is on its way, nothing changes any more: in every continuation the ledger stays as it is. |
| `ProtocolScenarios.StallReachable` | miner.c:378-392 | Every system, with any configuration and any hash, can reach such a state with a full pool. |
| `ProtocolShape.LedgerShape` | validator.c:49-78 | In every run the blocks as they were appended form a tree and each passes verify_nonce; while only one validator has run they form a chain from INITIAL_HASH. (Past the capacity the segment no longer holds block 0 as appended.) |
| `ProtocolShape.AppendKeepsChainIff` | validator.c:160-187 | An append keeps a chain a chain if and only if the block names the tip at that moment; for a lone validator it always does. |
| `ProtocolShape.SameTipForks` | validator.c:56-78 | From a state in which two validators have checked against the same tip both can append, and then the ledger is no chain unless a block names its own hash; ProtocolScenarios.ForkAttainedIff reaches such states. |
| `ProtocolShape.PipeCarriesProperBlocks` | miner.c:366-378 | In every run every queued block passes verify_nonce and, as long as their integer fields fit their C types, the bytes in the pipe decode to exactly the queue. |
| `ProtocolShape.ReceivedBlocksPassPow` | validator.c:49-53 | In every run the proof-of-work test never refuses a received block: only its link decides. |
| `Protocol.RewardSumAdds` | validator.c:332-341 | The reward of a list of transactions is that of a single one, and adds up over parts. |
| `ProtocolRewards.RewardAccounting` | validator.c:533-574 | When no validator is mid-iteration, for every set of miners: credits plus rewards of queued valid messages equal the reward fields of the transactions in their ledger blocks plus in their validated blocks refused because the ledger was full. |
| `ProtocolRewards.TotalRewardAccounting` | statistics.c:165-174 | The same over all miners together: the total credits that would be printed plus queued rewards, against the reward fields of all ledger transactions and of the refused blocks. |
| `ProtocolReports.TalliesOfReports` | statistics.c:154-179 | In every run the queued reports are the last of those that validators have sent, and the tallies are what all earlier ones add up to; each report carries the reward fields of its block's transactions if it is valid. |
| `ProtocolLoss.GoneForever` | validator.c:63-68 | A used identifier that no live slot shows and nobody carries never comes back, and whether it is committed is settled. |
| `ProtocolLoss.CommittedForever` | validator.c:160-225 | A committed transaction stays committed and out of circulation in every continuation of every run. |
| `ProtocolLoss.LinkRefusalLoses` | validator.c:63-74 | The transactions of a block refused for its previous hash are lost: in no continuation are they live or committed. |
| `ProtocolLoss.PoolRefusalReturnsIff` | validator.c:97-137 | A block refused by the pool check gives back exactly the transactions before the first one without a slot; the others are lost. |
| `ProtocolLoss.FullLedgerReturnsIff` | validator.c:545-555 | A block that finds the ledger full gives back exactly the transactions that some slot still shows; those whose slot was reused are lost. |
| `ProtocolLoss.MinerGiveBackReturnsIff` | miner.c:345-355 | A miner whose search or sending failed gets back exactly the transactions that some slot still shows; those whose slot was reused are lost. |
| `ProtocolFates.LostByStepIff` | txgen.c:88-90 | A step loses a transaction if and only if it is an insert that finds no empty slot, a refusal of the previous hash of its block, a pool check that stops at or before it, or a return by a miner or from a full ledger when no slot shows it any more. |
| `ProtocolFates.LostInRunIff` | validator.c:63-68 | At the end of a run a transaction is lost if and only if one of those steps occurred for it in the run. |
| `ProtocolFates.OneFate` | validator.c:97-225 | In every run each identifier ever used is exactly one of waiting, on its way, committed, or lost. |
| `ProtocolLossScenarios.LossesHappenIff` | validator.c:63-68 | Every cause of loss occurs in some run: a refused insert in every system, and, under every hash with which the first miner can find a nonce at some time, a refused link, a failed pool check, a full ledger and a miner that gives up each in exactly those whose pool can hold a block. |
| `ProtocolLossScenarios.OverpaidIff` | validator.c:533-574 | Under every such hash, some run credits miners, with no validator mid-iteration, for more than the ledger holds if and only if the pool can hold a block. |
| `ProtocolDoubles.ReachableIffDistinct` | txgen.c:16-32 | The reachable states, which all other run theorems are about, are exactly the states that the program reaches, with generators free to repeat themselves, in which the identifiers drawn so far are all different. |
| `ProtocolDoubles.DistinctCommitsOnce` | txgen.c:50-64 | As long as they are different, the program commits none twice. |
| `ProtocolDoubles.DoubleCommitIff` | txgen.c:20 | With every generator limited to a share of draws, and one that can keep the pool full: some run of the program commits an identifier twice if and only if a block fits into the pool and the digits of some generator's process id and of its last counter are more than 11 together. |
| `ProtocolDoubles.SecondPending` | txgen.c:50-64 | How: from any state of a run in which the first of two equal identifiers is in a block past all tests, the second is inserted, mined and cleared by another validator, because only live slots are compared. |
| `Mining.CreateBlock` | miner.c:116-135 | The block carries the transactions, the time and nonce 0, names the given hash as a C string, is terminated, and its identifier is "BLOCK-", the miner's number, a dash and the ledger length. |
| `Protocol.BlockIdReads` | miner.c:125 | That identifier read back: both numbers are recovered from their digits. |
| `Mining.MineBlock` | miner.c:313-364 | Fails exactly when neither the first nor the second timestamp has a nonce; otherwise leaves the first draft with its least nonce or, if it has none, the second with its own, and verify_nonce accepts it. |
| `Mining.NonceIsReset` | pow.c:233-234 | The nonce a failed search leaves behind has no influence on the next one. |
| `Mining.TakeTurn` | miner.c:212-392 | One turn of the loop on the shared pool, segment and pipe: nothing selected and nothing changed, a mined block sent and its slots reserved, or the transactions given back and nothing sent. |
| `Mining.GivingBackRestoresPool` | miner.c:341-363 | An uninterrupted turn that sends nothing leaves the pool exactly as it was; interrupted ones are ProtocolLoss.MinerGiveBackReturnsIff. |
| `Mining.MinedBlockArrives` | validator.c:480-519 | A mined block, from the first search or the retry, is received with every field intact despite the forced terminators, and still passes verify_nonce. |
| `Mining.TurnIsRun` | miner.c:198-407 | Every uninterrupted turn is a run of the protocol's steps with the same effect on pool and pipe. |
| `Validating.ValidateBlock` | validator.c:42-150 | Valid if and only if the nonce is good, the block names the tip, and every transaction is named and shown by a slot; the pool changes only for a block refused for its transactions. |
| `Validating.MakeStatistics` | validator.c:319-342 | Of the message's fields, the miner, validity, time and rewards: the sum of the transactions' reward fields for a valid block and 0 for an invalid one. |
| `Validating.HandleBlock` | validator.c:528-574 | The whole treatment of a received block on pool, segment and report, including that a valid block that finds the ledger full is still reported as valid. |
| `Validating.HandleKeepsChain` | validator.c:533-567 | Without another validator in between, handling a block keeps a chain a chain and within capacity. |
| `Validating.UncontendedBlockIsAccepted` | validator.c:528-567 | A block sent by a miner and handled before anything else happens is always valid; with room it is appended and its slots are spent, without room the pool is what it was before the miner began. |
| `Validating.Iterate` | validator.c:451-591 | One pass of the loop takes from the pipe exactly what the reads take; a message received is handled, and without one pool and ledger stay as they are. |
| `Validating.IterationIsRun` | validator.c:451-574 | Every uninterrupted iteration is a run of the protocol's steps with the effects HandleBlock has. |
| `Validating.StreamIsReady` | validator.c:451-519 | In every run, and as long as the integer fields of the first queued message fit their C types, what the next iteration decodes is that message, with exactly transactions_per_block transactions. |
| `Managing.Process.ManageValidators` | validator.c:258-316 | Only the first validator forks, at most once in five seconds: at 80 per cent or more with fewer than three active, from 60 to below 80 with fewer than two; the numbers and counters that parent and new process then have. |
| `Managing.Process.Terminates` | validator.c:391-401 | Every other validator ends itself at 40 per cent or less. |
| `Managing.ChildrenAreFew` | validator.c:278-315 | Whatever the occupancy does, at most two validators are ever created, and a second one has number 3. |
| `Managing.NumbersRepeatIff` | validator.c:279-302 | Two creations, the second at 80 per cent or more, give the same number if and only if the first was at 80 per cent or more as well. |

## Left out

- SHA-256 and OpenSSL: the hash is a parameter of every statement about it.
- Repeated identifiers in runs: the run theorems are about runs in which every identifier drawn is new. `ProtocolDoubles.ReachableIffDistinct` proves that these are exactly the runs of the program in which no identifier is drawn twice, `TxIds.DistinctUpToIff` when that is so of one generator's identifiers, and `ProtocolDoubles.DoubleCommitIff` when a run of the program without that condition commits one twice; for a process id of a single digit the counter would pass the range of an int before its identifiers repeat. Reuse of process ids is not modelled.
- ProtocolScenarios.ClearThree: needs a hash under which some timestamp serves the first miner (`ProtocolBuilding.Mineable`), and one generator whose identifiers last for the whole run; so do the other runs that are built.
- Messages mixed up in the pipe: a message is written whole or not at all and received by one validator; the program writes it in seven calls, and several validators read from one pipe.
- The ledger of the run layer is the sequence of blocks as appended. Up to its capacity the memory segment holds exactly that sequence (`SharedLedger.AppendRefines`); beyond it, which takes several validators, the segment no longer does (`SharedLedger.OverflowHitsBlockZero`), and the run theorems do not describe its bytes.
- SharedLedger.Ledger.AddBlock: requires a block of exactly transactions_per_block transactions. The code copies config->transactions_per_block of them whatever the block says, which for a shorter block reads past its allocated memory (validator.c:176-178); no run appends one (`ProtocolSafety.InFlightIsReserved`).
- Validating.HandleBlock: the same requirement; removal reads as many identifiers (validator.c:201).
- Validating.Iterate: the same requirement of a message it receives; the receiving code lets shorter ones through (validator.c:488), miners never send them (`Validating.StreamIsReady`).
- Validating.MakeStatistics: transaction_count and total_value of the message are not modelled; nobody reads them.
- Validating.StreamIsReady: assumes that the first message's integer fields fit their C types, since rewards and timestamps are unbounded in runs.
- ProtocolShape.PipeCarriesProperBlocks: the same assumption for every queued message.
- ProtocolShape.LedgerShape: speaks of the blocks as appended; for the segment see the line on the ledger of the run layer.
- The branches for a block whose transactions pointer is NULL (pow.c:81-86, pow.c:197-199): the program never hashes such a block.
- Failures of malloc, calloc, strdup and msgsnd, with the branches they lead to; signals, shutdown and the cleanup code; creation and attachment of shared memory, semaphores, queue and pipe; fork and exec beyond the counters in `Managing`.
- Wall-clock gating in runs: a step that the program takes at most once per second or per five seconds may be taken at any time, which only adds runs. In the runs that the scenarios build, both extra validators are created before any validator handles a block, as manage_validators would at a full pool; for the rest those runs rely on nothing but the order in which processes take their steps. The scheduler is arbitrary: no progress is proved.
- Integer widths of rewards, ages, counters and tallies: they are unbounded integers. Widths are modelled where bytes or addresses are computed; theorems about bytes assume that the fields fit.
- Floating point: `value` is an opaque 32-bit pattern that is only copied and hashed, the total_value of a statistics message is not modelled, elapsed times are reals.
- The address stored as transactions pointer is the offset of the region in the segment, as if every process attached it at address 0.
- Pool.TransactionPool.SelectTransactions: its two critical sections are taken without a break; each has a method of its own (`CountAndScan`, `UndoReservations`), and the second is not reached in any run (`ProtocolSafety.SelectionInRuns`).
- The re-check of selected transactions in miner.c:238-252: it only duplicates strings.
- Statistics of a miner whose id is outside the table are ignored, as in the code; no run produces one.
- Reading of the configuration file: runs start from a configuration that passes the positivity test of read_config.
- Logging, printing and the line buffers of the dump and of the printed statistics.
- Pipe.PipeEnd.Receive: the outcomes of read() are a finite list chosen in advance, and an exhausted list reads as end of file, so that waiting for ever on EAGAIN is not modelled.
