# Verified models of Hivecoin's stateful cores

This project models parts of the Hivecoin node, a Bitcoin-style full node written in C++, and proves
properties of the models with Dafny 4.11. `dafny verify dfyconfig.toml` checks everything.

| files | component |
|---|---|
| `Coins.dfy` | the cache stack of unspent coins (`src/coins.cpp`) |
| `AddrState.dfy`, `AddrOps.dfy`, `AddrMan.dfy`, `AddrRaw.dfy`, `AddrDisk.dfy` | the address manager and its file (`src/addrman.cpp`, `src/addrman.h`) |
| `CheckQueue.dfy` | the parallel script check queue (`src/checkqueue.h`) |
| `Mempool.dfy`, `Packages.dfy`, `BlockAssembler.dfy` | choosing the transactions of a block template (`src/miner.cpp`) |
| `MerkleTree.dfy`, `PartialMerkle.dfy`, `PartialTrees.dfy`, `MerkleSize.dfy`, `MerkleBlock.dfy` | partial Merkle trees (`src/merkleblock.cpp`) |
| `CompactCoding.dfy`, `CompactBlocks.dfy` | compact block relay (`src/blockencodings.cpp`) |
| `CuckooTable.dfy`, `CuckooCache.dfy` | the cuckoo cache (`src/cuckoocache.h`) |
| `RollingBloom.dfy` | the rolling Bloom filter (`src/bloom.cpp`) |
| `SkipList.dfy`, `BlockTree.dfy` | the block tree, its skip list and the active chain (`src/chain.cpp`) |
| `BoolParse.dfy`, `BoolFormula.dfy`, `BoolAccept.dfy` | the verifier string evaluator (`src/LibBoolEE.cpp`) |
| `Radix.dfy`, `Base58.dfy` | Base58 text (`src/base58.cpp`) |
| `Limbs.dfy`, `Shifts.dfy`, `Arith.dfy`, `CompactTarget.dfy` | 256-bit arithmetic, compact targets and block proof (`src/arith_uint256.cpp`) |
| `Amount.dfy` | compression of amounts (`src/compressor.cpp`) |
| `Common.dfy`, `ByteBits.dfy` | notions shared by the others |

## How the models are set up

* Code that changes state step by step is a class (or a method with loops) whose contract ties the new
  state to a function of the old one; the properties are lemmas about those functions. The check queue,
  whose threads interleave, is a state machine whose steps are the sections that hold the mutex.
* Hash functions, the pool of transactions, random numbers, clocks and the outcome of script and block
  checks are parameters. Results that need hashes to differ say which: two nodes of the tree, or the
  hashes read and the true ones at a node, would be a collision.
* Integers are unbounded, except where the source's width matters: byte and 64-bit words of the filters,
  the 16-bit indexes of compact blocks, the 32-bit hashes of the cuckoo cache, the 32-bit limbs of large
  numbers and 64-bit amounts are written out.
* The fee rates that the block assembler compares as `double` products are compared exactly.

## Where code and documentation disagree

The models follow the code. These statements of the source turned out not to hold:

* `src/merkleblock.h` bounds the flag bits by 2N-1 for N hashes and the serialised size by
  10 + ceil(32.25 N) bytes. A node with a single child is visited without adding a hash, so both fail:
  three transactions with the last one matched give two hashes and four bits, and 1025 matched
  transactions exceed the size by one byte. `MerkleSize.BitBound` and `MerkleSize.SizeGuarantee` give the
  exact conditions under which the bounds hold.
* `CAddrMan::Add_` answers `true` for an address that it then fails to keep, when the slot is taken by an
  entry it may not replace: `AddrOps.AddTrueButForgotten`; `AddrOps.AddRemembers` says exactly when the
  address is kept.
* Flushing a cache whose block hash was never set erases the block hash of the level below:
  `Coins.FlushIsDirectWork`.
* A request for block transactions that is read comes out in increasing order except after index 65535,
  where the 16-bit offset starts again at 0: `CompactCoding.ReadIsIncreasing`.
* The comment in the cuckoo cache's `insert` says that the first exchange uses the first of the eight
  slots; the index it computes is that of the second: `CuckooTable.SecondSlotFirst`. It also says that the
  element just put in is not moved next. That holds if and only if the evicted element's next slot is
  another one: `CuckooTable.JustPutIn`, and `CuckooTable.MovedAgain` for an element that is moved again.
* The positions of a compact block are kept in 16 bits, but messages of up to 200000 transactions are
  accepted. Every short id leads to an empty slot of its own if and only if there are at most 65536
  transactions (`CompactBlocks.OwnSlotsExactly`, `CompactBlocks.LastIdMeetsCoinbase`), and `InitData` never
  returns exactly when 65536 transactions are prefilled and a short id remains
  (`CompactBlocks.PartiallyDownloadedBlock.InitData`, `CompactBlocks.SearchForever`).
* When ancestors enter the block, a descendant loses the modified fee of the very first of them, the one
  with the least id, and the base fees of the others. The fees left to it are right if and only if the
  changes to the fees of these others cancel out (`Packages.FeesAreExact` for one update,
  `Packages.KeptFeesAreExact` for all updates so far); `Packages.PriorityStaysCounted` is a pool where they
  are too high.
* The reader of the address file accepts files that no manager wrote, and not all of them leave a consistent
  manager: `AddrDisk.AddressTwice`. `AddrDisk.Unserialize` says exactly which do.
* `x *= x` on 256-bit numbers gives 0: the number is cleared before it is read as the factor
  (`Arith.ArithUint256.Multiply`). Products of two different objects are right.
* Not every amount of money survives compression (`Amount.MoneyDoesNotFit`): those from
  2049638230412172403 on come back changed unless they end in a zero, and all others survive
  (`Amount.SurvivesExactly`).
* The header of the evaluator names the constants `tt` and `ff`; the code knows `1` and `0`. Nothing but
  formulas should resolve. `BoolAccept.AcceptsExactly` proves that for texts of formula characters without
  an operator at the start, after an opening parenthesis, or, for an and sign, after an or sign, and for
  values given to names only. Each condition is needed: `BoolFormula.LeadingCharacter`,
  `BoolAccept.OperatorAfterParenthesis`, `BoolAccept.ConjunctionAfterDisjunction`, `BoolAccept.KeyWithBang`.

## Model

| member | source | states |
|---|---|---|
| Coins.CleanEntriesAreInvisible | src/coins.cpp:51-66 | In a map whose entries agree with the view below, dropping every entry that is not dirty changes nothing that the cache shows |
| Coins.CoinsCache.constructor | src/coins.h:223 | A new cache on any view shows exactly that view and accounts for no memory |
| Coins.CoinsCache.FetchCoin | src/coins.cpp:51-66 | Fetching brings the coin of the level below into the cache, marked fresh when it is spent there, and changes no view on any level |
| Coins.CoinsCache.GetCoin | src/coins.cpp:68-75 | Returns the coin that the stacked view shows, or nothing exactly when it shows none |
| Coins.CoinsCache.HaveCoin | src/coins.cpp:405-408 | True exactly when the stacked view has the coin |
| Coins.CoinsCache.AddCoin | src/coins.cpp:77-96 | Throws exactly when an unspent cached coin would be replaced without permission; otherwise the view gains exactly this coin, and the cache stays consistent if and only if the promise about overwriting holds or the cache had an entry |
| Coins.AddAgrees | src/coins.cpp:77-96 | An added entry keeps agreement with the level below if and only if overwriting was allowed for, the cache had an entry already, or no unspent coin sits below |
| Coins.CoinsCache.SpendCoin | src/coins.cpp:360-392 | The view loses exactly this coin; it answers true exactly when the cache has an entry or the level below a coin; the coin moved out is the one the view showed |
| Coins.CoinsCache.Uncache | src/coins.cpp:488-495 | Only a clean entry is dropped and no view changes |
| Coins.UsageUpdate | src/coins.cpp:77-96 | Replacing or removing one entry changes the summed memory by exactly the difference of the two coins, which is how every operation keeps cachedCoinsUsage equal to the sum |
| Coins.CoinsCache.BatchWrite | src/coins.cpp:425-479 | Merging a child map throws exactly when a fresh flag is misapplied; otherwise this level shows what the child showed, with memory use exact |
| Coins.AgreeingIsNotMisapplied | src/coins.cpp:445-451 | For a child whose entries agree with this level the misapplied-fresh exception cannot happen |
| Coins.MergeAgreeing | src/coins.cpp:425-479 | Merging such a child gives a map that agrees with the level below and shows what the child showed |
| Coins.MergeAll | src/coins.cpp:425-479 | Merging children that claim to be fresh only where nothing was shown gives a map that agrees with the level below and shows the dirty children on top of what was shown |
| Coins.FreshStays | src/coins.cpp:431-470 | A coin fresh in the child stays fresh in the parent, and spending it afterwards leaves nothing to be written below |
| Coins.CoinsCache.Flush | src/coins.cpp:481-486 | After a flush the level below shows what this cache showed, this cache is empty and still shows the same |
| Coins.CoinsCache.GetBestBlock | src/coins.cpp:415-419 | Returns the block hash of the nearest level that has one and copies it to exactly the levels above that one; no level reports another best block because of it |
| Coins.CoinsCache.AddCoins | src/coins.cpp:98-261 | Every spendable output is in the view at its outpoint, and every other outpoint is as before |
| Coins.CoinsDb.BatchWrite | src/txdb.cpp:91-150 | The database gains the dirty unspent coins, loses the dirty spent ones, and keeps the rest |
| Coins.Run | src/coins.cpp:51-495 | For a stack of any depth over the database and any run of fetches, additions, spends, evictions, block hashes set and asked for, flushes, pushes and discards that keeps the promise of AddCoin, every level shows one plain map and has one block hash |
| Coins.AskingIsSafe | src/coins.cpp:415-419 | Asking the top of a stack for its best block changes no answer of any level, and the top has that hash from then on |
| Coins.LocalRun | src/coins.cpp:51-495 | Operations on the top cache leave every level below as it was |
| Coins.DiscardUndoes | src/coins.cpp:481-486 | A temporary cache thrown away leaves the stack as before |
| Coins.FlushIsDirectWork | src/coins.cpp:425-486 | Working on a temporary cache and flushing it leaves the coins that direct work leaves; the block hashes agree if and only if the temporary cache was given one or there was none to lose |
| AddrState.GroupsAreConfined | src/addrman.cpp:14-27 | However many peers of one address group there are, they reach at most 8 tried buckets, and however many the sources of one group report, these reach at most 64 new buckets |
| AddrState.CreateKeeps | src/addrman.cpp:90-100 | A fresh entry keeps the whole invariant, apart from the one reference still to be made |
| AddrState.SwapKeeps | src/addrman.cpp:102-120 | Exchanging two positions of the random order keeps every index inverse to it |
| AddrState.DeleteKeeps | src/addrman.cpp:122-134 | Deleting an entry without references keeps the invariant and every other entry |
| AddrState.ClearNewKeeps | src/addrman.cpp:136-149 | Clearing a slot removes one reference and deletes the entry exactly when it was the last |
| AddrState.EvictKeeps | src/addrman.cpp:169-191 | Moving a tried entry back to its new slot, clearing that slot first, keeps the invariant |
| AddrState.MakeTriedKeeps | src/addrman.cpp:151-197 | Moving an entry to the tried table keeps the invariant although entries are cleared and deleted half way |
| AddrState.MakeTriedFacts | src/addrman.cpp:151-197 | Afterwards the entry is tried in its own slot, the one displaced from there is new again, at most one other entry is forgotten, and nothing known about the remaining ones changes |
| AddrState.MakeTriedTable | src/addrman.cpp:151-197 | Afterwards the new table holds no reference to the entry, one to the displaced entry in the slot of its own source, and otherwise what it held; forgotten is exactly the entry that had its last reference in that slot |
| AddrState.Info.TerribleExactly | src/addrman.cpp:35-54 | An entry not tried in the last minute is terrible if its time is missing, in the future or a month old, or after three attempts without success, or ten in a week without one; no other is |
| AddrOps.GoodKeeps | src/addrman.cpp:199-249 | A successful connection keeps the invariant |
| AddrOps.GoodEffect | src/addrman.cpp:199-249 | A known address reported good becomes tried in its slot with success and try at that time and no attempts; nobody else becomes tried, nobody loses that state but the one in the slot, the new table is that of MakeTried, and nothing else that is known changes |
| AddrOps.GoodForOther | src/addrman.cpp:199-216 | For an address that is not known, or is known at another port, only the time of the last success changes |
| AddrOps.AddKeeps | src/addrman.cpp:251-322 | Adding an address, with every outcome of the random choices, keeps the invariant |
| AddrOps.AnnouncedAgain | src/addrman.cpp:251-321 | A known address that is announced: its services become the union, its time is freshened exactly when the announcement is newer by more than the interval and the penalty, nothing else about it changes; exactly when it may, it gains one reference in its slot for the source, and only the entry in that slot suffers |
| AddrOps.AnnouncedFirst | src/addrman.cpp:284-321 | An unknown routable address: when it is kept, every field of its entry, the one reference in its slot, and that only the entry in that slot suffers; when it is not, no table and no entry changes |
| AddrOps.AddIgnores | src/addrman.cpp:253-254 | An address that is not routable is answered false and changes nothing |
| AddrOps.AddRemembers | src/addrman.cpp:251-322 | Adding an unknown routable address always answers true, and it is known afterwards if and only if its slot is free or holds an entry that is terrible or has another reference |
| AddrOps.AddTrueButForgotten | src/addrman.cpp:284-321 | A state and an address for which the answer is true and the address is not kept |
| AddrOps.NotesKeep | src/addrman.cpp:324-344 | Recording attempts, connections and services keeps the invariant, the tables, the indexes, every place in them and every other entry |
| AddrOps.NotesSay | src/addrman.cpp:324-344 | Every field after recording an attempt, a connection or services: attempts are counted once for each success noted since, times are refreshed after twenty minutes, services are replaced; for other addresses and ports nothing changes |
| AddrOps.ConcernsExactly | src/addrman.cpp:199-216 | A note concerns an entry exactly if the index leads to it for the address and the port is the same |
| AddrOps.CheckIsTheInvariant | src/addrman.cpp:394-468 | The invariant holds if and only if the self-check passes and the facts it does not look at, which are listed, hold |
| AddrOps.EveryRunPassesCheck | src/addrman.cpp:199-322 | From an empty manager, any run of additions, successes, attempts, connections, service updates and shuffles with positive times leaves a state that passes the self-check |
| AddrMan.AddrMan.constructor | src/addrman.h:458-479 | An empty manager satisfies the invariant |
| AddrMan.AddrMan.Delete | src/addrman.cpp:122-134 | On the arrays and maps, does what the deletion function does and keeps the invariant when the entry is in no table |
| AddrMan.AddrMan.ClearNew | src/addrman.cpp:136-149 | On the bucket array, does what the clearing function does |
| AddrMan.AddrMan.MakeTried | src/addrman.cpp:151-197 | The loop over all buckets and the eviction do what the functions do; every assertion of the source holds |
| AddrMan.AddrMan.FindBucket | src/addrman.cpp:228-243 | A new entry is always found in some bucket, so the exit for a missing bucket is never taken |
| AddrMan.AddrMan.Good | src/addrman.cpp:199-249 | Does what the function does for every random starting bucket |
| AddrMan.AddrMan.Add | src/addrman.cpp:251-322 | Does what the function does, the answer included; a draw for another reference is won by one number in 2^references |
| AddrMan.AddrMan.Attempt | src/addrman.cpp:324-344 | Records an attempt and changes nothing else |
| AddrMan.AddrMan.Connected | src/addrman.cpp:492-510 | Refreshes the time of a known address at most every twenty minutes and changes nothing else |
| AddrMan.AddrMan.SetServices | src/addrman.cpp:512-528 | Replaces the services of a known address and changes nothing else |
| AddrMan.AddrMan.GetAddr | src/addrman.cpp:471-490 | At most 23 percent of the entries and at most 2500, none terrible, none twice, all that are not terrible when there is room; only the random order changes |
| AddrMan.AddrMan.Check | src/addrman.cpp:394-468 | Returns 0 if and only if the self-check predicate holds and the key is not null, and changes nothing on a consistent manager |
| AddrDisk.Serialize | src/addrman.h:303-350 | Writes a file of the manager: the key, both counts, new records before tried ones, and for each bucket the records in it |
| AddrDisk.Unserialize | src/addrman.h:353-456 | Fails exactly on a wrong key size, counters above the limits or a file too short; from the file of any consistent manager, gives a copy of it with nothing lost to collisions or pruning; from any other file, loads its records, gives references by the listing or, if that cannot be used, to the first record that comes to its own slot, drops those without, and leaves a consistent manager if and only if the counters are not negative and every entry kept has plausible times and shares its address with no other entry loaded |
| AddrDisk.LoadedRecords | src/addrman.h:353-456 | Every entry loaded has address, port, time, services, source, last success and attempts of a record of the file |
| AddrDisk.PlausibleFit | src/addrman.h:353-456 | Records with different addresses and plausible times always fit in, whatever the listing of buckets says |
| AddrDisk.AddressTwice | src/addrman.h:402-420 | A file that lists an address twice loads and leaves an inconsistent manager |
| AddrRaw.PrunedIsConsistent | src/addrman.h:440-450 | Whatever was loaded, what pruning leaves satisfies the invariant if and only if every entry that stays fits in with all that were loaded |
| AddrDisk.WithinLimits | src/addrman.h:373-379 | The counts of a consistent manager never exceed the limits the reader enforces |
| AddrDisk.CopyIsConsistent | src/addrman.h:353-456 | A copy of a consistent manager satisfies the whole invariant |
| AddrDisk.SaveAndLoad | src/addrman.h:303-456 | Writing and reading back gives the same key, tried slots and new slots up to a renaming of ids, and for every entry the same address, port, time, services, source, last success and attempts, with the memory-only times cleared |
| CheckQueue.BatchFits | src/checkqueue.h:107-119 | At least one check is taken and never more than are queued; beyond that as many as the batch size and an even share among the threads allow, and no fewer |
| CheckQueue.StepKeeps | src/checkqueue.h:71-163 | Every step of every thread keeps the accounts, the idle and total counts, the pending verdict, and that the master waits only while a worker still has checks |
| CheckQueue.EveryRunIsRight | src/checkqueue.h:71-163 | For any number of workers, batch size and interleaving the outstanding count is queued plus in flight, and each finished Wait said true exactly when all checks added for it pass |
| CheckQueue.WaitReturnsWhenDone | src/checkqueue.h:93-102 | When Wait returns nothing is queued or in flight, and its verdict covers all checks added since the one before |
| CheckQueue.NoDeadlock | src/checkqueue.h:93-106 | While the master is in Wait some thread can always step forward |
| CheckQueue.WaitReturns | src/checkqueue.h:71-163 | Steps forward are bounded by a measure of the state, and when none is left the master has returned |
| Mempool.AncestorsComeFirst | src/miner.h:87-97 | An ancestor has strictly fewer ancestors, so ordering by that count puts parents first |
| Packages.BestModified | src/miner.h:75-85 | The entry chosen from the modified set has the highest fee rate, the smaller id among equals |
| Packages.BetterIsRate | src/miner.h:75-85 | The order of packages is that of their fee rates, and of ids among equal ones |
| Packages.UpdatePackagesForAdded | src/miner.cpp:321-346 | Every descendant of the added transactions that is not added itself loses the size, sigops and fees of exactly its added ancestors, once each: base fees, but the modified fee of the ancestor with the least id if the entry was not updated before; no other entry changes, and the number of updates is returned |
| Packages.FeesAreExact | src/miner.h:119-131 | The fees an update takes off are the modified fees if and only if the changes to the fees cancel out over the ancestors, or, for an entry not updated before, over all of them but the one with the least id; always when nothing was prioritised |
| Packages.KeptFeesAreExact | src/miner.cpp:321-346 | After any updates the fees kept for an entry that never failed are those of what remains of its package if and only if the changes to the fees of its included ancestors other than the first cancel out |
| Packages.PriorityStaysCounted | src/miner.cpp:333-342 | Builds a pool where two prioritised ancestors enter the block and the update leaves their child with 600 in place of 100 |
| Packages.UpdateKeeps | src/miner.cpp:321-346 | After an update every kept size and sigops total is still at least that of what remains of its package; for entries that never failed both are exact, and the fees are the true ones plus the changes to the fees of all included ancestors but the first |
| BlockAssembler.FeeIsRate | src/policy/feerate.cpp:28-43 | The fee of a size is the rate per 1000 rounded down, at least 1 for a positive rate and size, and odd in the rate |
| BlockAssembler.SortForBlock | src/miner.cpp:363-372 | The package comes out once each, in order of ancestor count and then id |
| BlockAssembler.ParentsFirst | src/miner.cpp:363-372 | In that order everything a transaction needs is in the block already or earlier in the package |
| BlockAssembler.BlockAssembler.TestPackageTransactions | src/miner.cpp:291-300 | True exactly when every transaction is final and allowed by the witness rule |
| BlockAssembler.BlockAssembler.AddToBlock | src/miner.cpp:302-319 | Weight, sigops, fees and per-transaction lists stay the sums over the block, which stays ordered and free of duplicates |
| BlockAssembler.BlockAssembler.ChooseNext | src/miner.cpp:414-450 | The package considered next is at least as good as every modified entry and every entry left in the pool order, and is not in the block |
| BlockAssembler.FitsTogether | src/miner.cpp:277-285 | A package that passes the test with totals that are not too small keeps weight and sigops within their limits |
| BlockAssembler.BlockAssembler.CommitPackage | src/miner.cpp:494-510 | Adding a tested package keeps every limit and account, and the totals of its descendants follow |
| BlockAssembler.BlockAssembler.AddPackageTxs | src/miner.cpp:384-512 | Terminates; the block stays ordered, closed under ancestors, without duplicates and within its limits; every package taken paid the minimum fee and had, of all transactions then neither in the block nor refused, the highest fee rate, the sizes compared being true and the fees the true ones plus the changes to those of all included ancestors but the first; when the candidates run out, every transaction left out was refused next to some prefix of the block with its true size and sigops; when a package pays too little, no other that was not refused has a higher fee rate; it gives up only close to full after more than 1000 refusals in a row |
| BlockAssembler.BlockAssembler.PicksPay | src/miner.cpp:452-456 | A package taken before it was ever refused pays the minimum fee for its true size, by its true fees when nothing was prioritised |
| BlockAssembler.CreateNewBlock | src/miner.cpp:122-167 | What every template satisfies: ancestors first, closed, no duplicates, exact fees, weight and sigops within limits, only final transactions, each package the best of its time and paying the minimum fee |
| MerkleTree.WidthHalves | src/merkleblock.h:68-70 | The shift formula for the width of a level halves it, rounding up, from level to level |
| MerkleTree.TreeHeight | src/merkleblock.cpp:124-127 | The first height with at most one node |
| MerkleTree.TopIsMerkleRoot | src/merkleblock.cpp:43-61 | The hash at the top of the tree is the root that combining neighbours level by level gives |
| MerkleTree.SameFirstLeaf | src/merkleblock.cpp:43-61 | Two nodes of one height with the same hash have the same first leaf, unless two nodes of the tree are a collision |
| PartialMerkle.DecodeIsSound | src/merkleblock.cpp:81-117 | For arbitrary bits and hashes, a node that reads as the true hash reports only true transaction ids, unless at a node below the hashes read and the true ones are a collision |
| PartialMerkle.IndicesIncrease | src/merkleblock.cpp:81-117 | Reported indices are strictly increasing and lie below the node |
| PartialMerkle.DecodeEncode | src/merkleblock.cpp:63-117 | Reading an encoded node anywhere in the data gives its hash, exactly the matched leaves in order, and consumes exactly what was written |
| PartialTrees.AcceptedExactly | src/merkleblock.cpp:81-166 | Data is accepted if and only if it is the depth-first writing of a tree of that many transactions in which no node has two equal children, up to the padding of the last byte; the root and the matches are those of the tree |
| PartialTrees.UsedUp | src/merkleblock.cpp:158-164 | Of two data of which one starts with the other both are accepted only if they have the same hashes and the same number of bytes |
| MerkleSize.HashesByLeaves | src/merkleblock.h:38-41 | At most one hash for each transaction, and exactly that many when all are matched |
| MerkleSize.HashesByMatches | src/merkleblock.h:38-42 | At most 1 + matched * height hashes |
| MerkleSize.BitBound | src/merkleblock.h:49 | The exact number of bits; the documented 2N-1 holds if and only if no level with an odd number of nodes below has a matched last node |
| MerkleSize.BitBoundFails | src/merkleblock.h:49 | Three transactions, the last matched: two hashes and four bits |
| MerkleSize.SizeGuarantee | src/merkleblock.h:33-50 | For every acceptable number of transactions the documented size bound holds if and only if the flag bytes number at most 252 or N/4 rounded up |
| MerkleSize.SizeGuaranteeFails | src/merkleblock.h:33-36 | 1025 matched transactions exceed the documented size by one byte |
| MerkleBlock.PackBits | src/merkleblock.h:101-105 | Bits are packed from the first place of each byte on and padded with zeros |
| ByteBits.BitIsShift | src/merkleblock.h:101-105 | Places in a byte are counted from the least significant bit |
| MerkleBlock.PartialMerkleTree.constructor | src/merkleblock.cpp:119-131 | The tree object holds the encoding of the block at its height |
| MerkleBlock.PartialMerkleTree.TraverseAndBuild | src/merkleblock.cpp:63-79 | Appends exactly the encoding of the node |
| MerkleBlock.PartialMerkleTree.TraverseAndExtract | src/merkleblock.cpp:81-117 | Advances the cursors, reports and goes bad exactly as the decoding function says |
| MerkleBlock.PartialMerkleTree.ExtractMatches | src/merkleblock.cpp:135-166 | Returns the decoded root and matches exactly when all conditions on the data hold, and then it is the writing of a tree with that root; the null hash for no or too many transactions, for more hashes than transactions or bits, and otherwise |
| MerkleBlock.Appended | src/merkleblock.cpp:158-164 | Accepted data with hashes or bytes behind it gives the null hash |
| MerkleBlock.ExtractIsSound | src/merkleblock.cpp:135-166 | If the data of the right transaction count reads as the root of a list, every reported id is at its reported index in the list, in increasing order, or at some node read the hashes read and the true ones are a collision |
| MerkleBlock.Relay | src/merkleblock.cpp:119-166 | Build, serialise, read back, extract: the true root and exactly the matched ids and indices, for distinct ids and any mask |
| CompactCoding.SendIndexes | src/blockencodings.h:41-71 | Every increasing list of 16-bit indexes survives the differential encoding |
| CompactCoding.ReadIndexes | src/blockencodings.h:46-64 | Rejects exactly the requests in which a difference or a running index exceeds 16 bits |
| CompactCoding.ReadIsIncreasing | src/blockencodings.h:58-64 | An accepted request is increasing if and only if index 65535 is not followed by another |
| CompactCoding.NotIncreasing | src/blockencodings.h:58-64 | An accepted request that is not increasing |
| CompactCoding.ShortIdRoundTrip | src/blockencodings.h:172-188 | Six bytes keep exactly the low 48 bits of a short id |
| CompactBlocks.PlacePrefilled | src/blockencodings.cpp:59-76 | Accepts exactly the prefilled lists whose positions fit and leave no slot uncovered; then each transaction is in its slot and there is one empty slot for each short id |
| CompactBlocks.MapSlots | src/blockencodings.cpp:83-104 | For messages of any length: never returns exactly when a short id remains and as many slots are full as 16 bits can tell, fails exactly for duplicate ids or crowded buckets otherwise, and else the i-th short id leads to the position of the i-th empty slot modulo 65536 |
| CompactBlocks.NextEmpty | src/blockencodings.cpp:82-85 | The search for an empty slot ends exactly when at most 65535 slots are full, and then at the next empty slot; otherwise every position it visits, after any number of steps, is full |
| CompactBlocks.OwnSlotsExactly | src/blockencodings.cpp:81-86 | Every short id leads to an empty slot of its own, and to the one of its number, if and only if there are at most 65536 slots |
| CompactBlocks.LastIdMeetsCoinbase | src/blockencodings.cpp:81-86 | With 65537 transactions and the coinbase prefilled the last short id leads to the slot of the coinbase |
| CompactBlocks.SearchForever | src/blockencodings.cpp:84-85 | 65536 prefilled transactions and one short id are an acceptable message on which the search never ends |
| CompactBlocks.ScanPool | src/blockencodings.cpp:106-133 | Each slot shows whether none, one or several pool entries have a short id that leads to it; the count is exact and the scan stops exactly when as many slots have one as there are short ids |
| CompactBlocks.ScanExtra | src/blockencodings.cpp:135-161 | The same for extra transactions, where the same transaction again is no clash |
| CompactBlocks.LookExactly | src/blockencodings.cpp:106-133 | A pool transaction is found for a short id if and only if it is the only one with it |
| CompactBlocks.ExtraExactly | src/blockencodings.cpp:135-161 | An extra transaction is used only if the pool has none, the first with the short id; one with another witness hash makes a clash, also with that of the pool, and a clash stays |
| CompactBlocks.PartiallyDownloadedBlock.InitData | src/blockencodings.cpp:49-167 | For messages of any length: invalid exactly for unacceptable ones, without return exactly for 65536 prefilled transactions and a short id, failed exactly for duplicate short ids or crowded buckets otherwise, and else in each slot what the scans found for it or what was prefilled; prefilled and found transactions are counted exactly, and what a refused message leaves behind is stated |
| CompactBlocks.ScansAreRight | src/blockencodings.cpp:49-167 | With at most 65536 transactions each short id has what was found for it in its own slot, prefilled transactions are untouched, and a scan stopped early found something for every short id |
| CompactBlocks.PoolIsUsed | src/blockencodings.cpp:106-161 | A transaction that the pool alone holds under a short id is made available and not asked for |
| CompactBlocks.InitialisedAgrees | src/blockencodings.cpp:49-167 | Unless a candidate is mistaken for a transaction of the block, everything available is what the block has there |
| CompactBlocks.PartiallyDownloadedBlock.FillBlock | src/blockencodings.cpp:178-213 | Invalid exactly when the number of missing transactions differs from the number of empty slots, otherwise every slot holds what was available or the next missing one; with too few the header stays and the slots up to the first gap left are emptied, with too many the block is cleared |
| CompactBlocks.PartiallyDownloadedBlock.MissingIndexes | src/net_processing.cpp:2504-2507 | The request lists exactly the empty slots in order |
| CompactBlocks.AnswerRebuilds | src/net_processing.cpp:1291-1301 | Answering that request rebuilds the block |
| CompactBlocks.MakeMessage | src/blockencodings.cpp:19-29 | The announcement describes the block |
| CompactBlocks.Exchange | src/blockencodings.cpp:19-213 | Announcing, filling, requesting and answering gives the sender's block exactly, and succeeds when short ids are distinct, no bucket is crowded and the block checks |
| CuckooTable.FoundAtLocs | src/cuckoocache.h:467-477 | Looking at eight slots is enough to know whether an element is stored anywhere |
| CuckooTable.SwapKeeps | src/cuckoocache.h:430-438 | An exchange moves exactly one element from the table to the hand and keeps placement, uniqueness and the count of the epoch |
| CuckooTable.PlaceKeeps | src/cuckoocache.h:407-415 | Writing to a discardable slot keeps the element and loses no kept one |
| CuckooTable.InsertionKeeps | src/cuckoocache.h:405-440 | An insertion that ends at an open slot keeps everything, and one that runs out of depth loses exactly the element in hand, which is then nowhere in the table; epochs move with their elements |
| CuckooTable.OneExchange | src/cuckoocache.h:405-440 | With a depth of one and no open slot the new element is kept and what stood in its second slot is lost |
| CuckooTable.AgeKeeps | src/cuckoocache.h:305-311 | Ageing keeps exactly the elements of the current epoch |
| CuckooTable.SecondSlotFirst | src/cuckoocache.h:416-430 | When nothing was written yet the exchange uses the second of the eight slots |
| CuckooTable.JustPutIn | src/cuckoocache.h:424-430 | The element just put in is moved by the next exchange if and only if the slot after it among those of the evicted element is the same slot; never when the eight differ |
| CuckooTable.MovedAgain | src/cuckoocache.h:424-430 | A table and an element for which it is moved again |
| CuckooCache.BitPackedFlags.Set | src/cuckoocache.h:92-95 | Setting one flag changes no other flag |
| CuckooCache.BitPackedFlags.Unset | src/cuckoocache.h:103-106 | Clearing one flag changes no other flag |
| CuckooCache.Cache.EpochCheck | src/cuckoocache.h:289-321 | Ages exactly when the counter has run out and the epoch is full, sets the counter to the insertions that could fill the epoch, and leaves room for one more insertion under the bound |
| CuckooCache.Cache.Insert | src/cuckoocache.h:392-440 | The table after any number of exchanges, element by element: an element stored already is renewed, and otherwise the first element in hand that has an open slot is written to the first one, so that nothing is lost; only when each in a chain as long as the depth limit has none is the last in hand lost |
| CuckooCache.Cache.InsertAndFind | src/cuckoocache.h:382-440 | An element that is stored already or has an open slot is found after its insertion |
| CuckooCache.Cache.Contains | src/cuckoocache.h:467-477 | True exactly when the element is stored; erasing only marks its slot |
| CuckooCache.Cache.InsertEraseFind | src/cuckoocache.h:442-456 | An element found for erasure is found again |
| CuckooCache.Cache.EpochIsBounded | src/cuckoocache.h:289-321 | At every time the kept elements of the current epoch number at most epoch_size + max(1, epoch_size / 16) |
| RollingBloom.WipeGet | src/bloom.cpp:258-267 | The wipe mask clears a position exactly when it holds the given generation |
| RollingBloom.WipeKeeps | src/bloom.cpp:252-268 | Reusing a generation number forgets the oldest of three generations and nothing else |
| RollingBloom.PlaceOf | src/bloom.cpp:270-277 | A hash selects bit h mod 64 of the pair of words of h / 64 modulo their number |
| RollingBloom.RollingBloomFilter.Insert | src/bloom.cpp:250-278 | Every position holds the generation of its last hit if that is one of the last three, and nothing otherwise |
| RollingBloom.RollingBloomFilter.Contains | src/bloom.cpp:286-298 | True exactly when each position of the key was hit by a key of the last three generations |
| RollingBloom.RollingBloomFilter.Reset | src/bloom.cpp:306-314 | Forgets everything |
| RollingBloom.WindowIsContained | src/bloom.cpp:218-225 | A key among the last 2 * ((nElements + 1) / 2) has all its positions remembered |
| RollingBloom.InsertAllAndFind | src/bloom.cpp:218-298 | After any insertions each of the last nElements keys is found |
| SkipList.SkipHeight | src/chain.cpp:72-83 | The skip height is strictly below the height |
| SkipList.OnesCleared | src/chain.cpp:71-72 | `n & (n - 1)` has exactly one one bit less than n and is even |
| SkipList.StepsAreFew | src/chain.cpp:72-109 | Between two heights among 2^k from a multiple of that on the walk takes at most (k^2 + 11k) / 4 steps |
| BlockTree.BlockIndex.constructor | src/chain.cpp:116-120 | A block added to a sound tree with its skip pointer built keeps the tree sound and every skip pointer present |
| BlockTree.GetAncestor | src/chain.cpp:85-109 | Following skip pointers gives the block that walking back gives, null exactly outside the range, from a height of k bits in at most (k^2 + 11k) / 4 steps; its assertion holds |
| BlockTree.LastCommonAncestor | src/chain.cpp:156-171 | The highest block both descend from, null when there is none; its assertion holds |
| BlockTree.Chain.SetTip | src/chain.cpp:13-23 | From any previous chain entry i becomes the ancestor of height i |
| BlockTree.Chain.ContainsIsAncestor | src/chain.h:494-504 | A block is in the chain exactly when it is an ancestor of the tip, and Next is the block above it |
| BlockTree.Chain.FindFork | src/chain.cpp:53-62 | The highest block of the chain that the given block descends from |
| BlockTree.Chain.GetLocator | src/chain.cpp:25-51 | Direct lookup and skip pointers give the same hashes, those at the locator heights |
| BlockTree.LocatorGoesDown | src/chain.cpp:25-51 | A locator starts at the block, goes strictly down and ends at height 0 |
| BlockTree.LocatorSteps | src/chain.cpp:25-51 | The steps between the entries of a locator: one block for the first eleven, then twice as many each time, ending at height 0 |
| BlockTree.LocatorLength | src/chain.cpp:25-51 | From a height below 2^j it has at most j + 12 entries |
| BoolParse.SingleParse | src/LibBoolEE.cpp:19-68 | The scanning loop gives the pieces, or the first error, of the scanner function |
| BoolParse.Characters | src/LibBoolEE.cpp:154-166 | The characters of names are the letters, the digits, the underscore, the hash and the dot; ignored are the six kinds of white space |
| BoolParse.PiecesAreShorter | src/LibBoolEE.cpp:19-68 | More than one piece means each is shorter than the text, so evaluation ends on every string |
| BoolParse.Evaluate | src/LibBoolEE.cpp:70-146 | The recursive evaluator with its loops computes the resolving function, errors included |
| BoolFormula.SplitText | src/LibBoolEE.cpp:19-68 | Splitting the text of a formula at an operator gives the texts of its operands |
| BoolFormula.ResolveIsEval | src/LibBoolEE.cpp:70-166 | A text of a formula, with any parentheses and whitespace, resolves to its value, and to the missing-variable error exactly when a variable has no value |
| BoolFormula.ResolveIsTruth | src/LibBoolEE.h:21-31 | Every formula printed with as few parentheses as possible and any whitespace resolves to its truth value, with not over and over or |
| Radix.MultiplyAdd | src/base58.cpp:44-53 | The carry loop computes buffer * multiplier + digit in place |
| Base58.EncodeFits | src/base58.cpp:82-84 | 138/100 digits and one more are always enough |
| Base58.DecodeFits | src/base58.cpp:36-37 | 733/1000 bytes and one more are always enough |
| Base58.Convert | src/base58.cpp:38-55 | The buffer holds the value of all digits read so far and the carry is zero after each, as the assertions say |
| Base58.EncodeBase58 | src/base58.cpp:73-109 | Leading zero bytes become 1, the rest the shortest base-58 digits of its value |
| Base58.DecodeBase58 | src/base58.cpp:23-69 | Accepts exactly base-58 characters with optional space around them, and gives their bytes |
| Base58.AlphabetInOrder | src/base58.cpp:20-21 | The ranges of characters used for digits are the alphabet in its order |
| Base58.DecodedEncoded | src/base58.cpp:23-107 | Decoding undoes encoding on every byte string |
| Base58.EncodedDecoded | src/base58.cpp:23-107 | Encoding undoes decoding on every text of base-58 characters |
| Base58.RoundTrip | src/base58.cpp:23-107 | The decoder applied to the encoder's output returns the bytes |
| Base58.EncodeBase58Check | src/base58.cpp:123-130 | The text of the bytes followed by their checksum |
| Base58.DecodeBase58Check | src/base58.cpp:132-147 | Returns bytes exactly when the text is the checked encoding of them |
| BoolFormula.LeadingCharacter | src/LibBoolEE.cpp:33-38 | A character in front of a formula that can start none, known or unknown, makes no formula; it is ignored when the formula has a binary operator at its top level and is an error otherwise |
| BoolFormula.UnknownCharacter | src/LibBoolEE.cpp:44-52 | A character that formulas do not have, after a formula, is an unknown operator whatever follows |
| BoolAccept.FormulaOf | src/LibBoolEE.cpp:19-146 | A tidy text that resolves is the text of a formula |
| BoolAccept.AcceptsExactly | src/LibBoolEE.h:21-31 | With values for names only, a source is tidy and resolves if and only if it is, up to whitespace, the text of a formula all of whose names have values; the value is that of the formula |
| BoolAccept.OperatorAfterParenthesis | src/LibBoolEE.cpp:27-38 | An operator after an opening parenthesis makes no formula and is ignored |
| BoolAccept.ConjunctionAfterDisjunction | src/LibBoolEE.cpp:39-43 | An and sign after an or sign makes no formula and is ignored in front of a conjunction |
| BoolAccept.KeyWithBang | src/LibBoolEE.cpp:118-128 | A key with a not sign in it is looked up although no formula has that text |
| Arith.ArithUint256.Add | src/arith_uint256.h:143-153 | The carry loop adds modulo 2^256, also when a number is added to itself |
| Arith.ArithUint256.Complement | src/arith_uint256.h:77-83 | 2^256 - 1 minus the number |
| Arith.ArithUint256.Negated | src/arith_uint256.h:85-92 | The number that makes the sum zero modulo 2^256 |
| Arith.ArithUint256.Subtract | src/arith_uint256.h:155-159 | The difference modulo 2^256 |
| Arith.ArithUint256.Increment | src/arith_uint256.h:181-188 | One more modulo 2^256, stopping at the first limb that does not wrap |
| Arith.ArithUint256.Decrement | src/arith_uint256.h:198-205 | One less modulo 2^256 |
| Arith.ArithUint256.MultiplySmall | src/arith_uint256.cpp:60-69 | The product with a 32-bit number modulo 2^256; no sum exceeds 64 bits |
| Arith.ArithUint256.Multiply | src/arith_uint256.cpp:72-85 | The product modulo 2^256, unless the factor is the number itself, when the result is 0; no sum exceeds 64 bits |
| Arith.MultiplyAdd | src/arith_uint256.cpp:72-85 | The carry, a limb and the product of two limbs fit 64 bits |
| Shifts.LeftEnd | src/arith_uint256.cpp:26-40 | What the steps of the left shift leave is the number times a power of two modulo 2^256 |
| Shifts.RightEnd | src/arith_uint256.cpp:43-57 | What the steps of the right shift leave is the number divided by a power of two, rounded down |
| Arith.ArithUint256.ShiftLeft | src/arith_uint256.cpp:26-40 | Times 2^n modulo 2^256 for every n; the parts joined by a bitwise or never overlap |
| Arith.ArithUint256.ShiftRight | src/arith_uint256.cpp:43-57 | Divided by 2^n, rounded down, for every n |
| Arith.ArithUint256.CompareTo | src/arith_uint256.cpp:114-123 | The sign of the difference of the two numbers |
| Arith.ArithUint256.Bits | src/arith_uint256.cpp:176-188 | The length of the number in bits |
| Arith.ArithUint256.Divide | src/arith_uint256.cpp:88-111 | The exact quotient rounded down; an error exactly for the divisor zero, which leaves zero |
| CompactTarget.OverflowIsExact | src/arith_uint256.cpp:222-226 | The three comparisons say exactly whether the expanded number needs more than 256 bits |
| CompactTarget.SetCompact | src/arith_uint256.cpp:208-228 | The expanded number modulo 2^256; both flags are exact |
| CompactTarget.GetCompact | src/arith_uint256.cpp:230-249 | The compact form of a number by its length in bytes; both assertions hold |
| CompactTarget.ExpandCompact | src/arith_uint256.cpp:208-249 | Expanding a compact form gives the number rounded down to a multiple of its unit |
| CompactTarget.SameLength | src/arith_uint256.cpp:230-249 | Rounding to compact form keeps the length in bytes |
| CompactTarget.CompactIsIdempotent | src/arith_uint256.cpp:208-249 | The rounded number has the same compact form |
| CompactTarget.RoundTrip | src/arith_uint256.cpp:208-249 | To compact form and back: rounded down by less than a unit, neither negative nor overflowing |
| CompactTarget.GetBlockProof | src/chain.cpp:122-135 | 2^256 divided by the target plus one, rounded down; zero for a target that is negative, zero or too large |
| Amount.CompressAmount | src/compressor.cpp:144-162 | The code of the amount in 64-bit arithmetic |
| Amount.DecompressAmount | src/compressor.cpp:164-187 | The amount of the code in 64-bit arithmetic |
| Amount.KnownCodes | src/test/compress_tests.cpp:49-54 | The codes of six amounts that the tests of the source list |
| Amount.ValueOfCode | src/compressor.cpp:132-187 | Without the limit of 64 bits decoding undoes coding for every amount |
| Amount.CodeOfValue | src/compressor.cpp:132-187 | Without the limit of 64 bits coding undoes decoding for every code |
| Amount.CodeBound | src/compressor.cpp:144-162 | The code is at most nine times the amount, so it fits whenever that does |
| Amount.RoundTrip | src/compressor.cpp:144-187 | Every amount of which nine times fit 64 bits comes back, and an amount of money does if and only if it ends in a zero or is below 2049638230412172403 |
| Amount.CodeRoundTrip | src/compressor.cpp:144-187 | Every code whose amount fits 64 bits comes back |
| Amount.SurvivesExactly | src/compressor.cpp:144-187 | For every amount of money: it comes back if and only if its code fits 64 bits, that is unless it has no trailing zero and 9n + n % 10 - 9 reaches 2^64, or what is the same n reaches 2049638230412172403 |
| Amount.MoneyDoesNotFit | src/amount.h:28 | One less than the largest amount of money has a code that does not fit and comes back as another amount |

## Left out
- Asset handling inside `AddCoins` and `SpendCoin`, and the wallet and messaging hooks beside it.
- `CAddrMan::Select_` and `GetChance`: randomised loops and floating point.
- The sizing formulas and false positive rates of the Bloom filters, and `CBloomFilter`.
- Script compression, `SetHex`, `GetHex`, `getdouble` and the bitwise operators of the 256-bit numbers.
- The `fQuit` flag of the check queue, which nothing sets.
- The rest of `CreateNewBlock`: header fields, coinbase and the final validity test.
- CompactBlocks.PartiallyDownloadedBlock.InitData: the count of extra transactions, which only a log line uses, is not kept; a call that never returns gives the status `NeverReturns`.
- CompactBlocks.Exchange: for blocks of at most 65536 transactions, as far as the mapping of short ids is right.
- CompactBlocks.MapSlots: when a hash bucket counts as crowded is a parameter, since it depends on the standard library.
- AddrMan.AddrMan.Check: which of the error codes is returned when a test fails is not stated; they are only logged.
- BlockAssembler.BlockAssembler.AddPackageTxs: says when the selection may give up, not that it then does.
- Packages.BestModified: compares fee rates exactly where the source rounds the products to doubles.
- CuckooCache.Cache.constructor: the depth limit, a rounded logarithm of the size, is a parameter of at least 1.
- RollingBloom.RollingBloomFilter.constructor: the number of words and of hash functions, which follow from the false positive rate, are parameters.
- SkipList.StepsAreFew: bounds the walk by 130 steps for heights of 18 bits, where the source reports 110 from simulations; that number is not proved.
- BlockTree.BlockIndex.constructor: the links of a block are constants, set when it is added; the source assigns them one after the other.
- Base58.DecodeBase58: the text is the C string up to its terminating null, and sizes are not limited to an int.
