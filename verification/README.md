# Verified models of the node's data structures and codecs

The node keeps several structures whose correctness is a global matter: a peer
address table with four indexes into the same entries, a stack of write-back
coin caches, a work queue shared by any number of threads, a lossy hash cache,
multi-limb arithmetic, a skip list over the block tree, a generation-stamped
Bloom filter, and four encodings. Each is modelled here in Dafny as the code
does it, in place where the code works in place, and the properties the design
rests on are proved for all inputs, all runs and all interleavings.

| file | component |
|---|---|
| AddrMan.dfy | the address manager as a class; one invariant, kept by every call |
| AddrManSerialization.dfy | the peers file: saving, loading any file, and the round trip |
| Coins.dfy | layered coin caches over a database |
| CheckQueue.dfy | the check queue as a transition system over thread steps |
| CuckooCache.dfy | the cuckoo cache with packed garbage flags and epochs |
| Numbers.dfy | powers of two, division and bitwise operators on naturals |
| Arith.dfy | unsigned integers of any number of 32-bit limbs |
| Compact.dfy | compact targets and block proof |
| SkipList.dfy | the heights a walk through the skip list visits, and how many |
| Chain.dfy | the block tree, skip pointers, the active chain, locators |
| RollingBloom.dfy | the rolling Bloom filter |
| SipHash.dfy | SipHash-2-4, streaming and unrolled |
| Gf32.dfy | the field GF(32) and division of polynomials over it |
| Bech32.dfy | Bech32 (BIP 173, section "Bech32") |
| Base58.dfy | Base58 and Base58Check |
| CompactBlocks.dfy | compact block reconstruction (BIP 152) and index coding |

`dafny verify dfyconfig.toml` checks the whole project.

How the outside is modelled: hash functions, address grouping and routability
are function-valued parameters about which nothing is known, so every result
holds for all of them. Clocks, secret keys and the outcome of block checking
are parameters. Random draws are arbitrary choices. Machine words are natural
numbers with explicit wrap-around, or sequences of bits where the code works on
bits. The check queue's steps are the stretches of code between lock
operations; any thread may take the next step, and condition variables may wake
spuriously.

## Findings

Where the code and its comments or intentions differ, the model follows the
code. For each there is the exact condition and an input that shows it.

- `x *= x` on one `base_uint` object clears the operand before reading it and
  gives zero (src/arith_uint256.cpp:70-83). `Arith.BaseUint.Mul` states exactly
  when the product is right; `Arith.SquareExample`.
- Reading a `BlockTransactionsRequest` keeps its offset in 16 bits, so after
  index 65535 it starts again at zero and the indexes read are no longer
  increasing (src/blockencodings.h:55-61). `CompactBlocks.ReadIsExactIff`,
  `CompactBlocks.WrapExample`.
- `InitData` counts prefilled transactions and stores places in 16 bits
  (src/blockencodings.cpp:80-85), while the limit of a message is above 65536
  transactions for the 4000000-weight chains. The map is right exactly up to
  65536 transactions (`CompactBlocks.PlacesRightIff`, `CompactBlocks.WideExample`),
  and with 65536 prefilled ones and a short id the call never returns
  (`CompactBlocks.Scan`, `CompactBlocks.HangExample`).
- `FillBlock` called with too few transactions returns before it resets itself,
  having moved out every transaction before the first gap it could not fill
  (src/blockencodings.cpp:183-190). `CompactBlocks.PartiallyDownloadedBlock.FillAgain`
  says when a second call still succeeds; `CompactBlocks.FillAgainExample`.
- `SpendCoin` returns true for a coin that is cached as already spent
  (src/coins.cpp:103-117). `Coins.CoinsViewCache.SpendTwice`,
  `Coins.SpendTwiceExample`.
- `AddCoin` takes the memory of the coin it refuses to replace off the counter
  before it throws, and does not notice a broken promise about a coin that only
  the base has (src/coins.cpp:71-90). `Coins.CoinsViewCache.AddCoin` states both;
  `Coins.AddTwiceExample`.
- `Flush` hands down the layer's own best block, so a layer that never learned
  one unsets its parent's (src/coins.cpp:208-213). `Coins.CoinsViewCache.Flush`,
  `Coins.UnsetExample`.
- The comment in `insert` of the cuckoo cache says the first swap uses the first
  location; the index expression picks the second (src/cuckoocache.h:416-430).
  `CuckooCache.FirstSwap`.
- `45 * size` is 32-bit arithmetic, so the epoch of a very large cache is
  smaller than 45 % (src/cuckoocache.h:349). `CuckooCache.EpochExactIff`,
  `CuckooCache.EpochExample`.
- `size + 7` is 32-bit arithmetic too, so the flags of the seven largest sizes
  have no room at all, although the header allows all but one of them
  (src/cuckoocache.h:61-68). `CuckooCache.BitPackedFlags.constructor`,
  `CuckooCache.FlagsExample`.
- `Check_` looks addresses up with a map operator that inserts zero for a
  missing one (src/addrman.cpp:414). That is the right answer for entry 0, so an
  entry 0 that is not indexed passes and gets indexed; any other entry fails and
  leaves the zero behind. `AddrMan.AddrManager.Check_`, `AddrMan.UnindexedExample`.
- Besides that, `Check_` notices neither an indexed address without its entry
  nor an id that the id counter never issued. `AddrMan.PassingIsConsistent` says
  that these three are all it misses; `AddrMan.UnnoticedExamples`.
- Loading a peers file does not notice an address that occurs twice, or negative
  counters (src/addrman.h:356-459). `AddrManSerialization.Unserialize` says that
  nothing else can go wrong; `AddrManSerialization.DuplicateExample`.

## Model

| member | source | states |
|---|---|---|
| `AddrMan.RunChecked` | src/addrman.cpp:390-464 | for every sequence of Add, Good, Attempt, Connected, SetServices and GetAddr calls on a new manager, every keyed hash and every random draw, the structural invariant holds throughout; with positive times and a non-zero key `Check_` after each call returns 0 |
| `AddrMan.Perform` | src/addrman.h:515-606 | any one public call keeps the whole structural invariant and the key, and sane times if its own time is sane |
| `AddrMan.ConsistentIsChecked` | src/addrman.cpp:390-464 | every state with the structural invariant and sane times passes `Check_` |
| `AddrMan.CheckedIsConsistent` | src/addrman.cpp:390-464 | a state that meets every clause of `Check_` has the structural invariant exactly if its ids were issued by the id counter and every indexed address belongs to its entry, the two facts no clause is about |
| `AddrMan.PassingIsConsistent` | src/addrman.cpp:390-464 | a state that passes `Check_` has the structural invariant exactly if its ids were issued, every indexed address belongs to its entry and entry 0 is indexed |
| `AddrMan.UnindexedExample` | src/addrman.cpp:414-415 | one entry whose address is not indexed: passes `Check_` exactly if its id is 0, and either way leaves a zero for its address |
| `AddrMan.UnnoticedExamples` | src/addrman.cpp:390-464 | a stale address, and an id the counter never issued, each pass `Check_` |
| `AddrMan.ChangesIffMissed` | src/addrman.cpp:414-415 | the look-ups change `mapAddr` exactly if one of them misses |
| `AddrMan.MissedUntil` | src/addrman.cpp:398-422 | what the look-ups have stored when the first failing entry ends the loop |
| `AddrMan.MissedInAll` | src/addrman.cpp:398-422 | when every entry passes, only entry 0 can have been indexed by its look-up |
| `AddrMan.CreateKeeps` | src/addrman.cpp:86-96 | a created entry keeps the address index, the random order, both tables and the counters, with the new id between the tables |
| `AddrMan.DeleteKeeps` | src/addrman.cpp:118-130 | deleting an unreferenced new entry keeps the invariant |
| `AddrMan.SwapKeeps` | src/addrman.cpp:98-116 | swapping two places of the random order keeps the two indexes inverse to each other |
| `AddrMan.LinkKeeps` | src/addrman.cpp:307-310 | filling an entry's own empty slot of a new bucket and adding one reference keeps reference counts equal to the number of slots held |
| `AddrMan.UnlinkKeeps` | src/addrman.cpp:132-145 | emptying a slot and taking one reference off keeps the reference counts exact |
| `AddrMan.EvictKeeps` | src/addrman.cpp:166-175 | an entry that leaves its tried slot keeps the invariant |
| `AddrMan.PromoteKeeps` | src/addrman.cpp:188-192 | an entry that takes its free tried slot keeps the invariant |
| `AddrMan.RecountKeeps` | src/addrman.cpp:157-186 | counting an unreferenced entry out of, or into, the new entries keeps the counters exact |
| `AddrMan.BucketsAfterWrite` | src/addrman.cpp:298-316 | one slot write moves one bucket between two holders and leaves the buckets of every other entry alone |
| `AddrMan.Pigeonhole` | src/addrman.cpp:395-417 | distinct positions below n number at most n, and fill all n when there are n; this is what makes the one-way test of positions enough |
| `AddrMan.SelectableSlot` | src/addrman.cpp:342-387 | whenever a table is not empty it has an occupied slot for `Select_` to find |
| `AddrMan.MoveKeepsTimes` | src/addrman.cpp:147-193 | moving an entry to tried, evicting another one, keeps the recorded times sane |
| `AddrMan.OfferKeepsTimes` | src/addrman.cpp:296-316 | offering an entry a new slot keeps the recorded times sane |
| `AddrMan.AddrManager.constructor` | src/addrman.h:485-488 | a new manager is empty and valid |
| `AddrMan.AddrManager.Clear` | src/addrman.h:461-483 | exactly the empty state, whatever was there, and it is valid |
| `AddrMan.AddrManager.Find` | src/addrman.cpp:73-84 | the id found is the one entry with that address, and nothing is found only if no entry has it |
| `AddrMan.AddrManager.Create` | src/addrman.cpp:86-96 | the new state is the old one with the entry, its address and its place in the random order added |
| `AddrMan.AddrManager.SwapRandom` | src/addrman.cpp:98-116 | swaps two places of the random order, keeps the two indexes inverse and changes no fact about any entry |
| `AddrMan.AddrManager.Delete` | src/addrman.cpp:118-130 | removes exactly that entry, its address and its place in the random order, whatever else is wrong with the state; none of its assertions can fire, and the structural invariant is kept |
| `AddrMan.AddrManager.ClearNew` | src/addrman.cpp:132-145 | empties exactly one slot; its holder loses one reference and is deleted with the last one; the assertion on the reference count holds |
| `AddrMan.AddrManager.LeaveNewBuckets` | src/addrman.cpp:149-159 | the entry is gone from every new bucket and its reference count is zero, as the source asserts |
| `AddrMan.AddrManager.LeaveTried` | src/addrman.cpp:166-175 | the evicted id is an entry, is not the one being moved, and only its slot and flag change |
| `AddrMan.AddrManager.ReenterNew` | src/addrman.cpp:177-186 | the evicted entry ends in the new bucket of its own source with one reference; the assertion that the slot is empty holds |
| `AddrMan.AddrManager.TakeTriedSlot` | src/addrman.cpp:188-192 | the moved entry takes its free tried slot and nothing else changes |
| `AddrMan.AddrManager.MakeTried` | src/addrman.cpp:147-193 | the entry moves to its tried slot, the entry that was there goes back to one new bucket, at most one more entry loses a reference there, everything else stays; all assertions hold |
| `AddrMan.AddrManager.FindNewBucket` | src/addrman.cpp:224-239 | a bucket holding a new entry is always found, so the silent exit is never taken |
| `AddrMan.AddrManager.Good_` | src/addrman.cpp:195-245 | the stamped entry is in the tried table afterwards, moved as `MakeTried` does if it was not; an unknown or different service changes only `nLastGood` |
| `AddrMan.AddrManager.OfferNewSlot` | src/addrman.cpp:296-316 | the entry gets the slot if it is free or its holder gives way, is deleted if it is left without references, and nothing else changes |
| `AddrMan.AddrManager.Refresh` | src/addrman.cpp:261-288 | a known address has its time and services updated as announced, and may go on only with fewer than eight references |
| `AddrMan.AddrManager.CreateNew` | src/addrman.cpp:289-294 | an unknown address becomes a counted new entry with the penalised time |
| `AddrMan.AddrManager.Add_` | src/addrman.cpp:247-318 | returns true exactly for a routable address not known before; the new state is the old one with the announcement applied |
| `AddrMan.AddrManager.Attempt_` | src/addrman.cpp:320-340 | records the attempt, and counts a failure only once since the last good connection, for the exact service only |
| `AddrMan.AddrManager.Connected_` | src/addrman.cpp:488-506 | refreshes the time, as a 32-bit number, at most every twenty minutes, for the exact service only |
| `AddrMan.AddrManager.SetServices_` | src/addrman.cpp:508-524 | replaces the services of the exact service only |
| `AddrMan.AddrManager.GetAddr_` | src/addrman.cpp:467-486 | returns at most the capped share, no address twice, no terrible entry, and all the others if there are fewer than the cap; the shuffle keeps the invariant |
| `AddrMan.AddrManager.Check_` | src/addrman.cpp:390-464 | returns 0 exactly if the state it is called on meets every clause, reading the address of entry 0 as indexed if it is missing; a passing state has the structural invariant exactly if its ids are issued, no address is stale and entry 0 is indexed; `mapAddr` afterwards is the old one with a zero for exactly the missing addresses looked up |
| `AddrMan.AddrManager.CheckEntry` | src/addrman.cpp:398-422 | returns 0 exactly if the entry meets its clauses in the state before the call, entry 0 also if only its address is missing; a zero is stored exactly if the look-up is reached and finds nothing |
| `AddrMan.AddrManager.CheckEntries` | src/addrman.cpp:398-422 | in id order: no error exactly if every entry passes in the state before the call; the tried ids and reference counts collected are those of the entries; exactly the missing addresses looked up before the first failure are stored as zero |
| `AddrMan.AddrManager.CheckTried` | src/addrman.cpp:429-457 | crossing off ids slot by slot leaves nothing and no error exactly when every tried id sits in its own slot and nothing else does |
| `AddrMan.AddrManager.CheckNew` | src/addrman.cpp:443-459 | counting references down slot by slot leaves nothing and no error exactly when the new table is right |
| `AddrManSerialization.SaveAndLoad` | src/addrman.h:306-459 | saving any valid manager and loading the file gives a valid manager with the same key, addresses, tried/new split, bucket contents and reference counts, up to the renaming of ids; memory-only fields start afresh |
| `AddrManSerialization.Serialize` | src/addrman.h:306-353 | the file holds every entry once, new ones first, and for each bucket the indexes of exactly its entries; both counter assertions hold |
| `AddrManSerialization.SaveEntries` | src/addrman.h:319-338 | one pass saves exactly the wanted entries, in id order, and never meets its counter limit early |
| `AddrManSerialization.SaveRow` | src/addrman.h:340-351 | the saved indexes of a bucket are those of its entries, each once |
| `AddrManSerialization.Unserialize` | src/addrman.h:356-459 | for every file: throws exactly for a header out of range or a file shorter than its header says; otherwise the state is the loaded one without the entries left without references, and it has the structural invariant exactly if the counters are not negative and no entry that stays shares its address with another one loaded |
| `AddrManSerialization.ExactLoad` | src/addrman.h:356-459 | a file written by `Serialize` loads completely: nothing is refused, no entry is lost to a collision, none is pruned, and the state is the saved one up to ids |
| `AddrManSerialization.PrunedIsConsistentIff` | src/addrman.h:443-459 | what is left after pruning is consistent exactly if every entry in it had its address for itself |
| `AddrManSerialization.FileLoading` | src/addrman.h:384-441 | whatever the file, both tables, the random order, the reference counts and the counters are right after loading, and every address is indexed as the last entry that has it |
| `AddrManSerialization.DistinctIsAlone` | src/addrman.h:384-423 | a file in which no address occurs twice leaves every entry its address |
| `AddrManSerialization.DuplicateExample` | src/addrman.h:384-400 | the same new entry twice in a file of version 0 leaves an entry that is not indexed |
| `AddrManSerialization.Prune` | src/addrman.h:443-453 | drops exactly the entries that are not tried and have no reference, with whatever their addresses are indexed as |
| `AddrManSerialization.LoadNews` | src/addrman.h:384-401 | the new entries in order; throws exactly if there are too few |
| `AddrManSerialization.LoadTrieds` | src/addrman.h:404-423 | the tried entries in order, counting those whose slot was taken; throws exactly if there are too few |
| `AddrManSerialization.LoadIndex` | src/addrman.h:430-438 | one index of a bucket is followed or ignored |
| `AddrManSerialization.LoadEntries` | src/addrman.h:384-423 | throws exactly if there are fewer entries than the header says; otherwise the state holds all entries of the file, tried ones whose slot was taken not counted |
| `AddrManSerialization.LoadNew` | src/addrman.h:386-400 | a new entry is added under the next number; without usable buckets it gets the slot of its own source if that is free |
| `AddrManSerialization.LoadTried` | src/addrman.h:407-421 | a tried entry is added in its own slot, or lost if the slot is taken |
| `AddrManSerialization.LoadRow` | src/addrman.h:426-441 | every index of a bucket is followed if it is in range, its slot is free and the entry has fewer than eight references, and ignored otherwise |
| `AddrManSerialization.LoadRows` | src/addrman.h:425-441 | throws exactly if there are fewer buckets than the header says; otherwise all are followed, or only read over if they cannot be used |
| `AddrManSerialization.NextIsNew` | src/addrman.h:384-423 | the next saved entry has an address of its own and, if tried, a free slot |
| `AddrManSerialization.NextSlotIsFree` | src/addrman.h:431-438 | the slot of the next saved index is the one its id was in, and it is still free |
| `AddrManSerialization.RoomForReference` | src/addrman.h:435-437 | a restored entry is always below eight references when one more is restored |
| `AddrManSerialization.WithinLimits` | src/addrman.h:376-382 | both counters of a valid state pass the limits that loading checks |
| `AddrManSerialization.AllRelinked` | src/addrman.h:443-459 | once all buckets are restored the state equals the saved one up to ids and is valid |
| `Coins.CoinsViewCache.Run` | src/coins.cpp:45-222 | any sequence of add, spend, get, uncache and flush calls acts on the visible coins exactly as insert, remove, look-up and two no-ops, on a stack of any depth; every look-up and every spent coin handed out is what the plain map gives at that point, and nothing throws |
| `Coins.CoinsViewCache.Perform` | src/coins.cpp:45-222 | one call acts and answers as on the plain map |
| `Coins.CoinsViewCache.constructor` | src/coins.cpp:39-39 | a new cache shows exactly what its base shows and knows no best block of its own |
| `Coins.CoinsViewCache.FetchCoin` | src/coins.cpp:45-60 | fetching changes neither the visible coins nor the base's; the entry is cached exactly if the base has the coin |
| `Coins.CoinsViewCache.GetCoin` | src/coins.cpp:62-69 | looks up the visible coins and leaves them as they are |
| `Coins.CoinsViewCache.HaveCoin` | src/coins.cpp:130-133 | true exactly for visible coins |
| `Coins.CoinsViewCache.AccessCoin` | src/coins.cpp:121-128 | the visible coin, or the empty coin |
| `Coins.CoinsViewCache.AddCoin` | src/coins.cpp:71-90 | inserts into the visible coins unless unspendable and leaves the base alone; throws exactly if overwriting is not allowed and the coin is cached unspent, having uncounted its memory by then; otherwise the invariant is kept exactly if overwriting is allowed, the coin is cached or unspendable, or the base lacks it |
| `Coins.AddTwiceExample` | src/coins.cpp:71-90 | a large coin added twice: the second call throws and leaves the memory counter below the sum over the cached coins |
| `Coins.CoinsViewCache.AddCoins` | src/coins.cpp:92-101 | exactly the spendable outputs of the transaction are added |
| `Coins.CoinsViewCache.SpendCoin` | src/coins.cpp:103-117 | removes the coin from the visible coins and hands it out; returns true exactly if the coin is visible or cached at all, even as spent; a fresh entry goes, any other stays as spent |
| `Coins.CoinsViewCache.SpendTwice` | src/coins.cpp:103-117 | spending a coin twice returns true twice exactly if it is found at first and its entry is not fresh |
| `Coins.SpendTwiceExample` | src/coins.cpp:103-117 | a coin of the database is spent twice and both calls return true |
| `Coins.CoinsViewCache.Uncache` | src/coins.cpp:215-222 | drops only unmodified entries and changes nothing visible |
| `Coins.CoinsViewCache.GetBestBlock` | src/coins.cpp:140-144 | the best block of the first layer that knows one, remembered here |
| `Coins.CoinsViewCache.SetBestBlock` | src/coins.cpp:146-148 | sets this layer's best block and no coin |
| `Coins.CoinsViewCache.HaveInputs` | src/coins.cpp:240-250 | true exactly if the transaction is a coinbase or all its inputs are visible |
| `Coins.CoinsViewCache.GetValueIn` | src/coins.cpp:228-238 | the sum of the input values, zero for a coinbase |
| `Coins.CoinsViewCache.BatchWrite` | src/coins.cpp:150-206 | the visible coins become the child's, this layer's own invariant is kept, and the FRESH exception is never thrown |
| `Coins.CoinsViewCache.WriteEntry` | src/coins.cpp:151-202 | one child entry is merged and the memory counter stays the sum over the cached coins |
| `Coins.CoinsViewCache.Flush` | src/coins.cpp:208-213 | the parent shows what the child showed, and the child is empty and shows the same; the best block of the stack survives exactly unless this layer knows none and hides one that only its parent knows |
| `Coins.UnsetExample` | src/coins.cpp:208-213 | flushing a cache that never learned a best block makes its parent forget block 7 |
| `Coins.FlushUnknown` | src/coins.cpp:208-213 | after such a flush the parent answers with the best block below it |
| `Coins.CoinsViewCache.FlushToDisk` | src/coins.cpp:208-213 | flushing every layer makes the database hold exactly the coins visible at the top and its best block |
| `Coins.CoinsDB.GetCoin` | src/txdb.cpp:88-90 | reads the stored coins |
| `Coins.CoinsDB.BatchWrite` | src/txdb.cpp:111-176 | the stored coins become the overlay of the written entries |
| `Coins.FetchKeeps` | src/coins.cpp:45-60 | caching a base coin keeps the layer invariant and the overlay |
| `Coins.PutKeeps` | src/coins.cpp:87-89 | a dirty entry, fresh only if the base lacks the coin, keeps the invariant and puts the coin in the overlay |
| `Coins.PutKeepsIff` | src/coins.cpp:84-89 | the layer invariant survives a dirty entry exactly if it is not fresh or the base lacks the coin |
| `Coins.SpendKeeps` | src/coins.cpp:110-115 | erasing a fresh entry or blanking another removes exactly that coin from the overlay |
| `Coins.UncacheKeeps` | src/coins.cpp:218-221 | an entry that is neither dirty nor fresh can go without effect |
| `Coins.WriteKeeps` | src/coins.cpp:156-202 | merging a child's entry keeps the parent's invariant and gives the parent's overlay the child's coin |
| `Coins.MoveDown` | src/coins.cpp:150-206 | moving one entry down leaves the child's overlay as it was |
| `Coins.BrokenPromise` | src/coins.cpp:81-88 | marking a new entry fresh is right exactly if the base lacks the coin, which is what the caller of `AddCoin` promises |
| `Coins.UsageAfterPut` | src/coins.cpp:79-89 | replacing an entry changes the memory sum by the two coins' sizes |
| `CheckQueue.VerdictsAreRight` | src/checkqueue.h:69-127 | in every interleaving, a session's verdict is true exactly if every check added in it was executed and succeeded, and a false verdict has a failed executed check of that session |
| `CheckQueue.ChecksAreConserved` | src/checkqueue.h:69-127 | in every reachable state `nTodo` is the queued plus in-flight checks, the idle and total counters are exact, no check is pending twice or after its execution, and before a failure none is missing |
| `CheckQueue.WaitingMasterIsOwed` | src/checkqueue.h:91-104 | a waiting master that was not notified implies unfinished work held by some worker |
| `CheckQueue.MasterCanProgress` | src/checkqueue.h:69-127 | while the master is inside, some step other than a spurious wake-up is possible: no deadlock |
| `CheckQueue.WaitIsBounded` | src/checkqueue.h:69-127 | with no new checks, only boundedly many productive steps are possible, so the master returns |
| `CheckQueue.StepsUsePotential` | src/checkqueue.h:69-127 | every step that is not a spurious wake-up lowers the potential |
| `CheckQueue.RunsKeepInv` | src/checkqueue.h:69-127 | every reachable state satisfies the invariant, for any number of workers and any batch size |
| `CheckQueue.StepKeeps` | src/checkqueue.h:69-161 | each atomic step keeps the invariant |
| `CheckQueue.RunsAreLockFree` | src/checkqueue.h:78-120 | no thread keeps the lock between steps |
| `CheckQueue.BatchSize` | src/checkqueue.h:110-110 | a batch has at least one check and no more than are queued, so no pop hits an empty queue |
| `CheckQueue.TakeKeeps` | src/checkqueue.h:105-119 | taking a batch from the back of the queue keeps the invariant |
| `CheckQueue.TakeMovesChecks` | src/checkqueue.h:112-117 | taking a batch neither loses nor duplicates a check |
| `CheckQueue.SettleKeeps` | src/checkqueue.h:80-85 | accounting for a finished batch keeps the invariant |
| `CheckQueue.ReturnKeeps` | src/checkqueue.h:92-99 | when the master returns its verdict is right and nothing leaks into the next session |
| `CheckQueue.AddKeeps` | src/checkqueue.h:149-161 | adding checks keeps the invariant, whichever worker is woken |
| `CheckQueue.WaitKeeps` | src/checkqueue.h:101-103 | going to wait keeps the invariant |
| `CheckQueue.ResultKeeps` | src/checkqueue.h:122-124 | executing a check keeps the invariant |
| `CheckQueue.SkipKeeps` | src/checkqueue.h:122-124 | skipping a check after a failure keeps the invariant |
| `CuckooCache.Run` | src/cuckoocache.h:340-477 | over every run of inserts and look-ups on a usable cache, an element reported was inserted before, and the live entries of the current epoch never exceed epoch_size + max(1, epoch_size / 16) |
| `CuckooCache.Cache.constructor` | src/cuckoocache.h:340-353 | an empty cache of at least two slots, valid exactly if the size is at most 2^32 - 8; its epoch is 45 % exactly if 45 * size fits in 32 bits |
| `CuckooCache.EpochExactIff` | src/cuckoocache.h:349-349 | the epoch is 45 % of the size exactly if the product fits in 32 bits |
| `CuckooCache.EpochExample` | src/cuckoocache.h:349-349 | at 95443718 slots, the first size whose product wraps, the epoch is one element |
| `CuckooCache.Cache.Insert` | src/cuckoocache.h:392-440 | measured after the epoch check, at most one of the live elements and the new one is lost and nothing else appears; nothing is lost if the element is present already or has a free slot; the epoch check itself removes nothing unless the current epoch is full |
| `CuckooCache.Cache.InsertElement` | src/cuckoocache.h:395-440 | the same without the epoch check; nothing is lost if the element is present already or has a free slot |
| `CuckooCache.Cache.PushIn` | src/cuckoocache.h:406-439 | whatever the eviction chain, at most one element is lost and every live one is at one of its eight slots |
| `CuckooCache.Cache.PushStep` | src/cuckoocache.h:406-439 | an iteration ends with everything in the table or leaves exactly one element in hand |
| `CuckooCache.Cache.PushOnce` | src/cuckoocache.h:407-438 | stores in the first free slot if there is one; otherwise exchanges the element for the one in the slot after the last one used, or in the second slot if the last one used is none of its slots |
| `CuckooCache.FirstSwap` | src/cuckoocache.h:416-430 | the first swap of an insertion uses the second slot |
| `CuckooCache.Cache.SwapInto` | src/cuckoocache.h:430-435 | exchanging element and epoch mark with a slot keeps the load of the epoch |
| `CuckooCache.Cache.StoreAt` | src/cuckoocache.h:411-414 | overwriting a garbage slot adds exactly that element |
| `CuckooCache.Cache.FindGarbage` | src/cuckoocache.h:408-410 | the first garbage slot of an element, if any |
| `CuckooCache.Cache.FindElement` | src/cuckoocache.h:400-401 | the slot holding an element, if any |
| `CuckooCache.Cache.Contains` | src/cuckoocache.h:467-477 | true for every live element and only for elements in the table, which were inserted; erasing removes exactly that element from the live ones |
| `CuckooCache.Cache.EpochCheck` | src/cuckoocache.h:289-321 | removes elements only, and leaves the load plus the counter below the bound |
| `CuckooCache.Cache.CountRecent` | src/cuckoocache.h:295-300 | counts the live entries of the current epoch |
| `CuckooCache.Cache.AgeEpochs` | src/cuckoocache.h:306-310 | old entries become garbage, current ones old, and the current epoch is empty |
| `CuckooCache.StoreKeeps` | src/cuckoocache.h:411-414 | storing an absent element in one of its garbage slots keeps elements placed and adds it to the live ones |
| `CuckooCache.EraseKeeps` | src/cuckoocache.h:472-473 | marking a slot as garbage removes exactly its element from the live ones |
| `CuckooCache.KeepKeeps` | src/cuckoocache.h:402-402 | keeping a slot makes its element live and no other |
| `CuckooCache.CollectKeeps` | src/cuckoocache.h:306-310 | more garbage only removes live elements |
| `CuckooCache.RecentUpdate` | src/cuckoocache.h:295-300 | changing one slot changes the load by that slot |
| `CuckooCache.BitPackedFlags.constructor` | src/cuckoocache.h:61-68 | all flags start set; there is room for every entry up to a size of 2^32 - 8 and for none above, where the padding wraps around |
| `CuckooCache.FlagsExample` | src/cuckoocache.h:61-68 | 2^32 - 2 entries, the most the header allows, get no flags; 2^32 - 8 get one each |
| `CuckooCache.BitPackedFlags.BitSet` | src/cuckoocache.h:92-95 | sets exactly one flag |
| `CuckooCache.BitPackedFlags.BitUnset` | src/cuckoocache.h:103-106 | clears exactly one flag |
| `CuckooCache.BitPackedFlags.BitIsSet` | src/cuckoocache.h:113-116 | reads one flag |
| `Arith.BaseUint.constructor` | src/arith_uint256.h:32-38 | zero |
| `Arith.BaseUint.Copy` | src/arith_uint256.h:40-46 | the same limbs in a new number |
| `Arith.BaseUint.Assign` | src/arith_uint256.h:48-53 | takes over the other number's limbs, itself included |
| `Arith.BaseUint.AssignU64` | src/arith_uint256.h:94-101 | the number given, for any number of limbs |
| `Arith.BaseUint.IsZero` | src/arith_uint256.h:67-73 | true exactly for zero |
| `Arith.BaseUint.Complement` | src/arith_uint256.h:75-81 | 2^BITS - 1 - x |
| `Arith.BaseUint.Negate` | src/arith_uint256.h:83-90 | -x modulo 2^BITS |
| `Arith.BaseUint.Increment` | src/arith_uint256.h:179-186 | x + 1 modulo 2^BITS |
| `Arith.BaseUint.Decrement` | src/arith_uint256.h:196-203 | x - 1 modulo 2^BITS |
| `Arith.BaseUint.Add` | src/arith_uint256.h:141-151 | a + b modulo 2^BITS, also when both are the same object |
| `Arith.BaseUint.Subtract` | src/arith_uint256.h:153-157 | a - b modulo 2^BITS |
| `Arith.BaseUint.ShiftLeft` | src/arith_uint256.cpp:24-38 | x * 2^n modulo 2^BITS, for every n |
| `Arith.BaseUint.ShiftRight` | src/arith_uint256.cpp:41-55 | x / 2^n rounded down, for every n |
| `Arith.BaseUint.MulU32` | src/arith_uint256.cpp:58-67 | x * b modulo 2^BITS |
| `Arith.BaseUint.AddProduct` | src/arith_uint256.cpp:75-80 | one row of the schoolbook product, with a 64-bit carry that never overflows |
| `Arith.BaseUint.Mul` | src/arith_uint256.cpp:70-83 | a * b modulo 2^BITS exactly if the operand is another object or a * a is a multiple of 2^BITS; multiplying a number by itself in place gives zero |
| `Arith.SquareExample` | src/arith_uint256.cpp:70-83 | three times itself, in place, is zero |
| `Arith.BaseUint.Div` | src/arith_uint256.cpp:86-109 | throws exactly for a zero divisor, leaving zero, and otherwise gives the quotient rounded down |
| `Arith.BaseUint.QuotientBit` | src/arith_uint256.cpp:99-106 | one step of long division keeps dividend = quotient * divisor + rest with the rest below the shifted divisor |
| `Arith.BaseUint.SetBit` | src/arith_uint256.cpp:102-102 | setting a clear bit above clear bits adds its value |
| `Arith.BaseUint.CompareTo` | src/arith_uint256.cpp:112-121 | the order of the numbers |
| `Arith.BaseUint.EqualToU64` | src/arith_uint256.cpp:124-135 | equality with a 64-bit number |
| `Arith.BaseUint.NumBits` | src/arith_uint256.cpp:174-186 | the position of the highest bit plus one, or zero |
| `Arith.BaseUint.GetLow64` | src/arith_uint256.h:251-255 | the number modulo 2^64 |
| `Arith.LeftVal` | src/arith_uint256.cpp:31-36 | the limbs a left shift leaves stand for the product with the power of two, truncated |
| `Arith.RightVal` | src/arith_uint256.cpp:48-53 | the limbs a right shift leaves stand for the quotient by the power of two |
| `Arith.OrLow` | src/arith_uint256.cpp:32-35 | the two parts that are or-ed into a limb never overlap |
| `Arith.ValInjective` | src/arith_uint256.h:226-227 | comparing limbs compares numbers |
| `Compact.SetCompact` | src/arith_uint256.cpp:206-224 | the number is mantissa * 256^(exponent - 3) modulo 2^256; overflow is flagged exactly if that does not fit, and negative exactly for a sign bit on a non-zero number |
| `Compact.GetCompact` | src/arith_uint256.cpp:226-247 | the canonical compact form, with a mantissa of 23 bits; both assertions hold |
| `Compact.LeadingBytes` | src/arith_uint256.cpp:228-235 | the leading three bytes of the number |
| `Compact.RoundTrip` | src/arith_uint256.cpp:206-247 | for every number, decoding its compact form raises no flag, gives the number with all but its leading three bytes cleared (two if the first is 0x80 or more), and encodes to the same form again |
| `Compact.OverflowTest` | src/arith_uint256.cpp:220-222 | the three size tests are together equivalent to mantissa * 256^(exponent - 3) >= 2^256 |
| `Compact.DecodeEncoded` | src/arith_uint256.cpp:206-247 | decoding undoes encoding up to rounding, for both signs |
| `Compact.EncodeRounded` | src/arith_uint256.cpp:226-247 | rounding changes neither the number of bits nor the compact form |
| `Compact.RoundingLoss` | src/arith_uint256.cpp:226-247 | less than one unit of the last mantissa byte is lost |
| `Compact.MantissaFits` | src/arith_uint256.cpp:242-242 | the mantissa has 23 bits, and at least 16 for a number that is not zero |
| `Compact.SignShift` | src/arith_uint256.cpp:236-241 | dividing the mantissa by 256 when its top bit is set leaves the canonical form |
| `Compact.GetBlockProof` | src/chain.cpp:121-134 | 2^256 / (target + 1) rounded down, and zero for a zero, negative or overflowing target |
| `Compact.ProofFits` | src/chain.cpp:129-133 | ~t / (t + 1) + 1 equals 2^256 / (t + 1), and no step wraps |
| `Compact.TargetHasSuccessor` | src/chain.cpp:133-133 | a target that fits is never the largest number |
| `Chain.GetAncestor` | src/chain.cpp:83-108 | the block reached by walking `pprev` to that height, or null outside the heights of the chain, whatever skip pointers are set; with all of them set it takes at most 110 steps below height 2^18 |
| `SkipList.GetSkipHeight` | src/chain.cpp:72-81 | strictly lower than a positive height |
| `SkipList.StepsBounded` | src/chain.cpp:73-108 | from every height below 2^k to every target the walk takes at most `MaxSteps(k)` steps, which grows with the square of k |
| `SkipList.MaxFor18` | src/chain.cpp:77-79 | that is 110 for 2^18 blocks, the figure the source gives |
| `SkipList.Descend` | src/chain.cpp:89-106 | from a multiple of 2^m to a target less than 2^m below it at most `Descent(m)` steps |
| `SkipList.Leaps` | src/chain.cpp:89-106 | below such a multiple the heights 1, 7, 31, ... further down are one leap apart |
| `SkipList.OddPhase` | src/chain.cpp:89-106 | from an odd height each leap clears two one bits |
| `SkipList.EvenPhase` | src/chain.cpp:89-106 | from a multiple of eight each leap clears one |
| `SkipList.LowestOneInverted` | src/chain.cpp:70-70 | n & (n - 1) clears the lowest one bit and no other |
| `Chain.BlockTree.Add` | src/chain.cpp:115-119 | a block added with its skip pointer keeps the tree well formed and all skip pointers set |
| `Chain.BlockTree.BuildSkip` | src/chain.cpp:115-119 | the skip pointer is the ancestor at the skip height |
| `Chain.AncestorOfAncestor` | src/chain.cpp:83-108 | an ancestor's ancestor is the ancestor at that height |
| `Chain.ActiveChain.SetTip` | src/chain.cpp:11-21 | the chain becomes the whole path to the new tip, from any chain before, though rewriting stops early |
| `Chain.Spliced` | src/chain.cpp:17-20 | the early stop is sound: below a block in its place everything is in its place |
| `Chain.ActiveChain.FindFork` | src/chain.cpp:51-60 | an ancestor in the chain, and no higher ancestor is |
| `Chain.ActiveChain.Tip` | src/chain.h:601-603 | null exactly for an empty chain |
| `Chain.ActiveChain.Height` | src/chain.h:632-634 | the height of the tip, or -1 |
| `Chain.ActiveChain.At` | src/chain.h:606-610 | the tip's ancestor at that height |
| `Chain.ActiveChain.Contains` | src/chain.h:619-621 | comparing the block at the same height decides membership |
| `Chain.ActiveChain.Next` | src/chain.h:624-629 | the child in the chain, for every block of the chain but the tip and for no other |
| `Chain.LastCommonAncestor` | src/chain.cpp:155-170 | a common ancestor, and there is none higher; null exactly if there is none at all, so the assertion holds even for two trees |
| `Chain.GetLocator` | src/chain.cpp:23-49 | ancestors of the start at strictly falling heights, one apart at first and then at doubling distances, ending at height zero; empty for an empty chain |
| `Chain.LocatorFalls` | src/chain.cpp:23-49 | later entries of a locator are strictly lower ancestors of the start |
| `RollingBloom.InsertAll` | src/bloom.cpp:254-302 | whatever is inserted in whatever order, each of the last nElements keys is reported |
| `RollingBloom.LastKeysCovered` | src/bloom.h:121-122 | the last nElements keys are among those of the last three generations |
| `RollingBloom.RollingBloomFilter.constructor` | src/bloom.cpp:222-247 | an empty filter with (nElements + 1) / 2 entries per generation |
| `RollingBloom.RollingBloomFilter.Reset` | src/bloom.cpp:310-318 | forgets everything |
| `RollingBloom.RollingBloomFilter.Insert` | src/bloom.cpp:254-282 | the history grows by the key; exactly the key's positions are stamped, and on a new generation exactly the stamps that reuse its number are wiped; once keys are forgotten, more than 2 and at most 3 generations are covered |
| `RollingBloom.RollingBloomFilter.NewGeneration` | src/bloom.cpp:256-271 | a new generation forgets exactly the keys of the oldest one |
| `RollingBloom.RollingBloomFilter.Wipe` | src/bloom.cpp:262-270 | clears exactly the positions stamped with the reused generation |
| `RollingBloom.RollingBloomFilter.StampOne` | src/bloom.cpp:276-280 | stamps one position and no other |
| `RollingBloom.RollingBloomFilter.Contains` | src/bloom.cpp:290-302 | true exactly if all positions of the key are set, so for every covered key |
| `RollingBloom.WipedStamp` | src/bloom.cpp:262-269 | the word mask clears the bit pairs that spell the generation and no other |
| `RollingBloom.WipeKeeps` | src/bloom.cpp:262-270 | wiping the next generation's number keeps every key of the two younger generations stamped |
| `RollingBloom.RestampKeeps` | src/bloom.cpp:279-280 | restamping a position never loses a covered key |
| `SipHash.SipHasher.constructor` | src/hash.cpp:97-105 | the state of an empty message under the keys |
| `SipHash.SipHasher.Write` | src/hash.cpp:127-153 | the state is that of the message with the bytes appended, so however the bytes are cut into writes |
| `SipHash.SipHasher.WriteU64` | src/hash.cpp:107-125 | writing a word after a whole number of words is writing its eight bytes, lowest first |
| `SipHash.SipHasher.Finalize` | src/hash.cpp:155-171 | SipHash-2-4 of all bytes written |
| `SipHash.HashInPieces` | src/hash.cpp:127-171 | two writes hash as one |
| `SipHash.SipHashUint256` | src/hash.cpp:173-211 | the unrolled form is the hash of the 32 bytes |
| `SipHash.SipHashUint256Extra` | src/hash.cpp:213-252 | the unrolled form is the hash of the 32 bytes and the four bytes of the extra number |
| `SipHash.AbsorbUint256` | src/hash.cpp:176-200 | the unrolled words are the words of the message |
| `SipHash.OneMoreByte` | src/hash.cpp:133-143 | a byte completes a word or joins the last bytes |
| `SipHash.OrByte` | src/hash.cpp:134-134 | or-ing a byte in above the others is appending it |
| `Bech32.EncodeDecode` | src/bech32.cpp:147-189 | a non-empty prefix of printable characters without upper case and symbols within 90 characters decode to themselves |
| `Bech32.DecodeEncode` | src/bech32.cpp:147-189 | decoding succeeds exactly for Bech32 strings, and encoding the result gives the string in lower case |
| `Bech32.Decode` | src/bech32.cpp:159-189 | returns the parts of a string that is printable, not of mixed case, at most 90 long and spells a prefix, separator, data and valid checksum; empty parts for every other string |
| `Bech32.Encode` | src/bech32.cpp:147-156 | spells prefix, separator, data and a checksum that verifies |
| `Bech32.CreateChecksum` | src/bech32.cpp:128-139 | six symbols that make the whole verify |
| `Bech32.VerifyChecksum` | src/bech32.cpp:118-125 | true exactly if the checksum of prefix and symbols is one |
| `Bech32.PolyMod` | src/bech32.cpp:37-94 | the 5-bit groups are the coefficients of the remainder of v(x), with a one in front, modulo g(x) over GF(32) |
| `Bech32.PolyModStep` | src/bech32.cpp:80-91 | c(x) becomes c(x) x + v modulo g(x): one step of long division |
| `Bech32.RunIsRemainder` | src/bech32.cpp:37-94 | the checksum state is the remainder modulo g(x), and below 2^30 |
| `Bech32.VerifiedIff` | src/bech32.cpp:117-125 | a prefix and symbols verify exactly if their polynomial leaves 1 modulo g(x) |
| `Bech32.StepDivides` | src/bech32.cpp:80-91 | the bit operations are one step of long division by g(x) |
| `Bech32.FeedbackIs` | src/bech32.cpp:87-91 | the five constants are {1}, {2}, {4}, {8} and {16} times x^6 modulo g(x) |
| `Gf32.BringDown` | src/bech32.cpp:66-78 | bringing down one more coefficient keeps dividend = quotient * divisor + remainder |
| `Gf32.RemainderUnique` | src/bech32.cpp:43-45 | a monic polynomial leaves only one remainder |
| `Gf32.MulExample` | src/bech32.cpp:51-56 | {5} * {26} = {9} |
| `Bech32.ExpandHRP` | src/bech32.cpp:103-115 | the high bits, a zero and the low bits of the prefix |
| `Bech32.BurstDetected` | src/bech32.cpp:118-125 | changing any symbols within six consecutive ones of a valid list of any length, one symbol in particular, makes it invalid |
| `Bech32.OnlyChecksum` | src/bech32.cpp:128-139 | a prefix and data have only one valid checksum |
| `Bech32.StepIsLinear` | src/bech32.cpp:80-91 | a step is linear over exclusive or |
| `Bech32.RunIsLinear` | src/bech32.cpp:37-94 | the checksum of a sum is the sum of the checksums |
| `Bech32.StepStaysBelow` | src/bech32.cpp:80-91 | the state stays below 2^30 |
| `Bech32.StepKernel` | src/bech32.cpp:80-91 | only the zero state steps to zero, so a step is injective |
| `Bech32.ChecksumWorks` | src/bech32.cpp:128-139 | adding the difference to one into six zero symbols makes the checksum one |
| `Bech32.OneSpelling` | src/bech32.cpp:159-189 | a string spells one prefix and one list of symbols |
| `Bech32.CharsetInverse` | src/bech32.cpp:13-25 | the reverse table inverts the character set |
| `Base58.RoundTrip` | src/base58.cpp:24-148 | every byte string decodes from its encoding, with and without a checksum, for any hash |
| `Base58.EncodeBase58` | src/base58.cpp:74-112 | the base-58 digits of the number, one `1` for each leading zero byte; the carry assertion holds at every length |
| `Base58.DecodeBase58` | src/base58.cpp:24-72 | succeeds exactly for alphabet characters with nothing but spaces around them, and gives the bytes they stand for; the carry assertion holds at every length |
| `Base58.DecodeBase58String` | src/base58.cpp:119-122 | the same for the string up to its first NUL |
| `Base58.EncodeBase58Check` | src/base58.cpp:124-131 | encodes the bytes and four bytes of their hash |
| `Base58.DecodeBase58Check` | src/base58.cpp:133-148 | succeeds exactly if the decoded bytes end with the check of those before, and gives those |
| `Base58.DecodedEncoded` | src/base58.cpp:24-112 | decoding undoes encoding, leading zeros included |
| `Base58.EncodedDecoded` | src/base58.cpp:24-112 | encoding undoes decoding: the two sets of strings are in bijection |
| `Base58.RebasedBack` | src/base58.cpp:24-112 | changing the base and back is the identity on digit strings, leading zeros included |
| `Base58.MulAdd` | src/base58.cpp:88-98 | the in-place loop multiplies the buffer's value and adds a digit, leaving no carry if the result fits |
| `Base58.EncodeBufferFits` | src/base58.cpp:84-84 | n * 138 / 100 + 1 base-58 digits hold any n bytes |
| `Base58.DecodeBufferFits` | src/base58.cpp:37-37 | n * 733 / 1000 + 1 bytes hold any n base-58 digits |
| `Base58.SkipZeros` | src/base58.cpp:101-104 | finds the first digit that is not zero |
| `Base58.Translate` | src/base58.cpp:105-111 | ones for zeros, then the digits as characters |
| `CompactBlocks.Transfer` | src/blockencodings.cpp:18-218 | a block of at most 65536 transactions sent in compact form to a node whose short-id matches are genuine, and then sent exactly what is missing, arrives unchanged; at every size initialisation succeeds exactly if no short ids collide and no bucket is crowded |
| `CompactBlocks.PartiallyDownloadedBlock.InitData` | src/blockencodings.cpp:48-168 | does not return exactly for a sound message of 65536 prefilled transactions and some short id; otherwise INVALID exactly for an empty, oversized or badly placed message and FAILED exactly for a collision or a crowded bucket; for messages of every size each place holds what 16-bit positions make of it, and the counter is exact; up to 65536 transactions matches are in the places of their own short ids and the only match of a place is there |
| `CompactBlocks.NarrowIsRight` | src/blockencodings.cpp:80-163 | messages of at most 65536 transactions are put together rightly |
| `CompactBlocks.WideMisses` | src/blockencodings.cpp:80-163 | in longer messages the last short id is never matched |
| `CompactBlocks.WidePlace` | src/blockencodings.cpp:80-163 | in longer messages the places from 65536 on stay empty |
| `CompactBlocks.HangExample` | src/blockencodings.cpp:80-85 | 65536 prefilled transactions in a row and one short id: the call does not return |
| `CompactBlocks.WideExample` | src/blockencodings.cpp:80-163 | 65537 short ids: the transaction of the last one is put in the first place |
| `CompactBlocks.AllRebuilt` | src/blockencodings.cpp:48-168 | the places shared out, the map and the matches together give what is promised of every place |
| `CompactBlocks.PartiallyDownloadedBlock.FillBlock` | src/blockencodings.cpp:176-218 | INVALID for too few or too many transactions; otherwise the gaps are filled in order and the check's outcome is reported; with too few, exactly the places before the first gap that could not be filled have been emptied |
| `CompactBlocks.PartiallyDownloadedBlock.FillAgain` | src/blockencodings.cpp:176-218 | after a call with too few transactions, one with exactly the missing ones succeeds if and only if there are only gaps up to the one that could not be filled |
| `CompactBlocks.FillAgainExample` | src/blockencodings.cpp:183-190 | a transaction in place and a gap: after an empty answer the right one does not help |
| `CompactBlocks.PlacePrefilled` | src/blockencodings.cpp:58-73 | succeeds exactly for well placed prefilled transactions, which are then where their offsets say and nothing else is |
| `CompactBlocks.SlotShortIds` | src/blockencodings.cpp:80-98 | does not return exactly for 65536 prefilled transactions and some short id; otherwise the short ids get the empty places in order and the map sends each to its place modulo 65536 |
| `CompactBlocks.Scan` | src/blockencodings.cpp:83-84 | the search for an empty place never ends exactly if there are 65536 prefilled transactions, that is if no place the 16-bit counter reaches is empty |
| `CompactBlocks.PlacesRightIff` | src/blockencodings.cpp:80-85 | the 16-bit places are the right ones exactly if there are at most 65536 transactions |
| `CompactBlocks.MatchKnown` | src/blockencodings.cpp:104-163 | a place that no known transaction hits stays as it is, any other is empty or holds one that hit it, and a transaction that is the only one to hit a place is there in the end despite the early exit; the counter is the number of places holding a match |
| `CompactBlocks.SettleFull` | src/blockencodings.cpp:126-130 | leaving the loop early, when as many places hold a match as there are short ids, misses no transaction that is alone in hitting a place, even if places coincide |
| `CompactBlocks.MakeCompact` | src/blockencodings.cpp:18-28 | the coinbase prefilled and the short ids of the others in order |
| `CompactBlocks.FilledIsBlock` | src/blockencodings.cpp:182-190 | filling the gaps with exactly the missing transactions gives the block back |
| `CompactBlocks.GenuineParts` | src/blockencodings.cpp:104-163 | if matches are genuine every transaction in place is the right one |
| `CompactBlocks.PlaceLeft` | src/blockencodings.cpp:82-85 | there is an empty place left for every short id |
| `CompactBlocks.RestIsPrefilled` | src/blockencodings.cpp:82-85 | after the last short id only prefilled places follow |
| `CompactBlocks.MapOneMore` | src/blockencodings.cpp:85-102 | the map is as large as the list exactly if no two short ids collide, and holds 16-bit places |
| `CompactBlocks.WriteRead` | src/blockencodings.h:29-69 | strictly increasing 16-bit indexes are read back as written |
| `CompactBlocks.WriteIndexes` | src/blockencodings.h:62-67 | the differences lead back to the indexes |
| `CompactBlocks.ReadIndexes` | src/blockencodings.h:42-61 | throws exactly for a difference or an index out of range; the running offset is a 16-bit number |
| `CompactBlocks.ReadIsExactIff` | src/blockencodings.h:55-61 | what is read without an exception is increasing, and is what the differences mean, exactly if the last index meant fits in 16 bits |
| `CompactBlocks.WrapExample` | src/blockencodings.h:55-61 | after index 65535 the offset starts again at zero: differences 65535 and 0 are read as indexes 65535 and 0 |

## Left out

- AddrManSerialization.Unserialize: the file is a record of its fields; bytes that do not parse as one and the state left behind by an exception are not modelled.
- Coins.CoinsViewCache.AddCoins: without `check` the outputs of a transaction that is no coinbase are promised to be new, as the header documents it.
- Coins.CoinsViewCache.Flush: the database demands a known best block, as its assertion does.
- CuckooCache.Cache.Insert: the default-constructed element, which fills unused slots, is excluded as a key, here and in `Contains`.
- CuckooCache.Run: caches of the seven largest sizes, whose flags have no room, are excluded.
- CuckooCache.Cache.constructor: the depth limit, a floating-point logarithm in the source, is a parameter.
- RollingBloom.RollingBloomFilter.constructor: the floating-point sizing formulas are replaced by parameters; a filter for zero elements, which has no table to index, is excluded.
- Arith.BaseUint.AssignU64: needs two limbs, as the source does.
- Bech32.Encode: symbols of 32 and more, for which the source reads past its table, are excluded.
- `Select_` and `GetChance` of the address manager: probabilistic; only the existence of a slot to select is proved.
- The `int` id counter of the address manager, which overflows after 2^31 entries; the model counts without bound.
- Locking, logging and thread interruption in the address manager and the check queue, and memory ordering in the cuckoo cache.
- Crash recovery and partial batches of the coin database; cursors and cache statistics.
- Hexadecimal and floating-point conversion of big numbers, the bitwise operators on them, and `GetBlockProofEquivalentTime`.
- `FindEarliestAtLeast`, and equality of chains, which is undefined for two empty ones.
- The 32-bit byte counter of SipHash, which overflows after 2^31 bytes; the model counts without bound.
- The `int` buffer sizes of Base58, and the address and key formats built on Base58 and Bech32.
- The log-only counter of extra transactions in compact blocks, the derivation of short-id keys, and transaction serialization.
- Murmur, SHA and RIPEMD hashing, signatures, scripts, the network, wallet, mining and the difficulty rules.
