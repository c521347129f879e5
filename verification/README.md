# Verified models of the node's core data structures

This project models ten components of the PassionCash node in Dafny 4.11 and proves what their code
promises. `dafny verify dfyconfig.toml` checks all of it.

| component | modules | form |
|---|---|---|
| Layered coin caches (`src/coins.*`) | `CoinsView`, `CoinsSpec`, `CoinsCache` | a class per cache and for the database, proved against a stack of plain maps |
| Address manager (`src/addrman.*`) | `AddrManState`, `AddrManCapacity`, `AddrManOps`, `AddrManTimes`, `AddrManHistory`, `AddrManResolve`, `AddrMan`, `AddrManCheck`, `AddrManFile`, `AddrManLoaded`, `AddrManRoundTrip`, `AddrManDisk` | a class whose methods are proved against updates of one state value |
| Verification queue (`src/checkqueue.h`) | `CheckQueue` | a state machine over critical sections, one master and any number of workers |
| Fixed-width integers (`src/arith_uint256.*`) | `Numbers`, `ArithUint`, `ArithCompact` | a class over an array of 32-bit limbs, proved against integers modulo 2^BITS |
| Base58 (`src/base58.cpp`) | `Base58Spec`, `Base58` | loops over an in-place digit buffer, proved against functions on sequences |
| Bech32 (`src/bech32.cpp`) | `Bech32Code`, `Bech32Spec`, `Gf1024`, `Bech32Distance`, `Bech32`, `Bech32Errors` | bit vectors for the code, loops for the strings |
| Cuckoo cache (`src/cuckoocache.h`) | `CuckooFlags`, `CuckooCache` | a class with bit-packed flags |
| Block index and active chain (`src/chain.*`) | `SkipList`, `Chain` | heap objects with parent and skip pointers |
| Transaction selection (`src/blockassembler.cpp`) | `BlockSelection` | a class whose selection loops run over a dependency graph |
| Rolling bloom filter (`src/bloom.*`) | `RollingBloom` | a class over packed two-bit cells |

`Basics` holds options and facts about finite sets, `Numbers` powers, digit sequences and bitwise operations on integers.

## Main results

- **Coins.** Every legal run on a stack of caches of any depth shows at every level what the same run does to plain
  maps (`CoinsCache.Run`). `AddCoin` keeps the flags right exactly under its stated condition, and "FRESH flag misapplied"
  is thrown exactly on a misapplied flag and is otherwise unreachable. A spent nullifier stays spent through any run
  that does not close the last cache holding it, and exactly through those (`CoinsSpec.NoDoubleSpend`,
  `CoinsSpec.SpentThroughoutIff`). As long as no cache is closed, each coin seen is what the last operation on its
  outpoint left (`CoinsSpec.CoinAfterRun`); a scratch cache leaves no trace (`CoinsSpec.ScratchView`), and after a Flush
  the base by itself gives every answer of the flushed cache (`CoinsSpec.FlushedBaseAgrees`).
- **Address manager.** Every run of operations, with whatever times, keeps all indexes, tables and counters consistent
  (`AddrManCheck.Run`). Settling the pending collisions evicts only entries that lose to the one taking their slot, by
  times known before it starts (`AddrManResolve.ResolvedAll`). The
  source's own consistency check answers 0 exactly for the states that pass all its tests, and these are the consistent
  ones exactly if in addition `NotTested` holds, which names what the check does not look at
  (`AddrManCheck.Check`, `AddrManCheck.CheckedMeaning`); a manager it accepts after loading is consistent when it
  returns (`AddrManLoaded.LoadedChecked`). Saving and loading restores everything up to ids
  (`AddrManRoundTrip.RoundTrip`), and any other file restores the invariant exactly if no entry that is kept shares its
  address (`AddrManFile.LoadedInvIff`).
- **Queue.** In every interleaving `Wait` returns the conjunction of the verdicts of all checks added, leaves the queue
  idle, cannot deadlock and comes to an end (`CheckQueue.WaitReturnsConjunction`, `NoDeadlock`, `WaitIsBounded`).
- **Integers.** All limb operations equal the integer ones modulo 2^BITS, division is the floor quotient, and the compact
  form is monotone, stable and clears only low-order bytes.
- **Base58 and Bech32.** Each decoder accepts exactly the strings of its encoder (with spaces around them, or in either
  case), and both buffers are always large enough. The Bech32 checksum detects any burst within six symbols and any
  three errors within a window of 1023 (`Bech32Distance.ThreeErrors`): its generator has three consecutive powers of an
  element of order 1023 as roots. Words of at most 1023 symbols, the expanded part included, differ in four places at
  least (`Bech32Errors.MinimumDistance`), so a wrong character in the part is detected even with one in the data
  (`Bech32Errors.TypingErrors`).
- **Cuckoo cache.** Placement, uniqueness and the epoch bound; an insertion loses at most one element besides ageing,
  exactly after `depth_limit` displacements none of which found a collectable location (`CuckooCache.Cache.Insert`), and
  an element is found for the next `epoch_size + 1` insertions unless it is displaced or erased (`CuckooCache.Run`).
- **Chain.** The skip list equals the parent walk and takes at most b(b+1)/2 steps for heights below 2^b
  (`SkipList.StepsBound`); the search by time finds the first block that is late enough.
- **Selection and bloom filter.** A block is a run of transactions by priority and one by score, each the best of all
  whose parents are in and that fit, and the latter pay the relay fee or fill the minimum size
  (`BlockSelection.BlockAssembler.CreateNewBlock`); nothing selectable is forgotten. The filter contains a key exactly if
  each of its hashes collides with one of a key still remembered.

## Points where the code needs care

- `src/cuckoocache.h:395-396` says the first displaced location is `locs[0]`; the index computed there is 1
  (`CuckooCache.FirstDisplaced`), and the model follows the code.
- `src/addrman.cpp:424` reads `mapAddr` with `[]`, which answers 0 for an unknown address, so the check does not notice
  a missing address of entry 0 (`AddrManCheck.ForgottenAddress`: it notices every other one). The same `[]` inserts the
  address, so a manager it accepts is consistent afterwards exactly if nothing else is wrong
  (`AddrManCheck.CheckRepairs`). `AddrManLoaded.RepeatedUnnoticed` gives files that lead there.
- `Good`, `Attempt` and `ResolveCollisions` accept times that no clock shows. The tables stay consistent, but the check
  complains; `AddrManTimes` says exactly when, for each of them and for whole `ResolveCollisions` runs. An attempt with
  a time before the last success counts again (`AddrManHistory.CountsAgainIff`).
- `Unserialize` does not look for repeated addresses (`src/addrman.h:391-428`). `AddrManFile.RepeatedAddress` gives files
  that load to a wrong `mapAddr`, `AddrManFile.LoadedInvIff` the exact condition, and `AddrManLoaded.LoadedInvRecords`
  that condition on the records when the table of the file is not used.
- `src/blockassembler.cpp:139-153` does not reset the shielded size. `BlockSelection.TwoBlocks` is a second block that
  refuses a transaction because of it, and `BlockSelection.BlockAssembler.CarriedRefuses` says exactly what is refused.
  This needs one assembler used for two blocks; the callers in the repository build a new one for each.
- `operator*=` with the receiver as its own argument gives 0 (`src/arith_uint256.cpp:75-88`); `ArithUint.BaseUint.MulAssign`
  states both cases.
- `AddCoin` without overwrite permission does not look into the base (`src/coins.cpp:95-115`).
  `CoinsCache.BlindAddRevives` shows that this is the one case in which spending the added coin brings an older one
  back, `CoinsCache.AddThenSpend` is that run of the two methods, and the contract of `AddCoin` gives the exact
  condition for right flags.
- A Flush with a null best block or best anchor copies the null upwards (`src/coins.cpp:302-304`); the two lemmas
  `FlushKeepsBestBlockIff` and `FlushKeepsBestAnchorIff` say exactly when this shows.

## Model

| member | source | states |
|---|---|---|
| `CoinsView.LookupDeterminesView` | src/coins.cpp:152-166 | two views that answer every AccessCoin alike are the same map |
| `CoinsView.OverCoinsUpdate` | src/coins.h:137-140 | replacing a cache entry whose flags are right changes the view at that outpoint only and keeps the flags right |
| `CoinsView.OverCoinsErase` | src/coins.cpp:142-147 | forgetting an entry that is FRESH or unmodified leaves every other coin of the view as it was |
| `CoinsSpec.MemoKeepsBest` | src/coins.cpp:586-590 | memoising the best anchor on the way changes neither best hash nor anything else that is visible |
| `CoinsSpec.PushPopEffect` | src/coins.cpp:486-573 | the root pushed or popped to is the best anchor; a pushed one leads to its tree unless it was best before, a popped one leads nowhere, and no other root changes |
| `CoinsSpec.PopUndoesPush` | src/coins.cpp:486-573 | PopAnchor to the previous root undoes PushAnchor exactly when the root was best already or new to the view |
| `CoinsSpec.FlushKeepsBestBlockIff` | src/coins.cpp:302-320 | Flush keeps the best block seen from the top exactly unless a null hash is copied over a differing one |
| `CoinsSpec.FlushKeepsBestAnchorIff` | src/coins.cpp:302-320 | the same for the best anchor |
| `CoinsSpec.FlushKeepsAnchorsIff` | src/coins.cpp:308-320 | after a Flush parent and child show the same coins, nullifiers and anchors, and the anchors are the old ones exactly when the parent is a cache or the empty tree is among them |
| `CoinsSpec.FlushedBaseAgrees` | src/txdb.cpp:88-155 | after a legal Flush the base alone reports the best block and best anchor of the flushed view and has its coins, nullifiers and anchors; a database has the flushed block; nothing below the base changes |
| `CoinsSpec.SetThenFlush` | src/coins.cpp:181-184 | a best block that is set and flushed is what the view and its base report |
| `CoinsSpec.IgnoredScripts` | src/coins.cpp:97-98 | AddCoin ignores exactly scripts that start with 0x6a or 0xc1 or are longer than 10000 bytes |
| `CoinsSpec.OperationBelow` | src/coins.h:282-425 | an operation other than Flush, opening or closing changes no answer of any view below |
| `CoinsSpec.ScratchView` | src/coins.h:282-425 | any run on a new cache that is closed without a Flush leaves every answer of every view as it was |
| `CoinsSpec.CoinAfterRun` | src/coins.cpp:95-150 | after any run that closes no cache the coin seen is what the last AddCoin or SpendCoin on its outpoint left, whatever was flushed, opened, read or uncached in between |
| `CoinsSpec.MarkAllMembership` | src/coins.cpp:575-584 | SetNullifiers changes exactly the nullifiers of the transaction, to the given state |
| `CoinsSpec.NoDoubleSpend` | src/coins.cpp:575-607 | a nullifier spent in the views on top and not unmarked makes every later shielded transaction reusing it unacceptable, across any run that never closes the last of these views |
| `CoinsSpec.SpentThroughoutIff` | src/coins.cpp:575-607 | that condition is exact: with no view below holding it and no operation touching it, the nullifier stays spent throughout exactly if the last view holding it is never closed |
| `CoinsView.InjectiveRootExists` | src/coins.cpp:486-526 | the assumption that roots separate trees can be met |
| `CoinsCache.MergeCoinOk` | src/coins.cpp:250-292 | merging one child entry keeps the parent's flags right and gives the parent the child's view there |
| `CoinsCache.MergeAnchorOk` | src/coins.cpp:187-217 | the same for an anchor, whose tree is determined by its root |
| `CoinsCache.BatchWriteCoins` | src/coins.cpp:247-297 | the loop throws exactly on a misapplied FRESH flag and otherwise makes the parent's view the child's |
| `CoinsCache.BatchWriteAnchors` | src/coins.cpp:187-217 | afterwards the parent shows exactly the child's anchors, flags still right |
| `CoinsCache.BatchWriteNullifiers` | src/coins.cpp:219-239 | afterwards the parent shows exactly the child's nullifiers, flags still right |
| `CoinsCache.NotMisapplied` | src/coins.cpp:267-272 | with right flags the throw is unreachable |
| `CoinsCache.BlindAddRevives` | src/coins.cpp:95-150 | after adding a coin and spending it the outpoint is empty, except exactly when the add had no overwrite permission and the coin was in the base but not looked up; then the base's coin is back and the cache is as before the add |
| `CoinsCache.AddThenSpend` | src/coins.cpp:95-150 | the same for the two methods run one after the other; in the excepted case every view is what it was before both |
| `CoinsCache.CoinsDB.BatchWrite` | src/txdb.cpp:88-155 | the database takes the child's coins and nullifiers, its best block, and its best anchor unless that is null; it always shows the empty tree |
| `CoinsCache.CoinsDB.GetSaplingAnchorAt` | src/sapling/sapling_txdb.cpp:13-23 | the stored anchors, and the empty tree at its root |
| `CoinsCache.CoinsViewCache.OnDatabase` | src/coins.cpp:58 | a new cache shows what the database shows |
| `CoinsCache.CoinsViewCache.constructor` | src/coins.cpp:58 | a new cache on a cache shows what that one shows, as the reference stack with one more view |
| `CoinsCache.CoinsViewCache.FetchCoin` | src/coins.cpp:67-83 | no view changes, and the entry found carries the view's coin |
| `CoinsCache.CoinsViewCache.GetCoin` | src/coins.cpp:85-93 | the view's coin, reported found exactly if this cache or anything below has an entry, be it a spent one |
| `CoinsCache.CoinsViewCache.AccessCoin` | src/coins.cpp:152-160 | exactly the view's coin, the empty one if absent, with no view changed |
| `CoinsCache.CoinsViewCache.HaveCoin` | src/coins.cpp:162-166 | exactly whether the view has an unspent coin |
| `CoinsCache.CoinsViewCache.AddCoin` | src/coins.cpp:95-115 | throws exactly on a clash visible in this cache, sets exactly the entry and flags stated, leaves the flags right exactly under the stated condition, and then adds the coin to the top view and changes no other |
| `CoinsCache.CoinsViewCache.SpendCoin` | src/coins.cpp:134-150 | spends an entry of the cache as it stands, whatever its flags; with right flags removes the coin from the top view only and hands out what was there |
| `CoinsCache.CoinsViewCache.Uncache` | src/coins.cpp:322-329 | exactly an entry without flags goes, and no view changes |
| `CoinsCache.CoinsViewCache.GetBestBlock` | src/coins.cpp:174-179 | the first non-null block hash going down, memoised in the caches passed |
| `CoinsCache.CoinsViewCache.SetBestBlock` | src/coins.cpp:181-184 | only the top view's block changes |
| `CoinsCache.CoinsViewCache.GetBestAnchor` | src/coins.cpp:586-590 | the first non-null anchor going down, memoised in the caches passed |
| `CoinsCache.CoinsViewCache.GetSaplingAnchorAt` | src/coins.cpp:447-469 | exactly the view's tree at that root, with no view changed |
| `CoinsCache.CoinsViewCache.GetNullifier` | src/coins.cpp:471-483 | exactly whether the view has the nullifier, with no view changed |
| `CoinsCache.CoinsViewCache.PushAnchor` | src/coins.cpp:486-526 | the reference Push on the stack of views |
| `CoinsCache.CoinsViewCache.PopAnchor` | src/coins.cpp:528-573 | the reference Pop on the stack of views |
| `CoinsCache.CoinsViewCache.SetNullifiers` | src/coins.cpp:575-584 | marks or unmarks all nullifiers of the transaction in the top view and changes nothing else |
| `CoinsCache.CoinsViewCache.HaveShieldedRequirements` | src/coins.cpp:592-607 | exactly whether every spend has a fresh nullifier and a known anchor |
| `CoinsCache.CoinsViewCache.BatchWrite` | src/coins.cpp:241-306 | throws exactly on a misapplied flag and otherwise shows the child's view |
| `CoinsCache.CoinsViewCache.Flush` | src/coins.cpp:308-320 | the parent's view becomes this cache's view, the parent alone reports the same best block and anchor, and the cache is empty over it |
| `CoinsCache.Perform` | src/coins.cpp:67-329 | one operation on the caches is the operation on the plain views, for every operation |
| `CoinsCache.Run` | src/coins.cpp:67-607 | every legal run on a stack of any depth shows, at every level, what the run does to plain maps |
| `CheckQueue.BatchCount` | src/checkqueue.h:108 | a batch has at least one check and never more than are queued |
| `CheckQueue.StepKeeps` | src/checkqueue.h:67-125 | every critical section of every thread, in any interleaving, keeps the counters, verdicts and wake-ups right |
| `CheckQueue.ReachableInv` | src/checkqueue.h:67-125 | in every reachable state nTodo is queued plus in-flight checks, nTotal and nIdle count threads, and the master never sleeps un-notified at zero |
| `CheckQueue.BatchVerdict` | src/checkqueue.h:116-124 | a finished batch contributes exactly the conjunction of its verdicts |
| `CheckQueue.NoWorkLeft` | src/checkqueue.h:89-102 | with an empty queue and nTodo zero no thread holds a batch |
| `CheckQueue.WaitReturnsConjunction` | src/checkqueue.h:138-141 | Wait returns the conjunction of the verdicts of all checks added since the last one and leaves every worker asleep and the queue idle |
| `CheckQueue.NewControlFindsIdleQueue` | src/checkqueue.h:181-188 | the assertion of the next control object holds |
| `CheckQueue.NoDeadlock` | src/checkqueue.h:67-125 | while the master waits, some thread can take a step that is not a spurious wake-up |
| `CheckQueue.StepLighter` | src/checkqueue.h:67-125 | every such step makes a measure of the remaining work smaller |
| `CheckQueue.WaitIsBounded` | src/checkqueue.h:138-141 | however threads are interleaved, a Wait lasts boundedly many steps apart from spurious wake-ups |
| `AddrManState.DeletedInv` | src/addrman.cpp:115-127 | Delete keeps all indexes and counters right and removes exactly that entry |
| `AddrManState.ClearedNewInv` | src/addrman.cpp:129-142 | clearing a slot drops one reference and, with the last one, the entry; everything else stays |
| `AddrManState.CreatedInv` | src/addrman.cpp:83-93 | a new entry enters every index under an unused id |
| `AddrManState.EvictedInv` | src/addrman.cpp:163-184 | the evicted entry is back in the new table at the slot its own source gives, its tried slot is free, and no other tried slot changes |
| `AddrManState.MadeTriedInv` | src/addrman.cpp:144-190 | MakeTried puts the entry into its tried slot and changes no other; the entry found there returns to the new table; all indexes agree |
| `AddrManState.GrowsKeepsCollisions` | src/addrman.cpp:243-249 | since filled tried slots stay filled and ids keep their address, every pending collision keeps its rival |
| `AddrManState.SlotsFromHashes` | src/addrman.cpp:14-33 | each slot is one of 64 places in one of 256 tried or 1024 new buckets, and comes from the address's own hashes |
| `AddrManCapacity.Capacity` | src/addrman.h:214-220 | in every consistent state at most 16384 entries are tried and 65536 new, and there are no others |
| `AddrManOps.AfterGoodConsistent` | src/addrman.cpp:192-256 | Good keeps all tables consistent and pending collisions with rivals |
| `AddrManOps.PlacedInv` | src/addrman.cpp:307-327 | the last part of Add enters one reference or removes an entry left without any |
| `AddrManOps.AfterAddConsistent` | src/addrman.cpp:258-329 | Add keeps all tables consistent, whatever the random choice |
| `AddrManOps.StatisticsConsistent` | src/addrman.cpp:331-351 | changing an entry's times and counts disturbs nothing |
| `AddrManOps.CollisionHasRival` | src/addrman.cpp:540-597 | a pending collision still known has an occupied tried slot, held by a known entry |
| `AddrMan.AddressManager.Find` | src/addrman.cpp:70-81 | finds exactly the known addresses |
| `AddrMan.AddressManager.SwapRandom` | src/addrman.cpp:95-113 | two ids trade places in vRandom and in their entries |
| `AddrMan.AddressManager.Delete` | src/addrman.cpp:115-127 | the state value's Delete; the asserted conditions are its requirements, shown at every call |
| `AddrMan.AddressManager.ClearNew` | src/addrman.cpp:129-142 | the state value's ClearNew, its assertion included |
| `AddrMan.AddressManager.MakeTried` | src/addrman.cpp:144-190 | the state value's MakeTried; all of its assertions hold |
| `AddrMan.AddressManager.FindNewBucket` | src/addrman.cpp:221-236 | a bucket holding the entry is always found, so the no-bucket exit is dead |
| `AddrMan.AddressManager.Good` | src/addrman.cpp:192-256 | exactly AfterGood, for every time, with consistency kept; seen from the tables it is what AddrManResolve.GoodEffect says |
| `AddrMan.AddressManager.Add` | src/addrman.cpp:258-329 | exactly AfterAdd for routable addresses, nothing otherwise; reports exactly the new ones; a known one gains a reference exactly if a draw among 2^references is 0 |
| `AddrMan.AddressManager.Place` | src/addrman.cpp:307-327 | one more reference if its slot can be had, else an unreferenced entry is deleted |
| `AddrMan.AddressManager.Attempt` | src/addrman.cpp:331-351 | exactly AfterAttempt, for every time, with consistency kept |
| `AddrMan.AddressManager.Connected` | src/addrman.cpp:498-516 | exactly AfterConnected, with consistency kept |
| `AddrMan.AddressManager.SetServices` | src/addrman.cpp:518-534 | exactly AfterSetServices, with consistency kept |
| `AddrMan.AddressManager.GetAddr` | src/addrman.cpp:477-496 | distinct known addresses of good quality, as many as the limits allow or else all of them; only vRandom is permuted |
| `AddrMan.AddressManager.ResolveCollisions` | src/addrman.cpp:540-597 | every pending collision is settled once; each tried slot holds what it held or one of them to which that lost, by the times before the call; the no-longer-a-collision branch is dead |
| `AddrMan.AddressManager.ResolveOne` | src/addrman.cpp:545-595 | a rival connected within 4 hours is spared and the collision given up; one that failed an attempt between a minute and 4 hours old, or was not tried while the other waited 40 minutes, gives up its slot and returns to the new table; otherwise nothing changes |
| `AddrMan.AddressManager.SelectTriedCollision` | src/addrman.cpp:599-624 | returns the known tried entry in the slot of a pending collision, never id -1, or drops exactly one unknown id |
| `AddrManResolve.GoodEffect` | src/addrman.cpp:192-256 | a known service gets the time of its success and no attempts; an entry not tried yet takes its tried slot, whose holder returns to the new table, or becomes a pending collision while there are fewer than ten; no other statistics change |
| `AddrManResolve.ResolveEffect` | src/addrman.cpp:545-595 | one collision on the state value: slot, pending set and statistics in terms of the two entries' times |
| `AddrManResolve.ResolvedAll` | src/addrman.cpp:540-597 | settling any collisions in any order: a slot changes only to a collision its old holder lost to; a collision whose rival loses leaves that slot with one of those settled if it is still known; what stays pending has a rival neither lost nor spared |
| `AddrManHistory.SeenAgainServices` | src/addrman.cpp:279-280 | another announcement loses no service bit and adds none but its own |
| `AddrManHistory.SeenAgainTime` | src/addrman.cpp:272-277 | the time seen never goes back and moves only by more than an hour, or a day for an old announcement, to the announced one less the penalty |
| `AddrManHistory.AddEffect` | src/addrman.cpp:258-305 | a new entry has what was announced, less the penalty; a known one differs by the announcement only; no other entry comes in or changes its statistics |
| `AddrManHistory.PlacedEffect` | src/addrman.cpp:307-327 | a new slot changes hands exactly if it is free, its holder is terrible, or the holder has another reference and the newcomer none; exactly entries left without a reference go |
| `AddrManHistory.KnownReferences` | src/addrman.cpp:282-327 | a known entry gains a reference only from news newer than what it has, and never one that is tried or has eight; with luck it takes a free slot |
| `AddrManHistory.ConnectedEffect` | src/addrman.cpp:498-516 | moves the time seen of the exact service forward, exactly when by more than 20 minutes, and nothing else |
| `AddrManHistory.SetServicesEffect` | src/addrman.cpp:518-534 | replaces the services of the exact service only |
| `AddrManHistory.TerribleReasons` | src/addrman.cpp:35-53 | what is not worth keeping, in minutes and days |
| `AddrManHistory.TerribleStays` | src/addrman.cpp:35-53 | what is terrible stays so as time passes, unless it was only seen in the future |
| `AddrManHistory.AttemptEffect` | src/addrman.cpp:331-351 | an attempt notes its time at the exact service only and counts exactly if none has since the last success of any peer |
| `AddrManHistory.FailuresCountOnce` | src/addrman.cpp:331-351 | over any run of attempts from the last success on, an entry's count goes up once exactly if one counted and none had before |
| `AddrManHistory.CountsAgainIff` | src/addrman.cpp:331-351 | an attempt that counted counts again exactly for a time before the last success |
| `AddrManTimes.AfterGoodTimes` | src/addrman.cpp:192-256 | Good keeps the tested times right exactly for an unknown address, a time past 0, or time 0 and an entry that collides |
| `AddrManTimes.AfterAttemptTimes` | src/addrman.cpp:331-351 | Attempt keeps them right exactly for an unknown address or a time from 0 on |
| `AddrManTimes.AfterResolveTimes` | src/addrman.cpp:545-595 | settling a collision keeps them right exactly unless it replaces the rival at a time not past 0 |
| `AddrManTimes.AfterResolveAllTimes` | src/addrman.cpp:540-597 | settling all of them keeps the times right exactly if none replaces its rival or the time is past 0 |
| `AddrManTimes.AfterAddTimes` | src/addrman.cpp:258-329 | Add always keeps them right |
| `AddrManCheck.ConsistentIsChecked` | src/addrman.cpp:400-474 | under the invariant of all operations Check_ finds nothing wrong exactly if all times are right |
| `AddrManCheck.CheckedMeaning` | src/addrman.cpp:400-474 | a state is consistent with right times exactly if it passes all tests of Check_ and the four things hold that it does not look at |
| `AddrManCheck.ForgottenAddress` | src/addrman.cpp:424 | if mapAddr loses the address of an entry the check complains exactly unless it is entry 0 |
| `AddrManCheck.CheckRepairs` | src/addrman.cpp:400-474 | a manager the check accepts is consistent with right times when it returns exactly if ids come from the counter and mapAddr has no entry of its own |
| `AddrManCheck.CheckEntry` | src/addrman.cpp:408-432 | no error exactly when the entry passes; reading mapAddr has inserted the address exactly for entry 0, or for the entry it complains of |
| `AddrManCheck.CheckEntries` | src/addrman.cpp:408-432 | no error exactly when every entry passes; then the two working sets are the tried and the new entries and entry 0 has its address |
| `AddrManCheck.CheckTriedTable` | src/addrman.cpp:439-451 | nothing left over exactly when each tried entry sits at its own slot and nothing else sits anywhere |
| `AddrManCheck.CheckNewTable` | src/addrman.cpp:453-464 | nothing left over exactly when each new entry occurs its reference count of times, at its hashed positions |
| `AddrManCheck.Check` | src/addrman.cpp:400-474 | answers 0 exactly for the states that pass all its tests, with what it does not test exactly for the consistent ones; and states the manager on return, addresses inserted by reading included |
| `AddrManCheck.Run` | src/addrman.cpp:192-624 | any run of operations, with any times, keeps a manager consistent, and after each of them the check answers 0 exactly if all times in the entries are right, so always when all times given are timely |
| `AddrManFile.LoadedInvIff` | src/addrman.h:370-465 | every file restores all but the addresses, and the whole invariant exactly if the key is not null and no entry that is kept shares its address with another one read |
| `AddrManFile.RepeatedAddress` | src/addrman.h:391-428 | two new records with one address load to an inconsistent manager, for all hashes |
| `AddrManFile.LoadedInv` | src/addrman.h:370-465 | every well-formed file, of any version and bucket count, loads to a state with the whole invariant |
| `AddrManFile.RankIndex` | src/addrman.h:333-343 | each written entry stands in the file at the index the table rows use for it |
| `AddrManLoaded.LoadedChecked` | src/addrman.h:464 | the check that ends Unserialize accepts exactly the files with a key and right times in which no entry kept but entry 0 shares its address, and then leaves the manager consistent |
| `AddrManLoaded.RepeatedUnnoticed` | src/addrman.h:391-464 | two new records with one address load to an inconsistent manager that the check accepts exactly if key and first time are right and both records have one slot |
| `AddrManLoaded.LoadedInvRecords` | src/addrman.h:370-465 | for a file whose table is not used, the invariant is restored exactly if the key is not null and no record that gets a slot shares its address, by the hashed slots of the records |
| `AddrManRoundTrip.SavedIsWellFormed` | src/addrman.h:320-367 | the file of a consistent manager is well formed and its table is usable |
| `AddrManRoundTrip.SlotReproduced` | src/addrman.h:432-447 | an index read back goes into the slot it came from |
| `AddrManRoundTrip.NothingPruned` | src/addrman.h:449-459 | after loading a saved manager there is nothing to prune |
| `AddrManRoundTrip.RoundTrip` | src/addrman.h:320-465 | saving and loading restores every written field, reference count, table slot and counter, up to ids and the order of vRandom |
| `AddrManDisk.Serialize` | src/addrman.h:320-367 | writes exactly that file; both count assertions hold |
| `AddrManDisk.Clear` | src/addrman.h:468-490 | an empty manager under a new key, pending collisions kept |
| `AddrManDisk.Unserialize` | src/addrman.h:370-465 | throws exactly on a wrong key size; otherwise the loaded state, with the whole invariant exactly under that condition; in a debug build with the answer of the final check and what it leaves |
| `AddrManDisk.SaveAndLoad` | src/addrman.h:320-465 | another manager that loads the file is the same up to ids |
| `ArithUint.Truncated` | src/arith_uint256.h:140-150 | a full row of limbs with a carry holds the exact value modulo 2^BITS |
| `ArithUint.BaseUint.AddAssign` | src/arith_uint256.h:140-150 | sum modulo 2^BITS, also with itself as argument; 64-bit intermediates do not overflow |
| `ArithUint.BaseUint.SubAssign` | src/arith_uint256.h:152-156 | difference modulo 2^BITS |
| `ArithUint.BaseUint.Negate` | src/arith_uint256.h:82-89 | negation modulo 2^BITS |
| `ArithUint.BaseUint.Increment` | src/arith_uint256.h:178-185 | plus one modulo 2^BITS |
| `ArithUint.BaseUint.Decrement` | src/arith_uint256.h:195-202 | minus one modulo 2^BITS |
| `ArithUint.BaseUint.ShiftLeft` | src/arith_uint256.cpp:29-43 | times 2^shift modulo 2^BITS, for every shift |
| `ArithUint.BaseUint.ShiftRight` | src/arith_uint256.cpp:46-60 | floor of the quotient by 2^shift, for every shift |
| `ArithUint.BaseUint.MulAssign32` | src/arith_uint256.cpp:63-73 | product with a word modulo 2^BITS |
| `ArithUint.BaseUint.MulAssign` | src/arith_uint256.cpp:75-88 | product modulo 2^BITS for another object, 0 for the receiver itself |
| `ArithUint.BaseUint.CompareTo` | src/arith_uint256.cpp:117-126 | the sign of the comparison of the values |
| `ArithUint.BaseUint.Bits` | src/arith_uint256.cpp:214-226 | the position of the highest one-bit, 0 exactly for zero |
| `ArithUint.BaseUint.DivAssign` | src/arith_uint256.cpp:91-114 | floor quotient for every non-zero divisor; throws exactly for zero |
| `ArithCompact.EncodeMeaning` | src/arith_uint256.cpp:294-314 | what the size and mantissa of GetCompact are: the one range the scaled value lies in and its quotient |
| `ArithCompact.EncodeMonotone` | src/arith_uint256.cpp:294-314 | GetCompact preserves order |
| `ArithCompact.DecodeMeaning` | src/arith_uint256.cpp:273-292 | the value of every compact form is its mantissa times 256^(size-3), rounded down, modulo 2^256 |
| `ArithCompact.DecodeEncode` | src/arith_uint256.cpp:273-314 | SetCompact of GetCompact clears low-order bytes only, with neither flag set, for every 256-bit value |
| `ArithCompact.EncodeStable` | src/arith_uint256.cpp:273-314 | GetCompact does not change again after that round trip |
| `ArithCompact.SignedEncode` | src/arith_uint256.cpp:286-312 | the sign bit changes no value, and is read back as negative exactly for a number that is not zero |
| `ArithCompact.OverflowMeaning` | src/arith_uint256.cpp:286-290 | pfOverflow is set exactly when mantissa * 256^(size-3) is at least 2^256 |
| `ArithCompact.SetCompact` | src/arith_uint256.cpp:273-292 | the limb code computes the value and both flags |
| `ArithCompact.GetCompact` | src/arith_uint256.cpp:294-314 | the limb code computes the code with its sign bit; both assertions hold |
| `ArithCompact.CompactRoundTrip` | src/arith_uint256.cpp:273-314 | GetCompact then SetCompact on limbs: low-order bytes cleared, no overflow, negative exactly as asked for a non-zero number |
| `Base58Spec.ToBaseOfBig` | src/base58.cpp:88-126 | digits without leading zeroes are determined by their number |
| `Base58Spec.ConvertBack` | src/base58.cpp:23-126 | converting between the bases and back gives the digits, leading zeroes included |
| `Base58Spec.DecodeMeaning` | src/base58.cpp:23-71 | the decoder accepts exactly the encoder's strings with any white space around them, and returns what was encoded |
| `Base58Spec.DecodeOfEncode` | src/base58.cpp:23-126 | decoding an encoding gives the bytes back, for every byte sequence |
| `Base58Spec.DecodeCheckMeaning` | src/base58.cpp:138-167 | the same for the variants with a checksum, for every hash function |
| `Base58.MultiplyAdd` | src/base58.cpp:43-53 | the inner loop multiplies the buffer's number and adds a digit, up to a carry out of the top |
| `Base58.EncodeSizeEnough` | src/base58.cpp:98 | the 138/100 buffer holds every number of that many bytes |
| `Base58.DecodeSizeEnough` | src/base58.cpp:36 | the 733/1000 buffer holds every number of that many characters |
| `Base58.Encode` | src/base58.cpp:88-126 | the loops compute the encoding; the carry assertion holds |
| `Base58.Decode` | src/base58.cpp:23-71 | the loops compute the decoding, failures included; the carry assertion holds |
| `Bech32Code.PolyMod` | src/bech32.cpp:37-94 | the loop is the run of single steps from 1 |
| `Bech32Code.StepLinear` | src/bech32.cpp:64-92 | one step is linear over exclusive or |
| `Bech32Code.RunLinear` | src/bech32.cpp:64-94 | so is the whole checksum, in start state and input together |
| `Bech32Code.StepInjective` | src/bech32.cpp:64-92 | a step on a non-zero 30-bit state with symbol zero is non-zero |
| `Bech32Code.BurstDetected` | src/bech32.cpp:64-94 | a difference within six consecutive symbols has a non-zero remainder, at any length |
| `Bech32Spec.RevMeaning` | src/bech32.cpp:12-26 | the two character tables are inverse, up to case |
| `Bech32Spec.BitsOfByte` | src/bech32.cpp:107-114 | the two symbols of a character make up its byte |
| `Bech32Spec.ChecksumVerifies` | src/bech32.cpp:118-139 | appending the created checksum passes verification, for every part and all values |
| `Bech32Spec.BurstErrors` | src/bech32.cpp:118-125 | two verifying sequences of one part and length that differ within six consecutive symbols are equal |
| `Gf1024.Order` | src/bech32.cpp:45-49 | the element of GF(1024) behind the code has order 1023, on every element but zero |
| `Bech32Distance.GeneratorHasRoots` | src/bech32.cpp:45-49 | the multiples of x^6 modulo the generator have the values of x^6 at three consecutive powers of that element |
| `Bech32Distance.StepAt` | src/bech32.cpp:64-92 | one step of the checksum is a step of Horner's rule at each of these roots |
| `Bech32Distance.OnlyZero` | src/bech32.cpp:45-49 | three error values at places less than 1023 apart that vanish at all three roots are zero |
| `Bech32Distance.ThreeErrors` | src/bech32.cpp:45-49 | two verifying sequences of one part and length that differ in at most three symbols within a window of 1023 are equal |
| `Bech32Errors.MinimumDistance` | src/bech32.cpp:45-49 | different words of at most 1023 symbols with the same remainder differ in at least four places |
| `Bech32Errors.VerifiedDistance` | src/bech32.cpp:103-125 | two verified pairs of part and values of one shape are the same or differ in four symbols, those of the expanded part included |
| `Bech32Errors.PartErrors` | src/bech32.cpp:103-125 | a wrong byte in the part is detected, even with a wrong symbol among the values |
| `Bech32.ChecksumUnique` | src/bech32.cpp:118-139 | a verified tail is the created checksum |
| `Bech32.DecodeMeaning` | src/bech32.cpp:147-192 | the decoder accepts exactly the strings, in one case and of at most 1023 characters, whose lower case encodes the result with a plain part |
| `Bech32.DecodeOfEncode` | src/bech32.cpp:147-192 | decoding an encoding gives it back exactly for plain parts, values below 32 and at most 1023 characters |
| `Bech32.EncodeOfDecode` | src/bech32.cpp:147-192 | re-encoding a decoded string gives its lower-case form |
| `Bech32Errors.TypingErrors` | src/bech32.cpp:162-192 | two accepted strings of one length and separator that differ in at most one character before and one after it are the same but for case |
| `Bech32.Encode` | src/bech32.cpp:147-159 | the loop computes the encoding, empty for values of 32 and more |
| `Bech32.Decode` | src/bech32.cpp:162-192 | the loops compute the decoding, all rejections included |
| `CuckooFlags.BitPackedFlags.constructor` | src/cuckoocache.h:61-68 | all flags are set |
| `CuckooFlags.BitPackedFlags.BitSet` | src/cuckoocache.h:92-95 | sets that flag and no other |
| `CuckooFlags.BitPackedFlags.BitUnset` | src/cuckoocache.h:103-106 | clears that flag and no other |
| `CuckooCache.LiveSwap` | src/cuckoocache.h:406-411 | swapping a kept slot with the element in hand loses nothing |
| `CuckooCache.SwappedKeeps` | src/cuckoocache.h:406-411 | a run of displacements neither creates nor destroys an element |
| `CuckooCache.NextDiffers` | src/cuckoocache.h:392-406 | the next location is not the one just filled, when the eight differ |
| `CuckooCache.Cache.constructor` | src/cuckoocache.h:315-329 | an empty table of a power of two of collectable slots; the epoch size is 45 percent of it but at least 1, and locations are the hashes modulo the size |
| `CuckooCache.Cache.EpochCheck` | src/cuckoocache.h:264-296 | ages the epochs exactly when the counter has run out on a full epoch, and leaves room for one more entry below the bound |
| `CuckooCache.Cache.Place` | src/cuckoocache.h:371-416 | the elements kept are the old ones and the new one, less one exactly after depth_limit displacements, each of an element with no collectable location into another of its own; the last in hand is the one dropped; otherwise the last one settles in a collectable location of its own, or the new one was stored already |
| `CuckooCache.Cache.Insert` | src/cuckoocache.h:368-416 | ages exactly when counter and epoch say so and then keeps exactly the current epoch; what is placed, displaced and dropped is as for Place, so nothing is dropped while a location of the new element is collectable, and only if each of its locations is one of an element inserted before (or the blank one was inserted) |
| `CuckooCache.FirstDisplaced` | src/cuckoocache.h:395-406 | the location displaced first is the second of the eight |
| `CuckooCache.Cache.Contains` | src/cuckoocache.h:443-453 | exactly whether one of its locations holds the element, which but for the blank one is whether it is stored; never for one not inserted; erasing releases exactly the first such location |
| `CuckooCache.Run` | src/cuckoocache.h:264-453 | after any run, current-epoch entries plus counter are at most epoch_size + max(1, epoch_size/16); an insertion loses an element only if each of its locations is one of an element inserted before (or the blank one was inserted); a query finds only what was inserted before it, and finds an element for the next epoch_size + 1 insertions unless that was displaced or erased |
| `SkipList.GetSkipHeight` | src/chain.cpp:78-86 | the skip height is below the height |
| `SkipList.ClearsLowestOne` | src/chain.cpp:74-75 | InvertLowestOne clears exactly the lowest one-bit |
| `Chain.BlockIndex.GetAncestor` | src/chain.cpp:88-109 | in a tree grown by BuildSkip, the parent walk's ancestor at every height, null outside, in at most b(b+1)/2 steps for a height below 2^b |
| `SkipList.OddNext` | src/chain.cpp:96-105 | from an odd height the skip is taken unless it goes too far |
| `SkipList.EvenNext` | src/chain.cpp:96-105 | from an even height the skip is taken or the better one of its parent, in two steps |
| `SkipList.BetterSkip` | src/chain.cpp:96-105 | when the parent's skip is better, what is left has fewer one-bits |
| `SkipList.StepsBound` | src/chain.cpp:82-109 | a walk between heights below 2^b takes at most b(b+1)/2 steps |
| `Chain.BlockIndex.BuildSkip` | src/chain.cpp:116-120 | afterwards the entry may join the tree |
| `Chain.BlockMap.AddToBlockIndex` | src/validation.cpp:2500-2543 | a known hash returns its entry and changes nothing; a new one is linked to its known parent with its skip built and time and work accumulated, all entries stay a tree for GetAncestor, and the best header has the most work and only yields to more |
| `Chain.TimeMaxMeaning` | src/validation.cpp:2534 | nTimeMax is the latest time on the way from the first block |
| `Chain.ChainWorkMeaning` | src/validation.cpp:2535 | nChainWork is the sum of the proofs on that way |
| `Chain.ActiveChain.FindEarliestAtLeast` | src/chain.cpp:67-72 | the binary search over nTimeMax finds the first block of the chain whose own time is late enough, null exactly if there is none |
| `Chain.LastCommonAncestor` | src/chain.cpp:338-354 | the highest common ancestor, null exactly when there is none; the assertion holds |
| `Chain.ActiveChain.NextIsChild` | src/chain.h:498-505 | the successor of a block is its child on the chain, missing exactly for the tip and foreign blocks |
| `Chain.ActiveChain.SetTip` | src/chain.cpp:14-25 | the early stop still leaves exactly the ancestors of the new tip |
| `Chain.ActiveChain.FindFork` | src/chain.cpp:56-65 | the highest ancestor on the chain, null exactly when there is none |
| `Chain.ActiveChain.GetLocator` | src/chain.cpp:27-54 | ancestors of the block at exactly the locator's heights, found by position or by skips |
| `Chain.LocatorDescends` | src/chain.cpp:27-54 | those heights start at the block, descend strictly and end at genesis |
| `Chain.LocatorIsShort` | src/chain.cpp:27-54 | and their number is logarithmic in the height |
| `BlockSelection.BlockAssembler.constructor` | src/blockassembler.cpp:125-137 | the three size limits are clamped and the block is empty |
| `BlockSelection.BlockAssembler.ResetBlock` | src/blockassembler.cpp:139-153 | an empty block with the reserved size and signature operations; the shielded size so far is carried over |
| `BlockSelection.BlockAssembler.CarriedRefuses` | src/blockassembler.cpp:139-153 | the shielded size is the block's own exactly when nothing is carried over; a transaction fits exactly if it fits alone and, when shielded, with what is carried over |
| `BlockSelection.TwoBlocks` | src/blockassembler.cpp:139-153 | for every shielded transaction of more than half the limit: a first block that takes it and a second that refuses it though it fits alone |
| `BlockSelection.BlockAssembler.IsStillDependent` | src/blockassembler.cpp:238-246 | exactly whether a parent is outside the block |
| `BlockSelection.BlockAssembler.TestForBlock` | src/blockassembler.cpp:248-299 | exactly whether it fits, with the exact effect on the finished flag and the retry counter |
| `BlockSelection.BlockAssembler.AddToBlock` | src/blockassembler.cpp:301-323 | order, exact totals and limits are kept, and what did not fit never fits again |
| `BlockSelection.BlockAssembler.TryScore` | src/blockassembler.cpp:345-375 | one round blocks the transaction, postpones it on a missing parent, finds that it does not fit, or stops exactly if it pays less than the relay fee and the block has its minimum size |
| `BlockSelection.BlockAssembler.AddScoreTxs` | src/blockassembler.cpp:325-377 | terminates; each transaction appended has the best score of all that could come next, and pays the relay fee or comes before the minimum size is reached; everything waiting has a parent outside, and on completion all others are in or do not fit; it stops early only for a full block or at a low fee |
| `BlockSelection.BlockAssembler.NextByScore` | src/blockassembler.cpp:332-343 | the next one tried has the highest score of all released and untried ones |
| `BlockSelection.BlockAssembler.NextIsBest` | src/blockassembler.cpp:332-343 | the next one tried has the highest score of all whose parents are in the block and that fit |
| `BlockSelection.BlockAssembler.PriorityIsBest` | src/blockassembler.cpp:409-413 | the next one tried has the highest priority of all whose parents are in the block and that fit |
| `BlockSelection.BlockAssembler.NothingForgotten` | src/blockassembler.cpp:325-377 | with no cycle among parents, what a completed selection left out does not fit or has an ancestor that does not |
| `BlockSelection.BlockAssembler.AddPriorityTxs` | src/blockassembler.cpp:379-449 | each transaction appended has the highest priority of all that could come next, and all but the last leave room in the priority share and are above the free threshold; the assert(false) is unreachable |
| `BlockSelection.BlockAssembler.CreateNewBlock` | src/blockassembler.cpp:155-200 | both loops in order on an emptied block: first each by priority, then each by score with its fee; the coinbase fee entry balances the others |
| `RollingBloom.PutThenGet` | src/bloom.h:144-151 | writing a two-bit cell of a word changes that cell only |
| `RollingBloom.CellOfPut` | src/bloom.h:144-151 | writing a position changes that position only |
| `RollingBloom.RollingBloomFilter.Reset` | src/bloom.cpp:309-317 | no key is remembered |
| `RollingBloom.RollingBloomFilter.NextGeneration` | src/bloom.cpp:265-277 | reusing a generation number wipes exactly the keys three generations old |
| `RollingBloom.RollingBloomFilter.Insert` | src/bloom.cpp:263-284 | every cell carries the generation of the last remembered key that hit it |
| `RollingBloom.RollingBloomFilter.Contains` | src/bloom.cpp:259-301 | true exactly when each hash of the key, modulo the number of cells, collides with one of a remembered key |
| `RollingBloom.RollingBloomFilter.RecentIsCovered` | src/bloom.h:113-114 | each key of the current and the two previous generations is contained |
| `RollingBloom.InsertAll` | src/bloom.cpp:235-301 | after any run of insertions the last nElements keys are contained |

## Left out

- Memory accounting (`cachedCoinsUsage`, dynamic usage, cache sizes), `AddCoins`, `GetPriority`, `HaveInputs` and the other queries built on the modelled ones: they would only add easy members.
- The database is a plain map that applies DIRTY entries; partial batches, the head-blocks marker and LevelDB are not modelled.
- Hash functions, random numbers, clocks, the note commitment tree's root and the mempool's fee and priority figures are parameters; roots are assumed collision-free, as the code relies on.
- Iteration order of hash maps, and of the standard set of pending collisions, is arbitrary in the model.
- Check queue: thread interruption and shutdown (the quit flag is never set in the source) and the width of `nTodo`.
- Address manager: `Select_`, `GetChance` and logging; the tables are maps of the occupied slots, so a slot holding -1 is an absent key.
- AddrManDisk.Unserialize: the file has as many records and rows as it announces and no negative counts, since stream failures are not modelled.
- Pending collisions after `Clear` or `Unserialize`: they are not reset, so the claims about them hold for runs without these two.
- Unsigned widths of sizes, counters, heights and identifiers outside the limb arithmetic are unbounded integers; `int` overflow for strings or blocks of that size is not modelled.
- Base58 and Bech32: characters are single bytes and `isspace` is that of the C locale; key and address types on top are left out. In Bech32 the six shifts of the checksum are written out instead of looped, and the further promise of four errors within 89 characters is left out: the roots give only three, and the fourth takes a case for each choice of places.
- Cuckoo cache: `setup`'s logarithm is a parameter (the size is a power of two), atomics are sequential, and the default-constructed element, which blank slots hold, may be stored more than once and away from its locations.
- Chain: a block's parent and height are fixed when it is linked; proof-of-stake tips are left out, and the step bound is not the tightest. A locator is the list of blocks whose hashes it would hold.
- Chain.BlockMap.AddToBlockIndex: sets no stake modifier, validity level or sequence id and marks nothing dirty; the proof of a block is a parameter.
- BlockSelection.BlockAssembler.CreateNewBlock: builds no coinbase or coinstake transaction, header or tree root and makes no final validity test.
- Block selection: ties in score or priority may be broken either way; the proof-of-stake fee list and zerocoin assertions are left out. Mempool parents are a given relation with children as its inverse.
- RollingBloom.RollingBloomFilter.constructor: asks for at least one element, and takes the number of hash functions and words as parameters instead of computing logarithms.
- `CBloomFilter`, wallet, network, RPC, masternode and script code.
