# Verified models of Substrate client components

This project models, in Dafny, the parts of the Substrate client where a fast or stateful structure has to agree with
a simple specification over unbounded runs, and proves that it does. Each component comes in up to three layers: values
and functions that say what an operation does, lemmas about every input and every run, and classes or methods with the
loops and in-place updates of the original, each proved equal to its function.

| component | files |
|---|---|
| freeing-bump heap allocator | `HeapLayout`, `Allocator`, `AllocatorRuns`, `AllocatorObject` |
| block tree and tree routes | `BlockTree` |
| fork-aware state cache | `Lru`, `StateCache`, `StateCacheSteps`, `StateCacheRuns`, `StateCacheContents`, `StateCacheObject` |
| block database: index, finality, leaves, pruning | `DbKeys`, `Leaves`, `BlockDb`, `BlockDbHeads`, `BlockDbImport`, `BlockDbFinality`, `BlockDbPruning`, `BlockDbRuns`, `BlockDbRefusals`, `BlockDbObject` |
| storage-chain bodies | `IndexedBody` |
| GRANDPA authority sets | `ForkForest`, `ForkForestFinality`, `AuthorityLog`, `Authorities`, `AuthoritiesRuns`, `AuthoritiesExact`, `AuthoritiesObject` |
| warp sync proofs | `WarpSync` |
| light client and canonical hash tries | `Cht`, `LightClient`, `LightClientRuns`, `LightClientObject` |
| storage notifications | `Notifications`, `NotificationsRuns`, `NotificationsRequests`, `NotificationsObject` |
| offchain compare-and-set | `Offchain` |

`dafny verify dfyconfig.toml` checks everything.

## Modelling choices

- Hashes are byte strings; signatures, tries and the SCALE codec are not modelled. A trie root stands for the pairs it
  commits to, a justification for the set and block it was signed by and for, a codec for any self-delimiting one.
- The ancestry query `is_descendent_of` answers for one well-formed tree of known blocks; a client error is not modelled.
- The allocator's u32 additions are written out. Runs assume memory size + 2^25 + 8 < 2^32, and a client that writes
  only inside the payloads it holds and frees only pointers it holds.
- Cache sizes are lengths. The key sets of one block's modifications are one set of tagged keys. The order in which a
  hash map is drained is a parameter, so the results hold for every order.
- Database transactions are ordered lists of changes applied to maps. Each operation does one of import, head change or
  finalization, imports are above the finalized height, and block hashes have 32 bytes.
- Where an insertion point among equal keys is up to a library binary search, every fitting place is covered.
- The comment at client/db/src/utils.rs:95-99 calls the number key little-endian; the code writes the most significant
  byte first, and so does the model.

## What turned out false, and exactly when it holds

- A list of finalizations that is refused midway leaves the database alone, but leaves it passed before the refusal are
  gone from memory. With `reached` the finalized height plus the length of the longest prefix of the list in which each
  block is a known child of the one before, everything is as before exactly when no leaf lies below `reached`
  (`BlockDbRuns.FailedBatch`). The cost is exact over every run: the leaf set is the true one less the lost leaves, and
  a branch that only lost leaves end is never pruned (`BlockDbRuns.DatabaseSafety`, `BlockDbRefusals.LostBranchesStay`).
  `BlockDbRefusals.RefusedMidway` shows it on four blocks.
- Finalizing does not check that the block is on the best chain. The invariants survive exactly when it is
  (`BlockDbPruning.FinalizeStep`); `BlockDbRefusals.OffBestFinalized` gives a block for which they do not.
- A forced authority change is documented to wait for any pending standard change below it that takes effect before its
  median; the code looks at the roots only. Read as at or below the median, as the code compares, the two agree for
  every median exactly when the lowest pending change of the branch is also the earliest to take effect
  (`AuthoritiesRuns.DependencyExact`). In the documentation's own words, lower than the median, every wait it asks for
  is kept exactly when no change takes effect two or more blocks before the lowest (`AuthoritiesRuns.DependencyAsWorded`).
  The documentation of `add_pending_change` allows several pending changes on a branch as long as they do not overlap,
  which the code does not check: without overlap the rule always holds (`AuthoritiesRuns.NonOverlappingSuffices`), and
  `AuthoritiesRuns.DependencyMissed` is a run with overlapping changes that ends with the forced change applied too
  early in either reading.
- The logged last blocks of the authority sets need not increase. An event keeps them increasing exactly when the number
  it logs, read off the state before it, is above the last entry (`AuthoritiesRuns.StepLogOrder`). Finality alone always
  logs in order (`AuthoritiesRuns.UnforcedLogOrder`); a forced change logs its median, and `AuthoritiesRuns.LogOutOfOrder`
  is a run in which two of them log the same block.
- A generated warp sync proof is refused when it starts at the last block of the last finished set and the best
  justification is for that very block; in all other cases without forced changes it takes the verifier to the current
  set (`WarpSync.RoundTrip`, `WarpSync.StaleEndExists`).
- Naming one child storage twice in a subscription can leave a stale entry in the index
  (`NotificationsRuns.RepeatedChildKey`). The index mirrors the filters exactly when every entry for a child asks for no
  more than the last entry for that child (`NotificationsRuns.ListenExact`, and over whole runs
  `NotificationsRuns.RunExact`). A stale entry never costs a delivery (`NotificationsRequests.NotificationSafety`).

## Model

| member | source | states |
|---|---|---|
| `HeapLayout.OrderFromSizeIsLeast` | client/allocator/src/freeing_bump.rs:139-160 | an order is found exactly for sizes up to the maximum; it is the least whose block holds the request, and below the number of orders |
| `HeapLayout.OrderSizeBounds` | client/allocator/src/freeing_bump.rs:162-171 | payload sizes of valid orders are multiples of 8 between the minimum and the maximum allocation |
| `HeapLayout.LittleEndianRoundTrip` | client/allocator/src/freeing_bump.rs:511-530 | reading back eight little-endian bytes gives the number written, for every 64-bit number |
| `HeapLayout.HeaderRoundTrip` | client/allocator/src/freeing_bump.rs:235-266 | a header written to memory in bounds is read back as it was; occupied and free headers with any link are told apart |
| `HeapLayout.HeaderDependsOnItsBytes` | client/allocator/src/freeing_bump.rs:240-255 | what a header reads as depends on its own eight bytes only |
| `HeapLayout.WriteHeaderFrame` | client/allocator/src/freeing_bump.rs:258-266 | writing a header changes its own eight bytes only, and fails exactly out of bounds |
| `Allocator.AllocateReuses` | client/allocator/src/freeing_bump.rs:373-430 | with a nonempty free list the allocation returns its head block's payload, pops exactly that block and keeps the layout valid |
| `Allocator.AllocateCarves` | client/allocator/src/freeing_bump.rs:395-430 | with an empty free list and room, the block is carved at the bumper and the layout stays a valid tiling |
| `Allocator.AllocateFails` | client/allocator/src/freeing_bump.rs:373-395 | an allocation that is too large or does not fit poisons the allocator, reports which, and changes nothing else |
| `Allocator.DeallocateReleases` | client/allocator/src/freeing_bump.rs:443-475 | freeing a live block always succeeds, pushes it on its order's list and lowers the total by its size |
| `Allocator.BadFreeRefused` | client/allocator/src/freeing_bump.rs:443-475 | freeing below the first header, outside the memory, or a block free already is refused with its own error, poisons, and changes nothing else |
| `Allocator.ValidUnderPayloadChange` | client/allocator/src/freeing_bump.rs:500-530 | memory growth and writes outside the headers keep the layout valid |
| `AllocatorRuns.StepPreserves` | client/allocator/src/freeing_bump.rs:373-490 | every permitted allocation, deallocation, payload write and growth keeps memory, state and client in agreement; carving happens only when a new peak is reached |
| `AllocatorRuns.RunPreserves` | client/allocator/src/freeing_bump.rs:342-490 | over every permitted run the agreement holds, no internal error occurs, and the blocks carved of each order equal the peak held |
| `AllocatorRuns.AllocatorSafety` | client/allocator/src/freeing_bump.rs:342-490 | after every permitted run live payloads are 8-aligned, in bounds, large enough and pairwise disjoint; `total_size` is what is held and `max_total_size` the most ever held; the bumper is the base plus the sum of peaks times block sizes; internal errors never occur |
| `AllocatorRuns.TrackerIsPeak` | client/allocator/src/freeing_bump.rs:420-428 | over every permitted run `max_total_size` is the most bytes held at any moment, headers included |
| `AllocatorRuns.FreeListWalk` | client/allocator/src/freeing_bump.rs:385-409 | following the links stored in memory ends, repeats no block, and meets exactly the blocks of the order not held by the client |
| `AllocatorRuns.FreeListSafety` | client/allocator/src/freeing_bump.rs:342-490 | after every permitted run from a fresh allocator, blocks tile the memory from base to bumper, and every free list walk meets only blocks of the layout, none twice, exactly those of its order not held by the client |
| `AllocatorRuns.PoisonIsSticky` | client/allocator/src/freeing_bump.rs:378-382 | once poisoned, every later call fails with the poison error and changes nothing |
| `AllocatorObject.FreeingBumpHeapAllocator.constructor` | client/allocator/src/freeing_bump.rs:348-365 | the fresh allocator starts at the aligned base with empty lists |
| `AllocatorObject.FreeingBumpHeapAllocator.Bump` | client/allocator/src/freeing_bump.rs:481-490 | advances the bumper exactly when the block fits below the heap end |
| `AllocatorObject.FreeingBumpHeapAllocator.TakeBlock` | client/allocator/src/freeing_bump.rs:385-409 | takes the head of a list or a fresh block, in place, as the specification does |
| `AllocatorObject.FreeingBumpHeapAllocator.Allocate` | client/allocator/src/freeing_bump.rs:373-430 | on a byte array, gives the result, state and bytes of the specified allocation |
| `AllocatorObject.FreeingBumpHeapAllocator.Deallocate` | client/allocator/src/freeing_bump.rs:443-475 | on a byte array, gives the result, state and bytes of the specified deallocation |
| `AllocatorObject.StoreHeader` | client/allocator/src/freeing_bump.rs:258-266 | the byte loop writes the specified header bytes, or fails without touching memory |
| `BlockTree.TreeRoute` | primitives/blockchain/src/header_metadata.rs:96-150 | climbing both branches level by level finds the common block, the retracted blocks highest first and the enacted blocks lowest first; fails exactly for unknown blocks |
| `BlockTree.RouteSplitsChains` | primitives/blockchain/src/header_metadata.rs:152-217 | retracted blocks are exactly those of the old chain not on the new, enacted ones exactly those of the new chain not on the old |
| `Lru.LruMap.Add` | client/db/src/storage_cache.rs:107-137 | a new entry joins the back, a replaced one is overwritten in place; entries are evicted from the front until the limit holds; the running size stays the sum of the entries |
| `Lru.LruMap.Remove` | client/db/src/storage_cache.rs:98-105 | removes the entry and exactly its size |
| `Lru.LruMap.Get` | client/db/src/storage_cache.rs:139-143 | a hit returns the value and makes the entry the most recent; a miss changes nothing |
| `Lru.LruMap.Clear` | client/db/src/storage_cache.rs:148-152 | leaves no entry and size zero |
| `Lru.TotalPut` | client/db/src/storage_cache.rs:107-137 | replacing an entry changes the total by the difference of the two sizes |
| `Lru.EvictMembers` | client/db/src/storage_cache.rs:127-136 | eviction keeps the longest suffix of the entries within the limit |
| `Lru.AbsentStays` | client/db/src/storage_cache.rs:107-137 | a new key joins the back; removing an absent key changes nothing |
| `Lru.PresentAt` | client/db/src/storage_cache.rs:98-137 | a known key is overwritten where it stands, and removed without moving another |
| `Lru.RefreshMoves` | client/db/src/storage_cache.rs:139-141 | a hit moves the entry to the back and nothing else |
| `StateCache.IsAllowedSound` | client/db/src/storage_cache.rs:470-512 | a key let through has the same value in the reading block as in the best block |
| `StateCache.SameAlongChain` | client/db/src/storage_cache.rs:470-512 | a key no block changed between two blocks of a chain has one value in both |
| `StateCacheRuns.IsAllowedExact` | client/db/src/storage_cache.rs:470-512 | the scan answers yes exactly when the listed blocks lead from the reading block to a canonical one with the key unchanged |
| `StateCacheSteps.SyncFollowsRoute` | client/db/src/storage_cache.rs:168-222 | a reorganization synced along its tree route leaves the cache valid for the new best block |
| `StateCacheContents.SyncExact` | client/db/src/storage_cache.rs:168-222 | the cache is emptied exactly when some block of the route is not listed; otherwise every map keeps exactly the entries whose key no block of the route changed, in order, and the list keeps its blocks with the flags of the route set |
| `StateCacheContents.RouteSyncExact` | client/db/src/storage_cache.rs:168-222 | for a valid cache the same in terms of the keys the blocks of the route changed |
| `StateCacheContents.CommitSyncExact` | client/db/src/storage_cache.rs:349-370 | a commit syncs along its route, with a listed block of the other canonicity enacted or retracted besides |
| `StateCacheContents.BestCommitLoads` | client/db/src/storage_cache.rs:371-442 | after a best commit every read and every committed value is in its map unless the entries from it to the back exceeded the limit, hashes of committed keys are gone, and nothing else was added |
| `StateCacheContents.SideCommitLoadsNothing` | client/db/src/storage_cache.rs:371-442 | a block committed aside, or without a parent, loads nothing |
| `StateCacheContents.CommitRecords` | client/db/src/storage_cache.rs:398-442 | the block joins the list at its height with its own changes; the oldest entry goes exactly when twelve were listed |
| `StateCacheContents.DropLoads` | client/db/src/storage_cache.rs:371-396 | a dropped state loads its reads exactly when it sits on the best block |
| `StateCacheContents.ReadsAreCached` | client/db/src/storage_cache.rs:521-602 | a cached read does not depend on the backing state and only makes a shared entry youngest; any other asks the backing state, and is cached from then on |
| `StateCacheSteps.CommitBest` | client/db/src/storage_cache.rs:330-442 | committing a new best block anywhere in the tree leaves the cache right for it, whatever is evicted or drained in whatever order |
| `StateCacheSteps.CommitSide` | client/db/src/storage_cache.rs:330-442 | committing a side block leaves the maps as they are and keeps the list right |
| `StateCacheSteps.DropState` | client/db/src/storage_cache.rs:907-923 | dropping a state without commit donates its reads exactly when it sits on the best block, and keeps the cache right |
| `StateCacheRuns.ReadIsTransparent` | client/db/src/storage_cache.rs:521-602 | reading a value, hash or child value returns what the backing state holds, and keeps cache and session right |
| `StateCacheRuns.CacheTransparency` | client/db/src/storage_cache.rs:168-602 | over every run of opens, reads, best and side commits, reorganizations and drops, a read through any open state returns exactly that state's own value |
| `StateCacheRuns.ModificationsAlwaysValid` | client/db/src/storage_cache.rs:400-441 | over every run the list has at most twelve entries, descends by number, is flagged canonical exactly on the best chain, has no gap below the best block, and all maps stay within their limits |
| `StateCacheObject.Cache.Sync` | client/db/src/storage_cache.rs:168-222 | in place, the cache becomes that of the specified sync, for which `StateCacheContents.SyncExact` holds |
| `StateCacheObject.Cache.SyncBlocks` | client/db/src/storage_cache.rs:173-215 | one pass over retracted or enacted blocks purges their keys, flags them, and tells whether to wipe |
| `StateCacheObject.Cache.IsAllowed` | client/db/src/storage_cache.rs:470-512 | the loop's answer is the one `StateCacheRuns.IsAllowedExact` characterizes |
| `StateCacheObject.Cache.SyncCache` | client/db/src/storage_cache.rs:330-442 | the new cache is that of the specified commit for the drain order taken, for which `StateCacheSteps.CommitBest` and `StateCacheSteps.CommitSide` hold |
| `StateCacheObject.Cache.Record` | client/db/src/storage_cache.rs:396-441 | records a committed block: its changes in the maps if best, its keys in the list |
| `StateCacheObject.InsertSorted` | client/db/src/storage_cache.rs:430-439 | the search loop inserts the block before the first entry with a smaller number |
| `StateCacheObject.CachingState.Storage` | client/db/src/storage_cache.rs:521-546 | local cache, then shared cache if allowed, then backing state, as specified |
| `StateCacheObject.CachingState.StorageHash` | client/db/src/storage_cache.rs:548-568 | the same for hashes |
| `StateCacheObject.CachingState.ChildStorage` | client/db/src/storage_cache.rs:570-602 | the same for child values |
| `DbKeys.LookupKeyRoundTrip` | client/db/src/utils.rs:100-140 | a long key gives its number back and ends with its hash; numbers beyond u32 are refused |
| `DbKeys.KeysAreInjective` | client/db/src/utils.rs:100-127 | different numbers have different short keys, different blocks different long keys |
| `Leaves.ImportKeepsExact` | client/api/src/leaves.rs:112-137 | importing a fresh block keeps the set exactly the childless blocks not below finality, less any leaves lost before, without empty or repeated entries |
| `Leaves.FinalizeKeepsExact` | client/api/src/leaves.rs:145-157 | finalizing a height displaces exactly the leaves below it that were not lost before |
| `Leaves.DroppingLoses` | client/api/src/leaves.rs:145-157 | displacing leaves without finalizing loses exactly those below the height, and nothing exactly when there are none |
| `Leaves.UndoRestores` | client/api/src/leaves.rs:52-57 | undoing with the merged displaced leaves of any finalizations restores the set exactly |
| `Leaves.LeafSet.Remove` | client/api/src/leaves.rs:229-250 | removes the leaf from its bucket, and the bucket if it becomes empty; says whether it was there |
| `Leaves.LeafSet.Import` | client/api/src/leaves.rs:112-137 | the parent stops being a leaf, the block becomes one; a displaced parent is returned |
| `Leaves.LeafSet.FinalizeHeight` | client/api/src/leaves.rs:145-157 | splits the set at the height and returns what was below |
| `Leaves.LeafSet.UndoFinalization` | client/api/src/leaves.rs:270-272 | puts displaced leaves back and clears pending changes |
| `BlockDb.RetractEffect` | client/db/src/lib.rs:1190-1210 | retracting unmaps exactly the numbers of the retracted blocks, and is refused exactly when the finalized block is among them |
| `BlockDb.EnactEffect` | client/db/src/lib.rs:1212-1221 | enacting maps each enacted number to its block and changes no other number |
| `BlockDbHeads.RouteIndexes` | client/db/src/lib.rs:1182-1222 | committing the route to a block makes the number index that block's chain, exactly |
| `BlockDbHeads.SetHeadStep` | client/db/src/lib.rs:1169-1230 | a head change succeeds exactly for known blocks that keep the finalized block on their chain, and then the index is canonical for the new head; otherwise nothing changes and the error says why |
| `BlockDbImport.ImportStep` | client/db/src/lib.rs:1356-1400 | an import succeeds exactly when its number fits a u32 and a best block keeps the finalized one on its chain; it keeps every invariant; otherwise nothing changes |
| `BlockDbFinality.NoteEffect` | client/db/src/lib.rs:1659-1705 | noting a finalized block records it and removes bodies, nothing else |
| `BlockDbFinality.CanonicalHashIs` | client/db/src/utils.rs:319-368 | under the invariant the index answers each height with the best block's ancestor, and nothing above it |
| `BlockDbFinality.WalkFromLeaf` | client/db/src/lib.rs:1720-1741 | the walk over a displaced leaf ends, having met exactly the leaf and its ancestors off the best chain, though it first compares with the finalized height |
| `BlockDbFinality.BatchIsOneByOne` | client/db/src/lib.rs:1340-1354 | finalizing several blocks in one transaction fails where one at a time fails, and otherwise ends in the same state, although pruning reads only committed data |
| `BlockDbPruning.NoteRemovesObsolete` | client/db/src/lib.rs:1707-1784 | the bodies removed are exactly the canonical one leaving the window and those of displaced branches whose leaves were not lost |
| `BlockDbPruning.FinalizeStep` | client/db/src/lib.rs:1232-1285 | finalizing succeeds exactly for a known child of the finalized block; the database then stays valid exactly when the block is on the best chain; otherwise nothing changes |
| `BlockDbPruning.RetainedNext` | client/db/src/lib.rs:1707-1743 | what the pruning mode promises after finalizing the next block is what it promised before, less the obsolete |
| `BlockDbPruning.FinalizeBodies` | client/db/src/lib.rs:1697-1784 | finalizing keeps leaf set and body column exactly as promised: on the finalized chain the last max(k, 1) bodies, off it all but those of ended branches whose leaves were not lost |
| `BlockDbRuns.GenesisValid` | client/db/src/lib.rs:1356-1420 | importing genesis into an empty database establishes every invariant |
| `BlockDbRuns.ApplyKeepsGood` | client/db/src/lib.rs:1324-1652 | every operation keeps every invariant and never moves finality back; an error changes nothing, but for a list of finalizations refused past a leaf, which loses it |
| `BlockDbRuns.EachKeepsGood` | client/db/src/lib.rs:1340-1354 | finalizing a chain of best-chain blocks one at a time goes through and keeps every invariant |
| `BlockDbRuns.EachReaches` | client/db/src/lib.rs:1340-1354 | finalizing any list goes through exactly when each block is a known child of the one before, and otherwise stops at the finalized height plus the length of the chained prefix |
| `BlockDbRuns.ChainedLengthIsLongest` | client/db/src/lib.rs:1232-1250 | that length is of the longest prefix in which each block is a known child of the one before |
| `BlockDbRuns.FailedBatch` | client/db/src/lib.rs:1340-1354 | a list with a block that is no known child of the one before is refused; only the leaves below the height where the chain breaks are lost, and the backend is as before, its leaf set as exact as before, exactly when there are none |
| `BlockDbRuns.DatabaseSafety` | client/db/src/lib.rs:1169-1784 | over every run from genesis, refused lists included, the index is the best chain, finalized blocks are a parent-linked chain that starts at genesis and lies on the best chain, the leaf set is exactly the childless blocks less the lost ones, none are lost exactly when no list was refused past a leaf, and bodies are kept exactly as promised given what was lost |
| `BlockDbRuns.RunKeepsGood` | client/db/src/lib.rs:1324-1652 | over every run the finalized blocks only grow, and leaves are lost exactly when some list is refused past one |
| `BlockDbRefusals.LostBranchesStay` | client/db/src/lib.rs:1707-1743 | a body off the finalized chain is held exactly when every ended branch through its block ends in a lost leaf; no body is held less than promised |
| `BlockDbRefusals.ForkRun` | client/db/src/lib.rs:1324-1652 | a run from genesis to a fork of four blocks |
| `BlockDbRefusals.OffBestFinalized` | client/db/src/lib.rs:1232-1285 | in the fork, finalizing the child of the finalized block off the best chain succeeds and breaks the database |
| `BlockDbRefusals.RefusedMidway` | client/db/src/lib.rs:1340-1354 | in the fork, a list refused at its third block loses a leaf, whose body then outlives finalizations that would have pruned it |
| `BlockDbObject.Database.CommitTransaction` | client/db/src/lib.rs:1607 | the columns become those of applying the changes in order |
| `BlockDbObject.Database.SetHeadWithTransaction` | client/db/src/lib.rs:1169-1230 | the route and mapping loops extend the transaction as specified |
| `BlockDbObject.Database.RemoveMappings` | client/db/src/lib.rs:1190-1210 | the loop over retracted blocks yields exactly the specified removals, or the specified refusal at the finalized block |
| `BlockDbObject.Database.InsertMappings` | client/db/src/lib.rs:1212-1221 | the loop over enacted blocks yields exactly the specified mappings, or refuses a number beyond u32 |
| `BlockDbObject.Database.UpdateMeta` | client/db/src/lib.rs:447-470 | best and finalized records change exactly as the flags say, genesis setting the finalized hash |
| `BlockDbObject.Database.SetHead` | client/db/src/lib.rs:1582-1607 | new state and error are those of the specified head change of the old state, for which `BlockDbHeads.SetHeadStep` holds |
| `BlockDbObject.Database.Import` | client/db/src/lib.rs:1356-1572 | new state and error are those of the specified import of the old state, for which `BlockDbImport.ImportStep` holds |
| `BlockDbObject.Database.ImportGenesis` | client/db/src/lib.rs:1356-1420 | the new state is that of the specified genesis import, for which `BlockDbRuns.GenesisValid` holds |
| `BlockDbObject.Database.PruneBlock` | client/db/src/lib.rs:1745-1784 | extends the transaction by the removal of the body if the block resolves to a stored one, else by nothing |
| `BlockDbObject.Database.PruneBranch` | client/db/src/lib.rs:1720-1741 | the walk loop over one displaced branch terminates and prunes the specified blocks |
| `BlockDbObject.Database.PruneBlocks` | client/db/src/lib.rs:1707-1743 | extends the transaction by the specified removals for window and displaced branches, for which `BlockDbPruning.NoteRemovesObsolete` holds |
| `BlockDbObject.Database.NoteFinalized` | client/db/src/lib.rs:1659-1705 | the leaf set loses exactly the leaves below the height, at once, and the transaction gains the specified changes |
| `BlockDbObject.Database.FinalizeBlocks` | client/db/src/lib.rs:1340-1354 | new state and error are those of the specified list of finalizations, including the leaves already displaced when one is refused |
| `IndexedBody.ReadJoinIsSlice` | client/db/src/utils.rs:462-484 | each read from two joined pieces gives the bytes, and leaves the rest, of reading their concatenation |
| `IndexedBody.JoinReader.Read` | client/db/src/utils.rs:473-483 | fills the buffer and advances the two pieces in place accordingly |
| `IndexedBody.DecodeJoinIsSlice` | client/db/src/lib.rs:548-571 | whatever chunks a decoder reads, it decodes joined input as the joined bytes |
| `IndexedBody.BodyRoundTrip` | client/db/src/lib.rs:1820-1878 | for a self-delimiting codec and content hashes, a body split by any index operations reads back as it was exactly when every content it renews is in the store before or inserted by the body; otherwise the hash of the first missing one is reported |
| `IndexedBody.ReferencesCounted` | client/db/src/lib.rs:1820-1878 | after a body every content has its old count plus one for each extrinsic that inserts or, finding it there, renews it; present content is never replaced, and a new hash has the bytes first inserted |
| `IndexedBody.LastOpCounts` | client/db/src/lib.rs:1825-1838 | of several operations of a kind on one extrinsic the last one counts |
| `IndexedBody.ApplyIndexOps` | client/db/src/lib.rs:1820-1878 | the loops over operations and extrinsics give the headers and store changes of the specified split, for which `IndexedBody.BodyRoundTrip` and `IndexedBody.ReferencesCounted` hold |
| `ForkForest.ImportStep` | utils/fork-tree/src/lib.rs:205-250 | importing is refused exactly at or below the finalized height and for a block already there; otherwise the node joins the others, as a root exactly when nothing is above it, and the forest still mirrors ancestry, deepest branches first |
| `ForkForest.RebalanceKeeps` | utils/fork-tree/src/lib.rs:192-198 | sorting branches by depth keeps all nodes and the structure |
| `ForkForest.RebalanceSorts` | utils/fork-tree/src/lib.rs:665-670 | after rebalancing no branch is deeper than one before it, on every level, and roots of equal depth keep their order |
| `ForkForest.RebalanceOrder` | utils/fork-tree/src/lib.rs:665-681 | sorting before or after rebalancing the children comes to the same |
| `ForkForestFinality.FinalizeStep` | utils/fork-tree/src/lib.rs:566-642 | finalizing is refused exactly when not above the last height or when a second pending node would be passed; otherwise it enacts exactly the lowest effective node of the branch and keeps exactly the nodes the branch may still need |
| `Authorities.ForcedScanExact` | client/finality-grandpa/src/authorities.rs:443-470 | the take-while, filter and break scan finds the unique forced change effective at the best block on its branch, as an unordered search would |
| `Authorities.ClashExact` | client/finality-grandpa/src/authorities.rs:330-338 | a forced change is accepted exactly when it is on a branch of its own |
| `Authorities.AddForcedKeeps` | client/finality-grandpa/src/authorities.rs:340-358 | inserting keeps the pending forced changes sorted and one per branch |
| `Authorities.KeepForcedStep` | client/finality-grandpa/src/authorities.rs:553-566 | finality keeps exactly the later forced changes of the finalized branch, in order |
| `AuthoritiesRuns.AddKeepsGood` | client/finality-grandpa/src/authorities.rs:369-390 | signalling a change keeps the set well formed wherever equal keys are placed |
| `AuthoritiesRuns.StandardKeepsGood` | client/finality-grandpa/src/authorities.rs:527-596 | a finality trigger hands over exactly to the lowest effective change: its authorities, the next set id, a log entry; otherwise to nobody |
| `AuthoritiesRuns.ForcedKeepsGood` | client/finality-grandpa/src/authorities.rs:429-515 | the set a forced change leads to is well formed |
| `AuthoritiesExact.ForcedExact` | client/finality-grandpa/src/authorities.rs:429-515 | a best block applies exactly the forced change that takes effect there on its branch, whatever else is pending: its authorities, the next set id, its median in the log, nothing pending; or it names the standard change that holds it back; or, exactly when there is none, nothing happens |
| `AuthoritiesExact.StandardExact` | client/finality-grandpa/src/authorities.rs:527-596 | a finality trigger in full: why it is refused, whom it hands over to, which standard and forced changes stay pending and in which order, and what the caller is told |
| `AuthoritiesExact.AddStandardExact` | client/finality-grandpa/src/authorities.rs:284-319 | a standard change joins the pending ones and nothing else changes, or the exact reason it is refused |
| `AuthoritiesExact.AddForcedExact` | client/finality-grandpa/src/authorities.rs:321-361 | a forced change joins the pending ones at its place and nothing else changes, or the exact reason it is refused |
| `AuthoritiesExact.StepInstalls` | client/finality-grandpa/src/authorities.rs:429-596 | an event changes the current authorities and the set id exactly when it installs a list, and to that list |
| `AuthoritiesExact.RunInstalls` | client/finality-grandpa/src/authorities.rs:186-596 | after every run the current authorities are the last ones installed, and the set id counts the installations |
| `AuthoritiesExact.GenesisInstalls` | client/finality-grandpa/src/authorities.rs:186-596 | the same from a genesis set, whose own list is the first |
| `AuthoritiesRuns.DependencyExact` | client/finality-grandpa/src/authorities.rs:421-429 | read as at or below the median, checking only the roots refuses a forced change only when the documented rule does, and agrees with it for every median exactly when the lowest pending change is the earliest |
| `AuthoritiesRuns.DependencyAsWorded` | client/finality-grandpa/src/authorities.rs:423-428 | read as lower than the median, as documented: a refusal not asked for has the lowest change effective at the median itself, and every refusal asked for is made for every median exactly when no change takes effect two or more blocks before the lowest |
| `AuthoritiesRuns.NonOverlappingSuffices` | client/finality-grandpa/src/authorities.rs:363-368 | pending changes that do not overlap keep the documented rule on every branch |
| `AuthoritiesRuns.DependencyMissed` | client/finality-grandpa/src/authorities.rs:471-491 | a run from genesis with overlapping changes after which a forced change is applied although a change effective below its median is pending |
| `AuthoritiesRuns.NextChangeExact` | client/finality-grandpa/src/authorities.rs:245-282 | the next change is the lowest pending change of either kind on the branch, and none exactly when there is none |
| `AuthoritiesRuns.AuthoritySafety` | client/finality-grandpa/src/authorities.rs:186-596 | over every run from genesis all authority lists are nonempty with positive weights, the log lists set ids 0 to the current one, forced changes are sorted and one per branch, and the forest mirrors ancestry |
| `AuthoritiesRuns.LogStaysInOrder` | client/finality-grandpa/src/authorities.rs:580-584 | every event that applies no forced change keeps the log increasing and at or below the last finalized block |
| `AuthoritiesRuns.StepLogOrder` | client/finality-grandpa/src/authorities.rs:494-584 | an event appends exactly the number it logs, if any, and keeps the log increasing exactly when that number is above the last |
| `AuthoritiesRuns.RunLogOrder` | client/finality-grandpa/src/authorities.rs:494-584 | after every run the log increases exactly when it did before and every number logged is above the one before |
| `AuthoritiesRuns.UnforcedLogOrder` | client/finality-grandpa/src/authorities.rs:580-584 | over every run that applies no forced change the log stays increasing |
| `AuthoritiesRuns.ForcedLogOrder` | client/finality-grandpa/src/authorities.rs:494-505 | a forced change keeps the log increasing exactly when its median is above the last entry |
| `AuthoritiesRuns.LogOutOfOrder` | client/finality-grandpa/src/authorities.rs:494-505 | a run from genesis whose log does not increase |
| `AuthorityLog.SetsPartitionNumbers` | client/finality-grandpa/src/authorities.rs:717-742 | the logged sets cut the block numbers into intervals; the latest set is beyond the last entry, and an empty log answers unknown |
| `AuthorityLog.ScanFromIsFilter` | client/finality-grandpa/src/authorities.rs:744-764 | a complete log lists, from any block on, exactly the later changes |
| `AuthorityLog.BinarySearch` | client/finality-grandpa/src/authorities.rs:726-728 | finds the number, or a place between a smaller and a larger one, in any log |
| `AuthorityLog.GetSetId` | client/finality-grandpa/src/authorities.rs:717-742 | on an increasing log the binary search agrees with the linear scan; on any log the latest set is answered exactly beyond the last entry, a set only from an entry not below the block, and unknown only when the first set is missing |
| `AuthorityLog.IterFrom` | client/finality-grandpa/src/authorities.rs:747-764 | on an increasing log the suffix agrees with the linear scan; on any log it is a suffix that starts where a search for the block may stop, and none only when the first set is missing |
| `AuthoritiesObject.ImportNodes` | utils/fork-tree/src/lib.rs:221-236 | the loop over roots or children places a change as specified |
| `AuthoritiesObject.ImportNode` | utils/fork-tree/src/lib.rs:706-746 | the recursive import into one node gives the specified outcome |
| `AuthoritiesObject.FindRoot` | utils/fork-tree/src/lib.rs:586-600 | the search finds the specified root to finalize |
| `AuthoritiesObject.FindPastChild` | utils/fork-tree/src/lib.rs:590-594 | the check finds exactly whether a child would be passed over |
| `AuthoritiesObject.RetainRoots` | utils/fork-tree/src/lib.rs:616-629 | the pruning loop keeps exactly the specified roots, in order |
| `AuthoritiesObject.SharedAuthorities.NewGenesis` | client/finality-grandpa/src/authorities.rs:186-204 | refuses exactly empty lists and zero weights |
| `AuthoritiesObject.SharedAuthorities.Place` | client/finality-grandpa/src/authorities.rs:340-347 | the binary search gives a fitting place in the sorted list |
| `AuthoritiesObject.SharedAuthorities.AddPendingChange` | client/finality-grandpa/src/authorities.rs:369-390 | adds a change in place, or reports the specified error and changes nothing; `AuthoritiesExact.AddStandardExact` and `AuthoritiesExact.AddForcedExact` hold for it |
| `AuthoritiesObject.SharedAuthorities.ApplyForcedChanges` | client/finality-grandpa/src/authorities.rs:429-515 | the nested scans give the specified result, for which `AuthoritiesExact.ForcedExact` holds, without changing the set |
| `AuthoritiesObject.SharedAuthorities.ApplyStandardChanges` | client/finality-grandpa/src/authorities.rs:527-596 | status and new set are the specified ones, for which `AuthoritiesExact.StandardExact` holds; an error changes nothing |
| `AuthoritiesObject.SharedAuthorities.NextChange` | client/finality-grandpa/src/authorities.rs:245-282 | the two scans give the answer `AuthoritiesRuns.NextChangeExact` characterizes |
| `AuthoritiesObject.SharedAuthorities.CurrentLimit` | client/finality-grandpa/src/authorities.rs:406-411 | the least effective number not below the bound among the roots, or none exactly when there is none |
| `WarpSync.GeneratedProof` | client/finality-grandpa-warp-sync/src/proof.rs:57-176 | a proof shows standard handoffs in a row from the set of its start, as many as fit the size limit, and verifies exactly when its closing justification, if any, is by the set reached |
| `WarpSync.GenerateRefuses` | client/finality-grandpa-warp-sync/src/proof.rs:57-95 | a request is refused exactly for a start that is unknown, not final or not canonical, and for a log that misses the first set, each with its own error |
| `WarpSync.RoundTrip` | client/finality-grandpa-warp-sync/src/proof.rs:57-216 | without forced handoffs a finished proof takes the verifier to the current set, but for the stale end, where it is refused |
| `WarpSync.SyncReachesCurrentSet` | client/finality-grandpa-warp-sync/src/proof.rs:57-216 | if every fragment fits a proof, asking again from the last proven block ends with a finished proof and the current set, from any finalized block, but for the stale end |
| `WarpSync.StaleEndExists` | client/finality-grandpa-warp-sync/src/proof.rs:137-165 | an honest chain with a stale end |
| `WarpSync.AcceptedIsTrue` | client/finality-grandpa-warp-sync/src/proof.rs:180-216 | if justifications and headers cannot be forged, any accepted list of fragments, whoever made it, ends in a true set no later than the current one, having shown every standard handoff in between |
| `WarpSync.VerifyExact` | client/finality-grandpa-warp-sync/src/proof.rs:180-216 | a list is accepted exactly when no fragment is at fault, and leads to the set after its last handoff; otherwise the fault of the first one is reported |
| `WarpSync.CollectFragments` | client/finality-grandpa-warp-sync/src/proof.rs:97-137 | the loop over set changes collects the specified fragments |
| `WarpSync.GenerateProof` | client/finality-grandpa-warp-sync/src/proof.rs:57-176 | on an increasing log gives the proof or error of the specified generation, for which `WarpSync.RoundTrip` holds; on any log refuses the same starts, and proves the handoffs of a suffix where the search may stop |
| `WarpSync.VerifyProof` | client/finality-grandpa-warp-sync/src/proof.rs:180-216 | gives the set and authorities, or the error, of the specified verification |
| `Cht.IntervalsPartition` | client/api/src/cht.rs:287-310 | a block lies between a trie's start and end exactly when it maps to that trie, for every size |
| `Cht.BuildRaisesMax` | client/api/src/cht.rs:51-79 | a trie is due exactly when the highest built number goes up by one |
| `Cht.ReplacedIsBuilt` | client/api/src/cht.rs:69-79 | a block is replaced exactly when its trie is among the built ones |
| `Cht.PairsExact` | client/api/src/cht.rs:254-285 | the pairs exist exactly when every block of the trie has a hash, and are exactly those hashes by number |
| `Cht.BuildPairs` | client/api/src/cht.rs:254-285 | the loop builds those pairs or reports the missing hash |
| `Cht.GroupByCht` | client/api/src/cht.rs:207-251 | ordered blocks are grouped by trie: each in its own group, groups in order, nothing lost; refused exactly for block zero |
| `LightClient.Coverage` | client/db/src/light.rs:369-390 | each canonical block from one on is held or, exactly when replaced, covered by a stored root that commits to its hash; no root is offered for a held block |
| `LightClient.CoveredOnce` | client/db/src/light.rs:369-390 | among stored roots only the block's own lists it |
| `LightClient.NoRoot` | client/db/src/light.rs:369-390 | asking for the root of genesis is refused, and none is offered beyond the replaced blocks |
| `LightClientRuns.RouteHeld` | client/db/src/light.rs:237-284 | every block of a route to a head on the finalized chain is still held |
| `LightClientRuns.SetHeadKeepsValid` | client/db/src/light.rs:237-284 | a head change succeeds exactly for a held block; for one that extends the finalized chain it makes it best, changes no block and no finality, and keeps index, headers and roots right |
| `LightClientRuns.StoreIsDetermined` | client/db/src/light.rs:237-366 | valid stores that agree on blocks, head and finalized block are equal |
| `LightClientRuns.FinalizeKeepsValid` | client/db/src/light.rs:287-366 | finalizing the next block of the best chain always succeeds, makes it the finalized block, never lacks a hash, and drops exactly what the new trie replaces; anything else is refused with its own error |
| `LightClientRuns.ImportFinalIsTwoSteps` | client/db/src/light.rs:423-512 | importing as final equals importing as best and then finalizing |
| `LightClientRuns.ImportUnplaced` | client/db/src/light.rs:423-512 | a plain import needs no known parent, a new head does, and a final block has to follow the finalized one |
| `LightClientRuns.ApplyKeepsValid` | client/db/src/light.rs:423-560 | every operation moves exactly the blocks, head and finalized block it is to move and keeps the store right; imports on a known parent always succeed, head changes exactly for held blocks, finalization exactly for children of the finalized block |
| `LightClientRuns.LightSafety` | client/db/src/light.rs:237-560 | over every run from genesis height zero is genesis, and each canonical block is held or covered by a root that commits to its hash, never both, never neither |
| `LightClientObject.LightStorage.MoveHead` | client/db/src/light.rs:237-284 | the loops over the route update the index as specified |
| `LightClientObject.LightStorage.NoteFinalized` | client/db/src/light.rs:287-366 | the trie, and the numbers and hashes it replaces, are those of the specified finalization; errors agree |
| `LightClientObject.LightStorage.DropStretch` | client/db/src/light.rs:344-362 | the loop drops exactly the held blocks of the stretch |
| `LightClientObject.LightStorage.Import` | client/db/src/light.rs:423-512 | new state and error are those of the specified import, for which `LightClientRuns.ApplyKeepsValid` holds |
| `LightClientObject.LightStorage.SetHead` | client/db/src/light.rs:515-529 | new state and error are those of the specified head change, for which `LightClientRuns.SetHeadKeepsValid` holds |
| `LightClientObject.LightStorage.FinalizeHeader` | client/db/src/light.rs:531-558 | new state and error are those of the specified finalization, for which `LightClientRuns.FinalizeKeepsValid` holds |
| `LightClientObject.LightStorage.ReadChtRoot` | client/db/src/light.rs:369-390 | the answer is the specified one, for which `LightClient.Coverage` holds |
| `Notifications.ViewIsDirect` | client/api/src/notifications.rs:43-68 | what a subscriber reads from the shared lists equals filtering the original changes |
| `Notifications.SentExactly` | client/api/src/notifications.rs:137-228 | a change set is sent exactly to subscribers with something to read, and to those without a top filter whenever a child change is passed on |
| `NotificationsRuns.ListenExact` | client/api/src/notifications.rs:291-354 | the index stays a mirror of the filters exactly when every entry for a child storage asks for no more than the last entry for it |
| `NotificationsRequests.ListenHonors` | client/api/src/notifications.rs:291-354 | listening gives out the next id and touches no other subscriber; the filters kept let through exactly the top keys asked for, and for exactly the child storages named what the last entry for each asks |
| `NotificationsRuns.RunExact` | client/api/src/notifications.rs:137-354 | the index mirrors the filters after a run exactly when every subscription of the run was of that kind |
| `Notifications.SentIfConcerned` | client/api/src/notifications.rs:137-228 | an index that covers the filters, stale entries or not, sends a change set to whoever has something to read |
| `NotificationsRuns.RemoveKeepsValid` | client/api/src/notifications.rs:231-289 | removal takes a subscriber off the index everywhere and leaves no empty entry and no empty child index |
| `NotificationsRuns.RunDelivers` | client/api/src/notifications.rs:137-354 | over every run, whoever has something to read through its filters is sent it and reads exactly what direct filtering gives |
| `NotificationsRequests.RunHonors` | client/api/src/notifications.rs:137-354 | over every run the sinks are those of the ids given out and not found closed by a trigger since, each registered for what its own subscription asked |
| `NotificationsRequests.SharedListsExact` | client/api/src/notifications.rs:137-228 | the shared lists hold exactly the changes somebody asked for, in order |
| `NotificationsRequests.NotificationSafety` | client/api/src/notifications.rs:137-354 | over every run a change set goes only to subscribers not found closed; each reads exactly the changes its own subscription asked for, in order; whoever asked for any is sent it; without stale entries the only others sent anything asked for all top keys while some child change was asked for |
| `NotificationsRuns.RepeatedChildKey` | client/api/src/notifications.rs:314-340 | a subscription naming a child storage twice leaves a stale wildcard behind |
| `NotificationsObject.ListenKeys` | client/api/src/notifications.rs:291-311 | the loop over keys adds the subscriber |
| `NotificationsObject.RemoveKeys` | client/api/src/notifications.rs:231-258 | the loop over keys, in any order, removes the subscriber |
| `NotificationsObject.ListenChildKeys` | client/api/src/notifications.rs:330-345 | the loop over child storages gives the specified index and filters |
| `NotificationsObject.RemoveChildKeys` | client/api/src/notifications.rs:268-284 | the loop over child storages, in any order, gives the specified index |
| `NotificationsObject.StorageNotifications.Listen` | client/api/src/notifications.rs:314-354 | the new state is that of the specified subscription, for which `NotificationsRequests.ListenHonors` and `NotificationsRuns.ListenExact` hold |
| `NotificationsObject.StorageNotifications.RemoveSubscriber` | client/api/src/notifications.rs:260-289 | the new state is that of the specified removal, for which `NotificationsRuns.RemoveKeepsValid` holds |
| `NotificationsObject.StorageNotifications.Trigger` | client/api/src/notifications.rs:137-228 | what is sent is what `Notifications.SentExactly` describes, and afterwards exactly the closed sinks are gone |
| `Offchain.StepKeepsValid` | client/db/src/offchain.rs:82-116 | every step of every thread keeps one mutex per key in flight, held by at most one thread |
| `Offchain.HoldsAlone` | client/db/src/offchain.rs:95-104 | while a call is inside its key's lock no other call on the key is |
| `Offchain.StepIsLinear` | client/db/src/offchain.rs:95-104 | every step keeps store and outcomes those of a one-after-another run |
| `Offchain.StepAnswers` | client/db/src/offchain.rs:95-116 | every step keeps exactly one history entry per call that has taken effect, carrying the outcome the call returns, and no other entries |
| `Offchain.CompareAndSetSafety` | client/db/src/offchain.rs:82-116 | over every interleaving, outcomes and store are those of some sequential run in which each call that has taken effect stands exactly once, with the outcome it returns; calls in flight on a key share one mutex, and the lock map is empty when none is in flight |
| `Offchain.AtMostOneSucceeds` | client/db/src/offchain.rs:82-116 | of calls that expect one value and replace it by another at most one succeeds, and then the value is gone |
| `Offchain.NeverStuck` | client/db/src/offchain.rs:82-116 | while a call is in flight some call can go on |
| `Offchain.StepsConserved` | client/db/src/offchain.rs:82-116 | every call takes exactly its own six steps: a run has seven steps for each call begun, less those still to take |
| `Offchain.CallsCanFinish` | client/db/src/offchain.rs:82-116 | from every reachable store all calls in flight can finish without new ones |

## Left out

- Trie, codec, signature, state pruning and database engine internals, telemetry, metrics and logging: separate subsystems or plumbing.
- Client errors of the ancestry query, failing database commits and panics of the original's `expect` calls.
- `Backend::revert`, `remove_leaf_block` and `LeafSet::revert`: their index and leaf semantics differ from the operations modelled.
- `Undo::undo_import`: it re-inserts the parent at the child's height, so it is not an inverse of import.
- Justification, state and changes-trie columns of the block database, delayed canonicalization, and re-import of existing blocks.
- Reference counts of indexed transactions when bodies are pruned: a shared ancestor of two displaced branches can be released twice in one transaction.
- `enacts_standard_change`, and the fork-tree operations the authority set does not use (`prune`, `finalize`, `finalize_with_ancestors`, searches).
- The changes-trie roots of the light client, its block cache, and the total encoded size of a warp sync proof.
- `exists_storage`, iteration and root computation of the caching state: they pass straight to the backing state.
- BlockDbRuns.DatabaseSafety: a list of finalizations that goes through lies on the best chain; `BlockDbPruning.FinalizeStep` says what happens otherwise.
- AuthorityLog.GetSetId: on a log that does not increase, which entry is found depends on how the library search halves; the contract keeps to what holds wherever it ends between a smaller and a larger entry. The same goes for `AuthorityLog.IterFrom` and `WarpSync.GenerateProof`.
- Offchain.CompareAndSetSafety: covers threads that only call compare-and-set; a plain `set` or `remove` takes no lock.
