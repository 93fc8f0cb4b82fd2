# Verified models of RocksDB and SGX driver cores

This project models five parts of the repository and proves what they promise, over all inputs and all runs. It has
two kinds of model. Code that works on data structures is written as classes and methods with loops, each proved
against a specification function or a set of lemmas. Concurrent protocols are state machines: `Enabled` says when a
step can be made, `Apply` what it does, `Violates` what the source asserts (or silently relies on) at that step, and
`Inv` is an invariant that every step keeps; `Run` chains steps, so a statement about `Run` is about every
interleaving. What a step relies on is in `Violates` and proved, not in `Enabled`; a `NeverStuck` lemma for each
protocol says that an operation in the middle can always go on unless it waits for a lock. Beside what must not happen
there are results on what each operation achieves, as runs that end in the state it is called for.

## The five parts

**The database iterator** (`SequenceNumbers`, `SnapshotView`, `InternalIterator`, `MergeContext`, `Cursor`,
`ForwardSearch`, `BackwardSearch`, `DbIter`). `SnapshotView` is the specification: it replays the writes to a key from
the oldest to the newest (`Replay`), which gives a point lookup (`Get`), and lists the keys that have a value (`View`).
`DBIter` is the iterator with its two state machines, its changes of direction and its reseeks. Every public method is
proved to move a cursor on the view, and `RunScript` says so for any script of commands, with the same result for every
limit on skipped keys. `ScanForward`, `ScanBackward`, `ScanBothWays` and `TurnRound` are programs of a client, with what
they read and where they end. Range tombstones are concrete; the merge operator is any function, and it may fail. A
cursor on a key whose merge fails is `Broken` until the next seek, as the iterator is. User keys are numbers in the
comparator's order; `KeyOrder` shows that any finite set of keys can be numbered like that and that encoded internal
keys are then ordered as the specification orders them; sorted runs of encoded entries become runs of the specification,
and seeks in both land alike.

**SuperVersions** (`SuperVersion`). Readers take a SuperVersion out of a thread-local slot and put it back by
compare-and-swap, while installs replace the current one and scrape the slots. The steps are the atomic accesses; steps
that need the DB mutex wait while an install holds it.

**The clock cache** (`ClockCache`, `ClockOperations`, `ClockEviction`). `ClockCache` is the protocol: lock-free lookups
and releases against erases, evictions and inserts under the mutex, with handles reused. An inserted value is a ticket,
so that handing it to its deleter can be counted. `ClockOperations` is what each operation gets done. `ClockEviction` is
the clock hand of `EvictFromCache` as a class.

**The LRU cache** (`LruHandle`, `LruTable`, `LruCharges`, `LruList`, `LruShard`, `PowersOfTwo`). The nodes are heap
objects that the hash chains and the circular list share. The table refines a map from (hash, key) to handle; the shard
keeps its three counters, the split pointer and the pool flags exact, and every method says what it does to the list,
the table, the charges and the set of freed handles.

**SGX EPC paging** (`Pages`, `EpcBank`, `EpcPaging`, `EpcOperations`, `PcmdSlots`, `VaSlots`, `VaRace`, `VmaAccess`).
`EpcPaging` is the ownership of EPC pages across creation, the add-page worker, faults, swapping, debug access and
release, at the granularity of the locked sections, with ENCLS instructions that succeed or fail arbitrarily;
`EpcOperations` is what each operation gets done, and `EpcBank` the setup loop that leads to the first state.
`PcmdSlots` is the arithmetic of the paging metadata, `VaSlots` the slot bitmap without interference, `VaRace` the same
search by several callers at once, and `VmaAccess` the word-granular debug access with all its errors.

`DbFormat` and `Comparators` are the bytes of internal keys, their comparisons and the shortening of keys for index
blocks. `Counting`, `Sequences` and `Wrappers` are helpers.

## Claims that do not hold

Where a comment or an expectation is not what the code does, the models follow the code. Each of these is a lemma, or
a method that builds the case.

- The comment on `RangeTombstone::SerializeEndKey` (rocksdb-6.14.5-unmodified/db/dbformat.h:667-671) promises a key
  below every other key of the user key. That fails for the seek key of the same user key; `DbFormat.EndKeyIsBelow` has
  the exact condition.
- `ReturnThreadLocalSuperVersion` says of a failed compare-and-swap that the SuperVersion is obsolete
  (rocksdb-6.14.5-unmodified/db/column_family.cc:1230-1233). For a given reference that is so, in every run that
  follows, if and only if the slot still showed kSVInUse when the reference was taken
  (`SuperVersions.FailedReturnIsOfReplaced`). That covers all references out of the slot, and those taken under the
  mutex unless a scrape of the slot came first; `SuperVersions.FailedReturnOfCurrent` is a run in which one did.
- Of a successful compare-and-swap it says that the SuperVersion is still current (lines 1226-1228). It is current if
  and only if it is not the one whose replacement has been published while the slot still awaits the scrape
  (`SuperVersions.ReturnedIsFresh`); `SuperVersions.ReturnOfReplaced` is a run that puts back a replaced one.
- A full scan backward need not be the reverse of the one forward: each stops at the first failing merge it meets.
  `DbIters.ScanBothWays` says exactly when the two mirror each other, and `DbIters.ScansThatDiffer` is a case.
- `EvictFromCache` can answer no although what it leaves makes room; `ClockEviction.NoDespiteRoom` says exactly when.
- The bound on the high-priority pool is not kept by `SetCapacity` (`LruShards.PoolOverCapacity`); the contract of
  `SetCapacity` says when it is, in terms of the state before.
- `secs_child_cnt` is exact only while no EEXTEND has failed (`EpcPaging.CountIsExact`); it is never too low.
  `EpcPaging.FailedEextend` is a run to an enclave with a count of 1 and no resident page.
- Two pages of an enclave can get the same VA slot, because `sgx_init_page`
  (fortanix-linux-sgx-driver/sgx_encl.c:446-505) searches without a lock: exactly in the runs in which some set_bit
  finds its bit set already (`VaRaces.SharedExactly`), and in none in which the searches do not overlap.
- When a bank cannot be set up for lack of memory, `sgx_add_epc_bank` empties the free list but leaves its counters;
  they are right afterwards only if no page had been counted (`EpcBanks.PageCache.AddEpcBank`).
- The PCMD file of a small enclave can be shorter than the slots used in it (`PcmdSlots.LengthSuffices`); the page that
  holds them is there all the same.
- The loop of `Resize` in the LRU table ends if and only if three times the entries are at most 2^32
  (`LruTables.GrowthEnds`), and the overflow of the high-priority pool if and only if its capacity is not negative
  (`LruShards.OverflowEnds`).

## Model

| member | source | states |
|---|---|---|
| `SnapshotView.ViewIsSnapshot` | rocksdb-6.14.5-unmodified/db/db_iter.h:28-52 | the view lists, in strictly increasing key order, exactly the keys within the bounds that a point lookup at the snapshot finds (or whose merge fails), each with the result of that lookup |
| `SnapshotView.NewestVisibleDecides` | rocksdb-6.14.5-unmodified/db/db_iter.h:28-52 | a key reads as its newest visible version applied to what the older versions leave; newer, invisible versions do not matter |
| `SnapshotView.NoVersionNoYield` | rocksdb-6.14.5-unmodified/db/db_iter.h:28-31 | a key without a visible version is not shown |
| `SnapshotView.PutEndsMerge` | rocksdb-6.14.5-unmodified/db/db_iter.cc:524-542 | a put below a merge chain is its base, and the chain ends just behind it |
| `SnapshotView.NothingEndsMerge` | rocksdb-6.14.5-unmodified/db/db_iter.cc:501-518 | a tombstone (or range tombstone), another key or the end of the run ends a merge chain without a base; the tombstone is used up, the other key is not |
| `SnapshotView.MergesOntoPut` | rocksdb-6.14.5-unmodified/db/db_iter.cc:524-542 | a key whose newest visible versions are merges down to a put reads as the merge operator's answer for the put's value and the operands, oldest first |
| `SnapshotView.MergesOntoNothing` | rocksdb-6.14.5-unmodified/db/db_iter.cc:501-518 | with a tombstone below the merges, or nothing, it reads as the operator's answer for no base and the operands, oldest first |
| `SnapshotView.NewestDecidesAlone` | rocksdb-6.14.5-unmodified/db/db_iter.cc:255-380 | a put as the newest visible version is read, a deletion or a hidden entry reads as absent, a merge never does |
| `SnapshotView.PutUnderTombstone` | rocksdb-6.14.5-unmodified/db/db_iter.cc:71 | a put is read if and only if the snapshot includes it and does not include a newer range tombstone that spans its key, from the start key on and below the end key |
| `SnapshotView.NewerEntriesDoNotMatter` | rocksdb-6.14.5-unmodified/db/db_iter.h:28-31 | an entry above the snapshot changes no lookup, wherever it stands |
| `SnapshotView.NewerTombstonesDoNotMatter` | rocksdb-6.14.5-unmodified/db/db_iter.cc:71 | range tombstones above the snapshot change no lookup |
| `SnapshotView.ViewIsWithinBounds` | rocksdb-6.14.5-unmodified/db/db_iter.cc:121-178 | exactly the keys found from the lower bound on and below the upper bound are shown |
| `SnapshotView.MergeEndAfterSequenceZero` | rocksdb-6.14.5-unmodified/db/db_iter.cc:266-272 | nothing of a key is left to merge behind an entry with sequence number 0 |
| `SnapshotView.HeaderExample` | rocksdb-6.14.5-unmodified/db/db_iter.h:34-51 | the worked example of the header: the two views at the snapshots 102 and 96, item by item |
| `Cursors.IndexOfKey` | rocksdb-6.14.5-unmodified/db/db_iter.cc:121-178 | the key of the current item determines its index, and the items next to it are what seeks just beyond that key land on |
| `Cursors.FirstKeyFrom` | rocksdb-6.14.5-unmodified/db/db_iter.cc:1225-1285 | the first shown key at or after a target is the item a seek to the target has to land on |
| `Cursors.LastKeyUpTo` | rocksdb-6.14.5-unmodified/db/db_iter.cc:1287-1349 | the last shown key at or before a target is the item a backward seek to the target has to land on |
| `Cursors.ScansMirror` | rocksdb-6.14.5-unmodified/db/db_iter.cc:698-925 | what the two full scans read is the same in opposite order if and only if no merge fails, or the first and the last key both fail |
| `Cursors.TurningRoundReturns` | rocksdb-6.14.5-unmodified/db/db_iter.cc:631-696 | any number of steps in one direction followed by as many in the other leads back to the item started from, when the items on the way are found |
| `ForwardSearch.SequenceZeroShortcut` | rocksdb-6.14.5-unmodified/db/db_iter.cc:216-272 | when the entry just passed had sequence number 0 the current entry belongs to a later key, so leaving out the comparison with the saved key is sound |
| `ForwardSearch.NothingPassedOver` | rocksdb-6.14.5-unmodified/db/db_iter.cc:215-472 | no key between the start of the search and the current entry is shown; at the end of the run none is left |
| `ForwardSearch.ReachesNewestVersion` | rocksdb-6.14.5-unmodified/db/db_iter.cc:255-280 | a visible entry that is not skipped is the newest visible version of its key |
| `ForwardSearch.SkipVersion` | rocksdb-6.14.5-unmodified/db/db_iter.cc:263-268 | passing a version of the key being skipped keeps what the search knows |
| `ForwardSearch.SkipDeletedKey` | rocksdb-6.14.5-unmodified/db/db_iter.cc:278-380 | passing a deleted key hides the rest of its versions and nothing else |
| `ForwardSearch.PassInvisible` | rocksdb-6.14.5-unmodified/db/db_iter.cc:394-414 | passing an entry newer than the snapshot is no reason to skip its key |
| `ForwardSearch.ReseekPastKey` | rocksdb-6.14.5-unmodified/db/db_iter.cc:425-446 | the reseek past all versions of the saved key passes over nothing else |
| `ForwardSearch.ReseekToSnapshot` | rocksdb-6.14.5-unmodified/db/db_iter.cc:447-466 | the reseek to the snapshot sequence number passes over invisible versions of the key only |
| `BackwardSearch.ReadVersion` | rocksdb-6.14.5-unmodified/db/db_iter.cc:805-847 | one more, newer, version read: the variables of the backward scan describe the state of the key after replaying that version too |
| `BackwardSearch.AllVersionsRead` | rocksdb-6.14.5-unmodified/db/db_iter.cc:773-788 | at the first entry that is not a visible version of the key, the versions read decide what the key reads as |
| `BackwardSearch.PassKeyBackward` | rocksdb-6.14.5-unmodified/db/db_iter.cc:698-757 | moving before a key that is not shown passes over no shown key |
| `InternalIterators.InternalIterator.Seek` | rocksdb-6.14.5-unmodified/db/db_iter.cc:1243-1249 | the wrapped iterator moves to the first entry at or after the target, wherever it was |
| `InternalIterators.InternalIterator.SeekForPrev` | rocksdb-6.14.5-unmodified/db/db_iter.cc:1307-1313 | it moves to the last entry at or before the target |
| `MergeContexts.MergeContext.PushOperand` | rocksdb-6.14.5-unmodified/db/merge_context.h:32-44 | adds an operand older than the others, whichever way the list was last used |
| `MergeContexts.MergeContext.PushOperandBack` | rocksdb-6.14.5-unmodified/db/merge_context.h:47-60 | adds an operand newer than the others, whichever way the list was last used |
| `MergeContexts.MergeContext.GetOperands` | rocksdb-6.14.5-unmodified/db/merge_context.h:79-92 | hands out the operands oldest first and keeps them |
| `DbIters.DBIter.constructor` | rocksdb-6.14.5-unmodified/db/db_iter.cc:36-86 | a new iterator is not valid and has no error |
| `DbIters.DBIter.TimedFullMerge` | rocksdb-6.14.5-unmodified/db/db_iter.h:160-170 | the merge result of the key is where the value is read from: a new value, or one of the operands |
| `DbIters.DBIter.MergeValuesNewToOld` | rocksdb-6.14.5-unmodified/db/db_iter.cc:483-591 | from the newest visible version: the value is the point lookup's, and the internal iterator ends just behind the last entry that contributed |
| `DbIters.DBIter.ExamineEntry` | rocksdb-6.14.5-unmodified/db/db_iter.cc:232-425 | every entry is either the newest visible version of a shown key, or passed with everything known about the search kept |
| `DbIters.DBIter.Reseek` | rocksdb-6.14.5-unmodified/db/db_iter.cc:425-475 | a reseek never moves back and keeps everything known about the search |
| `DbIters.DBIter.FindNextUserEntryInternal` | rocksdb-6.14.5-unmodified/db/db_iter.cc:186-481 | lands on the first shown key at or after the lower end of the search; ends for every limit on skips, by the measure (entries left, reseek not yet done) |
| `DbIters.DBIter.ReadVersions` | rocksdb-6.14.5-unmodified/db/db_iter.cc:760-852 | reads the versions of the current key from oldest to newest until it has all of them or has read as many as allowed |
| `DbIters.DBIter.FindValueForCurrentKey` | rocksdb-6.14.5-unmodified/db/db_iter.cc:760-925 | finds the value, the absence or the failed merge of the current key from its oldest version, with the internal iterator left near the key |
| `DbIters.DBIter.FindValueForCurrentKeyUsingSeek` | rocksdb-6.14.5-unmodified/db/db_iter.cc:931-1100 | finds the same by a seek to the newest visible version |
| `DbIters.DBIter.MergeOlderOperands` | rocksdb-6.14.5-unmodified/db/db_iter.cc:1002-1082 | collects the operands of the current key from newest to oldest and merges them to the point lookup's value |
| `DbIters.DBIter.FindUserKeyBeforeSavedKey` | rocksdb-6.14.5-unmodified/db/db_iter.cc:1104-1159 | ends just before all entries of the saved key, with or without reseeks |
| `DbIters.DBIter.PrevInternal` | rocksdb-6.14.5-unmodified/db/db_iter.cc:698-758 | lands on the last shown key at or before the upper end of the search |
| `DbIters.DBIter.ReverseToForward` | rocksdb-6.14.5-unmodified/db/db_iter.cc:631-664 | from before the current key to its first entry |
| `DbIters.DBIter.ReverseToBackward` | rocksdb-6.14.5-unmodified/db/db_iter.cc:666-696 | from the position of a forward iterator, merged or not, to just before all entries of the current key |
| `DbIters.DBIter.Next` | rocksdb-6.14.5-unmodified/db/db_iter.cc:121-178 | keeps the position invariant of the header and moves one item forward in the view |
| `DbIters.DBIter.Prev` | rocksdb-6.14.5-unmodified/db/db_iter.cc:593-629 | keeps the position invariant of the header and moves one item backward in the view |
| `DbIters.DBIter.Seek` | rocksdb-6.14.5-unmodified/db/db_iter.cc:1225-1285 | lands on the first item at or after the target, within the bounds, or runs off the end |
| `DbIters.DBIter.SeekForPrev` | rocksdb-6.14.5-unmodified/db/db_iter.cc:1287-1349 | lands on the last item at or before the target, within the bounds, or runs off the end |
| `DbIters.DBIter.SeekToFirst` | rocksdb-6.14.5-unmodified/db/db_iter.cc:1351-1396 | lands on the first item of the view |
| `DbIters.DBIter.SeekToLast` | rocksdb-6.14.5-unmodified/db/db_iter.cc:1398-1440 | lands on the last item of the view; the test for the upper bound after the backward seek never applies |
| `DbIters.DBIter.Perform` | rocksdb-6.14.5-unmodified/db/db_iter.h:60-68 | every command a client can give keeps the invariant and moves the iterator as it moves a cursor on the view |
| `DbIters.RunScript` | rocksdb-6.14.5-unmodified/db/db_iter.h:28-68 | for every input, snapshot, bounds, limit on skips and script of commands in any mix of directions, what the client observes is what a cursor on the view shows, and the iterator ends where the cursor ends |
| `DbIters.ScanForward` | rocksdb-6.14.5-unmodified/db/db_iter.cc:121-178 | SeekToFirst and Next until the iterator is not valid: reads the view in order, each key once, up to the first key whose merge fails; the status is ok exactly if no merge fails |
| `DbIters.ScanBackward` | rocksdb-6.14.5-unmodified/db/db_iter.cc:593-629 | SeekToLast and Prev likewise: reads the view in reverse order, down to the last key whose merge fails |
| `DbIters.ScanBothWays` | rocksdb-6.14.5-unmodified/db/db_iter.cc:593-925 | both scans of one iterator: the one is the reverse of the other if and only if no merge fails, or the merges of the first and the last key do |
| `DbIters.ScansThatDiffer` | rocksdb-6.14.5-unmodified/db/db_iter.cc:593-925 | a view of three keys whose middle one has a merge that fails: the forward scan reads the first key only and the backward scan the last only, for every limit on skips |
| `DbIters.TurnRound` | rocksdb-6.14.5-unmodified/db/db_iter.cc:631-696 | n times Next and then n times Prev, or the other way round, ends on the same key with the same value, when the keys on the way are there and their merges do not fail |
| `SuperVersions.SafeAtEveryStep` | rocksdb-6.14.5-unmodified/db/column_family.cc:1160-1300 | after any run with any number of threads and installs, each counter is the number of places that refer to the SuperVersion, a cleaned-up one is referred to from nowhere, and no assert of the source can fail at the next step, the ones on null pointers among them |
| `SuperVersions.StepKeepsInv` | rocksdb-6.14.5-unmodified/db/column_family.cc:428-470 | every atomic step of every thread keeps the invariant and passes its assert |
| `SuperVersions.NoViolation` | rocksdb-6.14.5-unmodified/db/column_family.cc:428-454 | the asserts of Unref, Cleanup, the thread-exit handler, the scrape, the compare-and-swap and on a missing SuperVersion hold wherever the invariant does |
| `SuperVersions.HeldIsAlive` | rocksdb-6.14.5-unmodified/db/column_family.cc:1173-1220 | a SuperVersion a thread holds has not been cleaned up, and one in a slot is held by more than the slot |
| `SuperVersions.HeldIsReferenced` | rocksdb-6.14.5-unmodified/db/column_family.cc:440-448 | the counter covers the thread's references, the current pointer, the one being replaced and the clients' |
| `SuperVersions.NothingLeaks` | rocksdb-6.14.5-unmodified/db/column_family.cc:1276-1280 | when all threads are idle exactly the unreferenced SuperVersions have been cleaned up |
| `SuperVersions.CheckIsExact` | rocksdb-6.14.5-unmodified/db/column_family.cc:1190-1200 | after any run the version check keeps the SuperVersion of the slot if and only if it is the one numbered last; so, except between the publication of a new one and its numbering, if and only if it is current |
| `SuperVersions.ReadGetsCurrent` | rocksdb-6.14.5-unmodified/db/column_family.cc:1173-1220 | without an install in the way a thread gets the current SuperVersion: in two steps and without the mutex if its slot holds one, otherwise under the mutex |
| `SuperVersions.ReturnFillsSlot` | rocksdb-6.14.5-unmodified/db/column_family.cc:1222-1230 | what it puts back is in its slot for the next read |
| `SuperVersions.ClientGetsCurrent` | rocksdb-6.14.5-unmodified/db/column_family.cc:1160-1171 | a caller that keeps the current SuperVersion gets a reference of its own, which it can release |
| `SuperVersions.InstallReplaces` | rocksdb-6.14.5-unmodified/db/column_family.cc:1246-1300 | an install ends after finitely many steps of its own with its SuperVersion current, the next number, and every slot scraped |
| `SuperVersions.ExitEmptiesSlot` | rocksdb-6.14.5-unmodified/db/column_family.cc:470-483 | a thread that exits leaves nothing in its slot |
| `SuperVersions.OnlyCurrentIsLeft` | rocksdb-6.14.5-unmodified/db/column_family.cc:440-470 | with all slots empty, all threads idle and no client references exactly the current SuperVersion has not been cleaned up |
| `SuperVersions.NeverStuck` | rocksdb-6.14.5-unmodified/db/column_family.cc:1173-1220 | a thread in the middle of an operation can go on unless it waits for the mutex, and an install, which holds the mutex, always can |
| `SuperVersions.ScrapedMeansReplaced` | rocksdb-6.14.5-unmodified/db/column_family.cc:1229-1235 | a SuperVersion referenced while the slot was in use, on either path, that cannot be put back has been replaced |
| `SuperVersions.FailedReturnIsOfReplaced` | rocksdb-6.14.5-unmodified/db/column_family.cc:1230-1235 | every failed compare-and-swap for a given reference, in every run from there on, is for a SuperVersion that is no longer current, if and only if the slot still showed kSVInUse when the reference was taken |
| `SuperVersions.DetachedReturnFails` | rocksdb-6.14.5-unmodified/db/column_family.cc:1211-1235 | a reference taken under the mutex after the slot was scraped cannot be put back even at once, while its SuperVersion is current |
| `SuperVersions.ReturnedIsFresh` | rocksdb-6.14.5-unmodified/db/column_family.cc:1225-1229 | a SuperVersion that is put back is current if and only if it is not the one whose replacement is published and whose slot still awaits the scrape |
| `SuperVersions.ReturnOfReplaced` | rocksdb-6.14.5-unmodified/db/column_family.cc:1225-1229 | a run from the initial state at whose end a replaced SuperVersion has been put back successfully |
| `SuperVersions.FailedReturnOfCurrent` | rocksdb-6.14.5-unmodified/db/column_family.cc:1230-1235 | a run from the initial state after which the compare-and-swap has failed for the SuperVersion that is current |
| `ClockCache.SafeAtEveryStep` | rocksdb-6.14.5-unmodified/cache/clock_cache.cc:425-522 | after any interleaving the counter of a handle is the number of agents that refer to it, an unused handle is in the recycle bin once or exactly one agent is about to recycle or fill it, no other handle is, and the next step passes its asserts |
| `ClockCache.StepKeepsInv` | rocksdb-6.14.5-unmodified/cache/clock_cache.cc:450-522 | every atomic step of every agent keeps the invariant and passes its asserts |
| `ClockCache.NoViolation` | rocksdb-6.14.5-unmodified/cache/clock_cache.cc:425-437 | a handle is recycled only out of the cache, unreferenced, not in the bin and with its value not yet deleted; a handle is filled only when nobody uses it |
| `ClockCache.LockFreeStep` | rocksdb-6.14.5-unmodified/cache/clock_cache.cc:450-492 | steps without the mutex change only counters, usage bits and the agent's own position |
| `ClockCache.OneKeeper` | rocksdb-6.14.5-unmodified/cache/clock_cache.cc:184-190 | at most one agent is responsible for an unused handle |
| `ClockCache.HeldUntilRelease` | rocksdb-6.14.5-unmodified/cache/clock_cache.cc:644-678 | a handle that Lookup returned keeps its key and value, not deleted, until its holder's own next step, whatever the others do |
| `ClockCache.LookupChecksKey` | rocksdb-6.14.5-unmodified/cache/clock_cache.cc:656-667 | Lookup returns a handle exactly if it carries the key asked for when it has been referenced, even if it was evicted and reused in between; otherwise it gives up the reference |
| `ClockOperations.LookupHits` | rocksdb-6.14.5-unmodified/cache/clock_cache.cc:644-667 | a lookup, whatever the others do between its steps: it misses at once if and only if the table does not list the key, and otherwise ends with the listed handle if and only if that is in the cache and carries the key when it is referenced |
| `ClockOperations.UndisturbedLookup` | rocksdb-6.14.5-unmodified/cache/clock_cache.cc:644-667 | undisturbed it returns what the table lists |
| `ClockOperations.InsertCompletes` | rocksdb-6.14.5-unmodified/cache/clock_cache.cc:582-612 | an insert that evicts nothing puts its entry under the key, hands out a reference if asked to, and changes no other entry; the one it replaces leaves the cache, deleted if nobody refers to it |
| `ClockOperations.GiveUpCompletes` | rocksdb-6.14.5-unmodified/cache/clock_cache.cc:586-596 | an insert that is turned away deletes its value exactly if its caller does not keep it |
| `ClockOperations.EvictionCompletes` | rocksdb-6.14.5-unmodified/cache/clock_cache.cc:509-522 | an eviction takes the entry out of the cache and the table, deletes its value, and takes its charge off the usage |
| `ClockOperations.SecondChance` | rocksdb-6.14.5-unmodified/cache/clock_cache.cc:466-492 | the hand passes over an entry that has just been released, and takes it at the next visit if and only if nobody refers to it and it is in the cache |
| `ClockOperations.EraseCompletes` | rocksdb-6.14.5-unmodified/cache/clock_cache.cc:680-697 | an erase takes exactly the key out of the table and its entry out of the cache; the value is deleted if nobody refers to it and kept otherwise |
| `ClockOperations.ClearCompletes` | rocksdb-6.14.5-unmodified/cache/clock_cache.cc:699-712 | EraseUnRefEntries ends with an empty table and nothing in the cache |
| `ClockCache.QuiescentCache` | rocksdb-6.14.5-unmodified/cache/clock_cache.cc:699-712 | when all agents are idle each handle is either listed in the table under its key or once in the bin, and exactly the values not in the table have been deleted |
| `ClockCache.UsageIsExact` | rocksdb-6.14.5-unmodified/cache/clock_cache.cc:425-437 | after any interleaving the usage is the sum of the charges of the handles that store a value, in the cache or still referenced, less the one an insert has stored and not counted yet; it is never negative, and exact whenever the mutex is free or an insert decides about evictions |
| `ClockCache.QuiescentUsage` | rocksdb-6.14.5-unmodified/cache/clock_cache.cc:582-612 | when all agents are idle the usage is the sum of the charges of the entries in the cache |
| `ClockCache.NeverStuck` | rocksdb-6.14.5-unmodified/cache/clock_cache.cc:450-522 | an agent in the middle of an operation can go on unless it waits for the mutex, which is held by an agent that can |
| `ClockEviction.ClockList.TryEvict` | rocksdb-6.14.5-unmodified/cache/clock_cache.cc:509-522 | evicts an entry exactly if it is in the cache, unused and unreferenced; otherwise it loses its usage bit; usage and recycle bin stay exact |
| `ClockEviction.ClockList.EvictFromCache` | rocksdb-6.14.5-unmodified/cache/clock_cache.cc:524-548 | visits one entry after the other from the hand on until the charge fits and not one more, and leaves the hand there; otherwise says no after exactly two laps and leaves the hand where it was; the answer is yes if and only if what is left before the very last visit leaves room; evicts unreferenced entries only |
| `ClockEviction.StoppedEarly` | rocksdb-6.14.5-unmodified/cache/clock_cache.cc:533-545 | before its last visit the hand has left at least the charges it finds then |
| `ClockEviction.AfterTwoLaps` | rocksdb-6.14.5-unmodified/cache/clock_cache.cc:538-541 | after two laps only referenced entries are in the cache |
| `ClockEviction.NoDespiteRoom` | rocksdb-6.14.5-unmodified/cache/clock_cache.cc:538-541 | the answer is no although there is room exactly when the last entry of the lap was used and unreferenced and its charge makes the difference |
| `ClockEviction.OneUsedEntry` | rocksdb-6.14.5-unmodified/cache/clock_cache.cc:538-541 | the smallest case of that: one used entry fills the cache |
| `LruTables.LRUHandleTable.constructor` | rocksdb-6.14.5-unmodified/cache/lru_cache.cc:21-23 | an empty table of 16 buckets |
| `LruTables.LRUHandleTable.FindPointer` | rocksdb-6.14.5-unmodified/cache/lru_cache.cc:64-70 | the place of the matching entry in its bucket, or of the bucket's end when no entry of the table matches |
| `LruTables.LRUHandleTable.Lookup` | rocksdb-6.14.5-unmodified/cache/lru_cache.cc:34-36 | what the map holds for (hash, key) |
| `LruTables.LRUHandleTable.Insert` | rocksdb-6.14.5-unmodified/cache/lru_cache.cc:38-52 | the map updated at (hash, key); hands back the entry replaced; at most as many entries as buckets, and their number a power of two |
| `LruTables.LRUHandleTable.Remove` | rocksdb-6.14.5-unmodified/cache/lru_cache.cc:54-62 | the map without (hash, key); hands back the entry removed |
| `LruTables.LRUHandleTable.Resize` | rocksdb-6.14.5-unmodified/cache/lru_cache.cc:72-96 | the map stays; at least one and a half times as many buckets |
| `LruTables.LRUHandleTable.MoveBucket` | rocksdb-6.14.5-unmodified/cache/lru_cache.cc:83-92 | each node of a bucket moves once to the bucket of its masked hash in the new array |
| `LruTables.LRUHandleTable.NewLength` | rocksdb-6.14.5-unmodified/cache/lru_cache.cc:73-76 | the least power of two from 16 on that is not below one and a half times the entries, within 32 bits |
| `LruTables.GrowthEnds` | rocksdb-6.14.5-unmodified/cache/lru_cache.cc:72-76 | doubling in 32 bits reaches one and a half buckets for each entry if and only if three times the entries are at most 2^32; otherwise the loop of Resize does not end |
| `LruTables.ContentsAfterInsert` | rocksdb-6.14.5-unmodified/cache/lru_cache.cc:38-52 | a set of nodes with distinct keys stays one, and its map is updated at one key |
| `LruTables.ContentsAfterRemove` | rocksdb-6.14.5-unmodified/cache/lru_cache.cc:54-62 | the same for a removal |
| `LruLists.Unlink` | rocksdb-6.14.5-unmodified/cache/lru_cache.cc:178-184 | the circular list without the node, in both directions |
| `LruLists.LinkBehind` | rocksdb-6.14.5-unmodified/cache/lru_cache.cc:196-219 | the circular list with the node behind the given one, in both directions |
| `LruShards.LRUCacheShard.constructor` | rocksdb-6.14.5-unmodified/cache/lru_cache.cc:98-116 | an empty shard |
| `LruShards.LRUCacheShard.LRURemove` | rocksdb-6.14.5-unmodified/cache/lru_cache.cc:178-194 | the list without the entry, with the split pointer and both counters exact |
| `LruShards.LRUCacheShard.LRUInsert` | rocksdb-6.14.5-unmodified/cache/lru_cache.cc:196-220 | an important entry goes to the newest end and the pool overflows to its capacity; any other goes to the newest end of the low-priority part |
| `LruShards.LRUCacheShard.MaintainPoolSize` | rocksdb-6.14.5-unmodified/cache/lru_cache.cc:222-233 | moves the split by exactly the entries that must leave the pool, with flags and counter exact |
| `LruShards.OverflowIsLeast` | rocksdb-6.14.5-unmodified/cache/lru_cache.cc:222-233 | no more entries leave the pool than must |
| `LruShards.OverflowEnds` | rocksdb-6.14.5-unmodified/cache/lru_cache.cc:222-233 | entries can overflow until the pool is within its capacity if and only if that capacity is not negative |
| `LruShards.LRUCacheShard.EvictFromLRU` | rocksdb-6.14.5-unmodified/cache/lru_cache.cc:235-249 | evicts from the oldest on until the charge fits or the list is empty, and not one entry more |
| `LruShards.LRUCacheShard.SetCapacity` | rocksdb-6.14.5-unmodified/cache/lru_cache.cc:251-264 | evicts exactly the entries that must go and frees each once; says what the high-priority pool counts for then, and so exactly when its bound holds |
| `LruShards.EvictedExactly` | rocksdb-6.14.5-unmodified/cache/lru_cache.cc:235-264 | the number of evicted entries is determined by the list, the usage and the capacity before |
| `LruShards.PoolOverCapacity` | rocksdb-6.14.5-unmodified/cache/lru_cache.cc:251-264 | a shard whose high-priority pool is over its capacity after SetCapacity |
| `LruShards.LRUCacheShard.EraseUnRefEntries` | rocksdb-6.14.5-unmodified/cache/lru_cache.cc:118-139 | frees the whole list, each entry once, and nothing else |
| `LruShards.LRUCacheShard.Lookup` | rocksdb-6.14.5-unmodified/cache/lru_cache.cc:271-284 | what the map holds; a hit takes an unreferenced entry off the list, marks it and adds a reference |
| `LruShards.LRUCacheShard.Ref` | rocksdb-6.14.5-unmodified/cache/lru_cache.cc:286-293 | another reference to a handle that a client holds |
| `LruShards.LRUCacheShard.SetHighPriorityPoolRatio` | rocksdb-6.14.5-unmodified/cache/lru_cache.cc:295-300 | restores the bound on the pool by moving the split only |
| `LruShards.LRUCacheShard.Release` | rocksdb-6.14.5-unmodified/cache/lru_cache.cc:302-337 | frees the handle exactly if it was the last reference and the entry is out of the table, the cache is over its capacity or the erasure is forced; otherwise the last reference puts it on the list; does nothing for a null handle |
| `LruShards.LRUCacheShard.Insert` | rocksdb-6.14.5-unmodified/cache/lru_cache.cc:339-417 | evicts exactly what is needed, turns the entry away exactly if it does not fit and may not exceed the capacity, and otherwise puts it in the place of the entry with the same key; every handle, list position, counter and freed handle afterwards |
| `LruShards.LRUCacheShard.Erase` | rocksdb-6.14.5-unmodified/cache/lru_cache.cc:419-444 | takes the entry out of the table; frees it at once exactly if nobody references it |
| `LruShards.LRUCacheShard.Free` | rocksdb-6.14.5-unmodified/cache/lru_cache.h:125-131 | a handle is freed once, out of the cache and unreferenced |
| `EpcPaging.SafeAtEveryStep` | fortanix-linux-sgx-driver/sgx_page_cache.c:309-358 | after any interleaving of operations on any number of enclaves: each page of the EPC is once in exactly one of the free list, a SECS, a VA page, an enclave page, the worker or a running operation; the counters agree; the next step loads no child while the SECS is out, evicts no SECS with a resident child and takes no page twice |
| `EpcPaging.StepKeepsInv` | fortanix-linux-sgx-driver/sgx_util.c:213-335 | every step of every operation keeps the invariant and does nothing that must not happen |
| `EpcPaging.PageAfterStep` | fortanix-linux-sgx-driver/sgx_page_cache.c:466-558 | a page that is in exactly one place is in exactly one place after every step |
| `EpcPaging.OnePageMoves` | fortanix-linux-sgx-driver/sgx_page_cache.c:466-558 | a step moves one page at most: all other pages stay exactly where they were |
| `EpcPaging.OpStepMoves` | fortanix-linux-sgx-driver/sgx_util.c:256-335 | what a step of a fault or a swap adds to or takes from a place in the enclave, its local variables and the free list, page by page |
| `EpcPaging.CountersAfterStep` | fortanix-linux-sgx-driver/sgx_page_cache.c:466-483 | the free, allocated and freed counters follow the free list |
| `EpcPaging.ChildNeedsSecs` | fortanix-linux-sgx-driver/sgx_page_cache.c:344-355 | secs_child_cnt is never below the number of resident children, and a resident child has its SECS |
| `EpcPaging.CountIsExact` | fortanix-linux-sgx-driver/sgx_encl.c:277-288 | secs_child_cnt is exact if and only if no EEXTEND of the enclave has failed; it is zero if and only if, moreover, no child is resident |
| `EpcPaging.CountCanBeHigh` | fortanix-linux-sgx-driver/sgx_encl.c:280-288 | a failed EEXTEND leaves the count above the number of resident children |
| `EpcPaging.FailedEextend` | fortanix-linux-sgx-driver/sgx_encl.c:277-288 | a run from the state after the setup at whose end a running enclave has no resident page and a count of 1 |
| `EpcPaging.AllPagesReturn` | fortanix-linux-sgx-driver/sgx_encl.c:957-1008 | when all enclaves and operations are gone every page is on the free list once |
| `EpcPaging.NeverStuck` | fortanix-linux-sgx-driver/sgx_util.c:213-335 | a fault or a swap can go on unless it waits for the lock of its enclave, which is held by an operation that can |
| `EpcPaging.WorkerNeverStuck` | fortanix-linux-sgx-driver/sgx_encl.c:298-340 | the add-page worker can skip its request or, once the lock is free, give its page back |
| `EpcPaging.ReleaseNeverStuck` | fortanix-linux-sgx-driver/sgx_encl.c:957-1008 | a release can go on until the enclave is gone |
| `EpcOperations.FaultLoadsPage` | fortanix-linux-sgx-driver/sgx_util.c:256-335 | a fault on a page that is out, with an EPC page free, ends with the page resident, listed and counted; a debugger's access has it reserved |
| `EpcOperations.FaultLoadsSecsToo` | fortanix-linux-sgx-driver/sgx_util.c:285-310 | with the SECS out it is loaded first, into a second EPC page |
| `EpcOperations.FaultOnResident` | fortanix-linux-sgx-driver/sgx_util.c:256-275 | a fault on a resident page changes nothing but that it may reserve the page |
| `EpcOperations.FailedFaultGivesBack` | fortanix-linux-sgx-driver/sgx_util.c:312-335 | a fault whose ELDU fails gives its EPC page back and leaves the enclave as it was |
| `EpcOperations.AccessEnds` | fortanix-linux-sgx-driver/sgx_vma.c:223-235 | the end of a debugger's access makes its page an ordinary one again |
| `EpcOperations.PageIsAdded` | fortanix-linux-sgx-driver/sgx_encl.c:233-340 | a request to add a page, processed, ends with the page resident, listed and counted |
| `EpcOperations.VaPageIsAdded` | fortanix-linux-sgx-driver/sgx_encl.c:459-498 | a VA page is allocated and is the first of the enclave |
| `EpcOperations.EnclaveStarts` | fortanix-linux-sgx-driver/sgx_encl.c:585-690 | a new enclave has a SECS and nothing else, and can be initialized |
| `EpcOperations.EnclaveIsKilled` | fortanix-linux-sgx-driver/sgx_util.c:117-140 | invalidating an enclave marks it dead and changes nothing else |
| `EpcOperations.SwapFreesPages` | fortanix-linux-sgx-driver/sgx_page_cache.c:205-370 | a swap of an enclave whose pages are all old and not reserved takes the first sixteen pages of its list, or all there are, out of the EPC, and the SECS with the last one; as many EPC pages are free again |
| `EpcOperations.EnclaveIsReleased` | fortanix-linux-sgx-driver/sgx_encl.c:957-1008 | a release ends with the enclave gone and every page it had on the free list |
| `EpcPaging.AccessKeepsPage` | fortanix-linux-sgx-driver/sgx_page_cache.c:205-235 | a page that a debugger's access has reserved stays resident and reserved at every step of the others |
| `EpcPaging.AccessedPageStays` | fortanix-linux-sgx-driver/sgx_vma.c:187-236 | the same over whole runs, until the access ends |
| `EpcPaging.RotateListing` | fortanix-linux-sgx-driver/sgx_page_cache.c:223-232 | an isolation scan that passes over a young or reserved page keeps it on the load list once |
| `EpcPaging.IsolateListing` | fortanix-linux-sgx-driver/sgx_page_cache.c:223-230 | an isolated page is in the cluster once and no longer on the load list |
| `EpcPaging.EvictListing` | fortanix-linux-sgx-driver/sgx_page_cache.c:309-316 | an evicted page leaves the cluster and is resident nowhere |
| `EpcPaging.BootKeepsInv` | fortanix-linux-sgx-driver/sgx_page_cache.c:404-433 | the invariant holds when no enclave exists and every page is on the free list |
| `EpcBanks.PageCache.AddEpcBank` | fortanix-linux-sgx-driver/sgx_page_cache.c:404-433 | the setup loop: puts exactly the pages of the bank on the free list, distinct and counted; numbered by where they stand on it they are the state the paging model starts in; without enough memory it empties the free list and leaves the counters as they are |
| `EpcBanks.BankPagesInRange` | fortanix-linux-sgx-driver/sgx_page_cache.c:409-413 | the pages of a bank are distinct and lie in its range, with the number of the bank in their low bits |
| `EpcBanks.BankPagesCover` | fortanix-linux-sgx-driver/sgx_page_cache.c:409-413 | every page-aligned address in the range of the bank is the address of one of its pages |
| `PcmdSlots.Sizes` | fortanix-linux-sgx-driver/sgx_encl.c:372-377 | a validated enclave either covers whole PCMD pages, aligned, or has one of four small sizes |
| `PcmdSlots.SlotDeterminesPage` | fortanix-linux-sgx-driver/sgx_page_cache.c:248 | the page can be computed back from its slot and the base, although the index counts from the base and the offset from address zero |
| `PcmdSlots.DistinctSlots` | fortanix-linux-sgx-driver/sgx_util.c:87-90 | for every base and size, validated or not, different pages, the SECS at base + size among them, have different (PCMD page, offset) slots |
| `PcmdSlots.SlotInFile` | fortanix-linux-sgx-driver/sgx_page_cache.c:248-262 | each slot lies within one page, and that page starts within the file |
| `PcmdSlots.LengthSuffices` | fortanix-linux-sgx-driver/sgx_encl.c:536-541 | all slots lie within the length the PCMD file is set up with if and only if the enclave is at least 128 KiB or its base is aligned to 128 KiB |
| `VaSlots.VaPage.AllocSlot` | fortanix-linux-sgx-driver/sgx.h:97-105 | the first free slot, which is taken; the page size exactly when the page is full |
| `VaSlots.VaPage.FreeSlot` | fortanix-linux-sgx-driver/sgx.h:107-111 | clears that slot only |
| `VaSlots.InitPage` | fortanix-linux-sgx-driver/sgx_encl.c:446-505 | undisturbed: a slot that was nobody's, of an existing page or of a new one when all are full; fails exactly when all are full and no new one can be set up; no other slot changes |
| `VaRaces.SharedFromStart` | fortanix-linux-sgx-driver/sgx_encl.c:446-505 | several pages added at once: in every run from an enclave without VA pages two of them get the same slot if and only if some set_bit finds its bit set already, and none do when the scans do not overlap |
| `VaRaces.SharedExactly` | fortanix-linux-sgx-driver/sgx_encl.c:446-505 | the same from any state in which the bits that are set are those of the slots in use |
| `VaRaces.SerializedNeverShares` | fortanix-linux-sgx-driver/sgx_encl.c:446-505 | when no two scans overlap no slot is shared |
| `VaRaces.OverlapShares` | fortanix-linux-sgx-driver/sgx.h:97-105 | two scans that overlap end with the same slot if and only if both have found the same zero bit |
| `VaRaces.TwoAddersShare` | fortanix-linux-sgx-driver/sgx_encl.c:782 | a run of two ADD_PAGE calls at the end of which two pages have the same slot: the call comes before the lock is taken |
| `VmaAccess.Memory.WriteWord` | fortanix-linux-sgx-driver/sgx_vma.c:124-166 | a read-modify-write of one aligned word that changes exactly the bytes asked for, or nothing when the page is a TCS that refuses or an instruction fails |
| `VmaAccess.Memory.ReadWord` | fortanix-linux-sgx-driver/sgx_vma.c:124-166 | copies exactly the bytes asked for out of one aligned word, or nothing in the same cases |
| `VmaAccess.Memory.Write` | fortanix-linux-sgx-driver/sgx_vma.c:187-236 | brings in a page at the first byte and at each page start and copies into the enclave plainly all bytes up to the first page or word that fails, whatever fails there; that ends the access, with its error, or with the bytes copied if it was a refused TCS word |
| `VmaAccess.Memory.Read` | fortanix-linux-sgx-driver/sgx_vma.c:187-236 | a plain copy out of the enclave, ended by the first failure under the same rules |
| `VmaAccess.PlainPagesHaveNoError` | fortanix-linux-sgx-driver/sgx_vma.c:187-236 | ordinary pages that can be brought in and instructions that succeed: the whole length is copied |
| `VmaAccess.TcsRead` | fortanix-linux-sgx-driver/sgx_vma.c:132-158 | what a read of a TCS gets, for every address and length in the page: all of it if it ends within 72 bytes, else its first word or nothing |
| `VmaAccess.TcsWrite` | fortanix-linux-sgx-driver/sgx_vma.c:132-136 | what a write to a TCS reaches: only the word of its flags, bytes 8 to 15 |
| `DbFormat.DecodeEncode` | rocksdb-6.14.5-unmodified/db/dbformat.h:130-145 | decoding a little-endian number undoes encoding it |
| `DbFormat.EncodeDecode` | rocksdb-6.14.5-unmodified/db/dbformat.h:194-198 | encoding what has been decoded gives the bytes back |
| `DbFormat.ParseUndoesAppend` | rocksdb-6.14.5-unmodified/db/dbformat.h:330-345 | parsing undoes appending, for every valid key |
| `DbFormat.AppendUndoesParse` | rocksdb-6.14.5-unmodified/db/dbformat.cc:61-64 | what parses is the encoding of the key it parses to, and that key is valid |
| `DbFormat.ParseFailsExactly` | rocksdb-6.14.5-unmodified/db/dbformat.h:330-345 | parsing fails exactly on what is not the encoding of a valid key |
| `DbFormat.ParsesExactly` | rocksdb-6.14.5-unmodified/db/dbformat.h:330-345 | what parses has at least eight bytes, the last eight of which start with one of seven type codes, listed by value |
| `DbFormat.FooterBytes` | rocksdb-6.14.5-unmodified/db/dbformat.h:130-145 | the first byte of the footer is the type and the others are the sequence number, low byte first |
| `DbFormat.UpdateInternalKey` | rocksdb-6.14.5-unmodified/db/dbformat.h:349-357 | overwrites the footer in place: the encoding of the same user key with the new sequence number and type |
| `DbFormat.EncodedAgreesWithParsed` | rocksdb-6.14.5-unmodified/db/dbformat.cc:109-128 | the comparison of encoded keys and that of parsed keys agree |
| `DbFormat.GlobalAgreesWithUpdated` | rocksdb-6.14.5-unmodified/db/dbformat.h:719-745 | comparing with global sequence numbers is comparing the keys updated with them |
| `DbFormat.CompareIsTotalOrder` | rocksdb-6.14.5-unmodified/db/dbformat.h:679-698 | a total order on encoded keys, equal exactly for equal user keys and footers |
| `DbFormat.KeySeqCoarsens` | rocksdb-6.14.5-unmodified/db/dbformat.h:700-717 | the comparison without types is coarser, and equal exactly for equal user keys and sequence numbers |
| `DbFormat.BoundsOfUserKey` | rocksdb-6.14.5-unmodified/db/dbformat.h:272-284 | a key lies between the smallest and the largest key of a user key if and only if it has that user key |
| `DbFormat.EndKeyIsBelow` | rocksdb-6.14.5-unmodified/db/dbformat.h:667-676 | the serialized end key is below a key of the same user key if and only if that key does not have the maximal sequence number with a type of 0xF or more |
| `DbFormat.EndKeyIsAboveSeekKey` | rocksdb-6.14.5-unmodified/db/dbformat.h:667-676 | the seek key of the same user key is a key it is not below, against the comment |
| `Comparators.BytewiseIsComparator` | rocksdb-6.14.5-unmodified/util/comparator.cc:30-32 | the built-in orders are total orders |
| `Comparators.FindShortestSeparator` | rocksdb-6.14.5-unmodified/util/comparator.cc:33-82 | the loops compute the separator defined by the common prefix |
| `Comparators.BytewiseSeparatorBetween` | rocksdb-6.14.5-unmodified/util/comparator.cc:33-82 | the separator is not longer, not below start, below limit where start is, and start itself where it is not |
| `Comparators.BytewiseSeparatorIsShortest` | rocksdb-6.14.5-unmodified/util/comparator.cc:33-82 | no key from start on and below limit is shorter than the separator |
| `Comparators.FindShortSuccessor` | rocksdb-6.14.5-unmodified/util/comparator.cc:84-97 | the loop computes the successor defined by the first byte below 0xFF |
| `Comparators.BytewiseSuccessorIsAbove` | rocksdb-6.14.5-unmodified/util/comparator.cc:84-97 | the successor is not longer, not below the key, and the key itself exactly for runs of 0xFF |
| `Comparators.BytewiseSuccessorIsShortest` | rocksdb-6.14.5-unmodified/util/comparator.cc:84-97 | no key from the given one on is shorter than the successor |
| `Comparators.ReverseSeparatorBetween` | rocksdb-6.14.5-unmodified/util/comparator.cc:147-192 | the same as for the bytewise separator, in the reverse order |
| `Comparators.ReverseSeparatorIsShortest` | rocksdb-6.14.5-unmodified/util/comparator.cc:147-192 | nothing shorter would do if and only if limit is not a prefix of start that is shorter by two or more |
| `Comparators.InternalSeparatorBetween` | rocksdb-6.14.5-unmodified/db/dbformat.cc:130-147 | for any comparator that keeps its promise the shortened internal key is not longer, below limit, and either start itself or strictly above it, as the asserts say |
| `Comparators.InternalSuccessorIsAbove` | rocksdb-6.14.5-unmodified/db/dbformat.cc:149-162 | the internal successor is not longer and either the key itself or strictly above it, for any user comparator |
| `Comparators.BytewiseInternalSeparator` | rocksdb-6.14.5-unmodified/db/dbformat.cc:130-147 | the two together for the bytewise comparator, without further conditions |
| `Comparators.ReverseInternalSeparator` | rocksdb-6.14.5-unmodified/db/dbformat.cc:130-147 | the two together for the reverse bytewise comparator |
| `KeyOrder.RankKeepsOrder` | rocksdb-6.14.5-unmodified/db/dbformat.cc:109-128 | finitely many user keys can be numbered in the order of any comparator |
| `KeyOrder.EncodedOrderIsBefore` | rocksdb-6.14.5-unmodified/db/dbformat.h:679-698 | the order of encoded internal keys is the one the iterator's specification uses, with user keys replaced by their numbers |
| `KeyOrder.RankedRunIsOrdered` | rocksdb-6.14.5-unmodified/db/dbformat.h:700-717 | a run of encoded entries, with its user keys replaced by their numbers, is ordered as the specification wants it if and only if the encoded run is strictly sorted by user key and sequence number |
| `KeyOrder.RankedSnapshotIsWellFormed` | rocksdb-6.14.5-unmodified/db/dbformat.h:700-717 | so every snapshot of a sorted encoded run is one that the results about the iterator apply to |
| `KeyOrder.SeeksLandAlike` | rocksdb-6.14.5-unmodified/db/db_iter.cc:1243-1313 | a seek in either direction among the numbered entries lands where the seek among the encoded entries does, for every valid target |

## Left out

Database iterator:

- User timestamps, the read callback, blob values, `iter_start_seqnum`, prefix mode, pinning, statistics, I/O errors,
  a missing merge operator, `max_skippable_internal_keys` and entry types other than the five modelled: they multiply
  the branches without changing the two searches. The bounds are always checked.
- The wrapped iterator is one sorted array in total order; merging iterators and block iterators are not part of this
  model. `Seek` on it is a linear search for the position the real one finds.
- Keys that the comparator calls equal are one key. The value read from an invalid forward position, which the source
  asserts away, is empty here.

SuperVersions:

- Teardown (`UnrefAndTryDelete`), the free queue of `avoid_unnecessary_blocking_io` and write-stall bookkeeping; the
  contents of a SuperVersion are its number.
- A thread keeps its slot for as long as the run lasts: exit empties the slot and the thread may go on. The first
  reader comes after the first install, as column families are created.

Clock cache:

- Memory orders: the atomic operations are sequentially consistent steps. A failed compare-and-swap is not a step.
- `Release(force_erase = true)`, which reads the key of a handle after giving up its reference, and `pinned_usage_`,
  for which the last reference reads the charge after giving itself up.
- In the interleaved model an insert may try any handle in any order, or give up; the order of the hand is in
  `ClockEviction`. An agent holds one reference at a time; a thread with several is several agents.

LRU cache:

- `hash & (length_ - 1)` is `hash % length` for a power of two. `high_pri_pool_capacity_` is a real number and not
  rounded.
- LruShards.LRUCacheShard.SetHighPriorityPoolRatio: the pool's capacity, the product of capacity and ratio, is not
  negative; by `LruShards.OverflowEnds` the loop with its assert has no way to end otherwise.
- LruTables.LRUHandleTable.Insert: an insertion that needs more buckets assumes that three times the entries are then
  at most 2^32; by `LruTables.GrowthEnds` the loop of `Resize` does not end otherwise. The shard's `Insert` assumes it
  only where nothing is evicted and the entry is not turned away.
- Handles that Insert, SetCapacity and EraseUnRefEntries evict are freed within the operation and not after the mutex
  has been released. The shard's mutex is not modelled; its operations are atomic.
- `ShardedCache` routing, the division of the capacity over shards, `ApplyToAllCacheEntries` and the getters: easy
  members.

SGX driver:

- ENCLS instructions, page tables, IPIs, mm notifiers, workqueues and shmem are arbitrary outcomes. Memory cgroups and
  the choice of the enclave to swap (`sgx_isolate_tgid_ctx`, `sgx_isolate_encl`) are an arbitrary choice.
- `sgx_alloc_page` fails here only when the free list is empty; its limit on the number of VA pages and pending signals
  are left out.
- Add-page requests are drained before EINIT, as the call of `flush_work` intends.
- EpcPaging.SafeAtEveryStep: which VA slot a page has is not part of the state; `VaSlots` and `VaRaces` have the
  slots.
- VmaAccess.Memory.Write: the checks of the enclave's flags and of a vma without an enclave come before it; which
  pages fault, which hold a TCS and which instructions fail is fixed for the call.

Internal keys:

- Timestamps in keys, `IterKey` and `LookupKey` buffers, write-batch parsing, `GetEntryType` and debug strings. Types
  and sequence numbers are numbers; shifts and masks are division and remainder by 256.
- The shortening of keys returns the shortened key; the source changes its string argument.

The C bindings, thin wrappers, file I/O, the error handler, option handling, build and container scripts and test
utilities of the repository are not part of this model.
