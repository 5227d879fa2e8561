# Verified model of the execution engine

The program runs DOS/4G x86 code through an ahead-of-time code cache, with a loader, an HLE layer and
a Glide backend around it. This project models the parts whose correctness spans many functions, and
proves what they are for.

- **Code cache coherence.** Guest code is translated into an append-only cache. Guest pages that hold
  translated code are write-watched; a guest write opens them, runs, closes them, and the overwritten
  pages are retired: their entries are closed with INT3, inline-cache guards into them are reset, and a
  later translation relinks the closed heads. `CodeCache.dfy` holds the cache as a value and its
  operations, `InlineCache.dfy`, `InlineCacheChains.dfy` and `SlotTurns.dfy` the compare chains that live in the
  cache bytes, `WriteWatch.dfy` the watches, and `CoherenceRuns.dfy` the theorems over whole runs.
  `Placement.dfy` and `WriteWatchSet.dfy` are the mutable objects, with the loops of the source, proved
  against those values; `CacheAddressIndex.dfy`, `SiteIndexes.dfy`, `GateFixups.dfy`, `PageRecords.dfy`
  and `InactiveRecords.dfy` are the redundant structures that have to agree with the address map.
- **Native regions.** `VerifiedRegion.dfy` is the recursive worklist analysis with its verdict cache,
  `VerifiedRuns.dfy` what a processor does with what it accepts, `LinearSpan.dfy` the span scan with its
  negative cache.
- **Host channel.** `HostChannel.dfy` is the queue and the slot between guest and host thread as
  interleaved steps, one per critical section, and the channel object itself.
- **LE loading.** `LeFixups.dfy` decodes the fixup tables (the "Fixup Page Table" and "Fixup Record
  Table" sections of IBM's "LX - Linear eXecutable Module Format Description"), `LeRelocation.dfy`
  applies the records in place.
- **DOS paths and frame-buffer shadows.** `DosPath.dfy` and `LfbShadow.dfy`.

`Words.dfy` (32-bit words, little-endian bytes, pages, relative branches), `SortedTable.dfy` (sorted
vectors) and `HashChains.dfy` (bucket chains) carry the rest. `dafny verify dfyconfig.toml` checks
everything.

## How the model reads the source

- Protection changes, which the host may refuse, are parameters of the operations, so the theorems hold
  whatever the host answers. A change over a range of pages is made for all of them or for none, and reports the
  protection of the first. A guest store runs where the page protections let it; on pages that Begin opened it stays
  inside the ranges Begin recorded.
- The emitter's guarantees are the predicate `CodeCaches.LaidOut`: entries sorted by offset and disjoint,
  windows of sites disjoint, guard and displacement windows clear of the first five bytes of every entry,
  immediates clear of the first byte. An image has one entry per guest address. The cache is at most
  0x7FFF0000 bytes long, so every branch inside it is a rel32.
- Entries of the first image have non-empty guest ranges that do not wrap; for appended ones this follows
  from the activation rules.
- A run remembers for every entry the guest ranges that were excluded when it was translated. Coherence is about active
  entries none of whose bytes lies in such a range.
- The caller around a completed write is part of the model: it notes the written range, retires the pages
  with overwritten code, and releases the watches nobody needs. A failed Begin, retirement or publication
  is terminal there, so runs do not continue after one.
- The decoder is a parameter: for the region analysis a function from addresses of unchanged code, for the
  span scan a function of fifteen bytes that does not look behind the instruction it finds.
- A site without entries in the source is the site of its one slot here.
- The bit mask of the hash is the remainder by the power of two it stands for.
- Executable files are shorter than 2^32 bytes.
- A surface drawn upright is what a readback in the same encoding returns, and a buffer swap exchanges the
  two colour buffers, as the header of the shadow declares. A posted swap that is overtaken is a swap gate without
  a swap and a late swap after it.

## Where the code does not do what its comments or design say

Each point has a concrete run or input in the project and, beside it, the exact condition.

- A guest write in progress whose ranges span the whole address space is recorded with size 0
  (`WriteWatches.WholeSpaceIsForgotten`), and a later fault can then hide it
  (`ForgottenWrites.WholeSpaceRunGoesStale`). The completion covers every Begin exactly when the hull is
  not the whole space (`WriteWatches.CompletionCoversEveryBegin`).
- A host write opens all pages of its range and gives them all the protection of the first one. When it runs from
  an open page into a watched one, the watched page stays open, and active code on it can go stale unseen
  (`ForgottenWrites.HostWriteRunGoesStale`). It keeps the watches in order exactly when its watched pages were
  protected like its first one (`WriteWatches.ReprotectKeepsOk`, `CoherenceRuns.WatchesStayInOrder` for whole runs),
  and coherence exactly when besides an unnoted write changes no active code (`CoherenceRuns.HostStoreKeepsCoherent`).
- The watch-release loop never ends when its last page is the topmost one (`GuestWrites.ReleaseLoopEnds`).
- The target immediate of a short inline-cache compare, of a register or of memory without a displacement, lies
  inside the five bytes that relinking rewrites, so patching the site of a relinked entry can misdirect its jump
  (`NarrowSites.UnsparedRunMisdirects`). It does not exactly when the target meets `CodeCaches.Spared`: each
  inactive head under the immediate traps, or is still a jump to a safe entry with the target written into it
  (`Patching.PatchKeepsHeads` for one patch, `CoherenceRuns.HeadsStaySafe` for whole runs).
- A target held behind a reset slot is patched again and again without ever hitting
  (`InlineCacheChains.OneRetirementShadows`; `PatchThenHit`, `ShadowedTargetNeverHits` and `RetirementShadows` say when).
- A patch out of rel32 range has already rewritten the immediate, so transfers can run the code of another target
  (`InlineCacheChains.OutOfRangePatchGoesStray`); `InlineCacheChains.OutOfRangePatch` says exactly when it does no
  harm, `CoherenceRuns.ChainsStaySound` for whole runs.
- A completed invocation does not prove that every command posted before it has run: looking at the queue and
  reading the slot are separate, and the look at the depth takes no mutex, so even a command pushed before the look
  can be overtaken (`HostChannels.InvocationOvertakesPost`). It proves it exactly when no post was counted between
  the last look that found the queue empty and the end of the invocation (`HostChannels.FinishedSlotProvesOrder`).
- A posted swap that throws never comes off the count of outstanding swaps, so a guest that posts another one waits
  until the host stops pumping (`HostChannels.ThrowingSwapDooms`, `DoomedStaysBlocked`); in every other case the host
  frees a blocked guest (`HostChannels.HostFreesGuestUnlessDoomed`).
- A directory whose first component starts with a colon prints as text that is taken for a drive
  (`DosPaths.PrintedRoundTrip`), and behind a bare drive a separator changes where a path leads
  (`DosPaths.ResolvesInStepsUnlessBareDrive`).
- An unlock of the front buffer draws on the back buffer and swaps, which leaves the old front in the back buffer and
  its copy behind (`LfbShadows.FrontUnlockLeavesBackBehind`). A swap gate that is entered again while its swap is
  waited out turns the copies once more (`LfbShadows.ReenteredSwapTurnsCopies`), and until a late swap comes they are
  turned too early. `LfbShadows.StepKeepsFaithful` says exactly for which contents, `FaithfulWhateverIsShown` for which
  copies, and `CopiesStayFaithful` over whole runs.
- A lock of the front buffer is seeded from the back buffer, so reusing the front copy loads other pixels
  (`LfbShadows.FrontLockReusesAnotherSeed`), and only then (`LfbShadows.ReuseIsTheSeedForBackLocksOnly`).

## Model

| member | source | states |
|---|---|---|
| CoherenceRuns.RunsNeverExecuteStaleCode | src/engine/aot_page_coherence.cpp:841-971 | In every state with no write in progress, of every run of appends, patches of any kind, retirements, guest stores where the page protections let them run, host writes and completions, each active entry none of whose guest bytes lies in a range excluded when it was translated was translated from the bytes now in memory, and its bytes lie on execute-read pages; provided no completed write spanned the whole address space and every host write left its watched pages, and active code it did not note, as they were |
| CoherenceRuns.RunsStayCoherent | src/engine/aot/aot_runtime_dispatch.cpp:898-940 | Every state reached by careful steps is coherent |
| CoherenceRuns.WatchesStayInOrder | src/engine/execution/execution_trampoline.cpp:5851-5877 | In a run the watch set agrees with the page protections in all states up to any point if and only if every host write before it leaves its watched pages with the protection they had, that is, unless its first page was protected otherwise or the restoration was refused |
| CoherenceRuns.StepKeepsCoherent | src/engine/aot_page_coherence.cpp:615-743 | A careful step keeps coherence: layout, activation discipline, watches, and source bytes up to the write in progress; and every step but a completion keeps it only if it is careful |
| CoherenceRuns.StepKeepsWatches | src/engine/aot_page_coherence.cpp:745-971 | From a watch set in order a step leads to one in order if and only if it is no host write, or one that leaves its watched pages as they were |
| CoherenceRuns.StepKeepsOrdered | src/engine/aot_page_coherence.cpp:615-743 | Each single step without exception keeps layout and activation discipline; the quarantined set only grows |
| CoherenceRuns.StepKeepsTagged | src/engine/aot_page_coherence.cpp:435-449 | No step breaks the agreement that an entry is marked as tracking exactly when none of its guest bytes lies in a range excluded when it was translated |
| CoherenceRuns.StartIsCoherent | src/engine/aot_page_coherence.cpp:362-390 | The placement of the first image, every entry active and every touched page watched, is coherent, with safe heads and sound chains |
| CoherenceRuns.AppendKeepsCoherent | src/engine/aot_code_cache.cpp:1425-1519 | Installing the watches before publishing keeps every new active entry fresh and guarded, and disturbs no old one |
| CoherenceRuns.AppendedIsLive | src/engine/aot_code_cache.cpp:1425-1453 | An appended entry is active and tracking if and only if its bytes lie on no quarantined page and on a retired one only if that is the requested page or the entry is the requested one, and none of its bytes is excluded |
| CoherenceRuns.StoreKeepsCoherent | src/engine/aot_page_coherence.cpp:841-938 | A guest store that the page protections let run reaches a byte of an active entry only inside the ranges that Begin recorded |
| CoherenceRuns.CompleteKeepsCoherent | src/engine/aot/aot_runtime_dispatch.cpp:912-930 | After a completion and the retirement of the overwritten pages every remaining active entry is fresh and still guarded although unneeded watches were released |
| CoherenceRuns.HostStoreKeepsCoherent | src/engine/execution/execution_trampoline.cpp:5834-5893 | A host write, noted or not, keeps coherence if and only if it leaves its watched pages as they were and, where it is not noted, changes no byte of an active entry |
| CoherenceRuns.HeadsStaySafe | src/engine/aot_code_cache.cpp:1941-2162 | In a run the inactive heads are safe in all states up to any point if and only if every patch before it spares the heads its immediate overlaps: they trap, or with the target written into them are still a jump to a safe entry |
| CoherenceRuns.StepKeepsHeads | src/engine/aot_code_cache.cpp:2124-2125 | From safe heads a step leads to safe heads if and only if it is not a patch, or one that spares the heads it overlaps |
| CoherenceRuns.InactiveCodeNeverRuns | src/engine/aot_code_cache.cpp:1609-1659 | In every state reached while patches spare the heads they overlap, the first byte of an inactive entry is INT3, or a jump whose displacement lands in one hop on an entry for the same guest address that is active or starts with INT3 |
| CoherenceRuns.ActivationDiscipline | src/engine/aot_page_coherence.cpp:398-433 | In every state of every run, without any proviso, no active entry without excluded bytes starts on a retired page or has a byte on a quarantined one |
| CoherenceRuns.QuarantineIsPermanent | src/engine/aot_page_coherence.cpp:660-671 | A page once quarantined stays so for the rest of every run, without any proviso, and no byte of it ever again belongs to an active entry without excluded bytes |
| CoherenceRuns.ChainsStaySound | src/engine/aot_code_cache.cpp:2124-2138 | In a run all compare chains that relinking cannot reach are sound in all states up to any point if and only if every patch before it is in rel32 range or its early return is harmless |
| CoherenceRuns.LiveTransfersReachTheirPatch | src/engine/aot_code_cache.cpp:1941-2162 | In every such state a transfer through a site in the code of an active entry ends at its guard target or at the address patched last for that target |
| CoherenceRuns.TransfersReachTheirPatch | src/engine/aot_code_cache.cpp:1941-2162 | The same for every site no immediate of which lies on a head that an inactive entry jumps with |
| ForgottenWrites.WholeSpaceRunGoesStale | src/engine/aot_page_coherence.cpp:882-903 | A concrete run, three write faults and one store, that ends quietly with a stale active entry: the 32-bit size of the recorded range wrapped to zero |
| ForgottenWrites.HostWriteRunGoesStale | src/engine/execution/execution_trampoline.cpp:5851-5877 | A concrete run, one host write over a page boundary and one guest store, that ends quietly with a stale active entry: the watched second page was left with the protection of the first, and watching it again does not close it |
| GuestWrites.NoteClears | src/engine/execution/execution_trampoline.cpp:3709-3848 | Noting a written range leaves no active byte-tracking entry over any byte of it, only deactivates entries, and keeps safe heads safe and sound chains sound |
| GuestWrites.NotePagesIdle | src/engine/execution/execution_trampoline.cpp:3729-3744 | Noting a range without active code changes nothing |
| GuestWrites.NoteSparesTheRest | src/engine/execution/execution_trampoline.cpp:3709-3848 | Noting a write makes no page retired or quarantined on which no byte of active code was written, and changes the state of no entry that touches no such page |
| GuestWrites.NoteSucceeds | src/engine/execution/execution_trampoline.cpp:3709-3748 | Where the host allows the protection changes, noting a write succeeds if and only if the range ends inside the 32-bit space; one that does not changes nothing |
| GuestWrites.ReleaseKeeps | src/engine/aot/aot_runtime_dispatch.cpp:867-895 | Releasing watches after a write never releases a page that active code, a retirement or a quarantine still needs |
| GuestWrites.ReleasesExactly | src/engine/aot/aot_runtime_dispatch.cpp:867-895 | After a write exactly the watches of the range are given up whose page is not retired, not quarantined and holds no byte of active code; their pages are opened unless the host refuses, and nothing else changes |
| GuestWrites.ReleaseLoopEnds | src/engine/aot/aot_runtime_dispatch.cpp:867-895 | The release loop over a page range ends if and only if its last page is not the topmost page of the address space |
| WriteWatches.BeginKeepsOk | src/engine/aot_page_coherence.cpp:841-938 | A successful Begin leaves open for writing exactly the pages open before and the watched pages of the decoded range, each listed once; a failed one changes nothing or forgets the pending write |
| WriteWatches.FailedBeginClosesAll | src/engine/aot_page_coherence.cpp:905-934 | A Begin that fails half-way and resets leaves no page open if and only if the host lets every opened page be closed |
| WriteWatches.OpensExactly | src/engine/aot_page_coherence.cpp:905-936 | The page loop opens the watched pages of the range once each and never more than sixteen in all |
| WriteWatches.FailsOnlyForAReason | src/engine/aot_page_coherence.cpp:911-934 | Opening fails only with sixteen pages open or at a watched page of the range that the host refuses to open |
| WriteWatches.CompleteKeepsOk | src/engine/aot_page_coherence.cpp:940-971 | Complete closes all pending pages and reports the recorded write, or reports nothing and stays pending |
| WriteWatches.InstallKeepsOk | src/engine/aot_page_coherence.cpp:745-774 | Installing watches never touches the pending write; if it succeeds every requested page is watched |
| WriteWatches.InstallsExactly | src/engine/aot_page_coherence.cpp:285-314 | Installing watches succeeds if and only if every page is watched, or mapped and execute-read already or not refused |
| WriteWatches.RestoreGivesBack | src/engine/aot_page_coherence.cpp:776-795 | Whatever happened in between, giving all watches up gives every watched page the protection it had before its first watch, and leaves all other pages alone |
| WriteWatches.RemoveKeepsOk | src/engine/aot_page_coherence.cpp:810-833 | Removing a watch keeps the watch set in order as long as its page is not pending |
| WriteWatches.ReprotectKeepsOk | src/engine/execution/execution_trampoline.cpp:5851-5877 | Giving one protection to all pages of a range keeps the watch set in order if and only if every watched page of the range had that protection |
| WriteWatches.CompletionCoversEveryBegin | src/engine/aot_page_coherence.cpp:872-903 | The range a completion reports covers every Begin since the first if and only if the hull of their ranges is not the whole 32-bit space |
| WriteWatches.Range | src/engine/aot_page_coherence.cpp:854-870 | A fault is taken to write its operand, or the whole 4096-byte page it lies on |
| WriteWatches.CompletionRemembersFaults | src/engine/aot_page_coherence.cpp:872-903 | A completion reports whether the first fault came from the guest, single-stepping if any fault asked to keep it, and the first source that was not zero |
| WriteWatches.RecordedHull | src/engine/aot_page_coherence.cpp:882-903 | The recorded range is the hull of all begun ranges, whatever their order and number |
| WriteWatches.WholeSpaceIsForgotten | src/engine/aot_page_coherence.cpp:891-896 | Two whole-page faults, on the first and on the last page, are reported as an empty range |
| WriteWatchSets.WriteWatchSet.Begin | src/engine/aot_page_coherence.cpp:841-938 | The in-place Begin over the sorted watch vector and the fixed page array computes the specified new state |
| WriteWatchSets.WriteWatchSet.Complete | src/engine/aot_page_coherence.cpp:940-971 | The in-place Complete computes the specified new state and report |
| WriteWatchSets.WriteWatchSet.OpenRange | src/engine/aot_page_coherence.cpp:905-936 | The page loop refines the specified opening of pages, including where it stops |
| WriteWatchSets.WriteWatchSet.EnsureWatch | src/engine/aot_page_coherence.cpp:285-314 | Watching one page maps, protects and inserts as specified, with the original protection remembered |
| WriteWatchSets.WriteWatchSet.InstallPages | src/engine/aot_page_coherence.cpp:745-774 | The installation loop refines the specified sequence of watches, stopping at the first failure |
| WriteWatchSets.WriteWatchSet.RemoveWatch | src/engine/aot_page_coherence.cpp:810-833 | Removing a watch erases its row and opens its page |
| WriteWatchSets.WriteWatchSet.RestoreAll | src/engine/aot_page_coherence.cpp:776-795 | The loop over the rows computes the specified restoration |
| WriteWatchSets.WriteWatchSet.ClosePages | src/engine/aot_page_coherence.cpp:341-353 | Every pending page is asked back to execute-read, and the answer is whether none was refused |
| WriteWatchSets.AsMapStore | src/engine/aot_page_coherence.cpp:275-313 | Inserting into the sorted vector is updating the map it stands for |
| Retirement.RetirementIsExact | src/engine/aot_page_coherence.cpp:615-743 | A retirement succeeds if and only if some byte-tracking entry is registered on the page and, where active code lies there, both protection changes succeed; then it deactivates exactly the active byte-tracking entries on the page and marks exactly that page |
| Retirement.RetirementKeepsSound | src/engine/aot_page_coherence.cpp:615-743 | Retirement, successful or not, keeps layout and activation discipline |
| Retirement.RetirementKeepsHeads | src/engine/aot_page_coherence.cpp:683-711 | Retirement, successful or not, keeps inactive heads safe, those it closes and those that forward to closed ones |
| Retirement.HeadAfterRetirement | src/engine/aot_page_coherence.cpp:683-711 | A selected entry starts with INT3 afterwards, every other head is untouched, in spite of the guard resets |
| Retirement.RetirementKeepsChains | src/engine/aot_page_coherence.cpp:216-273 | Resetting guards keeps each compare chain sound, and no learned slot targets the page any more |
| Retirement.ResetSitesView | src/engine/aot_page_coherence.cpp:216-273 | After the loops over all sites exactly the learned slots with a target on the page are in reset form |
| Translation.AppendKeepsSound | src/engine/aot_code_cache.cpp:1425-1696 | Appending a translation keeps layout and activation discipline, including the exception for the requested entry |
| Translation.AppendKeepsHeads | src/engine/aot_code_cache.cpp:1609-1659 | Appending a translation keeps inactive heads safe, relinked or not, and leaves those of the image safe |
| Translation.AppendedStates | src/engine/aot_code_cache.cpp:1425-1453 | An appended entry is active exactly when it may run, and tracks its bytes exactly when none is excluded, said byte by byte |
| Translation.RevivedPage | src/engine/aot_page_coherence.cpp:451-493 | The requested page stops counting as retired if and only if an entry of the image on it may run and has no excluded byte; no other page does |
| Translation.StaleHeadForwards | src/engine/aot_code_cache.cpp:1609-1659 | The head of an inactive entry of at least five bytes becomes a jump that lands on the new entry for its address, if that may run |
| Translation.LiveCodeIsPlaced | src/engine/aot_code_cache.cpp:1609-1722 | Every emitted byte of a new entry that may run is in the cache as it was emitted |
| Translation.LiveCodeStays | src/engine/aot_code_cache.cpp:1609-1659 | No emitted byte of an old active entry changes |
| Translation.UnrelinkedIsOk | src/engine/aot_code_cache.cpp:1609-1659 | An inactive entry that is not relinked still forwards in one hop, because its target is not relinked either |
| Translation.LaidOutAbove | src/engine/aot_code_cache.cpp:1674-1722 | Code appended above the old bytes shares no window and no head with them |
| Relinking.RelinkOneMore | src/engine/aot_code_cache.cpp:1621-1658 | Rewriting one stale head leaves the jumps of all other heads and every byte outside the heads |
| Relinking.RelinkedAll | src/engine/aot_code_cache.cpp:1609-1659 | Once all stale entries with a fresh one have been visited the old bytes are relinked and otherwise unchanged |
| InlineCacheChains.WalkIsSound | src/engine/aot_code_cache.cpp:2021-2036 | Executing a sound compare chain for a target ends at the guard target or at the address last patched for it |
| InlineCacheChains.HistoryKeepsChain | src/engine/aot_code_cache.cpp:1941-2162 | Any mix of patches, page retirements and foreign writes keeps a chain sound, with no two learned slots for one target; without retirements the learned slots form a prefix |
| InlineCacheChains.TransfersNeverGoStray | src/engine/aot_code_cache.cpp:1941-2162 | From emission through any history a transfer reaches the guard target or its last patched address |
| InlineCacheChains.PatchThenHit | src/engine/aot_code_cache.cpp:2040-2098 | The transfer right after a patch hits if and only if its target was not held behind a slot in reset form |
| InlineCacheChains.UnretiredPatchHits | src/engine/aot_code_cache.cpp:1941-2162 | As long as no page was retired a patched target hits at once |
| SlotTurns.NewTargetsAllHit | src/engine/aot_code_cache.cpp:2040-2078 | From a site with all slots learned, or with the reset ones last and the cursor at zero, at most as many new targets as there are slots, patched one after the other, all hit at their addresses |
| SlotTurns.NewTargetsAllHitInCache | src/engine/aot_code_cache.cpp:2040-2098 | The same in the cache, where the cursor is kept with the site from one patch to the next |
| SlotTurns.TargetsTakeTurns | src/engine/aot_code_cache.cpp:2073-2078 | They take the slots in turn from the next one on, with wrap-around, and the other slots keep what they held |
| SlotTurns.FreshInTurn | src/engine/aot_code_cache.cpp:1701-1722 | A site as it is emitted, with its cursor at zero, is such a site |
| InlineCacheChains.ShadowedTargetNeverHits | src/engine/aot_code_cache.cpp:2045-2072 | A shadowed target misses however often it is patched again, because the patcher keeps refreshing the shadowed slot |
| InlineCacheChains.RetirementShadows | src/engine/aot_page_coherence.cpp:216-273 | Retiring the page of an earlier slot's target shadows every later target on another page |
| InlineCacheChains.OneRetirementShadows | src/engine/aot_code_cache.cpp:2045-2072 | A concrete two-slot site: its second target hits, and after one retirement of the page of the first it misses however often it is patched again |
| InlineCacheChains.OutOfRangePatch | src/engine/aot_code_cache.cpp:2124-2138 | A patch out of rel32 range has rewritten the immediate before it returns; the chain is still sound if and only if the slot was in reset form, already held the target, or hits its address anyway |
| InlineCacheChains.OutOfRangePatchGoesStray | src/engine/aot_code_cache.cpp:2124-2138 | A concrete chain in a high cache: after a refused patch of another target to a low address, transfers to that target run the code of the target learned before |
| InlineCacheChains.PatchKeepsChain | src/engine/aot_code_cache.cpp:2040-2162 | A patch moves its target to the new address and to no second slot |
| InlineCaches.WrittenView | src/engine/aot_code_cache.cpp:2124-2147 | Read back from the bytes, a patched slot is learned, holds the target, jumps to its address and misses to what follows it |
| InlineCaches.WriteViews | src/engine/aot_code_cache.cpp:2124-2147 | Patching one slot leaves what every other slot of the site does |
| InlineCaches.InRangeIsExact | src/engine/aot_code_cache.cpp:2124-2138 | A patch is in rel32 range if and only if its displacement, read as a signed number, is the distance to the target itself |
| InlineCaches.ResetSlotsView | src/engine/aot_page_coherence.cpp:216-273 | After the slot loop exactly the learned slots on the page jump to the guard target |
| Patching.PatchKeepsSound | src/engine/aot_code_cache.cpp:1941-2162 | A patch, written or not, keeps layout and activation discipline |
| Patching.PatchKeepsHeads | src/engine/aot_code_cache.cpp:2124-2125 | A patch keeps inactive heads safe if and only if nothing is written or each inactive head that its immediate overlaps traps, or with the target written into it is still a jump to a safe entry |
| Patching.PatchedHead | src/engine/aot_code_cache.cpp:2124-2147 | Of the three writes of a patch only the immediate reaches into the head of an entry |
| Patching.PatchKeepsChains | src/engine/aot_code_cache.cpp:1941-2162 | A patch leaves every chain sound if and only if it is in range, writes nothing, belongs to a site that relinking reaches, or returns early without harm; a patch that went through is recorded at its own site |
| Patching.RetirementKeepsAllChains | src/engine/aot_page_coherence.cpp:216-273 | Retirement keeps the chain of every site |
| SitePlacement.AppendKeepsChains | src/engine/aot_code_cache.cpp:1701-1722 | An append keeps every old chain and each new site starts as a fresh one |
| NarrowSites.UnsparedRunMisdirects | src/engine/aot_code_cache.cpp:2124-2125 | A concrete run from the first placement: a page is retired, its code translated again so that the closed head is relinked, and the old site patched with a target that does not spare the jump; an inactive head is unsafe then |
| NarrowSites.UnsparedPatchMisdirects | src/engine/aot_code_cache.cpp:2124-2125 | The last step of that run, for any address patched |
| Placements.Placement.constructor | src/engine/aot_page_coherence.cpp:362-390 | The initial placement is valid and stands for the image with every entry active and byte-tracking |
| Placements.Placement.Initialize | src/engine/aot_page_coherence.cpp:362-390 | Re-registering the whole map makes all records exact and the index fresh |
| Placements.Placement.Register | src/engine/aot_page_coherence.cpp:451-493 | Registering the next entry keeps page records, inactive records and index exact, and makes only the requested page live again |
| Placements.Placement.RegisterPages | src/engine/aot_page_coherence.cpp:115-152 | The page loop lists the entry on exactly the pages it touches, up to and including the topmost page |
| Placements.Placement.RecordInactive | src/engine/aot_page_coherence.cpp:84-99 | Recording an inactive entry adds it to all four inactive structures |
| Placements.Placement.CanActivate | src/engine/aot_page_coherence.cpp:398-433 | The loop decides whether no touched page is quarantined and none but the requested one is retired |
| Placements.Placement.SpansQuarantinedPage | src/engine/aot_code_cache.cpp:854-883 | The loop decides whether the entry is empty, wraps, or touches a quarantined page |
| Placements.Placement.TracksGuestBytes | src/engine/aot_page_coherence.cpp:435-449 | The loop decides whether no guest byte of the entry lies in an excluded range |
| Placements.Placement.RangeHasActiveTranslation | src/engine/aot_page_coherence.cpp:495-545 | True if and only if some active byte-tracking entry overlaps the range, for every range including one that ends at 2^32 |
| Placements.Placement.Retire | src/engine/aot_page_coherence.cpp:615-743 | The in-place retirement over page records, bytes and states has exactly the specified result and keeps the placement valid |
| Placements.Placement.ResetGuards | src/engine/aot_page_coherence.cpp:216-273 | The nested loops over sites and slots rewrite the bytes as specified |
| Placements.Placement.Deactivate | src/engine/aot_page_coherence.cpp:705-711 | Deactivating the selected entries one by one keeps all records exact |
| Placements.Placement.NoteWrite | src/engine/execution/execution_trampoline.cpp:3709-3848 | The driver that retires the pages of a write has exactly the specified result, also where it stops |
| Placements.Placement.Patch | src/engine/aot_code_cache.cpp:1941-2162 | The patch of the first site the miss address names rewrites that site's chosen slot as specified and keeps the placement valid whatever the protection changes answer; safe heads stay safe if and only if nothing is written or the target spares them |
| Placements.Placement.ChooseSlot | src/engine/aot_code_cache.cpp:2040-2098 | The two scans and the cursor choose the specified slot |
| Placements.Placement.PrepareImage | src/engine/aot_code_cache.cpp:1425-1493 | The loop over the image decides activity, closes the heads that stay inactive and lists exactly the pages to watch |
| Placements.Placement.Relink | src/engine/aot_code_cache.cpp:1609-1659 | The nested loops relink the inactive entries of every freshly translated address and change nothing else |
| Placements.Placement.Append | src/engine/aot_code_cache.cpp:1418-1860 | The append has exactly one of its outcomes, each under its exact condition; a successful one is the specified append and leaves the placement valid |
| Placements.Placement.LookupsAreUsable | src/engine/aot_cache_address_index.cpp:167-219 | In every valid placement the index is fresh, the sorted flag holds and both lookups may use their fast path |
| Placements.Placement.FindCacheAddress | src/engine/aot_code_cache.cpp:2225-2307 | Indexed or scanned, the answer is an active entry for the address, one is found whenever there is one, and it is the newest active entry if the address was ever retired, else the oldest |
| Placements.Placement.FindGuestAddress | src/engine/aot_code_cache.cpp:2183-2223 | Indexed or scanned, the answer is the guest address of the first entry in map order that covers the cache address |
| Placements.Placement.IsCacheAddressRetired | src/engine/aot_page_coherence.cpp:599-613 | True if and only if an inactive entry starts at the cache address |
| PageRecords.RecordIsExact | src/engine/aot_page_coherence.cpp:115-152 | A page record lists exactly the byte-tracking entries that touch the page, and exists if and only if there are any |
| PageRecords.RegisterOn | src/engine/aot_page_coherence.cpp:133-151 | Listing an entry on one more page moves the registration frontier past that page only |
| PageRecords.SelectedAreActive | src/engine/aot_page_coherence.cpp:642-659 | The active entries of a record, in its order, are those a retirement selects |
| InactiveRecords.NotedHolds | src/engine/aot_page_coherence.cpp:84-99 | Recording one more entry keeps the four inactive structures in agreement |
| CacheAddressIndexes.CacheAddressIndex.Lookup | src/engine/aot_cache_address_index.cpp:221-277 | The chain walk, whose visit bound never cuts a chain short, finds the newest active or the oldest entry exactly as a scan would; a stale index answers nothing |
| CacheAddressIndexes.CacheAddressIndex.LookupGuest | src/engine/aot_cache_address_index.cpp:167-219 | Binary search and bounded walk-back find the lowest covering entry, even with overlapping ranges |
| CacheAddressIndexes.CacheAddressIndex.Append | src/engine/aot_cache_address_index.cpp:123-165 | Linking one more entry keeps the index exact, and falls back to a rebuild or an invalidation otherwise |
| CacheAddressIndexes.CacheAddressIndex.RebuildAll | src/engine/aot_cache_address_index.cpp:71-96 | A rebuild threads every entry newest-first and observes the offset order |
| CacheAddressIndexes.CacheAddressIndex.ObserveOrder | src/engine/aot_cache_address_index.cpp:54-67 | The sorted flag means that the offsets seen so far are sorted, and the maximum bounds every length |
| HashChains.LinkOne | src/engine/aot_cache_address_index.cpp:32-44 | Linking a key in front of its bucket keeps every chain threaded newest-first |
| HashChains.LinkedPrefix | src/engine/aot_cache_address_index.cpp:123-165 | Chains threaded over a prefix stay threaded when the list grows |
| HashChains.Rebuild | src/engine/aot_cache_address_index.cpp:71-96 | Threading all keys from oldest to newest gives complete chains |
| HashChains.RoundUpToPowerOfTwo | src/engine/aot_cache_address_index.cpp:22-30 | The bucket count is a power of two that reaches the element count up to its maximum |
| SiteIndexes.InlineCacheSiteIndex.Lookup | src/engine/aot_inline_cache_site_index.cpp:129-157 | Probing both keys, with the wrap at zero, finds the first site a scan would name |
| SiteIndexes.InlineCacheSiteIndex.CollectLowest | src/engine/aot_inline_cache_site_index.cpp:34-64 | The chain walk keeps the lowest matching index over both probes |
| SiteIndexes.InlineCacheSiteIndex.Select | src/engine/aot_code_cache.cpp:1971-2000 | Index and fallback scan together always select the first named site |
| SiteIndexes.ReturnDispatchSiteIndex.Lookup | src/engine/aot_return_dispatch_site_index.cpp:92-129 | The chain walk finds the first site with the key |
| SiteIndexes.LowestIsFirst | src/engine/aot_inline_cache_site_index.cpp:129-157 | The lowest index over the two keys is the first site in list order that the miss address names |
| SortedTable.Find | src/engine/aot_page_coherence.cpp:23-43 | A lower-bound search finds what a front-to-back scan of the sorted vector finds |
| SortedTable.Store | src/engine/aot_page_coherence.cpp:45-57 | Inserting at the lower bound keeps the vector sorted and changes only what is found under the key |
| SortedTable.Erase | src/engine/aot_page_coherence.cpp:822-832 | Erasing keeps the vector sorted and changes only what is found under the key |
| GateFixups.GateFixupIndex.Ensure | src/engine/aot_glide_gate_fixup_index.cpp:16-45 | Incremental or rebuilt, the index is the in-order filter of all fixups for every target |
| GateFixups.GateFixupIndex.Find | src/engine/aot_glide_gate_fixup_index.cpp:47-54 | The answer is the in-order filter, or none when it is empty |
| GateFixups.CollectedOffsets | src/engine/aot_glide_gate_fixup_index.cpp:9-45 | The filter for a target from the minimum on holds the offsets of its calls, jumps and fallthroughs, and no others |
| GateFixups.CollectWrites | src/engine/aot_glide_gate_fixup_index.cpp:56-96 | The loop collects the slots in reach that do not hold their displacement yet, in order |
| GateFixups.EverySlotReachesTheGate | src/engine/aot_glide_gate_fixup_index.cpp:56-96 | After the collected writes every listed slot in reach branches to the direct target, and without wrapping it does so as plain numbers |
| GateFixups.OutOfReachIsKept | src/engine/aot_glide_gate_fixup_index.cpp:56-96 | Without wrapping, a listed slot whose displacement would not be the distance to the target keeps what it held |
| VerifiedRegions.VerifyFunction | src/engine/verified_region_analyzer.cpp:110-223 | The recursive worklist analysis terminates, keeps earlier verdicts, accepts only functions it certifies with everything they call, and, from any cache and so from an empty one, accepts every function for which a call tree can be planned: bodies below the instruction limit, closed under control flow, each with a return reachable, heights that fall along every call to a function not accepted before and fit the depth that is left, and none of it rejected or in progress; then nothing it adds is a rejection |
| VerifiedRegions.Explore | src/engine/verified_region_analyzer.cpp:137-222 | The worklist of one function, callees verified as they are met: whatever it accepts is certified, and a planned function is accepted with all it calls |
| VerifiedRegions.Certify | src/engine/verified_region_analyzer.cpp:220-222 | A fully explored function with a return is certified on top of the functions finished before it |
| VerifiedRegions.FitsEnds | src/engine/verified_region_analyzer.cpp:137-222 | Exploring a body of fewer than 16384 harmless instructions, closed under control flow and with a return reachable, ends with nothing pending and a return found |
| VerifiedRegions.CalleeIsVerifiable | src/engine/verified_region_analyzer.cpp:195-206 | A callee of a function that can be verified was accepted before or can be verified one level deeper, whatever acceptances the cache has gained |
| VerifiedRegions.SafeMeans | src/engine/verified_region_analyzer.cpp:157-217 | The checks of the loop pass exactly the instructions that lie with their window in the arena, decode, are not sensitive and have any target in the arena, and what it pushes are exactly the addresses control can go to |
| VerifiedRegions.InsideMeans | src/engine/verified_region_analyzer.cpp:14-23 | The wrapping range check accepts exactly the ranges inside an arena that ends below 2^32 |
| VerifiedRuns.AcceptedRunsAreSafe | src/engine/verified_region_analyzer.cpp:110-223 | On unchanged code every state of every run from an accepted entry, through nested calls until the outermost return, is at an in-range, decodable, insensitive instruction, is not stuck, and nests less deep than the number of certified functions, so accepted functions never recurse |
| VerifiedRuns.StepKeepsFrames | src/engine/verified_region_analyzer.cpp:110-223 | Every step keeps the frames of active functions strictly decreasing in the order of completion |
| LinearSpans.Scan | src/engine/verified_region_analyzer.cpp:242-311 | The scan loop has exactly the specified verdict and span |
| LinearSpans.AcceptedExactly | src/engine/verified_region_analyzer.cpp:242-311 | A span is accepted, with this count and boundary, if and only if two to sixty-three instructions in a row, none sensitive, branching or explicitly writing memory, lead from the entry to a boundary that is one of those |
| LinearSpans.EarlyBoundaryIsRemembered | src/engine/verified_region_analyzer.cpp:296-305 | A boundary behind no or one instruction is rejected by the bytes up to its end, at most thirty |
| LinearSpans.RejectionIsStable | src/engine/verified_region_analyzer.cpp:296-305 | The bytes remembered of a rejection are enough to reject the entry again, whatever else in memory changes |
| LinearSpans.SameScan | src/engine/verified_region_analyzer.cpp:257-310 | A scan that ended at a boundary ends there for every memory with the same instruction bytes |
| LinearSpans.NativeFastPath.TryEnter | src/engine/native_linear_span.cpp:202-254 | Across any history of stores, code changes and evictions the outcome is that of a scan of the current bytes; on entry the borrowed registers are saved |
| LinearSpans.NativeFastPath.Consult | src/engine/native_linear_span.cpp:213-233 | Cached or scanned, the verdict on the entry is that of a scan of the current bytes |
| LinearSpans.NativeFastPath.Lookup | src/engine/native_linear_span.cpp:259-289 | A hit means the remembered bytes are still there; a stale snapshot is erased |
| LinearSpans.NativeFastPath.Store | src/engine/native_linear_span.cpp:291-322 | A rejection is remembered with its bytes within the capacity, and not otherwise |
| LinearSpans.NativeFastPath.Leave | src/engine/native_linear_span.cpp:120-148 | Leaving restores the saved registers and turns single-stepping on again |
| LinearSpans.NativeFastPath.RunSpan | src/engine/native_linear_span.cpp:120-254 | A span entered, run and left again gives back the three borrowed debug registers as they were before the entry, whatever the processor made of them in between |
| LinearSpans.BreakpointOn | src/engine/native_linear_span.cpp:236-250 | Slot zero is enabled and breaks on execution of one byte; no other bit of the control register changes |
| LinearSpans.Untrapped | src/engine/native_linear_span.cpp:236-250 | Only the trap flag is cleared |
| HostChannels.PostedRunInOrder | src/engine/glide_opengl_backend.cpp:221-255 | In every reached state what ran, what is being run and what is queued make up, in order, what was posted; queue and outstanding swaps keep their bounds, and outside a critical section the depth is exact and the swap count is that of the outstanding swaps and of those that threw |
| HostChannels.ReturnedInvokeRanOnce | src/engine/glide_opengl_backend.cpp:539-617 | When an invocation returns, the commands run through the slot are exactly those published, its own last, and the exception it rethrows is that of its own command, if any |
| HostChannels.PostWaitsForRoomOnly | src/engine/glide_opengl_backend.cpp:620-670 | A post goes through at once if and only if fewer than 64 posted commands wait to be taken and, for a swap, every swap posted before has run without throwing and been retired; otherwise it waits and nothing else changes |
| HostChannels.WaitsForRoomOnly | src/engine/glide_opengl_backend.cpp:620-670 | A guest that waits for room can go on if and only if there is that room |
| HostChannels.CountedBeforeLookRan | src/engine/glide_opengl_backend.cpp:762-806 | While the host is at the slot, the posted commands that have run are exactly those whose posts had been counted by the last look that found the queue empty |
| HostChannels.SlotFollowsLook | src/engine/glide_opengl_backend.cpp:762-806 | The host comes to the slot only after a look that found the queue empty, and runs nothing from the queue from then on |
| HostChannels.FinishedSlotProvesOrder | src/engine/glide_opengl_backend.cpp:598-600 | A finished invocation proves that everything posted has run if and only if no post was counted between the last look that found the queue empty and the end of the invocation |
| HostChannels.InvocationOvertakesPost | src/engine/glide_opengl_backend.cpp:235-253 | A concrete interleaving in which an invocation completes before a command that was pushed even before the host looked at the queue, but counted afterwards, has run |
| HostChannels.BlockedGuestLeavesHostAStep | src/engine/glide_opengl_backend.cpp:812-840 | A blocked guest always leaves the host an enabled step, and work to wake up for unless it is doomed |
| HostChannels.HostStepsComeCloser | src/engine/glide_opengl_backend.cpp:221-255 | Every host step brings a blocked guest closer to being freed unless it is doomed |
| HostChannels.HostFreesGuestUnlessDoomed | src/engine/glide_opengl_backend.cpp:671-688 | The host alone frees a guest within a bound computed from the state if and only if the guest is not doomed: it does not wait to post a swap while a posted swap has thrown or will |
| HostChannels.BlockedGuestIsFreed | src/engine/glide_opengl_backend.cpp:762-806 | Host steps alone free a guest that is not doomed within a bound computed from the state |
| HostChannels.DoomedStaysBlocked | src/engine/glide_opengl_backend.cpp:221-255 | A doomed guest is blocked, and no step of either thread ever changes that |
| HostChannels.ThrowingSwapDooms | src/engine/glide_opengl_backend.cpp:671-688 | Three steps doom the guest: it posts a swap that will throw, counts it, and posts another swap |
| HostChannels.StepKeepsSound | src/engine/glide_opengl_backend.cpp:221-255 | Every step of either thread keeps the channel invariant |
| HostChannels.HostChannel.Post | src/engine/glide_opengl_backend.cpp:620-670 | A post is queued and counted, refused when the host stopped, or has to wait, each under its exact condition |
| HostChannels.HostChannel.DrainAsyncCommands | src/engine/glide_opengl_backend.cpp:221-255 | Undisturbed, a drain runs all queued commands in post order, those that throw too, and retires every swap that does not throw |
| HostChannels.HostChannel.PumpHostCommands | src/engine/glide_opengl_backend.cpp:762-806 | Undisturbed, a pump runs what was posted and then what is waited on, whose exception it leaves for the guest |
| LeFixups.Analyze | src/exe/executable_headers.cpp:495-617 | Analysis succeeds if and only if the tables lie in the file in order and the page offsets are non-decreasing and inside the record table |
| LeFixups.Decode | src/exe/executable_headers.cpp:619-734 | Decoding succeeds if and only if some records tile the record table, each inside its page's span, with first offset 0 and last offset the table size; re-encoding the result gives back the table, and the result is unique |
| LeFixups.DecodeSpan | src/exe/executable_headers.cpp:643-718 | The record loop of one page decodes as specified and reads only inside the file |
| LeFixups.DecodedFits | src/exe/executable_headers.cpp:643-718 | Decoded records follow each other without gap or overlap and serialise to the table bytes |
| LeFixups.FittingIsDecoded | src/exe/executable_headers.cpp:643-718 | Any records that partition the table inside their page spans are what decoding yields |
| LeFixups.ParseThenEncode | src/exe/executable_headers.cpp:660-716 | Encoding a decoded record gives back its bytes |
| LeFixups.EncodeThenParse | src/exe/executable_headers.cpp:660-716 | Decoding an encoded record gives back the record |
| LeRelocations.RelocationIsIdempotent | src/exe/executable_headers.cpp:736-895 | Applying the records twice gives the same image and counts as once, even with overlapping sites |
| LeRelocations.ByteAfter | src/exe/executable_headers.cpp:66-74 | Each byte ends up as the last surviving write left it, or unchanged |
| LeRelocations.SiteIsWritten | src/exe/executable_headers.cpp:762-880 | A record is applied if and only if it is of kind seven, has a target object, its page belongs to an object and its signed offset from that page leaves four bytes there; it goes to the first such object and writes the base of the target object plus the target offset, in 32 bits |
| LeRelocations.SiteIsNotWritten | src/exe/executable_headers.cpp:762-880 | The other records: another kind is passed over, no target object or no place in 32 bits stops, and four bytes that do not fit are skipped, each if and only if |
| LeRelocations.RelocatedWord | src/exe/executable_headers.cpp:762-890 | After a successful relocation the four bytes at a record's source are its target's address, lowest byte first, unless a later record writes over them |
| LeRelocations.RelocationStaysInWindows | src/exe/executable_headers.cpp:856-888 | Only bytes inside the four-byte windows of applied records change, and no object changes its size |
| LeRelocations.EveryRecordCounts | src/exe/executable_headers.cpp:762-891 | On success applied plus skipped equals the number of records and skipped is unsupported plus out of range; it fails if and only if some record has a bad target or no owner |
| LeRelocations.EitherPageHitsTheSameBytes | src/exe/executable_headers.cpp:814-846 | Fixups on two pages of one object hit the same bytes if and only if their signed offsets differ by the distance of the pages |
| LeRelocations.LeImage.ApplyAll | src/exe/executable_headers.cpp:736-895 | The in-place loop has exactly the specified image and report, also when it stops |
| LeRelocations.LeImage.Locate | src/exe/executable_headers.cpp:762-880 | The checks of one record, field by field, find what it asks for |
| LeRelocations.LeImage.ApplyRecord | src/exe/executable_headers.cpp:762-890 | One record is applied, skipped or refused as specified |
| DosPaths.ResolveGuestPath | src/hle/dos_file_system.cpp:135-236 | The character loop with its component stack computes the specified resolution |
| DosPaths.BuildDosPath | src/hle/dos_file_system.cpp:54-68 | The loop prints each component behind a separator |
| DosPaths.PrintedRoundTrip | src/hle/dos_file_system.cpp:54-68 | A directory of well-formed components resolves to itself from every current directory if and only if its first component has no leading colon |
| DosPaths.PrintedResolves | src/hle/dos_file_system.cpp:135-236 | Without a leading colon the printed path resolves to its components from any directory |
| DosPaths.ColonIsTakenForADrive | src/hle/dos_file_system.cpp:170-179 | With a leading colon the printed path does not resolve to its components from the root |
| DosPaths.ResolvesInStepsUnlessBareDrive | src/hle/dos_file_system.cpp:135-236 | For a non-empty p, resolving p\q is resolving the relative, drive-less q from where p leads, for every q and every current directory, if and only if p is not a bare drive |
| DosPaths.ResolvesInSteps | src/hle/dos_file_system.cpp:135-236 | Unless p is a bare drive, resolving p\q is resolving q from where p leads, including every refusal |
| DosPaths.BareDriveForgetsTheDirectory | src/hle/dos_file_system.cpp:170-179 | For every bare drive p and every q the added separator makes the path absolute: it resolves as q does from the root, whatever the current directory |
| DosPaths.AcceptedNamesOnly | src/hle/dos_file_system.cpp:190-222 | An accepted path has only upper-case, non-empty components, none of them a dot or two dots |
| DosPaths.WalkInTwo | src/hle/dos_file_system.cpp:190-222 | Walking two texts with a separator between them is walking one after the other |
| DosPaths.DotDotIsTheParent | src/hle/dos_file_system.cpp:190-222 | Two dots behind a path lead to the parent of where it leads and are refused at the root; one dot leads nowhere else |
| DosPaths.ChildAndBack | src/hle/dos_file_system.cpp:190-222 | A plain name behind a path is one component more, in upper case, and two dots behind it lead back to where the path leads, refusals included |
| DosPaths.AlikePathsResolveAlike | src/hle/dos_file_system.cpp:135-236 | Paths that differ only in the case of ASCII letters and the slant of separators resolve alike from every directory |
| LfbShadows.ReusedLockLoadsTheBuffer | src/engine/glide_lfb_staging_shadow.cpp:338-362 | After any sequence of gates, target changes and unlocks in which the copies follow the buffers, a reusable copy is what a readback of its buffer gives |
| LfbShadows.CopiesStayFaithful | src/engine/boundary/linexe_glide_boundary.cpp:3697-3743 | Over any sequence both copies are faithful in all states up to any point if and only if they follow the buffers: each drawn unlock of the front buffer finds a back copy that also fits the old front, and each swap gate without a swap, or swap that comes late, finds copies that fit either buffer |
| LfbShadows.StepKeepsFaithful | src/engine/glide_opengl_backend.cpp:2503-2686 | From faithful copies a single step leads to faithful copies if and only if the copies follow the buffers; a presented surface is drawn on the back buffer and, for the front buffer, the two are exchanged |
| LfbShadows.DropsOnlyWhatMayChange | src/engine/glide_lfb_staging_shadow.cpp:74-162 | A gate drops a valid copy if and only if it may change the buffer, drawing and clearing the one rendered to and a region or unknown gate both; a swap drops none and hands each to the other buffer |
| LfbShadows.StoredIsReusable | src/engine/glide_lfb_staging_shadow.cpp:259-302 | A stored surface can be reused under its encoding if and only if its size is not zero, fits the limit and the pixels given, and there is storage; the other copy is left alone |
| LfbShadows.FaithfulWhateverIsShown | src/engine/boundary/linexe_glide_boundary.cpp:3697-3743 | A step keeps faithful copies faithful for all contents and readbacks if and only if it is no drawn unlock of the front buffer with a valid back copy and no swap gate without a swap or late swap with a valid copy, unless both copies are the same |
| LfbShadows.FrontUnlockLeavesBackBehind | src/engine/glide_opengl_backend.cpp:2679-2681 | A concrete run from the start: an unlock of the back buffer and one of the front buffer leave a reusable back copy that is not what the back buffer holds |
| LfbShadows.ReenteredSwapTurnsCopies | src/engine/boundary/linexe_glide_boundary.cpp:1766-1773 | A concrete run from the start: a swap gate entered again while its swap is waited out turns the copies a second time, and the reusable back copy is not what the back buffer holds |
| LfbShadows.BackLockReusesTheSeed | src/engine/boundary/linexe_glide_boundary.cpp:3461-3505 | For the back buffer a reused copy is what the seed from the GPU would load |
| LfbShadows.ReuseIsTheSeedForBackLocksOnly | src/engine/glide_opengl_backend.cpp:2688-2724 | Reusing a copy loads what the seed from the GPU would load, for all readbacks, faithful copies and contents, if and only if the lock names the back buffer, because the seed always reads the back buffer |
| LfbShadows.FrontLockReusesAnotherSeed | src/engine/glide_opengl_backend.cpp:2688-2724 | A concrete run from the start, one unlock of the back buffer and one swap: the reusable front copy is faithful and differs from the seed |
| LfbShadows.ShadowSet.ApplyGate | src/engine/glide_lfb_staging_shadow.cpp:338-362 | A gate exchanges, keeps or drops the copies as its class demands |
| LfbShadows.ShadowSet.Store | src/engine/glide_lfb_staging_shadow.cpp:259-302 | A surface is taken whole or the copy is dropped |
| LfbShadows.ShadowSet.Load | src/engine/glide_lfb_staging_shadow.cpp:236-257 | A usable copy overwrites the beginning of the surface; otherwise the surface is untouched |

## Left out

- Placements.Placement.Append: the writers of timer safe points, jump tables, segment overrides, guarded segment operations, dispatch thunks and direct-return probes are taken to have finished their bytes in the image and never to rewrite the head of an inactive entry.
- Placements.Placement.Register: generations are kept per entry; the latest generation of a page and its query are not modelled.
- HostChannels.HostChannel.Post: waiting inside a post is a step of the interleaved model; the object's method returns that it must wait.
- VerifiedRegions.VerifyFunction: the failure report for diagnostics is not modelled, and the decoder is assumed to initialise.
- LeRelocations.LeImage.ApplyAll: the lists of skipped and first-seen relocations in the report are not modelled, only the counts.
- LfbShadows.ShadowSet.ApplyGate: gates are grouped by what the source's two switches make of them; the pixel encoders are not modelled.
- Page protection calls, instruction-cache flushes, memory reservation and real mutexes, beyond the outcomes and critical sections above.
- The x86 decoder, the plan builder and the image emitter.
- The direct-return table, which retirement clears as a whole.
- The quarantine policy on repeated writes: which pages are quarantined is a parameter of noting a write.
- HostChannels.DoomedStaysBlocked: closing the channel, which ends the wait of a doomed guest, is not a step.
- Closing the channel, the timed wait for pending swaps, and commands posted or invoked from the host thread itself.
- MZ, object and page table parsing of the executable header, and copying page data.
- File handles, host paths and device names of the DOS file system.
- The dummy mode of the backend, and a render target the backend declines although it is one of the two buffers.
- Audio, CD and ZIP reading, OpenGL, window and texture code, counters, traces and environment settings.
