/**
 Self-modifying-code coherence over whole runs: the cache, the guest memory its entries were translated
 from, and the write watches, driven by translations, patches, guest writes and page retirements.
 */
module CoherenceRuns {
  import opened Words
  import opened CodeCacheTypes
  import opened InlineCaches
  import opened InlineCacheChains
  import opened CodeCaches
  import opened Retirement
  import opened Translation
  import opened Patching
  import opened SitePlacement
  import opened WriteWatches
  import opened GuestWrites

  type Memory = u32 -> u8

  function Bytes(mem: Memory, guest: u32, n: nat): (r: seq<u8>)
    ensures |r| == n
  {
    seq<u8>(n, k requires 0 <= k < n => mem(Wrap(guest + k)))
  }

  /**
   `sources[i]` are the guest bytes entry `i` was translated from, `excluded[i]` the guest ranges whose bytes were not
   to be tracked then, and `begun` the ranges of the write in progress.
   */
  datatype Sys = Sys(
    cache: Cache,
    sources: seq<seq<u8>>,
    excluded: seq<seq<(u32, u32)>>,
    patches: seq<Patches>,
    mem: Memory,
    w: Watches,
    begun: seq<Written>)

  predicate InWrite(begun: seq<Written>, a: int) {
    exists x <- begun :: x.begin <= a < x.begin + x.size
  }

  /** The entry's source bytes are those in guest memory, up to the write in progress. */
  ghost predicate Fresh(s: Sys, i: nat)
    requires i < |s.cache.entries| == |s.sources|
  {
    var e := s.cache.entries[i];
    && |s.sources[i]| == e.glen
    && forall k | 0 <= k < |s.sources[i]| :: s.sources[i][k] == s.mem(Wrap(e.guest + k)) || InWrite(s.begun, e.guest + k)
  }

  ghost predicate Guarded(s: Sys, i: nat)
    requires i < |s.cache.entries|
  {
    forall page: u32 | IsPage(page) && Touches(s.cache.entries[i], page) :: page in s.w.watched
  }

  /** What holds whatever the steps are: layout and activation discipline. */
  ghost predicate Ordered(s: Sys) {
    && Sound(s.cache)
    && |s.sources| == |s.cache.entries| == |s.cache.states| && |s.patches| == |s.cache.sites|
  }

  ghost predicate Coherent(s: Sys) {
    && Ordered(s) && WatchesOk(s.w)
    && (s.w.pending <==> s.begun != []) && (forall x <- s.begun :: WrittenOk(x))
    && (s.w.pending ==> s.w.write.begin == Recorded(s.begun).begin && s.w.write.count == Recorded(s.begun).count)
    && (forall i | 0 <= i < |s.cache.entries| && Tracked(s.cache, i) :: Fresh(s, i))
    && (forall i | 0 <= i < |s.cache.entries| && Tracked(s.cache, i) :: Guarded(s, i))
  }

  /** An entry is marked as tracking its bytes exactly when none of them was excluded. */
  ghost predicate Tagged(s: Sys) {
    && |s.excluded| == |s.cache.entries| == |s.cache.states|
    && forall i | 0 <= i < |s.excluded| && s.cache.entries[i].glen > 0 ::
         s.cache.states[i].tracks <==> Unexcluded(s.cache.entries[i], s.excluded[i])
  }

  ghost predicate HeadsSafe(s: Sys) {
    Ordered(s) && HeadsOk(s.cache)
  }

  ghost predicate ChainsSound(s: Sys) {
    Ordered(s) && ChainsOk(s.cache, s.patches)
  }

  /** With no write in progress no active entry is stale, and every page it touches is execute-read. */
  lemma NoStaleCode(s: Sys, i: nat)
    requires Coherent(s) && !s.w.pending && i < |s.cache.entries| && Tracked(s.cache, i)
    ensures s.sources[i] == Bytes(s.mem, s.cache.entries[i].guest, s.cache.entries[i].glen)
    ensures forall page: u32 | IsPage(page) && Touches(s.cache.entries[i], page) ::
              page in s.w.table && s.w.table[page] == ExecuteRead
  {
    hide Sound, IsPage, Touches;
    assert Fresh(s, i) && Guarded(s, i);
  }

  // ---- The initial placement ----

  function Sources(mem: Memory, entries: seq<Entry>): (r: seq<seq<u8>>)
    ensures |r| == |entries| && forall j | 0 <= j < |r| :: r[j] == Bytes(mem, entries[j].guest, entries[j].glen)
  {
    seq(|entries|, j requires 0 <= j < |entries| => Bytes(mem, entries[j].guest, entries[j].glen))
  }

  /** The first image as it is placed: every entry active and tracking, every page it touches watched. */
  ghost predicate Started(s: Sys, img: Image, generation: u32) {
    && LaidOut(|img.bytes|, img.entries, img.sites) && FreshImage(img)
    && (forall i | 0 <= i < |img.entries| :: Spans(img.entries[i]))
    && s.cache == Cache(s.cache.base, img.bytes, img.entries, seq(|img.entries|, _ => EntryState(generation, true, true)),
                        {}, {}, img.sites)
    && Room(s.cache) && WatchesOk(s.w) && !s.w.pending && s.begun == []
    && s.sources == Sources(s.mem, img.entries) && s.patches == seq(|img.sites|, _ => map[])
    && s.excluded == seq(|img.entries|, _ => [])
    && forall i | 0 <= i < |img.entries| :: Guarded(s, i)
  }

  lemma StartIsCoherent(s: Sys, img: Image, generation: u32)
    requires Started(s, img, generation)
    ensures Coherent(s) && Tagged(s) && HeadsSafe(s) && ChainsSound(s)
  {
    hide WatchesOk, Touches, SlotSparesEntry, SitesApart, SlotLaid, SlotsApart, Guarded;
    forall k | 0 <= k < |img.sites| ensures ChainOk(Views(s.cache.bytes, s.cache.base, img.sites[k]), img.sites[k], s.patches[k]) {
      assert FreshSite(img.bytes, 0, img.sites[k]);
      assert forall i | 0 <= i < |img.sites[k].slots| :: ViewOf(img.bytes, 0, img.sites[k].slots[i]).Jmp();
      FreshIsOk(Views(s.cache.bytes, s.cache.base, img.sites[k]), img.sites[k]);
    }
  }

  // ---- Steps ----

  datatype Step =
    | Append(img: Image, guestEntry: u32, excluded: seq<(u32, u32)>, generation: u32, pages: seq<u32>, refuses: Refusals, after: Cache)
    | AppendFails(pages: seq<u32>, refuses: Refusals)
    | PatchCache(site: nat, target: u32, address: u32, writable: bool)
    | RetireOne(page: u32, quarantine: bool, writable: bool, executable: bool)
    | BeginGuestWrite(fault: Fault)
    | GuestStore(begin: u32, size: u32, memory: Memory)
    | CompleteGuestWrite(refuses: Refusals, hurdles: Hurdles)
    | HostStore(begin: u32, size: u32, memory: Memory, restored: bool, hurdles: Hurdles)

  ghost predicate Overwrites(mem: Memory, begin: u32, size: u32, mem': Memory) {
    forall a: u32 | !(begin <= a < begin + size) :: mem'(a) == mem(a)
  }

  predicate MayWrite(p: Protection) {
    !p.NoAccess? && !p.ReadOnly? && !p.ExecuteRead?
  }

  /** A store runs through only where the pages let it; pages opened for the write in progress see only that write. */
  ghost predicate StoreRuns(s: Sys, begin: u32, size: u32) {
    forall a: u32 | begin <= a < begin + size ::
      && Page(a) in s.w.table && MayWrite(s.w.table[Page(a)])
      && (Page(a) in s.w.open ==> InWrite(s.begun, a))
  }

  /** The protection of the first page, which a host write gives back to all pages of its range. */
  function Found(s: Sys, begin: u32): Protection {
    if Page(begin) in s.w.table then s.w.table[Page(begin)] else Other
  }

  /** What a host write leaves its pages with: what it found, or what it opened them with if that is refused. */
  function Left(s: Sys, begin: u32, restored: bool): Protection {
    if restored then Found(s, begin) else ExecuteReadWrite
  }

  /**
   A write by the host opens all pages of its range, stores, gives them the protection of the first one and notes the
   write. Where that protection is unknown or refused the pages stay open and nothing is noted.
   */
  ghost predicate HostStores(s: Sys, begin: u32, size: u32, memory: Memory, restored: bool, h: Hurdles, s': Sys) {
    && Sound(s.cache) && size > 0 && begin + size <= WORD && Overwrites(s.mem, begin, size, memory)
    && (forall p: u32 | IsPage(p) && InRange(p, begin, size) :: p in s.w.table)
    && (restored ==> !Found(s, begin).Other?)
    && var (c', ok) := if restored then Note(s.cache, begin, size, h) else (s.cache, true);
    ok && s' == s.(cache := c', mem := memory, w := s.w.(table := Reprotect(s.w.table, begin, size, Left(s, begin, restored))))
  }

  /** The watches are installed before the translation of the current bytes is published. */
  ghost predicate Appends(s: Sys, step: Step, s': Sys)
    requires step.Append?
  {
    var (w', ok) := Install(s.w, step.pages, step.refuses);
    && Appendable(s.cache, step.img, step.guestEntry) && FreshImage(step.img) && ok
    && CandidatePages(s.cache, step.img, step.guestEntry, step.excluded, step.pages)
    && Appended(s.cache, step.img, step.guestEntry, step.excluded, step.generation, step.after)
    && s' == s.(cache := step.after, sources := s.sources + Sources(s.mem, step.img.entries),
                excluded := s.excluded + seq(|step.img.entries|, _ => step.excluded),
                patches := s.patches + seq(|step.img.sites|, _ => map[]), w := w')
  }

  ghost predicate PatchesCache(s: Sys, k: nat, target: u32, address: u32, writable: bool, s': Sys) {
    && Sound(s.cache) && k < |s.cache.sites| == |s.patches|
    && s' == s.(cache := PatchOutcome(s.cache, k, target, address, writable),
                patches := Recall(s.cache, s.patches, k, target, address, writable))
  }

  ghost predicate Begins(s: Sys, f: Fault, s': Sys) {
    && f.d.byteCount > 0
    && var (w', ok) := BeginWrite(s.w, f.address, f.d, f.fromGuest, f.keepStep, f.source, f.refuses);
    ok && s' == s.(w := w', begun := s.begun + [Range(f)])
  }

  /** The pages are closed, the written range is noted, and watches that are no longer needed are released. */
  ghost predicate Completes(s: Sys, refuses: Refusals, h: Hurdles, s': Sys) {
    && Sound(s.cache)
    && var (w, done) := CompleteWrite(s.w, refuses);
    && done.Some?
    && var (c', ok) := Note(s.cache, done.value.begin, done.value.count, h);
    && ok && |c'.states| == |c'.entries| && ReleasesTo(w, c', done.value, refuses, s'.w)
    && s' == s.(cache := c', w := s'.w, begun := [])
  }

  ghost predicate Next(s: Sys, step: Step, s': Sys) {
    match step
    case Append(_, _, _, _, _, _, _) => Appends(s, step, s')
    case AppendFails(pages, refuses) => s' == s.(w := Install(s.w, pages, refuses).0)
    case PatchCache(k, target, address, writable) => PatchesCache(s, k, target, address, writable, s')
    case RetireOne(page, quarantine, writable, executable) =>
      Sound(s.cache) && IsPage(page) && s' == s.(cache := RetirePage(s.cache, page, quarantine, writable, executable).0)
    case BeginGuestWrite(f) => Begins(s, f, s')
    case GuestStore(begin, size, memory) =>
      StoreRuns(s, begin, size) && Overwrites(s.mem, begin, size, memory) && s' == s.(mem := memory)
    case CompleteGuestWrite(refuses, hurdles) => Completes(s, refuses, hurdles, s')
    case HostStore(begin, size, memory, restored, hurdles) => HostStores(s, begin, size, memory, restored, hurdles, s')
  }

  // ---- What each step keeps ----

  /** Entries from before an append keep their source bytes and their watches. */
  lemma OldEntriesStayFresh(s: Sys, s': Sys, i: nat)
    requires |s.sources| == |s.cache.entries| <= |s'.cache.entries| == |s'.sources| && i < |s.cache.entries|
    requires s'.cache.entries[i] == s.cache.entries[i] && s'.sources[i] == s.sources[i]
    requires s'.mem == s.mem && s'.begun == s.begun && s.w.watched.Keys <= s'.w.watched.Keys
    requires Fresh(s, i) && Guarded(s, i)
    ensures Fresh(s', i) && Guarded(s', i)
  {
    hide Touches;
  }

  /** An entry of the image is translated from the current bytes, and its pages were watched before. */
  lemma NewEntryIsFresh(s: Sys, step: Step, s': Sys, j: nat)
    requires step.Append? && |s'.sources| == |s'.cache.entries| && |s.cache.entries| + j < |s'.cache.entries| && j < |step.img.entries|
    requires s'.mem == s.mem && s'.cache.entries[|s.cache.entries| + j] == step.img.entries[j].(off := s'.cache.entries[|s.cache.entries| + j].off)
    requires s'.sources[|s.cache.entries| + j] == Bytes(s.mem, step.img.entries[j].guest, step.img.entries[j].glen)
    requires CandidatePages(s.cache, step.img, step.guestEntry, step.excluded, step.pages)
    requires Activates(s.cache, step.img.entries[j], step.guestEntry) && TracksBytes(step.img.entries[j], step.excluded)
    requires forall p <- step.pages :: Page(p) in s'.w.watched
    ensures Fresh(s', |s.cache.entries| + j) && Guarded(s', |s.cache.entries| + j)
  {
    hide Touches, Activates, TracksBytes, Page, IsPage;
    var e := s'.cache.entries[|s.cache.entries| + j];
    forall page: u32 | IsPage(page) && Touches(e, page) ensures page in s'.w.watched {
      ShiftedTouches(step.img.entries[j], e, page);
      PageUnique(page, page);
    }
  }

  /** An append leaves the entries and states there were. */
  lemma OldEntryStays(c: Cache, img: Image, guestEntry: u32, excluded: seq<(u32, u32)>, generation: u32, c': Cache, i: nat)
    requires Appendable(c, img, guestEntry) && Appended(c, img, guestEntry, excluded, generation, c') && i < |c.entries|
    ensures |c.states| == |c.entries| && |c'.entries| == |c'.states| == |c.entries| + |img.entries|
    ensures c'.entries[i] == c.entries[i] && c'.states[i] == c.states[i]
  {
    hide Relinked, ClosedImage, LaidOut, Disciplined, Activates, TracksBytes, Room, Spans, Revives, ShiftSites, NewStates;
  }

  /** The entries of the image come behind them, moved but otherwise the same. */
  lemma NewEntryComes(c: Cache, img: Image, guestEntry: u32, excluded: seq<(u32, u32)>, generation: u32, c': Cache, j: nat)
    requires Appendable(c, img, guestEntry) && Appended(c, img, guestEntry, excluded, generation, c') && j < |img.entries|
    ensures |c.states| == |c.entries| && |c'.entries| == |c'.states| == |c.entries| + |img.entries|
    ensures c'.entries[|c.entries| + j] == img.entries[j].(off := c'.entries[|c.entries| + j].off)
    ensures c'.states[|c.entries| + j].active == Activates(c, img.entries[j], guestEntry)
    ensures c'.states[|c.entries| + j].tracks == TracksBytes(img.entries[j], excluded)
  {
    hide Relinked, ClosedImage, LaidOut, Disciplined, Activates, TracksBytes, Room, Spans, Revives, ShiftSites, NewStates;
  }

  lemma AppendKeepsLength(c: Cache, img: Image, guestEntry: u32, excluded: seq<(u32, u32)>, generation: u32, c': Cache)
    requires Appendable(c, img, guestEntry) && Appended(c, img, guestEntry, excluded, generation, c')
    ensures |c.states| == |c.entries| && |c'.entries| == |c'.states| == |c.entries| + |img.entries|
    ensures |c'.sites| == |c.sites| + |img.sites| && c'.quarantined == c.quarantined
  {
    hide Relinked, ClosedImage, LaidOut, Disciplined, Activates, TracksBytes, Room, Spans, Revives;
    LaidOutAbove(|c.bytes|, c.entries, c.sites, |img.bytes|, img.entries, img.sites);
  }

  lemma AppendKeepsOrdered(s: Sys, step: Step, s': Sys)
    requires Ordered(s) && step.Append? && Next(s, step, s')
    ensures Ordered(s') && s'.cache.quarantined == s.cache.quarantined
  {
    hide Appended, Appendable, Sound, FreshImage, Watch, CandidatePages;
    AppendKeepsSound(s.cache, step.img, step.guestEntry, step.excluded, step.generation, step.after);
    AppendKeepsLength(s.cache, step.img, step.guestEntry, step.excluded, step.generation, step.after);
  }

  lemma AppendKeepsCoherent(s: Sys, step: Step, s': Sys)
    requires Coherent(s) && step.Append? && Next(s, step, s')
    ensures Coherent(s')
  {
    hide Appended, Appendable, Sound, FreshImage, Watch, WatchesOk, Activates, TracksBytes, Touches, Fresh, Guarded,
         CandidatePages, Recorded;
    AppendKeepsOrdered(s, step, s');
    AppendKeepsLength(s.cache, step.img, step.guestEntry, step.excluded, step.generation, step.after);
    InstallKeepsOk(s.w, step.pages, step.refuses);
    forall i | 0 <= i < |s'.cache.entries| && Tracked(s'.cache, i) ensures Fresh(s', i) && Guarded(s', i) {
      if i < |s.cache.entries| {
        OldEntryStays(s.cache, step.img, step.guestEntry, step.excluded, step.generation, step.after, i);
        assert Tracked(s.cache, i);
        OldEntriesStayFresh(s, s', i);
      } else {
        NewEntryComes(s.cache, step.img, step.guestEntry, step.excluded, step.generation, step.after, i - |s.cache.entries|);
        NewEntryIsFresh(s, step, s', i - |s.cache.entries|);
      }
    }
  }

  lemma ShiftedTouches(e: Entry, e': Entry, page: int)
    requires e' == e.(off := e'.off)
    ensures Touches(e', page) <==> Touches(e, page)
  {
  }

  lemma FreshInLonger(s: Sys, s': Sys, i: nat)
    requires i < |s.cache.entries| == |s.sources| && Fresh(s, i)
    requires s'.cache == s.cache && s'.sources == s.sources && s'.mem == s.mem && s.begun <= s'.begun
    ensures Fresh(s', i)
  {
    assert forall x <- s.begun :: x in s'.begun;
  }

  lemma BeginKeepsCoherent(s: Sys, step: Step, s': Sys)
    requires Coherent(s) && step.BeginGuestWrite? && Next(s, step, s')
    ensures Coherent(s')
  {
    hide Sound, WatchesOk, BeginWrite, InRange, RangeBegin, RangeSize, Extend, Recorded, Fresh, Touches;
    var f := step.fault;
    BeginKeepsOk(s.w, f.address, f.d, f.fromGuest, f.keepStep, f.source, f.refuses);
    SizeIsPositive(f.d);
    RecordedJoins(s.w, s.begun, f);
    forall i | 0 <= i < |s'.cache.entries| && Tracked(s'.cache, i) ensures Fresh(s', i) && Guarded(s', i) {
      assert Fresh(s, i) && Guarded(s, i);
      FreshInLonger(s, s', i);
    }
  }

  /** A store never reaches a byte of an active entry except through the write in progress. */
  lemma StoreKeepsCoherent(s: Sys, step: Step, s': Sys)
    requires Coherent(s) && step.GuestStore? && Next(s, step, s')
    ensures Coherent(s')
  {
    hide Sound, WatchesOk, Recorded, IsPage, Page, InWrite, Touches;
    var begin: int := step.begin;
    forall i | 0 <= i < |s'.cache.entries| && Tracked(s'.cache, i) ensures Fresh(s', i) && Guarded(s', i) {
      var e := s.cache.entries[i];
      assert Fresh(s, i) && Guarded(s, i);
      ActiveSpans(s.cache, i);
      forall k | 0 <= k < |s.sources[i]|
        ensures s.sources[i][k] == s'.mem(Wrap(e.guest + k)) || InWrite(s'.begun, e.guest + k)
      {
        TouchesPageOf(e, k);
        PageIsPage(e.guest + k);
        if begin <= e.guest + k < begin + step.size { ClosedForbidsWriting(s.w, Page(e.guest + k)); }
      }
    }
  }

  lemma PageIsPage(a: u32)
    ensures IsPage(Page(a))
  {
  }

  /** A watched page that may be written has been opened. */
  lemma ClosedForbidsWriting(w: Watches, page: u32)
    requires WatchesOk(w) && page in w.watched
    ensures page in w.table && (MayWrite(w.table[page]) ==> page in w.open)
  {
  }

  lemma ActiveSpans(c: Cache, i: nat)
    requires Sound(c) && i < |c.entries| && Tracked(c, i)
    ensures Spans(c.entries[i])
  {
  }

  lemma TouchesPageOf(e: Entry, k: nat)
    requires Spans(e) && k < e.glen
    ensures Touches(e, Page(e.guest + k))
  {
  }

  /** Entries over bytes that have just been written and noted are inactive, so the rest is fresh. */
  lemma NotedKeepsFresh(s: Sys, s': Sys, begin: u32, count: u32, i: nat)
    requires Coherent(s) && OnlyDeactivates(s.cache, s'.cache) && !ActiveIn(s'.cache, begin, count)
    requires s'.sources == s.sources && i < |s'.cache.entries| && Tracked(s'.cache, i)
    requires forall a: u32 | !(begin <= a < begin + count) :: s'.mem(a) == s.mem(a)
    requires forall a: int | InWrite(s.begun, a) && !InWrite(s'.begun, a) :: begin <= a < begin + count
    ensures Fresh(s', i)
  {
    hide Sound, WatchesOk, Recorded;
    var e := s.cache.entries[i];
    assert Tracked(s.cache, i) && Fresh(s, i);
    ActiveSpans(s.cache, i);
    forall k | 0 <= k < |s.sources[i]| ensures s.sources[i][k] == s'.mem(Wrap(e.guest + k)) || InWrite(s'.begun, e.guest + k) {
      assert !Overlap(begin, count, e.guest, e.glen);
    }
  }

  /** The host write leaves its watched pages as they were, open ones open and closed ones closed. */
  ghost predicate LeavesWatches(s: Sys, step: Step) {
    step.HostStore? ==>
      forall p <- s.w.watched.Keys | InRange(p, step.begin, step.size) ::
        p in s.w.table && s.w.table[p] == Left(s, step.begin, step.restored)
  }

  predicate ByteKept(s: Sys, memory: Memory, e: Entry, k: nat) {
    InWrite(s.begun, e.guest + k) || memory(Wrap(e.guest + k)) == s.mem(Wrap(e.guest + k))
  }

  /** The guest bytes of the entry are the same in the new memory, up to the write in progress. */
  ghost predicate CodeKept(s: Sys, memory: Memory, e: Entry) {
    forall k: nat | k < e.glen :: ByteKept(s, memory, e, k)
  }

  /** A host write that is not noted changes no byte of an active entry outside the write in progress. */
  ghost predicate LeavesCode(s: Sys, step: Step) {
    step.HostStore? && !step.restored ==>
      && |s.cache.states| == |s.cache.entries|
      && forall i | 0 <= i < |s.cache.entries| && Tracked(s.cache, i) :: CodeKept(s, step.memory, s.cache.entries[i])
  }

  /** A host write keeps coherence exactly when it leaves the watched pages as they were and unnoted code unchanged. */
  lemma HostStoreKeepsCoherent(s: Sys, step: Step, s': Sys)
    requires Coherent(s) && step.HostStore? && Next(s, step, s') && Ordered(s')
    ensures Coherent(s') <==> LeavesWatches(s, step) && LeavesCode(s, step)
  {
    hide Sound, WatchesOk, Recorded, Note, ActiveIn, Fresh, LeavesCode, Reprotect, InRange, Left, InWrite;
    ReprotectKeepsOk(s.w, step.begin, step.size, Left(s, step.begin, step.restored));
    WatchedIsMapped(s.w);
    if step.restored { NotedStoreKeepsFresh(s, step, s'); } else { UnnotedStoreKeepsFresh(s, step, s'); }
  }

  lemma NotedStoreKeepsFresh(s: Sys, step: Step, s': Sys)
    requires Coherent(s) && step.HostStore? && step.restored && Next(s, step, s') && Ordered(s')
    ensures LeavesCode(s, step)
    ensures forall i | 0 <= i < |s'.cache.entries| && Tracked(s'.cache, i) :: Fresh(s', i) && Guarded(s', i)
  {
    hide Sound, WatchesOk, Recorded, Note, ActiveIn, Fresh, Reprotect;
    NoteClears(s.cache, step.begin, step.size, step.hurdles, s.patches);
    forall i | 0 <= i < |s'.cache.entries| && Tracked(s'.cache, i) ensures Fresh(s', i) && Guarded(s', i) {
      NotedKeepsFresh(s, s', step.begin, step.size, i);
      assert Tracked(s.cache, i) && Guarded(s, i);
    }
  }

  lemma UnnotedStoreKeepsFresh(s: Sys, step: Step, s': Sys)
    requires Coherent(s) && step.HostStore? && !step.restored && Next(s, step, s') && Ordered(s')
    ensures forall i | 0 <= i < |s'.cache.entries| && Tracked(s'.cache, i) :: Guarded(s', i)
    ensures (forall i | 0 <= i < |s'.cache.entries| && Tracked(s'.cache, i) :: Fresh(s', i)) <==> LeavesCode(s, step)
  {
    hide Sound, WatchesOk, Recorded, Note, Reprotect, InWrite, Touches, Tracked, Fresh, CodeKept;
    forall i | 0 <= i < |s.cache.entries| && Tracked(s.cache, i)
      ensures Guarded(s', i) && (Fresh(s', i) <==> CodeKept(s, step.memory, s.cache.entries[i]))
    {
      assert Fresh(s, i) && Guarded(s, i);
      FreshExactly(s, s', i);
    }
  }

  lemma FreshExactly(s: Sys, s': Sys, i: nat)
    requires i < |s.cache.entries| == |s.sources| && Fresh(s, i)
    requires s'.cache == s.cache && s'.sources == s.sources && s'.begun == s.begun
    ensures Fresh(s', i) <==> CodeKept(s, s'.mem, s.cache.entries[i])
  {
    hide InWrite;
    var e := s.cache.entries[i];
    forall k: nat | k < e.glen
      ensures ByteKept(s, s'.mem, e, k) <==> s.sources[i][k] == s'.mem(Wrap(e.guest + k)) || InWrite(s.begun, e.guest + k)
    {
    }
  }

  /** Watches released after a completion are not those of active entries. */
  lemma CompleteKeepsGuarded(s: Sys, step: Step, s': Sys, i: nat)
    requires Coherent(s) && step.CompleteGuestWrite? && Next(s, step, s')
    requires i < |s'.cache.entries| == |s'.cache.states| && Tracked(s'.cache, i)
    ensures WatchesOk(s'.w) && !s'.w.pending && Guarded(s', i)
  {
    hide Sound, HeadsOk, ChainsOk, WatchesOk, Note, ActiveIn, Release, Fresh, Touches, CompleteWrite, Needed, Recorded;
    var (w, done) := CompleteWrite(s.w, step.refuses);
    CompleteKeepsOk(s.w, step.refuses);
    NoteClears(s.cache, done.value.begin, done.value.count, step.hurdles, s.patches);
    LastPage(done.value.begin, done.value.count);
    ReleaseKeeps(w, s'.cache, Page(done.value.begin), Page(done.value.begin + done.value.count - 1), step.refuses);
    assert Tracked(s.cache, i) && Guarded(s, i);
    forall page: u32 | IsPage(page) && Touches(s'.cache.entries[i], page) ensures page in s'.w.watched {
      TouchedIsNeeded(s'.cache, i, page);
    }
  }

  /** A completion retires every entry over the write, provided the hull of its ranges was not everything. */
  lemma CompleteKeepsFresh(s: Sys, step: Step, s': Sys, i: nat)
    requires Coherent(s) && step.CompleteGuestWrite? && Next(s, step, s') && !WholeSpace(s.begun)
    requires i < |s'.cache.entries| == |s'.cache.states| && Tracked(s'.cache, i)
    ensures |s'.sources| == |s'.cache.entries| && Fresh(s', i)
  {
    hide Sound, HeadsOk, ChainsOk, WatchesOk, Note, ActiveIn, ReleasesTo, Fresh, Guarded, Touches;
    var (w, done) := CompleteWrite(s.w, step.refuses);
    CompleteKeepsOk(s.w, step.refuses);
    RecordedHull(s.begun);
    NoteClears(s.cache, done.value.begin, done.value.count, step.hurdles, s.patches);
    NotedKeepsFresh(s, s', done.value.begin, done.value.count, i);
  }

  lemma CompleteKeepsCoherent(s: Sys, step: Step, s': Sys)
    requires Coherent(s) && step.CompleteGuestWrite? && Next(s, step, s') && !WholeSpace(s.begun) && Ordered(s')
    ensures Coherent(s') && !s'.w.pending
  {
    hide Sound, HeadsOk, ChainsOk, WatchesOk, Note, ReleasesTo, Fresh, Guarded, CompleteWrite, Recorded, WholeSpace;
    CompleteIsQuiet(s, step, s');
    forall i | 0 <= i < |s'.cache.entries| && Tracked(s'.cache, i) ensures Fresh(s', i) && Guarded(s', i) {
      CompleteKeepsFresh(s, step, s', i);
      CompleteKeepsGuarded(s, step, s', i);
    }
  }

  lemma CompleteIsQuiet(s: Sys, step: Step, s': Sys)
    requires Coherent(s) && step.CompleteGuestWrite? && Next(s, step, s')
    ensures !s'.w.pending && s'.begun == [] && WatchesOk(s'.w)
  {
    hide Sound, HeadsOk, ChainsOk, WatchesOk, Note, Release, CompleteWrite, Needed, Recorded, Fresh, Guarded;
    var (w, done) := CompleteWrite(s.w, step.refuses);
    CompleteKeepsOk(s.w, step.refuses);
    NoteClears(s.cache, done.value.begin, done.value.count, step.hurdles, s.patches);
    LastPage(done.value.begin, done.value.count);
    ReleaseKeeps(w, s'.cache, Page(done.value.begin), Page(done.value.begin + done.value.count - 1), step.refuses);
  }

  lemma TouchedIsNeeded(c: Cache, i: nat, page: u32)
    requires |c.states| == |c.entries| && i < |c.entries| && Tracked(c, i) && Touches(c.entries[i], page)
    ensures Needed(c, page)
  {
  }

  /** Patches and retirements touch neither memory nor watches, and activate nothing. */
  lemma CacheStepKeepsCoherent(s: Sys, step: Step, s': Sys)
    requires Coherent(s) && (step.PatchCache? || step.RetireOne?) && Next(s, step, s') && Ordered(s')
    ensures Coherent(s')
  {
    hide Sound, WatchesOk, Recorded, PatchBytes, CursorAfter, Recall, RetirePage, Touches;
    if step.RetireOne? { RetirementOnlyDeactivates(s.cache, step.page, step.quarantine, step.writable, step.executable); }
    forall i | 0 <= i < |s'.cache.entries| && Tracked(s'.cache, i) ensures Fresh(s', i) && Guarded(s', i) {
      assert Tracked(s.cache, i) && Fresh(s, i) && Guarded(s, i);
    }
  }

  /** No step whatever disturbs layout, activation discipline or the watches, and the quarantined set only grows. */
  lemma StepKeepsOrdered(s: Sys, step: Step, s': Sys)
    requires Ordered(s) && Next(s, step, s')
    ensures Ordered(s') && s.cache.quarantined <= s'.cache.quarantined
  {
    hide Sound, HeadsOk, ChainsOk, PatchBytes, CursorAfter, Note, RetirePage, Watch, BeginWrite,
         CompleteWrite, ReleasesTo, Appends, Reprotect;
    match step
    case Append(_, _, _, _, _, _, _) => AppendKeepsOrdered(s, step, s');
    case PatchCache(k, target, address, writable) => PatchKeepsSound(s.cache, k, target, address, writable);
    case RetireOne(page, q, wr, ex) =>
      RetirementKeepsSound(s.cache, page, q, wr, ex);
      RetirementOnlyDeactivates(s.cache, page, q, wr, ex);
    case CompleteGuestWrite(refuses, h) =>
      var p := CompleteWrite(s.w, refuses).1.value;
      NoteClears(s.cache, p.begin, p.count, h, s.patches);
    case HostStore(begin, size, _, _, h) => NoteClears(s.cache, begin, size, h, s.patches);
    case _ =>
  }

  /** Translation marks the new entries by their bytes, and no step marks an entry anew. */
  lemma StepKeepsTagged(s: Sys, step: Step, s': Sys)
    requires Ordered(s) && Tagged(s) && Next(s, step, s')
    ensures Tagged(s')
  {
    hide Sound, HeadsOk, ChainsOk, PatchBytes, CursorAfter, Note, RetirePage, Watch, BeginWrite,
         CompleteWrite, ReleasesTo, Reprotect, Appends, Unexcluded;
    match step
    case Append(_, _, _, _, _, _, _) => AppendKeepsTagged(s, step, s');
    case RetireOne(page, q, wr, ex) => RetirementOnlyDeactivates(s.cache, page, q, wr, ex);
    case CompleteGuestWrite(refuses, h) =>
      var p := CompleteWrite(s.w, refuses).1.value;
      NoteClears(s.cache, p.begin, p.count, h, s.patches);
    case HostStore(begin, size, _, _, h) => NoteClears(s.cache, begin, size, h, s.patches);
    case _ =>
  }

  lemma AppendKeepsTagged(s: Sys, step: Step, s': Sys)
    requires Ordered(s) && Tagged(s) && step.Append? && Next(s, step, s')
    ensures Tagged(s')
  {
    hide Appended, Appendable, Sound, FreshImage, Watch, CandidatePages, Activates, TracksBytes, Unexcluded;
    var m := |s.cache.entries|;
    AppendKeepsLength(s.cache, step.img, step.guestEntry, step.excluded, step.generation, step.after);
    forall i | 0 <= i < |s'.excluded| && s'.cache.entries[i].glen > 0
      ensures s'.cache.states[i].tracks <==> Unexcluded(s'.cache.entries[i], s'.excluded[i])
    {
      if i < m {
        OldEntryStays(s.cache, step.img, step.guestEntry, step.excluded, step.generation, step.after, i);
      } else {
        NewEntryComes(s.cache, step.img, step.guestEntry, step.excluded, step.generation, step.after, i - m);
        TracksByByte(step.img.entries[i - m], step.excluded);
        SameGuestBytes(step.img.entries[i - m], s'.cache.entries[i], step.excluded);
      }
    }
  }

  lemma SameGuestBytes(e: Entry, e': Entry, excluded: seq<(u32, u32)>)
    requires e' == e.(off := e'.off)
    ensures Unexcluded(e', excluded) <==> Unexcluded(e, excluded)
  {
  }

  /** Of all steps only a host write can disturb the watches, and it does so exactly when it leaves some watched page otherwise. */
  lemma StepKeepsWatches(s: Sys, step: Step, s': Sys)
    requires Ordered(s) && WatchesOk(s.w) && Next(s, step, s')
    ensures WatchesOk(s'.w) <==> LeavesWatches(s, step)
  {
    hide Sound, HeadsOk, ChainsOk, WatchesOk, PatchBytes, CursorAfter, Note, RetirePage, Watch, BeginWrite, CompleteWrite, Release,
         Reprotect, InRange, Left, Appendable, Appended, CandidatePages;
    match step
    case Append(_, _, _, _, _, pages, refuses) => InstallKeepsOk(s.w, step.pages, step.refuses);
    case AppendFails(pages, refuses) => InstallKeepsOk(s.w, pages, refuses);
    case BeginGuestWrite(f) => BeginKeepsOk(s.w, f.address, f.d, f.fromGuest, f.keepStep, f.source, f.refuses);
    case CompleteGuestWrite(refuses, h) =>
      CompleteKeepsOk(s.w, refuses);
      var (w, done) := CompleteWrite(s.w, refuses);
      LastPage(done.value.begin, done.value.count);
      ReleaseKeeps(w, s'.cache, Page(done.value.begin), Page(done.value.begin + done.value.count - 1), refuses);
    case HostStore(begin, size, _, restored, _) =>
      ReprotectKeepsOk(s.w, begin, size, Left(s, begin, restored));
      WatchedIsMapped(s.w);
    case _ =>
  }

  /** The completed write did not span the whole address space; the host write left watched pages and unnoted code as they were. */
  ghost predicate Careful(s: Sys, step: Step) {
    && (step.CompleteGuestWrite? ==> !WholeSpace(s.begun))
    && LeavesWatches(s, step) && LeavesCode(s, step)
  }

  /** A careful step keeps coherence, and a step that is no completion keeps it only if it is careful. */
  lemma StepKeepsCoherent(s: Sys, step: Step, s': Sys)
    requires Coherent(s) && Next(s, step, s')
    ensures Careful(s, step) ==> Coherent(s')
    ensures Coherent(s') && !step.CompleteGuestWrite? ==> Careful(s, step)
  {
    hide Sound, WatchesOk, Recorded, Note, Fresh, Guarded, Watch, RetirePage, Release, WholeSpace;
    StepKeepsOrdered(s, step, s');
    match step
    case Append(_, _, _, _, _, _, _) => AppendKeepsCoherent(s, step, s');
    case AppendFails(pages, refuses) =>
      InstallKeepsOk(s.w, pages, refuses);
      GuardedByMore(s, s');
    case PatchCache(_, _, _, _) => CacheStepKeepsCoherent(s, step, s');
    case RetireOne(_, _, _, _) => CacheStepKeepsCoherent(s, step, s');
    case BeginGuestWrite(_) => BeginKeepsCoherent(s, step, s');
    case GuestStore(_, _, _) => StoreKeepsCoherent(s, step, s');
    case CompleteGuestWrite(_, _) => if !WholeSpace(s.begun) { CompleteKeepsCoherent(s, step, s'); }
    case HostStore(_, _, _, _, _) => HostStoreKeepsCoherent(s, step, s');
  }

  lemma GuardedByMore(s: Sys, s': Sys)
    requires |s.sources| == |s.cache.entries| && s' == s.(w := s'.w) && s.w.watched.Keys <= s'.w.watched.Keys
    ensures forall i | 0 <= i < |s.cache.entries| :: Guarded(s, i) ==> Guarded(s', i)
    ensures forall i | 0 <= i < |s.cache.entries| :: Fresh(s, i) ==> Fresh(s', i)
  {
  }

  // ---- Heads and chains ----

  /** A patch spares the inactive heads it overlaps, or could not write at all. */
  ghost predicate SparesHeads(s: Sys, step: Step) {
    step.PatchCache? ==>
      && Ordered(s) && step.site < |s.cache.sites|
      && (step.writable ==> Spared(s.cache, SlotFor(s.cache, step.site, step.target), step.target))
  }

  /** A patch leaves its chain in order, also where it returns early. */
  ghost predicate FitsChain(s: Sys, step: Step) {
    step.PatchCache? ==>
      && Ordered(s) && step.site < |s.cache.sites|
      && Fits(s.cache, step.site, step.target, step.address, step.writable, s.patches[step.site])
  }

  /** Noting a write keeps safe heads safe and sound chains sound. */
  lemma NoteStepKeepsCode(s: Sys, step: Step, s': Sys)
    requires Ordered(s) && Next(s, step, s') && (step.CompleteGuestWrite? || step.HostStore?)
    ensures s'.patches == s.patches && KeepsCode(s.cache, s'.cache, s.patches)
  {
    hide Sound, HeadsOk, ChainsOk, WatchesOk, Note, CompleteWrite, ReleasesTo;
    match step
    case CompleteGuestWrite(refuses, h) =>
      var p := CompleteWrite(s.w, refuses).1.value;
      NoteClears(s.cache, p.begin, p.count, h, s.patches);
    case HostStore(begin, size, _, _, h) => NoteClears(s.cache, begin, size, h, s.patches);
    case _ =>
  }

  /** Of all steps only a patch can endanger a safe head, and it does so exactly when its target does not spare it. */
  lemma StepKeepsHeads(s: Sys, step: Step, s': Sys)
    requires HeadsSafe(s) && Next(s, step, s')
    ensures HeadsSafe(s') <==> SparesHeads(s, step)
  {
    hide Sound, HeadsOk, ChainsOk, WatchesOk, PatchOutcome, RetirePage, Note, Watch, BeginWrite, CompleteWrite,
         ReleasesTo, Spared, SlotFor,
         Appendable, Appended, FreshImage, CandidatePages;
    StepKeepsOrdered(s, step, s');
    match step
    case Append(img, g, x, gen, _, _, after) => AppendKeepsHeads(s.cache, img, g, x, gen, after);
    case PatchCache(k, t, target, writable) => PatchKeepsHeads(s.cache, k, t, target, writable);
    case RetireOne(page, q, wr, ex) => RetirementKeepsHeads(s.cache, page, q, wr, ex);
    case CompleteGuestWrite(_, _) => NoteStepKeepsCode(s, step, s');
    case HostStore(_, _, _, _, _) => NoteStepKeepsCode(s, step, s');
    case _ =>
  }

  /** Of all steps only a patch can spoil a chain, and it does so exactly when it does not fit. */
  lemma StepKeepsChains(s: Sys, step: Step, s': Sys)
    requires ChainsSound(s) && Next(s, step, s')
    ensures ChainsSound(s') <==> FitsChain(s, step)
  {
    hide Sound, HeadsOk, ChainsOk, WatchesOk, PatchOutcome, Recall, RetirePage, Note, Watch, BeginWrite,
         CompleteWrite, ReleasesTo, Fits,
         Appendable, Appended, FreshImage, CandidatePages;
    StepKeepsOrdered(s, step, s');
    match step
    case Append(img, g, x, gen, _, _, after) => AppendKeepsChains(s.cache, img, g, x, gen, after, s.patches);
    case PatchCache(k, t, target, writable) => PatchKeepsChains(s.cache, k, t, target, writable, s.patches);
    case RetireOne(page, q, wr, ex) => RetirementKeepsAllChains(s.cache, page, q, wr, ex, s.patches);
    case CompleteGuestWrite(_, _) => NoteStepKeepsCode(s, step, s');
    case HostStore(_, _, _, _, _) => NoteStepKeepsCode(s, step, s');
    case _ =>
  }

  // ---- Runs ----

  /** A run is its states and the steps between them. */
  ghost predicate Run(states: seq<Sys>, steps: seq<Step>) {
    && |states| == |steps| + 1 && Coherent(states[0]) && Tagged(states[0]) && HeadsSafe(states[0]) && ChainsSound(states[0])
    && forall n | 0 <= n < |steps| :: Next(states[n], steps[n], states[n + 1])
  }

  lemma {:induction false} RunsStayOrdered(states: seq<Sys>, steps: seq<Step>, n: nat)
    requires Run(states, steps) && n < |states|
    ensures Ordered(states[n])
  {
    hide Ordered, Next;
    if n == 0 {
      CoherentIsOrdered(states[0]);
    } else {
      RunsStayOrdered(states, steps, n - 1);
      assert Next(states[n - 1], steps[n - 1], states[n - 1 + 1]);
      StepKeepsOrdered(states[n - 1], steps[n - 1], states[n]);
    }
  }

  /** Activity and exclusion, byte by byte, say which entries are under the activation discipline and the watches. */
  ghost predicate Live(s: Sys, i: nat) {
    i < |s.cache.entries| && i < |s.cache.states| && i < |s.excluded|
    && s.cache.states[i].active && Unexcluded(s.cache.entries[i], s.excluded[i])
  }

  /** An appended entry is live exactly when it may run and none of its bytes was excluded. */
  lemma AppendedIsLive(s: Sys, step: Step, s': Sys, j: nat)
    requires Ordered(s) && Tagged(s) && step.Append? && Next(s, step, s') && j < |step.img.entries|
    ensures Live(s', |s.cache.entries| + j) <==>
            MayRun(s.cache, step.img.entries[j], step.guestEntry) && Unexcluded(step.img.entries[j], step.excluded)
  {
    hide Appended, Appendable, Sound, FreshImage, Watch, CandidatePages, MayRun, Unexcluded;
    var e := step.img.entries[j];
    AppendedStates(s.cache, step.img, step.guestEntry, step.excluded, step.generation, step.after, j);
    SameGuestBytes(e, s'.cache.entries[|s.cache.entries| + j], step.excluded);
  }

  lemma {:induction false} RunsStayTagged(states: seq<Sys>, steps: seq<Step>, n: nat)
    requires Run(states, steps) && n < |states|
    ensures Tagged(states[n])
  {
    hide Ordered, Next, Tagged;
    if n > 0 {
      RunsStayTagged(states, steps, n - 1);
      RunsStayOrdered(states, steps, n - 1);
      assert Next(states[n - 1], steps[n - 1], states[n - 1 + 1]);
      StepKeepsTagged(states[n - 1], steps[n - 1], states[n]);
    }
  }

  lemma LiveIsTracked(states: seq<Sys>, steps: seq<Step>, n: nat, i: nat)
    requires Run(states, steps) && n < |states| && Live(states[n], i)
    ensures var c := states[n].cache; i < |c.entries| == |c.states| && Spans(c.entries[i]) && Tracked(c, i)
  {
    hide Next, Coherent, HeadsSafe, ChainsSound, Unexcluded, LaidOut, Disciplined;
    RunsStayOrdered(states, steps, n);
    RunsStayTagged(states, steps, n);
    assert Sound(states[n].cache);
  }

  lemma CoherentIsOrdered(s: Sys)
    requires Coherent(s)
    ensures Ordered(s)
  {
  }

  /** The watch set is in order all along exactly when every host write leaves its watched pages as they were. */
  lemma {:induction false} WatchesStayInOrder(states: seq<Sys>, steps: seq<Step>, n: nat)
    requires Run(states, steps) && n < |states|
    ensures (forall m | 0 <= m <= n :: WatchesOk(states[m].w)) <==> forall m | 0 <= m < n :: LeavesWatches(states[m], steps[m])
    decreases n
  {
    hide HeadsSafe, ChainsSound, WatchesOk, LeavesWatches, Ordered, Next, Fresh, Guarded, Recorded;
    if n > 0 {
      WatchesStayInOrder(states, steps, n - 1);
      RunsStayOrdered(states, steps, n - 1);
      assert Next(states[n - 1], steps[n - 1], states[n - 1 + 1]);
      if WatchesOk(states[n - 1].w) { StepKeepsWatches(states[n - 1], steps[n - 1], states[n]); }
    }
  }

  /** Every one of the first `n` steps was careful. */
  ghost predicate Covered(states: seq<Sys>, steps: seq<Step>, n: nat) {
    n <= |steps| && n <= |states| && forall m | 0 <= m < n :: Careful(states[m], steps[m])
  }

  lemma {:induction false} RunsStayCoherent(states: seq<Sys>, steps: seq<Step>, n: nat)
    requires Run(states, steps) && n < |states| && Covered(states, steps, n)
    ensures Coherent(states[n])
  {
    hide Coherent, Next, Careful;
    if n > 0 {
      RunsStayCoherent(states, steps, n - 1);
      assert Next(states[n - 1], steps[n - 1], states[n - 1 + 1]);
      StepKeepsCoherent(states[n - 1], steps[n - 1], states[n]);
    }
  }

  /**
   Whenever no write is in progress, every active entry none of whose bytes was excluded was translated from the bytes
   now in memory, and its bytes lie on execute-read pages.
   */
  lemma RunsNeverExecuteStaleCode(states: seq<Sys>, steps: seq<Step>, n: nat, i: nat)
    requires Run(states, steps) && n < |states| && Covered(states, steps, n) && !states[n].w.pending
    requires Live(states[n], i)
    ensures |states[n].sources| == |states[n].cache.entries|
    ensures var s, e := states[n], states[n].cache.entries[i];
            && s.sources[i] == Bytes(s.mem, e.guest, e.glen)
            && forall a: u32 | e.guest <= a < e.guest + e.glen :: Page(a) in s.w.table && s.w.table[Page(a)] == ExecuteRead
  {
    hide Next, Sound, HeadsSafe, ChainsSound, WatchesOk, Fresh, Guarded, Touches, Unexcluded, Tagged;
    RunsStayCoherent(states, steps, n);
    LiveIsTracked(states, steps, n, i);
    NoStaleCode(states[n], i);
    var e := states[n].cache.entries[i];
    forall a: u32 | e.guest <= a < e.guest + e.glen ensures Page(a) in states[n].w.table && states[n].w.table[Page(a)] == ExecuteRead {
      TouchesPageOf(e, a - e.guest);
    }
  }

  /** A quarantined page stays quarantined, and no byte of it belongs to an active entry without excluded bytes again. */
  lemma QuarantineIsPermanent(states: seq<Sys>, steps: seq<Step>, m: nat, n: nat, i: nat, a: u32)
    requires Run(states, steps) && m <= n < |states| && Page(a) in states[m].cache.quarantined
    requires Live(states[n], i)
    ensures Page(a) in states[n].cache.quarantined
    ensures var e := states[n].cache.entries[i]; !(e.guest <= a < e.guest + e.glen)
  {
    hide Next, Coherent, HeadsSafe, ChainsSound, WatchesOk, LaidOut, Touches, Page, Unexcluded, Tagged;
    RunsStayOrdered(states, steps, n);
    LiveIsTracked(states, steps, n, i);
    QuarantineGrows(states, steps, m, n);
    assert Disciplined(states[n].cache, i);
    var e := states[n].cache.entries[i];
    if e.guest <= a < e.guest + e.glen { TouchesPageOf(e, a - e.guest); }
  }

  lemma {:induction false} QuarantineGrows(states: seq<Sys>, steps: seq<Step>, m: nat, n: nat)
    requires Run(states, steps) && m <= n < |states|
    ensures states[m].cache.quarantined <= states[n].cache.quarantined
    decreases n - m
  {
    hide Coherent, Ordered, Next;
    if m < n {
      QuarantineGrows(states, steps, m, n - 1);
      RunsStayOrdered(states, steps, n - 1);
      assert Next(states[n - 1], steps[n - 1], states[n - 1 + 1]);
      StepKeepsOrdered(states[n - 1], steps[n - 1], states[n]);
    }
  }

  /** Inactive heads are safe all along exactly when every patch spares the heads its immediate overlaps. */
  lemma {:induction false} HeadsStaySafe(states: seq<Sys>, steps: seq<Step>, n: nat)
    requires Run(states, steps) && n < |states|
    ensures (forall m | 0 <= m <= n :: HeadsSafe(states[m])) <==> forall m | 0 <= m < n :: SparesHeads(states[m], steps[m])
    decreases n
  {
    hide Coherent, HeadsSafe, ChainsSound, SparesHeads, Next;
    if n > 0 {
      HeadsStaySafe(states, steps, n - 1);
      assert Next(states[n - 1], steps[n - 1], states[n - 1 + 1]);
      if HeadsSafe(states[n - 1]) { StepKeepsHeads(states[n - 1], steps[n - 1], states[n]); }
    }
  }

  /** Chains are sound all along exactly when every patch fits its chain. */
  lemma {:induction false} ChainsStaySound(states: seq<Sys>, steps: seq<Step>, n: nat)
    requires Run(states, steps) && n < |states|
    ensures (forall m | 0 <= m <= n :: ChainsSound(states[m])) <==> forall m | 0 <= m < n :: FitsChain(states[m], steps[m])
    decreases n
  {
    hide Coherent, HeadsSafe, ChainsSound, FitsChain, Next;
    if n > 0 {
      ChainsStaySound(states, steps, n - 1);
      assert Next(states[n - 1], steps[n - 1], states[n - 1 + 1]);
      if ChainsSound(states[n - 1]) { StepKeepsChains(states[n - 1], steps[n - 1], states[n]); }
    }
  }

  // ---- What is true of the cache in every reached state ----

  /** The head of entry `i` traps, or jumps at once to an entry for the same guest address which is active or traps itself. */
  ghost predicate TrapsOrLands(c: Cache, i: nat)
    requires |c.states| == |c.entries| && i < |c.entries|
  {
    var at := c.entries[i].off;
    && at < |c.bytes|
    && (c.bytes[at] == INT3 ||
        (at + 5 <= |c.bytes| && c.bytes[at] == JMP &&
         exists j | 0 <= j < |c.entries| ::
           && c.entries[j].guest == c.entries[i].guest && c.entries[j].off < |c.bytes|
           && Land(at + 5, Word32(c.bytes, at + 1)) == c.entries[j].off
           && (c.states[j].active || c.bytes[c.entries[j].off] == INT3)))
  }

  lemma SafeHeadTrapsOrLands(c: Cache, i: nat)
    requires Sound(c) && HeadsOk(c) && i < |c.entries| && !c.states[i].active
    ensures TrapsOrLands(c, i)
  {
    hide Jump, Disciplined, Spans, SitesApart, SlotSparesEntry, Laid, Land, Word32;
    assert InactiveOk(c, i);
    if c.bytes[c.entries[i].off] != INT3 {
      var j :| 0 <= j < |c.entries| && ForwardsTo(c, i, j) && (c.states[j].active || c.bytes[c.entries[j].off] == INT3);
      JumpLands(c.bytes, c.entries[i].off, c.entries[j].off);
    }
  }

  /** Inactive code never runs stale, however many generations have come and gone, as long as patches spare the heads they overlap. */
  lemma InactiveCodeNeverRuns(states: seq<Sys>, steps: seq<Step>, n: nat, i: nat)
    requires Run(states, steps) && n < |states| && forall m | 0 <= m < n :: SparesHeads(states[m], steps[m])
    requires i < |states[n].cache.entries| == |states[n].cache.states| && !states[n].cache.states[i].active
    ensures TrapsOrLands(states[n].cache, i)
  {
    hide Next, Coherent, ChainsSound, SparesHeads, Sound, HeadsOk, WatchesOk, TrapsOrLands;
    HeadsStaySafe(states, steps, n);
    assert HeadsSafe(states[n]);
    SafeHeadTrapsOrLands(states[n].cache, i);
  }

  /** No active entry without excluded bytes starts on a retired page or has a byte on a quarantined one. */
  lemma ActivationDiscipline(states: seq<Sys>, steps: seq<Step>, n: nat, i: nat)
    requires Run(states, steps) && n < |states| && Live(states[n], i)
    ensures var c, e := states[n].cache, states[n].cache.entries[i];
            && Page(e.guest) !in c.retired
            && forall a: u32 | e.guest <= a < e.guest + e.glen :: Page(a) !in c.quarantined
  {
    hide Next, Coherent, HeadsSafe, ChainsSound, WatchesOk, LaidOut, Page, Touches, Unexcluded, Tagged;
    RunsStayOrdered(states, steps, n);
    LiveIsTracked(states, steps, n, i);
    assert Disciplined(states[n].cache, i);
    var c, e := states[n].cache, states[n].cache.entries[i];
    forall a: u32 | e.guest <= a < e.guest + e.glen ensures Page(a) !in c.quarantined {
      TouchesPageOf(e, a - e.guest);
    }
  }

  /** A transfer through a site that relinking cannot reach ends at the guard target or where it was patched last. */
  lemma TransfersReachTheirPatch(states: seq<Sys>, steps: seq<Step>, n: nat, k: nat, t: u32)
    requires Run(states, steps) && n < |states| && forall m | 0 <= m < n :: FitsChain(states[m], steps[m])
    requires |states[n].cache.states| == |states[n].cache.entries| && k < |states[n].cache.sites| && ClearSite(states[n].cache, k)
    ensures |states[n].patches| == |states[n].cache.sites| && Laid(states[n].cache.sites[k], |states[n].cache.bytes|)
    ensures var c, last := states[n].cache, states[n].patches[k];
            var r := Walk(Views(c.bytes, c.base, c.sites[k]), c.sites[k], t, 0);
            r == Missed || (t in last && r == JumpedTo(last[t]))
  {
    hide Next, Coherent, HeadsSafe, FitsChain, Sound, WatchesOk, ClearSite, ChainOk, Walk, ViewOf, SlotLaid, SlotsApart;
    ChainsStaySound(states, steps, n);
    assert ChainsSound(states[n]);
    var c := states[n].cache;
    ChainIsNotEmpty(Views(c.bytes, c.base, c.sites[k]), c.sites[k], states[n].patches[k]);
    WalkIsSound(Views(c.bytes, c.base, c.sites[k]), c.sites[k], states[n].patches[k], t, 0);
  }

  /** The immediates of the site lie in the emitted code of entry `i`. */
  predicate SiteOf(c: Cache, k: nat, i: nat)
    requires k < |c.sites| && i < |c.entries|
  {
    var e := c.entries[i];
    forall j | 0 <= j < |c.sites[k].slots| :: e.off <= c.sites[k].slots[j].imm && c.sites[k].slots[j].imm + 4 <= e.off + e.elen
  }

  /** Relinking cannot reach the site of an active entry: emitted ranges are disjoint. */
  lemma LiveSiteIsClear(c: Cache, k: nat, i: nat)
    requires Sound(c) && k < |c.sites| && i < |c.entries| && c.states[i].active && SiteOf(c, k, i)
    ensures ClearSite(c, k)
  {
    hide Disciplined, Laid, SitesApart, SlotSparesEntry;
    forall j, m | 0 <= j < |c.sites[k].slots| && 0 <= m < |c.entries| && !c.states[m].active
      ensures Apart(c.sites[k].slots[j].imm, 4, c.entries[m].off, HeadLength(c.entries[m]))
    {
      var lower, upper := c.entries[if i < m then i else m], c.entries[if i < m then m else i];
      assert lower.off + lower.elen <= upper.off;
    }
  }

  /** A transfer through the site of an active entry ends at the guard target or where it was patched last. */
  lemma LiveTransfersReachTheirPatch(states: seq<Sys>, steps: seq<Step>, n: nat, k: nat, i: nat, t: u32)
    requires Run(states, steps) && n < |states| && forall m | 0 <= m < n :: FitsChain(states[m], steps[m])
    requires var c := states[n].cache; i < |c.entries| == |c.states| && c.states[i].active && k < |c.sites| && SiteOf(c, k, i)
    ensures |states[n].patches| == |states[n].cache.sites| && Laid(states[n].cache.sites[k], |states[n].cache.bytes|)
    ensures var c, last := states[n].cache, states[n].patches[k];
            var r := Walk(Views(c.bytes, c.base, c.sites[k]), c.sites[k], t, 0);
            r == Missed || (t in last && r == JumpedTo(last[t]))
  {
    hide Next, Coherent, HeadsSafe, ChainsSound, FitsChain, Sound, WatchesOk, ClearSite, Walk, ViewOf, Laid;
    RunsStayOrdered(states, steps, n);
    LiveSiteIsClear(states[n].cache, k, i);
    TransfersReachTheirPatch(states, steps, n, k, t);
  }

  lemma ChainIsNotEmpty(v: seq<View>, s: Site, last: Patches)
    requires ChainOk(v, s, last)
    ensures v != []
  {
  }
}
