/** What follows a finished guest write: pages with overwritten code are retired, watches nobody needs are released. */
module GuestWrites {
  import opened Words
  import opened CodeCacheTypes
  import opened InlineCacheChains
  import opened CodeCaches
  import opened Retirement
  import opened Patching
  import opened WriteWatches

  // ---- Noting a finished write ----

  /** The choices around the retirements of one write: which pages are quarantined, which protection changes fail. */
  datatype Hurdles = Hurdles(quarantine: set<u32>, unwritable: set<u32>, unexecutable: set<u32>)

  ghost function RetireNoted(c: Cache, page: u32, h: Hurdles): (Cache, bool)
    requires Sound(c)
  {
    RetirePage(c, page, page in h.quarantine, page !in h.unwritable, page !in h.unexecutable)
  }

  /** Retire the page if its part [from, to) of the written range still has active code. */
  ghost function NotePage(c: Cache, page: u32, from: int, to: int, h: Hurdles): (r: (Cache, bool))
    requires Sound(c) && IsPage(page)
    ensures Sound(r.0)
  {
    assert Sound(RetireNoted(c, page, h).0) by {
      RetirementKeepsSound(c, page, page in h.quarantine, page !in h.unwritable, page !in h.unexecutable);
    }
    if ActiveIn(c, from, to - from) then RetireNoted(c, page, h) else (c, true)
  }

  function PartBegin(page: u32, begin: u32): u32 {
    if begin < page then page else begin
  }

  function PartEnd(page: u32, end: int): int {
    if end < page + PAGE_SIZE then end else page + PAGE_SIZE
  }

  /** Note the written range [begin, end) page by page. */
  ghost function NotePages(c: Cache, page: u32, last: u32, begin: u32, end: int, h: Hurdles): (r: (Cache, bool))
    requires Sound(c) && IsPage(page) && IsPage(last) && page <= last
    decreases last - page
  {
    var (c', ok) := NotePage(c, page, PartBegin(page, begin), PartEnd(page, end), h);
    if !ok || page == last then (c', ok)
    else NextPage(page, last); NotePages(c', page + PAGE_SIZE, last, begin, end, h)
  }

  ghost function Note(c: Cache, begin: u32, count: u32, h: Hurdles): (Cache, bool)
    requires Sound(c)
  {
    if count == 0 then (c, true)
    else if begin + count > WORD then (c, false)
    else LastPage(begin, count); NotePages(c, Page(begin), Page(begin + count - 1), begin, begin + count, h)
  }

  /** Entries only lose their active flag. */
  ghost predicate OnlyDeactivates(c: Cache, c': Cache) {
    && |c.states| == |c.entries| == |c'.states|
    && c'.entries == c.entries && c'.sites == c.sites && c'.base == c.base && |c'.bytes| == |c.bytes|
    && c'.quarantined >= c.quarantined
    && forall i | 0 <= i < |c.states| :: c'.states[i] == c.states[i] || c'.states[i] == c.states[i].(active := false)
  }

  lemma RetirementOnlyDeactivates(c: Cache, page: u32, quarantine: bool, writable: bool, executable: bool)
    requires Sound(c)
    ensures OnlyDeactivates(c, RetirePage(c, page, quarantine, writable, executable).0)
  {
    hide RetiredBytes, Selected, Known, Selects;
  }

  lemma DeactivatesNone(c: Cache)
    requires Sound(c)
    ensures OnlyDeactivates(c, c)
  {
    hide LaidOut, Disciplined;
  }

  lemma SameCounts(c: Cache, c': Cache)
    requires OnlyDeactivates(c, c')
    ensures |c'.states| == |c'.entries| == |c.entries|
  {
  }

  lemma DeactivatesMore(c: Cache, c': Cache, c'': Cache)
    requires OnlyDeactivates(c, c') && OnlyDeactivates(c', c'')
    ensures OnlyDeactivates(c, c'')
  {
  }

  /** Safe heads stay safe and sound chains sound. */
  ghost predicate KeepsCode(c: Cache, c': Cache, patches: seq<Patches>) {
    && Sound(c) && Sound(c')
    && (HeadsOk(c) ==> HeadsOk(c'))
    && (ChainsOk(c, patches) ==> ChainsOk(c', patches))
  }

  lemma RetirementKeepsCode(c: Cache, page: u32, quarantine: bool, writable: bool, executable: bool, patches: seq<Patches>)
    requires Sound(c) && IsPage(page)
    ensures KeepsCode(c, RetirePage(c, page, quarantine, writable, executable).0, patches)
  {
    hide Sound, HeadsOk, ChainsOk, RetirePage;
    RetirementKeepsSound(c, page, quarantine, writable, executable);
    if HeadsOk(c) { RetirementKeepsHeads(c, page, quarantine, writable, executable); }
    if ChainsOk(c, patches) { RetirementKeepsAllChains(c, page, quarantine, writable, executable, patches); }
  }

  lemma NotePageClears(c: Cache, page: u32, from: u32, to: int, h: Hurdles, patches: seq<Patches>)
    requires Sound(c) && IsPage(page) && page <= from <= to <= page + PAGE_SIZE
    ensures var (c', ok) := NotePage(c, page, from, to, h);
            && OnlyDeactivates(c, c') && KeepsCode(c, c', patches)
            && (ok ==> !ActiveIn(c', from, to - from))
  {
    hide Sound, HeadsOk, ChainsOk, RetirePage, Spans, OnlyDeactivates;
    var q, wr, ex := page in h.quarantine, page !in h.unwritable, page !in h.unexecutable;
    DeactivatesNone(c);
    RetirementKeepsCode(c, page, q, wr, ex, patches);
    RetirementOnlyDeactivates(c, page, q, wr, ex);
    RetirementIsExact(c, page, q, wr, ex);
    var r := RetirePage(c, page, q, wr, ex);
    SameCounts(c, r.0);
    if r.1 { ActiveInPart(r.0, page, PAGE_SIZE, from, to - from); }
  }

  lemma {:induction false} NotePagesClears(c: Cache, page: u32, last: u32, begin: u32, end: int, h: Hurdles, patches: seq<Patches>)
    requires Sound(c) && IsPage(page) && IsPage(last) && page <= last
    requires begin < page + PAGE_SIZE && begin < end && last < end <= last + PAGE_SIZE
    ensures var (c', ok) := NotePages(c, page, last, begin, end, h);
            && OnlyDeactivates(c, c') && KeepsCode(c, c', patches)
            && (ok ==> !ActiveIn(c', PartBegin(page, begin), end - PartBegin(page, begin)))
    decreases last - page
  {
    hide Sound, HeadsOk, ChainsOk, NotePage, OnlyDeactivates, ActiveIn, IsPage;
    var from, to := PartBegin(page, begin), PartEnd(page, end);
    NotePageClears(c, page, from, to, h, patches);
    var (c', ok) := NotePage(c, page, from, to, h);
    if ok && page != last {
      NextPage(page, last);
      NotePagesClears(c', page + PAGE_SIZE, last, begin, end, h, patches);
      var r := NotePages(c', page + PAGE_SIZE, last, begin, end, h);
      DeactivatesMore(c, c', r.0);
      if r.1 {
        ActiveInFewer(c', r.0, from, to - from);
        ActiveInSplit(r.0, from, to, end);
      }
    }
  }

  lemma ActiveInPart(c: Cache, a: int, n: int, b: int, m: int)
    requires |c.states| == |c.entries| && a <= b && b + m <= a + n && !ActiveIn(c, a, n)
    ensures !ActiveIn(c, b, m)
  {
  }

  lemma ActiveInFewer(c: Cache, c': Cache, a: int, n: int)
    requires OnlyDeactivates(c, c') && !ActiveIn(c, a, n)
    ensures !ActiveIn(c', a, n)
  {
  }

  lemma ActiveInSplit(c: Cache, from: int, to: int, end: int)
    requires |c.states| == |c.entries| && from <= to <= end && !ActiveIn(c, from, to - from) && !ActiveIn(c, to, end - to)
    ensures !ActiveIn(c, from, end - from)
  {
  }

  /** A noted write leaves no active entry over any of its bytes, and keeps heads and chains. */
  lemma NoteClears(c: Cache, begin: u32, count: u32, h: Hurdles, patches: seq<Patches>)
    requires Sound(c)
    ensures var (c', ok) := Note(c, begin, count, h);
            && OnlyDeactivates(c, c') && KeepsCode(c, c', patches)
            && (ok && count != 0 ==> !ActiveIn(c', begin, count))
  {
    hide Sound, HeadsOk, ChainsOk, ActiveIn, NotePages, OnlyDeactivates;
    DeactivatesNone(c);
    if 0 < count <= WORD - begin {
      LastPage(begin, count);
      NotePagesClears(c, Page(begin), Page(begin + count - 1), begin, begin + count, h, patches);
    }
  }

  /** Noting a range without active code changes nothing. */
  lemma {:induction false} NotePagesIdle(c: Cache, page: u32, last: u32, begin: u32, end: int, h: Hurdles)
    requires Sound(c) && IsPage(page) && IsPage(last) && page <= last && |c.states| == |c.entries|
    requires !ActiveIn(c, begin, end - begin) && begin < page + PAGE_SIZE && begin < end && last < end
    ensures NotePages(c, page, last, begin, end, h) == (c, true)
    decreases last - page
  {
    hide Sound, ActiveIn;
    ActiveInPart(c, begin, end - begin, PartBegin(page, begin), PartEnd(page, end) - PartBegin(page, begin));
    if page != last {
      NextPage(page, last);
      NotePagesIdle(c, page + PAGE_SIZE, last, begin, end, h);
    }
  }

  predicate HasByte(e: Entry, a: int) {
    e.guest <= a < e.guest + e.glen <= WORD
  }

  /** Some written byte on the page belongs to an active entry that tracks its bytes. */
  ghost predicate WrittenOn(c: Cache, page: int, begin: int, end: int)
    requires |c.states| == |c.entries|
  {
    exists i, a | 0 <= i < |c.entries| && begin <= a < end && page <= a < page + 4096 :: HasByte(c.entries[i], a) && Tracked(c, i)
  }

  /** Only pages with overwritten active code become retired or quarantined, and only entries on such pages change their state. */
  ghost predicate SparesTheRest(c: Cache, c': Cache, begin: int, end: int) {
    && |c.states| == |c.entries| == |c'.states|
    && (forall p: u32 :: p in c'.retired || p in c'.quarantined ==> p in c.retired || p in c.quarantined || WrittenOn(c, p, begin, end))
    && (forall i | 0 <= i < |c.states| && c'.states[i] != c.states[i] ::
          exists p: u32 :: IsPage(p) && WrittenOn(c, p, begin, end) && Touches(c.entries[i], p))
  }

  lemma ActivePartIsWritten(c: Cache, page: u32, from: u32, to: int, begin: int, end: int)
    requires |c.states| == |c.entries| && ActiveIn(c, from, to - from)
    requires begin <= from < to <= end && page <= from && to <= page + PAGE_SIZE
    ensures WrittenOn(c, page, begin, end)
  {
    var i :| 0 <= i < |c.entries| && Tracked(c, i) && Spans(c.entries[i]) &&
             Overlap(from, to - from, c.entries[i].guest, c.entries[i].glen);
    assert HasByte(c.entries[i], if from < c.entries[i].guest then c.entries[i].guest else from);
  }

  lemma NotePageSpares(c: Cache, page: u32, from: u32, to: int, begin: int, end: int, h: Hurdles)
    requires Sound(c) && IsPage(page) && begin <= from < to <= end && page <= from && to <= page + PAGE_SIZE
    ensures SparesTheRest(c, NotePage(c, page, from, to, h).0, begin, end)
  {
    hide RetirePage, ActiveIn, WrittenOn, LaidOut, Disciplined, Touches;
    var q, wr, ex := page in h.quarantine, page !in h.unwritable, page !in h.unexecutable;
    RetirementIsExact(c, page, q, wr, ex);
    RetirementOnlyDeactivates(c, page, q, wr, ex);
    if ActiveIn(c, from, to - from) { ActivePartIsWritten(c, page, from, to, begin, end); }
  }

  lemma WrittenBefore(c: Cache, c': Cache, page: int, begin: int, end: int)
    requires OnlyDeactivates(c, c') && WrittenOn(c', page, begin, end)
    ensures WrittenOn(c, page, begin, end)
  {
    var i, a :| 0 <= i < |c.entries| && begin <= a < end && page <= a < page + 4096 && HasByte(c'.entries[i], a) && Tracked(c', i);
    assert Tracked(c, i) && HasByte(c.entries[i], a);
  }

  lemma SparesMore(c: Cache, c1: Cache, c2: Cache, begin: int, end: int)
    requires OnlyDeactivates(c, c1) && SparesTheRest(c, c1, begin, end) && SparesTheRest(c1, c2, begin, end)
    ensures SparesTheRest(c, c2, begin, end)
  {
    hide WrittenOn, Touches, IsPage;
    forall p: u32 | WrittenOn(c1, p, begin, end) ensures WrittenOn(c, p, begin, end) { WrittenBefore(c, c1, p, begin, end); }
  }

  lemma {:induction false} NotePagesSpare(c: Cache, page: u32, last: u32, begin: u32, end: int, h: Hurdles)
    requires Sound(c) && IsPage(page) && IsPage(last) && page <= last
    requires begin < page + PAGE_SIZE && begin < end && last < end <= last + PAGE_SIZE
    ensures SparesTheRest(c, NotePages(c, page, last, begin, end, h).0, begin, end)
    decreases last - page
  {
    hide Sound, HeadsOk, ChainsOk, NotePage, OnlyDeactivates, ActiveIn, IsPage, SparesTheRest;
    var from, to := PartBegin(page, begin), PartEnd(page, end);
    NotePageSpares(c, page, from, to, begin, end, h);
    NotePageClears(c, page, from, to, h, []);
    var (c', ok) := NotePage(c, page, from, to, h);
    if ok && page != last {
      NextPage(page, last);
      NotePagesSpare(c', page + PAGE_SIZE, last, begin, end, h);
      SparesMore(c, c', NotePages(c', page + PAGE_SIZE, last, begin, end, h).0, begin, end);
    }
  }

  /** Noting a write retires no page without overwritten active code, and deactivates nothing away from such pages. */
  lemma NoteSparesTheRest(c: Cache, begin: u32, count: u32, h: Hurdles)
    requires Sound(c)
    ensures SparesTheRest(c, Note(c, begin, count, h).0, begin, begin + count)
  {
    hide Sound, NotePages, WrittenOn, IsPage, Touches;
    DeactivatesNone(c);
    if 0 < count <= WORD - begin {
      LastPage(begin, count);
      PagesAround(begin, count);
      NotePagesSpare(c, Page(begin), Page(begin + count - 1), begin, begin + count, h);
    }
  }

  lemma PagesAround(begin: u32, count: u32)
    requires 0 < count <= WORD - begin
    ensures IsPage(Page(begin)) && IsPage(Page(begin + count - 1)) && begin < Page(begin) + PAGE_SIZE
    ensures Page(begin + count - 1) < begin + count <= Page(begin + count - 1) + PAGE_SIZE
  {
  }

  lemma NotePageSucceeds(c: Cache, page: u32, from: u32, to: int, h: Hurdles)
    requires Sound(c) && IsPage(page) && page <= from < to <= page + PAGE_SIZE && h.unwritable == h.unexecutable == {}
    ensures NotePage(c, page, from, to, h).1
  {
    hide RetirePage, LaidOut, Disciplined, IsPage;
    RetirementIsExact(c, page, page in h.quarantine, true, true);
  }

  lemma {:induction false} NotePagesSucceed(c: Cache, page: u32, last: u32, begin: u32, end: int, h: Hurdles)
    requires Sound(c) && IsPage(page) && IsPage(last) && page <= last
    requires begin < page + PAGE_SIZE && begin < end && last < end <= last + PAGE_SIZE
    requires h.unwritable == h.unexecutable == {}
    ensures NotePages(c, page, last, begin, end, h).1
    decreases last - page
  {
    hide Sound, NotePage, IsPage;
    var from, to := PartBegin(page, begin), PartEnd(page, end);
    NotePageSucceeds(c, page, from, to, h);
    if page != last {
      NextPage(page, last);
      NotePagesSucceed(NotePage(c, page, from, to, h).0, page + PAGE_SIZE, last, begin, end, h);
    }
  }

  /** Noting a write inside the address space succeeds if the host allows the protection changes; one outside fails at once. */
  lemma NoteSucceeds(c: Cache, begin: u32, count: u32, h: Hurdles)
    requires Sound(c) && h.unwritable == h.unexecutable == {}
    ensures Note(c, begin, count, h).1 <==> begin + count <= 0x1_0000_0000
    ensures !Note(c, begin, count, h).1 ==> Note(c, begin, count, h).0 == c
  {
    hide Sound, NotePages, IsPage;
    if 0 < count <= WORD - begin {
      LastPage(begin, count);
      PagesAround(begin, count);
      NotePagesSucceed(c, Page(begin), Page(begin + count - 1), begin, begin + count, h);
    }
  }

  // ---- Releasing watches ----

  ghost predicate Needed(c: Cache, page: u32)
    requires |c.states| == |c.entries|
  {
    ActiveIn(c, page, PAGE_SIZE) || page in c.retired || page in c.quarantined
  }

  /** After a completion, pages of the range that hold nothing of interest are no longer watched. */
  ghost function Release(w: Watches, c: Cache, page: u32, last: u32, refuses: Refusals): Watches
    requires |c.states| == |c.entries| && IsPage(page) && IsPage(last) && page <= last
    decreases last - page
  {
    var w' := if Needed(c, page) then w else Remove(w, page, refuses);
    if page == last then w' else NextPage(page, last); Release(w', c, page + PAGE_SIZE, last, refuses)
  }

  lemma {:induction false} ReleaseKeeps(w: Watches, c: Cache, page: u32, last: u32, refuses: Refusals)
    requires |c.states| == |c.entries| && IsPage(page) && IsPage(last) && page <= last
    requires WatchesOk(w) && !w.pending
    ensures var w' := Release(w, c, page, last, refuses);
            && WatchesOk(w') && !w'.pending
            && forall p <- w.watched.Keys :: Needed(c, p) ==> p in w'.watched
    decreases last - page
  {
    hide WatchesOk, Needed;
    var w' := if Needed(c, page) then w else Remove(w, page, refuses);
    PageUnique(page, page);
    QuietHasNoOpen(w);
    RemoveKeepsOk(w, page, refuses);
    if page != last {
      NextPage(page, last);
      ReleaseKeeps(w', c, page + PAGE_SIZE, last, refuses);
    }
  }

  /** The page is retired or quarantined, or some byte on it belongs to an active entry that tracks its bytes. */
  ghost predicate OfInterest(c: Cache, page: u32)
    requires |c.states| == |c.entries|
  {
    || page in c.retired || page in c.quarantined
    || exists i, a | 0 <= i < |c.entries| && page <= a < page + 4096 :: HasByte(c.entries[i], a) && Tracked(c, i)
  }

  lemma NeededMeans(c: Cache, page: u32)
    requires |c.states| == |c.entries|
    ensures Needed(c, page) <==> OfInterest(c, page)
  {
    if ActiveIn(c, page, PAGE_SIZE) {
      var i :| 0 <= i < |c.entries| && Tracked(c, i) && Spans(c.entries[i]) &&
               Overlap(page, PAGE_SIZE, c.entries[i].guest, c.entries[i].glen);
      assert HasByte(c.entries[i], if page < c.entries[i].guest then c.entries[i].guest else page);
    }
    if i, a :| 0 <= i < |c.entries| && page <= a < page + 4096 && HasByte(c.entries[i], a) && Tracked(c, i) {
      assert Spans(c.entries[i]) && Overlap(page, PAGE_SIZE, c.entries[i].guest, c.entries[i].glen);
    }
  }

  /** The release takes away exactly the watches of the range on pages of no interest, and opens those pages if the host lets it. */
  lemma {:induction false} ReleasesExactly(w: Watches, c: Cache, page: u32, last: u32, refuses: Refusals)
    requires |c.states| == |c.entries| && IsPage(page) && IsPage(last) && page <= last
    requires WatchesOk(w) && !w.pending
    ensures var w' := Release(w, c, page, last, refuses);
            && (forall p: u32 | IsPage(p) :: p in w'.watched <==> p in w.watched && (page <= p <= last ==> OfInterest(c, p)))
            && w'.table.Keys == w.table.Keys
            && forall p: u32 | IsPage(p) && p in w.table ::
                 w'.table[p] == if p in w.watched && p !in w'.watched && (p, ExecuteReadWrite) !in refuses then ExecuteReadWrite
                                else w.table[p]
    decreases last - page
  {
    hide WatchesOk, Needed, OfInterest;
    var w' := if Needed(c, page) then w else Remove(w, page, refuses);
    PageUnique(page, page);
    NeededMeans(c, page);
    QuietHasNoOpen(w);
    RemoveKeepsOk(w, page, refuses);
    WatchedIsMapped(w);
    if page != last {
      NextPage(page, last);
      ReleasesExactly(w', c, page + PAGE_SIZE, last, refuses);
      forall p: u32 | IsPage(p) && page <= p < page + PAGE_SIZE ensures p == page { PageUnique(p, page); }
    } else {
      forall p: u32 | IsPage(p) && page <= p <= last ensures p == page {}
    }
  }

  lemma WatchedIsMapped(w: Watches)
    requires WatchesOk(w)
    ensures w.watched.Keys <= w.table.Keys
  {
  }

  lemma QuietHasNoOpen(w: Watches)
    requires WatchesOk(w) && !w.pending
    ensures w.open == []
  {
  }

  /** The watches once the release loop over the range has ended, which it does below the topmost page. */
  ghost predicate ReleasesTo(w: Watches, c: Cache, p: Pending, refuses: Refusals, w': Watches)
    requires |c.states| == |c.entries|
  {
    && p.count > 0 && p.begin + p.count <= WORD
    && (LastPage(p.begin, p.count); Page(p.begin + p.count - 1) != 0xFFFF_F000)
    && w' == Release(w, c, Page(p.begin), Page(p.begin + p.count - 1), refuses)
  }

  /** The page the release loop looks at after `n` steps; the counter has 32 bits. */
  function Stepped(first: u32, n: nat): u32 {
    Wrap(first + n * PAGE_SIZE)
  }

  lemma SteppedIsPage(first: u32, n: nat)
    requires IsPage(first)
    ensures IsPage(Stepped(first, n))
  {
    var x, q := first + n * PAGE_SIZE, first / PAGE_SIZE + n;
    WrapOfPages(q);
    assert x == q * PAGE_SIZE;
  }

  lemma WrapOfPages(q: nat)
    ensures Wrap(q * PAGE_SIZE) == q % 0x10_0000 * PAGE_SIZE && IsPage(q % 0x10_0000 * PAGE_SIZE)
  {
    var k, r := q / 0x10_0000, q % 0x10_0000;
    assert q * PAGE_SIZE == k * WORD + r * PAGE_SIZE;
  }

  /** The release loop runs while the page is not above the last one: it ends unless that is the topmost page. */
  lemma ReleaseLoopEnds(first: u32, last: u32)
    requires IsPage(first) && IsPage(last) && first <= last
    ensures (exists n: nat :: Stepped(first, n) > last) <==> last != 0xFFFF_F000
  {
    if last == 0xFFFF_F000 {
      forall n: nat ensures Stepped(first, n) <= last {
        SteppedIsPage(first, n);
      }
    } else {
      var n: nat := (last - first) / PAGE_SIZE + 1;
      assert first + n * PAGE_SIZE == last + PAGE_SIZE < WORD;
      assert Stepped(first, n) > last;
    }
  }
}
