/**
 Two runs that end quietly with stale active code. When the ranges of one write in progress span the whole address
 space, the recorded size wraps to zero and a later fault replaces it by a range that misses what was written before.
 And a host write that begins on an open page and runs into a watched one leaves the watched page open.
 */
module ForgottenWrites {
  import opened Words
  import opened CodeCacheTypes
  import opened CodeCaches
  import opened WriteWatches
  import opened GuestWrites
  import opened CoherenceRuns

  const TOP: u32 := 0xFFFF_F000
  const CODE: u32 := 0xFFFF_F800
  const PAGES: PageTable := map[0 := ExecuteRead, 0x1000 := ExecuteRead, TOP := ExecuteRead]
  const WHOLE_PAGE := Decoded(1, true)

  /** One active instruction on the topmost page, and two more watched pages at the bottom. */
  function Watched(): Sys {
    Sys(Cache(0x1000_0000, [0x90], [Entry(CODE, 1, 0, 1)], [EntryState(1, true, true)], {}, {}, []),
        [[0x40]], [[]], [], (a: u32) => 0x40, Watches(PAGES, PAGES, false, [], NO_WRITE), [])
  }

  function Write(page: u32): Step {
    BeginGuestWrite(Fault(page, WHOLE_PAGE, true, false, 0, {}))
  }

  lemma OnTopPage(e: Entry, page: u32)
    requires e == Entry(CODE, 1, 0, 1) && IsPage(page) && Touches(e, page)
    ensures page == TOP
  {
    PageUnique(CODE, page);
    PageUnique(CODE, TOP);
  }

  lemma WatchedIsSound()
    ensures Sound(Watched().cache)
  {
    hide Page, Touches, IsPage;
    var e := Watched().cache.entries[0];
    assert Spans(e);
  }

  lemma WatchedIsCoherent()
    ensures Coherent(Watched()) && HeadsSafe(Watched()) && ChainsSound(Watched())
  {
    hide Sound, Touches, Recorded;
    WatchedIsSound();
    var s := Watched();
    forall page: u32 | IsPage(page) && Touches(s.cache.entries[0], page) ensures page == TOP {
      OnTopPage(s.cache.entries[0], page);
    }
    assert IsPage(0) && IsPage(0x1000) && IsPage(TOP);
  }

  /** A write fault on a further watched page. */
  lemma BeginsOn(s: Sys, page: u32) returns (s': Sys)
    requires IsPage(page) && page in s.w.watched && page !in s.w.open && |s.w.open| < PENDING_CAPACITY
    ensures Next(s, Write(page), s')
    ensures s' == s.(w := s'.w, begun := s.begun + [Written(page, PAGE_SIZE)])
    ensures s'.w.watched == s.w.watched && s'.w.open == s.w.open + [page] && s'.w.pending
    ensures s'.w.write == Extend(s.w, page, PAGE_SIZE, true, false, 0)
    ensures page in s'.w.table && s'.w.table[page] == ExecuteReadWrite
  {
    hide BeginWrite, Extend;
    WholePageBegin(s.w, page);
    PageUnique(page, page);
    s' := s.(w := BeginWrite(s.w, page, WHOLE_PAGE, true, false, 0, {}).0, begun := s.begun + [Written(page, PAGE_SIZE)]);
  }

  lemma Overwrite(s: Sys, memory: Memory) returns (s': Sys)
    requires s.mem == Watched().mem && memory == ((a: u32) => if a == CODE then 0x41 else 0x40)
    requires TOP in s.w.open && TOP in s.w.table && s.w.table[TOP] == ExecuteReadWrite && Written(TOP, PAGE_SIZE) in s.begun
    ensures Next(s, GuestStore(CODE, 1, memory), s') && s' == s.(mem := memory)
  {
    s' := s.(mem := memory);
    PageUnique(CODE, TOP);
  }

  /** What three whole-page faults record, in order. */
  lemma RecordedInTurn(w0: Watches, w1: Watches, w2: Watches, w3: Watches)
    requires !w0.pending && w1.pending && w2.pending
    requires w1.write == Extend(w0, 0, PAGE_SIZE, true, false, 0) && w2.write == Extend(w1, TOP, PAGE_SIZE, true, false, 0)
    requires w3.write == Extend(w2, 0x1000, PAGE_SIZE, true, false, 0)
    ensures w3.write.begin == 0 && w3.write.count == 0x2000
  {
  }

  /** A run that ends quietly with a stale active entry. */
  lemma WholeSpaceRunGoesStale() returns (states: seq<Sys>, steps: seq<Step>)
    ensures |states| == |steps| + 1 && Run(states, steps)
    ensures var s := states[|steps|];
            && !s.w.pending && Live(s, 0) && |s.sources| == 1
            && s.sources[0] != Bytes(s.mem, s.cache.entries[0].guest, s.cache.entries[0].glen)
  {
    hide Next, Coherent, HeadsSafe, ChainsSound, Extend, Sound, IsPage;
    var s0 := Watched();
    WatchedIsCoherent();
    var memory := (a: u32) => if a == CODE then 0x41 else 0x40;
    PagesAreAligned();
    var s1 := BeginsOn(s0, 0);
    var s2 := BeginsOn(s1, TOP);
    assert s2.w.open == [0, TOP] && s2.begun[1] == Written(TOP, PAGE_SIZE);
    var s3 := Overwrite(s2, memory);
    var s4 := BeginsOn(s3, 0x1000);
    RecordedInTurn(s0.w, s1.w, s2.w, s4.w);
    var s5 := Finish(s4);
    states := [s0, s1, s2, s3, s4, s5];
    steps := [Write(0), Write(TOP), GuestStore(CODE, 1, memory), Write(0x1000), CompleteGuestWrite({}, Hurdles({}, {}, {}))];
    assert s5.mem == memory && Wrap(CODE + 0) == CODE;
    assert Bytes(memory, CODE, 1)[0] == memory(CODE) == 0x41;
  }

  lemma PagesAreAligned()
    ensures IsPage(0) && IsPage(TOP) && IsPage(0x1000) && Sound(Watched().cache)
  {
    WatchedIsCoherent();
  }

  /** The completion reports the two bottom pages only. */
  lemma Finish(s: Sys) returns (s': Sys)
    requires Sound(s.cache) && s.w.pending && s.w.open != [] && s.w.write.begin == 0 && s.w.write.count == 0x2000
    requires s.cache == Watched().cache
    ensures Next(s, CompleteGuestWrite({}, Hurdles({}, {}, {})), s')
    ensures s'.cache == s.cache && s'.sources == s.sources && s'.excluded == s.excluded && s'.mem == s.mem && !s'.w.pending
  {
    hide Sound, Protect, Remove;
    var (w, done) := CompleteWrite(s.w, {});
    var h := Hurdles({}, {}, {});
    PageUnique(0, 0);
    PageUnique(0x1FFF, 0x1000);
    assert NotePages(s.cache, 0x1000, 0x1000, 0, 0x2000, h) == (s.cache, true);
    assert Note(s.cache, 0, 0x2000, h) == (s.cache, true);
    s' := s.(w := Release(w, s.cache, 0, 0x1000, {}), begun := []);
    ReleaseStaysQuiet(w, s.cache, 0, 0x1000, {});
  }

  lemma {:induction false} ReleaseStaysQuiet(w: Watches, c: Cache, page: u32, last: u32, refuses: Refusals)
    requires |c.states| == |c.entries| && IsPage(page) && IsPage(last) && page <= last && !w.pending
    ensures !Release(w, c, page, last, refuses).pending
    decreases last - page
  {
    if page != last {
      NextPage(page, last);
      ReleaseStaysQuiet(if Needed(c, page) then w else Remove(w, page, refuses), c, page + PAGE_SIZE, last, refuses);
    }
  }

  // ---- A host write across pages ----

  const LOW: u32 := 0x1000
  const HIGH: u32 := 0x2000
  const INSN: u32 := 0x2800

  /** An open page, and behind it a watched one with an active instruction in its middle. */
  function Neighbours(): Sys {
    Sys(Cache(0x1000_0000, [0x90], [Entry(INSN, 1, 0, 1)], [EntryState(1, true, true)], {}, {}, []),
        [[0x40]], [[]], [], (a: u32) => 0x40,
        Watches(map[LOW := ExecuteReadWrite, HIGH := ExecuteRead], map[HIGH := ExecuteReadWrite], false, [], NO_WRITE), [])
  }

  lemma OnHighPage(e: Entry, page: u32)
    requires e == Entry(INSN, 1, 0, 1) && IsPage(page) && Touches(e, page)
    ensures page == HIGH
  {
    PageUnique(INSN, page);
    PageUnique(INSN, HIGH);
  }

  lemma NeighboursIsCoherent()
    ensures Coherent(Neighbours()) && HeadsSafe(Neighbours()) && ChainsSound(Neighbours())
  {
    hide Touches, Recorded, Page;
    var s := Neighbours();
    assert Spans(s.cache.entries[0]);
    forall page: u32 | IsPage(page) && Touches(s.cache.entries[0], page) ensures page == HIGH {
      OnHighPage(s.cache.entries[0], page);
    }
    assert IsPage(HIGH);
  }

  /** Two bytes over the page boundary, which meet no code. */
  lemma HostWriteOpens() returns (s': Sys)
    ensures Next(Neighbours(), HostStore(0x1FFF, 2, Neighbours().mem, true, Hurdles({}, {}, {})), s')
    ensures s' == Neighbours().(w := s'.w)
    ensures s'.w == Neighbours().w.(table := s'.w.table) && HIGH in s'.w.table && s'.w.table[HIGH] == ExecuteReadWrite
  {
    hide Sound, Reprotect, NotePages;
    var s, h := Neighbours(), Hurdles({}, {}, {});
    NeighboursIsCoherent();
    PageUnique(0x1FFF, LOW);
    PageUnique(0x2000, HIGH);
    forall p: u32 | IsPage(p) && InRange(p, 0x1FFF, 2) ensures p == LOW || p == HIGH {
      if p <= 0x1FFF { PageUnique(0x1FFF, p); } else { PageUnique(0x2000, p); }
    }
    assert Note(s.cache, 0x1FFF, 2, h) == (s.cache, true) by { NothingToNote(); }
    s' := s.(w := s.w.(table := Reprotect(s.w.table, 0x1FFF, 2, ExecuteReadWrite)));
    OpensHigh(s.w.table);
  }

  lemma NothingToNote()
    ensures Sound(Neighbours().cache) && Note(Neighbours().cache, 0x1FFF, 2, Hurdles({}, {}, {})) == (Neighbours().cache, true)
  {
    hide Sound, Page;
    NeighboursIsCoherent();
    var c := Neighbours().cache;
    PageUnique(0x1FFF, LOW);
    PageUnique(0x2000, HIGH);
    assert IsPage(LOW) && IsPage(HIGH);
    NotePagesIdle(c, LOW, HIGH, 0x1FFF, 0x2001, Hurdles({}, {}, {}));
  }

  lemma OpensHigh(table: PageTable)
    requires HIGH in table
    ensures HIGH in Reprotect(table, 0x1FFF, 2, ExecuteReadWrite)
    ensures Reprotect(table, 0x1FFF, 2, ExecuteReadWrite)[HIGH] == ExecuteReadWrite
  {
  }

  /** A run of one host write and one store that ends quietly with a stale active entry, whose page watching it again does not close. */
  lemma HostWriteRunGoesStale() returns (states: seq<Sys>, steps: seq<Step>)
    ensures |states| == |steps| + 1 == 3 && Run(states, steps) && steps[0].HostStore? && steps[1].GuestStore?
    ensures var s := states[2];
            && !s.w.pending && Live(s, 0) && |s.sources| == 1
            && s.sources[0] != Bytes(s.mem, s.cache.entries[0].guest, s.cache.entries[0].glen)
            && forall refuses :: Watch(s.w, INSN, refuses) == (s.w, true)
  {
    hide Next, Coherent, HeadsSafe, ChainsSound, Sound, Page;
    var s0 := Neighbours();
    NeighboursIsCoherent();
    var s1 := HostWriteOpens();
    var memory := (a: u32) => if a == INSN then 0x41 else 0x40;
    var s2 := s1.(mem := memory);
    StoreOnOpenPage(s1, memory);
    PageUnique(INSN, HIGH);
    states := [s0, s1, s2];
    steps := [HostStore(0x1FFF, 2, s0.mem, true, Hurdles({}, {}, {})), GuestStore(INSN, 1, memory)];
    assert Wrap(INSN + 0) == INSN && Bytes(memory, INSN, 1)[0] == memory(INSN) == 0x41;
  }

  lemma StoreOnOpenPage(s: Sys, memory: Memory)
    requires s.mem == Neighbours().mem && memory == ((a: u32) => if a == INSN then 0x41 else 0x40)
    requires s.w.open == [] && HIGH in s.w.table && s.w.table[HIGH] == ExecuteReadWrite
    ensures Next(s, GuestStore(INSN, 1, memory), s.(mem := memory))
  {
    PageUnique(INSN, HIGH);
  }
}
