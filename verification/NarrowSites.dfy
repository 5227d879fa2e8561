/**
 The immediate of a short compare (`pushfd; cmp reg, imm32`, or one with a memory operand without displacement)
 starts on the fourth byte of its entry, inside the five bytes a relink rewrites. Patching the site of a relinked
 entry can break its jump.
 */
module NarrowSites {
  import opened Words
  import opened CodeCacheTypes
  import opened InlineCaches
  import opened CodeCaches
  import opened Patching
  import opened SitePlacement
  import opened WriteWatches
  import opened CoherenceRuns

  const SLOT := Slot(1, 3, 7, 15)
  const SITE := Site(19, 0, [SLOT], 0)
  const STALE := Entry(0x1000, 2, 0, 21)
  const LIVE := Entry(0x1000, 2, 64, 1)
  const GUARD: seq<u8> := [0xE9, 7, 0, 0, 0, 0x90]

  /** A retired one-slot `jmp eax` that was relinked to its second translation. */
  function RelinkedJump(): (c: Cache)
    ensures |c.bytes| == 128
  {
    var code: seq<u8> := Put(seq(128, _ => 0), 0, Jump(0, 64));
    Cache(0x10_0000, Put(code, 7, GUARD), [STALE, LIVE],
          [EntryState(1, false, true), EntryState(2, true, true)], {}, {}, [SITE])
  }

  lemma RelinkedJumpIsSound()
    ensures Sound(RelinkedJump()) && HeadsOk(RelinkedJump())
  {
    var c := RelinkedJump();
    var code: seq<u8> := Put(seq(128, _ => 0), 0, Jump(0, 64));
    PutReads(seq(128, _ => 0), 0, Jump(0, 64));
    PutKeeps(code, 7, GUARD, 0, 5);
    assert ForwardsTo(c, 0, 1);
    assert SlotLaid(SLOT, 128) && Laid(SITE, 128);
    assert SlotSparesEntry(SLOT, STALE) && SlotSparesEntry(SLOT, LIVE);
  }

  /** The target changes the top byte of the jump, which then leads out of the cache. */
  lemma NotSpared()
    ensures Sound(RelinkedJump()) && SlotLaid(SLOT, 128) && !Spared(RelinkedJump(), SLOT, 0x7F7F_7F7F)
  {
    hide Sound, HeadsOk;
    RelinkedJumpIsSound();
    var c, t: u32 := RelinkedJump(), 0x7F7F_7F7F;
    PutAt(Put(seq(128, _ => 0), 0, Jump(0, 64)), 7, GUARD, 0);
    PutAt(seq(128, _ => 0), 0, Jump(0, 64), 0);
    PutAt(c.bytes, SLOT.imm, Bytes32(t), 4);
    assert !Apart(SLOT.imm, 4, STALE.off, HeadLength(STALE));
    assert !JumpsOn(c, SLOT, t, 0) by {
      forall j | 0 <= j < 2 ensures Put(c.bytes, SLOT.imm, Bytes32(t))[0..5] != Jump(0, c.entries[j].off) {
        assert Put(c.bytes, SLOT.imm, Bytes32(t))[0..5][4] == 0x7F;
        assert Jump(0, c.entries[j].off)[4] == Bytes32(Wrap(c.entries[j].off - 5))[3];
      }
    }
  }

  /** A patch whose target does not spare the head leaves an inactive entry that jumps out of the cache. */
  lemma UnsparedPatchMisdirects(target: u32)
    ensures var c := RelinkedJump();
            && Sound(c) && HeadsOk(c) && Laid(SITE, 128)
            && var c' := PatchSite(c, 0, 0x7F7F_7F7F, target);
            Sound(c') && !HeadsOk(c')
  {
    hide Sound, HeadsOk, Spared, PatchSite;
    RelinkedJumpIsSound();
    NotSpared();
    assert Laid(SITE, 128);
    PatchKeepsHeads(RelinkedJump(), 0, 0x7F7F_7F7F, target, true);
  }

  // ---- A run that gets there ----

  const PAGE: u32 := 0x1000
  const BASE: u32 := 0x10_0000

  /** The image with the site, and a second translation of the same address without one. */
  function First(): (img: Image)
    ensures |img.bytes| == 64
  {
    Image(Put(seq(64, _ => 0), 7, GUARD), [STALE], [SITE])
  }

  const SECOND := Image(seq(64, _ => 0), [Entry(0x1000, 2, 0, 1)], [])

  function Quiet(c: Cache, sources: seq<seq<u8>>): Sys {
    Sys(c, sources, seq(|sources|, _ => []), [map[]], (a: u32) => 0x90,
        Watches(map[PAGE := ExecuteRead], map[PAGE := ExecuteReadWrite], false, [], NO_WRITE), [])
  }

  function Placed(): Sys {
    Quiet(Cache(BASE, First().bytes, [STALE], [EntryState(1, true, true)], {}, {}, [SITE]), [[0x90, 0x90]])
  }

  function Retired(): Sys {
    Quiet(Cache(BASE, Put(First().bytes, 0, [INT3]), [STALE], [EntryState(1, false, true)], {PAGE}, {}, [SITE]), [[0x90, 0x90]])
  }

  function Again(): Sys {
    Quiet(RelinkedJump(), [[0x90, 0x90], [0x90, 0x90]])
  }

  lemma OnlyPage(e: Entry, page: u32)
    requires e.guest == 0x1000 && e.glen == 2 && IsPage(page)
    ensures Touches(e, page) <==> page == PAGE
  {
    if Touches(e, page) { PageUnique(0x1000, page); }
  }

  lemma Bytes90(n: nat)
    ensures n == 2 ==> Bytes((a: u32) => 0x90, 0x1000, n) == [0x90, 0x90]
  {
  }

  lemma PlacedIsStarted()
    ensures Started(Placed(), First(), 1)
  {
    hide Touches, Word32, Land;
    var s := Placed();
    assert SlotLaid(SLOT, 64) && Laid(SITE, 64) && SlotSparesEntry(SLOT, STALE);
    assert Spans(STALE) && IsPage(PAGE);
    FirstIsFresh();
    Bytes90(2);
    forall page: u32 | IsPage(page) && Touches(STALE, page) ensures page in s.w.watched { OnlyPage(STALE, page); }
  }

  lemma FirstIsFresh()
    ensures Laid(SITE, 64) && FreshImage(First())
  {
    hide Land;
    assert SlotLaid(SLOT, 64);
    var b := First().bytes;
    PutReads(seq(64, _ => 0), 7, GUARD);
    JmpReads(b, 7, 7);
    LandsOn(12, 19);
  }

  lemma PlacedIsCoherent()
    ensures Coherent(Placed()) && Tagged(Placed()) && HeadsSafe(Placed()) && ChainsSound(Placed())
  {
    hide Started, Coherent, Tagged, HeadsSafe, ChainsSound;
    PlacedIsStarted();
    StartIsCoherent(Placed(), First(), 1);
  }

  lemma GuardNotLearned(b: seq<u8>)
    requires |b| == 64 && b[7] == JMP
    ensures Laid(SITE, 64) && ResetSites(b, [SITE], PAGE, 1) == b
  {
    assert SlotLaid(SLOT, 64);
    assert ResetSlots(b, SITE, PAGE, 1) == ResetSlot(b, GuardTarget(SITE), SLOT, PAGE) == b;
  }

  lemma SelectsStale()
    ensures Selected(Placed().cache, PAGE, 1) == [0] && Known(Placed().cache, PAGE)
    ensures Deactivated(Placed().cache, PAGE) == [EntryState(1, false, true)]
  {
    var c := Placed().cache;
    assert IsPage(PAGE);
    OnlyPage(STALE, PAGE);
    assert Selects(c, PAGE, 0);
    assert Selected(c, PAGE, 0) == [];
  }

  lemma RetiredCode()
    ensures Sound(Placed().cache) && RetiredBytes(Placed().cache, PAGE) == Put(First().bytes, 0, [INT3])
  {
    hide Sound, Put, Selected, ResetSites;
    PlacedIsCoherent();
    SelectsStale();
    var c := Placed().cache;
    var b := Put(c.bytes, 0, [INT3]);
    assert [0][..0] == [];
    assert CloseHeads(c.bytes, c.entries, [0]) == b;
    PutAt(c.bytes, 0, [INT3], 7);
    PutAt(seq(64, _ => 0), 7, GUARD, 7);
    GuardNotLearned(b);
  }

  /** Retiring the page closes the head; the guard has learned nothing. */
  lemma RetiresPage()
    ensures Next(Placed(), RetireOne(PAGE, false, true, true), Retired())
  {
    hide Sound, Put, Selected, Known, Deactivated, RetiredBytes;
    RetiredCode();
    SelectsStale();
    assert IsPage(PAGE);
  }

  lemma Activated()
    ensures Activates(Retired().cache, SECOND.entries[0], 0x1000) && TracksBytes(SECOND.entries[0], [])
    ensures Page(0x1000) == PAGE && IsPage(PAGE)
  {
    var e := SECOND.entries[0];
    assert Page(0x1000) == PAGE && Spans(e);
    forall page: u32 | IsPage(page) && Touches(e, page) ensures page == PAGE { OnlyPage(e, page); }
  }

  lemma CanAppend()
    ensures Appendable(Retired().cache, SECOND, 0x1000)
  {
    hide Sound, Activates, Next;
    PlacedIsCoherent();
    RetiresPage();
    StepKeepsOrdered(Placed(), RetireOne(PAGE, false, true, true), Retired());
    Activated();
    assert SECOND.entries[0].guest == 0x1000;
  }

  /** The bytes before and after relinking differ in the jump only. */
  lemma RelinkedBytes(x: nat)
    requires x < 128
    ensures RelinkedJump().bytes[x] == if x < 5 then Jump(0, 64)[x] else if x < 64 then Retired().cache.bytes[x] else 0
  {
    hide Jump, Put;
    PutAt(Put(seq(128, _ => 0), 0, Jump(0, 64)), 7, GUARD, x);
    PutAt(seq(128, _ => 0), 0, Jump(0, 64), x);
    if x < 64 {
      PutAt(First().bytes, 0, [INT3], x);
      PutAt(seq(64, _ => 0), 7, GUARD, x);
    }
  }

  lemma HeadIsRelinked(x: nat)
    requires x < 5
    ensures InRelinkedHead(Retired().cache, SECOND, 0x1000, x)
  {
    hide Activates;
    Activated();
    assert Relinks(Retired().cache, SECOND, 0x1000, 0, 0);
  }

  lemma RelinksStale()
    requires Appendable(Retired().cache, SECOND, 0x1000)
    ensures Relinked(Retired().cache, SECOND, 0x1000, RelinkedJump().bytes[..64])
    ensures ClosedImage(Retired().cache, SECOND, 0x1000, RelinkedJump().bytes[64..])
  {
    hide Jump, Put, Activates, Sound, LaidOut;
    var c, b := Retired().cache, RelinkedJump().bytes;
    Activated();
    forall x | 0 <= x < 128 { RelinkedBytes(x); }
    assert Relinks(c, SECOND, 0x1000, 0, 0);
    assert b[..64][0..5] == Jump(0, 64);
    forall x | 0 <= x < 64 ensures InRelinkedHead(c, SECOND, 0x1000, x) || b[..64][x] == c.bytes[x] {
      if x < 5 { HeadIsRelinked(x); }
    }
    assert b[64..] == SECOND.bytes;
  }

  lemma SecondIsAppended()
    requires Appendable(Retired().cache, SECOND, 0x1000)
    ensures Appended(Retired().cache, SECOND, 0x1000, [], 2, RelinkedJump())
  {
    hide Sound, LaidOut, Activates, TracksBytes, Relinked, ClosedImage, Put, Page, Laid;
    Activated();
    RelinksStale();
    var c, c' := Retired().cache, RelinkedJump();
    assert c'.entries == c.entries + ShiftEntries(SECOND.entries, 64);
    assert c'.states == c.states + NewStates(c, SECOND, 0x1000, [], 2);
    assert c'.sites == c.sites + ShiftSites(SECOND.sites, 64);
    assert Revives(c, SECOND, 0x1000, []);
    assert c.retired - {Page(0x1000)} == {};
  }

  lemma OnlyCandidate()
    ensures CandidatePages(Retired().cache, SECOND, 0x1000, [], [PAGE])
  {
    hide Activates, TracksBytes, Touches;
    Activated();
    forall page: u32 | IsPage(page) ensures Touches(SECOND.entries[0], page) <==> page == PAGE {
      OnlyPage(SECOND.entries[0], page);
    }
  }

  /** The second translation is appended and the closed head relinked to it. */
  lemma AppendsSecond()
    ensures Next(Retired(), Append(SECOND, 0x1000, [], 2, [PAGE], {}, RelinkedJump()), Again())
  {
    hide Appendable, Appended, CandidatePages, RelinkedJump, Page;
    CanAppend();
    Activated();
    SecondIsAppended();
    OnlyCandidate();
    Bytes90(2);
    assert Page(PAGE) == PAGE by { PageUnique(PAGE, PAGE); }
    assert Install(Retired().w, [PAGE], {}) == (Retired().w, true);
    assert Sources(Retired().mem, SECOND.entries) == [[0x90, 0x90]];
  }

  /** From the first placement: its page is retired, the code translated again, and the old site patched. */
  lemma UnsparedRunMisdirects(address: u32) returns (states: seq<Sys>, steps: seq<Step>)
    ensures |states| == |steps| + 1 && Run(states, steps) && Started(states[0], First(), 1)
    ensures steps == [RetireOne(PAGE, false, true, true), Append(SECOND, 0x1000, [], 2, [PAGE], {}, RelinkedJump()),
                      PatchCache(0, 0x7F7F_7F7F, address, true)]
    ensures HeadsSafe(states[2]) && Ordered(states[3]) && !HeadsSafe(states[3])
  {
    hide Next, Coherent, Sound, HeadsOk, Started, RelinkedJump, Placed, Retired, PatchOutcome, Recall, Spared, ChainsSound, Tagged;
    PlacedIsStarted();
    PlacedIsCoherent();
    RetiresPage();
    AppendsSecond();
    var patched := PatchesOverJump(address);
    states := [Placed(), Retired(), Again(), patched];
    steps := [RetireOne(PAGE, false, true, true), Append(SECOND, 0x1000, [], 2, [PAGE], {}, RelinkedJump()),
              PatchCache(0, 0x7F7F_7F7F, address, true)];
  }

  lemma PatchesOverJump(address: u32) returns (patched: Sys)
    ensures Next(Again(), PatchCache(0, 0x7F7F_7F7F, address, true), patched)
    ensures HeadsSafe(Again()) && Ordered(patched) && !HeadsSafe(patched)
  {
    hide Sound, HeadsOk, Spared, PatchBytes, Views;
    RelinkedJumpIsSound();
    NotSpared();
    assert Laid(SITE, 128);
    PatchKeepsHeads(RelinkedJump(), 0, 0x7F7F_7F7F, address, true);
    var s := Again();
    patched := s.(cache := PatchOutcome(s.cache, 0, 0x7F7F_7F7F, address, true),
                  patches := Recall(s.cache, s.patches, 0, 0x7F7F_7F7F, address, true));
  }
}
