/** What retiring a guest page does to the cache. */
module Retirement {
  import opened Words
  import opened CodeCacheTypes
  import opened InlineCaches
  import opened CodeCaches
  import opened InlineCacheChains

  /** The relinkable head of the entry. */
  function Head(b: seq<u8>, e: Entry): seq<u8>
    requires e.off + e.elen <= |b| && e.elen >= 1
  {
    b[e.off..e.off + HeadLength(e)]
  }

  lemma EqualHeads(b: seq<u8>, b': seq<u8>, e: Entry)
    requires |b| == |b'| && e.off + e.elen <= |b| && e.elen >= 1 && Head(b, e) == Head(b', e)
    ensures b[e.off] == b'[e.off]
    ensures e.elen >= 5 ==> b[e.off..e.off + 5] == b'[e.off..e.off + 5]
  {
    assert b[e.off] == Head(b, e)[0] && b'[e.off] == Head(b', e)[0];
  }

  // ---- The guards ----

  predicate SiteSparesEntry(s: Site, e: Entry) {
    forall i | 0 <= i < |s.slots| :: SlotSparesEntry(s.slots[i], e)
  }

  lemma {:induction false} ResetSlotsKeepsHead(b: seq<u8>, s: Site, page: u32, k: nat, e: Entry)
    requires Laid(s, |b|) && k <= |s.slots| && SiteSparesEntry(s, e)
    requires e.off + e.elen <= |b| && e.elen >= 1
    ensures Head(ResetSlots(b, s, page, k), e) == Head(b, e)
    decreases k
  {
    hide ResetBytes, Put, Page, GuardTarget;
    if k > 0 {
      ResetSlotsKeepsHead(b, s, page, k - 1, e);
      var before, slot := ResetSlots(b, s, page, k - 1), s.slots[k - 1];
      assert SlotSparesEntry(slot, e);
      if ResetSlots(b, s, page, k) != before {
        PutKeeps(before, slot.guard, ResetBytes(slot, GuardTarget(s)), e.off, HeadLength(e));
      }
    }
  }

  lemma {:induction false} ResetSitesKeepsHead(b: seq<u8>, sites: seq<Site>, page: u32, k: nat, e: Entry)
    requires k <= |sites| && forall m | 0 <= m < |sites| :: Laid(sites[m], |b|) && SiteSparesEntry(sites[m], e)
    requires e.off + e.elen <= |b| && e.elen >= 1
    ensures Head(ResetSites(b, sites, page, k), e) == Head(b, e)
    decreases k
  {
    hide ResetSlots, SiteSparesEntry, Laid;
    if k > 0 {
      ResetSitesKeepsHead(b, sites, page, k - 1, e);
      ResetSlotsKeepsHead(ResetSites(b, sites, page, k - 1), sites[k - 1], page, |sites[k - 1].slots|, e);
    }
  }

  // ---- The closed heads ----

  lemma {:induction false} CloseHeadsAt(b: seq<u8>, entries: seq<Entry>, closed: seq<nat>, x: nat)
    requires forall i <- closed :: i < |entries| && entries[i].off < |b|
    requires x < |b|
    ensures CloseHeads(b, entries, closed)[x] == if exists i <- closed :: entries[i].off == x then INT3 else b[x]
    decreases |closed|
  {
    if closed != [] {
      var last := |closed| - 1;
      assert closed[last] in closed && forall i <- closed[..last] :: i in closed;
      assert forall i <- closed :: i == closed[last] || i in closed[..last];
      CloseHeadsAt(b, entries, closed[..last], x);
      PutAt(CloseHeads(b, entries, closed[..last]), entries[closed[last]].off, [INT3], x);
    }
  }

  /** A selected entry is closed; the head of every other entry is untouched. */
  lemma HeadAfterRetirement(c: Cache, page: u32, i: nat)
    requires Sound(c) && i < |c.entries|
    ensures if Selects(c, page, i) then RetiredBytes(c, page)[c.entries[i].off] == INT3
            else Head(RetiredBytes(c, page), c.entries[i]) == Head(c.bytes, c.entries[i])
  {
    hide Room, Disciplined, Put, Overlap, ResetSites, CloseHeads;
    var e, closed := c.entries[i], Selected(c, page, |c.entries|);
    var b := CloseHeads(c.bytes, c.entries, closed);
    assert forall m | 0 <= m < |c.sites| :: SiteSparesEntry(c.sites[m], e);
    ResetSitesKeepsHead(b, c.sites, page, |c.sites|, e);
    EqualHeads(RetiredBytes(c, page), b, e);
    if Selects(c, page, i) {
      CloseHeadsAt(c.bytes, c.entries, closed, e.off);
    } else {
      forall x | e.off <= x < e.off + HeadLength(e) ensures b[x] == c.bytes[x] {
        CloseHeadsAt(c.bytes, c.entries, closed, x);
        assert forall m <- closed :: m != i && (m < i ==> c.entries[m].off + c.entries[m].elen <= e.off);
      }
      assert Head(b, e) == Head(c.bytes, e);
    }
  }

  /** Whatever of the states changes by deactivating selected entries, inactive heads stay safe. */
  lemma RetirementKeepsInactive(c: Cache, page: u32, c': Cache, i: nat)
    requires Sound(c) && HeadsOk(c) && i < |c.entries|
    requires c'.entries == c.entries && c'.bytes == RetiredBytes(c, page)
    requires c'.states == c.states || c'.states == Deactivated(c, page)
    requires !c'.states[i].active
    ensures InactiveOk(c', i)
  {
    hide Room, Disciplined, Touches, RetiredBytes, Jump, Selected;
    HeadAfterRetirement(c, page, i);
    if !Selects(c, page, i) {
      assert InactiveOk(c, i);
      EqualHeads(c.bytes, c'.bytes, c.entries[i]);
      if c.bytes[c.entries[i].off] != INT3 {
        var j :| 0 <= j < |c.entries| && ForwardsTo(c, i, j) && (c.states[j].active || c.bytes[c.entries[j].off] == INT3);
        HeadAfterRetirement(c, page, j);
        if !Selects(c, page, j) { EqualHeads(c.bytes, c'.bytes, c.entries[j]); }
        assert ForwardsTo(c', i, j);
      }
    }
  }

  lemma MarksKeepInactive(c: Cache, c': Cache, i: nat)
    requires Sound(c) && HeadsOk(c) && i < |c.entries| && !c.states[i].active
    requires c' == c.(retired := c'.retired, quarantined := c'.quarantined)
    ensures InactiveOk(c', i)
  {
    hide Room, Disciplined, Jump, Spans, Laid, SitesApart, SlotSparesEntry;
    assert InactiveOk(c, i);
    assert forall j | 0 <= j < |c.entries| :: ForwardsTo(c, i, j) <==> ForwardsTo(c', i, j);
  }

  /** Retirement, successful or not, keeps inactive heads safe. */
  lemma RetirementKeepsHeads(c: Cache, page: u32, quarantine: bool, writable: bool, executable: bool)
    requires Sound(c) && HeadsOk(c) && IsPage(page)
    ensures var c' := RetirePage(c, page, quarantine, writable, executable).0; Sound(c') && HeadsOk(c')
  {
    hide Sound, RetiredBytes, InactiveOk;
    var c' := RetirePage(c, page, quarantine, writable, executable).0;
    RetirementKeepsSound(c, page, quarantine, writable, executable);
    SoundIsLaidOut(c);
    SoundIsLaidOut(c');
    forall i | 0 <= i < |c'.entries| && !c'.states[i].active ensures InactiveOk(c', i) {
      if c'.bytes == c.bytes && c'.states == c.states {
        MarksKeepInactive(c, c', i);
      } else {
        RetirementKeepsInactive(c, page, c', i);
      }
    }
  }

  lemma SoundIsLaidOut(c: Cache)
    requires Sound(c)
    ensures LaidOut(|c.bytes|, c.entries, c.sites) && |c.states| == |c.entries|
  {
  }

  /** Retirement, successful or not, keeps layout and activation discipline. */
  lemma RetirementKeepsSound(c: Cache, page: u32, quarantine: bool, writable: bool, executable: bool)
    requires Sound(c) && IsPage(page)
    ensures Sound(RetirePage(c, page, quarantine, writable, executable).0)
  {
    hide RetiredBytes, Page, Spans, Laid, SitesApart, SlotSparesEntry;
    var c' := RetirePage(c, page, quarantine, writable, executable).0;
    forall i | 0 <= i < |c'.entries| ensures Disciplined(c', i) {
      assert Disciplined(c, i);
      StartsOnPage(c, i, page);
    }
  }

  /** An active entry touches the page it starts on. */
  lemma StartsOnPage(c: Cache, i: nat, page: u32)
    requires Sound(c) && i < |c.entries| && IsPage(page)
    ensures Tracked(c, i) && Page(c.entries[i].guest) == page ==> Selects(c, page, i)
    ensures Selects(c, page, i) ==> i in Selected(c, page, |c.entries|)
  {
  }

  /** A successful retirement deactivates exactly the byte-tracking entries that touch the page. */
  lemma RetirementIsExact(c: Cache, page: u32, quarantine: bool, writable: bool, executable: bool)
    requires Sound(c) && IsPage(page)
    ensures var (c', retired) := RetirePage(c, page, quarantine, writable, executable);
            if retired then
              && !ActiveIn(c', page, PAGE_SIZE)
              && (forall i | 0 <= i < |c.entries| && !Selects(c, page, i) :: c'.states[i] == c.states[i])
              && c'.retired == c.retired + {page}
              && c'.quarantined == c.quarantined + (if quarantine then {page} else {})
            else
              c'.states == c.states && c'.retired == c.retired && c'.quarantined == c.quarantined
    ensures RetirePage(c, page, quarantine, writable, executable).1 <==>
            && (ActiveIn(c, page, PAGE_SIZE) ==> writable && executable)
            && exists i | 0 <= i < |c.entries| && c.states[i].tracks ::
                 var e := c.entries[i];
                 0 < e.glen && e.guest + e.glen <= WORD && page < e.guest + e.glen && e.guest < page + 4096
  {
    hide RetiredBytes, LaidOut, Disciplined;
    assert ActiveIn(c, page, PAGE_SIZE) <==> Selected(c, page, |c.entries|) != [] by {
      var chosen := Selected(c, page, |c.entries|);
      if chosen != [] { assert chosen[0] in chosen && Selects(c, page, chosen[0]); }
      forall i: nat | i < |c.entries| && Tracked(c, i) && Spans(c.entries[i]) && Overlap(page, PAGE_SIZE, c.entries[i].guest, c.entries[i].glen)
        ensures i in chosen
      {
        assert Selects(c, page, i);
      }
    }
    assert ActiveIn(c, page, PAGE_SIZE) ==> Known(c, page);
  }

  // ---- The inline-cache sites ----

  /** The guard resets of one site leave the slots of another alone. */
  lemma {:induction false} ResetSlotsElsewhere(b: seq<u8>, s: Site, page: u32, k: nat, other: Slot)
    requires Laid(s, |b|) && k <= |s.slots| && SlotLaid(other, |b|)
    requires forall i | 0 <= i < |s.slots| :: SlotsApart(other, s.slots[i])
    ensures SameSlot(b, ResetSlots(b, s, page, k), other)
    decreases k
  {
    hide ResetSlot, SlotsApart, SameSlot, GuardTarget, Put;
    if k == 0 {
      SameSlotRefl(b, other);
    } else {
      ResetSlotsElsewhere(b, s, page, k - 1, other);
      var before := ResetSlots(b, s, page, k - 1);
      ResetSlotElsewhere(before, GuardTarget(s), s.slots[k - 1], page, other);
      SameSlotTrans(b, before, ResetSlots(b, s, page, k), other);
    }
  }

  lemma SameSlotRefl(b: seq<u8>, slot: Slot)
    requires SlotLaid(slot, |b|)
    ensures SameSlot(b, b, slot)
  {
  }

  lemma ApartBothWays(a: Site, b: Site)
    requires SitesApart(a, b)
    ensures SitesApart(b, a)
  {
    forall i, j | 0 <= i < |b.slots| && 0 <= j < |a.slots| ensures SlotsApart(b.slots[i], a.slots[j]) {
      assert SlotsApart(a.slots[j], b.slots[i]);
    }
  }

  predicate AllApart(sites: seq<Site>) {
    forall k, l | 0 <= k < l < |sites| :: SitesApart(sites[k], sites[l])
  }

  /** Slot `i` of site `k` once the first `m` sites have been visited. */
  lemma {:induction false} ResetSitesView(b: seq<u8>, base: u32, sites: seq<Site>, page: u32, m: nat, k: nat, i: nat)
    requires m <= |sites| && (forall l | 0 <= l < |sites| :: Laid(sites[l], |b|)) && AllApart(sites)
    requires k < |sites| && Laid(sites[k], |b|) && i < |sites[k].slots|
    ensures ResetOutcome(ViewOf(b, base, sites[k].slots[i]), ViewOf(ResetSites(b, sites, page, m), base, sites[k].slots[i]),
                         k < m, GuardTarget(sites[k]), page)
    decreases m
  {
    hide ViewOf, ResetSlots, GuardTarget, OnPage, SlotsApart, SameSlot;
    if m > 0 {
      ResetSitesView(b, base, sites, page, m - 1, k, i);
      var before, s := ResetSites(b, sites, page, m - 1), sites[m - 1];
      if k == m - 1 {
        ResetSlotsView(before, base, s, page, |s.slots|, i);
      } else {
        if k < m - 1 { assert SitesApart(sites[k], s); } else { assert SitesApart(s, sites[k]); ApartBothWays(s, sites[k]); }
        ResetSlotsElsewhere(before, s, page, |s.slots|, sites[k].slots[i]);
        SameSlotView(before, ResetSlots(before, s, page, |s.slots|), base, sites[k].slots[i]);
      }
    }
  }

  /** Closing heads never reaches into the windows of a slot. */
  lemma {:induction false} CloseHeadsElsewhere(b: seq<u8>, entries: seq<Entry>, closed: seq<nat>, slot: Slot)
    requires forall i <- closed :: i < |entries| && entries[i].off < |b|
    requires SlotLaid(slot, |b|) && forall m | 0 <= m < |entries| :: SlotSparesEntry(slot, entries[m])
    ensures SameSlot(b, CloseHeads(b, entries, closed), slot)
    decreases |closed|
  {
    hide Put, SameSlot;
    if closed == [] {
      SameSlotRefl(b, slot);
    } else {
      var last := |closed| - 1;
      assert closed[last] in closed && forall i <- closed[..last] :: i in closed;
      CloseHeadsElsewhere(b, entries, closed[..last], slot);
      var before, e := CloseHeads(b, entries, closed[..last]), entries[closed[last]];
      assert SlotSparesEntry(slot, e);
      PutElsewhere(before, e.off, [INT3], slot);
      SameSlotTrans(b, before, CloseHeads(b, entries, closed), slot);
    }
  }

  /** Retirement keeps every site's chain sound, and no learned slot of it targets the page any more. */
  lemma RetirementKeepsChains(c: Cache, page: u32, k: nat, last: Patches)
    requires Sound(c) && k < |c.sites| && ChainOk(Views(c.bytes, c.base, c.sites[k]), c.sites[k], last)
    ensures var v, v' := Views(c.bytes, c.base, c.sites[k]), Views(RetiredBytes(c, page), c.base, c.sites[k]);
            && ChainOk(v', c.sites[k], last)
            && forall i | 0 <= i < |v'| && !v'[i].Jmp() :: v'[i] == v[i] && Page(v'[i].imm) != page
  {
    hide ViewOf, CloseHeads, ResetSites, ResetOutcome, SlotOk, SlotSparesEntry, SitesApart, SlotsApart, SlotLaid, SameSlot, Page, Disciplined;
    var s, closed := c.sites[k], Selected(c, page, |c.entries|);
    var b := CloseHeads(c.bytes, c.entries, closed);
    forall i | 0 <= i < |s.slots|
      ensures ResetOutcome(ViewOf(c.bytes, c.base, s.slots[i]), ViewOf(RetiredBytes(c, page), c.base, s.slots[i]), true, GuardTarget(s), page)
    {
      CloseHeadsElsewhere(c.bytes, c.entries, closed, s.slots[i]);
      SameSlotView(c.bytes, b, c.base, s.slots[i]);
      ResetSitesView(b, c.base, c.sites, page, |c.sites|, k, i);
    }
    ResetsKeepChain(Views(c.bytes, c.base, s), Views(RetiredBytes(c, page), c.base, s), s, last, page);
  }
}
