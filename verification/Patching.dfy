/** What patching an inline cache does to the rest of the cache, and what a retirement does to the chains of its sites. */
module Patching {
  import opened Words
  import opened CodeCacheTypes
  import opened InlineCaches
  import opened InlineCacheChains
  import opened CodeCaches
  import opened Retirement

  // ---- Frames ----

  lemma PutKeepsHead(b: seq<u8>, at: nat, data: seq<u8>, e: Entry)
    requires at + |data| <= |b| && e.elen >= 1 && e.off + e.elen <= |b| && Apart(at, |data|, e.off, HeadLength(e))
    ensures Head(Put(b, at, data), e) == Head(b, e)
  {
    hide Put;
    PutKeeps(b, at, data, e.off, HeadLength(e));
  }

  /** The slot a patch of site `k` for target `t` writes to. */
  function SlotFor(c: Cache, k: nat, t: u32): (slot: Slot)
    requires k < |c.sites| && Laid(c.sites[k], |c.bytes|)
    ensures SlotLaid(slot, |c.bytes|)
  {
    c.sites[k].slots[PatchedSlot(c.bytes, c.base, c.sites[k], t)]
  }

  /** Of a patch only the immediate reaches into the head of an entry. */
  lemma PatchedHead(c: Cache, k: nat, t: u32, target: u32, i: nat)
    requires Sound(c) && k < |c.sites| && i < |c.entries|
    ensures Head(PatchSite(c, k, t, target).bytes, c.entries[i]) == Head(Put(c.bytes, SlotFor(c, k, t).imm, Bytes32(t)), c.entries[i])
  {
    hide Put, Bytes32, HitBytes, GuardBytes, Head, PatchedSlot, Disciplined, SlotsApart, SitesApart, HeadLength;
    var s, e, slot := c.sites[k], c.entries[i], SlotFor(c, k, t);
    assert SlotSparesEntry(slot, e);
    if Reachable32(c.base, slot, target) {
      var guard := GuardBytes(s, PatchedSlot(c.bytes, c.base, s, t));
      var b1 := Put(c.bytes, slot.imm, Bytes32(t));
      var b2 := Put(b1, slot.disp, HitBytes(c.base, slot, target));
      PutKeepsHead(b1, slot.disp, HitBytes(c.base, slot, target), e);
      PutKeepsHead(b2, slot.guard, guard, e);
    }
  }

  /** The first byte of every entry is as before. */
  lemma PatchedFirst(c: Cache, k: nat, t: u32, target: u32, i: nat)
    requires Sound(c) && k < |c.sites| && i < |c.entries|
    ensures PatchSite(c, k, t, target).bytes[c.entries[i].off] == c.bytes[c.entries[i].off]
  {
    hide Bytes32, PatchBytes, PatchedSlot, Disciplined, SlotsApart, SitesApart;
    var slot := SlotFor(c, k, t);
    assert SlotSparesEntry(slot, c.entries[i]);
    PatchedHead(c, k, t, target, i);
    EqualHeads(PatchSite(c, k, t, target).bytes, Put(c.bytes, slot.imm, Bytes32(t)), c.entries[i]);
    PutAt(c.bytes, slot.imm, Bytes32(t), c.entries[i].off);
  }

  /** A patch keeps layout and activation discipline, wherever its immediate lies. */
  lemma PatchKeepsSound(c: Cache, k: nat, t: u32, target: u32, writable: bool)
    requires Sound(c) && k < |c.sites|
    ensures Sound(PatchOutcome(c, k, t, target, writable))
  {
    hide PatchBytes, PatchedSlot, Views, Touches, Spans, Page, SlotLaid, SlotsApart, SlotSparesEntry;
    var c' := PatchOutcome(c, k, t, target, writable);
    CursorKeepsLayout(|c.bytes|, c.entries, c.sites, k, c'.sites[k].cursor);
    forall i | 0 <= i < |c.entries| ensures Disciplined(c', i) {
      assert Disciplined(c, i);
    }
  }

  lemma CursorKeepsLayout(size: nat, entries: seq<Entry>, sites: seq<Site>, k: nat, cursor: nat)
    requires LaidOut(size, entries, sites) && k < |sites|
    ensures LaidOut(size, entries, sites[k := sites[k].(cursor := cursor)])
  {
    hide SlotsApart, SlotSparesEntry, SlotLaid;
    var sites' := sites[k := sites[k].(cursor := cursor)];
    forall m, l | 0 <= m < l < |sites| ensures SitesApart(sites'[m], sites'[l]) {
      assert SitesApart(sites[m], sites[l]);
    }
    forall m | 0 <= m < |sites| ensures Laid(sites'[m], size) {
      assert Laid(sites[m], size);
    }
  }

  // ---- Inactive heads ----

  /** A head that the immediate does not reach stays as safe as it was. */
  lemma ClearHeadStays(c: Cache, k: nat, t: u32, target: u32, i: nat)
    requires Sound(c) && HeadsOk(c) && k < |c.sites| && i < |c.entries| && !c.states[i].active
    requires Apart(SlotFor(c, k, t).imm, 4, c.entries[i].off, HeadLength(c.entries[i]))
    ensures InactiveOk(PatchSite(c, k, t, target), i)
  {
    hide PatchBytes, PatchedSlot, CursorAfter, Disciplined, Laid, SitesApart, SlotSparesEntry, Jump, Put, Bytes32,
         SlotFor, Head, HeadLength, Spans;
    var c', e := PatchSite(c, k, t, target), c.entries[i];
    PatchedHead(c, k, t, target, i);
    PutKeepsHead(c.bytes, SlotFor(c, k, t).imm, Bytes32(t), e);
    EqualHeads(c.bytes, c'.bytes, e);
    assert InactiveOk(c, i);
    if c.bytes[e.off] != INT3 {
      var j :| 0 <= j < |c.entries| && ForwardsTo(c, i, j) && (c.states[j].active || c.bytes[c.entries[j].off] == INT3);
      PatchedFirst(c, k, t, target, j);
      assert ForwardsTo(c', i, j);
    }
  }

  lemma PatchedForwards(c: Cache, k: nat, t: u32, target: u32, i: nat, j: nat)
    requires Sound(c) && k < |c.sites| && i < |c.entries| && j < |c.entries|
    ensures var e := c.entries[i];
            ForwardsTo(PatchSite(c, k, t, target), i, j) <==>
            e.elen >= 5 && c.entries[j].guest == e.guest
            && Put(c.bytes, SlotFor(c, k, t).imm, Bytes32(t))[e.off..e.off + 5] == Jump(e.off, c.entries[j].off)
  {
    hide PatchBytes, PatchedSlot, CursorAfter, Disciplined, Laid, SitesApart, SlotSparesEntry, Jump, Put, Bytes32;
    PatchedHead(c, k, t, target, i);
    EqualHeads(PatchSite(c, k, t, target).bytes, Put(c.bytes, SlotFor(c, k, t).imm, Bytes32(t)), c.entries[i]);
  }

  /** A head that does not trap is safe after the patch exactly when the written immediate leaves it a jump to a safe entry. */
  lemma HeadJumpsOn(c: Cache, k: nat, t: u32, target: u32, i: nat)
    requires Sound(c) && k < |c.sites| && i < |c.entries| && c.bytes[c.entries[i].off] != INT3
    ensures InactiveOk(PatchSite(c, k, t, target), i) <==> JumpsOn(c, SlotFor(c, k, t), t, i)
  {
    hide PatchBytes, PatchedSlot, CursorAfter, Disciplined, Laid, SitesApart, SlotSparesEntry, ForwardsTo, Jump, Put,
         Bytes32, SlotFor;
    var c', e := PatchSite(c, k, t, target), c.entries[i];
    PatchedFirst(c, k, t, target, i);
    forall j | 0 <= j < |c.entries|
      ensures c'.bytes[c.entries[j].off] == c.bytes[c.entries[j].off]
      ensures ForwardsTo(c', i, j) <==>
              e.elen >= 5 && c.entries[j].guest == e.guest
              && Put(c.bytes, SlotFor(c, k, t).imm, Bytes32(t))[e.off..e.off + 5] == Jump(e.off, c.entries[j].off)
    {
      PatchedFirst(c, k, t, target, j);
      PatchedForwards(c, k, t, target, i, j);
    }
  }

  /** A patch keeps inactive heads safe exactly when the target spares the heads its immediate overlaps. */
  lemma PatchKeepsHeads(c: Cache, k: nat, t: u32, target: u32, writable: bool)
    requires Sound(c) && HeadsOk(c) && k < |c.sites|
    ensures var c' := PatchOutcome(c, k, t, target, writable);
            Sound(c') && (HeadsOk(c') <==> !writable || Spared(c, SlotFor(c, k, t), t))
  {
    hide PatchBytes, PatchedSlot, CursorAfter, Disciplined, InactiveOk, JumpsOn, SlotSparesEntry, SitesApart,
         SlotsApart, Spans;
    var c', slot := PatchOutcome(c, k, t, target, writable), SlotFor(c, k, t);
    PatchKeepsSound(c, k, t, target, writable);
    forall i | 0 <= i < |c.entries| && !c.states[i].active
      ensures InactiveOk(c', i) <==>
              || !writable || c.bytes[c.entries[i].off] == INT3
              || Apart(slot.imm, 4, c.entries[i].off, HeadLength(c.entries[i])) || JumpsOn(c, slot, t, i)
    {
      PatchedIsOk(c, k, t, target, writable, i);
    }
  }

  lemma PatchedIsOk(c: Cache, k: nat, t: u32, target: u32, writable: bool, i: nat)
    requires Sound(c) && HeadsOk(c) && k < |c.sites| && i < |c.entries| && !c.states[i].active
    ensures var slot, e := SlotFor(c, k, t), c.entries[i];
            InactiveOk(PatchOutcome(c, k, t, target, writable), i) <==>
            !writable || c.bytes[e.off] == INT3 || Apart(slot.imm, 4, e.off, HeadLength(e)) || JumpsOn(c, slot, t, i)
  {
    hide PatchBytes, PatchedSlot, CursorAfter, Disciplined, JumpsOn, ForwardsTo, SlotSparesEntry, SitesApart,
         SlotsApart, Spans;
    assert InactiveOk(c, i);
    if !writable {
      SitesDoNotMatter(c, PatchOutcome(c, k, t, target, writable), i);
    } else if c.bytes[c.entries[i].off] == INT3 {
      PatchedFirst(c, k, t, target, i);
    } else if Apart(SlotFor(c, k, t).imm, 4, c.entries[i].off, HeadLength(c.entries[i])) {
      ClearHeadStays(c, k, t, target, i);
    } else {
      HeadJumpsOn(c, k, t, target, i);
    }
  }

  lemma SitesDoNotMatter(c: Cache, c': Cache, i: nat)
    requires Sound(c) && HeadsOk(c) && i < |c.entries| && !c.states[i].active && c' == c.(sites := c'.sites)
    ensures InactiveOk(c', i)
  {
    hide Room, Disciplined, Jump, Spans, Laid, SitesApart, SlotSparesEntry;
    assert InactiveOk(c, i);
    assert forall j | 0 <= j < |c.entries| :: ForwardsTo(c, i, j) <==> ForwardsTo(c', i, j);
  }

  // ---- The chains of the sites ----

  /** The patches made so far per site, and the promise they keep wherever relinking cannot reach. */
  ghost predicate ChainsOk(c: Cache, patches: seq<Patches>) {
    && |c.states| == |c.entries| && |patches| == |c.sites|
    && (forall k | 0 <= k < |c.sites| :: Laid(c.sites[k], |c.bytes|))
    && forall k | 0 <= k < |c.sites| && ClearSite(c, k) :: ChainOk(Views(c.bytes, c.base, c.sites[k]), c.sites[k], patches[k])
  }

  function Learn(patches: seq<Patches>, k: nat, t: u32, target: u32): seq<Patches>
    requires k < |patches|
  {
    var learned: Patches := patches[k][t := target];
    patches[k := learned]
  }

  /** A patch of one site leaves the slots of another alone. */
  lemma PatchElsewhere(b: seq<u8>, base: u32, s: Site, t: u32, target: u32, other: Slot)
    requires Laid(s, |b|) && SlotLaid(other, |b|)
    requires SlotsApart(other, s.slots[PatchedSlot(b, base, s, t)])
    ensures SameSlot(b, PatchBytes(b, base, s, t, target), other)
  {
    hide Put, Bytes32, HitBytes, GuardBytes, PatchedSlot, SameSlot, WriteWindows;
    var k := PatchedSlot(b, base, s, t);
    var slot := s.slots[k];
    if Reachable32(base, slot, target) {
      WriteWindowsElsewhere(b, slot, Bytes32(t), HitBytes(base, slot, target), GuardBytes(s, k), other);
    } else {
      PutElsewhere(b, slot.imm, Bytes32(t), other);
    }
  }

  /** Only a patch that reaches its slot's displacement is recorded. */
  function Recall(c: Cache, patches: seq<Patches>, k: nat, t: u32, target: u32, writable: bool): seq<Patches>
    requires k < |c.sites| == |patches| && Laid(c.sites[k], |c.bytes|)
  {
    if writable && Reachable32(c.base, SlotFor(c, k, t), target) then Learn(patches, k, t, target) else patches
  }

  /**
   The patch is in rel32 range, or writes nothing, or the early return is harmless: the slot is in reset form, holds
   the target already or hits its address anyway. Sites that relinking can reach are not promised anything.
   */
  ghost predicate Fits(c: Cache, k: nat, t: u32, target: u32, writable: bool, last: Patches)
    requires |c.states| == |c.entries| && k < |c.sites| && Laid(c.sites[k], |c.bytes|)
  {
    || !writable || Reachable32(c.base, SlotFor(c, k, t), target) || !ClearSite(c, k)
    || var v := ViewOf(c.bytes, c.base, SlotFor(c, k, t)); v.Jmp() || v.imm == t || (t in last && last[t] == v.hit)
  }

  /** A patch keeps every chain sound exactly when it fits; where it went through its target is recorded. */
  lemma PatchKeepsChains(c: Cache, k: nat, t: u32, target: u32, writable: bool, patches: seq<Patches>)
    requires Sound(c) && k < |c.sites| && ChainsOk(c, patches)
    ensures ChainsOk(PatchOutcome(c, k, t, target, writable), Recall(c, patches, k, t, target, writable)) <==>
            Fits(c, k, t, target, writable, patches[k])
  {
    hide PatchBytes, PatchedSlot, CursorAfter, ChainOk, SlotLaid, SlotsApart, SlotSparesEntry, Disciplined, ViewOf,
         Clear, Reachable32, Fits, SlotFor;
    var c', patches' := PatchOutcome(c, k, t, target, writable), Recall(c, patches, k, t, target, writable);
    CursorKeepsLayout(|c.bytes|, c.entries, c.sites, k, c'.sites[k].cursor);
    forall m | 0 <= m < |c.entries| ensures Traps(c', m) <==> Traps(c, m) { PatchedTraps(c, k, t, target, writable, m); }
    forall l | 0 <= l < |c.sites|
      ensures ClearSite(c', l) <==> ClearSite(c, l)
      ensures ClearSite(c, l) ==>
                (ChainOk(Views(c'.bytes, c.base, c'.sites[l]), c'.sites[l], patches'[l]) <==>
                 l != k || Fits(c, k, t, target, writable, patches[k]))
    {
      SameClear(c, c', l);
      if ClearSite(c, l) {
        if l == k { PatchedChain(c, k, t, target, writable, patches); } else if writable { OtherChain(c, k, t, target, l); }
      }
    }
    if !ClearSite(c, k) { UnclearFits(c, k, t, target, writable, patches[k]); }
  }

  lemma UnclearFits(c: Cache, k: nat, t: u32, target: u32, writable: bool, last: Patches)
    requires |c.states| == |c.entries| && k < |c.sites| && Laid(c.sites[k], |c.bytes|) && !ClearSite(c, k)
    ensures Fits(c, k, t, target, writable, last)
  {
  }

  lemma SameClear(c: Cache, c': Cache, l: nat)
    requires |c.states| == |c.entries| && c'.entries == c.entries && c'.states == c.states
    requires forall m | 0 <= m < |c.entries| :: Traps(c', m) <==> Traps(c, m)
    requires l < |c.sites| && l < |c'.sites| && c'.sites[l].slots == c.sites[l].slots
    ensures ClearSite(c', l) <==> ClearSite(c, l)
  {
    assert forall i | 0 <= i < |c.sites[l].slots| :: Clear(c', c.sites[l].slots[i]) <==> Clear(c, c.sites[l].slots[i]);
  }

  /** A patch makes no head trap, and none that does stop. */
  lemma PatchedTraps(c: Cache, k: nat, t: u32, target: u32, writable: bool, m: nat)
    requires Sound(c) && k < |c.sites| && m < |c.entries|
    ensures Traps(PatchOutcome(c, k, t, target, writable), m) <==> Traps(c, m)
  {
    hide PatchBytes, PatchedSlot, CursorAfter, Sound, LaidOut;
    SoundIsLaidOut(c);
    if writable { PatchedFirst(c, k, t, target, m); }
  }

  /** The chain of the patched site itself. */
  lemma PatchedChain(c: Cache, k: nat, t: u32, target: u32, writable: bool, patches: seq<Patches>)
    requires Sound(c) && k < |c.sites| && ChainsOk(c, patches) && ClearSite(c, k)
    ensures var c' := PatchOutcome(c, k, t, target, writable);
            Laid(c'.sites[k], |c'.bytes|) &&
            (ChainOk(Views(c'.bytes, c.base, c'.sites[k]), c'.sites[k], Recall(c, patches, k, t, target, writable)[k]) <==>
             Fits(c, k, t, target, writable, patches[k]))
  {
    hide PatchBytes, ViewOf, Chosen, IsPatched, Reachable32, SlotOk, SlotLaid, SlotsApart, CursorAfter, Disciplined,
         SlotSparesEntry;
    var s, last := c.sites[k], patches[k];
    var c' := PatchOutcome(c, k, t, target, writable);
    var s', v, v' := c'.sites[k], Views(c.bytes, c.base, s), Views(c'.bytes, c.base, s);
    assert Views(c'.bytes, c.base, s') == v';
    if !writable {
      SameChain(v, s, s', last);
    } else if Reachable32(c.base, SlotFor(c, k, t), target) {
      var w := PatchBytesViews(c.bytes, c.base, s, t, target);
      PatchKeepsChain(v, s, last, t, target, w);
      SameChain(v', s, s', last[t := target]);
    } else {
      OutOfRangePatch(c.bytes, c.base, s, last, t, target);
      if ChainOk(v', s, last) { SameChain(v', s, s', last); }
      if ChainOk(v', s', last) { SameChain(v', s', s, last); }
    }
  }

  lemma OtherChain(c: Cache, k: nat, t: u32, target: u32, l: nat)
    requires Sound(c) && k < |c.sites| && l < |c.sites| && l != k
    ensures Views(PatchBytes(c.bytes, c.base, c.sites[k], t, target), c.base, c.sites[l]) == Views(c.bytes, c.base, c.sites[l])
  {
    hide PatchBytes, PatchedSlot, SlotLaid, SlotsApart, SlotSparesEntry, Disciplined, ViewOf, SameSlot;
    var s, other, b' := c.sites[k], c.sites[l], PatchBytes(c.bytes, c.base, c.sites[k], t, target);
    forall i | 0 <= i < |other.slots| ensures ViewOf(b', c.base, other.slots[i]) == ViewOf(c.bytes, c.base, other.slots[i]) {
      if k < l { ApartBothWays(s, other); } else { assert SitesApart(other, s); }
      PatchElsewhere(c.bytes, c.base, s, t, target, other.slots[i]);
      SameSlotView(c.bytes, b', c.base, other.slots[i]);
    }
  }

  /** Retirement keeps every chain sound. */
  lemma RetirementKeepsAllChains(c: Cache, page: u32, quarantine: bool, writable: bool, executable: bool, patches: seq<Patches>)
    requires Sound(c) && ChainsOk(c, patches)
    ensures ChainsOk(RetirePage(c, page, quarantine, writable, executable).0, patches)
  {
    hide RetiredBytes, ChainOk, SlotLaid, SlotsApart, SitesApart, SlotSparesEntry, Disciplined, ViewOf, Selects, Selected, Known, Traps;
    var c' := RetirePage(c, page, quarantine, writable, executable).0;
    forall m | 0 <= m < |c.entries| && !c.states[m].active ensures Traps(c', m) ==> Traps(c, m) {
      RetiredTraps(c, page, quarantine, writable, executable, m);
    }
    forall l | 0 <= l < |c.sites| && ClearSite(c', l)
      ensures ChainOk(Views(c'.bytes, c.base, c.sites[l]), c.sites[l], patches[l])
    {
      FewerClear(c, c', l);
      RetirementKeepsChains(c, page, l, patches[l]);
    }
  }

  /** Retirement leaves the heads of inactive entries alone. */
  lemma RetiredTraps(c: Cache, page: u32, quarantine: bool, writable: bool, executable: bool, m: nat)
    requires Sound(c) && m < |c.entries| && !c.states[m].active
    ensures Traps(RetirePage(c, page, quarantine, writable, executable).0, m) <==> Traps(c, m)
  {
    hide RetiredBytes, Selected, Known, LaidOut, Disciplined, Spans, Touches;
    HeadAfterRetirement(c, page, m);
    SoundIsLaidOut(c);
    EntryLiesInside(c, m);
    EqualHeads(c.bytes, RetiredBytes(c, page), c.entries[m]);
  }

  lemma EntryLiesInside(c: Cache, m: nat)
    requires LaidOut(|c.bytes|, c.entries, c.sites) && m < |c.entries|
    ensures c.entries[m].elen >= 1 && c.entries[m].off + c.entries[m].elen <= |c.bytes|
  {
  }

  /** Entries only become inactive, so a site that is clear now was clear before. */
  lemma FewerClear(c: Cache, c': Cache, l: nat)
    requires |c.states| == |c.entries| && c'.entries == c.entries && |c'.states| == |c.states| && c'.sites == c.sites
    requires forall i | 0 <= i < |c.states| && !c.states[i].active :: !c'.states[i].active && (Traps(c', i) ==> Traps(c, i))
    requires l < |c.sites| && ClearSite(c', l)
    ensures ClearSite(c, l)
  {
    hide Traps;
    forall i | 0 <= i < |c.sites[l].slots| ensures Clear(c, c.sites[l].slots[i]) {
      assert Clear(c', c.sites[l].slots[i]);
    }
  }
}
