/** What an append does to the inline-cache sites: old chains stay, new ones start out fresh. */
module SitePlacement {
  import opened Words
  import opened InlineCaches
  import opened InlineCacheChains
  import opened CodeCaches
  import opened Retirement
  import opened Translation
  import opened Patching

  /** The emitter leaves every guard in reset form; landings inside an image do not depend on its base. */
  ghost predicate FreshImage(img: Image) {
    forall k | 0 <= k < |img.sites| :: FreshSite(img.bytes, 0, img.sites[k])
  }

  // ---- Old sites ----

  /** More bytes behind the slot do not change its view. */
  lemma ViewInLonger(b: seq<u8>, tail: seq<u8>, base: u32, slot: Slot)
    requires SlotLaid(slot, |b|)
    ensures ViewOf(b + tail, base, slot) == ViewOf(b, base, slot)
  {
    hide Word32, Land;
    var g: nat := slot.guard;
    WordOfSlice(b, b + tail, slot.imm, slot.imm, slot.imm + 4);
    WordOfSlice(b, b + tail, slot.disp, slot.disp, slot.disp + 4);
    WordOfSlice(b, b + tail, g + 1, g, g + 6);
    WordOfSlice(b, b + tail, g + 2, g, g + 6);
  }

  /** Bytes outside every relinked head are those of before. */
  lemma OldWindow(c: Cache, img: Image, guestEntry: u32, excluded: seq<(u32, u32)>, generation: u32, c': Cache, at: nat, n: nat)
    requires Appendable(c, img, guestEntry) && Appended(c, img, guestEntry, excluded, generation, c')
    requires at + n <= |c.bytes|
    requires forall m, j | 0 <= m < |c.entries| && 0 <= j < |img.entries| && Relinks(c, img, guestEntry, m, j) ::
               Apart(at, n, c.entries[m].off, 5)
    ensures c'.bytes[at..at + n] == c.bytes[at..at + n]
  {
    hide Jump, ClosedImage, Disciplined, LaidOut, Relinks, Room;
    var b := c'.bytes[..|c.bytes|];
    forall x | at <= x < at + n ensures c'.bytes[x] == c.bytes[x] {
      forall k, j | 0 <= k < |c.entries| && 0 <= j < |img.entries| && Relinks(c, img, guestEntry, k, j)
        ensures !(c.entries[k].off <= x < c.entries[k].off + 5)
      {
      }
      assert b[x] == c'.bytes[x];
    }
  }

  /** An append makes no old inactive head trap, and one that it relinks does not. */
  lemma TrapsBefore(c: Cache, img: Image, guestEntry: u32, excluded: seq<(u32, u32)>, generation: u32, c': Cache, m: nat)
    requires Appendable(c, img, guestEntry) && Appended(c, img, guestEntry, excluded, generation, c')
    requires m < |c.entries| && m < |c'.entries|
    ensures Traps(c', m) ==> Traps(c, m)
    ensures Traps(c', m) ==> forall j | 0 <= j < |img.entries| :: !Relinks(c, img, guestEntry, m, j)
  {
    hide ClosedImage, Disciplined, LaidOut, Relinks, TracksBytes, Revives, NewStates, ShiftSites;
    assert c'.entries[m] == c.entries[m];
    EntryLiesInside(c, m);
    if j :| 0 <= j < |img.entries| && Relinks(c, img, guestEntry, m, j) {
      RelinkedIsLong(c, img, guestEntry, m, j);
      var head := c'.bytes[..|c.bytes|][c.entries[m].off..c.entries[m].off + 5];
      assert head[0] == JMP;
    } else {
      OldHead(c, img, guestEntry, excluded, generation, c', m);
      EqualHeads(c.bytes + c'.bytes[|c.bytes|..], c'.bytes, c.entries[m]);
    }
  }

  lemma OldSlot(c: Cache, img: Image, guestEntry: u32, excluded: seq<(u32, u32)>, generation: u32, c': Cache, k: nat, i: nat)
    requires Appendable(c, img, guestEntry) && Appended(c, img, guestEntry, excluded, generation, c')
    requires |c'.states| == |c'.entries| && k < |c.sites| && i < |c.sites[k].slots| && Clear(c', c.sites[k].slots[i])
    ensures SlotLaid(c.sites[k].slots[i], |c'.bytes|)
    ensures ViewOf(c'.bytes, c.base, c.sites[k].slots[i]) == ViewOf(c.bytes, c.base, c.sites[k].slots[i])
  {
    hide Appended, Disciplined, SlotsApart, SitesApart, ViewOf, Activates, Traps, Clear;
    SameLength(c, img, guestEntry, excluded, generation, c');
    var slot, tail := c.sites[k].slots[i], c'.bytes[|c.bytes|..];
    assert forall m | 0 <= m < |c.entries| :: SlotSparesEntry(slot, c.entries[m]);
    forall m, j | 0 <= m < |c.entries| && 0 <= j < |img.entries| && Relinks(c, img, guestEntry, m, j)
      ensures Apart(slot.imm, 4, c.entries[m].off, 5)
    {
      RelinkedIsApart(c, img, guestEntry, excluded, generation, c', slot, m, j);
    }
    OldWindow(c, img, guestEntry, excluded, generation, c', slot.imm, 4);
    OldWindow(c, img, guestEntry, excluded, generation, c', slot.guard, 6);
    OldWindow(c, img, guestEntry, excluded, generation, c', slot.disp, 4);
    WindowsInLonger(c.bytes, tail, c'.bytes, slot);
    SameSlotView(c.bytes + tail, c'.bytes, c.base, slot);
    ViewInLonger(c.bytes, tail, c.base, slot);
  }

  lemma RelinkedIsApart(c: Cache, img: Image, guestEntry: u32, excluded: seq<(u32, u32)>, generation: u32, c': Cache, slot: Slot,
                        m: nat, j: nat)
    requires Appendable(c, img, guestEntry) && Appended(c, img, guestEntry, excluded, generation, c')
    requires |c'.states| == |c'.entries| && Clear(c', slot)
    requires m < |c.entries| && j < |img.entries| && Relinks(c, img, guestEntry, m, j)
    ensures Apart(slot.imm, 4, c.entries[m].off, 5)
  {
    hide Relinked, ClosedImage, Disciplined, LaidOut, Traps, TracksBytes, Revives, NewStates, ShiftSites, Apart;
    RelinkedIsLong(c, img, guestEntry, m, j);
    TrapsBefore(c, img, guestEntry, excluded, generation, c', m);
    assert c'.entries[m] == c.entries[m] && !c'.states[m].active;
  }

  lemma SameLength(c: Cache, img: Image, guestEntry: u32, excluded: seq<(u32, u32)>, generation: u32, c': Cache)
    requires Appendable(c, img, guestEntry) && Appended(c, img, guestEntry, excluded, generation, c')
    ensures |c'.bytes| == |c.bytes| + |img.bytes|
  {
  }

  lemma WindowsInLonger(b: seq<u8>, tail: seq<u8>, b': seq<u8>, slot: Slot)
    requires SlotLaid(slot, |b|) && |b'| == |b| + |tail|
    requires b'[slot.imm..slot.imm + 4] == b[slot.imm..slot.imm + 4]
    requires b'[slot.guard..slot.guard + 6] == b[slot.guard..slot.guard + 6]
    requires b'[slot.disp..slot.disp + 4] == b[slot.disp..slot.disp + 4]
    ensures SameSlot(b + tail, b', slot)
  {
  }

  // ---- New sites ----

  /** The bytes of a window of an image site, where the image now lies. */
  lemma NewWindow(c: Cache, img: Image, guestEntry: u32, excluded: seq<(u32, u32)>, generation: u32, c': Cache, at: nat, n: nat)
    requires Appendable(c, img, guestEntry) && Appended(c, img, guestEntry, excluded, generation, c')
    requires at + n <= |img.bytes| && forall m | 0 <= m < |img.entries| :: Apart(at, n, img.entries[m].off, 1)
    ensures c'.bytes[|c.bytes| + at..|c.bytes| + at + n] == img.bytes[at..at + n]
  {
    hide Relinked, Disciplined, LaidOut, Activates, Room;
    var b := c'.bytes[|c.bytes|..];
    forall x | at <= x < at + n ensures c'.bytes[|c.bytes| + x] == img.bytes[x] {
      assert b[x] == c'.bytes[|c.bytes| + x];
      assert !IsClosedHead(c, img, guestEntry, x);
    }
  }

  /** A reset guard moved by `delta` lands `delta` further. */
  lemma ShiftedLanding(next: nat, rel: u32, target: u32, delta: nat)
    requires Land(next, rel) == target && target + delta < WORD
    ensures Land(next + delta, rel) == target + delta
  {
    var x := next + rel;
    assert x == target + x / WORD * WORD;
    AddMultiple(target + delta, x / WORD);
  }

  lemma NewSlotIsFresh(c: Cache, img: Image, guestEntry: u32, excluded: seq<(u32, u32)>, generation: u32, c': Cache, k: nat, i: nat)
    requires Appendable(c, img, guestEntry) && Appended(c, img, guestEntry, excluded, generation, c')
    requires k < |img.sites| && i < |img.sites[k].slots| && FreshSite(img.bytes, 0, img.sites[k])
    requires Laid(img.sites[k], WORD - |c.bytes|) && Laid(ShiftSite(img.sites[k], |c.bytes|), |c'.bytes|)
    ensures var s := ShiftSite(img.sites[k], |c.bytes|);
            var v := ViewOf(c'.bytes, c.base, s.slots[i]);
            v.Jmp() && v.jmpTo == GuardTarget(s)
  {
    hide Appended, Disciplined, SlotsApart, SitesApart, Word32, Land, Activates;
    var n, slot, s := |c.bytes|, img.sites[k].slots[i], ShiftSite(img.sites[k], |c.bytes|);
    var g: nat := slot.guard;
    SameLength(c, img, guestEntry, excluded, generation, c');
    assert forall m | 0 <= m < |img.entries| :: SlotSparesEntry(slot, img.entries[m]);
    NewWindow(c, img, guestEntry, excluded, generation, c', g, 6);
    ShiftedGuard(img.bytes, c'.bytes, g, n);
    ShiftedLanding(g + 5, Word32(img.bytes, g + 1), GuardTarget(img.sites[k]), n);
  }

  lemma ShiftedGuard(b: seq<u8>, b': seq<u8>, g: nat, n: nat)
    requires g + 6 <= |b| && n + g + 6 <= |b'| && b'[n + g..n + g + 6] == b[g..g + 6]
    ensures b'[n + g] == b[g] && Word32(b', n + g + 1) == Word32(b, g + 1)
  {
    var w, w' := b[g..g + 6], b'[n + g..n + g + 6];
    assert w[0] == b[g] && w[1] == b[g + 1] && w[2] == b[g + 2] && w[3] == b[g + 3] && w[4] == b[g + 4];
    assert w'[0] == b'[n + g] && w'[1] == b'[n + g + 1] && w'[2] == b'[n + g + 2] && w'[3] == b'[n + g + 3] && w'[4] == b'[n + g + 4];
  }

  /** A fresh site is a sound chain that has learned nothing. */
  lemma FreshIsOk(v: seq<View>, s: Site)
    requires |v| == |s.slots| && v != [] && forall i | 0 <= i < |v| :: v[i].Jmp() && v[i].jmpTo == GuardTarget(s)
    ensures ChainOk(v, s, map[])
  {
  }

  /** An old site that is still clear does what it did. */
  lemma OldChainStays(c: Cache, img: Image, guestEntry: u32, excluded: seq<(u32, u32)>, generation: u32, c': Cache, l: nat)
    requires Appendable(c, img, guestEntry) && Appended(c, img, guestEntry, excluded, generation, c')
    requires |c'.states| == |c'.entries| && l < |c.sites| && l < |c'.sites| && ClearSite(c', l)
    ensures c'.sites[l] == c.sites[l] && ClearSite(c, l) && Laid(c.sites[l], |c.bytes|) && Laid(c.sites[l], |c'.bytes|)
    ensures Views(c'.bytes, c.base, c.sites[l]) == Views(c.bytes, c.base, c.sites[l])
  {
    hide Relinked, ClosedImage, Disciplined, SlotsApart, SitesApart, SlotSparesEntry, SlotLaid, Clear, Traps, ViewOf, Activates,
         TracksBytes;
    var s := c.sites[l];
    forall m | 0 <= m < |c.entries| && !c.states[m].active ensures Traps(c', m) ==> Traps(c, m) {
      TrapsBefore(c, img, guestEntry, excluded, generation, c', m);
    }
    ClearSiteBefore(c, c', l);
    LaidInMore(s, |c.bytes|, |c'.bytes|);
    forall i | 0 <= i < |s.slots| ensures ViewOf(c'.bytes, c.base, s.slots[i]) == ViewOf(c.bytes, c.base, s.slots[i]) {
      OldSlot(c, img, guestEntry, excluded, generation, c', l, i);
    }
  }

  lemma NewChainIsFresh(c: Cache, img: Image, guestEntry: u32, excluded: seq<(u32, u32)>, generation: u32, c': Cache, k: nat)
    requires Appendable(c, img, guestEntry) && Appended(c, img, guestEntry, excluded, generation, c')
    requires k < |img.sites| && FreshSite(img.bytes, 0, img.sites[k])
    requires Laid(img.sites[k], WORD - |c.bytes|) && Laid(ShiftSite(img.sites[k], |c.bytes|), |c'.bytes|)
    ensures var s := ShiftSite(img.sites[k], |c.bytes|); ChainOk(Views(c'.bytes, c.base, s), s, map[])
  {
    hide Appendable, Appended, SlotsApart, SlotLaid, ViewOf, FreshSite, SlotOk, GuardTarget;
    var s := ShiftSite(img.sites[k], |c.bytes|);
    forall i | 0 <= i < |img.sites[k].slots| {
      NewSlotIsFresh(c, img, guestEntry, excluded, generation, c', k, i);
    }
    FreshIsOk(Views(c'.bytes, c.base, s), s);
  }

  /** Appending keeps every old chain sound, and each new site starts as a fresh one. */
  lemma AppendKeepsChains(c: Cache, img: Image, guestEntry: u32, excluded: seq<(u32, u32)>, generation: u32, c': Cache, patches: seq<Patches>)
    requires Appendable(c, img, guestEntry) && Appended(c, img, guestEntry, excluded, generation, c')
    requires FreshImage(img) && ChainsOk(c, patches)
    ensures ChainsOk(c', patches + seq(|img.sites|, _ => map[]))
  {
    hide Relinked, ClosedImage, Disciplined, SlotsApart, SitesApart, SlotSparesEntry, SlotLaid, ClearSite, ViewOf, ChainOk, FreshSite,
         Activates, TracksBytes, Revives;
    LaidOutAbove(|c.bytes|, c.entries, c.sites, |img.bytes|, img.entries, img.sites);
    var patches' := patches + seq(|img.sites|, _ => map[]);
    forall l | 0 <= l < |c'.sites| && ClearSite(c', l)
      ensures ChainOk(Views(c'.bytes, c.base, c'.sites[l]), c'.sites[l], patches'[l])
    {
      if l < |c.sites| {
        OldChainStays(c, img, guestEntry, excluded, generation, c', l);
      } else {
        NewChainIsFresh(c, img, guestEntry, excluded, generation, c', l - |c.sites|);
      }
    }
  }

  /** Old entries keep their place and state in a longer map. */
  lemma ClearBefore(c: Cache, c': Cache, slot: Slot)
    requires |c.states| == |c.entries| <= |c'.entries| == |c'.states|
    requires c'.entries[..|c.entries|] == c.entries && c'.states[..|c.states|] == c.states
    requires forall m | 0 <= m < |c.entries| && !c.states[m].active :: Traps(c', m) ==> Traps(c, m)
    ensures Clear(c', slot) ==> Clear(c, slot)
  {
    hide Traps;
    assert forall m | 0 <= m < |c.entries| :: c'.entries[m] == c'.entries[..|c.entries|][m] && c'.states[m] == c'.states[..|c.states|][m];
  }

  lemma ClearSiteBefore(c: Cache, c': Cache, l: nat)
    requires |c.states| == |c.entries| <= |c'.entries| == |c'.states|
    requires c'.entries[..|c.entries|] == c.entries && c'.states[..|c.states|] == c.states
    requires forall m | 0 <= m < |c.entries| && !c.states[m].active :: Traps(c', m) ==> Traps(c, m)
    requires l < |c.sites| && l < |c'.sites| && c'.sites[l] == c.sites[l] && ClearSite(c', l)
    ensures ClearSite(c, l)
  {
    hide Clear, Traps;
    forall i | 0 <= i < |c.sites[l].slots| ensures Clear(c, c.sites[l].slots[i]) {
      assert Clear(c', c'.sites[l].slots[i]);
      ClearBefore(c, c', c.sites[l].slots[i]);
    }
  }
}
