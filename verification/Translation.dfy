/** What appending a translation does to the cache. */
module Translation {
  import opened Words
  import opened CodeCacheTypes
  import opened InlineCaches
  import opened CodeCaches
  import opened Retirement

  // ---- Layout ----

  lemma ShiftedSlotsApart(a: Slot, b: Slot, size: nat, delta: nat)
    requires SlotLaid(a, size) && SlotLaid(b, size) && size + delta <= WORD && SlotsApart(a, b)
    ensures SlotsApart(ShiftSlot(a, delta), ShiftSlot(b, delta))
  {
  }

  lemma ShiftedSiteLaid(s: Site, size: nat, delta: nat)
    requires Laid(s, size) && size + delta <= WORD
    ensures Laid(s, WORD - delta) && Laid(ShiftSite(s, delta), size + delta)
  {
    forall i, j | 0 <= i < j < |s.slots| ensures SlotsApart(ShiftSlot(s.slots[i], delta), ShiftSlot(s.slots[j], delta)) {
      ShiftedSlotsApart(s.slots[i], s.slots[j], size, delta);
    }
  }

  /** Code laid out below `n` and shifted code laid out above it have no window or head in common. */
  lemma LaidOutAbove(n: nat, entries: seq<Entry>, sites: seq<Site>, m: nat, entries': seq<Entry>, sites': seq<Site>)
    requires LaidOut(n, entries, sites) && LaidOut(m, entries', sites') && n + m <= MAX_CACHE
    ensures (forall k | 0 <= k < |sites'| :: Laid(sites'[k], WORD - n))
    ensures LaidOut(n + m, entries + ShiftEntries(entries', n), sites + ShiftSites(sites', n))
  {
    hide SlotsApart, SlotSparesEntry, Laid, SlotLaid;
    forall k | 0 <= k < |sites'| ensures Laid(sites'[k], WORD - n) && Laid(ShiftSite(sites'[k], n), n + m) {
      ShiftedSiteLaid(sites'[k], m, n);
    }
    var es, ss := entries + ShiftEntries(entries', n), sites + ShiftSites(sites', n);
    forall k | 0 <= k < |ss| ensures Laid(ss[k], n + m) {
      if k < |sites| { LaidInMore(sites[k], n, n + m); }
    }
    forall k, l | 0 <= k < l < |ss| ensures SitesApart(ss[k], ss[l]) {
      if l < |sites| {
        assert SitesApart(sites[k], sites[l]);
      } else if |sites| <= k {
        assert SitesApart(sites'[k - |sites|], sites'[l - |sites|]);
        ShiftedSitesApart(sites'[k - |sites|], sites'[l - |sites|], m, n);
      } else {
        SitesAbove(sites[k], n, sites'[l - |sites|], m);
      }
    }
    forall k, i, j | 0 <= k < |ss| && 0 <= i < |ss[k].slots| && 0 <= j < |es| ensures SlotSparesEntry(ss[k].slots[i], es[j]) {
      SparesAbove(n, entries, sites, m, entries', sites', k, i, j);
    }
  }

  lemma LaidInMore(s: Site, n: nat, more: nat)
    requires Laid(s, n) && n <= more
    ensures Laid(s, more)
  {
  }

  lemma ShiftedSitesApart(a: Site, b: Site, size: nat, delta: nat)
    requires Laid(a, size) && Laid(b, size) && size + delta <= WORD && SitesApart(a, b)
    requires Laid(a, WORD - delta) && Laid(b, WORD - delta)
    ensures SitesApart(ShiftSite(a, delta), ShiftSite(b, delta))
  {
    hide SlotsApart;
    forall i, j | 0 <= i < |a.slots| && 0 <= j < |b.slots|
      ensures SlotsApart(ShiftSite(a, delta).slots[i], ShiftSite(b, delta).slots[j])
    {
      assert SlotsApart(a.slots[i], b.slots[j]);
      ShiftedSlotsApart(a.slots[i], b.slots[j], size, delta);
    }
  }

  lemma SitesAbove(a: Site, n: nat, b: Site, m: nat)
    requires Laid(a, n) && Laid(b, m) && n + m <= WORD && Laid(b, WORD - n)
    ensures SitesApart(a, ShiftSite(b, n))
  {
    forall i, j | 0 <= i < |a.slots| && 0 <= j < |b.slots| ensures SlotsApart(a.slots[i], ShiftSite(b, n).slots[j]) {
      assert SlotLaid(a.slots[i], n) && SlotLaid(b.slots[j], m);
    }
  }

  lemma SparesAbove(n: nat, entries: seq<Entry>, sites: seq<Site>, m: nat, entries': seq<Entry>, sites': seq<Site>, k: nat, i: nat, j: nat)
    requires LaidOut(n, entries, sites) && LaidOut(m, entries', sites') && n + m <= MAX_CACHE
    requires forall l | 0 <= l < |sites'| :: Laid(sites'[l], WORD - n)
    requires k < |sites| + |sites'| && j < |entries| + |entries'|
    requires i < |(sites + ShiftSites(sites', n))[k].slots|
    ensures SlotSparesEntry((sites + ShiftSites(sites', n))[k].slots[i], (entries + ShiftEntries(entries', n))[j])
  {
    hide SitesApart;
    if k < |sites| {
      assert Laid(sites[k], n) && SlotLaid(sites[k].slots[i], n);
      if j < |entries| { assert SlotSparesEntry(sites[k].slots[i], entries[j]); }
    } else {
      assert Laid(sites'[k - |sites|], m) && SlotLaid(sites'[k - |sites|].slots[i], m);
      if j >= |entries| { assert SlotSparesEntry(sites'[k - |sites|].slots[i], entries'[j - |entries|]); }
    }
  }

  // ---- Heads ----

  /** An old head is rewritten only if the entry itself is relinked. */
  lemma OldHead(c: Cache, img: Image, guestEntry: u32, excluded: seq<(u32, u32)>, generation: u32, c': Cache, i: nat)
    requires Appendable(c, img, guestEntry) && Appended(c, img, guestEntry, excluded, generation, c')
    requires i < |c.entries| && forall j | 0 <= j < |img.entries| :: !Relinks(c, img, guestEntry, i, j)
    ensures Head(c'.bytes, c.entries[i]) == Head(c.bytes, c.entries[i])
  {
    hide Relinks, Jump, ClosedImage, Disciplined, Laid, SitesApart, SlotSparesEntry;
    var e, b := c.entries[i], c'.bytes[..|c.bytes|];
    forall x | e.off <= x < e.off + HeadLength(e) ensures c'.bytes[x] == c.bytes[x] {
      forall k, j | 0 <= k < |c.entries| && 0 <= j < |img.entries| && Relinks(c, img, guestEntry, k, j)
        ensures !(c.entries[k].off <= x < c.entries[k].off + 5)
      {
        RelinkedIsLong(c, img, guestEntry, k, j);
        var lower, upper := c.entries[if k < i then k else i], c.entries[if k < i then i else k];
        assert lower.off + lower.elen <= upper.off;
      }
      assert b[x] == c'.bytes[x];
    }
  }

  lemma RelinkedIsLong(c: Cache, img: Image, guestEntry: u32, k: nat, j: nat)
    requires |c.states| == |c.entries| && k < |c.entries| && j < |img.entries| && Relinks(c, img, guestEntry, k, j)
    ensures c.entries[k].elen >= 5
  {
  }

  lemma SliceOfPrefix(b: seq<u8>, n: nat, lo: nat, hi: nat)
    requires lo <= hi <= n <= |b|
    ensures b[..n][lo..hi] == b[lo..hi]
  {
  }

  lemma RelinkedIsOk(c: Cache, img: Image, guestEntry: u32, excluded: seq<(u32, u32)>, generation: u32, c': Cache, i: nat, j: nat)
    requires Appendable(c, img, guestEntry) && Appended(c, img, guestEntry, excluded, generation, c')
    requires LaidOut(|c'.bytes|, c'.entries, c'.sites)
    requires i < |c.entries| && j < |img.entries| && Relinks(c, img, guestEntry, i, j)
    ensures InactiveOk(c', i)
  {
    hide Jump, ClosedImage, InRelinkedHead, Laid, SitesApart, SlotSparesEntry, Activates, Disciplined, TracksBytes;
    var e := c.entries[i];
    SliceOfPrefix(c'.bytes, |c.bytes|, e.off, e.off + 5);
    assert ForwardsTo(c', i, |c.entries| + j);
  }

  /** The head of the entry is the same in both caches. */
  ghost predicate HeadKept(c: Cache, c': Cache, i: nat)
    requires i < |c.entries|
  {
    var e := c.entries[i];
    && e.off + e.elen <= |c.bytes| <= |c'.bytes| && e.elen >= 1
    && c'.bytes[e.off] == c.bytes[e.off]
    && (e.elen >= 5 ==> c'.bytes[e.off..e.off + 5] == c.bytes[e.off..e.off + 5])
  }

  lemma OldHeadKept(c: Cache, img: Image, guestEntry: u32, excluded: seq<(u32, u32)>, generation: u32, c': Cache, i: nat)
    requires Appendable(c, img, guestEntry) && Appended(c, img, guestEntry, excluded, generation, c')
    requires i < |c.entries| && forall j | 0 <= j < |img.entries| :: !Relinks(c, img, guestEntry, i, j)
    ensures HeadKept(c, c', i)
  {
    hide Relinks, Jump, ClosedImage, Relinked, Disciplined, Laid, SitesApart, SlotSparesEntry, Activates, TracksBytes, Revives,
         ShiftSites, ShiftEntries, NewStates;
    OldHead(c, img, guestEntry, excluded, generation, c', i);
    var e, n := c.entries[i], |c.bytes|;
    EqualHeads(c.bytes, c'.bytes[..n], e);
    SliceOfPrefix(c'.bytes, n, e.off, e.off + HeadLength(e));
  }

  /** An entry that forwarded to one whose head is kept does so still. */
  lemma ForwardKept(c: Cache, c': Cache, i: nat, m: nat)
    requires |c.states| == |c.entries| && c.entries <= c'.entries && c.states <= c'.states && |c'.states| == |c'.entries|
    requires forall k | 0 <= k < |c'.entries| :: c'.entries[k].elen >= 1 && c'.entries[k].off + c'.entries[k].elen <= |c'.bytes|
    requires i < |c.entries| && m < |c.entries| && HeadKept(c, c', i) && HeadKept(c, c', m)
    requires ForwardsTo(c, i, m) && (c.states[m].active || c.bytes[c.entries[m].off] == INT3)
    ensures InactiveOk(c', i)
  {
    hide Jump;
    assert c'.entries[i] == c.entries[i] && c'.entries[m] == c.entries[m] && c'.states[m] == c.states[m];
    assert ForwardsTo(c', i, m);
  }

  /** If the entry is not relinked, neither is the one it forwards to. */
  lemma UnrelinkedIsOk(c: Cache, img: Image, guestEntry: u32, excluded: seq<(u32, u32)>, generation: u32, c': Cache, i: nat)
    requires Appendable(c, img, guestEntry) && Appended(c, img, guestEntry, excluded, generation, c')
    requires LaidOut(|c'.bytes|, c'.entries, c'.sites)
    requires HeadsOk(c) && i < |c.entries| && !c.states[i].active
    requires forall j | 0 <= j < |img.entries| :: !Relinks(c, img, guestEntry, i, j)
    ensures InactiveOk(c', i)
  {
    hide Jump, ClosedImage, Relinked, Laid, SitesApart, SlotSparesEntry, Activates, Disciplined, TracksBytes, Revives, ShiftSites,
         NewStates, Spans, Room, ViewOf;
    var e := c.entries[i];
    OldHeadKept(c, img, guestEntry, excluded, generation, c', i);
    assert InactiveOk(c, i);
    if c.bytes[e.off] == INT3 {
      assert c'.entries[i] == e;
    } else {
      var m :| 0 <= m < |c.entries| && ForwardsTo(c, i, m) && (c.states[m].active || c.bytes[c.entries[m].off] == INT3);
      assert forall j | 0 <= j < |img.entries| :: Relinks(c, img, guestEntry, m, j) ==> Relinks(c, img, guestEntry, i, j);
      OldHeadKept(c, img, guestEntry, excluded, generation, c', m);
      ForwardKept(c, c', i, m);
    }
  }

  lemma OldStaysInactiveOk(c: Cache, img: Image, guestEntry: u32, excluded: seq<(u32, u32)>, generation: u32, c': Cache, i: nat)
    requires Appendable(c, img, guestEntry) && Appended(c, img, guestEntry, excluded, generation, c')
    requires LaidOut(|c'.bytes|, c'.entries, c'.sites)
    requires HeadsOk(c) && i < |c.entries| && !c.states[i].active
    ensures InactiveOk(c', i)
  {
    hide Relinks, Appended, InactiveOk, Disciplined, Laid, SitesApart, SlotSparesEntry;
    if j :| 0 <= j < |img.entries| && Relinks(c, img, guestEntry, i, j) {
      RelinkedIsOk(c, img, guestEntry, excluded, generation, c', i, j);
    } else {
      UnrelinkedIsOk(c, img, guestEntry, excluded, generation, c', i);
    }
  }

  lemma NewInactiveOk(c: Cache, img: Image, guestEntry: u32, excluded: seq<(u32, u32)>, generation: u32, c': Cache, j: nat)
    requires Appendable(c, img, guestEntry) && Appended(c, img, guestEntry, excluded, generation, c')
    requires LaidOut(|c'.bytes|, c'.entries, c'.sites)
    requires j < |img.entries| && !Activates(c, img.entries[j], guestEntry)
    ensures InactiveOk(c', |c.entries| + j)
  {
    hide Relinked, Activates, Laid, SitesApart, SlotSparesEntry;
    assert IsClosedHead(c, img, guestEntry, img.entries[j].off);
    assert c'.bytes[|c.bytes|..][img.entries[j].off] == c'.bytes[|c.bytes| + img.entries[j].off];
  }

  // ---- Discipline ----

  lemma NewDisciplined(c: Cache, img: Image, guestEntry: u32, excluded: seq<(u32, u32)>, generation: u32, c': Cache, j: nat)
    requires Appendable(c, img, guestEntry) && Appended(c, img, guestEntry, excluded, generation, c')
    requires j < |img.entries|
    ensures Disciplined(c', |c.entries| + j)
    ensures c'.states[|c.entries| + j].active ==> Spans(c'.entries[|c.entries| + j])
  {
    hide Relinked, ClosedImage, LaidOut, TracksBytes, IsPage, Page;
    var e := img.entries[j];
    if Tracked(c', |c.entries| + j) {
      assert IsPage(Page(e.guest)) && Touches(e, Page(e.guest)) by { StartPage(e); }
    }
  }

  lemma StartPage(e: Entry)
    requires Spans(e)
    ensures IsPage(Page(e.guest)) && Touches(e, Page(e.guest))
  {
  }

  /** Appending a translation keeps layout and activation discipline. */
  lemma AppendKeepsSound(c: Cache, img: Image, guestEntry: u32, excluded: seq<(u32, u32)>, generation: u32, c': Cache)
    requires Appendable(c, img, guestEntry) && Appended(c, img, guestEntry, excluded, generation, c')
    ensures Sound(c')
  {
    hide Relinked, ClosedImage, Laid, SitesApart, SlotSparesEntry, Activates, TracksBytes, Page, Spans, Touches;
    LaidOutAbove(|c.bytes|, c.entries, c.sites, |img.bytes|, img.entries, img.sites);
    forall i | 0 <= i < |c'.entries| ensures Disciplined(c', i) && (c'.states[i].active ==> Spans(c'.entries[i])) {
      if i < |c.entries| {
        assert Disciplined(c, i);
      } else {
        NewDisciplined(c, img, guestEntry, excluded, generation, c', i - |c.entries|);
      }
    }
  }

  /** Appending a translation keeps inactive heads safe, old and new ones. */
  lemma AppendKeepsHeads(c: Cache, img: Image, guestEntry: u32, excluded: seq<(u32, u32)>, generation: u32, c': Cache)
    requires Appendable(c, img, guestEntry) && Appended(c, img, guestEntry, excluded, generation, c') && HeadsOk(c)
    ensures Sound(c') && HeadsOk(c')
  {
    hide Relinked, ClosedImage, InactiveOk, Disciplined, Laid, SitesApart, SlotSparesEntry, Activates, TracksBytes, Revives, Spans;
    AppendKeepsSound(c, img, guestEntry, excluded, generation, c');
    forall i | 0 <= i < |c'.entries| && !c'.states[i].active ensures InactiveOk(c', i) {
      if i < |c.entries| {
        OldStaysInactiveOk(c, img, guestEntry, excluded, generation, c', i);
      } else {
        NewInactiveOk(c, img, guestEntry, excluded, generation, c', i - |c.entries|);
      }
    }
  }
  // ---- Which entries of the image may run ----

  /** The guest bytes of the entry lie on no quarantined page, and on a retired one only if it is, or the entry is, the requested one. */
  ghost predicate MayRun(c: Cache, e: Entry, guestEntry: u32) {
    && 0 < e.glen <= WORD - e.guest
    && forall a: u32 | e.guest <= a < e.guest + e.glen ::
         && Page(a) !in c.quarantined
         && (Page(a) in c.retired ==> Page(a) == Page(guestEntry) || e.guest == guestEntry)
  }

  lemma ByteOnPage(e: Entry, page: u32) returns (a: u32)
    requires IsPage(page) && Touches(e, page)
    ensures e.guest <= a < e.guest + e.glen && Page(a) == page
  {
    a := if e.guest < page then page else e.guest;
    PageUnique(a, page);
  }

  lemma PageOfByte(e: Entry, a: u32)
    requires Spans(e) && e.guest <= a < e.guest + e.glen
    ensures IsPage(Page(a)) && Touches(e, Page(a))
  {
  }

  lemma ActivatesByByte(c: Cache, e: Entry, guestEntry: u32)
    ensures Activates(c, e, guestEntry) <==> MayRun(c, e, guestEntry)
  {
    hide IsPage, Page, Touches;
    if Spans(e) {
      forall a: u32 | e.guest <= a < e.guest + e.glen { PageOfByte(e, a); }
      forall page: u32 | IsPage(page) && Touches(e, page) ensures exists a: u32 :: e.guest <= a < e.guest + e.glen && Page(a) == page {
        var a := ByteOnPage(e, page);
      }
    }
  }

  /** An appended entry is active exactly when it may run, and tracks its bytes exactly when none is excluded. */
  lemma AppendedStates(c: Cache, img: Image, guestEntry: u32, excluded: seq<(u32, u32)>, generation: u32, c': Cache, j: nat)
    requires Appendable(c, img, guestEntry) && Appended(c, img, guestEntry, excluded, generation, c') && j < |img.entries|
    ensures var e, k := img.entries[j], |c.entries| + j;
            && |c.states| == |c.entries| && k < |c'.entries| == |c'.states|
            && c'.entries[k] == e.(off := c'.entries[k].off)
            && (c'.states[k].active <==> MayRun(c, e, guestEntry))
            && (e.glen > 0 ==> (c'.states[k].tracks <==> Unexcluded(e, excluded)))
  {
    hide Relinked, ClosedImage, LaidOut, Disciplined, Activates, MayRun, TracksBytes, Unexcluded, Room, Spans, Revives, ShiftSites;
    ActivatesByByte(c, img.entries[j], guestEntry);
    if img.entries[j].glen > 0 { TracksByByte(img.entries[j], excluded); }
  }

  /** The requested page stops counting as retired exactly when an entry on it may run and has no excluded byte. */
  lemma RevivedPage(c: Cache, img: Image, guestEntry: u32, excluded: seq<(u32, u32)>, generation: u32, c': Cache, page: u32)
    requires Appendable(c, img, guestEntry) && Appended(c, img, guestEntry, excluded, generation, c')
    ensures page in c'.retired <==>
            && page in c.retired
            && (page == Page(guestEntry) ==>
                  forall j | 0 <= j < |img.entries| && MayRun(c, img.entries[j], guestEntry) && Unexcluded(img.entries[j], excluded) ::
                    Page(img.entries[j].guest) != page)
  {
    hide Relinked, ClosedImage, LaidOut, Disciplined, Activates, MayRun, TracksBytes, Unexcluded, Room, Page, ShiftSites, NewStates;
    forall j | 0 <= j < |img.entries|
      ensures Activates(c, img.entries[j], guestEntry) && TracksBytes(img.entries[j], excluded) <==>
              MayRun(c, img.entries[j], guestEntry) && Unexcluded(img.entries[j], excluded)
    {
      ActivatesByByte(c, img.entries[j], guestEntry);
      MayRunHasBytes(c, img.entries[j], guestEntry);
      if img.entries[j].glen > 0 { TracksByByte(img.entries[j], excluded); }
    }
  }

  lemma MayRunHasBytes(c: Cache, e: Entry, guestEntry: u32)
    ensures MayRun(c, e, guestEntry) ==> e.glen > 0
  {
  }

  // ---- What the bytes are afterwards ----

  /** The bytes of a jump, decoded: where it lands. */
  lemma JumpLands(b: seq<u8>, at: u32, target: u32)
    requires at + 5 <= |b| && at + 5 < WORD && b[at..at + 5] == Jump(at, target)
    ensures b[at] == JMP && Land(at + 5, Word32(b, at + 1)) == target
  {
    hide Bytes32, Word32, Land;
    var w, rel := b[at..at + 5], Wrap(target - (at + 5));
    assert b[at] == w[0];
    assert forall i | 0 <= i < 4 :: Bytes32(rel)[i] == w[1 + i] == b[at + 1 + i];
    WordAt(b, at + 1, rel);
    LandsOn(at + 5, target);
  }

  /** The emitted code of a new entry that may run is placed as it was emitted. */
  lemma LiveCodeIsPlaced(c: Cache, img: Image, guestEntry: u32, excluded: seq<(u32, u32)>, generation: u32, c': Cache, j: nat, x: nat)
    requires Appendable(c, img, guestEntry) && Appended(c, img, guestEntry, excluded, generation, c') && j < |img.entries|
    requires MayRun(c, img.entries[j], guestEntry) && x < img.entries[j].elen
    ensures var at := img.entries[j].off + x; at < |img.bytes| && |c.bytes| + at < |c'.bytes| && c'.bytes[|c.bytes| + at] == img.bytes[at]
  {
    hide Relinked, Disciplined, Activates, MayRun, TracksBytes, Room, Spans, Revives, ShiftSites, NewStates, SitesApart,
         SlotSparesEntry, Laid;
    ActivatesByByte(c, img.entries[j], guestEntry);
    var at := img.entries[j].off + x;
    assert c'.bytes[|c.bytes|..][at] == c'.bytes[|c.bytes| + at];
    forall m | 0 <= m < |img.entries| && img.entries[m].off == at ensures m == j {
      var lower, upper := img.entries[if m < j then m else j], img.entries[if m < j then j else m];
      assert m != j ==> lower.off + lower.elen <= upper.off;
    }
  }

  /** The emitted code of an old entry that is active is not touched. */
  lemma LiveCodeStays(c: Cache, img: Image, guestEntry: u32, excluded: seq<(u32, u32)>, generation: u32, c': Cache, i: nat, x: nat)
    requires Appendable(c, img, guestEntry) && Appended(c, img, guestEntry, excluded, generation, c')
    requires i < |c.entries| == |c.states| && c.states[i].active && x < c.entries[i].elen
    ensures var at := c.entries[i].off + x; at < |c.bytes| <= |c'.bytes| && c'.bytes[at] == c.bytes[at]
  {
    hide ClosedImage, Disciplined, Activates, TracksBytes, Room, Spans, Revives, ShiftSites, NewStates, SitesApart, SlotSparesEntry, Laid;
    var at := c.entries[i].off + x;
    assert c'.bytes[..|c.bytes|][at] == c'.bytes[at];
    forall k | 0 <= k < |c.entries| && c.entries[k].elen >= 5 && c.entries[k].off <= at < c.entries[k].off + 5 ensures k == i {
      var lower, upper := c.entries[if k < i then k else i], c.entries[if k < i then i else k];
      assert k != i ==> lower.off + lower.elen <= upper.off;
    }
  }

  /** A stale head of five bytes or more becomes a jump to the new entry for its address, if that may run. */
  lemma StaleHeadForwards(c: Cache, img: Image, guestEntry: u32, excluded: seq<(u32, u32)>, generation: u32, c': Cache, k: nat, j: nat)
    requires Appendable(c, img, guestEntry) && Appended(c, img, guestEntry, excluded, generation, c')
    requires k < |c.entries| == |c.states| && !c.states[k].active && c.entries[k].elen >= 5
    requires j < |img.entries| && img.entries[j].guest == c.entries[k].guest && MayRun(c, img.entries[j], guestEntry)
    ensures var at := c.entries[k].off;
            && at + 5 <= |c'.bytes| && c'.bytes[at] == 0xE9
            && Land(at + 5, Word32(c'.bytes, at + 1)) == |c.bytes| + img.entries[j].off
  {
    hide ClosedImage, Disciplined, Activates, MayRun, TracksBytes, Spans, Revives, ShiftSites, NewStates, SitesApart, SlotSparesEntry,
         Laid, Word32, Land, Jump;
    ActivatesByByte(c, img.entries[j], guestEntry);
    var at, n := c.entries[k].off, |c.bytes|;
    assert Relinks(c, img, guestEntry, k, j);
    assert c'.bytes[..n][at..at + 5] == c'.bytes[at..at + 5];
    JumpLands(c'.bytes, at, n + img.entries[j].off);
  }
}
