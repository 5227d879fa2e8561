/**
 The code cache as a value: emitted bytes, an append-only address map with a state per entry, the
 retired and quarantined guest pages, and the inline-cache sites. Its operations are the append of
 a translation, the patch of an inline cache and the retirement of a guest page.
 */
module CodeCaches {
  import opened Words
  import opened CodeCacheTypes
  import opened InlineCaches

  const INT3: u8 := 0xCC

  /** The longest cache whose rel32 branches all reach: see `Room`. */
  const MAX_CACHE: int := 0x7FFF_0000

  datatype Cache = Cache(
    base: u32,
    bytes: seq<u8>,
    entries: seq<Entry>,
    states: seq<EntryState>,
    retired: set<u32>,
    quarantined: set<u32>,
    sites: seq<Site>)

  datatype Image = Image(bytes: seq<u8>, entries: seq<Entry>, sites: seq<Site>)

  // ---- Layout ----

  /** The bytes of an entry that closing or relinking it may rewrite. */
  function HeadLength(e: Entry): nat {
    if e.elen >= 5 then 5 else 1
  }

  /**
   Where the windows of a slot may lie: never on the head byte of an entry, and the guard and the hit
   displacement never on its first five bytes. The immediate of a register-form compare does lie there.
   */
  predicate SlotSparesEntry(slot: Slot, e: Entry) {
    && Apart(slot.guard, 6, e.off, HeadLength(e))
    && Apart(slot.disp, 4, e.off, HeadLength(e))
    && Apart(slot.imm, 4, e.off, 1)
  }

  predicate SitesApart(a: Site, b: Site) {
    forall i, j | 0 <= i < |a.slots| && 0 <= j < |b.slots| :: SlotsApart(a.slots[i], b.slots[j])
  }

  /** What the emitter guarantees of the code it lays out in `size` bytes. */
  ghost predicate LaidOut(size: nat, entries: seq<Entry>, sites: seq<Site>) {
    && (forall i | 0 <= i < |entries| :: entries[i].elen >= 1 && entries[i].off + entries[i].elen <= size)
    && (forall i, j | 0 <= i < j < |entries| :: entries[i].off + entries[i].elen <= entries[j].off)
    && (forall k | 0 <= k < |sites| :: Laid(sites[k], size))
    && (forall k, l | 0 <= k < l < |sites| :: SitesApart(sites[k], sites[l]))
    && (forall k, i, m | 0 <= k < |sites| && 0 <= i < |sites[k].slots| && 0 <= m < |entries| ::
          SlotSparesEntry(sites[k].slots[i], entries[m]))
  }

  /** An image also has at most one entry for a guest address. */
  ghost predicate ImageLaidOut(img: Image) {
    && LaidOut(|img.bytes|, img.entries, img.sites)
    && forall i, j | 0 <= i < j < |img.entries| :: img.entries[i].guest != img.entries[j].guest
  }

  // ---- Guest pages ----

  /** The guest bytes of the entry form a range inside the 32-bit address space. */
  predicate Spans(e: Entry) {
    e.glen > 0 && e.guest + e.glen <= WORD
  }

  predicate Touches(e: Entry, page: int) {
    Spans(e) && Overlap(page, PAGE_SIZE, e.guest, e.glen)
  }

  predicate Tracked(c: Cache, i: nat)
    requires i < |c.entries| == |c.states|
  {
    c.states[i].active && c.states[i].tracks
  }

  /** Some entry that tracks its bytes, active or not, was registered on the page. */
  ghost predicate Known(c: Cache, page: int)
    requires |c.states| == |c.entries|
  {
    exists i | 0 <= i < |c.entries| :: c.states[i].tracks && Touches(c.entries[i], page)
  }

  /** Some active byte-tracking entry shares a byte with the guest range. */
  ghost predicate ActiveIn(c: Cache, addr: int, count: int)
    requires |c.states| == |c.entries|
  {
    exists i | 0 <= i < |c.entries| ::
      Tracked(c, i) && Spans(c.entries[i]) && Overlap(addr, count, c.entries[i].guest, c.entries[i].glen)
  }

  // ---- Inactive heads ----

  /** The five bytes of a `jmp rel32` at cache offset `at` to cache offset `target`. */
  function Jump(at: u32, target: u32): (r: seq<u8>)
    ensures |r| == 5
  {
    [JMP] + Bytes32(Wrap(target - (at + 5)))
  }

  /** Entry `i` starts with a jump to the head of entry `j` of the same guest address. */
  ghost predicate ForwardsTo(c: Cache, i: nat, j: nat)
    requires i < |c.entries| && j < |c.entries|
    requires c.entries[i].off + c.entries[i].elen <= |c.bytes|
  {
    var e := c.entries[i];
    && e.elen >= 5 && c.entries[j].guest == e.guest
    && c.bytes[e.off..e.off + 5] == Jump(e.off, c.entries[j].off)
  }

  /** Executing the head of an inactive entry traps, or lands at once on live code or on a trap. */
  ghost predicate InactiveOk(c: Cache, i: nat)
    requires |c.states| == |c.entries| && i < |c.entries|
    requires forall m | 0 <= m < |c.entries| ::
               c.entries[m].elen >= 1 && c.entries[m].off + c.entries[m].elen <= |c.bytes|
  {
    || c.bytes[c.entries[i].off] == INT3
    || exists j | 0 <= j < |c.entries| ::
         ForwardsTo(c, i, j) && (c.states[j].active || c.bytes[c.entries[j].off] == INT3)
  }

  // ---- The invariant ----

  /** The cache fits its 32-bit fields, and every branch inside it is a rel32. */
  predicate Room(c: Cache) {
    |c.bytes| <= MAX_CACHE && c.base + |c.bytes| <= WORD
  }

  ghost predicate Disciplined(c: Cache, i: nat)
    requires |c.states| == |c.entries| && i < |c.entries|
  {
    Tracked(c, i) ==>
      && Page(c.entries[i].guest) !in c.retired
      && forall page: u32 | IsPage(page) && Touches(c.entries[i], page) :: page !in c.quarantined
  }

  /** Layout and activation discipline. What inactive heads do is `HeadsOk`. */
  ghost predicate Sound(c: Cache) {
    && Room(c) && |c.states| == |c.entries|
    && LaidOut(|c.bytes|, c.entries, c.sites)
    && (forall i | 0 <= i < |c.entries| && c.states[i].active :: Spans(c.entries[i]))
    && (forall i | 0 <= i < |c.entries| :: Disciplined(c, i))
  }

  ghost predicate HeadsOk(c: Cache)
    requires Sound(c)
  {
    forall i | 0 <= i < |c.entries| && !c.states[i].active :: InactiveOk(c, i)
  }

  // ---- Retirement ----

  predicate Selects(c: Cache, page: int, i: nat)
    requires i < |c.entries| == |c.states|
  {
    Tracked(c, i) && Touches(c.entries[i], page)
  }

  /** The entries a retirement of the page deactivates, in map order. */
  function Selected(c: Cache, page: int, n: nat): (r: seq<nat>)
    requires |c.states| == |c.entries| && n <= |c.entries|
    ensures forall i: nat :: i in r <==> i < n && Selects(c, page, i)
  {
    if n == 0 then [] else
      Selected(c, page, n - 1) + if Selects(c, page, n - 1) then [n - 1] else []
  }

  function CloseHeads(b: seq<u8>, entries: seq<Entry>, closed: seq<nat>): (r: seq<u8>)
    requires forall i <- closed :: i < |entries| && entries[i].off < |b|
    ensures |r| == |b|
  {
    if closed == [] then b else
      var last := |closed| - 1;
      assert closed[last] in closed && forall i <- closed[..last] :: i in closed;
      Put(CloseHeads(b, entries, closed[..last]), entries[closed[last]].off, [INT3])
  }

  function ResetSites(b: seq<u8>, sites: seq<Site>, page: u32, k: nat): (r: seq<u8>)
    requires k <= |sites| && forall m | 0 <= m < |sites| :: Laid(sites[m], |b|)
    ensures |r| == |b|
  {
    if k == 0 then b else
      ResetSlots(ResetSites(b, sites, page, k - 1), sites[k - 1], page, |sites[k - 1].slots|)
  }

  /** The cache bytes once the selected heads are closed and the guards into the page are reset. */
  ghost function RetiredBytes(c: Cache, page: u32): (r: seq<u8>)
    requires Sound(c)
    ensures |r| == |c.bytes|
  {
    ResetSites(CloseHeads(c.bytes, c.entries, Selected(c, page, |c.entries|)), c.sites, page, |c.sites|)
  }

  function Deactivated(c: Cache, page: int): (r: seq<EntryState>)
    requires |c.states| == |c.entries|
    ensures |r| == |c.states|
  {
    seq(|c.states|, i requires 0 <= i < |c.states| =>
      if Selects(c, page, i) then c.states[i].(active := false) else c.states[i])
  }

  /**
   Retire the page. `writable` and `executable` say whether the two protection changes of the cache
   succeed; the result is the new cache and whether the page counts as retired.
   */
  ghost function RetirePage(c: Cache, page: u32, quarantine: bool, writable: bool, executable: bool): (Cache, bool)
    requires Sound(c)
  {
    var marked := c.(retired := c.retired + {page},
                     quarantined := if quarantine then c.quarantined + {page} else c.quarantined);
    if !Known(c, page) then (c, false)
    else if Selected(c, page, |c.entries|) == [] then (marked, true)
    else if !writable then (c, false)
    else if !executable then (c.(bytes := RetiredBytes(c, page)), false)
    else (marked.(bytes := RetiredBytes(c, page), states := Deactivated(c, page)), true)
  }

  // ---- Append ----

  /** The rule for entries of a new image: no quarantined page, and no retired one but the requested. */
  ghost predicate CanActivate(c: Cache, e: Entry, requested: u32) {
    Spans(e) && forall page: u32 | IsPage(page) && Touches(e, page) ::
      page !in c.quarantined && (page in c.retired ==> page == requested)
  }

  ghost predicate SpansQuarantined(c: Cache, e: Entry) {
    !Spans(e) || exists page: u32 :: IsPage(page) && Touches(e, page) && page in c.quarantined
  }

  /** The requested entry itself may also span a retired neighbour page. */
  ghost predicate Activates(c: Cache, e: Entry, guestEntry: u32) {
    CanActivate(c, e, Page(guestEntry)) || (e.guest == guestEntry && !SpansQuarantined(c, e))
  }

  /** The address lies in a range given by where it begins and its size. */
  predicate Within(a: int, range: (u32, u32)) {
    range.0 <= a < range.0 + range.1
  }

  /** No guest byte of the entry lies in an excluded range. */
  ghost predicate Unexcluded(e: Entry, excluded: seq<(u32, u32)>) {
    forall a: int, range <- excluded :: e.guest <= a < e.guest + e.glen ==> !Within(a, range)
  }

  predicate TracksBytes(e: Entry, excluded: seq<(u32, u32)>) {
    forall r | 0 <= r < |excluded| :: excluded[r].1 != 0 ==> !Overlap(e.guest, e.glen, excluded[r].0, excluded[r].1)
  }

  /** An entry with guest bytes tracks them exactly when none of them is excluded; empty ranges exclude nothing. */
  lemma TracksByByte(e: Entry, excluded: seq<(u32, u32)>)
    requires e.glen > 0
    ensures TracksBytes(e, excluded) <==> Unexcluded(e, excluded)
  {
    if TracksBytes(e, excluded) {
      forall a: int, range <- excluded | e.guest <= a < e.guest + e.glen ensures !Within(a, range) {
        var r :| 0 <= r < |excluded| && excluded[r] == range;
        assert excluded[r].1 != 0 ==> !Overlap(e.guest, e.glen, excluded[r].0, excluded[r].1);
      }
    } else {
      var r :| 0 <= r < |excluded| && excluded[r].1 != 0 && Overlap(e.guest, e.glen, excluded[r].0, excluded[r].1);
      var a: int := if e.guest < excluded[r].0 then excluded[r].0 else e.guest;
      assert excluded[r] in excluded && Within(a, excluded[r]);
    }
  }

  function ShiftEntry(e: Entry, delta: nat): Entry
    requires e.off + delta < WORD
  {
    e.(off := e.off + delta)
  }

  function ShiftSlot(s: Slot, delta: nat): Slot
    requires s.compare + delta < WORD && s.imm + delta < WORD && s.guard + delta < WORD && s.disp + delta < WORD
  {
    Slot(s.compare + delta, s.imm + delta, s.guard + delta, s.disp + delta)
  }

  /** Old entry `k` is inactive, long enough for a jump, and the image has an active entry `j` for its address. */
  ghost predicate Relinks(c: Cache, img: Image, guestEntry: u32, k: nat, j: nat)
    requires |c.states| == |c.entries| && k < |c.entries| && j < |img.entries|
  {
    && !c.states[k].active && c.entries[k].elen >= 5
    && img.entries[j].guest == c.entries[k].guest && Activates(c, img.entries[j], guestEntry)
  }

  /** The byte lies in the head of an entry that is relinked. */
  ghost predicate InRelinkedHead(c: Cache, img: Image, guestEntry: u32, x: int)
    requires |c.states| == |c.entries|
  {
    exists k, j | 0 <= k < |c.entries| && 0 <= j < |img.entries| ::
      Relinks(c, img, guestEntry, k, j) && c.entries[k].off <= x < c.entries[k].off + 5
  }

  /** The old bytes with each stale head jumping to its fresh entry, and nothing else changed. */
  ghost predicate Relinked(c: Cache, img: Image, guestEntry: u32, b: seq<u8>)
    requires Sound(c) && LaidOut(|img.bytes|, img.entries, img.sites)
    requires |c.bytes| + |img.bytes| <= MAX_CACHE
  {
    && |b| == |c.bytes|
    && (forall k, j | 0 <= k < |c.entries| && 0 <= j < |img.entries| && Relinks(c, img, guestEntry, k, j) ::
          b[c.entries[k].off..c.entries[k].off + 5] == Jump(c.entries[k].off, |c.bytes| + img.entries[j].off))
    && (forall x | 0 <= x < |b| && !InRelinkedHead(c, img, guestEntry, x) :: b[x] == c.bytes[x])
  }

  ghost predicate IsClosedHead(c: Cache, img: Image, guestEntry: u32, x: int) {
    exists j | 0 <= j < |img.entries| :: !Activates(c, img.entries[j], guestEntry) && img.entries[j].off == x
  }

  /** The image bytes with the head of every entry that stays inactive closed. */
  ghost predicate ClosedImage(c: Cache, img: Image, guestEntry: u32, b: seq<u8>) {
    && |b| == |img.bytes|
    && forall x | 0 <= x < |b| ::
         b[x] == if IsClosedHead(c, img, guestEntry, x) then INT3 else img.bytes[x]
  }

  function ShiftSite(s: Site, delta: nat): Site
    requires delta <= WORD && Laid(s, WORD - delta)
  {
    Site(s.miss + delta, if s.probe != 0 then s.probe + delta else 0,
         seq(|s.slots|, i requires 0 <= i < |s.slots| => ShiftSlot(s.slots[i], delta)), s.cursor)
  }

  function ShiftEntries(m: seq<Entry>, delta: nat): (r: seq<Entry>)
    requires forall i | 0 <= i < |m| :: m[i].off + delta < WORD
    ensures |r| == |m| && forall i | 0 <= i < |m| :: r[i] == m[i].(off := m[i].off + delta)
  {
    seq(|m|, i requires 0 <= i < |m| => ShiftEntry(m[i], delta))
  }

  function ShiftSites(sites: seq<Site>, delta: nat): (r: seq<Site>)
    requires delta <= WORD && forall k | 0 <= k < |sites| :: Laid(sites[k], WORD - delta)
    ensures |r| == |sites| && forall k | 0 <= k < |sites| :: r[k] == ShiftSite(sites[k], delta)
  {
    seq(|sites|, k requires 0 <= k < |sites| => ShiftSite(sites[k], delta))
  }

  ghost function NewStates(c: Cache, img: Image, guestEntry: u32, excluded: seq<(u32, u32)>, generation: u32): (r: seq<EntryState>)
    ensures |r| == |img.entries|
    ensures forall j | 0 <= j < |r| ::
              r[j] == EntryState(generation, Activates(c, img.entries[j], guestEntry), TracksBytes(img.entries[j], excluded))
  {
    seq(|img.entries|, j requires 0 <= j < |img.entries| =>
      EntryState(generation, Activates(c, img.entries[j], guestEntry), TracksBytes(img.entries[j], excluded)))
  }

  /** The image makes the requested page live again: an active entry of it that tracks its bytes starts there. */
  ghost predicate Revives(c: Cache, img: Image, guestEntry: u32, excluded: seq<(u32, u32)>) {
    exists j | 0 <= j < |img.entries| ::
      && Activates(c, img.entries[j], guestEntry) && TracksBytes(img.entries[j], excluded)
      && Page(img.entries[j].guest) == Page(guestEntry)
  }

  /** The pages under the byte-tracking entries that the append is about to make active. */
  ghost predicate CandidatePages(c: Cache, img: Image, guestEntry: u32, excluded: seq<(u32, u32)>, pages: seq<u32>) {
    forall page: u32 | IsPage(page) ::
      page in pages <==> exists j | 0 <= j < |img.entries| ::
        Activates(c, img.entries[j], guestEntry) && TracksBytes(img.entries[j], excluded) && Touches(img.entries[j], page)
  }

  /** There is room for the image and it has an active entry for the requested address. */
  ghost predicate Appendable(c: Cache, img: Image, guestEntry: u32) {
    && Sound(c) && ImageLaidOut(img)
    && |c.bytes| + |img.bytes| <= MAX_CACHE && c.base + |c.bytes| + |img.bytes| <= WORD
    && exists j | 0 <= j < |img.entries| :: img.entries[j].guest == guestEntry && Activates(c, img.entries[j], guestEntry)
  }

  /** The cache after a translation has been appended. */
  ghost predicate Appended(c: Cache, img: Image, guestEntry: u32, excluded: seq<(u32, u32)>, generation: u32, c': Cache)
    requires Appendable(c, img, guestEntry)
  {
    var n := |c.bytes|;
    && c'.base == c.base && |c'.bytes| == n + |img.bytes|
    && Relinked(c, img, guestEntry, c'.bytes[..n])
    && ClosedImage(c, img, guestEntry, c'.bytes[n..])
    && c'.entries == c.entries + ShiftEntries(img.entries, n)
    && c'.states == c.states + NewStates(c, img, guestEntry, excluded, generation)
    && c'.sites == c.sites + ShiftSites(img.sites, n)
    && c'.quarantined == c.quarantined
    && c'.retired == if Revives(c, img, guestEntry, excluded) then c.retired - {Page(guestEntry)} else c.retired
  }

  // ---- Patching an inline cache ----

  /** Patch site `k` for a transfer from it to guest address `t` at cache address `target`. */
  function PatchSite(c: Cache, k: nat, t: u32, target: u32): Cache
    requires k < |c.sites| && Laid(c.sites[k], |c.bytes|)
  {
    var s := c.sites[k];
    c.(bytes := PatchBytes(c.bytes, c.base, s, t, target),
       sites := c.sites[k := s.(cursor := CursorAfter(Views(c.bytes, c.base, s), s.cursor, t))])
  }

  /** A cache that could not be made writable keeps its bytes, though the site's cursor may have moved on. */
  function PatchOutcome(c: Cache, k: nat, t: u32, target: u32, writable: bool): Cache
    requires k < |c.sites| && Laid(c.sites[k], |c.bytes|)
  {
    var c' := PatchSite(c, k, t, target);
    if writable then c' else c.(sites := c'.sites)
  }

  /** The first byte of the entry traps. */
  predicate Traps(c: Cache, m: nat)
    requires m < |c.entries|
  {
    c.entries[m].off < |c.bytes| && c.bytes[c.entries[m].off] == INT3
  }

  /** The immediate of the slot lies on no byte that an inactive entry jumps with. */
  ghost predicate Clear(c: Cache, slot: Slot)
    requires |c.states| == |c.entries|
  {
    forall m | 0 <= m < |c.entries| && !c.states[m].active ::
      Traps(c, m) || Apart(slot.imm, 4, c.entries[m].off, HeadLength(c.entries[m]))
  }

  ghost predicate ClearSite(c: Cache, k: nat)
    requires |c.states| == |c.entries| && k < |c.sites|
  {
    forall i | 0 <= i < |c.sites[k].slots| :: Clear(c, c.sites[k].slots[i])
  }

  /** With target `t` in the immediate of the slot, the five bytes at the head of entry `m` are a jump to a safe entry. */
  ghost predicate JumpsOn(c: Cache, slot: Slot, t: u32, m: nat)
    requires |c.states| == |c.entries| && m < |c.entries| && slot.imm + 4 <= |c.bytes|
    requires c.entries[m].off + c.entries[m].elen <= |c.bytes|
    requires forall j | 0 <= j < |c.entries| :: c.entries[j].off < |c.bytes|
  {
    var e := c.entries[m];
    && e.elen >= 5
    && exists j | 0 <= j < |c.entries| ::
         && c.entries[j].guest == e.guest && (c.states[j].active || c.bytes[c.entries[j].off] == INT3)
         && Put(c.bytes, slot.imm, Bytes32(t))[e.off..e.off + 5] == Jump(e.off, c.entries[j].off)
  }

  /**
   Target `t` may be written into the immediate of the slot: a head it overlaps belongs to an active entry, traps,
   or is still a jump to a safe entry afterwards.
   */
  ghost predicate Spared(c: Cache, slot: Slot, t: u32)
    requires Sound(c) && SlotLaid(slot, |c.bytes|)
  {
    forall m | 0 <= m < |c.entries| && !c.states[m].active && c.bytes[c.entries[m].off] != INT3
               && !Apart(slot.imm, 4, c.entries[m].off, HeadLength(c.entries[m])) :: JumpsOn(c, slot, t, m)
  }
}
