/**
 The placement object: the cache bytes in place, the address map with its states, the page records,
 the inactive records and the lookup indexes, which all describe one cache.
 */
module Placements {
  import opened Words
  import opened SortedTable
  import opened CodeCacheTypes
  import opened InlineCaches
  import opened CodeCaches
  import opened Retirement
  import opened Translation
  import opened Patching
  import opened PageRecords
  import opened InactiveRecords
  import opened HashChains
  import opened SiteIndexes
  import opened CacheAddressIndexes
  import opened WriteWatches
  import opened GuestWrites
  import opened Relinking
  import opened WriteWatchSets

  function MissOffsets(sites: seq<Site>): (keys: seq<u32>)
    ensures |keys| == |sites| && forall k | 0 <= k < |sites| :: keys[k] == sites[k].miss
  {
    seq(|sites|, k requires 0 <= k < |sites| => sites[k].miss)
  }

  lemma {:induction false} OffsetsGrow(c: Cache, i: nat)
    requires LaidOut(|c.bytes|, c.entries, c.sites) && i < |c.entries|
    ensures i <= c.entries[i].off
    decreases i
  {
    hide SitesApart, SlotSparesEntry, Laid;
    if i > 0 { OffsetsGrow(c, i - 1); }
  }

  /** A laid-out map is sorted and small enough for its 32-bit indexes. */
  lemma MapFits(c: Cache)
    requires LaidOut(|c.bytes|, c.entries, c.sites) && |c.bytes| <= MAX_CACHE
    ensures |c.entries| < INVALID && OffsetSorted(c.entries) && OffsetsFit(c.entries)
  {
    hide SitesApart, SlotSparesEntry, Laid;
    if c.entries != [] { OffsetsGrow(c, |c.entries| - 1); }
  }

  /** An index of a map is an index, not a fresh one, of a longer map. */
  lemma IndexesMore(index: CacheAddressIndex, m: seq<Entry>, e: Entry)
    requires index.Indexes(m) && |m| + 1 < INVALID
    ensures index.Indexes(m + [e])
  {
    hide Linked, Hash;
    assert forall i | 0 <= i < |m| :: (m + [e])[i] == m[i];
    assert (m + [e])[..index.count] == m[..index.count];
    if index.buckets != [] {
      assert Guests(m + [e])[..index.count] == Guests(m)[..index.count];
      LinkedPrefix(Guests(m), Guests(m + [e]), index.count, index.buckets, index.next);
    }
  }

  lemma PagesBelowTop(page: u32)
    requires IsPage(page)
    ensures page + PAGE_SIZE <= WORD
  {
  }

  lemma PageOfPage(page: u32)
    requires IsPage(page)
    ensures Page(page) == page
  {
  }

  lemma TopmostPage(page: u32, last: u32)
    requires IsPage(page) && IsPage(last) && page <= last
    ensures page > LAST_STEPPED_PAGE ==> page == last
  {
  }

  ghost predicate TouchesBetween(e: Entry, page: u32, last: u32) {
    exists p: u32 :: IsPage(p) && page <= p <= last && Touches(e, p)
  }

  /** An entry that overlaps a range touches one of its pages. */
  lemma CommonPage(e: Entry, address: u32, count: u32)
    requires Spans(e) && count > 0 && address + count <= WORD && Overlap(address, count, e.guest, e.glen)
    ensures TouchesBetween(e, Page(address), Page(address + count - 1))
  {
    var x: u32 := if address < e.guest then e.guest else address;
    assert Touches(e, Page(x));
  }

  lemma TouchesFurther(e: Entry, page: u32, last: u32)
    requires IsPage(page) && IsPage(last) && TouchesBetween(e, page, last) && !Touches(e, page)
    ensures page < last && page + PAGE_SIZE <= last && TouchesBetween(e, page + PAGE_SIZE, last)
  {
    hide Touches;
    var p: u32 :| IsPage(p) && page <= p <= last && Touches(e, p);
    NextPage(page, p);
  }

  lemma HeadsLieInside(c: Cache)
    requires Sound(c)
    ensures forall i | 0 <= i < |c.entries| :: c.entries[i].off < |c.bytes|
    ensures forall k | 0 <= k < |c.sites| :: Laid(c.sites[k], |c.bytes|)
  {
  }

  lemma PartsFit(page: u32, last: u32, begin: u32, end: int)
    requires IsPage(page) && IsPage(last) && page <= last < end <= last + PAGE_SIZE && end <= WORD
    requires begin < page + PAGE_SIZE && begin < end
    ensures PartBegin(page, begin) < PartEnd(page, end) <= WORD
    ensures PartEnd(page, end) - PartBegin(page, begin) < WORD
  {
  }

  lemma LaidHasSlots(s: Site, size: nat)
    requires Laid(s, size)
    ensures s.slots != []
  {
  }

  lemma SelectedIsNamed(keys: seq<u32>, miss: u32, k: Option<nat>)
    requires IsFirstNamed(keys, miss, k)
    ensures k.Some? ==> k.value < |keys|
  {
  }

  lemma TailKept(b: seq<u8>, b': seq<u8>, n: nat, code: seq<u8>)
    requires |b| == |b'| && n + |code| <= |b| && b[n..] == b'[n..] && b[n..n + |code|] == code
    ensures b'[n..n + |code|] == code
  {
    assert b'[n..n + |code|] == b'[n..][..|code|] == b[n..][..|code|] == b[n..n + |code|];
  }

  lemma TakeMore<T>(s: seq<T>, j: nat)
    requires j < |s|
    ensures s[..j + 1] == s[..j] + [s[j]]
  {
  }

  lemma SortedBelow(m: seq<Entry>, prefix: seq<Entry>)
    requires OffsetSorted(m) && prefix <= m
    ensures OffsetSorted(prefix)
  {
  }

  lemma AppendFits(c: Cache, img: Image)
    requires Sound(c) && ImageLaidOut(img) && |c.bytes| + |img.bytes| <= MAX_CACHE
    ensures forall j | 0 <= j < |img.entries| :: img.entries[j].off + |c.bytes| < WORD
    ensures forall k | 0 <= k < |img.sites| :: Laid(img.sites[k], WORD - |c.bytes|)
    ensures |c.entries| + |img.entries| < INVALID
    ensures OffsetSorted(c.entries + ShiftEntries(img.entries, |c.bytes|))
  {
    hide Sound, LaidOut, Laid, OffsetSorted;
    var n := |c.bytes|;
    SoundIsLaidOut(c);
    FreshFits(c, img);
    LaidOutAbove(n, c.entries, c.sites, |img.bytes|, img.entries, img.sites);
    var b: seq<u8> := seq(n + |img.bytes|, _ => 0);
    MapFits(c.(bytes := b, entries := c.entries + ShiftEntries(img.entries, n), sites := c.sites + ShiftSites(img.sites, n)));
  }

  lemma SpansAnywhere(e: Entry, e': Entry)
    requires e' == e.(off := e'.off) && Spans(e)
    ensures Spans(e')
  {
  }

  lemma RequestedIsPage(a: u32)
    ensures IsPage(Page(a))
  {
  }

  lemma AdoptedBytes(b: seq<u8>, n: nat, n': nat)
    requires n <= n' <= |b|
    ensures b[..n'][..n] == b[..n] && b[..n'][n..] == b[n..n']
  {
  }

  lemma AdoptedStates(c: Cache, img: Image, guestEntry: u32, excluded: seq<(u32, u32)>, generation: u32, active: seq<bool>, tracks: seq<bool>)
    requires |active| == |tracks| == |img.entries|
    requires forall j | 0 <= j < |active| :: active[j] == Activates(c, img.entries[j], guestEntry)
    requires forall j | 0 <= j < |tracks| :: tracks[j] == TracksBytes(img.entries[j], excluded)
    ensures NewStates(c, img, guestEntry, excluded, generation) ==
            seq(|img.entries|, j requires 0 <= j < |img.entries| => EntryState(generation, active[j], tracks[j]))
    ensures Revives(c, img, guestEntry, excluded) <==>
            exists j | 0 <= j < |img.entries| :: active[j] && tracks[j] && Page(img.entries[j].guest) == Page(guestEntry)
  {
    hide Activates, TracksBytes, Page;
  }

  lemma PutOneMore(b: seq<u8>, at: nat, data: seq<u8>, k: nat)
    requires at + |data| <= |b| && k < |data|
    ensures Put(b, at, data[..k + 1]) == Put(b, at, data[..k])[at + k := data[k]]
  {
  }

  lemma PartlySorted(m: seq<Entry>, states: seq<EntryState>, t: Records, n: nat, upto: int)
    requires Partly(m, states, t, n, upto)
    ensures Sorted(t)
  {
  }

  lemma NothingRecorded()
    ensures Exact([], [], []) && Holds([], InactiveOf([]), NONE_INACTIVE)
    ensures RetiredIn([]) == {} && QuarantinedIn([]) == {} && Sorted<PageRecord>([])
  {
  }

  lemma NoChains(keys: seq<u32>)
    requires |keys| < INVALID
    ensures Chains(keys, 0, [], [])
  {
  }

  lemma AllActiveIsSound(c: Cache)
    requires Room(c) && LaidOut(|c.bytes|, c.entries, c.sites) && |c.states| == |c.entries|
    requires c.retired == {} && c.quarantined == {}
    requires forall i | 0 <= i < |c.entries| :: Spans(c.entries[i]) && c.states[i].active
    ensures Sound(c)
  {
    hide SitesApart, SlotSparesEntry, Laid, Spans, Touches;
  }

  lemma NewInactive(states: seq<EntryState>, state: EntryState)
    ensures InactiveOf(states + [state]) == InactiveOf(states) + if state.active then {} else {|states|}
  {
  }

  // ---- Preparing an image ----

  ghost predicate ClosedBelow(img: Image, active: seq<bool>, x: int) {
    exists l | 0 <= l < |active| && l < |img.entries| :: !active[l] && img.entries[l].off == x
  }

  ghost predicate TouchedBelow(img: Image, active: seq<bool>, tracks: seq<bool>, page: int)
    requires |tracks| == |active|
  {
    exists l | 0 <= l < |active| && l < |img.entries| :: active[l] && tracks[l] && Touches(img.entries[l], page)
  }

  lemma ClosedOneMore(img: Image, active: seq<bool>, a: bool)
    requires |active| < |img.entries|
    ensures forall x: int :: ClosedBelow(img, active + [a], x) <==> ClosedBelow(img, active, x) || (!a && img.entries[|active|].off == x)
  {
    var active' := active + [a];
    forall x: int | ClosedBelow(img, active, x) ensures ClosedBelow(img, active', x) {
      var l :| 0 <= l < |active| && !active[l] && img.entries[l].off == x;
      assert !active'[l];
    }
    if !a { assert !active'[|active|]; }
  }

  lemma TouchedOneMore(img: Image, active: seq<bool>, tracks: seq<bool>, a: bool, t: bool)
    requires |active| == |tracks| < |img.entries|
    ensures forall p: int :: TouchedBelow(img, active + [a], tracks + [t], p) <==>
                             TouchedBelow(img, active, tracks, p) || (a && t && Touches(img.entries[|active|], p))
  {
    hide Touches;
    var active', tracks' := active + [a], tracks + [t];
    forall p: int | TouchedBelow(img, active, tracks, p) ensures TouchedBelow(img, active', tracks', p) {
      var l :| 0 <= l < |active| && active[l] && tracks[l] && Touches(img.entries[l], p);
      assert active'[l] && tracks'[l];
    }
    if a && t { assert active'[|active|] && tracks'[|active|]; }
  }

  lemma EntryInside(img: Image, j: nat)
    requires LaidOut(|img.bytes|, img.entries, img.sites) && j < |img.entries|
    ensures img.entries[j].off < |img.bytes|
  {
  }

  lemma ActivatedSpans(c: Cache, e: Entry, guestEntry: u32)
    requires Activates(c, e, guestEntry)
    ensures Spans(e)
  {
  }

  function KeysOf(t: seq<Row<()>>): (keys: seq<u32>)
    ensures |keys| == |t| && forall i | 0 <= i < |t| :: keys[i] == t[i].key
  {
    seq(|t|, i requires 0 <= i < |t| => t[i].key)
  }

  lemma EmptyList()
    ensures Sorted<()>([]) && forall p: u32 :: Find<()>([], p) == None
  {
  }

  lemma KeysFind(t: seq<Row<()>>, key: u32)
    requires Sorted(t)
    ensures key in KeysOf(t) <==> Find(t, key).Some?
  {
    hide Sorted;
    var r := Find(t, key);
    if key in KeysOf(t) {
      var i :| 0 <= i < |t| && KeysOf(t)[i] == key;
      assert t[i].key == key;
    }
    if r.Some? {
      var i :| 0 <= i < |t| && t[i] == Row(key, r.value);
      assert KeysOf(t)[i] == key;
    }
  }

  datatype AppendResult =
    | AppendedAt(address: u32)
    | NoRoom
    | NotActive
    | NotWatched
    | NotWritable
    | Unsafe

  /** The bytes of every cache the relinking loop goes through: old code below `n`, the new image above. */
  ghost predicate RelinkingIn(c: Cache, img: Image, guestEntry: u32, done: set<(nat, nat)>, b: seq<u8>, code: seq<u8>)
    requires Sound(c) && LaidOut(|img.bytes|, img.entries, img.sites) && |c.bytes| + |img.bytes| <= MAX_CACHE
  {
    && |b| >= |c.bytes| + |code|
    && RelinkedSoFar(c, img, guestEntry, done, b[..|c.bytes|])
    && b[|c.bytes|..|c.bytes| + |code|] == code
  }

  class Placement {
    const base: u32
    const bytes: array<u8>
    const index: CacheAddressIndex
    const siteIndex: InlineCacheSiteIndex
    var size: nat
    var entries: seq<Entry>
    var states: seq<EntryState>
    var pages: Records
    var inactive: Inactive
    var sites: seq<Site>
    var nextGeneration: u32

    // ---- What the fields stand for ----

    ghost function Model(): Cache
      requires size <= bytes.Length && Sorted(pages)
      reads this, bytes
    {
      Cache(base, bytes[..size], entries, states, RetiredIn(pages), QuarantinedIn(pages), sites)
    }

    /** The entries that have their state already. */
    ghost function Mapped(): seq<Entry>
      reads `entries, `states
    {
      if |states| < |entries| then entries[..|states|] else entries
    }

    /** The records describe exactly the registered entries, and the chained index a prefix of the address map. */
    ghost predicate Recorded()
      reads `entries, `states, `pages, `inactive, index
    {
      && |states| <= |entries| < INVALID && Sorted(pages)
      && Exact(Mapped(), states, pages)
      && Holds(Mapped(), InactiveOf(states), inactive)
      && index.Indexes(entries) && index.sorted
    }

    ghost predicate Valid()
      reads this, bytes, index, siteIndex
    {
      && bytes.Length <= MAX_CACHE && base + bytes.Length <= WORD && size <= bytes.Length
      && |states| == |entries| && Sorted(pages)
      && Recorded() && index.Fresh(entries) && Sound(Model())
      && Chains(MissOffsets(sites), siteIndex.count, siteIndex.buckets, siteIndex.next)
    }

    /** Place the first image, every entry active, and register its address map. */
    constructor (base: u32, capacity: nat, img: Image, generation: u32)
      requires LaidOut(|img.bytes|, img.entries, img.sites) && forall i | 0 <= i < |img.entries| :: Spans(img.entries[i])
      requires |img.bytes| <= capacity <= MAX_CACHE && base + capacity <= WORD && |img.sites| < INVALID
      ensures Valid() && fresh(bytes) && fresh(index) && fresh(siteIndex)
      ensures Model() == Cache(base, img.bytes, img.entries, seq(|img.entries|, _ => EntryState(generation, true, true)), {}, {}, img.sites)
    {
      hide LaidOut, Sound, Recorded, Spans, RetiredIn, QuarantinedIn, Sorted, OffsetSorted, OffsetsFit, Chains;
      this.base, size := base, |img.bytes|;
      bytes := new u8[capacity](i => if 0 <= i < |img.bytes| then img.bytes[i] else 0);
      index := new CacheAddressIndex();
      siteIndex := new InlineCacheSiteIndex();
      entries, states, pages, inactive, sites := img.entries, [], [], NONE_INACTIVE, img.sites;
      nextGeneration := 0;
      new;
      NoChains(MissOffsets(sites));
      assert bytes[..size] == img.bytes;
      ghost var c := Cache(base, img.bytes, img.entries, seq(|img.entries|, _ => EntryState(generation, true, true)), {}, {}, img.sites);
      MapFits(c);
      Initialize(generation);
      AllActiveIsSound(c);
    }

    /** Forget all records and register the address map anew, every entry active. */
    method Initialize(generation: u32)
      requires |entries| < INVALID && OffsetSorted(entries) && forall i | 0 <= i < |entries| :: Spans(entries[i])
      requires index.sorted
      modifies `states, `pages, `inactive, `nextGeneration, index
      ensures Recorded() && index.Fresh(entries) && Sorted(pages)
      ensures states == seq(|entries|, _ => EntryState(generation, true, true))
      ensures RetiredIn(pages) == {} && QuarantinedIn(pages) == {} && nextGeneration == Wrap(generation + 1)
    {
      hide Recorded, Page, Spans, RetiredIn, QuarantinedIn, Sorted, OffsetSorted;
      index.Invalidate();
      states, pages, inactive := [], [], NONE_INACTIVE;
      nextGeneration := Wrap(generation + 1);
      StartsRecorded();
      var i := 0;
      while i < |entries|
        invariant 0 <= i <= |entries| && Recorded() && Sorted(pages)
        invariant nextGeneration == Wrap(generation + 1)
        invariant states == seq(i, _ => EntryState(generation, true, true))
        invariant RetiredIn(pages) == {} && QuarantinedIn(pages) == {}
      {
        Register(i, EntryState(generation, true, true), Page(entries[i].guest));
        i := i + 1;
      }
      EnsureIndexed();
    }

    /** Rebuild the index if some registration could not extend it. */
    method EnsureIndexed()
      requires Recorded() && OffsetSorted(entries)
      modifies index
      ensures Recorded() && index.Fresh(entries)
    {
      hide Exact, Holds, Linked;
      index.Ensure(entries);
    }

    lemma StartsRecorded()
      requires states == [] && pages == [] && inactive == NONE_INACTIVE && |entries| < INVALID
      requires index.Indexes(entries) && index.sorted
      ensures Recorded() && Sorted(pages) && RetiredIn(pages) == {} && QuarantinedIn(pages) == {}
    {
      hide Exact, Holds;
      NothingRecorded();
      assert Mapped() == [];
    }

    // ---- Registering entries ----

    method RecordInactive(i: nat, ghost noted: set<nat>)
      requires i < |Mapped()| && Holds(Mapped(), noted, inactive)
      modifies `inactive
      ensures Holds(Mapped(), noted + {i}, inactive)
    {
      NotedHolds(Mapped(), noted, inactive, i);
      assert Noted(Mapped(), inactive, i) == Noted(entries, inactive, i);
      inactive := Noted(entries, inactive, i);
    }

    /** List the entry registered last, which tracks its bytes, on every page it touches. */
    method RegisterPages(i: nat)
      requires i + 1 == |states| == |Mapped()| && Partly(Mapped(), states, pages, i, 0) && states[i].tracks
      modifies `pages
      ensures Exact(Mapped(), states, pages)
      ensures RetiredIn(pages) == old(RetiredIn(pages)) && QuarantinedIn(pages) == old(QuarantinedIn(pages))
    {
      hide Partly, Page, IsPage, Overlap, Find, Sorted, Store, RetiredIn, QuarantinedIn;
      var e := entries[i];
      ghost var m := Mapped();
      assert m[i] == e;
      PartlySorted(m, states, pages, i, 0);
      if e.glen == 0 || e.guest + e.glen > WORD {
        SkipPages(m, states, pages, i, 0, WORD);
        RegisteredFully(m, states, pages, i);
        return;
      }
      var last := Page(e.guest + e.glen - 1);
      var page := Page(e.guest);
      forall p: u32 | IsPage(p) ensures Touches(e, p) <==> page <= p <= last { TouchedPages(e, p); }
      SkipPages(m, states, pages, i, 0, page);
      TouchedPages(e, page);
      while true
        invariant IsPage(page) && Page(e.guest) <= page <= last
        invariant Partly(m, states, pages, i, page) && Sorted(pages)
        invariant RetiredIn(pages) == old(RetiredIn(pages)) && QuarantinedIn(pages) == old(QuarantinedIn(pages))
        decreases last - page
      {
        RegisterOn(m, states, pages, i, page);
        var r := Record(pages, page);
        Flags(pages, page);
        StoreFlags(pages, page, r.(maps := r.maps + [i]));
        pages := Store(pages, page, r.(maps := r.maps + [i]));
        if page == last || page > LAST_STEPPED_PAGE { break; }
        NextPage(page, last);
        page := page + PAGE_SIZE;
        PartlySorted(m, states, pages, i, page);
      }
      PagesBelowTop(page);
      SkipPages(m, states, pages, i, page + PAGE_SIZE, WORD);
      RegisteredFully(m, states, pages, i);
    }

    /** The next entry becomes known; an active one on the requested page makes that page live again. */
    method Register(i: nat, state: EntryState, requested: u32)
      requires Recorded() && |states| == i < |entries| && OffsetSorted(entries)
      requires (state.active ==> Spans(entries[i])) && IsPage(requested)
      modifies `states, `pages, `inactive, index
      ensures Recorded() && Sorted(pages) && states == old(states) + [state]
      ensures QuarantinedIn(pages) == old(QuarantinedIn(pages))
      ensures RetiredIn(pages) == old(RetiredIn(pages)) -
                if state.tracks && state.active && Page(entries[i].guest) == requested then {requested} else {}
    {
      hide Partly, Holds, Page, IsPage, Find, Sorted, Store, RetiredIn, QuarantinedIn, Linked, Touches;
      var e := entries[i];
      ghost var m := Mapped();
      ExactForMore(m, states, pages, e, state);
      HoldsForMore(m, InactiveOf(states), inactive, e);
      NewInactive(states, state);
      states := states + [state];
      assert Mapped() == m + [e];
      if state.tracks {
        RegisterPages(i);
        if state.active && Page(e.guest) == requested {
          StartPage(e);
          Revive(requested, i);
        }
      } else {
        SkipPages(Mapped(), states, pages, i, 0, WORD);
        RegisteredFully(Mapped(), states, pages, i);
      }
      PartlySorted(Mapped(), states, pages, i + 1, 0);
      if !state.active {
        RecordInactive(i, InactiveOf(old(states)));
      }
      index.Append(entries, i);
      assert InactiveOf(states) == InactiveOf(old(states)) + if state.active then {} else {i};
      assert InactiveOf(old(states)) + {} == InactiveOf(old(states));
    }

    /** The page of an entry just registered is not retired any more. */
    method Revive(page: u32, i: nat)
      requires i < |states| == |Mapped()| && Exact(Mapped(), states, pages)
      requires IsPage(page) && states[i].tracks && Touches(Mapped()[i], page)
      modifies `pages
      ensures Exact(Mapped(), states, pages)
      ensures RetiredIn(pages) == old(RetiredIn(pages)) - {page} && QuarantinedIn(pages) == old(QuarantinedIn(pages))
    {
      hide Partly, Registered, Find, Sorted, Store, RetiredIn, QuarantinedIn, Touches;
      PartlySorted(Mapped(), states, pages, |states|, 0);
      RecordIsExact(Mapped(), states, pages, page);
      var r := Record(pages, page);
      ExactForFlags(Mapped(), states, pages, page, r.(retired := false));
      StoreFlags(pages, page, r.(retired := false));
      Flags(pages, page);
      pages := Store(pages, page, r.(retired := false));
    }

    // ---- Queries ----

    method IsPageRetired(address: u32) returns (r: bool)
      requires Valid()
      ensures r <==> Page(address) in Model().retired
    {
      Flags(pages, Page(address));
      var found := Find(pages, Page(address));
      r := found.Some? && found.value.retired;
    }

    method IsPageQuarantined(address: u32) returns (r: bool)
      requires Valid()
      ensures r <==> Page(address) in Model().quarantined
    {
      Flags(pages, Page(address));
      var found := Find(pages, Page(address));
      r := found.Some? && found.value.quarantined;
    }

    /** No page under the entry is quarantined, and none but the requested one is retired. */
    method CanActivate(e: Entry, requested: u32) returns (r: bool)
      requires Valid()
      ensures r <==> CodeCaches.CanActivate(Model(), e, requested)
    {
      hide Sound, Recorded, Chains, RetiredIn, QuarantinedIn, Find, Page, IsPage, Touches;
      if e.glen == 0 || e.guest + e.glen > WORD { return false; }
      var first, last := Page(e.guest), Page(e.guest + e.glen - 1);
      forall p: u32 | IsPage(p) ensures Touches(e, p) <==> first <= p <= last { TouchedPages(e, p); }
      TouchedPages(e, first);
      var page := first;
      while true
        invariant IsPage(page) && first <= page <= last
        invariant forall p: u32 | IsPage(p) && Touches(e, p) && p < page ::
                    p !in Model().quarantined && (p in Model().retired ==> p == requested)
        decreases last - page
      {
        var found := Find(pages, page);
        Flags(pages, page);
        if found.Some? && (found.value.quarantined || (found.value.retired && page != requested)) {
          return false;
        }
        TopmostPage(page, last);
        if page == last || page > LAST_STEPPED_PAGE { return true; }
        forall p: u32 | IsPage(p) && p < page + PAGE_SIZE ensures p <= page { PagesBetween(page, p); }
        NextPage(page, last);
        page := page + PAGE_SIZE;
      }
    }

    method SpansQuarantinedPage(e: Entry) returns (r: bool)
      requires Valid()
      ensures r <==> SpansQuarantined(Model(), e)
    {
      hide Sound, Recorded, Chains, RetiredIn, QuarantinedIn, Find, Page, IsPage, Touches;
      if e.glen == 0 || e.guest + e.glen > WORD { return true; }
      var first, last := Page(e.guest), Page(e.guest + e.glen - 1);
      forall p: u32 | IsPage(p) ensures Touches(e, p) <==> first <= p <= last { TouchedPages(e, p); }
      TouchedPages(e, first);
      var page := first;
      while true
        invariant IsPage(page) && first <= page <= last
        invariant forall p: u32 | IsPage(p) && Touches(e, p) && p < page :: p !in Model().quarantined
        decreases last - page
      {
        r := IsPageQuarantined(page);
        PageOfPage(page);
        if r { return; }
        TopmostPage(page, last);
        if page == last || page > LAST_STEPPED_PAGE { return false; }
        forall p: u32 | IsPage(p) && p < page + PAGE_SIZE ensures p <= page { PagesBetween(page, p); }
        NextPage(page, last);
        page := page + PAGE_SIZE;
      }
    }

    ghost predicate Overlapping(i: nat, address: u32, count: u32)
      reads this
      requires i < |entries| == |states|
    {
      && states[i].active && states[i].tracks && Spans(entries[i])
      && Overlap(address, count, entries[i].guest, entries[i].glen)
    }

    method ListHasActive(maps: seq<nat>, address: u32, count: u32) returns (r: bool)
      requires |states| == |entries| && forall i <- maps :: i < |entries| && states[i].tracks && Spans(entries[i])
      ensures r <==> exists i <- maps :: Overlapping(i, address, count)
    {
      hide Overlap, Spans;
      var k := 0;
      while k < |maps|
        invariant 0 <= k <= |maps|
        invariant forall j | 0 <= j < k :: maps[j] < |entries| && !Overlapping(maps[j], address, count)
      {
        var i := maps[k];
        assert i in maps;
        if states[i].active && states[i].tracks && Overlap(address, count, entries[i].guest, entries[i].glen) {
          assert Overlapping(i, address, count);
          return true;
        }
        k := k + 1;
      }
      r := false;
    }

    /** Some active byte-tracking entry overlaps the range; ranges that wrap around hold none. */
    method RangeHasActiveTranslation(address: u32, count: u32) returns (r: bool)
      requires Valid()
      ensures r <==> count > 0 && address + count <= WORD && ActiveIn(Model(), address, count)
    {
      hide Sound, Exact, Holds, Chains, Linked, RetiredIn, QuarantinedIn, Find, Page, IsPage, Overlap, Spans, TouchesBetween,
           Registered, OffsetSorted, Guests;
      if count == 0 || address + count > WORD { return false; }
      var page, last := Page(address), Page(address + count - 1);
      LastPage(address, count);
      forall i | 0 <= i < |entries| && Overlapping(i, address, count) ensures TouchesBetween(entries[i], page, last) {
        CommonPage(entries[i], address, count);
      }
      while true
        invariant IsPage(page) && page <= last
        invariant forall i | 0 <= i < |entries| && Overlapping(i, address, count) :: TouchesBetween(entries[i], page, last)
        decreases last - page
      {
        r := PageHasActive(page, address, count);
        if r { return; }
        forall i | 0 <= i < |entries| && Overlapping(i, address, count)
          ensures page < last && page + PAGE_SIZE <= last && TouchesBetween(entries[i], page + PAGE_SIZE, last)
        {
          TouchesFurther(entries[i], page, last);
        }
        TopmostPage(page, last);
        if page == last || page > LAST_STEPPED_PAGE { return false; }
        NextPage(page, last);
        page := page + PAGE_SIZE;
      }
    }

    /** Of the entries on the page, some active one overlaps the range. */
    method PageHasActive(page: u32, address: u32, count: u32) returns (r: bool)
      requires Valid() && IsPage(page)
      ensures r ==> exists i | 0 <= i < |entries| :: Overlapping(i, address, count)
      ensures !r ==> forall i | 0 <= i < |entries| && Overlapping(i, address, count) :: !Touches(entries[i], page)
    {
      hide Sound, Exact, Holds, Chains, Linked, Find, IsPage, Overlap, OffsetSorted, Guests;
      RecordIsExact(entries, states, pages, page);
      var found := Find(pages, page);
      if found.None? { return false; }
      r := ListHasActive(found.value.maps, address, count);
    }

    // ---- Address lookups ----

    ghost predicate LookupOk()
      reads this, index
    {
      && |states| == |entries| && Recorded() && OffsetSorted(entries) && OffsetsFit(entries)
      && forall i | 0 <= i < |entries| :: base + entries[i].off < WORD
    }

    /** In every valid state the lookups are defined and both fast paths are usable. */
    lemma LookupsAreUsable()
      requires Valid()
      ensures LookupOk() && index.Fresh(entries) && index.sorted
    {
      hide Exact, Holds, Linked, Chains, Disciplined;
      MapFits(Model());
    }

    /** The scans that answer while the index is behind the address map. */
    method ScanCacheAddress(guest: u32, newestActive: bool) returns (r: Option<nat>)
      requires |states| == |entries|
      ensures if newestActive then IsNewestActive(entries, states, guest, r) else IsOldest(entries, guest, r)
    {
      if newestActive {
        var k: nat := |entries|;
        while k > 0
          invariant k <= |entries| && forall j | k <= j < |entries| :: entries[j].guest == guest ==> !states[j].active
        {
          k := k - 1;
          if states[k].active && entries[k].guest == guest { return Some(k); }
        }
      } else {
        var k: nat := 0;
        while k < |entries|
          invariant k <= |entries| && forall j | 0 <= j < k :: entries[j].guest != guest
        {
          if entries[k].guest == guest { return Some(k); }
          k := k + 1;
        }
      }
      r := None;
    }

    /** Some entry of the guest address is inactive. */
    ghost predicate EverRetired(guest: u32)
      requires |states| == |entries|
      reads `entries, `states
    {
      exists i | 0 <= i < |entries| :: entries[i].guest == guest && !states[i].active
    }

    /** The entry a lookup of the guest address has to find: the newest active one if it was ever retired, else the oldest. */
    ghost predicate Sought(guest: u32, i: Option<nat>)
      requires |states| == |entries|
      reads `entries, `states
    {
      if EverRetired(guest) then IsNewestActive(entries, states, guest, i) else IsOldest(entries, guest, i)
    }

    /**
     Indexed or scanned, the answer is the address of the entry sought, which is active, and there is an answer
     whenever the guest address has an active entry.
     */
    method FindCacheAddress(guest: u32) returns (r: Option<u32>)
      requires LookupOk()
      ensures r.Some? ==> exists i: nat | i < |entries| ::
                Sought(guest, Some(i)) && entries[i].guest == guest && states[i].active && r.value == base + entries[i].off
      ensures r.None? ==> Sought(guest, None) && forall i | 0 <= i < |entries| && entries[i].guest == guest :: !states[i].active
    {
      hide Exact, Linked, Find, OffsetSorted, OffsetsFit;
      assert Mapped() == entries;
      var newestActive := Find(inactive.guests, guest).Some?;
      assert newestActive <==> EverRetired(guest);
      var i: Option<nat> := None;
      if index.count == |entries| && entries != [] {
        i := index.Lookup(entries, states, guest, newestActive);
      } else {
        i := ScanCacheAddress(guest, newestActive);
      }
      assert Sought(guest, i);
      r := None;
      if i.Some? {
        var address: u32 := base + entries[i.value].off;
        r := Some(address);
        assert Sought(guest, Some(i.value));
      }
    }

    /** The guest address of the first entry in map order whose code covers the cache address. */
    method FindGuestAddress(address: u32) returns (r: Option<u32>)
      requires LookupOk()
      ensures address < base ==> r == None
      ensures address >= base && r.Some? ==> exists i: nat | i < |entries| ::
                IsFirstCovering(entries, address - base, Some(i)) && r.value == entries[i].guest
      ensures address >= base && r.None? ==> IsFirstCovering(entries, address - base, None)
    {
      hide Exact, Linked, Holds;
      r := None;
      if address < base { return; }
      var offset: u32 := address - base;
      var usable, i := index.LookupGuest(entries, offset);
      if usable {
        if i.Some? {
          assert IsFirstCovering(entries, offset, Some(i.value));
          r := Some(entries[i.value].guest);
        }
        return;
      }
      var k: nat := 0;
      while k < |entries|
        invariant k <= |entries| && forall j | 0 <= j < k :: !Covers(entries[j], offset)
      {
        assert entries[k].off + 0xFF < WORD;
        if entries[k].off <= offset < Wrap(entries[k].off + entries[k].elen) {
          assert IsFirstCovering(entries, offset, Some(k));
          return Some(entries[k].guest);
        }
        k := k + 1;
      }
    }

    /** An inactive entry starts at the cache address. */
    method IsCacheAddressRetired(address: u32) returns (r: bool)
      requires LookupOk()
      ensures r <==> exists i | 0 <= i < |entries| :: !states[i].active && base + entries[i].off == address
    {
      hide Exact, Linked, Find, OffsetSorted, OffsetsFit;
      assert Mapped() == entries;
      if address < base { return false; }
      var offset: u32 := address - base;
      r := offset in inactive.byOffset && inactive.byOffset[offset] < |states| && !states[inactive.byOffset[offset]].active;
      if r {
        assert entries[inactive.byOffset[offset]].off == offset;
      }
    }

    // ---- Writing cache bytes ----

    /** Copy the data over the cache bytes. */
    method Write(at: nat, data: seq<u8>)
      requires size <= bytes.Length && at + |data| <= size
      modifies bytes
      ensures bytes[..size] == Put(old(bytes[..size]), at, data)
      ensures bytes[size..] == old(bytes[size..])
    {
      ghost var before := bytes[..size];
      var k := 0;
      while k < |data|
        invariant 0 <= k <= |data|
        invariant bytes[size..] == old(bytes[size..])
        invariant bytes[..size] == Put(before, at, data[..k])
      {
        bytes[at + k] := data[k];
        PutOneMore(before, at, data, k);
        k := k + 1;
      }
      assert data[..k] == data;
    }

    method ReadWord(at: nat) returns (v: u32)
      requires size <= bytes.Length && at + 4 <= size
      ensures v == Word32(bytes[..size], at)
    {
      var b0: int, b1: int, b2: int, b3: int := bytes[at], bytes[at + 1], bytes[at + 2], bytes[at + 3];
      v := b0 + 0x100 * b1 + 0x1_0000 * b2 + 0x100_0000 * b3;
    }

    // ---- Retiring a page ----

    /** Reset every learned guard whose target lies on the page. */
    method ResetGuards(page: u32)
      requires size <= bytes.Length <= MAX_CACHE && forall k | 0 <= k < |sites| :: Laid(sites[k], size)
      modifies bytes
      ensures bytes[..size] == CodeCaches.ResetSites(old(bytes[..size]), sites, page, |sites|)
    {
      hide Laid, ResetSlots, SlotLaid, SlotsApart;
      ghost var before := bytes[..size];
      var k := 0;
      while k < |sites|
        invariant 0 <= k <= |sites|
        invariant bytes[..size] == CodeCaches.ResetSites(before, sites, page, k)
      {
        ResetSiteGuards(sites[k], page);
        k := k + 1;
      }
    }

    method ResetSiteGuards(site: Site, page: u32)
      requires size <= bytes.Length <= MAX_CACHE && Laid(site, size)
      modifies bytes
      ensures bytes[..size] == ResetSlots(old(bytes[..size]), site, page, |site.slots|)
    {
      hide ResetSlot, SlotsApart, Apart;
      ghost var before := bytes[..size];
      var k := 0;
      while k < |site.slots|
        invariant 0 <= k <= |site.slots|
        invariant bytes[..size] == ResetSlots(before, site, page, k)
      {
        ResetGuard(site.slots[k], GuardTarget(site), page);
        k := k + 1;
      }
    }

    method ResetGuard(slot: Slot, target: u32, page: u32)
      requires size <= bytes.Length <= MAX_CACHE && SlotLaid(slot, size) && target < size
      modifies bytes
      ensures bytes[..size] == ResetSlot(old(bytes[..size]), target, slot, page)
    {
      hide Page, Word32, ResetBytes, Put;
      if slot.guard + 6 > size || slot.imm + 4 > size || target >= size { return; }
      if bytes[slot.guard] != JNE0 || bytes[slot.guard + 1] != JNE1 { return; }
      var learned := ReadWord(slot.imm);
      if Page(learned) != page { return; }
      Write(slot.guard, ResetBytes(slot, target));
    }

    /** Close the heads of the selected entries. */
    method CloseEntries(selected: seq<nat>)
      requires size <= bytes.Length && forall i <- selected :: i < |entries| && entries[i].off < size
      modifies bytes
      ensures bytes[..size] == CloseHeads(old(bytes[..size]), entries, selected)
    {
      hide Put;
      ghost var before := bytes[..size];
      var k := 0;
      while k < |selected|
        invariant 0 <= k <= |selected|
        invariant forall i <- selected[..k] :: i in selected
        invariant bytes[..size] == CloseHeads(before, entries, selected[..k])
      {
        assert selected[k] in selected;
        assert selected[..k + 1][..k] == selected[..k];
        assert forall i <- selected[..k + 1] :: i in selected;
        Write(entries[selected[k]].off, [INT3]);
        k := k + 1;
      }
      assert selected[..k] == selected;
    }

    /** The active entries a page's record lists. */
    method SelectActive(maps: seq<nat>, page: u32) returns (selected: seq<nat>)
      requires |states| == |entries|
      requires forall i <- maps :: i < |entries| && states[i].tracks && Touches(entries[i], page)
      ensures selected == ActiveOf(states, maps)
    {
      hide ActiveOf, Overlap, Spans;
      selected := [];
      NoneActive(states);
      var k := 0;
      while k < |maps|
        invariant 0 <= k <= |maps| && (forall i <- maps[..k] :: i < |states|)
        invariant selected == ActiveOf(states, maps[..k])
      {
        var i := maps[k];
        assert i in maps;
        ActiveOfMore(states, maps[..k], i);
        assert maps[..k + 1] == maps[..k] + [i];
        if states[i].active && states[i].tracks && Overlap(page, PAGE_SIZE, entries[i].guest, entries[i].glen) {
          selected := selected + [i];
        }
        k := k + 1;
      }
      assert maps[..k] == maps;
    }

    method MarkRetired(page: u32, quarantine: bool)
      requires Recorded() && Find(pages, page).Some?
      modifies `pages
      ensures Recorded() && Sorted(pages)
      ensures RetiredIn(pages) == old(RetiredIn(pages)) + {page}
      ensures QuarantinedIn(pages) == if quarantine then old(QuarantinedIn(pages)) + {page} else old(QuarantinedIn(pages))
    {
      hide Partly, Registered, Store, RetiredIn, QuarantinedIn, Touches, Holds, Linked;
      var r := Record(pages, page);
      var r' := r.(retired := true, quarantined := r.quarantined || quarantine);
      ExactForFlags(Mapped(), states, pages, page, r');
      StoreFlags(pages, page, r');
      Flags(pages, page);
      pages := Store(pages, page, r');
      PartlySorted(Mapped(), states, pages, |Mapped()|, 0);
    }

    /** Deactivate the selected entries, one after the other, and record them as inactive. */
    method Deactivate(selected: seq<nat>)
      requires Recorded() && |states| == |entries| && forall i <- selected :: i < |entries|
      modifies `states, `inactive
      ensures Recorded() && |states| == |entries|
      ensures forall i | 0 <= i < |states| ::
                states[i] == if i in selected then old(states)[i].(active := false) else old(states)[i]
    {
      hide Exact, Holds, Linked;
      var k := 0;
      while k < |selected|
        invariant 0 <= k <= |selected| && |states| == |entries| && Recorded()
        invariant forall i | 0 <= i < |states| ::
                    states[i] == if i in selected[..k] then old(states)[i].(active := false) else old(states)[i]
      {
        var i := selected[k];
        assert i in selected && selected[..k + 1] == selected[..k] + [i];
        ghost var before := states;
        states := states[i := states[i].(active := false)];
        ExactForSame(Mapped(), before, states, pages);
        assert InactiveOf(states) == InactiveOf(before) + {i};
        RecordInactive(i, InactiveOf(before));
        k := k + 1;
      }
      assert selected[..k] == selected;
    }

    /** Close the selected heads, then reset the guards. */
    method RewriteFor(page: u32, selected: seq<nat>)
      requires Valid() && selected == Selected(Model(), page, |entries|)
      modifies bytes
      ensures bytes[..size] == RetiredBytes(old(Model()), page)
    {
      hide Recorded, Sound, Chains, RetiredIn, QuarantinedIn, CloseHeads, Selected, CodeCaches.ResetSites, Sorted;
      HeadsLieInside(Model());
      CloseEntries(selected);
      ResetGuards(page);
    }

    /**
     Retire a guest page: close the heads of its active byte-tracking entries, reset the learned guards that
     lead to it, and mark it. `writable` and `executable` are the outcomes of the two protection changes.
     */
    method Retire(address: u32, quarantine: bool, writable: bool, executable: bool) returns (retired: bool)
      requires Valid()
      modifies `states, `pages, `inactive, bytes
      ensures size <= bytes.Length && Sorted(pages)
      ensures (Model(), retired) == RetirePage(old(Model()), Page(address), quarantine, writable, executable)
      ensures Valid()
    {
      hide Recorded, Sound, Chains, Page, RetiredIn, QuarantinedIn, RetiredBytes, Touches, Known, Sorted, Find, ActiveOf;
      var page := Page(address);
      ghost var c := Model();
      RetirementKeepsSound(c, page, quarantine, writable, executable);
      RetirementRecord(page);
      var found := Find(pages, page);
      if found.None? { return false; }
      var selected := SelectActive(found.value.maps, page);
      if selected == [] {
        MarkRetired(page, quarantine);
        return true;
      }
      if !writable { return false; }
      RewriteFor(page, selected);
      if !executable { return false; }
      Deactivate(selected);
      MarkRetired(page, quarantine);
      retired := true;
      assert states == Deactivated(c, page);
    }

    /** The record of the page lists its entries, and the active ones among them are those to retire. */
    lemma RetirementRecord(page: u32)
      requires Valid() && IsPage(page)
      ensures Find(pages, page).Some? <==> Known(Model(), page)
      ensures Find(pages, page).Some? ==>
                && (forall i <- Find(pages, page).value.maps :: i < |entries| && states[i].tracks && Touches(entries[i], page))
                && ActiveOf(states, Find(pages, page).value.maps) == Selected(Model(), page, |entries|)
    {
      hide Exact, Holds, Linked, Chains, Sound, Find, ActiveOf, Touches;
      RecordIsExact(entries, states, pages, page);
      SelectedAreActive(Model(), page, |entries|);
      var maps := Registered(entries, states, page, |entries|);
      if maps != [] { assert maps[0] in maps; }
    }

    // ---- Noting a guest write ----

    /** The range has active code, or some page of it is retired or quarantined. */
    method IsRelevant(destination: u32, count: u32) returns (r: bool)
      requires Valid() && count > 0 && destination + count <= WORD
      ensures !r ==> !ActiveIn(Model(), destination, count)
    {
      hide Recorded, Sound, Chains, Page, IsPage, RetiredIn, QuarantinedIn, Sorted;
      r := RangeHasActiveTranslation(destination, count);
      var page, last := Page(destination), Page(destination + count - 1);
      LastPage(destination, count);
      while !r
        invariant IsPage(page) && page <= last
        invariant !r ==> !ActiveIn(Model(), destination, count)
        decreases last - page, !r
      {
        var retired := IsPageRetired(page);
        var quarantined := IsPageQuarantined(page);
        r := retired || quarantined;
        TopmostPage(page, last);
        if page == last || page > LAST_STEPPED_PAGE { break; }
        NextPage(page, last);
        page := page + PAGE_SIZE;
      }
    }

    /** After a write, retire every page whose written part has active code; a failed retirement stops. */
    method NoteWrite(destination: u32, count: u32, h: Hurdles) returns (ok: bool)
      requires Valid()
      modifies `states, `pages, `inactive, bytes
      ensures Valid() && (Model(), ok) == Note(old(Model()), destination, count, h)
    {
      hide Recorded, Sound, Chains, Page, IsPage, RetiredIn, QuarantinedIn, Sorted, NotePages, ActiveIn;
      if count == 0 { return true; }
      var end: int := destination + count;
      if end > WORD { return false; }
      var page, last := Page(destination), Page(destination + count - 1);
      LastPage(destination, count);
      var relevant := IsRelevant(destination, count);
      ghost var c := Model();
      if !relevant {
        NotePagesIdle(c, page, last, destination, end, h);
        return true;
      }
      ok := NoteRange(page, last, destination, end, h);
    }

    method NoteRange(first: u32, last: u32, destination: u32, end: int, h: Hurdles) returns (ok: bool)
      requires Valid() && IsPage(first) && IsPage(last) && first <= last < end <= last + PAGE_SIZE && end <= WORD
      requires destination < first + PAGE_SIZE && destination < end
      modifies `states, `pages, `inactive, bytes
      ensures Valid() && (Model(), ok) == NotePages(old(Model()), first, last, destination, end, h)
    {
      hide Recorded, Sound, Chains, RetiredIn, QuarantinedIn, Sorted, IsPage, RetirePage, ActiveIn, PartBegin, PartEnd;
      var page := first;
      ok := true;
      while true
        invariant Valid() && IsPage(page) && first <= page <= last
        invariant NotePages(Model(), page, last, destination, end, h) == NotePages(old(Model()), first, last, destination, end, h)
        decreases last - page
      {
        PartsFit(page, last, destination, end);
        var from, to := PartBegin(page, destination), PartEnd(page, end);
        var active := RangeHasActiveTranslation(from, to - from);
        PageOfPage(page);
        if active {
          ok := Retire(page, page in h.quarantine, page !in h.unwritable, page !in h.unexecutable);
          if !ok { return; }
        }
        TopmostPage(page, last);
        if page == last || page > LAST_STEPPED_PAGE { return; }
        NextPage(page, last);
        page := page + PAGE_SIZE;
      }
    }

    // ---- Patching an inline cache ----

    /** The first slot of the site that holds the target behind a learned guard. */
    method SlotHolding(site: Site, target: u32) returns (k: nat)
      requires size <= bytes.Length <= MAX_CACHE && Laid(site, size)
      ensures k == FirstHolding(Views(bytes[..size], base, site), target, 0)
    {
      hide Word32, Land, SlotsApart, Apart;
      ghost var v := Views(bytes[..size], base, site);
      k := 0;
      while k < |site.slots|
        invariant k <= |v| == |site.slots|
        invariant FirstHolding(v, target, 0) == FirstHolding(v, target, k)
      {
        var slot := site.slots[k];
        assert v[k] == ViewOf(bytes[..size], base, slot);
        var held := ReadWord(slot.imm);
        if bytes[slot.guard] == JNE0 && held == target { return; }
        k := k + 1;
      }
    }

    /** The first slot of the site in reset form. */
    method SlotInReset(site: Site) returns (k: nat)
      requires size <= bytes.Length <= MAX_CACHE && Laid(site, size)
      ensures k == FirstReset(Views(bytes[..size], base, site), 0)
    {
      hide Word32, Land, SlotsApart, Apart;
      ghost var v := Views(bytes[..size], base, site);
      k := 0;
      while k < |site.slots|
        invariant k <= |v| == |site.slots|
        invariant FirstReset(v, 0) == FirstReset(v, k)
      {
        assert v[k] == ViewOf(bytes[..size], base, site.slots[k]);
        if bytes[site.slots[k].guard] == JMP { return; }
        k := k + 1;
      }
    }

    /** Choose the slot to patch: the one holding the target, else the first reset one, else the next in turn. */
    method ChooseSlot(k: nat, target: u32) returns (chosen: nat)
      requires size <= bytes.Length <= MAX_CACHE && k < |sites| && Laid(sites[k], size)
      modifies `sites
      ensures var v := Views(bytes[..size], base, old(sites)[k]);
              && chosen == Chosen(v, old(sites)[k].cursor, target)
              && sites == old(sites)[k := old(sites)[k].(cursor := CursorAfter(v, old(sites)[k].cursor, target))]
    {
      hide ViewOf, Laid;
      var site := sites[k];
      LaidHasSlots(site, size);
      chosen := SlotHolding(site, target);
      if chosen == |site.slots| {
        chosen := SlotInReset(site);
      }
      if chosen == |site.slots| {
        chosen := site.cursor % |site.slots|;
        sites := sites[k := site.(cursor := (chosen + 1) % |site.slots|)];
      }
    }

    /** Write the immediate, the displacement and the guard of the slot, the last two only within rel32 range. */
    method PatchSlot(site: Site, chosen: nat, target: u32, address: u32) returns (patched: bool)
      requires size <= bytes.Length <= MAX_CACHE && Laid(site, size) && chosen < |site.slots|
      modifies bytes
      ensures patched <==> Reachable32(base, site.slots[chosen], address)
      ensures bytes[..size] == if patched then WriteSlot(old(bytes[..size]), base, site, chosen, target, address)
                               else Put(old(bytes[..size]), site.slots[chosen].imm, Bytes32(target))
    {
      hide Put, Bytes32, HitBytes, GuardBytes, SlotsApart, Apart;
      var slot := site.slots[chosen];
      Write(slot.imm, Bytes32(target));
      if !Reachable32(base, slot, address) { return false; }
      Write(slot.disp, HitBytes(base, slot, address));
      Write(slot.guard, GuardBytes(site, chosen));
      patched := true;
    }

    /**
     Patch the first site the miss address names. Inactive heads stay safe exactly when the target spares them; the
     caller learns whether the patch went through. `writable` and `executable` are the outcomes of the two protection
     changes.
     */
    method Patch(missAddress: u32, target: u32, address: u32, writable: bool, executable: bool)
      returns (patched: bool, ghost k: Option<nat>)
      requires Valid()
      modifies `sites, bytes, siteIndex
      ensures Valid()
      ensures missAddress >= base ==> IsFirstNamed(MissOffsets(old(sites)), missAddress - base, k)
      ensures missAddress < base || k.None? ==> !patched && Model() == old(Model())
      ensures missAddress >= base && k.Some? ==>
                && k.value < |old(sites)| && Laid(old(sites)[k.value], old(size))
                && var slot := SlotFor(old(Model()), k.value, target);
                && (patched <==> writable && executable && Reachable32(base, slot, address))
                && Model() == PatchOutcome(old(Model()), k.value, target, address, writable)
                && (HeadsOk(old(Model())) ==> (HeadsOk(Model()) <==> !writable || Spared(old(Model()), slot, target)))
    {
      hide Recorded, Sound, Chains, RetiredIn, QuarantinedIn, Sorted, Laid, Views, Chosen, CursorAfter, Reachable32, WriteSlot, Put,
           HeadsOk, Spared, IsFirstNamed;
      k := None;
      patched := false;
      if missAddress < base { return; }
      var site := siteIndex.Select(MissOffsets(sites), missAddress - base);
      k := site;
      SelectedIsNamed(MissOffsets(sites), missAddress - base, site);
      if site == None { return; }
      ghost var c := Model();
      HeadsLieInside(c);
      var before := sites[site.value];
      var chosen := ChooseSlot(site.value, target);
      if writable {
        patched := PatchSlot(before, chosen, target, address);
        patched := patched && executable;
      }
      assert MissOffsets(sites) == MissOffsets(old(sites));
      assert Model() == PatchOutcome(c, site.value, target, address, writable);
      PatchKeepsSound(c, site.value, target, address, writable);
      if HeadsOk(c) { PatchKeepsHeads(c, site.value, target, address, writable); }
    }

    // ---- Appending a translation ----

    /** The guest bytes of the entry meet none of the excluded ranges. */
    method TracksGuestBytes(e: Entry, excluded: seq<(u32, u32)>) returns (r: bool)
      ensures r <==> TracksBytes(e, excluded)
      ensures e.glen > 0 ==> (r <==> Unexcluded(e, excluded))
    {
      hide Overlap, Unexcluded;
      if e.glen > 0 { TracksByByte(e, excluded); }
      var k := 0;
      while k < |excluded|
        invariant 0 <= k <= |excluded|
        invariant forall l | 0 <= l < k :: excluded[l].1 != 0 ==> !Overlap(e.guest, e.glen, excluded[l].0, excluded[l].1)
      {
        if excluded[k].1 != 0 && Overlap(e.guest, e.glen, excluded[k].0, excluded[k].1) { return false; }
        k := k + 1;
      }
      r := true;
    }

    /** The image rule, or for the requested entry the weaker one. */
    method DecideActive(e: Entry, guestEntry: u32) returns (active: bool)
      requires Valid()
      ensures active <==> Activates(Model(), e, guestEntry)
    {
      hide Valid, CodeCaches.CanActivate, SpansQuarantined;
      active := CanActivate(e, Page(guestEntry));
      if !active && e.guest == guestEntry {
        var spans := SpansQuarantinedPage(e);
        active := !spans;
      }
    }

    /** Insert the pages under the entry into the sorted list. */
    method AddPages(e: Entry, list: seq<Row<()>>) returns (list': seq<Row<()>>)
      requires Spans(e) && Sorted(list)
      ensures Sorted(list')
      ensures forall p: u32 | IsPage(p) :: Find(list', p).Some? <==> Find(list, p).Some? || Touches(e, p)
    {
      hide Sorted, Find, Store, Page, IsPage, Touches;
      var first, last := Page(e.guest), Page(e.guest + e.glen - 1);
      forall p: u32 | IsPage(p) ensures Touches(e, p) <==> first <= p <= last { TouchedPages(e, p); }
      TouchedPages(e, first);
      var page := first;
      list' := list;
      while true
        invariant IsPage(page) && first <= page <= last && Sorted(list')
        invariant forall p: u32 | IsPage(p) :: Find(list', p).Some? <==> Find(list, p).Some? || first <= p < page
        decreases last - page
      {
        list' := Store(list', page, ());
        TopmostPage(page, last);
        forall p: u32 | IsPage(p) && p < page + PAGE_SIZE ensures p <= page { PagesBetween(page, p); }
        if page == last || page > LAST_STEPPED_PAGE { return; }
        NextPage(page, last);
        page := page + PAGE_SIZE;
      }
    }

    /** Close the head of every entry that stays inactive, and find the requested one among the active. */
    method PrepareImage(img: Image, guestEntry: u32, excluded: seq<(u32, u32)>)
      returns (active: seq<bool>, tracks: seq<bool>, code: seq<u8>, pages: seq<u32>, at: nat)
      requires Valid() && LaidOut(|img.bytes|, img.entries, img.sites)
      ensures |active| == |tracks| == |img.entries|
      ensures forall j | 0 <= j < |active| :: active[j] == Activates(Model(), img.entries[j], guestEntry)
      ensures forall j | 0 <= j < |tracks| :: tracks[j] == TracksBytes(img.entries[j], excluded)
      ensures |code| == |img.bytes| && ClosedImage(Model(), img, guestEntry, code)
      ensures CandidatePages(Model(), img, guestEntry, excluded, pages)
      ensures at <= |img.entries|
      ensures at < |img.entries| ==> img.entries[at].guest == guestEntry && active[at]
      ensures at == |img.entries| ==> forall j | 0 <= j < |active| :: !(img.entries[j].guest == guestEntry && active[j])
    {
      hide Recorded, Sound, Chains, RetiredIn, QuarantinedIn, Activates, TracksBytes, Touches, IsPage, Page, LaidOut, Sorted, Find;
      active, tracks, code, at := [], [], img.bytes, |img.entries|;
      var list: seq<Row<()>> := [];
      EmptyList();
      ghost var c := Model();
      var j := 0;
      while j < |img.entries|
        invariant 0 <= j <= |img.entries| && |active| == |tracks| == j && |code| == |img.bytes|
        invariant forall l | 0 <= l < j :: active[l] == Activates(c, img.entries[l], guestEntry)
        invariant forall l | 0 <= l < j :: tracks[l] == TracksBytes(img.entries[l], excluded)
        invariant forall x | 0 <= x < |code| :: code[x] == if ClosedBelow(img, active, x) then INT3 else img.bytes[x]
        invariant Sorted(list)
        invariant forall p: u32 | IsPage(p) :: Find(list, p).Some? <==> TouchedBelow(img, active, tracks, p)
        invariant at < |img.entries| ==> at < j && img.entries[at].guest == guestEntry && active[at]
        invariant at <= |img.entries|
        invariant at == |img.entries| ==> forall l | 0 <= l < j :: !(img.entries[l].guest == guestEntry && active[l])
      {
        var e := img.entries[j];
        var isTracking := TracksGuestBytes(e, excluded);
        var isActive := DecideActive(e, guestEntry);
        EntryInside(img, j);
        ClosedOneMore(img, active, isActive);
        TouchedOneMore(img, active, tracks, isActive, isTracking);
        if !isActive { code := code[e.off := INT3]; }
        if isActive && e.guest == guestEntry { at := j; }
        if isActive && isTracking {
          ActivatedSpans(c, e, guestEntry);
          list := AddPages(e, list);
        }
        active, tracks := active + [isActive], tracks + [isTracking];
        j := j + 1;
      }
      pages := KeysOf(list);
      forall p: u32 | IsPage(p) ensures p in pages <==> TouchedBelow(img, active, tracks, p) { KeysFind(list, p); }
    }

    /** Copy the code behind the bytes in use. */
    method Publish(code: seq<u8>)
      requires size + |code| <= bytes.Length
      modifies bytes
      ensures bytes[..size] == old(bytes[..size]) && bytes[size..size + |code|] == code
    {
      var k := 0;
      while k < |code|
        invariant 0 <= k <= |code|
        invariant bytes[..size] == old(bytes[..size]) && bytes[size..size + k] == code[..k]
      {
        bytes[size + k] := code[k];
        assert bytes[size..size + (k + 1)] == bytes[size..size + k] + [code[k]];
        k := k + 1;
      }
    }

    /** Overwrite the head of the stale entry with a jump to the fresh one, if it is in rel32 range. */
    method WriteJump(at: nat, target: nat)
      requires size <= bytes.Length && at + 5 <= size <= MAX_CACHE && target <= MAX_CACHE
      modifies bytes
      ensures bytes[..size] == Put(old(bytes[..size]), at, Jump(at, target))
      ensures bytes[size..] == old(bytes[size..])
    {
      hide Put, Jump;
      var relative := target - (at + 5);
      if -0x8000_0000 <= relative <= 0x7FFF_FFFF {
        Write(at, Jump(at, target));
      }
    }

    /** Relink every inactive entry of one guest address to the fresh entry `j`. */
    method RelinkEntry(img: Image, ghost guestEntry: u32, j: nat, ghost c: Cache, ghost done: set<(nat, nat)>, ghost code: seq<u8>)
      returns (ghost done': set<(nat, nat)>)
      requires Sound(c) && ImageLaidOut(img) && size + |img.bytes| <= bytes.Length <= MAX_CACHE && |code| == |img.bytes|
      requires c.entries == entries && c.states == states && |states| == |entries| && |c.bytes| == size
      requires Holds(entries, InactiveOf(states), inactive)
      requires j < |img.entries| && Activates(c, img.entries[j], guestEntry)
      requires RelinkingIn(c, img, guestEntry, done, bytes[..], code)
      modifies bytes
      ensures RelinkingIn(c, img, guestEntry, done', bytes[..], code) && done <= done'
      ensures forall k: nat | k < |entries| && Relinks(c, img, guestEntry, k, j) :: (k, j) in done'
    {
      hide Sound, LaidOut, Activates, RelinkedSoFar, Put, Jump, Find, Sorted;
      var e := img.entries[j];
      var olds := ForGuest(inactive, e.guest);
      FreshFits(c, img);
      EntryInside(img, j);
      done' := done;
      var i := 0;
      while i < |olds|
        invariant 0 <= i <= |olds|
        invariant RelinkingIn(c, img, guestEntry, done', bytes[..], code) && done <= done'
        invariant forall l | 0 <= l < i :: olds[l] < |entries| && (Relinks(c, img, guestEntry, olds[l], j) ==> (olds[l], j) in done')
      {
        var k := olds[i];
        assert k in ForGuest(inactive, e.guest);
        if !states[k].active && entries[k].elen >= 5 {
          StaleHead(c, img, guestEntry, k, j);
          RelinkOneMore(c, img, guestEntry, done', bytes[..size], k, j);
          ghost var before := bytes[..];
          WriteJump(entries[k].off, size + e.off);
          TailKept(before, bytes[..], size, code);
          done' := done' + {(k, j)};
        }
        i := i + 1;
      }
      forall k: nat | k < |entries| && Relinks(c, img, guestEntry, k, j) ensures (k, j) in done' {
        assert k in ForGuest(inactive, e.guest);
      }
    }

    /** Relink the inactive entries of every guest address that has a fresh active entry. */
    method Relink(img: Image, ghost guestEntry: u32, active: seq<bool>, ghost c: Cache, ghost code: seq<u8>)
      requires Sound(c) && ImageLaidOut(img) && size + |img.bytes| <= bytes.Length <= MAX_CACHE && |code| == |img.bytes|
      requires c.entries == entries && c.states == states && |states| == |entries| && c.bytes == bytes[..size]
      requires Holds(entries, InactiveOf(states), inactive)
      requires |active| == |img.entries| && forall j | 0 <= j < |active| :: active[j] == Activates(c, img.entries[j], guestEntry)
      requires bytes[size..size + |code|] == code
      modifies bytes
      ensures Relinked(c, img, guestEntry, bytes[..size]) && bytes[size..size + |code|] == code
    {
      hide Sound, LaidOut, Activates, RelinkedSoFar, Relinked, Holds;
      NothingRelinked(c, img, guestEntry);
      ghost var done: set<(nat, nat)> := {};
      var j := 0;
      while j < |img.entries|
        invariant 0 <= j <= |img.entries|
        invariant RelinkingIn(c, img, guestEntry, done, bytes[..], code)
        invariant forall k: nat, l: nat | k < |entries| && l < j && Relinks(c, img, guestEntry, k, l) :: (k, l) in done
      {
        if active[j] {
          done := RelinkEntry(img, guestEntry, j, c, done, code);
        }
        j := j + 1;
      }
      RelinkedAll(c, img, guestEntry, done, bytes[..size]);
    }

    /** The address map grows by one entry, which is still to be registered. */
    method PushEntry(e: Entry)
      requires Recorded() && |states| == |entries| && |entries| + 1 < INVALID
      modifies `entries
      ensures Recorded() && entries == old(entries) + [e]
    {
      hide Exact, Holds, Linked, Guests, OffsetSorted;
      IndexesMore(index, entries, e);
      ghost var m := entries;
      entries := entries + [e];
      assert entries[..|states|] == m;
    }

    /** Push and register the entries of the image, moved to where its code now lies. */
    method RegisterImage(m: seq<Entry>, active: seq<bool>, tracks: seq<bool>, generation: u32, requested: u32)
      requires Recorded() && |states| == |entries| && IsPage(requested)
      requires |active| == |tracks| == |m| && |entries| + |m| < INVALID && OffsetSorted(entries + m)
      requires forall j | 0 <= j < |m| && active[j] :: Spans(m[j])
      modifies `entries, `states, `pages, `inactive, index
      ensures Recorded() && Sorted(pages) && entries == old(entries) + m
      ensures states == old(states) + seq(|m|, j requires 0 <= j < |m| => EntryState(generation, active[j], tracks[j]))
      ensures QuarantinedIn(pages) == old(QuarantinedIn(pages))
      ensures RetiredIn(pages) ==
                if exists j | 0 <= j < |m| :: active[j] && tracks[j] && Page(m[j].guest) == requested
                then old(RetiredIn(pages)) - {requested} else old(RetiredIn(pages))
    {
      hide Recorded, Page, IsPage, Spans, RetiredIn, QuarantinedIn, OffsetSorted;
      ghost var news := seq(|m|, j requires 0 <= j < |m| => EntryState(generation, active[j], tracks[j]));
      RecordedIsSorted();
      var j := 0;
      while j < |m|
        invariant 0 <= j <= |m| && Recorded() && Sorted(pages) && |states| == |entries|
        invariant entries == old(entries) + m[..j] && states == old(states) + news[..j]
        invariant QuarantinedIn(pages) == old(QuarantinedIn(pages))
        invariant RetiredIn(pages) ==
                    if exists l | 0 <= l < j :: active[l] && tracks[l] && Page(m[l].guest) == requested
                    then old(RetiredIn(pages)) - {requested} else old(RetiredIn(pages))
      {
        PushEntry(m[j]);
        TakeMore(m, j);
        TakeMore(news, j);
        SortedBelow(old(entries) + m, entries);
        Register(|states|, EntryState(generation, active[j], tracks[j]), requested);
        j := j + 1;
      }
      assert m[..j] == m && news[..j] == news;
    }

    lemma RecordedIsSorted()
      requires Recorded()
      ensures Sorted(pages)
    {
    }

    lemma RecordedHolds()
      requires Recorded() && |states| == |entries|
      ensures Holds(entries, InactiveOf(states), inactive)
    {
    }

    /** Publish the code of the image and relink the stale heads to it. */
    method Rewrite(img: Image, ghost guestEntry: u32, active: seq<bool>, code: seq<u8>)
      requires Valid() && ImageLaidOut(img) && size + |img.bytes| <= bytes.Length && |code| == |img.bytes|
      requires |active| == |img.entries| && forall j | 0 <= j < |active| :: active[j] == Activates(Model(), img.entries[j], guestEntry)
      modifies bytes
      ensures Relinked(old(Model()), img, guestEntry, bytes[..size]) && bytes[size..size + |code|] == code
    {
      hide Recorded, Sound, LaidOut, Chains, RetiredIn, QuarantinedIn, Activates, Sorted, Relinked;
      ghost var c := Model();
      RecordedHolds();
      Publish(code);
      Relink(img, guestEntry, active, c, code);
    }

    /** Take over the image whose code has been published: its entries, its sites and its bytes. */
    method Adopt(img: Image, ghost guestEntry: u32, ghost excluded: seq<(u32, u32)>, active: seq<bool>, tracks: seq<bool>,
                 generation: u32, requested: u32, ghost c: Cache, ghost code: seq<u8>)
      requires Appendable(c, img, guestEntry) && requested == Page(guestEntry)
      requires bytes.Length <= MAX_CACHE && base + bytes.Length <= WORD && size + |img.bytes| <= bytes.Length
      requires Recorded() && Sorted(pages) && |states| == |entries| && |sites| + |img.sites| < INVALID
      requires c == Model().(bytes := c.bytes) && |c.bytes| == size
      requires Relinked(c, img, guestEntry, bytes[..size])
      requires bytes[size..size + |img.bytes|] == code && ClosedImage(c, img, guestEntry, code)
      requires |active| == |tracks| == |img.entries|
      requires forall j | 0 <= j < |active| :: active[j] == Activates(c, img.entries[j], guestEntry)
      requires forall j | 0 <= j < |tracks| :: tracks[j] == TracksBytes(img.entries[j], excluded)
      requires Chains(MissOffsets(sites), siteIndex.count, siteIndex.buckets, siteIndex.next)
      modifies `entries, `states, `pages, `inactive, `sites, `size, index
      ensures size <= bytes.Length && Sorted(pages) && size == old(size) + |img.bytes|
      ensures Appended(c, img, guestEntry, excluded, generation, Model())
      ensures Valid()
    {
      hide Recorded, Sound, LaidOut, Chains, RetiredIn, QuarantinedIn, Activates, TracksBytes, Page, Sorted, ClosedImage, Relinked,
           OffsetSorted, Laid, Spans;
      AppendFits(c, img);
      var offset := size;
      forall j | 0 <= j < |img.entries| && active[j] ensures Spans(ShiftEntries(img.entries, offset)[j]) {
        ActivatedSpans(c, img.entries[j], guestEntry);
        SpansAnywhere(img.entries[j], ShiftEntries(img.entries, offset)[j]);
      }
      RequestedIsPage(guestEntry);
      RegisterImage(ShiftEntries(img.entries, offset), active, tracks, generation, requested);
      EnsureIndexed();
      AppendedKeys(MissOffsets(sites), MissOffsets(ShiftSites(img.sites, offset)), siteIndex.count, siteIndex.buckets, siteIndex.next);
      assert MissOffsets(sites + ShiftSites(img.sites, offset)) == MissOffsets(sites) + MissOffsets(ShiftSites(img.sites, offset));
      sites := sites + ShiftSites(img.sites, offset);
      size := size + |img.bytes|;
      AdoptedBytes(bytes[..], offset, size);
      AdoptedStates(c, img, guestEntry, excluded, generation, active, tracks);
      assert Appended(c, img, guestEntry, excluded, generation, Model());
      AppendKeepsSound(c, img, guestEntry, excluded, generation, Model());
    }

    /**
     Append a translation whose watches are installed before it is published. `writable` and `executable` are the
     outcomes of the protection changes around the rewriting of the cache; failing the second is terminal.
     */
    method Append(img: Image, guestEntry: u32, excluded: seq<(u32, u32)>, watches: WriteWatchSet, refuses: Refusals,
                  writable: bool, executable: bool)
      returns (r: AppendResult, ghost pages': seq<u32>)
      requires Valid() && ImageLaidOut(img) && watches.Valid() && |sites| + |img.sites| < INVALID
      modifies this, bytes, index, watches, watches.host
      ensures watches.Valid() && size <= bytes.Length && Sorted(pages)
      ensures r.NoRoom? <==> |img.bytes| > bytes.Length - old(size)
      ensures r.NoRoom? || r.NotActive? ==> watches.Model() == old(watches.Model())
      ensures r.NotActive? <==>
                !r.NoRoom? && forall j | 0 <= j < |img.entries| :: !(img.entries[j].guest == guestEntry && Activates(old(Model()), img.entries[j], guestEntry))
      ensures !r.NoRoom? && !r.NotActive? ==>
                && CandidatePages(old(Model()), img, guestEntry, excluded, pages')
                && (watches.Model(), !r.NotWatched?) == Install(old(watches.Model()), pages', refuses)
      ensures !r.AppendedAt? && !r.Unsafe? ==> Valid() && Model() == old(Model())
      ensures r.Unsafe? ==> writable && !executable && entries == old(entries) && states == old(states)
      ensures r.AppendedAt? ==>
                && writable && executable && Valid()
                && Appendable(old(Model()), img, guestEntry)
                && Appended(old(Model()), img, guestEntry, excluded, old(nextGeneration), Model())
                && exists j | 0 <= j < |img.entries| ::
                     && img.entries[j].guest == guestEntry && Activates(old(Model()), img.entries[j], guestEntry)
                     && r.address == base + old(size) + img.entries[j].off
    {
      hide Recorded, Sound, LaidOut, Chains, RetiredIn, QuarantinedIn, Activates, TracksBytes, Page, Sorted, Install, CandidatePages, ClosedImage, Relinked;
      ghost var c := Model();
      var offset := size;
      pages' := [];
      if |img.bytes| > bytes.Length - size { return NoRoom, pages'; }
      var active, tracks, code, candidates, at := PrepareImage(img, guestEntry, excluded);
      pages' := candidates;
      if at == |img.entries| { return NotActive, pages'; }
      assert Activates(c, img.entries[at], guestEntry);
      var watched := watches.InstallPages(candidates, refuses);
      if !watched { return NotWatched, pages'; }
      var generation := nextGeneration;
      nextGeneration := Wrap(nextGeneration + 1);
      if !writable { return NotWritable, pages'; }
      Rewrite(img, guestEntry, active, code);
      if !executable { return Unsafe, pages'; }
      Adopt(img, guestEntry, excluded, active, tracks, generation, Page(guestEntry), c, code);
      EntryInside(img, at);
      r := AppendedAt(base + offset + img.entries[at].off);
    }
  }
}
