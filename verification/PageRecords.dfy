/** The sorted per-page records: which entries lie on a page, and whether it is retired or quarantined. */
module PageRecords {
  import opened Words
  import opened SortedTable
  import opened CodeCacheTypes
  import opened CodeCaches

  datatype PageRecord = PageRecord(retired: bool, quarantined: bool, maps: seq<nat>)

  type Records = seq<Row<PageRecord>>

  const UNKNOWN := PageRecord(false, false, [])

  /** The byte-tracking entries among the first `n` that touch the page, in map order. */
  function Registered(m: seq<Entry>, states: seq<EntryState>, page: int, n: nat): (r: seq<nat>)
    requires |states| == |m| && n <= |m|
    ensures forall i: nat :: i in r <==> i < n && states[i].tracks && Touches(m[i], page)
  {
    if n == 0 then [] else
      Registered(m, states, page, n - 1) + if states[n - 1].tracks && Touches(m[n - 1], page) then [n - 1] else []
  }

  /** The first `n` entries everywhere, and entry `n` on the pages below `upto`. */
  function ListOn(m: seq<Entry>, states: seq<EntryState>, page: int, n: nat, upto: int): (r: seq<nat>)
    requires |states| == |m| && n <= |m|
  {
    Registered(m, states, page, n) +
    if n < |m| && page < upto && states[n].tracks && Touches(m[n], page) then [n] else []
  }

  /** The record of the page lists exactly the entries registered so far; without any there is no record. */
  ghost predicate Lists(t: Records, page: u32, maps: seq<nat>)
    requires Sorted(t)
  {
    match Find(t, page)
    case Some(r) => r.maps == maps && maps != []
    case None => maps == []
  }

  ghost predicate Partly(m: seq<Entry>, states: seq<EntryState>, t: Records, n: nat, upto: int) {
    && |states| == |m| && n <= |m| && Sorted(t)
    && forall page: u32 | IsPage(page) :: Lists(t, page, ListOn(m, states, page, n, upto))
  }

  ghost predicate Exact(m: seq<Entry>, states: seq<EntryState>, t: Records) {
    Partly(m, states, t, |m|, 0)
  }

  // ---- Flags ----

  function Record(t: Records, page: u32): PageRecord
    requires Sorted(t)
  {
    var r := Find(t, page);
    if r.Some? then r.value else UNKNOWN
  }

  ghost function RetiredIn(t: Records): set<u32>
    requires Sorted(t)
  {
    set page: u32 | page in Pages(t) && Record(t, page).retired
  }

  ghost function QuarantinedIn(t: Records): set<u32>
    requires Sorted(t)
  {
    set page: u32 | page in Pages(t) && Record(t, page).quarantined
  }

  ghost function Pages(t: Records): set<u32> {
    set i | 0 <= i < |t| :: t[i].key
  }

  lemma Flags(t: Records, page: u32)
    requires Sorted(t)
    ensures page in RetiredIn(t) <==> Record(t, page).retired
    ensures page in QuarantinedIn(t) <==> Record(t, page).quarantined
  {
  }

  /** Storing a record changes the flags of its page only. */
  lemma StoreFlags(t: Records, page: u32, r: PageRecord)
    requires Sorted(t)
    ensures RetiredIn(Store(t, page, r)) == if r.retired then RetiredIn(t) + {page} else RetiredIn(t) - {page}
    ensures QuarantinedIn(Store(t, page, r)) == if r.quarantined then QuarantinedIn(t) + {page} else QuarantinedIn(t) - {page}
  {
    hide Store, Find, RetiredIn, QuarantinedIn, Sorted;
    var t' := Store(t, page, r);
    forall p: u32
      ensures p in RetiredIn(t') <==> if p == page then r.retired else p in RetiredIn(t)
      ensures p in QuarantinedIn(t') <==> if p == page then r.quarantined else p in QuarantinedIn(t)
    {
      Flags(t, p);
      Flags(t', p);
    }
  }

  // ---- Registering one more entry ----

  /** Registering entry `n` on the page moves the frontier past it. */
  lemma RegisterOn(m: seq<Entry>, states: seq<EntryState>, t: Records, n: nat, page: u32)
    requires Partly(m, states, t, n, page) && n < |m| && IsPage(page) && states[n].tracks && Touches(m[n], page)
    ensures var r := Record(t, page);
            Partly(m, states, Store(t, page, r.(maps := r.maps + [n])), n, page + PAGE_SIZE)
  {
    hide Store, Find, Sorted, Registered, Touches;
    var r := Record(t, page);
    var t' := Store(t, page, r.(maps := r.maps + [n]));
    forall p: u32 | IsPage(p) ensures Lists(t', p, ListOn(m, states, p, n, page + PAGE_SIZE)) {
      assert Lists(t, p, ListOn(m, states, p, n, page));
      PagesBetween(page, p);
    }
  }

  lemma PagesBetween(a: u32, p: u32)
    requires IsPage(a) && IsPage(p)
    ensures p < a + PAGE_SIZE <==> p <= a
  {
  }

  /** Pages the entry does not touch can be skipped. */
  lemma SkipPages(m: seq<Entry>, states: seq<EntryState>, t: Records, n: nat, from: int, to: int)
    requires Partly(m, states, t, n, from) && n < |m|
    requires !states[n].tracks || forall page: u32 | IsPage(page) && (from <= page < to || to <= page < from) :: !Touches(m[n], page)
    ensures Partly(m, states, t, n, to)
  {
    hide Find, Sorted, Registered, Touches;
    forall p: u32 | IsPage(p) ensures Lists(t, p, ListOn(m, states, p, n, to)) {
      assert Lists(t, p, ListOn(m, states, p, n, from));
    }
  }

  /** Once every page has been passed the entry is fully registered. */
  lemma RegisteredFully(m: seq<Entry>, states: seq<EntryState>, t: Records, n: nat)
    requires Partly(m, states, t, n, WORD) && n < |m|
    ensures Partly(m, states, t, n + 1, 0)
  {
    hide Find, Sorted, Touches;
    forall p: u32 | IsPage(p) ensures Lists(t, p, ListOn(m, states, p, n + 1, 0)) {
      assert Lists(t, p, ListOn(m, states, p, n, WORD));
      assert ListOn(m, states, p, n + 1, 0) == ListOn(m, states, p, n, WORD);
    }
  }

  /** What is registered depends on the entries and on whether they track their bytes, not on their activity. */
  lemma {:induction false} RegisteredSame(m: seq<Entry>, states: seq<EntryState>, m': seq<Entry>, states': seq<EntryState>, page: int, n: nat)
    requires |states| == |m| && |states'| == |m'| && n <= |m| && n <= |m'|
    requires forall i | 0 <= i < n :: m'[i] == m[i] && states'[i].tracks == states[i].tracks
    ensures Registered(m', states', page, n) == Registered(m, states, page, n)
    decreases n
  {
    hide Touches;
    if n > 0 { RegisteredSame(m, states, m', states', page, n - 1); }
  }

  lemma ExactForMore(m: seq<Entry>, states: seq<EntryState>, t: Records, e: Entry, state: EntryState)
    requires Exact(m, states, t)
    ensures Partly(m + [e], states + [state], t, |m|, 0)
  {
    hide Registered, Find, Sorted, Touches;
    forall p: u32 | IsPage(p) ensures Lists(t, p, ListOn(m + [e], states + [state], p, |m|, 0)) {
      assert Lists(t, p, ListOn(m, states, p, |m|, 0));
      RegisteredSame(m, states, m + [e], states + [state], p, |m|);
    }
  }

  lemma ExactForSame(m: seq<Entry>, states: seq<EntryState>, states': seq<EntryState>, t: Records)
    requires Exact(m, states, t) && |states'| == |states|
    requires forall i | 0 <= i < |states| :: states'[i].tracks == states[i].tracks
    ensures Exact(m, states', t)
  {
    hide Registered, Find, Sorted, Touches;
    forall p: u32 | IsPage(p) ensures Lists(t, p, ListOn(m, states', p, |m|, 0)) {
      assert Lists(t, p, ListOn(m, states, p, |m|, 0));
      RegisteredSame(m, states, m, states', p, |m|);
    }
  }

  /** Changing the flags of a page that has a record leaves the lists alone. */
  lemma ExactForFlags(m: seq<Entry>, states: seq<EntryState>, t: Records, page: u32, r: PageRecord)
    requires Exact(m, states, t) && Find(t, page).Some? && r.maps == Find(t, page).value.maps
    ensures Exact(m, states, Store(t, page, r))
  {
    hide Registered, Find, Sorted, Store, Touches;
    var t' := Store(t, page, r);
    forall p: u32 | IsPage(p) ensures Lists(t', p, ListOn(m, states, p, |m|, 0)) {
      assert Lists(t, p, ListOn(m, states, p, |m|, 0));
    }
  }

  /** An exact record lists an entry exactly when it tracks its bytes and touches the page. */
  lemma RecordIsExact(m: seq<Entry>, states: seq<EntryState>, t: Records, page: u32)
    requires Exact(m, states, t) && IsPage(page)
    ensures Record(t, page).maps == Registered(m, states, page, |m|)
    ensures Find(t, page).Some? <==> Registered(m, states, page, |m|) != []
  {
    hide Registered, Find, Sorted;
    assert Lists(t, page, ListOn(m, states, page, |m|, 0));
  }

  /** Of the registered entries the active ones are those a retirement selects, in the same order. */
  function ActiveOf(states: seq<EntryState>, maps: seq<nat>): (r: seq<nat>)
    requires forall i <- maps :: i < |states|
  {
    if maps == [] then [] else
      var last := |maps| - 1;
      assert maps[last] in maps && forall i <- maps[..last] :: i in maps;
      ActiveOf(states, maps[..last]) + if states[maps[last]].active then [maps[last]] else []
  }

  lemma ActiveOfMore(states: seq<EntryState>, maps: seq<nat>, i: nat)
    requires i < |states| && forall j <- maps :: j < |states|
    ensures forall j <- maps + [i] :: j < |states|
    ensures ActiveOf(states, maps + [i]) == ActiveOf(states, maps) + if states[i].active then [i] else []
  {
    assert (maps + [i])[..|maps|] == maps;
  }

  lemma {:induction false} SelectedAreActive(c: Cache, page: int, n: nat)
    requires |c.states| == |c.entries| && n <= |c.entries|
    ensures ActiveOf(c.states, Registered(c.entries, c.states, page, n)) == Selected(c, page, n)
    decreases n
  {
    hide Touches, ActiveOf;
    if n == 0 {
      NoneActive(c.states);
    } else {
      SelectedAreActive(c, page, n - 1);
      var r := Registered(c.entries, c.states, page, n - 1);
      assert r + [] == r;
      ActiveOfMore(c.states, r, n - 1);
    }
  }

  lemma NoneActive(states: seq<EntryState>)
    ensures ActiveOf(states, []) == []
  {
  }

  /** The pages an entry touches are those from its first to its last byte. */
  lemma TouchedPages(e: Entry, page: u32)
    requires Spans(e) && IsPage(page)
    ensures Touches(e, page) <==> Page(e.guest) <= page <= Page(e.guest + e.glen - 1)
    ensures Page(e.guest) <= Page(e.guest + e.glen - 1)
  {
  }
}
