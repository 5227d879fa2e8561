/** What the placement remembers of its inactive entries: by index, by guest address and by cache offset. */
module InactiveRecords {
  import opened Words
  import opened SortedTable
  import opened CodeCacheTypes

  /** `guests` is the sorted list of guest addresses with an inactive entry. */
  datatype Inactive = Inactive(
    indices: seq<nat>,
    byGuest: map<u32, seq<nat>>,
    byOffset: map<u32, nat>,
    guests: seq<Row<()>>)

  const NONE_INACTIVE := Inactive([], map[], map[], [])

  function ForGuest(r: Inactive, guest: u32): seq<nat> {
    if guest in r.byGuest then r.byGuest[guest] else []
  }

  /** Record that the entry is inactive. */
  function Noted(m: seq<Entry>, r: Inactive, i: nat): Inactive
    requires i < |m| && Sorted(r.guests)
  {
    var e := m[i];
    Inactive(r.indices + [i], r.byGuest[e.guest := ForGuest(r, e.guest) + [i]], r.byOffset[e.off := i], Store(r.guests, e.guest, ()))
  }

  /** The records hold exactly the entries of the set. */
  ghost predicate Holds(m: seq<Entry>, inactive: set<nat>, r: Inactive) {
    && Sorted(r.guests) && (forall i <- inactive :: i < |m|)
    && (forall i: nat :: i in r.indices <==> i in inactive)
    && (forall g: u32, i: nat :: i in ForGuest(r, g) <==> i in inactive && m[i].guest == g)
    && (forall o <- r.byOffset :: r.byOffset[o] in inactive && m[r.byOffset[o]].off == o)
    && (forall i <- inactive :: m[i].off in r.byOffset)
    && (forall g: u32 :: Find(r.guests, g).Some? <==> exists i <- inactive :: m[i].guest == g)
  }

  ghost function InactiveOf(states: seq<EntryState>): (r: set<nat>)
    ensures forall i: nat :: i in r <==> i < |states| && !states[i].active
  {
    set i: nat | i < |states| && !states[i].active
  }

  lemma NotedForGuest(m: seq<Entry>, r: Inactive, i: nat, g: u32)
    requires i < |m| && Sorted(r.guests)
    ensures ForGuest(Noted(m, r, i), g) == ForGuest(r, g) + if g == m[i].guest then [i] else []
  {
  }

  lemma NotedHolds(m: seq<Entry>, inactive: set<nat>, r: Inactive, i: nat)
    requires Holds(m, inactive, r) && i < |m|
    ensures Holds(m, inactive + {i}, Noted(m, r, i))
  {
    hide Sorted, Find, Store, ForGuest;
    var r' := Noted(m, r, i);
    var inactive' := inactive + {i};
    assert Sorted(r'.guests);
    assert forall j: nat :: j in r'.indices <==> j in inactive';
    forall g: u32, j: nat ensures j in ForGuest(r', g) <==> j in inactive' && m[j].guest == g {
      NotedForGuest(m, r, i, g);
      assert j in ForGuest(r, g) <==> j in inactive && m[j].guest == g;
    }
    assert forall o <- r'.byOffset :: r'.byOffset[o] in inactive' && m[r'.byOffset[o]].off == o;
    forall g: u32 ensures Find(r'.guests, g).Some? <==> exists j <- inactive' :: m[j].guest == g {
      if g == m[i].guest {
        assert i in inactive';
      } else if Find(r.guests, g).Some? {
        var j :| j in inactive && m[j].guest == g;
        assert j in inactive';
      }
    }
  }

  /** A longer map gives the recorded entries no other place. */
  lemma HoldsForMore(m: seq<Entry>, inactive: set<nat>, r: Inactive, e: Entry)
    requires Holds(m, inactive, r)
    ensures Holds(m + [e], inactive, r)
  {
    hide Sorted, Find;
    assert forall i <- inactive :: (m + [e])[i] == m[i];
  }
}
