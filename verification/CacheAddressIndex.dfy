/** The chained guest-to-cache index and the sorted cache-to-guest lookup over the address map. */
module CacheAddressIndexes {
  import opened Words
  import opened HashChains
  import opened CodeCacheTypes

  /** The first entry for the guest address, whatever its state. */
  ghost predicate IsOldest(m: seq<Entry>, guest: u32, r: Option<nat>) {
    match r
    case Some(i) => i < |m| && m[i].guest == guest && forall j | 0 <= j < i :: m[j].guest != guest
    case None => forall j | 0 <= j < |m| :: m[j].guest != guest
  }

  /** The last active entry for the guest address. */
  ghost predicate IsNewestActive(m: seq<Entry>, states: seq<EntryState>, guest: u32, r: Option<nat>)
    requires |states| == |m|
  {
    match r
    case Some(i) =>
      && i < |m| && m[i].guest == guest && states[i].active
      && forall j | i < j < |m| :: m[j].guest == guest ==> !states[j].active
    case None => forall j | 0 <= j < |m| :: m[j].guest == guest ==> !states[j].active
  }

  /** The first entry in map order whose emitted code covers the cache offset. */
  ghost predicate IsFirstCovering(m: seq<Entry>, offset: u32, r: Option<nat>) {
    match r
    case Some(i) => i < |m| && Covers(m[i], offset) && forall j | 0 <= j < i :: !Covers(m[j], offset)
    case None => forall j | 0 <= j < |m| :: !Covers(m[j], offset)
  }

  class CacheAddressIndex {
    var count: nat
    var buckets: seq<u32>
    var next: seq<u32>
    var sorted: bool
    var maxLength: u8

    constructor ()
      ensures Indexes([]) && sorted
    {
      count, buckets, next, sorted, maxLength := 0, [], [], true, 0;
    }

    /** The index describes exactly the first `count` entries of the map. */
    ghost predicate Indexes(m: seq<Entry>)
      reads this
    {
      && count <= |m| < INVALID && |next| == count
      && (if buckets == [] then count == 0 else Linked(Guests(m), count, buckets, next))
      && (sorted ==> OffsetSorted(m[..count]))
      && (forall i | 0 <= i < count :: m[i].elen <= maxLength)
    }

    predicate Fresh(m: seq<Entry>)
      reads this
    {
      count == |m|
    }

    method Invalidate()
      modifies this
      ensures forall m: seq<Entry> | |m| < INVALID :: Indexes(m)
      ensures count == 0 && sorted == old(sorted) && maxLength == old(maxLength)
    {
      count, buckets, next := 0, [], [];
    }

    method ObserveOrder(m: seq<Entry>, i: nat)
      requires i < |m| && (sorted ==> OffsetSorted(m[..i]))
      requires forall j | 0 <= j < i :: m[j].elen <= maxLength
      modifies `sorted, `maxLength
      ensures sorted ==> OffsetSorted(m[..i + 1])
      ensures old(sorted) && OffsetSorted(m[..i + 1]) ==> sorted
      ensures forall j | 0 <= j <= i :: m[j].elen <= maxLength
    {
      if i != 0 && m[i].off < m[i - 1].off {
        assert m[..i + 1][i] == m[i] && m[..i + 1][i - 1] == m[i - 1];
        sorted := false;
      }
      if maxLength < m[i].elen { maxLength := m[i].elen; }
      if sorted {
        assert forall j | 0 <= j < i :: m[..i][j].off <= m[..i][i - 1].off;
      }
    }

    method RebuildAll(m: seq<Entry>)
      requires |m| < INVALID
      modifies this
      ensures Indexes(m) && Fresh(m) && buckets != []
      ensures OffsetSorted(m) ==> sorted
    {
      hide Linked;
      buckets, next := Rebuild(Guests(m));
      sorted, maxLength := true, 0;
      var i := 0;
      while i < |m|
        invariant 0 <= i <= |m|
        invariant sorted ==> OffsetSorted(m[..i])
        invariant OffsetSorted(m) ==> sorted
        invariant forall j | 0 <= j < i :: m[j].elen <= maxLength
        invariant Linked(Guests(m), |m|, buckets, next) && |next| == |m| && buckets != []
      {
        ObserveOrder(m, i);
        i := i + 1;
      }
      count := |m|;
      assert m[..count] == m;
    }

    method Ensure(m: seq<Entry>)
      requires Indexes(m)
      modifies this
      ensures Indexes(m) && Fresh(m)
      ensures old(sorted) && OffsetSorted(m) ==> sorted
    {
      if count != |m| { RebuildAll(m); }
    }

    /** One more map entry became known; only a contiguous append links incrementally. */
    method Append(m: seq<Entry>, i: nat)
      requires i < |m| && Indexes(m)
      modifies this
      ensures Indexes(m)
      ensures count == if i != old(count) then 0
                       else if 0 < old(|buckets|) < |m| then |m| else i + 1
      ensures old(sorted) && OffsetSorted(m) ==> sorted
    {
      hide Linked;
      if i != count || |next| != count {
        Invalidate();
        return;
      }
      if buckets == [] {
        var n := RoundUpToPowerOfTwo(|m|);
        buckets := seq(n, _ => INVALID);
        assert next == [];
        LinkedNone(Guests(m), n);
      } else if |m| > |buckets| {
        RebuildAll(m);
        return;
      }
      LinkedRoom(Guests(m), i, buckets, next);
      next := next + [INVALID];
      LinkEntry(m, i);
      ObserveOrder(m, i);
      count := i + 1;
    }

    /** The new entry becomes the head of its bucket and points at the previous head. */
    method LinkEntry(m: seq<Entry>, i: nat)
      requires i < |m| && i < |next| && Linked(Guests(m), i, buckets, next)
      modifies `buckets, `next
      ensures Linked(Guests(m), i + 1, buckets, next) && |next| == old(|next|)
      ensures |buckets| == old(|buckets|)
    {
      LinkOne(Guests(m), i, buckets, next);
      var b := Hash(m[i].guest, |buckets|);
      next := next[i := buckets[b]];
      buckets := buckets[b := i];
    }

    /** The guest-to-cache lookup. A stale index answers nothing. */
    method Lookup(m: seq<Entry>, states: seq<EntryState>, guest: u32, newestActive: bool) returns (r: Option<nat>)
      requires |states| == |m| && Indexes(m)
      ensures !Fresh(m) ==> r == None
      ensures Fresh(m) && newestActive ==> IsNewestActive(m, states, guest, r)
      ensures Fresh(m) && !newestActive ==> IsOldest(m, guest, r)
    {
      hide Linked;
      r := None;
      if buckets == [] || count != |m| || |next| != count { return; }
      ghost var keys := Guests(m);
      var candidate: u32 := buckets[Hash(guest, |buckets|)];
      var oldest: u32 := INVALID;
      var visited: nat := 0;
      Start(keys, buckets, next, guest);
      while candidate != INVALID && candidate < count && visited <= count
        invariant Linked(keys, |keys|, buckets, next) && Walking(keys, |buckets|, guest, candidate, visited)
        invariant newestActive ==>
                    forall i | 0 <= i < |m| && m[i].guest == guest && states[i].active :: Ahead(candidate, i)
        invariant !newestActive && oldest == INVALID ==>
                    forall i | 0 <= i < |m| && m[i].guest == guest :: Ahead(candidate, i)
        invariant !newestActive && oldest != INVALID ==>
                    && oldest < |m| && m[oldest].guest == guest
                    && forall i | 0 <= i < oldest && m[i].guest == guest :: Ahead(candidate, i)
        invariant newestActive ==> oldest == INVALID
        decreases |m| + 1 - visited
      {
        Advance(keys, buckets, next, guest, candidate, visited);
        if m[candidate].guest == guest {
          if newestActive {
            if candidate < |states| && states[candidate].active {
              var newest: nat := candidate;
              return Some(newest);
            }
          } else {
            oldest := candidate;
          }
        }
        candidate := next[candidate];
        visited := visited + 1;
      }
      if !newestActive && oldest != INVALID {
        var first: nat := oldest;
        r := Some(first);
      }
    }

    /** The first index whose entry starts behind the offset. */
    method UpperBound(m: seq<Entry>, offset: u32) returns (upper: nat)
      requires OffsetSorted(m)
      ensures upper <= |m|
      ensures forall i | 0 <= i < upper :: m[i].off <= offset
      ensures forall i | upper <= i < |m| :: offset < m[i].off
    {
      var lo, hi := 0, |m|;
      while lo < hi
        invariant 0 <= lo <= hi <= |m|
        invariant forall i | 0 <= i < lo :: m[i].off <= offset
        invariant forall i | hi <= i < |m| :: offset < m[i].off
      {
        var mid := (lo + hi) / 2;
        if offset < m[mid].off { hi := mid; } else { lo := mid + 1; }
      }
      upper := lo;
    }

    /** The cache-to-guest lookup: upper bound, then a walk back bounded by the longest entry. */
    method LookupGuest(m: seq<Entry>, offset: u32) returns (usable: bool, r: Option<nat>)
      requires Indexes(m) && OffsetsFit(m)
      ensures usable <==> sorted && Fresh(m) && m != []
      ensures usable ==> IsFirstCovering(m, offset, r)
    {
      hide Linked;
      usable, r := false, None;
      if !sorted || count != |m| || m == [] { return; }
      usable := true;
      assert m[..count] == m;
      var position := UpperBound(m, offset);
      var found, lowest := false, 0;
      while position > 0
        invariant 0 <= position <= |m|
        invariant found ==> position <= lowest < |m| && Covers(m[lowest], offset)
        invariant forall i | position <= i < (if found then lowest else |m|) :: !Covers(m[i], offset)
        decreases position
      {
        position := position - 1;
        assert m[position].off + 0xFF < WORD;
        if m[position].off <= offset < Wrap(m[position].off + m[position].elen) {
          found, lowest := true, position;
        }
        if Wrap(m[position].off + maxLength) <= offset {
          assert forall i | 0 <= i < position :: m[i].off <= m[position].off && m[i].elen <= maxLength;
          break;
        }
      }
      if found { r := Some(lowest); }
    }
  }
}
