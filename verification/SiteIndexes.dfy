/** Indexes from a miss offset to the patch site that owns it, over append-only site lists. */
module SiteIndexes {
  import opened Words
  import opened HashChains

  /** A miss address names a site whose miss tail starts there or one byte before. */
  predicate NamesSite(missOffset: u32, key: u32) {
    missOffset == key || missOffset == Wrap(key + 1)
  }

  lemma PreviousKey(missOffset: u32, key: u32)
    ensures missOffset == Wrap(key + 1) <==> key == Wrap(missOffset - 1)
  {
  }

  /** The scan's answer: the first site in list order that the miss address names. */
  ghost predicate IsFirstNamed(keys: seq<u32>, missOffset: u32, r: Option<nat>) {
    match r
    case Some(i) => i < |keys| && NamesSite(missOffset, keys[i]) && forall j | 0 <= j < i :: !NamesSite(missOffset, keys[j])
    case None => forall j | 0 <= j < |keys| :: !NamesSite(missOffset, keys[j])
  }

  ghost predicate IsFirstEqual(keys: seq<u32>, key: u32, r: Option<nat>) {
    match r
    case Some(i) => i < |keys| && keys[i] == key && forall j | 0 <= j < i :: keys[j] != key
    case None => key !in keys
  }

  /** The least index over both keys is the scan's answer. */
  lemma LowestIsFirst(keys: seq<u32>, missOffset: u32, found: bool, lowest: nat)
    requires found <==> missOffset in keys || Wrap(missOffset - 1) in keys
    requires found ==> lowest < |keys| && (keys[lowest] == missOffset || keys[lowest] == Wrap(missOffset - 1))
    requires forall j | 0 <= j < |keys| && (keys[j] == missOffset || keys[j] == Wrap(missOffset - 1)) :: lowest <= j
    ensures IsFirstNamed(keys, missOffset, if found then Some(lowest) else None)
  {
    forall i | 0 <= i < |keys|
      ensures NamesSite(missOffset, keys[i]) <==> keys[i] == missOffset || keys[i] == Wrap(missOffset - 1)
    {
      PreviousKey(missOffset, keys[i]);
    }
  }

  /** Chains that may lag behind a growing key list; equal counts mean they are up to date. */
  ghost predicate Chains(keys: seq<u32>, count: nat, buckets: seq<u32>, next: seq<u32>) {
    && |keys| < INVALID && count <= |keys| && |next| == count
    && (count == |keys| && buckets != [] ==> Linked(keys, |keys|, buckets, next))
  }

  class InlineCacheSiteIndex {
    var count: nat
    var buckets: seq<u32>
    var next: seq<u32>

    constructor ()
      ensures count == 0 && buckets == [] && next == [] && Chains([], count, buckets, next)
    {
      count, buckets, next := 0, [], [];
    }

    method Ensure(keys: seq<u32>)
      requires Chains(keys, count, buckets, next)
      modifies this
      ensures Chains(keys, count, buckets, next) && count == |keys|
      ensures keys != [] && old(count) != |keys| ==> buckets != []
    {
      if count != |keys| {
        buckets, next := Rebuild(keys);
        count := |keys|;
      }
    }

    /** Keep in `lowest` the least index whose key matches, over this chain and what was found before. */
    method CollectLowest(keys: seq<u32>, key: u32, found: bool, lowest: nat) returns (found': bool, lowest': nat)
      requires |keys| < INVALID && Linked(keys, |keys|, buckets, next)
      requires count == |keys| == |next| && buckets != []
      requires found ==> lowest < |keys|
      ensures found' <==> found || key in keys
      ensures found' ==> lowest' < |keys| && ((found && lowest' == lowest) || keys[lowest'] == key)
      ensures found ==> lowest' <= lowest
      ensures forall j | 0 <= j < |keys| && keys[j] == key :: lowest' <= j
    {
      hide Linked;
      found', lowest' := found, lowest;
      var candidate: u32 := buckets[Hash(key, |buckets|)];
      var visited: nat := 0;
      Start(keys, buckets, next, key);
      while candidate != INVALID && candidate < count && visited <= count
        invariant Walking(keys, |buckets|, key, candidate, visited)
        invariant found' ==> lowest' < |keys| && ((found && lowest' == lowest) || keys[lowest'] == key)
        invariant found ==> found' && lowest' <= lowest
        invariant forall j | 0 <= j < |keys| && keys[j] == key && !Ahead(candidate, j) :: found' && lowest' <= j
        decreases |keys| + 1 - visited
      {
        Advance(keys, buckets, next, key, candidate, visited);
        if keys[candidate] == key {
          if !found' || candidate < lowest' {
            lowest' := candidate;
          }
          found' := true;
        }
        candidate := next[candidate];
        visited := visited + 1;
      }
    }

    /** Both keys a miss address can name are probed and the lower site wins. */
    method Lookup(keys: seq<u32>, missOffset: u32) returns (usable: bool, r: Option<nat>)
      requires Chains(keys, count, buckets, next)
      ensures usable <==> buckets != [] && count == |keys|
      ensures usable ==> IsFirstNamed(keys, missOffset, r)
    {
      usable, r := false, None;
      if buckets == [] || count != |keys| || |next| != count { return; }
      usable := true;
      hide *;
      var found, lowest := CollectLowest(keys, missOffset, false, 0);
      found, lowest := CollectLowest(keys, Wrap(missOffset - 1), found, lowest);
      LowestIsFirst(keys, missOffset, found, lowest);
      if found { r := Some(lowest); }
    }

    /** How the patcher selects its site: the index, confirmed, or else the scan. */
    method Select(keys: seq<u32>, missOffset: u32) returns (r: Option<nat>)
      requires Chains(keys, count, buckets, next)
      modifies this
      ensures Chains(keys, count, buckets, next) && count == |keys|
      ensures IsFirstNamed(keys, missOffset, r)
    {
      Ensure(keys);
      r := None;
      var usable, indexed := Lookup(keys, missOffset);
      if usable && indexed.Some? && indexed.value < |keys| {
        if NamesSite(missOffset, keys[indexed.value]) {
          r := indexed;
        }
      }
      if r == None {
        var i: nat := 0;
        while i < |keys|
          invariant i <= |keys|
          invariant forall j | 0 <= j < i :: !NamesSite(missOffset, keys[j])
        {
          if NamesSite(missOffset, keys[i]) {
            return Some(i);
          }
          i := i + 1;
        }
      }
    }
  }

  class ReturnDispatchSiteIndex {
    var count: nat
    var buckets: seq<u32>
    var next: seq<u32>

    constructor ()
      ensures count == 0 && buckets == [] && next == [] && Chains([], count, buckets, next)
    {
      count, buckets, next := 0, [], [];
    }

    method Ensure(keys: seq<u32>)
      requires Chains(keys, count, buckets, next)
      modifies this
      ensures Chains(keys, count, buckets, next) && count == |keys|
      ensures keys != [] && old(count) != |keys| ==> buckets != []
    {
      if count != |keys| {
        buckets, next := Rebuild(keys);
        count := |keys|;
      }
    }

    method Lookup(keys: seq<u32>, missOffset: u32) returns (usable: bool, r: Option<nat>)
      requires Chains(keys, count, buckets, next)
      ensures usable <==> buckets != [] && count == |keys|
      ensures usable ==> IsFirstEqual(keys, missOffset, r)
    {
      hide Linked;
      usable, r := false, None;
      if buckets == [] || count != |keys| || |next| != count { return; }
      usable := true;
      var candidate: u32 := buckets[Hash(missOffset, |buckets|)];
      var visited: nat := 0;
      var lowest: u32 := INVALID;
      Start(keys, buckets, next, missOffset);
      while candidate != INVALID && candidate < count && visited <= count
        invariant Walking(keys, |buckets|, missOffset, candidate, visited)
        invariant lowest != INVALID ==> lowest < |keys| && keys[lowest] == missOffset
        invariant forall j | 0 <= j < |keys| && keys[j] == missOffset && !Ahead(candidate, j) :: lowest <= j
        decreases |keys| + 1 - visited
      {
        Advance(keys, buckets, next, missOffset, candidate, visited);
        if keys[candidate] == missOffset {
          lowest := if candidate < lowest then candidate else lowest;
        }
        candidate := next[candidate];
        visited := visited + 1;
      }
      if lowest != INVALID {
        var first: nat := lowest;
        r := Some(first);
      }
    }
  }

  /** Sites are only appended, so a lagging index stays a legal, unusable one until it is ensured. */
  lemma AppendedKeys(keys: seq<u32>, more: seq<u32>, count: nat, buckets: seq<u32>, next: seq<u32>)
    requires Chains(keys, count, buckets, next) && |keys + more| < INVALID
    ensures Chains(keys + more, count, buckets, next)
  {
    if more == [] { assert keys + more == keys; }
  }
}
