/**
 Bucket chains threaded through two vectors: `buckets` holds the head of each chain and
 `next` the element behind each linked element. All three lookup indexes use them.
 */
module HashChains {
  import opened Words

  const INVALID: u32 := 0xFFFF_FFFF
  const MIN_BUCKETS: u32 := 64
  const MAX_BUCKETS: u32 := 0x4000_0000

  /** The multiplicative hash; for a power of two `n` the source's mask is this remainder. */
  function Hash(key: u32, n: nat): (b: nat)
    requires n > 0
    ensures b < n
  {
    Wrap(key * 2654435761) % n
  }

  ghost predicate PowerOfTwo(n: nat) {
    n == 1 || (n > 0 && n % 2 == 0 && PowerOfTwo(n / 2))
  }

  method RoundUpToPowerOfTwo(value: u32) returns (r: u32)
    ensures PowerOfTwo(r) && MIN_BUCKETS <= r <= MAX_BUCKETS
    ensures value <= MAX_BUCKETS ==> value <= r
  {
    r := MIN_BUCKETS;
    assert PowerOfTwo(1) && PowerOfTwo(2) && PowerOfTwo(4) && PowerOfTwo(8) && PowerOfTwo(16) && PowerOfTwo(32);
    ghost var room: nat := 24;
    assert Doublings(0x400_0000, 4) && Doublings(0x40_0000, 8) && Doublings(0x4_0000, 12);
    assert Doublings(0x4000, 16) && Doublings(0x400, 20) && Doublings(MIN_BUCKETS, room);
    while r < value && r < MAX_BUCKETS
      invariant PowerOfTwo(r) && MIN_BUCKETS <= r <= MAX_BUCKETS && Doublings(r, room)
      decreases room
    {
      r := 2 * r;
      room := room - 1;
    }
  }

  /** Doubling `r` that many times gives the greatest bucket count. */
  ghost predicate Doublings(r: nat, times: nat)
    decreases times
  {
    if times == 0 then r == MAX_BUCKETS else r < MAX_BUCKETS && Doublings(2 * r, times - 1)
  }

  /** The greatest index below `upto` whose key falls in bucket `b`, or INVALID. */
  ghost function Newest(keys: seq<u32>, upto: nat, n: nat, b: nat): (r: u32)
    requires upto <= |keys| < INVALID && n > 0
    ensures r == INVALID || r < upto
    ensures r != INVALID ==> Hash(keys[r], n) == b
    ensures forall j | 0 <= j < upto && (r == INVALID || r < j) :: Hash(keys[j], n) != b
  {
    if upto == 0 then INVALID
    else if Hash(keys[upto - 1], n) == b then upto - 1
    else Newest(keys, upto - 1, n, b)
  }

  /** The first `count` keys are threaded newest-first through the chains. */
  ghost predicate Linked(keys: seq<u32>, count: nat, buckets: seq<u32>, next: seq<u32>) {
    && count <= |keys| < INVALID && count <= |next|
    && PowerOfTwo(|buckets|)
    && (forall b | 0 <= b < |buckets| :: buckets[b] == Newest(keys, count, |buckets|, b))
    && (forall i | 0 <= i < count :: next[i] == Newest(keys, i, |buckets|, Hash(keys[i], |buckets|)))
  }

  /** What a walk knows when it stands on `candidate`: it has seen every newer key of the bucket. */
  ghost predicate Walking(keys: seq<u32>, n: nat, key: u32, candidate: u32, visited: nat)
    requires n > 0 && |keys| < INVALID
  {
    && (candidate == INVALID || (candidate < |keys| && Hash(keys[candidate], n) == Hash(key, n)))
    && visited + (if candidate == INVALID then 0 else candidate + 1) <= |keys|
  }

  /** Index `i` is still ahead of a walk standing on `candidate`. */
  predicate Ahead(candidate: u32, i: nat) {
    candidate != INVALID && i <= candidate
  }

  /** One step of a walk passes over no key equal to the one sought except the candidate itself. */
  lemma Advance(keys: seq<u32>, buckets: seq<u32>, next: seq<u32>, key: u32, candidate: u32, visited: nat)
    requires Linked(keys, |keys|, buckets, next)
    requires Walking(keys, |buckets|, key, candidate, visited) && candidate != INVALID
    ensures Walking(keys, |buckets|, key, next[candidate], visited + 1)
    ensures forall i | 0 <= i < |keys| && keys[i] == key && Ahead(candidate, i) ::
              i == candidate || Ahead(next[candidate], i)
  {
  }

  lemma Start(keys: seq<u32>, buckets: seq<u32>, next: seq<u32>, key: u32)
    requires Linked(keys, |keys|, buckets, next)
    ensures Walking(keys, |buckets|, key, buckets[Hash(key, |buckets|)], 0)
    ensures forall i | 0 <= i < |keys| && keys[i] == key :: Ahead(buckets[Hash(key, |buckets|)], i)
  {
  }

  /** Linking one more key in front of its bucket keeps the chains threaded. */
  lemma LinkOne(keys: seq<u32>, count: nat, buckets: seq<u32>, next: seq<u32>)
    requires Linked(keys, count, buckets, next) && count < |keys| && count < |next|
    ensures var b := Hash(keys[count], |buckets|);
            Linked(keys, count + 1, buckets[b := count], next[count := buckets[b]])
  {
  }

  /** Fresh buckets thread no key. */
  lemma LinkedNone(keys: seq<u32>, n: nat)
    requires PowerOfTwo(n) && |keys| < INVALID
    ensures Linked(keys, 0, seq(n, _ => INVALID), [])
  {
  }

  lemma LinkedRoom(keys: seq<u32>, count: nat, buckets: seq<u32>, next: seq<u32>)
    requires Linked(keys, count, buckets, next)
    ensures Linked(keys, count, buckets, next + [INVALID])
  {
  }

  /** A longer key list keeps the chains of its old prefix. */
  lemma LinkedPrefix(keys: seq<u32>, keys': seq<u32>, count: nat, buckets: seq<u32>, next: seq<u32>)
    requires Linked(keys, count, buckets, next)
    requires count <= |keys'| < INVALID && keys[..count] == keys'[..count]
    ensures Linked(keys', count, buckets, next)
  {
    var n := |buckets|;
    forall b: nat | b < n ensures buckets[b] == Newest(keys', count, n, b) {
      NewestPrefix(keys, keys', count, n, b);
    }
    forall i: nat | i < count ensures next[i] == Newest(keys', i, n, Hash(keys'[i], n)) {
      assert keys[i] == keys[..count][i] == keys'[i];
      assert keys[..i] == keys[..count][..i] == keys'[..i];
      NewestPrefix(keys, keys', i, n, Hash(keys[i], n));
    }
  }

  lemma NewestPrefix(keys: seq<u32>, keys': seq<u32>, upto: nat, n: nat, b: nat)
    requires upto <= |keys| < INVALID && upto <= |keys'| < INVALID && n > 0
    requires keys[..upto] == keys'[..upto]
    ensures Newest(keys, upto, n, b) == Newest(keys', upto, n, b)
  {
    if upto > 0 {
      assert keys[upto - 1] == keys[..upto][upto - 1] == keys'[upto - 1];
      assert keys[..upto - 1] == keys[..upto][..upto - 1] == keys'[..upto - 1];
      NewestPrefix(keys, keys', upto - 1, n, b);
    }
  }

  /** Thread every key from scratch, oldest to newest. */
  method Rebuild(keys: seq<u32>) returns (buckets: seq<u32>, next: seq<u32>)
    requires |keys| < INVALID
    ensures Linked(keys, |keys|, buckets, next) && |next| == |keys| && buckets != []
    ensures |keys| <= MAX_BUCKETS ==> |keys| <= |buckets|
  {
    var n := RoundUpToPowerOfTwo(|keys|);
    buckets, next := seq(n, _ => INVALID), seq(|keys|, _ => INVALID);
    var i := 0;
    while i < |keys|
      invariant 0 <= i <= |keys| == |next| && |buckets| == n
      invariant Linked(keys, i, buckets, next)
    {
      var b := Hash(keys[i], n);
      LinkOne(keys, i, buckets, next);
      next := next[i := buckets[b]];
      buckets := buckets[b := i];
      i := i + 1;
    }
  }
}
