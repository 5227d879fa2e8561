/** A vector kept sorted by a 32-bit key and searched with a lower bound. */
module SortedTable {
  import opened Words

  datatype Row<T> = Row(key: u32, value: T)

  predicate Sorted<T>(t: seq<Row<T>>) {
    forall i, j | 0 <= i < j < |t| :: t[i].key < t[j].key
  }

  /** The first row whose key is not below `key`. */
  function LowerBound<T>(t: seq<Row<T>>, key: u32): (r: nat)
    requires Sorted(t)
    ensures r <= |t|
    ensures forall i | 0 <= i < r :: t[i].key < key
    ensures forall i | r <= i < |t| :: key <= t[i].key
  {
    Search(t, key, 0, |t|)
  }

  function Search<T>(t: seq<Row<T>>, key: u32, lo: nat, hi: nat): (r: nat)
    requires Sorted(t) && lo <= hi <= |t|
    requires forall i | 0 <= i < lo :: t[i].key < key
    requires forall i | hi <= i < |t| :: key <= t[i].key
    ensures r <= |t|
    ensures forall i | 0 <= i < r :: t[i].key < key
    ensures forall i | r <= i < |t| :: key <= t[i].key
    decreases hi - lo
  {
    if lo == hi then lo else
      var mid := (lo + hi) / 2;
      if t[mid].key < key then Search(t, key, mid + 1, hi) else Search(t, key, lo, mid)
  }

  function Find<T>(t: seq<Row<T>>, key: u32): (r: Option<T>)
    requires Sorted(t)
    ensures r == Scan(t, key)
    ensures r.Some? ==> exists i | 0 <= i < |t| :: t[i] == Row(key, r.value)
    ensures r.None? ==> forall i | 0 <= i < |t| :: t[i].key != key
  {
    var at := LowerBound(t, key);
    if at < |t| && t[at].key == key then
      ScanHit(t, at);
      Some(t[at].value)
    else
      ScanMiss(t, key);
      None
  }

  /** What a front-to-back search for `key` finds. */
  ghost function Scan<T>(t: seq<Row<T>>, key: u32): Option<T> {
    if t == [] then None else if t[0].key == key then Some(t[0].value) else Scan(t[1..], key)
  }

  lemma ScanHit<T>(t: seq<Row<T>>, i: nat)
    requires i < |t| && forall j | 0 <= j < i :: t[j].key != t[i].key
    ensures Scan(t, t[i].key) == Some(t[i].value)
  {
    if i > 0 { ScanHit(t[1..], i - 1); }
  }

  lemma ScanMiss<T>(t: seq<Row<T>>, key: u32)
    requires forall j | 0 <= j < |t| :: t[j].key != key
    ensures Scan(t, key) == None
  {
  }

  lemma ScanConcat<T>(a: seq<Row<T>>, b: seq<Row<T>>, key: u32)
    ensures Scan(a + b, key) == if Scan(a, key).Some? then Scan(a, key) else Scan(b, key)
  {
    if a == [] {
      assert a + b == b;
    } else {
      assert (a + b)[1..] == a[1..] + b;
    }
  }

  /** Insert a row, or replace the row that has this key. */
  function Store<T>(t: seq<Row<T>>, key: u32, value: T): (r: seq<Row<T>>)
    requires Sorted(t)
    ensures Sorted(r)
    ensures Find(r, key) == Some(value)
    ensures forall k: u32 | k != key :: Find(r, k) == Find(t, k)
  {
    var at := LowerBound(t, key);
    var rest := if at < |t| && t[at].key == key then at + 1 else at;
    SpliceFinds(t, at, rest, [Row(key, value)], key);
    t[..at] + [Row(key, value)] + t[rest..]
  }

  function Erase<T>(t: seq<Row<T>>, key: u32): (r: seq<Row<T>>)
    requires Sorted(t)
    ensures Sorted(r)
    ensures Find(r, key) == None
    ensures forall k: u32 | k != key :: Find(r, k) == Find(t, k)
  {
    var at := LowerBound(t, key);
    var rest := if at < |t| && t[at].key == key then at + 1 else at;
    SpliceFinds(t, at, rest, [], key);
    t[..at] + [] + t[rest..]
  }

  /** `mid` can replace the rows [at, rest) of `t`, all of which are under `key`. */
  ghost predicate Fits<T>(t: seq<Row<T>>, at: nat, rest: nat, mid: seq<Row<T>>, key: u32) {
    && Sorted(t) && at <= rest <= |t| && |mid| <= 1
    && (forall i | 0 <= i < at :: t[i].key < key)
    && (forall i | at <= i < rest :: t[i].key == key)
    && (forall i | rest <= i < |t| :: key < t[i].key)
    && (forall i | 0 <= i < |mid| :: mid[i].key == key)
  }

  lemma SpliceSorted<T>(t: seq<Row<T>>, at: nat, rest: nat, mid: seq<Row<T>>, key: u32)
    requires Fits(t, at, rest, mid, key)
    ensures Sorted(t[..at] + mid + t[rest..])
  {
  }

  lemma SpliceScansOther<T>(t: seq<Row<T>>, at: nat, rest: nat, mid: seq<Row<T>>, key: u32, k: u32)
    requires Fits(t, at, rest, mid, key) && k != key
    ensures Scan(t[..at] + mid + t[rest..], k) == Scan(t, k)
  {
    var a, old', b := t[..at], t[at..rest], t[rest..];
    ScanMiss(mid, k);
    ScanMiss(old', k);
    hide *;
    assert t == a + old' + b;
    ScanConcat(a, mid, k);
    ScanConcat(a + mid, b, k);
    ScanConcat(a, old', k);
    ScanConcat(a + old', b, k);
  }

  /** Replacing the rows under `key` by `mid` changes only what is found under `key`. */
  lemma SpliceFinds<T>(t: seq<Row<T>>, at: nat, rest: nat, mid: seq<Row<T>>, key: u32)
    requires Fits(t, at, rest, mid, key)
    ensures Sorted(t[..at] + mid + t[rest..])
    ensures Scan(t[..at] + mid + t[rest..], key) == if mid == [] then None else Some(mid[0].value)
    ensures forall k: u32 | k != key :: Scan(t[..at] + mid + t[rest..], k) == Scan(t, k)
  {
    var a, b := t[..at], t[rest..];
    SpliceSorted(t, at, rest, mid, key);
    ScanMiss(a, key);
    ScanMiss(b, key);
    ScanConcat(a, mid, key);
    ScanConcat(a + mid, b, key);
    forall k: u32 | k != key { SpliceScansOther(t, at, rest, mid, key, k); }
  }
}
