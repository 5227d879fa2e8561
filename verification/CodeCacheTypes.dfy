/** The records a code-cache placement is made of. */
module CodeCacheTypes {
  import opened Words

  /** One translated guest instruction: where it came from and where its code is. */
  datatype Entry = Entry(guest: u32, glen: u8, off: u32, elen: u8)

  datatype EntryState = EntryState(generation: u32, active: bool, tracks: bool)

  function Guests(m: seq<Entry>): (keys: seq<u32>)
    ensures |keys| == |m| && forall i | 0 <= i < |m| :: keys[i] == m[i].guest
  {
    seq(|m|, i requires 0 <= i < |m| => m[i].guest)
  }

  /** The entry's emitted code contains the cache offset. */
  predicate Covers(e: Entry, offset: u32) {
    e.off <= offset < e.off + e.elen
  }

  predicate OffsetSorted(m: seq<Entry>) {
    forall i, j | 0 <= i < j < |m| :: m[i].off <= m[j].off
  }

  /** No emitted range runs past the last 32-bit cache offset. */
  predicate OffsetsFit(m: seq<Entry>) {
    forall i | 0 <= i < |m| :: m[i].off + 0xFF < WORD
  }
}
