/** Fixed-width words, little-endian storage, 4 KiB pages and 32-bit relative branches. */
module Words {

  datatype Option<+T> = None | Some(value: T)

  const WORD: int := 0x1_0000_0000
  const PAGE_SIZE: int := 4096

  type u8 = x: int | 0 <= x < 0x100
  type u16 = x: int | 0 <= x < 0x1_0000
  type u32 = x: int | 0 <= x < 0x1_0000_0000

  /** Unsigned 32-bit arithmetic keeps the low 32 bits. */
  function Wrap(x: int): (r: u32)
    ensures 0 <= x < WORD ==> r == x
    ensures -WORD <= x < 0 ==> r == x + WORD
    ensures WORD <= x < 2 * WORD ==> r == x - WORD
  {
    x % WORD
  }

  /** A word read as a two's complement signed number. */
  function Signed32(x: u32): int {
    if x < 0x8000_0000 then x else x - WORD
  }

  function Signed16(x: u16): int {
    if x < 0x8000 then x else x - 0x1_0000
  }

  /** The word stored little-endian at `at`. */
  function Word32(b: seq<u8>, at: nat): u32
    requires at + 4 <= |b|
  {
    var (b0: int, b1: int, b2: int, b3: int) := (b[at], b[at + 1], b[at + 2], b[at + 3]);
    b0 + 0x100 * b1 + 0x1_0000 * b2 + 0x100_0000 * b3
  }

  function Word16(b: seq<u8>, at: nat): u16
    requires at + 2 <= |b|
  {
    var (b0: int, b1: int) := (b[at], b[at + 1]);
    b0 + 0x100 * b1
  }

  function Bytes32(v: u32): (r: seq<u8>)
    ensures |r| == 4 && Word32(r, 0) == v
  {
    var high := v / 0x100;
    var top := high / 0x100;
    [v % 0x100, high % 0x100, top % 0x100, top / 0x100]
  }

  function Bytes16(v: u16): (r: seq<u8>)
    ensures |r| == 2 && Word16(r, 0) == v
  {
    [v % 0x100, v / 0x100]
  }

  /** Four bytes are determined by the word they store. */
  lemma BytesOfWord32(b: seq<u8>, at: nat)
    requires at + 4 <= |b|
    ensures Bytes32(Word32(b, at)) == b[at..at + 4]
  {
    var (b0: int, b1: int, b2: int, b3: int) := (b[at], b[at + 1], b[at + 2], b[at + 3]);
    var v: int := Word32(b, at);
    var top := b2 + 0x100 * b3;
    var high := b1 + 0x100 * top;
    assert v == b0 + 0x100 * high;
    assert v / 0x100 == high && v % 0x100 == b0;
    assert high / 0x100 == top && high % 0x100 == b1;
  }

  lemma BytesOfWord16(b: seq<u8>, at: nat)
    requires at + 2 <= |b|
    ensures Bytes16(Word16(b, at)) == b[at..at + 2]
  {
  }

  /** `b` with `data` copied over it at `at`. */
  function Put(b: seq<u8>, at: nat, data: seq<u8>): (r: seq<u8>)
    requires at + |data| <= |b|
    ensures |r| == |b|
  {
    b[..at] + data + b[at + |data|..]
  }

  lemma PutAt(b: seq<u8>, at: nat, data: seq<u8>, j: nat)
    requires at + |data| <= |b| && j < |b|
    ensures Put(b, at, data)[j] == if at <= j < at + |data| then data[j - at] else b[j]
  {
  }

  predicate Apart(a: int, m: int, b: int, n: int) {
    a + m <= b || b + n <= a
  }

  lemma PutKeeps(b: seq<u8>, at: nat, data: seq<u8>, x: nat, n: nat)
    requires at + |data| <= |b| && x + n <= |b| && Apart(x, n, at, |data|)
    ensures Put(b, at, data)[x..x + n] == b[x..x + n]
  {
  }

  lemma PutReads(b: seq<u8>, at: nat, data: seq<u8>)
    requires at + |data| <= |b|
    ensures Put(b, at, data)[at..at + |data|] == data
  {
  }

  /** Where a relative branch lands whose next instruction is at `next`. */
  function Land(next: int, rel: u32): u32 {
    Wrap(next + rel)
  }

  /** The displacement written for a branch to `target` does land on `target`. */
  lemma LandsOn(next: int, target: u32)
    ensures Land(next, Wrap(target - next)) == target
  {
    var d := target - next;
    assert d == d / WORD * WORD + d % WORD;
    assert next + d % WORD == target + (-(d / WORD)) * WORD;
    AddMultiple(target, -(d / WORD));
  }

  lemma AddMultiple(x: int, k: int)
    ensures (x + k * WORD) % WORD == x % WORD
  {
  }

  function Page(a: u32): (p: u32)
    ensures p <= a < p + PAGE_SIZE && IsPage(p)
  {
    a - a % PAGE_SIZE
  }

  predicate IsPage(p: int) {
    p % PAGE_SIZE == 0
  }

  /** Half-open byte ranges [a, a + m) and [b, b + n) have a byte in common. */
  predicate Overlap(a: int, m: int, b: int, n: int) {
    a < b + n && b < a + m
  }

  /** The page that holds a byte is the only one that contains it. */
  lemma PageUnique(a: u32, p: u32)
    requires IsPage(p) && p <= a < p + PAGE_SIZE
    ensures p == Page(a)
  {
  }
}
