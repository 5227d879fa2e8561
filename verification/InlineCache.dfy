/**
 A polymorphic inline-cache site lives in the cache bytes: a chain of compare blocks, each with a
 target immediate, a six-byte guard and a jump displacement. The patcher and the retirement of a
 guest page rewrite those bytes; this module says what executing the chain does afterwards.
 */
module InlineCaches {
  import opened Words

  datatype Slot = Slot(compare: u32, imm: u32, guard: u32, disp: u32)

  /** `slots` is never empty: a legacy site without entries is the site of its one slot. */
  datatype Site = Site(miss: u32, probe: u32, slots: seq<Slot>, cursor: nat)

  const JMP: u8 := 0xE9
  const JNE0: u8 := 0x0F
  const JNE1: u8 := 0x85
  const NOP: u8 := 0x90

  /** Where a guard goes on a miss: the direct-return probe if there is one, else the miss tail. */
  function GuardTarget(s: Site): (r: u32)
    ensures s.probe != 0 ==> r == s.probe
    ensures s.probe == 0 ==> r == s.miss
  {
    if s.probe != 0 then s.probe else s.miss
  }

  /** Where slot `k` goes when its compare fails. */
  function Follow(s: Site, k: nat): u32
    requires k < |s.slots|
  {
    if k + 1 < |s.slots| then s.slots[k + 1].compare else GuardTarget(s)
  }

  /** Byte range [at, at + n) shares nothing with the three windows of the slot. */
  predicate ClearOf(slot: Slot, at: int, n: int) {
    Apart(slot.imm, 4, at, n) && Apart(slot.guard, 6, at, n) && Apart(slot.disp, 4, at, n)
  }

  predicate SlotLaid(slot: Slot, size: int) {
    && slot.compare < size && slot.imm + 4 <= size && slot.guard + 6 <= size && slot.disp + 4 <= size
    && Apart(slot.imm, 4, slot.guard, 6) && Apart(slot.imm, 4, slot.disp, 4) && Apart(slot.guard, 6, slot.disp, 4)
  }

  predicate SlotsApart(a: Slot, b: Slot) {
    ClearOf(a, b.imm, 4) && ClearOf(a, b.guard, 6) && ClearOf(a, b.disp, 4)
  }

  /** The emitter's layout of one site inside `size` bytes of cache. */
  predicate Laid(s: Site, size: int) {
    && s.slots != [] && s.miss < size && s.probe < size
    && (forall i | 0 <= i < |s.slots| :: SlotLaid(s.slots[i], size))
    && (forall i, j | 0 <= i < j < |s.slots| :: SlotsApart(s.slots[i], s.slots[j]))
  }

  // ---- What the bytes of one slot say ----

  /**
   A slot as the processor and the patcher see it: the two bytes its guard starts with, its target
   immediate, and where the hit jump and the guard, read as `jmp` or as `jne`, land.
   */
  datatype View = View(head: u8, second: u8, imm: u32, hit: u32, jmpTo: u32, jneTo: u32) {
    predicate Jmp() { head == JMP }
    predicate Jne0() { head == JNE0 }
    predicate Learned() { head == JNE0 && second == JNE1 }
  }

  function ViewOf(b: seq<u8>, base: u32, slot: Slot): View
    requires SlotLaid(slot, |b|)
  {
    var g: nat := slot.guard;
    View(b[g], b[g + 1], Word32(b, slot.imm),
         Land(base + slot.disp + 4, Word32(b, slot.disp)),
         Land(g + 5, Word32(b, g + 1)), Land(g + 6, Word32(b, g + 2)))
  }

  function Views(b: seq<u8>, base: u32, s: Site): (v: seq<View>)
    requires Laid(s, |b|)
    ensures |v| == |s.slots| && forall i | 0 <= i < |v| :: v[i] == ViewOf(b, base, s.slots[i])
  {
    seq(|s.slots|, i requires 0 <= i < |s.slots| => ViewOf(b, base, s.slots[i]))
  }

  // ---- Executing the chain ----

  datatype Outcome = Missed | JumpedTo(address: u32) | Wild

  /** Execute the chain from the compare of slot `k` for a transfer to guest address `t`. */
  function Walk(v: seq<View>, s: Site, t: u32, k: nat): Outcome
    requires |v| == |s.slots| && k < |v|
    decreases |v| - k
  {
    if v[k].Jmp() then
      if v[k].jmpTo == GuardTarget(s) then Missed else Wild
    else if !v[k].Learned() then Wild
    else if v[k].imm == t then JumpedTo(v[k].hit)
    else if k + 1 < |v| && v[k].jneTo == s.slots[k + 1].compare then Walk(v, s, t, k + 1)
    else if v[k].jneTo == GuardTarget(s) then Missed
    else Wild
  }

  // ---- The patcher ----

  function FirstHolding(v: seq<View>, t: u32, k: nat): (r: nat)
    requires k <= |v|
    ensures k <= r <= |v|
    ensures forall i | k <= i < r :: !(v[i].Jne0() && v[i].imm == t)
    ensures r < |v| ==> v[r].Jne0() && v[r].imm == t
    decreases |v| - k
  {
    if k == |v| || (v[k].Jne0() && v[k].imm == t) then k else FirstHolding(v, t, k + 1)
  }

  function FirstReset(v: seq<View>, k: nat): (r: nat)
    requires k <= |v|
    ensures k <= r <= |v|
    ensures forall i | k <= i < r :: !v[i].Jmp()
    ensures r < |v| ==> v[r].Jmp()
    decreases |v| - k
  {
    if k == |v| || v[k].Jmp() then k else FirstReset(v, k + 1)
  }

  /** Refresh the slot holding the target, else fill the first reset one, else replace round-robin. */
  function Chosen(v: seq<View>, cursor: nat, t: u32): (k: nat)
    requires v != []
    ensures k < |v|
  {
    var held := FirstHolding(v, t, 0);
    var free := FirstReset(v, 0);
    if held < |v| then held else if free < |v| then free else cursor % |v|
  }

  function CursorAfter(v: seq<View>, cursor: nat, t: u32): nat
    requires v != []
  {
    if FirstHolding(v, t, 0) < |v| || FirstReset(v, 0) < |v| then cursor else (cursor % |v| + 1) % |v|
  }

  /** The slot a patch for `t` rewrites. */
  function PatchedSlot(b: seq<u8>, base: u32, s: Site, t: u32): (k: nat)
    requires Laid(s, |b|)
    ensures k < |s.slots|
  {
    Chosen(Views(b, base, s), s.cursor, t)
  }

  predicate Reachable32(base: u32, slot: Slot, target: u32) {
    -0x8000_0000 <= target - (base + slot.disp + 4) < 0x8000_0000
  }

  function WriteSlot(b: seq<u8>, base: u32, s: Site, k: nat, t: u32, target: u32): (r: seq<u8>)
    requires Laid(s, |b|) && k < |s.slots|
    ensures |r| == |b|
  {
    WriteWindows(b, s.slots[k], Bytes32(t), HitBytes(base, s.slots[k], target), GuardBytes(s, k))
  }

  /** The displacement of the hit jump. */
  function HitBytes(base: u32, slot: Slot, target: u32): (r: seq<u8>)
    ensures |r| == 4
  {
    Bytes32(Wrap(target - (base + slot.disp + 4)))
  }

  /** In range means that the displacement written, read as a signed number, is the distance to the target itself. */
  lemma InRangeIsExact(base: u32, slot: Slot, target: u32)
    ensures Reachable32(base, slot, target) <==>
            base + slot.disp + 4 + Signed32(Word32(HitBytes(base, slot, target), 0)) == target
  {
    hide Bytes32, Word32;
  }

  /** The learned guard: `jne` to whatever follows the slot. */
  function GuardBytes(s: Site, k: nat): (r: seq<u8>)
    requires k < |s.slots|
    ensures |r| == 6
  {
    [JNE0, JNE1] + Bytes32(Wrap(Follow(s, k) - (s.slots[k].guard + 6)))
  }

  function WriteWindows(b: seq<u8>, slot: Slot, imm: seq<u8>, disp: seq<u8>, guard: seq<u8>): (r: seq<u8>)
    requires SlotLaid(slot, |b|) && |imm| == |disp| == 4 && |guard| == 6
    ensures |r| == |b|
  {
    Put(Put(Put(b, slot.imm, imm), slot.disp, disp), slot.guard, guard)
  }

  /** The cache bytes after a patch. Out of rel32 range, only the immediate has been written. */
  function PatchBytes(b: seq<u8>, base: u32, s: Site, t: u32, target: u32): (r: seq<u8>)
    requires Laid(s, |b|)
    ensures |r| == |b|
  {
    var k := PatchedSlot(b, base, s, t);
    if Reachable32(base, s.slots[k], target) then WriteSlot(b, base, s, k, t, target)
    else Put(b, s.slots[k].imm, Bytes32(t))
  }

  // ---- Retirement ----

  /** A learned guard whose target lies on the page goes back to `jmp guard target; nop`. */
  function ResetSlot(b: seq<u8>, target: u32, slot: Slot, page: u32): (r: seq<u8>)
    requires SlotLaid(slot, |b|)
    ensures |r| == |b|
  {
    if b[slot.guard] != JNE0 || b[slot.guard + 1] != JNE1 || Page(Word32(b, slot.imm)) != page then b
    else Put(b, slot.guard, ResetBytes(slot, target))
  }

  function ResetBytes(slot: Slot, target: u32): (r: seq<u8>)
    ensures |r| == 6
  {
    [JMP] + Bytes32(Wrap(target - (slot.guard + 5))) + [NOP]
  }

  /** The bytes after the first `k` slots of the site have been visited. */
  function ResetSlots(b: seq<u8>, s: Site, page: u32, k: nat): (r: seq<u8>)
    requires Laid(s, |b|) && k <= |s.slots|
    ensures |r| == |b|
  {
    if k == 0 then b else ResetSlot(ResetSlots(b, s, page, k - 1), GuardTarget(s), s.slots[k - 1], page)
  }

  // ---- Reading back what was written ----

  ghost predicate SameSlot(b: seq<u8>, b': seq<u8>, slot: Slot) {
    && |b| == |b'| && SlotLaid(slot, |b|)
    && b[slot.imm..slot.imm + 4] == b'[slot.imm..slot.imm + 4]
    && b[slot.guard..slot.guard + 6] == b'[slot.guard..slot.guard + 6]
    && b[slot.disp..slot.disp + 4] == b'[slot.disp..slot.disp + 4]
  }

  lemma WordOfSlice(b: seq<u8>, b': seq<u8>, at: nat, lo: nat, hi: nat)
    requires lo <= at && at + 4 <= hi <= |b| && hi <= |b'| && b[lo..hi] == b'[lo..hi]
    ensures Word32(b, at) == Word32(b', at)
  {
    assert forall i | lo <= i < hi :: b[i] == b[lo..hi][i - lo] && b'[i] == b'[lo..hi][i - lo];
  }

  /** Equal windows mean an equal view. */
  lemma SameSlotView(b: seq<u8>, b': seq<u8>, base: u32, slot: Slot)
    requires SameSlot(b, b', slot)
    ensures ViewOf(b, base, slot) == ViewOf(b', base, slot)
  {
    hide Word32, Land;
    GuardView(b, b', base, slot);
    WordOfSlice(b, b', slot.imm, slot.imm, slot.imm + 4);
    WordOfSlice(b, b', slot.disp, slot.disp, slot.disp + 4);
  }

  lemma GuardView(b: seq<u8>, b': seq<u8>, base: u32, slot: Slot)
    requires |b| == |b'| && SlotLaid(slot, |b|)
    requires b[slot.guard..slot.guard + 6] == b'[slot.guard..slot.guard + 6]
    ensures var v, v' := ViewOf(b, base, slot), ViewOf(b', base, slot);
            v.head == v'.head && v.second == v'.second && v.jmpTo == v'.jmpTo && v.jneTo == v'.jneTo
  {
    hide Word32, Land;
    var g: nat := slot.guard;
    WordOfSlice(b, b', g + 1, g, g + 6);
    WordOfSlice(b, b', g + 2, g, g + 6);
    assert b[g] == b[g..g + 6][0] && b[g + 1] == b[g..g + 6][1];
    assert b'[g] == b'[g..g + 6][0] && b'[g + 1] == b'[g..g + 6][1];
  }

  lemma PutElsewhere(b: seq<u8>, at: nat, data: seq<u8>, slot: Slot)
    requires at + |data| <= |b| && SlotLaid(slot, |b|) && ClearOf(slot, at, |data|)
    ensures SameSlot(b, Put(b, at, data), slot)
  {
    PutKeeps(b, at, data, slot.imm, 4);
    PutKeeps(b, at, data, slot.guard, 6);
    PutKeeps(b, at, data, slot.disp, 4);
  }

  lemma SameSlotTrans(a: seq<u8>, b: seq<u8>, c: seq<u8>, slot: Slot)
    requires SameSlot(a, b, slot) && SameSlot(b, c, slot)
    ensures SameSlot(a, c, slot)
  {
  }

  lemma WordAt(b: seq<u8>, at: nat, v: u32)
    requires at + 4 <= |b| && b[at..at + 4] == Bytes32(v)
    ensures Word32(b, at) == v
  {
    var w := b[at..at + 4];
    assert w[0] == b[at] && w[1] == b[at + 1] && w[2] == b[at + 2] && w[3] == b[at + 3];
    assert Word32(w, 0) == v;
  }

  /** The bytes of the three windows of a slot just written. */
  lemma WrittenWindows(b: seq<u8>, slot: Slot, imm: seq<u8>, disp: seq<u8>, guard: seq<u8>)
    requires SlotLaid(slot, |b|) && |imm| == |disp| == 4 && |guard| == 6
    ensures var r := WriteWindows(b, slot, imm, disp, guard);
            && r[slot.imm..slot.imm + 4] == imm && r[slot.disp..slot.disp + 4] == disp
            && r[slot.guard..slot.guard + 6] == guard
  {
    hide Put;
    var b1 := Put(b, slot.imm, imm);
    var b2 := Put(b1, slot.disp, disp);
    PutReads(b, slot.imm, imm);
    PutReads(b1, slot.disp, disp);
    PutReads(b2, slot.guard, guard);
    PutKeeps(b1, slot.disp, disp, slot.imm, 4);
    PutKeeps(b2, slot.guard, guard, slot.imm, 4);
    PutKeeps(b2, slot.guard, guard, slot.disp, 4);
  }

  lemma JneReads(r: seq<u8>, g: nat, v: u32)
    requires g + 6 <= |r| && r[g..g + 6] == [JNE0, JNE1] + Bytes32(v)
    ensures r[g] == JNE0 && r[g + 1] == JNE1 && Word32(r, g + 2) == v
  {
    hide Bytes32;
    var w := r[g..g + 6];
    assert r[g] == w[0] && r[g + 1] == w[1];
    assert forall i | 0 <= i < 4 :: Bytes32(v)[i] == w[2 + i] == r[g + 2 + i];
    WordAt(r, g + 2, v);
  }

  lemma JmpReads(r: seq<u8>, g: nat, v: u32)
    requires g + 6 <= |r| && r[g..g + 6] == [JMP] + Bytes32(v) + [NOP]
    ensures r[g] == JMP && Word32(r, g + 1) == v
  {
    hide Bytes32;
    var w := r[g..g + 6];
    assert r[g] == w[0];
    assert forall i | 0 <= i < 4 :: Bytes32(v)[i] == w[1 + i] == r[g + 1 + i];
    WordAt(r, g + 1, v);
  }

  lemma LearnedView(r: seq<u8>, base: u32, slot: Slot, t: u32, hit: u32, miss: u32)
    requires SlotLaid(slot, |r|)
    requires r[slot.imm..slot.imm + 4] == Bytes32(t) && r[slot.disp..slot.disp + 4] == Bytes32(hit)
    requires r[slot.guard..slot.guard + 6] == [JNE0, JNE1] + Bytes32(miss)
    ensures var v := ViewOf(r, base, slot);
            && !v.Jmp() && v.Learned() && v.imm == t
            && v.hit == Land(base + slot.disp + 4, hit) && v.jneTo == Land(slot.guard + 6, miss)
  {
    hide Bytes32, Word32, Land;
    WordAt(r, slot.imm, t);
    WordAt(r, slot.disp, hit);
    JneReads(r, slot.guard, miss);
  }

  /** A patched slot is learned, holds the target, hits its address and misses to what follows it. */
  lemma WrittenView(b: seq<u8>, base: u32, s: Site, k: nat, t: u32, target: u32)
    requires Laid(s, |b|) && k < |s.slots|
    ensures var v := ViewOf(WriteSlot(b, base, s, k, t, target), base, s.slots[k]);
            !v.Jmp() && v.Learned() && v.imm == t && v.hit == target && v.jneTo == Follow(s, k)
  {
    hide WriteWindows, Bytes32, Land, Wrap, Follow, ViewOf;
    var slot, r := s.slots[k], WriteSlot(b, base, s, k, t, target);
    WrittenWindows(b, slot, Bytes32(t), HitBytes(base, slot, target), GuardBytes(s, k));
    LearnedView(r, base, slot, t, Wrap(target - (base + slot.disp + 4)), Wrap(Follow(s, k) - (slot.guard + 6)));
    LandsOn(base + slot.disp + 4, target);
    LandsOn(slot.guard + 6, Follow(s, k));
  }

  lemma WriteWindowsElsewhere(b: seq<u8>, slot: Slot, imm: seq<u8>, disp: seq<u8>, guard: seq<u8>, other: Slot)
    requires SlotLaid(slot, |b|) && |imm| == |disp| == 4 && |guard| == 6
    requires SlotLaid(other, |b|) && SlotsApart(other, slot)
    ensures SameSlot(b, WriteWindows(b, slot, imm, disp, guard), other)
  {
    hide Put, SameSlot;
    var b1 := Put(b, slot.imm, imm);
    var b2 := Put(b1, slot.disp, disp);
    PutElsewhere(b, slot.imm, imm, other);
    PutElsewhere(b1, slot.disp, disp, other);
    PutElsewhere(b2, slot.guard, guard, other);
    SameSlotTrans(b, b1, b2, other);
    SameSlotTrans(b, b2, Put(b2, slot.guard, guard), other);
  }

  lemma ApartEitherWay(s: Site, size: int, i: nat, k: nat)
    requires Laid(s, size) && i < |s.slots| && k < |s.slots| && i != k
    ensures SlotLaid(s.slots[i], size) && SlotLaid(s.slots[k], size) && SlotsApart(s.slots[i], s.slots[k])
  {
    assert SlotsApart(s.slots[if i < k then i else k], s.slots[if i < k then k else i]);
  }

  /** A write to slot `k` replaces one view. */
  lemma WriteViews(b: seq<u8>, base: u32, s: Site, k: nat, t: u32, target: u32)
    requires Laid(s, |b|) && k < |s.slots|
    ensures var b' := WriteSlot(b, base, s, k, t, target);
            Views(b', base, s) == Views(b, base, s)[k := ViewOf(b', base, s.slots[k])]
  {
    hide WriteWindows, Bytes32, HitBytes, GuardBytes, SameSlot, ViewOf;
    var b' := WriteSlot(b, base, s, k, t, target);
    forall i | 0 <= i < |s.slots| && i != k ensures ViewOf(b', base, s.slots[i]) == ViewOf(b, base, s.slots[i]) {
      ApartEitherWay(s, |b|, i, k);
      WriteWindowsElsewhere(b, s.slots[k], Bytes32(t), HitBytes(base, s.slots[k], target), GuardBytes(s, k), s.slots[i]);
      SameSlotView(b, b', base, s.slots[i]);
    }
  }

  /** Overwriting only the immediate of slot `k` changes only that in its view. */
  lemma ImmediateViews(b: seq<u8>, base: u32, s: Site, k: nat, t: u32)
    requires Laid(s, |b|) && k < |s.slots|
    ensures Views(Put(b, s.slots[k].imm, Bytes32(t)), base, s) ==
            Views(b, base, s)[k := ViewOf(b, base, s.slots[k]).(imm := t)]
  {
    hide Put, Bytes32, SameSlot, ViewOf;
    var slot, b' := s.slots[k], Put(b, s.slots[k].imm, Bytes32(t));
    forall i | 0 <= i < |s.slots| && i != k ensures ViewOf(b', base, s.slots[i]) == ViewOf(b, base, s.slots[i]) {
      ApartEitherWay(s, |b|, i, k);
      PutElsewhere(b, slot.imm, Bytes32(t), s.slots[i]);
      SameSlotView(b, b', base, s.slots[i]);
    }
    ImmediateView(b, base, slot, t);
  }

  lemma ImmediateView(b: seq<u8>, base: u32, slot: Slot, t: u32)
    requires SlotLaid(slot, |b|)
    ensures ViewOf(Put(b, slot.imm, Bytes32(t)), base, slot) == ViewOf(b, base, slot).(imm := t)
  {
    hide Put, Bytes32, Word32, Land;
    var b' := Put(b, slot.imm, Bytes32(t));
    PutReads(b, slot.imm, Bytes32(t));
    WordAt(b', slot.imm, t);
    PutKeeps(b, slot.imm, Bytes32(t), slot.disp, 4);
    PutKeeps(b, slot.imm, Bytes32(t), slot.guard, 6);
    WordOfSlice(b, b', slot.disp, slot.disp, slot.disp + 4);
    GuardView(b, b', base, slot);
  }

  // ---- Reading back a retirement ----

  predicate OnPage(v: View, page: u32) {
    v.Learned() && Page(v.imm) == page
  }

  lemma ResetSlotView(b: seq<u8>, base: u32, target: u32, slot: Slot, page: u32)
    requires SlotLaid(slot, |b|)
    ensures var v := ViewOf(ResetSlot(b, target, slot, page), base, slot);
            if OnPage(ViewOf(b, base, slot), page) then v.Jmp() && v.jmpTo == target
            else v == ViewOf(b, base, slot)
  {
    hide Bytes32, Word32, Land, Put;
    if OnPage(ViewOf(b, base, slot), page) {
      var rel := Wrap(target - (slot.guard + 5));
      PutReads(b, slot.guard, ResetBytes(slot, target));
      JmpReads(ResetSlot(b, target, slot, page), slot.guard, rel);
      LandsOn(slot.guard + 5, target);
    }
  }

  lemma ResetSlotElsewhere(b: seq<u8>, target: u32, slot: Slot, page: u32, other: Slot)
    requires SlotLaid(slot, |b|) && SlotLaid(other, |b|) && SlotsApart(other, slot)
    ensures SameSlot(b, ResetSlot(b, target, slot, page), other)
  {
    hide ResetBytes;
    if ResetSlot(b, target, slot, page) != b {
      PutElsewhere(b, slot.guard, ResetBytes(slot, target), other);
    }
  }

  lemma ResetSlotOtherView(b: seq<u8>, base: u32, s: Site, page: u32, k: nat, i: nat)
    requires Laid(s, |b|) && k < |s.slots| && i < |s.slots| && i != k
    ensures ViewOf(ResetSlot(b, GuardTarget(s), s.slots[k], page), base, s.slots[i]) == ViewOf(b, base, s.slots[i])
  {
    hide *;
    ApartEitherWay(s, |b|, i, k);
    ResetSlotElsewhere(b, GuardTarget(s), s.slots[k], page, s.slots[i]);
    SameSlotView(b, ResetSlot(b, GuardTarget(s), s.slots[k], page), base, s.slots[i]);
  }

  /** Slot `i` is unchanged, or was learned on the page and is reset. */
  ghost predicate ResetOutcome(v: View, v': View, done: bool, target: u32, page: u32) {
    if done && OnPage(v, page) then v'.Jmp() && v'.jmpTo == target else v' == v
  }

  /** The views after the loop over the first `k` slots. */
  lemma {:induction false} ResetSlotsView(b: seq<u8>, base: u32, s: Site, page: u32, k: nat, i: nat)
    requires Laid(s, |b|) && k <= |s.slots| && i < |s.slots|
    ensures ResetOutcome(ViewOf(b, base, s.slots[i]), ViewOf(ResetSlots(b, s, page, k), base, s.slots[i]),
                         i < k, GuardTarget(s), page)
    decreases k
  {
    hide ViewOf, ResetSlot, OnPage, GuardTarget;
    if k > 0 {
      var before := ResetSlots(b, s, page, k - 1);
      ResetSlotsView(b, base, s, page, k - 1, i);
      if i == k - 1 {
        ResetSlotView(before, base, GuardTarget(s), s.slots[i], page);
      } else {
        ResetSlotOtherView(before, base, s, page, k - 1, i);
      }
    }
  }
}
