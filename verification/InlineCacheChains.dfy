/** What a guest transfer through an inline-cache site reaches, over any history of its bytes. */
module InlineCacheChains {
  import opened Words
  import opened InlineCaches

  /** The address patched last for each guest target. */
  type Patches = map<u32, u32>

  /** A slot is in reset form, or learned with a target that was patched to where it hits. */
  ghost predicate SlotOk(v: View, s: Site, k: nat, last: Patches)
    requires k < |s.slots|
  {
    if v.Jmp() then v.jmpTo == GuardTarget(s)
    else v.Learned() && v.jneTo == Follow(s, k) && v.imm in last && v.hit == last[v.imm]
  }

  /** Every slot is sound, and no two learned slots hold the same target. */
  ghost predicate ChainOk(v: seq<View>, s: Site, last: Patches) {
    && |v| == |s.slots| && v != []
    && (forall k | 0 <= k < |v| :: SlotOk(v[k], s, k, last))
    && (forall i, j | 0 <= i < j < |v| && !v[i].Jmp() && !v[j].Jmp() :: v[i].imm != v[j].imm)
  }

  // ---- A sound chain walks soundly ----

  /** A transfer ends at the guard target or at the address last patched for it, never anywhere else. */
  lemma {:induction false} WalkIsSound(v: seq<View>, s: Site, last: Patches, t: u32, k: nat)
    requires ChainOk(v, s, last) && k < |v|
    ensures var r := Walk(v, s, t, k); r == Missed || (t in last && r == JumpedTo(last[t]))
    decreases |v| - k
  {
    assert SlotOk(v[k], s, k, last);
    if k + 1 < |v| { WalkIsSound(v, s, last, t, k + 1); }
  }

  /** With slot `h` holding `t`, the walk hits exactly when no slot in front of `h` is in reset form. */
  lemma {:induction false} WalkHits(v: seq<View>, s: Site, last: Patches, t: u32, h: nat, k: nat)
    requires ChainOk(v, s, last) && k <= h < |v| && !v[h].Jmp() && v[h].imm == t
    ensures Walk(v, s, t, k) == if exists i | k <= i < h :: v[i].Jmp() then Missed else JumpedTo(v[h].hit)
    decreases h - k
  {
    assert SlotOk(v[k], s, k, last) && SlotOk(v[h], s, h, last);
    if k < h && !v[k].Jmp() { WalkHits(v, s, last, t, h, k + 1); }
  }

  // ---- Patching ----

  /** The view a patch leaves in the chosen slot. */
  ghost predicate IsPatched(w: View, s: Site, k: nat, t: u32, target: u32)
    requires k < |s.slots|
  {
    !w.Jmp() && w.Learned() && w.imm == t && w.hit == target && w.jneTo == Follow(s, k)
  }

  /** A patch keeps the chain sound: the target moves to its new address and to no other slot. */
  lemma PatchKeepsChain(v: seq<View>, s: Site, last: Patches, t: u32, target: u32, w: View)
    requires ChainOk(v, s, last) && IsPatched(w, s, Chosen(v, s.cursor, t), t, target)
    ensures ChainOk(v[Chosen(v, s.cursor, t) := w], s, last[t := target])
  {
    var k := Chosen(v, s.cursor, t);
    forall i | 0 <= i < |v| && i != k ensures SlotOk(v[i], s, i, last[t := target]) && (v[i].Jmp() || v[i].imm != t) {
      assert SlotOk(v[i], s, i, last) && SlotOk(v[k], s, k, last);
    }
  }

  /** The target is held by a slot behind one that is in reset form. */
  ghost predicate Shadowed(v: seq<View>, t: u32) {
    var held := FirstHolding(v, t, 0);
    held < |v| && exists i | 0 <= i < held :: v[i].Jmp()
  }

  /** The next transfer to a target just patched hits exactly when the target was not shadowed. */
  lemma PatchThenHit(v: seq<View>, s: Site, last: Patches, t: u32, target: u32, w: View)
    requires ChainOk(v, s, last) && IsPatched(w, s, Chosen(v, s.cursor, t), t, target)
    ensures var v' := v[Chosen(v, s.cursor, t) := w];
            && Walk(v', s, t, 0) == (if Shadowed(v, t) then Missed else JumpedTo(target))
            && (Shadowed(v, t) <==> Shadowed(v', t))
  {
    var k := Chosen(v, s.cursor, t);
    var v' := v[k := w];
    PatchKeepsChain(v, s, last, t, target, w);
    WalkHits(v', s, last[t := target], t, k, 0);
    assert forall i | 0 <= i < k :: v'[i] == v[i];
    assert FirstHolding(v', t, 0) == k by {
      forall i | 0 <= i < k ensures !(v'[i].Jne0() && v'[i].imm == t) {
        assert SlotOk(v'[i], s, i, last[t := target]);
      }
    }
  }

  /** While no page is retired the learned slots form a prefix, and nothing is shadowed. */
  ghost predicate LearnedPrefix(v: seq<View>) {
    forall i, j | 0 <= i < j < |v| && v[i].Jmp() :: v[j].Jmp()
  }

  lemma PatchKeepsPrefix(v: seq<View>, s: Site, last: Patches, t: u32, target: u32, w: View)
    requires ChainOk(v, s, last) && IsPatched(w, s, Chosen(v, s.cursor, t), t, target) && LearnedPrefix(v)
    ensures LearnedPrefix(v[Chosen(v, s.cursor, t) := w]) && !Shadowed(v, t)
  {
    var k, held := Chosen(v, s.cursor, t), FirstHolding(v, t, 0);
    assert SlotOk(v[k], s, k, last);
    if held < |v| { assert SlotOk(v[held], s, held, last); }
  }

  // ---- The bytes ----

  /** A site as the emitter leaves it: every slot in reset form. */
  ghost predicate FreshSite(b: seq<u8>, base: u32, s: Site) {
    && Laid(s, |b|)
    && forall k | 0 <= k < |s.slots| :: var v := ViewOf(b, base, s.slots[k]); v.Jmp() && v.jmpTo == GuardTarget(s)
  }

  /** A patch in range is the rewriting of one view. */
  lemma PatchBytesViews(b: seq<u8>, base: u32, s: Site, t: u32, target: u32) returns (w: View)
    requires Laid(s, |b|) && Reachable32(base, s.slots[PatchedSlot(b, base, s, t)], target)
    ensures IsPatched(w, s, PatchedSlot(b, base, s, t), t, target)
    ensures Views(PatchBytes(b, base, s, t, target), base, s) == Views(b, base, s)[PatchedSlot(b, base, s, t) := w]
  {
    hide ViewOf, WriteSlot, Follow, PatchedSlot;
    var k := PatchedSlot(b, base, s, t);
    w := ViewOf(WriteSlot(b, base, s, k, t, target), base, s.slots[k]);
    WriteViews(b, base, s, k, t, target);
    WrittenView(b, base, s, k, t, target);
  }

  /**
   Out of rel32 range the early return has already rewritten the immediate. The chain is still sound
   exactly when the chosen slot was in reset form, already held the target, or hits its address anyway.
   */
  lemma OutOfRangePatch(b: seq<u8>, base: u32, s: Site, last: Patches, t: u32, target: u32)
    requires Laid(s, |b|) && ChainOk(Views(b, base, s), s, last)
    requires !Reachable32(base, s.slots[PatchedSlot(b, base, s, t)], target)
    ensures var v := Views(b, base, s)[PatchedSlot(b, base, s, t)];
            ChainOk(Views(PatchBytes(b, base, s, t, target), base, s), s, last) <==>
            v.Jmp() || v.imm == t || (t in last && last[t] == v.hit)
  {
    hide ViewOf, Follow, Put;
    var v, k := Views(b, base, s), PatchedSlot(b, base, s, t);
    ImmediateViews(b, base, s, k, t);
    ImmediateChanged(v, s, last, t, v[k].(imm := t));
  }

  lemma ImmediateChanged(v: seq<View>, s: Site, last: Patches, t: u32, w: View)
    requires ChainOk(v, s, last) && w == v[Chosen(v, s.cursor, t)].(imm := t)
    ensures ChainOk(v[Chosen(v, s.cursor, t) := w], s, last) <==>
            w.Jmp() || v[Chosen(v, s.cursor, t)].imm == t || (t in last && last[t] == w.hit)
  {
    var k := Chosen(v, s.cursor, t);
    assert SlotOk(v[k], s, k, last);
    forall i | 0 <= i < |v| && i != k ensures v[i].Jmp() || v[i].imm != t {
      assert SlotOk(v[i], s, i, last);
    }
    assert SlotOk(w, s, k, last) <==> w.Jmp() || (t in last && last[t] == w.hit);
    assert v[k := w][k] == w;
  }

  const ONE_SLOT := Site(19, 0, [Slot(1, 3, 7, 15)], 0)
  const HIGH_BASE: u32 := 0x9000_0000

  /** The bytes of a one-slot site that has learned one target. */
  function LearnedOne(t: u32, address: u32): (b: seq<u8>)
    ensures |b| == 21 && Laid(ONE_SLOT, 21)
  {
    assert SlotLaid(ONE_SLOT.slots[0], 21);
    WriteSlot(seq(21, _ => 0), HIGH_BASE, ONE_SLOT, 0, t, address)
  }

  lemma LearnedOneView(t: u32, address: u32)
    ensures var v := Views(LearnedOne(t, address), HIGH_BASE, ONE_SLOT)[0]; !v.Jmp() && v.Learned() && v.imm == t && v.hit == address
    ensures ChainOk(Views(LearnedOne(t, address), HIGH_BASE, ONE_SLOT), ONE_SLOT, map[t := address])
  {
    hide WriteSlot, ViewOf;
    WrittenView(seq(21, _ => 0), HIGH_BASE, ONE_SLOT, 0, t, address);
    assert SlotOk(Views(LearnedOne(t, address), HIGH_BASE, ONE_SLOT)[0], ONE_SLOT, 0, map[t := address]);
  }

  /**
   A sound chain that has learned `t` at an address in a high cache: a refused patch of another target `u` to a low
   address spoils it, and transfers to `u` then run the code of `t`.
   */
  lemma OutOfRangePatchGoesStray(t: u32, u: u32, address: u32)
    requires t != u
    ensures var b, last := LearnedOne(t, address), map[t := address];
            && ChainOk(Views(b, HIGH_BASE, ONE_SLOT), ONE_SLOT, last)
            && !Reachable32(HIGH_BASE, ONE_SLOT.slots[PatchedSlot(b, HIGH_BASE, ONE_SLOT, u)], 0)
            && var v' := Views(PatchBytes(b, HIGH_BASE, ONE_SLOT, u, 0), HIGH_BASE, ONE_SLOT);
            !ChainOk(v', ONE_SLOT, last) && u !in last && Walk(v', ONE_SLOT, u, 0) == JumpedTo(address)
  {
    hide ViewOf, LearnedOne;
    var b := LearnedOne(t, address);
    LearnedOneView(t, address);
    OutOfRangePatch(b, HIGH_BASE, ONE_SLOT, map[t := address], u, 0);
    ImmediateViews(b, HIGH_BASE, ONE_SLOT, 0, u);
  }

  /** Resetting the learned slots whose target is on the page keeps the chain sound and leaves none of them. */
  lemma ResetsKeepChain(v: seq<View>, v': seq<View>, s: Site, last: Patches, page: u32)
    requires ChainOk(v, s, last) && |v'| == |v|
    requires forall i | 0 <= i < |v| :: ResetOutcome(v[i], v'[i], true, GuardTarget(s), page)
    ensures ChainOk(v', s, last)
    ensures forall i | 0 <= i < |v'| && !v'[i].Jmp() :: v'[i] == v[i] && Page(v'[i].imm) != page
  {
    hide GuardTarget, Follow, Page;
    forall i | 0 <= i < |v| ensures SlotOk(v'[i], s, i, last) && (v'[i].Jmp() || (v'[i] == v[i] && Page(v'[i].imm) != page)) {
      assert SlotOk(v[i], s, i, last);
    }
  }

  /** The loop over the slots of one site does that. */
  lemma RetireKeepsChain(b: seq<u8>, base: u32, s: Site, last: Patches, page: u32)
    requires Laid(s, |b|) && ChainOk(Views(b, base, s), s, last)
    ensures var v, v' := Views(b, base, s), Views(ResetSlots(b, s, page, |s.slots|), base, s);
            && ChainOk(v', s, last)
            && forall i | 0 <= i < |v'| && !v'[i].Jmp() :: v'[i] == v[i] && Page(v'[i].imm) != page
  {
    hide ViewOf, ResetSlots, Page, GuardTarget, ResetOutcome, SlotOk;
    forall i | 0 <= i < |s.slots| {
      ResetSlotsView(b, base, s, page, |s.slots|, i);
    }
    ResetsKeepChain(Views(b, base, s), Views(ResetSlots(b, s, page, |s.slots|), base, s), s, last, page);
  }

  // ---- Whole histories ----

  /** What can happen to a site: a patch, a page retirement, or any write outside its windows. */
  datatype Event = Patch(t: u32, target: u32) | Retire(page: u32) | Elsewhere(after: seq<u8>)

  ghost predicate Untouched(b: seq<u8>, b': seq<u8>, s: Site) {
    |b'| == |b| && forall i | 0 <= i < |s.slots| :: SameSlot(b, b', s.slots[i])
  }

  /** The events lead from bytes `b`, cursor of `s` and patches `last` to those at the end. */
  ghost predicate History(b: seq<u8>, base: u32, s: Site, last: Patches, events: seq<Event>, b': seq<u8>, last': Patches)
    requires Laid(s, |b|)
    decreases |events|
  {
    if events == [] then b' == b && last' == last
    else
      match events[0]
      case Patch(t, target) =>
        && Reachable32(base, s.slots[PatchedSlot(b, base, s, t)], target)
        && History(PatchBytes(b, base, s, t, target), base, s.(cursor := CursorAfter(Views(b, base, s), s.cursor, t)),
                   last[t := target], events[1..], b', last')
      case Retire(page) => History(ResetSlots(b, s, page, |s.slots|), base, s, last, events[1..], b', last')
      case Elsewhere(after) => Untouched(b, after, s) && History(after, base, s, last, events[1..], b', last')
  }

  ghost predicate NoRetirement(events: seq<Event>) {
    forall i | 0 <= i < |events| :: !events[i].Retire?
  }

  lemma UntouchedViews(b: seq<u8>, b': seq<u8>, base: u32, s: Site)
    requires Laid(s, |b|) && Untouched(b, b', s)
    ensures |b'| == |b| && Views(b', base, s) == Views(b, base, s)
  {
    hide ViewOf, SameSlot;
    forall i | 0 <= i < |s.slots| ensures ViewOf(b', base, s.slots[i]) == ViewOf(b, base, s.slots[i]) {
      SameSlotView(b, b', base, s.slots[i]);
    }
  }

  lemma {:induction false} HistoryKeepsChain(b: seq<u8>, base: u32, s: Site, last: Patches, events: seq<Event>, b': seq<u8>, last': Patches)
    requires Laid(s, |b|) && ChainOk(Views(b, base, s), s, last) && History(b, base, s, last, events, b', last')
    ensures |b'| == |b| && ChainOk(Views(b', base, s), s, last')
    ensures LearnedPrefix(Views(b, base, s)) && NoRetirement(events) ==> LearnedPrefix(Views(b', base, s))
    decreases |events|
  {
    hide ViewOf, Follow, Chosen, CursorAfter, PatchBytes, ResetSlots, IsPatched, Untouched, SlotLaid, SlotsApart;
    var v := Views(b, base, s);
    if events != [] {
      match events[0]
      case Patch(t, target) =>
        var s' := s.(cursor := CursorAfter(v, s.cursor, t));
        var w := PatchBytesViews(b, base, s, t, target);
        PatchKeepsChain(v, s, last, t, target, w);
        if LearnedPrefix(v) { PatchKeepsPrefix(v, s, last, t, target, w); }
        SameChain(Views(PatchBytes(b, base, s, t, target), base, s), s, s', last[t := target]);
        assert Views(PatchBytes(b, base, s, t, target), base, s') == Views(PatchBytes(b, base, s, t, target), base, s);
        HistoryKeepsChain(PatchBytes(b, base, s, t, target), base, s', last[t := target], events[1..], b', last');
        assert Views(b', base, s') == Views(b', base, s);
        SameChain(Views(b', base, s), s', s, last');
      case Retire(page) =>
        RetireKeepsChain(b, base, s, last, page);
        HistoryKeepsChain(ResetSlots(b, s, page, |s.slots|), base, s, last, events[1..], b', last');
      case Elsewhere(after) =>
        UntouchedViews(b, after, base, s);
        HistoryKeepsChain(after, base, s, last, events[1..], b', last');
    }
  }

  /** The replacement cursor does not enter into what the chain does. */
  lemma SameChain(v: seq<View>, s: Site, s': Site, last: Patches)
    requires s' == s.(cursor := s'.cursor) && ChainOk(v, s, last)
    ensures ChainOk(v, s', last)
  {
    assert forall k | 0 <= k < |v| :: SlotOk(v[k], s, k, last) <==> SlotOk(v[k], s', k, last);
  }

  /** From emission through any history: a transfer reaches the guard target or its last patched address. */
  lemma TransfersNeverGoStray(b: seq<u8>, base: u32, s: Site, events: seq<Event>, b': seq<u8>, last': Patches, t: u32)
    requires FreshSite(b, base, s) && History(b, base, s, map[], events, b', last')
    ensures |b'| == |b| && var r := Walk(Views(b', base, s), s, t, 0);
            r == Missed || (t in last' && r == JumpedTo(last'[t]))
  {
    hide ViewOf, Walk, History, SlotLaid, SlotsApart;
    HistoryKeepsChain(b, base, s, map[], events, b', last');
    WalkIsSound(Views(b', base, s), s, last', t, 0);
  }

  /** As long as no page was retired, a patched target hits at once. */
  lemma UnretiredPatchHits(b: seq<u8>, base: u32, s: Site, events: seq<Event>, b': seq<u8>, last': Patches, t: u32, target: u32)
    requires FreshSite(b, base, s) && History(b, base, s, map[], events, b', last') && NoRetirement(events)
    requires |b'| == |b| && Reachable32(base, s.slots[PatchedSlot(b', base, s, t)], target)
    ensures Walk(Views(PatchBytes(b', base, s, t, target), base, s), s, t, 0) == JumpedTo(target)
  {
    hide ViewOf, Walk, History, PatchBytes, Chosen, IsPatched, SlotLaid, SlotsApart;
    HistoryKeepsChain(b, base, s, map[], events, b', last');
    var w := PatchBytesViews(b', base, s, t, target);
    PatchKeepsPrefix(Views(b', base, s), s, last', t, target, w);
    PatchThenHit(Views(b', base, s), s, last', t, target, w);
  }

  /** Patching the same target again and again. */
  function PatchTimes(b: seq<u8>, base: u32, s: Site, t: u32, target: u32, n: nat): (r: seq<u8>)
    requires Laid(s, |b|)
    ensures |r| == |b|
    decreases n
  {
    if n == 0 then b else PatchTimes(PatchBytes(b, base, s, t, target), base, s, t, target, n - 1)
  }

  /** However often a shadowed target is patched, transfers to it keep missing. */
  lemma {:induction false} ShadowedTargetNeverHits(b: seq<u8>, base: u32, s: Site, last: Patches, t: u32, target: u32, n: nat)
    requires Laid(s, |b|) && ChainOk(Views(b, base, s), s, last) && Shadowed(Views(b, base, s), t)
    requires forall k | 0 <= k < |s.slots| :: Reachable32(base, s.slots[k], target)
    ensures Walk(Views(PatchTimes(b, base, s, t, target, n), base, s), s, t, 0) == Missed
    decreases n
  {
    hide ViewOf, Walk, Chosen, IsPatched, PatchBytes, Reachable32, SlotLaid, SlotsApart;
    var v := Views(b, base, s);
    if n == 0 {
      var held := FirstHolding(v, t, 0);
      assert SlotOk(v[held], s, held, last);
      WalkHits(v, s, last, t, held, 0);
    } else {
      var w := PatchBytesViews(b, base, s, t, target);
      PatchKeepsChain(v, s, last, t, target, w);
      PatchThenHit(v, s, last, t, target, w);
      ShadowedTargetNeverHits(PatchBytes(b, base, s, t, target), base, s, last[t := target], t, target, n - 1);
    }
  }

  /** Retiring the page of an earlier slot's target shadows every later target on another page. */
  lemma RetirementShadows(b: seq<u8>, base: u32, s: Site, last: Patches, i: nat, j: nat)
    requires Laid(s, |b|) && ChainOk(Views(b, base, s), s, last) && i < j < |s.slots|
    requires var v := Views(b, base, s); !v[i].Jmp() && !v[j].Jmp() && Page(v[i].imm) != Page(v[j].imm)
    ensures var v := Views(b, base, s);
            Shadowed(Views(ResetSlots(b, s, Page(v[i].imm), |s.slots|), base, s), v[j].imm)
  {
    hide ViewOf, ResetSlots, Page, GuardTarget, Follow, SlotLaid, SlotsApart;
    var v, page := Views(b, base, s), Page(Views(b, base, s)[i].imm);
    var v' := Views(ResetSlots(b, s, page, |s.slots|), base, s);
    RetireKeepsChain(b, base, s, last, page);
    ResetSlotsView(b, base, s, page, |s.slots|, i);
    ResetSlotsView(b, base, s, page, |s.slots|, j);
    assert SlotOk(v[i], s, i, last) && SlotOk(v[j], s, j, last);
    HeldAt(v', s, last, j);
  }

  /** In a sound chain a learned slot is the first to hold its target. */
  lemma HeldAt(v: seq<View>, s: Site, last: Patches, j: nat)
    requires ChainOk(v, s, last) && j < |v| && !v[j].Jmp()
    ensures FirstHolding(v, v[j].imm, 0) == j
  {
    hide Follow, GuardTarget;
    var r := FirstHolding(v, v[j].imm, 0);
    assert SlotOk(v[j], s, j, last);
    assert r <= j && SlotOk(v[r], s, r, last);
  }

  const TWO_SLOTS := Site(37, 0, [Slot(1, 3, 7, 15), Slot(19, 21, 25, 33)], 0)

  /** The bytes of a two-slot site that has learned two targets in turn. */
  function LearnedTwo(t: u32, to: u32, u: u32, onto: u32): (b: seq<u8>)
    ensures |b| == 39 && Laid(TWO_SLOTS, 39)
  {
    assert SlotLaid(TWO_SLOTS.slots[0], 39) && SlotLaid(TWO_SLOTS.slots[1], 39) && SlotsApart(TWO_SLOTS.slots[0], TWO_SLOTS.slots[1]);
    WriteSlot(WriteSlot(seq(39, _ => 0), 0x10_0000, TWO_SLOTS, 0, t, to), 0x10_0000, TWO_SLOTS, 1, u, onto)
  }

  lemma LearnedTwoChain(t: u32, to: u32, u: u32, onto: u32)
    requires t != u
    ensures var v := Views(LearnedTwo(t, to, u, onto), 0x10_0000, TWO_SLOTS);
            && ChainOk(v, TWO_SLOTS, map[t := to, u := onto])
            && !v[0].Jmp() && v[0].imm == t && !v[1].Jmp() && v[1].imm == u
  {
    hide WriteSlot, ViewOf, Follow;
    var b0: seq<u8> := seq(39, _ => 0);
    assert SlotLaid(TWO_SLOTS.slots[0], 39) && SlotLaid(TWO_SLOTS.slots[1], 39) && SlotsApart(TWO_SLOTS.slots[0], TWO_SLOTS.slots[1]);
    var b1 := WriteSlot(b0, 0x10_0000, TWO_SLOTS, 0, t, to);
    WrittenView(b0, 0x10_0000, TWO_SLOTS, 0, t, to);
    WrittenView(b1, 0x10_0000, TWO_SLOTS, 1, u, onto);
    WriteViews(b1, 0x10_0000, TWO_SLOTS, 1, u, onto);
    var v, last := Views(LearnedTwo(t, to, u, onto), 0x10_0000, TWO_SLOTS), map[t := to, u := onto];
    assert SlotOk(v[0], TWO_SLOTS, 0, last) && SlotOk(v[1], TWO_SLOTS, 1, last);
  }

  /** A concrete site: once the page of its first target is retired, the second one misses however often it is patched again. */
  lemma OneRetirementShadows(n: nat)
    ensures var b := LearnedTwo(0x1000, 0x10_0100, 0x5000, 0x10_0200);
            && Walk(Views(b, 0x10_0000, TWO_SLOTS), TWO_SLOTS, 0x5000, 0) == JumpedTo(0x10_0200)
            && var b' := ResetSlots(b, TWO_SLOTS, 0x1000, 2);
            && Shadowed(Views(b', 0x10_0000, TWO_SLOTS), 0x5000)
            && Walk(Views(PatchTimes(b', 0x10_0000, TWO_SLOTS, 0x5000, 0x10_0200, n), 0x10_0000, TWO_SLOTS), TWO_SLOTS, 0x5000, 0) == Missed
  {
    hide LearnedTwo, ViewOf, Walk, ResetSlots, PatchTimes, Page, Shadowed, Laid;
    var b, last := LearnedTwo(0x1000, 0x10_0100, 0x5000, 0x10_0200), map[0x1000 := 0x10_0100, 0x5000 := 0x10_0200];
    LearnedTwoChain(0x1000, 0x10_0100, 0x5000, 0x10_0200);
    assert SlotOk(Views(b, 0x10_0000, TWO_SLOTS)[1], TWO_SLOTS, 1, last);
    WalkHits(Views(b, 0x10_0000, TWO_SLOTS), TWO_SLOTS, last, 0x5000, 1, 0);
    PagesDiffer();
    RetirementShadows(b, 0x10_0000, TWO_SLOTS, last, 0, 1);
    RetireKeepsChain(b, 0x10_0000, TWO_SLOTS, last, 0x1000);
    ShadowedTargetNeverHits(ResetSlots(b, TWO_SLOTS, 0x1000, 2), 0x10_0000, TWO_SLOTS, last, 0x5000, 0x10_0200, n);
  }

  lemma PagesDiffer()
    ensures Page(0x1000) == 0x1000 && Page(0x5000) == 0x5000
  {
  }
}
