/**
 The index from a gate address to the branch displacements that lead there, kept up over a growing list
 of fixups, and the rewriting of those displacements to the gate's direct target.
 */
module GateFixups {
  import opened Words

  datatype Kind = DirectCall | DirectJump | BlockFallthrough | OtherKind

  datatype Fixup = Fixup(kind: Kind, target: u32, offset: u32)

  predicate Relinks(f: Fixup, minimum: u32) {
    f.target >= minimum && (f.kind.DirectCall? || f.kind.DirectJump? || f.kind.BlockFallthrough?)
  }

  /** What a scan of all fixups collects for the target, in list order. */
  ghost function OffsetsTo(fixups: seq<Fixup>, minimum: u32, target: u32): seq<u32> {
    if fixups == [] then [] else
      var n := |fixups| - 1;
      OffsetsTo(fixups[..n], minimum, target) +
      if Relinks(fixups[n], minimum) && fixups[n].target == target then [fixups[n].offset] else []
  }

  /** The map holds for every target what the scan collects, and no empty list. */
  ghost predicate Holds(offsets: map<u32, seq<u32>>, fixups: seq<Fixup>, minimum: u32) {
    forall t: u32 :: if t in offsets then offsets[t] == OffsetsTo(fixups, minimum, t) != [] else OffsetsTo(fixups, minimum, t) == []
  }

  /** What is collected for a target from the minimum on: the offsets of its calls, jumps and fallthroughs, and no others. */
  lemma {:induction false} CollectedOffsets(fixups: seq<Fixup>, minimum: u32, target: u32, offset: u32)
    ensures offset in OffsetsTo(fixups, minimum, target) <==>
            target >= minimum &&
            exists f <- fixups :: f.target == target && f.offset == offset && !f.kind.OtherKind?
    decreases |fixups|
  {
    if fixups != [] {
      var n := |fixups| - 1;
      CollectedOffsets(fixups[..n], minimum, target, offset);
      assert forall f <- fixups :: f in fixups[..n] || f == fixups[n];
    }
  }

  class GateFixupIndex {
    var count: nat
    var minimum: u32
    var offsets: map<u32, seq<u32>>
    ghost var seen: seq<Fixup>

    constructor ()
      ensures Valid() && seen == [] && minimum == 0
    {
      count, minimum, offsets, seen := 0, 0, map[], [];
    }

    ghost predicate Valid()
      reads this
    {
      count == |seen| && Holds(offsets, seen, minimum)
    }

    /**
     Index the fixups appended since the last call. A shorter list or another bound rebuilds; a list that is as
     long as before is taken to extend the one seen.
     */
    method Ensure(fixups: seq<Fixup>, bound: u32)
      requires Valid() && (count <= |fixups| && minimum == bound ==> seen <= fixups)
      modifies this
      ensures Valid() && seen == fixups && minimum == bound
    {
      hide Holds;
      if count > |fixups| || minimum != bound {
        offsets, count, minimum, seen := map[], 0, bound, [];
        HoldsNone(bound);
      }
      var position := count;
      assert seen == fixups[..position];
      while position < |fixups|
        invariant count <= position <= |fixups| && minimum == bound
        invariant Holds(offsets, fixups[..position], bound)
      {
        var f := fixups[position];
        HoldsMore(offsets, fixups[..position], bound, f);
        assert fixups[..position + 1] == fixups[..position] + [f];
        if Relinks(f, bound) {
          offsets := offsets[f.target := (if f.target in offsets then offsets[f.target] else []) + [f.offset]];
        }
        position := position + 1;
      }
      assert fixups[..position] == fixups;
      count, seen := |fixups|, fixups;
    }

    method Find(target: u32) returns (r: Option<seq<u32>>)
      requires Valid()
      ensures r == if OffsetsTo(seen, minimum, target) == [] then None else Some(OffsetsTo(seen, minimum, target))
    {
      r := if target in offsets then Some(offsets[target]) else None;
    }
  }

  lemma HoldsNone(minimum: u32)
    ensures Holds(map[], [], minimum)
  {
  }

  /** One more fixup goes to the end of its target's list. */
  lemma HoldsMore(offsets: map<u32, seq<u32>>, fixups: seq<Fixup>, minimum: u32, f: Fixup)
    requires Holds(offsets, fixups, minimum)
    ensures Holds(if Relinks(f, minimum) then offsets[f.target := (if f.target in offsets then offsets[f.target] else []) + [f.offset]] else offsets,
                  fixups + [f], minimum)
  {
    var more := fixups + [f];
    assert more[..|fixups|] == fixups && more[|fixups|] == f;
    forall t: u32
      ensures OffsetsTo(more, minimum, t) == OffsetsTo(fixups, minimum, t) + if Relinks(f, minimum) && f.target == t then [f.offset] else []
    {
    }
  }

  // ---- Rewriting the displacements ----

  datatype Write = Write(offset: u32, displacement: u32)

  /** The slot runs with a 32-bit instruction pointer, or its target is within 2 GiB. */
  predicate InReach(base: u32, offset: u32, target: u32, wraps: bool) {
    wraps || -0x8000_0000 <= target - (base + offset + 4) <= 0x7FFF_FFFF
  }

  function Needed(base: u32, offset: u32, target: u32): u32 {
    Wrap(target - (base + offset + 4))
  }

  /** In reach without wrapping means that the displacement, read as a signed number, is the distance to the target itself. */
  lemma InReachIsExact(base: u32, offset: u32, target: u32)
    ensures InReach(base, offset, target, false) <==> base + offset + 4 + Signed32(Needed(base, offset, target)) == target
  {
  }

  /** The slots in reach that do not hold their displacement yet, in list order. */
  function Collected(b: seq<u8>, base: u32, offsets: seq<u32>, target: u32, wraps: bool): (r: seq<Write>)
    requires forall o <- offsets :: o + 4 <= |b|
    ensures forall w <- r :: w.offset in offsets && w.displacement == Needed(base, w.offset, target)
    ensures forall o <- offsets :: InReach(base, o, target, wraps) && Word32(b, o) != Needed(base, o, target) ==>
                                     Write(o, Needed(base, o, target)) in r
  {
    if offsets == [] then [] else
      var n := |offsets| - 1;
      assert offsets[n] in offsets && forall o <- offsets[..n] :: o in offsets;
      assert forall o <- offsets :: o in offsets[..n] || o == offsets[n];
      Collected(b, base, offsets[..n], target, wraps) +
      if InReach(base, offsets[n], target, wraps) && Word32(b, offsets[n]) != Needed(base, offsets[n], target)
      then [Write(offsets[n], Needed(base, offsets[n], target))] else []
  }

  lemma NoneCollected(b: seq<u8>, base: u32, target: u32, wraps: bool)
    ensures Collected(b, base, [], target, wraps) == []
  {
  }

  lemma CollectedMore(b: seq<u8>, base: u32, offsets: seq<u32>, offset: u32, target: u32, wraps: bool)
    requires (forall o <- offsets :: o + 4 <= |b|) && offset + 4 <= |b|
    ensures forall o <- offsets + [offset] :: o + 4 <= |b|
    ensures Collected(b, base, offsets + [offset], target, wraps) ==
            Collected(b, base, offsets, target, wraps) +
            if InReach(base, offset, target, wraps) && Word32(b, offset) != Needed(base, offset, target)
            then [Write(offset, Needed(base, offset, target))] else []
  {
    hide Word32, Wrap;
    assert (offsets + [offset])[..|offsets|] == offsets;
  }

  method CollectWrites(b: seq<u8>, base: u32, offsets: seq<u32>, target: u32, wraps: bool) returns (writes: seq<Write>)
    requires forall o <- offsets :: o + 4 <= |b|
    ensures writes == Collected(b, base, offsets, target, wraps)
  {
    hide Word32, Wrap, Collected;
    writes := [];
    NoneCollected(b, base, target, wraps);
    var k := 0;
    while k < |offsets|
      invariant 0 <= k <= |offsets| && (forall o <- offsets[..k] :: o in offsets)
      invariant writes == Collected(b, base, offsets[..k], target, wraps)
    {
      var offset := offsets[k];
      assert offset in offsets && offsets[..k + 1] == offsets[..k] + [offset];
      CollectedMore(b, base, offsets[..k], offset, target, wraps);
      var relative: int := target - (base + offset + 4);
      if wraps || -0x8000_0000 <= relative <= 0x7FFF_FFFF {
        var displacement := Wrap(relative);
        if Word32(b, offset) != displacement {
          writes := writes + [Write(offset, displacement)];
        }
      }
      k := k + 1;
    }
    assert offsets[..k] == offsets;
  }

  function Written(b: seq<u8>, writes: seq<Write>): (r: seq<u8>)
    requires forall w <- writes :: w.offset + 4 <= |b|
    ensures |r| == |b|
  {
    if writes == [] then b else
      var n := |writes| - 1;
      assert writes[n] in writes && forall w <- writes[..n] :: w in writes;
      Put(Written(b, writes[..n]), writes[n].offset, Bytes32(writes[n].displacement))
  }

  /** Slots overlap only when they are the same slot. */
  ghost predicate SlotsApart(offsets: seq<u32>) {
    forall o <- offsets, p <- offsets :: o == p || Apart(o, 4, p, 4)
  }

  lemma WordWritten(b: seq<u8>, at: nat, v: u32)
    requires at + 4 <= |b| && b[at..at + 4] == Bytes32(v)
    ensures Word32(b, at) == v
  {
    var w := b[at..at + 4];
    assert w[0] == b[at] && w[1] == b[at + 1] && w[2] == b[at + 2] && w[3] == b[at + 3];
    assert Word32(w, 0) == v;
  }

  lemma SameWord(b: seq<u8>, b': seq<u8>, at: nat)
    requires at + 4 <= |b| == |b'| && b[at..at + 4] == b'[at..at + 4]
    ensures Word32(b, at) == Word32(b', at)
  {
    var w, w' := b[at..at + 4], b'[at..at + 4];
    assert w[0] == b[at] && w[1] == b[at + 1] && w[2] == b[at + 2] && w[3] == b[at + 3];
    assert w'[0] == b'[at] && w'[1] == b'[at + 1] && w'[2] == b'[at + 2] && w'[3] == b'[at + 3];
  }

  /** A slot holds its displacement if it was written, and what it held before if not. */
  lemma {:induction false} SlotAfter(b: seq<u8>, base: u32, offsets: seq<u32>, target: u32, writes: seq<Write>, o: u32)
    requires o in offsets && o + 4 <= |b| && SlotsApart(offsets)
    requires forall w <- writes :: w.offset in offsets && w.offset + 4 <= |b| && w.displacement == Needed(base, w.offset, target)
    ensures Word32(Written(b, writes), o) ==
            if exists w <- writes :: w.offset == o then Needed(base, o, target) else Word32(b, o)
    decreases |writes|
  {
    hide Put, Bytes32, Word32, Needed;
    if writes != [] {
      var n := |writes| - 1;
      assert writes[n] in writes && forall w <- writes[..n] :: w in writes;
      assert forall w <- writes :: w in writes[..n] || w == writes[n];
      SlotAfter(b, base, offsets, target, writes[..n], o);
      var before, w := Written(b, writes[..n]), writes[n];
      if w.offset == o {
        PutReads(before, w.offset, Bytes32(w.displacement));
        WordWritten(Written(b, writes), o, w.displacement);
      } else {
        PutKeeps(before, w.offset, Bytes32(w.displacement), o, 4);
        SameWord(before, Written(b, writes), o);
      }
    }
  }

  /** After the writes every listed slot in reach branches to the target; without wrapping, even as plain numbers. */
  lemma EverySlotReachesTheGate(b: seq<u8>, base: u32, offsets: seq<u32>, target: u32, wraps: bool, o: u32)
    requires (forall p <- offsets :: p + 4 <= |b|) && SlotsApart(offsets) && o in offsets && InReach(base, o, target, wraps)
    ensures forall w <- Collected(b, base, offsets, target, wraps) :: w.offset + 4 <= |b|
    ensures var b' := Written(b, Collected(b, base, offsets, target, wraps));
            && Land(base + o + 4, Word32(b', o)) == target
            && (!wraps ==> base + o + 4 + Signed32(Word32(b', o)) == target)
  {
    hide Collected, Written, Word32;
    SlotAfter(b, base, offsets, target, Collected(b, base, offsets, target, wraps), o);
    LandsOn(base + o + 4, target);
  }

  /** A slot out of reach keeps what it held. */
  lemma OutOfReachIsKept(b: seq<u8>, base: u32, offsets: seq<u32>, target: u32, o: u32)
    requires (forall p <- offsets :: p + 4 <= |b|) && SlotsApart(offsets) && o in offsets
    requires base + o + 4 + Signed32(Needed(base, o, target)) != target
    ensures forall w <- Collected(b, base, offsets, target, false) :: w.offset + 4 <= |b|
    ensures Word32(Written(b, Collected(b, base, offsets, target, false)), o) == Word32(b, o)
  {
    hide Collected, Written, Word32, Needed, InReach;
    InReachIsExact(base, o, target);
    OnlyReached(b, base, offsets, target);
    SlotAfter(b, base, offsets, target, Collected(b, base, offsets, target, false), o);
  }

  lemma {:induction false} OnlyReached(b: seq<u8>, base: u32, offsets: seq<u32>, target: u32)
    requires forall p <- offsets :: p + 4 <= |b|
    ensures forall w <- Collected(b, base, offsets, target, false) :: InReach(base, w.offset, target, false)
    decreases |offsets|
  {
    hide InReach, Needed, Word32;
    if offsets != [] {
      var prefix := offsets[..|offsets| - 1];
      forall p | p in prefix ensures p + 4 <= |b| { assert p in offsets; }
      OnlyReached(b, base, prefix, target);
    }
  }
}
