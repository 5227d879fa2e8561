/**
 Straight-line native spans and the negative cache in front of their scan: rejected entries are
 remembered with the instruction bytes that made the scan fail.
 */
module LinearSpans {
  import opened Words
  import opened VerifiedRegions

  const MIN_COUNT: nat := 2
  const MAX_COUNT: nat := 64
  const SNAPSHOT_CAPACITY: nat := 30
  const MAX_CACHE_ENTRIES: nat := 65536

  type Memory = u32 -> u8

  datatype Decoded = Invalid | Decoded(length: nat, sensitive: bool, writesMemory: bool, transfersControl: bool)

  type Decoder = seq<u8> -> Decoded

  /** Decoding looks at no byte behind the instruction it finds, which has at most fifteen. */
  ghost predicate Local(d: Decoder) {
    forall b: seq<u8>, c: seq<u8> | |b| == |c| == MAX_INSTRUCTION_LENGTH && d(b).Decoded? ::
      && d(b).length <= MAX_INSTRUCTION_LENGTH
      && (b[..d(b).length] == c[..d(b).length] ==> d(c) == d(b))
  }

  function Bytes(mem: Memory, a: u32, n: nat): (r: seq<u8>)
    ensures |r| == n
  {
    seq<u8>(n, k requires 0 <= k < n => mem(Wrap(a + k)))
  }

  function DecodeAt(mem: Memory, d: Decoder, a: u32): Decoded {
    d(Bytes(mem, a, MAX_INSTRUCTION_LENGTH))
  }

  predicate Ordinary(i: Decoded) {
    i.Decoded? && i.length > 0 && !i.sensitive && !i.writesMemory && !i.transfersControl
  }

  /** Where the span ends, after how many instructions, and how many bytes prove a rejection (0: none do). */
  datatype Span = Span(boundary: u32, count: nat, rejection: nat, sensitive: bool, writesMemory: bool)

  const NO_SPAN := Span(0, 0, 0, false, false)

  /** The span whose boundary instruction `i` is at `address`, after `count` ordinary ones. */
  function SpanTo(entry: u32, address: u32, count: nat, i: Decoded): Span
    requires i.Decoded?
  {
    var n := Wrap(address - entry + i.length);
    Span(address, count, if count < MIN_COUNT && n <= SNAPSHOT_CAPACITY then n else 0, i.sensitive, i.writesMemory)
  }

  /** The scan from an instruction, `count` ordinary ones having been passed. */
  function ScanFrom(mem: Memory, d: Decoder, arena: Arena, entry: u32, address: u32, count: nat): (bool, Span)
    decreases MAX_COUNT - count
  {
    if count >= MAX_COUNT || !Inside(arena, address, MAX_INSTRUCTION_LENGTH) then (false, NO_SPAN)
    else
      var i := DecodeAt(mem, d, address);
      if i.Invalid? || i.length == 0 then (false, NO_SPAN)
      else if !Ordinary(i) then (count >= MIN_COUNT, SpanTo(entry, address, count, i))
      else ScanFrom(mem, d, arena, entry, Wrap(address + i.length), count + 1)
  }

  function ScanResult(mem: Memory, d: Decoder, arena: Arena, entry: u32): (bool, Span) {
    if !Inside(arena, entry, 1) then (false, NO_SPAN) else ScanFrom(mem, d, arena, entry, entry, 0)
  }

  method Scan(mem: Memory, d: Decoder, arena: Arena, entry: u32) returns (ok: bool, span: Span)
    ensures (ok, span) == ScanResult(mem, d, arena, entry)
  {
    hide Inside, DecodeAt, SpanTo, Wrap;
    ok, span := false, NO_SPAN;
    if !Inside(arena, entry, 1) { return; }
    var address: u32 := entry;
    var count := 0;
    while count < MAX_COUNT
      invariant 0 <= count <= MAX_COUNT && ok == false && span == NO_SPAN
      invariant ScanFrom(mem, d, arena, entry, address, count) == ScanFrom(mem, d, arena, entry, entry, 0)
    {
      if !Inside(arena, address, MAX_INSTRUCTION_LENGTH) { return; }
      var i := DecodeAt(mem, d, address);
      if i.Invalid? || i.length == 0 { return; }
      if i.sensitive || i.writesMemory || i.transfersControl {
        return count >= MIN_COUNT, SpanTo(entry, address, count, i);
      }
      address := Wrap(address + i.length);
      count := count + 1;
    }
  }

  // ---- What an accepted span is ----

  /** `count` instructions in a row from `a` are ordinary and lead to `boundary`. */
  ghost predicate OrdinaryRun(mem: Memory, d: Decoder, arena: Arena, a: u32, count: nat, boundary: u32)
    decreases count
  {
    if count == 0 then a == boundary else
      var i := DecodeAt(mem, d, a);
      && Inside(arena, a, MAX_INSTRUCTION_LENGTH) && Ordinary(i)
      && OrdinaryRun(mem, d, arena, Wrap(a + i.length), count - 1, boundary)
  }

  lemma {:induction false} ScanIsOrdinary(mem: Memory, d: Decoder, arena: Arena, entry: u32, address: u32, count: nat)
    requires ScanFrom(mem, d, arena, entry, address, count).0
    ensures var span := ScanFrom(mem, d, arena, entry, address, count).1;
            && count <= span.count < MAX_COUNT && span.count >= MIN_COUNT
            && OrdinaryRun(mem, d, arena, address, span.count - count, span.boundary)
            && Inside(arena, span.boundary, MAX_INSTRUCTION_LENGTH)
            && var i := DecodeAt(mem, d, span.boundary);
            i.Decoded? && i.length != 0 && !Ordinary(i)
    decreases MAX_COUNT - count
  {
    hide Inside, DecodeAt, SpanTo;
    SpanToIs(entry, address, count, DecodeAt(mem, d, address));
    var i := DecodeAt(mem, d, address);
    if Ordinary(i) { ScanIsOrdinary(mem, d, arena, entry, Wrap(address + i.length), count + 1); }
  }

  lemma SpanToIs(entry: u32, address: u32, count: nat, i: Decoded)
    ensures i.Decoded? ==> SpanTo(entry, address, count, i).boundary == address && SpanTo(entry, address, count, i).count == count
  {
  }

  /** A decoded instruction that is not ordinary: it is sensitive, writes memory or transfers control. */
  ghost predicate EndsSpan(mem: Memory, d: Decoder, arena: Arena, boundary: u32) {
    var i := DecodeAt(mem, d, boundary);
    Inside(arena, boundary, 15) && i.Decoded? && i.length != 0 && (i.sensitive || i.writesMemory || i.transfersControl)
  }

  /** A scan through ordinary instructions ends at the first other one, unless the limit comes first. */
  lemma {:induction false} OrdinaryIsScanned(mem: Memory, d: Decoder, arena: Arena, entry: u32, address: u32, count: nat, n: nat,
                                             boundary: u32)
    requires OrdinaryRun(mem, d, arena, address, n, boundary) && EndsSpan(mem, d, arena, boundary) && count + n < 64
    ensures ScanFrom(mem, d, arena, entry, address, count) ==
            (count + n >= 2, SpanTo(entry, boundary, count + n, DecodeAt(mem, d, boundary)))
    decreases n
  {
    hide Inside, DecodeAt, SpanTo;
    if n > 0 {
      OrdinaryIsScanned(mem, d, arena, entry, Wrap(address + DecodeAt(mem, d, address).length), count + 1, n - 1, boundary);
    }
  }

  /** A span is accepted exactly when two to sixty-three ordinary instructions lead to its boundary. */
  lemma AcceptedExactly(mem: Memory, d: Decoder, arena: Arena, entry: u32, count: nat, boundary: u32)
    ensures (var (ok, span) := ScanResult(mem, d, arena, entry); ok && span.count == count && span.boundary == boundary) <==>
            && 2 <= count <= 63 && Inside(arena, entry, 1)
            && OrdinaryRun(mem, d, arena, entry, count, boundary) && EndsSpan(mem, d, arena, boundary)
  {
    hide ScanFrom, OrdinaryRun, Inside, DecodeAt;
    if ScanResult(mem, d, arena, entry).0 { ScanIsOrdinary(mem, d, arena, entry, entry, 0); }
    if count <= 63 && OrdinaryRun(mem, d, arena, entry, count, boundary) && EndsSpan(mem, d, arena, boundary) {
      OrdinaryIsScanned(mem, d, arena, entry, entry, 0, count, boundary);
    }
  }

  lemma OneBefore(mem: Memory, d: Decoder, arena: Arena, entry: u32, count: nat, boundary: u32)
    requires Local(d) && count <= 1 && OrdinaryRun(mem, d, arena, entry, count, boundary) && EndsSpan(mem, d, arena, boundary)
    ensures entry <= boundary <= entry + 15 && DecodeAt(mem, d, boundary).length <= 15
  {
    hide Inside, Wrap;
    SelfAgree(mem, boundary, boundary + DecodeAt(mem, d, boundary).length);
    SameInstruction(mem, mem, d, arena, boundary);
    if count == 1 {
      InsideMeans(arena, entry, MAX_INSTRUCTION_LENGTH);
      SelfAgree(mem, entry, entry + DecodeAt(mem, d, entry).length);
      SameInstruction(mem, mem, d, arena, entry);
      assert OrdinaryRun(mem, d, arena, Wrap(entry + DecodeAt(mem, d, entry).length), 0, boundary);
    }
  }

  /** A boundary behind no or one instruction is rejected by the bytes up to its end, never more than fit the snapshot. */
  lemma EarlyBoundaryIsRemembered(mem: Memory, d: Decoder, arena: Arena, entry: u32, count: nat, boundary: u32)
    requires Local(d) && count <= 1 && Inside(arena, entry, 1)
    requires OrdinaryRun(mem, d, arena, entry, count, boundary) && EndsSpan(mem, d, arena, boundary)
    ensures !ScanResult(mem, d, arena, entry).0
    ensures ScanResult(mem, d, arena, entry).1.rejection == boundary + DecodeAt(mem, d, boundary).length - entry <= 30
  {
    hide ScanFrom, OrdinaryRun, Inside, DecodeAt;
    OneBefore(mem, d, arena, entry, count, boundary);
    OrdinaryIsScanned(mem, d, arena, entry, entry, 0, count, boundary);
  }

  // ---- What a rejection depends on ----

  ghost predicate Agree(mem: Memory, mem': Memory, a: int, end: int) {
    forall x: u32 | a <= x < end :: mem'(x) == mem(x)
  }

  /** Equal bytes under an instruction decode to the same instruction. */
  lemma SameInstruction(mem: Memory, mem': Memory, d: Decoder, arena: Arena, a: u32)
    requires Local(d) && Inside(arena, a, MAX_INSTRUCTION_LENGTH) && DecodeAt(mem, d, a).Decoded?
    requires Agree(mem, mem', a, a + DecodeAt(mem, d, a).length)
    ensures DecodeAt(mem, d, a).length <= MAX_INSTRUCTION_LENGTH && DecodeAt(mem', d, a) == DecodeAt(mem, d, a)
  {
    hide Inside, Wrap;
    InsideMeans(arena, a, MAX_INSTRUCTION_LENGTH);
    var b, c := Bytes(mem, a, MAX_INSTRUCTION_LENGTH), Bytes(mem', a, MAX_INSTRUCTION_LENGTH);
    var n := d(b).length;
    assert |b| == |c| == MAX_INSTRUCTION_LENGTH && d(b).Decoded?;
    assert n <= MAX_INSTRUCTION_LENGTH;
    forall k | 0 <= k < n ensures b[k] == c[k] {
      assert Wrap(a + k) == a + k;
    }
    assert b[..n] == c[..n];
  }

  lemma SpanToRejects(entry: u32, address: u32, count: nat, i: Decoded)
    requires i.Decoded? && entry <= address && address + i.length < WORD && SpanTo(entry, address, count, i).rejection > 0
    ensures entry + SpanTo(entry, address, count, i).rejection == address + i.length
    ensures count < MIN_COUNT && SpanTo(entry, address, count, i).rejection <= SNAPSHOT_CAPACITY
  {
  }

  lemma AgreeOnLess(mem: Memory, mem': Memory, a: int, end: int, b: int, end': int)
    requires Agree(mem, mem', a, end) && a <= b && end' <= end
    ensures Agree(mem, mem', b, end')
  {
  }

  /** A scan that ended at a boundary behind `n` bytes ends there for every memory with those bytes. */
  lemma {:induction false} SameScan(mem: Memory, mem': Memory, d: Decoder, arena: Arena, entry: u32, address: u32, count: nat)
    requires Local(d) && entry <= address && ScanFrom(mem, d, arena, entry, address, count).1.rejection > 0
    requires Agree(mem, mem', address, entry + ScanFrom(mem, d, arena, entry, address, count).1.rejection)
    ensures address < entry + ScanFrom(mem, d, arena, entry, address, count).1.rejection
    ensures ScanFrom(mem, d, arena, entry, address, count).1.rejection <= SNAPSHOT_CAPACITY
    ensures ScanFrom(mem', d, arena, entry, address, count) == ScanFrom(mem, d, arena, entry, address, count)
    decreases MAX_COUNT - count
  {
    hide DecodeAt, Inside, SpanTo, Agree, Local;
    var i := DecodeAt(mem, d, address);
    InsideMeans(arena, address, MAX_INSTRUCTION_LENGTH);
    SelfAgree(mem, address, address + i.length);
    SameInstruction(mem, mem, d, arena, address);
    var end := entry + ScanFrom(mem, d, arena, entry, address, count).1.rejection;
    if Ordinary(i) {
      var next := Wrap(address + i.length);
      AgreeOnLess(mem, mem', address, end, next, end);
      SameScan(mem, mem', d, arena, entry, next, count + 1);
    } else {
      SpanToRejects(entry, address, count, i);
    }
    AgreeOnLess(mem, mem', address, end, address, address + i.length);
    SameInstruction(mem, mem', d, arena, address);
  }

  lemma SelfAgree(mem: Memory, a: int, end: int)
    ensures Agree(mem, mem, a, end)
  {
  }

  /** The remembered bytes are enough to reject the entry again, whatever else changes. */
  lemma RejectionIsStable(mem: Memory, mem': Memory, d: Decoder, arena: Arena, entry: u32)
    requires Local(d) && ScanResult(mem, d, arena, entry).1.rejection > 0 && !ScanResult(mem, d, arena, entry).0
    requires var n := ScanResult(mem, d, arena, entry).1.rejection; Bytes(mem', entry, n) == Bytes(mem, entry, n)
    ensures !ScanResult(mem', d, arena, entry).0
    ensures ScanResult(mem, d, arena, entry).1.rejection <= SNAPSHOT_CAPACITY
  {
    hide ScanFrom, Local, Inside;
    var n := ScanResult(mem, d, arena, entry).1.rejection;
    assert Agree(mem, mem', entry, entry + n) by {
      forall x: u32 | entry <= x < entry + n ensures mem'(x) == mem(x) {
        var k: nat := x - entry;
        assert Wrap(entry + k) == x;
        assert Bytes(mem', entry, n)[k] == mem'(x) && Bytes(mem, entry, n)[k] == mem(x);
      }
    }
    SameScan(mem, mem', d, arena, entry, entry, 0);
  }

  // ---- The negative cache ----

  /** Every remembered entry is rejected by a scan of any memory that still holds its bytes. */
  ghost predicate CacheOk(rejects: map<u32, seq<u8>>, d: Decoder, arena: Arena) {
    && |rejects| <= MAX_CACHE_ENTRIES
    && forall e <- rejects :: RejectedWith(d, arena, e, rejects[e])
  }

  ghost predicate RejectedWith(d: Decoder, arena: Arena, entry: u32, bytes: seq<u8>) {
    forall mem: Memory :: Bytes(mem, entry, |bytes|) == bytes ==> !ScanResult(mem, d, arena, entry).0
  }

  lemma SnapshotRejects(mem: Memory, d: Decoder, arena: Arena, entry: u32)
    requires Local(d) && ScanResult(mem, d, arena, entry).1.rejection > 0 && !ScanResult(mem, d, arena, entry).0
    ensures RejectedWith(d, arena, entry, Bytes(mem, entry, ScanResult(mem, d, arena, entry).1.rejection))
  {
    hide ScanResult, Local;
    var n := ScanResult(mem, d, arena, entry).1.rejection;
    forall mem': Memory | Bytes(mem', entry, n) == Bytes(mem, entry, n) ensures !ScanResult(mem', d, arena, entry).0 {
      RejectionIsStable(mem, mem', d, arena, entry);
    }
  }

  /** The registers a span borrows: one breakpoint slot, the status and control words, and the flags. */
  class Registers {
    var eip: u32
    var dr0: u32
    var dr6: u32
    var dr7: bv32
    var flags: bv32

    constructor (eip: u32, dr0: u32, dr6: u32, dr7: bv32, flags: bv32)
      ensures this.eip == eip && this.dr0 == dr0 && this.dr6 == dr6 && this.dr7 == dr7 && this.flags == flags
    {
      this.eip, this.dr0, this.dr6, this.dr7, this.flags := eip, dr0, dr6, dr7, flags;
    }
  }

  const TRAP_FLAG: bv32 := 0x100
  const SLOT_ZERO: bv32 := 0x000F_0003

  /** Slot zero is enabled and breaks on execution of one byte; no other bit changes. */
  function BreakpointOn(dr7: bv32): (r: bv32)
    ensures r & 0x0000_0003 == 1 && r & 0x000F_0000 == 0
    ensures r & 0xFFF0_FFFC == dr7 & 0xFFF0_FFFC
  {
    (dr7 & !SLOT_ZERO) | 1
  }

  function Trapped(flags: bv32): (r: bv32)
    ensures r & 0x100 == 0x100 && r & 0xFFFF_FEFF == flags & 0xFFFF_FEFF
  {
    flags | TRAP_FLAG
  }

  function Untrapped(flags: bv32): (r: bv32)
    ensures r & 0x100 == 0 && r & 0xFFFF_FEFF == flags & 0xFFFF_FEFF
  {
    flags & !TRAP_FLAG
  }

  class NativeFastPath {
    var active: bool
    var spanActive: bool
    var rejects: map<u32, seq<u8>>
    var boundary: u32
    var count: nat
    var savedDr0: u32
    var savedDr6: u32
    var savedDr7: bv32

    constructor ()
      ensures !active && !spanActive && rejects == map[]
    {
      active, spanActive, rejects, boundary, count, savedDr0, savedDr6, savedDr7 := false, false, map[], 0, 0, 0, 0, 0;
    }

    /** A hit means the bytes are still there; a stale snapshot is forgotten. */
    method Lookup(entry: u32, mem: Memory) returns (hit: bool)
      modifies `rejects
      ensures hit <==> entry in old(rejects) && 0 < |old(rejects)[entry]| <= SNAPSHOT_CAPACITY &&
                       Bytes(mem, entry, |old(rejects)[entry]|) == old(rejects)[entry]
      ensures rejects == if entry in old(rejects) && !hit then old(rejects) - {entry} else old(rejects)
    {
      if entry !in rejects { return false; }
      var bytes := rejects[entry];
      if |bytes| == 0 || |bytes| > SNAPSHOT_CAPACITY || Bytes(mem, entry, |bytes|) != bytes {
        rejects := rejects - {entry};
        return false;
      }
      hit := true;
    }

    method Store(entry: u32, span: Span, mem: Memory)
      modifies `rejects
      ensures rejects == if 0 < span.rejection <= SNAPSHOT_CAPACITY && (entry in old(rejects) || |old(rejects)| < MAX_CACHE_ENTRIES)
                         then old(rejects)[entry := Bytes(mem, entry, span.rejection)] else old(rejects)
    {
      if span.rejection == 0 || span.rejection > SNAPSHOT_CAPACITY { return; }
      if entry !in rejects && |rejects| >= MAX_CACHE_ENTRIES { return; }
      rejects := rejects[entry := Bytes(mem, entry, span.rejection)];
    }

    /**
     Enter a span at the current instruction. Whatever the negative cache has gone through, the outcome is that of
     a scan of the bytes that are there now.
     */
    method TryEnter(regs: Registers, mem: Memory, d: Decoder, arena: Arena, cacheEnabled: bool) returns (entered: bool)
      requires Local(d) && CacheOk(rejects, d, arena)
      modifies this, regs
      ensures CacheOk(rejects, d, arena)
      ensures entered <==> !old(active) && !old(spanActive) && ScanResult(mem, d, arena, old(regs.eip)).0
      ensures regs.eip == old(regs.eip) && active == old(active)
      ensures if entered then
                && spanActive && boundary == ScanResult(mem, d, arena, regs.eip).1.boundary == regs.dr0
                && count == ScanResult(mem, d, arena, regs.eip).1.count
                && savedDr0 == old(regs.dr0) && savedDr6 == old(regs.dr6) && savedDr7 == old(regs.dr7)
                && regs.dr6 == 0 && regs.dr7 == BreakpointOn(old(regs.dr7)) && regs.flags == Untrapped(old(regs.flags))
              else
                && spanActive == old(spanActive) && regs.dr0 == old(regs.dr0) && regs.dr6 == old(regs.dr6)
                && regs.dr7 == old(regs.dr7) && regs.flags == old(regs.flags)
    {
      hide ScanResult, CacheOk, BreakpointOn, Untrapped, Local;
      if active || spanActive { return false; }
      var ok, span := Consult(regs.eip, mem, d, arena, cacheEnabled);
      if !ok { return false; }
      Arm(regs, span);
      entered := true;
    }

    /** The cached or scanned verdict on the entry; a scan that rejects is remembered. */
    method Consult(entry: u32, mem: Memory, d: Decoder, arena: Arena, cacheEnabled: bool) returns (ok: bool, span: Span)
      requires Local(d) && CacheOk(rejects, d, arena)
      modifies `rejects
      ensures CacheOk(rejects, d, arena)
      ensures ok == ScanResult(mem, d, arena, entry).0 && (ok ==> span == ScanResult(mem, d, arena, entry).1)
    {
      hide ScanResult, Local, RejectedWith;
      span := NO_SPAN;
      if cacheEnabled {
        var hit := Lookup(entry, mem);
        if hit {
          HitMeansRejected(old(rejects), d, arena, entry, mem);
          return false, span;
        }
      }
      ok, span := Scan(mem, d, arena, entry);
      if !ok && cacheEnabled {
        if span.rejection > 0 { SnapshotRejects(mem, d, arena, entry); }
        Store(entry, span, mem);
      }
    }

    /** Put a breakpoint on the boundary in slot zero and let the guest run. */
    method Arm(regs: Registers, span: Span)
      modifies `boundary, `count, `savedDr0, `savedDr6, `savedDr7, `spanActive, regs`dr0, regs`dr6, regs`dr7, regs`flags
      ensures spanActive && boundary == regs.dr0 == span.boundary && count == span.count
      ensures savedDr0 == old(regs.dr0) && savedDr6 == old(regs.dr6) && savedDr7 == old(regs.dr7)
      ensures regs.dr6 == 0 && regs.dr7 == BreakpointOn(old(regs.dr7)) && regs.flags == Untrapped(old(regs.flags))
    {
      boundary, count := span.boundary, span.count;
      savedDr0, savedDr6, savedDr7 := regs.dr0, regs.dr6, regs.dr7;
      regs.dr0 := span.boundary;
      regs.dr6 := 0;
      regs.dr7 := BreakpointOn(regs.dr7);
      regs.flags := Untrapped(regs.flags);
      spanActive := true;
    }

    /** Leave the span: the borrowed registers are as they were on entry, and single-stepping is on again. */
    method Leave(regs: Registers)
      modifies `spanActive, regs`dr0, regs`dr6, regs`dr7, regs`flags
      ensures !spanActive
      ensures if old(spanActive) then
                regs.dr0 == savedDr0 && regs.dr6 == savedDr6 && regs.dr7 == savedDr7 && regs.flags == Trapped(old(regs.flags))
              else
                regs.dr0 == old(regs.dr0) && regs.dr6 == old(regs.dr6) && regs.dr7 == old(regs.dr7) && regs.flags == old(regs.flags)
    {
      if !spanActive { return; }
      regs.dr0 := savedDr0;
      regs.dr6 := savedDr6;
      regs.dr7 := savedDr7;
      regs.flags := Trapped(regs.flags);
      spanActive := false;
    }

    /**
     A span from entry until an exception ends it, with whatever the processor made of its registers in between: the
     debug registers are those from before the entry. Without an entry nothing happens.
     */
    method RunSpan(regs: Registers, mem: Memory, d: Decoder, arena: Arena, cacheEnabled: bool,
                   eip: u32, dr0: u32, dr6: u32, dr7: bv32, flags: bv32) returns (entered: bool)
      requires Local(d) && CacheOk(rejects, d, arena)
      modifies this, regs
      ensures CacheOk(rejects, d, arena) && spanActive == old(spanActive)
      ensures entered <==> !old(active) && !old(spanActive) && ScanResult(mem, d, arena, old(regs.eip)).0
      ensures regs.dr0 == old(regs.dr0) && regs.dr6 == old(regs.dr6) && regs.dr7 == old(regs.dr7)
      ensures regs.eip == if entered then eip else old(regs.eip)
      ensures regs.flags == if entered then Trapped(flags) else old(regs.flags)
    {
      hide ScanResult, CacheOk, Local, BreakpointOn, Trapped, Untrapped;
      entered := TryEnter(regs, mem, d, arena, cacheEnabled);
      if entered {
        regs.eip, regs.dr0, regs.dr6, regs.dr7, regs.flags := eip, dr0, dr6, dr7, flags;
        Leave(regs);
      }
    }
  }

  /** A cache hit is a rejection by the current bytes. */
  lemma HitMeansRejected(rejects: map<u32, seq<u8>>, d: Decoder, arena: Arena, entry: u32, mem: Memory)
    requires CacheOk(rejects, d, arena) && entry in rejects && Bytes(mem, entry, |rejects[entry]|) == rejects[entry]
    ensures !ScanResult(mem, d, arena, entry).0
  {
    hide ScanResult;
    assert RejectedWith(d, arena, entry, rejects[entry]);
  }
}
