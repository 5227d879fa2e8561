/**
 Verification of a native region: a recursive worklist analysis with a shared verdict cache. What it
 accepts never leaves its runtime range, never reaches a sensitive instruction, and never recurses.
 */
module VerifiedRegions {
  import opened Words

  const MAX_DEPTH: nat := 16
  const MAX_INSTRUCTIONS: nat := 16384
  const MAX_INSTRUCTION_LENGTH: nat := 15

  /** A transfer has no target when it is far, indirect, or outside 32 bits. */
  datatype Kind = Plain | Return | Call(target: Option<u32>) | Conditional(target: Option<u32>) | Unconditional(target: Option<u32>)

  datatype Instruction = Undecodable | Instruction(length: nat, sensitive: bool, kind: Kind)

  /** What the decoder finds at each address of code that does not change. */
  type Code = u32 -> Instruction

  datatype Arena = Arena(base: u32, size: u32)

  /** The range check as the 32-bit arithmetic makes it. */
  predicate Inside(arena: Arena, address: u32, count: u32) {
    var end := Wrap(address + count);
    var arenaEnd := Wrap(arena.base + arena.size);
    end >= address && arenaEnd >= arena.base && address >= arena.base && end <= arenaEnd
  }

  /** Accepted bytes lie in the arena as plain numbers; an arena that ends at 2^32 accepts none above its base 0. */
  lemma InsideMeans(arena: Arena, address: u32, count: u32)
    requires 0 < count
    ensures Inside(arena, address, count) <==>
            arena.base <= address && address + count <= arena.base + arena.size < WORD
  {
  }

  // ---- Safe instructions ----

  /** The whole instruction window is in the arena, it decodes, it is not sensitive, and a transfer has a target there. */
  predicate Safe(code: Code, arena: Arena, a: u32) {
    && Inside(arena, a, MAX_INSTRUCTION_LENGTH)
    && var i := code(a);
    && i.Instruction? && i.length > 0 && !i.sensitive
    && (i.kind.Plain? || i.kind.Return? || (i.kind.target.Some? && Inside(arena, i.kind.target.value, 1)))
  }

  function After(code: Code, a: u32): u32
    requires code(a).Instruction?
  {
    Wrap(a + code(a).length)
  }

  /** Where control can go next inside the same function. */
  function Successors(code: Code, a: u32): seq<u32>
    requires code(a).Instruction? && (code(a).kind.Plain? || code(a).kind.Return? || code(a).kind.target.Some?)
  {
    match code(a).kind
    case Plain => [After(code, a)]
    case Return => []
    case Call(_) => [After(code, a)]
    case Conditional(t) => [t.value, After(code, a)]
    case Unconditional(t) => [t.value]
  }

  // ---- Certificates ----

  /** A verified function: its entry and every instruction the worklist visited. */
  datatype Function = Function(entry: u32, body: set<u32>)

  ghost predicate Finished(done: seq<Function>, f: u32) {
    exists i | 0 <= i < |done| :: done[i].entry == f
  }

  /** The instruction is safe, stays in the body, and calls only functions finished before. */
  ghost predicate Contained(code: Code, arena: Arena, body: set<u32>, done: seq<Function>, a: u32) {
    && Safe(code, arena, a)
    && (forall t <- Successors(code, a) :: t in body)
    && (code(a).kind.Call? ==> Finished(done, code(a).kind.target.value))
  }

  ghost predicate Returns(code: Code, body: set<u32>) {
    exists a <- body :: code(a).Instruction? && code(a).kind.Return?
  }

  ghost predicate Certified(code: Code, arena: Arena, done: seq<Function>) {
    && (forall i, j | 0 <= i < j < |done| :: done[i].entry != done[j].entry)
    && forall i | 0 <= i < |done| :: Certificate(code, arena, done, i)
  }

  ghost predicate Certificate(code: Code, arena: Arena, done: seq<Function>, i: nat)
    requires i < |done|
  {
    && done[i].entry in done[i].body
    && Returns(code, done[i].body)
    && forall a <- done[i].body :: Contained(code, arena, done[i].body, done[..i], a)
  }

  // ---- The analysis ----

  /**
   An instruction that can be verified: fifteen bytes from it on lie in the arena, it decodes and is not sensitive, and
   a call or jump has a target in the arena. The sums are plain numbers.
   */
  ghost predicate Harmless(code: Code, arena: Arena, a: u32) {
    && arena.base <= a && a + 15 <= arena.base + arena.size < WORD
    && code(a).Instruction? && code(a).length > 0 && !code(a).sensitive
    && (code(a).kind.Call? || code(a).kind.Conditional? || code(a).kind.Unconditional? ==>
          code(a).kind.target.Some? && arena.base <= code(a).kind.target.value < arena.base + arena.size)
  }

  /** Control can go from the instruction to the address without leaving the function: on behind it, or where it jumps. */
  ghost predicate Leads(code: Code, a: u32, t: u32) {
    && code(a).Instruction?
    && (((code(a).kind.Plain? || code(a).kind.Call? || code(a).kind.Conditional?) && t == (a + code(a).length) % WORD)
        || ((code(a).kind.Conditional? || code(a).kind.Unconditional?) && code(a).kind.target == Some(t)))
  }

  lemma SafeMeans(code: Code, arena: Arena, a: u32)
    ensures Safe(code, arena, a) <==> Harmless(code, arena, a)
    ensures Safe(code, arena, a) ==> forall t: u32 :: t in Successors(code, a) <==> Leads(code, a, t)
  {
    InsideMeans(arena, a, MAX_INSTRUCTION_LENGTH);
    if code(a).Instruction? && !code(a).kind.Plain? && !code(a).kind.Return? && code(a).kind.target.Some? {
      InsideMeans(arena, code(a).kind.target.value, 1);
    }
  }

  /** Control cannot leave the set without a return. */
  ghost predicate Closed(code: Code, arena: Arena, body: set<u32>) {
    forall a <- body :: Harmless(code, arena, a) && forall t: u32 | Leads(code, a, t) :: t in body
  }

  /** A body of fewer instructions than the limit of 16384, closed, and with a return reachable from the entry. */
  ghost predicate Fits(code: Code, arena: Arena, entry: u32, body: set<u32>) {
    && entry in body && |body| < 16384 && Closed(code, arena, body)
    && (forall part: set<u32> | entry in part && part <= body && Closed(code, arena, part) :: Returns(code, part))
  }

  lemma FitsInside(code: Code, arena: Arena, entry: u32, body: set<u32>)
    requires Fits(code, arena, entry, body)
    ensures Inside(arena, entry, 1)
  {
    InsideMeans(arena, entry, 1);
    assert Harmless(code, arena, entry);
  }

  ghost predicate Calls(code: Code, body: set<u32>, t: u32) {
    exists a <- body :: code(a).Instruction? && code(a).kind == Call(Some(t))
  }

  /** A tree of calls: the bodies of some functions and how deep each of them calls. */
  datatype Plan = Plan(bodies: map<u32, set<u32>>, height: map<u32, nat>)

  /** The function calls less high ones of the plan, or functions accepted before. */
  ghost predicate CallsDown(code: Code, verdicts: map<u32, Verdict>, p: Plan, f: u32)
    requires f in p.bodies && f in p.height
  {
    forall t: u32 | Calls(code, p.bodies[f], t) ::
      p.height[f] > 0 && ((t in verdicts && verdicts[t] == Accepted) || (t in p.bodies && t in p.height && p.height[t] < p.height[f]))
  }

  /** Every function of the plan has a fitting body and calls down. */
  ghost predicate Planned(code: Code, arena: Arena, verdicts: map<u32, Verdict>, p: Plan) {
    forall f <- p.bodies :: f in p.height && Fits(code, arena, f, p.bodies[f]) && CallsDown(code, verdicts, p, f)
  }

  /** The plan covers the function within the depth that is left, and nothing of it was rejected or is in progress. */
  ghost predicate Verifiable(code: Code, arena: Arena, verdicts: map<u32, Verdict>, entry: u32, depth: nat, p: Plan) {
    && Planned(code, arena, verdicts, p) && entry in p.bodies && depth + p.height[entry] <= 16
    && forall f <- p.bodies | p.height[f] <= p.height[entry] && f in verdicts :: verdicts[f] == Accepted
  }

  /** What was added to the cache is accepted. */
  ghost predicate AddsAccepted(before: map<u32, Verdict>, after: map<u32, Verdict>) {
    forall f <- after :: f in before || after[f] == Accepted
  }

  datatype Verdict = Accepted | Rejected | InProgress

  class VerdictCache {
    var verdicts: map<u32, Verdict>

    constructor ()
      ensures verdicts == map[]
    {
      verdicts := map[];
    }
  }

  /** The cache accepts exactly the certified functions. */
  ghost predicate Agrees(verdicts: map<u32, Verdict>, done: seq<Function>) {
    forall f: u32 :: (f in verdicts && verdicts[f] == Accepted) <==> Finished(done, f)
  }

  ghost predicate Keeps(before: map<u32, Verdict>, after: map<u32, Verdict>) {
    forall f <- before :: f in after && after[f] == before[f]
  }

  /** What the worklist has established: visited instructions are contained in what is visited or pending. */
  ghost predicate Explored(code: Code, arena: Arena, visited: set<u32>, pending: seq<u32>, done: seq<Function>) {
    forall a <- visited ::
      && Safe(code, arena, a)
      && (forall t <- Successors(code, a) :: t in visited || t in pending)
      && (code(a).kind.Call? ==> Finished(done, code(a).kind.target.value))
  }

  lemma FinishedLater(done: seq<Function>, done': seq<Function>, f: u32)
    requires done <= done' && Finished(done, f)
    ensures Finished(done', f)
  {
    var i :| 0 <= i < |done| && done[i].entry == f;
    assert done'[i] == done[i];
  }

  lemma ExploredLater(code: Code, arena: Arena, visited: set<u32>, pending: seq<u32>, done: seq<Function>, done': seq<Function>)
    requires Explored(code, arena, visited, pending, done) && done <= done'
    ensures Explored(code, arena, visited, pending, done')
  {
    hide Safe, Finished, Successors;
    forall a <- visited | code(a).Instruction? && code(a).kind.Call? && code(a).kind.target.Some? && Finished(done, code(a).kind.target.value)
      ensures Finished(done', code(a).kind.target.value)
    {
      FinishedLater(done, done', code(a).kind.target.value);
    }
    assert forall a <- visited :: Safe(code, arena, a);
    SafeShapes(code, arena, visited);
  }

  lemma SafeShapes(code: Code, arena: Arena, visited: set<u32>)
    requires forall a <- visited :: Safe(code, arena, a)
    ensures forall a <- visited :: code(a).Instruction? && (code(a).kind.Plain? || code(a).kind.Return? || code(a).kind.target.Some?)
  {
  }

  /** An address that was visited before needs no second look. */
  lemma PopVisited(code: Code, arena: Arena, visited: set<u32>, pending: seq<u32>, done: seq<Function>)
    requires Explored(code, arena, visited, pending, done) && pending != [] && pending[|pending| - 1] in visited
    ensures Explored(code, arena, visited, pending[..|pending| - 1], done)
  {
    hide Safe, Finished;
    var n := |pending| - 1;
    SafeOnes(code, arena, visited, pending, done);
    forall a <- visited, t | t in Successors(code, a) ensures t in visited || t in pending[..n] {
      assert pending == pending[..n] + [pending[n]];
    }
  }

  lemma SafeOnes(code: Code, arena: Arena, visited: set<u32>, pending: seq<u32>, done: seq<Function>)
    requires Explored(code, arena, visited, pending, done)
    ensures forall a <- visited :: Safe(code, arena, a)
    ensures forall a <- visited :: code(a).Instruction? && (code(a).kind.Plain? || code(a).kind.Return? || code(a).kind.target.Some?)
  {
  }

  /** A safe instruction is explored once its successors are pending. */
  lemma Visit(code: Code, arena: Arena, visited: set<u32>, pending: seq<u32>, done: seq<Function>, more: seq<u32>)
    requires Explored(code, arena, visited, pending, done) && pending != []
    requires var a := pending[|pending| - 1];
             && Safe(code, arena, a) && Successors(code, a) == more
             && (code(a).kind.Call? ==> Finished(done, code(a).kind.target.value))
    ensures Explored(code, arena, visited + {pending[|pending| - 1]}, pending[..|pending| - 1] + more, done)
  {
    hide Safe, Finished;
    var n := |pending| - 1;
    var a := pending[n];
    SafeOnes(code, arena, visited, pending, done);
    forall b <- visited, t | t in Successors(code, b) ensures t in visited + {a} || t in pending[..n] + more {
      assert pending == pending[..n] + [a];
    }
  }

  /** A fully explored function with a return is certified on top of what was finished before. */
  lemma Certify(code: Code, arena: Arena, done: seq<Function>, entry: u32, body: set<u32>)
    requires Certified(code, arena, done) && Explored(code, arena, body, [], done) && entry in body && !Finished(done, entry)
    requires Returns(code, body)
    ensures Certified(code, arena, done + [Function(entry, body)])
  {
    hide Safe, Successors;
    var done' := done + [Function(entry, body)];
    SafeOnes(code, arena, body, [], done);
    forall i | 0 <= i < |done'| ensures Certificate(code, arena, done', i) {
      if i < |done| {
        assert Certificate(code, arena, done, i);
        assert done'[..i] == done[..i];
      } else {
        assert done'[..i] == done;
      }
    }
  }

  lemma KeepsAll(verdicts: map<u32, Verdict>)
    ensures Keeps(verdicts, verdicts)
  {
  }

  lemma KeepsThrough(a: map<u32, Verdict>, b: map<u32, Verdict>, c: map<u32, Verdict>)
    requires Keeps(a, b) && Keeps(b, c)
    ensures Keeps(a, c)
  {
  }

  lemma AcceptedIsFinished(verdicts: map<u32, Verdict>, done: seq<Function>, f: u32)
    requires Agrees(verdicts, done) && f in verdicts && verdicts[f] == Accepted
    ensures Finished(done, f)
  {
  }

  lemma InProgressIsNotFinished(before: map<u32, Verdict>, verdicts: map<u32, Verdict>, done: seq<Function>, f: u32)
    requires Agrees(verdicts, done) && Keeps(before[f := InProgress], verdicts)
    ensures !Finished(done, f)
  {
    assert f in before[f := InProgress];
  }

  /** A verdict other than acceptance on a function that is not accepted changes nothing certified. */
  lemma Marked(verdicts: map<u32, Verdict>, done: seq<Function>, f: u32, v: Verdict)
    requires Agrees(verdicts, done) && (f !in verdicts || verdicts[f] != Accepted) && v != Accepted
    ensures Agrees(verdicts[f := v], done)
  {
    hide Finished;
  }

  lemma NowFinished(verdicts: map<u32, Verdict>, done: seq<Function>, f: Function)
    requires Agrees(verdicts, done)
    ensures Agrees(verdicts[f.entry := Accepted], done + [f]) && Finished(done + [f], f.entry)
  {
    var done' := done + [f];
    assert done'[|done|] == f;
    forall g: u32 ensures Finished(done', g) <==> Finished(done, g) || g == f.entry {
      if Finished(done, g) { FinishedLater(done, done', g); }
    }
  }

  lemma KeptBefore(before: map<u32, Verdict>, verdicts: map<u32, Verdict>, f: u32, v: Verdict)
    requires f !in before && Keeps(before[f := InProgress], verdicts)
    ensures Keeps(before, verdicts[f := v])
  {
    forall g <- before ensures g in verdicts && verdicts[g] == before[g] {
      assert g in before[f := InProgress];
    }
  }

  lemma ExploredNone(code: Code, arena: Arena, pending: seq<u32>, done: seq<Function>)
    ensures Explored(code, arena, {}, pending, done)
  {
  }

  /** The checks of the loop add up to a safe instruction with these successors. */
  lemma SafeNow(code: Code, arena: Arena, a: u32, more: seq<u32>)
    requires Inside(arena, a, MAX_INSTRUCTION_LENGTH) && code(a).Instruction? && code(a).length > 0 && !code(a).sensitive
    requires code(a).kind.Plain? || code(a).kind.Return? || (code(a).kind.target.Some? && Inside(arena, code(a).kind.target.value, 1))
    requires more == match code(a).kind
                     case Plain => [After(code, a)]
                     case Return => []
                     case Call(_) => [After(code, a)]
                     case Conditional(t) => [t.value, After(code, a)]
                     case Unconditional(t) => [t.value]
    ensures Safe(code, arena, a) && Successors(code, a) == more
  {
  }

  lemma VerifiableIsInside(code: Code, arena: Arena, verdicts: map<u32, Verdict>, entry: u32, depth: nat, p: Plan)
    requires Verifiable(code, arena, verdicts, entry, depth, p)
    ensures Inside(arena, entry, 1) && depth <= MAX_DEPTH && entry in p.bodies && Fits(code, arena, entry, p.bodies[entry])
    ensures entry in verdicts ==> verdicts[entry] == Accepted
  {
    hide Planned, Closed, Returns;
    PlannedFits(code, arena, verdicts, p, entry);
    FitsInside(code, arena, entry, p.bodies[entry]);
  }

  lemma PlannedFits(code: Code, arena: Arena, verdicts: map<u32, Verdict>, p: Plan, f: u32)
    requires Planned(code, arena, verdicts, p) && f in p.bodies
    ensures f in p.height && Fits(code, arena, f, p.bodies[f])
  {
  }

  lemma PlannedCall(code: Code, arena: Arena, verdicts: map<u32, Verdict>, p: Plan, f: u32, t: u32)
    requires Planned(code, arena, verdicts, p) && f in p.bodies && Calls(code, p.bodies[f], t)
    ensures f in p.height && p.height[f] > 0
    ensures (t in verdicts && verdicts[t] == Accepted) || (t in p.bodies && t in p.height && p.height[t] < p.height[f])
  {
    hide Fits, Calls;
    assert CallsDown(code, verdicts, p, f);
  }

  /** A callee of a verifiable function is verifiable one level deeper, whatever accepted functions have been added. */
  lemma CalleeIsVerifiable(code: Code, arena: Arena, before: map<u32, Verdict>, verdicts: map<u32, Verdict>, entry: u32, depth: nat,
                           p: Plan, a: u32, t: u32)
    requires Verifiable(code, arena, before, entry, depth, p) && entry !in before
    requires Keeps(before[entry := InProgress], verdicts) && AddsAccepted(before[entry := InProgress], verdicts)
    requires a in p.bodies[entry] && code(a).Instruction? && code(a).kind == Call(Some(t))
    ensures depth + 1 <= MAX_DEPTH
    ensures (t in verdicts && verdicts[t] == Accepted) || Verifiable(code, arena, verdicts, t, depth + 1, p)
  {
    hide Fits;
    var marked := before[entry := InProgress];
    PlannedFits(code, arena, before, p, entry);
    assert Calls(code, p.bodies[entry], t);
    PlannedCall(code, arena, before, p, entry, t);
    assert forall f <- before :: f in marked;
    forall f <- p.bodies ensures f in p.height && Fits(code, arena, f, p.bodies[f]) && CallsDown(code, verdicts, p, f) {
      assert CallsDown(code, before, p, f);
    }
  }

  lemma NoReturns(code: Code)
    ensures !Returns(code, {})
  {
  }

  lemma ReturnsMore(code: Code, visited: set<u32>, a: u32)
    ensures Returns(code, visited + {a}) <==> Returns(code, visited) || (code(a).Instruction? && code(a).kind.Return?)
  {
    if Returns(code, visited) {
      var b :| b in visited && code(b).Instruction? && code(b).kind.Return?;
      assert b in visited + {a};
    }
    if code(a).Instruction? && code(a).kind.Return? { assert a in visited + {a}; }
  }

  lemma EntryInBody(code: Code, arena: Arena, entry: u32, body: set<u32>)
    ensures Fits(code, arena, entry, body) ==> entry in body
  {
  }

  /** An instruction of a fitting body passes every check of the loop but that of its callee. */
  lemma InBody(code: Code, arena: Arena, entry: u32, body: set<u32>, a: u32)
    requires Fits(code, arena, entry, body) && a in body
    ensures Inside(arena, a, MAX_INSTRUCTION_LENGTH) && code(a).Instruction? && code(a).length > 0 && !code(a).sensitive
    ensures code(a).kind.Plain? || code(a).kind.Return? || (code(a).kind.target.Some? && Inside(arena, code(a).kind.target.value, 1))
    ensures forall t <- Successors(code, a) :: t in body
  {
    SafeMeans(code, arena, a);
  }

  lemma AddsThrough(a: map<u32, Verdict>, b: map<u32, Verdict>, c: map<u32, Verdict>)
    requires AddsAccepted(a, b) && AddsAccepted(b, c) && Keeps(b, c)
    ensures AddsAccepted(a, c)
  {
  }

  lemma AddsNothing(verdicts: map<u32, Verdict>)
    ensures AddsAccepted(verdicts, verdicts)
  {
  }

  lemma SmallerSet(a: set<u32>, b: set<u32>)
    requires a <= b
    ensures |a| <= |b|
  {
    if a != {} {
      var x :| x in a;
      SmallerSet(a - {x}, b - {x});
    }
  }

  /** Exploring a fitting body ends with nothing pending and a return found. */
  lemma FitsEnds(code: Code, arena: Arena, entry: u32, body: set<u32>, visited: set<u32>, pending: seq<u32>, done: seq<Function>)
    requires Fits(code, arena, entry, body) && visited <= body
    requires Explored(code, arena, visited, pending, done) && (entry in visited || entry in pending)
    requires pending == [] || |visited| >= MAX_INSTRUCTIONS
    ensures pending == [] && Returns(code, visited)
  {
    hide Safe, Returns, Successors, Finished, Harmless, Leads;
    SmallerSet(visited, body);
    forall a <- visited ensures Harmless(code, arena, a) && forall t: u32 | Leads(code, a, t) :: t in visited || t in pending {
      SafeMeans(code, arena, a);
    }
    assert pending == [] ==> Closed(code, arena, visited);
  }

  method Reject(cache: VerdictCache, entry: u32, ghost before: map<u32, Verdict>, ghost done: seq<Function>)
    requires entry !in before && Keeps(before[entry := InProgress], cache.verdicts) && Agrees(cache.verdicts, done)
    modifies cache
    ensures Agrees(cache.verdicts, done) && Keeps(before, cache.verdicts)
  {
    hide Agrees, Finished;
    assert entry in before[entry := InProgress];
    KeptBefore(before, cache.verdicts, entry, Rejected);
    Marked(cache.verdicts, done, entry, Rejected);
    cache.verdicts := cache.verdicts[entry := Rejected];
  }

  method Accept(cache: VerdictCache, ghost f: Function, entry: u32, ghost before: map<u32, Verdict>, ghost done: seq<Function>)
    requires entry !in before && Keeps(before[entry := InProgress], cache.verdicts) && Agrees(cache.verdicts, done)
    requires f.entry == entry
    modifies cache
    ensures Agrees(cache.verdicts, done + [f]) && Keeps(before, cache.verdicts) && Finished(done + [f], entry)
    ensures AddsAccepted(before[entry := InProgress], old(cache.verdicts)) ==> AddsAccepted(before, cache.verdicts)
  {
    hide Agrees, Finished;
    KeptBefore(before, cache.verdicts, entry, Accepted);
    NowFinished(cache.verdicts, done, f);
    cache.verdicts := cache.verdicts[entry := Accepted];
  }

  /**
   Verify the function at `entry`. The verdicts the cache held before stay; if it was accepted, it is certified
   together with everything it calls, and it is accepted whenever some plan of its calls shows that it can be.
   */
  method VerifyFunction(entry: u32, code: Code, arena: Arena, cache: VerdictCache, depth: nat, ghost done: seq<Function>, ghost plan: Plan)
    returns (ok: bool, ghost done': seq<Function>)
    requires Certified(code, arena, done) && Agrees(cache.verdicts, done)
    modifies cache
    ensures Certified(code, arena, done') && Agrees(cache.verdicts, done') && done <= done'
    ensures Keeps(old(cache.verdicts), cache.verdicts)
    ensures ok ==> Finished(done', entry)
    ensures depth > MAX_DEPTH || !Inside(arena, entry, 1) ==> !ok
    ensures depth <= MAX_DEPTH && Inside(arena, entry, 1) && entry in old(cache.verdicts) ==>
              (ok <==> old(cache.verdicts)[entry] == Accepted) && cache.verdicts == old(cache.verdicts)
    ensures Verifiable(code, arena, old(cache.verdicts), entry, depth, plan) ==> ok && AddsAccepted(old(cache.verdicts), cache.verdicts)
    decreases MAX_DEPTH + 1 - depth, 1
  {
    hide Certified, Agrees, Explored, Safe, Finished, Successors, Keeps, AddsAccepted, Wrap, Verifiable, Fits;
    done' := done;
    KeepsAll(cache.verdicts);
    AddsNothing(cache.verdicts);
    if Verifiable(code, arena, cache.verdicts, entry, depth, plan) { VerifiableIsInside(code, arena, cache.verdicts, entry, depth, plan); }
    if depth > MAX_DEPTH || !Inside(arena, entry, 1) { return false, done'; }
    if entry in cache.verdicts {
      if cache.verdicts[entry] == Accepted { AcceptedIsFinished(cache.verdicts, done, entry); }
      return cache.verdicts[entry] == Accepted, done';
    }
    ghost var before := cache.verdicts;
    cache.verdicts := cache.verdicts[entry := InProgress];
    Marked(before, done, entry, InProgress);
    KeepsAll(cache.verdicts);
    ok, done' := Explore(entry, code, arena, cache, depth, done, before, plan);
  }

  /** The worklist of one function. */
  method Explore(entry: u32, code: Code, arena: Arena, cache: VerdictCache, depth: nat, ghost done: seq<Function>, ghost before: map<u32, Verdict>,
                 ghost plan: Plan)
    returns (ok: bool, ghost done': seq<Function>)
    requires depth <= MAX_DEPTH && entry !in before && cache.verdicts == before[entry := InProgress]
    requires Certified(code, arena, done) && Agrees(cache.verdicts, done)
    modifies cache
    ensures Certified(code, arena, done') && Agrees(cache.verdicts, done') && done <= done'
    ensures Keeps(before, cache.verdicts)
    ensures ok ==> Finished(done', entry)
    ensures Verifiable(code, arena, before, entry, depth, plan) ==> ok && AddsAccepted(before, cache.verdicts)
    decreases MAX_DEPTH + 1 - depth, 0
  {
    hide Certified, Agrees, Explored, Safe, Finished, Successors, Keeps, AddsAccepted, Wrap, Certificate, Verifiable, Fits, Returns;
    done' := done;
    var pending: seq<u32> := [entry];
    var visited: set<u32> := {};
    var hasReturn := false;
    ghost var marked := cache.verdicts;
    ghost var fits := Verifiable(code, arena, before, entry, depth, plan);
    ghost var body: set<u32> := {};
    if fits {
      VerifiableIsInside(code, arena, before, entry, depth, plan);
      body := plan.bodies[entry];
    }
    KeepsAll(marked);
    AddsNothing(marked);
    ExploredNone(code, arena, pending, done);
    NoReturns(code);
    EntryInBody(code, arena, entry, body);
    while pending != [] && |visited| < MAX_INSTRUCTIONS
      invariant Keeps(marked, cache.verdicts) && (fits ==> AddsAccepted(marked, cache.verdicts))
      invariant Certified(code, arena, done') && Agrees(cache.verdicts, done') && done <= done'
      invariant Explored(code, arena, visited, pending, done')
      invariant entry in visited || entry in pending
      invariant hasReturn <==> Returns(code, visited)
      invariant fits ==> Fits(code, arena, entry, body) && visited <= body && forall a <- pending :: a in body
      decreases MAX_INSTRUCTIONS - |visited|, |pending|
    {
      var last := |pending| - 1;
      var address := pending[last];
      assert pending == pending[..last] + [address];
      if address in visited {
        PopVisited(code, arena, visited, pending, done');
        pending := pending[..last];
        continue;
      }
      var instruction := code(address);
      if fits { InBody(code, arena, entry, body, address); }
      if !Inside(arena, address, MAX_INSTRUCTION_LENGTH) || instruction.Undecodable? || instruction.length == 0 || instruction.sensitive {
        Reject(cache, entry, before, done');
        return false, done';
      }
      var next := Wrap(address + instruction.length);
      var more: seq<u32> := [];
      match instruction.kind {
        case Return =>
          hasReturn := true;
        case Plain =>
          more := [next];
        case Call(target) =>
          if target.None? || !Inside(arena, target.value, 1) {
            Reject(cache, entry, before, done');
            return false, done';
          }
          var verified;
          ghost var earlier, held := done', cache.verdicts;
          if fits { CalleeIsVerifiable(code, arena, before, held, entry, depth, plan, address, target.value); }
          verified, done' := VerifyFunction(target.value, code, arena, cache, depth + 1, done', plan);
          ExploredLater(code, arena, visited, pending, earlier, done');
          KeepsThrough(marked, held, cache.verdicts);
          if fits {
            if cache.verdicts == held { AddsNothing(held); }
            AddsThrough(marked, held, cache.verdicts);
          }
          if !verified {
            Reject(cache, entry, before, done');
            return false, done';
          }
          more := [next];
        case Conditional(target) =>
          if target.None? || !Inside(arena, target.value, 1) {
            Reject(cache, entry, before, done');
            return false, done';
          }
          more := [target.value, next];
        case Unconditional(target) =>
          if target.None? || !Inside(arena, target.value, 1) {
            Reject(cache, entry, before, done');
            return false, done';
          }
          more := [target.value];
      }
      SafeNow(code, arena, address, more);
      Visit(code, arena, visited, pending, done', more);
      pending := pending[..last] + more;
      assert |visited + {address}| == |visited| + 1;
      ReturnsMore(code, visited, address);
      visited := visited + {address};
    }
    if fits { FitsEnds(code, arena, entry, body, visited, pending, done'); }
    ok := hasReturn && pending == [];
    if ok {
      InProgressIsNotFinished(before, cache.verdicts, done', entry);
      Certify(code, arena, done', entry, visited);
      Accept(cache, Function(entry, visited), entry, before, done');
      done' := done' + [Function(entry, visited)];
    } else {
      Reject(cache, entry, before, done');
    }
  }
}
