/** What a processor does that is let loose at an accepted function, until its outermost return. */
module VerifiedRuns {
  import opened Words
  import opened VerifiedRegions

  /** The program counter, and the return addresses pushed by calls that have not returned. */
  datatype Machine = Machine(pc: u32, stack: seq<u32>)

  /** One instruction. A return goes to the address its call pushed; the outermost one ends the run. */
  ghost predicate Steps(code: Code, m: Machine, m': Machine) {
    && code(m.pc).Instruction?
    && match code(m.pc).kind
       case Plain => m' == Machine(After(code, m.pc), m.stack)
       case Return => m.stack != [] && m' == Machine(m.stack[|m.stack| - 1], m.stack[..|m.stack| - 1])
       case Call(t) => t.Some? && m' == Machine(t.value, m.stack + [After(code, m.pc)])
       case Conditional(t) => t.Some? && (m' == Machine(t.value, m.stack) || m' == Machine(After(code, m.pc), m.stack))
       case Unconditional(t) => t.Some? && m' == Machine(t.value, m.stack)
  }

  ghost predicate Ended(code: Code, m: Machine) {
    code(m.pc).Instruction? && code(m.pc).kind.Return? && m.stack == []
  }

  /** The functions that are active, innermost last: every callee was finished before its caller. */
  ghost predicate Frames(done: seq<Function>, m: Machine, frames: seq<nat>, i: nat) {
    && |frames| == |m.stack| + 1 && frames[0] == i < |done|
    && (forall k | 0 <= k < |frames| :: frames[k] + k <= i)
    && m.pc in done[frames[|m.stack|]].body
    && forall k | 0 <= k < |m.stack| :: m.stack[k] in done[frames[k]].body
  }

  /** A step from a framed state leads to a framed state. */
  lemma StepKeepsFrames(code: Code, arena: Arena, done: seq<Function>, m: Machine, m': Machine, frames: seq<nat>, i: nat)
    returns (frames': seq<nat>)
    requires Certified(code, arena, done) && Frames(done, m, frames, i) && Steps(code, m, m')
    ensures Frames(done, m', frames', i)
  {
    hide Safe, Returns, After, Inside;
    var n := |m.stack|;
    var f := frames[n];
    assert Certificate(code, arena, done, f);
    assert Contained(code, arena, done[f].body, done[..f], m.pc);
    frames' := frames;
    if code(m.pc).kind.Call? {
      var g :| 0 <= g < f && done[..f][g].entry == code(m.pc).kind.target.value;
      assert Certificate(code, arena, done, g);
      frames' := frames + [g];
    } else if code(m.pc).kind.Return? {
      frames' := frames[..n];
    }
  }

  lemma FramedIsSafe(code: Code, arena: Arena, done: seq<Function>, m: Machine, frames: seq<nat>, i: nat)
    requires Certified(code, arena, done) && Frames(done, m, frames, i)
    ensures Safe(code, arena, m.pc) && |m.stack| <= i
    ensures Ended(code, m) || exists m' :: Steps(code, m, m')
  {
    var f := frames[|m.stack|];
    assert Certificate(code, arena, done, f);
    assert Contained(code, arena, done[f].body, done[..f], m.pc);
    if !Ended(code, m) {
      var next := After(code, m.pc);
      var m' := match code(m.pc).kind
        case Plain => Machine(next, m.stack)
        case Return => Machine(m.stack[|m.stack| - 1], m.stack[..|m.stack| - 1])
        case Call(t) => Machine(t.value, m.stack + [next])
        case Conditional(t) => Machine(next, m.stack)
        case Unconditional(t) => Machine(t.value, m.stack);
      assert Steps(code, m, m');
    }
  }

  ghost predicate Run(code: Code, run: seq<Machine>) {
    run != [] && forall n | 0 <= n < |run| - 1 :: Steps(code, run[n], run[n + 1])
  }

  lemma {:induction false} RunKeepsFrames(code: Code, arena: Arena, done: seq<Function>, i: nat, run: seq<Machine>, n: nat)
    returns (frames: seq<nat>)
    requires Certified(code, arena, done) && i < |done| && Run(code, run) && run[0] == Machine(done[i].entry, []) && n < |run|
    ensures Frames(done, run[n], frames, i)
    decreases n
  {
    hide Safe, Returns, Steps;
    if n == 0 {
      assert Certificate(code, arena, done, i);
      frames := [i];
    } else {
      frames := RunKeepsFrames(code, arena, done, i, run, n - 1);
      assert Steps(code, run[n - 1], run[n - 1 + 1]);
      frames := StepKeepsFrames(code, arena, done, run[n - 1], run[n], frames, i);
    }
  }

  /**
   Every state of every run from an accepted entry stands on an in-range, decodable, insensitive instruction, is
   not stuck, and nests no deeper than the number of accepted functions, so no accepted function calls itself.
   */
  lemma AcceptedRunsAreSafe(code: Code, arena: Arena, verdicts: map<u32, Verdict>, done: seq<Function>, entry: u32, run: seq<Machine>, n: nat)
    requires Certified(code, arena, done) && Agrees(verdicts, done)
    requires entry in verdicts && verdicts[entry] == Accepted
    requires Run(code, run) && run[0] == Machine(entry, []) && n < |run|
    ensures Safe(code, arena, run[n].pc) && |run[n].stack| < |done|
    ensures Ended(code, run[n]) || exists m :: Steps(code, run[n], m)
  {
    hide Safe, Certified, Steps, Frames, Ended, Finished;
    AcceptedIsFinished(verdicts, done, entry);
    var i := Place(done, entry);
    var frames := RunKeepsFrames(code, arena, done, i, run, n);
    FramedIsSafe(code, arena, done, run[n], frames, i);
  }

  lemma Place(done: seq<Function>, f: u32) returns (i: nat)
    requires Finished(done, f)
    ensures i < |done| && done[i].entry == f
  {
    i :| 0 <= i < |done| && done[i].entry == f;
  }
}
