/**
 The channel from the guest thread to the host thread: a bounded queue of posted commands and one slot
 for a command the guest waits on, both under one mutex.
 */
module HostChannels {
  import opened Words

  const QUEUE_CAPACITY: nat := 64
  const MAX_SWAPS: nat := 1

  /** A posted swap that throws has not taken itself off the count of outstanding swaps. */
  datatype Command = Command(id: nat, swap: bool, throws: bool)

  /** What the mutex guards, and the queue depth that is also read without it. */
  datatype Channel = Channel(
    commands: seq<Command>,
    depth: nat,
    swaps: nat,
    pending: bool,
    complete: bool,
    slot: Option<Command>,
    thrown: Option<Command>)

  const FRESH := Channel([], 0, 0, false, false, None, None)

  predicate HasRoom(c: Channel, swap: bool) {
    |c.commands| < QUEUE_CAPACITY && (swap ==> c.swaps < MAX_SWAPS)
  }

  // ---- The critical sections ----

  /** The push happens before the depth is counted, both under the mutex. */
  function Push(c: Channel, x: Command): Channel {
    c.(commands := c.commands + [x])
  }

  function Counted(c: Channel, x: Command): Channel {
    c.(depth := c.depth + 1, swaps := if x.swap then c.swaps + 1 else c.swaps)
  }

  function Pop(c: Channel): (Channel, Command)
    requires c.commands != []
  {
    (c.(commands := c.commands[1..], depth := if c.depth > 0 then c.depth - 1 else 0), c.commands[0])
  }

  function RetireSwap(c: Channel): Channel {
    if c.swaps != 0 then c.(swaps := c.swaps - 1) else c
  }

  function Publish(c: Channel, x: Command): Channel {
    c.(slot := Some(x), thrown := None, complete := false, pending := true)
  }

  /** The exception of the command, if it threw, is left for the guest. */
  function Finish(c: Channel, x: Command): Channel {
    c.(slot := None, thrown := if x.throws then Some(x) else None, pending := false, complete := true)
  }

  // ---- The two threads ----

  datatype Guest =
    | Free
    | AwaitRoom(x: Command)
    | Counting(x: Command)
    | AwaitSlot(x: Command)
    | AwaitDone(x: Command)

  datatype Host =
    | Waiting
    | Checking
    | Draining
    | Running(x: Command)
    | Retiring(x: Command)
    | Executed(x: Command)
    | AtSlot
    | RunningSlot(x: Command)
    | FinishingSlot(x: Command)

  /**
   The whole system, with what has happened so far: commands in post order, posted commands in the order they
   ran, and waited-on commands in the order of publication and of running.
   */
  datatype System = System(
    channel: Channel,
    guest: Guest,
    host: Host,
    posted: seq<Command>,
    ran: seq<Command>,
    published: seq<Command>,
    ranSlot: seq<Command>)

  const START := System(FRESH, Free, Waiting, [], [], [], [])

  /** The guest holds the mutex between its push and its count. */
  predicate MutexFree(s: System) {
    !s.guest.Counting?
  }

  /** A swap that ran retires itself from the count, unless it threw. */
  function AfterRun(x: Command): Host {
    if x.swap && !x.throws then Retiring(x) else Executed(x)
  }

  datatype Step =
    | Post(x: Command)
    | WakePost
    | CountPost
    | Invoke(x: Command)
    | PublishSlot
    | ReturnInvoke
    | Pump
    | CheckDepth
    | Drain
    | Run
    | Retire
    | NoteExecuted
    | ReadSlot
    | RunSlot
    | FinishSlot

  ghost predicate Next(s: System, step: Step, s': System) {
    match step
    case Post(x) =>
      && s.guest.Free?
      && s' == if HasRoom(s.channel, x.swap)
               then s.(channel := Push(s.channel, x), guest := Counting(x), posted := s.posted + [x])
               else s.(guest := AwaitRoom(x))
    case WakePost =>
      && s.guest.AwaitRoom? && HasRoom(s.channel, s.guest.x.swap)
      && s' == s.(channel := Push(s.channel, s.guest.x), guest := Counting(s.guest.x), posted := s.posted + [s.guest.x])
    case CountPost =>
      s.guest.Counting? && s' == s.(channel := Counted(s.channel, s.guest.x), guest := Free)
    case Invoke(x) =>
      s.guest.Free? && s' == s.(guest := AwaitSlot(x))
    case PublishSlot =>
      && s.guest.AwaitSlot? && !s.channel.pending
      && s' == s.(channel := Publish(s.channel, s.guest.x), guest := AwaitDone(s.guest.x), published := s.published + [s.guest.x])
    case ReturnInvoke =>
      s.guest.AwaitDone? && s.channel.complete && s' == s.(guest := Free)
    case Pump =>
      s.host.Waiting? && s' == s.(host := Checking)
    case CheckDepth =>
      && s.host.Checking?
      && s' == if s.channel.depth == 0 then s.(host := AtSlot) else s.(host := Draining)
    case Drain =>
      && s.host.Draining? && MutexFree(s)
      && s' == if s.channel.commands == [] then s.(host := AtSlot)
               else s.(channel := Pop(s.channel).0, host := Running(Pop(s.channel).1))
    case Run =>
      && s.host.Running?
      && s' == s.(ran := s.ran + [s.host.x], host := AfterRun(s.host.x))
    case Retire =>
      s.host.Retiring? && MutexFree(s) && s' == s.(channel := RetireSwap(s.channel), host := Executed(s.host.x))
    case NoteExecuted =>
      s.host.Executed? && MutexFree(s) && s' == s.(host := Draining)
    case ReadSlot =>
      && s.host.AtSlot? && MutexFree(s)
      && s' == if s.channel.pending && s.channel.slot.Some? then s.(host := RunningSlot(s.channel.slot.value)) else s.(host := Waiting)
    case RunSlot =>
      s.host.RunningSlot? && s' == s.(ranSlot := s.ranSlot + [s.host.x], host := FinishingSlot(s.host.x))
    case FinishSlot =>
      s.host.FinishingSlot? && MutexFree(s) && s' == s.(channel := Finish(s.channel, s.host.x), host := Waiting)
  }

  // ---- The invariant ----

  /** The posted command the host has taken but not run yet. */
  function Taken(h: Host): seq<Command> {
    if h.Running? then [h.x] else []
  }

  /** How many of the commands are swaps, or swaps that throw. */
  function Swaps(xs: seq<Command>, throwing: bool): nat {
    if xs == [] then 0 else (if xs[0].swap && (throwing ==> xs[0].throws) then 1 else 0) + Swaps(xs[1..], throwing)
  }

  lemma {:induction false} SwapsConcat(a: seq<Command>, b: seq<Command>, throwing: bool)
    ensures Swaps(a + b, throwing) == Swaps(a, throwing) + Swaps(b, throwing)
    decreases |a|
  {
    if a == [] {
      assert a + b == b;
    } else {
      assert (a + b)[1..] == a[1..] + b;
      SwapsConcat(a[1..], b, throwing);
    }
  }

  lemma {:induction false} FewerThrow(xs: seq<Command>)
    ensures Swaps(xs, true) <= Swaps(xs, false)
    decreases |xs|
  {
    if xs != [] { FewerThrow(xs[1..]); }
  }

  /** Swaps that are queued, taken, or run but not yet retired. */
  function Outstanding(s: System): nat {
    Swaps(s.channel.commands, false) + Swaps(Taken(s.host), false) + if s.host.Retiring? then 1 else 0
  }

  /** Swaps that threw while running and are counted for ever. */
  function Lost(s: System): nat {
    Swaps(s.ran, true)
  }

  /** The slot's command that was published and has not run. */
  function Unrun(s: System): seq<Command> {
    if s.channel.pending && !s.host.FinishingSlot? && s.channel.slot.Some? then [s.channel.slot.value] else []
  }

  ghost predicate Sound(s: System) {
    var c := s.channel;
    && |c.commands| == c.depth + (if s.guest.Counting? then 1 else 0) && |c.commands| <= QUEUE_CAPACITY
    && Outstanding(s) + Lost(s) == c.swaps + (if s.guest.Counting? && s.guest.x.swap then 1 else 0)
    && Outstanding(s) + Lost(s) <= MAX_SWAPS
    && s.posted == s.ran + Taken(s.host) + c.commands
    && s.published == s.ranSlot + Unrun(s)
    && (c.pending <==> c.slot.Some?) && (c.pending ==> !c.complete && s.guest.AwaitDone? && s.guest.x == c.slot.value)
    && (s.guest.AwaitDone? ==> s.published != [] && s.published[|s.published| - 1] == s.guest.x)
    && (s.guest.AwaitDone? && !c.pending ==> c.complete && c.thrown == if s.guest.x.throws then Some(s.guest.x) else None)
    && (s.host.RunningSlot? || s.host.FinishingSlot? ==> c.pending && s.host.x == c.slot.value)
    && (s.guest.Counting? ==> c.commands != [] && c.commands[|c.commands| - 1] == s.guest.x)
  }

  lemma StartIsSound()
    ensures Sound(START)
  {
  }

  lemma OneSwap(x: Command)
    ensures Swaps([x], false) == (if x.swap then 1 else 0) && Swaps([x], true) == if x.swap && x.throws then 1 else 0
  {
    assert [x][1..] == [];
  }

  lemma FirstSwap(xs: seq<Command>)
    requires xs != []
    ensures Swaps(xs, false) == Swaps([xs[0]], false) + Swaps(xs[1..], false) && Swaps([], false) == 0
  {
    OneSwap(xs[0]);
  }

  lemma PushKeepsSound(s: System, x: Command, s': System)
    requires Sound(s) && (s.guest.Free? || s.guest.AwaitRoom?) && HasRoom(s.channel, x.swap)
    requires s' == s.(channel := Push(s.channel, x), guest := Counting(x), posted := s.posted + [x])
    ensures Sound(s')
  {
    SwapsConcat(s.channel.commands, [x], false);
    OneSwap(x);
  }

  lemma DrainKeepsSound(s: System, s': System)
    requires Sound(s) && s.host.Draining? && MutexFree(s) && s.channel.commands != []
    requires s' == s.(channel := Pop(s.channel).0, host := Running(Pop(s.channel).1))
    ensures Sound(s')
  {
    hide Swaps;
    FirstSwap(s.channel.commands);
    assert s.channel.commands == [s.channel.commands[0]] + s.channel.commands[1..];
  }

  lemma RunKeepsSound(s: System, s': System)
    requires Sound(s) && Next(s, Run, s')
    ensures Sound(s')
  {
    OneSwap(s.host.x);
    SwapsConcat(s.ran, [s.host.x], true);
  }

  lemma PublishKeepsSound(s: System, s': System)
    requires Sound(s) && Next(s, PublishSlot, s')
    ensures Sound(s')
  {
    hide Swaps;
  }

  lemma SlotStepsKeepSound(s: System, step: Step, s': System)
    requires Sound(s) && Next(s, step, s') && (step.ReadSlot? || step.RunSlot? || step.FinishSlot?)
    ensures Sound(s')
  {
    hide Swaps;
  }

  lemma CountKeepsSound(s: System, s': System)
    requires Sound(s) && Next(s, CountPost, s')
    ensures Sound(s')
  {
    hide Swaps;
  }

  lemma StepKeepsSound(s: System, step: Step, s': System)
    requires Sound(s) && Next(s, step, s')
    ensures Sound(s')
  {
    hide Swaps;
    match step {
      case Post(x) => if HasRoom(s.channel, x.swap) { PushKeepsSound(s, x, s'); }
      case WakePost => PushKeepsSound(s, s.guest.x, s');
      case Drain => if s.channel.commands != [] { DrainKeepsSound(s, s'); }
      case Run => RunKeepsSound(s, s');
      case PublishSlot => PublishKeepsSound(s, s');
      case CountPost => CountKeepsSound(s, s');
      case ReadSlot => SlotStepsKeepSound(s, step, s');
      case RunSlot => SlotStepsKeepSound(s, step, s');
      case FinishSlot => SlotStepsKeepSound(s, step, s');
      case _ =>
    }
  }

  // ---- When a post has to wait ----

  /** Fewer than 64 posted commands wait to be taken, and every swap posted before has run, returned and been retired. */
  ghost predicate RoomLeft(s: System, swap: bool) {
    && |s.posted| - |s.ran| - (if s.host.Running? then 1 else 0) < 64
    && (swap ==> !s.host.Retiring? && forall k | 0 <= k < |s.posted| && s.posted[k].swap :: k < |s.ran| && !s.posted[k].throws)
  }

  lemma {:induction false} NoSwaps(xs: seq<Command>, throwing: bool)
    ensures Swaps(xs, throwing) == 0 <==> forall k | 0 <= k < |xs| && xs[k].swap :: throwing && !xs[k].throws
    decreases |xs|
  {
    if xs != [] {
      NoSwaps(xs[1..], throwing);
      assert forall k | 0 < k < |xs| :: xs[k] == xs[1..][k - 1];
      assert forall k | 0 <= k < |xs| - 1 :: xs[1..][k] == xs[k + 1];
    }
  }

  /** No swap is left in `rest` and none that threw in `ran`, said of the two in a row. */
  lemma NoneLeft(ran: seq<Command>, rest: seq<Command>)
    ensures Swaps(rest, false) + Swaps(ran, true) == 0 <==>
            forall k | 0 <= k < |ran + rest| && (ran + rest)[k].swap :: k < |ran| && !(ran + rest)[k].throws
  {
    hide Swaps;
    NoSwaps(rest, false);
    NoSwaps(ran, true);
    var all := ran + rest;
    assert forall k | 0 <= k < |ran| :: all[k] == ran[k];
    assert forall k | 0 <= k < |rest| :: all[|ran| + k] == rest[k];
  }

  lemma RoomExactly(s: System, swap: bool)
    requires Sound(s) && !s.guest.Counting?
    ensures HasRoom(s.channel, swap) <==> RoomLeft(s, swap)
  {
    hide Swaps;
    var rest := Taken(s.host) + s.channel.commands;
    NoneLeft(s.ran, rest);
    assert s.posted == s.ran + rest;
    SwapsConcat(Taken(s.host), s.channel.commands, false);
  }

  /** A post goes through at once exactly when there is room, and otherwise waits until there is. */
  lemma PostWaitsForRoomOnly(s: System, step: Step, s': System)
    requires Sound(s) && Next(s, step, s') && step.Post?
    ensures if RoomLeft(s, step.x.swap) then s'.guest.Counting? && s'.posted == s.posted + [step.x]
            else s' == s.(guest := AwaitRoom(step.x))
  {
    hide Sound, HasRoom, RoomLeft;
    RoomExactly(s, step.x.swap);
  }

  /** A guest that waits for room can go on exactly when there is some. */
  lemma WaitsForRoomOnly(s: System)
    requires Sound(s) && s.guest.AwaitRoom?
    ensures (exists s' :: Next(s, WakePost, s')) <==> RoomLeft(s, s.guest.x.swap)
  {
    hide Sound, HasRoom, RoomLeft;
    RoomExactly(s, s.guest.x.swap);
    if RoomLeft(s, s.guest.x.swap) {
      var x := s.guest.x;
      assert Next(s, WakePost, s.(channel := Push(s.channel, x), guest := Counting(x), posted := s.posted + [x]));
    }
  }

  // ---- Runs ----

  ghost predicate Reached(states: seq<System>, steps: seq<Step>) {
    && |states| == |steps| + 1 && states[0] == START
    && forall n | 0 <= n < |steps| :: Next(states[n], steps[n], states[n + 1])
  }

  lemma {:induction false} ReachedIsSound(states: seq<System>, steps: seq<Step>, n: nat)
    requires Reached(states, steps) && n < |states|
    ensures Sound(states[n])
    decreases n
  {
    hide Sound, Next;
    if n == 0 {
      StartIsSound();
    } else {
      ReachedIsSound(states, steps, n - 1);
      StepKeepsSound(states[n - 1], steps[n - 1], states[n]);
    }
  }

  /** Posted commands run in post order and none twice: what ran, what is taken and what is queued make up what was posted. */
  lemma PostedRunInOrder(states: seq<System>, steps: seq<Step>, n: nat)
    requires Reached(states, steps) && n < |states|
    ensures var s := states[n];
            && s.posted == s.ran + Taken(s.host) + s.channel.commands
            && |s.channel.commands| <= QUEUE_CAPACITY && Outstanding(s) + Lost(s) <= MAX_SWAPS
            && (MutexFree(s) ==> s.channel.depth == |s.channel.commands| && s.channel.swaps == Outstanding(s) + Lost(s))
  {
    hide Swaps, Next;
    ReachedIsSound(states, steps, n);
  }

  /** When an invocation returns, every published command has run exactly once, its own last, and only its own exception is rethrown. */
  lemma ReturnedInvokeRanOnce(states: seq<System>, steps: seq<Step>, n: nat)
    requires Reached(states, steps) && n < |steps| && steps[n] == ReturnInvoke
    ensures var s := states[n];
            && s.ranSlot == s.published && s.published != []
            && s.guest.AwaitDone? && s.ranSlot[|s.ranSlot| - 1] == s.guest.x
            && s.channel.thrown == if s.guest.x.throws then Some(s.guest.x) else None
  {
    hide Swaps;
    ReachedIsSound(states, steps, n);
    assert Next(states[n], steps[n], states[n + 1]);
  }

  // ---- The order of the two paths ----

  /** Step `m` is a look at the queue that finds it empty: by the depth, without the mutex, or by the queue itself. */
  predicate EmptyLook(states: seq<System>, steps: seq<Step>, m: nat)
    requires m < |steps| && m < |states|
  {
    || (steps[m].CheckDepth? && states[m].channel.depth == 0)
    || (steps[m].Drain? && states[m].channel.commands == [])
  }

  /** Before step `n` the host last found the queue empty in step `m`. */
  predicate LastLook(states: seq<System>, steps: seq<Step>, m: nat, n: nat) {
    && m < n <= |steps| && n <= |states| && EmptyLook(states, steps, m)
    && forall i | m < i < n :: !EmptyLook(states, steps, i)
  }

  /** The posts that were counted within the first `n` steps. */
  function CountedPosts(steps: seq<Step>, n: nat): nat
    requires n <= |steps|
  {
    if n == 0 then 0 else CountedPosts(steps, n - 1) + if steps[n - 1].CountPost? then 1 else 0
  }

  predicate PastQueue(s: System) {
    s.host.AtSlot? || s.host.RunningSlot? || s.host.FinishingSlot?
  }

  lemma StepOf(states: seq<System>, steps: seq<Step>, n: nat)
    requires Reached(states, steps) && n < |steps|
    ensures |states| == |steps| + 1 && Next(states[n], steps[n], states[n + 1])
  {
  }

  lemma StepCounts(s: System, step: Step, s': System)
    requires Next(s, step, s')
    ensures |s'.posted| - (if s'.guest.Counting? then 1 else 0) ==
            |s.posted| - (if s.guest.Counting? then 1 else 0) + if step.CountPost? then 1 else 0
    ensures s.posted <= s'.posted
  {
    hide HasRoom, Push, Counted, Pop, RetireSwap, Publish, Finish;
  }

  /** Every post is counted, but for the one the guest may be about to count. */
  lemma {:induction false} PostsAreCounted(states: seq<System>, steps: seq<Step>, n: nat)
    requires Reached(states, steps) && n < |states|
    ensures |states[n].posted| == CountedPosts(steps, n) + if states[n].guest.Counting? then 1 else 0
    decreases n
  {
    hide Next;
    if n > 0 {
      PostsAreCounted(states, steps, n - 1);
      StepOf(states, steps, n - 1);
      StepCounts(states[n - 1], steps[n - 1], states[n]);
    }
  }

  lemma StartIsWaiting(states: seq<System>, steps: seq<Step>)
    requires Reached(states, steps)
    ensures !PastQueue(states[0])
  {
  }

  lemma StepToSlot(s: System, step: Step, s': System)
    requires Next(s, step, s') && PastQueue(s')
    ensures s'.ran == s.ran
    ensures if PastQueue(s) then !step.CheckDepth? && !step.Drain?
            else (step.CheckDepth? && s.channel.depth == 0) || (step.Drain? && s.channel.commands == [])
  {
    hide HasRoom, Push, Counted, Pop, RetireSwap, Publish, Finish;
  }

  /** The host comes to the slot by an empty look only, and runs nothing from the queue while it is there. */
  lemma {:induction false} SlotFollowsLook(states: seq<System>, steps: seq<Step>, n: nat)
    requires Reached(states, steps) && n < |states| && PastQueue(states[n])
    ensures exists m: nat :: LastLook(states, steps, m, n)
    ensures forall m: nat | LastLook(states, steps, m, n) :: states[n].ran == states[m].ran
    decreases n
  {
    hide Next, PastQueue;
    assert n > 0 by { StartIsWaiting(states, steps); }
    StepOf(states, steps, n - 1);
    StepToSlot(states[n - 1], steps[n - 1], states[n]);
    if PastQueue(states[n - 1]) {
      SlotFollowsLook(states, steps, n - 1);
      assert !EmptyLook(states, steps, n - 1);
      assert forall m: nat :: LastLook(states, steps, m, n) <==> LastLook(states, steps, m, n - 1);
      var m: nat :| LastLook(states, steps, m, n - 1);
      assert LastLook(states, steps, m, n);
    } else {
      assert EmptyLook(states, steps, n - 1);
      assert LastLook(states, steps, n - 1, n);
      assert forall m: nat | LastLook(states, steps, m, n) :: !(m < n - 1 < n);
    }
  }

  /** What has been counted when the host finds the queue empty has run, and nothing else. */
  lemma LookSeesCounted(states: seq<System>, steps: seq<Step>, m: nat)
    requires Reached(states, steps) && m < |steps| && EmptyLook(states, steps, m)
    ensures CountedPosts(steps, m) <= |states[m].posted| && states[m].ran == states[m].posted[..CountedPosts(steps, m)]
  {
    hide Swaps, CountedPosts;
    ReachedIsSound(states, steps, m);
    PostsAreCounted(states, steps, m);
    assert Next(states[m], steps[m], states[m + 1]);
  }

  lemma {:induction false} PostedGrows(states: seq<System>, steps: seq<Step>, m: nat, n: nat)
    requires Reached(states, steps) && m <= n < |states|
    ensures states[m].posted <= states[n].posted
    decreases n
  {
    hide Next;
    if m < n {
      PostedGrows(states, steps, m, n - 1);
      StepOf(states, steps, n - 1);
      StepCounts(states[n - 1], steps[n - 1], states[n]);
    }
  }

  lemma {:induction false} NoneCounted(steps: seq<Step>, m: nat, n: nat)
    requires m <= n <= |steps|
    ensures CountedPosts(steps, m) <= CountedPosts(steps, n)
    ensures CountedPosts(steps, m) == CountedPosts(steps, n) <==> forall i | m <= i < n :: !steps[i].CountPost?
    decreases n
  {
    if m < n { NoneCounted(steps, m, n - 1); }
  }

  /** While the host is at the slot, what had been counted at its last empty look has run, and nothing posted or counted since. */
  lemma CountedBeforeLookRan(states: seq<System>, steps: seq<Step>, m: nat, n: nat)
    requires Reached(states, steps) && n < |states| && PastQueue(states[n]) && LastLook(states, steps, m, n)
    ensures CountedPosts(steps, m) <= |states[n].posted| && states[n].ran == states[n].posted[..CountedPosts(steps, m)]
  {
    hide Next, CountedPosts, EmptyLook, PastQueue;
    SlotFollowsLook(states, steps, n);
    LookSeesCounted(states, steps, m);
    PostedGrows(states, steps, m, n);
  }

  /**
   A finished invocation proves that everything posted before has run exactly when no post was counted between the
   last look that found the queue empty and the end of the invocation. Posting before that look is not enough.
   */
  lemma FinishedSlotProvesOrder(states: seq<System>, steps: seq<Step>, m: nat, n: nat)
    requires Reached(states, steps) && n < |steps| && steps[n] == FinishSlot && LastLook(states, steps, m, n)
    ensures states[n].ran == states[n].posted <==> forall i | m < i < n :: steps[i] != CountPost
  {
    hide CountedPosts, LastLook, Reached;
    StepOf(states, steps, n);
    LookCountsNone(states, steps, m, n);
    CountedBeforeLookRan(states, steps, m, n);
    PostsAreCounted(states, steps, n);
    NoneCounted(steps, m, n);
  }

  lemma LookCountsNone(states: seq<System>, steps: seq<Step>, m: nat, n: nat)
    requires LastLook(states, steps, m, n)
    ensures m < n && !steps[m].CountPost?
  {
  }

  lemma ReachedMore(states: seq<System>, steps: seq<Step>, step: Step, s': System)
    requires |states| == |steps| + 1 && Reached(states, steps) && Next(states[|steps|], step, s')
    ensures Reached(states + [s'], steps + [step])
  {
    hide Next;
    var states', steps' := states + [s'], steps + [step];
    forall n | 0 <= n < |steps'| ensures Next(states'[n], steps'[n], states'[n + 1]) {
      if n < |steps| { assert Next(states[n], steps[n], states[n + 1]); }
    }
  }

  lemma StartIsReached()
    ensures Reached([START], [])
  {
  }

  /** The run goes on with one more step. */
  lemma Then(states: seq<System>, steps: seq<Step>, step: Step, s': System) returns (states': seq<System>, steps': seq<Step>)
    requires |states| == |steps| + 1 && Reached(states, steps) && Next(states[|steps|], step, s')
    ensures |states'| == |steps'| + 1 && Reached(states', steps') && states'[|steps'|] == s' && steps' == steps + [step]
  {
    ReachedMore(states, steps, step, s');
    states', steps' := states + [s'], steps + [step];
  }

  /** `a` is pushed, the host finds the depth still zero, and only then `a` is counted and `b` about to be published. */
  lemma PostBehindTheHost(a: Command, b: Command) returns (states: seq<System>, steps: seq<Step>)
    ensures |states| == |steps| + 1 && Reached(states, steps)
    ensures states[|steps|] == System(Counted(Push(FRESH, a), a), AwaitSlot(b), AtSlot, [a], [], [], [])
    ensures steps == [Post(a), Pump, CheckDepth, CountPost, Invoke(b)]
  {
    hide Reached;
    StartIsReached();
    var s1 := START.(channel := Push(FRESH, a), guest := Counting(a), posted := [a]);
    states, steps := Then([START], [], Post(a), s1);
    var s2 := s1.(host := Checking);
    states, steps := Then(states, steps, Pump, s2);
    var s3 := s2.(host := AtSlot);
    states, steps := Then(states, steps, CheckDepth, s3);
    var s4 := s3.(channel := Counted(s3.channel, a), guest := Free);
    states, steps := Then(states, steps, CountPost, s4);
    states, steps := Then(states, steps, Invoke(b), s4.(guest := AwaitSlot(b)));
  }

  /** A command posted before the host's only look at the queue, but counted after it, is overtaken by the invocation behind it. */
  lemma InvocationOvertakesPost(a: Command, b: Command) returns (states: seq<System>, steps: seq<Step>)
    ensures |states| == |steps| + 1 && Reached(states, steps)
    ensures steps == [Post(a), Pump, CheckDepth, CountPost, Invoke(b), PublishSlot, ReadSlot, RunSlot, FinishSlot]
    ensures var s := states[|steps|];
            && s.posted == [a] && s.ranSlot == [b] == s.published && s.channel.complete
            && s.ran == [] && s.channel.commands == [a]
  {
    hide Reached;
    states, steps := PostBehindTheHost(a, b);
    var s5 := states[|steps|];
    var s6 := s5.(channel := Publish(s5.channel, b), guest := AwaitDone(b), published := [b]);
    states, steps := Then(states, steps, PublishSlot, s6);
    var s7 := s6.(host := RunningSlot(b));
    states, steps := Then(states, steps, ReadSlot, s7);
    var s8 := s7.(ranSlot := [b], host := FinishingSlot(b));
    states, steps := Then(states, steps, RunSlot, s8);
    states, steps := Then(states, steps, FinishSlot, s8.(channel := Finish(s8.channel, b), host := Waiting));
  }

  // ---- Progress ----

  /** The guest waits for something only the host can do. */
  predicate Blocked(s: System) {
    match s.guest
    case AwaitRoom(x) => !HasRoom(s.channel, x.swap)
    case AwaitSlot(_) => s.channel.pending
    case AwaitDone(_) => !s.channel.complete
    case _ => false
  }

  predicate HostStep(step: Step) {
    step.Pump? || step.CheckDepth? || step.Drain? || step.Run? || step.Retire? || step.NoteExecuted? || step.ReadSlot? ||
    step.RunSlot? || step.FinishSlot?
  }

  /** What makes the waiting host pump without running into its timeout. */
  predicate HasWork(c: Channel) {
    c.pending || c.depth != 0
  }

  /** How many host steps a blocked guest has to wait at most. */
  function Distance(s: System): nat {
    4 * |s.channel.commands| +
    match s.host
    case FinishingSlot(_) => 1
    case RunningSlot(_) => 2
    case AtSlot => if s.guest.AwaitRoom? then 8 else 3
    case Draining => 4
    case Executed(_) => 5
    case Retiring(_) => 6
    case Running(_) => 7
    case Checking => 6
    case Waiting => 7
  }

  /** The guest waits to post a swap while a posted one has thrown or will: the count of outstanding swaps never falls to zero. */
  predicate Doomed(s: System) {
    s.guest.AwaitRoom? && s.guest.x.swap && Swaps(s.posted, true) >= MAX_SWAPS
  }

  lemma BlockedFreesMutex(s: System)
    requires Sound(s) && Blocked(s)
    ensures MutexFree(s) && s.channel.depth == |s.channel.commands| && !s.guest.AwaitSlot?
  {
    hide Swaps;
  }

  /** A blocked guest always leaves the host a step, and unless it is doomed the waiting host has something to wake up for. */
  lemma BlockedGuestLeavesHostAStep(s: System) returns (step: Step, s': System)
    requires Sound(s) && Blocked(s)
    ensures HostStep(step) && Next(s, step, s')
    ensures s.host.Waiting? && !Doomed(s) ==> HasWork(s.channel)
  {
    hide Swaps;
    BlockedFreesMutex(s);
    if !Doomed(s) { BlockedHasWork(s); }
    match s.host {
      case Waiting => step, s' := Pump, s.(host := Checking);
      case Checking => step, s' := CheckDepth, if s.channel.depth == 0 then s.(host := AtSlot) else s.(host := Draining);
      case Draining =>
        step := Drain;
        s' := if s.channel.commands == [] then s.(host := AtSlot)
              else s.(channel := Pop(s.channel).0, host := Running(Pop(s.channel).1));
      case Running(x) => step, s' := Run, s.(ran := s.ran + [x], host := AfterRun(x));
      case Retiring(x) => step, s' := Retire, s.(channel := RetireSwap(s.channel), host := Executed(x));
      case Executed(_) => step, s' := NoteExecuted, s.(host := Draining);
      case AtSlot =>
        step := ReadSlot;
        s' := if s.channel.pending && s.channel.slot.Some? then s.(host := RunningSlot(s.channel.slot.value)) else s.(host := Waiting);
      case RunningSlot(x) => step, s' := RunSlot, s.(ranSlot := s.ranSlot + [x], host := FinishingSlot(x));
      case FinishingSlot(x) => step, s' := FinishSlot, s.(channel := Finish(s.channel, x), host := Waiting);
    }
  }

  lemma PostedSwaps(s: System, throwing: bool)
    requires Sound(s)
    ensures Swaps(s.posted, throwing) == Swaps(s.ran, throwing) + Swaps(Taken(s.host), throwing) + Swaps(s.channel.commands, throwing)
  {
    SwapsConcat(s.ran + Taken(s.host), s.channel.commands, throwing);
    SwapsConcat(s.ran, Taken(s.host), throwing);
  }

  /** Why a guest is blocked: commands are queued or a swap is being retired, or its invocation is pending. */
  lemma BlockedHasWork(s: System)
    requires Sound(s) && Blocked(s) && !Doomed(s)
    ensures s.guest.AwaitRoom? ==> !s.channel.pending && (s.channel.commands != [] || s.host.Running? || s.host.Retiring?)
    ensures s.guest.AwaitDone? ==> s.channel.pending
  {
    PostedSwaps(s, true);
  }

  /** Every host step brings a blocked guest closer, unless it is doomed. */
  lemma HostStepsComeCloser(s: System, step: Step, s': System)
    requires Sound(s) && Blocked(s) && !Doomed(s) && HostStep(step) && Next(s, step, s')
    ensures !Doomed(s') && (!Blocked(s') || Distance(s') < Distance(s))
  {
    hide Swaps;
    BlockedHasWork(s);
    BlockedFreesMutex(s);
  }

  /** Steps of the host only. */
  ghost predicate HostRun(states: seq<System>, steps: seq<Step>) {
    |states| == |steps| + 1 && forall n | 0 <= n < |steps| :: HostStep(steps[n]) && Next(states[n], steps[n], states[n + 1])
  }

  /** As long as only the host moves, a blocked guest that is not doomed is blocked for no more steps than its distance. */
  lemma {:induction false} BlockedGuestIsFreed(states: seq<System>, steps: seq<Step>)
    requires HostRun(states, steps) && Sound(states[0]) && !Doomed(states[0]) && |steps| > Distance(states[0])
    ensures exists n | 0 <= n < |states| :: !Blocked(states[n])
    decreases |steps|
  {
    hide Sound, Next, Blocked, Doomed, Distance;
    if Blocked(states[0]) {
      assert Next(states[0], steps[0], states[0 + 1]);
      StepKeepsSound(states[0], steps[0], states[1]);
      HostStepsComeCloser(states[0], steps[0], states[1]);
      if Blocked(states[1]) {
        var later, tail := states[1..], steps[1..];
        forall n | 0 <= n < |tail| ensures HostStep(tail[n]) && Next(later[n], tail[n], later[n + 1]) {
          var k := n + 1;
          assert HostStep(steps[k]) && Next(states[k], steps[k], states[k + 1]);
        }
        BlockedGuestIsFreed(later, tail);
        var n :| 0 <= n < |later| && !Blocked(later[n]);
        assert !Blocked(states[n + 1]);
      }
    }
  }

  /** A doomed guest is blocked, and no step of either thread changes that. */
  lemma DoomedStaysBlocked(s: System, step: Step, s': System)
    requires Sound(s) && Doomed(s) && Next(s, step, s')
    ensures Blocked(s) && Doomed(s') && Blocked(s')
  {
    hide Swaps;
    StepKeepsSound(s, step, s');
    DoomedIsBlocked(s);
    DoomedIsBlocked(s');
  }

  lemma DoomedIsBlocked(s: System)
    requires Sound(s) && Doomed(s)
    ensures Blocked(s)
  {
    PostedSwaps(s, true);
    FewerThrow(s.channel.commands);
    FewerThrow(Taken(s.host));
  }

  /** The host can go on for any number of steps while the guest is doomed. */
  lemma {:induction false} DoomedRun(s: System, n: nat) returns (states: seq<System>, steps: seq<Step>)
    requires Sound(s) && Doomed(s)
    ensures |steps| == n && HostRun(states, steps) && states[0] == s
    ensures forall k | 0 <= k < |states| :: Blocked(states[k])
    decreases n
  {
    hide Sound, Next, Blocked, Doomed, Swaps;
    DoomedIsBlocked(s);
    if n == 0 {
      states, steps := [s], [];
    } else {
      var step, s' := BlockedGuestLeavesHostAStep(s);
      StepKeepsSound(s, step, s');
      DoomedStaysBlocked(s, step, s');
      var later, tail := DoomedRun(s', n - 1);
      states, steps := [s] + later, [step] + tail;
      forall k | 0 <= k < |steps| ensures HostStep(steps[k]) && Next(states[k], steps[k], states[k + 1]) {
        if k > 0 { assert HostStep(tail[k - 1]) && Next(later[k - 1], tail[k - 1], later[k - 1 + 1]); }
      }
    }
  }

  /** The host alone always frees the guest within the distance exactly when the guest is not doomed. */
  lemma HostFreesGuestUnlessDoomed(s: System)
    requires Sound(s)
    ensures (forall states, steps | HostRun(states, steps) && states[0] == s && |steps| > Distance(s) ::
               exists n | 0 <= n < |states| :: !Blocked(states[n])) <==>
            !Doomed(s)
  {
    hide Sound, Next, Blocked, Doomed, Distance;
    if Doomed(s) {
      var states, steps := DoomedRun(s, Distance(s) + 1);
      assert HostRun(states, steps);
    } else {
      forall states, steps | HostRun(states, steps) && states[0] == s && |steps| > Distance(s)
        ensures exists n | 0 <= n < |states| :: !Blocked(states[n])
      {
        BlockedGuestIsFreed(states, steps);
      }
    }
  }

  /** Posting a swap that will throw and then another one dooms the guest. */
  lemma ThrowingSwapDooms(a: Command, b: Command) returns (states: seq<System>, steps: seq<Step>)
    requires a.swap && a.throws && b.swap
    ensures |states| == |steps| + 1 && Reached(states, steps) && steps == [Post(a), CountPost, Post(b)]
    ensures Doomed(states[3])
  {
    hide Reached;
    StartIsReached();
    OneSwap(a);
    var s1 := START.(channel := Push(FRESH, a), guest := Counting(a), posted := [a]);
    states, steps := Then([START], [], Post(a), s1);
    var s2 := s1.(channel := Counted(s1.channel, a), guest := Free);
    states, steps := Then(states, steps, CountPost, s2);
    states, steps := Then(states, steps, Post(b), s2.(guest := AwaitRoom(b)));
  }

  // ---- The channel object ----

  datatype PostResult = Posted | Refused | MustWait

  /** The backend's half of the channel. Running a command is entering it in the log. */
  class HostChannel {
    var commands: seq<Command>
    var depth: nat
    var swaps: nat
    var pending: bool
    var complete: bool
    var slot: Option<Command>
    var thrown: Option<Command>
    var stopped: bool
    var executed: nat
    var log: seq<Command>

    constructor ()
      ensures Model() == FRESH && !stopped && executed == 0 && log == []
    {
      commands, depth, swaps, pending, complete, slot, thrown := [], 0, 0, false, false, None, None;
      stopped, executed, log := false, 0, [];
    }

    ghost function Model(): Channel
      reads this
    {
      Channel(commands, depth, swaps, pending, complete, slot, thrown)
    }

    /** Post under the mutex: a stopped channel refuses, a full one makes the caller wait. */
    method Post(x: Command) returns (r: PostResult)
      modifies `commands, `depth, `swaps
      ensures r == if !HasRoom(old(Model()), x.swap) && !stopped then MustWait else if stopped then Refused else Posted
      ensures Model() == if r.Posted? then Counted(Push(old(Model()), x), x) else old(Model())
    {
      var room := |commands| < QUEUE_CAPACITY && (!x.swap || swaps < MAX_SWAPS);
      if !room && !stopped { return MustWait; }
      if stopped { return Refused; }
      commands := commands + [x];
      depth := depth + 1;
      if x.swap { swaps := swaps + 1; }
      r := Posted;
    }

    method PopFront() returns (x: Option<Command>)
      requires depth == |commands|
      modifies `commands, `depth
      ensures if old(commands) == [] then x == None && Model() == old(Model())
              else x == Some(Pop(old(Model())).1) && Model() == Pop(old(Model())).0
      ensures depth == |commands|
    {
      if commands == [] { return None; }
      x := Some(commands[0]);
      commands := commands[1..];
      depth := depth - 1;
    }

    /** Run the command; an exception is swallowed, but leaves a swap on the count. */
    method Execute(x: Command)
      modifies `log, `swaps, `executed
      ensures log == old(log) + [x] && executed == old(executed) + 1
      ensures Model() == if x.swap && !x.throws then RetireSwap(old(Model())) else old(Model())
    {
      log := log + [x];
      if x.swap && !x.throws && swaps != 0 { swaps := swaps - 1; }
      executed := executed + 1;
    }

    /** The swaps that are left on the count once the queue is empty. */
    ghost function Leftover(): int
      reads this
    {
      swaps - Swaps(commands, false) + Swaps(commands, true)
    }

    /** Undisturbed, a drain runs every queued command in post order and retires every swap that does not throw. */
    method DrainAsyncCommands()
      requires depth == |commands| && swaps >= Swaps(commands, false)
      modifies `commands, `depth, `swaps, `log, `executed
      ensures commands == [] && depth == 0 && swaps == old(Leftover())
      ensures log == old(log) + old(commands) && executed == old(executed) + |old(commands)|
    {
      if depth == 0 { return; }
      ghost var n := 0;
      while true
        invariant 0 <= n <= |old(commands)| && commands == old(commands)[n..]
        invariant depth == |commands| && swaps >= Swaps(commands, false) && Leftover() == old(Leftover())
        invariant log == old(log) + old(commands)[..n] && executed == old(executed) + n
        decreases |commands|
      {
        var x := PopFront();
        if x == None { break; }
        Execute(x.value);
        n := n + 1;
      }
    }

    /** Undisturbed, a pump runs what was posted and then what is waited on, which is complete afterwards. */
    method PumpHostCommands()
      requires depth == |commands| && swaps >= Swaps(commands, false) && (pending <==> slot.Some?)
      modifies `commands, `depth, `swaps, `log, `executed, `pending, `complete, `slot, `thrown
      ensures old(Leftover()) >= 0
      ensures log == old(log) + old(commands) + if old(slot).Some? then [old(slot).value] else []
      ensures var drained := old(Model()).(commands := [], depth := 0, swaps := old(Leftover()));
              Model() == if old(slot).Some? then Finish(drained, old(slot).value) else drained
    {
      DrainAsyncCommands();
      if !pending { return; }
      var x := slot.value;
      log := log + [x];
      slot, thrown, pending, complete := None, if x.throws then Some(x) else None, false, true;
    }
  }
}
