/**
 Host copies of the two colour buffers, kept so that a frame-buffer lock need not read the GPU back. A
 copy is dropped whenever a dispatched gate may have changed the buffer it stands for.
 */
module LfbShadows {
  import opened Words

  const BUFFERS: u32 := 2
  const MAX_SHADOW_BYTES: int := 0x200_0000

  /** The gates by what they do; every gate nobody classified is an `OtherGate`. */
  datatype Gate =
    | BufferSwap
    | LfbLock
    | LfbUnlock
    | Query
    | Selection
    | PipelineState
    | FogState
    | TextureState
    | LfbConstant
    | BufferClear
    | Draw
    | Region
    | OtherGate

  /** Gates that leave every pixel of the frame buffer and the encoding of a lock alone; a swap only exchanges the buffers. */
  predicate Preserves(g: Gate) {
    match g
    case BufferSwap => true
    case LfbLock => true
    case LfbUnlock => true
    case Query => true
    case Selection => true
    case PipelineState => true
    case FogState => true
    case TextureState => true
    case LfbConstant => true
    case _ => false
  }

  datatype Reason = SwapGate | DrawGate | ClearGate | RegionGate | AnyGate

  function Classify(g: Gate): Reason {
    match g
    case BufferSwap => SwapGate
    case BufferClear => ClearGate
    case Draw => DrawGate
    case Region => RegionGate
    case _ => AnyGate
  }

  predicate RenderBufferOnly(g: Gate) {
    Classify(g).DrawGate? || Classify(g).ClearGate?
  }

  datatype Shadow = Shadow(valid: bool, format: u32, width: u32, height: u32, pixels: seq<u8>)

  const NO_SHADOW := Shadow(false, 0, 0, 0, [])

  /** The bytes of a 565 surface, or zero when the dimensions cannot be stored. */
  function ByteCount(width: u32, height: u32): nat {
    var required := width * height * 2;
    if width == 0 || height == 0 || required > MAX_SHADOW_BYTES then 0 else required
  }

  datatype Shadows = Shadows(front: Shadow, back: Shadow, render: u32)

  function Buffer(s: Shadows, b: u32): Shadow
    requires b < BUFFERS
  {
    if b == 0 then s.front else s.back
  }

  function WithBuffer(s: Shadows, b: u32, x: Shadow): Shadows
    requires b < BUFFERS
  {
    if b == 0 then s.(front := x) else s.(back := x)
  }

  function Dropped(s: Shadows, b: u32): Shadows {
    if b < BUFFERS then WithBuffer(s, b, Buffer(s, b).(valid := false)) else s
  }

  function AfterGate(s: Shadows, g: Gate): Shadows {
    if g.BufferSwap? then s.(front := s.back, back := s.front)
    else if Preserves(g) then s
    else if RenderBufferOnly(g) then Dropped(s, s.render)
    else Dropped(Dropped(s, 0), 1)
  }

  predicate Reusable(s: Shadows, b: u32, format: u32, width: u32, height: u32) {
    && b < BUFFERS && Buffer(s, b).valid && ByteCount(width, height) != 0
    && |Buffer(s, b).pixels| == ByteCount(width, height)
    && Buffer(s, b).format == format && Buffer(s, b).width == width && Buffer(s, b).height == height
  }

  /** Take the surface as the new contents of the buffer; one that does not fit drops the copy instead. */
  function Stored(s: Shadows, b: u32, pixels: seq<u8>, format: u32, width: u32, height: u32, storage: bool): Shadows {
    var required := ByteCount(width, height);
    if b >= BUFFERS then Dropped(Dropped(s, 0), 1)
    else if required == 0 || required > |pixels| || !storage then Dropped(s, b)
    else WithBuffer(s, b, Shadow(true, format, width, height, pixels[..required]))
  }

  /** The shadow set as the source keeps it, one slot per buffer. */
  class ShadowSet {
    const buffers: array<Shadow>
    var render: u32

    constructor ()
      ensures Valid() && fresh(buffers) && Model() == Shadows(NO_SHADOW, NO_SHADOW, 1)
    {
      buffers := new Shadow[2](_ => NO_SHADOW);
      render := 1;
    }

    ghost predicate Valid()
      reads this
    {
      buffers.Length == 2 && render < BUFFERS
    }

    ghost function Model(): Shadows
      requires Valid()
      reads this, buffers
    {
      Shadows(buffers[0], buffers[1], render)
    }

    method SetRenderBuffer(b: u32)
      requires Valid()
      modifies `render
      ensures Valid() && Model() == old(Model()).(render := if b < BUFFERS then b else old(render))
    {
      if b < BUFFERS { render := b; }
    }

    method InvalidateBuffer(b: u32)
      requires Valid()
      modifies buffers
      ensures Model() == Dropped(old(Model()), b)
    {
      if b >= BUFFERS || !buffers[b].valid { return; }
      buffers[b] := buffers[b].(valid := false);
    }

    method InvalidateAll()
      requires Valid()
      modifies buffers
      ensures Model() == Dropped(Dropped(old(Model()), 0), 1)
    {
      InvalidateBuffer(0);
      InvalidateBuffer(1);
    }

    method ApplyGate(g: Gate)
      requires Valid()
      modifies buffers
      ensures Model() == AfterGate(old(Model()), g)
    {
      if g == BufferSwap {
        buffers[0], buffers[1] := buffers[1], buffers[0];
      } else if Preserves(g) {
      } else if RenderBufferOnly(g) {
        InvalidateBuffer(render);
      } else {
        InvalidateAll();
      }
    }

    method CanReuse(b: u32, format: u32, width: u32, height: u32) returns (r: bool)
      requires Valid()
      ensures r == Reusable(Model(), b, format, width, height)
    {
      if b >= BUFFERS { return false; }
      var x := buffers[b];
      var required := ByteCount(width, height);
      r := x.valid && required != 0 && |x.pixels| == required && x.format == format && x.width == width && x.height == height;
    }

    /** Copy the shadow over the beginning of the surface, if it can serve it. */
    method Load(b: u32, surface: array<u8>, format: u32, width: u32, height: u32) returns (r: bool)
      requires Valid()
      modifies surface
      ensures r == (Reusable(Model(), b, format, width, height) && ByteCount(width, height) <= surface.Length)
      ensures surface[..] == if r then Put(old(surface[..]), 0, Buffer(Model(), b).pixels) else old(surface[..])
    {
      var reusable := CanReuse(b, format, width, height);
      if !reusable || |buffers[b].pixels| > surface.Length { return false; }
      var pixels := buffers[b].pixels;
      forall k | 0 <= k < |pixels| { surface[k] := pixels[k]; }
      assert surface[..] == Put(old(surface[..]), 0, pixels);
      r := true;
    }

    method Store(b: u32, pixels: seq<u8>, format: u32, width: u32, height: u32, storage: bool)
      requires Valid()
      modifies buffers
      ensures Model() == Stored(old(Model()), b, pixels, format, width, height, storage)
    {
      if b >= BUFFERS {
        InvalidateAll();
        return;
      }
      var required := ByteCount(width, height);
      if required == 0 || required > |pixels| || !storage {
        InvalidateBuffer(b);
        return;
      }
      buffers[b] := Shadow(true, format, width, height, pixels[..required]);
    }
  }

  // ---- The GPU beside its shadows ----

  /** What a colour buffer holds, and how a full-surface readback of it in some encoding looks. */
  type Content = int
  type Readback = (Content, u32, u32, u32) -> seq<u8>

  datatype Gpu = Gpu(front: Content, back: Content)

  function Held(g: Gpu, b: u32): Content
    requires b < BUFFERS
  {
    if b == 0 then g.front else g.back
  }

  /**
   What happens to the buffers and their copies. `swaps` says whether a swap gate comes with a swap: one that is
   declined, or entered again after a timer tick while its swap is waited out, does not, nor does one whose posted
   swap is overtaken and comes late. `drawn` is what an unlock draws on the back buffer; a failed present may have
   drawn nothing.
   */
  datatype Step =
    | Dispatch(gate: Gate, swaps: bool)
    | LateSwap
    | Target(buffer: u32)
    | Unlock(buffer: u32, pixels: seq<u8>, format: u32, width: u32, height: u32, presented: bool, flipped: bool, storage: bool,
             drawn: Option<Content>)

  /** At most the buffer that is rendered to changes. */
  ghost predicate OnlyRendered(render: u32, g: Gpu, g': Gpu) {
    (render != 0 ==> g'.front == g.front) && (render != 1 ==> g'.back == g.back)
  }

  /** What the GPU does: a swap exchanges, drawing changes the render buffer, a region or an unknown gate anything, the rest nothing. */
  ghost predicate GpuAfterGate(render: u32, g: Gpu, gate: Gate, swaps: bool, g': Gpu) {
    match gate
    case BufferSwap => g' == if swaps then Gpu(g.back, g.front) else g
    case Draw => OnlyRendered(render, g, g')
    case BufferClear => OnlyRendered(render, g, g')
    case Region => true
    case OtherGate => true
    case LfbLock => g' == g
    case LfbUnlock => g' == g
    case Query => g' == g
    case Selection => g' == g
    case PipelineState => g' == g
    case FogState => g' == g
    case TextureState => g' == g
    case LfbConstant => g' == g
  }

  /** A surface is always drawn on the back buffer; for the front buffer the two are then exchanged. */
  function Presented(g: Gpu, b: u32, drawn: Option<Content>): Gpu {
    match drawn
    case None => g
    case Some(c) => if b == 0 then Gpu(c, g.front) else Gpu(g.front, c)
  }

  /** A presented surface has been drawn; upright, a readback in the encoding of the lock gives it back. */
  ghost predicate Draws(view: Readback, step: Step)
    requires step.Unlock?
  {
    && (step.presented ==> step.drawn.Some?)
    && (step.presented && !step.flipped && 0 < ByteCount(step.width, step.height) <= |step.pixels| ==>
          view(step.drawn.value, step.format, step.width, step.height) == step.pixels[..ByteCount(step.width, step.height)])
  }

  ghost predicate Next(view: Readback, s: Shadows, g: Gpu, step: Step, s': Shadows, g': Gpu) {
    match step
    case Dispatch(gate, swaps) => GpuAfterGate(s.render, g, gate, swaps, g') && s' == AfterGate(s, gate)
    case LateSwap => g' == Gpu(g.back, g.front) && s' == s
    case Target(b) => g' == g && s' == s.(render := if b < BUFFERS then b else s.render)
    case Unlock(b, pixels, format, width, height, presented, flipped, storage, drawn) =>
      && b < BUFFERS && Draws(view, step) && g' == Presented(g, b, drawn)
      && s' == if presented && !flipped then Stored(s, b, pixels, format, width, height, storage) else Dropped(s, b)
  }

  /** A valid copy is what a readback of its buffer gives. */
  ghost predicate Faithful(view: Readback, x: Shadow, c: Content) {
    x.valid ==> x.pixels == view(c, x.format, x.width, x.height)
  }

  ghost predicate AllFaithful(view: Readback, s: Shadows, g: Gpu) {
    s.render < BUFFERS && Faithful(view, s.front, g.front) && Faithful(view, s.back, g.back)
  }

  /**
   The copies follow the buffers: an unlock of the front buffer, which leaves the old front in the back buffer, finds
   a back copy that fits it, and a swap gate without a swap, or a swap without a gate, finds copies that fit either way.
   */
  ghost predicate Follows(view: Readback, s: Shadows, g: Gpu, step: Step) {
    match step
    case Dispatch(gate, swaps) =>
      gate.BufferSwap? && !swaps ==> Faithful(view, s.back, g.front) && Faithful(view, s.front, g.back)
    case LateSwap => Faithful(view, s.back, g.front) && Faithful(view, s.front, g.back)
    case Target(_) => true
    case Unlock(b, _, _, _, _, _, _, _, drawn) => b == 0 && drawn.Some? ==> Faithful(view, s.back, g.front)
  }

  /** A step keeps both copies faithful exactly when they follow the buffers. */
  lemma StepKeepsFaithful(view: Readback, s: Shadows, g: Gpu, step: Step, s': Shadows, g': Gpu)
    requires AllFaithful(view, s, g) && Next(view, s, g, step, s', g')
    ensures AllFaithful(view, s', g') <==> Follows(view, s, g, step)
  {
    hide ByteCount;
  }

  ghost predicate Run(view: Readback, s: seq<Shadows>, g: seq<Gpu>, steps: seq<Step>) {
    && |s| == |g| == |steps| + 1 && AllFaithful(view, s[0], g[0])
    && forall k | 0 <= k < |steps| :: Next(view, s[k], g[k], steps[k], s[k + 1], g[k + 1])
  }

  /** Over any sequence of gates, target changes and unlocks the copies are faithful all along exactly when they follow the buffers. */
  lemma {:induction false} CopiesStayFaithful(view: Readback, s: seq<Shadows>, g: seq<Gpu>, steps: seq<Step>, n: nat)
    requires Run(view, s, g, steps) && n < |s|
    ensures (forall k | 0 <= k <= n :: AllFaithful(view, s[k], g[k])) <==>
            forall k | 0 <= k < n :: Follows(view, s[k], g[k], steps[k])
    decreases n
  {
    hide Next, AllFaithful, Follows;
    if n > 0 {
      CopiesStayFaithful(view, s, g, steps, n - 1);
      assert Next(view, s[n - 1], g[n - 1], steps[n - 1], s[n - 1 + 1], g[n - 1 + 1]);
      if AllFaithful(view, s[n - 1], g[n - 1]) {
        StepKeepsFaithful(view, s[n - 1], g[n - 1], steps[n - 1], s[n], g[n]);
      }
    }
  }

  /** As long as the copies follow the buffers, a reusable copy is what a readback of its buffer would load. */
  lemma ReusedLockLoadsTheBuffer(view: Readback, s: seq<Shadows>, g: seq<Gpu>, steps: seq<Step>,
                                 b: u32, format: u32, width: u32, height: u32, n: nat)
    requires Run(view, s, g, steps) && n < |s| && forall k | 0 <= k < n :: Follows(view, s[k], g[k], steps[k])
    requires Reusable(s[n], b, format, width, height)
    ensures Buffer(s[n], b).pixels == view(Held(g[n], b), format, width, height)
  {
    hide Next, ByteCount, Follows;
    CopiesStayFaithful(view, s, g, steps, n);
    assert AllFaithful(view, s[n], g[n]);
  }

  /** Whatever the buffers hold, the gate leaves this one as it is. */
  ghost predicate LeavesBuffer(render: u32, gate: Gate, b: u32)
    requires b < BUFFERS
  {
    forall g, g' | GpuAfterGate(render, g, gate, true, g') :: Held(g', b) == Held(g, b)
  }

  lemma WhichBuffersChange(render: u32, gate: Gate, b: u32)
    requires render < BUFFERS && b < BUFFERS
    ensures LeavesBuffer(render, gate, b) <==>
            !gate.BufferSwap? && !gate.Region? && !gate.OtherGate? && (gate.Draw? || gate.BufferClear? ==> b != render)
  {
    var g, g' := Gpu(0, 1), if gate.BufferSwap? then Gpu(1, 0) else if b == 0 then Gpu(2, 1) else Gpu(0, 2);
    assert Held(g', b) != Held(g, b);
    assert gate.BufferSwap? || gate.Region? || gate.OtherGate? || ((gate.Draw? || gate.BufferClear?) && b == render) ==>
      GpuAfterGate(render, g, gate, true, g');
  }

  /** A gate drops a copy only if it may change the buffer; a swap drops none and hands each over. */
  lemma DropsOnlyWhatMayChange(s: Shadows, gate: Gate, b: u32)
    requires s.render < BUFFERS && b < BUFFERS
    ensures gate.BufferSwap? ==> Buffer(AfterGate(s, gate), b) == Buffer(s, 1 - b)
    ensures !gate.BufferSwap? ==>
              Buffer(AfterGate(s, gate), b) == Buffer(s, b).(valid := Buffer(s, b).valid && LeavesBuffer(s.render, gate, b))
  {
    WhichBuffersChange(s.render, gate, b);
  }

  /** A stored surface can be reused under its encoding exactly when it fits, and the other buffer's copy is left alone. */
  lemma StoredIsReusable(s: Shadows, b: u32, pixels: seq<u8>, format: u32, width: u32, height: u32, storage: bool)
    requires b < BUFFERS
    ensures var s' := Stored(s, b, pixels, format, width, height, storage);
            && (Reusable(s', b, format, width, height) <==>
                  width != 0 && height != 0 && width * height * 2 <= |pixels| && width * height * 2 <= 0x200_0000 && storage)
            && Buffer(s', 1 - b) == Buffer(s, 1 - b) && s'.render == s.render
  {
  }

  // ---- Which steps are safe whatever the buffers hold ----

  /** What the host can see of the copies: none could be left behind, or the two are the same. */
  predicate Harmless(s: Shadows, step: Step) {
    match step
    case Dispatch(gate, swaps) => gate.BufferSwap? && !swaps ==> (!s.front.valid && !s.back.valid) || s.front == s.back
    case LateSwap => (!s.front.valid && !s.back.valid) || s.front == s.back
    case Target(_) => true
    case Unlock(b, _, _, _, _, _, _, _, drawn) => b == 0 && drawn.Some? ==> !s.back.valid || s.front == s.back
  }

  /** Some pixels other than these. */
  function OtherThan(pixels: seq<u8>): (r: seq<u8>)
    ensures r != pixels
  {
    if pixels == [] then [0] else pixels[0 := if pixels[0] == 0 then 1 else 0]
  }

  /** A readback that gives the surface for what is drawn, and for the other two contents what the copies hold and nothing else. */
  function SeenApart(s: Shadows, step: Step, front: Content, back: Content): Readback {
    (c: Content, format: u32, width: u32, height: u32) =>
      if c == front then Shown(s.front, s.back, format, width, height)
      else if c == back then Shown(s.back, s.front, format, width, height)
      else if step.Unlock? && 0 < ByteCount(step.width, step.height) <= |step.pixels| then step.pixels[..ByteCount(step.width, step.height)]
      else []
  }

  /** A buffer with copy `x` in the encoding of the copy, and in any other one not what the other buffer shows. */
  function Shown(x: Shadow, other: Shadow, format: u32, width: u32, height: u32): seq<u8> {
    if x.valid && format == x.format && width == x.width && height == x.height then x.pixels else OtherThan(other.pixels)
  }

  lemma SeenAt(s: Shadows, step: Step, front: Content, back: Content, format: u32, width: u32, height: u32)
    requires front != back
    ensures SeenApart(s, step, front, back)(front, format, width, height) == Shown(s.front, s.back, format, width, height)
    ensures SeenApart(s, step, front, back)(back, format, width, height) == Shown(s.back, s.front, format, width, height)
  {
  }

  /** A step keeps faithful copies faithful whatever the buffers hold exactly when it is harmless. */
  lemma FaithfulWhateverIsShown(s: Shadows, step: Step)
    requires s.render < BUFFERS
    requires step.Unlock? ==> step.buffer < BUFFERS && (step.presented ==> step.drawn.Some?)
    ensures (forall view, g, s', g' | AllFaithful(view, s, g) && Next(view, s, g, step, s', g') :: AllFaithful(view, s', g')) <==>
            Harmless(s, step)
  {
    hide ByteCount, Next;
    if Harmless(s, step) {
      forall view, g, s', g' | AllFaithful(view, s, g) && Next(view, s, g, step, s', g') ensures AllFaithful(view, s', g') {
        StepKeepsFaithful(view, s, g, step, s', g');
      }
    } else {
      HarmfulStep(s, step);
    }
  }

  /** A harmful step, with contents for which it leaves a copy behind. */
  lemma HarmfulStep(s: Shadows, step: Step)
    requires s.render < BUFFERS && !Harmless(s, step)
    requires step.Unlock? ==> step.buffer < BUFFERS && (step.presented ==> step.drawn.Some?)
    ensures exists view, g, s', g' :: AllFaithful(view, s, g) && Next(view, s, g, step, s', g') && !AllFaithful(view, s', g')
  {
    hide ByteCount, OtherThan;
    var d := if step.Unlock? && step.drawn.Some? then step.drawn.value else 0;
    var g := Gpu(d + 1, d + 2);
    var view := SeenApart(s, step, g.front, g.back);
    var s', g' := if step.LateSwap? then s
                  else if step.Dispatch? then AfterGate(s, step.gate)
                  else if step.presented && !step.flipped
                  then Stored(s, 0, step.pixels, step.format, step.width, step.height, step.storage) else Dropped(s, 0),
                  if step.LateSwap? then Gpu(g.back, g.front) else if step.Dispatch? then g else Presented(g, 0, step.drawn);
    SeenAt(s, step, g.front, g.back, s.front.format, s.front.width, s.front.height);
    SeenAt(s, step, g.front, g.back, s.back.format, s.back.width, s.back.height);
    assert AllFaithful(view, s, g);
    assert Next(view, s, g, step, s', g');
    StepKeepsFaithful(view, s, g, step, s', g');
    assert !Follows(view, s, g, step);
  }

  /** From the start: an unlock of the back buffer and one of the front buffer leave a reusable back copy that is not what is there. */
  lemma FrontUnlockLeavesBackBehind(view: Readback, start: Content, first: Content, second: Content, format: u32, width: u32, height: u32)
    returns (s: seq<Shadows>, g: seq<Gpu>, steps: seq<Step>)
    requires 0 < ByteCount(width, height) == |view(first, format, width, height)| == |view(second, format, width, height)|
    requires view(start, format, width, height) != view(first, format, width, height)
    ensures |s| == |g| == |steps| + 1 && Run(view, s, g, steps)
    ensures s[0] == Shadows(NO_SHADOW, NO_SHADOW, 1) && g[0] == Gpu(start, start)
    ensures steps == [Unlock(1, view(first, format, width, height), format, width, height, true, false, true, Some(first)),
                      Unlock(0, view(second, format, width, height), format, width, height, true, false, true, Some(second))]
    ensures Reusable(s[2], 1, format, width, height)
    ensures Buffer(s[2], 1).pixels != view(Held(g[2], 1), format, width, height)
  {
    hide ByteCount;
    var n := ByteCount(width, height);
    var p, q := view(first, format, width, height), view(second, format, width, height);
    assert p[..n] == p && q[..n] == q;
    var s1 := Stored(Shadows(NO_SHADOW, NO_SHADOW, 1), 1, p, format, width, height, true);
    var s2 := Stored(s1, 0, q, format, width, height, true);
    s := [Shadows(NO_SHADOW, NO_SHADOW, 1), s1, s2];
    g := [Gpu(start, start), Gpu(start, first), Gpu(second, start)];
    steps := [Unlock(1, p, format, width, height, true, false, true, Some(first)),
              Unlock(0, q, format, width, height, true, false, true, Some(second))];
    assert Next(view, s[0], g[0], steps[0], s[1], g[1]) && Next(view, s[1], g[1], steps[1], s[2], g[2]);
  }

  /** From the start: an unlock and a swap whose gate is entered twice leave a reusable back copy of what is in front. */
  lemma ReenteredSwapTurnsCopies(view: Readback, start: Content, first: Content, format: u32, width: u32, height: u32)
    returns (s: seq<Shadows>, g: seq<Gpu>, steps: seq<Step>)
    requires 0 < ByteCount(width, height) == |view(first, format, width, height)|
    requires view(start, format, width, height) != view(first, format, width, height)
    ensures |s| == |g| == |steps| + 1 && Run(view, s, g, steps)
    ensures s[0] == Shadows(NO_SHADOW, NO_SHADOW, 1) && g[0] == Gpu(start, start)
    ensures steps == [Unlock(1, view(first, format, width, height), format, width, height, true, false, true, Some(first)),
                      Dispatch(BufferSwap, true), Dispatch(BufferSwap, false)]
    ensures Reusable(s[3], 1, format, width, height)
    ensures Buffer(s[3], 1).pixels != view(Held(g[3], 1), format, width, height)
  {
    hide ByteCount;
    var p := view(first, format, width, height);
    assert p[..ByteCount(width, height)] == p;
    var s1 := Stored(Shadows(NO_SHADOW, NO_SHADOW, 1), 1, p, format, width, height, true);
    s := [Shadows(NO_SHADOW, NO_SHADOW, 1), s1, AfterGate(s1, BufferSwap), s1];
    g := [Gpu(start, start), Gpu(start, first), Gpu(first, start), Gpu(first, start)];
    steps := [Unlock(1, p, format, width, height, true, false, true, Some(first)), Dispatch(BufferSwap, true), Dispatch(BufferSwap, false)];
    assert Next(view, s[0], g[0], steps[0], s[1], g[1]) && Next(view, s[1], g[1], steps[1], s[2], g[2]);
    assert Next(view, s[2], g[2], steps[2], s[3], g[3]);
  }

  // ---- What the lock would have loaded otherwise ----

  /** Without reuse a lock is seeded from the back buffer, whichever buffer it names. */
  function Seed(view: Readback, g: Gpu, format: u32, width: u32, height: u32): seq<u8> {
    view(g.back, format, width, height)
  }

  /** For the back buffer, reusing the copy and seeding from the GPU load the same pixels. */
  lemma BackLockReusesTheSeed(view: Readback, s: Shadows, g: Gpu, format: u32, width: u32, height: u32)
    requires AllFaithful(view, s, g) && Reusable(s, 1, format, width, height)
    ensures Buffer(s, 1).pixels == Seed(view, g, format, width, height)
  {
    hide ByteCount;
  }

  /** From the start: presented to the back and swapped, the copy moves to the front and the seed of a front lock does not. */
  lemma FrontLockReusesAnotherSeed(view: Readback, shown: Content, other: Content, format: u32, width: u32, height: u32)
    returns (s: seq<Shadows>, g: seq<Gpu>, steps: seq<Step>)
    requires 0 < ByteCount(width, height) == |view(shown, format, width, height)|
    requires view(shown, format, width, height) != view(other, format, width, height)
    ensures |s| == |g| == |steps| + 1 && Run(view, s, g, steps)
    ensures s[0] == Shadows(NO_SHADOW, NO_SHADOW, 1) && g[0] == Gpu(other, other)
    ensures steps == [Unlock(1, view(shown, format, width, height), format, width, height, true, false, true, Some(shown)),
                      Dispatch(BufferSwap, true)]
    ensures AllFaithful(view, s[2], g[2]) && Reusable(s[2], 0, format, width, height)
    ensures Buffer(s[2], 0).pixels != Seed(view, g[2], format, width, height)
  {
    hide ByteCount;
    var p := view(shown, format, width, height);
    assert p[..ByteCount(width, height)] == p;
    var s1 := Stored(Shadows(NO_SHADOW, NO_SHADOW, 1), 1, p, format, width, height, true);
    s := [Shadows(NO_SHADOW, NO_SHADOW, 1), s1, AfterGate(s1, BufferSwap)];
    g := [Gpu(other, other), Gpu(other, shown), Gpu(shown, other)];
    steps := [Unlock(1, p, format, width, height, true, false, true, Some(shown)), Dispatch(BufferSwap, true)];
    assert Next(view, s[0], g[0], steps[0], s[1], g[1]) && Next(view, s[1], g[1], steps[1], s[2], g[2]);
  }

  /** A readback of the right size that tells content zero from all others. */
  function TwoTone(): Readback {
    (c: Content, format: u32, width: u32, height: u32) => seq<u8>(ByteCount(width, height), _ => if c == 0 then 0 else 1)
  }

  lemma TwoToneTells(format: u32, width: u32, height: u32)
    requires ByteCount(width, height) != 0
    ensures |TwoTone()(1, format, width, height)| == ByteCount(width, height)
    ensures TwoTone()(1, format, width, height) != TwoTone()(0, format, width, height)
  {
    hide ByteCount;
    assert TwoTone()(1, format, width, height)[0] != TwoTone()(0, format, width, height)[0];
  }

  /** Reuse loads the seed for all readbacks, faithful copies and contents exactly when the lock names the back buffer. */
  lemma ReuseIsTheSeedForBackLocksOnly(b: u32, format: u32, width: u32, height: u32)
    requires b < BUFFERS && ByteCount(width, height) != 0
    ensures (forall view, s, g | AllFaithful(view, s, g) && Reusable(s, b, format, width, height) ::
               Buffer(s, b).pixels == Seed(view, g, format, width, height)) <==>
            b == 1
  {
    hide ByteCount, TwoTone, AllFaithful, Reusable, Seed, Run;
    if b == 1 {
      forall view, s, g | AllFaithful(view, s, g) && Reusable(s, b, format, width, height)
        ensures Buffer(s, b).pixels == Seed(view, g, format, width, height)
      {
        BackLockReusesTheSeed(view, s, g, format, width, height);
      }
    } else {
      TwoToneTells(format, width, height);
      var s, g, steps := FrontLockReusesAnotherSeed(TwoTone(), 1, 0, format, width, height);
      assert AllFaithful(TwoTone(), s[2], g[2]) && Reusable(s[2], b, format, width, height);
    }
  }
}
