/** Which slots an inline-cache site gives to targets patched one after the other. */
module SlotTurns {
  import opened Words
  import opened InlineCaches
  import opened InlineCacheChains
  import opened CodeCaches

  /** One guest target and the cache address a transfer to it is to reach. */
  datatype Learn = Learn(t: u32, target: u32)

  /** Patched in order; the cursor goes along with the bytes. */
  function PatchAll(b: seq<u8>, base: u32, s: Site, ls: seq<Learn>): (r: seq<u8>)
    requires Laid(s, |b|)
    ensures |r| == |b|
    decreases |ls|
  {
    if ls == [] then b
    else PatchAll(PatchBytes(b, base, s, ls[0].t, ls[0].target), base, Moved(b, base, s, ls[0].t), ls[1..])
  }

  /** The site with its cursor as a patch for the target leaves it. */
  function Moved(b: seq<u8>, base: u32, s: Site, t: u32): (r: Site)
    requires Laid(s, |b|)
    ensures Laid(r, |b|)
  {
    var r := s.(cursor := CursorAfter(Views(b, base, s), s.cursor, t));
    assert r.slots == s.slots;
    r
  }

  ghost predicate Distinct(ls: seq<Learn>) {
    forall i, j | 0 <= i < j < |ls| :: ls[i].t != ls[j].t
  }

  /** No learned slot holds one of the targets. */
  ghost predicate Unheld(v: seq<View>, ls: seq<Learn>) {
    forall i, j | 0 <= i < |v| && !v[i].Jmp() && 0 <= j < |ls| :: v[i].imm != ls[j].t
  }

  ghost predicate AllReachable(base: u32, s: Site, ls: seq<Learn>) {
    forall i, k | 0 <= i < |s.slots| && 0 <= k < |ls| :: Reachable32(base, s.slots[i], ls[k].target)
  }

  /** Every slot is learned, or the reset ones come last and replacement will begin with slot zero. */
  ghost predicate InTurn(v: seq<View>, cursor: nat) {
    (forall i | 0 <= i < |v| :: !v[i].Jmp()) || (LearnedPrefix(v) && v != [] && cursor % |v| == 0)
  }

  /** The slot `j` turns after slot `k`. */
  function Turn(k: nat, j: nat, n: nat): (r: nat)
    requires k < n && j <= n
    ensures r < n
  {
    if k + j < n then k + j else k + j - n
  }

  /** The slot the next new target goes to. */
  function Next(v: seq<View>, cursor: nat): (r: nat)
    requires v != []
    ensures r < |v|
  {
    if FirstReset(v, 0) < |v| then FirstReset(v, 0) else cursor % |v|
  }

  lemma OneAfter(c: nat, n: nat)
    requires c < n
    ensures (c + 1) % n == (if c + 1 < n then c + 1 else 0) && c % n == c && 0 % n == 0
  {
  }

  /** A new target takes the next slot, and the one after it is next. */
  lemma OneTurn(v: seq<View>, s: Site, last: Patches, l: Learn, w: View)
    requires ChainOk(v, s, last) && InTurn(v, s.cursor) && Unheld(v, [l])
    requires IsPatched(w, s, Chosen(v, s.cursor, l.t), l.t, l.target)
    ensures var k, c' := Next(v, s.cursor), CursorAfter(v, s.cursor, l.t);
            && Chosen(v, s.cursor, l.t) == k
            && InTurn(v[k := w], c') && Next(v[k := w], c') == Turn(k, 1, |v|)
  {
    var held := FirstHolding(v, l.t, 0);
    assert held == |v| by { assert [l][0] == l; }
    var k := Next(v, s.cursor);
    var v' := v[k := w];
    OneAfter(s.cursor % |v|, |v|);
    assert forall i | 0 <= i < |v| && i != k :: v'[i] == v[i];
    if k + 1 < |v| && v[k + 1].Jmp() { assert v'[k + 1].Jmp(); }
  }

  /** Where the targets are afterwards: in turn from slot `k` on, with the other slots as they were. */
  ghost predicate TookTurns(v: seq<View>, v': seq<View>, k: nat, ls: seq<Learn>)
    requires |v'| == |v| && k < |v| && |ls| <= |v|
  {
    && (forall j | 0 <= j < |ls| :: var w := v'[Turn(k, j, |v|)]; !w.Jmp() && w.imm == ls[j].t && w.hit == ls[j].target)
    && (forall j | |ls| <= j < |v| :: v'[Turn(k, j, |v|)] == v[Turn(k, j, |v|)])
  }

  lemma TurnsAddUp(v: seq<View>, v1: seq<View>, v': seq<View>, k: nat, ls: seq<Learn>)
    requires |v'| == |v1| == |v| && k < |v| && 0 < |ls| <= |v|
    requires forall i | 0 <= i < |v| && i != k :: v1[i] == v[i]
    requires !v1[k].Jmp() && v1[k].imm == ls[0].t && v1[k].hit == ls[0].target
    requires TookTurns(v1, v', Turn(k, 1, |v|), ls[1..])
    ensures TookTurns(v, v', k, ls)
  {
    var n, k1 := |v|, Turn(k, 1, |v|);
    assert Turn(k1, n - 1, n) == k;
    forall j | 0 < j < n ensures Turn(k, j, n) == Turn(k1, j - 1, n) != k {}
    forall j | 0 < j < |ls| ensures var w := v'[Turn(k, j, n)]; !w.Jmp() && w.imm == ls[j].t && w.hit == ls[j].target {
      assert ls[1..][j - 1] == ls[j];
      assert Turn(k, j, n) == Turn(k1, j - 1, n);
    }
    forall j | |ls| <= j < n ensures v'[Turn(k, j, n)] == v[Turn(k, j, n)] {
      assert Turn(k, j, n) == Turn(k1, j - 1, n);
    }
  }

  /** At most as many new targets as there are slots take turns, and the chain stays sound. */
  lemma {:induction false} TargetsTakeTurns(b: seq<u8>, base: u32, s: Site, last: Patches, ls: seq<Learn>) returns (last': Patches)
    requires Laid(s, |b|) && ChainOk(Views(b, base, s), s, last) && InTurn(Views(b, base, s), s.cursor)
    requires |ls| <= |s.slots| && Distinct(ls) && Unheld(Views(b, base, s), ls) && AllReachable(base, s, ls)
    ensures var v, v' := Views(b, base, s), Views(PatchAll(b, base, s, ls), base, s);
            ChainOk(v', s, last') && LearnedPrefix(v') && TookTurns(v, v', Next(v, s.cursor), ls)
    decreases |ls|
  {
    hide ViewOf, PatchBytes, Chosen, CursorAfter, Next, Turn, Reachable32, SlotLaid, SlotsApart;
    var v := Views(b, base, s);
    if ls == [] { return last; }
    var l := ls[0];
    var s' := Moved(b, base, s, l.t);
    var b1 := PatchBytes(b, base, s, l.t, l.target);
    var w := PatchBytesViews(b, base, s, l.t, l.target);
    PatchKeepsChain(v, s, last, l.t, l.target, w);
    OneTurn(v, s, last, l, w);
    SameChain(Views(b1, base, s), s, s', last[l.t := l.target]);
    assert Views(b1, base, s') == Views(b1, base, s);
    last' := TargetsTakeTurns(b1, base, s', last[l.t := l.target], ls[1..]);
    var v' := Views(PatchAll(b1, base, s', ls[1..]), base, s');
    assert Views(PatchAll(b, base, s, ls), base, s) == v';
    SameChain(v', s', s, last');
    TurnsAddUp(v, Views(b1, base, s), v', Next(v, s.cursor), ls);
  }

  /** As many new targets as there are slots, patched one after the other, then all hit: none evicts another. */
  lemma NewTargetsAllHit(b: seq<u8>, base: u32, s: Site, last: Patches, ls: seq<Learn>, j: nat)
    requires Laid(s, |b|) && ChainOk(Views(b, base, s), s, last) && InTurn(Views(b, base, s), s.cursor)
    requires j < |ls| <= |s.slots| && Distinct(ls) && Unheld(Views(b, base, s), ls) && AllReachable(base, s, ls)
    ensures Walk(Views(PatchAll(b, base, s, ls), base, s), s, ls[j].t, 0) == JumpedTo(ls[j].target)
  {
    hide ViewOf, PatchAll, Next, Walk, SlotOk, Reachable32, SlotLaid, SlotsApart;
    var v, v' := Views(b, base, s), Views(PatchAll(b, base, s, ls), base, s);
    var last' := TargetsTakeTurns(b, base, s, last, ls);
    var h := Turn(Next(v, s.cursor), j, |v|);
    assert !v'[h].Jmp() && v'[h].imm == ls[j].t && v'[h].hit == ls[j].target;
    WalkHits(v', s, last', ls[j].t, h, 0);
  }

  /** A site as the emitter leaves it, with the cursor at zero, is in turn. */
  lemma FreshInTurn(b: seq<u8>, base: u32, s: Site)
    requires FreshSite(b, base, s) && s.cursor == 0
    ensures ChainOk(Views(b, base, s), s, map[]) && InTurn(Views(b, base, s), s.cursor)
    ensures forall ls: seq<Learn> :: Unheld(Views(b, base, s), ls)
  {
    hide ViewOf;
    assert forall k | 0 <= k < |s.slots| :: SlotOk(Views(b, base, s)[k], s, k, map[]);
    OneAfter(0, |s.slots|);
  }

  // ---- In the cache ----

  lemma PatchMoves(c: Cache, k: nat, l: Learn)
    requires k < |c.sites| && Laid(c.sites[k], |c.bytes|)
    ensures var c', s := PatchOutcome(c, k, l.t, l.target, true), c.sites[k];
            && c'.base == c.base && |c'.sites| == |c.sites| && c'.bytes == PatchBytes(c.bytes, c.base, s, l.t, l.target)
            && c'.sites[k] == Moved(c.bytes, c.base, s, l.t)
  {
    hide PatchBytes, CursorAfter, Views, Laid;
  }

  /** Site `k` patched in the cache for one target after the other. */
  function PatchSiteAll(c: Cache, k: nat, ls: seq<Learn>): (r: Cache)
    requires k < |c.sites| && Laid(c.sites[k], |c.bytes|)
    ensures r.base == c.base && |r.bytes| == |c.bytes| && |r.sites| == |c.sites|
    ensures r.sites[k] == c.sites[k].(cursor := r.sites[k].cursor)
    ensures Laid(r.sites[k], |r.bytes|)
    decreases |ls|
  {
    if ls == [] then c
    else PatchMoves(c, k, ls[0]); PatchSiteAll(PatchOutcome(c, k, ls[0].t, ls[0].target, true), k, ls[1..])
  }

  lemma {:induction false} PatchSiteAllBytes(c: Cache, k: nat, ls: seq<Learn>)
    requires k < |c.sites| && Laid(c.sites[k], |c.bytes|)
    ensures PatchSiteAll(c, k, ls).bytes == PatchAll(c.bytes, c.base, c.sites[k], ls)
    decreases |ls|
  {
    hide PatchOutcome, PatchBytes, Moved, Laid;
    if ls != [] {
      PatchMoves(c, k, ls[0]);
      PatchSiteAllBytes(PatchOutcome(c, k, ls[0].t, ls[0].target, true), k, ls[1..]);
    }
  }

  /** A walk does not look at the cursor. */
  lemma {:induction false} WalkWithoutCursor(v: seq<View>, s: Site, s': Site, t: u32, k: nat)
    requires |v| == |s.slots| && k < |v| && s' == s.(cursor := s'.cursor)
    ensures Walk(v, s', t, k) == Walk(v, s, t, k)
    decreases |v| - k
  {
    if k + 1 < |v| { WalkWithoutCursor(v, s, s', t, k + 1); }
  }

  /** The same in the cache, where the cursor is kept with the site between the patches. */
  lemma NewTargetsAllHitInCache(c: Cache, k: nat, last: Patches, ls: seq<Learn>, j: nat)
    requires k < |c.sites| && Laid(c.sites[k], |c.bytes|)
    requires var s, v := c.sites[k], Views(c.bytes, c.base, c.sites[k]);
             && ChainOk(v, s, last) && InTurn(v, s.cursor)
             && j < |ls| <= |s.slots| && Distinct(ls) && Unheld(v, ls) && AllReachable(c.base, s, ls)
    ensures var c' := PatchSiteAll(c, k, ls);
            Walk(Views(c'.bytes, c'.base, c'.sites[k]), c'.sites[k], ls[j].t, 0) == JumpedTo(ls[j].target)
  {
    hide ViewOf, Walk, PatchAll, PatchSiteAll, ChainOk, InTurn, Distinct, Unheld, AllReachable, SlotLaid, SlotsApart;
    var c', s := PatchSiteAll(c, k, ls), c.sites[k];
    PatchSiteAllBytes(c, k, ls);
    NewTargetsAllHit(c.bytes, c.base, s, last, ls, j);
    assert Views(c'.bytes, c'.base, c'.sites[k]) == Views(c'.bytes, c'.base, s);
    WalkWithoutCursor(Views(c'.bytes, c'.base, s), s, c'.sites[k], ls[j].t, 0);
  }
}
