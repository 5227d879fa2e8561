/** Relinking stale heads one by one: what has been rewritten so far, until every stale head jumps. */
module Relinking {
  import opened Words
  import opened InlineCaches
  import opened CodeCaches
  import opened Retirement

  /** The stale head of the pair jumps to its fresh entry. */
  ghost predicate JumpsTo(c: Cache, img: Image, guestEntry: u32, p: (nat, nat), b: seq<u8>)
    requires Sound(c) && LaidOut(|img.bytes|, img.entries, img.sites) && |c.bytes| + |img.bytes| <= MAX_CACHE
    requires |b| == |c.bytes|
  {
    && p.0 < |c.entries| && p.1 < |img.entries| && Relinks(c, img, guestEntry, p.0, p.1)
    && b[c.entries[p.0].off..c.entries[p.0].off + 5] == Jump(c.entries[p.0].off, |c.bytes| + img.entries[p.1].off)
  }

  ghost predicate InHead(c: Cache, done: set<(nat, nat)>, x: int) {
    exists p <- done :: p.0 < |c.entries| && c.entries[p.0].off <= x < c.entries[p.0].off + 5
  }

  /** The stale heads of the pairs in `done` jump to their fresh entries, every other byte is as before. */
  ghost predicate RelinkedSoFar(c: Cache, img: Image, guestEntry: u32, done: set<(nat, nat)>, b: seq<u8>)
    requires Sound(c) && LaidOut(|img.bytes|, img.entries, img.sites) && |c.bytes| + |img.bytes| <= MAX_CACHE
  {
    && |b| == |c.bytes|
    && (forall p <- done :: JumpsTo(c, img, guestEntry, p, b))
    && (forall x | 0 <= x < |b| && b[x] != c.bytes[x] :: InHead(c, done, x))
  }

  lemma NothingRelinked(c: Cache, img: Image, guestEntry: u32)
    requires Sound(c) && LaidOut(|img.bytes|, img.entries, img.sites) && |c.bytes| + |img.bytes| <= MAX_CACHE
    ensures RelinkedSoFar(c, img, guestEntry, {}, c.bytes)
  {
    hide Sound, LaidOut;
  }

  /** The heads of two different entries share no byte. */
  lemma HeadsApart(c: Cache, i: nat, k: nat)
    requires LaidOut(|c.bytes|, c.entries, c.sites) && i < |c.entries| && k < |c.entries| && i != k
    requires c.entries[i].elen >= 5 && c.entries[k].elen >= 5
    ensures Apart(c.entries[i].off, 5, c.entries[k].off, 5)
    ensures c.entries[i].off + 5 <= |c.bytes| && c.entries[k].off + 5 <= |c.bytes|
  {
    hide SitesApart, SlotSparesEntry, Laid;
    var lower, upper := c.entries[if i < k then i else k], c.entries[if i < k then k else i];
    assert lower.off + lower.elen <= upper.off;
  }

  /** A stale entry has one fresh entry at most. */
  lemma FreshIsUnique(c: Cache, img: Image, guestEntry: u32, k: nat, j: nat, j': nat)
    requires |c.states| == |c.entries| && ImageLaidOut(img) && k < |c.entries| && j < |img.entries| && j' < |img.entries|
    requires Relinks(c, img, guestEntry, k, j) && Relinks(c, img, guestEntry, k, j')
    ensures j == j'
  {
    hide LaidOut, Activates;
  }

  lemma FreshFits(c: Cache, img: Image)
    requires LaidOut(|img.bytes|, img.entries, img.sites) && |c.bytes| + |img.bytes| <= MAX_CACHE
    ensures forall j | 0 <= j < |img.entries| :: |c.bytes| + img.entries[j].off < WORD
  {
    hide Laid, SitesApart, SlotSparesEntry;
  }

  /** A stale head is long and lies inside the old bytes. */
  lemma StaleHead(c: Cache, img: Image, guestEntry: u32, k: nat, j: nat)
    requires Sound(c) && k < |c.entries| && j < |img.entries| && Relinks(c, img, guestEntry, k, j)
    ensures c.entries[k].elen >= 5 && c.entries[k].off + 5 <= |c.bytes|
  {
    hide Activates, Disciplined, Laid, SitesApart, SlotSparesEntry;
  }

  /** Writing one head leaves the jump of every other head. */
  lemma JumpsStill(c: Cache, img: Image, guestEntry: u32, b: seq<u8>, k: nat, j: nat, p: (nat, nat))
    requires Sound(c) && ImageLaidOut(img) && |c.bytes| + |img.bytes| <= MAX_CACHE && |b| == |c.bytes|
    requires k < |c.entries| && j < |img.entries| && Relinks(c, img, guestEntry, k, j)
    requires JumpsTo(c, img, guestEntry, p, b) || p == (k, j)
    ensures c.entries[k].off + 5 <= |b| && |c.bytes| + img.entries[j].off < WORD
    ensures JumpsTo(c, img, guestEntry, p, Put(b, c.entries[k].off, Jump(c.entries[k].off, |c.bytes| + img.entries[j].off)))
  {
    hide Put, Jump, Relinks, Sound, LaidOut, Apart;
    StaleHead(c, img, guestEntry, k, j);
    SoundIsLaidOut(c);
    FreshFits(c, img);
    var at: nat := c.entries[k].off;
    var jump := Jump(at, |c.bytes| + img.entries[j].off);
    if p.0 == k {
      FreshIsUnique(c, img, guestEntry, k, j, p.1);
      PutReads(b, at, jump);
    } else {
      StaleHead(c, img, guestEntry, p.0, p.1);
      HeadsApart(c, p.0, k);
      PutKeeps(b, at, jump, c.entries[p.0].off, 5);
    }
  }

  lemma RelinkOneMore(c: Cache, img: Image, guestEntry: u32, done: set<(nat, nat)>, b: seq<u8>, k: nat, j: nat)
    requires Sound(c) && ImageLaidOut(img) && |c.bytes| + |img.bytes| <= MAX_CACHE
    requires RelinkedSoFar(c, img, guestEntry, done, b)
    requires k < |c.entries| && j < |img.entries| && Relinks(c, img, guestEntry, k, j)
    ensures c.entries[k].off + 5 <= |b| && |c.bytes| + img.entries[j].off < WORD
    ensures RelinkedSoFar(c, img, guestEntry, done + {(k, j)}, Put(b, c.entries[k].off, Jump(c.entries[k].off, |c.bytes| + img.entries[j].off)))
  {
    hide Put, Jump, JumpsTo, Relinks, Sound, LaidOut;
    JumpsStill(c, img, guestEntry, b, k, j, (k, j));
    var at: nat := c.entries[k].off;
    var jump := Jump(at, |c.bytes| + img.entries[j].off);
    forall p <- done { JumpsStill(c, img, guestEntry, b, k, j, p); }
    forall x | 0 <= x < |b| && Put(b, at, jump)[x] != c.bytes[x] ensures InHead(c, done + {(k, j)}, x) {
      PutAt(b, at, jump, x);
      assert (k, j) in done + {(k, j)};
      assert InHead(c, done, x) ==> InHead(c, done + {(k, j)}, x);
    }
  }

  /** Once every stale entry with a fresh one has been visited, the old bytes are relinked. */
  lemma RelinkedAll(c: Cache, img: Image, guestEntry: u32, done: set<(nat, nat)>, b: seq<u8>)
    requires Sound(c) && LaidOut(|img.bytes|, img.entries, img.sites) && |c.bytes| + |img.bytes| <= MAX_CACHE
    requires RelinkedSoFar(c, img, guestEntry, done, b) && |c.states| == |c.entries|
    requires forall k: nat, j: nat | k < |c.entries| && j < |img.entries| && Relinks(c, img, guestEntry, k, j) :: (k, j) in done
    ensures Relinked(c, img, guestEntry, b)
  {
    hide Jump, Relinks, Sound, LaidOut;
    forall k: nat, j: nat | k < |c.entries| && j < |img.entries| && Relinks(c, img, guestEntry, k, j)
      ensures JumpsTo(c, img, guestEntry, (k, j), b)
    {
      assert (k, j) in done;
    }
  }
}
