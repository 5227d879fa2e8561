/**
 Write watches on guest code pages. A watched page is execute-read, so a guest write to it faults;
 Begin opens the pages the write needs, the write runs, and Complete closes them again.
 */
module WriteWatches {
  import opened Words

  const PENDING_CAPACITY: nat := 16
  const LAST_STEPPED_PAGE: u32 := 0xFFFF_EFFF

  datatype Protection = NoAccess | ReadOnly | ReadWrite | ExecuteRead | ExecuteReadWrite | Other

  /** The mapped pages and their protections as the host reports them. */
  type PageTable = map<u32, Protection>

  /** The protection changes the host would refuse. */
  type Refusals = set<(u32, Protection)>

  /** What is remembered of the write in progress: its flags, source and recorded range. */
  datatype Pending = Pending(fromGuest: bool, keepStep: bool, source: u32, begin: u32, count: u32)

  const NO_WRITE := Pending(false, false, 0, 0, 0)

  datatype Watches = Watches(
    table: PageTable,
    watched: map<u32, Protection>,
    pending: bool,
    open: seq<u32>,
    write: Pending)

  /** The page table after asking for protection `p` on each of the pages. */
  function Protect(table: PageTable, pages: seq<u32>, p: Protection, refuses: Refusals): (r: PageTable)
    ensures r.Keys >= table.Keys && forall q <- r.Keys :: q in table || q in pages
    ensures forall q <- r.Keys :: if q in pages && (q, p) !in refuses then r[q] == p else q in table && r[q] == table[q]
  {
    table + map q | q in pages && (q, p) !in refuses :: p
  }

  predicate Distinct(s: seq<u32>) {
    forall i, j | 0 <= i < j < |s| :: s[i] != s[j]
  }

  /** Watched pages are execute-read, except that the distinct pending pages are open for writing. */
  ghost predicate WatchesOk(w: Watches) {
    && w.watched.Keys <= w.table.Keys
    && (forall p <- w.watched.Keys :: IsPage(p))
    && (w.pending <==> w.open != []) && |w.open| <= PENDING_CAPACITY
    && Distinct(w.open) && (forall p <- w.open :: p in w.watched)
    && (forall p <- w.watched.Keys :: w.table[p] == if p in w.open then ExecuteReadWrite else ExecuteRead)
  }

  // ---- Installing and removing ----

  /** Watch one page: it must be mapped, and made execute-read unless it is so already. */
  function Watch(w: Watches, address: u32, refuses: Refusals): (Watches, bool) {
    var page := Page(address);
    if page in w.watched then (w, true)
    else if page !in w.table || (w.table[page] != ExecuteRead && (page, ExecuteRead) in refuses) then (w, false)
    else (w.(table := w.table[page := ExecuteRead], watched := w.watched[page := w.table[page]]), true)
  }

  /** Watch the pages in turn; the first failure stops. */
  function Install(w: Watches, pages: seq<u32>, refuses: Refusals): (Watches, bool)
    decreases |pages|
  {
    if pages == [] then (w, true) else
      var (w', ok) := Watch(w, pages[0], refuses);
      if ok then Install(w', pages[1..], refuses) else (w', false)
  }

  function Remove(w: Watches, address: u32, refuses: Refusals): Watches {
    var page := Page(address);
    if page in w.watched then
      w.(table := Protect(w.table, [page], ExecuteReadWrite, refuses), watched := w.watched - {page})
    else w
  }

  lemma WatchKeepsOk(w: Watches, address: u32, refuses: Refusals)
    requires WatchesOk(w)
    ensures var (w', ok) := Watch(w, address, refuses);
            && WatchesOk(w') && w'.open == w.open && w'.pending == w.pending && w'.write == w.write
            && w'.watched.Keys == w.watched.Keys + if ok then {Page(address)} else {}
  {
  }

  /** Installing leaves the pending write alone; if it succeeds, all the pages are watched. */
  lemma {:induction false} InstallKeepsOk(w: Watches, pages: seq<u32>, refuses: Refusals)
    requires WatchesOk(w)
    ensures var (w', ok) := Install(w, pages, refuses);
            && WatchesOk(w') && w'.open == w.open && w'.pending == w.pending && w'.write == w.write
            && w'.watched.Keys >= w.watched.Keys
            && (ok ==> forall p <- pages :: Page(p) in w'.watched)
    decreases |pages|
  {
    hide WatchesOk, Page, Watch;
    if pages != [] {
      WatchKeepsOk(w, pages[0], refuses);
      var (w', ok) := Watch(w, pages[0], refuses);
      if ok { InstallKeepsOk(w', pages[1..], refuses); }
    }
  }

  /** Watching the pages succeeds exactly when each is mapped and is execute-read already or may be made so. */
  lemma {:induction false} InstallsExactly(w: Watches, pages: seq<u32>, refuses: Refusals)
    requires WatchesOk(w)
    ensures Install(w, pages, refuses).1 <==>
            forall a <- pages ::
              Page(a) in w.watched ||
              (Page(a) in w.table && (w.table[Page(a)] == ExecuteRead || (Page(a), ExecuteRead) !in refuses))
    decreases |pages|
  {
    hide WatchesOk, Page;
    if pages != [] {
      WatchKeepsOk(w, pages[0], refuses);
      assert forall a <- pages :: a == pages[0] || a in pages[1..];
      InstallsExactly(Watch(w, pages[0], refuses).0, pages[1..], refuses);
    }
  }

  // ---- Giving all watches up ----

  /** Every watched page is asked back to the protection it had when its watch was installed. */
  function Restore(w: Watches, refuses: Refusals): Watches {
    w.(table := w.table + map p | p in w.watched && (p, w.watched[p]) !in refuses :: w.watched[p],
       watched := map[], pending := false, open := [])
  }

  lemma {:induction false} InstallRemembers(w: Watches, pages: seq<u32>, refuses: Refusals, p: u32)
    ensures var w' := Install(w, pages, refuses).0;
            && (p in w.watched ==> p in w'.watched && w'.watched[p] == w.watched[p])
            && (p in w'.watched && p !in w.watched ==> p in w.table && w'.watched[p] == w.table[p])
            && (p !in w'.watched ==> p !in w.watched && (p in w'.table <==> p in w.table) && (p in w.table ==> w'.table[p] == w.table[p]))
    decreases |pages|
  {
    hide Page;
    if pages != [] {
      InstallRemembers(Watch(w, pages[0], refuses).0, pages[1..], refuses, p);
    }
  }

  /**
   Pages that were watched, whatever happened to them since, are given back the protection they had before the first
   watch; all other pages are left as they are.
   */
  lemma RestoreGivesBack(w: Watches, pages: seq<u32>, refuses: Refusals, later: Watches, p: u32)
    requires w.watched == map[] && later.watched == Install(w, pages, refuses).0.watched
    ensures var r := Restore(later, {});
            if p in later.watched then p in w.table && p in r.table && r.table[p] == w.table[p]
            else (p in r.table <==> p in later.table) && (p in r.table ==> r.table[p] == later.table[p])
  {
    hide Install;
    InstallRemembers(w, pages, refuses, p);
  }

  lemma RemoveKeepsOk(w: Watches, address: u32, refuses: Refusals)
    requires WatchesOk(w) && Page(address) !in w.open
    ensures WatchesOk(Remove(w, address, refuses))
  {
  }

  // ---- Begin ----

  /** What the decoder finds: the longest written operand, and whether the whole page is taken instead. */
  datatype Decoded = Decoded(byteCount: u32, conservative: bool)

  function RangeBegin(d: Decoded, fault: u32): u32 {
    if d.conservative then Page(fault) else fault
  }

  function RangeSize(d: Decoded): u32 {
    if d.conservative then PAGE_SIZE else d.byteCount
  }

  function Min(a: u32, b: u32): u32 { if b < a then b else a }

  function Max(a: int, b: int): int { if a < b then b else a }

  /** The remembered write grows to the hull of itself and the new range, its size kept in 32 bits. */
  function Extend(w: Watches, begin: u32, size: u32, fromGuest: bool, keepStep: bool, source: u32): Pending {
    if !w.pending then Pending(fromGuest, keepStep, source, begin, size)
    else
      var from := Min(w.write.begin, begin);
      Pending(w.write.fromGuest, w.write.keepStep || keepStep, if w.write.source == 0 then source else w.write.source,
              from, Wrap(Max(w.write.begin + w.write.count, begin + size) - from))
  }

  datatype Opening = Opened(pages: seq<u32>) | Failed(pages: seq<u32>)

  /** Open every watched page from `page` to `last` that is not open yet, until one cannot be. */
  function OpenPages(watched: set<u32>, open: seq<u32>, page: u32, last: u32, refuses: Refusals): Opening
    requires IsPage(page) && IsPage(last) && page <= last
    decreases last - page
  {
    var wanted := page in watched && page !in open;
    if wanted && (|open| >= PENDING_CAPACITY || (page, ExecuteReadWrite) in refuses) then Failed(open)
    else
      var open' := if wanted then open + [page] else open;
      if page == last || page > LAST_STEPPED_PAGE then Opened(open')
      else NextPage(page, last); OpenPages(watched, open', page + PAGE_SIZE, last, refuses)
  }

  lemma NextPage(page: u32, last: u32)
    requires IsPage(page) && IsPage(last) && page < last
    ensures page + PAGE_SIZE <= last && IsPage(page + PAGE_SIZE)
  {
  }

  /** The range of the write lies in the address space and its fault page is watched. */
  predicate Accepted(w: Watches, fault: u32, d: Decoded) {
    Page(fault) in w.watched && RangeBegin(d, fault) + RangeSize(d) <= WORD
  }

  /** A write fault. The caller decodes at least one byte. */
  function BeginWrite(w: Watches, fault: u32, d: Decoded, fromGuest: bool, keepStep: bool, source: u32,
                      refuses: Refusals): (Watches, bool)
    requires d.byteCount > 0
  {
    var begin, size := RangeBegin(d, fault), RangeSize(d);
    if !Accepted(w, fault, d) then (w, false)
    else
      LastPage(begin, size);
      match OpenPages(w.watched.Keys, w.open, Page(begin), Page(begin + size - 1), refuses)
      case Opened(pages) =>
        (w.(table := Protect(w.table, pages, ExecuteReadWrite, {}), pending := true, open := pages,
            write := Extend(w, begin, size, fromGuest, keepStep, source)), pages != [])
      case Failed(pages) =>
        var widened := Protect(w.table, pages, ExecuteReadWrite, {});
        (w.(table := Protect(widened, pages, ExecuteRead, refuses), pending := false, open := [], write := NO_WRITE), false)
  }

  lemma LastPage(begin: u32, size: u32)
    requires size > 0 && begin + size <= WORD
    ensures Page(begin) <= Page(begin + size - 1)
  {
  }

  function Wanted(watched: set<u32>, open: seq<u32>, page: u32): seq<u32> {
    if page in watched && page !in open then open + [page] else open
  }

  lemma WantedIsDistinct(watched: set<u32>, open: seq<u32>, page: u32)
    requires Distinct(open) && forall p <- open :: p in watched
    ensures var open' := Wanted(watched, open, page);
            && Distinct(open') && open <= open' && (forall p <- open' :: p in watched && (p in open || p == page))
            && (page in watched ==> page in open')
  {
  }

  /** The pages opened are the old ones and watched ones of the range, each once and never too many. */
  lemma {:induction false} OpensOnly(watched: set<u32>, open: seq<u32>, page: u32, last: u32, refuses: Refusals)
    requires IsPage(page) && IsPage(last) && page <= last && |open| <= PENDING_CAPACITY
    requires Distinct(open) && forall p <- open :: p in watched
    ensures var r := OpenPages(watched, open, page, last, refuses);
            && Distinct(r.pages) && |r.pages| <= PENDING_CAPACITY && open <= r.pages
            && forall p <- r.pages :: p in watched && (p in open || page <= p <= last)
    decreases last - page
  {
    hide IsPage, Distinct;
    var open' := Wanted(watched, open, page);
    WantedIsDistinct(watched, open, page);
    if page != last && !(open' != open && (|open| >= PENDING_CAPACITY || (page, ExecuteReadWrite) in refuses)) {
      NextPage(page, last);
      OpensOnly(watched, open', page + PAGE_SIZE, last, refuses);
    }
  }

  lemma NoPageBetween(page: u32, last: u32, p: u32)
    requires IsPage(page) && IsPage(last) && IsPage(p) && page <= p <= last
    ensures page == last ==> p == page
    ensures page < p ==> page + PAGE_SIZE <= p
  {
  }

  /** If none of them is refused, all watched pages of the range are opened. */
  lemma {:induction false} OpensAll(watched: set<u32>, open: seq<u32>, page: u32, last: u32, refuses: Refusals, p: u32)
    requires IsPage(page) && IsPage(last) && page <= last && |open| <= PENDING_CAPACITY
    requires Distinct(open) && forall q <- open :: q in watched
    requires OpenPages(watched, open, page, last, refuses).Opened? && p in watched && IsPage(p) && page <= p <= last
    ensures p in OpenPages(watched, open, page, last, refuses).pages
    decreases last - page
  {
    hide IsPage, Distinct;
    var open' := Wanted(watched, open, page);
    WantedIsDistinct(watched, open, page);
    NoPageBetween(page, last, p);
    if page != last {
      NextPage(page, last);
      OpensOnly(watched, open', page + PAGE_SIZE, last, refuses);
      if p != page { OpensAll(watched, open', page + PAGE_SIZE, last, refuses, p); }
    }
  }

  /** The pages opened are the old ones and, unless one was refused, exactly the watched ones of the range. */
  lemma OpensExactly(watched: set<u32>, open: seq<u32>, page: u32, last: u32, refuses: Refusals)
    requires IsPage(page) && IsPage(last) && page <= last
    requires Distinct(open) && (forall p <- open :: p in watched) && (forall p <- watched :: IsPage(p))
    requires |open| <= PENDING_CAPACITY
    ensures var r := OpenPages(watched, open, page, last, refuses);
            && Distinct(r.pages) && |r.pages| <= PENDING_CAPACITY
            && open <= r.pages
            && (forall p <- r.pages :: p in watched && (p in open || page <= p <= last))
            && (r.Opened? ==> forall p <- watched :: page <= p <= last ==> p in r.pages)
  {
    hide IsPage, Distinct, OpenPages;
    OpensOnly(watched, open, page, last, refuses);
    if OpenPages(watched, open, page, last, refuses).Opened? {
      forall p <- watched | page <= p <= last ensures p in OpenPages(watched, open, page, last, refuses).pages {
        OpensAll(watched, open, page, last, refuses, p);
      }
    }
  }

  /** Opening fails only with sixteen pages open or at a watched page that the host refuses to open. */
  lemma {:induction false} FailsOnlyForAReason(watched: set<u32>, open: seq<u32>, page: u32, last: u32, refuses: Refusals)
    requires IsPage(page) && IsPage(last) && page <= last && |open| <= 16
    requires Distinct(open) && forall p <- open :: p in watched
    ensures var r := OpenPages(watched, open, page, last, refuses);
            r.Failed? ==>
              exists p: u32 | p in watched && page <= p <= last ::
                p !in r.pages && (|r.pages| == 16 || (p, ExecuteReadWrite) in refuses)
    decreases last - page
  {
    hide IsPage, Distinct;
    var open' := Wanted(watched, open, page);
    WantedIsDistinct(watched, open, page);
    if page != last && !(open' != open && (|open| >= PENDING_CAPACITY || (page, ExecuteReadWrite) in refuses)) {
      NextPage(page, last);
      FailsOnlyForAReason(watched, open', page + PAGE_SIZE, last, refuses);
    }
  }

  /** The watched pages that a range of bytes touches. */
  ghost predicate InRange(p: u32, begin: u32, size: u32) {
    Overlap(p, PAGE_SIZE, begin, size)
  }

  lemma InRangePages(p: u32, begin: u32, size: u32)
    requires IsPage(p) && size > 0 && begin + size <= WORD
    ensures InRange(p, begin, size) <==> Page(begin) <= p <= Page(begin + size - 1)
  {
  }

  ghost predicate AllClosable(pages: seq<u32>, refuses: Refusals) {
    forall p <- pages :: (p, ExecuteRead) !in refuses
  }

  /**
   A successful Begin leaves open exactly the pages open before and the watched pages of the range.
   A failed one changes nothing, or forgets the pending write.
   */
  lemma BeginKeepsOk(w: Watches, fault: u32, d: Decoded, fromGuest: bool, keepStep: bool, source: u32, refuses: Refusals)
    requires WatchesOk(w) && d.byteCount > 0
    ensures var (w', ok) := BeginWrite(w, fault, d, fromGuest, keepStep, source, refuses);
            && w'.watched == w.watched
            && (ok ==> WatchesOk(w') && w'.pending && Accepted(w, fault, d))
            && (ok ==> w'.write == Extend(w, RangeBegin(d, fault), RangeSize(d), fromGuest, keepStep, source))
            && (ok ==> forall p <- w.watched.Keys ::
                  p in w'.open <==> p in w.open || InRange(p, RangeBegin(d, fault), RangeSize(d)))
            && (!ok ==> w' == w || (!w'.pending && w'.open == [] && w'.write == NO_WRITE))
  {
    hide Page, InRange, Extend, Protect, OpenPages, IsPage, RangeBegin, RangeSize, WatchesOk;
    var begin: u32, size: u32 := RangeBegin(d, fault), RangeSize(d);
    SizeIsPositive(d);
    if Accepted(w, fault, d) {
      LastPage(begin, size);
      var r := OpenPages(w.watched.Keys, w.open, Page(begin), Page(begin + size - 1), refuses);
      OpenedPages(w, begin, size, refuses);
      FaultPageInRange(d, fault);
      if r.Opened? {
        WidenedOk(w, r.pages, Extend(w, begin, size, fromGuest, keepStep, source));
      }
    }
  }

  lemma SizeIsPositive(d: Decoded)
    requires d.byteCount > 0
    ensures RangeSize(d) > 0
  {
  }

  lemma OpenedPages(w: Watches, begin: u32, size: u32, refuses: Refusals)
    requires WatchesOk(w) && size > 0 && begin + size <= WORD && Page(begin) <= Page(begin + size - 1)
    ensures var r := OpenPages(w.watched.Keys, w.open, Page(begin), Page(begin + size - 1), refuses);
            && Distinct(r.pages) && |r.pages| <= PENDING_CAPACITY && w.open <= r.pages
            && (forall p <- r.pages :: p in w.watched)
            && (forall p <- w.open :: p in r.pages)
            && (r.Opened? ==> forall p <- w.watched.Keys :: p in r.pages <==> p in w.open || InRange(p, begin, size))
            && (r.Opened? && Page(begin) in w.watched ==> r.pages != [])
  {
    hide Page, InRange;
    OpensExactly(w.watched.Keys, w.open, Page(begin), Page(begin + size - 1), refuses);
    forall p <- w.watched.Keys { InRangePages(p, begin, size); }
  }

  lemma WidenedOk(w: Watches, pages: seq<u32>, write: Pending)
    requires WatchesOk(w) && pages != [] && Distinct(pages) && |pages| <= PENDING_CAPACITY && w.open <= pages
    requires forall p <- pages :: p in w.watched
    ensures WatchesOk(w.(table := Protect(w.table, pages, ExecuteReadWrite, {}), pending := true, open := pages, write := write))
  {
    assert forall p <- w.open :: p in pages;
  }

  lemma ClosedOk(w: Watches, pages: seq<u32>, refuses: Refusals)
    requires WatchesOk(w) && w.open <= pages && forall p <- pages :: p in w.watched
    ensures var table := Protect(Protect(w.table, pages, ExecuteReadWrite, {}), pages, ExecuteRead, refuses);
            WatchesOk(w.(table := table, pending := false, open := [], write := NO_WRITE)) <==> AllClosable(pages, refuses)
  {
    assert forall p <- w.open :: p in pages;
  }

  /** A Begin that fails half-way leaves no page open exactly when the host lets every opened page be closed. */
  lemma FailedBeginClosesAll(w: Watches, fault: u32, d: Decoded, fromGuest: bool, keepStep: bool, source: u32, refuses: Refusals)
    requires WatchesOk(w) && d.byteCount > 0 && Accepted(w, fault, d)
    requires var begin: u32, size: u32 := RangeBegin(d, fault), RangeSize(d);
             Page(begin) <= Page(begin + size - 1) &&
             OpenPages(w.watched.Keys, w.open, Page(begin), Page(begin + size - 1), refuses).Failed?
    ensures var (w', ok) := BeginWrite(w, fault, d, fromGuest, keepStep, source, refuses);
            var begin: u32, size: u32 := RangeBegin(d, fault), RangeSize(d);
            && !ok
            && (WatchesOk(w') <==> AllClosable(OpenPages(w.watched.Keys, w.open, Page(begin), Page(begin + size - 1), refuses).pages, refuses))
  {
    hide Page, Protect, OpenPages, IsPage, RangeBegin, AllClosable, WatchesOk;
    var begin: u32, size: u32 := RangeBegin(d, fault), RangeSize(d);
    OpenedPages(w, begin, size, refuses);
    ClosedOk(w, OpenPages(w.watched.Keys, w.open, Page(begin), Page(begin + size - 1), refuses).pages, refuses);
  }

  lemma FaultPageInRange(d: Decoded, fault: u32)
    requires d.byteCount > 0 && RangeBegin(d, fault) + RangeSize(d) <= WORD
    ensures Page(RangeBegin(d, fault)) == Page(fault)
  {
  }

  // ---- Complete ----

  /** The pages are all asked back to execute-read; only if none is refused does the write end. */
  function CompleteWrite(w: Watches, refuses: Refusals): (Watches, Option<Pending>) {
    var table := Protect(w.table, w.open, ExecuteRead, refuses);
    if !w.pending || w.open == [] then (w, None)
    else if exists p <- w.open :: (p, ExecuteRead) in refuses then (w.(table := table), None)
    else (w.(table := table, pending := false, open := [], write := NO_WRITE), Some(w.write))
  }

  /** Complete closes every page and reports the recorded write, or reports nothing and stays pending. */
  lemma CompleteKeepsOk(w: Watches, refuses: Refusals)
    requires WatchesOk(w)
    ensures var (w', r) := CompleteWrite(w, refuses);
            && w'.watched == w.watched
            && (r.Some? ==> WatchesOk(w') && !w'.pending && r.value == w.write && w.pending)
            && (r.None? && w.pending ==> w'.pending && w'.write == w.write && exists p <- w.open :: (p, ExecuteRead) in refuses)
  {
  }

  // ---- Host writes ----

  /** One protection for every mapped page that the range touches. */
  ghost function Reprotect(table: PageTable, begin: u32, size: u32, protection: Protection): PageTable {
    map p | p in table :: if InRange(p, begin, size) then protection else table[p]
  }

  /** A host write that leaves all its pages with one protection keeps the watches in order exactly when its watched pages had that one. */
  lemma ReprotectKeepsOk(w: Watches, begin: u32, size: u32, protection: Protection)
    requires WatchesOk(w)
    ensures WatchesOk(w.(table := Reprotect(w.table, begin, size, protection))) <==>
            forall p <- w.watched.Keys | InRange(p, begin, size) :: w.table[p] == protection
  {
    hide InRange, IsPage, Distinct;
    var w' := w.(table := Reprotect(w.table, begin, size, protection));
    assert w'.table.Keys == w.table.Keys;
    assert forall p <- w.watched.Keys :: w'.table[p] == if InRange(p, begin, size) then protection else w.table[p];
  }

  // ---- What the completion covers ----

  predicate Within(begin: int, count: int, outer: Pending) {
    outer.begin <= begin && begin + count <= outer.begin + outer.count
  }

  /** One accepted write: where it begins and how many bytes it has. */
  datatype Written = Written(begin: u32, size: u32)

  predicate WrittenOk(x: Written) {
    x.size > 0 && x.begin + x.size <= WORD
  }

  /** The recorded range after the writes, in order, each joined to the hull. */
  ghost function Recorded(writes: seq<Written>): (r: Pending)
    requires writes != []
  {
    var last := writes[|writes| - 1];
    if |writes| == 1 then Pending(false, false, 0, last.begin, last.size)
    else Extend(Watches(map[], map[], true, [], Recorded(writes[..|writes| - 1])), last.begin, last.size, false, false, 0)
  }

  /** Some write begins at the bottom of the address space and some write ends at its top. */
  ghost predicate WholeSpace(writes: seq<Written>) {
    (exists x <- writes :: x.begin == 0) && exists x <- writes :: x.begin + x.size == WORD
  }

  /** One more write joins the hull; its size survives unless the hull is everything. */
  lemma HullStep(r: Pending, x: Written)
    requires WrittenOk(x) && r.begin + r.count <= WORD
    ensures var r' := Extend(Watches(map[], map[], true, [], r), x.begin, x.size, false, false, 0);
            && r'.begin == Min(r.begin, x.begin)
            && var end := Max(r.begin + r.count, x.begin + x.size);
            r'.begin + r'.count == if r'.begin == 0 && end == WORD then 0 else end
  {
  }

  lemma {:induction false} RecordedHull(writes: seq<Written>)
    requires writes != [] && forall x <- writes :: WrittenOk(x)
    ensures var r := Recorded(writes);
            && r.begin + r.count <= WORD
            && (forall x <- writes :: r.begin <= x.begin) && (exists x <- writes :: r.begin == x.begin)
            && (!WholeSpace(writes) ==> forall x <- writes :: x.begin + x.size <= r.begin + r.count)
            && (!WholeSpace(writes) ==> exists x <- writes :: r.begin + r.count == x.begin + x.size)
    decreases |writes|
  {
    hide Extend, Wrap;
    var n := |writes| - 1;
    var prefix, last := writes[..n], writes[n];
    assert last in writes;
    assert forall x <- writes :: x in prefix || x == last;
    assert forall x <- prefix :: x in writes;
    if n > 0 {
      RecordedHull(prefix);
      HullStep(Recorded(prefix), last);
    }
  }

  /** One write fault as Begin sees it. */
  datatype Fault = Fault(address: u32, d: Decoded, fromGuest: bool, keepStep: bool, source: u32, refuses: Refusals)

  /** The bytes a fault is taken to write: the operand, or the whole 4096-byte page of the fault. */
  function Range(f: Fault): (r: Written)
    ensures f.d.conservative ==> r.begin % 4096 == 0 && r.begin <= f.address < r.begin + 4096 && r.size == 4096
    ensures !f.d.conservative ==> r.begin == f.address && r.size == f.d.byteCount
  {
    Written(RangeBegin(f.d, f.address), RangeSize(f.d))
  }

  function Ranges(faults: seq<Fault>): (r: seq<Written>)
    ensures |r| == |faults| && forall i | 0 <= i < |r| :: r[i] == Range(faults[i])
  {
    seq(|faults|, i requires 0 <= i < |faults| => Range(faults[i]))
  }

  /** The faults in order, each begun successfully. */
  ghost predicate Begun(w: Watches, faults: seq<Fault>, w': Watches)
    decreases |faults|
  {
    if faults == [] then w' == w else
      var f := faults[|faults| - 1];
      && f.d.byteCount > 0
      && exists v ::
           Begun(w, faults[..|faults| - 1], v) &&
           BeginWrite(v, f.address, f.d, f.fromGuest, f.keepStep, f.source, f.refuses) == (w', true)
  }

  /** The watch set joins a further range to its recorded one as the hull of all begun ranges grows. */
  lemma RecordedJoins(w: Watches, begun: seq<Written>, f: Fault)
    requires w.pending <==> begun != []
    requires w.pending ==> w.write.begin == Recorded(begun).begin && w.write.count == Recorded(begun).count
    ensures var write := Extend(w, RangeBegin(f.d, f.address), RangeSize(f.d), f.fromGuest, f.keepStep, f.source);
            var r := Recorded(begun + [Range(f)]);
            write.begin == r.begin && write.count == r.count
  {
    hide RangeBegin, RangeSize, Wrap;
    assert (begun + [Range(f)])[..|begun|] == begun;
  }

  lemma {:induction false} BegunRecords(w: Watches, faults: seq<Fault>, w': Watches)
    requires WatchesOk(w) && !w.pending && Begun(w, faults, w')
    ensures WatchesOk(w') && w'.watched == w.watched && forall x <- Ranges(faults) :: WrittenOk(x)
    ensures faults != [] ==>
              w'.pending && w'.write.begin == Recorded(Ranges(faults)).begin && w'.write.count == Recorded(Ranges(faults)).count
    decreases |faults|
  {
    hide BeginWrite, WatchesOk, InRange, RangeBegin, RangeSize, Recorded, Extend;
    if faults != [] {
      var n := |faults| - 1;
      var f := faults[n];
      var v :| Begun(w, faults[..n], v) && BeginWrite(v, f.address, f.d, f.fromGuest, f.keepStep, f.source, f.refuses) == (w', true);
      BegunRecords(w, faults[..n], v);
      BeginKeepsOk(v, f.address, f.d, f.fromGuest, f.keepStep, f.source, f.refuses);
      SizeIsPositive(f.d);
      assert Ranges(faults) == Ranges(faults[..n]) + [Range(f)];
      RecordedJoins(v, Ranges(faults[..n]), f);
    }
  }

  /** What the flags and the source of the write in progress are to say of its faults, in order. */
  ghost predicate Remembers(write: Pending, faults: seq<Fault>)
    requires faults != []
  {
    && write.fromGuest == faults[0].fromGuest
    && (write.keepStep <==> exists f <- faults :: f.keepStep)
    && (if write.source == 0 then forall f <- faults :: f.source == 0
        else exists k | 0 <= k < |faults| :: faults[k].source == write.source && forall j | 0 <= j < k :: faults[j].source == 0)
  }

  lemma OneMoreRemembered(w: Watches, faults: seq<Fault>, f: Fault, begin: u32, size: u32)
    requires w.pending <==> faults != []
    requires faults != [] ==> Remembers(w.write, faults)
    ensures Remembers(Extend(w, begin, size, f.fromGuest, f.keepStep, f.source), faults + [f])
  {
    hide Wrap, Min, Max;
    var all, n := faults + [f], |faults|;
    assert all[n] == f;
    forall j | 0 <= j < n ensures all[j] == faults[j] {}
    assert forall g <- all :: g in faults || g == f;
    assert forall g <- faults :: g in all;
    assert f in all;
    if n > 0 && w.write.source != 0 {
      var k :| 0 <= k < n && faults[k].source == w.write.source && forall j | 0 <= j < k :: faults[j].source == 0;
      assert all[k].source == w.write.source && forall j | 0 <= j < k :: all[j].source == 0;
    }
  }

  lemma {:induction false} BegunRemembers(w: Watches, faults: seq<Fault>, w': Watches)
    requires !w.pending && Begun(w, faults, w')
    ensures w'.pending <==> faults != []
    ensures faults != [] ==> Remembers(w'.write, faults)
    decreases |faults|
  {
    hide RangeBegin, RangeSize, Extend, Remembers, OpenPages, Protect, Accepted;
    if faults != [] {
      var n := |faults| - 1;
      var f := faults[n];
      var v :| Begun(w, faults[..n], v) && BeginWrite(v, f.address, f.d, f.fromGuest, f.keepStep, f.source, f.refuses) == (w', true);
      BegunRemembers(w, faults[..n], v);
      assert w'.pending && w'.write == Extend(v, RangeBegin(f.d, f.address), RangeSize(f.d), f.fromGuest, f.keepStep, f.source);
      OneMoreRemembered(v, faults[..n], f, RangeBegin(f.d, f.address), RangeSize(f.d));
      assert faults == faults[..n] + [f];
    }
  }

  /** The completion reports the first fault's origin, single-stepping if any fault asked for it, and the first source there was. */
  lemma CompletionRemembersFaults(w: Watches, faults: seq<Fault>, w': Watches, refuses: Refusals)
    requires WatchesOk(w) && !w.pending && faults != [] && Begun(w, faults, w') && CompleteWrite(w', refuses).1.Some?
    ensures Remembers(CompleteWrite(w', refuses).1.value, faults)
  {
    hide Begun, BeginWrite, WatchesOk, Remembers;
    BegunRemembers(w, faults, w');
  }

  /** The completed range covers every Begin since the first exactly when their hull is not the whole address space. */
  lemma CompletionCoversEveryBegin(w: Watches, faults: seq<Fault>, w': Watches, refuses: Refusals)
    requires WatchesOk(w) && !w.pending && faults != [] && Begun(w, faults, w') && CompleteWrite(w', refuses).1.Some?
    ensures var p := CompleteWrite(w', refuses).1.value;
            (forall x <- Ranges(faults) :: Within(x.begin, x.size, p)) <==> !WholeSpace(Ranges(faults))
  {
    hide Begun, BeginWrite, WatchesOk;
    BegunRecords(w, faults, w');
    RecordedHull(Ranges(faults));
  }

  /** A write the decoder cannot size opens its own page. */
  lemma WholePageBegin(w: Watches, page: u32)
    requires IsPage(page) && page in w.watched && page !in w.open && |w.open| < PENDING_CAPACITY
    ensures BeginWrite(w, page, Decoded(1, true), true, false, 0, {}) ==
            (w.(table := Protect(w.table, w.open + [page], ExecuteReadWrite, {}), pending := true, open := w.open + [page],
                write := Extend(w, page, PAGE_SIZE, true, false, 0)), true)
  {
    hide Protect, Extend;
    PageUnique(page, page);
    PageUnique(page + (PAGE_SIZE - 1), page);
    assert OpenPages(w.watched.Keys, w.open, page, page, {}) == Opened(w.open + [page]);
  }

  /** Two whole-page writes, one to the first page and one to the last, are reported as an empty range. */
  lemma WholeSpaceIsForgotten()
    ensures var w := Watches(map[0 := ExecuteRead, 0xFFFF_F000 := ExecuteRead], map[0 := ReadWrite, 0xFFFF_F000 := ReadWrite], false, [], NO_WRITE);
            var first := BeginWrite(w, 0, Decoded(1, true), true, false, 0, {});
            var second := BeginWrite(first.0, 0xFFFF_F000, Decoded(1, true), true, false, 0, {});
            && WatchesOk(w) && first.1 && second.1
            && CompleteWrite(second.0, {}).1 == Some(Pending(true, false, 0, 0, 0))
  {
    hide BeginWrite, Protect, Wrap;
    assert IsPage(0) && IsPage(0xFFFF_F000);
    var w := Watches(map[0 := ExecuteRead, 0xFFFF_F000 := ExecuteRead], map[0 := ReadWrite, 0xFFFF_F000 := ReadWrite], false, [], NO_WRITE);
    WholePageBegin(w, 0);
    WholePageBegin(BeginWrite(w, 0, Decoded(1, true), true, false, 0, {}).0, 0xFFFF_F000);
  }
}
