/** The write-watch set as the source keeps it: a sorted vector, a fixed array of pending pages, and flags. */
module WriteWatchSets {
  import opened Words
  import opened SortedTable
  import opened WriteWatches

  /** The host's page table, seen through its protection call. */
  class Host {
    var table: PageTable

    constructor (table: PageTable)
      ensures this.table == table
    {
      this.table := table;
    }

    method Protect(page: u32, p: Protection, refuses: Refusals) returns (ok: bool)
      modifies this
      ensures ok <==> (page, p) !in refuses
      ensures table == if ok then old(table)[page := p] else old(table)
    {
      ok := (page, p) !in refuses;
      if ok { table := table[page := p]; }
    }
  }

  ghost function AsMap<T>(t: seq<Row<T>>): map<u32, T>
    requires Sorted(t)
  {
    map k: u32 | k in Keys(t) && Find(t, k).Some? :: Find(t, k).value
  }

  ghost function Keys<T>(t: seq<Row<T>>): set<u32> {
    set i | 0 <= i < |t| :: t[i].key
  }

  lemma AsMapFinds<T>(t: seq<Row<T>>, key: u32)
    requires Sorted(t)
    ensures key in AsMap(t) <==> Find(t, key).Some?
    ensures key in AsMap(t) ==> AsMap(t)[key] == Find(t, key).value
  {
  }

  lemma AsMapStore<T>(t: seq<Row<T>>, key: u32, value: T)
    requires Sorted(t)
    ensures AsMap(Store(t, key, value)) == AsMap(t)[key := value]
  {
    hide *;
    var r := Store(t, key, value);
    forall k: u32 ensures k in AsMap(r) <==> k in AsMap(t)[key := value] {
      AsMapFinds(r, k);
      AsMapFinds(t, k);
    }
    forall k <- AsMap(r) ensures AsMap(r)[k] == AsMap(t)[key := value][k] {
      AsMapFinds(r, k);
      AsMapFinds(t, k);
    }
  }

  lemma AsMapErase<T>(t: seq<Row<T>>, key: u32)
    requires Sorted(t)
    ensures AsMap(Erase(t, key)) == AsMap(t) - {key}
  {
    hide *;
    var r := Erase(t, key);
    forall k: u32 ensures k in AsMap(r) <==> k in AsMap(t) - {key} {
      AsMapFinds(r, k);
      AsMapFinds(t, k);
    }
    forall k <- AsMap(r) ensures AsMap(r)[k] == (AsMap(t) - {key})[k] {
      AsMapFinds(r, k);
      AsMapFinds(t, k);
    }
  }

  lemma ProtectOneMore(table: PageTable, pages: seq<u32>, page: u32, p: Protection, refuses: Refusals)
    ensures Protect(table, pages + [page], p, refuses) ==
            if (page, p) in refuses then Protect(table, pages, p, refuses) else Protect(table, pages, p, refuses)[page := p]
  {
  }

  lemma OpenPagesAreOpen(w: Watches)
    requires WatchesOk(w)
    ensures Protect(w.table, w.open, ExecuteReadWrite, {}) == w.table
  {
  }

  /** The page table once the first `n` rows have been asked back. */
  ghost function RestoredRows(table: PageTable, rows: seq<Row<Protection>>, n: nat, refuses: Refusals): PageTable
    requires n <= |rows|
  {
    if n == 0 then table else
      var before, row := RestoredRows(table, rows, n - 1, refuses), rows[n - 1];
      if (row.key, row.value) in refuses then before else before[row.key := row.value]
  }

  lemma RestoresNoRow(table: PageTable, rows: seq<Row<Protection>>, refuses: Refusals)
    ensures RestoredRows(table, rows, 0, refuses) == table
  {
  }

  lemma RestoresOneRow(table: PageTable, rows: seq<Row<Protection>>, n: nat, refuses: Refusals)
    requires n < |rows|
    ensures var before := RestoredRows(table, rows, n, refuses);
            RestoredRows(table, rows, n + 1, refuses) ==
            if (rows[n].key, rows[n].value) in refuses then before else before[rows[n].key := rows[n].value]
  {
  }

  lemma {:induction false} RestoredRow(table: PageTable, rows: seq<Row<Protection>>, n: nat, refuses: Refusals, p: u32)
    requires Sorted(rows) && n <= |rows|
    ensures var r := RestoredRows(table, rows, n, refuses);
            if exists i | 0 <= i < n :: rows[i].key == p && (p, rows[i].value) !in refuses
            then p in r && exists i | 0 <= i < n :: rows[i] == Row(p, r[p]) && (p, r[p]) !in refuses
            else (p in r <==> p in table) && (p in r ==> r[p] == table[p])
    decreases n
  {
    if n > 0 { RestoredRow(table, rows, n - 1, refuses, p); }
  }

  lemma RowFound(rows: seq<Row<Protection>>, i: nat)
    requires Sorted(rows) && i < |rows|
    ensures rows[i].key in AsMap(rows) && AsMap(rows)[rows[i].key] == rows[i].value
  {
    hide AsMap;
    AsMapFinds(rows, rows[i].key);
    FindsEach(rows, i);
  }

  lemma FindsEach(rows: seq<Row<Protection>>, i: nat)
    requires Sorted(rows) && i < |rows|
    ensures Find(rows, rows[i].key) == Some(rows[i].value)
  {
    ScanHit(rows, i);
  }

  lemma RestoreForgets(w: Watches, refuses: Refusals)
    ensures Restore(w, refuses) == Watches(Restore(w, refuses).table, map[], false, [], w.write)
  {
  }

  lemma NoRows<T>()
    ensures AsMap<T>([]) == map[]
  {
  }

  lemma RestoresAllRows(w: Watches, rows: seq<Row<Protection>>, refuses: Refusals)
    requires Sorted(rows) && w.watched == AsMap(rows)
    ensures Restore(w, refuses).table == RestoredRows(w.table, rows, |rows|, refuses)
  {
    hide AsMap, Sorted, RestoredRows;
    var r, t := Restore(w, refuses).table, RestoredRows(w.table, rows, |rows|, refuses);
    forall i | 0 <= i < |rows| ensures rows[i].key in w.watched && w.watched[rows[i].key] == rows[i].value { RowFound(rows, i); }
    forall p: u32 ensures (p in r <==> p in t) && (p in r ==> r[p] == t[p]) {
      RestoredRow(w.table, rows, |rows|, refuses, p);
      AsMapFinds(rows, p);
    }
  }

  class WriteWatchSet {
    const host: Host
    var watches: seq<Row<Protection>>
    var pending: bool
    var write: Pending
    const pendingPages: array<u32>
    var pageCount: nat

    constructor (host: Host)
      ensures Valid() && this.host == host && fresh(pendingPages)
      ensures Model() == Watches(host.table, map[], false, [], NO_WRITE)
    {
      this.host := host;
      watches, pending, write, pageCount := [], false, NO_WRITE, 0;
      pendingPages := new u32[PENDING_CAPACITY](_ => 0);
    }

    ghost predicate Valid()
      reads this
    {
      Sorted(watches) && pendingPages.Length == PENDING_CAPACITY && pageCount <= PENDING_CAPACITY
    }

    /** The set together with the page table. */
    ghost function Model(): Watches
      requires Valid()
      reads this, host, pendingPages
    {
      Watches(host.table, AsMap(watches), pending, pendingPages[..pageCount], write)
    }

    method IsWatched(address: u32) returns (r: bool)
      requires Valid()
      ensures r <==> Page(address) in Model().watched
    {
      AsMapFinds(watches, Page(address));
      r := Find(watches, Page(address)).Some?;
    }

    method EnsureWatch(address: u32, refuses: Refusals) returns (ok: bool)
      requires Valid()
      modifies `watches, host
      ensures Valid() && (Model(), ok) == Watch(old(Model()), address, refuses)
    {
      hide AsMap, Page;
      var page := Page(address);
      AsMapFinds(watches, page);
      if Find(watches, page).Some? { return true; }
      if page !in host.table { return false; }
      var original := host.table[page];
      if original != ExecuteRead {
        ok := host.Protect(page, ExecuteRead, refuses);
        if !ok { return; }
      }
      AsMapStore(watches, page, original);
      watches := Store(watches, page, original);
      assert host.table == old(host.table)[page := ExecuteRead];
      ok := true;
    }

    method InstallPages(pages: seq<u32>, refuses: Refusals) returns (ok: bool)
      requires Valid()
      modifies `watches, host
      ensures Valid() && (Model(), ok) == Install(old(Model()), pages, refuses)
    {
      hide Watch, AsMap;
      ok := true;
      var i := 0;
      while i < |pages|
        invariant 0 <= i <= |pages| && Valid()
        invariant Install(Model(), pages[i..], refuses) == Install(old(Model()), pages, refuses)
      {
        assert pages[i..][1..] == pages[i + 1..];
        ok := EnsureWatch(pages[i], refuses);
        if !ok { return; }
        i := i + 1;
      }
    }

    method RemoveWatch(address: u32, refuses: Refusals)
      requires Valid()
      modifies `watches, host
      ensures Valid() && Model() == Remove(old(Model()), address, refuses)
    {
      hide AsMap, Page;
      var page := Page(address);
      AsMapFinds(watches, page);
      if Find(watches, page).Some? {
        var _ := host.Protect(page, ExecuteReadWrite, refuses);
        AsMapErase(watches, page);
        watches := Erase(watches, page);
      }
    }

    /** Give every watch up, asking each page back to the protection its row remembers. */
    method RestoreAll(refuses: Refusals)
      requires Valid()
      modifies `watches, `pending, `pageCount, host
      ensures Valid() && Model() == Restore(old(Model()), refuses)
    {
      hide AsMap, Restore, RestoredRows;
      ghost var w := Model();
      RestoresNoRow(host.table, watches, refuses);
      var i := 0;
      while i < |watches|
        invariant 0 <= i <= |watches| && Valid() && watches == old(watches)
        invariant host.table == RestoredRows(old(host.table), watches, i, refuses)
      {
        RestoresOneRow(old(host.table), watches, i, refuses);
        var _ := host.Protect(watches[i].key, watches[i].value, refuses);
        i := i + 1;
      }
      RestoresAllRows(w, watches, refuses);
      RestoreForgets(w, refuses);
      NoRows<Protection>();
      watches, pending, pageCount := [], false, 0;
    }

    method ContainsPage(page: u32) returns (r: bool)
      requires Valid()
      ensures r <==> page in pendingPages[..pageCount]
    {
      var i := 0;
      while i < pageCount
        invariant 0 <= i <= pageCount
        invariant page !in pendingPages[..i]
      {
        if pendingPages[i] == page { return true; }
        i := i + 1;
      }
      r := false;
    }

    /** Ask each pending page back to execute-read; the answer is whether none was refused. */
    method ClosePages(refuses: Refusals) returns (ok: bool)
      requires Valid()
      modifies host
      ensures host.table == Protect(old(host.table), pendingPages[..pageCount], ExecuteRead, refuses)
      ensures ok <==> forall p <- pendingPages[..pageCount] :: (p, ExecuteRead) !in refuses
    {
      hide Protect;
      ok := true;
      var i := 0;
      while i < pageCount
        invariant 0 <= i <= pageCount
        invariant host.table == Protect(old(host.table), pendingPages[..i], ExecuteRead, refuses)
        invariant ok <==> forall p <- pendingPages[..i] :: (p, ExecuteRead) !in refuses
      {
        ProtectOneMore(old(host.table), pendingPages[..i], pendingPages[i], ExecuteRead, refuses);
        var closed := host.Protect(pendingPages[i], ExecuteRead, refuses);
        ok := closed && ok;
        assert pendingPages[..i + 1] == pendingPages[..i] + [pendingPages[i]];
        i := i + 1;
      }
    }

    method ResetPending()
      requires Valid()
      modifies `pending, `write, `pageCount
      ensures Valid() && Model() == old(Model()).(pending := false, open := [], write := NO_WRITE)
    {
      pending, write, pageCount := false, NO_WRITE, 0;
    }

    /** Open one more page and remember it. */
    method OpenPage(page: u32, refuses: Refusals) returns (ok: bool)
      requires Valid() && pageCount < PENDING_CAPACITY
      modifies `pageCount, pendingPages, host
      ensures Valid() && (ok <==> (page, ExecuteReadWrite) !in refuses)
      ensures pendingPages[..pageCount] == old(pendingPages[..pageCount]) + if ok then [page] else []
      ensures host.table == if ok then old(host.table)[page := ExecuteReadWrite] else old(host.table)
    {
      ok := host.Protect(page, ExecuteReadWrite, refuses);
      if ok {
        pendingPages[pageCount] := page;
        pageCount := pageCount + 1;
      }
    }

    /** Open the watched pages of the range one by one; stop at a full list or a refusal. */
    method OpenRange(first: u32, last: u32, refuses: Refusals) returns (ok: bool)
      requires Valid() && IsPage(first) && IsPage(last) && first <= last
      requires Protect(host.table, pendingPages[..pageCount], ExecuteReadWrite, {}) == host.table
      modifies `pageCount, pendingPages, host
      ensures Valid()
      ensures var r := OpenPages(AsMap(watches).Keys, old(pendingPages[..pageCount]), first, last, refuses);
              ok == r.Opened? && pendingPages[..pageCount] == r.pages
      ensures host.table == Protect(old(host.table), pendingPages[..pageCount], ExecuteReadWrite, {})
    {
      hide AsMap, Protect, IsPage;
      ghost var watched := AsMap(watches).Keys;
      var page := first;
      while true
        invariant Valid() && IsPage(page) && first <= page <= last
        invariant OpenPages(watched, pendingPages[..pageCount], page, last, refuses) ==
                  OpenPages(watched, old(pendingPages[..pageCount]), first, last, refuses)
        invariant host.table == Protect(old(host.table), pendingPages[..pageCount], ExecuteReadWrite, {})
        decreases last - page
      {
        AsMapFinds(watches, page);
        var open := ContainsPage(page);
        if Find(watches, page).Some? && !open {
          if pageCount >= PENDING_CAPACITY { return false; }
          ProtectOneMore(old(host.table), pendingPages[..pageCount], page, ExecuteReadWrite, {});
          ok := OpenPage(page, refuses);
          if !ok { return; }
        }
        if page == last || page > LAST_STEPPED_PAGE { return true; }
        NextPage(page, last);
        page := page + PAGE_SIZE;
      }
    }

    /** The first fault records its range; later ones before the completion widen it. */
    method RecordWrite(begin: u32, size: u32, fromGuest: bool, keepStep: bool, source: u32)
      requires Valid()
      modifies `pending, `write
      ensures Valid() && pending
      ensures write == Extend(old(Model()), begin, size, fromGuest, keepStep, source)
    {
      if !pending {
        pending := true;
        write := Pending(fromGuest, keepStep, source, begin, size);
      } else {
        var from := Min(write.begin, begin);
        var end := Max(write.begin + write.count, begin + size);
        write := write.(begin := from, count := Wrap(end - from), keepStep := write.keepStep || keepStep);
        if write.source == 0 { write := write.(source := source); }
      }
    }

    method Begin(fault: u32, d: Decoded, fromGuest: bool, keepStep: bool, source: u32, refuses: Refusals) returns (ok: bool)
      requires Valid() && WatchesOk(Model()) && d.byteCount > 0
      modifies `pending, `write, `pageCount, pendingPages, host
      ensures Valid() && (Model(), ok) == BeginWrite(old(Model()), fault, d, fromGuest, keepStep, source, refuses)
    {
      hide AsMap, Page, OpenPages, IsPage, Extend, Protect, WatchesOk;
      OpenPagesAreOpen(Model());
      var watched := IsWatched(fault);
      if !watched { return false; }
      var begin: u32, size: u32 := RangeBegin(d, fault), RangeSize(d);
      if begin + size > WORD { return false; }
      RecordWrite(begin, size, fromGuest, keepStep, source);
      LastPage(begin, size);
      ok := OpenRange(Page(begin), Page(begin + size - 1), refuses);
      if ok {
        ok := pageCount != 0;
      } else {
        var _ := ClosePages(refuses);
        ResetPending();
      }
    }

    method Complete(refuses: Refusals) returns (r: Option<Pending>)
      requires Valid() && WatchesOk(Model())
      modifies `pending, `write, `pageCount, host
      ensures Valid() && (Model(), r) == CompleteWrite(old(Model()), refuses)
    {
      if !pending || pageCount == 0 { return None; }
      var restored := ClosePages(refuses);
      if !restored { return None; }
      r := Some(write);
      ResetPending();
    }
  }
}
