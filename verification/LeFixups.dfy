/**
 The fixup tables of an LE executable: a page table of offsets into a record table, and records of seven
 or nine bytes. Decoding succeeds exactly when the records tile the table.
 */
module LeFixups {
  import opened Words

  const OFFSET32: u8 := 0x10

  datatype Fixup = Fixup(page: u32, at: u32, sourceType: u8, flags: u8, sourceOffset: u16, targetObject: u8, targetOffset: u32)

  datatype Result<T> = Ok(value: T) | Err(error: Error)

  datatype Error =
    | RecordsBeforePages
    | ImportsBeforeRecords
    | PageTableTooLarge
    | PageTableOutside
    | RecordTableOutside
    | OffsetTooLarge(page: u32)
    | NegativeSpan(page: u32)
    | PrefixTooSmall(at: u32)
    | UnsupportedFlags(at: u32)
    | TargetTooLong(at: u32)
    | SizeMismatch

  /** The header fields the fixup tables are found with. */
  datatype Header = Header(file: u32, pageCount: u32, pageTable: u32, recordTable: u32, importTable: u32, pageSize: u32)

  /** Where the record table lies, and the offset in it at which each page's records begin. */
  datatype Info = Info(table: u32, size: u32, offsets: seq<u32>)

  predicate HasBytes(data: seq<u8>, offset: int, size: int) {
    offset <= |data| && size <= |data| - offset
  }

  // ---- Records ----

  /** Only internal targets with a 16-bit or 32-bit offset are understood. */
  predicate Supported(flags: u8) {
    flags == 0 || flags == OFFSET32
  }

  function Size(flags: u8): nat {
    if flags == OFFSET32 then 9 else 7
  }

  /** Flags zero take a target offset of sixteen bits, flags 0x10 one of thirty-two; no others have an encoding. */
  predicate Encodable(f: Fixup) {
    (f.flags == 0 && f.targetOffset < 0x1_0000) || f.flags == 0x10
  }

  function Encode(f: Fixup): (r: seq<u8>)
    requires Encodable(f)
    ensures |r| == Size(f.flags)
  {
    [f.sourceType, f.flags] + Bytes16(f.sourceOffset) + [f.targetObject] +
    if f.flags == OFFSET32 then Bytes32(f.targetOffset) else Bytes16(f.targetOffset)
  }

  function Serialize(fs: seq<Fixup>): seq<u8>
    requires forall f <- fs :: Encodable(f)
  {
    if fs == [] then [] else
      assert fs[0] in fs;
      assert forall f <- fs[1..] :: f in fs;
      Encode(fs[0]) + Serialize(fs[1..])
  }

  /** Decode one record of the table at `cursor`, not reading behind `end`. */
  function ParseOne(table: seq<u8>, cursor: nat, end: nat, page: u32): (r: Result<Fixup>)
    requires cursor < end <= |table| < WORD
  {
    if end - cursor < 4 then Err(PrefixTooSmall(cursor))
    else if !Supported(table[cursor + 1]) then Err(UnsupportedFlags(cursor))
    else if end - cursor < Size(table[cursor + 1]) then Err(TargetTooLong(cursor))
    else Ok(Fixup(page, cursor, table[cursor], table[cursor + 1], Word16(table, cursor + 2), table[cursor + 4],
                  if table[cursor + 1] == OFFSET32 then Word32(table, cursor + 5) else Word16(table, cursor + 5)))
  }

  lemma ParsedIsEncodable(table: seq<u8>, cursor: nat, end: nat, page: u32)
    requires cursor < end <= |table| < WORD && ParseOne(table, cursor, end, page).Ok?
    ensures var f := ParseOne(table, cursor, end, page).value;
            Encodable(f) && f.page == page && f.at == cursor && cursor + Size(f.flags) <= end
  {
    hide Word32;
  }

  /** Decoding reads the bytes that encoding writes. */
  lemma ParseThenEncode(table: seq<u8>, cursor: nat, end: nat, page: u32)
    requires cursor < end <= |table| < WORD && ParseOne(table, cursor, end, page).Ok?
    ensures var f := ParseOne(table, cursor, end, page).value;
            Encodable(f) && cursor + Size(f.flags) <= end && Encode(f) == table[cursor..cursor + Size(f.flags)]
  {
    hide Bytes16, Bytes32, Word16, Word32;
    ParsedIsEncodable(table, cursor, end, page);
    BytesOfWord16(table, cursor + 2);
    var f := ParseOne(table, cursor, end, page).value;
    var n := Size(f.flags);
    if f.flags == OFFSET32 { BytesOfWord32(table, cursor + 5); } else { BytesOfWord16(table, cursor + 5); }
    assert table[cursor..cursor + n] ==
      [table[cursor], table[cursor + 1]] + table[cursor + 2..cursor + 4] + [table[cursor + 4]] + table[cursor + 5..cursor + n];
  }

  /** The fields of a record in its encoding. */
  lemma EncodedFields(f: Fixup)
    requires Encodable(f)
    ensures var w := Encode(f);
            && w[0] == f.sourceType && w[1] == f.flags && w[2..4] == Bytes16(f.sourceOffset) && w[4] == f.targetObject
            && (f.flags == OFFSET32 ==> |w| == 9 && w[5..9] == Bytes32(f.targetOffset))
            && (f.flags != OFFSET32 ==> |w| == 7 && w[5..7] == Bytes16(f.targetOffset))
  {
    hide Bytes16, Bytes32;
  }

  /** Whatever encoding wrote at the cursor is what decoding finds there. */
  lemma EncodeThenParse(table: seq<u8>, cursor: nat, end: nat, f: Fixup)
    requires Encodable(f) && f.at == cursor < end <= |table| < WORD && cursor + Size(f.flags) <= end
    requires table[cursor..cursor + Size(f.flags)] == Encode(f)
    ensures ParseOne(table, cursor, end, f.page) == Ok(f)
  {
    hide Bytes16, Bytes32, Word16, Word32, Encode;
    var n := Size(f.flags);
    var w := table[cursor..cursor + n];
    EncodedFields(f);
    assert forall k | 0 <= k < n :: table[cursor + k] == w[k];
    assert table[cursor] == f.sourceType && table[cursor + 1] == f.flags && table[cursor + 4] == f.targetObject;
    assert table[cursor + 2..cursor + 4] == w[2..4];
    WrittenWord16(table, cursor + 2, f.sourceOffset, w[2..4]);
    if f.flags == OFFSET32 {
      assert table[cursor + 5..cursor + 9] == w[5..9];
      WrittenWord32(table, cursor + 5, f.targetOffset, w[5..9]);
    } else {
      assert table[cursor + 5..cursor + 7] == w[5..7];
      WrittenWord16(table, cursor + 5, f.targetOffset, w[5..7]);
    }
  }

  lemma WrittenWord16(b: seq<u8>, at: nat, v: u16, w: seq<u8>)
    requires at + 2 <= |b| && w == Bytes16(v) && b[at..at + 2] == w
    ensures Word16(b, at) == v
  {
    assert w[0] == b[at] && w[1] == b[at + 1];
    assert Word16(w, 0) == v;
  }

  lemma WrittenWord32(b: seq<u8>, at: nat, v: u32, w: seq<u8>)
    requires at + 4 <= |b| && w == Bytes32(v) && b[at..at + 4] == w
    ensures Word32(b, at) == v
  {
    assert w[0] == b[at] && w[1] == b[at + 1] && w[2] == b[at + 2] && w[3] == b[at + 3];
    assert Word32(w, 0) == v;
  }

  // ---- The page table ----

  predicate Monotonic(offsets: seq<u32>) {
    forall i, j | 0 <= i <= j < |offsets| :: offsets[i] <= offsets[j]
  }

  /** The page table gives non-decreasing offsets into a record table that lies in the file. */
  ghost predicate InfoOk(data: seq<u8>, h: Header, info: Info) {
    && |data| < WORD && h.pageTable <= h.recordTable <= h.importTable
    && info.table == Wrap(h.file + h.recordTable) && info.size == h.importTable - h.recordTable
    && HasBytes(data, info.table, info.size)
    && var at := Wrap(h.file + h.pageTable);
    && HasBytes(data, at, 4 * (h.pageCount + 1)) && |info.offsets| == h.pageCount + 1
    && (forall i | 0 <= i < |info.offsets| :: info.offsets[i] == Word32(data, at + 4 * i))
    && (forall i | 0 <= i < |info.offsets| :: info.offsets[i] <= info.size)
    && Monotonic(info.offsets)
  }

  lemma OffsetFits(data: seq<u8>, h: Header, info: Info, i: nat)
    requires InfoOk(data, h, info) && i <= h.pageCount
    ensures Word32(data, Wrap(h.file + h.pageTable) + 4 * i) <= info.size == h.importTable - h.recordTable
  {
    assert info.offsets[i] <= info.size;
  }

  lemma OffsetsInOrder(data: seq<u8>, h: Header, info: Info, i: nat)
    requires InfoOk(data, h, info) && i < h.pageCount
    ensures var at := Wrap(h.file + h.pageTable); Word32(data, at + 4 * i) <= Word32(data, at + 4 * (i + 1))
  {
    assert info.offsets[i] <= info.offsets[i + 1];
  }

  /** Analysis succeeds exactly when the tables are in order, and then says where they are. */
  method Analyze(data: seq<u8>, h: Header) returns (r: Result<Info>)
    requires |data| < WORD
    ensures r.Ok? ==> InfoOk(data, h, r.value)
    ensures r.Err? ==> forall info :: !InfoOk(data, h, info)
  {
    hide Word32, Wrap;
    if h.recordTable < h.pageTable { return Err(RecordsBeforePages); }
    if h.importTable < h.recordTable { return Err(ImportsBeforeRecords); }
    var entryCount: int := h.pageCount + 1;
    if entryCount >= WORD || 4 * entryCount >= WORD { return Err(PageTableTooLarge); }
    var at, table := Wrap(h.file + h.pageTable), Wrap(h.file + h.recordTable);
    var size: u32 := h.importTable - h.recordTable;
    if !HasBytes(data, at, 4 * entryCount) { return Err(PageTableOutside); }
    if !HasBytes(data, table, size) { return Err(RecordTableOutside); }
    var offsets: seq<u32> := [];
    var index: nat := 0;
    while index < entryCount
      invariant index <= entryCount == h.pageCount + 1 && |offsets| == index
      invariant forall i | 0 <= i < index :: offsets[i] == Word32(data, at + 4 * i) && offsets[i] <= size
    {
      var offset := Word32(data, at + 4 * index);
      forall info | InfoOk(data, h, info) ensures offset <= size { OffsetFits(data, h, info, index); }
      if offset > size { return Err(OffsetTooLarge(index)); }
      offsets := offsets + [offset];
      index := index + 1;
    }
    var page: nat := 0;
    while page < h.pageCount
      invariant page <= h.pageCount
      invariant forall i, j | 0 <= i <= j <= page :: offsets[i] <= offsets[j]
    {
      forall info | InfoOk(data, h, info) ensures offsets[page] <= offsets[page + 1] { OffsetsInOrder(data, h, info, page); }
      if offsets[page + 1] < offsets[page] { return Err(NegativeSpan(page)); }
      page := page + 1;
    }
    r := Ok(Info(table, size, offsets));
  }

  // ---- The record table ----

  function Prepend(fs: seq<Fixup>, r: Result<seq<Fixup>>): Result<seq<Fixup>> {
    if r.Ok? then Ok(fs + r.value) else r
  }

  predicate Spanned(table: seq<u8>, offsets: seq<u32>, page: nat, cursor: nat) {
    && |table| < WORD && Monotonic(offsets) && (forall i | 0 <= i < |offsets| :: offsets[i] <= |table|)
    && page < |offsets| < WORD && offsets[page] <= cursor
    && (if page + 1 < |offsets| then cursor <= offsets[page + 1] else cursor == offsets[page])
  }

  /** Decode from the cursor in the span of the page to the end of the last span. */
  function ParseFrom(table: seq<u8>, offsets: seq<u32>, page: nat, cursor: nat): Result<seq<Fixup>>
    requires Spanned(table, offsets, page, cursor)
    decreases |offsets| - page, |table| - cursor
  {
    if page + 1 == |offsets| then Ok([])
    else if cursor == offsets[page + 1] then ParseFrom(table, offsets, page + 1, cursor)
    else
      match ParseOne(table, cursor, offsets[page + 1], page)
      case Err(e) => Err(e)
      case Ok(f) => ParsedIsEncodable(table, cursor, offsets[page + 1], page);
                    Prepend([f], ParseFrom(table, offsets, page, cursor + Size(f.flags)))
  }

  /** The records follow each other from the offset on. */
  predicate Placed(fs: seq<Fixup>, at: int) {
    fs == [] || (fs[0].at == at && Placed(fs[1..], at + Size(fs[0].flags)))
  }

  /** Every record lies in the span of its page. */
  ghost predicate InSpans(fs: seq<Fixup>, offsets: seq<u32>) {
    forall f <- fs :: f.page + 1 < |offsets| && offsets[f.page] <= f.at && f.at + Size(f.flags) <= offsets[f.page + 1]
  }

  /** The records partition the table from the cursor to the end of the last span, each inside its page's span. */
  ghost predicate Fits(fs: seq<Fixup>, table: seq<u8>, offsets: seq<u32>, cursor: nat)
    requires offsets != [] && cursor <= offsets[|offsets| - 1] <= |table|
  {
    && (forall f <- fs :: Encodable(f)) && Placed(fs, cursor) && InSpans(fs, offsets)
    && Serialize(fs) == table[cursor..offsets[|offsets| - 1]]
  }

  lemma SliceInTwo(table: seq<u8>, lo: nat, mid: nat, hi: nat)
    requires lo <= mid <= hi <= |table|
    ensures table[lo..hi] == table[lo..mid] + table[mid..hi] && table[lo..hi][mid - lo..] == table[mid..hi]
  {
  }

  /** The rest of the records serialises to the rest of the slice exactly when all do to the whole. */
  lemma SerializesMore(f: Fixup, fs: seq<Fixup>, table: seq<u8>, cursor: nat, last: nat)
    requires (forall g <- [f] + fs :: Encodable(g)) && (forall g <- fs :: Encodable(g))
    requires cursor + Size(f.flags) <= last <= |table| && Encode(f) == table[cursor..cursor + Size(f.flags)]
    ensures Serialize([f] + fs) == table[cursor..last] <==> Serialize(fs) == table[cursor + Size(f.flags)..last]
  {
    hide Encode, Encodable;
    var all, n := [f] + fs, Size(f.flags);
    assert all[1..] == fs && all[0] == f;
    SliceInTwo(table, cursor, cursor + n, last);
    assert Serialize(all) == table[cursor..cursor + n] + Serialize(fs);
    assert Serialize(all)[n..] == Serialize(fs);
  }

  lemma FitsMore(f: Fixup, fs: seq<Fixup>, table: seq<u8>, offsets: seq<u32>, cursor: nat)
    requires offsets != [] && cursor + Size(f.flags) <= offsets[|offsets| - 1] <= |table|
    requires Encodable(f) && f.at == cursor && InSpans([f], offsets) && Encode(f) == table[cursor..cursor + Size(f.flags)]
    ensures Fits([f] + fs, table, offsets, cursor) <==> Fits(fs, table, offsets, cursor + Size(f.flags))
  {
    hide Encode, Encodable, Serialize;
    var all := [f] + fs;
    var n, last := Size(f.flags), offsets[|offsets| - 1];
    assert all[1..] == fs && all[0] == f;
    assert (forall g <- all :: Encodable(g)) <==> (forall g <- fs :: Encodable(g)) by {
      assert forall g <- fs :: g in all;
      assert forall g <- all :: g == f || g in fs;
    }
    assert InSpans(all, offsets) <==> InSpans(fs, offsets) by {
      assert forall g <- fs :: g in all;
      assert forall g <- all :: g == f || g in fs;
      assert f in [f];
    }
    if forall g <- all :: Encodable(g) { SerializesMore(f, fs, table, cursor, last); }
  }

  /** The end of the last span, and that the cursor is not behind it. */
  lemma LastSpan(table: seq<u8>, offsets: seq<u32>, page: nat, cursor: nat)
    requires Spanned(table, offsets, page, cursor)
    ensures cursor <= offsets[|offsets| - 1] <= |table|
    ensures page + 1 < |offsets| ==> offsets[page + 1] <= offsets[|offsets| - 1]
  {
  }

  /** Decoded records fit. */
  lemma {:induction false} DecodedFits(table: seq<u8>, offsets: seq<u32>, page: nat, cursor: nat)
    requires Spanned(table, offsets, page, cursor) && ParseFrom(table, offsets, page, cursor).Ok?
    ensures cursor <= offsets[|offsets| - 1] <= |table|
    ensures Fits(ParseFrom(table, offsets, page, cursor).value, table, offsets, cursor)
    decreases |offsets| - page, |table| - cursor
  {
    hide Fits, ParseOne, Encode, Encodable, Monotonic;
    LastSpan(table, offsets, page, cursor);
    if page + 1 == |offsets| {
      NothingFits(table, offsets);
    } else if cursor == offsets[page + 1] {
      SpannedNext(table, offsets, page);
      DecodedFits(table, offsets, page + 1, cursor);
    } else {
      ParseThenEncode(table, cursor, offsets[page + 1], page);
      ParsedIsEncodable(table, cursor, offsets[page + 1], page);
      var f := ParseOne(table, cursor, offsets[page + 1], page).value;
      DecodedFits(table, offsets, page, cursor + Size(f.flags));
      FitsMore(f, ParseFrom(table, offsets, page, cursor + Size(f.flags)).value, table, offsets, cursor);
    }
  }

  lemma NothingFits(table: seq<u8>, offsets: seq<u32>)
    requires offsets != [] && offsets[|offsets| - 1] <= |table|
    ensures Fits([], table, offsets, offsets[|offsets| - 1])
  {
  }

  lemma SpannedNext(table: seq<u8>, offsets: seq<u32>, page: nat)
    requires page + 1 < |offsets| && Spanned(table, offsets, page, offsets[page + 1])
    ensures Spanned(table, offsets, page + 1, offsets[page + 1])
  {
  }

  /** Only the decoded records fit, and if some fit they are decoded. */
  lemma {:induction false} FittingIsDecoded(fs: seq<Fixup>, table: seq<u8>, offsets: seq<u32>, page: nat, cursor: nat)
    requires Spanned(table, offsets, page, cursor) && cursor <= offsets[|offsets| - 1] <= |table| && Fits(fs, table, offsets, cursor)
    ensures ParseFrom(table, offsets, page, cursor) == Ok(fs)
    decreases |offsets| - page, |table| - cursor
  {
    hide Fits, ParseOne, Encode, Encodable, Monotonic;
    LastSpan(table, offsets, page, cursor);
    if page + 1 == |offsets| {
      FittingIsEmpty(fs, table, offsets, cursor);
    } else if cursor == offsets[page + 1] {
      SpannedNext(table, offsets, page);
      FittingIsDecoded(fs, table, offsets, page + 1, cursor);
    } else {
      FirstFitting(fs, table, offsets, page, cursor);
      var f := fs[0];
      EncodeThenParse(table, cursor, offsets[page + 1], f);
      ParsedIsEncodable(table, cursor, offsets[page + 1], page);
      assert fs == [f] + fs[1..];
      FitsMore(f, fs[1..], table, offsets, cursor);
      FittingIsDecoded(fs[1..], table, offsets, page, cursor + Size(f.flags));
    }
  }

  lemma FittingIsEmpty(fs: seq<Fixup>, table: seq<u8>, offsets: seq<u32>, cursor: nat)
    requires offsets != [] && cursor == offsets[|offsets| - 1] <= |table| && Fits(fs, table, offsets, cursor)
    ensures fs == []
  {
    hide Encode;
    assert |Serialize(fs)| == 0;
  }

  /** The first of the fitting records lies at the cursor, in the span the cursor is in. */
  lemma FirstFitting(fs: seq<Fixup>, table: seq<u8>, offsets: seq<u32>, page: nat, cursor: nat)
    requires Spanned(table, offsets, page, cursor) && page + 1 < |offsets| && cursor < offsets[page + 1] <= offsets[|offsets| - 1] <= |table|
    requires Fits(fs, table, offsets, cursor)
    ensures fs != [] && Encodable(fs[0]) && fs[0].at == cursor && fs[0].page == page
    ensures cursor + Size(fs[0].flags) <= offsets[page + 1] && table[cursor..cursor + Size(fs[0].flags)] == Encode(fs[0])
    ensures InSpans([fs[0]], offsets)
  {
    hide Encode, Encodable;
    var last := offsets[|offsets| - 1];
    assert |table[cursor..last]| > 0;
    var f := fs[0];
    assert f in fs;
    SamePage(offsets, page, f.page, cursor);
    var n := Size(f.flags);
    SerializeFirst(fs);
    assert Serialize(fs)[..n] == Encode(f);
    assert table[cursor..last][..n] == table[cursor..cursor + n];
  }

  lemma SerializeFirst(fs: seq<Fixup>)
    requires fs != [] && forall f <- fs :: Encodable(f)
    ensures Encodable(fs[0]) && (forall f <- fs[1..] :: Encodable(f)) && Serialize(fs) == Encode(fs[0]) + Serialize(fs[1..])
  {
    assert fs[0] in fs && forall f <- fs[1..] :: f in fs;
  }

  lemma SamePage(offsets: seq<u32>, p: nat, q: nat, at: nat)
    requires Monotonic(offsets) && p + 1 < |offsets| && q + 1 < |offsets|
    requires offsets[p] <= at < offsets[p + 1] && offsets[q] <= at < offsets[q + 1]
    ensures p == q
  {
  }

  /** The record table of the file. */
  function Table(data: seq<u8>, info: Info): seq<u8>
    requires HasBytes(data, info.table, info.size)
  {
    data[info.table..info.table + info.size]
  }

  /** The records fill the whole record table: the first span begins at 0 and the last one ends where the table does. */
  ghost predicate Tiles(fs: seq<Fixup>, data: seq<u8>, h: Header, info: Info)
    requires InfoOk(data, h, info)
  {
    && info.offsets[0] == 0 && info.offsets[|info.offsets| - 1] == info.size
    && Fits(fs, Table(data, info), info.offsets, 0)
  }

  lemma InfoSpans(data: seq<u8>, h: Header, info: Info)
    requires InfoOk(data, h, info)
    ensures Spanned(Table(data, info), info.offsets, 0, info.offsets[0])
  {
    hide Wrap, Word32;
  }

  lemma InfoBounds(data: seq<u8>, h: Header, info: Info)
    requires InfoOk(data, h, info)
    ensures info.table + info.size <= |data| < WORD && |info.offsets| == h.pageCount + 1
    ensures Table(data, info) == data[info.table..info.table + info.size]
  {
    hide Wrap, Word32;
  }

  /** Records that tile the table are the decoded ones. */
  lemma TilesAreDecoded(data: seq<u8>, h: Header, info: Info)
    requires InfoOk(data, h, info) && Spanned(Table(data, info), info.offsets, 0, info.offsets[0])
    ensures forall fs | Tiles(fs, data, h, info) :: ParseFrom(Table(data, info), info.offsets, 0, info.offsets[0]) == Ok(fs)
  {
    hide InfoOk, Fits, ParseFrom, Spanned;
    InfoBounds(data, h, info);
    forall fs | Tiles(fs, data, h, info) ensures ParseFrom(Table(data, info), info.offsets, 0, info.offsets[0]) == Ok(fs) {
      LastSpan(Table(data, info), info.offsets, 0, info.offsets[0]);
      FittingIsDecoded(fs, Table(data, info), info.offsets, 0, info.offsets[0]);
    }
  }

  /** Decode the records of one page. */
  method DecodeSpan(data: seq<u8>, info: Info, page: nat, ghost table: seq<u8>) returns (r: Result<seq<Fixup>>)
    requires info.table + info.size <= |data| < WORD && table == data[info.table..info.table + info.size]
    requires page + 1 < |info.offsets| && Spanned(table, info.offsets, page, info.offsets[page])
    ensures Spanned(table, info.offsets, page + 1, info.offsets[page + 1])
    ensures ParseFrom(table, info.offsets, page, info.offsets[page]) ==
            if r.Ok? then Prepend(r.value, ParseFrom(table, info.offsets, page + 1, info.offsets[page + 1])) else r
  {
    hide Word16, Word32;
    PrependNone(ParseFrom(table, info.offsets, page, info.offsets[page]));
    var cursor: nat := info.offsets[page];
    var end := info.offsets[page + 1];
    var records: seq<Fixup> := [];
    while cursor < end
      invariant Spanned(table, info.offsets, page, cursor)
      invariant ParseFrom(table, info.offsets, page, info.offsets[page]) == Prepend(records, ParseFrom(table, info.offsets, page, cursor))
      decreases end - cursor
    {
      LastSpan(table, info.offsets, page, cursor);
      var at := info.table + cursor;
      var remaining := end - cursor;
      if remaining < 4 { return Err(PrefixTooSmall(cursor)); }
      TableBytes(data, info, table, cursor, 4);
      var sourceType, flags, sourceOffset := data[at], data[at + 1], Word16(data, at + 2);
      if !Supported(flags) { return Err(UnsupportedFlags(cursor)); }
      if remaining < Size(flags) { return Err(TargetTooLong(cursor)); }
      TableBytes(data, info, table, cursor, Size(flags));
      var targetObject := data[at + 4];
      var targetOffset: u32 := 0;
      if flags == OFFSET32 { targetOffset := Word32(data, at + 5); } else { targetOffset := Word16(data, at + 5); }
      var f := Fixup(page, cursor, sourceType, flags, sourceOffset, targetObject, targetOffset);
      assert ParseOne(table, cursor, end, page) == Ok(f);
      ParsedIsEncodable(table, cursor, end, page);
      PrependTwice(records, [f], ParseFrom(table, info.offsets, page, cursor + Size(flags)));
      records := records + [f];
      cursor := cursor + Size(flags);
    }
    r := Ok(records);
  }

  lemma PrependTwice(a: seq<Fixup>, b: seq<Fixup>, r: Result<seq<Fixup>>)
    ensures Prepend(a, Prepend(b, r)) == Prepend(a + b, r)
  {
    if r.Ok? { assert a + (b + r.value) == a + b + r.value; }
  }

  lemma PrependNone(r: Result<seq<Fixup>>)
    ensures Prepend([], r) == r
  {
    if r.Ok? { assert [] + r.value == r.value; }
  }

  /** Reading the file at the table's place reads the table. */
  lemma TableBytes(data: seq<u8>, info: Info, table: seq<u8>, cursor: nat, n: nat)
    requires info.table + info.size <= |data| && table == data[info.table..info.table + info.size] && cursor + n <= |table|
    ensures n >= 4 ==> table[cursor] == data[info.table + cursor] && table[cursor + 1] == data[info.table + cursor + 1]
    ensures n >= 4 ==> Word16(table, cursor + 2) == Word16(data, info.table + cursor + 2)
    ensures n >= 7 ==> table[cursor + 4] == data[info.table + cursor + 4] && Word16(table, cursor + 5) == Word16(data, info.table + cursor + 5)
    ensures n >= 9 ==> Word32(table, cursor + 5) == Word32(data, info.table + cursor + 5)
  {
  }

  /** Decoding succeeds exactly when some records tile the table, and then yields those records, which are unique. */
  method Decode(data: seq<u8>, h: Header, info: Info) returns (r: Result<seq<Fixup>>)
    requires InfoOk(data, h, info)
    ensures r.Ok? ==> Tiles(r.value, data, h, info)
    ensures forall fs | Tiles(fs, data, h, info) :: r == Ok(fs)
  {
    hide InfoOk, Fits, ParseFrom, Spanned;
    InfoBounds(data, h, info);
    ghost var table := Table(data, info);
    InfoSpans(data, h, info);
    PrependNone(ParseFrom(table, info.offsets, 0, info.offsets[0]));
    TilesAreDecoded(data, h, info);
    var records: seq<Fixup> := [];
    var consumed: int := 0;
    var page: nat := 0;
    while page + 1 < |info.offsets|
      invariant page < |info.offsets| && Spanned(table, info.offsets, page, info.offsets[page])
      invariant consumed + info.offsets[0] == info.offsets[page]
      invariant ParseFrom(table, info.offsets, 0, info.offsets[0]) ==
                Prepend(records, ParseFrom(table, info.offsets, page, info.offsets[page]))
    {
      var span := DecodeSpan(data, info, page, table);
      if span.Err? { return span; }
      PrependTwice(records, span.value, ParseFrom(table, info.offsets, page + 1, info.offsets[page + 1]));
      records := records + span.value;
      consumed := consumed + info.offsets[page + 1] - info.offsets[page];
      page := page + 1;
    }
    NothingLeft(table, info.offsets, page);
    if consumed != info.size { return Err(SizeMismatch); }
    WholeTable(table, info.offsets, page, info.size);
    DecodedFits(table, info.offsets, 0, info.offsets[0]);
    assert records + [] == records;
    r := Ok(records);
  }

  lemma NothingLeft(table: seq<u8>, offsets: seq<u32>, page: nat)
    requires page + 1 == |offsets| && Spanned(table, offsets, page, offsets[page])
    ensures ParseFrom(table, offsets, page, offsets[page]) == Ok([])
  {
  }

  /** Spans that add up to the table begin at 0 and end with it. */
  lemma WholeTable(table: seq<u8>, offsets: seq<u32>, page: nat, size: nat)
    requires page + 1 == |offsets| && Spanned(table, offsets, page, offsets[page]) && |table| == size
    requires size + offsets[0] == offsets[page]
    ensures offsets[0] == 0 && offsets[page] == size
  {
  }
}
