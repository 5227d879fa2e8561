/**
 The internal relocations of a loaded LE image: each supported fixup writes the 32-bit address of its
 target over the four bytes of its source, in place, in record order.
 */
module LeRelocations {
  import opened Words
  import opened LeFixups

  const OFFSET32_KIND: u8 := 7

  /** Where an object of the image lies: its address, its pages in the page table and its memory size. */
  datatype Place = Place(base: u32, pageIndex: u32, pageCount: u32, size: nat)

  /** What a record asks for. */
  datatype Site =
    | UnsupportedKind
    | BadTarget
    | NoOwner
    | OutOfRange
    | At(unit: nat, offset: nat, value: u32)

  predicate Owns(p: Place, page: u32) {
    var first := Wrap(p.pageIndex - 1);
    first <= page < Wrap(first + p.pageCount)
  }

  /** The first object that owns the page. */
  function Owner(places: seq<Place>, page: u32, i: nat): (r: Option<nat>)
    requires i <= |places|
    ensures r.Some? ==> i <= r.value < |places| && Owns(places[r.value], page)
    decreases |places| - i
  {
    if i == |places| then None else if Owns(places[i], page) then Some(i) else Owner(places, page, i + 1)
  }

  /** The source offset is a signed 16-bit number relative to the start of the record's page. */
  function SourceOffset(p: Place, f: Fixup, pageSize: u32): int
    requires Owns(p, f.page)
  {
    (f.page - Wrap(p.pageIndex - 1)) * pageSize + Signed16(f.sourceOffset)
  }

  function SiteOf(places: seq<Place>, f: Fixup, pageSize: u32): (r: Site)
    ensures r.At? ==> r.unit < |places| && r.offset + 4 <= places[r.unit].size
  {
    if f.sourceType % 16 != OFFSET32_KIND then UnsupportedKind
    else if f.targetObject == 0 || f.targetObject > |places| then BadTarget
    else
      var owner := Owner(places, f.page, 0);
      if owner.None? then NoOwner
      else
        var offset := SourceOffset(places[owner.value], f, pageSize);
        if offset < 0 || offset >= WORD then NoOwner
        else if offset > places[owner.value].size || places[owner.value].size - offset < 4 then OutOfRange
        else At(owner.value, offset, Wrap(places[f.targetObject - 1].base + f.targetOffset))
  }

  // ---- Applying records to the memory of the objects ----

  type Image = seq<seq<u8>>

  predicate Sized(image: Image, places: seq<Place>) {
    |image| == |places| && forall i | 0 <= i < |image| :: |image[i]| == places[i].size
  }

  datatype Report = Report(ok: bool, applied: nat, unsupported: nat, outOfRange: nat)

  function WriteAt(image: Image, s: Site): (r: Image)
    requires s.At? && s.unit < |image| && s.offset + 4 <= |image[s.unit]|
    ensures |r| == |image| && forall i | 0 <= i < |r| :: |r[i]| == |image[i]|
  {
    image[s.unit := Put(image[s.unit], s.offset, Bytes32(s.value))]
  }

  /** The first `n` records applied in order; a record with a bad target or no owner stops. */
  function Apply(image: Image, places: seq<Place>, fs: seq<Fixup>, pageSize: u32, n: nat): (r: (Image, Report))
    requires Sized(image, places) && n <= |fs|
    ensures Sized(r.0, places)
    decreases n
  {
    if n == 0 then (image, Report(true, 0, 0, 0)) else
      var (before, report) := Apply(image, places, fs, pageSize, n - 1);
      if !report.ok then (before, report) else
        match SiteOf(places, fs[n - 1], pageSize)
        case UnsupportedKind => (before, report.(unsupported := report.unsupported + 1))
        case BadTarget => (before, report.(ok := false))
        case NoOwner => (before, report.(ok := false))
        case OutOfRange => (before, report.(outOfRange := report.outOfRange + 1))
        case At(unit, offset, value) => (WriteAt(before, At(unit, offset, value)), report.(applied := report.applied + 1))
  }

  function Relocate(image: Image, places: seq<Place>, fs: seq<Fixup>, pageSize: u32): (Image, Report)
    requires Sized(image, places)
  {
    Apply(image, places, fs, pageSize, |fs|)
  }

  // ---- Counting ----

  /** On success every record was applied or skipped, and the skipped ones are of an unsupported kind or out of range. */
  lemma {:induction false} EveryRecordCounts(image: Image, places: seq<Place>, fs: seq<Fixup>, pageSize: u32, n: nat)
    requires Sized(image, places) && n <= |fs|
    ensures var r := Apply(image, places, fs, pageSize, n).1;
            && (r.ok ==> r.applied + r.unsupported + r.outOfRange == n)
            && (r.ok <==> forall k | 0 <= k < n :: !SiteOf(places, fs[k], pageSize).BadTarget? && !SiteOf(places, fs[k], pageSize).NoOwner?)
    decreases n
  {
    hide SiteOf, WriteAt, Sized;
    if n > 0 { EveryRecordCounts(image, places, fs, pageSize, n - 1); }
  }

  // ---- What becomes of each byte ----

  predicate Covers(s: Site, unit: nat, x: nat) {
    s.At? && s.unit == unit && s.offset <= x < s.offset + 4
  }

  /** The record among the first `n` whose write to the byte survives: the last one before the first failure. */
  function LastWrite(places: seq<Place>, fs: seq<Fixup>, pageSize: u32, n: nat, unit: nat, x: nat): (r: Option<nat>)
    requires n <= |fs|
    ensures r.Some? ==> r.value < n && Covers(SiteOf(places, fs[r.value], pageSize), unit, x)
    decreases n
  {
    if n == 0 then None
    else if Runs(places, fs, pageSize, n - 1) && Covers(SiteOf(places, fs[n - 1], pageSize), unit, x) then Some(n - 1)
    else LastWrite(places, fs, pageSize, n - 1, unit, x)
  }

  /** None of the first `n` records stops. */
  predicate Runs(places: seq<Place>, fs: seq<Fixup>, pageSize: u32, n: nat)
    requires n <= |fs|
  {
    forall k | 0 <= k < n :: !SiteOf(places, fs[k], pageSize).BadTarget? && !SiteOf(places, fs[k], pageSize).NoOwner?
  }

  lemma RunsExactly(image: Image, places: seq<Place>, fs: seq<Fixup>, pageSize: u32, n: nat)
    requires Sized(image, places) && n <= |fs|
    ensures Apply(image, places, fs, pageSize, n).1.ok <==> Runs(places, fs, pageSize, n)
  {
    hide SiteOf, Apply;
    EveryRecordCounts(image, places, fs, pageSize, n);
  }

  lemma ByteWritten(image: Image, s: Site, unit: nat, x: nat)
    requires s.At? && s.unit < |image| && s.offset + 4 <= |image[s.unit]| && unit < |image| && x < |image[unit]|
    ensures WriteAt(image, s)[unit][x] == if Covers(s, unit, x) then Bytes32(s.value)[x - s.offset] else image[unit][x]
  {
    hide Put, Bytes32;
    if unit == s.unit { PutAt(image[unit], s.offset, Bytes32(s.value), x); }
  }

  /** A byte holds what the last write to it wrote, or what it held before: earlier contents do not matter otherwise. */
  lemma {:induction false} ByteAfter(image: Image, places: seq<Place>, fs: seq<Fixup>, pageSize: u32, n: nat, unit: nat, x: nat)
    requires Sized(image, places) && n <= |fs| && unit < |image| && x < |image[unit]|
    ensures var w := LastWrite(places, fs, pageSize, n, unit, x);
            Apply(image, places, fs, pageSize, n).0[unit][x] ==
            match w
            case None => image[unit][x]
            case Some(k) => Bytes32(SiteOf(places, fs[k], pageSize).value)[x - SiteOf(places, fs[k], pageSize).offset]
    decreases n
  {
    hide SiteOf, WriteAt, Bytes32, Runs;
    RunsExactly(image, places, fs, pageSize, n);
    if n > 0 {
      ByteAfter(image, places, fs, pageSize, n - 1, unit, x);
      RunsExactly(image, places, fs, pageSize, n - 1);
      var s := SiteOf(places, fs[n - 1], pageSize);
      if s.At? { ByteWritten(Apply(image, places, fs, pageSize, n - 1).0, s, unit, x); }
    }
  }

  /** Relocating twice gives the same image and report as relocating once, even where sites overlap. */
  lemma RelocationIsIdempotent(image: Image, places: seq<Place>, fs: seq<Fixup>, pageSize: u32)
    requires Sized(image, places)
    ensures Relocate(Relocate(image, places, fs, pageSize).0, places, fs, pageSize) == Relocate(image, places, fs, pageSize)
  {
    hide SiteOf, Apply, Bytes32;
    var once := Relocate(image, places, fs, pageSize).0;
    var twice := Relocate(once, places, fs, pageSize).0;
    forall unit: nat | unit < |image| ensures twice[unit] == once[unit] {
      forall x: nat | x < |image[unit]| ensures twice[unit][x] == once[unit][x] {
        ByteAfter(image, places, fs, pageSize, |fs|, unit, x);
        ByteAfter(once, places, fs, pageSize, |fs|, unit, x);
      }
    }
    assert twice == once;
    SameReport(image, once, places, fs, pageSize, |fs|);
  }

  lemma {:induction false} SameReport(image: Image, image': Image, places: seq<Place>, fs: seq<Fixup>, pageSize: u32, n: nat)
    requires Sized(image, places) && Sized(image', places) && n <= |fs|
    ensures Apply(image, places, fs, pageSize, n).1 == Apply(image', places, fs, pageSize, n).1
    decreases n
  {
    hide SiteOf, WriteAt, Sized;
    if n > 0 { SameReport(image, image', places, fs, pageSize, n - 1); }
  }

  /** Only bytes inside the four-byte windows of applied records change, and no object changes its size. */
  lemma RelocationStaysInWindows(image: Image, places: seq<Place>, fs: seq<Fixup>, pageSize: u32, unit: nat, x: nat)
    requires Sized(image, places) && unit < |image| && x < |image[unit]|
    requires forall k | 0 <= k < |fs| :: !Covers(SiteOf(places, fs[k], pageSize), unit, x)
    ensures Relocate(image, places, fs, pageSize).0[unit][x] == image[unit][x]
    ensures |Relocate(image, places, fs, pageSize).0[unit]| == |image[unit]|
  {
    hide SiteOf, Apply, Bytes32;
    ByteAfter(image, places, fs, pageSize, |fs|, unit, x);
  }

  // ---- What is written where, in terms of the record ----

  /** The object's pages, counted from one in the page table, include the record's page, all in 32 bits. */
  predicate HasPage(p: Place, page: u32) {
    var first := (p.pageIndex - 1) % WORD;
    first <= page && page < (first + p.pageCount) % WORD
  }

  /**
   A 32-bit offset record, written over four bytes of the first object that has its page, at its signed offset from
   that page: there goes the address of the target object plus the target offset.
   */
  ghost predicate Writes(places: seq<Place>, f: Fixup, pageSize: u32, unit: nat, offset: nat, value: u32) {
    && f.sourceType % 16 == 7
    && 1 <= f.targetObject <= |places|
    && unit < |places| && HasPage(places[unit], f.page) && (forall i | 0 <= i < unit :: !HasPage(places[i], f.page))
    && offset == FromPage(places[unit], f, pageSize)
    && offset < WORD && offset + 4 <= places[unit].size
    && value == (places[f.targetObject - 1].base + f.targetOffset) % WORD
  }

  /** The page's start within the object, moved by the sixteen-bit two's complement offset. */
  function FromPage(p: Place, f: Fixup, pageSize: u32): int {
    (f.page - (p.pageIndex - 1) % WORD) * pageSize + f.sourceOffset - (if f.sourceOffset < 0x8000 then 0 else 0x1_0000)
  }

  lemma OwnsPage(p: Place, page: u32)
    ensures Owns(p, page) <==> HasPage(p, page)
  {
  }

  lemma {:induction false} FirstOwner(places: seq<Place>, page: u32, i: nat)
    requires i <= |places|
    ensures var r := Owner(places, page, i);
            match r
            case Some(u) => HasPage(places[u], page) && forall k | i <= k < u :: !HasPage(places[k], page)
            case None => forall k | i <= k < |places| :: !HasPage(places[k], page)
    decreases |places| - i
  {
    hide Owns, HasPage;
    if i < |places| {
      OwnsPage(places[i], page);
      if Owns(places[i], page) { } else { FirstOwner(places, page, i + 1); }
    }
  }

  /** A record is applied exactly where its fields say, with the value they say. */
  lemma SiteIsWritten(places: seq<Place>, f: Fixup, pageSize: u32, unit: nat, offset: nat, value: u32)
    ensures SiteOf(places, f, pageSize) == At(unit, offset, value) <==> Writes(places, f, pageSize, unit, offset, value)
  {
    hide Owns, HasPage, Owner;
    FirstOwner(places, f.page, 0);
    if Owner(places, f.page, 0).Some? {
      var u := Owner(places, f.page, 0).value;
      assert SourceOffset(places[u], f, pageSize) == FromPage(places[u], f, pageSize);
      if unit < |places| && HasPage(places[unit], f.page) && forall i | 0 <= i < unit :: !HasPage(places[i], f.page) {
        assert unit == u;
      }
    }
  }

  /** The first object with the record's page and the record's offset in it. */
  ghost predicate Located(places: seq<Place>, f: Fixup, pageSize: u32, unit: nat) {
    && unit < |places| && HasPage(places[unit], f.page) && (forall i | 0 <= i < unit :: !HasPage(places[i], f.page))
    && 0 <= FromPage(places[unit], f, pageSize) < WORD
  }

  /**
   What becomes of the other records: one of another kind than seven is passed over; one without a target object, or
   whose source lies on no object or outside 32 bits, stops the relocation; one whose four bytes do not fit is skipped.
   */
  lemma SiteIsNotWritten(places: seq<Place>, f: Fixup, pageSize: u32)
    ensures SiteOf(places, f, pageSize).UnsupportedKind? <==> f.sourceType % 16 != 7
    ensures SiteOf(places, f, pageSize).BadTarget? <==> f.sourceType % 16 == 7 && !(1 <= f.targetObject <= |places|)
    ensures SiteOf(places, f, pageSize).NoOwner? <==>
            f.sourceType % 16 == 7 && 1 <= f.targetObject <= |places| && forall unit: nat :: !Located(places, f, pageSize, unit)
    ensures SiteOf(places, f, pageSize).OutOfRange? <==>
            && f.sourceType % 16 == 7 && 1 <= f.targetObject <= |places|
            && exists unit: nat | Located(places, f, pageSize, unit) :: FromPage(places[unit], f, pageSize) + 4 > places[unit].size
  {
    hide Owns, HasPage, Owner;
    FirstOwner(places, f.page, 0);
    var owner := Owner(places, f.page, 0);
    if owner.Some? {
      var u := owner.value;
      assert SourceOffset(places[u], f, pageSize) == FromPage(places[u], f, pageSize);
      forall unit: nat | Located(places, f, pageSize, unit) ensures unit == u {}
      assert Located(places, f, pageSize, u) <==> 0 <= FromPage(places[u], f, pageSize) < WORD;
    }
  }

  /** No record from `from` on writes to the four bytes. */
  ghost predicate Untouched(places: seq<Place>, fs: seq<Fixup>, pageSize: u32, from: nat, unit: nat, offset: nat) {
    forall l, o: nat, v: u32 | from <= l < |fs| && Writes(places, fs[l], pageSize, unit, o, v) :: o + 4 <= offset || offset + 4 <= o
  }

  lemma {:induction false} SurvivingWrite(places: seq<Place>, fs: seq<Fixup>, pageSize: u32, n: nat, k: nat, unit: nat, offset: nat,
                                          value: u32, x: nat)
    requires k < n <= |fs| && Runs(places, fs, pageSize, n)
    requires Writes(places, fs[k], pageSize, unit, offset, value) && Untouched(places, fs, pageSize, k + 1, unit, offset)
    requires offset <= x < offset + 4
    ensures LastWrite(places, fs, pageSize, n, unit, x) == Some(k)
    decreases n
  {
    hide SiteOf, Writes;
    SiteIsWritten(places, fs[k], pageSize, unit, offset, value);
    assert Runs(places, fs, pageSize, n - 1);
    if n - 1 > k {
      var s := SiteOf(places, fs[n - 1], pageSize);
      if s.At? { SiteIsWritten(places, fs[n - 1], pageSize, s.unit, s.offset, s.value); }
      SurvivingWrite(places, fs, pageSize, n - 1, k, unit, offset, value, x);
    }
  }

  /** After a successful relocation the word at a record's source is its target's address, unless a later record writes there. */
  lemma RelocatedWord(image: Image, places: seq<Place>, fs: seq<Fixup>, pageSize: u32, k: nat, unit: nat, offset: nat, value: u32)
    requires Sized(image, places) && k < |fs| && Relocate(image, places, fs, pageSize).1.ok
    requires Writes(places, fs[k], pageSize, unit, offset, value) && Untouched(places, fs, pageSize, k + 1, unit, offset)
    ensures var after := Relocate(image, places, fs, pageSize).0;
            && unit < |after| && offset + 4 <= |after[unit]|
            && after[unit][offset] == value % 0x100 && after[unit][offset + 1] == value / 0x100 % 0x100
            && after[unit][offset + 2] == value / 0x1_0000 % 0x100 && after[unit][offset + 3] == value / 0x100_0000
  {
    hide SiteOf, Apply, Untouched, Bytes32, HasPage, FromPage;
    RunsExactly(image, places, fs, pageSize, |fs|);
    SiteIsWritten(places, fs[k], pageSize, unit, offset, value);
    var b := Relocate(image, places, fs, pageSize).0[unit];
    forall x: nat | offset <= x < offset + 4 ensures b[x] == Bytes32(value)[x - offset] {
      SurvivingWrite(places, fs, pageSize, |fs|, k, unit, offset, value, x);
      ByteAfter(image, places, fs, pageSize, |fs|, unit, x);
    }
    BytesOfWord(value);
  }

  lemma BytesOfWord(value: u32)
    ensures Bytes32(value) == [value % 0x100, value / 0x100 % 0x100, value / 0x1_0000 % 0x100, value / 0x100_0000]
  {
  }

  // ---- Fixups across a page boundary ----

  /** Records on two pages of one object hit the same bytes exactly when their signed offsets differ by the pages between them. */
  lemma EitherPageHitsTheSameBytes(places: seq<Place>, f: Fixup, g: Fixup, pageSize: u32)
    requires f.sourceType % 16 == g.sourceType % 16 == OFFSET32_KIND
    requires f.targetObject == g.targetObject && f.targetOffset == g.targetOffset
    requires Owner(places, f.page, 0).Some? && Owner(places, g.page, 0) == Owner(places, f.page, 0)
    requires SiteOf(places, f, pageSize).At?
    ensures SiteOf(places, g, pageSize) == SiteOf(places, f, pageSize) <==>
            (g.page - f.page) * pageSize == Signed16(f.sourceOffset) - Signed16(g.sourceOffset)
  {
    hide Wrap, Owns, Owner, Signed16;
    var p := places[Owner(places, f.page, 0).value];
    var first := Wrap(p.pageIndex - 1);
    PagesBetween(f.page - first, g.page - first, pageSize);
  }

  lemma PagesBetween(a: int, b: int, pageSize: int)
    ensures (b - a) * pageSize == b * pageSize - a * pageSize
  {
  }

  // ---- The image object ----

  /** A mapped object: its record, and its memory, written in place. */
  class MappedObject {
    const base: u32
    const pageIndex: u32
    const pageCount: u32
    const memory: array<u8>

    constructor (base: u32, pageIndex: u32, pageCount: u32, size: nat)
      ensures this.base == base && this.pageIndex == pageIndex && this.pageCount == pageCount
      ensures fresh(memory) && memory.Length == size
    {
      this.base, this.pageIndex, this.pageCount := base, pageIndex, pageCount;
      memory := new u8[size](_ => 0);
    }

    ghost function Placed(): Place {
      Place(base, pageIndex, pageCount, memory.Length)
    }
  }

  class LeImage {
    const objects: seq<MappedObject>

    constructor (objects: seq<MappedObject>)
      ensures this.objects == objects
    {
      this.objects := objects;
    }

    /** No two objects share their memory. */
    ghost predicate Valid() {
      forall i, j | 0 <= i < j < |objects| :: objects[i].memory != objects[j].memory
    }

    ghost function Memories(): set<object> {
      set i | 0 <= i < |objects| :: objects[i].memory
    }

    ghost function Places(): (r: seq<Place>)
      ensures |r| == |objects| && forall i | 0 <= i < |r| :: r[i] == objects[i].Placed()
    {
      seq(|objects|, i requires 0 <= i < |objects| => objects[i].Placed())
    }

    ghost function Contents(): (r: Image)
      reads Memories()
      ensures |r| == |objects| && forall i | 0 <= i < |r| :: r[i] == objects[i].memory[..]
    {
      seq(|objects|, i requires 0 <= i < |objects| reads Memories() => objects[i].memory[..])
    }

    /** The first object that owns the page. */
    method FindOwner(page: u32) returns (r: Option<nat>)
      ensures r == Owner(Places(), page, 0)
    {
      var i: nat := 0;
      while i < |objects|
        invariant i <= |objects| && Owner(Places(), page, 0) == Owner(Places(), page, i)
      {
        var first := Wrap(objects[i].pageIndex - 1);
        if first <= page < Wrap(first + objects[i].pageCount) { return Some(i); }
        i := i + 1;
      }
      r := None;
    }

    /** Write the four bytes of the value over the memory of the object. */
    method WriteWord(unit: nat, offset: nat, value: u32)
      requires Valid() && unit < |objects| && offset + 4 <= objects[unit].memory.Length
      modifies objects[unit].memory
      ensures Contents() == WriteAt(old(Contents()), At(unit, offset, value))
    {
      var m := objects[unit].memory;
      var v: int := value;
      m[offset] := v % 0x100;
      m[offset + 1] := v / 0x100 % 0x100;
      m[offset + 2] := v / 0x100 / 0x100 % 0x100;
      m[offset + 3] := v / 0x100 / 0x100 / 0x100;
      assert m[..] == Put(old(m[..]), offset, Bytes32(value));
      assert forall i | 0 <= i < |objects| && i != unit :: objects[i].memory != m;
    }

    /** What the record asks for, checked field by field. */
    method Locate(f: Fixup, pageSize: u32) returns (s: Site)
      ensures s == SiteOf(Places(), f, pageSize)
    {
      hide Wrap, Owner, Signed16;
      if f.sourceType % 16 != OFFSET32_KIND { return UnsupportedKind; }
      if f.targetObject == 0 || f.targetObject > |objects| { return BadTarget; }
      var value := Wrap(objects[f.targetObject - 1].base + f.targetOffset);
      var owner := FindOwner(f.page);
      if owner.None? { return NoOwner; }
      var source := objects[owner.value];
      var offset: int := (f.page - Wrap(source.pageIndex - 1)) * pageSize + Signed16(f.sourceOffset);
      if offset < 0 || offset >= WORD { return NoOwner; }
      if offset > source.memory.Length || source.memory.Length - offset < 4 { return OutOfRange; }
      s := At(owner.value, offset, value);
    }

    /** Apply one record to the image and the report. */
    method ApplyRecord(f: Fixup, pageSize: u32, report: Report) returns (r: Report)
      requires Valid() && report.ok
      modifies Memories()
      ensures var s := SiteOf(Places(), f, pageSize);
              && r == (match s
                       case UnsupportedKind => report.(unsupported := report.unsupported + 1)
                       case BadTarget => report.(ok := false)
                       case NoOwner => report.(ok := false)
                       case OutOfRange => report.(outOfRange := report.outOfRange + 1)
                       case At(_, _, _) => report.(applied := report.applied + 1))
              && Contents() == if s.At? then WriteAt(old(Contents()), s) else old(Contents())
    {
      hide SiteOf, WriteAt;
      var s := Locate(f, pageSize);
      match s {
        case UnsupportedKind => r := report.(unsupported := report.unsupported + 1);
        case BadTarget => r := report.(ok := false);
        case NoOwner => r := report.(ok := false);
        case OutOfRange => r := report.(outOfRange := report.outOfRange + 1);
        case At(unit, offset, value) =>
          WriteWord(unit, offset, value);
          r := report.(applied := report.applied + 1);
      }
    }

    lemma ContentsAreSized()
      ensures Sized(Contents(), Places())
    {
    }

    /** Apply the records in order until one fails. */
    method ApplyAll(fs: seq<Fixup>, pageSize: u32) returns (r: Report)
      requires Valid()
      modifies Memories()
      ensures Sized(old(Contents()), Places())
      ensures (Contents(), r) == Relocate(old(Contents()), Places(), fs, pageSize)
    {
      hide SiteOf, WriteAt, Sized;
      ContentsAreSized();
      r := Report(true, 0, 0, 0);
      var n := 0;
      while n < |fs|
        invariant 0 <= n <= |fs| && r.ok
        invariant (Contents(), r) == Apply(old(Contents()), Places(), fs, pageSize, n)
      {
        r := ApplyRecord(fs[n], pageSize, r);
        n := n + 1;
        if !r.ok {
          StoppedStays(old(Contents()), Places(), fs, pageSize, n, |fs|);
          return;
        }
      }
    }
  }

  /** After a failure the remaining records are not looked at. */
  lemma {:induction false} StoppedStays(image: Image, places: seq<Place>, fs: seq<Fixup>, pageSize: u32, n: nat, m: nat)
    requires Sized(image, places) && n <= m <= |fs| && !Apply(image, places, fs, pageSize, n).1.ok
    ensures Apply(image, places, fs, pageSize, m) == Apply(image, places, fs, pageSize, n)
    decreases m - n
  {
    hide SiteOf, WriteAt, Sized;
    if n < m { StoppedStays(image, places, fs, pageSize, n, m - 1); }
  }
}
