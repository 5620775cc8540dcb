/** The heap-file operations on the sequence of pages in the file: first-fit
    insertion, lookup and deletion by record id, and the map from record ids
    to records that they maintain. */
module HeapOps {
  import opened Bytes
  import opened SlotTable
  import opened TableOps
  import opened PageValue
  import opened Compaction
  import opened PageOps

  datatype RID = RID(page: nat, slot: nat)

  datatype Option<T> = None | Some(value: T)

  /** The longest record that fits in an empty page. */
  const MAX_RECORD := PAGE_SIZE - HEADER_SIZE - SLOT_SIZE

  /** From this number of pages on, the int that page_allocate returns is
      negative. */
  const PAGE_LIMIT := 0x8000_0000

  /** From this number of pages on, a uint32_t cannot hold the page count. */
  const FILE_LIMIT := 0x1_0000_0000

  ghost predicate ValidHeap(pages: seq<Page>) {
    forall i :: 0 <= i < |pages| ==> pages[i].Valid()
  }

  predicate Holds(pages: seq<Page>, rid: RID) {
    rid.page < |pages| && pages[rid.page].LiveSlot(rid.slot)
  }

  ghost function RidsBelow(pages: seq<Page>, n: nat): (s: set<RID>)
    requires n <= |pages|
    ensures forall rid :: rid in s <==> rid.page < n && Holds(pages, rid)
  {
    if n == 0 then {}
    else
      var p := pages[n - 1];
      RidsBelow(pages, n - 1) + (set i: nat | i < |p.table.slots| && p.LiveSlot(i) :: RID(n - 1, i))
  }

  /** What the file stores: the bytes of every record. */
  ghost function Records(pages: seq<Page>): (m: map<RID, seq<byte>>)
    requires ValidHeap(pages)
    ensures forall rid :: rid in m <==> Holds(pages, rid)
    ensures forall rid :: Holds(pages, rid) ==> m[rid] == pages[rid.page].Record(rid.slot)
  {
    map rid | rid in RidsBelow(pages, |pages|) :: pages[rid.page].Record(rid.slot)
  }

  ghost function LengthsOf(m: map<RID, seq<byte>>): (r: map<RID, nat>)
    ensures forall rid :: rid in r <==> rid in m
    ensures forall rid :: rid in m ==> r[rid] == |m[rid]|
  {
    map rid | rid in m :: |m[rid]|
  }

  lemma SameMap<K, V>(m: map<K, V>, n: map<K, V>)
    requires forall k :: k in m <==> k in n
    requires forall k :: k in m ==> m[k] == n[k]
    ensures m == n
  {
  }

  // ---- Insertion ----

  /** page_insert would succeed, as InsertSucceedsIff shows. */
  predicate Fits(p: Page, n: nat) {
    0 < n && n + SlotCost(p.table.slots) <= Reclaimable(p.table.slots)
  }

  lemma FitsIffInserted(p: Page, record: seq<byte>)
    requires p.Valid()
    ensures Fits(p, |record|) <==> Inserted(p, record).slot != -1
  {
    CompactedValid(p);
    PreparedSlots(p, |record|);
    LiveFits(p.table);
  }

  /** The lowest page id from i on that takes the record, or count. */
  function FirstFit(pages: seq<Page>, n: nat, i: nat, count: nat): (r: nat)
    requires i <= count <= |pages|
    ensures i <= r <= count
    ensures r < count ==> Fits(pages[r], n)
    ensures forall k :: i <= k < r ==> !Fits(pages[k], n)
    decreases count - i
  {
    if i == count || Fits(pages[i], n) then i else FirstFit(pages, n, i + 1, count)
  }

  datatype HeapOutcome = HeapOutcome(pages: seq<Page>, rid: Option<RID>)

  /** heap_insert when no system call fails. The page count is a uint32_t, and
      the id of an allocated page passes through an int. */
  function HeapInserted(pages: seq<Page>, record: seq<byte>): (r: HeapOutcome)
    requires ValidHeap(pages)
  {
    if |record| > MAX_RECORD then HeapOutcome(pages, None)
    else
      var count := ToU32(|pages|);
      var id := FirstFit(pages, |record|, 0, count);
      if id < count then Stored(pages, id, Inserted(pages[id], record)) else Appended(pages, record)
  }

  /** page_allocate, and an insert into the page it numbers. */
  function Appended(pages: seq<Page>, record: seq<byte>): HeapOutcome {
    var count := ToU32(|pages|);
    if ToI32(count) < 0 then HeapOutcome(pages + [Empty()], None)
    else Stored(pages + [Empty()], count, Inserted(Empty(), record))
  }

  function Stored(pages: seq<Page>, id: nat, placed: Outcome): HeapOutcome
    requires id < |pages|
  {
    if placed.slot < 0 then HeapOutcome(pages, None)
    else HeapOutcome(pages[id := placed.page], Some(RID(id, placed.slot)))
  }

  /** Where the scan of heap_insert stops. */
  lemma ScanStops(pages: seq<Page>, record: seq<byte>, id: nat)
    requires ValidHeap(pages) && |record| <= MAX_RECORD && id <= ToU32(|pages|)
    requires forall k :: 0 <= k < id ==> !Fits(pages[k], |record|)
    requires id < ToU32(|pages|) ==> Fits(pages[id], |record|)
    ensures id < ToU32(|pages|) ==> HeapInserted(pages, record) == Stored(pages, id, Inserted(pages[id], record))
    ensures id == ToU32(|pages|) ==> HeapInserted(pages, record) == Appended(pages, record)
  {
    hide Fits;
    assert FirstFit(pages, |record|, 0, ToU32(|pages|)) == id;
  }

  lemma EmptyFits(record: seq<byte>)
    ensures Inserted(Empty(), record).slot == if 0 < |record| <= MAX_RECORD then 0 else -1
  {
  }

  /** Success boundary, for files of every size. */
  lemma HeapInsertSucceedsIff(pages: seq<Page>, record: seq<byte>)
    requires ValidHeap(pages)
    ensures HeapInserted(pages, record).rid.Some?
       <==> && 0 < |record| <= MAX_RECORD
            && (ToU32(|pages|) < PAGE_LIMIT || exists i :: 0 <= i < ToU32(|pages|) && Fits(pages[i], |record|))
    ensures |record| > MAX_RECORD ==> HeapInserted(pages, record).pages == pages
    ensures |record| == 0 ==> HeapInserted(pages, record).pages == pages + [Empty()]
  {
    EmptyFits(record);
    var count := ToU32(|pages|);
    var id := FirstFit(pages, |record|, 0, count);
    if id < count {
      FitsIffInserted(pages[id], record);
    }
  }

  /** r is pages with the record inserted under rid, in one of the pages or in
      an empty page behind them; no other page differs. */
  ghost predicate Adds(pages: seq<Page>, record: seq<byte>, r: seq<Page>, rid: RID)
    requires ValidHeap(pages)
  {
    var id := rid.page;
    && id <= |pages| && |r| == (if id < |pages| then |pages| else |pages| + 1)
    && (forall k :: 0 <= k < |pages| && k != id ==> r[k] == pages[k])
    && Outcome(r[id], rid.slot) == Inserted(if id < |pages| then pages[id] else Empty(), record)
  }

  /** The page count has wrapped, no page below the wrapped count takes the
      record, and so the id of the allocated page is that of an old one. */
  predicate Wraps(pages: seq<Page>, n: nat) {
    var count := ToU32(|pages|);
    count < |pages| && count < PAGE_LIMIT && FirstFit(pages, n, 0, count) == count
  }

  /** First fit, and its frame: a successful insert goes to the lowest page
      whose reclaimable space suffices, or to a new page when there is none,
      and changes no other page; the pages that were tried and compacted in
      memory before it are as they were. */
  lemma HeapInsertFirstFit(pages: seq<Page>, record: seq<byte>)
    requires ValidHeap(pages) && HeapInserted(pages, record).rid.Some? && !Wraps(pages, |record|)
    ensures Adds(pages, record, HeapInserted(pages, record).pages, HeapInserted(pages, record).rid.value)
    ensures forall k :: 0 <= k < HeapInserted(pages, record).rid.value.page ==> !Fits(pages[k], |record|)
    ensures HeapInserted(pages, record).rid.value.page < |pages| ==>
      Fits(pages[HeapInserted(pages, record).rid.value.page], |record|)
    ensures HeapInserted(pages, record).rid.value.page == FirstFit(pages, |record|, 0, ToU32(|pages|))
    ensures HeapInserted(pages, record).rid.value.page < |pages| ==> HeapInserted(pages, record).rid.value.page < ToU32(|pages|)
  {
    hide Inserted, Fits, Empty;
    var id := FirstFit(pages, |record|, 0, ToU32(|pages|));
  }

  /** What InsertedLengths and InsertedContents say of one slot. */
  lemma InsertedSlot(p: Page, record: seq<byte>, i: nat)
    requires p.Valid() && Inserted(p, record).slot != -1
    ensures var r := Inserted(p, record);
      && r.page.Valid()
      && (i == r.slot ==>
           && !p.LiveSlot(i) && r.page.LiveSlot(i) && |r.page.Record(i)| == |record|
           && (SafeInsert(p, |record|) ==> r.page.Record(i) == record))
      && (i != r.slot ==> r.page.LiveSlot(i) == p.LiveSlot(i))
      && (i != r.slot && p.LiveSlot(i) ==>
           && |r.page.Record(i)| == |p.Record(i)|
           && (SafeInsert(p, |record|) ==> r.page.Record(i) == p.Record(i)))
  {
    InsertedLengths(p, record);
    var r := Inserted(p, record);
    assert i in Lengths(r.page) <==> r.page.LiveSlot(i);
    assert i in Lengths(p) <==> p.LiveSlot(i);
    if SafeInsert(p, |record|) {
      InsertedContents(p, record);
      assert i in r.page.Contents() <==> r.page.LiveSlot(i);
      assert i in p.Contents() <==> p.LiveSlot(i);
    }
  }

  /** The page that takes the record, if it is an old one, loses none by it. */
  ghost predicate AddsSafely(pages: seq<Page>, n: nat, rid: RID) {
    rid.page < |pages| ==> SafeInsert(pages[rid.page], n)
  }

  /** One record id after a record has been added under rid. */
  lemma AddedAt(pages: seq<Page>, record: seq<byte>, r: seq<Page>, rid: RID, x: RID)
    requires ValidHeap(pages) && Adds(pages, record, r, rid)
    ensures ValidHeap(r)
    ensures Holds(r, x) <==> x == rid || Holds(pages, x)
    ensures x == rid ==> !Holds(pages, x)
    ensures Holds(r, x) ==>
      |r[x.page].Record(x.slot)| == if x == rid then |record| else |pages[x.page].Record(x.slot)|
    ensures Holds(r, x) && AddsSafely(pages, |record|, rid) ==>
      r[x.page].Record(x.slot) == if x == rid then record else pages[x.page].Record(x.slot)
  {
    hide Inserted, Layout, SafeInsert;
    var p := if rid.page < |pages| then pages[rid.page] else Empty();
    InsertedLengths(p, record);
    if x.page == rid.page {
      InsertedSlot(p, record, x.slot);
      EmptySafe(|record|);
    }
  }

  lemma EmptySafe(n: nat)
    ensures SafeInsert(Empty(), n)
  {
  }

  /** The id was not in use, and the lengths change by the new record only. */
  lemma AddedLengths(pages: seq<Page>, record: seq<byte>, r: seq<Page>, rid: RID)
    requires ValidHeap(pages) && Adds(pages, record, r, rid)
    ensures ValidHeap(r) && rid !in Records(pages)
    ensures LengthsOf(Records(r)) == LengthsOf(Records(pages))[rid := |record|]
  {
    hide Adds, AddsSafely;
    AddedAt(pages, record, r, rid, rid);
    forall x
      ensures x in Records(r) <==> x == rid || x in Records(pages)
      ensures x in Records(r) ==> |Records(r)[x]| == if x == rid then |record| else |Records(pages)[x]|
    {
      AddedAt(pages, record, r, rid, x);
    }
    SameMap(LengthsOf(Records(r)), LengthsOf(Records(pages))[rid := |record|]);
  }

  /** The bytes change by the new record only, if it was added safely. */
  lemma AddedRecords(pages: seq<Page>, record: seq<byte>, r: seq<Page>, rid: RID)
    requires ValidHeap(pages) && Adds(pages, record, r, rid) && AddsSafely(pages, |record|, rid)
    ensures ValidHeap(r) && Records(r) == Records(pages)[rid := record]
  {
    hide Adds, AddsSafely;
    AddedAt(pages, record, r, rid, rid);
    forall x
      ensures x in Records(r) <==> x == rid || x in Records(pages)
      ensures x in Records(r) ==> Records(r)[x] == if x == rid then record else Records(pages)[x]
    {
      AddedAt(pages, record, r, rid, x);
    }
    SameMap(Records(r), Records(pages)[rid := record]);
  }

  /** A new page adds the record as its first one, below 2^32 pages. */
  lemma AppendedAdds(pages: seq<Page>, record: seq<byte>)
    requires ValidHeap(pages) && |pages| < FILE_LIMIT && Appended(pages, record).rid.Some?
    ensures Adds(pages, record, Appended(pages, record).pages, Appended(pages, record).rid.value)
    ensures Appended(pages, record).rid.value.page == |pages|
  {
  }

  /** An insert that is refused leaves at most an empty page behind. */
  lemma HeapInsertRefused(pages: seq<Page>, record: seq<byte>)
    requires ValidHeap(pages) && HeapInserted(pages, record).rid.None?
    ensures HeapInserted(pages, record).pages in {pages, pages + [Empty()]}
  {
  }

  lemma RefusedRecords(pages: seq<Page>, r: seq<Page>)
    requires ValidHeap(pages) && r in {pages, pages + [Empty()]}
    ensures ValidHeap(r) && Records(r) == Records(pages)
  {
    assert forall rid :: Holds(r, rid) <==> Holds(pages, rid);
  }

  /** An insert adds one record of the given length under an id that was not in
      use, or none, and changes no other record's length, unless it wraps. */
  lemma HeapInsertLengths(pages: seq<Page>, record: seq<byte>)
    requires ValidHeap(pages) && !Wraps(pages, |record|)
    ensures ValidHeap(HeapInserted(pages, record).pages)
    ensures var r := HeapInserted(pages, record);
      if r.rid.None? then Records(r.pages) == Records(pages)
      else r.rid.value !in Records(pages)
           && LengthsOf(Records(r.pages)) == LengthsOf(Records(pages))[r.rid.value := |record|]
  {
    hide HeapInserted, Adds, Wraps;
    var r := HeapInserted(pages, record);
    if r.rid.Some? {
      HeapInsertFirstFit(pages, record);
      AddedLengths(pages, record, r.pages, r.rid.value);
    } else {
      HeapInsertRefused(pages, record);
      RefusedRecords(pages, r.pages);
    }
  }

  /** The record itself, and every other record, where no kept compaction
      clobbers. */
  lemma HeapInsertRecords(pages: seq<Page>, record: seq<byte>)
    requires ValidHeap(pages) && !Wraps(pages, |record|)
    requires HeapInserted(pages, record).rid.Some?
    requires AddsSafely(pages, |record|, HeapInserted(pages, record).rid.value)
    ensures var r := HeapInserted(pages, record);
      ValidHeap(r.pages) && Records(r.pages) == Records(pages)[r.rid.value := record]
  {
    hide HeapInserted, Adds, Wraps;
    var r := HeapInserted(pages, record);
    HeapInsertFirstFit(pages, record);
    AddedRecords(pages, record, r.pages, r.rid.value);
  }

  // ---- Files of 2^32 pages and more ----

  /** On files of every size an insert keeps the pages valid, drops none and
      adds at most one. */
  lemma HeapInsertValid(pages: seq<Page>, record: seq<byte>)
    requires ValidHeap(pages)
    ensures ValidHeap(HeapInserted(pages, record).pages)
    ensures |pages| <= |HeapInserted(pages, record).pages| <= |pages| + 1
  {
    hide Inserted, Fits;
    InsertedLengths(Empty(), record);
    var id := FirstFit(pages, |record|, 0, ToU32(|pages|));
    if id < ToU32(|pages|) {
      InsertedLengths(pages[id], record);
    }
  }

  lemma AppendedValid(pages: seq<Page>, record: seq<byte>)
    requires ValidHeap(pages)
    ensures ValidHeap(Appended(pages, record).pages)
    ensures |Appended(pages, record).pages| == |pages| + 1 || Appended(pages, record).rid.None?
    ensures |pages| <= |Appended(pages, record).pages|
  {
    hide Inserted;
    InsertedLengths(Empty(), record);
  }

  /** An insert that wraps replaces an old page by one with just the record. */
  lemma WrappedInsert(pages: seq<Page>, record: seq<byte>)
    requires ValidHeap(pages) && Wraps(pages, |record|) && 0 < |record| <= MAX_RECORD
    ensures HeapInserted(pages, record).rid == Some(RID(ToU32(|pages|), 0))
    ensures HeapInserted(pages, record).pages ==
      pages[ToU32(|pages|) := Inserted(Empty(), record).page] + [Empty()]
  {
    hide Inserted, Fits, Empty;
    EmptyFits(record);
  }

  /** The insert returns an unused id and changes no other record's length. */
  ghost predicate KeepsOthers(pages: seq<Page>, record: seq<byte>)
    requires ValidHeap(pages) && HeapInserted(pages, record).rid.Some?
  {
    var r := HeapInserted(pages, record);
    && ValidHeap(r.pages) && r.rid.value !in Records(pages)
    && LengthsOf(Records(r.pages)) == LengthsOf(Records(pages))[r.rid.value := |record|]
  }

  /** The exact condition, for files of every size: a successful insert keeps
      the other records' ids and lengths if and only if it does not wrap or the
      page that it then replaces stores no record. */
  lemma KeepsOthersIff(pages: seq<Page>, record: seq<byte>)
    requires ValidHeap(pages) && HeapInserted(pages, record).rid.Some?
    ensures KeepsOthers(pages, record)
       <==> (Wraps(pages, |record|) ==> forall i :: !pages[ToU32(|pages|)].LiveSlot(i))
  {
    hide HeapInserted;
    if !Wraps(pages, |record|) {
      HeapInsertLengths(pages, record);
    } else {
      HeapInsertSucceedsIff(pages, record);
      WrappedInsert(pages, record);
      HeapInsertValid(pages, record);
      WrappedKeepsOthersIff(pages, record);
    }
  }

  /** A record id after an insert that wraps. */
  lemma WrappedAt(pages: seq<Page>, record: seq<byte>, x: RID)
    requires ValidHeap(pages) && ToU32(|pages|) < |pages| && 0 < |record| <= MAX_RECORD
    ensures var id := ToU32(|pages|);
      var r := pages[id := Inserted(Empty(), record).page] + [Empty()];
      && ValidHeap(r)
      && (Holds(r, x) <==> x == RID(id, 0) || (x.page != id && Holds(pages, x)))
      && (Holds(r, x) ==>
            |r[x.page].Record(x.slot)| == if x.page == id then |record| else |pages[x.page].Record(x.slot)|)
  {
    hide Inserted, Layout;
    EmptyFits(record);
    InsertedLengths(Empty(), record);
    if x.page == ToU32(|pages|) {
      InsertedSlot(Empty(), record, x.slot);
    }
  }

  lemma WrappedKeepsOthersIff(pages: seq<Page>, record: seq<byte>)
    requires ValidHeap(pages) && ToU32(|pages|) < |pages| && 0 < |record| <= MAX_RECORD
    requires HeapInserted(pages, record).rid == Some(RID(ToU32(|pages|), 0))
    requires HeapInserted(pages, record).pages == pages[ToU32(|pages|) := Inserted(Empty(), record).page] + [Empty()]
    ensures KeepsOthers(pages, record) <==> forall i :: !pages[ToU32(|pages|)].LiveSlot(i)
  {
    hide HeapInserted, Inserted, Empty;
    var id, r := ToU32(|pages|), HeapInserted(pages, record).pages;
    var rid := RID(id, 0);
    WrappedAt(pages, record, rid);
    if i :| pages[id].LiveSlot(i) {
      WrappedAt(pages, record, RID(id, i));
      WrappedLoses(pages, record, RID(id, i));
    } else {
      forall x
        ensures x in Records(r) <==> x == rid || x in Records(pages)
        ensures x in Records(r) ==> |Records(r)[x]| == if x == rid then |record| else |Records(pages)[x]|
        ensures x == rid ==> x !in Records(pages)
      {
        WrappedAt(pages, record, x);
        NotOnEmptyPage(pages, id, x);
      }
      SameMap(LengthsOf(Records(r)), LengthsOf(Records(pages))[rid := |record|]);
    }
  }

  lemma NotOnEmptyPage(pages: seq<Page>, id: nat, x: RID)
    requires id < |pages| && forall i :: !pages[id].LiveSlot(i)
    ensures Holds(pages, x) ==> x.page != id
  {
  }

  lemma WrappedLoses(pages: seq<Page>, record: seq<byte>, x: RID)
    requires ValidHeap(pages) && Holds(pages, x) && HeapInserted(pages, record).rid.Some?
    requires HeapInserted(pages, record).rid == Some(x) || !Holds(HeapInserted(pages, record).pages, x)
    ensures !KeepsOthers(pages, record)
  {
    hide HeapInserted;
    var r := HeapInserted(pages, record);
    HeapInsertValid(pages, record);
    assert x in LengthsOf(Records(pages))[r.rid.value := |record|];
    assert x in LengthsOf(Records(r.pages)) <==> Holds(r.pages, x);
  }

  // ---- Deletion ----

  function HeapDeleted(pages: seq<Page>, rid: RID): (r: seq<Page>)
    requires ValidHeap(pages)
  {
    if rid.page < ToU32(|pages|) && Holds(pages, rid) then pages[rid.page := Deleted(pages[rid.page], rid.slot)] else pages
  }

  /** A delete removes exactly the named record, if its page can be named. */
  lemma HeapDeletedRecords(pages: seq<Page>, rid: RID)
    requires ValidHeap(pages)
    ensures ValidHeap(HeapDeleted(pages, rid)) && |HeapDeleted(pages, rid)| == |pages|
    ensures Records(HeapDeleted(pages, rid)) ==
      if rid.page < ToU32(|pages|) then Records(pages) - {rid} else Records(pages)
  {
    hide Layout, Deleted;
    if rid.page < ToU32(|pages|) && Holds(pages, rid) {
      var r := HeapDeleted(pages, rid);
      DeletedContents(pages[rid.page], rid.slot);
      assert ValidHeap(r);
      hide HeapDeleted;
      forall x
        ensures x in Records(r) <==> x in Records(pages) - {rid}
        ensures x in Records(r) ==> Records(r)[x] == Records(pages)[x]
      {
        HeapDeletedAt(pages, rid, x);
      }
      SameMap(Records(r), Records(pages) - {rid});
    } else {
      assert rid.page < ToU32(|pages|) ==> Records(pages) - {rid} == Records(pages);
    }
  }

  /** Nothing else changes, in the page of the record or elsewhere: the slot
      keeps its offset and its page its other slots, its freeStart and all its
      bytes between header and directory. */
  lemma HeapDeletedFrame(pages: seq<Page>, rid: RID)
    requires ValidHeap(pages) && rid.page < ToU32(|pages|) && Holds(pages, rid)
    ensures var r := HeapDeleted(pages, rid);
      && |r| == |pages|
      && (forall id :: 0 <= id < |pages| && id != rid.page ==> r[id] == pages[id])
      && var p, q := pages[rid.page], r[rid.page];
        && |q.table.slots| == |p.table.slots|
        && q.table.slots[rid.slot] == Slot(p.table.slots[rid.slot].offset, 0)
        && (forall k :: 0 <= k < |p.table.slots| && k != rid.slot ==> q.table.slots[k] == p.table.slots[k])
        && q.table.freeStart == p.table.freeStart && q.area == p.area
  {
    hide Layout;
    DeletedFrame(pages[rid.page], rid.slot);
  }

  /** A delete that finds no record changes nothing. */
  lemma HeapDeletedNothing(pages: seq<Page>, rid: RID)
    requires ValidHeap(pages) && !(rid.page < ToU32(|pages|) && Holds(pages, rid))
    ensures HeapDeleted(pages, rid) == pages
  {
  }

  lemma HeapDeletedAt(pages: seq<Page>, rid: RID, x: RID)
    requires ValidHeap(pages) && rid.page < ToU32(|pages|) && Holds(pages, rid)
    ensures var r := HeapDeleted(pages, rid);
      && ValidHeap(r)
      && (Holds(r, x) <==> x != rid && Holds(pages, x))
      && (Holds(r, x) ==> r[x.page].Record(x.slot) == pages[x.page].Record(x.slot))
  {
    hide Deleted, Layout;
    var p := pages[rid.page];
    DeletedContents(p, rid.slot);
    assert x.slot in Deleted(p, rid.slot).Contents() <==> x.slot != rid.slot && x.slot in p.Contents();
  }

  // ---- Lookup ----

  function HeapGot(pages: seq<Page>, rid: RID, bufferSize: nat): int {
    if rid.page < ToU32(|pages|) then Got(pages[rid.page], rid.slot, bufferSize) else -1
  }
}
