/** The page operations on page values, and what they promise their callers:
    when an insert succeeds, what it stores, and what it leaves alone. */
module PageOps {
  import opened Bytes
  import opened SlotTable
  import opened TableOps
  import opened PageValue
  import opened Compaction

  /** The most slots a page can ever have. */
  const MAX_SLOTS := 818

  /** page_init. */
  function Empty(): (p: Page)
    ensures p.Valid() && |p.table.slots| == 0
  {
    Page(Table(HEADER_SIZE, []), seq(AreaSize(0), _ => 0))
  }

  /** What a caller can see of a page without reading its bytes. */
  ghost function Lengths(p: Page): (m: map<nat, nat>)
    ensures forall i :: i in m <==> p.LiveSlot(i)
    ensures forall i :: p.LiveSlot(i) ==> m[i] == p.table.slots[i].length
  {
    map i: nat | i < |p.table.slots| && p.LiveSlot(i) :: p.table.slots[i].length
  }

  // ---- Insertion ----

  datatype Outcome = Outcome(page: Page, slot: int)

  /** The page has too little contiguous space, so page_insert compacts it. */
  predicate NeedsCompaction(p: Page, n: nat) {
    Gap(p.table) < n + SlotCost(p.table.slots)
  }

  /** The record, and a directory entry when all slots are live, fit between
      freeStart and the directory as the page stands. */
  predicate HasRoom(p: Page, n: nat) {
    p.table.freeStart + n + (if exists i :: 0 <= i < |p.table.slots| && !p.LiveSlot(i) then 0 else SLOT_SIZE)
      <= PAGE_SIZE - SLOT_SIZE * |p.table.slots|
  }

  lemma CompactsIff(p: Page, n: nat)
    ensures NeedsCompaction(p, n) <==> !HasRoom(p, n)
  {
    DeadSlotIff(p);
  }

  lemma DeadSlotIff(p: Page)
    ensures (exists i :: 0 <= i < |p.table.slots| && !p.LiveSlot(i)) <==> FirstDead(p.table.slots) < |p.table.slots|
  {
    if FirstDead(p.table.slots) < |p.table.slots| {
      assert !p.LiveSlot(FirstDead(p.table.slots));
    }
  }

  /** The page that page_insert places the record in, if it fits. */
  function Prepared(p: Page, n: nat): (q: Page)
    requires p.Valid()
    ensures q.Valid()
  {
    CompactedValid(p);
    if NeedsCompaction(p, n) then Compacted(p) else p
  }

  /** The record stored at freeStart, under the lowest dead slot or a new one,
      which takes its four bytes from the end of the record area. */
  function Placed(p: Page, record: seq<byte>): (q: Page)
    requires p.Valid() && 0 < |record| && !NeedsCompaction(p, |record|)
  {
    var t := PlaceTable(p.table, |record|);
    Page(t, Splice(p.area, p.table.freeStart - HEADER_SIZE, record)[..AreaSize(|t.slots|)])
  }

  function Inserted(p: Page, record: seq<byte>): (r: Outcome)
    requires p.Valid()
  {
    var q := Prepared(p, |record|);
    if |record| == 0 then Outcome(p, -1)
    else if NeedsCompaction(q, |record|) then Outcome(q, -1)
    else Outcome(Placed(q, record), FirstDead(q.table.slots))
  }

  lemma PreparedSlots(p: Page, n: nat)
    requires p.Valid()
    ensures var q := Prepared(p, n);
      && |q.table.slots| == |p.table.slots|
      && (forall i :: 0 <= i < |p.table.slots| ==> q.table.slots[i].length == p.table.slots[i].length)
      && FirstDead(q.table.slots) == FirstDead(p.table.slots)
      && Reclaimable(q.table.slots) == Reclaimable(p.table.slots)
      && Lengths(q) == Lengths(p)
  {
    CompactedValid(p);
    FirstDeadSameLengths(Prepared(p, n).table.slots, p.table.slots);
  }

  /** Completeness: an insert succeeds if and only if the record and, when all
      slots are live, a directory entry fit in the space that no live record
      takes; how that space is scattered never matters. */
  lemma InsertSucceedsIff(p: Page, record: seq<byte>)
    requires p.Valid()
    ensures Inserted(p, record).slot != -1
       <==> 0 < |record|
            && HEADER_SIZE + Total(p.table.slots) + |record|
               + (if exists i :: 0 <= i < |p.table.slots| && !p.LiveSlot(i) then 0 else SLOT_SIZE)
               <= PAGE_SIZE - SLOT_SIZE * |p.table.slots|
  {
    CompactedValid(p);
    PreparedSlots(p, |record|);
    LiveFits(p.table);
    DeadSlotIff(p);
  }

  lemma PlacedRecords(p: Page, record: seq<byte>)
    requires p.Valid() && 0 < |record| && !NeedsCompaction(p, |record|)
    ensures var q, d := Placed(p, record), FirstDead(p.table.slots);
      && q.Valid()
      && !p.LiveSlot(d) && q.LiveSlot(d)
      && q.table.slots[d].length == |record| && q.Record(d) == record
      && (forall i :: i != d ==> q.LiveSlot(i) == p.LiveSlot(i))
      && (forall i :: i != d && p.LiveSlot(i) ==> q.table.slots[i] == p.table.slots[i])
  {
    var q, d := Placed(p, record), FirstDead(p.table.slots);
    PlaceTableLayout(p.table, |record|);
    var at := p.table.freeStart - HEADER_SIZE;
    SpliceSlices(p.area, at, record, AreaSize(|q.table.slots|), 0, 0);
    assert q.table.slots[d] == Slot(p.table.freeStart, |record|);
    assert q.area == Splice(p.area, at, record)[..AreaSize(|q.table.slots|)];
  }

  lemma PlacedKeeps(p: Page, record: seq<byte>, i: nat)
    requires p.Valid() && 0 < |record| && !NeedsCompaction(p, |record|)
    requires p.LiveSlot(i)
    requires Placed(p, record).Valid() && Placed(p, record).LiveSlot(i)
    requires Placed(p, record).table.slots[i] == p.table.slots[i]
    ensures Placed(p, record).Record(i) == p.Record(i)
  {
    var sl, q := p.table.slots[i], Placed(p, record);
    assert HEADER_SIZE <= sl.offset && sl.End() <= p.table.freeStart;
    SpliceSlices(p.area, p.table.freeStart - HEADER_SIZE, record, AreaSize(|q.table.slots|),
                 sl.offset - HEADER_SIZE, sl.End() - HEADER_SIZE);
  }

  lemma PlacedValid(p: Page, record: seq<byte>)
    requires p.Valid() && 0 < |record| && !NeedsCompaction(p, |record|)
    ensures var q, d := Placed(p, record), FirstDead(p.table.slots);
      && q.Valid()
      && !p.LiveSlot(d)
      && Lengths(q) == Lengths(p)[d := |record|]
      && q.Contents() == p.Contents()[d := record]
  {
    var q, d := Placed(p, record), FirstDead(p.table.slots);
    PlacedRecords(p, record);
    forall i: nat | p.LiveSlot(i)
      ensures q.Record(i) == p.Record(i)
    {
      PlacedKeeps(p, record, i);
    }
    assert q.Contents() == p.Contents()[d := record];
    assert Lengths(q) == Lengths(p)[d := |record|];
  }

  /** Every insert, kept or refused, leaves a valid page; a successful one adds
      exactly one slot to the live ones, a refused one changes none of them. */
  lemma InsertedLengths(p: Page, record: seq<byte>)
    requires p.Valid()
    ensures var r := Inserted(p, record);
      && r.page.Valid()
      && -1 <= r.slot < PAGE_SIZE
      && (if r.slot == -1 then Lengths(r.page) == Lengths(p)
          else r.slot !in Lengths(p) && Lengths(r.page) == Lengths(p)[r.slot := |record|])
  {
    PreparedSlots(p, |record|);
    var q := Prepared(p, |record|);
    if 0 < |record| && !NeedsCompaction(q, |record|) {
      PlacedValid(q, record);
    }
  }

  /** An insert for which the page has room as it stands never compacts: it
      succeeds and stores the record at freeStart, under the lowest dead slot or
      a new one. Every other slot and every other byte stay as they are, and so
      no record is lost, wherever the records lie. */
  lemma InsertInPlace(p: Page, record: seq<byte>)
    requires p.Valid() && 0 < |record| && HasRoom(p, |record|)
    ensures var r, n := Inserted(p, record), p.table.freeStart;
      var q, d := r.page, r.slot;
      && 0 <= d <= |p.table.slots| && !p.LiveSlot(d) && (forall i :: 0 <= i < d ==> p.LiveSlot(i))
      && q.Valid() && |q.area| <= |p.area| && q.table.freeStart == n + |record|
      && |q.table.slots| == (if d < |p.table.slots| then |p.table.slots| else d + 1)
      && q.table.slots[d] == Slot(n, |record|)
      && (forall i :: 0 <= i < |p.table.slots| && i != d ==> q.table.slots[i] == p.table.slots[i])
      && (forall k :: 0 <= k < |q.area| ==>
            q.area[k] == if n <= k + HEADER_SIZE < n + |record| then record[k + HEADER_SIZE - n] else p.area[k])
      && q.Contents() == p.Contents()[d := record]
  {
    CompactsIff(p, |record|);
    InsertedPlaced(p, record);
    PlacedValid(p, record);
    PlacedFrame(p, record);
    hide Layout, FirstDead, Placed, Inserted, HasRoom;
  }

  lemma InsertedPlaced(p: Page, record: seq<byte>)
    requires p.Valid() && 0 < |record| && !NeedsCompaction(p, |record|)
    ensures Inserted(p, record) == Outcome(Placed(p, record), FirstDead(p.table.slots))
    ensures forall i :: 0 <= i < FirstDead(p.table.slots) ==> p.LiveSlot(i)
  {
    hide Placed, Layout;
  }

  lemma PlacedFrame(p: Page, record: seq<byte>)
    requires p.Valid() && 0 < |record| && !NeedsCompaction(p, |record|)
    ensures var q, n, d := Placed(p, record), p.table.freeStart, FirstDead(p.table.slots);
      && q.table.freeStart == n + |record|
      && |q.table.slots| == (if d < |p.table.slots| then |p.table.slots| else d + 1)
      && q.table.slots[d] == Slot(n, |record|)
      && (forall i :: 0 <= i < |p.table.slots| && i != d ==> q.table.slots[i] == p.table.slots[i])
      && |q.area| <= |p.area|
      && (forall k :: 0 <= k < |q.area| ==>
            q.area[k] == if n <= k + HEADER_SIZE < n + |record| then record[k + HEADER_SIZE - n] else p.area[k])
  {
  }

  /** An empty record is refused at once. For any other one that does not fit
      as the page stands, the page is compacted first, and stays compacted when
      the record does not fit then either. */
  lemma InsertNotInPlace(p: Page, record: seq<byte>)
    requires p.Valid() && (|record| == 0 || !HasRoom(p, |record|))
    ensures Compacted(p).Valid()
    ensures Inserted(p, record) ==
      if |record| == 0 then Outcome(p, -1)
      else if HasRoom(Compacted(p), |record|) then Inserted(Compacted(p), record)
      else Outcome(Compacted(p), -1)
  {
    hide HasRoom, NeedsCompaction, Compacted, Layout;
    CompactedValid(p);
    CompactsIff(p, |record|);
    CompactsIff(Compacted(p), |record|);
  }

  /** An insert of n bytes cannot lose a record of this page: it does not
      compact, or nothing is clobbered. */
  ghost predicate SafeInsert(p: Page, n: nat) {
    n > 0 && !HasRoom(p, n) ==> NoClobber(p.table.slots)
  }

  /** Round trip and frame: after a safe insert the returned slot holds exactly
      the record and every other slot holds what it held before. */
  lemma InsertedContents(p: Page, record: seq<byte>)
    requires p.Valid() && SafeInsert(p, |record|)
    ensures var r := Inserted(p, record);
      && r.page.Valid()
      && (if r.slot == -1 then r.page.Contents() == p.Contents()
          else r.slot !in p.Contents() && r.page.Contents() == p.Contents()[r.slot := record])
  {
    PreparedSlots(p, |record|);
    CompactsIff(p, |record|);
    var q := Prepared(p, |record|);
    if 0 < |record| {
      if NeedsCompaction(p, |record|) {
        NoClobberKeepsContents(p);
      }
      if !NeedsCompaction(q, |record|) {
        PlacedValid(q, record);
      }
    }
  }

  /** The page after the insert holds in every slot that was live before what
      that slot held before. */
  ghost predicate KeepsOld(p: Page, record: seq<byte>)
    requires p.Valid()
  {
    var r := Inserted(p, record).page;
    r.Valid() && forall i :: p.LiveSlot(i) ==> r.LiveSlot(i) && r.Record(i) == p.Record(i)
  }

  /** What an insert that compacts loses, the compaction lost. */
  lemma InsertAfterCompaction(p: Page, record: seq<byte>, i: nat)
    requires p.Valid() && p.LiveSlot(i) && 0 < |record| && NeedsCompaction(p, |record|)
    ensures var r := Inserted(p, record).page;
      r.Valid() && r.LiveSlot(i) && (r.Record(i) == p.Record(i) <==> Survives(p, i))
  {
    CompactedValid(p);
    var q := Compacted(p);
    assert i in q.Contents();
    if !NeedsCompaction(q, |record|) {
      PlacedValid(q, record);
      assert i in Placed(q, record).Contents();
    }
  }

  lemma KeepsOldIffCompactionKeeps(p: Page, record: seq<byte>)
    requires p.Valid() && 0 < |record| && NeedsCompaction(p, |record|)
    ensures KeepsOld(p, record) <==> KeepsContents(p)
  {
    InsertedLengths(p, record);
    KeepsContentsIffAllSurvive(p);
    forall i: nat | p.LiveSlot(i)
      ensures var r := Inserted(p, record).page;
        r.LiveSlot(i) && (r.Record(i) == p.Record(i) <==> Survives(p, i))
    {
      InsertAfterCompaction(p, record, i);
    }
  }

  /** The exact condition for an insert: it keeps every record of every page
      with this table if and only if the record is empty, there is room for it
      as the page stands, or nothing is clobbered. A refused insert is no
      exception: it has compacted too. */
  lemma InsertKeepsOldIff(p: Page, record: seq<byte>)
    requires p.Valid()
    ensures (forall area :: |area| == |p.area| ==> KeepsOld(p.(area := area), record))
       <==> SafeInsert(p, |record|)
  {
    CompactsIff(p, |record|);
    if 0 < |record| && NeedsCompaction(p, |record|) {
      hide Inserted, KeepsOld, KeepsContents, Layout;
      forall area | |area| == |p.area|
        ensures KeepsOld(p.(area := area), record) <==> KeepsContents(p.(area := area))
      {
        KeepsOldIffCompactionKeeps(p.(area := area), record);
      }
      KeepsContentsIff(p);
    } else {
      forall area | |area| == |p.area|
        ensures KeepsOld(p.(area := area), record)
      {
        KeepsOldUncompacted(p.(area := area), record);
      }
    }
  }

  lemma KeepsOldUncompacted(p: Page, record: seq<byte>)
    requires p.Valid() && (|record| == 0 || !NeedsCompaction(p, |record|))
    ensures KeepsOld(p, record)
  {
    CompactsIff(p, |record|);
    InsertedContents(p, record);
    assert forall i :: p.LiveSlot(i) ==> i in p.Contents();
  }

  /** A successful insert into an ordered page leaves it ordered if and only if
      no live slot lies above the returned one. */
  lemma InsertedOrdered(p: Page, record: seq<byte>)
    requires p.Valid() && Ordered(p.table.slots) && Inserted(p, record).slot != -1
    ensures Ordered(Inserted(p, record).page.table.slots)
       <==> forall j :: p.LiveSlot(j) ==> j < Inserted(p, record).slot
  {
    var q := Prepared(p, |record|);
    PreparedSlots(p, |record|);
    assert Ordered(q.table.slots) && forall j :: LiveAt(q.table.slots, j) <==> p.LiveSlot(j) by {
      CompactedValid(p);
    }
    PlaceTableOrdered(q.table, |record|);
    if forall j :: p.LiveSlot(j) ==> j < FirstDead(q.table.slots) {
      assert Ordered(PlaceTable(q.table, |record|).slots);
    } else {
      var j :| p.LiveSlot(j) && FirstDead(q.table.slots) <= j;
      assert LiveAt(q.table.slots, j);
      assert !Ordered(PlaceTable(q.table, |record|).slots);
    }
  }

  /** Every live record above the lowest dead slot has n bytes to spare below it. */
  predicate SpareBelow(slots: seq<Slot>, n: nat) {
    forall j :: FirstDead(slots) < j < |slots| && LiveAt(slots, j) ==> Dst(slots, j) + n <= slots[j].offset
  }

  /** The same, of the page in which an insert of n bytes puts its record: the
      compacted page, unless there is room for it as the page stands. */
  predicate RoomAbove(p: Page, n: nat)
    requires p.Valid()
  {
    SpareBelow(if HasRoom(p, n) then p.table.slots else Compacted(p).table.slots, n)
  }

  /** The exact condition under which a successful insert leaves a page in which
      nothing is clobbered in that state, so that the next one is safe too. */
  lemma InsertedNoClobber(p: Page, record: seq<byte>)
    requires p.Valid() && NoClobber(p.table.slots) && Inserted(p, record).slot != -1
    ensures NoClobber(Inserted(p, record).page.table.slots) <==> RoomAbove(p, |record|)
  {
    hide NoClobber, Ordered, Layout, HasRoom;
    CompactsIff(p, |record|);
    var q := Prepared(p, |record|);
    CompactedValid(p);
    assert q == if HasRoom(p, |record|) then p else Compacted(p);
    if NeedsCompaction(p, |record|) {
      OrderedNoClobber(q.table);
    }
    PlaceTableNoClobber(q.table, |record|);
    assert Inserted(p, record).page.table == PlaceTable(q.table, |record|);
  }

  // ---- Reading ----

  /** What page_get returns: the length of the record if the slot holds one
      and the buffer has room for it. */
  function Got(p: Page, slot: nat, bufferSize: nat): int {
    if p.LiveSlot(slot) && p.table.slots[slot].length <= bufferSize then p.table.slots[slot].length else -1
  }

  // ---- Deletion ----

  /** page_delete: only the length of the slot is cleared. */
  function Deleted(p: Page, i: nat): (r: Page)
    requires p.Valid() && p.LiveSlot(i)
  {
    p.(table := p.table.(slots := KillSlot(p.table.slots, i)))
  }

  lemma DeletedContents(p: Page, i: nat)
    requires p.Valid() && p.LiveSlot(i)
    ensures Deleted(p, i).Valid()
    ensures Deleted(p, i).Contents() == p.Contents() - {i}
    ensures Lengths(Deleted(p, i)) == Lengths(p) - {i}
    ensures Ordered(p.table.slots) ==> Ordered(Deleted(p, i).table.slots)
    ensures NoClobber(p.table.slots) ==> NoClobber(Deleted(p, i).table.slots)
  {
    hide NoClobber, Ordered;
    KillSlotLayout(p.table, i);
    forall k: nat
      ensures Deleted(p, i).LiveSlot(k) <==> p.LiveSlot(k) && k != i
      ensures Deleted(p, i).LiveSlot(k) ==> Deleted(p, i).table.slots[k] == p.table.slots[k]
    {
    }
    DeletedMaps(p, i);
  }

  /** Nothing else changes: the offset of the slot, every other slot, the
      number of slots, freeStart and every byte between header and directory
      stay as they are. */
  lemma DeletedFrame(p: Page, i: nat)
    requires p.Valid() && p.LiveSlot(i)
    ensures var q := Deleted(p, i);
      && |q.table.slots| == |p.table.slots|
      && q.table.slots[i] == Slot(p.table.slots[i].offset, 0)
      && (forall k :: 0 <= k < |p.table.slots| && k != i ==> q.table.slots[k] == p.table.slots[k])
      && q.table.freeStart == p.table.freeStart && q.area == p.area
  {
  }

  lemma DeletedMaps(p: Page, i: nat)
    requires p.Valid() && p.LiveSlot(i) && Deleted(p, i).Valid()
    requires forall k: nat :: Deleted(p, i).LiveSlot(k) <==> p.LiveSlot(k) && k != i
    requires forall k: nat :: Deleted(p, i).LiveSlot(k) ==> Deleted(p, i).table.slots[k] == p.table.slots[k]
    ensures Deleted(p, i).Contents() == p.Contents() - {i}
    ensures Lengths(Deleted(p, i)) == Lengths(p) - {i}
  {
    hide Layout, KillSlot;
    forall k: nat | Deleted(p, i).LiveSlot(k)
      ensures Deleted(p, i).Record(k) == p.Record(k)
    {
    }
  }

  // ---- Runs of one page ----

  datatype PageOp = InsertOp(record: seq<byte>) | DeleteOp(slot: nat) | CompactOp

  function PageStep(p: Page, op: PageOp): Page
    requires p.Valid()
  {
    match op
    case InsertOp(record) => Inserted(p, record).page
    case DeleteOp(i) => if p.LiveSlot(i) then Deleted(p, i) else p
    case CompactOp => Compacted(p)
  }

  lemma PageStepBounds(p: Page, op: PageOp)
    requires p.Valid() && |p.table.slots| <= MAX_SLOTS
    ensures PageStep(p, op).Valid()
    ensures |p.table.slots| <= |PageStep(p, op).table.slots| <= MAX_SLOTS
  {
    hide Inserted, Layout, Deleted;
    match op
    case InsertOp(record) =>
      InsertedLengths(p, record);
      InsertedCount(p, record);
    case DeleteOp(i) =>
      if p.LiveSlot(i) {
        DeletedContents(p, i);
        DeletedCount(p, i);
      }
    case CompactOp => CompactedValid(p);
  }

  lemma DeletedCount(p: Page, i: nat)
    requires p.Valid() && p.LiveSlot(i)
    ensures |Deleted(p, i).table.slots| == |p.table.slots|
  {
  }

  /** A new slot is added only when all slots are live, and so not empty. */
  lemma InsertedCount(p: Page, record: seq<byte>)
    requires p.Valid() && |p.table.slots| <= MAX_SLOTS
    ensures |p.table.slots| <= |Inserted(p, record).page.table.slots| <= MAX_SLOTS
  {
    PreparedSlots(p, |record|);
    var q := Prepared(p, |record|);
    if FirstDead(q.table.slots) == |q.table.slots| {
      AllLiveBefore(q.table.slots, |q.table.slots|);
      LiveFits(q.table);
    }
  }

  /** The page after a run from page_init. */
  ghost function PageRun(ops: seq<PageOp>): (p: Page)
    ensures p.Valid() && |p.table.slots| <= MAX_SLOTS
  {
    if ops == [] then Empty()
    else
      var p := PageRun(ops[..|ops| - 1]);
      PageStepBounds(p, ops[|ops| - 1]);
      PageStep(p, ops[|ops| - 1])
  }

  /** The layout of every reachable page, spelled out, on runs that destroy
      records no less than on others. */
  lemma ReachableLayout(ops: seq<PageOp>)
    ensures var p := PageRun(ops);
      var slots, freeStart := p.table.slots, p.table.freeStart;
      && |slots| <= MAX_SLOTS
      && HEADER_SIZE <= freeStart <= PAGE_SIZE - SLOT_SIZE * |slots|
      && HEADER_SIZE + Total(slots) <= freeStart
      && (forall i :: p.LiveSlot(i) ==> HEADER_SIZE <= slots[i].offset && slots[i].End() <= freeStart)
      && (forall i, j :: i != j && p.LiveSlot(i) && p.LiveSlot(j) ==>
            slots[i].End() <= slots[j].offset || slots[j].End() <= slots[i].offset)
  {
    var p := PageRun(ops);
    LiveFits(p.table);
    forall i, j | i != j && p.LiveSlot(i) && p.LiveSlot(j)
      ensures Apart(p.table.slots[i], p.table.slots[j])
    {
      if i < j {
        assert Apart(p.table.slots[i], p.table.slots[j]);
      } else {
        assert Apart(p.table.slots[j], p.table.slots[i]);
      }
    }
  }

  /** The directory never shrinks. */
  lemma DirectoryGrows(ops: seq<PageOp>, n: nat)
    requires n <= |ops|
    ensures |PageRun(ops[..n]).table.slots| <= |PageRun(ops).table.slots|
    decreases |ops| - n
  {
    if n == |ops| {
      assert ops[..n] == ops;
    } else {
      var front := ops[..n + 1];
      assert front[..n] == ops[..n];
      PageStepBounds(PageRun(ops[..n]), ops[n]);
      DirectoryGrows(ops, n + 1);
    }
  }

  /** The bound is reached: 818 one-byte records fit in an empty page. */
  lemma {:induction false} MaxSlotsReached(n: nat, v: byte)
    requires n <= MAX_SLOTS
    ensures var p := PageRun(OneByteInserts(n, v));
      && |p.table.slots| == n == Total(p.table.slots)
      && forall i :: 0 <= i < n ==> p.LiveSlot(i)
  {
    if n > 0 {
      var ops := OneByteInserts(n, v);
      assert ops[..n - 1] == OneByteInserts(n - 1, v);
      MaxSlotsReached(n - 1, v);
      OneMoreByte(PageRun(ops[..n - 1]), v);
    }
  }

  function OneByteInserts(n: nat, v: byte): seq<PageOp> {
    seq(n, _ => InsertOp([v]))
  }

  lemma OneMoreByte(p: Page, v: byte)
    requires p.Valid() && |p.table.slots| == Total(p.table.slots) < MAX_SLOTS
    requires forall i :: 0 <= i < |p.table.slots| ==> p.LiveSlot(i)
    ensures var q := Inserted(p, [v]).page;
      && |q.table.slots| == |p.table.slots| + 1 == Total(q.table.slots)
      && forall i :: 0 <= i <= |p.table.slots| ==> q.LiveSlot(i)
  {
    assert FirstDead(p.table.slots) < |p.table.slots| ==> p.LiveSlot(FirstDead(p.table.slots));
    PreparedSlots(p, 1);
    var q := Prepared(p, 1);
    assert !NeedsCompaction(q, 1) by {
      CompactedValid(p);
    }
    PlaceTableLayout(q.table, 1);
    assert Inserted(p, [v]).page.table == PlaceTable(q.table, 1);
    OneMoreSlot(p, q, v);
  }

  lemma OneMoreSlot(p: Page, q: Page, v: byte)
    requires p.Valid() && q == Prepared(p, 1) && !NeedsCompaction(q, 1)
    requires FirstDead(q.table.slots) == |q.table.slots| == |p.table.slots|
    requires Reclaimable(q.table.slots) == Reclaimable(p.table.slots)
    requires Inserted(p, [v]).page.table == PlaceTable(q.table, 1)
    ensures var r := Inserted(p, [v]).page;
      && |r.table.slots| == |p.table.slots| + 1 && Total(r.table.slots) == Total(p.table.slots) + 1
      && forall i :: 0 <= i <= |p.table.slots| ==> r.LiveSlot(i)
  {
    hide Inserted, Prepared;
    PlaceTableLayout(q.table, 1);
  }
}
