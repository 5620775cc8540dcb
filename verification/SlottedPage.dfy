/** page.c: the in-page operations, on the array of bytes they change in
    place. Their contracts tie the page that the array encodes to the page
    operations of PageOps; DecodeInjective makes that a claim about every byte. */
module SlottedPage {
  import opened Bytes
  import opened SlotTable
  import opened TableOps
  import opened PageValue
  import opened PageImage
  import opened PageWrites
  import opened Compaction
  import opened PageOps

  function Load(page: array<byte>, at: nat): (v: u16)
    requires at + 2 <= page.Length
    reads page
    ensures v == GetU16(page[..], at)
  {
    page[at] as int + 0x100 * (page[at + 1] as int)
  }

  /** The uint16_t position of a slot, as the C code computes it. */
  function SlotOffset(slotId: nat): (r: u16)
    ensures HEADER_SIZE + SLOT_SIZE * (slotId + 1) <= PAGE_SIZE ==> r == SlotPos(slotId)
  {
    ToU16(PAGE_SIZE - (slotId + 1) * SLOT_SIZE)
  }

  method PageInit(page: array<byte>)
    requires page.Length == PAGE_SIZE
    modifies page
    ensures WellFormed(page[..]) && Decode(page[..]) == Empty()
    ensures Decode(page[..]).table == Table(HEADER_SIZE, []) && forall k :: HEADER_SIZE <= k < PAGE_SIZE ==> page[k] == 0
  {
    for i := 0 to PAGE_SIZE
      invariant forall k :: 0 <= k < i ==> page[k] == 0
    {
      page[i] := 0;
    }
    StoreU16(page, 0, 0);
    StoreU16(page, 2, HEADER_SIZE);
    StoreU16(page, 4, PAGE_SIZE);
    assert Decode(page[..]).area == Empty().area;
  }

  /** The page when page_compact has visited the first i slots. */
  ghost function PartlyCompacted(p: Page, i: nat): Page
    requires p.Valid() && i <= |p.table.slots|
  {
    LiveFits(p.table);
    Page(
      Table(p.table.freeStart, CompactSlots(p.table.slots)[..i] + p.table.slots[i..]),
      Moved(p.area, p.table, i))
  }

  lemma PartlyCompactedStep(p: Page, i: nat)
    requires p.Valid() && i < |p.table.slots|
    ensures var q, sl := PartlyCompacted(p, i), p.table.slots[i];
      && |q.table.slots| == |p.table.slots| && q.table.slots[i] == sl
      && (if sl.Live() then
            && Dst(p.table.slots, i) + sl.length <= p.table.freeStart
            && HEADER_SIZE <= sl.offset && sl.End() <= p.table.freeStart
            && PartlyCompacted(p, i + 1) == Page(
                 Table(p.table.freeStart, q.table.slots[i := sl.(offset := Dst(p.table.slots, i))]),
                 Splice(q.area, Dst(p.table.slots, i) - HEADER_SIZE,
                        q.area[sl.offset - HEADER_SIZE..sl.End() - HEADER_SIZE]))
          else PartlyCompacted(p, i + 1) == q)
      && Dst(p.table.slots, i + 1) == Dst(p.table.slots, i) + sl.length <= PAGE_SIZE
  {
    var q, r, sl := PartlyCompacted(p, i).table.slots, PartlyCompacted(p, i + 1).table.slots, p.table.slots[i];
    DstFits(p.table, i);
    assert p.LiveSlot(i) <==> sl.Live();
    assert r == q[i := CompactSlot(p.table.slots, i)];
    assert q[i := sl] == q;
  }

  lemma StartCompaction(s: Image)
    requires WellFormed(s)
    ensures HeaderOk(s) && Decode(s).Valid() && SlotCount(s) == |Decode(s).table.slots|
    ensures PartlyCompacted(Decode(s), 0) == Decode(s)
    ensures Dst(Decode(s).table.slots, 0) == HEADER_SIZE
  {
  }

  /** What the loop reads from slot i: the slot as it was, whose record and
      whose destination lie inside the record area. */
  lemma SlotToMove(s: Image, p: Page, i: nat)
    requires p.Valid() && i < |p.table.slots|
    requires HeaderOk(s) && Decode(s) == PartlyCompacted(p, i)
    ensures SlotCount(s) == |p.table.slots| && FreeEnd(s) == HEADER_SIZE + AreaSize(|p.table.slots|)
    ensures HEADER_SIZE + SLOT_SIZE * (i + 1) <= PAGE_SIZE
    ensures GetU16(s, SlotPos(i)) == p.table.slots[i].offset
    ensures GetU16(s, SlotPos(i) + 2) == p.table.slots[i].length
    ensures p.LiveSlot(i) ==> HEADER_SIZE <= p.table.slots[i].offset && p.table.slots[i].End() <= FreeEnd(s)
    ensures HEADER_SIZE <= Dst(p.table.slots, i) && Dst(p.table.slots, i + 1) <= FreeEnd(s)
    ensures Dst(p.table.slots, i + 1) == Dst(p.table.slots, i) + p.table.slots[i].length
    ensures !p.LiveSlot(i) ==> PartlyCompacted(p, i + 1) == PartlyCompacted(p, i)
  {
    hide GetU16;
    PartlyCompactedStep(p, i);
    SlotsDecoded(s);
    DstFits(p.table, i);
  }

  /** Moving the record of slot i and storing its new offset is one step of
      the compaction. */
  lemma MoveRecord(s: Image, p: Page, i: nat, s': Image, s'': Image)
    requires p.Valid() && i < |p.table.slots| && p.LiveSlot(i)
    requires HeaderOk(s) && Decode(s) == PartlyCompacted(p, i)
    requires Dst(p.table.slots, i) + p.table.slots[i].length <= PAGE_SIZE && p.table.slots[i].End() <= PAGE_SIZE
    requires s' == Splice(s, Dst(p.table.slots, i), s[p.table.slots[i].offset..p.table.slots[i].End()])
    requires s'' == SetU16(s', SlotPos(i), Dst(p.table.slots, i))
    ensures HeaderOk(s'') && Decode(s'') == PartlyCompacted(p, i + 1)
    ensures SlotCount(s'') == |p.table.slots|
  {
    hide GetU16, SetU16, Splice, Layout, Before;
    SlotToMove(s, p, i);
    PartlyCompactedStep(p, i);
    var sl := p.table.slots[i];
    AreaSlice(s, sl.offset, sl.End());
    AreaWrite(s, Dst(p.table.slots, i), s[sl.offset..sl.End()]);
    SlotOffsetWrite(s', i, Dst(p.table.slots, i));
  }

  lemma FinishCompaction(s: Image, p: Page)
    requires p.Valid() && HeaderOk(s) && Decode(s) == PartlyCompacted(p, |p.table.slots|)
    ensures Dst(p.table.slots, |p.table.slots|) <= PAGE_SIZE
    ensures var t := SetU16(s, 2, Dst(p.table.slots, |p.table.slots|));
      WellFormed(t) && Decode(t) == Compacted(p)
  {
    hide GetU16;
    LiveFits(p.table);
    FreeStartWrite(s, Dst(p.table.slots, |p.table.slots|));
    CompactedValid(p);
    assert Decode(s).table.slots == Compacted(p).table.slots;
  }

  method PageCompact(page: array<byte>)
    requires page.Length == PAGE_SIZE && WellFormed(page[..])
    modifies page
    ensures WellFormed(page[..]) && Decode(page[..]) == Compacted(old(Decode(page[..])))
  {
    hide GetU16, SetU16, Splice, Load, PartlyCompacted, Decode, HeaderOk, Layout, Before, Compacted;
    ghost var p := Decode(page[..]);
    var newFreeStart: u16 := HEADER_SIZE;
    var slotId: u16 := 0;
    StartCompaction(page[..]);
    while slotId < Load(page, 0)
      invariant slotId <= |p.table.slots| == Load(page, 0)
      invariant HeaderOk(page[..]) && Decode(page[..]) == PartlyCompacted(p, slotId)
      invariant newFreeStart == Dst(p.table.slots, slotId)
      decreases |p.table.slots| - slotId
    {
      ghost var s := page[..];
      SlotToMove(s, p, slotId);
      var slotOffset := SlotOffset(slotId);
      var length := Load(page, slotOffset + 2);
      if length != 0 {
        var oldOffset := Load(page, slotOffset);
        MemMove(page, newFreeStart, oldOffset, length);
        ghost var s' := page[..];
        StoreU16(page, slotOffset, newFreeStart);
        MoveRecord(s, p, slotId, s', page[..]);
        newFreeStart := ToU16(newFreeStart + length);
      }
      slotId := ToU16(slotId + 1);
    }
    FinishCompaction(page[..], p);
    StoreU16(page, 2, newFreeStart);
  }

  // ---- Insertion ----

  /** The scan for a slot to reuse: the lowest dead slot, or -1. */
  method FindDeadSlot(page: array<byte>) returns (reusable: int)
    requires page.Length == PAGE_SIZE && WellFormed(page[..])
    ensures var slots := Slots(page[..]);
      reusable == if FirstDead(slots) < |slots| then FirstDead(slots) else -1
  {
    hide GetU16, Load;
    SlotsDecoded(page[..]);
    var i: u16 := 0;
    while i < Load(page, 0)
      invariant i <= SlotCount(page[..])
      invariant forall k: nat :: k < i ==> Slots(page[..])[k].Live()
      decreases SlotCount(page[..]) - i
    {
      var length := Load(page, SlotOffset(i) + 2);
      assert length == Slots(page[..])[i].length;
      if length == 0 {
        return i;
      }
      i := ToU16(i + 1);
    }
    return -1;
  }

  /** The bytes stored by an insert that reuses slot d. */
  lemma PlaceInDeadSlot(s: Image, p: Page, record: seq<byte>, t: Image)
    requires WellFormed(s) && Decode(s) == p
    requires 0 < |record| && !NeedsCompaction(p, |record|) && FirstDead(p.table.slots) < |p.table.slots|
    requires var d, n := FirstDead(p.table.slots), p.table.freeStart;
      t == SetU16(SetU16(SetU16(Splice(s, n, record), SlotPos(d), n), SlotPos(d) + 2, |record|), 2, n + |record|)
    ensures HeaderOk(t) && Decode(t) == Placed(p, record)
  {
    hide GetU16, SetU16;
    var d, n := FirstDead(p.table.slots), p.table.freeStart;
    AreaWrite(s, n, record);
    var s1: Image := Splice(s, n, record);
    assert SlotCount(s1) == |Decode(s1).table.slots|;
    FillSlot(s1, d, Slot(n, |record|), n + |record|, t);
    var area := Splice(p.area, n - HEADER_SIZE, record);
    assert area[..|area|] == area;
  }

  /** The bytes stored by an insert that appends a slot. */
  lemma PlaceInNewSlot(s: Image, p: Page, record: seq<byte>, s': Image, t: Image)
    requires WellFormed(s) && Decode(s) == p
    requires 0 < |record| && !NeedsCompaction(p, |record|) && FirstDead(p.table.slots) == |p.table.slots|
    requires var d, n := |p.table.slots|, p.table.freeStart;
      && s' == SetU16(SetU16(Splice(s, n, record), 4, FreeEnd(s) - SLOT_SIZE), 0, d + 1)
      && t == SetU16(SetU16(SetU16(s', SlotPos(d), n), SlotPos(d) + 2, |record|), 2, n + |record|)
    ensures HeaderOk(t) && Decode(t) == Placed(p, record)
  {
    hide GetU16, SetU16;
    var d, n := |p.table.slots|, p.table.freeStart;
    AreaWrite(s, n, record);
    var s1: Image := Splice(s, n, record);
    assert SlotCount(s1) == |Decode(s1).table.slots| == d;
    assert FreeEnd(s1) == FreeEnd(s);
    GrowDirectory(s1, s');
    assert SlotCount(s') == |Decode(s').table.slots| == d + 1;
    FillSlot(s', d, Slot(n, |record|), n + |record|, t);
    assert (Slots(s1) + [SlotAt(s', d)])[d := Slot(n, |record|)] == p.table.slots + [Slot(n, |record|)];
  }

  /** The end of page_insert, once the record is known to fit. */
  method PlaceRecord(page: array<byte>, record: seq<byte>, reusable: int) returns (slot: int)
    requires page.Length == PAGE_SIZE && WellFormed(page[..])
    requires 0 < |record| && !NeedsCompaction(Decode(page[..]), |record|)
    requires var slots := Slots(page[..]);
      reusable == if FirstDead(slots) < |slots| then FirstDead(slots) else -1
    modifies page
    ensures HeaderOk(page[..]) && Decode(page[..]) == Placed(old(Decode(page[..])), record)
    ensures slot == FirstDead(old(Slots(page[..])))
  {
    hide GetU16, SetU16, Load, Splice, Placed;
    ghost var s, p := page[..], Decode(page[..]);
    HeaderFields(s);
    AreaWriteKeepsHeader(s, p.table.freeStart, record);
    var slotId: u16;
    CopyIn(page, Load(page, 2), record);
    if reusable != -1 {
      slotId := ToU16(reusable);
    } else {
      slotId := Load(page, 0);
      StoreU16(page, 4, ToU16(Load(page, 4) - SLOT_SIZE));
      StoreU16(page, 0, ToU16(Load(page, 0) + 1));
    }
    ghost var s' := page[..];
    var slotOffset := SlotOffset(slotId);
    StoreU16(page, slotOffset, Load(page, 2));
    StoreU16(page, slotOffset + 2, |record|);
    StoreU16(page, 2, ToU16(Load(page, 2) + |record|));
    if reusable != -1 {
      PlaceInDeadSlot(s, p, record, page[..]);
    } else {
      PlaceInNewSlot(s, p, record, s', page[..]);
    }
    return slotId;
  }

  /** The free space as page_insert computes it: the subtraction never wraps. */
  lemma FreeSpace(s: Image)
    requires WellFormed(s)
    ensures ToU32(GetU16(s, 4) - GetU16(s, 2)) == Gap(Decode(s).table)
  {
    hide GetU16;
    HeaderFields(s);
  }

  /** page_insert: the id of the slot the record was given, or -1. */
  method PageInsert(page: array<byte>, record: seq<byte>) returns (slot: int)
    requires page.Length == PAGE_SIZE && WellFormed(page[..])
    requires |record| < 0x1_0000
    modifies page
    ensures WellFormed(page[..])
    ensures Outcome(Decode(page[..]), slot) == Inserted(old(Decode(page[..])), record)
  {
    hide GetU16, Load, Layout, Placed;
    if |record| == 0 {
      return -1;
    }
    ghost var p := Decode(page[..]);
    PreparedSlots(p, |record|);
    InsertedLengths(p, record);
    var reusable := FindDeadSlot(page);
    FreeSpace(page[..]);
    var needed := ToU32(|record| + if reusable != -1 then 0 else SLOT_SIZE);
    var free := ToU32(Load(page, 4) - Load(page, 2));
    if free < needed {
      PageCompact(page);
      FreeSpace(page[..]);
      free := ToU32(Load(page, 4) - Load(page, 2));
      if free < needed {
        return -1;
      }
    }
    assert Decode(page[..]) == Prepared(p, |record|);
    slot := PlaceRecord(page, record, reusable);
  }

  // ---- Reading and deleting ----

  lemma RecordOnPage(s: Image, i: nat)
    requires WellFormed(s) && LiveAt(Slots(s), i)
    ensures var sl := Slots(s)[i];
      && HEADER_SIZE <= sl.offset && sl.End() <= FreeEnd(s) <= PAGE_SIZE
      && s[sl.offset..sl.End()] == Decode(s).Record(i)
  {
    hide GetU16;
    AreaSlice(s, Slots(s)[i].offset, Slots(s)[i].End());
  }

  /** page_get: the length of the record, copied to the buffer, or -1. */
  method PageGet(page: array<byte>, slotId: u16, buffer: array<byte>, bufferSize: u16) returns (r: int)
    requires page.Length == PAGE_SIZE && WellFormed(page[..])
    requires page != buffer && bufferSize <= buffer.Length
    modifies buffer
    ensures r == Got(Decode(page[..]), slotId, bufferSize)
    ensures buffer[..] == if r == -1 then old(buffer[..]) else Splice(old(buffer[..]), 0, Decode(page[..]).Record(slotId))
  {
    hide GetU16, Load, Layout, Splice;
    if slotId >= Load(page, 0) {
      return -1;
    }
    SlotsDecoded(page[..]);
    var slotOffset := SlotOffset(slotId);
    var length := Load(page, slotOffset + 2);
    if length == 0 {
      return -1;
    }
    if bufferSize < length {
      return -1;
    }
    var offset := Load(page, slotOffset);
    assert Slots(page[..])[slotId] == Slot(offset, length);
    RecordOnPage(page[..], slotId);
    assert page[offset..offset + length] == page[..][offset..offset + length];
    CopyIn(buffer, 0, page[offset..offset + length]);
    return length;
  }

  /** page_delete: 0, or -1 when there is no record to delete. Of the bytes it
      changes only the two of the length, which become 0. */
  method PageDelete(page: array<byte>, slotId: u16) returns (r: int)
    requires page.Length == PAGE_SIZE && WellFormed(page[..])
    modifies page
    ensures WellFormed(page[..])
    ensures var p := old(Decode(page[..]));
      if p.LiveSlot(slotId) then
        && r == 0 && Decode(page[..]) == Deleted(p, slotId)
        && page[..] == SetU16(old(page[..]), PAGE_SIZE - (slotId + 1) * SLOT_SIZE + 2, 0)
      else r == -1 && page[..] == old(page[..])
  {
    hide GetU16, Load;
    ghost var p := Decode(page[..]);
    if slotId >= Load(page, 0) {
      return -1;
    }
    SlotsDecoded(page[..]);
    var slotOffset := SlotOffset(slotId);
    if Load(page, slotOffset + 2) == 0 {
      return -1;
    }
    SlotLengthWrite(page[..], slotId, 0);
    DeletedContents(p, slotId);
    StoreU16(page, slotOffset + 2, 0);
    return 0;
  }
}
