/** What each store of page.c does to the page that the bytes encode. */
module PageWrites {
  import opened Bytes
  import opened SlotTable
  import opened PageValue
  import opened PageImage

  /** A store between header and directory touches neither. */
  lemma AreaWrite(s: Image, at: nat, r: seq<byte>)
    requires HeaderOk(s) && HEADER_SIZE <= at && at + |r| <= FreeEnd(s)
    ensures HeaderOk(Splice(s, at, r))
    ensures Decode(Splice(s, at, r)) == Decode(s).(area := Splice(Decode(s).area, at - HEADER_SIZE, r))
  {
    var t := Splice(s, at, r);
    SlotsDecoded(s);
    SlotsDecoded(t);
    assert Slots(t) == Slots(s);
    assert Decode(t).area == Splice(Decode(s).area, at - HEADER_SIZE, r);
  }

  lemma AreaSlice(s: Image, lo: nat, hi: nat)
    requires HeaderOk(s) && HEADER_SIZE <= lo <= hi <= FreeEnd(s)
    ensures s[lo..hi] == Decode(s).area[lo - HEADER_SIZE..hi - HEADER_SIZE]
  {
    hide GetU16;
    var area := Decode(s).area;
    assert forall k :: 0 <= k < hi - lo ==> s[lo..hi][k] == s[lo + k] == area[lo + k - HEADER_SIZE];
  }

  lemma AreaWriteKeepsHeader(s: Image, at: nat, r: seq<byte>)
    requires HEADER_SIZE <= at && at + |r| <= PAGE_SIZE
    ensures GetU16(Splice(s, at, r), 0) == GetU16(s, 0)
    ensures GetU16(Splice(s, at, r), 2) == GetU16(s, 2)
    ensures GetU16(Splice(s, at, r), 4) == GetU16(s, 4)
  {
  }

  /** The three header fields of a well-formed page. */
  lemma HeaderFields(s: Image)
    requires HeaderOk(s)
    ensures GetU16(s, 0) == |Decode(s).table.slots| == SlotCount(s)
    ensures GetU16(s, 2) == Decode(s).table.freeStart
    ensures GetU16(s, 4) == HEADER_SIZE + AreaSize(|Decode(s).table.slots|) == FreeEnd(s)
  {
  }

  lemma FreeStartWrite(s: Image, v: u16)
    requires HeaderOk(s)
    ensures HeaderOk(SetU16(s, 2, v))
    ensures Decode(SetU16(s, 2, v)) == Decode(s).(table := Decode(s).table.(freeStart := v))
  {
    hide GetU16;
    var t := SetU16(s, 2, v);
    SlotsDecoded(s);
    SlotsDecoded(t);
    assert Slots(t) == Slots(s);
    assert Decode(t).area == Decode(s).area;
  }

  lemma SlotWrite(s: Image, i: nat, t: Image)
    requires HeaderOk(s) && i < SlotCount(s)
    requires forall x :: 0 <= x < PAGE_SIZE && !(SlotPos(i) <= x < SlotPos(i) + SLOT_SIZE) ==> t[x] == s[x]
    ensures HeaderOk(t)
    ensures Decode(t) == Decode(s).(table := Decode(s).table.(slots := Slots(s)[i := SlotAt(t, i)]))
  {
    assert SlotCount(t) == SlotCount(s) && FreeStart(t) == FreeStart(s) && FreeEnd(t) == FreeEnd(s);
    SlotsDecoded(s);
    SlotsDecoded(t);
    forall j: nat | j < SlotCount(s) && j != i
      ensures SlotAt(t, j) == SlotAt(s, j)
    {
    }
    assert Slots(t) == Slots(s)[i := SlotAt(t, i)];
    assert Decode(t).area == Decode(s).area;
  }

  lemma SlotOffsetWrite(s: Image, i: nat, v: u16)
    requires HeaderOk(s) && i < SlotCount(s)
    ensures HeaderOk(SetU16(s, SlotPos(i), v))
    ensures Decode(SetU16(s, SlotPos(i), v)) ==
      Decode(s).(table := Decode(s).table.(slots := Slots(s)[i := Slots(s)[i].(offset := v)]))
  {
    hide GetU16;
    SlotsDecoded(s);
    SlotWrite(s, i, SetU16(s, SlotPos(i), v));
  }

  lemma SlotLengthWrite(s: Image, i: nat, v: u16)
    requires HeaderOk(s) && i < SlotCount(s)
    ensures HeaderOk(SetU16(s, SlotPos(i) + 2, v))
    ensures Decode(SetU16(s, SlotPos(i) + 2, v)) ==
      Decode(s).(table := Decode(s).table.(slots := Slots(s)[i := Slots(s)[i].(length := v)]))
  {
    hide GetU16;
    SlotsDecoded(s);
    SlotWrite(s, i, SetU16(s, SlotPos(i) + 2, v));
  }

  /** Growing the directory by one slot takes the last four bytes of the
      record area; the new slot is whatever those bytes hold. */
  lemma GrowDirectory(s: Image, t: Image)
    requires HeaderOk(s) && SLOT_SIZE <= AreaSize(SlotCount(s))
    requires t == SetU16(SetU16(s, 4, FreeEnd(s) - SLOT_SIZE), 0, SlotCount(s) + 1)
    ensures HeaderOk(t)
    ensures Decode(t) == Page(
      Table(FreeStart(s), Slots(s) + [SlotAt(t, SlotCount(s))]),
      Decode(s).area[..AreaSize(SlotCount(s) + 1)])
  {
    hide GetU16;
    SlotsDecoded(s);
    SlotsDecoded(t);
    assert Slots(t) == Slots(s) + [SlotAt(t, SlotCount(s))];
    assert Decode(t).area == Decode(s).area[..AreaSize(SlotCount(s) + 1)];
  }

  /** The stores that end an insert: both fields of a slot, then freeStart. */
  lemma FillSlot(s: Image, i: nat, sl: Slot, freeStart: u16, t: Image)
    requires HeaderOk(s) && i < SlotCount(s)
    requires t == SetU16(SetU16(SetU16(s, SlotPos(i), sl.offset), SlotPos(i) + 2, sl.length), 2, freeStart)
    ensures HeaderOk(t)
    ensures Decode(t) == Page(Table(freeStart, Slots(s)[i := sl]), Decode(s).area)
  {
    hide GetU16, SetU16;
    var s1 := SetU16(s, SlotPos(i), sl.offset);
    var s2 := SetU16(s1, SlotPos(i) + 2, sl.length);
    SlotOffsetWrite(s, i, sl.offset);
    assert SlotCount(s1) == |Decode(s1).table.slots| == SlotCount(s);
    SlotLengthWrite(s1, i, sl.length);
    FreeStartWrite(s2, freeStart);
    assert Slots(s)[i := Slots(s)[i].(offset := sl.offset)][i := sl] == Slots(s)[i := sl];
  }
}
