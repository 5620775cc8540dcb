/** A page as a value: its table, and the bytes between header and directory.
    PageImage shows that these determine all 4096 bytes of the page. */
module PageValue {
  import opened Bytes
  import opened SlotTable

  datatype Page = Page(table: Table, area: seq<byte>) {
    ghost predicate Valid() {
      Layout(table) && |area| == AreaSize(|table.slots|)
    }

    predicate LiveSlot(i: int) { LiveAt(table.slots, i) }

    /** The bytes of the record of a live slot. */
    function Record(i: nat): (r: seq<byte>)
      requires Valid() && LiveSlot(i)
      ensures |r| == table.slots[i].length
    {
      var sl := table.slots[i];
      area[sl.offset - HEADER_SIZE..sl.End() - HEADER_SIZE]
    }

    /** The record of every live slot: what a page stores, for its callers. */
    ghost function Contents(): (m: map<nat, seq<byte>>)
      requires Valid()
      ensures forall i :: i in m <==> LiveSlot(i)
      ensures forall i :: i in m ==> m[i] == Record(i)
    {
      map i: nat | i < |table.slots| && LiveSlot(i) :: Record(i)
    }
  }

  /** The number of bytes between the header and a directory of n slots. */
  function AreaSize(n: nat): int {
    PAGE_SIZE - HEADER_SIZE - SLOT_SIZE * n
  }

  lemma RecordByte(p: Page, i: nat, k: nat)
    requires p.Valid() && p.LiveSlot(i) && k < p.table.slots[i].length
    ensures 0 <= p.table.slots[i].offset + k - HEADER_SIZE < |p.area|
    ensures p.Record(i)[k] == p.area[p.table.slots[i].offset + k - HEADER_SIZE]
  {
  }
}
