/** The 4096 bytes of a page and the page they encode. Header, records and
    directory share one array; Encode and Decode say which bytes each owns. */
module PageImage {
  import opened Bytes
  import opened SlotTable
  import opened PageValue

  type Image = s: seq<byte> | |s| == PAGE_SIZE witness seq(PAGE_SIZE, _ => 0)

  // ---- The fields ----

  function SlotCount(s: Image): u16 { GetU16(s, 0) }

  function FreeStart(s: Image): u16 { GetU16(s, 2) }

  function FreeEnd(s: Image): u16 { GetU16(s, 4) }

  /** The directory grows down from the end of the page. */
  function SlotPos(i: nat): (p: nat)
    requires HEADER_SIZE + SLOT_SIZE * (i + 1) <= PAGE_SIZE
  {
    PAGE_SIZE - (i + 1) * SLOT_SIZE
  }

  function SlotAt(s: Image, i: nat): Slot
    requires HEADER_SIZE + SLOT_SIZE * (i + 1) <= PAGE_SIZE
  {
    Slot(GetU16(s, SlotPos(i)), GetU16(s, SlotPos(i) + 2))
  }

  predicate HeaderOk(s: Image) {
    && HEADER_SIZE + SLOT_SIZE * SlotCount(s) <= PAGE_SIZE
    && FreeEnd(s) == PAGE_SIZE - SLOT_SIZE * SlotCount(s)
  }

  function Slots(s: Image): (r: seq<Slot>)
    requires HeaderOk(s)
    ensures |r| == SlotCount(s)
  {
    SlotsBelow(s, SlotCount(s))
  }

  function SlotsBelow(s: Image, n: nat): (r: seq<Slot>)
    requires HEADER_SIZE + SLOT_SIZE * n <= PAGE_SIZE
    ensures |r| == n
  {
    if n == 0 then [] else SlotsBelow(s, n - 1) + [SlotAt(s, n - 1)]
  }

  lemma {:induction false} SlotsBelowAt(s: Image, n: nat, i: nat)
    requires i < n && HEADER_SIZE + SLOT_SIZE * n <= PAGE_SIZE
    ensures SlotsBelow(s, n)[i] == SlotAt(s, i)
  {
    if i < n - 1 {
      SlotsBelowAt(s, n - 1, i);
    }
  }

  /** The slots decoded one by one are the directory: the links between the
      entries of Slots and the bytes of the page are made through here. */
  lemma SlotsDecoded(s: Image)
    requires HeaderOk(s)
    ensures forall i: nat :: i < SlotCount(s) ==> Slots(s)[i] == SlotAt(s, i)
  {
    forall i: nat | i < SlotCount(s)
      ensures Slots(s)[i] == SlotAt(s, i)
    {
      SlotsBelowAt(s, SlotCount(s), i);
    }
  }

  function Decode(s: Image): (p: Page)
    requires HeaderOk(s)
    ensures |p.area| == AreaSize(|p.table.slots|)
  {
    Page(Table(FreeStart(s), Slots(s)), s[HEADER_SIZE..FreeEnd(s)])
  }

  /** An image whose header is consistent and whose page satisfies the layout
      invariant. */
  ghost predicate WellFormed(s: Image) {
    HeaderOk(s) && Decode(s).Valid()
  }

  // ---- Encoding a page ----

  function SlotByte(sl: Slot, k: nat): byte
    requires k < SLOT_SIZE
  {
    if k == 0 then LowByte(sl.offset)
    else if k == 1 then HighByte(sl.offset)
    else if k == 2 then LowByte(sl.length)
    else HighByte(sl.length)
  }

  function HeaderByte(t: Table, k: nat): byte
    requires |t.slots| * SLOT_SIZE + HEADER_SIZE <= PAGE_SIZE && k < HEADER_SIZE
  {
    var field := if k < 2 then |t.slots| else if k < 4 then t.freeStart else PAGE_SIZE - SLOT_SIZE * |t.slots|;
    if k % 2 == 0 then LowByte(field) else HighByte(field)
  }

  /** The byte at index x of the directory that holds the slots. */
  function DirectoryByte(slots: seq<Slot>, x: nat): byte
    requires PAGE_SIZE - SLOT_SIZE * |slots| <= x < PAGE_SIZE
  {
    SlotByte(slots[(PAGE_SIZE - 1 - x) / SLOT_SIZE], x % SLOT_SIZE)
  }

  predicate Encodable(p: Page) {
    |p.area| == AreaSize(|p.table.slots|)
  }

  function PageByte(p: Page, x: nat): byte
    requires Encodable(p) && x < PAGE_SIZE
  {
    if x < HEADER_SIZE then HeaderByte(p.table, x)
    else if x < PAGE_SIZE - SLOT_SIZE * |p.table.slots| then p.area[x - HEADER_SIZE]
    else DirectoryByte(p.table.slots, x)
  }

  function Encode(p: Page): (s: Image)
    requires Encodable(p)
    ensures HeaderOk(s) && Decode(s) == p
  {
    var s := seq(PAGE_SIZE, x requires 0 <= x < PAGE_SIZE => PageByte(p, x));
    EncodeDecodes(p, s);
    s
  }

  lemma EncodeDecodes(p: Page, s: Image)
    requires Encodable(p)
    requires forall x :: 0 <= x < PAGE_SIZE ==> s[x] == PageByte(p, x)
    ensures HeaderOk(s) && Decode(s) == p
  {
    hide GetU16;
    HeaderDecodes(p, s);
    forall i: nat | i < |p.table.slots|
      ensures SlotAt(s, i) == p.table.slots[i]
    {
      SlotDecodes(p, s, i);
    }
    SlotsDecoded(s);
    assert Slots(s) == p.table.slots;
  }

  lemma HeaderDecodes(p: Page, s: Image)
    requires Encodable(p)
    requires forall x :: 0 <= x < PAGE_SIZE ==> s[x] == PageByte(p, x)
    ensures SlotCount(s) == |p.table.slots| && FreeStart(s) == p.table.freeStart
    ensures FreeEnd(s) == PAGE_SIZE - SLOT_SIZE * |p.table.slots|
  {
  }

  lemma SlotDecodes(p: Page, s: Image, i: nat)
    requires Encodable(p) && i < |p.table.slots|
    requires forall x :: 0 <= x < PAGE_SIZE ==> s[x] == PageByte(p, x)
    ensures SlotAt(s, i) == p.table.slots[i]
  {
    SlotByteDecodes(p, s, i, 0);
    SlotByteDecodes(p, s, i, 1);
    SlotByteDecodes(p, s, i, 2);
    SlotByteDecodes(p, s, i, 3);
    SlotFromBytes(s, i, p.table.slots[i]);
  }

  lemma SlotFromBytes(r: Image, i: nat, sl: Slot)
    requires HEADER_SIZE + SLOT_SIZE * (i + 1) <= PAGE_SIZE
    requires r[SlotPos(i) + 0] == SlotByte(sl, 0)
    requires r[SlotPos(i) + 1] == SlotByte(sl, 1)
    requires r[SlotPos(i) + 2] == SlotByte(sl, 2)
    requires r[SlotPos(i) + 3] == SlotByte(sl, 3)
    ensures SlotAt(r, i) == sl
  {
  }

  lemma SlotByteDecodes(p: Page, s: Image, i: nat, k: nat)
    requires Encodable(p) && i < |p.table.slots| && k < SLOT_SIZE
    requires forall x :: 0 <= x < PAGE_SIZE ==> s[x] == PageByte(p, x)
    ensures s[SlotPos(i) + k] == SlotByte(p.table.slots[i], k)
  {
    var x := SlotPos(i) + k;
    assert (PAGE_SIZE - 1 - x) / SLOT_SIZE == i && x % SLOT_SIZE == k;
    assert s[x] == PageByte(p, x);
  }

  /** A page is determined by its value: two images that decode to the same
      page agree in every byte. */
  lemma DecodeInjective(s: Image, r: Image)
    requires HeaderOk(s) && HeaderOk(r) && Decode(s) == Decode(r)
    ensures s == r
  {
    U16Injective(s, r, 0);
    U16Injective(s, r, 2);
    U16Injective(s, r, 4);
    forall x | HEADER_SIZE <= x < PAGE_SIZE
      ensures s[x] == r[x]
    {
      if x < FreeEnd(s) {
        assert s[x] == Decode(s).area[x - HEADER_SIZE];
        assert r[x] == Decode(r).area[x - HEADER_SIZE];
      } else {
        DirectoryInjective(s, r, x);
      }
    }
  }

  lemma DirectoryInjective(s: Image, r: Image, x: nat)
    requires HeaderOk(s) && HeaderOk(r) && Slots(s) == Slots(r)
    requires PAGE_SIZE - SLOT_SIZE * SlotCount(s) <= x < PAGE_SIZE
    ensures s[x] == r[x]
  {
    hide GetU16;
    var i := (PAGE_SIZE - 1 - x) / SLOT_SIZE;
    SlotsDecoded(s);
    SlotsDecoded(r);
    assert SlotAt(s, i) == SlotAt(r, i);
    U16Injective(s, r, SlotPos(i));
    U16Injective(s, r, SlotPos(i) + 2);
  }

  /** Encoding undoes decoding on every image with a consistent header. */
  lemma DecodeEncodes(s: Image)
    requires HeaderOk(s)
    ensures Encode(Decode(s)) == s
  {
    DecodeInjective(Encode(Decode(s)), s);
  }
}
