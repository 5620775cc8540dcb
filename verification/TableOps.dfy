/** What compaction, insertion and deletion do to the slot table, and the
    order of the records that decides whether compaction is safe. */
module TableOps {
  import opened Bytes
  import opened SlotTable

  // ---- Order and clobbering ----

  /** Moving slot i, as compaction does, overwrites a byte of the record of
      the later slot j, which has not been moved yet. */
  predicate ClobberedBy(slots: seq<Slot>, i: nat, j: nat) {
    && i < j
    && LiveAt(slots, i) && LiveAt(slots, j)
    && Dst(slots, i) < slots[j].End()
    && slots[j].offset < Dst(slots, i) + slots[i].length
  }

  predicate Clobbered(slots: seq<Slot>, j: nat) {
    exists i: nat :: i < |slots| && ClobberedBy(slots, i, j)
  }

  predicate NoClobber(slots: seq<Slot>) {
    forall j: nat :: j < |slots| ==> !Clobbered(slots, j)
  }

  /** The live records lie in the order of their slot ids. */
  ghost predicate Ordered(slots: seq<Slot>) {
    forall i, j :: i < j && LiveAt(slots, i) && LiveAt(slots, j) ==> slots[i].offset < slots[j].offset
  }

  /** Records that lie in slot order below bound leave room for themselves. */
  lemma {:induction false} OrderedPacked(t: Table, i: nat, bound: nat)
    requires Layout(t) && Ordered(t.slots) && i <= |t.slots| && HEADER_SIZE <= bound
    requires forall k :: LiveAt(t.slots, k) && k < i ==> t.slots[k].End() <= bound
    ensures Dst(t.slots, i) <= bound
  {
    if i > 0 {
      var last := t.slots[i - 1];
      if last.Live() {
        assert LiveAt(t.slots, i - 1);
        forall k | LiveAt(t.slots, k) && k < i - 1
          ensures t.slots[k].End() <= last.offset
        {
          assert Apart(t.slots[k], last);
        }
        OrderedPacked(t, i - 1, last.offset);
      } else {
        OrderedPacked(t, i - 1, bound);
      }
    }
  }

  /** In slot order no record is ever moved up, so none is overwritten. */
  lemma OrderedNoClobber(t: Table)
    requires Layout(t) && Ordered(t.slots)
    ensures NoClobber(t.slots)
  {
    forall j | LiveAt(t.slots, j)
      ensures Dst(t.slots, j) <= t.slots[j].offset
    {
      forall k | LiveAt(t.slots, k) && k < j
        ensures t.slots[k].End() <= t.slots[j].offset
      {
        assert Apart(t.slots[k], t.slots[j]);
      }
      OrderedPacked(t, j, t.slots[j].offset);
    }
    NoClobberIff(t);
  }

  /** The moves of the slots below j write every byte up to the destination of
      slot j. */
  lemma {:induction false} WriterBelow(slots: seq<Slot>, j: nat, x: int) returns (i: nat)
    requires j <= |slots| && HEADER_SIZE <= x < Dst(slots, j)
    ensures i < j && LiveAt(slots, i) && Dst(slots, i) <= x < Dst(slots, i) + slots[i].length
  {
    if Dst(slots, j - 1) <= x {
      i := j - 1;
    } else {
      i := WriterBelow(slots, j - 1, x);
    }
  }

  /** A live slot is clobbered if and only if its record lies below its own
      destination: one comparison per slot. */
  lemma ClobberedIff(t: Table, j: nat)
    requires Layout(t) && LiveAt(t.slots, j)
    ensures Clobbered(t.slots, j) <==> t.slots[j].offset < Dst(t.slots, j)
  {
    if i: nat :| i < |t.slots| && ClobberedBy(t.slots, i, j) {
      BeforeMonotone(t.slots, i, j);
    }
    if t.slots[j].offset < Dst(t.slots, j) {
      var i := WriterBelow(t.slots, j, t.slots[j].offset);
      assert ClobberedBy(t.slots, i, j);
    }
  }

  lemma NoClobberIff(t: Table)
    requires Layout(t)
    ensures NoClobber(t.slots) <==> forall j :: LiveAt(t.slots, j) ==> Dst(t.slots, j) <= t.slots[j].offset
  {
    forall j | LiveAt(t.slots, j)
      ensures Clobbered(t.slots, j) <==> t.slots[j].offset < Dst(t.slots, j)
    {
      ClobberedIff(t, j);
    }
    assert forall j: nat :: Clobbered(t.slots, j) ==> LiveAt(t.slots, j);
  }

  // ---- Compaction ----

  function CompactSlots(slots: seq<Slot>): (r: seq<Slot>)
    requires Dst(slots, |slots|) <= PAGE_SIZE
    ensures |r| == |slots|
    ensures forall i :: 0 <= i < |slots| ==> r[i] == CompactSlot(slots, i)
  {
    seq(|slots|, i requires 0 <= i < |slots| => CompactSlot(slots, i))
  }

  /** The slot as compaction leaves it; a dead slot is skipped and keeps its
      stale offset. */
  function CompactSlot(slots: seq<Slot>, i: nat): (sl: Slot)
    requires i < |slots| && Dst(slots, |slots|) <= PAGE_SIZE
    ensures sl.length == slots[i].length
  {
    BeforeMonotone(slots, i, |slots|);
    if slots[i].Live() then Slot(Dst(slots, i), slots[i].length) else slots[i]
  }

  function CompactTable(t: Table): (r: Table)
    requires Layout(t)
  {
    LiveFits(t);
    Table(Dst(t.slots, |t.slots|), CompactSlots(t.slots))
  }

  /** Compaction keeps the layout invariant and every length, packs the
      records without a gap and in slot order. */
  lemma CompactTableLayout(t: Table)
    requires Layout(t)
    ensures Layout(CompactTable(t))
    ensures Ordered(CompactTable(t).slots)
    ensures forall i :: 0 <= i < |t.slots| ==> CompactTable(t).slots[i].length == t.slots[i].length
    ensures Total(CompactTable(t).slots) == Total(t.slots)
    ensures CompactTable(t).freeStart == HEADER_SIZE + Total(t.slots) <= t.freeStart
  {
    LiveFits(t);
    var r := CompactTable(t).slots;
    BeforeSameLengths(r, t.slots, |r|);
    forall i | LiveAt(r, i)
      ensures HEADER_SIZE <= r[i].offset && r[i].End() <= CompactTable(t).freeStart
    {
      DstFits(t, i);
    }
    forall i, j | i < j && LiveAt(r, i) && LiveAt(r, j)
      ensures r[i].End() <= r[j].offset
    {
      BeforeMonotone(t.slots, i, j);
    }
  }

  lemma CompactTableIdempotent(t: Table)
    requires Layout(t)
    ensures Layout(CompactTable(t))
    ensures CompactTable(CompactTable(t)) == CompactTable(t)
  {
    CompactTableLayout(t);
    var r := CompactTable(t).slots;
    forall i: nat | i <= |r|
      ensures Dst(r, i) == Dst(t.slots, i)
    {
      BeforeSameLengths(r, t.slots, i);
    }
  }

  /** Compaction leaves the same slots dead. */
  lemma FirstDeadSameLengths(a: seq<Slot>, b: seq<Slot>)
    requires |a| == |b| && forall i :: 0 <= i < |a| ==> a[i].length == b[i].length
    ensures FirstDead(a) == FirstDead(b)
  {
    var x, y := FirstDead(a), FirstDead(b);
    assert x < |a| ==> a[x].Live() == b[x].Live();
    assert y < |a| ==> a[y].Live() == b[y].Live();
  }

  lemma {:induction false} AllLiveBefore(slots: seq<Slot>, i: nat)
    requires i <= |slots| && forall k :: 0 <= k < i ==> slots[k].Live()
    ensures i <= Before(slots, i)
  {
    if i > 0 {
      AllLiveBefore(slots, i - 1);
    }
  }

  // ---- Insertion ----

  /** The lowest dead slot, or the number of slots when all are live. */
  function FirstDead(slots: seq<Slot>): (d: nat)
    ensures d <= |slots|
    ensures d < |slots| ==> !slots[d].Live()
    ensures forall i :: 0 <= i < d ==> slots[i].Live()
  {
    FirstDeadFrom(slots, 0)
  }

  function FirstDeadFrom(slots: seq<Slot>, i: nat): (d: nat)
    requires i <= |slots|
    ensures i <= d <= |slots|
    ensures d < |slots| ==> !slots[d].Live()
    ensures forall k :: i <= k < d ==> slots[k].Live()
    decreases |slots| - i
  {
    if i < |slots| && slots[i].Live() then FirstDeadFrom(slots, i + 1) else i
  }

  /** What the directory has to grow by to take one more record. */
  function SlotCost(slots: seq<Slot>): nat {
    if FirstDead(slots) < |slots| then 0 else SLOT_SIZE
  }

  /** The space between the records and the directory as it stands. */
  function Gap(t: Table): int {
    PAGE_SIZE - SLOT_SIZE * |t.slots| - t.freeStart
  }

  /** The space that is not taken by the header, the directory or a live
      record, wherever it lies. */
  function Reclaimable(slots: seq<Slot>): int {
    PAGE_SIZE - SLOT_SIZE * |slots| - HEADER_SIZE - Total(slots)
  }

  /** The table with a record of n bytes appended at freeStart. */
  function PlaceTable(t: Table, n: u16): (r: Table)
    requires Layout(t) && n + SlotCost(t.slots) <= Gap(t)
    ensures |t.slots| <= |r.slots|
  {
    var d := FirstDead(t.slots);
    var sl := Slot(t.freeStart, n);
    Table(t.freeStart + n, if d < |t.slots| then t.slots[d := sl] else t.slots + [sl])
  }

  /** Placing a record keeps the layout, takes exactly its length and its
      directory entry from the reclaimable space, and changes one slot. */
  lemma PlaceTableLayout(t: Table, n: u16)
    requires Layout(t) && n > 0 && n + SlotCost(t.slots) <= Gap(t)
    ensures
      var r, d := PlaceTable(t, n), FirstDead(t.slots);
      && Layout(r)
      && Reclaimable(r.slots) == Reclaimable(t.slots) - n - SlotCost(t.slots)
      && Total(r.slots) == Total(t.slots) + n
      && !LiveAt(t.slots, d) && LiveAt(r.slots, d) && r.slots[d] == Slot(t.freeStart, n)
      && (forall i :: 0 <= i < |t.slots| && i != d ==> r.slots[i] == t.slots[i])
      && |r.slots| == if d < |t.slots| then |t.slots| else |t.slots| + 1
  {
    var r, d := PlaceTable(t, n), FirstDead(t.slots);
    var sl := Slot(t.freeStart, n);
    if d < |t.slots| {
      BeforeUpdate(t.slots, d, sl, |t.slots|);
    } else {
      TotalAppend(t.slots, sl);
    }
    forall i | LiveAt(r.slots, i) && i != d
      ensures LiveAt(t.slots, i) && r.slots[i] == t.slots[i]
    {
    }
  }

  /** A record placed in an ordered page leaves it ordered exactly when no
      live slot lies above the slot it was given. */
  lemma PlaceTableOrdered(t: Table, n: u16)
    requires Layout(t) && Ordered(t.slots) && n > 0 && n + SlotCost(t.slots) <= Gap(t)
    ensures Ordered(PlaceTable(t, n).slots)
       <==> forall j :: LiveAt(t.slots, j) ==> j < FirstDead(t.slots)
  {
    PlaceTableLayout(t, n);
    var r, d := PlaceTable(t, n).slots, FirstDead(t.slots);
    forall i | LiveAt(t.slots, i)
      ensures LiveAt(r, i) && r[i] == t.slots[i] && r[i].offset < r[d].offset
    {
    }
    if j :| LiveAt(t.slots, j) && d <= j {
      assert !Ordered(r) by {
        assert d < j && LiveAt(r, d) && LiveAt(r, j);
      }
    } else {
      forall i, j | i < j && LiveAt(r, i) && LiveAt(r, j)
        ensures r[i].offset < r[j].offset
      {
        assert i != d ==> LiveAt(t.slots, i);
        assert j != d ==> LiveAt(t.slots, j);
      }
    }
  }

  /** A record placed in a page where nothing is clobbered leaves it so exactly
      when every live record above its slot has room for it below. */
  lemma PlaceTableNoClobber(t: Table, n: u16)
    requires Layout(t) && NoClobber(t.slots) && n > 0 && n + SlotCost(t.slots) <= Gap(t)
    ensures NoClobber(PlaceTable(t, n).slots)
       <==> forall j :: FirstDead(t.slots) < j && LiveAt(t.slots, j) ==> Dst(t.slots, j) + n <= t.slots[j].offset
  {
    PlaceTableLayout(t, n);
    var r, d := PlaceTable(t, n), FirstDead(t.slots);
    forall j | LiveAt(t.slots, j)
      ensures LiveAt(r.slots, j) && r.slots[j] == t.slots[j]
      ensures Dst(r.slots, j) == Dst(t.slots, j) + if d < j then n else 0
    {
      PlaceTableBefore(t, n, j);
    }
    LiveFits(t);
    PlaceTableBefore(t, n, d);
    BelowTotal(t.slots, d);
    assert forall j :: LiveAt(r.slots, j) ==> j == d || LiveAt(t.slots, j);
    NoClobberIff(t);
    NoClobberIff(r);
  }

  lemma BelowTotal(slots: seq<Slot>, i: nat)
    requires i <= |slots|
    ensures Before(slots, i) <= Total(slots)
  {
    if i < |slots| {
      BeforeMonotone(slots, i, |slots|);
    }
  }

  lemma PlaceTableBefore(t: Table, n: u16, i: nat)
    requires Layout(t) && n + SlotCost(t.slots) <= Gap(t) && i <= |t.slots|
    ensures Before(PlaceTable(t, n).slots, i) == Before(t.slots, i) + if FirstDead(t.slots) < i then n else 0
  {
    var d, r := FirstDead(t.slots), PlaceTable(t, n).slots;
    if d < |t.slots| {
      BeforeUpdate(t.slots, d, Slot(t.freeStart, n), i);
    } else {
      BeforeSameLengths(r, t.slots, i);
    }
  }

  // ---- Deletion ----

  function KillSlot(slots: seq<Slot>, i: nat): seq<Slot>
    requires i < |slots|
  {
    slots[i := Slot(slots[i].offset, 0)]
  }

  lemma KillSlotLayout(t: Table, i: nat)
    requires Layout(t) && LiveAt(t.slots, i)
    ensures Layout(t.(slots := KillSlot(t.slots, i)))
    ensures Total(KillSlot(t.slots, i)) == Total(t.slots) - t.slots[i].length
    ensures Ordered(t.slots) ==> Ordered(KillSlot(t.slots, i))
    ensures NoClobber(t.slots) ==> NoClobber(KillSlot(t.slots, i))
  {
    KillSlotNoClobber(t, i);
    var r := KillSlot(t.slots, i);
    BeforeUpdate(t.slots, i, Slot(t.slots[i].offset, 0), |t.slots|);
    assert forall k :: LiveAt(r, k) ==> LiveAt(t.slots, k) && r[k] == t.slots[k];
  }

  lemma KillSlotNoClobber(t: Table, i: nat)
    requires Layout(t) && LiveAt(t.slots, i)
    ensures Layout(t.(slots := KillSlot(t.slots, i)))
    ensures NoClobber(t.slots) ==> NoClobber(KillSlot(t.slots, i))
  {
    var r := KillSlot(t.slots, i);
    forall j | LiveAt(r, j)
      ensures LiveAt(t.slots, j) && r[j] == t.slots[j] && Dst(r, j) <= Dst(t.slots, j)
    {
      BeforeUpdate(t.slots, i, Slot(t.slots[i].offset, 0), j);
    }
    KillSlotApart(t, i);
    NoClobberIff(t);
    NoClobberIff(t.(slots := r));
  }

  lemma KillSlotApart(t: Table, i: nat)
    requires Layout(t) && LiveAt(t.slots, i)
    ensures Layout(t.(slots := KillSlot(t.slots, i)))
  {
    var r := KillSlot(t.slots, i);
    assert forall k :: LiveAt(r, k) ==> LiveAt(t.slots, k) && r[k] == t.slots[k];
  }
}
