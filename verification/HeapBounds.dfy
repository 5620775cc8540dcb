/** Runs on which the heap file is well behaved: which discipline keeps every
    run clean, and how much space first fit needs. */
module HeapBounds {
  import opened Bytes
  import opened SlotTable
  import opened TableOps
  import opened PageValue
  import opened Compaction
  import opened PageOps
  import opened HeapOps
  import opened HeapRuns

  // ---- Pages in which nothing is clobbered ----

  ghost predicate AllSafe(pages: seq<Page>) {
    forall i :: 0 <= i < |pages| ==> NoClobber(pages[i].table.slots)
  }

  /** An insert into an old page leaves room for the records above. */
  ghost predicate CarefulStep(pages: seq<Page>, op: Op)
    requires ValidHeap(pages)
  {
    var answer := AnswerTo(pages, op);
    op.Insert? && answer.Given? && answer.rid.page < |pages| ==> RoomAbove(pages[answer.rid.page], |op.record|)
  }

  /** Where nothing is clobbered, this is exactly what keeps it so. */
  lemma StepAllSafeIff(pages: seq<Page>, op: Op)
    requires ValidHeap(pages) && |pages| < FILE_LIMIT && AllSafe(pages)
    ensures AllSafe(Step(pages, op)) <==> CarefulStep(pages, op)
    ensures SafeStep(pages, op, AnswerTo(pages, op))
  {
    hide HeapInserted, HeapDeleted, NoClobber, RoomAbove;
    match op
    case Insert(record) =>
      var r := HeapInserted(pages, record);
      if r.rid.Some? {
        HeapInsertFirstFit(pages, record);
        AddedSafeIff(pages, record, r.pages, r.rid.value);
      } else {
        HeapInsertRefused(pages, record);
        EmptyNoClobber();
      }
    case Delete(rid) => DeletedAllSafe(pages, rid);
    case Get(_, _) =>
  }

  lemma EmptyNoClobber()
    ensures NoClobber(Empty().table.slots)
  {
  }

  lemma AddedSafeIff(pages: seq<Page>, record: seq<byte>, r: seq<Page>, rid: RID)
    requires ValidHeap(pages) && AllSafe(pages) && Adds(pages, record, r, rid)
    ensures AllSafe(r) <==> (rid.page < |pages| ==> RoomAbove(pages[rid.page], |record|))
  {
    hide Inserted, NoClobber, RoomAbove, Empty;
    EmptyNoClobber();
    var p := if rid.page < |pages| then pages[rid.page] else Empty();
    InsertedNoClobber(p, record);
    assert r[rid.page] == Inserted(p, record).page;
    if rid.page == |pages| {
      EmptyRoomAbove(|record|);
    }
    assert forall i :: 0 <= i < |r| && i != rid.page ==> r[i] == pages[i];
  }

  lemma EmptyRoomAbove(n: nat)
    ensures RoomAbove(Empty(), n)
  {
    PreparedSlots(Empty(), n);
  }

  lemma DeletedAllSafe(pages: seq<Page>, rid: RID)
    requires ValidHeap(pages) && AllSafe(pages)
    ensures AllSafe(HeapDeleted(pages, rid))
  {
    hide NoClobber, Deleted;
    if Holds(pages, rid) {
      DeletedContents(pages[rid.page], rid.slot);
    }
  }

  /** Every operation of the run is careful. */
  ghost predicate Careful(ops: seq<Op>) {
    ops == [] || (Careful(Front(ops)) && CarefulStep(Run(Front(ops)), Last(ops)))
  }

  /** At no point of the run a slot is clobbered. */
  ghost predicate AlwaysSafe(ops: seq<Op>) {
    AllSafe(Run(ops)) && (ops != [] ==> AlwaysSafe(Front(ops)))
  }

  /** The careful runs are exactly those on which no slot is ever clobbered, and
      they lose nothing. */
  lemma {:induction false} CarefulIff(ops: seq<Op>)
    requires |Run(ops)| < FILE_LIMIT
    ensures AlwaysSafe(ops) <==> Careful(ops)
    ensures Careful(ops) ==> Clean(ops) && Records(Run(ops)) == Model(ops)
  {
    if ops != [] {
      hide Step, AnswerTo, SafeStep, AllSafe, CarefulStep;
      RunGrows(ops);
      CarefulIff(Front(ops));
      if AllSafe(Run(Front(ops))) {
        StepAllSafeIff(Run(Front(ops)), Last(ops));
      }
    }
    if Careful(ops) && Clean(ops) {
      CleanRunKeepsRecords(ops);
    }
  }

  // ---- Deleting only the highest live slot ----

  /** The dead slots come last. */
  ghost predicate Stacked(p: Page) {
    forall i, j :: 0 <= i < j && p.LiveSlot(j) ==> p.LiveSlot(i)
  }

  ghost predicate AllStacked(pages: seq<Page>) {
    forall i :: 0 <= i < |pages| ==> Stacked(pages[i])
  }

  predicate Highest(p: Page, i: nat) {
    forall j :: i < j < |p.table.slots| ==> !p.LiveSlot(j)
  }

  /** A delete names the highest live slot of its page, or an unused id. */
  ghost predicate TopDelete(pages: seq<Page>, op: Op) {
    op.Delete? && Holds(pages, op.rid) ==> Highest(pages[op.rid.page], op.rid.slot)
  }

  ghost predicate LastInFirstOut(ops: seq<Op>) {
    ops == [] || (LastInFirstOut(Front(ops)) && TopDelete(Run(Front(ops)), Last(ops)))
  }

  /** On a stacked page an insert fills the slot above all live ones. */
  lemma StackedInsert(p: Page, record: seq<byte>)
    requires p.Valid() && Stacked(p) && Inserted(p, record).slot != -1
    ensures Stacked(Inserted(p, record).page) && RoomAbove(p, |record|)
  {
    StackedRoom(p, |record|);
    hide Inserted, Layout, RoomAbove;
    var r, d := Inserted(p, record), FirstDead(p.table.slots);
    InsertedLengths(p, record);
    InsertedInFirstDead(p, record);
    assert !p.LiveSlot(d);
    forall i
      ensures r.page.LiveSlot(i) <==> i == d || p.LiveSlot(i)
    {
      assert i in Lengths(r.page) <==> i == d || i in Lengths(p);
    }
  }

  lemma StackedRoom(p: Page, n: nat)
    requires p.Valid() && Stacked(p)
    ensures RoomAbove(p, n)
  {
    hide HasRoom, Layout, Compacted;
    CompactedValid(p);
    NothingAbove(p);
    assert Stacked(Compacted(p));
    NothingAbove(Compacted(p));
    assert forall j :: LiveAt(p.table.slots, j) ==> p.LiveSlot(j);
  }

  lemma NothingAbove(p: Page)
    requires Stacked(p)
    ensures forall j :: p.LiveSlot(j) ==> j < FirstDead(p.table.slots)
  {
    var d := FirstDead(p.table.slots);
    assert !p.LiveSlot(d);
  }

  lemma InsertedInFirstDead(p: Page, record: seq<byte>)
    requires p.Valid() && Inserted(p, record).slot != -1
    ensures Inserted(p, record).slot == FirstDead(p.table.slots)
  {
    PreparedSlots(p, |record|);
  }

  lemma StackedDelete(p: Page, i: nat)
    requires p.Valid() && Stacked(p) && p.LiveSlot(i) && Highest(p, i)
    ensures Stacked(Deleted(p, i))
  {
    assert forall k :: Deleted(p, i).LiveSlot(k) <==> p.LiveSlot(k) && k != i;
  }

  lemma StackedStep(pages: seq<Page>, op: Op)
    requires ValidHeap(pages) && |pages| < FILE_LIMIT && AllStacked(pages) && TopDelete(pages, op)
    ensures AllStacked(Step(pages, op)) && CarefulStep(pages, op)
  {
    hide HeapInserted, Inserted, RoomAbove, Stacked, Empty;
    EmptyStacked();
    match op
    case Insert(record) =>
      var r := HeapInserted(pages, record);
      if r.rid.Some? {
        HeapInsertFirstFit(pages, record);
        var id := r.rid.value.page;
        StackedInsert(if id < |pages| then pages[id] else Empty(), record);
      } else {
        HeapInsertRefused(pages, record);
      }
    case Delete(rid) =>
      if Holds(pages, rid) {
        StackedDelete(pages[rid.page], rid.slot);
      }
    case Get(_, _) =>
  }

  lemma EmptyStacked()
    ensures Stacked(Empty())
  {
  }

  lemma {:induction false} LastInFirstOutStacked(ops: seq<Op>)
    requires |Run(ops)| < FILE_LIMIT && LastInFirstOut(ops)
    ensures AllStacked(Run(ops)) && Careful(ops)
  {
    if ops != [] {
      hide Step, CarefulStep, AllStacked, TopDelete;
      RunGrows(ops);
      LastInFirstOutStacked(Front(ops));
      StackedStep(Run(Front(ops)), Last(ops));
    } else {
      assert Run(ops) == [];
    }
  }

  /** Runs that delete only the highest live slot of a page never lose a byte. */
  lemma {:induction false} LastInFirstOutIsClean(ops: seq<Op>)
    requires |Run(ops)| < FILE_LIMIT && LastInFirstOut(ops)
    ensures Careful(ops) && Clean(ops) && Records(Run(ops)) == Model(ops)
  {
    LastInFirstOutStacked(ops);
    CarefulIff(ops);
  }

  /** In particular no run without deletes does. */
  lemma {:induction false} NoDeletesIsLastInFirstOut(ops: seq<Op>)
    requires forall i :: 0 <= i < |ops| ==> !ops[i].Delete?
    ensures LastInFirstOut(ops)
  {
    if ops != [] {
      NoDeletesIsLastInFirstOut(Front(ops));
    }
  }

  // ---- Space ----

  /** The bytes a page spends on its records and their slots. */
  function Used(p: Page): nat {
    Total(p.table.slots) + SLOT_SIZE * |p.table.slots|
  }

  /** What an empty page offers. */
  const CAPACITY := PAGE_SIZE - HEADER_SIZE

  ghost predicate AllLive(p: Page) {
    && |p.table.slots| > 0
    && forall i :: 0 <= i < |p.table.slots| ==> p.LiveSlot(i)
  }

  /** No record of q would have fit in p. */
  ghost predicate Crowds(p: Page, q: Page) {
    forall i :: 0 <= i < |q.table.slots| ==> Used(p) + q.table.slots[i].length + SLOT_SIZE > CAPACITY
  }

  ghost predicate FirstFitPacked(pages: seq<Page>) {
    && (forall i :: 0 <= i < |pages| ==> AllLive(pages[i]))
    && (forall i, j :: 0 <= i < j < |pages| ==> Crowds(pages[i], pages[j]))
  }

  ghost predicate OnlyInserts(ops: seq<Op>) {
    forall i :: 0 <= i < |ops| ==> ops[i].Insert? && 0 < |ops[i].record| <= MAX_RECORD
  }

  /** The bytes that the records of a run and their slots take. */
  function Demand(ops: seq<Op>): nat {
    if ops == [] then 0
    else Demand(Front(ops)) + if Last(ops).Insert? then |Last(ops).record| + SLOT_SIZE else 0
  }

  function UsedBelow(pages: seq<Page>, n: nat): nat
    requires n <= |pages|
  {
    if n == 0 then 0 else UsedBelow(pages, n - 1) + Used(pages[n - 1])
  }

  /** An insert into a page without dead slots. */
  lemma AppendSlot(p: Page, record: seq<byte>)
    requires p.Valid() && (forall i :: 0 <= i < |p.table.slots| ==> p.LiveSlot(i))
    requires Inserted(p, record).slot != -1
    ensures var q := Inserted(p, record).page;
      && AllLive(q) && |q.table.slots| == |p.table.slots| + 1
      && Used(q) == Used(p) + |record| + SLOT_SIZE
      && q.table.slots[|p.table.slots|].length == |record|
      && forall i :: 0 <= i < |p.table.slots| ==> q.table.slots[i].length == p.table.slots[i].length
  {
    PreparedSlots(p, |record|);
    var q := Prepared(p, |record|);
    assert FirstDead(p.table.slots) < |p.table.slots| ==> p.LiveSlot(FirstDead(p.table.slots));
    assert Inserted(p, record).page.table == PlaceTable(q.table, |record|);
    AppendToTable(q.table, |record|);
  }

  lemma AppendToTable(t: Table, n: u16)
    requires Layout(t) && 0 < n && n + SlotCost(t.slots) <= Gap(t) && FirstDead(t.slots) == |t.slots|
    ensures var r := PlaceTable(t, n).slots;
      && |r| == |t.slots| + 1 && Total(r) == Total(t.slots) + n
      && r[|t.slots|].length == n
      && forall i :: 0 <= i < |t.slots| ==> r[i] == t.slots[i]
  {
    PlaceTableLayout(t, n);
  }

  lemma FitsAllLive(p: Page, n: nat)
    requires AllLive(p) && 0 < n
    ensures Fits(p, n) <==> Used(p) + n + SLOT_SIZE <= CAPACITY
  {
    assert FirstDead(p.table.slots) < |p.table.slots| ==> p.LiveSlot(FirstDead(p.table.slots));
  }

  lemma {:induction false} UsedBelowSame(a: seq<Page>, b: seq<Page>, n: nat)
    requires n <= |a| && n <= |b| && forall i :: 0 <= i < n ==> a[i] == b[i]
    ensures UsedBelow(a, n) == UsedBelow(b, n)
  {
    if n > 0 {
      UsedBelowSame(a, b, n - 1);
    }
  }

  lemma {:induction false} UsedBelowUpdate(a: seq<Page>, b: seq<Page>, id: nat, n: nat)
    requires id < n <= |a| && n <= |b| && forall i :: 0 <= i < n && i != id ==> a[i] == b[i]
    ensures UsedBelow(b, n) == UsedBelow(a, n) - Used(a[id]) + Used(b[id])
  {
    if n - 1 == id {
      UsedBelowSame(a, b, id);
    } else {
      UsedBelowUpdate(a, b, id, n - 1);
    }
  }

  lemma PackedAdd(pages: seq<Page>, record: seq<byte>, r: seq<Page>, rid: RID)
    requires ValidHeap(pages) && FirstFitPacked(pages) && 0 < |record| && Adds(pages, record, r, rid)
    requires forall k :: 0 <= k < rid.page ==> !Fits(pages[k], |record|)
    ensures FirstFitPacked(r)
  {
    hide Inserted, Fits, Used, Layout;
    var id := rid.page;
    AppendSlot(if id < |pages| then pages[id] else Empty(), record);
    var q := r[id];
    forall i | 0 <= i < id
      ensures Crowds(r[i], q)
    {
      FitsAllLive(pages[i], |record|);
      assert id < |pages| ==> Crowds(pages[i], pages[id]);
    }
    forall j | id < j < |r|
      ensures Crowds(q, r[j])
    {
      assert Crowds(pages[id], pages[j]);
    }
    assert forall i, j :: 0 <= i < j < |r| && i != id && j != id ==> Crowds(pages[i], pages[j]);
  }

  lemma UsedAdd(pages: seq<Page>, record: seq<byte>, r: seq<Page>, rid: RID)
    requires ValidHeap(pages) && FirstFitPacked(pages) && Adds(pages, record, r, rid)
    ensures UsedBelow(r, |r|) == UsedBelow(pages, |pages|) + |record| + SLOT_SIZE
  {
    hide Inserted, Used, Layout;
    var id := rid.page;
    AppendSlot(if id < |pages| then pages[id] else Empty(), record);
    if id < |pages| {
      UsedBelowUpdate(pages, r, id, |r|);
    } else {
      UsedBelowSame(pages, r, id);
      EmptyUsed();
    }
  }

  /** First fit keeps every page too full for the records of the later ones. */
  lemma PackedInsert(pages: seq<Page>, record: seq<byte>)
    requires ValidHeap(pages) && |HeapInserted(pages, record).pages| <= PAGE_LIMIT
    requires FirstFitPacked(pages) && 0 < |record| <= MAX_RECORD
    ensures var r := HeapInserted(pages, record).pages;
      && FirstFitPacked(r)
      && UsedBelow(r, |r|) == UsedBelow(pages, |pages|) + |record| + SLOT_SIZE
  {
    hide HeapInserted, Adds, FirstFitPacked;
    InsertSucceedsBelowLimit(pages, record);
    HeapInsertFirstFit(pages, record);
    var out := HeapInserted(pages, record);
    PackedAdd(pages, record, out.pages, out.rid.value);
    UsedAdd(pages, record, out.pages, out.rid.value);
  }

  /** As long as an int can number the pages, no insert is refused. */
  lemma InsertSucceedsBelowLimit(pages: seq<Page>, record: seq<byte>)
    requires ValidHeap(pages) && |HeapInserted(pages, record).pages| <= PAGE_LIMIT && 0 < |record| <= MAX_RECORD
    ensures |pages| <= PAGE_LIMIT && HeapInserted(pages, record).rid.Some?
  {
    HeapInsertValid(pages, record);
    HeapInsertSucceedsIff(pages, record);
  }

  lemma EmptyUsed()
    ensures Used(Empty()) == 0
  {
  }

  lemma {:induction false} InsertRunPacked(ops: seq<Op>)
    requires |Run(ops)| <= PAGE_LIMIT && OnlyInserts(ops)
    ensures FirstFitPacked(Run(ops))
    ensures UsedBelow(Run(ops), |Run(ops)|) == Demand(ops)
  {
    if ops != [] {
      RunGrows(ops);
      InsertRunPacked(Front(ops));
      PackedInsert(Run(Front(ops)), Last(ops).record);
    }
  }

  /** Any two pages together hold more than one page can. */
  lemma PairBound(pages: seq<Page>, i: nat, j: nat)
    requires FirstFitPacked(pages) && i < j < |pages|
    ensures Used(pages[i]) + Used(pages[j]) > CAPACITY
  {
    var q := pages[j];
    assert AllLive(q) && Crowds(pages[i], q);
    BeforeMonotone(q.table.slots, 0, |q.table.slots|);
  }

  /** Twice the space used by the first k pages, taken as neighbouring pairs. */
  lemma {:induction false} NeighbourBound(pages: seq<Page>, k: nat)
    requires FirstFitPacked(pages) && 0 < k <= |pages|
    ensures 2 * UsedBelow(pages, k) >= Used(pages[0]) + Used(pages[k - 1]) + (k - 1) * (CAPACITY + 1)
  {
    if k > 1 {
      NeighbourBound(pages, k - 1);
      PairBound(pages, k - 2, k - 1);
    }
  }

  /** The space bound of first fit, page by page: after any run of inserts, any
      two pages together hold more than 4090 bytes. */
  lemma {:induction false} FirstFitPairBound(ops: seq<Op>, i: nat, j: nat)
    requires |Run(ops)| <= PAGE_LIMIT && OnlyInserts(ops)
    requires i < j < |Run(ops)|
    ensures Used(Run(ops)[i]) + Used(Run(ops)[j]) > CAPACITY
  {
    InsertRunPacked(ops);
    PairBound(Run(ops), i, j);
  }

  lemma PackedPages(pages: seq<Page>)
    requires FirstFitPacked(pages)
    ensures |pages| <= 1 || |pages| * CAPACITY < 2 * UsedBelow(pages, |pages|)
  {
    if |pages| > 1 {
      NeighbourBound(pages, |pages|);
      PairBound(pages, 0, |pages| - 1);
    }
  }

  /** And for the whole file: from two pages on it has fewer than
      2 * demand / 4090 pages. */
  lemma {:induction false} FirstFitSpaceBound(ops: seq<Op>)
    requires |Run(ops)| <= PAGE_LIMIT && OnlyInserts(ops)
    ensures |Run(ops)| <= 1 || |Run(ops)| * CAPACITY < 2 * Demand(ops)
  {
    InsertRunPacked(ops);
    PackedPages(Run(ops));
  }
}
