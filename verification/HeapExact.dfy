/** The exact condition under which runs of the heap file keep what callers put
    in, whatever bytes the records hold: no kept compaction clobbers. */
module HeapExact {
  import opened Bytes
  import opened SlotTable
  import opened TableOps
  import opened PageValue
  import opened Compaction
  import opened PageOps
  import opened HeapOps
  import opened HeapRuns

  // ---- Runs that differ only in the bytes of the records ----

  ghost predicate SameShapeOp(a: Op, b: Op) {
    a == b || (a.Insert? && b.Insert? && |a.record| == |b.record|)
  }

  ghost predicate SameShape(a: seq<Op>, b: seq<Op>) {
    |a| == |b| && forall i :: 0 <= i < |a| ==> SameShapeOp(a[i], b[i])
  }

  lemma SameShapeReflexive(a: seq<Op>)
    ensures SameShape(a, a)
  {
  }

  lemma SameShapeExtend(a: seq<Op>, front: seq<Op>, op: Op)
    requires a != [] && SameShape(Front(a), front) && SameShapeOp(Last(a), op)
    ensures SameShape(a, front + [op])
  {
    var b := front + [op];
    forall i | 0 <= i < |a|
      ensures SameShapeOp(a[i], b[i])
    {
      assert i < |front| ==> a[i] == Front(a)[i];
    }
  }

  ghost predicate SameTables(a: seq<Page>, b: seq<Page>) {
    |a| == |b| && forall i :: 0 <= i < |a| ==> a[i].table == b[i].table
  }

  lemma InsertedSameTable(p: Page, q: Page, record: seq<byte>, record': seq<byte>)
    requires p.Valid() && q.Valid() && p.table == q.table && |record| == |record'|
    ensures Inserted(p, record).page.table == Inserted(q, record').page.table
    ensures Inserted(p, record).slot == Inserted(q, record').slot
  {
  }

  lemma {:induction false} FirstFitSameTables(a: seq<Page>, b: seq<Page>, n: nat, i: nat, count: nat)
    requires SameTables(a, b) && i <= count <= |a|
    ensures FirstFit(a, n, i, count) == FirstFit(b, n, i, count)
    decreases count - i
  {
    if i < count {
      assert a[i].table == b[i].table;
      FirstFitSameTables(a, b, n, i + 1, count);
    }
  }

  lemma InsertSameTables(a: seq<Page>, b: seq<Page>, record: seq<byte>, record': seq<byte>)
    requires ValidHeap(a) && ValidHeap(b) && SameTables(a, b) && |record| == |record'|
    ensures SameTables(HeapInserted(a, record).pages, HeapInserted(b, record').pages)
    ensures HeapInserted(a, record).rid == HeapInserted(b, record').rid
  {
    hide Inserted, Fits, Empty;
    var count := ToU32(|a|);
    FirstFitSameTables(a, b, |record|, 0, count);
    var id := FirstFit(a, |record|, 0, count);
    if id < count {
      InsertedSameTable(a[id], b[id], record, record');
    } else {
      InsertedSameTable(Empty(), Empty(), record, record');
    }
  }

  lemma SafeSameTables(a: seq<Page>, b: seq<Page>, n: nat, rid: RID)
    requires SameTables(a, b)
    ensures AddsSafely(a, n, rid) <==> AddsSafely(b, n, rid)
  {
    hide NoClobber, HasRoom;
    if rid.page < |a| {
      assert a[rid.page].table == b[rid.page].table;
      CompactsIff(a[rid.page], n);
      CompactsIff(b[rid.page], n);
    }
  }

  lemma DeleteSameTables(a: seq<Page>, b: seq<Page>, rid: RID)
    requires ValidHeap(a) && ValidHeap(b) && SameTables(a, b)
    ensures SameTables(HeapDeleted(a, rid), HeapDeleted(b, rid))
    ensures Holds(a, rid) == Holds(b, rid)
  {
    if rid.page < |a| {
      assert a[rid.page].table == b[rid.page].table;
    }
  }

  /** Operations of the same shape on pages with the same tables. */
  lemma StepSameTables(a: seq<Page>, b: seq<Page>, op: Op, op': Op)
    requires ValidHeap(a) && ValidHeap(b) && SameTables(a, b) && SameShapeOp(op, op')
    ensures SameTables(Step(a, op), Step(b, op'))
    ensures !op.Get? ==> AnswerTo(a, op) == AnswerTo(b, op')
    ensures SafeStep(a, op, AnswerTo(a, op)) <==> SafeStep(b, op', AnswerTo(b, op'))
  {
    hide HeapInserted, HeapDeleted, SameTables, AddsSafely, Holds;
    match op
    case Insert(record) =>
      InsertSameTables(a, b, record, op'.record);
      var rid := HeapInserted(a, record).rid;
      if rid.Some? {
        SafeSameTables(a, b, |record|, rid.value);
      }
    case Delete(rid) =>
      DeleteSameTables(a, b, rid);
      SameTablesSameSize(a, b);
    case Get(_, _) =>
  }

  lemma SameTablesSameSize(a: seq<Page>, b: seq<Page>)
    requires SameTables(a, b)
    ensures |a| == |b|
  {
  }

  /** Two runs of the same shape go through the same tables, and their inserts
      and deletes get the same answers. */
  lemma {:induction false} RunSameTables(a: seq<Op>, b: seq<Op>)
    requires SameShape(a, b)
    ensures SameTables(Run(a), Run(b))
    ensures a != [] && !Last(a).Get? ==> AnswerTo(Run(Front(a)), Last(a)) == AnswerTo(Run(Front(b)), Last(b))
    ensures Clean(a) <==> Clean(b)
  {
    if a != [] {
      hide Step, AnswerTo, SafeStep, SameTables;
      RunSameTables(Front(a), Front(b));
      StepSameTables(Run(Front(a)), Run(Front(b)), Last(a), Last(b));
    }
  }

  /** The record that callers put in under a given id can be replaced by any
      other of the same length. */
  lemma {:induction false} Rewrite(ops: seq<Op>, rid: RID, record: seq<byte>) returns (b: seq<Op>)
    requires rid in Model(ops) && |record| == |Model(ops)[rid]|
    ensures SameShape(ops, b) && Model(b) == Model(ops)[rid := record]
  {
    hide Step, AnswerTo, SafeStep, Run, SameShape, SameTables;
    var pages, op := Run(Front(ops)), Last(ops);
    if op.Insert? && AnswerTo(pages, op) == Given(rid) {
      b := Front(ops) + [Insert(record)];
      assert Front(b) == Front(ops);
      SameTablesReflexive(pages);
      StepSameTables(pages, pages, op, Insert(record));
      SameShapeReflexive(Front(ops));
      SameShapeExtend(ops, Front(ops), Insert(record));
    } else {
      var front := Rewrite(Front(ops), rid, record);
      b := front + [op];
      assert Front(b) == front;
      SameShapeExtend(ops, front, op);
      RunSameTables(Front(ops), front);
      StepSameTables(pages, Run(front), op, op);
    }
  }

  lemma SameTablesReflexive(pages: seq<Page>)
    ensures SameTables(pages, pages)
  {
  }

  // ---- What an unsafe insert does ----

  /** A byte of a record before an insert. */
  datatype Place = Place(rid: RID, index: nat)

  ghost predicate At(pages: seq<Page>, place: Place) {
    && Holds(pages, place.rid)
    && place.index < pages[place.rid.page].table.slots[place.rid.slot].length
  }

  /** The insert overwrites one byte with another. */
  ghost predicate Overwrites(pages: seq<Page>, record: seq<byte>, lost: Place, winner: Place)
    requires ValidHeap(pages)
  {
    var r := HeapInserted(pages, record).pages;
    && At(pages, winner) && ValidHeap(r) && At(r, lost)
    && Records(r)[lost.rid][lost.index] == Records(pages)[winner.rid][winner.index]
  }

  /** The places of a byte that an unsafe insert overwrites and of the byte of
      another record that it is overwritten with. */
  lemma UnsafePlaces(pages: seq<Page>, record: seq<byte>) returns (lost: Place, winner: Place)
    requires ValidHeap(pages) && |pages| < FILE_LIMIT && HeapInserted(pages, record).rid.Some?
    requires !AddsSafely(pages, |record|, HeapInserted(pages, record).rid.value)
    ensures At(pages, lost) && At(pages, winner) && lost.rid != winner.rid
    ensures forall other: seq<Page>, record': seq<byte> ::
      ValidHeap(other) && SameTables(pages, other) && |record'| == |record| ==> Overwrites(other, record', lost, winner)
  {
    hide HeapInserted;
    var id := HeapInserted(pages, record).rid.value.page;
    var p := pages[id];
    CompactsIff(p, |record|);
    var j: nat :| j < |p.table.slots| && Clobbered(p.table.slots, j);
    var x, home := ClobberedOrigin(p.table, j);
    var o := Origin(p.table.slots, j, x);
    lost := Place(RID(id, j), x - p.table.slots[j].offset);
    winner := Place(RID(id, home), o - p.table.slots[home].offset);
    forall other: seq<Page>, record': seq<byte> | ValidHeap(other) && SameTables(pages, other) && |record'| == |record|
      ensures Overwrites(other, record', lost, winner)
    {
      InsertSameTables(pages, other, record, record');
      assert other[id].table == p.table;
      UnsafeOverwrites(other, record', lost, winner);
    }
  }

  lemma UnsafeOverwrites(pages: seq<Page>, record: seq<byte>, lost: Place, winner: Place)
    requires ValidHeap(pages) && |pages| < FILE_LIMIT && HeapInserted(pages, record).rid.Some?
    requires At(pages, lost) && At(pages, winner) && lost.rid.page == winner.rid.page
    requires HeapInserted(pages, record).rid.value.page == lost.rid.page
    requires NeedsCompaction(pages[lost.rid.page], |record|)
    requires var slots, j := pages[lost.rid.page].table.slots, lost.rid.slot;
      Origin(slots, j, slots[j].offset + lost.index) == slots[winner.rid.slot].offset + winner.index
    ensures Overwrites(pages, record, lost, winner)
  {
    hide HeapInserted, Inserted, Compacted, NeedsCompaction, Origin, FirstFit, Layout, Fits;
    var id, r := lost.rid.page, HeapInserted(pages, record);
    HeapInsertFirstFit(pages, record);
    AddedAt(pages, record, r.pages, r.rid.value, lost.rid);
    InsertedByteFrom(pages[id], record, lost.rid.slot, lost.index, winner.rid.slot, winner.index);
  }

  lemma InsertedByteFrom(p: Page, record: seq<byte>, j: nat, k: nat, home: nat, m: nat)
    requires p.Valid() && p.LiveSlot(j) && k < p.table.slots[j].length
    requires p.LiveSlot(home) && m < p.table.slots[home].length
    requires NeedsCompaction(p, |record|) && Inserted(p, record).slot != -1
    requires Origin(p.table.slots, j, p.table.slots[j].offset + k) == p.table.slots[home].offset + m
    ensures var r := Inserted(p, record).page;
      r.Valid() && r.LiveSlot(j) && k < r.table.slots[j].length && r.Record(j)[k] == p.Record(home)[m]
  {
    hide Inserted, Origin, Layout;
    InsertedByte(p, record, j, k);
    RecordByte(p, home, m);
  }

  /** A byte of a record after a successful insert that compacts. */
  lemma InsertedByte(p: Page, record: seq<byte>, j: nat, k: nat)
    requires p.Valid() && p.LiveSlot(j) && k < p.table.slots[j].length
    requires NeedsCompaction(p, |record|) && Inserted(p, record).slot != -1
    ensures var r, o := Inserted(p, record).page, Origin(p.table.slots, j, p.table.slots[j].offset + k);
      && r.Valid() && r.LiveSlot(j) && k < r.table.slots[j].length
      && 0 <= o - HEADER_SIZE < |p.area| && r.Record(j)[k] == p.area[o - HEADER_SIZE]
  {
    var q := Compacted(p);
    CompactedByte(p, j, k);
    assert j in q.Contents() && q.Contents()[j] == q.Record(j);
    PlacedValid(q, record);
    assert j in Placed(q, record).Contents();
  }

  // ---- The exact condition ----

  /** At every point of the run the file holds what the callers put in. */
  ghost predicate Faithful(ops: seq<Op>) {
    forall n {:trigger ops[..n]} :: 0 <= n <= |ops| ==> Records(Run(ops[..n])) == Model(ops[..n])
  }

  lemma CleanIsFaithful(ops: seq<Op>)
    requires |Run(ops)| < FILE_LIMIT && Clean(ops)
    ensures Faithful(ops)
  {
    forall n | 0 <= n <= |ops|
      ensures Records(Run(ops[..n])) == Model(ops[..n])
    {
      CleanPrefix(ops, n);
      PrefixSmaller(ops, n);
      CleanRunKeepsRecords(ops[..n]);
    }
  }

  lemma {:induction false} CleanPrefix(ops: seq<Op>, n: nat)
    requires Clean(ops) && n <= |ops|
    ensures Clean(ops[..n])
  {
    if n < |ops| {
      CleanPrefix(Front(ops), n);
      assert Front(ops)[..n] == ops[..n];
    } else {
      assert ops[..n] == ops;
    }
  }

  lemma InsertKeepsModel(ops: seq<Op>, rid: RID)
    requires ops != [] && |Run(Front(ops))| < FILE_LIMIT && Last(ops).Insert?
    requires rid in Model(Front(ops))
    ensures rid in Model(ops) && Model(ops)[rid] == Model(Front(ops))[rid]
  {
    hide AnswerTo;
    RunAnswers(Front(ops), Last(ops));
  }

  /** Overwriting a byte with a different one loses the record. */
  lemma OverwriteLoses(ops: seq<Op>, lost: Place, winner: Place)
    requires ops != [] && |Run(Front(ops))| < FILE_LIMIT && Last(ops).Insert?
    requires var pages, m := Run(Front(ops)), Model(Front(ops));
      && At(pages, lost) && Overwrites(pages, Last(ops).record, lost, winner)
      && Records(pages) == m && m[lost.rid][lost.index] != m[winner.rid][winner.index]
    ensures Records(Run(ops)) != Model(ops)
  {
    hide HeapInserted, Model;
    assert Run(ops) == HeapInserted(Run(Front(ops)), Last(ops).record).pages;
    InsertKeepsModel(ops, lost.rid);
  }

  /** A run of the same shape whose records end up wrong, where the last insert
      of a clean run is unsafe. */
  lemma UnsafeWitness(ops: seq<Op>) returns (b: seq<Op>)
    requires ops != [] && |Run(Front(ops))| < FILE_LIMIT && Clean(Front(ops))
    requires !SafeStep(Run(Front(ops)), Last(ops), AnswerTo(Run(Front(ops)), Last(ops)))
    ensures |b| == |ops| && SameShape(ops, b) && Records(Run(b)) != Model(b)
  {
    hide HeapInserted, AddsSafely, Run, Overwrites, SameShape;
    var pages, op, m := Run(Front(ops)), Last(ops), Model(Front(ops));
    CleanRunKeepsRecords(Front(ops));
    var lost, winner := UnsafePlaces(pages, op.record);
    var kept := m[lost.rid];
    if kept[lost.index] != m[winner.rid][winner.index] {
      b := ops;
      SameShapeReflexive(ops);
      SameTablesReflexive(pages);
    } else {
      var changed := kept[lost.index := if kept[lost.index] == 0 then 1 else 0];
      var front := Rewrite(Front(ops), lost.rid, changed);
      b := front + [op];
      assert Front(b) == front;
      SameShapeExtend(ops, front, op);
      RunSameTables(Front(ops), front);
      SameTablesSameSize(pages, Run(front));
      CleanRunKeepsRecords(front);
      SameTablesAt(pages, Run(front), lost);
    }
    OverwriteLoses(b, lost, winner);
  }

  lemma SameTablesAt(a: seq<Page>, b: seq<Page>, place: Place)
    requires SameTables(a, b) && At(a, place)
    ensures At(b, place)
  {
    assert a[place.rid.page].table == b[place.rid.page].table;
  }

  lemma {:induction false} UncleanWitness(ops: seq<Op>) returns (b: seq<Op>)
    requires |Run(ops)| < FILE_LIMIT && !Clean(ops)
    ensures |b| == |ops| && SameShape(ops, b) && !Faithful(b)
  {
    RunGrows(ops);
    hide AnswerTo, SafeStep, Run, SameShape;
    if Clean(Front(ops)) {
      b := UnsafeWitness(ops);
      assert b[..|b|] == b;
      NotFaithful(b, |b|);
    } else {
      var front := UncleanWitness(Front(ops));
      b := front + [Last(ops)];
      SameShapeExtend(ops, front, Last(ops));
      var n :| 0 <= n <= |front| && Records(Run(front[..n])) != Model(front[..n]);
      assert b[..n] == front[..n];
      NotFaithful(b, n);
    }
  }

  lemma NotFaithful(ops: seq<Op>, n: nat)
    requires n <= |ops| && Records(Run(ops[..n])) != Model(ops[..n])
    ensures !Faithful(ops)
  {
  }

  /** As long as the file has fewer than 2^32 pages: it holds, at every point of
      a run and whatever bytes its records hold, exactly what the callers put
      in, if and only if no insert of the run keeps a compaction that clobbers a
      slot. */
  lemma {:induction false} FaithfulIffClean(ops: seq<Op>)
    requires |Run(ops)| < FILE_LIMIT
    ensures (forall b :: SameShape(ops, b) ==> Faithful(b)) <==> Clean(ops)
  {
    if Clean(ops) {
      forall b | SameShape(ops, b)
        ensures Faithful(b)
      {
        RunSameTables(ops, b);
        SameTablesSameSize(Run(ops), Run(b));
        CleanIsFaithful(b);
      }
    } else {
      var b := UncleanWitness(ops);
    }
  }
}
