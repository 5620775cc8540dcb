/** A run that loses a record: two inserts, a delete of the first record, an
    insert that reuses its slot at the end of the record area, and an insert
    that makes the page compact. The record of slot 0 is moved down over the
    record of slot 1, which has not been moved yet. */
module LostRecord {
  import opened Bytes
  import opened SlotTable
  import opened TableOps
  import opened PageValue
  import opened Compaction
  import opened PageOps
  import opened HeapOps
  import opened HeapRuns
  import opened HeapExact

  const FIRST := RID(0, 0)
  const SECOND := RID(0, 1)

  function Reuse(a: seq<byte>, b: seq<byte>, c: seq<byte>): seq<Op> {
    [Insert(a), Insert(b), Delete(FIRST), Insert(c)]
  }

  function Example(a: seq<byte>, b: seq<byte>, c: seq<byte>, d: seq<byte>): seq<Op> {
    Reuse(a, b, c) + [Insert(d)]
  }

  /** An insert into a file of one page that has room for it. */
  lemma InsertIntoOnly(pages: seq<Page>, record: seq<byte>)
    requires ValidHeap(pages) && |pages| == 1 && 0 < |record| && !NeedsCompaction(pages[0], |record|)
    ensures var r := HeapInserted(pages, record);
      r.pages == [Placed(pages[0], record)] && r.rid == Some(RID(0, FirstDead(pages[0].table.slots)))
  {
    LiveFits(pages[0].table);
  }

  lemma AfterFirst(a: seq<byte>)
    requires |a| == 10
    ensures var pages := Run([Insert(a)]);
      |pages| == 1 && pages[0].table == Table(16, [Slot(6, 10)])
    ensures Model([Insert(a)]) == map[FIRST := a]
  {
    assert Front([Insert(a)]) == [];
    assert Run([]) == [];
    EmptyFits(a);
    assert Inserted(Empty(), a) == Outcome(Placed(Empty(), a), 0);
  }

  lemma AfterSecond(a: seq<byte>, b: seq<byte>)
    requires |a| == 10 && |b| == 10
    ensures var pages := Run([Insert(a), Insert(b)]);
      |pages| == 1 && pages[0].table == Table(26, [Slot(6, 10), Slot(16, 10)])
    ensures Model([Insert(a), Insert(b)]) == map[FIRST := a, SECOND := b]
  {
    var ops := [Insert(a), Insert(b)];
    assert Front(ops) == [Insert(a)];
    AfterFirst(a);
    InsertIntoOnly(Run([Insert(a)]), b);
  }

  lemma AfterDelete(a: seq<byte>, b: seq<byte>)
    requires |a| == 10 && |b| == 10
    ensures var pages := Run([Insert(a), Insert(b), Delete(FIRST)]);
      |pages| == 1 && pages[0].table == Table(26, [Slot(6, 0), Slot(16, 10)])
    ensures Model([Insert(a), Insert(b), Delete(FIRST)]) == map[SECOND := b]
  {
    hide HeapDeleted, Layout, HeapInserted;
    var ops := [Insert(a), Insert(b), Delete(FIRST)];
    assert Front(ops) == [Insert(a), Insert(b)];
    AfterSecond(a, b);
    var pages := Run(Front(ops));
    assert Run(ops) == HeapDeleted(pages, FIRST);
    DeleteFirst(pages);
    assert map[FIRST := a, SECOND := b] - {FIRST} == map[SECOND := b];
  }

  lemma DeleteFirst(pages: seq<Page>)
    requires ValidHeap(pages) && |pages| == 1 && pages[0].table == Table(26, [Slot(6, 10), Slot(16, 10)])
    ensures var r := HeapDeleted(pages, FIRST);
      |r| == 1 && r[0].table == Table(26, [Slot(6, 0), Slot(16, 10)])
  {
    assert KillSlot(pages[0].table.slots, 0) == [Slot(6, 0), Slot(16, 10)];
  }

  lemma AfterReuse(a: seq<byte>, b: seq<byte>, c: seq<byte>)
    requires |a| == 10 && |b| == 10 && |c| == 20
    ensures var pages := Run(Reuse(a, b, c));
      |pages| == 1 && pages[0].table == Table(46, [Slot(26, 20), Slot(16, 10)]) && pages[0].Record(0) == c
    ensures SECOND in Model(Reuse(a, b, c)) && Model(Reuse(a, b, c))[SECOND] == b
  {
    var front := [Insert(a), Insert(b), Delete(FIRST)];
    AfterDelete(a, b);
    assert Front(Reuse(a, b, c)) == front;
    var p := Run(front)[0];
    ReuseFirst(p, c);
    InsertIntoOnly(Run(front), c);
    assert Run(Reuse(a, b, c)) == [Placed(p, c)];
  }

  lemma ReuseFirst(p: Page, c: seq<byte>)
    requires p.Valid() && p.table == Table(26, [Slot(6, 0), Slot(16, 10)]) && |c| == 20
    ensures !NeedsCompaction(p, 20) && FirstDead(p.table.slots) == 0
    ensures Placed(p, c).Valid() && Placed(p, c).table == Table(46, [Slot(26, 20), Slot(16, 10)])
    ensures Placed(p, c).LiveSlot(0) && Placed(p, c).Record(0) == c
  {
    PlacedValid(p, c);
    assert 0 in Placed(p, c).Contents();
  }

  /** The page before the last insert: slot 0 is going to be moved to [6, 26),
      over the bytes [16, 26) of slot 1. */
  lemma SlotOneClobbered(p: Page, d: seq<byte>)
    requires p.Valid() && p.table == Table(46, [Slot(26, 20), Slot(16, 10)]) && |d| == 4040
    ensures ClobberedBy(p.table.slots, 0, 1) && !NoClobber(p.table.slots)
    ensures NeedsCompaction(p, 4040) && Fits(p, 4040)
    ensures forall x :: 16 <= x < 26 ==> Origin(p.table.slots, 1, x) == x + 20
  {
    var slots := p.table.slots;
    assert Before(slots, 2) == Before(slots, 1) + 10 && Before(slots, 1) == 20;
    assert FirstDead(slots) == 2;
    assert ClobberedBy(slots, 0, 1);
    assert Clobbered(slots, 1);
  }

  lemma SlotOneOverwritten(p: Page, c: seq<byte>, d: seq<byte>)
    requires p.Valid() && p.table == Table(46, [Slot(26, 20), Slot(16, 10)]) && p.Record(0) == c && |d| == 4040
    ensures var r := Inserted(p, d).page;
      r.Valid() && r.LiveSlot(1) && r.Record(1) == c[10..]
  {
    hide Origin, Inserted, NeedsCompaction;
    SlotOneClobbered(p, d);
    FitsIffInserted(p, d);
    InsertedSlot(p, d, 1);
    forall k: nat | k < 10
      ensures Inserted(p, d).page.Record(1)[k] == c[10 + k]
    {
      InsertedByteFrom(p, d, 1, k, 0, 10 + k);
    }
  }

  /** Whatever the four records hold, the id of the second one, which was never
      deleted, ends up naming the last ten bytes of the third. */
  lemma SecondRecordOverwritten(a: seq<byte>, b: seq<byte>, c: seq<byte>, d: seq<byte>)
    requires |a| == 10 && |b| == 10 && |c| == 20 && |d| == 4040
    ensures var ops := Example(a, b, c, d);
      && SECOND in Model(ops) && Model(ops)[SECOND] == b
      && SECOND in Records(Run(ops)) && Records(Run(ops))[SECOND] == c[10..]
    ensures !Clean(Example(a, b, c, d))
  {
    hide Inserted, HeapInserted, Origin, NoClobber, NeedsCompaction, Fits;
    var ops := Example(a, b, c, d);
    assert Front(ops) == Reuse(a, b, c);
    AfterReuse(a, b, c);
    var pages := Run(Front(ops));
    SlotOneClobbered(pages[0], d);
    CompactsIff(pages[0], 4040);
    SlotOneOverwritten(pages[0], c, d);
    HeapInsertSucceedsIff(pages, d);
    HeapInsertFirstFit(pages, d);
    InsertKeepsModel(ops, SECOND);
    var r := HeapInserted(pages, d);
    AddedAt(pages, d, r.pages, r.rid.value, SECOND);
    assert Run(ops) == r.pages;
  }
}
