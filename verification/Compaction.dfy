/** What page_compact does to the bytes of a page, and exactly when it keeps
    them. Records are moved in slot order, each from wherever it lies to the
    end of those moved before it, so a move can overwrite a record whose turn
    has not come. */
module Compaction {
  import opened Bytes
  import opened SlotTable
  import opened TableOps
  import opened PageValue

  /** The record area after the first i slots have been visited. */
  function Moved(area: seq<byte>, t: Table, i: nat): (r: seq<byte>)
    requires Layout(t) && |area| == AreaSize(|t.slots|) && i <= |t.slots|
    ensures |r| == |area|
  {
    if i == 0 then area
    else
      var before, sl := Moved(area, t, i - 1), t.slots[i - 1];
      if !sl.Live() then before
      else
        MoveInside(t, i - 1);
        Splice(before, Dst(t.slots, i - 1) - HEADER_SIZE, before[sl.offset - HEADER_SIZE..sl.End() - HEADER_SIZE])
  }

  lemma MoveInside(t: Table, i: nat)
    requires Layout(t) && LiveAt(t.slots, i)
    ensures HEADER_SIZE <= Dst(t.slots, i)
    ensures Dst(t.slots, i) + t.slots[i].length <= t.freeStart <= HEADER_SIZE + AreaSize(|t.slots|)
    ensures HEADER_SIZE <= t.slots[i].offset && t.slots[i].End() <= t.freeStart
  {
    DstFits(t, i);
  }

  function Compacted(p: Page): (r: Page)
    requires p.Valid()
  {
    Page(CompactTable(p.table), Moved(p.area, p.table, |p.table.slots|))
  }

  /** Compaction keeps the layout invariant on every valid page, whether or not
      it destroys records, and leaves the records packed and in slot order. */
  lemma CompactedValid(p: Page)
    requires p.Valid()
    ensures Compacted(p).Valid() && Ordered(Compacted(p).table.slots)
    ensures Compacted(p).table.freeStart == HEADER_SIZE + Total(p.table.slots) <= p.table.freeStart
    ensures Reclaimable(Compacted(p).table.slots) == Reclaimable(p.table.slots) == Gap(Compacted(p).table)
    ensures forall i :: Compacted(p).LiveSlot(i) <==> p.LiveSlot(i)
    ensures forall i :: p.LiveSlot(i) ==>
      Compacted(p).table.slots[i].offset == Dst(p.table.slots, i) && Compacted(p).table.slots[i].length == p.table.slots[i].length
  {
    CompactTableLayout(p.table);
  }

  // ---- Where a byte comes from ----

  predicate Written(slots: seq<Slot>, i: nat, x: int) {
    LiveAt(slots, i) && Dst(slots, i) <= x < Dst(slots, i) + slots[i].length
  }

  /** The index in the original page of the byte that lies at x once the
      first i slots have been visited. */
  function Origin(slots: seq<Slot>, i: nat, x: int): int
    requires i <= |slots|
  {
    if i == 0 then x
    else if Written(slots, i - 1, x) then Origin(slots, i - 1, slots[i - 1].offset + x - Dst(slots, i - 1))
    else Origin(slots, i - 1, x)
  }

  /** One step of Moved, byte by byte. */
  lemma MovedStep(area: seq<byte>, t: Table, i: nat, x: int, y: int)
    requires Layout(t) && |area| == AreaSize(|t.slots|) && i < |t.slots|
    requires 0 <= x - HEADER_SIZE < |area|
    requires y == if Written(t.slots, i, x) then t.slots[i].offset + x - Dst(t.slots, i) else x
    ensures 0 <= y - HEADER_SIZE < |area|
    ensures Moved(area, t, i + 1)[x - HEADER_SIZE] == Moved(area, t, i)[y - HEADER_SIZE]
  {
    hide Layout, Dst, Moved, Splice;
    var sl := t.slots[i];
    MovedUnfold(area, t, i);
    if sl.Live() {
      MoveByte(Moved(area, t, i), Dst(t.slots, i) - HEADER_SIZE, sl.offset - HEADER_SIZE, sl.length, x - HEADER_SIZE);
    }
  }

  lemma MovedUnfold(area: seq<byte>, t: Table, i: nat)
    requires Layout(t) && |area| == AreaSize(|t.slots|) && i < |t.slots|
    ensures var before, sl, d := Moved(area, t, i), t.slots[i], Dst(t.slots, i);
      if sl.Live() then
        && HEADER_SIZE <= sl.offset && sl.End() <= HEADER_SIZE + |area| && HEADER_SIZE <= d <= d + sl.length <= HEADER_SIZE + |area|
        && Moved(area, t, i + 1) == Splice(before, d - HEADER_SIZE, before[sl.offset - HEADER_SIZE..sl.offset - HEADER_SIZE + sl.length])
      else Moved(area, t, i + 1) == before
  {
    hide Splice, Before;
    if t.slots[i].Live() {
      MoveInside(t, i);
    }
  }

  lemma MoveByte(s: seq<byte>, dst: nat, src: nat, n: nat, x: nat)
    requires dst + n <= |s| && src + n <= |s| && x < |s|
    ensures Splice(s, dst, s[src..src + n])[x] == if dst <= x < dst + n then s[src + (x - dst)] else s[x]
  {
  }

  lemma OriginStep(slots: seq<Slot>, i: nat, x: int, y: int)
    requires i < |slots|
    requires y == if Written(slots, i, x) then slots[i].offset + x - Dst(slots, i) else x
    ensures Origin(slots, i + 1, x) == Origin(slots, i, y)
  {
  }

  lemma {:induction false} MovedByte(area: seq<byte>, t: Table, i: nat, x: int)
    requires Layout(t) && |area| == AreaSize(|t.slots|) && i <= |t.slots|
    requires 0 <= x - HEADER_SIZE < |area|
    ensures 0 <= Origin(t.slots, i, x) - HEADER_SIZE < |area|
    ensures Moved(area, t, i)[x - HEADER_SIZE] == area[Origin(t.slots, i, x) - HEADER_SIZE]
  {
    if i == 0 {
      return;
    }
    hide Moved, Layout, Written, Dst, Origin;
    var y := if Written(t.slots, i - 1, x) then t.slots[i - 1].offset + x - Dst(t.slots, i - 1) else x;
    MovedStep(area, t, i - 1, x, y);
    OriginStep(t.slots, i - 1, x, y);
    MovedByte(area, t, i - 1, y);
  }

  /** Destinations rise with the slot id: once written, a byte stays. */
  lemma {:induction false} OriginWritten(slots: seq<Slot>, i: nat, k: nat, x: int)
    requires i < k <= |slots| && Written(slots, i, x)
    ensures Origin(slots, k, x) == Origin(slots, i, slots[i].offset + x - Dst(slots, i))
    decreases k
  {
    if i < k - 1 {
      BeforeMonotone(slots, i, k - 1);
      OriginWritten(slots, i, k - 1, x);
    }
  }

  /** The byte at x, inside the record of slot j, still is the record's own
      when the first i <= j slots have been visited, unless slot k was moved
      onto it; then it is a byte of a record with a lower slot id. */
  lemma {:induction false} OriginInside(t: Table, i: nat, j: nat, x: int) returns (home: nat, k: nat)
    requires Layout(t) && i <= j && LiveAt(t.slots, j) && t.slots[j].Covers(x)
    ensures home <= j && LiveAt(t.slots, home) && t.slots[home].Covers(Origin(t.slots, i, x))
    ensures home == j ==> Origin(t.slots, i, x) == x
    ensures home < j ==> k < i && Written(t.slots, k, x)
    ensures (exists w: nat :: w < i && Written(t.slots, w, x)) ==> home < j
    decreases i
  {
    if i == 0 {
      home, k := j, 0;
    } else if Written(t.slots, i - 1, x) {
      home, k := OriginInside(t, i - 1, i - 1, t.slots[i - 1].offset + x - Dst(t.slots, i - 1));
      k := i - 1;
    } else {
      home, k := OriginInside(t, i - 1, j, x);
    }
  }

  lemma UnclobberedOrigin(t: Table, j: nat, x: int)
    requires Layout(t) && LiveAt(t.slots, j) && t.slots[j].Covers(x) && !Clobbered(t.slots, j)
    ensures Origin(t.slots, j, x) == x
  {
    var home, k := OriginInside(t, j, j, x);
    if home < j {
      assert ClobberedBy(t.slots, k, j);
    }
  }

  /** A clobbered slot has a byte that is replaced by a byte of another record. */
  lemma ClobberedOrigin(t: Table, j: nat) returns (x: nat, home: nat)
    requires Layout(t) && Clobbered(t.slots, j)
    ensures LiveAt(t.slots, j) && t.slots[j].Covers(x)
    ensures home < j && LiveAt(t.slots, home) && t.slots[home].Covers(Origin(t.slots, j, x))
    ensures Origin(t.slots, j, x) != x
  {
    var i: nat :| i < |t.slots| && ClobberedBy(t.slots, i, j);
    var d, sl := Dst(t.slots, i), t.slots[j];
    x := if d <= sl.offset then sl.offset else d;
    assert Written(t.slots, i, x);
    var k;
    home, k := OriginInside(t, j, j, x);
    assert Apart(t.slots[home], sl);
  }

  // ---- The record of a slot after compaction ----

  /** Every byte of every record after compaction, on every valid page: where
      in the original page it lay. */
  lemma CompactedByte(p: Page, j: nat, k: nat)
    requires p.Valid() && p.LiveSlot(j) && k < p.table.slots[j].length
    ensures Compacted(p).Valid() && Compacted(p).LiveSlot(j)
    ensures Compacted(p).table.slots[j].length == p.table.slots[j].length
    ensures 0 <= Origin(p.table.slots, j, p.table.slots[j].offset + k) - HEADER_SIZE < |p.area|
    ensures Compacted(p).Record(j)[k] == p.area[Origin(p.table.slots, j, p.table.slots[j].offset + k) - HEADER_SIZE]
  {
    hide Moved, Layout, Before, Origin;
    var t := p.table;
    CompactedValid(p);
    RecordByte(Compacted(p), j, k);
    FinalByte(p.area, t, j, k);
  }

  lemma FinalByte(area: seq<byte>, t: Table, j: nat, k: nat)
    requires Layout(t) && |area| == AreaSize(|t.slots|) && LiveAt(t.slots, j) && k < t.slots[j].length
    ensures var x, o := Dst(t.slots, j) + k, Origin(t.slots, j, t.slots[j].offset + k);
      && 0 <= x - HEADER_SIZE < |area| && 0 <= o - HEADER_SIZE < |area|
      && Moved(area, t, |t.slots|)[x - HEADER_SIZE] == area[o - HEADER_SIZE]
  {
    hide Moved, Before;
    var x := Dst(t.slots, j) + k;
    MoveInside(t, j);
    assert Written(t.slots, j, x);
    OriginWritten(t.slots, j, |t.slots|, x);
    MovedByte(area, t, |t.slots|, x);
  }

  lemma {:induction false} OriginAbove(slots: seq<Slot>, i: nat, x: int)
    requires i <= |slots| && Dst(slots, |slots|) <= x
    ensures Origin(slots, i, x) == x
  {
    if i > 0 {
      BeforeMonotone(slots, i - 1, |slots|);
      OriginAbove(slots, i - 1, x);
    }
  }

  /** What compaction leaves alone: the dead slots, and every byte from the new
      freeStart up. */
  lemma CompactedRest(p: Page)
    requires p.Valid()
    ensures var q := Compacted(p);
      && |q.table.slots| == |p.table.slots| && |q.area| == |p.area|
      && (forall i :: 0 <= i < |p.table.slots| && !p.LiveSlot(i) ==> q.table.slots[i] == p.table.slots[i])
      && forall k :: 0 <= k < |p.area| && q.table.freeStart <= k + HEADER_SIZE ==> q.area[k] == p.area[k]
  {
    hide Layout, Moved, Origin;
    var t := p.table;
    LiveFits(t);
    forall k | 0 <= k < |p.area| && Dst(t.slots, |t.slots|) <= k + HEADER_SIZE
      ensures Moved(p.area, t, |t.slots|)[k] == p.area[k]
    {
      OriginAbove(t.slots, |t.slots|, k + HEADER_SIZE);
      MovedByte(p.area, t, |t.slots|, k + HEADER_SIZE);
    }
  }

  /** Compaction keeps the record of slot j. */
  ghost predicate Survives(p: Page, j: nat)
    requires p.Valid() && p.LiveSlot(j)
  {
    CompactedValid(p);
    Compacted(p).Record(j) == p.Record(j)
  }

  lemma UnclobberedByte(p: Page, j: nat, k: nat)
    requires p.Valid() && p.LiveSlot(j) && !Clobbered(p.table.slots, j) && k < p.table.slots[j].length
    requires Compacted(p).Valid() && Compacted(p).LiveSlot(j)
    requires Compacted(p).table.slots[j].length == p.table.slots[j].length
    ensures Compacted(p).Record(j)[k] == p.Record(j)[k]
  {
    CompactedByte(p, j, k);
    RecordByte(p, j, k);
    UnclobberedOrigin(p.table, j, p.table.slots[j].offset + k);
  }

  lemma UnclobberedSurvives(p: Page, j: nat)
    requires p.Valid() && p.LiveSlot(j) && !Clobbered(p.table.slots, j)
    ensures Survives(p, j)
  {
    CompactedValid(p);
    forall k: nat | k < p.table.slots[j].length
      ensures Compacted(p).Record(j)[k] == p.Record(j)[k]
    {
      UnclobberedByte(p, j, k);
    }
  }

  /** A page with the same table whose record in the clobbered slot j does not
      survive: the byte at x is changed so that it differs from the byte that
      is going to replace it. */
  lemma ClobberedWitness(p: Page, j: nat) returns (x: nat, v: byte)
    requires p.Valid() && Clobbered(p.table.slots, j)
    ensures p.LiveSlot(j) && p.table.slots[j].Covers(x) && 0 <= x - HEADER_SIZE < |p.area|
    ensures !Survives(p.(area := p.area[x - HEADER_SIZE := v]), j)
  {
    var home;
    x, home := ClobberedOrigin(p.table, j);
    var k := x - p.table.slots[j].offset;
    CompactedByte(p, j, k);
    v := if p.area[Origin(p.table.slots, j, x) - HEADER_SIZE] == 0 then 1 else 0;
    var r := p.(area := p.area[x - HEADER_SIZE := v]);
    CompactedByte(r, j, k);
    RecordByte(r, j, k);
  }

  /** The exact condition for one record: compaction keeps it whatever bytes
      the page holds if and only if no lower slot is moved onto it. */
  lemma SurvivesIff(p: Page, j: nat)
    requires p.Valid() && p.LiveSlot(j)
    ensures (forall area :: |area| == |p.area| ==> Survives(p.(area := area), j))
       <==> !Clobbered(p.table.slots, j)
  {
    hide Survives, Layout, Clobbered;
    if Clobbered(p.table.slots, j) {
      var x, v := ClobberedWitness(p, j);
      assert |p.area[x - HEADER_SIZE := v]| == |p.area|;
    } else {
      forall area | |area| == |p.area|
        ensures Survives(p.(area := area), j)
      {
        UnclobberedSurvives(p.(area := area), j);
      }
    }
  }

  /** Compaction keeps what the page stores, record by record. */
  ghost predicate KeepsContents(p: Page)
    requires p.Valid()
  {
    Compacted(p).Valid() && Compacted(p).Contents() == p.Contents()
  }

  lemma KeepsContentsIffAllSurvive(p: Page)
    requires p.Valid()
    ensures KeepsContents(p) <==> forall j: nat :: p.LiveSlot(j) ==> Survives(p, j)
  {
    CompactedValid(p);
    if KeepsContents(p) {
      forall j: nat | p.LiveSlot(j)
        ensures Survives(p, j)
      {
        assert Compacted(p).Contents()[j] == p.Contents()[j];
      }
    }
    if forall j: nat :: p.LiveSlot(j) ==> Survives(p, j) {
      forall j | j in p.Contents()
        ensures Compacted(p).Contents()[j] == p.Contents()[j]
      {
        assert Survives(p, j);
      }
    }
  }

  lemma NoClobberKeepsContents(p: Page)
    requires p.Valid() && NoClobber(p.table.slots)
    ensures KeepsContents(p)
  {
    forall j: nat | p.LiveSlot(j)
      ensures Survives(p, j)
    {
      UnclobberedSurvives(p, j);
    }
    KeepsContentsIffAllSurvive(p);
  }

  /** The exact condition for a page: compaction keeps every record of every
      page with this table if and only if no slot is clobbered. */
  lemma KeepsContentsIff(p: Page)
    requires p.Valid()
    ensures (forall area :: |area| == |p.area| ==> KeepsContents(p.(area := area)))
       <==> NoClobber(p.table.slots)
  {
    if NoClobber(p.table.slots) {
      forall area | |area| == |p.area|
        ensures KeepsContents(p.(area := area))
      {
        NoClobberKeepsContents(p.(area := area));
      }
    } else {
      var j: nat :| j < |p.table.slots| && Clobbered(p.table.slots, j);
      var x, v := ClobberedWitness(p, j);
      var area := p.area[x - HEADER_SIZE := v];
      KeepsContentsIffAllSurvive(p.(area := area));
      assert |area| == |p.area|;
    }
  }

  /** In a page whose records lie in slot order compaction loses nothing, and
      leaves the records packed and in slot order. */
  lemma OrderedCompactionKeeps(p: Page)
    requires p.Valid() && Ordered(p.table.slots)
    ensures KeepsContents(p)
    ensures Ordered(Compacted(p).table.slots)
    ensures Compacted(p).table.freeStart == HEADER_SIZE + Total(p.table.slots)
  {
    OrderedNoClobber(p.table);
    NoClobberKeepsContents(p);
    CompactedValid(p);
  }

  /** A second compaction changes no byte, whatever the first one did. */
  lemma CompactionIdempotent(p: Page)
    requires p.Valid()
    ensures Compacted(p).Valid() && Compacted(Compacted(p)) == Compacted(p)
  {
    CompactedValid(p);
    CompactTableIdempotent(p.table);
    MovedInPlace(Compacted(p), |p.table.slots|);
  }

  lemma {:induction false} MovedInPlace(p: Page, i: nat)
    requires p.Valid() && CompactTable(p.table) == p.table && i <= |p.table.slots|
    ensures Moved(p.area, p.table, i) == p.area
  {
    if i > 0 {
      MovedInPlace(p, i - 1);
      var sl := p.table.slots[i - 1];
      if sl.Live() {
        MoveInside(p.table, i - 1);
        assert sl == CompactSlot(p.table.slots, i - 1);
      }
    }
  }
}
