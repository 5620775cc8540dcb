/** The slot directory of a page as a value: where each record lies and how
    long it is. Every claim about the layout of a page, and about which
    bytes compaction moves where, is a claim about this table alone. */
module SlotTable {
  import opened Bytes

  const PAGE_SIZE := 4096
  const HEADER_SIZE := 6
  const SLOT_SIZE := 4

  /** A slot with length 0 is dead: deleted, and free for reuse. */
  datatype Slot = Slot(offset: u16, length: u16) {
    predicate Live() { length != 0 }

    function End(): nat { offset + length }

    predicate Covers(x: int) { offset <= x < End() }
  }

  datatype Table = Table(freeStart: u16, slots: seq<Slot>)

  predicate LiveAt(slots: seq<Slot>, i: int) {
    0 <= i < |slots| && slots[i].Live()
  }

  predicate Apart(a: Slot, b: Slot) {
    a.End() <= b.offset || b.End() <= a.offset
  }

  /** The layout invariant: the records lie between the header and freeStart,
      freeStart does not reach into the directory, and no two records share
      a byte. */
  ghost predicate Layout(t: Table) {
    && HEADER_SIZE <= t.freeStart <= PAGE_SIZE - SLOT_SIZE * |t.slots|
    && (forall i :: LiveAt(t.slots, i) ==> HEADER_SIZE <= t.slots[i].offset && t.slots[i].End() <= t.freeStart)
    && (forall i, j {:trigger Apart(t.slots[i], t.slots[j])} ::
          i < j && LiveAt(t.slots, i) && LiveAt(t.slots, j) ==> Apart(t.slots[i], t.slots[j]))
  }

  /** The total length of the slots below i. */
  function Before(slots: seq<Slot>, i: nat): nat
    requires i <= |slots|
  {
    if i == 0 then 0 else Before(slots, i - 1) + slots[i - 1].length
  }

  function Total(slots: seq<Slot>): nat {
    Before(slots, |slots|)
  }

  /** Where compaction puts the record of slot i. */
  function Dst(slots: seq<Slot>, i: nat): nat
    requires i <= |slots|
  {
    HEADER_SIZE + Before(slots, i)
  }

  lemma {:induction false} BeforeMonotone(slots: seq<Slot>, i: nat, j: nat)
    requires i < j <= |slots|
    ensures Before(slots, i) + slots[i].length <= Before(slots, j)
    decreases j
  {
    if i < j - 1 {
      BeforeMonotone(slots, i, j - 1);
    }
  }

  lemma {:induction false} BeforeSameLengths(a: seq<Slot>, b: seq<Slot>, i: nat)
    requires i <= |a| && i <= |b|
    requires forall k :: 0 <= k < i ==> a[k].length == b[k].length
    ensures Before(a, i) == Before(b, i)
  {
    if i > 0 {
      BeforeSameLengths(a, b, i - 1);
    }
  }

  lemma {:induction false} BeforeUpdate(slots: seq<Slot>, k: nat, x: Slot, i: nat)
    requires k < |slots| && i <= |slots|
    ensures Before(slots[k := x], i) == Before(slots, i) + if k < i then x.length - slots[k].length else 0
  {
    if i > 0 {
      BeforeUpdate(slots, k, x, i - 1);
    }
  }

  lemma TotalAppend(slots: seq<Slot>, x: Slot)
    ensures Total(slots + [x]) == Total(slots) + x.length
  {
    BeforeSameLengths(slots + [x], slots, |slots|);
  }

  // ---- The live records fit below freeStart ----

  /** The live slot below i whose record lies highest, if there is one. */
  lemma {:induction false} HighestRecord(slots: seq<Slot>, i: nat) returns (m: nat)
    requires i <= |slots|
    ensures m < i ==> slots[m].Live()
    ensures m < i ==> forall k :: 0 <= k < i && slots[k].Live() ==> slots[k].offset <= slots[m].offset
    ensures m >= i ==> forall k :: 0 <= k < i ==> !slots[k].Live()
  {
    if i == 0 {
      m := 0;
    } else {
      m := HighestRecord(slots, i - 1);
      if slots[i - 1].Live() && (m >= i - 1 || slots[m].offset < slots[i - 1].offset) {
        m := i - 1;
      } else if m >= i - 1 {
        m := i;
      }
    }
  }

  lemma {:induction false} AllDeadBefore(slots: seq<Slot>, i: nat)
    requires i <= |slots| && forall k :: 0 <= k < i ==> !slots[k].Live()
    ensures Before(slots, i) == 0
  {
    if i > 0 {
      AllDeadBefore(slots, i - 1);
    }
  }

  /** Records that do not overlap leave room for themselves below bound: without
      the highest one, the others lie below its offset. */
  lemma {:induction false} RecordsFit(slots: seq<Slot>, bound: nat)
    requires HEADER_SIZE <= bound
    requires forall i :: LiveAt(slots, i) ==> HEADER_SIZE <= slots[i].offset && slots[i].End() <= bound
    requires forall i, j {:trigger Apart(slots[i], slots[j])} ::
      i < j && LiveAt(slots, i) && LiveAt(slots, j) ==> Apart(slots[i], slots[j])
    ensures HEADER_SIZE + Total(slots) <= bound
    decreases Total(slots)
  {
    var m := HighestRecord(slots, |slots|);
    if m >= |slots| {
      AllDeadBefore(slots, |slots|);
    } else {
      var dead := Slot(slots[m].offset, 0);
      var rest := slots[m := dead];
      BeforeUpdate(slots, m, dead, |slots|);
      forall i | LiveAt(rest, i)
        ensures LiveAt(slots, i) && rest[i] == slots[i] && rest[i].End() <= slots[m].offset
      {
        if i < m {
          assert Apart(slots[i], slots[m]);
        } else {
          assert Apart(slots[m], slots[i]);
        }
      }
      forall i, j | i < j && LiveAt(rest, i) && LiveAt(rest, j)
        ensures Apart(rest[i], rest[j])
      {
        assert Apart(slots[i], slots[j]);
      }
      RecordsFit(rest, slots[m].offset);
    }
  }

  /** Records that do not overlap cannot be longer in total than the area they
      lie in, in whatever order they lie there. */
  lemma LiveFits(t: Table)
    requires Layout(t)
    ensures HEADER_SIZE + Total(t.slots) <= t.freeStart
  {
    RecordsFit(t.slots, t.freeStart);
  }

  lemma DstFits(t: Table, i: nat)
    requires Layout(t) && i < |t.slots|
    ensures Dst(t.slots, i) + t.slots[i].length <= Dst(t.slots, |t.slots|) <= t.freeStart
  {
    BeforeMonotone(t.slots, i, |t.slots|);
    LiveFits(t);
  }
}
