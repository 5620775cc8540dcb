/** Sessions with a heap file on disk, with system calls that may fail: what the
    file stores follows from the answers that the callers got. */
module HeapSessions {
  import opened Bytes
  import opened PageValue
  import opened HeapOps
  import opened HeapRuns
  import opened PageFile
  import opened HeapFile

  datatype Event = Event(op: Op, answer: Answer)

  /** The states that a file goes through, one more than there are events. */
  ghost predicate Trace(states: seq<seq<Page>>, events: seq<Event>) {
    && |states| == |events| + 1
    && (forall i :: 0 <= i < |states| ==> ValidHeap(states[i]))
    && (forall i :: 0 <= i < |events| ==> AllowedAt(states, events, i))
  }

  ghost predicate AllowedAt(states: seq<seq<Page>>, events: seq<Event>, i: nat)
    requires |states| == |events| + 1 && i < |events| && ValidHeap(states[i])
  {
    Allowed(states[i], events[i].op, events[i].answer, states[i + 1])
  }

  /** What callers expect, going by the answers alone. */
  ghost function Expected(m: map<RID, seq<byte>>, events: seq<Event>): map<RID, seq<byte>> {
    if events == [] then m else Recorded(Expected(m, Front(events)), Last(events).op, Last(events).answer)
  }

  /** No insert of the trace that succeeded has kept a clobbering compaction. */
  ghost predicate SafeTrace(states: seq<seq<Page>>, events: seq<Event>)
    requires |states| == |events| + 1
  {
    forall i :: 0 <= i < |events| ==> SafeStep(states[i], events[i].op, events[i].answer)
  }

  lemma TraceFront(states: seq<seq<Page>>, events: seq<Event>)
    requires Trace(states, events) && events != []
    ensures Trace(Front(states), Front(events))
    ensures Last(Front(states)) == states[|states| - 2]
    ensures Allowed(Last(Front(states)), Last(events).op, Last(events).answer, Last(states))
    ensures SafeTrace(states, events) ==>
      && SafeTrace(Front(states), Front(events))
      && SafeStep(Last(Front(states)), Last(events).op, Last(events).answer)
  {
    hide Allowed, ValidHeap, SafeStep;
    assert AllowedAt(states, events, |events| - 1);
    forall i | 0 <= i < |Front(events)|
      ensures AllowedAt(Front(states), Front(events), i)
    {
      assert AllowedAt(states, events, i);
    }
  }

  lemma TraceGrows(states: seq<seq<Page>>, events: seq<Event>)
    requires Trace(states, events) && events != []
    ensures |Last(Front(states))| <= |Last(states)|
  {
    hide Allowed;
    TraceFront(states, events);
    AllowedValid(Last(Front(states)), Last(events).op, Last(events).answer, Last(states));
  }

  /** Whatever system calls fail: the file holds a record under exactly the ids
      that the answers leave in use, of the length that was put in, as long as
      it has fewer than 2^32 pages. */
  lemma {:induction false} TraceKeepsLengths(states: seq<seq<Page>>, events: seq<Event>)
    requires Trace(states, events) && |Last(states)| < FILE_LIMIT
    ensures LengthsOf(Records(Last(states))) == LengthsOf(Expected(Records(states[0]), events))
  {
    if events != [] {
      hide Allowed, Trace, Recorded;
      TraceGrows(states, events);
      TraceFront(states, events);
      TraceKeepsLengths(Front(states), Front(events));
      AllowedKeepsLengths(Last(Front(states)), Expected(Records(states[0]), Front(events)),
                          Last(events).op, Last(events).answer, Last(states));
    }
  }

  /** And the very records, if no compaction that was kept clobbers. */
  lemma {:induction false} TraceKeepsRecords(states: seq<seq<Page>>, events: seq<Event>)
    requires Trace(states, events) && |Last(states)| < FILE_LIMIT && SafeTrace(states, events)
    ensures Records(Last(states)) == Expected(Records(states[0]), events)
  {
    if events != [] {
      hide Allowed, Trace, SafeTrace, Recorded;
      TraceGrows(states, events);
      TraceFront(states, events);
      TraceKeepsRecords(Front(states), Front(events));
      AllowedKeepsRecords(Last(Front(states)), Last(events).op, Last(events).answer, Last(states));
    }
  }

  /** Every answer agrees with those before it: a given id was not in use, a
      removed one was, and a found record has the expected length and, if no
      kept compaction clobbered, the expected bytes. */
  lemma {:induction false} TraceAnswers(states: seq<seq<Page>>, events: seq<Event>)
    requires Trace(states, events) && events != [] && |Last(states)| < FILE_LIMIT
    ensures var m, op := Expected(Records(states[0]), Front(events)), Last(events).op;
      match Last(events).answer
      case Given(rid) => rid !in m
      case Removed => op.Delete? && op.rid in m
      case Found(record) =>
        && op.Get? && op.rid in m && |record| == |m[op.rid]| <= op.bufferSize
        && (SafeTrace(states, events) ==> record == m[op.rid])
      case No => true
  {
    hide Allowed, SafeTrace, Recorded;
    var pages, m := Last(Front(states)), Expected(Records(states[0]), Front(events));
    TraceGrows(states, events);
    TraceFront(states, events);
    TraceKeepsLengths(Front(states), Front(events));
    SameLengthsSameKeys(Records(pages), m);
    AllowedAnswers(pages, Last(events).op, Last(events).answer, Last(states));
    if SafeTrace(states, events) {
      TraceKeepsRecords(Front(states), Front(events));
    }
  }

  // ---- Sessions ----

  /** The operands fit the C types. */
  predicate CallableOp(op: Op) {
    match op
    case Insert(record) => |record| < 0x1_0000
    case Delete(rid) => rid.slot < 0x1_0000
    case Get(rid, bufferSize) => rid.slot < 0x1_0000 && bufferSize < 0x1_0000
  }

  /** One operation, and what the caller gets back. */
  method Perform(op: Op, heap: Heap) returns (answer: Answer)
    requires heap.file != null && heap.Valid() && CallableOp(op)
    modifies heap.file
    ensures heap.Valid()
    ensures Allowed(old(Pages(heap.file.data)), op, answer, Pages(heap.file.data))
    ensures heap.file.reliable ==>
      && Pages(heap.file.data) == Step(old(Pages(heap.file.data)), op)
      && answer == AnswerTo(old(Pages(heap.file.data)), op)
  {
    hide HeapInserted, Appended, HeapDeleted, Holds, ValidFile;
    match op {
      case Insert(record) =>
        var r, rid := heap.Insert(record);
        answer := if rid.Some? then Given(rid.value) else No;
      case Delete(rid) =>
        var r := heap.Delete(rid);
        DeleteNothing(old(Pages(heap.file.data)), rid);
        answer := if r == 0 then Removed else No;
      case Get(rid, bufferSize) =>
        var buffer := new byte[bufferSize];
        var r := heap.Get(rid, buffer, bufferSize);
        if r == -1 {
          answer := No;
        } else {
          GotRecord(Pages(heap.file.data), rid, bufferSize);
          answer := Found(buffer[..r]);
        }
    }
  }

  lemma GotRecord(pages: seq<Page>, rid: RID, bufferSize: nat)
    requires ValidHeap(pages) && HeapGot(pages, rid, bufferSize) != -1
    ensures rid.page < |pages| && pages[rid.page].LiveSlot(rid.slot)
    ensures HeapGot(pages, rid, bufferSize) == |pages[rid.page].Record(rid.slot)| <= bufferSize
  {
  }

  function Events(ops: seq<Op>, answers: seq<Answer>): (r: seq<Event>)
    requires |ops| == |answers|
    ensures |r| == |ops|
  {
    seq(|ops|, i requires 0 <= i < |ops| => Event(ops[i], answers[i]))
  }

  lemma TraceExtend(states: seq<seq<Page>>, ops: seq<Op>, answers: seq<Answer>, op: Op, answer: Answer, r: seq<Page>)
    requires |ops| == |answers| && Trace(states, Events(ops, answers))
    requires Allowed(Last(states), op, answer, r)
    ensures Trace(states + [r], Events(ops + [op], answers + [answer]))
  {
    hide Allowed, ValidHeap;
    var events, states' := Events(ops + [op], answers + [answer]), states + [r];
    AllowedValid(Last(states), op, answer, r);
    forall i | 0 <= i < |events|
      ensures AllowedAt(states', events, i)
    {
      if i < |ops| {
        assert AllowedAt(states, Events(ops, answers), i);
      }
    }
  }

  /** No system call failed: every state and every answer is the one that the
      operation gives without failures. */
  ghost predicate Exact(states: seq<seq<Page>>, ops: seq<Op>, answers: seq<Answer>) {
    && |states| == |ops| + 1 && |answers| == |ops|
    && forall i :: 0 <= i < |ops| ==>
         && ValidHeap(states[i])
         && states[i + 1] == Step(states[i], ops[i]) && answers[i] == AnswerTo(states[i], ops[i])
  }

  lemma ExactExtend(states: seq<seq<Page>>, ops: seq<Op>, answers: seq<Answer>, op: Op, answer: Answer, r: seq<Page>)
    requires Exact(states, ops, answers) && ValidHeap(Last(states))
    requires r == Step(Last(states), op) && answer == AnswerTo(Last(states), op)
    ensures Exact(states + [r], ops + [op], answers + [answer])
  {
    hide Step, AnswerTo, ValidHeap;
  }

  /** From an empty file such a session goes through the states of the run, and
      the callers get its answers. */
  lemma {:induction false} ExactIsRun(states: seq<seq<Page>>, ops: seq<Op>, answers: seq<Answer>, n: nat)
    requires Exact(states, ops, answers) && states[0] == [] && n <= |ops|
    ensures states[n] == Run(ops[..n])
    ensures n < |ops| ==> answers[n] == AnswerTo(Run(ops[..n]), ops[n])
  {
    if n > 0 {
      hide Step, AnswerTo;
      ExactIsRun(states, ops, answers, n - 1);
      assert Front(ops[..n]) == ops[..n - 1] && Last(ops[..n]) == ops[n - 1];
    }
  }

  /** A session on any file of well-formed pages: its answers and the states of
      the file make a trace, an exact one when no system call fails. So what is
      said of traces and of runs holds of the bytes on disk and of what callers
      see. */
  method Session(ops: seq<Op>, heap: Heap) returns (answers: seq<Answer>, ghost states: seq<seq<Page>>)
    requires heap.file != null && heap.Valid()
    requires forall i :: 0 <= i < |ops| ==> CallableOp(ops[i])
    modifies heap.file
    ensures heap.Valid() && |answers| == |ops|
    ensures Trace(states, Events(ops, answers))
    ensures states[0] == old(Pages(heap.file.data)) && Last(states) == Pages(heap.file.data)
    ensures heap.file.reliable ==> Exact(states, ops, answers)
  {
    hide Allowed, AnswerTo, Step, ValidFile;
    answers, states := [], [Pages(heap.file.data)];
    for i := 0 to |ops|
      invariant heap.Valid() && |answers| == i
      invariant Trace(states, Events(ops[..i], answers))
      invariant states[0] == old(Pages(heap.file.data)) && Last(states) == Pages(heap.file.data)
      invariant heap.file.reliable ==> Exact(states, ops[..i], answers)
    {
      hide Trace, Exact;
      var answer := Perform(ops[i], heap);
      ghost var r := Pages(heap.file.data);
      assert ops[..i + 1] == ops[..i] + [ops[i]];
      TraceExtend(states, ops[..i], answers, ops[i], answer, r);
      if heap.file.reliable {
        ExactExtend(states, ops[..i], answers, ops[i], answer, r);
      }
      answers, states := answers + [answer], states + [r];
    }
    assert ops[..|ops|] == ops;
  }
}
