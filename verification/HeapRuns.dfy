/** Runs of the heap file from an empty file, and the map from record ids to
    records that callers expect it to keep: which part of that expectation
    every run meets, and which runs meet all of it. */
module HeapRuns {
  import opened Bytes
  import opened PageValue
  import opened PageOps
  import opened HeapOps

  datatype Op = Insert(record: seq<byte>) | Delete(rid: RID) | Get(rid: RID, bufferSize: nat)

  /** What a caller gets back: the id of a stored record, the success of a
      delete, the bytes of a record, or -1. */
  datatype Answer = Given(rid: RID) | Removed | Found(record: seq<byte>) | No

  // ---- One operation ----

  function Step(pages: seq<Page>, op: Op): seq<Page>
    requires ValidHeap(pages)
  {
    match op
    case Insert(record) => HeapInserted(pages, record).pages
    case Delete(rid) => HeapDeleted(pages, rid)
    case Get(_, _) => pages
  }

  function AnswerTo(pages: seq<Page>, op: Op): Answer
    requires ValidHeap(pages)
  {
    match op
    case Insert(record) =>
      var rid := HeapInserted(pages, record).rid;
      if rid.Some? then Given(rid.value) else No
    case Delete(rid) =>
      if rid.page < ToU32(|pages|) && Holds(pages, rid) then Removed else No
    case Get(rid, bufferSize) =>
      if HeapGot(pages, rid, bufferSize) != -1 then Found(pages[rid.page].Record(rid.slot)) else No
  }

  /** What an operation may do when system calls may fail. */
  ghost predicate Allowed(pages: seq<Page>, op: Op, answer: Answer, r: seq<Page>)
    requires ValidHeap(pages)
  {
    match op
    case Insert(record) =>
      if answer.Given? then HeapOutcome(r, Some(answer.rid)) in {HeapInserted(pages, record), Appended(pages, record)}
      else answer == No && r in {pages, pages + [Empty()]}
    case Delete(rid) =>
      if answer == Removed then rid.page < ToU32(|pages|) && Holds(pages, rid) && r == HeapDeleted(pages, rid)
      else answer == No && r == pages
    case Get(rid, bufferSize) =>
      && r == pages
      && (answer == No
          || (HeapGot(pages, rid, bufferSize) != -1 && answer == Found(pages[rid.page].Record(rid.slot))))
  }

  /** What is done when no system call fails is allowed. */
  lemma StepAllowed(pages: seq<Page>, op: Op)
    requires ValidHeap(pages)
    ensures Allowed(pages, op, AnswerTo(pages, op), Step(pages, op))
  {
    hide HeapInserted, HeapDeleted, HeapGot;
    match op
    case Insert(record) =>
      if HeapInserted(pages, record).rid.None? {
        HeapInsertRefused(pages, record);
      }
    case Delete(rid) => DeleteNothing(pages, rid);
    case Get(_, _) =>
  }

  lemma DeleteNothing(pages: seq<Page>, rid: RID)
    requires ValidHeap(pages)
    ensures !(rid.page < ToU32(|pages|) && Holds(pages, rid)) ==> HeapDeleted(pages, rid) == pages
  {
  }

  /** Below 2^32 pages an id that is given names the page the record went to. */
  lemma GivenAdds(pages: seq<Page>, record: seq<byte>, rid: RID, r: seq<Page>)
    requires ValidHeap(pages) && |pages| < FILE_LIMIT && Allowed(pages, Insert(record), Given(rid), r)
    ensures Adds(pages, record, r, rid)
  {
    hide HeapInserted, Appended, Adds;
    if HeapOutcome(r, Some(rid)) == HeapInserted(pages, record) {
      HeapInsertFirstFit(pages, record);
    } else {
      AppendedAdds(pages, record);
    }
  }

  lemma AllowedValid(pages: seq<Page>, op: Op, answer: Answer, r: seq<Page>)
    requires ValidHeap(pages) && Allowed(pages, op, answer, r)
    ensures ValidHeap(r) && |pages| <= |r|
  {
    hide HeapInserted, Appended, HeapDeleted;
    match op
    case Insert(record) =>
      HeapInsertValid(pages, record);
      AppendedValid(pages, record);
      assert ValidHeap(pages + [Empty()]);
    case Delete(rid) => HeapDeletedRecords(pages, rid);
    case Get(_, _) =>
  }

  lemma StepValid(pages: seq<Page>, op: Op)
    requires ValidHeap(pages)
    ensures ValidHeap(Step(pages, op)) && |pages| <= |Step(pages, op)|
  {
    hide Step, AnswerTo, Allowed;
    StepAllowed(pages, op);
    AllowedValid(pages, op, AnswerTo(pages, op), Step(pages, op));
  }

  /** What callers expect the file to hold after an answer. */
  ghost function Recorded(m: map<RID, seq<byte>>, op: Op, answer: Answer): map<RID, seq<byte>> {
    if op.Insert? && answer.Given? then m[answer.rid := op.record]
    else if op.Delete? && answer.Removed? then m - {op.rid}
    else m
  }

  /** An operation whose kept compaction, if it has one, clobbers nothing. */
  ghost predicate SafeStep(pages: seq<Page>, op: Op, answer: Answer) {
    op.Insert? && answer.Given? ==> AddsSafely(pages, |op.record|, answer.rid)
  }

  /** Whatever fails, the ids in use and the lengths of the records follow the
      answers. */
  lemma AllowedKeepsLengths(pages: seq<Page>, m: map<RID, seq<byte>>, op: Op, answer: Answer, r: seq<Page>)
    requires ValidHeap(pages) && |pages| < FILE_LIMIT && Allowed(pages, op, answer, r)
    requires LengthsOf(Records(pages)) == LengthsOf(m)
    ensures ValidHeap(r) && LengthsOf(Records(r)) == LengthsOf(Recorded(m, op, answer))
  {
    hide HeapInserted, Appended, HeapDeleted, Adds;
    AllowedValid(pages, op, answer, r);
    match op
    case Insert(record) =>
      if answer.Given? {
        GivenAdds(pages, record, answer.rid, r);
        AddedLengths(pages, record, r, answer.rid);
        SameMap(LengthsOf(m)[answer.rid := |record|], LengthsOf(m[answer.rid := record]));
      } else {
        RefusedRecords(pages, r);
      }
    case Delete(rid) =>
      if answer.Removed? {
        HeapDeletedRecords(pages, rid);
        LengthsWithout(Records(pages), rid);
        LengthsWithout(m, rid);
      }
    case Get(_, _) =>
  }

  lemma LengthsWithout(m: map<RID, seq<byte>>, rid: RID)
    ensures LengthsOf(m - {rid}) == LengthsOf(m) - {rid}
  {
    SameMap(LengthsOf(m - {rid}), LengthsOf(m) - {rid});
  }

  /** And so do the records, where no kept compaction clobbers. */
  lemma AllowedKeepsRecords(pages: seq<Page>, op: Op, answer: Answer, r: seq<Page>)
    requires ValidHeap(pages) && |pages| < FILE_LIMIT && Allowed(pages, op, answer, r)
    requires SafeStep(pages, op, answer)
    ensures ValidHeap(r) && Records(r) == Recorded(Records(pages), op, answer)
  {
    hide HeapInserted, Appended, HeapDeleted, Adds, AddsSafely;
    AllowedValid(pages, op, answer, r);
    match op
    case Insert(record) =>
      if answer.Given? {
        GivenAdds(pages, record, answer.rid, r);
        AddedRecords(pages, record, r, answer.rid);
      } else {
        RefusedRecords(pages, r);
      }
    case Delete(rid) => HeapDeletedRecords(pages, rid);
    case Get(_, _) =>
  }

  /** What the answers say of the file, whatever fails: a given id was not in
      use, a removed one was, and a found record is the one under its id. */
  lemma AllowedAnswers(pages: seq<Page>, op: Op, answer: Answer, r: seq<Page>)
    requires ValidHeap(pages) && |pages| < FILE_LIMIT && Allowed(pages, op, answer, r)
    ensures match answer
      case Given(rid) => rid !in Records(pages)
      case Removed => op.Delete? && op.rid in Records(pages)
      case Found(record) =>
        op.Get? && op.rid in Records(pages) && record == Records(pages)[op.rid] && |record| <= op.bufferSize
      case No => true
  {
    hide HeapInserted, Appended, HeapDeleted;
    if op.Insert? && answer.Given? {
      GivenAdds(pages, op.record, answer.rid, r);
      AddedLengths(pages, op.record, r, answer.rid);
    }
  }

  // ---- Runs from an empty file ----

  function Front<T>(s: seq<T>): seq<T>
    requires s != []
  {
    s[..|s| - 1]
  }

  function Last<T>(s: seq<T>): T
    requires s != []
  {
    s[|s| - 1]
  }

  /** The pages of the file after a run on an empty file. */
  ghost function Run(ops: seq<Op>): (pages: seq<Page>)
    ensures ValidHeap(pages)
  {
    if ops == [] then []
    else
      StepValid(Run(Front(ops)), Last(ops));
      Step(Run(Front(ops)), Last(ops))
  }

  /** What the callers put in: the map that maps every id that an insert
      returned and no delete has removed since to the record of that insert. */
  ghost function Model(ops: seq<Op>): map<RID, seq<byte>> {
    if ops == [] then map[]
    else Recorded(Model(Front(ops)), Last(ops), AnswerTo(Run(Front(ops)), Last(ops)))
  }

  lemma RunGrows(ops: seq<Op>)
    requires ops != []
    ensures |Run(Front(ops))| <= |Run(ops)|
  {
    StepValid(Run(Front(ops)), Last(ops));
  }

  lemma {:induction false} PrefixSmaller(ops: seq<Op>, n: nat)
    requires n <= |ops|
    ensures |Run(ops[..n])| <= |Run(ops)|
  {
    if n == |ops| {
      assert ops[..n] == ops;
    } else {
      assert Front(ops)[..n] == ops[..n];
      PrefixSmaller(Front(ops), n);
      RunGrows(ops);
    }
  }

  /** On every run, whether or not it loses bytes, the file holds a record under
      exactly the ids that the callers expect, of exactly the expected length,
      as long as the file has fewer than 2^32 pages. */
  lemma {:induction false} RunKeepsLengths(ops: seq<Op>)
    requires |Run(ops)| < FILE_LIMIT
    ensures LengthsOf(Records(Run(ops))) == LengthsOf(Model(ops))
  {
    if ops != [] {
      hide Step, AnswerTo, Allowed, Recorded;
      RunGrows(ops);
      RunKeepsLengths(Front(ops));
      StepAllowed(Run(Front(ops)), Last(ops));
      AllowedKeepsLengths(Run(Front(ops)), Model(Front(ops)), Last(ops),
                          AnswerTo(Run(Front(ops)), Last(ops)), Run(ops));
    }
  }

  /** What the operations answer after any run: an insert succeeds exactly on
      the lengths 1 to 4086, if an int can number a new page or a page has room,
      and gives an unused id; a delete succeeds exactly on the ids in use; and a
      get finds a record of the right length exactly if the id is in use and the
      buffer is large enough. */
  lemma {:induction false} RunAnswers(ops: seq<Op>, op: Op)
    requires |Run(ops)| < FILE_LIMIT
    ensures var answer, m := AnswerTo(Run(ops), op), Model(ops);
      match op
      case Insert(record) =>
        && (answer.Given? <==>
              && 0 < |record| <= MAX_RECORD
              && (|Run(ops)| < PAGE_LIMIT || exists i :: 0 <= i < |Run(ops)| && Fits(Run(ops)[i], |record|)))
        && (answer.Given? ==> answer.rid !in m)
      case Delete(rid) => answer.Removed? <==> rid in m
      case Get(rid, bufferSize) =>
        && (answer.Found? <==> rid in m && |m[rid]| <= bufferSize)
        && (answer.Found? ==> |answer.record| == |m[rid]|)
  {
    var pages, answer := Run(ops), AnswerTo(Run(ops), op);
    RunKeepsLengths(ops);
    StepAllowed(pages, op);
    AllowedAnswers(pages, op, answer, Step(pages, op));
    SameLengthsSameKeys(Records(pages), Model(ops));
    if op.Insert? {
      HeapInsertSucceedsIff(pages, op.record);
    }
  }

  lemma SameLengthsSameKeys(m: map<RID, seq<byte>>, n: map<RID, seq<byte>>)
    requires LengthsOf(m) == LengthsOf(n)
    ensures forall rid :: rid in m <==> rid in n
    ensures forall rid :: rid in m ==> |m[rid]| == |n[rid]|
  {
    forall rid
      ensures rid in m <==> rid in n
      ensures rid in m ==> |m[rid]| == |n[rid]|
    {
      assert rid in LengthsOf(m) <==> rid in LengthsOf(n);
    }
  }

  /** A run whose kept compactions clobber nothing. */
  ghost predicate Clean(ops: seq<Op>) {
    ops == [] ||
    (Clean(Front(ops)) && SafeStep(Run(Front(ops)), Last(ops), AnswerTo(Run(Front(ops)), Last(ops))))
  }

  /** On a clean run the file holds exactly what the callers put in. */
  lemma {:induction false} CleanRunKeepsRecords(ops: seq<Op>)
    requires |Run(ops)| < FILE_LIMIT && Clean(ops)
    ensures Records(Run(ops)) == Model(ops)
  {
    if ops != [] {
      hide Step, AnswerTo, Allowed, Recorded, SafeStep;
      RunGrows(ops);
      CleanRunKeepsRecords(Front(ops));
      StepAllowed(Run(Front(ops)), Last(ops));
      AllowedKeepsRecords(Run(Front(ops)), Last(ops), AnswerTo(Run(Front(ops)), Last(ops)), Run(ops));
    }
  }
}
