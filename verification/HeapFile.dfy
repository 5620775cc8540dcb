/** heap_file.c: the heap file on the bytes of a file. Every contract ties the
    pages that the file stands for to the operations of HeapOps. */
module HeapFile {
  import opened Bytes
  import opened SlotTable
  import opened PageImage
  import opened PageOps
  import opened HeapOps
  import opened ByteFile
  import opened PageFile
  import SlottedPage

  /** How an attempt to use one page ends. */
  datatype Attempt = StoredIn(slot: u16) | NoRoom | Failed

  class Heap {
    /** The open file; null once the heap file is closed. */
    var file: File?

    ghost predicate Valid()
      reads this, file
    {
      file != null ==> ValidFile(file.data)
    }

    /** heap_page_count: 0 as well when the size cannot be found out. */
    method PageCount() returns (n: nat)
      requires Valid()
      modifies if file == null then {} else {file}
      ensures file != null ==> file.data == old(file.data)
      ensures n == 0 || (file != null && n == ToU32(|Pages(file.data)|))
      ensures file != null && file.reliable ==> n == ToU32(|Pages(file.data)|)
    {
      if file == null {
        return 0;
      }
      var fileSize := file.SeekEnd();
      if fileSize <= 0 {
        return 0;
      }
      return ToU32(fileSize / PAGE_SIZE);
    }

    /** heap_insert. On a reliable file it does what HeapInserted says. When
        system calls fail, a successful insert may have gone to a new page
        although an old one had room, and a failed one has changed nothing but
        perhaps appended an empty page. */
    method Insert(record: seq<byte>) returns (r: int, rid: Option<RID>)
      requires Valid() && |record| < 0x1_0000
      modifies if file == null then {} else {file}
      ensures Valid() && (r == 0 <==> rid.Some?) && (r == 0 || r == -1)
      ensures file == null ==> r == -1
      ensures file != null ==> var pages, pages' := old(Pages(file.data)), Pages(file.data);
        && (file.reliable ==> HeapOutcome(pages', rid) == HeapInserted(pages, record))
        && (r == 0 ==> HeapOutcome(pages', rid) in {HeapInserted(pages, record), Appended(pages, record)})
        && (r == -1 ==> pages' == pages || pages' == pages + [Empty()])
    {
      hide HeapInserted, Appended, Inserted, Fits, Stored, Layout, Decode, HeaderOk, Images, GetU16;
      var maxRecordSize := ToU32(PAGE_SIZE - HEADER_SIZE - SLOT_SIZE);
      if |record| > maxRecordSize {
        if file != null {
          HeapInsertSucceedsIff(Pages(file.data), record);
        }
        return -1, None;
      }
      var pageCount := PageCount();
      var page := new byte[PAGE_SIZE];
      for pageId := 0 to pageCount
        invariant file != null ==> file.data == old(file.data)
        invariant file != null ==> forall k :: 0 <= k < pageId ==> !Fits(old(Pages(file.data))[k], |record|)
      {
        var attempt := InsertInPage(pageId, record, page);
        match attempt
        case Failed => return -1, None;
        case NoRoom =>
        case StoredIn(slot) =>
          ScanStops(old(Pages(file.data)), record, pageId);
          return 0, Some(RID(pageId, slot));
      }
      if file != null && pageCount == ToU32(|Pages(file.data)|) {
        ScanStops(Pages(file.data), record, pageCount);
      }
      r, rid := InsertInNewPage(record, page);
    }

    /** One round of the scan in heap_insert: the page is written back only when
        it took the record, so a page that was compacted in vain stays as it
        was on disk. */
    method InsertInPage(pageId: nat, record: seq<byte>, page: array<byte>) returns (attempt: Attempt)
      requires Valid() && file != null && pageId < |Pages(file.data)|
      requires |record| < 0x1_0000 && page.Length == PAGE_SIZE
      modifies page, file
      ensures Valid()
      ensures var pages, pages' := old(Pages(file.data)), Pages(file.data);
        match attempt
        case StoredIn(slot) =>
          && Fits(pages[pageId], |record|)
          && HeapOutcome(pages', Some(RID(pageId, slot))) == Stored(pages, pageId, Inserted(pages[pageId], record))
        case NoRoom => !Fits(pages[pageId], |record|) && file.data == old(file.data)
        case Failed => !file.reliable && file.data == old(file.data)
    {
      hide Inserted, Fits, Layout, GetU16, Decode, HeaderOk, Images, Lengths;
      ghost var p := Pages(file.data)[pageId];
      var done := PageRead(file, pageId, page);
      if done != 0 {
        return Failed;
      }
      FitsIffInserted(p, record);
      InsertedLengths(p, record);
      var slotId := SlottedPage.PageInsert(page, record);
      if slotId == -1 {
        return NoRoom;
      }
      done := PageWrite(file, pageId, page);
      if done != 0 {
        return Failed;
      }
      WriteIsPageUpdate(old(file.data), pageId, page[..]);
      return StoredIn(ToU16(slotId));
    }

    /** The end of heap_insert: no page of the file took the record. */
    method InsertInNewPage(record: seq<byte>, page: array<byte>) returns (r: int, rid: Option<RID>)
      requires Valid() && |record| < 0x1_0000 && page.Length == PAGE_SIZE
      modifies page, if file == null then {} else {file}
      ensures Valid() && (r == 0 <==> rid.Some?) && (r == 0 || r == -1)
      ensures file == null ==> r == -1
      ensures file != null ==> var pages, pages' := old(Pages(file.data)), Pages(file.data);
        && (file.reliable || r == 0 ==> HeapOutcome(pages', rid) == Appended(pages, record))
        && (r == -1 ==> pages' == pages || pages' == pages + [Empty()])
    {
      hide Inserted, Layout, GetU16, Decode, HeaderOk, Images, Lengths, Empty;
      var newPageId := PageAllocate(file);
      if newPageId < 0 {
        return -1, None;
      }
      ghost var data := file.data;
      SlottedPage.PageInit(page);
      InsertedLengths(Empty(), record);
      var slotId := SlottedPage.PageInsert(page, record);
      if slotId == -1 {
        return -1, None;
      }
      var done := PageWrite(file, newPageId, page);
      if done != 0 {
        return -1, None;
      }
      WriteIsPageUpdate(data, newPageId, page[..]);
      return 0, Some(RID(newPageId, ToU16(slotId)));
    }

    /** heap_get. */
    method Get(rid: RID, buffer: array<byte>, bufferSize: u16) returns (r: int)
      requires Valid() && rid.slot < 0x1_0000 && bufferSize <= buffer.Length
      modifies buffer, if file == null then {} else {file}
      ensures file == null ==> r == -1
      ensures file != null ==> file.data == old(file.data) && var pages := Pages(file.data);
        && (r == HeapGot(pages, rid, bufferSize) || (r == -1 && !file.reliable))
        && (r != -1 ==> buffer[..] == Splice(old(buffer[..]), 0, pages[rid.page].Record(rid.slot)))
      ensures r == -1 ==> buffer[..] == old(buffer[..])
    {
      if bufferSize == 0 {
        return -1;
      }
      var pageCount := PageCount();
      if rid.page >= pageCount {
        return -1;
      }
      var page := new byte[PAGE_SIZE];
      var done := PageRead(file, rid.page, page);
      if done != 0 {
        return -1;
      }
      var recordLength := SlottedPage.PageGet(page, rid.slot, buffer, bufferSize);
      if recordLength < 0 {
        return -1;
      }
      return recordLength;
    }

    /** heap_delete. On disk it changes two bytes at most, those of the length
        of the slot. */
    method Delete(rid: RID) returns (r: int)
      requires Valid() && rid.slot < 0x1_0000
      modifies if file == null then {} else {file}
      ensures Valid() && (r == 0 || r == -1)
      ensures file == null ==> r == -1
      ensures file != null ==> var pages := old(Pages(file.data));
        && (r == 0 ==> rid.page < ToU32(|pages|) && Holds(pages, rid) && Pages(file.data) == HeapDeleted(pages, rid))
        && (r == 0 ==>
              file.data == SetU16(old(file.data), (rid.page + 1) * PAGE_SIZE - (rid.slot + 1) * SLOT_SIZE + 2, 0))
        && (r == -1 ==> file.data == old(file.data))
        && (file.reliable && rid.page < ToU32(|pages|) && Holds(pages, rid) ==> r == 0)
    {
      hide Layout, GetU16, Decode, HeaderOk, Images, Deleted, SetU16, Overwritten;
      if file == null {
        return -1;
      }
      var pageCount := PageCount();
      if rid.page >= pageCount {
        return -1;
      }
      var page := new byte[PAGE_SIZE];
      var done := PageRead(file, rid.page, page);
      if done != 0 {
        return -1;
      }
      ghost var image := page[..];
      done := SlottedPage.PageDelete(page, rid.slot);
      if done != 0 {
        return -1;
      }
      done := PageWrite(file, rid.page, page);
      if done != 0 {
        return -1;
      }
      WriteIsPageUpdate(old(file.data), rid.page, page[..]);
      FieldWrite(old(file.data), rid.page, PAGE_SIZE - (rid.slot + 1) * SLOT_SIZE + 2);
      return 0;
    }
  }

  /** Writing back a page in which one field was set to 0. */
  lemma FieldWrite(data: seq<byte>, id: nat, at: nat)
    requires (id + 1) * PAGE_SIZE <= |data| && at + 2 <= PAGE_SIZE
    ensures Overwritten(data, id * PAGE_SIZE, SetU16(ImageAt(data, id), at, 0)) == SetU16(data, id * PAGE_SIZE + at, 0)
  {
  }

  /** The frame of a successful insert on disk: whatever was read and compacted
      in memory on the way, no byte changes outside the page of the record. */
  lemma OtherPagesKeepBytes(data: seq<byte>, data': seq<byte>, record: seq<byte>, id: nat)
    requires ValidFile(data) && ValidFile(data') && !Wraps(Pages(data), |record|)
    requires HeapInserted(Pages(data), record).rid.Some?
    requires Pages(data') == HeapInserted(Pages(data), record).pages
    requires id < |Pages(data)| && id != HeapInserted(Pages(data), record).rid.value.page
    ensures |data| <= |data'|
    ensures data'[id * PAGE_SIZE..(id + 1) * PAGE_SIZE] == data[id * PAGE_SIZE..(id + 1) * PAGE_SIZE]
  {
    hide HeapInserted, Wraps;
    HeapInsertFirstFit(Pages(data), record);
    SamePageSameBytes(data, data', id);
  }
}
