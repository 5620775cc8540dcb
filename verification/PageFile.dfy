/** The end of page.c: reading, writing and allocating whole pages of a file,
    and the pages that a file of well-formed page images stands for. */
module PageFile {
  import opened Bytes
  import opened SlotTable
  import opened PageValue
  import opened PageImage
  import opened PageOps
  import opened ByteFile
  import SlottedPage

  /** A file that a heap file can be: whole pages, all of them well-formed. */
  ghost predicate ValidFile(data: seq<byte>) {
    Aligned(data) && forall id :: 0 <= id < |Images(data)| ==> WellFormed(Images(data)[id])
  }

  ghost function Pages(data: seq<byte>): (r: seq<Page>)
    requires ValidFile(data)
    ensures |r| == |Images(data)|
    ensures forall id :: 0 <= id < |r| ==> r[id] == Decode(Images(data)[id]) && r[id].Valid()
  {
    seq(|Images(data)|, id requires 0 <= id < |Images(data)| => Decode(Images(data)[id]))
  }

  /** Pages that stand for the same value are the same bytes on disk. */
  lemma SamePageSameBytes(data: seq<byte>, data': seq<byte>, id: nat)
    requires ValidFile(data) && ValidFile(data')
    requires id < |Pages(data)| && id < |Pages(data')| && Pages(data)[id] == Pages(data')[id]
    ensures data[id * PAGE_SIZE..(id + 1) * PAGE_SIZE] == data'[id * PAGE_SIZE..(id + 1) * PAGE_SIZE]
  {
    DecodeInjective(Images(data)[id], Images(data')[id]);
  }

  /** A write of a well-formed page image, seen as a change of the pages. */
  lemma WriteIsPageUpdate(data: seq<byte>, id: nat, s: Image)
    requires ValidFile(data) && id <= |Pages(data)| && WellFormed(s)
    ensures var r := Overwritten(data, id * PAGE_SIZE, s);
      && ValidFile(r)
      && Pages(r) == if id < |Pages(data)| then Pages(data)[id := Decode(s)] else Pages(data) + [Decode(s)]
  {
    WriteIsUpdate(data, id, s);
  }

  /** page_read; fd < 0 is no file. */
  method PageRead(file: File?, pageId: nat, page: array<byte>) returns (r: int)
    requires page.Length == PAGE_SIZE
    modifies if file == null then {} else {file}, page
    ensures file != null ==> file.data == old(file.data)
    ensures r == 0 || r == -1
    ensures r == 0 ==> file != null && pageId < |Images(file.data)| && page[..] == Images(file.data)[pageId]
    ensures file != null && file.reliable && pageId < |Images(file.data)| ==> r == 0
  {
    if file == null {
      return -1;
    }
    var offset := pageId * PAGE_SIZE;
    var sought := file.SeekTo(offset);
    if sought == -1 {
      return -1;
    }
    var bytesRead := file.Read(page);
    if bytesRead != PAGE_SIZE {
      return -1;
    }
    assert page[..] == ImageAt(file.data, pageId);
    return 0;
  }

  method PageWrite(file: File?, pageId: nat, page: array<byte>) returns (r: int)
    requires page.Length == PAGE_SIZE
    modifies if file == null then {} else {file}
    ensures r == 0 || r == -1
    ensures r == 0 ==> file != null && file.data == Overwritten(old(file.data), pageId * PAGE_SIZE, page[..])
    ensures r == -1 ==> file == null || (!file.reliable && file.data == old(file.data))
    ensures file != null && Aligned(old(file.data)) && r == 0 && pageId < |Images(old(file.data))| ==>
      Aligned(file.data) && Images(file.data) == Images(old(file.data))[pageId := page[..]]
  {
    if file == null {
      return -1;
    }
    var offset := pageId * PAGE_SIZE;
    var sought := file.SeekTo(offset);
    if sought == -1 {
      return -1;
    }
    var bytesWritten := file.Write(page[..]);
    if bytesWritten != PAGE_SIZE {
      return -1;
    }
    if Aligned(old(file.data)) && pageId < |Images(old(file.data))| {
      WriteIsUpdate(old(file.data), pageId, page[..]);
    }
    return 0;
  }

  /** page_allocate: an empty page is appended, and its number comes back as an
      int, negative from 2^31 pages on. */
  method PageAllocate(file: File?) returns (id: int)
    requires file != null ==> ValidFile(file.data)
    modifies if file == null then {} else {file}
    ensures file == null ==> id == -1
    ensures file != null ==>
      && ValidFile(file.data)
      && if id == -1 && file.data == old(file.data) then !file.reliable
         else id == ToI32(ToU32(|old(Pages(file.data))|)) && Pages(file.data) == old(Pages(file.data)) + [Empty()]
  {
    if file == null {
      return -1;
    }
    ghost var before := file.data;
    var fileSize := file.SeekEnd();
    if fileSize == -1 {
      return -1;
    }
    var newPageId := ToU32(fileSize / PAGE_SIZE);
    var emptyPage := new byte[PAGE_SIZE];
    SlottedPage.PageInit(emptyPage);
    assert file.cursor == |Pages(before)| * PAGE_SIZE;
    WriteIsPageUpdate(before, |Pages(before)|, emptyPage[..]);
    var written := file.Write(emptyPage[..]);
    if written != PAGE_SIZE {
      return -1;
    }
    return ToI32(newPageId);
  }
}
