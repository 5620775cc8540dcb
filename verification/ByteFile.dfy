/** The file under a heap file: bytes and a cursor, with the system calls that
    page.c makes on them, and the sequence of pages that the bytes stand for. */
module ByteFile {
  import opened Bytes
  import opened SlotTable
  import opened PageImage

  /** The bytes of a file after a write at the given position: a gap beyond the
      end reads as zeros. */
  function Overwritten(data: seq<byte>, at: nat, bytes: seq<byte>): (r: seq<byte>)
    ensures |r| == if at + |bytes| <= |data| then |data| else at + |bytes|
  {
    var padded := if |data| < at then data + seq(at - |data|, _ => 0) else data;
    padded[..at] + bytes + if at + |bytes| <= |padded| then padded[at + |bytes|..] else []
  }

  /** An open file. A system call either does all of its work or fails with -1
      and has no effect; on a reliable file it does not fail. */
  class File {
    var data: seq<byte>
    var cursor: nat
    const reliable: bool

    constructor (data: seq<byte>, reliable: bool)
      ensures this.data == data && cursor == 0 && this.reliable == reliable
    {
      this.data, cursor, this.reliable := data, 0, reliable;
    }

    method Fails() returns (b: bool)
      ensures reliable ==> !b
    {
      b := *;
      if reliable {
        b := false;
      }
    }

    /** lseek with SEEK_SET. */
    method SeekTo(offset: nat) returns (r: int)
      modifies this`cursor
      ensures r == -1 || (r == offset && cursor == offset)
      ensures reliable ==> r != -1
    {
      var fails := Fails();
      if fails {
        return -1;
      }
      cursor := offset;
      return offset;
    }

    /** lseek with offset 0 and SEEK_END. */
    method SeekEnd() returns (r: int)
      modifies this`cursor
      ensures r == -1 || (r == |data| && cursor == |data|)
      ensures reliable ==> r != -1
    {
      var fails := Fails();
      if fails {
        return -1;
      }
      cursor := |data|;
      return |data|;
    }

    /** read: as many bytes as there are, up to the size of the buffer. */
    method Read(buffer: array<byte>) returns (r: int)
      modifies this`cursor, buffer
      ensures r == -1 ==> cursor == old(cursor) && buffer[..] == old(buffer[..])
      ensures r != -1 ==>
        && r == (if |data| <= old(cursor) then 0
                 else if |data| - old(cursor) < buffer.Length then |data| - old(cursor) else buffer.Length)
        && cursor == old(cursor) + r
        && buffer[..] == (if r == 0 then old(buffer[..]) else Splice(old(buffer[..]), 0, data[old(cursor)..old(cursor) + r]))
      ensures reliable ==> r != -1
    {
      var fails := Fails();
      if fails {
        return -1;
      }
      var n := if |data| <= cursor then 0
               else if |data| - cursor < buffer.Length then |data| - cursor else buffer.Length;
      if n > 0 {
        CopyIn(buffer, 0, data[cursor..cursor + n]);
      }
      cursor := cursor + n;
      return n;
    }

    method Write(bytes: seq<byte>) returns (r: int)
      modifies this
      ensures r == -1 ==> data == old(data) && cursor == old(cursor)
      ensures r != -1 ==>
        r == |bytes| && data == Overwritten(old(data), old(cursor), bytes) && cursor == old(cursor) + |bytes|
      ensures reliable ==> r != -1
    {
      var fails := Fails();
      if fails {
        return -1;
      }
      data := Overwritten(data, cursor, bytes);
      cursor := cursor + |bytes|;
      return |bytes|;
    }
  }

  // ---- Files as sequences of page images ----

  predicate Aligned(data: seq<byte>) {
    |data| % PAGE_SIZE == 0
  }

  function ImageAt(data: seq<byte>, id: nat): Image
    requires (id + 1) * PAGE_SIZE <= |data|
  {
    data[id * PAGE_SIZE..(id + 1) * PAGE_SIZE]
  }

  function Images(data: seq<byte>): (r: seq<Image>)
    ensures |r| == |data| / PAGE_SIZE
    ensures forall id :: 0 <= id < |r| ==> r[id] == ImageAt(data, id)
  {
    seq(|data| / PAGE_SIZE, id requires 0 <= id < |data| / PAGE_SIZE => ImageAt(data, id))
  }

  lemma PageStart(n: nat, id: nat)
    ensures id < n ==> (id + 1) * PAGE_SIZE <= n * PAGE_SIZE
    ensures id > n ==> (n + 1) * PAGE_SIZE <= id * PAGE_SIZE
  {
  }

  /** A write of one page to an aligned file, at a page of the file or at its
      end, replaces or appends exactly that page. */
  lemma WriteIsUpdate(data: seq<byte>, id: nat, s: Image)
    requires Aligned(data) && id <= |Images(data)|
    ensures var r := Overwritten(data, id * PAGE_SIZE, s);
      && Aligned(r)
      && Images(r) == if id < |Images(data)| then Images(data)[id := s] else Images(data) + [s]
  {
    var n := |Images(data)|;
    var r := Overwritten(data, id * PAGE_SIZE, s);
    assert |data| == n * PAGE_SIZE;
    assert |r| == (if id < n then n else n + 1) * PAGE_SIZE;
    forall k: nat | k < |Images(r)|
      ensures ImageAt(r, k) == if k == id then s else ImageAt(data, k)
    {
      PageStart(k, id);
    }
  }
}
