/** Loading a NOFF program into freshly allocated frames, and giving them back (userprog/addrspace.cc). */
module AddrSpaces {
  import opened Words
  import opened PagedMemory
  import opened Options
  import opened Bitmaps

  const USER_STACK_SIZE: int := 1024

  datatype Segment = Segment(virtualAddr: int, inFileAddr: int, size: int)

  /** The sizes and places of a NOFF file, magic number checked. */
  datatype NoffHeader = NoffHeader(code: Segment, initData: Segment, readonlyData: Segment, uninitData: Segment)

  function SegmentBytes(h: NoffHeader): int { h.code.size + h.initData.size + h.readonlyData.size }

  function NumPages(h: NoffHeader): int { DivRoundUp(SegmentBytes(h) + h.uninitData.size + USER_STACK_SIZE, PAGE_SIZE) }

  /** A segment that is empty, or lies inside both the load buffer and the file. */
  predicate SegmentFits(s: Segment, total: int, fileLength: int) {
    s.size >= 0 &&
    (s.size > 0 ==>
      0 <= s.virtualAddr && s.virtualAddr + s.size <= total && 0 <= s.inFileAddr && s.inFileAddr + s.size <= fileLength)
  }

  predicate HeaderFits(h: NoffHeader, fileLength: int) {
    var total := SegmentBytes(h);
    SegmentFits(h.code, total, fileLength) && SegmentFits(h.initData, total, fileLength)
    && SegmentFits(h.readonlyData, total, fileLength) && h.uninitData.size >= 0
  }

  /** A buffer with a segment of the file copied to its virtual address. */
  function PutSegment(buffer: seq<Byte>, s: Segment, file: seq<Byte>): (r: seq<Byte>)
    requires SegmentFits(s, |buffer|, |file|)
    ensures |r| == |buffer|
    ensures forall i :: 0 <= i < |r| ==>
              r[i] == if s.size > 0 && s.virtualAddr <= i < s.virtualAddr + s.size
                      then file[s.inFileAddr + i - s.virtualAddr] else buffer[i]
  {
    if s.size > 0 then
      buffer[..s.virtualAddr] + file[s.inFileAddr..s.inFileAddr + s.size] + buffer[s.virtualAddr + s.size..]
    else buffer
  }

  function Zeros(n: nat): (z: seq<Byte>)
    ensures |z| == n && forall i :: 0 <= i < n ==> z[i] == 0
  { seq(n, _ => 0) }

  /** The load buffer: code, then initialized data, then read-only data, over zeros. */
  function Buffer(h: NoffHeader, file: seq<Byte>): (b: seq<Byte>)
    requires HeaderFits(h, |file|)
    ensures |b| == SegmentBytes(h)
  {
    PutSegment(PutSegment(PutSegment(Zeros(SegmentBytes(h)), h.code, file), h.initData, file), h.readonlyData, file)
  }

  /** The whole address space as the program should see it: the buffer, then zeros. */
  function MemoryImage(h: NoffHeader, file: seq<Byte>): (m: seq<Byte>)
    requires HeaderFits(h, |file|)
    ensures |m| == NumPages(h) * PAGE_SIZE
  {
    Buffer(h, file) + Zeros(NumPages(h) * PAGE_SIZE - SegmentBytes(h))
  }

  /** Frames a page table maps to. */
  function Frames(pages: PageTable): set<int> {
    set i | 0 <= i < |pages| :: pages[i].physicalPage
  }

  /** A page table as `Load` makes it: every page valid and writable, on its own frame. */
  predicate SpaceOk(pages: PageTable) {
    && (forall i :: 0 <= i < |pages| ==>
          pages[i].valid && !pages[i].readOnly && 0 <= pages[i].physicalPage < NUM_PHYS_PAGES)
    && (forall i, j :: 0 <= i < j < |pages| ==> pages[i].physicalPage != pages[j].physicalPage)
  }

  /** The contents of a frame. */
  function FrameBytes(mem: Memory, f: int): (b: seq<Byte>)
    requires 0 <= f < NUM_PHYS_PAGES
    ensures |b| == PAGE_SIZE
  { mem[f * PAGE_SIZE..(f + 1) * PAGE_SIZE] }

  function Page(image: seq<Byte>, i: int): (p: seq<Byte>)
    requires 0 <= i && (i + 1) * PAGE_SIZE <= |image|
    ensures |p| == PAGE_SIZE
  { image[i * PAGE_SIZE..(i + 1) * PAGE_SIZE] }

  /** The frames of a page table hold an image, page by page. */
  predicate Holds(mem: Memory, pages: PageTable, image: seq<Byte>) {
    && SpaceOk(pages) && |image| == |pages| * PAGE_SIZE
    && forall i :: 0 <= i < |pages| ==> FrameBytes(mem, pages[i].physicalPage) == Page(image, i)
  }

  /** Then a program sees exactly the image through translation. */
  lemma SeesImage(mem: Memory, pages: PageTable, image: seq<Byte>, va: int)
    requires Holds(mem, pages, image) && 0 <= va < |image|
    ensures IsMapped(pages, va) && VirtualByte(pages, mem, va) == image[va]
  {
    var i, o := va / PAGE_SIZE, va % PAGE_SIZE;
    assert 0 <= i < |pages|;
    assert FrameBytes(mem, pages[i].physicalPage)[o] == Page(image, i)[o];
  }

  /** Bytes outside a set of frames are the same in both memories. */
  predicate SameOutside(mem: Memory, mem': Memory, frames: set<int>) {
    forall f :: 0 <= f < NUM_PHYS_PAGES && f !in frames ==> FrameBytes(mem', f) == FrameBytes(mem, f)
  }

  lemma SameSince(mem: Memory, mid: Memory, mem': Memory, frames: set<int>)
    requires SameOutside(mem, mid, frames) && SameOutside(mid, mem', frames)
    ensures SameOutside(mem, mem', frames)
  {
  }

  /** Overwrite the start of one frame. */
  function PutFrame(mem: Memory, f: int, data: seq<Byte>): (mem': Memory)
    requires 0 <= f < NUM_PHYS_PAGES && |data| <= PAGE_SIZE
  {
    mem[..f * PAGE_SIZE] + data + mem[f * PAGE_SIZE + |data|..]
  }

  lemma PutFrameBytes(mem: Memory, f: int, data: seq<Byte>)
    requires 0 <= f < NUM_PHYS_PAGES && |data| <= PAGE_SIZE
    ensures FrameBytes(PutFrame(mem, f, data), f) == data + FrameBytes(mem, f)[|data|..]
    ensures SameOutside(mem, PutFrame(mem, f, data), {f})
  {
    var mem' := PutFrame(mem, f, data);
    forall g | 0 <= g < NUM_PHYS_PAGES && g != f
      ensures FrameBytes(mem', g) == FrameBytes(mem, g)
    {
      assert forall q :: g * PAGE_SIZE <= q < (g + 1) * PAGE_SIZE ==> mem'[q] == mem[q];
    }
  }

  /** `bcopy` or `bzero` into physical memory. */
  method CopyToFrame(mainMemory: array<Byte>, f: int, data: seq<Byte>)
    requires mainMemory.Length == MEMORY_SIZE && 0 <= f < NUM_PHYS_PAGES && |data| <= PAGE_SIZE
    modifies mainMemory
    ensures mainMemory[..] == PutFrame(old(mainMemory[..]), f, data)
  {
    var k := 0;
    while k < |data|
      invariant 0 <= k <= |data|
      invariant mainMemory[..] == PutFrame(old(mainMemory[..]), f, data[..k])
    {
      mainMemory[f * PAGE_SIZE + k] := data[k];
      k := k + 1;
    }
    assert data[..k] == data;
  }

  /** The first `n` pages own `n` frames that were free before, and no other frame has been taken. */
  ghost predicate Claimed(pages: PageTable, before: set<int>, now: set<int>) {
    && SpaceOk(pages) && now == before + Frames(pages) && Frames(pages) !! before
  }

  lemma ClaimOne(pages: PageTable, before: set<int>, now: set<int>, e: TranslationEntry)
    requires Claimed(pages, before, now) && e.valid && !e.readOnly && 0 <= e.physicalPage < NUM_PHYS_PAGES
    requires e.physicalPage !in now
    ensures Claimed(pages + [e], before, now + {e.physicalPage})
  {
    var p := pages + [e];
    assert Frames(p) == Frames(pages) + {e.physicalPage} by {
      assert p[|pages|] == e;
      assert forall i :: 0 <= i < |pages| ==> p[i] == pages[i];
    }
    assert forall i :: 0 <= i < |pages| ==> pages[i].physicalPage in Frames(pages);
  }

  /** The same page table with every page valid. */
  function AsValid(pages: PageTable): (r: PageTable)
    ensures |r| == |pages|
  { seq(|pages|, i requires 0 <= i < |pages| => pages[i].(valid := true)) }

  lemma LoadedIsValid(pages: PageTable)
    requires SpaceOk(pages)
    ensures AsValid(pages) == pages
  {
  }

  class AddrSpace {
    var pageTable: PageTable
    var numPages: int

    constructor ()
      ensures pageTable == [] && numPages == 0
    {
      pageTable, numPages := [], 0;
    }

    /** Give every frame back. */
    method Destroy(frames: Bitmap)
      requires frames.Valid() && frames.numBits == NUM_PHYS_PAGES && SpaceOk(pageTable) && numPages == |pageTable|
      modifies this, frames.words
      ensures frames.Valid() && Marked(frames.Value()) == Marked(old(frames.Value())) - Frames(old(pageTable))
      ensures pageTable == []
    {
      ghost var before := frames.Value();
      var i := 0;
      while i < numPages
        invariant 0 <= i <= numPages == |pageTable| && frames.Valid() && pageTable == old(pageTable)
        invariant Marked(frames.Value()) == Marked(before) - Frames(pageTable[..i])
      {
        MarkOne(frames.Value(), pageTable[i].physicalPage);
        frames.Clear(pageTable[i].physicalPage);
        FramesStep(pageTable, i);
        i := i + 1;
      }
      assert pageTable[..i] == pageTable;
      pageTable := [];
    }

    /**
     The kernel's own translation: what the machine does for a byte access, except that it does not look at the
     valid bits.  On a space that `Load` made every page is valid, and the two agree (`LoadedIsValid`).
     */
    method Translate(vaddr: Word, isReadWrite: bool) returns (exception: Option<ExceptionType>, paddr: nat)
      requires numPages == |pageTable| && forall i :: 0 <= i < |pageTable| ==> pageTable[i].physicalPage >= 0
      modifies this`pageTable
      ensures exception == AccessFault(AsValid(old(pageTable)), vaddr, 1, isReadWrite)
      ensures exception.None? ==> IsMapped(old(pageTable), vaddr) && paddr == Physical(old(pageTable), vaddr)
      ensures exception.None? ==> pageTable == Touch(old(pageTable), vaddr, isReadWrite)
      ensures exception.Some? ==> pageTable == old(pageTable)
    {
      var vpn, offset := vaddr / PAGE_SIZE, vaddr % PAGE_SIZE;
      if vpn >= numPages {
        return Some(AddressErrorException), 0;
      }
      if isReadWrite && pageTable[vpn].readOnly {
        return Some(ReadOnlyException), 0;
      }
      var pfn := pageTable[vpn].physicalPage;
      if pfn >= NUM_PHYS_PAGES {
        return Some(BusErrorException), 0;
      }
      var pte := pageTable[vpn].(use := true);
      if isReadWrite {
        pte := pte.(dirty := true);
      }
      pageTable := pageTable[vpn := pte];
      return None, pfn * PAGE_SIZE + offset;
    }

    /**
     Load a program: fails exactly when there are too few free frames, changing nothing; otherwise takes
     that many free frames, disturbs no other frame, and makes the program see its image.
     */
    method Load(mainMemory: array<Byte>, frames: Bitmap, h: NoffHeader, file: seq<Byte>) returns (ok: bool)
      requires mainMemory.Length == MEMORY_SIZE && frames.Valid() && frames.numBits == NUM_PHYS_PAGES
      requires mainMemory as object != frames.words as object && HeaderFits(h, |file|)
      modifies this, mainMemory, frames.words
      ensures frames.Valid()
      ensures ok <==> CountClear(old(frames.Value())) >= NumPages(h)
      ensures !ok ==> numPages == 0 && pageTable == old(pageTable)
      ensures !ok ==> mainMemory[..] == old(mainMemory[..]) && frames.Value() == old(frames.Value())
      ensures ok ==> numPages == |pageTable| == NumPages(h)
      ensures ok ==> Claimed(pageTable, Marked(old(frames.Value())), Marked(frames.Value()))
      ensures ok ==> Holds(mainMemory[..], pageTable, MemoryImage(h, file))
      ensures ok ==> SameOutside(old(mainMemory[..]), mainMemory[..], Frames(pageTable))
    {
      hide Claimed, Holds, SameOutside, Frames, Marked, Zeros, CountClear, Bits, Buffer;
      numPages := NumPages(h);
      var room := frames.NumClear();
      if room < numPages {
        numPages := 0;
        return false;
      }
      AllocatePages(mainMemory, frames);
      ghost var mid := mainMemory[..];
      var buffer := Buffer(h, file);
      CopyPages(mainMemory, buffer);
      SameSince(old(mainMemory[..]), mid, mainMemory[..], Frames(pageTable));
      ok := true;
    }

    /** Allocate and clear a frame for every page. */
    method AllocatePages(mainMemory: array<Byte>, frames: Bitmap)
      requires mainMemory.Length == MEMORY_SIZE && frames.Valid() && frames.numBits == NUM_PHYS_PAGES
      requires mainMemory as object != frames.words as object && 0 <= numPages <= CountClear(frames.Value())
      modifies this`pageTable, mainMemory, frames.words
      ensures frames.Valid() && |pageTable| == numPages
      ensures Claimed(pageTable, Marked(old(frames.Value())), Marked(frames.Value()))
      ensures Holds(mainMemory[..], pageTable, Zeros(numPages * PAGE_SIZE))
      ensures SameOutside(old(mainMemory[..]), mainMemory[..], Frames(pageTable))
    {
      hide Claimed, SameOutside, Frames, Marked, Zeros, CountClear, Bits, Blank, FrameBytes;
      ghost var before := frames.Value();
      pageTable := [];
      NothingClaimed(mainMemory[..], Marked(before));
      var i := 0;
      while i < numPages
        invariant 0 <= i <= numPages && |pageTable| == i && frames.Valid()
        invariant CountClear(frames.Value()) == CountClear(before) - i
        invariant Claimed(pageTable, Marked(before), Marked(frames.Value()))
        invariant Blank(mainMemory[..], pageTable)
        invariant SameOutside(old(mainMemory[..]), mainMemory[..], Frames(pageTable))
      {
        ghost var b, mem := frames.Value(), mainMemory[..];
        CountPositive(b);
        var f := frames.FindAndSet();
        CountSet(b, f);
        MarkOne(b, f);
        var e := TranslationEntry(i, f, true, false, false, false);
        ClaimOne(pageTable, Marked(before), Marked(b), e);
        CopyToFrame(mainMemory, f, Zeros(PAGE_SIZE));
        BlankOne(mem, mainMemory[..], old(mainMemory[..]), pageTable, e);
        pageTable := pageTable + [e];
        i := i + 1;
      }
      BlankHolds(mainMemory[..], pageTable);
    }

    /** Copy the buffer into the frames, one page at a time; the last page may be only partly covered. */
    method CopyPages(mainMemory: array<Byte>, buffer: seq<Byte>)
      requires mainMemory.Length == MEMORY_SIZE && |buffer| <= |pageTable| * PAGE_SIZE
      requires Holds(mainMemory[..], pageTable, Zeros(|pageTable| * PAGE_SIZE))
      modifies mainMemory
      ensures Holds(mainMemory[..], pageTable, buffer + Zeros(|pageTable| * PAGE_SIZE - |buffer|))
      ensures SameOutside(old(mainMemory[..]), mainMemory[..], Frames(pageTable))
    {
      hide Upto, Zeros, PutFrame, Page, FrameBytes, SameOutside, Frames;
      ghost var total := |pageTable| * PAGE_SIZE;
      var pages := DivRoundUp(|buffer|, PAGE_SIZE);
      UptoEnds(buffer, pages, total);
      SameAsItself(mainMemory[..], Frames(pageTable));
      var i := 0;
      while i < pages
        invariant 0 <= i <= pages <= |pageTable|
        invariant Holds(mainMemory[..], pageTable, Upto(buffer, i * PAGE_SIZE, total))
        invariant SameOutside(old(mainMemory[..]), mainMemory[..], Frames(pageTable))
      {
        var offset := i * PAGE_SIZE;
        var size := PAGE_SIZE;
        if offset + size > |buffer| {
          size := |buffer| - offset;
        }
        ghost var mem := mainMemory[..];
        CopyToFrame(mainMemory, pageTable[i].physicalPage, buffer[offset..offset + size]);
        PageCopied(old(mainMemory[..]), mem, mainMemory[..], pageTable, buffer, i, size);
        i := i + 1;
      }
    }
  }

  lemma FramesStep(pages: PageTable, i: int)
    requires 0 <= i < |pages|
    ensures Frames(pages[..i + 1]) == Frames(pages[..i]) + {pages[i].physicalPage}
  {
    var p, q := pages[..i + 1], pages[..i];
    assert p[i] == pages[i];
    assert forall k :: 0 <= k < i ==> p[k] == q[k];
  }

  lemma NothingClaimed(mem: Memory, marked: set<int>)
    ensures Claimed([], marked, marked) && Blank(mem, []) && SameOutside(mem, mem, Frames([]))
  {
  }

  /** Every frame of a page table is zero. */
  predicate Blank(mem: Memory, pages: PageTable) {
    SpaceOk(pages) && forall i :: 0 <= i < |pages| ==> FrameBytes(mem, pages[i].physicalPage) == Zeros(PAGE_SIZE)
  }

  lemma BlankOne(mem: Memory, mem': Memory, start: Memory, pages: PageTable, e: TranslationEntry)
    requires Blank(mem, pages) && SpaceOk(pages + [e]) && SameOutside(start, mem, Frames(pages))
    requires 0 <= e.physicalPage < NUM_PHYS_PAGES && mem' == PutFrame(mem, e.physicalPage, Zeros(PAGE_SIZE))
    ensures Blank(mem', pages + [e]) && SameOutside(start, mem', Frames(pages + [e]))
  {
    var f, p := e.physicalPage, pages + [e];
    PutFrameBytes(mem, f, Zeros(PAGE_SIZE));
    hide PutFrame, FrameBytes, Zeros;
    forall i | 0 <= i < |p|
      ensures FrameBytes(mem', p[i].physicalPage) == Zeros(PAGE_SIZE)
    {
      if i < |pages| { assert p[i] == pages[i] && p[|pages|] == e; }
    }
    forall g | 0 <= g < NUM_PHYS_PAGES && g !in Frames(p)
      ensures FrameBytes(mem', g) == FrameBytes(start, g)
    {
      assert p[|pages|].physicalPage in Frames(p);
      forall i | 0 <= i < |pages| ensures pages[i].physicalPage in Frames(p) { assert p[i] == pages[i]; }
      assert g !in Frames(pages);
    }
  }

  lemma BlankHolds(mem: Memory, pages: PageTable)
    requires Blank(mem, pages)
    ensures Holds(mem, pages, Zeros(|pages| * PAGE_SIZE))
  {
    forall i | 0 <= i < |pages|
      ensures Page(Zeros(|pages| * PAGE_SIZE), i) == Zeros(PAGE_SIZE)
    {
    }
  }

  /** The image once the buffer has been copied up to offset `n`. */
  function Upto(buffer: seq<Byte>, n: int, total: int): (r: seq<Byte>)
    requires 0 <= n && |buffer| <= total
    ensures |r| == total
  {
    if n >= |buffer| then buffer + Zeros(total - |buffer|) else buffer[..n] + Zeros(total - n)
  }

  lemma UptoEnds(buffer: seq<Byte>, pages: int, total: int)
    requires |buffer| <= total && pages == DivRoundUp(|buffer|, PAGE_SIZE)
    ensures Upto(buffer, 0, total) == Zeros(total)
    ensures Upto(buffer, pages * PAGE_SIZE, total) == buffer + Zeros(total - |buffer|)
  {
  }

  lemma SameAsItself(mem: Memory, frames: set<int>)
    ensures SameOutside(mem, mem, frames)
  {
  }

  lemma PageCopied(start: Memory, mem: Memory, mem': Memory, pages: PageTable, buffer: seq<Byte>, i: int, size: int)
    requires 0 <= i < |pages| && |buffer| <= |pages| * PAGE_SIZE && i * PAGE_SIZE < |buffer|
    requires size == if (i + 1) * PAGE_SIZE > |buffer| then |buffer| - i * PAGE_SIZE else PAGE_SIZE
    requires Holds(mem, pages, Upto(buffer, i * PAGE_SIZE, |pages| * PAGE_SIZE))
    requires SameOutside(start, mem, Frames(pages))
    requires mem' == PutFrame(mem, pages[i].physicalPage, buffer[i * PAGE_SIZE..i * PAGE_SIZE + size])
    ensures Holds(mem', pages, Upto(buffer, (i + 1) * PAGE_SIZE, |pages| * PAGE_SIZE))
    ensures SameOutside(start, mem', Frames(pages))
  {
    var f, total := pages[i].physicalPage, |pages| * PAGE_SIZE;
    var data := buffer[i * PAGE_SIZE..i * PAGE_SIZE + size];
    var was, now := Upto(buffer, i * PAGE_SIZE, total), Upto(buffer, (i + 1) * PAGE_SIZE, total);
    PutFrameBytes(mem, f, data);
    NextPage(buffer, i, size, total);
    hide PutFrame, FrameBytes, Upto, Page;
    forall j | 0 <= j < |pages|
      ensures FrameBytes(mem', pages[j].physicalPage) == Page(now, j)
    {
      if j != i {
        OtherPage(buffer, i, j, total);
        assert pages[j].physicalPage != f;
      }
    }
    assert f in Frames(pages);
  }

  lemma NextPage(buffer: seq<Byte>, i: int, size: int, total: int)
    requires 0 <= i && (i + 1) * PAGE_SIZE <= total && |buffer| <= total && i * PAGE_SIZE < |buffer|
    requires size == if (i + 1) * PAGE_SIZE > |buffer| then |buffer| - i * PAGE_SIZE else PAGE_SIZE
    ensures Page(Upto(buffer, (i + 1) * PAGE_SIZE, total), i)
         == buffer[i * PAGE_SIZE..i * PAGE_SIZE + size] + Page(Upto(buffer, i * PAGE_SIZE, total), i)[size..]
  {
  }

  lemma OtherPage(buffer: seq<Byte>, i: int, j: int, total: int)
    requires 0 <= i && 0 <= j && (j + 1) * PAGE_SIZE <= total && |buffer| <= total && j != i
    ensures Page(Upto(buffer, (i + 1) * PAGE_SIZE, total), j) == Page(Upto(buffer, i * PAGE_SIZE, total), j)
  {
  }
}
