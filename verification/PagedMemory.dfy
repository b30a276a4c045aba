/**
 Physical memory seen through a linear page table (machine/translate.cc, machine/machine.h):
 what one aligned access checks, reads, writes and marks.
 */
module PagedMemory {
  import opened Words
  import opened Options

  const PAGE_SIZE: int := 128
  const NUM_PHYS_PAGES: int := 128
  const MEMORY_SIZE: int := 16384

  datatype ExceptionType =
    | SyscallException
    | PageFaultException
    | ReadOnlyException
    | BusErrorException
    | AddressErrorException
    | OverflowException
    | IllegalInstrException

  datatype TranslationEntry = TranslationEntry(
    virtualPage: int, physicalPage: int, valid: bool, readOnly: bool, use: bool, dirty: bool)

  type PageTable = seq<TranslationEntry>

  /** Physical memory: exactly `MEMORY_SIZE` bytes. */
  type Memory = m: seq<Byte> | |m| == 16384 witness seq(16384, _ => 0)

  /** The exception an access raises, if any; the order of the cases is the order of the checks. */
  function AccessFault(pages: PageTable, va: Word, size: int, writing: bool): Option<ExceptionType> {
    var vpn := va / PAGE_SIZE;
    if (size == 4 && va % 4 != 0) || (size == 2 && va % 2 != 0) then Some(AddressErrorException)
    else if vpn >= |pages| then Some(AddressErrorException)
    else if !pages[vpn].valid then Some(PageFaultException)
    else if pages[vpn].readOnly && writing then Some(ReadOnlyException)
    else if !(0 <= pages[vpn].physicalPage < NUM_PHYS_PAGES) then Some(BusErrorException)
    else None
  }

  /** A virtual address that the table maps to a real frame. */
  predicate IsMapped(pages: PageTable, va: int) {
    0 <= va && va / PAGE_SIZE < |pages| && 0 <= pages[va / PAGE_SIZE].physicalPage < NUM_PHYS_PAGES
  }

  function Physical(pages: PageTable, va: int): (pa: nat)
    requires IsMapped(pages, va)
    ensures pa < MEMORY_SIZE
  {
    pages[va / PAGE_SIZE].physicalPage * PAGE_SIZE + va % PAGE_SIZE
  }

  /** The byte a user program sees at `va`. */
  function VirtualByte(pages: PageTable, mem: Memory, va: int): Byte
    requires IsMapped(pages, va)
  {
    mem[Physical(pages, va)]
  }

  /** The page table after a successful access: use bit set, dirty bit set by a write. */
  function Touch(pages: PageTable, va: Word, writing: bool): PageTable
    requires IsMapped(pages, va)
  {
    var e := pages[va / PAGE_SIZE];
    pages[va / PAGE_SIZE := e.(use := true, dirty := e.dirty || writing)]
  }

  /** An aligned address is aligned within its page, so an aligned block does not cross into the next page. */
  lemma AlignedOffset(va: int, size: int)
    requires 0 <= va && ((size == 4 && va % 4 == 0) || (size == 2 && va % 2 == 0) || size == 1)
    ensures va % PAGE_SIZE + size <= PAGE_SIZE
    ensures size == 4 ==> va % PAGE_SIZE % 4 == 0
  {
    var page, o := va / PAGE_SIZE, va % PAGE_SIZE;
    if size == 4 {
      QuotientIs(va, 4, 32 * page + o / 4, o % 4);
    } else if size == 2 {
      QuotientIs(va, 2, 64 * page + o / 2, o % 2);
    }
  }

  /** An aligned access of `size` bytes stays inside the frame of its first byte. */
  lemma AlignedWithinFrame(pages: PageTable, va: Word, size: int, k: int)
    requires (size == 4 && va % 4 == 0) || (size == 2 && va % 2 == 0) || size == 1
    requires 0 <= k < size && IsMapped(pages, va)
    ensures IsMapped(pages, va + k) && Physical(pages, va + k) == Physical(pages, va) + k
    ensures Physical(pages, va) + size <= MEMORY_SIZE
  {
    AlignedOffset(va, size);
    QuotientIs(va + k, PAGE_SIZE, va / PAGE_SIZE, va % PAGE_SIZE + k);
  }

  /** An access without a fault is aligned, mapped and inside the memory. */
  lemma FaultFree(pages: PageTable, va: Word, size: int, writing: bool)
    requires (size == 1 || size == 2 || size == 4) && AccessFault(pages, va, size, writing).None?
    ensures (size == 4 && va % 4 == 0) || (size == 2 && va % 2 == 0) || size == 1
    ensures IsMapped(pages, va) && Physical(pages, va) + size <= MEMORY_SIZE
  {
    AlignedWithinFrame(pages, va, size, 0);
  }

  datatype Load = Loaded(value: Word) | LoadFault(exception: ExceptionType)

  datatype Store = Stored(mem: Memory) | StoreFault(exception: ExceptionType)

  function SignExtend8(b: Byte): Word {
    if b < 0x80 then b else b + 0xffff_ff00
  }

  /** Reading is little-endian; a single byte arrives sign-extended, as a C `char` does. */
  function ReadMem(pages: PageTable, mem: Memory, va: Word, size: int): Load
    requires size == 1 || size == 2 || size == 4
  {
    match AccessFault(pages, va, size, false)
    case Some(e) => LoadFault(e)
    case None =>
      FaultFree(pages, va, size, false);
      var pa := Physical(pages, va);
      if size == 1 then Loaded(SignExtend8(mem[pa]))
      else if size == 2 then Loaded(FromBytes(mem[pa], mem[pa + 1], 0, 0))
      else Loaded(FromBytes(mem[pa], mem[pa + 1], mem[pa + 2], mem[pa + 3]))
  }

  /** Memory with the low `size` bytes of `value` stored at physical address `pa`, lowest byte first. */
  function Poke(mem: Memory, pa: nat, size: int, value: Word): (mem': Memory)
    requires size == 1 || size == 2 || size == 4
    requires pa + size <= MEMORY_SIZE
    ensures forall q :: 0 <= q < MEMORY_SIZE ==>
                mem'[q] == if pa <= q < pa + size then ByteOf(value, q - pa) else mem[q]
  {
    if size == 1 then mem[pa := ByteOf(value, 0)]
    else if size == 2 then mem[pa := ByteOf(value, 0)][pa + 1 := ByteOf(value, 1)]
    else mem[pa := ByteOf(value, 0)][pa + 1 := ByteOf(value, 1)][pa + 2 := ByteOf(value, 2)][pa + 3 := ByteOf(value, 3)]
  }

  function WriteMem(pages: PageTable, mem: Memory, va: Word, size: int, value: Word): Store
    requires size == 1 || size == 2 || size == 4
  {
    match AccessFault(pages, va, size, true)
    case Some(e) => StoreFault(e)
    case None =>
      FaultFree(pages, va, size, true);
      Stored(Poke(mem, Physical(pages, va), size, value))
  }

  // ---- byte order of the host ----

  /** What the host reads when it overlays an `unsigned int` on four bytes of memory. */
  function HostWord(bigEndian: bool, b0: Byte, b1: Byte, b2: Byte, b3: Byte): Word {
    if bigEndian then FromBytes(b3, b2, b1, b0) else FromBytes(b0, b1, b2, b3)
  }

  /** `WordToHost`, by shifts and masks. */
  function WordToHost(bigEndian: bool, w: Word): Word {
    if bigEndian then
      w / 0x100_0000 % 0x100 + (w / 0x100 / 0x100) % 0x100 * 0x100
      + (w / 0x100 % 0x100) * 0x1_0000 + (w % 0x100) * 0x100_0000
    else w
  }

  function HostShort(bigEndian: bool, b0: Byte, b1: Byte): Word {
    if bigEndian then b1 + 0x100 * b0 else b0 + 0x100 * b1
  }

  /** `ShortToHost`, for a value below 2^16. */
  function ShortToHost(bigEndian: bool, w: Word): Word {
    if bigEndian then (w % 0x100) * 0x100 + w / 0x100 % 0x100 else w % 0x1_0000
  }

  /** Whatever the host's order, a word of memory means its little-endian value... */
  lemma WordOrder(bigEndian: bool, b0: Byte, b1: Byte, b2: Byte, b3: Byte)
    ensures WordToHost(bigEndian, HostWord(bigEndian, b0, b1, b2, b3)) == FromBytes(b0, b1, b2, b3)
  {
    if bigEndian {
      var w := FromBytes(b3, b2, b1, b0);
      BytesOfFromBytes(b3, b2, b1, b0);
      assert w / 0x100_0000 == b0;
    }
  }

  lemma ShortOrder(bigEndian: bool, b0: Byte, b1: Byte)
    ensures ShortToHost(bigEndian, HostShort(bigEndian, b0, b1)) == FromBytes(b0, b1, 0, 0)
  {
    if bigEndian {
      QuotientIs(b1 as int + 0x100 * b0, 0x100, b0, b1);
      QuotientIs(b0, 0x100, 0, b0);
    } else {
      QuotientIs(b0 as int + 0x100 * b1, 0x1_0000, 0, b0 + 0x100 * b1);
    }
  }

  /** ... and converting twice is converting not at all. */
  lemma WordToHostInvolution(bigEndian: bool, w: Word)
    ensures WordToHost(bigEndian, WordToHost(bigEndian, w)) == w
  {
    BytesOfWord(w);
    var b0, b1, b2, b3 := ByteOf(w, 0), ByteOf(w, 1), ByteOf(w, 2), ByteOf(w, 3);
    WordOrder(bigEndian, b0, b1, b2, b3);
    WordOrder(bigEndian, b3, b2, b1, b0);
  }
}
