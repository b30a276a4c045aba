/**
 The way of a program from its COFF file into memory, by the bytes of the file: which sections are copied is said by
 their names, and where to by the fields of their headers.
 */
module CoffImages {
  import opened Words
  import opened PagedMemory
  import opened AddrSpaces
  import opened Bitmaps
  import opened Options
  import opened Coff

  // ---- the file, field by field ----

  function SectionCount(coff: seq<Byte>): nat
    requires |coff| >= 4
  { coff[2] as int + 256 * (coff[3] as int) }

  /** Both magic numbers, and room for the section headers: 40 bytes each, from byte 76 on. */
  predicate HasHeaders(coff: seq<Byte>)
    ensures HasHeaders(coff) ==> |coff| >= 76
  {
    && |coff| >= 76 && coff[0] == 0x62 && coff[1] == 0x01 && coff[20] == 0x07 && coff[21] == 0x01
    && 76 + 40 * SectionCount(coff) <= |coff|
  }

  /** Section `i` of a file with headers. */
  predicate HasSection(coff: seq<Byte>, i: int) { HasHeaders(coff) && 0 <= i < SectionCount(coff) }

  /** The signed number in the four bytes from offset `p` of the header of section `i`. */
  function Field(coff: seq<Byte>, i: int, p: int): int
    requires HasSection(coff, i) && 0 <= p <= 36
  {
    var at := 76 + 40 * i + p;
    var n := coff[at] as int + 256 * (coff[at + 1] as int) + 65536 * (coff[at + 2] as int)
             + 16777216 * (coff[at + 3] as int);
    if n >= 0x8000_0000 then n - 0x1_0000_0000 else n
  }

  function Start(coff: seq<Byte>, i: int): int
    requires HasSection(coff, i)
  { Field(coff, i, 8) }

  function Size(coff: seq<Byte>, i: int): int
    requires HasSection(coff, i)
  { Field(coff, i, 16) }

  function InFile(coff: seq<Byte>, i: int): int
    requires HasSection(coff, i)
  { Field(coff, i, 20) }

  /** The name field of section `i` holds this name, terminated. */
  predicate Named(coff: seq<Byte>, i: int, name: string)
    requires HasSection(coff, i) && |name| < 8
  {
    && (forall k :: 0 <= k < |name| ==> coff[76 + 40 * i + k] == name[k] as int)
    && coff[76 + 40 * i + |name|] == 0
  }

  /** The sections whose bytes go into memory. */
  predicate Copied(coff: seq<Byte>, i: int)
    requires HasSection(coff, i)
  { Named(coff, i, ".text") || Named(coff, i, ".data") || Named(coff, i, ".rdata") }

  /** What the copied sections, or the `.bss` ones, among the first `n` amount to. */
  function Total(coff: seq<Byte>, n: int, copied: bool): int
    requires HasHeaders(coff) && 0 <= n <= SectionCount(coff)
  {
    if n == 0 then 0
    else
      Total(coff, n - 1, copied)
      + if copied && Copied(coff, n - 1) then Size(coff, n - 1)
        else if !copied && Named(coff, n - 1, ".bss") then Size(coff, n - 1) else 0
  }

  /** Where the `.bss` sections among the first `n` start. */
  function BssStart(coff: seq<Byte>, n: int): int
    requires HasHeaders(coff) && 0 <= n <= SectionCount(coff)
  {
    if n == 0 then 0
    else if Size(coff, n - 1) != 0 && Named(coff, n - 1, ".bss") && Total(coff, n - 1, false) == 0
    then Start(coff, n - 1) else BssStart(coff, n - 1)
  }

  // ---- the tables of the converter are those of the file ----

  lemma HeadersMean(coff: seq<Byte>)
    ensures HasTable(coff) <==> HasHeaders(coff)
    ensures HasTable(coff) ==> |Table(coff)| == SectionCount(coff)
  {
    if |coff| >= 76 {
      ShortMeans(coff, 0);
      ShortMeans(coff, 2);
      ShortMeans(coff, 20);
    }
    hide ShortAt;
  }

  lemma ShortMeans(coff: seq<Byte>, p: nat)
    requires p + 2 <= |coff|
    ensures ShortAt(false, coff, p) == coff[p] as int + 256 * (coff[p + 1] as int)
  {
    ShortOrder(false, coff[p], coff[p + 1]);
  }

  lemma SectionMeans(coff: seq<Byte>, i: int)
    requires HasTable(coff) && HasSection(coff, i) && i < |Table(coff)|
    ensures var s := Table(coff)[i];
            && |s.name| == 8 && s.paddr == Start(coff, i) && s.size == Size(coff, i) && s.scnptr == InFile(coff, i)
            && (KindOf(s.name) == Text <==> Named(coff, i, ".text"))
            && (KindOf(s.name) == Data <==> Named(coff, i, ".data"))
            && (KindOf(s.name) == ReadOnlyData <==> Named(coff, i, ".rdata"))
            && (KindOf(s.name) == Bss <==> Named(coff, i, ".bss"))
            && (IsCopied(KindOf(s.name)) <==> Copied(coff, i))
  {
    hide KindOf, Named, FieldAt, HasTable;
    var at := 76 + 40 * i;
    InsideFile(coff, i);
    NameMeans(coff, i);
    FieldMeans(coff, at + 8);
    FieldMeans(coff, at + 16);
    FieldMeans(coff, at + 20);
    hide HasHeaders;
    assert Table(coff)[i] == SectionAt(false, coff, i);
  }

  lemma InsideFile(coff: seq<Byte>, i: int)
    requires HasSection(coff, i)
    ensures 76 + 40 * i + 40 <= |coff|
  {
  }

  lemma FieldMeans(coff: seq<Byte>, p: nat)
    requires p + 4 <= |coff|
    ensures var n := coff[p] as int + 256 * (coff[p + 1] as int) + 65536 * (coff[p + 2] as int)
                     + 16777216 * (coff[p + 3] as int);
            FieldAt(false, coff, p) == if n >= 0x8000_0000 then n - 0x1_0000_0000 else n
  {
    WordOrder(false, coff[p], coff[p + 1], coff[p + 2], coff[p + 3]);
  }

  lemma NameMeans(coff: seq<Byte>, i: int)
    requires HasSection(coff, i) && 76 + 40 * i + 40 <= |coff|
    ensures var k := KindOf(coff[76 + 40 * i..76 + 40 * i + 8]);
            && (k == Text <==> Named(coff, i, ".text"))
            && (k == Data <==> Named(coff, i, ".data"))
            && (k == ReadOnlyData <==> Named(coff, i, ".rdata"))
            && (k == Bss <==> Named(coff, i, ".bss"))
  {
    NameMatches(coff, i, ".text", [46, 116, 101, 120, 116, 0]);
    NameMatches(coff, i, ".data", [46, 100, 97, 116, 97, 0]);
    NameMatches(coff, i, ".rdata", [46, 114, 100, 97, 116, 97, 0]);
    NameMatches(coff, i, ".bss", [46, 98, 115, 115, 0]);
    hide Named;
    var name := coff[76 + 40 * i..76 + 40 * i + 8];
    if name[..6] == [46, 116, 101, 120, 116, 0] { assert name[1] == 116; }
    if name[..6] == [46, 100, 97, 116, 97, 0] { assert name[1] == 100; }
    if name[..7] == [46, 114, 100, 97, 116, 97, 0] { assert name[1] == 114; }
    if name[..5] == [46, 98, 115, 115, 0] { assert name[1] == 98; }
  }

  lemma NameMatches(coff: seq<Byte>, i: int, name: string, bytes: seq<Byte>)
    requires HasSection(coff, i) && 76 + 40 * i + 40 <= |coff| && |bytes| == |name| + 1 <= 8
    requires bytes[|name|] == 0 && forall k :: 0 <= k < |name| ==> name[k] as int == bytes[k]
    ensures Named(coff, i, name) <==> coff[76 + 40 * i..76 + 40 * i + 8][..|bytes|] == bytes
  {
    var field := coff[76 + 40 * i..76 + 40 * i + 8];
    assert forall k :: 0 <= k < 8 ==> field[k] == coff[76 + 40 * i + k];
    if Named(coff, i, name) {
      assert field[..|bytes|] == bytes;
    }
    if field[..|bytes|] == bytes {
      assert forall k :: 0 <= k < |bytes| ==> field[k] == bytes[k];
    }
  }

  lemma {:induction false} CopiedTotal(coff: seq<Byte>, n: int)
    requires HasTable(coff) && HasHeaders(coff) && 0 <= n <= SectionCount(coff) == |Table(coff)|
    ensures BodySize(Table(coff), n) == Total(coff, n, true)
  {
    hide HasTable, HasHeaders, Copied, Named, Size, KindOf, Table, SectionCount;
    if n > 0 {
      CopiedTotal(coff, n - 1);
      SectionMeans(coff, n - 1);
      NotBoth(coff, n - 1);
    }
  }

  lemma {:induction false} BssTotal(coff: seq<Byte>, n: int)
    requires HasTable(coff) && HasHeaders(coff) && 0 <= n <= SectionCount(coff) == |Table(coff)|
    ensures BssOf(Table(coff), n).1 == Total(coff, n, false)
    ensures BssOf(Table(coff), n).0 == BssStart(coff, n)
  {
    hide HasTable, HasHeaders, Copied, Named, Size, Start, KindOf, Table, SectionCount;
    if n > 0 {
      BssTotal(coff, n - 1);
      SectionMeans(coff, n - 1);
      NotBoth(coff, n - 1);
    }
  }

  lemma NotBoth(coff: seq<Byte>, i: int)
    requires HasSection(coff, i)
    ensures !(Copied(coff, i) && Named(coff, i, ".bss"))
  {
    assert ".bss"[1] == 'b' && ".text"[1] == 't' && ".data"[1] == 'd' && ".rdata"[1] == 'r';
  }

  // ---- which files convert ----

  /** The converter takes section `i`: an empty one, one to be copied whose bytes exist, or a `.bss`. */
  predicate Takes(coff: seq<Byte>, i: int)
    requires HasSection(coff, i)
  {
    || Size(coff, i) == 0
    || (Copied(coff, i) && 0 < Size(coff, i) && 0 <= InFile(coff, i) && InFile(coff, i) + Size(coff, i) <= |coff|
        && -0x8000_0000 <= 52 + Total(coff, i + 1, true) < 0x8000_0000)
    || (Named(coff, i, ".bss")
        && !(Total(coff, i, false) != 0 && Start(coff, i) == BssStart(coff, i) + Total(coff, i, false)))
  }

  lemma TakesMeans(coff: seq<Byte>, i: int)
    requires HasTable(coff) && HasSection(coff, i) && |Table(coff)| == SectionCount(coff)
    ensures Accepts(coff, Table(coff), i) <==> Takes(coff, i)
  {
    hide HasTable, HasHeaders, Named, Copied, Size, InFile, Start, KindOf, Total, BssStart, BodySize, BssOf;
    hide Table, SectionCount;
    SectionMeans(coff, i);
    NotBoth(coff, i);
    CopiedTotal(coff, i + 1);
    BssTotal(coff, i);
  }

  /**
   The converter succeeds exactly on the files with headers each of whose sections it takes; so a non-empty section
   with any other name than ".text", ".data", ".rdata" and ".bss" makes it fail.
   */
  lemma ConvertibleMeans(coff: seq<Byte>)
    ensures Convertible(coff) <==> HasHeaders(coff) && forall i :: 0 <= i < SectionCount(coff) ==> Takes(coff, i)
    ensures Convertible(coff) ==>
              forall i :: HasSection(coff, i) && Size(coff, i) != 0 ==> Copied(coff, i) || Named(coff, i, ".bss")
  {
    HeadersMean(coff);
    hide HasTable, HasHeaders, Accepts, Takes;
    if HasTable(coff) {
      forall i | 0 <= i < SectionCount(coff)
        ensures Accepts(coff, Table(coff), i) <==> Takes(coff, i)
        ensures Takes(coff, i) && Size(coff, i) != 0 ==> Copied(coff, i) || Named(coff, i, ".bss")
      {
        TakesMeans(coff, i);
        if Takes(coff, i) { TakesNamed(coff, i); }
      }
    }
  }

  lemma TakesNamed(coff: seq<Byte>, i: int)
    requires HasSection(coff, i) && Takes(coff, i)
    ensures Size(coff, i) != 0 ==> Copied(coff, i) || Named(coff, i, ".bss")
  {
  }

  // ---- which files load ----

  /** A non-empty section whose bytes go to an address. */
  predicate Places(coff: seq<Byte>, i: int, va: int)
    requires HasSection(coff, i)
  { Copied(coff, i) && Start(coff, i) <= va < Start(coff, i) + Size(coff, i) }

  /** At most one non-empty section of each copied name, disjoint, filling the addresses from zero. */
  ghost predicate Fit(coff: seq<Byte>) {
    && HasHeaders(coff)
    && (forall i, j, name ::
          (&& HasSection(coff, i) && HasSection(coff, j) && name in [".text", ".data", ".rdata"]
           && Size(coff, i) != 0 && Size(coff, j) != 0 && Named(coff, i, name) && Named(coff, j, name)) ==> i == j)
    && (forall i, va :: HasSection(coff, i) && Places(coff, i, va) ==>
          0 <= va < Total(coff, SectionCount(coff), true))
    && (forall i, j, va :: HasSection(coff, i) && HasSection(coff, j) && i != j && Places(coff, i, va) ==>
          !Places(coff, j, va))
    && 0 <= Total(coff, SectionCount(coff), false) < 0x8000_0000
  }

  lemma PlacesMeans(coff: seq<Byte>, i: int, va: int)
    requires HasTable(coff) && HasSection(coff, i) && |Table(coff)| == SectionCount(coff)
    ensures Covers(Table(coff)[i], va) <==> Places(coff, i, va)
  {
    hide HasTable, HasHeaders, KindOf, Copied, Start, Size;
    SectionMeans(coff, i);
  }

  lemma FitHeaders(coff: seq<Byte>)
    requires Fit(coff)
    ensures HasHeaders(coff)
  {
  }

  lemma FitLoads(coff: seq<Byte>)
    requires Fit(coff)
    ensures Loadable(coff)
  {
    HeadersMean(coff);
    var t, n := Table(coff), SectionCount(coff);
    CopiedTotal(coff, n);
    BssTotal(coff, n);
    hide HasTable, HasHeaders, Covers, Places, Table, KindOf, Named, Size, BodySize, BssOf, Total;
    forall i, va | 0 <= i < |t| && Covers(t[i], va)
      ensures 0 <= va < BodySize(t, |t|)
      ensures forall j :: i < j < |t| ==> !Covers(t[j], va)
    {
      PlacesMeans(coff, i, va);
      forall j | i < j < |t|
        ensures !Covers(t[j], va)
      {
        PlacesMeans(coff, j, va);
      }
    }
    forall i, j, k | Is(t, i, k) && Is(t, j, k) && IsCopied(k)
      ensures i == j
    {
      SectionMeans(coff, i);
      SectionMeans(coff, j);
      var name := if k == Text then ".text" else if k == Data then ".data" else ".rdata";
      assert name in [".text", ".data", ".rdata"];
    }
  }

  // ---- what the program sees ----

  /**
   Each byte of each copied section of positive size is at its own address, and every address that no such section
   covers reads zero.
   */
  ghost predicate Shows(coff: seq<Byte>, pages: PageTable, mem: Memory) {
    && (forall i, k :: HasByte(coff, i, k) ==>
          SeesByte(coff, pages, mem, Start(coff, i) + k, InFile(coff, i) + k))
    && (forall va :: 0 <= va < |pages| * 128 && Uncovered(coff, va) ==>
          IsMapped(pages, va) && VirtualByte(pages, mem, va) == 0)
  }

  /** Byte `k` of a copied section. */
  predicate HasByte(coff: seq<Byte>, i: int, k: int) {
    HasSection(coff, i) && Copied(coff, i) && 0 <= k < Size(coff, i)
  }

  ghost predicate Uncovered(coff: seq<Byte>, va: int) { forall i :: HasSection(coff, i) ==> !Places(coff, i, va) }

  /** At address `va` the program sees byte `at` of the file. */
  predicate SeesByte(coff: seq<Byte>, pages: PageTable, mem: Memory, va: int, at: int) {
    0 <= at < |coff| && 0 <= va < |pages| * 128 && IsMapped(pages, va) && VirtualByte(pages, mem, va) == coff[at]
  }

  lemma SeenIsShown(coff: seq<Byte>, pages: PageTable, mem: Memory)
    requires Fit(coff) && Convertible(coff) && Sees(coff, pages, mem)
    requires Total(coff, SectionCount(coff), true) <= |pages| * 128
    ensures Shows(coff, pages, mem)
  {
    HeadersMean(coff);
    FitHeaders(coff);
    hide HasHeaders, Sees, Convertible, Fit, SeesByte, Uncovered, Places;
    forall i, k | HasByte(coff, i, k)
      ensures SeesByte(coff, pages, mem, Start(coff, i) + k, InFile(coff, i) + k)
    {
      CoveredShown(coff, pages, mem, i, k);
    }
    forall va | 0 <= va < |pages| * 128 && Uncovered(coff, va)
      ensures IsMapped(pages, va) && VirtualByte(pages, mem, va) == 0
    {
      UncoveredShown(coff, pages, mem, va);
    }
  }

  lemma CoveredShown(coff: seq<Byte>, pages: PageTable, mem: Memory, i: int, k: int)
    requires Fit(coff) && Convertible(coff) && Sees(coff, pages, mem)
    requires Total(coff, SectionCount(coff), true) <= |pages| * 128
    requires HasSection(coff, i) && Copied(coff, i) && 0 <= k < Size(coff, i)
    ensures SeesByte(coff, pages, mem, Start(coff, i) + k, InFile(coff, i) + k)
  {
    hide HasHeaders, HasTable, Fit, Sees, Convertible, Takes, Covers, KindOf, Copied, Size, Start, InFile, Total;
    hide Places;
    hide VirtualByte, IsMapped, Table;
    var va := Start(coff, i) + k;
    InPlace(coff, i, va);
    HeadersMean(coff);
    var t := Table(coff);
    OthersAway(coff, i, va);
    ConvertibleMeans(coff);
    TakesReads(coff, i);
    SectionMeans(coff, i);
    SeenCovered(coff, t, |t|, i, va);
    SeesAt(coff, pages, mem, va);
  }

  lemma SeesAt(coff: seq<Byte>, pages: PageTable, mem: Memory, va: int)
    requires Sees(coff, pages, mem) && 0 <= va < |pages| * 128
    ensures HasTable(coff)
    ensures IsMapped(pages, va) && VirtualByte(pages, mem, va) == SeenAt(coff, Table(coff), |Table(coff)|, va)
  {
  }

  lemma InPlace(coff: seq<Byte>, i: int, va: int)
    requires Fit(coff) && HasSection(coff, i) && Copied(coff, i)
    requires Start(coff, i) <= va < Start(coff, i) + Size(coff, i)
    ensures Places(coff, i, va) && HasHeaders(coff) && 0 <= va < Total(coff, SectionCount(coff), true)
  {
    hide HasHeaders, Copied, Start, Size, Total;
    assert Places(coff, i, va);
  }

  /** Only the one section covers the address. */
  lemma OthersAway(coff: seq<Byte>, i: int, va: int)
    requires Fit(coff) && HasTable(coff) && |Table(coff)| == SectionCount(coff)
    requires HasSection(coff, i) && Places(coff, i, va)
    ensures Covers(Table(coff)[i], va)
    ensures forall j :: 0 <= j < |Table(coff)| && j != i ==> !Covers(Table(coff)[j], va)
  {
    hide HasHeaders, HasTable, Covers, Places, Named, Size, Total, Table;
    PlacesMeans(coff, i, va);
    forall j | 0 <= j < |Table(coff)| && j != i
      ensures !Covers(Table(coff)[j], va)
    {
      PlacesMeans(coff, j, va);
    }
  }

  lemma TakesReads(coff: seq<Byte>, i: int)
    requires HasSection(coff, i) && Takes(coff, i) && Copied(coff, i) && Size(coff, i) > 0
    ensures 0 <= InFile(coff, i) && InFile(coff, i) + Size(coff, i) <= |coff|
  {
    NotBoth(coff, i);
  }

  lemma UncoveredShown(coff: seq<Byte>, pages: PageTable, mem: Memory, va: int)
    requires HasHeaders(coff) && Sees(coff, pages, mem) && 0 <= va < |pages| * 128
    requires Uncovered(coff, va)
    ensures IsMapped(pages, va) && VirtualByte(pages, mem, va) == 0
  {
    HeadersMean(coff);
    var t := Table(coff);
    forall j | 0 <= j < |t|
      ensures !Covers(t[j], va)
    {
      PlacesMeans(coff, j, va);
    }
    hide HasTable, HasHeaders, Covers, Places, Table;
    SeenUncovered(coff, t, |t|, va);
  }

  /** Pages for all the sections, the uninitialized data and a stack of 1024 bytes. */
  function PagesNeeded(coff: seq<Byte>): int
    requires HasHeaders(coff)
  {
    DivRoundUp(Total(coff, SectionCount(coff), true) + Total(coff, SectionCount(coff), false) + 1024, 128)
  }

  lemma PagesAgree(coff: seq<Byte>, file: seq<Byte>, h: NoffHeader)
    requires Loadable(coff) && HasHeaders(coff) && Converted(coff, file, h)
    ensures NumPages(h) == PagesNeeded(coff)
    ensures Total(coff, SectionCount(coff), true) <= PagesNeeded(coff) * 128
  {
    ConversionFits(coff, file, h);
    HeadersMean(coff);
    CopiedTotal(coff, SectionCount(coff));
    BssTotal(coff, SectionCount(coff));
    hide ReadHeader, HasTable, Table, Placed, BodySize, BssOf, DivRoundUp;
    var bss := BssOf(Table(coff), |Table(coff)|).1;
    QuotientIs(bss, TWO32, 0, bss);
  }

  /** Build a program and run it: the converter on one host, then the loader on another. */
  method ConvertAndLoad(converter: bool, loader: bool, coff: seq<Byte>, blank: NoffHeader,
                        mainMemory: array<Byte>, frames: Bitmap, space: AddrSpace) returns (ok: bool)
    requires IsHeader32(blank) && Fit(coff)
    requires mainMemory.Length == MEMORY_SIZE && frames.Valid() && frames.numBits == NUM_PHYS_PAGES
    requires mainMemory as object != frames.words as object
    modifies space, mainMemory, frames.words
    ensures ok <==>
              && (forall i :: 0 <= i < SectionCount(coff) ==> Takes(coff, i))
              && CountClear(old(frames.Value())) >= PagesNeeded(coff)
    ensures !ok ==> mainMemory[..] == old(mainMemory[..]) && frames.Value() == old(frames.Value())
    ensures ok ==> Claimed(space.pageTable, Marked(old(frames.Value())), Marked(frames.Value()))
    ensures ok ==> |space.pageTable| == PagesNeeded(coff)
    ensures ok ==> Shows(coff, space.pageTable, mainMemory[..])
  {
    hide Fit, Loadable, Convertible, Converted, HeaderFits, Holds, ReadHeader, Claimed, MemoryImage, SameOutside;
    hide HasTable, Table, PagesNeeded, NumPages, CountClear, HasHeaders, Takes, Shows, Sees;
    FitLoads(coff);
    ConvertibleMeans(coff);
    FitHeaders(coff);
    var r := Convert(converter, coff, blank);
    if r.Failed? {
      return false;
    }
    ghost var h := ReadHeader(false, r.file).value;
    ConvertedReads(coff, r.file, h);
    ConversionFits(coff, r.file, h);
    PagesAgree(coff, r.file, h);
    var header := ReadHeader(loader, r.file);
    ok := space.Load(mainMemory, frames, header.value, r.file);
    if ok {
      PipelineSees(coff, r.file, h, mainMemory[..], space.pageTable);
      SeenIsShown(coff, space.pageTable, mainMemory[..]);
    }
  }

  /** The program sees every section byte at its own address and zero elsewhere. */
  ghost predicate Sees(coff: seq<Byte>, pages: PageTable, mem: Memory) {
    HasTable(coff) && forall va :: 0 <= va < |pages| * PAGE_SIZE ==>
      IsMapped(pages, va) && VirtualByte(pages, mem, va) == SeenAt(coff, Table(coff), |Table(coff)|, va)
  }

  lemma PipelineSees(coff: seq<Byte>, file: seq<Byte>, h: NoffHeader, mem: Memory, pages: PageTable)
    requires Loadable(coff) && Converted(coff, file, h) && LoadedAs(h, file, mem, pages)
    ensures Sees(coff, pages, mem) && BodySize(Table(coff), |Table(coff)|) <= |pages| * PAGE_SIZE
  {
    ConversionFits(coff, file, h);
    LoadedPages(h, file, mem, pages);
    hide Converted, LoadedAs, HasTable, Table, IsMapped, SeenAt, BodySize, BssOf, Covers;
    forall va | 0 <= va < |pages| * PAGE_SIZE
      ensures IsMapped(pages, va) && VirtualByte(pages, mem, va) == SeenAt(coff, Table(coff), |Table(coff)|, va)
    {
      ImagePreserved(coff, file, false, h, mem, pages, va);
    }
  }

  lemma LoadedPages(h: NoffHeader, file: seq<Byte>, mem: Memory, pages: PageTable)
    requires LoadedAs(h, file, mem, pages)
    ensures SegmentBytes(h) <= |pages| * PAGE_SIZE
  {
    hide Buffer;
  }
}
