/**
 The file system's operations (filesys/filesys.cc): fetch the directory and the free map from their
 files, change them in memory, and write them back.
 */
module FileSystems {
  import opened Words
  import opened Bitmaps
  import opened OpenFiles
  import opened FileFormats
  import opened Directories
  import opened FileHeaders
  import opened SectorAccount

  /** Reading a system file in full and decoding it. */
  method FetchMap(file: OpenFile) returns (m: Bitmap)
    requires HeaderOk(file.hdr) && file.hdr.numBytes == FREE_MAP_FILE_SIZE
    ensures fresh(m) && fresh(m.words) && m.Valid() && m.numBits == NUM_SECTORS && m.words.Length == 32
    ensures m.words[..] == MapOf(Contents(file.disk.image, file.hdr))
  {
    hide MapOf, Bits;
    m := new Bitmap(NUM_SECTORS);
    var n, bytes := file.ReadAt(FREE_MAP_FILE_SIZE, 0);
    assert bytes == Contents(file.disk.image, file.hdr);
    m.Load(MapOf(bytes));
  }

  method FetchDirectory(file: OpenFile) returns (dir: Directory)
    requires HeaderOk(file.hdr) && file.hdr.numBytes == DIRECTORY_FILE_SIZE
    ensures fresh(dir) && dir.table == TableOf(Contents(file.disk.image, file.hdr)) && |dir.table| == NUM_DIR_ENTRIES
  {
    var n, bytes := file.ReadAt(DIRECTORY_FILE_SIZE, 0);
    assert bytes == Contents(file.disk.image, file.hdr);
    dir := new Directory(TableOf(bytes));
  }

  /** Overwriting a system file in full. */
  method WriteWhole(file: OpenFile, bytes: seq<Byte>)
    requires HeaderOk(file.hdr) && file.hdr.numBytes == |bytes| > 0
    modifies file.disk
    ensures Contents(file.disk.image, file.hdr) == bytes
    ensures forall s :: 0 <= s < NUM_SECTORS && s !in DataSectors(file.hdr) ==>
                file.disk.image[s] == old(file.disk.image)[s]
  {
    var n := file.WriteAt(bytes, |bytes|, 0);
    assert Splice(Contents(old(file.disk.image), file.hdr), 0, bytes[..n]) == bytes;
  }

  /** When `Create` succeeds: a new name, a free directory entry, and a sector to spare for the header. */
  ghost predicate CanCreate(d: Image, key: CString, size: int)
    requires Mounted(d)
  {
    && !Listed(TableAt(d), key)
    && (exists k :: 0 <= k < NUM_DIR_ENTRIES && !TableAt(d)[k].inUse)
    && CountClear(FreeBits(d)) > SectorsFor(size)
  }

  function EmptyTable(garbage: Table): (t: Table)
    ensures |t| == |garbage| && forall k :: 0 <= k < |t| ==> !t[k].inUse
  {
    seq(|garbage|, k requires 0 <= k < |garbage| => Entry(false, garbage[k].sector, garbage[k].name))
  }

  lemma SystemMarked(v: View)
    requires Consistent(v)
    ensures SystemOk(v) && EntriesOk(v) && SystemSectors(v) <= v.marked
  {
  }

  /** Format's allocations on an empty map: the two header sectors, then the data of the two system files. */
  method ReserveSystem(freeMap: Bitmap) returns (m: Header, r: Header)
    requires freeMap.Valid() && freeMap.numBits == NUM_SECTORS && freeMap.Value() == seq(NUM_SECTORS, _ => false)
    modifies freeMap.words
    ensures freeMap.Valid()
    ensures IsStorable(m) && HeaderOk(m) && m.numBytes == FREE_MAP_FILE_SIZE
    ensures IsStorable(r) && HeaderOk(r) && r.numBytes == DIRECTORY_FILE_SIZE
    ensures {FREE_MAP_SECTOR, DIRECTORY_SECTOR} !! DataSectors(m)
    ensures {FREE_MAP_SECTOR, DIRECTORY_SECTOR} !! DataSectors(r)
    ensures DataSectors(m) !! DataSectors(r)
    ensures Marked(freeMap.Value()) == {FREE_MAP_SECTOR, DIRECTORY_SECTOR} + DataSectors(m) + DataSectors(r)
  {
    MarkHeaders(freeMap);
    hide Bits, CountClear, Marked;
    var mapHdr := new FileHeader();
    var ok := mapHdr.Allocate(freeMap, FREE_MAP_FILE_SIZE);
    assert ok;
    m := Header(mapHdr.numBytes, mapHdr.numSectors, mapHdr.dataSectors);
    hide HeaderOk, IsStorable;
    var dirHdr := new FileHeader();
    ok := dirHdr.Allocate(freeMap, DIRECTORY_FILE_SIZE);
    assert ok;
    r := Header(dirHdr.numBytes, dirHdr.numSectors, dirHdr.dataSectors);
  }

  method MarkHeaders(freeMap: Bitmap)
    requires freeMap.Valid() && freeMap.numBits == NUM_SECTORS && freeMap.Value() == seq(NUM_SECTORS, _ => false)
    modifies freeMap.words
    ensures freeMap.Valid() && Marked(freeMap.Value()) == {FREE_MAP_SECTOR, DIRECTORY_SECTOR}
    ensures CountClear(freeMap.Value()) == NUM_SECTORS - 2
  {
    CountAll(NUM_SECTORS);
    ghost var b0 := freeMap.Value();
    assert Marked(b0) == {};
    CountSet(b0, FREE_MAP_SECTOR);
    MarkOne(b0, FREE_MAP_SECTOR);
    ghost var b1 := b0[FREE_MAP_SECTOR := true];
    CountSet(b1, DIRECTORY_SECTOR);
    MarkOne(b1, DIRECTORY_SECTOR);
    hide Bits, CountClear, Marked;
    freeMap.Mark(FREE_MAP_SECTOR);
    freeMap.Mark(DIRECTORY_SECTOR);
  }

  /**
   A new entry `k` with its header and marks, ready to be written out: all its sectors were free, and nothing
   else is new.
   */
  ghost predicate Allocated(was: Table, wasMarked: set<int>, table: Table, marked: set<int>,
                            key: CString, sector: int, h: Header, k: int) {
    && |was| == |table| == NUM_DIR_ENTRIES
    && 0 <= sector < NUM_SECTORS && sector !in wasMarked && HeaderOk(h) && IsStorable(h)
    && DataSectors(h) !! wasMarked && sector !in DataSectors(h) && marked == wasMarked + {sector} + DataSectors(h)
    && 0 <= k < NUM_DIR_ENTRIES && !was[k].inUse && table == was[k := table[k]]
    && table[k].inUse && table[k].sector == sector && EntryKey(table[k]) == key
  }

  /** The in-memory part of `Create`: a header sector, a directory entry, and the data sectors. */
  method AllocateFile(dir: Directory, freeMap: Bitmap, name: CString, size: int)
    returns (ok: bool, sector: int, h: Header, ghost k: int)
    requires freeMap.Valid() && freeMap.numBits == NUM_SECTORS && 0 <= size <= NUM_DIRECT * SECTOR_SIZE
    requires |dir.table| == NUM_DIR_ENTRIES && !Listed(dir.table, Key(name))
    modifies dir, freeMap.words
    ensures freeMap.Valid() && |dir.table| == NUM_DIR_ENTRIES
    ensures ok <==>
              && (exists j :: 0 <= j < NUM_DIR_ENTRIES && !old(dir.table)[j].inUse)
              && CountClear(old(freeMap.Value())) > SectorsFor(size)
    ensures ok ==> h.numBytes == size
    ensures ok ==> Allocated(old(dir.table), Marked(old(freeMap.Value())), dir.table, Marked(freeMap.Value()),
              Key(name), sector, h, k)
  {
    sector, h, k := -1, NO_HEADER, 0;
    ghost var bits := freeMap.Value();
    CountPositive(bits);
    sector := freeMap.FindAndSet();
    if sector == -1 {
      ok := false;
      return;
    }
    CountSet(bits, sector);
    MarkOne(bits, sector);
    assert sector !in Marked(bits);
    hide Bits, CountClear, Marked;
    ok, k := dir.Add(name, sector);
    if !ok {
      return;
    }
    var hdr := new FileHeader();
    ok := hdr.Allocate(freeMap, size);
    if ok {
      h := Header(hdr.numBytes, hdr.numSectors, hdr.dataSectors);
    }
  }

  lemma CommitDone(d: Image, d': Image, table: Table, words: seq<bv32>, key: CString, sector: int, h: Header, k: int)
    requires FsOk(d) && !Listed(TableAt(d), key) && |words| == 32
    requires Allocated(TableAt(d), Marked(FreeBits(d)), table, Marked(Bits(words, NUM_SECTORS)), key, sector, h, k)
    requires Added(d, d', ViewOf(d), k, table[k], h, words)
    ensures FsOk(d') && SameSystem(d, d') && Created(d, d', key, h.numBytes, FileInfo(sector, h))
  {
    hide Consistent, Mounted, HeaderOf, Bits, Marked, EntryKey, HeaderOk, IsStorable, DataSectors, Created, Added;
    hide Listed;
    CreateDone(d, d', ViewOf(d), k, table[k], h, words);
  }

  class FileSystem {
    const disk: Disk
    var freeMapFile: OpenFile
    var directoryFile: OpenFile

    ghost predicate Valid()
      reads this, disk
    {
      && freeMapFile.disk == disk && directoryFile.disk == disk && FsOk(disk.image)
      && freeMapFile.hdr == HeaderOf(disk.image[FREE_MAP_SECTOR])
      && directoryFile.hdr == HeaderOf(disk.image[DIRECTORY_SECTOR])
    }

    /** Format: reserve the two header sectors, allocate the two system files, and write everything out. */
    constructor Format(disk: Disk, garbage: Table)
      requires |garbage| == NUM_DIR_ENTRIES
      modifies disk
      ensures Valid() && this.disk == disk
      ensures Files(ViewOf(disk.image)) == map[] && ViewOf(disk.image).marked == SystemSectors(ViewOf(disk.image))
    {
      var freeMap := new Bitmap(NUM_SECTORS);
      var dir := new Directory(EmptyTable(garbage));
      var m, r := ReserveSystem(freeMap);
      disk.WriteSector(FREE_MAP_SECTOR, HeaderBytes(m));
      disk.WriteSector(DIRECTORY_SECTOR, HeaderBytes(r));
      HeaderRoundTrip(m);
      HeaderRoundTrip(r);
      hide HeaderOf, HeaderBytes, TableBytes, MapBytes, HeaderOk, DataSectors, IsStorable, Marked, Bits, Contents, FsOk;
      hide ViewOf, Files;
      this.disk := disk;
      freeMapFile := new OpenFile(disk, HeaderOf(disk.image[FREE_MAP_SECTOR]));
      directoryFile := new OpenFile(disk, HeaderOf(disk.image[DIRECTORY_SECTOR]));
      new;
      WriteBack(dir, freeMap, false);
      FormatReread(disk.image, m, r, dir.table, freeMap.words[..]);
    }

    /** Mount a disk that has been formatted before. */
    constructor Mount(disk: Disk)
      requires FsOk(disk.image)
      ensures Valid() && this.disk == disk
    {
      this.disk := disk;
      freeMapFile := new OpenFile(disk, HeaderOf(disk.image[FREE_MAP_SECTOR]));
      directoryFile := new OpenFile(disk, HeaderOf(disk.image[DIRECTORY_SECTOR]));
    }

    /**
     Write back the directory and the free map; the two files share no sector, so neither write disturbs the
     other.
     */
    method WriteBack(dir: Directory, freeMap: Bitmap, directoryFirst: bool)
      requires freeMapFile.disk == disk && directoryFile.disk == disk
      requires HeaderOk(freeMapFile.hdr) && freeMapFile.hdr.numBytes == FREE_MAP_FILE_SIZE
      requires HeaderOk(directoryFile.hdr) && directoryFile.hdr.numBytes == DIRECTORY_FILE_SIZE
      requires DataSectors(freeMapFile.hdr) !! DataSectors(directoryFile.hdr)
      requires |dir.table| == NUM_DIR_ENTRIES && freeMap.words.Length == 32
      modifies disk
      ensures Contents(disk.image, directoryFile.hdr) == TableBytes(dir.table)
      ensures Contents(disk.image, freeMapFile.hdr) == MapBytes(freeMap.words[..])
      ensures forall s :: 0 <= s < NUM_SECTORS
                          && s !in DataSectors(freeMapFile.hdr) && s !in DataSectors(directoryFile.hdr) ==>
                disk.image[s] == old(disk.image)[s]
    {
      if directoryFirst {
        WriteWhole(directoryFile, TableBytes(dir.table));
        ghost var mid := disk.image;
        WriteWhole(freeMapFile, MapBytes(freeMap.words[..]));
        OtherFileUnchanged(mid, disk.image, freeMapFile.hdr, directoryFile.hdr);
      } else {
        WriteWhole(freeMapFile, MapBytes(freeMap.words[..]));
        ghost var mid := disk.image;
        WriteWhole(directoryFile, TableBytes(dir.table));
        OtherFileUnchanged(mid, disk.image, directoryFile.hdr, freeMapFile.hdr);
      }
    }

    /**
     Creates a file exactly when its name is new, a directory entry is free, and one more sector is free
     than the data needs.  A failure changes nothing on disk; a success takes only sectors that were free.
     */
    method Create(name: CString, initialSize: int) returns (ok: bool, ghost f: FileInfo)
      requires Valid() && 0 <= initialSize <= NUM_DIRECT * SECTOR_SIZE
      modifies disk
      ensures Valid()
      ensures ok <==> CanCreate(old(disk.image), Key(name), initialSize)
      ensures !ok ==> disk.image == old(disk.image)
      ensures ok ==> Created(old(disk.image), disk.image, Key(name), initialSize, f)
    {
      f := FileInfo(-1, NO_HEADER);
      hide Bits, MapOf, TableOf, Created, CountClear, Listed;
      var dir, found, i := Lookup(name);
      if found != -1 {
        return false, f;
      }
      var freeMap := FetchMap(freeMapFile);
      ok, f := CreateNew(dir, freeMap, name, initialSize);
    }

    /** The rest of `Create`, once the name is known to be new. */
    method CreateNew(dir: Directory, freeMap: Bitmap, name: CString, initialSize: int)
      returns (ok: bool, ghost f: FileInfo)
      requires Valid() && 0 <= initialSize <= NUM_DIRECT * SECTOR_SIZE
      requires dir.table == TableAt(disk.image) && !Listed(dir.table, Key(name))
      requires freeMap.Valid() && freeMap.numBits == NUM_SECTORS && freeMap.words.Length == 32
      requires freeMap.Value() == FreeBits(disk.image)
      modifies disk, dir, freeMap.words
      ensures Valid()
      ensures ok <==> CanCreate(old(disk.image), Key(name), initialSize)
      ensures !ok ==> disk.image == old(disk.image)
      ensures ok ==> Created(old(disk.image), disk.image, Key(name), initialSize, f)
    {
      f := FileInfo(-1, NO_HEADER);
      hide Consistent, Mounted, HeaderOf, Bits, CountClear, SectorsFor, Listed, Marked, Created, Added, Allocated;
      hide ViewOf, TableAt, FreeBits;
      ghost var d := disk.image;
      var sector: int, hdr: Header;
      ghost var k: int;
      ok, sector, hdr, k := AllocateFile(dir, freeMap, name, initialSize);
      if ok {
        f := FileInfo(sector, hdr);
        CommitCreate(dir, freeMap, name, sector, hdr, k);
        CommitDone(d, disk.image, dir.table, freeMap.words[..], Key(name), sector, hdr, k);
      }
    }

    /** Flush a new file's header, the directory and the free map. */
    method CommitCreate(dir: Directory, freeMap: Bitmap, name: CString, sector: int, h: Header, ghost k: int)
      requires Valid() && |dir.table| == NUM_DIR_ENTRIES && freeMap.Valid() && freeMap.numBits == NUM_SECTORS
      requires freeMap.words.Length == 32
      requires Allocated(TableAt(disk.image), Marked(FreeBits(disk.image)), dir.table, Marked(freeMap.Value()),
                 Key(name), sector, h, k)
      modifies disk
      ensures Added(old(disk.image), disk.image, ViewOf(old(disk.image)), k, dir.table[k], h, freeMap.words[..])
    {
      ghost var d, v := disk.image, ViewOf(disk.image);
      SystemMarked(v);
      hide Consistent, Mounted, HeaderOf, HeaderBytes, Bits, Marked, TableBytes, MapBytes, HeaderOk, IsStorable;
      hide EntriesOk, TableAt, FreeBits, Added, EntryKey, DataSectors;
      disk.WriteSector(sector, HeaderBytes(h));
      ghost var d1 := disk.image;
      WriteBack(dir, freeMap, true);
      AddWritten(d, d1, disk.image, v, dir.table, freeMap.words[..], Key(name), sector, h, k);
    }

    /**
     Removes a file exactly when its name is listed, and then frees exactly its sectors; nothing is
     written outside the two system files.
     */
    method Remove(name: CString) returns (ok: bool)
      requires Valid()
      modifies disk
      ensures Valid()
      ensures ok <==> Listed(TableAt(old(disk.image)), Key(name))
      ensures !ok ==> disk.image == old(disk.image)
      ensures ok ==> Removed(old(disk.image), disk.image, Key(name))
    {
      hide Removed, Listed;
      var dir, sector, i := Lookup(name);
      if sector == -1 {
        return false;
      }
      RemoveListed(dir, name, sector, i);
      ok := true;
    }

    /** The rest of `Remove`, once the name has been found in entry `i`. */
    method RemoveListed(dir: Directory, name: CString, sector: int, ghost i: int)
      requires Valid() && dir.table == TableAt(disk.image) && UniqueNames(dir.table)
      requires 0 <= sector < NUM_SECTORS && 0 <= i < NUM_DIR_ENTRIES && dir.table[i].inUse
      requires EntryKey(dir.table[i]) == Key(name)
      requires sector == dir.table[i].sector && HeaderOf(disk.image[sector]) == ViewOf(disk.image).headers[i]
      requires EntriesOk(ViewOf(disk.image)) && FileSectors(ViewOf(disk.image), i) <= ViewOf(disk.image).marked
      modifies disk, dir
      ensures Valid() && Removed(old(disk.image), disk.image, Key(name))
    {
      hide Consistent, Mounted, HeaderOf, Bits, MapOf, TableOf, Marked, HeaderOk, EntryKey, DataSectors, Removed;
      hide SystemWritten, MapBytes, TableBytes, UniqueNames, SameSystem;
      ghost var d, v := disk.image, ViewOf(disk.image);
      SystemMarked(v);
      var bytes := disk.ReadSector(sector);
      var fileHdr := new FileHeader.FetchFrom(bytes);
      var freeMap := FetchMap(freeMapFile);
      FreeFile(dir, freeMap, name, sector, fileHdr, i);
      WriteBack(dir, freeMap, false);
      RemoveWritten(d, disk.image, v, i, dir.table, freeMap.words[..]);
    }

    /** Open a file by name: nothing when it is not listed. */
    method Open(name: CString) returns (file: OpenFile?)
      requires Valid()
      ensures file == null <==> Key(name) !in Files(ViewOf(disk.image))
      ensures file != null ==> fresh(file) && file.disk == disk && file.seekPosition == 0
      ensures file != null ==> file.hdr == Files(ViewOf(disk.image))[Key(name)].header
    {
      hide Files, Consistent, HeaderOf, TableOf;
      var dir, sector, i := Lookup(name);
      ListedIsFile(ViewOf(disk.image), Key(name));
      if sector < 0 {
        return null;
      }
      EntryAccount(ViewOf(disk.image), i);
      var bytes := disk.ReadSector(sector);
      file := new OpenFile(disk, HeaderOf(bytes));
    }

    /** Fetch the directory and look a name up in it. */
    method Lookup(name: CString) returns (dir: Directory, sector: int, ghost i: int)
      requires Valid()
      ensures fresh(dir) && dir.table == TableAt(disk.image)
      ensures sector == -1 <==> !Listed(dir.table, Key(name))
      ensures sector != -1 ==> 0 <= sector < NUM_SECTORS && 0 <= i < NUM_DIR_ENTRIES
      ensures sector != -1 ==>
                dir.table[i].inUse && EntryKey(dir.table[i]) == Key(name) && sector == dir.table[i].sector
      ensures sector != -1 ==> HeaderOf(disk.image[sector]) == ViewOf(disk.image).headers[i]
      ensures sector != -1 ==> EntriesOk(ViewOf(disk.image)) && UniqueNames(dir.table)
      ensures sector != -1 ==> FileSectors(ViewOf(disk.image), i) <= ViewOf(disk.image).marked
    {
      ghost var v := ViewOf(disk.image);
      dir := FetchDirectory(directoryFile);
      sector, i := dir.Find(name);
      if i >= 0 { EntryAccount(v, i); }
    }
  }

  lemma AddWritten(d: Image, d1: Image, d': Image, v: View, table: Table, words: seq<bv32>,
                   key: CString, sector: int, h: Header, k: int)
    requires SystemOk(v) && EntriesOk(v) && SystemSectors(v) <= v.marked && |words| == 32
    requires Allocated(v.table, v.marked, table, Marked(Bits(words, NUM_SECTORS)), key, sector, h, k)
    requires SystemWritten(d', v, table, words) && d1 == d[sector := HeaderBytes(h)]
    requires ChangedOnly(d1, d', v, {})
    ensures Added(d, d', v, k, table[k], h, words)
  {
    hide HeaderBytes, Bits, Marked, SystemWritten, HeaderOk, IsStorable, EntriesOk, DataSectors;
    assert ChangedOnly(d, d', v, {sector});
    assert sector !in DataSectors(v.mapHdr) && sector !in DataSectors(v.dirHdr);
  }

  lemma RemoveWritten(d: Image, d': Image, v: View, k: int, table: Table, words: seq<bv32>)
    requires FsOk(d) && v == ViewOf(d) && EntriesOk(v) && SystemOk(v) && 0 <= k < NUM_DIR_ENTRIES && v.table[k].inUse
    requires |words| == 32
    requires table == v.table[k := Entry(false, v.table[k].sector, v.table[k].name)]
    requires Contents(d', v.dirHdr) == TableBytes(table) && Contents(d', v.mapHdr) == MapBytes(words)
    requires forall s :: 0 <= s < NUM_SECTORS && s !in DataSectors(v.mapHdr) && s !in DataSectors(v.dirHdr) ==>
                 d'[s] == d[s]
    requires Marked(Bits(words, NUM_SECTORS)) == v.marked - DataSectors(v.headers[k]) - {v.table[k].sector}
    ensures FsOk(d') && SameSystem(d, d') && Removed(d, d', EntryKey(v.table[k]))
  {
    hide Consistent, Mounted, Bits, Marked, HeaderOf, EntryKey, TableBytes, MapBytes, DataSectors, HeaderOk, Removed;
    assert FileSectors(v, k) == {v.table[k].sector} + DataSectors(v.headers[k]);
    assert Marked(Bits(words, NUM_SECTORS)) == v.marked - FileSectors(v, k);
    RemoveDone(d, d', v, k, words);
  }

  /** The in-memory part of `Remove`: clear the data sectors, the header sector, and the directory entry. */
  method FreeFile(dir: Directory, freeMap: Bitmap, name: CString, sector: int, fileHdr: FileHeader, ghost i: int)
    requires freeMap.Valid() && freeMap.numBits == NUM_SECTORS && UniqueNames(dir.table)
    requires 0 <= i < |dir.table| && dir.table[i].inUse && EntryKey(dir.table[i]) == Key(name)
    requires HeaderOk(fileHdr.Value()) && 0 <= sector < NUM_SECTORS
    requires DataSectors(fileHdr.Value()) + {sector} <= Marked(freeMap.Value())
    modifies dir, freeMap.words
    ensures freeMap.Valid()
    ensures Marked(freeMap.Value()) == Marked(old(freeMap.Value())) - DataSectors(fileHdr.Value()) - {sector}
    ensures dir.table == old(dir.table)[i := Entry(false, old(dir.table)[i].sector, old(dir.table)[i].name)]
  {
    fileHdr.Deallocate(freeMap);
    MarkOne(freeMap.Value(), sector);
    freeMap.Clear(sector);
    hide Bits, Marked, EntryKey;
    var removed, j := dir.Remove(name);
    assert i == j;
  }

  lemma {:induction false} CountAll(n: nat)
    ensures CountClear(seq(n, _ => false)) == n
  {
    if n > 0 {
      CountAll(n - 1);
      assert seq(n, _ => false)[..n - 1] == seq(n - 1, _ => false);
    }
  }
}
