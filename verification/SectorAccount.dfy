/**
 What the bytes of a formatted disk mean, and the one account of every sector that the file system
 keeps (filesys/filesys.cc): the free map and the directory live in files of the very disk they describe.
 */
module SectorAccount {
  import opened Words
  import opened Bitmaps
  import opened OpenFiles
  import opened FileFormats
  import opened Directories
  import opened FileHeaders

  const FREE_MAP_SECTOR: int := 0
  const DIRECTORY_SECTOR: int := 1
  const FREE_MAP_FILE_SIZE: int := 128
  const NUM_DIR_ENTRIES: int := 10
  const DIRECTORY_FILE_SIZE: int := 200

  const NO_HEADER: Header := Header(0, 0, [])

  /** What the bytes of a formatted disk mean: `headers[k]` is the header of the file in directory entry `k`. */
  datatype View = View(mapHdr: Header, dirHdr: Header, marked: set<int>, table: Table, headers: seq<Header>)

  predicate Mounted(d: Image) {
    var m, r := HeaderOf(d[FREE_MAP_SECTOR]), HeaderOf(d[DIRECTORY_SECTOR]);
    HeaderOk(m) && m.numBytes == FREE_MAP_FILE_SIZE && HeaderOk(r) && r.numBytes == DIRECTORY_FILE_SIZE
  }

  ghost function FreeBits(d: Image): (b: seq<bool>)
    requires Mounted(d)
    ensures |b| == NUM_SECTORS
  { Bits(MapOf(Contents(d, HeaderOf(d[FREE_MAP_SECTOR]))), NUM_SECTORS) }

  function TableAt(d: Image): (t: Table)
    requires Mounted(d)
    ensures |t| == NUM_DIR_ENTRIES
  { TableOf(Contents(d, HeaderOf(d[DIRECTORY_SECTOR]))) }

  function HeaderAt(d: Image, e: Entry): Header {
    if e.inUse && 0 <= e.sector < NUM_SECTORS then HeaderOf(d[e.sector]) else NO_HEADER
  }

  ghost function ViewOf(d: Image): View
    requires Mounted(d)
  {
    View(HeaderOf(d[FREE_MAP_SECTOR]), HeaderOf(d[DIRECTORY_SECTOR]), Marked(FreeBits(d)), TableAt(d),
         seq(NUM_DIR_ENTRIES, k requires 0 <= k < NUM_DIR_ENTRIES => HeaderAt(d, TableAt(d)[k])))
  }

  /** The sectors of the two files the system keeps open, with their headers. */
  function SystemSectors(v: View): set<int>
    requires HeaderOk(v.mapHdr) && HeaderOk(v.dirHdr)
  {
    {FREE_MAP_SECTOR, DIRECTORY_SECTOR} + DataSectors(v.mapHdr) + DataSectors(v.dirHdr)
  }

  predicate EntriesOk(v: View) {
    && |v.table| == NUM_DIR_ENTRIES == |v.headers|
    && forall k :: 0 <= k < NUM_DIR_ENTRIES && v.table[k].inUse ==>
         HeaderOk(v.headers[k]) && 0 <= v.table[k].sector < NUM_SECTORS
           && v.table[k].sector !in DataSectors(v.headers[k])
  }

  /** The sectors of the file in entry `k`: its header's and its data's. */
  function FileSectors(v: View, k: int): set<int>
    requires EntriesOk(v) && 0 <= k < NUM_DIR_ENTRIES
  {
    if v.table[k].inUse then {v.table[k].sector} + DataSectors(v.headers[k]) else {}
  }

  predicate SystemOk(v: View) {
    && HeaderOk(v.mapHdr) && v.mapHdr.numBytes == FREE_MAP_FILE_SIZE
    && HeaderOk(v.dirHdr) && v.dirHdr.numBytes == DIRECTORY_FILE_SIZE
    && FREE_MAP_SECTOR !in DataSectors(v.mapHdr) + DataSectors(v.dirHdr)
    && DIRECTORY_SECTOR !in DataSectors(v.mapHdr) + DataSectors(v.dirHdr)
    && DataSectors(v.mapHdr) !! DataSectors(v.dirHdr)
  }

  /**
   Sector accounting: the system's sectors and those of every listed file are pairwise disjoint,
   the marked bits are exactly their union, and listed names differ in their first nine characters.
   */
  ghost predicate Consistent(v: View) {
    && SystemOk(v) && EntriesOk(v) && UniqueNames(v.table)
    && (forall k :: 0 <= k < NUM_DIR_ENTRIES ==> FileSectors(v, k) !! SystemSectors(v))
    && (forall j, k :: 0 <= j < k < NUM_DIR_ENTRIES ==> FileSectors(v, j) !! FileSectors(v, k))
    && (forall s :: s in v.marked <==>
          s in SystemSectors(v) || exists k :: 0 <= k < NUM_DIR_ENTRIES && s in FileSectors(v, k))
  }

  ghost predicate FsOk(d: Image) {
    Mounted(d) && Consistent(ViewOf(d))
  }

  /** A file: the sector of its header, and the header. */
  datatype FileInfo = FileInfo(sector: int, header: Header)

  function SectorsOf(f: FileInfo): set<int>
    requires HeaderOk(f.header)
  { {f.sector} + DataSectors(f.header) }

  /** The files by name. */
  ghost function Files(v: View): map<CString, FileInfo>
    requires Consistent(v)
  {
    NameMap(v.table, v.headers)
  }

  ghost function NameMap(t: Table, hs: seq<Header>): map<CString, FileInfo>
    requires UniqueNames(t) && |t| == |hs|
  {
    map k | 0 <= k < |t| && t[k].inUse :: EntryKey(t[k]) := FileInfo(t[k].sector, hs[k])
  }

  // ---- what creating and removing do to the account ----

  ghost function ViewAdd(v: View, k: int, e: Entry, h: Header): View
    requires EntriesOk(v) && 0 <= k < NUM_DIR_ENTRIES && EntryOk(e) && HeaderOk(h)
  {
    View(v.mapHdr, v.dirHdr, v.marked + {e.sector} + DataSectors(h), v.table[k := e], v.headers[k := h])
  }

  lemma AddKeeps(v: View, k: int, e: Entry, h: Header)
    requires Consistent(v) && 0 <= k < NUM_DIR_ENTRIES && !v.table[k].inUse
    requires EntryOk(e) && e.inUse && !Listed(v.table, EntryKey(e))
    requires HeaderOk(h) && 0 <= e.sector < NUM_SECTORS && e.sector !in v.marked && e.sector !in DataSectors(h)
    requires DataSectors(h) !! v.marked
    ensures Consistent(ViewAdd(v, k, e, h))
    ensures FileSectors(ViewAdd(v, k, e, h), k) == {e.sector} + DataSectors(h)
    ensures Files(ViewAdd(v, k, e, h)) == Files(v)[EntryKey(e) := FileInfo(e.sector, h)]
  {
    var v' := ViewAdd(v, k, e, h);
    assert EntriesOk(v');
    forall j | 0 <= j < NUM_DIR_ENTRIES
      ensures FileSectors(v', j) == if j == k then {e.sector} + DataSectors(h) else FileSectors(v, j)
      ensures FileSectors(v, j) <= v.marked
    {
    }
    assert SystemSectors(v') == SystemSectors(v) <= v.marked;
    assert FileSectors(v, k) == {};
    hide Listed;
    forall s
      ensures s in v'.marked <==>
                s in SystemSectors(v') || exists j :: 0 <= j < NUM_DIR_ENTRIES && s in FileSectors(v', j)
    {
      if s in {e.sector} + DataSectors(h) {
        assert s in FileSectors(v', k);
      }
      if j :| 0 <= j < NUM_DIR_ENTRIES && s in FileSectors(v, j) {
        assert s in FileSectors(v', j);
      }
    }
    NewNameUnique(v.table, k, e);
    AddFiles(v.table, v.headers, k, e, h);
  }

  /** The names of a table, and what the map says of each. */
  lemma NameKeys(t: Table, hs: seq<Header>, key: CString)
    requires UniqueNames(t) && |t| == |hs|
    ensures key in NameMap(t, hs) <==> Listed(t, key)
  {
    hide EntryKey;
  }

  /** One entry changed: the other entries mean what they meant. */
  lemma OtherName(t: Table, hs: seq<Header>, k: int, e: Entry, h: Header, key: CString)
    requires UniqueNames(t) && |t| == |hs| && 0 <= k < |t| && EntryOk(e) && UniqueNames(t[k := e])
    requires t[k].inUse ==> EntryKey(t[k]) != key
    requires e.inUse ==> EntryKey(e) != key
    ensures key in NameMap(t[k := e], hs[k := h]) <==> key in NameMap(t, hs)
    ensures key in NameMap(t, hs) ==> NameMap(t[k := e], hs[k := h])[key] == NameMap(t, hs)[key]
  {
    hide EntryKey, NameMap, UniqueNames;
    var t', hs' := t[k := e], hs[k := h];
    NameKeys(t, hs, key);
    NameKeys(t', hs', key);
    if Listed(t, key) {
      var j :| 0 <= j < |t| && t[j].inUse && EntryKey(t[j]) == key;
      assert j != k && t'[j] == t[j] && hs'[j] == hs[j];
      EntryName(t, hs, j);
      EntryName(t', hs', j);
    } else {
      assert forall j :: 0 <= j < |t'| && j != k ==> t'[j] == t[j];
    }
  }

  lemma AddFiles(t: Table, hs: seq<Header>, k: int, e: Entry, h: Header)
    requires UniqueNames(t) && |t| == |hs| && 0 <= k < |t| && !t[k].inUse && EntryOk(e) && e.inUse
    requires UniqueNames(t[k := e])
    ensures NameMap(t[k := e], hs[k := h]) == NameMap(t, hs)[EntryKey(e) := FileInfo(e.sector, h)]
  {
    hide EntryKey, NameMap, UniqueNames;
    var m, m' := NameMap(t, hs), NameMap(t[k := e], hs[k := h]);
    EntryName(t[k := e], hs[k := h], k);
    forall key | key != EntryKey(e)
      ensures key in m' <==> key in m
      ensures key in m ==> m'[key] == m[key]
    {
      OtherName(t, hs, k, e, h, key);
    }
  }

  ghost function ViewDrop(v: View, k: int): View
    requires EntriesOk(v) && 0 <= k < NUM_DIR_ENTRIES
  {
    View(v.mapHdr, v.dirHdr, v.marked - FileSectors(v, k),
         v.table[k := Entry(false, v.table[k].sector, v.table[k].name)], v.headers[k := NO_HEADER])
  }

  lemma DropKeeps(v: View, k: int)
    requires Consistent(v) && 0 <= k < NUM_DIR_ENTRIES && v.table[k].inUse
    ensures Consistent(ViewDrop(v, k))
    ensures Files(ViewDrop(v, k)) == Files(v) - {EntryKey(v.table[k])}
  {
    var v' := ViewDrop(v, k);
    assert EntriesOk(v');
    forall j | 0 <= j < NUM_DIR_ENTRIES
      ensures FileSectors(v', j) == if j == k then {} else FileSectors(v, j)
      ensures j != k ==> FileSectors(v, j) !! FileSectors(v, k)
    {
    }
    assert SystemSectors(v') == SystemSectors(v);
    forall s
      ensures s in v'.marked <==>
                s in SystemSectors(v') || exists j :: 0 <= j < NUM_DIR_ENTRIES && s in FileSectors(v', j)
    {
      if j :| 0 <= j < NUM_DIR_ENTRIES && s in FileSectors(v, j) {
        assert j != k ==> s in FileSectors(v', j);
      }
    }
    assert UniqueNames(v'.table) by { DropNames(v.table, k); }
    DropFiles(v.table, v.headers, k, NO_HEADER);
  }

  lemma DropNames(t: Table, k: int)
    requires UniqueNames(t) && 0 <= k < |t|
    ensures UniqueNames(t[k := Entry(false, t[k].sector, t[k].name)])
  {
    hide EntryKey;
  }

  lemma DropFiles(t: Table, hs: seq<Header>, k: int, h: Header)
    requires UniqueNames(t) && |t| == |hs| && 0 <= k < |t| && t[k].inUse
    requires UniqueNames(t[k := Entry(false, t[k].sector, t[k].name)])
    ensures NameMap(t[k := Entry(false, t[k].sector, t[k].name)], hs[k := h]) == NameMap(t, hs) - {EntryKey(t[k])}
  {
    hide EntryKey, NameMap, UniqueNames;
    var e := Entry(false, t[k].sector, t[k].name);
    var m, m' := NameMap(t, hs), NameMap(t[k := e], hs[k := h]);
    forall key | key != EntryKey(t[k])
      ensures key in m' <==> key in m
      ensures key in m ==> m'[key] == m[key]
    {
      OtherName(t, hs, k, e, h, key);
    }
    NameKeys(t[k := e], hs[k := h], EntryKey(t[k]));
    DroppedName(t, k);
  }

  lemma DroppedName(t: Table, k: int)
    requires UniqueNames(t) && 0 <= k < |t| && t[k].inUse
    ensures !Listed(t[k := Entry(false, t[k].sector, t[k].name)], EntryKey(t[k]))
  {
    hide EntryKey;
    var t' := t[k := Entry(false, t[k].sector, t[k].name)];
    assert forall j :: 0 <= j < |t'| && j != k ==> t'[j] == t[j];
  }

  // ---- what the bytes written mean ----

  /** `d'` differs from `d` at most in the data of the two system files and in sectors of `extra`. */
  predicate ChangedOnly(d: Image, d': Image, v: View, extra: set<int>)
    requires HeaderOk(v.mapHdr) && HeaderOk(v.dirHdr)
  {
    forall s :: 0 <= s < NUM_SECTORS && s !in DataSectors(v.mapHdr) && s !in DataSectors(v.dirHdr) && s !in extra ==>
      d'[s] == d[s]
  }

  /** The system files have been given these contents. */
  predicate SystemWritten(d': Image, v: View, table: Table, words: seq<bv32>)
    requires HeaderOk(v.mapHdr) && HeaderOk(v.dirHdr)
  {
    && |table| == NUM_DIR_ENTRIES && |words| == 32
    && Contents(d', v.dirHdr) == TableBytes(table) && Contents(d', v.mapHdr) == MapBytes(words)
  }

  lemma SystemReread(d: Image, d': Image, table: Table, words: seq<bv32>, extra: set<int>)
    requires FsOk(d) && ChangedOnly(d, d', ViewOf(d), extra) && SystemWritten(d', ViewOf(d), table, words)
    requires FREE_MAP_SECTOR !in extra && DIRECTORY_SECTOR !in extra
    ensures Mounted(d') && TableAt(d') == table && FreeBits(d') == Bits(words, NUM_SECTORS)
    ensures ViewOf(d').mapHdr == ViewOf(d).mapHdr && ViewOf(d').dirHdr == ViewOf(d).dirHdr
  {
    hide HeaderOf, TableBytes, MapBytes, TableOf, MapOf, Bits, HeaderOk;
    TableBack(table);
    MapRoundTrip(words);
    assert d'[FREE_MAP_SECTOR] == d[FREE_MAP_SECTOR] && d'[DIRECTORY_SECTOR] == d[DIRECTORY_SECTOR];
  }

  /** What a successful `Create` writes. */
  ghost predicate Added(d: Image, d': Image, v: View, k: int, e: Entry, h: Header, words: seq<bv32>) {
    && HeaderOk(v.mapHdr) && HeaderOk(v.dirHdr) && EntriesOk(v)
    && 0 <= k < NUM_DIR_ENTRIES && EntryOk(e) && e.inUse && IsStorable(h) && HeaderOk(h)
    && 0 <= e.sector < NUM_SECTORS && e.sector !in v.marked && d'[e.sector] == HeaderBytes(h)
    && ChangedOnly(d, d', v, {e.sector}) && SystemWritten(d', v, v.table[k := e], words)
    && Marked(Bits(words, NUM_SECTORS)) == v.marked + {e.sector} + DataSectors(h)
  }

  /** The bytes a successful `Create` leaves are the account with the file added. */
  lemma AddReread(d: Image, d': Image, v: View, k: int, e: Entry, h: Header, words: seq<bv32>)
    requires FsOk(d) && v == ViewOf(d) && Added(d, d', v, k, e, h, words)
    ensures Mounted(d') && ViewOf(d') == ViewAdd(v, k, e, h)
  {
    hide ViewOf, Mounted, Consistent, Marked, Bits, HeaderOf, TableAt, FreeBits, ViewAdd, HeaderAt, EntriesOk, HeaderOk;
    hide ChangedOnly, SystemWritten, IsStorable, EntryOk;
    AddRereadSystem(d, d', v, k, e, h, words);
    AddRereadHeaders(d, d', v, k, e, h, words);
    ViewIs(d', ViewAdd(v, k, e, h));
  }

  lemma AddRereadHeaders(d: Image, d': Image, v: View, k: int, e: Entry, h: Header, words: seq<bv32>)
    requires FsOk(d) && v == ViewOf(d) && Added(d, d', v, k, e, h, words)
    ensures var v' := ViewAdd(v, k, e, h);
            forall j :: 0 <= j < NUM_DIR_ENTRIES ==> HeaderAt(d', v'.table[j]) == v'.headers[j]
  {
    hide ViewOf, Mounted, Consistent, Marked, Bits, HeaderOf, HeaderBytes, TableAt, FreeBits, HeaderOk, SystemWritten;
    hide DataSectors;
    HeaderRoundTrip(h);
    assert HeaderAt(d', e) == h;
    var v' := ViewAdd(v, k, e, h);
    hide HeaderAt, ChangedOnly;
    forall j | 0 <= j < NUM_DIR_ENTRIES
      ensures HeaderAt(d', v'.table[j]) == v'.headers[j]
    {
      if j != k { HeaderKept(d, d', v, {e.sector}, j); }
    }
  }

  /** A view is known by its parts. */
  lemma ViewIs(d: Image, v: View)
    requires Mounted(d) && HeaderOf(d[FREE_MAP_SECTOR]) == v.mapHdr && HeaderOf(d[DIRECTORY_SECTOR]) == v.dirHdr
    requires Marked(FreeBits(d)) == v.marked && TableAt(d) == v.table && |v.headers| == NUM_DIR_ENTRIES
    requires forall j :: 0 <= j < NUM_DIR_ENTRIES ==> HeaderAt(d, v.table[j]) == v.headers[j]
    ensures ViewOf(d) == v
  {
    hide Mounted, HeaderOf, Marked, FreeBits, TableAt, HeaderAt;
    assert ViewOf(d).headers == v.headers;
  }

  lemma AddRereadSystem(d: Image, d': Image, v: View, k: int, e: Entry, h: Header, words: seq<bv32>)
    requires FsOk(d) && v == ViewOf(d) && Added(d, d', v, k, e, h, words)
    ensures var v' := ViewAdd(v, k, e, h);
            && Mounted(d') && TableAt(d') == v'.table && Marked(FreeBits(d')) == v'.marked
            && |v'.headers| == NUM_DIR_ENTRIES
            && HeaderOf(d'[FREE_MAP_SECTOR]) == v'.mapHdr && HeaderOf(d'[DIRECTORY_SECTOR]) == v'.dirHdr
  {
    hide HeaderOf, HeaderBytes, Bits, TableOf, MapOf, Marked, SystemWritten, HeaderOk;
    assert FREE_MAP_SECTOR in SystemSectors(v) && DIRECTORY_SECTOR in SystemSectors(v);
    SystemReread(d, d', v.table[k := e], words, {e.sector});
  }

  /** Sectors of other files are not among those written. */
  lemma HeaderKept(d: Image, d': Image, v: View, extra: set<int>, j: int)
    requires FsOk(d) && v == ViewOf(d) && ChangedOnly(d, d', v, extra) && extra !! v.marked && 0 <= j < NUM_DIR_ENTRIES
    ensures HeaderAt(d', v.table[j]) == v.headers[j]
  {
    hide HeaderOf, Mounted, DataSectors, HeaderOk, TableAt;
    if v.table[j].inUse {
      OwnSector(v, j);
    }
    hide Consistent;
  }

  lemma OwnSector(v: View, j: int)
    requires Consistent(v) && 0 <= j < NUM_DIR_ENTRIES && v.table[j].inUse
    ensures v.table[j].sector in v.marked && v.table[j].sector !in SystemSectors(v)
  {
    assert v.table[j].sector in FileSectors(v, j);
  }

  /** The bytes a successful `Remove` leaves are the account with the file dropped. */
  lemma DropReread(d: Image, d': Image, k: int, words: seq<bv32>)
    requires FsOk(d) && 0 <= k < NUM_DIR_ENTRIES && ViewOf(d).table[k].inUse
    requires var v := ViewOf(d);
             && ChangedOnly(d, d', v, {}) && SystemWritten(d', v, ViewDrop(v, k).table, words)
             && Marked(Bits(words, NUM_SECTORS)) == v.marked - FileSectors(v, k)
    ensures Mounted(d') && ViewOf(d') == ViewDrop(ViewOf(d), k)
  {
    var v := ViewOf(d);
    SystemReread(d, d', ViewDrop(v, k).table, words, {});
    assert v.mapHdr == HeaderOf(d'[FREE_MAP_SECTOR]) && v.dirHdr == HeaderOf(d'[DIRECTORY_SECTOR]);
    hide ViewOf, Mounted, Consistent, Marked, Bits, SystemWritten, HeaderOf, HeaderOk, TableAt, FreeBits, DataSectors;
    hide ChangedOnly;
    var v' := ViewDrop(v, k);
    forall j | 0 <= j < NUM_DIR_ENTRIES
      ensures HeaderAt(d', v'.table[j]) == v'.headers[j]
    {
      if j != k { HeaderKept(d, d', v, {}, j); }
    }
    ViewIs(d', v');
  }

  /** What formatting writes. */
  ghost predicate Formatted(d: Image, m: Header, r: Header, table: Table, words: seq<bv32>) {
    && IsStorable(m) && HeaderOk(m) && m.numBytes == FREE_MAP_FILE_SIZE && d[FREE_MAP_SECTOR] == HeaderBytes(m)
    && IsStorable(r) && HeaderOk(r) && r.numBytes == DIRECTORY_FILE_SIZE && d[DIRECTORY_SECTOR] == HeaderBytes(r)
    && {FREE_MAP_SECTOR, DIRECTORY_SECTOR} !! DataSectors(m) && {FREE_MAP_SECTOR, DIRECTORY_SECTOR} !! DataSectors(r)
    && DataSectors(m) !! DataSectors(r)
    && |table| == NUM_DIR_ENTRIES && |words| == 32
    && Contents(d, r) == TableBytes(table) && Contents(d, m) == MapBytes(words)
    && (forall k :: 0 <= k < NUM_DIR_ENTRIES ==> !table[k].inUse)
    && Marked(Bits(words, NUM_SECTORS)) == {FREE_MAP_SECTOR, DIRECTORY_SECTOR} + DataSectors(m) + DataSectors(r)
  }

  lemma FormatReread(d: Image, m: Header, r: Header, table: Table, words: seq<bv32>)
    requires Formatted(d, m, r, table, words)
    ensures FsOk(d) && ViewOf(d).mapHdr == m && ViewOf(d).dirHdr == r
    ensures Files(ViewOf(d)) == map[] && ViewOf(d).marked == SystemSectors(ViewOf(d))
  {
    var system := {FREE_MAP_SECTOR, DIRECTORY_SECTOR} + DataSectors(m) + DataSectors(r);
    var v := View(m, r, system, table, seq(NUM_DIR_ENTRIES, _ => NO_HEADER));
    FormatView(d, v, words);
    FormattedConsistent(v);
  }

  lemma FormatView(d: Image, v: View, words: seq<bv32>)
    requires Formatted(d, v.mapHdr, v.dirHdr, v.table, words)
    requires v.marked == {FREE_MAP_SECTOR, DIRECTORY_SECTOR} + DataSectors(v.mapHdr) + DataSectors(v.dirHdr)
    requires v.headers == seq(NUM_DIR_ENTRIES, _ => NO_HEADER)
    ensures Mounted(d) && ViewOf(d) == v
  {
    hide HeaderOf, HeaderBytes, TableOf, TableBytes, MapOf, MapBytes, Bits, HeaderOk, DataSectors, Contents, IsStorable;
    hide Marked;
    HeaderRoundTrip(v.mapHdr);
    HeaderRoundTrip(v.dirHdr);
    TableBack(v.table);
    MapRoundTrip(words);
    ViewIs(d, v);
  }

  lemma FormattedConsistent(v: View)
    requires SystemOk(v) && |v.table| == NUM_DIR_ENTRIES == |v.headers| && v.marked == SystemSectors(v)
    requires forall k :: 0 <= k < NUM_DIR_ENTRIES ==> !v.table[k].inUse
    ensures Consistent(v) && Files(v) == map[]
  {
    assert EntriesOk(v);
    assert forall k :: 0 <= k < NUM_DIR_ENTRIES ==> FileSectors(v, k) == {};
  }

  // ---- what callers see ----

  /** A file of `size` bytes has come into being under `key`, on sectors that were free; no other file has changed. */
  ghost predicate Created(d: Image, d': Image, key: CString, size: int, f: FileInfo) {
    && FsOk(d) && FsOk(d') && HeaderOk(f.header) && f.header.numBytes == size && f.sector !in DataSectors(f.header)
    && SectorsOf(f) !! ViewOf(d).marked && ViewOf(d').marked == ViewOf(d).marked + SectorsOf(f)
    && Files(ViewOf(d')) == Files(ViewOf(d))[key := f]
    && ChangedOnly(d, d', ViewOf(d), {f.sector})
  }

  /** The file under `key` is gone, and exactly its sectors have become free; no other file has changed. */
  ghost predicate Removed(d: Image, d': Image, key: CString) {
    && FsOk(d) && FsOk(d') && key in Files(ViewOf(d)) && HeaderOk(Files(ViewOf(d))[key].header)
    && SectorsOf(Files(ViewOf(d))[key]) <= ViewOf(d).marked
    && ViewOf(d').marked == ViewOf(d).marked - SectorsOf(Files(ViewOf(d))[key])
    && Files(ViewOf(d')) == Files(ViewOf(d)) - {key}
    && ChangedOnly(d, d', ViewOf(d), {})
  }

  /** The two headers in the reserved sectors stay as they are. */
  predicate SameSystem(d: Image, d': Image) {
    HeaderOf(d'[FREE_MAP_SECTOR]) == HeaderOf(d[FREE_MAP_SECTOR])
      && HeaderOf(d'[DIRECTORY_SECTOR]) == HeaderOf(d[DIRECTORY_SECTOR])
  }

  lemma CreateDone(d: Image, d': Image, v: View, k: int, e: Entry, h: Header, words: seq<bv32>)
    requires FsOk(d) && v == ViewOf(d) && Added(d, d', v, k, e, h, words)
    requires !v.table[k].inUse && !Listed(v.table, EntryKey(e))
    requires e.sector !in DataSectors(h) && DataSectors(h) !! v.marked
    ensures FsOk(d') && SameSystem(d, d') && Created(d, d', EntryKey(e), h.numBytes, FileInfo(e.sector, h))
  {
    hide Mounted, Consistent, HeaderOf, HeaderOk, Bits, Marked, SystemWritten, HeaderBytes, EntryKey, Listed;
    hide DataSectors, EntriesOk, IsStorable;
    AddReread(d, d', v, k, e, h, words);
    AddKeeps(v, k, e, h);
    assert ViewOf(d').mapHdr == v.mapHdr && ViewOf(d').dirHdr == v.dirHdr;
    hide Files, ViewAdd, ViewOf;
    CreatedFacts(d, d', v, k, e, h, words);
  }

  lemma CreatedFacts(d: Image, d': Image, v: View, k: int, e: Entry, h: Header, words: seq<bv32>)
    requires FsOk(d) && FsOk(d') && v == ViewOf(d) && Added(d, d', v, k, e, h, words)
    requires ViewOf(d') == ViewAdd(v, k, e, h)
    requires Files(ViewOf(d')) == Files(v)[EntryKey(e) := FileInfo(e.sector, h)]
    requires e.sector !in DataSectors(h) && DataSectors(h) !! v.marked
    ensures Created(d, d', EntryKey(e), h.numBytes, FileInfo(e.sector, h))
  {
    hide Mounted, Consistent, HeaderOf, HeaderOk, Bits, Marked, SystemWritten, HeaderBytes, EntryKey, DataSectors;
    hide EntriesOk, IsStorable, Files;
    var taken := {e.sector} + DataSectors(h);
    assert ViewOf(d').marked == v.marked + taken;
  }

  lemma RemoveDone(d: Image, d': Image, v: View, k: int, words: seq<bv32>)
    requires FsOk(d) && v == ViewOf(d) && EntriesOk(v) && 0 <= k < NUM_DIR_ENTRIES && v.table[k].inUse
    requires HeaderOk(v.mapHdr) && HeaderOk(v.dirHdr)
    requires ChangedOnly(d, d', v, {}) && SystemWritten(d', v, ViewDrop(v, k).table, words)
    requires Marked(Bits(words, NUM_SECTORS)) == v.marked - FileSectors(v, k)
    ensures FsOk(d') && SameSystem(d, d') && Removed(d, d', EntryKey(v.table[k]))
  {
    hide Mounted, Consistent, HeaderOf, HeaderOk, Bits, Marked, SystemWritten, EntryKey, DataSectors, EntriesOk;
    DropReread(d, d', k, words);
    DropKeeps(v, k);
    EntryAccount(v, k);
    assert ViewOf(d').mapHdr == v.mapHdr && ViewOf(d').dirHdr == v.dirHdr;
    assert ViewOf(d').marked == v.marked - FileSectors(v, k);
    hide Files, ViewDrop, ViewOf, FileSectors;
  }

  /** The sectors of a listed file are all marked, and its header sector is not a data sector. */
  lemma EntryAccount(v: View, k: int)
    requires Consistent(v) && 0 <= k < NUM_DIR_ENTRIES && v.table[k].inUse
    ensures EntriesOk(v) && UniqueNames(v.table) && FileSectors(v, k) <= v.marked && HeaderOk(v.headers[k])
    ensures EntryKey(v.table[k]) in Files(v)
    ensures Files(v)[EntryKey(v.table[k])] == FileInfo(v.table[k].sector, v.headers[k])
    ensures FileSectors(v, k) == SectorsOf(Files(v)[EntryKey(v.table[k])])
  {
    assert FileSectors(v, k) <= v.marked;
    EntryName(v.table, v.headers, k);
    hide EntryKey, Consistent, HeaderOk, DataSectors;
    assert FileSectors(v, k) == {v.table[k].sector} + DataSectors(v.headers[k]);
  }

  lemma EntryName(t: Table, hs: seq<Header>, k: int)
    requires UniqueNames(t) && |t| == |hs| && 0 <= k < |t| && t[k].inUse
    ensures EntryKey(t[k]) in NameMap(t, hs) && NameMap(t, hs)[EntryKey(t[k])] == FileInfo(t[k].sector, hs[k])
  {
    hide EntryKey;
  }

  /** A name is listed exactly when there is a file by that name. */
  lemma ListedIsFile(v: View, key: CString)
    requires Consistent(v)
    ensures Listed(v.table, key) <==> key in Files(v)
  {
    hide EntryKey;
    if Listed(v.table, key) {
      var k :| 0 <= k < |v.table| && v.table[k].inUse && EntryKey(v.table[k]) == key;
      EntryName(v.table, v.headers, k);
    }
  }

  lemma SameMarks(a: seq<bool>, b: seq<bool>)
    requires |a| == |b| && Marked(a) == Marked(b)
    ensures a == b
  {
    forall i | 0 <= i < |a|
      ensures a[i] == b[i]
    {
      assert a[i] <==> i in Marked(a);
      assert b[i] <==> i in Marked(b);
    }
  }

  /** Creating a file and removing it again restores the free map bit for bit, and the files by name. */
  lemma CreateRemoveRestores(d0: Image, d1: Image, d2: Image, key: CString, size: int, f: FileInfo)
    requires Created(d0, d1, key, size, f) && key !in Files(ViewOf(d0)) && Removed(d1, d2, key)
    ensures FreeBits(d2) == FreeBits(d0) && Files(ViewOf(d2)) == Files(ViewOf(d0))
  {
    hide Consistent, HeaderOk, DataSectors, Mounted, FreeBits, ChangedOnly, NameMap;
    assert ViewOf(d2).marked == ViewOf(d0).marked;
    SameMarks(FreeBits(d2), FreeBits(d0));
  }

  /** Writing to the data of one file leaves the account, and the contents of every other file, as they are. */
  lemma WriteKeepsAccount(d: Image, d': Image, k: int)
    requires FsOk(d) && 0 <= k < NUM_DIR_ENTRIES && ViewOf(d).table[k].inUse
    requires forall s :: 0 <= s < NUM_SECTORS && s !in DataSectors(ViewOf(d).headers[k]) ==> d'[s] == d[s]
    ensures FsOk(d') && ViewOf(d') == ViewOf(d)
    ensures forall j :: 0 <= j < NUM_DIR_ENTRIES && j != k && ViewOf(d).table[j].inUse ==>
              Contents(d', ViewOf(d).headers[j]) == Contents(d, ViewOf(d).headers[j])
  {
    var v := ViewOf(d);
    DisjointFile(v, k);
    hide Consistent, HeaderOf, Contents, HeaderOk, EntriesOk, DataSectors, FileSectors;
    assert d'[FREE_MAP_SECTOR] == d[FREE_MAP_SECTOR] && d'[DIRECTORY_SECTOR] == d[DIRECTORY_SECTOR];
    OtherFileUnchanged(d, d', v.headers[k], v.mapHdr);
    OtherFileUnchanged(d, d', v.headers[k], v.dirHdr);
    WriteKeepsHeaders(d, d', v, k);
    ViewIs(d', v);
    forall j | 0 <= j < NUM_DIR_ENTRIES && j != k && v.table[j].inUse
      ensures Contents(d', v.headers[j]) == Contents(d, v.headers[j])
    {
      OtherFileUnchanged(d, d', v.headers[k], v.headers[j]);
    }
  }

  lemma WriteKeepsHeaders(d: Image, d': Image, v: View, k: int)
    requires FsOk(d) && v == ViewOf(d) && 0 <= k < NUM_DIR_ENTRIES && v.table[k].inUse
    requires forall s :: 0 <= s < NUM_SECTORS && s !in DataSectors(v.headers[k]) ==> d'[s] == d[s]
    ensures forall j :: 0 <= j < NUM_DIR_ENTRIES ==> HeaderAt(d', v.table[j]) == v.headers[j]
  {
    DisjointFile(v, k);
    hide Consistent, HeaderOf, Mounted, HeaderOk, DataSectors, FileSectors, TableAt;
  }

  /** The data of a listed file is clear of everything else the account knows. */
  lemma DisjointFile(v: View, k: int)
    requires Consistent(v) && 0 <= k < NUM_DIR_ENTRIES && v.table[k].inUse
    ensures EntriesOk(v) && HeaderOk(v.headers[k]) && HeaderOk(v.mapHdr) && HeaderOk(v.dirHdr)
    ensures FREE_MAP_SECTOR !in DataSectors(v.headers[k]) && DIRECTORY_SECTOR !in DataSectors(v.headers[k])
    ensures DataSectors(v.headers[k]) !! DataSectors(v.mapHdr) && DataSectors(v.headers[k]) !! DataSectors(v.dirHdr)
    ensures forall j :: 0 <= j < NUM_DIR_ENTRIES && v.table[j].inUse ==>
                HeaderOk(v.headers[j]) && v.table[j].sector !in DataSectors(v.headers[k])
    ensures forall j :: 0 <= j < NUM_DIR_ENTRIES && v.table[j].inUse && j != k ==>
                DataSectors(v.headers[k]) !! DataSectors(v.headers[j])
  {
    hide DataSectors;
    assert FileSectors(v, k) !! SystemSectors(v);
    forall j | 0 <= j < NUM_DIR_ENTRIES && v.table[j].inUse && j != k
      ensures FileSectors(v, k) !! FileSectors(v, j)
    {
    }
  }
}
