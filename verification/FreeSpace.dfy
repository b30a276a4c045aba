/**
 How much room a disk has: the clear bits of its free map and the free entries of its directory, counted from
 the files it holds.
 */
module FreeSpace {
  import opened Bitmaps
  import opened OpenFiles
  import opened FileFormats
  import opened Directories
  import opened SectorAccount

  lemma MarkedLast(b: seq<bool>)
    requires b != []
    ensures var n := |b| - 1;
            n !in Marked(b[..n]) && Marked(b) == Marked(b[..n]) + if b[n] then {n} else {}
  {
    assert forall i :: 0 <= i < |b| - 1 ==> b[..|b| - 1][i] == b[i];
  }

  /** Every sector is either clear or marked. */
  lemma {:induction false} ClearAndMarked(b: seq<bool>)
    ensures CountClear(b) + |Marked(b)| == |b|
  {
    if b == [] {
      assert Marked(b) == {};
    } else {
      hide Marked;
      ClearAndMarked(b[..|b| - 1]);
      MarkedLast(b);
    }
  }

  /** A file has as many data sectors as its length needs. */
  lemma DataCount(h: Header)
    requires HeaderOk(h)
    ensures |DataSectors(h)| == SectorsFor(h.numBytes)
  {
    PrefixCount(h, h.numSectors);
    assert FirstSectors(h, h.numSectors) == DataSectors(h);
  }

  function FirstSectors(h: Header, n: int): set<int>
    requires HeaderOk(h) && 0 <= n <= h.numSectors
  { set k | 0 <= k < n :: h.dataSectors[k] }

  lemma {:induction false} PrefixCount(h: Header, n: int)
    requires HeaderOk(h) && 0 <= n <= h.numSectors
    ensures |FirstSectors(h, n)| == n
  {
    if n > 0 {
      PrefixCount(h, n - 1);
      assert FirstSectors(h, n) == FirstSectors(h, n - 1) + {h.dataSectors[n - 1]};
    }
  }

  /** The names a directory lists. */
  function Names(t: Table): set<CString> { set k | 0 <= k < |t| && t[k].inUse :: EntryKey(t[k]) }

  lemma LastName(t: Table)
    requires UniqueNames(t) && t != []
    ensures var n := |t| - 1;
            && UniqueNames(t[..n])
            && Names(t) == Names(t[..n]) + (if t[n].inUse then {EntryKey(t[n])} else {})
            && (t[n].inUse ==> EntryKey(t[n]) !in Names(t[..n]))
  {
    hide EntryKey;
    var n := |t| - 1;
    forall k | 0 <= k < n && t[..n][k].inUse
      ensures t[..n][k] == t[k] && EntryKey(t[k]) in Names(t)
    {
    }
  }

  /** As many as it has entries in use, since no two are the same. */
  lemma {:induction false} NamesCount(t: Table)
    requires UniqueNames(t)
    ensures |Names(t)| <= |t|
    ensures |Names(t)| < |t| <==> exists k :: 0 <= k < |t| && !t[k].inUse
  {
    hide Names, UniqueNames, EntryKey;
    if t == [] {
      assert Names(t) == {} by { NoNames(); }
    } else {
      var n := |t| - 1;
      LastName(t);
      NamesCount(t[..n]);
      assert forall k :: 0 <= k < n ==> t[..n][k] == t[k];
    }
  }

  lemma NoNames()
    ensures Names([]) == {}
  {
  }

  /** A directory entry is free exactly while there are fewer than ten files. */
  lemma EntryFree(v: View)
    requires Consistent(v)
    ensures |Files(v)| < NUM_DIR_ENTRIES <==> exists k :: 0 <= k < NUM_DIR_ENTRIES && !v.table[k].inUse
  {
    hide EntryKey;
    NamesCount(v.table);
    forall key
      ensures key in Files(v) <==> key in Names(v.table)
    {
      ListedIsFile(v, key);
    }
    assert Files(v).Keys == Names(v.table);
  }

  ghost function FreeSectors(d: Image): nat
    requires Mounted(d)
  { CountClear(FreeBits(d)) }

  lemma FreeIsUnmarked(d: Image)
    requires Mounted(d)
    ensures FreeSectors(d) == NUM_SECTORS - |ViewOf(d).marked|
  {
    ClearAndMarked(FreeBits(d));
  }

  /** What a file takes: its header's sector and its data. */
  function Footprint(size: int): int { 1 + SectorsFor(size) }

  lemma FootprintCount(f: FileInfo)
    requires HeaderOk(f.header) && f.sector !in DataSectors(f.header)
    ensures |SectorsOf(f)| == Footprint(f.header.numBytes)
  {
    DataCount(f.header);
  }

  /** Creating takes exactly that much... */
  lemma CreatedSpace(d: Image, d': Image, key: CString, size: int, f: FileInfo)
    requires Created(d, d', key, size, f)
    ensures FreeSectors(d') == FreeSectors(d) - Footprint(size)
  {
    hide Consistent, ViewOf, Files, HeaderOk, DataSectors, ChangedOnly, FreeSectors;
    FreeIsUnmarked(d);
    FreeIsUnmarked(d');
    FootprintCount(f);
  }

  /** ... and removing gives it back. */
  lemma RemovedSpace(d: Image, d': Image, key: CString, f: FileInfo)
    requires Removed(d, d', key) && f == Files(ViewOf(d))[key] && f.sector !in DataSectors(f.header)
    ensures FreeSectors(d') == FreeSectors(d) + Footprint(f.header.numBytes)
  {
    hide Consistent, ViewOf, Files, HeaderOk, DataSectors, ChangedOnly, FreeSectors;
    FreeIsUnmarked(d);
    FreeIsUnmarked(d');
    FootprintCount(f);
    assert ViewOf(d).marked == ViewOf(d').marked + SectorsOf(f);
  }

  /** The system keeps five sectors for itself. */
  lemma FormattedSpace(d: Image)
    requires FsOk(d) && ViewOf(d).marked == SystemSectors(ViewOf(d))
    ensures FreeSectors(d) == NUM_SECTORS - 5
  {
    hide ViewOf, HeaderOk, DataSectors, FreeSectors;
    var v := ViewOf(d);
    FreeIsUnmarked(d);
    DataCount(v.mapHdr);
    DataCount(v.dirHdr);
    assert |{FREE_MAP_SECTOR, DIRECTORY_SECTOR}| == 2;
  }
}
