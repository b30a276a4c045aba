/**
 Whole histories of the file system: creating, removing, writing and reading files by name, from formatting on,
 is the same as keeping a map from names to byte arrays and a count of free sectors.
 */
module FileHistories {
  import opened Words
  import opened OpenFiles
  import opened FileFormats
  import opened Directories
  import opened SectorAccount
  import opened FileSystems
  import opened FreeSpace

  // ---- the files of a disk, as byte arrays by name ----

  /** Every file's header is sound, its data clear of the system's and of other files', and all of it marked. */
  lemma FileFacts(d: Image, key: CString) returns (k: int)
    requires FsOk(d) && key in Files(ViewOf(d))
    ensures 0 <= k < NUM_DIR_ENTRIES && ViewOf(d).table[k].inUse && EntryKey(ViewOf(d).table[k]) == key
    ensures Files(ViewOf(d))[key] == FileInfo(ViewOf(d).table[k].sector, ViewOf(d).headers[k])
    ensures HeaderOk(ViewOf(d).headers[k]) && DataSectors(ViewOf(d).headers[k]) <= ViewOf(d).marked
    ensures ViewOf(d).table[k].sector !in DataSectors(ViewOf(d).headers[k])
  {
    var v := ViewOf(d);
    hide EntryKey, HeaderOf, TableOf, DataSectors;
    ListedIsFile(v, key);
    k :| 0 <= k < NUM_DIR_ENTRIES && v.table[k].inUse && EntryKey(v.table[k]) == key;
    EntryAccount(v, k);
  }

  ghost function ContentsOf(d: Image): map<CString, seq<Byte>>
    requires FsOk(d)
  {
    var files := Files(ViewOf(d));
    map key | key in files && HeaderOk(files[key].header) :: Contents(d, files[key].header)
  }

  lemma ContentsAt(d: Image, key: CString)
    requires FsOk(d)
    ensures key in ContentsOf(d) <==> key in Files(ViewOf(d))
    ensures key in Files(ViewOf(d)) ==>
              HeaderOk(Files(ViewOf(d))[key].header) && ContentsOf(d)[key] == Contents(d, Files(ViewOf(d))[key].header)
  {
    hide Consistent, ViewOf, Files, Contents, HeaderOk;
    if key in Files(ViewOf(d)) {
      var k := FileFacts(d, key);
    }
  }

  /** Two maps that agree on membership and values are the same. */
  lemma SameMaps(m: map<CString, seq<Byte>>, m': map<CString, seq<Byte>>)
    requires forall k :: k in m <==> k in m'
    requires forall k :: k in m ==> m[k] == m'[k]
    ensures m == m'
  {
  }

  /** A file none of whose data sectors has changed. */
  lemma Untouched(d: Image, d': Image, key: CString)
    requires FsOk(d) && FsOk(d') && key in Files(ViewOf(d)) && key in Files(ViewOf(d'))
    requires Files(ViewOf(d'))[key] == Files(ViewOf(d))[key]
    requires HeaderOk(Files(ViewOf(d))[key].header)
    requires forall s :: s in DataSectors(Files(ViewOf(d))[key].header) ==> 0 <= s < NUM_SECTORS && d'[s] == d[s]
    ensures key in ContentsOf(d) && key in ContentsOf(d') && ContentsOf(d')[key] == ContentsOf(d)[key]
  {
    hide Consistent, ViewOf, Files, Contents, HeaderOk, DataSectors, ContentsOf;
    ContentsAt(d, key);
    ContentsAt(d', key);
    SameSectors(d, d', Files(ViewOf(d))[key].header);
  }

  /** Writing the system files and sectors that were free leaves a listed file's data alone. */
  lemma ClearOfSystem(d: Image, d': Image, key: CString, extra: set<int>)
    requires FsOk(d) && key in Files(ViewOf(d)) && extra !! ViewOf(d).marked
    requires HeaderOk(ViewOf(d).mapHdr) && HeaderOk(ViewOf(d).dirHdr) && ChangedOnly(d, d', ViewOf(d), extra)
    ensures HeaderOk(Files(ViewOf(d))[key].header)
    ensures forall s :: s in DataSectors(Files(ViewOf(d))[key].header) ==> 0 <= s < NUM_SECTORS && d'[s] == d[s]
  {
    var v := ViewOf(d);
    hide EntryKey, HeaderOf, TableOf, ViewOf, Files, Consistent;
    var k := FileFacts(d, key);
    DisjointFile(v, k);
    DataOnDisk(v.headers[k]);
    hide DataSectors, HeaderOk;
  }

  lemma DataOnDisk(h: Header)
    requires HeaderOk(h)
    ensures forall s :: s in DataSectors(h) ==> 0 <= s < NUM_SECTORS
  {
  }

  lemma SystemHeaders(d: Image)
    requires FsOk(d)
    ensures HeaderOk(ViewOf(d).mapHdr) && HeaderOk(ViewOf(d).dirHdr)
  {
    hide HeaderOf, TableOf, HeaderOk;
  }

  /** Another file, when only the system files and formerly free sectors have been written. */
  lemma OtherKept(d: Image, d': Image, other: CString, extra: set<int>)
    requires FsOk(d) && FsOk(d') && extra !! ViewOf(d).marked
    requires HeaderOk(ViewOf(d).mapHdr) && HeaderOk(ViewOf(d).dirHdr) && ChangedOnly(d, d', ViewOf(d), extra)
    requires other in Files(ViewOf(d')) <==> other in Files(ViewOf(d))
    requires other in Files(ViewOf(d)) ==> Files(ViewOf(d'))[other] == Files(ViewOf(d))[other]
    ensures other in ContentsOf(d') <==> other in ContentsOf(d)
    ensures other in ContentsOf(d) ==> ContentsOf(d')[other] == ContentsOf(d)[other]
  {
    hide Consistent, ViewOf, Files, Contents, HeaderOk, DataSectors, ContentsOf, ChangedOnly;
    ContentsAt(d, other);
    ContentsAt(d', other);
    if other in Files(ViewOf(d)) {
      ClearOfSystem(d, d', other, extra);
      Untouched(d, d', other);
    }
  }

  lemma CreatedContents(d: Image, d': Image, key: CString, size: int, f: FileInfo)
    requires Created(d, d', key, size, f) && key !in Files(ViewOf(d))
    ensures key !in ContentsOf(d) && key in ContentsOf(d') && |ContentsOf(d')[key]| == size
    ensures ContentsOf(d') == ContentsOf(d)[key := ContentsOf(d')[key]]
  {
    hide Consistent, ViewOf, Files, Contents, HeaderOk, DataSectors, ContentsOf, ChangedOnly;
    ContentsAt(d, key);
    ContentsAt(d', key);
    SystemHeaders(d);
    assert f.sector in SectorsOf(f);
    forall other | other != key
      ensures other in ContentsOf(d') <==> other in ContentsOf(d)
      ensures other in ContentsOf(d) ==> ContentsOf(d')[other] == ContentsOf(d)[other]
    {
      OtherKept(d, d', other, {f.sector});
    }
    SameMaps(ContentsOf(d'), ContentsOf(d)[key := ContentsOf(d')[key]]);
  }

  lemma RemovedContents(d: Image, d': Image, key: CString)
    requires Removed(d, d', key)
    ensures key in ContentsOf(d) && ContentsOf(d') == ContentsOf(d) - {key}
  {
    hide Consistent, ViewOf, Files, Contents, HeaderOk, DataSectors, ContentsOf, ChangedOnly, SectorsOf;
    ContentsAt(d, key);
    ContentsAt(d', key);
    SystemHeaders(d);
    forall other | other != key
      ensures other in ContentsOf(d') <==> other in ContentsOf(d)
      ensures other in ContentsOf(d) ==> ContentsOf(d')[other] == ContentsOf(d)[other]
    {
      OtherKept(d, d', other, {});
    }
    SameMaps(ContentsOf(d'), ContentsOf(d) - {key});
  }

  /** A write through an open file replaces the contents of that file alone, and keeps the whole account. */
  lemma WrittenContents(d: Image, d': Image, key: CString)
    requires FsOk(d) && key in Files(ViewOf(d)) && HeaderOk(Files(ViewOf(d))[key].header)
    requires forall s :: 0 <= s < NUM_SECTORS && s !in DataSectors(Files(ViewOf(d))[key].header) ==> d'[s] == d[s]
    ensures FsOk(d') && ViewOf(d') == ViewOf(d) && key in ContentsOf(d)
    ensures ContentsOf(d') == ContentsOf(d)[key := Contents(d', Files(ViewOf(d))[key].header)]
  {
    hide Consistent, Mounted, HeaderOf, TableOf, ViewOf, Files, Contents, HeaderOk, DataSectors, ContentsOf, EntryKey;
    var k := FileFacts(d, key);
    WriteKeepsAccount(d, d', k);
    ContentsAt(d, key);
    ContentsAt(d', key);
    forall other | other != key
      ensures other in ContentsOf(d') <==> other in ContentsOf(d)
      ensures other in ContentsOf(d) ==> ContentsOf(d')[other] == ContentsOf(d)[other]
    {
      ContentsAt(d, other);
      ContentsAt(d', other);
      if other in Files(ViewOf(d)) {
        var j := FileFacts(d, other);
        assert j != k;
      }
    }
    SameMaps(ContentsOf(d'), ContentsOf(d)[key := Contents(d', Files(ViewOf(d))[key].header)]);
  }

  // ---- commands ----

  datatype Command =
    | CreateFile(name: CString, size: int)
    | RemoveFile(name: CString)
    | WriteFile(name: CString, data: seq<Byte>, position: int)
    | ReadFile(name: CString, numBytes: int, position: int)

  /** Did the command succeed, how many bytes did it transfer, and which did it read? */
  datatype Result = Result(ok: bool, count: int, bytes: seq<Byte>)

  predicate SensibleCommand(c: Command) {
    && (c.CreateFile? ==> 0 <= c.size <= NUM_DIRECT * SECTOR_SIZE)
    && (c.WriteFile? || c.ReadFile? ==> c.position >= 0)
  }

  /** A byte array after a write, clipped to its length. */
  function Written(c: seq<Byte>, position: int, data: seq<Byte>): seq<Byte>
    requires position >= 0
  {
    var n := Clip(|c|, |data|, position);
    if n == 0 then c else Splice(c, position, data[..n])
  }

  function ReadOut(c: seq<Byte>, position: int, numBytes: int): seq<Byte>
    requires position >= 0
  {
    var n := Clip(|c|, numBytes, position);
    if n == 0 then [] else c[position..position + n]
  }

  /** What a disk amounts to: byte arrays by name, and a number of free sectors. */
  datatype Volume = Volume(files: map<CString, seq<Byte>>, free: int)

  ghost function VolumeOf(d: Image): Volume
    requires FsOk(d)
  { Volume(ContentsOf(d), FreeSectors(d)) }

  /** A file is created if its name is new, there are fewer than ten, and its header and data fit. */
  predicate HasRoom(m: Volume, key: CString, size: int) {
    key !in m.files && |m.files| < NUM_DIR_ENTRIES && Footprint(size) <= m.free
  }

  /** One command on a volume.  The bytes of a new file are unspecified; everything else is determined. */
  predicate Obeys(m: Volume, c: Command, r: Result, m': Volume) {
    SensibleCommand(c) &&
    var key := Key(c.name);
    match c
    case CreateFile(_, size) =>
      && r.ok == HasRoom(m, key, size)
      && if r.ok then
           && key in m'.files && |m'.files[key]| == size
           && m' == Volume(m.files[key := m'.files[key]], m.free - Footprint(size))
         else m' == m
    case RemoveFile(_) =>
      && r.ok == (key in m.files)
      && m' == if r.ok then Volume(m.files - {key}, m.free + Footprint(|m.files[key]|)) else m
    case WriteFile(_, data, position) =>
      && r.ok == (key in m.files)
      && if r.ok then
           && r.count == Clip(|m.files[key]|, |data|, position)
           && m' == m.(files := m.files[key := Written(m.files[key], position, data)])
         else m' == m
    case ReadFile(_, numBytes, position) =>
      && r.ok == (key in m.files) && m' == m
      && (r.ok ==> r.bytes == ReadOut(m.files[key], position, numBytes) && r.count == |r.bytes|)
  }

  /** A history of volumes that explains the results of a script. */
  ghost predicate Explains(history: seq<Volume>, script: seq<Command>, results: seq<Result>) {
    && |history| == |script| + 1 && |results| == |script|
    && forall i :: 0 <= i < |script| ==> Obeys(history[i], script[i], results[i], history[i + 1])
  }

  method Execute(fs: FileSystem, c: Command) returns (r: Result)
    requires fs.Valid() && SensibleCommand(c)
    modifies fs.disk
    ensures fs.Valid() && Obeys(VolumeOf(old(fs.disk.image)), c, r, VolumeOf(fs.disk.image))
  {
    hide VolumeOf, FsOk, HeaderOf, Created, Removed, CanCreate, Written, ReadOut;
    match c {
      case CreateFile(name, size) => r := ExecuteCreate(fs, name, size);
      case RemoveFile(name) => r := ExecuteRemove(fs, name);
      case WriteFile(name, data, position) => r := ExecuteWrite(fs, name, data, position);
      case ReadFile(name, numBytes, position) => r := ExecuteRead(fs, name, numBytes, position);
    }
  }

  method ExecuteCreate(fs: FileSystem, name: CString, size: int) returns (r: Result)
    requires fs.Valid() && 0 <= size <= NUM_DIRECT * SECTOR_SIZE
    modifies fs.disk
    ensures fs.Valid() && Obeys(VolumeOf(old(fs.disk.image)), CreateFile(name, size), r, VolumeOf(fs.disk.image))
  {
    hide ContentsOf, Consistent, ViewOf, Files, HeaderOf, Created, FreeSectors, CanCreate;
    ghost var d := fs.disk.image;
    RoomToCreate(d, Key(name), size);
    var ok, f := fs.Create(name, size);
    r := Result(ok, 0, []);
    if ok {
      CreatedContents(d, fs.disk.image, Key(name), size, f);
      CreatedSpace(d, fs.disk.image, Key(name), size, f);
    }
  }

  lemma RoomToCreate(d: Image, key: CString, size: int)
    requires FsOk(d)
    ensures CanCreate(d, key, size) <==> HasRoom(VolumeOf(d), key, size)
    ensures HasRoom(VolumeOf(d), key, size) ==> key !in Files(ViewOf(d))
  {
    hide ContentsOf, Consistent, ViewOf, Files, HeaderOf, Listed, EntryKey;
    var v := ViewOf(d);
    ListedIsFile(v, key);
    TableOfView(d);
    EntryFree(v);
    forall k
      ensures k in ContentsOf(d) <==> k in Files(v)
    {
      ContentsAt(d, k);
    }
    assert ContentsOf(d).Keys == Files(v).Keys;
  }

  lemma TableOfView(d: Image)
    requires Mounted(d)
    ensures ViewOf(d).table == TableAt(d)
    ensures ViewOf(d).mapHdr == HeaderOf(d[FREE_MAP_SECTOR]) && ViewOf(d).dirHdr == HeaderOf(d[DIRECTORY_SECTOR])
  {
  }

  method ExecuteRemove(fs: FileSystem, name: CString) returns (r: Result)
    requires fs.Valid()
    modifies fs.disk
    ensures fs.Valid() && Obeys(VolumeOf(old(fs.disk.image)), RemoveFile(name), r, VolumeOf(fs.disk.image))
  {
    hide ContentsOf, Consistent, ViewOf, Files, HeaderOf, HeaderOk, DataSectors, Removed, Listed, FreeSectors;
    ghost var d := fs.disk.image;
    ListedIsFile(ViewOf(d), Key(name));
    TableOfView(d);
    ContentsAt(d, Key(name));
    var ok := fs.Remove(name);
    r := Result(ok, 0, []);
    if ok {
      RemovedContents(d, fs.disk.image, Key(name));
      ghost var k := FileFacts(d, Key(name));
      RemovedSpace(d, fs.disk.image, Key(name), Files(ViewOf(d))[Key(name)]);
    }
  }

  method ExecuteWrite(fs: FileSystem, name: CString, data: seq<Byte>, position: int) returns (r: Result)
    requires fs.Valid() && position >= 0
    modifies fs.disk
    ensures fs.Valid()
    ensures Obeys(VolumeOf(old(fs.disk.image)), WriteFile(name, data, position), r, VolumeOf(fs.disk.image))
  {
    hide ContentsOf, Consistent, ViewOf, Files, HeaderOf, HeaderOk, DataSectors, FreeSectors;
    ghost var d := fs.disk.image;
    ContentsAt(d, Key(name));
    var file := fs.Open(name);
    if file == null {
      return Result(false, 0, []);
    }
    var n := file.WriteAt(data, |data|, position);
    WrittenContents(d, fs.disk.image, Key(name));
    TableOfView(d);
    TableOfView(fs.disk.image);
    FreeIsUnmarked(d);
    FreeIsUnmarked(fs.disk.image);
    r := Result(true, n, []);
  }

  method ExecuteRead(fs: FileSystem, name: CString, numBytes: int, position: int) returns (r: Result)
    requires fs.Valid() && position >= 0
    modifies fs.disk
    ensures fs.Valid()
    ensures Obeys(VolumeOf(old(fs.disk.image)), ReadFile(name, numBytes, position), r, VolumeOf(fs.disk.image))
  {
    hide ContentsOf, Consistent, ViewOf, Files, HeaderOf, HeaderOk, DataSectors;
    ContentsAt(fs.disk.image, Key(name));
    var file := fs.Open(name);
    if file == null {
      return Result(false, 0, []);
    }
    var n, bytes := file.ReadAt(numBytes, position);
    r := Result(true, n, bytes);
  }

  // ---- whole histories ----

  /**
   After formatting, a script of any commands behaves as it would on an empty volume of 1019 sectors, and leaves
   a consistent disk.
   */
  method RunScript(disk: Disk, garbage: Table, script: seq<Command>)
    returns (fs: FileSystem, results: seq<Result>, ghost history: seq<Volume>)
    requires |garbage| == NUM_DIR_ENTRIES && forall i :: 0 <= i < |script| ==> SensibleCommand(script[i])
    modifies disk
    ensures fs.Valid() && fs.disk == disk
    ensures Explains(history, script, results)
    ensures history[0] == Volume(map[], 1019) && history[|script|] == VolumeOf(disk.image)
  {
    hide Consistent, ViewOf, Files, HeaderOf, Obeys, SensibleCommand;
    fs := new FileSystem.Format(disk, garbage);
    assert ContentsOf(disk.image) == map[];
    FormattedSpace(disk.image);
    results, history := [], [VolumeOf(disk.image)];
    hide VolumeOf;
    var i := 0;
    while i < |script|
      invariant 0 <= i <= |script| && fs.Valid() && fs.disk == disk
      invariant Explains(history, script[..i], results)
      invariant history[0] == Volume(map[], 1019) && history[i] == VolumeOf(disk.image)
    {
      var r := Execute(fs, script[i]);
      OneMore(history, script, results, i, r, VolumeOf(disk.image));
      results, history := results + [r], history + [VolumeOf(disk.image)];
      i := i + 1;
    }
    assert script[..i] == script;
  }

  lemma OneMore(history: seq<Volume>, script: seq<Command>, results: seq<Result>, i: nat, r: Result,
                m: Volume)
    requires i < |script| && Explains(history, script[..i], results) && Obeys(history[i], script[i], r, m)
    ensures Explains(history + [m], script[..i + 1], results + [r])
  {
    hide Obeys;
    var h, rs := history + [m], results + [r];
    forall k | 0 <= k <= i
      ensures Obeys(h[k], script[..i + 1][k], rs[k], h[k + 1])
    {
      if k < i {
        assert Obeys(history[k], script[..i][k], results[k], history[k + 1]);
      }
    }
  }

  // ---- what a history says, command by command ----

  /** The characters of a name that count. */
  function Short(name: CString): CString { if |name| > 9 then name[..9] else name }

  /**
   A file is created exactly when no file has a name with the same first nine characters, there are fewer than ten
   files, and one sector more is free than its data needs; its name then stands for that many bytes.
   */
  lemma CreatedByHistory(history: seq<Volume>, script: seq<Command>, results: seq<Result>, i: nat)
    requires Explains(history, script, results) && i < |script| && script[i].CreateFile?
    ensures var m, m', name, size := history[i], history[i + 1], Short(script[i].name), script[i].size;
            && results[i].ok == (name !in m.files && |m.files| < 10 && 1 + (size + 127) / 128 <= m.free)
            && (!results[i].ok ==> m' == m)
            && (results[i].ok ==>
                  && m'.files.Keys == m.files.Keys + {name} && |m'.files[name]| == size
                  && (forall other :: other in m.files ==> m'.files[other] == m.files[other])
                  && m'.free == m.free - 1 - (size + 127) / 128)
  {
    assert Obeys(history[i], script[i], results[i], history[i + 1]);
    SectorsMean(script[i].size);
  }

  /** A file is removed exactly when there is one; its sectors are free again, and no other file changes. */
  lemma RemovedByHistory(history: seq<Volume>, script: seq<Command>, results: seq<Result>, i: nat)
    requires Explains(history, script, results) && i < |script| && script[i].RemoveFile?
    ensures var m, m', name := history[i], history[i + 1], Short(script[i].name);
            && results[i].ok == (name in m.files)
            && m'.files.Keys == m.files.Keys - {name}
            && (forall other :: other in m'.files ==> m'.files[other] == m.files[other])
            && m'.free == m.free + if name in m.files then 1 + (|m.files[name]| + 127) / 128 else 0
  {
    assert Obeys(history[i], script[i], results[i], history[i + 1]);
    if results[i].ok { SectorsMean(|history[i].files[Short(script[i].name)]|); }
  }

  /** Writing to a file changes those of its bytes that are both written and there, and nothing else. */
  lemma WrittenByHistory(history: seq<Volume>, script: seq<Command>, results: seq<Result>, i: nat)
    requires Explains(history, script, results) && i < |script| && script[i].WriteFile?
    ensures var m, m', c, r := history[i], history[i + 1], script[i], results[i];
            var name := Short(c.name);
            && r.ok == (name in m.files) && m'.free == m.free && m'.files.Keys == m.files.Keys
            && (forall other :: other in m.files && other != name ==> m'.files[other] == m.files[other])
            && (r.ok ==>
                  var before, after := m.files[name], m'.files[name];
                  && |after| == |before|
                  && (forall x :: 0 <= x < |before| ==>
                        after[x] ==
                          if c.position <= x < c.position + |c.data| then c.data[x - c.position] else before[x])
                  && r.count == if c.position >= |before| then 0
                                else if c.position + |c.data| > |before| then |before| - c.position else |c.data|)
  {
    hide Splice;
    assert Obeys(history[i], script[i], results[i], history[i + 1]);
  }

  /** Reading a file changes nothing and gives the bytes asked for that are there. */
  lemma ReadByHistory(history: seq<Volume>, script: seq<Command>, results: seq<Result>, i: nat)
    requires Explains(history, script, results) && i < |script| && script[i].ReadFile?
    ensures var m, c, r := history[i], script[i], results[i];
            && history[i + 1] == m && r.ok == (Short(c.name) in m.files)
            && (r.ok ==>
                  var bytes := m.files[Short(c.name)];
                  && r.count == |r.bytes|
                  && r.count == (if c.numBytes <= 0 || c.position >= |bytes| then 0
                                 else if c.numBytes > |bytes| - c.position then |bytes| - c.position else c.numBytes)
                  && forall x :: 0 <= x < |r.bytes| ==> c.position + x < |bytes| && r.bytes[x] == bytes[c.position + x])
  {
    assert Obeys(history[i], script[i], results[i], history[i + 1]);
  }

  lemma SectorsMean(size: int)
    requires size >= 0
    ensures Footprint(size) == 1 + (size + 127) / 128
  {
    var q, r := size / 128, size % 128;
    if r == 0 { QuotientIs(size + 127, 128, q, 127); } else { QuotientIs(size + 127, 128, q + 1, r - 1); }
  }
}
