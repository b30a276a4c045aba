/**
 Byte-addressed files over 128-byte disk sectors (filesys/openfile.cc, filesys/filehdr.h), proved to
 read and overwrite slices of a flat byte array.
 */
module OpenFiles {
  import opened Words

  const SECTOR_SIZE: int := 128
  const NUM_SECTORS: int := 1024
  const NUM_DIRECT: int := 30

  type Sector = s: seq<Byte> | |s| == 128 witness seq(128, _ => 0)

  const BLANK: Sector := seq(128, _ => 0)

  /** The whole disk. */
  type Image = d: seq<Sector> | |d| == 1024 witness seq<Sector>(1024, _ => BLANK)

  /** A file header; `dataSectors` has room for `NUM_DIRECT` entries, of which the first `numSectors` are meaningful. */
  datatype Header = Header(numBytes: int, numSectors: int, dataSectors: seq<int>)

  function SectorsFor(bytes: int): int
  { DivRoundUp(bytes, SECTOR_SIZE) }

  /** The sectors of a header are as many as its length needs, on the disk, and all different. */
  predicate HeaderOk(h: Header) {
    && 0 <= h.numBytes <= NUM_DIRECT * SECTOR_SIZE
    && h.numSectors == SectorsFor(h.numBytes)
    && |h.dataSectors| == NUM_DIRECT
    && (forall k :: 0 <= k < h.numSectors ==> 0 <= h.dataSectors[k] < NUM_SECTORS)
    && (forall j, k :: 0 <= j < k < h.numSectors ==> h.dataSectors[j] != h.dataSectors[k])
  }

  function FileByte(d: Image, h: Header, i: int): Byte
    requires HeaderOk(h) && 0 <= i < h.numBytes
  {
    d[h.dataSectors[i / SECTOR_SIZE]][i % SECTOR_SIZE]
  }

  /** The flat byte array a file stands for. */
  function Contents(d: Image, h: Header): (c: seq<Byte>)
    requires HeaderOk(h)
    ensures |c| == h.numBytes
    ensures forall i :: 0 <= i < |c| ==> c[i] == FileByte(d, h, i)
  {
    seq(h.numBytes, i requires 0 <= i < h.numBytes => FileByte(d, h, i))
  }

  /** The sectors a file occupies. */
  function DataSectors(h: Header): set<int>
    requires HeaderOk(h)
  {
    set k | 0 <= k < h.numSectors :: h.dataSectors[k]
  }

  /** How many bytes a request transfers. */
  function Clip(length: int, numBytes: int, position: int): int {
    if numBytes <= 0 || position >= length then 0
    else if position + numBytes > length then length - position
    else numBytes
  }

  /** A byte array with `data` copied in at `at`. */
  function Splice(buf: seq<Byte>, at: nat, data: seq<Byte>): (r: seq<Byte>)
    requires at + |data| <= |buf|
    ensures |r| == |buf|
    ensures forall i :: 0 <= i < |r| ==> r[i] == if at <= i < at + |data| then data[i - at] else buf[i]
  {
    buf[..at] + data + buf[at + |data|..]
  }

  /** The disk as the file system sees it: whole sectors, one request at a time. */
  class Disk {
    var image: Image

    constructor (initial: Image)
      ensures image == initial
    {
      image := initial;
    }

    method ReadSector(n: int) returns (data: Sector)
      requires 0 <= n < NUM_SECTORS
      ensures data == image[n]
    {
      data := image[n];
    }

    method WriteSector(n: int, data: Sector)
      requires 0 <= n < NUM_SECTORS
      modifies this
      ensures image == old(image)[n := data]
    {
      image := image[n := data];
    }
  }

  lemma SectorInFile(h: Header, i: int)
    requires HeaderOk(h) && 0 <= i < h.numBytes
    ensures 0 <= i / SECTOR_SIZE < h.numSectors <= NUM_DIRECT
  {
  }

  class OpenFile {
    const disk: Disk
    const hdr: Header
    var seekPosition: int

    constructor (disk: Disk, hdr: Header)
      ensures this.disk == disk && this.hdr == hdr && seekPosition == 0
    {
      this.disk := disk;
      this.hdr := hdr;
      seekPosition := 0;
    }

    method ByteToSector(offset: int) returns (sector: int)
      requires HeaderOk(hdr) && 0 <= offset / SECTOR_SIZE < hdr.numSectors
      ensures sector == hdr.dataSectors[offset / SECTOR_SIZE] && 0 <= sector < NUM_SECTORS
    {
      sector := hdr.dataSectors[offset / SECTOR_SIZE];
    }

    /** Reading returns a slice of the file, for every position, length and alignment. */
    method ReadAt(numBytes: int, position: int) returns (n: int, into: seq<Byte>)
      requires HeaderOk(hdr) && position >= 0
      ensures n == Clip(hdr.numBytes, numBytes, position) == |into|
      ensures n > 0 ==> into == Contents(disk.image, hdr)[position..position + n]
    {
      n, into := numBytes, [];
      if n <= 0 || position >= hdr.numBytes {
        return 0, [];
      }
      if position + n > hdr.numBytes {
        n := hdr.numBytes - position;
      }
      var first := position / SECTOR_SIZE;
      var last := (position + n - 1) / SECTOR_SIZE;
      SectorInFile(hdr, position + n - 1);
      var buf := ReadSectors(first, last);
      var start := position - first * SECTOR_SIZE;
      into := buf[start..start + n];
      SliceMatches(buf, Contents(disk.image, hdr), first, (last + 1) * SECTOR_SIZE, position, n);
    }

    /** The loop that reads the sectors involved in full. */
    method ReadSectors(first: int, last: int) returns (buf: seq<Byte>)
      requires HeaderOk(hdr) && 0 <= first <= last < hdr.numSectors
      ensures |buf| == (1 + last - first) * SECTOR_SIZE
      ensures Matches(buf, Contents(disk.image, hdr), first * SECTOR_SIZE, first * SECTOR_SIZE,
                (last + 1) * SECTOR_SIZE)
    {
      ghost var c := Contents(disk.image, hdr);
      buf := [];
      var i := first;
      while i <= last
        invariant first <= i <= last + 1 && |buf| == (i - first) * SECTOR_SIZE
        invariant Matches(buf, c, first * SECTOR_SIZE, first * SECTOR_SIZE, i * SECTOR_SIZE)
      {
        SectorMatches(disk.image, hdr, i);
        var sector := ByteToSector(i * SECTOR_SIZE);
        var data := disk.ReadSector(sector);
        MatchesMore(buf, data, c, first, i);
        buf := buf + data;
        i := i + 1;
      }
    }

    method Read(numBytes: int) returns (n: int, into: seq<Byte>)
      requires HeaderOk(hdr) && seekPosition >= 0
      modifies this
      ensures n == Clip(hdr.numBytes, numBytes, old(seekPosition)) == |into|
      ensures n > 0 ==> into == Contents(disk.image, hdr)[old(seekPosition)..old(seekPosition) + n]
      ensures seekPosition == old(seekPosition) + n
    {
      n, into := ReadAt(numBytes, seekPosition);
      seekPosition := seekPosition + n;
    }

    /**
     Writing overwrites a slice of the file and touches no sector but those of the file; bytes beyond
     the file's length in its last sector may become anything, because the buffer starts out arbitrary.
     */
    method WriteAt(from: seq<Byte>, numBytes: int, position: int) returns (n: int)
      requires HeaderOk(hdr) && position >= 0 && numBytes <= |from|
      modifies disk
      ensures n == Clip(hdr.numBytes, numBytes, position)
      ensures n == 0 ==> disk.image == old(disk.image)
      ensures n > 0 ==> position + n <= hdr.numBytes
      ensures n > 0 ==> Contents(disk.image, hdr) == Splice(Contents(old(disk.image), hdr), position, from[..n])
      ensures forall s :: 0 <= s < NUM_SECTORS && s !in DataSectors(hdr) ==> disk.image[s] == old(disk.image)[s]
    {
      n := numBytes;
      if n <= 0 || position >= hdr.numBytes {
        return 0;
      }
      if position + n > hdr.numBytes {
        n := hdr.numBytes - position;
      }
      var first := position / SECTOR_SIZE;
      var last := (position + n - 1) / SECTOR_SIZE;
      SectorInFile(hdr, position + n - 1);
      ghost var c := Contents(disk.image, hdr);
      var buf := PrepareBuffer(from, n, position, first, last);
      WriteSectors(buf, first, last);
      Rewritten(old(disk.image), disk.image, hdr, buf, c, from, position, n, first, last);
    }

    /** Allocate the buffer, read in the sectors that are only partly overwritten, and copy in the new bytes. */
    method PrepareBuffer(from: seq<Byte>, n: int, position: int, first: int, last: int) returns (buf: seq<Byte>)
      requires HeaderOk(hdr) && 0 <= position && 0 < n <= |from| && position + n <= hdr.numBytes
      requires first == position / SECTOR_SIZE && last == (position + n - 1) / SECTOR_SIZE
      ensures Prepared(buf, Contents(disk.image, hdr), from, position, n, first, last)
    {
      ghost var c := Contents(disk.image, hdr);
      var base := first * SECTOR_SIZE;
      var firstAligned := position == base;
      var lastAligned := position + n == (last + 1) * SECTOR_SIZE;
      buf := FreshBuffer((1 + last - first) * SECTOR_SIZE);
      assert base <= position < base + SECTOR_SIZE && last * SECTOR_SIZE < position + n <= (last + 1) * SECTOR_SIZE;
      if !firstAligned {
        buf := ReadInto(buf, base, base);
      }
      if !lastAligned && (first != last || firstAligned) {
        buf := ReadInto(buf, base, last * SECTOR_SIZE);
      }
      CopyIn(buf, c, from, position, n, first, last);
      buf := Splice(buf, position - base, from[..n]);
    }

    /** Read one sector's worth of the file, from offset `pos`, into the buffer that starts at offset `base`. */
    method ReadInto(buf: seq<Byte>, base: int, pos: int) returns (buf': seq<Byte>)
      requires HeaderOk(hdr) && 0 <= base <= pos < hdr.numBytes && pos - base + SECTOR_SIZE <= |buf|
      ensures |buf'| == |buf| && buf'[..pos - base] == buf[..pos - base]
      ensures Matches(buf', Contents(disk.image, hdr), base, pos, pos + SECTOR_SIZE)
    {
      hide Contents, HeaderOk, FileByte, Splice, Matches;
      var k, data := ReadAt(SECTOR_SIZE, pos);
      buf' := Splice(buf, pos - base, data);
      SpliceMatches(buf, base, pos, data, Contents(disk.image, hdr));
    }

    /** The loop that flushes the buffer, one sector at a time. */
    method WriteSectors(buf: seq<Byte>, first: int, last: int)
      requires HeaderOk(hdr) && 0 <= first <= last < hdr.numSectors && |buf| == (1 + last - first) * SECTOR_SIZE
      modifies disk
      ensures Flushed(old(disk.image), disk.image, hdr, buf, first, last)
    {
      var i := first;
      while i <= last
        invariant first <= i <= last + 1
        invariant forall k :: first <= k < i ==> disk.image[hdr.dataSectors[k]] == Chunk(buf, k - first)
        invariant forall s :: 0 <= s < NUM_SECTORS && (forall k :: first <= k < i ==> s != hdr.dataSectors[k]) ==>
                    disk.image[s] == old(disk.image)[s]
      {
        var sector := ByteToSector(i * SECTOR_SIZE);
        disk.WriteSector(sector, Chunk(buf, i - first));
        i := i + 1;
      }
    }

    method Write(from: seq<Byte>, numBytes: int) returns (n: int)
      requires HeaderOk(hdr) && seekPosition >= 0 && numBytes <= |from| && disk as object != this
      modifies this, disk
      ensures n == Clip(hdr.numBytes, numBytes, old(seekPosition))
      ensures seekPosition == old(seekPosition) + n
      ensures n > 0 ==> old(seekPosition) + n <= hdr.numBytes
      ensures n > 0 ==>
                Contents(disk.image, hdr) == Splice(Contents(old(disk.image), hdr), old(seekPosition), from[..n])
      ensures forall s :: 0 <= s < NUM_SECTORS && s !in DataSectors(hdr) ==> disk.image[s] == old(disk.image)[s]
    {
      n := WriteAt(from, numBytes, seekPosition);
      seekPosition := seekPosition + n;
    }
  }

  /** `new char[n]`: memory with arbitrary contents. */
  method FreshBuffer(n: nat) returns (buf: seq<Byte>)
    ensures |buf| == n
  {
    var b: array<Byte> := new Byte[n];
    buf := b[..];
  }

  /** The buffer, which starts at file offset `base`, agrees with the file from `lo` to `hi`. */
  ghost predicate Matches(buf: seq<Byte>, c: seq<Byte>, base: int, lo: int, hi: int) {
    0 <= base <= lo && hi - base <= |buf| && forall x :: lo <= x < hi && x < |c| ==> buf[x - base] == c[x]
  }

  lemma SpliceMatches(buf: seq<Byte>, base: int, pos: int, data: seq<Byte>, c: seq<Byte>)
    requires 0 <= base <= pos < |c| && pos - base + SECTOR_SIZE <= |buf|
    requires |data| == Clip(|c|, SECTOR_SIZE, pos) && data == c[pos..pos + |data|]
    ensures Splice(buf, pos - base, data)[..pos - base] == buf[..pos - base]
    ensures Matches(Splice(buf, pos - base, data), c, base, pos, pos + SECTOR_SIZE)
  {
    var r := Splice(buf, pos - base, data);
    hide Splice;
    forall x | pos <= x < pos + SECTOR_SIZE && x < |c|
      ensures r[x - base] == c[x]
    {
      assert r[x - base] == data[x - pos];
    }
  }

  lemma SectorMatches(d: Image, h: Header, i: int)
    requires HeaderOk(h) && 0 <= i < h.numSectors
    ensures i * SECTOR_SIZE / SECTOR_SIZE == i
    ensures Matches(d[h.dataSectors[i]], Contents(d, h), i * SECTOR_SIZE, i * SECTOR_SIZE, (i + 1) * SECTOR_SIZE)
  {
    QuotientIs(i * SECTOR_SIZE, SECTOR_SIZE, i, 0);
    forall x | i * SECTOR_SIZE <= x < (i + 1) * SECTOR_SIZE && x < h.numBytes
      ensures d[h.dataSectors[i]][x - i * SECTOR_SIZE] == Contents(d, h)[x]
    {
      QuotientIs(x, SECTOR_SIZE, i, x - i * SECTOR_SIZE);
    }
  }

  lemma MatchesMore(buf: seq<Byte>, data: Sector, c: seq<Byte>, first: int, i: int)
    requires 0 <= first <= i && |buf| == (i - first) * SECTOR_SIZE
    requires Matches(buf, c, first * SECTOR_SIZE, first * SECTOR_SIZE, i * SECTOR_SIZE)
    requires Matches(data, c, i * SECTOR_SIZE, i * SECTOR_SIZE, (i + 1) * SECTOR_SIZE)
    ensures Matches(buf + data, c, first * SECTOR_SIZE, first * SECTOR_SIZE, (i + 1) * SECTOR_SIZE)
  {
    var b := buf + data;
    forall x | first * SECTOR_SIZE <= x < (i + 1) * SECTOR_SIZE && x < |c|
      ensures b[x - first * SECTOR_SIZE] == c[x]
    {
      if x < i * SECTOR_SIZE {
        assert b[x - first * SECTOR_SIZE] == buf[x - first * SECTOR_SIZE];
      } else {
        assert b[x - first * SECTOR_SIZE] == data[x - i * SECTOR_SIZE];
      }
    }
  }

  lemma SliceMatches(buf: seq<Byte>, c: seq<Byte>, first: int, hi: int, p: int, n: int)
    requires 0 <= first * SECTOR_SIZE <= p && 0 < n && p + n <= |c| && p + n <= hi
    requires Matches(buf, c, first * SECTOR_SIZE, first * SECTOR_SIZE, hi)
    ensures buf[p - first * SECTOR_SIZE..p - first * SECTOR_SIZE + n] == c[p..p + n]
  {
    var start := p - first * SECTOR_SIZE;
    var a, b := buf[start..start + n], c[p..p + n];
    forall j | 0 <= j < n
      ensures a[j] == b[j]
    {
      assert buf[(p + j) - first * SECTOR_SIZE] == c[p + j];
    }
  }

  lemma CopyIn(buf: seq<Byte>, c: seq<Byte>, from: seq<Byte>, p: int, n: int, first: int, last: int)
    requires 0 <= p && 0 < n <= |from| && p + n <= |c| && first == p / SECTOR_SIZE && last == (p + n - 1) / SECTOR_SIZE
    requires |buf| == (1 + last - first) * SECTOR_SIZE
    requires p == first * SECTOR_SIZE || Matches(buf, c, first * SECTOR_SIZE, first * SECTOR_SIZE, p)
    requires p + n == (last + 1) * SECTOR_SIZE || Matches(buf, c, first * SECTOR_SIZE, p + n, (last + 1) * SECTOR_SIZE)
    ensures Prepared(Splice(buf, p - first * SECTOR_SIZE, from[..n]), c, from, p, n, first, last)
  {
  }

  /** Sector `k` of a buffer. */
  function Chunk(buf: seq<Byte>, k: nat): Sector
    requires (k + 1) * SECTOR_SIZE <= |buf|
  {
    buf[k * SECTOR_SIZE..(k + 1) * SECTOR_SIZE]
  }

  /** The buffer holds, for the sectors involved, the file as it is to be. */
  ghost predicate Prepared(buf: seq<Byte>, c: seq<Byte>, from: seq<Byte>, p: int, n: int, first: int, last: int) {
    && 0 <= first <= last && |buf| == (1 + last - first) * SECTOR_SIZE && 0 <= p && 0 < n <= |from| && p + n <= |c|
    && forall x :: first * SECTOR_SIZE <= x < (last + 1) * SECTOR_SIZE && x < |c| ==>
         buf[x - first * SECTOR_SIZE] == if p <= x < p + n then from[x - p] else c[x]
  }

  /** Exactly the file's sectors `first` to `last` have been replaced by the buffer. */
  ghost predicate Flushed(d: Image, d': Image, h: Header, buf: seq<Byte>, first: int, last: int)
    requires HeaderOk(h) && 0 <= first <= last < h.numSectors && |buf| == (1 + last - first) * SECTOR_SIZE
  {
    && (forall k :: first <= k <= last ==> d'[h.dataSectors[k]] == Chunk(buf, k - first))
    && (forall s :: 0 <= s < NUM_SECTORS && (forall k :: first <= k <= last ==> s != h.dataSectors[k]) ==>
          d'[s] == d[s])
  }

  lemma Rewritten(d: Image, d': Image, h: Header, buf: seq<Byte>, c: seq<Byte>, from: seq<Byte>,
                  p: int, n: int, first: int, last: int)
    requires HeaderOk(h) && c == Contents(d, h) && first == p / SECTOR_SIZE
    requires last == (p + n - 1) / SECTOR_SIZE < h.numSectors
    requires Prepared(buf, c, from, p, n, first, last) && Flushed(d, d', h, buf, first, last)
    ensures Contents(d', h) == Splice(c, p, from[..n])
    ensures forall s :: 0 <= s < NUM_SECTORS && s !in DataSectors(h) ==> d'[s] == d[s]
  {
    var c', w := Contents(d', h), Splice(c, p, from[..n]);
    forall x | 0 <= x < h.numBytes
      ensures c'[x] == w[x]
    {
      RewrittenByte(d, d', h, buf, c, from, p, n, first, last, x);
    }
    forall s | 0 <= s < NUM_SECTORS && s !in DataSectors(h)
      ensures d'[s] == d[s]
    {
      assert forall k :: first <= k <= last ==> h.dataSectors[k] in DataSectors(h);
    }
  }

  lemma RewrittenByte(d: Image, d': Image, h: Header, buf: seq<Byte>, c: seq<Byte>, from: seq<Byte>,
                      p: int, n: int, first: int, last: int, x: int)
    requires HeaderOk(h) && c == Contents(d, h) && first == p / SECTOR_SIZE
    requires last == (p + n - 1) / SECTOR_SIZE < h.numSectors
    requires Prepared(buf, c, from, p, n, first, last) && Flushed(d, d', h, buf, first, last) && 0 <= x < h.numBytes
    ensures FileByte(d', h, x) == if p <= x < p + n then from[x - p] else c[x]
  {
    SectorInFile(h, x);
    var k, o := x / SECTOR_SIZE, x % SECTOR_SIZE;
    if first <= k <= last {
      assert d'[h.dataSectors[k]] == Chunk(buf, k - first);
      assert (k - first) * SECTOR_SIZE + o == x - first * SECTOR_SIZE;
      assert Chunk(buf, k - first)[o] == buf[x - first * SECTOR_SIZE];
      assert first * SECTOR_SIZE <= x < (last + 1) * SECTOR_SIZE && c[x] == FileByte(d, h, x);
    } else {
      assert forall j :: first <= j <= last ==> h.dataSectors[k] != h.dataSectors[j];
      assert d'[h.dataSectors[k]] == d[h.dataSectors[k]];
      assert x < p || x >= p + n;
    }
  }

  /** A write to one file changes no byte of a file on other sectors. */
  lemma OtherFileUnchanged(d: Image, d': Image, h: Header, other: Header)
    requires HeaderOk(h) && HeaderOk(other) && DataSectors(h) !! DataSectors(other)
    requires forall s :: 0 <= s < NUM_SECTORS && s !in DataSectors(h) ==> d'[s] == d[s]
    ensures Contents(d', other) == Contents(d, other)
  {
    SameSectors(d, d', other);
  }

  /** A file's bytes depend on its own sectors alone. */
  lemma SameSectors(d: Image, d': Image, h: Header)
    requires HeaderOk(h) && forall s :: s in DataSectors(h) ==> 0 <= s < NUM_SECTORS && d'[s] == d[s]
    ensures Contents(d', h) == Contents(d, h)
  {
    forall i | 0 <= i < h.numBytes
      ensures FileByte(d', h, i) == FileByte(d, h, i)
    {
      SectorInFile(h, i);
      assert h.dataSectors[i / SECTOR_SIZE] in DataSectors(h);
    }
  }
}
