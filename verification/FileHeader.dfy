/** Allocating and freeing a file's data sectors (filesys/filehdr.cc). */
module FileHeaders {
  import opened Words
  import opened Bitmaps
  import opened OpenFiles
  import opened FileFormats

  class FileHeader {
    var numBytes: int
    var numSectors: int
    var dataSectors: seq<int>

    ghost function Value(): Header
      reads this
    { Header(numBytes, numSectors, dataSectors) }

    /** `new FileHeader`: fields with arbitrary contents. */
    constructor ()
      ensures IsStorable(Value())
    {
      var raw: array<Word> := new Word[32];
      var ws := raw[..];
      var h := HeaderOfWords(ws);
      numBytes, numSectors, dataSectors := h.numBytes, h.numSectors, h.dataSectors;
    }

    constructor FetchFrom(bytes: Sector)
      ensures Value() == HeaderOf(bytes)
    {
      var h := HeaderOf(bytes);
      numBytes, numSectors, dataSectors := h.numBytes, h.numSectors, h.dataSectors;
    }

    /** Succeeds exactly when there is room, and then takes as many free sectors as the file needs, all different. */
    method Allocate(freeMap: Bitmap, fileSize: int) returns (ok: bool)
      requires freeMap.Valid() && freeMap.numBits == NUM_SECTORS
      requires 0 <= fileSize <= NUM_DIRECT * SECTOR_SIZE && IsStorable(Value())
      modifies this, freeMap.words
      ensures freeMap.Valid() && IsStorable(Value())
      ensures ok <==> CountClear(old(freeMap.Value())) >= SectorsFor(fileSize)
      ensures !ok ==> freeMap.Value() == old(freeMap.Value())
      ensures ok ==> HeaderOk(Value()) && numBytes == fileSize
      ensures ok ==> CountClear(freeMap.Value()) == CountClear(old(freeMap.Value())) - SectorsFor(fileSize)
      ensures ok ==> DataSectors(Value()) !! Marked(old(freeMap.Value()))
      ensures ok ==> Marked(freeMap.Value()) == Marked(old(freeMap.Value())) + DataSectors(Value())
    {
      hide CountClear;
      numBytes := fileSize;
      numSectors := SectorsFor(fileSize);
      var room := freeMap.NumClear();
      if room < numSectors {
        return false;
      }
      TakeSectors(freeMap);
      ok := true;
    }

    /** The loop that takes one free sector after another. */
    method TakeSectors(freeMap: Bitmap)
      requires freeMap.Valid() && freeMap.numBits == NUM_SECTORS && IsStorable(Value())
      requires 0 <= numBytes <= NUM_DIRECT * SECTOR_SIZE && numSectors == SectorsFor(numBytes)
      requires CountClear(freeMap.Value()) >= numSectors
      modifies this`dataSectors, freeMap.words
      ensures freeMap.Valid() && IsStorable(Value()) && HeaderOk(Value())
      ensures CountClear(freeMap.Value()) == CountClear(old(freeMap.Value())) - numSectors
      ensures DataSectors(Value()) !! Marked(old(freeMap.Value()))
      ensures Marked(freeMap.Value()) == Marked(old(freeMap.Value())) + DataSectors(Value())
    {
      hide CountClear, Marked;
      ghost var before := freeMap.Value();
      var i := 0;
      while i < numSectors
        invariant freeMap.Valid() && 0 <= i <= numSectors && |dataSectors| == NUM_DIRECT
        invariant forall k :: 0 <= k < NUM_DIRECT ==> IsInt32(dataSectors[k])
        invariant CountClear(freeMap.Value()) == CountClear(before) - i
        invariant Taken(dataSectors, i, Marked(before), Marked(freeMap.Value()))
      {
        ghost var b := freeMap.Value();
        CountPositive(b);
        var s := freeMap.FindAndSet();
        assert 0 <= s < NUM_SECTORS;  // since there was enough free space
        CountSet(b, s);
        MarkOne(b, s);
        TakeOne(dataSectors, i, Marked(before), Marked(b), s);
        dataSectors := dataSectors[i := s];
        i := i + 1;
      }
    }

    /** Every sector is marked when its turn comes, so the code's assertion holds. */
    method Deallocate(freeMap: Bitmap)
      requires freeMap.Valid() && freeMap.numBits == NUM_SECTORS && HeaderOk(Value())
      requires DataSectors(Value()) <= Marked(freeMap.Value())
      modifies freeMap.words
      ensures freeMap.Valid() && Marked(freeMap.Value()) == Marked(old(freeMap.Value())) - DataSectors(Value())
    {
      ghost var before := freeMap.Value();
      var i := 0;
      while i < numSectors
        invariant freeMap.Valid() && 0 <= i <= numSectors
        invariant Marked(freeMap.Value()) == Marked(before) - FirstSectors(dataSectors, i)
      {
        assert dataSectors[i] in DataSectors(Value());
        assert dataSectors[i] !in FirstSectors(dataSectors, i);
        assert dataSectors[i] in Marked(freeMap.Value());
        var marked := freeMap.Test(dataSectors[i]);
        assert marked;  // ought to be marked
        MarkOne(freeMap.Value(), dataSectors[i]);
        freeMap.Clear(dataSectors[i]);
        assert FirstSectors(dataSectors, i + 1) == FirstSectors(dataSectors, i) + {dataSectors[i]};
        i := i + 1;
      }
      assert FirstSectors(dataSectors, numSectors) == DataSectors(Value());
    }
  }

  ghost function FirstSectors(ds: seq<int>, n: int): set<int>
    requires 0 <= n <= |ds|
  {
    set k | 0 <= k < n :: ds[k]
  }

  /** The first `n` entries are different sectors, free before and marked now, and nothing else has been marked. */
  ghost predicate Taken(ds: seq<int>, n: int, before: set<int>, now: set<int>) {
    && 0 <= n <= |ds|
    && (forall k :: 0 <= k < n ==> 0 <= ds[k] < NUM_SECTORS && ds[k] !in before)
    && (forall j, k :: 0 <= j < k < n ==> ds[j] != ds[k])
    && now == before + FirstSectors(ds, n)
  }

  lemma TakeOne(ds: seq<int>, n: int, before: set<int>, now: set<int>, s: int)
    requires Taken(ds, n, before, now) && n < |ds| && 0 <= s < NUM_SECTORS && s !in now
    ensures Taken(ds[n := s], n + 1, before, now + {s})
  {
    var ds' := ds[n := s];
    assert forall k :: 0 <= k < n ==> ds[k] in FirstSectors(ds, n);
    assert FirstSectors(ds', n + 1) == FirstSectors(ds, n) + {s} by {
      assert ds'[n] == s;
      assert forall k :: 0 <= k < n ==> ds'[k] == ds[k];
    }
  }
}
