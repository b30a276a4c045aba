/** How headers, the free map and the directory are laid out as bytes (the C structures as stored on disk). */
module FileFormats {
  import opened Words
  import opened OpenFiles

  // ---- arrays of words ----

  function WordsToBytes(ws: seq<Word>): (bs: seq<Byte>)
    ensures |bs| == 4 * |ws|
  {
    seq(4 * |ws|, i requires 0 <= i < 4 * |ws| => ByteOf(ws[i / 4], i % 4))
  }

  function BytesToWords(bs: seq<Byte>): (ws: seq<Word>)
    requires |bs| % 4 == 0
    ensures |ws| == |bs| / 4
  {
    seq(|bs| / 4, k requires 0 <= k < |bs| / 4 => FromBytes(bs[4 * k], bs[4 * k + 1], bs[4 * k + 2], bs[4 * k + 3]))
  }

  lemma ByteOfWords(ws: seq<Word>, k: nat, j: nat)
    requires k < |ws| && j < 4
    ensures WordsToBytes(ws)[4 * k + j] == ByteOf(ws[k], j)
  {
    hide ByteOf;
    assert (4 * k + j) / 4 == k && (4 * k + j) % 4 == j;
  }

  lemma WordBack(ws: seq<Word>, k: nat)
    requires k < |ws|
    ensures BytesToWords(WordsToBytes(ws))[k] == ws[k]
  {
    hide ByteOf, FromBytes, WordsToBytes;
    BytesOfWord(ws[k]);
    ByteOfWords(ws, k, 0);
    ByteOfWords(ws, k, 1);
    ByteOfWords(ws, k, 2);
    ByteOfWords(ws, k, 3);
  }

  lemma WordsRoundTrip(ws: seq<Word>)
    ensures BytesToWords(WordsToBytes(ws)) == ws
  {
    hide WordsToBytes, BytesToWords;
    forall k | 0 <= k < |ws|
      ensures BytesToWords(WordsToBytes(ws))[k] == ws[k]
    {
      WordBack(ws, k);
    }
  }

  // ---- file headers: two ints and thirty sector numbers fill one sector ----

  predicate IsStorable(h: Header) {
    IsInt32(h.numBytes) && IsInt32(h.numSectors) && |h.dataSectors| == NUM_DIRECT &&
    forall k :: 0 <= k < NUM_DIRECT ==> IsInt32(h.dataSectors[k])
  }

  function HeaderWords(h: Header): (ws: seq<Word>)
    requires |h.dataSectors| == NUM_DIRECT
    ensures |ws| == 32
  {
    [Wrap(h.numBytes), Wrap(h.numSectors)] + seq(NUM_DIRECT, k requires 0 <= k < NUM_DIRECT => Wrap(h.dataSectors[k]))
  }

  function HeaderOfWords(ws: seq<Word>): (h: Header)
    requires |ws| == 32
    ensures IsStorable(h)
  {
    Header(Signed(ws[0]), Signed(ws[1]), seq(NUM_DIRECT, k requires 0 <= k < NUM_DIRECT => Signed(ws[k + 2])))
  }

  function HeaderBytes(h: Header): Sector
    requires |h.dataSectors| == NUM_DIRECT
  { WordsToBytes(HeaderWords(h)) }

  function HeaderOf(bytes: Sector): (h: Header)
    ensures IsStorable(h)
  { HeaderOfWords(BytesToWords(bytes)) }

  lemma HeaderRoundTrip(h: Header)
    requires IsStorable(h)
    ensures HeaderOf(HeaderBytes(h)) == h
  {
    WordsRoundTrip(HeaderWords(h));
    hide WordsToBytes, BytesToWords;
    HeaderWordsRoundTrip(h);
  }

  lemma HeaderWordsRoundTrip(h: Header)
    requires IsStorable(h)
    ensures HeaderOfWords(HeaderWords(h)) == h
  {
    var h' := HeaderOfWords(HeaderWords(h));
    forall k | 0 <= k < NUM_DIRECT
      ensures h'.dataSectors[k] == h.dataSectors[k]
    {
      assert HeaderWords(h)[k + 2] == Wrap(h.dataSectors[k]);
    }
  }

  // ---- the free map ----

  function MapBytes(words: seq<bv32>): (bs: seq<Byte>)
    ensures |bs| == 4 * |words|
  { WordsToBytes(seq(|words|, k requires 0 <= k < |words| => words[k] as int)) }

  function MapOf(bs: seq<Byte>): (m: seq<bv32>)
    requires |bs| % 4 == 0
    ensures |m| == |bs| / 4
  {
    var ws := BytesToWords(bs);
    seq(|ws|, k requires 0 <= k < |ws| => ws[k] as bv32)
  }

  lemma MapRoundTrip(words: seq<bv32>)
    ensures MapOf(MapBytes(words)) == words
  {
    var ws: seq<Word> := seq(|words|, k requires 0 <= k < |words| => words[k] as int);
    WordsRoundTrip(ws);
    hide WordsToBytes, BytesToWords;
    assert BytesToWords(MapBytes(words)) == ws;
    forall k | 0 <= k < |words|
      ensures MapOf(MapBytes(words))[k] == words[k]
    {
      BvRoundTrip(words[k]);
    }
  }

  lemma BvRoundTrip(w: bv32)
    ensures (w as int) as bv32 == w
  {
  }

  // ---- directory entries: flag, padding, sector, ten name bytes, padding ----

  const NAME_FIELD: int := 10
  const ENTRY_SIZE: int := 20

  datatype Entry = Entry(inUse: bool, sector: int, name: seq<Byte>)

  predicate EntryOk(e: Entry) { IsInt32(e.sector) && |e.name| == NAME_FIELD }

  /** The padding bytes of the C structure hold whatever they held. */
  type Padding = p: seq<Byte> | |p| == 5 witness [0, 0, 0, 0, 0]

  function EntryBytes(e: Entry, pad: Padding): (bs: seq<Byte>)
    requires EntryOk(e)
    ensures |bs| == ENTRY_SIZE
  {
    [if e.inUse then 1 else 0] + pad[..3] + WordsToBytes([Wrap(e.sector)]) + e.name + pad[3..]
  }

  function EntryOf(bs: seq<Byte>): (e: Entry)
    requires |bs| == ENTRY_SIZE
    ensures EntryOk(e)
  {
    Entry(bs[0] != 0, Signed(BytesToWords(bs[4..8])[0]), bs[8..18])
  }

  lemma EntryFields(e: Entry, pad: Padding)
    requires EntryOk(e)
    ensures var bs := EntryBytes(e, pad);
            bs[0] == (if e.inUse then 1 else 0) && bs[4..8] == WordsToBytes([Wrap(e.sector)]) && bs[8..18] == e.name
  {
    hide WordsToBytes, Wrap;
    var bs, flag, word := EntryBytes(e, pad), [if e.inUse then 1 else 0], WordsToBytes([Wrap(e.sector)]);
    assert bs == flag + pad[..3] + (word + (e.name + pad[3..]));
    assert bs[4..] == word + (e.name + pad[3..]);
    assert bs[8..] == e.name + pad[3..];
  }

  lemma EntryRoundTrip(e: Entry, pad: Padding)
    requires EntryOk(e)
    ensures EntryOf(EntryBytes(e, pad)) == e
  {
    hide WordsToBytes, BytesToWords, EntryBytes;
    EntryFields(e, pad);
    WordsRoundTrip([Wrap(e.sector)]);
  }

  type Table = t: seq<Entry> | forall k :: 0 <= k < |t| ==> EntryOk(t[k])

  function PaddedBytes(t: Table, pads: seq<Padding>): (bs: seq<Byte>)
    requires |pads| == |t|
    ensures |bs| == ENTRY_SIZE * |t|
  {
    seq(ENTRY_SIZE * |t|, i requires 0 <= i < ENTRY_SIZE * |t| =>
      EntryBytes(t[i / ENTRY_SIZE], pads[i / ENTRY_SIZE])[i % ENTRY_SIZE])
  }

  /** What the modelled file system writes: padding of zeros. */
  function TableBytes(t: Table): (bs: seq<Byte>)
    ensures |bs| == ENTRY_SIZE * |t|
  { PaddedBytes(t, NoPads(|t|)) }

  function NoPads(n: nat): seq<Padding> { seq(n, _ => [0, 0, 0, 0, 0]) }

  function TableOf(bs: seq<Byte>): (t: Table)
    requires |bs| % ENTRY_SIZE == 0
    ensures |t| == |bs| / ENTRY_SIZE
  {
    seq(|bs| / ENTRY_SIZE, k requires 0 <= k < |bs| / ENTRY_SIZE => EntryOf(bs[ENTRY_SIZE * k..ENTRY_SIZE * (k + 1)]))
  }

  lemma EntryPlace(t: Table, pads: seq<Padding>, k: nat)
    requires |pads| == |t| && k < |t|
    ensures PaddedBytes(t, pads)[ENTRY_SIZE * k..ENTRY_SIZE * (k + 1)] == EntryBytes(t[k], pads[k])
  {
    hide EntryBytes;
    var bytes, entry := PaddedBytes(t, pads)[ENTRY_SIZE * k..ENTRY_SIZE * (k + 1)], EntryBytes(t[k], pads[k]);
    forall j | 0 <= j < ENTRY_SIZE
      ensures bytes[j] == entry[j]
    {
      QuotientIs(ENTRY_SIZE * k + j, ENTRY_SIZE, k, j);
    }
  }

  /** Whatever the padding. */
  lemma TableRoundTrip(t: Table, pads: seq<Padding>)
    requires |pads| == |t|
    ensures TableOf(PaddedBytes(t, pads)) == t
  {
    var bs := PaddedBytes(t, pads);
    hide EntryBytes, EntryOf;
    forall k | 0 <= k < |t|
      ensures TableOf(bs)[k] == t[k]
    {
      EntryPlace(t, pads, k);
      EntryRoundTrip(t[k], pads[k]);
    }
  }

  lemma TableBack(t: Table)
    ensures TableOf(TableBytes(t)) == t
  {
    TableRoundTrip(t, NoPads(|t|));
  }
}
