/** From a COFF object file to the memory a program sees (coff2noff/coff2noff.c, userprog/addrspace.cc). */
module Coff {
  import opened Words
  import opened PagedMemory
  import opened AddrSpaces
  import opened Bitmaps
  import opened Options

  const NOFF_MAGIC: int := 0xbadfad
  const NOFF_HEADER: int := 52
  const MIPSEL_MAGIC: int := 0x162
  const OMAGIC: int := 0x107
  const FILE_HEADER: int := 20
  const SECTION_TABLE: int := 76
  const SECTION_HEADER: int := 40

  // ---- the NOFF header on hosts of either byte order ----

  predicate IsSegment32(s: Segment) { IsInt32(s.virtualAddr) && IsInt32(s.inFileAddr) && IsInt32(s.size) }

  /** A header as C structures hold it. */
  predicate IsHeader32(h: NoffHeader) {
    IsSegment32(h.code) && IsSegment32(h.initData) && IsSegment32(h.readonlyData) && IsSegment32(h.uninitData)
  }

  function SegmentWords(s: Segment): (ws: seq<Word>)
    ensures |ws| == 3
  { [Wrap(s.virtualAddr), Wrap(s.inFileAddr), Wrap(s.size)] }

  function NoffWords(h: NoffHeader): (ws: seq<Word>)
    ensures |ws| == 13
  {
    [NOFF_MAGIC] + SegmentWords(h.code) + SegmentWords(h.initData) + SegmentWords(h.readonlyData)
      + SegmentWords(h.uninitData)
  }

  function SegmentAt(ws: seq<Word>, k: nat): (s: Segment)
    requires k + 3 <= |ws|
    ensures IsSegment32(s)
  { Segment(Signed(ws[k]), Signed(ws[k + 1]), Signed(ws[k + 2])) }

  function HeaderAt(ws: seq<Word>): (h: NoffHeader)
    requires |ws| == 13
    ensures IsHeader32(h)
  { NoffHeader(SegmentAt(ws, 1), SegmentAt(ws, 4), SegmentAt(ws, 7), SegmentAt(ws, 10)) }

  /** `SwapHeader`: convert every field. */
  function SwapHeader(bigEndian: bool, ws: seq<Word>): (r: seq<Word>)
    ensures |r| == |ws| && forall k :: 0 <= k < |ws| ==> r[k] == WordToHost(bigEndian, ws[k])
  { seq(|ws|, k requires 0 <= k < |ws| => WordToHost(bigEndian, ws[k])) }

  /** The bytes a host stores for its words. */
  function StoreWords(bigEndian: bool, ws: seq<Word>): (bs: seq<Byte>)
    ensures |bs| == 4 * |ws|
  {
    seq(4 * |ws|, i requires 0 <= i < 4 * |ws| => ByteOf(ws[i / 4], if bigEndian then 3 - i % 4 else i % 4))
  }

  /** The words a host reads from bytes. */
  function FetchWords(bigEndian: bool, bs: seq<Byte>): (ws: seq<Word>)
    requires |bs| % 4 == 0
    ensures |ws| == |bs| / 4
  {
    seq(|bs| / 4,
      k requires 0 <= k < |bs| / 4 => HostWord(bigEndian, bs[4 * k], bs[4 * k + 1], bs[4 * k + 2], bs[4 * k + 3]))
  }

  /** What the converter writes: the header, swapped on a big-endian host. */
  function WriteHeader(bigEndian: bool, h: NoffHeader): (bs: seq<Byte>)
    ensures |bs| == NOFF_HEADER
  { StoreWords(bigEndian, SwapHeader(bigEndian, NoffWords(h))) }

  /** What the loader reads: swapped only when the magic number asks for it; no header without the magic number. */
  function ReadHeader(bigEndian: bool, file: seq<Byte>): Option<NoffHeader>
    requires |file| >= NOFF_HEADER
  {
    var raw := FetchWords(bigEndian, file[..NOFF_HEADER]);
    var swapped := raw[0] != NOFF_MAGIC && WordToHost(bigEndian, raw[0]) == NOFF_MAGIC;
    var ws := if swapped then SwapHeader(bigEndian, raw) else raw;
    if ws[0] == NOFF_MAGIC then Some(HeaderAt(ws)) else None
  }

  /** Storing a converted word and fetching it on any other host gives the word, or its conversion. */
  lemma CrossHost(writer: bool, reader: bool, w: Word)
    ensures var v := WordToHost(writer, w);
            HostWord(reader, ByteOf(v, if writer then 3 else 0), ByteOf(v, if writer then 2 else 1),
              ByteOf(v, if writer then 1 else 2), ByteOf(v, if writer then 0 else 3))
            == WordToHost(reader, w)
  {
    BytesOfWord(w);
    var b0, b1, b2, b3 := ByteOf(w, 0), ByteOf(w, 1), ByteOf(w, 2), ByteOf(w, 3);
    WordOrder(true, b3, b2, b1, b0);
    BytesOfFromBytes(b3, b2, b1, b0);
  }

  lemma CrossHostWords(writer: bool, reader: bool, ws: seq<Word>)
    ensures FetchWords(reader, StoreWords(writer, SwapHeader(writer, ws))) == SwapHeader(reader, ws)
  {
    hide StoreWords, SwapHeader, WordToHost, HostWord;
    var bs := StoreWords(writer, SwapHeader(writer, ws));
    forall k | 0 <= k < |ws|
      ensures FetchWords(reader, bs)[k] == WordToHost(reader, ws[k])
    {
      FetchStored(writer, reader, ws, k);
    }
  }

  lemma FetchStored(writer: bool, reader: bool, ws: seq<Word>, k: nat)
    requires k < |ws|
    ensures var bs := StoreWords(writer, SwapHeader(writer, ws));
            HostWord(reader, bs[4 * k], bs[4 * k + 1], bs[4 * k + 2], bs[4 * k + 3]) == WordToHost(reader, ws[k])
  {
    hide ByteOf, HostWord, WordToHost, SwapHeader, StoreWords;
    var stored := SwapHeader(writer, ws);
    CrossHost(writer, reader, ws[k]);
    StoredByte(writer, stored, k, 0);
    StoredByte(writer, stored, k, 1);
    StoredByte(writer, stored, k, 2);
    StoredByte(writer, stored, k, 3);
  }

  lemma StoredByte(bigEndian: bool, ws: seq<Word>, k: nat, j: nat)
    requires k < |ws| && j < 4
    ensures StoreWords(bigEndian, ws)[4 * k + j] == ByteOf(ws[k], if bigEndian then 3 - j else j)
  {
    hide ByteOf;
    assert (4 * k + j) / 4 == k && (4 * k + j) % 4 == j;
  }

  lemma SwapTwice(bigEndian: bool, ws: seq<Word>)
    ensures SwapHeader(bigEndian, SwapHeader(bigEndian, ws)) == ws
  {
    forall k | 0 <= k < |ws|
      ensures WordToHost(bigEndian, WordToHost(bigEndian, ws[k])) == ws[k]
    {
      WordToHostInvolution(bigEndian, ws[k]);
    }
  }

  /** A header written on a host of either order is read back on a host of either order. */
  lemma NoffRoundTrip(writer: bool, reader: bool, h: NoffHeader, body: seq<Byte>)
    requires IsHeader32(h)
    ensures ReadHeader(reader, WriteHeader(writer, h) + body) == Some(h)
  {
    hide FetchWords, StoreWords, SwapHeader, WordToHost, NoffWords, HeaderAt;
    var ws := NoffWords(h);
    assert (WriteHeader(writer, h) + body)[..NOFF_HEADER] == WriteHeader(writer, h);
    CrossHostWords(writer, reader, ws);
    SwapTwice(reader, ws);
    MagicOnHost(reader);
    if !reader {
      SwapOnLittle(ws);
    }
    HeaderWordsAgree(h);
  }

  lemma MagicOnHost(reader: bool)
    ensures WordToHost(reader, WordToHost(reader, NOFF_MAGIC)) == NOFF_MAGIC
    ensures (WordToHost(reader, NOFF_MAGIC) == NOFF_MAGIC) <==> !reader
  {
    if reader {
      assert WordToHost(true, 0xbadfad) == 0xaddfba00;
      assert WordToHost(true, 0xaddfba00) == 0xbadfad;
    }
  }

  lemma SwapOnLittle(ws: seq<Word>)
    ensures SwapHeader(false, ws) == ws
  {
  }

  lemma SegmentBack(ws: seq<Word>, k: nat, s: Segment)
    requires IsSegment32(s) && k + 3 <= |ws| && ws[k..k + 3] == SegmentWords(s)
    ensures SegmentAt(ws, k) == s
  {
    SignedWrap(s.virtualAddr);
    SignedWrap(s.inFileAddr);
    SignedWrap(s.size);
    assert ws[k] == ws[k..k + 3][0] && ws[k + 1] == ws[k..k + 3][1] && ws[k + 2] == ws[k..k + 3][2];
    hide Wrap, Signed;
  }

  lemma HeaderWordsAgree(h: NoffHeader)
    requires IsHeader32(h)
    ensures HeaderAt(NoffWords(h)) == h && NoffWords(h)[0] == NOFF_MAGIC
  {
    hide SegmentWords, SegmentAt, Wrap;
    var ws := NoffWords(h);
    assert ws == [NOFF_MAGIC] + (SegmentWords(h.code) + (SegmentWords(h.initData)
                 + (SegmentWords(h.readonlyData) + SegmentWords(h.uninitData))));
    assert ws[1..4] == SegmentWords(h.code) && ws[4..7] == SegmentWords(h.initData);
    assert ws[7..10] == SegmentWords(h.readonlyData) && ws[10..13] == SegmentWords(h.uninitData);
    SegmentBack(ws, 1, h.code);
    SegmentBack(ws, 4, h.initData);
    SegmentBack(ws, 7, h.readonlyData);
    SegmentBack(ws, 10, h.uninitData);
  }

  // ---- the COFF file ----

  /** A section header, fields converted to the host. */
  datatype Section = Section(name: seq<Byte>, paddr: int, size: int, scnptr: int)

  datatype Kind = Text | Data | ReadOnlyData | Bss | Unknown

  /** `strcmp` with the four names; a name that fills its field with no terminator matches none of them. */
  function KindOf(name: seq<Byte>): Kind
    requires |name| == 8
  {
    if name[..6] == [46, 116, 101, 120, 116, 0] then Text
    else if name[..6] == [46, 100, 97, 116, 97, 0] then Data
    else if name[..7] == [46, 114, 100, 97, 116, 97, 0] then ReadOnlyData
    else if name[..5] == [46, 98, 115, 115, 0] then Bss
    else Unknown
  }

  function FieldAt(bigEndian: bool, bs: seq<Byte>, i: nat): (n: int)
    requires i + 4 <= |bs|
    ensures IsInt32(n)
  { Signed(WordToHost(bigEndian, HostWord(bigEndian, bs[i], bs[i + 1], bs[i + 2], bs[i + 3]))) }

  function ShortAt(bigEndian: bool, bs: seq<Byte>, i: nat): int
    requires i + 2 <= |bs|
  { ShortToHost(bigEndian, HostShort(bigEndian, bs[i], bs[i + 1])) }

  function SectionAt(bigEndian: bool, coff: seq<Byte>, i: nat): (s: Section)
    requires SECTION_TABLE + SECTION_HEADER * (i + 1) <= |coff|
    ensures |s.name| == 8 && IsInt32(s.paddr) && IsInt32(s.size) && IsInt32(s.scnptr)
  {
    var at := SECTION_TABLE + SECTION_HEADER * i;
    Section(coff[at..at + 8], FieldAt(bigEndian, coff, at + 8), FieldAt(bigEndian, coff, at + 16),
      FieldAt(bigEndian, coff, at + 20))
  }

  /** The file's own, host-independent reading: all fields little-endian. */
  predicate HasTable(coff: seq<Byte>) {
    && |coff| >= SECTION_TABLE && ShortAt(false, coff, 0) == MIPSEL_MAGIC && ShortAt(false, coff, FILE_HEADER) == OMAGIC
    && SECTION_TABLE + SECTION_HEADER * ShortAt(false, coff, 2) <= |coff|
  }

  function Table(coff: seq<Byte>): (t: seq<Section>)
    requires HasTable(coff)
    ensures IsTable(t) && |t| == ShortAt(false, coff, 2)
    ensures forall i :: 0 <= i < |t| ==> t[i] == SectionAt(false, coff, i)
  {
    hide FieldAt;
    seq(ShortAt(false, coff, 2), i requires 0 <= i < ShortAt(false, coff, 2) => SectionAt(false, coff, i))
  }

  lemma FieldOrder(bigEndian: bool, bs: seq<Byte>, i: nat)
    requires i + 4 <= |bs|
    ensures FieldAt(bigEndian, bs, i) == FieldAt(false, bs, i)
  {
    WordOrder(bigEndian, bs[i], bs[i + 1], bs[i + 2], bs[i + 3]);
    WordOrder(false, bs[i], bs[i + 1], bs[i + 2], bs[i + 3]);
  }

  lemma SectionOrder(bigEndian: bool, coff: seq<Byte>, i: nat)
    requires SECTION_TABLE + SECTION_HEADER * (i + 1) <= |coff|
    ensures SectionAt(bigEndian, coff, i) == SectionAt(false, coff, i)
  {
    var at := SECTION_TABLE + SECTION_HEADER * i;
    hide FieldAt;
    FieldOrder(bigEndian, coff, at + 8);
    FieldOrder(bigEndian, coff, at + 16);
    FieldOrder(bigEndian, coff, at + 20);
  }

  // ---- what conversion must achieve ----

  predicate IsCopied(k: Kind) { k == Text || k == Data || k == ReadOnlyData }

  predicate IsTable(t: seq<Section>) {
    forall i :: 0 <= i < |t| ==> |t[i].name| == 8 && IsInt32(t[i].paddr) && IsInt32(t[i].size) && IsInt32(t[i].scnptr)
  }

  /** Section `i` is a non-empty one of kind `k`. */
  predicate Is(t: seq<Section>, i: int, k: Kind)
    requires IsTable(t)
  { 0 <= i < |t| && t[i].size != 0 && KindOf(t[i].name) == k }

  /** The last non-empty section of a kind among the first `n`, or -1. */
  function LastOf(t: seq<Section>, n: nat, k: Kind): (i: int)
    requires n <= |t| && IsTable(t)
    ensures -1 <= i < n
    ensures i >= 0 ==> Is(t, i, k)
    ensures forall j :: i < j < n ==> !Is(t, j, k)
  {
    if n == 0 then -1 else if Is(t, n - 1, k) then n - 1 else LastOf(t, n - 1, k)
  }

  function BodySize(t: seq<Section>, n: nat): int
    requires n <= |t| && IsTable(t)
  {
    if n == 0 then 0
    else BodySize(t, n - 1) + if t[n - 1].size != 0 && IsCopied(KindOf(t[n - 1].name)) then t[n - 1].size else 0
  }

  /** Where the uninitialized data starts and its size after the first `n` sections. */
  function BssOf(t: seq<Section>, n: nat): (int, int)
    requires n <= |t| && IsTable(t)
  {
    if n == 0 then (0, 0)
    else
      var b := BssOf(t, n - 1);
      if !Is(t, n - 1, Bss) then b else if b.1 != 0 then (b.0, b.1 + t[n - 1].size) else (t[n - 1].paddr, t[n - 1].size)
  }

  predicate Readable(s: Section, coff: seq<Byte>) { s.size > 0 && 0 <= s.scnptr && s.scnptr + s.size <= |coff| }

  /** The converter accepts section `i`: its bytes exist, fit in the output file, and its name is known. */
  predicate Accepts(coff: seq<Byte>, t: seq<Section>, i: nat)
    requires i < |t| && IsTable(t)
  {
    t[i].size == 0 ||
    match KindOf(t[i].name)
    case Unknown => false
    case Bss => var b := BssOf(t, i); b.1 == 0 || t[i].paddr != b.0 + b.1
    case _ => Readable(t[i], coff) && IsInt32(NOFF_HEADER + BodySize(t, i + 1))
  }

  predicate Convertible(coff: seq<Byte>) {
    HasTable(coff) && forall i :: 0 <= i < |Table(coff)| ==> Accepts(coff, Table(coff), i)
  }

  function SegmentOf(h: NoffHeader, k: Kind): Segment
    requires IsCopied(k)
  { if k == Text then h.code else if k == Data then h.initData else h.readonlyData }

  /** The segment of a kind describes the last such section, and the body holds that section's bytes. */
  predicate Placed(coff: seq<Byte>, t: seq<Section>, n: nat, k: Kind, s: Segment, body: seq<Byte>)
    requires n <= |t| && IsTable(t)
  {
    var i := LastOf(t, n, k);
    if i < 0 then s.size == 0
    else
      && Readable(t[i], coff) && s.virtualAddr == t[i].paddr && s.size == t[i].size
      && NOFF_HEADER <= s.inFileAddr && s.inFileAddr + s.size <= NOFF_HEADER + |body|
      && body[s.inFileAddr - NOFF_HEADER..s.inFileAddr - NOFF_HEADER + s.size]
         == coff[t[i].scnptr..t[i].scnptr + t[i].size]
  }

  /** The header and body after `n` sections. */
  predicate Laid(coff: seq<Byte>, t: seq<Section>, n: nat, h: NoffHeader, body: seq<Byte>)
    requires n <= |t| && IsTable(t)
  {
    && Placed(coff, t, n, Text, h.code, body) && Placed(coff, t, n, Data, h.initData, body)
    && Placed(coff, t, n, ReadOnlyData, h.readonlyData, body)
    && h.uninitData.size == BssOf(t, n).1 && (h.uninitData.size != 0 ==> h.uninitData.virtualAddr == BssOf(t, n).0)
    && |body| == BodySize(t, n)
    && IsSegment32(h.code) && IsSegment32(h.initData) && IsSegment32(h.readonlyData)
    && IsInt32(NOFF_HEADER + |body|) && IsInt32(h.uninitData.virtualAddr) && IsInt32(h.uninitData.inFileAddr)
  }

  /** A NOFF file that any host reads as header `h` and that holds the sections of a COFF file. */
  predicate Converted(coff: seq<Byte>, file: seq<Byte>, h: NoffHeader) {
    && HasTable(coff) && |file| >= NOFF_HEADER
    && ReadHeader(false, file) == Some(h) && ReadHeader(true, file) == Some(h)
    && Placed(coff, Table(coff), |Table(coff)|, Text, h.code, file[NOFF_HEADER..])
    && Placed(coff, Table(coff), |Table(coff)|, Data, h.initData, file[NOFF_HEADER..])
    && Placed(coff, Table(coff), |Table(coff)|, ReadOnlyData, h.readonlyData, file[NOFF_HEADER..])
    && h.uninitData.size == Signed(Wrap(BssOf(Table(coff), |Table(coff)|).1))
  }

  // ---- the converter ----

  datatype Failure = TooShort | NotMipsel | NotOmagic | UnknownSegment | BssAndSbss | CannotWrite

  datatype Outcome = Noff(file: seq<Byte>) | Failed(reason: Failure)

  function WithSegment(h: NoffHeader, k: Kind, s: Segment): NoffHeader
    requires IsCopied(k)
  {
    if k == Text then h.(code := s) else if k == Data then h.(initData := s) else h.(readonlyData := s)
  }

  lemma PlacedStep(coff: seq<Byte>, t: seq<Section>, n: nat, k: Kind, s: Segment, body: seq<Byte>, more: seq<Byte>)
    requires n < |t| && IsTable(t) && Placed(coff, t, n, k, s, body) && !Is(t, n, k)
    ensures Placed(coff, t, n + 1, k, s, body + more)
  {
    var i := LastOf(t, n, k);
    assert LastOf(t, n + 1, k) == i;
    if i >= 0 {
      var a, b := s.inFileAddr - NOFF_HEADER, s.inFileAddr - NOFF_HEADER + s.size;
      assert (body + more)[a..b] == body[a..b];
    }
  }

  lemma LaidCopy(coff: seq<Byte>, t: seq<Section>, n: nat, h: NoffHeader, body: seq<Byte>, k: Kind)
    requires n < |t| && IsTable(t) && Laid(coff, t, n, h, body)
    requires Is(t, n, k) && IsCopied(k) && Readable(t[n], coff) && IsInt32(NOFF_HEADER + |body| + t[n].size)
    ensures var s := Segment(t[n].paddr, NOFF_HEADER + |body|, t[n].size);
            Laid(coff, t, n + 1, WithSegment(h, k, s), body + coff[t[n].scnptr..t[n].scnptr + t[n].size])
  {
    hide KindOf, LastOf, Placed;
    var more := coff[t[n].scnptr..t[n].scnptr + t[n].size];
    var s := Segment(t[n].paddr, NOFF_HEADER + |body|, t[n].size);
    if k != Text { PlacedStep(coff, t, n, Text, h.code, body, more); }
    if k != Data { PlacedStep(coff, t, n, Data, h.initData, body, more); }
    if k != ReadOnlyData { PlacedStep(coff, t, n, ReadOnlyData, h.readonlyData, body, more); }
    PlacedHere(coff, t, n, k, body);
  }

  lemma PlacedHere(coff: seq<Byte>, t: seq<Section>, n: nat, k: Kind, body: seq<Byte>)
    requires n < |t| && IsTable(t) && Is(t, n, k) && Readable(t[n], coff)
    ensures Placed(coff, t, n + 1, k, Segment(t[n].paddr, NOFF_HEADER + |body|, t[n].size),
                   body + coff[t[n].scnptr..t[n].scnptr + t[n].size])
  {
    hide KindOf;
    var more := coff[t[n].scnptr..t[n].scnptr + t[n].size];
    assert LastOf(t, n + 1, k) == n;
    assert (body + more)[|body|..|body| + |more|] == more;
  }

  lemma LaidKeep(coff: seq<Byte>, t: seq<Section>, n: nat, h: NoffHeader, body: seq<Byte>, bss: Segment)
    requires n < |t| && IsTable(t) && Laid(coff, t, n, h, body)
    requires t[n].size == 0 || Is(t, n, Bss)
    requires bss.size == BssOf(t, n + 1).1 && (bss.size != 0 ==> bss.virtualAddr == BssOf(t, n + 1).0)
    requires IsInt32(bss.virtualAddr) && IsInt32(bss.inFileAddr)
    ensures Laid(coff, t, n + 1, h.(uninitData := bss), body)
  {
    hide KindOf;
    PlacedStep(coff, t, n, Text, h.code, body, []);
    PlacedStep(coff, t, n, Data, h.initData, body, []);
    PlacedStep(coff, t, n, ReadOnlyData, h.readonlyData, body, []);
    assert body + [] == body;
  }

  /** One turn of the section-copy loop. */
  method CopySection(coff: seq<Byte>, t: seq<Section>, i: nat, was: NoffHeader, body: seq<Byte>)
    returns (failure: Option<Failure>, h: NoffHeader, more: seq<Byte>)
    requires i < |t| && IsTable(t) && Laid(coff, t, i, was, body)
    ensures failure.None? <==> Accepts(coff, t, i)
    ensures failure.None? ==> Laid(coff, t, i + 1, h, body + more)
  {
    hide Placed, LastOf, KindOf, BodySize;
    failure, h, more := None, was, [];
    assert body + [] == body;
    var s := t[i];
    var kind := KindOf(s.name);
    if s.size == 0 {
      LaidKeep(coff, t, i, was, body, was.uninitData);
    } else if kind == Unknown {
      failure := Some(UnknownSegment);
    } else if kind == Bss {
      var bss := was.uninitData;
      if bss.size != 0 {
        if s.paddr == bss.virtualAddr + bss.size {
          return Some(BssAndSbss), h, more;
        }
        bss := bss.(size := bss.size + s.size);
      } else {
        bss := bss.(virtualAddr := s.paddr, size := s.size);
      }
      LaidKeep(coff, t, i, was, body, bss);
      h := was.(uninitData := bss);
    } else {
      BodyGrows(t, i, kind);
      if s.size < 0 || s.scnptr < 0 || s.scnptr + s.size > |coff| {
        return Some(TooShort), h, more;
      }
      if !IsInt32(NOFF_HEADER + |body| + s.size) {
        return Some(CannotWrite), h, more;
      }
      LaidCopy(coff, t, i, was, body, kind);
      h := WithSegment(was, kind, Segment(s.paddr, NOFF_HEADER + |body|, s.size));
      more := coff[s.scnptr..s.scnptr + s.size];
    }
  }

  lemma BodyGrows(t: seq<Section>, i: nat, k: Kind)
    requires i < |t| && IsTable(t) && Is(t, i, k) && IsCopied(k)
    ensures BodySize(t, i + 1) == BodySize(t, i) + t[i].size
  {
  }

  lemma NothingLaid(coff: seq<Byte>, t: seq<Section>, h: NoffHeader)
    requires IsTable(t) && IsHeader32(h)
    requires h.code.size == h.initData.size == h.readonlyData.size == h.uninitData.size == 0
    ensures Laid(coff, t, 0, h, [])
  {
  }

  /** The section-copy loop: stops at the first section it cannot accept. */
  method CopySections(coff: seq<Byte>, t: seq<Section>, blank: NoffHeader)
    returns (failure: Option<Failure>, h: NoffHeader, body: seq<Byte>)
    requires IsTable(t) && IsHeader32(blank)
    ensures failure.None? <==> forall i :: 0 <= i < |t| ==> Accepts(coff, t, i)
    ensures failure.None? ==> Laid(coff, t, |t|, h, body)
  {
    hide Laid, Accepts, IsTable;
    h := NoffHeader(blank.code.(size := 0), blank.initData.(size := 0), blank.readonlyData.(size := 0),
                    blank.uninitData.(size := 0));
    body := [];
    NothingLaid(coff, t, h);
    var i := 0;
    while i < |t|
      invariant 0 <= i <= |t| && Laid(coff, t, i, h, body)
      invariant forall j :: 0 <= j < i ==> Accepts(coff, t, j)
    {
      var next, more;
      failure, next, more := CopySection(coff, t, i, h, body);
      if failure.Some? {
        return;
      }
      h, body := next, body + more;
      i := i + 1;
    }
    failure := None;
  }

  /** The file header and system header checks. */
  method CheckHeaders(bigEndian: bool, coff: seq<Byte>) returns (failure: Option<Failure>)
    ensures failure.None? <==> HasTable(coff)
  {
    hide ShortAt;
    if |coff| < FILE_HEADER {
      return Some(TooShort);
    }
    HeaderOrder(bigEndian, coff);
    if ShortAt(bigEndian, coff, 0) != MIPSEL_MAGIC {
      return Some(NotMipsel);
    }
    if |coff| < SECTION_TABLE {
      return Some(TooShort);
    }
    ShortHost(bigEndian, coff, FILE_HEADER);
    if ShortAt(bigEndian, coff, FILE_HEADER) != OMAGIC {
      return Some(NotOmagic);
    }
    var n := ShortAt(bigEndian, coff, 2);
    failure := if |coff| < SECTION_TABLE + SECTION_HEADER * n then Some(TooShort) else None;
  }

  lemma ConvertedReads(coff: seq<Byte>, file: seq<Byte>, h: NoffHeader)
    requires Converted(coff, file, h)
    ensures |file| >= NOFF_HEADER && ReadHeader(false, file) == ReadHeader(true, file) == Some(h)
  {
    hide ReadHeader, Placed, HasTable, Table;
  }

  /** The whole conversion, on a host of either order; `blank` is whatever the header variable held at the start. */
  method Convert(bigEndian: bool, coff: seq<Byte>, blank: NoffHeader) returns (r: Outcome)
    requires IsHeader32(blank)
    ensures r.Noff? <==> Convertible(coff)
    ensures r.Noff? ==> |r.file| >= NOFF_HEADER && ReadHeader(false, r.file).Some?
    ensures r.Noff? ==> Converted(coff, r.file, ReadHeader(false, r.file).value)
  {
    hide HasTable, Table, Accepts, Laid, Converted, ReadHeader, WriteHeader;
    var failure := CheckHeaders(bigEndian, coff);
    if failure.Some? {
      return Failed(failure.value);
    }
    var sections := ReadSections(bigEndian, coff);
    var h, body;
    failure, h, body := CopySections(coff, sections, blank);
    if failure.Some? {
      return Failed(failure.value);
    }
    Finished(bigEndian, coff, h, body);
    ConvertedReads(coff, WriteHeader(bigEndian, h) + body,
                   h.(uninitData := h.uninitData.(size := Signed(Wrap(h.uninitData.size)))));
    r := Noff(WriteHeader(bigEndian, h) + body);
  }

  lemma Finished(bigEndian: bool, coff: seq<Byte>, h: NoffHeader, body: seq<Byte>)
    requires HasTable(coff) && Laid(coff, Table(coff), |Table(coff)|, h, body)
    ensures var h' := h.(uninitData := h.uninitData.(size := Signed(Wrap(h.uninitData.size))));
            Converted(coff, WriteHeader(bigEndian, h) + body, h')
  {
    hide Placed, BssOf, HasTable, Table, ReadHeader, StoreWords, SwapHeader;
    var h' := h.(uninitData := h.uninitData.(size := Signed(Wrap(h.uninitData.size))));
    assert NoffWords(h') == NoffWords(h);
    var file := WriteHeader(bigEndian, h) + body;
    assert file[NOFF_HEADER..] == body;
    NoffRoundTrip(bigEndian, false, h', body);
    NoffRoundTrip(bigEndian, true, h', body);
  }

  lemma HeaderOrder(bigEndian: bool, coff: seq<Byte>)
    requires |coff| >= FILE_HEADER
    ensures ShortAt(bigEndian, coff, 0) == ShortAt(false, coff, 0)
    ensures ShortAt(bigEndian, coff, 2) == ShortAt(false, coff, 2) >= 0
  {
    hide ShortAt;
    ShortHost(bigEndian, coff, 0);
    ShortHost(bigEndian, coff, 2);
  }

  lemma ShortHost(bigEndian: bool, bs: seq<Byte>, i: nat)
    requires i + 2 <= |bs|
    ensures ShortAt(bigEndian, bs, i) == ShortAt(false, bs, i) >= 0
  {
    ShortOrder(bigEndian, bs[i], bs[i + 1]);
    ShortOrder(false, bs[i], bs[i + 1]);
  }

  /** Read the section headers and convert them to the host's order. */
  method ReadSections(bigEndian: bool, coff: seq<Byte>) returns (sections: seq<Section>)
    requires HasTable(coff)
    ensures sections == Table(coff)
  {
    hide FieldAt, SectionAt;
    sections := [];
    var n := ShortAt(bigEndian, coff, 2);
    HeaderOrder(bigEndian, coff);
    hide ShortAt;
    var i := 0;
    while i < n
      invariant 0 <= i <= n == |Table(coff)| && sections == Table(coff)[..i]
    {
      SectionOrder(bigEndian, coff, i);
      sections := sections + [SectionAt(bigEndian, coff, i)];
      i := i + 1;
    }
  }

  // ---- from section to address ----

  predicate Covers(s: Section, va: int)
    requires |s.name| == 8
  { s.size != 0 && IsCopied(KindOf(s.name)) && s.paddr <= va < s.paddr + s.size }

  /** A file fit for loading: one non-empty section of each copied kind, disjoint, filling the addresses from zero. */
  ghost predicate Loadable(coff: seq<Byte>) {
    HasTable(coff) &&
    var t := Table(coff);
    && OnePerKind(t)
    && (forall i, va :: 0 <= i < |t| && Covers(t[i], va) ==> 0 <= va < BodySize(t, |t|))
    && (forall i, j, va :: 0 <= i < j < |t| && Covers(t[i], va) ==> !Covers(t[j], va))
    && 0 <= BssOf(t, |t|).1 < TWO31
  }

  ghost predicate OnePerKind(t: seq<Section>)
    requires IsTable(t)
  { forall i, j, k :: Is(t, i, k) && Is(t, j, k) && IsCopied(k) ==> i == j }

  /** What the program should see at an address: its section's byte, or zero. */
  function SeenAt(coff: seq<Byte>, t: seq<Section>, n: nat, va: int): Byte
    requires n <= |t| && IsTable(t)
  {
    if n == 0 then 0
    else if Covers(t[n - 1], va) && 0 <= t[n - 1].scnptr + va - t[n - 1].paddr < |coff|
    then coff[t[n - 1].scnptr + va - t[n - 1].paddr]
    else SeenAt(coff, t, n - 1, va)
  }

  function SizeOf(t: seq<Section>, n: nat, k: Kind): int
    requires n <= |t| && IsTable(t)
  { if LastOf(t, n, k) < 0 then 0 else t[LastOf(t, n, k)].size }

  lemma {:induction false} BodyIsSegments(t: seq<Section>, n: nat)
    requires n <= |t| && IsTable(t) && OnePerKind(t)
    ensures BodySize(t, n) == SizeOf(t, n, Text) + SizeOf(t, n, Data) + SizeOf(t, n, ReadOnlyData)
  {
    hide KindOf;
    if n > 0 {
      BodyIsSegments(t, n - 1);
      var k := KindOf(t[n - 1].name);
      if Is(t, n - 1, k) && IsCopied(k) {
        assert LastOf(t, n - 1, k) < 0;
      }
    }
  }

  /** The segment of each kind, in terms of its section. */
  lemma SegmentHolds(coff: seq<Byte>, file: seq<Byte>, h: NoffHeader, k: Kind)
    requires Converted(coff, file, h) && IsCopied(k)
    ensures SegmentOf(h, k).size == SizeOf(Table(coff), |Table(coff)|, k)
    ensures Placed(coff, Table(coff), |Table(coff)|, k, SegmentOf(h, k), file[NOFF_HEADER..])
  {
    hide ReadHeader, HasTable, Table, LastOf;
  }

  lemma SegmentFitsHere(coff: seq<Byte>, file: seq<Byte>, h: NoffHeader, k: Kind)
    requires Loadable(coff) && Converted(coff, file, h) && IsCopied(k)
    ensures SegmentFits(SegmentOf(h, k), BodySize(Table(coff), |Table(coff)|), |file|)
  {
    hide ReadHeader, HasTable, Table, KindOf;
    SegmentHolds(coff, file, h, k);
    var t, s := Table(coff), SegmentOf(h, k);
    var i := LastOf(t, |t|, k);
    if i >= 0 {
      assert Covers(t[i], t[i].paddr) && Covers(t[i], t[i].paddr + t[i].size - 1);
    }
  }

  /** Conversion meets what the loader asks of a file. */
  lemma ConversionFits(coff: seq<Byte>, file: seq<Byte>, h: NoffHeader)
    requires Loadable(coff) && Converted(coff, file, h)
    ensures HeaderFits(h, |file|) && SegmentBytes(h) == BodySize(Table(coff), |Table(coff)|)
  {
    hide ReadHeader, HasTable, Table, KindOf, BssOf, BodySize, Placed, LastOf, SizeOf;
    var t := Table(coff);
    BodyIsSegments(t, |t|);
    SegmentHolds(coff, file, h, Text);
    SegmentHolds(coff, file, h, Data);
    SegmentHolds(coff, file, h, ReadOnlyData);
    SegmentFitsHere(coff, file, h, Text);
    SegmentFitsHere(coff, file, h, Data);
    SegmentFitsHere(coff, file, h, ReadOnlyData);
  }

  /** The loader left the file's image in the frames of a page table. */
  predicate LoadedAs(h: NoffHeader, file: seq<Byte>, mem: Memory, pages: PageTable) {
    HeaderFits(h, |file|) && Holds(mem, pages, MemoryImage(h, file))
  }

  predicate Within(s: Segment, va: int) { s.size > 0 && s.virtualAddr <= va < s.virtualAddr + s.size }

  lemma ImageAt(h: NoffHeader, file: seq<Byte>, va: int)
    requires HeaderFits(h, |file|) && 0 <= va < NumPages(h) * PAGE_SIZE
    ensures MemoryImage(h, file)[va]
         == if Within(h.readonlyData, va) then file[h.readonlyData.inFileAddr + va - h.readonlyData.virtualAddr]
            else if Within(h.initData, va) then file[h.initData.inFileAddr + va - h.initData.virtualAddr]
            else if Within(h.code, va) then file[h.code.inFileAddr + va - h.code.virtualAddr] else 0
  {
    hide PutSegment, NumPages;
  }

  lemma {:induction false} SeenCovered(coff: seq<Byte>, t: seq<Section>, n: nat, i: nat, va: int)
    requires i < n <= |t| && IsTable(t) && Covers(t[i], va) && Readable(t[i], coff)
    requires forall j :: 0 <= j < |t| && j != i ==> !Covers(t[j], va)
    ensures SeenAt(coff, t, n, va) == coff[t[i].scnptr + va - t[i].paddr]
  {
    hide KindOf;
    if n - 1 != i {
      SeenCovered(coff, t, n - 1, i, va);
    }
  }

  lemma {:induction false} SeenUncovered(coff: seq<Byte>, t: seq<Section>, n: nat, va: int)
    requires n <= |t| && IsTable(t) && forall j :: 0 <= j < n ==> !Covers(t[j], va)
    ensures SeenAt(coff, t, n, va) == 0
  {
    if n > 0 {
      SeenUncovered(coff, t, n - 1, va);
    }
  }

  /** The segment of a kind covers an address exactly when its section does, and its byte there is the section's. */
  lemma SegmentIsSection(coff: seq<Byte>, file: seq<Byte>, h: NoffHeader, k: Kind, va: int)
    requires Loadable(coff) && Converted(coff, file, h) && IsCopied(k)
    ensures var t, s := Table(coff), SegmentOf(h, k);
            var i := LastOf(t, |t|, k);
            && (Within(s, va) <==> i >= 0 && Covers(t[i], va))
            && (Within(s, va) ==> Readable(t[i], coff) && 0 <= s.inFileAddr + va - s.virtualAddr < |file|)
            && (Within(s, va) ==> file[s.inFileAddr + va - s.virtualAddr] == coff[t[i].scnptr + va - t[i].paddr])
  {
    hide ReadHeader, HasTable, Table, KindOf, LastOf, BodySize, BssOf, Placed, OnePerKind, Covers, SegmentOf;
    SegmentHolds(coff, file, h, k);
    hide Loadable;
    PlacedByte(coff, Table(coff), k, SegmentOf(h, k), file[NOFF_HEADER..], va);
  }

  lemma PlacedByte(coff: seq<Byte>, t: seq<Section>, k: Kind, s: Segment, body: seq<Byte>, va: int)
    requires IsTable(t) && IsCopied(k) && Placed(coff, t, |t|, k, s, body)
    ensures var i, at := LastOf(t, |t|, k), s.inFileAddr + va - s.virtualAddr - NOFF_HEADER;
            && (Within(s, va) <==> i >= 0 && Covers(t[i], va))
            && (Within(s, va) ==> Readable(t[i], coff) && 0 <= at < |body|)
            && (Within(s, va) ==> body[at] == coff[t[i].scnptr + va - t[i].paddr])
  {
    hide KindOf, LastOf, Readable, IsTable;
    var i := LastOf(t, |t|, k);
    assert i >= 0 ==> Is(t, i, k);
    if i >= 0 && Within(s, va) {
      CopiedByte(coff, t[i], s, body, va);
    }
  }

  lemma CopiedByte(coff: seq<Byte>, from: Section, s: Segment, body: seq<Byte>, va: int)
    requires Readable(from, coff) && s.virtualAddr == from.paddr && s.size == from.size && Within(s, va)
    requires NOFF_HEADER <= s.inFileAddr && s.inFileAddr + s.size <= NOFF_HEADER + |body|
    requires body[s.inFileAddr - NOFF_HEADER..s.inFileAddr - NOFF_HEADER + s.size]
          == coff[from.scnptr..from.scnptr + from.size]
    ensures var at := s.inFileAddr + va - s.virtualAddr - NOFF_HEADER;
            0 <= at < |body| && body[at] == coff[from.scnptr + va - from.paddr]
  {
    var a := s.inFileAddr - NOFF_HEADER;
    assert body[a..a + s.size][va - s.virtualAddr] == coff[from.scnptr..from.scnptr + from.size][va - from.paddr];
  }

  /** Only the last section of a kind can cover an address. */
  lemma OnlyLast(t: seq<Section>, j: nat, va: int)
    requires IsTable(t) && OnePerKind(t) && j < |t| && Covers(t[j], va)
    ensures LastOf(t, |t|, KindOf(t[j].name)) == j
  {
    hide KindOf;
    assert Is(t, j, KindOf(t[j].name));
  }

  /**
   The whole pipeline.  Convert a loadable COFF file on any host, load the result on any host: through
   translation the program sees every section byte at its own address, and zero at every other address it has.
   */
  lemma ImagePreserved(coff: seq<Byte>, file: seq<Byte>, reader: bool, h: NoffHeader,
                       mem: Memory, pages: PageTable, va: int)
    requires Loadable(coff) && Converted(coff, file, h) && 0 <= va < |pages| * PAGE_SIZE
    requires LoadedAs(h, file, mem, pages)
    ensures ReadHeader(reader, file) == Some(h) && |pages| == NumPages(h)
    ensures IsMapped(pages, va) && VirtualByte(pages, mem, va) == SeenAt(coff, Table(coff), |Table(coff)|, va)
  {
    hide HasTable, Table, KindOf, LastOf, BodySize, BssOf, Placed, Readable, IsTable, ReadHeader;
    ConvertedReads(coff, file, h);
    SeesImage(mem, pages, MemoryImage(h, file), va);
    ImageIsSeen(coff, file, h, va);
  }

  lemma ImageIsSeen(coff: seq<Byte>, file: seq<Byte>, h: NoffHeader, va: int)
    requires Loadable(coff) && Converted(coff, file, h) && HeaderFits(h, |file|) && 0 <= va < NumPages(h) * PAGE_SIZE
    ensures MemoryImage(h, file)[va] == SeenAt(coff, Table(coff), |Table(coff)|, va)
  {
    hide HasTable, Table, KindOf, BodySize, BssOf, Placed, ReadHeader, NumPages, Covers, Readable, MemoryImage, LastOf;
    var t := Table(coff);
    ImageAt(h, file, va);
    SegmentIsSection(coff, file, h, Text, va);
    SegmentIsSection(coff, file, h, Data, va);
    SegmentIsSection(coff, file, h, ReadOnlyData, va);
    if j :| 0 <= j < |t| && Covers(t[j], va) {
      OnlyLast(t, j, va);
      CoveredKind(t[j], va);
      SeenCovered(coff, t, |t|, j, va);
    } else {
      SeenUncovered(coff, t, |t|, va);
    }
  }

  lemma CoveredKind(s: Section, va: int)
    requires |s.name| == 8 && Covers(s, va)
    ensures IsCopied(KindOf(s.name))
  {
  }
}
