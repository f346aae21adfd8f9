/**
 The packed binary form of a CAS: a key, a version, and seven sections, each a
 count of 32 bits and the cells of one heap, padded to a whole number of 32-bit
 words. All numbers are written with their lowest byte first.
 */
module Blob {
  import opened IndexedFSs
  import opened IndexRebuild
  import IndexRepository
  import IndexComparator
  import SingleIndex
  import TypeTree
  import FSHeap
  import HeapMeaning

  type byte = b: nat | b < 256

  // ------------------------------------------------------- cells as bytes

  // The lowest byte first.
  function Bytes(width: nat, v: nat): (b: seq<byte>)
    ensures |b| == width
  {
    if width == 0 then [] else [v % 256] + Bytes(width - 1, v / 256)
  }

  function Word(b: seq<byte>): nat {
    if b == [] then 0 else b[0] + 256 * Word(b[1..])
  }

  function Power(width: nat): (p: nat)
    ensures p >= 1
  {
    if width == 0 then 1 else 256 * Power(width - 1)
  }

  // Every cell has at most the given number of bytes.
  predicate Fits(width: nat, cells: seq<nat>) {
    forall i :: 0 <= i < |cells| ==> cells[i] < Power(width)
  }

  lemma {:induction false} WordOfBytes(width: nat, v: nat)
    requires v < Power(width)
    ensures Word(Bytes(width, v)) == v
  {
    if width > 0 {
      WordOfBytes(width - 1, v / 256);
      assert Bytes(width, v)[1..] == Bytes(width - 1, v / 256);
    }
  }

  // What a memory copy of the cells writes, and what one of the bytes gives.
  function Pack(width: nat, cells: seq<nat>): (b: seq<byte>)
    ensures |b| == width * |cells|
  {
    if cells == [] then [] else Bytes(width, cells[0]) + Pack(width, cells[1..])
  }

  function Unpack(width: nat, n: nat, b: seq<byte>): (cells: seq<nat>)
    requires width * n <= |b|
    ensures |cells| == n
  {
    if n == 0 then []
    else
      assert width * n == width + width * (n - 1);
      [Word(b[..width])] + Unpack(width, n - 1, b[width..])
  }

  /** The packed cells are the first of those that are read from more bytes. */
  lemma {:induction false} UnpackOfPack(width: nat, cells: seq<nat>, n: nat, b: seq<byte>)
    requires Fits(width, cells) && |cells| <= n && width * n <= |b| && width * |cells| <= |b|
    requires b[..width * |cells|] == Pack(width, cells)
    ensures Unpack(width, n, b)[..|cells|] == cells
  {
    if cells != [] {
      var rest := cells[1..];
      assert width * |cells| == width + width * |rest| && width * n == width + width * (n - 1);
      assert b[..width] == b[..width * |cells|][..width] == Bytes(width, cells[0]);
      WordOfBytes(width, cells[0]);
      assert b[width..][..width * |rest|] == b[..width * |cells|][width..] == Pack(width, rest);
      assert Fits(width, rest);
      UnpackOfPack(width, rest, n - 1, b[width..]);
      assert cells == [cells[0]] + rest;
    }
  }

  // -------------------------------------------------------------- sections

  // The cells of a heap, and the count, which may be more, in front of them.
  datatype Section = Section(width: nat, count: nat, cells: seq<nat>)

  // The bytes of a section behind its count, in words of four bytes.
  function Room(width: nat, count: nat): (r: nat)
    ensures r % 4 == 0 && width * count <= r < width * count + 4
  {
    4 * ((width * count + 3) / 4)
  }

  function SectionSize(s: Section): nat {
    4 + Room(s.width, s.count)
  }

  function Size(ss: seq<Section>): nat {
    if ss == [] then 0 else SectionSize(ss[0]) + Size(ss[1..])
  }

  // A count and cells that are written so that they can be read again.
  predicate SectionOK(s: Section) {
    |s.cells| <= s.count < 0x8000_0000 && Fits(s.width, s.cells) && s.width * (s.count - |s.cells|) < 4
  }

  function Put(b: seq<byte>, at: nat, bytes: seq<byte>): (r: seq<byte>)
    requires at + |bytes| <= |b|
    ensures |r| == |b|
  {
    b[..at] + bytes + b[at + |bytes|..]
  }

  // A buffer after the sections were written into it; the padding is left as it was.
  function Laid(b: seq<byte>, at: nat, ss: seq<Section>): (r: seq<byte>)
    requires at + Size(ss) <= |b| && forall s :: s in ss ==> SectionOK(s)
    ensures |r| == |b|
    decreases |ss|
  {
    if ss == [] then b
    else
      CellsFit(ss[0]);
      Laid(LaidOne(b, at, ss[0]), at + SectionSize(ss[0]), ss[1..])
  }

  function LaidOne(b: seq<byte>, at: nat, s: Section): (r: seq<byte>)
    requires at + SectionSize(s) <= |b| && SectionOK(s)
    ensures |r| == |b|
  {
    CellsFit(s);
    Put(Put(b, at, Bytes(4, s.count)), at + 4, Pack(s.width, s.cells))
  }

  lemma CellsFit(s: Section)
    requires SectionOK(s)
    ensures s.width * |s.cells| <= s.width * s.count <= Room(s.width, s.count)
    ensures s.width * s.count - s.width * |s.cells| < 4
  {
    assert s.width * s.count - s.width * |s.cells| == s.width * (s.count - |s.cells|);
  }

  // The sections stand in the bytes from the position on.
  predicate Written(b: seq<byte>, at: nat, ss: seq<Section>)
    decreases |ss|
  {
    ss == [] || (
      && SectionOK(ss[0]) && at + SectionSize(ss[0]) <= |b|
      && HoldsSection(b, at, ss[0]) && Written(b, at + SectionSize(ss[0]), ss[1..]))
  }

  predicate HoldsSection(b: seq<byte>, at: nat, s: Section)
    requires SectionOK(s) && at + SectionSize(s) <= |b|
  {
    CellsFit(s);
    b[at..at + 4] == Bytes(4, s.count) && b[at + 4..at + 4 + s.width * |s.cells|] == Pack(s.width, s.cells)
  }

  lemma LaidOneHolds(b: seq<byte>, at: nat, s: Section)
    requires at + SectionSize(s) <= |b| && SectionOK(s)
    ensures var r := LaidOne(b, at, s);
            HoldsSection(r, at, s) && r[..at] == b[..at] && r[at + SectionSize(s)..] == b[at + SectionSize(s)..]
  {
    CellsFit(s);
    var head, payload := Bytes(4, s.count), Pack(s.width, s.cells);
    var mid, r := Put(b, at, head), LaidOne(b, at, s);
    hide SectionOK, Bytes, Pack;
    assert r[at..at + 4] == mid[at..at + 4] == head;
  }

  lemma SamePrefixHolds(b: seq<byte>, r: seq<byte>, at: nat, s: Section, next: nat)
    requires SectionOK(s) && next == at + SectionSize(s) && next <= |b| && next <= |r|
    requires b[..next] == r[..next] && HoldsSection(b, at, s)
    ensures HoldsSection(r, at, s)
  {
    CellsFit(s);
    var end := at + 4 + s.width * |s.cells|;
    hide SectionOK, Bytes, Pack;
    assert r[at..at + 4] == r[..next][at..at + 4] == b[at..at + 4];
    assert r[at + 4..end] == r[..next][at + 4..end] == b[at + 4..end];
  }

  lemma FrameJoined(b: seq<byte>, mid: seq<byte>, r: seq<byte>, at: nat, next: nat, end: nat)
    requires at <= next <= end <= |b| == |mid| == |r|
    requires mid[..at] == b[..at] && mid[next..] == b[next..] && r[..next] == mid[..next] && r[end..] == mid[end..]
    ensures r[..at] == b[..at] && r[end..] == b[end..]
  {
    assert r[..at] == r[..next][..at];
    assert mid[..at] == mid[..next][..at];
    assert mid[end..] == mid[next..][end - next..];
    assert b[end..] == b[next..][end - next..];
  }

  /** What was laid out can be found, and nothing before or behind it has changed. */
  lemma {:induction false} LaidIsWritten(b: seq<byte>, at: nat, ss: seq<Section>)
    requires at + Size(ss) <= |b| && forall s :: s in ss ==> SectionOK(s)
    ensures var r := Laid(b, at, ss);
            Written(r, at, ss) && r[..at] == b[..at] && r[at + Size(ss)..] == b[at + Size(ss)..]
    decreases |ss|
  {
    if ss != [] {
      var s, rest := ss[0], ss[1..];
      var next, mid, r := at + SectionSize(s), LaidOne(b, at, s), Laid(b, at, ss);
      assert next + Size(rest) == at + Size(ss) && r == Laid(mid, next, rest);
      assert forall t :: t in rest ==> t in ss;
      hide SectionOK, LaidOne, SectionSize, HoldsSection;
      LaidOneHolds(b, at, s);
      LaidIsWritten(mid, next, rest);
      hide Laid, Size;
      SamePrefixHolds(mid, r, at, s, next);
      FrameJoined(b, mid, r, at, next, at + Size(ss));
    }
  }

  // -------------------------------------------------------------- contents

  // The cells of all heaps.
  datatype Contents =
    Contents(cells: seq<nat>, chars: seq<nat>, refs: seq<nat>, bytes: seq<nat>, shorts: seq<nat>, longs: seq<nat>)

  const KEY := 0x5549_4D41
  const VERSION := 1
  // Bytes to a cell of each section, and which of them have to start with a zero.
  const WIDTHS: seq<nat> := [4, 2, 4, 4, 1, 2, 8]

  function Aligned(n: nat, unit: nat): nat
    requires unit > 0
  {
    unit * ((n + unit - 1) / unit)
  }

  function Sections(c: Contents, indexed: seq<nat>): (ss: seq<Section>) {
    [Section(4, |c.cells|, c.cells), Section(2, Aligned(|c.chars|, 2), c.chars), Section(4, |c.refs|, c.refs),
     Section(4, |indexed|, indexed), Section(1, Aligned(|c.bytes|, 4), c.bytes),
     Section(2, Aligned(|c.shorts|, 2), c.shorts), Section(8, |c.longs|, c.longs)]
  }

  // Every heap has a first cell, the cells have the widths of their sections, and the lengths are 32-bit integers.
  predicate ContentsOK(c: Contents, indexed: seq<nat>) {
    && |c.cells| >= 1 && |c.chars| >= 1 && |c.refs| >= 1 && |c.bytes| >= 1 && |c.shorts| >= 1 && |c.longs| >= 1
    && Short(4, c.cells) && Short(2, c.chars) && Short(4, c.refs) && Short(4, indexed)
    && Short(1, c.bytes) && Short(2, c.shorts) && Short(8, c.longs)
  }

  predicate Short(width: nat, cells: seq<nat>) {
    |cells| < 0x7FFF_FFFC && Fits(width, cells)
  }

  lemma SectionsOK(c: Contents, indexed: seq<nat>)
    requires ContentsOK(c, indexed)
    ensures forall s :: s in Sections(c, indexed) ==> SectionOK(s)
  {
    AlignedBounds(|c.chars|, 2);
    AlignedBounds(|c.bytes|, 4);
    AlignedBounds(|c.shorts|, 2);
    hide Fits, Aligned;
    var ss := Sections(c, indexed);
    assert SectionOK(ss[0]) && SectionOK(ss[1]) && SectionOK(ss[2]) && SectionOK(ss[3]);
    assert SectionOK(ss[4]) && SectionOK(ss[5]) && SectionOK(ss[6]);
    hide *;
    forall k | 0 <= k < |ss| ensures SectionOK(ss[k]) {
    }
  }

  lemma AlignedBounds(n: nat, unit: nat)
    requires unit == 2 || unit == 4
    ensures n <= Aligned(n, unit) < n + unit && Aligned(n, unit) % unit == 0
  {
  }

  // --------------------------------------------------------------- writing

  function Header(): (b: seq<byte>)
    ensures |b| == 8
  {
    Bytes(4, KEY) + Bytes(4, VERSION)
  }

  function BlobSize(c: Contents, indexed: seq<nat>): nat {
    8 + Size(Sections(c, indexed))
  }

  // The buffer that getBlob leaves.
  function Image(b: seq<byte>, c: Contents, indexed: seq<nat>): (r: seq<byte>)
    requires ContentsOK(c, indexed) && BlobSize(c, indexed) <= |b|
    ensures |r| == |b|
  {
    SectionsOK(c, indexed);
    Laid(Put(b, 0, Header()), 8, Sections(c, indexed))
  }

  // The advance of the word pointer over each section.
  lemma Advances(c: Contents, indexed: seq<nat>)
    ensures var ss := Sections(c, indexed);
            && SectionSize(ss[0]) == 4 * (1 + |c.cells|) && SectionSize(ss[1]) == 4 * (1 + Aligned(|c.chars|, 2) / 2)
            && SectionSize(ss[2]) == 4 * (1 + |c.refs|) && SectionSize(ss[3]) == 4 * (1 + |indexed|)
            && SectionSize(ss[4]) == 4 * (1 + Aligned(|c.bytes|, 4) / 4)
            && SectionSize(ss[5]) == 4 * (1 + Aligned(|c.shorts|, 2) / 2)
            && SectionSize(ss[6]) == 4 + 8 * |c.longs|
  {
    AlignedBounds(|c.chars|, 2);
    AlignedBounds(|c.bytes|, 4);
    AlignedBounds(|c.shorts|, 2);
    hide Aligned, Room;
    EvenRoom(Aligned(|c.chars|, 2));
    EvenRoom(Aligned(|c.shorts|, 2));
    WordRooms(|c.cells|, |c.refs|, |indexed|, Aligned(|c.bytes|, 4), |c.longs|);
  }

  lemma EvenRoom(n: nat)
    requires n % 2 == 0
    ensures Room(2, n) == 4 * (n / 2)
  {
  }

  lemma WordRooms(a: nat, b: nat, c: nat, d: nat, e: nat)
    requires d % 4 == 0
    ensures Room(4, a) == 4 * a && Room(4, b) == 4 * b && Room(4, c) == 4 * c && Room(1, d) == 4 * (d / 4)
    ensures Room(8, e) == 8 * e
  {
  }

  lemma SizeOfSeven(ss: seq<Section>)
    requires |ss| == 7
    ensures Size(ss) == SectionSize(ss[0]) + SectionSize(ss[1]) + SectionSize(ss[2]) + SectionSize(ss[3])
                        + SectionSize(ss[4]) + SectionSize(ss[5]) + SectionSize(ss[6])
  {
    hide SectionSize;
    forall k | 0 <= k < 7 ensures Size(ss[k..]) == SectionSize(ss[k]) + Size(ss[k + 1..]) {
      assert ss[k..][1..] == ss[k + 1..];
    }
    assert ss[0..] == ss && ss[7..] == [];
  }

  // Sections k and later, from the cursor on, still have to be written.
  ghost predicate Writing(b0: seq<byte>, ss: seq<Section>, b: seq<byte>, at: nat, k: nat) {
    && k <= |ss| && (forall s :: s in ss ==> SectionOK(s)) && at + Size(ss[k..]) <= |b| == |b0| && 8 + Size(ss) <= |b0|
    && at + Size(ss[k..]) == 8 + Size(ss) && Laid(b, at, ss[k..]) == Laid(b0, 8, ss)
  }

  lemma WritingBegin(b0: seq<byte>, ss: seq<Section>)
    requires (forall s :: s in ss ==> SectionOK(s)) && 8 + Size(ss) <= |b0|
    ensures Writing(b0, ss, b0, 8, 0)
  {
    assert ss[0..] == ss;
  }

  lemma WritingReady(b0: seq<byte>, ss: seq<Section>, b: seq<byte>, at: nat, k: nat)
    requires Writing(b0, ss, b, at, k) && k < |ss|
    ensures SectionOK(ss[k]) && at + SectionSize(ss[k]) <= |b|
  {
    assert ss[k] in ss && ss[k] == ss[k..][0];
  }

  lemma WritingStep(b0: seq<byte>, ss: seq<Section>, b: seq<byte>, at: nat, k: nat)
    requires Writing(b0, ss, b, at, k) && k < |ss|
    ensures SectionOK(ss[k]) && at + SectionSize(ss[k]) <= |b|
    ensures Writing(b0, ss, LaidOne(b, at, ss[k]), at + SectionSize(ss[k]), k + 1)
  {
    WritingReady(b0, ss, b, at, k);
    hide SectionOK, SectionSize, LaidOne;
    assert ss[k..][0] == ss[k] && ss[k..][1..] == ss[k + 1..];
  }

  lemma WritingEnd(b0: seq<byte>, ss: seq<Section>, b: seq<byte>, at: nat)
    requires Writing(b0, ss, b, at, |ss|)
    ensures at == 8 + Size(ss) <= |b| && (forall s :: s in ss ==> SectionOK(s)) && |b0| == |b| && b == Laid(b0, 8, ss)
  {
    assert ss[|ss|..] == [];
  }

  method CopyIn(buffer: array<byte>, at: nat, bytes: seq<byte>)
    requires at + |bytes| <= buffer.Length
    modifies buffer
    ensures buffer[..] == Put(old(buffer[..]), at, bytes)
  {
    assert buffer[..] == Put(buffer[..], at, bytes[..0]);
    for i := 0 to |bytes|
      invariant buffer[..] == Put(old(buffer[..]), at, bytes[..i])
    {
      hide Put;
      ghost var before := buffer[..];
      buffer[at + i] := bytes[i];
      assert buffer[..] == before[at + i := bytes[i]];
      PutOneMore(old(buffer[..]), at, bytes, i);
    }
    assert bytes[..|bytes|] == bytes;
  }

  lemma PutOneMore(b: seq<byte>, at: nat, bytes: seq<byte>, i: nat)
    requires i < |bytes| && at + |bytes| <= |b|
    ensures Put(b, at, bytes[..i])[at + i := bytes[i]] == Put(b, at, bytes[..i + 1])
  {
  }

  // Writes the count, and copies the cells behind it.
  method WriteSection(buffer: array<byte>, at: nat, s: Section, ghost b0: seq<byte>, ghost ss: seq<Section>,
                      ghost k: nat)
    requires Writing(b0, ss, buffer[..], at, k) && k < |ss| && s == ss[k]
    modifies buffer
    ensures Writing(b0, ss, buffer[..], at + SectionSize(s), k + 1)
  {
    ghost var b := buffer[..];
    WritingReady(b0, ss, b, at, k);
    WritingStep(b0, ss, b, at, k);
    hide Writing;
    CellsFit(s);
    CopyIn(buffer, at, Bytes(4, s.count));
    CopyIn(buffer, at + 4, Pack(s.width, s.cells));
    assert buffer[..] == LaidOne(b, at, s);
  }

  class CASSerializer {
    var indexedFSs: seq<nat>

    constructor () {
      indexedFSs := [];
    }

    /** getBlobSize: collects the indexed structures, and announces the number of bytes that getBlob will write. */
    method GetBlobSize(c: Contents, base: IndexRepository.IndexRepository, views: seq<ViewIndexes>) returns (size: nat)
      requires base.Valid() && forall v :: v in views && v.Indexes? ==> v.repository.Valid()
      modifies this
      ensures TypeTree.ParentsOK(base.setup.parents)
      ensures indexedFSs == [|views|] + Encoded([Ascending(Covered(base.setup, base.added))] + ListsOf(views))
      ensures size == BlobSize(c, indexedFSs)
    {
      hide *;
      indexedFSs := SerializeIndexedFSs(base, views);
      size := AnnouncedSize(c);
    }

    // The size as both functions compute it.
    method AnnouncedSize(c: Contents) returns (size: nat)
      ensures size == BlobSize(c, indexedFSs)
    {
      var alignedStrLen, aligned8BitHeapLength := 2 * ((|c.chars| + 1) / 2), 4 * ((|c.bytes| + 3) / 4);
      var aligned16BitHeapLength := 2 * ((|c.shorts| + 1) / 2);
      size := 2 * 4 + (1 + |c.cells|) * 4 + 1 * 4 + alignedStrLen * 2 + (1 + |c.refs|) * 4 + (1 + |indexedFSs|) * 4
      + (1 * 4 + aligned8BitHeapLength) + (1 * 4 + aligned16BitHeapLength * 2) + (1 * 4 + |c.longs| * 8);
      Advances(c, indexedFSs);
      SizeOfSeven(Sections(c, indexedFSs));
      hide SectionSize, Size;
    }

    /** getBlob: key, version and the seven sections; zero if they do not fit. */
    method GetBlob(c: Contents, buffer: array<byte>, maxSize: nat) returns (size: nat)
      requires ContentsOK(c, indexedFSs) && maxSize <= buffer.Length
      modifies buffer
      ensures size == if BlobSize(c, indexedFSs) > maxSize then 0 else BlobSize(c, indexedFSs)
      ensures size == 0 ==> buffer[..] == old(buffer[..])
      ensures size > 0 ==> buffer[..] == Image(old(buffer[..]), c, indexedFSs)
    {
      hide *;
      size := AnnouncedSize(c);
      if size > maxSize {
        size := 0;
        return;
      }
      ghost var ss := Sections(c, indexedFSs);
      ghost var b := buffer[..];
      ImageIsLaid(b, c, indexedFSs);
      CopyIn(buffer, 0, Header());
      ghost var b0 := buffer[..];
      WritingImage(b0, c, indexedFSs);
      Advances(c, indexedFSs);
      SectionsAre(c, indexedFSs);
      var alignedStrLen, aligned8BitHeapLength := Aligned(|c.chars|, 2), Aligned(|c.bytes|, 4);
      var aligned16BitHeapLength := Aligned(|c.shorts|, 2);
      var at := 8;
      WriteSection(buffer, at, Section(4, |c.cells|, c.cells), b0, ss, 0);
      at := at + 4 * (1 + |c.cells|);
      WriteSection(buffer, at, Section(2, alignedStrLen, c.chars), b0, ss, 1);
      at := at + 4 * (1 + alignedStrLen / 2);
      WriteSection(buffer, at, Section(4, |c.refs|, c.refs), b0, ss, 2);
      at := at + 4 * (1 + |c.refs|);
      WriteSection(buffer, at, Section(4, |indexedFSs|, indexedFSs), b0, ss, 3);
      at := at + 4 * (1 + |indexedFSs|);
      WriteSection(buffer, at, Section(1, aligned8BitHeapLength, c.bytes), b0, ss, 4);
      at := at + 4 * (1 + aligned8BitHeapLength / 4);
      WriteSection(buffer, at, Section(2, aligned16BitHeapLength, c.shorts), b0, ss, 5);
      at := at + 4 * (1 + aligned16BitHeapLength / 2);
      WriteSection(buffer, at, Section(8, |c.longs|, c.longs), b0, ss, 6);
      WritingEnd(b0, ss, buffer[..], at + 4 + 8 * |c.longs|);
    }
  }

  lemma SectionsAre(c: Contents, indexed: seq<nat>)
    ensures var ss := Sections(c, indexed);
            && |ss| == 7 && ss[0] == Section(4, |c.cells|, c.cells)
            && ss[1] == Section(2, Aligned(|c.chars|, 2), c.chars)
            && ss[2] == Section(4, |c.refs|, c.refs) && ss[3] == Section(4, |indexed|, indexed)
            && ss[4] == Section(1, Aligned(|c.bytes|, 4), c.bytes)
            && ss[5] == Section(2, Aligned(|c.shorts|, 2), c.shorts)
            && ss[6] == Section(8, |c.longs|, c.longs)
  {
  }

  lemma WritingImage(b0: seq<byte>, c: Contents, indexed: seq<nat>)
    requires ContentsOK(c, indexed) && BlobSize(c, indexed) <= |b0|
    ensures Writing(b0, Sections(c, indexed), b0, 8, 0)
  {
    SectionsOK(c, indexed);
    WritingBegin(b0, Sections(c, indexed));
  }

  lemma ImageIsLaid(b: seq<byte>, c: Contents, indexed: seq<nat>)
    requires ContentsOK(c, indexed) && BlobSize(c, indexed) <= |b|
    ensures 8 <= BlobSize(c, indexed) == 8 + Size(Sections(c, indexed))
    ensures forall s :: s in Sections(c, indexed) ==> SectionOK(s)
    ensures Image(b, c, indexed) == Laid(Put(b, 0, Header()), 8, Sections(c, indexed))
  {
    SectionsOK(c, indexed);
  }

  // --------------------------------------------------------------- reading

  function CountAt(b: seq<byte>, at: nat): nat
    requires at + 4 <= |b|
  {
    Word(b[at..at + 4])
  }

  // There are sections of cells of these widths from the position on, with counts that are not negative.
  predicate HasSections(b: seq<byte>, at: nat, widths: seq<nat>)
    decreases |widths|
  {
    widths == [] || (
      && HasSection(b, at, widths[0])
      && HasSections(b, at + 4 + Room(widths[0], CountAt(b, at)), widths[1..]))
  }

  predicate HasSection(b: seq<byte>, at: nat, width: nat) {
    at + 4 <= |b| && CountAt(b, at) < 0x8000_0000 && at + 4 + Room(width, CountAt(b, at)) <= |b|
  }

  function ReadOne(b: seq<byte>, at: nat, width: nat): (cells: seq<nat>)
    requires HasSection(b, at, width)
    ensures |cells| == CountAt(b, at)
  {
    Unpack(width, CountAt(b, at), b[at + 4..])
  }

  function ReadSections(b: seq<byte>, at: nat, widths: seq<nat>): (all: seq<seq<nat>>)
    requires HasSections(b, at, widths)
    ensures |all| == |widths|
    decreases |widths|
  {
    if widths == [] then []
    else [ReadOne(b, at, widths[0])] + ReadSections(b, at + 4 + Room(widths[0], CountAt(b, at)), widths[1..])
  }

  // The cursor stands on section k.
  ghost predicate Reading(b: seq<byte>, ws: seq<nat>, at: nat, k: nat) {
    && k <= |ws| && HasSections(b, 8, ws) && HasSections(b, at, ws[k..])
    && ReadSections(b, at, ws[k..]) == ReadSections(b, 8, ws)[k..]
  }

  lemma ReadingBegin(b: seq<byte>, ws: seq<nat>)
    requires HasSections(b, 8, ws)
    ensures Reading(b, ws, 8, 0)
  {
    assert ws[0..] == ws;
  }

  lemma FirstSection(b: seq<byte>, at: nat, ws: seq<nat>, w: nat, rest: seq<nat>)
    requires HasSections(b, at, ws) && ws == [w] + rest
    ensures HasSection(b, at, w) && HasSections(b, at + 4 + Room(w, CountAt(b, at)), rest)
    ensures ReadSections(b, at, ws) == [ReadOne(b, at, w)] + ReadSections(b, at + 4 + Room(w, CountAt(b, at)), rest)
  {
    assert ws[1..] == rest;
  }

  lemma ReadingStep(b: seq<byte>, ws: seq<nat>, at: nat, k: nat)
    requires Reading(b, ws, at, k) && k < |ws|
    ensures HasSection(b, at, ws[k]) && HasSections(b, 8, ws)
    ensures ReadSections(b, 8, ws)[k] == ReadOne(b, at, ws[k])
    ensures Reading(b, ws, at + 4 + Room(ws[k], CountAt(b, at)), k + 1)
  {
    hide HasSections, ReadSections, HasSection, ReadOne, Room, CountAt;
    assert ws[k..] == [ws[k]] + ws[k + 1..];
    FirstSection(b, at, ws[k..], ws[k], ws[k + 1..]);
    var all := ReadSections(b, 8, ws);
    assert all[k..] == [all[k]] + all[k + 1..];
  }

  // reset leaves one zero cell, but does nothing to a heap that has only one cell.
  function Reset(heap: seq<nat>): (r: seq<nat>)
    requires heap != []
    ensures r != []
  {
    if |heap| == 1 then heap else [0]
  }

  // A heap after reading: the cells, or the reset heap if there are no more than least of them.
  function Loaded(heap: seq<nat>, cells: seq<nat>, least: nat): (r: seq<nat>)
    requires heap != []
    ensures r != []
  {
    if |cells| > least then cells else Reset(heap)
  }

  predicate StartsWithZero(cells: seq<nat>) {
    |cells| > 1 ==> cells[0] == 0
  }

  predicate HeaderOK(b: seq<byte>)
    requires |b| >= 8
  {
    CountAt(b, 0) == KEY && CountAt(b, 4) == VERSION
  }

  // What is checked of a blob.
  predicate Accepts(b: seq<byte>)
    requires |b| >= 8 && (HeaderOK(b) ==> HasSections(b, 8, WIDTHS))
  {
    && HeaderOK(b)
    && var all := ReadSections(b, 8, WIDTHS); StartsWithZero(all[0]) && StartsWithZero(all[1]) && StartsWithZero(all[2])
  }

  predicate HaveCells(c: Contents) {
    c.cells != [] && c.chars != [] && c.refs != [] && c.bytes != [] && c.shorts != [] && c.longs != []
  }

  function Restored(c: Contents, all: seq<seq<nat>>): Contents
    requires HaveCells(c) && |all| == 7
  {
    Contents(Loaded(c.cells, all[0], 1), Loaded(c.chars, all[1], 1), Loaded(c.refs, all[2], 1),
             Loaded(c.bytes, all[4], 1), Loaded(c.shorts, all[5], 1),
                                                 Loaded(c.longs, all[6], 0))
  }

  // The heaps of a CAS.
  class Heaps {
    var cells: seq<nat>
    var chars: seq<nat>
    var refs: seq<nat>
    var bytes: seq<nat>
    var shorts: seq<nat>
    var longs: seq<nat>

    function Value(): Contents
      reads this
    {
      Contents(cells, chars, refs, bytes, shorts, longs)
    }

    constructor ()
      ensures Value() == Contents([0], [0], [0], [0], [0], [0])
    {
      cells, chars, refs, bytes, shorts, longs := [0], [0], [0], [0], [0], [0];
    }
  }

  method ReadSection(b: seq<byte>, at: nat, width: nat, ghost ws: seq<nat>, ghost k: nat) returns (cells: seq<nat>)
    requires Reading(b, ws, at, k) && k < |ws| && width == ws[k]
    ensures HasSections(b, 8, ws) && cells == ReadSections(b, 8, ws)[k]
    ensures Reading(b, ws, at + 4 + Room(width, |cells|), k + 1)
  {
    ReadingStep(b, ws, at, k);
    hide Reading, ReadSections, HasSections;
    cells := Unpack(width, CountAt(b, at), b[at + 4..]);
  }

  lemma Rooms(n: nat)
    ensures Room(4, n) == 4 * n && Room(2, n) == 4 * (Aligned(n, 2) / 2) && Room(1, n) == 4 * (Aligned(n, 4) / 4)
  {
  }

  lemma WidthsAre()
    ensures |WIDTHS| == 7 && WIDTHS[0] == 4 && WIDTHS[1] == 2 && WIDTHS[2] == 4 && WIDTHS[3] == 4
    ensures WIDTHS[4] == 1 && WIDTHS[5] == 2 && WIDTHS[6] == 8
  {
  }

  lemma AcceptsMeans(b: seq<byte>, c: Contents)
    requires |b| >= 8 && (HeaderOK(b) ==> HasSections(b, 8, WIDTHS)) && HaveCells(c)
    ensures CountAt(b, 0) != KEY || CountAt(b, 4) != VERSION ==> !Accepts(b)
    ensures CountAt(b, 0) == KEY && CountAt(b, 4) == VERSION ==>
              && HasSections(b, 8, WIDTHS)
              && var all := ReadSections(b, 8, WIDTHS);
                 && (Accepts(b) <==> StartsWithZero(all[0]) && StartsWithZero(all[1]) && StartsWithZero(all[2]))
                 && Restored(c, all) == Contents(Loaded(c.cells, all[0], 1), Loaded(c.chars, all[1], 1),
                                                 Loaded(c.refs, all[2], 1),
                                                 Loaded(c.bytes, all[4], 1), Loaded(c.shorts, all[5], 1),
                                                 Loaded(c.longs, all[6], 0))
  {
  }

  lemma Nonempty(h: Heaps)
    requires HaveCells(h.Value())
    ensures h.cells != [] && h.chars != [] && h.refs != [] && h.bytes != [] && h.shorts != [] && h.longs != []
  {
  }

  lemma ValueIs(h: Heaps)
    ensures h.Value() == Contents(h.cells, h.chars, h.refs, h.bytes, h.shorts, h.longs)
  {
  }

  // The heaps when the indexes are rebuilt: the other three are still those of the target.
  function HalfRestored(c: Contents, all: seq<seq<nat>>): Contents
    requires HaveCells(c) && |all| == 7
  {
    Contents(Loaded(c.cells, all[0], 1), Loaded(c.chars, all[1], 1), Loaded(c.refs, all[2], 1), c.bytes, c.shorts,
             c.longs)
  }

  lemma HalfMeans(c: Contents, all: seq<seq<nat>>)
    requires HaveCells(c) && |all| == 7
    ensures var h := HalfRestored(c, all);
            && h == Contents(Loaded(c.cells, all[0], 1), Loaded(c.chars, all[1], 1), Loaded(c.refs, all[2], 1),
                             c.bytes, c.shorts, c.longs)
            && HaveCells(h)
            && Restored(c, all) == h.(bytes := Loaded(h.bytes, all[4], 1), shorts := Loaded(h.shorts, all[5], 1),
                                      longs := Loaded(h.longs, all[6], 0))
  {
  }

  // The key, the version, the first three heaps and the list of indexed structures.
  method ReadFirst(b: seq<byte>, heaps: Heaps) returns (ok: bool, at: nat, indexed: seq<nat>)
    requires |b| >= 8 && (HeaderOK(b) ==> HasSections(b, 8, WIDTHS)) && HaveCells(heaps.Value())
    modifies heaps
    ensures ok <==> Accepts(b)
    ensures ok ==>
              && Reading(b, WIDTHS, at, 4) && HasSections(b, 8, WIDTHS)
              && var all := ReadSections(b, 8, WIDTHS);
                 |all| == 7 && heaps.Value() == HalfRestored(old(heaps.Value()), all) && indexed == all[3]
  {
    hide *;
    ghost var ws := WIDTHS;
    ok, at, indexed := false, 8, [];
    WidthsAre();
    AcceptsMeans(b, heaps.Value());
    Nonempty(heaps);
    ValueIs(heaps);
    if CountAt(b, 0) != KEY || CountAt(b, 4) != VERSION {
      return;
    }
    ReadingBegin(b, ws);
    HalfMeans(heaps.Value(), ReadSections(b, 8, ws));
    var cells := ReadSection(b, at, 4, ws, 0);
    Rooms(|cells|);
    if !StartsWithZero(cells) {
      return;
    }
    heaps.cells := Loaded(heaps.cells, cells, 1);
    at := at + 4 * (1 + |cells|);
    var chars := ReadSection(b, at, 2, ws, 1);
    Rooms(|chars|);
    if !StartsWithZero(chars) {
      return;
    }
    heaps.chars := Loaded(heaps.chars, chars, 1);
    at := at + 4 * (1 + Aligned(|chars|, 2) / 2);
    var refs := ReadSection(b, at, 4, ws, 2);
    Rooms(|refs|);
    if !StartsWithZero(refs) {
      return;
    }
    heaps.refs := Loaded(heaps.refs, refs, 1);
    at := at + 4 * (1 + |refs|);
    indexed := ReadSection(b, at, 4, ws, 3);
    Rooms(|indexed|);
    at := at + 4 * (1 + |indexed|);
    ok := true;
    ValueIs(heaps);
  }

  // The heaps of 8, 16 and 64 bits.
  method ReadRest(b: seq<byte>, start: nat, heaps: Heaps)
    requires Reading(b, WIDTHS, start, 4) && HaveCells(heaps.Value())
    modifies heaps
    ensures HasSections(b, 8, WIDTHS) && var all := ReadSections(b, 8, WIDTHS);
            && |all| == 7
            && var c := old(heaps.Value());
               && HaveCells(c) && c.bytes != [] && c.shorts != [] && c.longs != []
               && heaps.Value() == c.(bytes := Loaded(c.bytes, all[4], 1), shorts := Loaded(c.shorts, all[5], 1),
                                      longs := Loaded(c.longs, all[6], 0))
  {
    hide *;
    ghost var ws := WIDTHS;
    WidthsAre();
    Nonempty(heaps);
    ValueIs(heaps);
    var at := start;
    var bytes := ReadSection(b, at, 1, ws, 4);
    Rooms(|bytes|);
    heaps.bytes := Loaded(heaps.bytes, bytes, 1);
    at := at + 4 * (1 + Aligned(|bytes|, 4) / 4);
    var shorts := ReadSection(b, at, 2, ws, 5);
    Rooms(|shorts|);
    heaps.shorts := Loaded(heaps.shorts, shorts, 1);
    at := at + 4 * (1 + Aligned(|shorts|, 2) / 2);
    var longs := ReadSection(b, at, 8, ws, 6);
    heaps.longs := Loaded(heaps.longs, longs, 0);
    ValueIs(heaps);
  }

  // ----------------------------------------------------- rebuilding indexes

  // What the comparators of a repository read when the heaps hold these contents.
  function ViewOver(h: IndexComparator.HeapView, c: Contents): IndexComparator.HeapView {
    IndexComparator.HeapView(c.cells, c.refs, c.chars, SignedLongs(c.longs), h.priority)
  }

  function SignedLongs(longs: seq<nat>): (r: seq<int>)
    ensures |r| == |longs|
    ensures forall i :: 0 <= i < |r| ==> r[i] == IndexComparator.Signed(longs[i], 0x1_0000_0000_0000_0000)
  {
    seq(|longs|, i requires 0 <= i < |longs| => IndexComparator.Signed(longs[i], 0x1_0000_0000_0000_0000))
  }

  // The setup of a repository whose heaps have these contents.
  function SetupOver(s: IndexRepository.Setup, c: Contents): IndexRepository.Setup {
    IndexRepository.Rebased(s, ViewOver(s.heap, c))
  }

  // The repositories read the cells, texts and longs of the heaps.
  ghost predicate AllShow(rs: seq<IndexRepository.IndexRepository>, c: Contents)
    reads rs`setup
  {
    forall v :: 0 <= v < |rs| ==> HeapMeaning.Shows(rs[v].setup.heap, c.cells, c.refs, c.chars, c.longs)
  }

  lemma ReadsShow(rs: seq<IndexRepository.IndexRepository>, setups: seq<IndexRepository.Setup>, c: Contents)
    requires Reads(rs, setups, c, |rs|)
    ensures AllShow(rs, c)
  {
    hide HeapMeaning.Shows;
    forall v | 0 <= v < |rs| ensures HeapMeaning.Shows(rs[v].setup.heap, c.cells, c.refs, c.chars, c.longs) {
      HeapMeaning.FieldsShow(ViewOver(setups[v].heap, c), c.longs);
    }
  }

  lemma SetupOverIsOK(s: IndexRepository.Setup, c: Contents)
    requires IndexRepository.SetupOK(s)
    ensures IndexRepository.SetupOK(SetupOver(s, c))
  {
    var s' := SetupOver(s, c);
    forall d | d in s'.definitions
      ensures TypeTree.IsType(s'.parents, d.tyType) && IndexComparator.OrderOK(d.order) && d.order.heap == s'.heap
    {
      var k :| 0 <= k < |s'.definitions| && s'.definitions[k] == d;
      assert s.definitions[k] in s.definitions;
    }
  }

  // The list is complete, and its parts name structures of the new heap.
  ghost predicate CanRebuild(list: seq<nat>, c: Contents, setups: seq<IndexRepository.Setup>) {
    && Complete(list) && list[0] < |setups| && AreStructures(list[2..2 + list[1]], c, setups[0])
    && forall v :: 1 <= v <= list[0] ==> AreStructures(ReadLists(list, ViewsStart(list), list[0])[v - 1], c, setups[v])
  }

  predicate AreStructures(l: seq<nat>, c: Contents, s: IndexRepository.Setup) {
    forall fs :: fs in l ==> fs != 0 && TypeTree.IsType(s.parents, ViewOver(s.heap, c).TypeOf(fs))
  }

  // All repositories read the new heap.
  ghost predicate Reads(rs: seq<IndexRepository.IndexRepository>, before: seq<IndexRepository.Setup>, c: Contents,
                        n: nat)
    reads rs`setup
  {
    && n <= |before| == |rs|
    && forall v :: 0 <= v < |rs| ==> rs[v].setup == if v < n then SetupOver(before[v], c) else before[v]
  }

  // Filled with structures that are of the same types in the new heap.
  ghost predicate CanSettle(r: IndexRepository.IndexRepository, c: Contents)
    reads r, r.singles, r.caches
  {
    JustFilled(r) && TypesStay(r, ViewOver(r.setup.heap, c))
  }

  // Valid over the new heap exactly if all that was indexed is in the order of the new keys.
  ghost predicate Settled(r: IndexRepository.IndexRepository, s: IndexRepository.Setup, c: Contents)
    reads r, r.singles, r.caches
  {
    ValidIfInOrder(r, s, ViewOver(s.heap, c))
  }

  // The repositories share the heaps, which have changed under them.
  method ReplaceHeaps(rs: seq<IndexRepository.IndexRepository>, c: Contents)
    requires AllIntact(rs)
    modifies rs`setup
    ensures AllIntact(rs) && Reads(rs, old(Setups(rs)), c, |rs|)
    ensures forall v :: 0 <= v < |rs| && old(CanSettle(rs[v], c)) ==> Settled(rs[v], old(rs[v].setup), c)
  {
    hide *;
    ghost var before := Setups(rs);
    ghost var able := set v | 0 <= v < |rs| && CanSettle(rs[v], c);
    NothingReplaced(rs, before, c);
    for v := 0 to |rs|
      invariant AllIntact(rs) && Reads(rs, before, c, v) && |before| == |rs|
      invariant forall u :: v <= u < |rs| && u in able ==> CanSettle(rs[u], c)
      invariant forall u :: 0 <= u < v && u in able ==> Settled(rs[u], before[u], c)
    {
      Apart(rs, v);
      ReadyToReplace(rs, before, c, v);
      ReplaceHeap(rs[v], c);
      StillIntact(rs);
      OneMoreReplaced(rs, before, c, v);
    }
  }

  method ReplaceHeap(r: IndexRepository.IndexRepository, c: Contents)
    requires r.Intact() && IndexRepository.SetupOK(SetupOver(r.setup, c))
    modifies r`setup
    ensures r.Intact() && r.setup == SetupOver(old(r.setup), c)
    ensures old(CanSettle(r, c)) ==> Settled(r, old(r.setup), c)
  {
    ghost var able := CanSettle(r, c);
    hide JustFilled, TypesStay, ValidIfInOrder, ViewOver;
    ChangeKeys(r, ViewOver(r.setup.heap, c));
  }

  lemma NothingReplaced(rs: seq<IndexRepository.IndexRepository>, before: seq<IndexRepository.Setup>, c: Contents)
    requires before == Setups(rs)
    ensures Reads(rs, before, c, 0)
  {
  }

  lemma ReadyToReplace(rs: seq<IndexRepository.IndexRepository>, before: seq<IndexRepository.Setup>, c: Contents,
                       v: nat)
    requires Reads(rs, before, c, v) && v < |rs| && rs[v].Intact()
    ensures |before| == |rs| && rs[v].setup == before[v]
    ensures forall u :: 0 <= u < |rs| && u != v ==> Replaced(rs[u], before[u], c, u < v)
    ensures IndexRepository.SetupOK(SetupOver(rs[v].setup, c))
  {
    SetupOverIsOK(rs[v].setup, c);
  }

  ghost predicate Replaced(x: IndexRepository.IndexRepository, before: IndexRepository.Setup, c: Contents, done: bool)
    reads x`setup
  {
    x.setup == if done then SetupOver(before, c) else before
  }

  lemma StillIntact(rs: seq<IndexRepository.IndexRepository>)
    requires Separate(rs) && forall v :: 0 <= v < |rs| ==> rs[v].Intact()
    ensures AllIntact(rs)
  {
  }

  lemma OneMoreReplaced(rs: seq<IndexRepository.IndexRepository>, before: seq<IndexRepository.Setup>, c: Contents,
                        v: nat)
    requires v < |rs| == |before| && rs[v].setup == SetupOver(before[v], c)
    requires forall u :: 0 <= u < |rs| && u != v ==> Replaced(rs[u], before[u], c, u < v)
    ensures Reads(rs, before, c, v + 1)
  {
    forall u | 0 <= u < |rs| ensures rs[u].setup == if u < v + 1 then SetupOver(before[u], c) else before[u] {
      assert u != v ==> Replaced(rs[u], before[u], c, u < v);
    }
  }

  // deserializeIndexedFSs, after the heaps that it reads were replaced.
  method RebuildIndexes(list: seq<nat>, c: Contents, rs: seq<IndexRepository.IndexRepository>)
    requires AllIntact(rs) && CanRebuild(list, c, Setups(rs))
    modifies rs`setup, rs`clean, rs`isUsed, rs`usedIndexes, rs`undefinedIndex, rs`added,
             IndexRepository.AllSingles(rs)`structures
    ensures AllIntact(rs) && Reads(rs, old(Setups(rs)), c, |rs|) && Complete(list)
    ensures ReadUpTo(list, list[0], old(Added(rs)), Added(rs)) && Refilled(list, list[0], rs)
  {
    hide *;
    ghost var before, added := Setups(rs), Added(rs);
    ReplaceHeaps(rs, c);
    assert Added(rs) == added;
    NowCanAdd(list, c, rs, before);
    DeserializeIndexedFSs(list, rs);
  }

  lemma NowCanAdd(list: seq<nat>, c: Contents, rs: seq<IndexRepository.IndexRepository>,
                  before: seq<IndexRepository.Setup>)
    requires Reads(rs, before, c, |rs|) && CanRebuild(list, c, before)
    ensures Complete(list) && CanAddAll(rs, list)
  {
    hide HasLists, ReadLists;
    assert rs[0].setup == SetupOver(before[0], c);
    forall v | 1 <= v <= list[0] ensures CanAdd(rs[v], ReadLists(list, ViewsStart(list), list[0])[v - 1]) {
      assert rs[v].setup == SetupOver(before[v], c);
      assert AreStructures(ReadLists(list, ViewsStart(list), list[0])[v - 1], c, before[v]);
    }
  }

  /**
   deserializeBlob, of a blob in native byte order: fails when the key, the
   version or the first cell of one of the first three heaps is wrong. The
   indexes are rebuilt when the 64-bit heap still is that of the target, and
   then that heap changes under them.
   */
  method DeserializeBlob(buffer: array<byte>, heaps: Heaps,
                         repositories: seq<IndexRepository.IndexRepository>) returns (ok: bool)
    requires CanDeserialize(buffer[..], heaps.Value(), Setups(repositories)) && AllIntact(repositories)
    modifies heaps, repositories`setup, repositories`clean, repositories`isUsed, repositories`usedIndexes,
             repositories`undefinedIndex, repositories`added,
             IndexRepository.AllSingles(repositories)`structures
    ensures ok <==> Accepts(buffer[..])
    ensures ok ==> AllIntact(repositories)
                   && BlobRestored(buffer[..], old(heaps.Value()), heaps.Value(), old(Setups(repositories)),
                                   old(Added(repositories)), repositories)
                   && AllShow(repositories, heaps.Value())
  {
    hide *;
    IndexRepository.AllObjects(repositories);
    var b := buffer[..];
    ghost var c := heaps.Value();
    CanDeserializeMeans(b, c, Setups(repositories));
    var at, indexed;
    ok, at, indexed := ReadFirst(b, heaps);
    if ok {
      RestoreRest(b, at, indexed, heaps, repositories, c);
    }
  }

  // What deserializeBlob does once the first heaps are restored.
  method RestoreRest(b: seq<byte>, at: nat, indexed: seq<nat>, heaps: Heaps,
                     repositories: seq<IndexRepository.IndexRepository>, ghost c: Contents)
    requires Reading(b, WIDTHS, at, 4) && HasSections(b, 8, WIDTHS) && HaveCells(c)
    requires var all := ReadSections(b, 8, WIDTHS);
             |all| == 7 && heaps.Value() == HalfRestored(c, all) && indexed == all[3]
    requires AllIntact(repositories) && ListCanBeRead(b, c, Setups(repositories))
    modifies heaps, repositories`setup, repositories`clean, repositories`isUsed, repositories`usedIndexes,
             repositories`undefinedIndex, repositories`added,
             IndexRepository.AllSingles(repositories)`structures
    ensures AllIntact(repositories)
    ensures BlobRestored(b, c, heaps.Value(), old(Setups(repositories)), old(Added(repositories)), repositories)
    ensures AllShow(repositories, heaps.Value())
  {
    hide *;
    ghost var all := ReadSections(b, 8, WIDTHS);
    HalfMeans(c, all);
    ListMeans(b, c, Setups(repositories));
    ghost var setups, added := Setups(repositories), Added(repositories);
    ghost var half := heaps.Value();
    RebuildIfListed(indexed, heaps.Value(), repositories);
    ReadRestAside(b, at, heaps, indexed, setups, half, repositories);
    NowRestored(b, c, heaps.Value());
    HalfIsStale(c, all);
    SettleIndexes(indexed, heaps.Value(), setups, half, repositories);
    ReadsShow(repositories, setups, heaps.Value());
    NowRebuilt(b, c, heaps.Value(), setups, added, repositories);
    ItIsRestored(b, c, heaps.Value(), setups, added, repositories);
  }

  // The sections are there, and if the blob is accepted the list of indexed structures can be read.
  ghost predicate CanDeserialize(b: seq<byte>, c: Contents, setups: seq<IndexRepository.Setup>) {
    && |b| >= 8 && (HeaderOK(b) ==> HasSections(b, 8, WIDTHS)) && HaveCells(c)
    && (Accepts(b) ==> ListCanBeRead(b, c, setups))
  }

  // The heaps and the indexes are those of the blob.
  ghost predicate BlobRestored(b: seq<byte>, c: Contents, c': Contents, setups: seq<IndexRepository.Setup>,
                               added: seq<seq<nat>>, rs: seq<IndexRepository.IndexRepository>)
    reads rs, IndexRepository.AllSingles(rs), IndexRepository.AllCaches(rs)
  {
    && HaveCells(c) && HasSections(b, 8, WIDTHS)
    && HeapsRestored(b, c, c') && IndexesRebuilt(b, c, c', setups, added, rs)
  }

  lemma CanDeserializeMeans(b: seq<byte>, c: Contents, setups: seq<IndexRepository.Setup>)
    requires CanDeserialize(b, c, setups)
    ensures |b| >= 8 && (HeaderOK(b) ==> HasSections(b, 8, WIDTHS)) && HaveCells(c)
    ensures Accepts(b) ==> HasSections(b, 8, WIDTHS) && ListCanBeRead(b, c, setups)
  {
    hide HasSections, HaveCells, ListCanBeRead;
  }

  lemma ItIsRestored(b: seq<byte>, c: Contents, c': Contents, setups: seq<IndexRepository.Setup>, added: seq<seq<nat>>,
                     rs: seq<IndexRepository.IndexRepository>)
    requires HaveCells(c) && HasSections(b, 8, WIDTHS)
    requires HeapsRestored(b, c, c') && IndexesRebuilt(b, c, c', setups, added, rs)
    ensures BlobRestored(b, c, c', setups, added, rs)
  {
    hide HasSections, HaveCells, HeapsRestored, IndexesRebuilt;
  }

  // Without a list the indexes stay as they are.
  method RebuildIfListed(list: seq<nat>, c: Contents, rs: seq<IndexRepository.IndexRepository>)
    requires AllIntact(rs) && (list != [] ==> CanRebuild(list, c, Setups(rs)))
    modifies rs`setup, rs`clean, rs`isUsed, rs`usedIndexes, rs`undefinedIndex, rs`added,
             IndexRepository.AllSingles(rs)`structures
    ensures AllIntact(rs) && |old(Setups(rs))| == |rs|
    ensures list == [] ==> Setups(rs) == old(Setups(rs)) && Added(rs) == old(Added(rs))
    ensures list != [] ==>
              && Complete(list) && Reads(rs, old(Setups(rs)), c, |rs|) && Refilled(list, list[0], rs)
              && ReadUpTo(list, list[0], old(Added(rs)), Added(rs))
  {
    hide *;
    if |list| > 0 {
      RebuildIndexes(list, c, rs);
    }
  }

  // The heaps that are restored last change the keys of what was filled.
  method SettleIndexes(list: seq<nat>, c: Contents, ghost setups: seq<IndexRepository.Setup>, ghost half: Contents,
                       rs: seq<IndexRepository.IndexRepository>)
    requires AllIntact(rs) && |setups| == |rs| && c.cells == half.cells
    requires forall h :: ViewOver(h, half) == ViewOver(h, c.(longs := half.longs))
    requires list == [] ==> Setups(rs) == setups
    requires list != [] ==> Complete(list) && Reads(rs, setups, half, |rs|) && Refilled(list, list[0], rs)
    modifies rs`setup
    ensures AllIntact(rs) && Reads(rs, setups, c, |rs|)
    ensures list != [] ==>
              && Complete(list) && list[0] < |rs|
              && forall v :: 0 <= v <= list[0] && GotList(list, v) ==> SettledAfter(rs[v], setups[v], half.longs, c)
  {
    hide *;
    ghost var mid := Setups(rs);
    if list != [] {
      ReadyToSettle(list, setups, half, c, rs);
    }
    ghost var able := set v | 0 <= v < |rs| && CanSettle(rs[v], c);
    ReplaceHeaps(rs, c);
    ReadsTwice(rs, setups, mid, half, c);
    if list != [] {
      NowSettled(list, setups, mid, half, c, able, rs);
    }
  }

  // The heaps that are restored last are no part of the repositories.
  method ReadRestAside(b: seq<byte>, at: nat, heaps: Heaps, ghost list: seq<nat>,
                       ghost setups: seq<IndexRepository.Setup>, ghost half: Contents,
                       ghost rs: seq<IndexRepository.IndexRepository>)
    requires Reading(b, WIDTHS, at, 4) && HaveCells(heaps.Value())
    requires AllIntact(rs)
    requires list != [] ==> Complete(list) && Reads(rs, setups, half, |rs|) && Refilled(list, list[0], rs)
    modifies heaps
    ensures HasSections(b, 8, WIDTHS) && var all := ReadSections(b, 8, WIDTHS);
            && |all| == 7
            && var c := old(heaps.Value());
               && HaveCells(c) && c.bytes != [] && c.shorts != [] && c.longs != []
               && heaps.Value() == c.(bytes := Loaded(c.bytes, all[4], 1), shorts := Loaded(c.shorts, all[5], 1),
                                      longs := Loaded(c.longs, all[6], 0))
    ensures AllIntact(rs)
    ensures list != [] ==> Complete(list) && Reads(rs, setups, half, |rs|) && Refilled(list, list[0], rs)
  {
    hide *;
    IndexRepository.AllObjects(rs);
    ReadRest(b, at, heaps);
  }

  // The list of indexed structures can be read into the repositories.
  ghost predicate ListCanBeRead(b: seq<byte>, c: Contents, setups: seq<IndexRepository.Setup>)
    requires HaveCells(c) && HasSections(b, 8, WIDTHS)
  {
    var all := ReadSections(b, 8, WIDTHS);
    all[3] != [] ==> CanRebuild(all[3], HalfRestored(c, all), setups)
  }

  ghost predicate HeapsRestored(b: seq<byte>, c: Contents, c': Contents)
    requires HasSections(b, 8, WIDTHS) && HaveCells(c)
  {
    c' == Restored(c, ReadSections(b, 8, WIDTHS))
  }

  // The repositories read the restored heaps, and have what the list says.
  ghost predicate IndexesRebuilt(b: seq<byte>, c: Contents, c': Contents, setups: seq<IndexRepository.Setup>,
                                 added: seq<seq<nat>>, rs: seq<IndexRepository.IndexRepository>)
    requires HasSections(b, 8, WIDTHS) && HaveCells(c)
    reads rs, IndexRepository.AllSingles(rs), IndexRepository.AllCaches(rs)
  {
    var list := ReadSections(b, 8, WIDTHS)[3];
    && Reads(rs, setups, c', |rs|)
    && if list == [] then Added(rs) == added else IsRebuilt(list, c.longs, c', setups, added, rs)
  }

  /**
   The lists were added, and each repository that got one is valid if and only if
   the places that its structures got over the old 64-bit numbers fit the new ones.
   */
  ghost predicate IsRebuilt(list: seq<nat>, stale: seq<nat>, c: Contents, setups: seq<IndexRepository.Setup>,
                            added: seq<seq<nat>>, rs: seq<IndexRepository.IndexRepository>)
    reads rs, IndexRepository.AllSingles(rs), IndexRepository.AllCaches(rs)
  {
    && Complete(list) && list[0] < |rs| == |setups| && ReadUpTo(list, list[0], added, Added(rs))
    && forall v :: 0 <= v <= list[0] && GotList(list, v) ==> SettledAfter(rs[v], setups[v], stale, c)
  }

  ghost predicate SettledAfter(r: IndexRepository.IndexRepository, s: IndexRepository.Setup, stale: seq<nat>,
                               c: Contents)
    reads r, r.singles, r.caches
  {
    Settled(r, SetupOver(s, c.(longs := stale)), c)
  }

  // What is filled over the first heaps keeps its types.
  lemma ReadyToSettle(list: seq<nat>, setups: seq<IndexRepository.Setup>, half: Contents, c: Contents,
                      rs: seq<IndexRepository.IndexRepository>)
    requires Complete(list) && Reads(rs, setups, half, |rs|) && Refilled(list, list[0], rs) && c.cells == half.cells
    ensures list[0] < |rs| && forall v :: 0 <= v <= list[0] && GotList(list, v) ==> CanSettle(rs[v], c)
    ensures forall v :: 0 <= v < |rs| ==> rs[v].setup == SetupOver(setups[v], half)
  {
    hide HasLists, ReadLists, JustFilled, GotList;
    forall v | 0 <= v <= list[0] && GotList(list, v) ensures CanSettle(rs[v], c) {
      assert rs[v].setup == SetupOver(setups[v], half);
    }
  }

  lemma HalfIsStale(c: Contents, all: seq<seq<nat>>)
    requires HaveCells(c) && |all| == 7
    ensures var half, r := HalfRestored(c, all), Restored(c, all);
            && half.cells == r.cells && half.longs == c.longs
            && forall h :: ViewOver(h, half) == ViewOver(h, r.(longs := c.longs))
  {
  }

  lemma OverTwice(s: IndexRepository.Setup, c: Contents, c': Contents)
    ensures SetupOver(SetupOver(s, c), c') == SetupOver(s, c')
    ensures ViewOver(SetupOver(s, c).heap, c') == ViewOver(s.heap, c')
  {
  }

  lemma ReadsTwice(rs: seq<IndexRepository.IndexRepository>, setups: seq<IndexRepository.Setup>,
                   mid: seq<IndexRepository.Setup>, half: Contents, c: Contents)
    requires Reads(rs, mid, c, |rs|) && |setups| == |mid|
    requires mid == setups || forall v :: 0 <= v < |mid| ==> mid[v] == SetupOver(setups[v], half)
    ensures Reads(rs, setups, c, |rs|)
  {
    forall v | 0 <= v < |rs| ensures rs[v].setup == SetupOver(setups[v], c) {
      OverTwice(setups[v], half, c);
    }
  }

  lemma NowSettled(list: seq<nat>, setups: seq<IndexRepository.Setup>, mid: seq<IndexRepository.Setup>, half: Contents,
                   c: Contents, able: set<int>, rs: seq<IndexRepository.IndexRepository>)
    requires Complete(list) && list[0] < |rs| == |mid| == |setups|
    requires forall h :: ViewOver(h, half) == ViewOver(h, c.(longs := half.longs))
    requires forall v :: 0 <= v < |mid| ==> mid[v] == SetupOver(setups[v], half)
    requires forall v :: 0 <= v <= list[0] && GotList(list, v) ==> v in able
    requires forall v :: 0 <= v < |rs| && v in able ==> Settled(rs[v], mid[v], c)
    ensures forall v :: 0 <= v <= list[0] && GotList(list, v) ==> SettledAfter(rs[v], setups[v], half.longs, c)
  {
    hide HasLists, ReadLists, GotList, Settled, ViewOver;
    forall v | 0 <= v <= list[0] && GotList(list, v) ensures SettledAfter(rs[v], setups[v], half.longs, c) {
      assert mid[v] == SetupOver(setups[v], c.(longs := half.longs));
    }
  }

  lemma ListMeans(b: seq<byte>, c: Contents, setups: seq<IndexRepository.Setup>)
    requires HaveCells(c) && HasSections(b, 8, WIDTHS) && |ReadSections(b, 8, WIDTHS)| == 7
    requires ListCanBeRead(b, c, setups)
    ensures var all := ReadSections(b, 8, WIDTHS); all[3] != [] ==> CanRebuild(all[3], HalfRestored(c, all), setups)
  {
  }

  lemma NowRebuilt(b: seq<byte>, c: Contents, c': Contents, setups: seq<IndexRepository.Setup>, added: seq<seq<nat>>,
                   rs: seq<IndexRepository.IndexRepository>)
    requires HaveCells(c) && HasSections(b, 8, WIDTHS) && |ReadSections(b, 8, WIDTHS)| == 7
    requires Reads(rs, setups, c', |rs|)
    requires var list := ReadSections(b, 8, WIDTHS)[3];
             if list == [] then Added(rs) == added
             else
               && Complete(list) && list[0] < |rs| == |setups| && ReadUpTo(list, list[0], added, Added(rs))
               && forall v :: 0 <= v <= list[0] && GotList(list, v) ==> SettledAfter(rs[v], setups[v], c.longs, c')
    ensures IndexesRebuilt(b, c, c', setups, added, rs)
  {
  }

  lemma NowRestored(b: seq<byte>, c: Contents, c': Contents)
    requires HaveCells(c) && HasSections(b, 8, WIDTHS) && |ReadSections(b, 8, WIDTHS)| == 7
    requires var all := ReadSections(b, 8, WIDTHS); c' == Restored(c, all)
    ensures HeapsRestored(b, c, c')
  {
  }

  // ------------------------------------------------------------ round trip

  function Widths(ss: seq<Section>): (ws: seq<nat>)
    ensures |ws| == |ss| && forall k :: 0 <= k < |ss| ==> ws[k] == ss[k].width
  {
    seq(|ss|, k requires 0 <= k < |ss| => ss[k].width)
  }

  // As many cells as were announced, the written ones first.
  predicate Padded(s: Section, cells: seq<nat>) {
    |s.cells| <= s.count == |cells| && cells[..|s.cells|] == s.cells
  }

  lemma SectionIsRead(b: seq<byte>, at: nat, s: Section)
    requires SectionOK(s) && at + SectionSize(s) <= |b| && HoldsSection(b, at, s)
    ensures HasSection(b, at, s.width) && CountAt(b, at) == s.count && Padded(s, ReadOne(b, at, s.width))
  {
    assert Power(4) == 0x1_0000_0000 by {
      assert Power(1) == 256 && Power(2) == 0x1_0000 && Power(3) == 0x100_0000;
    }
    WordOfBytes(4, s.count);
    CellsFit(s);
    var from := b[at + 4..];
    assert from[..s.width * |s.cells|] == b[at + 4..at + 4 + s.width * |s.cells|];
    UnpackOfPack(s.width, s.cells, s.count, from);
  }

  /** Sections that were written are read back, each with its padding. */
  lemma {:induction false} WrittenIsRead(b: seq<byte>, at: nat, ss: seq<Section>)
    requires Written(b, at, ss)
    ensures HasSections(b, at, Widths(ss))
    ensures forall k :: 0 <= k < |ss| ==> Padded(ss[k], ReadSections(b, at, Widths(ss))[k])
    decreases |ss|
  {
    if ss != [] {
      hide *;
      var s, rest := ss[0], ss[1..];
      FirstIsRead(b, at, ss);
      WrittenIsRead(b, at + SectionSize(s), rest);
      assert Widths(ss) == [s.width] + Widths(rest);
      UnfoldOnce(b, at, Widths(ss), s.width, Widths(rest));
      var all := ReadSections(b, at, Widths(ss));
      forall k | 0 <= k < |ss| ensures Padded(ss[k], all[k]) {
        assert k > 0 ==> ss[k] == rest[k - 1];
      }
    }
  }

  lemma FirstIsRead(b: seq<byte>, at: nat, ss: seq<Section>)
    requires Written(b, at, ss) && ss != []
    ensures HasSection(b, at, ss[0].width) && Padded(ss[0], ReadOne(b, at, ss[0].width))
    ensures SectionSize(ss[0]) == 4 + Room(ss[0].width, CountAt(b, at))
    ensures Written(b, at + SectionSize(ss[0]), ss[1..])
  {
    SectionIsRead(b, at, ss[0]);
  }

  lemma UnfoldOnce(b: seq<byte>, at: nat, ws: seq<nat>, w: nat, rest: seq<nat>)
    requires HasSection(b, at, w) && HasSections(b, at + 4 + Room(w, CountAt(b, at)), rest) && ws == [w] + rest
    ensures HasSections(b, at, ws)
    ensures ReadSections(b, at, ws) == [ReadOne(b, at, w)] + ReadSections(b, at + 4 + Room(w, CountAt(b, at)), rest)
  {
    assert ws[1..] == rest;
  }

  // The blob of these contents: what getBlob put into some buffer.
  ghost predicate IsBlobOf(b: seq<byte>, c: Contents, indexed: seq<nat>) {
    ContentsOK(c, indexed) && exists b0 :: BlobSize(c, indexed) <= |b0| && b == Image(b0, c, indexed)
  }

  lemma ImageIsWritten(b0: seq<byte>, c: Contents, indexed: seq<nat>)
    requires ContentsOK(c, indexed) && BlobSize(c, indexed) <= |b0|
    ensures var b := Image(b0, c, indexed); |b| >= 8 && HeaderOK(b) && Written(b, 8, Sections(c, indexed))
  {
    hide *;
    ImageIsLaid(b0, c, indexed);
    var b1 := Put(b0, 0, Header());
    LaidIsWritten(b1, 8, Sections(c, indexed));
    HeaderReads(b0, b1, Image(b0, c, indexed));
  }

  lemma HeaderReads(b0: seq<byte>, b1: seq<byte>, b: seq<byte>)
    requires |b0| == |b1| == |b| >= 8 && b1 == Put(b0, 0, Header()) && b[..8] == b1[..8]
    ensures HeaderOK(b)
  {
    assert Power(4) == 0x1_0000_0000 by {
      assert Power(1) == 256 && Power(2) == 0x1_0000 && Power(3) == 0x100_0000;
    }
    WordOfBytes(4, KEY);
    WordOfBytes(4, VERSION);
    hide Bytes, Word, Power;
    assert b[..8] == Header();
    assert b[0..4] == b[..8][0..4] == Bytes(4, KEY);
    assert b[4..8] == b[..8][4..8] == Bytes(4, VERSION);
  }

  lemma WidthsOfSections(ss: seq<Section>)
    requires |ss| == 7 && ss[0].width == ss[2].width == ss[3].width == 4
    requires ss[1].width == ss[5].width == 2 && ss[4].width == 1 && ss[6].width == 8
    ensures Widths(ss) == WIDTHS
  {
  }

  lemma BlobIsRead(b: seq<byte>, c: Contents, indexed: seq<nat>)
    requires IsBlobOf(b, c, indexed)
    ensures |b| >= 8 && HeaderOK(b) && HasSections(b, 8, WIDTHS)
    ensures var all, ss := ReadSections(b, 8, WIDTHS), Sections(c, indexed);
            |all| == |ss| == 7 && forall k :: 0 <= k < 7 ==> Padded(ss[k], all[k])
  {
    var b0 :| BlobSize(c, indexed) <= |b0| && b == Image(b0, c, indexed);
    hide *;
    ImageIsWritten(b0, c, indexed);
    SectionsAre(c, indexed);
    WidthsAre();
    WidthsOfSections(Sections(c, indexed));
    WrittenIsRead(b, 8, Sections(c, indexed));
  }

  // The heap comes back with less than unit cells more behind it.
  predicate IsPadded(cells: seq<nat>, read: seq<nat>, unit: nat) {
    |cells| <= |read| < |cells| + unit && read[..|cells|] == cells
  }

  lemma PaddedExact(s: Section, cells: seq<nat>)
    requires Padded(s, cells) && s.count == |s.cells|
    ensures cells == s.cells
  {
  }

  lemma PaddedAligned(s: Section, cells: seq<nat>, unit: nat)
    requires Padded(s, cells) && unit > 1 && s.count == Aligned(|s.cells|, unit) && s.cells != []
    ensures IsPadded(s.cells, cells, unit) && |cells| > 1 && cells[0] == s.cells[0]
  {
    assert cells[0] == cells[..|s.cells|][0];
  }

  // What was read of each section.
  ghost predicate AllRead(c: Contents, indexed: seq<nat>, all: seq<seq<nat>>) {
    && |all| == 7 && all[0] == c.cells && all[2] == c.refs && all[3] == indexed && all[6] == c.longs
    && ComesBackPadded(c.chars, all[1], 2) && ComesBackPadded(c.bytes, all[4], 4)
    && ComesBackPadded(c.shorts, all[5], 2)
  }

  predicate ComesBackPadded(cells: seq<nat>, read: seq<nat>, unit: nat) {
    IsPadded(cells, read, unit) && cells != [] && |read| > 1 && read[0] == cells[0]
  }

  lemma SectionsReturn(b: seq<byte>, c: Contents, indexed: seq<nat>)
    requires IsBlobOf(b, c, indexed)
    ensures |b| >= 8 && HeaderOK(b) && HasSections(b, 8, WIDTHS) && AllRead(c, indexed, ReadSections(b, 8, WIDTHS))
    ensures HaveCells(c)
  {
    hide *;
    BlobIsRead(b, c, indexed);
    SectionsAre(c, indexed);
    FirstCells(b, c, indexed);
    var all, ss := ReadSections(b, 8, WIDTHS), Sections(c, indexed);
    PaddedExact(ss[0], all[0]);
    PaddedExact(ss[2], all[2]);
    PaddedExact(ss[3], all[3]);
    PaddedExact(ss[6], all[6]);
    PaddedAligned(ss[1], all[1], 2);
    PaddedAligned(ss[4], all[4], 4);
    PaddedAligned(ss[5], all[5], 2);
    AllAreRead(c, indexed, all);
  }

  lemma FirstCells(b: seq<byte>, c: Contents, indexed: seq<nat>)
    requires IsBlobOf(b, c, indexed)
    ensures HaveCells(c) && c.cells != [] && c.chars != [] && c.refs != [] && c.bytes != [] && c.shorts != []
    ensures c.longs != []
  {
  }

  lemma AllAreRead(c: Contents, indexed: seq<nat>, all: seq<seq<nat>>)
    requires |all| == 7 && all[0] == c.cells && all[2] == c.refs && all[3] == indexed && all[6] == c.longs
    requires IsPadded(c.chars, all[1], 2) && c.chars != [] && |all[1]| > 1 && all[1][0] == c.chars[0]
    requires IsPadded(c.bytes, all[4], 4) && c.bytes != [] && |all[4]| > 1 && all[4][0] == c.bytes[0]
    requires IsPadded(c.shorts, all[5], 2) && c.shorts != [] && |all[5]| > 1 && all[5][0] == c.shorts[0]
    ensures AllRead(c, indexed, all)
  {
  }

  lemma ReadIsRestored(c: Contents, indexed: seq<nat>, all: seq<seq<nat>>, target: Contents)
    requires AllRead(c, indexed, all) && HaveCells(c) && HaveCells(target)
    ensures StartsWithZero(all[1]) <==> c.chars[0] == 0
    ensures var r := Restored(target, all);
            && r.cells == (if |c.cells| > 1 then c.cells else if |target.cells| == 1 then target.cells else [0])
            && r.refs == (if |c.refs| > 1 then c.refs else if |target.refs| == 1 then target.refs else [0])
            && r.longs == c.longs
            && IsPadded(c.chars, r.chars, 2) && IsPadded(c.bytes, r.bytes, 4) && IsPadded(c.shorts, r.shorts, 2)
  {
    hide IsPadded;
  }

  /**
   A blob is accepted exactly when the first three heaps start with their zero
   cell. The cells of structures and string references and the 64-bit cells
   come back exactly, the others with at most one, three and one cells of padding.
   */
  lemma BlobReturns(b: seq<byte>, c: Contents, indexed: seq<nat>, target: Contents)
    requires IsBlobOf(b, c, indexed) && HaveCells(target)
    ensures |b| >= 8 && HasSections(b, 8, WIDTHS) && HaveCells(c)
    ensures Accepts(b) <==> StartsWithZero(c.cells) && c.chars[0] == 0 && StartsWithZero(c.refs)
    ensures var all := ReadSections(b, 8, WIDTHS);
            |all| == 7 &&
            var r := Restored(target, all);
            && r.cells == (if |c.cells| > 1 then c.cells else if |target.cells| == 1 then target.cells else [0])
            && r.refs == (if |c.refs| > 1 then c.refs else if |target.refs| == 1 then target.refs else [0])
            && r.longs == c.longs && all[3] == indexed
            && IsPadded(c.chars, r.chars, 2) && IsPadded(c.bytes, r.bytes, 4) && IsPadded(c.shorts, r.shorts, 2)
  {
    hide *;
    WidthsAre();
    FirstCells(b, c, indexed);
    SectionsReturn(b, c, indexed);
    ReadIsRestored(c, indexed, ReadSections(b, 8, WIDTHS), target);
    HeaderMeans(b);
    AcceptsMeans(b, target);
    AllReadMeans(c, indexed, ReadSections(b, 8, WIDTHS));
  }

  lemma AllReadMeans(c: Contents, indexed: seq<nat>, all: seq<seq<nat>>)
    requires AllRead(c, indexed, all)
    ensures |all| == 7 && all[0] == c.cells && all[2] == c.refs && all[3] == indexed
  {
  }

  lemma HeaderMeans(b: seq<byte>)
    requires |b| >= 8 && HeaderOK(b)
    ensures CountAt(b, 0) == KEY && CountAt(b, 4) == VERSION
  {
  }

  lemma SliceOfPrefix(s: seq<nat>, n: nat, from: nat, to: nat)
    requires from <= to <= n <= |s|
    ensures s[from..to] == s[..n][from..to]
  {
  }

  lemma TextInPadded(refs: seq<nat>, refs': seq<nat>, chars: seq<nat>, chars': seq<nat>, ref: nat)
    requires FSHeap.RefOK(refs, chars, ref) && IsPadded(chars, chars', 2) && (|refs| > 1 ==> refs' == refs)
    ensures FSHeap.RefOK(refs', chars', ref) && FSHeap.TextOf(refs', chars', ref) == FSHeap.TextOf(refs, chars, ref)
  {
    if ref != 0 {
      SliceOfPrefix(chars', |chars|, refs[2 * ref - 1], refs[2 * ref - 1] + refs[2 * ref]);
    }
  }

  /** So every string reference still stands for the same text. */
  lemma TextsReturn(b: seq<byte>, c: Contents, indexed: seq<nat>, target: Contents, ref: nat)
    requires IsBlobOf(b, c, indexed) && HaveCells(target) && FSHeap.RefOK(c.refs, c.chars, ref)
    ensures HasSections(b, 8, WIDTHS)
    ensures var r := Restored(target, ReadSections(b, 8, WIDTHS));
            && FSHeap.RefOK(r.refs, r.chars, ref)
            && FSHeap.TextOf(r.refs, r.chars, ref) == FSHeap.TextOf(c.refs, c.chars, ref)
  {
    hide *;
    WidthsAre();
    BlobReturns(b, c, indexed, target);
    var r := Restored(target, ReadSections(b, 8, WIDTHS));
    TextInPadded(c.refs, r.refs, c.chars, r.chars, ref);
  }

  // ------------------------------------------------ keys that are read later

  // No index compares 64-bit numbers.
  predicate NoLongKeys(s: IndexRepository.Setup) {
    forall d, k :: 0 <= d < |s.definitions| && k in s.definitions[d].order.keys ==> k.kind != IndexComparator.Long
  }

  /** Without keys of 64 bits the heaps that are restored after the indexes change no key. */
  lemma KeysWithoutLongs(s: IndexRepository.Setup, c: Contents, c': Contents, fs: nat)
    requires NoLongKeys(s) && c' == c.(bytes := c'.bytes, shorts := c'.shorts, longs := c'.longs)
    ensures IndexRepository.SameStructure(SetupOver(s, c), ViewOver(s.heap, c'), fs)
  {
    var s1, h := SetupOver(s, c), ViewOver(s.heap, c');
    forall d | 0 <= d < |s1.definitions| ensures IndexRepository.SameUnder(s1.definitions[d].order, h, fs) {
      var o := s1.definitions[d].order;
      assert o == IndexComparator.Order(s.definitions[d].order.keys, ViewOver(s.heap, c));
      forall k | k in o.keys
        ensures IndexComparator.ValueOf(IndexComparator.Order(o.keys, h), k, fs) == IndexComparator.ValueOf(o, k, fs)
      {
        assert k in s.definitions[d].order.keys && k.kind != IndexComparator.Long;
        SameValue(s.heap, c, c', o.keys, k, fs);
      }
    }
  }

  lemma SameText(h: IndexComparator.HeapView, h': IndexComparator.HeapView, at: IndexComparator.StringRef)
    requires h'.chars == h.chars
    ensures h'.Text(at) == h.Text(at)
  {
    if at.At? {
      assert |h'.Text(at)| == |h.Text(at)| == at.length;
      forall i | 0 <= i < at.length ensures h'.Text(at)[i] == h.Text(at)[i] {
        assert h'.Text(at)[i] == h'.Char(at.pos + i);
        assert h.Text(at)[i] == h.Char(at.pos + i);
      }
    }
  }

  lemma SameValue(v: IndexComparator.HeapView, c: Contents, c': Contents, keys: seq<IndexComparator.Key>,
                  k: IndexComparator.Key, fs: nat)
    requires k.kind != IndexComparator.Long && c' == c.(bytes := c'.bytes, shorts := c'.shorts, longs := c'.longs)
    ensures IndexComparator.ValueOf(IndexComparator.Order(keys, ViewOver(v, c')), k, fs)
         == IndexComparator.ValueOf(IndexComparator.Order(keys, ViewOver(v, c)), k, fs)
  {
    var h, h' := ViewOver(v, c), ViewOver(v, c');
    var cell := h.Cell(fs + k.offset);
    assert h'.StringAt(cell) == h.StringAt(cell);
    var at := h.StringAt(cell);
    SameText(h, h', at);
  }

  /** So without such keys the old numbers do no harm. */
  lemma NoLongsInOrder(s: IndexRepository.Setup, c: Contents, stale: seq<nat>, added: seq<nat>)
    requires IndexRepository.SetupOK(s) && NoLongKeys(s)
    ensures AllStayInOrder(SetupOver(s, c.(longs := stale)), ViewOver(s.heap, c), added)
  {
    hide *;
    var s1, h := SetupOver(s, c.(longs := stale)), ViewOver(s.heap, c);
    SetupOverIsOK(s, c.(longs := stale));
    forall t, d | 0 <= d < |s1.definitions| ensures StaysInOrder(s1, h, added, t, d) {
      var o := s1.definitions[d].order;
      forall a, b
        ensures IndexComparator.Precedes(IndexComparator.Order(o.keys, h), a, b) <==> IndexComparator.Precedes(o, a, b)
      {
        KeysWithoutLongs(s, c.(longs := stale), c, a);
        KeysWithoutLongs(s, c.(longs := stale), c, b);
        SameUnderOne(s1, h, d, a);
        SameUnderOne(s1, h, d, b);
        IndexRepository.PrecedesRebased(o, h, a, b);
      }
      InsertionOrder.SameKeysFit(o, IndexComparator.Order(o.keys, h), InOrder(s1.heap, added, t));
      StaysIf(s1, h, added, t, d);
    }
    AllStayIf(s1, h, added);
  }

  lemma SameUnderOne(s: IndexRepository.Setup, h: IndexComparator.HeapView, d: nat, fs: nat)
    requires IndexRepository.SameStructure(s, h, fs) && d < |s.definitions|
    ensures IndexRepository.SameUnder(s.definitions[d].order, h, fs)
  {
  }

  lemma StaysIf(s: IndexRepository.Setup, h: IndexComparator.HeapView, added: seq<nat>, t: nat, d: nat)
    requires d < |s.definitions|
    requires var o := s.definitions[d].order;
             InsertionOrder.AllFit(o, IndexComparator.Order(o.keys, h), InOrder(s.heap, added, t))
    ensures StaysInOrder(s, h, added, t, d)
  {
  }

  lemma AllStayIf(s: IndexRepository.Setup, h: IndexComparator.HeapView, added: seq<nat>)
    requires IndexRepository.SetupOK(s)
    requires forall t, d :: 0 <= d < |s.definitions| ==> StaysInOrder(s, h, added, t, d)
    ensures TypeTree.ParentsOK(s.parents) && AllStayInOrder(s, h, added)
  {
    hide StaysInOrder;
  }

  /** And a repository that was filled is valid over the restored heaps. */
  lemma SettledWithoutLongs(r: IndexRepository.IndexRepository, s: IndexRepository.Setup, stale: seq<nat>, c: Contents)
    requires SettledAfter(r, s, stale, c) && IndexRepository.SetupOK(s) && NoLongKeys(s)
    ensures r.Valid()
  {
    NoLongsInOrder(s, c, stale, r.added);
    OverTwice(s, c.(longs := stale), c);
    hide NoLongKeys, AllStayInOrder, ViewOver, SetupOver;
  }

  // All keys of the index compare 64-bit numbers that the structures have.
  predicate AllLongs(keys: seq<IndexComparator.Key>, c: Contents, list: seq<nat>) {
    forall k, fs :: k in keys && fs in list ==>
      && k.kind == IndexComparator.Long && fs + k.offset < |c.cells| && c.cells[fs + k.offset] != 0
  }

  /**
   In a target whose 64-bit heap is as after a reset all numbers read the same.
   The structures stay as they are listed, and the numbers have to ascend along the list.
   */
  lemma FreshTarget(s: IndexRepository.Setup, c: Contents, added: seq<nat>, t: nat, d: nat)
    requires d < |s.definitions|
    requires AllLongs(s.definitions[d].order.keys, c, InOrder(ViewOver(s.heap, c), added, t))
    ensures StaysInOrder(SetupOver(s, c.(longs := [0])), ViewOver(s.heap, c), added, t, d)
       <==> SingleIndex.Sorted(IndexComparator.Order(s.definitions[d].order.keys, ViewOver(s.heap, c)),
                               InOrder(ViewOver(s.heap, c), added, t))
  {
    var h0, h := ViewOver(s.heap, c.(longs := [0])), ViewOver(s.heap, c);
    var keys := s.definitions[d].order.keys;
    var o1, o2, list := IndexComparator.Order(keys, h0), IndexComparator.Order(keys, h), InOrder(h, added, t);
    SameTypesInOrder(h0, h, added, t);
    forall a, b | a in list && b in list ensures !IndexComparator.Precedes(o1, a, b) {
      AllTie(s.heap, c, keys, list, a, b);
      IndexComparator.TiesDoNotPrecede(o1, a, b);
    }
    hide IndexComparator.Precedes, IndexComparator.Ties;
    InsertionOrder.FilledByTies(o1, list);
    InsertionOrder.SortedAgain(o1, o2, list);
    hide SingleIndex.Sorted, InsertionOrder.AllFit, AllLongs;
  }

  lemma AllTie(v: IndexComparator.HeapView, c: Contents, keys: seq<IndexComparator.Key>, list: seq<nat>, a: nat, b: nat)
    requires AllLongs(keys, c, list) && a in list && b in list
    ensures IndexComparator.Ties(IndexComparator.Order(keys, ViewOver(v, c.(longs := [0]))), a, b)
  {
    var o := IndexComparator.Order(keys, ViewOver(v, c.(longs := [0])));
    assert IndexComparator.Signed(0, 0x1_0000_0000_0000_0000) == 0;
    assert o.heap.longs == [0];
    forall k | k in keys ensures IndexComparator.ValueOf(o, k, a) == IndexComparator.ValueOf(o, k, b) {
      assert o.heap.Cell(a + k.offset) != 0 && o.heap.Cell(b + k.offset) != 0;
    }
  }

  lemma {:induction false} SameTypesInOrder(h: IndexComparator.HeapView, h': IndexComparator.HeapView, added: seq<nat>,
                                            t: nat)
    requires h.cells == h'.cells
    ensures InOrder(h, added, t) == InOrder(h', added, t)
  {
    if added != [] {
      SameTypesInOrder(h, h', added[..|added| - 1], t);
    }
  }

  // ------------------------------------------------------- one CAS to another

  // The list of indexed structures that is written.
  function IndexList(own: seq<nat>, lists: seq<seq<nat>>): seq<nat> {
    [|lists|] + Encoded([own] + lists)
  }

  // What the heaps are after reading the blob of these contents, from the target's.
  ghost predicate CameBack(c: Contents, target: Contents, r: Contents)
    requires HaveCells(target)
  {
    && r.cells == (if |c.cells| > 1 then c.cells else if |target.cells| == 1 then target.cells else [0])
    && r.refs == (if |c.refs| > 1 then c.refs else if |target.refs| == 1 then target.refs else [0])
    && r.longs == c.longs
    && IsPadded(c.chars, r.chars, 2) && IsPadded(c.bytes, r.bytes, 4) && IsPadded(c.shorts, r.shorts, 2)
  }

  // What the reader takes for the lists of the views: it does not step over an empty list of the base CAS.
  function Received(own: seq<nat>, lists: seq<seq<nat>>): (r: seq<seq<nat>>)
    ensures |r| == |lists|
  {
    if own != [] then lists else ([own] + lists)[..|lists|]
  }

  // The base CAS has what it had, and the views that receive a list have that.
  ghost predicate ViewsCameBack(own: seq<nat>, lists: seq<seq<nat>>, before: seq<seq<nat>>, after: seq<seq<nat>>) {
    |lists| < |before| == |after| && after[0] == own &&
    forall v :: 1 <= v <= |lists| ==>
      after[v] == if Received(own, lists)[v - 1] == [] then before[v] else Received(own, lists)[v - 1]
  }

  // The base CAS, and the views that receive something, are filled.
  predicate GetsList(own: seq<nat>, lists: seq<seq<nat>>, v: int) {
    v == 0 || (1 <= v <= |lists| && Received(own, lists)[v - 1] != [])
  }

  /**
   A CAS is written and read into another: getBlobSize announces the size,
   getBlob fills that much of the buffer, and deserializeBlob restores the heaps
   and the indexes.
   */
  method BlobTransfer(c: Contents, base: IndexRepository.IndexRepository, views: seq<ViewIndexes>, buffer: array<byte>,
                      heaps: Heaps, repositories: seq<IndexRepository.IndexRepository>)
    returns (size: nat, ok: bool)
    requires base.Valid() && forall v :: v in views && v.Indexes? ==> v.repository.Valid()
    requires TypeTree.ParentsOK(base.setup.parents)
    requires ContentsOK(c, IndexList(Ascending(Covered(base.setup, base.added)), ListsOf(views)))
    requires HaveCells(heaps.Value()) && AllIntact(repositories)
    requires CanRebuild(IndexList(Ascending(Covered(base.setup, base.added)), ListsOf(views)), c, Setups(repositories))
    modifies buffer, heaps, repositories`setup, repositories`clean, repositories`isUsed, repositories`usedIndexes,
             repositories`undefinedIndex, repositories`added,
             IndexRepository.AllSingles(repositories)`structures
    ensures size == BlobSize(c, old(IndexList(Ascending(Covered(base.setup, base.added)), ListsOf(views))))
    ensures ok
       <==> size <= buffer.Length && StartsWithZero(c.cells) && c.chars != [] && c.chars[0] == 0
            && StartsWithZero(c.refs)
    ensures ok ==>
              && CameBack(c, old(heaps.Value()), heaps.Value())
              && ViewsCameBack(old(Ascending(Covered(base.setup, base.added))), old(ListsOf(views)),
                               old(Added(repositories)), Added(repositories))
    ensures ok ==>
              && AllIntact(repositories) && AllShow(repositories, heaps.Value())
              && Reads(repositories, old(Setups(repositories)), heaps.Value(), |repositories|)
              && AllSettled(old(Ascending(Covered(base.setup, base.added))), old(ListsOf(views)),
                            old(Setups(repositories)), old(heaps.longs), heaps.Value(), repositories)
  {
    hide *;
    IndexRepository.AllObjects(repositories);
    ghost var list, target, setups := IndexList(Ascending(Covered(base.setup, base.added)),
                                                ListsOf(views)), heaps.Value(), Setups(repositories);
    ghost var own, lists, added := Ascending(Covered(base.setup, base.added)), ListsOf(views), Added(repositories);
    IndexListIs(own, lists);
    ValueIs(heaps);
    SetupsAreOK(repositories);
    var serializer := new CASSerializer();
    size := serializer.GetBlobSize(c, base, views);
    ghost var b0 := buffer[..];
    var written := serializer.GetBlob(c, buffer, buffer.Length);
    SizeIsPositive(c, list);
    if written == 0 {
      return size, false;
    }
    ghost var b := buffer[..];
    IsBlob(b0, c, list);
    ReadyToRead(b, c, list, target, setups);
    ok := DeserializeBlob(buffer, heaps, repositories);
    if ok {
      RestoredMeans(b, target, heaps.Value(), setups, added, repositories);
      BlobCameBack(b, c, list, target, heaps.Value());
      ViewsAre(b, c, list, target, heaps.Value(), own, lists, setups, added, repositories);
      ListsSettled(own, lists, setups, target.longs, heaps.Value(), repositories);
    }
  }

  /**
   Each repository that was filled is valid if and only if its structures, placed
   by the old numbers, are in the order of the new ones, and always if no index
   compares 64-bit numbers.
   */
  ghost predicate AllSettled(own: seq<nat>, lists: seq<seq<nat>>, setups: seq<IndexRepository.Setup>, stale: seq<nat>,
                             c: Contents, rs: seq<IndexRepository.IndexRepository>)
    reads rs, IndexRepository.AllSingles(rs), IndexRepository.AllCaches(rs)
  {
    && |lists| < |rs| == |setups|
    && forall v :: 0 <= v <= |lists| && GetsList(own, lists, v) ==>
         SettledAfter(rs[v], setups[v], stale, c) && (NoLongKeys(setups[v]) ==> rs[v].Valid())
  }

  lemma SetupsAreOK(rs: seq<IndexRepository.IndexRepository>)
    requires AllIntact(rs)
    ensures forall v :: 0 <= v < |rs| ==> IndexRepository.SetupOK(Setups(rs)[v])
  {
  }

  lemma ListsSettled(own: seq<nat>, lists: seq<seq<nat>>, setups: seq<IndexRepository.Setup>, stale: seq<nat>,
                     c: Contents, rs: seq<IndexRepository.IndexRepository>)
    requires |lists| < |rs| == |setups| && forall v :: 0 <= v < |rs| ==> IndexRepository.SetupOK(setups[v])
    requires forall v :: 0 <= v <= |lists| && GetsList(own, lists, v) ==> SettledAfter(rs[v], setups[v], stale, c)
    ensures AllSettled(own, lists, setups, stale, c, rs)
  {
    hide SettledAfter, NoLongKeys, GetsList, IndexRepository.SetupOK;
    forall v | 0 <= v <= |lists| && GetsList(own, lists, v) && NoLongKeys(setups[v]) ensures rs[v].Valid() {
      SettledWithoutLongs(rs[v], setups[v], stale, c);
    }
  }

  lemma IndexListIs(own: seq<nat>, lists: seq<seq<nat>>)
    ensures IndexList(own, lists) == [|lists|] + Encoded([own] + lists)
  {
  }

  lemma SizeIsPositive(c: Contents, list: seq<nat>)
    ensures BlobSize(c, list) > 0
  {
  }

  lemma IsBlob(b0: seq<byte>, c: Contents, list: seq<nat>)
    requires ContentsOK(c, list) && BlobSize(c, list) <= |b0|
    ensures IsBlobOf(Image(b0, c, list), c, list)
  {
  }

  lemma ReadyToRead(b: seq<byte>, c: Contents, list: seq<nat>, target: Contents, setups: seq<IndexRepository.Setup>)
    requires IsBlobOf(b, c, list) && HaveCells(target) && CanRebuild(list, c, setups)
    ensures CanDeserialize(b, target, setups)
    ensures |b| >= 8 && HasSections(b, 8, WIDTHS)
    ensures Accepts(b) <==> StartsWithZero(c.cells) && c.chars != [] && c.chars[0] == 0 && StartsWithZero(c.refs)
  {
    hide *;
    WidthsAre();
    BlobReturns(b, c, list, target);
    SectionsReturn(b, c, list);
    FirstCells(b, c, list);
    var all := ReadSections(b, 8, WIDTHS);
    HalfCells(target, all);
    OverRestored(list, c, HalfRestored(target, all), setups);
    CanBeRead(b, target, setups);
    ItCanBeRead(b, target, setups);
  }

  lemma ItCanBeRead(b: seq<byte>, c: Contents, setups: seq<IndexRepository.Setup>)
    requires |b| >= 8 && HasSections(b, 8, WIDTHS) && HaveCells(c) && ListCanBeRead(b, c, setups)
    ensures CanDeserialize(b, c, setups)
  {
    hide HasSections, HaveCells, ListCanBeRead, Accepts;
  }

  lemma RestoredMeans(b: seq<byte>, c: Contents, c': Contents, setups: seq<IndexRepository.Setup>,
                      added: seq<seq<nat>>, rs: seq<IndexRepository.IndexRepository>)
    requires BlobRestored(b, c, c', setups, added, rs)
    ensures HaveCells(c) && HasSections(b, 8, WIDTHS)
    ensures HeapsRestored(b, c, c') && IndexesRebuilt(b, c, c', setups, added, rs)
  {
    hide HasSections, HaveCells, HeapsRestored, IndexesRebuilt;
  }

  lemma HalfCells(target: Contents, all: seq<seq<nat>>)
    requires HaveCells(target) && |all| == 7
    ensures HalfRestored(target, all).cells == Restored(target, all).cells
  {
  }

  // Only the cells matter for what is a structure, and one cell holds none.
  lemma OverRestored(list: seq<nat>, c: Contents, c': Contents, setups: seq<IndexRepository.Setup>)
    requires CanRebuild(list, c, setups) && (|c.cells| > 1 ==> c'.cells == c.cells)
    ensures CanRebuild(list, c', setups)
  {
    hide HasLists, ReadLists, AreStructures;
    forall l, s | AreStructures(l, c, s) ensures AreStructures(l, c', s) {
      SameTypes(l, c, c', s);
    }
    forall v | 1 <= v <= list[0]
      ensures AreStructures(ReadLists(list, ViewsStart(list), list[0])[v - 1], c', setups[v])
    {
      assert AreStructures(ReadLists(list, ViewsStart(list), list[0])[v - 1], c, setups[v]);
    }
  }

  lemma SameTypes(l: seq<nat>, c: Contents, c': Contents, s: IndexRepository.Setup)
    requires AreStructures(l, c, s) && (|c.cells| > 1 ==> c'.cells == c.cells)
    ensures AreStructures(l, c', s)
  {
    if |c.cells| <= 1 && l != [] {
      assert l[0] in l && ViewOver(s.heap, c).TypeOf(l[0]) == 0;
    }
  }

  lemma CanBeRead(b: seq<byte>, target: Contents, setups: seq<IndexRepository.Setup>)
    requires HaveCells(target) && HasSections(b, 8, WIDTHS) && |ReadSections(b, 8, WIDTHS)| == 7
    requires CanRebuild(ReadSections(b, 8, WIDTHS)[3], HalfRestored(target, ReadSections(b, 8, WIDTHS)), setups)
    ensures ListCanBeRead(b, target, setups)
  {
  }

  lemma BlobCameBack(b: seq<byte>, c: Contents, list: seq<nat>, target: Contents, r: Contents)
    requires IsBlobOf(b, c, list) && HaveCells(target) && HasSections(b, 8, WIDTHS) && HeapsRestored(b, target, r)
    ensures CameBack(c, target, r)
  {
    hide HasSections, ReadSections, IsBlobOf, IsPadded, Restored, Accepts;
    BlobReturns(b, c, list, target);
  }

  lemma ViewsAre(b: seq<byte>, c: Contents, list: seq<nat>, target: Contents, r: Contents, own: seq<nat>,
                 lists: seq<seq<nat>>, setups: seq<IndexRepository.Setup>, added: seq<seq<nat>>,
                 rs: seq<IndexRepository.IndexRepository>)
    requires IsBlobOf(b, c, list) && HaveCells(target) && HasSections(b, 8, WIDTHS)
    requires list == [|lists|] + Encoded([own] + lists) && IndexesRebuilt(b, target, r, setups, added, rs)
    ensures ViewsCameBack(own, lists, added, Added(rs)) && Reads(rs, setups, r, |rs|) && |lists| < |rs| == |setups|
    ensures forall v :: 0 <= v <= |lists| && GetsList(own, lists, v) ==>
              SettledAfter(rs[v], setups[v], target.longs, r)
  {
    hide *;
    WidthsAre();
    BlobReturns(b, c, list, target);
    RebuiltMeans(b, target, r, setups, added, rs);
    ViewsFrom(own, lists, added, Added(rs));
    GotReceived(own, lists);
  }

  lemma RebuiltMeans(b: seq<byte>, c: Contents, c': Contents, setups: seq<IndexRepository.Setup>, added: seq<seq<nat>>,
                     rs: seq<IndexRepository.IndexRepository>)
    requires HasSections(b, 8, WIDTHS) && HaveCells(c) && |ReadSections(b, 8, WIDTHS)| == 7
    requires IndexesRebuilt(b, c, c', setups, added, rs)
    ensures Reads(rs, setups, c', |rs|)
    ensures var list := ReadSections(b, 8, WIDTHS)[3];
            list != [] ==>
              && Complete(list) && list[0] < |rs| == |setups| && ReadUpTo(list, list[0], added, Added(rs))
              && forall v :: 0 <= v <= list[0] && GotList(list, v) ==> SettledAfter(rs[v], setups[v], c.longs, c')
  {
  }

  lemma GotReceived(own: seq<nat>, lists: seq<seq<nat>>)
    ensures var list := [|lists|] + Encoded([own] + lists);
            && Complete(list) && list[0] == |lists|
            && forall v :: 0 <= v <= |lists| ==> (GotList(list, v) <==> GetsList(own, lists, v))
  {
    hide Encoded, HasLists, ReadLists;
    IndexListsReturn([own] + lists);
    assert ([own] + lists)[1..] == lists;
  }

  lemma ViewsFrom(own: seq<nat>, lists: seq<seq<nat>>, before: seq<seq<nat>>, after: seq<seq<nat>>)
    requires var list := [|lists|] + Encoded([own] + lists); Complete(list) && ReadUpTo(list, list[0], before, after)
    ensures ViewsCameBack(own, lists, before, after)
  {
    hide *;
    var all := [own] + lists;
    IndexListsReturn(all);
    assert all[1..] == lists;
    var list := [|lists|] + Encoded(all);
    ReadUpToMeans(list, before, after);
    ReceivedIs(own, lists);
    ItCameBack(own, lists, before, after);
  }

  lemma ReceivedIs(own: seq<nat>, lists: seq<seq<nat>>)
    ensures Received(own, lists) == if own != [] then lists else ([own] + lists)[..|lists|]
  {
  }

  lemma ReadUpToMeans(list: seq<nat>, before: seq<seq<nat>>, after: seq<seq<nat>>)
    requires Complete(list) && ReadUpTo(list, list[0], before, after)
    ensures |list| >= 2 && 2 + list[1] <= |list| && list[0] < |before| == |after| && after[0] == list[2..2 + list[1]]
    ensures HasLists(list, ViewsStart(list), list[0])
    ensures forall v :: 1 <= v <= list[0] ==>
              after[v] == if ReadLists(list, ViewsStart(list), list[0])[v - 1] == [] then before[v]
                          else ReadLists(list, ViewsStart(list), list[0])[v - 1]
  {
    hide HasLists, ReadLists;
    forall v | 1 <= v <= list[0]
      ensures after[v] == if ReadLists(list, ViewsStart(list), list[0])[v - 1] == [] then before[v]
                          else ReadLists(list, ViewsStart(list), list[0])[v - 1]
    {
      assert TookList(before[v], ReadLists(list, ViewsStart(list), list[0])[v - 1], after[v]);
    }
  }

  lemma ItCameBack(own: seq<nat>, lists: seq<seq<nat>>, before: seq<seq<nat>>, after: seq<seq<nat>>)
    requires |lists| < |before| == |after| && after[0] == own
    requires forall v :: 1 <= v <= |lists| ==>
               after[v] == if Received(own, lists)[v - 1] == [] then before[v] else Received(own, lists)[v - 1]
    ensures ViewsCameBack(own, lists, before, after)
  {
  }

  // ------------------------------------------------ numbers of another document

  // Two structures of the top type, each with the place of a number.
  function TwoNumbers(): Contents {
    Contents([0, 1, 1, 1, 2], [0], [0], [0], [0], [0, 5, 3])
  }

  function ByNumber(): seq<IndexComparator.Key> {
    [IndexComparator.Key(1, IndexComparator.Long, false)]
  }

  // One index of all types, sorted by the number.
  function NumberIndex(h: IndexComparator.HeapView): IndexRepository.Setup {
    IndexRepository.Setup([0, 1], h, [IndexRepository.Definition(TypeTree.TOP, IndexComparator.Order(ByNumber(), h))])
  }

  function NoView(): IndexComparator.HeapView {
    IndexComparator.HeapView([0], [0], [0], [0], map[])
  }

  lemma NumberIndexIsOK(h: IndexComparator.HeapView)
    requires h.priority == map[]
    ensures var s := NumberIndex(h);
            && IndexRepository.SetupOK(s) && TypeTree.ParentsOK(s.parents) && TypeTree.IsType(s.parents, TypeTree.TOP)
            && IndexRepository.Covers(s, 0, TypeTree.TOP)
  {
  }

  lemma TwoAdded(r: IndexRepository.IndexRepository)
    requires r.setup == NumberIndex(ViewOver(NoView(), TwoNumbers())) && r.added == [1, 3]
    requires TypeTree.ParentsOK(r.setup.parents)
    ensures Ascending(Covered(r.setup, r.added)) == [1, 3]
  {
    var s := r.setup;
    assert IndexRepository.Covers(s, 0, TypeTree.TOP);
    assert IndexRepository.Slots(s, 0, TypeTree.TOP) == [];
    assert IndexRepository.Slots(s, 1, TypeTree.TOP) == [0];
    assert Covered(s, r.added) == {1, 3};
    AscendingIsUnique(Ascending({1, 3}), [1, 3]);
  }

  // Its list can be written, and read into a repository with the same index.
  lemma TwoCanBeSent(h: IndexComparator.HeapView)
    requires h.priority == map[]
    ensures IndexList([1, 3], []) == [0, 2, 1, 3] && ContentsOK(TwoNumbers(), [0, 2, 1, 3])
    ensures CanRebuild([0, 2, 1, 3], TwoNumbers(), [NumberIndex(h)])
  {
    assert [[1, 3]][1..] == [];
    assert Encoded([[1, 3]]) == [2, 1, 3];
    assert Complete([0, 2, 1, 3]);
  }

  // Placed as they are listed, the structures are not in the order of their numbers.
  lemma TwoOutOfOrder(r: IndexRepository.IndexRepository, c: Contents)
    requires r.added == [1, 3] && c.cells == TwoNumbers().cells && c.longs == [0, 5, 3]
    requires SettledAfter(r, NumberIndex(NoView()), [0], c)
    ensures !r.Valid()
  {
    hide *;
    TwoMisplaced(c);
    ValidMeansInOrder(r, NumberIndex(NoView()), [0], c);
  }

  lemma ValidMeansInOrder(r: IndexRepository.IndexRepository, s: IndexRepository.Setup, stale: seq<nat>, c: Contents)
    requires SettledAfter(r, s, stale, c) && TypeTree.ParentsOK(s.parents)
    ensures r.Valid() <==> AllStayInOrder(SetupOver(s, c.(longs := stale)), ViewOver(s.heap, c), r.added)
  {
    hide AllStayInOrder, ViewOver, IndexRepository.SetupOK;
    OverTwice(s, c.(longs := stale), c);
  }

  lemma TwoMisplaced(c: Contents)
    requires c.cells == TwoNumbers().cells && c.longs == [0, 5, 3]
    ensures var s := NumberIndex(NoView());
            && TypeTree.ParentsOK(s.parents)
            && !AllStayInOrder(SetupOver(s, c.(longs := [0])), ViewOver(s.heap, c), [1, 3])
  {
    var s := NumberIndex(NoView());
    var h := ViewOver(s.heap, c);
    assert h.cells == TwoNumbers().cells && h.longs == [0, 5, 3];
    NumberIndexIsOK(NoView());
    OnlyNumbers(c);
    TwoInOrder(h);
    SecondPrecedes(h);
    hide ViewOver, StaysInOrder, InOrder, AllLongs;
    hide IndexComparator.Precedes, SingleIndex.Sorted, IndexRepository.SetupOK;
    FreshTarget(s, c, [1, 3], 1, 0);
    SameCover(s, c.(longs := [0]), 0, 1);
    assert !StaysInOrder(SetupOver(s, c.(longs := [0])), h, [1, 3], 1, 0);
  }

  lemma SameCover(s: IndexRepository.Setup, c: Contents, d: nat, t: nat)
    requires TypeTree.ParentsOK(s.parents) && TypeTree.IsType(s.parents, t) && IndexRepository.Covers(s, d, t)
    ensures IndexRepository.Covers(SetupOver(s, c), d, t)
  {
  }

  lemma OnlyNumbers(c: Contents)
    requires c.cells == TwoNumbers().cells
    ensures AllLongs(ByNumber(), c, [1, 3])
  {
  }

  lemma TwoInOrder(h: IndexComparator.HeapView)
    requires h.cells == TwoNumbers().cells
    ensures InOrder(h, [1, 3], 1) == [1, 3]
  {
    assert [1, 3][..1] == [1] && [1][..0] == [];
    assert InOrder(h, [1], 1) == [1];
  }

  lemma SecondPrecedes(h: IndexComparator.HeapView)
    requires h.cells == TwoNumbers().cells && h.longs == [0, 5, 3]
    ensures !SingleIndex.Sorted(IndexComparator.Order(ByNumber(), h), [1, 3])
  {
    var o := IndexComparator.Order(ByNumber(), h);
    assert IndexComparator.ValueOf(o, ByNumber()[0], 1) == IndexComparator.Number(5);
    assert IndexComparator.ValueOf(o, ByNumber()[0], 3) == IndexComparator.Number(3);
    assert IndexComparator.DecidedAt(o, 3, 1, 0);
    assert IndexComparator.Precedes(o, [1, 3][1], [1, 3][0]);
  }

  lemma NumbersAre(h: IndexComparator.HeapView)
    requires h.cells == TwoNumbers().cells && h.priority == map[]
    ensures var s := NumberIndex(h);
            && IndexRepository.SetupOK(s) && TypeTree.ParentsOK(s.parents)
            && TypeTree.IsType(s.parents, s.heap.TypeOf(1)) && TypeTree.IsType(s.parents, s.heap.TypeOf(3))
  {
  }

  lemma TwoAreFine()
    ensures var c, h := TwoNumbers(), ViewOver(NoView(), TwoNumbers());
            && StartsWithZero(c.cells) && c.chars != [] && c.chars[0] == 0 && StartsWithZero(c.refs)
            && h.cells == c.cells && h.priority == NoView().priority == map[]
    ensures HaveCells(Contents([0], [0], [0], [0], [0], [0])) && ListsOf([]) == []
  {
  }

  lemma OnlyOne(r: IndexRepository.IndexRepository)
    requires r.Intact()
    ensures AllIntact([r]) && Setups([r]) == [r.setup]
    ensures IndexRepository.AllSingles([r]) == r.singles && IndexRepository.AllCaches([r]) == r.caches
  {
  }

  lemma OneCameBack(r: IndexRepository.IndexRepository, c: Contents, s: IndexRepository.Setup, target: Contents,
                    before: seq<seq<nat>>)
    requires HaveCells(target) && CameBack(TwoNumbers(), target, c) && ViewsCameBack([1, 3], [], before, Added([r]))
    requires AllSettled([1, 3], [], [s], [0], c, [r]) && AllIntact([r])
    ensures r.Intact()
    ensures r.added == [1, 3] && c.cells == TwoNumbers().cells && c.longs == [0, 5, 3] && SettledAfter(r, s, [0], c)
  {
    hide SettledAfter, NoLongKeys, IsPadded;
    assert GetsList([1, 3], [], 0);
    assert [r][0] == r && [s][0] == s;
  }

  // The indexes of the CAS that is written.
  method TwoIndexed() returns (base: IndexRepository.IndexRepository)
    ensures base.Valid() && TypeTree.ParentsOK(base.setup.parents)
    ensures Ascending(Covered(base.setup, base.added)) == [1, 3]
  {
    hide *;
    var view := ViewOver(NoView(), TwoNumbers());
    TwoAreFine();
    NumbersAre(view);
    base := new IndexRepository.IndexRepository(NumberIndex(view));
    IndexRepository.OwnRow(base, base.setup.heap.TypeOf(1));
    base.Add(1);
    IndexRepository.OwnRow(base, base.setup.heap.TypeOf(3));
    base.Add(3);
    TwoAdded(base);
  }

  // With a buffer of the announced size.
  method TwoAndBuffer() returns (base: IndexRepository.IndexRepository, buffer: array<byte>)
    ensures base.Valid() && TypeTree.ParentsOK(base.setup.parents)
    ensures Ascending(Covered(base.setup, base.added)) == [1, 3]
    ensures fresh(buffer) && BlobSize(TwoNumbers(), IndexList([1, 3], [])) <= buffer.Length
  {
    hide *;
    TwoAreFine();
    IndexListIs([1, 3], []);
    base := TwoIndexed();
    var serializer := new CASSerializer();
    var size := serializer.GetBlobSize(TwoNumbers(), base, []);
    buffer := new byte[size];
  }

  /**
   A CAS that indexes two structures by a 64-bit number is written and read into
   a new one. All goes well, and the index of the new CAS is out of order.
   */
  method TransferOutOfOrder() returns (ok: bool, r: IndexRepository.IndexRepository)
    ensures ok && r.added == [1, 3] && r.Intact() && !r.Valid()
  {
    hide *;
    TwoAreFine();
    NumberIndexIsOK(NoView());
    r := new IndexRepository.IndexRepository(NumberIndex(NoView()));
    IndexRepository.ValidIsIntact(r);
    var heaps := new Heaps();
    ok := TransferTwo(heaps, r);
    TwoOutOfOrder(r, heaps.Value());
  }

  method TransferTwo(heaps: Heaps, r: IndexRepository.IndexRepository) returns (ok: bool)
    requires heaps.Value() == Contents([0], [0], [0], [0], [0], [0])
    requires r.Intact() && r.setup == NumberIndex(NoView())
    modifies heaps, r`setup, r`clean, r`isUsed, r`usedIndexes, r`undefinedIndex, r`added, r.singles`structures
    ensures ok && r.Intact()
    ensures r.added == [1, 3] && heaps.Value().cells == TwoNumbers().cells && heaps.Value().longs == [0, 5, 3]
    ensures SettledAfter(r, NumberIndex(NoView()), [0], heaps.Value())
  {
    hide *;
    var c := TwoNumbers();
    ghost var target, before := heaps.Value(), Added([r]);
    TwoAreFine();
    OnlyOne(r);
    ValueIs(heaps);
    TwoCanBeSent(NoView());
    IndexListIs([1, 3], []);
    var base, buffer := TwoAndBuffer();
    var size;
    size, ok := BlobTransfer(c, base, [], buffer, heaps, [r]);
    OneCameBack(r, heaps.Value(), NumberIndex(NoView()), target, before);
  }
}
