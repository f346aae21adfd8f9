/**
 The bytes of a blob: where every number stands, lowest byte first.
 */
module BlobLayout {
  import opened Blob

  // The number stands in the bytes from the position on.
  predicate NumberAt(b: seq<byte>, at: nat, width: nat, v: nat)
    decreases width
  {
    if width == 0 then v == 0 else at < |b| && b[at] == v % 256 && NumberAt(b, at + 1, width - 1, v / 256)
  }

  // A count of four bytes, and then the cells of a heap, each of the given width.
  predicate SectionAt(b: seq<byte>, at: nat, width: nat, count: nat, cells: seq<nat>) {
    NumberAt(b, at, 4, count) && forall i :: 0 <= i < |cells| ==> NumberAt(b, at + 4 + width * i, width, cells[i])
  }

  lemma {:induction false} BytesAreNumber(b: seq<byte>, at: nat, width: nat, v: nat)
    requires at + width <= |b| && b[at..at + width] == Bytes(width, v) && v < Power(width)
    ensures NumberAt(b, at, width, v)
    decreases width
  {
    if width > 0 {
      assert b[at] == b[at..at + width][0];
      assert b[at + 1..at + width] == b[at..at + width][1..];
      BytesAreNumber(b, at + 1, width - 1, v / 256);
    }
  }

  lemma {:induction false} PackedAreNumbers(b: seq<byte>, at: nat, width: nat, cells: seq<nat>, i: nat)
    requires at + width * |cells| <= |b| && b[at..at + width * |cells|] == Pack(width, cells) && Fits(width, cells)
    requires i < |cells|
    ensures NumberAt(b, at + width * i, width, cells[i])
    decreases i
  {
    var rest := cells[1..];
    assert width * |cells| == width + width * |rest|;
    var all := b[at..at + width * |cells|];
    if i == 0 {
      assert b[at..at + width] == all[..width] == Bytes(width, cells[0]);
      BytesAreNumber(b, at, width, cells[0]);
    } else {
      assert width * i == width + width * (i - 1);
      assert b[at + width..at + width + width * |rest|] == all[width..] == Pack(width, rest);
      PackedAreNumbers(b, at + width, width, rest, i - 1);
    }
  }

  lemma SectionStands(b: seq<byte>, at: nat, s: Section)
    requires SectionOK(s) && at + SectionSize(s) <= |b| && HoldsSection(b, at, s)
    ensures SectionAt(b, at, s.width, s.count, s.cells)
  {
    CellsFit(s);
    assert Power(4) == 0x1_0000_0000 by {
      assert Power(1) == 256 && Power(2) == 0x1_0000 && Power(3) == 0x100_0000;
    }
    hide NumberAt, Pack, Bytes;
    BytesAreNumber(b, at, 4, s.count);
    forall i | 0 <= i < |s.cells| ensures NumberAt(b, at + 4 + s.width * i, s.width, s.cells[i]) {
      PackedAreNumbers(b, at + 4, s.width, s.cells, i);
    }
  }

  // The sections, each behind the words of the one before.
  predicate SectionsAt(b: seq<byte>, c: Contents, indexed: seq<nat>, p: nat, q: nat, r: nat, s: nat, t: nat, u: nat,
                       v: nat, end: nat)
  {
    && SectionAt(b, p, 4, |c.cells|, c.cells) && q == p + 4 + 4 * |c.cells|
    && SectionAt(b, q, 2, 2 * ((|c.chars| + 1) / 2), c.chars) && r == q + 4 + 4 * ((|c.chars| + 1) / 2)
    && SectionAt(b, r, 4, |c.refs|, c.refs) && s == r + 4 + 4 * |c.refs|
    && SectionAt(b, s, 4, |indexed|, indexed) && t == s + 4 + 4 * |indexed|
    && SectionAt(b, t, 1, 4 * ((|c.bytes| + 3) / 4), c.bytes) && u == t + 4 + 4 * ((|c.bytes| + 3) / 4)
    && SectionAt(b, u, 2, 2 * ((|c.shorts| + 1) / 2), c.shorts) && v == u + 4 + 4 * ((|c.shorts| + 1) / 2)
    && SectionAt(b, v, 8, |c.longs|, c.longs) && end == v + 4 + 8 * |c.longs|
  }

  lemma FirstStands(b: seq<byte>, at: nat, ss: seq<Section>)
    requires Written(b, at, ss) && ss != []
    ensures SectionAt(b, at, ss[0].width, ss[0].count, ss[0].cells)
    ensures Written(b, at + SectionSize(ss[0]), ss[1..])
  {
    hide SectionAt;
    SectionStands(b, at, ss[0]);
  }

  lemma SevenStand(b: seq<byte>, at: nat, ss: seq<Section>, k: nat, n: nat)
    requires k < |ss| == 7 && Written(b, at, ss[k..]) && n == at + SectionSize(ss[k])
    ensures SectionAt(b, at, ss[k].width, ss[k].count, ss[k].cells) && Written(b, n, ss[k + 1..])
  {
    hide Written, SectionAt, SectionSize;
    FirstStands(b, at, ss[k..]);
    assert ss[k..][1..] == ss[k + 1..] && ss[k..][0] == ss[k];
  }

  lemma HeaderIs(b: seq<byte>)
    requires |b| >= 8 && HeaderOK(b)
    ensures b[..8] == [0x41, 0x4D, 0x49, 0x55, 1, 0, 0, 0]
  {
    FourBytes(b[0..4]);
    FourBytes(b[4..8]);
    assert b[0..4][0] == b[0] && b[0..4][1] == b[1] && b[0..4][2] == b[2] && b[0..4][3] == b[3];
    assert b[4..8][0] == b[4] && b[4..8][1] == b[5] && b[4..8][2] == b[6] && b[4..8][3] == b[7];
  }

  lemma FourBytes(w: seq<byte>)
    requires |w| == 4
    ensures Word(w) == w[0] as nat + 0x100 * w[1] as nat + 0x1_0000 * w[2] as nat + 0x100_0000 * w[3] as nat
  {
    assert w[1..][1..] == w[2..] && w[2..][1..] == w[3..] && w[3..][1..] == [];
    assert Word(w[3..]) == w[3] + 256 * Word([]) && Word([]) == 0;
    assert Word(w[2..]) == w[2] + 256 * Word(w[3..]);
    assert Word(w[1..]) == w[1] + 256 * Word(w[2..]);
  }

  lemma SectionsAre(c: Contents, indexed: seq<nat>)
    ensures var ss := Sections(c, indexed);
            && |ss| == 7
            && ss[0] == Section(4, |c.cells|, c.cells) && ss[1] == Section(2, 2 * ((|c.chars| + 1) / 2), c.chars)
            && ss[2] == Section(4, |c.refs|, c.refs) && ss[3] == Section(4, |indexed|, indexed)
            && ss[4] == Section(1, 4 * ((|c.bytes| + 3) / 4), c.bytes)
            && ss[5] == Section(2, 2 * ((|c.shorts| + 1) / 2), c.shorts)
            && ss[6] == Section(8, |c.longs|, c.longs)
    ensures Aligned(|c.chars|, 2) == 2 * ((|c.chars| + 1) / 2) && Aligned(|c.bytes|, 4) == 4 * ((|c.bytes| + 3) / 4)
    ensures Aligned(|c.shorts|, 2) == 2 * ((|c.shorts| + 1) / 2)
    ensures BlobSize(c, indexed) == 8 + Size(Sections(c, indexed))
  {
    hide Size;
  }

  lemma Together(b: seq<byte>, c: Contents, indexed: seq<nat>, q: nat, r: nat, s: nat, t: nat, u: nat, v: nat,
                 end: nat)
    requires SectionsAt(b, c, indexed, 8, q, r, s, t, u, v, end)
    ensures exists q, r, s, t, u, v :: SectionsAt(b, c, indexed, 8, q, r, s, t, u, v, end)
  {
    hide SectionsAt;
  }

  // The places of the sections, each behind the last.
  lemma Places(b: seq<byte>, c: Contents, indexed: seq<nat>, q: nat, r: nat, s: nat, t: nat, u: nat, v: nat)
    requires var ss := Sections(c, indexed);
             && q == 8 + SectionSize(ss[0]) && r == q + SectionSize(ss[1]) && s == r + SectionSize(ss[2])
             && t == s + SectionSize(ss[3]) && u == t + SectionSize(ss[4]) && v == u + SectionSize(ss[5])
             && SectionAt(b, 8, ss[0].width, ss[0].count, ss[0].cells)
             && SectionAt(b, q, ss[1].width, ss[1].count, ss[1].cells)
             && SectionAt(b, r, ss[2].width, ss[2].count, ss[2].cells)
             && SectionAt(b, s, ss[3].width, ss[3].count, ss[3].cells)
             && SectionAt(b, t, ss[4].width, ss[4].count, ss[4].cells)
             && SectionAt(b, u, ss[5].width, ss[5].count, ss[5].cells)
             && SectionAt(b, v, ss[6].width, ss[6].count, ss[6].cells)
    ensures SectionsAt(b, c, indexed, 8, q, r, s, t, u, v, BlobSize(c, indexed))
  {
    hide SectionAt, SectionSize, Sections, Aligned, BlobSize, Size;
    SectionsAre(c, indexed);
    Advances(c, indexed);
    SizeOfSeven(Sections(c, indexed));
  }

  /**
   The image of a blob: the letters AMIU of the key, the version, and the cells of
   the seven sections at their places, up to the announced size.
   */
  lemma ImageLayout(b0: seq<byte>, c: Contents, indexed: seq<nat>)
    requires ContentsOK(c, indexed) && BlobSize(c, indexed) <= |b0|
    ensures var b := Image(b0, c, indexed);
            && |b| >= 8 && b[..8] == [0x41, 0x4D, 0x49, 0x55, 1, 0, 0, 0]
            && exists q, r, s, t, u, v :: SectionsAt(b, c, indexed, 8, q, r, s, t, u, v, BlobSize(c, indexed))
  {
    hide *;
    var b, ss := Image(b0, c, indexed), Sections(c, indexed);
    ImageIsWritten(b0, c, indexed);
    HeaderIs(b);
    SectionsAre(c, indexed);
    assert ss[0..] == ss;
    var q := 8 + SectionSize(ss[0]);
    var r := q + SectionSize(ss[1]);
    var s := r + SectionSize(ss[2]);
    var t := s + SectionSize(ss[3]);
    var u := t + SectionSize(ss[4]);
    var v := u + SectionSize(ss[5]);
    SevenStand(b, 8, ss, 0, q);
    SevenStand(b, q, ss, 1, r);
    SevenStand(b, r, ss, 2, s);
    SevenStand(b, s, ss, 3, t);
    SevenStand(b, t, ss, 4, u);
    SevenStand(b, u, ss, 5, v);
    SevenStand(b, v, ss, 6, v + SectionSize(ss[6]));
    Places(b, c, indexed, q, r, s, t, u, v);
    Together(b, c, indexed, q, r, s, t, u, v, BlobSize(c, indexed));
  }
}
