/**
 What the text of an XCAS document tells, said of the cells and heaps of the
 structures that were written.
 */
module XcasValues {
  import opened Xcas
  import opened XcasText
  import opened XcasWriter
  import XcasReader
  import IndexComparator
  import IndexedFSs

  // The value of a feature or element that has a cell of its own.
  predicate ValueIs(h: Heap, kind: Kind, c: nat, v: seq<nat>) {
    match kind
    case Number => IndexComparator.Means(c, 0x1_0000_0000, Parsed(v))
    case Boolean => Parsed(v) == if c == 1 then 1 else 0
    case Byte => IndexComparator.Means(c, 0x100, Parsed(v))
    case Short => IndexComparator.Means(c, 0x1_0000, Parsed(v))
    case Long =>
      if c == 0 then Parsed(v) == 10
      else c < |h.longs| && IndexComparator.Means(h.longs[c], BITS64, Parsed(v))
    case Text =>
      if c == 0 then v == []
      else
        && 2 * c < |h.refs| && h.refs[2 * c - 1] + h.refs[2 * c] <= |h.chars|
        && v == h.chars[h.refs[2 * c - 1]..h.refs[2 * c - 1] + h.refs[2 * c]]
    case Reference => Parsed(v) == c
  }

  // The value of an element of the heap of 8, 16 or 64 bits.
  predicate SideValueIs(kind: Kind, x: nat, v: seq<nat>) {
    match kind
    case Boolean => Parsed(v) == if x == 1 then 1 else 0
    case Byte => IndexComparator.Means(x, 0x100, Parsed(v))
    case Short => IndexComparator.Means(x, 0x1_0000, Parsed(v))
    case _ => IndexComparator.Means(x, BITS64, Parsed(v))
  }

  /** The text of a cell is its value. */
  lemma CellTextIs(h: Heap, kind: Kind, c: nat)
    requires CellReadable(h, kind, c)
    ensures ValueIs(h, kind, c, CellText(h, kind, c))
  {
    if kind != Text {
      ParsedOfPrinted(CellNumber(h, kind, c));
      hide Parsed, Printed, IndexComparator.Means;
      IndexComparator.SignedIsMeant(c, 0x1_0000_0000);
      IndexComparator.SignedIsMeant(c, 0x100);
      IndexComparator.SignedIsMeant(c, 0x1_0000);
      IntIsSigned(c);
      if kind == Long && c != 0 {
        IndexComparator.SignedIsMeant(h.longs[c], BITS64);
      }
    }
  }

  lemma IntIsSigned(c: nat)
    ensures IndexComparator.Means(c, 0x1_0000_0000, XmiLists.IntOf(c))
  {
    IndexComparator.SignedIsMeant(c, 0x1_0000_0000);
  }

  lemma SideTextIs(kind: Kind, x: nat)
    requires !OwnCells(kind)
    ensures SideValueIs(kind, x, Printed(SideNumber(kind, x)))
  {
    ParsedOfPrinted(SideNumber(kind, x));
    hide Parsed, Printed, IndexComparator.Means;
    IndexComparator.SignedIsMeant(x, 0x100);
    IndexComparator.SignedIsMeant(x, 0x1_0000);
    IndexComparator.SignedIsMeant(x, BITS64);
  }

  lemma ElementTextIs(types: Types, h: Heap, a: nat, i: nat)
    requires Readable(types, h, a) && ShapeAt(types, h.cells, a).ArrayOf? && i < ElementCount(types, h.cells, a)
    ensures ElementReadable(types, h, a, i) && ElementIs(types, h, a, i, ElementText(types, h, a, i))
  {
    ElementsAreReadable(types, h, a, i);
    hide Readable, CellText, Printed, SideNumber, ValueIs, SideValueIs;
    var kind := ShapeAt(types, h.cells, a).kind;
    if OwnCells(kind) {
      CellTextIs(h, kind, h.cells[a + 2 + i]);
    } else {
      SideTextIs(kind, Side(h, kind)[h.cells[a + 2] + i]);
    }
  }

  // An element of an array is behind its size, or in the heap of 8, 16 or 64 bits that its third cell leads into.
  predicate ElementIs(types: Types, h: Heap, a: nat, i: nat, v: seq<nat>)
    requires IsStructure(types, h.cells, a) && ShapeAt(types, h.cells, a).ArrayOf?
    requires i < ElementCount(types, h.cells, a)
  {
    match ShapeAt(types, h.cells, a).kind
    case Number => ValueIs(h, Number, h.cells[a + 2 + i], v)
    case Text => ValueIs(h, Text, h.cells[a + 2 + i], v)
    case Reference => ValueIs(h, Reference, h.cells[a + 2 + i], v)
    case Boolean => h.cells[a + 2] + i < |h.bytes| && SideValueIs(Boolean, h.bytes[h.cells[a + 2] + i], v)
    case Byte => h.cells[a + 2] + i < |h.bytes| && SideValueIs(Byte, h.bytes[h.cells[a + 2] + i], v)
    case Short => h.cells[a + 2] + i < |h.shorts| && SideValueIs(Short, h.shorts[h.cells[a + 2] + i], v)
    case Long => h.cells[a + 2] + i < |h.longs| && SideValueIs(Long, h.longs[h.cells[a + 2] + i], v)
  }

  // ----------------------------------------------------------- structures

  // The attributes tell the feature: its value if it is set, and nothing if it is a null string or reference.
  ghost predicate FeatureTold(attributes: seq<Attribute>, h: Heap, f: Field, c: nat) {
    if (f.kind == Text || f.kind == Reference) && c == 0
    then forall x :: x in attributes ==> x.name != FeatureName(f.name, f.kind == Reference)
    else exists v :: Attribute(FeatureName(f.name, f.kind == Reference), v) in attributes && ValueIs(h, f.kind, c, v)
  }

  ghost predicate LeadingTold(attributes: seq<Attribute>, a: nat, views: seq<nat>) {
    && (exists v :: Attribute(IdName, v) in attributes && Parsed(v) == a)
    && if views == [] then forall x :: x in attributes ==> x.name != IndexedName
       else exists v :: Attribute(IndexedName, v) in attributes && ParsedViews(v) == views
  }

  // A string or reference that is null.
  predicate IsUnset(f: Field, c: nat) {
    (f.kind == Text || f.kind == Reference) && c == 0
  }

  // The attribute is that of feature j, which is set.
  predicate IsFor(x: Attribute, types: Types, h: Heap, a: nat, j: int)
    requires IsStructure(types, h.cells, a) && ShapeAt(types, h.cells, a).Record?
  {
    && 0 <= j < SlotCount(types, h.cells, a)
    && var f := ShapeAt(types, h.cells, a).fields[j];
       x.name == FeatureName(f.name, f.kind == Reference) && !IsUnset(f, h.cells[SlotAt(types, h.cells, a, j)])
  }

  lemma {:induction false} AllAreFor(types: Types, h: Heap, a: nat, i: nat, x: Attribute)
    requires Readable(types, h, a) && ShapeAt(types, h.cells, a).Record? && i <= SlotCount(types, h.cells, a)
    requires x in FeatureAttributes(types, h, a, i)
    ensures exists j :: IsFor(x, types, h, a, j)
    decreases SlotCount(types, h.cells, a) - i
  {
    if i < SlotCount(types, h.cells, a) {
      assert SlotReadable(types, h, a, i);
      var f, c := ShapeAt(types, h.cells, a).fields[i], h.cells[SlotAt(types, h.cells, a, i)];
      if x in FeatureAttribute(h, f, c) {
        hide CellText;
        assert IsFor(x, types, h, a, i);
      } else {
        AllAreFor(types, h, a, i + 1, x);
      }
    }
  }

  lemma {:induction false} EachIsThere(types: Types, h: Heap, a: nat, i: nat, k: nat)
    requires Readable(types, h, a) && ShapeAt(types, h.cells, a).Record?
    requires i <= k < SlotCount(types, h.cells, a)
    ensures var f, c := ShapeAt(types, h.cells, a).fields[k], h.cells[SlotAt(types, h.cells, a, k)];
            && CellReadable(h, f.kind, c)
            && (!IsUnset(f, c) ==>
                  Attribute(FeatureName(f.name, f.kind == Reference), CellText(h, f.kind, c))
                  in FeatureAttributes(types, h, a, i))
    decreases k - i
  {
    assert SlotReadable(types, h, a, i);
    if i < k {
      EachIsThere(types, h, a, i + 1, k);
    }
    hide CellText;
  }

  lemma FeatureIsTold(types: Types, h: Heap, a: nat, k: nat, leading: seq<Attribute>)
    requires TypesOK(types) && Readable(types, h, a) && ShapeAt(types, h.cells, a).Record?
    requires k < SlotCount(types, h.cells, a) && forall x :: x in leading ==> !x.name.FeatureName?
    ensures FeatureTold(leading + FeatureAttributes(types, h, a, 0), h, ShapeAt(types, h.cells, a).fields[k],
                        h.cells[SlotAt(types, h.cells, a, k)])
  {
    var f, c := ShapeAt(types, h.cells, a).fields[k], h.cells[SlotAt(types, h.cells, a, k)];
    EachIsThere(types, h, a, 0, k);
    CellTextIs(h, f.kind, c);
    if IsUnset(f, c) {
      forall x | x in FeatureAttributes(types, h, a, 0) ensures x.name != FeatureName(f.name, f.kind == Reference) {
        AllAreFor(types, h, a, 0, x);
      }
    }
    hide CellText, ValueIs;
  }

  lemma LeadingIsTold(a: nat, views: seq<nat>, rest: seq<Attribute>)
    requires forall x :: x in rest ==> x.name.FeatureName?
    ensures LeadingTold(LeadingAttributes(a, views) + rest, a, views)
    ensures forall x :: x in LeadingAttributes(a, views) ==> !x.name.FeatureName?
  {
    ParsedOfPrinted(a);
    ParsedOfPrintedViews(views);
    hide Parsed, Printed, ParsedViews, PrintedViews;
    var all := LeadingAttributes(a, views) + rest;
    assert Attribute(IdName, Printed(a)) in all;
    assert views != [] ==> Attribute(IndexedName, PrintedViews(views)) in all;
  }

  // ------------------------------------------------------------ documents

  // The element of a structure starts with piece k.
  ghost predicate ToldAt(pieces: seq<Piece>, types: Types, h: Heap, a: nat, views: seq<nat>, k: int)
    requires IsStructure(types, h.cells, a)
  {
    && 0 <= k < |pieces| && pieces[k].OpenTag? && pieces[k].tag == TypeTag(h.cells[a])
    && LeadingTold(pieces[k].attributes, a, views)
    && if ShapeAt(types, h.cells, a).Record?
       then forall i :: 0 <= i < SlotCount(types, h.cells, a) ==>
              FeatureTold(pieces[k].attributes, h, ShapeAt(types, h.cells, a).fields[i],
                          h.cells[SlotAt(types, h.cells, a, i)])
       else
         && (!IsUnclosed(types, h, a) ==> exists v ::
               Attribute(FeatureName(SIZE, false), v) in pieces[k].attributes && Parsed(v) == h.cells[a + 1])
         && forall i :: 0 <= i < ElementCount(types, h.cells, a) ==>
              ElementToldAt(pieces, types, h, a, i, k + 2 + 4 * i)
  }

  ghost predicate Told(pieces: seq<Piece>, types: Types, h: Heap, a: nat, views: seq<nat>)
    requires IsStructure(types, h.cells, a)
  {
    exists k: nat :: ToldAt(pieces, types, h, a, views, k)
  }

  // The item of an element starts with piece k.
  predicate ElementToldAt(pieces: seq<Piece>, types: Types, h: Heap, a: nat, i: nat, k: int)
    requires IsStructure(types, h.cells, a) && ShapeAt(types, h.cells, a).ArrayOf?
    requires i < ElementCount(types, h.cells, a)
  {
    && 0 <= k && k + 3 < |pieces| && pieces[k] == OpenTag(ItemTag, []) && pieces[k + 3] == CloseTag(ItemTag)
    && pieces[k + 2].CharData? && ElementIs(types, h, a, i, pieces[k + 2].text)
  }

  // The items of an array, one behind the other.
  lemma {:induction false} ItemsAreTold(types: Types, h: Heap, a: nat, i: nat, n: nat)
    requires Readable(types, h, a) && ShapeAt(types, h.cells, a).ArrayOf?
    requires i <= n < ElementCount(types, h.cells, a)
    ensures ElementToldAt(ItemPiecesFrom(types, h, a, i), types, h, a, n, 4 * (n - i))
    decreases n - i
  {
    hide *;
    IsThere(types, h, a);
    FirstItem(types, h, a, i);
    ElementTextIs(types, h, a, i);
    var text, more := ElementText(types, h, a, i), ItemPiecesFrom(types, h, a, i + 1);
    if i == n {
      FirstIsTold(types, h, a, n, text, more);
    } else {
      ItemsAreTold(types, h, a, i + 1, n);
      LaterIsTold(types, h, a, n, text, more, 4 * (n - (i + 1)));
    }
  }

  lemma IsThere(types: Types, h: Heap, a: nat)
    requires Readable(types, h, a)
    ensures IsStructure(types, h.cells, a)
  {
  }

  lemma FirstIsTold(types: Types, h: Heap, a: nat, n: nat, text: seq<nat>, more: seq<Piece>)
    requires IsStructure(types, h.cells, a) && ShapeAt(types, h.cells, a).ArrayOf?
    requires n < ElementCount(types, h.cells, a) && ElementIs(types, h, a, n, text)
    ensures ElementToldAt(ItemPieces(text) + more, types, h, a, n, 0)
  {
    hide ElementIs;
  }

  lemma LaterIsTold(types: Types, h: Heap, a: nat, n: nat, text: seq<nat>, more: seq<Piece>, k: nat)
    requires IsStructure(types, h.cells, a) && ShapeAt(types, h.cells, a).ArrayOf?
    requires n < ElementCount(types, h.cells, a) && ElementToldAt(more, types, h, a, n, k)
    ensures ElementToldAt(ItemPieces(text) + more, types, h, a, n, 4 + k)
  {
    hide ElementIs;
    assert |ItemPieces(text)| == 4;
  }

  lemma StructureIsTold(types: Types, h: Heap, a: nat, views: seq<nat>)
    requires TypesOK(types) && Readable(types, h, a)
    ensures ToldAt(StructurePieces(types, h, a, views), types, h, a, views, 0)
  {
    var leading, shape := LeadingAttributes(a, views), ShapeAt(types, h.cells, a);
    if shape.Record? {
      forall x | x in FeatureAttributes(types, h, a, 0) ensures x.name.FeatureName? {
        AllAreFor(types, h, a, 0, x);
      }
      LeadingIsTold(a, views, FeatureAttributes(types, h, a, 0));
      forall i | 0 <= i < SlotCount(types, h.cells, a)
        ensures FeatureTold(leading + FeatureAttributes(types, h, a, 0), h, shape.fields[i],
                            h.cells[SlotAt(types, h.cells, a, i)])
      {
        FeatureIsTold(types, h, a, i, leading);
      }
      hide FeatureTold, LeadingTold, FeatureAttributes, LeadingAttributes;
    } else {
      ArrayIsTold(types, h, a, views);
    }
  }

  lemma ArrayIsTold(types: Types, h: Heap, a: nat, views: seq<nat>)
    requires Readable(types, h, a) && ShapeAt(types, h.cells, a).ArrayOf?
    ensures ToldAt(StructurePieces(types, h, a, views), types, h, a, views, 0)
  {
    hide LeadingTold, LeadingAttributes, ItemPiecesFrom, ElementIs, Parsed, Printed;
    var size := SizeAttribute(h.cells[a + 1]);
    LeadingIsTold(a, views, []);
    LeadingIsTold(a, views, [size]);
    assert LeadingAttributes(a, views) + [] == LeadingAttributes(a, views);
    ParsedOfPrinted(h.cells[a + 1]);
    var pieces := StructurePieces(types, h, a, views);
    forall i | 0 <= i < ElementCount(types, h.cells, a) ensures ElementToldAt(pieces, types, h, a, i, 2 + 4 * i) {
      ItemsAreTold(types, h, a, 0, i);
      ItemsAmong(types, h, a, i, pieces[0], ItemPiecesFrom(types, h, a, 0), 4 * i, h.cells[a]);
    }
    hide ElementToldAt;
  }

  lemma ItemsAmong(types: Types, h: Heap, a: nat, n: nat, first: Piece, items: seq<Piece>, k: nat, t: nat)
    requires IsStructure(types, h.cells, a) && ShapeAt(types, h.cells, a).ArrayOf?
    requires n < ElementCount(types, h.cells, a) && ElementToldAt(items, types, h, a, n, k)
    ensures ElementToldAt([first, TagEnd] + items + [CloseTag(TypeTag(t))], types, h, a, n, 2 + k)
  {
    hide ElementIs;
  }

  // The element of a structure somewhere among other pieces.
  lemma ToldAmong(before: seq<Piece>, pieces: seq<Piece>, after: seq<Piece>, types: Types, h: Heap, a: nat,
                  views: seq<nat>, k: nat)
    requires IsStructure(types, h.cells, a) && ToldAt(pieces, types, h, a, views, k)
    ensures ToldAt(before + pieces + after, types, h, a, views, |before| + k)
  {
    hide FeatureTold, LeadingTold, ElementIs, Parsed;
    var all := before + pieces + after;
    assert all[|before| + k] == pieces[k];
    if ShapeAt(types, h.cells, a).ArrayOf? {
      forall i | 0 <= i < ElementCount(types, h.cells, a)
        ensures ElementToldAt(all, types, h, a, i, |before| + k + 2 + 4 * i)
      {
        assert ElementToldAt(pieces, types, h, a, i, k + 2 + 4 * i);
      }
    }
  }

  lemma {:induction false} BodyTells(types: Types, h: Heap, ids: seq<nat>, queue: map<nat, seq<nat>>, a: nat)
    requires TypesOK(types) && (forall b :: b in ids ==> b in queue && Readable(types, h, b)) && a in ids
    ensures IsStructure(types, h.cells, a)
    ensures Told(BodyPieces(types, h, ids, queue), types, h, a, queue[a])
  {
    hide ToldAt, StructurePieces;
    var first, rest := StructurePieces(types, h, ids[0], queue[ids[0]]), BodyPieces(types, h, ids[1..], queue);
    if a == ids[0] {
      StructureIsTold(types, h, a, queue[a]);
      ToldAmong([], first, rest, types, h, a, queue[a], 0);
      assert [] + first + rest == BodyPieces(types, h, ids, queue);
    } else {
      BodyTells(types, h, ids[1..], queue, a);
      var k: nat :| ToldAt(rest, types, h, a, queue[a], k);
      ToldAmong(first, rest, [], types, h, a, queue[a], k);
      assert first + rest + [] == BodyPieces(types, h, ids, queue);
    }
  }

  /**
   A written document tells every structure: its number, its views, all its
   features that are set, and no others, or all its elements in order.
   */
  lemma DocumentTells(types: Types, h: Heap, queue: Queue, a: nat)
    requires TypesOK(types) && (forall b :: b in queue ==> Readable(types, h, b)) && a in queue
    ensures IsStructure(types, h.cells, a)
    ensures Told(DocumentPieces(types, h, queue), types, h, a, queue[a])
  {
    hide ToldAt, BodyPieces, Readable;
    var ids := IndexedFSs.Ascending(queue.Keys);
    BodyTells(types, h, ids, queue, a);
    var body := BodyPieces(types, h, ids, queue);
    var k: nat :| ToldAt(body, types, h, a, queue[a], k);
    ToldAmong([OpenTag(CasTag, []), TagEnd], body, [CloseTag(CasTag)], types, h, a, queue[a], k);
  }

  // --------------------------------------------------------------- reading

  // n lies in the range, and is the value or the end of the range nearest to it.
  predicate IsNearest(value: int, least: int, greatest: int, n: int) {
    least <= n <= greatest && (least <= value <= greatest ==> n == value)
    && (value < least ==> n == least) && (value > greatest ==> n == greatest)
  }

  /**
   What any text stores in the cell of a feature: integers keep their low 32
   bits, bytes their low 8 with a sign, shorts are cut off at the ends of their
   range, and only the text 1 is true.
   */
  lemma TextIsStored(text: seq<nat>, kind: Kind)
    requires kind == Number || kind == Boolean || kind == Byte || kind == Short
    ensures var n, cell := Parsed(text), XcasReader.NumberCell(kind, text);
            && cell < 0x1_0000_0000
            && (kind == Number ==> (cell - n) % 0x1_0000_0000 == 0)
            && (kind == Boolean ==> (cell == 1 <==> text == ['1' as nat]))
            && (kind == Byte ==> exists m ::
                  StoredAs(cell, m) && -0x80 <= m < 0x80 && (m - n) % 0x100 == 0)
            && (kind == Short ==> exists m ::
                  StoredAs(cell, m) && IsNearest(n, -0x8000, 0x7FFF, m))
  {
    hide *;
    IsDecimalOne(kind, text);
    var n := Parsed(text);
    IntIsStored(n);
    if kind == Byte {
      ByteIsStored(n);
    } else if kind == Short {
      ShortIsStored(n);
    }
  }

  lemma IsDecimalOne(kind: Kind, text: seq<nat>)
    requires kind == Number || kind == Boolean || kind == Byte || kind == Short
    ensures var n, cell := Parsed(text), XcasReader.NumberCell(kind, text);
            && (kind == Number ==> cell == XmiLists.IntCell(n))
            && (kind == Boolean ==> cell == if text == ['1' as nat] then 1 else 2)
            && (kind == Byte ==> cell == XmiLists.IntCell(IndexComparator.Signed(n % 0x100, 0x100)))
            && (kind == Short ==> cell == XmiLists.IntCell(XcasReader.Clamped(n, -0x8000, 0x7FFF)))
  {
    assert Printed(1) == ['1' as nat];
    hide Parsed, Printed;
  }

  lemma ByteIsStored(n: int)
    ensures var cell := XmiLists.IntCell(IndexComparator.Signed(n % 0x100, 0x100));
            cell < 0x1_0000_0000 && exists m :: StoredAs(cell, m) && -0x80 <= m < 0x80 && (m - n) % 0x100 == 0
  {
    var m := IndexComparator.Signed(n % 0x100, 0x100);
    SignedIsCongruent(n, 0x100);
    hide IndexComparator.Signed, StoredAs, XmiLists.IntCell;
    IntIsStored(m);
  }

  lemma ShortIsStored(n: int)
    ensures var cell := XmiLists.IntCell(XcasReader.Clamped(n, -0x8000, 0x7FFF));
            cell < 0x1_0000_0000 && exists m :: StoredAs(cell, m) && IsNearest(n, -0x8000, 0x7FFF, m)
  {
    hide StoredAs, XmiLists.IntCell;
    IntIsStored(XcasReader.Clamped(n, -0x8000, 0x7FFF));
  }

  lemma IntIsStored(m: int)
    ensures XmiLists.IntCell(m) < 0x1_0000_0000 && (XmiLists.IntCell(m) - m) % 0x1_0000_0000 == 0
    ensures -0x8000_0000 <= m < 0x8000_0000 ==> StoredAs(XmiLists.IntCell(m), m)
  {
    IndexComparator.RemainderIsCongruent(m, 0x1_0000_0000);
  }

  lemma SignedIsCongruent(n: int, modulus: nat)
    requires modulus > 0
    ensures var m := IndexComparator.Signed(n % modulus, modulus);
            (m - n) % modulus == 0 && -(modulus as int) <= 2 * m < modulus
  {
    IndexComparator.RemainderIsCongruent(n, modulus);
    IndexComparator.LowBits(modulus, 0, n % modulus);
  }

  // The cell holds the number in two's complement.
  predicate StoredAs(cell: nat, m: int) {
    IndexComparator.Means(cell, 0x1_0000_0000, m)
  }

  /** The same for elements of 8, 16 and 64 bits. */
  lemma TextIsStoredAside(text: seq<nat>, kind: Kind)
    requires !OwnCells(kind)
    ensures var n, x := Parsed(text), XcasReader.SideCell(kind, text);
            && (kind == Boolean ==> (x == 1 <==> text == ['1' as nat]))
            && (kind == Byte ==> x < 0x100 && (x - n) % 0x100 == 0)
            && (kind == Short ==> x < 0x1_0000 && exists m ::
                  IsNearest(n, -0x8000, 0x7FFF, m) && (x - m) % 0x1_0000 == 0)
            && (kind == Long ==> x < BITS64 && exists m ::
                  IsNearest(n, -0x8000_0000_0000_0000, 0x7FFF_FFFF_FFFF_FFFF, m) && (x - m) % BITS64 == 0)
  {
    var n, x := Parsed(text), XcasReader.SideCell(kind, text);
    assert Printed(1) == ['1' as nat];
    hide Parsed, Printed;
    if kind == Byte {
      IndexComparator.RemainderIsCongruent(n, 0x100);
    } else if kind == Short {
      var m := XcasReader.Clamped(n, -0x8000, 0x7FFF);
      IndexComparator.RemainderIsCongruent(m, 0x1_0000);
      assert IsNearest(n, -0x8000, 0x7FFF, m);
    } else if kind == Long {
      var m := XcasReader.Clamped(n, -0x8000_0000_0000_0000, 0x7FFF_FFFF_FFFF_FFFF);
      IndexComparator.RemainderIsCongruent(m, BITS64);
      assert IsNearest(n, -0x8000_0000_0000_0000, 0x7FFF_FFFF_FFFF_FFFF, m);
    }
  }
}
