/**
 The first phase of reading what was written: every structure gets a copy of the
 same type with the same values and texts, in which references still are the
 addresses that were written, and is noted with its number and its views.
 */
module XcasRoundTrip {
  import opened Xcas
  import opened XcasReader
  import opened XmiLists
  import opened IndexedFSs
  import FSHeap
  import IndexComparator

  // ------------------------------------------------------ copies of cells

  // In all heaps but that of structures, cells are only added.
  ghost predicate Grows(h: Heap, h': Heap) {
    h.refs <= h'.refs && h.chars <= h'.chars && h.bytes <= h'.bytes && h.shorts <= h'.shorts && h.longs <= h'.longs
  }

  lemma TextStays(h: Heap, h': Heap, c: nat)
    requires Grows(h, h') && FSHeap.RefOK(h.refs, h.chars, c)
    ensures FSHeap.RefOK(h'.refs, h'.chars, c)
    ensures FSHeap.TextOf(h'.refs, h'.chars, c) == FSHeap.TextOf(h.refs, h.chars, c)
  {
    if c != 0 {
      assert h'.refs[2 * c - 1] == h.refs[2 * c - 1] && h'.refs[2 * c] == h.refs[2 * c];
    }
  }

  // A number fits its cell, and a text has no unit that XML cannot hold.
  predicate CellWritable(h: Heap, kind: Kind, c: nat) {
    CellReadable(h, kind, c) &&
    match kind
    case Text => 0 !in FSHeap.TextOf(h.refs, h.chars, c)
    case Long => c != 0 ==> h.longs[c] < BITS64
    case Number => c < 0x1_0000_0000
    case Reference => c < 0x1_0000_0000
    case _ => true
  }

  // The copy of a cell: the same bits, or a reference to the same text or long. Of
  // features only texts that are not empty are set, of elements all are. A long
  // that was never set is written, and read, as 10.
  predicate CellCopied(h: Heap, kind: Kind, c: nat, h': Heap, c': nat, isElement: bool) {
    CellReadable(h, kind, c) && CellReadable(h', kind, c') &&
    match kind
    case Text =>
      && FSHeap.TextOf(h'.refs, h'.chars, c') == FSHeap.TextOf(h.refs, h.chars, c)
      && (c' != 0 <==> isElement || FSHeap.TextOf(h.refs, h.chars, c) != [])
    case Number => c' == c
    case Reference => c' == c
    case Boolean => (c' == 1) == (c == 1)
    case Byte => c' % 0x100 == c % 0x100
    case Short => c' % 0x1_0000 == c % 0x1_0000
    case Long => c' != 0 && h'.longs[c'] == if c == 0 then 10 else h.longs[c]
  }

  lemma CellStaysCopied(h: Heap, kind: Kind, c: nat, h1: Heap, h2: Heap, c': nat, isElement: bool)
    requires CellCopied(h, kind, c, h1, c', isElement) && Grows(h1, h2)
    ensures CellCopied(h, kind, c, h2, c', isElement)
  {
    if kind == Text {
      TextStays(h1, h2, c');
    }
  }

  // A new string reference stands for the text that was added.
  lemma NewText(h: Heap, text: seq<nat>)
    requires HeapOK(h) && 0 !in text
    ensures var more, ref := WithText(h, text), NextRef(h);
            && HeapOK(more) && Grows(h, more) && ref != 0 && FSHeap.RefOK(more.refs, more.chars, ref)
            && FSHeap.TextOf(more.refs, more.chars, ref) == text
  {
    var more, ref, pos := WithText(h, text), NextRef(h), |h.chars|;
    TextLength(h.chars, text);
    hide FSHeap.StrLen;
    assert more.refs[2 * ref - 1] == pos && more.refs[2 * ref] == |text|;
  }

  lemma TextLength(before: seq<nat>, text: seq<nat>)
    requires 0 !in text
    ensures var chars := before + text + [0];
            chars[|before|..|before| + |text|] == text && FSHeap.StrLen(chars, |before|) == |text|
  {
    var chars := before + text + [0];
    assert chars[|before|..|before| + |text|] == text;
    FSHeap.StrLenOfText(chars, |before|, |text|);
    assert chars[|before| + |text|] == 0;
  }

  // The range of the numbers of a kind.
  predicate InRange(kind: Kind, n: int) {
    match kind
    case Boolean => n == 0 || n == 1
    case Byte => -0x80 <= n < 0x80
    case Short => -0x8000 <= n < 0x8000
    case Long => -0x8000_0000_0000_0000 <= n < 0x8000_0000_0000_0000
    case _ => true
  }

  lemma CellNumberInRange(h: Heap, kind: Kind, c: nat)
    requires CellWritable(h, kind, c)
    ensures InRange(kind, CellNumber(h, kind, c))
  {
  }

  // Storing a number in a cell and reading it gives the number.
  lemma ByteReturns(n: int)
    requires InRange(Byte, n)
    ensures IndexComparator.Signed(IntCell(IndexComparator.Signed(n % 0x100, 0x100)) % 0x100, 0x100) == n
  {
    if n < 0 {
      assert n % 0x100 == n + 0x100;
      assert IntCell(n) == n + 0x1_0000_0000 == 0x100 * 0xFF_FFFF + (n + 0x100);
      assert IntCell(n) % 0x100 == n + 0x100;
    }
  }

  lemma ShortReturns(n: int)
    requires InRange(Short, n)
    ensures IndexComparator.Signed(IntCell(Clamped(n, -0x8000, 0x7FFF)) % 0x1_0000, 0x1_0000) == n
  {
    if n < 0 {
      assert IntCell(n) == n + 0x1_0000_0000 == 0x1_0000 * 0xFFFF + (n + 0x1_0000);
      assert IntCell(n) % 0x1_0000 == n + 0x1_0000;
    }
  }

  lemma OneOrZero(n: int)
    ensures Printed(n) == Printed(1) ==> n == 1
    ensures Parsed(Printed(n)) == n && Printed(n) != []
  {
    ParsedOfPrinted(n);
    ParsedOfPrinted(1);
  }

  // Reading the text of a number stores it as it was.
  lemma NumberReturns(h: Heap, kind: Kind, c: nat)
    requires CellWritable(h, kind, c) && kind != Text && kind != Long
    ensures CellCopied(h, kind, c, h, NumberCell(kind, CellText(h, kind, c)), false)
    ensures CellText(h, kind, c) != []
  {
    var n := CellNumber(h, kind, c);
    CellNumberInRange(h, kind, c);
    hide Printed, Parsed, IndexComparator.Signed, Clamped, IntCell, IntOf;
    OneOrZero(n);
    if kind == Byte {
      ByteReturns(n);
    } else if kind == Short {
      ShortReturns(n);
    }
    if kind == Byte {
      SignedTellsApart(c, NumberCell(kind, Printed(n)), 0x100);
    } else if kind == Short {
      SignedTellsApart(c, NumberCell(kind, Printed(n)), 0x1_0000);
    }
    IntCellReturns(c);
  }

  // Different low bits mean different numbers.
  lemma SignedTellsApart(c: nat, d: nat, modulus: nat)
    requires modulus > 0
    requires IndexComparator.Signed(c % modulus, modulus) == IndexComparator.Signed(d % modulus, modulus)
    ensures c % modulus == d % modulus
  {
    IndexComparator.LowBits(modulus, 0, c % modulus);
    IndexComparator.LowBits(modulus, 0, d % modulus);
  }

  lemma IntCellReturns(c: nat)
    ensures c < 0x1_0000_0000 ==> IntCell(IntOf(c)) == c && IntCell(c) == c
  {
    if c < 0x1_0000_0000 {
      IntCellRoundTrip(c);
    }
  }

  // The text of an element of 8, 16 or 64 bits stores the element.
  lemma SideReturns(kind: Kind, x: nat)
    requires SideCellWritable(kind, x) && !OwnCells(kind)
    ensures SideSame(kind, x, SideCell(kind, Printed(SideNumber(kind, x))))
  {
    var n := SideNumber(kind, x);
    OneOrZero(n);
    hide Printed, Parsed;
    if kind == Byte {
      SignedReturns(x, 0x100);
    } else if kind == Short {
      SignedReturns(x, 0x1_0000);
    } else if kind == Long {
      SignedReturns(x, BITS64);
    }
  }

  lemma SignedReturns(x: nat, modulus: nat)
    requires x < modulus
    ensures IndexComparator.Signed(x, modulus) % modulus == x
  {
    assert x - modulus == modulus * -1 + x;
  }

  // Booleans are true or not; all other elements are the same bits.
  predicate SideSame(kind: Kind, x: nat, y: nat) {
    if kind == Boolean then (y == 1) == (x == 1) else y == x
  }

  lemma LongText(h: Heap, c: nat, x: nat)
    requires CellReadable(h, Long, c) && x == if c == 0 then 10 else h.longs[c]
    ensures CellText(h, Long, c) == Printed(SideNumber(Long, x))
  {
    hide Printed;
    assert IndexComparator.Signed(10, BITS64) == 10;
  }

  // A 64-bit number is stored behind the others.
  lemma LongReturns(h: Heap, c: nat, h1: Heap)
    requires CellWritable(h, Long, c) && HeapOK(h1)
    ensures var h2 := WithLong(h1, CellText(h, Long, c));
            Grows(h1, h2) && HeapOK(h2) && CellCopied(h, Long, c, h2, |h1.longs|, false) && CellText(h, Long, c) != []
  {
    hide Printed, Parsed, SideCell, SideNumber, CellText;
    var x := if c == 0 then 10 else h.longs[c];
    LongText(h, c, x);
    SideReturns(Long, x);
    ParsedOfPrinted(SideNumber(Long, x));
    var h2 := WithLong(h1, CellText(h, Long, c));
    assert h2.longs[|h1.longs|] == SideCell(Long, Printed(SideNumber(Long, x)));
  }

  /** A cell that is still empty gets the copy of the one whose text is stored. */
  lemma StoredIsCopied(h: Heap, kind: Kind, c: nat, h1: Heap, p: nat)
    requires CellWritable(h, kind, c) && HeapOK(h1) && p < |h1.cells| && h1.cells[p] == 0
    requires kind == Text ==> CellText(h, kind, c) != []
    ensures var h2 := StoreValue(h1, kind, p, CellText(h, kind, c));
            && CellCopied(h, kind, c, h2, h2.cells[p], false) && Grows(h1, h2) && HeapOK(h2)
            && h2.cells == h1.cells[p := h2.cells[p]]
  {
    if kind == Text {
      NewText(h1, CellText(h, kind, c));
    } else if kind == Long {
      LongReturns(h, c, h1);
    } else {
      NumberReturns(h, kind, c);
    }
  }

  // The slot of the structure at b is the copy of that of the structure at a.
  predicate SlotCopied(types: Types, h: Heap, a: nat, h': Heap, b: nat, i: int)
    requires IsStructure(types, h.cells, a) && IsStructure(types, h'.cells, b) && SameShape(types, h, a, h', b)
  {
    0 <= i < SlotCount(types, h.cells, a) &&
    var s := ShapeAt(types, h.cells, a);
    CellCopied(h, KindAt(s, i), h.cells[SlotAt(types, h.cells, a, i)],
               h', h'.cells[SlotAt(types, h'.cells, b, i)], s.ArrayOf?)
  }

  predicate SameShape(types: Types, h: Heap, a: nat, h': Heap, b: nat)
    requires IsStructure(types, h.cells, a) && IsStructure(types, h'.cells, b)
  {
    && h'.cells[b] == h.cells[a] && SlotCount(types, h'.cells, b) == SlotCount(types, h.cells, a)
    && (ShapeAt(types, h.cells, a).ArrayOf? ==> ElementCount(types, h'.cells, b) == ElementCount(types, h.cells, a))
  }

  // The first n slots are copied.
  ghost predicate PartCopied(types: Types, h: Heap, a: nat, h': Heap, b: nat, n: nat) {
    && IsStructure(types, h.cells, a) && IsStructure(types, h'.cells, b) && SameShape(types, h, a, h', b)
    && n <= SlotCount(types, h.cells, a) && forall i :: 0 <= i < n ==> SlotCopied(types, h, a, h', b, i)
  }

  // As PartCopied, and the other slots are empty.
  ghost predicate Filling(types: Types, h: Heap, a: nat, h': Heap, b: nat, n: nat) {
    && PartCopied(types, h, a, h', b, n) && End(types, h'.cells, b) == |h'.cells| && HeapOK(h')
    && forall i :: n <= i < SlotCount(types, h'.cells, b) ==> SlotEmpty(types, h', b, i)
  }

  predicate SlotEmpty(types: Types, h': Heap, b: nat, i: int)
    requires IsStructure(types, h'.cells, b)
  {
    0 <= i < SlotCount(types, h'.cells, b) && h'.cells[SlotAt(types, h'.cells, b, i)] == 0
  }

  // Filling continues after the cell of slot n got its copy.
  lemma FilledOneMore(types: Types, h: Heap, a: nat, h1: Heap, h2: Heap, b: nat, n: nat)
    requires Filling(types, h, a, h1, b, n) && n < SlotCount(types, h.cells, a) && Grows(h1, h2) && HeapOK(h2)
    requires var p := SlotAt(types, h1.cells, b, n);
             && p < |h2.cells| && h2.cells == h1.cells[p := h2.cells[p]]
             && var s := ShapeAt(types, h.cells, a);
                CellCopied(h, KindAt(s, n), h.cells[SlotAt(types, h.cells, a, n)], h2, h2.cells[p], s.ArrayOf?)
    ensures Filling(types, h, a, h2, b, n + 1)
  {
    hide CellCopied;
    var p, s := SlotAt(types, h1.cells, b, n), ShapeAt(types, h.cells, a);
    assert IsStructure(types, h2.cells, b) && SameShape(types, h, a, h2, b);
    forall i | 0 <= i < n + 1 ensures SlotCopied(types, h, a, h2, b, i) {
      if i < n {
        assert SlotCopied(types, h, a, h1, b, i);
        CellStaysCopied(h, KindAt(s, i), h.cells[SlotAt(types, h.cells, a, i)], h1, h2,
                        h1.cells[SlotAt(types, h1.cells, b, i)], s.ArrayOf?);
      }
    }
    forall i | n + 1 <= i < SlotCount(types, h2.cells, b) ensures SlotEmpty(types, h2, b, i) {
      assert SlotEmpty(types, h1, b, i);
    }
  }

  // --------------------------------------------------------------- features

  // Every slot can be written and read again.
  ghost predicate Writable(types: Types, h: Heap, a: nat) {
    && Readable(types, h, a) && SideWritable(types, h, a)
    && forall i :: 0 <= i < SlotCount(types, h.cells, a) ==> SlotWritable(types, h, a, i)
  }

  // The elements of 8, 16 or 64 bits have no more bits than that.
  ghost predicate SideWritable(types: Types, h: Heap, a: nat)
    requires IsStructure(types, h.cells, a) && SideFits(types, h, a)
  {
    var s := ShapeAt(types, h.cells, a);
    s.ArrayOf? && !OwnCells(s.kind) ==>
      forall i :: 0 <= i < h.cells[a + 1] ==> SideElementWritable(h, s.kind, a, i)
  }

  predicate SideElementWritable(h: Heap, kind: Kind, a: nat, i: nat) {
    && a + 2 < |h.cells| && h.cells[a + 2] + i < |Side(h, kind)|
    && SideCellWritable(kind, Side(h, kind)[h.cells[a + 2] + i])
  }

  predicate SideCellWritable(kind: Kind, x: nat) {
    match kind
    case Byte => x < 0x100
    case Short => x < 0x1_0000
    case Long => x < BITS64
    case _ => true
  }

  predicate SlotWritable(types: Types, h: Heap, a: nat, i: int)
    requires IsStructure(types, h.cells, a)
  {
    && 0 <= i < SlotCount(types, h.cells, a)
    && CellWritable(h, KindAt(ShapeAt(types, h.cells, a), i), h.cells[SlotAt(types, h.cells, a, i)])
  }

  // No number of a view changes.
  predicate IsIdentity(m: seq<int>) {
    |m| < 0x1_0000_0000 && forall i :: 0 <= i < |m| ==> m[i] == i
  }

  lemma RenumberNothing(types: Types, views: ViewMap, h: Heap, addr: nat)
    requires IsStructure(types, h.cells, addr) && ShapeAt(types, h.cells, addr).Record? && IsIdentity(views.indexMap)
    ensures RenumberSofa(types, views, h, addr) == h
  {
  }

  lemma FieldIndexOf(fields: seq<Field>, i: nat)
    requires DistinctNames(fields) && i < |fields|
    ensures FieldIndex(fields, fields[i].name) == i
  {
  }

  lemma {:induction false} ReadAttributesAppend(types: Types, views: ViewMap, addr: nat, p: Partial, a: seq<Attribute>,
                                                b: seq<Attribute>)
    ensures ReadAttributes(types, views, addr, p, a + b)
         == ReadAttributes(types, views, addr, ReadAttributes(types, views, addr, p, a), b)
    decreases |a|
  {
    if a == [] {
      assert a + b == b;
    } else {
      assert (a + b)[0] == a[0] && (a + b)[1..] == a[1..] + b;
      ReadAttributesAppend(types, views, addr, ReadAttribute(types, views, addr, p, a[0]), a[1..], b);
    }
  }

  lemma SetFeatureIs(types: Types, views: ViewMap, h: Heap, b: nat, i: nat, text: seq<nat>)
    requires TypesOK(types) && IsStructure(types, h.cells, b) && ShapeAt(types, h.cells, b).Record?
    requires IsIdentity(views.indexMap)
    requires i < SlotCount(types, h.cells, b)
    ensures var f := ShapeAt(types, h.cells, b).fields[i];
            SetFeature(types, views, h, b, f.name, text)
            == if text == [] then h else StoreValue(h, f.kind, b + 1 + i, text)
  {
    RenumberNothing(types, views, h, b);
    FieldIndexOf(ShapeAt(types, h.cells, b).fields, i);
    hide RenumberSofa, FieldIndex, StoreValue;
  }

  // The attribute of one feature, if it is written at all, fills its cell.
  lemma FeatureIsRead(types: Types, views: ViewMap, h: Heap, a: nat, p: Partial, b: nat, i: nat)
    requires TypesOK(types) && Writable(types, h, a) && ShapeAt(types, h.cells, a).Record? && IsIdentity(views.indexMap)
    requires Filling(types, h, a, p.heap, b, i) && i < SlotCount(types, h.cells, a)
    ensures var f, c := ShapeAt(types, h.cells, a).fields[i], h.cells[a + 1 + i];
            && CellReadable(h, f.kind, c)
            && var q := ReadAttributes(types, views, b, p, FeatureAttribute(h, f, c));
               && q == p.(heap := q.heap) && Filling(types, h, a, q.heap, b, i + 1) && Grows(p.heap, q.heap)
               && |q.heap.cells| == |p.heap.cells| && q.heap.cells[..b] == p.heap.cells[..b]
  {
    hide *;
    FillingHas(types, h, a, p.heap, b, i);
    var f, c := ShapeAt(types, h.cells, a).fields[i], h.cells[a + 1 + i];
    AttributeStores(types, views, h, f, c, p, b, i);
    CellIsStored(h, f, c, p.heap, b + 1 + i);
    FilledOneMore(types, h, a, p.heap, ReadAttributes(types, views, b, p, FeatureAttribute(h, f, c)).heap, b, i);
  }

  // The next slot of a structure that is being filled, and its original.
  lemma FillingHas(types: Types, h: Heap, a: nat, h': Heap, b: nat, i: nat)
    requires Writable(types, h, a) && ShapeAt(types, h.cells, a).Record? && Filling(types, h, a, h', b, i)
    requires i < SlotCount(types, h.cells, a)
    ensures IsStructure(types, h.cells, a) && i < |ShapeAt(types, h.cells, a).fields| && a + 1 + i < |h.cells|
    ensures ShapeAt(types, h.cells, a).fields[i].kind == KindAt(ShapeAt(types, h.cells, a), i)
    ensures SlotAt(types, h.cells, a, i) == a + 1 + i
    ensures CellWritable(h, ShapeAt(types, h.cells, a).fields[i].kind, h.cells[a + 1 + i])
    ensures CellReadable(h, ShapeAt(types, h.cells, a).fields[i].kind, h.cells[a + 1 + i])
    ensures IsStructure(types, h'.cells, b) && ShapeAt(types, h'.cells, b) == ShapeAt(types, h.cells, a)
    ensures SlotCount(types, h'.cells, b) == SlotCount(types, h.cells, a)
    ensures SlotAt(types, h'.cells, b, i) == b + 1 + i < |h'.cells|
    ensures HeapOK(h') && h'.cells[b + 1 + i] == 0
  {
    hide CellCopied, TypesOK;
    assert SlotWritable(types, h, a, i);
    assert SlotEmpty(types, h', b, i);
  }

  // The attribute of a feature, if there is one with a value, stores it.
  lemma AttributeStores(types: Types, views: ViewMap, h: Heap, f: Field, c: nat, p: Partial, b: nat, i: nat)
    requires TypesOK(types) && IsIdentity(views.indexMap) && CellReadable(h, f.kind, c)
    requires IsStructure(types, p.heap.cells, b) && ShapeAt(types, p.heap.cells, b).Record?
    requires i < SlotCount(types, p.heap.cells, b) && b + 1 + i < |p.heap.cells|
    requires ShapeAt(types, p.heap.cells, b).fields[i] == f
    ensures var text, attributes := CellText(h, f.kind, c), FeatureAttribute(h, f, c);
            var q := ReadAttributes(types, views, b, p, attributes);
            q == if attributes == [] || text == [] then p
                 else p.(heap := StoreValue(p.heap, f.kind, b + 1 + i, text))
  {
    SetFeatureIs(types, views, p.heap, b, i, CellText(h, f.kind, c));
    OneAttribute(types, views, b, p, FeatureAttribute(h, f, c));
    hide SetFeature, StoreValue, CellText, ReadAttributes, IsStructure, ShapeAt, SlotCount;
  }

  // Storing the text of a cell, or leaving the empty one, makes a copy.
  lemma CellIsStored(h: Heap, f: Field, c: nat, h1: Heap, p: nat)
    requires CellWritable(h, f.kind, c) && CellReadable(h, f.kind, c) && HeapOK(h1)
    requires p < |h1.cells| && h1.cells[p] == 0
    ensures var text := CellText(h, f.kind, c);
            var h2 := if FeatureAttribute(h, f, c) == [] || text == [] then h1 else StoreValue(h1, f.kind, p, text);
            && CellCopied(h, f.kind, c, h2, h2.cells[p], false) && Grows(h1, h2) && HeapOK(h2)
            && h2.cells == h1.cells[p := h2.cells[p]]
  {
    if FeatureAttribute(h, f, c) == [] || CellText(h, f.kind, c) == [] {
      EmptyIsCopied(h, f.kind, c, h1);
      GrowsItself(h1);
    } else {
      StoredIsCopied(h, f.kind, c, h1, p);
    }
    hide CellCopied, CellText, StoreValue, Grows, CellWritable;
  }

  lemma OneAttribute(types: Types, views: ViewMap, addr: nat, p: Partial, attributes: seq<Attribute>)
    requires |attributes| <= 1
    ensures ReadAttributes(types, views, addr, p, attributes)
         == if attributes == [] then p else ReadAttribute(types, views, addr, p, attributes[0])
  {
    if attributes != [] {
      assert attributes[1..] == [];
    }
  }

  // A feature that is not written keeps its empty cell.
  lemma EmptyIsCopied(h: Heap, kind: Kind, c: nat, h': Heap)
    requires CellWritable(h, kind, c) && (FeatureAttribute(h, Field(0, kind), c) == [] || CellText(h, kind, c) == [])
    ensures CellCopied(h, kind, c, h', 0, false)
  {
    ParsedOfPrinted(IntOf(c));
    ParsedOfPrinted(c);
  }

  /** The attributes of all features from i on fill the rest of the structure. */
  lemma {:induction false} FeaturesAreRead(types: Types, views: ViewMap, h: Heap, a: nat, p: Partial, b: nat, i: nat)
    requires TypesOK(types) && Writable(types, h, a) && ShapeAt(types, h.cells, a).Record? && IsIdentity(views.indexMap)
    requires Filling(types, h, a, p.heap, b, i)
    ensures var q := ReadAttributes(types, views, b, p, FeatureAttributes(types, h, a, i));
            && q == p.(heap := q.heap) && Filling(types, h, a, q.heap, b, SlotCount(types, h.cells, a))
            && Grows(p.heap, q.heap)
            && |q.heap.cells| == |p.heap.cells| && q.heap.cells[..b] == p.heap.cells[..b]
    decreases SlotCount(types, h.cells, a) - i
  {
    hide *;
    FillingMeans(types, h, a, p.heap, b, i);
    WritableMeans(types, h, a);
    GrowsItself(p.heap);
    if i < SlotCount(types, h.cells, a) {
      FeatureIsRead(types, views, h, a, p, b, i);
      NextFeature(types, h, a, i);
      var f, c := ShapeAt(types, h.cells, a).fields[i], h.cells[a + 1 + i];
      var first, rest := FeatureAttribute(h, f, c), FeatureAttributes(types, h, a, i + 1);
      var q := ReadAttributes(types, views, b, p, first);
      FeaturesAreRead(types, views, h, a, q, b, i + 1);
      ReadAttributesAppend(types, views, b, p, first, rest);
      GrowsFurther(p.heap, q.heap, ReadAttributes(types, views, b, q, rest).heap);
    } else {
      NoFeature(types, h, a, views, p, b);
    }
  }

  lemma WritableMeans(types: Types, h: Heap, a: nat)
    requires Writable(types, h, a)
    ensures Readable(types, h, a) && IsStructure(types, h.cells, a)
  {
  }

  lemma FillingMeans(types: Types, h: Heap, a: nat, h': Heap, b: nat, n: nat)
    requires Filling(types, h, a, h', b, n)
    ensures IsStructure(types, h.cells, a) && n <= SlotCount(types, h.cells, a) && b < |h'.cells|
    ensures HeapOK(h') && PartCopied(types, h, a, h', b, n) && IsStructure(types, h'.cells, b)
    ensures End(types, h'.cells, b) == |h'.cells|
  {
  }

  lemma NextFeature(types: Types, h: Heap, a: nat, i: nat)
    requires Readable(types, h, a) && ShapeAt(types, h.cells, a).Record? && i < SlotCount(types, h.cells, a)
    ensures var fields := ShapeAt(types, h.cells, a).fields;
            && i < |fields| && a + 1 + i < |h.cells| && CellReadable(h, fields[i].kind, h.cells[a + 1 + i])
            && FeatureAttributes(types, h, a, i)
            == FeatureAttribute(h, fields[i], h.cells[a + 1 + i]) + FeatureAttributes(types, h, a, i + 1)
  {
    assert SlotReadable(types, h, a, i);
  }

  lemma NoFeature(types: Types, h: Heap, a: nat, views: ViewMap, p: Partial, b: nat)
    requires Readable(types, h, a) && ShapeAt(types, h.cells, a).Record?
    ensures ReadAttributes(types, views, b, p, FeatureAttributes(types, h, a, SlotCount(types, h.cells, a))) == p
  {
  }

  lemma GrowsItself(h: Heap)
    ensures Grows(h, h)
  {
  }

  lemma GrowsFurther(h1: Heap, h2: Heap, h3: Heap)
    requires Grows(h1, h2) && Grows(h2, h3)
    ensures Grows(h1, h3)
  {
  }

  // The attributes in front of the features give the number and the views.
  lemma LeadingAreRead(types: Types, views: ViewMap, addr: nat, p: Partial, a: nat, vs: seq<nat>)
    ensures ReadAttributes(types, views, addr, p, LeadingAttributes(a, vs)) == p.(id := a, views := p.views + vs)
  {
    ParsedOfPrinted(a);
    ParsedOfPrintedViews(vs);
    var first := if vs == [] then [] else [Attribute(IndexedName, PrintedViews(vs))];
    var last := [Attribute(IdName, Printed(a))];
    assert LeadingAttributes(a, vs) == first + last;
    assert vs == [] ==> p.views + vs == p.views;
    ReadAttributesAppend(types, views, addr, p, first, last);
    OneAttribute(types, views, addr, p, first);
    OneAttribute(types, views, addr, p.(views := p.views + vs), last);
    hide ReadAttributes;
  }

  // A structure that was just created is empty.
  lemma CreatedIsEmpty(types: Types, h: Heap, a: nat, h': Heap)
    requires IsStructure(types, h.cells, a) && ShapeAt(types, h.cells, a).Record? && HeapOK(h')
    ensures var more := Created(types, h', h.cells[a]);
            Filling(types, h, a, more, |h'.cells|, 0) && more.cells[..|h'.cells|] == h'.cells
  {
    var more, b := Created(types, h', h.cells[a]), |h'.cells|;
    forall i | 0 <= i < SlotCount(types, more.cells, b) ensures SlotEmpty(types, more, b, i) {
    }
  }

  // All that readFS makes of the attributes.
  lemma RecordIsRead(types: Types, views: ViewMap, h: Heap, a: nat, vs: seq<nat>, h': Heap)
    requires TypesOK(types) && Writable(types, h, a) && ShapeAt(types, h.cells, a).Record? && IsIdentity(views.indexMap)
    requires HeapOK(h')
    ensures var b, p := |h'.cells|, Partial(Created(types, h', h.cells[a]), -1, []);
            var q := ReadAttributes(types, views, b, p, LeadingAttributes(a, vs) + FeatureAttributes(types, h, a, 0));
            && q == Partial(q.heap, a, vs) && Filling(types, h, a, q.heap, b, SlotCount(types, h.cells, a))
            && Grows(h', q.heap) && q.heap.cells[..b] == h'.cells && b < |q.heap.cells|
  {
    var b, p := |h'.cells|, Partial(Created(types, h', h.cells[a]), -1, []);
    hide *;
    RecordIsCreated(types, h, a, h');
    LeadingAreRead(types, views, b, p, a, vs);
    var p1 := p.(id := a, views := vs);
    assert p.views + vs == vs;
    FeaturesAreRead(types, views, h, a, p1, b, 0);
    ReadAttributesAppend(types, views, b, p, LeadingAttributes(a, vs), FeatureAttributes(types, h, a, 0));
    var q := ReadAttributes(types, views, b, p1, FeatureAttributes(types, h, a, 0));
    FillingMeans(types, h, a, q.heap, b, SlotCount(types, h.cells, a));
    GrowsFurther(h', p.heap, q.heap);
  }

  lemma RecordIsCreated(types: Types, h: Heap, a: nat, h': Heap)
    requires TypesOK(types) && Writable(types, h, a) && ShapeAt(types, h.cells, a).Record? && HeapOK(h')
    ensures Readable(types, h, a) && IsStructure(types, h.cells, a) && a < |h.cells|
    ensures h.cells[a] < |types.shapes| && types.shapes[h.cells[a]].Record?
    ensures var more := Created(types, h', h.cells[a]);
            && Filling(types, h, a, more, |h'.cells|, 0) && more.cells[..|h'.cells|] == h'.cells
            && |h'.cells| < |more.cells|
            && Grows(h', more)
  {
    CreatedIsEmpty(types, h, a, h');
  }

  // --------------------------------------------------------------- elements

  // The first n elements of 8, 16 or 64 bits are copied.
  ghost predicate SideCopied(types: Types, h: Heap, a: nat, h': Heap, b: nat, n: nat) {
    && IsStructure(types, h.cells, a) && IsStructure(types, h'.cells, b) && SameShape(types, h, a, h', b)
    && var s := ShapeAt(types, h.cells, a);
       s.ArrayOf? && !OwnCells(s.kind) ==>
         && SideFits(types, h, a) && SideFits(types, h', b) && n <= ElementCount(types, h.cells, a)
         && forall i :: 0 <= i < n ==> SideElementCopied(h, s.kind, a, h', b, i)
  }

  // The elements are the same.
  predicate SideElementCopied(h: Heap, kind: Kind, a: nat, h': Heap, b: nat, i: int) {
    && 0 <= i && a + 2 < |h.cells| && h.cells[a + 2] + i < |Side(h, kind)|
    && b + 2 < |h'.cells| && h'.cells[b + 2] + i < |Side(h', kind)|
    && SideSame(kind, Side(h, kind)[h.cells[a + 2] + i], Side(h', kind)[h'.cells[b + 2] + i])
  }

  // An array whose first n elements were read, behind all that is in the heap h0.
  ghost predicate ReadingArray(types: Types, h: Heap, a: nat, h0: Heap, r: Reader, b: nat, n: nat) {
    && r.state == ArrayEleState && r.currentAddr == b && r.arrayPos == n && ReaderOK(types, r) && Grows(h0, r.heap)
    && IsStructure(types, h.cells, a) && ShapeAt(types, h.cells, a).ArrayOf? && n <= ElementCount(types, h.cells, a)
    && var kind := ShapeAt(types, h.cells, a).kind;
       if OwnCells(kind) then Filling(types, h, a, r.heap, b, n)
       else
         && Filling(types, h, a, r.heap, b, 0) && SideCopied(types, h, a, r.heap, b, n)
         && r.heap.cells[b + 2] == |Side(h0, kind)|
  }

  // What reading elements does not change.
  ghost predicate OnlyHeap(r: Reader, r': Reader, b: nat) {
    && r' == r.(heap := r'.heap, arrayPos := r'.arrayPos, buffer := r'.buffer)
    && b <= |r.heap.cells| == |r'.heap.cells| && r'.heap.cells[..b] == r.heap.cells[..b]
  }

  // The text of an element ends up in the buffer.
  lemma ItemBuffered(types: Types, r: Reader, text: seq<nat>)
    requires ReaderOK(types, r) && r.state == ArrayEleState
    ensures ReaderOK(types, r.(state := ArrayEleContentState, buffer := text))
    ensures Run(types, r, ItemEvents(text))
         == Run(types, r.(state := ArrayEleContentState, buffer := text), [EndElement(ItemTag)])
  {
    var r0 := r.(state := ArrayEleContentState, buffer := []);
    var r1 := r0.(buffer := text);
    var start, end := [StartElement(ItemTag, [])], [EndElement(ItemTag)];
    var middle := if text == [] then [] else [Characters(text)];
    assert start[1..] == [];
    assert OnEvent(types, r, start[0]) == Fine(r0);
    assert Run(types, r, start) == Fine(r0);
    assert [] + text == text;
    assert middle != [] ==> middle[1..] == [] && OnEvent(types, r0, middle[0]) == Fine(r1);
    assert Run(types, r0, middle) == Fine(r1);
    hide Run;
    RunAppend(types, r, start, middle);
    RunAppend(types, r, start + middle, end);
  }

  lemma OwnElementIsCopied(types: Types, h: Heap, a: nat, h0: Heap, r: Reader, b: nat, n: nat)
    requires ReadingArray(types, h, a, h0, r.(state := ArrayEleState), b, n) && Writable(types, h, a)
    requires n < ElementCount(types, h.cells, a) && r.state == ArrayEleContentState
    requires OwnCells(ShapeAt(types, h.cells, a).kind)
    requires ElementReadable(types, h, a, n) && r.buffer == ElementText(types, h, a, n)
    ensures CurrentIsArray(types, r) && var o := AddElement(types, r);
            && o.Fine? && ReadingArray(types, h, a, h0, o.reader, b, n + 1)
            && OnlyHeap(r.(state := ArrayEleState), o.reader, b)
  {
    var kind, c, p := ShapeAt(types, h.cells, a).kind, h.cells[a + 2 + n], b + 2 + n;
    assert SlotWritable(types, h, a, n);
    assert r.heap.cells[b + 1] == h.cells[a + 1] && ShapeAt(types, r.heap.cells, b).kind == kind;
    AddedIsCopied(types, h, kind, c, r);
    var o := AddElement(types, r);
    GrowsFurther(h0, r.heap, o.reader.heap);
    hide CellCopied, Grows, AddElement, CellText, CellWritable;
    FilledOneMore(types, h, a, r.heap, o.reader.heap, b, n);
    SameArray(types, r.heap.cells, o.reader.heap.cells, b, p);
  }

  lemma SameArray(types: Types, cells: seq<nat>, cells': seq<nat>, b: nat, p: nat)
    requires IsStructure(types, cells, b) && b + 1 < p < |cells| && p < |cells'| && cells' == cells[p := cells'[p]]
    requires ShapeAt(types, cells, b).ArrayOf? && OwnCells(ShapeAt(types, cells, b).kind)
    ensures IsStructure(types, cells', b) && ShapeAt(types, cells', b) == ShapeAt(types, cells, b)
    ensures cells'[..b] == cells[..b]
  {
  }

  // What addArrayElement stores is the copy of the cell whose text was read.
  lemma AddedIsCopied(types: Types, h: Heap, kind: Kind, c: nat, r: Reader)
    requires CellWritable(h, kind, c) && r.buffer == CellText(h, kind, c) && HeapOK(r.heap) && CurrentIsArray(types, r)
    requires r.arrayPos < r.heap.cells[r.currentAddr + 1] && ShapeAt(types, r.heap.cells, r.currentAddr).kind == kind
    requires OwnCells(kind)
    ensures var o, p := AddElement(types, r), r.currentAddr + 2 + r.arrayPos;
            && o.Fine? && p < |o.reader.heap.cells| && o.reader.heap.cells == r.heap.cells[p := o.reader.heap.cells[p]]
            && CellCopied(h, kind, c, o.reader.heap, o.reader.heap.cells[p], true)
            && Grows(r.heap, o.reader.heap) && HeapOK(o.reader.heap)
            && o.reader == r.(state := ArrayEleState, heap := o.reader.heap, arrayPos := r.arrayPos + 1)
  {
    if kind == Text {
      AddedTextIsCopied(types, h, c, r);
    } else {
      AddedNumberIsCopied(types, h, kind, c, r);
    }
  }

  lemma AddedTextIsCopied(types: Types, h: Heap, c: nat, r: Reader)
    requires CellWritable(h, Text, c) && r.buffer == CellText(h, Text, c) && HeapOK(r.heap) && CurrentIsArray(types, r)
    requires r.arrayPos < r.heap.cells[r.currentAddr + 1] && ShapeAt(types, r.heap.cells, r.currentAddr).kind == Text
    ensures var o, p := AddElement(types, r), r.currentAddr + 2 + r.arrayPos;
            && o.Fine? && p < |o.reader.heap.cells| && o.reader.heap.cells == r.heap.cells[p := o.reader.heap.cells[p]]
            && CellCopied(h, Text, c, o.reader.heap, o.reader.heap.cells[p], true)
            && Grows(r.heap, o.reader.heap) && HeapOK(o.reader.heap)
            && o.reader == r.(state := ArrayEleState, heap := o.reader.heap, arrayPos := r.arrayPos + 1)
  {
    NewText(r.heap, r.buffer);
    var p := r.currentAddr + 2 + r.arrayPos;
    hide WithText, FSHeap.StrLen, FSHeap.TextOf, NextRef;
    var more, ref := WithText(r.heap, r.buffer), NextRef(r.heap);
    assert p < |r.heap.cells| && more.cells == r.heap.cells;
    assert AddElement(types, r)
        == Fine(r.(state := ArrayEleState, heap := more.(cells := more.cells[p := ref]), arrayPos := r.arrayPos + 1));
    hide AddElement, CurrentIsArray, ShapeAt, IsStructure;
  }

  lemma AddedNumberIsCopied(types: Types, h: Heap, kind: Kind, c: nat, r: Reader)
    requires CellWritable(h, kind, c) && r.buffer == CellText(h, kind, c) && HeapOK(r.heap) && CurrentIsArray(types, r)
    requires r.arrayPos < r.heap.cells[r.currentAddr + 1] && ShapeAt(types, r.heap.cells, r.currentAddr).kind == kind
    requires OwnCells(kind) && kind != Text
    ensures var o, p := AddElement(types, r), r.currentAddr + 2 + r.arrayPos;
            && o.Fine? && p < |o.reader.heap.cells| && o.reader.heap.cells == r.heap.cells[p := o.reader.heap.cells[p]]
            && CellCopied(h, kind, c, o.reader.heap, o.reader.heap.cells[p], true)
            && Grows(r.heap, o.reader.heap) && HeapOK(o.reader.heap)
            && o.reader == r.(state := ArrayEleState, heap := o.reader.heap, arrayPos := r.arrayPos + 1)
  {
    hide Printed, Parsed, NumberCell, CellText, FSHeap.TextOf, SideCell;
    OwnNumberReturns(h, kind, c);
  }

  lemma OwnNumberReturns(h: Heap, kind: Kind, c: nat)
    requires CellWritable(h, kind, c) && OwnCells(kind) && kind != Text
    ensures NumberCell(kind, CellText(h, kind, c)) == c
  {
    hide NumberCell, CellText;
    NumberReturns(h, kind, c);
  }

  // An element without a cell of its own is stored in the heap for its width.
  lemma SideElementIsCopied(types: Types, h: Heap, a: nat, h0: Heap, r: Reader, b: nat, n: nat)
    requires ReadingArray(types, h, a, h0, r.(state := ArrayEleState), b, n) && Writable(types, h, a)
    requires n < ElementCount(types, h.cells, a) && r.state == ArrayEleContentState
    requires !OwnCells(ShapeAt(types, h.cells, a).kind)
    requires ElementReadable(types, h, a, n) && r.buffer == ElementText(types, h, a, n)
    ensures CurrentIsArray(types, r) && var o := AddElement(types, r);
            && o.Fine? && ReadingArray(types, h, a, h0, o.reader, b, n + 1)
            && OnlyHeap(r.(state := ArrayEleState), o.reader, b)
  {
    var kind := ShapeAt(types, h.cells, a).kind;
    var x := Side(h, kind)[h.cells[a + 2] + n];
    assert SideElementWritable(h, kind, a, n);
    SideReturns(kind, x);
    var h1, h2 := r.heap, AddElement(types, r).reader.heap;
    var off := h1.cells[b + 2];
    hide SideCell, SideNumber, SideSame, Printed;
    assert Side(h2, kind) == Side(h1, kind)[off + n := SideCell(kind, r.buffer)];
    assert h2 == SetSide(h1, kind, Side(h2, kind));
    assert Grows(h0, h2);
    SideFilledOneMore(types, h, a, h1, h2, b, n);
  }

  lemma SideFilledOneMore(types: Types, h: Heap, a: nat, h1: Heap, h2: Heap, b: nat, n: nat)
    requires Filling(types, h, a, h1, b, 0) && SideCopied(types, h, a, h1, b, n) && h2.cells == h1.cells && HeapOK(h2)
    requires ShapeAt(types, h.cells, a).ArrayOf? && n < ElementCount(types, h.cells, a)
    requires !OwnCells(ShapeAt(types, h.cells, a).kind)
    requires var kind, off := ShapeAt(types, h.cells, a).kind, h1.cells[b + 2];
             && off + n < |Side(h1, kind)| && |Side(h2, kind)| == |Side(h1, kind)|
             && Side(h2, kind) == Side(h1, kind)[off + n := Side(h2, kind)[off + n]]
             && SideElementCopied(h, kind, a, h2, b, n)
    ensures Filling(types, h, a, h2, b, 0) && SideCopied(types, h, a, h2, b, n + 1)
  {
    hide SideSame;
    var kind := ShapeAt(types, h.cells, a).kind;
    forall i | 0 <= i < n + 1 ensures SideElementCopied(h, kind, a, h2, b, i) {
      assert i < n ==> SideElementCopied(h, kind, a, h1, b, i);
    }
  }

  lemma OneEvent(types: Types, r: Reader, e: Event)
    requires ReaderOK(types, r)
    ensures Run(types, r, [e]) == OnEvent(types, r, e)
  {
    assert [e][1..] == [];
    EventKeepsOK(types, r, e);
  }

  // The element is in the buffer, and its end stores it.
  lemma ElementEnds(types: Types, h: Heap, a: nat, h0: Heap, r: Reader, b: nat, n: nat, text: seq<nat>)
    requires ReadingArray(types, h, a, h0, r, b, n)
    ensures ReaderOK(types, r) && r.state == ArrayEleState && ReadingArray(types, h, a, h0, r.(buffer := text), b, n)
    ensures var r1 := r.(state := ArrayEleContentState, buffer := text);
            CurrentIsArray(types, r1) && Run(types, r, ItemEvents(text)) == AddElement(types, r1)
  {
    hide Filling, SideCopied, AddElement;
    var r1 := r.(state := ArrayEleContentState, buffer := text);
    ItemBuffered(types, r, text);
    OneEvent(types, r1, EndElement(ItemTag));
    hide Run;
  }

  lemma ElementIsRead(types: Types, h: Heap, a: nat, h0: Heap, r: Reader, b: nat, n: nat)
    requires ReadingArray(types, h, a, h0, r, b, n) && Writable(types, h, a) && n < ElementCount(types, h.cells, a)
    requires ElementReadable(types, h, a, n)
    ensures var o := Run(types, r, ItemEvents(ElementText(types, h, a, n)));
            o.Fine? && ReadingArray(types, h, a, h0, o.reader, b, n + 1) && OnlyHeap(r, o.reader, b)
  {
    var text := ElementText(types, h, a, n);
    var r1 := r.(state := ArrayEleContentState, buffer := text);
    ElementEnds(types, h, a, h0, r, b, n, text);
    assert r1.(state := ArrayEleState) == r.(buffer := text);
    hide Run, ReadingArray, ElementText, AddElement;
    if OwnCells(ShapeAt(types, h.cells, a).kind) {
      OwnElementIsCopied(types, h, a, h0, r1, b, n);
    } else {
      SideElementIsCopied(types, h, a, h0, r1, b, n);
    }
  }

  /** All elements from n on are read into their places. */
  lemma {:induction false} ElementsAreRead(types: Types, h: Heap, a: nat, h0: Heap, r: Reader, b: nat, n: nat)
    requires ReadingArray(types, h, a, h0, r, b, n) && Writable(types, h, a)
    ensures var o := Run(types, r, ItemsFrom(types, h, a, n));
            && o.Fine? && OnlyHeap(r, o.reader, b)
            && ReadingArray(types, h, a, h0, o.reader, b, ElementCount(types, h.cells, a))
    decreases ElementCount(types, h.cells, a) - n
  {
    hide *;
    ReadingMeans(types, h, a, h0, r, b, n);
    OnlyHeapItself(r, b);
    if n < ElementCount(types, h.cells, a) {
      NextElement(types, h, a, n);
      ElementIsRead(types, h, a, h0, r, b, n);
      var first, rest := ItemEvents(ElementText(types, h, a, n)), ItemsFrom(types, h, a, n + 1);
      var r1 := Run(types, r, first).reader;
      ElementsAreRead(types, h, a, h0, r1, b, n + 1);
      RunAppend(types, r, first, rest);
      OnlyHeapFurther(r, r1, Run(types, r1, rest).reader, b);
    } else {
      NoElement(types, h, a, r);
    }
  }

  lemma ReadingMeans(types: Types, h: Heap, a: nat, h0: Heap, r: Reader, b: nat, n: nat)
    requires ReadingArray(types, h, a, h0, r, b, n)
    ensures IsStructure(types, h.cells, a) && ShapeAt(types, h.cells, a).ArrayOf?
    ensures n <= ElementCount(types, h.cells, a)
    ensures ReaderOK(types, r) && HeapOK(r.heap) && Grows(h0, r.heap) && b < |r.heap.cells| && r.state == ArrayEleState
    ensures IsStructure(types, r.heap.cells, b) && End(types, r.heap.cells, b) == |r.heap.cells|
    ensures n == ElementCount(types, h.cells, a) ==> IsCopy(types, h, a, r.heap, b)
  {
  }

  // All slots and elements are copied.
  ghost predicate IsCopy(types: Types, h: Heap, a: nat, h': Heap, b: nat) {
    && IsStructure(types, h.cells, a) && PartCopied(types, h, a, h', b, SlotCount(types, h.cells, a))
    && SideCopied(types, h, a, h', b, ArraySize(types, h.cells, a))
  }

  lemma NextElement(types: Types, h: Heap, a: nat, n: nat)
    requires Writable(types, h, a) && ShapeAt(types, h.cells, a).ArrayOf? && n < ElementCount(types, h.cells, a)
    ensures Readable(types, h, a) && ElementReadable(types, h, a, n)
    ensures ItemsFrom(types, h, a, n) == ItemEvents(ElementText(types, h, a, n)) + ItemsFrom(types, h, a, n + 1)
  {
    ElementsAreReadable(types, h, a, n);
  }

  lemma NoElement(types: Types, h: Heap, a: nat, r: Reader)
    requires Writable(types, h, a) && ShapeAt(types, h.cells, a).ArrayOf? && ReaderOK(types, r)
    ensures Readable(types, h, a) && Run(types, r, ItemsFrom(types, h, a, ElementCount(types, h.cells, a))) == Fine(r)
  {
  }

  lemma OnlyHeapItself(r: Reader, b: nat)
    ensures b <= |r.heap.cells| ==> OnlyHeap(r, r, b)
  {
  }

  lemma OnlyHeapFurther(r1: Reader, r2: Reader, r3: Reader, b: nat)
    requires OnlyHeap(r1, r2, b) && OnlyHeap(r2, r3, b)
    ensures OnlyHeap(r1, r3, b)
  {
  }

  // ------------------------------------------------------------------ Sofas

  ghost predicate IsSofa(types: Types, h: Heap, a: nat) {
    IsStructure(types, h.cells, a) && h.cells[a] == types.sofa
  }

  // The name of a Sofa.
  ghost function SofaName(types: Types, h: Heap, a: nat): seq<nat>
    requires TypesOK(types) && Readable(types, h, a) && IsSofa(types, h, a)
  {
    var fields := types.shapes[types.sofa].fields;
    NamedField(fields, Field(SOFAID, Text));
    assert SlotReadable(types, h, a, FieldIndex(fields, SOFAID));
    CellText(h, Text, h.cells[a + 1 + FieldIndex(fields, SOFAID)])
  }

  lemma NamedField(fields: seq<Field>, f: Field)
    requires DistinctNames(fields) && HasField(fields, f)
    ensures FieldIndex(fields, f.name) < |fields| && fields[FieldIndex(fields, f.name)] == f
  {
    var i :| 0 <= i < |fields| && fields[i] == f;
    FieldIndexOf(fields, i);
  }

  lemma {:induction false} AttributeValueAppend(a: seq<Attribute>, b: seq<Attribute>, name: Name)
    requires forall x :: x in a ==> x.name != name
    ensures AttributeValue(a + b, name) == AttributeValue(b, name)
    decreases |a|
  {
    if a == [] {
      assert a + b == b;
    } else {
      assert a[0] in a && (a + b)[0] == a[0] && (a + b)[1..] == a[1..] + b;
      AttributeValueAppend(a[1..], b, name);
    }
  }

  lemma AttributeValueFirst(a: Attribute, b: seq<Attribute>)
    ensures AttributeValue([a] + b, a.name) == a.value
  {
  }

  lemma FeatureAttributeIs(h: Heap, f: Field, c: nat)
    requires CellReadable(h, f.kind, c)
    ensures var s := FeatureAttribute(h, f, c);
            && |s| <= 1
            && (forall x :: x in s ==> x == Attribute(FeatureName(f.name, f.kind == Reference), CellText(h, f.kind, c)))
            && (s != [] ==> s == [s[0]] && s[0] in s) && (s == [] && f.kind == Text ==> CellText(h, f.kind, c) == [])
            && (f.kind == Number ==> s != [])
  {
  }

  // The value that is found for a feature is the text of its cell, or nothing where a text is not set.
  lemma {:induction false} FeatureIsFound(types: Types, h: Heap, a: nat, i: nat, j: nat)
    requires TypesOK(types) && Readable(types, h, a) && ShapeAt(types, h.cells, a).Record?
    requires i <= SlotCount(types, h.cells, a) && j < SlotCount(types, h.cells, a)
    requires ShapeAt(types, h.cells, a).fields[j].kind != Reference
    ensures var f, c := ShapeAt(types, h.cells, a).fields[j], h.cells[a + 1 + j];
            && CellReadable(h, f.kind, c)
            && AttributeValue(FeatureAttributes(types, h, a, i), FeatureName(f.name, false))
            == if i <= j then CellText(h, f.kind, c) else []
    decreases SlotCount(types, h.cells, a) - i
  {
    hide *;
    FieldsOf(types, h, a);
    var fields := ShapeAt(types, h.cells, a).fields;
    NextFeature(types, h, a, j);
    if i < SlotCount(types, h.cells, a) {
      NextFeature(types, h, a, i);
      FeatureIsFound(types, h, a, i + 1, j);
      FoundOneMore(h, fields, i, j, h.cells[a + 1 + i], h.cells[a + 1 + j], FeatureAttributes(types, h, a, i + 1));
    } else {
      NothingFound(types, h, a, FeatureName(fields[j].name, false));
    }
  }

  lemma FieldsOf(types: Types, h: Heap, a: nat)
    requires TypesOK(types) && Readable(types, h, a) && ShapeAt(types, h.cells, a).Record?
    ensures IsStructure(types, h.cells, a) && DistinctNames(ShapeAt(types, h.cells, a).fields)
    ensures SlotCount(types, h.cells, a) == |ShapeAt(types, h.cells, a).fields|
  {
  }

  lemma NothingFound(types: Types, h: Heap, a: nat, name: Name)
    requires Readable(types, h, a) && ShapeAt(types, h.cells, a).Record?
    ensures AttributeValue(FeatureAttributes(types, h, a, SlotCount(types, h.cells, a)), name) == []
  {
  }

  lemma FoundOneMore(h: Heap, fields: seq<Field>, i: nat, j: nat, ci: nat, cj: nat, rest: seq<Attribute>)
    requires i < |fields| && j < |fields| && DistinctNames(fields) && fields[j].kind != Reference
    requires (i == j ==> ci == cj)
    requires CellReadable(h, fields[i].kind, ci) && CellReadable(h, fields[j].kind, cj)
    requires AttributeValue(rest, FeatureName(fields[j].name, false))
          == if i + 1 <= j then CellText(h, fields[j].kind, cj) else []
    ensures AttributeValue(FeatureAttribute(h, fields[i], ci) + rest, FeatureName(fields[j].name, false))
         == if i <= j then CellText(h, fields[j].kind, cj) else []
  {
    var first := FeatureAttribute(h, fields[i], ci);
    FeatureAttributeIs(h, fields[i], ci);
    hide AttributeValue, CellText, FeatureAttribute, CellReadable;
    if i == j && first != [] {
      AttributeValueFirst(first[0], rest);
    } else {
      AttributeValueAppend(first, rest, FeatureName(fields[j].name, false));
    }
  }

  // Where a Sofa has its number and its name.
  lemma SofaFields(types: Types, h: Heap, a: nat)
    requires TypesOK(types) && IsSofa(types, h, a)
    ensures IsStructure(types, h.cells, a) && ShapeAt(types, h.cells, a).Record?
    ensures SlotCount(types, h.cells, a) == |ShapeAt(types, h.cells, a).fields|
    ensures var fields := ShapeAt(types, h.cells, a).fields;
            var i, j := FieldIndex(fields, SOFANUM), FieldIndex(fields, SOFAID);
            && i < |fields| && fields[i] == Field(SOFANUM, Number) && j < |fields| && fields[j] == Field(SOFAID, Text)
            && a + |fields| < |h.cells| && SofaNumAt(types, h.cells, a) == h.cells[a + 1 + i]
            && (Readable(types, h, a) ==> CellReadable(h, Text, h.cells[a + 1 + j])
                                          && SofaName(types, h, a) == CellText(h, Text, h.cells[a + 1 + j]))
  {
    var fields := types.shapes[types.sofa].fields;
    NamedField(fields, Field(SOFANUM, Number));
    NamedField(fields, Field(SOFAID, Text));
    if Readable(types, h, a) {
      assert SlotReadable(types, h, a, FieldIndex(fields, SOFAID));
    }
  }

  lemma LeadingNames(a: nat, vs: seq<nat>)
    ensures forall x, n :: x in LeadingAttributes(a, vs) ==> x.name != FeatureName(n, false)
  {
  }

  lemma NumberIsText(h: Heap, c: nat)
    requires c < 0x8000_0000
    ensures Parsed(CellText(h, Number, c)) == c
  {
    hide Parsed, Printed;
    ParsedOfPrinted(c);
    assert IntOf(c) == c;
  }

  // The value of a feature that is found behind the other attributes.
  lemma FeatureIsFoundBehind(types: Types, h: Heap, a: nat, vs: seq<nat>, j: nat)
    requires TypesOK(types) && Readable(types, h, a) && ShapeAt(types, h.cells, a).Record?
    requires j < SlotCount(types, h.cells, a)
    requires ShapeAt(types, h.cells, a).fields[j].kind != Reference
    ensures var f, c := ShapeAt(types, h.cells, a).fields[j], h.cells[a + 1 + j];
            && CellReadable(h, f.kind, c)
            && AttributeValue(LeadingAttributes(a, vs) + FeatureAttributes(types, h, a, 0), FeatureName(f.name, false))
            == CellText(h, f.kind, c)
  {
    hide *;
    FieldsOf(types, h, a);
    FeatureIsFound(types, h, a, 0, j);
    LeadingNames(a, vs);
    AttributeValueAppend(LeadingAttributes(a, vs), FeatureAttributes(types, h, a, 0),
                         FeatureName(ShapeAt(types, h.cells, a).fields[j].name, false));
  }

  // What the reader finds in the attributes of a Sofa.
  lemma SofaIsFound(types: Types, h: Heap, a: nat, vs: seq<nat>)
    requires TypesOK(types) && Readable(types, h, a) && IsSofa(types, h, a)
    requires SofaNumAt(types, h.cells, a) < 0x8000_0000
    requires ShapeAt(types, h.cells, a).Record?
    ensures var attributes := LeadingAttributes(a, vs) + FeatureAttributes(types, h, a, 0);
            && Parsed(AttributeValue(attributes, FeatureName(SOFANUM, false))) == SofaNumAt(types, h.cells, a)
            && AttributeValue(attributes, FeatureName(SOFAID, false)) == SofaName(types, h, a)
  {
    hide *;
    SofaFields(types, h, a);
    var fields := ShapeAt(types, h.cells, a).fields;
    var i, j := FieldIndex(fields, SOFANUM), FieldIndex(fields, SOFAID);
    FeatureIsFoundBehind(types, h, a, vs, i);
    FeatureIsFoundBehind(types, h, a, vs, j);
    NumberIsText(h, h.cells[a + 1 + i]);
  }

  // The copy of a Sofa has the number of the Sofa.
  lemma SofaNumIsCopied(types: Types, h: Heap, a: nat, h': Heap, b: nat)
    requires TypesOK(types) && IsSofa(types, h, a) && PartCopied(types, h, a, h', b, SlotCount(types, h.cells, a))
    ensures SofaNumAt(types, h'.cells, b) == SofaNumAt(types, h.cells, a)
  {
    var fields := types.shapes[types.sofa].fields;
    NamedField(fields, Field(SOFANUM, Number));
    assert SlotCopied(types, h, a, h', b, FieldIndex(fields, SOFANUM));
  }

  function Counting(n: nat): (r: seq<nat>)
    ensures |r| == n && forall i :: 0 <= i < n ==> r[i] == i
  {
    seq(n, i => i)
  }

  // The numbering after some Sofas, n of them not of the initial view.
  predicate ViewsNumbered(v: ViewMap, any: bool, n: nat) {
    && v.repositories == Counting(2 + n)
    && if any then v.indexMap == Counting(2 + n) && v.nextIndex == 2 + n else v.indexMap == [0] && n == 0
  }

  /** Numbers of version 2 stay as they are, wherever the Sofa of the initial view comes. */
  lemma NumberingContinues(v: ViewMap, any: bool, n: nat, isInitialView: bool)
    requires ViewsNumbered(v, any, n) && n < 0x7FFF_FFF0
    ensures var num := if isInitialView then 1 else 2 + n;
            var v1 := MapSofa(v, num, isInitialView);
            IsIdentity(v1.indexMap) && ViewsNumbered(RegisterView(v1, num), true, if isInitialView then n else n + 1)
  {
    var num := if isInitialView then 1 else 2 + n;
    var v1 := MapSofa(v, num, isInitialView);
    var v2, n' := RegisterView(v1, num), if isInitialView then n else n + 1;
    assert v1.indexMap == Counting(2 + n');
    assert v2.repositories == Counting(2 + n');
  }

  lemma NumberedIsIdentity(v: ViewMap, any: bool, n: nat)
    requires ViewsNumbered(v, any, n) && n < 0x7FFF_FFF0
    ensures IsIdentity(v.indexMap)
  {
  }

  // ---------------------------------------------------------- one structure

  // The structure was read into new cells, and is known by its number.
  ghost predicate TookStructure(types: Types, h: Heap, a: nat, vs: seq<nat>, r: Reader, r': Reader) {
    var b := |r.heap.cells|;
    && r'.state == FsState && HeapOK(r'.heap) && Grows(r.heap, r'.heap) && b < |r'.heap.cells|
    && r'.heap.cells[..b] == r.heap.cells
    && IsCopy(types, h, a, r'.heap, b) && End(types, r'.heap.cells, b) == |r'.heap.cells|
    && r'.fsTree == r.fsTree[a := Info(b, vs)] && r'.idLess == r.idLess
    && r'.added == if IsSofa(types, h, a) then r.added + [Adding(0, b)] else r.added
  }

  // The numbering of views after a structure.
  ghost predicate NumbersNext(types: Types, h: Heap, a: nat, v: ViewMap, any: bool, n: nat)
    requires TypesOK(types) && Readable(types, h, a)
  {
    if IsSofa(types, h, a) then ViewsNumbered(v, true, if SofaName(types, h, a) == INITIAL then n else n + 1)
    else ViewsNumbered(v, any, n)
  }

  // The number of the Sofa is as version 2 has it, after n Sofas that are not of the initial view.
  ghost predicate SofaNumbered(types: Types, h: Heap, a: nat, n: nat)
    requires TypesOK(types) && Readable(types, h, a)
  {
    IsSofa(types, h, a) ==> SofaNumAt(types, h.cells, a) == if SofaName(types, h, a) == INITIAL then 1 else 2 + n
  }

  lemma ContentIsNothing(types: Types, views: ViewMap, h: Heap, addr: nat)
    ensures SetFeature(types, views, h, addr, CONTENT, []) == h
  {
  }

  // The two events of a structure.
  lemma RecordEvents(types: Types, r: Reader, t: nat, attributes: seq<Attribute>)
    requires HeapOK(r.heap) && r.state == FsState && t < |types.shapes| && types.shapes[t].Record?
    ensures Run(types, r, [StartElement(TypeTag(t), attributes), EndElement(TypeTag(t))])
         == Fine(ReadRecord(types, r.(buffer := []), t, attributes).(state := FsState))
  {
    var r1 := ReadRecord(types, r.(buffer := []), t, attributes);
    assert r1.buffer == [] && r1.state == ContentState;
    ContentIsNothing(types, r1.views, r1.heap, r1.currentAddr);
    var start, end := StartElement(TypeTag(t), attributes), EndElement(TypeTag(t));
    EventKeepsOK(types, r, start);
    assert OnEvent(types, r, start) == Fine(r1);
    assert OnEvent(types, r1, end) == Fine(r1.(state := FsState));
    hide OnEvent, Run, ReadRecord, SetFeature;
    OneEvent(types, r, start);
    OneEvent(types, r1, end);
    RunAppend(types, r, [start], [end]);
    assert [start, end] == [start] + [end];
  }

  // The parts of what readFS makes of the attributes.
  lemma ReadRecordIs(types: Types, r: Reader, t: nat, attributes: seq<Attribute>)
    requires HeapOK(r.heap) && t < |types.shapes| && types.shapes[t].Record?
    ensures var addr := |r.heap.cells|;
            var views := if t == types.sofa
                         then MapSofa(r.views, Parsed(AttributeValue(attributes, FeatureName(SOFANUM, false))),
                                      AttributeValue(attributes, FeatureName(SOFAID, false)) == INITIAL)
                         else r.views;
            var p := ReadAttributes(types, views, addr, Partial(Created(types, r.heap, t), -1, []), attributes);
            p.id < 0 || ReadRecord(types, r, t, attributes) ==
              r.(state := ContentState, heap := p.heap, currentAddr := addr,
                 views := if t == types.sofa then RegisterView(views, SofaNumAt(types, p.heap.cells, addr)) else views,
                 added := if t == types.sofa then r.added + [Adding(0, addr)] else r.added,
                 fsTree := r.fsTree[p.id as nat := Info(addr, p.views)])
  {
  }

  /** A structure is read back, and so is the numbering if it is a Sofa. */
  lemma RecordLoads(types: Types, h: Heap, a: nat, vs: seq<nat>, r: Reader, any: bool, n: nat)
    requires TypesOK(types) && Writable(types, h, a) && ShapeAt(types, h.cells, a).Record? && HeapOK(r.heap)
    requires r.state == FsState
    requires ViewsNumbered(r.views, any, n) && n < 0x7FFF_FFF0 && SofaNumbered(types, h, a, n)
    ensures ReaderOK(types, r)
    ensures var o := Run(types, r, StructureEvents(types, h, a, vs));
            o.Fine? && TookStructure(types, h, a, vs, r, o.reader) && NumbersNext(types, h, a, o.reader.views, any, n)
  {
    hide *;
    RecordIs(types, h, a, r);
    var t, b := h.cells[a], |r.heap.cells|;
    var attributes := LeadingAttributes(a, vs) + FeatureAttributes(types, h, a, 0);
    var r0 := r.(buffer := []);
    RecordEvents(types, r, t, attributes);
    RecordWritten(types, h, a, vs);
    ReadRecordIs(types, r0, t, attributes);
    var isInitialView := IsSofa(types, h, a) && SofaName(types, h, a) == INITIAL;
    NumberedIsIdentity(r.views, any, n);
    NumbersMean(types, h, a, any, n);
    if IsSofa(types, h, a) {
      SofaIsFound(types, h, a, vs);
      NumberingContinues(r.views, any, n, isInitialView);
    }
    var views := if IsSofa(types, h, a) then MapSofa(r.views, if isInitialView then 1 else 2 + n,
                                                     isInitialView) else r.views;
    RecordIsRead(types, views, h, a, vs, r.heap);
    var q := ReadAttributes(types, views, b, Partial(Created(types, r.heap, t), -1, []), attributes);
    FillingMeans(types, h, a, q.heap, b, SlotCount(types, h.cells, a));
    RecordIsCopy(types, h, a, q.heap, b);
    if IsSofa(types, h, a) {
      SofaNumIsCopied(types, h, a, q.heap, b);
    }
    ItTook(types, h, a, vs, r, Run(types, r, StructureEvents(types, h, a, vs)).reader);
  }

  lemma RecordIsCopy(types: Types, h: Heap, a: nat, h': Heap, b: nat)
    requires IsStructure(types, h.cells, a) && ShapeAt(types, h.cells, a).Record?
    requires PartCopied(types, h, a, h', b, SlotCount(types, h.cells, a))
    ensures IsCopy(types, h, a, h', b)
  {
  }

  lemma RecordIs(types: Types, h: Heap, a: nat, r: Reader)
    requires Writable(types, h, a) && ShapeAt(types, h.cells, a).Record? && HeapOK(r.heap) && r.state == FsState
    ensures ReaderOK(types, r) && Readable(types, h, a) && IsStructure(types, h.cells, a) && a < |h.cells|
    ensures h.cells[a] < |types.shapes| && types.shapes[h.cells[a]].Record?
    ensures IsSofa(types, h, a) <==> h.cells[a] == types.sofa
  {
  }

  lemma RecordWritten(types: Types, h: Heap, a: nat, vs: seq<nat>)
    requires Readable(types, h, a) && ShapeAt(types, h.cells, a).Record?
    ensures StructureEvents(types, h, a, vs)
         == [StartElement(TypeTag(h.cells[a]), LeadingAttributes(a, vs) + FeatureAttributes(types, h, a, 0)),
             EndElement(TypeTag(h.cells[a]))]
  {
  }

  lemma NumbersMean(types: Types, h: Heap, a: nat, any: bool, n: nat)
    requires TypesOK(types) && Readable(types, h, a) && SofaNumbered(types, h, a, n)
    ensures IsSofa(types, h, a) ==>
              SofaNumAt(types, h.cells, a) == if SofaName(types, h, a) == INITIAL then 1 else 2 + n
    ensures forall v {:trigger NumbersNext(types, h, a, v, any, n)} ::
              NumbersNext(types, h, a, v, any, n)
              <==> if IsSofa(types, h, a)
                   then ViewsNumbered(v, true, if SofaName(types, h, a) == INITIAL then n else n + 1)
                   else ViewsNumbered(v, any, n)
  {
  }

  lemma ItTook(types: Types, h: Heap, a: nat, vs: seq<nat>, r: Reader, r': Reader)
    requires var b := |r.heap.cells|;
             && r'.state == FsState && HeapOK(r'.heap) && Grows(r.heap, r'.heap) && b < |r'.heap.cells|
             && r'.heap.cells[..b] == r.heap.cells
             && IsCopy(types, h, a, r'.heap, b) && IsStructure(types, r'.heap.cells, b)
             && End(types, r'.heap.cells, b) == |r'.heap.cells|
             && r'.fsTree == r.fsTree[a := Info(b, vs)] && r'.idLess == r.idLess
             && r'.added == if IsSofa(types, h, a) then r.added + [Adding(0, b)] else r.added
    ensures TookStructure(types, h, a, vs, r, r')
  {
  }

  lemma {:induction false} ReadArrayAttributesAppend(p: ArrayPartial, a: seq<Attribute>, b: seq<Attribute>)
    ensures ReadArrayAttributes(p, a + b) == ReadArrayAttributes(ReadArrayAttributes(p, a), b)
    decreases |a|
  {
    if a == [] {
      assert a + b == b;
    } else {
      assert (a + b)[0] == a[0] && (a + b)[1..] == a[1..] + b;
      ReadArrayAttributesAppend(ReadArrayAttribute(p, a[0]), a[1..], b);
    }
  }

  lemma OneArrayAttribute(p: ArrayPartial, a: Attribute)
    requires p.ArrayPartial?
    ensures a.name == IdName ==> ReadArrayAttributes(p, [a]) == p.(id := Parsed(a.value))
    ensures a.name == IndexedName ==> ReadArrayAttributes(p, [a]) == p.(views := p.views + ParsedViews(a.value))
    ensures a.name == FeatureName(SIZE, false) ==> ReadArrayAttributes(p, [a]) == p.(size := Parsed(a.value))
    ensures ReadArrayAttributes(p, []) == p
  {
    assert [a][1..] == [];
  }

  // The attributes of an array give its number, views and size.
  lemma ArrayAttributesAreRead(a: nat, vs: seq<nat>, size: nat)
    ensures ReadArrayAttributes(ArrayPartial(-1, 0, []),
                                LeadingAttributes(a, vs) + [SizeAttribute(size)])
         == ArrayPartial(a, size, vs)
  {
    ParsedOfPrinted(a);
    ParsedOfPrinted(size);
    ParsedOfPrintedViews(vs);
    var p := ArrayPartial(-1, 0, []);
    var views, id := Attribute(IndexedName, PrintedViews(vs)), Attribute(IdName, Printed(a));
    var first, last := if vs == [] then [] else [views], SizeAttribute(size);
    assert LeadingAttributes(a, vs) == first + [id];
    assert p.views + vs == vs;
    hide ReadArrayAttributes, PrintedViews, Printed, LeadingAttributes;
    ReadArrayAttributesAppend(p, first + [id], [last]);
    ReadArrayAttributesAppend(p, first, [id]);
    OneArrayAttribute(p, views);
    OneArrayAttribute(p.(views := vs), id);
    OneArrayAttribute(p.(views := vs, id := a), last);
  }

  // The heap with a new array, and its reader.
  lemma ArrayStarts(types: Types, h: Heap, a: nat, vs: seq<nat>, r: Reader, attributes: seq<Attribute>)
    requires Writable(types, h, a) && ShapeAt(types, h.cells, a).ArrayOf? && HeapOK(r.heap) && r.state == FsState
    requires ReadArrayAttributes(ArrayPartial(-1, 0, []), attributes) == ArrayPartial(a, h.cells[a + 1], vs)
    ensures ReaderOK(types, r)
    ensures var b, o := |r.heap.cells|, Run(types, r, [StartElement(TypeTag(h.cells[a]), attributes)]);
            && o.Fine? && ReadingArray(types, h, a, r.heap, o.reader, b, 0) && b < |o.reader.heap.cells|
            && o.reader.heap.cells[..b] == r.heap.cells
            && o.reader == r.(state := ArrayEleState, buffer := [], heap := o.reader.heap, currentAddr := b,
                              arrayPos := 0,
                              fsTree := r.fsTree[a := Info(b, vs)])
  {
    var t, b, start := h.cells[a], |r.heap.cells|, StartElement(TypeTag(h.cells[a]), attributes);
    OneEvent(types, r, start);
    hide Run, ReadArrayAttributes;
    var r' := OnEvent(types, r, start).reader;
    assert r'.heap == WithArray(types, r.heap, t, h.cells[a + 1]);
    assert IsStructure(types, r'.heap.cells, b);
    forall i | 0 <= i < SlotCount(types, r'.heap.cells, b) ensures SlotEmpty(types, r'.heap, b, i) {
    }
  }

  lemma ArrayWritten(types: Types, h: Heap, a: nat, vs: seq<nat>)
    requires Writable(types, h, a) && ShapeAt(types, h.cells, a).ArrayOf? && !IsUnclosed(types, h, a)
    ensures Readable(types, h, a) && IsStructure(types, h.cells, a) && a + 1 < |h.cells|
    ensures ElementCount(types, h.cells, a) == h.cells[a + 1]
    ensures StructureEvents(types, h, a, vs)
         == [StartElement(TypeTag(h.cells[a]), LeadingAttributes(a, vs) + [SizeAttribute(h.cells[a + 1])])]
            + ItemsFrom(types, h, a, 0) + [EndElement(TypeTag(h.cells[a]))]
  {
  }

  lemma ArrayEnds(types: Types, h: Heap, a: nat, h0: Heap, r: Reader, b: nat, n: nat, tag: Tag)
    requires ReadingArray(types, h, a, h0, r, b, n)
    ensures ReaderOK(types, r) && Run(types, r, [EndElement(tag)]) == Fine(r.(state := FsState))
  {
    OneEvent(types, r, EndElement(tag));
  }

  lemma NoArrayIsSofa(types: Types, h: Heap, a: nat)
    requires TypesOK(types) && Writable(types, h, a) && ShapeAt(types, h.cells, a).ArrayOf?
    ensures Readable(types, h, a) && !IsSofa(types, h, a)
  {
  }

  /** An array is read back with all its elements. */
  lemma ArrayLoads(types: Types, h: Heap, a: nat, vs: seq<nat>, r: Reader, any: bool, n: nat)
    requires TypesOK(types) && Writable(types, h, a) && ShapeAt(types, h.cells, a).ArrayOf? && HeapOK(r.heap)
    requires r.state == FsState
    requires ViewsNumbered(r.views, any, n) && SofaNumbered(types, h, a, n) && !IsUnclosed(types, h, a)
    ensures ReaderOK(types, r)
    ensures var o := Run(types, r, StructureEvents(types, h, a, vs));
            o.Fine? && TookStructure(types, h, a, vs, r, o.reader) && NumbersNext(types, h, a, o.reader.views, any, n)
  {
    hide *;
    ArrayWritten(types, h, a, vs);
    NoArrayIsSofa(types, h, a);
    var t, b, size := h.cells[a], |r.heap.cells|, h.cells[a + 1];
    var attributes := LeadingAttributes(a, vs) + [SizeAttribute(size)];
    var start, end := [StartElement(TypeTag(t), attributes)], [EndElement(TypeTag(t))];
    var items := ItemsFrom(types, h, a, 0);
    ArrayAttributesAreRead(a, vs, size);
    ArrayStarts(types, h, a, vs, r, attributes);
    var r1 := Run(types, r, start).reader;
    ElementsAreRead(types, h, a, r.heap, r1, b, 0);
    var r2 := Run(types, r1, items).reader;
    OnlyHeapMeans(r1, r2, b);
    ReadingMeans(types, h, a, r.heap, r2, b, size);
    ArrayEnds(types, h, a, r.heap, r2, b, size, TypeTag(t));
    RunAppend(types, r, start, items);
    RunAppend(types, r, start + items, end);
    ItTook(types, h, a, vs, r, r2.(state := FsState));
    NumbersMean(types, h, a, any, n);
  }

  lemma OnlyHeapMeans(r: Reader, r': Reader, b: nat)
    requires OnlyHeap(r, r', b)
    ensures r' == r.(heap := r'.heap, arrayPos := r'.arrayPos, buffer := r'.buffer)
    ensures b <= |r.heap.cells| == |r'.heap.cells| && r'.heap.cells[..b] == r.heap.cells[..b]
  {
  }

  /** Any structure is read back. */
  lemma StructureLoads(types: Types, h: Heap, a: nat, vs: seq<nat>, r: Reader, any: bool, n: nat)
    requires TypesOK(types) && Writable(types, h, a) && HeapOK(r.heap) && r.state == FsState
    requires ViewsNumbered(r.views, any, n) && n < 0x7FFF_FFF0 && SofaNumbered(types, h, a, n)
    requires !IsUnclosed(types, h, a)
    ensures ReaderOK(types, r)
    ensures var o := Run(types, r, StructureEvents(types, h, a, vs));
            o.Fine? && TookStructure(types, h, a, vs, r, o.reader) && NumbersNext(types, h, a, o.reader.views, any, n)
  {
    hide *;
    WritableMeans(types, h, a);
    if ShapeAt(types, h.cells, a).Record? {
      RecordLoads(types, h, a, vs, r, any, n);
    } else {
      ArrayLoads(types, h, a, vs, r, any, n);
    }
  }

  // -------------------------------------------------------- all structures

  // How many of the structures are Sofas of views other than the initial one, and whether any is a Sofa.
  ghost function OtherSofas(types: Types, h: Heap, ids: seq<nat>): (n: nat)
    requires TypesOK(types) && forall a :: a in ids ==> Readable(types, h, a)
    ensures n <= |ids|
  {
    if ids == [] then 0
    else
      var a := ids[|ids| - 1];
      OtherSofas(types, h, ids[..|ids| - 1]) + if IsSofa(types, h, a) && SofaName(types, h, a) != INITIAL then 1 else 0
  }

  ghost predicate AnySofa(types: Types, h: Heap, ids: seq<nat>) {
    exists a :: a in ids && IsSofa(types, h, a)
  }

  // The copy of a with all its slots and its views is known by its number.
  ghost predicate IsLoaded(types: Types, h: Heap, a: nat, vs: seq<nat>, r: Reader) {
    a in r.fsTree && r.fsTree[a].views == vs && IsCopy(types, h, a, r.heap, r.fsTree[a].addr)
  }

  // The copy of a lies before that of b.
  ghost predicate InOrder(types: Types, r: Reader, a: nat, b: nat) {
    && a in r.fsTree && b in r.fsTree && IsStructure(types, r.heap.cells, r.fsTree[a].addr)
    && End(types, r.heap.cells, r.fsTree[a].addr) <= r.fsTree[b].addr
  }

  ghost predicate SofaAdded(types: Types, h: Heap, r: Reader, a: nat, e: Adding) {
    IsSofa(types, h, a) && a in r.fsTree && e == Adding(0, r.fsTree[a].addr)
  }

  ghost predicate SofaCalled(types: Types, h: Heap, ids: seq<nat>, r: Reader, e: Adding) {
    exists i :: 0 <= i < |ids| && SofaAdded(types, h, r, ids[i], e)
  }

  // Every Sofa was added once, and nothing else.
  ghost predicate SofasCalled(types: Types, h: Heap, ids: seq<nat>, r: Reader) {
    forall e :: multiset(r.added)[e] == if SofaCalled(types, h, ids, r, e) then 1 else 0
  }

  ghost predicate AllLoaded(types: Types, h: Heap, ids: seq<nat>, queue: map<nat, seq<nat>>, r: Reader) {
    forall i :: 0 <= i < |ids| ==> ids[i] in queue && IsLoaded(types, h, ids[i], queue[ids[i]], r)
  }

  ghost predicate AllInOrder(types: Types, ids: seq<nat>, r: Reader) {
    forall i, j :: 0 <= i < j < |ids| ==> InOrder(types, r, ids[i], ids[j])
  }

  // What the reader has after the first phase.
  ghost predicate Loaded(types: Types, h: Heap, ids: seq<nat>, queue: map<nat, seq<nat>>, r: Reader)
    requires TypesOK(types) && forall a :: a in ids ==> Readable(types, h, a)
  {
    && HeapOK(r.heap) && r.idLess == [] && r.fsTree.Keys == Elements(ids)
    && AllLoaded(types, h, ids, queue, r) && AllInOrder(types, ids, r)
    && ViewsNumbered(r.views, AnySofa(types, h, ids), OtherSofas(types, h, ids))
    && SofasCalled(types, h, ids, r)
  }

  // A copy stays when cells are only added behind it.
  lemma CopyStays(types: Types, h: Heap, a: nat, h1: Heap, h2: Heap, b: nat)
    requires IsCopy(types, h, a, h1, b) && Grows(h1, h2) && h1.cells <= h2.cells
    ensures IsCopy(types, h, a, h2, b) && IsStructure(types, h1.cells, b) && IsStructure(types, h2.cells, b)
    ensures End(types, h2.cells, b) == End(types, h1.cells, b)
  {
    assert IsStructure(types, h2.cells, b) && SameShape(types, h, a, h2, b);
    SideStays(types, h, a, h1, h2, b,
              ArraySize(types, h.cells, a));
    hide CellCopied, Grows, SideCopied;
    var s := ShapeAt(types, h.cells, a);
    forall i | 0 <= i < SlotCount(types, h.cells, a) ensures SlotCopied(types, h, a, h2, b, i) {
      assert SlotCopied(types, h, a, h1, b, i);
      CellStaysCopied(h, KindAt(s, i), h.cells[SlotAt(types, h.cells, a, i)], h1, h2,
                      h1.cells[SlotAt(types, h1.cells, b, i)], s.ArrayOf?);
    }
  }

  lemma SideStays(types: Types, h: Heap, a: nat, h1: Heap, h2: Heap, b: nat, n: nat)
    requires SideCopied(types, h, a, h1, b, n) && Grows(h1, h2) && h1.cells <= h2.cells
    ensures SideCopied(types, h, a, h2, b, n)
  {
    hide SideSame;
    var s := ShapeAt(types, h.cells, a);
    if s.ArrayOf? && !OwnCells(s.kind) {
      assert Side(h1, s.kind) <= Side(h2, s.kind);
      forall i | 0 <= i < n ensures SideElementCopied(h, s.kind, a, h2, b, i) {
        assert SideElementCopied(h, s.kind, a, h1, b, i);
      }
    }
  }

  // What was loaded before a structure that came later.
  lemma StaysLoaded(types: Types, h: Heap, c: nat, vs: seq<nat>, a: nat, ws: seq<nat>, r: Reader, r': Reader)
    requires IsLoaded(types, h, c, vs, r) && TookStructure(types, h, a, ws, r, r') && c != a
    ensures IsLoaded(types, h, c, vs, r') && InOrder(types, r', c, a) && r'.fsTree[c] == r.fsTree[c]
    ensures IsStructure(types, r.heap.cells, r.fsTree[c].addr)
    ensures End(types, r'.heap.cells, r.fsTree[c].addr) == End(types, r.heap.cells, r.fsTree[c].addr)
  {
    hide Grows, IsCopy;
    CopyStays(types, h, c, r.heap, r'.heap, r.fsTree[c].addr);
  }

  lemma StaysInOrder(types: Types, h: Heap, c: nat, d: nat, a: nat, ws: seq<nat>, r: Reader, r': Reader)
    requires InOrder(types, r, c, d) && TookStructure(types, h, a, ws, r, r') && c != a && d != a
    requires r'.fsTree[c] == r.fsTree[c] && IsStructure(types, r'.heap.cells, r.fsTree[c].addr)
    requires End(types, r'.heap.cells, r.fsTree[c].addr) == End(types, r.heap.cells, r.fsTree[c].addr)
    ensures InOrder(types, r', c, d)
  {
  }

  lemma NewIsLoaded(types: Types, h: Heap, a: nat, vs: seq<nat>, r: Reader, r': Reader)
    requires TookStructure(types, h, a, vs, r, r')
    ensures IsLoaded(types, h, a, vs, r')
  {
  }

  lemma NumbersOneMore(types: Types, h: Heap, ids: seq<nat>, a: nat, v: ViewMap)
    requires TypesOK(types) && (forall x :: x in ids + [a] ==> Readable(types, h, x))
    requires (forall x :: x in ids ==> Readable(types, h, x))
    requires Readable(types, h, a) && NumbersNext(types, h, a, v, AnySofa(types, h, ids), OtherSofas(types, h, ids))
    ensures ViewsNumbered(v, AnySofa(types, h, ids + [a]), OtherSofas(types, h, ids + [a]))
  {
    var all := ids + [a];
    assert all[..|ids|] == ids && all[|ids|] == a;
    hide Readable, SofaName;
    if IsSofa(types, h, a) {
      assert a in all;
    } else {
      assert AnySofa(types, h, all) <==> AnySofa(types, h, ids);
    }
  }

  /** One more structure: all that was loaded stays, and the new one comes behind it. */
  lemma LoadedOneMore(types: Types, h: Heap, ids: seq<nat>, queue: map<nat, seq<nat>>, a: nat, r: Reader, r': Reader)
    requires TypesOK(types) && (forall x :: x in ids ==> Readable(types, h, x))
    requires (forall x :: x in ids + [a] ==> Readable(types, h, x))
    requires a !in ids && a in queue && Readable(types, h, a) && Loaded(types, h, ids, queue, r)
    requires TookStructure(types, h, a, queue[a], r, r')
    requires NumbersNext(types, h, a, r'.views, AnySofa(types, h, ids), OtherSofas(types, h, ids))
    ensures Loaded(types, h, ids + [a], queue, r')
  {
    hide *;
    LoadedMeans(types, h, ids, queue, r);
    TookMeans(types, h, a, queue[a], r, r');
    NumbersOneMore(types, h, ids, a, r'.views);
    AllLoadedOneMore(types, h, ids, queue, a, r, r');
    AllInOrderOneMore(types, h, ids, queue, a, r, r');
    SofasAdded(types, h, ids, a, queue, r, r');
    assert Elements(ids + [a]) == Elements(ids) + {a};
    LoadedFrom(types, h, ids + [a], queue, r');
  }

  lemma LoadedMeans(types: Types, h: Heap, ids: seq<nat>, queue: map<nat, seq<nat>>, r: Reader)
    requires TypesOK(types) && (forall a :: a in ids ==> Readable(types, h, a)) && Loaded(types, h, ids, queue, r)
    ensures HeapOK(r.heap) && r.idLess == [] && r.fsTree.Keys == Elements(ids)
    ensures AllLoaded(types, h, ids, queue, r) && AllInOrder(types, ids, r)
    ensures ViewsNumbered(r.views, AnySofa(types, h, ids), OtherSofas(types, h, ids))
    ensures SofasCalled(types, h, ids, r)
  {
  }

  lemma LoadedFrom(types: Types, h: Heap, ids: seq<nat>, queue: map<nat, seq<nat>>, r: Reader)
    requires TypesOK(types) && forall a :: a in ids ==> Readable(types, h, a)
    requires HeapOK(r.heap) && r.idLess == [] && r.fsTree.Keys == Elements(ids)
    requires AllLoaded(types, h, ids, queue, r) && AllInOrder(types, ids, r)
    requires ViewsNumbered(r.views, AnySofa(types, h, ids), OtherSofas(types, h, ids))
    requires SofasCalled(types, h, ids, r)
    ensures Loaded(types, h, ids, queue, r)
  {
  }

  lemma TookMeans(types: Types, h: Heap, a: nat, vs: seq<nat>, r: Reader, r': Reader)
    requires TookStructure(types, h, a, vs, r, r')
    ensures r'.state == FsState && HeapOK(r'.heap) && r'.idLess == r.idLess && r'.fsTree.Keys == r.fsTree.Keys + {a}
  {
  }

  lemma AllLoadedOneMore(types: Types, h: Heap, ids: seq<nat>, queue: map<nat, seq<nat>>, a: nat, r: Reader, r': Reader)
    requires a !in ids && a in queue && AllLoaded(types, h, ids, queue, r)
    requires TookStructure(types, h, a, queue[a], r, r')
    ensures AllLoaded(types, h, ids + [a], queue, r')
  {
    var all := ids + [a];
    NewIsLoaded(types, h, a, queue[a], r, r');
    hide IsLoaded, TookStructure;
    forall i | 0 <= i < |all| ensures all[i] in queue && IsLoaded(types, h, all[i], queue[all[i]], r') {
      if i < |ids| {
        assert IsLoaded(types, h, ids[i], queue[ids[i]], r);
        StaysLoaded(types, h, ids[i], queue[ids[i]], a, queue[a], r, r');
      }
    }
  }

  lemma AllInOrderOneMore(types: Types, h: Heap, ids: seq<nat>, queue: map<nat, seq<nat>>, a: nat, r: Reader,
                          r': Reader)
    requires a !in ids && a in queue && AllLoaded(types, h, ids, queue, r)
    requires TookStructure(types, h, a, queue[a], r, r')
    requires AllInOrder(types, ids, r)
    ensures AllInOrder(types, ids + [a], r')
  {
    var all := ids + [a];
    hide IsLoaded, TookStructure, InOrder;
    forall i, j | 0 <= i < j < |all| ensures InOrder(types, r', all[i], all[j]) {
      assert IsLoaded(types, h, ids[i], queue[ids[i]], r);
      StaysLoaded(types, h, ids[i], queue[ids[i]], a, queue[a], r, r');
      if j < |ids| {
        assert InOrder(types, r, ids[i], ids[j]);
        CopyOf(types, h, ids[i], queue[ids[i]], r');
        StaysInOrder(types, h, ids[i], ids[j], a, queue[a], r, r');
      }
    }
  }

  lemma CopyOf(types: Types, h: Heap, a: nat, vs: seq<nat>, r: Reader)
    requires IsLoaded(types, h, a, vs, r)
    ensures a in r.fsTree && IsStructure(types, r.heap.cells, r.fsTree[a].addr) && IsStructure(types, h.cells, a)
  {
  }

  lemma SofasAdded(types: Types, h: Heap, ids: seq<nat>, a: nat, queue: map<nat, seq<nat>>, r: Reader, r': Reader)
    requires a !in ids && r.fsTree.Keys == Elements(ids) && a in queue && TookStructure(types, h, a, queue[a], r, r')
    requires AllLoaded(types, h, ids, queue, r) && SofasCalled(types, h, ids, r)
    ensures SofasCalled(types, h, ids + [a], r')
  {
    var all, b := ids + [a], |r.heap.cells|;
    hide IsCopy, Grows;
    assert forall i :: 0 <= i < |ids| ==> all[i] == ids[i] && ids[i] != a;
    assert all[|ids|] == a;
    forall i | 0 <= i < |ids| ensures ids[i] in r.fsTree && r.fsTree[ids[i]].addr < b {
      assert IsLoaded(types, h, ids[i], queue[ids[i]], r);
      CopyOf(types, h, ids[i], queue[ids[i]], r);
    }
    forall e ensures multiset(r'.added)[e] == if SofaCalled(types, h, all, r', e) then 1 else 0 {
      if i :| 0 <= i < |ids| && SofaAdded(types, h, r, ids[i], e) {
        assert SofaAdded(types, h, r', all[i], e);
      }
      if i :| 0 <= i < |all| && SofaAdded(types, h, r', all[i], e) {
        assert i < |ids| ==> SofaAdded(types, h, r, ids[i], e);
      }
      assert IsSofa(types, h, a) ==> SofaAdded(types, h, r', all[|ids|], Adding(0, r'.fsTree[a].addr));
    }
  }

  // --------------------------------------------------------- the first phase

  ghost predicate AllWritable(types: Types, h: Heap, ids: seq<nat>) {
    forall a :: a in ids ==> Writable(types, h, a)
  }

  // The numbers of Sofas are those of version 2.
  ghost predicate SofasNumbered(types: Types, h: Heap, ids: seq<nat>)
    requires TypesOK(types) && AllWritable(types, h, ids)
  {
    forall k :: 0 <= k < |ids| ==> SofaNumberedAt(types, h, ids, k)
  }

  ghost predicate SofaNumberedAt(types: Types, h: Heap, ids: seq<nat>, k: int)
    requires TypesOK(types) && AllWritable(types, h, ids)
  {
    0 <= k < |ids| ==>
      (PrefixWritable(types, h, ids, k); assert ids[k] in ids;
       SofaNumbered(types, h, ids[k], OtherSofas(types, h, ids[..k])))
  }

  lemma PrefixWritable(types: Types, h: Heap, ids: seq<nat>, k: int)
    requires AllWritable(types, h, ids) && 0 <= k <= |ids|
    ensures AllWritable(types, h, ids[..k]) && (forall a :: a in ids[..k] ==> Readable(types, h, a))
    ensures forall a :: a in ids ==> Readable(types, h, a)
  {
  }

  // What can be written and read again: distinct structures with the views they are indexed in.
  ghost predicate IsSource(types: Types, h: Heap, ids: seq<nat>, queue: map<nat, seq<nat>>) {
    && TypesOK(types) && StrictlyIncreasing(ids) && |ids| < 0x7FFF_FFF0 && Elements(ids) <= queue.Keys
    && AllWritable(types, h, ids) && SofasNumbered(types, h, ids)
  }

  // No array of bytes is empty.
  ghost predicate AllClosed(types: Types, h: Heap, ids: seq<nat>) {
    forall a :: a in ids && IsStructure(types, h.cells, a) ==> !IsUnclosed(types, h, a)
  }

  lemma SourceMeans(types: Types, h: Heap, ids: seq<nat>, queue: map<nat, seq<nat>>, k: nat)
    requires IsSource(types, h, ids, queue) && k <= |ids|
    ensures TypesOK(types) && |ids| < 0x7FFF_FFF0 && (forall a :: a in ids ==> a in queue && Readable(types, h, a))
    ensures forall a :: a in ids[..k] ==> a in queue && Readable(types, h, a)
    ensures forall a :: a in ids[k..] ==> a in queue && Readable(types, h, a)
    ensures k < |ids| ==>
              && ids[k] in queue && ids[k] !in ids[..k] && Writable(types, h, ids[k]) && Readable(types, h, ids[k])
              && SofaNumbered(types, h, ids[k], OtherSofas(types, h, ids[..k]))
              && ids[..k + 1] == ids[..k] + [ids[k]] && ids[k..] == [ids[k]] + ids[k + 1..]
  {
    PrefixWritable(types, h, ids, k);
    if k < |ids| {
      assert ids[k] in ids;
      assert SofaNumberedAt(types, h, ids, k);
    }
  }

  lemma NextStructure(types: Types, h: Heap, ids: seq<nat>, queue: map<nat, seq<nat>>, k: nat)
    requires k < |ids| && ids[k..] == [ids[k]] + ids[k + 1..]
    requires forall a :: a in ids[k..] ==> a in queue && Readable(types, h, a)
    ensures ids[k] in queue && Readable(types, h, ids[k])
    ensures (forall a :: a in ids[k + 1..] ==> a in queue && Readable(types, h, a))
    ensures BodyEvents(types, h, ids[k..], queue)
         == StructureEvents(types, h, ids[k], queue[ids[k]]) + BodyEvents(types, h, ids[k + 1..], queue)
  {
    var rest := ids[k..];
    assert rest[0] == ids[k] && rest[1..] == ids[k + 1..];
    assert rest[0] in rest;
    forall a | a in ids[k + 1..] ensures a in rest {
    }
  }

  /**
   The events of the structures from k on load them behind the others, unless
   one of them is not closed.
   */
  lemma {:induction false} BodyLoads(types: Types, h: Heap, ids: seq<nat>, queue: map<nat, seq<nat>>, r: Reader, k: nat)
    requires IsSource(types, h, ids, queue) && k <= |ids|
    requires TypesOK(types) && (forall a :: a in ids[..k] ==> Readable(types, h, a))
    requires Loaded(types, h, ids[..k], queue, r)
    requires r.state == FsState
    ensures ReaderOK(types, r) && forall a :: a in ids ==> a in queue && Readable(types, h, a)
    ensures forall a :: a in ids[k..] ==> a in queue && Readable(types, h, a)
    ensures var o := Run(types, r, BodyEvents(types, h, ids[k..], queue));
            && (o.Fine? <==> AllClosed(types, h, ids[k..]))
            && (o.Fine? ==> Loaded(types, h, ids, queue, o.reader) && o.reader.state == FsState)
    decreases |ids| - k
  {
    hide *;
    SourceMeans(types, h, ids, queue, k);
    LoadedMeans(types, h, ids[..k], queue, r);
    ReaderReady(types, r);
    if k < |ids| {
      var a := ids[k];
      NextStructure(types, h, ids, queue, k);
      NextClosed(types, h, ids, k);
      WritableMeans(types, h, a);
      var first, rest := StructureEvents(types, h, a, queue[a]), BodyEvents(types, h, ids[k + 1..], queue);
      RunAppend(types, r, first, rest);
      if IsUnclosed(types, h, a) {
        BrokenFails(types, h, a, queue[a], r);
      } else {
        StructureLoads(types, h, a, queue[a], r, AnySofa(types, h, ids[..k]), OtherSofas(types, h, ids[..k]));
        var r1 := Run(types, r, first).reader;
        SourceMeans(types, h, ids, queue, k + 1);
        TookMeans(types, h, a, queue[a], r, r1);
        LoadedOneMore(types, h, ids[..k], queue, a, r, r1);
        BodyLoads(types, h, ids, queue, r1, k + 1);
      }
    } else {
      assert ids[..k] == ids && ids[k..] == [];
      NothingToRun(types, h, queue, r);
    }
  }

  lemma NextClosed(types: Types, h: Heap, ids: seq<nat>, k: nat)
    requires k < |ids| && ids[k..] == [ids[k]] + ids[k + 1..]
    ensures IsStructure(types, h.cells, ids[k]) ==>
              (AllClosed(types, h, ids[k..]) <==> !IsUnclosed(types, h, ids[k]) && AllClosed(types, h, ids[k + 1..]))
  {
    assert ids[k] in ids[k..];
    assert forall a :: a in ids[k..] <==> a == ids[k] || a in ids[k + 1..];
  }

  lemma BrokenFails(types: Types, h: Heap, a: nat, vs: seq<nat>, r: Reader)
    requires Readable(types, h, a) && IsUnclosed(types, h, a) && ReaderOK(types, r)
    ensures Run(types, r, StructureEvents(types, h, a, vs)) == IllFormed
  {
  }

  lemma ReaderReady(types: Types, r: Reader)
    requires HeapOK(r.heap) && r.state == FsState
    ensures ReaderOK(types, r)
  {
  }

  lemma NothingToRun(types: Types, h: Heap, queue: map<nat, seq<nat>>, r: Reader)
    requires ReaderOK(types, r)
    ensures Run(types, r, BodyEvents(types, h, [], queue)) == Fine(r) && AllClosed(types, h, [])
  {
  }
}
