/**
 What writing and reading a CAS as XCAS share: structures as cells of a heap
 whose layout the types give, the references between them, and elements with
 attributes as the events of an XML parser.
 */
module Xcas {
  import FSHeap
  import IndexComparator
  import opened XmiLists

  // ----------------------------------------------------------------- types

  // How a cell is to be read: as a number, the place of a 64-bit number, a string reference, or the address
  // of a structure.
  datatype Kind = Number | Boolean | Byte | Short | Long | Text | Reference

  // Arrays of these have one cell for each element; the elements of others are in the heap of 8, 16 or 64 bits.
  predicate OwnCells(k: Kind) {
    k == Number || k == Text || k == Reference
  }

  datatype Field = Field(name: nat, kind: Kind)

  // A structure has one cell for each feature, an array a size and its elements or the place of the first.
  datatype Shape = Record(fields: seq<Field>) | ArrayOf(kind: Kind)

  // The shapes of types by number, and which of them is the type of Sofas.
  datatype Types = Types(shapes: seq<Shape>, sofa: nat)

  // Base names with a meaning of their own.
  const CONTENT: nat := 0
  const SIZE: nat := 1
  const SOFANUM: nat := 2
  const SOFAID: nat := 3

  predicate DistinctNames(fields: seq<Field>) {
    forall i, j :: 0 <= i < j < |fields| ==> fields[i].name != fields[j].name
  }

  predicate HasField(fields: seq<Field>, f: Field) {
    f in fields
  }

  predicate TypesOK(types: Types) {
    && (forall t :: 0 <= t < |types.shapes| && types.shapes[t].Record? ==> DistinctNames(types.shapes[t].fields))
    && types.sofa < |types.shapes| && types.shapes[types.sofa].Record?
    && HasField(types.shapes[types.sofa].fields, Field(SOFANUM, Number))
    && HasField(types.shapes[types.sofa].fields, Field(SOFAID, Text))
  }

  // ------------------------------------------------------------------ heap

  datatype Heap =
    Heap(cells: seq<nat>, refs: seq<nat>, chars: seq<nat>, bytes: seq<nat>, shorts: seq<nat>, longs: seq<nat>)

  // The cells in front of the features or elements.
  function Base(s: Shape): nat {
    if s.Record? then 1 else if OwnCells(s.kind) then 2 else 3
  }

  // A structure starts at the address.
  predicate IsStructure(types: Types, cells: seq<nat>, a: nat) {
    && 1 <= a < |cells| && cells[a] < |types.shapes|
    && var s := types.shapes[cells[a]];
       if s.Record? then a + 1 + |s.fields| <= |cells|
       else if OwnCells(s.kind) then a + 1 < |cells| && a + 2 + cells[a + 1] <= |cells|
       else a + 3 <= |cells|
  }

  function ShapeAt(types: Types, cells: seq<nat>, a: nat): Shape
    requires IsStructure(types, cells, a)
  {
    types.shapes[cells[a]]
  }

  // The number of features, or of elements with cells of their own.
  function SlotCount(types: Types, cells: seq<nat>, a: nat): (n: nat)
    requires IsStructure(types, cells, a)
    ensures a + Base(ShapeAt(types, cells, a)) + n <= |cells|
  {
    var s := ShapeAt(types, cells, a);
    if s.Record? then |s.fields| else if OwnCells(s.kind) then cells[a + 1] else 0
  }

  function End(types: Types, cells: seq<nat>, a: nat): (e: nat)
    requires IsStructure(types, cells, a)
    ensures a < e <= |cells|
  {
    a + Base(ShapeAt(types, cells, a)) + SlotCount(types, cells, a)
  }

  function KindAt(s: Shape, i: nat): Kind
    requires s.Record? ==> i < |s.fields|
  {
    if s.Record? then s.fields[i].kind else s.kind
  }

  function SlotAt(types: Types, cells: seq<nat>, a: nat, i: nat): (p: nat)
    requires IsStructure(types, cells, a) && i < SlotCount(types, cells, a)
    ensures a < p < End(types, cells, a)
  {
    a + Base(ShapeAt(types, cells, a)) + i
  }

  // The cell is an address.
  predicate IsRefSlot(types: Types, cells: seq<nat>, a: nat, i: int)
    requires IsStructure(types, cells, a)
  {
    0 <= i < SlotCount(types, cells, a) && KindAt(ShapeAt(types, cells, a), i) == Reference
  }

  // ------------------------------------------------------------- references

  // a refers to b.
  ghost predicate Edge(types: Types, cells: seq<nat>, a: nat, b: nat) {
    && b != 0 && IsStructure(types, cells, a)
    && exists i :: IsRefSlot(types, cells, a, i) && cells[SlotAt(types, cells, a, i)] == b
  }

  // The addresses hold structures, and these refer to nothing else.
  ghost predicate IsGraph(types: Types, cells: seq<nat>, nodes: set<nat>) {
    && (forall a :: a in nodes ==> IsStructure(types, cells, a))
    && (forall a, b :: a in nodes && Edge(types, cells, a, b) ==> b in nodes)
  }

  ghost predicate IsPath(types: Types, cells: seq<nat>, p: seq<nat>) {
    p != [] && forall i :: 0 < i < |p| ==> IsStep(types, cells, p, i)
  }

  ghost predicate IsStep(types: Types, cells: seq<nat>, p: seq<nat>, i: int) {
    0 < i < |p| && Edge(types, cells, p[i - 1], p[i])
  }

  ghost predicate Leads(types: Types, cells: seq<nat>, p: seq<nat>, a: nat, b: nat) {
    IsPath(types, cells, p) && p[0] == a && p[|p| - 1] == b
  }

  ghost predicate Reaches(types: Types, cells: seq<nat>, a: nat, b: nat) {
    exists p :: Leads(types, cells, p, a, b)
  }

  lemma ReachesItself(types: Types, cells: seq<nat>, a: nat)
    ensures Reaches(types, cells, a, a)
  {
    assert Leads(types, cells, [a], a, a);
  }

  lemma EdgeThenReaches(types: Types, cells: seq<nat>, a: nat, b: nat, c: nat)
    requires Edge(types, cells, a, b) && Reaches(types, cells, b, c)
    ensures Reaches(types, cells, a, c)
  {
    var p :| Leads(types, cells, p, b, c);
    hide Edge;
    var q := [a] + p;
    forall i | 0 < i < |q| ensures IsStep(types, cells, q, i) {
      assert i > 1 ==> IsStep(types, cells, p, i - 1);
    }
    assert Leads(types, cells, q, a, c);
  }

  /** A set that references do not leave holds all that its elements reach. */
  lemma ClosedContainsReachable(types: Types, cells: seq<nat>, keys: set<nat>, a: nat, b: nat)
    requires (forall x, y :: x in keys && Edge(types, cells, x, y) ==> y in keys) && a in keys
    requires Reaches(types, cells, a, b)
    ensures b in keys
  {
    hide Edge;
    var p :| Leads(types, cells, p, a, b);
    for i := 1 to |p|
      invariant p[i - 1] in keys
    {
      assert IsStep(types, cells, p, i);
    }
  }

  // ---------------------------------------------------------- numbers as text

  function Units(s: string): (u: seq<nat>)
    ensures |u| == |s|
  {
    seq(|s|, i requires 0 <= i < |s| => s[i] as nat)
  }

  // The ASCII characters of a text; others stop a number like any other character that is no digit.
  function Chars(u: seq<nat>): (s: string)
    ensures |s| == |u|
  {
    seq(|u|, i requires 0 <= i < |u| => if u[i] < 128 then u[i] as char else '?')
  }

  function Printed(n: int): seq<nat> {
    Units(Decimal(n))
  }

  function Parsed(u: seq<nat>): int {
    Atoi(Chars(u))
  }

  predicate Ascii(s: string) {
    forall c :: c in s ==> c as nat < 128
  }

  lemma CharsOfUnits(s: string)
    requires Ascii(s)
    ensures Chars(Units(s)) == s
  {
    forall i | 0 <= i < |s| ensures Chars(Units(s))[i] == s[i] {
      assert s[i] in s;
    }
  }

  lemma DecimalIsAscii(n: int)
    ensures Ascii(Decimal(n))
  {
    DecimalDigits(if n < 0 then -n else n);
  }

  /** A number that was written is read back. */
  lemma ParsedOfPrinted(n: int)
    ensures Parsed(Printed(n)) == n && Printed(n) != []
  {
    DecimalIsAscii(n);
    CharsOfUnits(Decimal(n));
    AtoiOfDecimal(n);
  }

  // The value of _indexed: numbers of views with blanks between them.
  function PrintedViews(views: seq<nat>): seq<nat> {
    Units(Join(DecimalWords(views)))
  }

  function DecimalWords(views: seq<nat>): (words: seq<string>)
    ensures |words| == |views| && forall i :: 0 <= i < |views| ==> words[i] == Decimal(views[i])
  {
    seq(|views|, i requires 0 <= i < |views| => Decimal(views[i]))
  }

  function ParsedWords(words: seq<string>): (r: seq<int>)
    ensures |r| == |words| && forall i :: 0 <= i < |words| ==> r[i] == Atoi(words[i])
  {
    seq(|words|, i requires 0 <= i < |words| => Atoi(words[i]))
  }

  // strtok with blanks, and each word as a number.
  function ParsedViews(u: seq<nat>): seq<int> {
    ParsedWords(Words(Chars(u)))
  }

  lemma {:induction false} JoinIsAscii(words: seq<string>)
    requires forall w :: w in words ==> Ascii(w)
    ensures Ascii(Join(words))
  {
    if words != [] {
      assert words[0] in words;
      JoinIsAscii(words[1..]);
    }
  }

  lemma ParsedOfPrintedViews(views: seq<nat>)
    ensures ParsedViews(PrintedViews(views)) == views
  {
    var words := DecimalWords(views);
    forall w | w in words ensures IsWord(w) && Ascii(w) {
      var i :| 0 <= i < |views| && w == Decimal(views[i]);
      DecimalIsAscii(views[i]);
      AtoiOfDecimal(views[i]);
    }
    JoinIsAscii(words);
    CharsOfUnits(Join(words));
    WordsOfJoin(words);
    forall i | 0 <= i < |views| ensures ParsedWords(words)[i] == views[i] {
      AtoiOfDecimal(views[i]);
    }
  }

  // ---------------------------------------------------------------- events

  datatype Tag = CasTag | TypeTag(t: nat) | ItemTag

  // Attribute names; those of features with the prefix for references or without it.
  datatype Name = IdName | IndexedName | FeatureName(name: nat, prefixed: bool)

  datatype Attribute = Attribute(name: Name, value: seq<nat>)

  // What an XML parser reports; Broken stands for text that is not XML.
  datatype Event =
    | StartDocument
    | StartElement(tag: Tag, attributes: seq<Attribute>)
    | Characters(text: seq<nat>)
    | EndElement(tag: Tag)
    | EndDocument
    | Broken

  // -------------------------------------------------- a structure as events

  // The heap with the elements of an array that have no cells of their own.
  function Side(h: Heap, kind: Kind): seq<nat> {
    if kind == Long then h.longs else if kind == Short then h.shorts else h.bytes
  }

  // The elements are there.
  predicate SideFits(types: Types, h: Heap, a: nat)
    requires IsStructure(types, h.cells, a)
  {
    var s := ShapeAt(types, h.cells, a);
    s.ArrayOf? && !OwnCells(s.kind) ==> h.cells[a + 2] + h.cells[a + 1] <= |Side(h, s.kind)|
  }

  // References to strings and to 64-bit numbers lead into their heaps.
  predicate CellReadable(h: Heap, kind: Kind, c: nat) {
    && (kind == Text ==> FSHeap.RefOK(h.refs, h.chars, c))
    && (kind == Long ==> c == 0 || c < |h.longs|)
  }

  ghost predicate Readable(types: Types, h: Heap, a: nat) {
    && IsStructure(types, h.cells, a) && SideFits(types, h, a)
    && forall i :: 0 <= i < SlotCount(types, h.cells, a) ==> SlotReadable(types, h, a, i)
  }

  predicate SlotReadable(types: Types, h: Heap, a: nat, i: int)
    requires IsStructure(types, h.cells, a)
  {
    0 <= i < SlotCount(types, h.cells, a)
    && CellReadable(h, KindAt(ShapeAt(types, h.cells, a), i), h.cells[SlotAt(types, h.cells, a, i)])
  }

  const BITS64: nat := 0x1_0000_0000_0000_0000

  // The number that a cell stands for; a long that was never set reads as 10.
  function CellNumber(h: Heap, kind: Kind, c: nat): int
    requires CellReadable(h, kind, c)
  {
    match kind
    case Number => IntOf(c)
    case Boolean => if c == 1 then 1 else 0
    case Byte => IndexComparator.Signed(c % 0x100, 0x100)
    case Short => IndexComparator.Signed(c % 0x1_0000, 0x1_0000)
    case Long => if c == 0 then 10 else IndexComparator.Signed(h.longs[c], BITS64)
    case _ => c
  }

  // The number that an element of a heap of 8, 16 or 64 bits stands for.
  function SideNumber(kind: Kind, x: nat): int {
    match kind
    case Boolean => if x == 1 then 1 else 0
    case Byte => IndexComparator.Signed(x, 0x100)
    case Short => IndexComparator.Signed(x, 0x1_0000)
    case _ => IndexComparator.Signed(x, BITS64)
  }

  function CellText(h: Heap, kind: Kind, c: nat): seq<nat>
    requires CellReadable(h, kind, c)
  {
    if kind == Text then FSHeap.TextOf(h.refs, h.chars, c) else Printed(CellNumber(h, kind, c))
  }

  // The elements of an array, wherever they are.
  function ElementCount(types: Types, cells: seq<nat>, a: nat): nat
    requires IsStructure(types, cells, a) && ShapeAt(types, cells, a).ArrayOf?
  {
    cells[a + 1]
  }

  // The number of elements, and zero for a structure that is no array.
  function ArraySize(types: Types, cells: seq<nat>, a: nat): nat
    requires IsStructure(types, cells, a)
  {
    if ShapeAt(types, cells, a).ArrayOf? then ElementCount(types, cells, a) else 0
  }

  predicate ElementReadable(types: Types, h: Heap, a: nat, i: nat)
    requires IsStructure(types, h.cells, a) && ShapeAt(types, h.cells, a).ArrayOf?
    requires i < ElementCount(types, h.cells, a)
  {
    var kind := ShapeAt(types, h.cells, a).kind;
    if OwnCells(kind) then CellReadable(h, kind, h.cells[a + 2 + i]) else h.cells[a + 2] + i < |Side(h, kind)|
  }

  function ElementText(types: Types, h: Heap, a: nat, i: nat): seq<nat>
    requires IsStructure(types, h.cells, a) && ShapeAt(types, h.cells, a).ArrayOf?
    requires i < ElementCount(types, h.cells, a)
    requires ElementReadable(types, h, a, i)
  {
    var kind := ShapeAt(types, h.cells, a).kind;
    if OwnCells(kind) then CellText(h, kind, h.cells[a + 2 + i])
    else Printed(SideNumber(kind, Side(h, kind)[h.cells[a + 2] + i]))
  }

  lemma ElementsAreReadable(types: Types, h: Heap, a: nat, i: nat)
    requires Readable(types, h, a) && ShapeAt(types, h.cells, a).ArrayOf? && i < ElementCount(types, h.cells, a)
    ensures ElementReadable(types, h, a, i)
  {
    if OwnCells(ShapeAt(types, h.cells, a).kind) {
      assert SlotReadable(types, h, a, i);
    }
  }

  // A feature: nothing for a string that is not set or a null reference.
  function FeatureAttribute(h: Heap, f: Field, c: nat): seq<Attribute>
    requires CellReadable(h, f.kind, c)
  {
    if (f.kind == Text || f.kind == Reference) && c == 0 then []
    else [Attribute(FeatureName(f.name, f.kind == Reference), CellText(h, f.kind, c))]
  }

  // The features from i on.
  ghost function FeatureAttributes(types: Types, h: Heap, a: nat, i: nat): seq<Attribute>
    requires Readable(types, h, a) && ShapeAt(types, h.cells, a).Record? && i <= SlotCount(types, h.cells, a)
    decreases SlotCount(types, h.cells, a) - i
  {
    if i == SlotCount(types, h.cells, a) then []
    else
      assert SlotReadable(types, h, a, i);
      FeatureAttribute(h, ShapeAt(types, h.cells, a).fields[i], h.cells[SlotAt(types, h.cells, a, i)])
      + FeatureAttributes(types, h, a, i + 1)
  }

  function ItemEvents(text: seq<nat>): seq<Event> {
    [StartElement(ItemTag, [])] + (if text == [] then [] else [Characters(text)]) + [EndElement(ItemTag)]
  }

  // The elements of an array from i on.
  ghost function ItemsFrom(types: Types, h: Heap, a: nat, i: nat): seq<Event>
    requires Readable(types, h, a) && ShapeAt(types, h.cells, a).ArrayOf? && i <= ElementCount(types, h.cells, a)
    decreases ElementCount(types, h.cells, a) - i
  {
    if i == ElementCount(types, h.cells, a) then []
    else
      ElementsAreReadable(types, h, a, i);
      ItemEvents(ElementText(types, h, a, i)) + ItemsFrom(types, h, a, i + 1)
  }

  // An empty array of bytes: its start tag is never ended.
  predicate IsUnclosed(types: Types, h: Heap, a: nat)
    requires IsStructure(types, h.cells, a)
  {
    ShapeAt(types, h.cells, a) == ArrayOf(Byte) && ElementCount(types, h.cells, a) == 0
  }

  function LeadingAttributes(a: nat, views: seq<nat>): seq<Attribute> {
    (if views == [] then [] else [Attribute(IndexedName, PrintedViews(views))]) + [Attribute(IdName, Printed(a))]
  }

  function SizeAttribute(size: nat): Attribute {
    Attribute(FeatureName(SIZE, false), Printed(size))
  }

  // What is reported of a structure.
  ghost function StructureEvents(types: Types, h: Heap, a: nat, views: seq<nat>): seq<Event>
    requires Readable(types, h, a)
  {
    var t := h.cells[a];
    if IsUnclosed(types, h, a) then [Broken]
    else if ShapeAt(types, h.cells, a).Record?
    then [StartElement(TypeTag(t), LeadingAttributes(a, views) + FeatureAttributes(types, h, a, 0)),
          EndElement(TypeTag(t))]
    else [StartElement(TypeTag(t), LeadingAttributes(a, views) + [SizeAttribute(h.cells[a + 1])])]
         + ItemsFrom(types, h, a, 0) + [EndElement(TypeTag(t))]
  }

  // The structures with these addresses, each with its views.
  ghost function BodyEvents(types: Types, h: Heap, ids: seq<nat>, queue: map<nat, seq<nat>>): seq<Event>
    requires forall a :: a in ids ==> a in queue && Readable(types, h, a)
  {
    if ids == [] then []
    else StructureEvents(types, h, ids[0], queue[ids[0]]) + BodyEvents(types, h, ids[1..], queue)
  }
}
