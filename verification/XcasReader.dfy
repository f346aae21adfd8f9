/**
 Reading a CAS from XCAS: a state machine over the events of an XML parser that
 allocates a structure for each element and keeps the number it had when it was
 written, and a second phase that turns numbers into addresses.
 */
module XcasReader {
  import opened Xcas
  import opened XmiLists
  import opened IndexedFSs
  import FSHeap
  import IndexComparator
  import TypeLayout
  import TopologicalSort

  datatype State = DocState | FsState | ContentState | ArrayEleState | ArrayEleContentState

  // What is known of a structure that was read: where it is, and in which views it is indexed.
  datatype Info = Info(addr: nat, views: seq<int>)

  // How numbers of views are renumbered, and the view behind each index repository.
  datatype ViewMap = ViewMap(indexMap: seq<int>, nextIndex: int, repositories: seq<nat>)

  // A call that adds a structure to the indexes of a view.
  datatype Adding = Adding(view: nat, fs: nat)

  // All fields of the handler.
  datatype Reader = Reader(state: State, heap: Heap, currentAddr: nat, arrayPos: nat, buffer: seq<nat>,
                           fsTree: map<nat, Info>, idLess: seq<Info>, views: ViewMap, added: seq<Adding>)

  datatype Outcome = Fine(reader: Reader) | IllFormed

  predicate HeapOK(h: Heap) {
    |h.cells| >= 1 && |h.refs| % 2 == 1 && |h.longs| >= 1
  }

  // ------------------------------------------------------------- cells

  // addString and getStringAsFS
  function WithText(h: Heap, text: seq<nat>): (r: Heap)
    ensures r == h.(refs := r.refs, chars := r.chars) && h.refs <= r.refs && h.chars <= r.chars
  {
    var chars := h.chars + text + [0];
    h.(refs := h.refs + [|h.chars|, FSHeap.StrLen(chars, |h.chars|)], chars := chars)
  }

  function NextRef(h: Heap): nat {
    (|h.refs| + 1) / 2
  }

  // setStringValue: a reference that the feature already has is used again.
  function StoreText(h: Heap, p: nat, text: seq<nat>): (r: Heap)
    requires p < |h.cells|
    ensures |r.cells| == |h.cells| && |r.refs| % 2 == |h.refs| % 2 && |r.longs| >= |h.longs|
  {
    var ref, more := h.cells[p], WithText(h, text);
    if ref == 0 || 2 * ref >= |h.refs| then more.(cells := h.cells[p := NextRef(h)])
    else more.(refs := h.refs[2 * ref - 1 := |h.chars|][2 * ref := FSHeap.StrLen(more.chars, |h.chars|)])
  }

  // A number that is read into a type with a least and a greatest value.
  function Clamped(n: int, least: int, greatest: int): int {
    if n < least then least else if n > greatest then greatest else n
  }

  // What is stored for a value of 8, 16 or 64 bits.
  function SideCell(kind: Kind, text: seq<nat>): nat {
    match kind
    case Boolean => if text == Printed(1) then 1 else 0
    case Byte => Parsed(text) % 0x100
    case Short => Clamped(Parsed(text), -0x8000, 0x7FFF) % 0x1_0000
    case _ => Clamped(Parsed(text), -0x8000_0000_0000_0000, 0x7FFF_FFFF_FFFF_FFFF) % BITS64
  }

  // addLong takes eight cells for a number, of which it uses the first.
  function WithLong(h: Heap, text: seq<nat>): (r: Heap)
    ensures r == h.(longs := r.longs) && h.longs <= r.longs && |r.longs| == |h.longs| + 8
  {
    h.(longs := h.longs + [SideCell(Long, text)] + TypeLayout.Zeros(7))
  }

  // What is stored in the cell of a number; false is 2.
  function NumberCell(kind: Kind, text: seq<nat>): nat {
    match kind
    case Boolean => if text == Printed(1) then 1 else 2
    case Byte => IntCell(IndexComparator.Signed(Parsed(text) % 0x100, 0x100))
    case Short => IntCell(Clamped(Parsed(text), -0x8000, 0x7FFF))
    case _ => IntCell(Parsed(text))
  }

  function StoreValue(h: Heap, kind: Kind, p: nat, text: seq<nat>): (r: Heap)
    requires p < |h.cells|
    ensures |r.cells| == |h.cells| && |r.refs| % 2 == |h.refs| % 2 && |r.longs| >= |h.longs|
  {
    match kind
    case Text => StoreText(h, p, text)
    case Long => WithLong(h, text).(cells := h.cells[p := |h.longs|])
    case _ => h.(cells := h.cells[p := NumberCell(kind, text)])
  }

  // getFeatureByBaseName: the place of the feature, or the number of features.
  function FieldIndex(fields: seq<Field>, name: nat): (i: nat)
    ensures i <= |fields| && (i < |fields| ==> fields[i].name == name)
    ensures forall j :: 0 <= j < i ==> fields[j].name != name
  {
    if fields == [] || fields[0].name == name then 0 else 1 + FieldIndex(fields[1..], name)
  }

  // The number of a Sofa as it is to be, when its name is read.
  function RenumberSofa(types: Types, views: ViewMap, h: Heap, addr: nat): (r: Heap)
    requires IsStructure(types, h.cells, addr) && ShapeAt(types, h.cells, addr).Record?
    ensures |r.cells| == |h.cells| && r == h.(cells := r.cells)
    ensures IsStructure(types, r.cells, addr) && ShapeAt(types, r.cells, addr) == ShapeAt(types, h.cells, addr)
  {
    var fields := ShapeAt(types, h.cells, addr).fields;
    var i := FieldIndex(fields, SOFANUM);
    if i < |fields| && h.cells[addr + 1 + i] < |views.indexMap|
    then h.(cells := h.cells[addr + 1 + i := IntCell(views.indexMap[h.cells[addr + 1 + i]])])
    else h
  }

  // handleFeature
  function SetFeature(types: Types, views: ViewMap, h: Heap, addr: nat, name: nat, text: seq<nat>): (r: Heap)
    ensures |r.cells| == |h.cells| && |r.refs| % 2 == |h.refs| % 2 && |r.longs| >= |h.longs|
  {
    if !IsStructure(types, h.cells, addr) || ShapeAt(types, h.cells, addr).ArrayOf? then h
    else
      var fields := ShapeAt(types, h.cells, addr).fields;
      var h' := if name == SOFAID && h.cells[addr] == types.sofa then RenumberSofa(types, views, h, addr) else h;
      var i := FieldIndex(fields, name);
      if i == |fields| || text == [] then h' else StoreValue(h', fields[i].kind, addr + 1 + i, text)
  }

  // ------------------------------------------------------------ structures

  // What the attributes of an element give.
  datatype Partial = Partial(heap: Heap, id: int, views: seq<int>)

  function ReadAttribute(types: Types, views: ViewMap, addr: nat, p: Partial, a: Attribute): Partial {
    match a.name
    case IdName => p.(id := Parsed(a.value))
    case IndexedName => p.(views := p.views + ParsedViews(a.value))
    case FeatureName(name, _) => p.(heap := SetFeature(types, views, p.heap, addr, name, a.value))
  }

  function ReadAttributes(types: Types, views: ViewMap, addr: nat, p: Partial, attributes: seq<Attribute>): (r: Partial)
    ensures HeapOK(p.heap) ==> HeapOK(r.heap)
    ensures |r.heap.cells| == |p.heap.cells|
    decreases |attributes|
  {
    if attributes == [] then p
    else ReadAttributes(types, views, addr, ReadAttribute(types, views, addr, p, attributes[0]), attributes[1..])
  }

  // The value of the first attribute of this name.
  function AttributeValue(attributes: seq<Attribute>, name: Name): seq<nat> {
    if attributes == [] then []
    else if attributes[0].name == name then attributes[0].value
    else AttributeValue(attributes[1..], name)
  }

  // The name of the Sofa of the initial view.
  const INITIAL := Units("_InitialView")

  // Room for the initial view is kept at 1, whether or not its Sofa comes first.
  function MapSofa(v: ViewMap, sofaNum: int, isInitialView: bool): ViewMap {
    if |v.indexMap| == 1 then
      if isInitialView then
        if sofaNum == 2 then v.(indexMap := v.indexMap + [-1, 1], nextIndex := 2)
        else v.(indexMap := v.indexMap + [1], nextIndex := 2)
      else if sofaNum > 1 then v.(indexMap := v.indexMap + [1, 2], nextIndex := 3)
      else v.(indexMap := v.indexMap + [2], nextIndex := 3)
    else if isInitialView then
      if |v.indexMap| == sofaNum then v.(indexMap := v.indexMap + [1]) else v
    else v.(indexMap := v.indexMap + [v.nextIndex], nextIndex := v.nextIndex + 1)
  }

  // The view of a Sofa gets a repository, unless it is the initial view, which has one from the beginning.
  function RegisterView(v: ViewMap, sofaNum: nat): ViewMap {
    if sofaNum == 1 then v else v.(repositories := v.repositories + [sofaNum])
  }

  function SofaNumAt(types: Types, cells: seq<nat>, addr: nat): nat {
    if IsStructure(types, cells, addr) && ShapeAt(types, cells, addr).Record? then
      var fields := ShapeAt(types, cells, addr).fields;
      var i := FieldIndex(fields, SOFANUM);
      if i < |fields| then cells[addr + 1 + i] else 0
    else 0
  }

  function Created(types: Types, h: Heap, t: nat): (r: Heap)
    requires t < |types.shapes| && types.shapes[t].Record? && HeapOK(h)
    ensures h.cells <= r.cells && r == h.(cells := r.cells)
    ensures IsStructure(types, r.cells, |h.cells|)
  {
    h.(cells := h.cells + [t] + TypeLayout.Zeros(|types.shapes[t].fields|))
  }

  function WithInfo(r: Reader, id: int, info: Info): Reader {
    if id < 0 then r.(idLess := r.idLess + [info]) else r.(fsTree := r.fsTree[id := info])
  }

  // readFS
  function ReadRecord(types: Types, r: Reader, t: nat, attributes: seq<Attribute>): Reader
    requires t < |types.shapes| && types.shapes[t].Record? && HeapOK(r.heap)
  {
    var addr, h := |r.heap.cells|, Created(types, r.heap, t);
    var isSofa := t == types.sofa;
    var views :=
      if isSofa
      then MapSofa(r.views, Parsed(AttributeValue(attributes, FeatureName(SOFANUM, false))),
                   AttributeValue(attributes, FeatureName(SOFAID, false)) == INITIAL)
      else r.views;
    var p := ReadAttributes(types, views, addr, Partial(h, -1, []), attributes);
    var r' := r.(state := ContentState, heap := p.heap, currentAddr := addr,
                 views := if isSofa then RegisterView(views, SofaNumAt(types, p.heap.cells, addr)) else views,
                 added := if isSofa then r.added + [Adding(0, addr)] else r.added);
    WithInfo(r', p.id, Info(addr, p.views))
  }

  datatype ArrayPartial = ArrayPartial(id: int, size: int, views: seq<int>) | BadAttribute

  function ReadArrayAttribute(p: ArrayPartial, a: Attribute): ArrayPartial {
    if p.BadAttribute? then p
    else
      match a.name
      case IdName => p.(id := Parsed(a.value))
      case IndexedName => p.(views := p.views + ParsedViews(a.value))
      case FeatureName(name, prefixed) =>
        if name == SIZE && !prefixed then p.(size := Parsed(a.value)) else BadAttribute
  }

  function ReadArrayAttributes(p: ArrayPartial, attributes: seq<Attribute>): ArrayPartial
    decreases |attributes|
  {
    if attributes == [] then p else ReadArrayAttributes(ReadArrayAttribute(p, attributes[0]), attributes[1..])
  }

  // createArrayFS: the elements behind the size, or in the heap for their width.
  function WithArray(types: Types, h: Heap, t: nat, size: nat): Heap
    requires t < |types.shapes| && types.shapes[t].ArrayOf?
  {
    var kind, zeros := types.shapes[t].kind, TypeLayout.Zeros(size);
    if OwnCells(kind) then h.(cells := h.cells + [t, size] + zeros)
    else
      var h' := h.(cells := h.cells + [t, size, |Side(h, kind)|]);
      SetSide(h', kind, Side(h, kind) + zeros)
  }

  function SetSide(h: Heap, kind: Kind, side: seq<nat>): Heap {
    if kind == Long then h.(longs := side) else if kind == Short then h.(shorts := side) else h.(bytes := side)
  }

  // readArray; an array of negative size cannot be allocated.
  function ReadArray(types: Types, r: Reader, t: nat, attributes: seq<Attribute>): Outcome
    requires t < |types.shapes| && types.shapes[t].ArrayOf? && HeapOK(r.heap)
  {
    var p := ReadArrayAttributes(ArrayPartial(-1, 0, []), attributes);
    if p.BadAttribute? || p.size < 0 then IllFormed
    else
      var addr := |r.heap.cells|;
      Fine(WithInfo(r.(state := ArrayEleState, heap := WithArray(types, r.heap, t, p.size), currentAddr := addr,
                       arrayPos := 0), p.id, Info(addr, p.views)))
  }

  // addArrayElement; every string gets a new reference.
  function AddElement(types: Types, r: Reader): Outcome
    requires CurrentIsArray(types, r)
  {
    if r.arrayPos >= ElementCount(types, r.heap.cells, r.currentAddr) then IllFormed
    else Fine(r.(state := ArrayEleState, heap := StoreElement(types, r.heap, r.currentAddr, r.arrayPos, r.buffer),
                 arrayPos := r.arrayPos + 1))
  }

  function StoreElement(types: Types, h: Heap, a: nat, pos: nat, text: seq<nat>): Heap
    requires IsStructure(types, h.cells, a) && ShapeAt(types, h.cells, a).ArrayOf? && SideFits(types, h, a)
    requires pos < ElementCount(types, h.cells, a)
  {
    var kind := ShapeAt(types, h.cells, a).kind;
    if kind == Text then WithText(h, text).(cells := h.cells[a + 2 + pos := NextRef(h)])
    else if OwnCells(kind) then h.(cells := h.cells[a + 2 + pos := NumberCell(kind, text)])
    else SetSide(h, kind, Side(h, kind)[h.cells[a + 2] + pos := SideCell(kind, text)])
  }

  predicate CurrentIsArray(types: Types, r: Reader) {
    && IsStructure(types, r.heap.cells, r.currentAddr) && ShapeAt(types, r.heap.cells, r.currentAddr).ArrayOf?
    && SideFits(types, r.heap, r.currentAddr)
  }

  // ---------------------------------------------------------------- events

  predicate ReaderOK(types: Types, r: Reader) {
    HeapOK(r.heap) && (r.state == ArrayEleState || r.state == ArrayEleContentState ==> CurrentIsArray(types, r))
  }

  function OnStart(types: Types, r: Reader, tag: Tag, attributes: seq<Attribute>): Outcome
    requires ReaderOK(types, r)
  {
    var r := r.(buffer := []);
    match r.state
    case DocState => if tag == CasTag then Fine(r.(state := FsState)) else IllFormed
    case FsState =>
      if tag.TypeTag? && tag.t < |types.shapes| then
        if types.shapes[tag.t].ArrayOf? then ReadArray(types, r, tag.t, attributes)
        else Fine(ReadRecord(types, r, tag.t, attributes))
      else Fine(r.(state := ContentState))
    case ArrayEleState =>
      if tag == ItemTag && attributes == [] then Fine(r.(state := ArrayEleContentState)) else IllFormed
    case _ => IllFormed
  }

  function OnCharacters(r: Reader, text: seq<nat>): Reader {
    if r.state == ContentState || r.state == ArrayEleContentState then r.(buffer := r.buffer + text) else r
  }

  function OnEnd(types: Types, r: Reader): Outcome
    requires ReaderOK(types, r)
  {
    match r.state
    case DocState => Fine(r)
    case FsState => Fine(r.(state := DocState))
    case ContentState =>
      Fine(r.(state := FsState, heap := SetFeature(types, r.views, r.heap, r.currentAddr, CONTENT, r.buffer)))
    case ArrayEleContentState => AddElement(types, r)
    case ArrayEleState => Fine(r.(state := FsState))
  }

  // One event of the parser; what the end of the document does comes afterwards.
  function OnEvent(types: Types, r: Reader, e: Event): Outcome
    requires ReaderOK(types, r)
  {
    match e
    case StartDocument => Fine(r.(state := DocState))
    case StartElement(tag, attributes) => OnStart(types, r, tag, attributes)
    case Characters(text) => Fine(OnCharacters(r, text))
    case EndElement(_) => OnEnd(types, r)
    case EndDocument => Fine(r)
    case Broken => IllFormed
  }

  lemma ArrayKeepsOK(types: Types, r: Reader, t: nat, attributes: seq<Attribute>)
    requires HeapOK(r.heap) && t < |types.shapes| && types.shapes[t].ArrayOf?
    ensures var o := ReadArray(types, r, t, attributes); o.Fine? ==> ReaderOK(types, o.reader)
  {
    hide ReadArrayAttributes;
  }

  lemma RecordKeepsOK(types: Types, r: Reader, t: nat, attributes: seq<Attribute>)
    requires HeapOK(r.heap) && t < |types.shapes| && types.shapes[t].Record?
    ensures ReaderOK(types, ReadRecord(types, r, t, attributes))
  {
    hide ReadAttributes;
  }

  lemma ElementKeepsOK(types: Types, r: Reader)
    requires ReaderOK(types, r) && CurrentIsArray(types, r)
    ensures var o := AddElement(types, r); o.Fine? ==> ReaderOK(types, o.reader)
  {
  }

  lemma EventKeepsOK(types: Types, r: Reader, e: Event)
    requires ReaderOK(types, r)
    ensures var o := OnEvent(types, r, e); o.Fine? ==> ReaderOK(types, o.reader)
  {
    var r0 := r.(buffer := []);
    hide ReadRecord, ReadArray, AddElement, SetFeature;
    match e
    case StartElement(tag, attributes) =>
      if r.state == FsState && tag.TypeTag? && tag.t < |types.shapes| {
        if types.shapes[tag.t].ArrayOf? {
          ArrayKeepsOK(types, r0, tag.t, attributes);
        } else {
          RecordKeepsOK(types, r0, tag.t, attributes);
        }
      }
    case EndElement(_) =>
      if r.state == ArrayEleContentState {
        ElementKeepsOK(types, r);
      }
    case _ =>
  }

  /** All events in order, up to the first that is not well-formed. */
  function Run(types: Types, r: Reader, events: seq<Event>): (o: Outcome)
    requires ReaderOK(types, r)
    ensures o.Fine? ==> ReaderOK(types, o.reader)
    decreases |events|
  {
    if events == [] then Fine(r)
    else
      EventKeepsOK(types, r, events[0]);
      var o := OnEvent(types, r, events[0]);
      if o.Fine? then Run(types, o.reader, events[1..]) else IllFormed
  }

  lemma {:induction false} RunAppend(types: Types, r: Reader, a: seq<Event>, b: seq<Event>)
    requires ReaderOK(types, r)
    ensures Run(types, r, a + b) == var o := Run(types, r, a); if o.Fine? then Run(types, o.reader, b) else IllFormed
    decreases |a|
  {
    if a == [] {
      assert a + b == b;
    } else {
      EventKeepsOK(types, r, a[0]);
      var o := OnEvent(types, r, a[0]);
      assert (a + b)[1..] == a[1..] + b;
      if o.Fine? {
        RunAppend(types, o.reader, a[1..], b);
      }
    }
  }

  // ------------------------------------------------------ the second phase

  // An address cell of the structure at a.
  predicate IsRefCell(types: Types, cells: seq<nat>, a: nat, p: nat) {
    IsStructure(types, cells, a) && IsRefSlot(types, cells, a, p - a - Base(ShapeAt(types, cells, a)))
  }

  // A number is replaced by the address of the structure that had it; others stay.
  function Resolve(fsTree: map<nat, Info>, c: nat): nat {
    if c in fsTree then fsTree[c].addr else c
  }

  // The cells after the references of the structures were replaced.
  ghost predicate Resolved(types: Types, fsTree: map<nat, Info>, infos: seq<Info>, cells: seq<nat>, cells': seq<nat>) {
    |cells'| == |cells| && forall p :: 0 <= p < |cells| ==> CellResolved(types, fsTree, infos, cells, cells', p)
  }

  ghost predicate CellResolved(types: Types, fsTree: map<nat, Info>, infos: seq<Info>, cells: seq<nat>,
                               cells': seq<nat>, p: nat)
    requires p < |cells| == |cells'|
  {
    cells'[p] == if InSome(types, infos, cells, p) then Resolve(fsTree, cells[p]) else cells[p]
  }

  ghost predicate InSome(types: Types, infos: seq<Info>, cells: seq<nat>, p: nat) {
    exists k :: 0 <= k < |infos| && IsRefCell(types, cells, infos[k].addr, p)
  }

  predicate ViewInRange(views: ViewMap, v: int) {
    var k := if |views.indexMap| == 1 then v else if 0 <= v < |views.indexMap| then views.indexMap[v] else -1;
    0 <= k < |views.repositories|
  }

  function RepositoryOf(views: ViewMap, v: int): nat
    requires ViewInRange(views, v)
  {
    views.repositories[if |views.indexMap| == 1 then v else views.indexMap[v]]
  }

  predicate AllInRange(views: ViewMap, vs: seq<int>) {
    forall i :: 0 <= i < |vs| ==> ViewInRange(views, vs[i])
  }

  // The calls that add one structure.
  function AddingsFor(views: ViewMap, info: Info): (r: seq<Adding>)
    requires AllInRange(views, info.views)
    ensures |r| == |info.views|
    ensures forall i :: 0 <= i < |r| ==> r[i] == Adding(RepositoryOf(views, info.views[i]), info.addr)
  {
    seq(|info.views|, i requires 0 <= i < |info.views| => Adding(RepositoryOf(views, info.views[i]), info.addr))
  }

  function Addings(views: ViewMap, infos: seq<Info>): seq<Adding>
    requires forall k :: 0 <= k < |infos| ==> AllInRange(views, infos[k].views)
  {
    if infos == [] then [] else Addings(views, infos[..|infos| - 1]) + AddingsFor(views, infos[|infos| - 1])
  }

  // What is known of all structures, in the order in which they are finished: by number, and then those without one.
  ghost function Infos(r: Reader): (infos: seq<Info>)
    ensures |infos| == |Ascending(r.fsTree.Keys)| + |r.idLess|
  {
    var ids := Ascending(r.fsTree.Keys);
    seq(|ids|, k requires 0 <= k < |ids| => assert ids[k] in ids; r.fsTree[ids[k]]) + r.idLess
  }

  // The structures are there, share no cell, and name views that exist.
  ghost predicate CanFinish(types: Types, r: Reader) {
    && (forall k :: 0 <= k < |Infos(r)| ==>
          IsStructure(types, r.heap.cells, Infos(r)[k].addr) && AllInRange(r.views, Infos(r)[k].views))
    && (forall k, l :: 0 <= k < l < |Infos(r)| ==>
          NoSharedCell(types, r.heap.cells, Infos(r)[k].addr, Infos(r)[l].addr))
  }

  predicate NoSharedCell(types: Types, cells: seq<nat>, a: nat, b: nat) {
    && IsStructure(types, cells, a) && IsStructure(types, cells, b)
    && (End(types, cells, a) <= b || End(types, cells, b) <= a)
  }

  // The first n structures are finished.
  ghost predicate FinishedUpTo(types: Types, r: Reader, n: nat, heap: Heap, added: seq<Adding>)
    requires CanFinish(types, r)
  {
    && n <= |Infos(r)| && heap == r.heap.(cells := heap.cells)
    && Resolved(types, r.fsTree, Infos(r)[..n], r.heap.cells, heap.cells)
    && added == r.added + Addings(r.views, Infos(r)[..n])
  }

  // One structure of which no cell was replaced before is finished.
  lemma ResolvedOneMore(types: Types, fsTree: map<nat, Info>, infos: seq<Info>, info: Info,
                        cells: seq<nat>, cells1: seq<nat>, cells2: seq<nat>)
    requires IsStructure(types, cells, info.addr) && Resolved(types, fsTree, infos, cells, cells1)
    requires forall k :: 0 <= k < |infos| ==> NoSharedCell(types, cells, infos[k].addr, info.addr)
    requires IsStructure(types, cells1, info.addr) && Resolved(types, fsTree, [info], cells1, cells2)
    ensures Resolved(types, fsTree, infos + [info], cells, cells2)
  {
    var all := infos + [info];
    SameStructure(types, fsTree, infos, info.addr, cells, cells1);
    forall p | 0 <= p < |cells| ensures CellResolved(types, fsTree, all, cells, cells2, p) {
      assert CellResolved(types, fsTree, infos, cells, cells1, p);
      assert CellResolved(types, fsTree, [info], cells1, cells2, p);
      InSomeOneMore(types, infos, info, cells, p);
      OnlyOne(types, info, cells1, p);
      if IsRefCell(types, cells, info.addr, p) {
        NotInOthers(types, infos, info.addr, cells, p);
      }
    }
  }

  lemma InSomeOneMore(types: Types, infos: seq<Info>, info: Info, cells: seq<nat>, p: nat)
    ensures InSome(types, infos + [info], cells, p)
       <==> InSome(types, infos, cells, p) || IsRefCell(types, cells, info.addr, p)
  {
    var all := infos + [info];
    hide IsRefCell;
    assert all[|infos|] == info;
    if k :| 0 <= k < |infos| && IsRefCell(types, cells, infos[k].addr, p) {
      assert IsRefCell(types, cells, all[k].addr, p);
    }
  }

  lemma OnlyOne(types: Types, info: Info, cells: seq<nat>, p: nat)
    ensures InSome(types, [info], cells, p) <==> IsRefCell(types, cells, info.addr, p)
  {
    hide IsRefCell;
    assert [info][0] == info;
  }

  lemma NotInOthers(types: Types, infos: seq<Info>, a: nat, cells: seq<nat>, p: nat)
    requires IsStructure(types, cells, a) && a <= p < End(types, cells, a)
    requires forall k :: 0 <= k < |infos| ==> NoSharedCell(types, cells, infos[k].addr, a)
    ensures !InSome(types, infos, cells, p)
  {
    forall k | 0 <= k < |infos| ensures !IsRefCell(types, cells, infos[k].addr, p) {
      assert NoSharedCell(types, cells, infos[k].addr, a);
    }
  }

  // A structure none of whose cells was replaced is still the same.
  lemma SameStructure(types: Types, fsTree: map<nat, Info>, infos: seq<Info>, a: nat, cells: seq<nat>, cells1: seq<nat>)
    requires IsStructure(types, cells, a) && Resolved(types, fsTree, infos, cells, cells1)
    requires forall k :: 0 <= k < |infos| ==> NoSharedCell(types, cells, infos[k].addr, a)
    ensures IsStructure(types, cells1, a) && End(types, cells1, a) == End(types, cells, a)
    ensures forall p :: a <= p < End(types, cells, a) ==> cells1[p] == cells[p]
    ensures forall p :: IsRefCell(types, cells1, a, p) <==> IsRefCell(types, cells, a, p)
  {
    forall p | a <= p < End(types, cells, a) ensures cells1[p] == cells[p] {
      NotInOthers(types, infos, a, cells, p);
      assert CellResolved(types, fsTree, infos, cells, cells1, p);
    }
  }

  class XCASDeserializerHandler {
    const types: Types
    var state: State
    var heap: Heap
    var currentAddr: nat
    var arrayPos: nat
    var buffer: seq<nat>
    var fsTree: map<nat, Info>
    // the keys that lookups have entered into fsTree with a null pointer
    var nulls: set<nat>
    var idLess: seq<Info>
    var views: ViewMap
    // the structures that were added to the indexes of the views, in order
    var added: seq<Adding>

    ghost function Value(): Reader
      reads this
    {
      Reader(state, heap, currentAddr, arrayPos, buffer, fsTree, idLess, views, added)
    }

    ghost predicate Valid()
      reads this
    {
      ReaderOK(types, Value())
    }

    // A handler for a CAS with this heap; the base CAS and the initial view have indexes.
    constructor (types: Types, heap: Heap)
      requires HeapOK(heap)
      ensures Valid() && this.types == types && nulls == {}
      ensures Value() == Reader(DocState, heap, 0, 0, [], map[], [], ViewMap([0], 0, [0, 1]), [])
    {
      this.types, this.heap, state, currentAddr, arrayPos, buffer := types, heap, DocState, 0, 0, [];
      fsTree, nulls, idLess, views, added := map[], {}, [], ViewMap([0], 0, [0, 1]), [];
    }

    /** handleFeature: a feature that the type does not have is skipped, and so is one without a value. */
    method HandleFeature(addr: nat, name: nat, text: seq<nat>)
      modifies `heap
      ensures heap == SetFeature(types, views, old(heap), addr, name, text)
    {
      hide StoreValue, RenumberSofa;
      if !IsStructure(types, heap.cells, addr) || ShapeAt(types, heap.cells, addr).ArrayOf? {
        return;
      }
      var fields := ShapeAt(types, heap.cells, addr).fields;
      if name == SOFAID && heap.cells[addr] == types.sofa {
        heap := RenumberSofa(types, views, heap, addr);
      }
      var i := FieldIndex(fields, name);
      if i < |fields| && text != [] {
        heap := StoreValue(heap, fields[i].kind, addr + 1 + i, text);
      }
    }

    // Looks up what is needed of a Sofa before its features are read.
    method NoteSofa(attributes: seq<Attribute>)
      modifies `views
      ensures views == MapSofa(old(views), Parsed(AttributeValue(attributes, FeatureName(SOFANUM, false))),
                               AttributeValue(attributes, FeatureName(SOFAID, false)) == INITIAL)
    {
      var sofaNum := Parsed(AttributeValue(attributes, FeatureName(SOFANUM, false)));
      var isInitialView := AttributeValue(attributes, FeatureName(SOFAID, false)) == INITIAL;
      views := MapSofa(views, sofaNum, isInitialView);
    }

    /** readFS: creates the structure, and reads its features, its number and its views. */
    method ReadFS(t: nat, attributes: seq<Attribute>)
      requires t < |types.shapes| && types.shapes[t].Record? && HeapOK(heap)
      modifies `state, `heap, `currentAddr, `views, `added, `fsTree, `idLess
      ensures Value() == ReadRecord(types, old(Value()), t, attributes)
    {
      hide SetFeature, MapSofa, AttributeValue, Created, ReadAttributes, SofaNumAt, ParsedViews, Parsed;
      var addr := |heap.cells|;
      heap := Created(types, heap, t);
      currentAddr := addr;
      var isSofa := t == types.sofa;
      if isSofa {
        NoteSofa(attributes);
      }
      var id, sofaRef := -1, [];
      ghost var p0 := Partial(heap, -1, []);
      for i := 0 to |attributes|
        modifies `heap
        invariant ReadAttributes(types, views, addr, Partial(heap, id, sofaRef), attributes[i..])
               == ReadAttributes(types, views, addr, p0, attributes[0..])
      {
        NextAttribute(types, views, addr, Partial(heap, id, sofaRef), attributes, i);
        var value := attributes[i].value;
        match attributes[i].name
        case IdName => id := Parsed(value);
        case IndexedName => sofaRef := sofaRef + ParsedViews(value);
        case FeatureName(name, _) => HandleFeature(addr, name, value);
      }
      assert attributes[0..] == attributes;
      NoMoreAttributes(types, views, addr, Partial(heap, id, sofaRef), attributes);
      if isSofa {
        views := RegisterView(views, SofaNumAt(types, heap.cells, addr));
        added := added + [Adding(0, addr)];
      }
      EnterInfo(id, Info(addr, sofaRef));
      state := ContentState;
    }

    method EnterInfo(id: int, info: Info)
      modifies `fsTree, `idLess
      ensures Value() == WithInfo(old(Value()), id, info)
    {
      if id < 0 {
        idLess := idLess + [info];
      } else {
        fsTree := fsTree[id := info];
      }
    }

    /** readArray: no attributes but those of an array are allowed. */
    method ReadArrayFS(t: nat, attributes: seq<Attribute>) returns (ok: bool)
      requires t < |types.shapes| && types.shapes[t].ArrayOf? && HeapOK(heap)
      modifies `state, `heap, `currentAddr, `arrayPos, `fsTree, `idLess
      ensures var o := ReadArray(types, old(Value()), t, attributes); ok == o.Fine? && (ok ==> Value() == o.reader)
    {
      hide ReadArrayAttributes, WithArray, ParsedViews, Parsed;
      var id, size, indexRep := -1, 0, [];
      for i := 0 to |attributes|
        invariant Value() == old(Value())
        invariant ReadArrayAttributes(ArrayPartial(id, size, indexRep), attributes[i..])
               == ReadArrayAttributes(ArrayPartial(-1, 0, []), attributes[0..])
      {
        NextArrayAttribute(ArrayPartial(id, size, indexRep), attributes, i);
        var value := attributes[i].value;
        match attributes[i].name
        case IdName => id := Parsed(value);
        case IndexedName => indexRep := indexRep + ParsedViews(value);
        case FeatureName(name, prefixed) =>
          if name != SIZE || prefixed {
            assert attributes[0..] == attributes;
            return false;
          }
          size := Parsed(value);
      }
      assert attributes[0..] == attributes;
      NoMoreArrayAttributes(ArrayPartial(id, size, indexRep), attributes);
      if size < 0 {
        return false;
      }
      currentAddr := |heap.cells|;
      heap := WithArray(types, heap, t, size);
      arrayPos := 0;
      state := ArrayEleState;
      EnterInfo(id, Info(currentAddr, indexRep));
      ok := true;
    }

    /** addArrayElement: fails when the array has no more room. */
    method AddArrayElement() returns (ok: bool)
      requires CurrentIsArray(types, Value())
      modifies `state, `heap, `arrayPos
      ensures var o := AddElement(types, old(Value())); ok == o.Fine? && (ok ==> Value() == o.reader)
    {
      if arrayPos >= heap.cells[currentAddr + 1] {
        return false;
      }
      heap := StoreElement(types, heap, currentAddr, arrayPos, buffer);
      arrayPos := arrayPos + 1;
      state := ArrayEleState;
      ok := true;
    }

    /** startElement */
    method StartElement(tag: Tag, attributes: seq<Attribute>) returns (ok: bool)
      requires Valid()
      modifies `state, `buffer, `heap, `currentAddr, `arrayPos, `views, `added, `fsTree, `idLess
      ensures var o := OnStart(types, old(Value()), tag, attributes);
              ok == o.Fine? && (ok ==> Value() == o.reader && Valid())
    {
      EventKeepsOK(types, Value(), Event.StartElement(tag, attributes));
      buffer := [];
      ok := true;
      match state
      case DocState =>
        if tag != CasTag {
          return false;
        }
        state := FsState;
      case FsState =>
        if !tag.TypeTag? || tag.t >= |types.shapes| {
          state := ContentState;
        } else if types.shapes[tag.t].ArrayOf? {
          ok := ReadArrayFS(tag.t, attributes);
        } else {
          ReadFS(tag.t, attributes);
        }
      case ArrayEleState =>
        if tag != ItemTag || attributes != [] {
          return false;
        }
        state := ArrayEleContentState;
      case _ =>
        ok := false;
    }

    /** endElement */
    method EndElement(tag: Tag) returns (ok: bool)
      requires Valid()
      modifies `state, `heap, `arrayPos
      ensures var o := OnEnd(types, old(Value())); ok == o.Fine? && (ok ==> Value() == o.reader && Valid())
    {
      EventKeepsOK(types, Value(), Event.EndElement(tag));
      ok := true;
      match state
      case DocState =>
      case FsState =>
        state := DocState;
      case ContentState =>
        HandleFeature(currentAddr, CONTENT, buffer);
        state := FsState;
      case ArrayEleContentState =>
        ok := AddArrayElement();
      case ArrayEleState =>
        state := FsState;
    }

    // One event of the parser.
    method Report(e: Event) returns (ok: bool)
      requires Valid()
      modifies `state, `buffer, `heap, `currentAddr, `arrayPos, `views, `added, `fsTree, `idLess
      ensures var o := OnEvent(types, old(Value()), e); ok == o.Fine? && (ok ==> Value() == o.reader && Valid())
    {
      hide OnStart, OnEnd, ReaderOK;
      EventKeepsOK(types, Value(), e);
      ok := true;
      match e
      case StartDocument => state := DocState;
      case StartElement(tag, attributes) => ok := StartElement(tag, attributes);
      case Characters(text) =>
        if state == ContentState || state == ArrayEleContentState {
          buffer := buffer + text;
        }
      case EndElement(tag) => ok := EndElement(tag);
      case EndDocument =>
      case Broken => ok := false;
    }

    /** The events in order, up to the first error. */
    method Parse(events: seq<Event>) returns (ok: bool)
      requires Valid()
      modifies `state, `buffer, `heap, `currentAddr, `arrayPos, `views, `added, `fsTree, `idLess
      ensures var o := Run(types, old(Value()), events); ok == o.Fine? && (ok ==> Value() == o.reader && Valid())
    {
      hide OnEvent, Run, ReaderOK;
      ok := true;
      for i := 0 to |events|
        invariant Valid() && Run(types, Value(), events[i..]) == Run(types, old(Value()), events[0..])
      {
        NextEvent(types, Value(), events, i);
        ok := Report(events[i]);
        if !ok {
          assert events[0..] == events;
          return;
        }
      }
      assert events[0..] == events;
      NoMoreEvents(types, Value(), events);
    }

    // The calls that add one structure to the indexes of its views.
    method AddToViews(info: Info)
      requires AllInRange(views, info.views)
      modifies `added
      ensures added == old(added) + AddingsFor(views, info)
    {
      ghost var all := AddingsFor(views, info);
      for i := 0 to |info.views|
        invariant added == old(added) + all[..i]
      {
        assert ViewInRange(views, info.views[i]);
        added := added + [Adding(RepositoryOf(views, info.views[i]), info.addr)];
        assert all[..i + 1] == all[..i] + [all[i]];
      }
      assert all[..|all|] == all;
    }

    /**
     finalizeFS and finalizeArray: adds the structure to the indexes of its
     views, and replaces every number in it by an address. Looking a number up
     enters it.
     */
    method FinalizeFS(info: Info)
      requires IsStructure(types, heap.cells, info.addr) && AllInRange(views, info.views)
      modifies `added, `heap, `nulls
      ensures added == old(added) + AddingsFor(views, info)
      ensures heap == old(heap).(cells := heap.cells) && Resolved(types, fsTree, [info], old(heap.cells), heap.cells)
      ensures old(nulls) <= nulls
      ensures forall x :: x in nulls ==> x in old(nulls) || (x in old(heap.cells) && x !in fsTree)
    {
      AddToViews(info);
      var a, cells0 := info.addr, heap.cells;
      var shape, n := ShapeAt(types, cells0, a), SlotCount(types, cells0, a);
      if shape.ArrayOf? && shape.kind != Reference {
        NoReferences(types, fsTree, info, cells0);
        return;
      }
      hide *;
      PartBegins(types, fsTree, a, cells0);
      for i := 0 to n
        modifies `heap, `nulls
        invariant heap == old(heap).(cells := heap.cells) && PartResolved(types, fsTree, a, cells0, heap.cells, i)
        invariant old(nulls) <= nulls && forall x :: x in nulls ==> x in old(nulls) || (x in cells0 && x !in fsTree)
      {
        var p := SlotAt(types, cells0, a, i);
        PartNext(types, fsTree, a, cells0, heap.cells, i);
        if KindAt(shape, i) == Reference {
          var id := heap.cells[p];
          assert id == cells0[p] && id in cells0;
          if id in fsTree {
            heap := heap.(cells := heap.cells[p := fsTree[id].addr]);
          } else {
            nulls := nulls + {id};
          }
        }
      }
      PartIsAll(types, fsTree, info, cells0, heap.cells);
    }

    // The first n structures were finished since the reader was r.
    ghost predicate Finishing(r: Reader, n: nat)
      reads this
      requires CanFinish(types, r)
    {
      Value() == r.(heap := heap, added := added) && FinishedUpTo(types, r, n, heap, added)
    }

    // Finishes one more structure.
    method FinishNext(info: Info, ghost r: Reader, ghost n: nat)
      requires CanFinish(types, r) && Finishing(r, n) && n < |Infos(r)| && info == Infos(r)[n]
      modifies `added, `heap, `nulls
      ensures Finishing(r, n + 1)
      ensures old(nulls) <= nulls
      ensures forall x :: x in nulls ==> x in old(nulls) || (x in old(heap.cells) && x !in fsTree)
      ensures forall x :: x in heap.cells ==> x in old(heap.cells) || x < |r.heap.cells|
    {
      hide *;
      FinishingMeans(this, r, n);
      NextToFinish(types, r, n, heap, added);
      ghost var heap0, added0 := this.heap, added;
      FinalizeFS(info);
      OneMoreFinished(types, r, n, heap0, heap, added0, added);
      FinishingMeans(this, r, n + 1);
      NothingElse(types, r, n, heap0.cells, heap.cells);
    }

    /**
     The structures with numbers. The loop runs over the keys of fsTree while
     lookups enter more keys, and yet it comes to all of them.
     */
    method FinishNumbered(ghost r: Reader)
      requires CanFinish(types, r) && Finishing(r, 0) && nulls == {} && r.fsTree == fsTree
      modifies `added, `heap, `nulls
      ensures Finishing(r, |Ascending(r.fsTree.Keys)|)
    {
      hide *;
      ghost var ids, bound := Ascending(r.fsTree.Keys), BoundOf(r);
      LoopBegins(this, r, bound);
      var i := 0;
      ghost var n := 0;
      while i < |fsTree| + |nulls|
        invariant Finishing(r, n) && fsTree == r.fsTree
        invariant NumbersPassed(ids, i, n) && KeysKnown(fsTree.Keys, nulls, i, bound) && AllBelow(heap.cells, bound)
        decreases bound - i
      {
        KeysBounded(fsTree.Keys, nulls, i, bound);
        ghost var nulls0, cells0 := nulls, heap.cells;
        if i in fsTree {
          NextInfo(r, ids, i, n);
          FinishNext(fsTree[i], r, n);
          n := n + 1;
        } else {
          NoInfo(ids, i, n, fsTree);
          FinishingMeans(this, r, n);
          nulls := nulls + {i};
          FinishingMeans(this, r, n);
        }
        KeyPassed(r, fsTree.Keys, nulls0, nulls, i, bound, cells0, heap.cells);
        i := i + 1;
      }
      AllPassed(fsTree, nulls, i, bound, n);
    }

    /** endDocument: finishes every structure once. */
    method EndDocument()
      requires CanFinish(types, Value()) && nulls == {}
      modifies `added, `heap, `nulls
      ensures Value() == old(Value()).(heap := heap, added := added)
      ensures FinishedUpTo(types, old(Value()), |Infos(old(Value()))|, heap, added)
    {
      hide *;
      ghost var r := Value();
      FinishBegins(this);
      FinishNumbered(r);
      FinishingMeans(this, r, |Ascending(r.fsTree.Keys)|);
      for j := 0 to |idLess|
        invariant idLess == r.idLess && Finishing(r, |Ascending(r.fsTree.Keys)| + j)
      {
        IdLessInfo(r, j);
        FinishNext(idLess[j], r, |Ascending(r.fsTree.Keys)| + j);
        FinishingMeans(this, r, |Ascending(r.fsTree.Keys)| + j + 1);
      }
      FinishingMeans(this, r, |Ascending(r.fsTree.Keys)| + |idLess|);
    }
  }

  lemma NextAttribute(types: Types, views: ViewMap, addr: nat, p: Partial, attributes: seq<Attribute>, i: nat)
    requires i < |attributes|
    ensures ReadAttributes(types, views, addr, p, attributes[i..])
         == ReadAttributes(types, views, addr, ReadAttribute(types, views, addr, p, attributes[i]), attributes[i + 1..])
  {
    assert attributes[i..][0] == attributes[i] && attributes[i..][1..] == attributes[i + 1..];
  }

  lemma NoMoreAttributes(types: Types, views: ViewMap, addr: nat, p: Partial, attributes: seq<Attribute>)
    ensures ReadAttributes(types, views, addr, p, attributes[|attributes|..]) == p
  {
  }

  lemma NoMoreArrayAttributes(p: ArrayPartial, attributes: seq<Attribute>)
    ensures ReadArrayAttributes(p, attributes[|attributes|..]) == p
  {
  }

  lemma NoMoreEvents(types: Types, r: Reader, events: seq<Event>)
    requires ReaderOK(types, r)
    ensures Run(types, r, events[|events|..]) == Fine(r)
  {
  }

  lemma NextArrayAttribute(p: ArrayPartial, attributes: seq<Attribute>, i: nat)
    requires i < |attributes|
    ensures ReadArrayAttributes(p, attributes[i..])
         == ReadArrayAttributes(ReadArrayAttribute(p, attributes[i]), attributes[i + 1..])
    ensures ReadArrayAttribute(p, attributes[i]).BadAttribute? ==> ReadArrayAttributes(p, attributes[i..]).BadAttribute?
  {
    assert attributes[i..][0] == attributes[i] && attributes[i..][1..] == attributes[i + 1..];
    StaysBad(attributes[i + 1..]);
  }

  lemma {:induction false} StaysBad(attributes: seq<Attribute>)
    ensures ReadArrayAttributes(BadAttribute, attributes).BadAttribute?
    decreases |attributes|
  {
    if attributes != [] {
      StaysBad(attributes[1..]);
    }
  }

  lemma NextEvent(types: Types, r: Reader, events: seq<Event>, i: nat)
    requires ReaderOK(types, r) && i < |events|
    ensures var o := OnEvent(types, r, events[i]);
            && (o.Fine? ==>
                  ReaderOK(types, o.reader) && Run(types, r, events[i..]) == Run(types, o.reader, events[i + 1..]))
            && (o.IllFormed? ==> Run(types, r, events[i..]) == IllFormed)
  {
    hide OnEvent, ReaderOK;
    assert events[i..][0] == events[i] && events[i..][1..] == events[i + 1..];
    EventKeepsOK(types, r, events[i]);
  }

  // ------------------------------------------------- the loop of endDocument

  ghost function GreatestOf(s: seq<nat>): (b: nat)
    ensures forall x :: x in s ==> x < b
  {
    if s == [] then 0
    else
      var b := GreatestOf(s[..|s| - 1]);
      assert s == s[..|s| - 1] + [s[|s| - 1]];
      if s[|s| - 1] < b then b else s[|s| - 1] + 1
  }

  // No number, cell or address reaches this.
  ghost function BoundOf(r: Reader): (b: nat)
    ensures AllBelow(r.heap.cells, b) && |r.heap.cells| <= b && forall x :: x in r.fsTree ==> x < b
  {
    forall x | x in r.fsTree ensures x < GreatestOf(Ascending(r.fsTree.Keys)) {
      assert x in Ascending(r.fsTree.Keys);
    }
    GreatestOf(Ascending(r.fsTree.Keys)) + GreatestOf(r.heap.cells) + |r.heap.cells|
  }

  ghost predicate AllBelow(s: seq<nat>, bound: nat) {
    forall x :: x in s ==> x < bound
  }

  // The first n of the numbers are those below i.
  ghost predicate NumbersPassed(ids: seq<nat>, i: nat, n: nat) {
    n <= |ids| && (forall j :: 0 <= j < n ==> ids[j] < i) && forall j :: n <= j < |ids| ==> i <= ids[j]
  }

  // Every number below i is a key, and no key exceeds the bound.
  ghost predicate KeysKnown(keys: set<nat>, nulls: set<nat>, i: nat, bound: nat) {
    keys !! nulls && (forall x :: 0 <= x < i ==> x in keys + nulls) && forall x :: x in keys + nulls ==> x < bound
  }

  function UpTo(n: nat): (s: set<nat>)
    ensures |s| == n && forall x :: x in s <==> 0 <= x < n
  {
    if n == 0 then {} else UpTo(n - 1) + {n - 1}
  }

  // As long as there are more keys than steps the bound is not reached.
  lemma KeysBounded(keys: set<nat>, nulls: set<nat>, i: nat, bound: nat)
    requires KeysKnown(keys, nulls, i, bound) && i < |keys| + |nulls|
    ensures i < bound
  {
    assert keys + nulls <= UpTo(bound);
    TopologicalSort.SubsetSize(keys + nulls, UpTo(bound));
  }

  /** When there are as many steps as keys, every key was passed. */
  lemma NoKeyLeft(keys: set<nat>, nulls: set<nat>, i: nat, bound: nat)
    requires KeysKnown(keys, nulls, i, bound) && i >= |keys| + |nulls|
    ensures forall x :: x in keys ==> x < i
  {
    assert UpTo(i) <= keys + nulls;
    TopologicalSort.SubsetSize(UpTo(i), keys + nulls);
  }

  lemma AllPassed(fsTree: map<nat, Info>, nulls: set<nat>, i: nat, bound: nat, n: nat)
    requires KeysKnown(fsTree.Keys, nulls, i, bound) && i >= |fsTree| + |nulls|
    requires NumbersPassed(Ascending(fsTree.Keys), i, n)
    ensures n == |Ascending(fsTree.Keys)|
  {
    assert |fsTree| == |fsTree.Keys|;
    NoKeyLeft(fsTree.Keys, nulls, i, bound);
    var ids := Ascending(fsTree.Keys);
    assert forall j :: 0 <= j < |ids| ==> ids[j] in ids;
  }

  lemma LoopBegins(x: XCASDeserializerHandler, r: Reader, bound: nat)
    requires CanFinish(x.types, r) && x.Finishing(r, 0) && x.fsTree == r.fsTree && bound == BoundOf(r)
    ensures NumbersPassed(Ascending(r.fsTree.Keys), 0, 0) && KeysKnown(x.fsTree.Keys, {}, 0, bound)
    ensures AllBelow(x.heap.cells, bound)
  {
    hide Ascending, BoundOf, CanFinish, Infos, Resolve;
    forall c | c in x.heap.cells ensures c < bound {
      var p :| 0 <= p < |x.heap.cells| && x.heap.cells[p] == c;
      assert Infos(r)[..0] == [];
      assert CellResolved(x.types, r.fsTree, [], r.heap.cells, x.heap.cells, p);
      assert r.heap.cells[p] in r.heap.cells;
    }
  }

  lemma FinishBegins(x: XCASDeserializerHandler)
    requires CanFinish(x.types, x.Value())
    ensures x.Finishing(x.Value(), 0) && x.Value().fsTree == x.fsTree && x.Value().idLess == x.idLess
    ensures |Infos(x.Value())| == |Ascending(x.fsTree.Keys)| + |x.idLess|
  {
    var r := x.Value();
    assert Infos(r)[..0] == [];
    forall p | 0 <= p < |r.heap.cells| ensures CellResolved(x.types, r.fsTree, [], r.heap.cells, r.heap.cells, p) {
    }
  }

  lemma FinishingMeans(x: XCASDeserializerHandler, r: Reader, n: nat)
    requires CanFinish(x.types, r)
    ensures x.Finishing(r, n)
       <==> x.Value() == r.(heap := x.heap, added := x.added) && FinishedUpTo(x.types, r, n, x.heap, x.added)
    ensures x.Value()
         == Reader(x.state, x.heap, x.currentAddr, x.arrayPos, x.buffer, x.fsTree, x.idLess, x.views, x.added)
  {
  }

  // The structure whose number the loop has come to.
  lemma NextInfo(r: Reader, ids: seq<nat>, i: nat, n: nat)
    requires ids == Ascending(r.fsTree.Keys) && NumbersPassed(ids, i, n) && i in r.fsTree
    ensures n < |ids| && n < |Infos(r)| && Infos(r)[n] == r.fsTree[i] && NumbersPassed(ids, i + 1, n + 1)
  {
    hide Ascending;
    NextNumber(ids, i, n);
  }

  lemma NextNumber(ids: seq<nat>, i: nat, n: nat)
    requires StrictlyIncreasing(ids) && NumbersPassed(ids, i, n) && i in ids
    ensures n < |ids| && ids[n] == i && NumbersPassed(ids, i + 1, n + 1)
  {
    var k :| 0 <= k < |ids| && ids[k] == i;
    assert k >= n;
    assert ids[n] <= ids[k];
    assert forall j :: n + 1 <= j < |ids| ==> ids[n] < ids[j];
  }

  lemma NoInfo(ids: seq<nat>, i: nat, n: nat, fsTree: map<nat, Info>)
    requires ids == Ascending(fsTree.Keys) && NumbersPassed(ids, i, n) && i !in fsTree
    ensures NumbersPassed(ids, i + 1, n)
  {
    forall j | n <= j < |ids| ensures i + 1 <= ids[j] {
      assert ids[j] in ids;
    }
  }

  // The step that has dealt with key i, and may have entered other keys.
  lemma KeyPassed(r: Reader, keys: set<nat>, nulls0: set<nat>, nulls: set<nat>, i: nat, bound: nat, cells0: seq<nat>,
                  cells: seq<nat>)
    requires KeysKnown(keys, nulls0, i, bound) && nulls0 <= nulls && i in keys + nulls && i < bound
    requires forall x :: x in nulls ==> x in nulls0 || (x == i && i !in keys) || (x in cells0 && x !in keys)
    requires AllBelow(cells0, bound) && |r.heap.cells| <= bound
    requires forall x :: x in cells ==> x in cells0 || x < |r.heap.cells|
    ensures KeysKnown(keys, nulls, i + 1, bound) && AllBelow(cells, bound)
  {
    forall x | 0 <= x < i + 1 ensures x in keys + nulls {
      assert x < i ==> x in keys + nulls0;
    }
    forall x | x in keys + nulls ensures x < bound {
      assert x in keys || x in nulls0 ==> x in keys + nulls0;
    }
  }

  lemma IdLessInfo(r: Reader, j: nat)
    requires j < |r.idLess|
    ensures |Ascending(r.fsTree.Keys)| + j < |Infos(r)| && Infos(r)[|Ascending(r.fsTree.Keys)| + j] == r.idLess[j]
  {
  }

  // The next structure is as it was read.
  lemma NextToFinish(types: Types, r: Reader, n: nat, heap: Heap, added: seq<Adding>)
    requires CanFinish(types, r) && FinishedUpTo(types, r, n, heap, added) && n < |Infos(r)|
    ensures IsStructure(types, heap.cells, Infos(r)[n].addr) && AllInRange(r.views, Infos(r)[n].views)
    ensures heap == r.heap.(cells := heap.cells) && |heap.cells| == |r.heap.cells|
  {
    NextIsApart(types, r, n);
    SameStructure(types, r.fsTree, Infos(r)[..n], Infos(r)[n].addr, r.heap.cells, heap.cells);
  }

  lemma NextIsApart(types: Types, r: Reader, n: nat)
    requires CanFinish(types, r) && n < |Infos(r)|
    ensures IsStructure(types, r.heap.cells, Infos(r)[n].addr) && |Infos(r)[..n]| == n
    ensures forall k :: 0 <= k < n ==> NoSharedCell(types, r.heap.cells, Infos(r)[..n][k].addr, Infos(r)[n].addr)
  {
    hide NoSharedCell, IsStructure, Infos;
    forall k | 0 <= k < n ensures NoSharedCell(types, r.heap.cells, Infos(r)[..n][k].addr, Infos(r)[n].addr) {
      assert Infos(r)[..n][k] == Infos(r)[k];
    }
  }

  lemma AddingsOneMore(types: Types, r: Reader, n: nat)
    requires CanFinish(types, r) && n < |Infos(r)|
    ensures AllInRange(r.views, Infos(r)[n].views)
    ensures (forall k :: 0 <= k < |Infos(r)[..n]| ==> AllInRange(r.views, Infos(r)[..n][k].views))
    ensures Infos(r)[..n + 1] == Infos(r)[..n] + [Infos(r)[n]]
    ensures var done := Infos(r)[..n + 1];
            && (forall k :: 0 <= k < |done| ==> AllInRange(r.views, done[k].views))
            && Addings(r.views, done) == Addings(r.views, Infos(r)[..n]) + AddingsFor(r.views, Infos(r)[n])
  {
    hide IsStructure, NoSharedCell, Infos, AllInRange, AddingsFor;
    assert Infos(r)[..n + 1][..n] == Infos(r)[..n];
  }

  lemma FinishedMeans(types: Types, r: Reader, n: nat, heap: Heap, added: seq<Adding>)
    requires CanFinish(types, r) && FinishedUpTo(types, r, n, heap, added)
    ensures n <= |Infos(r)| && heap == r.heap.(cells := heap.cells)
    ensures Resolved(types, r.fsTree, Infos(r)[..n], r.heap.cells, heap.cells)
    ensures (forall k :: 0 <= k < |Infos(r)[..n]| ==> AllInRange(r.views, Infos(r)[..n][k].views))
    ensures added == r.added + Addings(r.views, Infos(r)[..n])
  {
    hide IsStructure, NoSharedCell, Infos, Resolved, Addings, AllInRange;
  }

  lemma OneMoreFinished(types: Types, r: Reader, n: nat, heap1: Heap, heap2: Heap, added1: seq<Adding>,
                        added2: seq<Adding>)
    requires CanFinish(types, r) && n < |Infos(r)| && AllInRange(r.views, Infos(r)[n].views)
    requires FinishedUpTo(types, r, n, heap1, added1) && added2 == added1 + AddingsFor(r.views, Infos(r)[n])
    requires IsStructure(types, heap1.cells, Infos(r)[n].addr) && heap2 == heap1.(cells := heap2.cells)
    requires Resolved(types, r.fsTree, [Infos(r)[n]], heap1.cells, heap2.cells)
    ensures FinishedUpTo(types, r, n + 1, heap2, added2)
  {
    hide *;
    FinishedMeans(types, r, n, heap1, added1);
    NextIsApart(types, r, n);
    AddingsOneMore(types, r, n);
    ResolvedOneMore(types, r.fsTree, Infos(r)[..n], Infos(r)[n], r.heap.cells, heap1.cells, heap2.cells);
    FinishedFrom(types, r, n + 1, heap2, added2);
  }

  lemma FinishedFrom(types: Types, r: Reader, n: nat, heap: Heap, added: seq<Adding>)
    requires CanFinish(types, r) && n <= |Infos(r)| && heap == r.heap.(cells := heap.cells)
    requires Resolved(types, r.fsTree, Infos(r)[..n], r.heap.cells, heap.cells)
    requires (forall k :: 0 <= k < |Infos(r)[..n]| ==> AllInRange(r.views, Infos(r)[..n][k].views))
    requires added == r.added + Addings(r.views, Infos(r)[..n])
    ensures FinishedUpTo(types, r, n, heap, added)
  {
  }

  // Only addresses of structures get into the cells.
  lemma NothingElse(types: Types, r: Reader, n: nat, cells1: seq<nat>, cells2: seq<nat>)
    requires CanFinish(types, r) && n < |Infos(r)| && Resolved(types, r.fsTree, [Infos(r)[n]], cells1, cells2)
    ensures forall x :: x in cells2 ==> x in cells1 || x < |r.heap.cells|
  {
    forall id | id in r.fsTree ensures r.fsTree[id].addr < |r.heap.cells| {
      var ids := Ascending(r.fsTree.Keys);
      assert id in ids;
      var k :| 0 <= k < |ids| && ids[k] == id;
      assert Infos(r)[k] == r.fsTree[id];
      assert IsStructure(types, r.heap.cells, Infos(r)[k].addr);
    }
    hide CanFinish, Infos;
    forall x | x in cells2 ensures x in cells1 || x < |r.heap.cells| {
      var p :| 0 <= p < |cells2| && cells2[p] == x;
      assert CellResolved(types, r.fsTree, [Infos(r)[n]], cells1, cells2, p);
      assert cells1[p] in cells1;
    }
  }

  // The references in the first n slots are replaced.
  ghost predicate PartResolved(types: Types, fsTree: map<nat, Info>, a: nat, cells: seq<nat>, cells': seq<nat>, n: nat)
    requires IsStructure(types, cells, a)
  {
    |cells'| == |cells| && forall p :: 0 <= p < |cells| ==> CellPartResolved(types, fsTree, a, cells, cells', n, p)
  }

  ghost predicate CellPartResolved(types: Types, fsTree: map<nat, Info>, a: nat, cells: seq<nat>, cells': seq<nat>,
                                   n: nat, p: nat)
    requires IsStructure(types, cells, a) && p < |cells| == |cells'|
  {
    cells'[p] == if IsRefCell(types, cells, a, p) && p < a + Base(ShapeAt(types, cells, a)) + n
                 then Resolve(fsTree, cells[p]) else cells[p]
  }

  lemma PartBegins(types: Types, fsTree: map<nat, Info>, a: nat, cells: seq<nat>)
    requires IsStructure(types, cells, a)
    ensures PartResolved(types, fsTree, a, cells, cells, 0)
  {
    forall p | 0 <= p < |cells| ensures CellPartResolved(types, fsTree, a, cells, cells, 0, p) {
    }
  }

  // The next slot is still as it was, and is done when a reference in it is replaced.
  lemma PartNext(types: Types, fsTree: map<nat, Info>, a: nat, cells: seq<nat>, cells': seq<nat>, i: nat)
    requires IsStructure(types, cells, a) && i < SlotCount(types, cells, a)
    requires PartResolved(types, fsTree, a, cells, cells', i)
    ensures var p, s := SlotAt(types, cells, a, i), ShapeAt(types, cells, a);
            && p < |cells| == |cells'| && cells'[p] == cells[p] && (s.Record? ==> i < |s.fields|)
            && (KindAt(s, i) == Reference && cells[p] in fsTree ==>
                  PartResolved(types, fsTree, a, cells, cells'[p := fsTree[cells[p]].addr], i + 1))
            && (KindAt(s, i) == Reference && cells[p] !in fsTree ==>
                  PartResolved(types, fsTree, a, cells, cells', i + 1))
            && (KindAt(s, i) != Reference ==> PartResolved(types, fsTree, a, cells, cells', i + 1))
  {
    var p, s := SlotAt(types, cells, a, i), ShapeAt(types, cells, a);
    assert CellPartResolved(types, fsTree, a, cells, cells', i, p);
    var next := if KindAt(s, i) == Reference then cells'[p := Resolve(fsTree, cells[p])] else cells';
    var n := i + 1;
    forall q | 0 <= q < |cells| ensures CellPartResolved(types, fsTree, a, cells, next, n, q) {
      assert CellPartResolved(types, fsTree, a, cells, cells', i, q);
    }
    assert PartResolved(types, fsTree, a, cells, next, i + 1);
    assert KindAt(s, i) == Reference && cells[p] !in fsTree ==> next == cells';
  }

  lemma PartIsAll(types: Types, fsTree: map<nat, Info>, info: Info, cells: seq<nat>, cells': seq<nat>)
    requires IsStructure(types, cells, info.addr)
    requires PartResolved(types, fsTree, info.addr, cells, cells', SlotCount(types, cells, info.addr))
    ensures Resolved(types, fsTree, [info], cells, cells')
  {
    forall p | 0 <= p < |cells| ensures CellResolved(types, fsTree, [info], cells, cells', p) {
      assert CellPartResolved(types, fsTree, info.addr, cells, cells', SlotCount(types, cells, info.addr), p);
      OnlyOne(types, info, cells, p);
    }
  }

  lemma NoReferences(types: Types, fsTree: map<nat, Info>, info: Info, cells: seq<nat>)
    requires IsStructure(types, cells, info.addr)
    requires ShapeAt(types, cells, info.addr).ArrayOf? && ShapeAt(types, cells, info.addr).kind != Reference
    ensures Resolved(types, fsTree, [info], cells, cells)
  {
    forall p | 0 <= p < |cells| ensures CellResolved(types, fsTree, [info], cells, cells, p) {
      OnlyOne(types, info, cells, p);
    }
  }
}
