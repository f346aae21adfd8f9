/**
 A CAS written as XCAS and read again: the structures that are reachable from
 indexed ones are rebuilt up to a renaming of their addresses, and indexed in
 the same views.
 */
module XcasTransfer {
  import opened Xcas
  import opened XcasText
  import opened XcasWriter
  import opened XcasReader
  import opened XcasRoundTrip
  import opened IndexedFSs
  import IndexRepository

  // ---------------------------------------------------- what can be finished

  // Every view in a list has a repository.
  ghost predicate ViewsKnown(types: Types, h: Heap, ids: seq<nat>, queue: map<nat, seq<nat>>)
    requires TypesOK(types) && forall a :: a in ids ==> Readable(types, h, a)
  {
    forall a, v :: a in ids && a in queue && v in queue[a] ==> v < 2 + OtherSofas(types, h, ids)
  }

  lemma RepositoryIsView(v: ViewMap, any: bool, n: nat, view: nat)
    requires ViewsNumbered(v, any, n) && view < 2 + n
    ensures ViewInRange(v, view) && RepositoryOf(v, view) == view
  {
  }

  // The numbers of the structures are the keys in ascending order.
  lemma InfosOfLoaded(types: Types, h: Heap, ids: seq<nat>, queue: map<nat, seq<nat>>, r: Reader)
    requires TypesOK(types) && (forall a :: a in ids ==> Readable(types, h, a)) && Loaded(types, h, ids, queue, r)
    requires StrictlyIncreasing(ids)
    ensures |Infos(r)| == |ids| && forall k :: 0 <= k < |ids| ==> ids[k] in r.fsTree && Infos(r)[k] == r.fsTree[ids[k]]
  {
    LoadedMeans(types, h, ids, queue, r);
    AscendingIsUnique(ids, Ascending(r.fsTree.Keys));
    assert r.idLess == [];
    forall k | 0 <= k < |ids| ensures ids[k] in r.fsTree && Infos(r)[k] == r.fsTree[ids[k]] {
      assert ids[k] in ids;
    }
  }

  /** What was loaded can be finished. */
  lemma LoadedCanFinish(types: Types, h: Heap, ids: seq<nat>, queue: map<nat, seq<nat>>, r: Reader)
    requires TypesOK(types) && (forall a :: a in ids ==> Readable(types, h, a)) && Loaded(types, h, ids, queue, r)
    requires StrictlyIncreasing(ids) && ViewsKnown(types, h, ids, queue)
    ensures CanFinish(types, r)
  {
    LoadedMeans(types, h, ids, queue, r);
    InfosOfLoaded(types, h, ids, queue, r);
    var infos, n := Infos(r), OtherSofas(types, h, ids);
    hide Loaded, Infos, Readable, TypesOK, OtherSofas, AnySofa;
    forall k | 0 <= k < |infos|
      ensures IsStructure(types, r.heap.cells, infos[k].addr) && AllInRange(r.views, infos[k].views)
    {
      assert ids[k] in ids;
      assert IsLoaded(types, h, ids[k], queue[ids[k]], r);
      CopyOf(types, h, ids[k], queue[ids[k]], r);
      forall i | 0 <= i < |infos[k].views| ensures ViewInRange(r.views, infos[k].views[i]) {
        assert queue[ids[k]][i] in queue[ids[k]];
        RepositoryIsView(r.views, AnySofa(types, h, ids), n, queue[ids[k]][i]);
      }
    }
    forall k, l | 0 <= k < l < |infos| ensures NoSharedCell(types, r.heap.cells, infos[k].addr, infos[l].addr) {
      assert IsLoaded(types, h, ids[k], queue[ids[k]], r) && IsLoaded(types, h, ids[l], queue[ids[l]], r);
      CopyOf(types, h, ids[k], queue[ids[k]], r);
      CopyOf(types, h, ids[l], queue[ids[l]], r);
      assert InOrder(types, r, ids[k], ids[l]);
    }
  }

  // ------------------------------------------------------------ the renaming

  // Where each structure was put.
  function Renaming(r: Reader): (m: map<nat, nat>)
    ensures m.Keys == r.fsTree.Keys && forall a :: a in m ==> m[a] == r.fsTree[a].addr
  {
    map a | a in r.fsTree :: r.fsTree[a].addr
  }

  ghost predicate IsInjective(m: map<nat, nat>) {
    forall a, b :: a in m && b in m && m[a] == m[b] ==> a == b
  }

  // A null reference stays null, and any other leads to the new place of what it led to.
  predicate RefRenamed(m: map<nat, nat>, c: nat, c': nat) {
    if c == 0 then c' == 0 else c in m && c' == m[c]
  }

  // A slot has the same number or text, or refers to the renamed structure.
  predicate SlotRenamed(types: Types, h: Heap, a: nat, h': Heap, m: map<nat, nat>, i: int)
    requires a in m && IsStructure(types, h.cells, a) && IsStructure(types, h'.cells, m[a])
    requires SameShape(types, h, a, h', m[a])
  {
    0 <= i < SlotCount(types, h.cells, a) &&
    var s := ShapeAt(types, h.cells, a);
    var c, c' := h.cells[SlotAt(types, h.cells, a, i)], h'.cells[SlotAt(types, h'.cells, m[a], i)];
    if KindAt(s, i) == Reference then RefRenamed(m, c, c') else CellCopied(h, KindAt(s, i), c, h', c', s.ArrayOf?)
  }

  /** The structure a was rebuilt at m[a]: same type, same number of elements, same values, renamed references. */
  ghost predicate IsRebuilt(types: Types, h: Heap, a: nat, h': Heap, m: map<nat, nat>) {
    && a in m && IsStructure(types, h.cells, a) && IsStructure(types, h'.cells, m[a])
    && SameShape(types, h, a, h', m[a])
    && (forall i :: 0 <= i < SlotCount(types, h.cells, a) ==> SlotRenamed(types, h, a, h', m, i))
    && SideCopied(types, h, a, h', m[a], ArraySize(types, h.cells, a))
  }

  lemma RenamingIsInjective(types: Types, h: Heap, ids: seq<nat>, queue: map<nat, seq<nat>>, r: Reader)
    requires TypesOK(types) && (forall a :: a in ids ==> Readable(types, h, a)) && Loaded(types, h, ids, queue, r)
    requires StrictlyIncreasing(ids)
    ensures IsInjective(Renaming(r)) && Renaming(r).Keys == Elements(ids)
  {
    LoadedMeans(types, h, ids, queue, r);
    hide Loaded, Readable, TypesOK;
    var m := Renaming(r);
    forall a, b | a in m && b in m && m[a] == m[b] ensures a == b {
      assert a in Elements(ids) && b in Elements(ids);
      var k :| 0 <= k < |ids| && ids[k] == a;
      var l :| 0 <= l < |ids| && ids[l] == b;
      assert k < l ==> InOrder(types, r, a, b);
      assert l < k ==> InOrder(types, r, b, a);
    }
  }

  // The cells of a copy after the references were replaced.
  lemma CopyIsRebuilt(types: Types, h: Heap, a: nat, vs: seq<nat>, r: Reader, h': Heap, infos: seq<Info>, k: nat)
    requires IsLoaded(types, h, a, vs, r) && k < |infos| && infos[k] == r.fsTree[a] && 0 !in r.fsTree
    requires Resolved(types, r.fsTree, infos, r.heap.cells, h'.cells) && h' == r.heap.(cells := h'.cells)
    requires forall l :: 0 <= l < |infos| ==> IsStructure(types, r.heap.cells, infos[l].addr)
    requires forall l :: 0 <= l < |infos| && l != k ==> NoSharedCell(types, r.heap.cells, infos[l].addr, infos[k].addr)
    requires forall b :: Edge(types, h.cells, a, b) ==> b in r.fsTree
    ensures IsRebuilt(types, h, a, h', Renaming(r))
  {
    var b, cells, cells' := r.fsTree[a].addr, r.heap.cells, h'.cells;
    forall p | b <= p < End(types, cells, b)
      ensures cells'[p] == if IsRefCell(types, cells, b, p) then Resolve(r.fsTree, cells[p]) else cells[p]
    {
      assert CellResolved(types, r.fsTree, infos, cells, cells', p);
      OnlyIn(types, infos, k, cells, p);
    }
    HeadKept(types, r.fsTree, b, cells, cells');
    SlotsRenamed(types, h, a, vs, r, h');
    SideKept(types, h, a, r, h', b);
  }

  // A cell belongs to no other structure.
  lemma OnlyIn(types: Types, infos: seq<Info>, k: nat, cells: seq<nat>, p: nat)
    requires k < |infos| && IsStructure(types, cells, infos[k].addr)
    requires infos[k].addr <= p < End(types, cells, infos[k].addr)
    requires forall l :: 0 <= l < |infos| && l != k ==> NoSharedCell(types, cells, infos[l].addr, infos[k].addr)
    ensures InSome(types, infos, cells, p) <==> IsRefCell(types, cells, infos[k].addr, p)
  {
    forall l | 0 <= l < |infos| && l != k ensures !IsRefCell(types, cells, infos[l].addr, p) {
      assert NoSharedCell(types, cells, infos[l].addr, infos[k].addr);
    }
  }

  // The type and the size are no references.
  lemma HeadKept(types: Types, fsTree: map<nat, Info>, b: nat, cells: seq<nat>, cells': seq<nat>)
    requires IsStructure(types, cells, b) && |cells'| == |cells|
    requires forall p :: b <= p < End(types, cells, b) ==>
               cells'[p] == if IsRefCell(types, cells, b, p) then Resolve(fsTree, cells[p]) else cells[p]
    ensures IsStructure(types, cells', b) && ShapeAt(types, cells', b) == ShapeAt(types, cells, b)
    ensures SlotCount(types, cells', b) == SlotCount(types, cells, b)
    ensures forall p :: b <= p < b + Base(ShapeAt(types, cells, b)) ==> cells'[p] == cells[p]
  {
  }

  lemma SideKept(types: Types, h: Heap, a: nat, r: Reader, h': Heap, b: nat)
    requires IsCopy(types, h, a, r.heap, b) && h' == r.heap.(cells := h'.cells) && IsStructure(types, h'.cells, b)
    requires IsStructure(types, r.heap.cells, b) && SameShape(types, h, a, h', b) && |h'.cells| == |r.heap.cells|
    requires forall p :: b <= p < b + Base(ShapeAt(types, r.heap.cells, b)) ==> h'.cells[p] == r.heap.cells[p]
    ensures SideCopied(types, h, a, h', b, ArraySize(types, h.cells, a))
  {
    hide SideSame, PartCopied;
    var s := ShapeAt(types, h.cells, a);
    if s.ArrayOf? && !OwnCells(s.kind) {
      forall i | 0 <= i < ElementCount(types, h.cells, a) ensures SideElementCopied(h, s.kind, a, h', b, i) {
        assert SideElementCopied(h, s.kind, a, r.heap, b, i);
      }
    }
  }

  lemma SlotsRenamed(types: Types, h: Heap, a: nat, vs: seq<nat>, r: Reader, h': Heap)
    requires IsLoaded(types, h, a, vs, r) && 0 !in r.fsTree && h' == r.heap.(cells := h'.cells)
    requires |h'.cells| == |r.heap.cells|
    requires var b := r.fsTree[a].addr;
             && IsStructure(types, r.heap.cells, b) && IsStructure(types, h'.cells, b) && SameShape(types, h, a, h', b)
             && ShapeAt(types, h'.cells, b) == ShapeAt(types, r.heap.cells, b)
             && forall p :: b <= p < End(types, r.heap.cells, b) ==>
                  h'.cells[p] == if IsRefCell(types, r.heap.cells, b, p) then Resolve(r.fsTree, r.heap.cells[p])
                                 else r.heap.cells[p]
    requires forall c :: Edge(types, h.cells, a, c) ==> c in r.fsTree
    ensures IsStructure(types, h.cells, a)
    ensures forall i :: 0 <= i < SlotCount(types, h.cells, a) ==> SlotRenamed(types, h, a, h', Renaming(r), i)
  {
    var b, m, s := r.fsTree[a].addr, Renaming(r), ShapeAt(types, h.cells, a);
    forall i | 0 <= i < SlotCount(types, h.cells, a) ensures SlotRenamed(types, h, a, h', m, i) {
      assert SlotCopied(types, h, a, r.heap, b, i);
      var p, c := SlotAt(types, r.heap.cells, b, i), h.cells[SlotAt(types, h.cells, a, i)];
      assert IsRefCell(types, r.heap.cells, b, p) <==> KindAt(s, i) == Reference;
      if KindAt(s, i) == Reference {
        assert IsRefSlot(types, h.cells, a, i);
        assert c != 0 ==> Edge(types, h.cells, a, c);
      } else {
        SameHeapCopied(h, KindAt(s, i), c, r.heap, h', h'.cells[p], s.ArrayOf?);
      }
    }
  }

  lemma SameHeapCopied(h: Heap, kind: Kind, c: nat, h1: Heap, h2: Heap, c': nat, isElement: bool)
    requires CellCopied(h, kind, c, h1, c', isElement) && h2 == h1.(cells := h2.cells)
    ensures CellCopied(h, kind, c, h2, c', isElement)
  {
    GrowsItself(h1);
    CellStaysCopied(h, kind, c, h1, h2, c', isElement);
  }

  // ----------------------------------------------------- the second phase

  // No reference leaves the structures.
  ghost predicate IsClosed(types: Types, cells: seq<nat>, ids: seq<nat>) {
    forall a, b :: a in ids && Edge(types, cells, a, b) ==> b in ids
  }

  /** Finishing what was loaded rebuilds every structure. */
  lemma LoadedIsRebuilt(types: Types, h: Heap, ids: seq<nat>, queue: map<nat, seq<nat>>, r: Reader, h': Heap,
                        added': seq<Adding>)
    requires TypesOK(types) && (forall a :: a in ids ==> Readable(types, h, a)) && Loaded(types, h, ids, queue, r)
    requires StrictlyIncreasing(ids) && IsClosed(types, h.cells, ids)
    requires CanFinish(types, r) && FinishedUpTo(types, r, |Infos(r)|, h', added')
    ensures forall a :: a in ids ==> IsRebuilt(types, h, a, h', Renaming(r))
  {
    LoadedMeans(types, h, ids, queue, r);
    InfosOfLoaded(types, h, ids, queue, r);
    var infos := Infos(r);
    assert infos[..|infos|] == infos;
    NoStructureAtZero(types, h, ids);
    hide Loaded, Infos, Readable, TypesOK, Resolved, IsLoaded;
    forall a | a in ids ensures IsRebuilt(types, h, a, h', Renaming(r)) {
      var k :| 0 <= k < |ids| && ids[k] == a;
      assert IsLoaded(types, h, ids[k], queue[ids[k]], r);
      forall l | 0 <= l < |infos| && l != k ensures NoSharedCell(types, r.heap.cells, infos[l].addr, infos[k].addr) {
        assert l < k ==> NoSharedCell(types, r.heap.cells, infos[l].addr, infos[k].addr);
        assert k < l ==> NoSharedCell(types, r.heap.cells, infos[k].addr, infos[l].addr);
      }
      CopyIsRebuilt(types, h, a, queue[a], r, h', infos, k);
    }
  }

  lemma NoStructureAtZero(types: Types, h: Heap, ids: seq<nat>)
    requires forall a :: a in ids ==> Readable(types, h, a)
    ensures 0 !in Elements(ids)
  {
  }

  ghost predicate IsCalled(views: ViewMap, infos: seq<Info>, e: Adding)
    requires forall k :: 0 <= k < |infos| ==> AllInRange(views, infos[k].views)
  {
    exists k :: 0 <= k < |infos| && e in AddingsFor(views, infos[k])
  }

  // The calls for a list of structures, when each is added to every view at most once.
  lemma {:induction false} AddingsCount(views: ViewMap, infos: seq<Info>, e: Adding)
    requires forall k :: 0 <= k < |infos| ==> AllInRange(views, infos[k].views)
    requires forall k, l :: 0 <= k < l < |infos| ==> infos[k].addr != infos[l].addr
    requires forall k :: 0 <= k < |infos| ==> multiset(AddingsFor(views, infos[k]))[e] <= 1
    ensures multiset(Addings(views, infos))[e] == if IsCalled(views, infos, e) then 1 else 0
  {
    if infos != [] {
      var n := |infos| - 1;
      var before := infos[..n];
      AddingsCount(views, before, e);
      if k :| 0 <= k < |before| && e in AddingsFor(views, before[k]) {
        assert e in AddingsFor(views, infos[k]) && e.fs == infos[k].addr != infos[n].addr;
        assert e !in AddingsFor(views, infos[n]);
      }
      if k :| 0 <= k < |infos| && e in AddingsFor(views, infos[k]) {
        assert k < n ==> e in AddingsFor(views, before[k]);
      }
      assert e in AddingsFor(views, infos[n]) <==> e in multiset(AddingsFor(views, infos[n]));
    }
  }

  lemma {:induction false} CountOfDistinct(s: seq<Adding>, e: Adding)
    requires forall i, j :: 0 <= i < j < |s| ==> s[i] != s[j]
    ensures multiset(s)[e] == if e in s then 1 else 0
  {
    if s != [] {
      var n := |s| - 1;
      CountOfDistinct(s[..n], e);
      assert s == s[..n] + [s[n]];
    }
  }

  // The structure is added to the view.
  ghost predicate IsAdded(queue: map<nat, seq<nat>>, m: map<nat, nat>, a: nat, e: Adding) {
    a in queue && a in m && e.view in queue[a] && e.fs == m[a]
  }

  lemma AddingsForViews(v: ViewMap, any: bool, n: nat, info: Info, vs: seq<nat>, e: Adding)
    requires ViewsNumbered(v, any, n) && info.views == vs && AllInRange(v, info.views) && StrictlyIncreasing(vs)
    requires forall i :: 0 <= i < |vs| ==> vs[i] < 2 + n
    ensures e in AddingsFor(v, info) <==> e.view in vs && e.fs == info.addr
    ensures multiset(AddingsFor(v, info))[e] <= 1
  {
    forall i | 0 <= i < |vs| ensures AddingsFor(v, info)[i] == Adding(vs[i], info.addr) {
      RepositoryIsView(v, any, n, vs[i]);
    }
    if e.view in vs && e.fs == info.addr {
      var i :| 0 <= i < |vs| && vs[i] == e.view;
      assert AddingsFor(v, info)[i] == e;
    }
    CountOfDistinct(AddingsFor(v, info), e);
  }

  ghost predicate SomeAdded(queue: map<nat, seq<nat>>, m: map<nat, nat>, ids: seq<nat>, e: Adding) {
    exists k :: 0 <= k < |ids| && IsAdded(queue, m, ids[k], e)
  }

  /**
   A structure is added to a view once if it was indexed there, and a Sofa once
   more to the base CAS; there are no other calls.
   */
  lemma ViewsReturn(types: Types, h: Heap, ids: seq<nat>, queue: map<nat, seq<nat>>, r: Reader, h': Heap,
                    added': seq<Adding>, e: Adding)
    requires TypesOK(types) && (forall a :: a in ids ==> Readable(types, h, a)) && Loaded(types, h, ids, queue, r)
    requires StrictlyIncreasing(ids) && ViewsKnown(types, h, ids, queue)
    requires forall a :: a in ids && a in queue ==> StrictlyIncreasing(queue[a])
    requires CanFinish(types, r) && FinishedUpTo(types, r, |Infos(r)|, h', added')
    ensures multiset(added')[e]
         == (if SomeAdded(queue, Renaming(r), ids, e) then 1 else 0)
            + if SofaCalled(types, h, ids, r, e) then 1 else 0
  {
    hide *;
    LoadedMeans(types, h, ids, queue, r);
    InfosOfLoaded(types, h, ids, queue, r);
    RenamingIsInjective(types, h, ids, queue, r);
    AllAdded(types, r, h', added');
    var infos, m := Infos(r), Renaming(r);
    forall k | 0 <= k < |ids|
      ensures e in AddingsFor(r.views, infos[k]) <==> IsAdded(queue, m, ids[k], e)
      ensures multiset(AddingsFor(r.views, infos[k]))[e] <= 1
    {
      CallsOfOne(types, h, ids, queue, r, k, e);
    }
    DistinctAddresses(ids, infos, r);
    AddingsCount(r.views, infos, e);
    SofasAre(types, h, ids, r, e);
    CountBoth(ids, queue, r, infos, m, added', e);
  }

  // The calls that one structure brings about.
  lemma CallsOfOne(types: Types, h: Heap, ids: seq<nat>, queue: map<nat, seq<nat>>, r: Reader, k: nat, e: Adding)
    requires TypesOK(types) && (forall a :: a in ids ==> Readable(types, h, a)) && ViewsKnown(types, h, ids, queue)
    requires AllLoaded(types, h, ids, queue, r)
    requires ViewsNumbered(r.views, AnySofa(types, h, ids), OtherSofas(types, h, ids))
    requires forall a :: a in ids && a in queue ==> StrictlyIncreasing(queue[a])
    requires k < |ids| && ids[k] in r.fsTree && AllInRange(r.views, r.fsTree[ids[k]].views)
    ensures e in AddingsFor(r.views, r.fsTree[ids[k]]) <==> IsAdded(queue, Renaming(r), ids[k], e)
    ensures multiset(AddingsFor(r.views, r.fsTree[ids[k]]))[e] <= 1
  {
    hide Readable, IsCopy, StrictlyIncreasing, ViewsNumbered, AllInRange;
    var a := ids[k];
    assert a in ids && IsLoaded(types, h, a, queue[a], r);
    forall i | 0 <= i < |queue[a]| ensures queue[a][i] < 2 + OtherSofas(types, h, ids) {
      assert queue[a][i] in queue[a];
    }
    AddingsForViews(r.views, AnySofa(types, h, ids), OtherSofas(types, h, ids), r.fsTree[a], queue[a], e);
  }

  lemma AllAdded(types: Types, r: Reader, h': Heap, added': seq<Adding>)
    requires CanFinish(types, r) && FinishedUpTo(types, r, |Infos(r)|, h', added')
    ensures forall k :: 0 <= k < |Infos(r)| ==> AllInRange(r.views, Infos(r)[k].views)
    ensures added' == r.added + Addings(r.views, Infos(r))
  {
    hide Infos, Resolved, Addings;
    assert Infos(r)[..|Infos(r)|] == Infos(r);
  }

  lemma DistinctAddresses(ids: seq<nat>, infos: seq<Info>, r: Reader)
    requires |infos| == |ids| && forall k :: 0 <= k < |ids| ==> ids[k] in r.fsTree && infos[k] == r.fsTree[ids[k]]
    requires IsInjective(Renaming(r)) && StrictlyIncreasing(ids)
    ensures forall k, l :: 0 <= k < l < |infos| ==> infos[k].addr != infos[l].addr
  {
    forall k, l | 0 <= k < l < |infos| ensures infos[k].addr != infos[l].addr {
      assert ids[k] != ids[l] && Renaming(r)[ids[k]] == infos[k].addr && Renaming(r)[ids[l]] == infos[l].addr;
    }
  }

  lemma SofasAre(types: Types, h: Heap, ids: seq<nat>, r: Reader, e: Adding)
    requires SofasCalled(types, h, ids, r)
    ensures multiset(r.added)[e] == if SofaCalled(types, h, ids, r, e) then 1 else 0
  {
    hide SofaCalled;
  }

  lemma CountBoth(ids: seq<nat>, queue: map<nat, seq<nat>>, r: Reader, infos: seq<Info>, m: map<nat, nat>,
                  added': seq<Adding>, e: Adding)
    requires |infos| == |ids| && (forall k :: 0 <= k < |infos| ==> AllInRange(r.views, infos[k].views))
    requires forall k :: 0 <= k < |ids| ==> (e in AddingsFor(r.views, infos[k]) <==> IsAdded(queue, m, ids[k], e))
    requires multiset(Addings(r.views, infos))[e] == if IsCalled(r.views, infos, e) then 1 else 0
    requires added' == r.added + Addings(r.views, infos)
    ensures multiset(added')[e] == multiset(r.added)[e] + if SomeAdded(queue, m, ids, e) then 1 else 0
  {
    hide AllInRange, AddingsFor, IsAdded, Addings;
  }

  // ------------------------------------------------------- the whole document

  // The state of a new handler for a CAS with this heap.
  function Initial(target: Heap): Reader {
    Reader(DocState, target, 0, 0, [], map[], [], ViewMap([0], 0, [0, 1]), [])
  }

  lemma NothingLoaded(types: Types, h: Heap, queue: map<nat, seq<nat>>, target: Heap)
    requires TypesOK(types) && HeapOK(target)
    ensures Loaded(types, h, [], queue, Initial(target).(state := FsState))
  {
    assert Counting(2) == [0, 1];
    assert !AnySofa(types, h, []);
  }

  lemma SameLoaded(types: Types, h: Heap, ids: seq<nat>, queue: map<nat, seq<nat>>, r: Reader, state: State)
    requires TypesOK(types) && (forall a :: a in ids ==> Readable(types, h, a)) && Loaded(types, h, ids, queue, r)
    ensures Loaded(types, h, ids, queue, r.(state := state))
  {
    var r' := r.(state := state);
    hide IsCopy, Readable, TypesOK, ViewsNumbered;
    forall i | 0 <= i < |ids| ensures ids[i] in queue && IsLoaded(types, h, ids[i], queue[ids[i]], r') {
      assert IsLoaded(types, h, ids[i], queue[ids[i]], r);
    }
    forall i, j | 0 <= i < j < |ids| ensures InOrder(types, r', ids[i], ids[j]) {
      assert InOrder(types, r, ids[i], ids[j]);
    }
    forall a, e ensures SofaAdded(types, h, r', a, e) <==> SofaAdded(types, h, r, a, e) {
    }
  }

  // The start and the end of a document.
  lemma FrameIsRead(types: Types, target: Heap, r: Reader)
    requires HeapOK(target) && ReaderOK(types, r) && r.state == FsState
    ensures ReaderOK(types, Initial(target))
    ensures Run(types, Initial(target), [StartDocument, StartElement(CasTag, [])])
         == Fine(Initial(target).(state := FsState))
    ensures Run(types, r, [EndElement(CasTag), EndDocument]) == Fine(r.(state := DocState))
  {
    var r0 := Initial(target);
    assert OnEvent(types, r0, StartDocument) == Fine(r0);
    assert OnEvent(types, r0, StartElement(CasTag, [])) == Fine(r0.(state := FsState));
    assert OnEvent(types, r, EndElement(CasTag)) == Fine(r.(state := DocState));
    var r1 := r.(state := DocState);
    assert OnEvent(types, r1, EndDocument) == Fine(r1);
    OneEvent(types, r0, StartDocument);
    OneEvent(types, r0, StartElement(CasTag, []));
    OneEvent(types, r, EndElement(CasTag));
    OneEvent(types, r1, EndDocument);
    hide Run, OnEvent;
    RunAppend(types, r0, [StartDocument], [StartElement(CasTag, [])]);
    RunAppend(types, r, [EndElement(CasTag)], [EndDocument]);
    assert [StartDocument] + [StartElement(CasTag, [])] == [StartDocument, StartElement(CasTag, [])];
    assert [EndElement(CasTag)] + [EndDocument] == [EndElement(CasTag), EndDocument];
  }

  lemma DocumentReported(body: seq<Piece>)
    ensures ReportedDocument([OpenTag(CasTag, []), TagEnd] + body + [CloseTag(CasTag)])
         == [StartDocument, StartElement(CasTag, [])] + (Reported(body + [CloseTag(CasTag)]) + [EndDocument])
  {
    var all := [OpenTag(CasTag, []), TagEnd] + body + [CloseTag(CasTag)];
    assert all[0] == OpenTag(CasTag, []) && all[1] == TagEnd && all[2..] == body + [CloseTag(CasTag)];
  }

  lemma EndReported()
    ensures Reported([CloseTag(CasTag)]) + [EndDocument] == [EndElement(CasTag), EndDocument]
  {
    assert [CloseTag(CasTag)][1..] == [];
  }

  /** The text of structures is reported as their elements, up to an empty array of bytes. */
  lemma {:induction false} BodyReported(types: Types, h: Heap, ids: seq<nat>, queue: map<nat, seq<nat>>,
                                        rest: seq<Piece>, tail: seq<Event>, r: Reader)
    requires (forall a :: a in ids ==> a in queue && Readable(types, h, a)) && ReaderOK(types, r)
    requires rest != [] && (rest[0].OpenTag? || rest[0].CloseTag?)
    ensures Run(types, r, Reported(BodyPieces(types, h, ids, queue) + rest) + tail)
         == Run(types, r, BodyEvents(types, h, ids, queue) + (Reported(rest) + tail))
  {
    hide *;
    if ids == [] {
      NothingToReport(types, h, queue);
      assert [] + rest == rest && [] + (Reported(rest) + tail) == Reported(rest) + tail;
    } else {
      FirstStructure(types, h, ids, queue);
      BodyBegins(types, h, ids[1..], queue, rest);
      var a, more, others := ids[0], BodyPieces(types, h, ids[1..], queue), BodyEvents(types, h, ids[1..], queue);
      var pieces, events := StructurePieces(types, h, a, queue[a]), StructureEvents(types, h, a, queue[a]);
      var x, y := Reported(more + rest) + tail, others + (Reported(rest) + tail);
      assert pieces + more + rest == pieces + (more + rest) && events + others + (Reported(rest) + tail) == events + y;
      FromStructures(types, h, a);
      if IsUnclosed(types, h, a) {
        UnclosedIsBroken(types, h, a, queue[a], more + rest);
        NothingBehind(types, h, a, queue[a], r, tail);
        NothingBehind(types, h, a, queue[a], r, y);
      } else {
        StructureReported(types, h, a, queue[a], more + rest);
        assert events + Reported(more + rest) + tail == events + x;
        RunAppend(types, r, events, x);
        RunAppend(types, r, events, y);
        var o := Run(types, r, events);
        if o.Fine? {
          BodyReported(types, h, ids[1..], queue, rest, tail, o.reader);
        }
      }
    }
  }

  lemma NothingToReport(types: Types, h: Heap, queue: map<nat, seq<nat>>)
    ensures BodyPieces(types, h, [], queue) == [] && BodyEvents(types, h, [], queue) == []
  {
  }

  lemma FirstStructure(types: Types, h: Heap, ids: seq<nat>, queue: map<nat, seq<nat>>)
    requires ids != [] && forall a :: a in ids ==> a in queue && Readable(types, h, a)
    ensures ids[0] in queue && Readable(types, h, ids[0])
    ensures forall a :: a in ids[1..] ==> a in queue && Readable(types, h, a)
    ensures BodyPieces(types, h, ids, queue)
         == StructurePieces(types, h, ids[0], queue[ids[0]]) + BodyPieces(types, h, ids[1..], queue)
    ensures BodyEvents(types, h, ids, queue)
         == StructureEvents(types, h, ids[0], queue[ids[0]]) + BodyEvents(types, h, ids[1..], queue)
  {
    hide StructurePieces, StructureEvents, Readable;
  }

  lemma FromStructures(types: Types, h: Heap, a: nat)
    requires Readable(types, h, a)
    ensures IsStructure(types, h.cells, a)
  {
  }

  lemma NothingBehind(types: Types, h: Heap, a: nat, vs: seq<nat>, r: Reader, tail: seq<Event>)
    requires Readable(types, h, a) && IsUnclosed(types, h, a) && ReaderOK(types, r)
    ensures StructureEvents(types, h, a, vs) == [Broken]
    ensures Run(types, r, [Broken] + tail) == IllFormed
  {
  }

  /** So an empty array of bytes makes any document unreadable, whatever follows it. */
  lemma UnclosedFails(types: Types, h: Heap, a: nat, vs: seq<nat>, rest: seq<Piece>, r: Reader)
    requires Readable(types, h, a) && IsUnclosed(types, h, a) && ReaderOK(types, r)
    requires rest != [] && (rest[0].OpenTag? || rest[0].CloseTag?)
    ensures Run(types, r, Reported(StructurePieces(types, h, a, vs) + rest)) == IllFormed
  {
    UnclosedIsBroken(types, h, a, vs, rest);
    NothingBehind(types, h, a, vs, r, []);
    assert [Broken] + [] == [Broken];
  }

  /** A document that was written is read exactly if no array of bytes in it is empty. */
  lemma DocumentLoads(types: Types, h: Heap, queue: map<nat, seq<nat>>, target: Heap)
    requires IsSource(types, h, Ascending(queue.Keys), queue) && HeapOK(target)
    ensures ReaderOK(types, Initial(target)) && TypesOK(types)
    ensures forall a :: a in queue ==> Readable(types, h, a)
    ensures forall a :: a in Ascending(queue.Keys) ==> Readable(types, h, a)
    ensures var ids := Ascending(queue.Keys);
            var o := Run(types, Initial(target), ReportedDocument(DocumentPieces(types, h, queue)));
            (o.Fine? <==> AllClosed(types, h, ids)) && (o.Fine? ==> Loaded(types, h, ids, queue, o.reader))
  {
    hide *;
    var ids, r1 := Ascending(queue.Keys), Initial(target).(state := FsState);
    SourceMeans(types, h, ids, queue, 0);
    assert ids[..0] == [] && ids[0..] == ids;
    NothingLoaded(types, h, queue, target);
    ReaderReady(types, r1);
    InitialIs(target);
    BodyLoads(types, h, ids, queue, r1, 0);
    DocumentIs(types, h, queue);
    var start, end := [StartDocument, StartElement(CasTag, [])], [EndElement(CasTag), EndDocument];
    var body, text := BodyEvents(types, h, ids, queue), BodyPieces(types, h, ids, queue) + [CloseTag(CasTag)];
    var o := Run(types, r1, body);
    DocumentReported(BodyPieces(types, h, ids, queue));
    FrameIsRead(types, target, r1);
    RunAppend(types, Initial(target), start, Reported(text) + [EndDocument]);
    EndReported();
    BodyReported(types, h, ids, queue, [CloseTag(CasTag)], [EndDocument], r1);
    RunAppend(types, r1, body, end);
    if o.Fine? {
      FrameIsRead(types, target, o.reader);
      SameLoaded(types, h, ids, queue, o.reader, DocState);
    }
  }

  lemma InitialIs(target: Heap)
    ensures Initial(target).heap == target
  {
  }

  // ---------------------------------------------------------- the round trip

  // All that is asked of a CAS: structures that can be written, Sofas numbered
  // as in version 2, and a Sofa for every view but the base CAS and the initial view.
  ghost predicate IsWritableCAS(types: Types, h: Heap, indexed: seq<set<nat>>, queue: map<nat, seq<nat>>) {
    && IsClosure(types, h.cells, indexed, queue) && IsSource(types, h, Ascending(queue.Keys), queue)
    && (forall a :: a in Ascending(queue.Keys) ==> Readable(types, h, a))
    && |indexed| <= 2 + OtherSofas(types, h, Ascending(queue.Keys))
  }

  // The structures that indexed ones lead to, in the order of their addresses.
  ghost predicate AreReachable(types: Types, cells: seq<nat>, indexed: seq<set<nat>>, ids: seq<nat>) {
    StrictlyIncreasing(ids) && forall a :: a in ids <==> IsReachable(types, cells, indexed, a)
  }

  // As IsWritableCAS, of the reachable structures and the number of views.
  ghost predicate CanBeWritten(types: Types, h: Heap, ids: seq<nat>, views: nat) {
    && TypesOK(types) && |ids| < 0x7FFF_FFF0 && AllWritable(types, h, ids) && SofasNumbered(types, h, ids)
    && (PrefixWritable(types, h, ids, |ids|); views <= 2 + OtherSofas(types, h, ids))
  }

  // The target has all that was reachable, renamed, and every view has what it had.
  ghost predicate IsTransferred(types: Types, h: Heap, indexed: seq<set<nat>>, h': Heap, added': seq<Adding>,
                                m: map<nat, nat>) {
    && IsInjective(m) && (forall a :: a in m <==> IsReachable(types, h.cells, indexed, a))
    && (forall a :: a in m ==> IsRebuilt(types, h, a, h', m))
    && forall e :: multiset(added')[e] == Calls(types, h, indexed, m, e)
  }

  // How often the call comes: once for a structure that was indexed in the view, and once for a Sofa in the base CAS.
  ghost function Calls(types: Types, h: Heap, indexed: seq<set<nat>>, m: map<nat, nat>, e: Adding): nat {
    (if FromView(indexed, m, e) then 1 else 0) + if FromSofa(types, h, m, e) then 1 else 0
  }

  ghost predicate FromView(indexed: seq<set<nat>>, m: map<nat, nat>, e: Adding) {
    exists a :: a in m && e.fs == m[a] && e.view < |indexed| && a in indexed[e.view]
  }

  ghost predicate FromSofa(types: Types, h: Heap, m: map<nat, nat>, e: Adding) {
    exists a :: a in m && e == Adding(0, m[a]) && IsSofa(types, h, a)
  }

  lemma WritableMeans(types: Types, h: Heap, indexed: seq<set<nat>>, queue: map<nat, seq<nat>>)
    requires IsWritableCAS(types, h, indexed, queue)
    ensures var ids := Ascending(queue.Keys);
            && IsClosure(types, h.cells, indexed, queue) && IsSource(types, h, ids, queue) && TypesOK(types)
            && StrictlyIncreasing(ids)
            && (forall a :: a in ids ==> Readable(types, h, a)) && (forall a :: a in queue ==> Readable(types, h, a))
            && (forall a :: a in ids <==> a in queue) && ViewsKnown(types, h, ids, queue)
            && IsClosed(types, h.cells, ids)
  {
    var ids := Ascending(queue.Keys);
    assert forall a :: a in ids <==> a in queue.Keys;
    hide Ascending, Readable, IsSource, Edge, IsReachable, OtherSofas;
    forall a | a in queue
      ensures queue[a] == ViewsOf(indexed, a) && forall b :: Edge(types, h.cells, a, b) ==> b in queue
    {
      assert EntryOK(types, h.cells, indexed, queue, a);
    }
    SourceIs(types, h, ids, queue);
  }

  lemma SourceIs(types: Types, h: Heap, ids: seq<nat>, queue: map<nat, seq<nat>>)
    requires IsSource(types, h, ids, queue)
    ensures TypesOK(types) && StrictlyIncreasing(ids)
  {
  }

  // A call for some structure, and the structure it came from.
  lemma CallsAre(types: Types, h: Heap, indexed: seq<set<nat>>, ids: seq<nat>, queue: map<nat, seq<nat>>, r: Reader,
                 e: Adding)
    requires (forall a :: a in ids <==> a in queue) && (forall a :: a in queue ==> queue[a] == ViewsOf(indexed, a))
    requires r.fsTree.Keys == Elements(ids)
    ensures FromView(indexed, Renaming(r), e) <==> SomeAdded(queue, Renaming(r), ids, e)
    ensures FromSofa(types, h, Renaming(r), e) <==> SofaCalled(types, h, ids, r, e)
  {
    ViewCallsAre(indexed, ids, queue, r, e);
    SofaCallsAre(types, h, ids, r, e);
  }

  lemma ViewCallsAre(indexed: seq<set<nat>>, ids: seq<nat>, queue: map<nat, seq<nat>>, r: Reader, e: Adding)
    requires (forall a :: a in ids <==> a in queue) && (forall a :: a in queue ==> queue[a] == ViewsOf(indexed, a))
    requires r.fsTree.Keys == Elements(ids)
    ensures FromView(indexed, Renaming(r), e) <==> SomeAdded(queue, Renaming(r), ids, e)
  {
    var m := Renaming(r);
    if k :| 0 <= k < |ids| && IsAdded(queue, m, ids[k], e) {
      assert ids[k] in ids && ids[k] in m;
    }
    if a :| a in m && e.fs == m[a] && e.view < |indexed| && a in indexed[e.view] {
      assert a in Elements(ids);
      var k :| 0 <= k < |ids| && ids[k] == a;
      assert IsAdded(queue, m, ids[k], e);
    }
  }

  lemma SofaCallsAre(types: Types, h: Heap, ids: seq<nat>, r: Reader, e: Adding)
    requires r.fsTree.Keys == Elements(ids)
    ensures FromSofa(types, h, Renaming(r), e) <==> SofaCalled(types, h, ids, r, e)
  {
    var m := Renaming(r);
    hide IsSofa;
    if k :| 0 <= k < |ids| && SofaAdded(types, h, r, ids[k], e) {
      assert ids[k] in ids && m[ids[k]] == r.fsTree[ids[k]].addr;
    }
    if a :| a in m && e == Adding(0, m[a]) && IsSofa(types, h, a) {
      assert a in Elements(ids);
      var k :| 0 <= k < |ids| && ids[k] == a;
      assert SofaAdded(types, h, r, ids[k], e);
    }
  }

  lemma Transferred(types: Types, h: Heap, indexed: seq<set<nat>>, queue: map<nat, seq<nat>>, r: Reader, h': Heap,
                    added': seq<Adding>)
    requires IsWritableCAS(types, h, indexed, queue) && TypesOK(types)
    requires (forall a :: a in Ascending(queue.Keys) ==> Readable(types, h, a))
    requires Loaded(types, h, Ascending(queue.Keys), queue, r)
    requires CanFinish(types, r) && FinishedUpTo(types, r, |Infos(r)|, h', added')
    ensures IsTransferred(types, h, indexed, h', added', Renaming(r))
  {
    hide *;
    var ids, m := Ascending(queue.Keys), Renaming(r);
    WritableMeans(types, h, indexed, queue);
    LoadedMeans(types, h, ids, queue, r);
    LoadedIsRebuilt(types, h, ids, queue, r, h', added');
    RenamingIsInjective(types, h, ids, queue, r);
    forall a: nat ensures a in m <==> IsReachable(types, h.cells, indexed, a) {
      EnqueuedIsReachable(types, h.cells, indexed, queue, a);
      assert a in m.Keys <==> a in ids;
    }
    forall a | a in queue ensures queue[a] == ViewsOf(indexed, a) {
      NotedViews(types, h.cells, indexed, queue, a);
    }
    forall a | a in ids && a in queue ensures StrictlyIncreasing(queue[a]) {
      assert StrictlyIncreasing(ViewsOf(indexed, a));
    }
    forall e ensures multiset(added')[e] == Calls(types, h, indexed, m, e) {
      ViewsReturn(types, h, ids, queue, r, h', added', e);
      CallsAre(types, h, indexed, ids, queue, r, e);
      CallsSum(types, h, indexed, m, e);
    }
    ItIsTransferred(types, h, indexed, h', added', m);
  }

  lemma CallsSum(types: Types, h: Heap, indexed: seq<set<nat>>, m: map<nat, nat>, e: Adding)
    ensures Calls(types, h, indexed, m, e)
         == (if FromView(indexed, m, e) then 1 else 0) + if FromSofa(types, h, m, e) then 1 else 0
  {
  }

  lemma ItIsTransferred(types: Types, h: Heap, indexed: seq<set<nat>>, h': Heap, added': seq<Adding>, m: map<nat, nat>)
    requires IsInjective(m) && (forall a :: a in m <==> IsReachable(types, h.cells, indexed, a))
    requires forall a :: a in m ==> IsRebuilt(types, h, a, h', m)
    requires forall e :: multiset(added')[e] == Calls(types, h, indexed, m, e)
    ensures IsTransferred(types, h, indexed, h', added', m)
  {
  }

  /**
   The round trip: what was enqueued and written is read without an error
   exactly if no reachable array of bytes is empty. Then the renaming of the
   numbers to the new addresses is injective on exactly the reachable
   structures, every one of them is rebuilt, with null references left null and
   all others renamed, and is added to exactly the views that had it indexed.
   */
  lemma WrittenIsRebuilt(types: Types, h: Heap, indexed: seq<set<nat>>, queue: map<nat, seq<nat>>, target: Heap)
    requires IsWritableCAS(types, h, indexed, queue) && HeapOK(target)
    ensures ReaderOK(types, Initial(target)) && forall a :: a in queue ==> Readable(types, h, a)
    ensures var o := Run(types, Initial(target), ReportedDocument(DocumentPieces(types, h, queue)));
            && (o.Fine? <==> AllClosed(types, h, Ascending(queue.Keys)))
            && (o.Fine? ==>
                  CanFinish(types, o.reader) &&
                  forall h', added' :: FinishedUpTo(types, o.reader, |Infos(o.reader)|, h', added') ==>
                                         IsTransferred(types, h, indexed, h', added', Renaming(o.reader)))
  {
    hide *;
    WritableMeans(types, h, indexed, queue);
    DocumentLoads(types, h, queue, target);
    var o := Run(types, Initial(target), ReportedDocument(DocumentPieces(types, h, queue)));
    if o.Fine? {
      LoadedCanFinish(types, h, Ascending(queue.Keys), queue, o.reader);
      forall h', added' | FinishedUpTo(types, o.reader, |Infos(o.reader)|, h', added')
        ensures IsTransferred(types, h, indexed, h', added', Renaming(o.reader))
      {
        Transferred(types, h, indexed, queue, o.reader, h', added');
      }
    }
  }

  /** Writing the structures of a CAS with one object and reading them with another. */
  method Transfer(types: Types, h: Heap, ghost nodes: set<nat>, ghost ids: seq<nat>,
                  views: seq<IndexRepository.IndexRepository>, target: Heap)
    returns (ok: bool, handler: XCASDeserializerHandler, ghost m: map<nat, nat>)
    requires IsGraph(types, h.cells, nodes) && (forall a :: a in nodes ==> Readable(types, h, a)) && HeapOK(target)
    requires AllReady(views, nodes)
    requires AreReachable(types, h.cells, IndexedIn(views), ids) && CanBeWritten(types, h, ids, |views|)
    modifies views`clean, IndexRepository.AllCaches(views)`cache
    ensures AllReady(views, nodes) && IndexedIn(views) == old(IndexedIn(views))
    ensures ok
       <==> forall a :: IsReachable(types, h.cells, IndexedIn(views), a) && IsStructure(types, h.cells, a) ==>
                          !IsUnclosed(types, h, a)
    ensures ok ==> IsTransferred(types, h, IndexedIn(views), handler.heap, handler.added, m)
  {
    hide *;
    IndexRepository.AllObjects(views);
    var writer := new XCASWriter(types, h, nodes);
    var text := writer.Write(views);
    ghost var indexed, queue := IndexedIn(views), writer.enqueuedFS;
    ReachableIsWritable(types, h, indexed, ids, queue);
    WrittenIsRebuilt(types, h, indexed, queue, target);
    ClosedMeans(types, h, indexed, queue);
    ghost var o := Run(types, Initial(target), ReportedDocument(text));
    ok, handler := ReadDocument(types, target, text);
    m := if ok then Renaming(o.reader) else map[];
  }

  // One object parses the text and finishes what it has loaded.
  method ReadDocument(types: Types, target: Heap, text: seq<Piece>) returns (ok: bool, handler: XCASDeserializerHandler)
    requires HeapOK(target) && ReaderOK(types, Initial(target))
    requires var o := Run(types, Initial(target), ReportedDocument(text)); o.Fine? ==> CanFinish(types, o.reader)
    ensures fresh(handler)
    ensures var o := Run(types, Initial(target), ReportedDocument(text));
            && ok == o.Fine?
            && (ok ==> CanFinish(types, o.reader)
                       && FinishedUpTo(types, o.reader, |Infos(o.reader)|, handler.heap, handler.added))
  {
    hide *;
    handler := new XCASDeserializerHandler(types, target);
    InitialHandler(handler, target);
    ok := handler.Parse(ReportedDocument(text));
    if ok {
      handler.EndDocument();
    }
  }

  lemma ReachableIsWritable(types: Types, h: Heap, indexed: seq<set<nat>>, ids: seq<nat>, queue: map<nat, seq<nat>>)
    requires IsClosure(types, h.cells, indexed, queue) && AreReachable(types, h.cells, indexed, ids)
    requires CanBeWritten(types, h, ids, |indexed|)
    ensures IsWritableCAS(types, h, indexed, queue)
  {
    hide IsReachable, IsClosure, OtherSofas, SofasNumbered, Writable;
    forall a: nat ensures a in Ascending(queue.Keys) <==> a in ids {
      EnqueuedIsReachable(types, h.cells, indexed, queue, a);
      assert a in queue.Keys <==> a in queue;
    }
    AscendingIsUnique(ids, Ascending(queue.Keys));
    PrefixWritable(types, h, ids, |ids|);
  }

  lemma ClosedMeans(types: Types, h: Heap, indexed: seq<set<nat>>, queue: map<nat, seq<nat>>)
    requires IsClosure(types, h.cells, indexed, queue)
    ensures AllClosed(types, h, Ascending(queue.Keys))
       <==> forall a :: IsReachable(types, h.cells, indexed, a) && IsStructure(types, h.cells, a) ==>
                          !IsUnclosed(types, h, a)
  {
    hide IsReachable, IsClosure, IsUnclosed;
    forall a: nat ensures a in Ascending(queue.Keys) <==> IsReachable(types, h.cells, indexed, a) {
      EnqueuedIsReachable(types, h.cells, indexed, queue, a);
      assert a in queue.Keys <==> a in queue;
    }
  }

  lemma InitialHandler(x: XCASDeserializerHandler, target: Heap)
    requires x.Value() == Reader(DocState, target, 0, 0, [], map[], [], ViewMap([0], 0, [0, 1]), [])
    ensures x.Value() == Initial(target)
  {
  }
}
