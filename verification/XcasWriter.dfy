/**
 Writing a CAS as XCAS: the structures that are indexed in some view, and all
 that these refer to, are collected during a recursive walk over a heap that
 may be cyclic, and then written in the order of their addresses.
 */
module XcasWriter {
  import opened Xcas
  import opened XcasText
  import opened IndexedFSs
  import opened IndexRepository
  import opened SingleIndex
  import TypeTree
  import TopologicalSort

  // ------------------------------------------------------- what is enqueued

  // For each enqueued structure the views in which it is indexed.
  type Queue = map<nat, seq<nat>>

  // The views, in order, whose set contains the structure.
  ghost function ViewsOf(indexed: seq<set<nat>>, fs: nat): (views: seq<nat>)
    ensures StrictlyIncreasing(views)
    ensures forall v :: v in views <==> 0 <= v < |indexed| && fs in indexed[v]
  {
    if indexed == [] then []
    else
      var n := |indexed| - 1;
      var before := ViewsOf(indexed[..n], fs);
      assert forall i :: 0 <= i < |before| ==> before[i] in before;
      before + if fs in indexed[n] then [n] else []
  }

  ghost predicate IsIndexed(indexed: seq<set<nat>>, fs: nat) {
    exists v :: 0 <= v < |indexed| && fs in indexed[v]
  }

  // Some indexed structure leads to it.
  ghost predicate IsReachable(types: Types, cells: seq<nat>, indexed: seq<set<nat>>, fs: nat) {
    exists root :: IsIndexed(indexed, root) && Reaches(types, cells, root, fs)
  }

  // Every reference of a is null or enqueued.
  ghost predicate RefsEnqueued(types: Types, cells: seq<nat>, queue: Queue, a: nat) {
    forall b {:trigger Edge(types, cells, a, b)} :: Edge(types, cells, a, b) ==> b in queue
  }

  // The structure is enqueued with its references, for a reason, and with its views.
  ghost predicate EntryOK(types: Types, cells: seq<nat>, indexed: seq<set<nat>>, queue: Queue, a: nat) {
    && a in queue && RefsEnqueued(types, cells, queue, a)
    && IsReachable(types, cells, indexed, a) && queue[a] == ViewsOf(indexed, a)
  }

  // The queue while indexed structures are entered.
  ghost predicate IsClosure(types: Types, cells: seq<nat>, indexed: seq<set<nat>>, queue: Queue) {
    && (forall a {:trigger EntryOK(types, cells, indexed, queue, a)} :: a in queue ==>
          EntryOK(types, cells, indexed, queue, a))
    && (forall a :: IsIndexed(indexed, a) ==> a in queue)
  }

  /** The enqueued structures are exactly the reachable ones, each with the views that index it. */
  lemma EnqueuedIsReachable(types: Types, cells: seq<nat>, indexed: seq<set<nat>>, queue: Queue, fs: nat)
    requires IsClosure(types, cells, indexed, queue)
    ensures fs in queue <==> IsReachable(types, cells, indexed, fs)
    ensures fs in queue ==> queue[fs] == ViewsOf(indexed, fs) && forall b :: Edge(types, cells, fs, b) ==> b in queue
  {
    if IsReachable(types, cells, indexed, fs) {
      var root :| IsIndexed(indexed, root) && Reaches(types, cells, root, fs);
      forall x, y | x in queue.Keys && Edge(types, cells, x, y) ensures y in queue.Keys {
        assert EntryOK(types, cells, indexed, queue, x);
      }
      ClosedContainsReachable(types, cells, queue.Keys, root, fs);
    }
    if fs in queue {
      assert EntryOK(types, cells, indexed, queue, fs);
    }
  }

  // What the walk from fs adds: structures that fs leads to, all of whose references are enqueued.
  ghost predicate Walked(types: Types, cells: seq<nat>, before: Queue, after: Queue, fs: nat) {
    && before.Keys <= after.Keys && (forall a :: a in before ==> after[a] == before[a])
    && forall a {:trigger WalkedTo(types, cells, after, fs, a)} ::
         a in after && a !in before ==> WalkedTo(types, cells, after, fs, a)
  }

  ghost predicate WalkedTo(types: Types, cells: seq<nat>, after: Queue, fs: nat, a: nat) {
    a in after && after[a] == [] && RefsEnqueued(types, cells, after, a) && Reaches(types, cells, fs, a)
  }

  // After a walk from a successor of fs the walk from fs is that much further.
  lemma WalkedFurther(types: Types, cells: seq<nat>, q0: Queue, q1: Queue, q2: Queue, fs: nat, next: nat)
    requires Walked(types, cells, q0, q1, fs) && Walked(types, cells, q1, q2, next) && Edge(types, cells, fs, next)
    ensures Walked(types, cells, q0, q2, fs)
  {
    hide Edge, Reaches;
    forall a | a in q2 && a !in q0 ensures WalkedTo(types, cells, q2, fs, a) {
      if a in q1 {
        assert WalkedTo(types, cells, q1, fs, a);
      } else {
        assert WalkedTo(types, cells, q2, next, a);
        EdgeThenReaches(types, cells, fs, next, a);
      }
    }
  }

  // References in the first n slots are null or enqueued.
  ghost predicate SlotsEnqueued(types: Types, cells: seq<nat>, queue: Queue, a: nat, n: nat) {
    && IsStructure(types, cells, a)
    && forall i :: 0 <= i < n && IsRefSlot(types, cells, a, i) ==>
                     SlotEnqueued(cells[SlotAt(types, cells, a, i)], queue)
  }

  predicate SlotEnqueued(b: nat, queue: Queue) {
    b != 0 ==> b in queue
  }

  lemma AllSlotsEnqueued(types: Types, cells: seq<nat>, queue: Queue, a: nat)
    requires IsStructure(types, cells, a) && SlotsEnqueued(types, cells, queue, a, SlotCount(types, cells, a))
    ensures RefsEnqueued(types, cells, queue, a)
  {
    forall b | Edge(types, cells, a, b) ensures b in queue {
      var i :| IsRefSlot(types, cells, a, i) && cells[SlotAt(types, cells, a, i)] == b;
      assert SlotEnqueued(b, queue);
    }
  }

  // The walk from a new structure is complete when its own references are enqueued.
  lemma WalkedWhole(types: Types, cells: seq<nat>, q0: Queue, q1: Queue, q2: Queue, fs: nat)
    requires fs !in q0 && q1 == q0[fs := []] && Walked(types, cells, q1, q2, fs) && RefsEnqueued(types, cells, q2, fs)
    ensures Walked(types, cells, q0, q2, fs)
  {
    hide Edge, Reaches, RefsEnqueued;
    ReachesItself(types, cells, fs);
    forall a | a in q2 && a !in q0 ensures WalkedTo(types, cells, q2, fs, a) {
      assert a != fs ==> WalkedTo(types, cells, q2, fs, a);
    }
  }

  class XCASWriter {
    const types: Types
    const heap: Heap
    ghost const nodes: set<nat>
    var enqueuedFS: Queue

    ghost predicate Valid()
      reads this
    {
      IsGraph(types, heap.cells, nodes) && enqueuedFS.Keys <= nodes
    }

    constructor (types: Types, heap: Heap, ghost nodes: set<nat>)
      requires IsGraph(types, heap.cells, nodes)
      ensures Valid() && this.types == types && this.heap == heap && this.nodes == nodes && enqueuedFS == map[]
    {
      this.types, this.heap, this.nodes, enqueuedFS := types, heap, nodes, map[];
    }

    /** enqueueUnindexed: without views, if it is not there yet. */
    method EnqueueUnindexed(fs: nat) returns (isNew: bool)
      requires Valid() && fs in nodes
      modifies this
      ensures Valid() && isNew == (fs !in old(enqueuedFS))
      ensures enqueuedFS == if isNew then old(enqueuedFS)[fs := []] else old(enqueuedFS)
    {
      isNew := fs !in enqueuedFS;
      if isNew {
        enqueuedFS := enqueuedFS[fs := []];
      }
    }

    /**
     findReferencedFSs: the walk from fs, which is entered first if check is
     set. It ends although structures may lead back to themselves.
     */
    method FindReferencedFSs(fs: nat, check: bool)
      requires Valid() && (fs != 0 ==> fs in nodes) && (!check ==> fs != 0 && fs in enqueuedFS)
      modifies this
      ensures Valid() && Walked(types, heap.cells, old(enqueuedFS), enqueuedFS, fs)
      ensures fs == 0 ==> enqueuedFS == old(enqueuedFS)
      ensures check && fs != 0 ==> fs in enqueuedFS
      ensures !check ==> RefsEnqueued(types, heap.cells, enqueuedFS, fs)
      decreases |nodes - enqueuedFS.Keys|, !check
    {
      hide *;
      NothingWalked(types, heap.cells, enqueuedFS, fs);
      if fs == 0 {
        return;
      }
      ghost var q0 := enqueuedFS;
      if check {
        var isNew := EnqueueUnindexed(fs);
        if !isNew {
          return;
        }
        FewerLeft(nodes, q0, fs);
      }
      ghost var q1 := enqueuedFS;
      NothingWalked(types, heap.cells, enqueuedFS, fs);
      SlotsOf(this, fs);
      var shape := types.shapes[heap.cells[fs]];
      for i := 0 to SlotCount(types, heap.cells, fs)
        invariant Valid() && fs in enqueuedFS && Walked(types, heap.cells, q1, enqueuedFS, fs)
        invariant SlotsEnqueued(types, heap.cells, enqueuedFS, fs, i)
      {
        KindOfSlot(this, fs, i);
        if KindAt(shape, i) == Reference {
          var b := heap.cells[SlotAt(types, heap.cells, fs, i)];
          ghost var q2 := enqueuedFS;
          SlotLeads(this, fs, i);
          WalkGrows(this, q1, enqueuedFS, fs);
          FindReferencedFSs(b, true);
          WalkGrows(this, q2, enqueuedFS, b);
          SlotIsEnqueued(b, enqueuedFS);
          NextSlot(types, heap.cells, q1, q2, enqueuedFS, fs, i);
        } else {
          OtherSlot(types, heap.cells, enqueuedFS, fs, i);
        }
      }
      AllSlotsEnqueued(types, heap.cells, enqueuedFS, fs);
      if check {
        WalkedWhole(types, heap.cells, q0, q1, enqueuedFS, fs);
      }
    }

    /**
     enqueueIndexed: the view is noted for fs, once; a structure that is new is
     entered with all that it leads to.
     */
    method EnqueueIndexed(fs: nat, sofa: nat, ghost indexed: seq<set<nat>>) returns (isNew: bool)
      requires Valid() && fs in nodes && fs != 0 && |indexed| == sofa + 1
      requires IsClosure(types, heap.cells, indexed, enqueuedFS)
      modifies this
      ensures Valid() && isNew == (fs !in old(enqueuedFS))
      ensures IsClosure(types, heap.cells, OneMore(indexed, fs), enqueuedFS)
    {
      hide *;
      var cells := heap.cells;
      ValidMeans(this);
      isNew := fs !in enqueuedFS;
      if !isNew {
        var indexes := enqueuedFS[fs];
        NotedViews(types, cells, indexed, enqueuedFS, fs);
        for i := 0 to |indexes|
          invariant sofa !in indexes[..i]
        {
          if sofa == indexes[i] {
            AlreadyIndexed(types, cells, indexed, enqueuedFS, fs);
            return;
          }
          assert indexes[..i + 1] == indexes[..i] + [indexes[i]];
        }
        assert indexes[..|indexes|] == indexes;
        AnotherView(types, cells, indexed, enqueuedFS, fs);
        enqueuedFS := enqueuedFS[fs := indexes + [sofa]];
        ValidMeans(this);
        return;
      }
      ghost var q0 := enqueuedFS;
      enqueuedFS := enqueuedFS[fs := [sofa]];
      ValidMeans(this);
      ghost var q1 := enqueuedFS;
      FindReferencedFSs(fs, false);
      NewIndexed(types, cells, indexed, q0, q1, enqueuedFS, fs);
    }

    // Enters what the iterator yields for the last view.
    method EnqueueAll(it: IndexIterator, sofa: nat, ghost indexed: seq<set<nat>>)
      requires Valid() && it.Valid() && (forall fs :: fs in it.structures ==> fs in nodes && fs != 0)
      requires |indexed| == sofa + 1 && IsClosure(types, heap.cells, indexed, enqueuedFS)
      modifies this, it
      ensures Valid() && IsClosure(types, heap.cells, WithList(indexed, it.structures), enqueuedFS)
    {
      hide *;
      ghost var now := indexed;
      WithNothing(indexed, it.structures);
      it.MoveToFirst();
      IteratorAt(it);
      while it.IsValid()
        invariant Valid() && it.Valid() && it.pos <= |it.structures| && it.IsValid() == (it.pos != |it.structures|)
        invariant IsClosure(types, heap.cells, now, enqueuedFS) && now == WithList(indexed, it.structures[..it.pos])
        invariant |now| == sofa + 1
        decreases |it.structures| - it.pos
      {
        var fs := it.Get();
        IteratorAt(it);
        assert fs in it.structures;
        var isNew := EnqueueIndexed(fs, sofa, now);
        WithOneMore(indexed, it.structures, it.pos);
        now := OneMore(now, fs);
        it.MoveToNext();
        IteratorAt(it);
      }
      assert it.structures[..|it.structures|] == it.structures;
    }

    /**
     The structures of one view: those that the iterators over its indexes
     yield, and those that no index covers.
     */
    method EnqueueView(r: IndexRepository, sofa: nat, ghost indexed: seq<set<nat>>)
      requires Valid() && r.Valid() && (forall fs :: fs in r.added ==> fs in nodes && fs != 0)
      requires |indexed| == sofa && IsClosure(types, heap.cells, indexed, enqueuedFS)
      modifies this, r`clean, r.caches`cache
      ensures Valid() && r.Valid() && IsClosure(types, heap.cells, indexed + [Elements(r.added)], enqueuedFS)
    {
      hide *;
      EmptyView(types, heap.cells, indexed, enqueuedFS);
      ghost var now := indexed + [{}];
      NothingCovered(r);
      for id := 0 to |r.setup.definitions|
        invariant Valid() && r.Valid() && now == indexed + [CoveredBy(r.setup, r.added, id)]
        invariant IsClosure(types, heap.cells, now, enqueuedFS)
      {
        IndexReady(r, id);
        var it := r.CreateIterator(id, r.setup.definitions[id].tyType);
        Yields(r, id, it.structures);
        EnqueueAll(it, sofa, now);
        CoveredOneMore(r.setup, r.added, id, indexed, it.structures);
        now := WithList(now, it.structures);
      }
      var undefined := r.undefinedIndex;
      AllCovered(r, indexed);
      for i := 0 to |undefined|
        invariant Valid() && r.Valid() && r.undefinedIndex == undefined && |now| == sofa + 1
        invariant IsClosure(types, heap.cells, now, enqueuedFS)
        invariant now == WithList(indexed + [CoveredBy(r.setup, r.added, |r.setup.definitions|)], undefined[..i])
      {
        assert undefined[i] in undefined;
        var isNew := EnqueueIndexed(undefined[i], sofa, now);
        WithOneMore(indexed + [CoveredBy(r.setup, r.added, |r.setup.definitions|)], undefined, i);
        now := OneMore(now, undefined[i]);
      }
      assert undefined[..|undefined|] == undefined;
    }

    // The first phase of write: the base CAS is view 0, and the number of each other view is that of its Sofa.
    method EnqueueViews(views: seq<IndexRepository>)
      requires Valid() && enqueuedFS == map[] && AllReady(views, nodes)
      modifies this, views`clean, AllCaches(views)`cache
      ensures Valid() && AllReady(views, nodes) && IndexedIn(views) == old(IndexedIn(views))
      ensures IsClosure(types, heap.cells, IndexedIn(views), enqueuedFS)
    {
      hide *;
      AllObjects(views);
      NothingIndexed(types, heap.cells);
      assert IndexedIn(views)[..0] == [];
      for view := 0 to |views|
        invariant Valid() && AllReady(views, nodes) && (forall r :: r in views ==> r.caches == old(r.caches))
        invariant IndexedIn(views) == old(IndexedIn(views))
        invariant IsClosure(types, heap.cells, IndexedIn(views)[..view], enqueuedFS)
      {
        ghost var indexed := IndexedIn(views);
        Ready(views, nodes, view);
        EnqueueView(views[view], view, indexed[..view]);
        assert forall i :: 0 <= i < |views| && i != view ==> views[i].Valid();
        StillReady(views, nodes);
        assert indexed[..view + 1] == indexed[..view] + [Elements(views[view].added)];
      }
      assert IndexedIn(views)[..|views|] == IndexedIn(views);
    }

    // The elements of an array.
    method WriteItems(fs: nat) returns (items: seq<Piece>)
      requires Readable(types, heap, fs) && ShapeAt(types, heap.cells, fs).ArrayOf?
      ensures items == ItemPiecesFrom(types, heap, fs, 0)
    {
      hide *;
      ArrayReady(types, heap, fs);
      items := [];
      for i := 0 to heap.cells[fs + 1]
        invariant items + ItemPiecesFrom(types, heap, fs, i) == ItemPiecesFrom(types, heap, fs, 0)
      {
        ItemsStep(types, heap, fs, i);
        items := items + ItemPieces(ElementText(types, heap, fs, i));
      }
      ItemsDone(types, heap, fs);
    }

    // The features of a structure behind the other attributes.
    method WriteFeatures(fs: nat, leading: seq<Attribute>) returns (attributes: seq<Attribute>)
      requires Readable(types, heap, fs) && ShapeAt(types, heap.cells, fs).Record?
      ensures attributes == leading + FeatureAttributes(types, heap, fs, 0)
    {
      hide *;
      RecordReady(types, heap, fs);
      var features := types.shapes[heap.cells[fs]].fields;
      attributes := leading;
      for i := 0 to |features|
        invariant attributes + FeatureAttributes(types, heap, fs, i) == leading + FeatureAttributes(types, heap, fs, 0)
      {
        FeaturesStep(types, heap, fs, i);
        attributes := attributes + FeatureAttribute(heap, features[i], heap.cells[fs + 1 + i]);
      }
      FeaturesDone(types, heap, fs);
    }

    /** writeFSFlat: the attributes of a structure, or the size and the elements of an array. */
    method WriteFSFlat(fs: nat, indexInfo: seq<nat>) returns (pieces: seq<Piece>)
      requires Readable(types, heap, fs)
      ensures pieces == StructurePieces(types, heap, fs, indexInfo)
    {
      var t := heap.cells[fs];
      var attributes := if |indexInfo| > 0 then [Attribute(IndexedName, PrintedViews(indexInfo))] else [];
      attributes := attributes + [Attribute(IdName, Printed(fs))];
      if types.shapes[t].ArrayOf? {
        if heap.cells[fs + 1] > 0 {
          attributes := attributes + [SizeAttribute(heap.cells[fs + 1])];
          var items := WriteItems(fs);
          pieces := [OpenTag(TypeTag(t), attributes), TagEnd] + items + [CloseTag(TypeTag(t))];
        } else if types.shapes[t].kind == Byte {
          pieces := [OpenTag(TypeTag(t), attributes)];
        } else {
          attributes := attributes + [SizeAttribute(0)];
          pieces := [OpenTag(TypeTag(t), attributes), EmptyTagEnd];
        }
      } else {
        attributes := WriteFeatures(fs, attributes);
        pieces := [OpenTag(TypeTag(t), attributes), EmptyTagEnd];
      }
    }

    // The second phase of write.
    method WriteEnqueued() returns (written: seq<Piece>)
      requires forall a :: a in enqueuedFS ==> Readable(types, heap, a)
      ensures written == BodyPieces(types, heap, Ascending(enqueuedFS.Keys), enqueuedFS)
    {
      hide *;
      written := [];
      var ids := SortedKeys(enqueuedFS);
      assert ids[0..] == ids && ids[|ids|..] == [];
      for k := 0 to |ids|
        invariant written + BodyPieces(types, heap, ids[k..], enqueuedFS) == BodyPieces(types, heap, ids, enqueuedFS)
      {
        assert ids[k] in ids;
        FirstOfBody(types, heap, ids[k..], enqueuedFS);
        assert ids[k..][1..] == ids[k + 1..];
        var element := WriteFSFlat(ids[k], enqueuedFS[ids[k]]);
        written := written + element;
      }
      EmptyBody(types, heap, enqueuedFS);
    }

    /**
     write: every structure that an indexed one leads to is written, and no
     other, each with its views, in the order of the addresses.
     */
    method Write(views: seq<IndexRepository>) returns (pieces: seq<Piece>)
      requires Valid() && enqueuedFS == map[] && AllReady(views, nodes)
      requires forall a :: a in nodes ==> Readable(types, heap, a)
      modifies this, views`clean, AllCaches(views)`cache
      ensures Valid() && AllReady(views, nodes) && IndexedIn(views) == old(IndexedIn(views))
      ensures IsClosure(types, heap.cells, IndexedIn(views), enqueuedFS)
      ensures forall a :: a in enqueuedFS ==> Readable(types, heap, a)
      ensures pieces == DocumentPieces(types, heap, enqueuedFS)
    {
      hide *;
      AllObjects(views);
      EnqueueViews(views);
      ValidMeans(this);
      var written := WriteEnqueued();
      pieces := [OpenTag(CasTag, []), TagEnd] + written + [CloseTag(CasTag)];
      DocumentIs(types, heap, enqueuedFS);
    }
  }

  lemma ArrayReady(types: Types, h: Heap, a: nat)
    requires Readable(types, h, a) && ShapeAt(types, h.cells, a).ArrayOf?
    ensures a + 1 < |h.cells| && ElementCount(types, h.cells, a) == h.cells[a + 1]
  {
  }

  lemma ItemsStep(types: Types, h: Heap, a: nat, i: nat)
    requires Readable(types, h, a) && ShapeAt(types, h.cells, a).ArrayOf? && i < ElementCount(types, h.cells, a)
    ensures IsStructure(types, h.cells, a) && ElementReadable(types, h, a, i)
    ensures ItemPiecesFrom(types, h, a, i)
         == ItemPieces(ElementText(types, h, a, i)) + ItemPiecesFrom(types, h, a, i + 1)
  {
    ElementsAreReadable(types, h, a, i);
  }

  lemma ItemsDone(types: Types, h: Heap, a: nat)
    requires Readable(types, h, a) && ShapeAt(types, h.cells, a).ArrayOf?
    ensures ItemPiecesFrom(types, h, a, ElementCount(types, h.cells, a)) == []
  {
  }

  lemma RecordReady(types: Types, h: Heap, a: nat)
    requires Readable(types, h, a) && ShapeAt(types, h.cells, a).Record?
    ensures h.cells[a] < |types.shapes| && types.shapes[h.cells[a]] == ShapeAt(types, h.cells, a)
    ensures SlotCount(types, h.cells, a) == |types.shapes[h.cells[a]].fields|
    ensures a + 1 + SlotCount(types, h.cells, a) <= |h.cells|
  {
  }

  lemma FeaturesStep(types: Types, h: Heap, a: nat, i: nat)
    requires Readable(types, h, a) && ShapeAt(types, h.cells, a).Record? && i < SlotCount(types, h.cells, a)
    ensures var f := ShapeAt(types, h.cells, a).fields[i];
            && a + 1 + i < |h.cells| && CellReadable(h, f.kind, h.cells[a + 1 + i])
            && FeatureAttributes(types, h, a, i)
            == FeatureAttribute(h, f, h.cells[a + 1 + i]) + FeatureAttributes(types, h, a, i + 1)
  {
    assert SlotReadable(types, h, a, i);
  }

  lemma FeaturesDone(types: Types, h: Heap, a: nat)
    requires Readable(types, h, a) && ShapeAt(types, h.cells, a).Record?
    ensures FeatureAttributes(types, h, a, SlotCount(types, h.cells, a)) == []
  {
  }

  // The keys of the map in ascending order, as a std::map has them.
  method SortedKeys(queue: Queue) returns (ids: seq<nat>)
    ensures ids == Ascending(queue.Keys)
  {
    var keys, list := queue.Keys, [];
    while keys != {}
      invariant keys <= queue.Keys && Elements(list) == queue.Keys - keys
      decreases |keys|
    {
      var a :| a in keys;
      keys := keys - {a};
      list := list + [a];
    }
    ids := SortUnique(list);
    assert Elements(list) == queue.Keys;
  }

  ghost function DocumentPieces(types: Types, h: Heap, queue: Queue): seq<Piece>
    requires forall a :: a in queue ==> Readable(types, h, a)
  {
    [OpenTag(CasTag, []), TagEnd] + BodyPieces(types, h, Ascending(queue.Keys), queue) + [CloseTag(CasTag)]
  }

  lemma DocumentIs(types: Types, h: Heap, queue: Queue)
    requires forall a :: a in queue ==> Readable(types, h, a)
    ensures DocumentPieces(types, h, queue)
         == [OpenTag(CasTag, []), TagEnd] + BodyPieces(types, h, Ascending(queue.Keys), queue) + [CloseTag(CasTag)]
  {
  }

  lemma FirstOfBody(types: Types, h: Heap, ids: seq<nat>, queue: Queue)
    requires ids != [] && forall a :: a in ids ==> a in queue && Readable(types, h, a)
    ensures BodyPieces(types, h, ids, queue)
         == StructurePieces(types, h, ids[0], queue[ids[0]]) + BodyPieces(types, h, ids[1..], queue)
  {
  }

  lemma EmptyBody(types: Types, h: Heap, queue: Queue)
    ensures BodyPieces(types, h, [], queue) == []
  {
  }

  // ------------------------------------------------------------- all views

  ghost function IndexedIn(views: seq<IndexRepository>): (indexed: seq<set<nat>>)
    reads views
    ensures |indexed| == |views| && forall v :: 0 <= v < |views| ==> indexed[v] == Elements(views[v].added)
  {
    seq(|views|, v requires 0 <= v < |views| reads views => Elements(views[v].added))
  }

  // The repositories are valid and separate, and hold structures of the heap.
  ghost predicate AllReady(views: seq<IndexRepository>, nodes: set<nat>)
    reads views, AllSingles(views), AllCaches(views)
  {
    Separate(views) && forall v :: 0 <= v < |views| ==> views[v].Valid() && Within(views[v].added, nodes)
  }

  predicate Within(list: seq<nat>, nodes: set<nat>) {
    forall fs :: fs in list ==> fs in nodes && fs != 0
  }

  lemma Ready(views: seq<IndexRepository>, nodes: set<nat>, v: nat)
    requires AllReady(views, nodes) && v < |views|
    ensures views[v].Valid() && (forall fs :: fs in views[v].added ==> fs in nodes && fs != 0)
    ensures Separate(views) && forall i :: 0 <= i < |views| ==> views[i].Valid() && Within(views[i].added, nodes)
    ensures forall i :: 0 <= i < |views| && i != v ==>
              views[i] != views[v] && views[i].singles !! views[v].singles && views[i].caches !! views[v].caches
  {
  }

  lemma StillReady(views: seq<IndexRepository>, nodes: set<nat>)
    requires Separate(views) && forall v :: 0 <= v < |views| ==> views[v].Valid() && Within(views[v].added, nodes)
    ensures AllReady(views, nodes)
  {
  }

  lemma NothingIndexed(types: Types, cells: seq<nat>)
    ensures IsClosure(types, cells, [], map[])
  {
  }

  // ----------------------------------------------------- entering one view

  ghost function WithList(indexed: seq<set<nat>>, list: seq<nat>): (r: seq<set<nat>>)
    requires indexed != []
    ensures |r| == |indexed|
  {
    indexed[|indexed| - 1 := indexed[|indexed| - 1] + Elements(list)]
  }

  lemma WithNothing(indexed: seq<set<nat>>, list: seq<nat>)
    requires indexed != []
    ensures WithList(indexed, list[..0]) == indexed
  {
    assert Elements(list[..0]) == {};
    assert indexed[|indexed| - 1] + {} == indexed[|indexed| - 1];
  }

  lemma WithOneMore(indexed: seq<set<nat>>, list: seq<nat>, i: nat)
    requires indexed != [] && i < |list|
    ensures WithList(indexed, list[..i + 1]) == OneMore(WithList(indexed, list[..i]), list[i])
  {
    assert list[..i + 1] == list[..i] + [list[i]];
    var last := indexed[|indexed| - 1];
    assert last + Elements(list[..i + 1]) == last + Elements(list[..i]) + {list[i]};
  }

  lemma IteratorAt(it: IndexIterator)
    requires it.Valid()
    ensures it.pos <= |it.structures| && (it.IsValid() <==> it.pos != |it.structures|)
    ensures it.IsValid() ==> it.Get() == it.structures[it.pos]
  {
  }

  lemma EmptyView(types: Types, cells: seq<nat>, indexed: seq<set<nat>>, queue: Queue)
    requires IsClosure(types, cells, indexed, queue)
    ensures IsClosure(types, cells, indexed + [{}], queue)
  {
    var more := indexed + [{}];
    SameIndexed(indexed);
    hide IsIndexed, Reaches, Edge;
    forall a {:trigger EntryOK(types, cells, more, queue, a)} | a in queue
      ensures EntryOK(types, cells, more, queue, a)
    {
      assert EntryOK(types, cells, indexed, queue, a);
      assert more[..|indexed|] == indexed;
    }
  }

  lemma SameIndexed(indexed: seq<set<nat>>)
    ensures forall a :: IsIndexed(indexed + [{}], a) <==> IsIndexed(indexed, a)
  {
    forall a ensures IsIndexed(indexed + [{}], a) <==> IsIndexed(indexed, a) {
      if v :| 0 <= v < |indexed| && a in indexed[v] {
        assert a in (indexed + [{}])[v];
      }
    }
  }

  // The structures that were added and that one of the first n indexes covers.
  ghost function CoveredBy(s: Setup, added: seq<nat>, n: nat): set<nat>
    requires TypeTree.ParentsOK(s.parents)
  {
    set fs | fs in added && IsCoveredBy(s, fs, n)
  }

  ghost predicate IsCoveredBy(s: Setup, fs: nat, n: nat)
    requires TypeTree.ParentsOK(s.parents)
  {
    exists id :: 0 <= id < n && Covers(s, id, s.heap.TypeOf(fs))
  }

  lemma CoveredHasSlots(s: Setup, fs: nat)
    requires TypeTree.ParentsOK(s.parents)
    ensures IsCoveredBy(s, fs, |s.definitions|) <==> HasSlots(s, fs)
  {
    var n, t := |s.definitions|, s.heap.TypeOf(fs);
    if id :| 0 <= id < n && Covers(s, id, t) {
      SlotOfIndex(s, n, t, id);
    }
    if HasSlots(s, fs) {
      IndexOfSlot(s, n, t, 0);
      assert Covers(s, Slots(s, n, t)[0], t);
    }
  }

  lemma NothingCovered(r: IndexRepository)
    requires r.Valid()
    ensures TypeTree.ParentsOK(r.setup.parents) && CoveredBy(r.setup, r.added, 0) == {}
  {
  }

  lemma IndexReady(r: IndexRepository, id: nat)
    requires r.Valid() && id < |r.setup.definitions|
    ensures r.Sound() && TypeTree.IsType(r.setup.parents, r.setup.definitions[id].tyType)
    ensures TypeTree.ParentsOK(r.setup.parents) && Covers(r.setup, id, r.setup.definitions[id].tyType)
  {
    DefinitionOK(r.setup, id);
  }

  // An iterator over a whole index yields what was added and the index covers.
  lemma Yields(r: IndexRepository, id: nat, structures: seq<nat>)
    requires r.Valid() && id < |r.setup.definitions| && TypeTree.ParentsOK(r.setup.parents)
    requires multiset(structures) == Under(r.setup, r.added, r.setup.definitions[id].tyType)
    ensures forall fs :: fs in structures <==> fs in r.added && Covers(r.setup, id, r.setup.heap.TypeOf(fs))
  {
    hide *;
    CoversIs(r.setup, id);
    forall fs: nat ensures fs in structures <==> fs in r.added && Covers(r.setup, id, r.setup.heap.TypeOf(fs)) {
      UnderContains(r.setup, r.added, r.setup.definitions[id].tyType, fs);
      assert fs in structures <==> fs in multiset(structures);
    }
  }

  lemma CoversIs(s: Setup, id: nat)
    requires TypeTree.ParentsOK(s.parents) && id < |s.definitions|
    ensures forall t: nat :: Covers(s, id, t) <==> TypeTree.Subsumes(s.parents, s.definitions[id].tyType, t)
  {
  }

  lemma CoveredOneMore(s: Setup, added: seq<nat>, id: nat, indexed: seq<set<nat>>, structures: seq<nat>)
    requires TypeTree.ParentsOK(s.parents) && id < |s.definitions|
    requires forall fs :: fs in structures <==> fs in added && Covers(s, id, s.heap.TypeOf(fs))
    ensures WithList(indexed + [CoveredBy(s, added, id)], structures) == indexed + [CoveredBy(s, added, id + 1)]
  {
    hide Covers;
    assert CoveredBy(s, added, id) + Elements(structures) == CoveredBy(s, added, id + 1);
  }

  lemma AllCovered(r: IndexRepository, indexed: seq<set<nat>>)
    requires r.Valid() && TypeTree.ParentsOK(r.setup.parents)
    ensures WithList(indexed + [CoveredBy(r.setup, r.added, |r.setup.definitions|)], r.undefinedIndex)
         == indexed + [Elements(r.added)]
    ensures WithList(indexed + [CoveredBy(r.setup, r.added, |r.setup.definitions|)], r.undefinedIndex[..0])
         == indexed + [CoveredBy(r.setup, r.added, |r.setup.definitions|)]
    ensures forall fs :: fs in r.undefinedIndex ==> fs in r.added
  {
    Disassemble(r);
    hide *;
    var n := |r.setup.definitions|;
    forall fs: nat
      ensures fs in CoveredBy(r.setup, r.added, n) + Elements(r.undefinedIndex) <==> fs in Elements(r.added)
    {
      UncoveredContains(r.setup, r.added, fs);
      CoveredHasSlots(r.setup, fs);
      InCoveredBy(r.setup, r.added, n, fs);
    }
    assert CoveredBy(r.setup, r.added, n) + Elements(r.undefinedIndex) == Elements(r.added);
    forall fs | fs in r.undefinedIndex ensures fs in r.added {
      UncoveredContains(r.setup, r.added, fs);
    }
    WithNothing(indexed + [CoveredBy(r.setup, r.added, n)], r.undefinedIndex);
    WithListIs(indexed, CoveredBy(r.setup, r.added, n), r.undefinedIndex);
  }

  lemma InCoveredBy(s: Setup, added: seq<nat>, n: nat, fs: nat)
    requires TypeTree.ParentsOK(s.parents)
    ensures fs in CoveredBy(s, added, n) <==> fs in added && IsCoveredBy(s, fs, n)
  {
  }

  lemma WithListIs(indexed: seq<set<nat>>, last: set<nat>, list: seq<nat>)
    ensures WithList(indexed + [last], list) == indexed + [last + Elements(list)]
  {
  }


  lemma ValidMeans(w: XCASWriter)
    ensures w.Valid() <==> IsGraph(w.types, w.heap.cells, w.nodes) && w.enqueuedFS.Keys <= w.nodes
  {
  }

  // ------------------------------------------------- entering one structure

  // One more structure in the last view.
  ghost function OneMore(indexed: seq<set<nat>>, fs: nat): (r: seq<set<nat>>)
    requires indexed != []
    ensures |r| == |indexed|
  {
    indexed[|indexed| - 1 := indexed[|indexed| - 1] + {fs}]
  }

  lemma ViewsOfOneMore(indexed: seq<set<nat>>, fs: nat, a: nat)
    requires indexed != []
    ensures var n := |indexed| - 1;
            ViewsOf(OneMore(indexed, fs), a) == ViewsOf(indexed, a) + if a == fs && fs !in indexed[n] then [n] else []
  {
    assert OneMore(indexed, fs)[..|indexed| - 1] == indexed[..|indexed| - 1];
  }

  lemma IndexedOneMore(indexed: seq<set<nat>>, fs: nat)
    requires indexed != []
    ensures forall a :: IsIndexed(OneMore(indexed, fs), a) <==> IsIndexed(indexed, a) || a == fs
  {
    var more := OneMore(indexed, fs);
    forall a ensures IsIndexed(more, a) <==> IsIndexed(indexed, a) || a == fs {
      if v :| 0 <= v < |indexed| && a in indexed[v] {
        assert a in more[v];
      }
      assert fs in more[|indexed| - 1];
    }
  }

  lemma ReachableOneMore(types: Types, cells: seq<nat>, indexed: seq<set<nat>>, fs: nat)
    requires indexed != []
    ensures forall a :: IsReachable(types, cells, indexed, a) ==> IsReachable(types, cells, OneMore(indexed, fs), a)
    ensures forall a :: Reaches(types, cells, fs, a) ==> IsReachable(types, cells, OneMore(indexed, fs), a)
  {
    hide IsIndexed, OneMore, Reaches;
    IndexedOneMore(indexed, fs);
  }

  lemma NotedViews(types: Types, cells: seq<nat>, indexed: seq<set<nat>>, queue: Queue, fs: nat)
    requires IsClosure(types, cells, indexed, queue) && fs in queue
    ensures queue[fs] == ViewsOf(indexed, fs)
  {
    assert EntryOK(types, cells, indexed, queue, fs);
  }

  lemma AlreadyIndexed(types: Types, cells: seq<nat>, indexed: seq<set<nat>>, queue: Queue, fs: nat)
    requires IsClosure(types, cells, indexed, queue) && fs in queue && |indexed| > 0 && |indexed| - 1 in queue[fs]
    ensures IsClosure(types, cells, OneMore(indexed, fs), queue)
  {
    NotedViews(types, cells, indexed, queue, fs);
    hide IsClosure;
    assert indexed[|indexed| - 1] + {fs} == indexed[|indexed| - 1];
    assert OneMore(indexed, fs) == indexed;
  }

  lemma EntryKept(types: Types, cells: seq<nat>, indexed: seq<set<nat>>, queue: Queue, queue': Queue, fs: nat, a: nat)
    requires EntryOK(types, cells, indexed, queue, a) && queue.Keys <= queue'.Keys && indexed != []
    requires queue'[a] == queue[a] + if a == fs && fs !in indexed[|indexed| - 1] then [|indexed| - 1] else []
    ensures EntryOK(types, cells, OneMore(indexed, fs), queue', a)
  {
    hide OneMore, Edge, IsReachable;
    ReachableOneMore(types, cells, indexed, fs);
    ViewsOfOneMore(indexed, fs, a);
  }

  lemma AnotherView(types: Types, cells: seq<nat>, indexed: seq<set<nat>>, queue: Queue, fs: nat)
    requires IsClosure(types, cells, indexed, queue) && fs in queue && |indexed| > 0 && |indexed| - 1 !in queue[fs]
    ensures IsClosure(types, cells, OneMore(indexed, fs), queue[fs := queue[fs] + [|indexed| - 1]])
  {
    var queue' := queue[fs := queue[fs] + [|indexed| - 1]];
    NotedViews(types, cells, indexed, queue, fs);
    hide IsIndexed, OneMore, EntryOK;
    IndexedOneMore(indexed, fs);
    forall a | a in queue' ensures EntryOK(types, cells, OneMore(indexed, fs), queue', a) {
      EntryKept(types, cells, indexed, queue, queue', fs, a);
    }
  }

  lemma EntryNew(types: Types, cells: seq<nat>, indexed: seq<set<nat>>, queue: Queue, fs: nat, a: nat)
    requires indexed != [] && !IsIndexed(indexed, a) && a in queue && RefsEnqueued(types, cells, queue, a)
    requires Reaches(types, cells, fs, a) && queue[a] == if a == fs then [|indexed| - 1] else []
    ensures EntryOK(types, cells, OneMore(indexed, fs), queue, a)
  {
    hide OneMore, Edge, IsReachable, IsIndexed, Reaches;
    ReachableOneMore(types, cells, indexed, fs);
    ViewsOfOneMore(indexed, fs, a);
    NotIndexed(indexed, a);
  }

  lemma NewIndexed(types: Types, cells: seq<nat>, indexed: seq<set<nat>>, q0: Queue, q1: Queue, q2: Queue, fs: nat)
    requires |indexed| > 0 && IsClosure(types, cells, indexed, q0) && fs !in q0 && q1 == q0[fs := [|indexed| - 1]]
    requires Walked(types, cells, q1, q2, fs) && RefsEnqueued(types, cells, q2, fs)
    ensures IsClosure(types, cells, OneMore(indexed, fs), q2)
  {
    hide IsIndexed, OneMore, EntryOK, RefsEnqueued, Reaches;
    IndexedOneMore(indexed, fs);
    ReachesItself(types, cells, fs);
    forall a | a in q2 ensures EntryOK(types, cells, OneMore(indexed, fs), q2, a) {
      if a in q0 {
        EntryKept(types, cells, indexed, q0, q2, fs, a);
      } else {
        assert a != fs ==> WalkedTo(types, cells, q2, fs, a);
        EntryNew(types, cells, indexed, q2, fs, a);
      }
    }
  }

  lemma NotIndexed(indexed: seq<set<nat>>, a: nat)
    ensures !IsIndexed(indexed, a) ==> ViewsOf(indexed, a) == []
    ensures indexed != [] && !IsIndexed(indexed, a) ==> a !in indexed[|indexed| - 1]
  {
    if ViewsOf(indexed, a) != [] {
      assert ViewsOf(indexed, a)[0] in ViewsOf(indexed, a);
    }
  }

  lemma SlotIsEnqueued(b: nat, queue: Queue)
    requires b != 0 ==> b in queue
    ensures SlotEnqueued(b, queue)
  {
  }

  lemma FewerLeft(nodes: set<nat>, queue: Queue, fs: nat)
    requires fs in nodes && fs !in queue
    ensures |nodes - queue[fs := []].Keys| < |nodes - queue.Keys|
  {
    assert nodes - queue.Keys == nodes - queue[fs := []].Keys + {fs};
  }

  lemma SlotLeads(w: XCASWriter, fs: nat, i: nat)
    requires w.Valid() && fs in w.nodes && IsStructure(w.types, w.heap.cells, fs)
    requires IsRefSlot(w.types, w.heap.cells, fs, i)
    ensures var b := w.heap.cells[SlotAt(w.types, w.heap.cells, fs, i)];
            b != 0 ==> b in w.nodes && Edge(w.types, w.heap.cells, fs, b)
  {
    var b := w.heap.cells[SlotAt(w.types, w.heap.cells, fs, i)];
    if b != 0 {
      assert Edge(w.types, w.heap.cells, fs, b);
    }
  }

  lemma StillEnqueued(types: Types, cells: seq<nat>, q1: Queue, q2: Queue, fs: nat, n: nat)
    requires SlotsEnqueued(types, cells, q1, fs, n) && q1.Keys <= q2.Keys
    ensures SlotsEnqueued(types, cells, q2, fs, n)
  {
    forall i | 0 <= i < n && IsRefSlot(types, cells, fs, i)
      ensures SlotEnqueued(cells[SlotAt(types, cells, fs, i)], q2)
    {
      assert SlotEnqueued(cells[SlotAt(types, cells, fs, i)], q1);
    }
  }

  lemma NextSlot(types: Types, cells: seq<nat>, q1: Queue, q2: Queue, q3: Queue, fs: nat, i: nat)
    requires IsStructure(types, cells, fs) && IsRefSlot(types, cells, fs, i)
    requires Walked(types, cells, q1, q2, fs) && SlotsEnqueued(types, cells, q2, fs, i)
    requires var b := cells[SlotAt(types, cells, fs, i)];
             && Walked(types, cells, q2, q3, b) && SlotEnqueued(b, q3)
             && if b == 0 then q3 == q2 else Edge(types, cells, fs, b)
    ensures Walked(types, cells, q1, q3, fs) && SlotsEnqueued(types, cells, q3, fs, i + 1)
  {
    var b := cells[SlotAt(types, cells, fs, i)];
    if b != 0 {
      WalkedFurther(types, cells, q1, q2, q3, fs, b);
    }
    StillEnqueued(types, cells, q2, q3, fs, i);
  }

  lemma OtherSlot(types: Types, cells: seq<nat>, queue: Queue, fs: nat, i: nat)
    requires SlotsEnqueued(types, cells, queue, fs, i) && !IsRefSlot(types, cells, fs, i)
    ensures SlotsEnqueued(types, cells, queue, fs, i + 1)
  {
  }

  lemma NothingWalked(types: Types, cells: seq<nat>, queue: Queue, fs: nat)
    ensures Walked(types, cells, queue, queue, fs)
    ensures IsStructure(types, cells, fs) ==> SlotsEnqueued(types, cells, queue, fs, 0)
  {
  }

  lemma WalkGrows(w: XCASWriter, q0: Queue, q1: Queue, fs: nat)
    requires Walked(w.types, w.heap.cells, q0, q1, fs)
    ensures q0.Keys <= q1.Keys && forall a :: a in q0 ==> q1[a] == q0[a]
    ensures |w.nodes - q1.Keys| <= |w.nodes - q0.Keys|
  {
    assert w.nodes - q1.Keys <= w.nodes - q0.Keys;
    TopologicalSort.SubsetSize(w.nodes - q1.Keys, w.nodes - q0.Keys);
  }

  lemma SlotsOf(w: XCASWriter, fs: nat)
    requires w.Valid() && fs in w.nodes
    ensures IsStructure(w.types, w.heap.cells, fs) && fs < |w.heap.cells| && w.heap.cells[fs] < |w.types.shapes|
    ensures ShapeAt(w.types, w.heap.cells, fs) == w.types.shapes[w.heap.cells[fs]]
  {
  }

  lemma KindOfSlot(w: XCASWriter, fs: nat, i: nat)
    requires IsStructure(w.types, w.heap.cells, fs) && i < SlotCount(w.types, w.heap.cells, fs)
    ensures var s := ShapeAt(w.types, w.heap.cells, fs);
            (s.Record? ==> i < |s.fields|) && (IsRefSlot(w.types, w.heap.cells, fs, i) <==> KindAt(s, i) == Reference)
  {
  }
}
