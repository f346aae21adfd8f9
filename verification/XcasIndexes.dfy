/**
 The indexes of a CAS that was read from XCAS: the repositories of the target
 are emptied and take in what the reader adds to their views.
 */
module XcasIndexes {
  import opened Xcas
  import opened XcasWriter
  import opened XcasReader
  import opened XcasRoundTrip
  import opened XcasTransfer
  import opened IndexedFSs
  import IndexRepository
  import IndexRebuild
  import IndexComparator
  import TypeTree
  import HeapMeaning

  // The calls for one view, in their order.
  function CallsOf(calls: seq<Adding>, v: nat): seq<nat> {
    if calls == [] then []
    else
      var last := calls[|calls| - 1];
      CallsOf(calls[..|calls| - 1], v) + if last.view == v then [last.fs] else []
  }

  lemma {:induction false} CallsOfCount(calls: seq<Adding>, v: nat, fs: nat)
    ensures multiset(CallsOf(calls, v))[fs] == multiset(calls)[Adding(v, fs)]
  {
    if calls != [] {
      var n := |calls| - 1;
      assert calls == calls[..n] + [calls[n]];
      CallsOfCount(calls[..n], v, fs);
    }
  }

  // What the comparators read in the heap.
  function ViewOf(h: Heap, priority: map<nat, nat>): IndexComparator.HeapView {
    var longs := seq(|h.longs|, i requires 0 <= i < |h.longs| => IndexComparator.Signed(h.longs[i], BITS64));
    IndexComparator.HeapView(h.cells, h.refs, h.chars, longs, priority)
  }

  // The indexes of the repository over the heap.
  function SetupOver(s: IndexRepository.Setup, h: Heap): IndexRepository.Setup {
    IndexRepository.Rebased(s, ViewOf(h, s.heap.priority))
  }

  // The repositories read the cells, texts and longs of the heap.
  ghost predicate AllShow(rs: seq<IndexRepository.IndexRepository>, h: Heap)
    reads rs`setup
  {
    forall v :: 0 <= v < |rs| ==> HeapMeaning.Shows(rs[v].setup.heap, h.cells, h.refs, h.chars, h.longs)
  }

  lemma IndexedShow(rs: seq<IndexRepository.IndexRepository>, setups: seq<IndexRepository.Setup>, h: Heap,
                    calls: seq<Adding>)
    requires |setups| == |rs| && forall v :: 0 <= v < |rs| ==> IsIndexed(rs[v], setups[v], h, CallsOf(calls, v))
    ensures AllShow(rs, h)
  {
    hide HeapMeaning.Shows;
    forall v | 0 <= v < |rs| ensures HeapMeaning.Shows(rs[v].setup.heap, h.cells, h.refs, h.chars, h.longs) {
      assert IsIndexed(rs[v], setups[v], h, CallsOf(calls, v));
      HeapMeaning.FieldsShow(ViewOf(h, setups[v].heap.priority), h.longs);
    }
  }

  lemma SetupOverIsOK(s: IndexRepository.Setup, h: Heap)
    requires IndexRepository.SetupOK(s)
    ensures IndexRepository.SetupOK(SetupOver(s, h))
  {
    var s' := SetupOver(s, h);
    forall d | d in s'.definitions
      ensures TypeTree.IsType(s'.parents, d.tyType) && IndexComparator.OrderOK(d.order) && d.order.heap == s'.heap
    {
      var k :| 0 <= k < |s'.definitions| && s'.definitions[k] == d;
      assert s.definitions[k] in s.definitions;
    }
  }

  // The structures are of types that the repository knows.
  predicate CanIndex(s: IndexRepository.Setup, h: Heap, l: seq<nat>) {
    forall fs :: fs in l ==> fs != 0 && TypeTree.IsType(s.parents, ViewOf(h, s.heap.priority).TypeOf(fs))
  }

  // The repository holds exactly these structures over the heap.
  ghost predicate IsIndexed(r: IndexRepository.IndexRepository, s: IndexRepository.Setup, h: Heap, l: seq<nat>)
    reads r, r.singles, r.caches
  {
    r.Valid() && r.setup == SetupOver(s, h) && r.added == l
  }

  // One repository: its heap is replaced, it is reset, and the structures are added.
  method IndexOne(rs: seq<IndexRepository.IndexRepository>, v: nat, h: Heap, l: seq<nat>)
    requires AllIntact(rs) && v < |rs| && CanIndex(rs[v].setup, h, l)
    modifies rs`setup, rs`clean, rs`isUsed, rs`usedIndexes, rs`undefinedIndex, rs`added,
             IndexRepository.AllSingles(rs)`structures
    ensures AllIntact(rs) && IsIndexed(rs[v], old(rs[v].setup), h, l)
    ensures forall u :: 0 <= u < |rs| && u != v ==> rs[u].setup == old(rs[u].setup)
    ensures forall u, s, k :: 0 <= u < |rs| && u != v && old(IsIndexed(rs[u], s, h, k)) ==> IsIndexed(rs[u], s, h, k)
  {
    hide *;
    IndexRepository.OwnObjects(rs, v);
    Apart(rs, v);
    ReadyFor(rs[v], h);
    rs[v].HeapReplaced(ViewOf(h, rs[v].setup.heap.priority));
    NowRefill(rs[v], old(rs[v].setup), h, l);
    IndexRebuild.Refill(rs[v], l);
    IndexRebuild.JustFilledMeans(rs[v]);
    IndexRepository.ValidIsIntact(rs[v]);
    Together(rs);
    ItIsIndexed(rs[v], old(rs[v].setup), h, l);
  }

  lemma ReadyFor(r: IndexRepository.IndexRepository, h: Heap)
    requires r.Intact()
    ensures IndexRepository.SetupOK(IndexRepository.Rebased(r.setup, ViewOf(h, r.setup.heap.priority)))
  {
    SetupOverIsOK(r.setup, h);
  }

  lemma NowRefill(r: IndexRepository.IndexRepository, s: IndexRepository.Setup, h: Heap, l: seq<nat>)
    requires r.setup == IndexRepository.Rebased(s, ViewOf(h, s.heap.priority)) && CanIndex(s, h, l)
    ensures r.setup == SetupOver(s, h)
    ensures forall fs :: fs in l ==> fs != 0 && TypeTree.IsType(r.setup.parents, r.setup.heap.TypeOf(fs))
  {
  }

  lemma ItIsIndexed(r: IndexRepository.IndexRepository, s: IndexRepository.Setup, h: Heap, l: seq<nat>)
    requires r.Valid() && r.setup == SetupOver(s, h) && r.added == l
    ensures IsIndexed(r, s, h, l)
  {
  }

  // All repositories.
  method IndexAll(rs: seq<IndexRepository.IndexRepository>, h: Heap, calls: seq<Adding>)
    requires AllIntact(rs) && forall v :: 0 <= v < |rs| ==> CanIndex(rs[v].setup, h, CallsOf(calls, v))
    modifies rs`setup, rs`clean, rs`isUsed, rs`usedIndexes, rs`undefinedIndex, rs`added,
             IndexRepository.AllSingles(rs)`structures
    ensures AllIntact(rs)
    ensures forall v :: 0 <= v < |rs| ==> IsIndexed(rs[v], old(rs[v].setup), h, CallsOf(calls, v))
  {
    hide *;
    for v := 0 to |rs|
      invariant AllIntact(rs)
      invariant forall u :: v <= u < |rs| ==> rs[u].setup == old(rs[u].setup)
      invariant forall u :: 0 <= u < v ==> IsIndexed(rs[u], old(rs[u].setup), h, CallsOf(calls, u))
    {
      IndexOne(rs, v, h, CallsOf(calls, v));
    }
  }

  // ------------------------------------------------------ from CAS to CAS

  // The types of all that is reachable are types of the target.
  ghost predicate KnowTypes(rs: seq<IndexRepository.IndexRepository>, types: Types, cells: seq<nat>,
                            indexed: seq<set<nat>>)
    reads rs`setup
  {
    forall v, a: nat :: 0 <= v < |rs| && IsReachable(types, cells, indexed, a) ==>
      a < |cells| && TypeTree.IsType(rs[v].setup.parents, cells[a])
  }

  // The repositories share nothing with those of the source.
  ghost predicate ApartFrom(rs: seq<IndexRepository.IndexRepository>, views: seq<IndexRepository.IndexRepository>)
    reads rs, views
  {
    forall r, w :: r in rs && w in views ==> r != w && r.caches !! w.caches
  }

  // What is added is a structure that was rebuilt.
  lemma CallsAreStructures(types: Types, h: Heap, indexed: seq<set<nat>>, h': Heap, calls: seq<Adding>,
                           m: map<nat, nat>, s: IndexRepository.Setup, v: nat)
    requires IsTransferred(types, h, indexed, h', calls, m)
    requires forall a: nat :: IsReachable(types, h.cells, indexed, a) ==>
               a < |h.cells| && TypeTree.IsType(s.parents, h.cells[a])
    ensures CanIndex(s, h', CallsOf(calls, v))
  {
    hide IsReachable, IsSofa, IsInjective;
    forall fs | fs in CallsOf(calls, v)
      ensures fs != 0 && TypeTree.IsType(s.parents, ViewOf(h', s.heap.priority).TypeOf(fs))
    {
      assert fs in multiset(CallsOf(calls, v));
      CallsOfCount(calls, v, fs);
      assert Calls(types, h, indexed, m, Adding(v, fs)) > 0;
      var a :| a in m && m[a] == fs;
      assert IsRebuilt(types, h, a, h', m);
    }
  }

  /** The repositories have, renamed and as often as the reader adds it, what was indexed in the views. */
  ghost predicate IndexesReturned(rs: seq<IndexRepository.IndexRepository>, types: Types, h: Heap,
                                  indexed: seq<set<nat>>, m: map<nat, nat>)
    reads rs, IndexRepository.AllSingles(rs), IndexRepository.AllCaches(rs)
  {
    forall v :: 0 <= v < |rs| ==>
      rs[v].Valid() && forall fs :: multiset(rs[v].added)[fs] == Calls(types, h, indexed, m, Adding(v, fs))
  }

  lemma TheyReturned(rs: seq<IndexRepository.IndexRepository>, setups: seq<IndexRepository.Setup>, types: Types,
                     h: Heap, indexed: seq<set<nat>>, h': Heap, calls: seq<Adding>, m: map<nat, nat>)
    requires IsTransferred(types, h, indexed, h', calls, m) && |setups| == |rs|
    requires forall v :: 0 <= v < |rs| ==> IsIndexed(rs[v], setups[v], h', CallsOf(calls, v))
    ensures IndexesReturned(rs, types, h, indexed, m)
  {
    hide IsReachable, IsRebuilt, IsInjective, Calls;
    forall v | 0 <= v < |rs|
      ensures rs[v].Valid() && forall fs :: multiset(rs[v].added)[fs] == Calls(types, h, indexed, m, Adding(v, fs))
    {
      assert IsIndexed(rs[v], setups[v], h', CallsOf(calls, v));
      forall fs ensures multiset(rs[v].added)[fs] == Calls(types, h, indexed, m, Adding(v, fs)) {
        CallsOfCount(calls, v, fs);
      }
    }
  }

  lemma TypesAreKnown(rs: seq<IndexRepository.IndexRepository>, types: Types, h: Heap, indexed: seq<set<nat>>, h': Heap,
                      calls: seq<Adding>, m: map<nat, nat>)
    requires KnowTypes(rs, types, h.cells, indexed) && IsTransferred(types, h, indexed, h', calls, m)
    ensures forall v :: 0 <= v < |rs| ==> CanIndex(rs[v].setup, h', CallsOf(calls, v))
  {
    hide IsTransferred, IsReachable, CanIndex;
    forall v | 0 <= v < |rs| ensures CanIndex(rs[v].setup, h', CallsOf(calls, v)) {
      CallsAreStructures(types, h, indexed, h', calls, m, rs[v].setup, v);
    }
  }

  /**
   A CAS is written as XCAS and read into another one, whose repositories take
   in what is read. Each is valid over the new heap, so its iterators yield the
   renamed structures of its view in order.
   */
  method TransferIndexes(types: Types, h: Heap, ghost nodes: set<nat>, ghost ids: seq<nat>,
                         views: seq<IndexRepository.IndexRepository>, target: Heap,
                         repositories: seq<IndexRepository.IndexRepository>)
    returns (ok: bool, handler: XCASDeserializerHandler, ghost m: map<nat, nat>)
    requires IsGraph(types, h.cells, nodes) && (forall a :: a in nodes ==> Readable(types, h, a)) && HeapOK(target)
    requires AllReady(views, nodes)
    requires AreReachable(types, h.cells, IndexedIn(views), ids) && CanBeWritten(types, h, ids, |views|)
    requires AllIntact(repositories) && ApartFrom(repositories, views) && |views| <= |repositories|
    requires KnowTypes(repositories, types, h.cells, IndexedIn(views))
    modifies views`clean, IndexRepository.AllCaches(views)`cache,
             repositories`setup, repositories`clean, repositories`isUsed, repositories`usedIndexes,
             repositories`undefinedIndex, repositories`added,
             IndexRepository.AllSingles(repositories)`structures
    ensures ok
       <==> forall a :: IsReachable(types, h.cells, old(IndexedIn(views)), a) && IsStructure(types, h.cells, a) ==>
                          !IsUnclosed(types, h, a)
    ensures ok ==>
              && IsTransferred(types, h, old(IndexedIn(views)), handler.heap, handler.added, m)
              && AllIntact(repositories) && IndexesReturned(repositories, types, h, old(IndexedIn(views)), m)
              && AllShow(repositories, handler.heap)
  {
    hide *;
    ghost var indexed := IndexedIn(views);
    IndexRepository.AllObjects(views);
    SharesNothing(repositories, views);
    ok, handler, m := Transfer(types, h, nodes, ids, views, target);
    forall v | 0 <= v < |repositories| ensures repositories[v].Intact() {
      assert old(repositories[v].Intact());
    }
    Together(repositories);
    if ok {
      ghost var setups := Setups(repositories);
      TypesAreKnown(repositories, types, h, indexed, handler.heap, handler.added, m);
      IndexAll(repositories, handler.heap, handler.added);
      IndexedShow(repositories, setups, handler.heap, handler.added);
      TheyReturned(repositories, setups, types, h, indexed, handler.heap, handler.added, m);
    }
  }

  lemma SharesNothing(rs: seq<IndexRepository.IndexRepository>, views: seq<IndexRepository.IndexRepository>)
    requires AllIntact(rs) && ApartFrom(rs, views)
    ensures Separate(rs) && forall v :: 0 <= v < |rs| ==> rs[v].Intact() && rs[v] !in views
    ensures forall v, x :: 0 <= v < |rs| && x in IndexRepository.AllCaches(views) ==> x !in rs[v].caches
  {
  }
}
