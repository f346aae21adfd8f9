/**
 A repository that was emptied and filled while its heap still held the keys of
 another document, and what it is worth once the right keys are there.
 */
module IndexRebuild {
  import opened TypeTree
  import opened IndexComparator
  import opened SingleIndex
  import opened CompositeIndex
  import opened InsertionOrder
  import opened IndexRepository

  // The structures of exactly type t in the order in which they were added.
  ghost function InOrder(h: HeapView, added: seq<nat>, t: nat): seq<nat> {
    if added == [] then []
    else
      var last := added[|added| - 1];
      InOrder(h, added[..|added| - 1], t) + if h.TypeOf(last) == t then [last] else []
  }

  // Every vector was filled with the structures of its type, one after another.
  ghost predicate AreFilled(s: Setup, c: Contents, added: seq<nat>)
    requires ParentsOK(s.parents)
  {
    |c| == |s.parents| && forall t :: IsType(s.parents, t) ==> RowIsFilled(s, c[t], InOrder(s.heap, added, t), t)
  }

  ghost predicate RowIsFilled(s: Setup, row: seq<seq<nat>>, list: seq<nat>, t: nat)
    requires ParentsOK(s.parents)
  {
    var slots := Slots(s, |s.definitions|, t);
    |row| == |slots| && forall i :: 0 <= i < |row| ==> SlotIsFilled(s, slots, row, list, i)
  }

  ghost predicate SlotIsFilled(s: Setup, slots: seq<nat>, row: seq<seq<nat>>, list: seq<nat>, i: int)
    requires |row| == |slots| && 0 <= i < |row|
  {
    slots[i] < |s.definitions| && row[i] == Filled(s.definitions[slots[i]].order, list)
  }

  /** Since the last reset structures were only added, and no cache was filled. */
  ghost predicate JustFilled(r: IndexRepository)
    reads r, r.singles, r.caches
  {
    && r.Valid() && AreFilled(r.setup, AllHeld(r.indexes), r.added)
    && CleanCachesEmpty(r.setup, r.clean, r.composites, r.caches)
  }

  // -------------------------------------------------------------- filling

  // reset, and add for every structure of the list.
  method Refill(r: IndexRepository, l: seq<nat>)
    requires r.Intact() && forall fs :: fs in l ==> fs != 0 && IsType(r.setup.parents, r.setup.heap.TypeOf(fs))
    modifies r`clean, r`isUsed, r`usedIndexes, r`undefinedIndex, r`added, r.singles`structures
    ensures JustFilled(r) && r.added == l
  {
    hide *;
    r.Reset();
    NowEmpty(r);
    for i := 0 to |l|
      invariant JustFilled(r) && r.added == l[..i]
    {
      JustFilledMeans(r);
      RowIsOwn(r, l, i);
      ghost var c, clean := AllHeld(r.indexes), r.clean;
      r.Add(l[i]);
      OneMoreFilled(r, c, clean, l[..i], l[i]);
      assert l[..i + 1] == l[..i] + [l[i]];
    }
    assert l[..|l|] == l;
  }

  lemma JustFilledMeans(r: IndexRepository)
    requires JustFilled(r)
    ensures r.Valid() && SetupOK(r.setup) && ParentsOK(r.setup.parents)
    ensures AreFilled(r.setup, AllHeld(r.indexes), r.added)
    ensures CleanCachesEmpty(r.setup, r.clean, r.composites, r.caches)
  {
  }

  lemma RowIsOwn(r: IndexRepository, l: seq<nat>, i: nat)
    requires r.Valid() && i < |l|
    requires forall fs :: fs in l ==> fs != 0 && IsType(r.setup.parents, r.setup.heap.TypeOf(fs))
    ensures var t := r.setup.heap.TypeOf(l[i]);
            && l[i] != 0 && IsType(r.setup.parents, t) && t < |r.indexes|
            && forall k :: 0 <= k < |r.indexes[t]| ==> r.indexes[t][k] in r.singles
  {
    var t := r.setup.heap.TypeOf(l[i]);
    assert l[i] in l;
    forall k | 0 <= k < |r.indexes[t]| ensures r.indexes[t][k] in r.singles {
      assert r.indexes[t][k] in Objects(r.indexes);
    }
  }

  lemma NowEmpty(r: IndexRepository)
    requires r.Valid() && r.added == [] && NothingHeld(r.setup, AllHeld(r.indexes))
    requires CleanCachesEmpty(r.setup, r.clean, r.composites, r.caches)
    ensures JustFilled(r)
  {
    Disassemble(r);
    EmptyIsFilled(r.setup, AllHeld(r.indexes));
  }

  lemma EmptyIsFilled(s: Setup, c: Contents)
    requires SetupOK(s) && ContentsOK(s, c) && NothingHeld(s, c)
    ensures AreFilled(s, c, [])
  {
    hide Slots, PartOK;
    forall t | IsType(s.parents, t) ensures RowIsFilled(s, c[t], InOrder(s.heap, [], t), t) {
      assert RowOK(s, t, c[t]);
      var slots := Slots(s, |s.definitions|, t);
      forall i | 0 <= i < |c[t]| ensures SlotIsFilled(s, slots, c[t], [], i) {
        assert SlotOK(s, t, slots, c[t], i);
      }
    }
  }

  // The repository after one more structure was added.
  lemma OneMoreFilled(r: IndexRepository, c: Contents, clean: seq<set<OrderedCompositeIndex>>, added: seq<nat>, fs: nat)
    requires r.Valid() && r.added == added + [fs] && SetupOK(r.setup) && ParentsOK(r.setup.parents)
    requires AreFilled(r.setup, c, added) && CleanCachesEmpty(r.setup, clean, r.composites, r.caches)
    requires var t := r.setup.heap.TypeOf(fs);
             && t < |clean| && r.clean == clean[t := {}] && t < |c| && IsType(r.setup.parents, t)
             && AllHeld(r.indexes) == c[t := AllHeld(r.indexes)[t]]
             && RowInserted(r.setup, t, c[t], fs, AllHeld(r.indexes)[t])
    ensures JustFilled(r)
  {
    hide *;
    var t := r.setup.heap.TypeOf(fs);
    FilledOneMore(r.setup, c, added, fs, AllHeld(r.indexes)[t]);
    StillEmpty(r.setup, clean, t, r.composites, r.caches);
    IsJustFilled(r);
  }

  lemma IsJustFilled(r: IndexRepository)
    requires r.Valid() && SetupOK(r.setup) && ParentsOK(r.setup.parents)
    requires AreFilled(r.setup, AllHeld(r.indexes), r.added)
    requires CleanCachesEmpty(r.setup, r.clean, r.composites, r.caches)
    ensures JustFilled(r)
  {
  }

  lemma FilledOneMore(s: Setup, c: Contents, added: seq<nat>, fs: nat, row: seq<seq<nat>>)
    requires SetupOK(s) && ParentsOK(s.parents) && AreFilled(s, c, added)
    requires var t := s.heap.TypeOf(fs); t < |c| && IsType(s.parents, t) && RowInserted(s, t, c[t], fs, row)
    ensures AreFilled(s, c[s.heap.TypeOf(fs) := row], added + [fs])
  {
    hide RowIsFilled, RowInserted;
    var t := s.heap.TypeOf(fs);
    assert (added + [fs])[..|added|] == added;
    assert RowIsFilled(s, c[t], InOrder(s.heap, added, t), t);
    RowOneMore(s, t, c[t], InOrder(s.heap, added, t), fs, row);
    forall u | IsType(s.parents, u)
      ensures RowIsFilled(s, c[t := row][u], InOrder(s.heap, added + [fs], u), u)
    {
      assert RowIsFilled(s, c[u], InOrder(s.heap, added, u), u);
      assert u != t ==> InOrder(s.heap, added + [fs], u) == InOrder(s.heap, added, u);
    }
  }

  lemma RowOneMore(s: Setup, t: nat, before: seq<seq<nat>>, list: seq<nat>, fs: nat, row: seq<seq<nat>>)
    requires ParentsOK(s.parents) && RowIsFilled(s, before, list, t) && RowInserted(s, t, before, fs, row)
    ensures RowIsFilled(s, row, list + [fs], t)
  {
    hide Slots, IsInsertion, Inserted;
    var slots := Slots(s, |s.definitions|, t);
    assert (list + [fs])[..|list|] == list;
    forall i | 0 <= i < |row| ensures SlotIsFilled(s, slots, row, list + [fs], i) {
      assert SlotIsFilled(s, slots, before, list, i) && SlotInserted(s, slots, before, fs, row, i);
      InsertionIsInserted(s.definitions[slots[i]].order, before[i], fs, row[i]);
    }
  }

  lemma StillEmpty(s: Setup, clean: seq<set<OrderedCompositeIndex>>, t: nat,
                   composites: seq<map<nat, OrderedCompositeIndex>>, caches: set<OrderedCompositeIndex>)
    requires ParentsOK(s.parents) && CleanCachesEmpty(s, clean, composites, caches) && t < |clean|
    ensures CleanCachesEmpty(s, clean[t := {}], composites, caches)
  {
    hide Subtypes;
    forall u, id | 0 <= u < |composites| && id in composites[u]
      ensures composites[u][id] in caches && CleanCacheEmpty(s, clean[t := {}], composites[u][id])
    {
      var x := composites[u][id];
      assert CleanCacheEmpty(s, clean, x);
      if IsType(s.parents, x.tyType) && IsClean(s.parents, clean[t := {}], x) {
        forall v | v in Subtypes(s.parents, x.tyType) ensures v < |clean| && x in clean[v] {
          assert x in clean[t := {}][v];
        }
      }
    }
  }

  // ------------------------------------------------------------- other keys

  /** In every index, every structure got a place that its keys in the other heap accept. */
  ghost predicate AllStayInOrder(s: Setup, h: HeapView, added: seq<nat>)
    requires ParentsOK(s.parents)
  {
    forall t, d :: IsType(s.parents, t) && Covers(s, d, t) ==> StaysInOrder(s, h, added, t, d)
  }

  ghost predicate StaysInOrder(s: Setup, h: HeapView, added: seq<nat>, t: nat, d: int) {
    0 <= d < |s.definitions| &&
    AllFit(s.definitions[d].order, Order(s.definitions[d].order.keys, h), InOrder(s.heap, added, t))
  }

  lemma {:induction false} InOrderContains(h: HeapView, added: seq<nat>, t: nat, fs: nat)
    ensures fs in InOrder(h, added, t) <==> fs in added && h.TypeOf(fs) == t
  {
    if added != [] {
      assert added == added[..|added| - 1] + [added[|added| - 1]];
      InOrderContains(h, added[..|added| - 1], t, fs);
    }
  }

  // The vector fits the other heap if it is sorted there.
  lemma PartAgain(s: Setup, h: HeapView, added: seq<nat>, t: nat, d: nat, part: seq<nat>)
    requires d < |s.definitions| && PartOK(s, t, s.definitions[d].order, part)
    requires part == Filled(s.definitions[d].order, InOrder(s.heap, added, t))
    requires forall fs :: fs in added ==> h.TypeOf(fs) == s.heap.TypeOf(fs)
    ensures PartOK(Rebased(s, h), t, Order(s.definitions[d].order.keys, h), part) <==> StaysInOrder(s, h, added, t, d)
  {
    var o, list := s.definitions[d].order, InOrder(s.heap, added, t);
    SortedAgain(o, Order(o.keys, h), list);
    FilledIsSorted(o, list);
    hide Sorted, Filled, AllFit;
    forall fs | fs in part ensures h.TypeOf(fs) == t {
      assert fs in multiset(part) && fs in multiset(list);
      InOrderContains(s.heap, added, t, fs);
    }
  }

  lemma RowAgain(s: Setup, h: HeapView, added: seq<nat>, t: nat, row: seq<seq<nat>>)
    requires SetupOK(s) && SetupOK(Rebased(s, h)) && RowOK(s, t, row)
    requires RowIsFilled(s, row, InOrder(s.heap, added, t), t)
    requires forall fs :: fs in added ==> h.TypeOf(fs) == s.heap.TypeOf(fs)
    ensures RowOK(Rebased(s, h), t, row) <==> forall d :: Covers(s, d, t) ==> StaysInOrder(s, h, added, t, d)
  {
    hide PartOK, StaysInOrder, Filled;
    var slots, s' := Slots(s, |s.definitions|, t), Rebased(s, h);
    SlotsRebased(s, h, |s.definitions|, t);
    forall i | 0 <= i < |row|
      ensures slots[i] < |s.definitions| && Covers(s, slots[i], t)
      ensures SlotOK(s', t, slots, row, i) <==> StaysInOrder(s, h, added, t, slots[i])
    {
      assert SlotOK(s, t, slots, row, i) && SlotIsFilled(s, slots, row, InOrder(s.heap, added, t), i);
      IndexOfSlot(s, |s.definitions|, t, i);
      PartAgain(s, h, added, t, slots[i], row[i]);
    }
    forall d | Covers(s, d, t) ensures exists i :: 0 <= i < |row| && slots[i] == d {
      SlotOfIndex(s, |s.definitions|, t, d);
    }
  }

  /** The vectors are in order over the other heap if and only if every structure got a place that fits. */
  lemma ContentsAgain(s: Setup, h: HeapView, c: Contents, added: seq<nat>)
    requires SetupOK(s) && SetupOK(Rebased(s, h)) && ContentsOK(s, c) && AreFilled(s, c, added)
    requires forall fs :: fs in added ==> h.TypeOf(fs) == s.heap.TypeOf(fs)
    ensures ContentsOK(Rebased(s, h), c) <==> AllStayInOrder(s, h, added)
  {
    hide RowOK, RowIsFilled, StaysInOrder;
    forall t | IsType(s.parents, t)
      ensures RowOK(Rebased(s, h), t, c[t]) <==> forall d :: Covers(s, d, t) ==> StaysInOrder(s, h, added, t, d)
    {
      assert RowOK(s, t, c[t]) && RowIsFilled(s, c[t], InOrder(s.heap, added, t), t);
      RowAgain(s, h, added, t, c[t]);
    }
  }

  lemma EmptyCachesSorted(s: Setup, h: HeapView, clean: seq<set<OrderedCompositeIndex>>,
                          composites: seq<map<nat, OrderedCompositeIndex>>, caches: set<OrderedCompositeIndex>)
    requires ParentsOK(s.parents) && CleanCachesEmpty(s, clean, composites, caches)
    ensures CleanSorted(Rebased(s, h), clean, composites, caches)
  {
    hide Subtypes, IsClean, Sorted;
    forall t, id | 0 <= t < |composites| && id in composites[t]
      ensures composites[t][id] in caches && CacheSorted(Rebased(s, h), clean, composites[t][id])
    {
      assert CleanCacheEmpty(s, clean, composites[t][id]);
      NothingIsSorted(Order(composites[t][id].keys, h));
    }
  }

  ghost predicate TypesStay(r: IndexRepository, h: HeapView)
    reads r
  {
    forall fs :: fs in r.added ==> h.TypeOf(fs) == r.setup.heap.TypeOf(fs)
  }

  // What the keys in another heap decide about a repository that was filled with these structures.
  ghost predicate ValidIfInOrder(r: IndexRepository, s: Setup, h: HeapView)
    reads r, r.singles, r.caches
  {
    ParentsOK(s.parents) && (r.Valid() <==> AllStayInOrder(s, h, r.added))
  }

  /**
   The heap changes under a repository. If it was just filled, and only keys
   change, it is valid again if and only if every structure got a place that fits.
   */
  method ChangeKeys(r: IndexRepository, h: HeapView)
    requires r.Intact() && SetupOK(Rebased(r.setup, h))
    modifies r`setup
    ensures r.setup == Rebased(old(r.setup), h) && r.Intact()
    ensures old(JustFilled(r) && TypesStay(r, h)) ==> ValidIfInOrder(r, old(r.setup), h)
  {
    hide *;
    ghost var s, c, wasFilled := r.setup, AllHeld(r.indexes), JustFilled(r) && TypesStay(r, h);
    if wasFilled {
      JustFilledMeans(r);
      Disassemble(r);
      TypesStayMeans(r, h);
      ContentsAgain(s, h, c, r.added);
      EmptyCachesSorted(s, h, r.clean, r.composites, r.caches);
      CompositeKeys(r);
    }
    r.HeapReplaced(h);
    if wasFilled && r.Valid() {
      Disassemble(r);
    }
    if wasFilled && ContentsOK(Rebased(s, h), c) {
      StillHoldsAdded(s, h, c, r.added);
      StillFresh(s, h, c, r.composites, r.caches, r.clean);
      IntactParts(r);
      Assemble(r);
    }
    if wasFilled {
      ItIsValidIfInOrder(r, s, h);
    }
  }

  lemma TypesStayMeans(r: IndexRepository, h: HeapView)
    requires TypesStay(r, h)
    ensures forall fs :: fs in r.added ==> h.TypeOf(fs) == r.setup.heap.TypeOf(fs)
  {
  }

  lemma ItIsValidIfInOrder(r: IndexRepository, s: Setup, h: HeapView)
    requires ParentsOK(s.parents) && (r.Valid() <==> AllStayInOrder(s, h, r.added))
    ensures ValidIfInOrder(r, s, h)
  {
  }
}
