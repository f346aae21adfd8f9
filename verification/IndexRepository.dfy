/**
 The repository of all indexes of a view: for every index and exact type a
 sorted vector, for every type with subtypes a cache that is refilled when it
 is read after it went stale, and per type the set of caches that are clean.
 */
module IndexRepository {
  import opened TopologicalSort
  import opened TypeTree
  import opened IndexComparator
  import opened SingleIndex
  import opened CompositeIndex
  import TypePriority

  datatype Definition = Definition(tyType: nat, order: Order)

  // The types, the heap with the keys of all structures, and the indexes by their numbers.
  datatype Setup = Setup(parents: seq<nat>, heap: HeapView, definitions: seq<Definition>)

  ghost predicate SetupOK(s: Setup) {
    && ParentsOK(s.parents)
    && forall d :: d in s.definitions ==> IsType(s.parents, d.tyType) && OrderOK(d.order) && d.order.heap == s.heap
  }

  // getSubsumedTypes: t and its subtypes in pre-order.
  ghost function Subtypes(parents: seq<nat>, t: nat): (r: seq<nat>)
    requires ParentsOK(parents) && IsType(parents, t)
    ensures Distinct(r) && forall u :: u in r <==> IsType(parents, u) && Subsumes(parents, t, u)
  {
    var tree := Children(parents);
    ChildrenAreTree(parents);
    TreeIsDownward(tree, parents);
    PreOrderContents(tree, parents, t);
    PreOrder(tree, t)
  }

  ghost predicate Covers(s: Setup, id: int, t: int)
    requires ParentsOK(s.parents)
  {
    t >= 0 && 0 <= id < |s.definitions| && Subsumes(s.parents, s.definitions[id].tyType, t)
  }

  /** An index covers exactly the types whose path to the top type goes through its own. */
  lemma CoversRootPath(s: Setup, id: nat, t: nat)
    requires ParentsOK(s.parents) && id < |s.definitions| && IsType(s.parents, t)
    ensures Covers(s, id, t) <==> s.definitions[id].tyType in RootPath(s.parents, t)
  {
    SubsumesIsRootPath(s.parents, s.definitions[id].tyType, t);
  }

  // The single indexes of type t, in order: one for each of the first n indexes that covers t.
  ghost function Slots(s: Setup, n: nat, t: nat): seq<nat>
    requires ParentsOK(s.parents)
  {
    if n == 0 then [] else Slots(s, n - 1, t) + if Covers(s, n - 1, t) then [n - 1] else []
  }

  ghost function Place(s: Setup, t: nat, id: nat): nat
    requires ParentsOK(s.parents)
  {
    |Slots(s, id, t)|
  }

  lemma {:induction false} SlotOfIndex(s: Setup, n: nat, t: nat, id: nat)
    requires ParentsOK(s.parents) && id < n && Covers(s, id, t)
    ensures Place(s, t, id) < |Slots(s, n, t)| && Slots(s, n, t)[Place(s, t, id)] == id
  {
    if id < n - 1 {
      SlotOfIndex(s, n - 1, t, id);
    }
  }

  lemma {:induction false} IndexOfSlot(s: Setup, n: nat, t: nat, i: nat)
    requires ParentsOK(s.parents) && i < |Slots(s, n, t)|
    ensures var id := Slots(s, n, t)[i]; id < n && Covers(s, id, t) && Place(s, t, id) == i
  {
    if i < |Slots(s, n - 1, t)| {
      IndexOfSlot(s, n - 1, t, i);
    }
  }

  // ------------------------------------------------------------- contents

  // contents[t][i] is what the single index i of type t holds.
  type Contents = seq<seq<seq<nat>>>

  ghost predicate PartOK(s: Setup, t: nat, o: Order, part: seq<nat>) {
    Sorted(o, part) && 0 !in part && forall fs :: fs in part ==> s.heap.TypeOf(fs) == t
  }

  ghost predicate RowOK(s: Setup, t: nat, row: seq<seq<nat>>)
    requires SetupOK(s)
  {
    var slots := Slots(s, |s.definitions|, t);
    |row| == |slots| && forall i :: 0 <= i < |row| ==> SlotOK(s, t, slots, row, i)
  }

  ghost predicate SlotOK(s: Setup, t: nat, slots: seq<nat>, row: seq<seq<nat>>, i: int)
    requires |row| == |slots| && 0 <= i < |row|
  {
    slots[i] < |s.definitions| && PartOK(s, t, s.definitions[slots[i]].order, row[i])
  }

  ghost predicate ContentsOK(s: Setup, c: Contents)
    requires SetupOK(s)
  {
    |c| == |s.parents| && forall t :: IsType(s.parents, t) ==> RowOK(s, t, c[t])
  }

  // What index id holds for each of the subtypes of t.
  ghost function Parts(s: Setup, c: Contents, t: nat, id: nat): (parts: seq<seq<nat>>)
    requires SetupOK(s) && ContentsOK(s, c) && IsType(s.parents, t) && Covers(s, id, t)
    ensures |parts| == |Subtypes(s.parents, t)|
  {
    var us := Subtypes(s.parents, t);
    seq(|us|, k requires 0 <= k < |us| => assert us[k] in us; PartOf(s, c, t, us[k], id))
  }

  ghost function PartOf(s: Setup, c: Contents, t: nat, u: nat, id: nat): (part: seq<nat>)
    requires SetupOK(s) && ContentsOK(s, c) && Covers(s, id, t)
    requires IsType(s.parents, t) && IsType(s.parents, u) && Subsumes(s.parents, t, u)
    ensures PartOK(s, u, s.definitions[id].order, part)
    ensures Place(s, u, id) < |c[u]| && part == c[u][Place(s, u, id)]
  {
    SubsumesTransitive(s.parents, s.definitions[id].tyType, t, u);
    SlotOfIndex(s, |s.definitions|, u, id);
    assert RowOK(s, u, c[u]);
    assert SlotOK(s, u, Slots(s, |s.definitions|, u), c[u], Place(s, u, id));
    c[u][Place(s, u, id)]
  }

  lemma PartsAreOK(s: Setup, c: Contents, t: nat, id: nat)
    requires SetupOK(s) && ContentsOK(s, c) && IsType(s.parents, t) && Covers(s, id, t)
    ensures PartsOK(s.definitions[id].order, Parts(s, c, t, id))
  {
    hide Sorted;
    var us, parts := Subtypes(s.parents, t), Parts(s, c, t, id);
    forall k | 0 <= k < |us| ensures PartOK(s, us[k], s.definitions[id].order, parts[k]) {
      assert us[k] in us;
    }
    forall k, l, x | 0 <= k < l < |parts| && x in parts[k] ensures x !in parts[l] {
      assert us[k] != us[l];
    }
  }

  // -------------------------------------------------- what was added

  // The structures of exactly type t among those added.
  ghost function OfType(h: HeapView, added: seq<nat>, t: nat): multiset<nat> {
    if added == [] then multiset{}
    else
      var last := added[|added| - 1];
      OfType(h, added[..|added| - 1], t) + if h.TypeOf(last) == t then multiset{last} else multiset{}
  }

  // The structures whose type t subsumes among those added.
  ghost function Under(s: Setup, added: seq<nat>, t: nat): multiset<nat>
    requires ParentsOK(s.parents)
  {
    if added == [] then multiset{}
    else
      var last := added[|added| - 1];
      Under(s, added[..|added| - 1], t)
      + if Subsumes(s.parents, t, s.heap.TypeOf(last)) then multiset{last} else multiset{}
  }

  // The structures whose type is listed among those added.
  ghost function Among(h: HeapView, added: seq<nat>, us: seq<nat>): multiset<nat> {
    if added == [] then multiset{}
    else
      var last := added[|added| - 1];
      Among(h, added[..|added| - 1], us) + if h.TypeOf(last) in us then multiset{last} else multiset{}
  }

  ghost function UnionOfTypes(h: HeapView, added: seq<nat>, us: seq<nat>): multiset<nat> {
    if us == [] then multiset{} else UnionOfTypes(h, added, us[..|us| - 1]) + OfType(h, added, us[|us| - 1])
  }

  lemma {:induction false} AmongOneMore(h: HeapView, added: seq<nat>, us: seq<nat>, u: nat)
    requires u !in us
    ensures Among(h, added, us + [u]) == Among(h, added, us) + OfType(h, added, u)
  {
    if added != [] {
      AmongOneMore(h, added[..|added| - 1], us, u);
    }
  }

  lemma {:induction false} AmongNone(h: HeapView, added: seq<nat>)
    ensures Among(h, added, []) == multiset{}
  {
    if added != [] {
      AmongNone(h, added[..|added| - 1]);
    }
  }

  lemma {:induction false} UnionIsAmong(h: HeapView, added: seq<nat>, us: seq<nat>)
    requires Distinct(us)
    ensures UnionOfTypes(h, added, us) == Among(h, added, us)
  {
    if us == [] {
      AmongNone(h, added);
    } else {
      var front := us[..|us| - 1];
      UnionIsAmong(h, added, front);
      assert us == front + [us[|us| - 1]];
      AmongOneMore(h, added, front, us[|us| - 1]);
    }
  }

  lemma {:induction false} AmongIsUnder(s: Setup, added: seq<nat>, t: nat)
    requires ParentsOK(s.parents) && IsType(s.parents, t)
    requires forall fs :: fs in added ==> IsType(s.parents, s.heap.TypeOf(fs))
    ensures Among(s.heap, added, Subtypes(s.parents, t)) == Under(s, added, t)
  {
    if added != [] {
      assert added[|added| - 1] in added;
      AmongIsUnder(s, added[..|added| - 1], t);
    }
  }

  // Every single index holds exactly the structures of its type.
  ghost predicate HoldsAdded(s: Setup, c: Contents, added: seq<nat>)
    requires SetupOK(s) && ContentsOK(s, c)
  {
    && (forall fs :: fs in added ==> IsType(s.parents, s.heap.TypeOf(fs)))
    && forall t, i :: IsType(s.parents, t) && 0 <= i < |c[t]| ==> multiset(c[t][i]) == OfType(s.heap, added, t)
  }

  lemma {:induction false} UnionOfParts(s: Setup, c: Contents, added: seq<nat>, us: seq<nat>, parts: seq<seq<nat>>)
    requires |parts| == |us| && forall k :: 0 <= k < |us| ==> multiset(parts[k]) == OfType(s.heap, added, us[k])
    ensures Union(parts) == UnionOfTypes(s.heap, added, us)
  {
    if us != [] {
      UnionOfParts(s, c, added, us[..|us| - 1], parts[..|us| - 1]);
    }
  }

  /** All parts of an index together are what was added and is subsumed. */
  lemma PartsHoldAdded(s: Setup, c: Contents, added: seq<nat>, t: nat, id: nat)
    requires SetupOK(s) && ContentsOK(s, c) && IsType(s.parents, t) && Covers(s, id, t) && HoldsAdded(s, c, added)
    ensures Union(Parts(s, c, t, id)) == Under(s, added, t)
  {
    hide ContentsOK;
    var us, parts := Subtypes(s.parents, t), Parts(s, c, t, id);
    forall k | 0 <= k < |us| ensures multiset(parts[k]) == OfType(s.heap, added, us[k]) {
      assert us[k] in us;
    }
    UnionOfParts(s, c, added, us, parts);
    UnionIsAmong(s.heap, added, us);
    AmongIsUnder(s, added, t);
  }

  // For a type without subtypes there is only one part.
  lemma {:induction false} UnderLeaf(s: Setup, added: seq<nat>, t: nat)
    requires ParentsOK(s.parents) && IsType(s.parents, t) && Children(s.parents)[t] == []
    requires forall fs :: fs in added ==> IsType(s.parents, s.heap.TypeOf(fs))
    ensures Under(s, added, t) == OfType(s.heap, added, t)
  {
    if added != [] {
      var fs := added[|added| - 1];
      assert fs in added;
      UnderLeaf(s, added[..|added| - 1], t);
      ChildrenAreTree(s.parents);
      SubtypeUnderChild(Children(s.parents), s.parents, t, s.heap.TypeOf(fs));
    }
  }

  // -------------------------------------------------------------- objects

  function Repeat<V>(n: nat, v: V): (r: seq<V>)
    ensures |r| == n && forall i :: 0 <= i < n ==> r[i] == v
  {
    seq(n, _ => v)
  }

  function Put<V>(m: map<nat, V>, k: nat, v: V): (r: map<nat, V>)
    ensures r == m[k := v]
  {
    m[k := v]
  }

  // The single indexes of type t for the first n indexes, and the place of each.
  ghost predicate RowObjects(s: Setup, n: nat, t: nat, row: seq<OrderedSingleIndex>, place: map<nat, nat>)
    requires ParentsOK(s.parents)
  {
    var slots := Slots(s, n, t);
    && |row| == |slots| && AllDifferent(row)
    && (forall i :: 0 <= i < |row| ==> ObjectOK(s, t, slots[i], row[i]))
    && (forall id :: id in place <==> id < n && Covers(s, id, t))
    && (forall id :: id in place ==> place[id] == Place(s, t, id))
  }

  ghost predicate AllDifferent(row: seq<OrderedSingleIndex>) {
    forall i, j :: 0 <= i < j < |row| ==> row[i] != row[j]
  }

  predicate ObjectOK(s: Setup, t: nat, id: nat, index: OrderedSingleIndex) {
    id < |s.definitions| && index.tyType == t && Order(index.keys, s.heap) == s.definitions[id].order
  }

  ghost predicate SinglesOK(s: Setup, n: nat, indexes: seq<seq<OrderedSingleIndex>>, positions: seq<map<nat, nat>>)
    requires ParentsOK(s.parents)
  {
    && |indexes| == |positions| == |s.parents| && indexes[0] == []
    && forall t :: IsType(s.parents, t) ==> RowObjects(s, n, t, indexes[t], positions[t])
  }

  ghost function Held(row: seq<OrderedSingleIndex>): (held: seq<seq<nat>>)
    reads row
    ensures |held| == |row| && forall i :: 0 <= i < |row| ==> held[i] == row[i].structures
  {
    seq(|row|, i requires 0 <= i < |row| reads row => row[i].structures)
  }

  ghost function Objects(indexes: seq<seq<OrderedSingleIndex>>): set<OrderedSingleIndex> {
    set t, i | 0 <= t < |indexes| && 0 <= i < |indexes[t]| :: indexes[t][i]
  }

  ghost function AllHeld(indexes: seq<seq<OrderedSingleIndex>>): (c: Contents)
    reads Objects(indexes)
    ensures |c| == |indexes| && forall t :: 0 <= t < |indexes| ==> c[t] == Held(indexes[t])
  {
    seq(|indexes|, t requires 0 <= t < |indexes| reads Objects(indexes) =>
                     assert forall x :: x in indexes[t] ==> x in Objects(indexes); Held(indexes[t]))
  }

  // The composite index of type t for index id: its components are the single indexes of the subtypes.
  ghost predicate CompositeOK(s: Setup, indexes: seq<seq<OrderedSingleIndex>>, t: nat, id: nat,
                              x: OrderedCompositeIndex)
    requires SetupOK(s)
    reads x`components
  {
    && IsType(s.parents, t) && Covers(s, id, t) && x.tyType == t && Order(x.keys, s.heap) == s.definitions[id].order
    && |x.components| == |Subtypes(s.parents, t)|
    && (forall k :: 0 <= k < |x.components| ==> IsComponent(s, indexes, Subtypes(s.parents, t)[k], id, x.components[k]))
  }

  ghost predicate IsComponent(s: Setup, indexes: seq<seq<OrderedSingleIndex>>, u: nat, id: nat, x: OrderedSingleIndex)
    requires ParentsOK(s.parents)
  {
    u < |indexes| && Place(s, u, id) < |indexes[u]| && indexes[u][Place(s, u, id)] == x
  }

  ghost predicate CompositesOK(s: Setup, n: nat, indexes: seq<seq<OrderedSingleIndex>>,
                               composites: seq<map<nat, OrderedCompositeIndex>>, caches: set<OrderedCompositeIndex>)
    requires SetupOK(s)
    reads caches`components
  {
    && |composites| == |s.parents|
    && (forall t, id :: IsType(s.parents, t) && id < n && Covers(s, id, t) && Children(s.parents)[t] != [] ==>
          id in composites[t])
    && (forall t, id :: 0 <= t < |composites| && id in composites[t] ==>
          id < n && composites[t][id] in caches && CompositeOK(s, indexes, t, id, composites[t][id]))
    && (forall t, i, j :: 0 <= t < |composites| && i in composites[t] && j in composites[t]
                          && composites[t][i] == composites[t][j] ==>
          i == j)
  }

  /** What a composite index merges are the parts of its index. */
  lemma CompositeParts(s: Setup, indexes: seq<seq<OrderedSingleIndex>>, positions: seq<map<nat, nat>>,
                       t: nat, id: nat, x: OrderedCompositeIndex)
    requires SetupOK(s) && SinglesOK(s, |s.definitions|, indexes, positions) && ContentsOK(s, AllHeld(indexes))
    requires CompositeOK(s, indexes, t, id, x)
    ensures x.Parts() == Parts(s, AllHeld(indexes), t, id)
    ensures forall c :: c in x.components ==> c.keys == x.keys
  {
    hide Sorted, PartOK;
    var us, parts := Subtypes(s.parents, t), Parts(s, AllHeld(indexes), t, id);
    forall k | 0 <= k < |us| ensures x.components[k].keys == x.keys && x.Parts()[k] == parts[k] {
      var u := us[k];
      assert u in us && IsComponent(s, indexes, u, id, x.components[k]);
      assert RowObjects(s, |s.definitions|, u, indexes[u], positions[u]);
      SubsumesTransitive(s.parents, s.definitions[id].tyType, t, u);
      SlotOfIndex(s, |s.definitions|, u, id);
      assert AllHeld(indexes)[u] == Held(indexes[u]);
    }
  }

  // ------------------------------------------------------------- staleness

  // All subtypes have the cache in their clean set.
  ghost predicate IsClean(parents: seq<nat>, clean: seq<set<OrderedCompositeIndex>>, x: OrderedCompositeIndex)
    requires ParentsOK(parents) && IsType(parents, x.tyType)
  {
    forall u :: u in Subtypes(parents, x.tyType) ==> u < |clean| && x in clean[u]
  }

  // Clean caches are in order.
  ghost predicate CleanSorted(s: Setup, clean: seq<set<OrderedCompositeIndex>>,
                              composites: seq<map<nat, OrderedCompositeIndex>>,
                              caches: set<OrderedCompositeIndex>)
    requires ParentsOK(s.parents)
    reads caches`cache
  {
    forall t, id :: 0 <= t < |composites| && id in composites[t] ==>
      composites[t][id] in caches && CacheSorted(s, clean, composites[t][id])
  }

  ghost predicate CacheSorted(s: Setup, clean: seq<set<OrderedCompositeIndex>>, x: OrderedCompositeIndex)
    requires ParentsOK(s.parents)
    reads x`cache
  {
    IsType(s.parents, x.tyType) && IsClean(s.parents, clean, x) ==> Sorted(Order(x.keys, s.heap), x.cache)
  }

  // A clean cache over types that are not used has nothing in it.
  ghost predicate IdleCachesEmpty(s: Setup, isUsed: seq<bool>, clean: seq<set<OrderedCompositeIndex>>,
                                  composites: seq<map<nat, OrderedCompositeIndex>>, caches: set<OrderedCompositeIndex>)
    requires ParentsOK(s.parents)
    reads caches`cache
  {
    forall t, id :: 0 <= t < |composites| && id in composites[t] ==>
      composites[t][id] in caches && IdleCacheEmpty(s, isUsed, clean, composites[t][id])
  }

  ghost predicate IdleCacheEmpty(s: Setup, isUsed: seq<bool>, clean: seq<set<OrderedCompositeIndex>>,
                                 x: OrderedCompositeIndex)
    requires ParentsOK(s.parents)
    reads x`cache
  {
    && IsType(s.parents, x.tyType) && IsClean(s.parents, clean, x)
    && (forall u :: u in Subtypes(s.parents, x.tyType) ==> u < |isUsed| && !isUsed[u])
    ==> x.cache == []
  }

  // A clean cache is a sorted merge of the present contents.
  ghost predicate CacheFresh(s: Setup, c: Contents, t: nat, id: nat, clean: seq<set<OrderedCompositeIndex>>,
                             x: OrderedCompositeIndex)
    requires SetupOK(s) && ContentsOK(s, c)
    reads x`cache
  {
    IsType(s.parents, t) && Covers(s, id, t) && x.tyType == t && IsClean(s.parents, clean, x) ==>
      IsSortedMerge(s.definitions[id].order, Parts(s, c, t, id), x.cache)
  }

  ghost predicate CachesFresh(s: Setup, c: Contents, composites: seq<map<nat, OrderedCompositeIndex>>,
                              caches: set<OrderedCompositeIndex>, clean: seq<set<OrderedCompositeIndex>>)
    requires SetupOK(s) && ContentsOK(s, c)
    reads caches`cache
  {
    forall t, id :: 0 <= t < |composites| && id in composites[t] ==>
      composites[t][id] in caches && CacheFresh(s, c, t, id, clean, composites[t][id])
  }

  // Types that are marked as used have an index, and the others hold nothing.
  ghost predicate UsedOK(s: Setup, c: Contents, isUsed: seq<bool>, usedIndexes: seq<nat>)
    requires ParentsOK(s.parents)
  {
    && |isUsed| == |s.parents| == |c| && Distinct(usedIndexes)
    && (forall t :: t in usedIndexes <==> IsType(s.parents, t) && isUsed[t])
    && (forall t :: IsType(s.parents, t) && isUsed[t] ==> Slots(s, |s.definitions|, t) != [])
    && (forall t, i :: IsType(s.parents, t) && !isUsed[t] && 0 <= i < |c[t]| ==> c[t][i] == [])
  }

  // The structures of types that no index covers, in the order in which they were added.
  ghost function Uncovered(s: Setup, added: seq<nat>): seq<nat>
    requires ParentsOK(s.parents)
  {
    if added == [] then []
    else Uncovered(s, added[..|added| - 1])
         + if Slots(s, |s.definitions|, s.heap.TypeOf(added[|added| - 1])) == [] then [added[|added| - 1]] else []
  }

  // ---------------------------------------------------- effects of one step

  // Every index of the type got the structure.
  ghost predicate RowInserted(s: Setup, t: nat, row: seq<seq<nat>>, fs: nat, row': seq<seq<nat>>)
    requires ParentsOK(s.parents)
  {
    var slots := Slots(s, |s.definitions|, t);
    |row| == |row'| == |slots| && forall i :: 0 <= i < |row| ==> SlotInserted(s, slots, row, fs, row', i)
  }

  ghost predicate SlotInserted(s: Setup, slots: seq<nat>, row: seq<seq<nat>>, fs: nat, row': seq<seq<nat>>, i: int)
    requires |row| == |row'| == |slots| && 0 <= i < |row|
  {
    slots[i] < |s.definitions| && IsInsertion(s.definitions[slots[i]].order, row[i], fs, row'[i])
  }

  lemma ContentsAfterAdd(s: Setup, c: Contents, added: seq<nat>, fs: nat, row': seq<seq<nat>>)
    requires SetupOK(s) && ContentsOK(s, c) && HoldsAdded(s, c, added) && fs != 0
    requires IsType(s.parents, s.heap.TypeOf(fs)) && RowInserted(s, s.heap.TypeOf(fs), c[s.heap.TypeOf(fs)], fs, row')
    ensures var c' := c[s.heap.TypeOf(fs) := row'];
            ContentsOK(s, c') && HoldsAdded(s, c', added + [fs])
  {
    hide RowOK, RowInserted;
    var t := s.heap.TypeOf(fs);
    assert (added + [fs])[..|added|] == added;
    assert RowOK(s, t, c[t]);
    RowAfterAdd(s, t, c[t], fs, row');
  }

  lemma RowAfterAdd(s: Setup, t: nat, row: seq<seq<nat>>, fs: nat, row': seq<seq<nat>>)
    requires SetupOK(s) && RowOK(s, t, row) && fs != 0 && s.heap.TypeOf(fs) == t && RowInserted(s, t, row, fs, row')
    ensures RowOK(s, t, row') && |row'| == |row|
    ensures forall i :: 0 <= i < |row'| ==> multiset(row'[i]) == multiset(row[i]) + multiset{fs}
  {
    hide Sorted, IsInsertion;
    forall i | 0 <= i < |row'|
      ensures SlotOK(s, t, Slots(s, |s.definitions|, t), row', i)
      ensures multiset(row'[i]) == multiset(row[i]) + multiset{fs}
    {
      assert SlotInserted(s, Slots(s, |s.definitions|, t), row, fs, row', i);
      assert SlotOK(s, t, Slots(s, |s.definitions|, t), row, i);
      InsertionKeepsOrder(s.definitions[Slots(s, |s.definitions|, t)[i]].order, row[i], fs, row'[i]);
      assert forall x :: x in row'[i] ==> x in multiset(row'[i]);
    }
  }

  // The part of a type whose row did not change is the same.
  lemma PartsKept(s: Setup, c: Contents, c': Contents, t: nat, id: nat)
    requires SetupOK(s) && ContentsOK(s, c) && ContentsOK(s, c') && IsType(s.parents, t) && Covers(s, id, t)
    requires forall u :: u in Subtypes(s.parents, t) ==> c'[u] == c[u]
    ensures Parts(s, c', t, id) == Parts(s, c, t, id)
  {
    hide ContentsOK;
    var us := Subtypes(s.parents, t);
    forall k | 0 <= k < |us| ensures Parts(s, c', t, id)[k] == Parts(s, c, t, id)[k] {
      assert us[k] in us;
    }
  }

  // Where contents or clean sets change the clean set is emptied.
  ghost predicate Dirtied(s: Setup, c: Contents, c': Contents, clean: seq<set<OrderedCompositeIndex>>,
                          clean': seq<set<OrderedCompositeIndex>>)
  {
    && |c| == |c'| == |clean| == |clean'| == |s.parents|
    && forall u :: 0 < u < |s.parents| ==> clean'[u] == {} || (c'[u] == c[u] && clean'[u] == clean[u])
  }

  /** Caches that are still clean are still right when the clean sets were emptied wherever contents changed. */
  lemma CachesAfterChange(s: Setup, c: Contents, c': Contents, composites: seq<map<nat, OrderedCompositeIndex>>,
                          caches: set<OrderedCompositeIndex>, clean: seq<set<OrderedCompositeIndex>>,
                          clean': seq<set<OrderedCompositeIndex>>)
    requires SetupOK(s) && ContentsOK(s, c) && ContentsOK(s, c') && Dirtied(s, c, c', clean, clean')
    requires CachesFresh(s, c, composites, caches, clean)
    ensures CachesFresh(s, c', composites, caches, clean')
  {
    hide ContentsOK;
    forall v, id | 0 <= v < |composites| && id in composites[v]
      ensures composites[v][id] in caches && CacheFresh(s, c', v, id, clean', composites[v][id])
    {
      CacheAfterChange(s, c, c', clean, clean', v, id, composites[v][id]);
    }
  }

  lemma CacheAfterChange(s: Setup, c: Contents, c': Contents, clean: seq<set<OrderedCompositeIndex>>,
                         clean': seq<set<OrderedCompositeIndex>>, v: nat, id: nat, x: OrderedCompositeIndex)
    requires SetupOK(s) && ContentsOK(s, c) && ContentsOK(s, c') && Dirtied(s, c, c', clean, clean')
    requires CacheFresh(s, c, v, id, clean, x)
    ensures CacheFresh(s, c', v, id, clean', x)
  {
    hide ContentsOK, IsSortedMerge;
    if IsType(s.parents, v) && Covers(s, id, v) && x.tyType == v && IsClean(s.parents, clean', x) {
      forall u | u in Subtypes(s.parents, v) ensures c'[u] == c[u] && x in clean[u] {
        assert x in clean'[u];
      }
      assert IsClean(s.parents, clean, x);
      PartsKept(s, c, c', v, id);
    }
  }

  // The structures of the index stand in order.
  ghost predicate SingleOK(h: HeapView, x: OrderedSingleIndex)
    reads x`structures
  {
    x.Valid(Order(x.keys, h))
  }

  method AddToAll(row: seq<OrderedSingleIndex>, h: HeapView, fs: nat)
    requires AllDifferent(row) && (forall x :: x in row ==> SingleOK(h, x)) && fs != 0
    modifies row`structures
    ensures forall i :: 0 <= i < |row| ==>
              IsInsertion(Order(row[i].keys, h), old(row[i].structures), fs, row[i].structures)
  {
    hide Sorted, IsInsertion;
    for k := 0 to |row|
      invariant forall x :: x in row ==> SingleOK(h, x)
      invariant forall i :: 0 <= i < k ==>
                  IsInsertion(Order(row[i].keys, h), old(row[i].structures), fs, row[i].structures)
      invariant forall i :: k <= i < |row| ==> row[i].structures == old(row[i].structures)
    {
      assert SingleOK(h, row[k]);
      row[k].Add(Order(row[k].keys, h), fs);
    }
  }

  method RemoveFromAll(row: seq<OrderedSingleIndex>, h: HeapView, fs: nat)
    requires AllDifferent(row) && (forall x :: x in row ==> SingleOK(h, x))
    modifies row`structures
    ensures forall i :: 0 <= i < |row| ==>
              IsRemoval(Order(row[i].keys, h), old(row[i].structures), fs, row[i].structures)
  {
    hide Sorted, IsRemoval;
    for k := 0 to |row|
      invariant forall x :: x in row ==> SingleOK(h, x)
      invariant forall i :: 0 <= i < k ==>
                  IsRemoval(Order(row[i].keys, h), old(row[i].structures), fs, row[i].structures)
      invariant forall i :: k <= i < |row| ==> row[i].structures == old(row[i].structures)
    {
      assert SingleOK(h, row[k]);
      row[k].Remove(Order(row[k].keys, h), fs);
    }
  }

  method ResetAll(row: seq<OrderedSingleIndex>)
    modifies row`structures
    ensures forall x :: x in row ==> x.structures == []
  {
    for k := 0 to |row|
      invariant forall i :: 0 <= i < k ==> row[i].structures == []
    {
      row[k].Reset();
    }
  }

  // Enters the cache into the sets of the listed types.
  method EnterAll(clean: seq<set<OrderedCompositeIndex>>, types: seq<nat>, x: OrderedCompositeIndex)
    returns (clean': seq<set<OrderedCompositeIndex>>)
    requires forall i :: 0 <= i < |types| ==> types[i] < |clean|
    ensures Entered(clean, clean', types, x)
  {
    clean' := clean;
    for i := 0 to |types|
      invariant Entered(clean, clean', types[..i], x)
    {
      assert types[..i + 1] == types[..i] + [types[i]];
      clean' := clean'[types[i] := clean'[types[i]] + {x}];
    }
    assert types[..|types|] == types;
  }

  class IndexRepository {
    // its heap changes when structures are created or the heap is reset
    var setup: Setup
    const tree: seq<seq<nat>>
    var indexes: seq<seq<OrderedSingleIndex>>
    var positions: seq<map<nat, nat>>
    var composites: seq<map<nat, OrderedCompositeIndex>>
    // clean[t]: the caches that need no update because of type t
    var clean: seq<set<OrderedCompositeIndex>>
    var isUsed: seq<bool>
    var usedIndexes: seq<nat>
    var undefinedIndex: seq<nat>
    // everything added since the last reset
    ghost var added: seq<nat>
    // all index objects
    ghost var singles: set<OrderedSingleIndex>
    ghost var caches: set<OrderedCompositeIndex>

    // The objects are where they should be.
    ghost predicate Placed()
      reads this, singles, caches
    {
      && Objects(indexes) <= singles && SetupOK(setup) && tree == Children(setup.parents)
      && SinglesOK(setup, |setup.definitions|, indexes, positions)
      && CompositesOK(setup, |setup.definitions|, indexes, composites, caches)
      && |clean| == |isUsed| == |setup.parents|
    }

    // Every vector and every clean cache is in order.
    ghost predicate Sound()
      reads this, singles, caches
    {
      && Placed()
      && ContentsOK(setup, AllHeld(indexes))
      && CleanSorted(setup, clean, composites, caches)
    }

    // What does not depend on the keys: everything that holds something is known to be used.
    ghost predicate Intact()
      reads this, singles, caches
    {
      && Placed()
      && UsedOK(setup, AllHeld(indexes), isUsed, usedIndexes)
      && IdleCachesEmpty(setup, isUsed, clean, composites, caches)
    }

    // The indexes hold what was added, and clean caches are up to date.
    ghost predicate Valid()
      reads this, singles, caches
    {
      && Sound()
      && UsedOK(setup, AllHeld(indexes), isUsed, usedIndexes)
      && HoldsAdded(setup, AllHeld(indexes), added)
      && CachesFresh(setup, AllHeld(indexes), composites, caches, clean)
      && undefinedIndex == Uncovered(setup, added)
    }

    constructor (setup: Setup)
      requires SetupOK(setup)
      ensures Valid() && added == [] && this.setup == setup && fresh(singles) && fresh(caches)
    {
      this.setup, tree := setup, Children(setup.parents);
      new;
      Init();
    }

    /** init: the single indexes of every type, and a composite index for every type with subtypes. */
    method Init()
      requires SetupOK(setup) && tree == Children(setup.parents)
      modifies `indexes, `positions, `composites, `clean, `isUsed, `usedIndexes, `undefinedIndex, `added, `singles,
               `caches
      ensures Valid() && added == [] && fresh(singles) && fresh(caches)
    {
      hide *;
      var n := |setup.parents|;
      indexes, positions, composites := Repeat(n, []), Repeat(n, map[]), Repeat(n, map[]);
      clean, isUsed, usedIndexes, undefinedIndex := Repeat(n, {}), Repeat(n, false), [], [];
      added, singles, caches := [], {}, {};
      NothingBuilt(setup, indexes, positions, composites, singles, caches);
      for id := 0 to |setup.definitions|
        modifies `indexes, `positions, `composites, `singles, `caches
        invariant Built(setup, id, indexes, positions, composites, singles, caches)
        invariant fresh(singles) && fresh(caches)
      {
        CreateSingles(id);
        CreateComposites(id);
      }
      AllBuilt(this);
    }

    // The single indexes of one index.
    method CreateSingles(id: nat)
      requires SetupOK(setup) && tree == Children(setup.parents) && id < |setup.definitions|
      requires Built(setup, id, indexes, positions, composites, singles, caches)
      modifies `indexes, `positions, `singles
      ensures SinglesBuilt(setup, id, indexes, positions, composites, singles, caches)
      ensures fresh(singles - old(singles))
    {
      hide *;
      var definition := setup.definitions[id];
      DefinitionOK(setup, id);
      SubtypesAreListed(setup, tree, definition.tyType);
      var types := TypePriority.ComputePreOrder(tree, definition.tyType, []);
      assert types == Subtypes(setup.parents, definition.tyType);
      ghost var indexes0 := indexes;
      SinglesBegin(setup, id, types, indexes, positions, composites, singles, caches);
      for i := 0 to |types|
        invariant SinglesUpTo(setup, id, types, i, indexes, positions) && Grown(indexes0, indexes)
        invariant AllEmpty(singles) && Objects(indexes) <= singles && fresh(singles - old(singles))
      {
        CreateSingle(id, types, i, indexes0);
      }
      SinglesEnd(setup, id, types, indexes0, indexes, positions, composites, singles, caches);
    }

    // The single index of one type.
    method CreateSingle(id: nat, types: seq<nat>, i: nat, ghost indexes0: seq<seq<OrderedSingleIndex>>)
      requires SetupOK(setup) && id < |setup.definitions| && IsType(setup.parents, setup.definitions[id].tyType)
      requires types == Subtypes(setup.parents, setup.definitions[id].tyType) && Distinct(types) && i < |types|
      requires SinglesUpTo(setup, id, types, i, indexes, positions) && Grown(indexes0, indexes)
      requires AllEmpty(singles) && Objects(indexes) <= singles
      modifies `indexes, `positions, `singles
      ensures SinglesUpTo(setup, id, types, i + 1, indexes, positions) && Grown(indexes0, indexes)
      ensures AllEmpty(singles) && Objects(indexes) <= singles && fresh(singles - old(singles))
    {
      hide *;
      DefinitionOK(setup, id);
      var t := types[i];
      TypeListed(setup, id, types, i, indexes, positions);
      var ix := new OrderedSingleIndex(t, setup.definitions[id].order.keys);
      SingleAdded(setup, id, types, i, indexes0, indexes, positions, singles, ix);
      positions := positions[t := Put(positions[t], id, |indexes[t]|)];
      indexes := indexes[t := indexes[t] + [ix]];
      singles := singles + {ix};
    }

    // The composite indexes of one index.
    method CreateComposites(id: nat)
      requires SetupOK(setup) && tree == Children(setup.parents) && id < |setup.definitions|
      requires SinglesBuilt(setup, id, indexes, positions, composites, singles, caches)
      modifies `composites, `caches
      ensures Built(setup, id + 1, indexes, positions, composites, singles, caches)
      ensures fresh(caches - old(caches))
    {
      hide *;
      var definition := setup.definitions[id];
      DefinitionOK(setup, id);
      SubtypesAreListed(setup, tree, definition.tyType);
      var types := TypePriority.ComputePreOrder(tree, definition.tyType, []);
      assert types == Subtypes(setup.parents, definition.tyType);
      CompositesBegin(setup, id, types, indexes, positions, composites, singles, caches);
      for i := 0 to |types|
        invariant CompositesUpTo(setup, id, types, i, indexes, composites, caches) && CachesEmpty(caches)
        invariant fresh(caches - old(caches))
      {
        CreateCompositeIfInner(id, types, i);
      }
      CompositesEnd(setup, id, types, indexes, positions, composites, singles, caches);
    }

    // The composite index of one type, if it has subtypes.
    method CreateCompositeIfInner(id: nat, types: seq<nat>, i: nat)
      requires SetupOK(setup) && tree == Children(setup.parents) && id < |setup.definitions| && i < |types|
      requires types == Subtypes(setup.parents, setup.definitions[id].tyType) && Distinct(types)
      requires IsType(setup.parents, setup.definitions[id].tyType) && SinglesOK(setup, id + 1, indexes, positions)
      requires CompositesUpTo(setup, id, types, i, indexes, composites, caches) && CachesEmpty(caches)
      modifies `composites, `caches
      ensures CompositesUpTo(setup, id, types, i + 1, indexes, composites, caches) && CachesEmpty(caches)
      ensures fresh(caches - old(caches))
    {
      hide *;
      var t := types[i];
      CompositeListed(setup, id, types, i, composites, indexes, caches);
      if tree[t] != [] {
        var x := CreateComposite(id, t);
        CompositeAdded(setup, id, types, i, indexes, composites, caches, x);
        composites := composites[t := Put(composites[t], id, x)];
        caches := caches + {x};
      } else {
        CompositeSkipped(setup, id, types, i, indexes, composites, caches);
      }
    }

    // One composite index with its components.
    method CreateComposite(id: nat, t: nat) returns (x: OrderedCompositeIndex)
      requires SetupOK(setup) && tree == Children(setup.parents) && id < |setup.definitions|
      requires SinglesOK(setup, id + 1, indexes, positions) && IsType(setup.parents, t) && Covers(setup, id, t)
      ensures fresh(x) && CompositeOK(setup, indexes, t, id, x) && x.cache == []
    {
      hide *;
      DefinitionOK(setup, id);
      x := new OrderedCompositeIndex(t, setup.definitions[id].order.keys);
      SubtypesAreListed(setup, tree, t);
      var types := TypePriority.ComputePreOrder(tree, t, []);
      assert types == Subtypes(setup.parents, t);
      NoComponents(setup, indexes, id, types);
      for j := 0 to |types|
        invariant fresh(x) && x.cache == [] && |x.components| == j
        invariant ComponentsUpTo(setup, indexes, id, types, j, x.components)
      {
        ComponentListed(setup, indexes, positions, id, t, types, j);
        ghost var components := x.components;
        x.AddComponent(indexes[types[j]][positions[types[j]][id]]);
        assert x.components[..j] == components;
        ComponentAdded(setup, indexes, positions, id, types, j, x.components);
      }
      CompositeBuilt(setup, indexes, id, t, types, x);
    }

    // The single indexes of the type take in the structure.
    method AddToRow(fs: nat, t: nat, ghost c: Contents)
      requires SetupOK(setup) && IsType(setup.parents, t) && t < |indexes| == |positions| && fs != 0
      requires c == AllHeld(indexes)
      requires AllDifferent(indexes[t]) && (forall x :: x in indexes[t] ==> SingleOK(setup.heap, x))
      requires forall u, i :: 0 <= u < |indexes| && u != t && 0 <= i < |indexes[u]| ==> indexes[u][i] !in indexes[t]
      requires RowObjects(setup, |setup.definitions|, t, indexes[t], positions[t])
      modifies indexes[t]`structures
      ensures AllHeld(indexes) == c[t := Held(indexes[t])] && RowInserted(setup, t, c[t], fs, Held(indexes[t]))
    {
      hide *;
      AddToAll(indexes[t], setup.heap, fs);
      InsertedInRow(setup, t, indexes[t], positions[t], c[t], fs);
    }

    /** add: to all indexes of the exact type; no cache over the type is clean any more. */
    method Add(fs: nat)
      requires Valid() && fs != 0 && IsType(setup.parents, setup.heap.TypeOf(fs))
      modifies `clean, `isUsed, `usedIndexes, `undefinedIndex, `added, indexes[setup.heap.TypeOf(fs)]`structures
      ensures Valid() && added == old(added) + [fs]
      ensures var t := setup.heap.TypeOf(fs);
              && t < |old(clean)| && clean == old(clean)[t := {}] && t < |old(AllHeld(indexes))|
              && AllHeld(indexes) == old(AllHeld(indexes))[t := AllHeld(indexes)[t]]
              && RowInserted(setup, t, old(AllHeld(indexes))[t], fs, AllHeld(indexes)[t])
    {
      hide *;
      var t := setup.heap.TypeOf(fs);
      ghost var c := AllHeld(indexes);
      Disassemble(this);
      ReadyForType(this, t);
      clean := clean[t := {}];
      FewerClean(setup, old(clean), clean, composites, caches);
      var typeIndexes := indexes[t];
      added := added + [fs];
      if !isUsed[t] {
        if |typeIndexes| == 0 {
          undefinedIndex := undefinedIndex + [fs];
          assert AllHeld(indexes) == c;
          NoSlots(setup, t, typeIndexes, positions[t]);
          AddedNowhere(setup, c, composites, caches, old(clean), old(added), fs);
          NothingInserted(setup, c, t, fs);
          Assemble(this);
          return;
        }
        isUsed := isUsed[t := true];
        usedIndexes := usedIndexes + [t];
      }
      MarkedNow(t, old(isUsed), old(usedIndexes), isUsed, usedIndexes);
      PlacedFrom(this);
      AddCovered(fs, t, c, old(clean), old(isUsed), old(usedIndexes), old(added));
    }

    // The rest of add for a type that some index covers.
    method AddCovered(fs: nat, t: nat, ghost c: Contents, ghost clean0: seq<set<OrderedCompositeIndex>>,
                      ghost isUsed0: seq<bool>, ghost usedIndexes0: seq<nat>, ghost added0: seq<nat>)
      requires Placed() && fs != 0 && t == setup.heap.TypeOf(fs) && IsType(setup.parents, t)
      requires t < |indexes| == |positions| && t < |clean0| == |setup.parents| && t < |isUsed0|
      requires AllDifferent(indexes[t]) && (forall x :: x in indexes[t] ==> SingleOK(setup.heap, x))
      requires forall u, i :: 0 <= u < |indexes| && u != t && 0 <= i < |indexes[u]| ==> indexes[u][i] !in indexes[t]
      requires RowObjects(setup, |setup.definitions|, t, indexes[t], positions[t])
      requires Slots(setup, |setup.definitions|, t) != [] || isUsed0[t]
      requires c == AllHeld(indexes) && ContentsOK(setup, c) && HoldsAdded(setup, c, added0)
      requires UsedOK(setup, c, isUsed0, usedIndexes0) && CachesFresh(setup, c, composites, caches, clean0)
      requires clean == clean0[t := {}] && CleanSorted(setup, clean, composites, caches)
      requires Marked(t, isUsed0, usedIndexes0, isUsed, usedIndexes)
      requires added == added0 + [fs] && undefinedIndex == Uncovered(setup, added0)
      modifies indexes[t]`structures
      ensures Valid() && AllHeld(indexes) == c[t := AllHeld(indexes)[t]]
      ensures RowInserted(setup, t, c[t], fs, AllHeld(indexes)[t])
    {
      hide *;
      PlacedParts(this);
      AddToRow(fs, t, c);
      AddedSomewhere(setup, c, composites, caches, clean0, isUsed0, usedIndexes0, isUsed, usedIndexes, added0, fs,
                     Held(indexes[t]));
      Assemble(this);
    }

    /** isDirtyForIndex: some subtype does not have the cache in its clean set. */
    method IsDirtyForIndex(x: OrderedCompositeIndex) returns (dirty: bool)
      requires SetupOK(setup) && tree == Children(setup.parents) && |clean| == |setup.parents|
      requires IsType(setup.parents, x.tyType)
      ensures dirty <==> !IsClean(setup.parents, clean, x)
    {
      hide *;
      SubtypesAreListed(setup, tree, x.tyType);
      var types := TypePriority.ComputePreOrder(tree, x.tyType, []);
      assert types == Subtypes(setup.parents, x.tyType);
      CleanForAll(setup.parents, clean, x, types);
      for i := 0 to |types|
        invariant forall j :: 0 <= j < i ==> types[j] < |clean| && x in clean[types[j]]
      {
        if x !in clean[types[i]] {
          return true;
        }
      }
      dirty := false;
    }

    /** clearDirtyFlagForIndex: enters the cache into the clean sets of all subtypes. */
    method ClearDirtyFlagForIndex(x: OrderedCompositeIndex)
      requires SetupOK(setup) && tree == Children(setup.parents) && |clean| == |setup.parents|
      requires IsType(setup.parents, x.tyType)
      modifies `clean
      ensures |clean| == |old(clean)| && MarkedClean(setup.parents, old(clean), clean, x)
    {
      SubtypesAreListed(setup, tree, x.tyType);
      var types := TypePriority.ComputePreOrder(tree, x.tyType, []);
      ghost var us := Subtypes(setup.parents, x.tyType);
      assert types == us;
      forall i | 0 <= i < |types| ensures types[i] < |clean| {
        assert types[i] in us;
      }
      clean := EnterAll(clean, types, x);
    }

    // createIterator of a composite index.
    method Refresh(id: nat, t: nat, x: OrderedCompositeIndex)
      requires Sound() && IsType(setup.parents, t) && Covers(setup, id, t)
      requires t < |composites| && id in composites[t] && x == composites[t][id]
      modifies `clean, x`cache
      ensures Sound()
      ensures x.tyType == t
      ensures if old(IsClean(setup.parents, clean, x)) then x.cache == old(x.cache) && clean == old(clean)
                               else IsSortedMerge(setup.definitions[id].order, Parts(setup, AllHeld(indexes), t, id),
                                                  x.cache)
      ensures IsClean(setup.parents, clean, x)
      ensures old(Valid()) ==> Valid()
    {
      hide *;
      CompositeReady(this, t, id, x);
      SoundParts(this);
      OthersAreSorted(setup, clean, composites, caches, x);
      ghost var c := AllHeld(indexes);
      ghost var wasValid := Valid();
      if wasValid {
        Disassemble(this);
        OthersAreFresh(setup, c, composites, caches, clean, x);
      }
      var dirty := IsDirtyForIndex(x);
      if dirty {
        x.ClearAndFillCache(setup.definitions[id].order);
        ClearDirtyFlagForIndex(x);
        NowClean(setup.parents, old(clean), clean, x);
        assert AllHeld(indexes) == c;
        SoundAgain(this, old(clean), t, id, x);
        if wasValid {
          FilledIsFresh(setup, c, indexes, composites, caches, old(clean), clean, t, id, x);
          Assemble(this);
        }
      }
    }

    /**
     getLowlevelIndex and createIterator. A type without subtypes has its
     vector iterated, any other its cache: as it is if it is clean, and after
     a sorted merge of the present contents if it is not. As long as
     structures were only added and everything reset, the iterator yields
     exactly the structures that were added and are subsumed, in order.
     */
    method CreateIterator(id: nat, t: nat) returns (it: IndexIterator)
      requires Sound() && IsType(setup.parents, t) && Covers(setup, id, t)
      modifies `clean, caches`cache
      ensures Sound() && fresh(it) && it.Valid() && it.hasComparator && it.order == setup.definitions[id].order
      ensures tree[t] == [] ==> it.structures == PartOf(setup, AllHeld(indexes), t, t, id)
      ensures tree[t] != [] ==>
                && id in composites[t] && composites[t][id].tyType == t && it.structures == composites[t][id].cache
                && if old(IsClean(setup.parents, clean, composites[t][id]))
                   then it.structures == old(composites[t][id].cache)
                   else IsSortedMerge(it.order, Parts(setup, AllHeld(indexes), t, id), it.structures)
      ensures tree[t] != [] ==> IsClean(setup.parents, clean, composites[t][id])
      ensures old(Valid()) ==> Valid() && multiset(it.structures) == Under(setup, added, t)
    {
      hide *;
      TypeReady(this, id, t);
      if tree[t] == [] {
        var index := indexes[t][positions[t][id]];
        it := index.CreateIterator(setup.definitions[id].order);
        if Valid() {
          LeafYields(this, id, t);
        }
      } else {
        var x := composites[t][id];
        Refresh(id, t, x);
        CacheReady(this, id, t, x);
        ghost var c := AllHeld(indexes);
        it := new IndexIterator(x.cache, setup.definitions[id].order, true);
        assert AllHeld(indexes) == c;
        if old(Valid()) {
          CacheYields(this, id, t, x);
        }
      }
    }

    // The loop of reset.
    method ResetUsed(ghost c: Contents)
      requires SetupOK(setup) && SinglesOK(setup, |setup.definitions|, indexes, positions)
      requires Objects(indexes) <= singles
      requires UsedOK(setup, c, isUsed, usedIndexes)
      requires ResetUpTo(setup, c, AllHeld(indexes), clean, clean, isUsed, isUsed, usedIndexes, 0)
      modifies `clean, `isUsed, singles`structures
      ensures ResetUpTo(setup, c, AllHeld(indexes), old(clean), clean, old(isUsed), isUsed, usedIndexes, |usedIndexes|)
    {
      hide *;
      for i := 0 to |usedIndexes|
        invariant ResetUpTo(setup, c, AllHeld(indexes), old(clean), clean, old(isUsed), isUsed, usedIndexes, i)
      {
        var t := usedIndexes[i];
        ghost var c1 := AllHeld(indexes);
        RowReady(setup, c, old(isUsed), usedIndexes, i, indexes, positions, singles);
        StillSized(setup, c, c1, old(clean), clean, old(isUsed), isUsed, usedIndexes, i);
        ResetAll(indexes[t]);
        EmptyRow(indexes[t], c1[t]);
        assert AllHeld(indexes) == c1[t := Held(indexes[t])];
        ResetOne(setup, c, c1, old(clean), clean, old(isUsed), isUsed, usedIndexes, i, Held(indexes[t]));
        clean := clean[t := {}];
        isUsed := isUsed[t := false];
      }
    }

    /**
     reset: empties the indexes of the types that were used, and makes their
     caches stale. Nothing is asked of the keys of what was indexed: the heap
     may have been reset before.
     */
    method Reset()
      requires Intact()
      modifies `clean, `isUsed, `usedIndexes, `undefinedIndex, `added, singles`structures
      ensures Valid() && added == []
      ensures NothingHeld(setup, AllHeld(indexes)) && CleanCachesEmpty(setup, clean, composites, caches)
    {
      hide *;
      IntactParts(this);
      undefinedIndex, added := [], [];
      ghost var c := AllHeld(indexes);
      NothingUsed(setup, c, clean, isUsed, usedIndexes);
      if |usedIndexes| == 0 {
        AllReset(setup, c, c, composites, caches, clean, clean, isUsed, isUsed, usedIndexes);
        EmptyIsValid(this);
        return;
      }
      ResetUsed(c);
      StillSized(setup, c, AllHeld(indexes), old(clean), clean, old(isUsed), isUsed, usedIndexes, |usedIndexes|);
      AllReset(setup, c, AllHeld(indexes), composites, caches, old(clean), clean, old(isUsed), isUsed, usedIndexes);
      usedIndexes := [];
      EmptyIsValid(this);
    }

    // The structure is in some index, or in a cache that will be iterated as it is.
    ghost predicate IsHeld(fs: nat)
      requires Sound()
      reads this, singles, caches
    {
      InContents(AllHeld(indexes), fs) || InCleanCaches(setup, clean, composites, caches, fs)
    }

    /**
     The heap has changed: structures were created or changed, but no key of
     what is indexed. Everything stays valid.
     */
    method HeapChanged(h: HeapView)
      requires Sound() && SetupOK(Rebased(setup, h))
      requires forall fs :: IsHeld(fs) || fs in added ==> SameStructure(setup, h, fs)
      modifies `setup
      ensures setup == Rebased(old(setup), h) && Sound()
      ensures old(Valid()) ==> Valid()
    {
      hide *;
      ghost var s, wasValid := setup, Valid();
      SoundParts(this);
      HeldUnchanged(this, h);
      if wasValid {
        Disassemble(this);
        CompositeKeys(this);
        TypesKept(s, h, added);
        StillHoldsAdded(s, h, AllHeld(indexes), added);
        UsedRebased(s, h, AllHeld(indexes), isUsed, usedIndexes);
        StillFresh(s, h, AllHeld(indexes), composites, caches, clean);
      }
      PlacedRebased(this, h);
      setup := Rebased(setup, h);
      SoundFrom(this);
      if wasValid {
        Assemble(this);
      }
    }

    /** The heap has been reset or filled anew. What is indexed can only be dropped. */
    method HeapReplaced(h: HeapView)
      requires Intact() && SetupOK(Rebased(setup, h))
      modifies `setup
      ensures setup == Rebased(old(setup), h) && Intact()
    {
      hide *;
      IntactParts(this);
      UsedRebased(setup, h, AllHeld(indexes), isUsed, usedIndexes);
      IdleRebased(setup, h, isUsed, clean, composites, caches);
      PlacedRebased(this, h);
      setup := Rebased(setup, h);
      IntactFrom(this);
    }

    /** remove: out of all indexes of the exact type. No clean set and no list of used types changes. */
    method Remove(fs: nat)
      requires Sound() && IsType(setup.parents, setup.heap.TypeOf(fs))
      modifies indexes[setup.heap.TypeOf(fs)]`structures
      ensures Sound()
      ensures var t := setup.heap.TypeOf(fs);
              && AllHeld(indexes) == old(AllHeld(indexes))[t := AllHeld(indexes)[t]]
              && RowRemoved(setup, t, old(AllHeld(indexes))[t], fs, AllHeld(indexes)[t])
    {
      hide *;
      var t := setup.heap.TypeOf(fs);
      ghost var c := AllHeld(indexes);
      SoundParts(this);
      ReadyForType(this, t);
      RemoveFromAll(indexes[t], setup.heap, fs);
      assert AllHeld(indexes) == c[t := Held(indexes[t])];
      RemovedInRow(setup, t, indexes[t], positions[t], c[t], fs);
      ContentsAfterRemove(setup, c, t, fs, Held(indexes[t]));
      SoundFrom(this);
    }

    /** add to one index: neither clean sets nor the list of used types change. */
    method AddToIndex(fs: nat, id: nat)
      requires Sound() && fs != 0 && IsType(setup.parents, setup.heap.TypeOf(fs))
      requires Covers(setup, id, setup.heap.TypeOf(fs))
      modifies indexes[setup.heap.TypeOf(fs)]`structures
      ensures Sound()
      ensures var t := setup.heap.TypeOf(fs);
              var p := Place(setup, t, id);
              var c := old(AllHeld(indexes));
              && t < |c| == |AllHeld(indexes)| && p < |c[t]| == |AllHeld(indexes)[t]|
              && AllHeld(indexes) == c[t := c[t][p := AllHeld(indexes)[t][p]]]
              && IsInsertion(setup.definitions[id].order, c[t][p], fs, AllHeld(indexes)[t][p])
    {
      hide *;
      var t := setup.heap.TypeOf(fs);
      ghost var c := AllHeld(indexes);
      SoundParts(this);
      ReadyForType(this, t);
      SingleReady(this, id, t);
      var p := positions[t][id];
      indexes[t][p].Add(setup.definitions[id].order, fs);
      assert Held(indexes[t]) == c[t][p := indexes[t][p].structures];
      assert AllHeld(indexes) == c[t := Held(indexes[t])];
      ContentsAfterInsertion(setup, c, t, p, fs, indexes[t][p].structures);
      SoundFrom(this);
    }

    /** remove from one index */
    method RemoveFromIndex(fs: nat, id: nat)
      requires Sound() && IsType(setup.parents, setup.heap.TypeOf(fs)) && Covers(setup, id, setup.heap.TypeOf(fs))
      modifies indexes[setup.heap.TypeOf(fs)]`structures
      ensures Sound()
      ensures var t := setup.heap.TypeOf(fs);
              var p := Place(setup, t, id);
              var c := old(AllHeld(indexes));
              && t < |c| == |AllHeld(indexes)| && p < |c[t]| == |AllHeld(indexes)[t]|
              && AllHeld(indexes) == c[t := c[t][p := AllHeld(indexes)[t][p]]]
              && IsRemoval(setup.definitions[id].order, c[t][p], fs, AllHeld(indexes)[t][p])
    {
      hide *;
      var t := setup.heap.TypeOf(fs);
      ghost var c := AllHeld(indexes);
      SoundParts(this);
      ReadyForType(this, t);
      SingleReady(this, id, t);
      var p := positions[t][id];
      indexes[t][p].Remove(setup.definitions[id].order, fs);
      assert Held(indexes[t]) == c[t][p := indexes[t][p].structures];
      assert AllHeld(indexes) == c[t := Held(indexes[t])];
      ContentsAfterRemoval(setup, c, t, p, fs, indexes[t][p].structures);
      SoundFrom(this);
    }
  }

  // The index objects of several repositories.
  ghost function AllSingles(rs: seq<IndexRepository>): set<OrderedSingleIndex>
    reads rs`singles
  {
    set r, x | r in rs && x in r.singles :: x
  }

  ghost function AllCaches(rs: seq<IndexRepository>): set<OrderedCompositeIndex>
    reads rs`caches
  {
    set r, x | r in rs && x in r.caches :: x
  }

  lemma AllObjects(rs: seq<IndexRepository>)
    ensures AllSingles(rs) == set r, x | r in rs && x in r.singles :: x
    ensures AllCaches(rs) == set r, x | r in rs && x in r.caches :: x
  {
  }

  lemma OwnObjects(rs: seq<IndexRepository>, v: nat)
    requires v < |rs|
    ensures rs[v].singles <= AllSingles(rs) && rs[v].caches <= AllCaches(rs)
  {
  }

  lemma CleanForAll(parents: seq<nat>, clean: seq<set<OrderedCompositeIndex>>, x: OrderedCompositeIndex,
                    types: seq<nat>)
    requires ParentsOK(parents) && IsType(parents, x.tyType) && types == Subtypes(parents, x.tyType)
    requires |clean| == |parents|
    ensures forall i :: 0 <= i < |types| ==> types[i] < |clean|
    ensures IsClean(parents, clean, x) <==> forall i :: 0 <= i < |types| ==> x in clean[types[i]]
  {
    hide Subtypes;
    forall i | 0 <= i < |types| ensures types[i] < |clean| {
      assert types[i] in types;
    }
  }

  lemma SubtypesAreListed(s: Setup, tree: seq<seq<nat>>, t: nat)
    requires SetupOK(s) && tree == Children(s.parents) && IsType(s.parents, t)
    ensures ParentsOK(s.parents) && Downward(tree) && t < |tree| && PreOrder(tree, t) == Subtypes(s.parents, t)
  {
    ChildrenAreTree(s.parents);
    TreeIsDownward(tree, s.parents);
  }

  // x is entered for all its subtypes, and nothing else.
  ghost predicate MarkedClean(parents: seq<nat>, clean: seq<set<OrderedCompositeIndex>>,
                              clean': seq<set<OrderedCompositeIndex>>,
                              x: OrderedCompositeIndex)
    requires ParentsOK(parents) && IsType(parents, x.tyType)
  {
    Entered(clean, clean', Subtypes(parents, x.tyType), x)
  }

  ghost predicate Entered(clean: seq<set<OrderedCompositeIndex>>, clean': seq<set<OrderedCompositeIndex>>,
                          us: seq<nat>, x: OrderedCompositeIndex)
  {
    |clean'| == |clean| && forall u :: 0 <= u < |clean| ==> clean'[u] == clean[u] + if u in us then {x} else {}
  }

  lemma NowClean(parents: seq<nat>, clean: seq<set<OrderedCompositeIndex>>, clean': seq<set<OrderedCompositeIndex>>,
                 x: OrderedCompositeIndex)
    requires ParentsOK(parents) && IsType(parents, x.tyType) && |clean| == |parents|
    requires MarkedClean(parents, clean, clean', x)
    ensures IsClean(parents, clean', x)
  {
  }

  // The types in the first n entries of the list are emptied, unused and not clean, the others are as they were.
  ghost predicate ResetUpTo(s: Setup, c: Contents, c': Contents, clean: seq<set<OrderedCompositeIndex>>,
                            clean': seq<set<OrderedCompositeIndex>>, isUsed: seq<bool>, isUsed': seq<bool>,
                            usedIndexes: seq<nat>, n: nat)
  {
    && |s.parents| == |c| == |c'| == |clean| == |clean'| == |isUsed| == |isUsed'| && n <= |usedIndexes|
    && forall u :: 0 < u < |s.parents| ==>
         if u in usedIndexes[..n] then IsEmptied(c[u], c'[u]) && clean'[u] == {} && !isUsed'[u]
         else c'[u] == c[u] && clean'[u] == clean[u] && isUsed'[u] == isUsed[u]
  }

  ghost predicate IsEmptied(row: seq<seq<nat>>, row': seq<seq<nat>>) {
    |row'| == |row| && forall i :: 0 <= i < |row'| ==> row'[i] == []
  }

  lemma NothingUsed(s: Setup, c: Contents, clean: seq<set<OrderedCompositeIndex>>, isUsed: seq<bool>,
                    usedIndexes: seq<nat>)
    requires |s.parents| == |c| == |clean| == |isUsed|
    ensures ResetUpTo(s, c, c, clean, clean, isUsed, isUsed, usedIndexes, 0)
  {
  }

  lemma StillSized(s: Setup, c: Contents, c': Contents, clean: seq<set<OrderedCompositeIndex>>,
                   clean': seq<set<OrderedCompositeIndex>>, isUsed: seq<bool>, isUsed': seq<bool>,
                   usedIndexes: seq<nat>, n: nat)
    requires ResetUpTo(s, c, c', clean, clean', isUsed, isUsed', usedIndexes, n)
    ensures |c'| == |clean'| == |isUsed'| == |s.parents|
  {
  }

  lemma EmptyRow(row: seq<OrderedSingleIndex>, before: seq<seq<nat>>)
    requires |before| == |row| && forall x :: x in row ==> x.structures == []
    ensures IsEmptied(before, Held(row))
  {
  }

  // The objects of a used type, which are those of no other type.
  lemma RowReady(s: Setup, c: Contents, isUsed: seq<bool>, usedIndexes: seq<nat>, n: nat,
                 indexes: seq<seq<OrderedSingleIndex>>, positions: seq<map<nat, nat>>, singles: set<OrderedSingleIndex>)
    requires SetupOK(s) && SinglesOK(s, |s.definitions|, indexes, positions) && Objects(indexes) <= singles
    requires UsedOK(s, c, isUsed, usedIndexes) && n < |usedIndexes|
    ensures var t := usedIndexes[n];
            && 0 < t < |s.parents| == |indexes|
            && (forall x :: x in indexes[t] ==> x in singles)
            && forall u, i :: 0 <= u < |indexes| && u != t && 0 <= i < |indexes[u]| ==> indexes[u][i] !in indexes[t]
  {
    var t, m := usedIndexes[n], |s.definitions|;
    assert t in usedIndexes;
    assert RowObjects(s, m, t, indexes[t], positions[t]);
    forall u, i | 0 <= u < |indexes| && u != t && 0 <= i < |indexes[u]| ensures indexes[u][i] !in indexes[t] {
      assert u != 0 ==> RowObjects(s, m, u, indexes[u], positions[u]);
    }
    forall x | x in indexes[t] ensures x in singles {
      var i :| 0 <= i < |indexes[t]| && indexes[t][i] == x;
      assert ObjectOK(s, t, Slots(s, m, t)[i], x) && x in Objects(indexes);
    }
  }

  lemma ResetOne(s: Setup, c: Contents, c': Contents, clean: seq<set<OrderedCompositeIndex>>,
                 clean': seq<set<OrderedCompositeIndex>>, isUsed: seq<bool>, isUsed': seq<bool>,
                 usedIndexes: seq<nat>, n: nat, row: seq<seq<nat>>)
    requires ResetUpTo(s, c, c', clean, clean', isUsed, isUsed', usedIndexes, n) && n < |usedIndexes|
    requires usedIndexes[n] < |s.parents| && IsEmptied(c'[usedIndexes[n]], row)
    ensures var t := usedIndexes[n];
            ResetUpTo(s, c, c'[t := row], clean, clean'[t := {}], isUsed, isUsed'[t := false], usedIndexes, n + 1)
  {
    assert usedIndexes[..n + 1] == usedIndexes[..n] + [usedIndexes[n]];
  }

  // Nothing is indexed.
  ghost predicate NothingHeld(s: Setup, c: Contents) {
    forall t, i :: IsType(s.parents, t) && t < |c| && 0 <= i < |c[t]| ==> c[t][i] == []
  }

  ghost predicate CleanCachesEmpty(s: Setup, clean: seq<set<OrderedCompositeIndex>>,
                                   composites: seq<map<nat, OrderedCompositeIndex>>,
                                   caches: set<OrderedCompositeIndex>)
    requires ParentsOK(s.parents)
    reads caches`cache
  {
    forall t, id :: 0 <= t < |composites| && id in composites[t] ==>
      composites[t][id] in caches && CleanCacheEmpty(s, clean, composites[t][id])
  }

  ghost predicate CleanCacheEmpty(s: Setup, clean: seq<set<OrderedCompositeIndex>>, x: OrderedCompositeIndex)
    requires ParentsOK(s.parents)
    reads x`cache
  {
    IsType(s.parents, x.tyType) && IsClean(s.parents, clean, x) ==> x.cache == []
  }

  /** When all types that were used are emptied nothing is left, in no index and in no clean cache. */
  lemma AllReset(s: Setup, c: Contents, c': Contents, composites: seq<map<nat, OrderedCompositeIndex>>,
                 caches: set<OrderedCompositeIndex>, clean: seq<set<OrderedCompositeIndex>>,
                 clean': seq<set<OrderedCompositeIndex>>, isUsed: seq<bool>, isUsed': seq<bool>, usedIndexes: seq<nat>)
    requires ParentsOK(s.parents) && UsedOK(s, c, isUsed, usedIndexes)
    requires IdleCachesEmpty(s, isUsed, clean, composites, caches)
    requires ResetUpTo(s, c, c', clean, clean', isUsed, isUsed', usedIndexes, |usedIndexes|)
    ensures NothingHeld(s, c') && |clean'| == |isUsed'| == |s.parents|
    ensures forall t :: IsType(s.parents, t) ==> !isUsed'[t]
    ensures CleanCachesEmpty(s, clean', composites, caches)
  {
    hide Subtypes;
    assert usedIndexes[..|usedIndexes|] == usedIndexes;
    forall t, id | 0 <= t < |composites| && id in composites[t]
      ensures composites[t][id] in caches && CleanCacheEmpty(s, clean', composites[t][id])
    {
      var x := composites[t][id];
      assert IdleCacheEmpty(s, isUsed, clean, x);
      if IsType(s.parents, x.tyType) && IsClean(s.parents, clean', x) {
        forall u | u in Subtypes(s.parents, x.tyType) ensures u < |clean| && x in clean[u] && !isUsed[u] {
          assert x in clean'[u];
        }
      }
    }
  }

  /** A repository without contents whose clean caches are empty is valid. */
  lemma EmptyIsValid(r: IndexRepository)
    requires Objects(r.indexes) <= r.singles && SetupOK(r.setup) && r.tree == Children(r.setup.parents)
    requires SinglesOK(r.setup, |r.setup.definitions|, r.indexes, r.positions)
    requires CompositesOK(r.setup, |r.setup.definitions|, r.indexes, r.composites, r.caches)
    requires |r.clean| == |r.isUsed| == |r.setup.parents| && (forall t :: IsType(r.setup.parents, t) ==> !r.isUsed[t])
    requires r.usedIndexes == [] && r.undefinedIndex == [] && r.added == [] && NothingHeld(r.setup, AllHeld(r.indexes))
    requires CleanCachesEmpty(r.setup, r.clean, r.composites, r.caches)
    ensures r.Valid()
  {
    var s, c := r.setup, AllHeld(r.indexes);
    forall t | IsType(s.parents, t) ensures RowOK(s, t, c[t]) {
      EmptyRowOK(s, t, r.indexes[t], r.positions[t], c[t]);
    }
    hide Sorted, SinglesOK, RowOK, Subtypes, IsClean;
    forall t, id | 0 <= t < |r.composites| && id in r.composites[t]
      ensures CacheFresh(s, c, t, id, r.clean, r.composites[t][id]) && CacheSorted(s, r.clean, r.composites[t][id])
    {
      var x := r.composites[t][id];
      assert CompositeOK(s, r.indexes, t, id, x) && CleanCacheEmpty(s, r.clean, x);
      NothingIsSorted(Order(x.keys, s.heap));
      if IsType(s.parents, t) && Covers(s, id, t) && x.tyType == t && IsClean(s.parents, r.clean, x) {
        EmptyParts(s, c, t, id);
        NothingToMerge(s.definitions[id].order, Parts(s, c, t, id));
      }
    }
    AssembleEmpty(r);
  }

  lemma NothingIsSorted(o: Order)
    ensures Sorted(o, [])
  {
  }

  lemma AssembleEmpty(r: IndexRepository)
    requires Objects(r.indexes) <= r.singles && SetupOK(r.setup) && r.tree == Children(r.setup.parents)
    requires SinglesOK(r.setup, |r.setup.definitions|, r.indexes, r.positions)
    requires CompositesOK(r.setup, |r.setup.definitions|, r.indexes, r.composites, r.caches)
    requires |r.clean| == |r.isUsed| == |r.setup.parents| && (forall t :: IsType(r.setup.parents, t) ==> !r.isUsed[t])
    requires r.usedIndexes == [] && r.undefinedIndex == [] && r.added == [] && NothingHeld(r.setup, AllHeld(r.indexes))
    requires ContentsOK(r.setup, AllHeld(r.indexes))
    requires forall t, id :: 0 <= t < |r.composites| && id in r.composites[t] ==>
               CacheFresh(r.setup, AllHeld(r.indexes), t, id, r.clean, r.composites[t][id])
               && CacheSorted(r.setup, r.clean, r.composites[t][id])
    ensures r.Valid()
  {
    hide CacheFresh, CacheSorted, Sorted, SetupOK, RowOK, CompositeOK;
  }

  lemma EmptyParts(s: Setup, c: Contents, t: nat, id: nat)
    requires SetupOK(s) && ContentsOK(s, c) && IsType(s.parents, t) && Covers(s, id, t) && NothingHeld(s, c)
    ensures forall k :: 0 <= k < |Parts(s, c, t, id)| ==> Parts(s, c, t, id)[k] == []
  {
    forall k | 0 <= k < |Parts(s, c, t, id)| ensures Parts(s, c, t, id)[k] == [] {
      PartAt(s, c, t, id, k);
      PartPlaces(s, c, t, Subtypes(s.parents, t)[k], id);
    }
  }

  lemma {:induction false} EmptySizes(parts: seq<seq<nat>>)
    requires forall k :: 0 <= k < |parts| ==> parts[k] == []
    ensures Sum(Sizes(parts)) == 0
  {
    if parts != [] {
      EmptySizes(parts[..|parts| - 1]);
      assert Sizes(parts)[..|parts| - 1] == Sizes(parts[..|parts| - 1]);
    }
  }

  lemma NothingToMerge(o: Order, parts: seq<seq<nat>>)
    requires forall k :: 0 <= k < |parts| ==> parts[k] == []
    ensures IsSortedMerge(o, parts, [])
  {
    EmptySizes(parts);
    assert Interleaves(parts, [], []);
  }

  lemma IntactParts(r: IndexRepository)
    requires r.Intact()
    ensures Objects(r.indexes) <= r.singles && SetupOK(r.setup) && r.tree == Children(r.setup.parents)
    ensures SinglesOK(r.setup, |r.setup.definitions|, r.indexes, r.positions) && ParentsOK(r.setup.parents)
    ensures CompositesOK(r.setup, |r.setup.definitions|, r.indexes, r.composites, r.caches)
    ensures |r.clean| == |r.isUsed| == |r.setup.parents| == |AllHeld(r.indexes)|
    ensures UsedOK(r.setup, AllHeld(r.indexes), r.isUsed, r.usedIndexes)
    ensures IdleCachesEmpty(r.setup, r.isUsed, r.clean, r.composites, r.caches)
  {
  }

  /** A valid repository is intact. */
  lemma ValidIsIntact(r: IndexRepository)
    requires r.Valid()
    ensures r.Intact()
  {
    var s, c := r.setup, AllHeld(r.indexes);
    hide Sorted, SinglesOK, Subtypes, IsClean, ContentsOK, CleanSorted, HoldsAdded;
    forall t, id | 0 <= t < |r.composites| && id in r.composites[t]
      ensures IdleCacheEmpty(s, r.isUsed, r.clean, r.composites[t][id])
    {
      var x := r.composites[t][id];
      assert CompositeOK(s, r.indexes, t, id, x) && CacheFresh(s, c, t, id, r.clean, x);
      if IsClean(s.parents, r.clean, x) && forall u :: u in Subtypes(s.parents, t) ==> u < |r.isUsed| && !r.isUsed[u] {
        IdleParts(s, c, r.isUsed, r.usedIndexes, t, id);
        EmptySizes(Parts(s, c, t, id));
      }
    }
  }

  lemma IdleParts(s: Setup, c: Contents, isUsed: seq<bool>, usedIndexes: seq<nat>, t: nat, id: nat)
    requires SetupOK(s) && ContentsOK(s, c) && IsType(s.parents, t) && Covers(s, id, t)
    requires UsedOK(s, c, isUsed, usedIndexes)
    requires forall u :: u in Subtypes(s.parents, t) ==> u < |isUsed| && !isUsed[u]
    ensures forall k :: 0 <= k < |Parts(s, c, t, id)| ==> Parts(s, c, t, id)[k] == []
  {
    forall k | 0 <= k < |Parts(s, c, t, id)| ensures Parts(s, c, t, id)[k] == [] {
      PartAt(s, c, t, id, k);
      PartPlaces(s, c, t, Subtypes(s.parents, t)[k], id);
      assert Subtypes(s.parents, t)[k] in Subtypes(s.parents, t);
    }
  }

  lemma TypeReady(r: IndexRepository, id: nat, t: nat)
    requires r.Sound() && IsType(r.setup.parents, t) && Covers(r.setup, id, t)
    ensures t < |r.tree| == |r.indexes| == |r.positions| == |r.composites| && SetupOK(r.setup)
    ensures ContentsOK(r.setup, AllHeld(r.indexes))
    ensures 0 <= id < |r.setup.definitions|
    ensures r.tree[t] == [] ==>
              && id in r.positions[t] && r.positions[t][id] < |r.indexes[t]|
              && var index := r.indexes[t][r.positions[t][id]];
                 index.Valid(r.setup.definitions[id].order)
                 && index.structures == PartOf(r.setup, AllHeld(r.indexes), t, t, id)
    ensures r.tree[t] != [] ==>
              id in r.composites[t] && r.composites[t][id].tyType == t && r.composites[t][id] in r.caches
  {
    hide Sorted, RowObjects, ContentsOK, CleanSorted, PartOK;
    SingleReady(r, id, t);
    if r.tree[t] == [] {
      PartPlaces(r.setup, AllHeld(r.indexes), t, t, id);
      assert AllHeld(r.indexes)[t] == Held(r.indexes[t]);
    } else {
      assert CompositeOK(r.setup, r.indexes, t, id, r.composites[t][id]);
    }
  }

  lemma LeafYields(r: IndexRepository, id: nat, t: nat)
    requires r.Valid() && IsType(r.setup.parents, t) && Covers(r.setup, id, t) && r.tree[t] == []
    ensures multiset(PartOf(r.setup, AllHeld(r.indexes), t, t, id)) == Under(r.setup, r.added, t)
  {
    UnderLeaf(r.setup, r.added, t);
  }

  lemma CacheReady(r: IndexRepository, id: nat, t: nat, x: OrderedCompositeIndex)
    requires r.Sound() && t < |r.composites| && id in r.composites[t] && x == r.composites[t][id]
    requires IsType(r.setup.parents, x.tyType) && IsClean(r.setup.parents, r.clean, x)
    ensures OrderOK(r.setup.definitions[id].order) && Sorted(r.setup.definitions[id].order, x.cache)
  {
    assert CompositeOK(r.setup, r.indexes, t, id, x);
    assert CacheSorted(r.setup, r.clean, x);
  }

  lemma CacheYields(r: IndexRepository, id: nat, t: nat, x: OrderedCompositeIndex)
    requires r.Valid() && t < |r.composites| && id in r.composites[t] && x == r.composites[t][id]
    requires IsType(r.setup.parents, t) && Covers(r.setup, id, t) && x.tyType == t
    requires || IsClean(r.setup.parents, r.clean, x)
             || IsSortedMerge(r.setup.definitions[id].order, Parts(r.setup, AllHeld(r.indexes), t, id), x.cache)
    ensures multiset(x.cache) == Under(r.setup, r.added, t)
  {
    hide IsSortedMerge;
    var c := AllHeld(r.indexes);
    assert CacheFresh(r.setup, c, t, id, r.clean, x);
    MergeKeepsElements(r.setup.definitions[id].order, Parts(r.setup, c, t, id), x.cache);
    PartsHoldAdded(r.setup, c, r.added, t, id);
  }

  // Every cache but x is right if it is clean.
  ghost predicate OthersFresh(s: Setup, c: Contents, composites: seq<map<nat, OrderedCompositeIndex>>,
                              others: set<OrderedCompositeIndex>, clean: seq<set<OrderedCompositeIndex>>,
                              x: OrderedCompositeIndex)
    requires SetupOK(s) && ContentsOK(s, c)
    reads others`cache
  {
    forall t, id :: 0 <= t < |composites| && id in composites[t] && composites[t][id] != x ==>
      composites[t][id] in others && CacheFresh(s, c, t, id, clean, composites[t][id])
  }

  lemma OthersAreFresh(s: Setup, c: Contents, composites: seq<map<nat, OrderedCompositeIndex>>,
                       caches: set<OrderedCompositeIndex>, clean: seq<set<OrderedCompositeIndex>>,
                       x: OrderedCompositeIndex)
    requires SetupOK(s) && ContentsOK(s, c) && CachesFresh(s, c, composites, caches, clean)
    ensures OthersFresh(s, c, composites, caches - {x}, clean, x)
  {
    hide CacheFresh;
  }

  lemma SoundParts(r: IndexRepository)
    requires r.Sound()
    ensures ParentsOK(r.setup.parents) && r.Placed()
    ensures Objects(r.indexes) <= r.singles && SetupOK(r.setup) && r.tree == Children(r.setup.parents)
    ensures SinglesOK(r.setup, |r.setup.definitions|, r.indexes, r.positions)
    ensures CompositesOK(r.setup, |r.setup.definitions|, r.indexes, r.composites, r.caches)
    ensures ContentsOK(r.setup, AllHeld(r.indexes))
    ensures |r.clean| == |r.isUsed| == |r.setup.parents|
    ensures CleanSorted(r.setup, r.clean, r.composites, r.caches)
  {
  }

  // Every cache but x is in order if it is clean.
  ghost predicate OthersSorted(s: Setup, clean: seq<set<OrderedCompositeIndex>>,
                               composites: seq<map<nat, OrderedCompositeIndex>>,
                               others: set<OrderedCompositeIndex>, x: OrderedCompositeIndex)
    requires ParentsOK(s.parents)
    reads others`cache
  {
    forall t, id :: 0 <= t < |composites| && id in composites[t] && composites[t][id] != x ==>
      composites[t][id] in others && CacheSorted(s, clean, composites[t][id])
  }

  lemma OthersAreSorted(s: Setup, clean: seq<set<OrderedCompositeIndex>>,
                        composites: seq<map<nat, OrderedCompositeIndex>>,
                        caches: set<OrderedCompositeIndex>, x: OrderedCompositeIndex)
    requires ParentsOK(s.parents) && CleanSorted(s, clean, composites, caches)
    ensures OthersSorted(s, clean, composites, caches - {x}, x)
  {
    hide CacheSorted;
  }

  // Emptying clean sets keeps the caches that are still clean in order.
  lemma FewerClean(s: Setup, clean: seq<set<OrderedCompositeIndex>>, clean': seq<set<OrderedCompositeIndex>>,
                   composites: seq<map<nat, OrderedCompositeIndex>>, caches: set<OrderedCompositeIndex>)
    requires ParentsOK(s.parents) && CleanSorted(s, clean, composites, caches)
    requires |clean'| == |clean| && forall u :: 0 <= u < |clean| ==> clean'[u] <= clean[u]
    ensures CleanSorted(s, clean', composites, caches)
  {
    hide Sorted;
    forall t, id | 0 <= t < |composites| && id in composites[t]
      ensures composites[t][id] in caches && CacheSorted(s, clean', composites[t][id])
    {
      assert CacheSorted(s, clean, composites[t][id]);
    }
  }

  lemma SoundFrom(r: IndexRepository)
    requires Objects(r.indexes) <= r.singles && SetupOK(r.setup) && r.tree == Children(r.setup.parents)
    requires SinglesOK(r.setup, |r.setup.definitions|, r.indexes, r.positions)
    requires CompositesOK(r.setup, |r.setup.definitions|, r.indexes, r.composites, r.caches)
    requires ContentsOK(r.setup, AllHeld(r.indexes))
    requires |r.clean| == |r.isUsed| == |r.setup.parents|
    requires CleanSorted(r.setup, r.clean, r.composites, r.caches)
    ensures r.Sound()
  {
  }

  // The single index of the type for index id.
  lemma SingleReady(r: IndexRepository, id: nat, t: nat)
    requires r.Sound() && IsType(r.setup.parents, t) && Covers(r.setup, id, t)
    ensures t < |r.indexes| == |r.positions| && id in r.positions[t] && r.positions[t][id] < |r.indexes[t]|
    ensures r.positions[t][id] == Place(r.setup, t, id) && r.indexes[t][r.positions[t][id]] in r.indexes[t]
    ensures 0 <= id < |r.setup.definitions| && r.indexes[t][r.positions[t][id]].Valid(r.setup.definitions[id].order)
    ensures ContentsOK(r.setup, AllHeld(r.indexes)) && |Slots(r.setup, |r.setup.definitions|, t)| == |r.indexes[t]|
    ensures Slots(r.setup, |r.setup.definitions|, t)[r.positions[t][id]] == id
  {
    var row, n := r.indexes[t], |r.setup.definitions|;
    assert RowObjects(r.setup, n, t, row, r.positions[t]);
    SlotOfIndex(r.setup, n, t, id);
    assert ObjectOK(r.setup, t, Slots(r.setup, n, t)[Place(r.setup, t, id)], row[Place(r.setup, t, id)]);
    hide Sorted, SinglesOK, CompositesOK, ContentsOK, CleanSorted, SetupOK;
    SingleIsValid(r, t, row[Place(r.setup, t, id)]);
  }

  // Every index of the type lost what remove takes out.
  ghost predicate RowRemoved(s: Setup, t: nat, row: seq<seq<nat>>, fs: nat, row': seq<seq<nat>>)
    requires ParentsOK(s.parents)
  {
    var slots := Slots(s, |s.definitions|, t);
    |row| == |row'| == |slots| && forall i :: 0 <= i < |row| ==> SlotRemoved(s, slots, row, fs, row', i)
  }

  ghost predicate SlotRemoved(s: Setup, slots: seq<nat>, row: seq<seq<nat>>, fs: nat, row': seq<seq<nat>>, i: int)
    requires |row| == |row'| == |slots| && 0 <= i < |row|
  {
    slots[i] < |s.definitions| && IsRemoval(s.definitions[slots[i]].order, row[i], fs, row'[i])
  }

  lemma RemovedInRow(s: Setup, t: nat, row: seq<OrderedSingleIndex>, place: map<nat, nat>, before: seq<seq<nat>>,
                     fs: nat)
    requires SetupOK(s) && RowObjects(s, |s.definitions|, t, row, place)
    requires |before| == |row|
    requires forall i :: 0 <= i < |row| ==> IsRemoval(Order(row[i].keys, s.heap), before[i], fs, row[i].structures)
    ensures RowRemoved(s, t, before, fs, Held(row))
  {
    hide IsRemoval;
    var slots := Slots(s, |s.definitions|, t);
    forall i | 0 <= i < |row| ensures SlotRemoved(s, slots, before, fs, Held(row), i) {
      assert ObjectOK(s, t, slots[i], row[i]);
    }
  }

  lemma RemovalKeepsPart(s: Setup, t: nat, o: Order, part: seq<nat>, fs: nat, part': seq<nat>)
    requires PartOK(s, t, o, part) && IsRemoval(o, part, fs, part')
    ensures PartOK(s, t, o, part')
  {
    hide Sorted;
    RemovalTakesLowerBound(o, part, fs, part');
    var k :| RemovedAt(o, part, fs, part', k);
    assert forall x :: x in part' ==> x in part;
  }

  lemma ContentsAfterRemove(s: Setup, c: Contents, t: nat, fs: nat, row': seq<seq<nat>>)
    requires SetupOK(s) && ContentsOK(s, c) && IsType(s.parents, t) && RowRemoved(s, t, c[t], fs, row')
    ensures ContentsOK(s, c[t := row'])
  {
    hide PartOK, IsRemoval;
    var slots := Slots(s, |s.definitions|, t);
    assert RowOK(s, t, c[t]);
    forall i | 0 <= i < |row'| ensures SlotOK(s, t, slots, row', i) {
      assert SlotRemoved(s, slots, c[t], fs, row', i) && SlotOK(s, t, slots, c[t], i);
      RemovalKeepsPart(s, t, s.definitions[slots[i]].order, c[t][i], fs, row'[i]);
    }
    forall u | IsType(s.parents, u) ensures RowOK(s, u, c[t := row'][u]) {
      assert RowOK(s, u, c[u]);
    }
  }

  // One part of a row is replaced by another one that fits.
  lemma ContentsWithPart(s: Setup, c: Contents, t: nat, p: nat, part: seq<nat>)
    requires SetupOK(s) && ContentsOK(s, c) && IsType(s.parents, t) && p < |c[t]|
    requires |Slots(s, |s.definitions|, t)| == |c[t]| && Slots(s, |s.definitions|, t)[p] < |s.definitions|
    requires PartOK(s, t, s.definitions[Slots(s, |s.definitions|, t)[p]].order, part)
    ensures ContentsOK(s, c[t := c[t][p := part]])
  {
    hide PartOK;
    var slots, row' := Slots(s, |s.definitions|, t), c[t][p := part];
    assert RowOK(s, t, c[t]);
    forall i | 0 <= i < |row'| ensures SlotOK(s, t, slots, row', i) {
      assert SlotOK(s, t, slots, c[t], i);
    }
    forall u | IsType(s.parents, u) ensures RowOK(s, u, c[t := row'][u]) {
      assert RowOK(s, u, c[u]);
    }
  }

  lemma ContentsAfterRemoval(s: Setup, c: Contents, t: nat, p: nat, fs: nat, part: seq<nat>)
    requires SetupOK(s) && ContentsOK(s, c) && IsType(s.parents, t) && p < |c[t]|
    requires |Slots(s, |s.definitions|, t)| == |c[t]| && Slots(s, |s.definitions|, t)[p] < |s.definitions|
    requires IsRemoval(s.definitions[Slots(s, |s.definitions|, t)[p]].order, c[t][p], fs, part)
    ensures ContentsOK(s, c[t := c[t][p := part]])
  {
    hide PartOK, IsRemoval;
    assert RowOK(s, t, c[t]);
    assert SlotOK(s, t, Slots(s, |s.definitions|, t), c[t], p);
    RemovalKeepsPart(s, t, s.definitions[Slots(s, |s.definitions|, t)[p]].order, c[t][p], fs, part);
    ContentsWithPart(s, c, t, p, part);
  }

  lemma ContentsAfterInsertion(s: Setup, c: Contents, t: nat, p: nat, fs: nat, part: seq<nat>)
    requires SetupOK(s) && ContentsOK(s, c) && IsType(s.parents, t) && p < |c[t]| && fs != 0 && s.heap.TypeOf(fs) == t
    requires |Slots(s, |s.definitions|, t)| == |c[t]| && Slots(s, |s.definitions|, t)[p] < |s.definitions|
    requires IsInsertion(s.definitions[Slots(s, |s.definitions|, t)[p]].order, c[t][p], fs, part)
    ensures ContentsOK(s, c[t := c[t][p := part]])
  {
    hide Sorted, IsInsertion;
    assert RowOK(s, t, c[t]);
    assert SlotOK(s, t, Slots(s, |s.definitions|, t), c[t], p);
    InsertionKeepsOrder(s.definitions[Slots(s, |s.definitions|, t)[p]].order, c[t][p], fs, part);
    assert forall x :: x in part ==> x in multiset(part);
    ContentsWithPart(s, c, t, p, part);
  }

  lemma SoundAgain(r: IndexRepository, clean: seq<set<OrderedCompositeIndex>>, t: nat, id: nat,
                   x: OrderedCompositeIndex)
    requires Objects(r.indexes) <= r.singles && SetupOK(r.setup) && r.tree == Children(r.setup.parents)
    requires SinglesOK(r.setup, |r.setup.definitions|, r.indexes, r.positions)
    requires CompositesOK(r.setup, |r.setup.definitions|, r.indexes, r.composites, r.caches)
    requires ContentsOK(r.setup, AllHeld(r.indexes))
    requires ParentsOK(r.setup.parents)
    requires |clean| == |r.clean| == |r.isUsed| == |r.setup.parents|
    requires OthersSorted(r.setup, clean, r.composites, r.caches - {x}, x)
    requires IsType(r.setup.parents, t) && x.tyType == t && MarkedClean(r.setup.parents, clean, r.clean, x)
    requires x in r.caches
    requires Covers(r.setup, id, t) && Order(x.keys, r.setup.heap) == r.setup.definitions[id].order
    requires IsSortedMerge(r.setup.definitions[id].order, Parts(r.setup, AllHeld(r.indexes), t, id), x.cache)
    ensures r.Sound() && CleanSorted(r.setup, r.clean, r.composites, r.caches)
  {
    hide CompositesOK, SinglesOK, ContentsOK, SetupOK, MarkedClean, IsClean;
    forall u, i | 0 <= u < |r.composites| && i in r.composites[u]
      ensures r.composites[u][i] in r.caches && CacheSorted(r.setup, r.clean, r.composites[u][i])
    {
      var y := r.composites[u][i];
      if y != x {
        assert CacheSorted(r.setup, clean, y);
        if IsType(r.setup.parents, y.tyType) {
          StillClean(r.setup.parents, clean, r.clean, x, y);
        }
      }
    }
  }

  lemma CompositeReady(r: IndexRepository, t: nat, id: nat, x: OrderedCompositeIndex)
    requires r.Sound() && t < |r.composites| && id in r.composites[t] && x == r.composites[t][id]
    ensures SetupOK(r.setup) && r.tree == Children(r.setup.parents) && |r.clean| == |r.setup.parents| == |r.indexes|
    ensures ContentsOK(r.setup, AllHeld(r.indexes)) && IsType(r.setup.parents, t) && Covers(r.setup, id, t)
    ensures x.tyType == t && Order(x.keys, r.setup.heap) == r.setup.definitions[id].order && x in r.caches
    ensures x.Parts() == Parts(r.setup, AllHeld(r.indexes), t, id)
    ensures PartsOK(r.setup.definitions[id].order, x.Parts()) && r.setup.definitions[id].order.keys == x.keys
    ensures forall c :: c in x.components ==> c.keys == x.keys
  {
    assert CompositeOK(r.setup, r.indexes, t, id, x);
    CompositeParts(r.setup, r.indexes, r.positions, t, id, x);
    PartsAreOK(r.setup, AllHeld(r.indexes), t, id);
  }

  /** Filling one cache and marking it clean leaves all clean caches right. */
  lemma FilledIsFresh(s: Setup, c: Contents, indexes: seq<seq<OrderedSingleIndex>>,
                      composites: seq<map<nat, OrderedCompositeIndex>>, caches: set<OrderedCompositeIndex>,
                      clean: seq<set<OrderedCompositeIndex>>, clean': seq<set<OrderedCompositeIndex>>,
                      t: nat, id: nat, x: OrderedCompositeIndex)
    requires SetupOK(s) && ContentsOK(s, c) && CompositesOK(s, |s.definitions|, indexes, composites, caches)
    requires OthersFresh(s, c, composites, caches - {x}, clean, x)
    requires t < |composites| && id in composites[t] && composites[t][id] == x && IsType(s.parents, x.tyType)
    requires MarkedClean(s.parents, clean, clean', x)
    requires Covers(s, id, t) && IsSortedMerge(s.definitions[id].order, Parts(s, c, t, id), x.cache)
    ensures CachesFresh(s, c, composites, caches, clean')
  {
    hide IsSortedMerge, ContentsOK;
    forall v, j | 0 <= v < |composites| && j in composites[v]
      ensures composites[v][j] in caches && CacheFresh(s, c, v, j, clean', composites[v][j])
    {
      FilledCacheIsFresh(s, c, indexes, composites, caches, clean, clean', t, id, x, v, j);
    }
  }

  lemma FilledCacheIsFresh(s: Setup, c: Contents, indexes: seq<seq<OrderedSingleIndex>>,
                           composites: seq<map<nat, OrderedCompositeIndex>>, caches: set<OrderedCompositeIndex>,
                           clean: seq<set<OrderedCompositeIndex>>, clean': seq<set<OrderedCompositeIndex>>,
                           t: nat, id: nat, x: OrderedCompositeIndex, v: nat, j: nat)
    requires SetupOK(s) && ContentsOK(s, c) && CompositesOK(s, |s.definitions|, indexes, composites, caches)
    requires OthersFresh(s, c, composites, caches - {x}, clean, x)
    requires t < |composites| && id in composites[t] && composites[t][id] == x && IsType(s.parents, x.tyType)
    requires MarkedClean(s.parents, clean, clean', x)
    requires Covers(s, id, t) && IsSortedMerge(s.definitions[id].order, Parts(s, c, t, id), x.cache)
    requires v < |composites| && j in composites[v]
    ensures composites[v][j] in caches && CacheFresh(s, c, v, j, clean', composites[v][j])
  {
    var y := composites[v][j];
    assert CompositeOK(s, indexes, v, j, y) && CompositeOK(s, indexes, t, id, x);
    hide CompositeOK, CompositesOK, IsSortedMerge, ContentsOK, IsClean, MarkedClean, Covers;
    if y != x {
      assert CacheFresh(s, c, v, j, clean, y);
      StillClean(s.parents, clean, clean', x, y);
    } else {
      SameComposite(s, indexes, composites, caches, t, id, v, j);
    }
  }

  lemma SameComposite(s: Setup, indexes: seq<seq<OrderedSingleIndex>>, composites: seq<map<nat, OrderedCompositeIndex>>,
                      caches: set<OrderedCompositeIndex>, t: nat, id: nat, v: nat, j: nat)
    requires SetupOK(s) && CompositesOK(s, |s.definitions|, indexes, composites, caches)
    requires t < |composites| && id in composites[t] && v < |composites| && j in composites[v]
    requires composites[t][id] == composites[v][j]
    ensures t == v && id == j
  {
    assert CompositeOK(s, indexes, v, j, composites[v][j]) && CompositeOK(s, indexes, t, id, composites[t][id]);
  }

  lemma StillClean(parents: seq<nat>, clean: seq<set<OrderedCompositeIndex>>, clean': seq<set<OrderedCompositeIndex>>,
                   x: OrderedCompositeIndex, y: OrderedCompositeIndex)
    requires ParentsOK(parents) && IsType(parents, x.tyType) && IsType(parents, y.tyType)
    requires MarkedClean(parents, clean, clean', x) && y != x
    ensures IsClean(parents, clean', y) <==> IsClean(parents, clean, y)
  {
  }

  // The parts of Valid().
  lemma Disassemble(r: IndexRepository)
    requires r.Valid()
    ensures Objects(r.indexes) <= r.singles && SetupOK(r.setup) && r.tree == Children(r.setup.parents)
    ensures SinglesOK(r.setup, |r.setup.definitions|, r.indexes, r.positions)
    ensures CompositesOK(r.setup, |r.setup.definitions|, r.indexes, r.composites, r.caches)
    ensures ContentsOK(r.setup, AllHeld(r.indexes))
    ensures r.Sound() && CleanSorted(r.setup, r.clean, r.composites, r.caches)
    ensures |r.clean| == |r.isUsed| == |r.setup.parents| == |r.indexes| == |r.positions|
    ensures UsedOK(r.setup, AllHeld(r.indexes), r.isUsed, r.usedIndexes)
    ensures HoldsAdded(r.setup, AllHeld(r.indexes), r.added)
    ensures CachesFresh(r.setup, AllHeld(r.indexes), r.composites, r.caches, r.clean)
    ensures r.undefinedIndex == Uncovered(r.setup, r.added)
  {
  }

  lemma PlacedParts(r: IndexRepository)
    requires r.Placed()
    ensures Objects(r.indexes) <= r.singles && SetupOK(r.setup) && r.tree == Children(r.setup.parents)
    ensures SinglesOK(r.setup, |r.setup.definitions|, r.indexes, r.positions)
    ensures CompositesOK(r.setup, |r.setup.definitions|, r.indexes, r.composites, r.caches)
    ensures |r.clean| == |r.isUsed| == |r.setup.parents|
  {
  }

  lemma PlacedFrom(r: IndexRepository)
    requires Objects(r.indexes) <= r.singles && SetupOK(r.setup) && r.tree == Children(r.setup.parents)
    requires SinglesOK(r.setup, |r.setup.definitions|, r.indexes, r.positions)
    requires CompositesOK(r.setup, |r.setup.definitions|, r.indexes, r.composites, r.caches)
    requires |r.clean| == |r.isUsed| == |r.setup.parents|
    ensures r.Placed()
  {
  }

  lemma Assemble(r: IndexRepository)
    requires Objects(r.indexes) <= r.singles && SetupOK(r.setup) && r.tree == Children(r.setup.parents)
    requires SinglesOK(r.setup, |r.setup.definitions|, r.indexes, r.positions)
    requires CompositesOK(r.setup, |r.setup.definitions|, r.indexes, r.composites, r.caches)
    requires ContentsOK(r.setup, AllHeld(r.indexes))
    requires |r.clean| == |r.isUsed| == |r.setup.parents|
    requires CleanSorted(r.setup, r.clean, r.composites, r.caches)
    requires UsedOK(r.setup, AllHeld(r.indexes), r.isUsed, r.usedIndexes)
    requires HoldsAdded(r.setup, AllHeld(r.indexes), r.added)
    requires CachesFresh(r.setup, AllHeld(r.indexes), r.composites, r.caches, r.clean)
    requires r.undefinedIndex == Uncovered(r.setup, r.added)
    ensures r.Valid()
  {
  }

  // The single indexes of a type are valid objects of their own.
  lemma ReadyForType(r: IndexRepository, t: nat)
    requires r.Sound() && IsType(r.setup.parents, t)
    ensures t < |r.indexes| == |r.positions| == |r.clean| == |r.isUsed|
    ensures AllDifferent(r.indexes[t]) && (forall x :: x in r.indexes[t] ==> SingleOK(r.setup.heap, x))
    ensures forall u, i :: 0 <= u < |r.indexes| && u != t && 0 <= i < |r.indexes[u]| ==>
              r.indexes[u][i] !in r.indexes[t]
    ensures RowObjects(r.setup, |r.setup.definitions|, t, r.indexes[t], r.positions[t])
    ensures AllHeld(r.indexes)[t] == Held(r.indexes[t])
  {
    forall u, i | 0 <= u < |r.indexes| && u != t && 0 <= i < |r.indexes[u]| ensures r.indexes[u][i] !in r.indexes[t] {
      assert u != 0 ==> RowObjects(r.setup, |r.setup.definitions|, u, r.indexes[u], r.positions[u]);
    }
    forall x | x in r.indexes[t] ensures SingleOK(r.setup.heap, x) {
      SingleIsValid(r, t, x);
    }
  }

  lemma SingleIsValid(r: IndexRepository, t: nat, x: OrderedSingleIndex)
    requires r.Sound() && IsType(r.setup.parents, t) && x in r.indexes[t]
    ensures SingleOK(r.setup.heap, x)
  {
    var s, n := r.setup, |r.setup.definitions|;
    var i :| 0 <= i < |r.indexes[t]| && r.indexes[t][i] == x;
    var c := AllHeld(r.indexes);
    assert RowOK(s, t, c[t]);
    assert SlotOK(s, t, Slots(s, n, t), c[t], i);
    IndexOfSlot(s, n, t, i);
    assert RowObjects(s, n, t, r.indexes[t], r.positions[t]);
    assert ObjectOK(s, t, Slots(s, n, t)[i], x);
    assert s.definitions[Slots(s, n, t)[i]] in s.definitions;
  }

  lemma UncoveredAppend(s: Setup, added: seq<nat>, fs: nat)
    requires ParentsOK(s.parents)
    ensures Uncovered(s, added + [fs])
         == Uncovered(s, added) + if Slots(s, |s.definitions|, s.heap.TypeOf(fs)) == [] then [fs] else []
  {
    assert (added + [fs])[..|added|] == added;
  }

  lemma AddedNowhere(s: Setup, c: Contents,
      composites: seq<map<nat, OrderedCompositeIndex>>, caches: set<OrderedCompositeIndex>,
                     clean: seq<set<OrderedCompositeIndex>>, added: seq<nat>, fs: nat)
    requires SetupOK(s) && ContentsOK(s, c) && HoldsAdded(s, c, added) && CachesFresh(s, c, composites, caches, clean)
    requires fs != 0 && IsType(s.parents, s.heap.TypeOf(fs)) && |clean| == |s.parents|
    requires Slots(s, |s.definitions|, s.heap.TypeOf(fs)) == []
    ensures HoldsAdded(s, c, added + [fs]) && CachesFresh(s, c, composites, caches, clean[s.heap.TypeOf(fs) := {}])
    ensures Uncovered(s, added + [fs]) == Uncovered(s, added) + [fs]
  {
    hide CachesFresh;
    var t := s.heap.TypeOf(fs);
    NoRow(s, c, t);
    assert c[t := []] == c;
    ContentsAfterAdd(s, c, added, fs, []);
    CachesAfterChange(s, c, c, composites, caches, clean, clean[t := {}]);
    UncoveredAppend(s, added, fs);
  }

  lemma NothingInserted(s: Setup, c: Contents, t: nat, fs: nat)
    requires SetupOK(s) && ContentsOK(s, c) && IsType(s.parents, t) && Slots(s, |s.definitions|, t) == []
    ensures RowInserted(s, t, c[t], fs, c[t])
  {
    NoRow(s, c, t);
  }

  lemma NoRow(s: Setup, c: Contents, t: nat)
    requires SetupOK(s) && ContentsOK(s, c) && IsType(s.parents, t) && Slots(s, |s.definitions|, t) == []
    ensures c[t] == []
  {
    assert RowOK(s, t, c[t]);
  }

  // isUsed and usedIndexes with t marked.
  ghost predicate Marked(t: nat, isUsed: seq<bool>, usedIndexes: seq<nat>, isUsed': seq<bool>, usedIndexes': seq<nat>)
    requires t < |isUsed|
  {
    if isUsed[t] then isUsed' == isUsed && usedIndexes' == usedIndexes
    else isUsed' == isUsed[t := true] && usedIndexes' == usedIndexes + [t]
  }

  lemma MarkedNow(t: nat, isUsed: seq<bool>, usedIndexes: seq<nat>, isUsed': seq<bool>, usedIndexes': seq<nat>)
    requires t < |isUsed|
    requires isUsed[t] ==> isUsed' == isUsed && usedIndexes' == usedIndexes
    requires !isUsed[t] ==> isUsed' == isUsed[t := true] && usedIndexes' == usedIndexes + [t]
    ensures Marked(t, isUsed, usedIndexes, isUsed', usedIndexes')
  {
  }

  lemma NoSlots(s: Setup, t: nat, row: seq<OrderedSingleIndex>, place: map<nat, nat>)
    requires ParentsOK(s.parents) && RowObjects(s, |s.definitions|, t, row, place) && |row| == 0
    ensures Slots(s, |s.definitions|, t) == []
  {
  }

  lemma AddedSomewhere(s: Setup, c: Contents,
      composites: seq<map<nat, OrderedCompositeIndex>>, caches: set<OrderedCompositeIndex>,
                       clean: seq<set<OrderedCompositeIndex>>, isUsed: seq<bool>, usedIndexes: seq<nat>,
                       isUsed': seq<bool>, usedIndexes': seq<nat>, added: seq<nat>, fs: nat, row': seq<seq<nat>>)
    requires SetupOK(s) && ContentsOK(s, c) && HoldsAdded(s, c, added) && CachesFresh(s, c, composites, caches, clean)
    requires UsedOK(s, c, isUsed, usedIndexes)
    requires fs != 0 && IsType(s.parents, s.heap.TypeOf(fs)) && |clean| == |s.parents|
    requires Slots(s, |s.definitions|, s.heap.TypeOf(fs)) != [] || isUsed[s.heap.TypeOf(fs)]
    requires RowInserted(s, s.heap.TypeOf(fs), c[s.heap.TypeOf(fs)], fs, row')
    requires Marked(s.heap.TypeOf(fs), isUsed, usedIndexes, isUsed', usedIndexes')
    ensures var c' := c[s.heap.TypeOf(fs) := row'];
            && ContentsOK(s, c') && HoldsAdded(s, c', added + [fs]) && UsedOK(s, c', isUsed', usedIndexes')
            && CachesFresh(s, c', composites, caches, clean[s.heap.TypeOf(fs) := {}])
    ensures Uncovered(s, added + [fs]) == Uncovered(s, added)
  {
    hide ContentsOK, CachesFresh, RowInserted, HoldsAdded;
    var t := s.heap.TypeOf(fs);
    ContentsAfterAdd(s, c, added, fs, row');
    CachesAfterChange(s, c, c[t := row'], composites, caches, clean, clean[t := {}]);
    UncoveredAppend(s, added, fs);
  }

  lemma InsertedInRow(s: Setup, t: nat, row: seq<OrderedSingleIndex>, place: map<nat, nat>, before: seq<seq<nat>>,
                      fs: nat)
    requires SetupOK(s) && RowObjects(s, |s.definitions|, t, row, place)
    requires |before| == |row|
    requires forall i :: 0 <= i < |row| ==> IsInsertion(Order(row[i].keys, s.heap), before[i], fs, row[i].structures)
    ensures RowInserted(s, t, before, fs, Held(row))
  {
    hide IsInsertion;
    var slots := Slots(s, |s.definitions|, t);
    forall i | 0 <= i < |row| ensures SlotInserted(s, slots, before, fs, Held(row), i) {
      assert ObjectOK(s, t, slots[i], row[i]);
    }
  }

  // ------------------------------------------------------ building the indexes

  ghost predicate AllEmpty(singles: set<OrderedSingleIndex>)
    reads singles
  {
    forall x :: x in singles ==> x.structures == []
  }

  ghost predicate CachesEmpty(caches: set<OrderedCompositeIndex>)
    reads caches`cache
  {
    forall x :: x in caches ==> x.cache == []
  }

  // Everything exists for the first n indexes, and nothing is in it.
  ghost predicate Built(s: Setup, n: nat, indexes: seq<seq<OrderedSingleIndex>>, positions: seq<map<nat, nat>>,
                        composites: seq<map<nat, OrderedCompositeIndex>>,
                        singles: set<OrderedSingleIndex>, caches: set<OrderedCompositeIndex>)
    requires SetupOK(s)
    reads singles, caches
  {
    && SinglesOK(s, n, indexes, positions) && Objects(indexes) <= singles && AllEmpty(singles)
    && CompositesOK(s, n, indexes, composites, caches) && CachesEmpty(caches)
  }

  // Index n has its single indexes, but not yet its composite ones.
  ghost predicate SinglesBuilt(s: Setup, n: nat, indexes: seq<seq<OrderedSingleIndex>>, positions: seq<map<nat, nat>>,
                               composites: seq<map<nat, OrderedCompositeIndex>>,
                               singles: set<OrderedSingleIndex>, caches: set<OrderedCompositeIndex>)
    requires SetupOK(s)
    reads singles, caches
  {
    && SinglesOK(s, n + 1, indexes, positions) && Objects(indexes) <= singles && AllEmpty(singles)
    && CompositesOK(s, n, indexes, composites, caches) && CachesEmpty(caches)
  }

  // Index id has single indexes for the first i types.
  ghost predicate SinglesUpTo(s: Setup, id: nat, types: seq<nat>, i: nat,
                              indexes: seq<seq<OrderedSingleIndex>>, positions: seq<map<nat, nat>>)
    requires SetupOK(s)
  {
    && i <= |types| && |indexes| == |positions| == |s.parents| && indexes[0] == []
    && forall t :: IsType(s.parents, t) ==>
         RowObjects(s, if t in types[..i] then id + 1 else id, t, indexes[t], positions[t])
  }

  ghost predicate Grown(indexes: seq<seq<OrderedSingleIndex>>, indexes': seq<seq<OrderedSingleIndex>>) {
    |indexes| == |indexes'| && forall t :: 0 <= t < |indexes| ==> indexes[t] <= indexes'[t]
  }

  lemma DefinitionOK(s: Setup, id: nat)
    requires SetupOK(s) && id < |s.definitions|
    ensures IsType(s.parents, s.definitions[id].tyType) && OrderOK(s.definitions[id].order)
    ensures Order(s.definitions[id].order.keys, s.heap) == s.definitions[id].order
  {
    assert s.definitions[id] in s.definitions;
  }

  lemma NothingBuilt(s: Setup, indexes: seq<seq<OrderedSingleIndex>>, positions: seq<map<nat, nat>>,
                     composites: seq<map<nat, OrderedCompositeIndex>>,
                     singles: set<OrderedSingleIndex>, caches: set<OrderedCompositeIndex>)
    requires SetupOK(s) && |indexes| == |positions| == |composites| == |s.parents| && singles == {} && caches == {}
    requires forall t :: 0 <= t < |s.parents| ==> indexes[t] == [] && positions[t] == map[] && composites[t] == map[]
    ensures Built(s, 0, indexes, positions, composites, singles, caches)
  {
  }

  lemma SinglesBegin(s: Setup, id: nat, types: seq<nat>, indexes: seq<seq<OrderedSingleIndex>>,
                     positions: seq<map<nat, nat>>,
                     composites: seq<map<nat, OrderedCompositeIndex>>,
                     singles: set<OrderedSingleIndex>, caches: set<OrderedCompositeIndex>)
    requires SetupOK(s) && Built(s, id, indexes, positions, composites, singles, caches)
    ensures SinglesUpTo(s, id, types, 0, indexes, positions) && Grown(indexes, indexes)
    ensures AllEmpty(singles) && Objects(indexes) <= singles
    ensures CompositesOK(s, id, indexes, composites, caches) && CachesEmpty(caches)
  {
    hide RowObjects;
  }

  lemma TypeListed(s: Setup, id: nat, types: seq<nat>, i: nat, indexes: seq<seq<OrderedSingleIndex>>,
                   positions: seq<map<nat, nat>>)
    requires SetupOK(s) && id < |s.definitions| && i < |types| && IsType(s.parents, s.definitions[id].tyType)
    requires types == Subtypes(s.parents, s.definitions[id].tyType) && SinglesUpTo(s, id, types, i, indexes, positions)
    ensures IsType(s.parents, types[i]) && Covers(s, id, types[i]) && types[i] < |indexes| == |positions|
  {
    assert types[i] in types;
  }

  lemma RowGrows(s: Setup, id: nat, t: nat, row: seq<OrderedSingleIndex>, place: map<nat, nat>, ix: OrderedSingleIndex)
    requires ParentsOK(s.parents) && RowObjects(s, id, t, row, place) && Covers(s, id, t)
    requires ix !in row && ix.tyType == t && Order(ix.keys, s.heap) == s.definitions[id].order
    ensures RowObjects(s, id + 1, t, row + [ix], place[id := |row|])
  {
    assert ObjectOK(s, t, id, ix);
    hide Covers, ObjectOK;
    assert Slots(s, id + 1, t) == Slots(s, id, t) + [id];
    assert AllDifferent(row + [ix]);
  }

  lemma SingleAdded(s: Setup, id: nat, types: seq<nat>, i: nat, indexes0: seq<seq<OrderedSingleIndex>>,
                    indexes: seq<seq<OrderedSingleIndex>>, positions: seq<map<nat, nat>>,
                    singles: set<OrderedSingleIndex>, ix: OrderedSingleIndex)
    requires SetupOK(s) && i < |types| && Distinct(types) && SinglesUpTo(s, id, types, i, indexes, positions)
    requires IsType(s.parents, types[i]) && Covers(s, id, types[i]) && ix.tyType == types[i]
    requires Order(ix.keys, s.heap) == s.definitions[id].order
    requires Grown(indexes0, indexes) && AllEmpty(singles) && Objects(indexes) <= singles && ix !in singles
    requires ix.structures == []
    ensures var t := types[i];
            var indexes' := indexes[t := indexes[t] + [ix]];
            var positions' := positions[t := Put(positions[t], id, |indexes[t]|)];
            && SinglesUpTo(s, id, types, i + 1, indexes', positions') && Grown(indexes0, indexes')
            && AllEmpty(singles + {ix}) && Objects(indexes') <= singles + {ix}
  {
    hide RowObjects;
    var t := types[i];
    assert t !in types[..i];
    NewInRow(indexes, singles, t, ix);
    RowGrows(s, id, t, indexes[t], positions[t], ix);
    RowsUpTo(s, id, types, i, indexes, positions, indexes[t] + [ix], Put(positions[t], id, |indexes[t]|));
  }

  lemma NewInRow(indexes: seq<seq<OrderedSingleIndex>>, singles: set<OrderedSingleIndex>, t: nat,
                 ix: OrderedSingleIndex)
    requires t < |indexes| && Objects(indexes) <= singles && ix !in singles
    ensures ix !in indexes[t] && Objects(indexes[t := indexes[t] + [ix]]) <= singles + {ix}
  {
    var indexes' := indexes[t := indexes[t] + [ix]];
    forall j | 0 <= j < |indexes[t]| ensures indexes[t][j] in singles {
      assert indexes[t][j] in Objects(indexes);
    }
    forall o | o in Objects(indexes') ensures o in singles + {ix} {
      var u, j :| 0 <= u < |indexes'| && 0 <= j < |indexes'[u]| && indexes'[u][j] == o;
      assert j < |indexes[u]| ==> indexes[u][j] in Objects(indexes);
    }
  }

  lemma RowsUpTo(s: Setup, id: nat, types: seq<nat>, i: nat, indexes: seq<seq<OrderedSingleIndex>>,
                 positions: seq<map<nat, nat>>,
                 row: seq<OrderedSingleIndex>, place: map<nat, nat>)
    requires SetupOK(s) && i < |types| && Distinct(types) && SinglesUpTo(s, id, types, i, indexes, positions)
    requires IsType(s.parents, types[i]) && RowObjects(s, id + 1, types[i], row, place)
    ensures SinglesUpTo(s, id, types, i + 1, indexes[types[i] := row], positions[types[i] := place])
  {
    hide RowObjects;
    assert types[..i + 1] == types[..i] + [types[i]];
  }

  lemma RowUncovered(s: Setup, id: nat, t: nat, row: seq<OrderedSingleIndex>, place: map<nat, nat>)
    requires ParentsOK(s.parents) && RowObjects(s, id, t, row, place) && !Covers(s, id, t)
    ensures RowObjects(s, id + 1, t, row, place)
  {
  }

  lemma SinglesEnd(s: Setup, id: nat, types: seq<nat>, indexes0: seq<seq<OrderedSingleIndex>>,
                   indexes: seq<seq<OrderedSingleIndex>>, positions: seq<map<nat, nat>>,
                   composites: seq<map<nat, OrderedCompositeIndex>>,
                   singles: set<OrderedSingleIndex>, caches: set<OrderedCompositeIndex>)
    requires SetupOK(s) && id < |s.definitions| && IsType(s.parents, s.definitions[id].tyType)
    requires types == Subtypes(s.parents, s.definitions[id].tyType)
    requires SinglesUpTo(s, id, types, |types|, indexes, positions) && Grown(indexes0, indexes)
    requires AllEmpty(singles) && Objects(indexes) <= singles
    requires CompositesOK(s, id, indexes0, composites, caches) && CachesEmpty(caches)
    ensures SinglesBuilt(s, id, indexes, positions, composites, singles, caches)
  {
    hide RowObjects;
    assert types[..|types|] == types;
    forall t | IsType(s.parents, t) ensures RowObjects(s, id + 1, t, indexes[t], positions[t]) {
      if t !in types {
        RowUncovered(s, id, t, indexes[t], positions[t]);
      }
    }
    CompositesKept(s, id, indexes0, indexes, composites, caches);
  }

  // Components stay where they are when rows only grow.
  lemma CompositesKept(s: Setup, n: nat, indexes: seq<seq<OrderedSingleIndex>>, indexes': seq<seq<OrderedSingleIndex>>,
                       composites: seq<map<nat, OrderedCompositeIndex>>, caches: set<OrderedCompositeIndex>)
    requires SetupOK(s) && CompositesOK(s, n, indexes, composites, caches) && Grown(indexes, indexes')
    ensures CompositesOK(s, n, indexes', composites, caches)
  {
    forall t, id | 0 <= t < |composites| && id in composites[t]
      ensures CompositeOK(s, indexes', t, id, composites[t][id])
    {
      CompositeKept(s, indexes, indexes', t, id, composites[t][id]);
    }
  }

  lemma CompositeKept(s: Setup, indexes: seq<seq<OrderedSingleIndex>>, indexes': seq<seq<OrderedSingleIndex>>,
                      t: nat, id: nat, x: OrderedCompositeIndex)
    requires SetupOK(s) && CompositeOK(s, indexes, t, id, x) && Grown(indexes, indexes')
    ensures CompositeOK(s, indexes', t, id, x)
  {
    forall k | 0 <= k < |x.components|
      ensures IsComponent(s, indexes', Subtypes(s.parents, t)[k], id, x.components[k])
    {
      assert IsComponent(s, indexes, Subtypes(s.parents, t)[k], id, x.components[k]);
    }
  }

  // Index id has composite indexes for the first i types.
  ghost predicate CompositesUpTo(s: Setup, id: nat, types: seq<nat>, i: nat, indexes: seq<seq<OrderedSingleIndex>>,
                                 composites: seq<map<nat, OrderedCompositeIndex>>, caches: set<OrderedCompositeIndex>)
    requires SetupOK(s)
    reads caches`components
  {
    && i <= |types| && |composites| == |s.parents|
    && (forall t, j :: IsType(s.parents, t) && (j < id || (j == id && t in types[..i])) && Covers(s, j, t) ==>
          Children(s.parents)[t] == [] || j in composites[t])
    && (forall t, j :: 0 <= t < |composites| && j in composites[t] ==>
          && (j < id || (j == id && t in types[..i]))
          && composites[t][j] in caches && CompositeOK(s, indexes, t, j, composites[t][j]))
    && (forall t, j, k :: 0 <= t < |composites| && j in composites[t] && k in composites[t]
                          && composites[t][j] == composites[t][k] ==>
          j == k)
  }

  lemma CompositesBegin(s: Setup, id: nat, types: seq<nat>, indexes: seq<seq<OrderedSingleIndex>>,
                        positions: seq<map<nat, nat>>,
                        composites: seq<map<nat, OrderedCompositeIndex>>,
                        singles: set<OrderedSingleIndex>, caches: set<OrderedCompositeIndex>)
    requires SetupOK(s) && SinglesBuilt(s, id, indexes, positions, composites, singles, caches)
    ensures CompositesUpTo(s, id, types, 0, indexes, composites, caches) && CachesEmpty(caches)
    ensures SinglesOK(s, id + 1, indexes, positions) && Objects(indexes) <= singles && AllEmpty(singles)
  {
    hide CompositeOK, SinglesOK;
  }

  lemma CompositeListed(s: Setup, id: nat, types: seq<nat>, i: nat, composites: seq<map<nat, OrderedCompositeIndex>>,
                        indexes: seq<seq<OrderedSingleIndex>>, caches: set<OrderedCompositeIndex>)
    requires SetupOK(s) && id < |s.definitions| && i < |types| && IsType(s.parents, s.definitions[id].tyType)
    requires types == Subtypes(s.parents, s.definitions[id].tyType)
    requires CompositesUpTo(s, id, types, i, indexes, composites, caches)
    ensures IsType(s.parents, types[i]) && Covers(s, id, types[i]) && types[i] < |composites| == |Children(s.parents)|
  {
    assert types[i] in types;
  }

  lemma CompositeAdded(s: Setup, id: nat, types: seq<nat>, i: nat, indexes: seq<seq<OrderedSingleIndex>>,
                       composites: seq<map<nat, OrderedCompositeIndex>>, caches: set<OrderedCompositeIndex>,
                       x: OrderedCompositeIndex)
    requires SetupOK(s) && i < |types| && CompositesUpTo(s, id, types, i, indexes, composites, caches)
    requires CachesEmpty(caches)
    requires IsType(s.parents, types[i]) && types[i] < |composites|
    requires x !in caches && CompositeOK(s, indexes, types[i], id, x) && x.cache == []
    ensures var t := types[i];
            CompositesUpTo(s, id, types, i + 1, indexes, composites[t := Put(composites[t], id, x)], caches + {x})
    ensures CachesEmpty(caches + {x})
  {
    hide CompositeOK;
    assert types[..i + 1] == types[..i] + [types[i]];
  }

  lemma CompositeSkipped(s: Setup, id: nat, types: seq<nat>, i: nat, indexes: seq<seq<OrderedSingleIndex>>,
                         composites: seq<map<nat, OrderedCompositeIndex>>, caches: set<OrderedCompositeIndex>)
    requires SetupOK(s) && i < |types| && CompositesUpTo(s, id, types, i, indexes, composites, caches)
    requires IsType(s.parents, types[i]) && Children(s.parents)[types[i]] == []
    ensures CompositesUpTo(s, id, types, i + 1, indexes, composites, caches)
  {
    hide CompositeOK;
    assert types[..i + 1] == types[..i] + [types[i]];
  }

  lemma CompositesEnd(s: Setup, id: nat, types: seq<nat>, indexes: seq<seq<OrderedSingleIndex>>,
                      positions: seq<map<nat, nat>>,
                      composites: seq<map<nat, OrderedCompositeIndex>>,
                      singles: set<OrderedSingleIndex>, caches: set<OrderedCompositeIndex>)
    requires SetupOK(s) && id < |s.definitions| && IsType(s.parents, s.definitions[id].tyType)
    requires types == Subtypes(s.parents, s.definitions[id].tyType)
    requires CompositesUpTo(s, id, types, |types|, indexes, composites, caches) && CachesEmpty(caches)
    requires SinglesOK(s, id + 1, indexes, positions) && Objects(indexes) <= singles && AllEmpty(singles)
    ensures Built(s, id + 1, indexes, positions, composites, singles, caches)
  {
    hide CompositeOK, SinglesOK;
    assert types[..|types|] == types;
  }

  ghost predicate ComponentsUpTo(s: Setup, indexes: seq<seq<OrderedSingleIndex>>, id: nat, types: seq<nat>, j: nat,
                                 components: seq<OrderedSingleIndex>)
    requires SetupOK(s)
  {
    j == |components| <= |types| && forall k :: 0 <= k < j ==> IsComponent(s, indexes, types[k], id, components[k])
  }

  lemma ComponentListed(s: Setup, indexes: seq<seq<OrderedSingleIndex>>, positions: seq<map<nat, nat>>, id: nat, t: nat,
                        types: seq<nat>, j: nat)
    requires SetupOK(s) && SinglesOK(s, id + 1, indexes, positions) && IsType(s.parents, t) && Covers(s, id, t)
    requires types == Subtypes(s.parents, t) && j < |types|
    ensures types[j] < |indexes| == |positions| && id in positions[types[j]]
    ensures positions[types[j]][id] < |indexes[types[j]]|
    ensures IsComponent(s, indexes, types[j], id, indexes[types[j]][positions[types[j]][id]])
  {
    var u := types[j];
    assert u in types;
    SubsumesTransitive(s.parents, s.definitions[id].tyType, t, u);
    assert RowObjects(s, id + 1, u, indexes[u], positions[u]);
    SlotOfIndex(s, id + 1, u, id);
  }

  lemma NoComponents(s: Setup, indexes: seq<seq<OrderedSingleIndex>>, id: nat, types: seq<nat>)
    requires SetupOK(s)
    ensures ComponentsUpTo(s, indexes, id, types, 0, [])
  {
  }

  lemma ComponentAdded(s: Setup, indexes: seq<seq<OrderedSingleIndex>>, positions: seq<map<nat, nat>>, id: nat,
                       types: seq<nat>, j: nat, components: seq<OrderedSingleIndex>)
    requires SetupOK(s) && j < |types| && |components| == j + 1
    requires ComponentsUpTo(s, indexes, id, types, j, components[..j])
    requires IsComponent(s, indexes, types[j], id, components[j])
    ensures ComponentsUpTo(s, indexes, id, types, j + 1, components)
  {
  }

  lemma CompositeBuilt(s: Setup, indexes: seq<seq<OrderedSingleIndex>>, id: nat, t: nat, types: seq<nat>,
                       x: OrderedCompositeIndex)
    requires SetupOK(s) && IsType(s.parents, t) && Covers(s, id, t) && types == Subtypes(s.parents, t)
    requires ComponentsUpTo(s, indexes, id, types, |types|, x.components)
    requires x.tyType == t && Order(x.keys, s.heap) == s.definitions[id].order
    ensures CompositeOK(s, indexes, t, id, x)
  {
  }

  /** Once everything is built the repository is valid and empty. */
  lemma AllBuilt(r: IndexRepository)
    requires SetupOK(r.setup) && r.tree == Children(r.setup.parents)
    requires Built(r.setup, |r.setup.definitions|, r.indexes, r.positions, r.composites, r.singles, r.caches)
    requires |r.clean| == |r.isUsed| == |r.setup.parents|
    requires (forall t :: 0 <= t < |r.clean| ==> r.clean[t] == {} && !r.isUsed[t])
    requires r.usedIndexes == [] && r.undefinedIndex == [] && r.added == []
    ensures r.Valid()
  {
    var c := AllHeld(r.indexes);
    forall t, i | IsType(r.setup.parents, t) && t < |c| && 0 <= i < |c[t]| ensures c[t][i] == [] {
      assert r.indexes[t][i] in Objects(r.indexes);
    }
    forall t, id | 0 <= t < |r.composites| && id in r.composites[t] ensures r.composites[t][id].cache == [] {
      assert r.composites[t][id] in r.caches;
    }
    hide SinglesOK, CompositeOK, SetupOK;
    EmptyIsValid(r);
  }

  lemma EmptyRowOK(s: Setup, t: nat, row: seq<OrderedSingleIndex>, place: map<nat, nat>, held: seq<seq<nat>>)
    requires SetupOK(s) && RowObjects(s, |s.definitions|, t, row, place)
    requires |held| == |row| && forall i :: 0 <= i < |held| ==> held[i] == []
    ensures RowOK(s, t, held)
  {
    forall i | 0 <= i < |held| ensures SlotOK(s, t, Slots(s, |s.definitions|, t), held, i) {
      assert ObjectOK(s, t, Slots(s, |s.definitions|, t)[i], row[i]);
    }
  }

  // ------------------------------------------------------- another heap

  // The same indexes over another heap.
  function Rebased(s: Setup, h: HeapView): (r: Setup)
    ensures r.parents == s.parents && r.heap == h && |r.definitions| == |s.definitions|
    ensures forall d :: 0 <= d < |s.definitions| ==>
              r.definitions[d] == Definition(s.definitions[d].tyType, Order(s.definitions[d].order.keys, h))
  {
    Setup(s.parents, h, seq(|s.definitions|, d requires 0 <= d < |s.definitions| =>
                              Definition(s.definitions[d].tyType, Order(s.definitions[d].order.keys, h))))
  }

  // All keys of the structure read the same in the other heap.
  predicate SameUnder(o: Order, h: HeapView, fs: nat) {
    forall k :: k in o.keys ==> ValueOf(Order(o.keys, h), k, fs) == ValueOf(o, k, fs)
  }

  predicate SameStructure(s: Setup, h: HeapView, fs: nat) {
    && h.TypeOf(fs) == s.heap.TypeOf(fs)
    && forall d :: 0 <= d < |s.definitions| ==> SameUnder(s.definitions[d].order, h, fs)
  }

  ghost predicate InContents(c: Contents, fs: nat) {
    exists t, i :: 0 < t < |c| && 0 <= i < |c[t]| && fs in c[t][i]
  }

  ghost predicate InCleanCaches(s: Setup, clean: seq<set<OrderedCompositeIndex>>,
                                composites: seq<map<nat, OrderedCompositeIndex>>,
                                caches: set<OrderedCompositeIndex>, fs: nat)
    requires ParentsOK(s.parents)
    reads caches`cache
  {
    exists t, id :: 0 <= t < |composites| && id in composites[t] && composites[t][id] in caches
                    && InCleanCache(s, clean, composites[t][id], fs)
  }

  ghost predicate InCleanCache(s: Setup, clean: seq<set<OrderedCompositeIndex>>, x: OrderedCompositeIndex, fs: nat)
    requires ParentsOK(s.parents)
    reads x`cache
  {
    IsType(s.parents, x.tyType) && IsClean(s.parents, clean, x) && fs in x.cache
  }

  lemma {:induction false} SlotsRebased(s: Setup, h: HeapView, n: nat, t: nat)
    requires ParentsOK(s.parents)
    ensures Slots(Rebased(s, h), n, t) == Slots(s, n, t)
  {
    if n > 0 {
      SlotsRebased(s, h, n - 1, t);
    }
  }

  lemma PrecedesRebased(o: Order, h: HeapView, a: nat, b: nat)
    requires SameUnder(o, h, a) && SameUnder(o, h, b)
    ensures Precedes(Order(o.keys, h), a, b) <==> Precedes(o, a, b)
  {
    var o' := Order(o.keys, h);
    forall i ensures DecidedAt(o', a, b, i) <==> DecidedAt(o, a, b, i) {
      hide ValueLess;
      assert forall j :: 0 <= j < |o.keys| ==> o.keys[j] in o.keys;
    }
  }

  lemma SortedRebased(o: Order, h: HeapView, s: seq<nat>)
    requires Sorted(o, s) && forall fs :: fs in s ==> SameUnder(o, h, fs)
    ensures Sorted(Order(o.keys, h), s)
  {
    forall i, j | 0 <= i < j < |s| ensures !Precedes(Order(o.keys, h), s[j], s[i]) {
      PrecedesRebased(o, h, s[j], s[i]);
    }
  }

  // The objects fit the other heap.
  lemma PlacedRebased(r: IndexRepository, h: HeapView)
    requires Objects(r.indexes) <= r.singles && SetupOK(r.setup) && r.tree == Children(r.setup.parents)
    requires SinglesOK(r.setup, |r.setup.definitions|, r.indexes, r.positions) && SetupOK(Rebased(r.setup, h))
    requires CompositesOK(r.setup, |r.setup.definitions|, r.indexes, r.composites, r.caches)
    ensures var s := Rebased(r.setup, h);
            && s.parents == r.setup.parents && |s.definitions| == |r.setup.definitions|
            && SinglesOK(s, |s.definitions|, r.indexes, r.positions)
            && CompositesOK(s, |s.definitions|, r.indexes, r.composites, r.caches)
  {
    var s, s', n := r.setup, Rebased(r.setup, h), |r.setup.definitions|;
    forall t | IsType(s.parents, t) ensures RowObjects(s', n, t, r.indexes[t], r.positions[t]) {
      RowRebased(s, h, t, r.indexes[t], r.positions[t]);
    }
    hide SinglesOK, SetupOK;
    forall t, id | 0 <= t < |r.composites| && id in r.composites[t]
      ensures CompositeOK(s', r.indexes, t, id, r.composites[t][id])
    {
      CompositeRebased(s, h, r.indexes, t, id, r.composites[t][id]);
    }
  }

  lemma RowRebased(s: Setup, h: HeapView, t: nat, row: seq<OrderedSingleIndex>, place: map<nat, nat>)
    requires ParentsOK(s.parents) && RowObjects(s, |s.definitions|, t, row, place)
    ensures RowObjects(Rebased(s, h), |s.definitions|, t, row, place)
  {
    var slots := Slots(s, |s.definitions|, t);
    SlotsRebased(s, h, |s.definitions|, t);
    forall id | id in place ensures place[id] == Place(Rebased(s, h), t, id) {
      SlotsRebased(s, h, id, t);
    }
    forall i | 0 <= i < |row| ensures ObjectOK(Rebased(s, h), t, slots[i], row[i]) {
      assert ObjectOK(s, t, slots[i], row[i]);
    }
  }

  lemma CompositeRebased(s: Setup, h: HeapView, indexes: seq<seq<OrderedSingleIndex>>, t: nat, id: nat,
                         x: OrderedCompositeIndex)
    requires SetupOK(s) && SetupOK(Rebased(s, h)) && CompositeOK(s, indexes, t, id, x)
    ensures CompositeOK(Rebased(s, h), indexes, t, id, x)
  {
    hide Subtypes, Slots;
    forall k | 0 <= k < |x.components|
      ensures IsComponent(Rebased(s, h), indexes, Subtypes(s.parents, t)[k], id, x.components[k])
    {
      assert IsComponent(s, indexes, Subtypes(s.parents, t)[k], id, x.components[k]);
      SlotsRebased(s, h, id, Subtypes(s.parents, t)[k]);
    }
  }

  // What is held stands in the same order.
  lemma HeldUnchanged(r: IndexRepository, h: HeapView)
    requires r.Sound() && SetupOK(Rebased(r.setup, h)) && forall fs :: r.IsHeld(fs) ==> SameStructure(r.setup, h, fs)
    ensures ContentsOK(Rebased(r.setup, h), AllHeld(r.indexes))
    ensures CleanSorted(Rebased(r.setup, h), r.clean, r.composites, r.caches)
  {
    var s, s', c := r.setup, Rebased(r.setup, h), AllHeld(r.indexes);
    hide Sorted, SinglesOK, SameUnder, Subtypes, IsClean;
    forall t | IsType(s.parents, t) ensures RowOK(s', t, c[t]) {
      forall i, fs | 0 <= i < |c[t]| && fs in c[t][i] ensures SameStructure(s, h, fs) {
        assert InContents(c, fs) && r.IsHeld(fs);
      }
      RowStillOK(s, h, t, c[t]);
    }
    forall t, id | 0 <= t < |r.composites| && id in r.composites[t]
      ensures r.composites[t][id] in r.caches && CacheSorted(s', r.clean, r.composites[t][id])
    {
      var x := r.composites[t][id];
      assert CompositeOK(s, r.indexes, t, id, x) && CacheSorted(s, r.clean, x);
      if IsType(s.parents, x.tyType) && IsClean(s.parents, r.clean, x) {
        forall fs | fs in x.cache ensures SameUnder(s.definitions[id].order, h, fs) {
          assert InCleanCache(s, r.clean, x, fs) && r.IsHeld(fs);
          assert SameStructure(s, h, fs);
        }
        SortedRebased(s.definitions[id].order, h, x.cache);
      }
    }
  }

  lemma RowStillOK(s: Setup, h: HeapView, t: nat, row: seq<seq<nat>>)
    requires SetupOK(s) && SetupOK(Rebased(s, h)) && RowOK(s, t, row)
    requires forall i, fs :: 0 <= i < |row| && fs in row[i] ==> SameStructure(s, h, fs)
    ensures RowOK(Rebased(s, h), t, row)
  {
    var slots := Slots(s, |s.definitions|, t);
    SlotsRebased(s, h, |s.definitions|, t);
    hide Sorted, SameUnder, Slots;
    forall i | 0 <= i < |row| ensures SlotOK(Rebased(s, h), t, slots, row, i) {
      assert SlotOK(s, t, slots, row, i);
      forall fs | fs in row[i] ensures h.TypeOf(fs) == t && SameUnder(s.definitions[slots[i]].order, h, fs) {
        assert SameStructure(s, h, fs);
      }
      SortedRebased(s.definitions[slots[i]].order, h, row[i]);
    }
  }

  lemma TypesKept(s: Setup, h: HeapView, added: seq<nat>)
    requires forall fs :: fs in added ==> SameStructure(s, h, fs)
    ensures forall fs :: fs in added ==> h.TypeOf(fs) == s.heap.TypeOf(fs)
  {
  }

  lemma StillHoldsAdded(s: Setup, h: HeapView, c: Contents, added: seq<nat>)
    requires SetupOK(s) && ContentsOK(s, c) && HoldsAdded(s, c, added)
    requires SetupOK(Rebased(s, h)) && ContentsOK(Rebased(s, h), c)
    requires forall fs :: fs in added ==> h.TypeOf(fs) == s.heap.TypeOf(fs)
    ensures HoldsAdded(Rebased(s, h), c, added) && Uncovered(Rebased(s, h), added) == Uncovered(s, added)
  {
    assert |c| == |s.parents|;
    hide ContentsOK;
    forall t, i | IsType(s.parents, t) && 0 <= i < |c[t]| ensures multiset(c[t][i]) == OfType(h, added, t) {
      OfTypeRebased(s, h, added, t);
    }
    UncoveredRebased(s, h, added);
  }

  lemma {:induction false} OfTypeRebased(s: Setup, h: HeapView, added: seq<nat>, t: nat)
    requires forall fs :: fs in added ==> h.TypeOf(fs) == s.heap.TypeOf(fs)
    ensures OfType(h, added, t) == OfType(s.heap, added, t)
  {
    if added != [] {
      assert added[|added| - 1] in added;
      OfTypeRebased(s, h, added[..|added| - 1], t);
    }
  }

  lemma {:induction false} UncoveredRebased(s: Setup, h: HeapView, added: seq<nat>)
    requires ParentsOK(s.parents) && forall fs :: fs in added ==> h.TypeOf(fs) == s.heap.TypeOf(fs)
    ensures Uncovered(Rebased(s, h), added) == Uncovered(s, added)
  {
    if added != [] {
      var last := added[|added| - 1];
      assert last in added;
      SlotsRebased(s, h, |s.definitions|, h.TypeOf(last));
      UncoveredRebased(s, h, added[..|added| - 1]);
    }
  }

  lemma UsedRebased(s: Setup, h: HeapView, c: Contents, isUsed: seq<bool>, usedIndexes: seq<nat>)
    requires ParentsOK(s.parents) && UsedOK(s, c, isUsed, usedIndexes)
    ensures UsedOK(Rebased(s, h), c, isUsed, usedIndexes)
  {
    forall t | IsType(s.parents, t) && isUsed[t] ensures Slots(Rebased(s, h), |s.definitions|, t) != [] {
      SlotsRebased(s, h, |s.definitions|, t);
    }
  }

  lemma IdleRebased(s: Setup, h: HeapView, isUsed: seq<bool>, clean: seq<set<OrderedCompositeIndex>>,
                    composites: seq<map<nat, OrderedCompositeIndex>>, caches: set<OrderedCompositeIndex>)
    requires ParentsOK(s.parents) && IdleCachesEmpty(s, isUsed, clean, composites, caches)
    ensures IdleCachesEmpty(Rebased(s, h), isUsed, clean, composites, caches)
  {
    hide Subtypes, IsClean;
    forall t, id | 0 <= t < |composites| && id in composites[t]
      ensures composites[t][id] in caches && IdleCacheEmpty(Rebased(s, h), isUsed, clean, composites[t][id])
    {
      assert IdleCacheEmpty(s, isUsed, clean, composites[t][id]);
    }
  }

  lemma StillFresh(s: Setup, h: HeapView, c: Contents, composites: seq<map<nat, OrderedCompositeIndex>>,
                   caches: set<OrderedCompositeIndex>, clean: seq<set<OrderedCompositeIndex>>)
    requires SetupOK(s) && ContentsOK(s, c) && CachesFresh(s, c, composites, caches, clean)
    requires SetupOK(Rebased(s, h)) && ContentsOK(Rebased(s, h), c)
    requires CleanSorted(Rebased(s, h), clean, composites, caches)
    requires forall t, id :: 0 <= t < |composites| && id in composites[t] ==>
               id < |s.definitions| && Order(composites[t][id].keys, s.heap) == s.definitions[id].order
    ensures CachesFresh(Rebased(s, h), c, composites, caches, clean)
  {
    var s' := Rebased(s, h);
    assert ParentsOK(s.parents);
    hide ContentsOK, SetupOK, Sorted, Subtypes, IsClean;
    forall t, id | 0 <= t < |composites| && id in composites[t]
      ensures composites[t][id] in caches && CacheFresh(s', c, t, id, clean, composites[t][id])
    {
      var x := composites[t][id];
      assert CacheFresh(s, c, t, id, clean, x) && CacheSorted(s', clean, x);
      if IsType(s.parents, t) && Covers(s, id, t) {
        PartsRebased(s, h, c, t, id);
      }
    }
  }

  lemma PartsRebased(s: Setup, h: HeapView, c: Contents, t: nat, id: nat)
    requires SetupOK(s) && ContentsOK(s, c) && SetupOK(Rebased(s, h)) && ContentsOK(Rebased(s, h), c)
    requires IsType(s.parents, t) && Covers(s, id, t)
    ensures Covers(Rebased(s, h), id, t) && Parts(Rebased(s, h), c, t, id) == Parts(s, c, t, id)
  {
    var s' := Rebased(s, h);
    forall k | 0 <= k < |Subtypes(s.parents, t)| ensures Parts(s', c, t, id)[k] == Parts(s, c, t, id)[k] {
      var u := Subtypes(s.parents, t)[k];
      PartAt(s, c, t, id, k);
      PartAt(s', c, t, id, k);
      PartPlaces(s, c, t, u, id);
      PartPlaces(s', c, t, u, id);
      SlotsRebased(s, h, id, u);
    }
  }

  lemma IntactFrom(r: IndexRepository)
    requires Objects(r.indexes) <= r.singles && SetupOK(r.setup) && r.tree == Children(r.setup.parents)
    requires SinglesOK(r.setup, |r.setup.definitions|, r.indexes, r.positions)
    requires CompositesOK(r.setup, |r.setup.definitions|, r.indexes, r.composites, r.caches)
    requires |r.clean| == |r.isUsed| == |r.setup.parents|
    requires UsedOK(r.setup, AllHeld(r.indexes), r.isUsed, r.usedIndexes)
    requires IdleCachesEmpty(r.setup, r.isUsed, r.clean, r.composites, r.caches)
    ensures r.Intact()
  {
  }

  lemma CompositeKeys(r: IndexRepository)
    requires SetupOK(r.setup) && CompositesOK(r.setup, |r.setup.definitions|, r.indexes, r.composites, r.caches)
    ensures forall t, id :: 0 <= t < |r.composites| && id in r.composites[t] ==>
              id < |r.setup.definitions| && Order(r.composites[t][id].keys,
                                                  r.setup.heap) == r.setup.definitions[id].order
  {
    forall t, id | 0 <= t < |r.composites| && id in r.composites[t]
      ensures id < |r.setup.definitions|
      ensures Order(r.composites[t][id].keys, r.setup.heap) == r.setup.definitions[id].order
    {
      assert CompositeOK(r.setup, r.indexes, t, id, r.composites[t][id]);
    }
  }

  lemma {:induction false} OfTypeContains(h: HeapView, added: seq<nat>, t: nat, fs: nat)
    ensures fs in OfType(h, added, t) <==> fs in added && h.TypeOf(fs) == t
  {
    if added != [] {
      assert added == added[..|added| - 1] + [added[|added| - 1]];
      OfTypeContains(h, added[..|added| - 1], t, fs);
    }
  }

  lemma {:induction false} UnderContains(s: Setup, added: seq<nat>, t: nat, fs: nat)
    requires ParentsOK(s.parents)
    ensures fs in Under(s, added, t) <==> fs in added && Subsumes(s.parents, t, s.heap.TypeOf(fs))
  {
    if added != [] {
      assert added == added[..|added| - 1] + [added[|added| - 1]];
      UnderContains(s, added[..|added| - 1], t, fs);
    }
  }

  /** In a valid repository only what was added is held. */
  lemma HeldWasAdded(r: IndexRepository, fs: nat)
    requires r.Valid() && r.IsHeld(fs)
    ensures fs in r.added
  {
    var s, c := r.setup, AllHeld(r.indexes);
    hide Sorted, SinglesOK, Subtypes, IsClean, ContentsOK, UsedOK, CleanSorted;
    if InContents(c, fs) {
      var t, i :| 0 < t < |c| && 0 <= i < |c[t]| && fs in c[t][i];
      assert fs in multiset(c[t][i]);
      OfTypeContains(s.heap, r.added, t, fs);
    } else {
      var t, id :| 0 <= t < |r.composites| && id in r.composites[t]
                   && InCleanCache(s, r.clean, r.composites[t][id], fs);
      assert CompositeOK(s, r.indexes, t, id, r.composites[t][id]);
      CacheYields(r, id, t, r.composites[t][id]);
      assert fs in multiset(r.composites[t][id].cache);
      UnderContains(s, r.added, t, fs);
    }
  }

  // ------------------------------------------------ changes that are not seen

  lemma {:induction false} UnionReplace(parts: seq<seq<nat>>, k: nat, p: seq<nat>)
    requires k < |parts|
    ensures Union(parts[k := p]) + multiset(parts[k]) == Union(parts) + multiset(p)
  {
    var n := |parts| - 1;
    if k < n {
      UnionReplace(parts[..n], k, p);
      assert parts[k := p][..n] == parts[..n][k := p] && parts[..n][k] == parts[k];
      calc {
        Union(parts[k := p]) + multiset(parts[k]);
        Union(parts[..n][k := p]) + multiset(parts[n]) + multiset(parts[k]);
        Union(parts[..n][k := p]) + multiset(parts[k]) + multiset(parts[n]);
        Union(parts[..n]) + multiset(p) + multiset(parts[n]);
        Union(parts) + multiset(p);
      }
    } else {
      assert parts[k := p][..n] == parts[..n];
    }
  }

  /** The parts of an index together change exactly as the part of one subtype does. */
  lemma UnionFollowsPart(s: Setup, c: Contents, c': Contents, t: nat, u: nat, id: nat)
    requires SetupOK(s) && ContentsOK(s, c) && ContentsOK(s, c') && IsType(s.parents, t) && Covers(s, id, t)
    requires IsType(s.parents, u) && Subsumes(s.parents, t, u) && |c'| == |c| && c' == c[u := c'[u]]
    ensures Union(Parts(s, c', t, id)) + multiset(PartOf(s, c, t, u, id))
         == Union(Parts(s, c, t, id)) + multiset(PartOf(s, c', t, u, id))
  {
    var us := Subtypes(s.parents, t);
    var k :| 0 <= k < |us| && us[k] == u;
    var parts, parts' := Parts(s, c, t, id), Parts(s, c', t, id);
    PartAt(s, c, t, id, k);
    PartAt(s, c', t, id, k);
    forall j | 0 <= j < |us| && j != k ensures parts'[j] == parts[j] {
      OtherPartAt(s, c, c', t, u, id, k, j);
    }
    hide *;
    assert parts' == parts[k := parts'[k]];
    UnionReplace(parts, k, parts'[k]);
  }

  lemma PartAt(s: Setup, c: Contents, t: nat, id: nat, k: nat)
    requires SetupOK(s) && ContentsOK(s, c) && IsType(s.parents, t) && Covers(s, id, t)
    requires k < |Subtypes(s.parents, t)|
    ensures var u := Subtypes(s.parents, t)[k];
            IsType(s.parents, u) && Subsumes(s.parents, t, u) && Parts(s, c, t, id)[k] == PartOf(s, c, t, u, id)
  {
    assert Subtypes(s.parents, t)[k] in Subtypes(s.parents, t);
  }

  lemma OtherPartAt(s: Setup, c: Contents, c': Contents, t: nat, u: nat, id: nat, k: nat, j: nat)
    requires SetupOK(s) && ContentsOK(s, c) && ContentsOK(s, c') && IsType(s.parents, t) && Covers(s, id, t)
    requires k < |Subtypes(s.parents, t)| && Subtypes(s.parents, t)[k] == u < |c| == |c'| && c' == c[u := c'[u]]
    requires j < |Subtypes(s.parents, t)| && j != k
    ensures Parts(s, c', t, id)[j] == Parts(s, c, t, id)[j]
  {
    PartAt(s, c, t, id, j);
    PartAt(s, c', t, id, j);
    var v := Subtypes(s.parents, t)[j];
    assert v != u;
    PartPlaces(s, c, t, v, id);
    PartPlaces(s, c', t, v, id);
  }

  lemma RemovedFromPart(s: Setup, c: Contents, t: nat, id: nat, fs: nat, row': seq<seq<nat>>)
    requires SetupOK(s) && ContentsOK(s, c) && IsType(s.parents, t) && Covers(s, id, t)
    requires RowRemoved(s, t, c[t], fs, row')
    ensures Place(s, t, id) < |c[t]| == |row'|
    ensures IsRemoval(s.definitions[id].order, c[t][Place(s, t, id)], fs, row'[Place(s, t, id)])
  {
    SlotOfIndex(s, |s.definitions|, t, id);
    assert SlotRemoved(s, Slots(s, |s.definitions|, t), c[t], fs, row', Place(s, t, id));
  }

  // Every element of the vector comes before the structure.
  ghost predicate AllPrecede(o: Order, part: seq<nat>, fs: nat) {
    forall x :: x in part ==> Precedes(o, x, fs)
  }

  lemma RemovalChangesElements(o: Order, part: seq<nat>, fs: nat, part': seq<nat>)
    requires IsRemoval(o, part, fs, part')
    ensures multiset(part') == multiset(part) <==> AllPrecede(o, part, fs)
  {
    hide Precedes;
    var k :| RemovedAt(o, part, fs, part', k);
    assert k < |part| ==> part[k] in part && !Precedes(o, part[k], fs);
    assert AllPrecede(o, part, fs) <==> k == |part|;
    if k < |part| {
      assert |multiset(part')| == |part'| < |part| == |multiset(part)|;
    }
  }

  // An iterator over a type with subtypes leaves its cache clean.
  method IterateFirst(r: IndexRepository, id: nat, t: nat) returns (it: IndexIterator)
    requires r.Valid() && IsType(r.setup.parents, t) && Covers(r.setup, id, t) && r.tree[t] != []
    modifies r`clean, r.caches`cache
    ensures r.Sound() && AllHeld(r.indexes) == old(AllHeld(r.indexes))
    ensures CleanCache(r, id, t, it.structures) && multiset(it.structures) == Under(r.setup, r.added, t)
  {
    hide *;
    StartsSound(r, id, t, t);
    it := r.CreateIterator(id, t);
    assert AllHeld(r.indexes) == old(AllHeld(r.indexes));
    TypeReady(r, id, t);
    IsCleanCache(r, id, t, it.structures);
  }

  // An iterator over a clean cache yields the cache.
  method IterateClean(r: IndexRepository, id: nat, t: nat, ghost cache: seq<nat>) returns (it: IndexIterator)
    requires r.Sound() && IsType(r.setup.parents, t) && Covers(r.setup, id, t) && r.tree[t] != []
    requires CleanCache(r, id, t, cache)
    modifies r`clean, r.caches`cache
    ensures r.Sound() && AllHeld(r.indexes) == old(AllHeld(r.indexes))
    ensures it.structures == cache
  {
    hide *;
    TypeReady(r, id, t);
    FromCleanCache(r, id, t, cache);
    it := r.CreateIterator(id, t);
    assert AllHeld(r.indexes) == old(AllHeld(r.indexes));
  }

  ghost predicate CleanCache(r: IndexRepository, id: nat, t: nat, cache: seq<nat>)
    reads r, if t < |r.composites| && id in r.composites[t] then {r.composites[t][id]} else {}
  {
    && ParentsOK(r.setup.parents) && IsType(r.setup.parents, t)
    && t < |r.composites| && id in r.composites[t] && r.composites[t][id].tyType == t
    && IsClean(r.setup.parents, r.clean, r.composites[t][id]) && r.composites[t][id].cache == cache
  }

  lemma IsCleanCache(r: IndexRepository, id: nat, t: nat, cache: seq<nat>)
    requires r.Sound() && IsType(r.setup.parents, t) && t < |r.composites| && id in r.composites[t]
    requires r.composites[t][id].tyType == t && r.composites[t][id].cache == cache
    requires IsClean(r.setup.parents, r.clean, r.composites[t][id])
    ensures CleanCache(r, id, t, cache)
  {
  }

  lemma FromCleanCache(r: IndexRepository, id: nat, t: nat, cache: seq<nat>)
    requires CleanCache(r, id, t, cache)
    ensures ParentsOK(r.setup.parents) && IsType(r.setup.parents, t)
    ensures t < |r.composites| && id in r.composites[t] && r.composites[t][id].tyType == t
    ensures IsClean(r.setup.parents, r.clean, r.composites[t][id]) && r.composites[t][id].cache == cache
  {
  }

  lemma StillSound(r: IndexRepository)
    requires r.Sound()
    ensures SetupOK(r.setup) && ContentsOK(r.setup, AllHeld(r.indexes))
  {
  }

  /**
   Once an iterator was made over a type with subtypes, removing a structure
   of one of the subtypes is not seen: the next iterator yields the same
   sequence. That is what the indexes hold if and only if the index of the
   subtype had only structures that precede the removed one.
   */
  method RemoveIsNotSeen(r: IndexRepository, id: nat, t: nat,
                         fs: nat) returns (before: IndexIterator, after: IndexIterator)
    requires r.Valid() && IsType(r.setup.parents, t) && Covers(r.setup, id, t) && r.tree[t] != []
    requires IsType(r.setup.parents, r.setup.heap.TypeOf(fs)) && Subsumes(r.setup.parents, t, r.setup.heap.TypeOf(fs))
    modifies r`clean, r.caches`cache, r.indexes[r.setup.heap.TypeOf(fs)]`structures
    ensures r.Sound() && after.structures == before.structures
    ensures multiset(before.structures) == Under(r.setup, r.added, t)
    ensures multiset(after.structures) == Union(Parts(r.setup, AllHeld(r.indexes), t, id))
            <==> AllPrecede(r.setup.definitions[id].order,
                            old(PartOf(r.setup, AllHeld(r.indexes), t, r.setup.heap.TypeOf(fs), id)), fs)
  {
    hide *;
    var u := r.setup.heap.TypeOf(fs);
    ghost var s, c := r.setup, AllHeld(r.indexes);
    StartsSound(r, id, t, u);
    before := IterateFirst(r, id, t);
    r.Remove(fs);
    ghost var c' := AllHeld(r.indexes);
    after := IterateClean(r, id, t, before.structures);
    StillSound(r);
    SeenAfterRemove(s, c, c', t, u, id, fs);
  }

  // One index over everything, a type below the top type, and a structure of this type at 1.
  function OneSubtype(): Setup {
    var heap := HeapView([0, 2], [], [], [], map[]);
    Setup([0, 1, 1], heap, [Definition(TOP, Order([], heap))])
  }

  lemma OneSubtypeOK()
    ensures var s := OneSubtype();
            && SetupOK(s) && s.heap.TypeOf(1) == 2 && IsType(s.parents, 2) && IsType(s.parents, TOP)
            && Covers(s, 0, TOP) && Covers(s, 0, 2) && Subsumes(s.parents, TOP, 2) && Children(s.parents)[TOP] != []
  {
    var s := OneSubtype();
    assert 2 in Indices(s.parents, 2, TOP);
  }

  // The structure is where remove will look for it, and does not precede itself.
  lemma OneAdded(r: IndexRepository)
    requires r.Valid() && r.setup == OneSubtype() && r.added == [1]
    requires IsType(r.setup.parents, TOP) && IsType(r.setup.parents, 2) && Subsumes(r.setup.parents, TOP, 2)
    requires Covers(r.setup, 0, TOP)
    ensures SetupOK(r.setup) && ContentsOK(r.setup, AllHeld(r.indexes))
    ensures !AllPrecede(r.setup.definitions[0].order, PartOf(r.setup, AllHeld(r.indexes), TOP, 2, 0), 1)
    ensures Under(r.setup, r.added, TOP) == multiset{1} && 2 < |r.indexes|
    ensures r.tree == Children(r.setup.parents)
  {
    var s, c := r.setup, AllHeld(r.indexes);
    PartPlaces(s, c, TOP, 2, 0);
    OfTypeContains(s.heap, r.added, 2, 1);
    var part := PartOf(s, c, TOP, 2, 0);
    assert 1 in multiset(part);
    PrecedesAsymmetric(s.definitions[0].order, 1, 1);
    assert [1][..0] == [];
  }

  lemma OnlyElement(s: seq<nat>, x: nat)
    requires multiset(s) == multiset{x}
    ensures s == [x]
  {
    assert |s| == |multiset(s)| == 1;
    assert s[0] in multiset(s);
  }

  /** A cache that is out of date is really iterated: it yields a structure although no index holds it any more. */
  method RemovedIsStillYielded() returns (r: IndexRepository, it: IndexIterator)
    ensures r.Sound() && it.structures == [1] && IsType(r.setup.parents, TOP) && Covers(r.setup, 0, TOP)
    ensures multiset(it.structures) != Union(Parts(r.setup, AllHeld(r.indexes), TOP, 0))
  {
    hide *;
    OneSubtypeOK();
    var s := OneSubtype();
    r := new IndexRepository(s);
    ghost var singles, caches := r.singles, r.caches;
    OwnRow(r, 2);
    r.Add(1);
    OneAdded(r);
    OwnRow(r, 2);
    var before;
    before, it := RemoveIsNotSeen(r, 0, TOP, 1);
    OnlyElement(it.structures, 1);
  }

  lemma OwnRow(r: IndexRepository, t: nat)
    requires r.Valid() && IsType(r.setup.parents, t)
    ensures t < |r.indexes| && forall k :: 0 <= k < |r.indexes[t]| ==> r.indexes[t][k] in r.singles
  {
    forall k | 0 <= k < |r.indexes[t]| ensures r.indexes[t][k] in r.singles {
      assert r.indexes[t][k] in Objects(r.indexes);
    }
  }

  lemma SeenAfterRemove(s: Setup, c: Contents, c': Contents, t: nat, u: nat, id: nat, fs: nat)
    requires SetupOK(s) && ContentsOK(s, c) && ContentsOK(s, c') && IsType(s.parents, t) && Covers(s, id, t)
    requires IsType(s.parents, u) && Subsumes(s.parents, t, u) && Covers(s, id, u)
    requires u < |c| == |c'| && c' == c[u := c'[u]] && RowRemoved(s, u, c[u], fs, c'[u])
    ensures Union(Parts(s, c, t, id)) == Union(Parts(s, c', t, id))
       <==> AllPrecede(s.definitions[id].order, PartOf(s, c, t, u, id), fs)
  {
    hide Parts, PartOf, ContentsOK, RowRemoved, Subsumes, Union, AllPrecede;
    RemovedFromPart(s, c, u, id, fs, c'[u]);
    PartPlaces(s, c, t, u, id);
    PartPlaces(s, c', t, u, id);
    RemovalChangesElements(s.definitions[id].order, PartOf(s, c, t, u, id), fs, PartOf(s, c', t, u, id));
    UnionFollowsPart(s, c, c', t, u, id);
    Cancel(Union(Parts(s, c, t, id)), Union(Parts(s, c', t, id)), multiset(PartOf(s, c, t, u, id)),
           multiset(PartOf(s, c', t, u, id)));
  }

  lemma SeenAfterAdd(s: Setup, c: Contents, c': Contents, t: nat, u: nat, id: nat, fs: nat)
    requires SetupOK(s) && ContentsOK(s, c) && ContentsOK(s, c') && IsType(s.parents, t) && Covers(s, id, t)
    requires IsType(s.parents, u) && Subsumes(s.parents, t, u)
    requires u < |c| == |c'| && Place(s, u, id) < |c[u]| == |c'[u]| && c' == c[u := c'[u]]
    requires IsInsertion(s.definitions[id].order, c[u][Place(s, u, id)], fs, c'[u][Place(s, u, id)])
    ensures Union(Parts(s, c', t, id)) == Union(Parts(s, c, t, id)) + multiset{fs}
  {
    hide Parts, PartOf, ContentsOK, Subsumes, Union, Sorted, IsInsertion;
    PartPlaces(s, c, t, u, id);
    PartPlaces(s, c', t, u, id);
    PartsSorted(s, c, t, u, id);
    InsertionKeepsOrder(s.definitions[id].order, PartOf(s, c, t, u, id), fs, PartOf(s, c', t, u, id));
    UnionFollowsPart(s, c, c', t, u, id);
    Cancel(Union(Parts(s, c, t, id)) + multiset{fs}, Union(Parts(s, c', t, id)), multiset(PartOf(s, c, t, u, id)),
           multiset(PartOf(s, c, t, u, id)));
  }

  lemma Cancel(a: multiset<nat>, a': multiset<nat>, b: multiset<nat>, b': multiset<nat>)
    requires a' + b == a + b'
    ensures a == a' <==> b == b'
  {
    forall x ensures a[x] == a'[x] <==> b[x] == b'[x] {
      assert (a' + b)[x] == a'[x] + b[x] && (a + b')[x] == a[x] + b'[x];
    }
  }

  lemma PartPlaces(s: Setup, c: Contents, t: nat, u: nat, id: nat)
    requires SetupOK(s) && ContentsOK(s, c) && Covers(s, id, t)
    requires IsType(s.parents, t) && IsType(s.parents, u) && Subsumes(s.parents, t, u)
    ensures u < |c| && Place(s, u, id) < |c[u]| && PartOf(s, c, t, u, id) == c[u][Place(s, u, id)]
  {
    var part := PartOf(s, c, t, u, id);
  }

  lemma StartsSound(r: IndexRepository, id: nat, t: nat, u: nat)
    requires r.Valid() && IsType(r.setup.parents, t) && Covers(r.setup, id, t)
    requires IsType(r.setup.parents, u) && Subsumes(r.setup.parents, t, u)
    ensures r.Sound() && SetupOK(r.setup) && ContentsOK(r.setup, AllHeld(r.indexes)) && Covers(r.setup, id, u)
    ensures u < |AllHeld(r.indexes)|
    ensures Union(Parts(r.setup, AllHeld(r.indexes), t, id)) == Under(r.setup, r.added, t)
  {
    SubsumesTransitive(r.setup.parents, r.setup.definitions[id].tyType, t, u);
    PartsHoldAdded(r.setup, AllHeld(r.indexes), r.added, t, id);
  }

  /** Adding to a single index is not seen either, and there is always something to see. */
  method AddToIndexIsNotSeen(r: IndexRepository, id: nat, t: nat,
                             fs: nat) returns (before: IndexIterator, after: IndexIterator)
    requires r.Valid() && IsType(r.setup.parents, t) && Covers(r.setup, id, t) && r.tree[t] != [] && fs != 0
    requires IsType(r.setup.parents, r.setup.heap.TypeOf(fs)) && Subsumes(r.setup.parents, t, r.setup.heap.TypeOf(fs))
    modifies r`clean, r.caches`cache, r.indexes[r.setup.heap.TypeOf(fs)]`structures
    ensures r.Sound() && after.structures == before.structures
    ensures Union(Parts(r.setup, AllHeld(r.indexes), t, id)) == multiset(after.structures) + multiset{fs}
  {
    hide *;
    var u := r.setup.heap.TypeOf(fs);
    ghost var s, c := r.setup, AllHeld(r.indexes);
    StartsSound(r, id, t, u);
    before := IterateFirst(r, id, t);
    r.AddToIndex(fs, id);
    ghost var c' := AllHeld(r.indexes);
    after := IterateClean(r, id, t, before.structures);
    StillSound(r);
    SeenAfterAdd(s, c, c', t, u, id, fs);
  }

  lemma PartsSorted(s: Setup, c: Contents, t: nat, u: nat, id: nat)
    requires SetupOK(s) && ContentsOK(s, c) && Covers(s, id, t)
    requires IsType(s.parents, t) && IsType(s.parents, u) && Subsumes(s.parents, t, u)
    ensures Sorted(s.definitions[id].order, PartOf(s, c, t, u, id))
  {
  }
}
