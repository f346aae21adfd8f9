/**
 What it means that indexes read certain heaps, and what iterators over an index
 of strings yield then.
 */
module HeapMeaning {
  import opened IndexComparator
  import opened IndexRepository
  import opened SingleIndex
  import opened TypeTree
  import opened KeyMeaning
  import FSHeap

  // Cells, texts and longs are read from these heaps.
  ghost predicate Shows(h: HeapView, cells: seq<nat>, refs: seq<nat>, chars: seq<nat>, longs: seq<nat>) {
    && (forall a :: 0 <= a < |cells| ==> h.Cell(a) == cells[a])
    && (forall ref: nat :: FSHeap.RefOK(refs, chars, ref) ==>
          h.Text(h.StringAt(ref)) == FSHeap.TextOf(refs, chars, ref))
    && (forall k: nat :: 0 < k < |longs| ==> Means(longs[k], 0x1_0000_0000_0000_0000, h.Long(k)))
  }

  lemma FieldsShow(h: HeapView, longs: seq<nat>)
    requires |h.longs| == |longs|
    requires forall k :: 0 <= k < |longs| ==> h.longs[k] == Signed(longs[k], 0x1_0000_0000_0000_0000)
    ensures Shows(h, h.cells, h.stringRefs, h.chars, longs)
  {
    forall ref: nat | FSHeap.RefOK(h.stringRefs, h.chars, ref)
      ensures h.Text(h.StringAt(ref)) == FSHeap.TextOf(h.stringRefs, h.chars, ref)
    {
      TextIs(h, ref, FSHeap.TextOf(h.stringRefs, h.chars, ref));
    }
    forall k: nat | 0 < k < |longs| ensures Means(longs[k], 0x1_0000_0000_0000_0000, h.Long(k)) {
      SignedIsMeant(longs[k], 0x1_0000_0000_0000_0000);
    }
  }

  // One string key, and all that is listed has a good reference there.
  predicate ComparesTexts(o: Order, at: nat) {
    o.keys == [Key(at, Text, false)]
  }

  // The text that the cell of a structure refers to.
  function TextIn(cells: seq<nat>, refs: seq<nat>, chars: seq<nat>, a: nat): seq<nat>
    requires HasText(cells, refs, chars, a)
  {
    FSHeap.TextOf(refs, chars, cells[a])
  }

  predicate HasText(cells: seq<nat>, refs: seq<nat>, chars: seq<nat>, a: nat) {
    a < |cells| && FSHeap.RefOK(refs, chars, cells[a])
  }

  predicate HaveTexts(cells: seq<nat>, refs: seq<nat>, chars: seq<nat>, at: nat, list: seq<nat>) {
    forall i :: 0 <= i < |list| ==> HasText(cells, refs, chars, list[i] + at)
  }

  // The texts ascend along the list.
  ghost predicate TextsAscend(cells: seq<nat>, refs: seq<nat>, chars: seq<nat>, at: nat, list: seq<nat>)
    requires HaveTexts(cells, refs, chars, at, list)
  {
    forall i, j :: 0 <= i < j < |list| ==>
      !LexLess(TextIn(cells, refs, chars, list[j] + at), TextIn(cells, refs, chars, list[i] + at))
  }

  lemma SortedByText(o: Order, at: nat, cells: seq<nat>, refs: seq<nat>, chars: seq<nat>, longs: seq<nat>,
                     list: seq<nat>)
    requires ComparesTexts(o, at) && Shows(o.heap, cells, refs, chars, longs) && HaveTexts(cells, refs, chars, at, list)
    ensures Sorted(o, list) <==> TextsAscend(cells, refs, chars, at, list)
  {
    hide ComparesTexts, Shows, HasText, Precedes, LexLess, TextIn;
    forall i, j | 0 <= i < j < |list|
      ensures Precedes(o, list[j], list[i])
         <==> LexLess(TextIn(cells, refs, chars, list[j] + at), TextIn(cells, refs, chars, list[i] + at))
    {
      PrecedesByText(o, at, cells, refs, chars, longs, list[j], list[i]);
    }
  }

  lemma PrecedesByText(o: Order, at: nat, cells: seq<nat>, refs: seq<nat>, chars: seq<nat>, longs: seq<nat>,
                       a: nat, b: nat)
    requires ComparesTexts(o, at) && Shows(o.heap, cells, refs, chars, longs)
    requires HasText(cells, refs, chars, a + at) && HasText(cells, refs, chars, b + at)
    ensures Precedes(o, a, b)
       <==> LexLess(TextIn(cells, refs, chars, a + at), TextIn(cells, refs, chars, b + at))
  {
    var s, t := TextIn(cells, refs, chars, a + at), TextIn(cells, refs, chars, b + at);
    assert ValueOf(o, o.keys[0], a) == Units(s) && ValueOf(o, o.keys[0], b) == Units(t);
    hide LexLess, FSHeap.TextOf, TextIn, HasText;
    if LexLess(s, t) {
      assert DecidedAt(o, a, b, 0);
    }
    if Precedes(o, a, b) {
      var i :| DecidedAt(o, a, b, i);
    }
  }

  /**
   Iterating over an index of strings of a valid repository yields what is
   subsumed and was added, by the texts in the heaps that it reads.
   */
  method IterateByText(r: IndexRepository, id: nat, t: nat, at: nat, ghost cells: seq<nat>, ghost refs: seq<nat>,
                       ghost chars: seq<nat>, ghost longs: seq<nat>) returns (it: IndexIterator)
    requires r.Valid() && IsType(r.setup.parents, t) && Covers(r.setup, id, t)
    requires ComparesTexts(r.setup.definitions[id].order, at) && Shows(r.setup.heap, cells, refs, chars, longs)
    requires HaveTexts(cells, refs, chars, at, r.added)
    modifies r`clean, r.caches`cache
    ensures r.Valid() && it.Valid() && multiset(it.structures) == Under(r.setup, r.added, t)
    ensures HaveTexts(cells, refs, chars, at, it.structures) && TextsAscend(cells, refs, chars, at, it.structures)
  {
    hide *;
    ValidIsSound(r);
    OrderReadsHeap(r, id, t);
    it := r.CreateIterator(id, t);
    OnlyAdded(r, t, cells, refs, chars, at, it.structures);
    IteratorIsSorted(it);
    SortedByText(it.order, at, cells, refs, chars, longs, it.structures);
  }

  lemma ValidIsSound(r: IndexRepository)
    requires r.Valid()
    ensures r.Sound()
  {
  }

  lemma OrderReadsHeap(r: IndexRepository, id: nat, t: nat)
    requires r.Valid() && IsType(r.setup.parents, t) && Covers(r.setup, id, t)
    ensures id < |r.setup.definitions| && r.setup.definitions[id].order.heap == r.setup.heap
    ensures ParentsOK(r.setup.parents)
  {
    assert r.setup.definitions[id] in r.setup.definitions;
  }

  lemma IteratorIsSorted(it: IndexIterator)
    requires it.Valid() && it.hasComparator
    ensures Sorted(it.order, it.structures)
  {
  }

  lemma {:induction false} UnderIsAdded(s: Setup, added: seq<nat>, t: nat, fs: nat)
    requires ParentsOK(s.parents) && fs in Under(s, added, t)
    ensures fs in added
  {
    if added != [] {
      var n := |added| - 1;
      assert added[n] in added;
      if fs in Under(s, added[..n], t) {
        UnderIsAdded(s, added[..n], t, fs);
      }
    }
  }

  lemma OnlyAdded(r: IndexRepository, t: nat, cells: seq<nat>, refs: seq<nat>, chars: seq<nat>, at: nat, list: seq<nat>)
    requires ParentsOK(r.setup.parents) && multiset(list) == Under(r.setup, r.added, t)
    requires HaveTexts(cells, refs, chars, at, r.added)
    ensures HaveTexts(cells, refs, chars, at, list)
  {
    hide HasText;
    forall i | 0 <= i < |list| ensures HasText(cells, refs, chars, list[i] + at) {
      assert list[i] in multiset(list);
      UnderIsAdded(r.setup, r.added, t, list[i]);
      var k :| 0 <= k < |r.added| && r.added[k] == list[i];
    }
  }
}
