/**
 The index of a type with subtypes: a cache that merges the sorted vectors of
 all its components, filled by a k-way merge that re-sorts its iterators.
 */
module CompositeIndex {
  import opened IndexComparator
  import opened SingleIndex

  // ------------------------------------------------- sorting the iterators

  // The structure an iterator stands on, or 0 past the end.
  ghost function Head(it: IndexIterator): nat
    reads it
  {
    if it.pos < |it.structures| then it.structures[it.pos] else 0
  }

  // Iterators past the end come last.
  ghost predicate HeadLess(o: Order, x: nat, y: nat) {
    x != 0 && (y == 0 || StrictlyBefore(o, x, y))
  }

  lemma HeadOrder(o: Order, x: nat, y: nat, z: nat)
    ensures !(HeadLess(o, x, y) && HeadLess(o, y, x))
    ensures !HeadLess(o, y, x) && !HeadLess(o, z, y) ==> !HeadLess(o, z, x)
  {
    hide StrictlyBefore;
    StrictlyBeforeIsStrictTotalOrder(o, x, y, z);
    StrictlyBeforeIsStrictTotalOrder(o, y, z, x);
    StrictlyBeforeIsStrictTotalOrder(o, x, z, y);
    StrictlyBeforeIsStrictTotalOrder(o, z, x, y);
  }

  ghost function Heads(its: seq<IndexIterator>): (heads: seq<nat>)
    reads its
    ensures |heads| == |its| && forall i :: 0 <= i < |its| ==> heads[i] == Head(its[i])
  {
    seq(|its|, i requires 0 <= i < |its| reads its => Head(its[i]))
  }

  ghost predicate HeadsSorted(o: Order, heads: seq<nat>) {
    forall i, j :: 0 <= i < j < |heads| ==> !HeadLess(o, heads[j], heads[i])
  }

  // The elements of s that x should stand before.
  ghost function CountAfter(o: Order, s: seq<nat>, x: nat): nat {
    if s == [] then 0 else CountAfter(o, s[..|s| - 1], x) + if HeadLess(o, x, s[|s| - 1]) then 1 else 0
  }

  /** The number of pairs that stand in the wrong order. */
  ghost function Inversions(o: Order, s: seq<nat>): nat {
    if s == [] then 0 else Inversions(o, s[..|s| - 1]) + CountAfter(o, s[..|s| - 1], s[|s| - 1])
  }

  lemma {:induction false} SwapKeepsCount(o: Order, s: seq<nat>, k: nat, x: nat)
    requires k + 1 < |s|
    ensures CountAfter(o, s[k := s[k + 1]][k + 1 := s[k]], x) == CountAfter(o, s, x)
  {
    var t := s[k := s[k + 1]][k + 1 := s[k]];
    var n := |s| - 1;
    if k + 1 < n {
      SwapKeepsCount(o, s[..n], k, x);
      assert t[..n] == s[..n][k := s[k + 1]][k + 1 := s[k]];
    } else {
      assert t[..n][..k] == s[..n][..k];
    }
  }

  lemma CountAppend(o: Order, s: seq<nat>, y: nat, x: nat)
    ensures CountAfter(o, s + [y], x) == CountAfter(o, s, x) + if HeadLess(o, x, y) then 1 else 0
  {
    assert (s + [y])[..|s|] == s;
  }

  lemma InversionsAppend(o: Order, s: seq<nat>, x: nat)
    ensures Inversions(o, s + [x]) == Inversions(o, s) + CountAfter(o, s, x)
  {
    assert (s + [x])[..|s|] == s;
  }

  lemma SwapLastTwo(o: Order, p: seq<nat>, a: nat, b: nat)
    requires HeadLess(o, b, a)
    ensures Inversions(o, p + [b] + [a]) + 1 == Inversions(o, p + [a] + [b])
  {
    hide *;
    HeadOrder(o, a, b, a);
    InversionsAppend(o, p + [b], a);
    InversionsAppend(o, p + [a], b);
    InversionsAppend(o, p, a);
    InversionsAppend(o, p, b);
    CountAppend(o, p, a, b);
    CountAppend(o, p, b, a);
  }

  /** Swapping neighbours that stand in the wrong order leaves one inversion less. */
  lemma {:induction false} SwapRemovesInversion(o: Order, s: seq<nat>, k: nat)
    requires k + 1 < |s| && HeadLess(o, s[k + 1], s[k])
    ensures Inversions(o, s[k := s[k + 1]][k + 1 := s[k]]) + 1 == Inversions(o, s)
  {
    hide HeadLess;
    var t := s[k := s[k + 1]][k + 1 := s[k]];
    var n := |s| - 1;
    if k + 1 < n {
      SwapRemovesInversion(o, s[..n], k);
      assert t[..n] == s[..n][k := s[k + 1]][k + 1 := s[k]];
      SwapKeepsCount(o, s[..n], k, s[n]);
    } else {
      SwapLastTwo(o, s[..k], s[k], s[k + 1]);
      assert t == s[..k] + [s[k + 1]] + [s[k]] && s == s[..k] + [s[k]] + [s[k + 1]];
    }
  }

  lemma {:induction false} NeighboursSorted(o: Order, s: seq<nat>, i: nat, j: nat)
    requires forall k :: 0 < k < |s| ==> !HeadLess(o, s[k], s[k - 1])
    requires i < j < |s|
    ensures !HeadLess(o, s[j], s[i])
  {
    if i < j - 1 {
      NeighboursSorted(o, s, i, j - 1);
      HeadOrder(o, s[i], s[j - 1], s[j]);
    }
  }

  ghost predicate AllDistinct(its: seq<IndexIterator>) {
    forall i, j :: 0 <= i < j < |its| ==> its[i] != its[j]
  }

  ghost predicate IteratorsOK(o: Order, its: seq<IndexIterator>)
    reads its
  {
    OrderOK(o) && AllDistinct(its) && forall it :: it in its ==> it.Valid() && 0 !in it.structures
  }

  // Compares two iterators as the structures they stand on.
  method IteratorLess(o: Order, it1: IndexIterator, it2: IndexIterator) returns (r: bool)
    requires OrderOK(o) && it1.Valid() && it2.Valid() && 0 !in it1.structures && 0 !in it2.structures
    ensures r <==> HeadLess(o, Head(it1), Head(it2))
  {
    var val1, val2 := it1.IsValid(), it2.IsValid();
    if val1 && !val2 {
      return true;
    }
    if !val1 && val2 {
      return false;
    }
    if val1 && val2 {
      var c := CompareWithoutEquality(o, it1.Get(), it2.Get());
      return c > 0;
    }
    return false;
  }

  // The pass has seen the first i iterators.
  ghost predicate PassState(o: Order, its0: seq<IndexIterator>, its: seq<IndexIterator>, wasSwapped: bool, i: int)
    reads its0, its
  {
    && IteratorsOK(o, its) && multiset(its) == multiset(its0)
    && if wasSwapped then Inversions(o, Heads(its)) < Inversions(o, Heads(its0))
       else its == its0 && forall k :: 0 < k < i && k < |its| ==> !HeadLess(o, Heads(its)[k], Heads(its)[k - 1])
  }

  // One pass of the bubble sort.
  method BubblePass(iterators: array<IndexIterator>, o: Order) returns (wasSwapped: bool)
    requires IteratorsOK(o, iterators[..])
    modifies iterators
    ensures IteratorsOK(o, iterators[..]) && multiset(iterators[..]) == multiset(old(iterators[..]))
    ensures wasSwapped ==> Inversions(o, Heads(iterators[..])) < Inversions(o, old(Heads(iterators[..])))
    ensures !wasSwapped ==> HeadsSorted(o, Heads(iterators[..]))
  {
    hide *;
    ghost var its0 := iterators[..];
    wasSwapped := false;
    PassBegins(o, its0);
    var i := 1;
    while i < iterators.Length
      invariant i >= 1
      invariant PassState(o, its0, iterators[..], wasSwapped, i)
    {
      ghost var its, before := iterators[..], wasSwapped;
      var previous, current := iterators[i - 1], iterators[i];
      PassOK(o, its0, its, wasSwapped, i);
      var less := IteratorLess(o, current, previous);
      if less {
        wasSwapped := true;
        iterators[i - 1] := current;
        iterators[i] := previous;
        assert iterators[..] == its[i - 1 := its[i]][i := its[i - 1]];
        PassSwaps(o, its0, its, before, i);
      } else {
        PassKeeps(o, its0, its, wasSwapped, i);
      }
      i := i + 1;
    }
    PassEnds(o, its0, iterators[..], wasSwapped, i);
  }

  lemma PassBegins(o: Order, its: seq<IndexIterator>)
    requires IteratorsOK(o, its)
    ensures PassState(o, its, its, false, 1)
  {
  }

  lemma PassOK(o: Order, its0: seq<IndexIterator>, its: seq<IndexIterator>, wasSwapped: bool, i: nat)
    requires PassState(o, its0, its, wasSwapped, i) && 1 <= i < |its|
    ensures OrderOK(o)
    ensures its[i].Valid() && 0 !in its[i].structures && its[i - 1].Valid() && 0 !in its[i - 1].structures
  {
    assert its[i] in its && its[i - 1] in its;
  }

  lemma PassSwaps(o: Order, its0: seq<IndexIterator>, its: seq<IndexIterator>, wasSwapped: bool, i: nat)
    requires PassState(o, its0, its, wasSwapped, i) && 1 <= i < |its|
    requires HeadLess(o, Head(its[i]), Head(its[i - 1]))
    ensures PassState(o, its0, its[i - 1 := its[i]][i := its[i - 1]], true, i + 1)
  {
    hide HeadLess, Inversions, IteratorsOK;
    SwapIterators(o, its, its[i - 1 := its[i]][i := its[i - 1]], i - 1);
  }

  lemma PassKeeps(o: Order, its0: seq<IndexIterator>, its: seq<IndexIterator>, wasSwapped: bool, i: nat)
    requires PassState(o, its0, its, wasSwapped, i) && 1 <= i < |its|
    requires !HeadLess(o, Head(its[i]), Head(its[i - 1]))
    ensures PassState(o, its0, its, wasSwapped, i + 1)
  {
    hide HeadLess, Inversions, IteratorsOK;
  }

  lemma PassEnds(o: Order, its0: seq<IndexIterator>, its: seq<IndexIterator>, wasSwapped: bool, i: nat)
    requires PassState(o, its0, its, wasSwapped, i) && i >= |its|
    ensures IteratorsOK(o, its) && multiset(its) == multiset(its0)
    ensures wasSwapped ==> Inversions(o, Heads(its)) < Inversions(o, Heads(its0))
    ensures !wasSwapped ==> HeadsSorted(o, Heads(its))
  {
    hide HeadLess, Inversions, IteratorsOK;
    var heads := Heads(its);
    if !wasSwapped {
      forall k, j | 0 <= k < j < |heads| ensures !HeadLess(o, heads[j], heads[k]) {
        NeighboursSorted(o, heads, k, j);
      }
    }
  }

  lemma SwapIterators(o: Order, its: seq<IndexIterator>, its': seq<IndexIterator>, k: nat)
    requires IteratorsOK(o, its) && k + 1 < |its| && its' == its[k := its[k + 1]][k + 1 := its[k]]
    requires HeadLess(o, Head(its[k + 1]), Head(its[k]))
    ensures IteratorsOK(o, its') && multiset(its') == multiset(its)
    ensures Inversions(o, Heads(its')) < Inversions(o, Heads(its))
  {
    hide HeadLess, Inversions;
    SwapRemovesInversion(o, Heads(its), k);
    assert Heads(its') == Heads(its)[k := Heads(its)[k + 1]][k + 1 := Heads(its)[k]];
    SwapSame(its, its', k);
  }

  lemma SwapSame(its: seq<IndexIterator>, its': seq<IndexIterator>, k: nat)
    requires AllDistinct(its) && k + 1 < |its| && its' == its[k := its[k + 1]][k + 1 := its[k]]
    ensures AllDistinct(its') && multiset(its') == multiset(its) && forall it :: it in its' ==> it in its
  {
  }

  /** bubbleSortIterators: ends because every swap removes an inversion. */
  method BubbleSortIterators(iterators: array<IndexIterator>, o: Order)
    requires IteratorsOK(o, iterators[..])
    modifies iterators
    ensures IteratorsOK(o, iterators[..]) && multiset(iterators[..]) == multiset(old(iterators[..]))
    ensures HeadsSorted(o, Heads(iterators[..]))
  {
    hide *;
    var n := iterators.Length;
    if n == 0 || n == 1 {
      SortedWhenFew(o, Heads(iterators[..]));
      return;
    }
    var wasSwapped := true;
    while wasSwapped
      invariant IteratorsOK(o, iterators[..]) && multiset(iterators[..]) == multiset(old(iterators[..]))
      invariant !wasSwapped ==> HeadsSorted(o, Heads(iterators[..]))
      decreases Inversions(o, Heads(iterators[..])), wasSwapped
    {
      wasSwapped := BubblePass(iterators, o);
      if !wasSwapped {
        break;
      }
    }
  }

  lemma SortedWhenFew(o: Order, heads: seq<nat>)
    requires |heads| <= 1
    ensures HeadsSorted(o, heads)
  {
  }

  // --------------------------------------------------------------- merging

  // The elements of out that came from component c, in order.
  ghost function Pick(out: seq<nat>, src: seq<nat>, c: nat): seq<nat>
    requires |out| == |src|
  {
    if out == [] then []
    else Pick(out[..|out| - 1], src[..|src| - 1], c) + if src[|src| - 1] == c then [out[|out| - 1]] else []
  }

  ghost function Sum(s: seq<nat>): nat {
    if s == [] then 0 else Sum(s[..|s| - 1]) + s[|s| - 1]
  }

  ghost function Sizes(parts: seq<seq<nat>>): (sizes: seq<nat>)
    ensures |sizes| == |parts| && forall c :: 0 <= c < |parts| ==> sizes[c] == |parts[c]|
  {
    seq(|parts|, c requires 0 <= c < |parts| => |parts[c]|)
  }

  // All elements together.
  ghost function Union(parts: seq<seq<nat>>): multiset<nat> {
    if parts == [] then multiset{} else Union(parts[..|parts| - 1]) + multiset(parts[|parts| - 1])
  }

  // Every element of out comes from one component, and each component gives all its elements in its own order.
  ghost predicate Interleaves(parts: seq<seq<nat>>, out: seq<nat>, src: seq<nat>) {
    && |src| == |out| && (forall i :: 0 <= i < |src| ==> src[i] < |parts|)
    && forall c :: 0 <= c < |parts| ==> Pick(out, src, c) == parts[c]
  }

  /** out is a sorted interleaving of the parts. */
  ghost predicate IsSortedMerge(o: Order, parts: seq<seq<nat>>, out: seq<nat>) {
    Sorted(o, out) && |out| == Sum(Sizes(parts)) && exists src :: Interleaves(parts, out, src)
  }

  // No element of s from p on precedes x.
  ghost predicate NoneBeforeFrom(o: Order, s: seq<nat>, p: nat, x: nat) {
    forall k :: p <= k < |s| ==> !Precedes(o, s[k], x)
  }

  // Of each component c the first pos[c] elements are merged.
  ghost predicate Merged(o: Order, parts: seq<seq<nat>>, pos: seq<nat>, out: seq<nat>, src: seq<nat>) {
    && |pos| == |parts| && |src| == |out| && |out| == Sum(pos)
    && (forall i :: 0 <= i < |src| ==> src[i] < |parts|)
    && (forall c :: 0 <= c < |parts| ==> pos[c] <= |parts[c]| && Pick(out, src, c) == parts[c][..pos[c]])
    && Sorted(o, out)
    && forall i, c :: 0 <= i < |out| && 0 <= c < |parts| ==> NoneBeforeFrom(o, parts[c], pos[c], out[i])
  }

  lemma {:induction false} NothingMerged(o: Order, parts: seq<seq<nat>>, pos: seq<nat>)
    requires |pos| == |parts| && forall c :: 0 <= c < |pos| ==> pos[c] == 0
    ensures Merged(o, parts, pos, [], [])
  {
    SumOfZeros(pos);
  }

  lemma {:induction false} SumOfZeros(s: seq<nat>)
    requires forall c :: 0 <= c < |s| ==> s[c] == 0
    ensures Sum(s) == 0
  {
    if s != [] {
      SumOfZeros(s[..|s| - 1]);
    }
  }

  lemma {:induction false} SumOneMore(s: seq<nat>, c: nat)
    requires c < |s|
    ensures Sum(s[c := s[c] + 1]) == Sum(s) + 1
  {
    var t, n := s[c := s[c] + 1], |s| - 1;
    if c < n {
      SumOneMore(s[..n], c);
      assert t[..n] == s[..n][c := s[c] + 1];
    } else {
      assert t[..n] == s[..n];
    }
  }

  // Where a total is not reached some component is not finished, and where it is, all are.
  lemma {:induction false} SumBelow(pos: seq<nat>, sizes: seq<nat>)
    requires |pos| == |sizes| && forall c :: 0 <= c < |pos| ==> pos[c] <= sizes[c]
    ensures Sum(pos) <= Sum(sizes)
    ensures Sum(pos) == Sum(sizes) ==> pos == sizes
    ensures Sum(pos) < Sum(sizes) ==> exists c :: 0 <= c < |pos| && pos[c] < sizes[c]
  {
    if pos != [] {
      var n := |pos| - 1;
      SumBelow(pos[..n], sizes[..n]);
      assert pos == pos[..n] + [pos[n]] && sizes == sizes[..n] + [sizes[n]];
      if Sum(pos) < Sum(sizes) && !(pos[n] < sizes[n]) {
        var c :| 0 <= c < |pos[..n]| && pos[..n][c] < sizes[..n][c];
        assert pos[c] < sizes[c];
      }
    }
  }

  lemma PickAppend(out: seq<nat>, src: seq<nat>, x: nat, c: nat, d: nat)
    requires |out| == |src|
    ensures Pick(out + [x], src + [c], d) == Pick(out, src, d) + if c == d then [x] else []
  {
    assert (out + [x])[..|out|] == out && (src + [c])[..|src|] == src;
  }

  /** Emitting the next element of a component, when nothing left precedes it. */
  lemma MergeNext(o: Order, parts: seq<seq<nat>>, pos: seq<nat>, out: seq<nat>, src: seq<nat>, c: nat)
    requires Merged(o, parts, pos, out, src) && c < |parts| && pos[c] < |parts[c]|
    requires forall d :: 0 <= d < |parts| ==> NoneBeforeFrom(o, parts[d], pos[d], parts[c][pos[c]])
    ensures Merged(o, parts, pos[c := pos[c] + 1], out + [parts[c][pos[c]]], src + [c])
  {
    hide Precedes, Pick, Sum;
    var x := parts[c][pos[c]];
    var pos' := pos[c := pos[c] + 1];
    SumOneMore(pos, c);
    forall d | 0 <= d < |parts| ensures pos'[d] <= |parts[d]| && Pick(out + [x], src + [c], d) == parts[d][..pos'[d]] {
      PickAppend(out, src, x, c, d);
    }
    SortedAppend(o, parts, pos, out, x, c);
    forall i, d | 0 <= i < |out + [x]| && 0 <= d < |parts|
      ensures NoneBeforeFrom(o, parts[d], pos'[d], (out + [x])[i])
    {
      assert i < |out| ==> NoneBeforeFrom(o, parts[d], pos[d], out[i]);
      assert NoneBeforeFrom(o, parts[d], pos[d], x);
    }
  }

  lemma SortedAppend(o: Order, parts: seq<seq<nat>>, pos: seq<nat>, out: seq<nat>, x: nat, c: nat)
    requires |pos| == |parts| && c < |parts| && pos[c] < |parts[c]| && x == parts[c][pos[c]] && Sorted(o, out)
    requires forall i, d :: 0 <= i < |out| && 0 <= d < |parts| ==> NoneBeforeFrom(o, parts[d], pos[d], out[i])
    ensures Sorted(o, out + [x])
  {
    hide Precedes;
    forall i | 0 <= i < |out| ensures !Precedes(o, x, out[i]) {
      assert NoneBeforeFrom(o, parts[c], pos[c], out[i]);
    }
  }

  /** When as many elements are out as there are, the result is a sorted merge of the components. */
  lemma AllMerged(o: Order, parts: seq<seq<nat>>, pos: seq<nat>, out: seq<nat>, src: seq<nat>)
    requires Merged(o, parts, pos, out, src) && |out| == Sum(Sizes(parts))
    ensures IsSortedMerge(o, parts, out)
  {
    hide Precedes, Pick, Sum, Sorted;
    SumBelow(pos, Sizes(parts));
    forall c | 0 <= c < |parts| ensures Pick(out, src, c) == parts[c] {
      assert pos[c] == Sizes(parts)[c];
    }
    assert Interleaves(parts, out, src);
  }

  /** A sorted merge holds every element of every component as often as they do. */
  lemma MergeKeepsElements(o: Order, parts: seq<seq<nat>>, out: seq<nat>)
    requires IsSortedMerge(o, parts, out)
    ensures multiset(out) == Union(parts)
  {
    var src :| Interleaves(parts, out, src);
    InterleavingUnion(parts, out, src);
  }

  // By the length of out: its last element is the last one of its component.
  lemma {:induction false} InterleavingUnion(parts: seq<seq<nat>>, out: seq<nat>, src: seq<nat>)
    requires Interleaves(parts, out, src)
    ensures multiset(out) == Union(parts)
    decreases |out|
  {
    if out == [] {
      EmptyUnion(parts);
    } else {
      var n := |out| - 1;
      var c, x := src[n], out[n];
      var less := parts[c := Pick(out[..n], src[..n], c)];
      WithoutLast(parts, out, src);
      assert out == out[..n] + [x];
      hide *;
      InterleavingUnion(less, out[..n], src[..n]);
      UnionOneMore(less, c, x);
    }
  }

  lemma WithoutLast(parts: seq<seq<nat>>, out: seq<nat>, src: seq<nat>)
    requires Interleaves(parts, out, src) && out != []
    ensures var n := |out| - 1;
            var less := parts[src[n] := Pick(out[..n], src[..n], src[n])];
            Interleaves(less, out[..n], src[..n]) && less[src[n] := less[src[n]] + [out[n]]] == parts
  {
    var n := |out| - 1;
    var c, x := src[n], out[n];
    assert out[..n] + [x] == out && src[..n] + [c] == src;
    var less := parts[c := Pick(out[..n], src[..n], c)];
    hide Pick;
    forall d | 0 <= d < |less| ensures Pick(out[..n], src[..n], d) == less[d] {
      PickAppend(out[..n], src[..n], x, c, d);
    }
    PickAppend(out[..n], src[..n], x, c, c);
  }

  lemma {:induction false} EmptyUnion(parts: seq<seq<nat>>)
    requires forall c :: 0 <= c < |parts| ==> parts[c] == []
    ensures Union(parts) == multiset{}
  {
    if parts != [] {
      EmptyUnion(parts[..|parts| - 1]);
    }
  }

  lemma {:induction false} UnionOneMore(parts: seq<seq<nat>>, c: nat, x: nat)
    requires c < |parts|
    ensures Union(parts[c := parts[c] + [x]]) == Union(parts) + multiset{x}
  {
    var more, n := parts[c := parts[c] + [x]], |parts| - 1;
    if c < n {
      UnionOneMore(parts[..n], c, x);
      assert more[..n] == parts[..n][c := parts[c] + [x]];
    } else {
      assert more[..n] == parts[..n];
    }
  }

  // -------------------------------------------------------- filling the cache

  // The iterators stand at pos, at most one for each component and one for each that is not empty.
  ghost predicate Linked(its: seq<IndexIterator>, owner: map<IndexIterator, nat>, parts: seq<seq<nat>>, pos: seq<nat>)
    reads its
  {
    && |pos| == |parts|
    && (forall it :: it in its ==>
          it in owner && owner[it] < |parts| && it.structures == parts[owner[it]] && it.pos == pos[owner[it]])
    && (forall a, b :: a in its && b in its && a != b ==> owner[a] != owner[b])
    && (forall c :: 0 <= c < |parts| && parts[c] != [] ==> HasIterator(its, owner, c))
  }

  ghost predicate HasIterator(its: seq<IndexIterator>, owner: map<IndexIterator, nat>, c: int) {
    exists it :: it in its && it in owner && owner[it] == c
  }

  // The components are sorted, and a structure is in one component at most.
  ghost predicate PartsOK(o: Order, parts: seq<seq<nat>>) {
    && OrderOK(o)
    && (forall c :: 0 <= c < |parts| ==> Sorted(o, parts[c]) && 0 !in parts[c])
    && (forall c, d, x :: 0 <= c < d < |parts| && x in parts[c] ==> x !in parts[d])
  }

  // The state of the merge with i cells filled.
  ghost predicate Merging(o: Order, its: seq<IndexIterator>, owner: map<IndexIterator, nat>, parts: seq<seq<nat>>,
                          pos: seq<nat>, src: seq<nat>, cache: seq<nat>, i: nat)
    reads its
  {
    && PartsOK(o, parts) && IteratorsOK(o, its) && Linked(its, owner, parts, pos)
    && i <= |cache| == Sum(Sizes(parts)) && Merged(o, parts, pos, cache[..i], src)
  }

  // No iterator stands before the first one.
  ghost predicate FirstIsLeast(o: Order, heads: seq<nat>) {
    forall j :: 0 < j < |heads| ==> !HeadLess(o, heads[j], heads[0])
  }

  lemma NothingLeftPrecedes(o: Order, its: seq<IndexIterator>, owner: map<IndexIterator, nat>, parts: seq<seq<nat>>,
                            pos: seq<nat>, d: nat)
    requires PartsOK(o, parts) && IteratorsOK(o, its) && Linked(its, owner, parts, pos) && d < |parts|
    requires |its| > 0 && its[0].IsValid() && FirstIsLeast(o, Heads(its))
    ensures NoneBeforeFrom(o, parts[d], pos[d], Head(its[0]))
  {
    hide Precedes, Ties;
    assert its[0] in its;
    var x := Head(its[0]);
    if pos[d] < |parts[d]| {
      assert HasIterator(its, owner, d);
      var it :| it in its && it in owner && owner[it] == d;
      var j :| 0 <= j < |its| && its[j] == it;
      var y := Head(it);
      assert y == parts[d][pos[d]] == Heads(its)[j];
      IsTotalPreorder(o, x, y, x);
      IsTotalPreorder(o, x, x, x);
      assert !Precedes(o, y, x);
      forall k | pos[d] <= k < |parts[d]| ensures !Precedes(o, parts[d][k], x) {
        NoneBefore(o, y, parts[d][k], x);
      }
    }
  }

  lemma MergeMoves(o: Order, parts: seq<seq<nat>>, pos: seq<nat>, src: seq<nat>, cache: seq<nat>, i: nat, c: nat)
    requires i <= |cache| == Sum(Sizes(parts)) && Merged(o, parts, pos, cache[..i], src)
    requires c < |parts| && pos[c] < |parts[c]|
    requires forall d :: 0 <= d < |parts| ==> NoneBeforeFrom(o, parts[d], pos[d], parts[c][pos[c]])
    ensures i < |cache|
    ensures Merged(o, parts, pos[c := pos[c] + 1], cache[i := parts[c][pos[c]]][..i + 1], src + [c])
  {
    hide Precedes, Pick, Sorted, Sum;
    MergeNext(o, parts, pos, cache[..i], src, c);
    var pos' := pos[c := pos[c] + 1];
    assert Sum(pos') == i + 1;
    SumBelow(pos', Sizes(parts));
    assert cache[i := parts[c][pos[c]]][..i + 1] == cache[..i] + [parts[c][pos[c]]];
  }

  // No structure is left in the heads.
  ghost predicate NothingLeft(heads: seq<nat>) {
    forall j :: 0 <= j < |heads| ==> heads[j] == 0
  }

  lemma LeastOfTwo(o: Order, its: seq<IndexIterator>)
    requires IteratorsOK(o, its) && |its| >= 2 && its[0].IsValid() && its[1].IsValid()
    requires StrictlyBefore(o, Head(its[0]), Head(its[1])) && HeadsSorted(o, Heads(its)[1..])
    ensures FirstIsLeast(o, Heads(its))
  {
    hide StrictlyBefore;
    assert its[0] in its && its[1] in its;
    var heads := Heads(its);
    HeadOrder(o, heads[0], heads[1], heads[0]);
    forall j | 0 < j < |heads| ensures !HeadLess(o, heads[j], heads[0]) {
      if j > 1 {
        assert heads[1..][j - 1] == heads[j] && heads[1..][0] == heads[1];
        HeadOrder(o, heads[0], heads[1], heads[j]);
      }
    }
  }

  lemma LeastOfOne(o: Order, its: seq<IndexIterator>)
    requires IteratorsOK(o, its) && |its| > 0 && NothingLeft(Heads(its)[1..])
    ensures FirstIsLeast(o, Heads(its))
  {
    var heads := Heads(its);
    forall j | 0 < j < |heads| ensures !HeadLess(o, heads[j], heads[0]) {
      assert heads[1..][j - 1] == 0;
    }
  }

  lemma CacheInBounds(o: Order, its: seq<IndexIterator>, owner: map<IndexIterator, nat>, parts: seq<seq<nat>>,
                      pos: seq<nat>, src: seq<nat>, cache: seq<nat>, i: nat)
    requires Merging(o, its, owner, parts, pos, src, cache, i)
    ensures i <= |cache| && OrderOK(o) && forall it :: it in its ==> it.Valid()
  {
  }

  lemma FirstOfOne(o: Order, its: seq<IndexIterator>, owner: map<IndexIterator, nat>, parts: seq<seq<nat>>,
                   pos: seq<nat>, src: seq<nat>, cache: seq<nat>, i: nat)
    requires Merging(o, its, owner, parts, pos, src, cache, i)
    requires |its| > 0 && NothingLeft(Heads(its)[1..])
    ensures FirstIsLeast(o, Heads(its))
  {
    LeastOfOne(o, its);
  }

  // Two iterators that are valid stand on different structures.
  lemma FirstOfTwo(o: Order, its: seq<IndexIterator>, owner: map<IndexIterator, nat>, parts: seq<seq<nat>>,
                   pos: seq<nat>, src: seq<nat>, cache: seq<nat>, i: nat)
    requires Merging(o, its, owner, parts, pos, src, cache, i)
    requires |its| >= 2 && its[0].IsValid() && its[1].IsValid() && HeadsSorted(o, Heads(its))
    ensures its[0].Valid() && its[1].Valid() && StrictlyBefore(o, its[0].Get(), its[1].Get())
    ensures HeadsSorted(o, Heads(its)[1..])
  {
    hide StrictlyBefore, Precedes, Merged;
    var a, b := its[0], its[1];
    assert a in its && b in its && owner[a] != owner[b];
    var heads := Heads(its);
    assert Head(a) in a.structures && Head(b) in b.structures;
    StrictlyBeforeIsStrictTotalOrder(o, heads[0], heads[1], heads[0]);
    assert !HeadLess(o, heads[1], heads[0]);
    forall j, k | 0 <= j < k < |heads[1..]| ensures !HeadLess(o, heads[1..][k], heads[1..][j]) {
      assert !HeadLess(o, heads[k + 1], heads[j + 1]);
    }
  }

  lemma RunContinues(o: Order, its: seq<IndexIterator>, owner: map<IndexIterator, nat>, parts: seq<seq<nat>>,
                     pos: seq<nat>, src: seq<nat>, cache: seq<nat>, i: nat)
    requires Merging(o, its, owner, parts, pos, src, cache, i)
    requires |its| >= 2 && its[0].Valid() && its[1].Valid() && its[0].IsValid() && its[1].IsValid()
    requires StrictlyBefore(o, its[0].Get(), its[1].Get()) && HeadsSorted(o, Heads(its)[1..])
    ensures FirstIsLeast(o, Heads(its))
  {
    LeastOfTwo(o, its);
  }

  lemma NoneLeft(o: Order, its: seq<IndexIterator>, owner: map<IndexIterator, nat>, parts: seq<seq<nat>>,
                 pos: seq<nat>, src: seq<nat>, cache: seq<nat>, i: nat)
    requires Merging(o, its, owner, parts, pos, src, cache, i)
    requires |its| > 0 ==> !its[0].IsValid() && NothingLeft(Heads(its)[1..])
    ensures i == |cache| && IsSortedMerge(o, parts, cache)
  {
    hide Precedes, Pick;
    var sizes := Sizes(parts);
    forall c | 0 <= c < |parts| ensures pos[c] == |parts[c]| {
      if parts[c] != [] {
        assert HasIterator(its, owner, c);
        var it :| it in its && it in owner && owner[it] == c;
        var j :| 0 <= j < |its| && its[j] == it;
        assert j > 0 ==> Heads(its)[1..][j - 1] == 0;
      }
    }
    assert pos == sizes;
    assert cache[..i] == cache;
    AllMerged(o, parts, pos, cache, src);
  }

  function Resized(s: seq<nat>, n: nat): (r: seq<nat>)
    ensures |r| == n && r[..if n < |s| then n else |s|] == s[..if n < |s| then n else |s|]
  {
    if n <= |s| then s[..n] else s + seq(n - |s|, _ => 0)
  }

  ghost function NoneTaken(n: nat): (pos: seq<nat>)
    ensures |pos| == n && forall c :: 0 <= c < n ==> pos[c] == 0
  {
    seq(n, _ => 0)
  }

  // Iterators for the components before n.
  ghost predicate Collected(o: Order, its: seq<IndexIterator>, owner: map<IndexIterator, nat>, parts: seq<seq<nat>>,
                            n: nat, size: nat)
    reads its
  {
    && PartsOK(o, parts) && n <= |parts| && size == Sum(Sizes(parts[..n]))
    && IteratorsOK(o, its) && (forall it :: it in its ==> it.IsValid())
    && Linked(its, owner, parts[..n], NoneTaken(n))
  }

  lemma CollectedNone(o: Order, parts: seq<seq<nat>>)
    requires PartsOK(o, parts)
    ensures Collected(o, [], map[], parts, 0, 0)
  {
  }

  lemma ComponentOK(o: Order, parts: seq<seq<nat>>, components: seq<OrderedSingleIndex>, c: nat)
    requires PartsOK(o, parts) && |parts| == |components| && c < |parts|
    requires components[c].keys == o.keys && components[c].structures == parts[c]
    ensures components[c].Valid(o)
  {
  }

  lemma SizesAppend(parts: seq<seq<nat>>, n: nat)
    requires n < |parts|
    ensures Sum(Sizes(parts[..n + 1])) == Sum(Sizes(parts[..n])) + |parts[n]|
  {
    assert Sizes(parts[..n + 1])[..n] == Sizes(parts[..n]);
  }

  lemma CollectedOne(o: Order, its: seq<IndexIterator>, owner: map<IndexIterator, nat>, parts: seq<seq<nat>>,
                     n: nat, size: nat, it: IndexIterator)
    requires Collected(o, its, owner, parts, n, size) && n < |parts| && it !in its
    requires it.Valid() && it.structures == parts[n] && it.pos == 0 && it.IsValid()
    ensures Collected(o, its + [it], owner[it := n], parts, n + 1, size + |parts[n]|)
  {
    hide Sum, Sorted;
    SizesAppend(parts, n);
    forall c | 0 <= c < n + 1 && parts[c] != [] ensures HasIterator(its + [it], owner[it := n], c) {
      if c < n {
        assert parts[..n][c] == parts[c];
        assert HasIterator(its, owner, c);
        var other :| other in its && other in owner && owner[other] == c;
        assert other in its + [it] && owner[it := n][other] == c;
      } else {
        assert it in its + [it] && owner[it := n][it] == c;
      }
    }
  }

  lemma CollectedEmpty(o: Order, its: seq<IndexIterator>, owner: map<IndexIterator, nat>, parts: seq<seq<nat>>,
                       n: nat, size: nat, it: IndexIterator)
    requires Collected(o, its, owner, parts, n, size) && n < |parts|
    requires it.structures == parts[n] && it.pos == 0 && !it.IsValid()
    ensures Collected(o, its, owner, parts, n + 1, size + |parts[n]|)
  {
    hide Sum, Sorted;
    SizesAppend(parts, n);
    forall c | 0 <= c < n + 1 && parts[c] != [] ensures HasIterator(its, owner, c) {
      assert parts[..n][c] == parts[c];
    }
  }

  lemma CollectedAll(o: Order, its: seq<IndexIterator>, owner: map<IndexIterator, nat>, parts: seq<seq<nat>>, size: nat)
    requires Collected(o, its, owner, parts, |parts|, size)
    ensures IteratorsOK(o, its) && (forall it :: it in its ==> it.IsValid())
    ensures size == Sum(Sizes(parts)) && Linked(its, owner, parts, NoneTaken(|parts|))
  {
    assert parts[..|parts|] == parts;
  }

  lemma MergeBegins(o: Order, its: seq<IndexIterator>, owner: map<IndexIterator, nat>, parts: seq<seq<nat>>,
                    cache: seq<nat>, size: nat)
    requires PartsOK(o, parts) && IteratorsOK(o, its) && Linked(its, owner, parts, NoneTaken(|parts|))
    requires size == |cache| == Sum(Sizes(parts))
    ensures Merging(o, its, owner, parts, NoneTaken(|parts|), [], cache, 0)
  {
    NothingMerged(o, parts, NoneTaken(|parts|));
    assert cache[..0] == [];
  }

  lemma NothingBehindOne(its: seq<IndexIterator>)
    requires |its| == 1
    ensures NothingLeft(Heads(its)[1..])
  {
  }

  lemma MergingIterators(o: Order, its: seq<IndexIterator>, owner: map<IndexIterator, nat>, parts: seq<seq<nat>>,
                         pos: seq<nat>, src: seq<nat>, cache: seq<nat>, i: nat)
    requires Merging(o, its, owner, parts, pos, src, cache, i)
    ensures IteratorsOK(o, its)
  {
  }

  // The same iterators in another order.
  ghost predicate SameIterators(its: seq<IndexIterator>, its': seq<IndexIterator>) {
    |its| == |its'| && (forall it :: it in its ==> it in its') && (forall it :: it in its' ==> it in its)
  }

  lemma MergingSorted(o: Order, its: seq<IndexIterator>, its': seq<IndexIterator>, owner: map<IndexIterator, nat>,
                      parts: seq<seq<nat>>, pos: seq<nat>, src: seq<nat>, cache: seq<nat>, i: nat)
    requires Merging(o, its, owner, parts, pos, src, cache, i)
    requires IteratorsOK(o, its') && multiset(its') == multiset(its)
    ensures Merging(o, its', owner, parts, pos, src, cache, i) && SameIterators(its, its')
  {
    hide Merged;
    assert |its'| == |multiset(its')| == |multiset(its)| == |its|;
    forall it ensures it in its <==> it in its' {
      assert it in its <==> it in multiset(its);
      assert it in its' <==> it in multiset(its');
    }
    forall c | 0 <= c < |parts| && parts[c] != [] ensures HasIterator(its', owner, c) {
      assert HasIterator(its, owner, c);
      var it :| it in its && it in owner && owner[it] == c;
      assert it in its';
    }
  }

  lemma SameAgain(its: seq<IndexIterator>, its': seq<IndexIterator>, its'': seq<IndexIterator>)
    requires SameIterators(its, its') && SameIterators(its', its'')
    ensures SameIterators(its, its'')
  {
  }

  lemma FramedBy(its0: seq<IndexIterator>, its: seq<IndexIterator>)
    requires SameIterators(its0, its) && |its| >= 2
    ensures its[0] in its0 && its[1] in its0
  {
    assert its[0] in its && its[1] in its;
  }

  // While cells are empty the first iterator is valid.
  lemma SomeLeft(o: Order, its: seq<IndexIterator>, owner: map<IndexIterator, nat>, parts: seq<seq<nat>>,
                 pos: seq<nat>, src: seq<nat>, cache: seq<nat>, i: nat)
    requires Merging(o, its, owner, parts, pos, src, cache, i) && i < |cache|
    requires HeadsSorted(o, Heads(its))
    ensures |its| > 0 && its[0].Valid() && its[0].IsValid()
  {
    hide Precedes, Pick, Sorted, StrictlyBefore;
    SumBelow(pos, Sizes(parts));
    var c :| 0 <= c < |pos| && pos[c] < Sizes(parts)[c];
    assert HasIterator(its, owner, c);
    var it :| it in its && it in owner && owner[it] == c;
    var j :| 0 <= j < |its| && its[j] == it;
    assert its[0] in its;
    assert Head(it) in it.structures;
    assert j > 0 ==> !HeadLess(o, Heads(its)[j], Heads(its)[0]);
  }

  // Behind an iterator that is not valid none is.
  lemma OthersInvalid(o: Order, its: seq<IndexIterator>, owner: map<IndexIterator, nat>, parts: seq<seq<nat>>,
                      pos: seq<nat>, src: seq<nat>, cache: seq<nat>, i: nat)
    requires Merging(o, its, owner, parts, pos, src, cache, i) && |its| >= 2 && !its[1].IsValid()
    requires HeadsSorted(o, Heads(its))
    ensures NothingLeft(Heads(its)[1..])
  {
    hide Merged, StrictlyBefore;
    var heads := Heads(its);
    forall j | 1 < j < |heads| ensures heads[j] == 0 {
      assert !HeadLess(o, heads[j], heads[1]);
    }
  }

  lemma MergeFull(o: Order, its: seq<IndexIterator>, owner: map<IndexIterator, nat>, parts: seq<seq<nat>>,
                  pos: seq<nat>, src: seq<nat>, cache: seq<nat>, i: nat)
    requires Merging(o, its, owner, parts, pos, src, cache, i) && i == |cache|
    ensures IsSortedMerge(o, parts, cache)
  {
    assert cache[..i] == cache;
    AllMerged(o, parts, pos, cache, src);
  }

  class OrderedCompositeIndex {
    const tyType: nat
    const keys: seq<Key>
    var components: seq<OrderedSingleIndex>
    var cache: seq<nat>

    constructor (tyType: nat, keys: seq<Key>)
      ensures this.tyType == tyType && this.keys == keys && components == [] && cache == []
    {
      this.tyType, this.keys, components, cache := tyType, keys, [], [];
    }

    method AddComponent(index: OrderedSingleIndex)
      modifies this`components
      ensures components == old(components) + [index]
    {
      components := components + [index];
    }

    ghost function Parts(): (parts: seq<seq<nat>>)
      reads this`components, components
      ensures |parts| == |components| && forall c :: 0 <= c < |components| ==> parts[c] == components[c].structures
    {
      var all := components;
      seq(|all|, c requires 0 <= c < |all| reads all => all[c].structures)
    }

    // Writes the next structure of the first iterator to the cache.
    method Emit(order: Order, i: nat, it: IndexIterator, ghost its: seq<IndexIterator>,
                ghost owner: map<IndexIterator, nat>,
                ghost parts: seq<seq<nat>>, ghost pos: seq<nat>, ghost src: seq<nat>)
      returns (ghost pos': seq<nat>, ghost src': seq<nat>)
      requires Merging(order, its, owner, parts, pos, src, cache, i)
      requires |its| > 0 && it == its[0] && it.IsValid() && FirstIsLeast(order, Heads(its))
      modifies this`cache, it
      ensures Merging(order, its, owner, parts, pos', src', cache, i + 1)
      ensures |cache| == |old(cache)|
      ensures it.pos == old(it.pos) + 1 && Heads(its)[1..] == old(Heads(its)[1..])
    {
      hide Merged, FirstIsLeast, Sum;
      assert it in its;
      ghost var c := owner[it];
      forall d | 0 <= d < |parts| ensures NoneBeforeFrom(order, parts[d], pos[d], Head(its[0])) {
        NothingLeftPrecedes(order, its, owner, parts, pos, d);
      }
      MergeMoves(order, parts, pos, src, cache, i, c);
      cache := cache[i := it.Get()];
      it.MoveToNext();
      pos', src' := pos[c := pos[c] + 1], src + [c];
    }

    // Writes all structures of the first iterator, the only one that is left.
    method Drain(order: Order, start: nat, it: IndexIterator, ghost its: seq<IndexIterator>,
                 ghost owner: map<IndexIterator, nat>,
                 ghost parts: seq<seq<nat>>, ghost pos: seq<nat>, ghost src: seq<nat>) returns (i: nat)
      requires Merging(order, its, owner, parts, pos, src, cache, start)
      requires |its| > 0 && it == its[0] && NothingLeft(Heads(its)[1..])
      modifies this`cache, it
      ensures IsSortedMerge(order, parts, cache)
      ensures i == |cache| == |old(cache)|
    {
      hide *;
      ghost var pos', src' := pos, src;
      i := start;
      CacheInBounds(order, its, owner, parts, pos', src', cache, i);
      while it.IsValid()
        invariant Merging(order, its, owner, parts, pos', src', cache, i)
        invariant i <= |cache| == |old(cache)| && NothingLeft(Heads(its)[1..])
        decreases |cache| - i
      {
        FirstOfOne(order, its, owner, parts, pos', src', cache, i);
        pos', src' := Emit(order, i, it, its, owner, parts, pos', src');
        i := i + 1;
        CacheInBounds(order, its, owner, parts, pos', src', cache, i);
      }
      NoneLeft(order, its, owner, parts, pos', src', cache, i);
    }

    // Writes structures of the first iterator for as long as they come before the second one.
    method EmitRun(order: Order, start: nat, it: IndexIterator, next: IndexIterator, ghost its: seq<IndexIterator>,
                   ghost owner: map<IndexIterator, nat>, ghost parts: seq<seq<nat>>,
                   ghost pos: seq<nat>, ghost src: seq<nat>)
      returns (i: nat, ghost pos': seq<nat>, ghost src': seq<nat>)
      requires Merging(order, its, owner, parts, pos, src, cache, start)
      requires |its| >= 2 && it == its[0] && next == its[1] && it.IsValid() && next.IsValid()
      requires HeadsSorted(order, Heads(its))
      modifies this`cache, it
      ensures Merging(order, its, owner, parts, pos', src', cache, i)
      ensures start < i <= |cache| == |old(cache)|
    {
      hide *;
      i, pos', src' := start, pos, src;
      CacheInBounds(order, its, owner, parts, pos', src', cache, i);
      FirstOfTwo(order, its, owner, parts, pos', src', cache, i);
      var c := CompareWithoutEquality(order, it.Get(), next.Get());
      while it.IsValid() && c > 0
        invariant Merging(order, its, owner, parts, pos', src', cache, i)
        invariant start <= i <= |cache| == |old(cache)| && (i == start ==> it.IsValid() && c > 0)
        invariant next.Valid() && next.IsValid() && HeadsSorted(order, Heads(its)[1..])
        invariant it.IsValid() ==> it.Valid() && (c > 0 <==> StrictlyBefore(order, it.Get(), next.Get()))
        decreases |cache| - i
      {
        RunContinues(order, its, owner, parts, pos', src', cache, i);
        pos', src' := Emit(order, i, it, its, owner, parts, pos', src');
        i := i + 1;
        CacheInBounds(order, its, owner, parts, pos', src', cache, i);
        if it.IsValid() {
          c := CompareWithoutEquality(order, it.Get(), next.Get());
        }
      }
    }

    // One iterator for each component that is not empty.
    method CollectIterators(order: Order)
      returns (its: seq<IndexIterator>, uiSize: nat, ghost owner: map<IndexIterator, nat>)
      requires PartsOK(order, Parts()) && order.keys == keys && forall c :: c in components ==> c.keys == keys
      ensures fresh(its) && IteratorsOK(order, its) && (forall it :: it in its ==> it.IsValid())
      ensures uiSize == Sum(Sizes(Parts()))
      ensures Linked(its, owner, Parts(), NoneTaken(|components|))
    {
      hide *;
      its, uiSize, owner := [], 0, map[];
      CollectedNone(order, Parts());
      for c := 0 to |components|
        invariant fresh(its)
        invariant Collected(order, its, owner, Parts(), c, uiSize)
      {
        ghost var its0, owner0, size0 := its, owner, uiSize;
        uiSize := uiSize + |components[c].structures|;
        ComponentOK(order, Parts(), components, c);
        var it := components[c].CreateIterator(order);
        it.MoveToFirst();
        if it.IsValid() {
          its, owner := its + [it], owner[it := c];
          CollectedOne(order, its0, owner0, Parts(), c, size0, it);
        } else {
          CollectedEmpty(order, its0, owner0, Parts(), c, size0, it);
        }
      }
      CollectedAll(order, its, owner, Parts(), uiSize);
    }

    /** clearAndFillCache: the cache becomes a sorted merge of all components. */
    method ClearAndFillCache(order: Order)
      requires PartsOK(order, Parts()) && order.keys == keys && forall c :: c in components ==> c.keys == keys
      modifies this`cache
      ensures IsSortedMerge(order, Parts(), cache)
    {
      hide *;
      ghost var parts := Parts();
      var its, uiSize, owner := CollectIterators(order);
      cache := Resized(cache, uiSize);
      ghost var pos, src := NoneTaken(|components|), [];
      MergeBegins(order, its, owner, parts, cache, uiSize);
      if |its| == 0 {
        NoneLeft(order, its, owner, parts, pos, src, cache, 0);
        return;
      }
      if |its| == 1 {
        NothingBehindOne(its);
        var i := Drain(order, 0, its[0], its, owner, parts, pos, src);
      } else {
        FillByMerging(order, its, uiSize, owner, parts, pos);
      }
    }

    // The branch for several iterators.
    method FillByMerging(order: Order, its0: seq<IndexIterator>, uiSize: nat, ghost owner: map<IndexIterator, nat>,
                         ghost parts: seq<seq<nat>>, ghost pos0: seq<nat>)
      requires Merging(order, its0, owner, parts, pos0, [], cache, 0) && uiSize == |cache| && |its0| >= 2
      modifies this`cache, its0
      ensures IsSortedMerge(order, parts, cache)
    {
      hide *;
      ghost var pos, src: seq<nat> := pos0, [];
      var iterators := new IndexIterator[|its0|](j requires 0 <= j < |its0| => its0[j]);
      assert iterators[..] == its0;
      var i := 0;
      MergingIterators(order, iterators[..], owner, parts, pos, src, cache, i);
      BubbleSortIterators(iterators, order);
      MergingSorted(order, its0, iterators[..], owner, parts, pos, src, cache, i);
      while i < uiSize
        invariant Merging(order, iterators[..], owner, parts, pos, src, cache, i)
        invariant HeadsSorted(order, Heads(iterators[..]))
        invariant i <= uiSize == |cache| && SameIterators(its0, iterators[..])
        decreases uiSize - i
      {
        ghost var its := iterators[..];
        SomeLeft(order, its, owner, parts, pos, src, cache, i);
        FramedBy(its0, its);
        if iterators[1].IsValid() {
          i, pos, src := EmitRun(order, i, iterators[0], iterators[1], its, owner, parts, pos, src);
          MergingIterators(order, its, owner, parts, pos, src, cache, i);
          BubbleSortIterators(iterators, order);
          MergingSorted(order, its, iterators[..], owner, parts, pos, src, cache, i);
          SameAgain(its0, its, iterators[..]);
        } else {
          OthersInvalid(order, its, owner, parts, pos, src, cache, i);
          i := Drain(order, i, iterators[0], its, owner, parts, pos, src);
          return;
        }
      }
      MergeFull(order, iterators[..], owner, parts, pos, src, cache, i);
    }
  }
}
