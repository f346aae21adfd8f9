/**
 The index of one exact type: a vector kept sorted by the comparator, and the
 iterator over such a vector.
 */
module SingleIndex {
  import opened IndexComparator

  ghost predicate Sorted(o: Order, s: seq<nat>) {
    forall i, j :: 0 <= i < j < |s| ==> !Precedes(o, s[j], s[i])
  }

  // The elements before k precede fs, the others do not.
  ghost predicate IsLowerBound(o: Order, s: seq<nat>, fs: nat, k: int) {
    && 0 <= k <= |s|
    && (forall i :: 0 <= i < k ==> Precedes(o, s[i], fs))
    && (forall i :: k <= i < |s| ==> !Precedes(o, s[i], fs))
  }

  /** std::lower_bound: the first place whose element does not precede fs, by halving. */
  method LowerBound(o: Order, s: seq<nat>, fs: nat) returns (first: nat)
    requires OrderOK(o) && Sorted(o, s)
    ensures IsLowerBound(o, s, fs, first)
  {
    var count := |s|;
    first := 0;
    while count > 0
      invariant 0 <= count && first + count <= |s|
      invariant forall i :: 0 <= i < first ==> Precedes(o, s[i], fs)
      invariant forall i :: first + count <= i < |s| ==> !Precedes(o, s[i], fs)
      decreases count
    {
      var step := count / 2;
      var mid := first + step;
      var c := Compare(o, s[mid], fs);
      if c > 0 {
        forall i | 0 <= i <= mid ensures Precedes(o, s[i], fs) {
          NoneAfter(o, s[mid], s[i], fs);
        }
        first, count := mid + 1, count - (step + 1);
      } else {
        forall i | mid <= i < |s| ensures !Precedes(o, s[i], fs) {
          NoneBefore(o, s[mid], s[i], fs);
        }
        count := step;
      }
    }
  }

  lemma NoneAfter(o: Order, b: nat, a: nat, c: nat)
    requires Precedes(o, b, c) && (a == b || !Precedes(o, b, a))
    ensures Precedes(o, a, c)
  {
    IsTotalPreorder(o, c, a, b);
    IsTotalPreorder(o, a, c, b);
    IsTotalPreorder(o, a, b, c);
    if !Precedes(o, a, c) && a != b {
      if Ties(o, a, c) {
        TiesShareOrder(o, a, c, b);
      } else {
        PrecedesTransitive(o, b, c, a);
      }
    }
  }

  lemma NoneBefore(o: Order, b: nat, a: nat, c: nat)
    requires !Precedes(o, b, c) && (a == b || !Precedes(o, a, b))
    ensures !Precedes(o, a, c)
  {
    IsTotalPreorder(o, c, b, a);
  }

  // ----------------------------------------------------- adding, removing

  // fs goes to its lower bound if it precedes the last element, and to the end otherwise.
  ghost predicate IsInsertion(o: Order, before: seq<nat>, fs: nat, after: seq<nat>) {
    exists k :: InsertedAt(o, before, fs, after, k)
  }

  ghost predicate InsertedAt(o: Order, before: seq<nat>, fs: nat, after: seq<nat>, k: int) {
    && 0 <= k <= |before| && after == before[..k] + [fs] + before[k..]
    && if |before| > 0 && Precedes(o, fs, before[|before| - 1]) then IsLowerBound(o, before, fs, k) else k == |before|
  }

  // Where fs is put it stands in order with every element.
  lemma InsertionFits(o: Order, before: seq<nat>, fs: nat, after: seq<nat>, k: nat, i: nat)
    requires Sorted(o, before) && InsertedAt(o, before, fs, after, k) && i < |before|
    ensures if i < k then !Precedes(o, fs, before[i]) else !Precedes(o, before[i], fs)
  {
    hide Precedes, Ties;
    IsTotalPreorder(o, fs, before[i], fs);
    if k == |before| {
      var last := before[|before| - 1];
      IsTotalPreorder(o, before[i], last, fs);
      IsTotalPreorder(o, fs, last, fs);
    }
  }

  // A sequence stays sorted when an element gets in that fits.
  lemma SortedWith(o: Order, before: seq<nat>, fs: nat, k: nat)
    requires Sorted(o, before) && k <= |before|
    requires forall i :: 0 <= i < |before| ==>
               if i < k then !Precedes(o, fs, before[i]) else !Precedes(o, before[i], fs)
    ensures Sorted(o, before[..k] + [fs] + before[k..])
  {
    hide Precedes;
    var after := before[..k] + [fs] + before[k..];
    forall i, j | 0 <= i < j < |after| ensures !Precedes(o, after[j], after[i]) {
      assert after[i] == if i < k then before[i] else if i == k then fs else before[i - 1];
      assert after[j] == if j < k then before[j] else if j == k then fs else before[j - 1];
    }
  }

  /** Adding keeps the order and adds one element. */
  lemma InsertionKeepsOrder(o: Order, before: seq<nat>, fs: nat, after: seq<nat>)
    requires Sorted(o, before) && IsInsertion(o, before, fs, after)
    ensures Sorted(o, after) && multiset(after) == multiset(before) + multiset{fs}
  {
    hide Sorted, Precedes, IsLowerBound;
    var k :| InsertedAt(o, before, fs, after, k);
    assert before == before[..k] + before[k..];
    forall i | 0 <= i < |before| ensures if i < k then !Precedes(o, fs, before[i]) else !Precedes(o, before[i], fs) {
      InsertionFits(o, before, fs, after, k, i);
    }
    SortedWith(o, before, fs, k);
  }

  // The element at the lower bound of fs is gone, whatever it is.
  ghost predicate IsRemoval(o: Order, before: seq<nat>, fs: nat, after: seq<nat>) {
    exists k :: RemovedAt(o, before, fs, after, k)
  }

  ghost predicate RemovedAt(o: Order, before: seq<nat>, fs: nat, after: seq<nat>, k: int) {
    && IsLowerBound(o, before, fs, k)
    && after == if k < |before| then before[..k] + before[k + 1..] else before
  }

  // The first element that ties with fs.
  ghost predicate FirstTie(o: Order, s: seq<nat>, fs: nat, k: int) {
    0 <= k < |s| && Ties(o, fs, s[k]) && forall i :: 0 <= i < k ==> !Ties(o, fs, s[i])
  }

  ghost predicate IsFound(o: Order, s: seq<nat>, fs: nat, r: nat) {
    if r == 0 then forall i :: 0 <= i < |s| ==> !Ties(o, fs, s[i]) else exists k :: FirstTie(o, s, fs, k) && s[k] == r
  }

  lemma LowerBoundIsFirstTie(o: Order, s: seq<nat>, fs: nat, k: int)
    requires Sorted(o, s) && IsLowerBound(o, s, fs, k)
    ensures forall i :: 0 <= i < k ==> !Ties(o, fs, s[i])
    ensures k < |s| && Ties(o, fs, s[k]) ==> FirstTie(o, s, fs, k)
    ensures k < |s| && !Ties(o, fs, s[k]) ==> forall i :: 0 <= i < |s| ==> !Ties(o, fs, s[i])
  {
    forall i | 0 <= i < |s| && Ties(o, fs, s[i]) ensures k <= i && Ties(o, fs, s[k]) {
      IsTotalPreorder(o, fs, s[i], fs);
      if k < i && !Ties(o, fs, s[k]) {
        IsTotalPreorder(o, fs, s[k], fs);
        TiesShareOrder(o, fs, s[i], s[k]);
      }
    }
  }

  // One occurrence of the element at k is gone: the first one that ties with fs, or when none does, one that
  // fs precedes.
  ghost predicate TakesOut(o: Order, before: seq<nat>, fs: nat, after: seq<nat>, k: int) {
    && 0 <= k < |before| && multiset(after) == multiset(before) - multiset{before[k]}
    && if Ties(o, fs, before[k]) then FirstTie(o, before, fs, k)
       else Precedes(o, fs, before[k]) && forall i :: 0 <= i < |before| ==> !Ties(o, fs, before[i])
  }

  /**
   Removing keeps the order. If some element ties with fs the first such
   element goes; otherwise the first element that fs precedes goes, so that
   another structure is lost; only at the end of the order nothing happens.
   */
  lemma RemovalTakesLowerBound(o: Order, before: seq<nat>, fs: nat, after: seq<nat>)
    requires Sorted(o, before) && IsRemoval(o, before, fs, after)
    ensures Sorted(o, after)
    ensures after == before <==> forall i :: 0 <= i < |before| ==> Precedes(o, before[i], fs)
    ensures after != before ==> exists k :: RemovedAt(o, before, fs, after, k) && TakesOut(o, before, fs, after, k)
  {
    hide Precedes, Ties;
    var k :| RemovedAt(o, before, fs, after, k);
    LowerBoundIsFirstTie(o, before, fs, k);
    if k < |before| {
      SortedWithout(o, before, k);
      assert before == before[..k] + [before[k]] + before[k + 1..];
      assert |after| < |before|;
      assert !Precedes(o, before[k], fs);
      IsTotalPreorder(o, fs, before[k], fs);
    }
  }

  lemma SortedWithout(o: Order, s: seq<nat>, k: nat)
    requires Sorted(o, s) && k < |s|
    ensures Sorted(o, s[..k] + s[k + 1..])
  {
    hide Precedes;
  }

  /** Removing takes out exactly one occurrence of fs if and only if find returns fs itself. */
  lemma RemovalIsExactIffFound(o: Order, before: seq<nat>, fs: nat, after: seq<nat>, found: nat)
    requires Sorted(o, before) && IsRemoval(o, before, fs, after) && fs != 0 && 0 !in before
    requires IsFound(o, before, fs, found)
    ensures found == fs <==> fs in before && multiset(after) == multiset(before) - multiset{fs}
  {
    var k :| RemovedAt(o, before, fs, after, k);
    LowerBoundIsFirstTie(o, before, fs, k);
    IsTotalPreorder(o, fs, fs, fs);
    hide Precedes, Ties, Sorted, IsLowerBound;
    if k < |before| && Ties(o, fs, before[k]) {
      assert FirstTie(o, before, fs, k);
      assert found == before[k];
      TakenOut(before, k, after, fs);
    } else {
      assert forall i :: 0 <= i < |before| ==> !Ties(o, fs, before[i]);
      assert fs !in before;
      assert found == 0;
    }
  }

  lemma TakenOut(before: seq<nat>, k: nat, after: seq<nat>, fs: nat)
    requires k < |before| && after == before[..k] + before[k + 1..]
    ensures before[k] == fs <==> fs in before && multiset(after) == multiset(before) - multiset{fs}
  {
    assert before == before[..k] + [before[k]] + before[k + 1..];
    assert multiset(after) == multiset(before) - multiset{before[k]};
    if before[k] != fs && fs in before {
      assert multiset(after)[fs] == multiset(before)[fs] > 0;
    }
  }

  /** A structure that is not in the index makes remove take out another one. */
  lemma RemovingAnAbsentStructure() returns (o: Order, before: seq<nat>, fs: nat, after: seq<nat>)
    ensures OrderOK(o) && Sorted(o, before) && IsRemoval(o, before, fs, after) && IsFound(o, before, fs, 0)
    ensures fs !in before && |before| == 1 && after == []
  {
    var heap := HeapView([0, 1, 10, 1, 20], [], [], [], map[]);
    var key := Key(1, Integer, false);
    o := Order([key], heap);
    before, fs, after := [3], 1, [];
    assert ValueOf(o, key, 1) == Number(10) && ValueOf(o, key, 3) == Number(20);
    assert DecidedAt(o, 1, 3, 0);
    IsTotalPreorder(o, 1, 3, 1);
    assert IsLowerBound(o, [3], 1, 0);
    assert RemovedAt(o, [3], 1, [], 0);
    assert IsFound(o, [3], 1, 0);
  }

  /**
   The structures of one type for one index. The comparator reads the heap as it
   is when a method is called; the index is valid for a comparator if its
   structures stand in order.
   */
  class OrderedSingleIndex {
    const tyType: nat
    const keys: seq<Key>
    var structures: seq<nat>

    ghost predicate Valid(order: Order)
      reads `structures
    {
      OrderOK(order) && order.keys == keys && Sorted(order, structures) && 0 !in structures
    }

    constructor (tyType: nat, keys: seq<Key>)
      ensures this.tyType == tyType && this.keys == keys && structures == []
    {
      this.tyType, this.keys, structures := tyType, keys, [];
    }

    /** add: structures that come in order are appended, others are inserted. */
    method Add(order: Order, fs: nat)
      requires Valid(order) && fs != 0
      modifies `structures
      ensures Valid(order) && IsInsertion(order, old(structures), fs, structures)
      ensures multiset(structures) == multiset(old(structures)) + multiset{fs}
    {
      ghost var before := structures;
      if |structures| > 0 {
        var lastFS := structures[|structures| - 1];
        var comp := Compare(order, fs, lastFS);
        if comp > 0 {
          var k := LowerBound(order, structures, fs);
          structures := structures[..k] + [fs] + structures[k..];
          assert InsertedAt(order, before, fs, structures, k);
          InsertionKeepsOrder(order, before, fs, structures);
          return;
        }
      }
      structures := structures + [fs];
      assert structures == before[..|before|] + [fs] + before[|before|..];
      assert InsertedAt(order, before, fs, structures, |before|);
      InsertionKeepsOrder(order, before, fs, structures);
    }

    /** remove: erases the element at the lower bound. */
    method Remove(order: Order, fs: nat)
      requires Valid(order)
      modifies `structures
      ensures Valid(order) && IsRemoval(order, old(structures), fs, structures)
    {
      ghost var before := structures;
      var k := LowerBound(order, structures, fs);
      if k < |structures| {
        structures := structures[..k] + structures[k + 1..];
      }
      assert RemovedAt(order, before, fs, structures, k);
      RemovalTakesLowerBound(order, before, fs, structures);
    }

    /** find: the first element that ties, or the invalid structure. */
    method Find(order: Order, fs: nat) returns (r: nat)
      requires Valid(order)
      ensures IsFound(order, structures, fs, r)
    {
      for i := 0 to |structures|
        invariant forall j :: 0 <= j < i ==> !Ties(order, fs, structures[j])
      {
        var c := Compare(order, fs, structures[i]);
        if c == 0 {
          assert FirstTie(order, structures, fs, i);
          return structures[i];
        }
      }
      r := 0;
    }

    method Reset()
      modifies `structures
      ensures structures == []
    {
      structures := [];
    }

    /** createIterator */
    method CreateIterator(order: Order) returns (it: IndexIterator)
      requires Valid(order)
      ensures fresh(it) && it.Valid() && it.structures == structures && it.order == order && it.hasComparator
      ensures it.pos == |structures|
    {
      it := new IndexIterator(structures, order, true);
    }
  }

  // Where moveTo goes: to fs itself (behind it when there is no comparator), or else to its lower bound.
  ghost predicate IsTarget(o: Order, hasComparator: bool, s: seq<nat>, fs: nat, k: int) {
    if fs in s then
      var step := if hasComparator then 0 else 1;
      && step <= k <= |s| - 1 + step && s[k - step] == fs
      && forall i :: 0 <= i < k - step ==> s[i] != fs
    else if hasComparator then IsLowerBound(o, s, fs, k)
    else k == |s|
  }

  /** An iterator over the vector of an index, which is not changed meanwhile. */
  class IndexIterator {
    const structures: seq<nat>
    const order: Order
    const hasComparator: bool
    var pos: nat

    ghost predicate Valid()
      reads this
    {
      pos <= |structures| && (hasComparator ==> OrderOK(order) && Sorted(order, structures))
    }

    constructor (structures: seq<nat>, order: Order, hasComparator: bool)
      requires hasComparator ==> OrderOK(order) && Sorted(order, structures)
      ensures Valid() && this.structures == structures && this.order == order && this.hasComparator == hasComparator
      ensures pos == |structures|
    {
      this.structures, this.order, this.hasComparator, pos := structures, order, hasComparator, |structures|;
    }

    predicate IsValid()
      reads this
    {
      pos != |structures|
    }

    function Get(): (fs: nat)
      requires Valid() && IsValid()
      reads this
    {
      structures[pos]
    }

    method MoveToFirst()
      requires Valid()
      modifies this
      ensures Valid() && pos == 0
    {
      pos := 0;
    }

    method MoveToLast()
      requires Valid()
      modifies this
      ensures Valid() && pos == if structures == [] then 0 else |structures| - 1
    {
      pos := 0;
      if structures == [] {
        return;
      }
      pos := |structures| - 1;
    }

    // From the first element the iterator leaves the sequence.
    method MoveToPrevious()
      requires Valid() && IsValid()
      modifies this
      ensures Valid() && pos == if old(pos) == 0 then |structures| else old(pos) - 1
    {
      pos := if pos == 0 then |structures| else pos - 1;
    }

    method MoveToNext()
      requires Valid() && IsValid()
      modifies this
      ensures Valid() && pos == old(pos) + 1
    {
      pos := pos + 1;
    }

    /** moveTo: looks for fs itself, then for a place by the comparator; at the end it stays where it was. */
    method MoveTo(fs: nat) returns (ok: bool)
      requires Valid()
      modifies this
      ensures Valid()
      ensures exists k :: IsTarget(order, hasComparator, structures, fs, k)
                       && ok == (k < |structures|) && pos == if ok then k else old(pos)
    {
      var k := FindIdentical(structures, fs);
      if !hasComparator {
        if k < |structures| {
          k := k + 1;
        }
      } else if k == |structures| {
        k := LowerBound(order, structures, fs);
      }
      assert IsTarget(order, hasComparator, structures, fs, k);
      ok := k < |structures|;
      if ok {
        pos := k;
      }
    }
  }

  // std::find
  method FindIdentical(s: seq<nat>, fs: nat) returns (k: nat)
    ensures k <= |s| && forall i :: 0 <= i < k ==> s[i] != fs
    ensures k < |s| ==> s[k] == fs
  {
    k := 0;
    while k < |s| && s[k] != fs
      invariant k <= |s| && forall i :: 0 <= i < k ==> s[i] != fs
    {
      k := k + 1;
    }
  }
}
