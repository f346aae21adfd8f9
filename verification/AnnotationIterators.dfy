/**
 Iterators over an annotation index: the annotations under another one, and
 sequences of annotations that do not overlap.
 */
module AnnotationIterators {
  import opened IndexComparator
  import opened SingleIndex

  // Where structures keep their begin and end positions.
  datatype Spans = Spans(heap: HeapView, beginOffset: nat, endOffset: nat) {
    function Begin(fs: nat): nat {
      Position(heap.Cell(fs + beginOffset))
    }

    function End(fs: nat): nat {
      Position(heap.Cell(fs + endOffset))
    }
  }

  // An integer feature read as an unsigned 64-bit number.
  function Position(c: nat): nat {
    var n := Signed(c, 0x1_0000_0000);
    if n < 0 then n + 0x1_0000_0000_0000_0000 else n
  }

  /** The positions are the integers in the two cells; a negative one counts from the end of 64 bits. */
  lemma PositionsAre(sp: Spans, fs: nat, b: int, e: int)
    requires fs + sp.beginOffset < |sp.heap.cells| && Means(sp.heap.cells[fs + sp.beginOffset], 0x1_0000_0000, b)
    requires fs + sp.endOffset < |sp.heap.cells| && Means(sp.heap.cells[fs + sp.endOffset], 0x1_0000_0000, e)
    ensures sp.Begin(fs) == (if b < 0 then b + 0x1_0000_0000_0000_0000 else b)
    ensures sp.End(fs) == (if e < 0 then e + 0x1_0000_0000_0000_0000 else e)
  {
    SignedMeans(sp.heap.cells[fs + sp.beginOffset], 0x1_0000_0000, b);
    SignedMeans(sp.heap.cells[fs + sp.endOffset], 0x1_0000_0000, e);
  }

  ghost predicate SortedByBegin(sp: Spans, s: seq<nat>) {
    forall i, j :: 0 <= i < j < |s| ==> sp.Begin(s[i]) <= sp.Begin(s[j])
  }

  ghost predicate NoRepeats(s: seq<nat>) {
    forall i, j :: 0 <= i < j < |s| ==> s[i] != s[j]
  }

  // The keys of the built-in annotation index: begin, and then end reversed.
  ghost predicate IsAnnotationOrder(sp: Spans, o: Order) {
    && o.heap == sp.heap && |o.keys| >= 2
    && o.keys[0] == Key(sp.beginOffset, Integer, false) && o.keys[1] == Key(sp.endOffset, Integer, true)
  }

  /** In the order of the annotation index annotations with positions below 2^31 are sorted by begin. */
  lemma AnnotationIndexIsSortedByBegin(sp: Spans, o: Order, s: seq<nat>)
    requires IsAnnotationOrder(sp, o) && Sorted(o, s)
    requires forall fs :: fs in s ==> sp.Begin(fs) < 0x8000_0000
    ensures SortedByBegin(sp, s)
  {
    forall i, j | 0 <= i < j < |s| ensures sp.Begin(s[i]) <= sp.Begin(s[j]) {
      var k := o.keys[0];
      assert s[i] in s && s[j] in s;
      if sp.Begin(s[j]) < sp.Begin(s[i]) {
        assert ValueOf(o, k, s[j]) == Number(Signed(sp.heap.Cell(s[j] + sp.beginOffset), 0x1_0000_0000));
        assert DecidedAt(o, s[j], s[i], 0);
        assert false;
      }
    }
  }

  /** There the structures from the lower bound of an anchor on do not begin before it. */
  lemma LowerBoundBeginsWithin(sp: Spans, o: Order, s: seq<nat>, anchor: nat, k: nat)
    requires IsAnnotationOrder(sp, o) && IsLowerBound(o, s, anchor, k) && k < |s|
    requires sp.Begin(s[k]) < 0x8000_0000 && sp.Begin(anchor) < 0x8000_0000
    ensures sp.Begin(anchor) <= sp.Begin(s[k])
  {
    if sp.Begin(s[k]) < sp.Begin(anchor) {
      assert ValueOf(o, o.keys[0], s[k]) == Number(Signed(sp.heap.Cell(s[k] + sp.beginOffset), 0x1_0000_0000));
      assert DecidedAt(o, s[k], anchor, 0);
      assert false;
    }
  }

  // ------------------------------------------------------------ SubIterator

  class SubIterator {
    const spans: Spans
    const it: IndexIterator
    const begPos: nat
    const endPos: nat
    const anchor: nat

    ghost predicate Valid()
      reads it
    {
      it.Valid() && it.hasComparator && begPos == spans.Begin(anchor)
    }

    // The base iterator is new and stands at its end.
    constructor (spans: Spans, anchor: nat, it: IndexIterator)
      requires it.Valid() && it.hasComparator
      ensures Valid() && this.spans == spans && this.anchor == anchor && this.it == it && endPos == spans.End(anchor)
    {
      this.spans, this.anchor, this.it, begPos, endPos := spans, anchor, it, spans.Begin(anchor), spans.End(anchor);
    }

    // From two positions: the anchor is a new annotation from the first position to the end of all positions.
    constructor Between(spans: Spans, begPos: nat, endPos: nat, anchor: nat, it: IndexIterator)
      requires it.Valid() && it.hasComparator && spans.Begin(anchor) == begPos
      ensures Valid() && this.spans == spans && this.anchor == anchor && this.it == it
      ensures this.begPos == begPos && this.endPos == endPos
    {
      this.spans, this.anchor, this.it, this.begPos, this.endPos := spans, anchor, it, begPos, endPos;
    }

    /** isValid: the base iterator stands on a structure that begins within the span. */
    predicate IsValid()
      requires Valid()
      reads it
    {
      it.IsValid() && begPos <= spans.Begin(it.Get()) < endPos
    }

    function Get(): (fs: nat)
      requires Valid() && IsValid()
      reads it
    {
      it.Get()
    }

    /** moveToFirst: behind the anchor if it is in the index, or to its lower bound; stays if that is the end. */
    method MoveToFirst()
      requires Valid()
      modifies it
      ensures Valid()
      ensures exists k :: IsTarget(it.order, true, it.structures, anchor, k) && StartsAt(k, old(it.pos), it.pos)
    {
      ghost var pos0 := it.pos;
      var ok := it.MoveTo(anchor);
      ghost var k :| IsTarget(it.order, true, it.structures, anchor, k)
                  && ok == (k < |it.structures|) && it.pos == if ok then k else pos0;
      if IsValid() {
        if it.Get() == anchor {
          it.MoveToNext();
        }
      }
      assert StartsAt(k, pos0, it.pos);
    }

    // Where moveToFirst ends up for target k.
    ghost predicate StartsAt(k: int, pos0: nat, pos: nat)
      requires 0 <= k <= |it.structures|
    {
      if k == |it.structures| then anchor !in it.structures ==> pos == pos0
      else pos == if it.structures[k] == anchor && begPos < endPos then k + 1 else k
    }

    /** moveToNext: to the next structure, skipping the anchor. */
    method MoveToNext()
      requires Valid() && IsValid()
      modifies it
      ensures Valid()
      ensures it.pos == old(it.pos) + 1 || (it.pos == old(it.pos) + 2 && it.structures[old(it.pos) + 1] == anchor)
      ensures old(it.pos) + 1 < |it.structures| && it.structures[old(it.pos) + 1] == anchor && begPos < endPos ==>
                it.pos == old(it.pos) + 2
    {
      it.MoveToNext();
      if IsValid() {
        if it.Get() == anchor {
          it.MoveToNext();
        }
      }
    }

    /** moveToPrevious: to the structure before, skipping the anchor. */
    method MoveToPrevious()
      requires Valid() && IsValid()
      modifies it
      ensures Valid()
      ensures var p, n := old(it.pos), |it.structures|;
              if p == 0 then it.pos == n
              else if it.structures[p - 1] == anchor && begPos < endPos then it.pos == if p == 1 then n else p - 2
              else it.pos == p - 1
    {
      it.MoveToPrevious();
      if IsValid() {
        if it.Get() == anchor {
          it.MoveToPrevious();
        }
      }
    }

    /** moveToLast: to the last structure of the forward iteration. */
    method MoveToLast(ghost first: nat)
      requires Valid() && NoRepeats(it.structures) && SortedByBegin(spans, it.structures)
      requires StartsFrom(this, first)
      requires (first == |it.structures| && anchor !in it.structures ==> it.pos == |it.structures|)
      modifies it
      ensures Valid()
      ensures var n := CountUnder(spans, endPos, it.structures, first);
              if n == 0 then !IsValid() else IsValid() && it.pos == first + n - 1
    {
      hide Sorted, Precedes, SortedByBegin, NoRepeats, IsLowerBound, CountUnder, StartsFrom;
      GoToFirst(first);
      ghost var n := CountUnder(spans, endPos, it.structures, first);
      if !IsValid() {
        return;
      }
      var lastValidFS := Get();
      while IsValid()
        invariant Valid() && first <= it.pos <= first + n <= |it.structures| && n > 0
        invariant IsValid() <==> it.pos < first + n
        invariant it.pos > first ==> lastValidFS == it.structures[it.pos - 1]
        decreases first + n - it.pos
      {
        lastValidFS := Get();
        NoAnchorAhead(this, first, it.pos);
        MoveToNext();
        UnderBounds(this, first);
      }
      assert it.structures[first + n - 1] == lastValidFS && lastValidFS in it.structures;
      var ok := it.MoveTo(lastValidFS);
      StandsOn(this, first + n - 1);
      UnderBounds(this, first);
      ghost var last := it.pos;
      if IsValid() {
        if it.Get() == anchor {
          it.MoveToPrevious();
        }
      }
      NoAnchorHere(this, first, last);
    }

    // moveToFirst, in terms of the place where forward iteration starts.
    method GoToFirst(ghost first: nat)
      requires Valid() && NoRepeats(it.structures) && SortedByBegin(spans, it.structures)
      requires StartsFrom(this, first)
      requires (first == |it.structures| && anchor !in it.structures ==> it.pos == |it.structures|)
      modifies it
      ensures Valid()
      ensures if CountUnder(spans, endPos, it.structures, first) == 0 then !IsValid() else IsValid() && it.pos == first
    {
      ghost var pos0 := it.pos;
      MoveToFirst();
      ghost var k :| IsTarget(it.order, true, it.structures, anchor, k) && StartsAt(k, pos0, it.pos);
      if anchor in it.structures {
        assert k == first - 1;
        if begPos < endPos {
          UnderBounds(this, first);
        } else if first < |it.structures| {
          assert spans.Begin(it.structures[first - 1]) <= spans.Begin(it.structures[first]);
        }
      } else {
        LowerBoundUnique(it.order, it.structures, anchor, first, k);
        UnderBounds(this, first);
      }
    }
  }

  // Only one place holds the structure.
  lemma StandsOn(sub: SubIterator, p: nat)
    requires NoRepeats(sub.it.structures) && sub.it.pos < |sub.it.structures|
    requires p < |sub.it.structures| && sub.it.structures[sub.it.pos] == sub.it.structures[p]
    ensures sub.it.pos == p
  {
  }

  lemma LowerBoundUnique(o: Order, s: seq<nat>, fs: nat, k: int, m: int)
    requires IsLowerBound(o, s, fs, k) && IsLowerBound(o, s, fs, m)
    ensures k == m
  {
    var x := if k < m then k else m;
    assert x < |s| ==> (Precedes(o, s[x], fs) <==> x < k);
    assert x < |s| ==> (Precedes(o, s[x], fs) <==> x < m);
  }

  // Forward iteration starts at first: behind the anchor, or at the lower bound of an anchor that is not in the index.
  ghost predicate StartsFrom(sub: SubIterator, first: nat) {
    var s := sub.it.structures;
    if sub.anchor in s then 0 < first <= |s| && s[first - 1] == sub.anchor
    else IsLowerBound(sub.it.order, s, sub.anchor, first) && (first < |s| ==> sub.begPos <= sub.spans.Begin(s[first]))
  }

  // How many structures from first on begin before the end of the span.
  ghost function CountUnder(sp: Spans, endPos: nat, s: seq<nat>, first: nat): (n: nat)
    requires first <= |s|
    ensures first + n <= |s|
    ensures forall i :: first <= i < first + n ==> sp.Begin(s[i]) < endPos
    ensures first + n < |s| ==> sp.Begin(s[first + n]) >= endPos
    decreases |s| - first
  {
    if first < |s| && sp.Begin(s[first]) < endPos then 1 + CountUnder(sp, endPos, s, first + 1) else 0
  }

  // Which places count as valid once iteration has started.
  lemma UnderBounds(sub: SubIterator, first: nat)
    requires sub.Valid() && SortedByBegin(sub.spans, sub.it.structures) && StartsFrom(sub, first) && first <= sub.it.pos
    ensures first <= |sub.it.structures|
    ensures sub.IsValid() <==> sub.it.pos < first + CountUnder(sub.spans, sub.endPos, sub.it.structures, first)
  {
    hide Sorted, Precedes, CountUnder;
    var s, pos := sub.it.structures, sub.it.pos;
    if pos < |s| {
      BeginsWithin(sub, first, pos);
      hide SortedByBegin, StartsFrom;
      BeyondUnder(sub, first);
    }
  }

  lemma BeginsWithin(sub: SubIterator, first: nat, pos: nat)
    requires sub.Valid() && SortedByBegin(sub.spans, sub.it.structures) && StartsFrom(sub, first)
    requires first <= pos < |sub.it.structures|
    ensures sub.begPos <= sub.spans.Begin(sub.it.structures[pos])
  {
    hide Sorted, Precedes;
    var s, sp := sub.it.structures, sub.spans;
    if sub.anchor in s {
      assert sp.Begin(s[first - 1]) <= sp.Begin(s[pos]);
    } else {
      assert first < pos ==> sp.Begin(s[first]) <= sp.Begin(s[pos]);
    }
  }

  // A place that counts as valid is one in the index.
  lemma PlaceOf(sub: SubIterator)
    requires sub.Valid()
    ensures sub.it.Valid() && sub.it.pos <= |sub.it.structures|
    ensures sub.IsValid() ==> sub.it.IsValid() && sub.it.pos < |sub.it.structures|
    ensures sub.IsValid() ==> sub.Get() == sub.it.Get() == sub.it.structures[sub.it.pos]
  {
  }

  // The anchor does not come again.
  lemma NoAnchorHere(sub: SubIterator, first: nat, pos: nat)
    requires NoRepeats(sub.it.structures) && StartsFrom(sub, first) && first <= pos < |sub.it.structures|
    ensures sub.it.structures[pos] != sub.anchor
  {
  }

  lemma NoAnchorAhead(sub: SubIterator, first: nat, pos: nat)
    requires NoRepeats(sub.it.structures) && StartsFrom(sub, first) && first <= pos
    ensures pos + 1 < |sub.it.structures| ==> sub.it.structures[pos + 1] != sub.anchor
  {
  }

  /**
   Forward iteration over a sub-iterator whose anchor is in the index yields
   exactly the structures after the anchor that begin before the end of the
   span, in order; with another anchor, those from its lower bound on.
   */
  method Traverse(sub: SubIterator, ghost first: nat) returns (r: seq<nat>)
    requires sub.Valid() && NoRepeats(sub.it.structures) && SortedByBegin(sub.spans, sub.it.structures)
    requires StartsFrom(sub, first)
    requires first == |sub.it.structures| && sub.anchor !in sub.it.structures ==> sub.it.pos == |sub.it.structures|
    modifies sub.it
    ensures r <= sub.it.structures[first..]
    ensures forall i :: first <= i < |sub.it.structures| ==>
              (i < first + |r| <==> sub.spans.Begin(sub.it.structures[i]) < sub.endPos)
  {
    hide *;
    FirstInBounds(sub, first);
    sub.GoToFirst(first);
    ghost var s, n := sub.it.structures, CountUnder(sub.spans, sub.endPos, sub.it.structures, first);
    r := [];
    BeyondUnder(sub, first);
    while sub.IsValid()
      invariant sub.Valid() && |r| <= n && r == s[first..first + |r|]
      invariant if |r| < n then sub.IsValid() && sub.it.pos == first + |r| else !sub.IsValid()
      decreases n - |r|
    {
      PlaceOf(sub);
      r := r + [sub.Get()];
      NoAnchorAhead(sub, first, sub.it.pos);
      sub.MoveToNext();
      UnderBounds(sub, first);
    }
    assert r == s[first..][..n];
  }

  lemma BeyondUnder(sub: SubIterator, first: nat)
    requires SortedByBegin(sub.spans, sub.it.structures) && first <= |sub.it.structures|
    ensures var s, n := sub.it.structures, CountUnder(sub.spans, sub.endPos, sub.it.structures, first);
            forall i :: first + n <= i < |s| ==> sub.spans.Begin(s[i]) >= sub.endPos
  {
    hide CountUnder;
  }

  /**
   Going back from the first structure leaves the sub-iterator if and only if
   the structure before the anchor begins before the anchor does; otherwise
   the iterator goes on in front of the anchor.
   */
  method BackFromFirst(sub: SubIterator, first: nat)
    requires sub.Valid() && NoRepeats(sub.it.structures) && SortedByBegin(sub.spans, sub.it.structures)
    requires StartsFrom(sub, first) && sub.anchor in sub.it.structures && sub.IsValid() && sub.it.pos == first
    modifies sub.it
    ensures sub.Valid()
    ensures sub.IsValid()
       <==> first >= 2 && sub.spans.Begin(sub.it.structures[first - 2]) == sub.spans.Begin(sub.anchor)
    ensures sub.IsValid() ==> sub.it.pos == first - 2
  {
    var s := sub.it.structures;
    assert sub.spans.Begin(s[first - 1]) <= sub.spans.Begin(s[first]);
    assert first >= 2 ==> sub.spans.Begin(s[first - 2]) <= sub.spans.Begin(s[first - 1]);
    sub.MoveToPrevious();
  }

  // ---------------------------------------------------- unambiguous iteration

  // The places of an unambiguous iteration from p on: each next one is the first that begins at or after the
  // end of the last.
  ghost predicate IsUnambiguous(sp: Spans, s: seq<nat>, picks: seq<nat>) {
    && (forall i :: 0 <= i < |picks| ==> picks[i] < |s|)
    && (forall i :: 0 < i < |picks| ==> IsNextPick(sp, s, picks[i - 1], picks[i]))
  }

  ghost predicate IsNextPick(sp: Spans, s: seq<nat>, p: nat, q: nat)
    requires p < |s|
  {
    && p < q <= |s| && (forall k :: p < k < q ==> sp.Begin(s[k]) < sp.End(s[p]))
    && (q < |s| ==> sp.Begin(s[q]) >= sp.End(s[p]))
  }

  /** The structures of an unambiguous iteration do not overlap. */
  lemma {:induction false} PicksDoNotOverlap(sp: Spans, s: seq<nat>, picks: seq<nat>, i: nat, j: nat)
    requires SortedByBegin(sp, s) && IsUnambiguous(sp, s, picks) && i < j < |picks|
    ensures picks[i] < picks[j] && sp.End(s[picks[i]]) <= sp.Begin(s[picks[j]])
  {
    assert IsNextPick(sp, s, picks[j - 1], picks[j]);
    if i < j - 1 {
      PicksDoNotOverlap(sp, s, picks, i, j - 1);
      assert sp.Begin(s[picks[j - 1]]) <= sp.Begin(s[picks[j]]);
    }
  }

  class UnambiguousIterator {
    const spans: Spans
    const it: IndexIterator

    ghost predicate Valid()
      reads it
    {
      it.Valid()
    }

    constructor (spans: Spans, it: IndexIterator)
      requires it.Valid()
      ensures Valid() && this.spans == spans && this.it == it
    {
      this.spans, this.it := spans, it;
    }

    predicate IsValid()
      reads it
    {
      it.IsValid()
    }

    method MoveToFirst()
      requires Valid()
      modifies it
      ensures Valid() && it.pos == 0
    {
      it.MoveToFirst();
    }

    /** moveToNext: skips whatever begins before the end of the current structure. */
    method MoveToNext()
      requires Valid() && IsValid()
      modifies it
      ensures Valid() && IsNextPick(spans, it.structures, old(it.pos), it.pos)
    {
      ghost var p := it.pos;
      var lastEndPos := spans.End(it.Get());
      it.MoveToNext();
      while it.IsValid() && spans.Begin(it.Get()) < lastEndPos
        invariant it.Valid() && p < it.pos <= |it.structures|
        invariant forall k :: p < k < it.pos ==> spans.Begin(it.structures[k]) < lastEndPos
        decreases |it.structures| - it.pos
      {
        it.MoveToNext();
      }
    }
  }

  /** All of an unambiguous iteration: it starts with the first structure and skips only what overlaps the last one. */
  method TraverseUnambiguous(u: UnambiguousIterator) returns (r: seq<nat>, ghost picks: seq<nat>)
    requires u.Valid() && SortedByBegin(u.spans, u.it.structures)
    modifies u.it
    ensures |r| == |picks| && IsUnambiguous(u.spans, u.it.structures, picks)
    ensures forall i :: 0 <= i < |r| ==> r[i] == u.it.structures[picks[i]]
    ensures if u.it.structures == [] then r == []
            else r != [] && picks[0] == 0 && IsNextPick(u.spans, u.it.structures, picks[|picks| - 1], |u.it.structures|)
    ensures forall i, j :: 0 <= i < j < |r| ==> u.spans.End(r[i]) <= u.spans.Begin(r[j])
  {
    hide Sorted, Precedes, SortedByBegin;
    ghost var s := u.it.structures;
    u.MoveToFirst();
    r, picks := [], [];
    while u.IsValid()
      invariant u.Valid() && |r| == |picks| && IsUnambiguous(u.spans, s, picks)
      invariant forall i :: 0 <= i < |r| ==> r[i] == s[picks[i]]
      invariant if r == [] then u.it.pos == 0 else picks[0] == 0 && IsNextPick(u.spans, s, picks[|picks| - 1], u.it.pos)
      decreases |s| - u.it.pos
    {
      r, picks := r + [u.it.Get()], picks + [u.it.pos];
      u.MoveToNext();
    }
    forall i, j | 0 <= i < j < |r| ensures u.spans.End(r[i]) <= u.spans.Begin(r[j]) {
      PicksDoNotOverlap(u.spans, s, picks, i, j);
    }
  }

  /** The unambiguous sub-iterator: moveToFirst is that of the sub-iterator, and moveToNext skips what overlaps. */
  class UnAmbiguousSubIterator {
    const sub: SubIterator

    ghost predicate Valid()
      reads sub, sub.it
    {
      sub.Valid()
    }

    constructor (sub: SubIterator)
      requires sub.Valid()
      ensures Valid() && this.sub == sub
    {
      this.sub := sub;
    }

    method MoveToNext()
      requires Valid() && sub.IsValid()
      modifies sub.it
      ensures Valid()
      ensures old(sub.it.pos) < sub.it.pos
      ensures forall k :: old(sub.it.pos) < k < sub.it.pos ==>
                sub.spans.Begin(sub.it.structures[k]) < sub.spans.End(sub.it.structures[old(sub.it.pos)])
      ensures sub.IsValid() ==> sub.spans.Begin(sub.it.Get()) >= sub.spans.End(sub.it.structures[old(sub.it.pos)])
    {
      ghost var p := sub.it.pos;
      var lastEndPos := sub.spans.End(sub.it.Get());
      sub.it.MoveToNext();
      while sub.IsValid() && sub.spans.Begin(sub.it.Get()) < lastEndPos
        invariant sub.Valid() && p < sub.it.pos <= |sub.it.structures|
        invariant forall k :: p < k < sub.it.pos ==> sub.spans.Begin(sub.it.structures[k]) < lastEndPos
        decreases |sub.it.structures| - sub.it.pos
      {
        sub.it.MoveToNext();
      }
    }
  }

  // The picks so far, with the iterator at pos.
  ghost predicate Picking(sp: Spans, under: seq<nat>, first: nat, r: seq<nat>, picks: seq<nat>, pos: nat) {
    && |r| == |picks| && IsUnambiguous(sp, under, picks) && first <= |under|
    && (forall i :: 0 <= i < |r| ==> r[i] == under[picks[i]])
    && if r == [] then first == |under| || pos == first
       else picks[0] == first && first <= pos
            && IsNextPick(sp, under, picks[|picks| - 1], if pos < |under| then pos else |under|)
  }

  lemma NonePicked(sp: Spans, under: seq<nat>, first: nat, pos: nat)
    requires first == |under| || (first < |under| && pos == first)
    ensures Picking(sp, under, first, [], [], pos)
  {
  }

  lemma NextPicked(sp: Spans, under: seq<nat>, first: nat, r: seq<nat>, picks: seq<nat>, p: nat, pos: nat)
    requires Picking(sp, under, first, r, picks, p) && first <= p < pos && p < |under|
    requires forall k :: p < k < pos && k < |under| ==> sp.Begin(under[k]) < sp.End(under[p])
    requires pos < |under| ==> sp.Begin(under[pos]) >= sp.End(under[p])
    ensures Picking(sp, under, first, r + [under[p]], picks + [p], pos)
  {
  }

  lemma AllPicked(sp: Spans, under: seq<nat>, first: nat, r: seq<nat>, picks: seq<nat>, pos: nat)
    requires Picking(sp, under, first, r, picks, pos) && !(first <= pos < |under|) && SortedByBegin(sp, under)
    ensures IsUnambiguous(sp, under, picks) && |r| == |picks| && forall i :: 0 <= i < |r| ==> r[i] == under[picks[i]]
    ensures if |under| == first then r == []
            else r != [] && picks[0] == first && IsNextPick(sp, under, picks[|picks| - 1], |under|)
    ensures forall i, j :: 0 <= i < j < |r| ==> sp.End(r[i]) <= sp.Begin(r[j])
  {
    hide SortedByBegin;
    assert r != [] ==> picks[0] < |under|;
    forall i, j | 0 <= i < j < |r| ensures sp.End(r[i]) <= sp.Begin(r[j]) {
      PicksDoNotOverlap(sp, under, picks, i, j);
    }
  }

  lemma SubOf(u: UnAmbiguousSubIterator)
    ensures u.Valid() <==> u.sub.Valid()
  {
  }

  lemma FirstInBounds(sub: SubIterator, first: nat)
    requires StartsFrom(sub, first)
    ensures first <= |sub.it.structures|
  {
  }

  lemma SortedTake(sp: Spans, s: seq<nat>, n: nat)
    requires SortedByBegin(sp, s) && n <= |s|
    ensures SortedByBegin(sp, s[..n])
  {
  }

  /**
   All of an unambiguous sub-iteration: structures under the anchor that do
   not overlap; everything else under the anchor begins before the end of the
   last one yielded before it.
   */
  method TraverseUnAmbiguousSub(u: UnAmbiguousSubIterator,
                                ghost first: nat) returns (r: seq<nat>, ghost picks: seq<nat>)
    requires u.Valid() && NoRepeats(u.sub.it.structures) && SortedByBegin(u.sub.spans, u.sub.it.structures)
    requires StartsFrom(u.sub, first)
    requires first == |u.sub.it.structures| && u.sub.anchor !in u.sub.it.structures ==>
               u.sub.it.pos == |u.sub.it.structures|
    modifies u.sub.it
    ensures first <= |u.sub.it.structures|
    ensures var n := first + CountUnder(u.sub.spans, u.sub.endPos, u.sub.it.structures, first);
            var under := u.sub.it.structures[..n];
            && |r| == |picks| && IsUnambiguous(u.sub.spans, under, picks)
            && (forall i :: 0 <= i < |r| ==> r[i] == under[picks[i]])
            && if n == first then r == []
               else r != [] && picks[0] == first && IsNextPick(u.sub.spans, under, picks[|picks| - 1], n)
    ensures forall i, j :: 0 <= i < j < |r| ==> u.sub.spans.End(r[i]) <= u.sub.spans.Begin(r[j])
  {
    hide *;
    SubOf(u);
    ghost var s, sp := u.sub.it.structures, u.sub.spans;
    FirstInBounds(u.sub, first);
    u.sub.GoToFirst(first);
    ghost var n := first + CountUnder(sp, u.sub.endPos, s, first);
    ghost var under := s[..n];
    r, picks := [], [];
    NonePicked(sp, under, first, u.sub.it.pos);
    SubOf(u);
    while u.sub.IsValid()
      invariant u.Valid() && u.sub.Valid() && Picking(sp, under, first, r, picks, u.sub.it.pos)
      invariant u.sub.IsValid() <==> first <= u.sub.it.pos < n
      decreases |s| - u.sub.it.pos
    {
      ghost var p, r0, picks0 := u.sub.it.pos, r, picks;
      SubOf(u);
      PlaceOf(u.sub);
      r, picks := r + [u.sub.Get()], picks + [u.sub.it.pos];
      u.MoveToNext();
      SubOf(u);
      PlaceOf(u.sub);
      UnderBounds(u.sub, first);
      NextPicked(sp, under, first, r0, picks0, p, u.sub.it.pos);
    }
    SortedTake(sp, s, n);
    AllPicked(sp, under, first, r, picks, u.sub.it.pos);
  }

  // ------------------------------------------------- moving back to the outside

  // Three annotations: from 0 to 9, from 0 to 5, and from 1 to 2.
  function Nested(): Spans {
    Spans(HeapView([0, 1, 0, 9, 1, 0, 5, 1, 1, 2], [], [], [], map[]), 1, 2)
  }

  function NestedOrder(): Order {
    Order([Key(1, Integer, false), Key(2, Integer, true)], Nested().heap)
  }

  lemma NestedIsSorted()
    ensures var sp, o, s := Nested(), NestedOrder(), [1, 4, 7];
            && OrderOK(o) && IsAnnotationOrder(sp, o) && Sorted(o, s) && SortedByBegin(sp, s) && NoRepeats(s)
            && sp.Begin(1) == sp.Begin(4) == 0 && sp.Begin(7) == 1 && sp.End(4) == 5 && sp.End(1) == 9
  {
    var o, s := NestedOrder(), [1, 4, 7];
    NestedValues();
    NestedPrecedes();
    hide Precedes, Nested, NestedOrder, Spans.Begin, Spans.End;
    PrecedesAsymmetric(o, 1, 4);
    PrecedesAsymmetric(o, 1, 7);
    PrecedesAsymmetric(o, 4, 7);
  }

  lemma NestedValues()
    ensures var sp, o := Nested(), NestedOrder();
            && OrderOK(o) && IsAnnotationOrder(sp, o) && |o.keys| == 2
            && ValueOf(o, o.keys[0], 1) == ValueOf(o, o.keys[0], 4) == Number(0)
            && ValueOf(o, o.keys[1], 1) == Number(9) && ValueOf(o, o.keys[1], 4) == Number(5)
            && ValueOf(o, o.keys[0], 7) == Number(1) && !o.keys[0].reversed && o.keys[1].reversed
            && sp.Begin(1) == sp.Begin(4) == 0 && sp.Begin(7) == 1 && sp.End(4) == 5 && sp.End(1) == 9
  {
  }

  lemma NestedPrecedes()
    ensures var o := NestedOrder(); Precedes(o, 1, 4) && Precedes(o, 1, 7) && Precedes(o, 4, 7)
  {
    NestedValues();
    hide Nested, NestedOrder, ValueOf;
    var o := NestedOrder();
    assert DecidedAt(o, 1, 4, 1) && DecidedAt(o, 1, 7, 0) && DecidedAt(o, 4, 7, 0);
  }

  /** Moving back from the first annotation under an anchor gives one that contains the anchor. */
  method BackToTheOutside() returns (sub: SubIterator)
    ensures sub.Valid() && sub.IsValid() && sub.spans == Nested() && sub.anchor == 4 && sub.Get() == 1
    ensures Nested().Begin(1) == Nested().Begin(4) && Nested().End(4) < Nested().End(1)
  {
    NestedIsSorted();
    hide *;
    var it := new IndexIterator([1, 4, 7], NestedOrder(), true);
    sub := new SubIterator(Nested(), 4, it);
    StartsBehind(sub);
    sub.GoToFirst(2);
    BackFromFirst(sub, 2);
    OnTheFirst(sub);
  }

  lemma StartsBehind(sub: SubIterator)
    requires sub.it.structures == [1, 4, 7] && sub.anchor == 4 && sub.spans == Nested() && sub.endPos == 5
    requires Nested().Begin(7) == 1
    ensures StartsFrom(sub, 2) && 4 in sub.it.structures && CountUnder(sub.spans, sub.endPos, sub.it.structures, 2) > 0
  {
    assert sub.it.structures[1] == 4;
  }

  lemma OnTheFirst(sub: SubIterator)
    requires sub.Valid() && sub.it.structures == [1, 4, 7] && sub.IsValid() && sub.it.pos == 0
    ensures sub.Get() == 1
  {
  }
}
