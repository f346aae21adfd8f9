/**
 The walk along the tails of a list in a heap that may hold rings, and when it
 ends if only places with a head are remembered.
 */
module ListWalk {
  import opened ListFS
  import TopologicalSort

  function Next(cells: seq<nat>, a: nat): nat {
    if a + TAIL < |cells| then cells[a + TAIL] else 0
  }

  // The place after n steps.
  function At(cells: seq<nat>, fs: nat, n: nat): nat {
    if n == 0 then fs else Next(cells, At(cells, fs, n - 1))
  }

  predicate IsNode(k: Kind, cells: seq<nat>, a: nat) {
    a + TAIL < |cells| && cells[a] == k.nonEmpty
  }

  predicate IsNull(cells: seq<nat>, a: nat) {
    a + HEAD < |cells| && cells[a + HEAD] == 0
  }

  // The walk was at this place before, and remembers it by its head.
  predicate IsKnown(cells: seq<nat>, fs: nat, n: nat) {
    !IsNull(cells, At(cells, fs, n)) && exists m :: 0 <= m < n && At(cells, fs, m) == At(cells, fs, n)
  }

  predicate GoesOn(k: Kind, cells: seq<nat>, fs: nat, n: nat) {
    IsNode(k, cells, At(cells, fs, n)) && !IsKnown(cells, fs, n)
  }

  // The walk ends at step n: at an empty list, or where it was before.
  predicate StopsAt(k: Kind, cells: seq<nat>, fs: nat, n: nat) {
    !GoesOn(k, cells, fs, n) && forall i :: 0 <= i < n ==> GoesOn(k, cells, fs, i)
  }

  ghost predicate Ends(k: Kind, cells: seq<nat>, fs: nat) {
    exists n :: StopsAt(k, cells, fs, n)
  }

  lemma EndOf(k: Kind, cells: seq<nat>, fs: nat) returns (n: nat)
    requires Ends(k, cells, fs)
    ensures StopsAt(k, cells, fs, n)
  {
    n :| StopsAt(k, cells, fs, n);
  }

  // After i steps the walk enters a ring of p nodes none of which has a head.
  ghost predicate EntersNullRing(k: Kind, cells: seq<nat>, fs: nat, i: nat, p: nat) {
    && p > 0 && At(cells, fs, i + p) == At(cells, fs, i)
    && (forall t :: 0 <= t < i + p ==> IsNode(k, cells, At(cells, fs, t)))
    && forall t :: i <= t < i + p ==> IsNull(cells, At(cells, fs, t))
  }

  // -------------------------------------------------------------- periods

  lemma {:induction false} Period(cells: seq<nat>, fs: nat, m: nat, p: nat, s: nat)
    requires At(cells, fs, m + p) == At(cells, fs, m)
    ensures At(cells, fs, m + p + s) == At(cells, fs, m + s)
  {
    if s > 0 {
      Period(cells, fs, m, p, s - 1);
      assert At(cells, fs, m + p + s) == Next(cells, At(cells, fs, m + p + (s - 1)));
      assert At(cells, fs, m + s) == Next(cells, At(cells, fs, m + (s - 1)));
    }
  }

  // A place in a ring comes again after any number of steps.
  lemma {:induction false} ComesAgain(cells: seq<nat>, fs: nat, m: nat, p: nat, from: nat) returns (n: nat)
    requires p > 0 && At(cells, fs, m + p) == At(cells, fs, m)
    ensures n >= from && At(cells, fs, n) == At(cells, fs, m)
    decreases from - m
  {
    if m >= from {
      n := m;
    } else {
      Period(cells, fs, m, p, p);
      n := ComesAgain(cells, fs, m + p, p, from);
    }
  }

  // All places from i on are those of the ring.
  lemma {:induction false} InRing(k: Kind, cells: seq<nat>, fs: nat, i: nat, p: nat, n: nat)
    requires EntersNullRing(k, cells, fs, i, p) && n >= i
    ensures IsNode(k, cells, At(cells, fs, n)) && IsNull(cells, At(cells, fs, n))
    decreases n
  {
    if n >= i + p {
      Period(cells, fs, i, p, n - i - p);
      InRing(k, cells, fs, i, p, n - p);
      assert i + p + (n - i - p) == n && i + (n - i - p) == n - p;
    }
  }

  /** A walk that enters a ring of nodes without heads does not end. */
  lemma NullRingNeverEnds(k: Kind, cells: seq<nat>, fs: nat, i: nat, p: nat)
    requires EntersNullRing(k, cells, fs, i, p)
    ensures !Ends(k, cells, fs)
  {
    forall n: nat ensures GoesOn(k, cells, fs, n) {
      if n >= i {
        InRing(k, cells, fs, i, p, n);
      } else if m :| 0 <= m < n && At(cells, fs, m) == At(cells, fs, n) {
        assert m + (n - m) == n;
        var l := ComesAgain(cells, fs, m, n - m, i);
        InRing(k, cells, fs, i, p, l);
      }
    }
  }

  /** So it is with one node that has no head and is its own tail. */
  lemma NodeOnItself(k: Kind)
    ensures !Ends(k, [0, k.nonEmpty, 0, 1], 1)
  {
    assert EntersNullRing(k, [0, k.nonEmpty, 0, 1], 1, 0, 1);
    NullRingNeverEnds(k, [0, k.nonEmpty, 0, 1], 1, 0, 1);
  }

  // ------------------------------------------------------------ ending

  // The first n places.
  function Places(cells: seq<nat>, fs: nat, n: nat): (p: seq<nat>)
    ensures |p| == n && forall i :: 0 <= i < n ==> p[i] == At(cells, fs, i)
  {
    seq<nat>(n, i requires 0 <= i => At(cells, fs, i))
  }

  // Among more places than there are cells one comes twice.
  lemma ComesTwice(k: Kind, cells: seq<nat>, fs: nat) returns (i: nat, j: nat)
    requires forall t :: 0 <= t <= |cells| ==> IsNode(k, cells, At(cells, fs, t))
    ensures i < j <= |cells| && At(cells, fs, i) == At(cells, fs, j)
  {
    var places := Places(cells, fs, |cells| + 1);
    var all := seq<nat>(|cells|, a requires 0 <= a => a);
    forall a | a in places ensures a in all {
      var t :| 0 <= t < |places| && places[t] == a;
      assert IsNode(k, cells, At(cells, fs, t));
      assert all[a] == a;
    }
    i, j := TopologicalSort.Pigeonhole(places, all);
  }

  lemma {:induction false} FirstStop(k: Kind, cells: seq<nat>, fs: nat, n: nat)
    requires !GoesOn(k, cells, fs, n)
    ensures Ends(k, cells, fs)
    decreases n
  {
    if forall i :: 0 <= i < n ==> GoesOn(k, cells, fs, i) {
      assert StopsAt(k, cells, fs, n);
    } else {
      var i :| 0 <= i < n && !GoesOn(k, cells, fs, i);
      FirstStop(k, cells, fs, i);
    }
  }

  /** Whatever the heap holds, the walk ends if and only if it enters no ring of nodes without heads. */
  lemma EndsUnlessNullRing(k: Kind, cells: seq<nat>, fs: nat)
    ensures Ends(k, cells, fs) <==> !exists i, p :: EntersNullRing(k, cells, fs, i, p)
  {
    if i, p :| EntersNullRing(k, cells, fs, i, p) {
      NullRingNeverEnds(k, cells, fs, i, p);
    } else if t :| 0 <= t <= |cells| && !IsNode(k, cells, At(cells, fs, t)) {
      FirstStop(k, cells, fs, t);
    } else {
      var i, j := ComesTwice(k, cells, fs);
      assert i + (j - i) == j && !EntersNullRing(k, cells, fs, i, j - i);
      var t :| i <= t < j && !IsNull(cells, At(cells, fs, t));
      Period(cells, fs, i, j - i, t - i);
      assert i + (j - i) + (t - i) == j + (t - i) && i + (t - i) == t;
      assert IsKnown(cells, fs, j + (t - i));
      FirstStop(k, cells, fs, j + (t - i));
    }
  }

  /** A list has no ring. */
  lemma ListEnds(k: Kind, cells: seq<nat>, extents: map<nat, nat>, fs: nat, nodes: seq<nat>, e: nat)
    requires k.empty != k.nonEmpty && ListAt(k, cells, extents, fs, nodes, e)
    ensures Ends(k, cells, fs)
  {
    WalksNodes(k, cells, extents, fs, nodes, e, |nodes|);
    FirstStop(k, cells, fs, |nodes|);
  }

  /** And ends behind its last node. */
  lemma ListStops(k: Kind, cells: seq<nat>, extents: map<nat, nat>, fs: nat, nodes: seq<nat>, e: nat, n: nat)
    requires k.empty != k.nonEmpty && ListAt(k, cells, extents, fs, nodes, e) && StopsAt(k, cells, fs, n)
    ensures n == |nodes|
  {
    ListIsAcyclic(k, cells, extents, fs, nodes, e);
    forall i: nat | i <= |nodes| ensures At(cells, fs, i) == Follower(nodes, e, i) {
      WalksNodes(k, cells, extents, fs, nodes, e, i);
    }
    forall i: nat | i < |nodes| ensures GoesOn(k, cells, fs, i) {
      assert LinkAt(k, cells, extents, nodes, e, i);
    }
    assert !GoesOn(k, cells, fs, |nodes|);
    assert n < |nodes| ==> GoesOn(k, cells, fs, n);
  }

  lemma {:induction false} WalksNodes(k: Kind, cells: seq<nat>, extents: map<nat, nat>, fs: nat, nodes: seq<nat>,
                                      e: nat, n: nat)
    requires ListAt(k, cells, extents, fs, nodes, e) && n <= |nodes|
    ensures At(cells, fs, n) == Follower(nodes, e, n)
  {
    if n > 0 {
      WalksNodes(k, cells, extents, fs, nodes, e, n - 1);
      assert LinkAt(k, cells, extents, nodes, e, n - 1);
    }
  }
}
