/**
 Where types stand in the pre-order with sorted siblings, said of the tree and
 the accepted pairs alone, and what commit makes of pairs between siblings.
 */
module SiblingOrder {
  import opened TopologicalSort
  import opened TypeTree
  import opened TypePriority

  predicate Siblings(parents: seq<nat>, a: nat, b: nat) {
    2 <= a < |parents| && 2 <= b < |parents| && a != b && parents[a] == parents[b]
  }

  // -------------------------------------------------------------- places

  lemma BeforeInSlice(part: seq<nat>, s: seq<nat>, x: nat, y: nat)
    requires IsSlice(part, s) && Before(part, x, y)
    ensures Before(s, x, y)
  {
    var u, v :| Joins(u, part, v, s);
    var i, j :| 0 <= i < j < |part| && part[i] == x && part[j] == y;
    assert s[|u| + i] == x && s[|u| + j] == y;
  }

  lemma BeforeInConcat(a: seq<nat>, b: seq<nat>, x: nat, y: nat)
    requires x in a && y in b
    ensures Before(a + b, x, y)
  {
    var i :| 0 <= i < |a| && a[i] == x;
    var j :| 0 <= j < |b| && b[j] == y;
    assert (a + b)[i] == x && (a + b)[|a| + j] == y;
  }

  // What lies under a child comes before what lies under a later one.
  lemma {:induction false} ChildrenInOrder(tree: seq<seq<nat>>, root: nat, children: seq<nat>, i: nat, j: nat,
                                           x: nat, y: nat)
    requires Downward(tree) && root < |tree| && i < j < |children|
    requires forall k :: 0 <= k < |children| ==> root < children[k] < |tree|
    requires x in PreOrder(tree, children[i]) && y in PreOrder(tree, children[j])
    ensures Before(PreOrderOf(tree, root, children), x, y)
  {
    var first, rest := PreOrder(tree, children[0]), PreOrderOf(tree, root, children[1..]);
    if i == 0 {
      ChildIsSlice(tree, root, children[1..], j - 1);
      var u, v :| Joins(u, PreOrder(tree, children[j]), v, rest);
      assert y in rest;
      BeforeInConcat(first, rest, x, y);
    } else {
      ChildrenInOrder(tree, root, children[1..], i - 1, j - 1, x, y);
      SliceBetween(first, rest, []);
      assert first + rest + [] == first + rest;
      BeforeInSlice(rest, first + rest, x, y);
    }
  }

  // Siblings take all their subtypes with them.
  lemma SubtypesInOrder(tree: seq<seq<nat>>, parents: seq<nat>, a: nat, b: nat, x: nat, y: nat)
    requires ParentsOK(parents) && TreeOf(tree, parents) && Downward(tree) && Siblings(parents, a, b)
    requires Before(tree[parents[a]], a, b)
    requires IsType(parents, x) && IsType(parents, y) && Subsumes(parents, a, x) && Subsumes(parents, b, y)
    ensures Before(PreOrder(tree, TOP), x, y)
  {
    var p := parents[a];
    var inner := PreOrderOf(tree, p, tree[p]);
    PreOrderContents(tree, parents, a);
    PreOrderContents(tree, parents, b);
    var i, j :| 0 <= i < j < |tree[p]| && tree[p][i] == a && tree[p][j] == b;
    ChildrenInOrder(tree, p, tree[p], i, j, x, y);
    SliceBetween([p], inner, []);
    assert [p] + inner + [] == PreOrder(tree, p);
    BeforeInSlice(inner, PreOrder(tree, p), x, y);
    TopSubsumes(parents, p);
    SubtypesAreSlice(tree, parents, TOP, p);
    BeforeInSlice(PreOrder(tree, p), PreOrder(tree, TOP), x, y);
  }

  lemma SupertypeInFront(tree: seq<seq<nat>>, parents: seq<nat>, x: nat, y: nat)
    requires ParentsOK(parents) && TreeOf(tree, parents) && Downward(tree)
    requires IsType(parents, x) && IsType(parents, y) && x != y && Subsumes(parents, x, y)
    ensures Before(PreOrder(tree, TOP), x, y)
  {
    var inner := PreOrderOf(tree, x, tree[x]);
    PreOrderContents(tree, parents, x);
    assert y in [x] + inner;
    BeforeInConcat([x], inner, x, y);
    TopSubsumes(parents, x);
    SubtypesAreSlice(tree, parents, TOP, x);
    BeforeInSlice(PreOrder(tree, x), PreOrder(tree, TOP), x, y);
  }

  // ------------------------------------------------------- accepted pairs

  lemma BeforeOnce(s: seq<nat>, x: nat, y: nat)
    requires Distinct(s)
    ensures !(Before(s, x, y) && Before(s, y, x)) && !Before(s, x, x)
  {
  }

  // In a list sorted along s the elements stand as in s.
  lemma AlongMeans(list: seq<nat>, s: seq<nat>, x: nat, y: nat)
    requires Distinct(s) && ListAlong(list, s) && x in list && y in list && Before(s, x, y)
    ensures Before(list, x, y)
  {
    BeforeOnce(s, x, y);
    var i :| 0 <= i < |list| && list[i] == x;
    var j :| 0 <= j < |list| && list[j] == y;
    if j < i {
      assert Before(s, list[j], list[i]);
    }
  }

  // The sorted tree has the siblings of an accepted pair in its order.
  lemma TreeFollowsPair(parents: seq<nat>, edges: Edges, tree: seq<seq<nat>>, s: seq<nat>, a: nat, b: nat)
    requires ParentsOK(parents) && TypePairs(parents, edges) && IsSortedTree(parents, edges, tree, s)
    requires (a, b) in edges && Siblings(parents, a, b)
    ensures Before(tree[parents[a]], a, b)
  {
    GreedyTotal(AllTypes(|parents|), edges, s);
    var p := parents[a];
    assert IsChildList(tree[p], parents, p);
    AlongMeans(tree[p], s, a, b);
  }

  /**
   For an accepted pair of siblings the first one and all its subtypes stand
   before the second one and all its subtypes in the pre-order.
   */
  lemma PreOrderFollowsPair(parents: seq<nat>, edges: Edges, pre: seq<nat>, a: nat, b: nat, x: nat, y: nat)
    requires ParentsOK(parents) && TypePairs(parents, edges) && IsSiblingPreOrder(parents, edges, pre)
    requires (a, b) in edges && Siblings(parents, a, b)
    requires IsType(parents, x) && IsType(parents, y) && Subsumes(parents, a, x) && Subsumes(parents, b, y)
    ensures Before(pre, x, y)
  {
    var tree, s :| IsSortedTree(parents, edges, tree, s) && PreOrder(tree, TOP) == pre;
    TreeFollowsPair(parents, edges, tree, s, a, b);
    SubtypesInOrder(tree, parents, a, b, x, y);
  }

  /** Supertypes stand before their subtypes. */
  lemma PreOrderGoesDown(parents: seq<nat>, edges: Edges, pre: seq<nat>, x: nat, y: nat)
    requires ParentsOK(parents) && IsSiblingPreOrder(parents, edges, pre)
    requires IsType(parents, x) && IsType(parents, y) && x != y && Subsumes(parents, x, y)
    ensures Before(pre, x, y)
  {
    var tree, s :| IsSortedTree(parents, edges, tree, s) && PreOrder(tree, TOP) == pre;
    SupertypeInFront(tree, parents, x, y);
  }

  // x lies under a sibling that the pairs put before one that y lies under.
  ghost predicate PairedAbove(parents: seq<nat>, edges: Edges, x: nat, y: nat)
    requires ParentsOK(parents)
  {
    exists a, b :: (a, b) in edges && Siblings(parents, a, b) && Subsumes(parents, a, x) && Subsumes(parents, b, y)
  }

  // The pairs are between siblings, from a supertype down, or follow from a pair of siblings above.
  ghost predicate AgreesWithTree(parents: seq<nat>, edges: Edges)
    requires ParentsOK(parents)
  {
    forall e :: e in edges ==>
      (e.0 != e.1 && Subsumes(parents, e.0, e.1)) || PairedAbove(parents, edges, e.0, e.1)
  }

  ghost predicate BetweenSiblings(parents: seq<nat>, edges: Edges) {
    forall e :: e in edges ==> Siblings(parents, e.0, e.1)
  }

  lemma SiblingsAgree(parents: seq<nat>, edges: Edges)
    requires ParentsOK(parents) && BetweenSiblings(parents, edges)
    ensures AgreesWithTree(parents, edges)
  {
    forall e | e in edges ensures PairedAbove(parents, edges, e.0, e.1) {
      assert (e.0, e.1) in edges && Siblings(parents, e.0, e.1);
    }
  }

  // The list has supertypes first, and siblings with all below them in the order of the pairs.
  ghost predicate FollowsSiblings(parents: seq<nat>, edges: Edges, total: seq<nat>)
    requires ParentsOK(parents)
  {
    forall x, y :: IsType(parents, x) && IsType(parents, y)
                   && ((x != y && Subsumes(parents, x, y)) || PairedAbove(parents, edges, x, y)) ==>
                     Before(total, x, y)
  }

  lemma PreOrderFollows(parents: seq<nat>, edges: Edges, pre: seq<nat>)
    requires ParentsOK(parents) && TypePairs(parents, edges) && IsSiblingPreOrder(parents, edges, pre)
    ensures FollowsSiblings(parents, edges, pre)
  {
    forall x, y | IsType(parents, x) && IsType(parents, y)
                  && ((x != y && Subsumes(parents, x, y)) || PairedAbove(parents, edges, x, y))
      ensures Before(pre, x, y)
    {
      if x != y && Subsumes(parents, x, y) {
        PreOrderGoesDown(parents, edges, pre, x, y);
      } else {
        var a, b :| (a, b) in edges && Siblings(parents, a, b) && Subsumes(parents, a, x) && Subsumes(parents, b, y);
        PreOrderFollowsPair(parents, edges, pre, a, b, x, y);
      }
    }
  }

  /**
   If all accepted pairs are between siblings, or at least agree with the tree,
   the merge is accepted, and what commit numbers has the same property.
   */
  lemma MergeFollowsSiblings(parents: seq<nat>, edges: Edges, total: seq<nat>)
    requires ParentsOK(parents) && TypePairs(parents, edges) && IsPriorityList(parents, true, edges, total)
    requires AgreesWithTree(parents, edges)
    ensures IsSiblingPreOrder(parents, edges, total) && Forward(edges, total)
    ensures FollowsSiblings(parents, edges, total)
  {
    var pre :| IsSiblingPreOrder(parents, edges, pre) && IsMerged(parents, edges, pre, total);
    PreOrderFollows(parents, edges, pre);
    assert Forward(edges, pre);
  }

  // ------------------------------------------------------- every place

  // Types of which neither subsumes the other lie under different siblings.
  lemma {:induction false} SiblingsAbove(parents: seq<nat>, x: nat, y: nat) returns (a: nat, b: nat)
    requires ParentsOK(parents) && IsType(parents, x) && IsType(parents, y)
    requires !Subsumes(parents, x, y) && !Subsumes(parents, y, x)
    ensures Siblings(parents, a, b) && Subsumes(parents, a, x) && Subsumes(parents, b, y)
    decreases x
  {
    TopSubsumes(parents, y);
    SubsumesParent(parents, parents[x], x);
    SubsumesParent(parents, y, x);
    if Subsumes(parents, parents[x], y) {
      a := x;
      b := ChildTowards(parents, parents[x], y);
    } else {
      a, b := SiblingsAbove(parents, parents[x], y);
      SubsumesTransitive(parents, a, parents[x], x);
    }
  }

  // x lies under a sibling that stands in s before one that y lies under.
  ghost predicate SortedAbove(parents: seq<nat>, s: seq<nat>, x: nat, y: nat)
    requires ParentsOK(parents)
  {
    exists a: nat, b: nat ::
      Siblings(parents, a, b) && Before(s, a, b) && Subsumes(parents, a, x) && Subsumes(parents, b, y)
  }

  lemma SortedInOrder(parents: seq<nat>, tree: seq<seq<nat>>, s: seq<nat>, x: nat, y: nat)
    requires ParentsOK(parents) && TreeOf(tree, parents) && Downward(tree)
    requires SortedAlong(tree, s, |tree|) && Distinct(s)
    requires IsType(parents, x) && IsType(parents, y) && SortedAbove(parents, s, x, y)
    ensures Before(PreOrder(tree, TOP), x, y)
  {
    var a: nat, b: nat :|
      Siblings(parents, a, b) && Before(s, a, b) && Subsumes(parents, a, x) && Subsumes(parents, b, y);
    var p := parents[a];
    assert 1 <= p < |tree| && IsChildList(tree[p], parents, p);
    AlongMeans(tree[p], s, a, b);
    SubtypesInOrder(tree, parents, a, b, x, y);
  }

  /**
   The sibling-sorted pre-order, completely: of two types the first one stands
   there if it is a supertype of the other, or lies under the earlier sibling.
   */
  lemma PreOrderPlaces(parents: seq<nat>, edges: Edges, pre: seq<nat>, s: seq<nat>, x: nat, y: nat)
    requires ParentsOK(parents) && TypePairs(parents, edges) && IsSiblingPreOrder(parents, edges, pre)
    requires IsGreedyOrder(AllTypes(|parents|), edges, s)
    requires IsType(parents, x) && IsType(parents, y) && x != y
    ensures Before(pre, x, y) <==> Subsumes(parents, x, y) || SortedAbove(parents, s, x, y)
  {
    var tree, r :| IsSortedTree(parents, edges, tree, r) && PreOrder(tree, TOP) == pre;
    GreedyOrderUnique(AllTypes(|parents|), edges, s, r);
    GreedyTotal(AllTypes(|parents|), edges, s);
    PreOrderIsEveryType(tree, parents);
    BeforeOnce(pre, x, y);
    if Subsumes(parents, x, y) {
      SupertypeInFront(tree, parents, x, y);
    } else if Subsumes(parents, y, x) {
      SupertypeInFront(tree, parents, y, x);
      if SortedAbove(parents, s, x, y) {
        SortedInOrder(parents, tree, s, x, y);
      }
    } else {
      var a, b := SiblingsAbove(parents, x, y);
      OneBefore(s, a, b);
      if Before(s, a, b) {
        SortedInOrder(parents, tree, s, x, y);
      } else {
        assert SortedAbove(parents, s, y, x);
        SortedInOrder(parents, tree, s, y, x);
        if SortedAbove(parents, s, x, y) {
          SortedInOrder(parents, tree, s, x, y);
        }
      }
    }
  }

  lemma OneBefore(s: seq<nat>, a: nat, b: nat)
    requires a in s && b in s && a != b
    ensures Before(s, a, b) || Before(s, b, a)
  {
    var i :| 0 <= i < |s| && s[i] == a;
    var j :| 0 <= j < |s| && s[j] == b;
    assert i < j || j < i;
  }

  /** The merge is accepted if and only if every accepted pair goes down or follows the order of the siblings above. */
  lemma MergeAccepted(parents: seq<nat>, edges: Edges, pre: seq<nat>, s: seq<nat>)
    requires ParentsOK(parents) && TypePairs(parents, edges) && Acyclic(edges)
    requires IsSiblingPreOrder(parents, edges, pre) && IsGreedyOrder(AllTypes(|parents|), edges, s)
    ensures Forward(edges, pre)
       <==> forall e :: e in edges ==> Subsumes(parents, e.0, e.1) || SortedAbove(parents, s, e.0, e.1)
  {
    forall e | e in edges
      ensures Before(pre, e.0, e.1) <==> Subsumes(parents, e.0, e.1) || SortedAbove(parents, s, e.0, e.1)
    {
      if e.0 == e.1 {
        assert IsCycle(edges, [e.0, e.0]);
      } else {
        PreOrderPlaces(parents, edges, pre, s, e.0, e.1);
      }
    }
  }

  // ------------------------------------------------------------- numbers

  predicate NumbersForward(edges: Edges, order: map<nat, nat>) {
    forall e :: e in edges ==> e.0 in order && e.1 in order && order[e.0] < order[e.1]
  }

  // Supertypes have smaller numbers, and siblings with all below them are numbered in the order of the pairs.
  ghost predicate NumbersFollowSiblings(parents: seq<nat>, edges: Edges, order: map<nat, nat>)
    requires ParentsOK(parents)
  {
    forall x, y :: IsType(parents, x) && IsType(parents, y)
                   && ((x != y && Subsumes(parents, x, y)) || PairedAbove(parents, edges, x, y)) ==>
                     x in order && y in order && order[x] < order[y]
  }

  lemma NumbersAscend(order: map<nat, nat>, s: seq<nat>, x: nat, y: nat)
    requires Numbers(order, s) && Before(s, x, y)
    ensures x in order && y in order && order[x] < order[y]
  {
  }

  /**
   The numbers of commit: accepted pairs always ascend, and with pairs that agree
   with the tree so do all types below them.
   */
  lemma CommittedNumbers(parents: seq<nat>, custom: bool, edges: Edges, total: seq<nat>, order: map<nat, nat>)
    requires ParentsOK(parents) && TypePairs(parents, edges) && (!custom ==> edges == [])
    requires IsPriorityList(parents, custom, edges, total) && Numbers(order, total)
    ensures NumbersForward(edges, order)
    ensures AgreesWithTree(parents, edges) ==> NumbersFollowSiblings(parents, edges, order)
  {
    PriorityListIsTotalOrder(parents, custom, edges, total);
    forall e | e in edges ensures e.0 in order && e.1 in order && order[e.0] < order[e.1] {
      NumbersAscend(order, total, e.0, e.1);
    }
    if AgreesWithTree(parents, edges) {
      if custom {
        MergeFollowsSiblings(parents, edges, total);
      } else {
        CreationGoesDown(parents);
      }
      forall x, y | IsType(parents, x) && IsType(parents, y)
                    && ((x != y && Subsumes(parents, x, y)) || PairedAbove(parents, edges, x, y))
        ensures x in order && y in order && order[x] < order[y]
      {
        NumbersAscend(order, total, x, y);
      }
    }
  }

  lemma CreationGoesDown(parents: seq<nat>)
    requires ParentsOK(parents)
    ensures FollowsSiblings(parents, [], AllTypes(|parents|))
  {
    var all := AllTypes(|parents|);
    forall x, y | IsType(parents, x) && IsType(parents, y) && x != y && Subsumes(parents, x, y)
      ensures Before(all, x, y)
    {
      SubsumesBelow(parents, x, y);
      assert all[x - 1] == x && all[y - 1] == y;
    }
  }
}
