/**
 The total order of types that commit computes from the accepted priority
 pairs: siblings are sorted by the pairs, the pre-order of the sorted tree is
 merged in when it agrees with every pair, and is dropped otherwise.
 */
module TypePriority {
  import opened TopologicalSort
  import opened TypeTree

  predicate TypePairs(parents: seq<nat>, edges: Edges) {
    forall e :: e in edges ==> IsType(parents, e.0) && IsType(parents, e.1)
  }

  predicate Before(s: seq<nat>, x: nat, y: nat) {
    exists i, j :: 0 <= i < j < |s| && s[i] == x && s[j] == y
  }

  // Every pair goes forward in s.
  predicate Forward(edges: Edges, s: seq<nat>) {
    forall e :: e in edges ==> Before(s, e.0, e.1)
  }

  // The first n pairs of neighbours in s.
  function Chain(s: seq<nat>, n: nat): (r: Edges)
    requires n == 0 || n < |s|
    ensures |r| == n && forall i {:trigger r[i]} :: 0 <= i < n ==> r[i] == (s[i], s[i + 1])
  {
    seq(n, i requires 0 <= i < n => (s[i], s[i + 1]))
  }

  lemma {:induction false} ForwardPath(edges: Edges, s: seq<nat>, p: seq<nat>, a: nat, b: nat)
    requires Distinct(s) && Forward(edges, s)
    requires |p| >= 2 && IsPath(edges, p)
    requires a < |s| && b < |s| && s[a] == p[0] && s[b] == p[|p| - 1]
    ensures a < b
    decreases |p|
  {
    var prior := p[|p| - 2];
    assert (prior, p[|p| - 1]) in edges;
    var c, d :| 0 <= c < d < |s| && s[c] == prior && s[d] == p[|p| - 1];
    if |p| > 2 {
      ForwardPath(edges, s, p[..|p| - 1], a, c);
    }
  }

  /** Pairs that all go forward in one list of distinct types cannot be cyclic. */
  lemma ForwardIsAcyclic(edges: Edges, s: seq<nat>)
    requires Distinct(s) && Forward(edges, s)
    ensures Acyclic(edges)
  {
    forall p ensures !IsCycle(edges, p) {
      if IsCycle(edges, p) {
        assert (p[0], p[1]) in edges;
        var a, d :| 0 <= a < d < |s| && s[a] == p[0] && s[d] == p[1];
        ForwardPath(edges, s, p, a, a);
      }
    }
  }

  lemma ChainStep(edges: Edges, s: seq<nat>, n: nat)
    requires n + 1 < |s|
    ensures edges + Chain(s, n + 1) == (edges + Chain(s, n)) + [(s[n], s[n + 1])]
  {
  }

  lemma ForwardWithChain(edges: Edges, s: seq<nat>, n: nat)
    requires Distinct(s) && (n == 0 || n < |s|)
    ensures Forward(edges, s) ==> Acyclic(edges + Chain(s, n))
  {
    if Forward(edges, s) {
      assert forall e :: e in edges + Chain(s, n) ==> e in edges || e in Chain(s, n);
      ForwardIsAcyclic(edges + Chain(s, n), s);
    }
  }

  /** Pairs that stay acyclic together with the chain of s all go forward in s. */
  lemma ChainForcesForward(edges: Edges, s: seq<nat>)
    requires |s| >= 1 && Over(s, edges)
    requires Acyclic(edges + Chain(s, |s| - 1))
    ensures Forward(edges, s)
  {
    var chain := Chain(s, |s| - 1);
    forall e | e in edges ensures Before(s, e.0, e.1) {
      var i :| 0 <= i < |s| && s[i] == e.0;
      var j :| 0 <= j < |s| && s[j] == e.1;
      if j <= i {
        var p := s[j..i + 1] + [s[j]];
        forall k | 0 <= k < |p| - 1 ensures (p[k], p[k + 1]) in edges + chain {
          if k == |p| - 2 {
            assert (p[k], p[k + 1]) == e;
          } else {
            assert (p[k], p[k + 1]) == chain[j + k];
          }
        }
        assert IsCycle(edges + chain, p);
      }
    }
  }

  lemma PrefixPosition(s: seq<nat>, k: nat, m: nat)
    requires Distinct(s) && k <= |s| && m < |s|
    ensures s[m] in s[..k] <==> m < k
  {
    if m < k {
      assert s[..k][m] == s[m];
    }
  }

  /** A complete chain leaves the greedy order no choice. */
  lemma {:induction false} ChainFixesOrder(nodes: seq<nat>, edges: Edges, s: seq<nat>, g: seq<nat>, n: nat)
    requires Distinct(s) && |s| >= 1 && n <= |s| == |g|
    requires forall v :: v in nodes ==> v in s
    requires forall e :: e in Chain(s, |s| - 1) ==> e in edges
    requires GreedyPrefix(nodes, edges, g)
    ensures g[..n] == s[..n]
  {
    if n > 0 {
      ChainFixesOrder(nodes, edges, s, g, n - 1);
      var k := n - 1;
      assert FirstReady(nodes, edges, g[..k], g[k]);
      assert g[k] in nodes;
      var m :| 0 <= m < |s| && s[m] == g[k];
      if m > 0 {
        assert Chain(s, |s| - 1)[m - 1] in edges;
        PrefixPosition(s, k, m - 1);
      }
      PrefixPosition(s, k, m);
      assert g[..n] == g[..k] + [g[k]] && s[..n] == s[..k] + [s[k]];
    }
  }

  // The first n child lists of the tree run in the order of s.
  predicate SortedAlong(tree: seq<seq<nat>>, s: seq<nat>, n: nat)
    requires n <= |tree|
  {
    forall p :: 0 <= p < n ==> ListAlong(tree[p], s)
  }

  predicate ListAlong(list: seq<nat>, s: seq<nat>) {
    forall i, j :: 0 <= i < j < |list| ==> Before(s, list[i], list[j])
  }

  // The pairs after the pre-order has been merged in.
  function Merged(edges: Edges, pre: seq<nat>): Edges
    requires |pre| >= 1
  {
    if Forward(edges, pre) then edges + Chain(pre, |pre| - 1) else edges
  }

  predicate Ascending(order: map<nat, nat>, r: seq<nat>) {
    && (forall i :: 0 <= i < |r| ==> r[i] in order)
    && (forall i, j :: 0 <= i < j < |r| ==> order[r[i]] < order[r[j]])
  }

  /** The sort of siblings by their numbers; s is the list that the numbers come from. */
  method SortSiblings(children: seq<nat>, order: map<nat, nat>, ghost s: seq<nat>) returns (r: seq<nat>)
    requires Distinct(children) && Numbers(order, s) && forall c :: c in children ==> c in s
    ensures Distinct(r) && (forall c :: c in r <==> c in children)
    ensures ListAlong(r, s)
  {
    hide Numbers, ListAlong;
    r := [];
    for i := 0 to |children|
      invariant Ascending(order, r) && (forall c :: c in r <==> c in children[..i])
    {
      var c := children[i];
      assert c in children && c !in children[..i];
      NumbersInjective(order, s, c, r);
      var k := 0;
      while k < |r| && order[r[k]] < order[c]
        invariant 0 <= k <= |r| && forall j :: 0 <= j < k ==> order[r[j]] < order[c]
      {
        k := k + 1;
      }
      InsertKeepsAscending(order, r, k, c);
      r := InsertAt(r, k, c);
      assert children[..i + 1] == children[..i] + [c];
    }
    assert children[..|children|] == children;
    AscendingIsAlong(order, s, r);
  }

  lemma InsertKeepsAscending(order: map<nat, nat>, r: seq<nat>, k: nat, c: nat)
    requires Ascending(order, r) && k <= |r| && c in order && forall j :: 0 <= j < k ==> order[r[j]] < order[c]
    requires k < |r| ==> order[c] < order[r[k]]
    ensures Ascending(order, InsertAt(r, k, c))
  {
  }

  // Ascending numbers run along the list that the numbers come from.
  lemma AscendingIsAlong(order: map<nat, nat>, s: seq<nat>, r: seq<nat>)
    requires Numbers(order, s) && Ascending(order, r) && forall c :: c in r ==> c in s
    ensures ListAlong(r, s) && Distinct(r)
  {
    forall i, j | 0 <= i < j < |r| ensures Before(s, r[i], r[j]) {
      assert r[i] in s && r[j] in s;
    }
  }

  function InsertAt(r: seq<nat>, k: nat, c: nat): (r': seq<nat>)
    requires k <= |r|
    ensures |r'| == |r| + 1
    ensures forall v :: v in r' <==> v in r || v == c
  {
    assert r == r[..k] + r[k..];
    r[..k] + [c] + r[k..]
  }

  lemma NumbersInjective(order: map<nat, nat>, s: seq<nat>, c: nat, r: seq<nat>)
    requires Numbers(order, s) && c in s && c !in r && Ascending(order, r)
    ensures c in order && forall i :: 0 <= i < |r| ==> order[r[i]] != order[c]
  {
    forall i | 0 <= i < |r| ensures order[r[i]] != order[c] {
      assert r[i] in r && r[i] in s;
    }
  }

  /** Sorts every child list of a copy of the tree. */
  method SortAllSiblings(tree: seq<seq<nat>>, ghost parents: seq<nat>, order: map<nat, nat>, ghost s: seq<nat>)
    returns (sorted: seq<seq<nat>>)
    requires ParentsOK(parents) && TreeOf(tree, parents)
    requires Numbers(order, s) && forall t :: IsType(parents, t) ==> t in s
    ensures TreeOf(sorted, parents) && Downward(sorted) && SortedAlong(sorted, s, |sorted|)
  {
    sorted := tree;
    var none := tree[INVALID];
    assert IsChildList(none, parents, INVALID);
    assert forall i :: 0 <= i < |none| ==> none[i] in none;
    assert SortedAlong(sorted, s, 1);
    for i := 1 to |sorted|
      invariant |sorted| == |tree| && TreeOf(sorted, parents) && SortedAlong(sorted, s, i)
    {
      assert IsChildList(sorted[i], parents, i);
      var siblings := SortSiblings(sorted[i], order, s);
      sorted := sorted[i := siblings];
    }
    TreeIsDownward(sorted, parents);
  }

  /** computePreOrder: appends the pre-order of the subtree to the result. */
  method ComputePreOrder(tree: seq<seq<nat>>, root: nat, result: seq<nat>) returns (r: seq<nat>)
    requires Downward(tree) && root < |tree|
    ensures r == result + PreOrder(tree, root)
    decreases |tree| - root
  {
    r := result + [root];
    var children := tree[root];
    for i := 0 to |children|
      invariant r == result + ([root] + PreOrderOf(tree, root, children[..i]))
    {
      PreOrderOfAppend(tree, root, children[..i], children[i]);
      assert children[..i + 1] == children[..i] + [children[i]];
      r := ComputePreOrder(tree, children[i], r);
    }
    assert children[..|children|] == children;
  }

  // pre is the pre-order of the type tree with siblings sorted by the pairs.
  ghost predicate IsSiblingPreOrder(parents: seq<nat>, edges: Edges, pre: seq<nat>)
    requires ParentsOK(parents)
  {
    exists tree, s :: IsSortedTree(parents, edges, tree, s) && PreOrder(tree, TOP) == pre
  }

  ghost predicate IsSortedTree(parents: seq<nat>, edges: Edges, tree: seq<seq<nat>>, s: seq<nat>)
    requires ParentsOK(parents)
  {
    && IsGreedyOrder(AllTypes(|parents|), edges, s)
    && TreeOf(tree, parents) && Downward(tree) && SortedAlong(tree, s, |tree|)
  }

  // The list of all types that commit numbers.
  ghost predicate IsPriorityList(parents: seq<nat>, custom: bool, edges: Edges, total: seq<nat>)
    requires ParentsOK(parents)
  {
    if !custom then total == AllTypes(|parents|)
    else exists pre :: IsSiblingPreOrder(parents, edges, pre) && IsMerged(parents, edges, pre, total)
  }

  predicate IsMerged(parents: seq<nat>, edges: Edges, pre: seq<nat>, total: seq<nat>)
    requires |parents| >= 1
  {
    if Forward(edges, pre) then total == pre
    else IsGreedyOrder(AllTypes(|parents|), edges, total)
  }

  // The children of one type, sorted along s, form only one list.
  lemma {:induction false} SortedUnique(s: seq<nat>, a: seq<nat>, b: seq<nat>)
    requires Distinct(s) && Distinct(a) && Distinct(b) && forall v :: v in a <==> v in b
    requires ListAlong(a, s) && ListAlong(b, s)
    ensures a == b
  {
    if a == [] {
      assert forall i :: 0 <= i < |b| ==> b[i] in a;
    } else {
      assert a[0] in b;
      var k :| 0 <= k < |b| && b[k] == a[0];
      assert b[0] in a;
      assert a == [a[0]] + a[1..] && b == [a[0]] + b[1..];
      assert forall v :: v in a[1..] <==> v in a && v != a[0];
      assert forall v :: v in b[1..] <==> v in b && v != a[0];
      SortedUnique(s, a[1..], b[1..]);
    }
  }

  lemma GreedyOrderDistinct(nodes: seq<nat>, edges: Edges, s: seq<nat>)
    requires GreedyPrefix(nodes, edges, s)
    ensures Distinct(s)
  {
    forall i, j | 0 <= i < j < |s| ensures s[i] != s[j] {
      assert FirstReady(nodes, edges, s[..j], s[j]);
      assert s[..j][i] == s[i];
    }
  }

  /** The sibling-sorted pre-order is determined by the tree and the accepted pairs. */
  lemma SiblingPreOrderUnique(parents: seq<nat>, edges: Edges, a: seq<nat>, b: seq<nat>)
    requires ParentsOK(parents)
    requires IsSiblingPreOrder(parents, edges, a) && IsSiblingPreOrder(parents, edges, b)
    ensures a == b
  {
    var t, s :| IsSortedTree(parents, edges, t, s) && PreOrder(t, TOP) == a;
    var u, r :| IsSortedTree(parents, edges, u, r) && PreOrder(u, TOP) == b;
    GreedyOrderUnique(AllTypes(|parents|), edges, s, r);
    GreedyOrderDistinct(AllTypes(|parents|), edges, s);
    forall p | 0 <= p < |parents| ensures t[p] == u[p] {
      assert IsChildList(t[p], parents, p) && IsChildList(u[p], parents, p);
      SortedUnique(s, t[p], u[p]);
    }
    assert t == u;
  }

  /** The priority list names every type once and respects every accepted pair. */
  lemma PriorityListIsTotalOrder(parents: seq<nat>, custom: bool, edges: Edges, total: seq<nat>)
    requires ParentsOK(parents) && TypePairs(parents, edges)
    requires !custom ==> edges == []
    requires IsPriorityList(parents, custom, edges, total)
    ensures Distinct(total) && |total| == |parents| - 1
    ensures forall t :: t in total <==> IsType(parents, t)
    ensures Forward(edges, total)
  {
    if custom {
      var pre :| IsSiblingPreOrder(parents, edges, pre) && IsMerged(parents, edges, pre, total);
      var tree, s :| IsSortedTree(parents, edges, tree, s) && PreOrder(tree, TOP) == pre;
      PreOrderIsEveryType(tree, parents);
      if !Forward(edges, pre) {
        GreedyTotal(AllTypes(|parents|), edges, total);
      }
    }
  }

  // Without pairs the greedy order is the list of nodes.
  lemma {:induction false} GreedyOfNone(nodes: seq<nat>, s: seq<nat>, n: nat)
    requires Distinct(nodes) && GreedyPrefix(nodes, [], s) && n <= |s| && |s| == |nodes|
    ensures s[..n] == nodes[..n]
  {
    if n > 0 {
      var k := n - 1;
      GreedyOfNone(nodes, s, k);
      assert FirstReady(nodes, [], s[..k], s[k]);
      PrefixPosition(nodes, k, k);
      assert FirstReady(nodes, [], s[..k], nodes[k]);
      FirstReadyUnique(nodes, [], s[..k], s[k], nodes[k]);
      assert s[..n] == s[..k] + [s[k]] && nodes[..n] == nodes[..k] + [nodes[k]];
    }
  }

  lemma GreedyTotal(nodes: seq<nat>, edges: Edges, s: seq<nat>)
    requires Distinct(nodes) && Over(nodes, edges) && IsGreedyOrder(nodes, edges, s)
    ensures Distinct(s) && Forward(edges, s) && forall v :: v in s <==> v in nodes
  {
    GreedyOrderDistinct(nodes, edges, s);
    forall k | 0 <= k < |s| ensures s[k] in nodes {
      assert FirstReady(nodes, edges, s[..k], s[k]);
    }
    forall e | e in edges ensures Before(s, e.0, e.1) {
      var b :| 0 <= b < |s| && s[b] == e.1;
      assert FirstReady(nodes, edges, s[..b], s[b]);
      var a :| 0 <= a < b && s[..b][a] == e.0;
    }
  }

  /** With the total order itself as the accepted pairs, the merge changes nothing. */
  lemma ChainSurvivesMerge(parents: seq<nat>, s: seq<nat>, total: seq<nat>)
    requires ParentsOK(parents) && Distinct(s) && |s| == |parents| - 1
    requires forall t :: t in s <==> IsType(parents, t)
    requires IsPriorityList(parents, true, Chain(s, |s| - 1), total)
    ensures total == s
  {
    var edges := Chain(s, |s| - 1);
    var pre :| IsSiblingPreOrder(parents, edges, pre) && IsMerged(parents, edges, pre, total);
    if Forward(edges, pre) {
      var tree, r :| IsSortedTree(parents, edges, tree, r) && PreOrder(tree, TOP) == pre;
      PreOrderIsEveryType(tree, parents);
      ChainIsList(s, pre, |s|);
      assert s[..|s|] == s && pre[..|s|] == pre;
    } else {
      ChainFixesOrder(AllTypes(|parents|), edges, s, total, |s|);
      assert s[..|s|] == s && total[..|s|] == total;
    }
  }

  lemma PriorPlaced(pre: seq<nat>, x: nat, k: nat)
    requires Distinct(pre) && k < |pre| && Before(pre, x, pre[k])
    ensures x in pre[..k]
  {
    var i, j :| 0 <= i < j < |pre| && pre[i] == x && pre[j] == pre[k];
    assert pre[..k][i] == x;
  }

  // A list in which the neighbours of s all go forward is s.
  lemma {:induction false} ChainIsList(s: seq<nat>, pre: seq<nat>, n: nat)
    requires Distinct(s) && Distinct(pre) && |s| >= 1 && n <= |s| == |pre|
    requires forall t :: t in s <==> t in pre
    requires Forward(Chain(s, |s| - 1), pre)
    ensures s[..n] == pre[..n]
  {
    if n > 0 {
      ChainIsList(s, pre, n - 1);
      var k := n - 1;
      assert pre[k] in s;
      var m :| 0 <= m < |s| && s[m] == pre[k];
      if m > 0 {
        assert Chain(s, |s| - 1)[m - 1] in Chain(s, |s| - 1);
        PriorPlaced(pre, s[m - 1], k);
        PrefixPosition(s, k, m - 1);
      }
      PrefixPosition(pre, k, k);
      PrefixPosition(s, k, m);
      assert pre[..n] == pre[..k] + [pre[k]] && s[..n] == s[..k] + [s[k]];
    }
  }

  // The greedy order of the merged pairs is the list that commit numbers.
  lemma MergedOrder(parents: seq<nat>, edges: Edges, pre: seq<nat>, s: seq<nat>)
    requires ParentsOK(parents) && |pre| >= 1 && IsSiblingPreOrder(parents, edges, pre)
    requires IsGreedyOrder(AllTypes(|parents|), Merged(edges, pre), s)
    ensures IsPriorityList(parents, true, edges, s)
  {
    if Forward(edges, pre) {
      var tree, r :| IsSortedTree(parents, edges, tree, r) && PreOrder(tree, TOP) == pre;
      PreOrderIsEveryType(tree, parents);
      ChainFixesOrder(AllTypes(|parents|), Merged(edges, pre), pre, s, |pre|);
      assert s[..|pre|] == s && pre[..|pre|] == pre;
    }
    assert IsMerged(parents, edges, pre, s);
  }

  // ---------------------------------------------------------- refused pairs

  /** As long as no pair was accepted, a pair is refused only if it is that of a type with itself. */
  lemma OnlyOwnPairRefused(t1: nat, t2: nat)
    ensures Acyclic([(t1, t2)]) <==> t1 != t2
  {
    if t1 == t2 {
      assert IsCycle([(t1, t2)], [t1, t1]);
    } else {
      forall p ensures !IsCycle([(t1, t2)], p) {
        if |p| >= 2 && IsPath([(t1, t2)], p) {
          var last := |p| - 2;
          assert (p[0], p[1]) in [(t1, t2)];
          assert (p[last], p[last + 1]) in [(t1, t2)];
        }
      }
    }
  }

  lemma {:induction false} IndicesAscend(assign: seq<nat>, start: nat, v: nat)
    ensures forall i, j :: 0 <= i < j < |Indices(assign, start, v)| ==>
              Indices(assign, start, v)[i] < Indices(assign, start, v)[j]
  {
    if |assign| > start {
      IndicesAscend(assign[..|assign| - 1], start, v);
    }
  }

  // Without pairs the child lists are in order, and the pre-order is that of the tree as it is.
  lemma PreOrderOfTree(parents: seq<nat>)
    requires ParentsOK(parents)
    ensures Downward(Children(parents)) && IsSiblingPreOrder(parents, [], PreOrder(Children(parents), TOP))
  {
    var tree, all := Children(parents), AllTypes(|parents|);
    ChildrenAreTree(parents);
    TreeIsDownward(tree, parents);
    forall p | 0 <= p < |tree| ensures ListAlong(tree[p], all) {
      IndicesAscend(parents, 2, p);
      forall i, j | 0 <= i < j < |tree[p]| ensures Before(all, tree[p][i], tree[p][j]) {
        var x, y := tree[p][i], tree[p][j];
        assert all[x - 1] == x && all[y - 1] == y;
      }
    }
    forall k | 0 <= k < |all| ensures FirstReady(all, [], all[..k], all[k]) {
      PrefixPosition(all, k, k);
    }
    assert IsGreedyOrder(all, [], all);
    assert IsSortedTree(parents, [], tree, all);
  }

  predicate Increasing(s: seq<nat>) {
    forall i, j :: 0 <= i < j < |s| ==> s[i] < s[j]
  }

  // Every type that was created between another one and its subtype is a subtype of that one, too.
  ghost predicate NothingBetween(parents: seq<nat>)
    requires ParentsOK(parents)
  {
    forall t, d, q :: IsType(parents, d) && Subsumes(parents, t, d) && t <= q <= d ==> Subsumes(parents, t, q)
  }

  // The subtypes of a type stand together in the pre-order.
  ghost predicate IsSlice(part: seq<nat>, s: seq<nat>) {
    exists x, y :: Joins(x, part, y, s)
  }

  predicate Joins(x: seq<nat>, part: seq<nat>, y: seq<nat>, s: seq<nat>) {
    s == x + part + y
  }

  lemma SliceOfSlice(a: seq<nat>, b: seq<nat>, c: seq<nat>)
    requires IsSlice(a, b) && IsSlice(b, c)
    ensures IsSlice(a, c)
  {
    var x, y :| Joins(x, a, y, b);
    var u, v :| Joins(u, b, v, c);
    assert u + (x + a + y) + v == (u + x) + a + (y + v);
    assert Joins(u + x, a, y + v, c);
  }

  lemma SliceBetween(x: seq<nat>, part: seq<nat>, y: seq<nat>)
    ensures IsSlice(part, x + part + y)
  {
    assert Joins(x, part, y, x + part + y);
  }

  lemma {:induction false} ChildIsSlice(tree: seq<seq<nat>>, root: nat, children: seq<nat>, k: nat)
    requires Downward(tree) && root < |tree| && k < |children|
    requires forall i :: 0 <= i < |children| ==> root < children[i] < |tree|
    ensures IsSlice(PreOrder(tree, children[k]), PreOrderOf(tree, root, children))
    decreases |children|
  {
    var first, rest := PreOrder(tree, children[0]), PreOrderOf(tree, root, children[1..]);
    if k == 0 {
      SliceBetween([], first, rest);
      assert [] + first + rest == first + rest;
    } else {
      ChildIsSlice(tree, root, children[1..], k - 1);
      SliceBetween(first, rest, []);
      assert first + rest + [] == first + rest;
      SliceOfSlice(PreOrder(tree, children[k]), rest, first + rest);
    }
  }

  lemma {:induction false} SubtypesAreSlice(tree: seq<seq<nat>>, parents: seq<nat>, root: nat, t: nat)
    requires ParentsOK(parents) && TreeOf(tree, parents) && Downward(tree)
    requires IsType(parents, root) && IsType(parents, t) && Subsumes(parents, root, t)
    ensures IsSlice(PreOrder(tree, t), PreOrder(tree, root))
    decreases |tree| - root
  {
    if t == root {
      SliceBetween([], PreOrder(tree, t), []);
      assert [] + PreOrder(tree, t) + [] == PreOrder(tree, t);
    } else {
      var c := ChildTowards(parents, root, t);
      assert IsChildList(tree[root], parents, root) && c in tree[root];
      var k :| 0 <= k < |tree[root]| && tree[root][k] == c;
      SubtypesAreSlice(tree, parents, c, t);
      ChildIsSlice(tree, root, tree[root], k);
      var inner := PreOrderOf(tree, root, tree[root]);
      SliceBetween([root], inner, []);
      assert [root] + inner + [] == PreOrder(tree, root);
      SliceOfSlice(PreOrder(tree, t), PreOrder(tree, c), inner);
      SliceOfSlice(PreOrder(tree, t), inner, PreOrder(tree, root));
    }
  }

  // A slice of all types is a range of types.
  lemma SliceIsRange(n: nat, part: seq<nat>, t: nat, d: nat, q: nat)
    requires n >= 1 && IsSlice(part, AllTypes(n)) && |part| > 0 && part[0] == t && d in part && t <= q <= d
    ensures q in part
  {
    var x, y :| Joins(x, part, y, AllTypes(n));
    assert forall k :: 0 <= k < |part| ==> part[k] == (x + part + y)[|x| + k] == |x| + k + 1;
    var k :| 0 <= k < |part| && part[k] == d;
    assert part[q - t] == q;
  }

  lemma CreationOrderMeansNothingBetween(tree: seq<seq<nat>>, parents: seq<nat>)
    requires ParentsOK(parents) && TreeOf(tree, parents) && Downward(tree)
    requires PreOrder(tree, TOP) == AllTypes(|parents|)
    ensures NothingBetween(parents)
  {
    forall t, d, q | IsType(parents, d) && Subsumes(parents, t, d) && t <= q <= d ensures Subsumes(parents, t, q) {
      SubsumesBelow(parents, t, d);
      TopSubsumes(parents, t);
      SubtypesAreSlice(tree, parents, TOP, t);
      PreOrderContents(tree, parents, t);
      SliceIsRange(|parents|, PreOrder(tree, t), t, d, q);
    }
  }

  // What lies under a child comes before the next child.
  lemma {:induction false} PreOrderIncreases(tree: seq<seq<nat>>, parents: seq<nat>, root: nat)
    requires ParentsOK(parents) && TreeOf(tree, parents) && Downward(tree) && IsType(parents, root)
    requires NothingBetween(parents) && forall p :: 0 <= p < |tree| ==> Increasing(tree[p])
    ensures Increasing(PreOrder(tree, root))
    decreases |tree| - root, |tree[root]| + 1
  {
    assert IsChildList(tree[root], parents, root);
    assert forall i :: 0 <= i < |tree[root]| ==> tree[root][i] in tree[root];
    PreOrderOfIncreases(tree, parents, root, tree[root]);
    PreOrderContents(tree, parents, root);
    var inner := PreOrderOf(tree, root, tree[root]);
    forall x | x in inner ensures root < x {
      assert x in PreOrder(tree, root);
      SubsumesBelow(parents, root, x);
      var i :| 0 <= i < |inner| && inner[i] == x;
      assert PreOrder(tree, root)[0] == root && PreOrder(tree, root)[i + 1] == x;
    }
    IncreasingConcat([root], inner);
  }

  lemma IncreasingConcat(a: seq<nat>, b: seq<nat>)
    requires Increasing(a) && Increasing(b) && forall x, y :: x in a && y in b ==> x < y
    ensures Increasing(a + b)
  {
    forall i, j | 0 <= i < j < |a + b| ensures (a + b)[i] < (a + b)[j] {
      assert i < |a| ==> (a + b)[i] in a;
      assert j >= |a| ==> (a + b)[j] in b;
    }
  }

  lemma {:induction false} PreOrderOfIncreases(tree: seq<seq<nat>>, parents: seq<nat>, root: nat, children: seq<nat>)
    requires ParentsOK(parents) && TreeOf(tree, parents) && Downward(tree) && IsType(parents, root)
    requires NothingBetween(parents) && forall p :: 0 <= p < |tree| ==> Increasing(tree[p])
    requires forall i :: 0 <= i < |children| ==> root < children[i] < |tree| && parents[children[i]] == root
    requires Increasing(children)
    ensures Increasing(PreOrderOf(tree, root, children))
    decreases |tree| - root, |children|
  {
    if children != [] {
      var c, others := children[0], children[1..];
      var first, rest := PreOrder(tree, c), PreOrderOf(tree, root, others);
      PreOrderIncreases(tree, parents, c);
      PreOrderOfIncreases(tree, parents, root, others);
      PreOrderContents(tree, parents, c);
      PreOrderOfContents(tree, parents, root, others);
      forall x, y | x in first && y in rest ensures x < y {
        var b :| b in others && Subsumes(parents, b, y);
        SubsumesBelow(parents, b, y);
        var i :| 0 <= i < |others| && others[i] == b;
        assert b == children[i + 1] > c;
        if x >= b {
          assert Subsumes(parents, c, b);
          SubsumesParent(parents, c, b);
          SubsumesBelow(parents, c, parents[b]);
        }
      }
      IncreasingConcat(first, rest);
    }
  }

  /** The pre-order is the order of creation if and only if nothing was created between a type and its subtype. */
  lemma PreOrderIsCreationOrder(parents: seq<nat>)
    requires ParentsOK(parents)
    ensures Downward(Children(parents))
    ensures PreOrder(Children(parents), TOP) == AllTypes(|parents|) <==> NothingBetween(parents)
  {
    var tree, all := Children(parents), AllTypes(|parents|);
    ChildrenAreTree(parents);
    TreeIsDownward(tree, parents);
    if PreOrder(tree, TOP) == all {
      CreationOrderMeansNothingBetween(tree, parents);
    }
    if NothingBetween(parents) {
      forall p | 0 <= p < |tree| ensures Increasing(tree[p]) {
        IndicesAscend(parents, 2, p);
      }
      PreOrderIncreases(tree, parents, TOP);
      PreOrderIsEveryType(tree, parents);
      AlongAll(PreOrder(tree, TOP), |parents|);
      AlongAll(all, |parents|);
      SortedUnique(all, PreOrder(tree, TOP), all);
    }
  }

  lemma AlongAll(s: seq<nat>, n: nat)
    requires n >= 1 && Increasing(s) && forall x :: x in s ==> 1 <= x < n
    ensures ListAlong(s, AllTypes(n))
  {
    forall i, j | 0 <= i < j < |s| ensures Before(AllTypes(n), s[i], s[j]) {
      assert s[i] in s && s[j] in s;
      assert AllTypes(n)[s[i] - 1] == s[i] && AllTypes(n)[s[j] - 1] == s[j];
    }
  }

  /**
   A refused pair sets the flag that priorities were given. If there are no
   others, commit then numbers the types in pre-order, and this can be seen if
   and only if some type was created between another one and its subtype.
   */
  lemma RefusedPairIsSeen(parents: seq<nat>, without: seq<nat>, with: seq<nat>)
    requires ParentsOK(parents)
    requires IsPriorityList(parents, false, [], without) && IsPriorityList(parents, true, [], with)
    ensures with == without <==> NothingBetween(parents)
  {
    PreOrderOfTree(parents);
    PreOrderIsCreationOrder(parents);
    var pre :| IsSiblingPreOrder(parents, [], pre) && IsMerged(parents, [], pre, with);
    SiblingPreOrderUnique(parents, [], pre, PreOrder(Children(parents), TOP));
  }

  /** So it is with a type that was created before the subtype of an earlier one. */
  lemma SeenBetween(parents: seq<nat>)
    requires parents == [0, 1, 1, 1, 2]
    ensures ParentsOK(parents) && !NothingBetween(parents)
  {
    assert Subsumes(parents, 2, 4) && !Subsumes(parents, 2, 3);
  }
}
