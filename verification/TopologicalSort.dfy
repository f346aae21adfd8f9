/**
 The destructive topological sort that serves as the cycle test for type
 priorities, together with the graph theory it is proved against: paths,
 cycles, and the greedy order that picks the first node without a
 predecessor.
 */
module TopologicalSort {

  type Edges = seq<(nat, nat)>

  predicate Distinct(s: seq<nat>) {
    forall i, j :: 0 <= i < j < |s| ==> s[i] != s[j]
  }

  // Every edge joins two of the nodes.
  predicate Over(nodes: seq<nat>, edges: Edges) {
    forall e :: e in edges ==> e.0 in nodes && e.1 in nodes
  }

  predicate IsPath(edges: Edges, p: seq<nat>) {
    forall i :: 0 <= i < |p| - 1 ==> (p[i], p[i + 1]) in edges
  }

  predicate IsCycle(edges: Edges, p: seq<nat>) {
    |p| >= 2 && p[0] == p[|p| - 1] && IsPath(edges, p)
  }

  ghost predicate Acyclic(edges: Edges) {
    forall p :: !IsCycle(edges, p)
  }

  // All predecessors of v have been placed.
  predicate Ready(edges: Edges, placed: seq<nat>, v: nat) {
    forall e :: e in edges && e.1 == v ==> e.0 in placed
  }

  // v is the first of the unplaced nodes that is ready.
  predicate FirstReady(nodes: seq<nat>, edges: Edges, placed: seq<nat>, v: nat) {
    && v !in placed
    && Ready(edges, placed, v)
    && exists j :: && 0 <= j < |nodes| && nodes[j] == v
                   && forall i :: 0 <= i < j ==> nodes[i] in placed || !Ready(edges, placed, nodes[i])
  }

  predicate GreedyPrefix(nodes: seq<nat>, edges: Edges, s: seq<nat>) {
    forall k {:trigger FirstReady(nodes, edges, s[..k], s[k])} ::
      0 <= k < |s| ==> FirstReady(nodes, edges, s[..k], s[k])
  }

  // s lists every node, each time taking the first one that is ready.
  predicate IsGreedyOrder(nodes: seq<nat>, edges: Edges, s: seq<nat>) {
    && GreedyPrefix(nodes, edges, s)
    && |s| == |nodes|
    && forall v :: v in nodes ==> v in s
  }

  // order numbers the elements of s by their position.
  predicate Numbers(order: map<nat, nat>, s: seq<nat>) {
    && (forall k :: 0 <= k < |s| ==> s[k] in order && order[s[k]] == k)
    && (forall v :: v in order ==> v in s)
  }

  // ---------------------------------------------------------------- filters

  function Remaining(nodes: seq<nat>, placed: seq<nat>): (r: seq<nat>)
    ensures forall v :: v in r <==> v in nodes && v !in placed
  {
    if nodes == [] then []
    else if nodes[0] in placed then Remaining(nodes[1..], placed)
    else [nodes[0]] + Remaining(nodes[1..], placed)
  }

  function EdgesFrom(edges: Edges, placed: seq<nat>): (r: Edges)
    ensures forall e :: e in r <==> e in edges && e.0 !in placed
  {
    if edges == [] then []
    else if edges[0].0 in placed then EdgesFrom(edges[1..], placed)
    else [edges[0]] + EdgesFrom(edges[1..], placed)
  }

  lemma {:induction false} EdgesFromMore(edges: Edges, placed: seq<nat>, v: nat)
    ensures EdgesFrom(EdgesFrom(edges, placed), [v]) == EdgesFrom(edges, placed + [v])
  {
    if edges != [] {
      EdgesFromMore(edges[1..], placed, v);
      var e, rest := edges[0], EdgesFrom(edges[1..], placed);
      assert e.0 !in placed ==> ([e] + rest)[1..] == rest;
    }
  }

  lemma {:induction false} RemainingMore(nodes: seq<nat>, placed: seq<nat>, k: nat)
    requires Distinct(nodes)
    requires k < |Remaining(nodes, placed)|
    ensures var r := Remaining(nodes, placed);
            Remaining(nodes, placed + [r[k]]) == r[..k] + r[k + 1..]
  {
    var r, rest := Remaining(nodes, placed), Remaining(nodes[1..], placed);
    if nodes[0] in placed {
      RemainingMore(nodes[1..], placed, k);
    } else if k == 0 {
      RemainingSkip(nodes[1..], placed, nodes[0]);
      assert r[..0] + r[1..] == rest;
    } else {
      RemainingMore(nodes[1..], placed, k - 1);
      assert rest[k - 1] in rest && nodes[0] !in nodes[1..];
      assert nodes[0] !in placed + [rest[k - 1]];
      assert r[..k] + r[k + 1..] == [nodes[0]] + (rest[..k - 1] + rest[k..]);
    }
  }

  lemma {:induction false} RemainingSkip(nodes: seq<nat>, placed: seq<nat>, v: nat)
    requires v !in nodes
    ensures Remaining(nodes, placed + [v]) == Remaining(nodes, placed)
  {
    if nodes != [] {
      RemainingSkip(nodes[1..], placed, v);
    }
  }

  // The kth remaining node stands at some position of the original list, and
  // whatever precedes it there is placed or remains earlier.
  lemma {:induction false} RemainingIndex(nodes: seq<nat>, placed: seq<nat>, k: nat) returns (j: nat)
    requires k < |Remaining(nodes, placed)|
    ensures j < |nodes| && nodes[j] == Remaining(nodes, placed)[k]
    ensures forall i :: 0 <= i < j ==> nodes[i] in placed || nodes[i] in Remaining(nodes, placed)[..k]
  {
    var r, rest := Remaining(nodes, placed), Remaining(nodes[1..], placed);
    if nodes[0] in placed {
      j := RemainingIndex(nodes[1..], placed, k);
      j := j + 1;
    } else if k == 0 {
      j := 0;
    } else {
      j := RemainingIndex(nodes[1..], placed, k - 1);
      j := j + 1;
      assert r[..k] == [nodes[0]] + rest[..k - 1];
    }
  }

  // ------------------------------------------------------------- algorithm

  /** True exactly when some edge ends in node. */
  method HasPredecessor(edges: Edges, node: nat) returns (found: bool)
    ensures found <==> exists e :: e in edges && e.1 == node
  {
    for i := 0 to |edges|
      invariant forall j :: 0 <= j < i ==> edges[j].1 != node
    {
      if edges[i].1 == node {
        return true;
      }
    }
    return false;
  }

  /** Drops the edges that start in node; none may end there. */
  method DeleteAllEdges(edges: Edges, node: nat) returns (result: Edges)
    requires forall e :: e in edges ==> e.1 != node
    ensures result == EdgesFrom(edges, [node])
  {
    result := [];
    for i := 0 to |edges|
      invariant result + EdgesFrom(edges[i..], [node]) == EdgesFrom(edges, [node])
    {
      assert edges[i..] == [edges[i]] + edges[i + 1..];
      if edges[i].0 != node {
        result := result + [edges[i]];
      }
    }
    assert edges[|edges|..] == [];
  }

  /** Removes the first node that no edge ends in, with the edges leaving it. */
  method DeleteNodeWithoutPredecessor(nodes: seq<nat>, edges: Edges)
    returns (found: bool, nodes': seq<nat>, edges': Edges, k: nat)
    ensures found <==> exists v :: v in nodes && Ready(edges, [], v)
    ensures found ==>
              && k < |nodes|
              && Ready(edges, [], nodes[k]) && (forall i :: 0 <= i < k ==> !Ready(edges, [], nodes[i]))
              && nodes' == nodes[..k] + nodes[k + 1..]
              && edges' == EdgesFrom(edges, [nodes[k]])
    ensures !found ==> nodes' == nodes && edges' == edges
  {
    nodes', edges' := nodes, edges;
    k := 0;
    while k < |nodes|
      invariant k <= |nodes| && nodes' == nodes && edges' == edges
      invariant forall i :: 0 <= i < k ==> !Ready(edges, [], nodes[i])
    {
      var blocked := HasPredecessor(edges, nodes[k]);
      if !blocked {
        assert nodes[k] in nodes && Ready(edges, [], nodes[k]);
        edges' := DeleteAllEdges(edges, nodes[k]);
        nodes' := nodes[..k] + nodes[k + 1..];
        return true, nodes', edges', k;
      }
      k := k + 1;
    }
    found := false;
  }

  /**
   Numbers the nodes so that every edge goes from a smaller to a larger
   number. It succeeds exactly on acyclic graphs, and the numbering is the
   greedy one.
   */
  method Sort(nodes: seq<nat>, edges: Edges) returns (sortable: bool, order: map<nat, nat>)
    requires Distinct(nodes) && Over(nodes, edges)
    ensures sortable <==> Acyclic(edges)
    ensures sortable ==> exists s :: IsGreedyOrder(nodes, edges, s) && Numbers(order, s)
  {
    order := map[];
    var i := 0;
    var rest, left := nodes, edges;
    ghost var s: seq<nat> := [];
    RemainingNone(nodes, edges);
    while true
      invariant |s| == i && Numbers(order, s) && Distinct(s)
      invariant GreedyPrefix(nodes, edges, s)
      invariant rest == Remaining(nodes, s) && left == EdgesFrom(edges, s)
      invariant |rest| + i == |nodes|
      decreases |rest|
    {
      var found, rest', left', k := DeleteNodeWithoutPredecessor(rest, left);
      ReadyAmongLeft(edges, s);
      if !found {
        sortable := rest == [];
        if sortable {
          GreedyIsAcyclic(nodes, edges, s);
          assert IsGreedyOrder(nodes, edges, s);
        } else {
          StuckMeansCycle(rest, left, edges);
        }
        return;
      }
      var node := rest[k];
      GreedyExtend(nodes, edges, s, k);
      EdgesFromMore(edges, s, node);
      RemainingMore(nodes, s, k);
      rest, left := rest', left';
      order := order[node := i];
      i := i + 1;
      s := s + [node];
    }
  }

  // hasCycle: the form in which addTypePriority uses the sort.
  method HasCycle(nodes: seq<nat>, edges: Edges) returns (cyclic: bool)
    requires Distinct(nodes) && Over(nodes, edges)
    ensures cyclic <==> !Acyclic(edges)
  {
    var sortable, _ := Sort(nodes, edges);
    cyclic := !sortable;
  }

  // ---------------------------------------------------------------- theory

  lemma {:induction false} RemainingNone(nodes: seq<nat>, edges: Edges)
    ensures Remaining(nodes, []) == nodes && EdgesFrom(edges, []) == edges
  {
    if nodes != [] {
      RemainingNone(nodes[1..], edges);
    } else if edges != [] {
      RemainingNone(nodes, edges[1..]);
    }
  }

  lemma ReadyAmongLeft(edges: Edges, s: seq<nat>)
    ensures forall v :: Ready(EdgesFrom(edges, s), [], v) <==> Ready(edges, s, v)
  {
    var left := EdgesFrom(edges, s);
    forall v ensures Ready(left, [], v) <==> Ready(edges, s, v) {
      assert Ready(left, [], v) <==> forall e :: e in left ==> e.1 != v;
    }
  }

  // The first ready node among the remaining ones extends the order.
  lemma GreedyExtend(nodes: seq<nat>, edges: Edges, s: seq<nat>, k: nat)
    requires GreedyPrefix(nodes, edges, s) && Distinct(s) && k < |Remaining(nodes, s)|
    requires var r := Remaining(nodes, s);
             Ready(edges, s, r[k]) && forall i :: 0 <= i < k ==> !Ready(edges, s, r[i])
    ensures var s' := s + [Remaining(nodes, s)[k]];
            GreedyPrefix(nodes, edges, s') && Distinct(s')
  {
    var r := Remaining(nodes, s);
    var j := RemainingIndex(nodes, s, k);
    assert r[k] in r;
    assert FirstReady(nodes, edges, s, r[k]);
    var s' := s + [r[k]];
    forall m | 0 <= m < |s'| ensures FirstReady(nodes, edges, s'[..m], s'[m]) {
      if m < |s| {
        assert s'[..m] == s[..m];
      } else {
        assert s'[..m] == s;
      }
    }
  }

  // Along a path the positions in a greedy order strictly increase.
  lemma {:induction false} PathIncreases(nodes: seq<nat>, edges: Edges, s: seq<nat>, p: seq<nat>, a: nat, b: nat)
    requires GreedyPrefix(nodes, edges, s) && Distinct(s)
    requires |p| >= 2 && IsPath(edges, p)
    requires a < |s| && b < |s| && s[a] == p[0] && s[b] == p[|p| - 1]
    ensures a < b
    decreases |p|
  {
    var prior := p[|p| - 2];
    assert (prior, p[|p| - 1]) in edges;
    assert FirstReady(nodes, edges, s[..b], s[b]);
    var c :| 0 <= c < b && s[c] == prior;
    if |p| > 2 {
      PathIncreases(nodes, edges, s, p[..|p| - 1], a, c);
    }
  }

  lemma {:induction false} GreedyIsAcyclic(nodes: seq<nat>, edges: Edges, s: seq<nat>)
    requires Distinct(s) && GreedyPrefix(nodes, edges, s) && Over(nodes, edges)
    requires forall v :: v in nodes ==> v in s
    ensures Acyclic(edges)
  {
    forall p ensures !IsCycle(edges, p) {
      if IsCycle(edges, p) {
        assert (p[0], p[1]) in edges;
        var a :| 0 <= a < |s| && s[a] == p[0];
        PathIncreases(nodes, edges, s, p, a, a);
      }
    }
  }

  predicate Blocked(rest: seq<nat>, left: Edges, v: nat) {
    exists e :: e in left && e.1 == v && e.0 in rest
  }

  // Walking backwards from a node never stops when every node is blocked.
  lemma {:induction false} BackWalk(rest: seq<nat>, left: Edges, n: nat) returns (p: seq<nat>)
    requires rest != []
    requires forall v {:trigger Blocked(rest, left, v)} :: v in rest ==> Blocked(rest, left, v)
    ensures |p| == n + 1 && IsPath(left, p) && forall v :: v in p ==> v in rest
  {
    if n == 0 {
      p := [rest[0]];
    } else {
      var q := BackWalk(rest, left, n - 1);
      assert q[0] in rest && Blocked(rest, left, q[0]);
      var e :| e in left && e.1 == q[0] && e.0 in rest;
      p := [e.0] + q;
    }
  }

  function Elements(p: seq<nat>): (r: set<nat>)
    ensures forall v :: v in r <==> v in p
  {
    set v | v in p
  }

  lemma {:induction false} SetOfDistinct(p: seq<nat>)
    requires Distinct(p)
    ensures |Elements(p)| == |p|
  {
    if p != [] {
      SetOfDistinct(p[1..]);
      assert p == [p[0]] + p[1..] && p[0] !in p[1..];
      assert Elements(p) == Elements(p[1..]) + {p[0]};
    }
  }

  lemma {:induction false} SetAtMost(p: seq<nat>)
    ensures |Elements(p)| <= |p|
  {
    if p != [] {
      SetAtMost(p[1..]);
      assert p == [p[0]] + p[1..];
      assert Elements(p) == Elements(p[1..]) + {p[0]};
    }
  }

  lemma SubsetSize<T>(a: set<T>, b: set<T>)
    requires a <= b
    ensures |a| <= |b| && (|a| == |b| ==> a == b)
  {
    assert b == a + (b - a);
  }

  lemma Pigeonhole(p: seq<nat>, rest: seq<nat>) returns (i: nat, j: nat)
    requires |p| > |rest| && forall v :: v in p ==> v in rest
    ensures i < j < |p| && p[i] == p[j]
  {
    if Distinct(p) {
      SetOfDistinct(p);
      SetAtMost(rest);
      SubsetSize(Elements(p), Elements(rest));
      assert false;
    }
    i, j :| 0 <= i < j < |p| && p[i] == p[j];
  }

  lemma StuckMeansCycle(rest: seq<nat>, left: Edges, edges: Edges)
    requires rest != [] && forall e :: e in left ==> e in edges
    requires forall e :: e in left && e.1 in rest ==> e.0 in rest
    requires forall v :: v in rest ==> !Ready(left, [], v)
    ensures !Acyclic(edges)
  {
    forall v | v in rest ensures Blocked(rest, left, v) {
      var e :| e in left && e.1 == v;
    }
    var p := BackWalk(rest, left, |rest|);
    var i, j := Pigeonhole(p, rest);
    var c := p[i..j + 1];
    assert IsCycle(edges, c);
  }

  /** There is at most one greedy order. */
  lemma {:induction false} GreedyOrderUnique(nodes: seq<nat>, edges: Edges, s: seq<nat>, t: seq<nat>)
    requires IsGreedyOrder(nodes, edges, s) && IsGreedyOrder(nodes, edges, t)
    ensures s == t
  {
    GreedyAgree(nodes, edges, s, t, |s|);
    assert s[..|s|] == s && t[..|s|] == t;
  }

  lemma {:induction false} GreedyAgree(nodes: seq<nat>, edges: Edges, s: seq<nat>, t: seq<nat>, n: nat)
    requires GreedyPrefix(nodes, edges, s) && GreedyPrefix(nodes, edges, t)
    requires n <= |s| && n <= |t|
    ensures s[..n] == t[..n]
  {
    if n > 0 {
      GreedyAgree(nodes, edges, s, t, n - 1);
      FirstReadyUnique(nodes, edges, s[..n - 1], s[n - 1], t[n - 1]);
      assert s[..n] == s[..n - 1] + [s[n - 1]] && t[..n] == t[..n - 1] + [t[n - 1]];
    }
  }

  lemma FirstReadyUnique(nodes: seq<nat>, edges: Edges, placed: seq<nat>, v: nat, w: nat)
    requires FirstReady(nodes, edges, placed, v) && FirstReady(nodes, edges, placed, w)
    ensures v == w
  {
    var i :| 0 <= i < |nodes| && nodes[i] == v
          && forall j :: 0 <= j < i ==> nodes[j] in placed || !Ready(edges, placed, nodes[j]);
    var j :| 0 <= j < |nodes| && nodes[j] == w
          && forall i :: 0 <= i < j ==> nodes[i] in placed || !Ready(edges, placed, nodes[i]);
  }

  /** A numbering of a greedy order is a bijection onto 0..n-1 that respects every edge. */
  lemma OrderRespectsEdges(nodes: seq<nat>, edges: Edges, s: seq<nat>, order: map<nat, nat>)
    requires Distinct(nodes) && Over(nodes, edges)
    requires IsGreedyOrder(nodes, edges, s) && Numbers(order, s)
    ensures forall v :: v in order <==> v in nodes
    ensures forall v :: v in order ==> order[v] < |nodes|
    ensures forall v, w :: v in order && w in order && order[v] == order[w] ==> v == w
    ensures forall e :: e in edges ==> e.0 in order && e.1 in order && order[e.0] < order[e.1]
  {
    forall k | 0 <= k < |s| ensures s[k] in nodes {
      assert FirstReady(nodes, edges, s[..k], s[k]);
    }
    forall e | e in edges ensures e.0 in order && e.1 in order && order[e.0] < order[e.1] {
      var b :| 0 <= b < |s| && s[b] == e.1;
      assert FirstReady(nodes, edges, s[..b], s[b]);
      var a :| 0 <= a < b && s[a] == e.0;
    }
  }
}
