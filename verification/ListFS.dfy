/**
 Linked lists in the heap. A list is a chain of non-empty nodes, each with a
 head and a tail cell, that ends at an empty node; operations overwrite tail
 cells in place and move the handle.
 */
module ListFS {
  import opened TypeTree
  import opened TypeLayout
  import opened FSHeap

  // The types of empty and of non-empty nodes.
  datatype Kind = Kind(empty: nat, nonEmpty: nat)

  const HEAD: nat := 1
  const TAIL: nat := 2

  // Non-empty nodes have a head and a tail, empty ones have no features.
  predicate KindOK(s: Schema, k: Kind) {
    && IsType(s.parents, k.empty) && IsType(s.parents, k.nonEmpty) && k.empty != k.nonEmpty
    && |s.featureNumber| == |s.parents| && s.featureNumber[k.empty] == 0 && s.featureNumber[k.nonEmpty] == 2
  }

  predicate NodeAt(k: Kind, cells: seq<nat>, extents: map<nat, nat>, a: nat) {
    a in extents && extents[a] == 3 && a + 2 < |cells| && cells[a] == k.nonEmpty
  }

  predicate EmptyAt(k: Kind, cells: seq<nat>, extents: map<nat, nat>, a: nat) {
    a in extents && a < |cells| && cells[a] == k.empty
  }

  function Follower(nodes: seq<nat>, e: nat, i: nat): nat {
    if i < |nodes| then nodes[i] else e
  }

  // From a on the chain runs through the nodes and ends at e.
  predicate ListAt(k: Kind, cells: seq<nat>, extents: map<nat, nat>, a: nat, nodes: seq<nat>, e: nat) {
    && a == Follower(nodes, e, 0) && EmptyAt(k, cells, extents, e)
    && forall i {:trigger LinkAt(k, cells, extents, nodes, e, i)} ::
         0 <= i < |nodes| ==> LinkAt(k, cells, extents, nodes, e, i)
  }

  // No chain from a ends.
  ghost predicate NoList(k: Kind, cells: seq<nat>, extents: map<nat, nat>, a: nat) {
    forall nodes, e :: !ListAt(k, cells, extents, a, nodes, e)
  }

  // Node i is there and leads to the next one.
  predicate LinkAt(k: Kind, cells: seq<nat>, extents: map<nat, nat>, nodes: seq<nat>, e: nat, i: int) {
    0 <= i < |nodes| && NodeAt(k, cells, extents, nodes[i]) && cells[nodes[i] + TAIL] == Follower(nodes, e, i + 1)
  }

  // The heads of the nodes.
  function Elements(cells: seq<nat>, nodes: seq<nat>): (r: seq<nat>)
    requires NodesFit(cells, nodes)
    ensures |r| == |nodes| && forall i :: 0 <= i < |nodes| ==> r[i] == cells[nodes[i] + HEAD]
  {
    seq(|nodes|, i requires 0 <= i < |nodes| => cells[nodes[i] + HEAD])
  }

  predicate NodesFit(cells: seq<nat>, nodes: seq<nat>) {
    forall i :: 0 <= i < |nodes| ==> nodes[i] + TAIL < |cells|
  }

  lemma ListFits(k: Kind, cells: seq<nat>, extents: map<nat, nat>, a: nat, nodes: seq<nat>, e: nat)
    requires ListAt(k, cells, extents, a, nodes, e)
    ensures NodesFit(cells, nodes) && forall n :: n in nodes ==> NodeAt(k, cells, extents, n)
  {
    forall i | 0 <= i < |nodes| ensures NodeAt(k, cells, extents, nodes[i]) {
      assert LinkAt(k, cells, extents, nodes, e, i);
    }
  }

  // Two chains that share a node run together from there on.
  lemma {:induction false} ChainsMeet(k: Kind, cells: seq<nat>, extents: map<nat, nat>, a: nat, nodes: seq<nat>, e: nat,
                                      b: nat, nodes': seq<nat>, e': nat, i: nat, j: nat)
    requires k.empty != k.nonEmpty && ListAt(k, cells, extents, a, nodes, e) && ListAt(k, cells, extents, b, nodes', e')
    requires i < |nodes| && j < |nodes'| && nodes[i] == nodes'[j]
    ensures nodes[i..] == nodes'[j..] && e == e'
    decreases |nodes| - i
  {
    assert LinkAt(k, cells, extents, nodes, e, i) && LinkAt(k, cells, extents, nodes', e', j);
    assert i + 1 < |nodes| ==> LinkAt(k, cells, extents, nodes, e, i + 1);
    assert j + 1 < |nodes'| ==> LinkAt(k, cells, extents, nodes', e', j + 1);
    if i + 1 < |nodes| {
      ChainsMeet(k, cells, extents, a, nodes, e, b, nodes', e', i + 1, j + 1);
      assert nodes[i..] == [nodes[i]] + nodes[i + 1..] && nodes'[j..] == [nodes'[j]] + nodes'[j + 1..];
    }
  }

  /** A chain that ends visits no node twice. */
  lemma ListIsAcyclic(k: Kind, cells: seq<nat>, extents: map<nat, nat>, a: nat, nodes: seq<nat>, e: nat)
    requires k.empty != k.nonEmpty && ListAt(k, cells, extents, a, nodes, e)
    ensures forall i, j :: 0 <= i < j < |nodes| ==> nodes[i] != nodes[j]
  {
    forall i, j | 0 <= i < j < |nodes| ensures nodes[i] != nodes[j] {
      var suffix, suffix' := nodes[i..], nodes[j..];
      assert |suffix| > |suffix'|;
      if nodes[i] == nodes[j] {
        ChainsMeet(k, cells, extents, a, nodes, e, a, nodes, e, i, j);
      }
    }
  }

  /** The chain from a node is determined by the heap. */
  lemma ListIsUnique(k: Kind, cells: seq<nat>, extents: map<nat, nat>, a: nat, nodes: seq<nat>, e: nat,
                     nodes': seq<nat>, e': nat)
    requires k.empty != k.nonEmpty && ListAt(k, cells, extents, a, nodes, e) && ListAt(k, cells, extents, a, nodes', e')
    ensures nodes == nodes' && e == e'
  {
    assert |nodes| > 0 ==> LinkAt(k, cells, extents, nodes, e, 0);
    assert |nodes'| > 0 ==> LinkAt(k, cells, extents, nodes', e', 0);
    if nodes != [] && nodes' != [] {
      ChainsMeet(k, cells, extents, a, nodes, e, a, nodes', e', 0, 0);
      assert nodes[0..] == nodes && nodes'[0..] == nodes';
    }
  }

  // Only the cells in the set changed, and the heap may have grown.
  ghost predicate ChangedOnly(cells: seq<nat>, cells': seq<nat>, extents: map<nat, nat>, extents': map<nat, nat>,
                              changed: set<nat>) {
    && |cells| <= |cells'| && (forall c :: 0 <= c < |cells| && c !in changed ==> cells'[c] == cells[c])
    && forall fs :: fs in extents ==> fs in extents' && extents'[fs] == extents[fs]
  }

  /** A list none of whose cells changed is still the same list. */
  lemma OtherListKept(k: Kind, cells: seq<nat>, cells': seq<nat>, extents: map<nat, nat>, extents': map<nat, nat>,
                      changed: set<nat>, a: nat, nodes: seq<nat>, e: nat)
    requires ListAt(k, cells, extents, a, nodes, e) && ChangedOnly(cells, cells', extents, extents', changed)
    requires e !in changed && forall n :: n in nodes ==> n !in changed && n + HEAD !in changed && n + TAIL !in changed
    ensures ListAt(k, cells', extents', a, nodes, e) && NodesFit(cells', nodes) && NodesFit(cells, nodes)
    ensures Elements(cells', nodes) == Elements(cells, nodes)
  {
    ListFits(k, cells, extents, a, nodes, e);
    forall i | 0 <= i < |nodes|
      ensures LinkAt(k, cells', extents', nodes, e, i) && cells'[nodes[i] + HEAD] == cells[nodes[i] + HEAD]
    {
      assert nodes[i] in nodes && LinkAt(k, cells, extents, nodes, e, i);
    }
    ListFits(k, cells', extents', a, nodes, e);
  }

  // Nodes of a list lie apart in the heap.
  lemma NodesApart(k: Kind, cells: seq<nat>, extents: map<nat, nat>, x: nat, y: nat)
    requires ExtentsOK(extents, |cells|) && NodeAt(k, cells, extents, x) && y in extents && x != y
    ensures y + extents[y] <= x || x + 3 <= y
  {
  }

  // Making b the follower of the last node of a list.
  lemma Linked(k: Kind, cells: seq<nat>, extents: map<nat, nat>, a: nat, nodes: seq<nat>, e: nat, b: nat,
               nodes': seq<nat>, e': nat)
    requires k.empty != k.nonEmpty && ExtentsOK(extents, |cells|)
    requires ListAt(k, cells, extents, a, nodes, e) && ListAt(k, cells, extents, b, nodes', e')
    requires nodes != [] && nodes[|nodes| - 1] !in nodes' && nodes[|nodes| - 1] + TAIL < |cells|
    ensures ListAt(k, cells[nodes[|nodes| - 1] + TAIL := b], extents, a, nodes + nodes', e')
  {
    var last := nodes[|nodes| - 1];
    var all, cells' := nodes + nodes', cells[last + TAIL := b];
    ListFits(k, cells, extents, a, nodes, e);
    assert last in nodes;
    NodesApart(k, cells, extents, last, e');
    hide LinkAt;
    forall i | 0 <= i < |all| ensures LinkAt(k, cells', extents, all, e', i) {
      LinkedAt(k, cells, extents, a, nodes, e, b, nodes', e', i);
    }
  }

  lemma LinkedElements(k: Kind, cells: seq<nat>, extents: map<nat, nat>, a: nat, nodes: seq<nat>, e: nat, b: nat,
                       nodes': seq<nat>, e': nat)
    requires k.empty != k.nonEmpty && ExtentsOK(extents, |cells|)
    requires ListAt(k, cells, extents, a, nodes, e) && ListAt(k, cells, extents, b, nodes', e')
    requires nodes != [] && nodes[|nodes| - 1] !in nodes' && nodes[|nodes| - 1] + TAIL < |cells|
    requires NodesFit(cells, nodes) && NodesFit(cells, nodes') && NodesFit(cells, nodes + nodes')
    ensures Elements(cells[nodes[|nodes| - 1] + TAIL := b], nodes + nodes')
         == Elements(cells, nodes) + Elements(cells, nodes')
  {
    var all, cells' := nodes + nodes', cells[nodes[|nodes| - 1] + TAIL := b];
    forall i | 0 <= i < |all| ensures cells'[all[i] + HEAD] == cells[all[i] + HEAD] {
      LinkedAt(k, cells, extents, a, nodes, e, b, nodes', e', i);
    }
    hide *;
    assert Elements(cells', all) == Elements(cells, nodes) + Elements(cells, nodes');
  }

  lemma LinkedAt(k: Kind, cells: seq<nat>, extents: map<nat, nat>, a: nat, nodes: seq<nat>, e: nat,
                 b: nat, nodes': seq<nat>, e': nat, i: nat)
    requires k.empty != k.nonEmpty && ExtentsOK(extents, |cells|)
    requires ListAt(k, cells, extents, a, nodes, e) && ListAt(k, cells, extents, b, nodes', e')
    requires nodes != [] && nodes[|nodes| - 1] !in nodes' && nodes[|nodes| - 1] + TAIL < |cells| && i < |nodes + nodes'|
    ensures LinkAt(k, cells[nodes[|nodes| - 1] + TAIL := b], extents, nodes + nodes', e', i)
    ensures (nodes + nodes')[i] + TAIL < |cells|
    ensures cells[nodes[|nodes| - 1] + TAIL := b][(nodes + nodes')[i] + HEAD] == cells[(nodes + nodes')[i] + HEAD]
  {
    var last, all := nodes[|nodes| - 1], nodes + nodes';
    ListFits(k, cells, extents, a, nodes, e);
    assert last in nodes;
    if i < |nodes| {
      ListIsAcyclic(k, cells, extents, a, nodes, e);
      assert LinkAt(k, cells, extents, nodes, e, i);
      if i < |nodes| - 1 {
        NodesApart(k, cells, extents, last, nodes[i]);
      }
    } else {
      assert LinkAt(k, cells, extents, nodes', e', i - |nodes|);
      assert all[i] in nodes';
      NodesApart(k, cells, extents, last, all[i]);
    }
  }

  /** When the second list contains the last node of the first, linking them makes a ring: no chain from there ends. */
  lemma {:induction false} LinkingMakesRing(k: Kind, cells: seq<nat>, extents: map<nat, nat>, b: nat, nodes': seq<nat>,
                                            e': nat, j: nat,
                                            i: nat, nodes: seq<nat>, e: nat)
    requires k.empty != k.nonEmpty && ExtentsOK(extents, |cells|) && ListAt(k, cells, extents, b, nodes', e')
    requires i <= j < |nodes'| && nodes'[j] + TAIL < |cells|
    ensures !ListAt(k, cells[nodes'[j] + TAIL := b], extents, nodes'[i], nodes, e)
    decreases |nodes|
  {
    var cells' := cells[nodes'[j] + TAIL := b];
    if ListAt(k, cells', extents, nodes'[i], nodes, e) {
      RingStep(k, cells, extents, b, nodes', e', j, i);
      var next := if i == j then 0 else i + 1;
      assert nodes != [] by {
        assert cells'[nodes'[i]] == k.nonEmpty;
      }
      assert LinkAt(k, cells', extents, nodes, e, 0);
      RestOfList(k, cells', extents, nodes'[i], nodes, e);
      LinkingMakesRing(k, cells, extents, b, nodes', e', j, next, nodes[1..], e);
    }
  }

  // In the ring node i leads to the next one, and the node that was changed to the first.
  lemma RingStep(k: Kind, cells: seq<nat>, extents: map<nat, nat>, b: nat, nodes': seq<nat>, e': nat, j: nat, i: nat)
    requires k.empty != k.nonEmpty && ExtentsOK(extents, |cells|) && ListAt(k, cells, extents, b, nodes', e')
    requires i <= j < |nodes'| && nodes'[j] + TAIL < |cells|
    ensures var cells' := cells[nodes'[j] + TAIL := b];
            && nodes'[i] + TAIL < |cells'| && cells'[nodes'[i]] == k.nonEmpty
            && cells'[nodes'[i] + TAIL] == nodes'[if i == j then 0 else i + 1]
  {
    ListIsAcyclic(k, cells, extents, b, nodes', e');
    assert LinkAt(k, cells, extents, nodes', e', i) && LinkAt(k, cells, extents, nodes', e', j);
    if i < j {
      NodesApart(k, cells, extents, nodes'[j], nodes'[i]);
    }
  }

  lemma RestOfList(k: Kind, cells: seq<nat>, extents: map<nat, nat>, a: nat, nodes: seq<nat>, e: nat)
    requires ListAt(k, cells, extents, a, nodes, e) && nodes != []
    ensures a + TAIL < |cells| && ListAt(k, cells, extents, cells[a + TAIL], nodes[1..], e)
  {
    assert LinkAt(k, cells, extents, nodes, e, 0);
    forall i | 0 <= i < |nodes[1..]| ensures LinkAt(k, cells, extents, nodes[1..], e, i) {
      assert LinkAt(k, cells, extents, nodes, e, i + 1);
    }
  }

  // The list at a has these nodes and these elements.
  ghost predicate Holds(k: Kind, cells: seq<nat>, extents: map<nat, nat>, a: nat, nodes: seq<nat>, e: nat,
                        elements: seq<nat>) {
    ListAt(k, cells, extents, a, nodes, e) && NodesFit(cells, nodes) && Elements(cells, nodes) == elements
  }

  // A new non-empty node in front of a list.
  lemma NodeInFront(k: Kind, cells: seq<nat>, extents: map<nat, nat>, a: nat, nodes: seq<nat>, e: nat,
                    elements: seq<nat>, v: nat)
    requires Holds(k, cells, extents, a, nodes, e, elements) && ExtentsOK(extents, |cells|)
    ensures Holds(k, cells + [k.nonEmpty, v, a], extents[|cells| := 3], |cells|, [|cells|] + nodes, e, [v] + elements)
  {
    var cells', extents', all := cells + [k.nonEmpty, v, a], extents[|cells| := 3], [|cells|] + nodes;
    ListFits(k, cells, extents, a, nodes, e);
    assert |cells| !in extents;
    forall i | 0 <= i < |all| ensures LinkAt(k, cells', extents', all, e, i) {
      if i > 0 {
        assert LinkAt(k, cells, extents, nodes, e, i - 1);
      }
    }
    forall i | 0 <= i < |all| ensures all[i] + TAIL < |cells'| && cells'[all[i] + HEAD] == ([v] + elements)[i] {
      if i > 0 {
        assert nodes[i - 1] + TAIL < |cells|;
      }
    }
  }

  // A new node behind a list, in front of its end.
  lemma NodeBehind(k: Kind, cells: seq<nat>, extents: map<nat, nat>, a: nat, nodes: seq<nat>, e: nat,
                   elements: seq<nat>, v: nat)
    requires k.empty != k.nonEmpty && ExtentsOK(extents, |cells|)
    requires Holds(k, cells, extents, a, nodes, e, elements) && nodes != [] && nodes[|nodes| - 1] + TAIL < |cells|
    ensures Holds(k, (cells + [k.nonEmpty, v, e])[nodes[|nodes| - 1] + TAIL := |cells|], extents[|cells| := 3],
                  a, nodes + [|cells|], e, elements + [v])
    ensures ChangedOnly(cells, (cells + [k.nonEmpty, v, e])[nodes[|nodes| - 1] + TAIL := |cells|],
                        extents, extents[|cells| := 3], {nodes[|nodes| - 1] + TAIL})
  {
    var cells', extents' := cells + [k.nonEmpty, v, e], extents[|cells| := 3];
    EmptyList(k, cells, extents, e, a, nodes, elements);
    NodeInFront(k, cells, extents, e, [], e, [], v);
    assert [|cells|] + [] == [|cells|] && [v] + [] == [v];
    Grown(k, cells, extents, a, nodes, e, elements, [k.nonEmpty, v, e], 3);
    FreshNode(k, cells, extents, a, nodes, e);
    Joined(k, cells', extents', a, nodes, e, elements, |cells|, [|cells|], e, [v]);
  }

  lemma FreshNode(k: Kind, cells: seq<nat>, extents: map<nat, nat>, a: nat, nodes: seq<nat>, e: nat)
    requires ListAt(k, cells, extents, a, nodes, e)
    ensures |cells| !in nodes
  {
    ListFits(k, cells, extents, a, nodes, e);
  }

  lemma EmptyList(k: Kind, cells: seq<nat>, extents: map<nat, nat>, e: nat, a: nat, nodes: seq<nat>, elements: seq<nat>)
    requires Holds(k, cells, extents, a, nodes, e, elements)
    ensures Holds(k, cells, extents, e, [], e, [])
  {
  }

  // A list in a heap that grew by one structure.
  lemma Grown(k: Kind, cells: seq<nat>, extents: map<nat, nat>, a: nat, nodes: seq<nat>, e: nat, elements: seq<nat>,
              more: seq<nat>, n: nat)
    requires Holds(k, cells, extents, a, nodes, e, elements) && ExtentsOK(extents, |cells|) && n == |more| >= 1
    ensures Holds(k, cells + more, extents[|cells| := n], a, nodes, e, elements)
    ensures ExtentsOK(extents[|cells| := n], |cells + more|)
  {
    OtherListKept(k, cells, cells + more, extents, extents[|cells| := n], {}, a, nodes, e);
  }

  /** Linking two lists that share no node concatenates them. */
  lemma Joined(k: Kind, cells: seq<nat>, extents: map<nat, nat>, a: nat, nodes: seq<nat>, e: nat, elements: seq<nat>,
               b: nat, nodes': seq<nat>, e': nat, elements': seq<nat>)
    requires k.empty != k.nonEmpty && ExtentsOK(extents, |cells|)
    requires Holds(k, cells, extents, a, nodes, e, elements) && Holds(k, cells, extents, b, nodes', e', elements')
    requires nodes != [] && nodes[|nodes| - 1] !in nodes' && nodes[|nodes| - 1] + TAIL < |cells|
    ensures Holds(k, cells[nodes[|nodes| - 1] + TAIL := b], extents, a, nodes + nodes', e', elements + elements')
  {
    Linked(k, cells, extents, a, nodes, e, b, nodes', e');
    LinkedElements(k, cells, extents, a, nodes, e, b, nodes', e');
  }

  /** Two lists that share any node share the last one. */
  lemma SharedLast(k: Kind, cells: seq<nat>, extents: map<nat, nat>, a: nat, nodes: seq<nat>, e: nat,
                   b: nat, nodes': seq<nat>, e': nat)
    requires k.empty != k.nonEmpty && ListAt(k, cells, extents, a, nodes, e) && ListAt(k, cells, extents, b, nodes', e')
    requires exists n :: n in nodes && n in nodes'
    ensures nodes != [] && nodes[|nodes| - 1] in nodes'
  {
    var n :| n in nodes && n in nodes';
    var i :| 0 <= i < |nodes| && nodes[i] == n;
    var j :| 0 <= j < |nodes'| && nodes'[j] == n;
    ChainsMeet(k, cells, extents, a, nodes, e, b, nodes', e', i, j);
    assert nodes[i..][|nodes| - 1 - i] == nodes[|nodes| - 1];
    assert nodes'[j..][|nodes| - 1 - i] in nodes';
  }

  predicate Disjoint(nodes: seq<nat>, nodes': seq<nat>) {
    forall n :: !(n in nodes && n in nodes')
  }

  // Taking node i out: its predecessor leads to its follower.
  lemma NodeTakenOut(k: Kind, cells: seq<nat>, extents: map<nat, nat>, a: nat, nodes: seq<nat>, e: nat,
                     elements: seq<nat>, i: nat)
    requires k.empty != k.nonEmpty && ExtentsOK(extents, |cells|)
    requires Holds(k, cells, extents, a, nodes, e, elements) && 0 < i < |nodes|
    ensures nodes[i - 1] + TAIL < |cells| && nodes[i] + TAIL < |cells|
    ensures Holds(k, cells[nodes[i - 1] + TAIL := cells[nodes[i] + TAIL]], extents, a, nodes[..i] + nodes[i + 1..], e,
                  elements[..i] + elements[i + 1..])
    ensures cells[nodes[i - 1] + TAIL := cells[nodes[i] + TAIL]][nodes[i]] == k.nonEmpty
    ensures cells[nodes[i - 1] + TAIL := cells[nodes[i] + TAIL]][nodes[i] + HEAD] == elements[i]
    ensures nodes[i] in extents && extents[nodes[i]] == 3 && nodes[i] !in nodes[..i] + nodes[i + 1..]
  {
    var before, after := nodes[..i], nodes[i + 1..];
    ListFits(k, cells, extents, a, nodes, e);
    ListIsAcyclic(k, cells, extents, a, nodes, e);
    assert LinkAt(k, cells, extents, nodes, e, i) && LinkAt(k, cells, extents, nodes, e, i - 1);
    ListPrefix(k, cells, extents, a, nodes, e, i);
    ListSuffix(k, cells, extents, a, nodes, e, i + 1);
    NodesApart(k, cells, extents, nodes[i - 1], nodes[i]);
    NodesApart(k, cells, extents, nodes[i - 1], e);
    PrefixAndSuffix(k, cells, extents, a, nodes, e, elements, i);
  }

  /** A node that is no part of a list becomes a list of its own, with a new end, and the list stays as it is. */
  lemma NodeTerminated(k: Kind, cells: seq<nat>, extents: map<nat, nat>, a: nat, nodes: seq<nat>, e: nat,
                       elements: seq<nat>, x: nat)
    requires k.empty != k.nonEmpty && ExtentsOK(extents, |cells|)
    requires Holds(k, cells, extents, a, nodes, e, elements) && NodeAt(k, cells, extents, x) && x !in nodes
    ensures var cells', extents' := (cells + [k.empty])[x + TAIL := |cells|], extents[|cells| := 1];
            && Holds(k, cells', extents', a, nodes, e, elements)
            && Holds(k, cells', extents', x, [x], |cells|, [cells[x + HEAD]])
  {
    var cells', extents' := (cells + [k.empty])[x + TAIL := |cells|], extents[|cells| := 1];
    ListFits(k, cells, extents, a, nodes, e);
    forall n | n in nodes ensures n != x + TAIL && n + HEAD != x + TAIL && n + TAIL != x + TAIL {
      NodesApart(k, cells, extents, x, n);
    }
    NodesApart(k, cells, extents, x, e);
    OtherListKept(k, cells, cells', extents, extents', {x + TAIL}, a, nodes, e);
    assert |cells| !in extents;
    assert LinkAt(k, cells', extents', [x], |cells|, 0);
  }

  // The first i nodes lead to the node after them.
  lemma ListPrefix(k: Kind, cells: seq<nat>, extents: map<nat, nat>, a: nat, nodes: seq<nat>, e: nat, i: nat)
    requires ListAt(k, cells, extents, a, nodes, e) && i <= |nodes|
    ensures forall j :: 0 <= j < i ==> LinkAt(k, cells, extents, nodes[..i], Follower(nodes, e, i), j)
  {
    forall j | 0 <= j < i ensures LinkAt(k, cells, extents, nodes[..i], Follower(nodes, e, i), j) {
      assert LinkAt(k, cells, extents, nodes, e, j);
    }
  }

  lemma ListSuffix(k: Kind, cells: seq<nat>, extents: map<nat, nat>, a: nat, nodes: seq<nat>, e: nat, i: nat)
    requires ListAt(k, cells, extents, a, nodes, e) && i <= |nodes|
    ensures ListAt(k, cells, extents, Follower(nodes, e, i), nodes[i..], e)
  {
    forall j | 0 <= j < |nodes[i..]| ensures LinkAt(k, cells, extents, nodes[i..], e, j) {
      assert LinkAt(k, cells, extents, nodes, e, i + j);
    }
  }

  lemma PrefixAndSuffix(k: Kind, cells: seq<nat>, extents: map<nat, nat>, a: nat, nodes: seq<nat>, e: nat,
                        elements: seq<nat>, i: nat)
    requires k.empty != k.nonEmpty && ExtentsOK(extents, |cells|)
    requires Holds(k, cells, extents, a, nodes, e, elements) && 0 < i < |nodes|
    ensures nodes[i - 1] + TAIL < |cells| && nodes[i] + TAIL < |cells|
    ensures Holds(k, cells[nodes[i - 1] + TAIL := cells[nodes[i] + TAIL]], extents, a, nodes[..i] + nodes[i + 1..], e,
                  elements[..i] + elements[i + 1..])
  {
    var all, cells' := nodes[..i] + nodes[i + 1..], cells[nodes[i - 1] + TAIL := cells[nodes[i] + TAIL]];
    ListFits(k, cells, extents, a, nodes, e);
    assert nodes[i - 1] in nodes;
    NodesApart(k, cells, extents, nodes[i - 1], e);
    hide LinkAt;
    forall j | 0 <= j < |all| ensures LinkAt(k, cells', extents, all, e, j) {
      TakenOutAt(k, cells, extents, a, nodes, e, i, j);
    }
    assert ListAt(k, cells', extents, a, all, e);
    ListFits(k, cells', extents, a, all, e);
    ElementsTakenOut(k, cells, extents, a, nodes, e, elements, i);
  }

  lemma ElementsTakenOut(k: Kind, cells: seq<nat>, extents: map<nat, nat>, a: nat, nodes: seq<nat>, e: nat,
                         elements: seq<nat>, i: nat)
    requires k.empty != k.nonEmpty && ExtentsOK(extents, |cells|)
    requires Holds(k, cells, extents, a, nodes, e, elements) && 0 < i < |nodes|
    requires nodes[i - 1] + TAIL < |cells| && nodes[i] + TAIL < |cells|
    requires NodesFit(cells[nodes[i - 1] + TAIL := cells[nodes[i] + TAIL]], nodes[..i] + nodes[i + 1..])
    ensures Elements(cells[nodes[i - 1] + TAIL := cells[nodes[i] + TAIL]], nodes[..i] + nodes[i + 1..])
         == elements[..i] + elements[i + 1..]
  {
    var all, cells' := nodes[..i] + nodes[i + 1..], cells[nodes[i - 1] + TAIL := cells[nodes[i] + TAIL]];
    forall j | 0 <= j < |all| ensures cells'[all[j] + HEAD] == cells[nodes[if j < i then j else j + 1] + HEAD] {
      TakenOutAt(k, cells, extents, a, nodes, e, i, j);
    }
    assert Elements(cells, nodes) == elements && |elements| == |nodes|;
    hide *;
    var r := Elements(cells', all);
    forall j | 0 <= j < |all| ensures r[j] == (elements[..i] + elements[i + 1..])[j] {
      assert r[j] == cells[nodes[if j < i then j else j + 1] + HEAD];
    }
    assert r == elements[..i] + elements[i + 1..];
  }

  lemma TakenOutAt(k: Kind, cells: seq<nat>, extents: map<nat, nat>, a: nat, nodes: seq<nat>, e: nat, i: nat, j: nat)
    requires k.empty != k.nonEmpty && ExtentsOK(extents, |cells|) && ListAt(k, cells, extents, a, nodes, e)
    requires 0 < i < |nodes| && j < |nodes| - 1
    ensures nodes[i - 1] + TAIL < |cells| && nodes[i] + TAIL < |cells|
    ensures LinkAt(k, cells[nodes[i - 1] + TAIL := cells[nodes[i] + TAIL]], extents, nodes[..i] + nodes[i + 1..], e, j)
    ensures cells[nodes[i - 1] + TAIL := cells[nodes[i] + TAIL]][(nodes[..i] + nodes[i + 1..])[j] + HEAD]
         == cells[nodes[if j < i then j else j + 1] + HEAD]
  {
    var p := if j < i then j else j + 1;
    ListIsAcyclic(k, cells, extents, a, nodes, e);
    assert LinkAt(k, cells, extents, nodes, e, i) && LinkAt(k, cells, extents, nodes, e, i - 1);
    assert LinkAt(k, cells, extents, nodes, e, p);
    if p != i - 1 {
      NodesApart(k, cells, extents, nodes[i - 1], nodes[p]);
    }
  }

  /** A handle on a list in a heap. */
  class ListFS {
    const heap: FSHeap
    const kind: Kind
    var tyFS: nat

    ghost predicate Valid()
      reads this, heap
    {
      heap.Valid() && KindOK(heap.schema, kind)
    }

    // The handle is on a list with these nodes and elements.
    ghost predicate Is(nodes: seq<nat>, e: nat, elements: seq<nat>)
      reads this, heap
    {
      Valid() && Holds(kind, heap.cells, heap.extents, tyFS, nodes, e, elements)
    }

    constructor (heap: FSHeap, kind: Kind, tyFS: nat)
      ensures this.heap == heap && this.kind == kind && this.tyFS == tyFS
    {
      this.heap, this.kind, this.tyFS := heap, kind, tyFS;
    }

    method IsEmpty(ghost nodes: seq<nat>, ghost e: nat, ghost elements: seq<nat>) returns (empty: bool)
      requires Is(nodes, e, elements)
      ensures empty <==> nodes == []
    {
      assert nodes != [] ==> LinkAt(kind, heap.cells, heap.extents, nodes, e, 0);
      empty := heap.cells[tyFS] != kind.nonEmpty;
    }

    /** getLastListElement: the last node, and how many nodes come before it. */
    method GetLastListElement(a: nat, ghost nodes: seq<nat>, ghost e: nat) returns (last: nat, size: nat)
      requires Valid() && ListAt(kind, heap.cells, heap.extents, a, nodes, e) && nodes != []
      ensures last == nodes[|nodes| - 1] && size == |nodes| - 1 && last + TAIL < |heap.cells|
      ensures heap.cells[last + TAIL] == e
    {
      size := 0;
      last := a;
      assert LinkAt(kind, heap.cells, heap.extents, nodes, e, 0);
      assert 1 < |nodes| ==> LinkAt(kind, heap.cells, heap.extents, nodes, e, 1);
      while heap.cells[heap.GetFSValue(last, TAIL)] == kind.nonEmpty
        invariant size < |nodes| && last == nodes[size] && LinkAt(kind, heap.cells, heap.extents, nodes, e, size)
        invariant heap.cells[last + TAIL] < |heap.cells|
        decreases |nodes| - size
      {
        assert size + 1 < |nodes|;
        assert LinkAt(kind, heap.cells, heap.extents, nodes, e, size + 1);
        assert size + 2 < |nodes| ==> LinkAt(kind, heap.cells, heap.extents, nodes, e, size + 2);
        last := heap.GetFSValue(last, TAIL);
        size := size + 1;
      }
      assert size + 1 < |nodes| ==> LinkAt(kind, heap.cells, heap.extents, nodes, e, size + 1);
    }

    /** getLength */
    method GetLength(ghost nodes: seq<nat>, ghost e: nat, ghost elements: seq<nat>) returns (n: nat)
      requires Is(nodes, e, elements)
      ensures n == |elements|
    {
      var empty := IsEmpty(nodes, e, elements);
      if empty {
        return 0;
      }
      var last, size := GetLastListElement(tyFS, nodes, e);
      n := size + 1;
    }

    // A new non-empty node.
    method NewNode(v: nat, tail: nat) returns (node: nat)
      requires Valid()
      modifies heap`cells, heap`extents
      ensures Valid() && node == |old(heap.cells)| && heap.cells == old(heap.cells) + [kind.nonEmpty, v, tail]
      ensures heap.extents == old(heap.extents)[node := 3]
    {
      node := heap.CreateFS(kind.nonEmpty);
      heap.SetFSValue(node, HEAD, v);
      heap.SetFSValue(node, TAIL, tail);
    }

    /** addFirst: a new node in front; no cell that was there changes. */
    method AddFirst(v: nat, ghost nodes: seq<nat>, ghost e: nat, ghost elements: seq<nat>)
      requires Is(nodes, e, elements)
      modifies `tyFS, heap`cells, heap`extents
      ensures Is([tyFS] + nodes, e, [v] + elements) && heap.cells == old(heap.cells) + [kind.nonEmpty, v, old(tyFS)]
    {
      NodeInFront(kind, heap.cells, heap.extents, tyFS, nodes, e, elements, v);
      hide Holds;
      tyFS := NewNode(v, tyFS);
    }

    /** addLast: a new node behind the last one, in front of the same end; returns the new node. */
    method AddLast(v: nat, ghost nodes: seq<nat>, ghost e: nat, ghost elements: seq<nat>) returns (newEnd: nat)
      requires Is(nodes, e, elements)
      modifies `tyFS, heap`cells, heap`extents
      ensures Is(nodes + [newEnd], e, elements + [v]) && newEnd == |old(heap.cells)|
      ensures ChangedOnly(old(heap.cells), heap.cells, old(heap.extents), heap.extents,
                          if nodes == [] then {} else {nodes[|nodes| - 1] + TAIL})
    {
      var empty := IsEmpty(nodes, e, elements);
      if !empty {
        newEnd := AddLastLowlevel(v, nodes, e, elements);
      } else {
        NodeInFront(kind, heap.cells, heap.extents, tyFS, nodes, e, elements, v);
        assert [|heap.cells|] + nodes == nodes + [|heap.cells|] && [v] + elements == elements + [v] && tyFS == e;
        hide Holds;
        newEnd := NewNode(v, tyFS);
        tyFS := newEnd;
      }
    }

    // addLastLowlevel
    method AddLastLowlevel(v: nat, ghost nodes: seq<nat>, ghost e: nat, ghost elements: seq<nat>) returns (newEnd: nat)
      requires Is(nodes, e, elements) && nodes != []
      modifies heap`cells, heap`extents
      ensures Is(nodes + [newEnd], e, elements + [v]) && newEnd == |old(heap.cells)|
      ensures ChangedOnly(old(heap.cells), heap.cells, old(heap.extents), heap.extents, {nodes[|nodes| - 1] + TAIL})
    {
      hide ListAt, LinkAt, ChangedOnly, NodesFit, Elements, ExtentsOK, SchemaOK;
      var last, size := GetLastListElement(tyFS, nodes, e);
      var tyEmptyList := heap.GetFSValue(last, TAIL);
      NodeBehind(kind, heap.cells, heap.extents, tyFS, nodes, e, elements, v);
      hide Holds;
      newEnd := NewNode(v, tyEmptyList);
      heap.SetFSValue(last, TAIL, newEnd);
    }

    // checkCircularity: a non-empty list cannot be linked to itself.
    method CheckCircularity(fs: nat) returns (circular: bool)
      requires Valid() && tyFS < |heap.cells|
      ensures circular <==> tyFS == fs && heap.cells[tyFS] != kind.empty
    {
      circular := tyFS == fs && heap.cells[tyFS] != kind.empty;
    }

    /**
     append: links the last node to the other list. The result is the
     concatenation if and only if the lists share no node; otherwise no chain
     from here ends any more. A non-empty list is refused as its own operand.
     */
    method Append(fs: nat, ghost nodes: seq<nat>, ghost e: nat, ghost elements: seq<nat>,
                  ghost nodes': seq<nat>, ghost e': nat, ghost elements': seq<nat>) returns (circular: bool)
      requires Is(nodes, e, elements) && Holds(kind, heap.cells, heap.extents, fs, nodes', e', elements')
      modifies `tyFS, heap`cells
      ensures circular <==> old(tyFS) == fs && nodes != []
      ensures circular ==> unchanged(heap) && unchanged(this)
      ensures !circular && Disjoint(nodes, nodes') ==> Is(nodes + nodes', e', elements + elements')
      ensures !circular && !Disjoint(nodes, nodes') ==> Valid() && NoList(kind, heap.cells, heap.extents, tyFS)
      ensures ChangedOnly(old(heap.cells), heap.cells, heap.extents, heap.extents,
                          if nodes == [] then {} else {nodes[|nodes| - 1] + TAIL})
    {
      assert nodes != [] ==> LinkAt(kind, heap.cells, heap.extents, nodes, e, 0);
      circular := CheckCircularity(fs);
      if circular {
        return;
      }
      var empty := IsEmpty(nodes, e, elements);
      if !empty {
        AppendLowlevel(tyFS, fs, nodes, e, elements, nodes', e', elements');
      } else {
        tyFS := fs;
        assert nodes + nodes' == nodes' && elements + elements' == elements';
      }
    }

    // appendLowlevel
    method AppendLowlevel(a: nat, b: nat, ghost nodes: seq<nat>, ghost e: nat, ghost elements: seq<nat>,
                          ghost nodes': seq<nat>, ghost e': nat, ghost elements': seq<nat>)
      requires Valid() && Holds(kind, heap.cells, heap.extents, a, nodes, e, elements) && nodes != []
      requires Holds(kind, heap.cells, heap.extents, b, nodes', e', elements')
      modifies heap`cells
      ensures Valid()
      ensures Disjoint(nodes, nodes') ==>
                Holds(kind, heap.cells, heap.extents, a, nodes + nodes', e', elements + elements')
      ensures !Disjoint(nodes, nodes') ==> NoList(kind, heap.cells, heap.extents, a)
      ensures ChangedOnly(old(heap.cells), heap.cells, heap.extents, heap.extents, {nodes[|nodes| - 1] + TAIL})
    {
      hide ListAt, LinkAt, NoList, NodesFit, Elements, Disjoint, ChangedOnly, SchemaOK, ExtentsOK;
      var last, size := GetLastListElement(a, nodes, e);
      AppendEffect(kind, heap.cells, heap.extents, a, nodes, e, elements, b, nodes', e', elements');
      hide Holds;
      heap.SetFSValue(last, TAIL, b);
    }

    // terminateList: a new empty node behind the node.
    method TerminateList(x: nat, ghost nodes: seq<nat>, ghost e: nat, ghost elements: seq<nat>)
      requires Is(nodes, e, elements) && NodeAt(kind, heap.cells, heap.extents, x) && x !in nodes
      modifies heap`cells, heap`extents
      ensures Is(nodes, e, elements)
      ensures Holds(kind, heap.cells, heap.extents, x, [x], |old(heap.cells)|, [old(heap.cells[x + HEAD])])
      ensures ChangedOnly(old(heap.cells), heap.cells, old(heap.extents), heap.extents, {x + TAIL})
    {
      NodeTerminated(kind, heap.cells, heap.extents, tyFS, nodes, e, elements, x);
      hide Holds, ListAt, LinkAt, SchemaOK, ExtentsOK;
      var emptyList := heap.CreateFS(kind.empty);
      assert heap.cells == old(heap.cells) + [kind.empty];
      heap.SetFSValue(x, TAIL, emptyList);
    }

    // deleteElementFromList: looks behind node i, and takes the first node out whose head is v.
    method DeleteElementFromList(a: nat, v: nat, ghost nodes: seq<nat>, ghost e: nat, ghost elements: seq<nat>,
                                 ghost i: nat)
      returns (r: nat)
      requires Is(nodes, e, elements) && i < |nodes| && a == nodes[i] && v !in elements[..i + 1]
      modifies heap`cells, heap`extents
      ensures v !in elements ==> r == 0 && unchanged(heap)
      ensures v in elements ==> IsRemoved(nodes, e, elements, FirstIndex(elements, v), r, |old(heap.cells)|)
      ensures v in elements ==>
                Unlinked(old(heap.cells), heap.cells, old(heap.extents), heap.extents, nodes, FirstIndex(elements, v))
      decreases |nodes| - i
    {
      assert LinkAt(kind, heap.cells, heap.extents, nodes, e, i);
      var tail := heap.GetFSValue(a, TAIL);
      assert i + 1 < |nodes| ==> LinkAt(kind, heap.cells, heap.extents, nodes, e, i + 1);
      assert |nodes| == |elements| && (i + 1 < |nodes| ==> elements[i + 1] == heap.cells[nodes[i + 1] + HEAD]);
      hide LinkAt, SchemaOK, ExtentsOK, IsRemoved;
      if heap.cells[tail] == kind.nonEmpty {
        if heap.GetFSValue(tail, HEAD) == v {
          FirstIndexIs(elements, v, i + 1);
          TakeOut(a, tail, nodes, e, elements, i + 1);
          return tail;
        } else {
          assert elements[..i + 2] == elements[..i + 1] + [elements[i + 1]];
          r := DeleteElementFromList(tail, v, nodes, e, elements, i + 1);
          return;
        }
      }
      assert elements[..i + 1] == elements;
      r := 0;
    }

    // Unlinks node i and terminates it.
    method TakeOut(previous: nat, node: nat, ghost nodes: seq<nat>, ghost e: nat, ghost elements: seq<nat>,
                   ghost i: nat)
      requires Is(nodes, e, elements) && 0 < i < |nodes| && previous == nodes[i - 1] && node == nodes[i]
      modifies heap`cells, heap`extents
      ensures IsRemoved(nodes, e, elements, i, node, |old(heap.cells)|)
      ensures Unlinked(old(heap.cells), heap.cells, old(heap.extents), heap.extents, nodes, i)
    {
      NodeTakenOut(kind, heap.cells, heap.extents, tyFS, nodes, e, elements, i);
      hide Holds, ListAt, LinkAt, SchemaOK, ExtentsOK;
      heap.SetFSValue(previous, TAIL, heap.GetFSValue(node, TAIL));
      TerminateList(node, nodes[..i] + nodes[i + 1..], e, elements[..i] + elements[i + 1..]);
    }

    // The handle's list lost node i, which is now a list of its own.
    ghost predicate IsRemoved(nodes: seq<nat>, e: nat, elements: seq<nat>, i: nat, r: nat, newEnd: nat)
      requires i < |nodes| == |elements|
      reads this, heap
    {
      && Is(nodes[..i] + nodes[i + 1..], e, elements[..i] + elements[i + 1..])
      && r == nodes[i] && Holds(kind, heap.cells, heap.extents, r, [r], newEnd, [elements[i]])
    }

    // The handle moves to the tail, and the old first node is terminated.
    method RemoveFirst(ghost nodes: seq<nat>, ghost e: nat, ghost elements: seq<nat>) returns (r: nat)
      requires Is(nodes, e, elements) && nodes != []
      modifies `tyFS, heap`cells, heap`extents
      ensures |nodes| == |elements| && IsRemoved(nodes, e, elements, 0, r, |old(heap.cells)|)
    {
      r := tyFS;
      FirstTakenOut(kind, heap.cells, heap.extents, tyFS, nodes, e, elements);
      assert r == nodes[0] && |nodes| == |elements|;
      hide Holds, ListAt, LinkAt, SchemaOK, ExtentsOK;
      tyFS := heap.GetFSValue(tyFS, TAIL);
      TerminateList(r, nodes[1..], e, elements[1..]);
      assert nodes[..0] + nodes[0 + 1..] == nodes[1..] && elements[..0] + elements[0 + 1..] == elements[1..];
    }

    /**
     removeElement: the first node whose head is v leaves the list and is
     returned as a list of one element; when there is none nothing changes.
     */
    method RemoveElement(v: nat, ghost nodes: seq<nat>, ghost e: nat, ghost elements: seq<nat>) returns (r: nat)
      requires Is(nodes, e, elements)
      modifies `tyFS, heap`cells, heap`extents
      ensures v !in elements ==> r == 0 && unchanged(this) && unchanged(heap)
      ensures |nodes| == |elements|
      ensures v in elements ==> IsRemoved(nodes, e, elements, FirstIndex(elements, v), r, |old(heap.cells)|)
    {
      var empty := IsEmpty(nodes, e, elements);
      if empty {
        return 0;
      }
      assert LinkAt(kind, heap.cells, heap.extents, nodes, e, 0);
      hide LinkAt, ListAt, IsRemoved, SchemaOK, ExtentsOK;
      if heap.GetFSValue(tyFS, HEAD) == v {
        FirstIndexIs(elements, v, 0);
        r := RemoveFirst(nodes, e, elements);
      } else {
        r := DeleteElementFromList(tyFS, v, nodes, e, elements, 0);
      }
    }

    /** prepend: the other list goes in front if it has elements. */
    method Prepend(fs: nat, ghost nodes: seq<nat>, ghost e: nat, ghost elements: seq<nat>,
                   ghost nodes': seq<nat>, ghost e': nat, ghost elements': seq<nat>) returns (circular: bool)
      requires Is(nodes, e, elements) && Holds(kind, heap.cells, heap.extents, fs, nodes', e', elements')
      modifies `tyFS, heap`cells
      ensures circular <==> old(tyFS) == fs && nodes != []
      ensures circular ==> unchanged(heap) && unchanged(this)
      ensures !circular && Disjoint(nodes', nodes) ==> Is(nodes' + nodes, e, elements' + elements)
      ensures !circular && !Disjoint(nodes', nodes) ==> Valid() && NoList(kind, heap.cells, heap.extents, tyFS)
      ensures ChangedOnly(old(heap.cells), heap.cells, heap.extents, heap.extents,
                          if nodes' == [] then {} else {nodes'[|nodes'| - 1] + TAIL})
    {
      assert nodes != [] ==> LinkAt(kind, heap.cells, heap.extents, nodes, e, 0);
      assert nodes' != [] ==> LinkAt(kind, heap.cells, heap.extents, nodes', e', 0);
      circular := CheckCircularity(fs);
      if circular {
        return;
      }
      if heap.cells[fs] == kind.nonEmpty {
        AppendLowlevel(fs, tyFS, nodes', e', elements', nodes, e, elements);
        tyFS := fs;
      } else {
        assert nodes' + nodes == nodes && elements' + elements == elements;
      }
    }
  }

  // Only the tails of node i and of the node before it changed.
  ghost predicate Unlinked(cells: seq<nat>, cells': seq<nat>, extents: map<nat, nat>, extents': map<nat, nat>,
                           nodes: seq<nat>, i: int) {
    0 < i < |nodes| && ChangedOnly(cells, cells', extents, extents', {nodes[i - 1] + TAIL, nodes[i] + TAIL})
  }

  function FirstIndex(s: seq<nat>, v: nat): (i: nat)
    requires v in s
    ensures i < |s| && s[i] == v && v !in s[..i]
  {
    if s[0] == v then 0
    else
      assert s == [s[0]] + s[1..];
      assert s[..1 + FirstIndex(s[1..], v)] == [s[0]] + s[1..][..FirstIndex(s[1..], v)];
      1 + FirstIndex(s[1..], v)
  }

  lemma FirstIndexIs(s: seq<nat>, v: nat, i: nat)
    requires i < |s| && s[i] == v && v !in s[..i]
    ensures v in s && FirstIndex(s, v) == i
  {
  }

  lemma FirstTakenOut(k: Kind, cells: seq<nat>, extents: map<nat, nat>, a: nat, nodes: seq<nat>, e: nat,
                      elements: seq<nat>)
    requires k.empty != k.nonEmpty && Holds(k, cells, extents, a, nodes, e, elements) && nodes != []
    ensures NodeAt(k, cells, extents, a) && a !in nodes[1..] && cells[a + HEAD] == elements[0]
    ensures Holds(k, cells, extents, cells[a + TAIL], nodes[1..], e, elements[1..])
  {
    assert LinkAt(k, cells, extents, nodes, e, 0);
    ListIsAcyclic(k, cells, extents, a, nodes, e);
    ListSuffix(k, cells, extents, a, nodes, e, 1);
    ListFits(k, cells, extents, cells[a + TAIL], nodes[1..], e);
    assert Elements(cells, nodes[1..]) == elements[1..];
  }

  lemma AppendEffect(k: Kind, cells: seq<nat>, extents: map<nat, nat>, a: nat, nodes: seq<nat>, e: nat,
                     elements: seq<nat>,
                     b: nat, nodes': seq<nat>, e': nat, elements': seq<nat>)
    requires k.empty != k.nonEmpty && ExtentsOK(extents, |cells|)
    requires Holds(k, cells, extents, a, nodes, e, elements) && Holds(k, cells, extents, b, nodes', e', elements')
    requires nodes != [] && nodes[|nodes| - 1] + TAIL < |cells|
    ensures var cells' := cells[nodes[|nodes| - 1] + TAIL := b];
            && (if Disjoint(nodes, nodes') then Holds(k, cells', extents, a, nodes + nodes', e', elements + elements')
                else NoList(k, cells', extents, a))
            && ChangedOnly(cells, cells', extents, extents, {nodes[|nodes| - 1] + TAIL})
  {
    if Disjoint(nodes, nodes') {
      assert nodes[|nodes| - 1] in nodes;
      hide Holds;
      Joined(k, cells, extents, a, nodes, e, elements, b, nodes', e', elements');
    } else {
      RingFrom(k, cells, extents, a, nodes, e, b, nodes', e');
    }
  }

  lemma RingFrom(k: Kind, cells: seq<nat>, extents: map<nat, nat>, a: nat, nodes: seq<nat>, e: nat, b: nat,
                 nodes': seq<nat>, e': nat)
    requires k.empty != k.nonEmpty && ExtentsOK(extents, |cells|)
    requires ListAt(k, cells, extents, a, nodes, e) && ListAt(k, cells, extents, b, nodes', e')
    requires nodes != [] && !Disjoint(nodes, nodes') && nodes[|nodes| - 1] + TAIL < |cells|
    ensures NoList(k, cells[nodes[|nodes| - 1] + TAIL := b], extents, a)
  {
    var last := nodes[|nodes| - 1];
    var cells' := cells[last + TAIL := b];
    SharedLast(k, cells, extents, a, nodes, e, b, nodes', e');
    var j :| 0 <= j < |nodes'| && nodes'[j] == last;
    forall ns, x ensures !ListAt(k, cells', extents, a, ns, x) {
      if ListAt(k, cells', extents, a, ns, x) {
        ReachesLast(k, cells, extents, a, nodes, e, b, 0, ns, x);
        var m := |nodes| - 1;
        ListSuffix(k, cells', extents, a, ns, x, m);
        LinkingMakesRing(k, cells, extents, b, nodes', e', j, j, ns[m..], x);
      }
    }
  }

  // A chain in the changed heap still runs through the nodes up to the last one.
  lemma {:induction false} ReachesLast(k: Kind, cells: seq<nat>, extents: map<nat, nat>, a: nat, nodes: seq<nat>,
                                       e: nat, b: nat,
                                       i: nat, ns: seq<nat>, x: nat)
    requires k.empty != k.nonEmpty && ExtentsOK(extents, |cells|) && ListAt(k, cells, extents, a, nodes, e)
    requires nodes != [] && nodes[|nodes| - 1] + TAIL < |cells| && i < |nodes|
    requires ListAt(k, cells[nodes[|nodes| - 1] + TAIL := b], extents, a, ns, x)
    requires i <= |ns| && Follower(ns, x, i) == nodes[i]
    ensures |nodes| - 1 < |ns| && ns[|nodes| - 1] == nodes[|nodes| - 1]
    decreases |nodes| - i
  {
    var last := nodes[|nodes| - 1];
    var cells' := cells[last + TAIL := b];
    assert LinkAt(k, cells, extents, nodes, e, i) && LinkAt(k, cells, extents, nodes, e, |nodes| - 1);
    if nodes[i] != last {
      NodesApart(k, cells, extents, last, nodes[i]);
    }
    assert i < |ns|;
    assert LinkAt(k, cells', extents, ns, x, i);
    if i < |nodes| - 1 {
      ListIsAcyclic(k, cells, extents, a, nodes, e);
      ReachesLast(k, cells, extents, a, nodes, e, b, i + 1, ns, x);
    }
  }

  // ---------------------------------------------------------- a shared node

  /** Appending to a list one that goes on with its own node is not refused, and leaves no list. */
  method AppendSharedNode(heap: FSHeap, k: Kind) returns (a: ListFS, circular: bool)
    requires heap.Valid() && KindOK(heap.schema, k)
    modifies heap`cells, heap`extents
    ensures a.heap == heap && a.kind == k && !circular && NoList(k, heap.cells, heap.extents, a.tyFS)
  {
    var end := heap.CreateFS(k.empty);
    a := new ListFS(heap, k, end);
    assert a.Is([], end, []);
    hide *;
    var node := a.AddLast(1, [], end, []);
    assert [] + [node] == [node] && [] + [1] == [1];
    OneNode(a, node, end);
    var b := new ListFS(heap, k, node);
    SameHandle(a, b, node, end);
    b.AddFirst(2, [node], end, [1]);
    assert [b.tyFS] + [node] == [b.tyFS, node] && [2] + [1] == [2, 1];
    TailIsList(a, b, node, end);
    circular := a.Append(b.tyFS, [node], end, [1], [b.tyFS, node], end, [2, 1]);
  }

  lemma OneNode(a: ListFS, node: nat, end: nat)
    requires a.Is([node], end, [1])
    ensures a.tyFS == node
  {
  }

  lemma SameHandle(a: ListFS, b: ListFS, node: nat, end: nat)
    requires a.Is([node], end, [1]) && b.heap == a.heap && b.kind == a.kind && b.tyFS == a.tyFS
    ensures b.Is([node], end, [1])
  {
  }

  // Behind the new node stands the other list.
  lemma TailIsList(a: ListFS, b: ListFS, node: nat, end: nat)
    requires b.Is([b.tyFS, node], end, [2, 1]) && b.heap == a.heap && b.kind == a.kind && a.tyFS == node
    ensures a.Is([node], end, [1]) && a.tyFS != b.tyFS && !Disjoint([node], [b.tyFS, node])
    ensures Holds(a.kind, a.heap.cells, a.heap.extents, b.tyFS, [b.tyFS, node], end, [2, 1])
  {
    var k, cells, extents, nodes := a.kind, a.heap.cells, a.heap.extents, [b.tyFS, node];
    ListIsAcyclic(k, cells, extents, b.tyFS, nodes, end);
    assert nodes[0] != nodes[1];
    assert LinkAt(k, cells, extents, nodes, end, 0) && LinkAt(k, cells, extents, nodes, end, 1);
    assert LinkAt(k, cells, extents, [node], end, 0);
    assert Elements(cells, nodes)[1] == 1;
    assert node in [node] && node in nodes;
  }
}
