/**
 The type hierarchy as a value: a parent vector and child lists, the paths to
 the root that define subsumption, and the pre-order of a tree.
 Type 0 is the invalid type and type 1 is the top type, its own parent.
 */
module TypeTree {
  import opened TopologicalSort

  const INVALID: nat := 0
  const TOP: nat := 1

  // Parents are created before their children.
  predicate ParentsOK(parents: seq<nat>) {
    && |parents| >= 2 && parents[INVALID] == INVALID && parents[TOP] == TOP
    && forall t :: 2 <= t < |parents| ==> 1 <= parents[t] < t
  }

  predicate IsType(parents: seq<nat>, t: int) {
    1 <= t < |parents|
  }

  // The positions from start on that hold v, in ascending order.
  function Indices(assign: seq<nat>, start: nat, v: nat): (r: seq<nat>)
    ensures forall i :: i in r <==> start <= i < |assign| && assign[i] == v
    ensures forall k :: 0 <= k < |r| ==> start <= r[k] < |assign| && assign[r[k]] == v
    ensures Distinct(r)
  {
    if |assign| <= start then []
    else
      var last := |assign| - 1;
      assert last !in Indices(assign[..last], start, v);
      Indices(assign[..last], start, v) + if assign[last] == v then [last] else []
  }

  lemma IndicesAppend(assign: seq<nat>, start: nat, v: nat, x: nat)
    requires start <= |assign|
    ensures Indices(assign + [x], start, v)
         == Indices(assign, start, v) + if x == v then [|assign|] else []
  {
    assert (assign + [x])[..|assign|] == assign;
  }

  lemma {:induction false} NoIndices(assign: seq<nat>, start: nat, v: nat)
    requires forall i :: start <= i < |assign| ==> assign[i] != v
    ensures Indices(assign, start, v) == []
  {
    if |assign| > start {
      NoIndices(assign[..|assign| - 1], start, v);
    }
  }

  // The child lists in order of creation.
  function Children(parents: seq<nat>): (tree: seq<seq<nat>>)
    ensures |tree| == |parents|
  {
    seq(|parents|, p requires 0 <= p => Indices(parents, 2, p))
  }

  // tree lists, in any order, the children that the parent vector gives.
  ghost predicate TreeOf(tree: seq<seq<nat>>, parents: seq<nat>) {
    && |tree| == |parents|
    && forall p :: 0 <= p < |tree| ==> Distinct(tree[p]) && IsChildList(tree[p], parents, p)
  }

  ghost predicate IsChildList(children: seq<nat>, parents: seq<nat>, p: nat) {
    forall c :: c in children <==> 2 <= c < |parents| && parents[c] == p
  }

  lemma ChildrenAreTree(parents: seq<nat>)
    ensures TreeOf(Children(parents), parents)
  {
  }

  // ------------------------------------------------------------ subsumption

  // From a type up to the top type.
  function RootPath(parents: seq<nat>, t: nat): seq<nat>
    requires ParentsOK(parents) && IsType(parents, t)
  {
    [t] + if t == TOP then [] else RootPath(parents, parents[t])
  }

  /** The recursion of TypeSystem::subsumes. */
  function Subsumes(parents: seq<nat>, t1: nat, t2: nat): (r: bool)
    requires ParentsOK(parents)
    decreases t2
  {
    if t1 == t2 then true
    else if t2 >= |parents| || t2 < 1 then false
    else if parents[t2] == TOP then t1 == TOP
    else Subsumes(parents, t1, parents[t2])
  }

  /** Subsumption is membership in the path to the root. */
  lemma {:induction false} SubsumesIsRootPath(parents: seq<nat>, t1: nat, t2: nat)
    requires ParentsOK(parents) && IsType(parents, t2)
    ensures Subsumes(parents, t1, t2) <==> t1 in RootPath(parents, t2)
  {
    if t2 != TOP {
      SubsumesIsRootPath(parents, t1, parents[t2]);
    }
  }

  lemma {:induction false} SubsumesBelow(parents: seq<nat>, t1: nat, t2: nat)
    requires ParentsOK(parents) && IsType(parents, t2) && Subsumes(parents, t1, t2)
    ensures 1 <= t1 <= t2
  {
    if t1 != t2 && parents[t2] != TOP {
      SubsumesBelow(parents, t1, parents[t2]);
    }
  }

  lemma {:induction false} TopSubsumes(parents: seq<nat>, t: nat)
    requires ParentsOK(parents) && IsType(parents, t)
    ensures Subsumes(parents, TOP, t)
  {
    if t != TOP && parents[t] != TOP {
      TopSubsumes(parents, parents[t]);
    }
  }

  lemma SubsumesParent(parents: seq<nat>, t1: nat, t2: nat)
    requires ParentsOK(parents) && IsType(parents, t2) && t1 != t2
    ensures Subsumes(parents, t1, t2) <==> t2 != TOP && Subsumes(parents, t1, parents[t2])
  {
  }

  lemma {:induction false} SubsumesTransitive(parents: seq<nat>, a: nat, b: nat, c: nat)
    requires ParentsOK(parents) && IsType(parents, c)
    requires Subsumes(parents, a, b) && Subsumes(parents, b, c)
    ensures Subsumes(parents, a, c)
    decreases c
  {
    if b != c {
      SubsumesParent(parents, b, c);
      SubsumesTransitive(parents, a, b, parents[c]);
    }
  }

  /** Subsumption is a partial order on the types, with the top type as its greatest element. */
  lemma SubsumesIsPartialOrder(parents: seq<nat>, a: nat, b: nat, c: nat)
    requires ParentsOK(parents) && IsType(parents, a) && IsType(parents, b) && IsType(parents, c)
    ensures Subsumes(parents, a, a) && Subsumes(parents, TOP, a)
    ensures Subsumes(parents, a, b) && Subsumes(parents, b, a) ==> a == b
    ensures Subsumes(parents, a, b) && Subsumes(parents, b, c) ==> Subsumes(parents, a, c)
  {
    TopSubsumes(parents, a);
    if Subsumes(parents, a, b) && Subsumes(parents, b, a) {
      SubsumesBelow(parents, a, b);
      SubsumesBelow(parents, b, a);
    }
    if Subsumes(parents, a, b) && Subsumes(parents, b, c) {
      SubsumesTransitive(parents, a, b, c);
    }
  }

  // The supertypes of one type form a chain.
  lemma {:induction false} SupertypesAreChain(parents: seq<nat>, a: nat, b: nat, t: nat)
    requires ParentsOK(parents) && IsType(parents, t)
    requires Subsumes(parents, a, t) && Subsumes(parents, b, t)
    ensures Subsumes(parents, a, b) || Subsumes(parents, b, a)
    decreases t
  {
    if a != t && b != t {
      SubsumesParent(parents, a, t);
      SubsumesParent(parents, b, t);
      SupertypesAreChain(parents, a, b, parents[t]);
    }
  }

  // r is a common supertype of t1 and t2 that every other one subsumes.
  predicate IsMostSpecificCommonSupertype(parents: seq<nat>, t1: nat, t2: nat, r: nat)
    requires ParentsOK(parents)
  {
    && IsType(parents, r) && Subsumes(parents, r, t1) && Subsumes(parents, r, t2)
    && forall s | 0 <= s < |parents| :: Subsumes(parents, s, t1) && Subsumes(parents, s, t2) ==> Subsumes(parents, s, r)
  }

  /** The most specific common supertype is unique, hence symmetric in its arguments. */
  lemma CommonSupertypeSymmetric(parents: seq<nat>, t1: nat, t2: nat, r: nat, s: nat)
    requires ParentsOK(parents)
    requires IsMostSpecificCommonSupertype(parents, t1, t2, r)
    requires IsMostSpecificCommonSupertype(parents, t2, t1, s)
    ensures r == s
  {
    SubsumesIsPartialOrder(parents, r, s, r);
  }

  // ---------------------------------------------------------------- subtrees

  // A proper subtype lies under exactly one child.
  lemma {:induction false} ChildTowards(parents: seq<nat>, t: nat, d: nat) returns (c: nat)
    requires ParentsOK(parents) && IsType(parents, d) && t != d && Subsumes(parents, t, d)
    ensures 2 <= c < |parents| && parents[c] == t && Subsumes(parents, c, d)
    decreases d
  {
    SubsumesParent(parents, t, d);
    if parents[d] == t {
      c := d;
    } else {
      c := ChildTowards(parents, t, parents[d]);
      SubsumesTransitive(parents, c, parents[d], d);
    }
  }

  lemma SiblingsDisjoint(parents: seq<nat>, c1: nat, c2: nat, d: nat)
    requires ParentsOK(parents) && IsType(parents, d)
    requires 2 <= c1 < |parents| && 2 <= c2 < |parents| && parents[c1] == parents[c2]
    requires Subsumes(parents, c1, d) && Subsumes(parents, c2, d)
    ensures c1 == c2
  {
    SupertypesAreChain(parents, c1, c2, d);
    if c1 != c2 {
      var a, b := if Subsumes(parents, c1, c2) then c1 else c2, if Subsumes(parents, c1, c2) then c2 else c1;
      SubsumesParent(parents, a, b);
      SubsumesBelow(parents, a, parents[b]);
    }
  }

  // Children come after their parents.
  predicate Downward(tree: seq<seq<nat>>) {
    forall p, i :: 0 <= p < |tree| && 0 <= i < |tree[p]| ==> p < tree[p][i] < |tree|
  }

  /** computePreOrder: a node, then the pre-orders of its children. */
  function PreOrder(tree: seq<seq<nat>>, root: nat): (r: seq<nat>)
    requires Downward(tree) && root < |tree|
    decreases |tree| - root, |tree[root]| + 1
  {
    [root] + PreOrderOf(tree, root, tree[root])
  }

  function PreOrderOf(tree: seq<seq<nat>>, root: nat, children: seq<nat>): (r: seq<nat>)
    requires Downward(tree) && root < |tree|
    requires forall i :: 0 <= i < |children| ==> root < children[i] < |tree|
    decreases |tree| - root, |children|
  {
    if children == [] then [] else PreOrder(tree, children[0]) + PreOrderOf(tree, root, children[1..])
  }

  lemma TreeIsDownward(tree: seq<seq<nat>>, parents: seq<nat>)
    requires ParentsOK(parents) && TreeOf(tree, parents)
    ensures Downward(tree)
  {
    forall p, i | 0 <= p < |tree| && 0 <= i < |tree[p]| ensures p < tree[p][i] < |tree| {
      assert IsChildList(tree[p], parents, p) && tree[p][i] in tree[p];
    }
  }

  // Some child in the list subsumes d.
  predicate UnderSome(parents: seq<nat>, children: seq<nat>, d: nat)
    requires ParentsOK(parents)
  {
    exists c :: c in children && Subsumes(parents, c, d)
  }

  // A proper subtype of t lies under one of the children listed for t.
  lemma SubtypeUnderChild(tree: seq<seq<nat>>, parents: seq<nat>, t: nat, d: nat)
    requires ParentsOK(parents) && TreeOf(tree, parents) && IsType(parents, t) && IsType(parents, d)
    ensures t != d && Subsumes(parents, t, d) ==> UnderSome(parents, tree[t], d)
  {
    if t != d && Subsumes(parents, t, d) {
      var c := ChildTowards(parents, t, d);
      assert IsChildList(tree[t], parents, t);
    }
  }

  // The proper subtypes of t are what lies under its children.
  lemma UnderChildren(tree: seq<seq<nat>>, parents: seq<nat>, t: nat, d: nat)
    requires ParentsOK(parents) && TreeOf(tree, parents) && IsType(parents, t) && IsType(parents, d)
    ensures UnderSome(parents, tree[t], d) <==> t != d && Subsumes(parents, t, d)
  {
    assert IsChildList(tree[t], parents, t);
    SubtypeUnderChild(tree, parents, t, d);
    if UnderSome(parents, tree[t], d) {
      var c :| c in tree[t] && Subsumes(parents, c, d);
      SubsumesParent(parents, t, c);
      SubsumesTransitive(parents, t, c, d);
      SubsumesBelow(parents, c, d);
    }
  }

  // Neither t nor what lies under its ith child lies under an earlier child.
  lemma UnderEarlierChildren(parents: seq<nat>, children: seq<nat>, t: nat, i: nat)
    requires ParentsOK(parents) && IsType(parents, t) && i < |children| && Distinct(children)
    requires forall k :: 0 <= k < |children| ==> 2 <= children[k] < |parents| && parents[children[k]] == t
    ensures !UnderSome(parents, children[..i], t)
    ensures forall d :: IsType(parents, d) && Subsumes(parents, children[i], d) ==>
              !UnderSome(parents, children[..i], d)
    ensures forall d :: IsType(parents, d) ==>
              (UnderSome(parents, children[..i + 1], d) <==>
                UnderSome(parents, children[..i], d) || Subsumes(parents, children[i], d))
  {
    var c := children[i];
    assert children[..i + 1] == children[..i] + [c];
    forall e | e in children[..i] ensures !Subsumes(parents, e, t) {
      if Subsumes(parents, e, t) {
        SubsumesBelow(parents, e, t);
        assert false;
      }
    }
    forall d | IsType(parents, d) && Subsumes(parents, c, d) ensures !UnderSome(parents, children[..i], d) {
      forall e | e in children[..i] ensures !Subsumes(parents, e, d) {
        if Subsumes(parents, e, d) {
          SiblingsDisjoint(parents, e, c, d);
          assert false;
        }
      }
    }
  }

  lemma {:induction false} PreOrderOfAppend(tree: seq<seq<nat>>, root: nat, a: seq<nat>, c: nat)
    requires Downward(tree) && root < |tree| && root < c < |tree|
    requires forall i :: 0 <= i < |a| ==> root < a[i] < |tree|
    ensures PreOrderOf(tree, root, a + [c]) == PreOrderOf(tree, root, a) + PreOrder(tree, c)
  {
    var all := a + [c];
    if a == [] {
      assert all[1..] == [];
      assert PreOrderOf(tree, root, all) == PreOrder(tree, c) + PreOrderOf(tree, root, []);
    } else {
      PreOrderOfAppend(tree, root, a[1..], c);
      assert all[1..] == a[1..] + [c];
      var x, y, z := PreOrder(tree, a[0]), PreOrderOf(tree, root, a[1..]), PreOrder(tree, c);
      assert PreOrderOf(tree, root, all) == x + PreOrderOf(tree, root, all[1..]);
      assert x + (y + z) == (x + y) + z;
    }
  }

  lemma {:induction false} PreOrderContents(tree: seq<seq<nat>>, parents: seq<nat>, root: nat)
    requires ParentsOK(parents) && TreeOf(tree, parents) && Downward(tree) && IsType(parents, root)
    ensures Distinct(PreOrder(tree, root))
    ensures forall d :: d in PreOrder(tree, root) <==> IsType(parents, d) && Subsumes(parents, root, d)
    decreases |tree| - root, |tree[root]| + 1
  {
    assert IsChildList(tree[root], parents, root);
    PreOrderOfContents(tree, parents, root, tree[root]);
    var below := PreOrderOf(tree, root, tree[root]);
    forall d ensures d in [root] + below <==> IsType(parents, d) && Subsumes(parents, root, d) {
      if d in below {
        var c :| c in tree[root] && Subsumes(parents, c, d);
        SubsumesParent(parents, root, c);
        SubsumesTransitive(parents, root, c, d);
      } else if d != root && IsType(parents, d) && Subsumes(parents, root, d) {
        var c := ChildTowards(parents, root, d);
        assert c in tree[root] && UnderSome(parents, tree[root], d);
      }
    }
    if root in below {
      var c :| c in tree[root] && Subsumes(parents, c, root);
      SubsumesBelow(parents, c, root);
    }
  }

  lemma {:induction false} PreOrderOfContents(tree: seq<seq<nat>>, parents: seq<nat>, root: nat, children: seq<nat>)
    requires ParentsOK(parents) && TreeOf(tree, parents) && Downward(tree) && IsType(parents, root)
    requires forall i :: 0 <= i < |children| ==> root < children[i] < |tree| && parents[children[i]] == root
    requires Distinct(children)
    ensures Distinct(PreOrderOf(tree, root, children))
    ensures forall d :: d in PreOrderOf(tree, root, children) <==> IsType(parents, d) && UnderSome(parents, children, d)
    decreases |tree| - root, |children|
  {
    if children != [] {
      var first, rest := PreOrder(tree, children[0]), PreOrderOf(tree, root, children[1..]);
      PreOrderContents(tree, parents, children[0]);
      PreOrderOfContents(tree, parents, root, children[1..]);
      forall d ensures !(d in first && d in rest) {
        if d in first && d in rest {
          var c :| c in children[1..] && Subsumes(parents, c, d);
          SiblingsDisjoint(parents, children[0], c, d);
        }
      }
      assert children == [children[0]] + children[1..];
      DistinctConcat(first, rest);
    }
  }

  lemma DistinctConcat(a: seq<nat>, b: seq<nat>)
    requires Distinct(a) && Distinct(b) && forall d :: !(d in a && d in b)
    ensures Distinct(a + b)
  {
    forall i, j | 0 <= i < j < |a + b| ensures (a + b)[i] != (a + b)[j] {
      assert (a + b)[i] in a || (a + b)[i] in b;
      if i < |a| <= j {
        assert a[i] in a && b[j - |a|] in b;
      }
    }
  }

  // The types in order of creation.
  function AllTypes(n: nat): (r: seq<nat>)
    requires n >= 1
    ensures |r| == n - 1 && (forall i :: 0 <= i < |r| ==> r[i] == i + 1) && Distinct(r)
    ensures forall t :: t in r <==> 1 <= t < n
  {
    if n == 1 then [] else AllTypes(n - 1) + [n - 1]
  }

  /** Starting at the top type, the pre-order of the tree lists every type once. */
  lemma PreOrderIsEveryType(tree: seq<seq<nat>>, parents: seq<nat>)
    requires ParentsOK(parents) && TreeOf(tree, parents) && Downward(tree)
    ensures var r := PreOrder(tree, TOP);
            Distinct(r) && |r| == |parents| - 1 && forall d :: d in r <==> IsType(parents, d)
  {
    PreOrderContents(tree, parents, TOP);
    var r := PreOrder(tree, TOP);
    forall d ensures d in r <==> IsType(parents, d) {
      if IsType(parents, d) {
        TopSubsumes(parents, d);
      }
    }
    SetOfDistinct(r);
    SetOfDistinct(AllTypes(|parents|));
    assert Elements(r) == Elements(AllTypes(|parents|));
  }
}
