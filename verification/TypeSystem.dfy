/**
 The low-level type system: a growing hierarchy kept as child lists and as a
 parent vector, features, type priorities, and the tables that commit computes.
 Names of types are tokens; a built-in type is named by its number.
 */
module TypeSystem {
  import opened TopologicalSort
  import opened TypeTree
  import opened TypeLayout
  import opened TypePriority
  import opened SiblingOrder

  datatype TypeName = Builtin(index: nat) | Custom(text: string)

  datatype Outcome = Created(id: nat) | FinalType | AlreadyExists

  const INTEGER: nat := 2
  const FLOAT: nat := 3
  const STRING: nat := 4
  const ARRAY_BASE: nat := 5
  const STRING_ARRAY: nat := 9

  function BuiltinNames(n: nat): (r: seq<TypeName>)
    ensures |r| == n && forall i :: 0 <= i < n ==> r[i] == Builtin(i)
  {
    seq(n, i requires 0 <= i => Builtin(i))
  }

  // The built-in types by their parents, and the built-in features by their types, ranges and names.
  datatype BuiltinTable = BuiltinTable(parents: seq<nat>, introOf: seq<nat>, ranges: seq<nat>, features: seq<string>)

  ghost predicate TableOK(b: BuiltinTable) {
    && ParentsOK(b.parents) && |b.parents| > STRING_ARRAY
    && (forall t :: 2 <= t < |b.parents| ==> b.parents[t] != STRING)
    && IntroOK(b.parents, b.introOf) && |b.introOf| == |b.ranges| == |b.features|
    && (forall f :: 1 <= f < |b.ranges| ==> IsType(b.parents, b.ranges[f]))
    && NoClash(b.parents, b.introOf, b.features)
  }

  // The 31 built-in types: the primitive types, the arrays, and four kinds of
  // lists with an empty and a non-empty subtype each.
  function BuiltinParent(t: nat): nat {
    if t == INVALID then INVALID
    else if ARRAY_BASE < t <= STRING_ARRAY || 28 <= t <= 32 then ARRAY_BASE
    else if t == 11 || t == 14 || t == 17 || t == 20 then 10
    else if 11 < t < 23 then 11 + (t - 11) / 3 * 3
    else TOP
  }

  // Each non-empty list type has a head and a tail.
  function BuiltinIntro(f: nat): nat {
    if f == 0 then INVALID else 13 + (f - 1) / 2 * 3
  }

  function BuiltinRange(f: nat): nat {
    if f == 0 then INVALID
    else if f % 2 == 0 then 8 + f / 2 * 3
    else if f == 1 then TOP else if f == 3 then FLOAT else if f == 5 then INTEGER else STRING
  }

  function BuiltinFeature(f: nat): string {
    if f == 0 then "INVALIDFEATURE" else if f % 2 == 1 then "head" else "tail"
  }

  const BUILTINS: BuiltinTable :=
    BuiltinTable(seq(33, t requires 0 <= t => BuiltinParent(t)), seq(9, f requires 0 <= f => BuiltinIntro(f)),
                 seq(9, f requires 0 <= f => BuiltinRange(f)), seq(9, f requires 0 <= f => BuiltinFeature(f)))

  lemma BuiltinsAreOK()
    ensures TableOK(BUILTINS)
  {
    forall f | 1 <= f < |BUILTINS.introOf| ensures NewName(BUILTINS.parents, BUILTINS.introOf, BUILTINS.features, f) {
      BuiltinNameIsNew(f);
    }
  }

  // Built-in features of one name stand on different leaves of the hierarchy.
  lemma BuiltinNameIsNew(f: nat)
    requires 1 <= f < |BUILTINS.introOf|
    ensures NewName(BUILTINS.parents, BUILTINS.introOf, BUILTINS.features, f)
  {
    var introOf, names := BUILTINS.introOf, BUILTINS.features;
    assert "head"[0] == 'h' && "tail"[0] == 't';
    forall g | 1 <= g < f && names[..f][g] == names[f]
      ensures !Subsumes(BUILTINS.parents, introOf[..f][g], introOf[f])
    {
      LeafSubsumesItself(BUILTINS.parents, introOf[g], introOf[f]);
    }
  }

  lemma LeafSubsumesItself(parents: seq<nat>, a: nat, b: nat)
    requires ParentsOK(parents) && IsType(parents, b)
    requires forall t :: 2 <= t < |parents| ==> parents[t] != a
    ensures a != b ==> !Subsumes(parents, a, b)
  {
    if a != b && Subsumes(parents, a, b) {
      var c := ChildTowards(parents, a, b);
      assert false;
    }
  }

  /**
   Array types were created before and after the list types. So a refused pair is always seen: commit numbers
   the types in pre-order then, and not as they were created.
   */
  lemma RefusedPairAlwaysSeen(parents: seq<nat>)
    requires ParentsOK(parents) && BUILTINS.parents <= parents
    ensures !NothingBetween(parents)
  {
    assert BUILTINS.parents[28] == ARRAY_BASE && BUILTINS.parents[10] == TOP;
    assert parents[28] == ARRAY_BASE && parents[10] == TOP;
    assert Subsumes(parents, ARRAY_BASE, 28) && !Subsumes(parents, ARRAY_BASE, 10);
  }

  predicate AllowsSubtypes(t: nat) {
    t != INTEGER && t != FLOAT && t != STRING && !(ARRAY_BASE <= t <= STRING_ARRAY)
  }

  predicate AllowsFeatures(t: nat) {
    AllowsSubtypes(t) && t != TOP
  }

  predicate NamesDistinct(names: seq<TypeName>) {
    forall i, j :: 0 <= i < j < |names| ==> names[i] != names[j]
  }

  // A feature of type t or of a supertype has the name.
  predicate NameTaken(parents: seq<nat>, introOf: seq<nat>, names: seq<string>, t: nat, name: string)
    requires ParentsOK(parents) && |names| == |introOf|
  {
    exists f :: 1 <= f < |names| && names[f] == name && Subsumes(parents, introOf[f], t)
  }

  // When a feature was created, no feature of its type had the name.
  ghost predicate NoClash(parents: seq<nat>, introOf: seq<nat>, names: seq<string>)
    requires ParentsOK(parents) && |names| == |introOf|
  {
    forall f :: 1 <= f < |introOf| ==> NewName(parents, introOf, names, f)
  }

  predicate NewName(parents: seq<nat>, introOf: seq<nat>, names: seq<string>, f: int)
    requires ParentsOK(parents) && |names| == |introOf| && 0 <= f < |names|
  {
    !NameTaken(parents, introOf[..f], names[..f], introOf[f], names[f])
  }

  ghost predicate HierarchyOK(parents: seq<nat>, tree: seq<seq<nat>>, names: seq<TypeName>) {
    ParentsOK(parents) && tree == Children(parents) && |names| == |parents| && NamesDistinct(names)
  }

  ghost predicate FeaturesOK(parents: seq<nat>, introOf: seq<nat>, introduced: seq<seq<nat>>,
                             ranges: seq<nat>, multiRefs: seq<bool>, names: seq<string>)
    requires ParentsOK(parents)
  {
    && IntroOK(parents, introOf) && introduced == Introduced(introOf, |parents|)
    && |ranges| == |multiRefs| == |names| == |introOf|
    && (forall f :: 1 <= f < |ranges| ==> IsType(parents, ranges[f]))
    && NoClash(parents, introOf, names)
  }

  // The built-in types and features come first, and later features stand on types that allow them.
  ghost predicate BuiltinsOK(b: BuiltinTable, parents: seq<nat>, typeNames: seq<TypeName>, introOf: seq<nat>,
                             ranges: seq<nat>, multiRefs: seq<bool>, names: seq<string>)
  {
    && |ranges| == |multiRefs| == |names| == |introOf|
    && b.parents <= parents && BuiltinNames(|b.parents|) <= typeNames
    && b.introOf <= introOf && b.ranges <= ranges && b.features <= names
    && (forall f :: 0 <= f < |b.introOf| && f < |multiRefs| ==> !multiRefs[f])
    && (forall f :: |b.introOf| <= f < |introOf| ==> AllowsFeatures(introOf[f]))
  }

  // Every direct subtype of the string type has its set of values.
  ghost predicate StringSetsOK(parents: seq<nat>, stringSets: map<nat, nat>, n: nat) {
    forall t :: 2 <= t < |parents| && parents[t] == STRING ==> t in stringSets && stringSets[t] < n
  }

  // order is a bijection from the types onto 0..n-1.
  ghost predicate IsNumbering(parents: seq<nat>, order: map<nat, nat>) {
    exists total :: IsNumberedBy(parents, order, total)
  }

  ghost predicate IsNumberedBy(parents: seq<nat>, order: map<nat, nat>, total: seq<nat>) {
    && Distinct(total) && |total| == |parents| - 1
    && (forall t :: t in total <==> IsType(parents, t)) && Numbers(order, total)
  }

  class TypeSystem {
    const builtins: BuiltinTable
    var committed: bool
    var builtinsCreated: bool
    var tree: seq<seq<nat>>
    var parents: seq<nat>
    var introduced: seq<seq<nat>>
    var typeNames: seq<TypeName>
    var rangeTypes: seq<nat>
    var multiRefs: seq<bool>
    var featureNames: seq<string>
    var enumStrings: seq<seq<string>>
    var stringSets: map<nat, nat>
    var priorityList: Edges
    var customPrioritySet: bool
    // computed by commit
    var featureNumber: seq<nat>
    var featureOffset: seq<nat>
    var approp: seq<seq<bool>>
    var mapping: seq<seq<nat>>
    var priorityNumber: map<nat, nat>
    // the type at which each feature was introduced
    ghost var introOf: seq<nat>

    ghost predicate Core()
      reads this
    {
      && HierarchyOK(parents, tree, typeNames)
      && FeaturesOK(parents, introOf, introduced, rangeTypes, multiRefs, featureNames)
      && TableOK(builtins)
      && (builtinsCreated ==> BuiltinsOK(builtins, parents, typeNames, introOf, rangeTypes, multiRefs, featureNames))
      && PrioritiesOK()
    }

    ghost predicate PrioritiesOK()
      reads this
    {
      && |parents| == |typeNames| >= 1
      && TypePairs(parents, priorityList) && Acyclic(priorityList)
      && (!customPrioritySet ==> priorityList == [])
    }

    ghost predicate Tables()
      reads this
      requires ParentsOK(parents)
    {
      && LayoutOK(parents, introOf, featureNumber, featureOffset, approp)
      && MappingOK(parents, introOf, mapping)
      && IsNumbering(parents, priorityNumber)
    }

    ghost predicate Valid()
      reads this
    {
      Core() && StringSetsOK(parents, stringSets, |enumStrings|) && (committed ==> Tables())
    }

    constructor (b: BuiltinTable)
      requires TableOK(b)
      ensures Valid() && !committed && builtinsCreated && builtins == b
      ensures parents == b.parents && introOf == b.introOf && rangeTypes == b.ranges && priorityList == []
    {
      builtins := b;
      new;
      Reset();
    }

    /** createTypeNoChecks: appends a type below its parent unless the name exists. */
    method CreateTypeNoChecks(parent: nat, name: TypeName) returns (r: Outcome)
      requires Core() && IsType(parents, parent)
      modifies `tree, `parents, `introduced, `typeNames
      ensures Core()
      ensures r.AlreadyExists? <==> name in old(typeNames)
      ensures !r.AlreadyExists? ==>
                && r == Created(|old(parents)|)
                && parents == old(parents) + [parent] && typeNames == old(typeNames) + [name]
      ensures r.AlreadyExists? ==> unchanged(this)
    {
      if name in typeNames {
        return AlreadyExists;
      }
      var newType := |tree|;
      HierarchyAppend(parents, typeNames, parent, name);
      FeaturesKeptByNewType(parents, parent, introOf, introduced, rangeTypes, multiRefs, featureNames);
      parents := parents + [parent];
      introduced := introduced + [[]];
      typeNames := typeNames + [name];
      tree := tree[parent := tree[parent] + [newType]] + [[]];
      r := Created(newType);
    }

    /** createType: refuses the final built-in types as parents. */
    method CreateType(parent: nat, name: TypeName) returns (r: Outcome)
      requires Valid() && !committed && IsType(parents, parent)
      requires builtinsCreated || parent != STRING
      modifies `tree, `parents, `introduced, `typeNames
      ensures Valid()
      ensures r.FinalType? <==> builtinsCreated && INTEGER <= parent <= STRING_ARRAY
      ensures r.AlreadyExists? <==> !r.FinalType? && name in old(typeNames)
      ensures r.Created? ==>
                && r.id == |old(parents)|
                && parents == old(parents) + [parent] && typeNames == old(typeNames) + [name]
      ensures !r.Created? ==> unchanged(this)
    {
      if builtinsCreated && !AllowsSubtypes(parent) {
        return FinalType;
      }
      r := CreateTypeNoChecks(parent, name);
    }

    /** createStringSubtype: a subtype of the string type with its allowed values. */
    method CreateStringSubtype(name: TypeName, strings: seq<string>) returns (r: Outcome)
      requires Valid() && !committed && builtinsCreated
      modifies `tree, `parents, `introduced, `typeNames, `enumStrings, `stringSets
      ensures Valid()
      ensures r.AlreadyExists? <==> name in old(typeNames)
      ensures enumStrings == old(enumStrings) + [strings]
      ensures !r.AlreadyExists? ==>
                && r == Created(|old(parents)|)
                && parents == old(parents) + [STRING] && typeNames == old(typeNames) + [name]
                && stringSets == old(stringSets)[r.id := |old(enumStrings)|]
      ensures r.AlreadyExists? ==>
                && unchanged(`tree) && unchanged(`parents) && unchanged(`introduced)
                && unchanged(`typeNames) && unchanged(`stringSets)
    {
      StringIsType(this);
      hide HierarchyOK, FeaturesOK, TableOK, BuiltinsOK, StringSetsOK, TypePairs, Acyclic;
      var newEntry := |enumStrings|;
      enumStrings := enumStrings + [strings];
      StringSetsGrow(parents, stringSets, newEntry);
      r := CreateTypeNoChecks(STRING, name);
      if r.Created? {
        StringTypeAdded(old(parents), stringSets, r.id, newEntry);
        stringSets := stringSets[r.id := newEntry];
      }
    }

    /** getParentType: searches the child lists; the top type has no parent. */
    method GetParentType(t: nat) returns (p: nat)
      requires HierarchyOK(parents, tree, typeNames) && IsType(parents, t)
      ensures p == if t == TOP then INVALID else parents[t]
    {
      assert t != TOP ==> t in tree[parents[t]];
      for s := 1 to |tree|
        invariant forall q :: 1 <= q < s ==> t !in tree[q]
      {
        for i := 0 to |tree[s]|
          invariant t !in tree[s][..i]
        {
          if tree[s][i] == t {
            assert t in tree[s];
            return s;
          }
        }
        assert tree[s][..|tree[s]|] == tree[s];
      }
      p := INVALID;
    }

    /** findInTree: searches the subtree of the child lists; it agrees with the parent vector. */
    method FindInTree(t: nat, d: nat) returns (found: bool)
      requires HierarchyOK(parents, tree, typeNames) && IsType(parents, t) && IsType(parents, d)
      ensures found <==> Subsumes(parents, t, d)
      decreases |parents| - t
    {
      if t == d {
        return true;
      }
      for i := 0 to |tree[t]|
        invariant !UnderSome(parents, tree[t][..i], d)
      {
        var c := tree[t][i];
        assert c in tree[t];
        found := FindInTree(c, d);
        if found {
          SubsumesParent(parents, t, c);
          SubsumesTransitive(parents, t, c, d);
          return true;
        }
        assert tree[t][..i + 1] == tree[t][..i] + [c];
      }
      assert tree[t][..|tree[t]|] == tree[t];
      SubtypeUnderChild(tree, parents, t, d);
      found := false;
    }

    /** getMostSpecificCommonSupertype: climbs from t1 until it meets a supertype of t2. */
    method GetMostSpecificCommonSupertype(t1: nat, t2: nat) returns (r: nat)
      requires HierarchyOK(parents, tree, typeNames) && IsType(parents, t1) && IsType(parents, t2)
      ensures IsMostSpecificCommonSupertype(parents, t1, t2, r)
      decreases t1
    {
      if Subsumes(parents, t1, t2) {
        return t1;
      }
      if Subsumes(parents, t2, t1) {
        return t2;
      }
      TopSubsumes(parents, t2);
      var p := GetParentType(t1);
      r := GetMostSpecificCommonSupertype(p, t2);
      assert Subsumes(parents, p, t1);
      SubsumesTransitive(parents, r, p, t1);
    }

    /** getFeatureByBaseName: searches the type and its supertypes below the top type. */
    method GetFeatureByBaseName(t: nat, name: string) returns (f: nat)
      requires Core()
      ensures f == INVALID ==> !IsType(parents, t) || !NameTaken(parents, introOf, featureNames, t, name)
      ensures f != INVALID ==>
                && IsType(parents, t) && IsFeature(introOf, f)
                && featureNames[f] == name && Subsumes(parents, introOf[f], t)
    {
      if !(1 <= t < |typeNames|) {
        return INVALID;
      }
      var s := t;
      while s != TOP
        invariant IsType(parents, s) && Subsumes(parents, s, t)
        invariant forall g :: 1 <= g < |introOf| && featureNames[g] == name && Subsumes(parents, introOf[g], t)
                    ==> Subsumes(parents, introOf[g], s)
        decreases s
      {
        for i := 0 to |introduced[s]|
          invariant forall k :: 0 <= k < i ==> featureNames[introduced[s][k]] != name
        {
          var g := introduced[s][i];
          if featureNames[g] == name {
            return g;
          }
        }
        forall g | 1 <= g < |introOf| && featureNames[g] == name && Subsumes(parents, introOf[g], s)
          ensures Subsumes(parents, introOf[g], parents[s])
        {
          assert g in Indices(introOf, 1, introOf[g]);
          SubsumesParent(parents, introOf[g], s);
        }
        SubsumesParent(parents, parents[s], s);
        SubsumesTransitive(parents, parents[s], s, t);
        s := GetParentType(s);
      }
      forall g | 1 <= g < |introOf| ensures !Subsumes(parents, introOf[g], TOP) {
        assert parents[TOP] == TOP;
      }
      f := INVALID;
    }

    /** getIntroType: the type in whose list the feature stands. */
    method GetIntroType(f: nat) returns (t: nat)
      requires ParentsOK(parents) && IntroOK(parents, introOf) && introduced == Introduced(introOf, |parents|)
      requires IsFeature(introOf, f)
      ensures t == introOf[f]
    {
      assert f in introduced[introOf[f]];
      for s := 1 to |introduced|
        invariant forall q :: 1 <= q < s ==> f !in introduced[q]
      {
        for i := 0 to |introduced[s]|
          invariant f !in introduced[s][..i]
        {
          if introduced[s][i] == f {
            assert f in introduced[s];
            return s;
          }
        }
        assert introduced[s][..|introduced[s]|] == introduced[s];
      }
      t := INVALID;
    }

    /** createFeature: appends a feature unless its type is final or already has one of the name. */
    method CreateFeature(intro: nat, range: nat, multiRef: bool, name: string) returns (r: Outcome)
      requires Valid() && !committed && IsType(parents, intro) && IsType(parents, range)
      requires builtinsCreated || intro != TOP
      modifies `introduced, `rangeTypes, `multiRefs, `featureNames, `introOf
      ensures Valid()
      ensures r.FinalType? <==> builtinsCreated && TOP <= intro <= STRING_ARRAY
      ensures r.AlreadyExists? <==> !r.FinalType? && old(NameTaken(parents, introOf, featureNames, intro, name))
      ensures r.Created? ==>
                && r.id == |old(featureNames)| && introOf == old(introOf) + [intro]
                && featureNames == old(featureNames) + [name]
                && rangeTypes == old(rangeTypes) + [range] && multiRefs == old(multiRefs) + [multiRef]
      ensures !r.Created? ==> unchanged(this)
    {
      if builtinsCreated && !AllowsFeatures(intro) {
        return FinalType;
      }
      var existing := GetFeatureByBaseName(intro, name);
      if existing != INVALID {
        return AlreadyExists;
      }
      AppendFeature(intro, range, multiRef, name);
      r := Created(|featureNames| - 1);
    }

    // The slots that createFeature adds once the checks are passed.
    method AppendFeature(intro: nat, range: nat, multiRef: bool, name: string)
      requires Valid() && !committed && IsType(parents, intro) && intro != TOP && IsType(parents, range)
      requires !NameTaken(parents, introOf, featureNames, intro, name) && (builtinsCreated ==> AllowsFeatures(intro))
      modifies `introduced, `rangeTypes, `multiRefs, `featureNames, `introOf
      ensures Valid()
      ensures introOf == old(introOf) + [intro] && featureNames == old(featureNames) + [name]
      ensures rangeTypes == old(rangeTypes) + [range] && multiRefs == old(multiRefs) + [multiRef]
    {
      var newFeature := |featureNames|;
      FeaturesAppend(parents, introOf, introduced, rangeTypes, multiRefs, featureNames, intro, range, multiRef, name);
      featureNames := featureNames + [name];
      rangeTypes := rangeTypes + [range];
      multiRefs := multiRefs + [multiRef];
      introduced := introduced[intro := introduced[intro] + [newFeature]];
      introOf := introOf + [intro];
    }

    // ------------------------------------------------------ type priorities

    /** addTypePriority: keeps the pair unless it closes a cycle. */
    method AddTypePriority(t1: nat, t2: nat) returns (accepted: bool)
      requires PrioritiesOK() && IsType(parents, t1) && IsType(parents, t2)
      modifies `priorityList, `customPrioritySet
      ensures PrioritiesOK() && customPrioritySet
      ensures accepted <==> Acyclic(old(priorityList) + [(t1, t2)])
      ensures priorityList == if accepted then old(priorityList) + [(t1, t2)] else old(priorityList)
    {
      customPrioritySet := true;
      var typePriorities := priorityList + [(t1, t2)];
      var allTypes := AllTypes(|typeNames|);
      var cyclic := HasCycle(allTypes, typePriorities);
      if !cyclic {
        priorityList := typePriorities;
        return true;
      }
      accepted := false;
    }

    // The pre-order of the type tree with siblings sorted by the accepted pairs.
    method SiblingPreOrder() returns (pre: seq<nat>)
      requires HierarchyOK(parents, tree, typeNames) && PrioritiesOK()
      ensures IsSiblingPreOrder(parents, priorityList, pre)
      ensures Distinct(pre) && |pre| == |parents| - 1 && forall t :: t in pre <==> IsType(parents, t)
    {
      var allTypes := AllTypes(|typeNames|);
      var _, order := Sort(allTypes, priorityList);
      ghost var s :| IsGreedyOrder(allTypes, priorityList, s) && Numbers(order, s);
      ChildrenAreTree(parents);
      var typeTree := SortAllSiblings(tree, parents, order, s);
      pre := ComputePreOrder(typeTree, TOP, []);
      PreOrderIsEveryType(typeTree, parents);
      assert IsSortedTree(parents, priorityList, typeTree, s) && PreOrder(typeTree, TOP) == pre;
    }

    /**
     combineUserDefinedPrioritiesWithSiblingPriority: adds the neighbours in
     the sibling-sorted pre-order as pairs, or none of them when one is refused.
     */
    method CombineWithSiblingPriority() returns (ghost pre: seq<nat>)
      requires HierarchyOK(parents, tree, typeNames) && PrioritiesOK() && customPrioritySet
      modifies `priorityList, `customPrioritySet
      ensures PrioritiesOK() && customPrioritySet
      ensures |pre| >= 1 && IsSiblingPreOrder(parents, old(priorityList), pre)
      ensures priorityList == Merged(old(priorityList), pre)
    {
      var order := SiblingPreOrder();
      assert forall i :: 0 <= i < |order| ==> order[i] in order;
      var backup := priorityList;
      var compatible := AddNeighbours(order);
      if !compatible {
        priorityList := backup;
      } else {
        ChainForcesForward(backup, order);
      }
      pre := order;
    }

    // Adds the neighbours in pre as pairs until one is refused.
    method AddNeighbours(pre: seq<nat>) returns (compatible: bool)
      requires PrioritiesOK() && customPrioritySet && |pre| >= 1 && Distinct(pre)
      requires forall i :: 0 <= i < |pre| ==> IsType(parents, pre[i])
      modifies `priorityList, `customPrioritySet
      ensures PrioritiesOK() && customPrioritySet
      ensures compatible ==> priorityList == old(priorityList) + Chain(pre, |pre| - 1)
      ensures !compatible ==> !Forward(old(priorityList), pre)
    {
      hide Acyclic, Forward, Chain, Distinct;
      ghost var backup := priorityList;
      compatible := true;
      var i := 0;
      while i < |pre| - 1 && compatible
        invariant 0 <= i <= |pre| - 1
        invariant PrioritiesOK() && customPrioritySet
        invariant compatible ==> priorityList == backup + Chain(pre, i)
        invariant !compatible ==> !Forward(backup, pre)
        decreases |pre| - i, compatible
      {
        ChainStep(backup, pre, i);
        ForwardWithChain(backup, pre, i + 1);
        compatible := AddTypePriority(pre[i], pre[i + 1]);
        if compatible {
          i := i + 1;
        }
      }
    }

    /** computeTypePriorityClosure: numbers the types along the priority list. */
    method ComputeTypePriorityClosure()
      requires HierarchyOK(parents, tree, typeNames) && PrioritiesOK()
      modifies `priorityList, `customPrioritySet, `priorityNumber
      ensures PrioritiesOK() && IsNumbering(parents, priorityNumber)
      ensures exists total :: IsPriorityList(parents, old(customPrioritySet), old(priorityList), total)
                           && Numbers(priorityNumber, total)
      ensures NumbersForward(old(priorityList), priorityNumber)
      ensures AgreesWithTree(parents, old(priorityList)) ==>
                NumbersFollowSiblings(parents, old(priorityList), priorityNumber)
    {
      hide Forward, NumbersForward, NumbersFollowSiblings, AgreesWithTree, Acyclic;
      ghost var edges, custom, pre := priorityList, customPrioritySet, [];
      if customPrioritySet {
        pre := CombineWithSiblingPriority();
      }
      var allTypes := AllTypes(|typeNames|);
      var sortable, order := Sort(allTypes, priorityList);
      priorityNumber := order;
      ghost var s :| IsGreedyOrder(allTypes, priorityList, s) && Numbers(order, s);
      if custom {
        MergedOrder(parents, edges, pre, s);
      } else {
        GreedyOfNone(allTypes, s, |s|);
        assert s[..|s|] == s && allTypes[..|s|] == allTypes;
      }
      assert IsPriorityList(parents, custom, edges, s);
      PriorityListIsTotalOrder(parents, custom, edges, s);
      CommittedNumbers(parents, custom, edges, s, priorityNumber);
      assert IsNumberedBy(parents, priorityNumber, s);
    }

    // -------------------------------------------------------------- layout

    // Copies the row of the parent and adds the features that t introduces.
    method InheritFeatures(t: nat, child: nat)
      requires HierarchyOK(parents, tree, typeNames)
      requires IntroOK(parents, introOf) && introduced == Introduced(introOf, |parents|)
      requires IsType(parents, t) && 2 <= child < |parents| && parents[child] == t
      requires |featureNames| == |introOf| == |featureOffset|
      requires RowOK(parents, introOf, featureNumber, approp, t)
      requires featureNumber[child] == 0
      modifies `featureNumber, `featureOffset, `approp
      ensures |featureNumber| == |approp| == |parents| && |featureOffset| == |introOf|
      ensures LaidOut(parents, introOf, featureNumber, featureOffset, approp, child)
      ensures forall d :: IsType(parents, d) && d != child ==>
                Kept(introOf, old(featureNumber), old(featureOffset), old(approp), featureNumber, featureOffset,
                     approp, d)
    {
      assert introduced[child] == Indices(introOf, 1, child);
      var number, offset, row := ExtendRow(featureNumber[child] + featureNumber[t], featureOffset, approp[t],
                                           introduced[child], parents, introOf, child);
      featureNumber := featureNumber[child := number];
      featureOffset := offset;
      approp := approp[child := row];
    }

    ghost predicate TableSizes()
      reads this
    {
      && |featureNumber| == |approp| == |parents| && |featureOffset| == |introOf|
    }

    ghost predicate LayoutReady()
      reads this
    {
      && HierarchyOK(parents, tree, typeNames)
      && IntroOK(parents, introOf) && introduced == Introduced(introOf, |parents|) && |featureNames| == |introOf|
      && TableSizes()
    }

    /** computeApprop: lays out every proper subtype of t, and nothing else. */
    method ComputeApprop(t: nat)
      requires LayoutReady() && IsType(parents, t)
      requires RowOK(parents, introOf, featureNumber, approp, t)
      requires NoNumberBelow(parents, featureNumber, t)
      modifies `featureNumber, `featureOffset, `approp
      ensures LayoutReady()
      ensures forall d :: IsType(parents, d) ==>
                if d != t && Subsumes(parents, t, d)
                then LaidOut(parents, introOf, featureNumber, featureOffset, approp, d)
                else Kept(introOf, old(featureNumber), old(featureOffset), old(approp), featureNumber, featureOffset,
                          approp, d)
      decreases |parents| - t
    {
      var children := tree[t];
      ghost var number0, offset0, approp0 := featureNumber, featureOffset, approp;
      ChildrenAreTree(parents);
      for i := 0 to |children|
        invariant LayoutReady() && children == tree[t]
        invariant Progress(parents, introOf, children[..i], number0, offset0, approp0, featureNumber, featureOffset,
                           approp)
      {
        var child := children[i];
        ghost var number1, offset1, approp1 := featureNumber, featureOffset, approp;
        UntouchedBelow(parents, introOf, children, t, i, number0, offset0, approp0, number1, offset1, approp1);
        InheritFeatures(t, child);
        ghost var number2, offset2, approp2 := featureNumber, featureOffset, approp;
        ComputeApprop(child);
        LayoutStep(parents, introOf, children, t, i, number0, offset0, approp0, number1, offset1, approp1,
                   number2, offset2, approp2, featureNumber, featureOffset, approp);
      }
      assert children[..|children|] == children;
      forall d | IsType(parents, d) ensures UnderSome(parents, children, d) <==> d != t && Subsumes(parents, t, d) {
        UnderChildren(tree, parents, t, d);
      }
    }

    // The layout part of commit.
    method ComputeLayout()
      requires HierarchyOK(parents, tree, typeNames)
      requires IntroOK(parents, introOf) && introduced == Introduced(introOf, |parents|) && |featureNames| == |introOf|
      modifies `featureNumber, `featureOffset, `approp, `mapping
      ensures LayoutOK(parents, introOf, featureNumber, featureOffset, approp)
      ensures MappingOK(parents, introOf, mapping)
    {
      featureNumber := Zeros(|typeNames|);
      featureOffset := Zeros(|featureNames|);
      var emptyRow := seq(|featureNames|, _ => false);
      approp := seq(|typeNames|, _ => emptyRow);
      ComputeApprop(TOP);
      forall t | IsType(parents, t) ensures LaidOut(parents, introOf, featureNumber, featureOffset, approp, t) {
        TopSubsumes(parents, t);
      }
      mapping := InvertOffsets(mapping, featureOffset, approp, parents, introOf, featureNumber);
    }

    /** commit: computes the layout and the total order of the types. */
    method Commit()
      requires Valid() && !committed
      modifies `committed, `featureNumber, `featureOffset, `approp, `mapping,
               `priorityNumber, `priorityList, `customPrioritySet
      ensures Valid() && committed
      ensures exists total :: IsPriorityList(parents, old(customPrioritySet), old(priorityList), total)
                           && Numbers(priorityNumber, total)
      ensures NumbersForward(old(priorityList), priorityNumber)
      ensures AgreesWithTree(parents, old(priorityList)) ==>
                NumbersFollowSiblings(parents, old(priorityList), priorityNumber)
    {
      hide *;
      CoreParts(this);
      ValidParts(this);
      PrioritiesParts(this);
      ComputeLayout();
      PrioritiesFrom(this);
      ComputeTypePriorityClosure();
      PrioritiesParts(this);
      committed := true;
      PrioritiesFrom(this);
      CoreFrom(this);
      CommittedIsValid(this);
    }

    // --------------------------------------------------------------- reset

    /** getTypeByName: the number of the type, or the invalid type. */
    method GetTypeByName(name: TypeName) returns (t: nat)
      requires NamesDistinct(typeNames)
      ensures t == INVALID ==> name !in typeNames || typeNames[INVALID] == name
      ensures t != INVALID ==> t < |typeNames| && typeNames[t] == name
    {
      for i := 0 to |typeNames|
        invariant name !in typeNames[..i]
      {
        if typeNames[i] == name {
          return i;
        }
      }
      t := INVALID;
    }

    /** reset: only the built-in types and features are left. The string sets stay behind. */
    method Reset()
      requires TableOK(builtins)
      modifies `committed, `builtinsCreated, `tree, `parents, `introduced, `typeNames, `rangeTypes, `multiRefs,
               `featureNames, `priorityList, `customPrioritySet, `priorityNumber, `introOf
      ensures Valid() && !committed && builtinsCreated
      ensures parents == builtins.parents && typeNames == BuiltinNames(|parents|)
      ensures introOf == builtins.introOf && rangeTypes == builtins.ranges && featureNames == builtins.features
      ensures priorityList == [] && !customPrioritySet
    {
      Clear();
      CreatePredefinedTypes();
      BuiltinsComplete(builtins, multiRefs);
      builtinsCreated := true;
    }

    // createPredefinedCASTypes: the built-in types, then the built-in features.
    method CreatePredefinedTypes()
      requires Valid() && !committed && !builtinsCreated
      requires parents == [INVALID, TOP] && typeNames == BuiltinNames(2)
      requires introOf == builtins.introOf[..1] && featureNames == builtins.features[..1]
      requires rangeTypes == builtins.ranges[..1] && multiRefs == [false]
      modifies `tree, `parents, `introduced, `typeNames, `rangeTypes, `multiRefs, `featureNames, `introOf
      ensures Valid()
      ensures parents == builtins.parents && typeNames == BuiltinNames(|parents|)
      ensures introOf == builtins.introOf && rangeTypes == builtins.ranges && featureNames == builtins.features
      ensures forall f :: 0 <= f < |multiRefs| ==> !multiRefs[f]
    {
      CreateBuiltinTypes();
      CreateBuiltinFeatures();
    }

    // Leaves the slots of the invalid type, the top type and the invalid feature.
    method Clear()
      requires TableOK(builtins)
      modifies `committed, `builtinsCreated, `tree, `parents, `introduced, `typeNames, `rangeTypes, `multiRefs,
               `featureNames, `priorityList, `customPrioritySet, `priorityNumber, `introOf
      ensures Valid() && !committed && !builtinsCreated && priorityList == [] && !customPrioritySet
      ensures parents == [INVALID, TOP] && typeNames == BuiltinNames(2)
      ensures introOf == builtins.introOf[..1] && featureNames == builtins.features[..1]
      ensures rangeTypes == builtins.ranges[..1] && multiRefs == [false]
    {
      ClearTypes();
      ClearFeatures();
      committed, builtinsCreated, customPrioritySet := false, false, false;
      priorityNumber, priorityList := map[], [];
      ForwardIsAcyclic([], []);
    }

    method ClearTypes()
      modifies `tree, `parents, `typeNames
      ensures HierarchyOK(parents, tree, typeNames) && parents == [INVALID, TOP] && typeNames == BuiltinNames(2)
    {
      tree, parents, typeNames := [[], []], [INVALID, TOP], BuiltinNames(2);
      NoIndices([INVALID, TOP], 2, 0);
      NoIndices([INVALID, TOP], 2, 1);
    }

    method ClearFeatures()
      requires TableOK(builtins) && parents == [INVALID, TOP]
      modifies `introduced, `rangeTypes, `multiRefs, `featureNames, `introOf
      ensures introOf == builtins.introOf[..1] && featureNames == builtins.features[..1]
      ensures rangeTypes == builtins.ranges[..1] && multiRefs == [false]
      ensures FeaturesOK(parents, introOf, introduced, rangeTypes, multiRefs, featureNames)
    {
      introduced, multiRefs := [[], []], [false];
      featureNames, rangeTypes, introOf := builtins.features[..1], builtins.ranges[..1], builtins.introOf[..1];
      assert Introduced(introOf, 2) == [[], []];
    }

    method CreateBuiltinTypes()
      requires Valid() && !committed && !builtinsCreated
      requires parents == [INVALID, TOP] && typeNames == BuiltinNames(2)
      modifies `tree, `parents, `introduced, `typeNames
      ensures Valid()
      ensures parents == builtins.parents && typeNames == BuiltinNames(|parents|)
    {
      for t := 2 to |builtins.parents|
        invariant Valid()
        invariant parents == builtins.parents[..t] && typeNames == BuiltinNames(t)
      {
        var parent := GetTypeByName(Builtin(builtins.parents[t]));
        assert typeNames[builtins.parents[t]] == Builtin(builtins.parents[t]);
        var r := CreateType(parent, Builtin(t));
        assert builtins.parents[..t + 1] == builtins.parents[..t] + [builtins.parents[t]];
        assert BuiltinNames(t + 1) == BuiltinNames(t) + [Builtin(t)];
      }
      assert builtins.parents[..|builtins.parents|] == builtins.parents;
    }

    method CreateBuiltinFeatures()
      requires Valid() && !committed && !builtinsCreated && parents == builtins.parents
      requires introOf == builtins.introOf[..1] && featureNames == builtins.features[..1]
      requires rangeTypes == builtins.ranges[..1] && multiRefs == [false]
      modifies `introduced, `rangeTypes, `multiRefs, `featureNames, `introOf
      ensures Valid()
      ensures introOf == builtins.introOf && rangeTypes == builtins.ranges && featureNames == builtins.features
      ensures forall f :: 0 <= f < |multiRefs| ==> !multiRefs[f]
    {
      for f := 1 to |builtins.introOf|
        invariant Valid()
        invariant introOf == builtins.introOf[..f] && rangeTypes == builtins.ranges[..f]
        invariant featureNames == builtins.features[..f]
        invariant forall g :: 0 <= g < |multiRefs| ==> !multiRefs[g]
      {
        assert NewName(parents, builtins.introOf, builtins.features, f);
        var r := CreateFeature(builtins.introOf[f], builtins.ranges[f], false, builtins.features[f]);
        assert builtins.introOf[..f + 1] == builtins.introOf[..f] + [builtins.introOf[f]];
        assert builtins.ranges[..f + 1] == builtins.ranges[..f] + [builtins.ranges[f]];
        assert builtins.features[..f + 1] == builtins.features[..f] + [builtins.features[f]];
      }
      var n := |builtins.introOf|;
      assert builtins.introOf[..n] == builtins.introOf && builtins.ranges[..n] == builtins.ranges
          && builtins.features[..n] == builtins.features;
    }
  }

  lemma CoreParts(ts: TypeSystem)
    requires ts.Valid()
    ensures ts.Core() && StringSetsOK(ts.parents, ts.stringSets, |ts.enumStrings|) && TableOK(ts.builtins)
    ensures HierarchyOK(ts.parents, ts.tree, ts.typeNames)
    ensures FeaturesOK(ts.parents, ts.introOf, ts.introduced, ts.rangeTypes, ts.multiRefs, ts.featureNames)
    ensures ts.builtinsCreated ==>
              BuiltinsOK(ts.builtins, ts.parents, ts.typeNames, ts.introOf, ts.rangeTypes, ts.multiRefs,
                         ts.featureNames)
  {
  }

  lemma StringIsType(ts: TypeSystem)
    requires ts.Core() && ts.builtinsCreated
    ensures IsType(ts.parents, STRING) && ParentsOK(ts.parents)
  {
  }

  lemma StringSetsGrow(parents: seq<nat>, stringSets: map<nat, nat>, n: nat)
    requires StringSetsOK(parents, stringSets, n)
    ensures StringSetsOK(parents, stringSets, n + 1)
  {
  }

  lemma StringTypeAdded(parents: seq<nat>, stringSets: map<nat, nat>, id: nat, n: nat)
    requires StringSetsOK(parents, stringSets, n + 1) && id == |parents|
    ensures StringSetsOK(parents + [STRING], stringSets[id := n], n + 1)
  {
  }

  lemma CoreFrom(ts: TypeSystem)
    requires HierarchyOK(ts.parents, ts.tree, ts.typeNames) && TableOK(ts.builtins) && ts.PrioritiesOK()
    requires FeaturesOK(ts.parents, ts.introOf, ts.introduced, ts.rangeTypes, ts.multiRefs, ts.featureNames)
    requires ts.builtinsCreated ==>
               BuiltinsOK(ts.builtins, ts.parents, ts.typeNames, ts.introOf, ts.rangeTypes, ts.multiRefs,
                          ts.featureNames)
    ensures ts.Core()
  {
  }

  // What commit needs of a valid type system.
  lemma ValidParts(ts: TypeSystem)
    requires ts.Core()
    ensures HierarchyOK(ts.parents, ts.tree, ts.typeNames) && ts.PrioritiesOK()
    ensures IntroOK(ts.parents, ts.introOf) && ts.introduced == Introduced(ts.introOf, |ts.parents|)
    ensures |ts.featureNames| == |ts.introOf| && ParentsOK(ts.parents)
  {
  }

  lemma PrioritiesParts(ts: TypeSystem)
    requires ts.PrioritiesOK()
    ensures |ts.parents| == |ts.typeNames| >= 1 && TypePairs(ts.parents, ts.priorityList) && Acyclic(ts.priorityList)
    ensures !ts.customPrioritySet ==> ts.priorityList == []
  {
  }

  lemma PrioritiesFrom(ts: TypeSystem)
    requires |ts.parents| == |ts.typeNames| >= 1 && TypePairs(ts.parents, ts.priorityList) && Acyclic(ts.priorityList)
    requires !ts.customPrioritySet ==> ts.priorityList == []
    ensures ts.PrioritiesOK()
  {
  }

  // The tables that commit computes complete the type system.
  lemma CommittedIsValid(ts: TypeSystem)
    requires ts.Core() && StringSetsOK(ts.parents, ts.stringSets, |ts.enumStrings|)
    requires ParentsOK(ts.parents) && LayoutOK(ts.parents, ts.introOf, ts.featureNumber, ts.featureOffset, ts.approp)
    requires MappingOK(ts.parents, ts.introOf, ts.mapping) && IsNumbering(ts.parents, ts.priorityNumber)
    ensures ts.Valid()
  {
  }

  lemma BuiltinsComplete(b: BuiltinTable, multiRefs: seq<bool>)
    requires TableOK(b) && |multiRefs| == |b.ranges| && forall f :: 0 <= f < |multiRefs| ==> !multiRefs[f]
    ensures BuiltinsOK(b, b.parents, BuiltinNames(|b.parents|), b.introOf, b.ranges, multiRefs, b.features)
  {
  }

  lemma HierarchyAppend(parents: seq<nat>, names: seq<TypeName>, parent: nat, name: TypeName)
    requires ParentsOK(parents) && IsType(parents, parent)
    requires |names| == |parents| && NamesDistinct(names) && name !in names
    ensures ParentsOK(parents + [parent]) && NamesDistinct(names + [name])
    ensures var tree := Children(parents);
            Children(parents + [parent]) == tree[parent := tree[parent] + [|parents|]] + [[]]
  {
    var tree, more := Children(parents), Children(parents + [parent]);
    forall p | 0 <= p < |more|
      ensures more[p] == (tree[parent := tree[parent] + [|parents|]] + [[]])[p]
    {
      IndicesAppend(parents, 2, p, parent);
      if p == |parents| {
        NoIndices(parents, 2, p);
      }
    }
  }

  lemma FeaturesKeptByNewType(parents: seq<nat>, parent: nat, introOf: seq<nat>, introduced: seq<seq<nat>>,
                              ranges: seq<nat>, multiRefs: seq<bool>, names: seq<string>)
    requires ParentsOK(parents) && IsType(parents, parent)
    requires FeaturesOK(parents, introOf, introduced, ranges, multiRefs, names)
    ensures ParentsOK(parents + [parent])
    ensures FeaturesOK(parents + [parent], introOf, introduced + [[]], ranges, multiRefs, names)
  {
    var more := parents + [parent];
    IntroducedByNewType(introOf, |parents|);
    forall f | 1 <= f < |introOf| ensures NewName(more, introOf, names, f) {
      NewNameKept(parents, parent, introOf, names, f);
    }
  }

  lemma IntroducedByNewType(introOf: seq<nat>, n: nat)
    requires forall f :: 1 <= f < |introOf| ==> introOf[f] < n
    ensures Introduced(introOf, n + 1) == Introduced(introOf, n) + [[]]
  {
    NoIndices(introOf, 1, n);
  }

  lemma NewNameKept(parents: seq<nat>, parent: nat, introOf: seq<nat>, names: seq<string>, f: nat)
    requires ParentsOK(parents) && ParentsOK(parents + [parent]) && IsType(parents, parent)
    requires 1 <= f < |introOf| == |names| && IsType(parents, introOf[f])
    requires NewName(parents, introOf, names, f)
    ensures NewName(parents + [parent], introOf, names, f)
  {
    forall g | 1 <= g < f && names[g] == names[f] ensures !Subsumes(parents + [parent], introOf[g], introOf[f]) {
      SubsumesKept(parents, parent, introOf[g], introOf[f]);
      assert names[..f][g] == names[f];
    }
  }

  /** Creating a type does not change subsumption between the types that exist. */
  lemma {:induction false} SubsumesKept(parents: seq<nat>, parent: nat, a: nat, b: nat)
    requires ParentsOK(parents) && IsType(parents, parent) && IsType(parents, b)
    ensures ParentsOK(parents + [parent])
    ensures Subsumes(parents + [parent], a, b) == Subsumes(parents, a, b)
    decreases b
  {
    if a != b && parents[b] != TOP {
      SubsumesKept(parents, parent, a, parents[b]);
    }
  }

  lemma FeaturesAppend(parents: seq<nat>, introOf: seq<nat>, introduced: seq<seq<nat>>, ranges: seq<nat>,
                       multiRefs: seq<bool>, names: seq<string>, intro: nat, range: nat, multiRef: bool, name: string)
    requires ParentsOK(parents) && FeaturesOK(parents, introOf, introduced, ranges, multiRefs, names)
    requires IsType(parents, intro) && intro != TOP && IsType(parents, range)
    requires !NameTaken(parents, introOf, names, intro, name)
    ensures FeaturesOK(parents, introOf + [intro], introduced[intro := introduced[intro] + [|names|]],
                       ranges + [range], multiRefs + [multiRef], names + [name])
  {
    var introOf', names' := introOf + [intro], names + [name];
    var introduced' := introduced[intro := introduced[intro] + [|names|]];
    forall t | 0 <= t < |parents| ensures Introduced(introOf', |parents|)[t] == introduced'[t] {
      IndicesAppend(introOf, 1, t, intro);
    }
    assert Introduced(introOf', |parents|) == introduced';
    forall f | 1 <= f < |introOf'| ensures NewName(parents, introOf', names', f) {
      assert f < |introOf| ==> NewName(parents, introOf, names, f);
      assert f < |introOf| ==> introOf'[..f] == introOf[..f] && names'[..f] == names[..f];
      assert f == |introOf| ==> introOf'[..f] == introOf && names'[..f] == names;
    }
  }
}
