/**
 The tables in which a committed type system is written out, and the replay
 that rebuilds it in a type system that was reset.
 */
module TypeSystemSerialization {
  import opened TopologicalSort
  import opened TypeTree
  import opened TypeLayout
  import opened TypePriority
  import opened TypeSystem

  datatype SerializedTypes = SerializedTypes(
    inheritance: seq<nat>,
    featureDefs: seq<nat>,
    typeSymbols: seq<TypeName>,
    featureSymbols: seq<string>,
    featureOffsets: seq<nat>,
    priorities: seq<nat>,
    stringSubTypes: seq<nat>,
    stringValuePos: seq<nat>,
    stringValues: seq<string>)

  // What a user of a committed type system can observe.
  datatype Observed = Observed(
    parents: seq<nat>,
    tree: seq<seq<nat>>,
    typeNames: seq<TypeName>,
    introOf: seq<nat>,
    introduced: seq<seq<nat>>,
    ranges: seq<nat>,
    multiRefs: seq<bool>,
    featureNames: seq<string>,
    stringSets: map<nat, seq<string>>,
    featureNumber: seq<nat>,
    featureOffset: seq<nat>,
    approp: seq<seq<bool>>,
    priorityNumber: map<nat, nat>)

  ghost function Observe(ts: TypeSystem): Observed
    requires ts.Valid() && ts.committed
    reads ts
  {
    assert LaidOut(ts.parents, ts.introOf, ts.featureNumber, ts.featureOffset, ts.approp, TOP);
    Observed(ts.parents, ts.tree, ts.typeNames, ts.introOf, ts.introduced, ts.rangeTypes, ts.multiRefs, ts.featureNames,
             StringSets(ts.parents, ts.stringSets, ts.enumStrings),
             ts.featureNumber[1..], ts.featureOffset[1..], ts.approp[1..], ts.priorityNumber)
  }

  // The allowed values of each direct subtype of the string type.
  ghost function StringSets(parents: seq<nat>, stringSets: map<nat, nat>,
                            enumStrings: seq<seq<string>>): map<nat, seq<string>>
    requires StringSetsOK(parents, stringSets, |enumStrings|)
  {
    map t: nat | 2 <= t < |parents| && parents[t] == STRING :: enumStrings[stringSets[t]]
  }

  // ------------------------------------------------------------- contents

  // Three cells for each feature: its type, its range, and whether it takes several references.
  function FeatureDefs(introOf: seq<nat>, ranges: seq<nat>, multiRefs: seq<bool>, n: nat): (r: seq<nat>)
    requires 1 <= n <= |introOf| == |ranges| == |multiRefs|
    ensures |r| == 3 * n
    ensures forall f :: 1 <= f < n ==>
              r[3 * f] == introOf[f] && r[3 * f + 1] == ranges[f] && r[3 * f + 2] == if multiRefs[f] then 1 else 0
  {
    if n == 1 then [0, 0, 0]
    else
      var multi := if multiRefs[n - 1] then 1 else 0;
      FeatureDefs(introOf, ranges, multiRefs, n - 1) + [introOf[n - 1], ranges[n - 1], multi]
  }

  // The value sets one after another, with the position of each.
  function Flatten(sets: seq<seq<string>>): seq<string> {
    if sets == [] then [] else Flatten(sets[..|sets| - 1]) + sets[|sets| - 1]
  }

  predicate Positions(pos: seq<nat>, sets: seq<seq<string>>) {
    |pos| == |sets| && forall i :: 0 <= i < |sets| ==> pos[i] == |Flatten(sets[..i])|
  }

  lemma {:induction false} FlattenSlice(sets: seq<seq<string>>, i: nat)
    requires i < |sets|
    ensures |Flatten(sets[..i])| <= |Flatten(sets[..i + 1])| <= |Flatten(sets)|
    ensures Flatten(sets)[|Flatten(sets[..i])|..|Flatten(sets[..i + 1])|] == sets[i]
  {
    var front := sets[..|sets| - 1];
    if i < |sets| - 1 {
      FlattenSlice(front, i);
      assert front[..i] == sets[..i] && front[..i + 1] == sets[..i + 1];
    } else {
      assert sets[..i] == front && sets[..i + 1] == sets;
    }
  }

  // The value sets in the order of the subtypes.
  ghost function ValueSets(subTypes: seq<nat>, stringSets: map<nat, seq<string>>): (r: seq<seq<string>>)
    requires forall i :: 0 <= i < |subTypes| ==> subTypes[i] in stringSets
    ensures |r| == |subTypes|
  {
    seq(|subTypes|, i requires 0 <= i < |subTypes| => stringSets[subTypes[i]])
  }

  ghost predicate TypesDescribed(s: SerializedTypes, o: Observed) {
    && |s.inheritance| == |s.typeSymbols| == |o.parents| == |o.typeNames|
    && forall t :: 2 <= t < |o.parents| ==> s.inheritance[t] == o.parents[t] && s.typeSymbols[t] == o.typeNames[t]
  }

  ghost predicate FeaturesDescribed(s: SerializedTypes, o: Observed) {
    && |o.introOf| == |o.ranges| == |o.multiRefs| == |o.featureNames| >= 1
    && s.featureDefs == FeatureDefs(o.introOf, o.ranges, o.multiRefs, |o.introOf|)
    && |s.featureSymbols| == |s.featureOffsets| == |o.featureNames| == |o.featureOffset| + 1
    && forall f :: 1 <= f < |o.featureNames| ==>
         s.featureSymbols[f] == o.featureNames[f] && s.featureOffsets[f] == o.featureOffset[f - 1]
  }

  ghost predicate StringsDescribed(s: SerializedTypes, o: Observed) {
    && s.stringSubTypes == Indices(o.parents, 2, STRING)
    && (forall i :: 0 <= i < |s.stringSubTypes| ==> s.stringSubTypes[i] in o.stringSets)
    && s.stringValues == Flatten(ValueSets(s.stringSubTypes, o.stringSets))
    && Positions(s.stringValuePos, ValueSets(s.stringSubTypes, o.stringSets))
  }

  // The tables say what the type system holds.
  ghost predicate Describes(s: SerializedTypes, o: Observed) {
    && TypesDescribed(s, o) && FeaturesDescribed(s, o) && StringsDescribed(s, o)
    && IsNumberedBy(o.parents, o.priorityNumber, s.priorities)
  }

  // --------------------------------------------------------------- writing

  // 1. inheritance vector
  method WriteInheritance(ts: TypeSystem) returns (table: seq<nat>)
    requires ts.Valid()
    ensures |table| == |ts.parents| && forall t :: 2 <= t < |table| ==> table[t] == ts.parents[t]
  {
    table := Zeros(|ts.typeNames|);
    for t := 2 to |ts.typeNames|
      invariant |table| == |ts.parents| && forall u :: 2 <= u < t ==> table[u] == ts.parents[u]
    {
      var parent := ts.GetParentType(t);
      table := table[t := parent];
    }
  }

  // 2. feature definitions, after three empty cells
  method WriteFeatureDefs(ts: TypeSystem) returns (table: seq<nat>)
    requires ts.Valid()
    ensures table == FeatureDefs(ts.introOf, ts.rangeTypes, ts.multiRefs, |ts.introOf|)
  {
    table := Zeros(3);
    assert table == [0, 0, 0];
    for f := 1 to |ts.featureNames|
      invariant table == FeatureDefs(ts.introOf, ts.rangeTypes, ts.multiRefs, f)
    {
      var intro := ts.GetIntroType(f);
      table := table + [intro, ts.rangeTypes[f], if ts.multiRefs[f] then 1 else 0];
    }
  }

  // 5. type priorities: the types in the order of their numbers
  method WritePriorities(ts: TypeSystem) returns (table: seq<nat>)
    requires ts.Valid() && ts.committed
    ensures IsNumberedBy(ts.parents, ts.priorityNumber, table)
  {
    var n := |ts.typeNames|;
    ghost var total :| IsNumberedBy(ts.parents, ts.priorityNumber, total);
    table := Zeros(n - 1);
    for t := 1 to n
      invariant |table| == n - 1
      invariant forall k :: 0 <= k < n - 1 && 1 <= total[k] < t ==> table[k] == total[k]
    {
      assert t in total;
      var num := ts.priorityNumber[t];
      table := table[num := t];
    }
    assert forall k :: 0 <= k < n - 1 ==> total[k] in total;
    assert table == total;
  }

  // 6. string subtypes with their values
  method WriteValueSets(sets: seq<seq<string>>) returns (pos: seq<nat>, values: seq<string>)
    ensures values == Flatten(sets) && Positions(pos, sets)
  {
    pos, values := [], [];
    for i := 0 to |sets|
      invariant values == Flatten(sets[..i])
      invariant |pos| == i && forall j :: 0 <= j < i ==> pos[j] == |Flatten(sets[..j])|
    {
      pos := pos + [|values|];
      assert sets[..i + 1][..i] == sets[..i];
      var before := values;
      for j := 0 to |sets[i]|
        invariant values == before + sets[i][..j]
      {
        values := values + [sets[i][j]];
      }
      assert sets[i][..|sets[i]|] == sets[i];
    }
    assert sets[..|sets|] == sets;
  }

  method WriteStringSubTypes(ts: TypeSystem) returns (subTypes: seq<nat>, pos: seq<nat>, values: seq<string>)
    requires ts.Valid() && ts.builtinsCreated
    ensures subTypes == Indices(ts.parents, 2, STRING)
    ensures var stringSets := StringSets(ts.parents, ts.stringSets, ts.enumStrings);
            && (forall i :: 0 <= i < |subTypes| ==> subTypes[i] in stringSets)
            && values == Flatten(ValueSets(subTypes, stringSets)) && Positions(pos, ValueSets(subTypes, stringSets))
  {
    StringTypeExists(ts);
    StringSubTypesAre(ts);
    hide *;
    subTypes := ts.tree[STRING];
    var sets: seq<seq<string>> := [];
    for i := 0 to |subTypes|
      invariant |sets| == i
      invariant forall j :: 0 <= j < i ==> sets[j] == ts.enumStrings[ts.stringSets[subTypes[j]]]
    {
      sets := sets + [ts.enumStrings[ts.stringSets[subTypes[i]]]];
    }
    SetsAre(ts, subTypes, sets);
    pos, values := WriteValueSets(sets);
  }

  lemma StringSubTypesAre(ts: TypeSystem)
    requires ts.Valid() && ts.builtinsCreated && STRING < |ts.parents|
    ensures |ts.tree| == |ts.parents| && ts.tree[STRING] == Indices(ts.parents, 2, STRING)
    ensures StringSetsOK(ts.parents, ts.stringSets, |ts.enumStrings|)
    ensures forall i :: 0 <= i < |ts.tree[STRING]| ==>
              ts.tree[STRING][i] in ts.stringSets && ts.stringSets[ts.tree[STRING][i]] < |ts.enumStrings|
  {
    hide FeaturesOK, BuiltinsOK, TableOK, LayoutOK, MappingOK, IsNumbering;
    assert forall i :: 0 <= i < |ts.tree[STRING]| ==> ts.tree[STRING][i] in ts.tree[STRING];
  }

  lemma SetsAre(ts: TypeSystem, subTypes: seq<nat>, sets: seq<seq<string>>)
    requires StringSetsOK(ts.parents, ts.stringSets, |ts.enumStrings|) && |sets| == |subTypes|
    requires subTypes == Indices(ts.parents, 2, STRING)
    requires forall j :: 0 <= j < |sets| ==>
               && subTypes[j] in ts.stringSets && ts.stringSets[subTypes[j]] < |ts.enumStrings|
               && sets[j] == ts.enumStrings[ts.stringSets[subTypes[j]]]
    ensures var stringSets := StringSets(ts.parents, ts.stringSets, ts.enumStrings);
            (forall i :: 0 <= i < |subTypes| ==> subTypes[i] in stringSets) && sets == ValueSets(subTypes, stringSets)
  {
    hide Indices;
    assert forall i :: 0 <= i < |subTypes| ==> subTypes[i] in subTypes;
  }

  lemma StringTypeExists(ts: TypeSystem)
    requires ts.Valid() && ts.builtinsCreated
    ensures STRING < |ts.parents|
  {
  }

  /** serializeTypeSystem */
  method SerializeTypeSystem(ts: TypeSystem) returns (s: SerializedTypes)
    requires ts.Valid() && ts.committed && ts.builtinsCreated
    ensures Describes(s, Observe(ts))
  {
    var inheritance := WriteInheritance(ts);
    var featureDefs := WriteFeatureDefs(ts);
    var priorities := WritePriorities(ts);
    var subTypes, pos, values := WriteStringSubTypes(ts);
    s := SerializedTypes(inheritance, featureDefs, ts.typeNames, ts.featureNames, ts.featureOffset,
                         priorities, subTypes, pos, values);
    Described(ts, s);
  }

  lemma Described(ts: TypeSystem, s: SerializedTypes)
    requires ts.Valid() && ts.committed && ts.builtinsCreated
    requires |s.inheritance| == |ts.parents| && forall t :: 2 <= t < |ts.parents| ==> s.inheritance[t] == ts.parents[t]
    requires s.featureDefs == FeatureDefs(ts.introOf, ts.rangeTypes, ts.multiRefs, |ts.introOf|)
    requires s.typeSymbols == ts.typeNames && s.featureSymbols == ts.featureNames
    requires s.featureOffsets == ts.featureOffset
    requires IsNumberedBy(ts.parents, ts.priorityNumber, s.priorities)
    requires StringsDescribed(s, Observe(ts))
    ensures Describes(s, Observe(ts))
  {
  }

  // --------------------------------------------------------------- reading

  // The observed contents are those of a valid committed type system over the built-in table b.
  ghost predicate Genuine(b: BuiltinTable, o: Observed) {
    && TableOK(b) && HierarchyOK(o.parents, o.tree, o.typeNames)
    && FeaturesOK(o.parents, o.introOf, o.introduced, o.ranges, o.multiRefs, o.featureNames)
    && BuiltinsOK(b, o.parents, o.typeNames, o.introOf, o.ranges, o.multiRefs, o.featureNames)
  }

  method FindIndex(table: seq<nat>, x: nat) returns (n: int)
    ensures n == -1 ==> x !in table
    ensures n != -1 ==> 0 <= n < |table| && table[n] == x
  {
    for i := 0 to |table|
      invariant x !in table[..i]
    {
      if table[i] == x {
        return i;
      }
    }
    n := -1;
  }

  // The values of the string subtype t.
  method ReadValueSet(s: SerializedTypes, ghost o: Observed, t: nat) returns (strings: seq<string>)
    requires StringsDescribed(s, o) && 2 <= t < |o.parents| && o.parents[t] == STRING
    ensures t in o.stringSets && strings == o.stringSets[t]
  {
    hide *;
    SubtypeIsListed(s, o, t);
    var n := FindIndex(s.stringSubTypes, t);
    ValuesAt(s, o, t, n);
    var m := if n == |s.stringSubTypes| - 1 then |s.stringValues| else s.stringValuePos[n + 1];
    strings := [];
    for j := s.stringValuePos[n] to m
      invariant strings == s.stringValues[s.stringValuePos[n]..j]
    {
      strings := strings + [s.stringValues[j]];
    }
  }

  lemma SubtypeIsListed(s: SerializedTypes, o: Observed, t: nat)
    requires StringsDescribed(s, o) && 2 <= t < |o.parents| && o.parents[t] == STRING
    ensures t in s.stringSubTypes
  {
  }

  // The values of a subtype stand between its position and the next one.
  lemma ValuesAt(s: SerializedTypes, o: Observed, t: nat, n: nat)
    requires StringsDescribed(s, o) && n < |s.stringSubTypes| && s.stringSubTypes[n] == t
    ensures |s.stringValuePos| == |s.stringSubTypes| && t in o.stringSets
    ensures var m := if n == |s.stringSubTypes| - 1 then |s.stringValues| else s.stringValuePos[n + 1];
            s.stringValuePos[n] <= m <= |s.stringValues|
            && s.stringValues[s.stringValuePos[n]..m] == o.stringSets[t]
  {
    var sets := ValueSets(s.stringSubTypes, o.stringSets);
    FlattenSlice(sets, n);
    assert sets[..|sets|] == sets;
    hide Flatten, Indices;
  }

  ghost predicate ValuesRead(ts: TypeSystem, o: Observed, n: nat)
    reads ts`stringSets, ts`enumStrings
  {
    forall t :: 2 <= t < n && t < |o.parents| && o.parents[t] == STRING ==>
      && t in ts.stringSets && ts.stringSets[t] < |ts.enumStrings| && t in o.stringSets
      && ts.enumStrings[ts.stringSets[t]] == o.stringSets[t]
  }

  // The first n types are there.
  ghost predicate TypesRead(ts: TypeSystem, o: Observed, n: nat)
    reads ts
  {
    && n <= |o.parents| == |o.typeNames|
    && ts.Valid() && !ts.committed && ts.builtinsCreated
    && ts.parents == o.parents[..n] && ts.typeNames == o.typeNames[..n] && ValuesRead(ts, o, n)
  }

  // One type of createNewTypesAndFeatures.
  method CreateNewType(s: SerializedTypes, ts: TypeSystem, ghost o: Observed, i: nat)
    requires Genuine(ts.builtins, o) && TypesDescribed(s, o) && StringsDescribed(s, o)
    requires |ts.builtins.parents| <= i < |o.parents| && TypesRead(ts, o, i)
    modifies ts`tree, ts`parents, ts`introduced, ts`typeNames, ts`enumStrings, ts`stringSets
    ensures TypesRead(ts, o, i + 1)
  {
    hide *;
    TypeReady(s, ts, o, i);
    var parent, name := s.inheritance[i], s.typeSymbols[i];
    if parent == STRING {
      var strings := ReadValueSet(s, o, i);
      CreateNewStringSubtype(ts, name, strings, o, i);
    } else {
      CreateNewPlainType(ts, parent, name, o, i);
    }
    TypeAdded(ts, o, i);
  }

  lemma TypeReady(s: SerializedTypes, ts: TypeSystem, o: Observed, i: nat)
    requires Genuine(ts.builtins, o) && TypesDescribed(s, o)
    requires |ts.builtins.parents| <= i < |o.parents| && TypesRead(ts, o, i)
    ensures ts.Valid() && !ts.committed && ts.builtinsCreated && ValuesRead(ts, o, i)
    ensures 2 <= i == |ts.parents| && i < |s.inheritance| == |s.typeSymbols| == |o.typeNames| == |o.parents|
    ensures s.inheritance[i] == o.parents[i] && s.typeSymbols[i] == o.typeNames[i]
    ensures IsType(ts.parents, o.parents[i]) && o.typeNames[i] !in ts.typeNames
    ensures o.parents[..i + 1] == ts.parents + [o.parents[i]] && o.typeNames[..i + 1] == ts.typeNames + [o.typeNames[i]]
  {
    PrefixStep(o, i);
  }

  lemma TypeAdded(ts: TypeSystem, o: Observed, i: nat)
    requires i < |o.parents| == |o.typeNames|
    requires ts.Valid() && !ts.committed && ts.builtinsCreated
    requires ts.parents == o.parents[..i + 1] && ts.typeNames == o.typeNames[..i + 1] && ValuesRead(ts, o, i + 1)
    ensures TypesRead(ts, o, i + 1)
  {
  }

  method CreateNewPlainType(ts: TypeSystem, parent: nat, name: TypeName, ghost o: Observed, i: nat)
    requires ts.Valid() && !ts.committed && ts.builtinsCreated && IsType(ts.parents, parent) && name !in ts.typeNames
    requires i < |o.parents| && parent == o.parents[i] != STRING && ValuesRead(ts, o, i)
    modifies ts`tree, ts`parents, ts`introduced, ts`typeNames
    ensures ts.Valid() && ValuesRead(ts, o, i + 1)
    ensures ts.parents == old(ts.parents) + [parent] && ts.typeNames == old(ts.typeNames) + [name]
  {
    var r := ts.CreateTypeNoChecks(parent, name);
  }

  lemma PrefixStep(o: Observed, i: nat)
    requires i < |o.parents| == |o.typeNames| && ParentsOK(o.parents) && i >= 2 && NamesDistinct(o.typeNames)
    ensures o.parents[..i + 1] == o.parents[..i] + [o.parents[i]]
    ensures o.typeNames[..i + 1] == o.typeNames[..i] + [o.typeNames[i]]
    ensures IsType(o.parents[..i], o.parents[i]) && o.typeNames[i] !in o.typeNames[..i]
  {
  }

  method CreateNewStringSubtype(ts: TypeSystem, name: TypeName, strings: seq<string>, ghost o: Observed, i: nat)
    requires ts.Valid() && !ts.committed && ts.builtinsCreated && name !in ts.typeNames
    requires 2 <= i < |o.parents| && i == |ts.parents| && i in o.stringSets && strings == o.stringSets[i]
    requires ValuesRead(ts, o, i)
    modifies ts`tree, ts`parents, ts`introduced, ts`typeNames, ts`enumStrings, ts`stringSets
    ensures ts.Valid() && ValuesRead(ts, o, i + 1)
    ensures ts.parents == old(ts.parents) + [STRING] && ts.typeNames == old(ts.typeNames) + [name]
  {
    var r := ts.CreateStringSubtype(name, strings);
  }

  // The types of createNewTypesAndFeatures.
  method CreateNewTypes(s: SerializedTypes, ts: TypeSystem, ghost o: Observed)
    requires Genuine(ts.builtins, o) && TypesDescribed(s, o) && StringsDescribed(s, o)
    requires ts.Valid() && !ts.committed && ts.builtinsCreated
    requires ts.parents == ts.builtins.parents && ts.typeNames == BuiltinNames(|ts.parents|)
    modifies ts`tree, ts`parents, ts`introduced, ts`typeNames, ts`enumStrings, ts`stringSets
    ensures TypesRead(ts, o, |o.parents|)
  {
    hide *;
    BuiltinsRead(s, ts, o);
    for i := |ts.typeNames| to |s.typeSymbols|
      invariant TypesRead(ts, o, i)
    {
      CreateNewType(s, ts, o, i);
    }
  }

  lemma BuiltinsRead(s: SerializedTypes, ts: TypeSystem, o: Observed)
    requires ts.Valid() && !ts.committed && ts.builtinsCreated
    requires Genuine(ts.builtins, o) && TypesDescribed(s, o)
    requires ts.parents == ts.builtins.parents && ts.typeNames == BuiltinNames(|ts.parents|)
    ensures TypesRead(ts, o, |ts.typeNames|)
    ensures |ts.typeNames| == |ts.builtins.parents| <= |s.typeSymbols| == |o.parents|
  {
    var b := ts.builtins;
    assert forall t :: 2 <= t < |b.parents| ==> o.parents[t] == b.parents[t];
  }

  ghost predicate FeaturesRead(ts: TypeSystem, o: Observed, n: nat)
    reads ts`introOf, ts`rangeTypes, ts`multiRefs, ts`featureNames
    requires n <= |o.introOf| == |o.ranges| == |o.multiRefs| == |o.featureNames|
  {
    && ts.introOf == o.introOf[..n] && ts.rangeTypes == o.ranges[..n]
    && ts.multiRefs == o.multiRefs[..n] && ts.featureNames == o.featureNames[..n]
  }

  // One feature of createNewTypesAndFeatures.
  method CreateNewFeature(s: SerializedTypes, ts: TypeSystem, ghost o: Observed, f: nat)
    requires Genuine(ts.builtins, o) && FeaturesDescribed(s, o)
    requires ts.Valid() && !ts.committed && ts.builtinsCreated && ts.parents == o.parents
    requires |ts.builtins.introOf| <= f < |o.introOf| && FeaturesRead(ts, o, f)
    modifies ts`introduced, ts`rangeTypes, ts`multiRefs, ts`featureNames, ts`introOf
    ensures ts.Valid() && FeaturesRead(ts, o, f + 1)
  {
    assert NewName(o.parents, o.introOf, o.featureNames, f);
    var r := ts.CreateFeature(s.featureDefs[3 * f], s.featureDefs[3 * f + 1], s.featureDefs[3 * f + 2] == 1,
                              s.featureSymbols[f]);
    assert r.Created?;
  }

  // The features of createNewTypesAndFeatures.
  method CreateNewFeatures(s: SerializedTypes, ts: TypeSystem, ghost o: Observed)
    requires Genuine(ts.builtins, o) && FeaturesDescribed(s, o)
    requires ts.Valid() && !ts.committed && ts.builtinsCreated && ts.parents == o.parents
    requires |ts.featureNames| == |ts.builtins.introOf| <= |o.introOf| && FeaturesRead(ts, o, |ts.builtins.introOf|)
    modifies ts`introduced, ts`rangeTypes, ts`multiRefs, ts`featureNames, ts`introOf
    ensures ts.Valid() && FeaturesRead(ts, o, |o.introOf|)
  {
    for f := |ts.featureNames| to |s.featureSymbols|
      invariant ts.Valid() && FeaturesRead(ts, o, f)
    {
      CreateNewFeature(s, ts, o, f);
    }
  }

  /** addTypePriorities: the neighbours in the table as pairs; all are accepted. */
  method AddTypePriorities(table: seq<nat>, ts: TypeSystem)
    requires ts.PrioritiesOK() && ts.priorityList == [] && |table| >= 2 && Distinct(table)
    requires forall i :: 0 <= i < |table| ==> IsType(ts.parents, table[i])
    modifies ts`priorityList, ts`customPrioritySet
    ensures ts.PrioritiesOK() && ts.customPrioritySet
    ensures ts.priorityList == Chain(table, |table| - 1)
  {
    for i := 0 to |table| - 1
      invariant ts.PrioritiesOK() && ts.priorityList == Chain(table, i) && (i > 0 ==> ts.customPrioritySet)
    {
      ForwardWithChain([], table, i + 1);
      ChainStep([], table, i);
      assert [] + Chain(table, i + 1) == Chain(table, i + 1) && [] + Chain(table, i) == Chain(table, i);
      var accepted := ts.AddTypePriority(table[i], table[i + 1]);
    }
  }

  // createNewTypesAndFeatures, on a type system that was just reset.
  method CreateNewTypesAndFeatures(s: SerializedTypes, ts: TypeSystem, ghost o: Observed)
    requires Genuine(ts.builtins, o) && Describes(s, o)
    requires ts.Valid() && !ts.committed && ts.builtinsCreated
    requires ts.parents == ts.builtins.parents && ts.typeNames == BuiltinNames(|ts.parents|)
    requires ts.introOf == ts.builtins.introOf && ts.rangeTypes == ts.builtins.ranges
    requires ts.featureNames == ts.builtins.features
    modifies ts`tree, ts`parents, ts`introduced, ts`typeNames, ts`enumStrings, ts`stringSets,
             ts`rangeTypes, ts`multiRefs, ts`featureNames, ts`introOf
    ensures ts.Valid() && DefinitionsRead(ts, o)
  {
    hide Genuine, TypesDescribed, FeaturesDescribed, StringsDescribed, TypesRead, FeaturesRead;
    BuiltinFeaturesRead(ts, o);
    CreateNewTypes(s, ts, o);
    AllTypesRead(ts, o);
    CreateNewFeatures(s, ts, o);
  }

  lemma AllTypesRead(ts: TypeSystem, o: Observed)
    requires TypesRead(ts, o, |o.parents|)
    ensures ts.Valid() && !ts.committed && ts.builtinsCreated
    ensures ts.parents == o.parents && ts.typeNames == o.typeNames && ValuesRead(ts, o, |o.parents|)
  {
    assert o.parents[..|o.parents|] == o.parents && o.typeNames[..|o.typeNames|] == o.typeNames;
  }

  lemma BuiltinFeaturesRead(ts: TypeSystem, o: Observed)
    requires Genuine(ts.builtins, o) && ts.Valid() && ts.builtinsCreated
    requires ts.introOf == ts.builtins.introOf && ts.rangeTypes == ts.builtins.ranges
    requires ts.featureNames == ts.builtins.features
    ensures |ts.builtins.introOf| <= |o.introOf| == |o.ranges| == |o.multiRefs| == |o.featureNames|
    ensures |ts.featureNames| == |ts.builtins.introOf| && FeaturesRead(ts, o, |ts.builtins.introOf|)
  {
  }

  // All types and features are there.
  ghost predicate DefinitionsRead(ts: TypeSystem, o: Observed)
    reads ts
  {
    && |o.introOf| == |o.ranges| == |o.multiRefs| == |o.featureNames|
    && ts.parents == o.parents && ts.typeNames == o.typeNames && ValuesRead(ts, o, |o.parents|)
    && FeaturesRead(ts, o, |o.introOf|)
  }

  ghost predicate Replayed(s: SerializedTypes, ts: TypeSystem, o: Observed)
    reads ts
  {
    && |s.priorities| >= 1 && DefinitionsRead(ts, o)
    && ts.customPrioritySet && ts.priorityList == Chain(s.priorities, |s.priorities| - 1)
  }

  method ReplayDefinitions(s: SerializedTypes, ts: TypeSystem, ghost o: Observed)
    requires TableOK(ts.builtins) && Genuine(ts.builtins, o) && Describes(s, o)
    modifies ts
    ensures ts.Valid() && !ts.committed && ts.builtinsCreated && Replayed(s, ts, o)
  {
    assert IsNumberedBy(o.parents, o.priorityNumber, s.priorities);
    hide *;
    ts.Reset();
    CreateNewTypesAndFeatures(s, ts, o);
    ReplayPriorities(s, ts, o);
  }

  method ReplayPriorities(s: SerializedTypes, ts: TypeSystem, ghost o: Observed)
    requires ts.Valid() && !ts.committed && ts.builtinsCreated && DefinitionsRead(ts, o) && ts.priorityList == []
    requires IsNumberedBy(o.parents, o.priorityNumber, s.priorities)
    modifies ts`priorityList, ts`customPrioritySet
    ensures ts.Valid() && Replayed(s, ts, o)
  {
    assert forall i :: 0 <= i < |s.priorities| ==> s.priorities[i] in s.priorities;
    AddTypePriorities(s.priorities, ts);
  }

  method CommitReplayed(s: SerializedTypes, ts: TypeSystem, ghost o: Observed)
    requires Genuine(ts.builtins, o) && IsNumberedBy(o.parents, o.priorityNumber, s.priorities) && TablesOf(o)
    requires ts.Valid() && !ts.committed && Replayed(s, ts, o)
    modifies ts
    ensures ts.Valid() && ts.committed
    ensures Observe(ts) == o
  {
    hide *;
    ReplayedMeans(s, ts, o);
    ts.Commit();
    DefinitionsFrom(ts, o);
    ghost var total :| IsPriorityList(ts.parents, true, Chain(s.priorities, |s.priorities| - 1), total)
                    && Numbers(ts.priorityNumber, total);
    ChainSurvivesMerge(ts.parents, s.priorities, total);
    SameContents(ts, o, total);
  }

  lemma ReplayedMeans(s: SerializedTypes, ts: TypeSystem, o: Observed)
    requires Genuine(ts.builtins, o) && IsNumberedBy(o.parents, o.priorityNumber, s.priorities)
    requires Replayed(s, ts, o)
    ensures ts.customPrioritySet && |s.priorities| >= 1
    ensures ts.priorityList == Chain(s.priorities, |s.priorities| - 1)
    ensures |o.introOf| == |o.ranges| == |o.multiRefs| == |o.featureNames|
    ensures ts.parents == o.parents && ts.typeNames == o.typeNames
    ensures ValuesRead(ts, o, |o.parents|) && FeaturesRead(ts, o, |o.introOf|)
    ensures ParentsOK(ts.parents) && Distinct(s.priorities) && |s.priorities| == |ts.parents| - 1
    ensures (forall t :: t in s.priorities <==> IsType(ts.parents, t)) && Numbers(o.priorityNumber, s.priorities)
  {
    hide Numbers, Chain, FeaturesOK, BuiltinsOK, TableOK, ValuesRead, FeaturesRead;
  }

  lemma DefinitionsFrom(ts: TypeSystem, o: Observed)
    requires |o.introOf| == |o.ranges| == |o.multiRefs| == |o.featureNames|
    requires ts.parents == o.parents && ts.typeNames == o.typeNames
    requires ValuesRead(ts, o, |o.parents|) && FeaturesRead(ts, o, |o.introOf|)
    ensures DefinitionsRead(ts, o)
  {
    hide ValuesRead, FeaturesRead;
  }

  /** deserializeTypeSystem: whatever the target held before, it ends up with the contents that were written. */
  method DeserializeTypeSystem(s: SerializedTypes, ts: TypeSystem, ghost o: Observed)
    requires Genuine(ts.builtins, o) && Describes(s, o) && TablesOf(o)
    modifies ts
    ensures ts.Valid() && ts.committed
    ensures Observe(ts) == o
  {
    ReplayDefinitions(s, ts, o);
    CommitReplayed(s, ts, o);
  }

  // The numbering and the layout of the contents are those that commit computes.
  ghost predicate TablesOf(o: Observed)
    requires ParentsOK(o.parents)
  {
    && |o.featureNumber| + 1 == |o.approp| + 1 == |o.parents| && |o.featureOffset| + 1 == |o.introOf|
    && LayoutOK(o.parents, o.introOf, [0] + o.featureNumber, [0] + o.featureOffset, [[]] + o.approp)
    && o.stringSets.Keys == set t: nat | 2 <= t < |o.parents| && o.parents[t] == STRING
  }

  lemma NumbersDetermined(order: map<nat, nat>, order': map<nat, nat>, s: seq<nat>)
    requires Numbers(order, s) && Numbers(order', s)
    ensures order == order'
  {
    forall v ensures v in order <==> v in order' {
      assert v in order ==> v in s;
    }
  }

  lemma SameContents(ts: TypeSystem, o: Observed, total: seq<nat>)
    requires ts.Valid() && ts.committed && Genuine(ts.builtins, o) && TablesOf(o)
    requires DefinitionsRead(ts, o)
    requires Numbers(ts.priorityNumber, total) && Numbers(o.priorityNumber, total)
    ensures Observe(ts) == o
  {
    NumbersDetermined(ts.priorityNumber, o.priorityNumber, total);
    assert ts.introOf == o.introOf && ts.rangeTypes == o.ranges && ts.multiRefs == o.multiRefs;
    assert ts.featureNames == o.featureNames;
    LayoutDetermined(o.parents, o.introOf, ts.featureNumber, ts.featureOffset, ts.approp,
                     [0] + o.featureNumber, [0] + o.featureOffset, [[]] + o.approp);
    assert StringSets(ts.parents, ts.stringSets, ts.enumStrings) == o.stringSets;
  }

  /** Writing a committed type system and replaying the tables restores everything a user can observe. */
  method RoundTrip(source: TypeSystem, target: TypeSystem)
    requires source.Valid() && source.committed && source.builtinsCreated
    requires target != source && target.builtins == source.builtins
    modifies target
    ensures target.Valid() && target.committed
    ensures Observe(target) == old(Observe(source)) && SameTypes(source, target)
  {
    ghost var o := Observe(source);
    ObservedTables(source);
    var s := SerializeTypeSystem(source);
    DeserializeTypeSystem(s, target, o);
    SeenAlike(source, target);
  }

  // Field by field: types, features, value sets, layout and priorities are the same.
  ghost predicate SameTypes(a: TypeSystem, b: TypeSystem)
    reads a, b
  {
    && a.parents == b.parents && a.tree == b.tree && a.typeNames == b.typeNames
    && a.introOf == b.introOf && a.introduced == b.introduced && a.featureNames == b.featureNames
    && a.rangeTypes == b.rangeTypes && a.multiRefs == b.multiRefs
    && (forall t :: 2 <= t < |a.parents| && a.parents[t] == STRING ==> SameValues(a, b, t))
    && (forall t :: IsType(a.parents, t) ==> SameLayout(a, b, t))
    && |a.featureOffset| == |b.featureOffset|
    && (forall f :: 0 < f < |a.featureOffset| ==> a.featureOffset[f] == b.featureOffset[f])
    && a.priorityNumber == b.priorityNumber
  }

  ghost predicate SameValues(a: TypeSystem, b: TypeSystem, t: nat)
    reads a, b
  {
    && t in a.stringSets && a.stringSets[t] < |a.enumStrings|
    && t in b.stringSets && b.stringSets[t] < |b.enumStrings|
    && a.enumStrings[a.stringSets[t]] == b.enumStrings[b.stringSets[t]]
  }

  ghost predicate SameLayout(a: TypeSystem, b: TypeSystem, t: int)
    reads a, b
  {
    && 0 <= t < |a.featureNumber| && t < |b.featureNumber| && a.featureNumber[t] == b.featureNumber[t]
    && t < |a.approp| && t < |b.approp| && a.approp[t] == b.approp[t]
  }

  lemma SeenAlike(a: TypeSystem, b: TypeSystem)
    requires a.Valid() && a.committed && b.Valid() && b.committed && Observe(a) == Observe(b)
    ensures SameTypes(a, b)
  {
    TablesBegin(a);
    TablesBegin(b);
    forall t: nat | 2 <= t < |a.parents| && a.parents[t] == STRING ensures SameValues(a, b, t) {
      assert t in Observe(a).stringSets && t in Observe(b).stringSets;
      assert Observe(a).stringSets[t] == Observe(b).stringSets[t];
    }
    forall t | IsType(a.parents, t) ensures SameLayout(a, b, t) {
      assert a.featureNumber[t] == Observe(a).featureNumber[t - 1];
      assert b.featureNumber[t] == Observe(b).featureNumber[t - 1];
      assert a.approp[t] == Observe(a).approp[t - 1] && b.approp[t] == Observe(b).approp[t - 1];
    }
    forall f | 0 < f < |a.featureOffset| ensures a.featureOffset[f] == b.featureOffset[f] {
      assert a.featureOffset[f] == Observe(a).featureOffset[f - 1];
      assert b.featureOffset[f] == Observe(b).featureOffset[f - 1];
    }
  }

  lemma TablesBegin(ts: TypeSystem)
    requires ts.Valid() && ts.committed
    ensures |ts.featureNumber| == |ts.approp| == |ts.parents| && |ts.featureOffset| == |ts.introOf| >= 1
  {
    assert LaidOut(ts.parents, ts.introOf, ts.featureNumber, ts.featureOffset, ts.approp, TOP);
  }

  lemma ObservedTables(ts: TypeSystem)
    requires ts.Valid() && ts.committed && ts.builtinsCreated
    ensures Genuine(ts.builtins, Observe(ts)) && TablesOf(Observe(ts))
  {
    ObservedLayout(ts);
  }

  lemma ObservedLayout(ts: TypeSystem)
    requires ts.Valid() && ts.committed
    ensures var o := Observe(ts);
            |o.featureNumber| + 1 == |o.approp| + 1 == |o.parents| && |o.featureOffset| + 1 == |o.introOf|
            && LayoutOK(o.parents, o.introOf, [0] + o.featureNumber, [0] + o.featureOffset, [[]] + o.approp)
  {
    var o := Observe(ts);
    var number, offset, approp := [0] + o.featureNumber, [0] + o.featureOffset, [[]] + o.approp;
    assert LaidOut(ts.parents, ts.introOf, ts.featureNumber, ts.featureOffset, ts.approp, TOP);
    hide RowOK, OffsetsOK;
    forall t | IsType(o.parents, t) ensures LaidOut(o.parents, o.introOf, number, offset, approp, t) {
      assert LaidOut(ts.parents, ts.introOf, ts.featureNumber, ts.featureOffset, ts.approp, t);
      LaidOutKept(ts.parents, ts.introOf, ts.featureNumber, ts.featureOffset, ts.approp, number, offset, approp, t);
    }
  }
}
