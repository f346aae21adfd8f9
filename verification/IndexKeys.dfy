/**
 Building the list of keys of a comparator from the features of a type.
 */
module IndexKeys {
  import opened TypeTree
  import opened TypeLayout
  import opened TypeSystem
  import opened IndexComparator

  const BOOLEAN: nat := 23
  const BYTE: nat := 24
  const SHORT: nat := 25
  const LONG: nat := 26

  // The ranges of key features, other than the floating point types.
  predicate IsKeyRange(t: nat) {
    t == INTEGER || t == STRING || BOOLEAN <= t <= LONG
  }

  class KeyList {
    const ts: TypeSystem
    const tyType: nat
    var keys: seq<Key>

    ghost predicate Valid()
      reads this
    {
      forall k :: k in keys ==> (k.offset == 0 <==> k.kind == TypePriority)
    }

    constructor (ts: TypeSystem, tyType: nat)
      ensures Valid() && keys == [] && this.ts == ts && this.tyType == tyType
    {
      this.ts, this.tyType, keys := ts, tyType, [];
    }

    /** addKey: the invalid feature stands for type priority; any other must be appropriate for the type. */
    method AddKey(feature: nat, reversed: bool)
      requires Valid() && ts.Valid() && ts.committed && IsType(ts.parents, tyType)
      requires feature != INVALID ==> IsKeyFeature(ts, tyType, feature)
      modifies this
      ensures Valid() && |keys| == |old(keys)| + 1 && keys[..|old(keys)|] == old(keys)
      ensures keys[|old(keys)|].reversed == reversed
      ensures keys[|old(keys)|].kind == TypePriority <==> feature == INVALID
      ensures feature != INVALID ==> ReadsFeature(ts, tyType, keys[|old(keys)|], feature)
    {
      if feature == INVALID {
        hide ReadsFeature, IsKeyFeature;
        keys := keys + [Key(0, TypePriority, reversed)];
      } else {
        hide ReadsFeature, IsKeyFeature, KindFor;
        NewKeyReads(ts, tyType, feature, reversed);
        keys := keys + [Key(ts.featureOffset[feature], KindFor(ts.rangeTypes[feature]), reversed)];
      }
    }
  }

  // The key reads the cell in which a structure of the type keeps the feature, in the way its range asks for.
  ghost predicate ReadsFeature(ts: TypeSystem, t: nat, k: Key, feature: nat)
    reads ts
    requires ts.Valid() && IsType(ts.parents, t) && feature < |ts.rangeTypes|
  {
    && 1 <= k.offset <= |FeatureList(ts.parents, ts.introOf, t)|
    && FeatureList(ts.parents, ts.introOf, t)[k.offset - 1] == feature
    && match k.kind
       case TypePriority => false
       case Integer => ts.rangeTypes[feature] == INTEGER
       case Text => ts.rangeTypes[feature] == STRING
       case Boolean => ts.rangeTypes[feature] == BOOLEAN
       case Byte => ts.rangeTypes[feature] == BYTE
       case Short => ts.rangeTypes[feature] == SHORT
       case Long => ts.rangeTypes[feature] == LONG
  }

  // The feature belongs to the type, and its values can be compared.
  ghost predicate IsKeyFeature(ts: TypeSystem, t: nat, feature: nat)
    reads ts
    requires ts.Valid() && IsType(ts.parents, t)
  {
    feature in FeatureList(ts.parents, ts.introOf, t) && feature < |ts.rangeTypes| && IsKeyRange(ts.rangeTypes[feature])
  }

  function KindFor(range: nat): Kind {
    if range == INTEGER then Integer else if range == STRING then Text
    else if range == BOOLEAN then Boolean else if range == BYTE then Byte
    else if range == SHORT then Short else Long
  }

  lemma NewKeyReads(ts: TypeSystem, t: nat, feature: nat, reversed: bool)
    requires ts.Valid() && ts.committed && IsType(ts.parents, t) && IsKeyFeature(ts, t, feature)
    ensures feature < |ts.rangeTypes| && feature < |ts.featureOffset|
    ensures var k := Key(ts.featureOffset[feature], KindFor(ts.rangeTypes[feature]), reversed);
            k.offset != 0 && k.kind != TypePriority && ReadsFeature(ts, t, k, feature)
  {
    FeatureHasPlace(ts, t, feature);
    hide FeatureList;
  }

  lemma FeatureHasPlace(ts: TypeSystem, t: nat, feature: nat)
    requires ts.Valid() && ts.committed && IsType(ts.parents, t)
    requires feature in FeatureList(ts.parents, ts.introOf, t)
    ensures feature < |ts.featureOffset|
    ensures 1 <= ts.featureOffset[feature] <= |FeatureList(ts.parents, ts.introOf, t)|
    ensures FeatureList(ts.parents, ts.introOf, t)[ts.featureOffset[feature] - 1] == feature
  {
    var list := FeatureList(ts.parents, ts.introOf, t);
    var k :| 0 <= k < |list| && list[k] == feature;
    OffsetIsPlace(ts.parents, ts.introOf, ts.featureNumber, ts.featureOffset, ts.approp, t, k);
  }

  /** The same key reads the same feature out of the structures of every subtype. */
  lemma KeyReadsSameFeatureBelow(ts: TypeSystem, t: nat, u: nat, k: Key, feature: nat)
    requires ts.Valid() && IsType(ts.parents, t) && IsType(ts.parents, u) && Subsumes(ts.parents, t, u)
    requires feature < |ts.rangeTypes| && ReadsFeature(ts, t, k, feature)
    ensures ReadsFeature(ts, u, k, feature)
  {
    SupertypeIsPrefix(ts.parents, ts.introOf, t, u);
    assert FeatureList(ts.parents, ts.introOf, t)[k.offset - 1] == FeatureList(ts.parents, ts.introOf, u)[k.offset - 1];
  }

  /** The numbers that commit gives the types tell any two types apart, as comparing by type priority needs. */
  lemma CommittedPrioritiesAreInjective(ts: TypeSystem)
    requires ts.Valid() && ts.committed
    ensures Injective(ts.priorityNumber)
    ensures forall t :: IsType(ts.parents, t) ==> t in ts.priorityNumber
  {
    var total :| IsNumberedBy(ts.parents, ts.priorityNumber, total);
  }
}
