/**
 The layout of feature structures: the features of a type are those of its
 parent followed by the ones it introduces, and the offset of a feature is its
 place in that list. Features are numbered from 1; introOf gives the type at
 which each one was introduced.
 */
module TypeLayout {
  import opened TopologicalSort
  import opened TypeTree

  // No feature is introduced on the top type.
  ghost predicate IntroOK(parents: seq<nat>, introOf: seq<nat>) {
    |introOf| >= 1 && forall f :: 1 <= f < |introOf| ==> 2 <= introOf[f] < |parents|
  }

  predicate IsFeature(introOf: seq<nat>, f: int) {
    1 <= f < |introOf|
  }

  // The features introduced at each type, in order of creation.
  function Introduced(introOf: seq<nat>, n: nat): (r: seq<seq<nat>>)
    ensures |r| == n
  {
    seq(n, t requires 0 <= t => Indices(introOf, 1, t))
  }

  // The features of a type in the order of their offsets.
  function FeatureList(parents: seq<nat>, introOf: seq<nat>, t: nat): seq<nat>
    requires ParentsOK(parents) && IsType(parents, t)
  {
    if t == TOP then [] else FeatureList(parents, introOf, parents[t]) + Indices(introOf, 1, t)
  }

  /** A type has exactly the features that it or a supertype introduces, each once. */
  lemma {:induction false} FeaturesAreInherited(parents: seq<nat>, introOf: seq<nat>, t: nat)
    requires ParentsOK(parents) && IntroOK(parents, introOf) && IsType(parents, t)
    ensures forall f :: f in FeatureList(parents, introOf, t) <==>
              IsFeature(introOf, f) && Subsumes(parents, introOf[f], t)
    ensures Distinct(FeatureList(parents, introOf, t))
  {
    if t == TOP {
      forall f | IsFeature(introOf, f) ensures !Subsumes(parents, introOf[f], t) {
        if Subsumes(parents, introOf[f], t) {
          SubsumesBelow(parents, introOf[f], t);
          assert false;
        }
      }
    } else {
      var inherited, own := FeatureList(parents, introOf, parents[t]), Indices(introOf, 1, t);
      FeaturesAreInherited(parents, introOf, parents[t]);
      SubsumesOwnOrParent(parents, introOf, t);
      forall f ensures !(f in inherited && f in own) {
        if f in inherited && f in own {
          SubsumesBelow(parents, t, parents[t]);
          assert false;
        }
      }
      DistinctConcat(inherited, own);
    }
  }

  lemma SubsumesOwnOrParent(parents: seq<nat>, introOf: seq<nat>, t: nat)
    requires ParentsOK(parents) && IntroOK(parents, introOf) && IsType(parents, t) && t != TOP
    ensures forall f :: IsFeature(introOf, f) ==>
              (Subsumes(parents, introOf[f], t) <==> introOf[f] == t || Subsumes(parents, introOf[f], parents[t]))
  {
    forall f | IsFeature(introOf, f)
      ensures Subsumes(parents, introOf[f], t) <==> introOf[f] == t || Subsumes(parents, introOf[f], parents[t])
    {
      if introOf[f] != t {
        SubsumesParent(parents, introOf[f], t);
      }
    }
  }

  /** The layout of a supertype is a prefix of the layout of every subtype. */
  lemma {:induction false} SupertypeIsPrefix(parents: seq<nat>, introOf: seq<nat>, s: nat, t: nat)
    requires ParentsOK(parents) && IsType(parents, s) && IsType(parents, t) && Subsumes(parents, s, t)
    ensures FeatureList(parents, introOf, s) <= FeatureList(parents, introOf, t)
    decreases t
  {
    if s != t {
      SubsumesParent(parents, s, t);
      SupertypeIsPrefix(parents, introOf, s, parents[t]);
    }
  }

  // ------------------------------------------------- tables of a type system

  // The row of type t lists its features, and their number.
  ghost predicate RowOK(parents: seq<nat>, introOf: seq<nat>, number: seq<nat>, approp: seq<seq<bool>>, t: nat)
    requires ParentsOK(parents) && IsType(parents, t)
  {
    && |number| == |approp| == |parents|
    && number[t] == |FeatureList(parents, introOf, t)|
    && IsRow(introOf, approp[t], FeatureList(parents, introOf, t))
  }

  // The row marks the features in the list.
  predicate IsRow(introOf: seq<nat>, row: seq<bool>, list: seq<nat>) {
    |row| == |introOf| && forall f :: 0 <= f < |introOf| ==> (row[f] <==> f in list)
  }

  // The features that t introduces come after the inherited ones.
  ghost predicate OffsetsOK(parents: seq<nat>, introOf: seq<nat>, offset: seq<nat>, t: nat)
    requires ParentsOK(parents) && IsType(parents, t)
  {
    var own := Indices(introOf, 1, t);
    && |offset| == |introOf|
    && forall k :: 0 <= k < |own| ==> offset[own[k]] == |FeatureList(parents, introOf, parents[t])| + k + 1
  }

  ghost predicate LaidOut(parents: seq<nat>, introOf: seq<nat>, number: seq<nat>, offset: seq<nat>,
                          approp: seq<seq<bool>>, t: nat)
    requires ParentsOK(parents) && IsType(parents, t)
  {
    RowOK(parents, introOf, number, approp, t) && (t != TOP ==> OffsetsOK(parents, introOf, offset, t))
  }

  // All tables but the inverse one.
  ghost predicate LayoutOK(parents: seq<nat>, introOf: seq<nat>, number: seq<nat>, offset: seq<nat>,
                           approp: seq<seq<bool>>)
    requires ParentsOK(parents)
  {
    && |offset| == |introOf|
    && forall t :: IsType(parents, t) ==> LaidOut(parents, introOf, number, offset, approp, t)
  }

  /** In every type the offset of a feature is its place in the layout, counted from 1. */
  lemma {:induction false} OffsetIsPlace(parents: seq<nat>, introOf: seq<nat>, number: seq<nat>, offset: seq<nat>,
                                         approp: seq<seq<bool>>, t: nat, k: nat)
    requires ParentsOK(parents) && IntroOK(parents, introOf) && IsType(parents, t)
    requires LayoutOK(parents, introOf, number, offset, approp)
    requires k < |FeatureList(parents, introOf, t)|
    ensures IsFeature(introOf, FeatureList(parents, introOf, t)[k])
    ensures offset[FeatureList(parents, introOf, t)[k]] == k + 1
    decreases t
  {
    var list := FeatureList(parents, introOf, t);
    FeaturesAreInherited(parents, introOf, t);
    assert list[k] in list;
    var inherited := FeatureList(parents, introOf, parents[t]);
    if k < |inherited| {
      OffsetIsPlace(parents, introOf, number, offset, approp, parents[t], k);
    } else {
      assert LaidOut(parents, introOf, number, offset, approp, t);
      assert list[k] == Indices(introOf, 1, t)[k - |inherited|];
    }
  }

  /** The tables are determined by the hierarchy and the features. */
  lemma LayoutDetermined(parents: seq<nat>, introOf: seq<nat>,
                         number: seq<nat>, offset: seq<nat>, approp: seq<seq<bool>>,
                         number': seq<nat>, offset': seq<nat>, approp': seq<seq<bool>>)
    requires ParentsOK(parents) && IntroOK(parents, introOf)
    requires LayoutOK(parents, introOf, number, offset, approp)
    requires LayoutOK(parents, introOf, number', offset', approp')
    ensures |number| == |approp| == |number'| == |approp'| == |parents| && |offset| == |offset'| == |introOf|
    ensures number[1..] == number'[1..] && offset[1..] == offset'[1..] && approp[1..] == approp'[1..]
  {
    assert LaidOut(parents, introOf, number, offset, approp, TOP);
    assert LaidOut(parents, introOf, number', offset', approp', TOP);
    forall t | IsType(parents, t) ensures number[t] == number'[t] && approp[t] == approp'[t] {
      assert LaidOut(parents, introOf, number, offset, approp, t);
      assert LaidOut(parents, introOf, number', offset', approp', t);
    }
    forall f | IsFeature(introOf, f) ensures offset[f] == offset'[f] {
      var t := introOf[f];
      assert LaidOut(parents, introOf, number, offset, approp, t);
      assert LaidOut(parents, introOf, number', offset', approp', t);
      assert f in Indices(introOf, 1, t);
    }
  }

  // The entries that belong to type d are the same in both sets of tables.
  ghost predicate Kept(introOf: seq<nat>, number: seq<nat>, offset: seq<nat>, approp: seq<seq<bool>>,
                       number': seq<nat>, offset': seq<nat>, approp': seq<seq<bool>>, d: nat)
    requires d < |number| == |approp| == |number'| == |approp'| && |offset| == |offset'| == |introOf|
  {
    && number[d] == number'[d] && approp[d] == approp'[d]
    && forall f :: 1 <= f < |introOf| && introOf[f] == d ==> offset[f] == offset'[f]
  }

  lemma LaidOutKept(parents: seq<nat>, introOf: seq<nat>, number: seq<nat>, offset: seq<nat>, approp: seq<seq<bool>>,
                    number': seq<nat>, offset': seq<nat>, approp': seq<seq<bool>>, d: nat)
    requires ParentsOK(parents) && IsType(parents, d)
    requires |number| == |approp| == |number'| == |approp'| == |parents| && |offset| == |offset'| == |introOf|
    requires Kept(introOf, number, offset, approp, number', offset', approp', d)
    requires LaidOut(parents, introOf, number, offset, approp, d)
    ensures LaidOut(parents, introOf, number', offset', approp', d)
  {
  }

  method CopyRow(parentRow: seq<bool>) returns (row: seq<bool>)
    ensures row == parentRow
  {
    row := [];
    for j := 0 to |parentRow|
      invariant row == parentRow[..j]
    {
      row := row + [parentRow[j]];
    }
  }

  /**
   The body of computeApprop for one child: its row starts as a copy of the
   parent's row, and each introduced feature gets the next offset.
   */
  method ExtendRow(inheritedNumber: nat, offset: seq<nat>, parentRow: seq<bool>, own: seq<nat>,
                   ghost parents: seq<nat>, ghost introOf: seq<nat>, ghost child: nat)
    returns (number: nat, offset': seq<nat>, row: seq<bool>)
    requires ParentsOK(parents) && 2 <= child < |parents|
    requires own == Indices(introOf, 1, child) && |offset| == |introOf|
    requires inheritedNumber == |FeatureList(parents, introOf, parents[child])|
    requires IsRow(introOf, parentRow, FeatureList(parents, introOf, parents[child]))
    ensures number == |FeatureList(parents, introOf, child)|
    ensures IsRow(introOf, row, FeatureList(parents, introOf, child))
    ensures OffsetsOK(parents, introOf, offset', child)
    ensures forall f :: 0 <= f < |introOf| && f !in own ==> offset'[f] == offset[f]
  {
    hide FeatureList, OffsetsOK, Indices, IsRow;
    IndicesAreNew(introOf, child);
    row := CopyRow(parentRow);
    number, offset' := inheritedNumber, offset;
    ghost var list := FeatureList(parents, introOf, parents[child]);
    for j := 0 to |own|
      invariant number == |list| == inheritedNumber + j && |offset'| == |introOf|
      invariant list == FeatureList(parents, introOf, parents[child]) + own[..j] && IsRow(introOf, row, list)
      invariant forall k :: 0 <= k < j ==> offset'[own[k]] == inheritedNumber + k + 1
      invariant forall f :: 0 <= f < |introOf| && f !in own ==> offset'[f] == offset[f]
    {
      var introFeature := own[j];
      RowStep(introOf, row, list, introFeature);
      assert own[..j + 1] == own[..j] + [introFeature];
      number := number + 1;
      offset' := offset'[introFeature := number];
      row := row[introFeature := true];
      list := list + [introFeature];
    }
    assert own[..|own|] == own;
    ChildList(parents, introOf, child, offset');
  }

  // The features of a type are those of its parent and its own, which come last.
  lemma ChildList(parents: seq<nat>, introOf: seq<nat>, child: nat, offset: seq<nat>)
    requires ParentsOK(parents) && 2 <= child < |parents| && |offset| == |introOf|
    requires var own := Indices(introOf, 1, child);
             forall k :: 0 <= k < |own| ==>
               own[k] < |offset| && offset[own[k]] == |FeatureList(parents, introOf, parents[child])| + k + 1
    ensures FeatureList(parents, introOf, child)
         == FeatureList(parents, introOf, parents[child]) + Indices(introOf, 1, child)
    ensures OffsetsOK(parents, introOf, offset, child)
  {
  }

  lemma IndicesAreNew(introOf: seq<nat>, child: nat)
    ensures var own := Indices(introOf, 1, child);
            Distinct(own) && forall k :: 0 <= k < |own| ==> 1 <= own[k] < |introOf|
  {
  }

  lemma RowStep(introOf: seq<nat>, row: seq<bool>, list: seq<nat>, f: nat)
    requires IsRow(introOf, row, list) && f < |introOf|
    ensures |row| == |introOf| && IsRow(introOf, row[f := true], list + [f])
  {
  }

  ghost predicate NoNumberBelow(parents: seq<nat>, number: seq<nat>, t: nat)
    requires ParentsOK(parents) && |number| == |parents|
  {
    forall d :: IsType(parents, d) && d != t && Subsumes(parents, t, d) ==> number[d] == 0
  }

  // The types under the children in the list are laid out, and the others as they were.
  ghost predicate Progress(parents: seq<nat>, introOf: seq<nat>, children: seq<nat>,
                           number0: seq<nat>, offset0: seq<nat>, approp0: seq<seq<bool>>,
                           number: seq<nat>, offset: seq<nat>, approp: seq<seq<bool>>)
    requires ParentsOK(parents)
    requires |number0| == |approp0| == |number| == |approp| == |parents| && |offset0| == |offset| == |introOf|
  {
    forall d :: IsType(parents, d) ==>
      if UnderSome(parents, children, d)
      then LaidOut(parents, introOf, number, offset, approp, d)
      else Kept(introOf, number0, offset0, approp0, number, offset, approp, d)
  }

  // The ith child and its subtypes wait untouched, and the row of t is still in place.
  lemma UntouchedBelow(parents: seq<nat>, introOf: seq<nat>, children: seq<nat>, t: nat, i: nat,
                       number0: seq<nat>, offset0: seq<nat>, approp0: seq<seq<bool>>,
                       number: seq<nat>, offset: seq<nat>, approp: seq<seq<bool>>)
    requires ParentsOK(parents) && IsType(parents, t) && i < |children| && Distinct(children)
    requires forall k :: 0 <= k < |children| ==> 2 <= children[k] < |parents| && parents[children[k]] == t
    requires |number0| == |approp0| == |number| == |approp| == |parents| && |offset0| == |offset| == |introOf|
    requires NoNumberBelow(parents, number0, t) && RowOK(parents, introOf, number0, approp0, t)
    requires Progress(parents, introOf, children[..i], number0, offset0, approp0, number, offset, approp)
    ensures number[children[i]] == 0 && NoNumberBelow(parents, number, children[i])
    ensures RowOK(parents, introOf, number, approp, t)
  {
    var c := children[i];
    UnderEarlierChildren(parents, children, t, i);
    forall d | IsType(parents, d) && Subsumes(parents, c, d) ensures number[d] == 0 {
      SubsumesParent(parents, t, c);
      SubsumesTransitive(parents, t, c, d);
      SubsumesBelow(parents, c, d);
    }
  }

  // One round of computeApprop: the ith child is laid out, then its subtypes.
  lemma LayoutStep(parents: seq<nat>, introOf: seq<nat>, children: seq<nat>, t: nat, i: nat,
                   number0: seq<nat>, offset0: seq<nat>, approp0: seq<seq<bool>>,
                   number1: seq<nat>, offset1: seq<nat>, approp1: seq<seq<bool>>,
                   number2: seq<nat>, offset2: seq<nat>, approp2: seq<seq<bool>>,
                   number3: seq<nat>, offset3: seq<nat>, approp3: seq<seq<bool>>)
    requires ParentsOK(parents) && IsType(parents, t) && i < |children| && Distinct(children)
    requires forall k :: 0 <= k < |children| ==> 2 <= children[k] < |parents| && parents[children[k]] == t
    requires |number0|
          == |approp0| == |number1| == |approp1| == |number2| == |approp2| == |number3| == |approp3| == |parents|
    requires |offset0| == |offset1| == |offset2| == |offset3| == |introOf|
    requires Progress(parents, introOf, children[..i], number0, offset0, approp0, number1, offset1, approp1)
    requires LaidOut(parents, introOf, number2, offset2, approp2, children[i])
    requires forall d :: IsType(parents, d) && d != children[i] ==>
               Kept(introOf, number1, offset1, approp1, number2, offset2, approp2, d)
    requires forall d :: IsType(parents, d) ==>
               if d != children[i] && Subsumes(parents, children[i], d)
               then LaidOut(parents, introOf, number3, offset3, approp3, d)
               else Kept(introOf, number2, offset2, approp2, number3, offset3, approp3, d)
    ensures Progress(parents, introOf, children[..i + 1], number0, offset0, approp0, number3, offset3, approp3)
  {
    UnderEarlierChildren(parents, children, t, i);
    forall d | IsType(parents, d)
      ensures if UnderSome(parents, children[..i + 1], d)
              then LaidOut(parents, introOf, number3, offset3, approp3, d)
              else Kept(introOf, number0, offset0, approp0, number3, offset3, approp3, d)
    {
      if d == children[i] {
        LaidOutKept(parents, introOf, number2, offset2, approp2, number3, offset3, approp3, d);
      } else if UnderSome(parents, children[..i], d) {
        LaidOutKept(parents, introOf, number1, offset1, approp1, number2, offset2, approp2, d);
        LaidOutKept(parents, introOf, number2, offset2, approp2, number3, offset3, approp3, d);
      }
    }
  }

  // The inverse table: from a type and an offset to the feature.
  ghost predicate MappingOK(parents: seq<nat>, introOf: seq<nat>, mapping: seq<seq<nat>>)
    requires ParentsOK(parents)
  {
    |mapping| == |parents| && forall t :: IsType(parents, t) ==> TableOf(FeatureList(parents, introOf, t), mapping[t])
  }

  // The table holds the kth feature of the list at offset k + 1.
  predicate TableOf(list: seq<nat>, table: seq<nat>) {
    forall k :: 0 <= k < |list| ==> HeldAt(list, table, k)
  }

  predicate HeldAt(list: seq<nat>, table: seq<nat>, k: nat)
    requires k < |list|
  {
    |table| > k + 1 && table[k + 1] == list[k]
  }

  lemma OffsetAt(parents: seq<nat>, introOf: seq<nat>, number: seq<nat>, offset: seq<nat>,
                 approp: seq<seq<bool>>, mapping: seq<seq<nat>>, t: nat, k: nat)
    requires ParentsOK(parents) && IntroOK(parents, introOf) && IsType(parents, t)
    requires LayoutOK(parents, introOf, number, offset, approp) && MappingOK(parents, introOf, mapping)
    requires k < |FeatureList(parents, introOf, t)|
    ensures var f := FeatureList(parents, introOf, t)[k];
            && IsFeature(introOf, f) && approp[t][f] && offset[f] == k + 1
            && |mapping[t]| > k + 1 && mapping[t][k + 1] == f
  {
    OffsetIsPlace(parents, introOf, number, offset, approp, t, k);
    assert LaidOut(parents, introOf, number, offset, approp, t);
    assert HeldAt(FeatureList(parents, introOf, t), mapping[t], k);
    assert FeatureList(parents, introOf, t)[k] in FeatureList(parents, introOf, t);
  }

  // The table gives at offset o a feature of t whose offset is o.
  predicate InvertedAt(introOf: seq<nat>, offset: seq<nat>, approp: seq<seq<bool>>, mapping: seq<seq<nat>>, t: nat,
                       o: int)
    requires t < |approp| && t < |mapping| && |approp[t]| == |offset| == |introOf|
  {
    && 1 <= o < |mapping[t]|
    && IsFeature(introOf, mapping[t][o]) && approp[t][mapping[t][o]] && offset[mapping[t][o]] == o
  }

  /** The offsets of the features of a type are a bijection onto 1..featureNumber, inverted by the table. */
  lemma OffsetsAreBijection(parents: seq<nat>, introOf: seq<nat>, number: seq<nat>, offset: seq<nat>,
                            approp: seq<seq<bool>>, mapping: seq<seq<nat>>, t: nat)
    requires ParentsOK(parents) && IntroOK(parents, introOf) && IsType(parents, t)
    requires LayoutOK(parents, introOf, number, offset, approp) && MappingOK(parents, introOf, mapping)
    ensures RowOK(parents, introOf, number, approp, t) && |offset| == |introOf| && |mapping| == |parents|
    ensures forall f :: IsFeature(introOf, f) && approp[t][f] ==>
              1 <= offset[f] <= number[t] && |mapping[t]| > offset[f] && mapping[t][offset[f]] == f
    ensures forall o :: 1 <= o <= number[t] ==> InvertedAt(introOf, offset, approp, mapping, t, o)
  {
    var list := FeatureList(parents, introOf, t);
    assert LaidOut(parents, introOf, number, offset, approp, t);
    forall k | 0 <= k < |list| ensures PlacedAt(introOf, list, offset, mapping[t], k) {
      OffsetAt(parents, introOf, number, offset, approp, mapping, t, k);
    }
    RowIsBijection(introOf, list, offset, approp, mapping, t);
  }

  predicate PlacedAt(introOf: seq<nat>, list: seq<nat>, offset: seq<nat>, table: seq<nat>, k: nat)
    requires k < |list| && |offset| == |introOf|
  {
    IsFeature(introOf, list[k]) && offset[list[k]] == k + 1 && |table| > k + 1 && table[k + 1] == list[k]
  }

  lemma RowIsBijection(introOf: seq<nat>, list: seq<nat>, offset: seq<nat>, approp: seq<seq<bool>>,
                       mapping: seq<seq<nat>>, t: nat)
    requires t < |approp| && t < |mapping| && |offset| == |introOf| && IsRow(introOf, approp[t], list)
    requires forall k :: 0 <= k < |list| ==> PlacedAt(introOf, list, offset, mapping[t], k)
    ensures forall f :: IsFeature(introOf, f) && approp[t][f] ==>
              1 <= offset[f] <= |list| && |mapping[t]| > offset[f] && mapping[t][offset[f]] == f
    ensures forall o :: 1 <= o <= |list| ==> InvertedAt(introOf, offset, approp, mapping, t, o)
  {
    forall f | IsFeature(introOf, f) && approp[t][f]
      ensures 1 <= offset[f] <= |list| && |mapping[t]| > offset[f] && mapping[t][offset[f]] == f
    {
      var k :| 0 <= k < |list| && list[k] == f;
      assert PlacedAt(introOf, list, offset, mapping[t], k);
    }
    forall o | 1 <= o <= |list| ensures InvertedAt(introOf, offset, approp, mapping, t, o) {
      assert PlacedAt(introOf, list, offset, mapping[t], o - 1);
      assert list[o - 1] in list;
    }
  }

  function Zeros(n: nat): (r: seq<nat>)
    ensures |r| == n && forall i :: 0 <= i < n ==> r[i] == 0
  {
    seq(n, _ => 0)
  }

  // The features of the list stand in the table at their offsets.
  ghost predicate TableHolds(list: seq<nat>, table: seq<nat>, n: nat) {
    forall k :: 0 <= k < |list| && list[k] < n ==> HeldAt(list, table, k)
  }

  /**
   The round of computeTypeFeatureOffsetMapping for one type. What an earlier
   commit left in the table does no harm.
   */
  method FillTable(table: seq<nat>, row: seq<bool>, offset: seq<nat>, ghost introOf: seq<nat>, ghost list: seq<nat>)
    returns (r: seq<nat>)
    requires IsRow(introOf, row, list) && |offset| == |introOf|
    requires forall k :: 0 <= k < |list| ==> IsFeature(introOf, list[k]) && offset[list[k]] == k + 1
    ensures TableOf(list, r)
  {
    r := table;
    var f := 1;
    while f < |row|
      invariant f >= 1 && TableHolds(list, r, f)
    {
      if row[f] {
        var o := offset[f];
        if o >= |r| {
          r := r + Zeros(o + 1 - |r|);
        }
        r := r[o := f];
      }
      f := f + 1;
    }
    forall k | 0 <= k < |list| ensures HeldAt(list, r, k) {
      assert IsFeature(introOf, list[k]);
    }
  }

  /** computeTypeFeatureOffsetMapping: fills the table of every type. */
  method InvertOffsets(mapping: seq<seq<nat>>, offset: seq<nat>, approp: seq<seq<bool>>,
                       ghost parents: seq<nat>, ghost introOf: seq<nat>, ghost number: seq<nat>)
    returns (r: seq<seq<nat>>)
    requires ParentsOK(parents) && IntroOK(parents, introOf) && |approp| == |parents|
    requires LayoutOK(parents, introOf, number, offset, approp)
    ensures MappingOK(parents, introOf, r)
  {
    var n := |approp|;
    r := if |mapping| >= n then mapping[..n] else mapping + seq(n - |mapping|, _ => []);
    for t := 1 to n
      invariant |r| == n
      invariant forall d :: 1 <= d < t ==> TableOf(FeatureList(parents, introOf, d), r[d])
    {
      ghost var list := FeatureList(parents, introOf, t);
      assert LaidOut(parents, introOf, number, offset, approp, t);
      forall k | 0 <= k < |list| ensures IsFeature(introOf, list[k]) && offset[list[k]] == k + 1 {
        OffsetIsPlace(parents, introOf, number, offset, approp, t, k);
      }
      var table := FillTable(r[t], approp[t], offset, introOf, list);
      r := r[t := table];
    }
  }
}
