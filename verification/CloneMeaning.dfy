/**
 What copying and cloning keep, said of the tables of the type system, the
 cells and the string heaps.
 */
module CloneMeaning {
  import opened TypeTree
  import opened TypeLayout
  import opened TypeSystem
  import opened FSHeap
  import opened CloneFS

  // The range is the type of strings, or was made as a subtype of it.
  predicate IsStringRange(parents: seq<nat>, range: nat)
    requires ParentsOK(parents) && IsType(parents, range)
  {
    STRING in RootPath(parents, range)
  }

  // The text behind a reference that is set: its cells are a position and a length.
  predicate IsText(refs: seq<nat>, chars: seq<nat>, ref: nat, text: seq<nat>) {
    && 0 < 2 * ref < |refs| && refs[2 * ref - 1] + refs[2 * ref] <= |chars|
    && text == chars[refs[2 * ref - 1]..refs[2 * ref - 1] + refs[2 * ref]]
  }

  // It has no zero unit, and one follows unless the heap ends there.
  predicate EndsWithZero(refs: seq<nat>, chars: seq<nat>, ref: nat, text: seq<nat>)
    requires IsText(refs, chars, ref, text)
  {
    0 !in text
    && (refs[2 * ref - 1] + |text| < |chars| ==> chars[refs[2 * ref - 1] + |text|] == 0)
  }

  // A reference is unset, or a new one that reads as the same text if that ends at its first zero unit.
  ghost predicate IsNewText(refs: seq<nat>, refs': seq<nat>, chars: seq<nat>, v: nat, w: nat) {
    if v == 0 then w == 0
    else
      && |refs| < 2 * w < |refs'|
      && forall text :: IsText(refs, chars, v, text) && EndsWithZero(refs, chars, v, text) ==>
                          IsText(refs', chars, w, text)
  }

  lemma StringRangeIs(s: Schema, feature: nat)
    requires ParentsOK(s.parents) && feature < |s.ranges| && IsType(s.parents, s.ranges[feature])
    ensures IsString(s, feature) <==> IsStringRange(s.parents, s.ranges[feature])
  {
    SubsumesIsRootPath(s.parents, STRING, s.ranges[feature]);
  }

  lemma FreshIsNewText(refs: seq<nat>, refs': seq<nat>, chars: seq<nat>, v: nat, w: nat)
    requires v != 0 && RefOK(refs, chars, v) && RefOK(refs', chars, w) && |refs| < 2 * w
    requires Terminated(refs, chars, v) ==> TextOf(refs', chars, w) == TextOf(refs, chars, v)
    ensures IsNewText(refs, refs', chars, v, w)
  {
  }

  // The ranges of all features are types.
  ghost predicate RangesOK(s: Schema) {
    forall f :: 0 < f < |s.ranges| ==> IsType(s.parents, s.ranges[f])
  }

  lemma FeatureHasRange(s: Schema, t: nat, i: nat)
    requires SchemaOK(s) && RangesOK(s) && IsType(s.parents, t) && 1 <= i <= s.featureNumber[t]
    ensures i <= |FeatureList(s.parents, s.introOf, t)|
    ensures var f := FeatureList(s.parents, s.introOf, t)[i - 1];
            f == FeatureAt(s, t, i) && f < |s.ranges| && IsType(s.parents, s.ranges[f])
  {
    FeaturesAreInherited(s.parents, s.introOf, t);
    assert FeatureList(s.parents, s.introOf, t)[i - 1] in FeatureList(s.parents, s.introOf, t);
  }

  /**
   copyFeatures: a feature whose range is or is below the string type gets a new
   reference if it is set, and keeps what it had if it is not; every other one
   gets the cell.
   */
  lemma CopiedFeature(s: Schema, cells: seq<nat>, refs: seq<nat>, cells': seq<nat>, refs': seq<nat>, chars: seq<nat>,
                      t: nat, target: nat, source: nat, i: nat)
    requires SchemaOK(s) && RangesOK(s) && IsType(s.parents, t) && 1 <= i <= s.featureNumber[t]
    requires source + i < |cells| && target + i < |cells| == |cells'|
    requires CopiedAt(s, cells, refs, cells', refs', chars, t, target, source, i)
    requires IsStringFeature(s, t, i) ==> RefOK(refs, chars, cells[source + i])
    ensures if !IsStringFeature(s, t, i) then cells'[target + i] == cells[source + i]
            else if cells[source + i] == 0 then cells'[target + i] == cells[target + i]
            else IsNewText(refs, refs', chars, cells[source + i], cells'[target + i])
  {
    FeatureHasRange(s, t, i);
    StringRangeIs(s, FeatureAt(s, t, i));
    var v, w := cells[source + i], cells'[target + i];
    if IsStringFeature(s, t, i) && v != 0 {
      FreshCopyText(refs, refs', chars, v, w);
      FreshIsNewText(refs, refs', chars, v, w);
    }
  }

  ghost predicate IsStringFeature(s: Schema, t: nat, i: nat)
    requires SchemaOK(s) && RangesOK(s) && IsType(s.parents, t) && 1 <= i <= s.featureNumber[t]
  {
    FeatureHasRange(s, t, i);
    IsStringRange(s.parents, s.ranges[FeatureList(s.parents, s.introOf, t)[i - 1]])
  }

  /**
   A clone, in the tables of a committed type system: of the features that are
   kept, those with strings as values have references of their own, those with
   values of string subtypes too, and the others have the same cell.
   */
  lemma ClonedFeature(ts: TypeSystem, heap: FSHeap, cells: seq<nat>, refs: seq<nat>, t: nat, clone: nat, fs: nat,
                      n: nat, i: nat)
    requires ts.Valid() && ts.committed && heap.Valid() && heap.schema == SchemaOf(ts)
    requires IsClone(heap, cells, refs, t, clone, fs, n) && 1 <= i <= n
    ensures IsType(ts.parents, t) && i <= |FeatureList(ts.parents, ts.introOf, t)|
    ensures clone + i < |heap.cells| && fs + i < |cells|
    ensures var feature := FeatureList(ts.parents, ts.introOf, t)[i - 1];
            && feature < |ts.rangeTypes| && IsType(ts.parents, ts.rangeTypes[feature])
            && if IsStringRange(ts.parents, ts.rangeTypes[feature])
               then IsNewText(refs, heap.stringRefs, heap.chars, cells[fs + i], heap.cells[clone + i])
               else heap.cells[clone + i] == cells[fs + i]
  {
    var s := heap.schema;
    RangesAreTypes(ts);
    FeatureHasRange(s, t, i);
    StringRangeIs(s, FeatureAt(s, t, i));
    assert KeptAt(s, cells, refs, heap.cells, heap.stringRefs, heap.chars, t, clone, fs, i);
    var v, w := cells[fs + i], heap.cells[clone + i];
    if IsString(s, FeatureAt(s, t, i)) && v != 0 {
      FreshIsNewText(refs, heap.stringRefs, heap.chars, v, w);
    }
  }

  lemma RangesAreTypes(ts: TypeSystem)
    requires ts.Valid()
    ensures RangesOK(SchemaOf(ts))
  {
  }
}
