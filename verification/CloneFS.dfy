/**
 Copying features from one structure to another, and cloning a structure to
 its own or to another type.
 */
module CloneFS {
  import opened TypeTree
  import opened TypeLayout
  import opened TypeSystem
  import opened FSHeap
  import TypePriority
  import TopologicalSort
  import ListFS

  predicate IsString(s: Schema, feature: nat)
    requires ParentsOK(s.parents)
  {
    feature < |s.ranges| && Subsumes(s.parents, STRING, s.ranges[feature])
  }

  // A structure starts at fs and has its type's features.
  ghost predicate FSAt(heap: FSHeap, fs: nat)
    requires heap.Valid()
    reads heap
  {
    && fs in heap.extents && IsType(heap.schema.parents, heap.cells[fs])
    && heap.extents[fs] == heap.schema.featureNumber[heap.cells[fs]] + 1
  }

  // The feature at offset i of the type.
  ghost function FeatureAt(s: Schema, t: nat, i: nat): nat
    requires SchemaOK(s) && IsType(s.parents, t) && 1 <= i <= s.featureNumber[t]
  {
    FeatureList(s.parents, s.introOf, t)[i - 1]
  }

  // The string features up to offset n, read as features of type t, hold good references.
  ghost predicate StringsOK(s: Schema, cells: seq<nat>, refs: seq<nat>, chars: seq<nat>, t: nat, fs: nat, n: nat)
    requires SchemaOK(s) && IsType(s.parents, t) && n <= s.featureNumber[t] && fs + n < |cells|
  {
    forall i :: 1 <= i <= n && IsString(s, FeatureAt(s, t, i)) ==> RefOK(refs, chars, cells[fs + i])
  }

  // Offset i of the target has what the source has there: the same cell, or a new reference to the units up
  // to the first zero.
  ghost predicate CopiedAt(s: Schema, cells: seq<nat>, refs: seq<nat>, cells': seq<nat>, refs': seq<nat>,
                           chars: seq<nat>,
                           t: nat, target: nat, source: nat, i: int)
    requires SchemaOK(s) && IsType(s.parents, t) && 1 <= i <= s.featureNumber[t]
    requires source + i < |cells| && target + i < |cells| == |cells'|
  {
    if !IsString(s, FeatureAt(s, t, i)) then cells'[target + i] == cells[source + i]
    else if cells[source + i] == 0 then cells'[target + i] == cells[target + i]
    else IsFreshCopy(refs, refs', chars, cells[source + i], cells'[target + i])
  }

  ghost predicate IsFreshCopy(refs: seq<nat>, refs': seq<nat>, chars: seq<nat>, ref: nat, ref': nat) {
    && ref != 0 && 2 * ref < |refs| && |refs| < 2 * ref' < |refs'|
    && refs'[2 * ref' - 1] == refs[2 * ref - 1] && refs'[2 * ref'] == StrLen(chars, refs[2 * ref - 1])
  }

  /**
   copyFeatures: the first featNum features, or all features of the target's
   type when featNum is 0. No cell may be written before it is read.
   */
  method CopyFeatures(heap: FSHeap, target: nat, source: nat, featNum: nat)
    requires heap.Valid() && FSAt(heap, target) && featNum <= heap.schema.featureNumber[heap.cells[target]]
    requires var t := heap.cells[target];
             var n := if featNum == 0 then heap.schema.featureNumber[t] else featNum;
             && (source + n <= target || target <= source) && source + n < |heap.cells|
             && StringsOK(heap.schema, heap.cells, heap.stringRefs, heap.chars, t, source, n)
    modifies heap`cells, heap`stringRefs
    ensures heap.Valid() && FSAt(heap, target) && |heap.cells| == |old(heap.cells)|
    ensures old(heap.stringRefs) <= heap.stringRefs
    ensures var t := old(heap.cells[target]);
            var n := if featNum == 0 then heap.schema.featureNumber[t] else featNum;
            && (forall i :: 1 <= i <= n ==>
                  CopiedAt(heap.schema, old(heap.cells), old(heap.stringRefs), heap.cells, heap.stringRefs, heap.chars,
                           t, target, source, i))
            && (forall c :: 0 <= c < |heap.cells| && !(target < c <= target + n) ==>
                  heap.cells[c] == old(heap.cells[c]))
  {
    var s, t := heap.schema, heap.cells[target];
    var n := featNum;
    if n == 0 {
      n := s.featureNumber[t];
    }
    for i := 1 to n + 1
      invariant heap.Valid() && |heap.cells| == |old(heap.cells)| && old(heap.stringRefs) <= heap.stringRefs
      invariant forall j :: 1 <= j < i ==>
                  CopiedAt(s, old(heap.cells), old(heap.stringRefs), heap.cells, heap.stringRefs, heap.chars, t,
                           target, source, j)
      invariant forall c :: 0 <= c < |heap.cells| && !(target < c < target + i) ==> heap.cells[c] == old(heap.cells[c])
    {
      ghost var cells1, refs1 := heap.cells, heap.stringRefs;
      assert IsString(s, FeatureAt(s, t, i)) ==> RefOK(old(heap.stringRefs), heap.chars, old(heap.cells)[source + i]);
      CopyFeature(heap, s, t, target, source, i);
      forall j | 1 <= j <= i
        ensures CopiedAt(s, old(heap.cells), old(heap.stringRefs), heap.cells, heap.stringRefs, heap.chars, t, target,
                         source, j)
      {
        CopiedKept(s, old(heap.cells), old(heap.stringRefs), cells1, refs1, heap.cells, heap.stringRefs, heap.chars, t,
                   target, source, i, j);
      }
    }
  }

  // Features copied before stay copied, and the feature copied last is a copy of the original cell.
  lemma CopiedKept(s: Schema, cells: seq<nat>, refs: seq<nat>, cells1: seq<nat>, refs1: seq<nat>, cells2: seq<nat>,
                   refs2: seq<nat>,
                   chars: seq<nat>, t: nat, target: nat, source: nat, i: nat, j: nat)
    requires SchemaOK(s) && IsType(s.parents, t) && 1 <= j <= i <= s.featureNumber[t]
    requires source + i < |cells| && target + i < |cells| == |cells1| == |cells2| && refs <= refs1 <= refs2
    requires cells1[source + i] == cells[source + i] && cells1[target + i] == cells[target + i]
    requires forall c :: 0 <= c < |cells| && c != target + i ==> cells2[c] == cells1[c]
    requires j < i ==> CopiedAt(s, cells, refs, cells1, refs1, chars, t, target, source, j)
    requires j == i ==> CopiedAt(s, cells1, refs1, cells2, refs2, chars, t, target, source, i)
    requires j == i && IsString(s, FeatureAt(s, t, i)) ==> RefOK(refs, chars, cells[source + i])
    ensures CopiedAt(s, cells, refs, cells2, refs2, chars, t, target, source, j)
  {
    if j == i {
      var ref := cells[source + i];
      assert ref != 0 && RefOK(refs, chars, ref) ==> refs1[2 * ref - 1] == refs[2 * ref - 1];
    } else {
      assert cells2[target + j] == cells1[target + j];
    }
  }

  // One feature of copyFeatures.
  method CopyFeature(heap: FSHeap, s: Schema, t: nat, target: nat, source: nat, i: nat)
    requires heap.Valid() && s == heap.schema && IsType(s.parents, t) && 1 <= i <= s.featureNumber[t]
    requires source + i < |heap.cells| && target + i < |heap.cells|
    requires IsString(s, FeatureAt(s, t, i)) ==> RefOK(heap.stringRefs, heap.chars, heap.cells[source + i])
    modifies heap`cells, heap`stringRefs
    ensures heap.Valid() && |heap.cells| == |old(heap.cells)| && old(heap.stringRefs) <= heap.stringRefs
    ensures CopiedAt(s, old(heap.cells), old(heap.stringRefs), heap.cells, heap.stringRefs, heap.chars, t, target,
                     source, i)
    ensures forall c :: 0 <= c < |heap.cells| && c != target + i ==> heap.cells[c] == old(heap.cells[c])
  {
    assert TableOf(FeatureList(s.parents, s.introOf, t), s.mapping[t]);
    assert HeldAt(FeatureList(s.parents, s.introOf, t), s.mapping[t], i - 1);
    var feature := s.mapping[t][i];
    assert feature == FeatureAt(s, t, i);
    if IsString(s, feature) {
      var strRef := heap.cells[source + i];
      if strRef != 0 {
        var pos := heap.stringRefs[1 + 2 * (strRef - 1)];
        var ref := heap.GetStringAsFS(pos);
        heap.SetFSValue(target, i, ref);
      }
    } else {
      heap.SetFSValue(target, i, heap.cells[source + i]);
    }
  }

  // ---------------------------------------------------------------- cloning

  /** A fresh reference reads as the same text if and only if that text runs exactly to the first zero. */
  lemma FreshCopyText(refs: seq<nat>, refs': seq<nat>, chars: seq<nat>, ref: nat, ref': nat)
    requires RefOK(refs, chars, ref) && IsFreshCopy(refs, refs', chars, ref, ref')
    ensures RefOK(refs', chars, ref')
    ensures TextOf(refs', chars, ref') == TextOf(refs, chars, ref) <==> Terminated(refs, chars, ref)
  {
    var pos, n, m := refs[2 * ref - 1], refs[2 * ref], StrLen(chars, refs[2 * ref - 1]);
    assert TextOf(refs, chars, ref) == chars[pos..pos + n] && TextOf(refs', chars, ref') == chars[pos..pos + m];
    assert |chars[pos..pos + n]| == n && |chars[pos..pos + m]| == m;
    hide TextOf;
    LengthToZero(chars, pos, n);
  }

  lemma LengthToZero(chars: seq<nat>, pos: nat, n: nat)
    requires pos + n <= |chars|
    ensures StrLen(chars, pos) == n <==> 0 !in chars[pos..pos + n] && (pos + n < |chars| ==> chars[pos + n] == 0)
  {
    if 0 !in chars[pos..pos + n] {
      StrLenOfText(chars, pos, n);
    } else {
      hide StrLen;
      var i :| 0 <= i < n && chars[pos..pos + n][i] == 0;
      assert chars[pos + i] == 0;
    }
  }

  // The clone has at offset i what the source has there: a value, or a text behind a reference of its own.
  ghost predicate KeptAt(s: Schema, cells: seq<nat>, refs: seq<nat>, cells': seq<nat>, refs': seq<nat>, chars: seq<nat>,
                         t: nat, clone: nat, fs: nat, i: int)
    requires SchemaOK(s) && IsType(s.parents, t) && 1 <= i <= s.featureNumber[t] && fs + i < |cells|
    requires clone + i < |cells'|
  {
    var v, w := cells[fs + i], cells'[clone + i];
    if !IsString(s, FeatureAt(s, t, i)) then w == v
    else RefOK(refs, chars, v) && RefOK(refs', chars, w) && (w == 0 <==> v == 0) && (v != 0 ==> |refs| < 2 * w)
         && (v != 0 && Terminated(refs, chars, v) ==> TextOf(refs', chars, w) == TextOf(refs, chars, v))
         && (v != 0 && TextOf(refs', chars, w) == TextOf(refs, chars, v) ==> Terminated(refs, chars, v))
  }

  // Up to offset n the features, those of type t, are kept; the clone's later features are unset.
  ghost predicate IsClone(heap: FSHeap, cells: seq<nat>, refs: seq<nat>, t: nat, clone: nat, fs: nat, n: nat)
    requires heap.Valid()
    reads heap
  {
    && FSAt(heap, clone) && IsType(heap.schema.parents, t) && n <= heap.schema.featureNumber[t] && fs + n < |cells|
    && n <= heap.schema.featureNumber[heap.cells[clone]] && refs <= heap.stringRefs
    && (forall i :: 1 <= i <= n ==>
          KeptAt(heap.schema, cells, refs, heap.cells, heap.stringRefs, heap.chars, t, clone, fs, i))
    && (forall i :: n < i <= heap.schema.featureNumber[heap.cells[clone]] ==> UnsetAt(heap.cells, clone, i))
  }

  predicate UnsetAt(cells: seq<nat>, fs: nat, i: int) {
    0 < i && fs + i < |cells| && cells[fs + i] == 0
  }

  lemma CopyKeeps(s: Schema, cells: seq<nat>, refs: seq<nat>, more: seq<nat>, cells': seq<nat>, refs': seq<nat>,
                  chars: seq<nat>,
                  t: nat, fs: nat, i: nat)
    requires SchemaOK(s) && IsType(s.parents, t) && 1 <= i <= s.featureNumber[t]
    requires fs + i < |cells| && i < |more| && more[i] == 0 && |cells'| == |cells + more| && refs <= refs'
    requires CopiedAt(s, cells + more, refs, cells', refs', chars, t, |cells|, fs, i)
    requires IsString(s, FeatureAt(s, t, i)) ==> RefOK(refs, chars, cells[fs + i])
    ensures KeptAt(s, cells, refs, cells', refs', chars, t, |cells|, fs, i)
  {
    var v, w := cells[fs + i], cells'[|cells| + i];
    if IsString(s, FeatureAt(s, t, i)) && v != 0 {
      FreshCopyText(refs, refs', chars, v, w);
    }
  }

  /** clone: a new structure of the same type with all features. */
  method Clone(heap: FSHeap, fs: nat) returns (clone: nat)
    requires heap.Valid() && FSAt(heap, fs)
    requires var t := heap.cells[fs];
             StringsOK(heap.schema, heap.cells, heap.stringRefs, heap.chars, t, fs, heap.schema.featureNumber[t])
    modifies heap
    ensures heap.Valid() && clone == |old(heap.cells)| && old(heap.cells) < heap.cells
    ensures heap.cells[clone] == old(heap.cells[fs])
    ensures var t := old(heap.cells[fs]);
            IsClone(heap, old(heap.cells), old(heap.stringRefs), t, clone, fs, heap.schema.featureNumber[t])
  {
    ghost var cells, refs := heap.cells, heap.stringRefs;
    var t := heap.cells[fs];
    clone := heap.CreateFS(t);
    ghost var more := [t] + Zeros(heap.schema.featureNumber[t]);
    assert heap.cells == cells + more;
    SameRefs(heap.schema, cells, more, refs, heap.chars, t, fs, heap.schema.featureNumber[t]);
    CopyFeatures(heap, clone, fs, 0);
    CloneIsDone(heap, cells, refs, more, t, t, clone, fs, heap.schema.featureNumber[t]);
  }

  lemma SameRefs(s: Schema, cells: seq<nat>, more: seq<nat>, refs: seq<nat>, chars: seq<nat>, t: nat, fs: nat, n: nat)
    requires SchemaOK(s) && IsType(s.parents, t) && n <= s.featureNumber[t] && fs + n < |cells|
    requires StringsOK(s, cells, refs, chars, t, fs, n)
    ensures StringsOK(s, cells + more, refs, chars, t, fs, n)
  {
  }

  // What copying gives is a clone, when the first n features of the two types are the same.
  lemma CloneIsDone(heap: FSHeap, cells: seq<nat>, refs: seq<nat>, more: seq<nat>, m: nat, t: nat, clone: nat, fs: nat,
                    n: nat)
    requires heap.Valid() && FSAt(heap, clone) && IsType(heap.schema.parents, m) && IsType(heap.schema.parents, t)
    requires heap.cells[clone] == t && clone == |cells| && more == [t] + Zeros(heap.schema.featureNumber[t])
    requires refs <= heap.stringRefs
    requires |heap.cells| == |cells + more| && n <= heap.schema.featureNumber[m] && n <= heap.schema.featureNumber[t]
    requires fs + n < |cells|
    requires forall i :: 1 <= i <= n ==> FeatureAt(heap.schema, m, i) == FeatureAt(heap.schema, t, i)
    requires StringsOK(heap.schema, cells, refs, heap.chars, m, fs, n)
    requires forall i :: 1 <= i <= n ==>
               CopiedAt(heap.schema, cells + more, refs, heap.cells, heap.stringRefs, heap.chars, t, clone, fs, i)
    requires forall c :: 0 <= c < |heap.cells| && !(clone < c <= clone + n) ==> heap.cells[c] == (cells + more)[c]
    ensures IsClone(heap, cells, refs, m, clone, fs, n) && cells < heap.cells
  {
    assert forall i :: n < i <= heap.schema.featureNumber[t] ==> (cells + more)[clone + i] == more[i] == 0;
    forall i | 1 <= i <= n
      ensures KeptAt(heap.schema, cells, refs, heap.cells, heap.stringRefs, heap.chars, m, clone, fs, i)
    {
      assert CopiedAt(heap.schema, cells + more, refs, heap.cells, heap.stringRefs, heap.chars, t, clone, fs, i);
      CopyKeeps(heap.schema, cells, refs, more, heap.cells, heap.stringRefs, heap.chars, m, fs, i);
    }
  }

  // A subtype has the features of the type at the same offsets.
  lemma SameFeatures(s: Schema, m: nat, t: nat, i: nat)
    requires SchemaOK(s) && IsType(s.parents, m) && IsType(s.parents, t) && Subsumes(s.parents, m, t)
    requires 1 <= i <= s.featureNumber[m]
    ensures i <= s.featureNumber[t] && FeatureAt(s, m, i) == FeatureAt(s, t, i)
  {
    SupertypeIsPrefix(s.parents, s.introOf, m, t);
  }

  /**
   clone to another type: keeps the features of the most specific common
   supertype and leaves the others unset. When that supertype has no features,
   copyFeatures takes the 0 as "all features of the target", and every feature
   of the target gets what the source has at the same offset.
   */
  method CloneAs(heap: FSHeap, ts: TypeSystem, fs: nat, t: nat) returns (clone: nat, ghost mcst: nat)
    requires ts.Valid() && ts.committed && heap.Valid() && heap.schema == SchemaOf(ts)
    requires FSAt(heap, fs) && IsType(ts.parents, t)
    requires forall m :: IsMostSpecificCommonSupertype(ts.parents, heap.cells[fs], t, m) ==>
               StringsOKIn(heap.schema, heap.cells, heap.stringRefs, heap.chars, fs, t, m)
    modifies heap
    ensures heap.Valid() && clone == |old(heap.cells)| && old(heap.cells) < heap.cells && heap.cells[clone] == t
    ensures IsMostSpecificCommonSupertype(heap.schema.parents, old(heap.cells[fs]), t, mcst)
    ensures if heap.schema.featureNumber[mcst] > 0
            then IsClone(heap, old(heap.cells), old(heap.stringRefs), mcst, clone, fs, heap.schema.featureNumber[mcst])
            else IsClone(heap, old(heap.cells), old(heap.stringRefs), t, clone, fs, heap.schema.featureNumber[t])
  {
    ghost var cells, refs := heap.cells, heap.stringRefs;
    var u := heap.cells[fs];
    clone := heap.CreateFS(t);
    assert heap.cells == cells + ([t] + Zeros(heap.schema.featureNumber[t]));
    var m := ts.GetMostSpecificCommonSupertype(u, t);
    mcst := m;
    var featNum := ts.featureNumber[m];
    hide *;
    FillClone(heap, clone, fs, t, m, featNum, cells, refs);
  }

  // Copies into the new structure what it is to have in common with the source.
  method FillClone(heap: FSHeap, clone: nat, fs: nat, t: nat, m: nat, featNum: nat, ghost cells: seq<nat>,
                   ghost refs: seq<nat>)
    requires heap.Valid() && FSAt(heap, clone) && clone == |cells| && refs == heap.stringRefs && fs < |cells|
    requires IsType(heap.schema.parents, t)
    requires heap.cells == cells + ([t] + Zeros(heap.schema.featureNumber[t])) && heap.cells[clone] == t
    requires IsType(heap.schema.parents, m) && Subsumes(heap.schema.parents, m, t)
    requires featNum == heap.schema.featureNumber[m]
    requires StringsOKIn(heap.schema, cells, refs, heap.chars, fs, t, m)
    modifies heap`cells, heap`stringRefs
    ensures heap.Valid() && cells < heap.cells && heap.cells[clone] == t
    ensures if featNum > 0 then IsClone(heap, cells, refs, m, clone, fs, featNum)
            else IsClone(heap, cells, refs, t, clone, fs, heap.schema.featureNumber[t])
  {
    ghost var s := heap.schema;
    ghost var more := [t] + Zeros(s.featureNumber[t]);
    if featNum > 0 {
      forall i | 1 <= i <= featNum ensures i <= s.featureNumber[t] && FeatureAt(s, m, i) == FeatureAt(s, t, i) {
        SameFeatures(s, m, t, i);
      }
      SameFeatures(s, m, t, featNum);
      AsTarget(s, cells, refs, heap.chars, m, t, fs, featNum);
      SameRefs(s, cells, more, refs, heap.chars, t, fs, featNum);
      hide StringsOK;
      CopyFeatures(heap, clone, fs, featNum);
      CloneIsDone(heap, cells, refs, more, m, t, clone, fs, featNum);
    } else {
      SameRefs(s, cells, more, refs, heap.chars, t, fs, s.featureNumber[t]);
      hide StringsOK;
      CopyFeatures(heap, clone, fs, featNum);
      CloneIsDone(heap, cells, refs, more, t, t, clone, fs, s.featureNumber[t]);
    }
  }

  // What is read as a string is a good reference; without common features the source has a cell for every
  // feature of the target.
  ghost predicate StringsOKIn(s: Schema, cells: seq<nat>, refs: seq<nat>, chars: seq<nat>, fs: nat, t: nat, m: nat)
    requires SchemaOK(s) && IsType(s.parents, t)
  {
    && IsType(s.parents, m)
    && var n := s.featureNumber[m];
       if n > 0 then fs + n < |cells| && StringsOK(s, cells, refs, chars, m, fs, n)
       else fs + s.featureNumber[t] < |cells| && StringsOK(s, cells, refs, chars, t, fs, s.featureNumber[t])
  }

  lemma AsTarget(s: Schema, cells: seq<nat>, refs: seq<nat>, chars: seq<nat>, m: nat, t: nat, fs: nat, n: nat)
    requires SchemaOK(s) && IsType(s.parents, m) && IsType(s.parents, t) && n <= s.featureNumber[m]
    requires n <= s.featureNumber[t]
    requires fs + n < |cells| && StringsOK(s, cells, refs, chars, m, fs, n)
    requires forall i :: 1 <= i <= n ==> FeatureAt(s, m, i) == FeatureAt(s, t, i)
    ensures StringsOK(s, cells, refs, chars, t, fs, n)
  {
  }

  /** In that case no copied value belongs to a feature that the two types share. */
  lemma NothingInCommon(s: Schema, u: nat, t: nat, m: nat, i: nat, j: nat)
    requires SchemaOK(s) && IsType(s.parents, u) && IsType(s.parents, t)
    requires IsMostSpecificCommonSupertype(s.parents, u, t, m) && IsType(s.parents, m) && s.featureNumber[m] == 0
    requires 1 <= i <= s.featureNumber[u] && 1 <= j <= s.featureNumber[t]
    ensures FeatureAt(s, u, i) != FeatureAt(s, t, j)
  {
    var f := FeatureAt(s, u, i);
    FeaturesAreInherited(s.parents, s.introOf, u);
    FeaturesAreInherited(s.parents, s.introOf, t);
    FeaturesAreInherited(s.parents, s.introOf, m);
    assert f in FeatureList(s.parents, s.introOf, u);
    assert FeatureAt(s, t, j) in FeatureList(s.parents, s.introOf, t);
    assert FeatureList(s.parents, s.introOf, m) == [];
  }

  // ------------------------------------------------------- nothing in common

  // The non-empty lists of structures, floats, integers and strings: built-in types of which only types without
  // features are common.
  const FS_LIST: nat := 13
  const FLOAT_LIST: nat := 16
  const INTEGER_LIST: nat := 19
  const STRING_LIST: nat := 22
  const LIST_BASE: nat := 10

  predicate IsListType(t: nat) {
    t == FS_LIST || t == FLOAT_LIST || t == INTEGER_LIST || t == STRING_LIST
  }

  /** The list operations read the right cells: in a node of any kind of list the head is in front of the tail. */
  lemma HeadAndTail(t: nat)
    requires IsListType(t)
    ensures ParentsOK(BUILTINS.parents) && IsType(BUILTINS.parents, t)
    ensures var list := FeatureList(BUILTINS.parents, BUILTINS.introOf, t);
            && |list| == 2 && list[0] < |BUILTINS.features| && list[1] < |BUILTINS.features|
            && BUILTINS.features[list[ListFS.HEAD - 1]] == "head"
            && BUILTINS.features[list[ListFS.TAIL - 1]] == "tail"
  {
    hide *;
    ListFeatures(t);
    FeatureNames(t);
  }

  lemma FeatureNames(t: nat)
    requires IsListType(t)
    ensures var f := (t - 13) / 3 * 2 + 1;
            && 1 <= f && f + 1 < |BUILTINS.features|
            && BUILTINS.features[f] == "head" && BUILTINS.features[f + 1] == "tail"
    ensures ListFS.HEAD == 1 && ListFS.TAIL == 2
  {
  }

  // Two features each, and none on the types above.
  lemma ListFeatures(t: nat)
    requires IsListType(t)
    ensures ParentsOK(BUILTINS.parents) && IsType(BUILTINS.parents, t)
    ensures |FeatureList(BUILTINS.parents, BUILTINS.introOf, t)| == 2
    ensures FeatureList(BUILTINS.parents, BUILTINS.introOf, t)[0] == (t - 13) / 3 * 2 + 1
    ensures FeatureList(BUILTINS.parents, BUILTINS.introOf, t)[1] == (t - 13) / 3 * 2 + 2
  {
    hide *;
    var p, i := BUILTINS.parents, BUILTINS.introOf;
    ListTables(t);
    TwoIndices(i, t, (t - 13) / 3 * 2 + 1);
    NoIndices(i, 1, t - 2);
    NoIndices(i, 1, LIST_BASE);
    OwnFeatures(p, i, t);
    OwnFeatures(p, i, t - 2);
    OwnFeatures(p, i, LIST_BASE);
  }

  lemma ListTables(t: nat)
    requires IsListType(t)
    ensures var p, i, f := BUILTINS.parents, BUILTINS.introOf, (t - 13) / 3 * 2 + 1;
            && ParentsOK(p) && IsType(p, t) && 12 < t < |p| && p[t] == t - 2 && p[t - 2] == LIST_BASE
            && p[LIST_BASE] == TOP && 2 <= LIST_BASE && 1 <= f && f + 1 < |i| && LIST_BASE < t - 2
            && forall g :: 1 <= g < |i| ==> (i[g] == t <==> g == f || g == f + 1) && i[g] != t - 2 && i[g] != LIST_BASE
  {
    BuiltinsAreOK();
    hide TableOK;
    assert forall g :: 1 <= g < |BUILTINS.introOf| ==> BUILTINS.introOf[g] == 13 + (g - 1) / 2 * 3;
  }

  lemma OwnFeatures(parents: seq<nat>, introOf: seq<nat>, t: nat)
    requires ParentsOK(parents) && 2 <= t < |parents|
    ensures FeatureList(parents, introOf, TOP) == []
    ensures FeatureList(parents, introOf, t) == FeatureList(parents, introOf, parents[t]) + Indices(introOf, 1, t)
  {
  }

  lemma TwoIndices(assign: seq<nat>, v: nat, f: nat)
    requires 1 <= f && f + 1 < |assign|
    requires forall g :: 1 <= g < |assign| ==> (assign[g] == v <==> g == f || g == f + 1)
    ensures Indices(assign, 1, v) == [f, f + 1]
  {
    var own := Indices(assign, 1, v);
    TypePriority.IndicesAscend(assign, 1, v);
    TopologicalSort.SetOfDistinct(own);
    assert TopologicalSort.Elements(own) == {f, f + 1};
    assert own[0] in own && own[1] in own && own[0] < own[1];
  }

  lemma OnlyBaseInCommon(t: nat, m: nat)
    requires ParentsOK(BUILTINS.parents) && (t == FLOAT_LIST || t == STRING_LIST)
    requires IsMostSpecificCommonSupertype(BUILTINS.parents, INTEGER_LIST, t, m)
    ensures FeatureList(BUILTINS.parents, BUILTINS.introOf, m) == []
  {
    var p, i := BUILTINS.parents, BUILTINS.introOf;
    assert p[INTEGER_LIST] == 17 && p[17] == LIST_BASE && p[LIST_BASE] == TOP;
    assert p[FLOAT_LIST] == 14 && p[14] == LIST_BASE && p[STRING_LIST] == 20 && p[20] == LIST_BASE;
    assert Subsumes(p, m, INTEGER_LIST) <==> m == INTEGER_LIST || m == 17 || m == LIST_BASE || m == TOP;
    assert Subsumes(p, m, t) <==> m == t || m == p[t] || m == LIST_BASE || m == TOP;
    NoIndices(i, 1, LIST_BASE);
  }

  // A heap for the built-in types alone.
  method BuiltinHeap() returns (ts: TypeSystem, heap: FSHeap)
    ensures fresh(ts) && fresh(heap) && ts.Valid() && ts.committed && heap.Valid() && heap.schema == SchemaOf(ts)
    ensures ts.parents == BUILTINS.parents && ts.introOf == BUILTINS.introOf && ts.rangeTypes == BUILTINS.ranges
    ensures heap.cells == heap.stringRefs == heap.chars == [0] && heap.extents == map[]
  {
    hide *;
    BuiltinsAreOK();
    ts := new TypeSystem(BUILTINS);
    ts.Commit();
    CommittedSchemaIsOK(ts);
    var schema := Schema(ts.parents, BUILTINS.introOf, ts.rangeTypes, ts.featureNumber, ts.mapping);
    SchemaIs(ts);
    heap := new FSHeap(schema);
  }

  lemma SchemaIs(ts: TypeSystem)
    ensures SchemaOf(ts) == Schema(ts.parents, ts.introOf, ts.rangeTypes, ts.featureNumber, ts.mapping)
  {
  }

  lemma ListSchema(ts: TypeSystem, t: nat)
    requires ts.Valid() && ts.committed && ts.parents == BUILTINS.parents && ts.introOf == BUILTINS.introOf
    requires ts.rangeTypes == BUILTINS.ranges && IsListType(t)
    ensures var s := SchemaOf(ts);
            && SchemaOK(s) && IsType(s.parents, t) && s.featureNumber[t] == 2
            && (IsString(s, FeatureAt(s, t, 1)) <==> t == STRING_LIST) && !IsString(s, FeatureAt(s, t, 2))
  {
    CommittedSchemaIsOK(ts);
    ListFeatures(t);
    ListRanges(t);
    hide FeatureList, MappingOK, IntroOK;
  }

  lemma ListRanges(t: nat)
    requires IsListType(t)
    ensures var p, ranges, f := BUILTINS.parents, BUILTINS.ranges, (t - 13) / 3 * 2 + 1;
            && ParentsOK(p) && f + 1 < |ranges| && (Subsumes(p, STRING, ranges[f]) <==> t == STRING_LIST)
            && !Subsumes(p, STRING, ranges[f + 1])
  {
    BuiltinsAreOK();
    var p, ranges, f := BUILTINS.parents, BUILTINS.ranges, (t - 13) / 3 * 2 + 1;
    assert ranges[f] == if t == FS_LIST then TOP else if t == FLOAT_LIST then FLOAT
                        else if t == INTEGER_LIST then INTEGER else STRING;
    assert ranges[f + 1] == t - 2 && p[t - 2] == LIST_BASE && p[LIST_BASE] == TOP;
    assert p[FLOAT] == TOP && p[INTEGER] == TOP;
  }

  lemma CanClone(ts: TypeSystem, heap: FSHeap, node: nat)
    requires ts.Valid() && ts.committed && ts.parents == BUILTINS.parents && ts.introOf == BUILTINS.introOf
    requires ts.rangeTypes == BUILTINS.ranges && heap.Valid() && heap.schema == SchemaOf(ts)
    requires node in heap.extents && heap.extents[node] == 3 && node + 2 < |heap.cells|
    requires heap.cells[node] == INTEGER_LIST
    ensures FSAt(heap, node) && IsType(ts.parents, FLOAT_LIST) && heap.schema.parents == ts.parents
    ensures ParentsOK(ts.parents)
    ensures forall m: nat :: IsMostSpecificCommonSupertype(heap.schema.parents, INTEGER_LIST, FLOAT_LIST, m) ==>
              && IsType(heap.schema.parents, m) && heap.schema.featureNumber[m] == 0
              && StringsOKIn(heap.schema, heap.cells, heap.stringRefs, heap.chars, node, FLOAT_LIST, m)
  {
    ListSchema(ts, INTEGER_LIST);
    ListSchema(ts, FLOAT_LIST);
    SchemaIs(ts);
    hide IsString, FeatureAt, FeatureList, SchemaOK, SchemaOf, Subsumes, StringsOKIn;
    forall m: nat | IsMostSpecificCommonSupertype(ts.parents, INTEGER_LIST, FLOAT_LIST, m)
      ensures IsType(heap.schema.parents, m) && heap.schema.featureNumber[m] == 0
      ensures StringsOKIn(heap.schema, heap.cells, heap.stringRefs, heap.chars, node, FLOAT_LIST, m)
    {
      OnlyBaseInCommon(FLOAT_LIST, m);
      NoStrings(heap.schema, heap.cells, heap.stringRefs, heap.chars, node, m);
    }
  }

  lemma NoStrings(s: Schema, cells: seq<nat>, refs: seq<nat>, chars: seq<nat>, node: nat, m: nat)
    requires SchemaOK(s) && IsType(s.parents, m) && FeatureList(s.parents, s.introOf, m) == []
    requires IsType(s.parents, FLOAT_LIST) && s.featureNumber[FLOAT_LIST] == 2 && node + 2 < |cells|
    requires !IsString(s, FeatureAt(s, FLOAT_LIST, 1)) && !IsString(s, FeatureAt(s, FLOAT_LIST, 2))
    ensures s.featureNumber[m] == 0 && StringsOKIn(s, cells, refs, chars, node, FLOAT_LIST, m)
  {
    hide IsString, FeatureAt, FeatureList;
  }

  // For a list of strings the integer would be taken for a reference.
  lemma NoTextBehind(ts: TypeSystem, heap: FSHeap, node: nat)
    requires ts.Valid() && ts.committed && ts.parents == BUILTINS.parents && ts.introOf == BUILTINS.introOf
    requires ts.rangeTypes == BUILTINS.ranges && heap.Valid() && heap.schema == SchemaOf(ts)
    requires node + 2 < |heap.cells| && heap.cells[node + 1] == 7 && heap.stringRefs == [0]
    ensures SchemaOK(heap.schema) && IsType(heap.schema.parents, STRING_LIST)
    ensures !StringsOKIn(heap.schema, heap.cells, heap.stringRefs, heap.chars, node, STRING_LIST, LIST_BASE)
  {
    ListSchema(ts, STRING_LIST);
    NoIndices(BUILTINS.introOf, 1, LIST_BASE);
    BaseIsType();
    SchemaIs(ts);
    ListTables(STRING_LIST);
    OwnFeatures(BUILTINS.parents, BUILTINS.introOf, LIST_BASE);
    hide *;
    NoReference(heap.schema, heap.cells, heap.stringRefs, heap.chars, node);
  }

  lemma BaseIsType()
    ensures ParentsOK(BUILTINS.parents) && IsType(BUILTINS.parents, LIST_BASE)
    ensures IsListType(STRING_LIST)
  {
    ListTables(STRING_LIST);
  }

  lemma NoReference(s: Schema, cells: seq<nat>, refs: seq<nat>, chars: seq<nat>, node: nat)
    requires SchemaOK(s) && IsType(s.parents, LIST_BASE) && FeatureList(s.parents, s.introOf, LIST_BASE) == []
    requires IsType(s.parents, STRING_LIST) && s.featureNumber[STRING_LIST] == 2 && node + 2 < |cells|
    requires IsString(s, FeatureAt(s, STRING_LIST, 1)) && cells[node + 1] == 7 && refs == [0]
    ensures !StringsOKIn(s, cells, refs, chars, node, STRING_LIST, LIST_BASE)
  {
    hide IsString, FeatureAt, FeatureList;
    assert !RefOK(refs, chars, 7);
  }

  lemma FirstIsKept(ts: TypeSystem, heap: FSHeap, cells: seq<nat>, refs: seq<nat>, clone: nat, node: nat)
    requires ts.Valid() && ts.committed && ts.parents == BUILTINS.parents && ts.introOf == BUILTINS.introOf
    requires ts.rangeTypes == BUILTINS.ranges && heap.Valid() && heap.schema == SchemaOf(ts)
    requires IsClone(heap, cells, refs, FLOAT_LIST, clone, node, heap.schema.featureNumber[FLOAT_LIST])
    ensures node + 1 < |cells| && clone + 1 < |heap.cells| && heap.cells[clone + 1] == cells[node + 1]
  {
    ListSchema(ts, FLOAT_LIST);
    hide IsString;
    assert KeptAt(heap.schema, cells, refs, heap.cells, heap.stringRefs, heap.chars, FLOAT_LIST, clone, node, 1);
  }

  /**
   The node of a list of integers as that of a list of floats: they share no
   feature, and yet the integer becomes the float. As the node of a list of
   strings it cannot be cloned in any sense: the integer would be taken for a
   string reference, and no text stands behind it.
   */
  method IntegerAsFloat() returns (heap: FSHeap, node: nat, clone: nat)
    ensures heap.Valid() && clone + 1 < |heap.cells|
    ensures heap.cells[clone] == FLOAT_LIST && heap.cells[clone + 1] == 7
    ensures node + 1 < clone && heap.cells[node] == INTEGER_LIST && heap.cells[node + 1] == 7
  {
    hide *;
    var ts;
    ts, heap := BuiltinHeap();
    node := IntegerNode(ts, heap);
    ghost var cells, refs, mcst := heap.cells, heap.stringRefs, 0;
    CanClone(ts, heap, node);
    clone, mcst := CloneAs(heap, ts, node, FLOAT_LIST);
    FirstIsKept(ts, heap, cells, refs, clone, node);
  }

  // A node with the integer 7.
  method IntegerNode(ts: TypeSystem, heap: FSHeap) returns (node: nat)
    requires ts.Valid() && ts.committed && ts.parents == BUILTINS.parents && ts.introOf == BUILTINS.introOf
    requires ts.rangeTypes == BUILTINS.ranges && heap.Valid() && heap.schema == SchemaOf(ts)
    requires heap.stringRefs == [0]
    modifies heap`cells, heap`extents
    ensures heap.Valid() && node in heap.extents && heap.extents[node] == 3 && node + 2 < |heap.cells|
    ensures heap.cells[node] == INTEGER_LIST && heap.cells[node + 1] == 7
    ensures SchemaOK(heap.schema) && IsType(heap.schema.parents, STRING_LIST)
    ensures !StringsOKIn(heap.schema, heap.cells, heap.stringRefs, heap.chars, node, STRING_LIST, LIST_BASE)
  {
    ListSchema(ts, INTEGER_LIST);
    hide *;
    node := heap.CreateFS(INTEGER_LIST);
    heap.SetFSValue(node, 1, 7);
    NoTextBehind(ts, heap, node);
  }
}
