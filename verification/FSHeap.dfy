/**
 The heap of feature structures: a growing vector of cells in which a structure
 is a type cell followed by one cell for each feature, a vector of string
 references, and a vector of UTF-16 units.
 */
module FSHeap {
  import opened TypeTree
  import opened TypeLayout
  import opened TypeSystem

  // What the heap needs of a committed type system.
  datatype Schema =
    Schema(parents: seq<nat>, introOf: seq<nat>, ranges: seq<nat>, featureNumber: seq<nat>, mapping: seq<seq<nat>>)

  ghost predicate SchemaOK(s: Schema) {
    && ParentsOK(s.parents) && IntroOK(s.parents, s.introOf) && |s.ranges| == |s.introOf|
    && |s.featureNumber| == |s.parents| && MappingOK(s.parents, s.introOf, s.mapping)
    && forall t :: IsType(s.parents, t) ==> s.featureNumber[t] == |FeatureList(s.parents, s.introOf, t)|
  }

  ghost function SchemaOf(ts: TypeSystem): Schema
    reads ts
  {
    Schema(ts.parents, ts.introOf, ts.rangeTypes, ts.featureNumber, ts.mapping)
  }

  /** The tables of a committed type system are fit for the heap. */
  lemma CommittedSchemaIsOK(ts: TypeSystem)
    requires ts.Valid() && ts.committed
    ensures SchemaOK(SchemaOf(ts))
  {
    assert LaidOut(ts.parents, ts.introOf, ts.featureNumber, ts.featureOffset, ts.approp, TOP);
    forall t | IsType(ts.parents, t) ensures ts.featureNumber[t] == |FeatureList(ts.parents, ts.introOf, t)| {
      assert LaidOut(ts.parents, ts.introOf, ts.featureNumber, ts.featureOffset, ts.approp, t);
    }
  }

  // The number of units before the first zero from pos on.
  function StrLen(chars: seq<nat>, pos: nat): (n: nat)
    ensures n == 0 || pos + n <= |chars|
    ensures forall i :: pos <= i < pos + n && i < |chars| ==> chars[i] != 0
    ensures pos + n < |chars| ==> chars[pos + n] == 0
    decreases |chars| - pos
  {
    if pos < |chars| && chars[pos] != 0 then 1 + StrLen(chars, pos + 1) else 0
  }

  // The text behind a string reference: a position and a length in two cells.
  function TextOf(refs: seq<nat>, chars: seq<nat>, ref: nat): (text: seq<nat>)
    requires RefOK(refs, chars, ref)
  {
    if ref == 0 then [] else chars[refs[2 * ref - 1]..refs[2 * ref - 1] + refs[2 * ref]]
  }

  predicate RefOK(refs: seq<nat>, chars: seq<nat>, ref: nat) {
    ref == 0 || (2 * ref < |refs| && refs[2 * ref - 1] + refs[2 * ref] <= |chars|)
  }

  // The text holds no zero unit, and where the heap goes on behind it there is one.
  predicate Terminated(refs: seq<nat>, chars: seq<nat>, ref: nat)
    requires RefOK(refs, chars, ref) && ref != 0
  {
    var end := refs[2 * ref - 1] + refs[2 * ref];
    0 !in TextOf(refs, chars, ref) && (end < |chars| ==> chars[end] == 0)
  }

  lemma {:induction false} StrLenOfText(chars: seq<nat>, pos: nat, n: nat)
    requires pos + n <= |chars| && 0 !in chars[pos..pos + n]
    ensures StrLen(chars, pos) >= n && ((pos + n < |chars| ==> chars[pos + n] == 0) ==> StrLen(chars, pos) == n)
    decreases n
  {
    if n > 0 {
      assert chars[pos] == chars[pos..pos + n][0];
      assert chars[pos + 1..pos + n] == chars[pos..pos + n][1..];
      StrLenOfText(chars, pos + 1, n - 1);
    }
  }

  class FSHeap {
    const schema: Schema
    var cells: seq<nat>
    var stringRefs: seq<nat>
    var chars: seq<nat>
    // where each structure starts, and how many cells it has
    ghost var extents: map<nat, nat>

    ghost predicate Valid()
      reads this
    {
      SchemaOK(schema) && |cells| >= 1 && |stringRefs| % 2 == 1 && ExtentsOK(extents, |cells|)
    }

    // A heap after reset: one cell that no structure uses, in each part.
    constructor (schema: Schema)
      requires SchemaOK(schema)
      ensures Valid() && this.schema == schema && cells == stringRefs == chars == [0] && extents == map[]
    {
      this.schema, cells, stringRefs, chars, extents := schema, [0], [0], [0], map[];
    }

    /** increaseHeap: n zero cells at the end. */
    method IncreaseHeap(n: nat) returns (fs: nat)
      requires Valid() && n >= 1
      modifies `cells, `extents
      ensures Valid() && fs == |old(cells)| && cells == old(cells) + Zeros(n) && extents == old(extents)[fs := n]
    {
      fs := |cells|;
      cells := cells + Zeros(n);
      extents := extents[fs := n];
    }

    /** createFS: a structure of the type with all its features unset. */
    method CreateFS(t: nat) returns (fs: nat)
      requires Valid() && IsType(schema.parents, t)
      modifies `cells, `extents
      ensures Valid() && fs == |old(cells)| >= 1
      ensures cells == old(cells) + [t] + Zeros(schema.featureNumber[t])
      ensures extents == old(extents)[fs := schema.featureNumber[t] + 1]
    {
      fs := IncreaseHeap(schema.featureNumber[t] + 1);
      cells := cells[fs := t];
    }

    // The value of the feature at the offset.
    function GetFSValue(fs: nat, offset: nat): nat
      requires fs + offset < |cells|
      reads this
    {
      cells[fs + offset]
    }

    method SetFSValue(fs: nat, offset: nat, value: nat)
      requires Valid() && fs + offset < |cells|
      modifies `cells
      ensures Valid() && cells == old(cells)[fs + offset := value]
    {
      cells := cells[fs + offset := value];
    }

    /** getStringAsFS: a new reference to the units from pos on, up to the first zero. */
    method GetStringAsFS(pos: nat) returns (ref: nat)
      requires Valid()
      modifies `stringRefs
      ensures Valid() && stringRefs == old(stringRefs) + [pos, StrLen(chars, pos)] && 2 * ref == |old(stringRefs)| + 1
    {
      ref := 1 + (|stringRefs| - 1) / 2;
      stringRefs := stringRefs + [pos, StrLen(chars, pos)];
    }

    /** addString: the units and a zero behind them. */
    method AddString(text: seq<nat>) returns (pos: nat)
      requires Valid()
      modifies `chars
      ensures Valid() && pos == |old(chars)| && chars == old(chars) + text + [0]
    {
      pos := |chars|;
      chars := chars + text + [0];
    }
  }

  // Structures start after the first cell and do not overlap.
  predicate ExtentsOK(extents: map<nat, nat>, size: nat) {
    && (forall fs :: fs in extents ==> 1 <= fs && 1 <= extents[fs] && fs + extents[fs] <= size)
    && (forall a, b :: a in extents && b in extents && a < b ==> a + extents[a] <= b)
  }
}
