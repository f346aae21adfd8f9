/**
 The text of an XCAS document as the pieces that are written one after another,
 and what an XML parser reports of it.
 */
module XcasText {
  import opened Xcas

  // A tag is opened by its name and attributes, and ended by `>` or `/>`.
  datatype Piece =
    | OpenTag(tag: Tag, attributes: seq<Attribute>)
    | TagEnd
    | EmptyTagEnd
    | CharData(text: seq<nat>)
    | CloseTag(tag: Tag)

  // The events for the content of a document. A tag that is not ended is an error, and the parser stops there.
  function Reported(pieces: seq<Piece>): seq<Event> {
    if pieces == [] then []
    else
      match pieces[0]
      case OpenTag(t, attributes) =>
        if |pieces| == 1 then [Broken]
        else if pieces[1].TagEnd? then [StartElement(t, attributes)] + Reported(pieces[2..])
        else if pieces[1].EmptyTagEnd? then [StartElement(t, attributes), EndElement(t)] + Reported(pieces[2..])
        else [Broken]
      case CharData(text) => (if text == [] then [] else [Characters(text)]) + Reported(pieces[1..])
      case CloseTag(t) => [EndElement(t)] + Reported(pieces[1..])
      case _ => [Broken]
  }

  function ReportedDocument(pieces: seq<Piece>): seq<Event> {
    [StartDocument] + Reported(pieces) + [EndDocument]
  }

  function ItemPieces(text: seq<nat>): seq<Piece> {
    [OpenTag(ItemTag, []), TagEnd, CharData(text), CloseTag(ItemTag)]
  }

  // The elements of an array from i on.
  ghost function ItemPiecesFrom(types: Types, h: Heap, a: nat, i: nat): seq<Piece>
    requires Readable(types, h, a) && ShapeAt(types, h.cells, a).ArrayOf? && i <= ElementCount(types, h.cells, a)
    decreases ElementCount(types, h.cells, a) - i
  {
    if i == ElementCount(types, h.cells, a) then []
    else
      ElementsAreReadable(types, h, a, i);
      ItemPieces(ElementText(types, h, a, i)) + ItemPiecesFrom(types, h, a, i + 1)
  }

  // Of an empty array of bytes only the name and the first attributes are written.
  ghost function StructurePieces(types: Types, h: Heap, a: nat, views: seq<nat>): seq<Piece>
    requires Readable(types, h, a)
  {
    var t, leading := h.cells[a], LeadingAttributes(a, views);
    if ShapeAt(types, h.cells, a).Record?
    then [OpenTag(TypeTag(t), leading + FeatureAttributes(types, h, a, 0)), EmptyTagEnd]
    else
      var sized := leading + [SizeAttribute(h.cells[a + 1])];
      if ElementCount(types, h.cells, a) > 0
      then [OpenTag(TypeTag(t), sized), TagEnd] + ItemPiecesFrom(types, h, a, 0) + [CloseTag(TypeTag(t))]
      else if IsUnclosed(types, h, a) then [OpenTag(TypeTag(t), leading)]
      else [OpenTag(TypeTag(t), sized), EmptyTagEnd]
  }

  // The structures with these addresses, each with its views.
  ghost function BodyPieces(types: Types, h: Heap, ids: seq<nat>, queue: map<nat, seq<nat>>): seq<Piece>
    requires forall a :: a in ids ==> a in queue && Readable(types, h, a)
  {
    if ids == [] then []
    else StructurePieces(types, h, ids[0], queue[ids[0]]) + BodyPieces(types, h, ids[1..], queue)
  }

  lemma ItemReported(text: seq<nat>, rest: seq<Piece>)
    ensures Reported(ItemPieces(text) + rest) == ItemEvents(text) + Reported(rest)
  {
    var all := ItemPieces(text) + rest;
    assert all[0] == OpenTag(ItemTag, []) && all[1] == TagEnd;
    assert all[2..] == [CharData(text), CloseTag(ItemTag)] + rest;
    assert all[2..][1..] == [CloseTag(ItemTag)] + rest;
    assert all[2..][1..][1..] == rest;
    var middle := if text == [] then [] else [Characters(text)];
    assert Reported(all[2..]) == middle + ([EndElement(ItemTag)] + Reported(rest));
    assert ItemEvents(text) == [StartElement(ItemTag, [])] + middle + [EndElement(ItemTag)];
  }

  lemma {:induction false} ItemsReported(types: Types, h: Heap, a: nat, i: nat, rest: seq<Piece>)
    requires Readable(types, h, a) && ShapeAt(types, h.cells, a).ArrayOf? && i <= ElementCount(types, h.cells, a)
    ensures Reported(ItemPiecesFrom(types, h, a, i) + rest) == ItemsFrom(types, h, a, i) + Reported(rest)
    decreases ElementCount(types, h.cells, a) - i
  {
    hide *;
    NoItems(types, h, a);
    if i == ElementCount(types, h.cells, a) {
      assert [] + rest == rest && [] + Reported(rest) == Reported(rest);
    } else {
      FirstItem(types, h, a, i);
      var text := ElementText(types, h, a, i);
      var more := ItemPiecesFrom(types, h, a, i + 1);
      ItemsReported(types, h, a, i + 1, rest);
      ItemReported(text, more + rest);
      FirstAndMore(ItemPieces(text), ItemEvents(text), more, ItemsFrom(types, h, a, i + 1), rest);
    }
  }

  lemma FirstAndMore(first: seq<Piece>, events: seq<Event>, more: seq<Piece>, others: seq<Event>, rest: seq<Piece>)
    requires Reported(first + (more + rest)) == events + Reported(more + rest)
    requires Reported(more + rest) == others + Reported(rest)
    ensures Reported(first + more + rest) == events + others + Reported(rest)
  {
    hide Reported;
    assert first + more + rest == first + (more + rest);
  }

  lemma NoItems(types: Types, h: Heap, a: nat)
    requires Readable(types, h, a) && ShapeAt(types, h.cells, a).ArrayOf?
    ensures IsStructure(types, h.cells, a)
    ensures var n := ElementCount(types, h.cells, a);
            ItemPiecesFrom(types, h, a, n) == [] && ItemsFrom(types, h, a, n) == []
  {
  }

  lemma FirstItem(types: Types, h: Heap, a: nat, i: nat)
    requires Readable(types, h, a) && ShapeAt(types, h.cells, a).ArrayOf? && i < ElementCount(types, h.cells, a)
    ensures IsStructure(types, h.cells, a) && ElementReadable(types, h, a, i)
    ensures var text := ElementText(types, h, a, i);
            && ItemPiecesFrom(types, h, a, i) == ItemPieces(text) + ItemPiecesFrom(types, h, a, i + 1)
            && ItemsFrom(types, h, a, i) == ItemEvents(text) + ItemsFrom(types, h, a, i + 1)
  {
    ElementsAreReadable(types, h, a, i);
    hide ItemPieces, ItemEvents;
  }

  /** A structure is reported as an element, but for an empty array of bytes. */
  lemma StructureReported(types: Types, h: Heap, a: nat, views: seq<nat>, rest: seq<Piece>)
    requires Readable(types, h, a) && !IsUnclosed(types, h, a)
    ensures Reported(StructurePieces(types, h, a, views) + rest)
         == StructureEvents(types, h, a, views) + Reported(rest)
  {
    var pieces, tag := StructurePieces(types, h, a, views), TypeTag(h.cells[a]);
    if ShapeAt(types, h.cells, a).ArrayOf? && ElementCount(types, h.cells, a) > 0 {
      var sized := LeadingAttributes(a, views) + [SizeAttribute(h.cells[a + 1])];
      var items := ItemPiecesFrom(types, h, a, 0);
      ItemsReported(types, h, a, 0, [CloseTag(tag)] + rest);
      ClosedReported(tag, sized, items, ItemsFrom(types, h, a, 0), rest);
    } else {
      EmptyReported(tag, pieces[0].attributes, rest);
      assert ShapeAt(types, h.cells, a).ArrayOf? ==> ItemsFrom(types, h, a, 0) == [];
    }
  }

  lemma EmptyReported(tag: Tag, attributes: seq<Attribute>, rest: seq<Piece>)
    ensures Reported([OpenTag(tag, attributes), EmptyTagEnd] + rest)
         == [StartElement(tag, attributes), EndElement(tag)] + Reported(rest)
  {
    assert ([OpenTag(tag, attributes), EmptyTagEnd] + rest)[2..] == rest;
  }

  lemma ClosedReported(tag: Tag, attributes: seq<Attribute>, inner: seq<Piece>, events: seq<Event>, rest: seq<Piece>)
    requires Reported(inner + ([CloseTag(tag)] + rest)) == events + Reported([CloseTag(tag)] + rest)
    ensures Reported([OpenTag(tag, attributes), TagEnd] + inner + [CloseTag(tag)] + rest)
         == [StartElement(tag, attributes)] + events + [EndElement(tag)] + Reported(rest)
  {
    var all := [OpenTag(tag, attributes), TagEnd] + inner + [CloseTag(tag)] + rest;
    assert all[0] == OpenTag(tag, attributes) && all[1] == TagEnd;
    assert all[2..] == inner + ([CloseTag(tag)] + rest);
    assert ([CloseTag(tag)] + rest)[1..] == rest;
  }

  /** An empty array of bytes is not reported: whatever tag comes next, the text is not XML. */
  lemma UnclosedIsBroken(types: Types, h: Heap, a: nat, views: seq<nat>, rest: seq<Piece>)
    requires Readable(types, h, a) && IsUnclosed(types, h, a)
    requires rest != [] && (rest[0].OpenTag? || rest[0].CloseTag?)
    ensures Reported(StructurePieces(types, h, a, views) + rest) == [Broken]
  {
    hide LeadingAttributes, FeatureAttributes, ItemPiecesFrom;
    var open := OpenTag(TypeTag(h.cells[a]), LeadingAttributes(a, views));
    assert StructurePieces(types, h, a, views) == [open];
    assert ([open] + rest)[0] == open && ([open] + rest)[1] == rest[0];
  }

  // Every structure begins with a tag.
  lemma BodyBegins(types: Types, h: Heap, ids: seq<nat>, queue: map<nat, seq<nat>>, rest: seq<Piece>)
    requires forall a :: a in ids ==> a in queue && Readable(types, h, a)
    requires rest != [] && (rest[0].OpenTag? || rest[0].CloseTag?)
    ensures var all := BodyPieces(types, h, ids, queue) + rest; all != [] && (all[0].OpenTag? || all[0].CloseTag?)
  {
    hide Readable;
    if ids != [] {
      assert StructurePieces(types, h, ids[0], queue[ids[0]])[0].OpenTag?;
    }
  }
}
