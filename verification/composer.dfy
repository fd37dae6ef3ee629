/**
 Composition of one headshot: pick a palette pair and one body and one
 hair document, colour their slots, and merge both layers under a fresh
 `svg` root, body first.

 The random choices arrive as a `Draw`; the result is the merged tree
 (serialising it to text is left abstract).
 */
module Composer {
  import opened Wrappers
  import opened SvgTree
  import opened SlotIndex
  import opened AppCache

  const SvgTag := "svg"
  const XmlnsAttr := "xmlns"
  const SvgNamespace := "http://www.w3.org/2000/svg"

  /** One palette entry: a skin colour and the hair colour that goes with it. */
  datatype ColourPair = ColourPair(skin: string, hair: string)

  /** The random choices of one request: a palette index, a body number
      and a hair number. */
  datatype Draw = Draw(pair: nat, body: nat, hair: nat)

  /** What the source raises: `IndexError` from choosing in an empty palette,
      `KeyError` for an absent cache key or an absent entry field. */
  datatype GenerateError = EmptyPalette | MissingKey(key: string) | MissingField(field: string)

  /** The draws the random source can make: `randint(1, 12)`,
      `randint(1, 16)`, and an index of the palette when it has one. */
  predicate ValidDraw(d: Draw, paletteSize: nat)
  {
    && 1 <= d.body <= BodyCount
    && 1 <= d.hair <= HairCount
    && (paletteSize > 0 ==> d.pair < paletteSize)
  }

  /** Sets `fill` on whichever slots of a layer are present: the main slot
      to `mainColour`, the accessory slot to `accessoryColour`. */
  function Colour(e: Entry, mainColour: string, accessoryColour: string): Element
  {
    var t := if e.slots.main.Some? then SetFill(e.tree, e.slots.main.value, mainColour) else e.tree;
    if e.slots.accessory.Some? then SetFill(t, e.slots.accessory.value, accessoryColour) else t
  }

  /** A fresh `svg` root holding the body root's children, then the hair
      root's children. */
  function Merge(body: Element, hair: Element): Element
  {
    Element(SvgTag, map[XmlnsAttr := SvgNamespace], body.children + hair.children)
  }

  /** One request: choose the colours and documents, colour them, merge. */
  function Generate(cache: Cache, palette: seq<ColourPair>, d: Draw, accessoryColour: string): Result<Element, GenerateError>
    requires ValidDraw(d, |palette|)
  {
    if |palette| == 0 then Failure(EmptyPalette)
    else
      var colours := palette[d.pair];
      var bodyKey := KeyFor(Body, d.body);
      var hairKey := KeyFor(Hair, d.hair);
      if bodyKey !in cache then Failure(MissingKey(bodyKey))
      else if hairKey !in cache then Failure(MissingKey(hairKey))
      else if cache[bodyKey].role != Body then Failure(MissingField(MainId(Body)))
      else if cache[hairKey].role != Hair then Failure(MissingField(MainId(Hair)))
      else Success(Merge(Colour(cache[bodyKey], colours.skin, accessoryColour),
                         Colour(cache[hairKey], colours.hair, accessoryColour)))
  }

  /** Colouring a layer changes only its slots, and there only `fill`: the
      document keeps its shape, every other position is unchanged, the main
      slot gets `mainColour` and the accessory slot `accessoryColour`. */
  lemma ColourOnlySlots(e: Entry, mainColour: string, accessoryColour: string)
    requires ValidSlots(e.tree, e.role, e.slots)
    ensures Skeleton(Colour(e, mainColour, accessoryColour)) == Skeleton(e.tree)
    ensures |Visits(Colour(e, mainColour, accessoryColour))| == |Visits(e.tree)|
    ensures forall j :: 0 <= j < |Visits(e.tree)| && e.slots.main != Some(j) && e.slots.accessory != Some(j) ==>
      Visits(Colour(e, mainColour, accessoryColour))[j] == Visits(e.tree)[j]
    ensures e.slots.main.Some? ==>
      Visits(Colour(e, mainColour, accessoryColour))[e.slots.main.value] == Filled(Visits(e.tree)[e.slots.main.value], mainColour)
    ensures e.slots.accessory.Some? ==>
      Visits(Colour(e, mainColour, accessoryColour))[e.slots.accessory.value] == Filled(Visits(e.tree)[e.slots.accessory.value], accessoryColour)
  {
    var t := if e.slots.main.Some? then SetFill(e.tree, e.slots.main.value, mainColour) else e.tree;
    if e.slots.main.Some? {
      SetFillOnlyTarget(e.tree, e.slots.main.value, mainColour);
    }
    if e.slots.accessory.Some? {
      SetFillOnlyTarget(t, e.slots.accessory.value, accessoryColour);
      if e.slots.main.Some? {
        assert e.slots.main.value != e.slots.accessory.value;
      }
    }
  }

  /** The merged document in `iter()` order: the new root, then the body's
      nodes below its root, then the hair's nodes below its root. */
  lemma MergeVisits(body: Element, hair: Element)
    ensures Merge(body, hair).tag == SvgTag
    ensures Merge(body, hair).attrs == map[XmlnsAttr := SvgNamespace]
    ensures |Merge(body, hair).children| == |body.children| + |hair.children|
    ensures Visits(Merge(body, hair)) == [ElemVisit(SvgTag, map[XmlnsAttr := SvgNamespace])] + Visits(body)[1..] + Visits(hair)[1..]
  {
    ForestVisitsAppend(body.children, hair.children);
    assert Visits(body)[1..] == ForestVisits(body.children);
    assert Visits(hair)[1..] == ForestVisits(hair.children);
  }

  /** The keys a request draws are always in a built cache, with the role
      the request expects, so the lookups cannot miss. */
  lemma DrawnKeysCached(docs: map<string, Element>, bodyDir: string, hairDir: string, d: Draw, paletteSize: nat)
    requires BuildCache(docs, bodyDir, hairDir).Success?
    requires ValidDraw(d, paletteSize)
    ensures KeyFor(Body, d.body) in BuildCache(docs, bodyDir, hairDir).value
    ensures BuildCache(docs, bodyDir, hairDir).value[KeyFor(Body, d.body)].role == Body
    ensures KeyFor(Hair, d.hair) in BuildCache(docs, bodyDir, hairDir).value
    ensures BuildCache(docs, bodyDir, hairDir).value[KeyFor(Hair, d.hair)].role == Hair
  {
    BuildCacheHasBodies(docs, bodyDir, hairDir);
    BuildCacheHasHairs(docs, bodyDir, hairDir);
  }

  /** Against a built cache a request fails only when the palette is empty. */
  lemma GenerateSucceeds(docs: map<string, Element>, bodyDir: string, hairDir: string,
                         palette: seq<ColourPair>, d: Draw, accessoryColour: string)
    requires BuildCache(docs, bodyDir, hairDir).Success?
    requires ValidDraw(d, |palette|)
    ensures Generate(BuildCache(docs, bodyDir, hairDir).value, palette, d, accessoryColour).Success? <==> |palette| > 0
    ensures |palette| == 0 ==> Generate(BuildCache(docs, bodyDir, hairDir).value, palette, d, accessoryColour) == Failure(EmptyPalette)
  {
    DrawnKeysCached(docs, bodyDir, hairDir, d, |palette|);
  }

  /** A successful request is the merge of the two coloured layers it drew. */
  lemma GenerateIsMerge(cache: Cache, palette: seq<ColourPair>, d: Draw, accessoryColour: string)
    requires ValidDraw(d, |palette|)
    requires Generate(cache, palette, d, accessoryColour).Success?
    ensures |palette| > 0 && KeyFor(Body, d.body) in cache && KeyFor(Hair, d.hair) in cache
    ensures cache[KeyFor(Body, d.body)].role == Body && cache[KeyFor(Hair, d.hair)].role == Hair
    ensures Generate(cache, palette, d, accessoryColour).value ==
      Merge(Colour(cache[KeyFor(Body, d.body)], palette[d.pair].skin, accessoryColour),
            Colour(cache[KeyFor(Hair, d.hair)], palette[d.pair].hair, accessoryColour))
  {
  }

  /** The body's positions below its root keep their places in a merge. */
  lemma BodyInMerge(cb: Element, ch: Element)
    ensures |Visits(Merge(cb, ch))| == |Visits(cb)| + |Visits(ch)| - 1
    ensures forall j :: 1 <= j < |Visits(cb)| ==> Visits(Merge(cb, ch))[j] == Visits(cb)[j]
  {
    MergeVisits(cb, ch);
  }

  /** The hair's positions below its root follow the body's in a merge. */
  lemma HairInMerge(cb: Element, ch: Element)
    ensures |Visits(Merge(cb, ch))| == |Visits(cb)| + |Visits(ch)| - 1
    ensures forall j :: 1 <= j < |Visits(ch)| ==> Visits(Merge(cb, ch))[|Visits(cb)| - 1 + j] == Visits(ch)[j]
  {
    MergeVisits(cb, ch);
    var hb, hh := Visits(cb), Visits(ch);
    var front := [ElemVisit(SvgTag, map[XmlnsAttr := SvgNamespace])] + hb[1..];
    assert Visits(Merge(cb, ch)) == front + hh[1..];
    assert |front| == |hb|;
    forall j | 1 <= j < |hh|
      ensures (front + hh[1..])[|hb| - 1 + j] == hh[j]
    {
      assert (front + hh[1..])[|front| + (j - 1)] == hh[1..][j - 1];
    }
  }

  /** A coloured layer's present slots carry their colours. */
  lemma SlotsFilled(e: Entry, mainColour: string, accessoryColour: string)
    requires ValidSlots(e.tree, e.role, e.slots)
    ensures |Visits(Colour(e, mainColour, accessoryColour))| == |Visits(e.tree)|
    ensures e.slots.main.Some? ==> FillOf(Visits(Colour(e, mainColour, accessoryColour))[e.slots.main.value]) == Some(mainColour)
    ensures e.slots.accessory.Some? ==> FillOf(Visits(Colour(e, mainColour, accessoryColour))[e.slots.accessory.value]) == Some(accessoryColour)
  {
    ColourOnlySlots(e, mainColour, accessoryColour);
  }

  /** The body part of a composed document: below the new root, the body's
      positions come first and in place; its slots carry the skin and
      accessory colours and every other body position is as cached. */
  lemma GenerateColoursBody(cache: Cache, palette: seq<ColourPair>, d: Draw, accessoryColour: string)
    requires ValidDraw(d, |palette|)
    requires AllValid(cache)
    requires Generate(cache, palette, d, accessoryColour).Success?
    ensures var out := Generate(cache, palette, d, accessoryColour).value;
      var b := cache[KeyFor(Body, d.body)];
      && |Visits(out)| >= |Visits(b.tree)|
      && (forall j :: 1 <= j < |Visits(b.tree)| && b.slots.main != Some(j) && b.slots.accessory != Some(j) ==> Visits(out)[j] == Visits(b.tree)[j])
      && (b.slots.main.Some? && b.slots.main.value >= 1 ==> FillOf(Visits(out)[b.slots.main.value]) == Some(palette[d.pair].skin))
      && (b.slots.accessory.Some? && b.slots.accessory.value >= 1 ==> FillOf(Visits(out)[b.slots.accessory.value]) == Some(accessoryColour))
  {
    GenerateIsMerge(cache, palette, d, accessoryColour);
    var colours := palette[d.pair];
    var b := cache[KeyFor(Body, d.body)];
    var h := cache[KeyFor(Hair, d.hair)];
    assert ValidSlots(b.tree, b.role, b.slots);
    var cb := Colour(b, colours.skin, accessoryColour);
    var ch := Colour(h, colours.hair, accessoryColour);
    ColourOnlySlots(b, colours.skin, accessoryColour);
    SlotsFilled(b, colours.skin, accessoryColour);
    BodyInMerge(cb, ch);
  }

  /** The hair part of a composed document: the hair's positions follow the
      body's, in order; its slots carry the hair and accessory colours, the
      hair colour coming from the same palette pair as the skin colour, and
      every other hair position is as cached. */
  lemma GenerateColoursHair(cache: Cache, palette: seq<ColourPair>, d: Draw, accessoryColour: string)
    requires ValidDraw(d, |palette|)
    requires AllValid(cache)
    requires Generate(cache, palette, d, accessoryColour).Success?
    ensures var out := Generate(cache, palette, d, accessoryColour).value;
      var b := cache[KeyFor(Body, d.body)];
      var h := cache[KeyFor(Hair, d.hair)];
      var off := |Visits(b.tree)| - 1;
      && |Visits(out)| == |Visits(b.tree)| + |Visits(h.tree)| - 1
      && (forall j :: 1 <= j < |Visits(h.tree)| && h.slots.main != Some(j) && h.slots.accessory != Some(j) ==> Visits(out)[off + j] == Visits(h.tree)[j])
      && (h.slots.main.Some? && h.slots.main.value >= 1 ==> FillOf(Visits(out)[off + h.slots.main.value]) == Some(palette[d.pair].hair))
      && (h.slots.accessory.Some? && h.slots.accessory.value >= 1 ==> FillOf(Visits(out)[off + h.slots.accessory.value]) == Some(accessoryColour))
  {
    GenerateIsMerge(cache, palette, d, accessoryColour);
    var colours := palette[d.pair];
    var b := cache[KeyFor(Body, d.body)];
    var h := cache[KeyFor(Hair, d.hair)];
    assert ValidSlots(b.tree, b.role, b.slots);
    assert ValidSlots(h.tree, h.role, h.slots);
    var cb := Colour(b, colours.skin, accessoryColour);
    var ch := Colour(h, colours.hair, accessoryColour);
    SlotsFilled(b, colours.skin, accessoryColour);
    ColourOnlySlots(h, colours.hair, accessoryColour);
    SlotsFilled(h, colours.hair, accessoryColour);
    HairInMerge(cb, ch);
  }
}
