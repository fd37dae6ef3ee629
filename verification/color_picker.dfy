/**
 The pure rules of the client's colour picker: the list of recently used
 colours, which element a part name paints, and which accessory is shown.
 The React state and DOM plumbing around them are not part of this model.
 */
module ColorPicker {

  /** The picker keeps at most this many recent colours (`slice(0, 5)`). */
  const MaxRecent: nat := 5

  function Min(a: nat, b: nat): nat
  {
    if a <= b then a else b
  }

  /** No colour occurs twice. */
  predicate Distinct(s: seq<string>)
  {
    forall i, j :: 0 <= i < j < |s| ==> s[i] != s[j]
  }

  /** What "Set Color" does to the recent colours: a colour already listed
      leaves the list alone; a new one goes in front and the oldest entry
      beyond the fifth falls off. */
  function UpdateRecent(recent: seq<string>, colour: string): (r: seq<string>)
    ensures colour in r
    ensures colour in recent ==> r == recent
    ensures colour !in recent ==>
      && |r| == Min(MaxRecent, |recent| + 1)
      && r[0] == colour
      && r[1..] == recent[..Min(MaxRecent - 1, |recent|)]
    ensures |recent| <= MaxRecent ==> |r| <= MaxRecent
  {
    if colour in recent then recent
    else
      var r := ([colour] + recent)[..Min(MaxRecent, |recent| + 1)];
      assert r[0] == colour;
      r
  }

  /** The update brings in only the chosen colour, evicts nothing while the
      list has room, and evicts at most the last entry of a full list. */
  lemma UpdateRecentContents(recent: seq<string>, colour: string)
    requires |recent| <= MaxRecent
    ensures forall c :: c in UpdateRecent(recent, colour) ==> c == colour || c in recent
    ensures |recent| < MaxRecent ==> forall c :: c in recent ==> c in UpdateRecent(recent, colour)
    ensures forall i :: 0 <= i < |recent| - 1 ==> recent[i] in UpdateRecent(recent, colour)
  {
    var r := UpdateRecent(recent, colour);
    if colour !in recent {
      forall i | 0 <= i < |recent| && i < MaxRecent - 1
        ensures recent[i] in r
      {
        assert r[i + 1] == recent[i];
      }
    }
  }

  /** A duplicate-free list stays duplicate-free. */
  lemma UpdateRecentKeepsDistinct(recent: seq<string>, colour: string)
    requires Distinct(recent)
    ensures Distinct(UpdateRecent(recent, colour))
  {
    var r := UpdateRecent(recent, colour);
    if colour !in recent {
      forall i, j | 0 <= i < j < |r|
        ensures r[i] != r[j]
      {
        assert r[j] == recent[j - 1];
        if i > 0 {
          assert r[i] == recent[i - 1];
        }
      }
    }
  }

  /** The recent list after setting the colours `cs` in order, starting from
      the empty list the component starts with. */
  function Replay(cs: seq<string>): seq<string>
    decreases |cs|
  {
    if |cs| == 0 then [] else UpdateRecent(Replay(cs[..|cs| - 1]), cs[|cs| - 1])
  }

  /** Whatever colours are set, the list stays within five entries, never
      lists a colour twice, lists only colours that were set, and lists the
      most recent one. */
  lemma {:induction false} ReplayInvariant(cs: seq<string>)
    ensures |Replay(cs)| <= MaxRecent
    ensures Distinct(Replay(cs))
    ensures forall c :: c in Replay(cs) ==> c in cs
    ensures |cs| > 0 ==> cs[|cs| - 1] in Replay(cs)
    decreases |cs|
  {
    if |cs| != 0 {
      var front := cs[..|cs| - 1];
      ReplayInvariant(front);
      UpdateRecentContents(Replay(front), cs[|cs| - 1]);
      UpdateRecentKeepsDistinct(Replay(front), cs[|cs| - 1]);
      assert forall c :: c in front ==> c in cs;
    }
  }

  /** The part names the selector offers. */
  const SuitPart := "Suit"
  const LapelsPart := "Lapels"
  const ShirtPart := "Shirt"

  /** The ids of the elements those parts paint. */
  const SuitId := "Suit"
  const LapelId := "Lapel"
  const ShirtId := "Shirt"

  /** The element a colour change previews on: the switch of the colour
      change handler, whose default paints the element named like the part. */
  function PartElementId(part: string): (id: string)
    ensures part == LapelsPart ==> id == LapelId
    ensures part != LapelsPart ==> id == part
  {
    if part == SuitPart then SuitId
    else if part == LapelsPart then LapelId
    else if part == ShirtPart then ShirtId
    else part
  }

  /** Only `Lapel` and `Lapels` paint the same element; the three offered
      parts paint three different elements. */
  lemma PartElementIdCollisions(a: string, b: string)
    ensures PartElementId(a) == PartElementId(b) <==>
      a == b || (a == LapelId && b == LapelsPart) || (a == LapelsPart && b == LapelId)
    ensures PartElementId(SuitPart) != PartElementId(LapelsPart)
    ensures PartElementId(LapelsPart) != PartElementId(ShirtPart)
    ensures PartElementId(SuitPart) != PartElementId(ShirtPart)
  {
  }

  /** Where "Set Color" stores the chosen colour: in the suit, lapel or
      shirt state, which an effect then applies, or straight on an element. */
  datatype Target = SuitColour | LapelColour | ShirtColour | Direct(id: string)

  /** The switch of the "Set Color" handler. */
  function SetColorTarget(part: string): Target
  {
    if part == SuitPart then SuitColour
    else if part == LapelsPart then LapelColour
    else if part == ShirtPart then ShirtColour
    else Direct(part)
  }

  /** The element each target ends up painting: the effects write the
      suit, lapel and shirt states to their elements. */
  function TargetElementId(t: Target): string
  {
    match t
    case SuitColour => SuitId
    case LapelColour => LapelId
    case ShirtColour => ShirtId
    case Direct(id) => id
  }

  /** Committing a colour paints the element the preview painted. */
  lemma SetColorMatchesPreview(part: string)
    ensures TargetElementId(SetColorTarget(part)) == PartElementId(part)
    ensures SetColorTarget(part).Direct? <==> part != SuitPart && part != LapelsPart && part != ShirtPart
  {
  }

  /** The accessory ids the visibility effect looks up. */
  const TieId := "Tie"
  const BowtieId := "Bowtie"

  datatype Display = Inline | Hidden

  function Show(b: bool): Display
  {
    if b then Inline else Hidden
  }

  /** The visibility effect: of the two accessory elements the document
      holds (`present` is the set of ids it carries), the chosen one is
      shown and the other hidden; an absent element is left alone. */
  function AccessoryDisplay(present: set<string>, accessory: string): (r: map<string, Display>)
    ensures r.Keys == present * {TieId, BowtieId}
    ensures TieId in r ==> (r[TieId] == Inline <==> accessory == TieId)
    ensures BowtieId in r ==> (r[BowtieId] == Inline <==> accessory == BowtieId)
  {
    var tie := if TieId in present then map[TieId := Show(accessory == TieId)] else map[];
    var bowtie := if BowtieId in present then map[BowtieId := Show(accessory == BowtieId)] else map[];
    tie + bowtie
  }

  /** The two accessories are never shown together, and with both present
      exactly one is shown whenever the choice is one of them. */
  lemma AtMostOneAccessoryShown(present: set<string>, accessory: string)
    ensures var r := AccessoryDisplay(present, accessory);
      !(TieId in r && BowtieId in r && r[TieId] == Inline && r[BowtieId] == Inline)
    ensures var r := AccessoryDisplay(present, accessory);
      TieId in present && BowtieId in present && (accessory == TieId || accessory == BowtieId) ==>
        (r[TieId] == Inline) != (r[BowtieId] == Inline)
  {
    var r := AccessoryDisplay(present, accessory);
    assert TieId in present ==> TieId in r;
    assert BowtieId in present ==> BowtieId in r;
  }
}
