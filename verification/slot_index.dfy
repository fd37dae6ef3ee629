/**
 Slot discovery as done when the server builds its cache: one pass over a
 document in pre-order that remembers, for each recognised `id`, the LAST
 element carrying it. A slot is remembered as its pre-order position, the
 position `SetFill` later writes to.
 */
module SlotIndex {
  import opened Wrappers
  import opened SvgTree

  /** The two kinds of layer a headshot is composed of. */
  datatype Role = Body | Hair

  /** The id of a layer's main colourable element: the skin of a body,
      the hair of a hair layer. */
  function MainId(role: Role): string
  {
    match role
    case Body => "skin"
    case Hair => "hair"
  }

  /** The file-name prefix of a role's documents, and of their cache keys. */
  function Prefix(role: Role): string
  {
    match role
    case Body => "Body"
    case Hair => "Hair"
  }

  const AccessoryId := "accessory"

  /** The slots found so far: pre-order positions, `None` while unseen. */
  datatype Slots = Slots(main: Option<nat>, accessory: Option<nat>)

  /** One iteration of the discovery loop: a recognised id overwrites its
      slot, any other position leaves the record alone. */
  function Step(s: Slots, role: Role, i: nat, h: Visit): Slots
  {
    if IdOf(h) == Some(MainId(role)) then s.(main := Some(i))
    else if IdOf(h) == Some(AccessoryId) then s.(accessory := Some(i))
    else s
  }

  /** `r` is the last position in `hs` whose id is `id`, or `None` when no
      position has that id. */
  ghost predicate IsLastWithId(hs: seq<Visit>, id: string, r: Option<nat>)
  {
    match r
    case None => forall i :: 0 <= i < |hs| ==> IdOf(hs[i]) != Some(id)
    case Some(k) =>
      && k < |hs|
      && IdOf(hs[k]) == Some(id)
      && forall j :: k < j < |hs| ==> IdOf(hs[j]) != Some(id)
  }

  /** The discovery loop run over the positions `hs`, in order. */
  function Scan(hs: seq<Visit>, role: Role): Slots
    decreases |hs|
  {
    if |hs| == 0 then Slots(None, None)
    else Step(Scan(hs[..|hs| - 1], role), role, |hs| - 1, hs[|hs| - 1])
  }

  /** Each slot the loop records is the last position carrying its id, and
      a slot stays `None` exactly when no position carries its id. */
  lemma {:induction false} ScanFindsLast(hs: seq<Visit>, role: Role)
    ensures IsLastWithId(hs, MainId(role), Scan(hs, role).main)
    ensures IsLastWithId(hs, AccessoryId, Scan(hs, role).accessory)
  {
    ScanFindsLastMain(hs, role);
    ScanFindsLastAccessory(hs, role);
  }

  lemma {:induction false} ScanFindsLastMain(hs: seq<Visit>, role: Role)
    ensures IsLastWithId(hs, MainId(role), Scan(hs, role).main)
    decreases |hs|
  {
    if |hs| != 0 {
      var front, h := hs[..|hs| - 1], hs[|hs| - 1];
      ScanFindsLastMain(front, role);
      assert forall i :: 0 <= i < |front| ==> front[i] == hs[i];
      if IdOf(h) == Some(MainId(role)) {
        assert Scan(hs, role).main == Some(|hs| - 1);
      } else {
        assert Scan(hs, role).main == Scan(front, role).main;
      }
    }
  }

  lemma {:induction false} ScanFindsLastAccessory(hs: seq<Visit>, role: Role)
    ensures IsLastWithId(hs, AccessoryId, Scan(hs, role).accessory)
    decreases |hs|
  {
    if |hs| != 0 {
      var front, h := hs[..|hs| - 1], hs[|hs| - 1];
      ScanFindsLastAccessory(front, role);
      assert forall i :: 0 <= i < |front| ==> front[i] == hs[i];
      if IdOf(h) == Some(AccessoryId) {
        assert MainId(role) != AccessoryId;
        assert Scan(hs, role).accessory == Some(|hs| - 1);
      } else {
        assert Scan(hs, role).accessory == Scan(front, role).accessory;
      }
    }
  }

  /** Positions whose id is not one of the role's slot ids leave the record
      unchanged, however many of them follow. */
  lemma {:induction false} ScanIgnoresUnrecognised(hs: seq<Visit>, more: seq<Visit>, role: Role)
    requires forall j :: 0 <= j < |more| ==> IdOf(more[j]) != Some(MainId(role)) && IdOf(more[j]) != Some(AccessoryId)
    ensures Scan(hs + more, role) == Scan(hs, role)
    decreases |more|
  {
    if |more| != 0 {
      var front := more[..|more| - 1];
      assert (hs + more)[..|hs + more| - 1] == hs + front;
      assert (hs + more)[|hs + more| - 1] == more[|more| - 1];
      assert forall j :: 0 <= j < |front| ==> front[j] == more[j];
      ScanIgnoresUnrecognised(hs, front, role);
      assert Scan(hs + more, role) == Step(Scan(hs + front, role), role, |hs + more| - 1, more[|more| - 1]);
    } else {
      assert hs + more == hs;
    }
  }

  /** The slots of a parsed document, found in `root.iter()` order. */
  function IndexLayer(root: Element, role: Role): Slots
  {
    Scan(Visits(root), role)
  }

  /** A slot record fits a document: each slot present names a position of
      the document carrying that slot's id. Distinct ids make the two
      positions distinct. */
  ghost predicate ValidSlots(tree: Element, role: Role, s: Slots)
  {
    && (s.main.Some? ==> s.main.value < |Visits(tree)| && IdOf(Visits(tree)[s.main.value]) == Some(MainId(role)))
    && (s.accessory.Some? ==> s.accessory.value < |Visits(tree)| && IdOf(Visits(tree)[s.accessory.value]) == Some(AccessoryId))
  }

  /** What discovery promises about a document: a slot is present exactly
      when some node carries its id, it then names the last such node in
      pre-order, and the record fits the document. */
  lemma IndexLayerFindsSlots(root: Element, role: Role)
    ensures ValidSlots(root, role, IndexLayer(root, role))
    ensures IndexLayer(root, role).main.Some? <==> exists i :: 0 <= i < |Visits(root)| && IdOf(Visits(root)[i]) == Some(MainId(role))
    ensures IndexLayer(root, role).accessory.Some? <==> exists i :: 0 <= i < |Visits(root)| && IdOf(Visits(root)[i]) == Some(AccessoryId)
    ensures IsLastWithId(Visits(root), MainId(role), IndexLayer(root, role).main)
    ensures IsLastWithId(Visits(root), AccessoryId, IndexLayer(root, role).accessory)
  {
    var hs, s := Visits(root), IndexLayer(root, role);
    ScanFindsLast(hs, role);
    if s.main.Some? {
      assert IdOf(hs[s.main.value]) == Some(MainId(role));
    }
    if s.accessory.Some? {
      assert IdOf(hs[s.accessory.value]) == Some(AccessoryId);
    }
  }
}
