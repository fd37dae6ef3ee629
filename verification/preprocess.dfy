/**
 The standalone preprocessing step: every `Body*.svg` and `Hair*.svg` file
 of the two directories is parsed, its slot ids are recorded as strings,
 and the entry is stored under the file's stem.

 A directory listing is a sequence of directory entries, each name paired
 with its parsed document (`None` when parsing raises); the glob is the
 `Picked` filter applied to it.
 */
module Preprocess {
  import opened Wrappers
  import opened SvgTree
  import opened SlotIndex
  import opened Paths

  /** The id of a body's skin element in this version of the assets. */
  const HeadId := "Head"

  /** The ids of a body's accessory elements. */
  const BodyAccessoryIds := ["Tie", "TieKnot", "Bowtie"]

  /** The slot ids a body document was found to carry, in iteration order. */
  datatype BodyIds = BodyIds(skin: Option<string>, accessories: seq<string>)

  /** The slot ids a hair document was found to carry. */
  datatype HairIds = HairIds(hair: Option<string>, accessory: Option<string>)

  /** One iteration of the body loop: `Head` records the skin, an accessory
      id is appended, anything else is ignored. */
  function StepBodyIds(s: BodyIds, h: Visit): BodyIds
  {
    match IdOf(h)
    case None => s
    case Some(id) =>
      if id == HeadId then s.(skin := Some(id))
      else if id in BodyAccessoryIds then s.(accessories := s.accessories + [id])
      else s
  }

  function ScanBodyIds(hs: seq<Visit>): BodyIds
    decreases |hs|
  {
    if |hs| == 0 then BodyIds(None, [])
    else StepBodyIds(ScanBodyIds(hs[..|hs| - 1]), hs[|hs| - 1])
  }

  /** One iteration of the hair loop. */
  function StepHairIds(s: HairIds, h: Visit): HairIds
  {
    match IdOf(h)
    case None => s
    case Some(id) =>
      if id == MainId(Hair) then s.(hair := Some(id))
      else if id == AccessoryId then s.(accessory := Some(id))
      else s
  }

  function ScanHairIds(hs: seq<Visit>): HairIds
    decreases |hs|
  {
    if |hs| == 0 then HairIds(None, None)
    else StepHairIds(ScanHairIds(hs[..|hs| - 1]), hs[|hs| - 1])
  }

  /** The later of two optional findings. */
  function Later<T>(x: Option<T>, y: Option<T>): Option<T>
  {
    if y.Some? then y else x
  }

  /** Scanning two stretches one after the other: a later finding wins and
      accessory lists are concatenated. */
  lemma {:induction false} ScanBodyIdsAppend(a: seq<Visit>, b: seq<Visit>)
    ensures ScanBodyIds(a + b) ==
      BodyIds(Later(ScanBodyIds(a).skin, ScanBodyIds(b).skin), ScanBodyIds(a).accessories + ScanBodyIds(b).accessories)
    decreases |b|
  {
    if |b| == 0 {
      assert a + b == a;
    } else {
      var front := b[..|b| - 1];
      assert (a + b)[..|a + b| - 1] == a + front;
      assert (a + b)[|a + b| - 1] == b[|b| - 1];
      ScanBodyIdsAppend(a, front);
    }
  }

  lemma {:induction false} ScanHairIdsAppend(a: seq<Visit>, b: seq<Visit>)
    ensures ScanHairIds(a + b) ==
      HairIds(Later(ScanHairIds(a).hair, ScanHairIds(b).hair), Later(ScanHairIds(a).accessory, ScanHairIds(b).accessory))
    decreases |b|
  {
    if |b| == 0 {
      assert a + b == a;
    } else {
      var front := b[..|b| - 1];
      assert (a + b)[..|a + b| - 1] == a + front;
      assert (a + b)[|a + b| - 1] == b[|b| - 1];
      ScanHairIdsAppend(a, front);
    }
  }

  /** What the body loop records: `skin` is `"Head"` exactly when some node
      has id `Head`, and the accessory list holds exactly the accessory ids
      that occur, each one an accessory id. */
  lemma {:induction false} ScanBodyIdsFinds(hs: seq<Visit>)
    ensures ScanBodyIds(hs).skin == (if exists i :: 0 <= i < |hs| && IdOf(hs[i]) == Some(HeadId) then Some(HeadId) else None)
    ensures forall x :: x in ScanBodyIds(hs).accessories ==> x in BodyAccessoryIds
    ensures forall x :: x in ScanBodyIds(hs).accessories <==> x in BodyAccessoryIds && exists i :: 0 <= i < |hs| && IdOf(hs[i]) == Some(x)
    decreases |hs|
  {
    if |hs| != 0 {
      var front := hs[..|hs| - 1];
      ScanBodyIdsFinds(front);
      assert forall i :: 0 <= i < |front| ==> hs[i] == front[i];
      var last := |hs| - 1;
      forall x | x in BodyAccessoryIds && (exists i :: 0 <= i < |hs| && IdOf(hs[i]) == Some(x))
        ensures x in ScanBodyIds(hs).accessories
      {
        var i :| 0 <= i < |hs| && IdOf(hs[i]) == Some(x);
        if i < last {
          assert IdOf(front[i]) == Some(x);
        }
      }
      if exists i :: 0 <= i < |hs| && IdOf(hs[i]) == Some(HeadId) {
        var i :| 0 <= i < |hs| && IdOf(hs[i]) == Some(HeadId);
        if i < last {
          assert IdOf(front[i]) == Some(HeadId);
        }
      }
    }
  }

  /** The accessory list is a filter: one node contributes its id when that
      id is an accessory id and nothing otherwise, and lists of consecutive
      stretches are concatenated in order. */
  lemma AccessoriesAreFilter(a: seq<Visit>, h: Visit, b: seq<Visit>)
    ensures ScanBodyIds(a + [h] + b).accessories ==
      ScanBodyIds(a).accessories
      + (if IdOf(h).Some? && IdOf(h).value in BodyAccessoryIds then [IdOf(h).value] else [])
      + ScanBodyIds(b).accessories
  {
    ScanBodyIdsAppend(a, [h]);
    ScanBodyIdsAppend(a + [h], b);
    assert ScanBodyIds([h]) == StepBodyIds(ScanBodyIds([]), h) by {
      assert [h][..0] == [];
    }
  }

  /** What the hair loop records: each field holds its id exactly when some
      node carries it, and `None` otherwise. */
  lemma {:induction false} ScanHairIdsFinds(hs: seq<Visit>)
    ensures ScanHairIds(hs).hair == (if exists i :: 0 <= i < |hs| && IdOf(hs[i]) == Some(MainId(Hair)) then Some(MainId(Hair)) else None)
    ensures ScanHairIds(hs).accessory == (if exists i :: 0 <= i < |hs| && IdOf(hs[i]) == Some(AccessoryId) then Some(AccessoryId) else None)
    decreases |hs|
  {
    if |hs| != 0 {
      var front := hs[..|hs| - 1];
      ScanHairIdsFinds(front);
      assert forall i :: 0 <= i < |front| ==> hs[i] == front[i];
      var last := |hs| - 1;
      if exists i :: 0 <= i < |hs| && IdOf(hs[i]) == Some(MainId(Hair)) {
        var i :| 0 <= i < |hs| && IdOf(hs[i]) == Some(MainId(Hair));
        if i < last {
          assert IdOf(front[i]) == Some(MainId(Hair));
        }
      }
      if exists i :: 0 <= i < |hs| && IdOf(hs[i]) == Some(AccessoryId) {
        var i :| 0 <= i < |hs| && IdOf(hs[i]) == Some(AccessoryId);
        if i < last {
          assert IdOf(front[i]) == Some(AccessoryId);
        }
      }
    }
  }

  /** The document with a comment inserted as the root's first child. */
  function InjectComment(root: Element, text: string): Element
  {
    root.(children := [Comment(text)] + root.children)
  }

  /** A character XML 1.0 admits in text: no control character other than
      tab, line feed and carriage return, and neither U+FFFE nor U+FFFF. */
  predicate XmlChar(c: char)
  {
    && (c >= ' ' || c == '\t' || c == '\n' || c == '\r')
    && c != '\U{FFFE}' && c != '\U{FFFF}'
  }

  /** Every character of `s` is one XML admits. */
  predicate XmlText(s: string)
  {
    forall i :: 0 <= i < |s| ==> XmlChar(s[i])
  }

  /** Whether `s` holds two dashes in a row. */
  predicate HasDoubleDash(s: string)
  {
    exists i :: 0 <= i < |s| - 1 && s[i] == '-' && s[i + 1] == '-'
  }

  /** lxml refuses comment text holding a character XML does not admit (its
      string conversion raises before anything else), and then a comment
      containing `--` or ending in `-`. All three raise `ValueError`. */
  predicate CommentAllowed(text: string)
  {
    && XmlText(text)
    && !HasDoubleDash(text)
    && (|text| == 0 || text[|text| - 1] != '-')
  }

  function RoleWord(role: Role): string
  {
    match role
    case Body => "body"
    case Hair => "hair"
  }

  /** The fixed start of the provenance comment. */
  function CommentLead(role: Role): string
  {
    "This is a " + RoleWord(role) + " SVG from file: "
  }

  /** The provenance comment put into a document read from `name`. */
  function CommentText(role: Role, name: string): string
  {
    CommentLead(role) + name
  }

  lemma CommentLeadHasNoDash(role: Role)
    ensures |CommentLead(role)| > 0 && '-' !in CommentLead(role)
    ensures XmlText(CommentLead(role))
  {
    var lead := CommentLead(role);
    forall i | 0 <= i < |lead|
      ensures lead[i] != '-' && XmlChar(lead[i])
    {
    }
  }

  /** In iteration order the injected comment comes right after the root
      and before everything the document already held. */
  lemma InjectedVisits(root: Element, text: string)
    ensures Visits(InjectComment(root, text)) == [Visits(root)[0], CommentVisit(text)] + Visits(root)[1..]
  {
    var r := InjectComment(root, text);
    ForestVisitsAppend([Comment(text)], root.children);
    assert ForestVisits([Comment(text)]) == [CommentVisit(text)] by {
      assert [Comment(text)][1..] == [];
    }
  }

  /** The injected comment carries no id, so it never yields a slot: the
      records are those of the document as parsed. */
  lemma InjectedCommentYieldsNoSlot(root: Element, text: string)
    ensures ScanBodyIds(Visits(InjectComment(root, text))) == ScanBodyIds(Visits(root))
    ensures ScanHairIds(Visits(InjectComment(root, text))) == ScanHairIds(Visits(root))
  {
    InjectedVisits(root, text);
    var hs := Visits(root);
    var first, rest := [hs[0]], hs[1..];
    assert hs == first + rest;
    assert Visits(InjectComment(root, text)) == first + ([CommentVisit(text)] + rest);
    ScanBodyIdsAppend(first, [CommentVisit(text)] + rest);
    ScanBodyIdsAppend([CommentVisit(text)], rest);
    ScanBodyIdsAppend(first, rest);
    ScanHairIdsAppend(first, [CommentVisit(text)] + rest);
    ScanHairIdsAppend([CommentVisit(text)], rest);
    ScanHairIdsAppend(first, rest);
    assert [CommentVisit(text)][..0] == [];
  }

  /** One stored entry. `tree` is the document as parsed, before the
      comment is injected (the source stores its serialisation). */
  datatype Record =
    | BodyRecord(tree: Element, skin: Option<string>, accessories: seq<string>)
    | HairRecord(tree: Element, hair: Option<string>, accessory: Option<string>)

  /** One name of a directory listing, with the document parsed from it. */
  datatype DirEntry = DirEntry(name: string, doc: Option<Element>)

  /** A file the parser rejects, or one whose name makes the comment illegal. */
  datatype PreprocessError = Unparsable(path: string) | BadComment(path: string)

  /** The record of a role for a document as scanned after injection. */
  function RecordOf(role: Role, tree: Element, hs: seq<Visit>): Record
  {
    match role
    case Body =>
      var ids := ScanBodyIds(hs);
      BodyRecord(tree, ids.skin, ids.accessories)
    case Hair =>
      var ids := ScanHairIds(hs);
      HairRecord(tree, ids.hair, ids.accessory)
  }

  /** One loop iteration: parse, keep the tree, inject the comment, scan,
      and derive the key. */
  function IndexFile(dir: string, role: Role, e: DirEntry): Result<(string, Record), PreprocessError>
  {
    var path := Join(dir, e.name);
    match e.doc
    case None => Failure(Unparsable(path))
    case Some(root) =>
      var text := CommentText(role, Basename(path));
      if !CommentAllowed(text) then Failure(BadComment(path))
      else Success((Key(path), RecordOf(role, root, Visits(InjectComment(root, text)))))
  }

  /** The role a record was built for. */
  function RecordRole(r: Record): Role
  {
    match r
    case BodyRecord(_, _, _) => Body
    case HairRecord(_, _, _) => Hair
  }

  /** Whether the glob of a role picks a name up. */
  predicate Picked(role: Role, e: DirEntry)
  {
    GlobMatches(e.name, Prefix(role))
  }

  /** What one listed name contributes to the loop: nothing when the glob
      skips it, otherwise the outcome of processing it. */
  function Outcome(dir: string, role: Role, e: DirEntry): Option<Result<(string, Record), PreprocessError>>
  {
    if Picked(role, e) then Some(IndexFile(dir, role, e)) else None
  }

  function Outcomes(dir: string, role: Role, es: seq<DirEntry>): (r: seq<Option<Result<(string, Record), PreprocessError>>>)
    ensures |r| == |es| && forall i :: 0 <= i < |es| ==> r[i] == Outcome(dir, role, es[i])
  {
    seq(|es|, i requires 0 <= i < |es| => Outcome(dir, role, es[i]))
  }

  /** The loop body's effect on the map, outcome by outcome: a stored pair
      replaces any earlier entry under its key, and the first failure aborts. */
  function Store(outs: seq<Option<Result<(string, Record), PreprocessError>>>, base: map<string, Record>): Result<map<string, Record>, PreprocessError>
    decreases |outs|
  {
    if |outs| == 0 then Success(base)
    else
      match Store(outs[..|outs| - 1], base)
      case Failure(err) => Failure(err)
      case Success(c) =>
        match outs[|outs| - 1]
        case None => Success(c)
        case Some(Failure(err)) => Failure(err)
        case Some(Success(kr)) => Success(c[kr.0 := kr.1])
  }

  /** The loop over one directory: the glob's names in order, each picked
      file stored under its key (a later file with the same key replaces an
      earlier one), the first failure aborting. */
  function IndexFiles(dir: string, role: Role, es: seq<DirEntry>, base: map<string, Record>): Result<map<string, Record>, PreprocessError>
  {
    Store(Outcomes(dir, role, es), base)
  }

  /** The whole step: body files first, then hair files, into one map. */
  function PreprocessAll(bodyDir: string, bodies: seq<DirEntry>, hairDir: string, hairs: seq<DirEntry>): Result<map<string, Record>, PreprocessError>
  {
    match IndexFiles(bodyDir, Body, bodies, map[])
    case Failure(err) => Failure(err)
    case Success(c) => IndexFiles(hairDir, Hair, hairs, c)
  }

  /** The key a directory entry is stored under. */
  function FileKey(dir: string, e: DirEntry): string
  {
    Key(Join(dir, e.name))
  }

  /** The names a directory listing can hold contain no `/`. */
  predicate PlainNames(es: seq<DirEntry>)
  {
    forall i :: 0 <= i < |es| ==> '/' !in es[i].name
  }

  /** A picked file fails exactly when it does not parse, or when its
      name makes the comment illegal: a character XML does not admit, or
      a `--`. */
  lemma IndexFileFails(dir: string, role: Role, e: DirEntry)
    requires Picked(role, e) && '/' !in e.name
    ensures e.doc.None? ==> IndexFile(dir, role, e) == Failure(Unparsable(Join(dir, e.name)))
    ensures e.doc.Some? ==>
      (IndexFile(dir, role, e).Failure? <==> !XmlText(e.name) || HasDoubleDash(e.name))
    ensures e.doc.Some? && IndexFile(dir, role, e).Failure? ==> IndexFile(dir, role, e) == Failure(BadComment(Join(dir, e.name)))
    ensures IndexFile(dir, role, e).Failure? ==> IndexFile(dir, role, e).error.path == Join(dir, e.name)
  {
    BasenameOfJoin(dir, e.name);
    CommentLeadHasNoDash(role);
    assert e.name[|e.name| - 1] == SvgSuffix[3];
    CommentAllowedOfAppend(CommentLead(role), e.name);
  }

  /** A name the glob picks and the parser accepts can still be refused:
      a control character in it makes the comment illegal. */
  lemma ControlCharacterNameRejected(root: Element)
    ensures IndexFile("d", Body, DirEntry("Body\U{1}.svg", Some(root))) == Failure(BadComment("d/Body\U{1}.svg"))
  {
    var name := "Body\U{1}.svg";
    var e := DirEntry(name, Some(root));
    assert name[..4] == Prefix(Body) && name[5..] == SvgSuffix;
    assert Picked(Body, e);
    assert !XmlText(name) by {
      assert !XmlChar(name[4]);
    }
    assert Join("d", name) == "d/Body\U{1}.svg";
    IndexFileFails("d", Body, e);
  }

  /** A stored record keeps the document as parsed, has the role's shape
      and records the slots of the parsed document; its key is the name
      without `.svg`, so it starts with the role's prefix. */
  lemma IndexFileRecord(dir: string, role: Role, e: DirEntry)
    requires Picked(role, e) && '/' !in e.name
    requires IndexFile(dir, role, e).Success?
    ensures IndexFile(dir, role, e).value.0 == e.name[..|e.name| - |SvgSuffix|]
    ensures IndexFile(dir, role, e).value.0[..|Prefix(role)|] == Prefix(role)
    ensures IndexFile(dir, role, e).value.1 == RecordOf(role, e.doc.value, Visits(e.doc.value))
    ensures IndexFile(dir, role, e).value.1.tree == e.doc.value
    ensures RecordRole(IndexFile(dir, role, e).value.1) == role
  {
    var key := IndexFile(dir, role, e).value.0;
    IndexFileKey(dir, role, e);
    KeyOfGlobMatch(dir, e.name, Prefix(role));
    assert key == e.name[..|e.name| - |SvgSuffix|];
    IndexFileRecordShape(dir, role, e);
  }

  lemma IndexFileRecordShape(dir: string, role: Role, e: DirEntry)
    requires IndexFile(dir, role, e).Success?
    ensures IndexFile(dir, role, e).value.1 == RecordOf(role, e.doc.value, Visits(e.doc.value))
    ensures IndexFile(dir, role, e).value.1.tree == e.doc.value
    ensures RecordRole(IndexFile(dir, role, e).value.1) == role
  {
    var root := e.doc.value;
    var text := CommentText(role, Basename(Join(dir, e.name)));
    assert IndexFile(dir, role, e).value.1 == RecordOf(role, root, Visits(InjectComment(root, text)));
    InjectedCommentYieldsNoSlot(root, text);
  }

  /** With a lead free of dashes and of characters XML does not admit,
      the comment is illegal exactly when the name holds such a character
      or a `--`. */
  lemma CommentAllowedOfAppend(lead: string, name: string)
    requires |lead| > 0 && '-' !in lead && XmlText(lead)
    requires |name| > 0 && name[|name| - 1] != '-'
    ensures CommentAllowed(lead + name) <==> XmlText(name) && !HasDoubleDash(name)
  {
    var t := lead + name;
    CommentDashesOfAppend(lead, name);
    if XmlText(name) {
      forall i | 0 <= i < |t|
        ensures XmlChar(t[i])
      {
        if i >= |lead| {
          assert t[i] == name[i - |lead|];
        }
      }
    } else {
      var i :| 0 <= i < |name| && !XmlChar(name[i]);
      assert t[|lead| + i] == name[i];
    }
  }

  /** A dash-free lead cannot contribute to a `--`. */
  lemma CommentDashesOfAppend(lead: string, name: string)
    requires |lead| > 0 && '-' !in lead
    ensures HasDoubleDash(lead + name) <==> HasDoubleDash(name)
  {
    var t := lead + name;
    if HasDoubleDash(name) {
      var i :| 0 <= i < |name| - 1 && name[i] == '-' && name[i + 1] == '-';
      assert t[|lead| + i] == '-' && t[|lead| + i + 1] == '-';
    }
    if HasDoubleDash(t) {
      var i :| 0 <= i < |t| - 1 && t[i] == '-' && t[i + 1] == '-';
      if i < |lead| {
        assert t[i] == lead[i];
      } else {
        assert name[i - |lead|] == '-' && name[i - |lead| + 1] == '-';
      }
    }
  }

  /** The fold fails exactly when some outcome is a failure, and then
      with the first one. */
  lemma {:induction false} StoreSucceeds(outs: seq<Option<Result<(string, Record), PreprocessError>>>, base: map<string, Record>)
    ensures Store(outs, base).Success? <==> forall i :: 0 <= i < |outs| && outs[i].Some? ==> outs[i].value.Success?
    ensures Store(outs, base).Failure? ==>
      exists i :: 0 <= i < |outs| && outs[i] == Some(Failure(Store(outs, base).error))
        && forall j :: 0 <= j < i && outs[j].Some? ==> outs[j].value.Success?
    decreases |outs|
  {
    if |outs| != 0 {
      var front := outs[..|outs| - 1];
      StoreSucceeds(front, base);
      assert forall i :: 0 <= i < |front| ==> front[i] == outs[i];
    }
  }

  /** The last pair stored under a key is what the fold holds for it. */
  lemma {:induction false} StoreLastWins(outs: seq<Option<Result<(string, Record), PreprocessError>>>, base: map<string, Record>, i: nat)
    requires Store(outs, base).Success?
    requires i < |outs| && outs[i].Some? && outs[i].value.Success?
    requires forall j :: i < j < |outs| && outs[j].Some? && outs[j].value.Success? ==>
      outs[j].value.value.0 != outs[i].value.value.0
    ensures outs[i].value.value.0 in Store(outs, base).value
    ensures Store(outs, base).value[outs[i].value.value.0] == outs[i].value.value.1
    decreases |outs|
  {
    if i < |outs| - 1 {
      var front := outs[..|outs| - 1];
      assert forall j :: 0 <= j < |front| ==> front[j] == outs[j];
      StoreLastWins(front, base, i);
    }
  }

  /** The fold keeps an entry of `base` whose key no outcome stores. */
  lemma {:induction false} StoreKeeps(outs: seq<Option<Result<(string, Record), PreprocessError>>>, base: map<string, Record>, key: string)
    requires Store(outs, base).Success?
    requires key in base
    requires forall i :: 0 <= i < |outs| && outs[i].Some? && outs[i].value.Success? ==> outs[i].value.value.0 != key
    ensures key in Store(outs, base).value && Store(outs, base).value[key] == base[key]
    decreases |outs|
  {
    if |outs| != 0 {
      var front := outs[..|outs| - 1];
      assert forall j :: 0 <= j < |front| ==> front[j] == outs[j];
      StoreKeeps(front, base, key);
    }
  }

  /** The fold adds no key but those of the pairs it stores. */
  lemma {:induction false} StoreOnlyStored(outs: seq<Option<Result<(string, Record), PreprocessError>>>, base: map<string, Record>)
    requires Store(outs, base).Success?
    ensures forall key :: key in Store(outs, base).value ==>
      key in base || exists i :: 0 <= i < |outs| && outs[i].Some? && outs[i].value.Success? && key == outs[i].value.value.0
    decreases |outs|
  {
    if |outs| != 0 {
      var front := outs[..|outs| - 1];
      assert forall j :: 0 <= j < |front| ==> front[j] == outs[j];
      StoreOnlyStored(front, base);
    }
  }

  /** A key that starts with the prefix of its record's role. */
  predicate KeyedByRole(key: string, r: Record)
  {
    |key| >= |Prefix(RecordRole(r))| && key[..|Prefix(RecordRole(r))|] == Prefix(RecordRole(r))
  }

  /** Every key of a map starts with the prefix of its record's role. */
  ghost predicate PrefixKeyed(c: map<string, Record>)
  {
    forall key :: key in c ==> KeyedByRole(key, c[key])
  }

  /** Storing only role-prefixed pairs keeps a map role-prefixed. */
  lemma {:induction false} StorePrefixKeyed(outs: seq<Option<Result<(string, Record), PreprocessError>>>, base: map<string, Record>)
    requires PrefixKeyed(base)
    requires forall i :: 0 <= i < |outs| && outs[i].Some? && outs[i].value.Success? ==>
      KeyedByRole(outs[i].value.value.0, outs[i].value.value.1)
    requires Store(outs, base).Success?
    ensures PrefixKeyed(Store(outs, base).value)
    decreases |outs|
  {
    if |outs| != 0 {
      var front := outs[..|outs| - 1];
      assert forall j :: 0 <= j < |front| ==> front[j] == outs[j];
      StorePrefixKeyed(front, base);
    }
  }

  /** A processed file is stored under its `FileKey`. */
  lemma IndexFileKey(dir: string, role: Role, e: DirEntry)
    requires IndexFile(dir, role, e).Success?
    ensures IndexFile(dir, role, e).value.0 == FileKey(dir, e)
  {
  }

  /** A directory pass fails exactly when one of its picked files fails,
      and then with the error of the first such file. */
  lemma IndexFilesSucceeds(dir: string, role: Role, es: seq<DirEntry>, base: map<string, Record>)
    ensures IndexFiles(dir, role, es, base).Success? <==>
      forall i :: 0 <= i < |es| && Picked(role, es[i]) ==> IndexFile(dir, role, es[i]).Success?
    ensures IndexFiles(dir, role, es, base).Failure? ==>
      exists i :: 0 <= i < |es| && Picked(role, es[i])
        && IndexFile(dir, role, es[i]) == Failure(IndexFiles(dir, role, es, base).error)
        && forall j :: 0 <= j < i && Picked(role, es[j]) ==> IndexFile(dir, role, es[j]).Success?
  {
    var outs := Outcomes(dir, role, es);
    StoreSucceeds(outs, base);
    if Store(outs, base).Failure? {
      var i :| 0 <= i < |outs| && outs[i] == Some(Failure(Store(outs, base).error))
        && forall j :: 0 <= j < i && outs[j].Some? ==> outs[j].value.Success?;
      assert Picked(role, es[i]);
    }
  }

  /** The last picked file with a given key is the one stored under it. */
  lemma IndexFilesLastWins(dir: string, role: Role, es: seq<DirEntry>, base: map<string, Record>, i: nat)
    requires IndexFiles(dir, role, es, base).Success?
    requires i < |es| && Picked(role, es[i])
    requires forall j :: i < j < |es| && Picked(role, es[j]) ==> FileKey(dir, es[j]) != FileKey(dir, es[i])
    ensures IndexFile(dir, role, es[i]).Success?
    ensures FileKey(dir, es[i]) in IndexFiles(dir, role, es, base).value
    ensures IndexFiles(dir, role, es, base).value[FileKey(dir, es[i])] == IndexFile(dir, role, es[i]).value.1
  {
    var outs := Outcomes(dir, role, es);
    StoreSucceeds(outs, base);
    assert outs[i] == Some(IndexFile(dir, role, es[i]));
    var kr := IndexFile(dir, role, es[i]).value;
    IndexFileKey(dir, role, es[i]);
    forall j | i < j < |outs| && outs[j].Some? && outs[j].value.Success?
      ensures outs[j].value.value.0 != kr.0
    {
      assert outs[j] == Some(IndexFile(dir, role, es[j]));
      IndexFileKey(dir, role, es[j]);
    }
    StoreLastWins(outs, base, i);
    assert Store(outs, base).value[kr.0] == kr.1;
  }

  /** A pass keeps an entry of `base` whose key no picked file produces. */
  lemma IndexFilesKeeps(dir: string, role: Role, es: seq<DirEntry>, base: map<string, Record>, key: string)
    requires IndexFiles(dir, role, es, base).Success?
    requires key in base
    requires forall i :: 0 <= i < |es| && Picked(role, es[i]) ==> FileKey(dir, es[i]) != key
    ensures key in IndexFiles(dir, role, es, base).value
    ensures IndexFiles(dir, role, es, base).value[key] == base[key]
  {
    var outs := Outcomes(dir, role, es);
    forall i | 0 <= i < |outs| && outs[i].Some? && outs[i].value.Success?
      ensures outs[i].value.value.0 != key
    {
      IndexFileKey(dir, role, es[i]);
    }
    StoreKeeps(outs, base, key);
  }

  /** A pass adds no key but those of its picked files. */
  lemma IndexFilesOnlyPicked(dir: string, role: Role, es: seq<DirEntry>, base: map<string, Record>)
    requires IndexFiles(dir, role, es, base).Success?
    ensures forall key :: key in IndexFiles(dir, role, es, base).value ==>
      key in base || exists i :: 0 <= i < |es| && Picked(role, es[i]) && key == FileKey(dir, es[i])
  {
    var outs := Outcomes(dir, role, es);
    StoreOnlyStored(outs, base);
    forall key | key in Store(outs, base).value && key !in base
      ensures exists i :: 0 <= i < |es| && Picked(role, es[i]) && key == FileKey(dir, es[i])
    {
      var i :| 0 <= i < |outs| && outs[i].Some? && outs[i].value.Success? && key == outs[i].value.value.0;
      assert outs[i] == Outcome(dir, role, es[i]);
      assert Picked(role, es[i]) && outs[i].value == IndexFile(dir, role, es[i]);
      IndexFileKey(dir, role, es[i]);
    }
  }

  /** A pass over plain names only adds keys that start with its prefix,
      holding records of its role. */
  lemma IndexFilesPrefixKeyed(dir: string, role: Role, es: seq<DirEntry>, base: map<string, Record>)
    requires PlainNames(es)
    requires PrefixKeyed(base)
    requires IndexFiles(dir, role, es, base).Success?
    ensures PrefixKeyed(IndexFiles(dir, role, es, base).value)
  {
    var outs := Outcomes(dir, role, es);
    forall i | 0 <= i < |outs| && outs[i].Some? && outs[i].value.Success?
      ensures KeyedByRole(outs[i].value.value.0, outs[i].value.value.1)
    {
      IndexFileRecord(dir, role, es[i]);
    }
    StorePrefixKeyed(outs, base);
  }

  /** Preprocessing fails exactly when some picked body or hair file fails. */
  lemma PreprocessSucceeds(bodyDir: string, bodies: seq<DirEntry>, hairDir: string, hairs: seq<DirEntry>)
    ensures PreprocessAll(bodyDir, bodies, hairDir, hairs).Success? <==>
      && (forall i :: 0 <= i < |bodies| && Picked(Body, bodies[i]) ==> IndexFile(bodyDir, Body, bodies[i]).Success?)
      && (forall i :: 0 <= i < |hairs| && Picked(Hair, hairs[i]) ==> IndexFile(hairDir, Hair, hairs[i]).Success?)
  {
    IndexFilesSucceeds(bodyDir, Body, bodies, map[]);
    var b := IndexFiles(bodyDir, Body, bodies, map[]);
    if b.Success? {
      IndexFilesSucceeds(hairDir, Hair, hairs, b.value);
    }
  }

  /** Body keys start with `Body` and hold body records, hair keys start
      with `Hair` and hold hair records, and every key comes from a picked
      file. */
  lemma PreprocessKeysByRole(bodyDir: string, bodies: seq<DirEntry>, hairDir: string, hairs: seq<DirEntry>)
    requires PlainNames(bodies) && PlainNames(hairs)
    requires PreprocessAll(bodyDir, bodies, hairDir, hairs).Success?
    ensures PrefixKeyed(PreprocessAll(bodyDir, bodies, hairDir, hairs).value)
    ensures forall key :: key in PreprocessAll(bodyDir, bodies, hairDir, hairs).value ==>
      (exists i :: 0 <= i < |bodies| && Picked(Body, bodies[i]) && key == FileKey(bodyDir, bodies[i]))
      || (exists i :: 0 <= i < |hairs| && Picked(Hair, hairs[i]) && key == FileKey(hairDir, hairs[i]))
  {
    var b := IndexFiles(bodyDir, Body, bodies, map[]).value;
    IndexFilesPrefixKeyed(bodyDir, Body, bodies, map[]);
    IndexFilesPrefixKeyed(hairDir, Hair, hairs, b);
    IndexFilesOnlyPicked(bodyDir, Body, bodies, map[]);
    IndexFilesOnlyPicked(hairDir, Hair, hairs, b);
  }

  /** A picked hair file's key never equals a picked body file's key. */
  lemma PickedKeysDisjoint(bodyDir: string, b: DirEntry, hairDir: string, h: DirEntry)
    requires Picked(Body, b) && '/' !in b.name
    requires Picked(Hair, h) && '/' !in h.name
    ensures FileKey(bodyDir, b) != FileKey(hairDir, h)
  {
    KeyOfGlobMatch(bodyDir, b.name, Prefix(Body));
    KeyOfGlobMatch(hairDir, h.name, Prefix(Hair));
    assert FileKey(bodyDir, b)[0] != FileKey(hairDir, h)[0];
  }

  /** The last body file with a key is what preprocessing stores under it:
      the hair pass never overwrites a body key. */
  lemma PreprocessBodyLastWins(bodyDir: string, bodies: seq<DirEntry>, hairDir: string, hairs: seq<DirEntry>, i: nat)
    requires PlainNames(bodies) && PlainNames(hairs)
    requires PreprocessAll(bodyDir, bodies, hairDir, hairs).Success?
    requires i < |bodies| && Picked(Body, bodies[i])
    requires forall j :: i < j < |bodies| && Picked(Body, bodies[j]) ==> FileKey(bodyDir, bodies[j]) != FileKey(bodyDir, bodies[i])
    ensures IndexFile(bodyDir, Body, bodies[i]).Success?
    ensures FileKey(bodyDir, bodies[i]) in PreprocessAll(bodyDir, bodies, hairDir, hairs).value
    ensures PreprocessAll(bodyDir, bodies, hairDir, hairs).value[FileKey(bodyDir, bodies[i])] == IndexFile(bodyDir, Body, bodies[i]).value.1
  {
    var b := IndexFiles(bodyDir, Body, bodies, map[]).value;
    var key := FileKey(bodyDir, bodies[i]);
    IndexFilesLastWins(bodyDir, Body, bodies, map[], i);
    forall j | 0 <= j < |hairs| && Picked(Hair, hairs[j])
      ensures FileKey(hairDir, hairs[j]) != key
    {
      PickedKeysDisjoint(bodyDir, bodies[i], hairDir, hairs[j]);
    }
    IndexFilesKeeps(hairDir, Hair, hairs, b, key);
    assert PreprocessAll(bodyDir, bodies, hairDir, hairs) == IndexFiles(hairDir, Hair, hairs, b);
  }

  /** The last hair file with a key is what preprocessing stores under it. */
  lemma PreprocessHairLastWins(bodyDir: string, bodies: seq<DirEntry>, hairDir: string, hairs: seq<DirEntry>, i: nat)
    requires PreprocessAll(bodyDir, bodies, hairDir, hairs).Success?
    requires i < |hairs| && Picked(Hair, hairs[i])
    requires forall j :: i < j < |hairs| && Picked(Hair, hairs[j]) ==> FileKey(hairDir, hairs[j]) != FileKey(hairDir, hairs[i])
    ensures IndexFile(hairDir, Hair, hairs[i]).Success?
    ensures FileKey(hairDir, hairs[i]) in PreprocessAll(bodyDir, bodies, hairDir, hairs).value
    ensures PreprocessAll(bodyDir, bodies, hairDir, hairs).value[FileKey(hairDir, hairs[i])] == IndexFile(hairDir, Hair, hairs[i]).value.1
  {
    var b := IndexFiles(bodyDir, Body, bodies, map[]).value;
    IndexFilesLastWins(hairDir, Hair, hairs, b, i);
    assert PreprocessAll(bodyDir, bodies, hairDir, hairs) == IndexFiles(hairDir, Hair, hairs, b);
  }

  /** In a real directory names are distinct, so no picked body file is
      shadowed: each one's record is stored under its key. */
  lemma PreprocessStoresEveryBody(bodyDir: string, bodies: seq<DirEntry>, hairDir: string, hairs: seq<DirEntry>, i: nat)
    requires PlainNames(bodies) && PlainNames(hairs)
    requires forall j, k :: 0 <= j < k < |bodies| ==> bodies[j].name != bodies[k].name
    requires PreprocessAll(bodyDir, bodies, hairDir, hairs).Success?
    requires i < |bodies| && Picked(Body, bodies[i])
    ensures IndexFile(bodyDir, Body, bodies[i]).Success?
    ensures FileKey(bodyDir, bodies[i]) in PreprocessAll(bodyDir, bodies, hairDir, hairs).value
    ensures PreprocessAll(bodyDir, bodies, hairDir, hairs).value[FileKey(bodyDir, bodies[i])] == IndexFile(bodyDir, Body, bodies[i]).value.1
  {
    forall j | i < j < |bodies| && Picked(Body, bodies[j])
      ensures FileKey(bodyDir, bodies[j]) != FileKey(bodyDir, bodies[i])
    {
      if FileKey(bodyDir, bodies[j]) == FileKey(bodyDir, bodies[i]) {
        GlobKeysInjective(bodyDir, bodies[j].name, bodies[i].name, Prefix(Body));
      }
    }
    PreprocessBodyLastWins(bodyDir, bodies, hairDir, hairs, i);
  }
}
