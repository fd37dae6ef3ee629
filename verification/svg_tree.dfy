/**
 An immutable model of a parsed SVG document and of the two things the
 server does to it: iterate over every node in document (pre-)order, and
 set the `fill` attribute of one element.

 Parsing and serialisation are left abstract: a document is its tree.
 */
module SvgTree {
  import opened Wrappers

  /** A child of an element: another element, or a comment node. */
  datatype Node = Elem(element: Element) | Comment(text: string)

  /** An element: its tag, its attribute map and its children in document order. */
  datatype Element = Element(tag: string, attrs: map<string, string>, children: seq<Node>)

  /** What pre-order iteration yields at one position: an element's own tag
      and attributes (without its children), or a comment's text. */
  datatype Visit = ElemVisit(tag: string, attrs: map<string, string>) | CommentVisit(text: string)

  const IdAttr := "id"
  const FillAttr := "fill"

  /** The `id` attribute at a position, if any; comments carry no attributes. */
  function IdOf(h: Visit): Option<string>
  {
    match h
    case ElemVisit(_, attrs) => if IdAttr in attrs then Some(attrs[IdAttr]) else None
    case CommentVisit(_) => None
  }

  /** The `fill` attribute at a position, if any. */
  function FillOf(h: Visit): Option<string>
  {
    match h
    case ElemVisit(_, attrs) => if FillAttr in attrs then Some(attrs[FillAttr]) else None
    case CommentVisit(_) => None
  }

  /** A position after its `fill` attribute is set; a comment is left alone. */
  function Filled(h: Visit, colour: string): Visit
  {
    match h
    case ElemVisit(tag, attrs) => ElemVisit(tag, attrs[FillAttr := colour])
    case CommentVisit(_) => h
  }

  /** The nodes of a document in the order `root.iter()` visits them:
      the element itself, then each child's subtree in order. */
  function Visits(e: Element): seq<Visit>
    decreases e
  {
    [ElemVisit(e.tag, e.attrs)] + ForestVisits(e.children)
  }

  function ForestVisits(ns: seq<Node>): seq<Visit>
    decreases ns
  {
    if |ns| == 0 then [] else NodeVisits(ns[0]) + ForestVisits(ns[1..])
  }

  function NodeVisits(n: Node): seq<Visit>
    decreases n
  {
    match n
    case Elem(e) => Visits(e)
    case Comment(t) => [CommentVisit(t)]
  }

  /** The tree with every attribute map emptied: what is left when the
      attributes are ignored (the tags, comments and nesting). */
  function Skeleton(e: Element): Element
    decreases e
  {
    Element(e.tag, map[], ForestSkeleton(e.children))
  }

  function ForestSkeleton(ns: seq<Node>): seq<Node>
    decreases ns
  {
    if |ns| == 0 then [] else [NodeSkeleton(ns[0])] + ForestSkeleton(ns[1..])
  }

  function NodeSkeleton(n: Node): Node
    decreases n
  {
    match n
    case Elem(e) => Elem(Skeleton(e))
    case Comment(_) => n
  }

  /** Sets `fill` on the element at pre-order position `i` (the source's
      `elem.attrib['fill'] = colour` on an element found by iteration);
      an index past the end changes nothing. */
  function SetFill(e: Element, i: nat, colour: string): Element
    decreases e
  {
    if i == 0 then e.(attrs := e.attrs[FillAttr := colour])
    else e.(children := SetFillInForest(e.children, i - 1, colour))
  }

  function SetFillInForest(ns: seq<Node>, i: nat, colour: string): seq<Node>
    decreases ns
  {
    if |ns| == 0 then ns
    else if i < |NodeVisits(ns[0])| then [SetFillInNode(ns[0], i, colour)] + ns[1..]
    else [ns[0]] + SetFillInForest(ns[1..], i - |NodeVisits(ns[0])|, colour)
  }

  function SetFillInNode(n: Node, i: nat, colour: string): Node
    decreases n
  {
    match n
    case Elem(e) => Elem(SetFill(e, i, colour))
    case Comment(_) => n
  }

  /** The intended effect of `SetFill` on the pre-order view. */
  function FillVisitAt(hs: seq<Visit>, i: nat, colour: string): seq<Visit>
  {
    if i < |hs| then hs[i := Filled(hs[i], colour)] else hs
  }

  /** Writing one position of a concatenation writes into the part that
      holds it. */
  lemma FillVisitAtAppend(a: seq<Visit>, b: seq<Visit>, i: nat, colour: string)
    ensures i < |a| ==> FillVisitAt(a + b, i, colour) == FillVisitAt(a, i, colour) + b
    ensures |a| <= i ==> FillVisitAt(a + b, i, colour) == a + FillVisitAt(b, i - |a|, colour)
  {
  }

  /** Pre-order iteration distributes over concatenated child lists. */
  lemma {:induction false} ForestVisitsAppend(a: seq<Node>, b: seq<Node>)
    ensures ForestVisits(a + b) == ForestVisits(a) + ForestVisits(b)
    decreases |a|
  {
    if |a| == 0 {
      assert a + b == b;
    } else {
      assert (a + b)[0] == a[0];
      assert (a + b)[1..] == a[1..] + b;
      ForestVisitsAppend(a[1..], b);
    }
  }

  /** Setting `fill` at position `i` changes exactly position `i` of the
      pre-order view, and only its `fill` attribute. */
  lemma {:induction false} SetFillVisits(e: Element, i: nat, colour: string)
    ensures Visits(SetFill(e, i, colour)) == FillVisitAt(Visits(e), i, colour)
    decreases e
  {
    var hd := ElemVisit(e.tag, e.attrs);
    if i == 0 {
      assert Visits(SetFill(e, i, colour))
          == [ElemVisit(e.tag, e.attrs[FillAttr := colour])] + ForestVisits(e.children);
    } else {
      SetFillInForestVisits(e.children, i - 1, colour);
      FillVisitAtAppend([hd], ForestVisits(e.children), i, colour);
    }
  }

  lemma {:induction false} SetFillInForestVisits(ns: seq<Node>, i: nat, colour: string)
    ensures ForestVisits(SetFillInForest(ns, i, colour)) == FillVisitAt(ForestVisits(ns), i, colour)
    decreases ns
  {
    if |ns| != 0 {
      var r := SetFillInForest(ns, i, colour);
      var k := |NodeVisits(ns[0])|;
      if i < k {
        assert r[0] == SetFillInNode(ns[0], i, colour) && r[1..] == ns[1..];
        SetFillInNodeVisits(ns[0], i, colour);
        FillVisitAtAppend(NodeVisits(ns[0]), ForestVisits(ns[1..]), i, colour);
      } else {
        assert r[0] == ns[0] && r[1..] == SetFillInForest(ns[1..], i - k, colour);
        SetFillInForestVisits(ns[1..], i - k, colour);
        FillVisitAtAppend(NodeVisits(ns[0]), ForestVisits(ns[1..]), i, colour);
      }
    }
  }

  lemma {:induction false} SetFillInNodeVisits(n: Node, i: nat, colour: string)
    ensures NodeVisits(SetFillInNode(n, i, colour)) == FillVisitAt(NodeVisits(n), i, colour)
    decreases n
  {
    match n
    case Elem(e) => SetFillVisits(e, i, colour);
    case Comment(t) =>
  }

  /** Setting `fill` never changes the shape of the tree: tags, comments
      and nesting are all kept. */
  lemma {:induction false} SetFillSkeleton(e: Element, i: nat, colour: string)
    ensures Skeleton(SetFill(e, i, colour)) == Skeleton(e)
    decreases e
  {
    if i != 0 {
      SetFillInForestSkeleton(e.children, i - 1, colour);
    }
  }

  lemma {:induction false} SetFillInForestSkeleton(ns: seq<Node>, i: nat, colour: string)
    ensures ForestSkeleton(SetFillInForest(ns, i, colour)) == ForestSkeleton(ns)
    decreases ns
  {
    if |ns| != 0 {
      var r := SetFillInForest(ns, i, colour);
      var k := |NodeVisits(ns[0])|;
      if i < k {
        assert r[0] == SetFillInNode(ns[0], i, colour) && r[1..] == ns[1..];
        SetFillInNodeSkeleton(ns[0], i, colour);
      } else {
        assert r[0] == ns[0] && r[1..] == SetFillInForest(ns[1..], i - k, colour);
        SetFillInForestSkeleton(ns[1..], i - k, colour);
      }
    }
  }

  lemma {:induction false} SetFillInNodeSkeleton(n: Node, i: nat, colour: string)
    ensures NodeSkeleton(SetFillInNode(n, i, colour)) == NodeSkeleton(n)
    decreases n
  {
    match n
    case Elem(e) => SetFillSkeleton(e, i, colour);
    case Comment(t) =>
  }

  /** The whole effect of `SetFill`, stated position by position: the
      document keeps its shape and every position but `i` is unchanged;
      position `i` gets the new `fill` and keeps its tag and other
      attributes. */
  lemma SetFillOnlyTarget(e: Element, i: nat, colour: string)
    ensures Skeleton(SetFill(e, i, colour)) == Skeleton(e)
    ensures |Visits(SetFill(e, i, colour))| == |Visits(e)|
    ensures forall j :: 0 <= j < |Visits(e)| && j != i ==> Visits(SetFill(e, i, colour))[j] == Visits(e)[j]
    ensures i < |Visits(e)| ==> Visits(SetFill(e, i, colour))[i] == Filled(Visits(e)[i], colour)
  {
    SetFillVisits(e, i, colour);
    SetFillSkeleton(e, i, colour);
  }
}
