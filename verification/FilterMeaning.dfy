/**
 What boolean XPath filters say about the tree: the nodes and namespace nodes that a filter keeps,
 read off from subtrees, children and parents, with no walk along the ancestors of a node.
 */
module FilterMeaning {
  import opened Dom
  import opened NodeSets
  import opened Namespaces
  import opened Spots
  import opened XPathParser
  import opened XPathEval
  import opened Pipeline

  /** An element with this name; an empty URI stands for any namespace. */
  predicate Named(n: Node, uri: string, local: string) {
    n.Elem? && n.elem.name.local == local && (uri == "" || n.elem.name.uri == Some(uri))
  }

  /** The namespace URI of a node, empty if it has none. */
  function NodeUri(n: Node): string {
    if n.Elem? && n.elem.name.uri.Some? then n.elem.name.uri.value else ""
  }

  /** The name of elements and text; comments and instructions are not compared. */
  predicate HasName(n: Node, name: string) {
    match n
    case Elem(_, e, _) =>
      if e.name.prefix.None? || e.name.prefix == Some("") then name == e.name.local
      else name == e.name.prefix.value + ":" + e.name.local
    case Text(_, _) => name == ""
    case _ => false
  }

  /** The node lies in the subtree of some element of that name. */
  ghost predicate Within(doc: Document, n: Node, uri: string, local: string) {
    exists a :: Occurs(a, doc.children) && Named(a, uri, local) && n.id in Ids(a)
  }

  /** Some element of that name has the node among its children. */
  ghost predicate HasParent(doc: Document, n: Node, uri: string, local: string) {
    exists a :: Occurs(a, doc.children) && Named(a, uri, local) && n in a.children
  }

  /** How many subtrees of the forest hold the node with that id. */
  function Enclosures(id: nat, ns: seq<Node>): nat
    decreases ns
  {
    if ns == [] then 0
    else
      (if id in Ids(ns[0]) then 1 + (if ns[0].Elem? then Enclosures(id, ns[0].children) else 0) else 0)
      + Enclosures(id, ns[1..])
  }

  /** The meaning of an expression at a node. */
  ghost predicate Means(x: Expr, doc: Document, n: Node) {
    match x
    case True => true
    case AncestorOrSelf(uri, local) => Within(doc, n, uri, local)
    case SelfText => n.Text?
    case HasAttributes => n.Elem? && |n.elem.attrs| > 0
    case SelfElement(uri, local) => Named(n, uri, local)
    case Not(inner) => !Means(inner, doc, n)
    case And(l, r) => Means(l, doc, n) && Means(r, doc, n)
    case Or(l, r) => Means(l, doc, n) || Means(r, doc, n)
    case NameEq(t) => HasName(n, t)
    case NameNeq(t) => !HasName(n, t)
    case NamespaceUriEq(t) => NodeUri(n) == t
    case NamespaceUriNeq(t) => NodeUri(n) != t
    case ParentIs(uri, local) => HasParent(doc, n, uri, local)
    case StringSelfEqNsUriParent => false
    case IsNotParentNsNode => true
    case IsParentNsNode => false
    case DepthOdd => (1 + Enclosures(n.id, doc.children)) % 2 == 1   // the document node counts
  }

  /** And at the namespace node of the element `n` that binds `prefix` to `uri`. */
  ghost predicate NsMeans(x: Expr, doc: Document, n: Node, prefix: string, uri: string) {
    match x
    case True => true
    case AncestorOrSelf(u, local) => Within(doc, n, u, local)
    case SelfText => false
    case HasAttributes => false
    case SelfElement(_, _) => false
    case Not(inner) => !NsMeans(inner, doc, n, prefix, uri)
    case And(l, r) => NsMeans(l, doc, n, prefix, uri) && NsMeans(r, doc, n, prefix, uri)
    case Or(l, r) => NsMeans(l, doc, n, prefix, uri) || NsMeans(r, doc, n, prefix, uri)
    case NameEq(t) => prefix == t
    case NameNeq(t) => prefix != t
    case NamespaceUriEq(t) => t == ""
    case NamespaceUriNeq(t) => t != ""
    case ParentIs(u, local) => Named(n, u, local)
    case StringSelfEqNsUriParent => uri == NodeUri(n)
    case IsNotParentNsNode => false
    case IsParentNsNode => true
    case DepthOdd => Enclosures(n.id, doc.children) % 2 == 1         // one deeper than the element
  }

  // ---------------------------------------------------------------- ancestors as subtrees

  function NameTest(uri: string, local: string): NodeTest {
    (id: nat, e: Option<Element>) => e.Some? && IsNamed(e.value, uri, local)
  }

  lemma NamedPasses(n: Node, uri: string, local: string)
    ensures Named(n, uri, local) <==> Passes(NameTest(uri, local), n)
  {
  }

  lemma NamedFrames(path: seq<Frame>, uri: string, local: string)
    ensures AnyNamed(path, uri, local) <==> AnyFrame(NameTest(uri, local), path)
  {
    hide IsNamed;
    var p := NameTest(uri, local);
    if AnyNamed(path, uri, local) {
      var i :| 0 <= i < |path| && IsNamed(path[i].elem, uri, local);
      assert p(path[i].id, Some(path[i].elem));
    }
    if AnyFrame(p, path) {
      var i :| 0 <= i < |path| && p(path[i].id, Some(path[i].elem));
      assert IsNamed(path[i].elem, uri, local);
    }
  }

  lemma PathIsWithin(doc: Document, s: Spot, uri: string, local: string)
    requires UniqueIds(doc.children) && s in AllSpots(doc)
    ensures AnyNamed(s.Path(), uri, local) <==> Within(doc, s.node, uri, local)
  {
    var p := NameTest(uri, local);
    NamedFrames(s.Path(), uri, local);
    PathPasses(p, s);
    hide Spots.Spots, Under, AnyNamed, Named, Passes, NameTest, Occurs, PassesUp;
    UpIsDown(p, doc.children, [], s);
    UnderMember(p, doc.children, [], s.node.id);
    if t :| t in AllSpots(doc) && Passes(p, t.node) && s.node.id in Ids(t.node) {
      OccursIsSpot(t.node, doc.children, []);
      NamedPasses(t.node, uri, local);
    }
    if a :| Occurs(a, doc.children) && Named(a, uri, local) && s.node.id in Ids(a) {
      OccursIsSpot(a, doc.children, []);
      NamedPasses(a, uri, local);
    }
  }

  lemma PathPasses(p: NodeTest, s: Spot)
    requires forall id :: !p(id, None)
    ensures AnyFrame(p, s.Path()) <==> PassesUp(p, s)
  {
    hide AnyFrame;
    if s.node.Elem? {
      AnyFrameCons(p, Frame(s.node.id, s.node.elem), s.above);
    }
  }

  lemma ParentIsAbove(doc: Document, s: Spot, uri: string, local: string)
    requires UniqueIds(doc.children) && s in AllSpots(doc)
    ensures s.above != [] && IsNamed(s.above[0].elem, uri, local) <==> HasParent(doc, s.node, uri, local)
  {
    hide Spots.Spots, Occurs;
    var parent := ParentSpot(doc.children, [], s);
    if s.above != [] && IsNamed(s.above[0].elem, uri, local) {
      OccursIsSpot(parent.node, doc.children, []);
      assert Named(parent.node, uri, local);
    }
    if a :| Occurs(a, doc.children) && Named(a, uri, local) && s.node in a.children {
      OccursIsSpot(a, doc.children, []);
      var t :| t in AllSpots(doc) && t.node == a;
      ChildSpot(doc.children, [], t, s.node);
      SpotsUnique(doc.children, [], s, Spot(s.node, t.Path()));
    }
  }

  /** A node lies in as many subtrees as there are elements above it, and in its own. */
  lemma {:induction false} EnclosuresAbove(ns: seq<Node>, chain: seq<Frame>, s: Spot)
    requires UniqueIds(ns) && s in Spots.Spots(ns, chain)
    ensures |s.above| + 1 == |chain| + Enclosures(s.node.id, ns)
    decreases ns
  {
    var n, rest := ns[0], ns[1..];
    NodeSpotsMember(s, n, chain);
    InNode(n, chain, s);
    hide NodeSpots;
    if s in NodeSpots(n, chain) {
      NotEnclosed(s.node.id, rest);
      if s == Spot(n, chain) {
        if n.Elem? {
          NotEnclosed(n.id, n.children);
        }
      } else {
        EnclosuresAbove(n.children, Below(n, chain), s);
      }
    } else {
      SpotIdsIn(rest, chain, s);
      EnclosuresAbove(rest, chain, s);
    }
  }

  lemma Depth(doc: Document, s: Spot)
    requires UniqueIds(doc.children) && s in AllSpots(doc)
    ensures DepthOf(s) == 1 + Enclosures(s.node.id, doc.children)
    ensures s.node.Elem? ==> |s.Path()| == Enclosures(s.node.id, doc.children)
  {
    hide Enclosures;
    EnclosuresAbove(doc.children, [], s);
  }

  lemma {:induction false} NotEnclosed(id: nat, ns: seq<Node>)
    requires id !in ForestIds(ns)
    ensures Enclosures(id, ns) == 0
  {
    if ns != [] {
      NotEnclosed(id, ns[1..]);
    }
  }

  // ---------------------------------------------------------------- the filter

  lemma {:induction false} EvalMeans(x: Expr, doc: Document, s: Spot)
    requires UniqueIds(doc.children) && s in AllSpots(doc)
    ensures Eval(x, s) <==> Means(x, doc, s.node)
  {
    hide AllSpots, AnyNamed, Within, HasParent, Enclosures;
    match x {
      case AncestorOrSelf(uri, local) => PathIsWithin(doc, s, uri, local);
      case ParentIs(uri, local) => ParentIsAbove(doc, s, uri, local);
      case DepthOdd => Depth(doc, s);
      case Not(inner) => EvalMeans(inner, doc, s);
      case And(l, r) =>
        EvalMeans(l, doc, s);
        EvalMeans(r, doc, s);
      case Or(l, r) =>
        EvalMeans(l, doc, s);
        EvalMeans(r, doc, s);
      case _ =>
    }
  }

  lemma {:induction false} EvalNsMeans(x: Expr, doc: Document, s: Spot, prefix: string, uri: string)
    requires UniqueIds(doc.children) && s in AllSpots(doc) && s.node.Elem?
    ensures EvalNs(x, prefix, uri, s.Path()) <==> NsMeans(x, doc, s.node, prefix, uri)
  {
    hide AllSpots, AnyNamed, Within, HasParent, Enclosures;
    match x {
      case AncestorOrSelf(u, local) => PathIsWithin(doc, s, u, local);
      case DepthOdd => Depth(doc, s);
      case Not(inner) => EvalNsMeans(inner, doc, s, prefix, uri);
      case And(l, r) =>
        EvalNsMeans(l, doc, s, prefix, uri);
        EvalNsMeans(r, doc, s, prefix, uri);
      case Or(l, r) =>
        EvalNsMeans(l, doc, s, prefix, uri);
        EvalNsMeans(r, doc, s, prefix, uri);
      case _ =>
    }
  }

  /** A filter keeps exactly the nodes of the input at which the expression means something true. */
  lemma FilterMeans(x: Expr, input: Option<NodeSet>, doc: Document, n: Node)
    requires UniqueIds(doc.children) && Occurs(n, doc.children)
    ensures Filtered(x, input, doc).Contains(n.id) <==> (input.Some? ==> input.value.Contains(n.id)) && Means(x, doc, n)
  {
    OccursIsSpot(n, doc.children, []);
    var s :| s in AllSpots(doc) && s.node == n;
    hide Spots.Spots, Eval, Means, Occurs, NsOfSpots;
    EvalMeans(x, doc, s);
    if Filtered(x, input, doc).Contains(n.id) {
      var t :| t in AllSpots(doc) && InInput(input, t.node.id) && Eval(x, t) && t.node.id == n.id;
      SpotsUnique(doc.children, [], s, t);
    }
  }

  /** And nothing but nodes of the document. */
  lemma FilterWithin(x: Expr, input: Option<NodeSet>, doc: Document, id: nat)
    requires Filtered(x, input, doc).Contains(id)
    ensures exists n :: Occurs(n, doc.children) && n.id == id
  {
    hide Spots.Spots, Eval, Occurs, NsOfSpots;
    var s :| s in AllSpots(doc) && s.node.id == id;
    OccursIsSpot(s.node, doc.children, []);
  }

  lemma ShownHere(x: Expr, doc: Document, s: Spot, prefix: string)
    requires WellIdentified(doc) && s in AllSpots(doc) && s.node.Elem?
    ensures var scope := Inscope(false, s.Path());
      Shown(NsOfSpots(x, AllSpots(doc)), (s.node.id, prefix)) <==>
        prefix in scope && EvalNs(x, prefix, scope[prefix], s.Path())
  {
    hide AllSpots, Inscope, NsOfSpots, EvalNs, NsOfSpot;
    NsEntryHere(x, doc, s, prefix);
    NsOfSpotEntries(x, s);
  }

  lemma VisibleByMap(x: Expr, input: Option<NodeSet>, doc: Document, id: nat, prefix: string)
    ensures Filtered(x, input, doc).NsVisible(id, prefix) <==>
      (ReferencesNs(x) ==> Shown(NsOfSpots(x, AllSpots(doc)), (id, prefix)))
  {
    hide AllSpots, NsOfSpots, Kept, Shown;
  }

  /** If the expression tells namespace nodes apart, those are shown that bind a prefix in scope and at
      which it means something true; otherwise the filter leaves all of them. */
  lemma NsFilterMeans(x: Expr, input: Option<NodeSet>, doc: Document, s: Spot, prefix: string)
    requires WellIdentified(doc) && s in AllSpots(doc) && s.node.Elem?
    ensures var scope := Inscope(false, s.Path());
      Filtered(x, input, doc).NsVisible(s.node.id, prefix) <==>
        !ReferencesNs(x) || (prefix in scope && NsMeans(x, doc, s.node, prefix, scope[prefix]))
  {
    assert UniqueIds(doc.children);
    hide *;
    VisibleByMap(x, input, doc, s.node.id, prefix);
    ShownHere(x, doc, s, prefix);
    var scope := Inscope(false, s.Path());
    if prefix in scope {
      EvalNsMeans(x, doc, s, prefix, scope[prefix]);
    }
  }
}
