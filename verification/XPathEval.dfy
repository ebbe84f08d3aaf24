/**
 Evaluation of boolean XPath filters on document nodes and on namespace nodes, and the node
 set that a filter leaves.
 */
module XPathEval {
  import opened Dom
  import opened NodeSets
  import opened Namespaces
  import opened Spots
  import opened XPathParser

  /** The element has this name; an empty URI stands for any namespace. */
  predicate IsNamed(e: Element, uri: string, local: string) {
    e.name.local == local && (uri == "" || UriOf(e.name) == uri)
  }

  predicate AnyNamed(path: seq<Frame>, uri: string, local: string) {
    exists i :: 0 <= i < |path| && IsNamed(path[i].elem, uri, local)
  }

  function QualifiedName(e: Element): string {
    if e.name.prefix.Some? && e.name.prefix.value != "" then e.name.prefix.value + ":" + e.name.local
    else e.name.local
  }

  /** The depth of a node, counting the document node and the node itself. */
  function DepthOf(s: Spot): nat {
    |s.above| + 2
  }

  predicate Eval(x: Expr, s: Spot) {
    match x
    case True => true
    case AncestorOrSelf(uri, local) => AnyNamed(s.Path(), uri, local)
    case SelfText => s.node.Text?
    case HasAttributes => s.node.Elem? && s.node.elem.attrs != []
    case SelfElement(uri, local) => s.node.Elem? && IsNamed(s.node.elem, uri, local)
    case Not(inner) => !Eval(inner, s)
    case And(l, r) => Eval(l, s) && Eval(r, s)
    case Or(l, r) => Eval(l, s) || Eval(r, s)
    case NameEq(t) => if s.node.Elem? then QualifiedName(s.node.elem) == t else s.node.Text? && t == ""
    case NameNeq(t) => if s.node.Elem? then QualifiedName(s.node.elem) != t else s.node.Text? ==> t != ""
    case NamespaceUriEq(t) => (if s.node.Elem? then UriOf(s.node.elem.name) else "") == t
    case NamespaceUriNeq(t) => (if s.node.Elem? then UriOf(s.node.elem.name) else "") != t
    case ParentIs(uri, local) => s.above != [] && IsNamed(s.above[0].elem, uri, local)
    case StringSelfEqNsUriParent => false
    case IsNotParentNsNode => true
    case IsParentNsNode => false
    case DepthOdd => DepthOf(s) % 2 == 1
  }

  /** Evaluation on the namespace node for `prefix` of the element at the head of `path`. */
  predicate EvalNs(x: Expr, prefix: string, uri: string, path: seq<Frame>)
    requires path != []
  {
    match x
    case True => true
    case AncestorOrSelf(u, local) => AnyNamed(path, u, local)
    case SelfText => false
    case HasAttributes => false
    case SelfElement(_, _) => false
    case Not(inner) => !EvalNs(inner, prefix, uri, path)
    case And(l, r) => EvalNs(l, prefix, uri, path) && EvalNs(r, prefix, uri, path)
    case Or(l, r) => EvalNs(l, prefix, uri, path) || EvalNs(r, prefix, uri, path)
    case NameEq(t) => prefix == t
    case NameNeq(t) => prefix != t
    case NamespaceUriEq(t) => t == ""
    case NamespaceUriNeq(t) => t != ""
    case ParentIs(u, local) => IsNamed(path[0].elem, u, local)
    case StringSelfEqNsUriParent => uri == UriOf(path[0].elem.name)
    case IsNotParentNsNode => false
    case IsParentNsNode => true
    case DepthOdd => (|path| + 2) % 2 == 1
  }

  /** The expression mentions something that tells namespace nodes from other nodes. */
  predicate ReferencesNs(x: Expr) {
    match x
    case Not(inner) => ReferencesNs(inner)
    case And(l, r) => ReferencesNs(l) || ReferencesNs(r)
    case Or(l, r) => ReferencesNs(l) || ReferencesNs(r)
    case True => false
    case AncestorOrSelf(_, _) => false
    case SelfText => false
    case HasAttributes => false
    case SelfElement(_, _) => false
    case ParentIs(_, _) => false
    case _ => true
  }

  // ---------------------------------------------------------------- the walks

  /** Walks up from the node. */
  method WalkUp(path: seq<Frame>, uri: string, local: string) returns (found: bool)
    ensures found == AnyNamed(path, uri, local)
  {
    var i := 0;
    while i < |path|
      invariant 0 <= i <= |path|
      invariant forall j :: 0 <= j < i ==> !IsNamed(path[j].elem, uri, local)
    {
      if IsNamed(path[i].elem, uri, local) {
        return true;
      }
      i := i + 1;
    }
    return false;
  }

  method CountUp(s: Spot) returns (depth: nat)
    ensures depth == DepthOf(s)
  {
    depth := 1;
    for i := 0 to |s.above|
      invariant depth == 1 + i
    {
      depth := depth + 1;
    }
    depth := depth + 1;
  }

  // ---------------------------------------------------------------- the filter

  predicate InInput(input: Option<NodeSet>, id: nat) {
    input.Some? ==> input.value.Contains(id)
  }

  /** The nodes a filter keeps. */
  function Kept(x: Expr, input: Option<NodeSet>, spots: seq<Spot>): set<nat> {
    set s | s in spots && InInput(input, s.node.id) && Eval(x, s) :: s.node.id
  }

  /** The visibility of the namespace nodes of one element. */
  function NsOfSpot(x: Expr, s: Spot): Visibility {
    if !s.node.Elem? then map[]
    else
      var m := Inscope(false, s.Path());
      map p | p in m :: (s.node.id, p) := EvalNs(x, p, m[p], s.Path())
  }

  function NsOfSpots(x: Expr, spots: seq<Spot>): Visibility {
    if spots == [] then map[]
    else NsOfSpots(x, spots[..|spots| - 1]) + NsOfSpot(x, spots[|spots| - 1])
  }

  function Filtered(x: Expr, input: Option<NodeSet>, doc: Document): NodeSet {
    NodeSet(Kept(x, input, AllSpots(doc)), Normal,
            if ReferencesNs(x) then Some(NsOfSpots(x, AllSpots(doc))) else None,
            x.HasAttributes?)
  }

  method ApplyFilter(x: Expr, input: Option<NodeSet>, doc: Document) returns (result: NodeSet)
    ensures result == Filtered(x, input, doc)
  {
    var ids := CollectKept(x, input, AllSpots(doc));
    result := NodeSet(ids, Normal, None, x.HasAttributes?);
    if ReferencesNs(x) {
      var visible := EvaluateNs(x, AllSpots(doc));
      result := result.(nsVisible := Some(visible));
    }
  }

  lemma KeptSnoc(x: Expr, input: Option<NodeSet>, spots: seq<Spot>, s: Spot)
    ensures Kept(x, input, spots + [s]) ==
      Kept(x, input, spots) + if InInput(input, s.node.id) && Eval(x, s) then {s.node.id} else {}
  {
    hide Eval, InInput;
  }

  method CollectKept(x: Expr, input: Option<NodeSet>, spots: seq<Spot>) returns (ids: set<nat>)
    ensures ids == Kept(x, input, spots)
  {
    hide Eval, InInput, Kept;
    ids := {};
    assert Kept(x, input, []) == {} by { KeptNothing(x, input); }
    for i := 0 to |spots|
      invariant ids == Kept(x, input, spots[..i])
    {
      assert spots[..i + 1] == spots[..i] + [spots[i]];
      KeptSnoc(x, input, spots[..i], spots[i]);
      if InInput(input, spots[i].node.id) && Eval(x, spots[i]) {
        ids := ids + {spots[i].node.id};
      }
    }
    assert spots[..|spots|] == spots;
  }

  lemma KeptNothing(x: Expr, input: Option<NodeSet>)
    ensures Kept(x, input, []) == {}
  {
  }

  method EvaluateNs(x: Expr, spots: seq<Spot>) returns (visible: Visibility)
    ensures visible == NsOfSpots(x, spots)
  {
    hide NsOfSpot;
    visible := map[];
    for i := 0 to |spots|
      invariant visible == NsOfSpots(x, spots[..i])
    {
      assert spots[..i + 1][..i] == spots[..i];
      visible := EvaluateNsAt(x, spots[i], visible);
    }
    assert spots[..|spots|] == spots;
  }

  method EvaluateNsAt(x: Expr, s: Spot, before: Visibility) returns (visible: Visibility)
    ensures visible == before + NsOfSpot(x, s)
  {
    hide EvalNs, Inscope, NsOfSpot;
    NsOfSpotEntries(x, s);
    visible := before;
    if s.node.Elem? {
      var id, path := s.node.id, s.Path();
      var inscope := CollectInscope(false, path);
      var keys := inscope.Keys;
      while keys != {}
        invariant keys <= inscope.Keys
        invariant Extended(before, NsOfSpot(x, s), id, inscope.Keys - keys, visible)
      {
        var p :| p in keys;
        visible := visible[(id, p) := EvalNs(x, p, inscope[p], path)];
        keys := keys - {p};
      }
      assert inscope.Keys - keys == inscope.Keys;
      ExtendedFully(before, NsOfSpot(x, s), id, inscope.Keys, visible);
    } else {
      assert NsOfSpot(x, s) == map[];
    }
  }

  lemma ExtendedFully(before: Visibility, added: Visibility, id: nat, done: set<string>, m: Visibility)
    requires Extended(before, added, id, done, m)
    requires forall k :: k in added <==> k.0 == id && k.1 in done
    ensures m == before + added
  {
    forall k ensures k in m <==> k in before + added {
      assert Get(m, k) == if k.0 == id && k.1 in done then Get(added, k) else Get(before, k);
    }
    forall k | k in m ensures m[k] == (before + added)[k] {
      assert Get(m, k) == if k.0 == id && k.1 in done then Get(added, k) else Get(before, k);
    }
  }

  /** `m` is `before` with the entries of `added` for the prefixes in `done`. */
  ghost predicate Extended(before: Visibility, added: Visibility, id: nat, done: set<string>, m: Visibility) {
    forall k :: Get(m, k) == if k.0 == id && k.1 in done then Get(added, k) else Get(before, k)
  }

  lemma NsOfSpotEntries(x: Expr, s: Spot)
    ensures forall k :: k in NsOfSpot(x, s) <==> s.node.Elem? && k.0 == s.node.id && k.1 in Inscope(false, s.Path())
    ensures forall p :: s.node.Elem? && p in Inscope(false, s.Path()) ==>
      (s.node.id, p) in NsOfSpot(x, s) && NsOfSpot(x, s)[(s.node.id, p)] == EvalNs(x, p, Inscope(false, s.Path())[p], s.Path())
  {
    hide Inscope, EvalNs;
  }

  // ---------------------------------------------------------------- namespace nodes

  /** Without namespace-specific tests and tests on the node itself, a namespace node fares as
      its element does, so nothing is lost by not evaluating it. */
  predicate AncestryOnly(x: Expr) {
    match x
    case Not(inner) => AncestryOnly(inner)
    case And(l, r) => AncestryOnly(l) && AncestryOnly(r)
    case Or(l, r) => AncestryOnly(l) && AncestryOnly(r)
    case True => true
    case AncestorOrSelf(_, _) => true
    case _ => false
  }

  lemma {:induction false} NamespaceNodesFollow(x: Expr, s: Spot, prefix: string, uri: string)
    requires AncestryOnly(x) && s.node.Elem?
    ensures !ReferencesNs(x)
    ensures EvalNs(x, prefix, uri, s.Path()) == Eval(x, s)
  {
    match x {
      case Not(inner) => NamespaceNodesFollow(inner, s, prefix, uri);
      case And(l, r) =>
        NamespaceNodesFollow(l, s, prefix, uri);
        NamespaceNodesFollow(r, s, prefix, uri);
      case Or(l, r) =>
        NamespaceNodesFollow(l, s, prefix, uri);
        NamespaceNodesFollow(r, s, prefix, uri);
      case _ =>
    }
  }
}
