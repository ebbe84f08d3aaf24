/**
 What exclusive canonicalization is for: the canonical form of a subtree does not depend on
 the document around it, as long as the prefixes used in it stand for the same URIs.
 */
module ContextFree {
  import opened Dom
  import opened Render
  import opened NodeSets
  import opened Namespaces
  import opened Canonical
  import opened Spots

  /** The prefixes visibly utilized somewhere in the forest, and those of the PrefixList. */
  function Uses(mode: Mode, ns: seq<Node>): set<string>
    requires mode.Exclusive?
    decreases ns, 0
  {
    if ns == [] then {} else NodeUses(mode, ns[0]) + Uses(mode, ns[1..])
  }

  function NodeUses(mode: Mode, n: Node): set<string>
    requires mode.Exclusive?
    decreases n, 1
  {
    if n.Elem? then Utilized(mode, n.elem) + Uses(mode, n.children) else {}
  }

  /** The two contexts give these prefixes the same bindings. */
  predicate Agree(prefixes: set<string>, a: seq<Frame>, b: seq<Frame>) {
    forall p :: p in prefixes ==> Get(Inscope(false, a), p) == Get(Inscope(false, b), p)
  }

  lemma AgreeBelow(prefixes: set<string>, f: Frame, a: seq<Frame>, b: seq<Frame>)
    requires Agree(prefixes, a, b)
    ensures Agree(prefixes, [f] + a, [f] + b)
  {
    assert ([f] + a)[1..] == a && ([f] + b)[1..] == b;
  }

  lemma SameExclusiveDecls(used: set<string>, shown: NsMap, shown2: NsMap, ctx: NsMap)
    requires forall p :: p in used ==> Get(shown, p) == Get(shown2, p)
    ensures ExclusiveDecls(used, shown, ctx) == ExclusiveDecls(used, shown2, ctx)
  {
    assert forall p :: p in used ==> (p in shown <==> p in shown2) && (p in shown ==> shown[p] == shown2[p]);
  }

  lemma SameTagInContext(cfg: Config, f: Frame, a: seq<Frame>, b: seq<Frame>, ctx: NsMap)
    requires cfg.mode.Exclusive? && !NsFiltered(cfg) && Agree(Utilized(cfg.mode, f.elem), a, b)
    ensures StartTag(cfg, [f] + a, ctx) == StartTag(cfg, [f] + b, ctx)
    ensures ChildCtx(cfg, [f] + a, ctx) == ChildCtx(cfg, [f] + b, ctx)
  {
    hide Inscope, Utilized;
    var used := Utilized(cfg.mode, f.elem);
    AgreeBelow(used, f, a, b);
    SameExclusiveDecls(used, Inscope(false, [f] + a), Inscope(false, [f] + b), ctx);
    hide ExclusiveDecls, DeclList, TagName, ToFields, Agree;
  }

  lemma {:induction false} SameWalkInContext(cfg: Config, ns: seq<Node>, a: seq<Frame>, b: seq<Frame>, ctx: NsMap)
    requires cfg.mode.Exclusive? && !NsFiltered(cfg) && Agree(Uses(cfg.mode, ns), a, b)
    ensures Walk(cfg, ns, a, ctx) == Walk(cfg, ns, b, ctx)
    decreases ns, 0
  {
    hide WalkNode, Inscope;
    if ns != [] {
      SameNodeInContext(cfg, ns[0], a, b, ctx);
      SameWalkInContext(cfg, ns[1..], a, b, ctx);
    }
  }

  lemma {:induction false} SameNodeInContext(cfg: Config, n: Node, a: seq<Frame>, b: seq<Frame>, ctx: NsMap)
    requires cfg.mode.Exclusive? && !NsFiltered(cfg) && Agree(NodeUses(cfg.mode, n), a, b)
    ensures WalkNode(cfg, n, a, ctx) == WalkNode(cfg, n, b, ctx)
    decreases n, 1
  {
    hide Walk, Inscope, StartTag, ChildCtx, Uses, Utilized;
    if n.Elem? {
      var f := Frame(n.id, n.elem);
      SameTagInContext(cfg, f, a, b, ctx);
      AgreeBelow(Uses(cfg.mode, n.children), f, a, b);
      SameWalkInContext(cfg, n.children, [f] + a, [f] + b, ChildCtx(cfg, [f] + a, ctx));
      SameWalkInContext(cfg, n.children, [f] + a, [f] + b, ctx);
    }
  }

  // ---------------------------------------------------------------- a subtree as node set

  lemma {:induction false} HiddenWalk(cfg: Config, ns: seq<Node>, chain: seq<Frame>, ctx: NsMap)
    requires !NsFiltered(cfg) && forall id :: id in ForestIds(ns) ==> !Visible(cfg, id)
    ensures Walk(cfg, ns, chain, ctx) == []
    decreases ns, 0
  {
    hide WalkNode;
    if ns != [] {
      assert forall id :: id in Ids(ns[0]) ==> id in ForestIds(ns);
      HiddenNode(cfg, ns[0], chain, ctx);
      HiddenWalk(cfg, ns[1..], chain, ctx);
    }
  }

  lemma {:induction false} HiddenNode(cfg: Config, n: Node, chain: seq<Frame>, ctx: NsMap)
    requires !NsFiltered(cfg) && forall id :: id in Ids(n) ==> !Visible(cfg, id)
    ensures WalkNode(cfg, n, chain, ctx) == []
    decreases n, 1
  {
    hide Walk;
    assert n.id in Ids(n);
    if n.Elem? {
      HiddenWalk(cfg, n.children, [Frame(n.id, n.elem)] + chain, ctx);
    }
  }

  /** Only nodes of the subtree at `n` are in the node set. */
  ghost predicate Confined(cfg: Config, n: Node) {
    !NsFiltered(cfg) && forall id :: Visible(cfg, id) ==> id in Ids(n)
  }

  /** A walk that sees only one subtree is the walk of that subtree, from an empty context. */
  lemma {:induction false} WalkConfined(cfg: Config, s: Spot, ns: seq<Node>, chain: seq<Frame>)
    requires Confined(cfg, s.node) && UniqueIds(ns) && s in Spots.Spots(ns, chain)
    ensures Walk(cfg, ns, chain, map[]) == WalkNode(cfg, s.node, s.above, map[])
    decreases ns
  {
    hide WalkNode;
    var top, rest := ns[0], ns[1..];
    assert ns == [top] + rest;
    WalkCons(cfg, top, rest, chain, map[]);
    NodeSpotsMember(s, top, chain);
    hide Walk, NodeSpots;
    if s == Spot(top, chain) {
      HiddenWalk(cfg, rest, chain, map[]);
    } else if s in NodeSpots(top, chain) {
      BelowConfined(cfg, s, top, chain);
      HiddenWalk(cfg, rest, chain, map[]);
      WalkConfined(cfg, s, top.children, Below(top, chain));
    } else {
      SpotIdsIn(rest, chain, s);
      HiddenNode(cfg, top, chain, map[]);
      WalkConfined(cfg, s, rest, chain);
    }
  }

  lemma BelowConfined(cfg: Config, s: Spot, top: Node, chain: seq<Frame>)
    requires Confined(cfg, s.node) && UniqueNode(top) && top.Elem? && s in Spots.Spots(top.children, Below(top, chain))
    ensures WalkNode(cfg, top, chain, map[]) == Walk(cfg, top.children, Below(top, chain), map[])
    ensures Ids(s.node) <= Ids(top) && UniqueIds(top.children)
  {
    hide Walk, StartTag;
    SpotIdsIn(top.children, Below(top, chain), s);
  }

  lemma {:induction false} HiddenTop(cfg: Config, ns: seq<Node>, before: bool)
    requires !NsFiltered(cfg) && forall id :: id in ForestIds(ns) ==> !Visible(cfg, id)
    ensures WalkTop(cfg, ns, before) == []
  {
    if ns != [] {
      hide WalkNode;
      assert forall id :: id in Ids(ns[0]) ==> id in ForestIds(ns);
      HiddenNode(cfg, ns[0], [], map[]);
      HiddenTop(cfg, ns[1..], before || ns[0].Elem?);
    }
  }

  lemma LeafAtTop(cfg: Config, n: Node, before: bool, after: bool)
    ensures n.Elem? || WalkNode(cfg, n, [], map[]) == [] ==> TopNode(cfg, n, before, after) == WalkNode(cfg, n, [], map[])
  {
    hide WalkNode;
  }

  lemma {:induction false} TopConfined(cfg: Config, s: Spot, ns: seq<Node>, before: bool)
    requires Confined(cfg, s.node) && s.node.Elem? && UniqueIds(ns) && s in Spots.Spots(ns, [])
    ensures WalkTop(cfg, ns, before) == WalkNode(cfg, s.node, s.above, map[])
    decreases ns
  {
    hide *;
    FirstOrLater(ns, s);
    assert !NsFiltered(cfg) by {
      Unfiltered(cfg, s.node);
    }
    var top, rest := ns[0], ns[1..];
    assert ns == [top] + rest;
    WalkTopCons(cfg, top, rest, before);
    NodeSpotsMember(s, top, []);
    LeafAtTop(cfg, top, before, HasElement(rest));
    InNode(top, [], s);
    if s in NodeSpots(top, []) {
      OutOfSight(cfg, s.node, ForestIds(rest));
      HiddenTop(cfg, rest, true);
      if s != Spot(top, []) {
        BelowConfined(cfg, s, top, []);
        WalkConfined(cfg, s, top.children, Below(top, []));
      }
    } else {
      SpotIdsIn(rest, [], s);
      OutOfSight(cfg, s.node, Ids(top));
      HiddenNode(cfg, top, [], map[]);
      TopConfined(cfg, s, rest, before || top.Elem?);
    }
  }

  lemma FirstOrLater(ns: seq<Node>, s: Spot)
    requires UniqueIds(ns) && s in Spots.Spots(ns, [])
    ensures ns != [] && (s in NodeSpots(ns[0], []) || s in Spots.Spots(ns[1..], []))
    ensures UniqueNode(ns[0]) && UniqueIds(ns[1..]) && Ids(ns[0]) !! ForestIds(ns[1..])
  {
    hide NodeSpots, UniqueNode;
  }

  lemma Unfiltered(cfg: Config, n: Node)
    requires Confined(cfg, n)
    ensures !NsFiltered(cfg)
  {
  }

  lemma OutOfSight(cfg: Config, n: Node, ids: set<nat>)
    requires Confined(cfg, n) && Ids(n) !! ids
    ensures forall id :: id in ids ==> !Visible(cfg, id)
  {
    hide Visible;
  }

  /** The node set of a `#id` reference. */
  function Subtree(mode: Mode, withComments: bool, n: Node, comments: bool): Config {
    Config(mode, withComments, Some(FromIds(SubtreeIds(n, comments))))
  }

  /** The canonical form of a referenced element is the walk of its subtree alone. */
  lemma SubtreeCanon(mode: Mode, withComments: bool, comments: bool, doc: Document, s: Spot)
    requires UniqueIds(doc.children) && s in AllSpots(doc) && s.node.Elem?
    ensures Canon(Subtree(mode, withComments, s.node, comments), doc)
         == WalkNode(Subtree(mode, withComments, s.node, comments), s.node, s.above, map[])
  {
    SubtreeIdsWithin(s.node, comments);
    TopConfined(Subtree(mode, withComments, s.node, comments), s, doc.children, false);
  }

  /** A signed element can be moved to another document and keeps its canonical form, if the
      prefixes it utilizes keep their bindings. */
  lemma ExclusiveIsContextFree(mode: Mode, withComments: bool, comments: bool, doc: Document, s: Spot, doc2: Document, t: Spot)
    requires mode.Exclusive? && s.node.Elem? && t.node == s.node
    requires UniqueIds(doc.children) && s in AllSpots(doc) && UniqueIds(doc2.children) && t in AllSpots(doc2)
    requires Agree(NodeUses(mode, s.node), s.above, t.above)
    ensures C14n(Subtree(mode, withComments, s.node, comments), doc) == C14n(Subtree(mode, withComments, s.node, comments), doc2)
  {
    SubtreeCanon(mode, withComments, comments, doc, s);
    SubtreeCanon(mode, withComments, comments, doc2, t);
    SameNodeInContext(Subtree(mode, withComments, s.node, comments), s.node, s.above, t.above, map[]);
  }
}
