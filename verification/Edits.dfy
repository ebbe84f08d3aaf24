/**
 Documents that differ only inside certain elements, the holes, and what follows for node
 sets and canonical forms: whatever avoids the holes is the same in both.
 */
module Edits {
  import opened Dom
  import opened NodeSets
  import opened Canonical
  import opened Namespaces
  import opened Ordering
  import opened Render
  import opened Tokens
  import opened Spots

  /** The forests are the same, except that an element in `holes` keeps only its id and name. */
  predicate Alike(ns: seq<Node>, ms: seq<Node>, holes: set<nat>)
    decreases ns, 0
  {
    |ns| == |ms| && (ns == [] || (AlikeNode(ns[0], ms[0], holes) && Alike(ns[1..], ms[1..], holes)))
  }

  predicate AlikeNode(n: Node, m: Node, holes: set<nat>)
    decreases n, 1
  {
    && n.id == m.id
    && if n.Elem? && m.Elem? then
         || (n.id in holes && n.elem.name == m.elem.name)
         || (n.elem == m.elem && Alike(n.children, m.children, holes))
       else n == m
  }

  /** The nodes that are neither holes nor below one. */
  function Outside(ns: seq<Node>, holes: set<nat>): set<nat>
    decreases ns, 0
  {
    if ns == [] then {} else OutsideNode(ns[0], holes) + Outside(ns[1..], holes)
  }

  function OutsideNode(n: Node, holes: set<nat>): set<nat>
    decreases n, 1
  {
    if n.id in holes then {} else {n.id} + if n.Elem? then Outside(n.children, holes) else {}
  }

  // ---------------------------------------------------------------- likeness

  lemma {:induction false} AlikeSelf(ns: seq<Node>, holes: set<nat>)
    ensures Alike(ns, ns, holes)
    decreases ns
  {
    if ns != [] {
      if ns[0].Elem? {
        AlikeSelf(ns[0].children, holes);
      }
      AlikeSelf(ns[1..], holes);
    }
  }

  lemma {:induction false} AlikeMore(ns: seq<Node>, ms: seq<Node>, holes: set<nat>, more: set<nat>)
    requires Alike(ns, ms, holes) && holes <= more
    ensures Alike(ns, ms, more)
    decreases ns
  {
    if ns != [] {
      if ns[0].Elem? && ms[0].Elem? && Alike(ns[0].children, ms[0].children, holes) {
        AlikeMore(ns[0].children, ms[0].children, holes, more);
      }
      AlikeMore(ns[1..], ms[1..], holes, more);
    }
  }

  lemma {:induction false} AlikeTrans(a: seq<Node>, b: seq<Node>, c: seq<Node>, holes: set<nat>)
    requires Alike(a, b, holes) && Alike(b, c, holes)
    ensures Alike(a, c, holes)
    decreases a
  {
    if a != [] {
      var x, y, z := a[0], b[0], c[0];
      if x.Elem? && x.id !in holes {
        AlikeTrans(x.children, y.children, z.children, holes);
      }
      AlikeTrans(a[1..], b[1..], c[1..], holes);
    }
  }

  lemma {:induction false} AlikeSym(ns: seq<Node>, ms: seq<Node>, holes: set<nat>)
    requires Alike(ns, ms, holes)
    ensures Alike(ms, ns, holes)
    decreases ns
  {
    if ns != [] {
      if ns[0].Elem? && ns[0].id !in holes {
        AlikeSym(ns[0].children, ms[0].children, holes);
      }
      AlikeSym(ns[1..], ms[1..], holes);
    }
  }

  /** Without holes the forests are equal. */
  lemma {:induction false} AlikeWhole(ns: seq<Node>, ms: seq<Node>, holes: set<nat>)
    requires Alike(ns, ms, holes) && ForestIds(ns) !! holes
    ensures ns == ms
    decreases ns
  {
    if ns != [] {
      assert ns[0].id in Ids(ns[0]);
      if ns[0].Elem? {
        AlikeWhole(ns[0].children, ms[0].children, holes);
      }
      AlikeWhole(ns[1..], ms[1..], holes);
      assert ns == [ns[0]] + ns[1..] && ms == [ms[0]] + ms[1..];
    }
  }

  lemma {:induction false} SameOutside(ns: seq<Node>, ms: seq<Node>, holes: set<nat>)
    requires Alike(ns, ms, holes)
    ensures Outside(ns, holes) == Outside(ms, holes)
    decreases ns
  {
    if ns != [] {
      if ns[0].Elem? && ns[0].id !in holes {
        SameOutside(ns[0].children, ms[0].children, holes);
      }
      SameOutside(ns[1..], ms[1..], holes);
    }
  }

  lemma {:induction false} OutsideWithin(ns: seq<Node>, holes: set<nat>)
    ensures Outside(ns, holes) <= ForestIds(ns)
    decreases ns
  {
    if ns != [] {
      if ns[0].Elem? {
        OutsideWithin(ns[0].children, holes);
      }
      OutsideWithin(ns[1..], holes);
    }
  }

  lemma {:induction false} OutsideFewer(ns: seq<Node>, holes: set<nat>, fewer: set<nat>)
    requires fewer <= holes
    ensures Outside(ns, holes) <= Outside(ns, fewer)
    decreases ns
  {
    if ns != [] {
      if ns[0].Elem? {
        OutsideFewer(ns[0].children, holes, fewer);
      }
      OutsideFewer(ns[1..], holes, fewer);
    }
  }

  /** A node outside the holes has its counterpart: same ancestors, and alike itself. */
  lemma {:induction false} Counterpart(ns: seq<Node>, ms: seq<Node>, holes: set<nat>, chain: seq<Frame>, s: Spot) returns (t: Spot)
    requires Alike(ns, ms, holes) && UniqueIds(ns) && s in Spots.Spots(ns, chain) && s.node.id in Outside(ns, holes)
    ensures t in Spots.Spots(ms, chain) && t.above == s.above && AlikeNode(s.node, t.node, holes) && s.node.id !in holes
    decreases ns
  {
    var n, m := ns[0], ms[0];
    InNode(n, chain, s);
    NodeSpotsMember(s, n, chain);
    OutsideWithin(ns[1..], holes);
    OutsideWithin([n], holes);
    assert ForestIds([n]) == Ids(n) && Outside([n], holes) == OutsideNode(n, holes) by {
      assert [n][1..] == [];
    }
    if s in NodeSpots(n, chain) {
      if s == Spot(n, chain) {
        t := Spot(m, chain);
      } else {
        SpotIdsIn(n.children, Below(n, chain), s);
        t := Counterpart(n.children, m.children, holes, Below(n, chain), s);
        NodeSpotsMember(t, m, chain);
      }
      assert t in NodeSpots(m, chain);
    } else {
      SpotIdsIn(ns[1..], chain, s);
      t := Counterpart(ns[1..], ms[1..], holes, chain, s);
    }
  }

  // ---------------------------------------------------------------- canonical forms

  /** Neither the node nor any of its namespace nodes is in the set. */
  ghost predicate Dark(s: Option<NodeSet>, id: nat) {
    s.Some? && !s.value.Contains(id) && (s.value.HasNsFilter() ==> forall p :: !s.value.NsVisible(id, p))
  }

  /** Everything at or below a hole is dark. */
  ghost predicate Quiet(s: Option<NodeSet>, ns: seq<Node>, holes: set<nat>)
    decreases ns, 0
  {
    ns == [] || (QuietNode(s, ns[0], holes) && Quiet(s, ns[1..], holes))
  }

  ghost predicate QuietNode(s: Option<NodeSet>, n: Node, holes: set<nat>)
    decreases n, 1
  {
    if n.id in holes then forall id :: id in Ids(n) ==> Dark(s, id)
    else n.Elem? ==> Quiet(s, n.children, holes)
  }

  /** Node sets that select the same nodes and namespace nodes among `ids`. */
  ghost predicate SetsAgree(a: Option<NodeSet>, b: Option<NodeSet>, ids: set<nat>) {
    match (a, b)
    case (None, None) => true
    case (Some(x), Some(y)) =>
      && x.setType.Normal? && y.setType.Normal? && x.excludeAttrs == y.excludeAttrs
      && x.HasNsFilter() == y.HasNsFilter()
      && (forall id :: id in ids ==> (id in x.nodes <==> id in y.nodes))
      && (forall id, p :: id in ids ==> x.NsVisible(id, p) == y.NsVisible(id, p))
    case _ => false
  }

  lemma SetsAgreeOnFewer(a: Option<NodeSet>, b: Option<NodeSet>, ids: set<nat>, fewer: set<nat>)
    requires SetsAgree(a, b, ids) && fewer <= ids
    ensures SetsAgree(a, b, fewer)
  {
  }

  /** In the dark nothing is written. */
  lemma {:induction false} DarkWalk(cfg: Config, ns: seq<Node>, chain: seq<Frame>, ctx: NsMap)
    requires forall id :: id in ForestIds(ns) ==> Dark(cfg.nodeSet, id)
    ensures RenderAll(Walk(cfg, ns, chain, ctx)) == ""
    decreases ns, 0
  {
    hide WalkNode, Dark, RenderAll;
    RenderEmpty();
    if ns != [] {
      assert forall id :: id in Ids(ns[0]) ==> id in ForestIds(ns);
      DarkNode(cfg, ns[0], chain, ctx);
      DarkWalk(cfg, ns[1..], chain, ctx);
      RenderConcat(WalkNode(cfg, ns[0], chain, ctx), Walk(cfg, ns[1..], chain, ctx));
    }
  }

  lemma {:induction false} DarkNode(cfg: Config, n: Node, chain: seq<Frame>, ctx: NsMap)
    requires forall id :: id in Ids(n) ==> Dark(cfg.nodeSet, id)
    ensures RenderAll(WalkNode(cfg, n, chain, ctx)) == ""
    decreases n, 1
  {
    hide Walk, RenderAll, DeclList, FloatingDecls;
    RenderEmpty();
    assert n.id in Ids(n);
    if n.Elem? {
      var here := [Frame(n.id, n.elem)] + chain;
      DarkWalk(cfg, n.children, here, ctx);
      var f := if Floats(cfg) then [Floating(DeclList(FloatingDecls(cfg, here, ctx)))] else [];
      RenderConcat(f, Walk(cfg, n.children, here, ctx));
      if Floats(cfg) {
        NothingFloats(cfg, here, ctx);
        RenderOne(f[0]);
      }
    }
  }

  lemma NothingFloats(cfg: Config, here: seq<Frame>, ctx: NsMap)
    requires here != [] && NsFiltered(cfg) && Dark(cfg.nodeSet, here[0].id)
    ensures DeclList(FloatingDecls(cfg, here, ctx)) == []
  {
    hide Inscope;
    assert ShownNs(cfg, here) == map[];
    var m := FloatingDecls(cfg, here, ctx);
    assert m == map[];
    hide FloatingDecls;
    assert m.Keys == {};
  }

  /** A tag is the same under sets that agree about its element and about the visibility of its parent. */
  lemma AgreedTag(cfg: Config, cfg2: Config, here: seq<Frame>, ctx: NsMap)
    requires here != [] && cfg.mode == cfg2.mode && SetsAgree(cfg.nodeSet, cfg2.nodeSet, {here[0].id})
    requires |here| > 1 ==> Visible(cfg, here[1].id) == Visible(cfg2, here[1].id)
    ensures StartTag(cfg, here, ctx) == StartTag(cfg2, here, ctx) && ChildCtx(cfg, here, ctx) == ChildCtx(cfg2, here, ctx)
    ensures NsFiltered(cfg) == NsFiltered(cfg2) && FloatingDecls(cfg, here, ctx) == FloatingDecls(cfg2, here, ctx)
  {
    AgreedShown(cfg, cfg2, here);
    AgreedAttrs(cfg, cfg2, here);
    AgreedFloating(cfg, cfg2, here, ctx);
    hide *;
    SameTag(cfg, here, cfg2, here, ctx);
  }

  lemma AgreedShown(cfg: Config, cfg2: Config, here: seq<Frame>)
    requires here != [] && cfg.mode == cfg2.mode && SetsAgree(cfg.nodeSet, cfg2.nodeSet, {here[0].id})
    ensures NsFiltered(cfg) == NsFiltered(cfg2) && ShownNs(cfg, here) == ShownNs(cfg2, here)
  {
    hide Inscope;
  }

  lemma AgreedFloating(cfg: Config, cfg2: Config, here: seq<Frame>, ctx: NsMap)
    requires here != [] && cfg.mode == cfg2.mode && ShownNs(cfg, here) == ShownNs(cfg2, here)
    ensures FloatingDecls(cfg, here, ctx) == FloatingDecls(cfg2, here, ctx)
  {
    hide ShownNs;
  }

  lemma AgreedAttrs(cfg: Config, cfg2: Config, here: seq<Frame>)
    requires here != [] && cfg.mode == cfg2.mode && SetsAgree(cfg.nodeSet, cfg2.nodeSet, {here[0].id})
    requires |here| > 1 ==> Visible(cfg, here[1].id) == Visible(cfg2, here[1].id)
    ensures TagAttrs(cfg, here) == TagAttrs(cfg2, here)
  {
    assert ParentHidden(cfg, here) == ParentHidden(cfg2, here);
    hide Visible, ParentHidden, InheritedXml, AbsoluteBase, Sort, OwnAttrs, ExtraAttrs, SetBase, SortedKeys;
  }

  // ---------------------------------------------------------------- the same text

  /** Configurations that differ only in node sets that agree about `ids`. */
  ghost predicate Agreed(cfg: Config, cfg2: Config, ids: set<nat>) {
    cfg.mode == cfg2.mode && cfg.withComments == cfg2.withComments && SetsAgree(cfg.nodeSet, cfg2.nodeSet, ids)
  }

  lemma {:induction false} AlikeWalk(cfg: Config, cfg2: Config, ns: seq<Node>, ms: seq<Node>, holes: set<nat>, chain: seq<Frame>, ctx: NsMap)
    requires Alike(ns, ms, holes) && Quiet(cfg.nodeSet, ns, holes) && Quiet(cfg2.nodeSet, ms, holes)
    requires Agreed(cfg, cfg2, Outside(ns, holes)) && (chain != [] ==> Visible(cfg, chain[0].id) == Visible(cfg2, chain[0].id))
    ensures RenderAll(Walk(cfg, ns, chain, ctx)) == RenderAll(Walk(cfg2, ms, chain, ctx))
    decreases ns, 0
  {
    hide WalkNode, RenderAll, AlikeNode, QuietNode, OutsideNode, SetsAgree, Visible;
    if ns != [] {
      SetsAgreeOnFewer(cfg.nodeSet, cfg2.nodeSet, Outside(ns, holes), OutsideNode(ns[0], holes));
      SetsAgreeOnFewer(cfg.nodeSet, cfg2.nodeSet, Outside(ns, holes), Outside(ns[1..], holes));
      AlikeWalkNode(cfg, cfg2, ns[0], ms[0], holes, chain, ctx);
      AlikeWalk(cfg, cfg2, ns[1..], ms[1..], holes, chain, ctx);
      RenderConcat(WalkNode(cfg, ns[0], chain, ctx), Walk(cfg, ns[1..], chain, ctx));
      RenderConcat(WalkNode(cfg2, ms[0], chain, ctx), Walk(cfg2, ms[1..], chain, ctx));
    }
  }

  lemma {:induction false} AlikeWalkNode(cfg: Config, cfg2: Config, n: Node, m: Node, holes: set<nat>, chain: seq<Frame>, ctx: NsMap)
    requires AlikeNode(n, m, holes) && QuietNode(cfg.nodeSet, n, holes) && QuietNode(cfg2.nodeSet, m, holes)
    requires Agreed(cfg, cfg2, OutsideNode(n, holes)) && (chain != [] ==> Visible(cfg, chain[0].id) == Visible(cfg2, chain[0].id))
    ensures RenderAll(WalkNode(cfg, n, chain, ctx)) == RenderAll(WalkNode(cfg2, m, chain, ctx))
    ensures n.id !in holes && !n.Elem? ==> WalkNode(cfg, n, chain, ctx) == WalkNode(cfg2, m, chain, ctx)
    decreases n, 1
  {
    if n.id in holes {
      hide WalkNode, Agreed, AlikeNode;
      DarkNode(cfg, n, chain, ctx);
      DarkNode(cfg2, m, chain, ctx);
    } else if n.Elem? {
      AlikeWalkElement(cfg, cfg2, n, m, holes, chain, ctx);
    }
  }

  lemma {:induction false} AlikeWalkElement(cfg: Config, cfg2: Config, n: Node, m: Node, holes: set<nat>, chain: seq<Frame>, ctx: NsMap)
    requires n.Elem? && n.id !in holes && AlikeNode(n, m, holes)
    requires QuietNode(cfg.nodeSet, n, holes) && QuietNode(cfg2.nodeSet, m, holes)
    requires Agreed(cfg, cfg2, OutsideNode(n, holes)) && (chain != [] ==> Visible(cfg, chain[0].id) == Visible(cfg2, chain[0].id))
    ensures RenderAll(WalkNode(cfg, n, chain, ctx)) == RenderAll(WalkNode(cfg2, m, chain, ctx))
    decreases n, 0
  {
    var here := [Frame(n.id, n.elem)] + chain;
    SetsAgreeOnFewer(cfg.nodeSet, cfg2.nodeSet, OutsideNode(n, holes), {n.id});
    SetsAgreeOnFewer(cfg.nodeSet, cfg2.nodeSet, OutsideNode(n, holes), Outside(n.children, holes));
    AgreedTag(cfg, cfg2, here, ctx);
    assert Visible(cfg, n.id) == Visible(cfg2, n.id);
    hide Walk, RenderAll, StartTag, ChildCtx, FloatingDecls, DeclList, SetsAgree, Quiet, Outside, Alike, NsFiltered, Visible, TagName;
    var inner := if Visible(cfg, n.id) then ChildCtx(cfg, here, ctx) else ctx;
    AlikeWalk(cfg, cfg2, n.children, m.children, holes, here, inner);
    var a, b := Walk(cfg, n.children, here, inner), Walk(cfg2, m.children, here, inner);
    if Visible(cfg, n.id) {
      hide WalkNode;
      VisibleWalk(cfg, n, chain, ctx);
      VisibleWalk(cfg2, m, chain, ctx);
      RenderEnclosed(StartTag(cfg, here, ctx), a, TagName(n.elem));
      RenderEnclosed(StartTag(cfg2, here, ctx), b, TagName(m.elem));
    } else {
      var f := if Floats(cfg) then [Floating(DeclList(FloatingDecls(cfg, here, ctx)))] else [];
      RenderConcat(f, a);
      RenderConcat(f, b);
    }
  }

  lemma VisibleWalk(cfg: Config, n: Node, chain: seq<Frame>, ctx: NsMap)
    requires n.Elem? && Visible(cfg, n.id)
    ensures var here := [Frame(n.id, n.elem)] + chain;
      WalkNode(cfg, n, chain, ctx) == [StartTag(cfg, here, ctx)] + Walk(cfg, n.children, here, ChildCtx(cfg, here, ctx)) + [End(TagName(n.elem))]
  {
    hide Walk, StartTag, ChildCtx, TagName;
  }

  lemma {:induction false} AlikeTop(cfg: Config, cfg2: Config, ns: seq<Node>, ms: seq<Node>, holes: set<nat>, before: bool)
    requires Alike(ns, ms, holes) && Quiet(cfg.nodeSet, ns, holes) && Quiet(cfg2.nodeSet, ms, holes)
    requires Agreed(cfg, cfg2, Outside(ns, holes)) && forall i :: 0 <= i < |ns| ==> ns[i].id !in holes
    ensures RenderAll(WalkTop(cfg, ns, before)) == RenderAll(WalkTop(cfg2, ms, before))
    ensures HasElement(ns) == HasElement(ms)
  {
    if ns == [] {
      assert ns == ms;
    } else {
      var n, m, rest, more := ns[0], ms[0], ns[1..], ms[1..];
      SetsAgreeOnFewer(cfg.nodeSet, cfg2.nodeSet, Outside(ns, holes), OutsideNode(n, holes));
      SetsAgreeOnFewer(cfg.nodeSet, cfg2.nodeSet, Outside(ns, holes), Outside(rest, holes));
      assert n.Elem? == m.Elem? && n.Comment? == m.Comment? && n.PI? == m.PI?;
      AlikeTop(cfg, cfg2, rest, more, holes, before || n.Elem?);
      AlikeWalkNode(cfg, cfg2, n, m, holes, [], map[]);
      assert ns == [n] + rest && ms == [m] + more && n.id !in holes;
      WalkTopCons(cfg, n, rest, before);
      WalkTopCons(cfg2, m, more, before);
      HasElementCons(n, rest);
      HasElementCons(m, more);
      hide WalkTop, WalkNode, RenderAll, HasElement, Alike, AlikeNode, Quiet, Agreed, Outside;
      RenderConcat(TopNode(cfg, n, before, HasElement(rest)), WalkTop(cfg, rest, before || n.Elem?));
      RenderConcat(TopNode(cfg2, m, before, HasElement(more)), WalkTop(cfg2, more, before || m.Elem?));
    }
  }

  /** Two documents that differ only inside holes, with unique ids and no hole at the top. */
  ghost predicate Edited(doc: Document, doc2: Document, holes: set<nat>) {
    && WellIdentified(doc) && WellIdentified(doc2) && doc.rootId == doc2.rootId
    && Alike(doc.children, doc2.children, holes)
    && forall i :: 0 <= i < |doc.children| ==> doc.children[i].id !in holes
  }

  /** The set avoids the holes, with nodes and with namespace nodes. */
  ghost predicate QuietSet(s: Option<NodeSet>, doc: Document, holes: set<nat>) {
    Quiet(s, doc.children, holes)
  }

  /** The frame property: what avoids the holes has the same canonical form. */
  lemma EditedCanon(mode: Mode, withComments: bool, a: Option<NodeSet>, b: Option<NodeSet>,
                    doc: Document, doc2: Document, holes: set<nat>)
    requires Edited(doc, doc2, holes) && SetsAgree(a, b, Outside(doc.children, holes))
    requires QuietSet(a, doc, holes) && QuietSet(b, doc2, holes)
    ensures C14n(Config(mode, withComments, a), doc) == C14n(Config(mode, withComments, b), doc2)
  {
    hide WalkTop, RenderAll, Alike, Quiet, SetsAgree, Outside;
    AlikeTop(Config(mode, withComments, a), Config(mode, withComments, b), doc.children, doc2.children, holes, false);
  }

  // ---------------------------------------------------------------- sets that avoid holes

  lemma {:induction false} QuietWithoutHoles(q: Option<NodeSet>, ns: seq<Node>, holes: set<nat>)
    requires ForestIds(ns) !! holes
    ensures Quiet(q, ns, holes)
    decreases ns
  {
    if ns != [] {
      assert ns[0].id in Ids(ns[0]);
      if ns[0].Elem? {
        QuietWithoutHoles(q, ns[0].children, holes);
      }
      QuietWithoutHoles(q, ns[1..], holes);
    }
  }

  lemma {:induction false} QuietMembers(q: Option<NodeSet>, ns: seq<Node>, holes: set<nat>)
    requires forall c :: c in ns ==> QuietNode(q, c, holes)
    ensures Quiet(q, ns, holes)
  {
    if ns != [] {
      QuietMembers(q, ns[1..], holes);
    }
  }

  /** If all holes are below one element, quiet below it is quiet everywhere. */
  lemma {:induction false} QuietAround(q: Option<NodeSet>, ns: seq<Node>, chain: seq<Frame>, s: Spot, holes: set<nat>)
    requires UniqueIds(ns) && s in Spots.Spots(ns, chain) && s.node.Elem?
    requires holes * ForestIds(ns) <= ForestIds(s.node.children) && Quiet(q, s.node.children, holes)
    ensures Quiet(q, ns, holes)
    decreases ns
  {
    var n, rest := ns[0], ns[1..];
    NodeSpotsMember(s, n, chain);
    InNode(n, chain, s);
    assert n.id in Ids(n) && Ids(s.node) == {s.node.id} + ForestIds(s.node.children);
    if s in NodeSpots(n, chain) {
      QuietWithoutHoles(q, rest, holes);
      if s != Spot(n, chain) {
        SpotIdsIn(n.children, Below(n, chain), s);
        QuietAround(q, n.children, Below(n, chain), s, holes);
      }
    } else {
      SpotIdsIn(rest, chain, s);
      QuietAround(q, rest, chain, s, holes);
      if n.Elem? {
        QuietWithoutHoles(q, n.children, holes);
      }
    }
  }

  lemma {:induction false} DarkQuiet(q: Option<NodeSet>, ns: seq<Node>, holes: set<nat>)
    requires forall id :: id in ForestIds(ns) ==> Dark(q, id)
    ensures Quiet(q, ns, holes)
    decreases ns
  {
    hide Dark;
    if ns != [] {
      assert forall id :: id in Ids(ns[0]) ==> id in ForestIds(ns);
      if ns[0].Elem? {
        DarkQuiet(q, ns[0].children, holes);
      }
      DarkQuiet(q, ns[1..], holes);
    }
  }

  /** A set that is dark outside one subtree avoids the holes, if the subtree does. */
  lemma {:induction false} QuietAside(q: Option<NodeSet>, ns: seq<Node>, chain: seq<Frame>, x: Spot, holes: set<nat>)
    requires UniqueIds(ns) && x in Spots.Spots(ns, chain) && x.node.id in Outside(ns, holes) && Ids(x.node) !! holes
    requires forall id :: id !in Ids(x.node) ==> Dark(q, id)
    ensures Quiet(q, ns, holes)
    decreases ns
  {
    hide Dark;
    var n, rest := ns[0], ns[1..];
    NodeSpotsMember(x, n, chain);
    InNode(n, chain, x);
    OutsideWithin(rest, holes);
    OutsideNodeWithin(n, holes);
    assert n.id in Ids(n);
    if x in NodeSpots(n, chain) {
      DarkQuiet(q, rest, holes);
      if x == Spot(n, chain) {
        if n.Elem? {
          QuietWithoutHoles(q, n.children, holes);
        }
      } else {
        SpotIdsIn(n.children, Below(n, chain), x);
        QuietAside(q, n.children, Below(n, chain), x, holes);
      }
    } else {
      SpotIdsIn(rest, chain, x);
      QuietAside(q, rest, chain, x, holes);
      if n.Elem? {
        DarkQuiet(q, n.children, holes);
      }
    }
  }

  lemma OutsideNodeWithin(n: Node, holes: set<nat>)
    ensures OutsideNode(n, holes) <= Ids(n)
  {
    if n.Elem? {
      OutsideWithin(n.children, holes);
    }
  }

  // ---------------------------------------------------------------- selections

  lemma {:induction false} SubtreeSpots(ns: seq<Node>, chain: seq<Frame>, t: Spot, s: Spot)
    requires t in Spots.Spots(ns, chain) && s in NodeSpots(t.node, t.above)
    ensures s in Spots.Spots(ns, chain)
    decreases ns
  {
    var n := ns[0];
    if t in NodeSpots(n, chain) {
      NodeSpotsMember(t, n, chain);
      if t != Spot(n, chain) {
        SubtreeSpots(n.children, Below(n, chain), t, s);
      }
      NodeSpotsMember(s, n, chain);
    } else {
      SubtreeSpots(ns[1..], chain, t, s);
    }
  }

  /** Which nodes a subtree walk collects: all of them, or all but the comments. */
  lemma {:induction false} CollectedForest(ns: seq<Node>, chain: seq<Frame>, comments: bool, s: Spot)
    requires UniqueIds(ns) && s in Spots.Spots(ns, chain)
    ensures s.node.id in SubtreesIds(ns, comments) <==> comments || !s.node.Comment?
    decreases ns, 0
  {
    InNode(ns[0], chain, s);
    if s in NodeSpots(ns[0], chain) {
      CollectedNode(ns[0], chain, comments, s);
      SubtreesIdsWithin(ns[1..], comments);
    } else {
      SpotIdsIn(ns[1..], chain, s);
      SubtreeIdsWithin(ns[0], comments);
      CollectedForest(ns[1..], chain, comments, s);
    }
  }

  lemma {:induction false} CollectedNode(n: Node, chain: seq<Frame>, comments: bool, s: Spot)
    requires UniqueNode(n) && s in NodeSpots(n, chain)
    ensures s.node.id in SubtreeIds(n, comments) <==> comments || !s.node.Comment?
    decreases n, 1
  {
    NodeSpotsMember(s, n, chain);
    if s != Spot(n, chain) {
      SpotIdsIn(n.children, Below(n, chain), s);
      CollectedForest(n.children, Below(n, chain), comments, s);
    }
  }

  lemma {:induction false} UniqueBelow(ns: seq<Node>, chain: seq<Frame>, t: Spot)
    requires UniqueIds(ns) && t in Spots.Spots(ns, chain)
    ensures UniqueNode(t.node)
    decreases ns
  {
    var n := ns[0];
    if t in NodeSpots(n, chain) {
      NodeSpotsMember(t, n, chain);
      if t != Spot(n, chain) {
        UniqueBelow(n.children, Below(n, chain), t);
      }
    } else {
      UniqueBelow(ns[1..], chain, t);
    }
  }

  lemma CollectedSubtree(doc: Document, t: Spot, comments: bool, s: Spot)
    requires WellIdentified(doc) && t in AllSpots(doc) && s in AllSpots(doc)
    ensures s.node.id in SubtreeIds(t.node, comments) <==> s.node.id in Ids(t.node) && (comments || !s.node.Comment?)
  {
    SubtreeIdsWithin(t.node, comments);
    UniqueBelow(doc.children, [], t);
    if s.node.id in Ids(t.node) {
      var x := IdsHaveSpots([t.node], t.above, s.node.id) by {
        assert ForestIds([t.node]) == Ids(t.node) by { assert [t.node][1..] == []; }
      }
      assert x in NodeSpots(t.node, t.above) by {
        assert [t.node][1..] == [];
        assert Spots.Spots([t.node], t.above) == NodeSpots(t.node, t.above) + [];
      }
      SubtreeSpots(doc.children, [], t, x);
      SpotsUnique(doc.children, [], x, s);
      CollectedNode(t.node, t.above, comments, s);
    }
  }
}
