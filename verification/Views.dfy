/**
 What canonicalization looks at.  The view of a document under a node set keeps the nodes that
 are visible or have something visible below them, with the namespaces shown at each element,
 and forgets which id they had.  Canonical text is a function of the view, so whatever the view
 drops cannot matter.
 */
module Views {
  import opened Dom
  import opened Tokens
  import opened Render
  import opened Ordering
  import opened NodeSets
  import opened Namespaces
  import opened Canonical

  datatype Seen =
    | SeenElement(rendered: bool, elem: Element, shown: NsMap, kids: seq<Seen>)
    | SeenLeaf(leaf: Node)

  /** In a view, rendered nodes have id 1 and the hidden ones that are kept have id 0. */
  function Mark(cfg: Config, id: nat): nat {
    if Visible(cfg, id) then 1 else 0
  }

  /** What an element shows of its namespaces, where the set says so. */
  function Looks(cfg: Config, here: seq<Frame>): NsMap
    requires here != []
  {
    if NsFiltered(cfg) && (Visible(cfg, here[0].id) || Floats(cfg)) then ShownNs(cfg, here) else map[]
  }

  function View(cfg: Config, ns: seq<Node>, chain: seq<Frame>): seq<Seen>
    decreases ns, 0
  {
    if ns == [] then [] else ViewNode(cfg, ns[0], chain) + View(cfg, ns[1..], chain)
  }

  function ViewNode(cfg: Config, n: Node, chain: seq<Frame>): seq<Seen>
    decreases n, 1
  {
    match n
    case Elem(id, e, kids) =>
      var here := [Frame(id, e)] + chain;
      var below := View(cfg, kids, here);
      if Visible(cfg, id) || below != [] || Looks(cfg, here) != map[]
      then [SeenElement(Visible(cfg, id), e, Looks(cfg, here), below)] else []
    case Text(id, text) => if Visible(cfg, id) then [SeenLeaf(Text(1, text))] else []
    case CData(id, text) => if Visible(cfg, id) then [SeenLeaf(Text(1, text))] else []
    case Comment(id, text) => if cfg.withComments && Visible(cfg, id) then [SeenLeaf(Comment(1, text))] else []
    case PI(id, target, data) => if Visible(cfg, id) then [SeenLeaf(PI(1, target, data))] else []
  }

  /** Elements beside the document node stay, hidden or not: line breaks depend on them. */
  function TopView(cfg: Config, ns: seq<Node>): seq<Seen> {
    if ns == [] then [] else TopViewNode(cfg, ns[0]) + TopView(cfg, ns[1..])
  }

  function TopViewNode(cfg: Config, n: Node): seq<Seen> {
    if n.Elem? then
      var here := [Frame(n.id, n.elem)] + [];
      [SeenElement(Visible(cfg, n.id), n.elem, Looks(cfg, here), View(cfg, n.children, here))]
    else ViewNode(cfg, n, [])
  }

  // ---------------------------------------------------------------- the text of a view

  /** What of a configuration remains when ids are forgotten. */
  function Base(cfg: Config): Config {
    if cfg.nodeSet.None? then cfg
    else
      var s := cfg.nodeSet.value;
      cfg.(nodeSet := Some(NodeSet({1}, Normal, if s.nsVisible.Some? then Some(map[]) else None, s.excludeAttrs)))
  }

  /** The configuration at one element of the view. */
  function At(base: Config, mark: nat, shown: NsMap): Config {
    if NsFiltered(base) then
      base.(nodeSet := Some(base.nodeSet.value.(nsVisible := Some(map p | p in shown :: (mark, p) := true))))
    else base
  }

  function ViewText(base: Config, vs: seq<Seen>, chain: seq<Frame>, ctx: NsMap): string
    decreases vs, 0
  {
    if vs == [] then "" else SeenText(base, vs[0], chain, ctx) + ViewText(base, vs[1..], chain, ctx)
  }

  function SeenText(base: Config, v: Seen, chain: seq<Frame>, ctx: NsMap): string
    decreases v, 1
  {
    match v
    case SeenLeaf(n) => RenderAll(WalkNode(base, n, chain, ctx))
    case SeenElement(rendered, e, shown, kids) =>
      var mark := if rendered then 1 else 0;
      var here, c := [Frame(mark, e)] + chain, At(base, mark, shown);
      if rendered then
        RenderToken(StartTag(c, here, ctx)) + ViewText(base, kids, here, ChildCtx(c, here, ctx)) + RenderToken(End(TagName(e)))
      else
        (if Floats(base) then RenderDecls(DeclList(FloatingDecls(c, here, ctx))) else "") + ViewText(base, kids, here, ctx)
  }

  predicate SeesElement(vs: seq<Seen>) {
    exists i :: 0 <= i < |vs| && vs[i].SeenElement?
  }

  function TopText(base: Config, vs: seq<Seen>, before: bool): string {
    if vs == [] then ""
    else TopSeen(base, vs[0], before, SeesElement(vs[1..])) + TopText(base, vs[1..], before || vs[0].SeenElement?)
  }

  function TopSeen(base: Config, v: Seen, before: bool, after: bool): string {
    var t := SeenText(base, v, [], map[]);
    if v.SeenLeaf? && (v.leaf.Comment? || v.leaf.PI?) then
      (if before then "\n" else "") + t + (if after then "\n" else "")
    else t
  }

  // ---------------------------------------------------------------- ancestors

  function Marked(cfg: Config, chain: seq<Frame>): seq<Frame> {
    seq(|chain|, i requires 0 <= i < |chain| => Frame(Mark(cfg, chain[i].id), chain[i].elem))
  }

  lemma MarkedCons(cfg: Config, f: Frame, chain: seq<Frame>)
    ensures Marked(cfg, [f] + chain) == [Frame(Mark(cfg, f.id), f.elem)] + Marked(cfg, chain)
    ensures Marked(cfg, []) == []
  {
  }

  predicate SameElements(a: seq<Frame>, b: seq<Frame>) {
    |a| == |b| && forall i :: 0 <= i < |a| ==> a[i].elem == b[i].elem
  }

  /** What is inherited from ancestors depends on their tags only. */
  lemma {:induction false} SameInheritance(a: seq<Frame>, b: seq<Frame>)
    requires SameElements(a, b)
    ensures forall keep :: Inscope(keep, a) == Inscope(keep, b)
    ensures InheritedXml(a) == InheritedXml(b)
    ensures forall resolve :: AbsoluteBase(resolve, a) == AbsoluteBase(resolve, b)
  {
    if a != [] {
      SameInheritance(a[1..], b[1..]);
    }
  }

  /** The configuration of the view at an element of the document. */
  function Here(cfg: Config, here: seq<Frame>): Config
    requires here != []
  {
    At(Base(cfg), Mark(cfg, here[0].id), Looks(cfg, here))
  }

  lemma SameShown(cfg: Config, here: seq<Frame>)
    requires here != [] && (Visible(cfg, here[0].id) || Floats(cfg))
    ensures ShownNs(Here(cfg, here), Marked(cfg, here)) == ShownNs(cfg, here)
  {
    hide Inscope, InheritedXml, AbsoluteBase;
    var c2, m := Here(cfg, here), Marked(cfg, here);
    SameInheritance(here, m);
    hide SameElements;
    assert c2.mode == cfg.mode && NsFiltered(c2) == NsFiltered(cfg) && m[0].id == Mark(cfg, here[0].id);
    if NsFiltered(cfg) {
      var shown := ShownNs(cfg, here);
      assert forall p :: c2.nodeSet.value.NsVisible(m[0].id, p) <==> p in shown;
    }
  }

  lemma SameAttrs(cfg: Config, here: seq<Frame>)
    requires here != []
    ensures TagAttrs(Here(cfg, here), Marked(cfg, here)) == TagAttrs(cfg, here)
  {
    var c2, m := Here(cfg, here), Marked(cfg, here);
    SameInheritance(here, m);
    SameInheritance(here[1..], m[1..]);
    hide InheritedXml, AbsoluteBase, Sort, ExtraAttrs, SetBase, Looks;
    assert ParentHidden(c2, m) == ParentHidden(cfg, here);
  }

  /** Tags, contexts and stray declarations are those of the view. */
  lemma MarkedTag(cfg: Config, here: seq<Frame>, ctx: NsMap)
    requires here != [] && (Visible(cfg, here[0].id) || Floats(cfg))
    ensures var c2, m := Here(cfg, here), Marked(cfg, here);
      && StartTag(c2, m, ctx) == StartTag(cfg, here, ctx) && ChildCtx(c2, m, ctx) == ChildCtx(cfg, here, ctx)
      && FloatingDecls(c2, m, ctx) == FloatingDecls(cfg, here, ctx)
  {
    SameShown(cfg, here);
    SameAttrs(cfg, here);
    var c2, m := Here(cfg, here), Marked(cfg, here);
    assert c2.mode == cfg.mode && NsFiltered(c2) == NsFiltered(cfg) && m[0].elem == here[0].elem;
    hide ShownNs, Here, Marked;
    assert FloatingDecls(c2, m, ctx) == FloatingDecls(cfg, here, ctx);
    hide *;
    SameTag(cfg, here, c2, m, ctx);
  }

  lemma SameFloats(cfg: Config)
    ensures Floats(Base(cfg)) == Floats(cfg)
  {
  }

  // ---------------------------------------------------------------- the walk

  lemma {:induction false} ViewTextConcat(base: Config, a: seq<Seen>, b: seq<Seen>, chain: seq<Frame>, ctx: NsMap)
    ensures ViewText(base, a + b, chain, ctx) == ViewText(base, a, chain, ctx) + ViewText(base, b, chain, ctx)
  {
    hide SeenText;
    if a == [] {
      assert a + b == b;
    } else {
      assert (a + b)[1..] == a[1..] + b;
      ViewTextConcat(base, a[1..], b, chain, ctx);
    }
  }

  lemma ViewTextOne(base: Config, v: Seen, chain: seq<Frame>, ctx: NsMap)
    ensures ViewText(base, [v], chain, ctx) == SeenText(base, v, chain, ctx) && ViewText(base, [], chain, ctx) == ""
  {
    hide SeenText;
    assert [v][1..] == [];
  }

  lemma {:induction false} TextOfView(cfg: Config, ns: seq<Node>, chain: seq<Frame>, ctx: NsMap)
    ensures ViewText(Base(cfg), View(cfg, ns, chain), Marked(cfg, chain), ctx) == RenderAll(Walk(cfg, ns, chain, ctx))
    decreases ns, 0
  {
    hide WalkNode, ViewNode, RenderAll, ViewText;
    RenderEmpty();
    if ns == [] {
      ViewTextOne(Base(cfg), SeenLeaf(Text(1, "")), Marked(cfg, chain), ctx);
    } else {
      TextOfNode(cfg, ns[0], chain, ctx);
      TextOfView(cfg, ns[1..], chain, ctx);
      ViewTextConcat(Base(cfg), ViewNode(cfg, ns[0], chain), View(cfg, ns[1..], chain), Marked(cfg, chain), ctx);
      RenderConcat(WalkNode(cfg, ns[0], chain, ctx), Walk(cfg, ns[1..], chain, ctx));
    }
  }

  lemma {:induction false} TextOfNode(cfg: Config, n: Node, chain: seq<Frame>, ctx: NsMap)
    ensures ViewText(Base(cfg), ViewNode(cfg, n, chain), Marked(cfg, chain), ctx) == RenderAll(WalkNode(cfg, n, chain, ctx))
    decreases n, 1
  {
    var base, m := Base(cfg), Marked(cfg, chain);
    ViewTextOne(base, SeenLeaf(Text(1, "")), m, ctx);
    RenderEmpty();
    if n.Elem? {
      var here := [Frame(n.id, n.elem)] + chain;
      var v := SeenElement(Visible(cfg, n.id), n.elem, Looks(cfg, here), View(cfg, n.children, here));
      hide ViewText, SeenText, WalkNode, RenderAll, Looks;
      ViewTextOne(base, v, m, ctx);
      TextOfElement(cfg, n, chain, ctx);
    } else {
      var v := ViewNode(cfg, n, chain);
      hide ViewText, RenderAll, InstructionToken;
      if v != [] {
        assert v == [v[0]] && WalkNode(base, v[0].leaf, m, ctx) == WalkNode(cfg, n, chain, ctx);
        ViewTextOne(base, v[0], m, ctx);
      }
    }
  }

  lemma {:induction false} TextOfElement(cfg: Config, n: Node, chain: seq<Frame>, ctx: NsMap)
    requires n.Elem?
    ensures var here := [Frame(n.id, n.elem)] + chain;
      var v := SeenElement(Visible(cfg, n.id), n.elem, Looks(cfg, here), View(cfg, n.children, here));
      && SeenText(Base(cfg), v, Marked(cfg, chain), ctx) == RenderAll(WalkNode(cfg, n, chain, ctx))
      && (!v.rendered && v.kids == [] && v.shown == map[] ==> RenderAll(WalkNode(cfg, n, chain, ctx)) == "")
    decreases n, 0
  {
    var here := [Frame(n.id, n.elem)] + chain;
    MarkedCons(cfg, Frame(n.id, n.elem), chain);
    var inner := if Visible(cfg, n.id) then ChildCtx(cfg, here, ctx) else ctx;
    hide *;
    TextOfView(cfg, n.children, here, inner);
    if Visible(cfg, n.id) {
      RenderedText(cfg, n, chain, ctx);
    } else {
      HiddenText(cfg, n, chain, ctx);
    }
  }

  lemma RenderedText(cfg: Config, n: Node, chain: seq<Frame>, ctx: NsMap)
    requires n.Elem? && Visible(cfg, n.id)
    requires var here := [Frame(n.id, n.elem)] + chain;
      var inner := ChildCtx(cfg, here, ctx);
      && Marked(cfg, here) == [Frame(Mark(cfg, n.id), n.elem)] + Marked(cfg, chain)
      && ViewText(Base(cfg), View(cfg, n.children, here), Marked(cfg, here), inner) == RenderAll(Walk(cfg, n.children, here, inner))
    ensures var here := [Frame(n.id, n.elem)] + chain;
      SeenText(Base(cfg), SeenElement(true, n.elem, Looks(cfg, here), View(cfg, n.children, here)), Marked(cfg, chain), ctx)
        == RenderAll(WalkNode(cfg, n, chain, ctx))
  {
    var here := [Frame(n.id, n.elem)] + chain;
    hide Walk, ViewText, RenderAll, StartTag, ChildCtx, FloatingDecls, Looks, View, TagName, Base, At, Marked, Floats, Visible;
    MarkedTag(cfg, here, ctx);
    RenderEnclosed(StartTag(cfg, here, ctx), Walk(cfg, n.children, here, ChildCtx(cfg, here, ctx)), TagName(n.elem));
  }

  lemma HiddenText(cfg: Config, n: Node, chain: seq<Frame>, ctx: NsMap)
    requires n.Elem? && !Visible(cfg, n.id)
    requires var here := [Frame(n.id, n.elem)] + chain;
      && Marked(cfg, here) == [Frame(Mark(cfg, n.id), n.elem)] + Marked(cfg, chain)
      && ViewText(Base(cfg), View(cfg, n.children, here), Marked(cfg, here), ctx) == RenderAll(Walk(cfg, n.children, here, ctx))
    ensures var here := [Frame(n.id, n.elem)] + chain;
      var v := SeenElement(false, n.elem, Looks(cfg, here), View(cfg, n.children, here));
      && SeenText(Base(cfg), v, Marked(cfg, chain), ctx) == RenderAll(WalkNode(cfg, n, chain, ctx))
      && (v.kids == [] && v.shown == map[] ==> RenderAll(WalkNode(cfg, n, chain, ctx)) == "")
  {
    var here := [Frame(n.id, n.elem)] + chain;
    var f := if Floats(cfg) then [Floating(DeclList(FloatingDecls(cfg, here, ctx)))] else [];
    assert WalkNode(cfg, n, chain, ctx) == f + Walk(cfg, n.children, here, ctx);
    assert Mark(cfg, n.id) == 0 && here[0].id == n.id;
    assert Here(cfg, here) == At(Base(cfg), 0, Looks(cfg, here));
    hide *;
    SeenHidden(Base(cfg), n.elem, Looks(cfg, here), View(cfg, n.children, here), Marked(cfg, chain), ctx);
    SameFloats(cfg);
    ViewTextOne(Base(cfg), SeenLeaf(Text(1, "")), Marked(cfg, here), ctx);
    RenderConcat(f, Walk(cfg, n.children, here, ctx));
    RenderEmpty();
    if Floats(cfg) {
      MarkedTag(cfg, here, ctx);
      StrayText(DeclList(FloatingDecls(cfg, here, ctx)));
      NothingShown(cfg, here, ctx);
    }
  }

  lemma StrayText(ds: seq<NsDecl>)
    ensures RenderAll([Floating(ds)]) == RenderDecls(ds)
  {
    RenderOne(Floating(ds));
  }

  lemma SeenHidden(base: Config, e: Element, shown: NsMap, kids: seq<Seen>, chain: seq<Frame>, ctx: NsMap)
    ensures var here, c := [Frame(0, e)] + chain, At(base, 0, shown);
      SeenText(base, SeenElement(false, e, shown, kids), chain, ctx)
        == (if Floats(base) then RenderDecls(DeclList(FloatingDecls(c, here, ctx))) else "") + ViewText(base, kids, here, ctx)
  {
    hide ViewText, At, Floats, FloatingDecls, RenderDecls, DeclList;
  }

  lemma NothingShown(cfg: Config, here: seq<Frame>, ctx: NsMap)
    requires here != [] && Floats(cfg)
    ensures Looks(cfg, here) == map[] ==> RenderDecls(DeclList(FloatingDecls(cfg, here, ctx))) == ""
  {
    hide ShownNs;
    if Looks(cfg, here) == map[] {
      assert FloatingDecls(cfg, here, ctx) == map[];
      hide FloatingDecls;
      assert FloatingDecls(cfg, here, ctx).Keys == {};
      RenderEmpty();
    }
  }

  // ---------------------------------------------------------------- the top level

  lemma SeesCons(v: Seen, vs: seq<Seen>)
    ensures SeesElement([v] + vs) <==> v.SeenElement? || SeesElement(vs)
  {
    var all := [v] + vs;
    assert all[0] == v;
    if i :| 0 <= i < |vs| && vs[i].SeenElement? {
      assert all[i + 1] == vs[i];
    }
  }

  lemma {:induction false} TopOfView(cfg: Config, ns: seq<Node>, before: bool)
    ensures TopText(Base(cfg), TopView(cfg, ns), before) == RenderAll(WalkTop(cfg, ns, before))
    ensures SeesElement(TopView(cfg, ns)) == HasElement(ns)
  {
    if ns != [] {
      var n, rest := ns[0], ns[1..];
      var more := TopView(cfg, rest);
      TopOfView(cfg, rest, before || n.Elem?);
      assert ns == [n] + rest;
      WalkTopCons(cfg, n, rest, before);
      HasElementCons(n, rest);
      RenderConcat(TopNode(cfg, n, before, HasElement(rest)), WalkTop(cfg, rest, before || n.Elem?));
      hide WalkTop, TopViewNode, TopNode, HasElement, RenderAll, TopText, SeesElement;
      TopOfNode(cfg, n, before, HasElement(rest), more);
    }
  }

  lemma TopOfNode(cfg: Config, n: Node, before: bool, after: bool, more: seq<Seen>)
    requires after == SeesElement(more)
    ensures var v := TopViewNode(cfg, n);
      && TopText(Base(cfg), v + more, before) ==
           RenderAll(TopNode(cfg, n, before, after)) + TopText(Base(cfg), more, before || n.Elem?)
      && (SeesElement(v + more) <==> n.Elem? || SeesElement(more))
  {
    var base, v := Base(cfg), TopViewNode(cfg, n);
    TopTokens(cfg, n, before, after);
    TopShape(cfg, n);
    if v == [] {
      hide *;
      assert v + more == more;
    } else {
      SeesCons(v[0], more);
      assert ([v[0]] + more)[1..] == more;
      hide TopSeen, TopNode, RenderAll, SeesElement, TopViewNode;
      assert TopText(base, [v[0]] + more, before) == TopSeen(base, v[0], before, after) + TopText(base, more, before || v[0].SeenElement?);
    }
  }

  lemma TopShape(cfg: Config, n: Node)
    ensures var v := TopViewNode(cfg, n);
      if v == [] then !n.Elem?
      else v == [v[0]] && v[0].SeenElement? == n.Elem? && (v[0].SeenLeaf? ==> v[0].leaf.Comment? == n.Comment? && v[0].leaf.PI? == n.PI?)
  {
  }

  lemma TopTokens(cfg: Config, n: Node, before: bool, after: bool)
    ensures var v := TopViewNode(cfg, n);
      RenderAll(TopNode(cfg, n, before, after)) == if v == [] then "" else TopSeen(Base(cfg), v[0], before, after)
  {
    var base, v := Base(cfg), TopViewNode(cfg, n);
    assert Marked(cfg, []) == [];
    if n.Elem? {
      hide WalkNode, RenderAll, SeenText, View, Looks, Base;
      TextOfElement(cfg, n, [], map[]);
    } else {
      LeafText(cfg, n);
      var ts := WalkNode(cfg, n, [], map[]);
      assert v == [] <==> ts == [];
      TopShape(cfg, n);
      hide WalkNode, RenderAll, SeenText, ViewNode, TopViewNode, Base;
      RenderEmpty();
      if v != [] {
        Broken(ts, before, after);
      }
    }
  }

  lemma LeafText(cfg: Config, n: Node)
    requires !n.Elem?
    ensures var v := ViewNode(cfg, n, []);
      v != [] ==> SeenText(Base(cfg), v[0], [], map[]) == RenderAll(WalkNode(cfg, n, [], map[]))
  {
    hide RenderAll, InstructionToken;
  }

  lemma Broken(ts: seq<Token>, before: bool, after: bool)
    ensures var a, b := if before then [Break] else [], if after then [Break] else [];
      RenderAll(a + ts + b) == (if before then "\n" else "") + RenderAll(ts) + (if after then "\n" else "")
  {
    var a, b := if before then [Break] else [], if after then [Break] else [];
    hide RenderAll;
    RenderEmpty();
    RenderConcat(a + ts, b);
    RenderConcat(a, ts);
  }

  /** The frame theorem: two documents with the same view have the same canonical text, whatever
      they hold outside it and whatever their nodes are numbered. */
  lemma SameViewSameCanon(cfg: Config, doc: Document, cfg2: Config, doc2: Document)
    requires Base(cfg) == Base(cfg2) && TopView(cfg, doc.children) == TopView(cfg2, doc2.children)
    ensures C14n(cfg, doc) == C14n(cfg2, doc2)
  {
    hide TopText, TopView, RenderAll, WalkTop;
    TopOfView(cfg, doc.children, false);
    TopOfView(cfg2, doc2.children, false);
  }
}
