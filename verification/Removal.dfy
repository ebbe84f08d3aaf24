/**
 Hiding a subtree from a node set and deleting it from the document: how the two texts differ.
 */
module Removal {
  import opened Dom
  import opened Tokens
  import opened Render
  import opened NodeSets
  import opened Namespaces
  import opened Canonical
  import opened Spots
  import opened Edits

  /** The forest without the subtree whose top node is `id`. */
  function Delete(ns: seq<Node>, id: nat): seq<Node>
    decreases ns, 0
  {
    if ns == [] then []
    else (if ns[0].id == id then [] else [DeleteIn(ns[0], id)]) + Delete(ns[1..], id)
  }

  function DeleteIn(n: Node, id: nat): Node
    decreases n, 1
  {
    if n.Elem? then n.(children := Delete(n.children, id)) else n
  }

  /** The configuration after the node ids `gone` were removed from its node set. */
  function Without(cfg: Config, gone: set<nat>): Config
    requires cfg.nodeSet.Some?
  {
    cfg.(nodeSet := Some(cfg.nodeSet.value.(nodes := cfg.nodeSet.value.nodes - gone)))
  }

  /** The node set lists its members, as every set built by the transforms does. */
  predicate Trims(cfg: Config) {
    cfg.nodeSet.Some? && cfg.nodeSet.value.setType.Normal?
  }

  lemma {:induction false} Untouched(ns: seq<Node>, id: nat)
    requires id !in ForestIds(ns)
    ensures Delete(ns, id) == ns
    decreases ns
  {
    if ns != [] {
      assert ns[0].id in Ids(ns[0]);
      if ns[0].Elem? {
        Untouched(ns[0].children, id);
      }
      Untouched(ns[1..], id);
    }
  }

  lemma UntouchedNode(n: Node, id: nat)
    requires id !in Ids(n)
    ensures DeleteIn(n, id) == n && n.id != id
  {
    if n.Elem? {
      Untouched(n.children, id);
    }
  }

  // ---------------------------------------------------------------- namespace nodes that stay

  /** No element among `gone` has a namespace node that the set still shows and that would be
      written although the element is not: its bindings are those of the nearest tag. */
  predicate Clean(cfg: Config, gone: set<nat>, ns: seq<Node>, chain: seq<Frame>, ctx: NsMap)
    decreases ns, 0
  {
    ns == [] || (CleanNode(cfg, gone, ns[0], chain, ctx) && Clean(cfg, gone, ns[1..], chain, ctx))
  }

  predicate CleanNode(cfg: Config, gone: set<nat>, n: Node, chain: seq<Frame>, ctx: NsMap)
    decreases n, 1
  {
    n.Elem? ==>
      var here := [Frame(n.id, n.elem)] + chain;
      && (n.id in gone && Floats(cfg) ==> FloatingDecls(cfg, here, ctx) == map[])
      && Clean(cfg, gone, n.children, here, if Visible(cfg, n.id) && n.id !in gone then ChildCtx(cfg, here, ctx) else ctx)
  }

  /** Unless such namespace nodes are written at all, nothing can stay. */
  lemma {:induction false} NothingFloatsClean(cfg: Config, gone: set<nat>, ns: seq<Node>, chain: seq<Frame>, ctx: NsMap)
    requires !Floats(cfg)
    ensures Clean(cfg, gone, ns, chain, ctx)
    decreases ns
  {
    hide Visible, ChildCtx, FloatingDecls;
    if ns != [] {
      if ns[0].Elem? {
        var n, here := ns[0], [Frame(ns[0].id, ns[0].elem)] + chain;
        NothingFloatsClean(cfg, gone, n.children, here, if Visible(cfg, n.id) && n.id !in gone then ChildCtx(cfg, here, ctx) else ctx);
      }
      NothingFloatsClean(cfg, gone, ns[1..], chain, ctx);
    }
  }

  // ---------------------------------------------------------------- comparing texts

  /** `a` is at least as long as `b`, and equal to it exactly if `same`. */
  predicate Gap(a: string, b: string, same: bool) {
    |a| >= |b| && (|a| == |b| <==> same) && (same ==> a == b)
  }

  lemma GapConcat(a: string, b: string, p: bool, c: string, d: string, q: bool)
    requires Gap(a, b, p) && Gap(c, d, q)
    ensures Gap(a + c, b + d, p && q)
  {
  }

  lemma GapDecls(ds: seq<NsDecl>)
    ensures Gap(RenderDecls(ds), "", ds == [])
  {
  }

  lemma DeclListEmpty(m: NsMap)
    ensures DeclList(m) == [] <==> m == map[]
  {
    if m == map[] {
      assert m.Keys == {};
    } else {
      var p :| p in m;
      assert p in m.Keys;
    }
  }

  // ---------------------------------------------------------------- beside the subtree

  lemma LessAgrees(cfg: Config, gone: set<nat>, ids: set<nat>)
    requires Trims(cfg) && gone !! ids
    ensures SetsAgree(cfg.nodeSet, Without(cfg, gone).nodeSet, ids)
    ensures NsFiltered(Without(cfg, gone)) == NsFiltered(cfg) && Floats(Without(cfg, gone)) == Floats(cfg)
  {
    var x, y := cfg.nodeSet.value, Without(cfg, gone).nodeSet.value;
    assert forall id, p :: x.NsVisible(id, p) == y.NsVisible(id, p);
  }

  /** Away from the subtree nothing changes. */
  lemma SameNode(cfg: Config, gone: set<nat>, n: Node, chain: seq<Frame>, ctx: NsMap)
    requires Trims(cfg) && gone !! Ids(n) && (chain != [] ==> chain[0].id !in gone)
    ensures RenderAll(WalkNode(Without(cfg, gone), n, chain, ctx)) == RenderAll(WalkNode(cfg, n, chain, ctx))
    ensures !n.Elem? ==> WalkNode(Without(cfg, gone), n, chain, ctx) == WalkNode(cfg, n, chain, ctx)
    ensures CleanNode(cfg, gone, n, chain, ctx)
  {
    var less := Without(cfg, gone);
    assert n.id in Ids(n);
    LessAgrees(cfg, gone, Ids(n));
    AlikeSelf([n], {});
    QuietOne(cfg.nodeSet, n);
    QuietOne(less.nodeSet, n);
    OutsideNodeWithin(n, {});
    SetsAgreeOnFewer(cfg.nodeSet, less.nodeSet, Ids(n), OutsideNode(n, {}));
    hide WalkNode, RenderAll, Quiet, Outside, SetsAgree, Clean;
    AlikeWalkNode(cfg, less, n, n, {}, chain, ctx);
    if n.Elem? {
      var here := [Frame(n.id, n.elem)] + chain;
      AsideIsClean(cfg, gone, n.children, here, if Visible(cfg, n.id) && n.id !in gone then ChildCtx(cfg, here, ctx) else ctx);
    }
  }

  lemma QuietOne(s: Option<NodeSet>, n: Node)
    ensures QuietNode(s, n, {})
  {
    if n.Elem? {
      QuietWithoutHoles(s, n.children, {});
    }
  }

  lemma {:induction false} AsideIsClean(cfg: Config, gone: set<nat>, ns: seq<Node>, chain: seq<Frame>, ctx: NsMap)
    requires gone !! ForestIds(ns)
    ensures Clean(cfg, gone, ns, chain, ctx)
    decreases ns
  {
    hide Visible, ChildCtx, FloatingDecls;
    if ns != [] {
      var n := ns[0];
      assert n.id in Ids(n);
      if n.Elem? {
        var here := [Frame(n.id, n.elem)] + chain;
        AsideIsClean(cfg, gone, n.children, here, if Visible(cfg, n.id) && n.id !in gone then ChildCtx(cfg, here, ctx) else ctx);
      }
      AsideIsClean(cfg, gone, ns[1..], chain, ctx);
    }
  }

  lemma {:induction false} SameForest(cfg: Config, gone: set<nat>, ns: seq<Node>, chain: seq<Frame>, ctx: NsMap)
    requires Trims(cfg) && gone !! ForestIds(ns) && (chain != [] ==> chain[0].id !in gone)
    ensures RenderAll(Walk(Without(cfg, gone), ns, chain, ctx)) == RenderAll(Walk(cfg, ns, chain, ctx))
    ensures Clean(cfg, gone, ns, chain, ctx)
  {
    hide WalkNode, RenderAll, CleanNode;
    if ns != [] {
      SameNode(cfg, gone, ns[0], chain, ctx);
      SameForest(cfg, gone, ns[1..], chain, ctx);
      RenderConcat(WalkNode(cfg, ns[0], chain, ctx), Walk(cfg, ns[1..], chain, ctx));
      RenderConcat(WalkNode(Without(cfg, gone), ns[0], chain, ctx), Walk(Without(cfg, gone), ns[1..], chain, ctx));
    }
  }

  // ---------------------------------------------------------------- the subtree

  /** What is written of a hidden subtree: nothing, exactly if it is clean. */
  lemma {:induction false} HiddenForest(cfg: Config, gone: set<nat>, ns: seq<Node>, chain: seq<Frame>, ctx: NsMap)
    requires Trims(cfg) && ForestIds(ns) <= gone
    ensures Gap(RenderAll(Walk(Without(cfg, gone), ns, chain, ctx)), "", Clean(cfg, gone, ns, chain, ctx))
    decreases ns, 0
  {
    hide WalkNode, RenderAll, CleanNode;
    RenderEmpty();
    if ns != [] {
      HiddenNode(cfg, gone, ns[0], chain, ctx);
      HiddenForest(cfg, gone, ns[1..], chain, ctx);
      var a, b := WalkNode(Without(cfg, gone), ns[0], chain, ctx), Walk(Without(cfg, gone), ns[1..], chain, ctx);
      RenderConcat(a, b);
      GapConcat(RenderAll(a), "", CleanNode(cfg, gone, ns[0], chain, ctx), RenderAll(b), "", Clean(cfg, gone, ns[1..], chain, ctx));
    }
  }

  lemma {:induction false} HiddenNode(cfg: Config, gone: set<nat>, n: Node, chain: seq<Frame>, ctx: NsMap)
    requires Trims(cfg) && Ids(n) <= gone
    ensures Gap(RenderAll(WalkNode(Without(cfg, gone), n, chain, ctx)), "", CleanNode(cfg, gone, n, chain, ctx))
    decreases n, 1
  {
    var less := Without(cfg, gone);
    assert n.id in Ids(n) && !Visible(less, n.id);
    RenderEmpty();
    if n.Elem? {
      var here := [Frame(n.id, n.elem)] + chain;
      hide Walk, RenderAll, Clean;
      HiddenForest(cfg, gone, n.children, here, ctx);
      SameFloating(cfg, gone, here, ctx);
      var f := if Floats(cfg) then [Floating(DeclList(FloatingDecls(cfg, here, ctx)))] else [];
      var none := Floats(cfg) ==> FloatingDecls(cfg, here, ctx) == map[];
      FloatingGap(cfg, here, ctx);
      RenderConcat(f, Walk(less, n.children, here, ctx));
      hide FloatingDecls, Floats, Without;
      GapConcat(RenderAll(f), "", none, RenderAll(Walk(less, n.children, here, ctx)), "", Clean(cfg, gone, n.children, here, ctx));
    }
  }

  lemma SameFloating(cfg: Config, gone: set<nat>, here: seq<Frame>, ctx: NsMap)
    requires Trims(cfg) && here != []
    ensures FloatingDecls(Without(cfg, gone), here, ctx) == FloatingDecls(cfg, here, ctx)
    ensures Floats(Without(cfg, gone)) == Floats(cfg)
  {
    hide Inscope;
    assert ShownNs(Without(cfg, gone), here) == ShownNs(cfg, here);
    hide ShownNs;
  }

  lemma FloatingGap(cfg: Config, here: seq<Frame>, ctx: NsMap)
    requires here != []
    ensures var f := if Floats(cfg) then [Floating(DeclList(FloatingDecls(cfg, here, ctx)))] else [];
      Gap(RenderAll(f), "", Floats(cfg) ==> FloatingDecls(cfg, here, ctx) == map[])
  {
    hide FloatingDecls, RenderAll;
    RenderEmpty();
    if Floats(cfg) {
      var m := FloatingDecls(cfg, here, ctx);
      DeclListEmpty(m);
      GapDecls(DeclList(m));
      RenderOne(Floating(DeclList(m)));
    }
  }

  // ---------------------------------------------------------------- hiding and deleting

  lemma GapCons(less: Config, cfg: Config, ns: seq<Node>, kept: Node, more: seq<Node>, chain: seq<Frame>, ctx: NsMap, p: bool, q: bool)
    requires ns != [] && Gap(RenderAll(WalkNode(less, ns[0], chain, ctx)), RenderAll(WalkNode(cfg, kept, chain, ctx)), p)
    requires Gap(RenderAll(Walk(less, ns[1..], chain, ctx)), RenderAll(Walk(cfg, more, chain, ctx)), q)
    ensures Gap(RenderAll(Walk(less, ns, chain, ctx)), RenderAll(Walk(cfg, [kept] + more, chain, ctx)), p && q)
  {
    hide *;
    var a, b := WalkNode(less, ns[0], chain, ctx), Walk(less, ns[1..], chain, ctx);
    var c, d := WalkNode(cfg, kept, chain, ctx), Walk(cfg, more, chain, ctx);
    assert ns == [ns[0]] + ns[1..];
    WalkCons(less, ns[0], ns[1..], chain, ctx);
    WalkCons(cfg, kept, more, chain, ctx);
    RenderConcat(a, b);
    RenderConcat(c, d);
    GapConcat(RenderAll(a), RenderAll(c), p, RenderAll(b), RenderAll(d), q);
  }

  lemma GapGone(less: Config, cfg: Config, ns: seq<Node>, chain: seq<Frame>, ctx: NsMap, p: bool)
    requires ns != [] && Gap(RenderAll(WalkNode(less, ns[0], chain, ctx)), "", p)
    requires RenderAll(Walk(less, ns[1..], chain, ctx)) == RenderAll(Walk(cfg, ns[1..], chain, ctx))
    ensures Gap(RenderAll(Walk(less, ns, chain, ctx)), RenderAll(Walk(cfg, ns[1..], chain, ctx)), p)
  {
    hide *;
    var a, b := WalkNode(less, ns[0], chain, ctx), Walk(less, ns[1..], chain, ctx);
    assert ns == [ns[0]] + ns[1..];
    WalkCons(less, ns[0], ns[1..], chain, ctx);
    RenderConcat(a, b);
    GapNothing(RenderAll(b));
    GapConcat(RenderAll(a), "", p, RenderAll(b), RenderAll(b), true);
    assert "" + RenderAll(b) == RenderAll(b);
  }

  /** Hiding leaves at least the text that deleting leaves, and the same exactly if the subtree is clean. */
  lemma {:induction false} GapForest(cfg: Config, sig: Node, ns: seq<Node>, chain: seq<Frame>, ctx: NsMap)
    requires Trims(cfg) && UniqueIds(ns) && Occurs(sig, ns) && (chain != [] ==> chain[0].id !in Ids(sig))
    ensures Gap(RenderAll(Walk(Without(cfg, Ids(sig)), ns, chain, ctx)), RenderAll(Walk(cfg, Delete(ns, sig.id), chain, ctx)),
                Clean(cfg, Ids(sig), ns, chain, ctx))
    decreases ns, 0
  {
    var n, rest := ns[0], ns[1..];
    Standing(sig, ns);
    assert cfg.nodeSet.Some?;
    hide *;
    var less := Without(cfg, Ids(sig));
    CleanFirst(cfg, Ids(sig), ns, chain, ctx);
    DeleteFirst(ns, sig.id);
    if n == sig {
      HiddenNode(cfg, Ids(sig), n, chain, ctx);
      SameForest(cfg, Ids(sig), rest, chain, ctx);
      Untouched(rest, sig.id);
      GapGone(less, cfg, ns, chain, ctx, CleanNode(cfg, Ids(sig), n, chain, ctx));
    } else if OccursBelow(sig, n) {
      GapBelow(cfg, sig, n, chain, ctx);
      SameForest(cfg, Ids(sig), rest, chain, ctx);
      Untouched(rest, sig.id);
      GapNothing(RenderAll(Walk(less, rest, chain, ctx)));
      GapCons(less, cfg, ns, DeleteIn(n, sig.id), rest, chain, ctx, CleanNode(cfg, Ids(sig), n, chain, ctx), true);
    } else {
      OccursIds(sig, rest);
      SameNode(cfg, Ids(sig), n, chain, ctx);
      UntouchedNode(n, sig.id);
      GapForest(cfg, sig, rest, chain, ctx);
      GapNothing(RenderAll(WalkNode(less, n, chain, ctx)));
      GapCons(less, cfg, ns, n, Delete(rest, sig.id), chain, ctx, true, Clean(cfg, Ids(sig), rest, chain, ctx));
    }
  }

  lemma Standing(sig: Node, ns: seq<Node>)
    requires UniqueIds(ns) && Occurs(sig, ns)
    ensures ns[0].id in Ids(ns[0]) && sig.id in Ids(sig) && UniqueIds(ns[1..]) && UniqueNode(ns[0]) && Ids(ns[0]) !! ForestIds(ns[1..])
    ensures ns[0] == sig || OccursBelow(sig, ns[0]) || Occurs(sig, ns[1..])
  {
    hide UniqueNode, OccursBelow;
  }

  lemma CleanFirst(cfg: Config, gone: set<nat>, ns: seq<Node>, chain: seq<Frame>, ctx: NsMap)
    requires ns != []
    ensures Clean(cfg, gone, ns, chain, ctx) <==> CleanNode(cfg, gone, ns[0], chain, ctx) && Clean(cfg, gone, ns[1..], chain, ctx)
  {
    hide CleanNode;
  }

  lemma DeleteFirst(ns: seq<Node>, id: nat)
    requires ns != []
    ensures Delete(ns, id) == (if ns[0].id == id then [] else [DeleteIn(ns[0], id)]) + Delete(ns[1..], id)
    ensures ns[0].id == id ==> Delete(ns, id) == Delete(ns[1..], id)
  {
    hide DeleteIn;
  }

  lemma GapNothing(a: string)
    ensures Gap(a, a, true)
  {
  }

  lemma {:induction false} GapBelow(cfg: Config, sig: Node, n: Node, chain: seq<Frame>, ctx: NsMap)
    requires Trims(cfg) && UniqueNode(n) && OccursBelow(sig, n) && (chain != [] ==> chain[0].id !in Ids(sig))
    ensures Ids(sig) <= Ids(n) && n.id !in Ids(sig) && n.id != sig.id
    ensures Gap(RenderAll(WalkNode(Without(cfg, Ids(sig)), n, chain, ctx)), RenderAll(WalkNode(cfg, DeleteIn(n, sig.id), chain, ctx)),
                CleanNode(cfg, Ids(sig), n, chain, ctx))
    decreases n, 1
  {
    var less, here, kept := Without(cfg, Ids(sig)), [Frame(n.id, n.elem)] + chain, DeleteIn(n, sig.id);
    hide Walk, WalkNode, RenderAll, Clean, StartTag, ChildCtx, FloatingDecls, DeclList, TagName, Delete, Gap, CleanNode;
    OccursIds(sig, n.children);
    assert sig.id in Ids(sig);
    LessAgrees(cfg, Ids(sig), {n.id});
    AgreedTag(cfg, less, here, ctx);
    var inner := if Visible(cfg, n.id) then ChildCtx(cfg, here, ctx) else ctx;
    assert Visible(cfg, n.id) == Visible(less, n.id);
    hide SetsAgree, Occurs, Without;
    GapForest(cfg, sig, n.children, here, inner);
    CleanInside(cfg, Ids(sig), n, chain, ctx);
    GapInside(less, cfg, n, kept, chain, ctx, Clean(cfg, Ids(sig), n.children, here, inner));
  }

  lemma CleanInside(cfg: Config, gone: set<nat>, n: Node, chain: seq<Frame>, ctx: NsMap)
    requires n.Elem? && n.id !in gone
    ensures var here := [Frame(n.id, n.elem)] + chain;
      CleanNode(cfg, gone, n, chain, ctx) == Clean(cfg, gone, n.children, here, if Visible(cfg, n.id) then ChildCtx(cfg, here, ctx) else ctx)
  {
    hide Clean, ChildCtx, FloatingDecls, Visible;
  }

  lemma GapInside(less: Config, cfg: Config, n: Node, kept: Node, chain: seq<Frame>, ctx: NsMap, p: bool)
    requires n.Elem? && kept.Elem? && n.id == kept.id && n.elem == kept.elem && Visible(less, n.id) == Visible(cfg, n.id)
    requires var here := [Frame(n.id, n.elem)] + chain;
      && StartTag(less, here, ctx) == StartTag(cfg, here, ctx) && ChildCtx(less, here, ctx) == ChildCtx(cfg, here, ctx)
      && FloatingDecls(less, here, ctx) == FloatingDecls(cfg, here, ctx) && Floats(less) == Floats(cfg)
      && var inner := if Visible(cfg, n.id) then ChildCtx(cfg, here, ctx) else ctx;
         Gap(RenderAll(Walk(less, n.children, here, inner)), RenderAll(Walk(cfg, kept.children, here, inner)), p)
    ensures Gap(RenderAll(WalkNode(less, n, chain, ctx)), RenderAll(WalkNode(cfg, kept, chain, ctx)), p)
  {
    hide Walk, RenderAll, StartTag, ChildCtx, FloatingDecls, Floats, DeclList, TagName, Visible, Gap;
    var here := [Frame(n.id, n.elem)] + chain;
    var inner := if Visible(cfg, n.id) then ChildCtx(cfg, here, ctx) else ctx;
    var a, b := Walk(less, n.children, here, inner), Walk(cfg, kept.children, here, inner);
    if Visible(cfg, n.id) {
      VisibleWalk(less, n, chain, ctx);
      VisibleWalk(cfg, kept, chain, ctx);
      hide WalkNode;
      var t := StartTag(cfg, here, ctx);
      RenderEnclosed(t, a, TagName(n.elem));
      RenderEnclosed(t, b, TagName(n.elem));
      GapAround(RenderToken(t), RenderAll(a), RenderAll(b), "</" + TagName(n.elem) + ">", p);
    } else {
      var f := if Floats(cfg) then [Floating(DeclList(FloatingDecls(cfg, here, ctx)))] else [];
      assert WalkNode(less, n, chain, ctx) == f + a && WalkNode(cfg, kept, chain, ctx) == f + b;
      hide WalkNode;
      RenderConcat(f, a);
      RenderConcat(f, b);
      GapNothing(RenderAll(f));
      GapConcat(RenderAll(f), RenderAll(f), true, RenderAll(a), RenderAll(b), p);
    }
  }

  lemma GapAround(open: string, a: string, b: string, close: string, p: bool)
    requires Gap(a, b, p)
    ensures Gap(open + a + close, open + b + close, p)
  {
    GapConcat(open, open, true, a, b, p);
    GapConcat(open + a, open + b, p, close, close, true);
  }
}
