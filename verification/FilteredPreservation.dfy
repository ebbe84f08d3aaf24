/**
 Node sets that also say which namespace nodes are selected: which declarations are written,
 in tags and beside them, and what a reader makes of them.
 */
module FilteredPreservation {
  import opened Dom
  import opened Render
  import opened Tokens
  import opened NodeSets
  import opened Namespaces
  import opened Canonical
  import opened TagReader
  import opened NsPreservation
  import opened ExcPreservation

  /** The bindings in scope at an element whose namespace nodes are selected. */
  function OwnNs(s: NodeSet, here: seq<Frame>): NsMap
    requires here != []
  {
    var m := Scope(here);
    map p | p in m && s.NsVisible(here[0].id, p) :: m[p]
  }

  /** What a tag is to say: the prefixes it speaks of, either all or those that are used, the bindings
      selected at its element, and those that rendered elements above have shown last. */
  datatype Told = Told(above: NsMap, own: NsMap, all: bool, used: set<string>) {
    predicate Concerns(p: string) {
      p != "xml" && (all || p in used)
    }

    /** What is shown last after this tag. */
    function Known(): NsMap {
      map p | p in above.Keys + own.Keys && (if Concerns(p) then p in own else p in above) ::
        if Concerns(p) then own[p] else above[p]
    }

    /** A binding that is selected here and was not shown above, or a default namespace that ends. */
    predicate States(d: NsDecl) {
      Concerns(d.prefix) &&
      if d.uri != "" then Get(own, d.prefix) == Some(d.uri) && Get(above, d.prefix) != Some(d.uri)
      else d.prefix == "" && "" in above && "" !in own
    }

    /** What a prefix means to a reader inside the tag. */
    function Inside(outer: NsMap, p: string): Option<string> {
      if Concerns(p) && p in own then Some(own[p])
      else if Concerns(p) && p == "" then None
      else Get(outer, p)
    }
  }

  ghost predicate Tells(s: Sight, t: Told) {
    && (forall d :: d in s.decls <==> t.States(d))
    && forall p :: Get(s.inner, p) == t.Inside(s.outer, p)
  }

  function ToldAt(cfg: Config, here: seq<Frame>, above: NsMap): Told
    requires here != [] && cfg.nodeSet.Some?
  {
    Told(above, OwnNs(cfg.nodeSet.value, here), !cfg.mode.Exclusive?,
         if cfg.mode.Exclusive? then Utilized(cfg.mode, here[0].elem) else {})
  }

  /** What the rendered elements are to say, in document order. */
  function Tolds(cfg: Config, ns: seq<Node>, chain: seq<Frame>, above: NsMap): seq<Told>
    requires cfg.nodeSet.Some?
    decreases ns, 0
  {
    if ns == [] then [] else NodeTolds(cfg, ns[0], chain, above) + Tolds(cfg, ns[1..], chain, above)
  }

  function NodeTolds(cfg: Config, n: Node, chain: seq<Frame>, above: NsMap): seq<Told>
    requires cfg.nodeSet.Some?
    decreases n, 1
  {
    if !n.Elem? then []
    else
      var here := [Frame(n.id, n.elem)] + chain;
      if Visible(cfg, n.id) then
        var t := ToldAt(cfg, here, above);
        [t] + Tolds(cfg, n.children, here, t.Known())
      else Tolds(cfg, n.children, here, above)
  }

  ghost predicate AllTell(s: seq<Sight>, ts: seq<Told>) {
    Pairwise(Tells, s, ts)
  }

  // ---------------------------------------------------------------- one tag

  /** The reader knows what was shown last, and no default namespace besides. */
  ghost predicate InStepShown(ctx: NsMap, outer: NsMap) {
    && (forall p :: p in Effective(ctx) ==> Get(outer, p) == Some(Effective(ctx)[p]))
    && ("" in outer ==> "" in Effective(ctx))
  }

  lemma OwnIsShown(cfg: Config, here: seq<Frame>)
    requires here != [] && NsFiltered(cfg)
    ensures Effective(ShownNs(cfg, here)) == OwnNs(cfg.nodeSet.value, here)
    ensures forall p :: p in ShownNs(cfg, here) && ShownNs(cfg, here)[p] == "" ==> p == "" && !cfg.mode.Exclusive?
  {
    EffectiveAgrees(here);
    InscopeValues(!cfg.mode.Exclusive?, here);
    hide Inscope;
  }

  lemma InclusiveStates(shown: NsMap, ctx: NsMap, t: Told, d: NsDecl)
    requires t.all && t.own == Effective(shown) && t.above == Effective(ctx)
    requires forall p :: p in shown && shown[p] == "" ==> p == ""
    ensures var m := InclusiveDecls(true, shown, ctx);
      d.prefix in m && m[d.prefix] == d.uri <==> t.States(d)
  {
  }

  lemma ExclusiveStates(shown: NsMap, ctx: NsMap, t: Told, d: NsDecl)
    requires !t.all && t.own == Effective(shown) && t.above == Effective(ctx)
    requires forall p :: p in shown ==> shown[p] != ""
    ensures var m := ExclusiveDecls(t.used, shown, ctx);
      d.prefix in m && m[d.prefix] == d.uri <==> t.States(d)
  {
  }

  lemma TagStates(cfg: Config, here: seq<Frame>, ctx: NsMap, d: NsDecl)
    requires here != [] && NsFiltered(cfg)
    ensures var m := TagDecls(cfg, here, ctx);
      d.prefix in m && m[d.prefix] == d.uri <==> ToldAt(cfg, here, Effective(ctx)).States(d)
  {
    OwnIsShown(cfg, here);
    var shown, t := ShownNs(cfg, here), ToldAt(cfg, here, Effective(ctx));
    hide ShownNs, OwnNs, Effective, InclusiveDecls, ExclusiveDecls, Utilized;
    if cfg.mode.Exclusive? {
      ExclusiveStates(shown, ctx, t, d);
    } else {
      InclusiveStates(shown, ctx, t, d);
    }
  }

  lemma InclusiveKnown(shown: NsMap, t: Told)
    requires t.all && t.own == Effective(shown) && "xml" !in t.above
    ensures Effective(WithoutXml(shown)) == t.Known()
  {
  }

  lemma ExclusiveKnown(shown: NsMap, ctx: NsMap, t: Told)
    requires !t.all && t.own == Effective(shown) && t.above == Effective(ctx)
    requires forall p :: p in shown ==> shown[p] != ""
    ensures var below := ctx + ExclusiveDecls(t.used, shown, ctx);
      Effective(map p | p in below && !(p in t.used && p != "xml" && p !in shown) :: below[p]) == t.Known()
  {
    var below := ctx + ExclusiveDecls(t.used, shown, ctx);
    var a := Effective(map p | p in below && !(p in t.used && p != "xml" && p !in shown) :: below[p]);
    forall p ensures Get(a, p) == Get(t.Known(), p) {
    }
    SameEntries(a, t.Known());
  }

  /** The context passed down is what was shown last. */
  lemma ContextIsKnown(cfg: Config, here: seq<Frame>, ctx: NsMap)
    requires here != [] && NsFiltered(cfg)
    ensures Effective(ChildCtx(cfg, here, ctx)) == ToldAt(cfg, here, Effective(ctx)).Known()
  {
    OwnIsShown(cfg, here);
    var shown, t := ShownNs(cfg, here), ToldAt(cfg, here, Effective(ctx));
    assert "xml" !in Effective(ctx);
    hide ShownNs, OwnNs, Utilized, Inscope, Effective, ExclusiveDecls, WithoutXml, Told.Known;
    if cfg.mode.Exclusive? {
      ExclusiveKnown(shown, ctx, t);
    } else {
      InclusiveKnown(shown, t);
    }
  }

  /** What the declarations of a tag mean to its reader. */
  lemma ReaderInside(m: NsMap, t: Told, outer: NsMap)
    requires forall d: NsDecl :: d.prefix in m && m[d.prefix] == d.uri <==> t.States(d)
    requires forall p :: p in t.above ==> Get(outer, p) == Some(t.above[p])
    requires "" in outer ==> "" in t.above
    requires forall p :: p in t.own ==> t.own[p] != ""
    ensures var c := Declared(outer, DeclList(m));
      && (forall p :: Get(c, p) == t.Inside(outer, p))
      && (forall p :: p in t.Known() ==> Get(c, p) == Some(t.Known()[p]))
      && ("" in c ==> "" in t.Known())
  {
    DeclListLists(m);
    hide DeclList, Declared;
    var c := Declared(outer, DeclList(m));
    forall p ensures Get(c, p) == t.Inside(outer, p) {
      DeclaredLists(outer, DeclList(m), m, p);
      InsideAt(m, t, outer, p);
    }
    assert Get(c, "") == t.Inside(outer, "");
  }

  lemma InsideAt(m: NsMap, t: Told, outer: NsMap, p: string)
    requires forall d: NsDecl :: d.prefix in m && m[d.prefix] == d.uri <==> t.States(d)
    requires p in t.above ==> Get(outer, p) == Some(t.above[p])
    requires "" in outer ==> "" in t.above
    requires forall p :: p in t.own ==> t.own[p] != ""
    ensures t.Inside(outer, p) == if p in m then (if m[p] == "" then None else Some(m[p])) else Get(outer, p)
  {
    if p in m {
      assert t.States(NsDecl(p, m[p]));
    } else {
      assert forall u :: !t.States(NsDecl(p, u)) by {
        forall u ensures !t.States(NsDecl(p, u)) {
          assert NsDecl(p, u).prefix !in m;
        }
      }
      if p in t.own {
        assert !t.States(NsDecl(p, t.own[p]));
      }
      assert !t.States(NsDecl(p, ""));
    }
  }

  /** One tag, inclusive or exclusive: it states exactly what was not shown above, and every selected
      namespace node it speaks of means to a reader inside what it means in the source. */
  lemma FilteredTag(cfg: Config, here: seq<Frame>, ctx: NsMap, stack: seq<NsMap>)
    requires here != [] && NsFiltered(cfg) && InStepShown(ctx, Top(stack))
    ensures var c := Declared(Top(stack), StartTag(cfg, here, ctx).decls);
      && Tells(Sight(Top(stack), StartTag(cfg, here, ctx).decls, c), ToldAt(cfg, here, Effective(ctx)))
      && InStepShown(ChildCtx(cfg, here, ctx), c)
      && Effective(ChildCtx(cfg, here, ctx)) == ToldAt(cfg, here, Effective(ctx)).Known()
  {
    var m, t := TagDecls(cfg, here, ctx), ToldAt(cfg, here, Effective(ctx));
    hide *;
    forall d: NsDecl ensures d.prefix in m && m[d.prefix] == d.uri <==> t.States(d) {
      TagStates(cfg, here, ctx, d);
    }
    ContextIsKnown(cfg, here, ctx);
    TagParts(cfg, here, ctx);
    ReaderStep(ctx, ChildCtx(cfg, here, ctx), m, t, Top(stack));
  }

  lemma TagParts(cfg: Config, here: seq<Frame>, ctx: NsMap)
    requires here != [] && cfg.nodeSet.Some?
    ensures var t := ToldAt(cfg, here, Effective(ctx)); t.above == Effective(ctx) && forall p :: p in t.own ==> t.own[p] != ""
    ensures StartTag(cfg, here, ctx).Start? && StartTag(cfg, here, ctx).decls == DeclList(TagDecls(cfg, here, ctx))
  {
    hide DeclList, TagDecls;
  }

  lemma ReaderStep(ctx: NsMap, below: NsMap, m: NsMap, t: Told, outer: NsMap)
    requires forall d: NsDecl :: d.prefix in m && m[d.prefix] == d.uri <==> t.States(d)
    requires t.above == Effective(ctx) && t.Known() == Effective(below) && InStepShown(ctx, outer)
    requires forall p :: p in t.own ==> t.own[p] != ""
    ensures var c := Declared(outer, DeclList(m));
      Tells(Sight(outer, DeclList(m), c), t) && InStepShown(below, c)
  {
    hide Declared, Effective, Told.States, Told.Inside, Told.Known;
    ReaderInside(m, t, outer);
  }

  // ---------------------------------------------------------------- the whole output

  lemma {:induction false} FilteredForest(cfg: Config, ns: seq<Node>, chain: seq<Frame>, ctx: NsMap, stack: seq<NsMap>)
    requires NsFiltered(cfg) && InStepShown(ctx, Top(stack))
    ensures AllTell(Sights(Walk(cfg, ns, chain, ctx), stack), Tolds(cfg, ns, chain, Effective(ctx)))
    decreases ns, 0
  {
    hide Sights, WalkNode, InStepShown, Tells, Effective, NodeTolds;
    ReadNothing(stack);
    if ns != [] {
      var a, b := WalkNode(cfg, ns[0], chain, ctx), Walk(cfg, ns[1..], chain, ctx);
      FilteredNode(cfg, ns[0], chain, ctx, stack);
      FilteredForest(cfg, ns[1..], chain, ctx, stack);
      ReadNode(cfg, ns[0], chain, ctx, b, stack);
      PairwiseConcat(Tells, Sights(a, stack), Sights(b, stack),
                     NodeTolds(cfg, ns[0], chain, Effective(ctx)), Tolds(cfg, ns[1..], chain, Effective(ctx)));
    }
  }

  lemma {:induction false} FilteredNode(cfg: Config, n: Node, chain: seq<Frame>, ctx: NsMap, stack: seq<NsMap>)
    requires NsFiltered(cfg) && InStepShown(ctx, Top(stack))
    ensures AllTell(Sights(WalkNode(cfg, n, chain, ctx), stack), NodeTolds(cfg, n, chain, Effective(ctx)))
    decreases n, 1
  {
    hide Sights, Walk, StartTag, ChildCtx, InStepShown, Tells, Effective, Tolds, ToldAt, Told.Known, FloatingDecls, DeclList;
    ReadNothing(stack);
    var ts := WalkNode(cfg, n, chain, ctx);
    if n.Elem? {
      var here := [Frame(n.id, n.elem)] + chain;
      if Visible(cfg, n.id) {
        FilteredElement(cfg, n, here, ctx, stack);
      } else {
        FilteredForest(cfg, n.children, here, ctx, stack);
        var kids := Walk(cfg, n.children, here, ctx);
        if Floats(cfg) {
          ReadPlain(Floating(DeclList(FloatingDecls(cfg, here, ctx))), kids, stack);
        } else {
          assert ts == kids;
        }
      }
    } else if ts != [] {
      ReadPlain(ts[0], [], stack);
      assert ts == [ts[0]] + [];
    }
  }

  lemma {:induction false} FilteredElement(cfg: Config, n: Node, here: seq<Frame>, ctx: NsMap, stack: seq<NsMap>)
    requires NsFiltered(cfg) && InStepShown(ctx, Top(stack)) && n.Elem? && here != [] && here[0] == Frame(n.id, n.elem)
    ensures var t := ToldAt(cfg, here, Effective(ctx));
      AllTell(Sights([StartTag(cfg, here, ctx)] + Walk(cfg, n.children, here, ChildCtx(cfg, here, ctx)) + [End(TagName(n.elem))], stack),
              [t] + Tolds(cfg, n.children, here, t.Known()))
    decreases n, 0
  {
    var tag, t := StartTag(cfg, here, ctx), ToldAt(cfg, here, Effective(ctx));
    hide *;
    var c := Declared(Top(stack), tag.decls);
    var below := ChildCtx(cfg, here, ctx);
    FilteredTag(cfg, here, ctx, stack);
    ReadElement(cfg, n, here, ctx, [], stack);
    TopIsHead(c, stack);
    FilteredForest(cfg, n.children, here, below, [c] + stack);
    FirstTold(Sight(Top(stack), tag.decls, c), Sights(Walk(cfg, n.children, here, below), [c] + stack), t, Tolds(cfg, n.children, here, t.Known()));
  }

  lemma FirstTold(s: Sight, kids: seq<Sight>, t: Told, ts: seq<Told>)
    requires Tells(s, t) && AllTell(kids, ts)
    ensures AllTell([s] + kids, [t] + ts)
  {
    hide Tells;
    PairwiseConcat(Tells, [s], kids, [t], ts);
  }

  /** Canonicalization of any node set that selects namespace nodes, in any mode: each rendered tag states
      exactly the selected bindings it speaks of that were not the last shown above it, and ends a default
      namespace that is not selected here; so inside it each of these prefixes means to a reader what it
      means in the source, and no default namespace is read where none is selected. */
  lemma SelectedNamespaces(cfg: Config, doc: Document)
    requires NsFiltered(cfg)
    ensures AllTell(Sights(Canon(cfg, doc), []), Tolds(cfg, doc.children, [], map[]))
  {
    hide Sights, Walk, WalkTop, Tolds, Tells;
    ReadTop(cfg, doc.children, false);
    assert Effective(map[]) == map[];
    FilteredForest(cfg, doc.children, [], map[], []);
  }

  // ---------------------------------------------------------------- beside the tags

  /** The declarations written without a tag, element by element. */
  function Strays(ts: seq<Token>): seq<seq<NsDecl>> {
    if ts == [] then [] else (if ts[0].Floating? then [ts[0].decls] else []) + Strays(ts[1..])
  }

  lemma {:induction false} StraysConcat(a: seq<Token>, b: seq<Token>)
    ensures Strays(a + b) == Strays(a) + Strays(b)
  {
    if a == [] {
      assert a + b == b;
    } else {
      assert (a + b)[1..] == a[1..] + b;
      StraysConcat(a[1..], b);
    }
  }

  /** An element that is not rendered: the bindings last shown above it, those selected at it, and
      whether an end of the default namespace is selected. */
  datatype Stray = Stray(above: NsMap, own: NsMap, ends: bool, listed: Option<set<string>>) {
    predicate States(d: NsDecl) {
      && (listed.Some? ==> (if d.prefix == "" then "#default" else d.prefix) in listed.value)
      && if d.uri != "" then Get(own, d.prefix) == Some(d.uri) && Get(above, d.prefix) != Some(d.uri)
         else d.prefix == "" && ends && "" in above
    }
  }

  ghost predicate Says(decls: seq<NsDecl>, t: Stray) {
    forall d :: d in decls <==> t.States(d)
  }

  /** The default namespace is undeclared at the element or above it, and that node is selected; it is
      remembered in inclusive modes only. */
  predicate DefaultEnds(cfg: Config, here: seq<Frame>)
    requires here != [] && cfg.nodeSet.Some?
  {
    !cfg.mode.Exclusive? && Get(Inscope(true, here), "") == Some("") && cfg.nodeSet.value.NsVisible(here[0].id, "")
  }

  function StrayAt(cfg: Config, here: seq<Frame>, above: NsMap): Stray
    requires here != [] && cfg.nodeSet.Some?
  {
    Stray(above, OwnNs(cfg.nodeSet.value, here), DefaultEnds(cfg, here),
          if cfg.mode.Exclusive? then Some(cfg.mode.prefixList) else None)
  }

  /** The elements that are not rendered, in document order. */
  function StraysOf(cfg: Config, ns: seq<Node>, chain: seq<Frame>, above: NsMap): seq<Stray>
    requires cfg.nodeSet.Some?
    decreases ns, 0
  {
    if ns == [] then [] else NodeStrays(cfg, ns[0], chain, above) + StraysOf(cfg, ns[1..], chain, above)
  }

  function NodeStrays(cfg: Config, n: Node, chain: seq<Frame>, above: NsMap): seq<Stray>
    requires cfg.nodeSet.Some?
    decreases n, 1
  {
    if !n.Elem? then []
    else
      var here := [Frame(n.id, n.elem)] + chain;
      if Visible(cfg, n.id) then StraysOf(cfg, n.children, here, ToldAt(cfg, here, above).Known())
      else [StrayAt(cfg, here, above)] + StraysOf(cfg, n.children, here, above)
  }

  lemma InclusiveBeside(shown: NsMap, ctx: NsMap, t: Stray, d: NsDecl)
    requires t.own == Effective(shown) && t.above == Effective(ctx) && t.listed.None? && (t.ends <==> Get(shown, "") == Some(""))
    requires forall p :: p in shown && shown[p] == "" ==> p == ""
    ensures var m := Changed(shown, ctx);
      d.prefix in m && m[d.prefix] == d.uri <==> t.States(d)
  {
  }

  lemma ExclusiveBeside(shown: NsMap, ctx: NsMap, list: set<string>, t: Stray, d: NsDecl)
    requires t.own == Effective(shown) && t.above == Effective(ctx) && t.listed == Some(list) && !t.ends
    requires forall p :: p in shown ==> shown[p] != ""
    ensures t.States(d) <==>
      && d.prefix in shown && d.prefix != "xml" && Get(ctx, d.prefix) != Some(shown[d.prefix])
      && (if d.prefix == "" then "#default" else d.prefix) in list && shown[d.prefix] == d.uri
  {
  }

  lemma FloatingStates(cfg: Config, here: seq<Frame>, ctx: NsMap)
    requires here != [] && NsFiltered(cfg)
    ensures Says(DeclList(FloatingDecls(cfg, here, ctx)), StrayAt(cfg, here, Effective(ctx)))
  {
    OwnIsShown(cfg, here);
    var shown, t, m := ShownNs(cfg, here), StrayAt(cfg, here, Effective(ctx)), FloatingDecls(cfg, here, ctx);
    assert !cfg.mode.Exclusive? ==> (DefaultEnds(cfg, here) <==> Get(shown, "") == Some(""));
    assert cfg.mode.Exclusive? ==> !DefaultEnds(cfg, here);
    hide ShownNs, OwnNs, Inscope, DeclList, DefaultEnds, Effective, Stray.States, Changed;
    forall d ensures d in DeclList(m) <==> t.States(d) {
      if cfg.mode.Exclusive? {
        ExclusiveBeside(shown, ctx, cfg.mode.prefixList, t, d);
      } else {
        InclusiveBeside(shown, ctx, t, d);
      }
    }
  }

  lemma {:induction false} FloatingForest(cfg: Config, ns: seq<Node>, chain: seq<Frame>, ctx: NsMap)
    requires NsFiltered(cfg) && Floats(cfg)
    ensures Pairwise(Says, Strays(Walk(cfg, ns, chain, ctx)), StraysOf(cfg, ns, chain, Effective(ctx)))
    decreases ns, 0
  {
    hide WalkNode, Says, Effective, NodeStrays, Strays;
    NoStrays();
    if ns != [] {
      FloatingNode(cfg, ns[0], chain, ctx);
      FloatingForest(cfg, ns[1..], chain, ctx);
      StraysConcat(WalkNode(cfg, ns[0], chain, ctx), Walk(cfg, ns[1..], chain, ctx));
      PairwiseConcat(Says, Strays(WalkNode(cfg, ns[0], chain, ctx)), Strays(Walk(cfg, ns[1..], chain, ctx)),
                     NodeStrays(cfg, ns[0], chain, Effective(ctx)), StraysOf(cfg, ns[1..], chain, Effective(ctx)));
    }
  }

  lemma NoStrays()
    ensures Strays([]) == []
  {
  }

  lemma OneToken(t: Token)
    ensures Strays([t]) == if t.Floating? then [t.decls] else []
  {
    assert [t][1..] == [];
  }

  lemma {:induction false} FloatingNode(cfg: Config, n: Node, chain: seq<Frame>, ctx: NsMap)
    requires NsFiltered(cfg) && Floats(cfg)
    ensures Pairwise(Says, Strays(WalkNode(cfg, n, chain, ctx)), NodeStrays(cfg, n, chain, Effective(ctx)))
    decreases n, 1
  {
    NoStrays();
    hide Walk, StartTag, ChildCtx, Says, Effective, StraysOf, StrayAt, ToldAt, Told.Known, FloatingDecls, DeclList, Strays, Pairwise;
    var ts := WalkNode(cfg, n, chain, ctx);
    if n.Elem? {
      var here := [Frame(n.id, n.elem)] + chain;
      if Visible(cfg, n.id) {
        var below := ChildCtx(cfg, here, ctx);
        var body := Walk(cfg, n.children, here, below);
        ContextIsKnown(cfg, here, ctx);
        FloatingForest(cfg, n.children, here, below);
        TagParts(cfg, here, ctx);
        EnclosedStrays(StartTag(cfg, here, ctx), body, End(TagName(n.elem)));
      } else {
        var f := Floating(DeclList(FloatingDecls(cfg, here, ctx)));
        FloatingStates(cfg, here, ctx);
        FloatingForest(cfg, n.children, here, ctx);
        StraysConcat([f], Walk(cfg, n.children, here, ctx));
        OneToken(f);
        FirstStray(f.decls, Strays(Walk(cfg, n.children, here, ctx)), StrayAt(cfg, here, Effective(ctx)),
                   StraysOf(cfg, n.children, here, Effective(ctx)));
      }
    } else {
      NoPairs();
      if ts != [] {
        OneToken(ts[0]);
        assert ts == [ts[0]];
      }
    }
  }

  lemma NoPairs()
    ensures Pairwise(Says, [], [])
  {
  }

  lemma EnclosedStrays(s: Token, body: seq<Token>, e: Token)
    requires s.Start? && e.End?
    ensures Strays([s] + body + [e]) == Strays(body)
  {
    StraysConcat([s] + body, [e]);
    StraysConcat([s], body);
    OneToken(s);
    OneToken(e);
  }

  lemma FirstStray(decls: seq<NsDecl>, rest: seq<seq<NsDecl>>, t: Stray, ts: seq<Stray>)
    requires Says(decls, t) && Pairwise(Says, rest, ts)
    ensures Pairwise(Says, [decls] + rest, [t] + ts)
  {
    hide Says;
    PairwiseConcat(Says, [decls], rest, [t], ts);
  }

  lemma {:induction false} TopStrays(cfg: Config, ns: seq<Node>, before: bool)
    ensures Strays(WalkTop(cfg, ns, before)) == Strays(Walk(cfg, ns, [], map[]))
  {
    hide WalkNode, Strays;
    if ns != [] {
      TopStrays(cfg, ns[1..], before || ns[0].Elem?);
      var ts, after := WalkNode(cfg, ns[0], [], map[]), HasElement(ns[1..]);
      var a, b: seq<Token> := if before then [Break] else [], if after then [Break] else [];
      NoStrays();
      OneToken(Break);
      StraysConcat(a + ts, b);
      StraysConcat(a, ts);
      StraysConcat(TopNode(cfg, ns[0], before, after), WalkTop(cfg, ns[1..], before || ns[0].Elem?));
      StraysConcat(ts, Walk(cfg, ns[1..], [], map[]));
    }
  }

  /** And beside the tags: each element that is not rendered states exactly the bindings selected at it that
      were not the last shown above, in exclusive mode only those of the PrefixList, if there is one. */
  lemma SelectedBeside(cfg: Config, doc: Document)
    requires NsFiltered(cfg) && (cfg.mode.Exclusive? ==> cfg.mode.prefixList != {})
    ensures Pairwise(Says, Strays(Canon(cfg, doc)), StraysOf(cfg, doc.children, [], map[]))
  {
    hide Walk, WalkTop, StraysOf, Strays, Pairwise;
    TopStrays(cfg, doc.children, false);
    assert Effective(map[]) == map[];
    FloatingForest(cfg, doc.children, [], map[]);
  }
}
