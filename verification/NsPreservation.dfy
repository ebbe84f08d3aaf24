/**
 Canonical output keeps the meaning of prefixes: what a reader learns from the tags is what
 was in scope in the source.
 */
module NsPreservation {
  import opened Dom
  import opened Render
  import opened Tokens
  import opened Namespaces
  import opened Canonical
  import opened TagReader

  // ---------------------------------------------------------------- reading a walk piece by piece

  lemma {:induction false} ReadForest(cfg: Config, ns: seq<Node>, chain: seq<Frame>, ctx: NsMap,
                                      tail: seq<Token>, stack: seq<NsMap>)
    ensures Sights(Walk(cfg, ns, chain, ctx) + tail, stack)
         == Sights(Walk(cfg, ns, chain, ctx), stack) + Sights(tail, stack)
    decreases ns, 0
  {
    hide WalkNode, Sights;
    if ns == [] {
      assert Walk(cfg, ns, chain, ctx) + tail == tail;
      ReadNothing(stack);
    } else {
      var a, b := WalkNode(cfg, ns[0], chain, ctx), Walk(cfg, ns[1..], chain, ctx);
      ReadNode(cfg, ns[0], chain, ctx, b + tail, stack);
      ReadNode(cfg, ns[0], chain, ctx, b, stack);
      ReadForest(cfg, ns[1..], chain, ctx, tail, stack);
      assert a + b + tail == a + (b + tail);
    }
  }

  lemma {:induction false} ReadNode(cfg: Config, n: Node, chain: seq<Frame>, ctx: NsMap,
                                    tail: seq<Token>, stack: seq<NsMap>)
    ensures Sights(WalkNode(cfg, n, chain, ctx) + tail, stack)
         == Sights(WalkNode(cfg, n, chain, ctx), stack) + Sights(tail, stack)
    decreases n, 1
  {
    hide Sights, ChildCtx, StartTag, Walk, FloatingDecls, DeclList;
    var ts := WalkNode(cfg, n, chain, ctx);
    ReadNothing(stack);
    if n.Elem? {
      var here := [Frame(n.id, n.elem)] + chain;
      if Visible(cfg, n.id) {
        ReadElement(cfg, n, here, ctx, tail, stack);
      } else {
        var kids := Walk(cfg, n.children, here, ctx);
        ReadForest(cfg, n.children, here, ctx, tail, stack);
        if Floats(cfg) {
          var f := Floating(DeclList(FloatingDecls(cfg, here, ctx)));
          assert ts == [f] + kids && ts + tail == [f] + (kids + tail);
          ReadPlain(f, kids + tail, stack);
          ReadPlain(f, kids, stack);
        } else {
          assert ts == kids;
        }
      }
    } else if ts == [] {
      assert ts + tail == tail;
    } else {
      ReadPlain(ts[0], tail, stack);
      ReadPlain(ts[0], [], stack);
      assert ts == [ts[0]] + [];
    }
  }

  /** An element is its start tag, its content read inside that tag, and its end tag. */
  lemma {:induction false} ReadElement(cfg: Config, n: Node, here: seq<Frame>, ctx: NsMap,
                                       tail: seq<Token>, stack: seq<NsMap>)
    requires n.Elem? && here != []
    ensures var s, e := StartTag(cfg, here, ctx), End(TagName(n.elem));
      var body := Walk(cfg, n.children, here, ChildCtx(cfg, here, ctx));
      var c := Declared(Top(stack), s.decls);
      && Sights([s] + body + [e], stack) == [Sight(Top(stack), s.decls, c)] + Sights(body, [c] + stack)
      && Sights([s] + body + [e] + tail, stack) ==
           [Sight(Top(stack), s.decls, c)] + Sights(body, [c] + stack) + Sights(tail, stack)
    decreases n, 0
  {
    hide Sights, ChildCtx, Walk, Declared;
    var s, e := StartTag(cfg, here, ctx), End(TagName(n.elem));
    var body := Walk(cfg, n.children, here, ChildCtx(cfg, here, ctx));
    var c := Declared(Top(stack), s.decls);
    ReadForest(cfg, n.children, here, ChildCtx(cfg, here, ctx), [e] + tail, [c] + stack);
    ReadForest(cfg, n.children, here, ChildCtx(cfg, here, ctx), [e] + [], [c] + stack);
    ReadTag(s, body, e, tail, stack);
    ReadTag(s, body, e, [], stack);
    ReadNothing(stack);
    assert [s] + body + [e] + [] == [s] + body + [e];
  }

  lemma ReadTag(s: Token, body: seq<Token>, e: Token, tail: seq<Token>, stack: seq<NsMap>)
    requires s.Start? && e.End?
    requires var inner := [Declared(Top(stack), s.decls)] + stack;
      Sights(body + ([e] + tail), inner) == Sights(body, inner) + Sights([e] + tail, inner)
    ensures var c := Declared(Top(stack), s.decls);
      Sights([s] + body + [e] + tail, stack) ==
        [Sight(Top(stack), s.decls, c)] + Sights(body, [c] + stack) + Sights(tail, stack)
  {
    hide Declared;
    var c := Declared(Top(stack), s.decls);
    var all := [s] + body + [e] + tail;
    assert all[0] == s && all[1..] == body + ([e] + tail);
    assert ([e] + tail)[0] == e && ([e] + tail)[1..] == tail;
    assert Pop([c] + stack) == stack;
  }

  lemma ReadNothing(stack: seq<NsMap>)
    ensures Sights([], stack) == []
  {
  }

  lemma ReadPlain(t: Token, tail: seq<Token>, stack: seq<NsMap>)
    requires !t.Start? && !t.End?
    ensures Sights([t] + tail, stack) == Sights(tail, stack)
  {
    assert ([t] + tail)[1..] == tail;
  }

  /** Children of the document node: line breaks around comments and instructions are
      nothing to a reader of tags. */
  lemma {:induction false} ReadTop(cfg: Config, ns: seq<Node>, before: bool)
    ensures Sights(WalkTop(cfg, ns, before), []) == Sights(Walk(cfg, ns, [], map[]), [])
  {
    hide Sights, WalkNode, TopNode;
    if ns != [] {
      var rest := WalkTop(cfg, ns[1..], before || ns[0].Elem?);
      ReadTop(cfg, ns[1..], before || ns[0].Elem?);
      ReadTopNode(cfg, ns[0], before, HasElement(ns[1..]), rest);
      ReadNode(cfg, ns[0], [], map[], Walk(cfg, ns[1..], [], map[]), []);
      ReadNode(cfg, ns[0], [], map[], rest, []);
    }
  }

  lemma ReadTopNode(cfg: Config, n: Node, before: bool, after: bool, rest: seq<Token>)
    ensures Sights(TopNode(cfg, n, before, after) + rest, []) == Sights(WalkNode(cfg, n, [], map[]) + rest, [])
  {
    hide Sights, WalkNode;
    var a := WalkNode(cfg, n, [], map[]);
    if (n.Comment? || n.PI?) && a != [] {
      var tail := (if after then [Break] else []) + rest;
      assert after ==> tail == [Break] + rest;
      assert !after ==> tail == rest;
      ReadPlain(Break, rest, []);
      ReadPlain(Break, a + tail, []);
      ReadNode(cfg, n, [], map[], tail, []);
      ReadNode(cfg, n, [], map[], rest, []);
      var all := TopNode(cfg, n, before, after) + rest;
      assert before ==> all == [Break] + (a + tail);
      assert !before ==> all == a + tail;
    }
  }

  // ---------------------------------------------------------------- inclusive

  /** What the source has in scope at an element, as a reader understands it. */
  function Scope(chain: seq<Frame>): NsMap {
    Effective(Inscope(true, chain))
  }

  /** The scopes of the rendered elements in document order. */
  function Scopes(cfg: Config, ns: seq<Node>, chain: seq<Frame>): seq<NsMap>
    decreases ns, 0
  {
    if ns == [] then [] else NodeScopes(cfg, ns[0], chain) + Scopes(cfg, ns[1..], chain)
  }

  function NodeScopes(cfg: Config, n: Node, chain: seq<Frame>): seq<NsMap>
    decreases n, 1
  {
    if !n.Elem? then []
    else
      var here := [Frame(n.id, n.elem)] + chain;
      (if Visible(cfg, n.id) then [Scope(here)] else []) + Scopes(cfg, n.children, here)
  }

  /** Every prefix in scope at a rendered element is in scope at the rendered elements
      directly below it; `above` is the scope of the nearest rendered ancestor. */
  predicate KeepsPrefixes(cfg: Config, ns: seq<Node>, chain: seq<Frame>, above: NsMap)
    decreases ns, 0
  {
    ns == [] || (NodeKeeps(cfg, ns[0], chain, above) && KeepsPrefixes(cfg, ns[1..], chain, above))
  }

  predicate NodeKeeps(cfg: Config, n: Node, chain: seq<Frame>, above: NsMap)
    decreases n, 1
  {
    n.Elem? ==>
      var here := [Frame(n.id, n.elem)] + chain;
      if Visible(cfg, n.id) then
        StillBound(above, Scope(here)) && KeepsPrefixes(cfg, n.children, here, Scope(here))
      else KeepsPrefixes(cfg, n.children, here, above)
  }

  predicate StillBound(above: NsMap, scope: NsMap) {
    forall p :: p in above && p != "" ==> p in scope
  }

  function Inners(s: seq<Sight>): seq<NsMap> {
    seq(|s|, i requires 0 <= i < |s| => s[i].inner)
  }

  /** The context kept for comparison means what the reader knows, and remembers a default
      namespace only if one was declared above. */
  predicate InStep(ctx: NsMap, chain: seq<Frame>, stack: seq<NsMap>) {
    && Effective(ctx) == Top(stack)
    && ("" in ctx ==> "" in Inscope(true, chain))
  }

  /** One inclusive tag: its reader ends up in step with the new context; it has the source
      scope exactly if nothing above went out of scope; and no declaration was redundant. */
  lemma InclusiveTag(cfg: Config, here: seq<Frame>, ctx: NsMap, stack: seq<NsMap>)
    requires here != [] && !cfg.mode.Exclusive? && !NsFiltered(cfg)
    requires InStep(ctx, here[1..], stack)
    ensures var c := Declared(Top(stack), StartTag(cfg, here, ctx).decls);
      && InStep(ChildCtx(cfg, here, ctx), here, [c] + stack)
      && (c == Scope(here) <==> StillBound(Top(stack), Scope(here)))
      && Minimal(Sight(Top(stack), StartTag(cfg, here, ctx).decls, c))
  {
    hide DeclList, Declared, Inscope, Changed, Effective;
    var shown := Inscope(true, here);
    var m := Changed(shown, ctx);
    InclusiveMeaning(shown, ctx);
    DeclaredIsEffective(ctx, m);
    DefaultStays(here);
    InscopeValues(true, here);
    ScopeKept(shown, ctx);
  }

  lemma ScopeKept(shown: NsMap, ctx: NsMap)
    requires "" in ctx ==> "" in shown
    requires forall p :: p in shown && shown[p] == "" ==> p == ""
    ensures Effective(ctx + WithoutXml(shown)) == Effective(shown) <==>
      StillBound(Effective(ctx), Effective(shown))
  {
    var a, b := Effective(ctx + WithoutXml(shown)), Effective(shown);
    forall p | p in b ensures p in a && a[p] == b[p] {
    }
    if StillBound(Effective(ctx), b) {
      forall p | p in a ensures p in b {
        if p !in shown {
          assert p in Effective(ctx);
        }
      }
    } else {
      var p :| p in Effective(ctx) && p != "" && p !in b;
      assert p !in shown && p in a;
    }
  }

  /** The declarations that are written and the whole scope have the same effect. */
  lemma InclusiveMeaning(shown: NsMap, ctx: NsMap)
    ensures "xml" !in Changed(shown, ctx)
    ensures Effective(ctx + Changed(shown, ctx)) == Effective(ctx + WithoutXml(shown))
    ensures forall d :: d in DeclList(Changed(shown, ctx)) ==> Bound(Effective(ctx), d.prefix) != d.uri
  {
    hide DeclList;
  }

  lemma DefaultStays(here: seq<Frame>)
    requires here != []
    ensures "" in Inscope(true, here[1..]) ==> "" in Inscope(true, here)
  {
  }

  lemma {:induction false} InclusiveForest(cfg: Config, ns: seq<Node>, chain: seq<Frame>, ctx: NsMap, stack: seq<NsMap>)
    requires !cfg.mode.Exclusive? && !NsFiltered(cfg)
    requires InStep(ctx, chain, stack)
    ensures var s := Sights(Walk(cfg, ns, chain, ctx), stack);
      && |s| == |Scopes(cfg, ns, chain)|
      && (Inners(s) == Scopes(cfg, ns, chain) <==> KeepsPrefixes(cfg, ns, chain, Top(stack)))
      && forall i :: 0 <= i < |s| ==> Minimal(s[i])
    decreases ns, 0
  {
    hide Sights, WalkNode, InStep, Minimal;
    ReadNothing(stack);
    if ns != [] {
      var a, b := WalkNode(cfg, ns[0], chain, ctx), Walk(cfg, ns[1..], chain, ctx);
      InclusiveNode(cfg, ns[0], chain, ctx, stack);
      InclusiveForest(cfg, ns[1..], chain, ctx, stack);
      ReadNode(cfg, ns[0], chain, ctx, b, stack);
      InnersConcat(Sights(a, stack), Sights(b, stack));
      SplitEquality(Inners(Sights(a, stack)), Inners(Sights(b, stack)),
                    NodeScopes(cfg, ns[0], chain), Scopes(cfg, ns[1..], chain));
    }
  }

  lemma {:induction false} InclusiveNode(cfg: Config, n: Node, chain: seq<Frame>, ctx: NsMap, stack: seq<NsMap>)
    requires !cfg.mode.Exclusive? && !NsFiltered(cfg)
    requires InStep(ctx, chain, stack)
    ensures var s := Sights(WalkNode(cfg, n, chain, ctx), stack);
      && |s| == |NodeScopes(cfg, n, chain)|
      && (Inners(s) == NodeScopes(cfg, n, chain) <==> NodeKeeps(cfg, n, chain, Top(stack)))
      && forall i :: 0 <= i < |s| ==> Minimal(s[i])
    decreases n, 1
  {
    hide Sights, Walk, StartTag, ChildCtx, Scope, StillBound, Minimal, Declared;
    ReadNothing(stack);
    var ts := WalkNode(cfg, n, chain, ctx);
    if n.Elem? {
      var here := [Frame(n.id, n.elem)] + chain;
      assert here[1..] == chain;
      if Visible(cfg, n.id) {
        InclusiveElement(cfg, n, here, ctx, stack);
      } else {
        hide InStep;
        InvisibleStep(ctx, here, stack);
        InclusiveForest(cfg, n.children, here, ctx, stack);
        assert ts == Walk(cfg, n.children, here, ctx);
      }
    } else if ts != [] {
      ReadPlain(ts[0], [], stack);
      assert ts == [ts[0]] + [];
    }
  }

  lemma InvisibleStep(ctx: NsMap, here: seq<Frame>, stack: seq<NsMap>)
    requires here != [] && InStep(ctx, here[1..], stack)
    ensures InStep(ctx, here, stack)
  {
    DefaultStays(here);
  }

  lemma {:induction false} InclusiveElement(cfg: Config, n: Node, here: seq<Frame>, ctx: NsMap, stack: seq<NsMap>)
    requires !cfg.mode.Exclusive? && !NsFiltered(cfg)
    requires n.Elem? && Visible(cfg, n.id) && here != [] && here[0] == Frame(n.id, n.elem)
    requires InStep(ctx, here[1..], stack)
    ensures var s := Sights([StartTag(cfg, here, ctx)] + Walk(cfg, n.children, here, ChildCtx(cfg, here, ctx))
                            + [End(TagName(n.elem))], stack);
      && |s| == 1 + |Scopes(cfg, n.children, here)|
      && (Inners(s) == [Scope(here)] + Scopes(cfg, n.children, here) <==>
            StillBound(Top(stack), Scope(here)) && KeepsPrefixes(cfg, n.children, here, Scope(here)))
      && forall i :: 0 <= i < |s| ==> Minimal(s[i])
    decreases n, 0
  {
    var t := StartTag(cfg, here, ctx);
    assert t.Start?;
    hide *;
    var c := Declared(Top(stack), t.decls);
    assert Top([c] + stack) == c by { TopIsHead(c, stack); }
    InclusiveTag(cfg, here, ctx, stack);
    ReadElement(cfg, n, here, ctx, [], stack);
    InclusiveForest(cfg, n.children, here, ChildCtx(cfg, here, ctx), [c] + stack);
    var kids := Sights(Walk(cfg, n.children, here, ChildCtx(cfg, here, ctx)), [c] + stack);
    FirstSight(Sight(Top(stack), t.decls, c), kids, Scope(here), Scopes(cfg, n.children, here));
  }

  /** The sights of an element are right if its own is and those of its content are. */
  lemma FirstSight(s: Sight, kids: seq<Sight>, scope: NsMap, scopes: seq<NsMap>)
    requires |kids| == |scopes| && Minimal(s) && forall i :: 0 <= i < |kids| ==> Minimal(kids[i])
    ensures Inners([s] + kids) == [scope] + scopes <==> s.inner == scope && Inners(kids) == scopes
    ensures forall i :: 0 <= i < |[s] + kids| ==> Minimal(([s] + kids)[i])
  {
    hide Minimal;
    InnersCons(s, kids);
    SplitEquality([s.inner], Inners(kids), [scope], scopes);
  }

  lemma TopIsHead(c: NsMap, stack: seq<NsMap>)
    ensures Top([c] + stack) == c
  {
  }

  lemma InnersCons(s: Sight, rest: seq<Sight>)
    ensures Inners([s] + rest) == [s.inner] + Inners(rest)
  {
  }

  lemma InnersConcat(a: seq<Sight>, b: seq<Sight>)
    ensures Inners(a + b) == Inners(a) + Inners(b)
  {
  }

  lemma SplitEquality<T>(a: seq<T>, b: seq<T>, x: seq<T>, y: seq<T>)
    requires |a| == |x|
    ensures a + b == x + y <==> a == x && b == y
  {
    if a + b == x + y {
      assert a == (a + b)[..|a|] && x == (x + y)[..|a|];
      assert b == (a + b)[|a|..] && y == (x + y)[|a|..];
    }
  }

  /** Inclusive canonicalization of any node set without a namespace filter: the bindings a
      reader collects at the rendered elements are the source's scopes exactly if no prefix
      goes out of scope between rendered elements; and no tag repeats a known binding. */
  lemma InclusivePreservesNamespaces(cfg: Config, doc: Document)
    requires !cfg.mode.Exclusive? && !NsFiltered(cfg)
    ensures var s := Sights(Canon(cfg, doc), []);
      && (Inners(s) == Scopes(cfg, doc.children, []) <==> KeepsPrefixes(cfg, doc.children, [], map[]))
      && forall i :: 0 <= i < |s| ==> Minimal(s[i])
  {
    hide Sights, Walk, WalkTop;
    ReadTop(cfg, doc.children, false);
    InclusiveForest(cfg, doc.children, [], map[], []);
  }

  // ---------------------------------------------------------------- XML 1.0 documents

  predicate NoUndeclarations(ns: seq<Node>)
    decreases ns, 0
  {
    ns == [] || (NodeNoUndeclarations(ns[0]) && NoUndeclarations(ns[1..]))
  }

  predicate NodeNoUndeclarations(n: Node)
    decreases n, 1
  {
    n.Elem? ==> NoUndeclaration(n.elem) && NoUndeclarations(n.children)
  }

  lemma {:induction false} NoUndeclarationsKeep(cfg: Config, ns: seq<Node>, chain: seq<Frame>, above: NsMap)
    requires NoUndeclarations(ns)
    requires "xml" !in above
    requires forall p :: p in above && p != "" ==> p in Inscope(true, chain)
    ensures KeepsPrefixes(cfg, ns, chain, above)
    decreases ns, 0
  {
    hide Inscope;
    if ns != [] {
      if ns[0].Elem? {
        var here := [Frame(ns[0].id, ns[0].elem)] + chain;
        InscopeGrows(true, chain, Frame(ns[0].id, ns[0].elem));
        InscopeValues(true, here);
        NotXmlKept(cfg, ns[0], here, above);
      }
      NoUndeclarationsKeep(cfg, ns[1..], chain, above);
    }
  }

  lemma {:induction false} NotXmlKept(cfg: Config, n: Node, here: seq<Frame>, above: NsMap)
    requires n.Elem? && NoUndeclarations(n.children)
    requires "xml" !in above
    requires forall p :: p in above && p != "" ==> p in Inscope(true, here)
    requires forall p :: p in Inscope(true, here) && Inscope(true, here)[p] == "" ==> p == ""
    ensures Visible(cfg, n.id) ==> StillBound(above, Scope(here)) && KeepsPrefixes(cfg, n.children, here, Scope(here))
    ensures !Visible(cfg, n.id) ==> KeepsPrefixes(cfg, n.children, here, above)
    decreases n.children, 1
  {
    hide Inscope, KeepsPrefixes;
    if Visible(cfg, n.id) {
      NoUndeclarationsKeep(cfg, n.children, here, Scope(here));
    } else {
      NoUndeclarationsKeep(cfg, n.children, here, above);
    }
  }

  /** For documents that never undeclare a prefix, inclusive output keeps every scope. */
  lemma InclusivePreservesXml10(cfg: Config, doc: Document)
    requires !cfg.mode.Exclusive? && !NsFiltered(cfg)
    requires NoUndeclarations(doc.children)
    ensures Inners(Sights(Canon(cfg, doc), [])) == Scopes(cfg, doc.children, [])
  {
    InclusivePreservesNamespaces(cfg, doc);
    NoUndeclarationsKeep(cfg, doc.children, [], map[]);
  }

  /** `<a xmlns:p="u"><b xmlns:p=""/></a>`: the undeclaration leaves no trace in the output. */
  lemma UndeclarationIsLost(cfg: Config)
    requires cfg == Config(Inclusive, false, None)
    ensures var a, b := Name(None, "a", None), Name(None, "b", None);
      var inner := Elem(2, Element(b, [Binding("p", "")], []), []);
      var doc := Document(0, [Elem(1, Element(a, [Binding("p", "u")], []), [inner])]);
      Inners(Sights(Canon(cfg, doc), [])) != Scopes(cfg, doc.children, [])
  {
    hide Sights, WalkTop, Scopes;
    var ea := Element(Name(None, "a", None), [Binding("p", "u")], []);
    var eb := Element(Name(None, "b", None), [Binding("p", "")], []);
    var inner := Elem(2, eb, []);
    var outer := Elem(1, ea, [inner]);
    InclusivePreservesNamespaces(cfg, Document(0, [outer]));
    var ha := [Frame(1, ea)] + [];
    var hb := [Frame(2, eb)] + ha;
    UndeclaredScopes(ha, hb);
    hide Scope;
    assert !NodeKeeps(cfg, inner, ha, Scope(ha));
    assert [inner][0] == inner;
    assert !KeepsPrefixes(cfg, [inner], ha, Scope(ha));
    assert !NodeKeeps(cfg, outer, [], map[]);
    assert [outer][0] == outer;
  }

  lemma LevelOne(b: Binding)
    ensures Level([b]) == map[b.prefix := b.uri]
  {
    assert [b][..0] == [];
  }

  lemma UndeclaredScopes(ha: seq<Frame>, hb: seq<Frame>)
    requires |ha| == 1 && ha[0].elem.decls == [Binding("p", "u")]
    requires |hb| == 2 && hb[1..] == ha && hb[0].elem.decls == [Binding("p", "")]
    ensures !StillBound(Scope(ha), Scope(hb))
  {
    LevelOne(Binding("p", "u"));
    LevelOne(Binding("p", ""));
    assert Inscope(true, ha) == map["p" := "u"];
    assert "p" !in Inscope(true, hb);
    assert "p" in Scope(ha);
  }
}
