/**
 Exclusive canonicalization: the prefixes an element uses keep their meaning, and no tag
 declares anything else.
 */
module ExcPreservation {
  import opened Dom
  import opened Render
  import opened Tokens
  import opened Namespaces
  import opened Canonical
  import opened TagReader
  import opened NsPreservation

  /** What a rendered element asks of its reader: the prefixes it uses and their scope. */
  datatype Need = Need(used: set<string>, scope: NsMap)

  function NeedOf(cfg: Config, here: seq<Frame>): Need
    requires here != [] && cfg.mode.Exclusive?
  {
    Need(Utilized(cfg.mode, here[0].elem) - {"xml"}, Effective(Inscope(false, here)))
  }

  /** The prefixes an element is asked for: its own, those of its attributes in other namespaces than `xml`,
      and those of the PrefixList, where `#default` stands for the empty one. */
  ghost predicate Asks(prefixList: set<string>, e: Element, p: string) {
    || Some(p) == e.name.prefix || (p == "" && e.name.prefix.None?)
    || (p != "" && exists a :: a in e.attrs && a.name.uri.Some? && a.name.uri != Some(XML_NS) && a.name.prefix == Some(p))
    || (p in prefixList && p != "#default") || (p == "" && "#default" in prefixList)
  }

  lemma NeedIsAsked(cfg: Config, here: seq<Frame>, p: string)
    requires here != [] && cfg.mode.Exclusive?
    ensures p in NeedOf(cfg, here).used <==> p != "xml" && Asks(cfg.mode.prefixList, here[0].elem, p)
  {
    var e := here[0].elem;
    if p in AttrPrefixes(cfg.mode, e.attrs) && p != "xml" {
      var i :| 0 <= i < |e.attrs| && AttrPrefix(cfg.mode, e.attrs[i]) == Some(p);
      assert e.attrs[i] in e.attrs;
    }
    if a :| a in e.attrs && a.name.uri.Some? && a.name.uri != Some(XML_NS) && a.name.prefix == Some(p) && p != "" {
      var i :| 0 <= i < |e.attrs| && e.attrs[i] == a;
      assert AttrPrefix(cfg.mode, e.attrs[i]) == Some(p);
    }
    ListedAre(cfg.mode.prefixList, p);
  }

  lemma ListedAre(prefixList: set<string>, p: string)
    ensures p in ListedPrefixes(prefixList) <==> (p in prefixList && p != "#default") || (p == "" && "#default" in prefixList)
  {
    if p in prefixList && p != "#default" {
      assert p in ListedPrefixes(prefixList);
    }
    if "#default" in prefixList {
      assert "" in ListedPrefixes(prefixList);
    }
  }

  function Needs(cfg: Config, ns: seq<Node>, chain: seq<Frame>): seq<Need>
    requires cfg.mode.Exclusive?
    decreases ns, 0
  {
    if ns == [] then [] else NodeNeeds(cfg, ns[0], chain) + Needs(cfg, ns[1..], chain)
  }

  function NodeNeeds(cfg: Config, n: Node, chain: seq<Frame>): seq<Need>
    requires cfg.mode.Exclusive?
    decreases n, 1
  {
    if !n.Elem? then []
    else
      var here := [Frame(n.id, n.elem)] + chain;
      (if Visible(cfg, n.id) then [NeedOf(cfg, here)] else []) + Needs(cfg, n.children, here)
  }

  /** Inside the tag, each used prefix resolves as in the source. */
  predicate Meets(s: Sight, need: Need) {
    forall p :: p in need.used ==> Get(s.inner, p) == Get(need.scope, p)
  }

  /** The tag declares only prefixes the element uses, and nothing already known. */
  predicate Frugal(s: Sight, need: Need) {
    Minimal(s) && forall d :: d in s.decls ==> d.prefix in need.used
  }

  ghost predicate Pairwise<A, B>(r: (A, B) -> bool, s: seq<A>, t: seq<B>) {
    |s| == |t| && forall i :: 0 <= i < |s| ==> r(s[i], t[i])
  }

  lemma PairwiseConcat<A, B>(r: (A, B) -> bool, a: seq<A>, b: seq<A>, x: seq<B>, y: seq<B>)
    requires |a| == |x|
    ensures Pairwise(r, a + b, x + y) <==> Pairwise(r, a, x) && Pairwise(r, b, y)
  {
    var s, t := a + b, x + y;
    assert forall i :: 0 <= i < |a| ==> s[i] == a[i] && t[i] == x[i];
    if Pairwise(r, s, t) {
      forall i | 0 <= i < |b| ensures r(b[i], y[i]) {
        assert s[|a| + i] == b[i] && t[|a| + i] == y[i];
      }
      forall i | 0 <= i < |a| ensures r(a[i], x[i]) {
        assert r(s[i], t[i]);
      }
    }
  }

  ghost predicate AllMeet(s: seq<Sight>, needs: seq<Need>) {
    Pairwise(Meets, s, needs)
  }

  ghost predicate AllFrugal(s: seq<Sight>, needs: seq<Need>) {
    Pairwise(Frugal, s, needs)
  }

  /** A used prefix that is not in scope was not used in scope by a rendered ancestor;
      `bound` holds the prefixes that were. */
  predicate KeepsUsed(cfg: Config, ns: seq<Node>, chain: seq<Frame>, bound: set<string>)
    requires cfg.mode.Exclusive?
    decreases ns, 0
  {
    ns == [] || (NodeKeepsUsed(cfg, ns[0], chain, bound) && KeepsUsed(cfg, ns[1..], chain, bound))
  }

  predicate NodeKeepsUsed(cfg: Config, n: Node, chain: seq<Frame>, bound: set<string>)
    requires cfg.mode.Exclusive?
    decreases n, 1
  {
    n.Elem? ==>
      var here := [Frame(n.id, n.elem)] + chain;
      if Visible(cfg, n.id) then
        && Usable(NeedOf(cfg, here), bound)
        && KeepsUsed(cfg, n.children, here, bound + NewlyBound(NeedOf(cfg, here)))
      else KeepsUsed(cfg, n.children, here, bound)
  }

  predicate Usable(need: Need, bound: set<string>) {
    forall p :: p in need.used && p != "" && p !in need.scope ==> p !in bound
  }

  function NewlyBound(need: Need): set<string> {
    set p | p in need.used && p != "" && p in need.scope
  }

  ghost predicate InStepExc(ctx: NsMap, stack: seq<NsMap>, bound: set<string>) {
    && Effective(ctx) == Top(stack)
    && forall p :: p in bound <==> p in Top(stack) && p != ""
  }

  /** One exclusive tag: the context passed on is exactly what the reader knows; the used
      prefixes are right exactly if none is bound by mistake; nothing else is declared. */
  lemma ExclusiveTag(cfg: Config, here: seq<Frame>, ctx: NsMap, stack: seq<NsMap>, bound: set<string>)
    requires here != [] && cfg.mode.Exclusive? && !NsFiltered(cfg)
    requires InStepExc(ctx, stack, bound)
    ensures var c := Declared(Top(stack), StartTag(cfg, here, ctx).decls);
      var s := Sight(Top(stack), StartTag(cfg, here, ctx).decls, c);
      && InStepExc(ChildCtx(cfg, here, ctx), [c] + stack, bound + NewlyBound(NeedOf(cfg, here)))
      && (Meets(s, NeedOf(cfg, here)) <==> Usable(NeedOf(cfg, here), bound))
      && Frugal(s, NeedOf(cfg, here))
  {
    hide DeclList, Declared, Inscope, Effective, ExclusiveDecls, Utilized;
    var shown := Inscope(false, here);
    var used := Utilized(cfg.mode, here[0].elem);
    var m := ExclusiveDecls(used, shown, ctx);
    InscopeValues(false, here);
    ExclusiveMeaning(used, shown, ctx);
    DeclaredIsEffective(ctx, m);
    ExclusiveReads(used, shown, ctx, bound);
  }

  lemma ExclusiveMeaning(used: set<string>, shown: NsMap, ctx: NsMap)
    requires forall p :: p in shown ==> shown[p] != ""
    ensures var m := ExclusiveDecls(used, shown, ctx);
      && "xml" !in m
      && forall d :: d in DeclList(m) ==> d.prefix in used - {"xml"} && Bound(Effective(ctx), d.prefix) != d.uri
  {
    hide DeclList;
  }

  lemma ExclusiveReads(used: set<string>, shown: NsMap, ctx: NsMap, bound: set<string>)
    requires forall p :: p in shown ==> shown[p] != ""
    requires forall p :: p in bound <==> p in Effective(ctx) && p != ""
    ensures var c := Effective(ctx + ExclusiveDecls(used, shown, ctx));
      var need := Need(used - {"xml"}, Effective(shown));
      && (forall p :: p in bound + NewlyBound(need) <==> p in c && p != "")
      && ((forall p :: p in need.used ==> Get(c, p) == Get(need.scope, p)) <==> Usable(need, bound))
  {
    var c := Effective(ctx + ExclusiveDecls(used, shown, ctx));
    var need := Need(used - {"xml"}, Effective(shown));
    forall p | p in need.used
      ensures Get(c, p) == Get(need.scope, p) <==> (p != "" && p !in need.scope ==> p !in bound)
    {
    }
  }

  lemma {:induction false} ExclusiveForest(cfg: Config, ns: seq<Node>, chain: seq<Frame>, ctx: NsMap,
                                           stack: seq<NsMap>, bound: set<string>)
    requires cfg.mode.Exclusive? && !NsFiltered(cfg)
    requires InStepExc(ctx, stack, bound)
    ensures var s := Sights(Walk(cfg, ns, chain, ctx), stack);
      && (AllMeet(s, Needs(cfg, ns, chain)) <==> KeepsUsed(cfg, ns, chain, bound))
      && AllFrugal(s, Needs(cfg, ns, chain))
    decreases ns, 0
  {
    hide Sights, WalkNode, InStepExc, Meets, Frugal;
    ReadNothing(stack);
    if ns != [] {
      var a, b := WalkNode(cfg, ns[0], chain, ctx), Walk(cfg, ns[1..], chain, ctx);
      ExclusiveNode(cfg, ns[0], chain, ctx, stack, bound);
      ExclusiveForest(cfg, ns[1..], chain, ctx, stack, bound);
      ReadNode(cfg, ns[0], chain, ctx, b, stack);
      JoinNeeds(Sights(a, stack), Sights(b, stack), NodeNeeds(cfg, ns[0], chain), Needs(cfg, ns[1..], chain));
    }
  }

  lemma JoinNeeds(a: seq<Sight>, b: seq<Sight>, x: seq<Need>, y: seq<Need>)
    requires |a| == |x|
    ensures AllMeet(a + b, x + y) <==> AllMeet(a, x) && AllMeet(b, y)
    ensures AllFrugal(a + b, x + y) <==> AllFrugal(a, x) && AllFrugal(b, y)
  {
    PairwiseConcat(Meets, a, b, x, y);
    PairwiseConcat(Frugal, a, b, x, y);
  }

  lemma {:induction false} ExclusiveNode(cfg: Config, n: Node, chain: seq<Frame>, ctx: NsMap,
                                         stack: seq<NsMap>, bound: set<string>)
    requires cfg.mode.Exclusive? && !NsFiltered(cfg)
    requires InStepExc(ctx, stack, bound)
    ensures var s := Sights(WalkNode(cfg, n, chain, ctx), stack);
      && (AllMeet(s, NodeNeeds(cfg, n, chain)) <==> NodeKeepsUsed(cfg, n, chain, bound))
      && AllFrugal(s, NodeNeeds(cfg, n, chain))
    decreases n, 1
  {
    hide Sights, Walk, StartTag, ChildCtx, NeedOf, InStepExc, Meets, Frugal, KeepsUsed, Needs, NewlyBound, Usable;
    ReadNothing(stack);
    var ts := WalkNode(cfg, n, chain, ctx);
    if n.Elem? {
      var here := [Frame(n.id, n.elem)] + chain;
      if Visible(cfg, n.id) {
        ExclusiveElement(cfg, n, here, ctx, stack, bound);
      } else {
        ExclusiveForest(cfg, n.children, here, ctx, stack, bound);
        assert ts == Walk(cfg, n.children, here, ctx);
      }
    } else if ts != [] {
      ReadPlain(ts[0], [], stack);
      assert ts == [ts[0]] + [];
    }
  }

  lemma {:induction false} ExclusiveElement(cfg: Config, n: Node, here: seq<Frame>, ctx: NsMap,
                                            stack: seq<NsMap>, bound: set<string>)
    requires cfg.mode.Exclusive? && !NsFiltered(cfg)
    requires n.Elem? && here != [] && here[0] == Frame(n.id, n.elem)
    requires InStepExc(ctx, stack, bound)
    ensures var s := Sights([StartTag(cfg, here, ctx)] + Walk(cfg, n.children, here, ChildCtx(cfg, here, ctx))
                            + [End(TagName(n.elem))], stack);
      var needs := [NeedOf(cfg, here)] + Needs(cfg, n.children, here);
      && (AllMeet(s, needs) <==>
           (Usable(NeedOf(cfg, here), bound) &&
            KeepsUsed(cfg, n.children, here, bound + NewlyBound(NeedOf(cfg, here)))))
      && AllFrugal(s, needs)
    decreases n, 0
  {
    var t := StartTag(cfg, here, ctx);
    hide *;
    var c := Declared(Top(stack), t.decls);
    ExclusiveTag(cfg, here, ctx, stack, bound);
    ReadElement(cfg, n, here, ctx, [], stack);
    ExclusiveForest(cfg, n.children, here, ChildCtx(cfg, here, ctx), [c] + stack,
                    bound + NewlyBound(NeedOf(cfg, here)));
    var kids := Sights(Walk(cfg, n.children, here, ChildCtx(cfg, here, ctx)), [c] + stack);
    var first := Sight(Top(stack), t.decls, c);
    JoinNeeds([first], kids, [NeedOf(cfg, here)], Needs(cfg, n.children, here));
    OneNeed(first, NeedOf(cfg, here));
  }

  lemma OneNeed(s: Sight, need: Need)
    ensures AllMeet([s], [need]) <==> Meets(s, need)
    ensures AllFrugal([s], [need]) <==> Frugal(s, need)
  {
    hide Meets, Frugal;
    assert [s][0] == s && [need][0] == need;
  }

  /** Exclusive canonicalization of any node set without a namespace filter: at every rendered
      element each visibly utilized or listed prefix resolves as in the source exactly if no
      prefix is used out of scope below a use in scope; no other prefix is declared, and none
      twice. */
  lemma ExclusivePreservesNamespaces(cfg: Config, doc: Document)
    requires cfg.mode.Exclusive? && !NsFiltered(cfg)
    ensures var s := Sights(Canon(cfg, doc), []);
      && (AllMeet(s, Needs(cfg, doc.children, [])) <==> KeepsUsed(cfg, doc.children, [], {}))
      && AllFrugal(s, Needs(cfg, doc.children, []))
  {
    hide Sights, Walk, WalkTop;
    ReadTop(cfg, doc.children, false);
    ExclusiveForest(cfg, doc.children, [], map[], [], {});
  }

  // ---------------------------------------------------------------- XML 1.0 documents

  lemma {:induction false} NoUndeclarationsKeepUsed(cfg: Config, ns: seq<Node>, chain: seq<Frame>, bound: set<string>)
    requires cfg.mode.Exclusive? && NoUndeclarations(ns)
    requires "" !in bound && "xml" !in bound
    requires forall p :: p in bound ==> p in Inscope(false, chain)
    ensures KeepsUsed(cfg, ns, chain, bound)
    decreases ns
  {
    hide Inscope;
    if ns != [] {
      if ns[0].Elem? {
        var f := Frame(ns[0].id, ns[0].elem);
        var here := [f] + chain;
        InscopeGrows(false, chain, f);
        InscopeValues(false, here);
        var need := NeedOf(cfg, here);
        NoUndeclarationsKeepUsed(cfg, ns[0].children, here, if Visible(cfg, ns[0].id) then bound + NewlyBound(need) else bound);
      }
      NoUndeclarationsKeepUsed(cfg, ns[1..], chain, bound);
    }
  }

  lemma ExclusivePreservesXml10(cfg: Config, doc: Document)
    requires cfg.mode.Exclusive? && !NsFiltered(cfg)
    requires NoUndeclarations(doc.children)
    ensures AllMeet(Sights(Canon(cfg, doc), []), Needs(cfg, doc.children, []))
  {
    ExclusivePreservesNamespaces(cfg, doc);
    NoUndeclarationsKeepUsed(cfg, doc.children, [], {});
  }

  // ---------------------------------------------------------------- a prefix that is undeclared

  /** `<a xmlns:p="u"><b xmlns:p=""/></a>` with `p` in the PrefixList: at `b` the reader still has `p`
      bound, where the source has not. */
  lemma ListedUndeclarationIsLost(cfg: Config)
    requires cfg == Config(Exclusive({"p"}), false, None)
    ensures var a, b := Name(None, "a", None), Name(None, "b", None);
      var inner := Elem(2, Element(b, [Binding("p", "")], []), []);
      var doc := Document(0, [Elem(1, Element(a, [Binding("p", "u")], []), [inner])]);
      !AllMeet(Sights(Canon(cfg, doc), []), Needs(cfg, doc.children, []))
  {
    hide Sights, WalkTop, Needs, AllMeet;
    var ea := Element(Name(None, "a", None), [Binding("p", "u")], []);
    var eb := Element(Name(None, "b", None), [Binding("p", "")], []);
    var inner := Elem(2, eb, []);
    var outer := Elem(1, ea, [inner]);
    ExclusivePreservesNamespaces(cfg, Document(0, [outer]));
    var ha := [Frame(1, ea)] + [];
    var hb := [Frame(2, eb)] + ha;
    assert hb[1..] == ha && ha[1..] == [];
    ListedNeeds(cfg, ha, hb);
    var bound := {} + NewlyBound(NeedOf(cfg, ha));
    hide NeedOf, Usable, NewlyBound;
    assert !NodeKeepsUsed(cfg, inner, ha, bound);
    assert [inner][0] == inner;
    assert !KeepsUsed(cfg, [inner], ha, bound);
    assert !NodeKeepsUsed(cfg, outer, [], {});
    assert [outer][0] == outer;
  }

  lemma ListedNeeds(cfg: Config, ha: seq<Frame>, hb: seq<Frame>)
    requires cfg.mode == Exclusive({"p"})
    requires |ha| == 1 && ha[0].elem.decls == [Binding("p", "u")]
    requires |hb| == 2 && hb[1..] == ha && hb[0].elem.decls == [Binding("p", "")]
    ensures !Usable(NeedOf(cfg, hb), {} + NewlyBound(NeedOf(cfg, ha)))
  {
    LevelOne(Binding("p", "u"));
    LevelOne(Binding("p", ""));
    assert Inscope(false, ha) == map["p" := "u"];
    assert "p" !in Inscope(false, hb);
    assert "p" in ListedPrefixes({"p"}) by {
      assert "p" in {"p"} && "p" != "#default";
    }
    assert "p" in NeedOf(cfg, ha).scope && "p" in NeedOf(cfg, ha).used && "p" in NeedOf(cfg, hb).used;
  }
}
