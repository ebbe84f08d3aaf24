/**
 A node set that holds every node that would be written is as good as no node set.
 */
module FullSet {
  import opened Dom
  import opened Ordering
  import opened Render
  import opened NodeSets
  import opened Namespaces
  import opened Canonical

  /** Every node of the forest is visible, comments only as far as they are written. */
  predicate Covers(cfg: Config, ns: seq<Node>)
    decreases ns, 0
  {
    ns == [] || (CoversNode(cfg, ns[0]) && Covers(cfg, ns[1..]))
  }

  predicate CoversNode(cfg: Config, n: Node)
    decreases n, 1
  {
    && (!n.Comment? || cfg.withComments ==> Visible(cfg, n.id))
    && (n.Elem? ==> Covers(cfg, n.children))
  }

  function NoSet(cfg: Config): Config {
    cfg.(nodeSet := None)
  }

  // ---------------------------------------------------------------- the apex

  predicate IsBase(a: Attr) {
    a.uri == XML_NS && a.local == "base"
  }

  function FirstBase(attrs: seq<Attr>): Option<string> {
    if attrs == [] then None
    else if IsBase(attrs[0]) then Some(attrs[0].value)
    else FirstBase(attrs[1..])
  }

  /** Stable sorting keeps the first `xml:base` first. */
  lemma {:induction false} InsertKeepsBase(x: Attr, s: seq<Attr>)
    ensures FirstBase(Insert(AttrLe, x, s)) == if IsBase(x) then Some(x.value) else FirstBase(s)
  {
    if s != [] {
      if AttrLe(x, s[0]) {
        assert ([x] + s)[1..] == s;
      } else {
        var r := Insert(AttrLe, x, s[1..]);
        InsertKeepsBase(x, s[1..]);
        assert ([s[0]] + r)[1..] == r;
        AttrTies(x, s[0]);
      }
    }
  }

  lemma {:induction false} SortKeepsBase(s: seq<Attr>)
    ensures FirstBase(Sort(AttrLe, s)) == FirstBase(s)
  {
    if s != [] {
      SortKeepsBase(s[1..]);
      InsertKeepsBase(s[0], Sort(AttrLe, s[1..]));
    }
  }

  lemma {:induction false} OwnBase(mode: Mode, attrs: seq<Attribute>)
    ensures FirstBase(OwnAttrs(mode, attrs)) == BaseOf(attrs)
  {
    if attrs != [] {
      OwnBase(mode, attrs[1..]);
      assert OwnAttrs(mode, attrs)[1..] == OwnAttrs(mode, attrs[1..]);
    }
  }

  lemma {:induction false} SetBaseAgain(attrs: seq<Attr>, base: string)
    requires base != "" ==> FirstBase(attrs) == Some(base)
    ensures SetBase(attrs, base) == attrs
  {
    if attrs != [] && base != "" {
      assert attrs == [attrs[0]] + attrs[1..];
      if !IsBase(attrs[0]) {
        SetBaseAgain(attrs[1..], base);
      }
    }
  }

  lemma NothingExtra(present: seq<Attr>)
    ensures InheritedXml([]) == map[]
    ensures ExtraAttrs(SortedKeys(InheritedXml([]).Keys), InheritedXml([]), present) == []
  {
    assert InheritedXml([]).Keys == {};
  }

  /** At the document element the `xml:base` fix-up of inclusive 1.1 changes nothing. */
  lemma ApexAttrs(cfg: Config, here: seq<Frame>)
    requires |here| == 1 && !cfg.mode.Exclusive? && cfg.nodeSet.Some? && !cfg.nodeSet.value.excludeAttrs
    ensures InclusiveAttrs(cfg, here) == InclusiveAttrs(NoSet(cfg), here)
  {
    var own := Sort(AttrLe, OwnAttrs(cfg.mode, here[0].elem.attrs));
    assert here[1..] == [];
    NothingExtra(own);
    assert own + [] == own;
    if cfg.mode.Inclusive11? {
      SortKeepsBase(OwnAttrs(cfg.mode, here[0].elem.attrs));
      OwnBase(cfg.mode, here[0].elem.attrs);
      assert AbsoluteBase(cfg.mode.resolve, here[1..]) == "";
      SetBaseAgain(own, AbsoluteBase(cfg.mode.resolve, here));
    }
    hide Sort;
  }

  /** Below visible parents a tag does not depend on the node set. */
  lemma CoveredTag(cfg: Config, here: seq<Frame>, ctx: NsMap)
    requires here != [] && !NsFiltered(cfg) && cfg.nodeSet.Some? && !cfg.nodeSet.value.excludeAttrs
    requires |here| > 1 ==> Visible(cfg, here[1].id)
    ensures StartTag(cfg, here, ctx) == StartTag(NoSet(cfg), here, ctx)
    ensures ChildCtx(cfg, here, ctx) == ChildCtx(NoSet(cfg), here, ctx)
  {
    if !cfg.mode.Exclusive? && |here| == 1 {
      ApexAttrs(cfg, here);
    }
    CoveredAttrs(cfg, here);
    hide TagAttrs, InclusiveAttrs, Inscope, Sort, DeclList, ExclusiveDecls, Changed, Utilized, WithoutXml;
    assert ShownNs(cfg, here) == ShownNs(NoSet(cfg), here);
  }

  lemma CoveredAttrs(cfg: Config, here: seq<Frame>)
    requires here != [] && cfg.nodeSet.Some? && !cfg.nodeSet.value.excludeAttrs
    requires |here| > 1 ==> Visible(cfg, here[1].id)
    requires |here| == 1 && !cfg.mode.Exclusive? ==> InclusiveAttrs(cfg, here) == InclusiveAttrs(NoSet(cfg), here)
    ensures TagAttrs(cfg, here) == TagAttrs(NoSet(cfg), here)
  {
    hide Sort, InheritedXml, ExtraAttrs, SetBase, AbsoluteBase;
  }

  // ---------------------------------------------------------------- the walk

  lemma {:induction false} CoveredWalk(cfg: Config, ns: seq<Node>, chain: seq<Frame>, ctx: NsMap)
    requires !NsFiltered(cfg) && cfg.nodeSet.Some? && !cfg.nodeSet.value.excludeAttrs
    requires Covers(cfg, ns) && (chain != [] ==> Visible(cfg, chain[0].id))
    ensures Walk(cfg, ns, chain, ctx) == Walk(NoSet(cfg), ns, chain, ctx)
    decreases ns, 0
  {
    hide WalkNode, CoversNode;
    if ns != [] {
      CoveredNode(cfg, ns[0], chain, ctx);
      CoveredWalk(cfg, ns[1..], chain, ctx);
    }
  }

  lemma {:induction false} CoveredNode(cfg: Config, n: Node, chain: seq<Frame>, ctx: NsMap)
    requires !NsFiltered(cfg) && cfg.nodeSet.Some? && !cfg.nodeSet.value.excludeAttrs
    requires CoversNode(cfg, n) && (chain != [] ==> Visible(cfg, chain[0].id))
    ensures WalkNode(cfg, n, chain, ctx) == WalkNode(NoSet(cfg), n, chain, ctx)
    decreases n, 1
  {
    hide Walk, StartTag, ChildCtx, Covers;
    if n.Elem? {
      var here := [Frame(n.id, n.elem)] + chain;
      CoveredTag(cfg, here, ctx);
      CoveredWalk(cfg, n.children, here, ChildCtx(cfg, here, ctx));
    }
  }

  lemma {:induction false} CoveredTop(cfg: Config, ns: seq<Node>, before: bool)
    requires !NsFiltered(cfg) && cfg.nodeSet.Some? && !cfg.nodeSet.value.excludeAttrs && Covers(cfg, ns)
    ensures WalkTop(cfg, ns, before) == WalkTop(NoSet(cfg), ns, before)
  {
    hide WalkNode, CoversNode;
    if ns != [] {
      CoveredNode(cfg, ns[0], [], map[]);
      CoveredTop(cfg, ns[1..], before || ns[0].Elem?);
    }
  }

  /** In every mode, a node set that covers the document gives the same canonical form as none. */
  lemma CoveringSetIsNoSet(cfg: Config, doc: Document)
    requires !NsFiltered(cfg) && cfg.nodeSet.Some? && !cfg.nodeSet.value.excludeAttrs
    requires Covers(cfg, doc.children)
    ensures Canon(cfg, doc) == Canon(NoSet(cfg), doc)
  {
    CoveredTop(cfg, doc.children, false);
  }

  // ---------------------------------------------------------------- the constructors

  lemma {:induction false} AllCovers(cfg: Config, ns: seq<Node>, comments: bool)
    requires forall id :: id in SubtreesIds(ns, comments) ==> Visible(cfg, id)
    requires cfg.withComments ==> comments
    ensures Covers(cfg, ns)
    decreases ns
  {
    if ns != [] {
      var n := ns[0];
      assert forall id :: id in SubtreeIds(n, comments) ==> id in SubtreesIds(ns, comments);
      if comments || !n.Comment? {
        assert n.id in SubtreeIds(n, comments);
      }
      if n.Elem? {
        assert forall id :: id in SubtreesIds(n.children, comments) ==> id in SubtreeIds(n, comments);
        AllCovers(cfg, n.children, comments);
      }
      AllCovers(cfg, ns[1..], comments);
    }
  }

  /** The set of all nodes, and without comments the set of all but comments, change nothing. */
  lemma AllIsNoSet(mode: Mode, withComments: bool, doc: Document)
    ensures C14n(Config(mode, withComments, Some(All(doc))), doc) == C14n(Config(mode, withComments, None), doc)
    ensures C14n(Config(mode, false, Some(AllWithoutComments(doc))), doc) == C14n(Config(mode, false, None), doc)
  {
    var a := Config(mode, withComments, Some(All(doc)));
    var b := Config(mode, false, Some(AllWithoutComments(doc)));
    SubtreesIdsComplete(doc.children);
    AllCovers(a, doc.children, true);
    AllCovers(b, doc.children, false);
    CoveringSetIsNoSet(a, doc);
    CoveringSetIsNoSet(b, doc);
  }
}
