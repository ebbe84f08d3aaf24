/**
 The order of namespace declarations and attributes in every start tag of the output, in terms
 of the characters of their names.
 */
module TagOrder {
  import opened Dom
  import opened Ordering
  import opened Render
  import opened Tokens
  import opened Canonical
  import opened NsPreservation
  import opened Spots
  import opened WellFormed
  import opened OrderFree
  import opened XmlInheritance

  /** Declarations ascend by prefix; the default namespace has the empty one. */
  ghost predicate PrefixesAscend(ds: seq<NsDecl>) {
    forall i, j :: 0 <= i < j < |ds| ==> Precedes(ds[i].prefix, ds[j].prefix)
  }

  /** Attributes ascend by namespace URI, absent first, and then by local name. */
  ghost predicate NamesAscend(attrs: seq<Attr>) {
    forall i, j :: 0 <= i < j < |attrs| ==>
      Precedes(attrs[i].uri, attrs[j].uri) || (attrs[i].uri == attrs[j].uri && Precedes(attrs[i].local, attrs[j].local))
  }

  /** `a` is an attribute of the element, under the name it has there, or an `xml:` attribute, which may
      come from above. */
  ghost predicate Originates(a: Attr, e: Element) {
    || (a.uri == XML_NS && a.qname == "xml:" + a.local)
    || exists x :: x in e.attrs && WrittenAs(x, a)
  }

  predicate WrittenAs(x: Attribute, a: Attr) {
    && a.uri == UriOf(x.name) && a.local == x.name.local && a.value == x.value
    && a.qname == if x.name.prefix.Some? then x.name.prefix.value + ":" + x.name.local else x.name.local
  }

  /** The tag of the element `e`, in order. */
  ghost predicate InOrder(t: Token, e: Element)
    requires t.Start?
  {
    && PrefixesAscend(t.decls)
    && exists attrs: seq<Attr> ::
         && NamesAscend(attrs) && |attrs| == |t.attrs|
         && forall i :: 0 <= i < |attrs| ==>
              t.attrs[i].name == attrs[i].qname && t.attrs[i].value == attrs[i].value && Originates(attrs[i], e)
  }

  lemma StrictDecls(ds: seq<NsDecl>)
    requires Strict(DeclLe, ds)
    ensures PrefixesAscend(ds)
  {
    forall i, j | 0 <= i < j < |ds| ensures Precedes(ds[i].prefix, ds[j].prefix) {
      DeclCmpIsPrefixOrder(ds[i], ds[j]);
      StrCmpTotal(ds[i].prefix, ds[j].prefix);
      DeclTies(ds[i], ds[j]);
      StrCmpIsPrecedes(ds[i].prefix, ds[j].prefix);
    }
  }

  lemma StrictAttrs(attrs: seq<Attr>)
    requires Strict(AttrLe, attrs)
    ensures NamesAscend(attrs)
  {
    forall i, j | 0 <= i < j < |attrs|
      ensures Precedes(attrs[i].uri, attrs[j].uri) || (attrs[i].uri == attrs[j].uri && Precedes(attrs[i].local, attrs[j].local))
    {
      var a, b := attrs[i], attrs[j];
      AttrCmpIsLexicographic(a, b);
      AttrTies(a, b);
      StrCmpTotal(a.uri, b.uri);
      StrCmpTotal(a.local, b.local);
      StrCmpIsPrecedes(a.uri, b.uri);
      StrCmpIsPrecedes(a.local, b.local);
    }
  }

  // ---------------------------------------------------------------- attributes of one tag

  /** Where an attribute of the list with its `xml:base` set comes from. */
  ghost predicate SetFrom(attrs: seq<Attr>, base: string, a: Attr) {
    || a in attrs
    || a == Attr(XML_NS, "base", "xml:base", base)
    || exists x :: x in attrs && x.uri == a.uri == XML_NS && x.local == a.local == "base" && x.qname == a.qname
  }

  lemma {:induction false} SetBaseFrom(attrs: seq<Attr>, base: string, a: Attr)
    requires a in SetBase(attrs, base)
    ensures SetFrom(attrs, base, a)
  {
    if base != "" && attrs != [] {
      var first, rest := attrs[0], attrs[1..];
      assert first in attrs && forall x :: x in rest ==> x in attrs;
      if first.uri == XML_NS && first.local == "base" {
        assert SetBase(attrs, base) == [first.(value := base)] + rest;
      } else if a != first {
        SetBaseFrom(rest, base, a);
      }
    }
  }

  lemma OwnOriginates(mode: Mode, e: Element, scope: NsMap, a: Attr)
    requires WellAttributed(e.attrs, scope) && a in OwnAttrs(mode, e.attrs)
    ensures Originates(a, e)
    ensures a.uri == XML_NS ==> a.qname == "xml:" + a.local
  {
    OwnMember(mode, e.attrs, a);
    var x :| x in e.attrs && ToAttr(mode, x) == a;
    var i :| 0 <= i < |e.attrs| && e.attrs[i] == x;
    AttrPrefixIsOwn(mode, x, scope);
    assert XML_NS != "" && "xml" + ":" == "xml:";
    assert WrittenAs(x, a);
  }

  /** What is known of the attributes of one element before sorting: none twice, and their origin. */
  ghost predicate Sourced(attrs: seq<Attr>, e: Element) {
    && NoRepeat(attrs)
    && forall a :: a in attrs ==> Originates(a, e) && (a.uri == XML_NS ==> a.qname == "xml:" + a.local)
  }

  lemma OwnSourced(mode: Mode, e: Element, scope: NsMap)
    requires WellAttributed(e.attrs, scope)
    ensures Sourced(Sort(AttrLe, OwnAttrs(mode, e.attrs)), e) && Sourced([], e)
  {
    var own := Sort(AttrLe, OwnAttrs(mode, e.attrs));
    SortedOwn(mode, e.attrs);
    DistinctIsNoRepeat(own);
    hide Sort, OwnAttrs, WellAttributed, Distinct, Originates;
    forall a | a in own ensures Originates(a, e) && (a.uri == XML_NS ==> a.qname == "xml:" + a.local) {
      OwnOriginates(mode, e, scope, a);
    }
  }

  lemma ExtraSourced(own: seq<Attr>, inherited: NsMap, e: Element)
    requires Sourced(own, e)
    ensures Sourced(own + ExtraAttrs(SortedKeys(inherited.Keys), inherited, own), e)
  {
    var names := SortedKeys(inherited.Keys);
    DistinctIsNoRepeat(own);
    WrittenDistinct(own, names, inherited);
    var all := own + ExtraAttrs(names, inherited, own);
    DistinctIsNoRepeat(all);
    hide ExtraAttrs, SortedKeys, Distinct, NoRepeat, HasXmlAttr, AttrLe;
    forall a | a in all ensures Originates(a, e) && (a.uri == XML_NS ==> a.qname == "xml:" + a.local) {
      ExtraMember(names, inherited, own, a);
    }
  }

  lemma BaseSourced(attrs: seq<Attr>, base: string, e: Element)
    requires Sourced(attrs, e)
    ensures Sourced(SetBase(attrs, base), e)
  {
    SetBaseKeeps(attrs, base);
    assert "xml:base" == "xml:" + "base";
    hide SetBase, NoRepeat;
    forall a | a in SetBase(attrs, base) ensures Originates(a, e) && (a.uri == XML_NS ==> a.qname == "xml:" + a.local) {
      SetBaseFrom(attrs, base, a);
    }
  }

  lemma SortedSourced(attrs: seq<Attr>, e: Element)
    requires Sourced(attrs, e)
    ensures Sourced(Sort(AttrLe, attrs), e) && NamesAscend(Sort(AttrLe, attrs))
  {
    DistinctIsNoRepeat(attrs);
    hide Sort, NoRepeat, Originates, AttrLe;
    SortsStrictly(attrs);
    StrictAttrs(Sort(AttrLe, attrs));
    StrictIsDistinct(Sort(AttrLe, attrs));
    DistinctIsNoRepeat(Sort(AttrLe, attrs));
  }

  lemma StrictIsDistinct(attrs: seq<Attr>)
    requires Strict(AttrLe, attrs)
    ensures Distinct(AttrLe, attrs)
  {
  }

  /** The attributes of a tag before its `xml:` ones are added, and with them. */
  function Base(cfg: Config, here: seq<Frame>): seq<Attr>
    requires here != []
  {
    if cfg.nodeSet.Some? && cfg.nodeSet.value.excludeAttrs then [] else Sort(AttrLe, OwnAttrs(cfg.mode, here[0].elem.attrs))
  }

  function WithExtra(cfg: Config, here: seq<Frame>): seq<Attr>
    requires here != []
  {
    Base(cfg, here) + ExtraAttrs(SortedKeys(InheritedXml(here[1..]).Keys), InheritedXml(here[1..]), Base(cfg, here))
  }

  /** What is sorted last. */
  ghost predicate Unsorted(cfg: Config, here: seq<Frame>, attrs: seq<Attr>)
    requires here != []
  {
    || attrs == Base(cfg, here)
    || attrs == WithExtra(cfg, here)
    || (cfg.mode.Inclusive11? && attrs == SetBase(WithExtra(cfg, here), AbsoluteBase(cfg.mode.resolve, here)))
  }

  lemma TagAttrsCases(cfg: Config, here: seq<Frame>) returns (attrs: seq<Attr>)
    requires here != []
    ensures (cfg.mode.Exclusive? && TagAttrs(cfg, here) == Sort(AttrLe, OwnAttrs(cfg.mode, here[0].elem.attrs)))
         || (Unsorted(cfg, here, attrs) && TagAttrs(cfg, here) == Sort(AttrLe, attrs))
  {
    attrs := Base(cfg, here);
    hide Sort, OwnAttrs, ExtraAttrs, SetBase, InheritedXml, SortedKeys, AttrLe, AbsoluteBase;
    if !cfg.mode.Exclusive? && cfg.nodeSet.Some? && !cfg.nodeSet.value.excludeAttrs && ParentHidden(cfg, here) {
      attrs := WithExtra(cfg, here);
      if cfg.mode.Inclusive11? {
        attrs := SetBase(attrs, AbsoluteBase(cfg.mode.resolve, here));
      }
    }
  }

  /** The attributes of a tag in any mode. */
  lemma AttrsInOrder(cfg: Config, here: seq<Frame>, scope: NsMap)
    requires here != [] && WellAttributed(here[0].elem.attrs, scope)
    ensures Sourced(TagAttrs(cfg, here), here[0].elem) && NamesAscend(TagAttrs(cfg, here))
  {
    var e := here[0].elem;
    hide *;
    OwnSourced(cfg.mode, e, scope);
    OwnOnce(cfg.mode, e, scope);
    var attrs := TagAttrsCases(cfg, here);
    if Unsorted(cfg, here, attrs) {
      UnsortedSourced(cfg, here, scope, attrs);
      SortedSourced(attrs, e);
    }
  }

  lemma UnsortedSourced(cfg: Config, here: seq<Frame>, scope: NsMap, attrs: seq<Attr>)
    requires here != [] && WellAttributed(here[0].elem.attrs, scope) && Unsorted(cfg, here, attrs)
    ensures Sourced(attrs, here[0].elem)
  {
    hide WellAttributed, Sourced, Sort, OwnAttrs, ExtraAttrs, SetBase, InheritedXml, SortedKeys, AttrLe, AbsoluteBase;
    OwnSourced(cfg.mode, here[0].elem, scope);
    ExtraSourced(Base(cfg, here), InheritedXml(here[1..]), here[0].elem);
    if cfg.mode.Inclusive11? {
      BaseSourced(WithExtra(cfg, here), AbsoluteBase(cfg.mode.resolve, here), here[0].elem);
    }
  }

  lemma OwnOnce(mode: Mode, e: Element, scope: NsMap)
    requires WellAttributed(e.attrs, scope)
    ensures NamesAscend(Sort(AttrLe, OwnAttrs(mode, e.attrs)))
  {
    OwnDistinct(mode, e.attrs);
    hide *;
    SortsStrictly(OwnAttrs(mode, e.attrs));
    StrictAttrs(Sort(AttrLe, OwnAttrs(mode, e.attrs)));
  }

  lemma SortsStrictly(attrs: seq<Attr>)
    requires Distinct(AttrLe, attrs)
    ensures Strict(AttrLe, Sort(AttrLe, attrs)) && forall a :: a in Sort(AttrLe, attrs) <==> a in attrs
  {
    AttrLeTotal();
    SortStrict(AttrLe, attrs);
    SortMultiset(AttrLe, attrs);
    SameMembers(Sort(AttrLe, attrs), attrs);
  }

  lemma TagInOrder(cfg: Config, here: seq<Frame>, ctx: NsMap)
    requires here != [] && WellAttributed(here[0].elem.attrs, Scope(here))
    ensures StartTag(cfg, here, ctx).Start? && InOrder(StartTag(cfg, here, ctx), here[0].elem)
  {
    hide *;
    AttrsInOrder(cfg, here, Scope(here));
    DeclListStrict(TagDecls(cfg, here, ctx));
    StrictDecls(DeclList(TagDecls(cfg, here, ctx)));
    TagParts(cfg, here, ctx);
    OrderIntro(StartTag(cfg, here, ctx), here[0].elem, TagAttrs(cfg, here));
  }

  lemma TagParts(cfg: Config, here: seq<Frame>, ctx: NsMap)
    requires here != []
    ensures StartTag(cfg, here, ctx) == Start(TagName(here[0].elem), DeclList(TagDecls(cfg, here, ctx)), ToFields(TagAttrs(cfg, here)))
  {
  }

  lemma OrderIntro(t: Token, e: Element, attrs: seq<Attr>)
    requires t.Start? && PrefixesAscend(t.decls) && t.attrs == ToFields(attrs) && Sourced(attrs, e) && NamesAscend(attrs)
    ensures InOrder(t, e)
  {
    hide PrefixesAscend, NamesAscend, Originates, NoRepeat;
    assert forall i :: 0 <= i < |attrs| ==> attrs[i] in attrs;
  }

  // ---------------------------------------------------------------- every tag of the output

  /** The token is the tag of an element of the forest, in order. */
  ghost predicate OrderedTag(cfg: Config, t: Token, ns: seq<Node>, chain: seq<Frame>) {
    (t.Floating? ==> PrefixesAscend(t.decls))
    && (t.Start? ==> exists s :: s in Spots.Spots(ns, chain) && s.node.Elem? && Visible(cfg, s.node.id)
                      && t.name == TagName(s.node.elem) && InOrder(t, s.node.elem))
  }

  lemma {:induction false} WalkInOrder(cfg: Config, ns: seq<Node>, chain: seq<Frame>, ctx: NsMap, t: Token)
    requires WellFormedForest(ns, chain) && t in Walk(cfg, ns, chain, ctx)
    ensures OrderedTag(cfg, t, ns, chain)
    decreases ns, 0
  {
    hide WalkNode, WellFormedNode, InOrder, PrefixesAscend, NodeSpots, Visible, TagName;
    if t in WalkNode(cfg, ns[0], chain, ctx) {
      NodeInOrder(cfg, ns[0], chain, ctx, t);
    } else {
      WalkInOrder(cfg, ns[1..], chain, ctx, t);
    }
  }

  lemma {:induction false} NodeInOrder(cfg: Config, n: Node, chain: seq<Frame>, ctx: NsMap, t: Token)
    requires WellFormedNode(n, chain) && t in WalkNode(cfg, n, chain, ctx)
    ensures t.Floating? ==> PrefixesAscend(t.decls)
    ensures t.Start? ==> exists s :: s in NodeSpots(n, chain) && s.node.Elem? && Visible(cfg, s.node.id)
                          && t.name == TagName(s.node.elem) && InOrder(t, s.node.elem)
    decreases n, 1
  {
    hide Walk, WellFormedForest, StartTag, ChildCtx, FloatingDecls, InOrder, PrefixesAscend, Spots.Spots, Visible, TagName, DeclList, Floats;
    if n.Elem? {
      var here, spot := [Frame(n.id, n.elem)] + chain, Spot(n, chain);
      WellAttributedHere(n, chain);
      TagInOrder(cfg, here, ctx);
      TagNamed(cfg, here, ctx);
      DeclListStrict(FloatingDecls(cfg, here, ctx));
      StrictDecls(DeclList(FloatingDecls(cfg, here, ctx)));
      assert spot in NodeSpots(n, chain);
      if t in Walk(cfg, n.children, here, ChildCtx(cfg, here, ctx)) && Visible(cfg, n.id) {
        WalkInOrder(cfg, n.children, here, ChildCtx(cfg, here, ctx), t);
      } else if t in Walk(cfg, n.children, here, ctx) && !Visible(cfg, n.id) {
        WalkInOrder(cfg, n.children, here, ctx, t);
      }
    }
  }

  lemma WellAttributedHere(n: Node, chain: seq<Frame>)
    requires n.Elem? && WellFormedNode(n, chain)
    ensures var here := [Frame(n.id, n.elem)] + chain;
      WellAttributed(n.elem.attrs, Scope(here)) && WellFormedForest(n.children, here)
  {
  }

  lemma TagNamed(cfg: Config, here: seq<Frame>, ctx: NsMap)
    requires here != []
    ensures StartTag(cfg, here, ctx).Start? && StartTag(cfg, here, ctx).name == TagName(here[0].elem)
  {
  }

  lemma {:induction false} TopInOrder(cfg: Config, ns: seq<Node>, before: bool, t: Token)
    requires WellFormedForest(ns, []) && t in WalkTop(cfg, ns, before)
    ensures OrderedTag(cfg, t, ns, [])
  {
    hide WalkNode, WellFormedNode, InOrder, PrefixesAscend, NodeSpots, Visible, TagName, HasElement;
    if t in TopNode(cfg, ns[0], before, HasElement(ns[1..])) {
      if t in WalkNode(cfg, ns[0], [], map[]) {
        NodeInOrder(cfg, ns[0], [], map[], t);
      }
    } else {
      TopInOrder(cfg, ns[1..], before || ns[0].Elem?, t);
    }
  }

  /** Every start tag of the canonical form, in every mode and for every node set: it belongs to a
      rendered element, its prefixes ascend in dictionary order, and its attributes, each one of the
      element or an `xml:` attribute, ascend by namespace URI and then by local name. */
  lemma TagsAreOrdered(cfg: Config, doc: Document, t: Token)
    requires WellFormedForest(doc.children, []) && t in Canon(cfg, doc)
    ensures t.Floating? ==> PrefixesAscend(t.decls)
    ensures t.Start? ==> exists s :: s in AllSpots(doc) && s.node.Elem? && Visible(cfg, s.node.id)
                          && t.name == TagName(s.node.elem) && InOrder(t, s.node.elem)
  {
    TopInOrder(cfg, doc.children, false, t);
  }
}
