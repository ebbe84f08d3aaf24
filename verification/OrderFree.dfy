/**
 Canonical output does not depend on the order in which attributes and namespace
 declarations were written.
 */
module OrderFree {
  import opened Dom
  import opened Ordering
  import opened Render
  import opened Namespaces
  import opened Canonical
  import opened WellFormed

  /** Two elements that differ only in the order of their attributes and declarations. */
  ghost predicate Shuffled(a: Element, b: Element) {
    && a.name == b.name
    && multiset(a.decls) == multiset(b.decls) && UniquePrefixes(a.decls) && UniquePrefixes(b.decls)
    && multiset(a.attrs) == multiset(b.attrs) && UniqueAttrs(a.attrs) && UniqueAttrs(b.attrs)
  }

  ghost predicate ShuffledForest(a: seq<Node>, b: seq<Node>)
    decreases a, 0
  {
    |a| == |b| && (a == [] || (ShuffledNode(a[0], b[0]) && ShuffledForest(a[1..], b[1..])))
  }

  ghost predicate ShuffledNode(a: Node, b: Node)
    decreases a, 1
  {
    if a.Elem? && b.Elem? then
      a.id == b.id && Shuffled(a.elem, b.elem) && ShuffledForest(a.children, b.children)
    else a == b
  }

  ghost predicate ShuffledChain(a: seq<Frame>, b: seq<Frame>) {
    |a| == |b| && forall i :: 0 <= i < |a| ==> a[i].id == b[i].id && Shuffled(a[i].elem, b[i].elem)
  }

  lemma SameMembers<T>(a: seq<T>, b: seq<T>)
    requires multiset(a) == multiset(b)
    ensures forall x :: x in a <==> x in b
  {
    forall x ensures x in a <==> x in b {
      assert x in a <==> x in multiset(a);
      assert x in b <==> x in multiset(b);
    }
  }

  // ---------------------------------------------------------------- one element

  lemma LevelEntry(decls: seq<Binding>, p: string, uri: string)
    requires UniquePrefixes(decls)
    ensures Get(Level(decls), p) == Some(uri) <==> Binding(p, uri) in decls
  {
    LevelKeys(decls);
    LevelValues(decls);
  }

  lemma ShuffledLevel(a: seq<Binding>, b: seq<Binding>)
    requires multiset(a) == multiset(b) && UniquePrefixes(a) && UniquePrefixes(b)
    ensures Level(a) == Level(b)
  {
    SameMembers(a, b);
    var x, y := Level(a), Level(b);
    hide Level;
    forall p, uri ensures Get(x, p) == Some(uri) <==> Get(y, p) == Some(uri) {
      LevelEntry(a, p, uri);
      LevelEntry(b, p, uri);
    }
    SameGets(x, y);
  }

  lemma OwnMember(mode: Mode, attrs: seq<Attribute>, x: Attr)
    ensures x in OwnAttrs(mode, attrs) <==> exists a :: a in attrs && ToAttr(mode, a) == x
  {
    var own := OwnAttrs(mode, attrs);
    if x in own {
      var i :| 0 <= i < |own| && own[i] == x;
      assert attrs[i] in attrs;
    }
    if a :| a in attrs && ToAttr(mode, a) == x {
      var i :| 0 <= i < |attrs| && attrs[i] == a;
      assert own[i] == x;
    }
  }

  lemma ShuffledOwn(mode: Mode, a: seq<Attribute>, b: seq<Attribute>)
    requires multiset(a) == multiset(b) && UniqueAttrs(a) && UniqueAttrs(b)
    ensures Sort(AttrLe, OwnAttrs(mode, a)) == Sort(AttrLe, OwnAttrs(mode, b))
    ensures AttrPrefixes(mode, a) == AttrPrefixes(mode, b)
  {
    SameMembers(a, b);
    var x, y := OwnAttrs(mode, a), OwnAttrs(mode, b);
    OwnDistinct(mode, a);
    OwnDistinct(mode, b);
    AttrLeTotal();
    SortStrict(AttrLe, x);
    SortStrict(AttrLe, y);
    SortMultiset(AttrLe, x);
    SortMultiset(AttrLe, y);
    SameMembers(Sort(AttrLe, x), x);
    SameMembers(Sort(AttrLe, y), y);
    forall z ensures z in Sort(AttrLe, x) <==> z in Sort(AttrLe, y) {
      OwnMember(mode, a, z);
      OwnMember(mode, b, z);
    }
    StrictUnique(AttrLe, Sort(AttrLe, x), Sort(AttrLe, y));
    PrefixMembers(mode, a, b);
    PrefixMembers(mode, b, a);
  }

  lemma PrefixMembers(mode: Mode, a: seq<Attribute>, b: seq<Attribute>)
    requires forall x :: x in a ==> x in b
    ensures AttrPrefixes(mode, a) <= AttrPrefixes(mode, b)
  {
    forall p | p in AttrPrefixes(mode, a) ensures p in AttrPrefixes(mode, b) {
      var i :| 0 <= i < |a| && AttrPrefix(mode, a[i]).Some? && AttrPrefix(mode, a[i]).value == p;
      assert a[i] in b;
      var j :| 0 <= j < |b| && b[j] == a[i];
    }
  }

  /** Some `xml:` attribute of the element has this local name and value. */
  predicate XmlValue(attrs: seq<Attribute>, local: string, value: string) {
    exists i :: 0 <= i < |attrs| && attrs[i].name.uri == Some(XML_NS) && attrs[i].name.local == local && attrs[i].value == value
  }

  lemma {:induction false} XmlAttrsEntry(attrs: seq<Attribute>, local: string, value: string)
    requires UniqueAttrs(attrs)
    ensures Get(XmlAttrs(attrs), local) == Some(value) <==> XmlValue(attrs, local, value)
  {
    if attrs != [] {
      var n := |attrs| - 1;
      var front, a := attrs[..n], attrs[n];
      XmlAttrsEntry(front, local, value);
      assert forall i :: 0 <= i < n ==> front[i] == attrs[i];
      if XmlValue(front, local, value) {
        var i :| 0 <= i < n && front[i].name.uri == Some(XML_NS) && front[i].name.local == local && front[i].value == value;
        assert attrs[i] == front[i];
      }
      if a.name.uri == Some(XML_NS) && a.name.local == local && local in XmlAttrs(front) {
        XmlAttrsEntry(front, local, XmlAttrs(front)[local]);
        assert false;
      }
    }
  }

  lemma {:induction false} BaseEntry(attrs: seq<Attribute>, value: string)
    requires UniqueAttrs(attrs)
    ensures BaseOf(attrs) == Some(value) <==> XmlValue(attrs, "base", value)
  {
    if attrs != [] {
      BaseEntry(attrs[1..], value);
      assert forall i :: 0 < i < |attrs| ==> attrs[i] == attrs[1..][i - 1];
      if XmlValue(attrs[1..], "base", value) {
        var i :| 0 <= i < |attrs[1..]| && attrs[1..][i].name.uri == Some(XML_NS)
                 && attrs[1..][i].name.local == "base" && attrs[1..][i].value == value;
        assert attrs[i + 1] == attrs[1..][i];
      }
    }
  }

  lemma SameXmlValue(a: seq<Attribute>, b: seq<Attribute>, local: string, value: string)
    requires forall x :: x in a <==> x in b
    ensures XmlValue(a, local, value) ==> XmlValue(b, local, value)
  {
    if XmlValue(a, local, value) {
      var i :| 0 <= i < |a| && a[i].name.uri == Some(XML_NS) && a[i].name.local == local && a[i].value == value;
      assert a[i] in b;
      var j :| 0 <= j < |b| && b[j] == a[i];
    }
  }

  lemma ShuffledXml(a: seq<Attribute>, b: seq<Attribute>)
    requires multiset(a) == multiset(b) && UniqueAttrs(a) && UniqueAttrs(b)
    ensures XmlAttrs(a) == XmlAttrs(b) && BaseOf(a) == BaseOf(b)
  {
    SameMembers(a, b);
    hide XmlAttrs, BaseOf, XmlValue, UniqueAttrs;
    forall k, v ensures Get(XmlAttrs(a), k) == Some(v) <==> Get(XmlAttrs(b), k) == Some(v) {
      XmlAttrsEntry(a, k, v);
      XmlAttrsEntry(b, k, v);
      SameXmlValue(a, b, k, v);
      SameXmlValue(b, a, k, v);
    }
    SameGets(XmlAttrs(a), XmlAttrs(b));
    forall v ensures BaseOf(a) == Some(v) <==> BaseOf(b) == Some(v) {
      BaseEntry(a, v);
      BaseEntry(b, v);
      SameXmlValue(a, b, "base", v);
      SameXmlValue(b, a, "base", v);
    }
    assert BaseOf(a).Some? ==> BaseOf(b) == Some(BaseOf(a).value);
    assert BaseOf(b).Some? ==> BaseOf(a) == Some(BaseOf(b).value);
  }

  lemma SameGets(a: NsMap, b: NsMap)
    requires forall k, v :: Get(a, k) == Some(v) <==> Get(b, k) == Some(v)
    ensures a == b
  {
    assert forall k :: k in a ==> Get(a, k) == Some(a[k]);
    assert forall k :: k in b ==> Get(b, k) == Some(b[k]);
  }

  // ---------------------------------------------------------------- ancestors

  lemma {:induction false} ShuffledInheritance(a: seq<Frame>, b: seq<Frame>)
    requires ShuffledChain(a, b)
    ensures forall keep :: Inscope(keep, a) == Inscope(keep, b)
    ensures InheritedXml(a) == InheritedXml(b)
    ensures forall resolve :: AbsoluteBase(resolve, a) == AbsoluteBase(resolve, b)
  {
    if a != [] {
      ShuffledInheritance(a[1..], b[1..]);
      ShuffledLevel(a[0].elem.decls, b[0].elem.decls);
      ShuffledXml(a[0].elem.attrs, b[0].elem.attrs);
      hide Level, XmlAttrs, BaseOf;
    }
  }

  lemma ShuffledShown(cfg: Config, a: seq<Frame>, b: seq<Frame>, ctx: NsMap)
    requires a != [] && ShuffledChain(a, b)
    ensures ShownNs(cfg, a) == ShownNs(cfg, b)
    ensures FloatingDecls(cfg, a, ctx) == FloatingDecls(cfg, b, ctx)
  {
    ShuffledInheritance(a, b);
    hide Inscope;
  }

  lemma ShuffledAttrs(cfg: Config, a: seq<Frame>, b: seq<Frame>)
    requires a != [] && ShuffledChain(a, b)
    ensures TagAttrs(cfg, a) == TagAttrs(cfg, b)
  {
    assert ShuffledChain(a[1..], b[1..]);
    ShuffledInheritance(a, b);
    ShuffledInheritance(a[1..], b[1..]);
    ShuffledOwn(cfg.mode, a[0].elem.attrs, b[0].elem.attrs);
    assert ParentHidden(cfg, a) == ParentHidden(cfg, b);
    hide Inscope, InheritedXml, AbsoluteBase, Sort, OwnAttrs, ExtraAttrs, SetBase, Visible, ParentHidden, SortedKeys, ShuffledChain;
  }

  lemma ShuffledTag(cfg: Config, a: seq<Frame>, b: seq<Frame>, ctx: NsMap)
    requires a != [] && ShuffledChain(a, b)
    ensures StartTag(cfg, a, ctx) == StartTag(cfg, b, ctx)
    ensures ChildCtx(cfg, a, ctx) == ChildCtx(cfg, b, ctx)
  {
    ShuffledShown(cfg, a, b, ctx);
    ShuffledAttrs(cfg, a, b);
    ShuffledOwn(cfg.mode, a[0].elem.attrs, b[0].elem.attrs);
    assert a[0].elem.name == b[0].elem.name;
    hide *;
    SameTag(cfg, a, cfg, b, ctx);
  }

  // ---------------------------------------------------------------- the walk

  lemma {:induction false} ShuffledWalk(cfg: Config, ns: seq<Node>, ms: seq<Node>, chain: seq<Frame>, chain2: seq<Frame>, ctx: NsMap)
    requires ShuffledForest(ns, ms) && ShuffledChain(chain, chain2)
    ensures Walk(cfg, ns, chain, ctx) == Walk(cfg, ms, chain2, ctx)
    decreases ns, 0
  {
    hide WalkNode, ShuffledNode;
    if ns != [] {
      ShuffledWalkNode(cfg, ns[0], ms[0], chain, chain2, ctx);
      ShuffledWalk(cfg, ns[1..], ms[1..], chain, chain2, ctx);
    }
  }

  lemma {:induction false} ShuffledWalkNode(cfg: Config, n: Node, m: Node, chain: seq<Frame>, chain2: seq<Frame>, ctx: NsMap)
    requires ShuffledNode(n, m) && ShuffledChain(chain, chain2)
    ensures WalkNode(cfg, n, chain, ctx) == WalkNode(cfg, m, chain2, ctx)
    decreases n, 1
  {
    hide Walk, StartTag, ChildCtx, FloatingDecls, Shuffled, ShuffledForest, DeclList;
    if n.Elem? {
      var here, here2 := [Frame(n.id, n.elem)] + chain, [Frame(m.id, m.elem)] + chain2;
      SameTagName(n.elem, m.elem);
      ShuffledTag(cfg, here, here2, ctx);
      ShuffledShown(cfg, here, here2, ctx);
      ShuffledWalk(cfg, n.children, m.children, here, here2, ChildCtx(cfg, here, ctx));
      ShuffledWalk(cfg, n.children, m.children, here, here2, ctx);
    }
  }

  lemma SameTagName(a: Element, b: Element)
    requires Shuffled(a, b)
    ensures TagName(a) == TagName(b)
  {
  }

  lemma {:induction false} ShuffledTop(cfg: Config, ns: seq<Node>, ms: seq<Node>, before: bool)
    requires ShuffledForest(ns, ms)
    ensures WalkTop(cfg, ns, before) == WalkTop(cfg, ms, before)
    ensures HasElement(ns) == HasElement(ms)
  {
    if ns != [] {
      var n, m := ns[0], ms[0];
      assert ns == [n] + ns[1..] && ms == [m] + ms[1..];
      ShuffledTop(cfg, ns[1..], ms[1..], before || n.Elem?);
      ShuffledWalkNode(cfg, n, m, [], [], map[]);
      assert n.Elem? == m.Elem? && n.Comment? == m.Comment? && n.PI? == m.PI?;
      WalkTopCons(cfg, n, ns[1..], before);
      WalkTopCons(cfg, m, ms[1..], before);
      HasElementCons(n, ns[1..]);
      HasElementCons(m, ms[1..]);
      hide WalkNode, WalkTop, HasElement, ShuffledNode;
    } else {
      assert ns == ms;
    }
  }

  /** Documents that differ only by the order of attributes and declarations within elements
      have the same canonical text, in every mode and for every node set. */
  lemma OrderIndependent(cfg: Config, a: Document, b: Document)
    requires ShuffledForest(a.children, b.children)
    ensures C14n(cfg, a) == C14n(cfg, b)
  {
    ShuffledTop(cfg, a.children, b.children, false);
  }
}
