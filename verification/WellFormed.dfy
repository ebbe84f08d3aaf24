/**
 What an XML parser guarantees of the documents it returns, and why their canonical form
 can be read back.
 */
module WellFormed {
  import opened Dom
  import opened Ordering
  import opened Escape
  import opened Render
  import opened Tokens
  import opened Namespaces
  import opened Canonical
  import opened Lexer
  import opened NsPreservation

  predicate NcName(s: string) {
    NameText(s) && ':' !in s
  }

  /** The name is resolved against `scope`; attributes do not take the default namespace. */
  predicate WellNamed(n: Name, scope: NsMap, isAttr: bool) {
    && NcName(n.local)
    && match n.prefix
       case None => n.uri == if isAttr then None else Get(scope, "")
       case Some(p) =>
         && NcName(p) && p != "xmlns"
         && (if p == "xml" then n.uri == Some(XML_NS)
             else p in scope && n.uri == Some(scope[p]) && scope[p] != XML_NS)
  }

  predicate WellDeclared(decls: seq<Binding>) {
    && UniquePrefixes(decls)
    && forall i :: 0 <= i < |decls| ==>
         (decls[i].prefix == "" || (NcName(decls[i].prefix) && decls[i].uri != ""))
  }

  predicate WellAttributed(attrs: seq<Attribute>, scope: NsMap) {
    && (forall i :: 0 <= i < |attrs| ==>
          WellNamed(attrs[i].name, scope, true) && (attrs[i].name.prefix.None? ==> attrs[i].name.local != "xmlns"))
    && UniqueAttrs(attrs)
  }

  predicate UniqueAttrs(attrs: seq<Attribute>) {
    forall i, j :: 0 <= i < j < |attrs| ==>
      UriOf(attrs[i].name) != UriOf(attrs[j].name) || attrs[i].name.local != attrs[j].name.local
  }

  predicate WellFormedElement(e: Element, here: seq<Frame>)
    requires here != [] && here[0].elem == e
  {
    && WellDeclared(e.decls)
    && WellNamed(e.name, Scope(here), false)
    && WellAttributed(e.attrs, Scope(here))
  }

  predicate WellFormedForest(ns: seq<Node>, chain: seq<Frame>)
    decreases ns, 0
  {
    ns == [] || (WellFormedNode(ns[0], chain) && WellFormedForest(ns[1..], chain))
  }

  predicate WellFormedNode(n: Node, chain: seq<Frame>)
    decreases n, 1
  {
    match n
    case Elem(id, e, kids) =>
      var here := [Frame(id, e)] + chain;
      WellFormedElement(e, here) && WellFormedForest(kids, here)
    case Comment(_, text) => !Contains(text, "-->")
    case PI(_, target, data) =>
      NameText(target) && (data.Some? && data.value != "" ==> !Contains(data.value, "?>") && !IsSpace(data.value[0]))
    case _ => true
  }

  /** A document: no character data beside the document element. */
  predicate WellFormedDoc(doc: Document) {
    && WellFormedForest(doc.children, [])
    && forall i :: 0 <= i < |doc.children| ==> !doc.children[i].Text? && !doc.children[i].CData?
  }

  // ---------------------------------------------------------------- well-formed tokens

  predicate SafeKeys(m: NsMap) {
    forall p :: p in m ==> p == "" || NameText(p)
  }

  /** What a tag below `chain` takes from its ancestors: prefixes and the names of `xml:`
      attributes. */
  predicate SafeAbove(mode: Mode, chain: seq<Frame>) {
    SafeKeys(Inscope(!mode.Exclusive?, chain)) && forall k :: k in InheritedXml(chain) ==> NcName(k)
  }

  lemma {:induction false} XmlAttrsNamed(attrs: seq<Attribute>)
    requires forall i :: 0 <= i < |attrs| ==> NcName(attrs[i].name.local)
    ensures forall k :: k in XmlAttrs(attrs) ==> NcName(k)
  {
    if attrs != [] {
      XmlAttrsNamed(attrs[..|attrs| - 1]);
    }
  }

  lemma AboveHere(mode: Mode, here: seq<Frame>)
    requires here != [] && SafeAbove(mode, here[1..]) && WellFormedElement(here[0].elem, here)
    ensures SafeAbove(mode, here)
  {
    InscopeSafe(!mode.Exclusive?, here);
    hide Inscope, SafeKeys, WellDeclared;
    XmlAttrsNamed(here[0].elem.attrs);
  }

  lemma InscopeSafe(keep: bool, here: seq<Frame>)
    requires here != [] && SafeKeys(Inscope(keep, here[1..])) && WellDeclared(here[0].elem.decls)
    ensures SafeKeys(Inscope(keep, here))
  {
    LevelKeys(here[0].elem.decls);
  }

  lemma QualifiedSafe(prefix: Option<string>, local: string)
    requires NcName(local) && (prefix.Some? ==> NcName(prefix.value))
    ensures NameText(Qualified(prefix, local))
  {
    if prefix.Some? {
      var q := prefix.value + ":" + local;
      var n := |prefix.value|;
      forall i | 0 <= i < |q| ensures q[i] !in DELIMITERS {
        if i < n {
          assert q[i] == prefix.value[i];
        } else if i > n {
          assert q[i] == local[i - n - 1];
        }
      }
    }
  }

  lemma QualifiedNotXmlns(prefix: Option<string>, local: string)
    requires NcName(local) && (prefix.Some? ==> NcName(prefix.value) && prefix.value != "xmlns")
    requires prefix.None? ==> local != "xmlns"
    ensures !IsXmlns(Qualified(prefix, local))
  {
    var q := Qualified(prefix, local);
    XmlnsColon(q);
    if prefix.Some? {
      FindBetween(prefix.value, ':', local);
      assert q == prefix.value + ([':'] + local);
      assert q[..|prefix.value|] == prefix.value;
    } else {
      FindNowhere(q, ':');
    }
  }

  lemma XmlnsColon(q: string)
    ensures "xmlns:" <= q ==> |q| > 5 && Find(q, ':') == 5 && q[..5] == "xmlns"
    ensures q == "xmlns" ==> Find(q, ':') == |q|
  {
    if "xmlns:" <= q {
      var x := "xmlns:";
      assert forall i :: 0 <= i < 6 ==> q[i] == x[i];
      FindAt(q, ':', 5);
      assert q[..5] == x[..5];
    } else if q == "xmlns" {
      FindNowhere(q, ':');
    }
  }

  /** An attribute is written with the prefix it was parsed with. */
  lemma AttrPrefixIsOwn(mode: Mode, a: Attribute, scope: NsMap)
    requires WellNamed(a.name, scope, true)
    ensures AttrPrefix(mode, a) == a.name.prefix
  {
  }

  lemma OwnSafe(mode: Mode, attrs: seq<Attribute>, scope: NsMap)
    requires WellAttributed(attrs, scope)
    ensures SafeAttrs(OwnAttrs(mode, attrs))
  {
    var own := OwnAttrs(mode, attrs);
    forall x | x in own ensures SafeField(Field(x.qname, x.value)) {
      var i :| 0 <= i < |own| && own[i] == x;
      AttrPrefixIsOwn(mode, attrs[i], scope);
      QualifiedSafe(attrs[i].name.prefix, attrs[i].name.local);
      QualifiedNotXmlns(attrs[i].name.prefix, attrs[i].name.local);
    }
  }

  lemma OwnDistinct(mode: Mode, attrs: seq<Attribute>)
    requires UniqueAttrs(attrs)
    ensures Distinct(AttrLe, OwnAttrs(mode, attrs))
  {
    var own := OwnAttrs(mode, attrs);
    forall i, j | 0 <= i < j < |own| ensures !(AttrLe(own[i], own[j]) && AttrLe(own[j], own[i])) {
      AttrTies(own[i], own[j]);
    }
  }

  /** Without a node set a tag carries the element's own attributes, sorted. */
  lemma WholeAttrs(cfg: Config, here: seq<Frame>)
    requires here != [] && cfg.nodeSet.None? && UniqueAttrs(here[0].elem.attrs)
    ensures TagAttrs(cfg, here) == Sort(AttrLe, OwnAttrs(cfg.mode, here[0].elem.attrs))
    ensures Strict(AttrLe, TagAttrs(cfg, here))
    ensures forall x :: x in TagAttrs(cfg, here) <==> x in OwnAttrs(cfg.mode, here[0].elem.attrs)
  {
    var own := OwnAttrs(cfg.mode, here[0].elem.attrs);
    OwnDistinct(cfg.mode, here[0].elem.attrs);
    AttrLeTotal();
    SortStrict(AttrLe, own);
    SortMultiset(AttrLe, own);
    var s := Sort(AttrLe, own);
    SortOfStrict(AttrLe, s);
    forall x ensures x in s <==> x in own {
      assert x in s <==> x in multiset(s);
      assert x in own <==> x in multiset(own);
    }
  }

  predicate SafeAttrs(attrs: seq<Attr>) {
    forall x :: x in attrs ==> SafeField(Field(x.qname, x.value))
  }

  lemma SortSafe(attrs: seq<Attr>)
    requires SafeAttrs(attrs)
    ensures SafeAttrs(Sort(AttrLe, attrs))
  {
    var s := Sort(AttrLe, attrs);
    SortMultiset(AttrLe, attrs);
    forall x | x in s ensures x in attrs {
      assert x in multiset(s);
    }
  }

  lemma XmlSafe(local: string)
    requires NcName(local)
    ensures NameText("xml:" + local) && !IsXmlns("xml:" + local)
  {
    var xml := "xml";
    assert "xml:" + local == Qualified(Some(xml), local);
    QualifiedSafe(Some(xml), local);
    QualifiedNotXmlns(Some(xml), local);
  }

  lemma {:induction false} ExtraSafe(names: seq<string>, inherited: NsMap, present: seq<Attr>)
    requires forall k :: k in names ==> k in inherited && NcName(k)
    ensures SafeAttrs(ExtraAttrs(names, inherited, present))
  {
    if names != [] {
      XmlSafe(names[0]);
      ExtraSafe(names[1..], inherited, present);
    }
  }

  lemma {:induction false} SetBaseSafe(attrs: seq<Attr>, base: string)
    requires SafeAttrs(attrs)
    ensures SafeAttrs(SetBase(attrs, base))
  {
    hide NameText, IsXmlns;
    if attrs == [] {
      BaseName();
    } else {
      SetBaseSafe(attrs[1..], base);
      assert attrs[0] in attrs;
    }
  }

  lemma BaseName()
    ensures NameText("xml:base") && !IsXmlns("xml:base")
  {
    XmlSafe("base");
    assert "xml:" + "base" == "xml:base";
  }

  /** Every attribute written, own, inherited or computed, has a name that can be read back. */
  lemma TagAttrsSafe(cfg: Config, here: seq<Frame>)
    requires here != [] && SafeAbove(cfg.mode, here[1..]) && WellFormedElement(here[0].elem, here)
    ensures SafeAttrs(TagAttrs(cfg, here))
  {
    var raw := OwnAttrs(cfg.mode, here[0].elem.attrs);
    OwnSafe(cfg.mode, here[0].elem.attrs, Scope(here));
    var inherited := InheritedXml(here[1..]);
    var names := SortedKeys(inherited.Keys);
    assert forall k :: k in names ==> k in inherited && NcName(k);
    hide NcName, OwnAttrs, WellFormedElement, SafeField, SafeKeys, SortedKeys, InheritedXml, Sort, ExtraAttrs, SetBase;
    SortSafe(raw);
    var own := Sort(AttrLe, raw);
    SortSafe(own);
    if !cfg.mode.Exclusive? {
      var present := if cfg.nodeSet.Some? && cfg.nodeSet.value.excludeAttrs then [] else own;
      SortSafe(present);
      ExtraSafe(names, inherited, present);
      var all := present + ExtraAttrs(names, inherited, present);
      SortSafe(all);
      if cfg.mode.Inclusive11? {
        var based := SetBase(all, AbsoluteBase(cfg.mode.resolve, here));
        SetBaseSafe(all, AbsoluteBase(cfg.mode.resolve, here));
        SortSafe(based);
      }
    }
  }

  lemma TagDeclKeys(cfg: Config, here: seq<Frame>, ctx: NsMap)
    requires here != []
    ensures forall p :: p in TagDecls(cfg, here, ctx) ==> p == "" || p in Inscope(!cfg.mode.Exclusive?, here)
  {
  }

  lemma StartTagSafe(cfg: Config, here: seq<Frame>, ctx: NsMap)
    requires here != [] && WellFormedElement(here[0].elem, here)
    requires SafeAbove(cfg.mode, here[1..]) && SafeAbove(cfg.mode, here)
    ensures Safe(StartTag(cfg, here, ctx)) && Safe(End(TagName(here[0].elem)))
  {
    var e := here[0].elem;
    QualifiedSafe(e.name.prefix, e.name.local);
    TagDeclKeys(cfg, here, ctx);
    TagAttrsSafe(cfg, here);
    hide InheritedXml, TagAttrs, Inscope, TagDecls, Scope, WellFormedElement, Qualified, NameText, SafeField;
    DeclsSafe(TagDecls(cfg, here, ctx));
    FieldsSafe(TagAttrs(cfg, here));
  }

  lemma DeclsSafe(m: NsMap)
    requires SafeKeys(m)
    ensures forall i :: 0 <= i < |DeclList(m)| ==> SafeDecl(DeclList(m)[i])
  {
    forall i | 0 <= i < |DeclList(m)| ensures SafeDecl(DeclList(m)[i]) {
      assert DeclList(m)[i] in DeclList(m);
    }
  }

  lemma FieldsSafe(attrs: seq<Attr>)
    requires SafeAttrs(attrs)
    ensures forall i :: 0 <= i < |ToFields(attrs)| ==> SafeField(ToFields(attrs)[i])
  {
    forall i | 0 <= i < |attrs| ensures SafeField(ToFields(attrs)[i]) {
      assert attrs[i] in attrs;
    }
  }

  lemma EscPiHead(d: string)
    ensures d == "" ==> EscPi(d) == ""
    ensures d != "" && d[0] != '\r' ==> EscPi(d) != "" && EscPi(d)[0] == d[0]
    ensures d != "" && d[0] == '\r' ==> EscPi(d) != "" && EscPi(d)[0] == '&'
  {
    if d != "" {
      assert EscPi(d) == PiChar(d[0]) + EscPi(d[1..]);
    }
  }

  lemma {:induction false} EscPiNoMark(d: string)
    requires !Contains(d, "?>")
    ensures !Contains(EscPi(d), "?>")
  {
    if d != "" {
      var rest := d[1..];
      forall i | 0 <= i <= |rest| ensures !("?>" <= rest[i..]) {
        assert rest[i..] == d[i + 1..];
      }
      EscPiNoMark(rest);
      EscPiHead(rest);
      var e, r := PiChar(d[0]), EscPi(rest);
      assert EscPi(d) == e + r;
      assert !("?>" <= d[0..]) && d[0..] == d;
      hide Each;
      forall i | 0 <= i <= |e + r| ensures !("?>" <= (e + r)[i..]) {
        if i >= |e| {
          assert (e + r)[i..] == r[i - |e|..];
        } else if d[0] == '\r' {
          assert (e + r)[i..][0] == "&#xD;"[i];
        } else if d[0] == '?' && r != "" {
          assert (e + r)[i..][1] == r[0];
        }
      }
    }
  }

  /** Every token of a well-formed forest, or of a node set in it, can be read back. */
  lemma {:induction false} WalkSafe(cfg: Config, ns: seq<Node>, chain: seq<Frame>, ctx: NsMap)
    requires !Floats(cfg) && WellFormedForest(ns, chain) && SafeAbove(cfg.mode, chain)
    ensures forall t :: t in Walk(cfg, ns, chain, ctx) ==> Safe(t)
    decreases ns, 0
  {
    hide WalkNode, WellFormedNode, Safe, SafeAbove;
    if ns != [] {
      WalkNodeSafe(cfg, ns[0], chain, ctx);
      WalkSafe(cfg, ns[1..], chain, ctx);
    }
  }

  lemma {:induction false} WalkNodeSafe(cfg: Config, n: Node, chain: seq<Frame>, ctx: NsMap)
    requires !Floats(cfg) && WellFormedNode(n, chain) && SafeAbove(cfg.mode, chain)
    ensures forall t :: t in WalkNode(cfg, n, chain, ctx) ==> Safe(t)
    decreases n, 1
  {
    hide Contains, NameText, Walk, StartTag, ChildCtx, SafeAbove, WellFormedElement, TagName, EscPi;
    match n {
      case Elem(id, e, kids) =>
        hide Safe;
        var here := [Frame(id, e)] + chain;
        assert here[1..] == chain;
        AboveHere(cfg.mode, here);
        StartTagSafe(cfg, here, ctx);
        WalkSafe(cfg, kids, here, if Visible(cfg, id) then ChildCtx(cfg, here, ctx) else ctx);
      case PI(_, target, data) =>
        NoMarkInNothing();
        if data.Some? && data.value != "" {
          EscPiNoMark(data.value);
          EscPiHead(data.value);
        }
      case _ =>
    }
  }

  lemma WellDeclaredHere(e: Element, here: seq<Frame>)
    requires here != [] && here[0].elem == e && WellFormedElement(e, here)
    ensures WellDeclared(e.decls)
  {
  }

  lemma NoMarkInNothing()
    ensures !Contains("", "?>")
  {
  }

  /** Every token of the canonical form can be read back. */
  lemma {:induction false} TopSafe(cfg: Config, ns: seq<Node>, before: bool)
    requires !Floats(cfg) && WellFormedForest(ns, [])
    ensures forall t :: t in WalkTop(cfg, ns, before) ==> Safe(t)
  {
    hide WalkNode, WellFormedNode, NameText, Contains, SafeAbove, Floats;
    if ns != [] {
      NothingAbove(cfg.mode);
      WalkNodeSafe(cfg, ns[0], [], map[]);
      TopSafe(cfg, ns[1..], before || ns[0].Elem?);
    }
  }

  lemma NothingAbove(mode: Mode)
    ensures SafeAbove(mode, [])
  {
  }

  /** Canonical text of a document or a node set, cut by the reader, is the canonical tokens,
      unless namespace nodes of elements that are left out can be written. */
  lemma CanonIsReadable(cfg: Config, doc: Document)
    requires !Floats(cfg) && WellFormedForest(doc.children, [])
    ensures Lex(C14n(cfg, doc)) == Some(Coalesce(Canon(cfg, doc)))
  {
    hide Lex, Coalesce, RenderAll, WalkTop, Safe, WellFormedForest;
    TopSafe(cfg, doc.children, false);
    var ts := Canon(cfg, doc);
    forall i | 0 <= i < |ts| ensures Safe(ts[i]) {
      assert ts[i] in ts;
    }
    LexAll(ts);
  }
}
