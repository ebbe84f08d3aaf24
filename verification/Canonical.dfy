/**
 The canonical form of a document or of a node set: which tag is written for an element,
 and the walk over the tree.  Inclusive 1.0, inclusive 1.1 and exclusive canonicalization
 share the walk and differ in the tag.
 */
module Canonical {
  import opened Dom
  import opened Ordering
  import opened Escape
  import opened Render
  import opened Tokens
  import opened NodeSets
  import opened Namespaces

  /** Inclusive 1.1 resolves `xml:base` values against each other with `resolve`;
      exclusive mode carries the InclusiveNamespaces PrefixList. */
  datatype Mode =
    | Inclusive
    | Inclusive11(resolve: (string, string) -> string)
    | Exclusive(prefixList: set<string>)

  datatype Config = Config(mode: Mode, withComments: bool, nodeSet: Option<NodeSet>)

  predicate Visible(cfg: Config, id: nat) {
    cfg.nodeSet.Some? ==> cfg.nodeSet.value.Contains(id)
  }

  predicate NsFiltered(cfg: Config) {
    cfg.nodeSet.Some? && cfg.nodeSet.value.HasNsFilter()
  }

  /** The namespaces at the first frame of `chain` that the node set lets through. */
  function ShownNs(cfg: Config, chain: seq<Frame>): NsMap
    requires chain != []
  {
    var m := Inscope(!cfg.mode.Exclusive?, chain);
    if NsFiltered(cfg) then map p | p in m && cfg.nodeSet.value.NsVisible(chain[0].id, p) :: m[p]
    else m
  }

  // ---------------------------------------------------------------- names

  function Qualified(prefix: Option<string>, local: string): string {
    if prefix.Some? then prefix.value + ":" + local else local
  }

  function TagName(e: Element): string {
    Qualified(e.name.prefix, e.name.local)
  }

  /** The prefix an attribute is written with. */
  function AttrPrefix(mode: Mode, a: Attribute): Option<string> {
    if a.name.uri.None? then None
    else if a.name.uri.value == XML_NS then Some("xml")
    else if mode.Exclusive? && (a.name.prefix.None? || a.name.prefix.value == "") then None
    else a.name.prefix
  }

  function ToAttr(mode: Mode, a: Attribute): Attr {
    Attr(UriOf(a.name), a.name.local, Qualified(AttrPrefix(mode, a), a.name.local), a.value)
  }

  function OwnAttrs(mode: Mode, attrs: seq<Attribute>): seq<Attr> {
    seq(|attrs|, i requires 0 <= i < |attrs| => ToAttr(mode, attrs[i]))
  }

  function ToFields(attrs: seq<Attr>): seq<Field> {
    seq(|attrs|, i requires 0 <= i < |attrs| => Field(attrs[i].qname, attrs[i].value))
  }

  // ---------------------------------------------------------------- inclusive tags

  /** The bindings of `shown` that a tag must state below a tag in context `ctx`. */
  function Changed(shown: NsMap, ctx: NsMap): NsMap {
    map p | p in shown && p != "xml" && Get(ctx, p) != Some(shown[p]) && (shown[p] != "" || p in ctx)
      :: shown[p]
  }

  function InclusiveDecls(filtered: bool, shown: NsMap, ctx: NsMap): NsMap {
    if filtered && "" in ctx && ctx[""] != "" && "" !in shown then Changed(shown, ctx)["" := ""]
    else Changed(shown, ctx)
  }

  function WithoutXml(m: NsMap): NsMap {
    map p | p in m && p != "xml" :: m[p]
  }

  /** The `xml:` attributes of one element by local name; the first one counts. */
  function XmlAttrs(attrs: seq<Attribute>): NsMap {
    if attrs == [] then map[]
    else
      var m := XmlAttrs(attrs[..|attrs| - 1]);
      var a := attrs[|attrs| - 1];
      if a.name.uri == Some(XML_NS) && a.name.local !in m then m[a.name.local := a.value] else m
  }

  /** The `xml:` attributes inherited from `ancestors`; the nearest one counts. */
  function InheritedXml(ancestors: seq<Frame>): NsMap {
    if ancestors == [] then map[]
    else InheritedXml(ancestors[1..]) + XmlAttrs(ancestors[0].elem.attrs)
  }

  predicate HasXmlAttr(attrs: seq<Attr>, local: string) {
    exists i :: 0 <= i < |attrs| && attrs[i].uri == XML_NS && attrs[i].local == local
  }

  /** The inherited attributes, by name, that are not already `present`. */
  function ExtraAttrs(names: seq<string>, inherited: NsMap, present: seq<Attr>): seq<Attr>
    requires forall k :: k in names ==> k in inherited
  {
    if names == [] then []
    else
      (if HasXmlAttr(present, names[0]) then []
       else [Attr(XML_NS, names[0], "xml:" + names[0], inherited[names[0]])])
      + ExtraAttrs(names[1..], inherited, present)
  }

  function BaseOf(attrs: seq<Attribute>): Option<string> {
    if attrs == [] then None
    else if attrs[0].name.uri == Some(XML_NS) && attrs[0].name.local == "base" then Some(attrs[0].value)
    else BaseOf(attrs[1..])
  }

  /** The `xml:base` values from the root down, resolved one against the other. */
  function AbsoluteBase(resolve: (string, string) -> string, chain: seq<Frame>): string {
    if chain == [] then ""
    else
      var above := AbsoluteBase(resolve, chain[1..]);
      match BaseOf(chain[0].elem.attrs)
      case None => above
      case Some(b) => if above == "" then b else resolve(above, b)
  }

  /** Replaces the first `xml:base`, or adds one, unless there is no base at all. */
  function SetBase(attrs: seq<Attr>, base: string): seq<Attr> {
    if base == "" then attrs
    else if attrs == [] then [Attr(XML_NS, "base", "xml:base", base)]
    else if attrs[0].uri == XML_NS && attrs[0].local == "base" then [attrs[0].(value := base)] + attrs[1..]
    else [attrs[0]] + SetBase(attrs[1..], base)
  }

  predicate ParentHidden(cfg: Config, chain: seq<Frame>)
    requires chain != []
  {
    |chain| == 1 || !Visible(cfg, chain[1].id)
  }

  function InclusiveAttrs(cfg: Config, chain: seq<Frame>): seq<Attr>
    requires chain != [] && !cfg.mode.Exclusive?
  {
    var excluded := cfg.nodeSet.Some? && cfg.nodeSet.value.excludeAttrs;
    var own := if excluded then [] else Sort(AttrLe, OwnAttrs(cfg.mode, chain[0].elem.attrs));
    if cfg.nodeSet.Some? && !excluded && ParentHidden(cfg, chain) then
      var inherited := InheritedXml(chain[1..]);
      var all := own + ExtraAttrs(SortedKeys(inherited.Keys), inherited, own);
      Sort(AttrLe, if cfg.mode.Inclusive11? then SetBase(all, AbsoluteBase(cfg.mode.resolve, chain)) else all)
    else Sort(AttrLe, own)
  }

  // ---------------------------------------------------------------- exclusive tags

  function ElementPrefix(e: Element): string {
    if e.name.prefix.Some? then e.name.prefix.value else ""
  }

  function AttrPrefixes(mode: Mode, attrs: seq<Attribute>): set<string> {
    set i | 0 <= i < |attrs| && AttrPrefix(mode, attrs[i]).Some? :: AttrPrefix(mode, attrs[i]).value
  }

  function ListedPrefixes(prefixList: set<string>): set<string> {
    set p | p in prefixList :: if p == "#default" then "" else p
  }

  /** The prefixes whose bindings exclusive canonicalization states at `e`. */
  function Utilized(mode: Mode, e: Element): set<string>
    requires mode.Exclusive?
  {
    {ElementPrefix(e)} + AttrPrefixes(mode, e.attrs) + ListedPrefixes(mode.prefixList)
  }

  function ExclusiveDecls(used: set<string>, shown: NsMap, ctx: NsMap): NsMap {
    map p | p in used && p != "xml" &&
            (if p in shown then Get(ctx, p) != Some(shown[p])
             else p == "" && "" in ctx && ctx[""] != "")
      :: if p in shown then shown[p] else ""
  }

  // ---------------------------------------------------------------- any tag

  function TagDecls(cfg: Config, chain: seq<Frame>, ctx: NsMap): NsMap
    requires chain != []
  {
    var shown := ShownNs(cfg, chain);
    if cfg.mode.Exclusive? then ExclusiveDecls(Utilized(cfg.mode, chain[0].elem), shown, ctx)
    else InclusiveDecls(NsFiltered(cfg), shown, ctx)
  }

  function TagAttrs(cfg: Config, chain: seq<Frame>): seq<Attr>
    requires chain != []
  {
    if cfg.mode.Exclusive? then Sort(AttrLe, OwnAttrs(cfg.mode, chain[0].elem.attrs))
    else InclusiveAttrs(cfg, chain)
  }

  /** The context the children of a written tag are compared with. */
  function ChildCtx(cfg: Config, chain: seq<Frame>, ctx: NsMap): NsMap
    requires chain != []
  {
    var shown := ShownNs(cfg, chain);
    if cfg.mode.Exclusive? then
      var used := Utilized(cfg.mode, chain[0].elem);
      var below := ctx + ExclusiveDecls(used, shown, ctx);
      if NsFiltered(cfg) then map p | p in below && !(p in used && p != "xml" && p !in shown) :: below[p]
      else below
    else if NsFiltered(cfg) then WithoutXml(shown)
    else ctx + WithoutXml(shown)
  }

  /** Namespace nodes of an element that is itself not in the node set. */
  function FloatingDecls(cfg: Config, chain: seq<Frame>, ctx: NsMap): NsMap
    requires chain != []
  {
    var shown := ShownNs(cfg, chain);
    if cfg.mode.Exclusive? then
      map p | p in shown && p != "xml" && Get(ctx, p) != Some(shown[p]) &&
              (if p == "" then "#default" else p) in cfg.mode.prefixList
        :: shown[p]
    else Changed(shown, ctx)
  }

  predicate Floats(cfg: Config) {
    NsFiltered(cfg) && (cfg.mode.Exclusive? ==> cfg.mode.prefixList != {})
  }

  function StartTag(cfg: Config, chain: seq<Frame>, ctx: NsMap): Token
    requires chain != []
  {
    Start(TagName(chain[0].elem), DeclList(TagDecls(cfg, chain, ctx)), ToFields(TagAttrs(cfg, chain)))
  }

  // ---------------------------------------------------------------- the walk

  function InstructionToken(target: string, data: Option<string>): Token {
    Instruction(target, if data.Some? && data.value != "" then EscPi(data.value) else "")
  }

  function Walk(cfg: Config, ns: seq<Node>, chain: seq<Frame>, ctx: NsMap): seq<Token>
    decreases ns, 0
  {
    if ns == [] then []
    else WalkNode(cfg, ns[0], chain, ctx) + Walk(cfg, ns[1..], chain, ctx)
  }

  function WalkNode(cfg: Config, n: Node, chain: seq<Frame>, ctx: NsMap): seq<Token>
    decreases n, 1
  {
    match n
    case Elem(id, e, kids) =>
      var here := [Frame(id, e)] + chain;
      if Visible(cfg, id) then
        [StartTag(cfg, here, ctx)] + Walk(cfg, kids, here, ChildCtx(cfg, here, ctx)) + [End(TagName(e))]
      else
        (if Floats(cfg) then [Floating(DeclList(FloatingDecls(cfg, here, ctx)))] else [])
        + Walk(cfg, kids, here, ctx)
    case Text(id, text) => if Visible(cfg, id) then [Chars(text)] else []
    case CData(id, text) => if Visible(cfg, id) then [Chars(text)] else []
    case Comment(id, text) => if cfg.withComments && Visible(cfg, id) then [Remark(text)] else []
    case PI(id, target, data) => if Visible(cfg, id) then [InstructionToken(target, data)] else []
  }

  /** A child of the document node: comments and instructions there get a line of their
      own, on the side of the document element. */
  function TopNode(cfg: Config, n: Node, before: bool, after: bool): seq<Token> {
    var ts := WalkNode(cfg, n, [], map[]);
    if (n.Comment? || n.PI?) && ts != [] then
      (if before then [Break] else []) + ts + (if after then [Break] else [])
    else ts
  }

  function WalkTop(cfg: Config, ns: seq<Node>, before: bool): seq<Token> {
    if ns == [] then []
    else TopNode(cfg, ns[0], before, HasElement(ns[1..])) + WalkTop(cfg, ns[1..], before || ns[0].Elem?)
  }

  /** The canonical form as tokens and as text. */
  function Canon(cfg: Config, doc: Document): seq<Token> {
    WalkTop(cfg, doc.children, false)
  }

  function C14n(cfg: Config, doc: Document): string {
    RenderAll(Canon(cfg, doc))
  }

  lemma WalkCons(cfg: Config, n: Node, ns: seq<Node>, chain: seq<Frame>, ctx: NsMap)
    ensures Walk(cfg, [n] + ns, chain, ctx) == WalkNode(cfg, n, chain, ctx) + Walk(cfg, ns, chain, ctx)
  {
    hide WalkNode;
    assert ([n] + ns)[1..] == ns;
  }

  lemma WalkTopCons(cfg: Config, n: Node, ns: seq<Node>, before: bool)
    ensures WalkTop(cfg, [n] + ns, before) == TopNode(cfg, n, before, HasElement(ns)) + WalkTop(cfg, ns, before || n.Elem?)
  {
    assert ([n] + ns)[1..] == ns;
  }

  lemma {:induction false} WalkConcat(cfg: Config, a: seq<Node>, b: seq<Node>, chain: seq<Frame>, ctx: NsMap)
    ensures Walk(cfg, a + b, chain, ctx) == Walk(cfg, a, chain, ctx) + Walk(cfg, b, chain, ctx)
  {
    if a == [] {
      assert a + b == b;
    } else {
      assert (a + b)[1..] == a[1..] + b;
      WalkConcat(cfg, a[1..], b, chain, ctx);
    }
  }

  /** What a tag and the context inside it depend on. */
  lemma SameTag(c1: Config, a: seq<Frame>, c2: Config, b: seq<Frame>, ctx: NsMap)
    requires a != [] && b != [] && c1.mode == c2.mode && NsFiltered(c1) == NsFiltered(c2)
    requires a[0].elem.name == b[0].elem.name && ShownNs(c1, a) == ShownNs(c2, b) && TagAttrs(c1, a) == TagAttrs(c2, b)
    requires AttrPrefixes(c1.mode, a[0].elem.attrs) == AttrPrefixes(c2.mode, b[0].elem.attrs)
    ensures StartTag(c1, a, ctx) == StartTag(c2, b, ctx)
    ensures ChildCtx(c1, a, ctx) == ChildCtx(c2, b, ctx)
  {
    hide ShownNs, NsFiltered, TagAttrs, AttrPrefixes, ListedPrefixes, ExclusiveDecls, InclusiveDecls, WithoutXml, DeclList, ToFields;
    SameContext(c1, a, c2, b, ctx);
    hide ChildCtx;
    assert TagDecls(c1, a, ctx) == TagDecls(c2, b, ctx);
  }

  lemma SameContext(c1: Config, a: seq<Frame>, c2: Config, b: seq<Frame>, ctx: NsMap)
    requires a != [] && b != [] && c1.mode == c2.mode && NsFiltered(c1) == NsFiltered(c2)
    requires a[0].elem.name == b[0].elem.name && ShownNs(c1, a) == ShownNs(c2, b)
    requires AttrPrefixes(c1.mode, a[0].elem.attrs) == AttrPrefixes(c2.mode, b[0].elem.attrs)
    ensures ChildCtx(c1, a, ctx) == ChildCtx(c2, b, ctx)
  {
    hide ShownNs, NsFiltered, AttrPrefixes, ListedPrefixes, ExclusiveDecls, WithoutXml;
    assert c1.mode.Exclusive? ==> Utilized(c1.mode, a[0].elem) == Utilized(c2.mode, b[0].elem);
    hide Utilized;
  }
}
