/**
 The canonicalizer as it runs: it recurses over the tree, collects the declarations and
 attributes of each tag in vectors and maps, and appends to one output buffer.
 */
module Canonicalizer {
  import opened Dom
  import opened Ordering
  import opened Escape
  import opened Render
  import opened Tokens
  import opened Namespaces
  import opened Canonical

  method HasPrecedingElement(siblings: seq<Node>, i: nat) returns (found: bool)
    requires i <= |siblings|
    ensures found == HasElement(siblings[..i])
  {
    var k := i;
    while k > 0
      invariant 0 <= k <= i
      invariant forall j :: k <= j < i ==> !siblings[j].Elem?
    {
      k := k - 1;
      if siblings[k].Elem? {
        assert siblings[..i][k].Elem?;
        return true;
      }
    }
    return false;
  }

  method HasFollowingElement(siblings: seq<Node>, i: nat) returns (found: bool)
    requires i < |siblings|
    ensures found == HasElement(siblings[i + 1..])
  {
    for k := i + 1 to |siblings|
      invariant forall j :: i < j < k ==> !siblings[j].Elem?
    {
      if siblings[k].Elem? {
        assert siblings[i + 1..][k - i - 1].Elem?;
        return true;
      }
    }
    return false;
  }

  /** Applies the namespace-node filter of the node set, if it has one. */
  method CollectShown(cfg: Config, chain: seq<Frame>) returns (shown: NsMap)
    requires chain != []
    ensures shown == ShownNs(cfg, chain)
  {
    shown := CollectInscope(!cfg.mode.Exclusive?, chain);
    if NsFiltered(cfg) {
      var all := shown;
      shown := map p | p in all && cfg.nodeSet.value.NsVisible(chain[0].id, p) :: all[p];
    }
  }

  /** The entries of `m` whose prefix is not still to be visited. */
  ghost function Visited(m: NsMap, keys: set<string>): NsMap {
    map p | p in m && p !in keys :: m[p]
  }

  lemma VisitOne(m: NsMap, keys: set<string>, p: string)
    requires p !in keys
    ensures p !in Visited(m, keys + {p})
    ensures Visited(m, keys) == if p in m then Visited(m, keys + {p})[p := m[p]] else Visited(m, keys + {p})
  {
  }

  lemma VisitedAll(m: NsMap)
    ensures Visited(m, {}) == m
  {
  }

  lemma ListsNothing(m: NsMap)
    requires m == map[]
    ensures Lists([], m)
  {
  }

  /** Lists the bindings of `shown` that differ from the context. */
  method CollectChanged(shown: NsMap, ctx: NsMap) returns (decls: seq<NsDecl>)
    ensures Lists(decls, Changed(shown, ctx))
  {
    hide Lists;
    decls := [];
    var keys := shown.Keys;
    ListsNothing(Visited(Changed(shown, ctx), keys));
    while keys != {}
      invariant keys <= shown.Keys
      invariant Lists(decls, Visited(Changed(shown, ctx), keys))
    {
      var p :| p in keys;
      ghost var before := Visited(Changed(shown, ctx), keys);
      assert keys == (keys - {p}) + {p};
      keys := keys - {p};
      VisitOne(Changed(shown, ctx), keys, p);
      if p == "xml" {
        continue;
      }
      var inherited := Get(ctx, p);
      if inherited != Some(shown[p]) {
        if shown[p] == "" && inherited.None? {
          continue;
        }
        decls := Listed(decls, p, shown[p], before);
      }
    }
    VisitedAll(Changed(shown, ctx));
  }

  /** Pushes one more declaration. */
  method Listed(decls: seq<NsDecl>, prefix: string, uri: string, ghost m: NsMap) returns (r: seq<NsDecl>)
    requires Lists(decls, m) && prefix !in m
    ensures r == decls + [NsDecl(prefix, uri)]
    ensures Lists(r, m[prefix := uri])
  {
    r := decls + [NsDecl(prefix, uri)];
    forall i | 0 <= i < |decls| ensures decls[i].prefix != prefix {
      assert decls[i] in decls;
    }
    forall d ensures d in r <==> d in decls || d == NsDecl(prefix, uri) {
    }
  }

  /** Visits the utilized prefixes in whatever order the hash set yields them. */
  method CollectExclusive(used: set<string>, shown: NsMap, ctx: NsMap) returns (decls: seq<NsDecl>)
    ensures Lists(decls, ExclusiveDecls(used, shown, ctx))
  {
    hide Lists;
    decls := [];
    ghost var all := ExclusiveDecls(used, shown, ctx);
    var keys := used;
    ListsNothing(Visited(all, keys));
    while keys != {}
      invariant keys <= used
      invariant Lists(decls, Visited(all, keys))
    {
      var p :| p in keys;
      ghost var before := Visited(all, keys);
      assert keys == (keys - {p}) + {p};
      keys := keys - {p};
      VisitOne(all, keys, p);
      if p == "xml" {
        continue;
      }
      if p in shown {
        if Get(ctx, p) != Some(shown[p]) {
          decls := Listed(decls, p, shown[p], before);
        }
      } else if p == "" && "" in ctx && ctx[""] != "" {
        decls := Listed(decls, "", "", before);
      }
    }
    VisitedAll(all);
  }

  method CollectUtilized(mode: Mode, e: Element) returns (used: set<string>)
    requires mode.Exclusive?
    ensures used == Utilized(mode, e)
  {
    used := {ElementPrefix(e)};
    for i := 0 to |e.attrs|
      invariant used == {ElementPrefix(e)} + AttrPrefixes(mode, e.attrs[..i])
    {
      var p := AttrPrefix(mode, e.attrs[i]);
      if p.Some? {
        used := used + {p.value};
      }
      AttrPrefixesSnoc(mode, e.attrs, i);
    }
    assert e.attrs[..|e.attrs|] == e.attrs;
    ghost var tagged := used;
    var rest := mode.prefixList;
    while rest != {}
      invariant rest <= mode.prefixList
      invariant used == tagged + ListedPrefixes(mode.prefixList - rest)
    {
      var p :| p in rest;
      ghost var before := mode.prefixList - rest;
      rest := rest - {p};
      assert mode.prefixList - rest == before + {p};
      assert ListedPrefixes(before + {p}) == ListedPrefixes(before) + {if p == "#default" then "" else p};
      if p == "#default" {
        used := used + {""};
      } else {
        used := used + {p};
      }
    }
    assert mode.prefixList - rest == mode.prefixList;
  }

  lemma AttrPrefixesSnoc(mode: Mode, attrs: seq<Attribute>, i: nat)
    requires i < |attrs|
    ensures AttrPrefixes(mode, attrs[..i + 1]) ==
      AttrPrefixes(mode, attrs[..i]) + (var p := AttrPrefix(mode, attrs[i]); if p.Some? then {p.value} else {})
  {
    var a, b := attrs[..i], attrs[..i + 1];
    forall p | p in AttrPrefixes(mode, a) ensures p in AttrPrefixes(mode, b) {
      var k :| 0 <= k < |a| && AttrPrefix(mode, a[k]) == Some(p);
      assert b[k] == a[k];
    }
    forall p | p in AttrPrefixes(mode, b)
      ensures p in AttrPrefixes(mode, a) || AttrPrefix(mode, attrs[i]) == Some(p)
    {
      var k :| 0 <= k < |b| && AttrPrefix(mode, b[k]) == Some(p);
      if k < i {
        assert a[k] == b[k];
      }
    }
    assert b[i] == attrs[i];
  }

  /** Walks up all ancestors; the nearest value of each `xml:` attribute is kept. */
  method GatherInheritedXml(ancestors: seq<Frame>) returns (inherited: NsMap)
    ensures inherited == InheritedXml(ancestors)
  {
    hide XmlAttrs, InheritedXml;
    inherited := map[];
    assert ancestors[0..] == ancestors;
    for i := 0 to |ancestors|
      invariant InheritedXml(ancestors) == InheritedXml(ancestors[i..]) + inherited
    {
      var nearer := inherited;
      InheritedStep(ancestors, i, nearer);
      inherited := GatherXml(ancestors[i].elem.attrs, nearer);
    }
    assert ancestors[|ancestors|..] == [];
    NothingInherited();
  }

  lemma InheritedStep(ancestors: seq<Frame>, i: nat, nearer: NsMap)
    requires i < |ancestors|
    ensures InheritedXml(ancestors[i..]) + nearer == InheritedXml(ancestors[i + 1..]) + (XmlAttrs(ancestors[i].elem.attrs) + nearer)
  {
    hide XmlAttrs;
    assert ancestors[i..][1..] == ancestors[i + 1..] && ancestors[i..][0] == ancestors[i];
    assert InheritedXml(ancestors[i..]) == InheritedXml(ancestors[i + 1..]) + XmlAttrs(ancestors[i].elem.attrs);
    hide InheritedXml;
  }

  lemma NothingInherited()
    ensures InheritedXml([]) == map[]
  {
  }

  /** Adds the `xml:` attributes of one element that nothing nearer has set. */
  method GatherXml(attrs: seq<Attribute>, nearer: NsMap) returns (inherited: NsMap)
    ensures inherited == XmlAttrs(attrs) + nearer
  {
    inherited := nearer;
    for j := 0 to |attrs|
      invariant inherited == XmlAttrs(attrs[..j]) + nearer
    {
      var a := attrs[j];
      assert attrs[..j + 1][..j] == attrs[..j];
      if a.name.uri == Some(XML_NS) && a.name.local !in inherited {
        inherited := inherited[a.name.local := a.value];
      }
    }
    assert attrs[..|attrs|] == attrs;
  }

  method CollectInheritedXml(ancestors: seq<Frame>, present: seq<Attr>) returns (extra: seq<Attr>)
    ensures extra == ExtraAttrs(SortedKeys(InheritedXml(ancestors).Keys), InheritedXml(ancestors), present)
  {
    hide InheritedXml, SortedKeys, HasXmlAttr, ExtraAttrs;
    var inherited := GatherInheritedXml(ancestors);
    var names := SortedKeys(inherited.Keys);
    extra := [];
    assert names[0..] == names;
    for i := 0 to |names|
      invariant extra + ExtraAttrs(names[i..], inherited, present) == ExtraAttrs(names, inherited, present)
    {
      ExtraStep(names, i, inherited, present);
      if !HasXmlAttr(present, names[i]) {
        extra := extra + [Attr(XML_NS, names[i], "xml:" + names[i], inherited[names[i]])];
      }
    }
    ExtraEnd(inherited, present);
  }

  lemma ExtraStep(names: seq<string>, i: nat, inherited: NsMap, present: seq<Attr>)
    requires i < |names| && forall k :: k in names ==> k in inherited
    ensures names[i] in inherited
    ensures ExtraAttrs(names[i..], inherited, present) ==
      (if HasXmlAttr(present, names[i]) then [] else [Attr(XML_NS, names[i], "xml:" + names[i], inherited[names[i]])])
      + ExtraAttrs(names[i + 1..], inherited, present)
  {
    hide HasXmlAttr;
    assert names[i] in names && names[i..][1..] == names[i + 1..];
  }

  lemma ExtraEnd(inherited: NsMap, present: seq<Attr>)
    ensures ExtraAttrs([], inherited, present) == []
  {
  }

  /** Collects the bases from the element up, then resolves them from the root down. */
  method ComputeAbsoluteBase(resolve: (string, string) -> string, chain: seq<Frame>) returns (base: string)
    ensures base == AbsoluteBase(resolve, chain)
  {
    base := "";
    var i := |chain|;
    assert chain[|chain|..] == [];
    while i > 0
      invariant 0 <= i <= |chain|
      invariant base == AbsoluteBase(resolve, chain[i..])
    {
      i := i - 1;
      assert chain[i..][1..] == chain[i + 1..];
      var attrs := chain[i].elem.attrs;
      var b: Option<string> := None;
      for j := 0 to |attrs|
        invariant b.None? && BaseOf(attrs) == BaseOf(attrs[j..])
      {
        if attrs[j].name.uri == Some(XML_NS) && attrs[j].name.local == "base" {
          b := Some(attrs[j].value);
          break;
        }
        assert attrs[j..][1..] == attrs[j + 1..];
      }
      if b.Some? {
        base := if base == "" then b.value else resolve(base, b.value);
      }
    }
  }

  method CollectAttrs(cfg: Config, chain: seq<Frame>) returns (attrs: seq<Attr>)
    requires chain != []
    ensures attrs == TagAttrs(cfg, chain)
  {
    var excluded := !cfg.mode.Exclusive? && cfg.nodeSet.Some? && cfg.nodeSet.value.excludeAttrs;
    var own := chain[0].elem.attrs;
    attrs := [];
    if !excluded {
      for i := 0 to |own|
        invariant attrs == OwnAttrs(cfg.mode, own[..i])
      {
        attrs := attrs + [ToAttr(cfg.mode, own[i])];
      }
      assert own[..|own|] == own;
    }
    attrs := Sort(AttrLe, attrs);
    if cfg.mode.Exclusive? {
      return;
    }
    if cfg.nodeSet.Some? && !excluded {
      if ParentHidden(cfg, chain) {
        var extra := CollectInheritedXml(chain[1..], attrs);
        attrs := attrs + extra;
        if cfg.mode.Inclusive11? {
          var base := ComputeAbsoluteBase(cfg.mode.resolve, chain);
          attrs := SetBase(attrs, base);
        }
      }
    }
    attrs := Sort(AttrLe, attrs);
  }

  /** The declarations of a tag and the context for what is inside it. */
  method CollectDecls(cfg: Config, chain: seq<Frame>, ctx: NsMap) returns (decls: seq<NsDecl>, below: NsMap)
    requires chain != []
    ensures decls == DeclList(TagDecls(cfg, chain, ctx))
    ensures below == ChildCtx(cfg, chain, ctx)
  {
    hide Sort, DeclList, ShownNs, Changed, Utilized, ExclusiveDecls;
    var shown := CollectShown(cfg, chain);
    if cfg.mode.Exclusive? {
      var used := CollectUtilized(cfg.mode, chain[0].elem);
      decls := CollectExclusive(used, shown, ctx);
      SortedDecls(decls, TagDecls(cfg, chain, ctx));
      below := InsertDecls(ctx, decls, TagDecls(cfg, chain, ctx));
      if NsFiltered(cfg) {
        var stated := below;
        below := map p | p in stated && !(p in used && p != "xml" && p !in shown) :: stated[p];
      }
      decls := Sort(DeclLe, decls);
    } else {
      decls := CollectChanged(shown, ctx);
      if NsFiltered(cfg) {
        if "" in ctx && ctx[""] != "" && "" !in shown {
          ChangedKeys(shown, ctx);
          decls := Listed(decls, "", "", Changed(shown, ctx));
        }
        below := WithoutXml(shown);
      } else {
        below := ctx + WithoutXml(shown);
      }
      SortedDecls(decls, TagDecls(cfg, chain, ctx));
      decls := Sort(DeclLe, decls);
    }
  }

  lemma ChangedKeys(shown: NsMap, ctx: NsMap)
    ensures Changed(shown, ctx).Keys <= shown.Keys
  {
  }

  lemma AttrText(a: Attr)
    ensures a.Render() == RenderField(Field(a.qname, a.value))
  {
  }

  method InsertDecls(ctx: NsMap, decls: seq<NsDecl>, ghost m: NsMap) returns (r: NsMap)
    requires Lists(decls, m)
    ensures r == ctx + m
  {
    r := ctx;
    ghost var seen: set<string> := {};
    for i := 0 to |decls|
      invariant seen <= m.Keys
      invariant r == ctx + map p | p in seen :: m[p]
      invariant forall j :: 0 <= j < i ==> decls[j].prefix in seen
    {
      assert decls[i] in decls;
      r := r[decls[i].prefix := decls[i].uri];
      seen := seen + {decls[i].prefix};
    }
    forall p | p in m ensures p in seen {
      assert NsDecl(p, m[p]) in decls;
    }
    assert m == map p | p in seen :: m[p];
  }

  class C14nContext {
    const cfg: Config
    var output: string

    constructor (cfg: Config)
      ensures this.cfg == cfg && output == ""
    {
      this.cfg := cfg;
      output := "";
    }

    method WriteTag(name: string, decls: seq<NsDecl>, attrs: seq<Attr>)
      modifies this`output
      ensures output == old(output) + RenderToken(Start(name, decls, ToFields(attrs)))
    {
      hide RenderDecls, RenderFields, ToFields;
      ghost var was := output;
      output := output + "<" + name;
      WriteDecls(decls);
      WriteFields(attrs);
      output := output + ">";
      calc {
        output;
        was + "<" + name + RenderDecls(decls) + RenderFields(ToFields(attrs)) + ">";
        was + ("<" + name + RenderDecls(decls) + RenderFields(ToFields(attrs)) + ">");
        was + RenderToken(Start(name, decls, ToFields(attrs)));
      }
    }

    method WriteDecls(decls: seq<NsDecl>)
      modifies this`output
      ensures output == old(output) + RenderDecls(decls)
    {
      hide RenderDecls, NsDecl.Render;
      RenderEmpty();
      for i := 0 to |decls|
        invariant output == old(output) + RenderDecls(decls[..i])
      {
        output := output + decls[i].Render();
        RenderDeclsSnoc(decls[..i], decls[i]);
        assert decls[..i + 1] == decls[..i] + [decls[i]];
      }
      assert decls[..|decls|] == decls;
    }

    method WriteFields(attrs: seq<Attr>)
      modifies this`output
      ensures output == old(output) + RenderFields(ToFields(attrs))
    {
      hide RenderFields, RenderField, Attr.Render;
      RenderEmpty();
      ghost var fields := ToFields(attrs);
      for i := 0 to |attrs|
        invariant output == old(output) + RenderFields(fields[..i])
      {
        output := output + attrs[i].Render();
        AttrText(attrs[i]);
        RenderFieldsSnoc(fields[..i], fields[i]);
        assert fields[..i + 1] == fields[..i] + [fields[i]];
      }
      assert fields[..|attrs|] == fields;
    }

    method ProcessChildren(kids: seq<Node>, chain: seq<Frame>, ctx: NsMap)
      requires chain != []
      modifies this`output
      ensures output == old(output) + RenderAll(Walk(cfg, kids, chain, ctx))
      decreases kids, 0
    {
      hide Walk, WalkNode, RenderAll;
      RenderEmpty();
      WalkOfNothing(cfg, chain, ctx);
      for i := 0 to |kids|
        invariant output == old(output) + RenderAll(Walk(cfg, kids[..i], chain, ctx))
      {
        ProcessNode(kids, i, chain, ctx);
        WalkSnoc(cfg, kids, i, chain, ctx);
        RenderConcat(Walk(cfg, kids[..i], chain, ctx), WalkNode(cfg, kids[i], chain, ctx));
      }
      assert kids[..|kids|] == kids;
    }

    /** Writes the node at position `i` among its siblings; `chain` is empty for a child
        of the document node. */
    method ProcessNode(siblings: seq<Node>, i: nat, chain: seq<Frame>, ctx: NsMap)
      requires i < |siblings|
      requires chain == [] ==> ctx == map[]
      modifies this`output
      ensures output == old(output) + RenderAll(
        if chain == [] then
          TopNode(cfg, siblings[i], HasElement(siblings[..i]), HasElement(siblings[i + 1..]))
        else WalkNode(cfg, siblings[i], chain, ctx))
      decreases siblings[i], 2
    {
      hide RenderAll, Walk, StartTag, ChildCtx, Each;
      RenderEmpty();
      var n := siblings[i];
      var before, after := false, false;
      if chain == [] {
        before := HasPrecedingElement(siblings, i);
        after := HasFollowingElement(siblings, i);
      }
      match n {
        case Elem(_, _, _) =>
          ProcessElement(n, chain, ctx);
        case Text(id, text) =>
          if Visible(cfg, id) {
            var escaped := EscapeText(text);
            output := output + escaped;
            RenderOne(Chars(text));
          }
        case CData(id, text) =>
          if Visible(cfg, id) {
            var escaped := EscapeText(text);
            output := output + escaped;
            RenderOne(Chars(text));
          }
        case Comment(id, text) =>
          if cfg.withComments && Visible(cfg, id) {
            WriteLine("<!--" + text + "-->", before, after, Remark(text));
          }
        case PI(id, target, data) =>
          if Visible(cfg, id) {
            var text := "<?" + target;
            if data.Some? && data.value != "" {
              text := text + " " + EscPi(data.value);
              EscPiNonEmpty(data.value);
            }
            text := text + "?>";
            WriteLine(text, before, after, InstructionToken(target, data));
          }
      }
    }

    method WriteLine(text: string, before: bool, after: bool, ghost t: Token)
      requires text == RenderToken(t)
      modifies this`output
      ensures output == old(output) + RenderAll((if before then [Break] else []) + [t] + (if after then [Break] else []))
      ensures !before && !after ==> output == old(output) + RenderAll([t])
    {
      hide RenderToken, RenderAll;
      if before {
        output := output + "\n";
      }
      output := output + text;
      if after {
        output := output + "\n";
      }
      RenderConcat((if before then [Break] else []) + [t], if after then [Break] else []);
      RenderConcat(if before then [Break] else [], [t]);
      RenderOne(t);
      RenderEmpty();
    }

    method ProcessElement(n: Node, chain: seq<Frame>, ctx: NsMap)
      requires n.Elem?
      modifies this`output
      ensures output == old(output) + RenderAll(WalkNode(cfg, n, chain, ctx))
      decreases n, 1
    {
      hide RenderAll, Walk, WalkNode, StartTag, ChildCtx, TagName, FloatingDecls, DeclList, RenderDecls, Floats, Visible;
      var here := [Frame(n.id, n.elem)] + chain;
      ElementText(cfg, n, chain, ctx);
      if Visible(cfg, n.id) {
        WriteElement(n, here, ctx);
      } else {
        if Floats(cfg) {
          WriteFloating(here, ctx);
        }
        ProcessChildren(n.children, here, ctx);
      }
    }

    /** Start tag, content, end tag. */
    method WriteElement(n: Node, here: seq<Frame>, ctx: NsMap)
      requires n.Elem? && here != [] && here[0] == Frame(n.id, n.elem)
      modifies this`output
      ensures output == old(output) + RenderAll(
        [StartTag(cfg, here, ctx)] + Walk(cfg, n.children, here, ChildCtx(cfg, here, ctx)) + [End(TagName(n.elem))])
      decreases n, 0
    {
      hide RenderAll, Walk, TagDecls, ChildCtx, TagAttrs, ToFields, TagName, DeclList, RenderToken;
      var decls, below := CollectDecls(cfg, here, ctx);
      var attrs := CollectAttrs(cfg, here);
      var name := TagName(n.elem);
      WriteTag(name, decls, attrs);
      ProcessChildren(n.children, here, below);
      output := output + "</" + name + ">";
      RenderEnclosed(StartTag(cfg, here, ctx), Walk(cfg, n.children, here, below), name);
    }

    /** Namespace nodes of an element outside the node set, written without a tag. */
    method WriteFloating(here: seq<Frame>, ctx: NsMap)
      requires here != [] && Floats(cfg)
      modifies this`output
      ensures output == old(output) + RenderDecls(DeclList(FloatingDecls(cfg, here, ctx)))
    {
      hide Sort, DeclList, ShownNs, RenderDecls;
      var shown := CollectShown(cfg, here);
      var decls;
      if cfg.mode.Exclusive? {
        var listed := map p | p in shown && (if p == "" then "#default" else p) in cfg.mode.prefixList :: shown[p];
        decls := CollectFloating(listed, ctx);
        assert FloatingDecls(cfg, here, ctx) == DifferentFrom(listed, ctx);
      } else {
        decls := CollectChanged(shown, ctx);
      }
      SortedDecls(decls, FloatingDecls(cfg, here, ctx));
      decls := Sort(DeclLe, decls);
      WriteDecls(decls);
    }

    /** Canonicalizes a whole document. */
    method Run(doc: Document)
      requires output == ""
      modifies this`output
      ensures output == C14n(cfg, doc)
    {
      hide TopNode, RenderAll;
      RenderEmpty();
      var kids := doc.children;
      assert kids[0..] == kids;
      assert !HasElement(kids[..0]);
      for i := 0 to |kids|
        invariant output + RenderAll(WalkTop(cfg, kids[i..], HasElement(kids[..i]))) == C14n(cfg, doc)
      {
        ghost var sofar := output;
        ProcessNode(kids, i, [], map[]);
        ghost var t := TopNode(cfg, kids[i], HasElement(kids[..i]), HasElement(kids[i + 1..]));
        assert kids[i..][1..] == kids[i + 1..];
        HasElementSnoc(kids, i);
        RenderConcat(t, WalkTop(cfg, kids[i + 1..], HasElement(kids[..i + 1])));
        assert output == sofar + RenderAll(t);
      }
    }
  }

  lemma HasElementSnoc(kids: seq<Node>, i: nat)
    requires i < |kids|
    ensures HasElement(kids[..i + 1]) == (HasElement(kids[..i]) || kids[i].Elem?)
  {
    var a, b := kids[..i], kids[..i + 1];
    assert b[i] == kids[i];
    assert forall j :: 0 <= j < i ==> b[j] == a[j];
    if HasElement(a) {
      var j :| 0 <= j < i && a[j].Elem?;
      assert b[j].Elem?;
    }
    if HasElement(b) && !kids[i].Elem? {
      var j :| 0 <= j < i + 1 && b[j].Elem?;
      assert a[j].Elem?;
    }
  }

  function DifferentFrom(shown: NsMap, ctx: NsMap): NsMap {
    map p | p in shown && p != "xml" && Get(ctx, p) != Some(shown[p]) :: shown[p]
  }

  method CollectFloating(shown: NsMap, ctx: NsMap) returns (decls: seq<NsDecl>)
    ensures Lists(decls, DifferentFrom(shown, ctx))
  {
    hide Lists;
    ghost var all := DifferentFrom(shown, ctx);
    decls := [];
    var keys := shown.Keys;
    ListsNothing(Visited(all, keys));
    while keys != {}
      invariant keys <= shown.Keys
      invariant Lists(decls, Visited(all, keys))
    {
      var p :| p in keys;
      ghost var before := Visited(all, keys);
      assert keys == (keys - {p}) + {p};
      keys := keys - {p};
      VisitOne(all, keys, p);
      if p != "xml" && Get(ctx, p) != Some(shown[p]) {
        decls := Listed(decls, p, shown[p], before);
      }
    }
    VisitedAll(all);
  }

  /** The text of an element, rendered or not. */
  lemma ElementText(cfg: Config, n: Node, chain: seq<Frame>, ctx: NsMap)
    requires n.Elem?
    ensures var here := [Frame(n.id, n.elem)] + chain;
      RenderAll(WalkNode(cfg, n, chain, ctx)) ==
        if Visible(cfg, n.id) then
          RenderAll([StartTag(cfg, here, ctx)] + Walk(cfg, n.children, here, ChildCtx(cfg, here, ctx)) + [End(TagName(n.elem))])
        else
          (if Floats(cfg) then RenderDecls(DeclList(FloatingDecls(cfg, here, ctx))) else "") + RenderAll(Walk(cfg, n.children, here, ctx))
  {
    hide RenderAll, Walk, StartTag, ChildCtx, TagName, FloatingDecls, DeclList, RenderDecls, Floats, Visible;
    var here := [Frame(n.id, n.elem)] + chain;
    var f := Floating(DeclList(FloatingDecls(cfg, here, ctx)));
    RenderConcat([f], Walk(cfg, n.children, here, ctx));
    RenderOne(f);
    assert [] + Walk(cfg, n.children, here, ctx) == Walk(cfg, n.children, here, ctx);
  }

  lemma WalkOfNothing(cfg: Config, chain: seq<Frame>, ctx: NsMap)
    ensures Walk(cfg, [], chain, ctx) == []
  {
  }

  lemma WalkSnoc(cfg: Config, kids: seq<Node>, i: nat, chain: seq<Frame>, ctx: NsMap)
    requires i < |kids|
    ensures Walk(cfg, kids[..i + 1], chain, ctx) == Walk(cfg, kids[..i], chain, ctx) + WalkNode(cfg, kids[i], chain, ctx)
  {
    hide WalkNode;
    assert kids[..i + 1] == kids[..i] + [kids[i]] && [kids[i]] == [kids[i]] + [];
    WalkCons(cfg, kids[i], [], chain, ctx);
    WalkConcat(cfg, kids[..i], [kids[i]], chain, ctx);
    WalkOfNothing(cfg, chain, ctx);
    hide Walk;
  }

  lemma EscPiNonEmpty(s: string)
    requires s != ""
    ensures EscPi(s) != ""
  {
    assert EscPi(s) == PiChar(s[0]) + EscPi(s[1..]);
  }
}
