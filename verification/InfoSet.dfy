/**
 Canonical text says all there is to say: whoever reads it finds the elements, resolved names,
 attributes, character data, comments and instructions of the source.
 */
module InfoSet {
  import opened Dom
  import opened Escape
  import opened Tokens
  import opened Canonical
  import opened Namespaces
  import opened Lexer
  import opened TagReader
  import opened WellFormed
  import opened TreeReader
  import opened Idempotence
  import opened RoundTrip

  /** What a document says, apart from its declarations: names with their namespaces, attributes without
      order, and character data without the seams between its pieces.  A carriage return in the data of
      an instruction counts as the reference that is written for it. */
  datatype Info =
    | Tag(name: Name, attrs: set<Attribute>, content: seq<Info>)
    | Characters(text: string)
    | Remarked(text: string)
    | Instructed(target: string, data: string)

  function AttrSet(attrs: seq<Attribute>): set<Attribute> {
    set a | a in attrs
  }

  /** Character data in front of what follows. */
  function Join(w: string, c: seq<Info>): seq<Info> {
    if w == "" then c
    else if c != [] && c[0].Characters? then [Characters(w + c[0].text)] + c[1..]
    else [Characters(w)] + c
  }

  /** One node, whose children say `inside`, in front of what follows. */
  function Say(comments: bool, n: Node, inside: seq<Info>, rest: seq<Info>): seq<Info> {
    match n
    case Text(_, text) => Join(text, rest)
    case CData(_, text) => Join(text, rest)
    case Comment(_, text) => if comments then [Remarked(text)] + rest else rest
    case PI(_, target, data) => [Instructed(target, if data.Some? then EscPi(data.value) else "")] + rest
    case Elem(_, e, _) => [Tag(e.name, AttrSet(e.attrs), inside)] + rest
  }

  function Content(comments: bool, ns: seq<Node>): seq<Info>
    decreases ns
  {
    if ns == [] then []
    else Say(comments, ns[0], if ns[0].Elem? then Content(comments, ns[0].children) else [], Content(comments, ns[1..]))
  }

  lemma ContentCons(comments: bool, n: Node, ns: seq<Node>)
    ensures Content(comments, [n] + ns) ==
      Say(comments, n, if n.Elem? then Content(comments, n.children) else [], Content(comments, ns))
  {
    assert ([n] + ns)[1..] == ns;
  }

  lemma JoinTwice(w: string, x: string, c: seq<Info>)
    ensures Join(w, Join(x, c)) == Join(w + x, c)
  {
    if w == "" {
      assert w + x == x;
    } else if x == "" {
      assert w + x == w;
    } else if c != [] && c[0].Characters? {
      assert w + (x + c[0].text) == w + x + c[0].text;
    }
  }

  /** The tokens of a forest, preceded by pending text `w` and followed by `tail`, are read as nodes
      that say `info`, with the pending text in front. */
  ghost predicate Told(toks: seq<Token>, known: NsMap, info: seq<Info>, w: string, tail: seq<Token>) {
    var r := BuildForest(Prepend(w, Coalesce(toks + tail)), known);
    r.1 == Coalesce(tail) && Content(true, r.0) == Join(w, info)
  }

  lemma ToldNothing(known: NsMap, tail: seq<Token>)
    requires tail == [] || tail[0].End?
    ensures Told([], known, [], "", tail) && Cut(Coalesce([] + tail))
  {
    assert [] + tail == tail;
    if tail != [] {
      CoalesceMarkup(tail[0], tail[1..]);
      assert tail == [tail[0]] + tail[1..];
    }
  }

  lemma ToldPending(toks: seq<Token>, known: NsMap, info: seq<Info>, w: string, tail: seq<Token>)
    requires Cut(Coalesce(toks + tail)) && Told(toks, known, info, "", tail)
    ensures Told(toks, known, info, w, tail)
  {
    hide Coalesce, BuildForest, Content;
    if w != "" {
      var ts := Coalesce(toks + tail);
      BuildText(w, ts, known);
      ContentCons(true, Text(1 + |ts|, w), BuildForest(ts, known).0);
    }
  }

  lemma ToldText(x: string, toks: seq<Token>, known: NsMap, info: seq<Info>, w: string, tail: seq<Token>)
    requires Told(toks, known, info, w + x, tail)
    ensures Told([Chars(x)] + toks, known, Join(x, info), w, tail)
  {
    hide Coalesce, BuildForest, Content, Prepend, Join;
    CoalesceText(Chars(x), toks + tail);
    assert [Chars(x)] + toks + tail == [Chars(x)] + (toks + tail);
    PrependTwice(w, x, Coalesce(toks + tail));
    JoinTwice(w, x, info);
  }

  function LeafInfo(t: Token): Info
    requires t.Remark? || t.Instruction?
  {
    if t.Remark? then Remarked(t.text) else Instructed(t.target, t.data)
  }

  lemma ToldLeaf(t: Token, toks: seq<Token>, known: NsMap, info: seq<Info>, tail: seq<Token>)
    requires t.Remark? || (t.Instruction? && '\r' !in t.data)
    requires Told(toks, known, info, "", tail)
    ensures Told([t] + toks, known, [LeafInfo(t)] + info, "", tail) && Cut(Coalesce([t] + toks + tail))
  {
    hide Coalesce, BuildForest, Content;
    var ts := Coalesce(toks + tail);
    CoalesceMarkup(t, toks + tail);
    assert [t] + toks + tail == [t] + (toks + tail);
    LeafRead(t, ts, known);
    LeafSaid(t, |ts|, BuildForest(ts, known).0);
  }

  lemma LeafSaid(t: Token, k: nat, ns: seq<Node>)
    requires t.Remark? || (t.Instruction? && '\r' !in t.data)
    ensures Content(true, [ReadLeaf(t, k)] + ns) == [LeafInfo(t)] + Content(true, ns)
  {
    ContentCons(true, ReadLeaf(t, k), ns);
    if t.Instruction? {
      EscPiPlain(t.data);
    }
  }

  lemma ToldElement(s: Token, body: seq<Token>, e: Token, toks: seq<Token>, known: NsMap, name: Name, attrs: set<Attribute>,
                    inside: seq<Info>, info: seq<Info>, tail: seq<Token>)
    requires s.Start? && e.End?
    requires var inner := Declared(known, s.decls); var el := ReadTagElement(s, inner);
      && el.name == name && AttrSet(el.attrs) == attrs
      && Told(body, inner, inside, "", [e] + (toks + tail))
    requires Told(toks, known, info, "", tail)
    ensures Told([s] + body + [e] + toks, known, [Tag(name, attrs, inside)] + info, "", tail)
    ensures Cut(Coalesce([s] + body + [e] + toks + tail))
  {
    hide Coalesce, BuildForest, Declared, ReadTagElement, Content;
    BuildElement(s, body, e, toks + tail, known);
    assert [s] + body + [e] + toks + tail == [s] + body + [e] + (toks + tail);
    var ts, inner := Coalesce([s] + body + [e] + toks + tail), Declared(known, s.decls);
    var el := ReadTagElement(s, inner);
    var kids := BuildForest(Coalesce(body + ([e] + (toks + tail))), inner).0;
    var more := BuildForest(Coalesce(toks + tail), known).0;
    ContentCons(true, Elem(|ts|, el, kids), more);
  }

  lemma {:induction false} Tell(cfg: Config, ns: seq<Node>, chain: seq<Frame>, ctx: NsMap, known: NsMap,
                                chain2: seq<Frame>, ctx2: NsMap, w: string, tail: seq<Token>)
    requires cfg.nodeSet.None? && WellFormedForest(ns, chain)
    requires Aligned(cfg, chain, ctx, known, chain2, ctx2)
    requires tail == [] || tail[0].End?
    ensures Told(Walk(cfg, ns, chain, ctx), known, Content(cfg.withComments, ns), w, tail)
    decreases ns, 0
  {
    hide Told, Aligned, Coalesce, WellFormedElement, Lexer.Contains, NameText;
    if ns == [] {
      ToldNothing(known, tail);
      ToldPending([], known, [], w, tail);
      assert Walk(cfg, ns, chain, ctx) == [];
    } else {
      var n, rest, info := ns[0], Walk(cfg, ns[1..], chain, ctx), Content(cfg.withComments, ns[1..]);
      hide Walk;
      assert Walk(cfg, ns, chain, ctx) == WalkNode(cfg, n, chain, ctx) + rest by {
        assert ns == [n] + ns[1..];
        WalkCons(cfg, n, ns[1..], chain, ctx);
      }
      match n {
        case Text(_, text) =>
          Tell(cfg, ns[1..], chain, ctx, known, chain2, ctx2, w + text, tail);
          ToldText(text, rest, known, info, w, tail);
        case CData(_, text) =>
          Tell(cfg, ns[1..], chain, ctx, known, chain2, ctx2, w + text, tail);
          ToldText(text, rest, known, info, w, tail);
        case Comment(_, text) =>
          if cfg.withComments {
            Tell(cfg, ns[1..], chain, ctx, known, chain2, ctx2, "", tail);
            ToldLeaf(Remark(text), rest, known, info, tail);
            ToldPending([Remark(text)] + rest, known, [Remarked(text)] + info, w, tail);
          } else {
            Tell(cfg, ns[1..], chain, ctx, known, chain2, ctx2, w, tail);
            assert [] + rest == rest;
          }
        case PI(_, target, data) =>
          var t := InstructionToken(target, data);
          InstructionPlain(target, data);
          InstructionSaid(target, data);
          hide InstructionToken;
          Tell(cfg, ns[1..], chain, ctx, known, chain2, ctx2, "", tail);
          ToldLeaf(t, rest, known, info, tail);
          ToldPending([t] + rest, known, [LeafInfo(t)] + info, w, tail);
        case Elem(_, _, _) =>
          Tell(cfg, ns[1..], chain, ctx, known, chain2, ctx2, "", tail);
          TellElement(cfg, n, rest, info, chain, ctx, known, chain2, ctx2, w, tail);
      }
    }
  }

  lemma InstructionSaid(target: string, data: Option<string>)
    ensures InstructionToken(target, data).Instruction?
    ensures LeafInfo(InstructionToken(target, data)) == Instructed(target, if data.Some? then EscPi(data.value) else "")
  {
  }

  lemma {:induction false} TellElement(cfg: Config, n: Node, rest: seq<Token>, info: seq<Info>, chain: seq<Frame>, ctx: NsMap,
                                       known: NsMap, chain2: seq<Frame>, ctx2: NsMap, w: string, tail: seq<Token>)
    requires cfg.nodeSet.None? && n.Elem? && WellFormedNode(n, chain)
    requires Aligned(cfg, chain, ctx, known, chain2, ctx2)
    requires Told(rest, known, info, "", tail)
    ensures Told(WalkNode(cfg, n, chain, ctx) + rest, known,
                 [Tag(n.elem.name, AttrSet(n.elem.attrs), Content(cfg.withComments, n.children))] + info, w, tail)
    decreases n.children, 1
  {
    hide *;
    var here := [Frame(n.id, n.elem)] + chain;
    ElementParts(cfg, n, chain, ctx, known);
    var s, e := StartTag(cfg, here, ctx), End(TagName(n.elem));
    var body := Walk(cfg, n.children, here, ChildCtx(cfg, here, ctx));
    var inner := Declared(known, s.decls);
    var here2 := [Frame(0, ReadTagElement(s, inner))] + chain2;
    assert here[1..] == chain && here2[1..] == chain2;
    NamesAgain(cfg, here, ctx, known, here2, chain2, ctx2);
    TagAgain(cfg, here, ctx, known, here2, ctx2);
    Tell(cfg, n.children, here, ChildCtx(cfg, here, ctx), inner, here2, ChildCtx(cfg, here2, ctx2), "", [e] + (rest + tail));
    var attrs, inside := AttrSet(n.elem.attrs), Content(cfg.withComments, n.children);
    ToldElement(s, body, e, rest, known, n.elem.name, attrs, inside, info, tail);
    ToldPending([s] + body + [e] + rest, known, [Tag(n.elem.name, attrs, inside)] + info, w, tail);
  }

  /** The tag is read with the name and the attributes of the element. */
  lemma NamesAgain(cfg: Config, here: seq<Frame>, ctx: NsMap, known: NsMap, here2: seq<Frame>, chain2: seq<Frame>, ctx2: NsMap)
    requires here != [] && cfg.nodeSet.None? && WellFormedElement(here[0].elem, here)
    requires here2 != [] && here2[0].elem == Again(cfg, here, ctx, known)
    requires Aligned(cfg, here[1..], ctx, known, chain2, ctx2)
    ensures here2[0].elem.name == here[0].elem.name && AttrSet(here2[0].elem.attrs) == AttrSet(here[0].elem.attrs)
  {
    assert NoUndeclaration(here[0].elem);
    hide Again, StartTag, Declared, WellFormedElement, Inscope;
    NamesResolve(cfg, here, ctx, known);
    SameNames(cfg, here, ctx, known, here2);
  }

  // ---------------------------------------------------------------- the document node

  ghost predicate TopTold(toks: seq<Token>, info: seq<Info>, w: string) {
    var r := BuildForest(Prepend(w, Coalesce(toks)), map[]);
    r.1 == [] && Content(true, DropText(r.0)) == info
  }

  lemma TopToldNothing()
    ensures TopTold([], [], "") && Cut(Coalesce([]))
  {
  }

  lemma TopToldPending(toks: seq<Token>, info: seq<Info>, w: string)
    requires Cut(Coalesce(toks)) && TopTold(toks, info, "")
    ensures TopTold(toks, info, w)
  {
    hide Coalesce, BuildForest, DropText, Content;
    if w != "" {
      var ts := Coalesce(toks);
      BuildText(w, ts, map[]);
      DropCons(Text(1 + |ts|, w), BuildForest(ts, map[]).0);
    }
  }

  /** A line break before what follows. */
  lemma TopToldLine(on: bool, toks: seq<Token>, info: seq<Info>, w: string)
    requires TopTold(toks, info, if on then w + "\n" else w)
    ensures TopTold(Line(on) + toks, info, w)
  {
    hide Coalesce, BuildForest, DropText, Content, Prepend;
    CoalesceLine(on, toks, w);
  }

  lemma TopToldLeaf(t: Token, toks: seq<Token>, info: seq<Info>, w: string)
    requires t.Remark? || (t.Instruction? && '\r' !in t.data)
    requires TopTold(toks, info, "")
    ensures TopTold([t] + toks, [LeafInfo(t)] + info, w)
  {
    hide Coalesce, BuildForest, DropText, Content;
    var ts := Coalesce(toks);
    CoalesceMarkup(t, toks);
    LeafRead(t, ts, map[]);
    DropCons(ReadLeaf(t, |ts|), BuildForest(ts, map[]).0);
    LeafSaid(t, |ts|, DropText(BuildForest(ts, map[]).0));
    TopToldPending([t] + toks, [LeafInfo(t)] + info, w);
  }

  lemma TopToldElement(cfg: Config, n: Node, toks: seq<Token>, info: seq<Info>, w: string)
    requires cfg.nodeSet.None? && n.Elem? && WellFormedNode(n, []) && TopTold(toks, info, "")
    ensures TopTold(WalkNode(cfg, n, [], map[]) + toks,
                    [Tag(n.elem.name, AttrSet(n.elem.attrs), Content(cfg.withComments, n.children))] + info, w)
  {
    hide *;
    var here := [Frame(n.id, n.elem)] + [];
    AlignedAtStart(cfg);
    ElementParts(cfg, n, [], map[], map[]);
    var s, e := StartTag(cfg, here, map[]), End(TagName(n.elem));
    var body := Walk(cfg, n.children, here, ChildCtx(cfg, here, map[]));
    var inner := Declared(map[], s.decls);
    var el := ReadTagElement(s, inner);
    var here2 := [Frame(0, el)] + [];
    assert here[1..] == [] && here2[1..] == [];
    NamesAgain(cfg, here, map[], map[], here2, [], map[]);
    TagAgain(cfg, here, map[], map[], here2, map[]);
    Tell(cfg, n.children, here, ChildCtx(cfg, here, map[]), inner, here2, ChildCtx(cfg, here2, map[]), "", [e] + toks);
    var inside := Content(cfg.withComments, n.children);
    assert WalkNode(cfg, n, [], map[]) + toks == [s] + body + [e] + toks;
    TopToldTag(s, body, e, toks, n.elem.name, AttrSet(n.elem.attrs), inside, info);
    TopToldPending([s] + body + [e] + toks, [Tag(n.elem.name, AttrSet(n.elem.attrs), inside)] + info, w);
  }

  lemma TopToldTag(s: Token, body: seq<Token>, e: Token, toks: seq<Token>, name: Name, attrs: set<Attribute>,
                   inside: seq<Info>, info: seq<Info>)
    requires s.Start? && e.End?
    requires var inner := Declared(map[], s.decls); var el := ReadTagElement(s, inner);
      && el.name == name && AttrSet(el.attrs) == attrs && Told(body, inner, inside, "", [e] + toks)
    requires TopTold(toks, info, "")
    ensures TopTold([s] + body + [e] + toks, [Tag(name, attrs, inside)] + info, "") && Cut(Coalesce([s] + body + [e] + toks))
  {
    hide Coalesce, BuildForest, Declared, ReadTagElement, Content, DropText, AttrSet;
    BuildElement(s, body, e, toks, map[]);
    var ts, inner := Coalesce([s] + body + [e] + toks), Declared(map[], s.decls);
    var el := ReadTagElement(s, inner);
    var kids := BuildForest(Coalesce(body + ([e] + toks)), inner).0;
    var more := BuildForest(Coalesce(toks), map[]).0;
    DropCons(Elem(|ts|, el, kids), more);
    ContentCons(true, Elem(|ts|, el, kids), DropText(more));
  }

  lemma TopToldLines(t: Token, toks: seq<Token>, info: seq<Info>, before: bool, after: bool, w: string)
    requires t.Remark? || (t.Instruction? && '\r' !in t.data)
    requires TopTold(toks, info, if after then "\n" else "")
    ensures TopTold(Line(before) + [t] + Line(after) + toks, [LeafInfo(t)] + info, w)
  {
    hide *;
    assert "" + "\n" == "\n";
    TopToldLine(after, toks, info, "");
    TopToldLeaf(t, Line(after) + toks, info, if before then w + "\n" else w);
    TopToldLine(before, [t] + (Line(after) + toks), [LeafInfo(t)] + info, w);
    assert Line(before) + [t] + Line(after) + toks == Line(before) + ([t] + (Line(after) + toks));
  }

  lemma {:induction false} TellTop(cfg: Config, ns: seq<Node>, before: bool, w: string)
    requires cfg.nodeSet.None? && WellFormedForest(ns, [])
    requires forall i :: 0 <= i < |ns| ==> !ns[i].Text? && !ns[i].CData?
    ensures TopTold(WalkTop(cfg, ns, before), Content(cfg.withComments, ns), w)
  {
    if ns == [] {
      hide TopTold, Coalesce;
      TopToldNothing();
      TopToldPending([], [], w);
      assert WalkTop(cfg, ns, before) == [];
    } else {
      var n, rest := ns[0], ns[1..];
      var toks, info := WalkTop(cfg, rest, before || n.Elem?), Content(cfg.withComments, rest);
      var after := HasElement(rest);
      assert ns == [n] + rest && WellFormedNode(n, []) && WellFormedForest(rest, []);
      hide *;
      WalkTopCons(cfg, n, rest, before);
      TopNodeParts(cfg, n, before, after);
      ContentTop(cfg.withComments, n, rest);
      if n.Elem? {
        TellTop(cfg, rest, true, "");
        TopToldElement(cfg, n, toks, info, w);
      } else if n.PI? || cfg.withComments {
        LeafTokenPlain(n);
        TellTop(cfg, rest, before, if after then "\n" else "");
        TopToldLines(LeafToken(n), toks, info, before, after, w);
      } else {
        TellTop(cfg, rest, before, w);
        assert [] + toks == toks;
      }
    }
  }

  /** What one node says that is not character data. */
  lemma ContentTop(comments: bool, n: Node, rest: seq<Node>)
    requires !n.Text? && !n.CData?
    ensures var all, info := Content(comments, [n] + rest), Content(comments, rest);
      && (n.Elem? ==> all == [Tag(n.elem.name, AttrSet(n.elem.attrs), Content(comments, n.children))] + info)
      && (n.PI? || (n.Comment? && comments) ==> all == [LeafInfo(LeafToken(n))] + info)
      && (n.Comment? && !comments ==> all == info)
  {
    ContentCons(comments, n, rest);
    hide Content;
    if n.PI? {
      InstructionSaid(n.target, n.data);
    }
  }

  /** In every mode, the canonical text of a well-formed document is read as a document that says the
      same: the same elements with the same resolved names and attributes around the same character
      data, and the same instructions and, if they are written, comments. */
  lemma CanonKeepsContent(cfg: Config, doc: Document)
    requires cfg.nodeSet.None? && WellFormedDoc(doc)
    ensures Read(C14n(cfg, doc)).Some?
    ensures Content(true, Read(C14n(cfg, doc)).value.children) == Content(cfg.withComments, doc.children)
  {
    hide Lex, Coalesce, RenderAll, WalkTop, BuildForest, DropText, WellFormedForest, Content;
    CanonIsReadable(cfg, doc);
    TellTop(cfg, doc.children, false, "");
  }

  /** So two documents with the same canonical text say the same. */
  lemma SameTextSameContent(cfg: Config, doc: Document, cfg2: Config, doc2: Document)
    requires cfg.nodeSet.None? && cfg2.nodeSet.None? && WellFormedDoc(doc) && WellFormedDoc(doc2)
    requires C14n(cfg, doc) == C14n(cfg2, doc2)
    ensures Content(cfg.withComments, doc.children) == Content(cfg2.withComments, doc2.children)
  {
    CanonKeepsContent(cfg, doc);
    CanonKeepsContent(cfg2, doc2);
  }
}
