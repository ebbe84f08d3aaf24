/**
 The round through the text: a document read from canonical text has the same canonical
 text again.
 */
module RoundTrip {
  import opened Dom
  import opened Escape
  import opened Render
  import opened Tokens
  import opened Canonical
  import opened Lexer
  import opened TagReader
  import opened WellFormed
  import opened TreeReader
  import opened Idempotence

  /** The tokens of a forest, preceded by pending text `w` and followed by `tail`, are read as
      nodes whose canonical text is `w` and the text of the tokens. */
  ghost predicate Rebuilt(cfg: Config, toks: seq<Token>, known: NsMap, chain2: seq<Frame>, ctx2: NsMap,
                          w: string, tail: seq<Token>)
  {
    var r := BuildForest(Prepend(w, Coalesce(toks + tail)), known);
    && r.1 == Coalesce(tail)
    && RenderAll(Walk(cfg, r.0, chain2, ctx2)) == EscText(w) + RenderAll(toks)
  }

  /** `ts` does not begin with character data. */
  predicate Cut(ts: seq<Token>) {
    ts == [] || !ts[0].Chars?
  }

  lemma PrependTwice(w: string, x: string, ts: seq<Token>)
    ensures Prepend(w, Prepend(x, ts)) == Prepend(w + x, ts)
  {
    if w == "" {
      assert w + x == x;
    } else if x == "" {
      assert w + x == w;
    } else if ts != [] && ts[0].Chars? {
      assert w + (x + ts[0].text) == w + x + ts[0].text;
    }
  }

  lemma CoalesceText(t: Token, ts: seq<Token>)
    requires IsText(t)
    ensures Coalesce([t] + ts) == Prepend(TextOf(t), Coalesce(ts))
  {
    assert ([t] + ts)[1..] == ts;
  }

  lemma CoalesceMarkup(t: Token, ts: seq<Token>)
    requires !IsText(t)
    ensures Coalesce([t] + ts) == [t] + Coalesce(ts)
    ensures Cut(Coalesce([t] + ts))
  {
    assert ([t] + ts)[1..] == ts;
  }

  lemma BuildText(w: string, ts: seq<Token>, ctx: NsMap)
    requires w != "" && Cut(ts)
    ensures BuildForest(Prepend(w, ts), ctx) ==
      ([Text(1 + |ts|, w)] + BuildForest(ts, ctx).0, BuildForest(ts, ctx).1)
  {
    assert ([Chars(w)] + ts)[1..] == ts;
  }

  lemma WalkText(cfg: Config, id: nat, w: string, ns: seq<Node>, chain: seq<Frame>, ctx: NsMap)
    requires cfg.nodeSet.None?
    ensures RenderAll(Walk(cfg, [Text(id, w)] + ns, chain, ctx)) == EscText(w) + RenderAll(Walk(cfg, ns, chain, ctx))
  {
    hide Each, RenderAll;
    assert ([Text(id, w)] + ns)[1..] == ns;
    RenderConcat([Chars(w)], Walk(cfg, ns, chain, ctx));
    RenderOne(Chars(w));
  }

  /** Pending text in front of markup becomes a text node of its own. */
  lemma TextFirst(cfg: Config, toks: seq<Token>, known: NsMap, chain2: seq<Frame>, ctx2: NsMap, w: string, tail: seq<Token>)
    requires cfg.nodeSet.None? && Cut(Coalesce(toks + tail))
    requires Rebuilt(cfg, toks, known, chain2, ctx2, "", tail)
    ensures Rebuilt(cfg, toks, known, chain2, ctx2, w, tail)
  {
    hide Each, Coalesce, Walk, BuildForest;
    if w != "" {
      var ts := Coalesce(toks + tail);
      assert EscText("") + RenderAll(toks) == RenderAll(toks) by {
        EscNothing();
      }
      BuildText(w, ts, known);
      WalkText(cfg, 1 + |ts|, w, BuildForest(ts, known).0, chain2, ctx2);
    }
  }

  lemma EscNothing()
    ensures EscText("") == ""
  {
  }

  /** Text joins the text before it. */
  lemma TextStep(cfg: Config, x: string, toks: seq<Token>, known: NsMap, chain2: seq<Frame>, ctx2: NsMap, w: string, tail: seq<Token>)
    requires Rebuilt(cfg, toks, known, chain2, ctx2, w + x, tail)
    ensures Rebuilt(cfg, [Chars(x)] + toks, known, chain2, ctx2, w, tail)
  {
    hide Each, Coalesce, Walk, BuildForest, RenderAll, Prepend;
    CoalesceText(Chars(x), toks + tail);
    assert [Chars(x)] + toks + tail == [Chars(x)] + (toks + tail);
    PrependTwice(w, x, Coalesce(toks + tail));
    EachConcat(TextChar, w, x);
    RenderConcat([Chars(x)], toks);
    RenderOne(Chars(x));
    var a, b, c := EscText(w), EscText(x), RenderAll(toks);
    assert a + b + c == a + (b + c);
  }

  /** A comment or instruction is read and written again. */
  lemma LeafStep(cfg: Config, t: Token, toks: seq<Token>, known: NsMap, chain2: seq<Frame>, ctx2: NsMap, tail: seq<Token>)
    requires cfg.nodeSet.None?
    requires (t.Remark? && cfg.withComments) || (t.Instruction? && '\r' !in t.data)
    requires Rebuilt(cfg, toks, known, chain2, ctx2, "", tail)
    ensures Rebuilt(cfg, [t] + toks, known, chain2, ctx2, "", tail)
    ensures Cut(Coalesce([t] + toks + tail))
  {
    hide Each, Walk, RenderAll, Coalesce, BuildForest, WalkNode;
    var ts := Coalesce(toks + tail);
    CoalesceMarkup(t, toks + tail);
    assert [t] + toks + tail == [t] + (toks + tail);
    var leaf := ReadLeaf(t, |ts|);
    EscNothing();
    LeafRead(t, ts, known);
    LeafWritten(cfg, t, |ts|, chain2, ctx2);
    var more := BuildForest(ts, known).0;
    WalkCons(cfg, leaf, more, chain2, ctx2);
    RenderConcat([t], Walk(cfg, more, chain2, ctx2));
    RenderConcat([t], toks);
  }

  /** Reading an element: its tag, its content up to its end tag, and what follows. */
  lemma BuildElement(s: Token, body: seq<Token>, e: Token, rest: seq<Token>, known: NsMap)
    requires s.Start? && e.End?
    requires BuildForest(Coalesce(body + ([e] + rest)), Declared(known, s.decls)).1 == Coalesce([e] + rest)
    ensures var ts := Coalesce([s] + body + [e] + rest); var inner := Declared(known, s.decls);
      && |ts| > 0 && Cut(ts)
      && BuildForest(ts, known) ==
           ([Elem(|ts|, ReadTagElement(s, inner), BuildForest(Coalesce(body + ([e] + rest)), inner).0)]
              + BuildForest(Coalesce(rest), known).0,
            BuildForest(Coalesce(rest), known).1)
  {
    hide Coalesce, Declared, ReadTagElement;
    var ts := Coalesce([s] + body + [e] + rest);
    CoalesceMarkup(s, body + ([e] + rest));
    CoalesceMarkup(e, rest);
    assert [s] + body + [e] + rest == [s] + (body + ([e] + rest));
    assert ts[1..] == Coalesce(body + ([e] + rest));
    assert Coalesce([e] + rest)[1..] == Coalesce(rest);
  }

  lemma ElementStep(cfg: Config, s: Token, body: seq<Token>, e: Token, toks: seq<Token>,
                    known: NsMap, chain2: seq<Frame>, ctx2: NsMap, tail: seq<Token>)
    requires cfg.nodeSet.None? && s.Start? && e.End?
    requires var ts := Coalesce([s] + body + [e] + toks + tail);
      var inner := Declared(known, s.decls);
      var here2 := [Frame(|ts|, ReadTagElement(s, inner))] + chain2;
      && StartTag(cfg, here2, ctx2) == s && e.name == TagName(here2[0].elem)
      && Rebuilt(cfg, body, inner, here2, ChildCtx(cfg, here2, ctx2), "", [e] + (toks + tail))
    requires Rebuilt(cfg, toks, known, chain2, ctx2, "", tail)
    ensures Rebuilt(cfg, [s] + body + [e] + toks, known, chain2, ctx2, "", tail)
    ensures Cut(Coalesce([s] + body + [e] + toks + tail))
  {
    hide Each, Walk, RenderAll, Coalesce, BuildForest, StartTag, ChildCtx, Declared, ReadTagElement, TagName;
    EscNothing();
    BuildElement(s, body, e, toks + tail, known);
    assert [s] + body + [e] + toks + tail == [s] + body + [e] + (toks + tail);
    var ts := Coalesce([s] + body + [e] + toks + tail);
    var inner := Declared(known, s.decls);
    var el := ReadTagElement(s, inner);
    var here2 := [Frame(|ts|, el)] + chain2;
    var kids := BuildForest(Coalesce(body + ([e] + (toks + tail))), inner).0;
    var more := BuildForest(Coalesce(toks + tail), known).0;
    ElementText(cfg, s, e, body, toks, Elem(|ts|, el, kids), more, chain2, ctx2);
  }

  /** The text of an element read back, given that of its content and of what follows. */
  lemma ElementText(cfg: Config, s: Token, e: Token, body: seq<Token>, toks: seq<Token>,
                    n: Node, more: seq<Node>, chain2: seq<Frame>, ctx2: NsMap)
    requires cfg.nodeSet.None? && n.Elem? && e.End?
    requires var here2 := [Frame(n.id, n.elem)] + chain2;
      && StartTag(cfg, here2, ctx2) == s && e.name == TagName(n.elem)
      && RenderAll(Walk(cfg, n.children, here2, ChildCtx(cfg, here2, ctx2))) == RenderAll(body)
    requires RenderAll(Walk(cfg, more, chain2, ctx2)) == RenderAll(toks)
    ensures RenderAll(Walk(cfg, [n] + more, chain2, ctx2)) == RenderAll([s] + body + [e] + toks)
    ensures RenderAll(WalkNode(cfg, n, chain2, ctx2)) == RenderAll([s] + body + [e])
  {
    hide Walk, RenderAll, StartTag, ChildCtx, TagName;
    var here2 := [Frame(n.id, n.elem)] + chain2;
    var inside := Walk(cfg, n.children, here2, ChildCtx(cfg, here2, ctx2));
    assert e == End(TagName(n.elem));
    assert WalkNode(cfg, n, chain2, ctx2) == [s] + inside + [e];
    WalkCons(cfg, n, more, chain2, ctx2);
    RenderConcat([s] + inside, [e]);
    RenderConcat([s], inside);
    RenderConcat([s] + body, [e]);
    RenderConcat([s], body);
    RenderConcat([s] + inside + [e], Walk(cfg, more, chain2, ctx2));
    RenderConcat([s] + body + [e], toks);
  }

  lemma {:induction false} Rebuild(cfg: Config, ns: seq<Node>, chain: seq<Frame>, ctx: NsMap, known: NsMap,
                                   chain2: seq<Frame>, ctx2: NsMap, w: string, tail: seq<Token>)
    requires cfg.nodeSet.None? && WellFormedForest(ns, chain)
    requires Aligned(cfg, chain, ctx, known, chain2, ctx2)
    requires tail == [] || tail[0].End?
    ensures Rebuilt(cfg, Walk(cfg, ns, chain, ctx), known, chain2, ctx2, w, tail)
    decreases ns, 0
  {
    hide Rebuilt, Aligned, Coalesce, WellFormedElement, Contains, NameText;
    if ns == [] {
      RebuildNothing(cfg, known, chain2, ctx2, tail);
      TextFirst(cfg, [], known, chain2, ctx2, w, tail);
      assert Walk(cfg, ns, chain, ctx) == [];
    } else {
      var n, rest := ns[0], Walk(cfg, ns[1..], chain, ctx);
      hide Walk;
      assert Walk(cfg, ns, chain, ctx) == WalkNode(cfg, n, chain, ctx) + rest by {
        assert ns == [n] + ns[1..];
        WalkCons(cfg, n, ns[1..], chain, ctx);
      }
      match n {
        case Text(_, text) =>
          Rebuild(cfg, ns[1..], chain, ctx, known, chain2, ctx2, w + text, tail);
          TextStep(cfg, text, rest, known, chain2, ctx2, w, tail);
        case CData(_, text) =>
          Rebuild(cfg, ns[1..], chain, ctx, known, chain2, ctx2, w + text, tail);
          TextStep(cfg, text, rest, known, chain2, ctx2, w, tail);
        case Comment(_, text) =>
          if cfg.withComments {
            Rebuild(cfg, ns[1..], chain, ctx, known, chain2, ctx2, "", tail);
            LeafStep(cfg, Remark(text), rest, known, chain2, ctx2, tail);
            TextFirst(cfg, [Remark(text)] + rest, known, chain2, ctx2, w, tail);
          } else {
            Rebuild(cfg, ns[1..], chain, ctx, known, chain2, ctx2, w, tail);
            assert [] + rest == rest;
          }
        case PI(_, target, data) =>
          var t := InstructionToken(target, data);
          InstructionPlain(target, data);
          hide InstructionToken;
          Rebuild(cfg, ns[1..], chain, ctx, known, chain2, ctx2, "", tail);
          LeafStep(cfg, t, rest, known, chain2, ctx2, tail);
          TextFirst(cfg, [t] + rest, known, chain2, ctx2, w, tail);
        case Elem(_, _, _) =>
          Rebuild(cfg, ns[1..], chain, ctx, known, chain2, ctx2, "", tail);
          RebuildElement(cfg, n, rest, chain, ctx, known, chain2, ctx2, w, tail);
      }
    }
  }

  lemma RebuildNothing(cfg: Config, known: NsMap, chain2: seq<Frame>, ctx2: NsMap, tail: seq<Token>)
    requires tail == [] || tail[0].End?
    ensures Rebuilt(cfg, [], known, chain2, ctx2, "", tail)
    ensures Cut(Coalesce([] + tail))
  {
    assert [] + tail == tail;
    EscNothing();
    RenderEmpty();
    if tail != [] {
      CoalesceMarkup(tail[0], tail[1..]);
      assert tail == [tail[0]] + tail[1..];
    }
  }

  lemma InstructionPlain(target: string, data: Option<string>)
    ensures InstructionToken(target, data).Instruction? && '\r' !in InstructionToken(target, data).data
  {
    if data.Some? {
      EscPiSafe(data.value);
    }
  }

  lemma {:induction false} RebuildElement(cfg: Config, n: Node, rest: seq<Token>, chain: seq<Frame>, ctx: NsMap, known: NsMap,
                                          chain2: seq<Frame>, ctx2: NsMap, w: string, tail: seq<Token>)
    requires cfg.nodeSet.None? && n.Elem? && WellFormedNode(n, chain)
    requires Aligned(cfg, chain, ctx, known, chain2, ctx2)
    requires Rebuilt(cfg, rest, known, chain2, ctx2, "", tail)
    ensures Rebuilt(cfg, WalkNode(cfg, n, chain, ctx) + rest, known, chain2, ctx2, w, tail)
    decreases n.children, 1
  {
    hide *;
    var here := [Frame(n.id, n.elem)] + chain;
    ElementParts(cfg, n, chain, ctx, known);
    var s, e := StartTag(cfg, here, ctx), End(TagName(n.elem));
    var body := Walk(cfg, n.children, here, ChildCtx(cfg, here, ctx));
    var ts := Coalesce([s] + body + [e] + rest + tail);
    var inner := Declared(known, s.decls);
    var here2 := [Frame(|ts|, ReadTagElement(s, inner))] + chain2;
    assert here[1..] == chain && here2[1..] == chain2;
    TagAgain(cfg, here, ctx, known, here2, ctx2);
    Rebuild(cfg, n.children, here, ChildCtx(cfg, here, ctx), inner, here2, ChildCtx(cfg, here2, ctx2), "", [e] + (rest + tail));
    SameTagName(cfg, here, here2, ctx, ctx2);
    ElementStep(cfg, s, body, e, rest, known, chain2, ctx2, tail);
    TextFirst(cfg, [s] + body + [e] + rest, known, chain2, ctx2, w, tail);
  }

  lemma ElementParts(cfg: Config, n: Node, chain: seq<Frame>, ctx: NsMap, known: NsMap)
    requires cfg.nodeSet.None? && n.Elem? && WellFormedNode(n, chain)
    ensures var here := [Frame(n.id, n.elem)] + chain; var s := StartTag(cfg, here, ctx);
      && s.Start?
      && WalkNode(cfg, n, chain, ctx) == [s] + Walk(cfg, n.children, here, ChildCtx(cfg, here, ctx)) + [End(TagName(n.elem))]
      && WellFormedElement(n.elem, here) && WellFormedForest(n.children, here)
      && ReadTagElement(s, Declared(known, s.decls)) == Again(cfg, here, ctx, known)
  {
    hide WellFormedElement, WellFormedForest, Walk, ReadTagElement, Declared, DeclList, TagDecls, TagAttrs, ToFields, ChildCtx;
  }

  lemma SameTagName(cfg: Config, here: seq<Frame>, here2: seq<Frame>, ctx: NsMap, ctx2: NsMap)
    requires here != [] && here2 != [] && StartTag(cfg, here2, ctx2) == StartTag(cfg, here, ctx)
    ensures TagName(here2[0].elem) == TagName(here[0].elem)
  {
  }

  // ---------------------------------------------------------------- the document node

  ghost predicate TopRebuilt(cfg: Config, toks: seq<Token>, before: bool, elements: bool, w: string) {
    var r := BuildForest(Prepend(w, Coalesce(toks)), map[]);
    && r.1 == []
    && RenderAll(WalkTop(cfg, DropText(r.0), before)) == RenderAll(toks)
    && HasElement(DropText(r.0)) == elements
  }

  lemma DropCons(n: Node, ns: seq<Node>)
    ensures DropText([n] + ns) == (if n.Text? then DropText(ns) else [n] + DropText(ns))
  {
    assert ([n] + ns)[1..] == ns;
  }

  /** Line breaks before markup at the top disappear. */
  lemma TopTextFirst(cfg: Config, toks: seq<Token>, before: bool, elements: bool, w: string)
    requires Cut(Coalesce(toks)) && TopRebuilt(cfg, toks, before, elements, "")
    ensures TopRebuilt(cfg, toks, before, elements, w)
  {
    hide Coalesce, BuildForest, RenderAll, WalkTop, DropText;
    if w != "" {
      var ts := Coalesce(toks);
      BuildText(w, ts, map[]);
      DropCons(Text(1 + |ts|, w), BuildForest(ts, map[]).0);
    }
  }

  function Line(on: bool): seq<Token> {
    if on then [Break] else []
  }

  lemma CoalesceLine(on: bool, toks: seq<Token>, w: string)
    ensures Prepend(w, Coalesce(Line(on) + toks)) == Prepend(if on then w + "\n" else w, Coalesce(toks))
  {
    hide Coalesce;
    if on {
      CoalesceText(Break, toks);
      PrependTwice(w, "\n", Coalesce(toks));
    } else {
      assert Line(on) + toks == toks;
    }
  }

  /** A comment or instruction beside the document element. */
  lemma TopLeafStep(cfg: Config, t: Token, toks: seq<Token>, before: bool, after: bool, w: string)
    requires cfg.nodeSet.None?
    requires (t.Remark? && cfg.withComments) || (t.Instruction? && '\r' !in t.data)
    requires TopRebuilt(cfg, toks, before, after, if after then "\n" else "")
    ensures TopRebuilt(cfg, Line(before) + [t] + Line(after) + toks, before, after, w)
  {
    hide Coalesce, WalkTop, DropText, RenderAll, HasElement, BuildForest, Prepend, Cut;
    var rest := [t] + (Line(after) + toks);
    TopLeafText(cfg, t, toks, before, after);
    assert Line(before) + [t] + Line(after) + toks == Line(before) + rest;
    CoalesceLine(before, rest, w);
    var x := if before then w + "\n" else w;
    if x == "" {
      PrependNothing(Coalesce(rest));
    } else {
      BuildText(x, Coalesce(rest), map[]);
      DropCons(Text(1 + |Coalesce(rest)|, x), BuildForest(Coalesce(rest), map[]).0);
    }
  }

  lemma TopLeafText(cfg: Config, t: Token, toks: seq<Token>, before: bool, after: bool)
    requires cfg.nodeSet.None?
    requires (t.Remark? && cfg.withComments) || (t.Instruction? && '\r' !in t.data)
    requires TopRebuilt(cfg, toks, before, after, if after then "\n" else "")
    ensures var ts := Coalesce([t] + (Line(after) + toks)); var r := BuildForest(ts, map[]);
      && Cut(ts) && r.1 == [] && HasElement(DropText(r.0)) == after
      && RenderAll(WalkTop(cfg, DropText(r.0), before)) == RenderAll(Line(before) + [t] + Line(after) + toks)
  {
    hide Coalesce, WalkTop, DropText, RenderAll, HasElement, BuildForest, TopNode, Prepend, Cut;
    var tail := Line(after) + toks;
    CoalesceLine(after, toks, "");
    PrependNothing(Coalesce(tail));
    assert "" + "\n" == "\n";
    var ts := Coalesce(tail);
    CoalesceMarkup(t, tail);
    var leaf := ReadLeaf(t, |ts|);
    LeafRead(t, ts, map[]);
    TopLeafWritten(cfg, t, |ts|, before, after);
    var kept := DropText(BuildForest(ts, map[]).0);
    DropCons(leaf, BuildForest(ts, map[]).0);
    WalkTopCons(cfg, leaf, kept, before);
    HasElementCons(leaf, kept);
    RenderConcat(Line(before) + [t] + Line(after), WalkTop(cfg, kept, before));
    RenderConcat(Line(before) + [t] + Line(after), toks);
  }

  lemma PrependNothing(ts: seq<Token>)
    ensures Prepend("", ts) == ts
  {
  }

  /** The node read for a comment or instruction with `n` tokens after it. */
  function ReadLeaf(t: Token, n: nat): Node
    requires t.Remark? || t.Instruction?
  {
    if t.Remark? then Comment(1 + n, t.text)
    else PI(1 + n, t.target, if t.data == "" then None else Some(t.data))
  }

  lemma LeafRead(t: Token, ts: seq<Token>, ctx: NsMap)
    requires t.Remark? || t.Instruction?
    ensures BuildForest([t] + ts, ctx) == ([ReadLeaf(t, |ts|)] + BuildForest(ts, ctx).0, BuildForest(ts, ctx).1)
  {
    assert ([t] + ts)[1..] == ts;
  }

  lemma LeafWritten(cfg: Config, t: Token, n: nat, chain: seq<Frame>, ctx: NsMap)
    requires cfg.nodeSet.None?
    requires (t.Remark? && cfg.withComments) || (t.Instruction? && '\r' !in t.data)
    ensures WalkNode(cfg, ReadLeaf(t, n), chain, ctx) == [t]
  {
    if t.Instruction? {
      EscPiPlain(t.data);
    }
    hide EscPi;
  }

  lemma TopLeafWritten(cfg: Config, t: Token, n: nat, before: bool, after: bool)
    requires cfg.nodeSet.None?
    requires (t.Remark? && cfg.withComments) || (t.Instruction? && '\r' !in t.data)
    ensures TopNode(cfg, ReadLeaf(t, n), before, after) == Line(before) + [t] + Line(after)
  {
    hide WalkNode;
    LeafWritten(cfg, t, n, [], map[]);
  }

  lemma {:induction false} TopElementStep(cfg: Config, n: Node, toks: seq<Token>, before: bool, elements: bool, w: string)
    requires cfg.nodeSet.None? && n.Elem? && WellFormedNode(n, [])
    requires TopRebuilt(cfg, toks, true, elements, "")
    ensures TopRebuilt(cfg, WalkNode(cfg, n, [], map[]) + toks, before, true, w)
  {
    hide Coalesce, Walk, WellFormedElement, ChildCtx, Declared, WalkTop, RenderAll, BuildForest, DropText, HasElement, Each;
    var here := [Frame(n.id, n.elem)] + [];
    var s, e := StartTag(cfg, here, map[]), End(TagName(n.elem));
    var body := Walk(cfg, n.children, here, ChildCtx(cfg, here, map[]));
    assert WalkNode(cfg, n, [], map[]) == [s] + body + [e];
    var ts := Coalesce([s] + body + [e] + toks);
    var inner := Declared(map[], s.decls);
    var el := Again(cfg, here, map[], map[]);
    assert el == ReadTagElement(s, inner);
    var here2 := [Frame(|ts|, el)] + [];
    assert here[1..] == [] && here2[1..] == [];
    AlignedAtStart(cfg);
    hide ReadTagElement, Again, DeclList, TagDecls, TagAttrs, ToFields, Aligned;
    TagAgain(cfg, here, map[], map[], here2, map[]);
    Rebuild(cfg, n.children, here, ChildCtx(cfg, here, map[]), inner, here2, ChildCtx(cfg, here2, map[]), "", [e] + toks);
    EscNothing();
    BuildElement(s, body, e, toks, map[]);
    var kids := BuildForest(Coalesce(body + ([e] + toks)), inner).0;
    var more := BuildForest(Coalesce(toks), map[]).0;
    var n2 := Elem(|ts|, el, kids);
    RenderWalkNothing(cfg);
    ElementText(cfg, s, e, body, [], n2, [], [], map[]);
    var kept := DropText(more);
    DropCons(n2, more);
    HasElementCons(n2, kept);
    TopElementText(cfg, n2, kept, before);
    RenderConcat([s] + body + [e], toks);
    TopTextFirst(cfg, [s] + body + [e] + toks, before, true, w);
  }

  lemma TopElementText(cfg: Config, n: Node, ns: seq<Node>, before: bool)
    requires n.Elem?
    ensures RenderAll(WalkTop(cfg, [n] + ns, before)) ==
      RenderAll(WalkNode(cfg, n, [], map[])) + RenderAll(WalkTop(cfg, ns, true))
  {
    hide WalkNode, RenderAll, WalkTop;
    WalkTopCons(cfg, n, ns, before);
    RenderConcat(WalkNode(cfg, n, [], map[]), WalkTop(cfg, ns, true));
  }

  lemma RenderWalkNothing(cfg: Config)
    ensures RenderAll(Walk(cfg, [], [], map[])) == "" == RenderAll([])
  {
    RenderEmpty();
  }

  lemma AlignedAtStart(cfg: Config)
    ensures Aligned(cfg, [], map[], map[], [], map[])
  {
  }

  lemma {:induction false} RebuildTop(cfg: Config, ns: seq<Node>, before: bool, w: string)
    requires cfg.nodeSet.None? && WellFormedForest(ns, [])
    requires forall i :: 0 <= i < |ns| ==> !ns[i].Text? && !ns[i].CData?
    ensures TopRebuilt(cfg, WalkTop(cfg, ns, before), before, HasElement(ns), w)
  {
    hide TopRebuilt, Coalesce, WellFormedElement, Contains, NameText;
    if ns == [] {
      TopNothing(cfg, before);
      TopTextFirst(cfg, [], before, false, w);
      assert WalkTop(cfg, ns, before) == [];
    } else {
      var n, rest := ns[0], ns[1..];
      var toks := WalkTop(cfg, rest, before || n.Elem?);
      var after := HasElement(rest);
      assert ns == [n] + rest;
      WalkTopCons(cfg, n, rest, before);
      HasElementCons(n, rest);
      TopNodeParts(cfg, n, before, after);
      hide *;
      if n.Elem? {
        RebuildTop(cfg, rest, true, "");
        TopElementStep(cfg, n, toks, before, after, w);
      } else if n.PI? || cfg.withComments {
        RebuildTop(cfg, rest, before, if after then "\n" else "");
        var t := LeafToken(n);
        LeafTokenPlain(n);
        TopLeafStep(cfg, t, toks, before, after, w);
      } else {
        RebuildTop(cfg, rest, before, w);
        assert [] + toks == toks;
      }
    }
  }

  function LeafToken(n: Node): Token
    requires n.PI? || n.Comment?
  {
    if n.PI? then InstructionToken(n.target, n.data) else Remark(n.text)
  }

  lemma LeafTokenPlain(n: Node)
    requires n.PI? || n.Comment?
    ensures var t := LeafToken(n); (n.Comment? && t.Remark?) || (t.Instruction? && '\r' !in t.data)
  {
    if n.PI? {
      InstructionPlain(n.target, n.data);
    }
  }

  lemma TopNodeParts(cfg: Config, n: Node, before: bool, after: bool)
    requires cfg.nodeSet.None?
    ensures n.Elem? ==> TopNode(cfg, n, before, after) == WalkNode(cfg, n, [], map[])
    ensures n.PI? || (n.Comment? && cfg.withComments) ==>
      TopNode(cfg, n, before, after) == Line(before) + [LeafToken(n)] + Line(after)
    ensures n.Comment? && !cfg.withComments ==> TopNode(cfg, n, before, after) == []
  {
    hide InstructionToken;
  }

  lemma TopNothing(cfg: Config, before: bool)
    ensures TopRebuilt(cfg, [], before, false, "") && Cut(Coalesce([]))
  {
  }

  /** Canonicalization is idempotent: for every well-formed document and in every mode, reading
      the canonical text and canonicalizing the document read gives the same text. */
  lemma C14nIdempotent(cfg: Config, doc: Document)
    requires cfg.nodeSet.None? && WellFormedDoc(doc)
    ensures Read(C14n(cfg, doc)).Some?
    ensures C14n(cfg, Read(C14n(cfg, doc)).value) == C14n(cfg, doc)
  {
    hide Lex, Coalesce, RenderAll, WalkTop, BuildForest, DropText, HasElement, WellFormedForest;
    CanonIsReadable(cfg, doc);
    RebuildTop(cfg, doc.children, false, "");
  }
}
