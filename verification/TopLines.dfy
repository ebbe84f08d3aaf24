/**
 The line breaks beside the document element: which comments and instructions get one, and
 how much text they add.
 */
module TopLines {
  import opened Dom
  import opened Tokens
  import opened Canonical

  /** A comment or instruction that is written. */
  predicate RenderedLeaf(cfg: Config, n: Node) {
    (n.PI? || (n.Comment? && cfg.withComments)) && Visible(cfg, n.id)
  }

  /** No comment or instruction is written before the first element. */
  predicate NoLeading(cfg: Config, ns: seq<Node>) {
    ns == [] || ns[0].Elem? || (!RenderedLeaf(cfg, ns[0]) && NoLeading(cfg, ns[1..]))
  }

  function Breaks(cfg: Config, n: Node, before: bool, after: bool): nat {
    if RenderedLeaf(cfg, n) then (if before then 1 else 0) + (if after then 1 else 0) else 0
  }

  /** The length of the text. */
  function Length(ts: seq<Token>): nat {
    |RenderAll(ts)|
  }

  lemma LengthConcat(a: seq<Token>, b: seq<Token>)
    ensures Length(a + b) == Length(a) + Length(b)
  {
    RenderConcat(a, b);
  }

  /** Every line break adds one character, and nothing else depends on the elements around. */
  lemma TopNodeLength(cfg: Config, n: Node, before: bool, after: bool)
    ensures Length(TopNode(cfg, n, before, after)) == Length(WalkNode(cfg, n, [], map[])) + Breaks(cfg, n, before, after)
    ensures !RenderedLeaf(cfg, n) ==> TopNode(cfg, n, before, after) == WalkNode(cfg, n, [], map[])
  {
    var ts := WalkNode(cfg, n, [], map[]);
    assert (n.Comment? || n.PI?) && ts != [] <==> RenderedLeaf(cfg, n);
    if RenderedLeaf(cfg, n) {
      hide WalkNode, Length, RenderedLeaf;
      var a, b: seq<Token> := if before then [Break] else [], if after then [Break] else [];
      OneBreak();
      LengthConcat(a + ts, b);
      LengthConcat(a, ts);
    }
  }

  lemma OneBreak()
    ensures Length([Break]) == 1 && Length([]) == 0
  {
    RenderEmpty();
  }

  /** What an element further up adds: a break for every leading comment or instruction. */
  lemma {:induction false} LeadingLines(cfg: Config, ns: seq<Node>)
    ensures Length(WalkTop(cfg, ns, true)) >= Length(WalkTop(cfg, ns, false))
    ensures Length(WalkTop(cfg, ns, true)) == Length(WalkTop(cfg, ns, false)) <==> NoLeading(cfg, ns)
    ensures NoLeading(cfg, ns) ==> WalkTop(cfg, ns, true) == WalkTop(cfg, ns, false)
  {
    if ns != [] {
      var n, rest := ns[0], ns[1..];
      LeadingLines(cfg, rest);
      assert ns == [n] + rest;
      WalkTopCons(cfg, n, rest, true);
      WalkTopCons(cfg, n, rest, false);
      var after := HasElement(rest);
      TopNodeLength(cfg, n, true, after);
      TopNodeLength(cfg, n, false, after);
      assert n.Elem? ==> !RenderedLeaf(cfg, n);
      hide WalkTop, WalkNode, TopNode, Length, RenderedLeaf, HasElement;
      LengthConcat(TopNode(cfg, n, true, after), WalkTop(cfg, rest, true));
      LengthConcat(TopNode(cfg, n, false, after), WalkTop(cfg, rest, n.Elem?));
    }
  }

  // ---------------------------------------------------------------- the layout of a document

  function NodeText(cfg: Config, n: Node): string {
    RenderAll(WalkNode(cfg, n, [], map[]))
  }

  /** What is written before the document element: each comment and instruction ends its line. */
  function LeadText(cfg: Config, ns: seq<Node>): string {
    if ns == [] then "" else NodeText(cfg, ns[0]) + (if RenderedLeaf(cfg, ns[0]) then "\n" else "") + LeadText(cfg, ns[1..])
  }

  /** What is written after it: each comment and instruction starts a line. */
  function TrailText(cfg: Config, ns: seq<Node>): string {
    if ns == [] then "" else (if RenderedLeaf(cfg, ns[0]) then "\n" else "") + NodeText(cfg, ns[0]) + TrailText(cfg, ns[1..])
  }

  lemma BreakText()
    ensures RenderAll([Break]) == "\n" && RenderAll([]) == ""
  {
    assert RenderToken(Break) + "" == "\n";
  }

  lemma TopNodeText(cfg: Config, n: Node, before: bool, after: bool)
    ensures RenderAll(TopNode(cfg, n, before, after)) ==
      if RenderedLeaf(cfg, n) then (if before then "\n" else "") + NodeText(cfg, n) + (if after then "\n" else "") else NodeText(cfg, n)
  {
    var ts := WalkNode(cfg, n, [], map[]);
    assert (n.Comment? || n.PI?) && ts != [] <==> RenderedLeaf(cfg, n);
    if RenderedLeaf(cfg, n) {
      hide WalkNode, RenderAll, RenderedLeaf;
      var a, b: seq<Token> := if before then [Break] else [], if after then [Break] else [];
      BreakText();
      RenderConcat(a + ts, b);
      RenderConcat(a, ts);
    }
  }

  lemma {:induction false} TrailingText(cfg: Config, ns: seq<Node>)
    requires !HasElement(ns)
    ensures RenderAll(WalkTop(cfg, ns, true)) == TrailText(cfg, ns)
  {
    NothingWritten(cfg);
    hide WalkTop, RenderAll, NodeText, RenderedLeaf, HasElement;
    if ns != [] {
      var n, rest := ns[0], ns[1..];
      assert ns == [n] + rest;
      HasElementCons(n, rest);
      TrailingText(cfg, rest);
      TrailNode(cfg, n, rest);
    }
  }

  lemma NothingWritten(cfg: Config)
    ensures RenderAll(WalkTop(cfg, [], true)) == ""
  {
    BreakText();
  }

  /** One node after the document element. */
  lemma TrailNode(cfg: Config, n: Node, rest: seq<Node>)
    requires !n.Elem? && !HasElement(rest)
    ensures RenderAll(WalkTop(cfg, [n] + rest, true)) ==
      (if RenderedLeaf(cfg, n) then "\n" else "") + NodeText(cfg, n) + RenderAll(WalkTop(cfg, rest, true))
  {
    TopNodeText(cfg, n, true, false);
    hide WalkTop, TopNode, RenderAll, NodeText, RenderedLeaf, HasElement;
    WalkTopCons(cfg, n, rest, true);
    RenderConcat(TopNode(cfg, n, true, false), WalkTop(cfg, rest, true));
  }

  /** The document element and what follows it. */
  lemma ElementText(cfg: Config, e: Node, trail: seq<Node>)
    requires e.Elem? && !HasElement(trail)
    ensures RenderAll(WalkTop(cfg, [e] + trail, false)) == NodeText(cfg, e) + TrailText(cfg, trail)
  {
    TrailingText(cfg, trail);
    TopNodeText(cfg, e, false, HasElement(trail));
    assert !RenderedLeaf(cfg, e);
    hide WalkTop, TopNode, RenderAll, NodeText, RenderedLeaf, HasElement;
    WalkTopCons(cfg, e, trail, false);
    RenderConcat(TopNode(cfg, e, false, HasElement(trail)), WalkTop(cfg, trail, true));
  }

  /** One node before the document element. */
  lemma LeadingText(cfg: Config, n: Node, rest: seq<Node>)
    requires !n.Elem? && HasElement(rest)
    ensures RenderAll(WalkTop(cfg, [n] + rest, false)) ==
      NodeText(cfg, n) + (if RenderedLeaf(cfg, n) then "\n" else "") + RenderAll(WalkTop(cfg, rest, false))
  {
    TopNodeText(cfg, n, false, true);
    hide WalkTop, TopNode, RenderAll, NodeText, RenderedLeaf, HasElement;
    WalkTopCons(cfg, n, rest, false);
    RenderConcat(TopNode(cfg, n, false, true), WalkTop(cfg, rest, false));
  }

  /** A document is its leading lines, its document element and its trailing lines. */
  lemma {:induction false} DocumentLayout(cfg: Config, lead: seq<Node>, e: Node, trail: seq<Node>)
    requires !HasElement(lead) && e.Elem? && !HasElement(trail)
    ensures RenderAll(WalkTop(cfg, lead + ([e] + trail), false)) == LeadText(cfg, lead) + (NodeText(cfg, e) + TrailText(cfg, trail))
  {
    hide WalkTop, RenderAll, NodeText, TrailText, RenderedLeaf, HasElement;
    ElementText(cfg, e, trail);
    var tail := [e] + trail;
    if lead == [] {
      assert lead + tail == tail;
    } else {
      var n, more := lead[0], lead[1..];
      assert lead == [n] + more && lead + tail == [n] + (more + tail);
      HasElementCons(n, more);
      DocumentLayout(cfg, more, e, trail);
      ElementThere(more, e, trail);
      LeadingText(cfg, n, more + tail);
      Joined(NodeText(cfg, n) + (if RenderedLeaf(cfg, n) then "\n" else ""), LeadText(cfg, more), NodeText(cfg, e) + TrailText(cfg, trail));
    }
  }

  lemma Joined(a: string, b: string, c: string)
    ensures a + (b + c) == (a + b) + c
  {
  }

  lemma ElementThere(lead: seq<Node>, e: Node, trail: seq<Node>)
    requires e.Elem?
    ensures HasElement(lead + ([e] + trail))
  {
    assert (lead + ([e] + trail))[|lead|] == e;
  }
}
