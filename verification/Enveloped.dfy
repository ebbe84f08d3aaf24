/**
 The enveloped-signature transform takes the Signature subtree out of the node set.  When
 canonicalizing what remains is the same as deleting that subtree from the document.
 */
module Enveloped {
  import opened Dom
  import opened Tokens
  import opened TopLines
  import opened NodeSets
  import opened Namespaces
  import opened Canonical
  import opened Spots
  import opened FullSet
  import opened Removal

  /** Some other element of the list than the one with that id. */
  predicate OtherElement(ns: seq<Node>, id: nat) {
    exists i :: 0 <= i < |ns| && ns[i].Elem? && ns[i].id != id
  }

  /** No comment or instruction that is written beside the element `id` owes a line break to it:
      each one before it is followed, each one after it preceded, by another element. */
  predicate LinesKept(cfg: Config, ns: seq<Node>, id: nat, before: bool) {
    if ns == [] then true
    else if ns[0].id == id then before || NoLeading(cfg, ns[1..])
    else (RenderedLeaf(cfg, ns[0]) ==> OtherElement(ns[1..], id)) && LinesKept(cfg, ns[1..], id, before || ns[0].Elem?)
  }

  predicate LinesStay(cfg: Config, sig: Node, ns: seq<Node>, before: bool) {
    sig in ns && sig.Elem? ==> LinesKept(cfg, ns, sig.id, before)
  }

  /** When removing a subtree is deleting it: if no namespace node of it is still written, and if it
      is not an element beside the document node whose line breaks would be missed. */
  predicate Removable(cfg: Config, doc: Document, sig: Node) {
    Clean(cfg, Ids(sig), doc.children, [], map[]) && LinesStay(cfg, sig, doc.children, false)
  }

  lemma {:induction false} DeleteElements(ns: seq<Node>, id: nat)
    ensures HasElement(Delete(ns, id)) <==> OtherElement(ns, id)
  {
    if ns != [] {
      var n, rest := ns[0], ns[1..];
      DeleteElements(rest, id);
      assert forall i :: 0 < i < |ns| ==> ns[i] == rest[i - 1];
      if OtherElement(rest, id) {
        var i :| 0 <= i < |rest| && rest[i].Elem? && rest[i].id != id;
        assert ns[i + 1] == rest[i];
      }
      if n.id == id {
        assert Delete(ns, id) == Delete(rest, id);
      } else {
        HasElementCons(DeleteIn(n, id), Delete(rest, id));
      }
    }
  }

  /** Beside a subtree that is no top-level element, deleting it takes no element away. */
  lemma {:induction false} ElementsStay(sig: Node, ns: seq<Node>)
    requires UniqueIds(ns) && Occurs(sig, ns) && !(sig in ns && sig.Elem?)
    ensures HasElement(Delete(ns, sig.id)) == HasElement(ns)
  {
    DeleteElements(ns, sig.id);
    if HasElement(ns) {
      var i :| 0 <= i < |ns| && ns[i].Elem?;
      if ns[i].id == sig.id {
        TopUnique(sig, ns, i);
        assert ns[i] in ns;
      }
    }
  }

  lemma {:induction false} TopUnique(sig: Node, ns: seq<Node>, i: nat)
    requires UniqueIds(ns) && Occurs(sig, ns) && i < |ns| && ns[i].id == sig.id
    ensures ns[i] == sig
  {
    assert ns[0].id in Ids(ns[0]) && sig.id in Ids(sig);
    if i > 0 {
      IdsOfMember(ns[1..], i - 1);
      if ns[0] != sig {
        if OccursBelow(sig, ns[0]) {
          OccursIds(sig, ns[0].children);
        }
        TopUnique(sig, ns[1..], i - 1);
      }
    } else if ns[0] != sig {
      if OccursBelow(sig, ns[0]) {
        OccursIds(sig, ns[0].children);
      } else {
        OccursIds(sig, ns[1..]);
      }
    }
  }

  // ---------------------------------------------------------------- the top level

  lemma SameTop(cfg: Config, gone: set<nat>, n: Node, before: bool, after: bool)
    requires Trims(cfg) && gone !! Ids(n)
    ensures RenderAll(TopNode(Without(cfg, gone), n, before, after)) == RenderAll(TopNode(cfg, n, before, after))
    ensures CleanNode(cfg, gone, n, [], map[])
  {
    hide WalkNode, RenderAll, CleanNode;
    SameNode(cfg, gone, n, [], map[]);
  }

  lemma {:induction false} SameTops(cfg: Config, gone: set<nat>, ns: seq<Node>, before: bool)
    requires Trims(cfg) && gone !! ForestIds(ns)
    ensures RenderAll(WalkTop(Without(cfg, gone), ns, before)) == RenderAll(WalkTop(cfg, ns, before))
    ensures Clean(cfg, gone, ns, [], map[])
  {
    hide TopNode, RenderAll, CleanNode;
    if ns != [] {
      var after, less := HasElement(ns[1..]), Without(cfg, gone);
      SameTop(cfg, gone, ns[0], before, after);
      SameTops(cfg, gone, ns[1..], before || ns[0].Elem?);
      RenderConcat(TopNode(cfg, ns[0], before, after), WalkTop(cfg, ns[1..], before || ns[0].Elem?));
      RenderConcat(TopNode(less, ns[0], before, after), WalkTop(less, ns[1..], before || ns[0].Elem?));
    }
  }

  /** A comment or instruction loses its second break if no element follows any more. */
  lemma BreakGap(cfg: Config, n: Node, before: bool, after: bool)
    ensures Gap(RenderAll(TopNode(cfg, n, before, true)), RenderAll(TopNode(cfg, n, before, after)), RenderedLeaf(cfg, n) ==> after)
  {
    TopNodeLength(cfg, n, before, true);
    TopNodeLength(cfg, n, before, after);
    hide WalkNode, RenderAll;
  }

  lemma TopCons(less: Config, cfg: Config, n: Node, rest: seq<Node>, kept: Node, more: seq<Node>, before: bool, p: bool, q: bool)
    requires n.Elem? == kept.Elem?
    requires Gap(RenderAll(TopNode(less, n, before, HasElement(rest))), RenderAll(TopNode(cfg, kept, before, HasElement(more))), p)
    requires Gap(RenderAll(WalkTop(less, rest, before || n.Elem?)), RenderAll(WalkTop(cfg, more, before || n.Elem?)), q)
    ensures Gap(RenderAll(WalkTop(less, [n] + rest, before)), RenderAll(WalkTop(cfg, [kept] + more, before)), p && q)
  {
    var a, b := TopNode(less, n, before, HasElement(rest)), WalkTop(less, rest, before || n.Elem?);
    var c, d := TopNode(cfg, kept, before, HasElement(more)), WalkTop(cfg, more, before || n.Elem?);
    WalkTopCons(less, n, rest, before);
    WalkTopCons(cfg, kept, more, before);
    hide *;
    RenderConcat(a, b);
    RenderConcat(c, d);
    GapConcat(RenderAll(a), RenderAll(c), p, RenderAll(b), RenderAll(d), q);
  }

  /** Hiding a subtree leaves at least as much text as deleting it, and the same text exactly if it
      is clean and the lines stay. */
  lemma {:induction false} TopGap(cfg: Config, sig: Node, ns: seq<Node>, before: bool)
    requires Trims(cfg) && UniqueIds(ns) && Occurs(sig, ns)
    ensures Gap(RenderAll(WalkTop(Without(cfg, Ids(sig)), ns, before)), RenderAll(WalkTop(cfg, Delete(ns, sig.id), before)),
                Clean(cfg, Ids(sig), ns, [], map[]) && LinesStay(cfg, sig, ns, before))
  {
    var n, rest := ns[0], ns[1..];
    assert ns == [n] + rest && sig.id in Ids(sig) && n.id in Ids(n);
    if n == sig {
      hide WalkTop, RenderAll, LinesKept;
      GapAtTop(cfg, sig, rest, before);
    } else if OccursBelow(sig, n) {
      GapBelow(cfg, sig, n, [], map[]);
      Untouched(rest, sig.id);
      assert Delete(ns, sig.id) == [DeleteIn(n, sig.id)] + rest;
      NotAtTop(sig, ns);
      hide *;
      GapInElement(cfg, sig, n, rest, before);
    } else {
      OccursIds(sig, rest);
      UntouchedNode(n, sig.id);
      assert Delete(ns, sig.id) == [n] + Delete(rest, sig.id);
      TopGap(cfg, sig, rest, before || n.Elem?);
      hide *;
      GapBeside(cfg, sig, n, rest, before);
    }
  }

  lemma NotAtTop(sig: Node, ns: seq<Node>)
    requires UniqueIds(ns) && ns != [] && ns[0] != sig && OccursBelow(sig, ns[0])
    ensures sig !in ns
  {
    OccursIds(sig, ns[0].children);
    assert sig.id in Ids(sig);
    if sig in ns {
      var k :| 0 <= k < |ns| && ns[k] == sig;
      IdsOfMember(ns[1..], k - 1);
    }
  }

  lemma GapAtTop(cfg: Config, sig: Node, rest: seq<Node>, before: bool)
    requires Trims(cfg) && Ids(sig) !! ForestIds(rest)
    ensures var ns := [sig] + rest;
      Gap(RenderAll(WalkTop(Without(cfg, Ids(sig)), ns, before)), RenderAll(WalkTop(cfg, Delete(ns, sig.id), before)),
          Clean(cfg, Ids(sig), ns, [], map[]) && LinesStay(cfg, sig, ns, before))
  {
    var less, lines := Without(cfg, Ids(sig)), sig.Elem? ==> before || NoLeading(cfg, rest);
    assert sig.id in Ids(sig);
    hide *;
    var after := HasElement(rest);
    DeleteFirst(sig, rest);
    CleanCons(cfg, Ids(sig), sig, rest);
    LinesHere(cfg, sig, rest, before);
    SameTops(cfg, Ids(sig), rest, before || sig.Elem?);
    WalkTopCons(less, sig, rest, before);
    HiddenTop(cfg, sig, before, after);
    LinesGap(cfg, sig, rest, before);
    var a, b, c := TopNode(less, sig, before, after), WalkTop(less, rest, before || sig.Elem?), WalkTop(cfg, rest, before);
    RenderConcat(a, b);
    GapConcat(RenderAll(a), "", CleanNode(cfg, Ids(sig), sig, [], map[]), RenderAll(b), RenderAll(c), lines);
    EmptyFirst(RenderAll(c));
  }

  lemma EmptyFirst(a: string)
    ensures "" + a == a
  {
  }

  lemma DeleteFirst(n: Node, rest: seq<Node>)
    requires n.id !in ForestIds(rest)
    ensures Delete([n] + rest, n.id) == rest
  {
    assert ([n] + rest)[1..] == rest;
    Untouched(rest, n.id);
  }

  lemma LinesHere(cfg: Config, sig: Node, rest: seq<Node>, before: bool)
    ensures LinesStay(cfg, sig, [sig] + rest, before) <==> (sig.Elem? ==> before || NoLeading(cfg, rest))
  {
    var ns := [sig] + rest;
    assert ns[0] == sig && ns[1..] == rest && sig in ns;
  }

  lemma HiddenTop(cfg: Config, sig: Node, before: bool, after: bool)
    requires Trims(cfg)
    ensures Gap(RenderAll(TopNode(Without(cfg, Ids(sig)), sig, before, after)), "", CleanNode(cfg, Ids(sig), sig, [], map[]))
  {
    HiddenNode(cfg, Ids(sig), sig, [], map[]);
    assert sig.id in Ids(sig);
    assert !sig.Elem? ==> WalkNode(Without(cfg, Ids(sig)), sig, [], map[]) == [];
    hide WalkNode, RenderAll, CleanNode;
  }

  /** What an element that is only hidden adds to the lines after it. */
  lemma LinesGap(cfg: Config, sig: Node, rest: seq<Node>, before: bool)
    ensures Gap(RenderAll(WalkTop(cfg, rest, before || sig.Elem?)), RenderAll(WalkTop(cfg, rest, before)), sig.Elem? ==> before || NoLeading(cfg, rest))
  {
    hide WalkTop, RenderAll, NoLeading;
    LeadingLines(cfg, rest);
  }

  lemma GapInElement(cfg: Config, sig: Node, n: Node, rest: seq<Node>, before: bool)
    requires Trims(cfg) && n.Elem? && Ids(sig) !! ForestIds(rest) && sig !in [n] + rest
    requires Gap(RenderAll(WalkNode(Without(cfg, Ids(sig)), n, [], map[])), RenderAll(WalkNode(cfg, DeleteIn(n, sig.id), [], map[])),
                 CleanNode(cfg, Ids(sig), n, [], map[]))
    ensures var ns := [n] + rest;
      Gap(RenderAll(WalkTop(Without(cfg, Ids(sig)), ns, before)), RenderAll(WalkTop(cfg, [DeleteIn(n, sig.id)] + rest, before)),
          Clean(cfg, Ids(sig), ns, [], map[]) && LinesStay(cfg, sig, ns, before))
  {
    var ns, less, kept := [n] + rest, Without(cfg, Ids(sig)), DeleteIn(n, sig.id);
    hide *;
    var clean := CleanNode(cfg, Ids(sig), n, [], map[]);
    CleanCons(cfg, Ids(sig), n, rest);
    SameTops(cfg, Ids(sig), rest, true);
    DeletedElement(n, sig.id);
    TopOfElement(less, n, before, HasElement(rest));
    TopOfElement(cfg, kept, before, HasElement(rest));
    GapNothing(RenderAll(WalkTop(less, rest, true)));
    TopCons(less, cfg, n, rest, kept, rest, before, clean, true);
    LinesElsewhere(cfg, sig, ns, before);
  }

  lemma CleanCons(cfg: Config, gone: set<nat>, n: Node, rest: seq<Node>)
    ensures Clean(cfg, gone, [n] + rest, [], map[]) <==> CleanNode(cfg, gone, n, [], map[]) && Clean(cfg, gone, rest, [], map[])
  {
    hide CleanNode;
    assert ([n] + rest)[1..] == rest;
  }

  lemma DeletedElement(n: Node, id: nat)
    requires n.Elem?
    ensures DeleteIn(n, id).Elem?
  {
  }

  lemma TopOfElement(cfg: Config, n: Node, before: bool, after: bool)
    requires n.Elem?
    ensures TopNode(cfg, n, before, after) == WalkNode(cfg, n, [], map[])
  {
    hide WalkNode;
  }

  lemma LinesElsewhere(cfg: Config, sig: Node, ns: seq<Node>, before: bool)
    requires sig !in ns
    ensures LinesStay(cfg, sig, ns, before)
  {
  }

  lemma GapBeside(cfg: Config, sig: Node, n: Node, rest: seq<Node>, before: bool)
    requires Trims(cfg) && Ids(sig) !! Ids(n) && n.id != sig.id && n != sig && UniqueIds(rest) && Occurs(sig, rest)
    requires Gap(RenderAll(WalkTop(Without(cfg, Ids(sig)), rest, before || n.Elem?)), RenderAll(WalkTop(cfg, Delete(rest, sig.id), before || n.Elem?)),
                 Clean(cfg, Ids(sig), rest, [], map[]) && LinesStay(cfg, sig, rest, before || n.Elem?))
    ensures var ns := [n] + rest;
      Gap(RenderAll(WalkTop(Without(cfg, Ids(sig)), ns, before)), RenderAll(WalkTop(cfg, [n] + Delete(rest, sig.id), before)),
          Clean(cfg, Ids(sig), ns, [], map[]) && LinesStay(cfg, sig, ns, before))
  {
    var ns, less, more := [n] + rest, Without(cfg, Ids(sig)), Delete(rest, sig.id);
    var broken := sig in rest && sig.Elem? && RenderedLeaf(cfg, n) ==> HasElement(more);
    hide *;
    SameTop(cfg, Ids(sig), n, before, HasElement(rest));
    CleanCons(cfg, Ids(sig), n, rest);
    LinesBeside(cfg, sig, n, rest, before);
    BreakGap(cfg, n, before, HasElement(more));
    if sig in rest && sig.Elem? {
      ElementThere(rest, sig);
    } else {
      ElementsStay(sig, rest);
      GapNothing(RenderAll(TopNode(cfg, n, before, HasElement(rest))));
    }
    TopCons(less, cfg, n, rest, n, more, before, broken, Clean(cfg, Ids(sig), rest, [], map[]) && LinesStay(cfg, sig, rest, before || n.Elem?));
  }

  lemma ElementThere(ns: seq<Node>, n: Node)
    requires n in ns && n.Elem?
    ensures HasElement(ns)
  {
    var k :| 0 <= k < |ns| && ns[k] == n;
  }

  lemma LinesBeside(cfg: Config, sig: Node, n: Node, rest: seq<Node>, before: bool)
    requires n != sig && n.id != sig.id
    ensures LinesStay(cfg, sig, [n] + rest, before) <==>
      (sig in rest && sig.Elem? && RenderedLeaf(cfg, n) ==> HasElement(Delete(rest, sig.id))) && LinesStay(cfg, sig, rest, before || n.Elem?)
  {
    hide RenderedLeaf, HasElement, Delete, OtherElement;
    var ns := [n] + rest;
    assert ns[0] == n && ns[1..] == rest;
    DeleteElements(rest, sig.id);
  }

  /** For every subtree of the document, every mode and every node set: canonicalizing without its
      nodes gives the text of the document from which it was deleted, if and only if none of its
      namespace nodes stays behind and no line break is missed. */
  lemma EnvelopedIsDeletion(cfg: Config, doc: Document, sig: Node)
    requires Trims(cfg) && UniqueIds(doc.children) && Occurs(sig, doc.children)
    ensures C14n(Without(cfg, Ids(sig)), doc) == C14n(cfg, Document(doc.rootId, Delete(doc.children, sig.id)))
            <==> Removable(cfg, doc, sig)
  {
    hide WalkTop, RenderAll, Clean, LinesStay;
    TopGap(cfg, sig, doc.children, false);
  }

  /** For a document whose only element is the subtree that condition says that no comment or
      instruction beside it is written. */
  lemma {:induction false} SoleElement(cfg: Config, ns: seq<Node>, id: nat, k: nat)
    requires k < |ns| && ns[k].Elem? && ns[k].id == id
    requires forall i :: 0 <= i < |ns| && i != k ==> !ns[i].Elem? && ns[i].id != id
    ensures LinesKept(cfg, ns, id, false) <==> forall i :: 0 <= i < |ns| ==> !RenderedLeaf(cfg, ns[i])
  {
    var n, rest := ns[0], ns[1..];
    assert forall i :: 0 < i < |ns| ==> ns[i] == rest[i - 1];
    if k == 0 {
      LeadingLeaves(cfg, rest);
    } else {
      assert !OtherElement(rest, id);
      SoleElement(cfg, rest, id, k - 1);
    }
  }

  lemma {:induction false} LeadingLeaves(cfg: Config, ns: seq<Node>)
    requires forall i :: 0 <= i < |ns| ==> !ns[i].Elem?
    ensures NoLeading(cfg, ns) <==> forall i :: 0 <= i < |ns| ==> !RenderedLeaf(cfg, ns[i])
  {
    if ns != [] {
      LeadingLeaves(cfg, ns[1..]);
      assert forall i :: 0 < i < |ns| ==> ns[i] == ns[1..][i - 1];
    }
  }

  lemma {:induction false} DeleteShrinks(ns: seq<Node>, id: nat)
    ensures ForestIds(Delete(ns, id)) <= ForestIds(ns)
    decreases ns
  {
    if ns != [] {
      if ns[0].Elem? {
        DeleteShrinks(ns[0].children, id);
      }
      DeleteShrinks(ns[1..], id);
      if ns[0].id == id {
        assert Delete(ns, id) == Delete(ns[1..], id);
      } else {
        var kept := DeleteIn(ns[0], id);
        assert Delete(ns, id) == [kept] + Delete(ns[1..], id);
        IdsOfConcat([kept], Delete(ns[1..], id));
        assert ForestIds([kept]) == Ids(kept) + ForestIds([]);
      }
    }
  }

  /** The transform on a whole document: what is digested is the canonical form of the document
      without its signature, as if that had never been there. */
  lemma EnvelopedOnWholeDocument(mode: Mode, withComments: bool, doc: Document, sig: Node)
    requires UniqueIds(doc.children) && Occurs(sig, doc.children)
    ensures C14n(Config(mode, withComments, Some(FromIds(All(doc).nodes - Ids(sig)))), doc)
         == C14n(Config(mode, withComments, None), Document(doc.rootId, Delete(doc.children, sig.id)))
         <==> Removable(Config(mode, withComments, None), doc, sig)
  {
    var cfg := Config(mode, withComments, Some(All(doc)));
    var rest := Document(doc.rootId, Delete(doc.children, sig.id));
    EnvelopedIsDeletion(cfg, doc, sig);
    AllLines(mode, withComments, doc, doc.children, sig.id, false);
    NothingFloatsClean(cfg, Ids(sig), doc.children, [], map[]);
    NothingFloatsClean(Config(mode, withComments, None), Ids(sig), doc.children, [], map[]);
    DeleteShrinks(doc.children, sig.id);
    SubtreesIdsComplete(rest.children);
    AllCovers(cfg, rest.children, true);
    CoveringSetIsNoSet(cfg, rest);
  }

  /** With all nodes in the set, the same comments and instructions are written as without a set. */
  lemma {:induction false} AllLines(mode: Mode, withComments: bool, doc: Document, ns: seq<Node>, id: nat, before: bool)
    requires ForestIds(ns) <= ForestIds(doc.children)
    ensures var a, b := Config(mode, withComments, Some(All(doc))), Config(mode, withComments, None);
      LinesKept(a, ns, id, before) == LinesKept(b, ns, id, before) && NoLeading(a, ns) == NoLeading(b, ns)
  {
    if ns != [] {
      assert ns[0].id in Ids(ns[0]);
      AllLines(mode, withComments, doc, ns[1..], id, before || ns[0].Elem?);
    }
  }

  /** The output does not depend on anything inside the signature. */
  lemma EnvelopedIgnoresSignature(mode: Mode, withComments: bool, doc: Document, sig: Node, doc2: Document, sig2: Node)
    requires UniqueIds(doc.children) && Occurs(sig, doc.children) && Removable(Config(mode, withComments, None), doc, sig)
    requires UniqueIds(doc2.children) && Occurs(sig2, doc2.children) && Removable(Config(mode, withComments, None), doc2, sig2)
    requires Delete(doc.children, sig.id) == Delete(doc2.children, sig2.id)
    ensures C14n(Config(mode, withComments, Some(FromIds(All(doc).nodes - Ids(sig)))), doc)
         == C14n(Config(mode, withComments, Some(FromIds(All(doc2).nodes - Ids(sig2)))), doc2)
  {
    EnvelopedOnWholeDocument(mode, withComments, doc, sig);
    EnvelopedOnWholeDocument(mode, withComments, doc2, sig2);
  }

  /** The transform itself. */
  method Execute(nodeSet: Option<NodeSet>, doc: Document, sig: Node) returns (result: NodeSet)
    ensures var start := if nodeSet.Some? then nodeSet.value else All(doc);
      result == start.(nodes := start.nodes - Ids(sig))
  {
    var start := if nodeSet.Some? then nodeSet.value else All(doc);
    var selection := new Selection(start.nodes);
    selection.RemoveSubtree(sig);
    result := start.(nodes := selection.ids);
  }

  /** An instruction before a signature that is the document element: its line break remains. */
  lemma DocumentElementLeavesBreak(sig: Node)
    requires sig == Elem(2, Element(Name(None, "S", None), [], []), [])
    ensures var doc := Document(0, [PI(1, "t", None), sig]);
      C14n(Config(Inclusive, false, Some(FromIds(All(doc).nodes - Ids(sig)))), doc)
        != C14n(Config(Inclusive, false, None), Document(0, Delete(doc.children, 2)))
  {
    var pi := PI(1, "t", None);
    var ns := [pi, sig];
    var doc := Document(0, ns);
    assert ns[1..] == [sig] && [sig][1..] == [];
    OneNode(sig);
    assert Ids(pi) == {1} && UniqueNode(pi) && ns[0] == pi && UniqueIds(ns) && ns[1] == sig && Occurs(sig, ns) && sig in ns;
    EnvelopedOnWholeDocument(Inclusive, false, doc, sig);
    var cfg := Config(Inclusive, false, None);
    SoleElement(cfg, ns, 2, 1);
    assert RenderedLeaf(cfg, ns[0]);
  }
  lemma OneNode(n: Node)
    requires UniqueNode(n)
    ensures ForestIds([n]) == Ids(n) && UniqueIds([n]) && Occurs(n, [n])
  {
    assert [n][1..] == [];
  }

  /** A set that still shows a namespace node of the signature: its declaration is written between
      the tags, although the signature is gone. */
  lemma NamespaceNodeStays(sig: Node, cfg: Config)
    requires sig == Elem(2, Element(Name(None, "S", None), [Binding("p", "u")], []), [])
    requires cfg == Config(Inclusive, false, Some(NodeSet({1, 2}, Normal, Some(map[(2, "p") := true]), false)))
    ensures var doc := Document(0, [Elem(1, Element(Name(None, "a", None), [], []), [sig])]);
      C14n(Without(cfg, Ids(sig)), doc) != C14n(cfg, Document(0, Delete(doc.children, 2)))
  {
    var ea := Element(Name(None, "a", None), [], []);
    var outer := Elem(1, ea, [sig]);
    OneNode(sig);
    assert Ids(sig) == {2} && UniqueNode(outer);
    OneNode(outer);
    assert OccursBelow(sig, outer) && Occurs(sig, [outer]);
    EnvelopedIsDeletion(cfg, Document(0, [outer]), sig);
    var ha := [Frame(1, ea)] + [];
    var hs := [Frame(2, sig.elem)] + ha;
    assert hs[1..] == ha && ha[1..] == [];
    StrayBinding(cfg, hs, ha);
    hide FloatingDecls, ChildCtx;
    assert [sig][0] == sig && [outer][0] == outer;
    assert !CleanNode(cfg, {2}, sig, ha, ChildCtx(cfg, ha, map[]));
    assert !Clean(cfg, {2}, [sig], ha, ChildCtx(cfg, ha, map[]));
    assert !CleanNode(cfg, {2}, outer, [], map[]);
  }

  lemma StrayBinding(cfg: Config, hs: seq<Frame>, ha: seq<Frame>)
    requires cfg == Config(Inclusive, false, Some(NodeSet({1, 2}, Normal, Some(map[(2, "p") := true]), false)))
    requires |ha| == 1 && ha[0].elem.decls == [] && |hs| == 2 && hs[1..] == ha && hs[0].id == 2 && hs[0].elem.decls == [Binding("p", "u")]
    ensures FloatingDecls(cfg, hs, ChildCtx(cfg, ha, map[])) != map[]
  {
    assert ha[1..] == [] && [Binding("p", "u")][..0] == [];
    assert Level([Binding("p", "u")]) == map["p" := "u"];
    assert Inscope(true, ha) == map[];
    assert "p" in Inscope(true, hs) && Inscope(true, hs)["p"] == "u";
    assert "p" in ShownNs(cfg, hs) && ChildCtx(cfg, ha, map[]) == map[];
    assert "p" in FloatingDecls(cfg, hs, map[]);
  }
}
