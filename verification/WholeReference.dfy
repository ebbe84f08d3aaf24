/**
 References to the whole document: `URI=""` selects all nodes but comments, and what the
 enveloped-signature transform leaves of that is the document without its signature.
 */
module WholeReference {
  import opened Dom
  import opened Ordering
  import opened Render
  import opened Tokens
  import opened NodeSets
  import opened Namespaces
  import opened Canonical
  import opened Spots
  import opened Edits
  import opened FullSet
  import opened Removal
  import opened TopLines
  import opened Enveloped

  /** No comment of the forest is visible. */
  predicate Silent(cfg: Config, ns: seq<Node>)
    decreases ns
  {
    ns == [] || (
      && (ns[0].Comment? ==> !Visible(cfg, ns[0].id))
      && (ns[0].Elem? ==> Silent(cfg, ns[0].children))
      && Silent(cfg, ns[1..]))
  }

  lemma {:induction false} SilentSpots(cfg: Config, ns: seq<Node>, chain: seq<Frame>)
    requires forall s :: s in Spots.Spots(ns, chain) && s.node.Comment? ==> !Visible(cfg, s.node.id)
    ensures Silent(cfg, ns)
    decreases ns
  {
    if ns != [] {
      assert Spot(ns[0], chain) in Spots.Spots(ns, chain);
      if ns[0].Elem? {
        forall s | s in Spots.Spots(ns[0].children, Below(ns[0], chain)) && s.node.Comment? ensures !Visible(cfg, s.node.id) {
          NodeSpotsMember(s, ns[0], chain);
          assert s in Spots.Spots(ns, chain);
        }
        SilentSpots(cfg, ns[0].children, Below(ns[0], chain));
      }
      assert forall s :: s in Spots.Spots(ns[1..], chain) ==> s in Spots.Spots(ns, chain);
      SilentSpots(cfg, ns[1..], chain);
    }
  }

  lemma {:induction false} SilentDeleted(cfg: Config, ns: seq<Node>, id: nat)
    requires Silent(cfg, ns)
    ensures Silent(cfg, Delete(ns, id))
    decreases ns
  {
    if ns != [] {
      if ns[0].Elem? {
        SilentDeleted(cfg, ns[0].children, id);
      }
      SilentDeleted(cfg, ns[1..], id);
      if ns[0].id != id {
        assert Delete(ns, id) == [DeleteIn(ns[0], id)] + Delete(ns[1..], id);
        assert Delete(ns, id)[1..] == Delete(ns[1..], id);
      } else {
        assert Delete(ns, id) == Delete(ns[1..], id);
      }
    }
  }

  /** Comments that are not visible are as good as comments that are not written. */
  function Mute(cfg: Config): Config {
    cfg.(withComments := false)
  }

  lemma {:induction false} SilentWalk(cfg: Config, ns: seq<Node>, chain: seq<Frame>, ctx: NsMap)
    requires Silent(cfg, ns)
    ensures Walk(cfg, ns, chain, ctx) == Walk(Mute(cfg), ns, chain, ctx)
    decreases ns, 0
  {
    hide WalkNode;
    if ns != [] {
      SilentNode(cfg, ns[0], chain, ctx);
      SilentWalk(cfg, ns[1..], chain, ctx);
    }
  }

  lemma {:induction false} SilentNode(cfg: Config, n: Node, chain: seq<Frame>, ctx: NsMap)
    requires (n.Comment? ==> !Visible(cfg, n.id)) && (n.Elem? ==> Silent(cfg, n.children))
    ensures WalkNode(cfg, n, chain, ctx) == WalkNode(Mute(cfg), n, chain, ctx)
    decreases n, 1
  {
    hide Walk;
    if n.Elem? {
      var here := [Frame(n.id, n.elem)] + chain;
      MuteTag(cfg, here, ctx);
      hide StartTag, ChildCtx, FloatingDecls;
      SilentWalk(cfg, n.children, here, ChildCtx(cfg, here, ctx));
      SilentWalk(cfg, n.children, here, ctx);
    }
  }

  lemma MuteTag(cfg: Config, here: seq<Frame>, ctx: NsMap)
    requires here != []
    ensures StartTag(cfg, here, ctx) == StartTag(Mute(cfg), here, ctx) && ChildCtx(cfg, here, ctx) == ChildCtx(Mute(cfg), here, ctx)
    ensures FloatingDecls(cfg, here, ctx) == FloatingDecls(Mute(cfg), here, ctx) && Floats(cfg) == Floats(Mute(cfg))
  {
    var mute := Mute(cfg);
    hide Inscope, Sort, OwnAttrs, InheritedXml, ExtraAttrs, SetBase, AbsoluteBase, DeclList, ToFields;
    assert ShownNs(cfg, here) == ShownNs(mute, here) && NsFiltered(cfg) == NsFiltered(mute);
    assert ParentHidden(cfg, here) == ParentHidden(mute, here);
    assert TagAttrs(cfg, here) == TagAttrs(mute, here);
    hide ShownNs, TagAttrs, Utilized, Changed, ExclusiveDecls, WithoutXml;
    SameTag(cfg, here, mute, here, ctx);
  }

  lemma {:induction false} SilentTop(cfg: Config, ns: seq<Node>, before: bool)
    requires Silent(cfg, ns)
    ensures WalkTop(cfg, ns, before) == WalkTop(Mute(cfg), ns, before)
  {
    hide WalkNode;
    if ns != [] {
      SilentNode(cfg, ns[0], [], map[]);
      SilentTop(cfg, ns[1..], before || ns[0].Elem?);
    }
  }

  lemma {:induction false} DeleteCollects(ns: seq<Node>, id: nat)
    ensures SubtreesIds(Delete(ns, id), false) <= SubtreesIds(ns, false)
    decreases ns
  {
    if ns != [] {
      if ns[0].Elem? {
        DeleteCollects(ns[0].children, id);
      }
      DeleteCollects(ns[1..], id);
      if ns[0].id == id {
        assert Delete(ns, id) == Delete(ns[1..], id);
      } else {
        var kept := DeleteIn(ns[0], id);
        assert Delete(ns, id) == [kept] + Delete(ns[1..], id);
        assert Delete(ns, id)[1..] == Delete(ns[1..], id);
      }
    }
  }

  lemma {:induction false} SilentLines(cfg: Config, ns: seq<Node>, id: nat, before: bool)
    requires cfg.nodeSet.Some? && forall n :: n in ns ==> (Visible(cfg, n.id) <==> !n.Comment?)
    ensures var b := Config(cfg.mode, false, None);
      LinesKept(cfg, ns, id, before) == LinesKept(b, ns, id, before) && NoLeading(cfg, ns) == NoLeading(b, ns)
  {
    if ns != [] {
      assert ns[0] in ns;
      SilentLines(cfg, ns[1..], id, before || ns[0].Elem?);
    }
  }

  /** The nodes that `URI=""` selects show no comment, whatever the canonicalization asks for. */
  lemma PlainDocument(mode: Mode, withComments: bool, doc: Document)
    requires WellIdentified(doc)
    ensures var cfg := Config(mode, withComments, Some(AllWithoutComments(doc)));
      && Silent(cfg, doc.children) && (forall n :: n in doc.children ==> (Visible(cfg, n.id) <==> !n.Comment?))
      && C14n(cfg, doc) == C14n(Config(mode, false, None), doc)
  {
    var cfg := Config(mode, withComments, Some(AllWithoutComments(doc)));
    hide SubtreesIds, WalkTop, RenderAll, Spots.Spots;
    forall s | s in Spots.Spots(doc.children, []) ensures Visible(cfg, s.node.id) <==> !s.node.Comment? {
      CollectedForest(doc.children, [], false, s);
      SpotIdsIn(doc.children, [], s);
    }
    forall n | n in doc.children ensures Visible(cfg, n.id) <==> !n.Comment? {
      TopSpot(doc.children, [], n);
    }
    SilentSpots(cfg, doc.children, []);
    SilentTop(cfg, doc.children, false);
    AllIsNoSet(mode, false, doc);
  }

  /** The transform on what `URI=""` selects: the text of the document without its signature, and
      without comments. */
  lemma EnvelopedOnReference(mode: Mode, withComments: bool, doc: Document, sig: Node)
    requires WellIdentified(doc) && Occurs(sig, doc.children)
    ensures C14n(Config(mode, withComments, Some(FromIds(AllWithoutComments(doc).nodes - Ids(sig)))), doc)
         == C14n(Config(mode, false, None), Document(doc.rootId, Delete(doc.children, sig.id)))
         <==> Removable(Config(mode, false, None), doc, sig)
  {
    var cfg, plain := Config(mode, withComments, Some(AllWithoutComments(doc))), Config(mode, false, None);
    var rest := Document(doc.rootId, Delete(doc.children, sig.id));
    hide WalkTop, RenderAll, Spots.Spots, Occurs, SubtreesIds, Clean, LinesKept, NoLeading;
    EnvelopedIsDeletion(cfg, doc, sig);
    PlainDocument(mode, withComments, doc);
    SilentLines(cfg, doc.children, sig.id, false);
    NothingFloatsClean(cfg, Ids(sig), doc.children, [], map[]);
    NothingFloatsClean(plain, Ids(sig), doc.children, [], map[]);
    SilentDeleted(cfg, doc.children, sig.id);
    SilentTop(cfg, rest.children, false);
    DeleteCollects(doc.children, sig.id);
    AllCovers(Mute(cfg), rest.children, false);
    CoveringSetIsNoSet(Mute(cfg), rest);
  }
}
