/**
 Reference processing on two documents that differ only inside holes: the same nodes are
 selected outside the holes, so what avoids them is digested to the same value.
 */
module Pipeline {
  import opened Dom
  import opened NodeSets
  import opened Namespaces
  import opened Canonical
  import opened Spots
  import opened XPathParser
  import opened XPathEval
  import opened Dsig
  import opened Edits
  import opened FilterEdits

  lemma SubtreesAgree(doc: Document, doc2: Document, holes: set<nat>, x: Spot, y: Spot, comments: bool, id: nat)
    requires Edited(doc, doc2, holes) && id in Outside(doc.children, holes)
    requires x in AllSpots(doc) && y in AllSpots(doc2) && x.node.id == y.node.id
    ensures id in SubtreeIds(x.node, comments) <==> id in SubtreeIds(y.node, comments)
    ensures id in Ids(x.node) <==> id in Ids(y.node)
  {
    hide Spots.Spots, Outside, Alike;
    var s, t := BothSpots(doc, doc2, holes, id);
    CollectedSubtree(doc, x, comments, s);
    CollectedSubtree(doc2, y, comments, t);
    AncestorIsSubtree(doc, s, x);
    AncestorIsSubtree(doc2, t, y);
    assert UpIds(s, doc.rootId) == UpIds(t, doc2.rootId);
  }

  lemma WholeAgrees(doc: Document, doc2: Document, holes: set<nat>)
    requires Edited(doc, doc2, holes)
    ensures SetsAgree(Some(All(doc)), Some(All(doc2)), Outside(doc.children, holes))
    ensures SetsAgree(Some(AllWithoutComments(doc)), Some(AllWithoutComments(doc2)), Outside(doc.children, holes))
  {
    SameOutside(doc.children, doc2.children, holes);
    OutsideWithin(doc.children, holes);
    OutsideWithin(doc2.children, holes);
    hide Spots.Spots, Outside, Alike, ForestIds, SubtreesIds;
    forall id | id in Outside(doc.children, holes)
      ensures id in AllWithoutComments(doc).nodes <==> id in AllWithoutComments(doc2).nodes
    {
      var s, t := BothSpots(doc, doc2, holes, id);
      CollectedForest(doc.children, [], false, s);
      CollectedForest(doc2.children, [], false, t);
    }
  }

  lemma {:induction false} EvalAgrees(x: Expr, s: Spot, t: Spot, holes: set<nat>)
    requires s.above == t.above && AlikeNode(s.node, t.node, holes) && s.node.id !in holes
    ensures Eval(x, s) == Eval(x, t)
  {
    assert s.Path() == t.Path();
    match x {
      case Not(inner) => EvalAgrees(inner, s, t, holes);
      case And(l, r) =>
        EvalAgrees(l, s, t, holes);
        EvalAgrees(r, s, t, holes);
      case Or(l, r) =>
        EvalAgrees(l, s, t, holes);
        EvalAgrees(r, s, t, holes);
      case _ =>
    }
  }

  lemma KeptMember(x: Expr, input: Option<NodeSet>, doc: Document, s: Spot)
    requires WellIdentified(doc) && s in AllSpots(doc)
    ensures s.node.id in Kept(x, input, AllSpots(doc)) <==> InInput(input, s.node.id) && Eval(x, s)
  {
    hide Spots.Spots, Eval, InInput;
    if s.node.id in Kept(x, input, AllSpots(doc)) {
      var u :| u in AllSpots(doc) && InInput(input, u.node.id) && Eval(x, u) && u.node.id == s.node.id;
      SpotsUnique(doc.children, [], u, s);
    }
  }

  /** The visibility of a namespace node is decided at its own element. */
  lemma {:induction false} NsEntry(x: Expr, spots: seq<Spot>, s: Spot, p: string)
    requires forall t :: t in spots && t.node.id == s.node.id ==> t == s
    ensures Get(NsOfSpots(x, spots), (s.node.id, p)) == if s in spots then Get(NsOfSpot(x, s), (s.node.id, p)) else None
  {
    if spots != [] {
      var n := |spots| - 1;
      var front, last := spots[..n], spots[n];
      assert spots == front + [last] && last in spots;
      NsEntry(x, front, s, p);
      NsOfSpotEntries(x, last);
      hide NsOfSpot;
    }
  }

  lemma NsEntryHere(x: Expr, doc: Document, s: Spot, p: string)
    requires WellIdentified(doc) && s in AllSpots(doc)
    ensures Get(NsOfSpots(x, AllSpots(doc)), (s.node.id, p)) == Get(NsOfSpot(x, s), (s.node.id, p))
  {
    hide Spots.Spots, NsOfSpots, NsOfSpot;
    forall t | t in AllSpots(doc) && t.node.id == s.node.id ensures t == s {
      SpotsUnique(doc.children, [], t, s);
    }
    NsEntry(x, AllSpots(doc), s, p);
  }

  /** Counterparts have the same namespace nodes, and the expression fares the same on them. */
  lemma SameNsOfSpot(x: Expr, s: Spot, t: Spot, holes: set<nat>)
    requires s.above == t.above && AlikeNode(s.node, t.node, holes) && s.node.id !in holes
    ensures NsOfSpot(x, s) == NsOfSpot(x, t)
  {
    hide EvalNs, Inscope;
    assert s.Path() == t.Path() && s.node.Elem? == t.node.Elem?;
  }

  lemma FilterAgrees(x: Expr, a: Option<NodeSet>, b: Option<NodeSet>, doc: Document, doc2: Document, holes: set<nat>)
    requires Edited(doc, doc2, holes) && SetsAgree(a, b, Outside(doc.children, holes))
    ensures SetsAgree(Some(Filtered(x, a, doc)), Some(Filtered(x, b, doc2)), Outside(doc.children, holes))
  {
    hide Spots.Spots, Outside, Alike, Eval, Kept, NsOfSpots;
    forall id | id in Outside(doc.children, holes)
      ensures id in Kept(x, a, AllSpots(doc)) <==> id in Kept(x, b, AllSpots(doc2))
    {
      var s, t := BothSpots(doc, doc2, holes, id);
      EvalAgrees(x, s, t, holes);
      KeptMember(x, a, doc, s);
      KeptMember(x, b, doc2, t);
    }
    var m, m2 := NsOfSpots(x, AllSpots(doc)), NsOfSpots(x, AllSpots(doc2));
    forall id, p | id in Outside(doc.children, holes) ensures Shown(m, (id, p)) == Shown(m2, (id, p)) {
      NsAgrees(x, doc, doc2, holes, id, p);
    }
  }

  lemma NsAgrees(x: Expr, doc: Document, doc2: Document, holes: set<nat>, id: nat, p: string)
    requires Edited(doc, doc2, holes) && id in Outside(doc.children, holes)
    ensures Shown(NsOfSpots(x, AllSpots(doc)), (id, p)) == Shown(NsOfSpots(x, AllSpots(doc2)), (id, p))
  {
    hide Spots.Spots, Outside, Alike, AlikeNode, NsOfSpots, NsOfSpot;
    var s, t := BothSpots(doc, doc2, holes, id);
    NsEntryHere(x, doc, s, p);
    NsEntryHere(x, doc2, t, p);
    SameNsOfSpot(x, s, t, holes);
  }

  // ---------------------------------------------------------------- IDs

  lemma LookupAgrees(idsOf: IdReader, doc: Document, doc2: Document, holes: set<nat>, ids: map<string, Spot>, ids2: map<string, Spot>, id: string)
    returns (t: Spot)
    requires Edited(doc, doc2, holes) && IdMap(idsOf, doc) == Ok(ids) && IdMap(idsOf, doc2) == Ok(ids2)
    requires id in ids && ids[id].node.id in Outside(doc.children, holes)
    ensures ids[id] in AllSpots(doc) && t in AllSpots(doc2) && t.node.id == ids[id].node.id && MapsTo(ids2, id, t)
    ensures AlikeNode(ids[id].node, t.node, holes)
  {
    IdMapIsExact(idsOf, doc);
    IdMapIsExact(idsOf, doc2);
    hide IdMap, Spots.Spots, Outside, Alike;
    assert MapsTo(ids, id, ids[id]);
    t := Counterpart(doc.children, doc2.children, holes, [], ids[id]);
    assert Carries(idsOf, t, id);
  }

  lemma TargetAgrees(idsOf: IdReader, doc: Document, doc2: Document, holes: set<nat>, ids: map<string, Spot>, ids2: map<string, Spot>,
                     id: string, comments: bool)
    requires Edited(doc, doc2, holes) && IdMap(idsOf, doc) == Ok(ids) && IdMap(idsOf, doc2) == Ok(ids2)
    requires id in ids && ids[id].node.id in Outside(doc.children, holes)
    ensures id in ids2
    ensures SetsAgree(Some(FromIds(SubtreeIds(ids[id].node, comments))), Some(FromIds(SubtreeIds(ids2[id].node, comments))),
                      Outside(doc.children, holes))
  {
    hide IdMap, AllSpots, Outside, Edited, SubtreeIds;
    var t := LookupAgrees(idsOf, doc, doc2, holes, ids, ids2, id);
    forall x | x in Outside(doc.children, holes)
      ensures x in SubtreeIds(ids[id].node, comments) <==> x in SubtreeIds(t.node, comments)
    {
      SubtreesAgree(doc, doc2, holes, ids[id], t, comments, x);
    }
  }

  // ---------------------------------------------------------------- text

  lemma {:induction false} TextConcat(s: Option<NodeSet>, a: seq<Spot>, b: seq<Spot>)
    ensures SelectedText(s, a + b) == SelectedText(s, a) + SelectedText(s, b)
  {
    if a == [] {
      assert a + b == b;
    } else {
      assert (a + b)[1..] == a[1..] + b;
      TextConcat(s, a[1..], b);
    }
  }

  lemma {:induction false} DarkText(s: Option<NodeSet>, ns: seq<Node>, chain: seq<Frame>)
    requires forall id :: id in ForestIds(ns) ==> Dark(s, id)
    ensures SelectedText(s, Spots.Spots(ns, chain)) == ""
    decreases ns, 0
  {
    hide NodeSpots, Dark;
    if ns != [] {
      DarkTextNode(s, ns[0], chain);
      DarkText(s, ns[1..], chain);
      TextConcat(s, NodeSpots(ns[0], chain), Spots.Spots(ns[1..], chain));
    }
  }

  lemma {:induction false} DarkTextNode(s: Option<NodeSet>, n: Node, chain: seq<Frame>)
    requires forall id :: id in Ids(n) ==> Dark(s, id)
    ensures SelectedText(s, NodeSpots(n, chain)) == ""
    decreases n, 1
  {
    assert n.id in Ids(n) && Dark(s, n.id);
    assert NodeSpots(n, chain)[1..] == if n.Elem? then Spots.Spots(n.children, Below(n, chain)) else [];
    if n.Elem? {
      hide Spots.Spots, Dark;
      DarkText(s, n.children, Below(n, chain));
    }
  }

  lemma {:induction false} AlikeText(a: Option<NodeSet>, b: Option<NodeSet>, ns: seq<Node>, ms: seq<Node>, holes: set<nat>, chain: seq<Frame>, chain2: seq<Frame>)
    requires Alike(ns, ms, holes) && SetsAgree(a, b, Outside(ns, holes)) && Quiet(a, ns, holes) && Quiet(b, ms, holes)
    ensures SelectedText(a, Spots.Spots(ns, chain)) == SelectedText(b, Spots.Spots(ms, chain2))
    decreases ns, 0
  {
    hide NodeSpots, AlikeNode, QuietNode, OutsideNode, SetsAgree;
    if ns != [] {
      SetsAgreeOnFewer(a, b, Outside(ns, holes), OutsideNode(ns[0], holes));
      SetsAgreeOnFewer(a, b, Outside(ns, holes), Outside(ns[1..], holes));
      AlikeTextNode(a, b, ns[0], ms[0], holes, chain, chain2);
      AlikeText(a, b, ns[1..], ms[1..], holes, chain, chain2);
      TextConcat(a, NodeSpots(ns[0], chain), Spots.Spots(ns[1..], chain));
      TextConcat(b, NodeSpots(ms[0], chain2), Spots.Spots(ms[1..], chain2));
    }
  }

  lemma {:induction false} AlikeTextNode(a: Option<NodeSet>, b: Option<NodeSet>, n: Node, m: Node, holes: set<nat>, chain: seq<Frame>, chain2: seq<Frame>)
    requires AlikeNode(n, m, holes) && SetsAgree(a, b, OutsideNode(n, holes)) && QuietNode(a, n, holes) && QuietNode(b, m, holes)
    ensures SelectedText(a, NodeSpots(n, chain)) == SelectedText(b, NodeSpots(m, chain2))
    decreases n, 1
  {
    if n.id in holes {
      hide NodeSpots, AlikeNode;
      DarkTextNode(a, n, chain);
      DarkTextNode(b, m, chain2);
    } else {
      hide Spots.Spots, Dark;
      assert NodeSpots(n, chain)[1..] == if n.Elem? then Spots.Spots(n.children, Below(n, chain)) else [];
      assert NodeSpots(m, chain2)[1..] == if m.Elem? then Spots.Spots(m.children, Below(m, chain2)) else [];
      assert InInput(a, n.id) == InInput(b, n.id);
      if n.Elem? {
        SetsAgreeOnFewer(a, b, OutsideNode(n, holes), Outside(n.children, holes));
        AlikeText(a, b, n.children, m.children, holes, Below(n, chain), Below(m, chain2));
      }
    }
  }

  lemma TextAgrees(a: Option<NodeSet>, b: Option<NodeSet>, doc: Document, doc2: Document, holes: set<nat>)
    requires Edited(doc, doc2, holes) && SetsAgree(a, b, Outside(doc.children, holes))
    requires QuietSet(a, doc, holes) && QuietSet(b, doc2, holes)
    ensures SelectedText(a, AllSpots(doc)) == SelectedText(b, AllSpots(doc2))
  {
    hide Spots.Spots, Alike, Outside, SetsAgree, Quiet;
    AlikeText(a, b, doc.children, doc2.children, holes, [], []);
  }

  // ---------------------------------------------------------------- transforms

  ghost predicate DataAgree(a: Data, b: Data, ids: set<nat>) {
    if a.Xml? && b.Xml? then SetsAgree(a.nodeSet, b.nodeSet, ids) else a == b
  }

  lemma SetsLess(x: NodeSet, y: NodeSet, ids: set<nat>, gone: set<nat>, gone2: set<nat>)
    requires SetsAgree(Some(x), Some(y), ids) && forall id :: id in ids ==> (id in gone <==> id in gone2)
    ensures SetsAgree(Some(x.(nodes := x.nodes - gone)), Some(y.(nodes := y.nodes - gone2)), ids)
  {
    var a, b := x.(nodes := x.nodes - gone), y.(nodes := y.nodes - gone2);
    forall id, p | id in ids ensures a.NsVisible(id, p) == b.NsVisible(id, p) {
      assert x.NsVisible(id, p) == y.NsVisible(id, p);
    }
  }

  /** The ID, if it is there, names an element outside the holes. */
  ghost predicate PointsAside(idsOf: IdReader, id: string, doc: Document, holes: set<nat>) {
    var ids := IdMap(idsOf, doc);
    ids.Ok? && (id in ids.value ==> ids.value[id].node.id in Outside(doc.children, holes))
  }

  /** What a transform looks at avoids the holes. */
  ghost predicate Steady(t: Transform, data: Data, doc: Document, holes: set<nat>) {
    data.Xml? ==>
      && (MakesOctets(t) ==> QuietSet(data.nodeSet, doc, holes))
      && (t.XPointer? ==> PointsAside(t.idsOf, t.id, doc, holes))
  }

  lemma PointersAgree(idsOf: IdReader, id: string, doc: Document, doc2: Document, holes: set<nat>)
    requires Edited(doc, doc2, holes) && PointsAside(idsOf, id, doc, holes) && PointsAside(idsOf, id, doc2, holes)
    ensures var ids, ids2 := IdMap(idsOf, doc).value, IdMap(idsOf, doc2).value;
      && (id in ids <==> id in ids2)
      && (id in ids ==> PlainAgree(FromIds(SubtreeIds(ids[id].node, true)), FromIds(SubtreeIds(ids2[id].node, true)), Outside(doc.children, holes)))
  {
    var ids, ids2 := IdMap(idsOf, doc).value, IdMap(idsOf, doc2).value;
    AlikeSym(doc.children, doc2.children, holes);
    assert forall i :: 0 <= i < |doc2.children| ==> doc2.children[i].id == doc.children[i].id by {
      AlikeIds(doc.children, doc2.children, holes);
    }
    assert Edited(doc2, doc, holes);
    hide IdMap, Outside, Edited, SubtreeIds;
    if id in ids {
      TargetAgrees(idsOf, doc, doc2, holes, ids, ids2, id, true);
    }
    if id in ids2 {
      TargetAgrees(idsOf, doc2, doc, holes, ids2, ids, id, true);
    }
  }

  lemma {:induction false} AlikeIds(ns: seq<Node>, ms: seq<Node>, holes: set<nat>)
    requires Alike(ns, ms, holes)
    ensures |ns| == |ms| && forall i :: 0 <= i < |ns| ==> ns[i].id == ms[i].id
  {
    if ns != [] {
      AlikeIds(ns[1..], ms[1..], holes);
    }
  }

  lemma PointerAgrees(suite: Suite, t: Transform, a: Option<NodeSet>, b: Option<NodeSet>, doc: Document, doc2: Document, holes: set<nat>, sig: Node, sig2: Node)
    requires Edited(doc, doc2, holes) && SetsAgree(a, b, Outside(doc.children, holes))
    requires t.XPointer? && PointsAside(t.idsOf, t.id, doc, holes) && PointsAside(t.idsOf, t.id, doc2, holes)
    ensures var x, y := Apply(suite, t, Xml(a), doc, sig), Apply(suite, t, Xml(b), doc2, sig2);
      && (x.Err? || y.Err? ==> x == y)
      && (x.Ok? && y.Ok? ==> x.value.Xml? && y.value.Xml? && SetsAgree(x.value.nodeSet, y.value.nodeSet, Outside(doc.children, holes)))
  {
    hide IdMap, Outside, Edited, SubtreeIds, C14n, AllSpots, Filtered, SelectedText, Ids, All;
    PointersAgree(t.idsOf, t.id, doc, doc2, holes);
    var ids, ids2 := IdMap(t.idsOf, doc).value, IdMap(t.idsOf, doc2).value;
    hide SetsAgree, PlainAgree;
    if t.id in ids {
      var f, g := FromIds(SubtreeIds(ids[t.id].node, true)), FromIds(SubtreeIds(ids2[t.id].node, true));
      if a.Some? {
        MeetAgrees(a.value, b.value, f, g, Outside(doc.children, holes));
      } else {
        PlainIsAgreed(f, g, Outside(doc.children, holes));
      }
      BothOrNeither(a, b, Outside(doc.children, holes));
    }
  }

  lemma PlainIsAgreed(f: NodeSet, g: NodeSet, ids: set<nat>)
    requires PlainAgree(f, g, ids)
    ensures SetsAgree(Some(f), Some(g), ids)
  {
  }

  lemma BothOrNeither(a: Option<NodeSet>, b: Option<NodeSet>, ids: set<nat>)
    requires SetsAgree(a, b, ids)
    ensures a.Some? == b.Some?
  {
  }

  lemma ApplyAgrees(suite: Suite, t: Transform, a: Data, b: Data, doc: Document, doc2: Document, holes: set<nat>, sig: Spot, sig2: Spot)
    requires Edited(doc, doc2, holes) && DataAgree(a, b, Outside(doc.children, holes))
    requires sig in AllSpots(doc) && sig2 in AllSpots(doc2) && sig.node.id == sig2.node.id
    requires Steady(t, a, doc, holes) && Steady(t, b, doc2, holes)
    ensures var x, y := Apply(suite, t, a, doc, sig.node), Apply(suite, t, b, doc2, sig2.node);
      && (x.Err? || y.Err? ==> x == y)
      && (x.Ok? && y.Ok? ==> DataAgree(x.value, y.value, Outside(doc.children, holes)))
  {
    hide AllSpots, Outside, Alike, C14n, Filtered, ForestIds, Ids, QuietSet, IdMap, PointsAside;
    if a.Xml? {
      match t {
        case EnvelopedSignature =>
          WholeAgrees(doc, doc2, holes);
          forall id | id in Outside(doc.children, holes) ensures id in Ids(sig.node) <==> id in Ids(sig2.node) {
            SubtreesAgree(doc, doc2, holes, sig, sig2, true, id);
          }
          var x := if a.nodeSet.Some? then a.nodeSet.value else All(doc);
          var y := if b.nodeSet.Some? then b.nodeSet.value else All(doc2);
          SetsLess(x, y, Outside(doc.children, holes), Ids(sig.node), Ids(sig2.node));
        case XPathFilter(x) => FilterAgrees(x, a.nodeSet, b.nodeSet, doc, doc2, holes);
        case XPathFilter2(steps, paths) => Filter2Agrees(steps, paths, a.nodeSet, b.nodeSet, doc, doc2, holes);
        case XPointer(_, _) => PointerAgrees(suite, t, a.nodeSet, b.nodeSet, doc, doc2, holes, sig.node, sig2.node);
        case Base64Decode => TextAgrees(a.nodeSet, b.nodeSet, doc, doc2, holes);
        case Canonicalize(mode, withComments) =>
          EditedCanon(mode, withComments, a.nodeSet, b.nodeSet, doc, doc2, holes);
      }
    }
  }

  /** Wherever the transforms turn a node set into octets, it avoids the holes. */
  ghost predicate QuietRun(suite: Suite, ts: seq<Node>, chain: seq<Frame>, data: Data, doc: Document, sig: Node, holes: set<nat>)
    decreases |ts|
  {
    if ts == [] then data.Xml? ==> QuietSet(data.nodeSet, doc, holes)
    else if !ts[0].Elem? || ts[0].elem.name.local != "Transform" then QuietRun(suite, ts[1..], chain, data, doc, sig, holes)
    else
      var t := suite.transformOf(ts[0], chain);
      t.Ok? ==>
        && Steady(t.value, data, doc, holes)
        && var next := Apply(suite, t.value, data, doc, sig);
           next.Ok? ==> QuietRun(suite, ts[1..], chain, next.value, doc, sig, holes)
  }

  /** The octets at the end of the transforms, or the error. */
  function FinalOctets(r: Result<Data>, doc: Document): Result<string> {
    if r.Err? then Err(r.error) else Ok(ToOctets(r.value, doc))
  }

  lemma {:induction false} RunAgrees(suite: Suite, ts: seq<Node>, chain: seq<Frame>, a: Data, b: Data,
                                     doc: Document, doc2: Document, holes: set<nat>, sig: Spot, sig2: Spot)
    requires Edited(doc, doc2, holes) && DataAgree(a, b, Outside(doc.children, holes))
    requires sig in AllSpots(doc) && sig2 in AllSpots(doc2) && sig.node.id == sig2.node.id
    requires QuietRun(suite, ts, chain, a, doc, sig.node, holes) && QuietRun(suite, ts, chain, b, doc2, sig2.node, holes)
    ensures FinalOctets(RunTransforms(suite, ts, chain, a, doc, sig.node), doc)
         == FinalOctets(RunTransforms(suite, ts, chain, b, doc2, sig2.node), doc2)
    decreases |ts|
  {
    hide AllSpots, Outside, Alike, C14n, Apply, QuietSet, Edited;
    if ts == [] {
      if a.Xml? {
        EditedCanon(Inclusive, false, a.nodeSet, b.nodeSet, doc, doc2, holes);
      }
    } else if !ts[0].Elem? || ts[0].elem.name.local != "Transform" {
      RunAgrees(suite, ts[1..], chain, a, b, doc, doc2, holes, sig, sig2);
    } else {
      var t := suite.transformOf(ts[0], chain);
      if t.Ok? {
        ApplyAgrees(suite, t.value, a, b, doc, doc2, holes, sig, sig2);
        var x, y := Apply(suite, t.value, a, doc, sig.node), Apply(suite, t.value, b, doc2, sig2.node);
        if x.Ok? && y.Ok? {
          hide DataAgree;
          RunAgrees(suite, ts[1..], chain, x.value, y.value, doc, doc2, holes, sig, sig2);
        }
      }
    }
  }
}
