/**
 Which nodes the digest of a reference speaks of: those its URI names and each of its transforms
 keeps, said in terms of the tree.
 */
module TransformMeaning {
  import opened Dom
  import opened NodeSets
  import opened Canonical
  import opened Spots
  import opened XPathEval
  import opened Filter2
  import opened FilterMeaning
  import opened Dsig
  import opened Edits
  import opened References
  import opened SignRun
  import opened VerifyRun
  import opened CommonRun
  import opened Coverage

  /** The node belongs to the set; where there is none, every node does. */
  predicate In(s: Option<NodeSet>, id: nat) {
    s.Some? ==> s.value.Contains(id)
  }

  /** The node lies in an element that carries the ID. */
  ghost predicate BelowCarrier(doc: Document, idsOf: IdReader, id: string, n: Node) {
    exists c :: Occurs(c, doc.children) && c.Elem? && id in idsOf(c.elem) && n.id in Ids(c)
  }

  /** A transform that narrows the node set keeps this node, wherever it came from. */
  ghost predicate Keeps(t: Transform, doc: Document, sig: Node, n: Node) {
    match t
    case EnvelopedSignature => n.id !in Ids(sig)
    case XPathFilter(expr) => Means(expr, doc, n)
    case XPathFilter2(steps, paths) => InFold(Selecting(doc, paths), steps, n.id, true)
    case XPointer(id, idsOf) => BelowCarrier(doc, idsOf, id, n)
    case _ => true
  }

  /** The URI of a same-document reference names this node. */
  ghost predicate Names(suite: Suite, doc: Document, uri: string, n: Node) {
    if uri == "" then !n.Comment?
    else if uri == "#xpointer(/)" then true
    else BelowCarrier(doc, suite.idsOf, FragmentId(uri[1..]), n) && (XPointerId(uri[1..]).Some? || !n.Comment?)
  }

  // ---------------------------------------------------------------- one transform

  lemma CarrierBelow(idsOf: IdReader, doc: Document, id: string, n: Node)
    requires WellIdentified(doc) && IdMap(idsOf, doc).Ok? && Occurs(n, doc.children)
    ensures BelowCarrier(doc, idsOf, id, n) <==> id in IdMap(idsOf, doc).value && n.id in Ids(IdMap(idsOf, doc).value[id].node)
    ensures id in IdMap(idsOf, doc).value ==> IdMap(idsOf, doc).value[id] in AllSpots(doc)
  {
    IdMapIsExact(idsOf, doc);
    var ids := IdMap(idsOf, doc).value;
    hide IdMap, Spots.Spots, Occurs, Ids;
    if id in ids {
      assert MapsTo(ids, id, ids[id]);
      OccursIsSpot(ids[id].node, doc.children, []);
    }
    if BelowCarrier(doc, idsOf, id, n) {
      var c :| Occurs(c, doc.children) && c.Elem? && id in idsOf(c.elem) && n.id in Ids(c);
      OccursIsSpot(c, doc.children, []);
      var s :| s in AllSpots(doc) && s.node == c;
      assert Carries(idsOf, s, id);
      assert MapsTo(ids, id, s);
    }
  }

  lemma SubtreeHolds(doc: Document, t: Spot, comments: bool, n: Node)
    requires WellIdentified(doc) && t in AllSpots(doc) && Occurs(n, doc.children)
    ensures n.id in SubtreeIds(t.node, comments) <==> n.id in Ids(t.node) && (comments || !n.Comment?)
  {
    hide Spots.Spots, Occurs, Ids, SubtreeIds;
    OccursIsSpot(n, doc.children, []);
    var s :| s in AllSpots(doc) && s.node == n;
    CollectedSubtree(doc, t, comments, s);
  }

  lemma InDocument(doc: Document, n: Node)
    requires Occurs(n, doc.children)
    ensures n.id in All(doc).nodes
  {
    OccursIds(n, doc.children);
    assert n.id in Ids(n);
  }

  lemma XPointerKeeps(suite: Suite, t: Transform, s: Option<NodeSet>, doc: Document, sig: Node, n: Node)
    requires t.XPointer? && WellIdentified(doc) && Listed(s) && Occurs(n, doc.children)
    ensures var r := Apply(suite, t, Xml(s), doc, sig);
      r.Ok? ==> r.value.Xml? && Listed(r.value.nodeSet) && (In(r.value.nodeSet, n.id) <==> In(s, n.id) && Keeps(t, doc, sig, n))
  {
    hide IdMap, Occurs, SubtreeIds, Spots.Spots, BelowCarrier, WellIdentified;
    if IdMap(t.idsOf, doc).Ok? && t.id in IdMap(t.idsOf, doc).value {
      CarrierBelow(t.idsOf, doc, t.id, n);
      SubtreeHolds(doc, IdMap(t.idsOf, doc).value[t.id], true, n);
    }
  }

  lemma Filter2Keeps(suite: Suite, t: Transform, s: Option<NodeSet>, doc: Document, sig: Node, n: Node)
    requires t.XPathFilter2? && Listed(s) && Occurs(n, doc.children)
    ensures var r := Apply(suite, t, Xml(s), doc, sig);
      r.Ok? ==> r.value.Xml? && Listed(r.value.nodeSet) && (In(r.value.nodeSet, n.id) <==> In(s, n.id) && Keeps(t, doc, sig, n))
  {
    InDocument(doc, n);
    hide Occurs, RunSteps, InFold, Selecting, Ids, ForestIds;
    FilterRunSelects(doc, t.paths, if s.Some? then s.value else All(doc), t.steps, n.id, "");
  }

  /** A transform of node sets leaves the nodes that it keeps. */
  lemma TransformKeeps(suite: Suite, t: Transform, s: Option<NodeSet>, doc: Document, sig: Node, n: Node)
    requires !MakesOctets(t) && WellIdentified(doc) && Listed(s) && Occurs(n, doc.children)
    ensures var r := Apply(suite, t, Xml(s), doc, sig);
      r.Ok? ==> r.value.Xml? && Listed(r.value.nodeSet) && (In(r.value.nodeSet, n.id) <==> In(s, n.id) && Keeps(t, doc, sig, n))
  {
    if t.XPointer? {
      XPointerKeeps(suite, t, s, doc, sig, n);
    } else if t.XPathFilter2? {
      Filter2Keeps(suite, t, s, doc, sig, n);
    } else if t.XPathFilter? {
      hide Occurs, Spots.Spots, Eval, Means, NsOfSpots;
      FilterMeans(t.expr, s, doc, n);
    } else {
      InDocument(doc, n);
      hide Occurs, Ids, ForestIds;
    }
  }

  // ---------------------------------------------------------------- lists of transforms

  predicate OfNodes(list: seq<Transform>) {
    forall i :: 0 <= i < |list| ==> !MakesOctets(list[i])
  }

  /** Every transform of the list keeps the node: order does not matter. */
  ghost predicate AllKeep(list: seq<Transform>, doc: Document, sig: Node, n: Node) {
    forall i :: 0 <= i < |list| ==> Keeps(list[i], doc, sig, n)
  }

  lemma AllKeepCons(list: seq<Transform>, doc: Document, sig: Node, n: Node)
    requires list != []
    ensures AllKeep(list, doc, sig, n) <==> Keeps(list[0], doc, sig, n) && AllKeep(list[1..], doc, sig, n)
  {
    hide Keeps;
    assert forall i :: 0 < i < |list| ==> list[i] == list[1..][i - 1];
    if Keeps(list[0], doc, sig, n) && AllKeep(list[1..], doc, sig, n) {
      forall i | 0 <= i < |list| ensures Keeps(list[i], doc, sig, n) {
        if i > 0 {
          assert Keeps(list[1..][i - 1], doc, sig, n);
        }
      }
    }
    if AllKeep(list, doc, sig, n) {
      forall i | 0 <= i < |list[1..]| ensures Keeps(list[1..][i], doc, sig, n) {
        assert Keeps(list[i + 1], doc, sig, n);
      }
    }
  }

  lemma {:induction false} ListKeeps(suite: Suite, list: seq<Transform>, s: Option<NodeSet>, doc: Document, sig: Node, n: Node)
    requires OfNodes(list) && WellIdentified(doc) && Listed(s) && Occurs(n, doc.children)
    ensures var r := RunList(suite, list, Xml(s), doc, sig);
      r.Ok? ==> r.value.Xml? && (In(r.value.nodeSet, n.id) <==> In(s, n.id) && AllKeep(list, doc, sig, n))
  {
    hide Apply, Keeps, Occurs, WellIdentified;
    if list != [] {
      var next := Apply(suite, list[0], Xml(s), doc, sig);
      TransformKeeps(suite, list[0], s, doc, sig, n);
      AllKeepCons(list, doc, sig, n);
      if next.Ok? {
        ListKeeps(suite, list[1..], next.value.nodeSet, doc, sig, n);
      }
    }
  }

  lemma {:induction false} RunConcat(suite: Suite, a: seq<Transform>, b: seq<Transform>, data: Data, doc: Document, sig: Node)
    ensures var r := RunList(suite, a, data, doc, sig);
      RunList(suite, a + b, data, doc, sig) == if r.Err? then r else RunList(suite, b, r.value, doc, sig)
  {
    hide Apply;
    if a == [] {
      assert a + b == b;
    } else {
      assert (a + b)[0] == a[0] && (a + b)[1..] == a[1..] + b;
      var next := Apply(suite, a[0], data, doc, sig);
      if next.Ok? {
        RunConcat(suite, a[1..], b, next.value, doc, sig);
      }
    }
  }

  // ---------------------------------------------------------------- what a URI names

  lemma NamedNodes(suite: Suite, doc: Document, uri: string, n: Node)
    requires WellIdentified(doc) && IdMap(suite.idsOf, doc).Ok? && Occurs(n, doc.children) && (uri == "" || uri[0] == '#')
    ensures var r := Resolve(IdMap(suite.idsOf, doc).value, suite.external, uri, doc);
      r.Ok? ==> r.value.data.Xml? && Listed(r.value.data.nodeSet) && (In(r.value.data.nodeSet, n.id) <==> Names(suite, doc, uri, n))
  {
    var ids := IdMap(suite.idsOf, doc).value;
    hide IdMap, Occurs, SubtreeIds, SubtreesIds, Spots.Spots, BelowCarrier, WellIdentified, XPointerId;
    if uri == "" {
      OccursIsSpot(n, doc.children, []);
      var s :| s in AllSpots(doc) && s.node == n;
      ResolvedNodes(suite, ids, uri, doc, s);
    } else {
      assert uri == "#xpointer(/)" <==> uri[1..] == "xpointer(/)" by {
        assert "#xpointer(/)"[1..] == "xpointer(/)";
        assert uri == "#" + uri[1..];
        assert "#xpointer(/)" == "#" + "xpointer(/)";
      }
      var id := FragmentId(uri[1..]);
      CarrierBelow(suite.idsOf, doc, id, n);
      if id in ids {
        SubtreeHolds(doc, ids[id], XPointerId(uri[1..]).Some?, n);
      }
    }
  }

  // ---------------------------------------------------------------- what a digest speaks of

  /** The transforms of the reference narrow the nodes; a canonicalization may follow, otherwise the
      inclusive one without comments is used. */
  ghost predicate Narrowing(suite: Suite, site: Site, i: nat, list: seq<Transform>, mode: Mode, comments: bool) {
    i < |site.refs| && site.refs[i].Elem? &&
    var uri, all := UriOfReference(suite, site.refs[i]), TransformsOf(suite, site.refs[i], site.Chain());
    && (uri == "" || uri[0] == '#') && OfNodes(list)
    && (all == Some(list + [Canonicalize(mode, comments)]) || (all == Some(list) && mode == Inclusive && !comments))
  }

  /** The digest in a reference of a Valid document, whatever sequence of transforms it lists, is that of the
      canonical text of a node set; a node of the document belongs to it exactly if the URI names the
      node and every transform keeps it. */
  lemma DigestedNodes(suite: Suite, checks: Checks, doc: Document, i: nat, list: seq<Transform>, mode: Mode, comments: bool)
    returns (s: Option<NodeSet>)
    requires WellIdentified(doc) && IsValid(suite, checks, doc) && SiteOf(doc).Ok?
    requires Narrowing(suite, SiteOf(doc).value, i, list, mode, comments)
    ensures var site := SiteOf(doc).value;
      && Pins(suite, site.refs[i], C14n(Config(mode, comments, s), doc))
      && forall n :: Occurs(n, doc.children) ==>
           (In(s, n.id) <==> Names(suite, doc, UriOfReference(suite, site.refs[i]), n) && AllKeep(list, doc, site.sig.node, n))
  {
    var site := SiteOf(doc).value;
    var ref, sig, uri := site.refs[i], site.sig.node, UriOfReference(suite, site.refs[i]);
    var ids, v := ValidReference(suite, checks, doc, i);
    assert ids == IdMap(suite.idsOf, doc).value;
    CidIsNoFragment(uri);
    hide IsValid, SiteOf, IdMap, C14n, Records, OnlyCarrier, FragmentId, ComputeDigest, StoredDigest, DigestMethod, Resolve, UriOfReference,
         AllKeep, Names, In, WellIdentified, Occurs, Narrowing;
    s := DigestedSet(suite, doc, site, i, ids, list, mode, comments);
    RecordedIs(suite, ref);
    forall n | Occurs(n, doc.children) ensures In(s, n.id) <==> Names(suite, doc, uri, n) && AllKeep(list, doc, sig, n) {
      NamedNodes(suite, doc, uri, n);
      var start := Resolve(ids, suite.external, uri, doc).value.data.nodeSet;
      ListKeeps(suite, list, start, doc, sig, n);
    }
  }

  /** The node set that reaches the canonicalization. */
  lemma DigestedSet(suite: Suite, doc: Document, site: Site, i: nat, ids: map<string, Spot>, list: seq<Transform>, mode: Mode, comments: bool)
    returns (s: Option<NodeSet>)
    requires Narrowing(suite, site, i, list, mode, comments) && WellIdentified(doc) && IdMap(suite.idsOf, doc) == Ok(ids)
    requires ComputeDigest(suite, site.refs[i], site.Chain(), ids, doc, site.sig.node).Ok?
    ensures OfNodes(list) && (UriOfReference(suite, site.refs[i]) == "" || UriOfReference(suite, site.refs[i])[0] == '#')
    ensures var r := Resolve(ids, suite.external, UriOfReference(suite, site.refs[i]), doc);
      && r.Ok? && r.value.data.Xml? && DigestMethod(suite, site.refs[i]).Ok?
      && RunList(suite, list, r.value.data, doc, site.sig.node) == Ok(Xml(s))
      && ComputeDigest(suite, site.refs[i], site.Chain(), ids, doc, site.sig.node)
           == suite.digest(DigestMethod(suite, site.refs[i]).value, C14n(Config(mode, comments, s), doc))
  {
    var ref, chain, sig := site.refs[i], site.Chain(), site.sig.node;
    var data := Resolve(ids, suite.external, UriOfReference(suite, ref), doc).value.data;
    var all := TransformsOf(suite, ref, chain).value;
    ResolvesHere(ids, suite.external, UriOfReference(suite, ref), doc);
    DigestedAll(suite, ref, chain, ids, doc, sig);
    hide C14n, Resolve, UriOfReference, DigestMethod, RunList, TransformsOf, ToOctets, Digested, WellIdentified, IdMap;
    RunConcat(suite, list, [Canonicalize(mode, comments)], data, doc, sig);
    NodesStayNodes(suite, list, data.nodeSet, doc, sig);
    s := RunList(suite, list, data, doc, sig).value.nodeSet;
    LastStep(suite, mode, comments, s, doc, sig);
  }

  lemma DigestedAll(suite: Suite, ref: Node, chain: seq<Frame>, ids: map<string, Spot>, doc: Document, sig: Node)
    requires ref.Elem? && TransformsOf(suite, ref, chain).Some? && Resolve(ids, suite.external, UriOfReference(suite, ref), doc).Ok?
    ensures Digested(suite, ref, chain, ids, doc, sig)
      == RunList(suite, TransformsOf(suite, ref, chain).value, Resolve(ids, suite.external, UriOfReference(suite, ref), doc).value.data, doc, sig)
  {
    var data := Resolve(ids, suite.external, UriOfReference(suite, ref), doc).value.data;
    hide Resolve, UriOfReference, RunList, RunTransforms, ReadAll;
    match FirstChild(ref.children, DSIG_NS, "Transforms") {
      case None => RunNothing(suite, data, doc, sig);
      case Some(ts) => RunAsRead(suite, ts.children, Below(ts, Below(ref, chain)), data, doc, sig);
    }
  }

  lemma {:induction false} NodesStayNodes(suite: Suite, list: seq<Transform>, s: Option<NodeSet>, doc: Document, sig: Node)
    requires OfNodes(list)
    ensures var r := RunList(suite, list, Xml(s), doc, sig); r.Ok? ==> r.value.Xml?
  {
    if list != [] {
      var next := Apply(suite, list[0], Xml(s), doc, sig);
      assert next.Ok? ==> next.value.Xml?;
      hide Apply;
      if next.Ok? {
        NodesStayNodes(suite, list[1..], next.value.nodeSet, doc, sig);
      }
    }
  }

  lemma LastStep(suite: Suite, mode: Mode, comments: bool, s: Option<NodeSet>, doc: Document, sig: Node)
    ensures RunList(suite, [Canonicalize(mode, comments)], Xml(s), doc, sig) == Ok(Binary(C14n(Config(mode, comments, s), doc)))
    ensures ToOctets(Binary(C14n(Config(mode, comments, s), doc)), doc) == C14n(Config(mode, comments, s), doc)
    ensures ToOctets(Xml(s), doc) == C14n(Config(Inclusive, false, s), doc)
  {
    hide C14n;
    var list := [Canonicalize(mode, comments)];
    assert list[1..] == [];
  }
}
