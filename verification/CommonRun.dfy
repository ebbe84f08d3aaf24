/**
 The usual cases: references to the document or a part of it with the enveloped-signature transform,
 and references to elements apart from what signing fills in.  What they select avoids the open
 elements, so nothing needs to be assumed about it.
 */
module CommonRun {
  import opened Dom
  import opened NodeSets
  import opened Canonical
  import opened Spots
  import opened XPathEval
  import opened Filter2
  import opened Dsig
  import opened Edits
  import opened Pipeline
  import opened SignRun
  import opened Sites
  import opened Agreement
  import opened VerifyRun
  import opened SignVerify

  predicate IsTransform(n: Node) {
    n.Elem? && n.elem.name.local == "Transform"
  }

  /** Transforms after which a node set shows no more than before: all but those filters that decide
      about namespace nodes themselves.  XPointer, whose outcome depends on all IDs, is not counted. */
  predicate Narrows(t: Transform) {
    !t.XPointer? && (t.XPathFilter? ==> !ReferencesNs(t.expr))
  }

  /** All transforms of the list are of that kind. */
  predicate OnlyNarrows(suite: Suite, ts: seq<Node>, chain: seq<Frame>) {
    forall i :: 0 <= i < |ts| && IsTransform(ts[i]) ==>
      suite.transformOf(ts[i], chain).Ok? && Narrows(suite.transformOf(ts[i], chain).value)
  }

  /** The first transform takes out the signature, the others show no more. */
  predicate EnvelopedFirst(suite: Suite, ts: seq<Node>, chain: seq<Frame>) {
    ts != [] &&
    if IsTransform(ts[0]) then suite.transformOf(ts[0], chain) == Ok(EnvelopedSignature) && OnlyNarrows(suite, ts[1..], chain)
    else EnvelopedFirst(suite, ts[1..], chain)
  }

  /** The URI selects nodes of this document, and the element it names, if any, is none of the holes
      and lies in none. */
  ghost predicate Local(suite: Suite, doc: Document, uri: string, holes: set<nat>) {
    && IdMap(suite.idsOf, doc).Ok?
    && var r := Resolve(IdMap(suite.idsOf, doc).value, suite.external, uri, doc);
       && r.Ok? && r.value.data.Xml?
       && (r.value.target.Some? ==> r.value.target.value.node.id in Outside(doc.children, holes))
  }

  /** The reference takes out the signature first, whatever part of the document it names. */
  ghost predicate EnvelopedReference(suite: Suite, doc: Document, ref: Node, chain: seq<Frame>, holes: set<nat>) {
    && ref.Elem? && Local(suite, doc, UriOfReference(suite, ref), holes)
    && var ts := FirstChild(ref.children, DSIG_NS, "Transforms");
       ts.Some? && EnvelopedFirst(suite, ts.value.children, Below(ts.value, Below(ref, chain)))
  }

  lemma {:induction false} OctetsAreQuiet(suite: Suite, ts: seq<Node>, chain: seq<Frame>, octets: string, doc: Document, sig: Node, holes: set<nat>)
    ensures QuietRun(suite, ts, chain, Binary(octets), doc, sig, holes)
    decreases |ts|
  {
    if ts != [] {
      if !IsTransform(ts[0]) {
        OctetsAreQuiet(suite, ts[1..], chain, octets, doc, sig, holes);
      } else {
        var t := suite.transformOf(ts[0], chain);
        if t.Ok? && suite.onOctets(t.value, octets).Ok? {
          OctetsAreQuiet(suite, ts[1..], chain, suite.onOctets(t.value, octets).value, doc, sig, holes);
        }
      }
    }
  }

  ghost predicate Darker(s: Option<NodeSet>, s2: Option<NodeSet>) {
    forall id :: Dark(s, id) ==> Dark(s2, id)
  }

  lemma {:induction false} DarkerIsQuiet(s: Option<NodeSet>, s2: Option<NodeSet>, ns: seq<Node>, holes: set<nat>)
    requires Quiet(s, ns, holes) && Darker(s, s2)
    ensures Quiet(s2, ns, holes)
    decreases ns
  {
    hide Dark;
    if ns != [] {
      if ns[0].Elem? && ns[0].id !in holes {
        DarkerIsQuiet(s, s2, ns[0].children, holes);
      }
      DarkerIsQuiet(s, s2, ns[1..], holes);
    }
  }

  predicate Listed(s: Option<NodeSet>) {
    s.Some? ==> s.value.setType.Normal?
  }

  lemma NarrowsIsDarker(suite: Suite, t: Transform, s: Option<NodeSet>, doc: Document, sig: Node)
    requires Narrows(t) && Listed(s)
    ensures var r := Apply(suite, t, Xml(s), doc, sig);
      r.Ok? && r.value.Xml? ==> Listed(r.value.nodeSet) && Darker(s, r.value.nodeSet)
  {
    hide AllSpots, C14n, SelectedText, Eval, FilterResult, NsOfSpots;
    NothingDark();
    if t.XPathFilter2? {
      FilterIsDarker(t.steps, t.paths, s, doc);
    } else if s.Some? {
      var r := Apply(suite, t, Xml(s), doc, sig);
      if r.Ok? && r.value.Xml? {
        FewerIsDarker(s.value, r.value.nodeSet.value);
      }
    }
  }

  /** Fewer nodes, with the same namespace nodes or without a map for them. */
  lemma FewerIsDarker(x: NodeSet, y: NodeSet)
    requires x.setType.Normal? && y.setType.Normal? && y.nodes <= x.nodes && (y.nsVisible.None? || y.nsVisible == x.nsVisible)
    ensures Darker(Some(x), Some(y))
  {
    forall id | Dark(Some(x), id) ensures Dark(Some(y), id) {
      assert y.nsVisible.Some? ==> forall p :: y.NsVisible(id, p) == x.NsVisible(id, p);
    }
  }

  lemma FilterIsDarker(steps: seq<FilterStep>, paths: Paths, s: Option<NodeSet>, doc: Document)
    requires Listed(s)
    ensures var r := FilterResult(Selecting(doc, paths), s, doc, steps);
      r.Ok? ==> r.value.setType.Normal? && Darker(s, Some(r.value))
  {
    SelectingIsPlain(doc, paths, steps);
    RunIsFold(Selecting(doc, paths), steps, All(doc), 0);
    hide RunSteps, Selecting, InFold, PlainSets, Dark;
    var run := RunSteps(Selecting(doc, paths), steps, All(doc));
    if run.Ok? && s.Some? {
      FewerIsDarker(s.value, s.value.Intersection(run.value));
    } else if run.Ok? {
      assert forall id :: !Dark(s, id) by {
        NothingDark();
      }
    }
  }

  lemma NothingDark()
    ensures forall id :: !Dark(None, id)
  {
  }

  lemma {:induction false} NarrowIsQuiet(suite: Suite, ts: seq<Node>, chain: seq<Frame>, s: Option<NodeSet>, doc: Document, sig: Node, holes: set<nat>)
    requires OnlyNarrows(suite, ts, chain) && Listed(s) && QuietSet(s, doc, holes)
    ensures QuietRun(suite, ts, chain, Xml(s), doc, sig, holes)
    decreases |ts|
  {
    hide Quiet, Apply, Darker;
    if ts != [] {
      if !IsTransform(ts[0]) {
        NarrowIsQuiet(suite, ts[1..], chain, s, doc, sig, holes);
      } else {
        var t := suite.transformOf(ts[0], chain).value;
        var r := Apply(suite, t, Xml(s), doc, sig);
        if r.Ok? && r.value.Xml? {
          NarrowsIsDarker(suite, t, s, doc, sig);
          DarkerIsQuiet(s, r.value.nodeSet, doc.children, holes);
          NarrowIsQuiet(suite, ts[1..], chain, r.value.nodeSet, doc, sig, holes);
        } else if r.Ok? {
          OctetsAreQuiet(suite, ts[1..], chain, r.value.octets, doc, sig, holes);
        }
      }
    }
  }

  /** Without the signature's nodes the set avoids whatever lies in the signature. */
  lemma WithoutSignatureIsQuiet(doc: Document, sig: Spot, s: NodeSet, holes: set<nat>)
    requires WellIdentified(doc) && sig in AllSpots(doc) && sig.node.Elem? && holes <= ForestIds(sig.node.children)
    requires s.setType.Normal? && s.nsVisible.None? && s.nodes !! Ids(sig.node)
    ensures QuietSet(Some(s), doc, holes)
  {
    DarkQuiet(Some(s), sig.node.children, holes);
    QuietAround(Some(s), doc.children, [], sig, holes);
  }

  lemma {:induction false} EnvelopedIsQuiet(suite: Suite, ts: seq<Node>, chain: seq<Frame>, s: Option<NodeSet>, doc: Document, sig: Spot, holes: set<nat>)
    requires WellIdentified(doc) && sig in AllSpots(doc) && sig.node.Elem? && holes <= ForestIds(sig.node.children)
    requires (s.Some? ==> s.value.setType.Normal? && s.value.nsVisible.None?) && EnvelopedFirst(suite, ts, chain)
    ensures QuietRun(suite, ts, chain, Xml(s), doc, sig.node, holes)
    decreases |ts|
  {
    hide AllSpots, QuietSet, WellIdentified;
    if !IsTransform(ts[0]) {
      EnvelopedIsQuiet(suite, ts[1..], chain, s, doc, sig, holes);
    } else {
      var start := if s.Some? then s.value else All(doc);
      var less := start.(nodes := start.nodes - Ids(sig.node));
      WithoutSignatureIsQuiet(doc, sig, less, holes);
      NarrowIsQuiet(suite, ts[1..], chain, Some(less), doc, sig.node, holes);
    }
  }

  /** What a URI selects in this document lists its members and says nothing about namespace nodes. */
  lemma ResolvedPlain(suite: Suite, ids: map<string, Spot>, uri: string, doc: Document)
    ensures var r := Resolve(ids, suite.external, uri, doc);
      r.Ok? && r.value.data.Xml? && r.value.data.nodeSet.Some? ==>
        r.value.data.nodeSet.value.setType.Normal? && r.value.data.nodeSet.value.nsVisible.None?
  {
    hide XPointerId, SubtreeIds, ForestIds, SubtreesIds;
  }

  lemma EnvelopedAvoids(suite: Suite, doc: Document, ref: Node, chain: seq<Frame>, sig: Spot, holes: set<nat>)
    requires WellIdentified(doc) && sig in AllSpots(doc) && sig.node.Elem? && holes <= ForestIds(sig.node.children)
    requires EnvelopedReference(suite, doc, ref, chain, holes)
    ensures Avoids(suite, ref, chain, IdMap(suite.idsOf, doc).value, doc, sig.node, holes)
  {
    var ids := IdMap(suite.idsOf, doc).value;
    var uri := UriOfReference(suite, ref);
    ResolvedPlain(suite, ids, uri, doc);
    hide AllSpots, WellIdentified, QuietRun, EnvelopedFirst, IdMap, Resolve, FirstChild, Outside, UriOfReference;
    var ts := FirstChild(ref.children, DSIG_NS, "Transforms").value;
    var data := Resolve(ids, suite.external, uri, doc).value.data;
    EnvelopedIsQuiet(suite, ts.children, Below(ts, Below(ref, chain)), data.nodeSet, doc, sig, holes);
  }

  // ---------------------------------------------------------------- editing around a reference

  /** What a URI names is named in the edited document too. */
  lemma LocalKept(suite: Suite, doc: Document, doc2: Document, holes: set<nat>, fewer: set<nat>, uri: string)
    requires Edited(doc, doc2, holes) && fewer <= holes && Local(suite, doc, uri, holes) && IdMap(suite.idsOf, doc2).Ok?
    ensures Local(suite, doc2, uri, fewer)
    ensures var r := Resolve(IdMap(suite.idsOf, doc).value, suite.external, uri, doc).value.target;
      var q := Resolve(IdMap(suite.idsOf, doc2).value, suite.external, uri, doc2).value.target;
      r.Some? ==> q.Some? && AlikeNode(r.value.node, q.value.node, holes)
  {
    var ids, ids2 := IdMap(suite.idsOf, doc).value, IdMap(suite.idsOf, doc2).value;
    SameOutside(doc.children, doc2.children, holes);
    OutsideFewer(doc2.children, holes, fewer);
    hide IdMap, Edited, Outside, XPointerId, SubtreeIds, AllSpots, AlikeNode;
    if uri != "" && uri[0] == '#' && uri[1..] != "xpointer(/)" {
      var id := if XPointerId(uri[1..]).Some? then XPointerId(uri[1..]).value else uri[1..];
      var t := LookupAgrees(suite.idsOf, doc, doc2, holes, ids, ids2, id);
    }
  }

  /** An enveloped reference stays one when the document is edited around it. */
  lemma EnvelopedKept(suite: Suite, doc: Document, doc2: Document, holes: set<nat>, fewer: set<nat>, a: Site, b: Site, i: nat)
    requires Edited(doc, doc2, holes) && fewer <= holes && IdMap(suite.idsOf, doc2).Ok?
    requires SitesAlike(a, b, holes) && Placed(a, holes) && HasDigestValues(a) && i < |a.refs|
    requires EnvelopedReference(suite, doc, a.refs[i], a.Chain(), holes)
    ensures i < |b.refs| && EnvelopedReference(suite, doc2, b.refs[i], b.Chain(), fewer)
  {
    RefsAlike(a, b, holes, i);
    ReferenceRead(suite, a.refs[i], b.refs[i], holes);
    hide FirstChild, UriOfReference, IdMap, EnvelopedFirst, Alike, AlikeNode, Placed, PlacedIn, Edited, SitesAlike, Local;
    LocalKept(suite, doc, doc2, holes, fewer, UriOfReference(suite, a.refs[i]));
  }

  // ---------------------------------------------------------------- elements apart

  /** The reference names an element by its ID and narrows or canonicalizes it; the element neither
      contains nor lies in anything that signing fills in. */
  ghost predicate ApartReference(suite: Suite, doc: Document, ref: Node, chain: seq<Frame>, holes: set<nat>) {
    && ref.Elem? && Local(suite, doc, UriOfReference(suite, ref), holes)
    && (var t := Resolve(IdMap(suite.idsOf, doc).value, suite.external, UriOfReference(suite, ref), doc).value.target;
        t.Some? && Ids(t.value.node) !! holes)
    && (var ts := FirstChild(ref.children, DSIG_NS, "Transforms");
        ts.Some? ==> OnlyNarrows(suite, ts.value.children, Below(ts.value, Below(ref, chain))))
  }

  lemma SubtreeIsQuiet(doc: Document, t: Spot, comments: bool, holes: set<nat>)
    requires WellIdentified(doc) && t in AllSpots(doc) && t.node.id in Outside(doc.children, holes) && Ids(t.node) !! holes
    ensures QuietSet(Some(FromIds(SubtreeIds(t.node, comments))), doc, holes)
  {
    SubtreeIdsWithin(t.node, comments);
    QuietAside(Some(FromIds(SubtreeIds(t.node, comments))), doc.children, [], t, holes);
  }

  lemma ApartAvoids(suite: Suite, doc: Document, ref: Node, chain: seq<Frame>, sig: Node, holes: set<nat>)
    requires WellIdentified(doc) && ApartReference(suite, doc, ref, chain, holes)
    ensures Avoids(suite, ref, chain, IdMap(suite.idsOf, doc).value, doc, sig, holes)
  {
    var ids := IdMap(suite.idsOf, doc).value;
    var uri := UriOfReference(suite, ref);
    var r := Resolve(ids, suite.external, uri, doc).value;
    var t := r.target.value;
    ResolvedSubtree(suite, ids, uri, doc);
    hide IdMap, AllSpots, Resolve, QuietSet, QuietRun, OnlyNarrows, FirstChild, Outside, XPointerId, SubtreeIds;
    var pointer := XPointerId(uri[1..]).Some?;
    SubtreeIsQuiet(doc, t, pointer, holes);
    match FirstChild(ref.children, DSIG_NS, "Transforms") {
      case None =>
      case Some(ts) => NarrowIsQuiet(suite, ts.children, Below(ts, Below(ref, chain)), r.data.nodeSet, doc, sig, holes);
    }
  }

  lemma ResolvedSubtree(suite: Suite, ids: map<string, Spot>, uri: string, doc: Document)
    requires IdMap(suite.idsOf, doc) == Ok(ids)
    ensures var r := Resolve(ids, suite.external, uri, doc);
      r.Ok? && r.value.target.Some? ==>
        && uri != "" && r.value.target.value in AllSpots(doc)
        && r.value.data == Xml(Some(FromIds(SubtreeIds(r.value.target.value.node, XPointerId(uri[1..]).Some?))))
  {
    IdMapIsExact(suite.idsOf, doc);
    hide IdMap, AllSpots, XPointerId, SubtreeIds;
    var r := Resolve(ids, suite.external, uri, doc);
    if r.Ok? && r.value.target.Some? {
      var id := if XPointerId(uri[1..]).Some? then XPointerId(uri[1..]).value else uri[1..];
      assert MapsTo(ids, id, r.value.target.value);
    }
  }

  /** Such a reference stays one when the document is edited in the open elements. */
  lemma ApartKept(suite: Suite, doc: Document, doc2: Document, holes: set<nat>, fewer: set<nat>, a: Site, b: Site, i: nat)
    requires Edited(doc, doc2, holes) && fewer <= holes && IdMap(suite.idsOf, doc2).Ok?
    requires SitesAlike(a, b, holes) && Placed(a, holes) && HasDigestValues(a) && i < |a.refs|
    requires ApartReference(suite, doc, a.refs[i], a.Chain(), holes)
    ensures i < |b.refs| && ApartReference(suite, doc2, b.refs[i], b.Chain(), fewer)
  {
    RefsAlike(a, b, holes, i);
    ReferenceRead(suite, a.refs[i], b.refs[i], holes);
    var uri := UriOfReference(suite, a.refs[i]);
    var r := Resolve(IdMap(suite.idsOf, doc).value, suite.external, uri, doc).value.target;
    hide FirstChild, UriOfReference, IdMap, OnlyNarrows, Alike, AlikeNode, Placed, PlacedIn, Edited, SitesAlike, Local, Resolve;
    LocalKept(suite, doc, doc2, holes, fewer, uri);
    var q := Resolve(IdMap(suite.idsOf, doc2).value, suite.external, uri, doc2).value.target;
    AlikeWholeNode(r.value.node, q.value.node, holes);
  }

  // ---------------------------------------------------------------- the run

  /** A reference that takes out the signature, or one to an element apart from it. */
  ghost predicate CommonReference(suite: Suite, doc: Document, site: Site, i: nat)
    requires site.sig.node.Elem? && HasDigestValues(site) && i < |site.refs|
  {
    || EnvelopedReference(suite, doc, site.refs[i], site.Chain(), HolesFrom(site, 0))
    || ApartReference(suite, doc, site.refs[i], site.Chain(), HolesFrom(site, 0))
  }

  lemma CommonAside(suite: Suite, doc0: Document, site0: Site, doc: Document, site: Site, i: nat)
    requires WellIdentified(doc0) && IsSite(doc0, site0) && HasDigestValues(site0) && site0.sig.node.Elem? && i < |site0.refs|
    requires CommonReference(suite, doc0, site0, i)
    requires Edited(doc0, doc, HolesFrom(site0, 0)) && IsSite(doc, site) && SitesAlike(site0, site, HolesFrom(site0, 0))
    ensures SelectsAside(suite, doc, i, HolesFrom(site0, i))
  {
    var all, holes := HolesFrom(site0, 0), HolesFrom(site0, i);
    assert WellIdentified(doc) && site.sig.node.Elem?;
    HolesShrink(site0, i);
    HolesArePlaced(doc0, site0);
    SameHoles(site0, site, all);
    HolesArePlaced(doc, site);
    PlacedBelow(site, all);
    SitesGiven(doc, site);
    SiteSpot(doc, site);
    hide HolesFrom, IsSite, SitesAlike, Edited, IdMap, EnvelopedReference, ApartReference, Placed;
    if IdMap(suite.idsOf, doc).Ok? && EnvelopedReference(suite, doc0, site0.refs[i], site0.Chain(), all) {
      EnvelopedKept(suite, doc0, doc, all, holes, site0, site, i);
      EnvelopedAvoids(suite, doc, site.refs[i], site.Chain(), site.sig, holes);
    } else if IdMap(suite.idsOf, doc).Ok? {
      ApartKept(suite, doc0, doc, all, holes, site0, site, i);
      ApartAvoids(suite, doc, site.refs[i], site.Chain(), site.sig.node, holes);
    }
  }

  lemma CommonPass(suite: Suite, docs: seq<Document>, site0: Site, final: Document, i: nat)
    requires Coding(suite) && Run(suite, docs, 0) && |docs| == |site0.refs| + 1 && Template(suite, docs[0], site0)
    requires site0.sig.node.Elem? && Finished(docs[|site0.refs|], site0, final) && i < |site0.refs|
    requires CommonReference(suite, docs[0], site0, i)
    ensures SelectsAside(suite, docs[i], i, HolesFrom(site0, i)) && SelectsAside(suite, final, i, HolesFrom(site0, i))
  {
    Progress(suite, docs, site0, i);
    ToFinal(suite, docs, site0, final, 0);
    EditedMore(suite, docs[0], site0, docs[i], i);
    HolesArePlaced(docs[0], site0);
    assert WellIdentified(docs[0]) && IsSite(docs[0], site0);
    hide *;
    var all := HolesFrom(site0, 0);
    var site := SiteKept(docs[0], docs[i], all, site0);
    CommonAside(suite, docs[0], site0, docs[i], site, i);
    var siteF := SiteKept(docs[0], final, all, site0);
    CommonAside(suite, docs[0], site0, final, siteF, i);
  }

  lemma EditedMore(suite: Suite, doc0: Document, site0: Site, doc: Document, i: nat)
    requires Template(suite, doc0, site0) && site0.sig.node.Elem? && i <= |site0.refs| && Agreement.Reached(doc0, site0, doc, i)
    ensures Edited(doc0, doc, HolesFrom(site0, 0))
  {
    HolesOfTemplate(suite, doc0, site0, i);
    TopsAreNoHoles(doc0, site0, HolesFrom(site0, 0));
    AlikeMore(doc0.children, doc.children, Done(site0, i), HolesFrom(site0, 0));
  }

  lemma HolesShrink(site: Site, i: nat)
    requires site.sig.node.Elem? && HasDigestValues(site)
    ensures HolesFrom(site, i) <= HolesFrom(site, 0)
  {
  }

  lemma PlacedBelow(site: Site, holes: set<nat>)
    requires Placed(site, holes)
    ensures site.sig.node.Elem? && holes <= ForestIds(site.sig.node.children)
  {
  }

  /** The usual signatures: every template whose references are enveloped, or name elements apart from
      the open ones, signed and finished, has matching digests, whatever KeyInfo was filled with. */
  lemma CommonDigestsMatch(suite: Suite, docs: seq<Document>, site0: Site, final: Document)
    requires Coding(suite) && Run(suite, docs, 0) && |docs| == |site0.refs| + 1 && Template(suite, docs[0], site0)
    requires site0.sig.node.Elem? && Finished(docs[|site0.refs|], site0, final) && IdMap(suite.idsOf, final).Ok?
    requires forall i :: 0 <= i < |site0.refs| ==> CommonReference(suite, docs[0], site0, i)
    ensures Signed(suite, docs, site0, final)
    ensures forall i :: 0 <= i < |site0.refs| ==> Matches(suite, final, i)
  {
    assert HasDigestValues(site0);
    hide Coding, Run, Template, Finished, IdMap, CommonReference, SelectsAside, HolesFrom, Matches;
    forall i | 0 <= i < |site0.refs|
      ensures SelectsAside(suite, docs[i], i, HolesFrom(site0, i)) && SelectsAside(suite, final, i, HolesFrom(site0, i))
    {
      CommonPass(suite, docs, site0, final, i);
    }
    SignedDigestsMatch(suite, docs, site0, final);
  }

  /** In particular templates whose references are all enveloped. */
  lemma EnvelopedDigestsMatch(suite: Suite, docs: seq<Document>, site0: Site, final: Document)
    requires Coding(suite) && Run(suite, docs, 0) && |docs| == |site0.refs| + 1 && Template(suite, docs[0], site0)
    requires site0.sig.node.Elem? && Finished(docs[|site0.refs|], site0, final) && IdMap(suite.idsOf, final).Ok?
    requires forall i :: 0 <= i < |site0.refs| ==> EnvelopedReference(suite, docs[0], site0.refs[i], site0.Chain(), HolesFrom(site0, 0))
    ensures forall i :: 0 <= i < |site0.refs| ==> Matches(suite, final, i)
  {
    hide Coding, Run, Finished, IdMap, EnvelopedReference, ApartReference, HolesFrom, Matches, IsSite, VacantIds, EmptyValue;
    CommonDigestsMatch(suite, docs, site0, final);
  }

  /** From the template to the verdict: what signing makes of a template with usual references
      verifies as Valid if and only if the signature is accepted over the octets that were signed,
      and in strict mode the targets are well placed. */
  lemma SignThenVerify(suite: Suite, modeOf: ModeReader, signer: (Node, string) -> Result<string>,
                       populate: Document -> Result<Document>, checks: Checks, template: Document, site0: Site, final: Document)
    requires Ready(suite, populate, template, site0) && HasDigestValues(site0)
    requires forall i :: 0 <= i < |site0.refs| ==> CommonReference(suite, template, site0, i)
    requires Signing(suite, modeOf, signer, populate, template) == Ok(final)
    ensures var filled := SignSteps(suite, template, 0, |site0.refs|);
      && filled.Ok? && SiteOf(filled.value).Ok? && site0.info.Elem? && SiteOf(final).Ok? && SiteOf(final).value.sig.node.Elem? && Reports(suite, final).Some?
      && (Verified(suite, checks, final).Ok? && Verified(suite, checks, final).value.Valid? <==>
            && Cleared(suite, checks, site0.info, SiteOf(final).value.sig, SiteOf(filled.value).value.info, filled.value)
            && (checks.strict ==> AllPlaced(final, SiteOf(final).value.sig, Reports(suite, final).value)))
  {
    assert Coding(suite) && Template(suite, template, site0) && site0.sig.node.Elem?;
    hide *;
    var docs := SigningFinishes(suite, modeOf, signer, populate, template, site0, final);
    CommonDigestsMatch(suite, docs, site0, final);
    SignedDocumentVerifies(suite, checks, docs, site0, final);
  }
}
