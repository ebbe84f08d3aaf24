/**
 The signature of a document before and after edits inside its DigestValue, SignatureValue
 and KeyInfo elements: it is found at the same place, and its references are read the same.
 */
module Sites {
  import opened Dom
  import opened NodeSets
  import opened Canonical
  import opened Spots
  import opened Dsig
  import opened Edits
  import opened Pipeline
  import opened SignRun

  // ---------------------------------------------------------------- looking up

  lemma {:induction false} FirstChildAlike(ns: seq<Node>, ms: seq<Node>, holes: set<nat>, uri: string, local: string)
    requires Alike(ns, ms, holes)
    ensures var a, b := FirstChild(ns, uri, local), FirstChild(ms, uri, local);
      a.Some? == b.Some? && (a.Some? ==> AlikeNode(a.value, b.value, holes))
  {
    if ns != [] {
      FirstChildAlike(ns[1..], ms[1..], holes, uri, local);
    }
  }

  lemma {:induction false} ChildrenAlike(ns: seq<Node>, ms: seq<Node>, holes: set<nat>, uri: string, local: string)
    requires Alike(ns, ms, holes)
    ensures Alike(ChildrenNamed(ns, uri, local), ChildrenNamed(ms, uri, local), holes)
  {
    if ns != [] {
      ChildrenAlike(ns[1..], ms[1..], holes, uri, local);
      var a, b := ChildrenNamed(ns[1..], uri, local), ChildrenNamed(ms[1..], uri, local);
      if Is(ns[0], uri, local) {
        assert ([ns[0]] + a)[1..] == a && ([ms[0]] + b)[1..] == b;
      } else {
        assert [] + a == a && [] + b == b;
      }
    }
  }

  lemma {:induction false} AlikeAt(ns: seq<Node>, ms: seq<Node>, holes: set<nat>, i: nat)
    requires Alike(ns, ms, holes) && i < |ns|
    ensures AlikeNode(ns[i], ms[i], holes)
  {
    if i > 0 {
      AlikeAt(ns[1..], ms[1..], holes, i - 1);
    }
  }

  /** The first element of a name stays the first if all holes are below it. */
  lemma {:induction false} FirstSpotAlike(ns: seq<Node>, ms: seq<Node>, holes: set<nat>, chain: seq<Frame>, uri: string, local: string)
    requires Alike(ns, ms, holes) && UniqueIds(ns)
    requires var s := FirstSpot(Spots.Spots(ns, chain), uri, local);
      s.Some? && holes * ForestIds(ns) <= ForestIds(s.value.node.children)
    ensures var s, t := FirstSpot(Spots.Spots(ns, chain), uri, local), FirstSpot(Spots.Spots(ms, chain), uri, local);
      t.Some? && SameSpot(s.value, t.value, holes)
    decreases ns, 0
  {
    var n, m := ns[0], ms[0];
    FirstSpotConcat(NodeSpots(n, chain), Spots.Spots(ns[1..], chain), uri, local);
    FirstSpotConcat(NodeSpots(m, chain), Spots.Spots(ms[1..], chain), uri, local);
    var s := FirstSpot(Spots.Spots(ns, chain), uri, local).value;
    InNode(n, chain, s);
    hide NodeSpots;
    assert Ids(s.node) == {s.node.id} + ForestIds(s.node.children);
    if FirstSpot(NodeSpots(n, chain), uri, local).Some? {
      FirstSpotAlikeNode(n, m, holes, chain, uri, local);
    } else {
      SpotIdsIn(ns[1..], chain, s);
      assert holes !! Ids(n);
      AlikeWholeNode(n, m, holes);
      FirstSpotAlike(ns[1..], ms[1..], holes, chain, uri, local);
    }
  }

  /** The same place and id, and alike. */
  predicate SameSpot(s: Spot, t: Spot, holes: set<nat>) {
    s.node.id !in holes && s.above == t.above && AlikeNode(s.node, t.node, holes)
  }

  lemma AlikeWholeNode(n: Node, m: Node, holes: set<nat>)
    requires AlikeNode(n, m, holes) && holes !! Ids(n)
    ensures n == m
  {
    assert n.id in Ids(n);
    if n.Elem? {
      AlikeWhole(n.children, m.children, holes);
    }
  }

  lemma {:induction false} FirstSpotAlikeNode(n: Node, m: Node, holes: set<nat>, chain: seq<Frame>, uri: string, local: string)
    requires AlikeNode(n, m, holes) && UniqueNode(n)
    requires var s := FirstSpot(NodeSpots(n, chain), uri, local);
      s.Some? && holes * Ids(n) <= ForestIds(s.value.node.children)
    ensures var s, t := FirstSpot(NodeSpots(n, chain), uri, local), FirstSpot(NodeSpots(m, chain), uri, local);
      t.Some? && SameSpot(s.value, t.value, holes)
    decreases n, 1
  {
    var s := FirstSpot(NodeSpots(n, chain), uri, local).value;
    assert n.id in Ids(n);
    SpotsOfNode(n, chain);
    SpotsOfNode(m, chain);
    if Is(n, uri, local) {
      assert s == Spot(n, chain);
      assert n.id !in holes;
    } else {
      var kids := Spots.Spots(n.children, Below(n, chain));
      assert FirstSpot(kids, uri, local) == Some(s);
      SpotIdsIn(n.children, Below(n, chain), s);
      assert n.id !in holes;
      FirstSpotAlike(n.children, m.children, holes, Below(n, chain), uri, local);
    }
  }

  lemma SpotsOfNode(n: Node, chain: seq<Frame>)
    ensures NodeSpots(n, chain) != [] && NodeSpots(n, chain)[0] == Spot(n, chain)
    ensures n.Elem? ==> NodeSpots(n, chain)[1..] == Spots.Spots(n.children, Below(n, chain))
    ensures !n.Elem? ==> NodeSpots(n, chain)[1..] == []
  {
  }

  // ---------------------------------------------------------------- the holes of a signature

  /** The elements that are written after the references: SignatureValue and KeyInfo. */
  function Late(site: Site): set<nat>
    requires site.sig.node.Elem?
  {
    set i | 0 <= i < |site.sig.node.children| && IsLate(site.sig.node.children[i]) :: site.sig.node.children[i].id
  }

  predicate IsLate(n: Node) {
    Is(n, DSIG_NS, "SignatureValue") || Is(n, DSIG_NS, "KeyInfo")
  }

  function DigestValueOf(ref: Node): Option<Node>
    requires ref.Elem?
  {
    FirstChild(ref.children, DSIG_NS, "DigestValue")
  }

  /** Every reference has a DigestValue. */
  predicate HasDigestValues(site: Site) {
    forall i :: 0 <= i < |site.refs| ==> site.refs[i].Elem? && DigestValueOf(site.refs[i]).Some?
  }

  function DigestId(site: Site, i: nat): nat
    requires HasDigestValues(site) && i < |site.refs|
  {
    DigestValueOf(site.refs[i]).value.id
  }

  /** What is still open when reference `i` is digested. */
  function HolesFrom(site: Site, i: nat): set<nat>
    requires site.sig.node.Elem? && HasDigestValues(site)
  {
    Late(site) + set j | i <= j < |site.refs| :: DigestId(site, j)
  }

  /** Holes lie below the signature and outside what tells how to digest. */
  ghost predicate Placed(site: Site, holes: set<nat>) {
    && site.sig.node.Elem? && site.info.Elem?
    && holes <= ForestIds(site.sig.node.children) && site.info.id !in holes
    && (forall i :: 0 <= i < |site.refs| ==> PlacedIn(site.refs[i], holes))
    && (forall c :: c in site.info.children && IsMethod(c) ==> Ids(c) !! holes)
  }

  predicate IsMethod(n: Node) {
    Is(n, DSIG_NS, "CanonicalizationMethod") || Is(n, DSIG_NS, "SignatureMethod")
  }

  ghost predicate PlacedIn(ref: Node, holes: set<nat>) {
    && ref.Elem? && ref.id !in holes
    && forall c :: c in ref.children && (Is(c, DSIG_NS, "Transforms") || Is(c, DSIG_NS, "DigestMethod")) ==> Ids(c) !! holes
  }

  lemma {:induction false} MembersApart(ns: seq<Node>, a: Node, b: Node)
    requires UniqueIds(ns) && a in ns && b in ns && a != b
    ensures Ids(a) !! Ids(b)
  {
    if ns[0] == a {
      assert b in ns[1..];
      var i :| 0 <= i < |ns[1..]| && ns[1..][i] == b;
      IdsOfMember(ns[1..], i);
    } else if ns[0] == b {
      assert a in ns[1..];
      var i :| 0 <= i < |ns[1..]| && ns[1..][i] == a;
      IdsOfMember(ns[1..], i);
    } else {
      MembersApart(ns[1..], a, b);
    }
  }

  lemma {:induction false} MemberUnique(ns: seq<Node>, a: Node)
    requires UniqueIds(ns) && a in ns
    ensures UniqueNode(a) && Ids(a) <= ForestIds(ns)
  {
    if ns[0] != a {
      MemberUnique(ns[1..], a);
    }
  }

  ghost predicate IsSite(doc: Document, site: Site) {
    SiteOf(doc) == Ok(site)
  }

  lemma SiteParts(doc: Document, site: Site)
    requires WellIdentified(doc) && IsSite(doc, site)
    ensures site.sig in AllSpots(doc) && Is(site.sig.node, DSIG_NS, "Signature")
    ensures site.info in site.sig.node.children && Is(site.info, DSIG_NS, "SignedInfo")
    ensures site.refs == ChildrenNamed(site.info.children, DSIG_NS, "Reference")
    ensures forall r :: r in site.refs ==> r in site.info.children && Is(r, DSIG_NS, "Reference")
    ensures UniqueNode(site.sig.node) && UniqueNode(site.info)
  {
    UniqueBelow(doc.children, [], site.sig);
    MemberUnique(site.sig.node.children, site.info);
  }

  /** The holes of a signature are where they should be. */
  lemma HolesArePlaced(doc: Document, site: Site)
    requires WellIdentified(doc) && IsSite(doc, site) && HasDigestValues(site)
    ensures Placed(site, HolesFrom(site, 0))
  {
    SiteParts(doc, site);
    forall h | h in HolesFrom(site, 0) ensures h in ForestIds(site.sig.node.children) && h != site.info.id {
      HoleIsBelow(site, h);
    }
    forall i | 0 <= i < |site.refs| ensures PlacedIn(site.refs[i], HolesFrom(site, 0)) {
      RefIsPlaced(site, site.refs[i]);
    }
    forall c, h | c in site.info.children && IsMethod(c) && h in HolesFrom(site, 0) ensures h !in Ids(c) {
      MethodApart(site, c, h);
    }
  }

  lemma MethodApart(site: Site, c: Node, h: nat)
    requires Sound(site) && c in site.info.children && IsMethod(c) && h in HolesFrom(site, 0)
    ensures h !in Ids(c)
  {
    var late, n, ref := HoleKinds(site, h);
    assert h in Ids(n);
    MemberUnique(site.sig.node.children, site.info);
    MemberUnique(site.info.children, c);
    if late {
      MembersApart(site.sig.node.children, n, site.info);
    } else {
      MemberUnique(site.info.children, ref);
      MemberUnique(ref.children, n);
      MembersApart(site.info.children, ref, c);
    }
  }

  /** A site as it is found in a document with unique ids. */
  ghost predicate Sound(site: Site) {
    && site.sig.node.Elem? && UniqueIds(site.sig.node.children) && HasDigestValues(site)
    && site.info in site.sig.node.children && Is(site.info, DSIG_NS, "SignedInfo")
    && forall r :: r in site.refs ==> r in site.info.children && Is(r, DSIG_NS, "Reference")
  }

  /** A hole is a late child of the signature or the DigestValue of a reference. */
  lemma HoleKinds(site: Site, h: nat) returns (late: bool, n: Node, ref: Node)
    requires Sound(site) && h in HolesFrom(site, 0)
    ensures n.id == h && n.Elem?
    ensures late ==> n in site.sig.node.children && IsLate(n)
    ensures !late ==> ref in site.refs && ref.Elem? && n in ref.children && Is(n, DSIG_NS, "DigestValue")
  {
    if h in Late(site) {
      var i :| 0 <= i < |site.sig.node.children| && IsLate(site.sig.node.children[i]) && site.sig.node.children[i].id == h;
      late, n, ref := true, site.sig.node.children[i], site.sig.node;
    } else {
      var j :| 0 <= j < |site.refs| && DigestId(site, j) == h;
      late, n, ref := false, DigestValueOf(site.refs[j]).value, site.refs[j];
    }
  }

  lemma HoleIsBelow(site: Site, h: nat)
    requires Sound(site) && h in HolesFrom(site, 0)
    ensures h in ForestIds(site.sig.node.children) && h != site.info.id
  {
    var late, n, ref := HoleKinds(site, h);
    assert h in Ids(n) && site.info.id in Ids(site.info);
    MemberUnique(site.sig.node.children, site.info);
    if late {
      MemberUnique(site.sig.node.children, n);
      MembersApart(site.sig.node.children, n, site.info);
    } else {
      MemberUnique(site.info.children, ref);
      MemberUnique(ref.children, n);
    }
  }

  lemma RefIsPlaced(site: Site, r: Node)
    requires Sound(site) && r in site.refs
    ensures PlacedIn(r, HolesFrom(site, 0))
  {
    MemberUnique(site.sig.node.children, site.info);
    MemberUnique(site.info.children, r);
    assert r.id in Ids(r);
    forall h | h in HolesFrom(site, 0) ensures h != r.id {
      HoleApart(site, r, r, h);
    }
    forall c | c in r.children && (Is(c, DSIG_NS, "Transforms") || Is(c, DSIG_NS, "DigestMethod")) ensures Ids(c) !! HolesFrom(site, 0) {
      forall h | h in HolesFrom(site, 0) ensures h !in Ids(c) {
        HoleApart(site, r, c, h);
      }
    }
  }

  lemma HoleApart(site: Site, r: Node, c: Node, h: nat)
    requires Sound(site) && r in site.refs && h in HolesFrom(site, 0) && r.Elem?
    requires c == r || (c in r.children && (Is(c, DSIG_NS, "Transforms") || Is(c, DSIG_NS, "DigestMethod")))
    ensures h != c.id && (c != r ==> h !in Ids(c))
  {
    var late, n, ref := HoleKinds(site, h);
    assert h in Ids(n) && c.id in Ids(c);
    MemberUnique(site.sig.node.children, site.info);
    MemberUnique(site.info.children, r);
    if c != r {
      MemberUnique(r.children, c);
    }
    assert Ids(c) <= Ids(r) <= Ids(site.info);
    if late {
      MembersApart(site.sig.node.children, n, site.info);
    } else {
      MemberUnique(site.info.children, ref);
      MemberUnique(ref.children, n);
      if ref != r {
        MembersApart(site.info.children, ref, r);
      } else if c != r {
        MembersApart(r.children, c, n);
      }
    }
  }

  // ---------------------------------------------------------------- the same signature in both documents

  /** The two sites are at the same place, and their references are alike. */
  ghost predicate SitesAlike(a: Site, b: Site, holes: set<nat>) {
    && a.sig.node.Elem? && b.sig.node.Elem? && SameSpot(a.sig, b.sig, holes) && a.Chain() == b.Chain() && a.sig.node.id == b.sig.node.id
    && a.info.id == b.info.id && AlikeNode(a.info, b.info, holes)
    && Alike(a.sig.node.children, b.sig.node.children, holes) && Alike(a.refs, b.refs, holes)
  }

  lemma SiteKept(doc: Document, doc2: Document, holes: set<nat>, site: Site) returns (site2: Site)
    requires Edited(doc, doc2, holes) && IsSite(doc, site) && Placed(site, holes)
    ensures IsSite(doc2, site2) && SitesAlike(site, site2, holes)
  {
    SiteParts(doc, site);
    FirstSpotAlike(doc.children, doc2.children, holes, [], DSIG_NS, "Signature");
    var sig2 := FirstSpot(AllSpots(doc2), DSIG_NS, "Signature").value;
    hide Spots.Spots, FirstSpot;
    assert Alike(site.sig.node.children, sig2.node.children, holes);
    FirstChildAlike(site.sig.node.children, sig2.node.children, holes, DSIG_NS, "SignedInfo");
    var info2 := FirstChild(sig2.node.children, DSIG_NS, "SignedInfo").value;
    hide FirstChild;
    assert Alike(site.info.children, info2.children, holes);
    ChildrenAlike(site.info.children, info2.children, holes, DSIG_NS, "Reference");
    site2 := Site(sig2, info2, ChildrenNamed(info2.children, DSIG_NS, "Reference"));
  }

  /** The reference's URI, digest method and transforms are the same in both documents. */
  lemma ReferenceRead(suite: Suite, ref: Node, ref2: Node, holes: set<nat>)
    requires PlacedIn(ref, holes) && AlikeNode(ref, ref2, holes)
    ensures ref2.Elem? && ref2.elem == ref.elem
    ensures UriOfReference(suite, ref) == UriOfReference(suite, ref2)
    ensures DigestMethod(suite, ref) == DigestMethod(suite, ref2)
    ensures FirstChild(ref.children, DSIG_NS, "Transforms") == FirstChild(ref2.children, DSIG_NS, "Transforms")
    ensures var a, b := DigestValueOf(ref), DigestValueOf(ref2);
      a.Some? == b.Some? && (a.Some? ==> AlikeNode(a.value, b.value, holes))
  {
    FirstChildAlike(ref.children, ref2.children, holes, DSIG_NS, "Transforms");
    FirstChildAlike(ref.children, ref2.children, holes, DSIG_NS, "DigestMethod");
    FirstChildAlike(ref.children, ref2.children, holes, DSIG_NS, "DigestValue");
    var t, m := FirstChild(ref.children, DSIG_NS, "Transforms"), FirstChild(ref.children, DSIG_NS, "DigestMethod");
    hide Alike, AlikeNode;
    if t.Some? {
      AlikeWholeNode(t.value, FirstChild(ref2.children, DSIG_NS, "Transforms").value, holes);
    }
    if m.Some? {
      AlikeWholeNode(m.value, FirstChild(ref2.children, DSIG_NS, "DigestMethod").value, holes);
    }
  }

  /** The algorithms that SignedInfo names are the same in both documents. */
  lemma MethodsRead(suite: Suite, modeOf: ModeReader, a: Site, b: Site, holes: set<nat>)
    requires SitesAlike(a, b, holes) && Placed(a, holes)
    ensures b.info.Elem? && ReadMethods(suite, modeOf, b.info) == ReadMethods(suite, modeOf, a.info)
  {
    MethodRead(suite, a, b, holes, "CanonicalizationMethod");
    MethodRead(suite, a, b, holes, "SignatureMethod");
    hide MethodChild;
  }

  lemma MethodRead(suite: Suite, a: Site, b: Site, holes: set<nat>, local: string)
    requires SitesAlike(a, b, holes) && Placed(a, holes) && (local == "CanonicalizationMethod" || local == "SignatureMethod")
    ensures b.info.Elem? && MethodChild(suite, b.info, local) == MethodChild(suite, a.info, local)
  {
    FirstChildAlike(a.info.children, b.info.children, holes, DSIG_NS, local);
    var c, d := FirstChild(a.info.children, DSIG_NS, local), FirstChild(b.info.children, DSIG_NS, local);
    hide Alike, AlikeNode;
    if c.Some? {
      assert IsMethod(c.value);
      AlikeWholeNode(c.value, d.value, holes);
    }
  }

  // ---------------------------------------------------------------- the same digest

  lemma ResolveAgrees(suite: Suite, doc: Document, doc2: Document, holes: set<nat>, ids: map<string, Spot>, ids2: map<string, Spot>, uri: string)
    requires Edited(doc, doc2, holes) && IdMap(suite.idsOf, doc) == Ok(ids) && IdMap(suite.idsOf, doc2) == Ok(ids2)
    requires var r := Resolve(ids, suite.external, uri, doc);
      r.Ok? && (r.value.target.Some? ==> r.value.target.value.node.id in Outside(doc.children, holes))
    ensures var r, q := Resolve(ids, suite.external, uri, doc), Resolve(ids2, suite.external, uri, doc2);
      && q.Ok? && DataAgree(r.value.data, q.value.data, Outside(doc.children, holes))
      && r.value.target.Some? == q.value.target.Some?
  {
    WholeAgrees(doc, doc2, holes);
    hide IdMap, AllSpots, Outside, Edited, SubtreeIds, XPointerId, FromIds, AllWithoutComments, All, SetsAgree, HasSuffix, Between;
    if uri != "" && uri[0] == '#' && uri[1..] != "xpointer(/)" {
      var pointer := XPointerId(uri[1..]);
      TargetAgrees(suite.idsOf, doc, doc2, holes, ids, ids2, if pointer.Some? then pointer.value else uri[1..], pointer.Some?);
    }
    NoSetAgrees(Outside(doc.children, holes));
  }

  lemma NoSetAgrees(ids: set<nat>)
    ensures SetsAgree(None, None, ids)
  {
  }

  /** What reference processing selects avoids the holes. */
  ghost predicate Avoids(suite: Suite, ref: Node, chain: seq<Frame>, ids: map<string, Spot>, doc: Document, sig: Node, holes: set<nat>)
    requires ref.Elem?
  {
    var r := Resolve(ids, suite.external, UriOfReference(suite, ref), doc);
    r.Ok? ==>
      && (r.value.target.Some? ==> r.value.target.value.node.id in Outside(doc.children, holes))
      && match FirstChild(ref.children, DSIG_NS, "Transforms")
         case None => r.value.data.Xml? ==> QuietSet(r.value.data.nodeSet, doc, holes)
         case Some(ts) => QuietRun(suite, ts.children, Below(ts, Below(ref, chain)), r.value.data, doc, sig, holes)
  }

  /** A reference that avoids the holes in both documents has the same digest in both. */
  lemma DigestAgrees(suite: Suite, doc: Document, doc2: Document, holes: set<nat>, site: Site, site2: Site,
                     ids: map<string, Spot>, ids2: map<string, Spot>, ref: Node, ref2: Node)
    requires Edited(doc, doc2, holes) && IdMap(suite.idsOf, doc) == Ok(ids) && IdMap(suite.idsOf, doc2) == Ok(ids2)
    requires site.sig in AllSpots(doc) && site2.sig in AllSpots(doc2) && SitesAlike(site, site2, holes)
    requires PlacedIn(ref, holes) && AlikeNode(ref, ref2, holes) && ref2.Elem?
    requires Avoids(suite, ref, site.Chain(), ids, doc, site.sig.node, holes)
    requires Avoids(suite, ref2, site2.Chain(), ids2, doc2, site2.sig.node, holes)
    requires ComputeDigest(suite, ref, site.Chain(), ids, doc, site.sig.node).Ok?
    ensures ComputeDigest(suite, ref2, site2.Chain(), ids2, doc2, site2.sig.node)
         == ComputeDigest(suite, ref, site.Chain(), ids, doc, site.sig.node)
    ensures Resolve(ids2, suite.external, UriOfReference(suite, ref2), doc2).Ok?
  {
    ReferenceRead(suite, ref, ref2, holes);
    var uri := UriOfReference(suite, ref);
    hide IdMap, AllSpots, Outside, Edited, Resolve, UriOfReference, DigestMethod, QuietSet, QuietRun, Alike, AlikeNode, FirstChild, C14n;
    ResolveAgrees(suite, doc, doc2, holes, ids, ids2, uri);
    var a := Resolve(ids, suite.external, uri, doc).value.data;
    var b := Resolve(ids2, suite.external, uri, doc2).value.data;
    match FirstChild(ref.children, DSIG_NS, "Transforms") {
      case None =>
        if a.Xml? {
          EditedCanon(Inclusive, false, a.nodeSet, b.nodeSet, doc, doc2, holes);
        }
      case Some(ts) =>
        assert Below(ref, site.Chain()) == Below(ref2, site2.Chain()) by { SameBelow(ref, ref2, site.Chain(), holes); }
        RunAgrees(suite, ts.children, Below(ts, Below(ref, site.Chain())), a, b, doc, doc2, holes, site.sig, site2.sig);
    }
  }

  lemma SameBelow(n: Node, m: Node, chain: seq<Frame>, holes: set<nat>)
    requires AlikeNode(n, m, holes) && n.Elem? && m.Elem? && n.elem == m.elem
    ensures Below(n, chain) == Below(m, chain)
  {
  }
}
