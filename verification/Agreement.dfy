/**
 Sign, then verify: on the finished document every digest that verification recomputes is the
 digest that signing stored, and the octets under the signature are the octets that were signed.
 */
module Agreement {
  import opened Dom
  import opened Spots
  import opened XPathText
  import opened Dsig
  import opened Edits
  import opened SignRun
  import opened Sites
  import opened VerifyRun

  // ---------------------------------------------------------------- small facts

  predicate TextOnly(ns: seq<Node>) {
    forall i :: 0 <= i < |ns| ==> !ns[i].Elem?
  }

  lemma {:induction false} TextAlike(ns: seq<Node>, ms: seq<Node>, holes: set<nat>)
    requires Alike(ns, ms, holes) && TextOnly(ns)
    ensures ns == ms
  {
    if ns != [] {
      TextAlike(ns[1..], ms[1..], holes);
      assert ns == [ns[0]] + ns[1..] && ms == [ms[0]] + ms[1..];
    }
  }

  lemma {:induction false} TextNotVacant(ns: seq<Node>, local: string)
    requires TextOnly(ns)
    ensures VacantIds(ns, local) == []
  {
    if ns != [] {
      TextNotVacant(ns[1..], local);
    }
  }

  lemma {:induction false} BareAt(ns: seq<Node>, chain: seq<Frame>, s: Spot, local: string)
    requires UniqueIds(ns) && s in Spots.Spots(ns, chain) && s.node.Elem? && VacantIds(s.node.children, local) == []
    ensures Bare(ns, s.node.id, local)
    decreases ns
  {
    var n := ns[0];
    NodeSpotsMember(s, n, chain);
    InNode(n, chain, s);
    if s in NodeSpots(n, chain) {
      BareElsewhere(ns[1..], s.node.id, local);
      if s != Spot(n, chain) {
        SpotIdsIn(n.children, Below(n, chain), s);
        BareAt(n.children, Below(n, chain), s, local);
      }
    } else {
      SpotIdsIn(ns[1..], chain, s);
      BareAt(ns[1..], chain, s, local);
      assert n.id in Ids(n);
      if n.Elem? {
        BareElsewhere(n.children, s.node.id, local);
      }
    }
  }

  lemma {:induction false} BareElsewhere(ns: seq<Node>, id: nat, local: string)
    requires id !in ForestIds(ns)
    ensures Bare(ns, id, local)
    decreases ns
  {
    if ns != [] {
      assert ns[0].id in Ids(ns[0]);
      if ns[0].Elem? {
        BareElsewhere(ns[0].children, id, local);
      }
      BareElsewhere(ns[1..], id, local);
    }
  }

  lemma {:induction false} VacantDistinct(ns: seq<Node>, local: string)
    requires UniqueIds(ns)
    ensures forall i, j :: 0 <= i < j < |VacantIds(ns, local)| ==> VacantIds(ns, local)[i] != VacantIds(ns, local)[j]
    decreases ns
  {
    if ns != [] {
      var n := ns[0];
      VacantDistinct(ns[1..], local);
      VacantWithin(ns[1..], local);
      VacantWithinNode(n, local);
      if n.Elem? {
        VacantDistinct(n.children, local);
        VacantWithin(n.children, local);
      }
      var a, b := VacantIdsOf(n, local), VacantIds(ns[1..], local);
      hide VacantIds, VacantIdsOf, Vacant;
      assert forall i :: 0 <= i < |a| ==> a[i] in a;
      assert forall i :: 0 <= i < |b| ==> b[i] in b;
    }
  }

  // ---------------------------------------------------------------- ids after a replacement

  lemma {:induction false} ReplaceIds(ns: seq<Node>, id: nat, x: Node)
    ensures ForestIds(Replace(ns, id, x)) <= ForestIds(ns) + Ids(x)
    decreases ns
  {
    if ns != [] {
      var n := ns[0];
      var m, more := ReplaceIn(n, id, x), Replace(ns[1..], id, x);
      if n.Elem? {
        ReplaceIds(n.children, id, x);
      }
      ReplaceIds(ns[1..], id, x);
      assert Replace(ns, id, x) == [m] + more && ([m] + more)[1..] == more;
    }
  }

  lemma {:induction false} ReplaceUnique(ns: seq<Node>, id: nat, x: Node)
    requires UniqueIds(ns) && UniqueNode(x) && x.id == id && Ids(x) * ForestIds(ns) <= {id}
    ensures UniqueIds(Replace(ns, id, x))
    decreases ns
  {
    if ns != [] {
      var n := ns[0];
      var m, more := ReplaceIn(n, id, x), Replace(ns[1..], id, x);
      assert Replace(ns, id, x) == [m] + more && ([m] + more)[1..] == more;
      assert n.id in Ids(n);
      ReplaceUnique(ns[1..], id, x);
      if n.Elem? {
        ReplaceUnique(n.children, id, x);
        ReplaceIds(n.children, id, x);
      }
      assert Ids(m) <= Ids(n) + Ids(x) && UniqueNode(m);
      if id in Ids(n) {
        ReplaceElsewhere(ns[1..], id, x);
        assert Ids(m) !! ForestIds(more);
      } else {
        ReplaceElsewhereIn(n, id, x);
        ReplaceIds(ns[1..], id, x);
        assert Ids(n) !! Ids(x) + ForestIds(ns[1..]);
      }
    }
  }

  /** The replacement is where the old node was. */
  lemma {:induction false} ReplaceSpot(ns: seq<Node>, chain: seq<Frame>, s: Spot, x: Node)
    requires UniqueIds(ns) && s in Spots.Spots(ns, chain) && s.node.id == x.id
    ensures Spot(x, s.above) in Spots.Spots(Replace(ns, x.id, x), chain)
    decreases ns
  {
    var n := ns[0];
    var m, more := ReplaceIn(n, x.id, x), Replace(ns[1..], x.id, x);
    assert Replace(ns, x.id, x) == [m] + more && ([m] + more)[1..] == more;
    NodeSpotsMember(s, n, chain);
    NodeSpotsMember(Spot(x, s.above), m, chain);
    InNode(n, chain, s);
    if s in NodeSpots(n, chain) {
      if s != Spot(n, chain) {
        SpotIdsIn(n.children, Below(n, chain), s);
        ReplaceSpot(n.children, Below(n, chain), s, x);
      }
    } else {
      ReplaceSpot(ns[1..], chain, s, x);
    }
  }

  // ---------------------------------------------------------------- templates

  /** Base64 of a digest is solid text that decodes to it. */
  ghost predicate Coding(suite: Suite) {
    && (forall m, o :: suite.digest(m, o).Ok? ==> suite.digest(m, o).value != "")
    && (forall x :: x != "" ==> suite.encode(x) != "" && Solid(suite.encode(x)) && suite.decode(suite.encode(x)) == Some(x))
  }

  function DigestIds(site: Site): seq<nat>
    requires HasDigestValues(site)
  {
    seq(|site.refs|, i requires 0 <= i < |site.refs| => DigestId(site, i))
  }

  /** An empty DigestValue: no elements in it, and its name does not hang on declarations of its own. */
  predicate EmptyValue(site: Site, i: nat)
    requires i < |site.refs| && site.refs[i].Elem? && DigestValueOf(site.refs[i]).Some?
  {
    var v := DigestValueOf(site.refs[i]).value;
    && v.Elem? && TextOnly(v.children) && Trim(DeepText(v)) == ""
    && NameThere(v.elem.name, Below(site.refs[i], site.Chain())) == v.elem.name
  }

  /** The empty DigestValues of the document are those of the references, in order, and no
      reference points to an attachment. */
  ghost predicate Template(suite: Suite, doc: Document, site: Site) {
    && WellIdentified(doc) && IsSite(doc, site) && HasDigestValues(site)
    && VacantIds(doc.children, "DigestValue") == DigestIds(site)
    && forall i :: 0 <= i < |site.refs| ==> !IsCid(UriOfReference(suite, site.refs[i])) && EmptyValue(site, i)
  }

  /** The DigestValues filled before reference `i`. */
  function Done(site: Site, i: nat): set<nat>
    requires HasDigestValues(site) && i <= |site.refs|
  {
    set j | 0 <= j < i :: DigestId(site, j)
  }

  lemma SiteIsSound(doc: Document, site: Site)
    requires WellIdentified(doc) && IsSite(doc, site) && HasDigestValues(site)
    ensures Sites.Sound(site)
  {
    SiteParts(doc, site);
  }

  lemma PlacedLess(site: Site, holes: set<nat>, less: set<nat>)
    requires Placed(site, holes) && less <= holes
    ensures Placed(site, less)
  {
    forall i | 0 <= i < |site.refs| ensures PlacedIn(site.refs[i], less) {
      assert PlacedIn(site.refs[i], holes);
    }
  }

  /** The reference and its DigestValue as nodes of the document. */
  lemma RefSpots(doc: Document, site: Site, i: nat)
    requires WellIdentified(doc) && IsSite(doc, site) && HasDigestValues(site) && i < |site.refs|
    ensures Spot(site.refs[i], site.Chain()) in AllSpots(doc)
    ensures Spot(DigestValueOf(site.refs[i]).value, Below(site.refs[i], site.Chain())) in AllSpots(doc)
  {
    SiteParts(doc, site);
    assert site.refs[i] in site.refs;
    ChildSpot(doc.children, [], site.sig, site.info);
    ChildSpot(doc.children, [], Spot(site.info, site.sig.Path()), site.refs[i]);
    ChildSpot(doc.children, [], Spot(site.refs[i], site.Chain()), DigestValueOf(site.refs[i]).value);
  }

  lemma TopsAreNoHoles(doc: Document, site: Site, holes: set<nat>)
    requires WellIdentified(doc) && IsSite(doc, site) && Placed(site, holes)
    ensures forall k :: 0 <= k < |doc.children| ==> doc.children[k].id !in holes
  {
    SiteParts(doc, site);
    forall k | 0 <= k < |doc.children| ensures doc.children[k].id !in holes {
      var top := doc.children[k];
      TopSpot(doc.children, [], top);
      if top.id in ForestIds(site.sig.node.children) {
        var s := IdsHaveSpots(site.sig.node.children, site.sig.Path(), top.id);
        NodeSpotsMember(s, site.sig.node, site.sig.above);
        SubtreeSpots(doc.children, [], site.sig, s);
        AboveLength(site.sig.node.children, site.sig.Path(), s);
        SpotsUnique(doc.children, [], s, Spot(top, []));
      }
    }
  }

  // ---------------------------------------------------------------- sites that are alike

  lemma RefsAlike(a: Site, b: Site, holes: set<nat>, j: nat)
    requires SitesAlike(a, b, holes) && Placed(a, holes) && HasDigestValues(a) && j < |a.refs|
    ensures |b.refs| == |a.refs| && AlikeNode(a.refs[j], b.refs[j], holes) && PlacedIn(a.refs[j], holes)
    ensures b.refs[j].Elem? && b.refs[j].elem == a.refs[j].elem && Below(b.refs[j], b.Chain()) == Below(a.refs[j], a.Chain())
    ensures DigestValueOf(b.refs[j]).Some? && AlikeNode(DigestValueOf(a.refs[j]).value, DigestValueOf(b.refs[j]).value, holes)
    ensures DigestValueOf(b.refs[j]).value.id == DigestValueOf(a.refs[j]).value.id
  {
    AlikeAt(a.refs, b.refs, holes, j);
    assert PlacedIn(a.refs[j], holes);
    FirstChildAlike(a.refs[j].children, b.refs[j].children, holes, DSIG_NS, "DigestValue");
  }

  lemma {:induction false} LateAlike(ns: seq<Node>, ms: seq<Node>, holes: set<nat>, id: nat)
    requires Alike(ns, ms, holes)
    ensures (exists i :: 0 <= i < |ns| && IsLate(ns[i]) && ns[i].id == id) ==>
            (exists i :: 0 <= i < |ms| && IsLate(ms[i]) && ms[i].id == id)
  {
    if i :| 0 <= i < |ns| && IsLate(ns[i]) && ns[i].id == id {
      AlikeAt(ns, ms, holes, i);
      assert IsLate(ms[i]);
    }
  }

  lemma SameHoles(a: Site, b: Site, holes: set<nat>)
    requires SitesAlike(a, b, holes) && Placed(a, holes) && HasDigestValues(a)
    ensures HasDigestValues(b) && |b.refs| == |a.refs| && Late(b) == Late(a) && DigestIds(b) == DigestIds(a)
    ensures forall i: nat :: HolesFrom(b, i) == HolesFrom(a, i)
  {
    forall j | 0 <= j < |b.refs| ensures b.refs[j].Elem? && DigestValueOf(b.refs[j]).Some? && DigestValueOf(b.refs[j]).value.id == DigestId(a, j) {
      RefsAlike(a, b, holes, j);
    }
    AlikeSym(a.sig.node.children, b.sig.node.children, holes);
    forall id ensures id in Late(a) <==> id in Late(b) {
      LateAlike(a.sig.node.children, b.sig.node.children, holes, id);
      LateAlike(b.sig.node.children, a.sig.node.children, holes, id);
    }
    assert forall j: nat :: j < |a.refs| ==> DigestId(a, j) == DigestId(b, j);
  }

  // ---------------------------------------------------------------- one step

  /** The document after the first `i` references of the template were filled in. */
  ghost predicate Reached(doc0: Document, site0: Site, doc: Document, i: nat)
    requires HasDigestValues(site0) && i <= |site0.refs|
  {
    && Edited(doc0, doc, Done(site0, i))
    && VacantIds(doc.children, "DigestValue") == DigestIds(site0)[i..]
  }

  lemma HolesOfTemplate(suite: Suite, doc0: Document, site0: Site, i: nat)
    requires Template(suite, doc0, site0) && i <= |site0.refs|
    ensures Placed(site0, HolesFrom(site0, 0)) && Placed(site0, Done(site0, i)) && Done(site0, i) <= HolesFrom(site0, 0)
    ensures i < |site0.refs| ==> DigestId(site0, i) !in Done(site0, i)
    ensures forall j, k :: 0 <= j < k < |site0.refs| ==> DigestId(site0, j) != DigestId(site0, k)
  {
    hide IsSite;
    HolesArePlaced(doc0, site0);
    PlacedLess(site0, HolesFrom(site0, 0), Done(site0, i));
    VacantDistinct(doc0.children, "DigestValue");
    var ids := DigestIds(site0);
    assert forall j :: 0 <= j < |ids| ==> ids[j] == DigestId(site0, j);
  }

  /** The signature in the document reached, with the later DigestValues untouched. */
  lemma Current(suite: Suite, doc0: Document, site0: Site, doc: Document, i: nat) returns (site: Site)
    requires Template(suite, doc0, site0) && i <= |site0.refs| && Reached(doc0, site0, doc, i)
    ensures IsSite(doc, site) && SitesAlike(site0, site, Done(site0, i)) && HasDigestValues(site) && |site.refs| == |site0.refs|
    ensures forall k: nat :: HolesFrom(site, k) == HolesFrom(site0, k)
    ensures DigestIds(site) == DigestIds(site0)
    ensures i < |site0.refs| ==> DigestValueOf(site.refs[i]) == DigestValueOf(site0.refs[i])
    ensures i < |site0.refs| ==> UriOfReference(suite, site.refs[i]) == UriOfReference(suite, site0.refs[i])
    ensures i < |site0.refs| ==> Below(site.refs[i], site.Chain()) == Below(site0.refs[i], site0.Chain())
  {
    HolesOfTemplate(suite, doc0, site0, i);
    hide IsSite, Alike, VacantIds, HolesFrom;
    site := SiteKept(doc0, doc, Done(site0, i), site0);
    SameHoles(site0, site, Done(site0, i));
    if i < |site0.refs| {
      hide SitesAlike, Placed;
      RefsAlike(site0, site, Done(site0, i), i);
      assert EmptyValue(site0, i);
      SameValue(DigestValueOf(site0.refs[i]).value, DigestValueOf(site.refs[i]).value, Done(site0, i));
    }
  }

  lemma SameValue(v: Node, w: Node, holes: set<nat>)
    requires AlikeNode(v, w, holes) && v.id !in holes && v.Elem? && TextOnly(v.children)
    ensures v == w
  {
    TextAlike(v.children, w.children, holes);
  }

  lemma SolidIsTrimmed(s: string)
    requires Solid(s) && s != ""
    ensures Trim(s) == s && WithoutBlanks(s) == s
  {
    SolidKept(s);
  }

  lemma {:induction false} SolidKept(s: string)
    requires Solid(s)
    ensures WithoutBlanks(s) == s
  {
    if s != "" {
      SolidKept(s[1..]);
    }
  }

  /** The document holds this digest for reference `i`. */
  ghost predicate Holds(doc: Document, i: nat, content: string) {
    exists site: Site ::
      && IsSite(doc, site) && HasDigestValues(site) && i < |site.refs|
      && HoldsText(DigestValueOf(site.refs[i]).value, content)
  }

  predicate HoldsText(v: Node, content: string) {
    v.Elem? && |v.children| == 1 && v.children[0].Text? && v.children[0].text == content
  }

  /** What filling in does to a document in which the value at `s` is the first vacant one. */
  lemma FillEffect(doc: Document, s: Spot, content: string)
    requires WellIdentified(doc) && VacantIds(doc.children, "DigestValue") != [] && VacantIds(doc.children, "DigestValue")[0] == s.node.id
    requires s in AllSpots(doc) && s.node.Elem? && TextOnly(s.node.children) && Trim(content) != ""
    requires NameThere(s.node.elem.name, s.above) == s.node.elem.name
    ensures var doc2 := FillFirst(doc, "DigestValue", content);
      var x := Filled(s, content, FreshId(doc));
      && WellIdentified(doc2) && doc2.rootId == doc.rootId && Alike(doc.children, doc2.children, {s.node.id})
      && VacantIds(doc2.children, "DigestValue") == VacantIds(doc.children, "DigestValue")[1..]
      && Spot(x, s.above) in AllSpots(doc2)
  {
    var ns, x := doc.children, Filled(s, content, FreshId(doc));
    FirstVacantId(ns, [], "DigestValue");
    var first := FirstVacant(AllSpots(doc), "DigestValue").value;
    hide Spots.Spots, VacantIds, Vacant, NameThere, Trim, Alike, Bare, Replace, UniqueIds;
    SpotsUnique(ns, [], first, s);
    TextNotVacant(s.node.children, "DigestValue");
    BareAt(ns, [], s, "DigestValue");
    FillVacates(ns, x, "DigestValue");
    ReplaceIsEdit(ns, [], s, x);
    ReplaceSpot(ns, [], s, x);
    FreshFilled(doc, s, content);
    ReplaceUnique(ns, x.id, x);
    ReplaceIds(ns, x.id, x);
  }

  lemma FreshFilled(doc: Document, s: Spot, content: string)
    requires s in AllSpots(doc) && s.node.Elem? && WellIdentified(doc)
    ensures var x := Filled(s, content, FreshId(doc));
      UniqueNode(x) && Ids(x) * ForestIds(doc.children) <= {x.id} && doc.rootId !in Ids(x)
  {
    var x := Filled(s, content, FreshId(doc));
    SpotIdsIn(doc.children, [], s);
    assert x.children[1..] == [];
    assert ForestIds(x.children) == {FreshId(doc)};
    assert FreshId(doc) !in ForestIds(doc.children);
  }

  /** One step fills in the DigestValue of its own reference and touches nothing else. */
  lemma StepFills(suite: Suite, doc0: Document, site0: Site, doc: Document, i: nat, doc2: Document) returns (site: Site)
    requires Coding(suite) && Template(suite, doc0, site0) && i < |site0.refs| && Reached(doc0, site0, doc, i)
    requires SignStep(suite, doc, i) == Ok(doc2)
    ensures IsSite(doc, site) && i < |site.refs| && IdMap(suite.idsOf, doc).Ok?
    ensures Alike(doc.children, doc2.children, {DigestId(site0, i)}) && Reached(doc0, site0, doc2, i + 1)
    ensures var d := ComputeDigest(suite, site.refs[i], site.Chain(), IdMap(suite.idsOf, doc).value, doc, site.sig.node);
      d.Ok? && Holds(doc2, i, suite.encode(d.value))
  {
    site := Current(suite, doc0, site0, doc, i);
    var v, ref := DigestValueOf(site.refs[i]).value, site.refs[i];
    assert EmptyValue(site0, i);
    RefSpots(doc, site, i);
    var s := Spot(v, Below(ref, site.Chain()));
    var d := ComputeDigest(suite, ref, site.Chain(), IdMap(suite.idsOf, doc).value, doc, site.sig.node);
    StepParts(suite, doc, site, i, doc2);
    var content := suite.encode(d.value);
    DigestNotEmpty(suite, ref, site.Chain(), IdMap(suite.idsOf, doc).value, doc, site.sig.node);
    SolidIsTrimmed(content);
    hide ComputeDigest, IdMap, IsSite, Alike, VacantIds, FillFirst, HolesFrom, Placed, SitesAlike, Coding;
    assert DigestIds(site0)[i..][0] == DigestId(site0, i) && DigestIds(site0)[i..][1..] == DigestIds(site0)[i + 1..];
    FillEffect(doc, s, content);
    ReachedNext(suite, doc0, site0, doc, i, doc2);
    HoldsFilled(suite, doc0, site0, doc2, i, s, content, FreshId(doc));
  }

  lemma StepParts(suite: Suite, doc: Document, site: Site, i: nat, doc2: Document)
    requires IsSite(doc, site) && SignStep(suite, doc, i) == Ok(doc2) && HasDigestValues(site) && i < |site.refs|
    requires !IsCid(UriOfReference(suite, site.refs[i])) && Trim(DeepText(DigestValueOf(site.refs[i]).value)) == ""
    ensures IdMap(suite.idsOf, doc).Ok?
    ensures var d := ComputeDigest(suite, site.refs[i], site.Chain(), IdMap(suite.idsOf, doc).value, doc, site.sig.node);
      d.Ok? && doc2 == FillFirst(doc, "DigestValue", suite.encode(d.value))
  {
    hide IdMap, ComputeDigest, FillFirst, SiteOf, UriOfReference, Trim;
  }

  lemma DigestNotEmpty(suite: Suite, ref: Node, chain: seq<Frame>, ids: map<string, Spot>, doc: Document, sig: Node)
    requires Coding(suite) && ref.Elem?
    ensures var d := ComputeDigest(suite, ref, chain, ids, doc, sig);
      d.Ok? ==> d.value != "" && suite.encode(d.value) != "" && Solid(suite.encode(d.value))
                && suite.decode(suite.encode(d.value)) == Some(d.value)
  {
    hide Digested, DigestMethod, ToOctets, Solid;
  }

  lemma ReachedNext(suite: Suite, doc0: Document, site0: Site, doc: Document, i: nat, doc2: Document)
    requires Template(suite, doc0, site0) && i < |site0.refs| && Reached(doc0, site0, doc, i)
    requires WellIdentified(doc2) && doc2.rootId == doc.rootId && Alike(doc.children, doc2.children, {DigestId(site0, i)})
    requires VacantIds(doc2.children, "DigestValue") == VacantIds(doc.children, "DigestValue")[1..]
    ensures Reached(doc0, site0, doc2, i + 1)
  {
    hide IsSite, VacantIds, Alike, EmptyValue;
    var more := Done(site0, i + 1);
    AlikeMore(doc0.children, doc.children, Done(site0, i), more);
    AlikeMore(doc.children, doc2.children, {DigestId(site0, i)}, more);
    AlikeTrans(doc0.children, doc.children, doc2.children, more);
    HolesOfTemplate(suite, doc0, site0, i + 1);
    TopsAreNoHoles(doc0, site0, more);
    assert DigestIds(site0)[i..][1..] == DigestIds(site0)[i + 1..];
  }

  lemma HoldsFilled(suite: Suite, doc0: Document, site0: Site, doc2: Document, i: nat, s: Spot, content: string, newId: nat)
    requires Template(suite, doc0, site0) && i < |site0.refs| && Reached(doc0, site0, doc2, i + 1)
    requires s.node.Elem? && s.node.id == DigestId(site0, i)
    requires Spot(Filled(s, content, newId), s.above) in AllSpots(doc2)
    ensures Holds(doc2, i, content)
  {
    assert WellIdentified(doc2);
    hide *;
    var site2 := Current(suite, doc0, site0, doc2, i + 1);
    SameDigestId(site0, site2, i);
    RefSpots(doc2, site2, i);
    FilledParts(s, content, newId);
    SameNode(doc2, Spot(Filled(s, content, newId), s.above), Spot(DigestValueOf(site2.refs[i]).value, Below(site2.refs[i], site2.Chain())));
    HoldsIntro(doc2, site2, i, content);
  }

  lemma SameNode(doc: Document, s: Spot, t: Spot)
    requires WellIdentified(doc) && s in AllSpots(doc) && t in AllSpots(doc) && s.node.id == t.node.id
    ensures s == t
  {
    SpotsUnique(doc.children, [], s, t);
  }

  lemma FilledParts(s: Spot, content: string, newId: nat)
    requires s.node.Elem?
    ensures Filled(s, content, newId).id == s.node.id && HoldsText(Filled(s, content, newId), content)
  {
  }

  lemma SameDigestId(a: Site, b: Site, i: nat)
    requires HasDigestValues(a) && HasDigestValues(b) && DigestIds(a) == DigestIds(b) && i < |a.refs|
    ensures i < |b.refs| && DigestValueOf(b.refs[i]).Some? && DigestId(a, i) == DigestValueOf(b.refs[i]).value.id
  {
    assert |DigestIds(a)| == |a.refs| && |DigestIds(b)| == |b.refs|;
    assert DigestIds(a)[i] == DigestId(a, i) && DigestIds(b)[i] == DigestId(b, i);
  }

  lemma HoldsIntro(doc: Document, site: Site, i: nat, content: string)
    requires IsSite(doc, site) && HasDigestValues(site) && i < |site.refs|
    requires HoldsText(DigestValueOf(site.refs[i]).value, content)
    ensures Holds(doc, i, content)
  {
  }
}
