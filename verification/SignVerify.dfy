/**
 The two-party run: a template is signed reference by reference, finished with SignatureValue
 and KeyInfo, and verified.
 */
module SignVerify {
  import opened Dom
  import opened NodeSets
  import opened Canonical
  import opened Spots
  import opened XPathText
  import opened Dsig
  import opened Edits
  import opened SignRun
  import opened RunKeeps
  import opened Sites
  import opened VerifyRun
  import opened Agreement

  /** The documents of a signing run, one per pass of the reference loop, starting with pass `i`. */
  ghost predicate Run(suite: Suite, docs: seq<Document>, i: nat) {
    docs != [] && forall k :: 0 <= k < |docs| - 1 ==> SignStep(suite, docs[k], i + k) == Ok(docs[k + 1])
  }

  /** Every successful signing loop has such a run. */
  lemma {:induction false} RunExists(suite: Suite, doc: Document, i: nat, n: nat) returns (docs: seq<Document>)
    requires i <= n && SignSteps(suite, doc, i, n).Ok?
    ensures Run(suite, docs, i) && |docs| == n - i + 1 && docs[0] == doc && docs[n - i] == SignSteps(suite, doc, i, n).value
    decreases n - i
  {
    hide SignStep;
    if i == n {
      docs := [doc];
    } else {
      var rest := RunExists(suite, SignStep(suite, doc, i).value, i + 1, n);
      docs := [doc] + rest;
      forall k | 0 <= k < |docs| - 1 ensures SignStep(suite, docs[k], i + k) == Ok(docs[k + 1]) {
        if k > 0 {
          assert docs[k] == rest[k - 1] && docs[k + 1] == rest[k];
          assert SignStep(suite, rest[k - 1], (i + 1) + (k - 1)) == Ok(rest[k]);
        }
      }
    }
  }

  lemma {:induction false} Progress(suite: Suite, docs: seq<Document>, site0: Site, i: nat)
    requires Run(suite, docs, 0) && |docs| == |site0.refs| + 1 && i <= |site0.refs|
    requires Coding(suite) && Template(suite, docs[0], site0)
    ensures Agreement.Reached(docs[0], site0, docs[i], i)
  {
    if i == 0 {
      Start(suite, docs[0], site0);
    } else {
      Progress(suite, docs, site0, i - 1);
      hide Template, Coding, Agreement.Reached, SignStep;
      var site := StepFills(suite, docs[0], site0, docs[i - 1], i - 1, docs[i]);
    }
  }

  lemma Start(suite: Suite, doc: Document, site0: Site)
    requires Template(suite, doc, site0)
    ensures Agreement.Reached(doc, site0, doc, 0)
  {
    hide IsSite, VacantIds, EmptyValue;
    AlikeSelf(doc.children, {});
    assert Done(site0, 0) == {};
    assert DigestIds(site0)[0..] == DigestIds(site0);
  }

  /** The finished document: SignatureValue and KeyInfo were filled in, nothing else changed. */
  ghost predicate Finished(doc: Document, site0: Site, final: Document)
    requires site0.sig.node.Elem?
  {
    WellIdentified(final) && final.rootId == doc.rootId && Alike(doc.children, final.children, Late(site0))
  }

  /** From each pass to the finished document only what was still open changes. */
  lemma {:induction false} ToFinal(suite: Suite, docs: seq<Document>, site0: Site, final: Document, i: nat)
    requires Run(suite, docs, 0) && |docs| == |site0.refs| + 1 && i <= |site0.refs|
    requires Coding(suite) && Template(suite, docs[0], site0) && site0.sig.node.Elem?
    requires Finished(docs[|site0.refs|], site0, final)
    ensures Edited(docs[i], final, HolesFrom(site0, i))
    decreases |site0.refs| - i
  {
    var n := |site0.refs|;
    Progress(suite, docs, site0, i);
    hide Alike, SignStep, VacantIds, IsSite, EmptyValue;
    var holes := HolesFrom(site0, i);
    if i == n {
      assert holes == Late(site0);
    } else {
      ToFinal(suite, docs, site0, final, i + 1);
      var site := StepFills(suite, docs[0], site0, docs[i], i, docs[i + 1]);
      assert HolesFrom(site0, i + 1) <= holes && {DigestId(site0, i)} <= holes;
      AlikeMore(docs[i].children, docs[i + 1].children, {DigestId(site0, i)}, holes);
      AlikeMore(docs[i + 1].children, final.children, HolesFrom(site0, i + 1), holes);
      AlikeTrans(docs[i].children, docs[i + 1].children, final.children, holes);
    }
    SiteOfPass(suite, docs[0], site0, docs[i], i);
  }

  lemma SiteOfPass(suite: Suite, doc0: Document, site0: Site, doc: Document, i: nat)
    requires Template(suite, doc0, site0) && i <= |site0.refs| && site0.sig.node.Elem? && Agreement.Reached(doc0, site0, doc, i)
    ensures forall k :: 0 <= k < |doc.children| ==> doc.children[k].id !in HolesFrom(site0, i)
  {
    hide Alike, VacantIds, IsSite, EmptyValue;
    var site := Current(suite, doc0, site0, doc, i);
    HolesArePlaced(doc, site);
    PlacedLess(site, HolesFrom(site, 0), HolesFrom(site, i));
    TopsAreNoHoles(doc, site, HolesFrom(site, i));
  }

  // ---------------------------------------------------------------- the digests

  /** What reference `i` of the document selects avoids the holes. */
  ghost predicate SelectsAside(suite: Suite, doc: Document, i: nat, holes: set<nat>) {
    var ids, site := IdMap(suite.idsOf, doc), SiteOf(doc);
    ids.Ok? && site.Ok? && i < |site.value.refs| ==>
      Avoids(suite, site.value.refs[i], site.value.Chain(), ids.value, doc, site.value.sig.node, holes)
  }

  /** Reference `i` of the document carries the digest of what it selects. */
  ghost predicate Matches(suite: Suite, doc: Document, i: nat) {
    var ids, site := IdMap(suite.idsOf, doc), SiteOf(doc);
    && ids.Ok? && site.Ok? && i < |site.value.refs|
    && var v := VerifyReference(suite, site.value.refs[i], site.value.Chain(), ids.value, doc, site.value.sig.node);
       v.Ok? && v.value.0 && v.value.1.digestVerified
  }

  lemma PassVerifies(suite: Suite, docs: seq<Document>, site0: Site, final: Document, i: nat)
    requires Run(suite, docs, 0) && |docs| == |site0.refs| + 1 && i < |site0.refs|
    requires Coding(suite) && Template(suite, docs[0], site0) && site0.sig.node.Elem?
    requires Finished(docs[|site0.refs|], site0, final) && IdMap(suite.idsOf, final).Ok?
    requires SelectsAside(suite, docs[i], i, HolesFrom(site0, i)) && SelectsAside(suite, final, i, HolesFrom(site0, i))
    ensures Matches(suite, final, i)
  {
    Progress(suite, docs, site0, i);
    Progress(suite, docs, site0, i + 1);
    ToFinal(suite, docs, site0, final, i);
    ToFinal(suite, docs, site0, final, i + 1);
    assert SignStep(suite, docs[i], 0 + i) == Ok(docs[i + 1]);
    hide *;
    var site := StepFills(suite, docs[0], site0, docs[i], i, docs[i + 1]);
    var siteF := Recomputed(suite, docs[0], site0, docs[i], site, final, i);
    var d := ComputeDigest(suite, site.refs[i], site.Chain(), IdMap(suite.idsOf, docs[i]).value, docs[i], site.sig.node);
    StoredStays(suite, docs[0], site0, docs[i + 1], final, siteF, i, suite.encode(d.value));
    DigestNotEmpty(suite, site.refs[i], site.Chain(), IdMap(suite.idsOf, docs[i]).value, docs[i], site.sig.node);
    StoredIs(suite, siteF.refs[i], d.value);
    MatchesIntro(suite, final, siteF, i);
  }

  /** The digest that the finished document gives is the one computed at the pass. */
  lemma Recomputed(suite: Suite, doc0: Document, site0: Site, doc: Document, site: Site, final: Document, i: nat) returns (siteF: Site)
    requires Template(suite, doc0, site0) && i < |site0.refs| && Agreement.Reached(doc0, site0, doc, i) && site0.sig.node.Elem?
    requires Edited(doc, final, HolesFrom(site0, i)) && IsSite(doc, site) && i < |site.refs|
    requires IdMap(suite.idsOf, doc).Ok? && IdMap(suite.idsOf, final).Ok?
    requires SelectsAside(suite, doc, i, HolesFrom(site0, i)) && SelectsAside(suite, final, i, HolesFrom(site0, i))
    requires ComputeDigest(suite, site.refs[i], site.Chain(), IdMap(suite.idsOf, doc).value, doc, site.sig.node).Ok?
    ensures IsSite(final, siteF) && HasDigestValues(siteF) && i < |siteF.refs| && siteF.refs[i].Elem?
    ensures var ids := IdMap(suite.idsOf, final).value;
      && ComputeDigest(suite, siteF.refs[i], siteF.Chain(), ids, final, siteF.sig.node)
           == ComputeDigest(suite, site.refs[i], site.Chain(), IdMap(suite.idsOf, doc).value, doc, site.sig.node)
      && !IsCid(UriOfReference(suite, siteF.refs[i]))
      && Resolve(ids, suite.external, UriOfReference(suite, siteF.refs[i]), final).Ok?
  {
    var again := Current(suite, doc0, site0, doc, i);
    assert again == site;
    HolesArePlaced(doc, site);
    PlacedLess(site, HolesFrom(site, 0), HolesFrom(site, i));
    var holes := HolesFrom(site0, i);
    assert !IsCid(UriOfReference(suite, site0.refs[i]));
    hide Template, Agreement.Reached, HolesFrom, ComputeDigest, Resolve, Alike, Edited, IdMap, UriOfReference;
    siteF := SiteKept(doc, final, holes, site);
    SameHoles(site, siteF, holes);
    RefsAlike(site, siteF, holes, i);
    assert SiteOf(doc) == Ok(site) && SiteOf(final) == Ok(siteF);
    SiteSpot(doc, site);
    SiteSpot(final, siteF);
    hide SiteOf, SitesAlike, Placed, PlacedIn, AlikeNode, Avoids;
    DigestAgrees(suite, doc, final, holes, site, siteF, IdMap(suite.idsOf, doc).value, IdMap(suite.idsOf, final).value,
                 site.refs[i], siteF.refs[i]);
    ReferenceRead(suite, site.refs[i], siteF.refs[i], holes);
  }

  lemma SiteSpot(doc: Document, site: Site)
    requires IsSite(doc, site)
    ensures site.sig in AllSpots(doc)
  {
  }

  /** A digest once stored stays until the end. */
  lemma StoredStays(suite: Suite, doc0: Document, site0: Site, doc2: Document, final: Document, siteF: Site, i: nat, content: string)
    requires Template(suite, doc0, site0) && i < |site0.refs| && Agreement.Reached(doc0, site0, doc2, i + 1) && site0.sig.node.Elem?
    requires Edited(doc2, final, HolesFrom(site0, i + 1)) && Holds(doc2, i, content) && IsSite(final, siteF)
    ensures i < |siteF.refs| && siteF.refs[i].Elem? && DigestValueOf(siteF.refs[i]).Some?
    ensures HoldsText(DigestValueOf(siteF.refs[i]).value, content)
  {
    var site2 := Current(suite, doc0, site0, doc2, i + 1);
    HolesArePlaced(doc2, site2);
    PlacedLess(site2, HolesFrom(site2, 0), HolesFrom(site2, i + 1));
    var holes := HolesFrom(site0, i + 1);
    DigestIsClosed(suite, doc0, site0, i);
    assert WellIdentified(doc2);
    hide Template, Agreement.Reached, HolesFrom, Alike, Edited;
    var again := SiteKept(doc2, final, holes, site2);
    assert again == siteF;
    RefsAlike(site2, siteF, holes, i);
    var site: Site :| IsSite(doc2, site) && HasDigestValues(site) && i < |site.refs| && HoldsText(DigestValueOf(site.refs[i]).value, content);
    assert site == site2;
    SameDigestId(site0, site2, i);
    hide SiteOf, SitesAlike, Placed;
    TextStays(DigestValueOf(site2.refs[i]).value, DigestValueOf(siteF.refs[i]).value, holes, content);
  }

  lemma TextStays(v: Node, w: Node, holes: set<nat>, content: string)
    requires HoldsText(v, content) && AlikeNode(v, w, holes) && v.id !in holes
    ensures HoldsText(w, content)
  {
    TextAlike(v.children, w.children, holes);
  }

  /** A DigestValue that is filled is no hole any more. */
  lemma DigestIsClosed(suite: Suite, doc0: Document, site0: Site, i: nat)
    requires Template(suite, doc0, site0) && i < |site0.refs| && site0.sig.node.Elem?
    ensures DigestId(site0, i) !in HolesFrom(site0, i + 1)
  {
    HolesOfTemplate(suite, doc0, site0, i);
    SiteIsSound(doc0, site0);
    var v := DigestValueOf(site0.refs[i]).value;
    assert site0.refs[i] in site0.refs;
    MemberUnique(site0.sig.node.children, site0.info);
    MemberUnique(site0.info.children, site0.refs[i]);
    MemberUnique(site0.refs[i].children, v);
    assert v.id in Ids(v);
    if v.id in Late(site0) {
      var k :| 0 <= k < |site0.sig.node.children| && IsLate(site0.sig.node.children[k]) && site0.sig.node.children[k].id == v.id;
      assert site0.sig.node.children[k].id in Ids(site0.sig.node.children[k]);
      MembersApart(site0.sig.node.children, site0.sig.node.children[k], site0.info);
    }
  }

  lemma StoredIs(suite: Suite, ref: Node, d: string)
    requires ref.Elem? && DigestValueOf(ref).Some? && HoldsText(DigestValueOf(ref).value, suite.encode(d))
    requires suite.encode(d) != "" && Solid(suite.encode(d)) && suite.decode(suite.encode(d)) == Some(d)
    ensures StoredDigest(suite, ref) == Ok(d)
  {
    SolidIsTrimmed(suite.encode(d));
  }

  lemma MatchesIntro(suite: Suite, doc: Document, site: Site, i: nat)
    requires IsSite(doc, site) && i < |site.refs| && site.refs[i].Elem? && IdMap(suite.idsOf, doc).Ok?
    requires !IsCid(UriOfReference(suite, site.refs[i]))
    requires Resolve(IdMap(suite.idsOf, doc).value, suite.external, UriOfReference(suite, site.refs[i]), doc).Ok?
    requires ComputeDigest(suite, site.refs[i], site.Chain(), IdMap(suite.idsOf, doc).value, doc, site.sig.node).Ok?
    requires StoredDigest(suite, site.refs[i])
          == ComputeDigest(suite, site.refs[i], site.Chain(), IdMap(suite.idsOf, doc).value, doc, site.sig.node)
    ensures Matches(suite, doc, i)
  {
    hide IdMap, Resolve, Digested, StoredDigest, UriOfReference, ToOctets;
  }

  // ---------------------------------------------------------------- the octets under the signature

  /** SignedInfo stands apart from SignatureValue and KeyInfo. */
  lemma InfoIsAside(doc: Document, site: Site, q: Option<NodeSet>)
    requires WellIdentified(doc) && IsSite(doc, site) && site.sig.node.Elem?
    requires forall id :: id !in Ids(site.info) ==> Dark(q, id)
    ensures Quiet(q, doc.children, Late(site)) && Late(site) !! Ids(site.info) && site.info.id !in Late(site)
    ensures Late(site) <= ForestIds(site.sig.node.children)
  {
    SiteParts(doc, site);
    var kids, holes := site.sig.node.children, Late(site);
    forall h | h in holes ensures h in ForestIds(kids) && h !in Ids(site.info) {
      var k :| 0 <= k < |kids| && IsLate(kids[k]) && kids[k].id == h;
      assert h in Ids(kids[k]);
      MemberUnique(kids, kids[k]);
      MembersApart(kids, kids[k], site.info);
    }
    assert site.info.id in Ids(site.info);
    forall c | c in kids ensures QuietNode(q, c, holes) {
      MemberUnique(kids, c);
      QuietChild(q, kids, site.info, c, holes);
    }
    hide Quiet, QuietNode;
    QuietMembers(q, kids, holes);
    QuietAround(q, doc.children, [], site.sig, holes);
  }

  lemma QuietChild(q: Option<NodeSet>, kids: seq<Node>, info: Node, c: Node, holes: set<nat>)
    requires UniqueIds(kids) && info in kids && c in kids && info.id !in holes
    requires forall id :: id !in Ids(info) ==> Dark(q, id)
    requires forall h :: h in holes ==> exists k :: 0 <= k < |kids| && kids[k].id == h
    ensures QuietNode(q, c, holes)
  {
    if c.id in holes {
      MembersApart(kids, c, info);
    } else if c.Elem? {
      MemberUnique(kids, c);
      forall h | h in holes ensures h !in ForestIds(c.children) {
        var k :| 0 <= k < |kids| && kids[k].id == h;
        assert h in Ids(kids[k]);
        if kids[k] != c {
          MembersApart(kids, kids[k], c);
        }
      }
      QuietWithoutHoles(q, c.children, holes);
    }
  }

  /** Finishing the document leaves SignedInfo as it was, and its octets. */
  lemma SignedOctetsAgree(doc: Document, site: Site, final: Document) returns (siteF: Site)
    requires WellIdentified(doc) && IsSite(doc, site) && site.sig.node.Elem? && HasDigestValues(site)
    requires Finished(doc, site, final)
    ensures IsSite(final, siteF) && siteF.info == site.info && |siteF.refs| == |site.refs|
    ensures forall m :: InfoOctets(m, siteF.info, final) == InfoOctets(m, site.info, doc)
  {
    var holes := Late(site);
    HolesArePlaced(doc, site);
    PlacedLess(site, HolesFrom(site, 0), holes);
    TopsAreNoHoles(doc, site, holes);
    assert Edited(doc, final, holes);
    hide Alike, IsSite;
    siteF := SiteKept(doc, final, holes, site);
    InfoApart(doc, site);
    AlikeWholeNode(site.info, siteF.info, holes);
    SameHoles(site, siteF, holes);
    hide *;
    forall m ensures InfoOctets(m, siteF.info, final) == InfoOctets(m, site.info, doc) {
      OctetsAgree(m, doc, site, final, siteF);
    }
  }

  lemma InfoApart(doc: Document, site: Site)
    requires WellIdentified(doc) && IsSite(doc, site) && site.sig.node.Elem?
    ensures Late(site) !! Ids(site.info)
  {
    hide Dark;
    var q := Some(FromIds({}));
    DarkEverywhere();
    InfoIsAside(doc, site, q);
  }

  lemma DarkEverywhere()
    ensures forall id :: Dark(Some(FromIds({})), id)
  {
  }

  lemma OctetsAgree(m: Methods, doc: Document, site: Site, final: Document, siteF: Site)
    requires WellIdentified(doc) && IsSite(doc, site) && site.sig.node.Elem? && siteF.sig.node.Elem? && Late(siteF) == Late(site)
    requires WellIdentified(final) && IsSite(final, siteF) && siteF.info == site.info
    requires Edited(doc, final, Late(site))
    ensures InfoOctets(m, siteF.info, final) == InfoOctets(m, site.info, doc)
  {
    var s := Some(FromIds(SubtreeIds(site.info, false)));
    SubtreeIdsWithin(site.info, false);
    assert forall id :: id !in Ids(site.info) ==> Dark(s, id);
    hide IsSite, Dark, Quiet, Edited, Late, C14n, SubtreeIds;
    InfoIsAside(doc, site, s);
    InfoIsAside(final, siteF, s);
    EditedCanon(m.mode, m.withComments, s, s, doc, final, Late(site));
  }

  /** Filling in the SignatureValue of the signature, if that is the first empty one, finishes a
      document without KeyInfo. */
  lemma SignatureValueFinishes(doc: Document, site: Site, s: Spot, content: string)
    requires WellIdentified(doc) && IsSite(doc, site) && site.sig.node.Elem?
    requires FirstVacant(AllSpots(doc), "SignatureValue") == Some(s)
    requires s.node in site.sig.node.children && Is(s.node, DSIG_NS, "SignatureValue")
    requires NameThere(s.node.elem.name, s.above) == s.node.elem.name
    ensures Finished(doc, site, FillFirst(doc, "SignatureValue", content))
  {
    var ns, x := doc.children, Filled(s, content, FreshId(doc));
    hide NameThere, Spots.Spots, Vacant, Alike, Replace, UniqueIds;
    ReplaceIsEdit(ns, [], s, x);
    FreshFilled(doc, s, content);
    ReplaceUnique(ns, x.id, x);
    ReplaceIds(ns, x.id, x);
    var k :| 0 <= k < |site.sig.node.children| && site.sig.node.children[k] == s.node;
    assert IsLate(s.node) && {s.node.id} <= Late(site);
    AlikeMore(ns, Replace(ns, x.id, x), {x.id}, Late(site));
  }

  // ---------------------------------------------------------------- the whole run

  /** The first empty SignatureValue of the document is a child of the signature and keeps its name
      without declarations of its own. */
  predicate OwnSignatureValue(doc: Document, site: Site) {
    var s := FirstVacant(AllSpots(doc), "SignatureValue");
    && s.Some? && site.sig.node.Elem? && s.value.node in site.sig.node.children
    && Is(s.value.node, DSIG_NS, "SignatureValue")
    && NameThere(s.value.node.elem.name, s.value.above) == s.value.node.elem.name
  }

  /** Population keeps to KeyInfo of the signature: on documents that differ from the template only in
      what signing fills in, it changes nothing else and repeats no ID. */
  ghost predicate Populates(suite: Suite, populate: Document -> Result<Document>, template: Document, site0: Site)
    requires site0.sig.node.Elem? && HasDigestValues(site0)
  {
    forall doc :: Edited(template, doc, HolesFrom(site0, 0)) && populate(doc).Ok? ==>
      var out := populate(doc).value;
      Finished(doc, site0, out) && (IdMap(suite.idsOf, doc).Ok? ==> IdMap(suite.idsOf, out).Ok?)
  }

  /** What is asked of a template beyond its references, and of the reader of IDs. */
  ghost predicate Ready(suite: Suite, populate: Document -> Result<Document>, template: Document, site0: Site) {
    && Coding(suite) && Template(suite, template, site0) && site0.sig.node.Elem?
    && OwnSignatureValue(template, site0) && ReadsAttributes(suite.idsOf) && Populates(suite, populate, template, site0)
  }

  /** What signing returns is a finished run whose IDs can be looked up: to it the theorems below apply. */
  lemma SigningFinishes(suite: Suite, modeOf: ModeReader, signer: (Node, string) -> Result<string>,
                        populate: Document -> Result<Document>, template: Document, site0: Site, final: Document)
    returns (docs: seq<Document>)
    requires Ready(suite, populate, template, site0) && Signing(suite, modeOf, signer, populate, template) == Ok(final)
    ensures Run(suite, docs, 0) && |docs| == |site0.refs| + 1 && docs[0] == template && Finished(docs[|site0.refs|], site0, final)
    ensures SignSteps(suite, template, 0, |site0.refs|) == Ok(docs[|site0.refs|])
    ensures IdMap(suite.idsOf, final).Ok?
  {
    var n := |site0.refs|;
    hide Coding, Template, IsSite, OwnSignatureValue, Populates, SignSteps, Signing, Run, Finished, Edited, IdMap, ReadsAttributes;
    TemplateSite(suite, template, site0);
    var m, value := SigningParts(suite, modeOf, signer, populate, template, site0, final);
    var content := suite.encode(value);
    docs := RunExists(suite, template, 0, n);
    var valued := FillFirst(docs[n], "SignatureValue", content);
    ValueStays(suite, docs, site0, n);
    Progress(suite, docs, site0, n);
    FinishedRun(suite, docs[0], site0, docs[n], content);
    StepsBag(suite, template, 0, n);
    FillBag(suite.idsOf, docs[n], "SignatureValue", content);
    BagTrans(suite.idsOf, template, docs[n], valued);
    FewerIds(suite.idsOf, template, valued);
    ToFinal(suite, docs, site0, valued, 0);
    hide *;
    Populated(suite, populate, template, site0, docs[n], valued, final);
  }

  lemma TemplateSite(suite: Suite, template: Document, site0: Site)
    requires Template(suite, template, site0)
    ensures IsSite(template, site0) && HasDigestValues(site0)
  {
  }

  lemma BagTrans(idsOf: IdReader, a: Document, b: Document, c: Document)
    requires IdBag(idsOf, c.children) <= IdBag(idsOf, b.children) <= IdBag(idsOf, a.children)
    ensures IdBag(idsOf, c.children) <= IdBag(idsOf, a.children)
  {
  }

  lemma Populated(suite: Suite, populate: Document -> Result<Document>, template: Document, site0: Site, doc: Document, valued: Document, final: Document)
    requires site0.sig.node.Elem? && HasDigestValues(site0) && Populates(suite, populate, template, site0)
    requires Edited(template, valued, HolesFrom(site0, 0)) && populate(valued) == Ok(final) && IdMap(suite.idsOf, valued).Ok?
    requires Finished(doc, site0, valued)
    ensures Finished(doc, site0, final) && IdMap(suite.idsOf, final).Ok?
  {
    hide Alike, IdMap, Edited, HolesFrom, Late;
    AlikeTrans(doc.children, valued.children, final.children, Late(site0));
  }

  /** The first empty SignatureValue is the same in every pass. */
  lemma {:induction false} ValueStays(suite: Suite, docs: seq<Document>, site0: Site, i: nat)
    requires Run(suite, docs, 0) && |docs| == |site0.refs| + 1 && i <= |site0.refs|
    requires Coding(suite) && Template(suite, docs[0], site0) && OwnSignatureValue(docs[0], site0)
    ensures FirstVacant(AllSpots(docs[i]), "SignatureValue") == FirstVacant(AllSpots(docs[0]), "SignatureValue")
  {
    hide *;
    if i > 0 {
      ValueStays(suite, docs, site0, i - 1);
      Progress(suite, docs, site0, i - 1);
      RunStep(suite, docs, i - 1);
      ValueApart(suite, docs[0], site0, i - 1);
      ValueKept(suite, docs[0], site0, docs[i - 1], i - 1, docs[i]);
    }
  }

  lemma RunStep(suite: Suite, docs: seq<Document>, i: nat)
    requires Run(suite, docs, 0) && i + 1 < |docs|
    ensures SignStep(suite, docs[i], i) == Ok(docs[i + 1])
  {
    hide SignStep;
    assert SignStep(suite, docs[i], 0 + i) == Ok(docs[i + 1]);
  }

  /** The SignatureValue lies apart from SignedInfo and so from every DigestValue. */
  lemma ValueApart(suite: Suite, doc: Document, site: Site, i: nat)
    requires Template(suite, doc, site) && OwnSignatureValue(doc, site) && i < |site.refs|
    ensures var v := FirstVacant(AllSpots(doc), "SignatureValue"); v.Some? && DigestId(site, i) !in Ids(v.value.node)
  {
    var v := FirstVacant(AllSpots(doc), "SignatureValue").value.node;
    SiteParts(doc, site);
    hide IsSite, VacantIds, EmptyValue;
    UniqueBelow(doc.children, [], site.sig);
    MembersApart(site.sig.node.children, v, site.info);
    DigestWithin(site, i);
  }

  lemma DigestWithin(site: Site, i: nat)
    requires HasDigestValues(site) && i < |site.refs| && site.info.Elem? && site.refs[i] in site.info.children
    ensures DigestId(site, i) in Ids(site.info)
  {
    var ref, v := site.refs[i], DigestValueOf(site.refs[i]).value;
    assert v.id in Ids(v);
    var k :| 0 <= k < |ref.children| && ref.children[k] == v;
    IdsOfMember(ref.children, k);
    var m :| 0 <= m < |site.info.children| && site.info.children[m] == ref;
    IdsOfMember(site.info.children, m);
  }

  /** One pass leaves the first empty SignatureValue alone. */
  lemma ValueKept(suite: Suite, doc0: Document, site0: Site, doc: Document, i: nat, doc2: Document)
    requires Coding(suite) && Template(suite, doc0, site0) && i < |site0.refs| && Agreement.Reached(doc0, site0, doc, i)
    requires SignStep(suite, doc, i) == Ok(doc2)
    requires var r := FirstVacant(AllSpots(doc), "SignatureValue"); r.Some? && DigestId(site0, i) !in Ids(r.value.node)
    ensures FirstVacant(AllSpots(doc2), "SignatureValue") == FirstVacant(AllSpots(doc), "SignatureValue")
  {
    hide *;
    var s, content := StepSpot(suite, doc0, site0, doc, i, doc2);
    var x := Filled(s, content, FreshId(doc));
    FilledParts(s, content, FreshId(doc));
    FirstStays(doc.children, [], s, x, "SignatureValue");
    SpotsOf(doc);
    SpotsOf(doc2);
  }

  lemma SpotsOf(doc: Document)
    ensures AllSpots(doc) == Spots.Spots(doc.children, [])
  {
  }

  /** What a pass fills in, and where. */
  lemma StepSpot(suite: Suite, doc0: Document, site0: Site, doc: Document, i: nat, doc2: Document) returns (s: Spot, content: string)
    requires Coding(suite) && Template(suite, doc0, site0) && i < |site0.refs| && Agreement.Reached(doc0, site0, doc, i)
    requires SignStep(suite, doc, i) == Ok(doc2)
    ensures s in Spots.Spots(doc.children, []) && s.node.Elem? && s.node.id == DigestId(site0, i) && Trim(content) != ""
    ensures doc2.children == Replace(doc.children, s.node.id, Filled(s, content, FreshId(doc)))
    ensures VacantIdsOf(s.node, "SignatureValue") == [] && UniqueIds(doc.children) && Solidly(Filled(s, content, FreshId(doc)))
  {
    hide *;
    TemplateSite(suite, doc0, site0);
    EmptyParts(suite, doc0, site0, i);
    var site := Current(suite, doc0, site0, doc, i);
    HasDigestValue(site, i);
    var v, ref := DigestValueOf(site.refs[i]).value, site.refs[i];
    ReachedParts(doc0, site0, doc, i);
    RefSpots(doc, site, i);
    s := Spot(v, Below(ref, site.Chain()));
    StepParts(suite, doc, site, i, doc2);
    var d := ComputeDigest(suite, ref, site.Chain(), IdMap(suite.idsOf, doc).value, doc, site.sig.node);
    content := suite.encode(d.value);
    DigestNotEmpty(suite, ref, site.Chain(), IdMap(suite.idsOf, doc).value, doc, site.sig.node);
    SolidIsTrimmed(content);
    FillSpot(doc, s, content);
    NotVacantThere(v);
    SpotsOf(doc);
    SolidThere(s, content, FreshId(doc));
  }

  lemma HasDigestValue(site: Site, i: nat)
    requires HasDigestValues(site) && i < |site.refs|
    ensures site.refs[i].Elem? && DigestValueOf(site.refs[i]).Some?
  {
  }

  lemma SolidThere(s: Spot, content: string, newId: nat)
    requires s.node.Elem? && Trim(content) != ""
    ensures Solidly(Filled(s, content, newId))
  {
  }

  /** What a template says of an empty DigestValue. */
  lemma EmptyParts(suite: Suite, doc0: Document, site0: Site, i: nat)
    requires Template(suite, doc0, site0) && i < |site0.refs|
    ensures !IsCid(UriOfReference(suite, site0.refs[i])) && DigestValueOf(site0.refs[i]).Some?
    ensures var v := DigestValueOf(site0.refs[i]).value;
      && v.Elem? && Is(v, DSIG_NS, "DigestValue") && TextOnly(v.children) && Trim(DeepText(v)) == "" && v.id == DigestId(site0, i)
  {
    hide IsSite, VacantIds, Trim, NameThere, IsCid, UriOfReference;
    assert EmptyValue(site0, i);
  }

  lemma ReachedParts(doc0: Document, site0: Site, doc: Document, i: nat)
    requires HasDigestValues(site0) && i < |site0.refs| && Agreement.Reached(doc0, site0, doc, i)
    ensures WellIdentified(doc) && UniqueIds(doc.children)
    ensures VacantIds(doc.children, "DigestValue") != [] && VacantIds(doc.children, "DigestValue")[0] == DigestId(site0, i)
  {
    hide VacantIds, Alike, UniqueIds;
    assert DigestIds(site0)[i..][0] == DigestId(site0, i);
  }

  lemma FillSpot(doc: Document, s: Spot, content: string)
    requires WellIdentified(doc) && VacantIds(doc.children, "DigestValue") != [] && VacantIds(doc.children, "DigestValue")[0] == s.node.id
    requires s in AllSpots(doc) && s.node.Elem?
    ensures FillFirst(doc, "DigestValue", content).children == Replace(doc.children, s.node.id, Filled(s, content, FreshId(doc)))
  {
    FirstVacantId(doc.children, [], "DigestValue");
    hide Spots.Spots, VacantIds, Vacant, Replace;
    SpotsUnique(doc.children, [], FirstVacant(AllSpots(doc), "DigestValue").value, s);
  }

  lemma NotVacantThere(v: Node)
    requires Is(v, DSIG_NS, "DigestValue") && TextOnly(v.children)
    ensures VacantIdsOf(v, "SignatureValue") == []
  {
    TextNotVacant(v.children, "SignatureValue");
  }

  lemma FinishedRun(suite: Suite, template: Document, site0: Site, doc: Document, content: string)
    requires Template(suite, template, site0) && site0.sig.node.Elem? && Agreement.Reached(template, site0, doc, |site0.refs|)
    requires OwnSignatureValue(template, site0)
    requires FirstVacant(AllSpots(doc), "SignatureValue") == FirstVacant(AllSpots(template), "SignatureValue")
    ensures Finished(doc, site0, FillFirst(doc, "SignatureValue", content))
  {
    assert WellIdentified(doc);
    hide *;
    var n := |site0.refs|;
    var site := Current(suite, template, site0, doc, n);
    SameLate(site0, site, n);
    StillOwn(suite, template, site0, doc, site, n);
    FinishedByValue(doc, site, content);
    FinishedHere(doc, site, site0, FillFirst(doc, "SignatureValue", content));
  }

  lemma StillOwn(suite: Suite, template: Document, site0: Site, doc: Document, site: Site, n: nat)
    requires Template(suite, template, site0) && OwnSignatureValue(template, site0) && n == |site0.refs|
    requires SitesAlike(site0, site, Done(site0, n)) && site.sig.node.Elem?
    requires FirstVacant(AllSpots(doc), "SignatureValue") == FirstVacant(AllSpots(template), "SignatureValue")
    ensures OwnSignatureValue(doc, site)
  {
    var v, holes := FirstVacant(AllSpots(template), "SignatureValue").value.node, Done(site0, n);
    hide IsSite, VacantIds, EmptyValue, AllSpots, Template;
    TemplateSite(suite, template, site0);
    forall i | 0 <= i < n ensures DigestId(site0, i) !in Ids(v) {
      ValueApart(suite, template, site0, i);
    }
    assert holes !! Ids(v);
    var k :| 0 <= k < |site0.sig.node.children| && site0.sig.node.children[k] == v;
    AlikeAt(site0.sig.node.children, site.sig.node.children, holes, k);
    AlikeWholeNode(v, site.sig.node.children[k], holes);
    assert site.sig.node.children[k] in site.sig.node.children;
  }

  /** What the signer returned for the document with all digests is what is filled in. */
  lemma SigningParts(suite: Suite, modeOf: ModeReader, signer: (Node, string) -> Result<string>,
                     populate: Document -> Result<Document>, template: Document, site0: Site, final: Document)
    returns (m: Methods, value: string)
    requires IsSite(template, site0) && Signing(suite, modeOf, signer, populate, template) == Ok(final)
    ensures IdMap(suite.idsOf, template).Ok? && site0.info.Elem? && ReadMethods(suite, modeOf, site0.info) == Ok(m)
    ensures var filled := SignSteps(suite, template, 0, |site0.refs|);
      && filled.Ok? && SiteOf(filled.value).Ok?
      && signer(m.signature, InfoOctets(m, SiteOf(filled.value).value.info, filled.value)) == Ok(value)
      && populate(FillFirst(filled.value, "SignatureValue", suite.encode(value))) == Ok(final)
  {
    hide SignSteps, SiteOf, IdMap, ReadMethods, InfoOctets, FillFirst;
    m := ReadMethods(suite, modeOf, site0.info).value;
    var filled := SignSteps(suite, template, 0, |site0.refs|).value;
    value := signer(m.signature, InfoOctets(m, SiteOf(filled).value.info, filled)).value;
  }

  lemma SameLate(site0: Site, site: Site, n: nat)
    requires site0.sig.node.Elem? && HasDigestValues(site0) && HasDigestValues(site) && n == |site0.refs| == |site.refs|
    requires SitesAlike(site0, site, Done(site0, n)) && HolesFrom(site, n) == HolesFrom(site0, n)
    ensures site.sig.node.Elem? && Late(site) == Late(site0)
  {
    assert HolesFrom(site, n) == Late(site) && HolesFrom(site0, n) == Late(site0);
  }

  lemma FinishedByValue(doc: Document, site: Site, content: string)
    requires WellIdentified(doc) && IsSite(doc, site) && OwnSignatureValue(doc, site)
    ensures site.sig.node.Elem? && Finished(doc, site, FillFirst(doc, "SignatureValue", content))
  {
    hide SiteOf, IsSite;
    var s := FirstVacant(AllSpots(doc), "SignatureValue").value;
    SignatureValueFinishes(doc, site, s, content);
  }

  lemma FinishedHere(doc: Document, site: Site, site0: Site, final: Document)
    requires site.sig.node.Elem? && site0.sig.node.Elem? && Late(site) == Late(site0) && Finished(doc, site, final)
    ensures Finished(doc, site0, final)
  {
  }

  // ---------------------------------------------------------------- the verdict

  /** A template, its signing run and the finished document, where every reference selects nodes
      that avoid what is still open when it is digested. */
  ghost predicate Signed(suite: Suite, docs: seq<Document>, site0: Site, final: Document) {
    && Coding(suite) && Run(suite, docs, 0) && |docs| == |site0.refs| + 1 && Template(suite, docs[0], site0)
    && site0.sig.node.Elem? && Finished(docs[|site0.refs|], site0, final) && IdMap(suite.idsOf, final).Ok?
    && forall i :: 0 <= i < |site0.refs| ==>
         SelectsAside(suite, docs[i], i, HolesFrom(site0, i)) && SelectsAside(suite, final, i, HolesFrom(site0, i))
  }

  /** On the finished document every digest that verification recomputes equals the stored one. */
  lemma SignedDigestsMatch(suite: Suite, docs: seq<Document>, site0: Site, final: Document)
    requires Signed(suite, docs, site0, final)
    ensures forall i :: 0 <= i < |site0.refs| ==> Matches(suite, final, i)
  {
    hide Matches, Run, Template, Coding, Finished, IdMap, SelectsAside, HolesFrom;
    forall i | 0 <= i < |site0.refs| ensures Matches(suite, final, i) {
      PassVerifies(suite, docs, site0, final, i);
    }
  }

  /** And the finished document is Valid if and only if the signature method is admitted, the
      signature is accepted over the octets that were signed, with the methods read from the
      template, and in strict mode the targets of the references are well placed. */
  lemma SignedDocumentVerifies(suite: Suite, checks: Checks, docs: seq<Document>, site0: Site, final: Document)
    requires Signed(suite, docs, site0, final)
    ensures var signed := SiteOf(docs[|site0.refs|]);
      && site0.info.Elem? && signed.Ok? && SiteOf(final).Ok? && SiteOf(final).value.sig.node.Elem? && Reports(suite, final).Some?
      && (Verified(suite, checks, final).Ok? && Verified(suite, checks, final).value.Valid? <==>
            && Cleared(suite, checks, site0.info, SiteOf(final).value.sig, signed.value.info, docs[|site0.refs|])
            && (checks.strict ==> AllPlaced(final, SiteOf(final).value.sig, Reports(suite, final).value)))
  {
    SignedDigestsMatch(suite, docs, site0, final);
    var n := |site0.refs|;
    Progress(suite, docs, site0, n);
    assert WellIdentified(docs[n]) && IdMap(suite.idsOf, final).Ok? && IsSite(docs[0], site0);
    hide *;
    var site := Current(suite, docs[0], site0, docs[n], n);
    HolesOfTemplate(suite, docs[0], site0, n);
    MethodsRead(suite, checks.modeOf, site0, site, Done(site0, n));
    SameLate(site0, site, n);
    FinishedHere(docs[n], site0, site, final);
    var siteF := SignedOctetsAgree(docs[n], site, final);
    SitesGiven(docs[0], site0);
    SitesGiven(docs[n], site);
    SitesGiven(final, siteF);
    VerdictOf(suite, checks, final, siteF);
  }

  lemma SitesGiven(doc: Document, site: Site)
    requires IsSite(doc, site)
    ensures SiteOf(doc) == Ok(site)
  {
  }

  lemma VerdictOf(suite: Suite, checks: Checks, doc: Document, site: Site)
    requires IsSite(doc, site) && IdMap(suite.idsOf, doc).Ok?
    requires forall i :: 0 <= i < |site.refs| ==> Matches(suite, doc, i)
    ensures site.info.Elem? && site.sig.node.Elem? && Reports(suite, doc).Some?
    ensures Verified(suite, checks, doc).Ok? && Verified(suite, checks, doc).value.Valid? <==>
      Cleared(suite, checks, site.info, site.sig, site.info, doc) && (checks.strict ==> AllPlaced(doc, site.sig, Reports(suite, doc).value))
  {
    AllMatch(suite, doc, site, 0);
    assert site.refs[0..] == site.refs;
    hide IdMap, VerifyReferences, Matches, Verified, Reports, Cleared, AllPlaced, IsSite;
    VerdictAt(suite, checks, doc, site);
  }

  lemma VerdictAt(suite: Suite, checks: Checks, doc: Document, site: Site)
    requires IsSite(doc, site) && IdMap(suite.idsOf, doc).Ok? && forall r :: r in site.refs ==> r.Elem?
    requires var v := VerifyReferences(suite, site.refs, site.Chain(), IdMap(suite.idsOf, doc).value, doc, site.sig.node);
      v.Ok? && v.value.Some?
    ensures site.info.Elem? && site.sig.node.Elem? && Reports(suite, doc).Some?
    ensures Verified(suite, checks, doc).Ok? && Verified(suite, checks, doc).value.Valid? <==>
      Cleared(suite, checks, site.info, site.sig, site.info, doc) && (checks.strict ==> AllPlaced(doc, site.sig, Reports(suite, doc).value))
  {
    hide IdMap, VerifyReferences, ReadMethods, InfoOctets, AllSpots, AllPlaced, FirstSpot, FirstChild, ChildrenNamed, StoredValue;
  }

  lemma {:induction false} AllMatch(suite: Suite, doc: Document, site: Site, i: nat)
    requires IsSite(doc, site) && IdMap(suite.idsOf, doc).Ok? && i <= |site.refs|
    requires forall k :: 0 <= k < |site.refs| ==> Matches(suite, doc, k)
    ensures forall r :: r in site.refs[i..] ==> r.Elem?
    ensures var v := VerifyReferences(suite, site.refs[i..], site.Chain(), IdMap(suite.idsOf, doc).value, doc, site.sig.node);
      v.Ok? && v.value.Some?
    decreases |site.refs| - i
  {
    hide IdMap, VerifyReference;
    assert SiteOf(doc) == Ok(site);
    hide SiteOf;
    if i < |site.refs| {
      AllMatch(suite, doc, site, i + 1);
      assert Matches(suite, doc, i);
      assert site.refs[i..][1..] == site.refs[i + 1..] && site.refs[i..][0] == site.refs[i];
    }
  }
}
