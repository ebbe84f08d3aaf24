/**
 The seal: what a signing run leaves in SignatureValue, and that an honest verifier finds it there.
 */
module SealedRun {
  import opened Dom
  import opened NodeSets
  import opened Canonical
  import opened Spots
  import opened XPathText
  import opened Dsig
  import opened Edits
  import opened SignRun
  import opened Sites
  import opened VerifyRun
  import opened Agreement
  import opened SignVerify
  import opened CommonRun
  import opened Coverage

  /** The KeyInfo children of the signature. */
  function KeyInfoIds(site: Site): set<nat>
    requires site.sig.node.Elem?
  {
    set i | 0 <= i < |site.sig.node.children| && Is(site.sig.node.children[i], DSIG_NS, "KeyInfo") :: site.sig.node.children[i].id
  }

  /** Population fills in KeyInfo and leaves SignatureValue alone. */
  ghost predicate FillsKeyInfo(populate: Document -> Result<Document>, template: Document, site0: Site)
    requires site0.sig.node.Elem? && HasDigestValues(site0)
  {
    forall doc :: Edited(template, doc, HolesFrom(site0, 0)) && populate(doc).Ok? ==>
      Alike(doc.children, populate(doc).value.children, KeyInfoIds(site0))
  }

  /** The first SignatureValue of the signature is the first empty one of the document. */
  predicate FirstIsEmpty(doc: Document, site: Site)
    requires site.sig.node.Elem?
  {
    var s := FirstVacant(AllSpots(doc), "SignatureValue");
    s.Some? && FirstChild(site.sig.node.children, DSIG_NS, "SignatureValue") == Some(s.value.node)
  }

  /** The signature of the document has this SignatureValue. */
  ghost predicate HasValue(doc: Document, site: Site, v: Node) {
    IsSite(doc, site) && site.sig.node.Elem? && FirstChild(site.sig.node.children, DSIG_NS, "SignatureValue") == Some(v)
  }

  /** An edit in late elements of a signature leaves it where it is, with its SignatureValue. */
  lemma ValueAfter(doc: Document, doc2: Document, holes: set<nat>, site: Site, v: Node) returns (site2: Site, w: Node)
    requires WellIdentified(doc) && WellIdentified(doc2) && doc.rootId == doc2.rootId && Alike(doc.children, doc2.children, holes)
    requires HasValue(doc, site, v) && HasDigestValues(site) && holes <= Late(site)
    ensures HasValue(doc2, site2, w) && AlikeNode(v, w, holes) && HasDigestValues(site2) && Late(site2) == Late(site)
  {
    HolesArePlaced(doc, site);
    PlacedLess(site, HolesFrom(site, 0), holes);
    TopsAreNoHoles(doc, site, holes);
    hide IsSite, Placed, HolesFrom, Late, WellIdentified, FirstChild;
    site2 := SiteKept(doc, doc2, holes, site);
    SameHoles(site, site2, holes);
    FirstChildAlike(site.sig.node.children, site2.sig.node.children, holes, DSIG_NS, "SignatureValue");
    w := FirstChild(site2.sig.node.children, DSIG_NS, "SignatureValue").value;
  }

  /** Filling in the first empty element puts the content there. */
  lemma FilledThere(doc: Document, s: Spot, content: string) returns (x: Node)
    requires WellIdentified(doc) && FirstVacant(AllSpots(doc), "SignatureValue") == Some(s)
    requires NameThere(s.node.elem.name, s.above) == s.node.elem.name
    ensures x.id == s.node.id && HoldsText(x, content)
    ensures var valued := FillFirst(doc, "SignatureValue", content);
      Spot(x, s.above) in AllSpots(valued) && Alike(doc.children, valued.children, {s.node.id})
  {
    x := Filled(s, content, FreshId(doc));
    FilledParts(s, content, FreshId(doc));
    hide Spots.Spots, NameThere, Alike, Replace, UniqueIds, HoldsText;
    ReplaceIsEdit(doc.children, [], s, x);
    ReplaceSpot(doc.children, [], s, x);
  }

  /** In the document with the value filled in, the signature holds it. */
  lemma ValueFilled(doc: Document, site: Site, s: Spot, content: string) returns (site2: Site, x: Node)
    requires WellIdentified(doc) && HasValue(doc, site, s.node) && HasDigestValues(site) && s.node.id in Late(site)
    requires FirstVacant(AllSpots(doc), "SignatureValue") == Some(s) && NameThere(s.node.elem.name, s.above) == s.node.elem.name
    requires WellIdentified(FillFirst(doc, "SignatureValue", content))
    ensures x.id == s.node.id && HoldsText(x, content)
    ensures HasValue(FillFirst(doc, "SignatureValue", content), site2, x) && HasDigestValues(site2) && Late(site2) == Late(site)
  {
    var valued := FillFirst(doc, "SignatureValue", content);
    assert valued.rootId == doc.rootId;
    x := FilledThere(doc, s, content);
    hide *;
    var w;
    site2, w := ValueAfter(doc, valued, {s.node.id}, site, s.node);
    ValueSpot(valued, site2, w);
    AlikeIds(s.node, w, {s.node.id});
    SameNode(valued, Spot(x, s.above), Spot(w, site2.sig.Path()));
  }

  lemma AlikeIds(n: Node, m: Node, holes: set<nat>)
    requires AlikeNode(n, m, holes)
    ensures n.id == m.id
  {
  }

  lemma ValueSpot(doc: Document, site: Site, v: Node)
    requires WellIdentified(doc) && HasValue(doc, site, v)
    ensures Spot(v, site.sig.Path()) in AllSpots(doc)
  {
    SiteParts(doc, site);
    hide IsSite;
    ChildSpot(doc.children, [], site.sig, v);
  }

  /** SignatureValue is none of the KeyInfo elements. */
  lemma NoKeyInfo(doc: Document, site: Site, v: Node)
    requires WellIdentified(doc) && HasValue(doc, site, v)
    ensures v.id !in KeyInfoIds(site) && KeyInfoIds(site) <= Late(site) && v.id in Late(site)
  {
    SiteParts(doc, site);
    hide IsSite;
    var kids := site.sig.node.children;
    assert v in kids && IsLate(v);
    assert v.id in Ids(v);
    if v.id in KeyInfoIds(site) {
      var k :| 0 <= k < |kids| && Is(kids[k], DSIG_NS, "KeyInfo") && kids[k].id == v.id;
      assert kids[k].id in Ids(kids[k]);
      MembersApart(kids, kids[k], v);
    }
  }

  /** The first empty SignatureValue of the last pass is that of the template. */
  lemma ValueOfPass(suite: Suite, template: Document, site0: Site, doc: Document, site: Site, n: nat)
    requires Template(suite, template, site0) && OwnSignatureValue(template, site0) && n == |site0.refs|
    requires IsSite(doc, site) && SitesAlike(site0, site, Done(site0, n)) && site0.sig.node.Elem? && FirstIsEmpty(template, site0)
    ensures HasValue(doc, site, FirstVacant(AllSpots(template), "SignatureValue").value.node)
  {
    var v, holes := FirstVacant(AllSpots(template), "SignatureValue").value.node, Done(site0, n);
    hide IsSite, VacantIds, EmptyValue, AllSpots, Template;
    TemplateSite(suite, template, site0);
    forall i | 0 <= i < n ensures DigestId(site0, i) !in Ids(v) {
      ValueApart(suite, template, site0, i);
    }
    assert holes !! Ids(v);
    FirstChildAlike(site0.sig.node.children, site.sig.node.children, holes, DSIG_NS, "SignatureValue");
    AlikeWholeNode(v, FirstChild(site.sig.node.children, DSIG_NS, "SignatureValue").value, holes);
  }

  // ---------------------------------------------------------------- the seal

  /** What is asked beyond `Ready`: which element is filled, what population leaves alone, and that the
      signer returns something. */
  ghost predicate Sealable(populate: Document -> Result<Document>, signer: (Node, string) -> Result<string>, template: Document, site0: Site)
    requires site0.sig.node.Elem? && HasDigestValues(site0)
  {
    && FirstIsEmpty(template, site0) && FillsKeyInfo(populate, template, site0)
    && forall m, octets :: signer(m, octets).Ok? ==> signer(m, octets).value != ""
  }

  /** The value the signature of the finished document holds. */
  lemma ValueStored(suite: Suite, populate: Document -> Result<Document>, docs: seq<Document>, template: Document, site0: Site,
                    final: Document, content: string)
    returns (site: Site, x: Node)
    requires Ready(suite, populate, template, site0) && HasDigestValues(site0)
    requires FirstIsEmpty(template, site0) && FillsKeyInfo(populate, template, site0)
    requires Run(suite, docs, 0) && |docs| == |site0.refs| + 1 && docs[0] == template && Finished(docs[|site0.refs|], site0, final)
    requires populate(FillFirst(docs[|site0.refs|], "SignatureValue", content)) == Ok(final)
    ensures HasValue(final, site, x) && HoldsText(x, content)
  {
    var n := |site0.refs|;
    var doc := docs[n];
    var valued := FillFirst(doc, "SignatureValue", content);
    var s := FirstVacant(AllSpots(template), "SignatureValue").value;
    assert Coding(suite) && Template(suite, template, site0) && site0.sig.node.Elem? && OwnSignatureValue(template, site0);
    assert NameThere(s.node.elem.name, s.above) == s.node.elem.name;
    assert FirstVacant(AllSpots(template), "SignatureValue") == Some(s);
    hide *;
    ValueStays(suite, docs, site0, n);
    Progress(suite, docs, site0, n);
    FinishedRun(suite, template, site0, doc, content);
    ToFinal(suite, docs, site0, valued, 0);
    FinishedParts(doc, site0, valued);
    FinishedParts(doc, site0, final);
    EditedParts(template, valued, HolesFrom(site0, 0));
    var siteN := Current(suite, template, site0, doc, n);
    SameLate(site0, siteN, n);
    ValueOfPass(suite, template, site0, doc, siteN, n);
    ReachedDoc(template, site0, doc, n);
    NoKeyInfo(doc, siteN, s.node);
    var siteV, w := ValueFilled(doc, siteN, s, content);
    TemplateSite(suite, template, site0);
    TemplateValue(suite, template, site0, s);
    var holes := KeyInfoIds(site0);
    Keeps(populate, template, site0, valued, final);
    site, x := ValueAfter(valued, final, holes, siteV, w);
    HoldsAfter(w, x, holes, content);
  }

  lemma TemplateValue(suite: Suite, template: Document, site0: Site, s: Spot)
    requires Template(suite, template, site0) && site0.sig.node.Elem? && FirstIsEmpty(template, site0)
    requires FirstVacant(AllSpots(template), "SignatureValue") == Some(s)
    ensures s.node.id !in KeyInfoIds(site0) && KeyInfoIds(site0) <= Late(site0)
  {
    hide IsSite, VacantIds, EmptyValue, AllSpots;
    NoKeyInfo(template, site0, s.node);
  }

  lemma Keeps(populate: Document -> Result<Document>, template: Document, site0: Site, valued: Document, final: Document)
    requires site0.sig.node.Elem? && HasDigestValues(site0) && FillsKeyInfo(populate, template, site0)
    requires Edited(template, valued, HolesFrom(site0, 0)) && populate(valued) == Ok(final)
    ensures Alike(valued.children, final.children, KeyInfoIds(site0))
  {
  }

  lemma HoldsAfter(w: Node, x: Node, holes: set<nat>, content: string)
    requires HoldsText(w, content) && AlikeNode(w, x, holes) && w.id !in holes
    ensures HoldsText(x, content)
  {
    SameValue(w, x, holes);
  }

  lemma FinishedParts(doc: Document, site0: Site, final: Document)
    requires site0.sig.node.Elem? && Finished(doc, site0, final)
    ensures WellIdentified(final) && final.rootId == doc.rootId
  {
  }

  lemma EditedParts(doc: Document, doc2: Document, holes: set<nat>)
    requires Edited(doc, doc2, holes)
    ensures WellIdentified(doc2)
  {
  }

  lemma ReachedDoc(doc0: Document, site0: Site, doc: Document, n: nat)
    requires HasDigestValues(site0) && n <= |site0.refs| && Agreement.Reached(doc0, site0, doc, n)
    ensures WellIdentified(doc)
  {
  }

  /** The signature of the document: its methods, its SignatureValue decoded, and that this is what the
      signer returns for the canonical text of SignedInfo. */
  ghost predicate Sealed(suite: Suite, modeOf: ModeReader, signer: (Node, string) -> Result<string>, doc: Document,
                         c: Node, m: Node, v: Node, mode: Mode, comments: bool, value: string)
  {
    SiteOf(doc).Ok? && SiteOf(doc).value.info.Elem? && SiteOf(doc).value.sig.node.Elem? &&
    var site := SiteOf(doc).value;
    && FirstChild(site.info.children, DSIG_NS, "CanonicalizationMethod") == Some(c) && modeOf(c) == Ok((mode, comments))
    && FirstChild(site.info.children, DSIG_NS, "SignatureMethod") == Some(m)
    && FirstChild(site.sig.node.children, DSIG_NS, "SignatureValue") == Some(v) && v.Elem?
    && suite.decode(WithoutBlanks(Trim(Coverage.Text(v.children)))) == Some(value)
    && signer(m, C14n(Config(mode, comments, Some(FromIds(SubtreeIds(site.info, false)))), doc)) == Ok(value)
  }

  /** The parts of the argument: the methods read from the template, the value the signer returned for the
      octets of the last pass, and that the finished document stores it. */
  lemma SealParts(suite: Suite, modeOf: ModeReader, signer: (Node, string) -> Result<string>,
                  populate: Document -> Result<Document>, template: Document, site0: Site, final: Document)
    returns (docs: seq<Document>, r: Methods, value: string, site: Site, v: Node)
    requires Ready(suite, populate, template, site0) && HasDigestValues(site0) && Sealable(populate, signer, template, site0)
    requires Signing(suite, modeOf, signer, populate, template) == Ok(final)
    ensures Run(suite, docs, 0) && |docs| == |site0.refs| + 1 && docs[0] == template && Finished(docs[|site0.refs|], site0, final)
    ensures SignSteps(suite, template, 0, |site0.refs|) == Ok(docs[|site0.refs|]) && SiteOf(docs[|site0.refs|]).Ok?
    ensures site0.info.Elem? && ReadMethods(suite, modeOf, site0.info) == Ok(r)
    ensures signer(r.signature, InfoOctets(r, SiteOf(docs[|site0.refs|]).value.info, docs[|site0.refs|])) == Ok(value)
    ensures HasValue(final, site, v) && StoredValue(suite, site.sig.node) == Ok(value)
    ensures v.Elem? && suite.decode(WithoutBlanks(Trim(Coverage.Text(v.children)))) == Some(value)
  {
    assert Template(suite, template, site0) && Coding(suite);
    hide *;
    TemplateSite(suite, template, site0);
    docs := SigningFinishes(suite, modeOf, signer, populate, template, site0, final);
    r, value := SigningParts(suite, modeOf, signer, populate, template, site0, final);
    SealableParts(populate, signer, template, site0, r.signature, InfoOctets(r, SiteOf(docs[|site0.refs|]).value.info, docs[|site0.refs|]));
    site, v := ValueStored(suite, populate, docs, template, site0, final, suite.encode(value));
    CodedThere(suite, value);
    StoredThere(suite, final, site, v, value);
  }

  lemma SealableParts(populate: Document -> Result<Document>, signer: (Node, string) -> Result<string>, template: Document, site0: Site,
                      m: Node, octets: string)
    requires site0.sig.node.Elem? && HasDigestValues(site0) && Sealable(populate, signer, template, site0)
    ensures FirstIsEmpty(template, site0) && FillsKeyInfo(populate, template, site0)
    ensures signer(m, octets).Ok? ==> signer(m, octets).value != ""
  {
    hide FirstIsEmpty, FillsKeyInfo;
  }

  lemma CodedThere(suite: Suite, value: string)
    requires Coding(suite) && value != ""
    ensures WithoutBlanks(Trim(suite.encode(value))) == suite.encode(value) && suite.decode(suite.encode(value)) == Some(value)
  {
    SolidIsTrimmed(suite.encode(value));
  }

  lemma StoredThere(suite: Suite, doc: Document, site: Site, v: Node, value: string)
    requires HasValue(doc, site, v) && HoldsText(v, suite.encode(value))
    requires WithoutBlanks(Trim(suite.encode(value))) == suite.encode(value) && suite.decode(suite.encode(value)) == Some(value)
    ensures StoredValue(suite, site.sig.node) == Ok(value)
    ensures v.Elem? && suite.decode(WithoutBlanks(Trim(Coverage.Text(v.children)))) == Some(value)
  {
    hide WithoutBlanks, Trim, IsSite, FirstChild;
  }

  /** The signing run seals the document: the text of its SignatureValue decodes to what the signer returns
      for the SignatureMethod and the canonical text of the SignedInfo that the document holds. */
  lemma SigningSeals(suite: Suite, modeOf: ModeReader, signer: (Node, string) -> Result<string>,
                     populate: Document -> Result<Document>, template: Document, site0: Site, final: Document)
    returns (c: Node, m: Node, v: Node, mode: Mode, comments: bool, value: string)
    requires Ready(suite, populate, template, site0) && HasDigestValues(site0) && Sealable(populate, signer, template, site0)
    requires Signing(suite, modeOf, signer, populate, template) == Ok(final)
    ensures Sealed(suite, modeOf, signer, final, c, m, v, mode, comments, value)
  {
    assert Template(suite, template, site0) && Coding(suite) && site0.sig.node.Elem?;
    hide *;
    var docs, r, x, site, w := SealParts(suite, modeOf, signer, populate, template, site0, final);
    var n := |site0.refs|;
    Progress(suite, docs, site0, n);
    ReachedDoc(template, site0, docs[n], n);
    var siteN := Current(suite, template, site0, docs[n], n);
    SitesGiven(docs[n], siteN);
    HolesOfTemplate(suite, template, site0, n);
    MethodsRead(suite, modeOf, site0, siteN, Done(site0, n));
    SameLate(site0, siteN, n);
    FinishedHere(docs[n], site0, siteN, final);
    var siteF := SignedOctetsAgree(docs[n], siteN, final);
    v, value := w, x;
    SitesGiven(final, siteF);
    ValueSite(final, site, v);
    c, m, mode, comments := SealedIntro(suite, modeOf, signer, final, siteF, r, v, value);
  }

  lemma ValueSite(doc: Document, site: Site, v: Node)
    requires HasValue(doc, site, v)
    ensures SiteOf(doc) == Ok(site) && site.sig.node.Elem? && FirstChild(site.sig.node.children, DSIG_NS, "SignatureValue") == Some(v)
  {
  }

  lemma SealedIntro(suite: Suite, modeOf: ModeReader, signer: (Node, string) -> Result<string>, doc: Document, site: Site,
                    r: Methods, v: Node, value: string)
    returns (c: Node, m: Node, mode: Mode, comments: bool)
    requires SiteOf(doc) == Ok(site) && site.info.Elem? && ReadMethods(suite, modeOf, site.info) == Ok(r)
    requires signer(r.signature, InfoOctets(r, site.info, doc)) == Ok(value)
    requires site.sig.node.Elem? && FirstChild(site.sig.node.children, DSIG_NS, "SignatureValue") == Some(v)
    requires v.Elem? && suite.decode(WithoutBlanks(Trim(Coverage.Text(v.children)))) == Some(value)
    ensures Sealed(suite, modeOf, signer, doc, c, m, v, mode, comments, value)
  {
    hide SiteOf, C14n, SubtreeIds, Trim, WithoutBlanks;
    c := FirstChild(site.info.children, DSIG_NS, "CanonicalizationMethod").value;
    m := r.signature;
    mode, comments := r.mode, r.withComments;
  }

  // ---------------------------------------------------------------- the verdict

  /** The verifier accepts what the signer makes with a method that is admitted; one that compares with
      what the signer returns does. */
  ghost predicate Honest(checks: Checks, signer: (Node, string) -> Result<string>) {
    forall sig, m, octets, value :: signer(m, octets) == Ok(value) && checks.admits(m) == Ok(true) ==>
      checks.accepts(sig, m, octets, value) == Ok(true)
  }

  /** What signing makes of a template with usual references verifies as Valid if and only if its
      SignatureMethod is admitted and, in strict mode, the targets are in place: nothing is asked of the
      signature itself but that the verifier accepts what this signer makes. */
  lemma SealedIsValid(suite: Suite, modeOf: ModeReader, signer: (Node, string) -> Result<string>,
                      populate: Document -> Result<Document>, checks: Checks, template: Document, site0: Site, final: Document)
    returns (m: Node)
    requires Ready(suite, populate, template, site0) && HasDigestValues(site0) && Sealable(populate, signer, template, site0)
    requires forall i :: 0 <= i < |site0.refs| ==> CommonReference(suite, template, site0, i)
    requires Signing(suite, modeOf, signer, populate, template) == Ok(final)
    requires checks.modeOf == modeOf && Honest(checks, signer)
    ensures site0.info.Elem? && FirstChild(site0.info.children, DSIG_NS, "SignatureMethod") == Some(m)
    ensures SiteOf(final).Ok? && Reports(suite, final).Some?
    ensures IsValid(suite, checks, final) <==>
      checks.admits(m) == Ok(true) && (checks.strict ==> AllInPlace(final, SiteOf(final).value.sig, Reports(suite, final).value))
  {
    assert Template(suite, template, site0);
    hide *;
    var docs, r, value, site, v := SealParts(suite, modeOf, signer, populate, template, site0, final);
    SignThenVerify(suite, modeOf, signer, populate, checks, template, site0, final);
    ValueSite(final, site, v);
    var doc := docs[|site0.refs|];
    m := MethodNode(suite, modeOf, site0.info, r);
    ClearedWhen(suite, checks, signer, site0.info, site.sig, SiteOf(doc).value.info, doc, r, value);
    FinishedParts(doc, site0, final);
    PlacesAgree(suite, final, site);
    ValidIs(suite, checks, final);
  }

  lemma ValidIs(suite: Suite, checks: Checks, doc: Document)
    ensures IsValid(suite, checks, doc) <==> Verified(suite, checks, doc).Ok? && Verified(suite, checks, doc).value.Valid?
  {
    hide Verified;
  }

  lemma MethodNode(suite: Suite, modeOf: ModeReader, info: Node, r: Methods) returns (m: Node)
    requires info.Elem? && ReadMethods(suite, modeOf, info) == Ok(r)
    ensures FirstChild(info.children, DSIG_NS, "SignatureMethod") == Some(m) && r.signature == m
  {
    m := r.signature;
  }

  lemma ClearedWhen(suite: Suite, checks: Checks, signer: (Node, string) -> Result<string>, from: Node, sig: Spot, info: Node,
                    doc: Document, r: Methods, value: string)
    requires from.Elem? && sig.node.Elem? && Honest(checks, signer)
    requires ReadMethods(suite, checks.modeOf, from) == Ok(r) && StoredValue(suite, sig.node) == Ok(value)
    requires signer(r.signature, InfoOctets(r, info, doc)) == Ok(value)
    ensures Cleared(suite, checks, from, sig, info, doc) <==> checks.admits(r.signature) == Ok(true)
  {
    hide ReadMethods, StoredValue, InfoOctets;
  }

  /** Where all references match, the position check asks exactly that the targets are in place. */
  lemma PlacesAgree(suite: Suite, doc: Document, site: Site)
    requires WellIdentified(doc) && SiteOf(doc) == Ok(site) && Reports(suite, doc).Some?
    ensures AllPlaced(doc, site.sig, Reports(suite, doc).value) <==> AllInPlace(doc, site.sig, Reports(suite, doc).value)
  {
    var chain, vs := site.Chain(), Reports(suite, doc).value;
    assert site.sig in AllSpots(doc) && IdMap(suite.idsOf, doc).Ok?;
    hide IdMap, VerifyReferences, AllPlaced, AllInPlace, AllSound, WellIdentified, AllSpots;
    ReferencesAreSound(suite, site.refs, chain, doc, site.sig.node);
    TargetsInPlace(suite, site.refs, chain, doc, site.sig, vs);
  }
}
