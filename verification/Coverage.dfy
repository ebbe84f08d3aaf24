/**
 What a Valid result covers: the octets behind each digest and under the signature, and why none of
 the text behind a digest can be changed without the result changing.
 */
module Coverage {
  import opened Dom
  import opened NodeSets
  import opened Canonical
  import opened Spots
  import opened XPathText
  import opened Dsig
  import opened SignRun
  import opened VerifyRun
  import opened CommonRun
  import opened Removal
  import opened Enveloped
  import opened WholeReference
  import opened WellFormed
  import opened InfoSet
  import Lexer

  ghost predicate IsValid(suite: Suite, checks: Checks, doc: Document) {
    Verified(suite, checks, doc).Ok? && Verified(suite, checks, doc).value.Valid?
  }

  // ---------------------------------------------------------------- reading a reference

  /** The transforms of the list, read in order; other elements are skipped. */
  function ReadAll(suite: Suite, ts: seq<Node>, chain: seq<Frame>): Option<seq<Transform>> {
    if ts == [] then Some([])
    else if !IsTransform(ts[0]) then ReadAll(suite, ts[1..], chain)
    else
      var t, rest := suite.transformOf(ts[0], chain), ReadAll(suite, ts[1..], chain);
      if t.Ok? && rest.Some? then Some([t.value] + rest.value) else None
  }

  /** The transforms of a reference. */
  function TransformsOf(suite: Suite, ref: Node, chain: seq<Frame>): Option<seq<Transform>>
    requires ref.Elem?
  {
    match FirstChild(ref.children, DSIG_NS, "Transforms")
    case None => Some([])
    case Some(ts) => ReadAll(suite, ts.children, Below(ts, Below(ref, chain)))
  }

  /** The usual lists: the signature is taken out or not, and a canonicalization follows or not, in
      which case the inclusive one without comments is used. */
  ghost predicate Usual(list: seq<Transform>, enveloped: bool, mode: Mode, comments: bool) {
    var head := if enveloped then [EnvelopedSignature] else [];
    list == head + [Canonicalize(mode, comments)] || (list == head && mode == Inclusive && !comments)
  }

  /** Reference `i` names a part of the document, and its transforms are such a list. */
  ghost predicate Covers(suite: Suite, site: Site, i: nat, enveloped: bool, mode: Mode, comments: bool) {
    i < |site.refs| && site.refs[i].Elem? &&
    var uri, list := UriOfReference(suite, site.refs[i]), TransformsOf(suite, site.refs[i], site.Chain());
    (uri == "" || uri[0] == '#') && list.Some? && Usual(list.value, enveloped, mode, comments)
  }

  function Text(ns: seq<Node>): string {
    if ns == [] then "" else if ns[0].Text? || ns[0].CData? then ns[0].text else Text(ns[1..])
  }

  /** The reference names this digest method and stores this digest, in base64 with any white space. */
  ghost predicate Records(suite: Suite, ref: Node, algorithm: string, stored: string)
    requires ref.Elem?
  {
    && (var m := FirstChild(ref.children, DSIG_NS, "DigestMethod");
        m.Some? && suite.attr(m.value.elem, "Algorithm") == Some(algorithm))
    && (var v := FirstChild(ref.children, DSIG_NS, "DigestValue");
        v.Some? && suite.decode(WithoutBlanks(Trim(Text(v.value.children)))) == Some(stored))
  }

  /** What the reference stores is the digest of this text. */
  ghost predicate Pins(suite: Suite, ref: Node, text: string)
    requires ref.Elem?
  {
    exists a, d :: Records(suite, ref, a, d) && suite.digest(a, text) == Ok(d)
  }

  // ---------------------------------------------------------------- the octets behind a digest

  function RunList(suite: Suite, list: seq<Transform>, data: Data, doc: Document, sig: Node): Result<Data> {
    if list == [] then Ok(data)
    else
      var next := Apply(suite, list[0], data, doc, sig);
      if next.Err? then next else RunList(suite, list[1..], next.value, doc, sig)
  }

  lemma {:induction false} RunAsRead(suite: Suite, ts: seq<Node>, chain: seq<Frame>, data: Data, doc: Document, sig: Node)
    requires ReadAll(suite, ts, chain).Some?
    ensures RunTransforms(suite, ts, chain, data, doc, sig) == RunList(suite, ReadAll(suite, ts, chain).value, data, doc, sig)
  {
    hide Apply;
    if ts != [] {
      if !IsTransform(ts[0]) {
        RunAsRead(suite, ts[1..], chain, data, doc, sig);
      } else {
        var t := suite.transformOf(ts[0], chain).value;
        var next := Apply(suite, t, data, doc, sig);
        var list := ReadAll(suite, ts, chain).value;
        assert list[0] == t && list[1..] == ReadAll(suite, ts[1..], chain).value;
        if next.Ok? {
          RunAsRead(suite, ts[1..], chain, next.value, doc, sig);
        }
      }
    }
  }

  /** The nodes that are left. */
  function Left(start: Option<NodeSet>, enveloped: bool, doc: Document, sig: Node): Option<NodeSet> {
    if !enveloped then start
    else
      var s := if start.Some? then start.value else All(doc);
      Some(s.(nodes := s.nodes - Ids(sig)))
  }

  lemma UsualOctets(suite: Suite, list: seq<Transform>, enveloped: bool, mode: Mode, comments: bool,
                    start: Option<NodeSet>, doc: Document, sig: Node)
    requires Usual(list, enveloped, mode, comments)
    ensures var r := RunList(suite, list, Xml(start), doc, sig);
      r.Ok? && ToOctets(r.value, doc) == C14n(Config(mode, comments, Left(start, enveloped, doc, sig)), doc)
  {
    hide C14n, Ids, ForestIds;
    var left := Left(start, enveloped, doc, sig);
    if enveloped {
      assert Apply(suite, list[0], Xml(start), doc, sig) == Ok(Xml(left));
      UsualEnd(suite, list[1..], mode, comments, left, doc, sig);
    } else {
      UsualEnd(suite, list, mode, comments, left, doc, sig);
    }
  }

  lemma UsualEnd(suite: Suite, list: seq<Transform>, mode: Mode, comments: bool, left: Option<NodeSet>, doc: Document, sig: Node)
    requires list == [Canonicalize(mode, comments)] || (list == [] && mode == Inclusive && !comments)
    ensures var r := RunList(suite, list, Xml(left), doc, sig);
      r.Ok? && ToOctets(r.value, doc) == C14n(Config(mode, comments, left), doc)
  {
    hide C14n;
    if list != [] {
      assert list[1..] == [];
    }
  }

  lemma TextIsElementText(ns: seq<Node>)
    ensures Text(ns) == if Dsig.ElementText(ns).Some? then Dsig.ElementText(ns).value else ""
  {
  }

  lemma RecordedIs(suite: Suite, ref: Node)
    requires ref.Elem? && DigestMethod(suite, ref).Ok? && StoredDigest(suite, ref).Ok?
    ensures Records(suite, ref, DigestMethod(suite, ref).value, StoredDigest(suite, ref).value)
  {
    hide WithoutBlanks, Trim;
    TextIsElementText(FirstChild(ref.children, DSIG_NS, "DigestValue").value.children);
  }

  /** A Valid result: the reports are sound, one for each reference. */
  lemma ValidReference(suite: Suite, checks: Checks, doc: Document, i: nat) returns (ids: map<string, Spot>, v: VerifiedReference)
    requires IsValid(suite, checks, doc)
    ensures SiteOf(doc).Ok? && IdMap(suite.idsOf, doc) == Ok(ids)
    ensures var site := SiteOf(doc).value;
      i < |site.refs| ==> VerifyRun.Sound(suite, site.refs[i], site.Chain(), ids, doc, site.sig.node, v)
  {
    var info: Node;
    info, ids := ValidPassed(suite, checks, doc);
    var verdict := Verified(suite, checks, doc).value;
    hide Verified, IdMap, Cleared, VerifyReferences, VerifyRun.Sound, AllPlaced, AllSpots;
    var refs := ChildrenNamed(info.children, DSIG_NS, "Reference");
    ReferencesAreSound(suite, refs, Below(info, verdict.signature.Path()), doc, verdict.signature.node);
    assert SiteOf(doc) == Ok(Site(verdict.signature, info, refs));
    v := if i < |refs| then verdict.references[i] else VerifiedReference("", None, false);
  }

  /** What is digested for a reference into the document. */
  lemma DigestedUsual(suite: Suite, ref: Node, chain: seq<Frame>, ids: map<string, Spot>, doc: Document, sig: Node,
                      enveloped: bool, mode: Mode, comments: bool)
    requires ref.Elem? && ComputeDigest(suite, ref, chain, ids, doc, sig).Ok?
    requires UriOfReference(suite, ref) == "" || UriOfReference(suite, ref)[0] == '#'
    requires TransformsOf(suite, ref, chain).Some? && Usual(TransformsOf(suite, ref, chain).value, enveloped, mode, comments)
    ensures var r := Resolve(ids, suite.external, UriOfReference(suite, ref), doc);
      && r.Ok? && r.value.data.Xml? && DigestMethod(suite, ref).Ok?
      && ComputeDigest(suite, ref, chain, ids, doc, sig)
           == suite.digest(DigestMethod(suite, ref).value, C14n(Config(mode, comments, Left(r.value.data.nodeSet, enveloped, doc, sig)), doc))
  {
    var uri := UriOfReference(suite, ref);
    var r := Resolve(ids, suite.external, uri, doc);
    ResolvesHere(ids, suite.external, uri, doc);
    hide C14n, Resolve, UriOfReference, DigestMethod, Usual, Left, RunList, RunTransforms, ReadAll, ToOctets;
    var start := r.value.data.nodeSet;
    match FirstChild(ref.children, DSIG_NS, "Transforms") {
      case None =>
        UsualOctets(suite, [], enveloped, mode, comments, start, doc, sig);
        RunNothing(suite, Xml(start), doc, sig);
      case Some(ts) =>
        var list := ReadAll(suite, ts.children, Below(ts, Below(ref, chain)));
        RunAsRead(suite, ts.children, Below(ts, Below(ref, chain)), Xml(start), doc, sig);
        UsualOctets(suite, list.value, enveloped, mode, comments, start, doc, sig);
    }
  }

  lemma RunNothing(suite: Suite, data: Data, doc: Document, sig: Node)
    ensures RunList(suite, [], data, doc, sig) == Ok(data)
  {
  }

  lemma ResolvesHere(ids: map<string, Spot>, external: string -> Result<string>, uri: string, doc: Document)
    requires uri == "" || uri[0] == '#'
    ensures var r := Resolve(ids, external, uri, doc); r.Ok? ==> r.value.data.Xml?
  {
    hide XPointerId, SubtreeIds;
  }

  /** The stored digest of a reference into the document is that of the text its transforms leave. */
  lemma ReferencePins(suite: Suite, checks: Checks, doc: Document, i: nat, enveloped: bool, mode: Mode, comments: bool)
    returns (r: Resolved)
    requires IsValid(suite, checks, doc) && SiteOf(doc).Ok? && i < |SiteOf(doc).value.refs|
    requires Covers(suite, SiteOf(doc).value, i, enveloped, mode, comments)
    ensures var site := SiteOf(doc).value; var uri := UriOfReference(suite, site.refs[i]);
      && IdMap(suite.idsOf, doc).Ok? && Resolve(IdMap(suite.idsOf, doc).value, suite.external, uri, doc) == Ok(r) && r.data.Xml?
      && Pins(suite, site.refs[i], C14n(Config(mode, comments, Left(r.data.nodeSet, enveloped, doc, site.sig.node)), doc))
      && (r.target.Some? <==> |uri| > 0 && uri != "#xpointer(/)")
      && (r.target.Some? ==> OnlyCarrier(suite, doc, FragmentId(uri[1..]), r.target.value))
  {
    var site := SiteOf(doc).value;
    var ref, uri := site.refs[i], UriOfReference(suite, site.refs[i]);
    var ids, v := ValidReference(suite, checks, doc, i);
    CidIsNoFragment(uri);
    hide IsValid, SiteOf, IdMap, C14n, XPointerId, SubtreeIds, Usual, OnlyCarrier, Records, Left, FragmentId, ComputeDigest, StoredDigest,
         DigestMethod, TransformsOf, Resolve, UriOfReference;
    DigestedUsual(suite, ref, site.Chain(), ids, doc, site.sig.node, enveloped, mode, comments);
    TargetIsOnly(suite, doc, ids, uri);
    r := Resolve(ids, suite.external, uri, doc).value;
    RecordedIs(suite, ref);
  }

  // ---------------------------------------------------------------- what the digests are of

  /** The canonical text of the element at `t`, with or without comments in the node set, and with the
      nodes of the signature or without. */
  function SubtreeText(mode: Mode, comments: bool, doc: Document, t: Spot, pointer: bool, enveloped: bool, sig: Node): string {
    var ids := SubtreeIds(t.node, pointer);
    C14n(Config(mode, comments, Some(FromIds(if enveloped then ids - Ids(sig) else ids))), doc)
  }

  /** A `#id` or xpointer reference of a Valid document: one element carries the ID, and the stored digest is
      that of its canonical text. */
  lemma ElementPinned(suite: Suite, checks: Checks, doc: Document, i: nat, enveloped: bool, mode: Mode, comments: bool)
    returns (t: Spot)
    requires IsValid(suite, checks, doc) && SiteOf(doc).Ok? && Covers(suite, SiteOf(doc).value, i, enveloped, mode, comments)
    requires var uri := UriOfReference(suite, SiteOf(doc).value.refs[i]); uri != "" && uri != "#xpointer(/)"
    ensures var site := SiteOf(doc).value; var uri := UriOfReference(suite, site.refs[i]);
      && t in AllSpots(doc) && OnlyCarrier(suite, doc, FragmentId(uri[1..]), t)
      && Pins(suite, site.refs[i], SubtreeText(mode, comments, doc, t, XPointerId(uri[1..]).Some?, enveloped, site.sig.node))
  {
    var site, ids := SiteOf(doc).value, IdMap(suite.idsOf, doc).value;
    var uri := UriOfReference(suite, site.refs[i]);
    hide IsValid, IdMap, SiteOf, C14n, XPointerId, SubtreeIds, OnlyCarrier, Records, Covers, Resolve, UriOfReference, AllSpots, Ids, FragmentId;
    var r := ReferencePins(suite, checks, doc, i, enveloped, mode, comments);
    ResolvedSubtree(suite, ids, uri, doc);
    t := r.target.value;
  }

  /** The document without its signature. */
  function Unsigned(doc: Document, sig: Node): Document {
    Document(doc.rootId, Delete(doc.children, sig.id))
  }

  /** A reference to the whole document, by the empty URI or by `#xpointer(/)`, which takes out the
      signature: the stored digest is that of the canonical text of the document without it; comments
      count only for the xpointer. */
  lemma DocumentPinned(suite: Suite, checks: Checks, doc: Document, i: nat, mode: Mode, comments: bool)
    requires WellIdentified(doc) && IsValid(suite, checks, doc) && SiteOf(doc).Ok?
    requires Covers(suite, SiteOf(doc).value, i, true, mode, comments)
    requires var uri := UriOfReference(suite, SiteOf(doc).value.refs[i]); uri == "" || uri == "#xpointer(/)"
    requires var site := SiteOf(doc).value;
      Removable(Config(mode, comments && UriOfReference(suite, site.refs[i]) != "", None), doc, site.sig.node)
    ensures var site := SiteOf(doc).value;
      Pins(suite, site.refs[i], C14n(Config(mode, comments && UriOfReference(suite, site.refs[i]) != "", None), Unsigned(doc, site.sig.node)))
  {
    var site := SiteOf(doc).value;
    var uri := UriOfReference(suite, site.refs[i]);
    SignatureOccurs(doc);
    assert "#xpointer(/)"[1..] == "xpointer(/)";
    hide IsValid, IdMap, SiteOf, C14n, XPointerId, SubtreeIds, OnlyCarrier, Records, Covers, UriOfReference, AllSpots, Ids, ForestIds,
         FragmentId, Removable, Delete, Occurs, WellIdentified, SubtreesIds;
    var r := ReferencePins(suite, checks, doc, i, true, mode, comments);
    if uri == "" {
      EnvelopedOnReference(mode, comments, doc, site.sig.node);
    } else {
      assert UniqueIds(doc.children) by { UniqueOf(doc); }
      EnvelopedOnWholeDocument(mode, comments, doc, site.sig.node);
    }
  }

  lemma UniqueOf(doc: Document)
    requires WellIdentified(doc)
    ensures UniqueIds(doc.children)
  {
  }

  lemma SignatureOccurs(doc: Document)
    requires SiteOf(doc).Ok?
    ensures Occurs(SiteOf(doc).value.sig.node, doc.children) && SiteOf(doc).value.sig.node.Elem?
  {
    hide Spots.Spots, Occurs;
    OccursIsSpot(SiteOf(doc).value.sig.node, doc.children, []);
  }

  // ---------------------------------------------------------------- the octets under the signature

  /** For a Valid document the decoded text of its SignatureValue was accepted over the canonical text of
      its SignedInfo without comments, as its CanonicalizationMethod says, and with its SignatureMethod,
      which was admitted. */
  lemma SignedInfoPinned(suite: Suite, checks: Checks, doc: Document)
    returns (c: Node, m: Node, v: Node, mode: Mode, comments: bool, value: string)
    requires IsValid(suite, checks, doc)
    ensures SiteOf(doc).Ok? && SiteOf(doc).value.info.Elem?
    ensures var site := SiteOf(doc).value; var info := site.info;
      && FirstChild(info.children, DSIG_NS, "CanonicalizationMethod") == Some(c) && checks.modeOf(c) == Ok((mode, comments))
      && FirstChild(info.children, DSIG_NS, "SignatureMethod") == Some(m) && checks.admits(m) == Ok(true)
      && site.sig.node.Elem? && FirstChild(site.sig.node.children, DSIG_NS, "SignatureValue") == Some(v)
      && suite.decode(WithoutBlanks(Trim(Text(v.children)))) == Some(value)
      && checks.accepts(site.sig, m, C14n(Config(mode, comments, Some(FromIds(SubtreeIds(info, false)))), doc), value) == Ok(true)
  {
    var info, ids := ValidPassed(suite, checks, doc);
    var sig := Verified(suite, checks, doc).value.signature;
    assert SiteOf(doc).Ok? && SiteOf(doc).value.info == info && SiteOf(doc).value.sig == sig by {
      hide Verified, IdMap, VerifyReferences, AllPlaced, AllSpots, Cleared;
    }
    assert info.Elem? && sig.node.Elem? && Cleared(suite, checks, info, sig, info, doc);
    hide *;
    mode, comments, c, m := ClearedMethods(suite, checks, info, sig, doc);
    v, value := ClearedValue(suite, sig);
  }

  lemma ClearedMethods(suite: Suite, checks: Checks, info: Node, sig: Spot, doc: Document)
    returns (mode: Mode, comments: bool, c: Node, m: Node)
    requires info.Elem? && sig.node.Elem? && Cleared(suite, checks, info, sig, info, doc)
    ensures FirstChild(info.children, DSIG_NS, "CanonicalizationMethod") == Some(c) && checks.modeOf(c) == Ok((mode, comments))
    ensures FirstChild(info.children, DSIG_NS, "SignatureMethod") == Some(m) && checks.admits(m) == Ok(true)
    ensures StoredValue(suite, sig.node).Ok?
    ensures checks.accepts(sig, m, C14n(Config(mode, comments, Some(FromIds(SubtreeIds(info, false)))), doc),
                           StoredValue(suite, sig.node).value) == Ok(true)
  {
    hide C14n, SubtreeIds, StoredValue;
    var r := ReadMethods(suite, checks.modeOf, info).value;
    c := FirstChild(info.children, DSIG_NS, "CanonicalizationMethod").value;
    m := FirstChild(info.children, DSIG_NS, "SignatureMethod").value;
    mode, comments := r.mode, r.withComments;
  }

  lemma ClearedValue(suite: Suite, sig: Spot) returns (v: Node, value: string)
    requires sig.node.Elem? && StoredValue(suite, sig.node).Ok?
    ensures value == StoredValue(suite, sig.node).value
    ensures FirstChild(sig.node.children, DSIG_NS, "SignatureValue") == Some(v) && v.Elem?
    ensures suite.decode(WithoutBlanks(Trim(Text(v.children)))) == Some(value)
  {
    hide WithoutBlanks, Trim;
    v := FirstChild(sig.node.children, DSIG_NS, "SignatureValue").value;
    value := StoredValue(suite, sig.node).value;
    TextIsElementText(v.children);
  }

  // ---------------------------------------------------------------- tampering

  /** No two texts have the same digest. */
  ghost predicate CollisionFree(suite: Suite) {
    forall a, x, y :: suite.digest(a, x).Ok? && suite.digest(a, x) == suite.digest(a, y) ==> x == y
  }

  /** The two references say the same: URI, digest method and digest. */
  ghost predicate SaysTheSame(suite: Suite, ref: Node, ref2: Node)
    requires ref.Elem? && ref2.Elem?
  {
    && UriOfReference(suite, ref) == UriOfReference(suite, ref2)
    && forall a, d :: Records(suite, ref, a, d) <==> Records(suite, ref2, a, d)
  }

  lemma RecordsOne(suite: Suite, ref: Node, a: string, d: string, a2: string, d2: string)
    requires ref.Elem? && Records(suite, ref, a, d) && Records(suite, ref, a2, d2)
    ensures a == a2 && d == d2
  {
  }

  lemma OneText(suite: Suite, ref: Node, ref2: Node, x: string, y: string)
    requires CollisionFree(suite) && ref.Elem? && ref2.Elem? && SaysTheSame(suite, ref, ref2)
    requires Pins(suite, ref, x) && Pins(suite, ref2, y)
    ensures x == y
  {
    hide Records;
    var a, d :| Records(suite, ref, a, d) && suite.digest(a, x) == Ok(d);
    var a2, d2 :| Records(suite, ref2, a2, d2) && suite.digest(a2, y) == Ok(d2);
    assert Records(suite, ref2, a, d);
    RecordsOne(suite, ref2, a, d, a2, d2);
  }

  /** A referenced element cannot be changed: if two Valid documents hold references that say the same
      and are transformed alike, the elements they name have the same canonical text. */
  lemma ElementUnchanged(suite: Suite, checks: Checks, doc: Document, i: nat, checks2: Checks, doc2: Document, j: nat,
                         enveloped: bool, mode: Mode, comments: bool)
    returns (t: Spot, t2: Spot)
    requires CollisionFree(suite) && IsValid(suite, checks, doc) && IsValid(suite, checks2, doc2)
    requires SiteOf(doc).Ok? && Covers(suite, SiteOf(doc).value, i, enveloped, mode, comments)
    requires SiteOf(doc2).Ok? && Covers(suite, SiteOf(doc2).value, j, enveloped, mode, comments)
    requires SaysTheSame(suite, SiteOf(doc).value.refs[i], SiteOf(doc2).value.refs[j])
    requires var uri := UriOfReference(suite, SiteOf(doc).value.refs[i]); uri != "" && uri != "#xpointer(/)"
    ensures var site, site2 := SiteOf(doc).value, SiteOf(doc2).value;
      var uri := UriOfReference(suite, site.refs[i]); var pointer := XPointerId(uri[1..]).Some?;
      && t in AllSpots(doc) && OnlyCarrier(suite, doc, FragmentId(uri[1..]), t)
      && t2 in AllSpots(doc2) && OnlyCarrier(suite, doc2, FragmentId(uri[1..]), t2)
      && SubtreeText(mode, comments, doc, t, pointer, enveloped, site.sig.node)
           == SubtreeText(mode, comments, doc2, t2, pointer, enveloped, site2.sig.node)
  {
    assert SiteOf(doc).value.refs[i].Elem? && SiteOf(doc2).value.refs[j].Elem?;
    assert UriOfReference(suite, SiteOf(doc).value.refs[i]) == UriOfReference(suite, SiteOf(doc2).value.refs[j]);
    hide *;
    t := ElementPinned(suite, checks, doc, i, enveloped, mode, comments);
    t2 := ElementPinned(suite, checks2, doc2, j, enveloped, mode, comments);
    var site, site2 := SiteOf(doc).value, SiteOf(doc2).value;
    var pointer := XPointerId(UriOfReference(suite, site.refs[i])[1..]).Some?;
    OneText(suite, site.refs[i], site2.refs[j], SubtreeText(mode, comments, doc, t, pointer, enveloped, site.sig.node),
            SubtreeText(mode, comments, doc2, t2, pointer, enveloped, site2.sig.node));
  }

  /** Nor can a document with an enveloped signature: if two Valid documents hold references to the whole
      that say the same and are transformed alike, then without their signatures they have the same
      canonical text and, if they are well formed, say the same. */
  lemma DocumentUnchanged(suite: Suite, checks: Checks, doc: Document, i: nat, checks2: Checks, doc2: Document, j: nat,
                          mode: Mode, comments: bool)
    requires CollisionFree(suite) && IsValid(suite, checks, doc) && IsValid(suite, checks2, doc2)
    requires WellIdentified(doc) && SiteOf(doc).Ok? && Covers(suite, SiteOf(doc).value, i, true, mode, comments)
    requires WellIdentified(doc2) && SiteOf(doc2).Ok? && Covers(suite, SiteOf(doc2).value, j, true, mode, comments)
    requires SaysTheSame(suite, SiteOf(doc).value.refs[i], SiteOf(doc2).value.refs[j])
    requires var uri := UriOfReference(suite, SiteOf(doc).value.refs[i]); uri == "" || uri == "#xpointer(/)"
    requires var cfg := Config(mode, comments && UriOfReference(suite, SiteOf(doc).value.refs[i]) != "", None);
      Removable(cfg, doc, SiteOf(doc).value.sig.node) && Removable(cfg, doc2, SiteOf(doc2).value.sig.node)
    ensures var site, site2 := SiteOf(doc).value, SiteOf(doc2).value;
      var written := comments && UriOfReference(suite, site.refs[i]) != ""; var cfg := Config(mode, written, None);
      && C14n(cfg, Unsigned(doc, site.sig.node)) == C14n(cfg, Unsigned(doc2, site2.sig.node))
      && (WellFormedDoc(doc) && WellFormedDoc(doc2) ==>
            Content(written, Unsigned(doc, site.sig.node).children) == Content(written, Unsigned(doc2, site2.sig.node).children))
  {
    assert SiteOf(doc).value.refs[i].Elem? && SiteOf(doc2).value.refs[j].Elem?;
    assert UriOfReference(suite, SiteOf(doc).value.refs[i]) == UriOfReference(suite, SiteOf(doc2).value.refs[j]);
    hide *;
    DocumentPinned(suite, checks, doc, i, mode, comments);
    DocumentPinned(suite, checks2, doc2, j, mode, comments);
    var site, site2 := SiteOf(doc).value, SiteOf(doc2).value;
    var cfg := Config(mode, comments && UriOfReference(suite, site.refs[i]) != "", None);
    OneText(suite, site.refs[i], site2.refs[j], C14n(cfg, Unsigned(doc, site.sig.node)), C14n(cfg, Unsigned(doc2, site2.sig.node)));
    if WellFormedDoc(doc) && WellFormedDoc(doc2) {
      UnsignedWellFormed(doc, site.sig.node);
      UnsignedWellFormed(doc2, site2.sig.node);
      SameTextSameContent(cfg, Unsigned(doc, site.sig.node), cfg, Unsigned(doc2, site2.sig.node));
    }
  }

  lemma UnsignedWellFormed(doc: Document, sig: Node)
    requires WellFormedDoc(doc)
    ensures WellFormedDoc(Unsigned(doc, sig))
  {
    DeleteWellFormed(doc.children, [], sig.id);
  }

  lemma {:induction false} DeleteWellFormed(ns: seq<Node>, chain: seq<Frame>, id: nat)
    requires WellFormedForest(ns, chain)
    ensures WellFormedForest(Delete(ns, id), chain)
    ensures (forall i :: 0 <= i < |ns| ==> !ns[i].Text? && !ns[i].CData?) ==>
      forall i :: 0 <= i < |Delete(ns, id)| ==> !Delete(ns, id)[i].Text? && !Delete(ns, id)[i].CData?
    decreases ns
  {
    hide WellFormedElement, Lexer.Contains, Lexer.NameText;
    if ns != [] {
      var n, more := ns[0], Delete(ns[1..], id);
      DeleteWellFormed(ns[1..], chain, id);
      assert forall i :: 0 < i < |ns| ==> ns[i] == ns[1..][i - 1];
      if n.Elem? {
        DeleteWellFormed(n.children, [Frame(n.id, n.elem)] + chain, id);
      }
      if n.id == id {
        assert Delete(ns, id) == more;
      } else {
        assert Delete(ns, id) == [DeleteIn(n, id)] + more && ([DeleteIn(n, id)] + more)[1..] == more;
      }
    }
  }
}
