/**
 The verification run: every reference is checked in order, targets are checked for their
 position in strict mode, and then the signature over SignedInfo is checked.
 */
module VerifyRun {
  import opened Dom
  import opened NodeSets
  import opened Spots
  import opened XPathText
  import opened Dsig

  datatype VerifiedReference = VerifiedReference(uri: string, target: Option<Spot>, digestVerified: bool)

  datatype Verdict = Valid(signature: Spot, references: seq<VerifiedReference>) | Invalid

  function WithoutBlanks(s: string): string {
    if s == "" then "" else (if Blank(s[0]) then "" else [s[0]]) + WithoutBlanks(s[1..])
  }

  lemma {:induction false} WithoutBlanksConcat(a: string, b: string)
    ensures WithoutBlanks(a + b) == WithoutBlanks(a) + WithoutBlanks(b)
  {
    if a == "" {
      assert a + b == b;
    } else {
      assert (a + b)[1..] == a[1..] + b && (a + b)[0] == a[0];
      WithoutBlanksConcat(a[1..], b);
      var head := if Blank(a[0]) then "" else [a[0]];
      assert head + (WithoutBlanks(a[1..]) + WithoutBlanks(b)) == (head + WithoutBlanks(a[1..])) + WithoutBlanks(b);
    }
  }

  /** Blanks anywhere in the stored text do not count, and nothing else is lost. */
  lemma BlanksDoNotCount(a: string, c: char, b: string)
    ensures WithoutBlanks(a + [c] + b) == (if Blank(c) then WithoutBlanks(a + b) else WithoutBlanks(a) + [c] + WithoutBlanks(b))
  {
    WithoutBlanksConcat(a + [c], b);
    WithoutBlanksConcat(a, [c]);
    WithoutBlanksConcat(a, b);
    assert [c][1..] == "";
    assert WithoutBlanks([c]) == if Blank(c) then "" else [c];
  }

  /** The base64 value in the child of that name. */
  function StoredIn(suite: Suite, n: Node, local: string): Result<string>
    requires n.Elem?
  {
    match FirstChild(n.children, DSIG_NS, local)
    case None => Err(MissingElement)
    case Some(v) =>
      var text := ElementText(v.children);
      var d := suite.decode(WithoutBlanks(Trim(if text.Some? then text.value else "")));
      if d.None? then Err(XmlStructure) else Ok(d.value)
  }

  /** The digest stored in the DigestValue child of a reference. */
  function StoredDigest(suite: Suite, ref: Node): Result<string>
    requires ref.Elem?
  {
    StoredIn(suite, ref, "DigestValue")
  }

  /** The signature stored in the SignatureValue child. */
  function StoredValue(suite: Suite, sig: Node): Result<string>
    requires sig.Elem?
  {
    StoredIn(suite, sig, "SignatureValue")
  }

  /** One reference: whether its digest matches, and what is reported about it. */
  function VerifyReference(suite: Suite, ref: Node, chain: seq<Frame>, ids: map<string, Spot>, doc: Document, sig: Node)
    : Result<(bool, VerifiedReference)>
    requires ref.Elem?
  {
    var uri := UriOfReference(suite, ref);
    if IsCid(uri) then Ok((true, VerifiedReference(uri, None, false)))
    else
      var method_ := DigestMethod(suite, ref);
      var stored := StoredDigest(suite, ref);
      var resolved := Resolve(ids, suite.external, uri, doc);
      var computed := ComputeDigest(suite, ref, chain, ids, doc, sig);
      if method_.Err? then Err(method_.error)
      else if stored.Err? then Err(stored.error)
      else if resolved.Err? then Err(resolved.error)
      else if computed.Err? then Err(computed.error)
      else Ok((computed.value == stored.value, VerifiedReference(uri, resolved.value.target, true)))
  }

  /** The references in order, up to the first mismatch, which gives no list. */
  function VerifyReferences(suite: Suite, refs: seq<Node>, chain: seq<Frame>, ids: map<string, Spot>, doc: Document, sig: Node)
    : Result<Option<seq<VerifiedReference>>>
    requires forall r :: r in refs ==> r.Elem?
  {
    if refs == [] then Ok(Some([]))
    else
      assert refs[0] in refs;
      var v := VerifyReference(suite, refs[0], chain, ids, doc, sig);
      if v.Err? then Err(v.error)
      else if !v.value.0 then Ok(None)
      else
        var rest := VerifyReferences(suite, refs[1..], chain, ids, doc, sig);
        if rest.Ok? && rest.value.Some? then Ok(Some([v.value.1] + rest.value.value)) else rest
  }

  // ---------------------------------------------------------------- strict mode

  function DocumentElement(ns: seq<Node>): Option<Node> {
    if ns == [] then None else if ns[0].Elem? then Some(ns[0]) else DocumentElement(ns[1..])
  }

  /** The target is the document element, contains the signature or stands beside it. */
  predicate WellPlaced(doc: Document, sig: Spot, target: Spot) {
    || (DocumentElement(doc.children).Some? && DocumentElement(doc.children).value.id == target.node.id)
    || target.node.id in UpIds(sig, doc.rootId)
    || ParentId(target, doc.rootId) == ParentId(sig, doc.rootId)
  }

  method ValidatePosition(doc: Document, sig: Spot, target: Spot) returns (ok: bool)
    ensures ok <==> WellPlaced(doc, sig, target)
  {
    var element := DocumentElement(doc.children);
    if element.Some? && target.node.id == element.value.id {
      return true;
    }
    var above := IsAncestorOrSelf(target.node.id, sig, doc.rootId);
    if above {
      return true;
    }
    return ParentId(target, doc.rootId) == ParentId(sig, doc.rootId);
  }

  predicate AllPlaced(doc: Document, sig: Spot, refs: seq<VerifiedReference>) {
    forall i :: 0 <= i < |refs| && refs[i].target.Some? ==> WellPlaced(doc, sig, refs[i].target.value)
  }

  // ---------------------------------------------------------------- the run

  /** `admits` looks at the SignatureMethod before anything is verified, for the HMAC output length;
      `accepts` resolves the key from the signature and checks the stored value, given after the
      SignatureMethod and the canonical SignedInfo. */
  datatype Checks = Checks(
    strict: bool,
    modeOf: ModeReader,
    admits: Node -> Result<bool>,
    accepts: (Spot, Node, string, string) -> Result<bool>)

  method CheckReferences(suite: Suite, refs: seq<Node>, chain: seq<Frame>, ids: map<string, Spot>, doc: Document, sig: Node)
    returns (result: Result<Option<seq<VerifiedReference>>>)
    requires forall r :: r in refs ==> r.Elem?
    ensures result == VerifyReferences(suite, refs, chain, ids, doc, sig)
  {
    hide VerifyReference;
    var verified: seq<VerifiedReference> := [];
    ContinuedNothing(VerifyReferences(suite, refs, chain, ids, doc, sig), []);
    assert refs[0..] == refs;
    for i := 0 to |refs|
      invariant VerifyReferences(suite, refs, chain, ids, doc, sig) ==
        Continued(verified, VerifyReferences(suite, refs[i..], chain, ids, doc, sig))
    {
      assert refs[i..][1..] == refs[i + 1..] && refs[i] in refs;
      var v := VerifyReference(suite, refs[i], chain, ids, doc, sig);
      if v.Err? {
        return Err(v.error);
      }
      if !v.value.0 {
        return Ok(None);
      }
      ContinuedStep(verified, v.value.1, VerifyReferences(suite, refs[i + 1..], chain, ids, doc, sig));
      verified := verified + [v.value.1];
    }
    ContinuedNothing(Ok(Some([])), verified);
    return Ok(Some(verified));
  }

  method CheckPositions(doc: Document, sig: Spot, refs: seq<VerifiedReference>) returns (ok: bool)
    ensures ok <==> AllPlaced(doc, sig, refs)
  {
    hide WellPlaced;
    for i := 0 to |refs|
      invariant forall j :: 0 <= j < i && refs[j].target.Some? ==> WellPlaced(doc, sig, refs[j].target.value)
    {
      if refs[i].target.Some? {
        ok := ValidatePosition(doc, sig, refs[i].target.value);
        if !ok {
          return false;
        }
      }
    }
    return true;
  }

  method Verify(suite: Suite, checks: Checks, doc: Document) returns (result: Result<Verdict>)
    ensures result == Verified(suite, checks, doc)
  {
    hide VerifyReferences, AllPlaced, ReadMethods, InfoOctets, IdMap, StoredValue;
    var idMap := BuildIdMap(suite.idsOf, doc);
    if idMap.Err? {
      return Err(idMap.error);
    }
    var sig := FindElement(doc, DSIG_NS, "Signature");
    if sig.None? {
      return Err(MissingElement);
    }
    var info := FirstChild(sig.value.node.children, DSIG_NS, "SignedInfo");
    if info.None? {
      return Err(MissingElement);
    }
    var methods := ReadMethods(suite, checks.modeOf, info.value);
    if methods.Err? {
      return Err(methods.error);
    }
    var admitted := checks.admits(methods.value.signature);
    if admitted.Err? {
      return Err(admitted.error);
    }
    if !admitted.value {
      return Ok(Invalid);
    }
    var refs := ChildrenNamed(info.value.children, DSIG_NS, "Reference");
    var v := CheckReferences(suite, refs, Below(info.value, sig.value.Path()), idMap.value, doc, sig.value.node);
    if v.Err? {
      return Err(v.error);
    }
    if v.value.None? {
      return Ok(Invalid);
    }
    if checks.strict {
      var placed := CheckPositions(doc, sig.value, v.value.value);
      if !placed {
        return Err(XmlStructure);
      }
    }
    var octets := InfoOctets(methods.value, info.value, doc);
    var value := StoredValue(suite, sig.value.node);
    if value.Err? {
      return Err(value.error);
    }
    var accepted := checks.accepts(sig.value, methods.value.signature, octets, value.value);
    if accepted.Err? {
      return Err(accepted.error);
    }
    return Ok(if accepted.value then Valid(sig.value, v.value.value) else Invalid);
  }

  function Continued(done: seq<VerifiedReference>, rest: Result<Option<seq<VerifiedReference>>>)
    : Result<Option<seq<VerifiedReference>>>
  {
    if rest.Ok? && rest.value.Some? then Ok(Some(done + rest.value.value)) else rest
  }

  lemma ContinuedNothing(rest: Result<Option<seq<VerifiedReference>>>, done: seq<VerifiedReference>)
    ensures Continued([], rest) == rest
    ensures Continued(done, Ok(Some([]))) == Ok(Some(done))
  {
    assert rest.Ok? && rest.value.Some? ==> [] + rest.value.value == rest.value.value;
    assert done + [] == done;
  }

  lemma ContinuedStep(done: seq<VerifiedReference>, v: VerifiedReference, rest: Result<Option<seq<VerifiedReference>>>)
    ensures Continued(done, Continued([v], rest)) == Continued(done + [v], rest)
  {
    assert rest.Ok? && rest.value.Some? ==> done + ([v] + rest.value.value) == done + [v] + rest.value.value;
  }

  function Verified(suite: Suite, checks: Checks, doc: Document): Result<Verdict> {
    var ids := IdMap(suite.idsOf, doc);
    var sig := FirstSpot(AllSpots(doc), DSIG_NS, "Signature");
    if ids.Err? then Err(ids.error)
    else if sig.None? then Err(MissingElement)
    else
      var info := FirstChild(sig.value.node.children, DSIG_NS, "SignedInfo");
      if info.None? then Err(MissingElement)
      else
        var methods := ReadMethods(suite, checks.modeOf, info.value);
        if methods.Err? then Err(methods.error)
        else
          var admitted := checks.admits(methods.value.signature);
          if admitted.Err? then Err(admitted.error)
          else if !admitted.value then Ok(Invalid)
          else
            var refs := ChildrenNamed(info.value.children, DSIG_NS, "Reference");
            var v := VerifyReferences(suite, refs, Below(info.value, sig.value.Path()), ids.value, doc, sig.value.node);
            if v.Err? then Err(v.error)
            else if v.value.None? then Ok(Invalid)
            else if checks.strict && !AllPlaced(doc, sig.value, v.value.value) then Err(XmlStructure)
            else
              var octets := InfoOctets(methods.value, info.value, doc);
              var value := StoredValue(suite, sig.value.node);
              if value.Err? then Err(value.error)
              else
                var accepted := checks.accepts(sig.value, methods.value.signature, octets, value.value);
                if accepted.Err? then Err(accepted.error)
                else Ok(if accepted.value then Valid(sig.value, v.value.value) else Invalid)
  }

  // ---------------------------------------------------------------- what a valid result means

  /** A reference whose report can be relied on. */
  ghost predicate Sound(suite: Suite, ref: Node, chain: seq<Frame>, ids: map<string, Spot>, doc: Document, sig: Node, v: VerifiedReference)
    requires ref.Elem?
  {
    && v.uri == UriOfReference(suite, ref)
    && (v.digestVerified <==> !IsCid(v.uri))
    && (v.digestVerified ==>
          StoredDigest(suite, ref).Ok? && ComputeDigest(suite, ref, chain, ids, doc, sig) == StoredDigest(suite, ref))
    && (v.target.Some? <==> |v.uri| > 0 && v.uri[0] == '#' && v.uri != "#xpointer(/)")
    && (v.target.Some? ==> OnlyCarrier(suite, doc, FragmentId(v.uri[1..]), v.target.value))
  }

  /** The ID a fragment names. */
  function FragmentId(fragment: string): string {
    var p := XPointerId(fragment);
    if p.Some? then p.value else fragment
  }

  /** The element at `t`, and no other element of the document, carries the ID. */
  ghost predicate OnlyCarrier(suite: Suite, doc: Document, id: string, t: Spot) {
    forall s :: s in AllSpots(doc) && Carries(suite.idsOf, s, id) <==> s == t
  }

  lemma ReferenceIsSound(suite: Suite, ref: Node, chain: seq<Frame>, doc: Document, sig: Node)
    requires ref.Elem? && IdMap(suite.idsOf, doc).Ok?
    ensures var ids := IdMap(suite.idsOf, doc).value;
      var r := VerifyReference(suite, ref, chain, ids, doc, sig);
      r.Ok? && r.value.0 ==> Sound(suite, ref, chain, ids, doc, sig, r.value.1)
  {
    var ids := IdMap(suite.idsOf, doc).value;
    var uri := UriOfReference(suite, ref);
    hide IdMap, ComputeDigest, StoredDigest, DigestMethod, Carries, XPointerId;
    TargetIsOnly(suite, doc, ids, uri);
    CidIsNoFragment(uri);
    hide Resolve, OnlyCarrier, IsCid, UriOfReference;
  }

  lemma CidIsNoFragment(uri: string)
    ensures IsCid(uri) ==> |uri| > 0 && uri[0] == 'c'
  {
  }

  lemma TargetIsOnly(suite: Suite, doc: Document, ids: map<string, Spot>, uri: string)
    requires IdMap(suite.idsOf, doc) == Ok(ids)
    ensures var r := Resolve(ids, suite.external, uri, doc);
      r.Ok? ==>
        && (r.value.target.Some? <==> |uri| > 0 && uri[0] == '#' && uri != "#xpointer(/)")
        && (r.value.target.Some? ==> OnlyCarrier(suite, doc, FragmentId(uri[1..]), r.value.target.value))
  {
    IdMapIsExact(suite.idsOf, doc);
    hide IdMap, Carries, XPointerId, MapsTo, SubtreeIds;
    if |uri| > 0 && uri[0] == '#' {
      assert uri == "#" + uri[1..];
      assert uri[1..] == "xpointer(/)" <==> uri == "#xpointer(/)" by {
        assert "#xpointer(/)"[1..] == "xpointer(/)";
        if uri[1..] == "xpointer(/)" {
          assert uri == "#" + "xpointer(/)";
        }
      }
      var id := FragmentId(uri[1..]);
      if id in ids {
        forall s ensures s in AllSpots(doc) && Carries(suite.idsOf, s, id) <==> s == ids[id] {
          assert MapsTo(ids, id, s) <==> s == ids[id] by { MapsToOne(ids, id, s); }
        }
      }
    }
  }

  lemma MapsToOne(ids: map<string, Spot>, id: string, s: Spot)
    requires id in ids
    ensures MapsTo(ids, id, s) <==> s == ids[id]
  {
  }

  /** One sound report per reference, in order. */
  ghost predicate AllSound(suite: Suite, refs: seq<Node>, chain: seq<Frame>, ids: map<string, Spot>, doc: Document, sig: Node,
                           vs: seq<VerifiedReference>)
  {
    && |vs| == |refs|
    && forall i :: 0 <= i < |refs| ==> refs[i].Elem? && Sound(suite, refs[i], chain, ids, doc, sig, vs[i])
  }

  lemma AllSoundCons(suite: Suite, refs: seq<Node>, chain: seq<Frame>, ids: map<string, Spot>, doc: Document, sig: Node,
                     v: VerifiedReference, vs: seq<VerifiedReference>)
    requires refs != [] && refs[0].Elem? && Sound(suite, refs[0], chain, ids, doc, sig, v)
    requires AllSound(suite, refs[1..], chain, ids, doc, sig, vs)
    ensures AllSound(suite, refs, chain, ids, doc, sig, [v] + vs)
  {
    hide Sound;
    var rest := refs[1..];
    forall i | 0 <= i < |refs| ensures refs[i].Elem? && Sound(suite, refs[i], chain, ids, doc, sig, ([v] + vs)[i]) {
      if i > 0 {
        assert rest[i - 1] == refs[i] && ([v] + vs)[i] == vs[i - 1];
      }
    }
  }

  lemma {:induction false} ReferencesAreSound(suite: Suite, refs: seq<Node>, chain: seq<Frame>, doc: Document, sig: Node)
    requires (forall r :: r in refs ==> r.Elem?) && IdMap(suite.idsOf, doc).Ok?
    ensures var ids := IdMap(suite.idsOf, doc).value;
      var r := VerifyReferences(suite, refs, chain, ids, doc, sig);
      r.Ok? && r.value.Some? ==> AllSound(suite, refs, chain, ids, doc, sig, r.value.value)
  {
    hide Sound, VerifyReference, IdMap;
    var ids := IdMap(suite.idsOf, doc).value;
    if refs != [] {
      assert refs[0] in refs;
      ReferenceIsSound(suite, refs[0], chain, doc, sig);
      ReferencesAreSound(suite, refs[1..], chain, doc, sig);
      var r := VerifyReferences(suite, refs, chain, ids, doc, sig);
      if r.Ok? && r.value.Some? {
        var v := VerifyReference(suite, refs[0], chain, ids, doc, sig).value.1;
        var rest := VerifyReferences(suite, refs[1..], chain, ids, doc, sig).value.value;
        hide AllSound;
        AllSoundCons(suite, refs, chain, ids, doc, sig, v, rest);
      }
    }
  }

  /** The signature method is admitted and the stored value accepted over the canonical SignedInfo, with
      the methods read from the SignedInfo `from`. */
  predicate Cleared(suite: Suite, checks: Checks, from: Node, sig: Spot, info: Node, doc: Document)
    requires from.Elem? && sig.node.Elem?
  {
    var m, value := ReadMethods(suite, checks.modeOf, from), StoredValue(suite, sig.node);
    && m.Ok? && checks.admits(m.value.signature) == Ok(true) && value.Ok?
    && checks.accepts(sig, m.value.signature, InfoOctets(m.value, info, doc), value.value) == Ok(true)
  }

  /** How a Valid result came about. */
  ghost predicate Passed(suite: Suite, checks: Checks, doc: Document, sig: Spot, info: Node, ids: map<string, Spot>, vs: seq<VerifiedReference>) {
    && sig in AllSpots(doc) && FirstSpot(AllSpots(doc), DSIG_NS, "Signature") == Some(sig)
    && FirstChild(sig.node.children, DSIG_NS, "SignedInfo") == Some(info)
    && IdMap(suite.idsOf, doc) == Ok(ids)
    && info.Elem? && sig.node.Elem? && Cleared(suite, checks, info, sig, info, doc)
    && VerifyReferences(suite, ChildrenNamed(info.children, DSIG_NS, "Reference"), Below(info, sig.Path()), ids, doc, sig.node) == Ok(Some(vs))
    && (checks.strict ==> AllPlaced(doc, sig, vs))
  }

  /** The reports of a document whose references all match. */
  function Reports(suite: Suite, doc: Document): Option<seq<VerifiedReference>> {
    var ids := IdMap(suite.idsOf, doc);
    var sig := FirstSpot(AllSpots(doc), DSIG_NS, "Signature");
    if ids.Err? || sig.None? then None
    else
      var info := FirstChild(sig.value.node.children, DSIG_NS, "SignedInfo");
      if info.None? then None
      else
        var v := VerifyReferences(suite, ChildrenNamed(info.value.children, DSIG_NS, "Reference"),
                                  Below(info.value, sig.value.Path()), ids.value, doc, sig.value.node);
        if v.Err? then None else v.value
  }

  lemma ValidPassed(suite: Suite, checks: Checks, doc: Document) returns (info: Node, ids: map<string, Spot>)
    requires Verified(suite, checks, doc).Ok? && Verified(suite, checks, doc).value.Valid?
    ensures var v := Verified(suite, checks, doc).value;
      Passed(suite, checks, doc, v.signature, info, ids, v.references)
  {
    hide IdMap, ReadMethods, InfoOctets, VerifyReferences, AllPlaced, AllSpots, StoredValue;
    ids := IdMap(suite.idsOf, doc).value;
    info := FirstChild(FirstSpot(AllSpots(doc), DSIG_NS, "Signature").value.node.children, DSIG_NS, "SignedInfo").value;
  }

  /** The guarantee of a Valid result: the signature was accepted over the canonical SignedInfo;
      there is one report per Reference, in order; `digestVerified` is false exactly for `cid:`
      URIs and all other digests match; each `#id` target is the only element with that ID; and in
      strict mode each target is the document element, contains the signature, or stands beside it. */
  ghost predicate Guaranteed(suite: Suite, checks: Checks, doc: Document, sig: Spot, info: Node, ids: map<string, Spot>, vs: seq<VerifiedReference>) {
    && FirstSpot(AllSpots(doc), DSIG_NS, "Signature") == Some(sig)
    && FirstChild(sig.node.children, DSIG_NS, "SignedInfo") == Some(info)
    && IdMap(suite.idsOf, doc) == Ok(ids)
    && info.Elem? && sig.node.Elem? && Cleared(suite, checks, info, sig, info, doc)
    && AllSound(suite, ChildrenNamed(info.children, DSIG_NS, "Reference"), Below(info, sig.Path()), ids, doc, sig.node, vs)
    && (checks.strict ==> AllInPlace(doc, sig, vs))
  }

  lemma ValidIsSafe(suite: Suite, checks: Checks, doc: Document) returns (info: Node, ids: map<string, Spot>)
    requires WellIdentified(doc) && Verified(suite, checks, doc).Ok? && Verified(suite, checks, doc).value.Valid?
    ensures var v := Verified(suite, checks, doc).value;
      Guaranteed(suite, checks, doc, v.signature, info, ids, v.references)
  {
    info, ids := ValidPassed(suite, checks, doc);
    hide Verified, IdMap, Cleared, VerifyReferences, WellPlaced, InPlace, Sound, AllSound, AllPlaced, AllInPlace, AllSpots;
    var v := Verified(suite, checks, doc).value;
    var refs := ChildrenNamed(info.children, DSIG_NS, "Reference");
    ReferencesAreSound(suite, refs, Below(info, v.signature.Path()), doc, v.signature.node);
    if checks.strict {
      TargetsInPlace(suite, refs, Below(info, v.signature.Path()), doc, v.signature, v.references);
    }
  }

  lemma TargetsInPlace(suite: Suite, refs: seq<Node>, chain: seq<Frame>, doc: Document, sig: Spot, vs: seq<VerifiedReference>)
    requires WellIdentified(doc) && sig in AllSpots(doc) && IdMap(suite.idsOf, doc).Ok?
    requires AllSound(suite, refs, chain, IdMap(suite.idsOf, doc).value, doc, sig.node, vs)
    ensures AllPlaced(doc, sig, vs) <==> AllInPlace(doc, sig, vs)
  {
    hide IdMap, WellPlaced, InPlace, Sound, AllSpots;
    forall i | 0 <= i < |vs| && vs[i].target.Some?
      ensures WellPlaced(doc, sig, vs[i].target.value) <==> InPlace(doc, sig, vs[i].target.value)
    {
      assert refs[i].Elem? && Sound(suite, refs[i], chain, IdMap(suite.idsOf, doc).value, doc, sig.node, vs[i]);
      SoundTarget(suite, refs[i], chain, doc, sig.node, vs[i]);
      PlacedIsInPlace(doc, sig, vs[i].target.value);
    }
  }

  lemma SoundTarget(suite: Suite, ref: Node, chain: seq<Frame>, doc: Document, sig: Node, v: VerifiedReference)
    requires ref.Elem? && IdMap(suite.idsOf, doc).Ok? && v.target.Some?
    requires Sound(suite, ref, chain, IdMap(suite.idsOf, doc).value, doc, sig, v)
    ensures v.target.value in AllSpots(doc)
  {
    hide IdMap, ComputeDigest, StoredDigest, XPointerId;
    assert OnlyCarrier(suite, doc, FragmentId(v.uri[1..]), v.target.value);
  }

  /** The allowed positions of a target, in terms of the tree. */
  predicate InPlace(doc: Document, sig: Spot, target: Spot) {
    || (exists k :: 0 <= k < |doc.children| && doc.children[k] == target.node && target.above == [] && target.node.Elem?
                    && forall j :: 0 <= j < k ==> !doc.children[j].Elem?)
    || sig.node.id in Ids(target.node)
    || target.above == sig.above
  }

  predicate AllInPlace(doc: Document, sig: Spot, refs: seq<VerifiedReference>) {
    forall i :: 0 <= i < |refs| && refs[i].target.Some? ==> InPlace(doc, sig, refs[i].target.value)
  }

  /** The position check accepts exactly these. */
  lemma PlacedIsInPlace(doc: Document, sig: Spot, target: Spot)
    requires WellIdentified(doc) && sig in AllSpots(doc) && target in AllSpots(doc)
    ensures WellPlaced(doc, sig, target) <==> InPlace(doc, sig, target)
  {
    AncestorIsSubtree(doc, sig, target);
    if DocumentElement(doc.children).Some? && DocumentElement(doc.children).value.id == target.node.id {
      var k := DocumentElementIndex(doc.children);
      TopSpot(doc.children, [], doc.children[k]);
      SpotsUnique(doc.children, [], Spot(doc.children[k], []), target);
    } else if ParentId(target, doc.rootId) == ParentId(sig, doc.rootId) {
      SameParent(doc, sig, target);
    } else if k :| 0 <= k < |doc.children| && doc.children[k] == target.node && target.node.Elem? && forall j :: 0 <= j < k ==> !doc.children[j].Elem? {
      FirstElement(doc.children, k);
    }
  }

  lemma {:induction false} FirstElement(ns: seq<Node>, k: nat)
    requires k < |ns| && ns[k].Elem? && forall j :: 0 <= j < k ==> !ns[j].Elem?
    ensures DocumentElement(ns) == Some(ns[k])
  {
    if k > 0 {
      FirstElement(ns[1..], k - 1);
    }
  }

  lemma {:induction false} DocumentElementIndex(ns: seq<Node>) returns (k: nat)
    requires DocumentElement(ns).Some?
    ensures k < |ns| && DocumentElement(ns) == Some(ns[k]) && ns[k].Elem? && forall j :: 0 <= j < k ==> !ns[j].Elem?
  {
    if ns[0].Elem? {
      k := 0;
    } else {
      var i := DocumentElementIndex(ns[1..]);
      k := i + 1;
    }
  }

  /** Equal parent ids mean the same parent. */
  lemma SameParent(doc: Document, s: Spot, t: Spot)
    requires WellIdentified(doc) && s in AllSpots(doc) && t in AllSpots(doc)
    requires ParentId(s, doc.rootId) == ParentId(t, doc.rootId)
    ensures s.above == t.above
  {
    var p := ParentSpot(doc.children, [], s);
    var q := ParentSpot(doc.children, [], t);
    hide Spots.Spots;
    if s.above != [] && t.above != [] {
      SpotsUnique(doc.children, [], p, q);
    } else if s.above != [] {
      SpotIdsIn(doc.children, [], p);
    } else if t.above != [] {
      SpotIdsIn(doc.children, [], q);
    }
  }
}
