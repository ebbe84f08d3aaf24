/**
 The signing run: the digests of the references are filled in one after the other, each
 computed on the document that already holds the earlier ones.
 */
module SignRun {
  import opened Dom
  import opened NsPreservation
  import opened Spots
  import opened XPathText
  import opened Dsig
  import opened Edits

  // ---------------------------------------------------------------- filling in

  /** An element of the signature with this local name and nothing but blanks in it. */
  predicate Vacant(n: Node, local: string) {
    && n.Elem? && n.elem.name.local == local && (UriOf(n.elem.name) == "" || UriOf(n.elem.name) == DSIG_NS)
    && Trim(DeepText(n)) == ""
  }

  function FirstVacant(spots: seq<Spot>, local: string): (r: Option<Spot>)
    ensures r.Some? ==> r.value in spots && Vacant(r.value.node, local)
  {
    if spots == [] then None
    else if Vacant(spots[0].node, local) then Some(spots[0])
    else FirstVacant(spots[1..], local)
  }

  /** The name an element has once its own declarations are gone. */
  function NameThere(name: Name, above: seq<Frame>): Name {
    name.(uri := Get(Scope(above), if name.prefix.Some? then name.prefix.value else ""))
  }

  /** The replacement keeps the tag name and drops attributes and declarations. */
  function Filled(s: Spot, content: string, newId: nat): Node
    requires s.node.Elem?
  {
    Elem(s.node.id, Element(NameThere(s.node.elem.name, s.above), [], []), [Text(newId, content)])
  }

  /** Replaces the node with that id. */
  function Replace(ns: seq<Node>, id: nat, x: Node): seq<Node>
    decreases ns, 0
  {
    if ns == [] then [] else [ReplaceIn(ns[0], id, x)] + Replace(ns[1..], id, x)
  }

  function ReplaceIn(n: Node, id: nat, x: Node): Node
    decreases n, 1
  {
    if n.id == id then x else if n.Elem? then n.(children := Replace(n.children, id, x)) else n
  }

  /** A number above every id of the forest. */
  function Above(ns: seq<Node>): (k: nat)
    ensures forall id :: id in ForestIds(ns) ==> id < k
    decreases ns
  {
    if ns == [] then 0
    else
      var a := Above(ns[1..]);
      var b := if ns[0].Elem? then Above(ns[0].children) else 0;
      assert forall id :: id in Ids(ns[0]) ==> id == ns[0].id || (ns[0].Elem? && id in ForestIds(ns[0].children));
      a + b + ns[0].id + 1
  }

  function FreshId(doc: Document): nat {
    Above(doc.children) + doc.rootId + 1
  }

  /** The first vacant element of that name gets its content. */
  function FillFirst(doc: Document, local: string, content: string): Document {
    match FirstVacant(AllSpots(doc), local)
    case None => doc
    case Some(s) => doc.(children := Replace(doc.children, s.node.id, Filled(s, content, FreshId(doc))))
  }

  method ReplaceFirstEmpty(doc: Document, local: string, content: string) returns (result: Document)
    ensures result == FillFirst(doc, local, content)
  {
    var spots := AllSpots(doc);
    for i := 0 to |spots|
      invariant FirstVacant(spots, local) == FirstVacant(spots[i..], local)
    {
      if Vacant(spots[i].node, local) {
        return doc.(children := Replace(doc.children, spots[i].node.id, Filled(spots[i], content, FreshId(doc))));
      }
      assert spots[i..][1..] == spots[i + 1..];
    }
    return doc;
  }

  // ---------------------------------------------------------------- the run

  /** The signature of a document: its SignedInfo and references. */
  datatype Site = Site(sig: Spot, info: Node, refs: seq<Node>) {
    function Chain(): seq<Frame> {
      Below(info, sig.Path())
    }
  }

  function SiteOf(doc: Document): (r: Result<Site>)
    ensures r.Ok? ==> r.value.info.Elem? && forall n :: n in r.value.refs ==> n.Elem?
    ensures r.Ok? ==> forall i :: 0 <= i < |r.value.refs| ==> r.value.refs[i].Elem?
  {
    var sig := FirstSpot(AllSpots(doc), DSIG_NS, "Signature");
    if sig.None? then Err(MissingElement)
    else
      var info := FirstChild(sig.value.node.children, DSIG_NS, "SignedInfo");
      if info.None? then Err(MissingElement)
      else
        var refs := ChildrenNamed(info.value.children, DSIG_NS, "Reference");
        assert forall i :: 0 <= i < |refs| ==> refs[i] in refs;
        Ok(Site(sig.value, info.value, refs))
  }

  function DigestText(ref: Node): string
    requires ref.Elem?
  {
    match FirstChild(ref.children, DSIG_NS, "DigestValue")
    case None => ""
    case Some(v) => DeepText(v)
  }

  /** One pass of the reference loop: reads the current document anew, computes the digest of
      the reference and fills it in. */
  function SignStep(suite: Suite, doc: Document, i: nat): Result<Document> {
    var ids := IdMap(suite.idsOf, doc);
    var site := SiteOf(doc);
    if ids.Err? then Err(ids.error)
    else if site.Err? then Err(site.error)
    else if i >= |site.value.refs| then Err(XmlStructure)
    else
      var ref := site.value.refs[i];
      if IsCid(UriOfReference(suite, ref)) then Ok(doc)
      else
        var d := ComputeDigest(suite, ref, site.value.Chain(), ids.value, doc, site.value.sig.node);
        if d.Err? then Err(d.error)
        else if Trim(DigestText(ref)) == "" then Ok(FillFirst(doc, "DigestValue", suite.encode(d.value)))
        else Ok(doc)
  }

  function SignSteps(suite: Suite, doc: Document, i: nat, n: nat): Result<Document>
    requires i <= n
    decreases n - i
  {
    if i == n then Ok(doc)
    else
      var next := SignStep(suite, doc, i);
      if next.Err? then next else SignSteps(suite, next.value, i + 1, n)
  }

  method SignReferences(suite: Suite, template: Document) returns (result: Result<Document>)
    ensures result ==
      if IdMap(suite.idsOf, template).Err? then Err(IdMap(suite.idsOf, template).error)
      else if SiteOf(template).Err? then Err(SiteOf(template).error)
      else SignSteps(suite, template, 0, |SiteOf(template).value.refs|)
  {
    hide SignStep, IdMap;
    var ids := BuildIdMap(suite.idsOf, template);
    if ids.Err? {
      return Err(ids.error);
    }
    var site := SiteOf(template);
    if site.Err? {
      return Err(site.error);
    }
    var n := |site.value.refs|;
    var doc := template;
    for i := 0 to n
      invariant SignSteps(suite, template, 0, n) == SignSteps(suite, doc, i, n)
    {
      var next := PassReference(suite, doc, i);
      if next.Err? {
        return next;
      }
      doc := next.value;
    }
    return Ok(doc);
  }

  method PassReference(suite: Suite, doc: Document, i: nat) returns (result: Result<Document>)
    ensures result == SignStep(suite, doc, i)
  {
    hide IdMap, SiteOf, ComputeDigest, FillFirst, DigestText;
    var ids := BuildIdMap(suite.idsOf, doc);
    if ids.Err? {
      return Err(ids.error);
    }
    var site := SiteOf(doc);
    if site.Err? {
      return Err(site.error);
    }
    if i >= |site.value.refs| {
      return Err(XmlStructure);
    }
    var ref := site.value.refs[i];
    if IsCid(UriOfReference(suite, ref)) {
      return Ok(doc);
    }
    var d := ComputeDigest(suite, ref, site.value.Chain(), ids.value, doc, site.value.sig.node);
    if d.Err? {
      return Err(d.error);
    }
    if Trim(DigestText(ref)) != "" {
      return Ok(doc);
    }
    var filled := ReplaceFirstEmpty(doc, "DigestValue", suite.encode(d.value));
    return Ok(filled);
  }

  /** The signing run: the methods are read from the template, the octets that are signed from the
      document with all digests; last, `populate` fills in KeyInfo. */
  function Signing(suite: Suite, modeOf: ModeReader, signer: (Node, string) -> Result<string>,
                   populate: Document -> Result<Document>, template: Document): Result<Document>
  {
    var ids, site := IdMap(suite.idsOf, template), SiteOf(template);
    if ids.Err? then Err(ids.error)
    else if site.Err? then Err(site.error)
    else
      var m := ReadMethods(suite, modeOf, site.value.info);
      var filled := SignSteps(suite, template, 0, |site.value.refs|);
      if m.Err? then Err(m.error)
      else if filled.Err? then filled
      else
        var last := SiteOf(filled.value);
        if last.Err? then Err(last.error)
        else
          var value := signer(m.value.signature, InfoOctets(m.value, last.value.info, filled.value));
          if value.Err? then Err(value.error)
          else populate(FillFirst(filled.value, "SignatureValue", suite.encode(value.value)))
  }

  method Sign(suite: Suite, modeOf: ModeReader, signer: (Node, string) -> Result<string>,
              populate: Document -> Result<Document>, template: Document) returns (result: Result<Document>)
    ensures result == Signing(suite, modeOf, signer, populate, template)
  {
    hide SignSteps, IdMap, SiteOf, ReadMethods, InfoOctets, FillFirst;
    var ids := BuildIdMap(suite.idsOf, template);
    if ids.Err? {
      return Err(ids.error);
    }
    var site := SiteOf(template);
    if site.Err? {
      return Err(site.error);
    }
    var m := ReadMethods(suite, modeOf, site.value.info);
    if m.Err? {
      return Err(m.error);
    }
    var filled := SignReferences(suite, template);
    if filled.Err? {
      return filled;
    }
    var last := SiteOf(filled.value);
    if last.Err? {
      return Err(last.error);
    }
    var value := signer(m.value.signature, InfoOctets(m.value, last.value.info, filled.value));
    if value.Err? {
      return Err(value.error);
    }
    var valued := ReplaceFirstEmpty(filled.value, "SignatureValue", suite.encode(value.value));
    return populate(valued);
  }

  // ---------------------------------------------------------------- which element is filled

  /** The vacant elements in document order. */
  function VacantIds(ns: seq<Node>, local: string): seq<nat>
    decreases ns, 0
  {
    if ns == [] then [] else VacantIdsOf(ns[0], local) + VacantIds(ns[1..], local)
  }

  function VacantIdsOf(n: Node, local: string): seq<nat>
    decreases n, 1
  {
    (if Vacant(n, local) then [n.id] else []) + if n.Elem? then VacantIds(n.children, local) else []
  }

  lemma {:induction false} FirstVacantConcat(a: seq<Spot>, b: seq<Spot>, local: string)
    ensures FirstVacant(a + b, local) == if FirstVacant(a, local).Some? then FirstVacant(a, local) else FirstVacant(b, local)
  {
    if a == [] {
      assert a + b == b;
    } else {
      assert (a + b)[1..] == a[1..] + b;
      FirstVacantConcat(a[1..], b, local);
    }
  }

  lemma {:induction false} FirstVacantId(ns: seq<Node>, chain: seq<Frame>, local: string)
    ensures var v, r := VacantIds(ns, local), FirstVacant(Spots.Spots(ns, chain), local);
      if v == [] then r.None? else r.Some? && r.value.node.id == v[0]
    decreases ns, 0
  {
    hide Vacant, VacantIdsOf, NodeSpots;
    if ns != [] {
      FirstVacantIdOf(ns[0], chain, local);
      FirstVacantId(ns[1..], chain, local);
      FirstVacantConcat(NodeSpots(ns[0], chain), Spots.Spots(ns[1..], chain), local);
    }
  }

  lemma {:induction false} FirstVacantIdOf(n: Node, chain: seq<Frame>, local: string)
    ensures var v, r := VacantIdsOf(n, local), FirstVacant(NodeSpots(n, chain), local);
      if v == [] then r.None? else r.Some? && r.value.node.id == v[0]
    decreases n, 1
  {
    hide Vacant, VacantIds, Spots.Spots;
    var kids := if n.Elem? then Spots.Spots(n.children, Below(n, chain)) else [];
    if n.Elem? {
      FirstVacantId(n.children, Below(n, chain), local);
    }
    assert ([Spot(n, chain)] + kids)[1..] == kids;
  }

  lemma {:induction false} VacantWithin(ns: seq<Node>, local: string)
    ensures forall id :: id in VacantIds(ns, local) ==> id in ForestIds(ns)
    decreases ns
  {
    if ns != [] {
      if ns[0].Elem? {
        VacantWithin(ns[0].children, local);
      }
      assert forall id :: id in VacantIdsOf(ns[0], local) ==> id in Ids(ns[0]);
      VacantWithin(ns[1..], local);
    }
  }

  // ---------------------------------------------------------------- the effect of filling

  lemma {:induction false} ReplaceElsewhere(ns: seq<Node>, id: nat, x: Node)
    requires id !in ForestIds(ns)
    ensures Replace(ns, id, x) == ns
    decreases ns
  {
    if ns != [] {
      assert ns[0].id in Ids(ns[0]);
      if ns[0].Elem? {
        ReplaceElsewhere(ns[0].children, id, x);
      }
      ReplaceElsewhere(ns[1..], id, x);
    }
  }

  /** Replacing an element by one of the same name edits nothing else. */
  lemma {:induction false} ReplaceIsEdit(ns: seq<Node>, chain: seq<Frame>, s: Spot, x: Node)
    requires UniqueIds(ns) && s in Spots.Spots(ns, chain) && s.node.Elem?
    requires x.Elem? && x.id == s.node.id && x.elem.name == s.node.elem.name
    ensures Alike(ns, Replace(ns, x.id, x), {x.id})
    decreases ns
  {
    var n := ns[0];
    NodeSpotsMember(s, n, chain);
    InNode(n, chain, s);
    assert n.id in Ids(n);
    if s in NodeSpots(n, chain) {
      ReplaceElsewhere(ns[1..], x.id, x);
      AlikeSelf(ns[1..], {x.id});
      if s != Spot(n, chain) {
        SpotIdsIn(n.children, Below(n, chain), s);
        ReplaceIsEdit(n.children, Below(n, chain), s, x);
      }
    } else {
      SpotIdsIn(ns[1..], chain, s);
      ReplaceIsEdit(ns[1..], chain, s, x);
      if n.Elem? {
        ReplaceElsewhere(n.children, x.id, x);
        AlikeSelf(n.children, {x.id});
      }
    }
  }

  lemma {:induction false} TrimConcat(a: string, b: string)
    ensures Trim(a + b) == "" <==> Trim(a) == "" && Trim(b) == ""
  {
    AllBlank(a);
    AllBlank(b);
    AllBlank(a + b);
    assert forall i :: 0 <= i < |a| ==> (a + b)[i] == a[i];
    assert forall i :: 0 <= i < |b| ==> (a + b)[|a| + i] == b[i];
  }

  lemma {:induction false} AllBlank(s: string)
    ensures Trim(s) == "" <==> forall i :: 0 <= i < |s| ==> Blank(s[i])
  {
    if s != "" {
      if Blank(s[0]) {
        AllBlank(s[1..]);
        assert forall i :: 0 < i < |s| ==> s[i] == s[1..][i - 1];
        assert TrimStart(s) == TrimStart(s[1..]);
      } else {
        EndKept(s);
      }
    }
  }

  lemma {:induction false} EndKept(s: string)
    requires s != "" && !Blank(s[0])
    ensures TrimEnd(s) != ""
  {
    if |s| > 1 && Blank(s[|s| - 1]) {
      EndKept(s[..|s| - 1]);
    }
  }


  /** The node with that id holds no vacant element itself. */
  predicate Bare(ns: seq<Node>, id: nat, local: string)
    decreases ns, 0
  {
    ns == [] || (BareNode(ns[0], id, local) && Bare(ns[1..], id, local))
  }

  predicate BareNode(n: Node, id: nat, local: string)
    decreases n, 1
  {
    n.Elem? ==> if n.id == id then VacantIds(n.children, local) == [] else Bare(n.children, id, local)
  }

  /** Content that does not look vacant. */
  predicate Solidly(x: Node) {
    x.Elem? && |x.children| == 1 && x.children[0].Text? && Trim(x.children[0].text) != ""
  }

  lemma SolidlyFilled(x: Node, local: string)
    requires Solidly(x)
    ensures Trim(DeepText(x)) != "" && VacantIdsOf(x, local) == []
  {
    var t := x.children[0];
    assert x.children == [t] && x.children[1..] == [];
    assert DeepTexts(x.children) == t.text + "";
    assert t.text + "" == t.text;
    assert VacantIds(x.children, local) == [];
  }

  /** Filling the first vacant element leaves the others as they were. */
  lemma {:induction false} FillVacates(ns: seq<Node>, x: Node, local: string)
    requires UniqueIds(ns) && VacantIds(ns, local) != [] && VacantIds(ns, local)[0] == x.id
    requires Solidly(x) && Bare(ns, x.id, local)
    ensures VacantIds(Replace(ns, x.id, x), local) == VacantIds(ns, local)[1..]
    ensures Trim(DeepTexts(Replace(ns, x.id, x))) != ""
    decreases ns, 0
  {
    hide Vacant, Trim, VacantIdsOf, ReplaceIn, BareNode, UniqueNode, DeepText;
    var n, rest := ns[0], ns[1..];
    var m, more := ReplaceIn(n, x.id, x), Replace(rest, x.id, x);
    assert Replace(ns, x.id, x) == [m] + more && ([m] + more)[1..] == more;
    VacantWithin(rest, local);
    VacantWithinNode(n, local);
    TrimConcat(DeepText(m), DeepTexts(more));
    if VacantIdsOf(n, local) == [] {
      assert VacantIds(ns, local) == VacantIds(rest, local);
      FillVacates(rest, x, local);
      ReplaceElsewhereIn(n, x.id, x);
    } else {
      assert VacantIdsOf(n, local)[0] == x.id;
      FillVacatesNode(n, x, local);
      ReplaceElsewhere(rest, x.id, x);
      assert VacantIds(ns, local)[1..] == VacantIdsOf(n, local)[1..] + VacantIds(rest, local);
    }
  }

  lemma VacantWithinNode(n: Node, local: string)
    ensures forall id :: id in VacantIdsOf(n, local) ==> id in Ids(n)
  {
    if n.Elem? {
      VacantWithin(n.children, local);
    }
  }

  lemma ReplaceElsewhereIn(n: Node, id: nat, x: Node)
    requires id !in Ids(n)
    ensures ReplaceIn(n, id, x) == n
  {
    if n.Elem? {
      ReplaceElsewhere(n.children, id, x);
    }
  }

  lemma {:induction false} FillVacatesNode(n: Node, x: Node, local: string)
    requires UniqueNode(n) && VacantIdsOf(n, local) != [] && VacantIdsOf(n, local)[0] == x.id
    requires Solidly(x) && BareNode(n, x.id, local)
    ensures VacantIdsOf(ReplaceIn(n, x.id, x), local) == VacantIdsOf(n, local)[1..]
    ensures Trim(DeepText(ReplaceIn(n, x.id, x))) != "" && x.id in Ids(n)
    decreases n, 1
  {
    hide Trim;
    SolidlyFilled(x, local);
    VacantWithin(n.children, local);
    if n.id == x.id {
      assert Vacant(n, local);
    } else {
      assert !Vacant(n, local);
      hide Vacant;
      FillVacates(n.children, x, local);
      NotVacant(ReplaceIn(n, x.id, x), local);
    }
  }

  lemma NotVacant(n: Node, local: string)
    requires Trim(DeepText(n)) != ""
    ensures !Vacant(n, local)
  {
  }
}
