/**
 What signing and verifying share: finding elements, the ID map, upward walks, resolving a
 reference URI and running its transforms.
 */
module Dsig {
  import opened Dom
  import opened NodeSets
  import opened Canonical
  import opened Spots
  import opened XPathParser
  import opened XPathEval
  import opened Filter2

  // ---------------------------------------------------------------- finding elements

  predicate Is(n: Node, uri: string, local: string) {
    n.Elem? && n.elem.name.local == local && UriOf(n.elem.name) == uri
  }

  /** The first node of the list with that name. */
  function FirstChild(ns: seq<Node>, uri: string, local: string): (r: Option<Node>)
    ensures r.Some? ==> r.value in ns && Is(r.value, uri, local)
  {
    if ns == [] then None
    else if Is(ns[0], uri, local) then Some(ns[0])
    else FirstChild(ns[1..], uri, local)
  }

  function ChildrenNamed(ns: seq<Node>, uri: string, local: string): (r: seq<Node>)
    ensures forall n :: n in r <==> n in ns && Is(n, uri, local)
  {
    if ns == [] then []
    else (if Is(ns[0], uri, local) then [ns[0]] else []) + ChildrenNamed(ns[1..], uri, local)
  }

  /** The first element of the document with that name. */
  function FirstSpot(spots: seq<Spot>, uri: string, local: string): (r: Option<Spot>)
    ensures r.Some? ==> r.value in spots && Is(r.value.node, uri, local)
  {
    if spots == [] then None
    else if Is(spots[0].node, uri, local) then Some(spots[0])
    else FirstSpot(spots[1..], uri, local)
  }

  method FindElement(doc: Document, uri: string, local: string) returns (r: Option<Spot>)
    ensures r == FirstSpot(AllSpots(doc), uri, local)
  {
    var spots := AllSpots(doc);
    for i := 0 to |spots|
      invariant FirstSpot(spots, uri, local) == FirstSpot(spots[i..], uri, local)
    {
      if Is(spots[i].node, uri, local) {
        return Some(spots[i]);
      }
      assert spots[i..][1..] == spots[i + 1..];
    }
    return None;
  }

  /** The first node of that name in a tree: a node before what is in it, children in their order. */
  function FirstIn(ns: seq<Node>, uri: string, local: string): Option<Node>
    decreases ns, 0
  {
    if ns == [] then None
    else if FirstInNode(ns[0], uri, local).Some? then FirstInNode(ns[0], uri, local)
    else FirstIn(ns[1..], uri, local)
  }

  function FirstInNode(n: Node, uri: string, local: string): Option<Node>
    decreases n, 1
  {
    if Is(n, uri, local) then Some(n) else if n.Elem? then FirstIn(n.children, uri, local) else None
  }

  function NodeAt(s: Option<Spot>): Option<Node> {
    if s.Some? then Some(s.value.node) else None
  }

  lemma {:induction false} FirstSpotConcat(a: seq<Spot>, b: seq<Spot>, uri: string, local: string)
    ensures FirstSpot(a + b, uri, local) == if FirstSpot(a, uri, local).Some? then FirstSpot(a, uri, local) else FirstSpot(b, uri, local)
  {
    if a == [] {
      assert a + b == b;
    } else {
      assert (a + b)[1..] == a[1..] + b;
      FirstSpotConcat(a[1..], b, uri, local);
    }
  }

  /** The list of all places is searched in that order. */
  lemma {:induction false} FirstIsFirst(ns: seq<Node>, chain: seq<Frame>, uri: string, local: string)
    ensures NodeAt(FirstSpot(Spots.Spots(ns, chain), uri, local)) == FirstIn(ns, uri, local)
    decreases ns, 0
  {
    hide NodeSpots, FirstInNode;
    if ns != [] {
      FirstSpotConcat(NodeSpots(ns[0], chain), Spots.Spots(ns[1..], chain), uri, local);
      FirstIsFirstNode(ns[0], chain, uri, local);
      FirstIsFirst(ns[1..], chain, uri, local);
    }
  }

  lemma {:induction false} FirstIsFirstNode(n: Node, chain: seq<Frame>, uri: string, local: string)
    ensures NodeAt(FirstSpot(NodeSpots(n, chain), uri, local)) == FirstInNode(n, uri, local)
    decreases n, 1
  {
    hide Spots.Spots, FirstIn;
    var kids := if n.Elem? then Spots.Spots(n.children, Below(n, chain)) else [];
    assert NodeSpots(n, chain) == [Spot(n, chain)] + kids && ([Spot(n, chain)] + kids)[1..] == kids;
    if n.Elem? {
      FirstIsFirst(n.children, Below(n, chain), uri, local);
    }
  }

  /** Positions in ascending order. */
  predicate Ascending(ks: seq<nat>) {
    forall i, j :: 0 <= i < j < |ks| ==> ks[i] < ks[j]
  }

  /** `r` holds the nodes of `ns` with that name, at these positions. */
  ghost predicate Located(ns: seq<Node>, uri: string, local: string, r: seq<Node>, ks: seq<nat>) {
    && |ks| == |r| && Ascending(ks)
    && (forall i :: 0 <= i < |ks| ==> ks[i] < |ns| && r[i] == ns[ks[i]])
    && forall k :: 0 <= k < |ns| && Is(ns[k], uri, local) ==> k in ks
  }

  function Moved(ks: seq<nat>): seq<nat> {
    seq(|ks|, i requires 0 <= i < |ks| => ks[i] + 1)
  }

  lemma LocatedAfter(n: Node, ns: seq<Node>, uri: string, local: string, r: seq<Node>, ks: seq<nat>)
    requires Located(ns, uri, local, r, ks)
    ensures !Is(n, uri, local) ==> Located([n] + ns, uri, local, r, Moved(ks))
    ensures forall k :: 0 < k < |[n] + ns| && Is(([n] + ns)[k], uri, local) ==> k in Moved(ks)
  {
    hide Is;
    forall k | 0 < k < |[n] + ns| && Is(([n] + ns)[k], uri, local) ensures k in Moved(ks) {
      assert ns[k - 1] == ([n] + ns)[k];
      var i :| 0 <= i < |ks| && ks[i] == k - 1;
      assert Moved(ks)[i] == k;
    }
  }

  lemma LocatedHere(n: Node, ns: seq<Node>, uri: string, local: string, r: seq<Node>, ks: seq<nat>)
    requires Located(ns, uri, local, r, ks)
    ensures Located([n] + ns, uri, local, [n] + r, [0] + Moved(ks))
  {
    LocatedAfter(n, ns, uri, local, r, ks);
    hide Is;
    var all := [0] + Moved(ks);
    forall i | 0 <= i < |all| ensures all[i] < |[n] + ns| && ([n] + r)[i] == ([n] + ns)[all[i]] {
      if i > 0 {
        assert all[i] == ks[i - 1] + 1;
      }
    }
    forall k | 0 <= k < |[n] + ns| && Is(([n] + ns)[k], uri, local) ensures k in all {
      if k > 0 {
        assert k in Moved(ks);
      }
    }
    AscendingMoved(ks);
  }

  lemma AscendingMoved(ks: seq<nat>)
    requires Ascending(ks)
    ensures Ascending([0] + Moved(ks))
  {
  }

  /** The children of that name in their order, each once: `ks` are their positions. */
  lemma {:induction false} NamedInOrder(ns: seq<Node>, uri: string, local: string) returns (ks: seq<nat>)
    ensures Located(ns, uri, local, ChildrenNamed(ns, uri, local), ks)
  {
    if ns == [] {
      ks := [];
    } else {
      var n, rest := ns[0], ChildrenNamed(ns[1..], uri, local);
      var more := NamedInOrder(ns[1..], uri, local);
      assert ns == [n] + ns[1..];
      assert ChildrenNamed(ns, uri, local) == (if Is(n, uri, local) then [n] else []) + rest;
      hide Located, ChildrenNamed, Is;
      if Is(n, uri, local) {
        LocatedHere(n, ns[1..], uri, local, rest, more);
        ks := [0] + Moved(more);
      } else {
        LocatedAfter(n, ns[1..], uri, local, rest, more);
        assert [] + rest == rest;
        ks := Moved(more);
      }
    }
  }

  /** All character data below a node. */
  function DeepText(n: Node): string
    decreases n, 1
  {
    match n
    case Text(_, t) => t
    case CData(_, t) => t
    case Elem(_, _, kids) => DeepTexts(kids)
    case _ => ""
  }

  function DeepTexts(ns: seq<Node>): string
    decreases ns, 0
  {
    if ns == [] then "" else DeepText(ns[0]) + DeepTexts(ns[1..])
  }

  /** The first text among the children. */
  function ElementText(ns: seq<Node>): Option<string> {
    if ns == [] then None
    else if ns[0].Text? || ns[0].CData? then Some(ns[0].text)
    else ElementText(ns[1..])
  }

  // ---------------------------------------------------------------- upward walks

  /** The ids met on the way from a node to the document node. */
  function UpIds(s: Spot, root: nat): seq<nat> {
    [s.node.id] + seq(|s.above|, i requires 0 <= i < |s.above| => s.above[i].id) + [root]
  }

  function ParentId(s: Spot, root: nat): nat {
    if s.above == [] then root else s.above[0].id
  }

  method IsAncestorOrSelf(ancestor: nat, s: Spot, root: nat) returns (yes: bool)
    ensures yes <==> ancestor in UpIds(s, root)
  {
    var up := UpIds(s, root);
    var i := 0;
    while i < |up|
      invariant 0 <= i <= |up|
      invariant forall j :: 0 <= j < i ==> up[j] != ancestor
    {
      if up[i] == ancestor {
        return true;
      }
      i := i + 1;
    }
    return false;
  }

  function IdTest(target: nat): NodeTest {
    (id: nat, e: Option<Element>) => id == target
  }

  /** The walk up from `s` meets `t` exactly if `s` lies in the subtree of `t`. */
  lemma AncestorIsSubtree(doc: Document, s: Spot, t: Spot)
    requires WellIdentified(doc) && s in AllSpots(doc) && t in AllSpots(doc)
    ensures t.node.id in UpIds(s, doc.rootId) <==> s.node.id in Ids(t.node)
  {
    hide Spots.Spots, Under;
    var p := IdTest(t.node.id);
    SpotIdsIn(doc.children, [], t);
    assert t.node.id != doc.rootId;
    UpIsDown(p, doc.children, [], s);
    assert t.node.id in UpIds(s, doc.rootId) <==> PassesUp(p, s) by {
      UpIdsTest(s, doc.rootId, t.node.id);
    }
    UnderMember(p, doc.children, [], s.node.id);
    if s.node.id in Under(p, doc.children) {
      var u :| u in AllSpots(doc) && Passes(p, u.node) && s.node.id in Ids(u.node);
      SpotsUnique(doc.children, [], u, t);
    }
  }

  lemma UpIdsTest(s: Spot, root: nat, id: nat)
    requires id != root
    ensures id in UpIds(s, root) <==> PassesUp(IdTest(id), s)
  {
    var up := UpIds(s, root);
    if id in up {
      var i :| 0 <= i < |up| && up[i] == id;
      if i > 0 {
        assert s.above[i - 1].id == id;
      }
    }
    if AnyFrame(IdTest(id), s.above) {
      var i :| 0 <= i < |s.above| && IdTest(id)(s.above[i].id, Some(s.above[i].elem));
      assert up[i + 1] == id;
    }
    if Passes(IdTest(id), s.node) {
      assert up[0] == id;
    }
  }

  // ---------------------------------------------------------------- the ID map

  /** An ID value and the element that carries it. */
  datatype IdEntry = IdEntry(value: string, at: Spot)

  type IdReader = Element -> seq<string>

  function SpotEntries(idsOf: IdReader, s: Spot): seq<IdEntry> {
    if !s.node.Elem? then []
    else var vs := idsOf(s.node.elem); seq(|vs|, i requires 0 <= i < |vs| => IdEntry(vs[i], s))
  }

  function Entries(idsOf: IdReader, spots: seq<Spot>): seq<IdEntry> {
    if spots == [] then [] else SpotEntries(idsOf, spots[0]) + Entries(idsOf, spots[1..])
  }

  function Insert(es: seq<IdEntry>, m: map<string, Spot>): Result<map<string, Spot>> {
    if es == [] then Ok(m)
    else if es[0].value in m then Err(XmlStructure)
    else Insert(es[1..], m[es[0].value := es[0].at])
  }

  /** The map of all ID values, or an error if one occurs twice. */
  function IdMap(idsOf: IdReader, doc: Document): Result<map<string, Spot>> {
    Insert(Entries(idsOf, AllSpots(doc)), map[])
  }

  lemma {:induction false} InsertConcat(a: seq<IdEntry>, b: seq<IdEntry>, m: map<string, Spot>)
    ensures Insert(a + b, m) == if Insert(a, m).Err? then Insert(a, m) else Insert(b, Insert(a, m).value)
  {
    if a == [] {
      assert a + b == b;
    } else {
      assert (a + b)[1..] == a[1..] + b;
      if a[0].value !in m {
        InsertConcat(a[1..], b, m[a[0].value := a[0].at]);
      }
    }
  }

  method BuildIdMap(idsOf: IdReader, doc: Document) returns (r: Result<map<string, Spot>>)
    ensures r == IdMap(idsOf, doc)
  {
    hide Insert, SpotEntries;
    var m: map<string, Spot> := map[];
    var spots := AllSpots(doc);
    assert spots[0..] == spots;
    for i := 0 to |spots|
      invariant IdMap(idsOf, doc) == Insert(Entries(idsOf, spots[i..]), m)
    {
      assert spots[i..][1..] == spots[i + 1..];
      InsertConcat(SpotEntries(idsOf, spots[i]), Entries(idsOf, spots[i + 1..]), m);
      var next := InsertSpot(idsOf, spots[i], m);
      if next.Err? {
        return next;
      }
      m := next.value;
    }
    InsertNothing(m);
    return Ok(m);
  }

  lemma InsertNothing(m: map<string, Spot>)
    ensures Insert([], m) == Ok(m)
  {
  }

  method InsertSpot(idsOf: IdReader, s: Spot, m: map<string, Spot>) returns (r: Result<map<string, Spot>>)
    ensures r == Insert(SpotEntries(idsOf, s), m)
  {
    var all := m;
    if s.node.Elem? {
      var values := idsOf(s.node.elem);
      ghost var es := SpotEntries(idsOf, s);
      assert es[0..] == es;
      for j := 0 to |values|
        invariant Insert(es, m) == Insert(es[j..], all)
      {
        assert es[j..][1..] == es[j + 1..];
        if values[j] in all {
          return Err(XmlStructure);
        }
        all := all[values[j] := s];
      }
    }
    return Ok(all);
  }

  predicate DistinctValues(es: seq<IdEntry>) {
    forall i, j :: 0 <= i < j < |es| ==> es[i].value != es[j].value
  }

  predicate MapsTo(m: map<string, Spot>, value: string, s: Spot) {
    value in m && m[value] == s
  }

  /** The element at `s` carries the ID. */
  predicate Carries(idsOf: IdReader, s: Spot, value: string) {
    s.node.Elem? && value in idsOf(s.node.elem)
  }

  lemma {:induction false} InsertDistinct(es: seq<IdEntry>, m: map<string, Spot>)
    ensures Insert(es, m).Ok? <==> DistinctValues(es) && forall i :: 0 <= i < |es| ==> es[i].value !in m
    ensures Insert(es, m).Ok? ==> forall v, s :: MapsTo(Insert(es, m).value, v, s) <==> IdEntry(v, s) in es || MapsTo(m, v, s)
  {
    if es != [] {
      var e, rest := es[0], es[1..];
      InsertDistinct(rest, m[e.value := e.at]);
      DistinctCons(es, m);
      assert forall x :: x in es <==> x == e || x in rest;
      hide DistinctValues;
    }
  }

  /** The values are new and distinct exactly if the first is new and the others are beside it. */
  lemma DistinctCons(es: seq<IdEntry>, m: map<string, Spot>)
    requires es != []
    ensures DistinctValues(es) && (forall i :: 0 <= i < |es| ==> es[i].value !in m) <==>
      && es[0].value !in m && DistinctValues(es[1..])
      && forall i :: 0 <= i < |es[1..]| ==> es[1..][i].value !in m[es[0].value := es[0].at]
  {
    var rest, more := es[1..], m[es[0].value := es[0].at];
    assert forall i :: 0 < i < |es| ==> es[i] == rest[i - 1];
    if DistinctValues(es) && forall i :: 0 <= i < |es| ==> es[i].value !in m {
      forall i | 0 <= i < |rest| ensures rest[i].value !in more {
        assert rest[i] == es[i + 1];
      }
      forall i, j | 0 <= i < j < |rest| ensures rest[i].value != rest[j].value {
        assert rest[i] == es[i + 1] && rest[j] == es[j + 1];
      }
    }
  }

  lemma {:induction false} EntryMember(idsOf: IdReader, spots: seq<Spot>, v: string, s: Spot)
    ensures IdEntry(v, s) in Entries(idsOf, spots) <==> s in spots && Carries(idsOf, s, v)
  {
    if spots != [] {
      EntryMember(idsOf, spots[1..], v, s);
      var es := SpotEntries(idsOf, spots[0]);
      assert IdEntry(v, s) in es <==> s == spots[0] && s.node.Elem? && v in idsOf(s.node.elem) by {
        if s == spots[0] && s.node.Elem? && v in idsOf(s.node.elem) {
          var k :| 0 <= k < |idsOf(s.node.elem)| && idsOf(s.node.elem)[k] == v;
          assert es[k] == IdEntry(v, s);
        }
      }
    }
  }

  /** What the map says: exactly the elements that carry an ID, each value carried once. */
  lemma IdMapIsExact(idsOf: IdReader, doc: Document)
    ensures IdMap(idsOf, doc).Ok? <==> DistinctValues(Entries(idsOf, AllSpots(doc)))
    ensures IdMap(idsOf, doc).Ok? ==> forall v, s :: MapsTo(IdMap(idsOf, doc).value, v, s) <==>
      s in AllSpots(doc) && Carries(idsOf, s, v)
  {
    hide Insert, Entries, Carries, MapsTo;
    var es := Entries(idsOf, AllSpots(doc));
    InsertDistinct(es, map[]);
    if IdMap(idsOf, doc).Ok? {
      var m := IdMap(idsOf, doc).value;
      forall v, s ensures MapsTo(m, v, s) <==> s in AllSpots(doc) && Carries(idsOf, s, v) {
        EntryMember(idsOf, AllSpots(doc), v, s);
        MapsNothing(v, s);
      }
    }
  }

  lemma MapsNothing(v: string, s: Spot)
    ensures !MapsTo(map[], v, s)
  {
  }

  // ---------------------------------------------------------------- resolving references

  /** What flows through the transforms: a node set of the document (all of it if absent), or octets. */
  datatype Data = Xml(nodeSet: Option<NodeSet>) | Binary(octets: string)

  predicate HasSuffix(s: string, t: string) {
    |t| <= |s| && s[|s| - |t|..] == t
  }

  function Between(s: string, head: string, tail: string): Option<string>
    requires head <= s
  {
    var inner := s[|head|..];
    if HasSuffix(inner, tail) then Some(inner[..|inner| - |tail|]) else None
  }

  /** The ID in `xpointer(id('...'))`, with either kind of quotes. */
  function XPointerId(s: string): Option<string> {
    if "xpointer(id('" <= s then Between(s, "xpointer(id('", "'))")
    else if "xpointer(id(\"" <= s then Between(s, "xpointer(id(\"", "\"))")
    else None
  }

  datatype Resolved = Resolved(data: Data, target: Option<Spot>)

  function Resolve(ids: map<string, Spot>, external: string -> Result<string>, uri: string, doc: Document): Result<Resolved> {
    if uri == "" then Ok(Resolved(Xml(Some(AllWithoutComments(doc))), None))
    else if uri[0] == '#' then
      var fragment := uri[1..];
      if fragment == "xpointer(/)" then Ok(Resolved(Xml(None), None))
      else
        var pointer := XPointerId(fragment);
        var id := if pointer.Some? then pointer.value else fragment;
        if id !in ids then Err(InvalidUri)
        else Ok(Resolved(Xml(Some(FromIds(SubtreeIds(ids[id].node, pointer.Some?)))), Some(ids[id])))
    else
      var r := external(uri);
      if r.Err? then Err(r.error) else Ok(Resolved(Binary(r.value), None))
  }

  // ---------------------------------------------------------------- transforms

  datatype Transform =
    | EnvelopedSignature
    | XPathFilter(expr: Expr)
    | XPathFilter2(steps: seq<FilterStep>, paths: Paths)
    | XPointer(id: string, idsOf: IdReader)
    | Canonicalize(mode: Mode, withComments: bool)
    | Base64Decode

  /** What the XML library and the cryptographic code provide. */
  datatype Suite = Suite(
    attr: (Element, string) -> Option<string>,              // an attribute by name
    idsOf: IdReader,                                        // the ID values of an element
    external: string -> Result<string>,                     // octets behind a URI outside the document
    transformOf: (Node, seq<Frame>) -> Result<Transform>,   // a Transform element, read
    onOctets: (Transform, string) -> Result<string>,        // a transform of octets to octets
    digest: (string, string) -> Result<string>,             // digest method and octets
    encode: string -> string,                               // base64
    decode: string -> Option<string>)

  /** The character data of a text node that is in the set. */
  function TextAt(s: Option<NodeSet>, n: Node): string {
    if (n.Text? || n.CData?) && InInput(s, n.id) then n.text else ""
  }

  function SelectedText(s: Option<NodeSet>, spots: seq<Spot>): string {
    if spots == [] then "" else TextAt(s, spots[0].node) + SelectedText(s, spots[1..])
  }

  method ExtractTextContent(s: Option<NodeSet>, doc: Document) returns (text: string)
    ensures text == SelectedText(s, AllSpots(doc))
  {
    hide AllSpots, TextAt;
    text := "";
    var spots := AllSpots(doc);
    assert spots[0..] == spots;
    for i := 0 to |spots|
      invariant text + SelectedText(s, spots[i..]) == SelectedText(s, spots)
    {
      ghost var rest := SelectedText(s, spots[i + 1..]);
      assert spots[i..][1..] == spots[i + 1..];
      assert SelectedText(s, spots[i..]) == TextAt(s, spots[i].node) + rest;
      assert (text + TextAt(s, spots[i].node)) + rest == text + (TextAt(s, spots[i].node) + rest);
      text := text + TextAt(s, spots[i].node);
    }
  }

  /** Transforms that turn a node set into octets. */
  predicate MakesOctets(t: Transform) {
    t.Canonicalize? || t.Base64Decode?
  }

  function Apply(suite: Suite, t: Transform, data: Data, doc: Document, sig: Node): Result<Data> {
    match data
    case Binary(octets) =>
      var r := suite.onOctets(t, octets);
      if r.Err? then Err(r.error) else Ok(Binary(r.value))
    case Xml(nodeSet) =>
      match t
      case EnvelopedSignature =>
        var start := if nodeSet.Some? then nodeSet.value else All(doc);
        Ok(Xml(Some(start.(nodes := start.nodes - Ids(sig)))))
      case XPathFilter(expr) => Ok(Xml(Some(Filtered(expr, nodeSet, doc))))
      case XPathFilter2(steps, paths) =>
        var r := FilterResult(Selecting(doc, paths), nodeSet, doc, steps);
        if r.Err? then Err(r.error) else Ok(Xml(Some(r.value)))
      case XPointer(id, idsOf) =>
        var ids := IdMap(idsOf, doc);
        if ids.Err? then Err(ids.error)
        else if id !in ids.value then Err(InvalidUri)
        else
          var target := FromIds(SubtreeIds(ids.value[id].node, true));
          Ok(Xml(Some(if nodeSet.Some? then nodeSet.value.Intersection(target) else target)))
      case Base64Decode =>
        var r := suite.onOctets(t, SelectedText(nodeSet, AllSpots(doc)));
        if r.Err? then Err(r.error) else Ok(Binary(r.value))
      case Canonicalize(mode, withComments) => Ok(Binary(C14n(Config(mode, withComments, nodeSet), doc)))
  }

  /** The transforms in order; `chain` is the Transforms element and its ancestors. */
  function RunTransforms(suite: Suite, ts: seq<Node>, chain: seq<Frame>, data: Data, doc: Document, sig: Node): Result<Data> {
    if ts == [] then Ok(data)
    else if !ts[0].Elem? || ts[0].elem.name.local != "Transform" then
      RunTransforms(suite, ts[1..], chain, data, doc, sig)
    else
      var t := suite.transformOf(ts[0], chain);
      if t.Err? then Err(t.error)
      else
        var next := Apply(suite, t.value, data, doc, sig);
        if next.Err? then next else RunTransforms(suite, ts[1..], chain, next.value, doc, sig)
  }

  /** Node sets that reach the digest are canonicalized, inclusive and without comments. */
  function ToOctets(data: Data, doc: Document): string {
    match data
    case Binary(octets) => octets
    case Xml(nodeSet) => C14n(Config(Inclusive, false, nodeSet), doc)
  }

  // ---------------------------------------------------------------- references

  function UriOfReference(suite: Suite, ref: Node): string
    requires ref.Elem?
  {
    var u := suite.attr(ref.elem, "URI");
    if u.Some? then u.value else ""
  }

  predicate IsCid(uri: string) {
    "cid:" <= uri
  }

  /** The data a reference digests: what its URI resolves to, after its transforms. */
  function Digested(suite: Suite, ref: Node, chain: seq<Frame>, ids: map<string, Spot>, doc: Document, sig: Node): Result<Data>
    requires ref.Elem?
  {
    var r := Resolve(ids, suite.external, UriOfReference(suite, ref), doc);
    if r.Err? then Err(r.error)
    else
      match FirstChild(ref.children, DSIG_NS, "Transforms")
      case None => Ok(r.value.data)
      case Some(ts) => RunTransforms(suite, ts.children, Below(ts, Below(ref, chain)), r.value.data, doc, sig)
  }

  /** The Algorithm of the DigestMethod child. */
  function DigestMethod(suite: Suite, ref: Node): Result<string>
    requires ref.Elem?
  {
    match FirstChild(ref.children, DSIG_NS, "DigestMethod")
    case None => Err(MissingElement)
    case Some(m) =>
      var a := suite.attr(m.elem, "Algorithm");
      if a.None? then Err(MissingAttribute) else Ok(a.value)
  }

  /** The digest that is computed for a reference. */
  function ComputeDigest(suite: Suite, ref: Node, chain: seq<Frame>, ids: map<string, Spot>, doc: Document, sig: Node): Result<string>
    requires ref.Elem?
  {
    var m := DigestMethod(suite, ref);
    if m.Err? then m
    else
      var d := Digested(suite, ref, chain, ids, doc, sig);
      if d.Err? then Err(d.error) else suite.digest(m.value, ToOctets(d.value, doc))
  }

  // ---------------------------------------------------------------- SignedInfo

  /** A child of SignedInfo that names an algorithm. */
  function MethodChild(suite: Suite, info: Node, local: string): (r: Result<Node>)
    requires info.Elem?
    ensures r.Ok? ==> r.value.Elem?
  {
    match FirstChild(info.children, DSIG_NS, local)
    case None => Err(MissingElement)
    case Some(m) => if suite.attr(m.elem, "Algorithm").None? then Err(MissingAttribute) else Ok(m)
  }

  /** The canonicalization of SignedInfo and its SignatureMethod element. */
  datatype Methods = Methods(mode: Mode, withComments: bool, signature: Node)

  /** A CanonicalizationMethod element, read with its PrefixList. */
  type ModeReader = Node -> Result<(Mode, bool)>

  function ReadMethods(suite: Suite, modeOf: ModeReader, info: Node): Result<Methods>
    requires info.Elem?
  {
    var c := MethodChild(suite, info, "CanonicalizationMethod");
    if c.Err? then Err(c.error)
    else
      var mode := modeOf(c.value);
      if mode.Err? then Err(mode.error)
      else
        var s := MethodChild(suite, info, "SignatureMethod");
        if s.Err? then Err(s.error) else Ok(Methods(mode.value.0, mode.value.1, s.value))
  }

  /** The octets under the signature. */
  function InfoOctets(m: Methods, info: Node, doc: Document): string {
    C14n(Config(m.mode, m.withComments, Some(FromIds(SubtreeIds(info, false)))), doc)
  }
}
