/**
 What filling in elements keeps: which SignatureValue is the first empty one, and that no ID
 occurs twice.
 */
module RunKeeps {
  import opened Dom
  import opened Spots
  import opened XPathText
  import opened Dsig
  import opened SignRun

  // ---------------------------------------------------------------- the first empty element

  /** Text that is there stays there. */
  lemma {:induction false} TextStays(ns: seq<Node>, x: Node)
    requires Solidly(x)
    ensures Trim(DeepTexts(ns)) != "" ==> Trim(DeepTexts(Replace(ns, x.id, x))) != ""
    decreases ns, 0
  {
    hide DeepText, ReplaceIn, Trim;
    if ns != [] {
      var m, more := ReplaceIn(ns[0], x.id, x), Replace(ns[1..], x.id, x);
      assert Replace(ns, x.id, x) == [m] + more && ([m] + more)[1..] == more;
      TextStaysIn(ns[0], x);
      TextStays(ns[1..], x);
      TrimConcat(DeepText(ns[0]), DeepTexts(ns[1..]));
      TrimConcat(DeepText(m), DeepTexts(more));
    }
  }

  lemma {:induction false} TextStaysIn(n: Node, x: Node)
    requires Solidly(x)
    ensures Trim(DeepText(n)) != "" ==> Trim(DeepText(ReplaceIn(n, x.id, x))) != ""
    decreases n, 1
  {
    hide Trim;
    SolidlyFilled(x, "");
    hide DeepTexts, Replace;
    if n.id != x.id && n.Elem? {
      TextStays(n.children, x);
    }
  }

  /** Filling in an element that is not, and holds no, empty element of a name leaves the first empty
      element of that name what it is, unless that is around it. */
  lemma {:induction false} FirstStays(ns: seq<Node>, chain: seq<Frame>, s: Spot, x: Node, local: string)
    requires UniqueIds(ns) && s in Spots.Spots(ns, chain) && s.node.id == x.id && VacantIdsOf(s.node, local) == [] && Solidly(x)
    ensures var r, q := FirstVacant(Spots.Spots(ns, chain), local), FirstVacant(Spots.Spots(Replace(ns, x.id, x), chain), local);
      (r.None? ==> q.None?) && (r.Some? && x.id !in Ids(r.value.node) ==> q == r)
    decreases ns, 0
  {
    var n, rest := ns[0], ns[1..];
    var m, more := ReplaceIn(n, x.id, x), Replace(rest, x.id, x);
    assert Replace(ns, x.id, x) == [m] + more && ([m] + more)[1..] == more;
    hide Vacant, VacantIdsOf, NodeSpots, ReplaceIn, Replace, Solidly;
    InNode(n, chain, s);
    FirstVacantConcat(NodeSpots(n, chain), Spots.Spots(rest, chain), local);
    FirstVacantConcat(NodeSpots(m, chain), Spots.Spots(more, chain), local);
    if s in NodeSpots(n, chain) {
      FirstStaysIn(n, chain, s, x, local);
      ReplaceElsewhere(rest, x.id, x);
    } else {
      SpotIdsIn(rest, chain, s);
      ReplaceElsewhereIn(n, x.id, x);
      FirstStays(rest, chain, s, x, local);
    }
  }

  lemma {:induction false} FirstStaysIn(n: Node, chain: seq<Frame>, s: Spot, x: Node, local: string)
    requires UniqueNode(n) && s in NodeSpots(n, chain) && s.node.id == x.id && VacantIdsOf(s.node, local) == [] && Solidly(x)
    ensures var r, q := FirstVacant(NodeSpots(n, chain), local), FirstVacant(NodeSpots(ReplaceIn(n, x.id, x), chain), local);
      (r.None? ==> q.None?) && (r.Some? && x.id !in Ids(r.value.node) ==> q == r)
    decreases n, 1
  {
    NodeSpotsMember(s, n, chain);
    InNode(n, chain, s);
    if s == Spot(n, chain) {
      SolidlyFilled(x, local);
      assert ReplaceIn(n, x.id, x) == x;
      hide *;
      FirstVacantIdOf(n, chain, local);
      FirstVacantIdOf(x, chain, local);
    } else {
      var here := Below(n, chain);
      SpotIdsIn(n.children, here, s);
      var m := ReplaceIn(n, x.id, x);
      assert m == n.(children := Replace(n.children, x.id, x)) && Below(m, chain) == here;
      FirstStays(n.children, here, s, x, local);
      TextStaysIn(n, x);
      VacantKept(n, m, local);
      FirstOfNode(n, chain, local);
      FirstOfNode(m, chain, local);
      hide *;
    }
  }

  lemma VacantKept(n: Node, m: Node, local: string)
    requires n.Elem? && m.Elem? && m.elem == n.elem && (Trim(DeepText(n)) != "" ==> Trim(DeepText(m)) != "")
    ensures !Vacant(n, local) ==> !Vacant(m, local)
  {
  }

  lemma FirstOfNode(n: Node, chain: seq<Frame>, local: string)
    requires n.Elem?
    ensures FirstVacant(NodeSpots(n, chain), local) ==
      if Vacant(n, local) then Some(Spot(n, chain)) else FirstVacant(Spots.Spots(n.children, Below(n, chain)), local)
  {
    hide Spots.Spots, Vacant;
    assert NodeSpots(n, chain)[1..] == Spots.Spots(n.children, Below(n, chain));
  }

  // ---------------------------------------------------------------- IDs

  /** IDs are attribute values: an element without attributes has none. */
  ghost predicate ReadsAttributes(idsOf: IdReader) {
    forall e: Element :: e.attrs == [] ==> idsOf(e) == []
  }

  /** The ID values of a forest, as often as they occur. */
  function IdBag(idsOf: IdReader, ns: seq<Node>): multiset<string>
    decreases ns, 0
  {
    if ns == [] then multiset{} else IdBagOf(idsOf, ns[0]) + IdBag(idsOf, ns[1..])
  }

  function IdBagOf(idsOf: IdReader, n: Node): multiset<string>
    decreases n, 1
  {
    if n.Elem? then multiset(idsOf(n.elem)) + IdBag(idsOf, n.children) else multiset{}
  }

  function Values(es: seq<IdEntry>): seq<string> {
    seq(|es|, i requires 0 <= i < |es| => es[i].value)
  }

  lemma {:induction false} EntriesConcat(idsOf: IdReader, a: seq<Spot>, b: seq<Spot>)
    ensures Entries(idsOf, a + b) == Entries(idsOf, a) + Entries(idsOf, b)
  {
    if a == [] {
      assert a + b == b;
    } else {
      assert (a + b)[1..] == a[1..] + b;
      EntriesConcat(idsOf, a[1..], b);
    }
  }

  lemma {:induction false} EntriesBag(idsOf: IdReader, ns: seq<Node>, chain: seq<Frame>)
    ensures multiset(Values(Entries(idsOf, Spots.Spots(ns, chain)))) == IdBag(idsOf, ns)
    decreases ns, 0
  {
    hide NodeSpots, IdBagOf, Entries;
    if ns == [] {
      NoEntries(idsOf);
    } else {
      var a, b := Entries(idsOf, NodeSpots(ns[0], chain)), Entries(idsOf, Spots.Spots(ns[1..], chain));
      EntriesConcat(idsOf, NodeSpots(ns[0], chain), Spots.Spots(ns[1..], chain));
      EntriesBagOf(idsOf, ns[0], chain);
      EntriesBag(idsOf, ns[1..], chain);
      assert Values(a + b) == Values(a) + Values(b);
    }
  }

  lemma NoEntries(idsOf: IdReader)
    ensures Entries(idsOf, []) == []
  {
  }

  lemma {:induction false} EntriesBagOf(idsOf: IdReader, n: Node, chain: seq<Frame>)
    ensures multiset(Values(Entries(idsOf, NodeSpots(n, chain)))) == IdBagOf(idsOf, n)
    decreases n, 1
  {
    hide Spots.Spots, IdBag;
    var kids := if n.Elem? then Spots.Spots(n.children, Below(n, chain)) else [];
    var own, below := SpotEntries(idsOf, Spot(n, chain)), Entries(idsOf, kids);
    assert NodeSpots(n, chain)[1..] == kids;
    assert Entries(idsOf, NodeSpots(n, chain)) == own + below;
    assert Values(own + below) == Values(own) + Values(below);
    if n.Elem? {
      EntriesBag(idsOf, n.children, Below(n, chain));
      assert Values(own) == idsOf(n.elem);
    }
  }

  predicate NoRepeats(vs: seq<string>) {
    forall i, j :: 0 <= i < j < |vs| ==> vs[i] != vs[j]
  }

  lemma {:induction false} RepeatsCount(vs: seq<string>)
    ensures NoRepeats(vs) <==> forall v :: multiset(vs)[v] <= 1
  {
    if vs != [] {
      var h, rest := vs[0], vs[1..];
      assert vs == [h] + rest;
      RepeatsCount(rest);
      assert forall i :: 0 < i < |vs| ==> vs[i] == rest[i - 1];
      assert h in rest <==> multiset(rest)[h] > 0;
      assert multiset(vs) == multiset{h} + multiset(rest);
      if NoRepeats(vs) {
        assert h !in rest;
      } else if NoRepeats(rest) {
        assert h in rest;
        assert multiset(vs)[h] > 1;
      } else {
        var v :| multiset(rest)[v] > 1;
        assert multiset(vs)[v] > 1;
      }
    }
  }

  /** The ID map depends on how often each value occurs: where fewer do, it still exists. */
  lemma FewerIds(idsOf: IdReader, doc: Document, doc2: Document)
    requires IdBag(idsOf, doc2.children) <= IdBag(idsOf, doc.children) && IdMap(idsOf, doc).Ok?
    ensures IdMap(idsOf, doc2).Ok?
  {
    IdMapByCount(idsOf, doc);
    IdMapByCount(idsOf, doc2);
    hide *;
  }

  lemma IdMapByCount(idsOf: IdReader, doc: Document)
    ensures IdMap(idsOf, doc).Ok? <==> forall v :: IdBag(idsOf, doc.children)[v] <= 1
  {
    var es := Entries(idsOf, AllSpots(doc));
    hide IdMap, Entries, Spots.Spots, IdBag;
    IdMapIsExact(idsOf, doc);
    EntriesBag(idsOf, doc.children, []);
    RepeatsCount(Values(es));
    SameRepeats(es);
  }

  lemma SameRepeats(es: seq<IdEntry>)
    ensures DistinctValues(es) <==> NoRepeats(Values(es))
  {
    assert forall i :: 0 <= i < |es| ==> Values(es)[i] == es[i].value;
    if NoRepeats(Values(es)) {
      forall i, j | 0 <= i < j < |es| ensures es[i].value != es[j].value {
        assert Values(es)[i] != Values(es)[j];
      }
    }
  }

  lemma {:induction false} ReplaceBag(idsOf: IdReader, ns: seq<Node>, id: nat, x: Node)
    requires IdBagOf(idsOf, x) == multiset{}
    ensures IdBag(idsOf, Replace(ns, id, x)) <= IdBag(idsOf, ns)
    decreases ns
  {
    if ns != [] {
      var m, more := ReplaceIn(ns[0], id, x), Replace(ns[1..], id, x);
      assert Replace(ns, id, x) == [m] + more && ([m] + more)[1..] == more;
      ReplaceBag(idsOf, ns[1..], id, x);
      if ns[0].Elem? {
        ReplaceBag(idsOf, ns[0].children, id, x);
      }
    }
  }

  lemma FillBag(idsOf: IdReader, doc: Document, local: string, content: string)
    requires ReadsAttributes(idsOf)
    ensures IdBag(idsOf, FillFirst(doc, local, content).children) <= IdBag(idsOf, doc.children)
  {
    hide Spots.Spots, IdBag, Replace;
    var r := FirstVacant(AllSpots(doc), local);
    if r.Some? {
      var x := Filled(r.value, content, FreshId(doc));
      NoIdsIn(idsOf, x);
      ReplaceBag(idsOf, doc.children, x.id, x);
    }
  }

  lemma NoIdsIn(idsOf: IdReader, x: Node)
    requires ReadsAttributes(idsOf) && x.Elem? && x.elem.attrs == [] && |x.children| == 1 && x.children[0].Text?
    ensures IdBagOf(idsOf, x) == multiset{}
  {
    assert x.children[1..] == [];
    assert IdBag(idsOf, x.children) == multiset{};
  }

  /** No pass of the reference loop adds an ID. */
  lemma {:induction false} StepsBag(suite: Suite, doc: Document, i: nat, n: nat)
    requires ReadsAttributes(suite.idsOf) && i <= n && SignSteps(suite, doc, i, n).Ok?
    ensures IdBag(suite.idsOf, SignSteps(suite, doc, i, n).value.children) <= IdBag(suite.idsOf, doc.children)
    decreases n - i
  {
    if i < n {
      var next := SignStep(suite, doc, i).value;
      StepBag(suite, doc, i);
      hide SignStep, IdBag;
      StepsBag(suite, next, i + 1, n);
    }
  }

  lemma StepBag(suite: Suite, doc: Document, i: nat)
    requires ReadsAttributes(suite.idsOf) && SignStep(suite, doc, i).Ok?
    ensures IdBag(suite.idsOf, SignStep(suite, doc, i).value.children) <= IdBag(suite.idsOf, doc.children)
  {
    hide *;
    var content := StepShape(suite, doc, i);
    FillBag(suite.idsOf, doc, "DigestValue", content);
  }

  /** A pass leaves the document alone or fills in one DigestValue. */
  lemma StepShape(suite: Suite, doc: Document, i: nat) returns (content: string)
    requires SignStep(suite, doc, i).Ok?
    ensures SignStep(suite, doc, i).value == doc || SignStep(suite, doc, i).value == FillFirst(doc, "DigestValue", content)
  {
    hide FillFirst, ComputeDigest, IdMap, SiteOf, DigestText, Trim;
    var site := SiteOf(doc).value;
    var d := ComputeDigest(suite, site.refs[i], site.Chain(), IdMap(suite.idsOf, doc).value, doc, site.sig.node);
    content := if d.Ok? then suite.encode(d.value) else "";
  }
}
