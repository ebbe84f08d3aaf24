/**
 XPath Filter 2.0 on two documents that differ only inside holes: outside the holes the same
 nodes are selected, or both runs fail alike.
 */
module FilterEdits {
  import opened Dom
  import opened NodeSets
  import opened Spots
  import opened XPathText
  import opened Filter2
  import opened Dsig
  import opened Edits

  /** A node outside the holes, in both documents. */
  lemma BothSpots(doc: Document, doc2: Document, holes: set<nat>, id: nat) returns (s: Spot, t: Spot)
    requires Edited(doc, doc2, holes) && id in Outside(doc.children, holes)
    ensures s in AllSpots(doc) && t in AllSpots(doc2) && s.node.id == id == t.node.id && id !in holes
    ensures s.above == t.above && AlikeNode(s.node, t.node, holes)
  {
    OutsideWithin(doc.children, holes);
    s := IdsHaveSpots(doc.children, [], id);
    t := Counterpart(doc.children, doc2.children, holes, [], s);
  }

  // ---------------------------------------------------------------- descendants

  lemma UnderAgrees(test: NodeTest, doc: Document, doc2: Document, holes: set<nat>, id: nat)
    requires Edited(doc, doc2, holes) && id in Outside(doc.children, holes)
    ensures id in Under(test, doc.children) <==> id in Under(test, doc2.children)
  {
    hide Spots.Spots, Outside, Under;
    var s, t := BothSpots(doc, doc2, holes, id);
    UpIsDown(test, doc.children, [], s);
    UpIsDown(test, doc2.children, [], t);
    assert Passes(test, s.node) == Passes(test, t.node);
  }

  // ---------------------------------------------------------------- paths

  /** The elements of `path`, nearest first, match the steps from the last one on. */
  predicate PathMatches(holds: PredicateTest, path: seq<Frame>, steps: seq<PathStep>) {
    |path| == |steps| && forall i :: 0 <= i < |steps| ==> StepMatches(holds, path[|steps| - 1 - i].elem, steps[i])
  }

  /** Every element on the way up is reached by a spot of its own. */
  lemma {:induction false} AncestorSpot(doc: Document, s: Spot, k: nat) returns (u: Spot)
    requires WellIdentified(doc) && s in AllSpots(doc) && k < |s.Path()|
    ensures u in AllSpots(doc) && u.node.Elem? && u.Path() == s.Path()[k..] && s.node.id in Ids(u.node)
    decreases |s.above|
  {
    hide Spots.Spots;
    if s.node.Elem? && k == 0 {
      u := s;
    } else {
      var p := ParentSpot(doc.children, [], s);
      var j := if s.node.Elem? then k - 1 else k;
      assert s.above != [] && s.above == p.Path() && s.Path()[k..] == s.above[j..];
      u := AncestorSpot(doc, p, j);
      ParentWithin(doc, p, u, s.node);
    }
  }

  lemma ParentWithin(doc: Document, p: Spot, u: Spot, n: Node)
    requires WellIdentified(doc) && p in AllSpots(doc) && u in AllSpots(doc) && p.node.id in Ids(u.node) && p.node.Elem? && n in p.node.children
    ensures n.id in Ids(u.node)
  {
    hide Spots.Spots;
    ChildSpot(doc.children, [], p, n);
    var c := Spot(n, p.Path());
    AncestorIsSubtree(doc, p, u);
    AncestorIsSubtree(doc, c, u);
    var up, upc := UpIds(p, doc.rootId), UpIds(c, doc.rootId);
    assert upc == [n.id] + up;
  }

  /** A node lies in what a path selects exactly if the way up from it meets an element that the
      path reaches. */
  lemma PathIdsUp(holds: PredicateTest, doc: Document, steps: seq<PathStep>, s: Spot)
    requires WellIdentified(doc) && s in AllSpots(doc)
    ensures s.node.id in PathIds(holds, doc, steps) <==>
      steps != [] && exists k :: 0 <= k < |s.Path()| && PathMatches(holds, s.Path()[k..], steps)
  {
    hide Spots.Spots, StepMatches;
    if s.node.id in PathIds(holds, doc, steps) {
      var u :| u in AllSpots(doc) && Reached(holds, doc, steps, u) && s.node.id in Ids(u.node);
      var k := SuffixOf(doc, s, u);
      assert PathMatches(holds, s.Path()[k..], steps);
    }
    if steps != [] && exists k :: 0 <= k < |s.Path()| && PathMatches(holds, s.Path()[k..], steps) {
      var k :| 0 <= k < |s.Path()| && PathMatches(holds, s.Path()[k..], steps);
      var u := AncestorSpot(doc, s, k);
      assert Reached(holds, doc, steps, u);
    }
  }

  lemma SuffixOf(doc: Document, s: Spot, u: Spot) returns (k: nat)
    requires WellIdentified(doc) && s in AllSpots(doc) && u in AllSpots(doc) && u.node.Elem? && s.node.id in Ids(u.node)
    ensures k < |s.Path()| && u.Path() == s.Path()[k..]
  {
    hide Spots.Spots;
    AncestorIsSubtree(doc, s, u);
    SpotIdsIn(doc.children, [], u);
    if u.node.id == s.node.id {
      SpotsUnique(doc.children, [], u, s);
      k := 0;
    } else {
      var up := UpIds(s, doc.rootId);
      var i :| 0 <= i < |up| && up[i] == u.node.id;
      k := if s.node.Elem? then i else i - 1;
      assert s.Path()[k].id == u.node.id;
      var v := AncestorSpot(doc, s, k);
      assert v.Path()[0].id == v.node.id;
      SpotsUnique(doc.children, [], u, v);
    }
  }

  lemma PathIdsAgree(holds: PredicateTest, steps: seq<PathStep>, doc: Document, doc2: Document, holes: set<nat>, id: nat)
    requires Edited(doc, doc2, holes) && id in Outside(doc.children, holes)
    ensures id in PathIds(holds, doc, steps) <==> id in PathIds(holds, doc2, steps)
  {
    hide Spots.Spots, Outside, PathIds, PathMatches;
    var s, t := BothSpots(doc, doc2, holes, id);
    assert s.Path() == t.Path();
    PathIdsUp(holds, doc, steps, s);
    PathIdsUp(holds, doc2, steps, t);
  }

  // ---------------------------------------------------------------- expressions and runs

  /** Plain sets that agree about `ids`. */
  ghost predicate PlainAgree(x: NodeSet, y: NodeSet, ids: set<nat>) {
    && x.setType.Normal? && y.setType.Normal? && x.nsVisible.None? && y.nsVisible.None? && !x.excludeAttrs && !y.excludeAttrs
    && forall id :: id in ids ==> (id in x.nodes <==> id in y.nodes)
  }

  ghost predicate ResultsAgree(x: Result<NodeSet>, y: Result<NodeSet>, ids: set<nat>) {
    if x.Ok? && y.Ok? then PlainAgree(x.value, y.value, ids) else x == y
  }

  lemma AllAgree(doc: Document, doc2: Document, holes: set<nat>)
    requires Edited(doc, doc2, holes)
    ensures PlainAgree(All(doc), All(doc2), Outside(doc.children, holes))
  {
    SameOutside(doc.children, doc2.children, holes);
    OutsideWithin(doc.children, holes);
    OutsideWithin(doc2.children, holes);
  }

  lemma {:induction false} SelectAgrees(chain: seq<Frame>, paths: Paths, expr: string, doc: Document, doc2: Document, holes: set<nat>)
    requires Edited(doc, doc2, holes)
    ensures ResultsAgree(Select(doc, chain, paths, expr), Select(doc2, chain, paths, expr), Outside(doc.children, holes))
    decreases |expr|
  {
    hide Edited, Outside, SplitUnionFrom, ResolveTest, Trim, PathIds, Under;
    AllAgree(doc, doc2, holes);
    var ids, u := Outside(doc.children, holes), SplitUnionFrom(expr, 0);
    if expr == "/" {
    } else if u.Some? {
      SelectAgrees(chain, paths, Trim(u.value.0), doc, doc2, holes);
      SelectAgrees(chain, paths, Trim(u.value.1), doc, doc2, holes);
    } else {
      forall id, test | id in ids ensures id in Under(test, doc.children) <==> id in Under(test, doc2.children) {
        UnderAgrees(test, doc, doc2, holes, id);
      }
      forall id, steps | id in ids ensures id in PathIds(paths.holds, doc, steps) <==> id in PathIds(paths.holds, doc2, steps) {
        PathIdsAgree(paths.holds, steps, doc, doc2, holes, id);
      }
    }
  }

  lemma {:induction false} StepsAgree(steps: seq<FilterStep>, paths: Paths, f: NodeSet, g: NodeSet, doc: Document, doc2: Document, holes: set<nat>)
    requires Edited(doc, doc2, holes) && PlainAgree(f, g, Outside(doc.children, holes))
    ensures ResultsAgree(RunSteps(Selecting(doc, paths), steps, f), RunSteps(Selecting(doc2, paths), steps, g), Outside(doc.children, holes))
  {
    hide Edited, Outside, Select;
    if steps != [] {
      var x, y := Selecting(doc, paths)(steps[0]), Selecting(doc2, paths)(steps[0]);
      SelectAgrees(steps[0].chain, paths, steps[0].expr, doc, doc2, holes);
      if x.Ok? && y.Ok? && KnownOp(steps[0].op) {
        StepsAgree(steps[1..], paths, Combine(f, steps[0].op, x.value), Combine(g, steps[0].op, y.value), doc, doc2, holes);
      }
    }
  }

  lemma MeetAgrees(x: NodeSet, y: NodeSet, f: NodeSet, g: NodeSet, ids: set<nat>)
    requires SetsAgree(Some(x), Some(y), ids) && PlainAgree(f, g, ids)
    ensures SetsAgree(Some(x.Intersection(f)), Some(y.Intersection(g)), ids)
  {
    var a, b := x.Intersection(f), y.Intersection(g);
    forall id, p | id in ids ensures a.NsVisible(id, p) == b.NsVisible(id, p) {
      assert x.NsVisible(id, p) == y.NsVisible(id, p);
    }
  }

  /** The transform on both documents: the same error, or sets that agree outside the holes. */
  lemma Filter2Agrees(steps: seq<FilterStep>, paths: Paths, a: Option<NodeSet>, b: Option<NodeSet>, doc: Document, doc2: Document, holes: set<nat>)
    requires Edited(doc, doc2, holes) && SetsAgree(a, b, Outside(doc.children, holes))
    ensures var x, y := FilterResult(Selecting(doc, paths), a, doc, steps), FilterResult(Selecting(doc2, paths), b, doc2, steps);
      if x.Ok? && y.Ok? then SetsAgree(Some(x.value), Some(y.value), Outside(doc.children, holes)) else x == y
  {
    hide Edited, Outside, RunSteps;
    var ids := Outside(doc.children, holes);
    AllAgree(doc, doc2, holes);
    StepsAgree(steps, paths, All(doc), All(doc2), doc, doc2, holes);
    var f, g := RunSteps(Selecting(doc, paths), steps, All(doc)), RunSteps(Selecting(doc2, paths), steps, All(doc2));
    if f.Ok? && g.Ok? {
      var x, y := if a.Some? then a.value else All(doc), if b.Some? then b.value else All(doc2);
      assert SetsAgree(Some(x), Some(y), ids);
      MeetAgrees(x, y, f.value, g.value, ids);
    }
  }
}
