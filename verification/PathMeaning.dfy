/**
 What the expressions of XPath Filter 2.0 select, read off from the tree: subtrees of elements by name,
 subtrees at the end of a path of children, and the union of both sides of `|`.
 */
module PathMeaning {
  import opened Dom
  import opened Namespaces
  import opened Lexer
  import opened Spots
  import opened XPathText
  import opened XPathParser
  import opened Filter2
  import opened DropSignature

  // ---------------------------------------------------------------- names

  /** An element with this local name, in the namespace if one is given. */
  predicate ElementNamed(n: Node, uri: Option<string>, local: string) {
    && n.Elem? && n.elem.name.local == local
    && (uri.Some? ==> (if n.elem.name.uri.Some? then n.elem.name.uri.value else "") == uri.value)
  }

  /** The node lies in the subtree of such an element. */
  ghost predicate UnderNamed(doc: Document, id: nat, uri: Option<string>, local: string) {
    exists n :: Occurs(n, doc.children) && ElementNamed(n, uri, local) && id in Ids(n)
  }

  lemma UnderIsUnderNamed(doc: Document, uri: Option<string>, local: string, id: nat)
    ensures id in Under(ElementTest(uri, local), doc.children) <==> UnderNamed(doc, id, uri, local)
  {
    var p := ElementTest(uri, local);
    assert forall n :: Passes(p, n) <==> ElementNamed(n, uri, local);
    hide Spots.Spots, Under, Occurs, ElementNamed, Passes, ElementTest;
    UnderMember(p, doc.children, [], id);
    if s :| s in AllSpots(doc) && Passes(p, s.node) && id in Ids(s.node) {
      OccursIsSpot(s.node, doc.children, []);
      assert ElementNamed(s.node, uri, local);
    }
    if n :| Occurs(n, doc.children) && ElementNamed(n, uri, local) && id in Ids(n) {
      OccursIsSpot(n, doc.children, []);
      var s :| s in AllSpots(doc) && s.node == n;
      assert Passes(p, s.node);
    }
  }

  /** `//name` selects the subtrees of all elements with that local name. */
  lemma NameSelects(doc: Document, chain: seq<Frame>, paths: Paths, name: string, id: nat)
    requires ':' !in name && '|' !in name
    ensures var r := Select(doc, chain, paths, "//" + name);
      r.Ok? && (r.value.Contains(id) <==> UnderNamed(doc, id, None, name))
  {
    FindNowhere(name, ':');
    assert ResolveTest(chain, name) == Ok(ElementTest(None, name));
    hide Under, ResolveTest, Select;
    SelectDescendants(doc, chain, paths, name, ElementTest(None, name));
    UnderIsUnderNamed(doc, None, name, id);
  }

  /** `//prefix:name` those of the namespace that the nearest declaration binds the prefix to, and it
      fails if there is none. */
  lemma PrefixedSelects(doc: Document, chain: seq<Frame>, paths: Paths, prefix: string, name: string, id: nat)
    requires ':' !in prefix && '|' !in prefix && '|' !in name
    ensures var r := Select(doc, chain, paths, "//" + (prefix + ":" + name));
      match Nearest(chain, prefix)
      case None => r == Err(InvalidUri)
      case Some(uri) => r.Ok? && (r.value.Contains(id) <==> UnderNamed(doc, id, Some(uri), name))
  {
    var q := prefix + ":" + name;
    ResolvePrefixed(chain, prefix, name);
    hide Under, Nearest, ResolveTest, Select;
    match Nearest(chain, prefix) {
      case None => UnresolvedSelects(doc, chain, paths, q);
      case Some(uri) =>
        SelectDescendants(doc, chain, paths, q, ElementTest(Some(uri), name));
        UnderIsUnderNamed(doc, Some(uri), name, id);
    }
  }

  lemma ResolvePrefixed(chain: seq<Frame>, prefix: string, name: string)
    requires ':' !in prefix
    ensures ResolveTest(chain, prefix + ":" + name) ==
      match Nearest(chain, prefix) case None => Err(InvalidUri) case Some(uri) => Ok(ElementTest(Some(uri), name))
  {
    hide Nearest;
    var q := prefix + ([':'] + name);
    FindBetween(prefix, ':', name);
    assert q == prefix + ":" + name && q[..|prefix|] == prefix && q[|prefix| + 1..] == name;
  }

  lemma UnresolvedSelects(doc: Document, chain: seq<Frame>, paths: Paths, q: string)
    requires '|' !in q && ResolveTest(chain, q) == Err(InvalidUri)
    ensures Select(doc, chain, paths, "//" + q) == Err(InvalidUri)
  {
    var expr := "//" + q;
    assert expr[2..] == q && '|' !in expr;
    NoUnion(expr, 0);
    hide SplitUnionFrom, ResolveTest;
  }

  // ---------------------------------------------------------------- both sides of `|`

  predicate AllBlanks(s: string) {
    forall i :: 0 <= i < |s| ==> Blank(s[i])
  }

  lemma {:induction false} TrimPadded(p: string, a: string, q: string)
    requires AllBlanks(p) && AllBlanks(q) && Trimmed(a)
    ensures Trim(p + a + q) == a
  {
    TrimFront(p, a + q);
    assert p + a + q == p + (a + q);
    assert (a + q)[0] == a[0];
    assert TrimStart(a + q) == a + q;
    TrimBack(a, q);
  }

  lemma {:induction false} TrimFront(p: string, s: string)
    requires AllBlanks(p)
    ensures TrimStart(p + s) == TrimStart(s)
  {
    if p == "" {
      assert p + s == s;
    } else {
      assert (p + s)[1..] == p[1..] + s;
      TrimFront(p[1..], s);
    }
  }

  lemma {:induction false} TrimBack(a: string, q: string)
    requires AllBlanks(q) && Trimmed(a)
    ensures TrimEnd(a + q) == a
    decreases |q|
  {
    if q == "" {
      assert a + q == a;
    } else {
      var s := a + q;
      assert s[..|s| - 1] == a + q[..|q| - 1] && s[|s| - 1] == q[|q| - 1];
      TrimBack(a, q[..|q| - 1]);
    }
  }

  lemma {:induction false} FirstBar(s: string, i: nat, k: nat)
    requires i <= k < |s| && UnionAt(s, k) && forall j :: i <= j < k ==> s[j] != '|'
    ensures SplitUnionFrom(s, i) == Some((Trim(s[..k]), Trim(s[k + 1..])))
    decreases k - i
  {
    if i < k {
      FirstBar(s, i + 1, k);
    }
  }

  /** `a | b` selects what either side selects, and fails if one of them does. */
  lemma UnionSelects(doc: Document, chain: seq<Frame>, paths: Paths, a: string, p: string, q: string, b: string, id: nat)
    requires Trimmed(a) && Trimmed(b) && AllBlanks(p) && AllBlanks(q)
    requires '|' !in a && Nesting(a + p, '[', ']') == 0 && Nesting(a + p, '(', ')') == 0
    ensures var r := Select(doc, chain, paths, a + p + "|" + q + b);
      var l, m := Select(doc, chain, paths, a), Select(doc, chain, paths, b);
      && (r.Ok? <==> l.Ok? && m.Ok?)
      && (r.Ok? ==> (r.value.Contains(id) <==> l.value.Contains(id) || m.value.Contains(id)))
  {
    var left, right := a + p, q + b;
    var expr, k := left + "|" + right, |left|;
    assert a + p + "|" + q + b == expr;
    assert expr[..k] == left && expr[k] == '|' && expr[k + 1..] == right;
    TrimPadded("", a, p);
    TrimPadded(q, b, "");
    assert "" + a + p == left && q + b + "" == right;
    NotBlankBar(p);
    forall j | 0 <= j < k ensures expr[j] != '|' {
      assert expr[j] == left[j] && (j < |a| ==> left[j] == a[j] && a[j] in a) && (j >= |a| ==> left[j] == p[j - |a|]);
    }
    FirstBar(expr, 0, k);
    TrimTrimmed(a);
    TrimTrimmed(b);
    assert expr != "/";
    SelectIsPlain(doc, chain, paths, a);
    SelectIsPlain(doc, chain, paths, b);
    hide SplitUnionFrom, Trim, Nesting;
    assert Select(doc, chain, paths, expr) == UnionOf(Select(doc, chain, paths, a), Select(doc, chain, paths, b));
  }

  lemma NotBlankBar(p: string)
    requires AllBlanks(p)
    ensures forall j :: 0 <= j < |p| ==> p[j] != '|'
  {
  }

  // ---------------------------------------------------------------- paths

  /** The element matches the step by name, `*` being any, by namespace and by predicate if it has them. */
  predicate Matches(holds: PredicateTest, n: Node, step: PathStep) {
    && n.Elem? && (step.name == "*" || n.elem.name.local == step.name)
    && (step.uri.Some? ==> UriOf(n.elem.name) == step.uri.value)
    && (step.guard.Some? ==> holds(n.elem, step.guard.value))
  }

  /** A path of elements down to `last`: one of the list that matches the first step, a child of that
      which matches the second, and so on. */
  ghost predicate Descends(holds: PredicateTest, ns: seq<Node>, steps: seq<PathStep>, last: Node)
    decreases |steps|
  {
    steps != [] && exists n :: n in ns && DescendsFrom(holds, n, steps, last)
  }

  ghost predicate DescendsFrom(holds: PredicateTest, n: Node, steps: seq<PathStep>, last: Node)
    requires steps != []
    decreases |steps|, 0
  {
    Matches(holds, n, steps[0]) && if |steps| == 1 then n == last else Descends(holds, n.children, steps[1..], last)
  }

  /** From the spot `s` on the steps lead up to `chain`. */
  predicate Climbs(holds: PredicateTest, s: Spot, steps: seq<PathStep>, chain: seq<Frame>) {
    && s.node.Elem? && |s.Path()| == |chain| + |steps| && s.Path()[|steps|..] == chain
    && forall i :: 0 <= i < |steps| ==> StepMatches(holds, s.Path()[|steps| - 1 - i].elem, steps[i])
  }

  lemma {:induction false} DescentClimbs(holds: PredicateTest, doc: Document, ns: seq<Node>, chain: seq<Frame>,
                                         steps: seq<PathStep>, last: Node) returns (s: Spot)
    requires (forall n :: n in ns ==> Spot(n, chain) in AllSpots(doc)) && Descends(holds, ns, steps, last)
    ensures s in AllSpots(doc) && s.node == last && Climbs(holds, s, steps, chain)
    decreases |steps|
  {
    hide Spots.Spots;
    var n :| n in ns && DescendsFrom(holds, n, steps, last);
    var top := Spot(n, chain);
    if |steps| == 1 {
      s := top;
    } else {
      forall c | c in n.children ensures Spot(c, top.Path()) in AllSpots(doc) {
        ChildSpot(doc.children, [], top, c);
      }
      s := DescentClimbs(holds, doc, n.children, top.Path(), steps[1..], last);
      var m, path := |steps| - 1, s.Path();
      assert path[m] == path[m..][0] && path[m + 1..] == path[m..][1..];
      forall i | 0 <= i < |steps| ensures StepMatches(holds, path[m - i].elem, steps[i]) {
        if i > 0 {
          assert steps[i] == steps[1..][i - 1];
        }
      }
    }
  }

  /** From an element that is reached after `k` steps and leads on to `last`, back to the top. */
  lemma {:induction false} ClimbDescends(holds: PredicateTest, doc: Document, s: Spot, k: nat, steps: seq<PathStep>, last: Node)
    requires s in AllSpots(doc) && s.node.Elem? && k < |steps| && |s.Path()| == k + 1
    requires forall i :: 0 <= i < k ==> StepMatches(holds, s.Path()[k - i].elem, steps[i])
    requires DescendsFrom(holds, s.node, steps[k..], last)
    ensures Descends(holds, doc.children, steps, last)
    decreases k
  {
    hide Spots.Spots, StepMatches;
    if k == 0 {
      AboveLength(doc.children, [], s);
      assert steps[0..] == steps;
    } else {
      var p := ParentSpot(doc.children, [], s);
      var path, up := s.Path(), p.Path();
      assert path == [Frame(s.node.id, s.node.elem)] + up;
      assert steps[k - 1..][1..] == steps[k..];
      assert Descends(holds, p.node.children, steps[k..], last);
      assert StepMatches(holds, path[1].elem, steps[k - 1]);
      StepIsMatch(holds, p.node, steps[k - 1]);
      forall i | 0 <= i < k - 1 ensures StepMatches(holds, up[k - 1 - i].elem, steps[i]) {
        assert path[k - i] == up[k - 1 - i];
      }
      ClimbDescends(holds, doc, p, k - 1, steps, last);
    }
  }

  lemma StepIsMatch(holds: PredicateTest, n: Node, step: PathStep)
    requires n.Elem?
    ensures StepMatches(holds, n.elem, step) <==> Matches(holds, n, step)
  {
  }

  lemma ReachedIsDescent(holds: PredicateTest, doc: Document, steps: seq<PathStep>, last: Node)
    ensures (steps != [] && exists s: Spot :: s.node == last && Reached(holds, doc, steps, s)) <==> Descends(holds, doc.children, steps, last)
  {
    hide Spots.Spots, StepMatches;
    if steps != [] {
      if s: Spot :| s.node == last && Reached(holds, doc, steps, s) {
        var k := |steps| - 1;
        assert StepMatches(holds, s.Path()[k - k].elem, steps[k]);
        StepIsMatch(holds, last, steps[k]);
        assert steps[k..] == [steps[k]];
        ClimbDescends(holds, doc, s, k, steps, last);
      }
      if Descends(holds, doc.children, steps, last) {
        forall n | n in doc.children ensures Spot(n, []) in AllSpots(doc) {
          TopSpot(doc.children, [], n);
        }
        var s := DescentClimbs(holds, doc, doc.children, [], steps, last);
        assert Reached(holds, doc, steps, s);
      }
    }
  }

  /** `/a/b/c` selects the subtrees of the elements that such a path ends at, and fails if it cannot
      be read. */
  lemma PathSelects(doc: Document, chain: seq<Frame>, paths: Paths, path: string, id: nat)
    requires path != "" && path[0] != '/' && '|' !in path
    ensures var r := Select(doc, chain, paths, "/" + path);
      match paths.parse(chain, path)
      case Err(e) => r == Err(e)
      case Ok(steps) =>
        r.Ok? && (r.value.Contains(id) <==> exists n :: Descends(paths.holds, doc.children, steps, n) && id in Ids(n))
  {
    var expr := "/" + path;
    assert expr[1..] == path && expr[1] != '/' && '|' !in expr;
    NoUnion(expr, 0);
    hide SplitUnionFrom, PathIds, Descends;
    match paths.parse(chain, path) {
      case Err(_) =>
      case Ok(steps) => PathIdsDescend(paths.holds, doc, steps, id);
    }
  }

  lemma PathIdsDescend(holds: PredicateTest, doc: Document, steps: seq<PathStep>, id: nat)
    ensures id in PathIds(holds, doc, steps) <==> exists n :: Descends(holds, doc.children, steps, n) && id in Ids(n)
  {
    hide Reached, Descends, AllSpots;
    if id in PathIds(holds, doc, steps) {
      var s :| s in AllSpots(doc) && steps != [] && Reached(holds, doc, steps, s) && id in Ids(s.node);
      ReachedIsDescent(holds, doc, steps, s.node);
    }
    if n :| Descends(holds, doc.children, steps, n) && id in Ids(n) {
      ReachedIsDescent(holds, doc, steps, n);
      var s: Spot :| s.node == n && Reached(holds, doc, steps, s);
      ReachedIsVisited(holds, doc, steps);
    }
  }

  /** `/` selects every node. */
  lemma RootSelects(doc: Document, chain: seq<Frame>, paths: Paths, id: nat)
    ensures var r := Select(doc, chain, paths, "/");
      r.Ok? && (r.value.Contains(id) <==> id == doc.rootId || exists n :: Occurs(n, doc.children) && n.id == id)
  {
    hide Spots.Spots, Occurs;
    if id in ForestIds(doc.children) {
      var s := IdsHaveSpots(doc.children, [], id);
      OccursIsSpot(s.node, doc.children, []);
    }
    if n :| Occurs(n, doc.children) && n.id == id {
      OccursIsSpot(n, doc.children, []);
      var s :| s in Spots.Spots(doc.children, []) && s.node == n;
      SpotIdsIn(doc.children, [], s);
    }
  }
}
