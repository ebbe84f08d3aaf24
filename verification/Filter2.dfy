/**
 XPath Filter 2.0: selecting elements by path, and the run of set operations.
 */
module Filter2 {
  import opened Dom
  import opened NodeSets
  import opened Namespaces
  import opened Lexer
  import opened Spots
  import opened XPathText

  // ---------------------------------------------------------------- paths

  /** One step of an absolute path; a prefix that does not resolve matches any namespace. */
  datatype PathStep = PathStep(uri: Option<string>, name: string, guard: Option<string>)

  type PredicateTest = (Element, string) -> bool

  predicate StepMatches(holds: PredicateTest, e: Element, step: PathStep) {
    && (step.name == "*" || e.name.local == step.name)
    && (step.uri.Some? ==> UriOf(e.name) == step.uri.value)
    && (step.guard.Some? ==> holds(e, step.guard.value))
  }

  /** From the document element down to the node, each element matches its step. */
  predicate Reached(holds: PredicateTest, doc: Document, steps: seq<PathStep>, s: Spot) {
    && s in AllSpots(doc) && s.node.Elem? && |s.Path()| == |steps|
    && forall i :: 0 <= i < |steps| ==> StepMatches(holds, s.Path()[|steps| - 1 - i].elem, steps[i])
  }

  function TopElements(ns: seq<Node>): (r: seq<Spot>)
    ensures forall s :: s in r <==> s.node in ns && s.node.Elem? && s.above == []
  {
    if ns == [] then [] else (if ns[0].Elem? then [Spot(ns[0], [])] else []) + TopElements(ns[1..])
  }

  function ChildElements(ns: seq<Node>, path: seq<Frame>): (r: seq<Spot>)
    ensures forall s :: s in r <==> s.node in ns && s.node.Elem? && s.above == path
  {
    if ns == [] then [] else (if ns[0].Elem? then [Spot(ns[0], path)] else []) + ChildElements(ns[1..], path)
  }

  /** What a step looks at: the element itself for the first step, its children after that. */
  function Candidates(s: Spot, first: bool): (r: seq<Spot>)
    requires s.node.Elem?
    ensures forall c :: c in r ==> c.node.Elem?
  {
    if first then [s] else ChildElements(s.node.children, s.Path())
  }

  predicate Elements(spots: seq<Spot>) {
    forall i :: 0 <= i < |spots| ==> spots[i].node.Elem?
  }

  method EvaluatePathSteps(holds: PredicateTest, doc: Document, steps: seq<PathStep>) returns (current: seq<Spot>)
    ensures forall s :: s in current <==> steps != [] && Reached(holds, doc, steps, s)
  {
    if steps == [] {
      return [];
    }
    hide Reached;
    current := TopElements(doc.children);
    for k := 0 to |steps|
      invariant Elements(current)
      invariant k == 0 ==> current == TopElements(doc.children)
      invariant k > 0 ==> forall s :: s in current <==> Reached(holds, doc, steps[..k], s)
    {
      var matched := MatchLevel(holds, current, k == 0, steps[k]);
      forall s ensures s in matched <==> Reached(holds, doc, steps[..k + 1], s) {
        NextLevel(holds, doc, steps, k, current, s);
      }
      current := matched;
    }
    assert steps[..|steps|] == steps;
  }

  ghost predicate FromLevel(holds: PredicateTest, current: seq<Spot>, first: bool, step: PathStep, s: Spot)
    requires Elements(current)
  {
    exists i :: 0 <= i < |current| && s in Candidates(current[i], first) && StepMatches(holds, s.node.elem, step)
  }

  method MatchLevel(holds: PredicateTest, current: seq<Spot>, first: bool, step: PathStep) returns (matched: seq<Spot>)
    requires Elements(current)
    ensures Elements(matched)
    ensures forall s :: s in matched <==> FromLevel(holds, current, first, step, s)
  {
    hide StepMatches, Candidates;
    matched := [];
    for i := 0 to |current|
      invariant Elements(matched)
      invariant forall s :: s in matched <==> FromLevel(holds, current[..i], first, step, s)
    {
      var more := MatchCandidates(holds, Candidates(current[i], first), step);
      forall s ensures s in matched + more <==> FromLevel(holds, current[..i + 1], first, step, s) {
        LevelSnoc(holds, current, i, first, step, s);
      }
      matched := matched + more;
    }
    assert current[..|current|] == current;
  }

  method MatchCandidates(holds: PredicateTest, candidates: seq<Spot>, step: PathStep) returns (matched: seq<Spot>)
    requires Elements(candidates)
    ensures Elements(matched)
    ensures forall s :: s in matched <==> s in candidates && StepMatches(holds, s.node.elem, step)
  {
    hide StepMatches;
    matched := [];
    for j := 0 to |candidates|
      invariant Elements(matched)
      invariant forall s :: s in matched <==> s in candidates[..j] && StepMatches(holds, s.node.elem, step)
    {
      assert candidates[..j + 1] == candidates[..j] + [candidates[j]];
      if StepMatches(holds, candidates[j].node.elem, step) {
        matched := matched + [candidates[j]];
      }
    }
    assert candidates[..|candidates|] == candidates;
  }

  lemma LevelSnoc(holds: PredicateTest, current: seq<Spot>, i: nat, first: bool, step: PathStep, s: Spot)
    requires i < |current| && Elements(current)
    ensures FromLevel(holds, current[..i + 1], first, step, s) <==>
      FromLevel(holds, current[..i], first, step, s)
      || (s in Candidates(current[i], first) && StepMatches(holds, s.node.elem, step))
  {
    hide StepMatches, Candidates;
    var a, b := current[..i], current[..i + 1];
    assert forall j :: 0 <= j < i ==> a[j] == b[j];
    if FromLevel(holds, a, first, step, s) {
      var j :| 0 <= j < |a| && s in Candidates(a[j], first) && StepMatches(holds, s.node.elem, step);
      assert b[j] == a[j];
    }
    if s in Candidates(current[i], first) && StepMatches(holds, s.node.elem, step) {
      assert b[i] == current[i];
    }
  }

  /** One more step: the spots whose parent was reached and that match themselves. */
  lemma NextLevel(holds: PredicateTest, doc: Document, steps: seq<PathStep>, k: nat, current: seq<Spot>, s: Spot)
    requires k < |steps| && Elements(current)
    requires k == 0 ==> current == TopElements(doc.children)
    requires k > 0 ==> forall t :: t in current <==> Reached(holds, doc, steps[..k], t)
    ensures FromLevel(holds, current, k == 0, steps[k], s) <==> Reached(holds, doc, steps[..k + 1], s)
  {
    if k == 0 {
      FirstLevel(holds, doc, steps[0], s);
      assert steps[..1] == [steps[0]];
    } else {
      if FromLevel(holds, current, false, steps[k], s) {
        var i :| 0 <= i < |current| && s in Candidates(current[i], false) && StepMatches(holds, s.node.elem, steps[k]);
        LevelDown(holds, doc, steps, k, current[i], s);
      }
      if Reached(holds, doc, steps[..k + 1], s) {
        var p := LevelUp(holds, doc, steps, k, s);
        var i :| 0 <= i < |current| && current[i] == p;
      }
    }
  }

  lemma FirstLevel(holds: PredicateTest, doc: Document, step: PathStep, s: Spot)
    ensures FromLevel(holds, TopElements(doc.children), true, step, s) <==> Reached(holds, doc, [step], s)
  {
    var tops := TopElements(doc.children);
    if FromLevel(holds, tops, true, step, s) {
      assert s in tops;
      TopSpot(doc.children, [], s.node);
    }
    if Reached(holds, doc, [step], s) {
      AboveLength(doc.children, [], s);
      assert s in tops;
      var i :| 0 <= i < |tops| && tops[i] == s;
      assert StepMatches(holds, s.Path()[|[step]| - 1 - 0].elem, [step][0]);
      assert s in Candidates(tops[i], true);
    }
  }

  lemma LevelDown(holds: PredicateTest, doc: Document, steps: seq<PathStep>, k: nat, p: Spot, s: Spot)
    requires 0 < k < |steps| && Reached(holds, doc, steps[..k], p) && p.node.Elem?
    requires s in ChildElements(p.node.children, p.Path()) && StepMatches(holds, s.node.elem, steps[k])
    ensures Reached(holds, doc, steps[..k + 1], s)
  {
    hide StepMatches;
    ChildSpot(doc.children, [], p, s.node);
    var path, up, all := s.Path(), p.Path(), steps[..k + 1];
    assert path == [Frame(s.node.id, s.node.elem)] + up;
    forall i | 0 <= i < k + 1 ensures StepMatches(holds, path[k - i].elem, all[i]) {
      if i < k {
        assert path[k - i] == up[k - 1 - i] && all[i] == steps[..k][i];
      }
    }
  }

  lemma LevelUp(holds: PredicateTest, doc: Document, steps: seq<PathStep>, k: nat, s: Spot) returns (p: Spot)
    requires 0 < k < |steps| && Reached(holds, doc, steps[..k + 1], s)
    ensures Reached(holds, doc, steps[..k], p) && s in ChildElements(p.node.children, p.Path())
    ensures StepMatches(holds, s.node.elem, steps[k])
  {
    hide StepMatches;
    p := ParentSpot(doc.children, [], s);
    var path, up, all := s.Path(), p.Path(), steps[..k + 1];
    assert path == [Frame(s.node.id, s.node.elem)] + up;
    assert all[k] == steps[k] && path[0].elem == s.node.elem;
    assert StepMatches(holds, path[k - k].elem, all[k]);
    forall i | 0 <= i < k ensures StepMatches(holds, up[k - 1 - i].elem, steps[..k][i]) {
      assert StepMatches(holds, path[k - i].elem, all[i]);
      assert path[k - i] == up[k - 1 - i] && all[i] == steps[..k][i];
    }
  }

  // ---------------------------------------------------------------- expressions

  /** `|` outside brackets and parentheses, with something on both sides. */
  function Nesting(s: string, opening: char, closing: char): int {
    if s == "" then 0
    else
      var c := s[|s| - 1];
      Nesting(s[..|s| - 1], opening, closing) + (if c == opening then 1 else if c == closing then -1 else 0)
  }

  predicate UnionAt(s: string, i: nat) {
    && i < |s| && s[i] == '|' && Nesting(s[..i], '[', ']') == 0 && Nesting(s[..i], '(', ')') == 0
    && Trim(s[..i]) != "" && Trim(s[i + 1..]) != ""
  }

  function SplitUnionFrom(s: string, i: nat): (r: Option<(string, string)>)
    ensures r.Some? ==> |r.value.0| < |s| && |r.value.1| < |s|
    decreases |s| - i
  {
    if i >= |s| then None
    else if UnionAt(s, i) then Some((Trim(s[..i]), Trim(s[i + 1..])))
    else SplitUnionFrom(s, i + 1)
  }

  method SplitUnion(s: string) returns (r: Option<(string, string)>)
    ensures r == SplitUnionFrom(s, 0)
  {
    var brackets, parens := 0, 0;
    for i := 0 to |s|
      invariant brackets == Nesting(s[..i], '[', ']') && parens == Nesting(s[..i], '(', ')')
      invariant SplitUnionFrom(s, 0) == SplitUnionFrom(s, i)
    {
      assert s[..i + 1][..i] == s[..i];
      match s[i] {
        case '[' => brackets := brackets + 1;
        case ']' => brackets := brackets - 1;
        case '(' => parens := parens + 1;
        case ')' => parens := parens - 1;
        case '|' =>
          if brackets == 0 && parens == 0 {
            var left, right := Trim(s[..i]), Trim(s[i + 1..]);
            if left != "" && right != "" {
              return Some((left, right));
            }
          }
        case _ =>
      }
    }
    return None;
  }

  /** Selects elements by local name and, unless absent, by namespace URI. */
  function ElementTest(uri: Option<string>, local: string): NodeTest {
    (id: nat, e: Option<Element>) =>
      e.Some? && e.value.name.local == local && (uri.Some? ==> UriOf(e.value.name) == uri.value)
  }

  /** The name of a `//name` or `//prefix:name` expression, its prefix resolved nearest first. */
  function ResolveTest(chain: seq<Frame>, name: string): Result<NodeTest> {
    var k := Find(name, ':');
    if k == |name| then Ok(ElementTest(None, name))
    else
      match Nearest(chain, name[..k])
      case None => Err(InvalidUri)
      case Some(uri) => Ok(ElementTest(Some(uri), name[k + 1..]))
  }

  function UnionOf(l: Result<NodeSet>, r: Result<NodeSet>): Result<NodeSet> {
    if l.Err? then l else if r.Err? then r else Ok(l.value.Union(r.value))
  }

  /** How absolute paths are read: their steps, prefixes resolved, and the test for predicates. */
  datatype Paths = Paths(parse: (seq<Frame>, string) -> Result<seq<PathStep>>, holds: PredicateTest)

  /** The subtrees of the elements that a path reaches. */
  function PathIds(holds: PredicateTest, doc: Document, steps: seq<PathStep>): set<nat> {
    set s, id | s in AllSpots(doc) && steps != [] && Reached(holds, doc, steps, s) && id in Ids(s.node) :: id
  }

  /** Evaluation of a filter expression. */
  function Select(doc: Document, chain: seq<Frame>, paths: Paths, expr: string): Result<NodeSet>
    decreases |expr|
  {
    if expr == "/" then Ok(All(doc))
    else
      var u := SplitUnionFrom(expr, 0);
      if u.Some? then
        UnionOf(Select(doc, chain, paths, Trim(u.value.0)), Select(doc, chain, paths, Trim(u.value.1)))
      else if "//" <= expr then
        var t := ResolveTest(chain, expr[2..]);
        if t.Err? then Err(t.error) else Ok(FromIds(Under(t.value, doc.children)))
      else if "/" <= expr then
        var steps := paths.parse(chain, expr[1..]);
        if steps.Err? then Err(steps.error) else Ok(FromIds(PathIds(paths.holds, doc, steps.value)))
      else Err(UnsupportedAlgorithm)
  }

  /** How each step of a filter selects. */
  function Selecting(doc: Document, paths: Paths): Selector {
    (step: FilterStep) => Select(doc, step.chain, paths, step.expr)
  }

  /** The evaluation of an absolute path: every element reached adds its whole subtree. */
  method CollectPath(holds: PredicateTest, doc: Document, steps: seq<PathStep>) returns (ids: set<nat>)
    ensures ids == PathIds(holds, doc, steps)
  {
    hide Reached, AllSpots;
    var reached := EvaluatePathSteps(holds, doc, steps);
    var selection := new Selection({});
    for i := 0 to |reached|
      invariant forall id :: id in selection.ids <==> exists s :: s in reached[..i] && id in Ids(s.node)
    {
      assert reached[..i + 1] == reached[..i] + [reached[i]];
      ghost var before := selection.ids;
      SubtreeIdsComplete(reached[i].node);
      selection.CollectSubtree(reached[i].node, true);
      forall id ensures id in selection.ids <==> exists s :: s in reached[..i + 1] && id in Ids(s.node) {
        if id in before {
          var s :| s in reached[..i] && id in Ids(s.node);
          assert s in reached[..i + 1];
        } else if id in selection.ids {
          assert reached[i] in reached[..i + 1];
        }
      }
    }
    assert reached[..|reached|] == reached;
    ids := selection.ids;
    ReachedIsVisited(holds, doc, steps);
  }

  lemma ReachedIsVisited(holds: PredicateTest, doc: Document, steps: seq<PathStep>)
    ensures forall s :: Reached(holds, doc, steps, s) ==> s in AllSpots(doc)
  {
  }

  /** The loop behind `//name`: every match adds its whole subtree. */
  method CollectMatches(test: NodeTest, doc: Document) returns (ids: set<nat>)
    ensures ids == Under(test, doc.children)
  {
    var spots := AllSpots(doc);
    var selection := new Selection({});
    for i := 0 to |spots|
      invariant forall id :: id in selection.ids <==>
        exists s :: s in spots[..i] && Passes(test, s.node) && id in Ids(s.node)
    {
      assert spots[..i + 1] == spots[..i] + [spots[i]];
      ghost var before := selection.ids;
      if Passes(test, spots[i].node) {
        SubtreeIdsComplete(spots[i].node);
        selection.CollectSubtree(spots[i].node, true);
      }
      forall id ensures id in selection.ids <==> exists s :: s in spots[..i + 1] && Passes(test, s.node) && id in Ids(s.node) {
        if id in before {
          var s :| s in spots[..i] && Passes(test, s.node) && id in Ids(s.node);
          assert s in spots[..i + 1];
        } else if id in selection.ids {
          assert spots[i] in spots[..i + 1];
        }
      }
    }
    assert spots[..|spots|] == spots;
    ids := selection.ids;
    forall id ensures id in ids <==> id in Under(test, doc.children) {
      UnderMember(test, doc.children, [], id);
    }
  }

  // ---------------------------------------------------------------- the run

  /** An XPath child of the transform: its Filter attribute, its text, and the elements from it up,
      whose declarations bind the prefixes. */
  datatype FilterStep = FilterStep(op: string, expr: string, chain: seq<Frame>)

  type Selector = FilterStep -> Result<NodeSet>

  predicate KnownOp(op: string) {
    op == "intersect" || op == "subtract" || op == "union"
  }

  function Combine(f: NodeSet, op: string, s: NodeSet): NodeSet
    requires KnownOp(op)
  {
    if op == "intersect" then f.Intersection(s) else if op == "subtract" then f.Subtract(s) else f.Union(s)
  }

  /** The filter node set after the steps, or the first error. */
  function RunSteps(select: Selector, steps: seq<FilterStep>, f: NodeSet): Result<NodeSet> {
    if steps == [] then Ok(f)
    else
      var s := select(steps[0]);
      if s.Err? then s
      else if !KnownOp(steps[0].op) then Err(UnsupportedAlgorithm)
      else RunSteps(select, steps[1..], Combine(f, steps[0].op, s.value))
  }

  /** Of the input, what the steps select. */
  function FilterResult(select: Selector, input: Option<NodeSet>, doc: Document, steps: seq<FilterStep>): Result<NodeSet> {
    var run := RunSteps(select, steps, All(doc));
    if run.Err? then run else Ok((if input.Some? then input.value else All(doc)).Intersection(run.value))
  }

  method ApplyFilter2(select: Selector, input: Option<NodeSet>, doc: Document, steps: seq<FilterStep>)
    returns (result: Result<NodeSet>)
    ensures result == FilterResult(select, input, doc, steps)
  {
    var start := if input.Some? then input.value else All(doc);
    var filter := All(doc);
    for i := 0 to |steps|
      invariant RunSteps(select, steps, All(doc)) == RunSteps(select, steps[i..], filter)
    {
      var s := select(steps[i]);
      if s.Err? {
        return s;
      }
      assert steps[i..][1..] == steps[i + 1..];
      match steps[i].op {
        case "intersect" => filter := filter.Intersection(s.value);
        case "subtract" => filter := filter.Subtract(s.value);
        case "union" => filter := filter.Union(s.value);
        case _ => return Err(UnsupportedAlgorithm);
      }
    }
    return Ok(start.Intersection(filter));
  }

  /** Membership after the steps, as the filters are defined: a left fold of and, and-not, or. */
  predicate InFold(select: Selector, steps: seq<FilterStep>, id: nat, start: bool) {
    if steps == [] then start
    else
      var s := select(steps[0]);
      var there := s.Ok? && s.value.Contains(id);
      var next := if steps[0].op == "intersect" then start && there
                  else if steps[0].op == "subtract" then start && !there
                  else start || there;
      InFold(select, steps[1..], id, next)
  }

  /** Sets that list their members and leave namespace nodes alone. */
  ghost predicate PlainSets(select: Selector, steps: seq<FilterStep>) {
    forall i :: 0 <= i < |steps| ==> var s := select(steps[i]);
      s.Ok? ==> s.value.setType.Normal? && s.value.nsVisible.None? && !s.value.excludeAttrs
  }

  lemma {:induction false} RunIsFold(select: Selector, steps: seq<FilterStep>, f: NodeSet, id: nat)
    requires PlainSets(select, steps) && f.setType.Normal? && f.nsVisible.None? && !f.excludeAttrs
    ensures var run := RunSteps(select, steps, f);
      run.Ok? ==> && run.value.setType.Normal? && run.value.nsVisible.None? && !run.value.excludeAttrs
                  && (run.value.Contains(id) <==> InFold(select, steps, id, f.Contains(id)))
  {
    if steps != [] {
      var s, op := select(steps[0]), steps[0].op;
      if s.Ok? && KnownOp(op) {
        var next := Combine(f, op, s.value);
        assert forall i :: 0 <= i < |steps[1..]| ==> steps[1..][i] == steps[i + 1];
        RunIsFold(select, steps[1..], next, id);
      }
    }
  }

  /** The run fails exactly if some expression cannot be evaluated or some operation is unknown. */
  lemma {:induction false} RunFails(select: Selector, steps: seq<FilterStep>, f: NodeSet)
    ensures RunSteps(select, steps, f).Err? <==>
      exists i :: 0 <= i < |steps| && (select(steps[i]).Err? || !KnownOp(steps[i].op))
  {
    if steps != [] {
      var s, op, rest := select(steps[0]), steps[0].op, steps[1..];
      if s.Ok? && KnownOp(op) {
        RunFails(select, rest, Combine(f, op, s.value));
        assert forall i :: 0 < i < |steps| ==> steps[i] == rest[i - 1];
        if i :| 0 <= i < |rest| && (select(rest[i]).Err? || !KnownOp(rest[i].op)) {
          assert steps[i + 1] == rest[i];
        }
      }
    }
  }

  /** What a successful run leaves: of the input, the nodes that the fold of the set operations
      from all nodes selects; namespace nodes and attributes are as in the input. */
  lemma Filter2Selects(select: Selector, input: NodeSet, doc: Document, steps: seq<FilterStep>,
                       id: nat, prefix: string)
    requires PlainSets(select, steps) && input.setType.Normal?
    ensures var run := RunSteps(select, steps, All(doc));
      run.Ok? ==>
        var out := input.Intersection(run.value);
        && (out.Contains(id) <==> input.Contains(id) && InFold(select, steps, id, All(doc).Contains(id)))
        && (out.NsVisible(id, prefix) <==> input.NsVisible(id, prefix))
        && out.excludeAttrs == input.excludeAttrs
  {
    RunIsFold(select, steps, All(doc), id);
  }

  /** The sets that expressions select are plain, so the above applies to every run. */
  lemma {:induction false} SelectIsPlain(doc: Document, chain: seq<Frame>, paths: Paths, expr: string)
    ensures var s := Select(doc, chain, paths, expr);
      s.Ok? ==> s.value.setType.Normal? && s.value.nsVisible.None? && !s.value.excludeAttrs
    decreases |expr|
  {
    hide SplitUnionFrom, ResolveTest, Trim, PathIds, Under;
    var u := SplitUnionFrom(expr, 0);
    if expr != "/" && u.Some? {
      SelectIsPlain(doc, chain, paths, Trim(u.value.0));
      SelectIsPlain(doc, chain, paths, Trim(u.value.1));
    }
  }

  /** Every run of filters over such expressions: of the input, the nodes that the fold of the set
      operations selects; namespace nodes and attributes are as in the input. */
  lemma FilterRunSelects(doc: Document, paths: Paths, input: NodeSet, steps: seq<FilterStep>, id: nat, prefix: string)
    requires input.setType.Normal?
    ensures var select := Selecting(doc, paths);
      var run := RunSteps(select, steps, All(doc));
      run.Ok? ==>
        var out := input.Intersection(run.value);
        && (out.Contains(id) <==> input.Contains(id) && InFold(select, steps, id, All(doc).Contains(id)))
        && (out.NsVisible(id, prefix) <==> input.NsVisible(id, prefix)) && out.excludeAttrs == input.excludeAttrs
  {
    hide Select;
    SelectingIsPlain(doc, paths, steps);
    Filter2Selects(Selecting(doc, paths), input, doc, steps, id, prefix);
  }

  lemma SelectingIsPlain(doc: Document, paths: Paths, steps: seq<FilterStep>)
    ensures PlainSets(Selecting(doc, paths), steps)
  {
    hide Select;
    var select := Selecting(doc, paths);
    forall i | 0 <= i < |steps|
      ensures select(steps[i]).Ok? ==>
        var s := select(steps[i]).value; s.setType.Normal? && s.nsVisible.None? && !s.excludeAttrs
    {
      SelectIsPlain(doc, steps[i].chain, paths, steps[i].expr);
    }
  }
}
