/**
 Node sets: membership, set algebra, namespace-node visibility, and the constructors and
 in-place edits that walk a subtree.
 */
module NodeSets {
  import opened Dom

  datatype SetType = Normal | Invert | Tree | TreeWithoutComments | TreeInvert

  type Visibility = map<(nat, string), bool>

  datatype NodeSet = NodeSet(
    nodes: set<nat>,
    setType: SetType,
    nsVisible: Option<Visibility>,
    excludeAttrs: bool)
  {
    predicate Contains(id: nat) {
      if setType.Invert? then id !in nodes else id in nodes
    }

    predicate HasNsFilter() {
      nsVisible.Some?
    }

    predicate NsVisible(element: nat, prefix: string) {
      nsVisible.Some? ==> Shown(nsVisible.value, (element, prefix))
    }

    function Intersection(other: NodeSet): NodeSet {
      NodeSet(nodes * other.nodes, Normal, MeetOf(nsVisible, other.nsVisible),
              excludeAttrs || other.excludeAttrs)
    }

    function Union(other: NodeSet): NodeSet {
      NodeSet(nodes + other.nodes, Normal, JoinOf(nsVisible, other.nsVisible),
              excludeAttrs && other.excludeAttrs)
    }

    function Subtract(other: NodeSet): NodeSet {
      NodeSet(nodes - other.nodes, Normal, LessOf(nsVisible, other.nsVisible), excludeAttrs)
    }
  }

  function FromIds(ids: set<nat>): NodeSet {
    NodeSet(ids, Normal, None, false)
  }

  function All(doc: Document): NodeSet {
    FromIds({doc.rootId} + ForestIds(doc.children))
  }

  /** What `URI=""` selects. */
  function AllWithoutComments(doc: Document): NodeSet {
    FromIds({doc.rootId} + SubtreesIds(doc.children, false))
  }

  /** What walking a subtree collects. */
  function SubtreeIds(n: Node, comments: bool): set<nat>
    decreases n, 1
  {
    if !comments && n.Comment? then {}
    else {n.id} + if n.Elem? then SubtreesIds(n.children, comments) else {}
  }

  function SubtreesIds(ns: seq<Node>, comments: bool): set<nat>
    decreases ns, 0
  {
    if ns == [] then {} else SubtreeIds(ns[0], comments) + SubtreesIds(ns[1..], comments)
  }

  lemma {:induction false} SubtreesIdsConcat(a: seq<Node>, b: seq<Node>, comments: bool)
    ensures SubtreesIds(a + b, comments) == SubtreesIds(a, comments) + SubtreesIds(b, comments)
  {
    if a == [] {
      assert a + b == b;
    } else {
      assert (a + b)[1..] == a[1..] + b;
      SubtreesIdsConcat(a[1..], b, comments);
    }
  }

  /** With comments, a subtree walk collects every node of the subtree. */
  lemma {:induction false} SubtreeIdsComplete(n: Node)
    ensures SubtreeIds(n, true) == Ids(n)
    decreases n, 1
  {
    if n.Elem? {
      SubtreesIdsComplete(n.children);
    }
  }

  lemma {:induction false} SubtreesIdsComplete(ns: seq<Node>)
    ensures SubtreesIds(ns, true) == ForestIds(ns)
    decreases ns, 0
  {
    if ns != [] {
      SubtreeIdsComplete(ns[0]);
      SubtreesIdsComplete(ns[1..]);
    }
  }

  lemma {:induction false} SubtreeIdsWithin(n: Node, comments: bool)
    ensures SubtreeIds(n, comments) <= Ids(n)
    decreases n, 1
  {
    if n.Elem? {
      SubtreesIdsWithin(n.children, comments);
    }
  }

  lemma {:induction false} SubtreesIdsWithin(ns: seq<Node>, comments: bool)
    ensures SubtreesIds(ns, comments) <= ForestIds(ns)
    decreases ns, 0
  {
    if ns != [] {
      SubtreeIdsWithin(ns[0], comments);
      SubtreesIdsWithin(ns[1..], comments);
    }
  }

  // ---------------------------------------------------------------- namespace visibility

  predicate Shown(m: Visibility, k: (nat, string)) {
    k in m && m[k]
  }

  function Meet(a: Visibility, b: Visibility): Visibility {
    map k | k in a && a[k] && Shown(b, k) :: true
  }

  function Join(a: Visibility, b: Visibility): Visibility {
    map k | k in a.Keys + b.Keys && (k in a || b[k]) :: (k in a && a[k]) || Shown(b, k)
  }

  function Less(a: Visibility, b: Visibility): Visibility {
    map k | k in a.Keys + b.Keys && (k in a || b[k]) :: if Shown(b, k) then false else a[k]
  }

  function MeetOf(a: Option<Visibility>, b: Option<Visibility>): Option<Visibility> {
    if a.None? then b else if b.None? then a else Some(Meet(a.value, b.value))
  }

  function JoinOf(a: Option<Visibility>, b: Option<Visibility>): Option<Visibility> {
    if a.None? || b.None? then None else Some(Join(a.value, b.value))
  }

  function LessOf(a: Option<Visibility>, b: Option<Visibility>): Option<Visibility> {
    if b.None? then a else Some(Less(if a.Some? then a.value else map[], b.value))
  }

  /** Keeps the entries that are visible on both sides. */
  method MergeIntersection(a: Visibility, b: Visibility) returns (result: Visibility)
    ensures result == Meet(a, b)
  {
    result := map[];
    var keys := a.Keys;
    while keys != {}
      invariant keys <= a.Keys
      invariant result == map k | k in a.Keys - keys && a[k] && Shown(b, k) :: true
    {
      var k :| k in keys;
      if a[k] && k in b && b[k] {
        result := result[k := true];
      }
      keys := keys - {k};
    }
  }

  /** The union and the difference after the entries `done` of `b` were merged. */
  function JoinUpTo(a: Visibility, b: Visibility, done: set<(nat, string)>): Visibility {
    map k | k in a.Keys + b.Keys && (k in a || (k in done && b[k])) :: (k in a && a[k]) || (k in done && Shown(b, k))
  }

  function LessUpTo(a: Visibility, b: Visibility, done: set<(nat, string)>): Visibility {
    map k | k in a.Keys + b.Keys && (k in a || (k in done && b[k])) :: if k in done && Shown(b, k) then false else a[k]
  }

  lemma MergeStart(a: Visibility, b: Visibility)
    ensures JoinUpTo(a, b, {}) == a && LessUpTo(a, b, {}) == a
    ensures JoinUpTo(a, b, b.Keys) == Join(a, b) && LessUpTo(a, b, b.Keys) == Less(a, b)
  {
  }

  lemma JoinStep(a: Visibility, b: Visibility, done: set<(nat, string)>, k: (nat, string))
    requires k in b
    ensures JoinUpTo(a, b, done + {k}) == if b[k] then JoinUpTo(a, b, done)[k := true] else JoinUpTo(a, b, done)
  {
  }

  lemma LessStep(a: Visibility, b: Visibility, done: set<(nat, string)>, k: (nat, string))
    requires k in b
    ensures LessUpTo(a, b, done + {k}) == if b[k] then LessUpTo(a, b, done)[k := false] else LessUpTo(a, b, done)
  {
  }

  /** Adds the visible entries of `b` to `a`. */
  method MergeUnion(a: Visibility, b: Visibility) returns (result: Visibility)
    ensures result == Join(a, b)
  {
    hide JoinUpTo, LessUpTo, Join, Less;
    MergeStart(a, b);
    result := a;
    var keys := b.Keys;
    assert b.Keys - keys == {};
    while keys != {}
      invariant keys <= b.Keys
      invariant result == JoinUpTo(a, b, b.Keys - keys)
    {
      var k :| k in keys;
      JoinStep(a, b, b.Keys - keys, k);
      assert b.Keys - (keys - {k}) == b.Keys - keys + {k};
      if b[k] {
        result := result[k := true];
      }
      keys := keys - {k};
    }
    assert b.Keys - keys == b.Keys;
  }

  /** Hides the visible entries of `b` in `a`. */
  method MergeSubtract(a: Visibility, b: Visibility) returns (result: Visibility)
    ensures result == Less(a, b)
  {
    hide JoinUpTo, LessUpTo, Join, Less;
    MergeStart(a, b);
    result := a;
    var keys := b.Keys;
    assert b.Keys - keys == {};
    while keys != {}
      invariant keys <= b.Keys
      invariant result == LessUpTo(a, b, b.Keys - keys)
    {
      var k :| k in keys;
      LessStep(a, b, b.Keys - keys, k);
      assert b.Keys - (keys - {k}) == b.Keys - keys + {k};
      if b[k] {
        result := result[k := false];
      }
      keys := keys - {k};
    }
    assert b.Keys - keys == b.Keys;
  }

  /** Intersection and union are pointwise on nodes and on namespace nodes. */
  lemma IntersectionPointwise(a: NodeSet, b: NodeSet, id: nat, prefix: string)
    requires a.setType.Normal? && b.setType.Normal?
    ensures a.Intersection(b).Contains(id) <==> a.Contains(id) && b.Contains(id)
    ensures a.Intersection(b).NsVisible(id, prefix) <==> a.NsVisible(id, prefix) && b.NsVisible(id, prefix)
    ensures a.Union(b).Contains(id) <==> a.Contains(id) || b.Contains(id)
    ensures a.Union(b).NsVisible(id, prefix) <==> a.NsVisible(id, prefix) || b.NsVisible(id, prefix)
  {
  }

  /** The guard under which subtraction treats a namespace node as the difference of sets:
      both sides carry a map, or the entry is one the missing map cannot get wrong. */
  predicate SubtractsNsNode(a: NodeSet, b: NodeSet, id: nat, prefix: string) {
    match (a.nsVisible, b.nsVisible)
    case (Some(_), Some(_)) => true
    case (Some(ma), None) => !Shown(ma, (id, prefix))
    case (None, Some(mb)) => Shown(mb, (id, prefix))
    case (None, None) => false
  }

  /** Subtraction is the set difference on nodes; on namespace nodes exactly under the guard. */
  lemma SubtractPointwise(a: NodeSet, b: NodeSet, id: nat, prefix: string)
    requires a.setType.Normal? && b.setType.Normal?
    ensures a.Subtract(b).Contains(id) <==> a.Contains(id) && !b.Contains(id)
    ensures (a.Subtract(b).NsVisible(id, prefix) <==> a.NsVisible(id, prefix) && !b.NsVisible(id, prefix))
            <==> SubtractsNsNode(a, b, id, prefix)
  {
  }

  /** Without a map on the left, subtracting one namespace node hides every other one too. */
  lemma SubtractHidesTooMuch()
    ensures exists a: NodeSet, b: NodeSet ::
      && a.NsVisible(1, "q") && !b.NsVisible(1, "q")
      && !a.Subtract(b).NsVisible(1, "q")
  {
    var a := NodeSet({1}, Normal, None, false);
    var b := NodeSet({1}, Normal, Some(map[(1, "p") := true]), false);
    assert a.NsVisible(1, "q") && !b.NsVisible(1, "q") && !a.Subtract(b).NsVisible(1, "q");
  }

  // ---------------------------------------------------------------- edits in place

  /** A node set that is being filled or trimmed. */
  class Selection {
    var ids: set<nat>

    constructor (initial: set<nat>)
      ensures ids == initial
    {
      ids := initial;
    }

    method InsertId(id: nat)
      modifies this
      ensures ids == old(ids) + {id}
    {
      ids := ids + {id};
    }

    method RemoveId(id: nat)
      modifies this
      ensures ids == old(ids) - {id}
    {
      ids := ids - {id};
    }

    method CollectSubtree(n: Node, comments: bool)
      modifies this
      ensures ids == old(ids) + SubtreeIds(n, comments)
      decreases n
    {
      if !comments && n.Comment? {
        return;
      }
      InsertId(n.id);
      if n.Elem? {
        for i := 0 to |n.children|
          invariant ids == old(ids) + {n.id} + SubtreesIds(n.children[..i], comments)
        {
          CollectSubtree(n.children[i], comments);
          SubtreesIdsConcat(n.children[..i], [n.children[i]], comments);
          assert n.children[..i + 1] == n.children[..i] + [n.children[i]];
        }
        assert n.children[..|n.children|] == n.children;
      }
    }

    /** The enveloped-signature edit: the node and everything below it goes. */
    method RemoveSubtree(n: Node)
      modifies this
      ensures ids == old(ids) - Ids(n)
      decreases n
    {
      RemoveId(n.id);
      if n.Elem? {
        for i := 0 to |n.children|
          invariant ids == old(ids) - {n.id} - ForestIds(n.children[..i])
        {
          RemoveSubtree(n.children[i]);
          IdsOfConcat(n.children[..i], [n.children[i]]);
          assert n.children[..i + 1] == n.children[..i] + [n.children[i]];
        }
        assert n.children[..|n.children|] == n.children;
      }
    }
  }
}
