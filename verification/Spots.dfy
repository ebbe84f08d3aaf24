/**
 The nodes of a document with their ancestors, and the agreement of walking up from a node
 with collecting subtrees from above.
 */
module Spots {
  import opened Dom

  /** A node and the elements above it, nearest first. */
  datatype Spot = Spot(node: Node, above: seq<Frame>) {
    /** The elements on the ancestor-or-self axis. */
    function Path(): seq<Frame> {
      Below(node, above)
    }
  }

  /** The nodes of a forest in document order. */
  function Spots(ns: seq<Node>, chain: seq<Frame>): seq<Spot>
    decreases ns, 0
  {
    if ns == [] then [] else NodeSpots(ns[0], chain) + Spots(ns[1..], chain)
  }

  function NodeSpots(n: Node, chain: seq<Frame>): seq<Spot>
    decreases n, 1
  {
    [Spot(n, chain)] + if n.Elem? then Spots(n.children, Below(n, chain)) else []
  }

  /** The ancestors of the children of `n`. */
  function Below(n: Node, chain: seq<Frame>): seq<Frame> {
    if n.Elem? then [Frame(n.id, n.elem)] + chain else chain
  }

  function AllSpots(doc: Document): seq<Spot> {
    Spots(doc.children, [])
  }

  lemma NodeSpotsMember(s: Spot, n: Node, chain: seq<Frame>)
    ensures s in NodeSpots(n, chain) <==>
      s == Spot(n, chain) || (n.Elem? && s in Spots(n.children, Below(n, chain)))
  {
  }

  lemma {:induction false} SpotIdsIn(ns: seq<Node>, chain: seq<Frame>, s: Spot)
    requires s in Spots(ns, chain)
    ensures Ids(s.node) <= ForestIds(ns) && s.node.id in ForestIds(ns)
    decreases ns
  {
    var n := ns[0];
    assert s.node.id in Ids(s.node);
    if s in NodeSpots(n, chain) {
      NodeSpotsMember(s, n, chain);
      if s != Spot(n, chain) {
        SpotIdsIn(n.children, Below(n, chain), s);
      }
    } else {
      SpotIdsIn(ns[1..], chain, s);
    }
  }

  lemma {:induction false} IdsHaveSpots(ns: seq<Node>, chain: seq<Frame>, id: nat) returns (s: Spot)
    requires id in ForestIds(ns)
    ensures s in Spots(ns, chain) && s.node.id == id
    decreases ns
  {
    var n := ns[0];
    if id == n.id {
      s := Spot(n, chain);
    } else if id in Ids(n) {
      s := IdsHaveSpots(n.children, Below(n, chain), id);
      NodeSpotsMember(s, n, chain);
    } else {
      s := IdsHaveSpots(ns[1..], chain, id);
    }
  }

  lemma {:induction false} SpotsUnique(ns: seq<Node>, chain: seq<Frame>, s: Spot, t: Spot)
    requires UniqueIds(ns) && s in Spots(ns, chain) && t in Spots(ns, chain) && s.node.id == t.node.id
    ensures s == t
    decreases ns
  {
    var n, rest, here := ns[0], ns[1..], Below(ns[0], chain);
    var a, b := s in NodeSpots(n, chain), t in NodeSpots(n, chain);
    NodeSpotsMember(s, n, chain);
    NodeSpotsMember(t, n, chain);
    hide NodeSpots;
    InNode(n, chain, s);
    InNode(n, chain, t);
    if !a {
      SpotIdsIn(rest, chain, s);
    }
    if !b {
      SpotIdsIn(rest, chain, t);
    }
    if a && b {
      if s != Spot(n, chain) && t != Spot(n, chain) {
        SpotsUnique(n.children, here, s, t);
      } else if s != Spot(n, chain) {
        SpotIdsIn(n.children, here, s);
      } else if t != Spot(n, chain) {
        SpotIdsIn(n.children, here, t);
      }
    } else if !a && !b {
      SpotsUnique(rest, chain, s, t);
    }
  }

  lemma InNode(n: Node, chain: seq<Frame>, s: Spot)
    ensures s in NodeSpots(n, chain) ==> s.node.id in Ids(n) && Ids(s.node) <= Ids(n)
  {
    if s in NodeSpots(n, chain) {
      NodeSpotsMember(s, n, chain);
      if s != Spot(n, chain) {
        SpotIdsIn(n.children, Below(n, chain), s);
      }
    }
  }

  // ---------------------------------------------------------------- up and down

  type NodeTest = (nat, Option<Element>) -> bool

  predicate Passes(p: NodeTest, n: Node) {
    p(n.id, if n.Elem? then Some(n.elem) else None)
  }

  /** Some element of the list passes. */
  predicate AnyFrame(p: NodeTest, chain: seq<Frame>) {
    exists i :: 0 <= i < |chain| && p(chain[i].id, Some(chain[i].elem))
  }

  /** Walking up from the node meets one that passes. */
  predicate PassesUp(p: NodeTest, s: Spot) {
    Passes(p, s.node) || AnyFrame(p, s.above)
  }

  /** The nodes at or below one that passes, collected from above. */
  function Under(p: NodeTest, ns: seq<Node>): set<nat>
    decreases ns, 0
  {
    if ns == [] then {} else UnderNode(p, ns[0]) + Under(p, ns[1..])
  }

  function UnderNode(p: NodeTest, n: Node): set<nat>
    decreases n, 1
  {
    if Passes(p, n) then Ids(n) else if n.Elem? then Under(p, n.children) else {}
  }

  lemma {:induction false} UnderWithin(p: NodeTest, ns: seq<Node>)
    ensures Under(p, ns) <= ForestIds(ns)
    decreases ns, 0
  {
    if ns != [] {
      UnderNodeWithin(p, ns[0]);
      UnderWithin(p, ns[1..]);
    }
  }

  lemma {:induction false} UnderNodeWithin(p: NodeTest, n: Node)
    ensures UnderNode(p, n) <= Ids(n)
    decreases n, 1
  {
    if n.Elem? {
      UnderWithin(p, n.children);
    }
  }

  lemma AnyFrameCons(p: NodeTest, f: Frame, chain: seq<Frame>)
    ensures AnyFrame(p, [f] + chain) <==> p(f.id, Some(f.elem)) || AnyFrame(p, chain)
  {
    var all := [f] + chain;
    assert all[0] == f;
    if AnyFrame(p, chain) {
      var i :| 0 <= i < |chain| && p(chain[i].id, Some(chain[i].elem));
      assert all[i + 1] == chain[i];
    }
  }

  /** Below a chain that passes, every walk up meets it. */
  lemma {:induction false} AboveStays(p: NodeTest, ns: seq<Node>, chain: seq<Frame>, s: Spot)
    requires s in Spots(ns, chain) && AnyFrame(p, chain)
    ensures AnyFrame(p, s.above)
    decreases ns
  {
    var n := ns[0];
    if s in NodeSpots(n, chain) {
      NodeSpotsMember(s, n, chain);
      if s != Spot(n, chain) {
        AnyFrameCons(p, Frame(n.id, n.elem), chain);
        AboveStays(p, n.children, Below(n, chain), s);
      }
    } else {
      AboveStays(p, ns[1..], chain, s);
    }
  }

  /** A walk up from a node meets one that passes exactly if the node lies in a subtree that
      collecting from above finds. */
  lemma {:induction false} UpIsDown(p: NodeTest, ns: seq<Node>, chain: seq<Frame>, s: Spot)
    requires UniqueIds(ns) && s in Spots(ns, chain) && !AnyFrame(p, chain)
    ensures PassesUp(p, s) <==> s.node.id in Under(p, ns)
    decreases ns, 0
  {
    hide NodeSpots, AnyFrame, Passes, UnderNode;
    var n := ns[0];
    InNode(n, chain, s);
    if s in NodeSpots(n, chain) {
      UnderWithin(p, ns[1..]);
      UpIsDownNode(p, n, chain, s);
    } else {
      UnderNodeWithin(p, n);
      SpotIdsIn(ns[1..], chain, s);
      UpIsDown(p, ns[1..], chain, s);
    }
  }

  lemma {:induction false} UpIsDownNode(p: NodeTest, n: Node, chain: seq<Frame>, s: Spot)
    requires UniqueNode(n) && s in NodeSpots(n, chain) && !AnyFrame(p, chain)
    ensures PassesUp(p, s) <==> s.node.id in UnderNode(p, n)
    decreases n, 1
  {
    hide AnyFrame, Under;
    NodeSpotsMember(s, n, chain);
    InNode(n, chain, s);
    hide NodeSpots;
    if s == Spot(n, chain) {
      if n.Elem? {
        UnderWithin(p, n.children);
      }
    } else {
      var f := Frame(n.id, n.elem);
      AnyFrameCons(p, f, chain);
      if Passes(p, n) {
        AboveStays(p, n.children, [f] + chain, s);
      } else {
        UpIsDown(p, n.children, [f] + chain, s);
      }
    }
  }

  /** Collecting the subtrees of all nodes that pass gives the same set. */
  lemma {:induction false} UnderMember(p: NodeTest, ns: seq<Node>, chain: seq<Frame>, id: nat)
    ensures id in Under(p, ns) <==> exists s :: s in Spots(ns, chain) && Passes(p, s.node) && id in Ids(s.node)
    decreases ns, 0
  {
    hide Passes;
    if ns != [] {
      hide NodeSpots, UnderNode;
      UnderNodeMember(p, ns[0], chain, id);
      UnderMember(p, ns[1..], chain, id);
      if id in UnderNode(p, ns[0]) {
        var s :| s in NodeSpots(ns[0], chain) && Passes(p, s.node) && id in Ids(s.node);
        assert s in Spots(ns, chain);
      } else if id in Under(p, ns[1..]) {
        var s :| s in Spots(ns[1..], chain) && Passes(p, s.node) && id in Ids(s.node);
        assert s in Spots(ns, chain);
      }
    }
  }

  lemma {:induction false} UnderNodeMember(p: NodeTest, n: Node, chain: seq<Frame>, id: nat)
    ensures id in UnderNode(p, n) <==> exists s :: s in NodeSpots(n, chain) && Passes(p, s.node) && id in Ids(s.node)
    decreases n, 1
  {
    hide Under, Spots, Passes;
    var here := Below(n, chain);
    if n.Elem? {
      UnderMember(p, n.children, here, id);
    }
    if Passes(p, n) && id in Ids(n) {
      assert Spot(n, chain) in NodeSpots(n, chain);
    } else if id in UnderNode(p, n) {
      var s :| s in Spots(n.children, here) && Passes(p, s.node) && id in Ids(s.node);
      NodeSpotsMember(s, n, chain);
    }
    if s :| s in NodeSpots(n, chain) && Passes(p, s.node) && id in Ids(s.node) {
      NodeSpotsMember(s, n, chain);
      InNode(n, chain, s);
      assert Passes(p, n) ==> id in UnderNode(p, n);
    }
  }

  // ---------------------------------------------------------------- parents and children

  lemma {:induction false} TopSpot(ns: seq<Node>, chain: seq<Frame>, n: Node)
    requires n in ns
    ensures Spot(n, chain) in Spots(ns, chain)
  {
    if ns[0] != n {
      assert n in ns[1..];
      TopSpot(ns[1..], chain, n);
    }
  }

  lemma {:induction false} ChildSpot(ns: seq<Node>, chain: seq<Frame>, s: Spot, c: Node)
    requires s in Spots(ns, chain) && s.node.Elem? && c in s.node.children
    ensures Spot(c, s.Path()) in Spots(ns, chain)
    decreases ns
  {
    var n := ns[0];
    if s in NodeSpots(n, chain) {
      NodeSpotsMember(s, n, chain);
      if s == Spot(n, chain) {
        TopSpot(n.children, Below(n, chain), c);
      } else {
        ChildSpot(n.children, Below(n, chain), s, c);
      }
      NodeSpotsMember(Spot(c, s.Path()), n, chain);
    } else {
      ChildSpot(ns[1..], chain, s, c);
    }
  }

  /** Every node is a child of the document node or has a parent that is visited too. */
  lemma {:induction false} ParentSpot(ns: seq<Node>, chain: seq<Frame>, s: Spot) returns (parent: Spot)
    requires s in Spots(ns, chain)
    ensures (s.node in ns && s.above == chain) ||
      (parent in Spots(ns, chain) && parent.node.Elem? && s.node in parent.node.children && s.above == parent.Path())
    decreases ns
  {
    var n := ns[0];
    parent := Spot(n, chain);
    if s in NodeSpots(n, chain) {
      NodeSpotsMember(s, n, chain);
      if s != Spot(n, chain) {
        var p := ParentSpot(n.children, Below(n, chain), s);
        if !(s.node in n.children && s.above == Below(n, chain)) {
          parent := p;
          NodeSpotsMember(p, n, chain);
        }
      }
    } else {
      parent := ParentSpot(ns[1..], chain, s);
    }
  }

  lemma {:induction false} AboveLength(ns: seq<Node>, chain: seq<Frame>, s: Spot)
    requires s in Spots(ns, chain)
    ensures |s.above| >= |chain| && (|s.above| == |chain| ==> s.node in ns && s.above == chain)
    decreases ns
  {
    var n := ns[0];
    if s in NodeSpots(n, chain) {
      NodeSpotsMember(s, n, chain);
      if s != Spot(n, chain) {
        AboveLength(n.children, Below(n, chain), s);
      }
    } else {
      AboveLength(ns[1..], chain, s);
    }
  }

  // ---------------------------------------------------------------- occurrence

  /** `n` is a node of the forest, at any depth. */
  predicate Occurs(n: Node, ns: seq<Node>)
    decreases ns, 0
  {
    ns != [] && (ns[0] == n || OccursBelow(n, ns[0]) || Occurs(n, ns[1..]))
  }

  predicate OccursBelow(n: Node, top: Node)
    decreases top, 1
  {
    top.Elem? && Occurs(n, top.children)
  }

  lemma {:induction false} OccursIds(n: Node, ns: seq<Node>)
    requires Occurs(n, ns)
    ensures Ids(n) <= ForestIds(ns)
    decreases ns
  {
    if ns[0] != n {
      if OccursBelow(n, ns[0]) {
        OccursIds(n, ns[0].children);
      } else {
        OccursIds(n, ns[1..]);
      }
    }
  }

  /** A node occurs in a forest exactly if some spot of it holds the node. */
  lemma {:induction false} OccursIsSpot(n: Node, ns: seq<Node>, chain: seq<Frame>)
    ensures Occurs(n, ns) <==> exists s :: s in Spots(ns, chain) && s.node == n
    decreases ns
  {
    if ns != [] {
      var top, rest := ns[0], ns[1..];
      OccursIsSpot(n, rest, chain);
      if top.Elem? {
        OccursIsSpot(n, top.children, Below(top, chain));
      }
      forall s ensures s in Spots(ns, chain) <==>
        s == Spot(top, chain) || (top.Elem? && s in Spots(top.children, Below(top, chain))) || s in Spots(rest, chain)
      {
        NodeSpotsMember(s, top, chain);
      }
      hide Spots, NodeSpots;
      if top == n {
        assert Spot(top, chain) in Spots(ns, chain);
      }
    }
  }
}
