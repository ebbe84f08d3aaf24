/**
 Three ways to take a signature out of a node set: removing the Signature subtree, filtering
 by `not(ancestor-or-self::ds:Signature)`, and subtracting `//ds:Signature`.
 */
module DropSignature {
  import opened Dom
  import opened NodeSets
  import opened Namespaces
  import opened Lexer
  import opened Canonical
  import opened Edits
  import opened Spots
  import opened XPathText
  import opened XPathParser
  import opened XPathPrint
  import opened XPathEval
  import opened Filter2

  const SIGNATURE: string := "Signature"
  const NotInSignature: Expr := Not(AncestorOrSelf(DSIG_NS, SIGNATURE))
  const SignatureTest: NodeTest := ElementTest(Some(DSIG_NS), SIGNATURE)

  predicate IsSignature(n: Node) {
    n.Elem? && n.elem.name.local == SIGNATURE && UriOf(n.elem.name) == DSIG_NS
  }

  lemma PassesIsSignature(n: Node)
    ensures Passes(SignatureTest, n) <==> IsSignature(n)
  {
  }

  lemma FiltersOutUp(s: Spot)
    ensures Eval(NotInSignature, s) <==> !PassesUp(SignatureTest, s)
  {
    assert DSIG_NS != "";
    assert Eval(NotInSignature, s) <==> !AnyNamed(s.Path(), DSIG_NS, SIGNATURE);
    NamedIsFrame(s.above);
    hide Eval;
    if s.node.Elem? {
      AnyFrameCons(SignatureTest, Frame(s.node.id, s.node.elem), s.above);
      NamedIsFrame(s.Path());
    }
  }

  lemma NamedIsFrame(path: seq<Frame>)
    ensures AnyNamed(path, DSIG_NS, SIGNATURE) <==> AnyFrame(SignatureTest, path)
  {
    assert DSIG_NS != "";
    if AnyNamed(path, DSIG_NS, SIGNATURE) {
      var i :| 0 <= i < |path| && IsNamed(path[i].elem, DSIG_NS, SIGNATURE);
      assert SignatureTest(path[i].id, Some(path[i].elem));
    }
    if AnyFrame(SignatureTest, path) {
      var i :| 0 <= i < |path| && SignatureTest(path[i].id, Some(path[i].elem));
      assert IsNamed(path[i].elem, DSIG_NS, SIGNATURE);
    }
  }

  /** The nodes of the document that are in the input. */
  function InputNodes(input: Option<NodeSet>, doc: Document): set<nat> {
    set id | id in ForestIds(doc.children) && InInput(input, id)
  }

  function StartOf(input: Option<NodeSet>, doc: Document): NodeSet {
    if input.Some? then input.value else All(doc)
  }

  lemma FilterKeeps(doc: Document, input: Option<NodeSet>, s: Spot)
    requires UniqueIds(doc.children) && s in AllSpots(doc)
    ensures s.node.id in Kept(NotInSignature, input, AllSpots(doc)) <==>
      InInput(input, s.node.id) && s.node.id !in Under(SignatureTest, doc.children)
    ensures PassesUp(SignatureTest, s) <==> s.node.id in Under(SignatureTest, doc.children)
  {
    hide Eval, Spots.Spots, Under, InInput;
    FiltersOutUp(s);
    UpIsDown(SignatureTest, doc.children, [], s);
    if s.node.id in Kept(NotInSignature, input, AllSpots(doc)) {
      var t :| t in AllSpots(doc) && InInput(input, t.node.id) && Eval(NotInSignature, t) && t.node.id == s.node.id;
      SpotsUnique(doc.children, [], s, t);
    }
  }

  /** The second way: of any input, the filter keeps the nodes that collecting the signatures from
      above does not find, and drops what the input says about namespace nodes and attributes. */
  lemma FilterIsSubtraction(doc: Document, input: Option<NodeSet>)
    requires UniqueIds(doc.children)
    ensures Filtered(NotInSignature, input, doc) == FromIds(InputNodes(input, doc) - Under(SignatureTest, doc.children))
  {
    hide Eval, Spots.Spots, Under, InInput;
    var kept, spots := Kept(NotInSignature, input, AllSpots(doc)), AllSpots(doc);
    var under := Under(SignatureTest, doc.children);
    forall id ensures id in kept <==> id in InputNodes(input, doc) && id !in under {
      if id in kept {
        var s :| s in spots && Eval(NotInSignature, s) && s.node.id == id;
        FilterKeeps(doc, input, s);
        SpotIdsIn(doc.children, [], s);
      }
      if id in InputNodes(input, doc) && id !in under {
        var s := IdsHaveSpots(doc.children, [], id);
        FilterKeeps(doc, input, s);
      }
    }
  }

  /** The third way, run as a filter with one step: the same nodes of the document, but namespace
      nodes and attributes as in the input. */
  lemma SubtractionRuns(doc: Document, input: Option<NodeSet>, chain: seq<Frame>, paths: Paths, prefix: string)
    requires Plain(prefix) && ':' !in prefix && '|' !in prefix && Nearest(chain, prefix) == Some(DSIG_NS)
    requires WellIdentified(doc) && (input.Some? ==> input.value.setType.Normal?)
    ensures var expr := "//" + prefix + ":" + SIGNATURE;
      var run := RunSteps(Selecting(doc, paths), [FilterStep("subtract", expr, chain)], All(doc));
      && run.Ok?
      && var out := StartOf(input, doc).Intersection(run.value);
         && out.nsVisible == StartOf(input, doc).nsVisible && out.excludeAttrs == StartOf(input, doc).excludeAttrs
         && forall id :: id in ForestIds(doc.children) ==> (out.Contains(id) <==> Filtered(NotInSignature, input, doc).Contains(id))
  {
    var expr := "//" + prefix + ":" + SIGNATURE;
    var under := FromIds(Under(SignatureTest, doc.children));
    SelectSignatures(doc, chain, paths, prefix);
    FilterIsSubtraction(doc, input);
    hide Select, Under, Nearest, ForestIds, Filtered;
    var select := Selecting(doc, paths);
    assert [FilterStep("subtract", expr, chain)][1..] == [];
    assert RunSteps(select, [], All(doc).Subtract(under)) == Ok(All(doc).Subtract(under));
  }

  lemma SelectSignatures(doc: Document, chain: seq<Frame>, paths: Paths, prefix: string)
    requires Plain(prefix) && ':' !in prefix && '|' !in prefix && Nearest(chain, prefix) == Some(DSIG_NS)
    ensures Select(doc, chain, paths, "//" + prefix + ":" + SIGNATURE) == Ok(FromIds(Under(SignatureTest, doc.children)))
  {
    hide Under, Nearest;
    var name := prefix + ([':'] + SIGNATURE);
    FindBetween(prefix, ':', SIGNATURE);
    assert name[..|prefix|] == prefix && name[|prefix| + 1..] == SIGNATURE;
    assert ResolveTest(chain, name) == Ok(SignatureTest);
    assert '|' !in name;
    hide ResolveTest, Plain;
    SelectDescendants(doc, chain, paths, name, SignatureTest);
    assert "//" + prefix + ":" + SIGNATURE == "//" + name;
  }

  lemma SelectDescendants(doc: Document, chain: seq<Frame>, paths: Paths, name: string, test: NodeTest)
    requires ResolveTest(chain, name) == Ok(test) && '|' !in name
    ensures Select(doc, chain, paths, "//" + name) == Ok(FromIds(Under(test, doc.children)))
  {
    var expr := "//" + name;
    assert expr[2..] == name && '|' !in expr;
    NoUnion(expr, 0);
    hide SplitUnionFrom, ResolveTest, Under;
  }

  lemma {:induction false} NoUnion(s: string, i: nat)
    requires '|' !in s
    ensures SplitUnionFrom(s, i) == None
    decreases |s| - i
  {
    if i < |s| {
      assert s[i] in s;
      NoUnion(s, i + 1);
    }
  }

  // ---------------------------------------------------------------- one signature or several

  /** Every input node at or below a Signature element lies in `sig`. */
  ghost predicate InputOnlyIn(doc: Document, input: Option<NodeSet>, sig: Node) {
    forall s :: s in AllSpots(doc) && InInput(input, s.node.id) && PassesUp(SignatureTest, s) ==> s.node.id in Ids(sig)
  }

  /** The first way, on any input. */
  function Removed(input: Option<NodeSet>, doc: Document, sig: Node): NodeSet {
    StartOf(input, doc).(nodes := StartOf(input, doc).nodes - Ids(sig))
  }

  /** The sets hold the same nodes of the document. */
  ghost predicate SameNodes(a: NodeSet, b: NodeSet, doc: Document) {
    forall id :: id in ForestIds(doc.children) ==> (a.Contains(id) <==> b.Contains(id))
  }

  /** The first way keeps the same nodes of any input as the other two if and only if no input node
      lies in a signature outside the one that is processed; it keeps what the input says about
      namespace nodes and attributes, which the filter drops. */
  lemma RemovalIsFilter(doc: Document, input: Option<NodeSet>, at: Spot)
    requires WellIdentified(doc) && at in AllSpots(doc) && IsSignature(at.node) && (input.Some? ==> input.value.setType.Normal?)
    ensures SameNodes(Removed(input, doc, at.node), Filtered(NotInSignature, input, doc), doc) <==> InputOnlyIn(doc, input, at.node)
    ensures var a, b := Removed(input, doc, at.node), Filtered(NotInSignature, input, doc);
      && a.nsVisible == StartOf(input, doc).nsVisible && a.excludeAttrs == StartOf(input, doc).excludeAttrs
      && b.nsVisible.None? && !b.excludeAttrs
  {
    hide Eval, Spots.Spots, Under, Kept, PassesUp, InInput;
    var a, b := Removed(input, doc, at.node), Filtered(NotInSignature, input, doc);
    forall s | s in AllSpots(doc)
      ensures (a.Contains(s.node.id) <==> b.Contains(s.node.id)) <==>
        (InInput(input, s.node.id) && PassesUp(SignatureTest, s) ==> s.node.id in Ids(at.node))
    {
      RemovalHere(doc, input, at, s);
    }
    if InputOnlyIn(doc, input, at.node) {
      forall id | id in ForestIds(doc.children) ensures a.Contains(id) <==> b.Contains(id) {
        var s := IdsHaveSpots(doc.children, [], id);
      }
    }
    if SameNodes(a, b, doc) {
      forall s | s in AllSpots(doc) && InInput(input, s.node.id) && PassesUp(SignatureTest, s) ensures s.node.id in Ids(at.node) {
        SpotIdsIn(doc.children, [], s);
      }
    }
  }

  lemma RemovalHere(doc: Document, input: Option<NodeSet>, at: Spot, s: Spot)
    requires WellIdentified(doc) && at in AllSpots(doc) && IsSignature(at.node) && (input.Some? ==> input.value.setType.Normal?)
    requires s in AllSpots(doc)
    ensures (Removed(input, doc, at.node).Contains(s.node.id) <==> Filtered(NotInSignature, input, doc).Contains(s.node.id)) <==>
      (InInput(input, s.node.id) && PassesUp(SignatureTest, s) ==> s.node.id in Ids(at.node))
  {
    SpotIdsIn(doc.children, [], s);
    FilterKeeps(doc, input, s);
    PassesIsSignature(at.node);
    UnderMember(SignatureTest, doc.children, [], s.node.id);
    hide Eval, Spots.Spots, Under, Kept, PassesUp, ForestIds;
    assert s.node.id in Ids(at.node) ==> s.node.id in Under(SignatureTest, doc.children);
  }

  /** For a whole document the condition says that every Signature element lies in `sig`. */
  lemma WholeInput(doc: Document, at: Spot)
    requires WellIdentified(doc) && at in AllSpots(doc)
    ensures InputOnlyIn(doc, None, at.node) <==> forall s :: s in AllSpots(doc) && IsSignature(s.node) ==> s.node.id in Ids(at.node)
  {
    hide Spots.Spots, Under;
    if forall s :: s in AllSpots(doc) && IsSignature(s.node) ==> s.node.id in Ids(at.node) {
      forall s | s in AllSpots(doc) && PassesUp(SignatureTest, s) ensures s.node.id in Ids(at.node) {
        UpIsDown(SignatureTest, doc.children, [], s);
        UnderMember(SignatureTest, doc.children, [], s.node.id);
        var t :| t in AllSpots(doc) && Passes(SignatureTest, t.node) && s.node.id in Ids(t.node);
        PassesIsSignature(t.node);
        WithinSig(doc.children, [], at, t);
      }
    }
    if InputOnlyIn(doc, None, at.node) {
      forall s | s in AllSpots(doc) && IsSignature(s.node) ensures s.node.id in Ids(at.node) {
        PassesIsSignature(s.node);
        assert PassesUp(SignatureTest, s);
      }
    }
  }

  lemma {:induction false} WithinSig(ns: seq<Node>, chain: seq<Frame>, s: Spot, t: Spot)
    requires UniqueIds(ns) && s in Spots.Spots(ns, chain) && t in Spots.Spots(ns, chain)
    requires t.node.id in Ids(s.node)
    ensures Ids(t.node) <= Ids(s.node)
    decreases ns
  {
    var n, rest := ns[0], ns[1..];
    InNode(n, chain, s);
    InNode(n, chain, t);
    NodeSpotsMember(s, n, chain);
    NodeSpotsMember(t, n, chain);
    if t in NodeSpots(n, chain) {
      if s in NodeSpots(n, chain) {
        if s != Spot(n, chain) {
          SpotIdsIn(n.children, Below(n, chain), s);
          if t == Spot(n, chain) {
            assert false;
          }
          WithinSig(n.children, Below(n, chain), s, t);
        }
      } else {
        SpotIdsIn(rest, chain, s);
        assert false;
      }
    } else {
      SpotIdsIn(rest, chain, t);
      if s in NodeSpots(n, chain) {
        assert false;
      }
      WithinSig(rest, chain, s, t);
    }
  }

  /** Sets that hold the same nodes of the document, and say the same about the rest, give the same text. */
  lemma SameNodesSameText(mode: Mode, withComments: bool, a: NodeSet, b: NodeSet, doc: Document)
    requires WellIdentified(doc) && a.setType.Normal? && b.setType.Normal? && SameNodes(a, b, doc)
    requires a.nsVisible == b.nsVisible && a.excludeAttrs == b.excludeAttrs
    ensures C14n(Config(mode, withComments, Some(a)), doc) == C14n(Config(mode, withComments, Some(b)), doc)
  {
    AlikeSelf(doc.children, {});
    OutsideWithin(doc.children, {});
    QuietWithoutHoles(Some(a), doc.children, {});
    QuietWithoutHoles(Some(b), doc.children, {});
    hide Alike, Quiet, ForestIds, Outside, C14n;
    EditedCanon(mode, withComments, Some(a), Some(b), doc, doc, {});
  }

  // ---------------------------------------------------------------- the pattern shortcut

  /** Some element on the way up binds the prefix to the XML Signature namespace. */
  predicate BoundSomewhere(chain: seq<Frame>, prefix: string) {
    exists i :: 0 <= i < |chain| && Binding(prefix, DSIG_NS) in chain[i].elem.decls
  }

  const HEAD: string := "not(ancestor-or-self::"
  const TAIL: string := ":Signature)"

  predicate LooksEnveloped(s: string) {
    HEAD <= s && |s| >= |TAIL| && s[|s| - |TAIL|..] == TAIL
  }

  /** The test for the enveloped-signature pattern; no answer where cutting the prefix out of the
      text is out of range. */
  method IsEnvelopedXPath(expr: string, chain: seq<Frame>) returns (yes: Option<bool>)
    ensures var s := Trim(expr);
      yes == if !LooksEnveloped(s) then Some(false)
             else if |s| < |HEAD| + |TAIL| then None
             else Some(BoundSomewhere(chain, s[|HEAD|..|s| - |TAIL|]))
  {
    var s := Trim(expr);
    if !(HEAD <= s) || !(|s| >= |TAIL| && s[|s| - |TAIL|..] == TAIL) {
      return Some(false);
    }
    if |HEAD| > |s| - |TAIL| {
      return None;
    }
    var inner := s[|HEAD|..|s| - |TAIL|];
    for i := 0 to |chain|
      invariant forall k :: 0 <= k < i ==> Binding(inner, DSIG_NS) !in chain[k].elem.decls
    {
      var decls := chain[i].elem.decls;
      for j := 0 to |decls|
        invariant forall k :: 0 <= k < j ==> decls[k] != Binding(inner, DSIG_NS)
      {
        if decls[j].prefix == inner && decls[j].uri == DSIG_NS {
          assert Binding(inner, DSIG_NS) == decls[j];
          return Some(true);
        }
      }
    }
    return Some(false);
  }

  /** The one text that begins and ends like the pattern without room for a prefix is the
      unprefixed `not(ancestor-or-self::Signature)`. */
  lemma NoRoomForPrefix(s: string)
    ensures LooksEnveloped(s) && |s| < |HEAD| + |TAIL| <==> s == HEAD + "Signature)"
  {
    var bare := HEAD + "Signature)";
    assert |HEAD| == 22 && |TAIL| == 11 && |bare| == 32;
    if LooksEnveloped(s) && |s| < |HEAD| + |TAIL| {
      assert forall j :: 0 <= j < 22 ==> s[j] == HEAD[j];
      var k := |s| - |TAIL|;
      assert s[k] == s[k..][0] == ':';
      assert s[k] == HEAD[k];
      assert s[k + 1] == s[k..][1] == 'S';
      assert HEAD[k] == ':' ==> k == 20 || k == 21;
      assert k == 21;
      forall i | 0 <= i < 32 ensures s[i] == bare[i] {
        if i < 22 {
          assert s[i] == HEAD[i];
        } else {
          assert s[i] == s[k..][i - 21] == TAIL[i - 21];
        }
      }
    }
    if s == bare {
      assert bare[21..] == TAIL;
    }
  }

  /** `not(ancestor-or-self::name)` parses to what its name resolves to. */
  lemma ParseNotAncestor(env: Env, name: string)
    requires NumbersArePlain(env) && Plain(name) && ResolveName(env.chain, name).Some?
    ensures var r := ResolveName(env.chain, name).value;
      Parse(env, "not" + Paren("ancestor-or-self::" + name)) == Some(Not(AncestorOrSelf(r.0, r.1)))
  {
    var a := "ancestor-or-self::" + name;
    var r := ResolveName(env.chain, name).value;
    AxesArePlain();
    assert Plain(a);
    PlainPiece(a, 0);
    assert a[0] == 'a' && a[17] == ':' && ':' in a;
    assert a[1] == 'n' && a[2] == 'c';
    AtomicWords([a], [0, 0]);
    JoinOne(a);
    assert '(' !in name;
    JoinEnds([a]);
    hide Plain, ResolveName, XPathText.Join, Atomic, AllWords, Piece;
    ParseAtomic(env, [a]);
    AtomName(env, AncestorOrSelf(r.0, r.1), name);
    hide Parse, Atom;
    ParseNot(env, a);
  }

  /** When the shortcut is taken, parsing the expression instead gives the filter it stands for
      exactly if the nearest binding of the prefix is the one the shortcut found. */
  lemma ShortcutIsFilter(env: Env, prefix: string)
    requires NumbersArePlain(env) && Plain(prefix) && ':' !in prefix && BoundSomewhere(env.chain, prefix)
    ensures Parse(env, "not" + Paren("ancestor-or-self::" + (prefix + ":" + SIGNATURE))) == Some(NotInSignature)
            <==> Nearest(env.chain, prefix) == Some(DSIG_NS)
  {
    var name := prefix + ":" + SIGNATURE;
    BoundIsFound(env.chain, prefix);
    SignatureName(env.chain, prefix);
    hide *;
    ParseNotAncestor(env, name);
  }

  lemma SignatureName(chain: seq<Frame>, prefix: string)
    requires Plain(prefix) && ':' !in prefix && Nearest(chain, prefix).Some?
    ensures var name := prefix + ":" + SIGNATURE;
      Plain(name) && ResolveName(chain, name) == Some((Nearest(chain, prefix).value, SIGNATURE))
  {
    hide Nearest;
    var name := prefix + ([':'] + SIGNATURE);
    assert prefix + ":" + SIGNATURE == name;
    FindBetween(prefix, ':', SIGNATURE);
    assert name[..|prefix|] == prefix && name[|prefix| + 1..] == SIGNATURE;
  }

  lemma {:induction false} BoundIsFound(chain: seq<Frame>, prefix: string)
    requires BoundSomewhere(chain, prefix)
    ensures Nearest(chain, prefix).Some?
  {
    FirstDeclIndex(chain[0].elem.decls, prefix);
    if FirstDecl(chain[0].elem.decls, prefix).None? {
      var i :| 0 <= i < |chain| && Binding(prefix, DSIG_NS) in chain[i].elem.decls;
      assert i > 0 && chain[1..][i - 1] == chain[i];
      BoundIsFound(chain[1..], prefix);
    }
  }

  /** Taking the shortcut: where the nearest binding of the prefix is the one it found, the expression
      parses to the filter; removal keeps the nodes that filter keeps if and only if no input node
      lies in another signature; and then, unless the input speaks of namespace nodes or attributes,
      the canonical text is the same in every mode. */
  lemma ShortcutReplacesFilter(env: Env, prefix: string, doc: Document, input: Option<NodeSet>, at: Spot, mode: Mode, withComments: bool)
    requires NumbersArePlain(env) && Plain(prefix) && ':' !in prefix && Nearest(env.chain, prefix) == Some(DSIG_NS)
    requires BoundSomewhere(env.chain, prefix)
    requires WellIdentified(doc) && at in AllSpots(doc) && IsSignature(at.node) && (input.Some? ==> input.value.setType.Normal?)
    ensures var x := Parse(env, "not" + Paren("ancestor-or-self::" + (prefix + ":" + SIGNATURE)));
      && x.Some?
      && var a, b := Removed(input, doc, at.node), Filtered(x.value, input, doc);
         && (SameNodes(a, b, doc) <==> InputOnlyIn(doc, input, at.node))
         && (SameNodes(a, b, doc) && StartOf(input, doc).nsVisible.None? && !StartOf(input, doc).excludeAttrs ==>
               C14n(Config(mode, withComments, Some(a)), doc) == C14n(Config(mode, withComments, Some(b)), doc))
  {
    ShortcutIsFilter(env, prefix);
    RemovalIsFilter(doc, input, at);
    var a, b := Removed(input, doc, at.node), Filtered(NotInSignature, input, doc);
    assert a.setType.Normal? && b.setType.Normal?;
    hide *;
    if SameNodes(a, b, doc) && StartOf(input, doc).nsVisible.None? && !StartOf(input, doc).excludeAttrs {
      SameNodesSameText(mode, withComments, a, b, doc);
    }
  }

  /** A nearer element binds the prefix to something else: the shortcut is taken, but the expression
      filters by other elements. */
  lemma ShadowedPrefix(env: Env, inner: Element, outer: Element)
    requires NumbersArePlain(env) && env.chain == [Frame(1, inner), Frame(0, outer)]
    requires inner.decls == [Binding("p", "urn:other")] && outer.decls == [Binding("p", DSIG_NS)]
    ensures BoundSomewhere(env.chain, "p")
    ensures Parse(env, "not" + Paren("ancestor-or-self::" + ("p" + ":" + SIGNATURE))) != Some(NotInSignature)
  {
    assert env.chain[1].elem.decls[0] == Binding("p", DSIG_NS);
    assert FirstDecl(inner.decls, "p") == Some("urn:other");
    assert Nearest(env.chain, "p") == Some("urn:other");
    assert "urn:other"[0] == 'u' && DSIG_NS[0] == 'h';
    assert Plain("p");
    hide Nearest, Parse;
    ShortcutIsFilter(env, "p");
  }
}
