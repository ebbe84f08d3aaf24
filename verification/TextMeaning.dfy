/**
 Namespace preservation in terms of the characters written: whoever reads the canonical text
 finds the bindings of the source at every element.
 */
module TextMeaning {
  import opened Dom
  import opened Tokens
  import opened Canonical
  import opened Lexer
  import opened TagReader
  import opened NsPreservation
  import opened ExcPreservation
  import opened WellFormed

  lemma PrependUnseen(w: string, ts: seq<Token>, stack: seq<NsMap>)
    ensures Sights(Prepend(w, ts), stack) == Sights(ts, stack)
  {
    hide Sights;
    if w != "" {
      if ts != [] && ts[0].Chars? {
        assert ts == [ts[0]] + ts[1..];
        ReadPlain(ts[0], ts[1..], stack);
        ReadPlain(Chars(w + ts[0].text), ts[1..], stack);
      } else {
        ReadPlain(Chars(w), ts, stack);
      }
    }
  }

  /** Joining neighbouring text does not change what tags are seen. */
  lemma {:induction false} CoalesceUnseen(ts: seq<Token>, stack: seq<NsMap>)
    ensures Sights(Coalesce(ts), stack) == Sights(ts, stack)
  {
    if ts != [] {
      var t, rest := ts[0], ts[1..];
      assert ts == [t] + rest;
      if IsText(t) {
        CoalesceUnseen(rest, stack);
        hide Sights;
        PrependUnseen(TextOf(t), Coalesce(rest), stack);
        ReadPlain(t, rest, stack);
      } else {
        CoalesceUnseen(rest, if t.Start? then [Declared(Top(stack), t.decls)] + stack else if t.End? then Pop(stack) else stack);
        assert ([t] + Coalesce(rest))[1..] == Coalesce(rest);
      }
    }
  }

  lemma {:induction false} WellFormedUndeclaresNothing(ns: seq<Node>, chain: seq<Frame>)
    requires WellFormedForest(ns, chain)
    ensures NoUndeclarations(ns)
    decreases ns
  {
    if ns != [] {
      if ns[0].Elem? {
        var here := [Frame(ns[0].id, ns[0].elem)] + chain;
        WellDeclaredHere(ns[0].elem, here);
        WellFormedUndeclaresNothing(ns[0].children, here);
      }
      WellFormedUndeclaresNothing(ns[1..], chain);
    }
  }

  /** Inclusive canonical text of a well-formed document or a node set in it: the reader finds, element by element,
      exactly the namespaces in scope in the source, and no declaration is superfluous. */
  lemma InclusiveText(cfg: Config, doc: Document)
    requires !NsFiltered(cfg) && !cfg.mode.Exclusive? && WellFormedForest(doc.children, [])
    ensures var read := Lex(C14n(cfg, doc));
      read.Some? && Inners(Sights(read.value, [])) == Scopes(cfg, doc.children, [])
      && forall i :: 0 <= i < |Sights(read.value, [])| ==> Minimal(Sights(read.value, [])[i])
  {
    assert !Floats(cfg);
    hide Lex, Coalesce, Sights, Scopes, C14n, Canon, Minimal, Inners, WellFormedForest;
    CanonIsReadable(cfg, doc);
    CoalesceUnseen(Canon(cfg, doc), []);
    WellFormedUndeclaresNothing(doc.children, []);
    InclusivePreservesXml10(cfg, doc);
    InclusivePreservesNamespaces(cfg, doc);
  }

  /** Exclusive canonical text: every visibly utilized or listed prefix resolves as in the source,
      and no other prefix is declared. */
  lemma ExclusiveText(cfg: Config, doc: Document)
    requires !NsFiltered(cfg) && cfg.mode.Exclusive? && WellFormedForest(doc.children, [])
    ensures var read := Lex(C14n(cfg, doc));
      read.Some? && AllMeet(Sights(read.value, []), Needs(cfg, doc.children, []))
      && AllFrugal(Sights(read.value, []), Needs(cfg, doc.children, []))
  {
    assert !Floats(cfg);
    hide Lex, Coalesce, Sights, Needs, C14n, Canon, AllMeet, AllFrugal, WellFormedForest;
    CanonIsReadable(cfg, doc);
    CoalesceUnseen(Canon(cfg, doc), []);
    WellFormedUndeclaresNothing(doc.children, []);
    ExclusivePreservesXml10(cfg, doc);
    ExclusivePreservesNamespaces(cfg, doc);
  }
}
