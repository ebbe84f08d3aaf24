/**
 Canonicalizing what was read from canonical text changes nothing.
 */
module Idempotence {
  import opened Dom
  import opened Ordering
  import opened Render
  import opened Tokens
  import opened Namespaces
  import opened Canonical
  import opened Lexer
  import opened TagReader
  import opened NsPreservation
  import opened ExcPreservation
  import opened WellFormed
  import opened TreeReader

  // ---------------------------------------------------------------- one tag, read and written again

  /** Reading a written name gives the parsed name back. */
  lemma ReadNameOf(n: Name, scope: NsMap, ctx: NsMap, isAttr: bool)
    requires WellNamed(n, scope, isAttr)
    requires n.prefix.None? && !isAttr ==> Get(ctx, "") == Get(scope, "")
    requires n.prefix.Some? && n.prefix.value != "xml" ==> Get(ctx, n.prefix.value) == Get(scope, n.prefix.value)
    ensures ReadName(Qualified(n.prefix, n.local), ctx, isAttr) == n
  {
    var q := Qualified(n.prefix, n.local);
    if n.prefix.None? {
      FindNowhere(q, ':');
    } else {
      var p := n.prefix.value;
      FindBetween(p, ':', n.local);
      assert q == p + ([':'] + n.local);
      assert q[..|p|] == p && q[|p| + 1..] == n.local;
      hide Find, NcName, Qualified;
    }
  }

  lemma LevelOfDecls(m: NsMap)
    ensures Level(Bindings(DeclList(m))) == m
    ensures UniquePrefixes(Bindings(DeclList(m)))
  {
    DeclListLists(m);
    hide DeclList, Level;
    var ds := DeclList(m);
    var bs := Bindings(ds);
    LevelKeys(bs);
    forall p | p in m ensures p in Level(bs) && Level(bs)[p] == m[p] {
      assert NsDecl(p, m[p]) in ds;
      var i :| 0 <= i < |ds| && ds[i] == NsDecl(p, m[p]);
      assert bs[i].prefix == p;
    }
    forall p | p in Level(bs) ensures p in m {
      var i :| 0 <= i < |bs| && bs[i].prefix == p;
      assert ds[i] in ds;
    }
  }

  lemma AttrReadBack(mode: Mode, a: Attribute, scope: NsMap, ctx: NsMap)
    requires WellNamed(a.name, scope, true)
    requires var p := AttrPrefix(mode, a); p.Some? && p.value != "xml" ==> Get(ctx, p.value) == Get(scope, p.value)
    ensures ReadAttr(Field(ToAttr(mode, a).qname, ToAttr(mode, a).value), ctx) == a
  {
    AttrPrefixIsOwn(mode, a, scope);
    hide WellNamed, ReadName;
    ReadNameOf(a.name, scope, ctx, true);
  }

  /** The attributes of the tag, read back, are the element's attributes in sorted order. */
  lemma AttrsReadBack(mode: Mode, attrs: seq<Attribute>, sorted: seq<Attr>, scope: NsMap, ctx: NsMap)
    requires WellAttributed(attrs, scope)
    requires forall x :: x in sorted <==> x in OwnAttrs(mode, attrs)
    requires forall p :: p in AttrPrefixes(mode, attrs) && p != "xml" ==> Get(ctx, p) == Get(scope, p)
    ensures var back := ReadAttrs(ToFields(sorted), ctx);
      && OwnAttrs(mode, back) == sorted
      && AttrPrefixes(mode, back) == AttrPrefixes(mode, attrs)
      && forall a :: a in back <==> a in attrs
  {
    hide WellNamed, ReadAttr, ToAttr, UniqueAttrs, AttrPrefix;
    var back := ReadAttrs(ToFields(sorted), ctx);
    var own := OwnAttrs(mode, attrs);
    forall i, k | 0 <= i < |sorted| && 0 <= k < |attrs| && sorted[i] == own[k] ensures back[i] == attrs[k] {
      assert AttrPrefix(mode, attrs[k]).Some? ==> AttrPrefix(mode, attrs[k]).value in AttrPrefixes(mode, attrs);
      AttrReadBack(mode, attrs[k], scope, ctx);
    }
    forall i | 0 <= i < |sorted| ensures ToAttr(mode, back[i]) == sorted[i] && back[i] in attrs {
      assert sorted[i] in sorted;
      var k :| 0 <= k < |own| && sorted[i] == own[k];
      assert back[i] == attrs[k];
    }
    forall k | 0 <= k < |attrs| ensures attrs[k] in back {
      assert own[k] in own;
      var i :| 0 <= i < |sorted| && sorted[i] == own[k];
      assert back[i] == attrs[k];
    }
    SamePrefixes(mode, back, attrs);
  }

  lemma SamePrefixes(mode: Mode, a: seq<Attribute>, b: seq<Attribute>)
    requires forall i :: 0 <= i < |a| ==> a[i] in b
    requires forall i :: 0 <= i < |b| ==> b[i] in a
    ensures AttrPrefixes(mode, a) == AttrPrefixes(mode, b)
  {
    hide AttrPrefix;
    forall p | p in AttrPrefixes(mode, a) ensures p in AttrPrefixes(mode, b) {
      var i :| 0 <= i < |a| && AttrPrefix(mode, a[i]) == Some(p);
      var k :| 0 <= k < |b| && b[k] == a[i];
      assert AttrPrefix(mode, b[k]) == Some(p);
    }
    forall p | p in AttrPrefixes(mode, b) ensures p in AttrPrefixes(mode, a) {
      var i :| 0 <= i < |b| && AttrPrefix(mode, b[i]) == Some(p);
      var k :| 0 <= k < |a| && a[k] == b[i];
      assert AttrPrefix(mode, a[k]) == Some(p);
    }
  }

  // ---------------------------------------------------------------- the second run keeps in step

  /** The first run is at `chain` with context `ctx`, its reader knows `known`, and the second
      run is at `chain2` with context `ctx2`. */
  ghost predicate Aligned(cfg: Config, chain: seq<Frame>, ctx: NsMap, known: NsMap, chain2: seq<Frame>, ctx2: NsMap) {
    && Effective(ctx) == known && Effective(ctx2) == known
    && if cfg.mode.Exclusive? then
         && (forall p :: p in known && p != "" ==> p in Inscope(false, chain))
         && Inscope(false, chain2) == known
       else
         && known == Scope(chain)
         && ("" in ctx ==> "" in Inscope(true, chain))
         && ctx2 == Inscope(true, chain2) && "xml" !in ctx2
  }

  function Again(cfg: Config, here: seq<Frame>, ctx: NsMap, known: NsMap): Element
    requires here != []
  {
    ReadTagElement(StartTag(cfg, here, ctx), Declared(known, StartTag(cfg, here, ctx).decls))
  }

  lemma ResolveInclusive(cfg: Config, here: seq<Frame>, ctx: NsMap, known: NsMap)
    requires here != [] && cfg.nodeSet.None? && !cfg.mode.Exclusive? && NoUndeclaration(here[0].elem)
    requires Effective(ctx) == known == Scope(here[1..]) && ("" in ctx ==> "" in Inscope(true, here[1..]))
    ensures Declared(known, StartTag(cfg, here, ctx).decls) == Scope(here)
  {
    hide StartTag, Declared;
    assert here == [here[0]] + here[1..];
    InscopeGrows(true, here[1..], here[0]);
    InscopeValues(true, here);
    InclusiveTag(cfg, here, ctx, [known]);
    hide Inscope;
    assert StillBound(known, Scope(here));
  }

  lemma ResolveExclusive(cfg: Config, here: seq<Frame>, ctx: NsMap, known: NsMap)
    requires here != [] && cfg.nodeSet.None? && cfg.mode.Exclusive? && NoUndeclaration(here[0].elem)
    requires Effective(ctx) == known
    requires forall p :: p in known && p != "" ==> p in Inscope(false, here[1..])
    ensures forall p :: p in Utilized(cfg.mode, here[0].elem) && p != "xml" ==>
      Get(Declared(known, StartTag(cfg, here, ctx).decls), p) == Get(Scope(here), p)
  {
    ShownGrows(here);
    hide StartTag, ChildCtx, Declared, Utilized, Inscope, Effective, Frugal, NewlyBound;
    var bound := set p | p in known && p != "";
    ExclusiveTag(cfg, here, ctx, [known], bound);
    NothingLost(Utilized(cfg.mode, here[0].elem), Inscope(false, here), bound);
  }

  lemma NothingLost(used: set<string>, shown: NsMap, bound: set<string>)
    requires forall p :: p in bound ==> p != "" && p != "xml" && p in shown && shown[p] != ""
    ensures Usable(Need(used - {"xml"}, Effective(shown)), bound)
  {
  }

  /** A prefix known above is in scope here, and bound to something. */
  lemma ShownGrows(here: seq<Frame>)
    requires here != [] && NoUndeclaration(here[0].elem)
    ensures forall p :: p in Inscope(false, here[1..]) && p != "" ==> p in Inscope(false, here)
    ensures forall p :: p in Inscope(false, here) ==> Inscope(false, here)[p] != ""
    ensures Scope(here) == Effective(Inscope(false, here))
  {
    assert here == [here[0]] + here[1..];
    InscopeGrows(false, here[1..], here[0]);
    InscopeValues(false, here);
    EffectiveAgrees(here);
  }

  /** What a tag leaves its reader knowing suffices to resolve the names in it. */
  lemma NamesResolve(cfg: Config, here: seq<Frame>, ctx: NsMap, known: NsMap)
    requires here != [] && cfg.nodeSet.None? && NoUndeclaration(here[0].elem)
    requires Effective(ctx) == known
    requires if cfg.mode.Exclusive? then forall p :: p in known && p != "" ==> p in Inscope(false, here[1..])
             else known == Scope(here[1..]) && ("" in ctx ==> "" in Inscope(true, here[1..]))
    ensures var inner := Declared(known, StartTag(cfg, here, ctx).decls);
      && (!cfg.mode.Exclusive? ==> inner == Scope(here))
      && (cfg.mode.Exclusive? ==> forall p :: p in Utilized(cfg.mode, here[0].elem) && p != "xml" ==>
            Get(inner, p) == Get(Scope(here), p))
      && Resolved(cfg.mode, here, inner)
  {
    hide StartTag, Declared, Scope, Inscope;
    if cfg.mode.Exclusive? {
      ResolveExclusive(cfg, here, ctx, known);
    } else {
      ResolveInclusive(cfg, here, ctx, known);
    }
  }

  /** The prefixes of an element and its attributes mean the same to the reader. */
  ghost predicate Resolved(mode: Mode, here: seq<Frame>, inner: NsMap)
    requires here != []
  {
    forall p :: (p == ElementPrefix(here[0].elem) || p in AttrPrefixes(mode, here[0].elem.attrs)) && p != "xml" ==>
      Get(inner, p) == Get(Scope(here), p)
  }

  lemma DeclsAgainInclusive(shown: NsMap, ctx: NsMap, again: NsMap)
    requires Effective(ctx) == Effective(again) && "xml" !in again
    requires forall p :: p in shown && shown[p] == "" ==> p == ""
    ensures var m := Changed(shown, ctx);
      && MergeLevel(true, again, m) == again + m
      && Changed(again + m, again) == m
      && "xml" !in again + m
  {
    var m := Changed(shown, ctx);
    forall p | p in m ensures Get(again, p) != Some(m[p]) && (m[p] != "" || p in again) {
      assert Get(Effective(ctx), p) == Get(Effective(again), p);
      if m[p] == "" {
        assert p in ctx && ctx[p] != "" && p in Effective(ctx);
      }
    }
  }

  lemma DeclsAgainExclusive(used: set<string>, shown: NsMap, ctx: NsMap, ctx2: NsMap, known: NsMap)
    requires Effective(ctx) == known && Effective(ctx2) == known
    requires forall p :: p in shown ==> shown[p] != ""
    requires var inner := Effective(ctx + ExclusiveDecls(used, shown, ctx));
      forall p :: p in used && p != "xml" ==> Get(inner, p) == Get(Effective(shown), p)
    ensures var m := ExclusiveDecls(used, shown, ctx); var inner := Effective(ctx + m);
      && MergeLevel(false, known, m) == inner
      && ExclusiveDecls(used, inner, ctx2) == m
  {
    var m := ExclusiveDecls(used, shown, ctx);
    var inner := Effective(ctx + m);
    var again := ExclusiveDecls(used, inner, ctx2);
    forall p ensures Get(again, p) == Get(m, p) {
      SameChoice(used, shown, inner, ctx, ctx2, p);
    }
    SameEntries(again, m);
    forall p ensures Get(MergeLevel(false, known, m), p) == Get(inner, p) {
    }
    SameEntries(MergeLevel(false, known, m), inner);
  }

  /** Whether a prefix is declared depends only on what it means and what the reader knows. */
  lemma SameChoice(used: set<string>, shown: NsMap, inner: NsMap, ctx: NsMap, ctx2: NsMap, p: string)
    requires Effective(ctx) == Effective(ctx2)
    requires forall q :: q in shown ==> shown[q] != ""
    requires forall q :: q in inner ==> inner[q] != ""
    requires p in used && p != "xml" ==> Get(inner, p) == Get(Effective(shown), p)
    ensures Get(ExclusiveDecls(used, inner, ctx2), p) == Get(ExclusiveDecls(used, shown, ctx), p)
  {
    if p in used && p != "xml" {
      assert Get(Effective(ctx), p) == Get(Effective(ctx2), p);
      assert p in shown <==> p in inner;
    }
  }

  lemma InclusiveAgain(cfg: Config, here: seq<Frame>, ctx: NsMap, known: NsMap, here2: seq<Frame>, ctx2: NsMap)
    requires here != [] && here2 != [] && cfg.nodeSet.None? && !cfg.mode.Exclusive?
    requires Aligned(cfg, here[1..], ctx, known, here2[1..], ctx2)
    requires Level(here2[0].elem.decls) == TagDecls(cfg, here, ctx)
    requires Declared(known, StartTag(cfg, here, ctx).decls) == Scope(here)
    ensures TagDecls(cfg, here2, ctx2) == TagDecls(cfg, here, ctx)
    ensures Aligned(cfg, here, ChildCtx(cfg, here, ctx), Scope(here), here2, ChildCtx(cfg, here2, ctx2))
  {
    var shown, m := Inscope(true, here), TagDecls(cfg, here, ctx);
    InclusiveTag(cfg, here, ctx, [known]);
    InscopeValues(true, here);
    assert Inscope(true, here2) == MergeLevel(true, ctx2, m);
    hide Inscope, Declared, DeclList, StartTag, Changed, Effective, WithoutXml;
    DeclsAgainInclusive(shown, ctx, ctx2);
    WholeContext(ctx2, m);
    assert ChildCtx(cfg, here2, ctx2) == ctx2 + m;
    KnownAgain(known, ctx2, m, StartTag(cfg, here, ctx).decls);
  }

  lemma WholeContext(ctx: NsMap, m: NsMap)
    requires "xml" !in ctx + m
    ensures ctx + WithoutXml(ctx + m) == ctx + m
  {
  }

  lemma KnownAgain(known: NsMap, ctx2: NsMap, m: NsMap, decls: seq<NsDecl>)
    requires Effective(ctx2) == known && "xml" !in m && decls == DeclList(m)
    ensures Effective(ctx2 + m) == Declared(known, decls)
  {
    DeclaredIsEffective(ctx2, m);
  }

  lemma ExclusiveAgain(cfg: Config, here: seq<Frame>, ctx: NsMap, known: NsMap, here2: seq<Frame>, ctx2: NsMap)
    requires here != [] && here2 != [] && cfg.nodeSet.None? && cfg.mode.Exclusive?
    requires NoUndeclaration(here[0].elem)
    requires Aligned(cfg, here[1..], ctx, known, here2[1..], ctx2)
    requires Level(here2[0].elem.decls) == TagDecls(cfg, here, ctx)
    requires Utilized(cfg.mode, here2[0].elem) == Utilized(cfg.mode, here[0].elem)
    requires forall p :: p in Utilized(cfg.mode, here[0].elem) && p != "xml" ==>
      Get(Declared(known, StartTag(cfg, here, ctx).decls), p) == Get(Scope(here), p)
    ensures TagDecls(cfg, here2, ctx2) == TagDecls(cfg, here, ctx)
    ensures Aligned(cfg, here, ChildCtx(cfg, here, ctx), Declared(known, StartTag(cfg, here, ctx).decls),
                    here2, ChildCtx(cfg, here2, ctx2))
  {
    var shown, used := Inscope(false, here), Utilized(cfg.mode, here[0].elem);
    ShownGrows(here);
    ExclusiveParts(cfg, here, ctx);
    ExclusiveParts(cfg, here2, ctx2);
    assert Inscope(false, here2) == MergeLevel(false, Inscope(false, here2[1..]), Level(here2[0].elem.decls));
    hide Inscope, DeclList, Declared, Utilized, Effective, ExclusiveDecls, MergeLevel, TagDecls, ChildCtx, StartTag, Scope, Level;
    ExclusiveMaps(used, shown, ctx, ctx2, known);
  }

  /** A tag and its context without a node set, as maps. */
  lemma ExclusiveParts(cfg: Config, here: seq<Frame>, ctx: NsMap)
    requires here != [] && cfg.nodeSet.None? && cfg.mode.Exclusive?
    ensures TagDecls(cfg, here, ctx) == ExclusiveDecls(Utilized(cfg.mode, here[0].elem), Inscope(false, here), ctx)
    ensures ChildCtx(cfg, here, ctx) == ctx + TagDecls(cfg, here, ctx)
    ensures StartTag(cfg, here, ctx).decls == DeclList(TagDecls(cfg, here, ctx))
  {
    hide Inscope, DeclList, Utilized, ExclusiveDecls;
  }

  lemma ExclusiveMaps(used: set<string>, shown: NsMap, ctx: NsMap, ctx2: NsMap, known: NsMap)
    requires Effective(ctx) == known && Effective(ctx2) == known
    requires forall p :: p in shown ==> shown[p] != ""
    requires forall p :: p in known && p != "" ==> p in shown
    requires var m := ExclusiveDecls(used, shown, ctx);
      forall p :: p in used && p != "xml" ==> Get(Declared(known, DeclList(m)), p) == Get(Effective(shown), p)
    ensures var m := ExclusiveDecls(used, shown, ctx); var inner := Declared(known, DeclList(m));
      && MergeLevel(false, known, m) == inner
      && ExclusiveDecls(used, inner, ctx2) == m
      && Effective(ctx + m) == inner && Effective(ctx2 + m) == inner
      && forall p :: p in inner && p != "" ==> p in shown
  {
    var m := ExclusiveDecls(used, shown, ctx);
    ExclusiveMeaning(used, shown, ctx);
    hide DeclList, Declared, Effective, ExclusiveDecls, MergeLevel;
    KnownAgain(known, ctx, m, DeclList(m));
    KnownAgain(known, ctx2, m, DeclList(m));
    DeclsAgainExclusive(used, shown, ctx, ctx2, known);
    KnownInScope(used, shown, ctx, known);
  }

  lemma KnownInScope(used: set<string>, shown: NsMap, ctx: NsMap, known: NsMap)
    requires Effective(ctx) == known
    requires forall p :: p in known && p != "" ==> p in shown
    ensures forall p :: p in Effective(ctx + ExclusiveDecls(used, shown, ctx)) && p != "" ==> p in shown
  {
    forall p | p in Effective(ctx + ExclusiveDecls(used, shown, ctx)) && p != "" ensures p in shown {
      if p !in ExclusiveDecls(used, shown, ctx) {
        assert p in known;
      }
    }
  }

  /** Names and attributes survive the round through the text. */
  lemma SameNames(cfg: Config, here: seq<Frame>, ctx: NsMap, known: NsMap, here2: seq<Frame>)
    requires here != [] && cfg.nodeSet.None? && WellFormedElement(here[0].elem, here)
    requires here2 != [] && here2[0].elem == Again(cfg, here, ctx, known)
    requires Resolved(cfg.mode, here, Declared(known, StartTag(cfg, here, ctx).decls))
    ensures var e2 := here2[0].elem;
      && e2.name == here[0].elem.name
      && AttrPrefixes(cfg.mode, e2.attrs) == AttrPrefixes(cfg.mode, here[0].elem.attrs)
      && (forall a :: a in e2.attrs <==> a in here[0].elem.attrs)
      && e2.decls == Bindings(DeclList(TagDecls(cfg, here, ctx)))
      && TagAttrs(cfg, here2) == TagAttrs(cfg, here)
  {
    var t := StartTag(cfg, here, ctx);
    var e := here[0].elem;
    var inner := Declared(known, t.decls);
    WholeAttrs(cfg, here);
    var sorted := TagAttrs(cfg, here);
    hide TagDecls, DeclList, Declared, TagAttrs, Scope, OwnAttrs, ReadName;
    AttrsReadBack(cfg.mode, e.attrs, sorted, Scope(here), inner);
    ReadNameOf(e.name, Scope(here), inner, false);
    SortOfStrict(AttrLe, sorted);
    SortedAgain(cfg, here2, sorted);
  }

  lemma SortedAgain(cfg: Config, here: seq<Frame>, sorted: seq<Attr>)
    requires here != [] && cfg.nodeSet.None?
    requires OwnAttrs(cfg.mode, here[0].elem.attrs) == sorted && Sort(AttrLe, sorted) == sorted
    ensures TagAttrs(cfg, here) == sorted
  {
    hide Sort, OwnAttrs;
  }

  /** The second run writes the same tag, and stays aligned inside it. */
  lemma TagAgain(cfg: Config, here: seq<Frame>, ctx: NsMap, known: NsMap, here2: seq<Frame>, ctx2: NsMap)
    requires here != [] && cfg.nodeSet.None? && WellFormedElement(here[0].elem, here)
    requires here2 != [] && here2[0].elem == Again(cfg, here, ctx, known)
    requires Aligned(cfg, here[1..], ctx, known, here2[1..], ctx2)
    ensures StartTag(cfg, here2, ctx2) == StartTag(cfg, here, ctx)
    ensures Aligned(cfg, here, ChildCtx(cfg, here, ctx), Declared(known, StartTag(cfg, here, ctx).decls),
                    here2, ChildCtx(cfg, here2, ctx2))
  {
    assert NoUndeclaration(here[0].elem);
    NamesResolve(cfg, here, ctx, known);
    SameNames(cfg, here, ctx, known, here2);
    LevelOfDecls(TagDecls(cfg, here, ctx));
    hide Declared, DeclList, TagAttrs, Scope, WellFormedElement, Level, ChildCtx, AttrPrefixes, TagDecls;
    if cfg.mode.Exclusive? {
      ExclusiveAgain(cfg, here, ctx, known, here2, ctx2);
    } else {
      InclusiveAgain(cfg, here, ctx, known, here2, ctx2);
    }
  }
}
