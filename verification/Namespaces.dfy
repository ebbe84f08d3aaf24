/**
 Which namespaces are in scope at an element: the root-down merge used by
 canonicalization and the nearest-first walk used by prefix resolution.
 */
module Namespaces {
  import opened Dom

  /** The declarations of one element as a map; a later one replaces an earlier one. */
  function Level(decls: seq<Binding>): NsMap {
    if decls == [] then map[]
    else
      var last := decls[|decls| - 1];
      Level(decls[..|decls| - 1])[last.prefix := last.uri]
  }

  /** An empty URI undeclares its prefix; inclusive canonicalization remembers an
      undeclared default namespace as an entry with the empty URI. */
  predicate Stays(keepDefault: bool, prefix: string, uri: string) {
    uri != "" || (keepDefault && prefix == "")
  }

  function MergeLevel(keepDefault: bool, base: NsMap, level: NsMap): NsMap {
    map p | p in base.Keys + level.Keys && (p in level ==> Stays(keepDefault, p, level[p]))
      :: if p in level then level[p] else base[p]
  }

  /** The bindings in scope at the first frame of `chain`. */
  function Inscope(keepDefault: bool, chain: seq<Frame>): NsMap {
    if chain == [] then map[]
    else MergeLevel(keepDefault, Inscope(keepDefault, chain[1..]), Level(chain[0].elem.decls))
  }

  /** Walks up collecting one level per element, then merges from the root down. */
  method CollectInscope(keepDefault: bool, chain: seq<Frame>) returns (result: NsMap)
    ensures result == Inscope(keepDefault, chain)
  {
    var stack: seq<NsMap> := [];
    var i := 0;
    while i < |chain|
      invariant 0 <= i <= |chain| == |stack| + |chain| - i
      invariant forall k :: 0 <= k < i ==> stack[k] == Level(chain[k].elem.decls)
    {
      var level: NsMap := map[];
      var decls := chain[i].elem.decls;
      for j := 0 to |decls|
        invariant level == Level(decls[..j])
      {
        level := level[decls[j].prefix := decls[j].uri];
        assert decls[..j + 1][..j] == decls[..j];
      }
      assert decls[..|decls|] == decls;
      stack := stack + [level];
      i := i + 1;
    }
    result := map[];
    assert chain[|chain|..] == [];
    while i > 0
      invariant 0 <= i <= |chain| == |stack|
      invariant forall k :: 0 <= k < |stack| ==> stack[k] == Level(chain[k].elem.decls)
      invariant result == Inscope(keepDefault, chain[i..])
    {
      i := i - 1;
      result := MergeInto(keepDefault, result, stack[i]);
      assert chain[i..][1..] == chain[i + 1..];
    }
    assert chain[0..] == chain;
  }

  method MergeInto(keepDefault: bool, base: NsMap, level: NsMap) returns (result: NsMap)
    ensures result == MergeLevel(keepDefault, base, level)
  {
    result := base;
    var keys := level.Keys;
    while keys != {}
      invariant keys <= level.Keys
      invariant forall p :: p in result <==>
        if p in level && p !in keys then Stays(keepDefault, p, level[p]) else p in base
      invariant forall p :: p in result ==>
        result[p] == if p in level && p !in keys then level[p] else base[p]
    {
      var p :| p in keys;
      keys := keys - {p};
      if Stays(keepDefault, p, level[p]) {
        result := result[p := level[p]];
      } else {
        result := result - {p};
      }
    }
  }

  /** What a binding means to a reader: an empty URI is no binding, and `xml` is built in. */
  function Effective(m: NsMap): NsMap {
    map p | p in m && p != "xml" && m[p] != "" :: m[p]
  }

  /** `a` is `b` without its empty bindings. */
  predicate Drops(a: NsMap, b: NsMap) {
    && (forall p :: p in a ==> p in b && a[p] == b[p] && b[p] != "")
    && (forall p :: p in b && b[p] != "" ==> p in a)
  }

  lemma MergeDrops(a: NsMap, b: NsMap, level: NsMap)
    requires Drops(a, b)
    ensures Drops(MergeLevel(false, a, level), MergeLevel(true, b, level))
  {
    var x, y := MergeLevel(false, a, level), MergeLevel(true, b, level);
    forall p | p in x ensures p in y && x[p] == y[p] && y[p] != "" {
      if p in level {
      } else {
        assert p in a;
      }
    }
    forall p | p in y && y[p] != "" ensures p in x {
      if p in level {
      } else {
        assert p in b;
      }
    }
  }

  /** The two merges, with and without the remembered default, mean the same. */
  lemma {:induction false} MergesAgree(chain: seq<Frame>)
    ensures Drops(Inscope(false, chain), Inscope(true, chain))
  {
    if chain != [] {
      MergesAgree(chain[1..]);
      MergeDrops(Inscope(false, chain[1..]), Inscope(true, chain[1..]), Level(chain[0].elem.decls));
    }
  }

  lemma EffectiveAgrees(chain: seq<Frame>)
    ensures Effective(Inscope(true, chain)) == Effective(Inscope(false, chain))
  {
    MergesAgree(chain);
  }

  // ---------------------------------------------------------------- nearest first

  function FirstDecl(decls: seq<Binding>, prefix: string): Option<string> {
    if decls == [] then None
    else if decls[0].prefix == prefix then Some(decls[0].uri)
    else FirstDecl(decls[1..], prefix)
  }

  /** The first declaration of `prefix` on the way up. */
  function Nearest(chain: seq<Frame>, prefix: string): Option<string> {
    if chain == [] then None
    else
      var here := FirstDecl(chain[0].elem.decls, prefix);
      if here.Some? then here else Nearest(chain[1..], prefix)
  }

  method ResolveNsPrefix(chain: seq<Frame>, prefix: string) returns (uri: Option<string>)
    ensures uri == Nearest(chain, prefix)
  {
    var i := 0;
    while i < |chain|
      invariant 0 <= i <= |chain|
      invariant Nearest(chain, prefix) == Nearest(chain[i..], prefix)
    {
      var decls := chain[i].elem.decls;
      for j := 0 to |decls|
        invariant FirstDecl(decls, prefix) == FirstDecl(decls[j..], prefix)
      {
        if decls[j].prefix == prefix {
          return Some(decls[j].uri);
        }
        assert decls[j..][1..] == decls[j + 1..];
      }
      assert chain[i..][1..] == chain[i + 1..];
      i := i + 1;
    }
    return None;
  }

  predicate UniquePrefixes(decls: seq<Binding>) {
    forall i, j :: 0 <= i < j < |decls| ==> decls[i].prefix != decls[j].prefix
  }

  lemma {:induction false} LevelKeys(decls: seq<Binding>)
    ensures forall p :: p in Level(decls) <==> exists i :: 0 <= i < |decls| && decls[i].prefix == p
    ensures UniquePrefixes(decls) ==>
      forall i :: 0 <= i < |decls| ==> Level(decls)[decls[i].prefix] == decls[i].uri
  {
    if decls != [] {
      var n := |decls| - 1;
      LevelKeys(decls[..n]);
      assert forall i :: 0 <= i < n ==> decls[..n][i] == decls[i];
      forall p | p in Level(decls) ensures exists i :: 0 <= i < |decls| && decls[i].prefix == p {
        if p in Level(decls[..n]) {
          var i :| 0 <= i < |decls[..n]| && decls[..n][i].prefix == p;
          assert decls[i].prefix == p;
        } else {
          assert decls[n].prefix == p;
        }
      }
    }
  }

  lemma {:induction false} FirstDeclIndex(decls: seq<Binding>, prefix: string)
    ensures FirstDecl(decls, prefix).Some? <==> exists i :: 0 <= i < |decls| && decls[i].prefix == prefix
    ensures FirstDecl(decls, prefix).Some? ==>
      exists i :: 0 <= i < |decls| && decls[i].prefix == prefix && FirstDecl(decls, prefix) == Some(decls[i].uri)
  {
    if decls != [] {
      if decls[0].prefix != prefix {
        FirstDeclIndex(decls[1..], prefix);
        assert forall i :: 0 < i < |decls| ==> decls[i] == decls[1..][i - 1];
        if FirstDecl(decls, prefix).Some? {
          var i :| 0 <= i < |decls[1..]| && decls[1..][i].prefix == prefix
                   && FirstDecl(decls[1..], prefix) == Some(decls[1..][i].uri);
          assert decls[i + 1] == decls[1..][i];
        }
      }
    }
  }

  /** Merging root-down and walking nearest-first find the same non-empty binding. */
  lemma {:induction false} LookupsAgree(keepDefault: bool, chain: seq<Frame>, prefix: string, uri: string)
    requires uri != ""
    requires forall k :: 0 <= k < |chain| ==> UniquePrefixes(chain[k].elem.decls)
    ensures Get(Inscope(keepDefault, chain), prefix) == Some(uri) <==> Nearest(chain, prefix) == Some(uri)
  {
    if chain != [] {
      LookupsAgree(keepDefault, chain[1..], prefix, uri);
      var decls := chain[0].elem.decls;
      assert UniquePrefixes(decls);
      LevelKeys(decls);
      FirstDeclIndex(decls, prefix);
    }
  }

  /** A document that never undeclares a prefix other than the default one. */
  predicate NoUndeclaration(e: Element) {
    forall i :: 0 <= i < |e.decls| ==> e.decls[i].uri == "" ==> e.decls[i].prefix == ""
  }

  lemma {:induction false} LevelValues(decls: seq<Binding>)
    ensures forall p :: p in Level(decls) ==>
      exists i :: 0 <= i < |decls| && decls[i].prefix == p && decls[i].uri == Level(decls)[p]
  {
    if decls != [] {
      var n := |decls| - 1;
      LevelValues(decls[..n]);
      forall p | p in Level(decls)
        ensures exists i :: 0 <= i < |decls| && decls[i].prefix == p && decls[i].uri == Level(decls)[p]
      {
        if p == decls[n].prefix {
          assert decls[n].uri == Level(decls)[p];
        } else {
          assert p in Level(decls[..n]);
          var i :| 0 <= i < |decls[..n]| && decls[..n][i].prefix == p && decls[..n][i].uri == Level(decls[..n])[p];
          assert decls[i] == decls[..n][i];
        }
      }
    }
  }

  /** Without undeclarations, a prefix bound at an element is bound everywhere below it. */
  lemma InscopeGrows(keepDefault: bool, chain: seq<Frame>, f: Frame)
    requires NoUndeclaration(f.elem)
    ensures forall p :: p in Inscope(keepDefault, chain) && p != "" ==> p in Inscope(keepDefault, [f] + chain)
  {
    LevelValues(f.elem.decls);
    assert ([f] + chain)[1..] == chain;
  }

  /** Only an undeclared default namespace leaves an empty binding behind. */
  lemma {:induction false} InscopeValues(keepDefault: bool, chain: seq<Frame>)
    ensures forall p :: p in Inscope(keepDefault, chain) && Inscope(keepDefault, chain)[p] == "" ==>
      p == "" && keepDefault
  {
    if chain != [] {
      InscopeValues(keepDefault, chain[1..]);
    }
  }
}
