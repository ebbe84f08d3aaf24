/**
 What a reader of canonical output learns about namespaces: the bindings accumulated from
 the start tags that enclose each point of the output.
 */
module TagReader {
  import opened Dom
  import opened Render
  import opened Tokens
  import opened Namespaces

  function Declare(ctx: NsMap, d: NsDecl): NsMap {
    if d.uri == "" then ctx - {d.prefix} else ctx[d.prefix := d.uri]
  }

  function Declared(ctx: NsMap, decls: seq<NsDecl>): NsMap
    decreases |decls|
  {
    if decls == [] then ctx else Declared(Declare(ctx, decls[0]), decls[1..])
  }

  function Top(stack: seq<NsMap>): NsMap {
    if stack == [] then map[] else stack[0]
  }

  function Pop(stack: seq<NsMap>): seq<NsMap> {
    if stack == [] then [] else stack[1..]
  }

  /** A start tag as its reader sees it: the bindings around it, those it states, and the
      bindings inside. */
  datatype Sight = Sight(outer: NsMap, decls: seq<NsDecl>, inner: NsMap)

  /** The start tags in order; `stack` holds the bindings of the open tags. */
  function Sights(ts: seq<Token>, stack: seq<NsMap>): seq<Sight> {
    if ts == [] then []
    else match ts[0]
      case Start(_, decls, _) =>
        var c := Declared(Top(stack), decls);
        [Sight(Top(stack), decls, c)] + Sights(ts[1..], [c] + stack)
      case End(_) => Sights(ts[1..], Pop(stack))
      case _ => Sights(ts[1..], stack)
  }

  /** The URI a prefix stands for, where none and the empty URI are the same. */
  function Bound(ctx: NsMap, prefix: string): string {
    if prefix in ctx then ctx[prefix] else ""
  }

  /** The tag states nothing its reader already knows. */
  predicate Minimal(s: Sight) {
    forall d :: d in s.decls ==> Bound(s.outer, d.prefix) != d.uri
  }

  lemma {:induction false} DeclaredLists(ctx: NsMap, s: seq<NsDecl>, m: NsMap, p: string)
    requires Lists(s, m)
    ensures Get(Declared(ctx, s), p) ==
      if p in m then (if m[p] == "" then None else Some(m[p])) else Get(ctx, p)
    decreases |s|
  {
    assert p in m ==> NsDecl(p, m[p]) in s;
    if s != [] {
      var d, rest := s[0], s[1..];
      assert d in s;
      var m' := m - {d.prefix};
      assert Lists(rest, m') by {
        forall x ensures x in rest <==> x.prefix in m' && m'[x.prefix] == x.uri {
          if x in rest {
            var k :| 0 <= k < |rest| && rest[k] == x;
            assert s[k + 1] == x && x in s;
          }
          if x.prefix in m' && m'[x.prefix] == x.uri {
            assert x in s && x != d;
            var k :| 0 <= k < |s| && s[k] == x;
            assert rest[k - 1] == x;
          }
        }
      }
      DeclaredLists(Declare(ctx, d), rest, m', p);
    }
  }

  lemma DeclListLists(m: NsMap)
    ensures Lists(DeclList(m), m)
  {
    DeclListStrict(m);
    var s := DeclList(m);
    forall i, j | 0 <= i < j < |s| ensures s[i].prefix != s[j].prefix {
      DeclTies(s[i], s[j]);
    }
  }

  /** Reading a tag's declarations has the effect of the map they were listed from. */
  lemma DeclaredIsEffective(ctx: NsMap, m: NsMap)
    requires "xml" !in m
    ensures Declared(Effective(ctx), DeclList(m)) == Effective(ctx + m)
  {
    DeclListLists(m);
    hide DeclList, Declared;
    var a, b := Declared(Effective(ctx), DeclList(m)), Effective(ctx + m);
    forall p ensures Get(a, p) == Get(b, p) {
      DeclaredLists(Effective(ctx), DeclList(m), m, p);
    }
    SameEntries(a, b);
  }

  lemma SameEntries(a: NsMap, b: NsMap)
    requires forall p :: Get(a, p) == Get(b, p)
    ensures a == b
  {
    forall p ensures p in a <==> p in b {
      assert Get(a, p) == Get(b, p);
    }
    forall p | p in a ensures a[p] == b[p] {
      assert Get(a, p) == Get(b, p);
    }
  }
}
