/**
 Namespace declarations and attributes as they are put into a start tag: their order
 and their text.
 */
module Render {
  import opened Dom
  import opened Ordering
  import opened Escape

  datatype NsDecl = NsDecl(prefix: string, uri: string) {
    function Cmp(other: NsDecl): Ordering {
      if prefix == "" && other.prefix != "" then Less
      else if prefix != "" && other.prefix == "" then Greater
      else StrCmp(prefix, other.prefix)
    }

    function FieldName(): string {
      if prefix == "" then "xmlns" else "xmlns:" + prefix
    }

    function Render(): string {
      if prefix == "" then " xmlns=\"" + EscAttr(uri) + "\""
      else " xmlns:" + prefix + "=\"" + EscAttr(uri) + "\""
    }
  }

  datatype Attr = Attr(uri: string, local: string, qname: string, value: string) {
    function Cmp(other: Attr): Ordering {
      if uri == "" && other.uri == "" then StrCmp(local, other.local)
      else if uri == "" then Less
      else if other.uri == "" then Greater
      else StrCmp(uri, other.uri).Then(StrCmp(local, other.local))
    }

    function Render(): string {
      " " + qname + "=\"" + EscAttr(value) + "\""
    }
  }

  const DeclLe: (NsDecl, NsDecl) -> bool := (a: NsDecl, b: NsDecl) => a.Cmp(b) != Greater
  const AttrLe: (Attr, Attr) -> bool := (a: Attr, b: Attr) => a.Cmp(b) != Greater

  /** The special case for the default namespace agrees with plain comparison of prefixes. */
  lemma DeclCmpIsPrefixOrder(a: NsDecl, b: NsDecl)
    ensures a.Cmp(b) == StrCmp(a.prefix, b.prefix)
  {
  }

  /** The case split on missing namespaces is the lexicographic order of (URI, local name). */
  lemma AttrCmpIsLexicographic(a: Attr, b: Attr)
    ensures a.Cmp(b) == StrCmp(a.uri, b.uri).Then(StrCmp(a.local, b.local))
  {
  }

  lemma DeclLeTotal()
    ensures TotalPreorder(DeclLe)
  {
    forall a: NsDecl, b: NsDecl ensures DeclLe(a, b) || DeclLe(b, a) {
      StrCmpTotal(a.prefix, b.prefix);
      StrCmpTotal(b.prefix, a.prefix);
    }
    forall a: NsDecl, b: NsDecl, c: NsDecl | DeclLe(a, b) && DeclLe(b, c) ensures DeclLe(a, c) {
      StrCmpTransitive(a.prefix, b.prefix, c.prefix);
    }
  }

  lemma DeclTies(a: NsDecl, b: NsDecl)
    ensures DeclLe(a, b) && DeclLe(b, a) <==> a.prefix == b.prefix
  {
    StrCmpTotal(a.prefix, b.prefix);
    StrCmpTotal(b.prefix, a.prefix);
  }

  lemma AttrTies(a: Attr, b: Attr)
    ensures AttrLe(a, b) && AttrLe(b, a) <==> a.uri == b.uri && a.local == b.local
  {
    StrCmpTotal(a.uri, b.uri);
    StrCmpTotal(b.uri, a.uri);
    StrCmpTotal(a.local, b.local);
    StrCmpTotal(b.local, a.local);
  }

  lemma AttrLeTransitive(a: Attr, b: Attr, c: Attr)
    requires AttrLe(a, b) && AttrLe(b, c)
    ensures AttrLe(a, c)
  {
    StrCmpTotal(a.uri, b.uri);
    StrCmpTotal(b.uri, c.uri);
    StrCmpTotal(a.uri, c.uri);
    StrCmpTransitive(a.uri, b.uri, c.uri);
    if a.uri == b.uri && b.uri == c.uri {
      StrCmpTransitive(a.local, b.local, c.local);
    } else if StrCmp(a.uri, c.uri) == Equal {
      assert false;
    }
  }

  lemma AttrLeTotal()
    ensures TotalPreorder(AttrLe)
  {
    forall a: Attr, b: Attr ensures AttrLe(a, b) || AttrLe(b, a) {
      StrCmpTotal(a.uri, b.uri);
      StrCmpTotal(b.uri, a.uri);
      StrCmpTotal(a.local, b.local);
      StrCmpTotal(b.local, a.local);
    }
    forall a: Attr, b: Attr, c: Attr | AttrLe(a, b) && AttrLe(b, c) ensures AttrLe(a, c) {
      AttrLeTransitive(a, b, c);
    }
  }

  // ---------------------------------------------------------------- sorted maps

  /** `p` comes first among `keys`. */
  predicate IsLeast(p: string, keys: set<string>) {
    p in keys && forall q :: q in keys ==> StrCmp(p, q) != Greater
  }

  lemma {:induction false} LeastExists(keys: set<string>) returns (p: string)
    requires keys != {}
    ensures IsLeast(p, keys)
    decreases |keys|
  {
    var q :| q in keys;
    if keys == {q} {
      p := q;
      StrCmpTotal(q, q);
    } else {
      var r := LeastExists(keys - {q});
      if StrCmp(q, r) == Greater {
        p := r;
        StrCmpTotal(q, r);
        StrCmpTotal(r, q);
      } else {
        p := q;
        StrCmpTotal(q, q);
        forall k | k in keys ensures StrCmp(q, k) != Greater {
          if k != q {
            StrCmpTransitive(q, r, k);
          }
        }
      }
    }
  }

  lemma LeastUnique(keys: set<string>)
    ensures forall p, q :: IsLeast(p, keys) && IsLeast(q, keys) ==> p == q
  {
    forall p, q | IsLeast(p, keys) && IsLeast(q, keys) ensures p == q {
      StrCmpTotal(p, q);
      StrCmpTotal(q, p);
    }
  }

  function Least(keys: set<string>): (p: string)
    requires keys != {}
    ensures IsLeast(p, keys)
  {
    LeastUnique(keys);
    assert exists p :: IsLeast(p, keys) by { var p := LeastExists(keys); }
    var p :| p in keys && IsLeast(p, keys);
    p
  }

  /** The keys of an ordered map in the order it iterates them. */
  function SortedKeys(keys: set<string>): (s: seq<string>)
    ensures forall p :: p in s <==> p in keys
    ensures |s| == |keys|
    decreases |keys|
  {
    if keys == {} then [] else [Least(keys)] + SortedKeys(keys - {Least(keys)})
  }

  lemma {:induction false} SortedKeysStrict(keys: set<string>)
    ensures forall i, j :: 0 <= i < j < |SortedKeys(keys)| ==>
      StrCmp(SortedKeys(keys)[i], SortedKeys(keys)[j]) == Less
    decreases |keys|
  {
    if keys != {} {
      var p := Least(keys);
      SortedKeysStrict(keys - {p});
      var s := SortedKeys(keys - {p});
      forall j | 0 <= j < |s| ensures StrCmp(p, s[j]) == Less {
        assert s[j] in keys - {p};
        StrCmpTotal(p, s[j]);
      }
    }
  }

  /** The declarations of a prefix map in output order. */
  function DeclList(m: NsMap): (s: seq<NsDecl>)
    ensures forall d :: d in s <==> d.prefix in m && m[d.prefix] == d.uri
  {
    var ks := SortedKeys(m.Keys);
    var s := seq(|ks|, i requires 0 <= i < |ks| => assert ks[i] in ks; NsDecl(ks[i], m[ks[i]]));
    assert forall d: NsDecl | d.prefix in m && m[d.prefix] == d.uri :: d in s by {
      forall d: NsDecl | d.prefix in m && m[d.prefix] == d.uri ensures d in s {
        var i :| 0 <= i < |ks| && ks[i] == d.prefix;
        assert s[i] == d;
      }
    }
    s
  }

  lemma DeclListStrict(m: NsMap)
    ensures Strict(DeclLe, DeclList(m))
  {
    SortedKeysStrict(m.Keys);
    var s := DeclList(m);
    forall i, j | 0 <= i < j < |s| ensures DeclLe(s[i], s[j]) && !DeclLe(s[j], s[i]) {
      StrCmpTotal(s[i].prefix, s[j].prefix);
    }
  }

  /** A vector of declarations holds exactly the bindings of `m`, each prefix once. */
  ghost predicate Lists(s: seq<NsDecl>, m: NsMap) {
    && (forall d :: d in s <==> d.prefix in m && m[d.prefix] == d.uri)
    && (forall i, j :: 0 <= i < j < |s| ==> s[i].prefix != s[j].prefix)
  }

  /** However the declarations were collected, sorting them gives the same tag text. */
  lemma SortedDecls(s: seq<NsDecl>, m: NsMap)
    requires Lists(s, m)
    ensures Sort(DeclLe, s) == DeclList(m)
  {
    DeclLeTotal();
    forall i, j | 0 <= i < j < |s| ensures !(DeclLe(s[i], s[j]) && DeclLe(s[j], s[i])) {
      DeclTies(s[i], s[j]);
    }
    SortStrict(DeclLe, s);
    SortMultiset(DeclLe, s);
    DeclListStrict(m);
    forall d ensures d in Sort(DeclLe, s) <==> d in DeclList(m) {
      assert d in Sort(DeclLe, s) <==> d in multiset(Sort(DeclLe, s));
    }
    StrictUnique(DeclLe, Sort(DeclLe, s), DeclList(m));
  }
}
