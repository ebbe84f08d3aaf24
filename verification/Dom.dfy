/**
 The parsed document: an unbounded tree whose nodes carry the index that the
 parser's arena gives them.  Walking up parent links is modelled by a chain of
 frames, nearest element first.
 */
module Dom {

  const XML_NS: string := "http://www.w3.org/XML/1998/namespace"
  const DSIG_NS: string := "http://www.w3.org/2000/09/xmldsig#"

  datatype Option<+T> = None | Some(value: T)

  /** The kinds of failure the modelled operations report. */
  datatype Error =
    | UnsupportedAlgorithm
    | InvalidUri
    | XmlStructure
    | MissingElement
    | MissingAttribute
    | Crypto

  datatype Result<+T> = Ok(value: T) | Err(error: Error)

  /** A resolved name: prefix as written, local part, and namespace URI if any. */
  datatype Name = Name(prefix: Option<string>, local: string, uri: Option<string>)

  datatype Attribute = Attribute(name: Name, value: string)

  /** One `xmlns` declaration; the default namespace has the empty prefix. */
  datatype Binding = Binding(prefix: string, uri: string)

  datatype Element = Element(name: Name, decls: seq<Binding>, attrs: seq<Attribute>)

  datatype Node =
    | Elem(id: nat, elem: Element, children: seq<Node>)
    | Text(id: nat, text: string)
    | CData(id: nat, text: string)
    | Comment(id: nat, text: string)
    | PI(id: nat, target: string, data: Option<string>)

  datatype Document = Document(rootId: nat, children: seq<Node>)

  /** An element on the way up to the document node. */
  datatype Frame = Frame(id: nat, elem: Element)

  type NsMap = map<string, string>

  function Get<K, V>(m: map<K, V>, k: K): Option<V> {
    if k in m then Some(m[k]) else None
  }

  function UriOf(n: Name): string {
    if n.uri.Some? then n.uri.value else ""
  }

  function Ids(n: Node): set<nat>
    decreases n, 1
  {
    {n.id} + if n.Elem? then ForestIds(n.children) else {}
  }

  function ForestIds(ns: seq<Node>): set<nat>
    decreases ns, 0
  {
    if ns == [] then {} else Ids(ns[0]) + ForestIds(ns[1..])
  }

  /** Every node of the forest has its own id. */
  predicate UniqueIds(ns: seq<Node>)
    decreases ns, 0
  {
    ns == [] || (
      && UniqueNode(ns[0])
      && Ids(ns[0]) !! ForestIds(ns[1..])
      && UniqueIds(ns[1..]))
  }

  predicate UniqueNode(n: Node)
    decreases n, 1
  {
    n.Elem? ==> n.id !in ForestIds(n.children) && UniqueIds(n.children)
  }

  predicate WellIdentified(doc: Document) {
    doc.rootId !in ForestIds(doc.children) && UniqueIds(doc.children)
  }

  /** Some node of the forest is an element. */
  predicate HasElement(ns: seq<Node>) {
    exists i :: 0 <= i < |ns| && ns[i].Elem?
  }

  lemma HasElementCons(n: Node, ns: seq<Node>)
    ensures HasElement([n] + ns) <==> n.Elem? || HasElement(ns)
  {
    var all := [n] + ns;
    if n.Elem? {
      assert all[0].Elem?;
    } else if HasElement(ns) {
      var i :| 0 <= i < |ns| && ns[i].Elem?;
      assert all[i + 1].Elem?;
    }
    if HasElement(all) && !n.Elem? {
      var i :| 0 <= i < |all| && all[i].Elem?;
      assert ns[i - 1].Elem?;
    }
  }

  lemma {:induction false} IdsOfConcat(a: seq<Node>, b: seq<Node>)
    ensures ForestIds(a + b) == ForestIds(a) + ForestIds(b)
  {
    if a == [] {
      assert a + b == b;
    } else {
      assert (a + b)[1..] == a[1..] + b;
      IdsOfConcat(a[1..], b);
    }
  }

  lemma {:induction false} IdsOfMember(ns: seq<Node>, i: nat)
    requires i < |ns|
    ensures Ids(ns[i]) <= ForestIds(ns)
  {
    if i > 0 {
      IdsOfMember(ns[1..], i - 1);
    }
  }
}
