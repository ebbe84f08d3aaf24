/**
 The other half of the independent reader: it builds a document from the tokens of canonical
 text, resolving names by the declarations it meets.
 */
module TreeReader {
  import opened Dom
  import opened Render
  import opened Tokens
  import opened Lexer
  import opened TagReader

  function ReadName(q: string, ctx: NsMap, isAttr: bool): Name {
    var k := Find(q, ':');
    if k == |q| then Name(None, q, if isAttr then None else Get(ctx, ""))
    else Name(Some(q[..k]), q[k + 1..], if q[..k] == "xml" then Some(XML_NS) else Get(ctx, q[..k]))
  }

  function ReadAttr(f: Field, ctx: NsMap): Attribute {
    Attribute(ReadName(f.name, ctx, true), f.value)
  }

  function ReadAttrs(fs: seq<Field>, ctx: NsMap): seq<Attribute> {
    seq(|fs|, i requires 0 <= i < |fs| => ReadAttr(fs[i], ctx))
  }

  function Bindings(ds: seq<NsDecl>): seq<Binding> {
    seq(|ds|, i requires 0 <= i < |ds| => Binding(ds[i].prefix, ds[i].uri))
  }

  function ReadTagElement(t: Token, ctx: NsMap): Element
    requires t.Start?
  {
    Element(ReadName(t.name, ctx, false), Bindings(t.decls), ReadAttrs(t.attrs, ctx))
  }

  /** Reads nodes up to the end of the enclosing element; returns what is left. */
  function BuildForest(ts: seq<Token>, ctx: NsMap): (r: (seq<Node>, seq<Token>))
    ensures |r.1| <= |ts|
    decreases |ts|
  {
    if ts == [] then ([], [])
    else match ts[0]
      case End(_) => ([], ts)
      case Start(_, decls, _) =>
        var inner := Declared(ctx, decls);
        var (kids, rest) := BuildForest(ts[1..], inner);
        var (more, tail) := BuildForest(if rest == [] then [] else rest[1..], ctx);
        ([Elem(|ts|, ReadTagElement(ts[0], inner), kids)] + more, tail)
      case Chars(text) =>
        var (more, tail) := BuildForest(ts[1..], ctx);
        ([Text(|ts|, text)] + more, tail)
      case Remark(text) =>
        var (more, tail) := BuildForest(ts[1..], ctx);
        ([Comment(|ts|, text)] + more, tail)
      case Instruction(target, data) =>
        var (more, tail) := BuildForest(ts[1..], ctx);
        ([PI(|ts|, target, if data == "" then None else Some(data))] + more, tail)
      case Break => BuildForest(ts[1..], ctx)
      case Floating(_) => BuildForest(ts[1..], ctx)
  }

  /** Character data between the children of the document node is only line breaks. */
  function DropText(ns: seq<Node>): seq<Node> {
    if ns == [] then [] else (if ns[0].Text? then [] else [ns[0]]) + DropText(ns[1..])
  }

  function BuildDoc(ts: seq<Token>): Document {
    Document(0, DropText(BuildForest(ts, map[]).0))
  }

  /** Reads canonical text as a document. */
  function Read(s: string): Option<Document> {
    var ts := Lex(s);
    if ts.None? then None else Some(BuildDoc(ts.value))
  }
}
