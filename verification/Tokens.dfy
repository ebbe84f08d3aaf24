/**
 Canonical output as a sequence of tags, character data, comments and instructions, and
 the text of each.
 */
module Tokens {
  import opened Render
  import opened Escape

  /** An attribute as written in a tag. */
  datatype Field = Field(name: string, value: string)

  datatype Token =
    | Start(name: string, decls: seq<NsDecl>, attrs: seq<Field>)
    | End(name: string)
    | Chars(text: string)
    | Remark(text: string)
    | Instruction(target: string, data: string)
    | Break
    | Floating(decls: seq<NsDecl>)

  function RenderField(f: Field): string {
    " " + f.name + "=\"" + EscAttr(f.value) + "\""
  }

  function RenderFields(fs: seq<Field>): string {
    if fs == [] then "" else RenderField(fs[0]) + RenderFields(fs[1..])
  }

  function RenderDecls(ds: seq<NsDecl>): string {
    if ds == [] then "" else ds[0].Render() + RenderDecls(ds[1..])
  }

  function RenderToken(t: Token): string {
    match t
    case Start(name, decls, attrs) => "<" + name + RenderDecls(decls) + RenderFields(attrs) + ">"
    case End(name) => "</" + name + ">"
    case Chars(text) => EscText(text)
    case Remark(text) => "<!--" + text + "-->"
    case Instruction(target, data) => "<?" + target + (if data == "" then "" else " " + data) + "?>"
    case Break => "\n"
    case Floating(decls) => RenderDecls(decls)
  }

  function RenderAll(ts: seq<Token>): string {
    if ts == [] then "" else RenderToken(ts[0]) + RenderAll(ts[1..])
  }

  lemma {:induction false} RenderConcat(a: seq<Token>, b: seq<Token>)
    ensures RenderAll(a + b) == RenderAll(a) + RenderAll(b)
  {
    if a == [] {
      assert a + b == b;
    } else {
      assert (a + b)[1..] == a[1..] + b;
      RenderConcat(a[1..], b);
    }
  }

  lemma RenderOne(t: Token)
    ensures RenderAll([t]) == RenderToken(t)
  {
    assert [t][1..] == [];
  }

  lemma RenderEnclosed(t: Token, body: seq<Token>, name: string)
    ensures RenderAll([t] + body + [End(name)]) == RenderToken(t) + RenderAll(body) + ("</" + name + ">")
  {
    RenderConcat([t] + body, [End(name)]);
    RenderConcat([t], body);
    RenderOne(t);
    RenderOne(End(name));
  }

  lemma RenderEmpty()
    ensures RenderAll([]) == "" && RenderAll([Break]) == "\n"
    ensures RenderDecls([]) == "" && RenderFields([]) == ""
  {
    RenderOne(Break);
  }

  lemma {:induction false} RenderDeclsSnoc(ds: seq<NsDecl>, d: NsDecl)
    ensures RenderDecls(ds + [d]) == RenderDecls(ds) + d.Render()
  {
    if ds == [] {
      assert [d][1..] == [];
    } else {
      assert (ds + [d])[1..] == ds[1..] + [d];
      RenderDeclsSnoc(ds[1..], d);
    }
  }

  lemma {:induction false} RenderFieldsSnoc(fs: seq<Field>, f: Field)
    ensures RenderFields(fs + [f]) == RenderFields(fs) + RenderField(f)
  {
    if fs == [] {
      assert [f][1..] == [];
    } else {
      assert (fs + [f])[1..] == fs[1..] + [f];
      RenderFieldsSnoc(fs[1..], f);
    }
  }
}
