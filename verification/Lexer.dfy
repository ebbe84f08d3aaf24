/**
 An independent reader of canonical text: it cuts the characters back into tags, character
 data, comments and instructions.
 */
module Lexer {
  import opened Dom
  import opened Escape
  import opened Render
  import opened Tokens

  /** The first position of `c`, or the end. */
  function Find(s: string, c: char): (k: nat)
    ensures k <= |s|
    ensures forall i :: 0 <= i < k ==> s[i] != c
    ensures k < |s| ==> s[k] == c
  {
    if s == "" || s[0] == c then 0 else 1 + Find(s[1..], c)
  }

  /** The first position where `mark` stands, or the end. */
  function FindMark(s: string, mark: string): (k: nat)
    requires mark != ""
    ensures k <= |s|
    ensures k < |s| ==> mark <= s[k..]
    ensures forall i :: 0 <= i < k ==> !(mark <= s[i..])
  {
    if s == "" || mark <= s then 0
    else
      var k := 1 + FindMark(s[1..], mark);
      assert forall i :: 0 < i <= |s| ==> s[i..] == s[1..][i - 1..];
      k
  }

  lemma FindAt(s: string, c: char, k: nat)
    requires k < |s| && s[k] == c && forall i :: 0 <= i < k ==> s[i] != c
    ensures Find(s, c) == k
  {
  }

  lemma FindNowhere(s: string, c: char)
    requires c !in s
    ensures Find(s, c) == |s|
  {
  }

  lemma FindMarkAt(s: string, mark: string, k: nat)
    requires mark != "" && k < |s| && mark <= s[k..]
    requires forall i :: 0 <= i < k ==> !(mark <= s[i..])
    ensures FindMark(s, mark) == k
  {
  }

  predicate Contains(s: string, mark: string) {
    exists i :: 0 <= i <= |s| && mark <= s[i..]
  }

  predicate IsSpace(c: char) {
    c == ' ' || c == '\t' || c == '\n' || c == '\r'
  }

  /** Declarations are attributes whose name is reserved for them. */
  predicate IsXmlns(name: string) {
    name == "xmlns" || "xmlns:" <= name
  }

  function DeclOf(f: Field): seq<NsDecl> {
    if f.name == "xmlns" then [NsDecl("", f.value)]
    else if "xmlns:" <= f.name then [NsDecl(f.name[6..], f.value)]
    else []
  }

  function DeclsOf(fs: seq<Field>): seq<NsDecl> {
    if fs == [] then [] else DeclOf(fs[0]) + DeclsOf(fs[1..])
  }

  function AttrsOf(fs: seq<Field>): seq<Field> {
    if fs == [] then []
    else (if IsXmlns(fs[0].name) then [] else [fs[0]]) + AttrsOf(fs[1..])
  }

  /** Reads the attributes of a tag up to its `>`. */
  function LexFields(s: string): (r: Option<(seq<Field>, string)>)
    ensures r.Some? ==> |r.value.1| < |s|
    decreases |s|
  {
    if s == "" then None
    else if s[0] == '>' then Some(([], s[1..]))
    else if s[0] != ' ' then None
    else
      var k := Find(s, '=');
      if k + 1 >= |s| || s[k + 1] != '"' then None
      else
        var v := s[k + 2..];
        var m := Find(v, '"');
        if m == |v| then None
        else
          var r := LexFields(v[m + 1..]);
          if r.None? then None
          else Some(([Field(s[1..k], Unescape(v[..m]))] + r.value.0, r.value.1))
  }

  function SkipSpace(s: string): string {
    if s != "" && IsSpace(s[0]) then SkipSpace(s[1..]) else s
  }

  function SplitInstruction(body: string): Token {
    var k := Find(body, ' ');
    Instruction(body[..k], SkipSpace(body[k..]))
  }

  /** Reads a start tag after its `<`. */
  function LexStart(s: string): (r: Option<(Token, string)>)
    ensures r.Some? ==> |r.value.1| < |s| && r.value.0.Start?
  {
    var a, b := Find(s, ' '), Find(s, '>');
    var k := if a < b then a else b;
    var r := LexFields(s[k..]);
    if r.None? then None
    else Some((Start(s[..k], DeclsOf(r.value.0), AttrsOf(r.value.0)), r.value.1))
  }

  /** Reads whatever begins with `<`. */
  function LexMarkup(s: string): (r: Option<(Token, string)>)
    requires s != ""
    ensures r.Some? ==> |r.value.1| < |s| && !r.value.0.Chars?
  {
    if "<!--" <= s then
      var body := s[4..];
      var k := FindMark(body, "-->");
      if k == |body| then None else Some((Remark(body[..k]), body[k + 3..]))
    else if "<?" <= s then
      var body := s[2..];
      var k := FindMark(body, "?>");
      if k == |body| then None else Some((SplitInstruction(body[..k]), body[k + 2..]))
    else if "</" <= s then
      var body := s[2..];
      var k := Find(body, '>');
      if k == |body| then None else Some((End(body[..k]), body[k + 1..]))
    else LexStart(s[1..])
  }

  function Lex(s: string): Option<seq<Token>>
    decreases |s|
  {
    if s == "" then Some([])
    else if s[0] != '<' then
      var k := Find(s, '<');
      var r := Lex(s[k..]);
      if r.None? then None else Some([Chars(Unescape(s[..k]))] + r.value)
    else
      var t := LexMarkup(s);
      if t.None? then None
      else
        var r := Lex(t.value.1);
        if r.None? then None else Some([t.value.0] + r.value)
  }

  // ---------------------------------------------------------------- which tokens can be read

  const DELIMITERS: set<char> := {' ', '\t', '\n', '\r', '<', '>', '&', '=', '"', '\'', '/', '?', '!'}

  /** Text that can stand as a name in a tag. */
  predicate NameText(s: string) {
    s != "" && forall i :: 0 <= i < |s| ==> s[i] !in DELIMITERS
  }

  predicate SafeDecl(d: NsDecl) {
    d.prefix == "" || NameText(d.prefix)
  }

  predicate SafeField(f: Field) {
    NameText(f.name) && !IsXmlns(f.name)
  }

  /** What every token of a well-formed document satisfies. */
  predicate Safe(t: Token) {
    match t
    case Start(name, decls, attrs) =>
      && NameText(name)
      && (forall i :: 0 <= i < |decls| ==> SafeDecl(decls[i]))
      && (forall i :: 0 <= i < |attrs| ==> SafeField(attrs[i]))
    case End(name) => NameText(name)
    case Remark(text) => !Contains(text, "-->")
    case Instruction(target, data) =>
      NameText(target) && !Contains(data, "?>") && (data != "" ==> !IsSpace(data[0]))
    case Floating(_) => false
    case _ => true
  }

  // ---------------------------------------------------------------- reading a tag

  function DeclFields(ds: seq<NsDecl>): seq<Field> {
    seq(|ds|, i requires 0 <= i < |ds| => Field(ds[i].FieldName(), ds[i].uri))
  }

  lemma DeclText(d: NsDecl)
    ensures d.Render() == RenderField(Field(d.FieldName(), d.uri))
  {
    if d.prefix != "" {
      assert " " + "xmlns:" == " xmlns:";
    } else {
      assert " " + "xmlns" + "=\"" == " xmlns=\"";
    }
  }

  lemma {:induction false} DeclsAsFields(ds: seq<NsDecl>, fs: seq<Field>)
    ensures RenderDecls(ds) + RenderFields(fs) == RenderFields(DeclFields(ds) + fs)
  {
    hide RenderField, NsDecl.Render, NsDecl.FieldName, RenderFields, RenderDecls;
    if ds == [] {
      assert DeclFields(ds) + fs == fs;
      RenderEmpty();
    } else {
      var all := DeclFields(ds) + fs;
      assert all[0] == Field(ds[0].FieldName(), ds[0].uri);
      assert all[1..] == DeclFields(ds[1..]) + fs;
      hide DeclFields;
      DeclsAsFields(ds[1..], fs);
      DeclText(ds[0]);
      RenderFirst(ds, all);
    }
  }

  lemma RenderFirst(ds: seq<NsDecl>, fs: seq<Field>)
    requires ds != [] && fs != []
    ensures RenderDecls(ds) == ds[0].Render() + RenderDecls(ds[1..])
    ensures RenderFields(fs) == RenderField(fs[0]) + RenderFields(fs[1..])
  {
    hide RenderField, NsDecl.Render;
  }

  lemma DeclFieldRead(d: NsDecl)
    ensures DeclOf(Field(d.FieldName(), d.uri)) == [d]
    ensures IsXmlns(d.FieldName())
  {
    if d.prefix != "" {
      var name := "xmlns:" + d.prefix;
      assert name[6..] == d.prefix && name[5] == ':';
    }
  }

  lemma {:induction false} FieldsSorted(ds: seq<NsDecl>, fs: seq<Field>)
    requires forall i :: 0 <= i < |fs| ==> !IsXmlns(fs[i].name)
    ensures DeclsOf(DeclFields(ds) + fs) == ds
    ensures AttrsOf(DeclFields(ds) + fs) == fs
  {
    hide IsXmlns, DeclOf, NsDecl.FieldName, DeclsOf, AttrsOf;
    var all := DeclFields(ds) + fs;
    if ds == [] {
      assert all == fs;
      AttrsOnly(fs);
    } else {
      assert all[0] == Field(ds[0].FieldName(), ds[0].uri);
      assert all[1..] == DeclFields(ds[1..]) + fs;
      hide DeclFields;
      FieldsFirst(all);
      FieldsSorted(ds[1..], fs);
      DeclFieldRead(ds[0]);
    }
  }

  lemma {:induction false} AttrsOnly(fs: seq<Field>)
    requires forall i :: 0 <= i < |fs| ==> !IsXmlns(fs[i].name)
    ensures DeclsOf(fs) == [] && AttrsOf(fs) == fs
  {
    hide IsXmlns, DeclOf;
    if fs != [] {
      NotDecl(fs[0]);
      AttrsOnly(fs[1..]);
    }
  }

  lemma FieldsFirst(fs: seq<Field>)
    requires fs != []
    ensures DeclsOf(fs) == DeclOf(fs[0]) + DeclsOf(fs[1..])
    ensures AttrsOf(fs) == (if IsXmlns(fs[0].name) then [] else [fs[0]]) + AttrsOf(fs[1..])
  {
    hide DeclOf, IsXmlns;
  }

  lemma NotDecl(f: Field)
    requires !IsXmlns(f.name)
    ensures DeclOf(f) == []
  {
  }

  lemma LexField(f: Field, rest: string)
    requires '=' !in f.name
    ensures LexFields(RenderField(f) + rest) ==
      (var r := LexFields(rest); if r.None? then None else Some(([f] + r.value.0, r.value.1)))
  {
    hide Each, LexFields;
    EscAttrSafe(f.value);
    UnescapeAttr(f.value);
    LexRawField(f.name, EscAttr(f.value), rest);
    assert RenderField(f) + rest == " " + f.name + "=\"" + (EscAttr(f.value) + "\"" + rest);
  }

  lemma LexRawField(name: string, value: string, rest: string)
    requires '=' !in name && '"' !in value
    ensures LexFields(" " + name + "=\"" + (value + "\"" + rest)) ==
      (var r := LexFields(rest);
       if r.None? then None else Some(([Field(name, Unescape(value))] + r.value.0, r.value.1)))
  {
    hide Unescape, Find;
    var n := |name|;
    var v := value + "\"" + rest;
    var s := " " + name + "=\"" + v;
    FindBetween(" " + name, '=', "\"" + v);
    assert s == (" " + name) + (['='] + ("\"" + v));
    assert s[0] == ' ' && s[1..n + 1] == name && s[n + 2] == '"' && s[n + 3..] == v;
    FindBetween(value, '"', rest);
    assert v == value + (['"'] + rest);
    assert v[..|value|] == value && v[|value| + 1..] == rest;
  }

  lemma FindBetween(a: string, c: char, b: string)
    requires c !in a
    ensures Find(a + ([c] + b), c) == |a|
  {
    var s := a + ([c] + b);
    assert s[|a|] == c && forall i :: 0 <= i < |a| ==> s[i] == a[i];
    FindAt(s, c, |a|);
  }

  lemma {:induction false} LexFieldsOf(fs: seq<Field>, tail: string)
    requires forall i :: 0 <= i < |fs| ==> '=' !in fs[i].name
    ensures LexFields(RenderFields(fs) + ">" + tail) == Some((fs, tail))
  {
    hide RenderField, LexFields;
    if fs == [] {
      LexClose(tail);
      assert RenderFields(fs) + ">" + tail == ">" + tail;
    } else {
      LexFieldsOf(fs[1..], tail);
      LexField(fs[0], RenderFields(fs[1..]) + ">" + tail);
      assert RenderFields(fs) + ">" + tail == RenderField(fs[0]) + (RenderFields(fs[1..]) + ">" + tail);
      assert fs == [fs[0]] + fs[1..];
    }
  }

  lemma LexClose(tail: string)
    ensures LexFields(">" + tail) == Some(([], tail))
  {
    assert (">" + tail)[1..] == tail;
  }

  lemma NameTextAvoids(s: string, c: char)
    requires NameText(s) && c in DELIMITERS
    ensures c !in s
  {
  }

  lemma DeclFieldNames(ds: seq<NsDecl>, attrs: seq<Field>)
    requires forall i :: 0 <= i < |ds| ==> SafeDecl(ds[i])
    requires forall i :: 0 <= i < |attrs| ==> SafeField(attrs[i])
    ensures var fs := DeclFields(ds) + attrs; forall i :: 0 <= i < |fs| ==> '=' !in fs[i].name
  {
    var fs := DeclFields(ds) + attrs;
    forall i | 0 <= i < |fs| ensures '=' !in fs[i].name {
      if i < |ds| {
        assert SafeDecl(ds[i]) && fs[i].name == ds[i].FieldName();
        if ds[i].prefix != "" {
          NameTextAvoids(ds[i].prefix, '=');
        }
      } else {
        assert SafeField(attrs[i - |ds|]);
        NameTextAvoids(attrs[i - |ds|].name, '=');
      }
    }
  }

  lemma RenderFieldsStart(fs: seq<Field>)
    ensures fs != [] ==> RenderFields(fs) != "" && RenderFields(fs)[0] == ' '
  {
  }

  lemma NameEnds(name: string, rest: string)
    requires NameText(name) && rest != "" && (rest[0] == ' ' || rest[0] == '>')
    ensures var s := name + rest; var a, b := Find(s, ' '), Find(s, '>');
      (if a < b then a else b) == |name|
  {
    var s := name + rest;
    NameTextAvoids(name, ' ');
    NameTextAvoids(name, '>');
    assert s[|name|] == rest[0];
    assert forall i :: 0 <= i < |name| ==> s[i] == name[i];
    if rest[0] == ' ' {
      FindAt(s, ' ', |name|);
    } else {
      FindAt(s, '>', |name|);
    }
  }

  /** A start tag's characters determine its name, declarations and attributes. */
  lemma LexStartOf(t: Token, tail: string)
    requires t.Start? && Safe(t)
    ensures LexMarkup(RenderToken(t) + tail) == Some((t, tail))
  {
    hide LexFields, LexMarkup, RenderFields, RenderDecls, DeclsOf, AttrsOf, NameText, SafeDecl, SafeField, Find;
    var fs := DeclFields(t.decls) + t.attrs;
    var rest := RenderFields(fs) + ">" + tail;
    DeclsAsFields(t.decls, t.attrs);
    assert RenderToken(t) + tail == "<" + (t.name + rest) by {
      assert RenderToken(t) == "<" + t.name + (RenderDecls(t.decls) + RenderFields(t.attrs)) + ">";
    }
    RenderFieldsStart(fs);
    RenderEmpty();
    DeclFieldNames(t.decls, t.attrs);
    LexFieldsOf(fs, tail);
    assert forall i :: 0 <= i < |t.attrs| ==> !IsXmlns(t.attrs[i].name) by {
      FieldNotXmlns(t.attrs);
    }
    FieldsSorted(t.decls, t.attrs);
    NameEnds(t.name, rest);
    LexOpen(t.name, rest);
  }

  lemma FieldNotXmlns(fs: seq<Field>)
    requires forall i :: 0 <= i < |fs| ==> SafeField(fs[i])
    ensures forall i :: 0 <= i < |fs| ==> !IsXmlns(fs[i].name)
  {
    forall i | 0 <= i < |fs| ensures !IsXmlns(fs[i].name) {
      assert SafeField(fs[i]);
    }
  }

  lemma LexOpen(name: string, rest: string)
    requires NameText(name) && rest != ""
    requires var s := name + rest; var a, b := Find(s, ' '), Find(s, '>'); (if a < b then a else b) == |name|
    ensures LexMarkup("<" + (name + rest)) ==
      (var r := LexFields(rest);
       if r.None? then None else Some((Start(name, DeclsOf(r.value.0), AttrsOf(r.value.0)), r.value.1)))
  {
    hide LexFields, DeclsOf, AttrsOf, Find, FindMark, SplitInstruction;
    var s := "<" + (name + rest);
    assert s[1] == name[0] && name[0] !in DELIMITERS;
    assert s[1..] == name + rest;
    assert (name + rest)[..|name|] == name && (name + rest)[|name|..] == rest;
    hide NameText;
  }

  lemma LexEndOf(t: Token, tail: string)
    requires t.End? && Safe(t)
    ensures LexMarkup(RenderToken(t) + tail) == Some((t, tail))
  {
    hide FindMark, SplitInstruction, LexStart, Find;
    var s := RenderToken(t) + tail;
    assert s == "</" + t.name + ">" + tail;
    var body := s[2..];
    assert body == t.name + ">" + tail;
    NameTextAvoids(t.name, '>');
    assert forall i :: 0 <= i < |t.name| ==> body[i] == t.name[i];
    FindAt(body, '>', |t.name|);
    assert body[..|t.name|] == t.name && body[|t.name| + 1..] == tail;
    assert s[0] == '<' && s[1] == '/';
  }

  /** No end of the mark is also its beginning. */
  ghost predicate Borderless(mark: string) {
    mark != "" && forall r :: 0 < r < |mark| ==> mark[r..] != mark[..|mark| - r]
  }

  /** After text that does not hold the mark, the mark is found where it was put. */
  lemma MarkFound(text: string, mark: string, tail: string)
    requires Borderless(mark) && !Contains(text, mark)
    ensures FindMark(text + mark + tail, mark) == |text|
  {
    var s := text + mark + tail;
    var n := |text|;
    assert s[n..] == mark + tail;
    forall i | 0 <= i < n ensures !(mark <= s[i..]) {
      if i + |mark| <= n {
        assert text[i..][..|mark|] == s[i..][..|mark|];
        assert !(mark <= text[i..]);
      } else {
        var r := n - i;
        var seen := s[i..][..|mark|];
        forall j | 0 <= j < |mark| - r ensures seen[r + j] == mark[j] {
          assert s[n..][j] == s[n + j];
        }
        assert seen[r..] == mark[..|mark| - r];
        assert mark[r..] != mark[..|mark| - r];
      }
    }
    FindMarkAt(s, mark, n);
  }

  lemma LexRemarkOf(t: Token, tail: string)
    requires t.Remark? && Safe(t)
    ensures LexMarkup(RenderToken(t) + tail) == Some((t, tail))
  {
    hide Contains, FindMark;
    var s := RenderToken(t) + tail;
    var body := t.text + "-->" + tail;
    assert s == "<!--" + body;
    assert s[4..] == body;
    assert Borderless("-->") by {
      assert "-->"[1..] == "->" && "-->"[..2] == "--" && "-->"[2..] == ">" && "-->"[..1] == "-";
    }
    MarkFound(t.text, "-->", tail);
    assert body[..|t.text|] == t.text && body[|t.text| + 3..] == tail;
  }

  lemma LexInstructionOf(t: Token, tail: string)
    requires t.Instruction? && Safe(t)
    ensures LexMarkup(RenderToken(t) + tail) == Some((t, tail))
  {
    InstructionBody(t);
    hide Contains, LexMarkup, SplitInstruction, NameText;
    var text := t.target + (if t.data == "" then "" else " " + t.data);
    LexQuestion(text, tail);
    InstructionText(t);
    Reassociate("<?", text, "?>", tail);
  }

  lemma InstructionText(t: Token)
    requires t.Instruction?
    ensures RenderToken(t) == "<?" + (t.target + (if t.data == "" then "" else " " + t.data)) + "?>"
  {
  }

  lemma Reassociate(a: string, b: string, c: string, d: string)
    ensures a + b + c + d == a + (b + c + d)
  {
  }

  lemma LexQuestion(text: string, tail: string)
    requires !Contains(text, "?>")
    ensures LexMarkup("<?" + (text + "?>" + tail)) == Some((SplitInstruction(text), tail))
  {
    hide Contains, FindMark, SplitInstruction;
    var body := text + "?>" + tail;
    var s := "<?" + body;
    assert s[2..] == body && s[1] == '?';
    assert Borderless("?>") by {
      assert "?>"[1..] == ">" && "?>"[..1] == "?";
    }
    MarkFound(text, "?>", tail);
    assert body[..|text|] == text && body[|text| + 2..] == tail;
  }

  lemma InstructionBody(t: Token)
    requires t.Instruction? && Safe(t)
    ensures var text := t.target + (if t.data == "" then "" else " " + t.data);
      !Contains(text, "?>") && SplitInstruction(text) == t
  {
    NameTextAvoids(t.target, ' ');
    NameTextAvoids(t.target, '?');
    if t.data == "" {
      var text := t.target + "";
      assert text == t.target;
      FindNowhere(text, ' ');
      assert text[..|text|] == text && text[|text|..] == "";
      assert forall i :: 0 <= i < |text| ==> text[i..][0] != '?';
    } else {
      InstructionWithData(t.target, t.data);
    }
  }

  lemma InstructionWithData(target: string, data: string)
    requires ' ' !in target && '?' !in target && !Contains(data, "?>") && data != "" && !IsSpace(data[0])
    ensures var text := target + (" " + data);
      !Contains(text, "?>") && SplitInstruction(text) == Instruction(target, data)
  {
    var n := |target|;
    var text := target + (" " + data);
    assert forall i :: 0 <= i < n ==> text[i] == target[i];
    assert text[n] == ' ' && text[n + 1..] == data;
    forall i | 0 <= i <= |text| ensures !("?>" <= text[i..]) {
      if i <= n {
        assert text[i..][0] == text[i] != '?';
      } else {
        assert text[i..] == data[i - n - 1..];
      }
    }
    FindAt(text, ' ', n);
    var rest := text[n..];
    assert rest[0] == ' ' && rest[1..] == data && text[..n] == target;
    assert SkipSpace(data) == data;
    assert SkipSpace(rest) == SkipSpace(rest[1..]);
  }

  /** Every readable piece of markup is read back as it was, whatever follows it. */
  lemma LexMarkupOf(t: Token, tail: string)
    requires Safe(t) && (t.Start? || t.End? || t.Remark? || t.Instruction?)
    ensures LexMarkup(RenderToken(t) + tail) == Some((t, tail))
    ensures RenderToken(t) != "" && RenderToken(t)[0] == '<'
  {
    hide LexMarkup, Safe;
    match t {
      case Start(_, _, _) => LexStartOf(t, tail);
      case End(_) => LexEndOf(t, tail);
      case Remark(_) => LexRemarkOf(t, tail);
      case Instruction(_, _) => LexInstructionOf(t, tail);
      case _ =>
    }
  }

  // ---------------------------------------------------------------- reading everything

  predicate IsText(t: Token) {
    t.Chars? || t.Break?
  }

  function TextOf(t: Token): string
    requires IsText(t)
  {
    if t.Break? then "\n" else t.text
  }

  function Prepend(x: string, ts: seq<Token>): seq<Token> {
    if x == "" then ts
    else if ts != [] && ts[0].Chars? then [Chars(x + ts[0].text)] + ts[1..]
    else [Chars(x)] + ts
  }

  /** A reader cannot see where one run of characters ends and the next begins. */
  function Coalesce(ts: seq<Token>): seq<Token> {
    if ts == [] then []
    else if IsText(ts[0]) then Prepend(TextOf(ts[0]), Coalesce(ts[1..]))
    else [ts[0]] + Coalesce(ts[1..])
  }

  lemma LexHead(s: string)
    requires Lex(s).Some?
    ensures Lex(s).value != [] && Lex(s).value[0].Chars? <==> s != "" && s[0] != '<'
  {
    hide LexMarkup;
  }

  lemma LexText(x: string, tail: string)
    requires Lex(tail).Some?
    ensures Lex(EscText(x) + tail) == Some(Prepend(x, Lex(tail).value))
  {
    hide Lex, Unescape, Find, Prepend;
    if x == "" {
      LexNothingBefore(tail);
    } else {
      var e := EscText(x);
      EscTextSafe(x);
      EscTextNonEmpty(x);
      hide Each;
      var s := e + tail;
      assert s[0] == e[0] && e[0] in e;
      FindPast(e, tail, '<');
      var k := Find(tail, '<');
      assert s[|e| + k..] == tail[k..] && s[..|e| + k] == e + tail[..k];
      UnescapeText(x, tail[..k]);
      LexTextSplit(s, x, tail, k);
    }
  }

  lemma LexNothingBefore(tail: string)
    requires Lex(tail).Some?
    ensures EscText("") + tail == tail && Prepend("", Lex(tail).value) == Lex(tail).value
  {
    hide Lex;
  }

  lemma EscTextNonEmpty(x: string)
    requires x != ""
    ensures EscText(x) != ""
  {
    assert EscText(x) == TextChar(x[0]) + EscText(x[1..]);
  }

  lemma FindPast(a: string, b: string, c: char)
    requires c !in a
    ensures Find(a + b, c) == |a| + Find(b, c)
  {
    var s, k := a + b, Find(b, c);
    assert forall i :: 0 <= i < |a| ==> s[i] == a[i];
    assert forall i :: 0 <= i < |b| ==> s[|a| + i] == b[i];
    if k < |b| {
      FindAt(s, c, |a| + k);
    } else {
      assert c !in s;
      FindNowhere(s, c);
    }
  }

  lemma LexTextSplit(s: string, x: string, tail: string, k: nat)
    requires s != "" && s[0] != '<' && x != "" && k == Find(tail, '<') <= Find(s, '<')
    requires s[Find(s, '<')..] == tail[k..]
    requires Unescape(s[..Find(s, '<')]) == x + Unescape(tail[..k])
    requires Lex(tail).Some?
    ensures Lex(s) == Some(Prepend(x, Lex(tail).value))
  {
    hide LexMarkup, Unescape;
    if tail == "" || tail[0] == '<' {
      assert k == 0 && tail[..0] == "" && tail[0..] == tail;
      UnescapeNothing();
      assert x + "" == x;
      LexHead(tail);
    } else {
      assert Lex(tail) == Some([Chars(Unescape(tail[..k]))] + Lex(tail[k..]).value);
    }
  }

  lemma UnescapeNothing()
    ensures Unescape("") == ""
  {
  }

  /** Reading canonical text gives back the tokens, up to where character runs are cut. */
  lemma {:induction false} LexAll(ts: seq<Token>)
    requires forall i :: 0 <= i < |ts| ==> Safe(ts[i])
    ensures Lex(RenderAll(ts)) == Some(Coalesce(ts))
  {
    hide Safe;
    if ts != [] {
      LexAll(ts[1..]);
      var tail := RenderAll(ts[1..]);
      if IsText(ts[0]) {
        LexText(TextOf(ts[0]), tail);
        BreakText();
      } else {
        NotFloating(ts[0]);
        LexMarkupOf(ts[0], tail);
        hide RenderToken, LexMarkup;
        var s := RenderToken(ts[0]) + tail;
        assert s[0] == '<';
      }
    }
  }

  lemma NotFloating(t: Token)
    requires Safe(t)
    ensures !t.Floating?
  {
  }

  lemma BreakText()
    ensures EscText("\n") == "\n"
  {
    assert "\n"[1..] == "";
  }
}
