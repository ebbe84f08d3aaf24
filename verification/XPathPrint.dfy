/**
 Printing an XPath filter fully parenthesised, and reading it back.
 */
module XPathPrint {
  import opened Dom
  import opened Namespaces
  import opened Lexer
  import opened XPathText
  import opened XPathParser

  /** Free of white space, quotes and parentheses. */
  predicate PlainChar(c: char) {
    !Blank(c) && c != '(' && c != ')' && c != '"' && c != '\''
  }

  predicate Plain(s: string) {
    forall i :: 0 <= i < |s| ==> PlainChar(s[i])
  }

  function QName(prefixOf: string -> string, uri: string, local: string): string {
    if uri == "" then local else prefixOf(uri) + ":" + local
  }

  function Quoted(s: string): string {
    "\"" + s + "\""
  }

  /** The words of an expression that is not built from others. */
  function AtomWords(prefixOf: string -> string, e: Expr): seq<string>
    requires !e.Not? && !e.And? && !e.Or?
  {
    match e
    case True => ["1"]
    case AncestorOrSelf(u, l) => ["ancestor-or-self::" + QName(prefixOf, u, l)]
    case SelfText => ["self::" + Call("text", "")]
    case HasAttributes => ["@*"]
    case SelfElement(u, l) => ["self::" + QName(prefixOf, u, l)]
    case NameEq(s) => [Call("name", ""), "=", Quoted(s)]
    case NameNeq(s) => [Call("name", ""), "!=", Quoted(s)]
    case NamespaceUriEq(s) => [Call("namespace-uri", ""), "=", Quoted(s)]
    case NamespaceUriNeq(s) => [Call("namespace-uri", ""), "!=", Quoted(s)]
    case ParentIs(u, l) => ["parent::" + QName(prefixOf, u, l)]
    case StringSelfEqNsUriParent => STRING_WORDS
    case IsNotParentNsNode => CountWords("!=")
    case IsParentNsNode => CountWords("=")
    case DepthOdd => DEPTH_WORDS
  }

  function Print(prefixOf: string -> string, e: Expr): string {
    match e
    case Not(x) => "not" + Paren(Print(prefixOf, x))
    case And(l, r) => Paren(Print(prefixOf, l)) + " and " + Paren(Print(prefixOf, r))
    case Or(l, r) => Paren(Print(prefixOf, l)) + " or " + Paren(Print(prefixOf, r))
    case _ => Join(AtomWords(prefixOf, e))
  }

  /** The prefix chosen for each URI resolves to it. */
  predicate NamePrints(chain: seq<Frame>, prefixOf: string -> string, uri: string, local: string) {
    && Plain(local)
    && if uri == "" then ':' !in local
       else Plain(prefixOf(uri)) && ':' !in prefixOf(uri) && Nearest(chain, prefixOf(uri)) == Some(uri)
  }

  predicate Printable(chain: seq<Frame>, prefixOf: string -> string, e: Expr) {
    match e
    case AncestorOrSelf(u, l) => NamePrints(chain, prefixOf, u, l)
    case SelfElement(u, l) => NamePrints(chain, prefixOf, u, l)
    case ParentIs(u, l) => NamePrints(chain, prefixOf, u, l)
    case NameEq(s) => Plain(s)
    case NameNeq(s) => Plain(s)
    case NamespaceUriEq(s) => Plain(s)
    case NamespaceUriNeq(s) => Plain(s)
    case Not(x) => Printable(chain, prefixOf, x)
    case And(l, r) => Printable(chain, prefixOf, l) && Printable(chain, prefixOf, r)
    case Or(l, r) => Printable(chain, prefixOf, l) && Printable(chain, prefixOf, r)
    case _ => true
  }

  // ---------------------------------------------------------------- shape of atoms

  /** A text without white space that leads from one parenthesis depth to another. */
  predicate Piece(s: string, x: int, y: int) {
    Solid(s) && Leads(s, x, y)
  }

  lemma PlainPiece(s: string, x: int)
    requires Plain(s) && x >= 0
    ensures Piece(s, x, x)
  {
    LeadsFlat(s, x);
  }

  lemma PieceConcat(a: string, b: string, x: int, y: int, z: int)
    requires Piece(a, x, y) && Piece(b, y, z)
    ensures Piece(a + b, x, z)
  {
    LeadsConcat(a, b, x, y, z);
  }

  lemma ParenPieces(x: int)
    requires x >= 0
    ensures Piece("(", x, x + 1) && Piece(")", x + 1, x)
  {
    LeadsParens(x);
  }

  lemma OpenPiece(f: string, a: string, x: int)
    requires Plain(f) && x >= 0 && Piece(a, x + 1, x + 1)
    ensures Piece(f + "(" + a, x, x + 1)
  {
    hide Piece;
    PlainPiece(f, x);
    ParenPieces(x);
    PieceConcat(f, "(", x, x, x + 1);
    PieceConcat(f + "(", a, x, x + 1, x + 1);
  }

  lemma CallPiece(f: string, a: string, x: int)
    requires Plain(f) && x >= 0 && Piece(a, x + 1, x + 1)
    ensures Piece(Call(f, a), x, x)
  {
    hide Piece;
    OpenPiece(f, a, x);
    ParenPieces(x);
    PieceConcat(f + "(" + a, ")", x, x + 1, x);
  }

  lemma EmptyCall(f: string, x: int)
    requires Plain(f) && x >= 0
    ensures Piece(Call(f, ""), x, x)
  {
    PlainPiece("", x + 1);
    CallPiece(f, "", x);
  }

  lemma NodeTest(axis: string, x: int)
    requires Plain(axis) && x >= 0
    ensures Piece(axis + NODE, x, x)
  {
    PlainPiece(axis, x);
    EmptyCall("node", x);
    PieceConcat(axis, NODE, x, x, x);
  }

  /** The depths between the words. */
  predicate Profile(ws: seq<string>, ds: seq<int>) {
    && |ds| == |ws| + 1
    && (forall i :: 0 <= i < |ds| ==> ds[i] >= 0)
    && (forall i :: 0 <= i < |ws| ==> Piece(ws[i], ds[i], ds[i + 1]))
  }

  lemma {:induction false} ProfileJoin(ws: seq<string>, ds: seq<int>)
    requires Profile(ws, ds)
    ensures Leads(Join(ws), ds[0], ds[|ws|])
  {
    if ws == [] {
      LeadsFlat("", ds[0]);
    } else if |ws| > 1 {
      ProfileJoin(ws[1..], ds[1..]);
      hide Depth;
      LeadsFlat(" ", ds[1]);
      LeadsConcat(ws[0], " ", ds[0], ds[1], ds[1]);
      LeadsConcat(ws[0] + " ", Join(ws[1..]), ds[0], ds[1], ds[|ws|]);
    }
  }

  /** Words that the parser cannot take for an operator, and a text whose parentheses match. */
  predicate Atomic(ws: seq<string>) {
    ws != [] && AllWords(ws) && "and" !in ws && "or" !in ws && Balanced(Join(ws))
  }

  lemma AtomicWords(ws: seq<string>, ds: seq<int>)
    requires ws != [] && Profile(ws, ds) && ds[0] == 0 == ds[|ws|]
    requires forall i :: 0 <= i < |ws| ==> ws[i] != "" && ws[i] != "and" && ws[i] != "or"
    ensures Atomic(ws)
  {
    ProfileJoin(ws, ds);
    forall i | 0 <= i < |ws| ensures IsWord(ws[i]) {
      assert Piece(ws[i], ds[i], ds[i + 1]);
    }
  }

  lemma NameShape(chain: seq<Frame>, prefixOf: string -> string, axis: string, uri: string, local: string)
    requires NamePrints(chain, prefixOf, uri, local) && Plain(axis) && |axis| > 3
    ensures Atomic([axis + QName(prefixOf, uri, local)])
  {
    var w := axis + QName(prefixOf, uri, local);
    PlainPiece(w, 0);
    hide Piece;
    AtomicWords([w], [0, 0]);
  }

  lemma TextShape()
    ensures Atomic(["self::" + Call("text", "")])
  {
    var w := "self::" + Call("text", "");
    PlainPiece("self::", 0);
    EmptyCall("text", 0);
    PieceConcat("self::", Call("text", ""), 0, 0, 0);
    hide Piece;
    AtomicWords([w], [0, 0]);
  }

  lemma CompareShape(fn: string, op: string, s: string)
    requires Plain(fn) && |fn| > 3 && (op == "=" || op == "!=") && Plain(s)
    ensures Atomic([Call(fn, ""), op, Quoted(s)])
  {
    var w, q := Call(fn, ""), Quoted(s);
    EmptyCall(fn, 0);
    PlainPiece(op, 0);
    LeadsFlat(q, 0);
    assert q[0] == '"' && Piece(q, 0, 0);
    hide Piece;
    AtomicWords([w, op, q], [0, 0, 0, 0]);
  }

  lemma StringShape()
    ensures Atomic(STRING_WORDS)
  {
    hide Piece;
    NodeTest("self::", 1);
    CallPiece("string", "self::" + NODE, 0);
    NodeTest("parent::", 1);
    CallPiece("namespace-uri", "parent::" + NODE, 0);
    PlainPiece("=", 0);
    hide Plain;
    AtomicWords(STRING_WORDS, [0, 0, 0, 0]);
  }

  lemma ParentNsPiece()
    ensures Piece(PARENT_NS, 1, 1)
  {
    NodeTest("parent::", 1);
    PlainPiece("/namespace::*", 1);
    PieceConcat("parent::" + NODE, "/namespace::*", 1, 1, 1);
  }

  lemma CountShape(op: string)
    requires op == "=" || op == "!="
    ensures Atomic(CountWords(op))
  {
    hide Piece;
    ParentNsPiece();
    CallPiece("count", PARENT_NS, 0);
    OpenPiece("count", PARENT_NS, 0);
    PlainPiece(op, 0);
    PlainPiece("|", 1);
    NodeTest("self::", 1);
    ParenPieces(0);
    PieceConcat("self::" + NODE, ")", 1, 1, 0);
    hide Plain;
    AtomicWords(CountWords(op), [0, 0, 0, 1, 1, 0]);
  }

  lemma DepthShape()
    ensures Atomic(DEPTH_WORDS)
  {
    hide Piece;
    NodeTest("ancestor-or-self::", 2);
    CallPiece("count", "ancestor-or-self::" + NODE, 1);
    ParenPieces(0);
    PieceConcat("(", Call("count", "ancestor-or-self::" + NODE), 0, 1, 1);
    PlainPiece("mod", 1);
    PlainPiece("2", 1);
    PieceConcat("2", ")", 1, 1, 0);
    PlainPiece("=", 0);
    PlainPiece("1", 0);
    hide Plain;
    assert DEPTH_WORDS[0][0] == '(' && DEPTH_WORDS[1][0] == 'm' && DEPTH_WORDS[2][0] == '2';
    AtomicWords(DEPTH_WORDS, [0, 1, 1, 0, 0, 0]);
  }

  predicate IsAtom(e: Expr) {
    !e.Not? && !e.And? && !e.Or?
  }

  lemma AtomShape(chain: seq<Frame>, prefixOf: string -> string, e: Expr)
    requires IsAtom(e) && Printable(chain, prefixOf, e)
    ensures Atomic(AtomWords(prefixOf, e))
  {
    hide Atomic, Plain, Quoted, NamePrints, QName;
    AxesArePlain();
    match e {
      case AncestorOrSelf(u, l) => NameShape(chain, prefixOf, "ancestor-or-self::", u, l);
      case SelfElement(u, l) => NameShape(chain, prefixOf, "self::", u, l);
      case ParentIs(u, l) => NameShape(chain, prefixOf, "parent::", u, l);
      case SelfText => TextShape();
      case NameEq(s) => CompareShape("name", "=", s);
      case NameNeq(s) => CompareShape("name", "!=", s);
      case NamespaceUriEq(s) => CompareShape("namespace-uri", "=", s);
      case NamespaceUriNeq(s) => CompareShape("namespace-uri", "!=", s);
      case StringSelfEqNsUriParent => StringShape();
      case IsNotParentNsNode => CountShape("!=");
      case IsParentNsNode => CountShape("=");
      case DepthOdd => DepthShape();
      case HasAttributes => ShortShape("@*");
      case True => ShortShape("1");
    }
  }

  lemma ShortShape(w: string)
    requires w == "1" || w == "@*"
    ensures Atomic([w])
  {
    PlainPiece(w, 0);
    AtomicWords([w], [0, 0]);
  }

  lemma AxesArePlain()
    ensures Plain("ancestor-or-self::") && Plain("self::") && Plain("parent::") && Plain("name") && Plain("namespace-uri")
  {
    LongAxisIsPlain();
  }

  lemma LongAxisIsPlain()
    ensures Plain("ancestor-or-self::")
  {
  }

  // ---------------------------------------------------------------- reading atoms

  lemma NameResolves(chain: seq<Frame>, prefixOf: string -> string, uri: string, local: string)
    requires NamePrints(chain, prefixOf, uri, local)
    ensures ResolveName(chain, QName(prefixOf, uri, local)) == Some((uri, local))
    ensures '(' !in QName(prefixOf, uri, local)
  {
    hide Nearest;
    if uri == "" {
      FindNowhere(local, ':');
    } else {
      var q := prefixOf(uri) + ([':'] + local);
      assert QName(prefixOf, uri, local) == q;
      FindBetween(prefixOf(uri), ':', local);
      assert q[..|prefixOf(uri)|] == prefixOf(uri) && q[|prefixOf(uri)| + 1..] == local;
    }
  }

  /** A text of atomic words is an atom to the parser, unless it looks like something else. */
  lemma ParseAtomic(env: Env, ws: seq<string>)
    requires Atomic(ws) && env.number(Join(ws)) == None
    requires Join(ws)[0] != '(' || Join(ws)[|Join(ws)| - 1] != ')'
    requires |Join(ws)| > 1 && Join(ws)[0] == 'n' ==> Join(ws)[1] != 'o'
    ensures Parse(env, Join(ws)) == Atom(env, Join(ws))
  {
    var s := Join(ws);
    JoinEnds(ws);
    TrimTrimmed(s);
    NoOperator(ws, "and");
    NoOperator(ws, "or");
    assert NotInner(s) == None by {
      assert "not("[0] == 'n' && "not("[1] == 'o' && "not ("[0] == 'n' && "not ("[1] == 'o';
    }
    assert " " + "and" + " " == " and " && " " + "or" + " " == " or ";
    hide Atom, Join, NotInner, Trim, SplitFrom, Atomic;
  }

  lemma NoOperator(ws: seq<string>, op: string)
    requires Atomic(ws) && (op == "and" || op == "or")
    ensures SplitFrom(Join(ws), " " + op + " ", 0) == None
  {
    var s, sep := Join(ws), " " + op + " ";
    forall j | 0 <= j < |s| ensures !SplitsAt(s, sep, j) {
      if sep <= s[j..] {
        JoinHolds(ws, op, j);
      }
    }
    SplitNever(s, sep, 0);
  }

  lemma JoinOne(w: string)
    ensures Join([w]) == w
  {
  }

  lemma ReadName(env: Env, prefixOf: string -> string, e: Expr)
    requires NumbersArePlain(env) && Printable(env.chain, prefixOf, e)
    requires e.AncestorOrSelf? || e.SelfElement? || e.ParentIs?
    ensures Parse(env, Print(prefixOf, e)) == Some(e)
  {
    AtomShape(env.chain, prefixOf, e);
    NameResolves(env.chain, prefixOf, e.uri, e.local);
    var q := QName(prefixOf, e.uri, e.local);
    var s := AtomWords(prefixOf, e)[0];
    assert AtomWords(prefixOf, e) == [s];
    assert s == Axis(e) + q && s[|Axis(e)| - 1] == ':' && ':' in s;
    assert s[0] != '(' && s[0] != 'n';
    JoinOne(s);
    hide Atomic, NamePrints, ResolveName, QName, Plain, Call, Comparison;
    ParseAtomic(env, [s]);
    hide Parse;
    AtomName(env, e, q);
  }

  function Axis(e: Expr): string {
    if e.AncestorOrSelf? then "ancestor-or-self::" else if e.SelfElement? then "self::" else "parent::"
  }

  lemma AtomName(env: Env, e: Expr, q: string)
    requires e.AncestorOrSelf? || e.SelfElement? || e.ParentIs?
    requires '(' !in q && ResolveName(env.chain, q) == Some((e.uri, e.local))
    ensures Atom(env, Axis(e) + q) == Some(e)
  {
    CallsHaveParens(q);
    var s := Axis(e) + q;
    assert Axis(e) <= s && s[|Axis(e)|..] == q;
    assert ("self::" + Call("text", ""))[0] == 's';
    assert s[0] == Axis(e)[0] && "self::"[0] == 's' && "ancestor-or-self::"[0] == 'a' && "@*"[0] == '@';
    hide ResolveName, Call, Comparison;
  }

  lemma CallsHaveParens(q: string)
    requires '(' !in q
    ensures q != Call("text", "") && q != NODE
    ensures "self::" + q != "self::" + Call("text", "")
  {
    assert Call("text", "")[4] == '(' && NODE[4] == '(';
    assert ("self::" + q)[6..] == q && ("self::" + Call("text", ""))[6..] == Call("text", "");
  }

  lemma ReadShort(env: Env, prefixOf: string -> string, e: Expr)
    requires NumbersArePlain(env) && (e.True? || e.HasAttributes? || e.SelfText?)
    ensures Parse(env, Print(prefixOf, e)) == Some(e)
  {
    AtomShape(env.chain, prefixOf, e);
    var s := if e.True? then "1" else if e.HasAttributes? then "@*" else "self::" + Call("text", "");
    JoinOne(s);
    assert AtomWords(prefixOf, e) == [s];
    if e.True? {
      TrimTrimmed(s);
    } else {
      hide Atomic, Comparison, ResolveName;
      assert (s[0] == '@' || s[4] == ':') && s[0] != '(' && s[0] != 'n';
      ParseAtomic(env, [s]);
      hide Parse;
    }
  }

  // ---------------------------------------------------------------- reading comparisons

  lemma UnquoteQuoted(s: string)
    requires Plain(s)
    ensures Unquote(Quoted(s)) == s
  {
    var q := Quoted(s);
    assert q[1..] == s + "\"";
    TrimStartPlain(s, "\"", '"');
    if s == "" {
      assert s + "\"" == "\"";
      assert TrimStartOf("\"", '"') == "";
    } else {
      assert TrimStartOf(q, '"') == s + "\"";
      assert (s + "\"")[..|s|] == s;
      assert TrimEndOf(s + "\"", '"') == TrimEndOf(s, '"') == s;
    }
  }

  lemma TrimStartPlain(s: string, rest: string, c: char)
    requires Plain(s) && (c == '"' || c == '\'')
    ensures s != "" ==> TrimStartOf(s + rest, c) == s + rest
  {
  }

  lemma CompareReads(fn: string, op: string, s: string)
    requires (op == "=" || op == "!=") && Plain(s)
    ensures Compare(fn, Join([fn, op, Quoted(s)])) == Some((op == "=", s))
  {
    var q := Quoted(s);
    JoinThree(fn, op, q);
    var rest := op + " " + q;
    assert rest[0] == op[0] && rest[|rest| - 1] == '"' && q[0] == '"' && q[|q| - 1] == '"';
    TrimSpace(rest);
    TrimSpace(q);
    UnquoteQuoted(s);
    hide Trim, Unquote, Quoted, Join, Plain;
    CompareAfter(fn, op, q);
  }

  lemma CompareAfter(fn: string, op: string, q: string)
    requires op == "=" || op == "!="
    requires Trim(" " + (op + " " + q)) == op + " " + q && Trim(" " + q) == q
    ensures Compare(fn, fn + " " + (op + " " + q)) == Some((op == "=", Unquote(q)))
  {
    hide Trim, Unquote;
    var rest := op + " " + q;
    var text := fn + " " + rest;
    assert fn <= text && text[|fn|..] == " " + rest;
    assert op <= rest && rest[|op|..] == " " + q;
    assert op == "=" ==> rest[0] == '=' && "!="[0] == '!';
  }

  lemma JoinThree(a: string, b: string, c: string)
    ensures Join([a, b, c]) == a + " " + (b + " " + c)
  {
    assert [a, b, c][1..] == [b, c] && [b, c][1..] == [c];
    assert Join([c]) == c && Join([b, c]) == b + " " + c;
  }

  lemma TrimSpace(s: string)
    requires Trimmed(s)
    ensures Trim(" " + s) == s
  {
    assert (" " + s)[1..] == s;
    assert TrimStart(" " + s) == TrimStart(s) == s;
    TrimTrimmed(s);
  }

  /** A text that begins like none of the axis forms is compared after normalization. */
  lemma AtomCompares(env: Env, ws: seq<string>)
    requires ws != [] && AllWords(ws)
    requires var c := Join(ws)[0]; (c == 'n' || c == 'c' || c == '(') || (c == 's' && |Join(ws)| > 1 && Join(ws)[1] == 't')
    ensures Atom(env, Join(ws)) == Comparison(Join(ws))
  {
    WordsOfJoin(ws);
    hide Join, Words;
    NoAxis(env, Join(ws));
  }

  lemma NoAxis(env: Env, s: string)
    requires s != "" && Normalized(s) == s
    requires (s[0] == 'n' || s[0] == 'c' || s[0] == '(') || (s[0] == 's' && |s| > 1 && s[1] == 't')
    ensures Atom(env, s) == Comparison(s)
  {
    hide Comparison, ResolveName, Normalized;
    assert "self::"[0] == 's' && "self::"[1] == 'e' && "ancestor-or-self::"[0] == 'a' && "parent::"[0] == 'p' && "@*"[0] == '@';
    var t := "self::" + Call("text", "");
    assert t[0] == 's' && t[1] == 'e';
    assert s != t && !("self::" <= s) && !("ancestor-or-self::" <= s) && !("parent::" <= s);
    hide Call;
  }

  lemma ReadComparison(env: Env, prefixOf: string -> string, e: Expr)
    requires NumbersArePlain(env) && Printable(env.chain, prefixOf, e)
    requires e.NameEq? || e.NameNeq? || e.NamespaceUriEq? || e.NamespaceUriNeq?
    ensures Parse(env, Print(prefixOf, e)) == Some(e)
  {
    hide Atomic, Plain, Quoted, Call, Compare, AtomWords, CompareWords, Join, Comparison, Parse, Atom, Print, Printable, AllWords;
    var isName, eq := e.NameEq? || e.NameNeq?, e.NameEq? || e.NamespaceUriEq?;
    var ws := ComparisonWords(env.chain, prefixOf, e, isName, eq);
    AtomicParts(ws);
    CompareBegins(isName, eq, e.text);
    ComparisonReads(isName, eq, e.text);
    ParseAtomic(env, ws);
    AtomCompares(env, ws);
  }

  /** The words of a comparison. */
  lemma ComparisonWords(chain: seq<Frame>, prefixOf: string -> string, e: Expr, isName: bool, eq: bool) returns (ws: seq<string>)
    requires Printable(chain, prefixOf, e) && (e.NameEq? || e.NameNeq? || e.NamespaceUriEq? || e.NamespaceUriNeq?)
    requires isName == (e.NameEq? || e.NameNeq?) && eq == (e.NameEq? || e.NamespaceUriEq?)
    ensures ws == CompareWords(isName, eq, e.text) && Atomic(ws) && Plain(e.text) && Print(prefixOf, e) == Join(ws)
  {
    AtomShape(chain, prefixOf, e);
    hide Join, Atomic, Plain, Quoted, Call;
    ws := AtomWords(prefixOf, e);
  }

  function CompareWords(isName: bool, eq: bool, text: string): seq<string> {
    [if isName then Call("name", "") else Call("namespace-uri", ""), if eq then "=" else "!=", Quoted(text)]
  }

  lemma CompareBegins(isName: bool, eq: bool, text: string)
    requires AllWords(CompareWords(isName, eq, text))
    ensures var s := Join(CompareWords(isName, eq, text));
      |s| > 4 && s[0] == 'n' && s[1] == 'a' && s[4] == (if isName then '(' else 's') && '(' in s
  {
    var ws := CompareWords(isName, eq, text);
    JoinEnds(ws);
    var s, fn := Join(ws), ws[0];
    var k := if isName then 4 else 13;
    assert fn[0] == 'n' && fn[1] == 'a' && fn[4] == (if isName then '(' else 's') && fn[k] == '(';
    assert fn <= s && s[1] == fn[1] && s[4] == fn[4] && s[k] == fn[k];
  }

  lemma ComparisonReads(isName: bool, eq: bool, text: string)
    requires Plain(text) && AllWords(CompareWords(isName, eq, text))
    ensures Comparison(Join(CompareWords(isName, eq, text))) ==
      Some(if isName then (if eq then NameEq(text) else NameNeq(text))
           else if eq then NamespaceUriEq(text) else NamespaceUriNeq(text))
  {
    var s := Join(CompareWords(isName, eq, text));
    CompareReads(if isName then Call("name", "") else Call("namespace-uri", ""), if eq then "=" else "!=", text);
    CompareBegins(isName, eq, text);
    assert Call("name", "")[4] == '(';
    assert !isName ==> !(Call("name", "") <= s);
    CompareNone(Call("name", ""), s);
    hide Compare, Join, Call, Quoted;
  }

  lemma CompareNone(fn: string, s: string)
    ensures !(fn <= s) ==> Compare(fn, s) == None
  {
  }


  lemma AtomicParts(ws: seq<string>)
    requires Atomic(ws)
    ensures ws != [] && AllWords(ws)
  {
  }

  // ---------------------------------------------------------------- reading the fixed forms

  lemma CountBegins(op: string)
    requires AllWords(CountWords(op))
    ensures |Join(CountWords(op))| > 1 && Join(CountWords(op))[0] == 'c' && '(' in Join(CountWords(op))
  {
    var ws := CountWords(op);
    JoinEnds(ws);
    assert ws[0][0] == 'c' && ws[0][5] == '(';
    assert Join(ws)[5] == ws[0][5];
  }

  lemma OtherBegins()
    requires AllWords(STRING_WORDS) && AllWords(DEPTH_WORDS)
    ensures |Join(STRING_WORDS)| > 1 && Join(STRING_WORDS)[0] == 's' && Join(STRING_WORDS)[1] == 't' && '(' in Join(STRING_WORDS)
    ensures var d := Join(DEPTH_WORDS); |d| > 1 && d[0] == '(' && d[|d| - 1] == '1'
  {
    JoinEnds(STRING_WORDS);
    JoinEnds(DEPTH_WORDS);
    var w := STRING_WORDS[0];
    assert w[0] == 's' && w[1] == 't' && w[6] == '(';
    assert Join(STRING_WORDS)[1] == w[1] && Join(STRING_WORDS)[6] == w[6];
    assert DEPTH_WORDS[0][0] == '(' && DEPTH_WORDS[4] == "1";
  }

  /** The four fixed forms differ from each other and from the comparisons. */
  lemma ConstantsDiffer()
    requires AllWords(STRING_WORDS) && AllWords(DEPTH_WORDS) && AllWords(CountWords("=")) && AllWords(CountWords("!="))
    ensures Comparison(Join(STRING_WORDS)) == Some(StringSelfEqNsUriParent)
    ensures Comparison(Join(CountWords("!="))) == Some(IsNotParentNsNode)
    ensures Comparison(Join(CountWords("="))) == Some(IsParentNsNode)
    ensures Comparison(Join(DEPTH_WORDS)) == Some(DepthOdd)
  {
    OtherBegins();
    CountBegins("=");
    CountBegins("!=");
    WordsOfJoin(CountWords("="));
    WordsOfJoin(CountWords("!="));
    assert CountWords("=")[1] != CountWords("!=")[1];
    hide Join, Words, CountWords, AllWords;
    hide Comparison;
    FixedForm(Join(STRING_WORDS));
    FixedForm(Join(CountWords("!=")));
    FixedForm(Join(CountWords("=")));
    FixedForm(Join(DEPTH_WORDS));
  }

  lemma FixedForm(s: string)
    requires s != "" && s[0] != 'n'
    ensures Comparison(s) ==
      if s == Join(STRING_WORDS) then Some(StringSelfEqNsUriParent)
      else if s == Join(CountWords("!=")) then Some(IsNotParentNsNode)
      else if s == Join(CountWords("=")) then Some(IsParentNsNode)
      else if s == Join(DEPTH_WORDS) then Some(DepthOdd)
      else None
  {
    hide Join;
    assert Call("name", "")[0] == 'n' && Call("namespace-uri", "")[0] == 'n';
    CompareNone(Call("name", ""), s);
    CompareNone(Call("namespace-uri", ""), s);
    hide Compare, Call, CountWords;
  }

  /** The words of a fixed form. */
  lemma ConstantWords(prefixOf: string -> string, e: Expr) returns (ws: seq<string>)
    requires e.StringSelfEqNsUriParent? || e.IsNotParentNsNode? || e.IsParentNsNode? || e.DepthOdd?
    ensures Atomic(ws) && Print(prefixOf, e) == Join(ws)
    ensures ws == if e.StringSelfEqNsUriParent? then STRING_WORDS else if e.DepthOdd? then DEPTH_WORDS
                  else CountWords(if e.IsParentNsNode? then "=" else "!=")
  {
    hide Join, Atomic;
    StringShape();
    DepthShape();
    CountShape("=");
    CountShape("!=");
    ws := AtomWords(prefixOf, e);
  }

  lemma ReadConstant(env: Env, prefixOf: string -> string, e: Expr)
    requires NumbersArePlain(env)
    requires e.StringSelfEqNsUriParent? || e.IsNotParentNsNode? || e.IsParentNsNode? || e.DepthOdd?
    ensures Parse(env, Print(prefixOf, e)) == Some(e)
  {
    hide *;
    StringShape();
    DepthShape();
    CountShape("=");
    CountShape("!=");
    var ws := ConstantWords(prefixOf, e);
    AtomicParts(STRING_WORDS);
    AtomicParts(DEPTH_WORDS);
    AtomicParts(CountWords("="));
    AtomicParts(CountWords("!="));
    OtherBegins();
    CountBegins("=");
    CountBegins("!=");
    ConstantsDiffer();
    ReadFixed(env, ws, e);
  }

  lemma ReadFixed(env: Env, ws: seq<string>, e: Expr)
    requires NumbersArePlain(env) && Atomic(ws) && Comparison(Join(ws)) == Some(e)
    requires var s := Join(ws);
      |s| > 1 && '(' in s && (s[0] == 'c' || (s[0] == '(' && s[|s| - 1] == '1') || (s[0] == 's' && s[1] == 't'))
    ensures Parse(env, Join(ws)) == Some(e)
  {
    AtomicParts(ws);
    hide Atomic, Join, Comparison, AllWords;
    ParseAtomic(env, ws);
    AtomCompares(env, ws);
    hide Parse, Atom;
  }

  // ---------------------------------------------------------------- what is refused

  /** Without a parenthesis no form but the axes can be read. */
  lemma NoComparison(w: string)
    requires w != "" && '(' !in w
    ensures Comparison(w) == None
  {
    hide *;
    StringShape();
    DepthShape();
    CountShape("=");
    CountShape("!=");
    AtomicParts(STRING_WORDS);
    AtomicParts(DEPTH_WORDS);
    AtomicParts(CountWords("="));
    AtomicParts(CountWords("!="));
    OtherBegins();
    CountBegins("=");
    CountBegins("!=");
    NotCalled("name", w);
    NotCalled("namespace-uri", w);
    assert Join(DEPTH_WORDS)[0] in Join(DEPTH_WORDS);
    NoForm(w);
  }

  lemma NotCalled(f: string, w: string)
    requires '(' !in w
    ensures Compare(Call(f, ""), w) == None
  {
    var c := Call(f, "");
    assert c[|f|] == '(' && c[|f|] in c;
    PrefixWithin(c, w);
  }

  lemma PrefixWithin(a: string, w: string)
    ensures a <= w ==> forall x :: x in a ==> x in w
  {
    forall i | 0 <= i < |a| && a <= w ensures a[i] in w {
      assert a[i] == w[i];
    }
  }

  lemma NoForm(w: string)
    requires '(' !in w && Compare(Call("name", ""), w) == None && Compare(Call("namespace-uri", ""), w) == None
    requires '(' in Join(STRING_WORDS) && '(' in Join(CountWords("=")) && '(' in Join(CountWords("!="))
    requires '(' in Join(DEPTH_WORDS)
    ensures Comparison(w) == None
  {
    hide Join, Compare, CountWords, Call;
  }

  lemma NoOperatorInWord(w: string, sep: string)
    requires IsWord(w) && sep != "" && sep[0] == ' '
    ensures SplitFrom(w, sep, 0) == None
  {
    assert ' ' !in w && sep[0] in sep;
    forall j | 0 <= j < |w| ensures !SplitsAt(w, sep, j) {
      PrefixWithin(sep, w[j..]);
    }
    SplitNever(w, sep, 0);
  }

  /** A single word without parenthesis, colon or `@` that is no numeral is no filter: it is refused, whatever
      it is, and does not become a filter that lets everything pass. */
  lemma WordIsRefused(env: Env, w: string)
    requires IsWord(w) && '(' !in w && ':' !in w && '@' !in w && env.number(w) == None
    ensures Parse(env, w) == None
  {
    NoComparison(w);
    NoOperatorInWord(w, " and ");
    NoOperatorInWord(w, " or ");
    TrimTrimmed(w);
    JoinOne(w);
    assert [w] == [Join([w])];
    WordsOfJoin([w]);
    assert Normalized(w) == w;
    assert NotInner(w) == None by {
      assert "not("[3] == '(' && "not ("[4] == '(';
    }
    assert Atom(env, w) == None by {
      assert "self::"[4] == ':' && "ancestor-or-self::"[16] == ':' && "parent::"[6] == ':' && "@*"[0] == '@';
      var t := "self::" + Call("text", "");
      assert t[4] == ':';
      hide Comparison, Call, ResolveName, Normalized;
    }
    hide Atom, NotInner, SplitFrom, Trim;
  }

  // ---------------------------------------------------------------- the round trip

  lemma {:induction false} PrintShape(chain: seq<Frame>, prefixOf: string -> string, e: Expr)
    requires Printable(chain, prefixOf, e)
    ensures Balanced(Print(prefixOf, e)) && Trimmed(Print(prefixOf, e))
  {
    hide Balanced, Trimmed, AtomWords, Paren, NamePrints;
    match e {
      case Not(x) =>
        PrintShape(chain, prefixOf, x);
        NotShape(Print(prefixOf, x));
      case And(l, r) =>
        PrintShape(chain, prefixOf, l);
        PrintShape(chain, prefixOf, r);
        OperatorShape(Print(prefixOf, l), " and ", Print(prefixOf, r));
      case Or(l, r) =>
        PrintShape(chain, prefixOf, l);
        PrintShape(chain, prefixOf, r);
        OperatorShape(Print(prefixOf, l), " or ", Print(prefixOf, r));
      case _ =>
        AtomShape(chain, prefixOf, e);
        AtomicParts(AtomWords(prefixOf, e));
        JoinEnds(AtomWords(prefixOf, e));
    }
  }

  lemma NotShape(a: string)
    requires Balanced(a)
    ensures Balanced("not" + Paren(a)) && Trimmed("not" + Paren(a))
  {
    LeadsParen(a);
    LeadsFlat("not", 0);
    LeadsConcat("not", Paren(a), 0, 0, 0);
  }

  lemma OperatorShape(a: string, op: string, b: string)
    requires Balanced(a) && Balanced(b) && '(' !in op && ')' !in op
    ensures Balanced(Paren(a) + op + Paren(b)) && Trimmed(Paren(a) + op + Paren(b))
  {
    LeadsParen(a);
    LeadsParen(b);
    LeadsFlat(op, 0);
    LeadsConcat(Paren(a), op, 0, 0, 0);
    LeadsConcat(Paren(a) + op, Paren(b), 0, 0, 0);
  }

  /** Every expression whose names can be written with the prefixes in scope is read back from
      its printed form. */
  lemma {:induction false} ParsePrint(env: Env, prefixOf: string -> string, e: Expr)
    requires NumbersArePlain(env) && Printable(env.chain, prefixOf, e)
    ensures Parse(env, Print(prefixOf, e)) == Some(e)
  {
    hide Parse, Balanced, Trimmed, Paren, AtomWords, NumbersArePlain;
    match e {
      case Not(x) =>
        PrintShape(env.chain, prefixOf, x);
        ParsePrint(env, prefixOf, x);
        ParseNot(env, Print(prefixOf, x));
      case And(l, r) =>
        var a, b := Print(prefixOf, l), Print(prefixOf, r);
        PrintShape(env.chain, prefixOf, l);
        PrintShape(env.chain, prefixOf, r);
        ParsePrint(env, prefixOf, l);
        ParsePrint(env, prefixOf, r);
        ParenTrimmed(b);
        ParseAnd(env, a, Paren(b));
        ParseParen(env, b);
      case Or(l, r) =>
        PrintShape(env.chain, prefixOf, l);
        PrintShape(env.chain, prefixOf, r);
        ParsePrint(env, prefixOf, l);
        ParsePrint(env, prefixOf, r);
        ParseOr(env, Print(prefixOf, l), Print(prefixOf, r));
      case AncestorOrSelf(_, _) => ReadName(env, prefixOf, e);
      case SelfElement(_, _) => ReadName(env, prefixOf, e);
      case ParentIs(_, _) => ReadName(env, prefixOf, e);
      case NameEq(_) => ReadComparison(env, prefixOf, e);
      case NameNeq(_) => ReadComparison(env, prefixOf, e);
      case NamespaceUriEq(_) => ReadComparison(env, prefixOf, e);
      case NamespaceUriNeq(_) => ReadComparison(env, prefixOf, e);
      case True => ReadShort(env, prefixOf, e);
      case SelfText => ReadShort(env, prefixOf, e);
      case HasAttributes => ReadShort(env, prefixOf, e);
      case _ => ReadConstant(env, prefixOf, e);
    }
  }

  lemma ParenTrimmed(a: string)
    ensures Trimmed(Paren(a))
  {
  }
}
