/**
 The boolean XPath filter language: its parser, a fully parenthesised printer, and the proof
 that the parser undoes the printer.
 */
module XPathParser {
  import opened Dom
  import opened Namespaces
  import opened Lexer
  import opened XPathText

  datatype Expr =
    | True
    | AncestorOrSelf(uri: string, local: string)
    | SelfText
    | HasAttributes
    | SelfElement(uri: string, local: string)
    | Not(inner: Expr)
    | And(left: Expr, right: Expr)
    | Or(left: Expr, right: Expr)
    | NameEq(text: string)
    | NameNeq(text: string)
    | NamespaceUriEq(text: string)
    | NamespaceUriNeq(text: string)
    | ParentIs(uri: string, local: string)
    | StringSelfEqNsUriParent
    | IsNotParentNsNode
    | IsParentNsNode
    | DepthOdd

  /** Where an expression is read: `number` reads a floating-point numeral and tells whether it
      is non-zero; `chain` is the XPath element and its ancestors. */
  datatype Env = Env(number: string -> Option<bool>, chain: seq<Frame>)

  // ---------------------------------------------------------------- atoms

  /** A possibly prefixed name; without a prefix any namespace will do. */
  function ResolveName(chain: seq<Frame>, name: string): Option<(string, string)> {
    var k := Find(name, ':');
    if k == |name| then Some(("", name))
    else
      match Nearest(chain, name[..k])
      case None => None
      case Some(uri) => Some((uri, name[k + 1..]))
  }

  function TrimStartOf(s: string, c: char): string {
    if s != "" && s[0] == c then TrimStartOf(s[1..], c) else s
  }

  function TrimEndOf(s: string, c: char): string {
    if s != "" && s[|s| - 1] == c then TrimEndOf(s[..|s| - 1], c) else s
  }

  function Unquote(s: string): string {
    var t := TrimEndOf(TrimStartOf(s, '"'), '"');
    TrimEndOf(TrimStartOf(t, '\''), '\'')
  }

  /** `fn = "text"` or `fn != "text"`; the flag tells equality. */
  function Compare(fn: string, s: string): Option<(bool, string)> {
    if !(fn <= s) then None
    else
      var rest := Trim(s[|fn|..]);
      if "!=" <= rest then Some((false, Unquote(Trim(rest[2..]))))
      else if "=" <= rest then Some((true, Unquote(Trim(rest[1..]))))
      else None
  }

  function Call(f: string, argument: string): string {
    f + "(" + argument + ")"
  }

  const NODE: string := Call("node", "")
  const PARENT_NS: string := "parent::" + NODE + "/namespace::*"

  const STRING_WORDS: seq<string> := [Call("string", "self::" + NODE), "=", Call("namespace-uri", "parent::" + NODE)]

  function CountWords(op: string): seq<string> {
    [Call("count", PARENT_NS), op, "count" + "(" + PARENT_NS, "|", "self::" + NODE + ")"]
  }

  const DEPTH_WORDS: seq<string> := ["(" + Call("count", "ancestor-or-self::" + NODE), "mod", "2" + ")", "=", "1"]

  /** The forms that are compared after white space was normalized. */
  function Comparison(s: string): Option<Expr> {
    match Compare(Call("name", ""), s)
    case Some((eq, text)) => Some(if eq then NameEq(text) else NameNeq(text))
    case None =>
      match Compare(Call("namespace-uri", ""), s)
      case Some((eq, text)) => Some(if eq then NamespaceUriEq(text) else NamespaceUriNeq(text))
      case None =>
        if s == Join(STRING_WORDS) then Some(StringSelfEqNsUriParent)
        else if s == Join(CountWords("!=")) then Some(IsNotParentNsNode)
        else if s == Join(CountWords("=")) then Some(IsParentNsNode)
        else if s == Join(DEPTH_WORDS) then Some(DepthOdd)
        else None
  }

  function Named(make: (string, string) -> Expr, n: Option<(string, string)>): Option<Expr> {
    if n.None? then None else Some(make(n.value.0, n.value.1))
  }

  function Atom(env: Env, s: string): Option<Expr> {
    if s == "self::" + Call("text", "") then Some(SelfText)
    else if s == "@*" then Some(HasAttributes)
    else if "self::" <= s && s[6..] != Call("text", "") && s[6..] != NODE then
      Named((u, l) => SelfElement(u, l), ResolveName(env.chain, s[6..]))
    else if "ancestor-or-self::" <= s then
      Named((u, l) => AncestorOrSelf(u, l), ResolveName(env.chain, s[18..]))
    else if "parent::" <= s && s[8..] != NODE then
      Named((u, l) => ParentIs(u, l), ResolveName(env.chain, s[8..]))
    else Comparison(Normalized(s))
  }

  // ---------------------------------------------------------------- expressions

  function Both(make: (Expr, Expr) -> Expr, l: Option<Expr>, r: Option<Expr>): Option<Expr> {
    if l.None? || r.None? then None else Some(make(l.value, r.value))
  }

  function Negated(e: Option<Expr>): Option<Expr> {
    if e.None? then None else Some(Not(e.value))
  }

  const MakeAnd: (Expr, Expr) -> Expr := (l, r) => And(l, r)
  const MakeOr: (Expr, Expr) -> Expr := (l, r) => Or(l, r)

  /** Every recursive call reads a strictly shorter text. */
  function Parse(env: Env, expr: string): Option<Expr>
    decreases |expr|
  {
    var s := Trim(expr);
    if s == "" then None
    else if env.number(s).Some? then Some(if env.number(s).value then True else Not(True))
    else
      var a := SplitFrom(s, " and ", 0);
      var o := SplitFrom(s, " or ", 0);
      var n := NotInner(s);
      if a.Some? then Both(MakeAnd, Parse(env, a.value.0), Parse(env, a.value.1))
      else if o.Some? then Both(MakeOr, Parse(env, o.value.0), Parse(env, o.value.1))
      else if n.Some? then Negated(Parse(env, n.value))
      else if s[0] == '(' && s[|s| - 1] == ')' then Parse(env, s[1..|s| - 1])
      else Atom(env, s)
  }

  /** Numerals hold none of the characters that every other form needs. */
  ghost predicate NumbersArePlain(env: Env) {
    && env.number("1") == Some(true)
    && forall s :: env.number(s).Some? ==> '(' !in s && ':' !in s && '@' !in s
  }

  // ---------------------------------------------------------------- texts that compose

  lemma TrimTrimmed(s: string)
    requires Trimmed(s)
    ensures Trim(s) == s
  {
  }

  /** No position up to the closing parenthesis is at the top level and blank. */
  lemma ParenHides(a: string, rest: string, sep: string, j: nat)
    requires Balanced(a) && sep != "" && sep[0] == ' ' && j < |a| + 2
    ensures !SplitsAt(Paren(a) + rest, sep, j)
  {
    var s := Paren(a) + rest;
    if j <= |a| {
      assert s[..j + 1] == "(" + a[..j];
      DepthConcat("(", a[..j]);
      assert Depth("(") == 1 by { LeadsParens(0); }
      hide Depth;
      assert Depth(s[..j + 1]) >= 1;
    } else {
      hide Depth;
      assert s[j..][0] == ')';
    }
  }

  lemma ParenDepth(a: string, rest: string, k: nat)
    requires Balanced(a) && k <= |rest|
    ensures Depth((Paren(a) + rest)[..|a| + 2 + k]) == Depth(rest[..k])
  {
    LeadsParen(a);
    assert (Paren(a) + rest)[..|a| + 2 + k] == Paren(a) + rest[..k];
    DepthConcat(Paren(a), rest[..k]);
  }

  lemma ParenNumber(env: Env, s: string, i: nat)
    requires NumbersArePlain(env) && i < |s| && s[i] == '('
    ensures env.number(s) == None
  {
    assert s[i] in s;
  }

  /** A text in parentheses is split nowhere. */
  lemma ParenWhole(a: string, sep: string)
    requires Balanced(a) && sep != "" && sep[0] == ' '
    ensures SplitFrom(Paren(a), sep, 0) == None
  {
    assert Paren(a) + "" == Paren(a);
    forall j | 0 <= j < |Paren(a)| ensures !SplitsAt(Paren(a), sep, j) {
      ParenHides(a, "", sep, j);
    }
    SplitNever(Paren(a), sep, 0);
  }

  lemma ParenIsNotNot(a: string, rest: string)
    requires Trimmed(Paren(a) + rest)
    ensures NotInner(Paren(a) + rest) == None
  {
    var s := Paren(a) + rest;
    TrimTrimmed(s);
    assert s[0] == '(' && "not("[0] == 'n' && "not ("[0] == 'n';
  }

  /** Parentheses around a balanced text do not change what it parses to. */
  lemma ParseParen(env: Env, a: string)
    requires NumbersArePlain(env) && Balanced(a)
    ensures Parse(env, Paren(a)) == Parse(env, a)
  {
    var s := Paren(a);
    assert s + "" == s;
    TrimTrimmed(s);
    ParenNumber(env, s, 0);
    ParenWhole(a, " and ");
    ParenWhole(a, " or ");
    ParenIsNotNot(a, "");
    assert s[1..|s| - 1] == a;
    hide Balanced, Paren, Trim, SplitFrom, NotInner, NumbersArePlain;
  }

  /** The first operator after a parenthesised text is where it is split. */
  lemma SplitAfterParen(a: string, sep: string, right: string)
    requires Balanced(a) && |sep| > 1 && sep[0] == ' ' && Trimmed(right)
    ensures SplitFrom(Paren(a) + sep + right, sep, 0) == Some((Paren(a), right))
  {
    var s, rest, k := Paren(a) + sep + right, sep + right, |a| + 2;
    assert s == Paren(a) + rest && |Paren(a)| == k && Trimmed(Paren(a));
    assert s[..k] == Paren(a) && s[k + |sep|..] == right && s[k..] == rest;
    hide Balanced, Paren, SplitsAt, SplitFrom, Depth, Trim, Leads;
    forall j | 0 <= j < k ensures !SplitsAt(s, sep, j) {
      ParenHides(a, rest, sep, j);
    }
    TrimTrimmed(Paren(a));
    TrimTrimmed(right);
    SplitsThere(a, sep, right);
    SplitFirst(s, sep, 0, k);
  }

  lemma SplitsThere(a: string, sep: string, right: string)
    requires Balanced(a) && |sep| > 1 && sep[0] == ' ' && Trimmed(right)
    ensures SplitsAt(Paren(a) + sep + right, sep, |a| + 2)
  {
    var s, rest, k := Paren(a) + sep + right, sep + right, |a| + 2;
    assert s == Paren(a) + rest && |Paren(a)| == k && Trimmed(Paren(a));
    assert s[..k] == Paren(a) && s[k + |sep|..] == right && s[k..] == rest;
    hide Balanced, Depth, Trim;
    TrimTrimmed(Paren(a));
    TrimTrimmed(right);
    ParenDepth(a, rest, 1);
    LeadsFlat(rest[..1], 0);
    hide Paren;
  }

  /** `(a) and right` is the conjunction of both sides, whatever the right side is. */
  lemma ParseAnd(env: Env, a: string, right: string)
    requires NumbersArePlain(env) && Balanced(a) && Trimmed(right)
    ensures Parse(env, Paren(a) + " and " + right) == Both(MakeAnd, Parse(env, a), Parse(env, right))
  {
    var s := Paren(a) + " and " + right;
    assert s[0] == '(';
    TrimTrimmed(s);
    ParenNumber(env, s, 0);
    SplitAfterParen(a, " and ", right);
    ParseParen(env, a);
    hide Balanced, Paren, Trim, SplitFrom, NotInner, NumbersArePlain;
  }

  /** `(a) or (b)` is their disjunction. */
  lemma ParseOr(env: Env, a: string, b: string)
    requires NumbersArePlain(env) && Balanced(a) && Balanced(b)
    ensures Parse(env, Paren(a) + " or " + Paren(b)) == Both(MakeOr, Parse(env, a), Parse(env, b))
  {
    var s := Paren(a) + " or " + Paren(b);
    assert s[0] == '(' && s[|s| - 1] == ')';
    TrimTrimmed(s);
    ParenNumber(env, s, 0);
    NoAndInOr(a, b);
    assert Trimmed(Paren(b));
    SplitAfterParen(a, " or ", Paren(b));
    ParseParen(env, a);
    ParseParen(env, b);
    hide Balanced, Paren, Trim, SplitFrom, NotInner, NumbersArePlain;
  }

  lemma NoAndInOr(a: string, b: string)
    requires Balanced(a) && Balanced(b)
    ensures SplitFrom(Paren(a) + " or " + Paren(b), " and ", 0) == None
  {
    var s, n, sep := Paren(a) + " or " + Paren(b), |a| + 2, " and ";
    var rest := " or " + Paren(b);
    assert s == Paren(a) + rest && |Paren(a)| == n && rest[4] == '(' && |s| == n + 4 + |b| + 2;
    hide Depth, Trim, Balanced, Paren, SplitsAt, SplitFrom;
    forall j | 0 <= j < |s| ensures !SplitsAt(s, sep, j) {
      if j < n {
        ParenHides(a, rest, sep, j);
      } else if j < n + 4 {
        NoAndInMiddle(s, j);
      } else {
        NoAndInRight(a, b, j - n - 4);
      }
    }
    SplitNever(s, sep, 0);
  }

  lemma NoAndInMiddle(s: string, j: nat)
    requires j + 1 < |s| && !(s[j] == ' ' && s[j + 1] == 'a')
    ensures !SplitsAt(s, " and ", j)
  {
    hide Depth, Trim;
    assert s[j..][0] == s[j] && s[j..][1] == s[j + 1];
  }

  lemma NoAndInRight(a: string, b: string, i: nat)
    requires Balanced(a) && Balanced(b) && i < |b| + 2
    ensures !SplitsAt(Paren(a) + " or " + Paren(b), " and ", |a| + 6 + i)
  {
    var s, j := Paren(a) + " or " + Paren(b), |a| + 6 + i;
    OrDepth(a, b, i);
    hide Trim;
    assert s[j..] == Paren(b)[i..];
    assert s[j..][0] == Paren(b)[i];
    if Depth(s[..j + 1]) == 0 {
      ParenCloses(b, i);
    }
  }

  lemma ParenCloses(b: string, i: nat)
    requires Balanced(b) && i < |b| + 2 && Depth(Paren(b)[..i + 1]) == 0
    ensures Paren(b)[i] == ')'
  {
    LeadsParens(0);
    assert Depth("(") == 1;
    assert i <= |b| ==> Paren(b)[..i + 1] == "(" + b[..i];
    if i <= |b| {
      DepthConcat("(", b[..i]);
    }
  }

  lemma OrDepth(a: string, b: string, i: nat)
    requires Balanced(a) && i < |b| + 2
    ensures Depth((Paren(a) + " or " + Paren(b))[..|a| + 6 + i + 1]) == Depth(Paren(b)[..i + 1])
  {
    var rest := " or " + Paren(b);
    assert Paren(a) + " or " + Paren(b) == Paren(a) + rest;
    ParenDepth(a, rest, 4 + i + 1);
    assert rest[..4 + i + 1] == " or " + Paren(b)[..i + 1];
    DepthConcat(" or ", Paren(b)[..i + 1]);
    FlatDepth(" or ");
  }

  /** `not(a)` is the negation. */
  lemma ParseNot(env: Env, a: string)
    requires NumbersArePlain(env) && Balanced(a) && Trimmed(a)
    ensures Parse(env, "not" + Paren(a)) == Negated(Parse(env, a))
  {
    var s := "not" + Paren(a);
    assert s[3] == '(' && s[|s| - 1] == ')' && s[0] == 'n';
    TrimTrimmed(s);
    TrimTrimmed(a);
    ParenNumber(env, s, 3);
    NoSplitInNot(a, " and ");
    NoSplitInNot(a, " or ");
    assert "not(" <= s by { assert s[..4] == "not("; }
    assert s[4..|s| - 1] == a;
    assert NotInner(s) == Some(a);
    hide Balanced, Paren, Trim, SplitFrom, NotInner, NumbersArePlain;
  }

  lemma NoSplitInNot(a: string, sep: string)
    requires Balanced(a) && sep != "" && sep[0] == ' '
    ensures SplitFrom("not" + Paren(a), sep, 0) == None
  {
    var s := "not" + Paren(a);
    forall j | 0 <= j < |s| ensures !SplitsAt(s, sep, j) {
      if j < 3 {
        assert s[j..][0] == "not"[j];
      } else {
        assert s[..j + 1] == "not" + Paren(a)[..j - 3 + 1];
        DepthConcat("not", Paren(a)[..j - 3 + 1]);
        FlatDepth("not");
        if Depth(Paren(a)[..j - 3 + 1]) == 0 {
          ParenCloses(a, j - 3);
          assert s[j..][0] == ')';
        }
      }
    }
    SplitNever(s, sep, 0);
  }

  /** Without inner parentheses the parser splits at `and` first, so it groups `(a) and (b) or (c)`
      as a conjunction, where section 3.4 of XPath 1.0 has a disjunction. */
  lemma AndSplitsFirst(env: Env, a: string, b: string, c: string)
    requires NumbersArePlain(env) && Balanced(a) && Balanced(b) && Balanced(c)
    ensures Parse(env, Paren(a) + " and " + (Paren(b) + " or " + Paren(c)))
         == Both(MakeAnd, Parse(env, a), Both(MakeOr, Parse(env, b), Parse(env, c)))
  {
    var right := Paren(b) + " or " + Paren(c);
    assert right[0] == '(' && right[|right| - 1] == ')';
    ParseAnd(env, a, right);
    ParseOr(env, b, c);
  }
}
