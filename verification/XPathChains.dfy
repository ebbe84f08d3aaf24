/**
 Unparenthesised chains of operators: what the parser makes of `(a) op (b) op ... (z)`, and when
 that means what section 3.4 of XPath 1.0 says.
 */
module XPathChains {
  import opened Dom
  import opened Spots
  import opened XPathText
  import opened XPathParser
  import opened XPathEval

  datatype Op = AndOp | OrOp

  function OpText(op: Op): string {
    if op == AndOp then " and " else " or "
  }

  /** The operands in parentheses with operators between them. */
  function ChainText(texts: seq<string>, ops: seq<Op>): string
    requires |texts| == |ops| + 1
  {
    if ops == [] then Paren(texts[0]) else Paren(texts[0]) + OpText(ops[0]) + ChainText(texts[1..], ops[1..])
  }

  predicate AllBalanced(texts: seq<string>) {
    forall i :: 0 <= i < |texts| ==> Balanced(texts[i])
  }

  /** The first position of an operator, or the end. */
  function First(ops: seq<Op>, op: Op): (k: nat)
    ensures k <= |ops| && (forall i :: 0 <= i < k ==> ops[i] != op) && (k < |ops| ==> ops[k] == op)
  {
    if ops == [] || ops[0] == op then 0 else 1 + First(ops[1..], op)
  }

  // ---------------------------------------------------------------- two readings

  function AllOf(es: seq<Expr>): Expr
    requires es != []
  {
    if |es| == 1 then es[0] else And(es[0], AllOf(es[1..]))
  }

  function AnyOf(es: seq<Expr>): Expr
    requires es != []
  {
    if |es| == 1 then es[0] else Or(es[0], AnyOf(es[1..]))
  }

  /** The conjunction of the maximal runs of `or`. */
  function CodeReading(es: seq<Expr>, ops: seq<Op>): Expr
    requires |es| == |ops| + 1
    decreases |ops|
  {
    var k := First(ops, AndOp);
    if k == |ops| then AnyOf(es) else And(AnyOf(es[..k + 1]), CodeReading(es[k + 1..], ops[k + 1..]))
  }

  /** The disjunction of the maximal runs of `and`, as in section 3.4 of XPath 1.0. */
  function XPathReading(es: seq<Expr>, ops: seq<Op>): Expr
    requires |es| == |ops| + 1
    decreases |ops|
  {
    var k := First(ops, OrOp);
    if k == |ops| then AllOf(es) else Or(AllOf(es[..k + 1]), XPathReading(es[k + 1..], ops[k + 1..]))
  }

  // ---------------------------------------------------------------- the text of a chain

  lemma {:induction false} ChainShape(texts: seq<string>, ops: seq<Op>)
    requires |texts| == |ops| + 1 && AllBalanced(texts)
    ensures Balanced(ChainText(texts, ops)) && Trimmed(ChainText(texts, ops)) && ChainText(texts, ops)[0] == '('
  {
    hide Balanced, Trimmed;
    if ops == [] {
      ParenShape(texts[0]);
    } else {
      ChainShape(texts[1..], ops[1..]);
      LinkShape(texts[0], ops[0], ChainText(texts[1..], ops[1..]));
    }
  }

  lemma ParenShape(a: string)
    requires Balanced(a)
    ensures Balanced(Paren(a)) && Trimmed(Paren(a)) && Paren(a)[0] == '('
  {
    LeadsParen(a);
  }

  lemma LinkShape(a: string, op: Op, rest: string)
    requires Balanced(a) && Balanced(rest) && Trimmed(rest)
    ensures var s := Paren(a) + OpText(op) + rest; Balanced(s) && Trimmed(s) && s[0] == '('
  {
    LeadsParen(a);
    LeadsFlat(OpText(op), 0);
    hide Leads;
    LeadsConcat(Paren(a), OpText(op), 0, 0, 0);
    LeadsConcat(Paren(a) + OpText(op), rest, 0, 0, 0);
  }

  /** A chain is cut at any of its operators. */
  lemma {:induction false} ChainCut(texts: seq<string>, ops: seq<Op>, k: nat)
    requires |texts| == |ops| + 1 && k < |ops|
    ensures ChainText(texts, ops) == ChainText(texts[..k + 1], ops[..k]) + OpText(ops[k]) + ChainText(texts[k + 1..], ops[k + 1..])
  {
    hide ChainText, Paren, OpText;
    ChainStep(texts, ops);
    if k == 0 {
      assert ops[..0] == [];
      ChainEnd(texts[..1]);
    } else {
      var a, o := texts[1..], ops[1..];
      ChainCut(a, o, k - 1);
      ChainStep(texts[..k + 1], ops[..k]);
      assert texts[..k + 1][1..] == a[..k] && ops[..k][1..] == o[..k - 1];
      assert texts[k + 1..] == a[k..] && ops[k + 1..] == o[k..];
    }
  }

  lemma ChainStep(texts: seq<string>, ops: seq<Op>)
    requires |texts| == |ops| + 1 && ops != []
    ensures ChainText(texts, ops) == Paren(texts[0]) + OpText(ops[0]) + ChainText(texts[1..], ops[1..])
  {
  }

  lemma ChainEnd(texts: seq<string>)
    requires |texts| == 1
    ensures ChainText(texts, []) == Paren(texts[0])
  {
  }

  /** Outside parentheses no blank is followed by `c`. */
  predicate Clear(s: string, c: char) {
    forall j :: 0 <= j < |s| && s[j] == ' ' && Depth(s[..j + 1]) == 0 ==> j + 1 < |s| && s[j + 1] != c
  }

  lemma {:induction false} OrChainIsClear(texts: seq<string>, ops: seq<Op>)
    requires |texts| == |ops| + 1 && AllBalanced(texts) && AndOp !in ops
    ensures Clear(ChainText(texts, ops), 'a')
  {
    hide Clear, Balanced, Trimmed;
    if ops == [] {
      ClearParen(texts[0]);
    } else {
      assert ops[0] in ops;
      OrChainIsClear(texts[1..], ops[1..]);
      ChainShape(texts[1..], ops[1..]);
      NotNothing(ChainText(texts[1..], ops[1..]));
      ClearLink(texts[0], ChainText(texts[1..], ops[1..]));
    }
  }

  lemma NotNothing(s: string)
    requires Trimmed(s)
    ensures s != ""
  {
  }

  lemma ClearParen(a: string)
    requires Balanced(a)
    ensures Clear(Paren(a), 'a')
  {
    assert Paren(a) + "" == Paren(a);
    forall j | 0 <= j < |Paren(a)| ensures !(Paren(a)[j] == ' ' && Depth(Paren(a)[..j + 1]) == 0) {
      NoBlankInParen(a, "", j);
    }
  }

  lemma ClearLink(a: string, tail: string)
    requires Balanced(a) && tail != "" && tail[0] == '(' && Clear(tail, 'a')
    ensures Clear(Paren(a) + " or " + tail, 'a')
  {
    var s, rest, n := Paren(a) + " or " + tail, " or " + tail, |a| + 2;
    assert s == Paren(a) + rest && |Paren(a)| == n;
    hide Depth, Paren, Balanced;
    forall j | 0 <= j < |s| && s[j] == ' ' && Depth(s[..j + 1]) == 0 ensures j + 1 < |s| && s[j + 1] != 'a' {
      if j < n {
        NoBlankInParen(a, rest, j);
      } else {
        ParenDepth(a, rest, j + 1 - n);
        assert s[j] == rest[j - n] && (j + 1 < |s| ==> s[j + 1] == rest[j + 1 - n]);
        ClearAfterOr(rest, tail, j - n);
      }
    }
  }

  lemma NoBlankInParen(a: string, rest: string, j: nat)
    requires Balanced(a) && j < |a| + 2
    ensures !((Paren(a) + rest)[j] == ' ' && Depth((Paren(a) + rest)[..j + 1]) == 0)
  {
    var s := Paren(a) + rest;
    LeadsParens(0);
    assert Depth("(") == 1;
    assert j <= |a| ==> s[..j + 1] == "(" + a[..j];
    if j <= |a| {
      DepthConcat("(", a[..j]);
    }
  }

  lemma ClearAfterOr(rest: string, tail: string, i: nat)
    requires i < |rest| && rest == " or " + tail && tail != "" && tail[0] == '(' && Clear(tail, 'a')
    requires rest[i] == ' ' && Depth(rest[..i + 1]) == 0
    ensures i + 1 < |rest| && rest[i + 1] != 'a'
  {
    if i < 4 {
      assert rest[4] == tail[0];
    } else {
      assert rest[..i + 1] == " or " + tail[..i - 4 + 1];
      DepthConcat(" or ", tail[..i - 4 + 1]);
      FlatDepth(" or ");
      assert rest[i] == tail[i - 4];
    }
  }

  lemma ClearBefore(a: string, rest: string, sep: string, j: nat)
    requires |sep| > 1 && sep[0] == ' ' && Clear(a, sep[1]) && j < |a|
    ensures !SplitsAt(a + rest, sep, j)
  {
    var s := a + rest;
    assert s[..j + 1] == a[..j + 1] && s[j] == a[j];
    if sep <= s[j..] {
      assert s[j..][0] == ' ' && s[j..][1] == sep[1];
      assert s[j..][0] == s[j] && s[j..][1] == s[j + 1];
    }
  }

  lemma SplitClear(a: string, sep: string, b: string)
    requires Balanced(a) && Trimmed(a) && Trimmed(b) && |sep| > 1 && sep[0] == ' ' && Clear(a, sep[1])
    ensures SplitFrom(a + sep + b, sep, 0) == Some((a, b))
  {
    var s, rest, k := a + sep + b, sep + b, |a|;
    assert s == a + rest && s[..k] == a && s[k + |sep|..] == b && s[k..] == rest && s[..k + 1] == a + [' '];
    DepthConcat(a, [' ']);
    FlatDepth([' ']);
    assert Depth(s[..k + 1]) == 0;
    hide Depth, SplitFrom, Trim, Clear, Balanced;
    TrimTrimmed(a);
    TrimTrimmed(b);
    assert SplitsAt(s, sep, k);
    hide SplitsAt;
    forall j | 0 <= j < k ensures !SplitsAt(s, sep, j) {
      ClearBefore(a, rest, sep, j);
    }
    SplitFirst(s, sep, 0, k);
  }

  lemma SplitNowhere(a: string, sep: string)
    requires |sep| > 1 && sep[0] == ' ' && Clear(a, sep[1])
    ensures SplitFrom(a, sep, 0) == None
  {
    assert a + "" == a;
    forall j | 0 <= j < |a| ensures !SplitsAt(a, sep, j) {
      ClearBefore(a, "", sep, j);
    }
    SplitNever(a, sep, 0);
  }

  // ---------------------------------------------------------------- what the parser reads

  ghost predicate Reads(env: Env, texts: seq<string>, es: seq<Expr>) {
    |texts| == |es| && forall i :: 0 <= i < |es| ==> Parse(env, texts[i]) == Some(es[i])
  }

  lemma ReadsCut(env: Env, texts: seq<string>, es: seq<Expr>, k: nat)
    requires Reads(env, texts, es) && AllBalanced(texts) && k <= |es|
    ensures Reads(env, texts[..k], es[..k]) && Reads(env, texts[k..], es[k..])
    ensures AllBalanced(texts[..k]) && AllBalanced(texts[k..])
  {
    hide Parse, Balanced;
  }

  lemma {:induction false} ParseOrChain(env: Env, texts: seq<string>, ops: seq<Op>, es: seq<Expr>)
    requires NumbersArePlain(env) && |texts| == |ops| + 1 && AllBalanced(texts) && AndOp !in ops && Reads(env, texts, es)
    ensures Parse(env, ChainText(texts, ops)) == Some(AnyOf(es))
  {
    hide Parse, Balanced;
    ParseParen(env, texts[0]);
    if ops != [] {
      var s, right := ChainText(texts, ops), ChainText(texts[1..], ops[1..]);
      ReadsCut(env, texts, es, 1);
      ParseOrChain(env, texts[1..], ops[1..], es[1..]);
      assert ops[0] in ops && s == Paren(texts[0]) + " or " + right;
      ChainShape(texts, ops);
      ChainShape(texts[1..], ops[1..]);
      OrChainIsClear(texts, ops);
      assert Parse(env, texts[0]) == Some(es[0]) && AnyOf(es) == Or(es[0], AnyOf(es[1..]));
      hide *;
      ParseOrCut(env, s, texts[0], right);
    }
  }

  lemma ParseOrCut(env: Env, s: string, a: string, right: string)
    requires NumbersArePlain(env) && s == Paren(a) + " or " + right && Balanced(a) && Trimmed(right) && Clear(s, 'a')
    requires Trimmed(s) && s[0] == '('
    ensures Parse(env, s) == Both(MakeOr, Parse(env, a), Parse(env, right))
  {
    hide Balanced, Clear;
    ParseParen(env, a);
    SplitNowhere(s, " and ");
    SplitAfterParen(a, " or ", right);
    TrimTrimmed(s);
    ParenNumber(env, s, 0);
    hide NotInner, SplitFrom, NumbersArePlain, Trim, Paren;
  }

  /** The parser reads a chain of any length as the conjunction of its maximal runs of `or`. */
  lemma {:induction false} ParseChain(env: Env, texts: seq<string>, ops: seq<Op>, es: seq<Expr>)
    requires NumbersArePlain(env) && |texts| == |ops| + 1 && AllBalanced(texts) && Reads(env, texts, es)
    ensures Parse(env, ChainText(texts, ops)) == Some(CodeReading(es, ops))
    decreases |ops|
  {
    hide Parse, Balanced;
    var k := First(ops, AndOp);
    if k == |ops| {
      ParseOrChain(env, texts, ops, es);
    } else {
      var s, a, b := ChainText(texts, ops), ChainText(texts[..k + 1], ops[..k]), ChainText(texts[k + 1..], ops[k + 1..]);
      ChainCut(texts, ops, k);
      ChainShape(texts, ops);
      ChainShape(texts[..k + 1], ops[..k]);
      ChainShape(texts[k + 1..], ops[k + 1..]);
      OrChainIsClear(texts[..k + 1], ops[..k]);
      ReadsCut(env, texts, es, k + 1);
      ParseOrChain(env, texts[..k + 1], ops[..k], es[..k + 1]);
      ParseChain(env, texts[k + 1..], ops[k + 1..], es[k + 1..]);
      assert OpText(ops[k]) == " and ";
      hide *;
      ParseCut(env, s, a, b);
      AndRead(es, ops);
    }
  }

  lemma AndRead(es: seq<Expr>, ops: seq<Op>)
    requires |es| == |ops| + 1 && First(ops, AndOp) < |ops|
    ensures var k := First(ops, AndOp);
      CodeReading(es, ops) == And(AnyOf(es[..k + 1]), CodeReading(es[k + 1..], ops[k + 1..]))
  {
  }

  /** A text is read at its first top-level `and`. */
  lemma ParseCut(env: Env, s: string, a: string, b: string)
    requires NumbersArePlain(env) && s == a + " and " + b && Balanced(a) && Trimmed(a) && Trimmed(b) && Clear(a, 'a')
    requires Trimmed(s) && s[0] == '('
    ensures Parse(env, s) == Both(MakeAnd, Parse(env, a), Parse(env, b))
  {
    hide Balanced, Clear;
    SplitClear(a, " and ", b);
    TrimTrimmed(s);
    ParenNumber(env, s, 0);
    hide NotInner, SplitFrom, NumbersArePlain, Trim;
  }

  // ---------------------------------------------------------------- what the readings mean

  function Values(es: seq<Expr>, s: Spot): seq<bool> {
    seq(|es|, i requires 0 <= i < |es| => Eval(es[i], s))
  }

  function CodeValue(vs: seq<bool>, ops: seq<Op>): bool
    requires |vs| == |ops| + 1
    decreases |ops|
  {
    var k := First(ops, AndOp);
    if k == |ops| then true in vs else true in vs[..k + 1] && CodeValue(vs[k + 1..], ops[k + 1..])
  }

  function XPathValue(vs: seq<bool>, ops: seq<Op>): bool
    requires |vs| == |ops| + 1
    decreases |ops|
  {
    var k := First(ops, OrOp);
    if k == |ops| then false !in vs else false !in vs[..k + 1] || XPathValue(vs[k + 1..], ops[k + 1..])
  }

  lemma {:induction false} EvalRuns(es: seq<Expr>, s: Spot)
    requires es != []
    ensures Eval(AnyOf(es), s) <==> true in Values(es, s)
    ensures Eval(AllOf(es), s) <==> false !in Values(es, s)
  {
    var vs := Values(es, s);
    assert vs[0] == Eval(es[0], s);
    if |es| > 1 {
      EvalRuns(es[1..], s);
      assert vs == [vs[0]] + Values(es[1..], s);
    } else {
      assert vs == [vs[0]];
    }
  }

  lemma {:induction false} EvalCode(es: seq<Expr>, ops: seq<Op>, s: Spot)
    requires |es| == |ops| + 1
    ensures Eval(CodeReading(es, ops), s) == CodeValue(Values(es, s), ops)
    decreases |ops|
  {
    hide Values, AnyOf, AllOf, First;
    var k := First(ops, AndOp);
    ValuesCut(es, s, 0);
    EvalRuns(es, s);
    if k < |ops| {
      ValuesCut(es, s, k + 1);
      EvalRuns(es[..k + 1], s);
      EvalCode(es[k + 1..], ops[k + 1..], s);
    }
  }

  lemma {:induction false} EvalXPath(es: seq<Expr>, ops: seq<Op>, s: Spot)
    requires |es| == |ops| + 1
    ensures Eval(XPathReading(es, ops), s) == XPathValue(Values(es, s), ops)
    decreases |ops|
  {
    hide Values, AnyOf, AllOf, First;
    var k := First(ops, OrOp);
    ValuesCut(es, s, 0);
    EvalRuns(es, s);
    if k < |ops| {
      ValuesCut(es, s, k + 1);
      EvalRuns(es[..k + 1], s);
      EvalXPath(es[k + 1..], ops[k + 1..], s);
    }
  }

  lemma ValuesCut(es: seq<Expr>, s: Spot, k: nat)
    requires k <= |es|
    ensures |Values(es, s)| == |es| && Values(es[..k], s) == Values(es, s)[..k] && Values(es[k..], s) == Values(es, s)[k..]
  {
    hide Eval;
  }

  /** With one operator only, both readings are the run of all operands. */
  lemma {:induction false} OnlyOr(vs: seq<bool>, ops: seq<Op>)
    requires |vs| == |ops| + 1 && AndOp !in ops
    ensures XPathValue(vs, ops) == CodeValue(vs, ops) == (true in vs)
  {
    NoneFound(ops);
    if ops == [] {
      assert vs[1..] == [];
      Tail(vs);
    } else {
      assert ops[0] in ops;
      OnlyOr(vs[1..], ops[1..]);
      assert First(ops, OrOp) == 0 && vs[..1] == [vs[0]];
      Tail(vs);
    }
  }

  lemma {:induction false} OnlyAnd(vs: seq<bool>, ops: seq<Op>)
    requires |vs| == |ops| + 1 && OrOp !in ops
    ensures XPathValue(vs, ops) == CodeValue(vs, ops) == (false !in vs)
  {
    NoneFound(ops);
    if ops == [] {
      assert vs[1..] == [];
      Tail(vs);
    } else {
      assert ops[0] in ops;
      OnlyAnd(vs[1..], ops[1..]);
      assert First(ops, AndOp) == 0 && vs[..1] == [vs[0]];
      Tail(vs);
    }
  }

  lemma Tail(vs: seq<bool>)
    requires vs != []
    ensures true in vs <==> vs[0] || true in vs[1..]
    ensures false in vs <==> !vs[0] || false in vs[1..]
  {
    assert vs == [vs[0]] + vs[1..];
  }

  /** Equal operands give their value back. */
  lemma EqualOperands(vs: seq<bool>, ops: seq<Op>, v: bool)
    requires |vs| == |ops| + 1 && forall i :: 0 <= i < |vs| ==> vs[i] == v
    ensures CodeValue(vs, ops) == v && XPathValue(vs, ops) == v
  {
    hide *;
    EqualInCode(vs, ops, v);
    EqualInXPath(vs, ops, v);
  }

  lemma {:induction false} EqualInCode(vs: seq<bool>, ops: seq<Op>, v: bool)
    requires |vs| == |ops| + 1 && forall i :: 0 <= i < |vs| ==> vs[i] == v
    ensures CodeValue(vs, ops) == v
    decreases |ops|
  {
    hide First, CodeValue;
    var k := First(ops, AndOp);
    CodeCut(vs, ops);
    if k < |ops| {
      EqualInCode(vs[k + 1..], ops[k + 1..], v);
      EqualMember(vs[..k + 1], v);
    } else {
      EqualMember(vs, v);
    }
  }

  lemma {:induction false} EqualInXPath(vs: seq<bool>, ops: seq<Op>, v: bool)
    requires |vs| == |ops| + 1 && forall i :: 0 <= i < |vs| ==> vs[i] == v
    ensures XPathValue(vs, ops) == v
    decreases |ops|
  {
    hide First, XPathValue;
    var k := First(ops, OrOp);
    XPathCut(vs, ops);
    if k < |ops| {
      EqualInXPath(vs[k + 1..], ops[k + 1..], v);
      EqualMember(vs[..k + 1], v);
    } else {
      EqualMember(vs, v);
    }
  }

  lemma EqualMember(vs: seq<bool>, v: bool)
    requires vs != [] && forall i :: 0 <= i < |vs| ==> vs[i] == v
    ensures (true in vs <==> v) && (false in vs <==> !v)
  {
    assert vs[0] == v;
  }

  /** With both operators the readings differ: where the first operand alone is false and the chain
      begins with `and`, or alone is true and it begins with `or`. */
  lemma {:induction false} BothOperators(vs: seq<bool>, ops: seq<Op>)
    requires |vs| == |ops| + 1 && AndOp in ops && OrOp in ops
    requires vs[0] == (ops[0] == OrOp) && forall i :: 0 < i < |vs| ==> vs[i] == (ops[0] == AndOp)
    ensures !CodeValue(vs, ops) && XPathValue(vs, ops)
  {
    var k, m := First(ops, AndOp), First(ops, OrOp);
    FoundThere(ops, AndOp);
    FoundThere(ops, OrOp);
    hide CodeValue, XPathValue;
    CodeCut(vs, ops);
    XPathCut(vs, ops);
    assert vs[..1] == [vs[0]];
    hide First;
    if ops[0] == AndOp {
      EqualOperands(vs[m + 1..], ops[m + 1..], true);
    } else {
      EqualOperands(vs[k + 1..], ops[k + 1..], false);
    }
  }

  lemma FirstHead(ops: seq<Op>, op: Op)
    ensures ops != [] && ops[0] == op ==> First(ops, op) == 0
  {
  }

  lemma FoundThere(ops: seq<Op>, op: Op)
    requires op in ops
    ensures First(ops, op) < |ops|
  {
    var i :| 0 <= i < |ops| && ops[i] == op;
  }

  lemma {:induction false} CodeCut(vs: seq<bool>, ops: seq<Op>)
    requires |vs| == |ops| + 1
    ensures var k := First(ops, AndOp);
      && CodeValue(vs, ops) == (if k == |ops| then true in vs else true in vs[..k + 1] && CodeValue(vs[k + 1..], ops[k + 1..]))
      && (ops != [] && ops[0] == AndOp ==> k == 0)
  {
    FirstHead(ops, AndOp);
    hide First;
  }

  lemma {:induction false} XPathCut(vs: seq<bool>, ops: seq<Op>)
    requires |vs| == |ops| + 1
    ensures var k := First(ops, OrOp);
      && XPathValue(vs, ops) == (if k == |ops| then false !in vs else false !in vs[..k + 1] || XPathValue(vs[k + 1..], ops[k + 1..]))
      && (ops != [] && ops[0] == OrOp ==> k == 0)
  {
    FirstHead(ops, OrOp);
    hide First;
  }

  /** The parser's reading of a chain means what XPath 1.0 says, for all operands and nodes, if and
      only if the chain does not mix the two operators. */
  lemma ChainsMeanAlike(ops: seq<Op>)
    ensures (forall es: seq<Expr>, s: Spot :: |es| == |ops| + 1 ==> Eval(CodeReading(es, ops), s) == Eval(XPathReading(es, ops), s))
            <==> !(AndOp in ops && OrOp in ops)
  {
    if AndOp in ops && OrOp in ops {
      var es, s := MixedDiffers(ops);
      assert Eval(CodeReading(es, ops), s) != Eval(XPathReading(es, ops), s);
    } else {
      forall es: seq<Expr>, s: Spot | |es| == |ops| + 1 ensures Eval(CodeReading(es, ops), s) == Eval(XPathReading(es, ops), s) {
        hide *;
        EvalCode(es, ops, s);
        EvalXPath(es, ops, s);
        ValuesCut(es, s, 0);
        if AndOp !in ops {
          OnlyOr(Values(es, s), ops);
        } else {
          OnlyAnd(Values(es, s), ops);
        }
      }
    }
  }

  lemma MixedDiffers(ops: seq<Op>) returns (es: seq<Expr>, s: Spot)
    requires AndOp in ops && OrOp in ops
    ensures |es| == |ops| + 1 && !Eval(CodeReading(es, ops), s) && Eval(XPathReading(es, ops), s)
  {
    es := seq(|ops| + 1, i requires 0 <= i < |ops| + 1 => if (i == 0) == (ops[0] == OrOp) then True else Not(True));
    s := Spot(Text(0, ""), []);
    var vs := Values(es, s);
    assert forall i :: 0 <= i < |vs| ==> vs[i] == Eval(es[i], s);
    assert vs[0] == (ops[0] == OrOp) && forall i :: 0 < i < |vs| ==> vs[i] == (ops[0] == AndOp);
    hide *;
    ValuesCut(es, s, 0);
    BothOperators(vs, ops);
    EvalCode(es, ops, s);
    EvalXPath(es, ops, s);
  }

  lemma NoneFound(ops: seq<Op>)
    ensures AndOp !in ops ==> First(ops, AndOp) == |ops|
    ensures OrOp !in ops ==> First(ops, OrOp) == |ops|
  {
  }
}
