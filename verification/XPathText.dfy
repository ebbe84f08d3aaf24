/**
 The string helpers of the XPath filter: trimming, words, parenthesis depth, splitting at a
 top-level operator and stripping `not(...)`.
 */
module XPathText {
  import opened Dom

  /** White space in the sense of Unicode, which trimming and word splitting go by. */
  predicate Blank(c: char) {
    || '\t' <= c <= '\r' || c == ' ' || c == '\U{85}' || c == '\U{A0}' || c == '\U{1680}'
    || '\U{2000}' <= c <= '\U{200A}' || c == '\U{2028}' || c == '\U{2029}' || c == '\U{202F}'
    || c == '\U{205F}' || c == '\U{3000}'
  }

  function TrimStart(s: string): (r: string)
    ensures |r| <= |s|
  {
    if s != "" && Blank(s[0]) then TrimStart(s[1..]) else s
  }

  function TrimEnd(s: string): (r: string)
    ensures |r| <= |s|
  {
    if s != "" && Blank(s[|s| - 1]) then TrimEnd(s[..|s| - 1]) else s
  }

  function Trim(s: string): (r: string)
    ensures |r| <= |s|
  {
    TrimEnd(TrimStart(s))
  }

  /** Neither end is blank, so trimming changes nothing. */
  predicate Trimmed(s: string) {
    s != "" && !Blank(s[0]) && !Blank(s[|s| - 1])
  }

  predicate Solid(s: string) {
    forall i :: 0 <= i < |s| ==> !Blank(s[i])
  }

  // ---------------------------------------------------------------- words

  function WordEnd(s: string): (k: nat)
    ensures k <= |s| && Solid(s[..k]) && (s != "" && !Blank(s[0]) ==> k > 0)
  {
    if s == "" || Blank(s[0]) then 0
    else
      var k := WordEnd(s[1..]);
      assert s[..k + 1] == [s[0]] + s[1..][..k];
      k + 1
  }

  function Words(s: string): seq<string>
    decreases |s|
  {
    if s == "" then []
    else if Blank(s[0]) then Words(s[1..])
    else [s[..WordEnd(s)]] + Words(s[WordEnd(s)..])
  }

  function Join(ws: seq<string>): string {
    if ws == [] then "" else if |ws| == 1 then ws[0] else ws[0] + " " + Join(ws[1..])
  }

  /** White space runs become single spaces, and those at the ends go. */
  function Normalized(s: string): string {
    Join(Words(s))
  }

  predicate IsWord(w: string) {
    w != "" && Solid(w)
  }

  predicate AllWords(ws: seq<string>) {
    forall i :: 0 <= i < |ws| ==> IsWord(ws[i])
  }

  lemma {:induction false} WordEndOf(w: string, rest: string)
    requires Solid(w) && (rest == "" || Blank(rest[0]))
    ensures WordEnd(w + rest) == |w|
  {
    if w == "" {
      assert w + rest == rest;
    } else {
      assert (w + rest)[1..] == w[1..] + rest;
      WordEndOf(w[1..], rest);
    }
  }

  lemma {:induction false} WordsOfJoin(ws: seq<string>)
    requires AllWords(ws)
    ensures Words(Join(ws)) == ws
  {
    if ws != [] {
      var w := ws[0];
      if |ws| == 1 {
        WordEndOf(w, "");
        assert w + "" == w && w[|w|..] == "";
        assert Words(w) == [w] + Words("");
      } else {
        var rest := Join(ws[1..]);
        WordsOfJoin(ws[1..]);
        WordEndOf(w, " " + rest);
        var s := w + (" " + rest);
        assert Join(ws) == s;
        assert s[..|w|] == w && s[|w|..] == " " + rest;
        assert (" " + rest)[1..] == rest;
        assert Words(" " + rest) == Words(rest);
        assert Words(s) == [w] + Words(" " + rest);
      }
    }
  }

  lemma {:induction false} JoinEnds(ws: seq<string>)
    requires ws != [] && AllWords(ws)
    ensures Trimmed(Join(ws))
    ensures Join(ws)[0] == ws[0][0] && ws[0] <= Join(ws)
    ensures Join(ws)[|Join(ws)| - 1] == ws[|ws| - 1][|ws[|ws| - 1]| - 1]
  {
    if |ws| > 1 {
      JoinEnds(ws[1..]);
    }
  }

  /** A spaced word occurs in joined words only as one of them. */
  lemma {:induction false} JoinHolds(ws: seq<string>, op: string, i: nat)
    requires AllWords(ws) && IsWord(op)
    requires i <= |Join(ws)| && " " + op + " " <= Join(ws)[i..]
    ensures op in ws
  {
    var s, sep := Join(ws), " " + op + " ";
    assert forall j :: 0 <= j < |sep| ==> s[i + j] == sep[j];
    assert s[i] == ' ' && ws != [];
    var w := ws[0];
    JoinFirst(ws);
    hide Join;
    assert forall j :: 0 <= j < |w| ==> s[j] == w[j];
    assert i >= |w| && |ws| > 1;
    var rest := Join(ws[1..]);
    assert s == w + (" " + rest);
    if i == |w| {
      assert rest == s[i + 1..];
      assert forall j :: 0 <= j < |op| + 1 ==> rest[j] == sep[j + 1];
      JoinBegins(ws[1..], op);
      assert ws[1] == op;
    } else {
      assert s[i..] == rest[i - |w| - 1..];
      JoinHolds(ws[1..], op, i - |w| - 1);
    }
  }

  lemma JoinFirst(ws: seq<string>)
    requires ws != [] && AllWords(ws)
    ensures Join(ws) == if |ws| == 1 then ws[0] else ws[0] + (" " + Join(ws[1..]))
    ensures forall j :: 0 <= j < |ws[0]| ==> ws[0][j] != ' '
  {
    assert IsWord(ws[0]);
    if |ws| > 1 {
      assert Join(ws) == ws[0] + " " + Join(ws[1..]);
    }
  }

  lemma JoinBegins(ws: seq<string>, op: string)
    requires ws != [] && AllWords(ws) && IsWord(op) && |op| < |Join(ws)|
    requires forall j :: 0 <= j < |op| ==> Join(ws)[j] == op[j]
    requires Join(ws)[|op|] == ' '
    ensures ws[0] == op
  {
    var w, s := ws[0], Join(ws);
    assert w <= s && (|w| < |s| ==> s[|w|] == ' ');
    assert IsWord(w);
    assert forall j :: 0 <= j < |w| ==> s[j] == w[j] && s[j] != ' ';
    assert |op| >= |w|;
    assert |op| == |w|;
    assert w == s[..|op|];
    assert forall j :: 0 <= j < |op| ==> w[j] == op[j];
  }

  // ---------------------------------------------------------------- parentheses

  function Step(c: char): int {
    if c == '(' then 1 else if c == ')' then -1 else 0
  }

  /** Opening minus closing parentheses. */
  function Depth(s: string): int {
    if s == "" then 0 else Depth(s[..|s| - 1]) + Step(s[|s| - 1])
  }

  lemma {:induction false} DepthConcat(a: string, b: string)
    ensures Depth(a + b) == Depth(a) + Depth(b)
  {
    if b == "" {
      assert a + b == a;
    } else {
      assert (a + b)[..|a + b| - 1] == a + b[..|b| - 1];
      DepthConcat(a, b[..|b| - 1]);
    }
  }

  /** Reading `s` leads from depth `from` to depth `to` and never below zero. */
  predicate Leads(s: string, from: int, to: int) {
    && Depth(s) == to - from
    && forall k :: 0 <= k <= |s| ==> from + Depth(s[..k]) >= 0
  }

  predicate Balanced(s: string) {
    Leads(s, 0, 0)
  }

  lemma LeadsConcat(a: string, b: string, x: int, y: int, z: int)
    requires Leads(a, x, y) && Leads(b, y, z)
    ensures Leads(a + b, x, z)
  {
    DepthConcat(a, b);
    forall k | 0 <= k <= |a + b| ensures x + Depth((a + b)[..k]) >= 0 {
      if k <= |a| {
        assert (a + b)[..k] == a[..k];
      } else {
        assert (a + b)[..k] == a + b[..k - |a|];
        DepthConcat(a, b[..k - |a|]);
      }
    }
  }

  lemma {:induction false} LeadsFlat(s: string, x: int)
    requires '(' !in s && ')' !in s && x >= 0
    ensures Leads(s, x, x)
  {
    forall k | 0 <= k <= |s| ensures Depth(s[..k]) == 0 {
      FlatDepth(s[..k]);
    }
    assert s[..|s|] == s;
  }

  lemma {:induction false} FlatDepth(s: string)
    requires '(' !in s && ')' !in s
    ensures Depth(s) == 0
  {
    if s != "" {
      FlatDepth(s[..|s| - 1]);
      assert s[|s| - 1] in s;
    }
  }

  lemma LeadsParens(x: int)
    requires x >= 0
    ensures Leads("(", x, x + 1) && Leads(")", x + 1, x)
  {
    assert "("[..0] == "" && "("[..1] == "(" && ")"[..0] == "" && ")"[..1] == ")";
    assert Depth("(") == 1 && Depth(")") == -1;
  }

  function Paren(s: string): string {
    "(" + s + ")"
  }

  lemma LeadsParen(s: string)
    requires Balanced(s)
    ensures Balanced(Paren(s))
  {
    LeadsParens(0);
    assert Leads(s, 1, 1);
    LeadsConcat("(", s, 0, 1, 1);
    LeadsConcat("(" + s, ")", 0, 1, 0);
  }

  // ---------------------------------------------------------------- top-level split

  /** The operator stands at `i`, outside parentheses, with something on both sides. */
  predicate SplitsAt(s: string, sep: string, i: nat) {
    && i < |s| && Depth(s[..i + 1]) == 0 && sep <= s[i..]
    && Trim(s[..i]) != "" && Trim(s[i + |sep|..]) != ""
  }

  /** The two sides of the first top-level operator from position `i` on. */
  function SplitFrom(s: string, sep: string, i: nat): (r: Option<(string, string)>)
    requires sep != ""
    ensures r.Some? ==> |r.value.0| < |s| && |r.value.1| < |s|
    decreases |s| - i
  {
    if i >= |s| then None
    else if SplitsAt(s, sep, i) then Some((Trim(s[..i]), Trim(s[i + |sep|..])))
    else SplitFrom(s, sep, i + 1)
  }

  method SplitTopLevel(s: string, sep: string) returns (r: Option<(string, string)>)
    requires sep != ""
    ensures r == SplitFrom(s, sep, 0)
  {
    var depth: int := 0;
    for i := 0 to |s|
      invariant depth == Depth(s[..i])
      invariant SplitFrom(s, sep, 0) == SplitFrom(s, sep, i)
    {
      if s[i] == '(' {
        depth := depth + 1;
      }
      if s[i] == ')' {
        depth := depth - 1;
      }
      assert s[..i + 1][..i] == s[..i];
      if depth == 0 && i + |sep| <= |s| && s[i..i + |sep|] == sep {
        assert sep <= s[i..];
        var left, right := s[..i], s[i + |sep|..];
        if Trim(left) != "" && Trim(right) != "" {
          return Some((Trim(left), Trim(right)));
        }
      }
      assert sep <= s[i..] ==> s[i..i + |sep|] == sep;
    }
    return None;
  }

  lemma {:induction false} SplitFirst(s: string, sep: string, i: nat, k: nat)
    requires sep != "" && i <= k && SplitsAt(s, sep, k)
    requires forall j :: i <= j < k ==> !SplitsAt(s, sep, j)
    ensures SplitFrom(s, sep, i) == Some((Trim(s[..k]), Trim(s[k + |sep|..])))
    decreases k - i
  {
    if i < k {
      SplitFirst(s, sep, i + 1, k);
    }
  }

  lemma {:induction false} SplitNever(s: string, sep: string, i: nat)
    requires sep != "" && forall j :: i <= j < |s| ==> !SplitsAt(s, sep, j)
    ensures SplitFrom(s, sep, i) == None
    decreases |s| - i
  {
    if i < |s| {
      SplitNever(s, sep, i + 1);
    }
  }

  // ---------------------------------------------------------------- not(...)

  predicate NeverNegative(s: string) {
    forall k :: 0 <= k <= |s| ==> Depth(s[..k]) >= 0
  }

  /** The inside of `not(...)` or `not (...)`, if its parentheses match up. */
  function NotInner(e: string): (r: Option<string>)
    ensures r.Some? ==> |r.value| < |e|
  {
    var s := Trim(e);
    var n := if "not(" <= s then 4 else if "not (" <= s then 5 else 0;
    if n == 0 || s[|s| - 1] != ')' then None
    else
      var inner := s[n..|s| - 1];
      if NeverNegative(inner) && Depth(inner) == 0 then Some(Trim(inner)) else None
  }

  lemma DepthNothing()
    ensures Depth("") == 0
  {
  }

  lemma DepthSnoc(s: string, i: nat)
    requires i < |s|
    ensures Depth(s[..i + 1]) == Depth(s[..i]) + Step(s[i])
  {
    assert s[..i + 1][..i] == s[..i];
  }

  method StripNot(e: string) returns (r: Option<string>)
    ensures r == NotInner(e)
  {
    var s := Trim(e);
    var n := 0;
    if "not(" <= s {
      n := 4;
    } else if "not (" <= s {
      n := 5;
    } else {
      return None;
    }
    if s[|s| - 1] != ')' {
      return None;
    }
    var inner := s[n..|s| - 1];
    var depth: int := 0;
    DepthNothing();
    hide Depth, Trim;
    for i := 0 to |inner|
      invariant depth == Depth(inner[..i])
      invariant forall k :: 0 <= k <= i ==> Depth(inner[..k]) >= 0
    {
      if inner[i] == '(' {
        depth := depth + 1;
      }
      if inner[i] == ')' {
        depth := depth - 1;
      }
      DepthSnoc(inner, i);
      if depth < 0 {
        return None;
      }
    }
    assert inner[..|inner|] == inner;
    if depth == 0 {
      return Some(Trim(inner));
    }
    return None;
  }
}
