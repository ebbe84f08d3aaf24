/**
 Character escaping of canonical output, and the reader's inverse of it.
 */
module Escape {

  function TextChar(c: char): string {
    match c
    case '&' => "&amp;"
    case '<' => "&lt;"
    case '>' => "&gt;"
    case '\r' => "&#xD;"
    case _ => [c]
  }

  function AttrChar(c: char): string {
    match c
    case '&' => "&amp;"
    case '<' => "&lt;"
    case '"' => "&quot;"
    case '\t' => "&#x9;"
    case '\n' => "&#xA;"
    case '\r' => "&#xD;"
    case _ => [c]
  }

  function PiChar(c: char): string {
    if c == '\r' then "&#xD;" else [c]
  }

  /** Replaces every character by its escaped form. */
  function Each(f: char -> string, s: string): string {
    if s == "" then "" else f(s[0]) + Each(f, s[1..])
  }

  function EscText(s: string): string { Each(TextChar, s) }

  function EscAttr(s: string): string { Each(AttrChar, s) }

  function EscPi(s: string): string { Each(PiChar, s) }

  lemma {:induction false} EachConcat(f: char -> string, a: string, b: string)
    ensures Each(f, a + b) == Each(f, a) + Each(f, b)
  {
    if a == "" {
      assert a + b == b;
    } else {
      EachConcat(f, a[1..], b);
      assert (a + b)[1..] == a[1..] + b && (a + b)[0] == a[0];
      assert f(a[0]) + (Each(f, a[1..]) + Each(f, b)) == (f(a[0]) + Each(f, a[1..])) + Each(f, b);
    }
  }

  /** Whatever no escaped character contains, no escaped string contains. */
  lemma {:induction false} EachAvoids(f: char -> string, x: char, s: string)
    requires forall c :: x !in f(c)
    ensures x !in Each(f, s)
  {
    if s != "" {
      EachAvoids(f, x, s[1..]);
    }
  }

  method EscapeText(s: string) returns (out: string)
    ensures out == EscText(s)
  {
    out := "";
    for i := 0 to |s|
      invariant out == EscText(s[..i])
    {
      EachConcat(TextChar, s[..i], [s[i]]);
      assert Each(TextChar, [s[i]]) == TextChar(s[i]);
      assert s[..i + 1] == s[..i] + [s[i]];
      match s[i] {
        case '&' => out := out + "&amp;";
        case '<' => out := out + "&lt;";
        case '>' => out := out + "&gt;";
        case '\r' => out := out + "&#xD;";
        case _ => out := out + [s[i]];
      }
    }
    assert s[..|s|] == s;
  }

  method EscapeAttr(s: string) returns (out: string)
    ensures out == EscAttr(s)
  {
    out := "";
    for i := 0 to |s|
      invariant out == EscAttr(s[..i])
    {
      EachConcat(AttrChar, s[..i], [s[i]]);
      assert Each(AttrChar, [s[i]]) == AttrChar(s[i]);
      assert s[..i + 1] == s[..i] + [s[i]];
      match s[i] {
        case '&' => out := out + "&amp;";
        case '<' => out := out + "&lt;";
        case '"' => out := out + "&quot;";
        case '\t' => out := out + "&#x9;";
        case '\n' => out := out + "&#xA;";
        case '\r' => out := out + "&#xD;";
        case _ => out := out + [s[i]];
      }
    }
    assert s[..|s|] == s;
  }

  // ---------------------------------------------------------------- reading back

  /** The reference an XML reader recognises at the front of `s`: its length and meaning. */
  function Reference(s: string): (nat, char) {
    if s == "" || s[0] != '&' then (0, ' ')
    else if "&amp;" <= s then (5, '&')
    else if "&lt;" <= s then (4, '<')
    else if "&gt;" <= s then (4, '>')
    else if "&quot;" <= s then (6, '"')
    else if "&#x9;" <= s then (5, '\t')
    else if "&#xA;" <= s then (5, '\n')
    else if "&#xD;" <= s then (5, '\r')
    else (0, ' ')
  }

  /** Replaces references by the characters they stand for. */
  function Unescape(s: string): string
    decreases |s|
  {
    if s == "" then ""
    else
      var (n, c) := Reference(s);
      if n == 0 then [s[0]] + Unescape(s[1..]) else [c] + Unescape(s[n..])
  }

  /** Each reference the escaping functions write is read as the character it replaced. */
  lemma References()
    ensures Reference("&amp;") == (5, '&') && Reference("&quot;") == (6, '"')
    ensures Reference("&lt;") == (4, '<') && Reference("&gt;") == (4, '>')
    ensures Reference("&#x9;") == (5, '\t') && Reference("&#xA;") == (5, '\n')
    ensures Reference("&#xD;") == (5, '\r')
  {
    var a := "&amp;";
    var l, g, q := "&lt;", "&gt;", "&quot;";
    var t, n, r := "&#x9;", "&#xA;", "&#xD;";
    assert l[1] == 'l' && g[1] == 'g' && q[1] == 'q' && a[1] == 'a';
    assert t[1] == n[1] == r[1] == '#' && t[3] == '9' && n[3] == 'A' && r[3] == 'D';
  }

  lemma ReferencePrefix(e: string, n: nat, c: char, rest: string)
    requires Reference(e) == (n, c) && n == |e| > 0
    ensures Reference(e + rest) == (n, c)
    ensures Unescape(e + rest) == [c] + Unescape(rest)
  {
    var s := e + rest;
    assert s[1] == e[1] && s[2] == e[2] && s[3] == e[3];
    assert |e| > 4 ==> s[4] == e[4];
    assert s[n..] == rest;
  }

  lemma UnescapeTextChar(c: char, rest: string)
    ensures Unescape(TextChar(c) + rest) == [c] + Unescape(rest)
  {
    if c == '&' || c == '<' || c == '>' || c == '\r' {
      References();
      ReferencePrefix(TextChar(c), |TextChar(c)|, c, rest);
    } else {
      assert (TextChar(c) + rest)[1..] == rest;
    }
  }

  lemma UnescapeAttrChar(c: char, rest: string)
    ensures Unescape(AttrChar(c) + rest) == [c] + Unescape(rest)
  {
    if c == '&' || c == '<' || c == '"' || c == '\t' || c == '\n' || c == '\r' {
      References();
      ReferencePrefix(AttrChar(c), |AttrChar(c)|, c, rest);
    } else {
      assert AttrChar(c) == [c];
      assert (AttrChar(c) + rest)[1..] == rest;
    }
  }

  /** A reader that undoes each escaped character undoes the escaped string. */
  lemma {:induction false} EachInverse(f: char -> string, read: string -> string, s: string, rest: string)
    requires forall c, r :: read(f(c) + r) == [c] + read(r)
    ensures read(Each(f, s) + rest) == s + read(rest)
  {
    if s == "" {
      assert Each(f, s) + rest == rest;
    } else {
      EachInverse(f, read, s[1..], rest);
      assert Each(f, s) + rest == f(s[0]) + (Each(f, s[1..]) + rest);
      assert s == [s[0]] + s[1..];
    }
  }

  /** Reading undoes text escaping, whatever follows the escaped text. */
  lemma UnescapeText(s: string, rest: string)
    ensures Unescape(EscText(s) + rest) == s + Unescape(rest)
  {
    forall c, r ensures Unescape(TextChar(c) + r) == [c] + Unescape(r) {
      UnescapeTextChar(c, r);
    }
    EachInverse(TextChar, Unescape, s, rest);
  }

  /** Reading undoes attribute escaping. */
  lemma UnescapeAttr(s: string)
    ensures Unescape(EscAttr(s)) == s
  {
    forall c, r ensures Unescape(AttrChar(c) + r) == [c] + Unescape(r) {
      UnescapeAttrChar(c, r);
    }
    EachInverse(AttrChar, Unescape, s, "");
    assert EscAttr(s) + "" == EscAttr(s);
  }

  /** Escaped text cannot be mistaken for markup. */
  lemma EscTextSafe(s: string)
    ensures '<' !in EscText(s) && '>' !in EscText(s) && '\r' !in EscText(s)
  {
    EachAvoids(TextChar, '<', s);
    EachAvoids(TextChar, '>', s);
    EachAvoids(TextChar, '\r', s);
  }

  /** An escaped attribute value holds neither its delimiter nor markup nor white space
      that a reader would normalise. */
  lemma EscAttrSafe(s: string)
    ensures '"' !in EscAttr(s) && '<' !in EscAttr(s)
    ensures '\t' !in EscAttr(s) && '\n' !in EscAttr(s) && '\r' !in EscAttr(s)
  {
    EachAvoids(AttrChar, '"', s);
    EachAvoids(AttrChar, '<', s);
    EachAvoids(AttrChar, '\t', s);
    EachAvoids(AttrChar, '\n', s);
    EachAvoids(AttrChar, '\r', s);
  }

  /** Escaping instruction data leaves nothing to escape. */
  lemma EscPiSafe(s: string)
    ensures '\r' !in EscPi(s)
  {
    EachAvoids(PiChar, '\r', s);
  }

  lemma {:induction false} EscPiPlain(s: string)
    requires '\r' !in s
    ensures EscPi(s) == s
  {
    if s != "" {
      EscPiPlain(s[1..]);
      assert s == [s[0]] + s[1..];
    }
  }

  // ---------------------------------------------------------------- escaping as replacement

  /** Every `x` in the string replaced by `t`. */
  function Replaced(s: string, x: char, t: string): string {
    if s == "" then "" else (if s[0] == x then t else [s[0]]) + Replaced(s[1..], x, t)
  }

  lemma {:induction false} ReplacedConcat(a: string, b: string, x: char, t: string)
    ensures Replaced(a + b, x, t) == Replaced(a, x, t) + Replaced(b, x, t)
  {
    if a == "" {
      assert a + b == b;
    } else {
      ReplacedConcat(a[1..], b, x, t);
      assert (a + b)[1..] == a[1..] + b && (a + b)[0] == a[0];
      var head := if a[0] == x then t else [a[0]];
      assert head + (Replaced(a[1..], x, t) + Replaced(b, x, t)) == (head + Replaced(a[1..], x, t)) + Replaced(b, x, t);
    }
  }

  lemma {:induction false} ReplacedNowhere(s: string, x: char, t: string)
    requires x !in s
    ensures Replaced(s, x, t) == s
  {
    if s != "" {
      ReplacedNowhere(s[1..], x, t);
      assert s == [s[0]] + s[1..];
    }
  }

  /** A replacement after an escape is an escape, if it is one for every character. */
  lemma {:induction false} EachReplaced(f: char -> string, g: char -> string, s: string, x: char, t: string)
    requires forall c :: Replaced(f(c), x, t) == g(c)
    ensures Replaced(Each(f, s), x, t) == Each(g, s)
  {
    if s != "" {
      EachReplaced(f, g, s[1..], x, t);
      ReplacedConcat(f(s[0]), Each(f, s[1..]), x, t);
    }
  }

  function Alone(c: char): string { [c] }

  function Amp(c: char): string { if c == '&' then "&amp;" else [c] }

  function AmpLt(c: char): string { if c == '<' then "&lt;" else Amp(c) }

  function AmpLtGt(c: char): string { if c == '>' then "&gt;" else AmpLt(c) }

  function AmpLtQuot(c: char): string { if c == '"' then "&quot;" else AmpLt(c) }

  function AmpLtQuotTab(c: char): string { if c == '\t' then "&#x9;" else AmpLtQuot(c) }

  function AmpLtQuotTabLine(c: char): string { if c == '\n' then "&#xA;" else AmpLtQuotTab(c) }

  lemma {:induction false} EachAlone(s: string)
    ensures Each(Alone, s) == s
  {
    if s != "" {
      EachAlone(s[1..]);
      assert s == [s[0]] + s[1..];
    }
  }

  /** One more character is escaped. */
  lemma OneMore(f: char -> string, g: char -> string, s: string, x: char, t: string)
    requires f(x) == [x] && forall c :: (c == x ==> g(c) == t) && (c != x ==> g(c) == f(c) && x !in f(c))
    ensures Replaced(Each(f, s), x, t) == Each(g, s)
  {
    forall c ensures Replaced(f(c), x, t) == g(c) {
      if c == x {
        assert [x][1..] == "";
        assert Replaced([x], x, t) == t + "";
      } else {
        ReplacedNowhere(f(c), x, t);
      }
    }
    EachReplaced(f, g, s, x, t);
  }

  lemma AmpStep(s: string)
    ensures Replaced(s, '&', "&amp;") == Each(Amp, s)
  {
    hide Replaced, Each;
    EachAlone(s);
    OneMore(Alone, Amp, s, '&', "&amp;");
  }

  lemma LtStep(s: string)
    ensures Replaced(Each(Amp, s), '<', "&lt;") == Each(AmpLt, s)
  {
    hide Replaced, Each;
    OneMore(Amp, AmpLt, s, '<', "&lt;");
  }

  /** Markup characters of text, replaced one kind after the other, ampersands first. */
  lemma TextIsReplaced(s: string)
    ensures EscText(s) == Replaced(Replaced(Replaced(Replaced(s, '&', "&amp;"), '<', "&lt;"), '>', "&gt;"), '\r', "&#xD;")
  {
    hide Replaced, Each;
    AmpStep(s);
    LtStep(s);
    OneMore(AmpLt, AmpLtGt, s, '>', "&gt;");
    OneMore(AmpLtGt, TextChar, s, '\r', "&#xD;");
  }

  lemma QuotStep(s: string)
    ensures Replaced(Each(AmpLt, s), '"', "&quot;") == Each(AmpLtQuot, s)
  {
    hide Replaced, Each;
    OneMore(AmpLt, AmpLtQuot, s, '"', "&quot;");
  }

  lemma TabStep(s: string)
    ensures Replaced(Each(AmpLtQuot, s), '\t', "&#x9;") == Each(AmpLtQuotTab, s)
  {
    hide Replaced, Each;
    OneMore(AmpLtQuot, AmpLtQuotTab, s, '\t', "&#x9;");
  }

  lemma LineStep(s: string)
    ensures Replaced(Each(AmpLtQuotTab, s), '\n', "&#xA;") == Each(AmpLtQuotTabLine, s)
  {
    hide Replaced, Each;
    OneMore(AmpLtQuotTab, AmpLtQuotTabLine, s, '\n', "&#xA;");
  }

  lemma ReturnStep(s: string)
    ensures Replaced(Each(AmpLtQuotTabLine, s), '\r', "&#xD;") == Each(AttrChar, s)
  {
    hide Replaced, Each;
    OneMore(AmpLtQuotTabLine, AttrChar, s, '\r', "&#xD;");
  }

  /** The same for attribute values: no `>`, but quotes, tabs and line feeds. */
  lemma AttrIsReplaced(s: string)
    ensures EscAttr(s) ==
      Replaced(Replaced(Replaced(Replaced(Replaced(Replaced(s, '&', "&amp;"), '<', "&lt;"), '"', "&quot;"),
                                 '\t', "&#x9;"), '\n', "&#xA;"), '\r', "&#xD;")
  {
    hide Replaced, Each;
    AmpStep(s);
    LtStep(s);
    QuotStep(s);
    TabStep(s);
    LineStep(s);
    ReturnStep(s);
  }

  /** Instruction data: carriage returns only. */
  lemma PiIsReplaced(s: string)
    ensures EscPi(s) == Replaced(s, '\r', "&#xD;")
  {
    hide Replaced, Each;
    EachAlone(s);
    OneMore(Alone, PiChar, s, '\r', "&#xD;");
  }

  lemma {:induction false} EachLength(f: char -> string, s: string)
    requires forall c :: f(c) == [c] || |f(c)| > 1
    ensures |Each(f, s)| >= |s| && (Each(f, s) == s <==> forall i :: 0 <= i < |s| ==> f(s[i]) == [s[i]])
  {
    if s != "" {
      var rest := s[1..];
      EachLength(f, rest);
      assert s == [s[0]] + rest && forall i :: 0 < i < |s| ==> s[i] == rest[i - 1];
      if f(s[0]) == [s[0]] {
        assert Each(f, s)[1..] == Each(f, rest);
        if forall i :: 0 <= i < |s| ==> f(s[i]) == [s[i]] {
          forall i | 0 <= i < |rest| ensures f(rest[i]) == [rest[i]] {
            assert rest[i] == s[i + 1];
          }
        }
      } else {
        assert |Each(f, s)| > |s|;
      }
    }
  }

  lemma TextCharAlone(c: char)
    ensures TextChar(c) == [c] || |TextChar(c)| > 1
    ensures TextChar(c) == [c] <==> c != '&' && c != '<' && c != '>' && c != '\r'
  {
  }

  lemma AttrCharAlone(c: char)
    ensures AttrChar(c) == [c] || |AttrChar(c)| > 1
    ensures AttrChar(c) == [c] <==> c != '&' && c != '<' && c != '"' && c != '\t' && c != '\n' && c != '\r'
  {
  }

  /** Text is left alone exactly if none of the four characters occurs in it. */
  lemma TextUntouched(s: string)
    ensures EscText(s) == s <==> forall c :: c in s ==> c != '&' && c != '<' && c != '>' && c != '\r'
  {
    hide TextChar, Each;
    forall c {
      TextCharAlone(c);
    }
    EachLength(TextChar, s);
    assert forall i :: 0 <= i < |s| ==> s[i] in s;
  }

  /** Attribute values are left alone exactly if none of the six characters occurs in them. */
  lemma AttrUntouched(s: string)
    ensures EscAttr(s) == s <==> forall c :: c in s ==> c != '&' && c != '<' && c != '"' && c != '\t' && c != '\n' && c != '\r'
  {
    hide AttrChar, Each;
    forall c {
      AttrCharAlone(c);
    }
    EachLength(AttrChar, s);
    assert forall i :: 0 <= i < |s| ==> s[i] in s;
  }
}
