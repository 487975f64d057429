/** HTML escaping of text before it is placed into the page
    (`escapeHtml`, script.js lines 249-255), and the single-character
    global replace that it is built from. */
module HtmlEscape {

  /** `s.replace(/c/g, rep)`: every occurrence of the character `c` is
      replaced by `rep`, in one left-to-right pass (the replacement is not
      rescanned). */
  function ReplaceChar(s: string, c: char, rep: string): (r: string)
    ensures c !in s ==> r == s
    ensures c !in rep ==> c !in r
    decreases |s|
  {
    if s == [] then []
    else (if s[0] == c then rep else [s[0]]) + ReplaceChar(s[1..], c, rep)
  }

  /** A character in neither the text nor the replacement is not in the
      result. */
  lemma {:induction false} ReplaceKeepsAbsent(s: string, c: char, rep: string, x: char)
    requires x !in rep
    ensures x !in s ==> x !in ReplaceChar(s, c, rep)
    decreases |s|
  {
    if s != [] {
      assert x !in s ==> x !in s[1..];
      ReplaceKeepsAbsent(s[1..], c, rep, x);
    }
  }

  /** A global replace works piecewise: it distributes over concatenation. */
  lemma {:induction false} ReplaceCharAppend(a: string, b: string, c: char, rep: string)
    ensures ReplaceChar(a + b, c, rep) == ReplaceChar(a, c, rep) + ReplaceChar(b, c, rep)
    decreases |a|
  {
    if a == [] {
      assert a + b == b;
    } else {
      assert (a + b)[0] == a[0];
      assert (a + b)[1..] == a[1..] + b;
      ReplaceCharAppend(a[1..], b, c, rep);
    }
  }

  /** The five replacements of `escapeHtml`, in the order the script
      applies them: `&` first, then `<`, `>`, `"` and `'`. */
  function EscapeHtml(text: string): string {
    var s1 := ReplaceChar(text, '&', "&amp;");
    var s2 := ReplaceChar(s1, '<', "&lt;");
    var s3 := ReplaceChar(s2, '>', "&gt;");
    var s4 := ReplaceChar(s3, '"', "&quot;");
    ReplaceChar(s4, '\'', "&#039;")
  }

  /** Escaped text holds no raw `<`, `>`, `"` or `'`. */
  lemma EscapeHtmlNoMarkup(text: string)
    ensures var r := EscapeHtml(text);
            '<' !in r && '>' !in r && '"' !in r && '\'' !in r
  {
    EscapeHtmlIsPerCharacter(text);
    EscapeCharsNoMarkup(text);
  }

  lemma {:induction false} EscapeCharsNoMarkup(s: string)
    ensures var r := EscapeChars(s);
            '<' !in r && '>' !in r && '"' !in r && '\'' !in r
    decreases |s|
  {
    if s != [] {
      EscapeCharsNoMarkup(s[1..]);
      EscapeCharNoMarkup(s[0]);
    }
  }

  lemma EscapeCharNoMarkup(c: char)
    ensures var e := EscapeChar(c);
            '<' !in e && '>' !in e && '"' !in e && '\'' !in e
  {
  }

  /** A text without the five special characters is returned unchanged. */
  lemma EscapeHtmlUnchanged(text: string)
    requires NoSpecial(text)
    ensures EscapeHtml(text) == text
  {
    assert '&' !in text && '<' !in text && '>' !in text && '"' !in text && '\'' !in text;
  }

  /** The five characters that escaping rewrites. */
  predicate IsSpecial(c: char) {
    c == '&' || c == '<' || c == '>' || c == '"' || c == '\''
  }

  predicate NoSpecial(s: string) {
    forall i :: 0 <= i < |s| ==> !IsSpecial(s[i])
  }

  /** The entity each character stands as after escaping. */
  function EscapeChar(c: char): (r: string)
    ensures !IsSpecial(c) <==> r == [c]
    ensures IsSpecial(c) ==> |r| > 1 && r[0] == '&'
  {
    if c == '&' then "&amp;"
    else if c == '<' then "&lt;"
    else if c == '>' then "&gt;"
    else if c == '"' then "&quot;"
    else if c == '\'' then "&#039;"
    else [c]
  }

  /** Reference definition: escaping as a per-character substitution. */
  function EscapeChars(s: string): string
    decreases |s|
  {
    if s == [] then [] else EscapeChar(s[0]) + EscapeChars(s[1..])
  }

  lemma EscapeHtmlAppend(a: string, b: string)
    ensures EscapeHtml(a + b) == EscapeHtml(a) + EscapeHtml(b)
  {
    var a1, b1 := ReplaceChar(a, '&', "&amp;"), ReplaceChar(b, '&', "&amp;");
    ReplaceCharAppend(a, b, '&', "&amp;");
    var a2, b2 := ReplaceChar(a1, '<', "&lt;"), ReplaceChar(b1, '<', "&lt;");
    ReplaceCharAppend(a1, b1, '<', "&lt;");
    var a3, b3 := ReplaceChar(a2, '>', "&gt;"), ReplaceChar(b2, '>', "&gt;");
    ReplaceCharAppend(a2, b2, '>', "&gt;");
    var a4, b4 := ReplaceChar(a3, '"', "&quot;"), ReplaceChar(b3, '"', "&quot;");
    ReplaceCharAppend(a3, b3, '"', "&quot;");
    ReplaceCharAppend(a4, b4, '\'', "&#039;");
  }

  /** On one character the replace chain yields exactly that character's
      entity: because `&` is rewritten first, the `&` introduced by a later
      step is never rewritten again. */
  lemma ReplaceCharOne(x: char, c: char, rep: string)
    ensures ReplaceChar([x], c, rep) == if x == c then rep else [x]
  {
    assert [x][1..] == [];
  }

  /** The last steps of the chain leave alone a text that has none of the
      characters they rewrite. */
  lemma EscapeFromStep2(s: string)
    requires '<' !in s && '>' !in s && '"' !in s && '\'' !in s
    ensures ReplaceChar(ReplaceChar(ReplaceChar(ReplaceChar(s, '<', "&lt;"), '>', "&gt;"), '"', "&quot;"), '\'', "&#039;") == s
  {
  }

  lemma EscapeHtmlOneChar(c: char)
    ensures EscapeHtml([c]) == EscapeChar(c)
  {
    if c == '&' {
      ReplaceCharOne(c, '&', "&amp;");
      EscapeFromStep2("&amp;");
    } else if c == '<' {
      EscapeLt();
    } else if c == '>' {
      EscapeGt();
    } else if c == '"' {
      EscapeQuot();
    } else if c == '\'' {
      EscapeApos();
    }
  }

  lemma EscapeLt()
    ensures EscapeHtml("<") == "&lt;"
  {
    ReplaceCharOne('<', '&', "&amp;");
    assert ReplaceChar("<", '&', "&amp;") == "<";
    ReplaceCharOne('<', '<', "&lt;");
    assert ReplaceChar("<", '<', "&lt;") == "&lt;";
    EscapeFromStep3("&lt;");
  }

  lemma EscapeFromStep3(s: string)
    requires '>' !in s && '"' !in s && '\'' !in s
    ensures ReplaceChar(ReplaceChar(ReplaceChar(s, '>', "&gt;"), '"', "&quot;"), '\'', "&#039;") == s
  {
  }

  lemma EscapeGt()
    ensures EscapeHtml(">") == "&gt;"
  {
    ReplaceCharOne('>', '&', "&amp;");
    assert ReplaceChar(">", '&', "&amp;") == ">";
    ReplaceCharOne('>', '<', "&lt;");
    assert ReplaceChar(">", '<', "&lt;") == ">";
    ReplaceCharOne('>', '>', "&gt;");
    assert ReplaceChar(">", '>', "&gt;") == "&gt;";
    EscapeFromStep4("&gt;");
  }

  lemma EscapeFromStep4(s: string)
    requires '"' !in s && '\'' !in s
    ensures ReplaceChar(ReplaceChar(s, '"', "&quot;"), '\'', "&#039;") == s
  {
  }

  lemma EscapeQuot()
    ensures EscapeHtml("\"") == "&quot;"
  {
    ReplaceCharOne('"', '&', "&amp;");
    ReplaceCharOne('"', '<', "&lt;");
    ReplaceCharOne('"', '>', "&gt;");
    ReplaceCharOne('"', '"', "&quot;");
  }

  lemma EscapeApos()
    ensures EscapeHtml("'") == "&#039;"
  {
    ReplaceCharOne('\'', '&', "&amp;");
    ReplaceCharOne('\'', '<', "&lt;");
    ReplaceCharOne('\'', '>', "&gt;");
    ReplaceCharOne('\'', '"', "&quot;");
    ReplaceCharOne('\'', '\'', "&#039;");
  }

  /** The replace chain equals the per-character substitution
      `&`->`&amp;`, `<`->`&lt;`, `>`->`&gt;`, `"`->`&quot;`, `'`->`&#039;`. */
  lemma {:induction false} EscapeHtmlIsPerCharacter(s: string)
    ensures EscapeHtml(s) == EscapeChars(s)
    decreases |s|
  {
    if s != [] {
      assert s == [s[0]] + s[1..];
      EscapeHtmlAppend([s[0]], s[1..]);
      EscapeHtmlOneChar(s[0]);
      EscapeHtmlIsPerCharacter(s[1..]);
    }
  }

  /** Reference decoder for the five entities that escaping produces; any
      other character, including a stray `&`, is kept as it is. */
  function Unescape(s: string): string
    decreases |s|
  {
    if s == [] then []
    else if "&amp;" <= s then "&" + Unescape(s[5..])
    else if "&lt;" <= s then "<" + Unescape(s[4..])
    else if "&gt;" <= s then ">" + Unescape(s[4..])
    else if "&quot;" <= s then "\"" + Unescape(s[6..])
    else if "&#039;" <= s then "'" + Unescape(s[6..])
    else [s[0]] + Unescape(s[1..])
  }

  lemma {:induction false} UnescapeEscapeChars(s: string)
    ensures Unescape(EscapeChars(s)) == s
    decreases |s|
  {
    if s != [] {
      UnescapeEscapeChars(s[1..]);
      UnescapeOneChar(s[0], EscapeChars(s[1..]));
      assert s == [s[0]] + s[1..];
    }
  }

  /** Decoding consumes exactly the entity of the first character. */
  lemma UnescapeOneChar(c: char, rest: string)
    ensures Unescape(EscapeChar(c) + rest) == [c] + Unescape(rest)
  {
    var e := EscapeChar(c) + rest;
    if c == '&' {
      assert "&amp;" <= e && e[5..] == rest;
    } else if IsSpecial(c) {
      UnescapeEntity(c, rest);
    } else {
      assert e[0] == c && e[1..] == rest;
    }
  }

  /** The entities other than `&amp;` differ from it in their second
      character, so the decoder recognises the right one. */
  lemma UnescapeEntity(c: char, rest: string)
    requires IsSpecial(c) && c != '&'
    ensures Unescape(EscapeChar(c) + rest) == [c] + Unescape(rest)
  {
    var ent := EscapeChar(c);
    var e := ent + rest;
    assert e[1] == ent[1];
    assert ent <= e && e[|ent|..] == rest;
  }

  /** Escaping loses nothing: decoding the five entities gives the input
      back, so distinct texts escape to distinct HTML. */
  lemma EscapeRoundTrip(s: string)
    ensures Unescape(EscapeHtml(s)) == s
  {
    EscapeHtmlIsPerCharacter(s);
    UnescapeEscapeChars(s);
  }
}
