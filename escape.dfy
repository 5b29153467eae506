/**
 * `htmlEscape`: five global replacements applied one after another, the
 * ampersand first, producing the XML 1.0 predefined entities `&amp;`,
 * `&quot;`, `&lt;`, `&gt;` (section 4.6 of the XML 1.0 recommendation) and
 * the character reference `&#39;` (section 4.1).
 */
module Escape {
  import opened Text

  /** The five reserved characters. */
  predicate Reserved(c: char) {
    c == '&' || c == '"' || c == '\'' || c == '<' || c == '>'
  }

  /** The source's chain of replacements, in its order. */
  function HtmlEscape(s: string): string {
    ReplaceAll(ReplaceAll(ReplaceAll(ReplaceAll(ReplaceAll(
      s, '&', "&amp;"), '"', "&quot;"), '\'', "&#39;"), '<', "&lt;"), '>', "&gt;")
  }

  /** The independent single-pass reading: each character on its own. */
  function EscapeChar(c: char): (r: string)
    ensures Reserved(c) ==> 4 <= |r| && r[0] == '&' && r[|r| - 1] == ';'
    ensures !Reserved(c) ==> r == [c]
  {
    if c == '&' then "&amp;"
    else if c == '"' then "&quot;"
    else if c == '\'' then "&#39;"
    else if c == '<' then "&lt;"
    else if c == '>' then "&gt;"
    else [c]
  }

  lemma {:induction false} HtmlEscapeAppend(a: string, b: string)
    ensures HtmlEscape(a + b) == HtmlEscape(a) + HtmlEscape(b)
  {
    var a1, b1 := ReplaceAll(a, '&', "&amp;"), ReplaceAll(b, '&', "&amp;");
    ReplaceAllAppend(a, b, '&', "&amp;");
    var a2, b2 := ReplaceAll(a1, '"', "&quot;"), ReplaceAll(b1, '"', "&quot;");
    ReplaceAllAppend(a1, b1, '"', "&quot;");
    var a3, b3 := ReplaceAll(a2, '\'', "&#39;"), ReplaceAll(b2, '\'', "&#39;");
    ReplaceAllAppend(a2, b2, '\'', "&#39;");
    var a4, b4 := ReplaceAll(a3, '<', "&lt;"), ReplaceAll(b3, '<', "&lt;");
    ReplaceAllAppend(a3, b3, '<', "&lt;");
    ReplaceAllAppend(a4, b4, '>', "&gt;");
  }

  lemma ReplaceAllOne(x: char, c: char, rep: string)
    ensures ReplaceAll([x], c, rep) == if x == c then rep else [x]
  {
    assert [x][1..] == [];
  }

  lemma HtmlEscapeChar(c: char)
    ensures HtmlEscape([c]) == EscapeChar(c)
  {
    ReplaceAllOne(c, '&', "&amp;");
    if c == '&' {
      assert '"' !in "&amp;" && '\'' !in "&amp;" && '<' !in "&amp;" && '>' !in "&amp;";
    } else {
      ReplaceAllOne(c, '"', "&quot;");
      if c == '"' {
        assert '\'' !in "&quot;" && '<' !in "&quot;" && '>' !in "&quot;";
      } else {
        ReplaceAllOne(c, '\'', "&#39;");
        if c == '\'' {
          assert '<' !in "&#39;" && '>' !in "&#39;";
        } else {
          ReplaceAllOne(c, '<', "&lt;");
          if c == '<' {
            assert '>' !in "&lt;";
          } else {
            ReplaceAllOne(c, '>', "&gt;");
          }
        }
      }
    }
  }

  /**
   * Because the ampersand is replaced first, the chain of replacements is the
   * same as escaping each character on its own: no entity it introduces is
   * escaped again by a later step.
   */
  lemma {:induction false} HtmlEscapeSinglePass(s: string)
    ensures HtmlEscape(s) == Translate(s, EscapeChar)
  {
    if s != [] {
      assert s == [s[0]] + s[1..];
      HtmlEscapeAppend([s[0]], s[1..]);
      HtmlEscapeChar(s[0]);
      HtmlEscapeSinglePass(s[1..]);
    }
  }

  /** No single character escapes to text holding `<`, `>`, `"` or `'`. */
  lemma EscapeCharSafe(c: char)
    ensures '<' !in EscapeChar(c) && '>' !in EscapeChar(c)
    ensures '"' !in EscapeChar(c) && '\'' !in EscapeChar(c)
  {
    if c == '&' {
      assert EscapeChar(c) == "&amp;";
    } else if c == '"' {
      assert EscapeChar(c) == "&quot;";
    } else if c == '\'' {
      assert EscapeChar(c) == "&#39;";
    } else if c == '<' {
      assert EscapeChar(c) == "&lt;";
    } else if c == '>' {
      assert EscapeChar(c) == "&gt;";
    }
  }

  /** Escaped text holds no `<`, `>`, `"` or `'`, so it is safe in attribute values and element content. */
  lemma HtmlEscapeSafe(s: string)
    ensures '<' !in HtmlEscape(s) && '>' !in HtmlEscape(s)
    ensures '"' !in HtmlEscape(s) && '\'' !in HtmlEscape(s)
  {
    HtmlEscapeSinglePass(s);
    forall c: char
      ensures '<' !in EscapeChar(c) && '>' !in EscapeChar(c) && '"' !in EscapeChar(c) && '\'' !in EscapeChar(c)
    {
      EscapeCharSafe(c);
    }
    TranslateAvoids(s, EscapeChar, '<');
    TranslateAvoids(s, EscapeChar, '>');
    TranslateAvoids(s, EscapeChar, '"');
    TranslateAvoids(s, EscapeChar, '\'');
  }

  /** Text without reserved characters comes back unchanged. */
  lemma HtmlEscapePlain(s: string)
    requires forall i | 0 <= i < |s| :: !Reserved(s[i])
    ensures HtmlEscape(s) == s
  {
    HtmlEscapeSinglePass(s);
    TranslateIdentity(s, EscapeChar);
  }

  /** Decodes the five entities the escaper produces; every other character stands for itself. */
  function Unescape(t: string): string
    decreases |t|
  {
    if t == [] then []
    else if |t| >= 5 && t[..5] == "&amp;" then "&" + Unescape(t[5..])
    else if |t| >= 6 && t[..6] == "&quot;" then "\"" + Unescape(t[6..])
    else if |t| >= 5 && t[..5] == "&#39;" then "'" + Unescape(t[5..])
    else if |t| >= 4 && t[..4] == "&lt;" then "<" + Unescape(t[4..])
    else if |t| >= 4 && t[..4] == "&gt;" then ">" + Unescape(t[4..])
    else [t[0]] + Unescape(t[1..])
  }

  lemma UnescapeStep(c: char, rest: string)
    ensures Unescape(EscapeChar(c) + rest) == [c] + Unescape(rest)
  {
    var e := EscapeChar(c);
    var t := e + rest;
    assert t[..|e|] == e;
    assert t[|e|..] == rest;
    if c == '&' {
    } else if c == '"' {
      assert t[..5] != "&amp;" by { assert t[1] == 'q'; }
    } else if c == '\'' {
      assert t[..5] != "&amp;" by { assert t[1] == '#'; }
      assert |t| >= 6 ==> t[..6] != "&quot;" by { assert t[1] == '#'; }
    } else if c == '<' {
      assert |t| >= 5 ==> t[..5] != "&amp;" && t[..5] != "&#39;" by { assert t[1] == 'l'; }
      assert |t| >= 6 ==> t[..6] != "&quot;" by { assert t[1] == 'l'; }
    } else if c == '>' {
      assert |t| >= 5 ==> t[..5] != "&amp;" && t[..5] != "&#39;" by { assert t[1] == 'g'; }
      assert |t| >= 6 ==> t[..6] != "&quot;" by { assert t[1] == 'g'; }
      assert t[..4] != "&lt;" by { assert t[1] == 'g'; }
    } else {
      assert t[0] == c;
      assert t[1..] == rest;
      assert |t| >= 4 ==> t[..4][0] == c;
      assert |t| >= 5 ==> t[..5][0] == c;
      assert |t| >= 6 ==> t[..6][0] == c;
    }
  }

  /** Escaping loses nothing: nothing is escaped twice, so the original text can be read back. */
  lemma {:induction false} UnescapeHtmlEscape(s: string)
    ensures Unescape(HtmlEscape(s)) == s
  {
    HtmlEscapeSinglePass(s);
    UnescapeTranslate(s);
  }

  lemma {:induction false} UnescapeTranslate(s: string)
    ensures Unescape(Translate(s, EscapeChar)) == s
  {
    if s != [] {
      UnescapeTranslate(s[1..]);
      UnescapeStep(s[0], Translate(s[1..], EscapeChar));
      assert s == [s[0]] + s[1..];
    }
  }
}
