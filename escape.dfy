/** `escapeHtml` (index.mjs:1502-1508): the five characters that are special
    in HTML text and attribute values replaced by their entities, one
    replace pass per character, `&` first. */
module Escape {
  import opened Base

  /** `s.replace(/c/g, entity)`: every `c` replaced by `entity`. */
  function ReplaceAll(s: string, c: char, entity: string): (r: string)
    ensures c !in entity ==> c !in r
    ensures forall x | x != c && x !in entity :: (x in r <==> x in s)
  {
    if s == [] then []
    else (if s[0] == c then entity else [s[0]]) + ReplaceAll(s[1..], c, entity)
  }

  /** `htmlStr?.toString()....replace(/'/g, "&#39;") ?? ''`: the text of a
      value, or None for null and undefined. */
  function EscapeHtml(html: Option<string>): (r: string)
    ensures html.None? ==> r == []
    ensures '<' !in r && '>' !in r && '"' !in r && '\'' !in r
  {
    match html
    case None => ""
    case Some(s) => PassesClean(s); Passes(s)
  }

  /** The five replace passes, `&` first. */
  function Passes(s: string): string {
    var amp := ReplaceAll(s, '&', "&amp;");
    var lt := ReplaceAll(amp, '<', "&lt;");
    var gt := ReplaceAll(lt, '>', "&gt;");
    var quot := ReplaceAll(gt, '"', "&quot;");
    ReplaceAll(quot, '\'', "&#39;")
  }

  /** Each pass removes its character and the later passes add none back. */
  lemma PassesClean(s: string)
    ensures var r := Passes(s); '<' !in r && '>' !in r && '"' !in r && '\'' !in r
  {
    var amp := ReplaceAll(s, '&', "&amp;");
    var lt := ReplaceAll(amp, '<', "&lt;");
    var gt := ReplaceAll(lt, '>', "&gt;");
    var quot := ReplaceAll(gt, '"', "&quot;");
    PassKeeps(lt, '>', "&gt;", '<');
    PassKeeps(gt, '"', "&quot;", '<');
    PassKeeps(gt, '"', "&quot;", '>');
    PassKeeps(quot, '\'', "&#39;", '<');
    PassKeeps(quot, '\'', "&#39;", '>');
    PassKeeps(quot, '\'', "&#39;", '"');
  }

  /** A pass for another character, with an entity free of `x`, adds no `x`. */
  lemma PassKeeps(s: string, c: char, entity: string, x: char)
    requires x != c && x !in entity && x !in s
    ensures x !in ReplaceAll(s, c, entity)
  {
  }

  // ---------------------------------------------------------------------
  // A reference definition: one entity per special character
  // ---------------------------------------------------------------------

  function EscapeChar(c: char): string {
    if c == '&' then "&amp;"
    else if c == '<' then "&lt;"
    else if c == '>' then "&gt;"
    else if c == '"' then "&quot;"
    else if c == '\'' then "&#39;"
    else [c]
  }

  /** The text with every character replaced by its escape. */
  function Escaped(s: string): string {
    if s == [] then [] else EscapeChar(s[0]) + Escaped(s[1..])
  }

  lemma {:induction false} ReplaceAllAppend(a: string, b: string, c: char, entity: string)
    ensures ReplaceAll(a + b, c, entity) == ReplaceAll(a, c, entity) + ReplaceAll(b, c, entity)
    decreases |a|
  {
    if a == [] {
      assert a + b == b;
    } else {
      var head := if a[0] == c then entity else [a[0]];
      assert (a + b)[0] == a[0] && (a + b)[1..] == a[1..] + b;
      ReplaceAllAppend(a[1..], b, c, entity);
      AppendAssoc(head, ReplaceAll(a[1..], c, entity), ReplaceAll(b, c, entity));
    }
  }

  /** A replace pass leaves a text without its character unchanged. */
  lemma {:induction false} ReplaceAbsent(s: string, c: char, entity: string)
    requires c !in s
    ensures ReplaceAll(s, c, entity) == s
    decreases |s|
  {
    if s != [] {
      assert s[0] != c;
      ReplaceAbsent(s[1..], c, entity);
    }
  }

  lemma PassesAppend(a: string, b: string)
    ensures Passes(a + b) == Passes(a) + Passes(b)
  {
    var amp := ReplaceAll(a + b, '&', "&amp;");
    ReplaceAllAppend(a, b, '&', "&amp;");
    var a1, b1 := ReplaceAll(a, '&', "&amp;"), ReplaceAll(b, '&', "&amp;");
    ReplaceAllAppend(a1, b1, '<', "&lt;");
    var a2, b2 := ReplaceAll(a1, '<', "&lt;"), ReplaceAll(b1, '<', "&lt;");
    ReplaceAllAppend(a2, b2, '>', "&gt;");
    var a3, b3 := ReplaceAll(a2, '>', "&gt;"), ReplaceAll(b2, '>', "&gt;");
    ReplaceAllAppend(a3, b3, '"', "&quot;");
    var a4, b4 := ReplaceAll(a3, '"', "&quot;"), ReplaceAll(b3, '"', "&quot;");
    ReplaceAllAppend(a4, b4, '\'', "&#39;");
  }

  /** An entity that a later pass does not touch comes out of all of them. */
  lemma Untouched(e: string)
    requires '<' !in e && '>' !in e && '"' !in e && '\'' !in e
    ensures ReplaceAll(ReplaceAll(ReplaceAll(ReplaceAll(e, '<', "&lt;"), '>', "&gt;"), '"', "&quot;"), '\'', "&#39;") == e
  {
    ReplaceAbsent(e, '<', "&lt;");
    ReplaceAbsent(e, '>', "&gt;");
    ReplaceAbsent(e, '"', "&quot;");
    ReplaceAbsent(e, '\'', "&#39;");
  }

  lemma PassesChar(c: char)
    ensures Passes([c]) == EscapeChar(c)
  {
    var amp := ReplaceAll([c], '&', "&amp;");
    assert amp == (if c == '&' then "&amp;" else [c]) by {
      assert [c][1..] == [];
      assert ReplaceAll([c][1..], '&', "&amp;") == [];
    }
    if c == '&' {
      Untouched("&amp;");
    } else {
      var single := [c];
      assert single[1..] == [];
      if c == '<' {
        assert ReplaceAll(single, '<', "&lt;") == "&lt;";
        Untouched("&lt;");
        ReplaceAbsent("&lt;", '>', "&gt;");
        ReplaceAbsent("&lt;", '"', "&quot;");
        ReplaceAbsent("&lt;", '\'', "&#39;");
      } else {
        ReplaceAbsent(single, '<', "&lt;");
        if c == '>' {
          assert ReplaceAll(single, '>', "&gt;") == "&gt;";
          ReplaceAbsent("&gt;", '"', "&quot;");
          ReplaceAbsent("&gt;", '\'', "&#39;");
        } else {
          ReplaceAbsent(single, '>', "&gt;");
          if c == '"' {
            assert ReplaceAll(single, '"', "&quot;") == "&quot;";
            ReplaceAbsent("&quot;", '\'', "&#39;");
          } else {
            ReplaceAbsent(single, '"', "&quot;");
            if c == '\'' {
              assert ReplaceAll(single, '\'', "&#39;") == "&#39;";
            } else {
              ReplaceAbsent(single, '\'', "&#39;");
            }
          }
        }
      }
    }
  }

  /** The five passes, `&` first, escape each character exactly once: no
      entity produced by one pass is rewritten by a later one. */
  lemma {:induction false} EscapeIsPerCharacter(s: string)
    ensures EscapeHtml(Some(s)) == Escaped(s)
    decreases |s|
  {
    if s == [] {
    } else {
      assert s == [s[0]] + s[1..];
      PassesAppend([s[0]], s[1..]);
      PassesChar(s[0]);
      EscapeIsPerCharacter(s[1..]);
    }
  }

  // ---------------------------------------------------------------------
  // Decoding the five entities
  // ---------------------------------------------------------------------

  /** Decoding of the five entities, left to right. */
  function Unescape(t: string): string
    decreases |t|
  {
    if t == [] then []
    else if StartsWith(t, "&amp;") then "&" + Unescape(t[5..])
    else if StartsWith(t, "&lt;") then "<" + Unescape(t[4..])
    else if StartsWith(t, "&gt;") then ">" + Unescape(t[4..])
    else if StartsWith(t, "&quot;") then "\"" + Unescape(t[6..])
    else if StartsWith(t, "&#39;") then "'" + Unescape(t[5..])
    else [t[0]] + Unescape(t[1..])
  }

  /** An escaped character decodes back to itself. */
  lemma UnescapeChar(c: char, rest: string)
    ensures Unescape(EscapeChar(c) + rest) == [c] + Unescape(rest)
  {
    if c == '&' {
      UnescapeAmp(rest);
    } else if c == '<' {
      UnescapeLt(rest);
    } else if c == '>' {
      UnescapeGt(rest);
    } else if c == '"' {
      UnescapeQuot(rest);
    } else if c == '\'' {
      UnescapeApos(rest);
    } else {
      var t := [c] + rest;
      assert t[0] == c && t[1..] == rest;
      assert !StartsWith(t, "&amp;") && !StartsWith(t, "&lt;") && !StartsWith(t, "&gt;")
        && !StartsWith(t, "&quot;") && !StartsWith(t, "&#39;");
    }
  }

  lemma UnescapeAmp(rest: string)
    ensures Unescape("&amp;" + rest) == "&" + Unescape(rest)
  {
    var t := "&amp;" + rest;
    assert t[..5] == "&amp;" && t[5..] == rest;
  }

  lemma UnescapeLt(rest: string)
    ensures Unescape("&lt;" + rest) == "<" + Unescape(rest)
  {
    var t := "&lt;" + rest;
    assert t[1] == 'l';
    assert t[..4] == "&lt;" && t[4..] == rest;
  }

  lemma UnescapeGt(rest: string)
    ensures Unescape("&gt;" + rest) == ">" + Unescape(rest)
  {
    var t := "&gt;" + rest;
    assert t[1] == 'g';
    assert t[..4] == "&gt;" && t[4..] == rest;
  }

  lemma UnescapeQuot(rest: string)
    ensures Unescape("&quot;" + rest) == "\"" + Unescape(rest)
  {
    var t := "&quot;" + rest;
    assert t[1] == 'q';
    assert t[..6] == "&quot;" && t[6..] == rest;
  }

  lemma UnescapeApos(rest: string)
    ensures Unescape("&#39;" + rest) == "'" + Unescape(rest)
  {
    var t := "&#39;" + rest;
    assert t[1] == '#';
    assert t[..5] == "&#39;" && t[5..] == rest;
  }

  /** Decoding the five entities recovers the text that was escaped. */
  lemma {:induction false} UnescapeEscape(s: string)
    ensures Unescape(EscapeHtml(Some(s))) == s
  {
    EscapeIsPerCharacter(s);
    UnescapeEscaped(s);
  }

  lemma {:induction false} UnescapeEscaped(s: string)
    ensures Unescape(Escaped(s)) == s
    decreases |s|
  {
    if s != [] {
      UnescapeChar(s[0], Escaped(s[1..]));
      UnescapeEscaped(s[1..]);
      assert [s[0]] + s[1..] == s;
    }
  }

  /** Text without special characters is returned as it is. */
  lemma PlainTextUnchanged(s: string)
    requires '&' !in s && '<' !in s && '>' !in s && '"' !in s && '\'' !in s
    ensures EscapeHtml(Some(s)) == s
  {
    ReplaceAbsent(s, '&', "&amp;");
    ReplaceAbsent(s, '<', "&lt;");
    ReplaceAbsent(s, '>', "&gt;");
    ReplaceAbsent(s, '"', "&quot;");
    ReplaceAbsent(s, '\'', "&#39;");
  }
}
