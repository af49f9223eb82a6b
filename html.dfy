/**
 * `escapeHtml` of the chat client: a string is put into a fresh element as
 * its text content and read back as markup. The markup of a text node is the
 * "escaping a string" step of HTML fragment serialisation (HTML Living
 * Standard, section 13.3, not in attribute mode): `&` becomes `&amp;`,
 * U+00A0 becomes `&nbsp;`, `<` becomes `&lt;` and `>` becomes `&gt;`;
 * every other code unit is kept.
 */
module Html {
  import opened Options

  /** The markup one code unit of a text node serialises to. */
  function EscapeChar(c: char): (r: string)
    ensures |r| >= 1
    ensures r == [c] <==> c != '&' && c != '\U{00A0}' && c != '<' && c != '>'
    ensures r != [c] ==> r[0] == '&'
  {
    if c == '&' then "&amp;"
    else if c == '\U{00A0}' then "&nbsp;"
    else if c == '<' then "&lt;"
    else if c == '>' then "&gt;"
    else [c]
  }

  /** No code unit of `s` can open or close a tag. */
  predicate IsMarkupFree(s: string) {
    forall k :: 0 <= k < |s| ==> s[k] != '<' && s[k] != '>'
  }

  /** The serialisation of a text node whose data is `s`. */
  function EscapeText(s: string): (r: string)
    ensures IsMarkupFree(r)
    ensures |s| <= |r|
    ensures s == [] <==> r == []
  {
    if s == [] then []
    else
      var head := EscapeChar(s[0]);
      var r := head + EscapeText(s[1..]);
      assert forall k :: |head| <= k < |r| ==> r[k] == EscapeText(s[1..])[k - |head|];
      r
  }

  /**
   * `escapeHtml(text)`: a falsy argument (absent or empty) becomes `''`,
   * anything else its text-node serialisation.
   */
  function EscapeHtml(text: Option<string>): (r: string)
    ensures IsMarkupFree(r)
    ensures (text.None? || text.value == []) <==> r == []
  {
    EscapeText(text.GetOr(""))
  }

  /**
   * Decoding of the four character references the serialiser writes, as the
   * HTML tokenizer does when markup made of text and those references is
   * parsed.
   */
  function Unescape(m: string): string
    decreases |m|
  {
    if m == [] then []
    else if |m| >= 5 && m[..5] == "&amp;" then "&" + Unescape(m[5..])
    else if |m| >= 6 && m[..6] == "&nbsp;" then "\U{00A0}" + Unescape(m[6..])
    else if |m| >= 4 && m[..4] == "&lt;" then "<" + Unescape(m[4..])
    else if |m| >= 4 && m[..4] == "&gt;" then ">" + Unescape(m[4..])
    else [m[0]] + Unescape(m[1..])
  }

  /** A code unit other than '&' starts no character reference, so it reads as itself. */
  lemma UnescapePlain(c: char, rest: string)
    requires c != '&'
    ensures Unescape([c] + rest) == [c] + Unescape(rest)
  {
    var m := [c] + rest;
    assert m[0] == c && m[1..] == rest;
    assert |m| >= 4 ==> m[..4][0] == c;
    assert |m| >= 5 ==> m[..5][0] == c;
    assert |m| >= 6 ==> m[..6][0] == c;
  }

  /** Each character reference the serialiser writes reads back as the code unit it stands for. */
  lemma UnescapeReference(c: char, rest: string)
    requires c == '&' || c == '\U{00A0}' || c == '<' || c == '>'
    ensures Unescape(EscapeChar(c) + rest) == [c] + Unescape(rest)
  {
    var ref := EscapeChar(c);
    var m := ref + rest;
    assert m[..|ref|] == ref && m[|ref|..] == rest;
    assert m[1] == ref[1];
    assert |m| >= 5 ==> m[..5][1] == m[1];
    assert |m| >= 6 ==> m[..6][1] == m[1];
    assert m[..4][1] == m[1];
  }

  /** Escaping loses nothing: the rendered text is exactly the string given. */
  lemma {:induction false} UnescapeEscapeText(s: string)
    ensures Unescape(EscapeText(s)) == s
    decreases |s|
  {
    if s != [] {
      var tail := EscapeText(s[1..]);
      assert EscapeText(s) == EscapeChar(s[0]) + tail;
      UnescapeEscapeText(s[1..]);
      if EscapeChar(s[0]) == [s[0]] {
        UnescapePlain(s[0], tail);
      } else {
        UnescapeReference(s[0], tail);
      }
      assert [s[0]] + s[1..] == s;
    }
  }

  /** Escaping one code unit and then the rest is escaping the whole. */
  lemma EscapeTextCons(c: char, t: string)
    ensures EscapeText([c] + t) == EscapeChar(c) + EscapeText(t)
  {
    assert ([c] + t)[1..] == t;
  }

  /** The serialisation starts with a line feed or a carriage return exactly when the text does. */
  lemma EscapeTextFirst(t: string)
    requires t != []
    ensures EscapeText(t)[0] == '\n' <==> t[0] == '\n'
    ensures EscapeText(t)[0] == '\r' <==> t[0] == '\r'
  {
    assert EscapeText(t) == EscapeChar(t[0]) + EscapeText(t[1..]);
  }

  predicate IsCrFree(s: string) {
    forall k :: 0 <= k < |s| ==> s[k] != '\r'
  }

  predicate IsNulFree(s: string) {
    forall k :: 0 <= k < |s| ==> s[k] != '\U{0000}'
  }

  /**
   * Input stream preprocessing of the HTML parser (HTML Living Standard,
   * section 13.2.3.5): every CR LF pair and every lone CR becomes one LF.
   */
  function NormalizeNewlines(s: string): (r: string)
    ensures IsCrFree(r) && |r| <= |s|
    decreases |s|
  {
    if s == [] then []
    else
      var rest := if s[0] == '\r' && |s| >= 2 && s[1] == '\n' then s[2..] else s[1..];
      var head := if s[0] == '\r' then '\n' else s[0];
      var r := [head] + NormalizeNewlines(rest);
      assert forall k :: 1 <= k < |r| ==> r[k] == NormalizeNewlines(rest)[k - 1];
      r
  }

  /**
   * The tree builder "in body" ignores U+0000 character tokens (HTML Living
   * Standard, section 13.2.6.4.7): such code units never reach the text node.
   */
  function DropNul(s: string): (r: string)
    ensures IsNulFree(r) && |r| <= |s|
    decreases |s|
  {
    if s == [] then []
    else
      var head := if s[0] == '\U{0000}' then [] else [s[0]];
      var r := head + DropNul(s[1..]);
      assert forall k :: |head| <= k < |r| ==> r[k] == DropNul(s[1..])[k - |head|];
      r
  }

  /**
   * The text content `innerHTML = m` gives an element when `m` is made of text
   * and the four character references the serialiser writes: newlines are
   * normalised, references decoded and U+0000 dropped.
   */
  function ParsedText(m: string): string {
    DropNul(Unescape(NormalizeNewlines(m)))
  }

  /** Markup free of CR passes newline normalisation unchanged, and so does its tail's effect. */
  lemma {:induction false} NormalizeAfterCrFree(a: string, b: string)
    requires IsCrFree(a)
    ensures NormalizeNewlines(a + b) == a + NormalizeNewlines(b)
    decreases |a|
  {
    if a == [] {
      assert a + b == b;
    } else {
      assert (a + b)[0] == a[0] && (a + b)[1..] == a[1..] + b;
      NormalizeAfterCrFree(a[1..], b);
      assert [a[0]] + a[1..] == a;
    }
  }

  /** A CR LF pair normalises to one LF. */
  lemma NormalizeCrLf(t: string)
    ensures NormalizeNewlines("\r" + ("\n" + t)) == "\n" + NormalizeNewlines(t)
  {
    assert ("\r" + ("\n" + t))[2..] == t;
  }

  /** A CR not followed by LF normalises to one LF. */
  lemma NormalizeLoneCr(t: string)
    requires t == [] || t[0] != '\n'
    ensures NormalizeNewlines("\r" + t) == "\n" + NormalizeNewlines(t)
  {
    assert ("\r" + t)[1..] == t;
  }

  /** Any other code unit is kept. */
  lemma NormalizeOther(c: char, t: string)
    requires c != '\r'
    ensures NormalizeNewlines([c] + t) == [c] + NormalizeNewlines(t)
  {
    assert ([c] + t)[1..] == t;
  }

  /** The step of `NormalizeEscapeText` for a text that starts with a CR LF pair. */
  lemma NormalizeEscapeCrLf(t: string)
    requires NormalizeNewlines(EscapeText(t)) == EscapeText(NormalizeNewlines(t))
    ensures NormalizeNewlines(EscapeText("\r" + ("\n" + t))) == EscapeText(NormalizeNewlines("\r" + ("\n" + t)))
  {
    calc {
      NormalizeNewlines(EscapeText("\r" + ("\n" + t)));
      == { EscapeTextCons('\r', "\n" + t); EscapeTextCons('\n', t); }
      NormalizeNewlines("\r" + ("\n" + EscapeText(t)));
      == { NormalizeCrLf(EscapeText(t)); }
      "\n" + NormalizeNewlines(EscapeText(t));
      == "\n" + EscapeText(NormalizeNewlines(t));
      == { EscapeTextCons('\n', NormalizeNewlines(t)); }
      EscapeText("\n" + NormalizeNewlines(t));
      == { NormalizeCrLf(t); }
      EscapeText(NormalizeNewlines("\r" + ("\n" + t)));
    }
  }

  /** The step of `NormalizeEscapeText` for a text that starts with a CR not followed by LF. */
  lemma NormalizeEscapeLoneCr(t: string)
    requires t == [] || t[0] != '\n'
    requires NormalizeNewlines(EscapeText(t)) == EscapeText(NormalizeNewlines(t))
    ensures NormalizeNewlines(EscapeText("\r" + t)) == EscapeText(NormalizeNewlines("\r" + t))
  {
    calc {
      NormalizeNewlines(EscapeText("\r" + t));
      == { EscapeTextCons('\r', t); }
      NormalizeNewlines("\r" + EscapeText(t));
      == { if t != [] { EscapeTextFirst(t); } NormalizeLoneCr(EscapeText(t)); }
      "\n" + NormalizeNewlines(EscapeText(t));
      == "\n" + EscapeText(NormalizeNewlines(t));
      == { EscapeTextCons('\n', NormalizeNewlines(t)); }
      EscapeText("\n" + NormalizeNewlines(t));
      == { NormalizeLoneCr(t); }
      EscapeText(NormalizeNewlines("\r" + t));
    }
  }

  /** The step of `NormalizeEscapeText` for a text that starts with any other code unit. */
  lemma NormalizeEscapeOther(c: char, t: string)
    requires c != '\r'
    requires NormalizeNewlines(EscapeText(t)) == EscapeText(NormalizeNewlines(t))
    ensures NormalizeNewlines(EscapeText([c] + t)) == EscapeText(NormalizeNewlines([c] + t))
  {
    calc {
      NormalizeNewlines(EscapeText([c] + t));
      == { EscapeTextCons(c, t); }
      NormalizeNewlines(EscapeChar(c) + EscapeText(t));
      == { NormalizeAfterCrFree(EscapeChar(c), EscapeText(t)); }
      EscapeChar(c) + NormalizeNewlines(EscapeText(t));
      == EscapeChar(c) + EscapeText(NormalizeNewlines(t));
      == { EscapeTextCons(c, NormalizeNewlines(t)); }
      EscapeText([c] + NormalizeNewlines(t));
      == { NormalizeOther(c, t); }
      EscapeText(NormalizeNewlines([c] + t));
    }
  }

  /** Serialising commutes with newline normalisation: the serialiser neither adds nor splits a CR LF pair. */
  lemma {:induction false} NormalizeEscapeText(s: string)
    ensures NormalizeNewlines(EscapeText(s)) == EscapeText(NormalizeNewlines(s))
    decreases |s|
  {
    if s == [] {
    } else if s[0] == '\r' && |s| >= 2 && s[1] == '\n' {
      assert s == "\r" + ("\n" + s[2..]);
      NormalizeEscapeText(s[2..]);
      NormalizeEscapeCrLf(s[2..]);
    } else if s[0] == '\r' {
      assert s == "\r" + s[1..];
      NormalizeEscapeText(s[1..]);
      NormalizeEscapeLoneCr(s[1..]);
    } else {
      assert s == [s[0]] + s[1..];
      NormalizeEscapeText(s[1..]);
      NormalizeEscapeOther(s[0], s[1..]);
    }
  }

  /**
   * The text an escaped string shows once parsed back: the string itself with
   * its newlines normalised and its U+0000 code units dropped.
   */
  lemma ParsedEscapeText(s: string)
    ensures ParsedText(EscapeText(s)) == DropNul(NormalizeNewlines(s))
  {
    NormalizeEscapeText(s);
    UnescapeEscapeText(NormalizeNewlines(s));
  }

  /** A string with no CR and no U+0000 is shown exactly as it is. */
  lemma {:induction false} PlainTextShownVerbatim(s: string)
    requires IsCrFree(s) && IsNulFree(s)
    ensures DropNul(NormalizeNewlines(s)) == s
    decreases |s|
  {
    NormalizeAfterCrFree(s, []);
    assert s + [] == s;
    DropNulOfNulFree(s);
  }

  lemma {:induction false} DropNulOfNulFree(s: string)
    requires IsNulFree(s)
    ensures DropNul(s) == s
    decreases |s|
  {
    if s != [] {
      DropNulOfNulFree(s[1..]);
      assert [s[0]] + s[1..] == s;
    }
  }

  /**
   * The text a reader sees in an escaped field once `innerHTML` parses it:
   * the field's string (or nothing) up to newline normalisation and dropped
   * U+0000, and exactly the string when it has neither CR nor U+0000.
   */
  lemma ParsedEscapeHtml(text: Option<string>)
    ensures ParsedText(EscapeHtml(text)) == DropNul(NormalizeNewlines(text.GetOr("")))
    ensures IsCrFree(text.GetOr("")) && IsNulFree(text.GetOr("")) ==>
      ParsedText(EscapeHtml(text)) == text.GetOr("")
  {
    ParsedEscapeText(text.GetOr(""));
    if IsCrFree(text.GetOr("")) && IsNulFree(text.GetOr("")) {
      PlainTextShownVerbatim(text.GetOr(""));
    }
  }

  /** ASCII whitespace (WHATWG Infra Standard): TAB, LF, FF, CR and SPACE. */
  predicate IsAsciiWhiteSpace(c: char) {
    c == '\t' || c == '\n' || c == '\U{000C}' || c == '\r' || c == ' '
  }

  predicate HasNoAsciiWhiteSpace(s: string) {
    forall k :: 0 <= k < |s| ==> !IsAsciiWhiteSpace(s[k])
  }

  /** The length of the run of non-whitespace code units that starts `s`. */
  function WordEnd(s: string): (i: nat)
    ensures i <= |s|
    decreases |s|
  {
    if s == [] || IsAsciiWhiteSpace(s[0]) then 0 else 1 + WordEnd(s[1..])
  }

  /**
   * "Split a string on ASCII whitespace" (WHATWG Infra Standard): the tokens
   * of a class attribute, in order.
   */
  function SplitOnAsciiWhiteSpace(s: string): seq<string>
    decreases |s|
  {
    if s == [] then []
    else if IsAsciiWhiteSpace(s[0]) then SplitOnAsciiWhiteSpace(s[1..])
    else
      var n := WordEnd(s);
      [s[..n]] + SplitOnAsciiWhiteSpace(s[n..])
  }

  lemma {:induction false} WordEndOfWord(w: string, r: string)
    requires HasNoAsciiWhiteSpace(w)
    requires r == [] || IsAsciiWhiteSpace(r[0])
    ensures WordEnd(w + r) == |w|
    decreases |w|
  {
    if w == [] {
      assert w + r == r;
    } else {
      assert (w + r)[0] == w[0] && (w + r)[1..] == w[1..] + r;
      WordEndOfWord(w[1..], r);
    }
  }

  /** A word followed by whitespace (or nothing) is the first token, and the rest splits on its own. */
  lemma SplitWord(w: string, r: string)
    requires w != [] && HasNoAsciiWhiteSpace(w)
    requires r == [] || IsAsciiWhiteSpace(r[0])
    ensures SplitOnAsciiWhiteSpace(w + r) == [w] + SplitOnAsciiWhiteSpace(r)
  {
    WordEndOfWord(w, r);
    assert (w + r)[0] == w[0];
    assert (w + r)[..|w|] == w && (w + r)[|w|..] == r;
  }

  /** A word, one space and a rest split as the word followed by the tokens of the rest. */
  lemma SplitWordThenSpace(w: string, t: string)
    requires w != [] && HasNoAsciiWhiteSpace(w)
    ensures SplitOnAsciiWhiteSpace(w + " " + t) == [w] + SplitOnAsciiWhiteSpace(t)
  {
    var r := " " + t;
    assert w + " " + t == w + r;
    SplitWord(w, r);
    assert r[0] == ' ' && r[1..] == t;
  }

  /** A string without whitespace is one token, or none when it is empty. */
  lemma SplitSingleWord(w: string)
    requires HasNoAsciiWhiteSpace(w)
    ensures SplitOnAsciiWhiteSpace(w) == if w == [] then [] else [w]
  {
    if w != [] {
      SplitWord(w, []);
      assert w + [] == w;
    }
  }
}
