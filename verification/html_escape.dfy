/**
 * Markup escaping of one character at a time, as Python's `html.escape(c)`
 * with its default `quote=True`: exactly `& < > " '` are replaced by entities.
 */
module HtmlEscape {

  /** Characters that must never appear raw inside escaped text. */
  predicate IsMarkupSyntax(c: char) {
    c == '<' || c == '>' || c == '"' || c == '\''
  }

  function EscapeChar(c: char): (r: string)
    ensures |r| >= 1
    ensures forall i :: 0 <= i < |r| ==> !IsMarkupSyntax(r[i])
    ensures r == [c] <==> c != '&' && !IsMarkupSyntax(c)
  {
    if c == '&' then "&amp;"
    else if c == '<' then "&lt;"
    else if c == '>' then "&gt;"
    else if c == '"' then "&quot;"
    else if c == '\'' then "&#x27;"
    else [c]
  }

  function Escape(s: string): (r: string)
    ensures |r| >= |s|
    ensures forall i :: 0 <= i < |r| ==> !IsMarkupSyntax(r[i])
  {
    if |s| == 0 then [] else EscapeChar(s[0]) + Escape(s[1..])
  }

  lemma {:induction false} EscapeAppend(a: string, b: string)
    ensures Escape(a + b) == Escape(a) + Escape(b)
  {
    if |a| == 0 {
      assert a + b == b;
    } else {
      assert (a + b)[1..] == a[1..] + b;
      EscapeAppend(a[1..], b);
    }
  }

  /** Decoding of the five entities `EscapeChar` produces; any other text is kept. */
  function Unescape(s: string): string
    decreases |s|
  {
    if |s| == 0 then []
    else if |s| >= 5 && s[..5] == "&amp;" then "&" + Unescape(s[5..])
    else if |s| >= 4 && s[..4] == "&lt;" then "<" + Unescape(s[4..])
    else if |s| >= 4 && s[..4] == "&gt;" then ">" + Unescape(s[4..])
    else if |s| >= 6 && s[..6] == "&quot;" then "\"" + Unescape(s[6..])
    else if |s| >= 6 && s[..6] == "&#x27;" then "'" + Unescape(s[6..])
    else [s[0]] + Unescape(s[1..])
  }

  lemma UnescapeStep(c: char, rest: string)
    ensures Unescape(EscapeChar(c) + rest) == [c] + Unescape(rest)
  {
    var s := EscapeChar(c) + rest;
    if c == '&' {
      assert s[..5] == "&amp;" && s[5..] == rest;
    } else if c == '<' {
      assert s[..4] == "&lt;" && s[4..] == rest;
      assert |s| >= 5 ==> s[..5] != "&amp;" by { assert s[1] == 'l'; }
    } else if c == '>' {
      assert s[..4] == "&gt;" && s[4..] == rest;
      assert |s| >= 5 ==> s[..5] != "&amp;" by { assert s[1] == 'g'; }
      assert s[..4] != "&lt;" by { assert s[1] == 'g'; }
    } else if c == '"' {
      assert s[..6] == "&quot;" && s[6..] == rest;
      assert s[..5] != "&amp;" by { assert s[1] == 'q'; }
      assert s[..4] != "&lt;" by { assert s[1] == 'q'; }
      assert s[..4] != "&gt;" by { assert s[1] == 'q'; }
    } else if c == '\'' {
      assert s[..6] == "&#x27;" && s[6..] == rest;
      assert s[..5] != "&amp;" by { assert s[1] == '#'; }
      assert s[..4] != "&lt;" by { assert s[1] == '#'; }
      assert s[..4] != "&gt;" by { assert s[1] == '#'; }
      assert s[..6] != "&quot;" by { assert s[1] == '#'; }
    } else {
      assert s[0] == c && s[1..] == rest;
      assert |s| >= 4 ==> s[..4] != "&lt;" && s[..4] != "&gt;" by { assert s[0] != '&'; }
      assert |s| >= 5 ==> s[..5] != "&amp;" by { assert s[0] != '&'; }
      assert |s| >= 6 ==> s[..6] != "&quot;" && s[..6] != "&#x27;" by { assert s[0] != '&'; }
    }
  }

  /** Escaping loses nothing: the original text is recovered from the escaped one. */
  lemma {:induction false} EscapeRoundTrip(s: string)
    ensures Unescape(Escape(s)) == s
  {
    if |s| > 0 {
      UnescapeStep(s[0], Escape(s[1..]));
      EscapeRoundTrip(s[1..]);
      assert [s[0]] + s[1..] == s;
    }
  }
}
