/** `html.escape(s, quote=True)`: the five characters that are special in
    XML text and in quoted attribute values are replaced by entities. The
    library rewrites `&` first and then `<`, `>`, `"` and `'`; since no
    replacement introduces a later-rewritten character, that is the same as
    rewriting each character on its own, which is how it is written here. */
module Html {

  /** The characters `html.escape` rewrites. */
  predicate IsMarkup(c: char)
  {
    c == '&' || c == '<' || c == '>' || c == '"' || c == '\''
  }

  /** The characters that must not appear raw in an escaped string. */
  predicate IsRawDelimiter(c: char)
  {
    c == '<' || c == '>' || c == '"' || c == '\''
  }

  function EscapeChar(c: char): (r: string)
    ensures forall k :: 0 <= k < |r| ==> !IsRawDelimiter(r[k])
    ensures !IsMarkup(c) <==> r == [c]
  {
    if c == '&' then "&amp;"
    else if c == '<' then "&lt;"
    else if c == '>' then "&gt;"
    else if c == '"' then "&quot;"
    else if c == '\'' then "&#x27;"
    else [c]
  }

  /** Each character replaced by its entity, if it has one. */
  function Escape(s: string): string
  {
    if s == [] then [] else EscapeChar(s[0]) + Escape(s[1..])
  }

  /** The escaped string holds no raw `<`, `>`, `"` or `'`. */
  lemma {:induction false} EscapeNoRawDelimiters(s: string)
    ensures forall k :: 0 <= k < |Escape(s)| ==> !IsRawDelimiter(Escape(s)[k])
  {
    if s != [] {
      EscapeNoRawDelimiters(s[1..]);
      var e, t := EscapeChar(s[0]), Escape(s[1..]);
      assert forall k :: 0 <= k < |e + t| ==> (e + t)[k] == if k < |e| then e[k] else t[k - |e|];
    }
  }

  /** Escaping never shortens, and it leaves a string alone exactly when
      the string holds no markup character. */
  lemma {:induction false} EscapeIdentity(s: string)
    ensures |s| <= |Escape(s)|
    ensures (forall k :: 0 <= k < |s| ==> !IsMarkup(s[k])) <==> Escape(s) == s
  {
    if s != [] {
      EscapeIdentity(s[1..]);
      assert IsMarkup(s[0]) ==> |EscapeChar(s[0])| > 1;
      if forall k :: 0 <= k < |s| - 1 ==> !IsMarkup(s[1..][k]) {
      }
    }
  }

  /** The inverse of `Escape`: the five entities are turned back into the
      characters they stand for; anything else is kept. */
  function Unescape(s: string): (r: string)
    decreases |s|
  {
    if s == [] then []
    else if s[0] != '&' then [s[0]] + Unescape(s[1..])
    else if |s| >= 5 && s[..5] == "&amp;" then "&" + Unescape(s[5..])
    else if |s| >= 4 && s[..4] == "&lt;" then "<" + Unescape(s[4..])
    else if |s| >= 4 && s[..4] == "&gt;" then ">" + Unescape(s[4..])
    else if |s| >= 6 && s[..6] == "&quot;" then "\"" + Unescape(s[6..])
    else if |s| >= 6 && s[..6] == "&#x27;" then "'" + Unescape(s[6..])
    else [s[0]] + Unescape(s[1..])
  }

  // Each entity is read back as its character; the entities differ in
  // their second character, so no other prefix test can succeed.

  lemma UnescapeAmp(t: string)
    ensures Unescape("&amp;" + t) == "&" + Unescape(t)
  {
    var e := "&amp;" + t;
    assert e[..5] == "&amp;" && e[5..] == t;
  }

  lemma UnescapeLt(t: string)
    ensures Unescape("&lt;" + t) == "<" + Unescape(t)
  {
    var e := "&lt;" + t;
    assert e[1] == 'l';
    assert e[..4] == "&lt;" && e[4..] == t;
  }

  lemma UnescapeGt(t: string)
    ensures Unescape("&gt;" + t) == ">" + Unescape(t)
  {
    var e := "&gt;" + t;
    assert e[1] == 'g';
    assert e[..4] == "&gt;" && e[4..] == t;
  }

  lemma UnescapeQuot(t: string)
    ensures Unescape("&quot;" + t) == "\"" + Unescape(t)
  {
    var e := "&quot;" + t;
    assert e[1] == 'q';
    assert e[..6] == "&quot;" && e[6..] == t;
  }

  lemma UnescapeApos(t: string)
    ensures Unescape("&#x27;" + t) == "'" + Unescape(t)
  {
    var e := "&#x27;" + t;
    assert e[1] == '#';
    assert e[..6] == "&#x27;" && e[6..] == t;
  }

  lemma UnescapeEscapeChar(c: char, t: string)
    ensures Unescape(EscapeChar(c) + t) == [c] + Unescape(t)
  {
    if c == '&' {
      UnescapeAmp(t);
    } else if c == '<' {
      UnescapeLt(t);
    } else if c == '>' {
      UnescapeGt(t);
    } else if c == '"' {
      UnescapeQuot(t);
    } else if c == '\'' {
      UnescapeApos(t);
    } else {
      var e := [c] + t;
      assert e[0] == c && e[1..] == t;
    }
  }

  /** Escaping loses nothing: unescaping recovers the original text. */
  lemma {:induction false} UnescapeEscape(s: string)
    ensures Unescape(Escape(s)) == s
  {
    if s != [] {
      UnescapeEscapeChar(s[0], Escape(s[1..]));
      UnescapeEscape(s[1..]);
    }
  }
}
