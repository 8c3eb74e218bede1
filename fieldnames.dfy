/** Decomposition of a qualified metadata field name
    `schema[.element[.qualifier]][[language]]` into the pieces of the
    `<dcvalue>` start tag, as `Item.getSchema`, `Item.stripAttributeLang`
    and the `getAttribute*String` helpers do it (item.py:145-203). */
module FieldNames {
  import opened Results
  import opened Text
  import opened Html

  /** The regular-expression class `\w`, restricted to ASCII. */
  predicate IsWordChar(c: char)
  {
    ('a' <= c <= 'z') || ('A' <= c <= 'Z') || ('0' <= c <= '9') || c == '_'
  }

  /** The pattern `\[(\w+)\]` matches `s[i..j + 1]`: a `[` at `i`, a `]`
      at `j`, and one or more word characters in between. */
  predicate BracketAt(s: string, i: nat, j: nat)
  {
    i + 1 < j < |s| && s[i] == '[' && s[j] == ']' &&
    forall k :: i < k < j ==> IsWordChar(s[k])
  }

  /** The end of the longest run of word characters starting at `from`. */
  function WordRunEnd(s: string, from: nat): (e: nat)
    requires from <= |s|
    ensures from <= e <= |s|
    ensures forall k :: from <= k < e ==> IsWordChar(s[k])
    ensures e == |s| || !IsWordChar(s[e])
    decreases |s| - from
  {
    if from < |s| && IsWordChar(s[from]) then WordRunEnd(s, from + 1) else from
  }

  /** A match that starts at `i` can only end where the word run after
      the `[` ends, since `]` is not a word character. */
  lemma BracketEnds(s: string, i: nat)
    requires i < |s|
    ensures forall j :: BracketAt(s, i, j) ==> j == WordRunEnd(s, i + 1)
  {
  }

  /** `re.search(r'\[(\w+)\]', s)` started at `from`: the group of the
      leftmost match, if there is one. */
  function SearchLang(s: string, from: nat): (r: Option<string>)
    requires from <= |s|
    decreases |s| - from
  {
    if from == |s| then None
    else if s[from] == '[' && from + 1 < WordRunEnd(s, from + 1) < |s| && s[WordRunEnd(s, from + 1)] == ']' then
      Some(s[from + 1..WordRunEnd(s, from + 1)])
    else
      SearchLang(s, from + 1)
  }

  /** The search fails exactly when the pattern matches nowhere at or
      after `from`, and otherwise returns the group of the leftmost match. */
  lemma {:induction false} SearchLangLeftmost(s: string, from: nat)
    requires from <= |s|
    ensures SearchLang(s, from).None? <==> !exists i: nat, j: nat :: from <= i && BracketAt(s, i, j)
    ensures SearchLang(s, from).Some? ==> exists i: nat, j: nat ::
      (from <= i && BracketAt(s, i, j) && SearchLang(s, from).value == s[i + 1..j] &&
       forall i': nat, j': nat :: from <= i' < i ==> !BracketAt(s, i', j'))
    decreases |s| - from
  {
    if from < |s| {
      var e := WordRunEnd(s, from + 1);
      BracketEnds(s, from);
      if s[from] == '[' && from + 1 < e < |s| && s[e] == ']' {
        assert BracketAt(s, from, e);
      } else {
        assert forall j: nat :: !BracketAt(s, from, j);
        SearchLangLeftmost(s, from + 1);
        var r := SearchLang(s, from + 1);
        assert SearchLang(s, from) == r;
        if r.Some? {
          var i: nat, j: nat :| from + 1 <= i && BracketAt(s, i, j) && r.value == s[i + 1..j] &&
            forall i': nat, j': nat :: from + 1 <= i' < i ==> !BracketAt(s, i', j');
          assert forall i': nat, j': nat :: from <= i' < i ==> !BracketAt(s, i', j');
        }
      }
    }
  }

  /** No `<` or `>` in `s`. */
  predicate NoAngleBrackets(s: string)
  {
    forall k :: 0 <= k < |s| ==> s[k] != '<' && s[k] != '>'
  }

  lemma NoAngleBracketsConcat(a: string, b: string)
    requires NoAngleBrackets(a) && NoAngleBrackets(b)
    ensures NoAngleBrackets(a + b)
  {
  }

  /** The three XML attributes a `<dcvalue>` start tag can carry. */
  datatype TagAttribute = Element | Qualifier | Language

  function AttributeName(a: TagAttribute): (r: string)
    ensures NoAngleBrackets(r)
  {
    match a
    case Element => "element"
    case Qualifier => "qualifier"
    case Language => "language"
  }

  /** An attribute fragment ` name="<escaped value>" `, with the
      surrounding spaces the source puts around it. */
  function Fragment(a: TagAttribute, value: string): (r: string)
    ensures NoAngleBrackets(r)
    ensures |r| > 0
  {
    var r := " " + AttributeName(a) + "=\"" + Escape(value) + "\" ";
    EscapeNoRawDelimiters(value);
    NoAngleBracketsConcat(" " + AttributeName(a) + "=\"", Escape(value));
    r
  }

  /** `getAttributeLangString`: ` language="<lang>" ` for the first
      bracketed run of word characters, or nothing when there is none. */
  function AttributeLangString(name: string): (r: string)
    ensures r != "" <==> exists i: nat, j: nat :: BracketAt(name, i, j)
    ensures NoAngleBrackets(r)
  {
    SearchLangLeftmost(name, 0);
    match SearchLang(name, 0)
    case None => ""
    case Some(lang) => Fragment(Language, lang)
  }

  /** `stripAttributeLang`: the part of the name before the first `[`. */
  function StripAttributeLang(name: string): (r: string)
    ensures |r| <= |name| && r == name[..|r|]
    ensures '[' !in r
    ensures |r| < |name| ==> name[|r|] == '['
  {
    var r := Split(name, "[")[0];
    SplitFirst(name, "[");
    SplitPiecesFree(name, "[");
    ContainsChar(r, '[');
    OccursAtChar(name, '[', |r|);
    r
  }

  /** `getAttributeElementString`: ` element="<element>" ` when the name
      without its language part has a second `.`-separated segment. */
  function AttributeElementString(name: string): (r: string)
    ensures r != "" <==> '.' in StripAttributeLang(name)
    ensures NoAngleBrackets(r)
  {
    var head := StripAttributeLang(name);
    var parts := Split(head, ".");
    SplitCharPieces(head, '.');
    if |parts| >= 2 then Fragment(Element, parts[1]) else ""
  }

  /** `getAttributeQualifierString`: ` qualifier="<qualifier>" ` when the
      name without its language part has a third `.`-separated segment. */
  function AttributeQualifierString(name: string): (r: string)
    ensures r != "" <==> CountChar(StripAttributeLang(name), '.') >= 2
    ensures NoAngleBrackets(r)
  {
    var head := StripAttributeLang(name);
    var parts := Split(head, ".");
    SplitCharPieces(head, '.');
    if |parts| >= 3 then Fragment(Qualifier, parts[2]) else ""
  }

  /** `<dcvalue` and `>` around attribute text free of angle brackets is
      a single start tag. */
  lemma StartTagShape(attrs: string)
    requires NoAngleBrackets(attrs)
    ensures var r := "<dcvalue" + attrs + ">";
      |r| >= 9 && r[..8] == "<dcvalue" && r[|r| - 1] == '>' &&
      forall k :: 0 < k < |r| - 1 ==> r[k] != '<' && r[k] != '>'
  {
    var r := "<dcvalue" + attrs + ">";
    assert forall k :: 8 <= k < |r| - 1 ==> r[k] == attrs[k - 8];
  }

  /** `getOpenAttributeTag`: element, qualifier and language fragments in
      that order inside `<dcvalue...>`. Whatever the name holds, the result
      is one start tag: no `<` or `>` occurs between its first and last
      character. */
  function OpenAttributeTag(name: string): (r: string)
    ensures |r| >= 9 && r[..8] == "<dcvalue" && r[|r| - 1] == '>'
    ensures forall k :: 0 < k < |r| - 1 ==> r[k] != '<' && r[k] != '>'
  {
    var element := AttributeElementString(name);
    var qualifier := AttributeQualifierString(name);
    var lang := AttributeLangString(name);
    NoAngleBracketsConcat(element, qualifier);
    NoAngleBracketsConcat(element + qualifier, lang);
    StartTagShape(element + qualifier + lang);
    "<dcvalue" + (element + qualifier + lang) + ">"
  }

  /** `getSchema`: the text before the first `.` with `_` trimmed from
      both ends, escaped. The language part is not removed first, so a
      name without a `.` keeps its `[lang]` suffix in the schema. */
  function GetSchema(name: string): (r: string)
    ensures '<' !in r && '>' !in r && '"' !in r && '\'' !in r
  {
    EscapeNoRawDelimiters(Trim(Split(name, ".")[0], Underscore));
    Escape(Trim(Split(name, ".")[0], Underscore))
  }

  /** The schema is the text before the first `.` (all of the name when
      there is none) with `_` trimmed from both ends, escaped; unescaping
      it gives that trimmed text back. */
  lemma SchemaIsTrimmedFirstSegment(name: string)
    ensures exists n ::
      (0 <= n <= |name| && '.' !in name[..n] && (n == |name| || name[n] == '.') &&
       GetSchema(name) == Escape(Trim(name[..n], Underscore)) &&
       Unescape(GetSchema(name)) == Trim(name[..n], Underscore))
  {
    var head := Split(name, ".")[0];
    SplitFirst(name, ".");
    SplitPiecesFree(name, ".");
    ContainsChar(head, '.');
    OccursAtChar(name, '.', |head|);
    UnescapeEscape(Trim(head, Underscore));
    assert head == name[..|head|];
  }
}

/** What the helpers above make of a name that has the documented shape
    `schema[.element[.qualifier]][[lang]]`. */
module QualifiedNames {
  import opened Results
  import opened Text
  import opened Html
  import opened FieldNames

  /** The field name made of `.`-separated segments and an optional
      `[lang]` suffix. */
  function QualifiedName(segments: seq<string>, lang: Option<string>): string
  {
    Join(segments, ".") + (if lang.Some? then "[" + lang.value + "]" else "")
  }

  /** One to three segments free of `.` and `[`, and a language tag made
      of one or more word characters. */
  predicate WellFormed(segments: seq<string>, lang: Option<string>)
  {
    && 1 <= |segments| <= 3
    && (forall k :: 0 <= k < |segments| ==> '.' !in segments[k] && '[' !in segments[k])
    && (lang.Some? ==> |lang.value| > 0 && forall k :: 0 <= k < |lang.value| ==> IsWordChar(lang.value[k]))
  }

  /** The language part is what follows the joined segments. */
  lemma StripLangOfQualifiedName(segments: seq<string>, lang: Option<string>)
    requires WellFormed(segments, lang)
    ensures StripAttributeLang(QualifiedName(segments, lang)) == Join(segments, ".")
  {
    JoinCharFree(segments, '.', '[');
    if lang.None? {
      StripLangWithout(Join(segments, "."));
    } else {
      StripLangWith(Join(segments, "."), lang.value);
    }
  }

  lemma StripLangWithout(joined: string)
    requires '[' !in joined
    ensures StripAttributeLang(joined + "") == joined
  {
    assert joined + "" == joined;
    SplitCharAbsent(joined, '[');
  }

  lemma StripLangWith(joined: string, l: string)
    requires '[' !in joined
    ensures StripAttributeLang(joined + ("[" + l + "]")) == joined
  {
    assert joined + ("[" + l + "]") == joined + ['['] + (l + "]");
    SplitCharStep(joined, '[', l + "]");
  }

  /** The element fragment carries the second segment and the qualifier
      fragment the third; each is absent when its segment is. */
  lemma ElementAndQualifierOfQualifiedName(segments: seq<string>, lang: Option<string>)
    requires WellFormed(segments, lang)
    ensures var name := QualifiedName(segments, lang);
      && AttributeElementString(name) == (if |segments| >= 2 then Fragment(Element, segments[1]) else "")
      && AttributeQualifierString(name) == (if |segments| == 3 then Fragment(Qualifier, segments[2]) else "")
  {
    StripLangOfQualifiedName(segments, lang);
    SplitJoinChar(segments, '.');
  }

  /** The schema is the first segment, trimmed of `_` and escaped; a name
      with no element keeps its `[lang]` suffix in the schema. */
  lemma SchemaOfQualifiedName(segments: seq<string>, lang: Option<string>)
    requires WellFormed(segments, lang)
    ensures var name := QualifiedName(segments, lang);
      GetSchema(name) == Escape(Trim(if |segments| == 1 then name else segments[0], Underscore))
  {
    var name := QualifiedName(segments, lang);
    var suffix := if lang.Some? then "[" + lang.value + "]" else "";
    if |segments| == 1 {
      assert name == segments[0] + suffix;
      assert '.' !in suffix by {
        if lang.Some? {
          assert forall k :: 0 <= k < |suffix| ==> suffix[k] == '[' || suffix[k] == ']' || IsWordChar(suffix[k]);
        }
      }
      SplitCharAbsent(name, '.');
    } else {
      var rest := Join(segments[1..], ".") + suffix;
      assert name == segments[0] + ['.'] + rest;
      SplitCharStep(segments[0], '.', rest);
    }
  }

  /** The language fragment carries the bracketed tag, and is absent when
      there is none. */
  lemma LangOfQualifiedName(segments: seq<string>, lang: Option<string>)
    requires WellFormed(segments, lang)
    ensures var name := QualifiedName(segments, lang);
      AttributeLangString(name) == (if lang.Some? then Fragment(Language, lang.value) else "")
  {
    var name := QualifiedName(segments, lang);
    var joined := Join(segments, ".");
    JoinCharFree(segments, '.', '[');
    SearchLangLeftmost(name, 0);
    if lang.None? {
      assert name == joined;
    } else {
      var l := lang.value;
      var i0, j0 := |joined|, |joined| + |l| + 1;
      assert name == joined + "[" + l + "]";
      assert BracketAt(name, i0, j0);
      var i: nat, j: nat :| BracketAt(name, i, j) && SearchLang(name, 0).value == name[i + 1..j] &&
        forall i': nat, j': nat :: 0 <= i' < i ==> !BracketAt(name, i', j');
      assert i == i0;
      BracketEnds(name, i0);
      assert name[i0 + 1..j0] == l;
    }
  }
  /** The start tag for a well-formed name lists the element, qualifier
      and language the name carries, in that order, each only when
      present. */
  lemma OpenTagOfQualifiedName(segments: seq<string>, lang: Option<string>)
    requires WellFormed(segments, lang)
    ensures OpenAttributeTag(QualifiedName(segments, lang)) ==
      "<dcvalue" +
      ((if |segments| >= 2 then Fragment(Element, segments[1]) else "") +
       (if |segments| == 3 then Fragment(Qualifier, segments[2]) else "") +
       (if lang.Some? then Fragment(Language, lang.value) else "")) +
      ">"
  {
    ElementAndQualifierOfQualifiedName(segments, lang);
    LangOfQualifiedName(segments, lang);
  }
}
