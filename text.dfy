/** The string primitives the item model relies on: Python's `str.split`
    with an explicit separator, `str.strip()`, and `os.path.basename`
    (POSIX flavour, `/` only). */
module Text {
  import opened Results

  /** `sep` occurs in `s` starting at index `i`. */
  predicate OccursAt(s: string, sep: string, i: nat)
  {
    i + |sep| <= |s| && s[i..i + |sep|] == sep
  }

  /** `sep` occurs somewhere in `s`. */
  predicate Contains(s: string, sep: string)
  {
    exists i: nat | i <= |s| :: OccursAt(s, sep, i)
  }

  /** The leftmost occurrence of `sep` in `s` at or after `from`. */
  function Find(s: string, sep: string, from: nat): (r: Option<nat>)
    requires |sep| > 0
    ensures r.Some? ==> from <= r.value && OccursAt(s, sep, r.value)
    ensures forall i: nat :: from <= i && OccursAt(s, sep, i) ==> r.Some? && r.value <= i
    decreases |s| - from
  {
    if from + |sep| > |s| then None
    else if s[from..from + |sep|] == sep then Some(from)
    else Find(s, sep, from + 1)
  }

  /** The inverse of splitting: the parts glued together with `sep`. */
  function Join(parts: seq<string>, sep: string): (s: string)
  {
    if |parts| == 0 then ""
    else if |parts| == 1 then parts[0]
    else parts[0] + sep + Join(parts[1..], sep)
  }

  /** Nothing before the leftmost occurrence of `sep` contains `sep`. */
  lemma BeforeFirstOccurrence(s: string, sep: string, i: nat)
    requires |sep| > 0 && i <= |s|
    requires forall j: nat :: OccursAt(s, sep, j) ==> i <= j
    ensures !Contains(s[..i], sep)
  {
    forall j: nat | OccursAt(s[..i], sep, j)
      ensures false
    {
      assert s[..i][j..j + |sep|] == s[j..j + |sep|];
      assert OccursAt(s, sep, j);
    }
  }

  /** Python's `s.split(sep)` for a non-empty separator: the pieces between
      the non-overlapping occurrences of `sep`, scanned left to right. There
      is always at least one piece, and gluing the pieces back together with
      `sep` gives `s` again. */
  function Split(s: string, sep: string): (parts: seq<string>)
    requires |sep| > 0
    ensures |parts| >= 1
    ensures Join(parts, sep) == s
    decreases |s|
  {
    match Find(s, sep, 0)
    case None => [s]
    case Some(i) =>
      var rest := Split(s[i + |sep|..], sep);
      assert s == s[..i] + sep + s[i + |sep|..];
      [s[..i]] + rest
  }

  /** No piece of a split contains the separator. */
  lemma {:induction false} SplitPiecesFree(s: string, sep: string)
    requires |sep| > 0
    ensures forall k :: 0 <= k < |Split(s, sep)| ==> !Contains(Split(s, sep)[k], sep)
    decreases |s|
  {
    match Find(s, sep, 0)
    case None =>
    case Some(i) =>
      BeforeFirstOccurrence(s, sep, i);
      SplitPiecesFree(s[i + |sep|..], sep);
  }

  /** A one-character separator occurs exactly where that character does. */
  lemma OccursAtChar(s: string, c: char, i: nat)
    ensures OccursAt(s, [c], i) <==> i < |s| && s[i] == c
  {
    if i < |s| {
      assert s[i..i + 1] == [s[i]];
    }
  }

  lemma ContainsChar(s: string, c: char)
    ensures Contains(s, [c]) <==> c in s
  {
    if c in s {
      var i :| 0 <= i < |s| && s[i] == c;
      OccursAtChar(s, c, i);
    }
    if Contains(s, [c]) {
      var i: nat :| i <= |s| && OccursAt(s, [c], i);
      OccursAtChar(s, c, i);
    }
  }

  /** The first piece of a split is the prefix of `s` before the first
      occurrence of the separator, and when there are more pieces the
      separator follows it. */
  lemma SplitFirst(s: string, sep: string)
    requires |sep| > 0
    ensures var p := Split(s, sep)[0];
      |p| <= |s| && p == s[..|p|] &&
      (|Split(s, sep)| == 1 <==> p == s) &&
      (|Split(s, sep)| > 1 ==> OccursAt(s, sep, |p|))
  {
    var parts := Split(s, sep);
    if |parts| > 1 {
      assert s == parts[0] + sep + Join(parts[1..], sep);
      assert s[|parts[0]|..|parts[0]| + |sep|] == sep;
    }
  }

  /** The first piece ends where the leftmost occurrence of the separator
      begins, as Python scans left to right: `"a|||b".split("||")` is
      `["a", "|b"]`. With no occurrence the whole string is the one piece,
      and otherwise the remaining pieces are the split of what follows that
      occurrence. */
  lemma {:induction false} SplitLeftmost(s: string, sep: string)
    requires |sep| > 0
    ensures var parts := Split(s, sep);
      && (forall j: nat :: j < |parts[0]| ==> !OccursAt(s, sep, j))
      && (|parts| == 1 <==> !Contains(s, sep))
      && (|parts| > 1 ==> parts[1..] == Split(s[|parts[0]| + |sep|..], sep))
  {
    match Find(s, sep, 0)
    case None =>
      assert !Contains(s, sep);
    case Some(i) =>
      assert OccursAt(s, sep, i);
  }

  /** With a one-character separator `c`, a prefix free of `c` followed by
      `c` is split off as the first piece. */
  lemma SplitCharStep(a: string, c: char, b: string)
    requires c !in a
    ensures Split(a + [c] + b, [c]) == [a] + Split(b, [c])
  {
    var s := a + [c] + b;
    OccursAtChar(s, c, |a|);
    var r := Find(s, [c], 0);
    OccursAtChar(s, c, r.value);
    assert s[..|a|] == a;
    assert s[|a| + 1..] == b;
  }

  /** Splitting on a character that does not occur gives the whole string. */
  lemma SplitCharAbsent(s: string, c: char)
    requires c !in s
    ensures Split(s, [c]) == [s]
  {
    var r := Find(s, [c], 0);
    if r.Some? {
      OccursAtChar(s, c, r.value);
    }
  }

  /** For a one-character separator, splitting undoes joining pieces that
      do not contain it. */
  lemma {:induction false} SplitJoinChar(parts: seq<string>, c: char)
    requires |parts| >= 1
    requires forall k :: 0 <= k < |parts| ==> c !in parts[k]
    ensures Split(Join(parts, [c]), [c]) == parts
  {
    if |parts| == 1 {
      SplitCharAbsent(parts[0], c);
    } else {
      var rest := Join(parts[1..], [c]);
      assert Join(parts, [c]) == parts[0] + [c] + rest;
      SplitCharStep(parts[0], c, rest);
      SplitJoinChar(parts[1..], c);
      assert parts == [parts[0]] + parts[1..];
    }
  }

  /** Joining pieces free of `c` with a separator other than `c` gives a
      string free of `c`. */
  lemma {:induction false} JoinCharFree(parts: seq<string>, sep: char, c: char)
    requires c != sep
    requires forall k :: 0 <= k < |parts| ==> c !in parts[k]
    ensures c !in Join(parts, [sep])
  {
    if |parts| > 1 {
      JoinCharFree(parts[1..], sep, c);
    }
  }

  /** The number of times `c` occurs in `s`. */
  function CountChar(s: string, c: char): (n: nat)
    ensures n == 0 <==> c !in s
    ensures n <= |s|
  {
    if s == [] then 0
    else (if s[0] == c then 1 else 0) + CountChar(s[1..], c)
  }

  lemma {:induction false} CountCharAppend(a: string, b: string, c: char)
    ensures CountChar(a + b, c) == CountChar(a, c) + CountChar(b, c)
  {
    if a != [] {
      assert (a + b)[1..] == a[1..] + b;
      CountCharAppend(a[1..], b, c);
    } else {
      assert a + b == b;
    }
  }

  /** When `c` occurs in `s`, the first piece of the split on `c` is the
      text before its first occurrence, and the other pieces are the
      split of the text after it. */
  lemma SplitCharAt(s: string, c: char)
    requires c in s
    ensures var p := Split(s, [c])[0];
      |p| < |s| && c !in p && s == p + ([c] + s[|p| + 1..]) &&
      Split(s, [c]) == [p] + Split(s[|p| + 1..], [c])
  {
    var p := Split(s, [c])[0];
    SplitCharHead(s, c);
    var rest := s[|p| + 1..];
    assert s == p + ([c] + rest);
    SplitCharStep(p, c, rest);
  }

  /** The first piece of the split on an occurring `c` is a `c`-free
      prefix followed by `c`. */
  lemma SplitCharHead(s: string, c: char)
    requires c in s
    ensures var p := Split(s, [c])[0];
      |p| < |s| && p == s[..|p|] && s[|p|] == c && c !in p
  {
    var p := Split(s, [c])[0];
    SplitFirst(s, [c]);
    SplitPiecesFree(s, [c]);
    ContainsChar(p, c);
    OccursAtChar(s, c, |p|);
  }

  /** `c` once, after a prefix free of it, counts once. */
  lemma CountCharAfterFree(p: string, c: char, rest: string)
    requires c !in p
    ensures CountChar(p + ([c] + rest), c) == 1 + CountChar(rest, c)
  {
    CountCharAppend(p, [c] + rest, c);
    assert ([c] + rest)[1..] == rest;
  }

  /** Splitting on a character yields one more piece than there are
      occurrences of that character. */
  lemma {:induction false} SplitCountChar(s: string, c: char)
    ensures |Split(s, [c])| == CountChar(s, c) + 1
    decreases |s|
  {
    if c !in s {
      SplitCharAbsent(s, c);
    } else {
      SplitCharAt(s, c);
      var p := Split(s, [c])[0];
      var rest := s[|p| + 1..];
      CountCharAfterFree(p, c, rest);
      SplitCountChar(rest, c);
    }
  }

  /** A split on `c` has a second piece exactly when `c` occurs, and a
      third exactly when it occurs twice. */
  lemma SplitCharPieces(s: string, c: char)
    ensures |Split(s, [c])| >= 2 <==> c in s
    ensures |Split(s, [c])| >= 3 <==> CountChar(s, c) >= 2
  {
    SplitCountChar(s, c);
  }

  /** String concatenation regrouped, for proofs where the strings'
      contents are expensive to look into. */
  lemma AppendAssoc(x: string, y: string, z: string)
    ensures (x + y) + z == x + (y + z)
  {
  }

  lemma AppendAssoc3(w: string, x: string, y: string, z: string)
    ensures ((w + x) + y) + z == w + ((x + y) + z)
  {
  }

  /** The two character sets the item code strips: whitespace (`strip()`)
      and the `_` around a schema name (`strip('_')`). */
  datatype CharClass = Whitespace | Underscore

  /** `c` belongs to the class `drop`. */
  predicate Drops(drop: CharClass, c: char)
  {
    match drop
    case Whitespace => IsSpace(c)
    case Underscore => c == '_'
  }

  /** Every character of `s` belongs to the class `drop`. */
  predicate AllIn(s: string, drop: CharClass)
  {
    forall k :: 0 <= k < |s| ==> Drops(drop, s[k])
  }

  /** `s` without its leading characters of class `drop`. */
  function TrimStart(s: string, drop: CharClass): string
  {
    if s != [] && Drops(drop, s[0]) then TrimStart(s[1..], drop) else s
  }

  /** `s` without its trailing characters of class `drop`. */
  function TrimEnd(s: string, drop: CharClass): string
  {
    if s != [] && Drops(drop, s[|s| - 1]) then TrimEnd(s[..|s| - 1], drop) else s
  }

  /** Python's `s.strip(chars)`, the characters to remove being those of
      class `drop`. */
  function Trim(s: string, drop: CharClass): string
  {
    TrimEnd(TrimStart(s, drop), drop)
  }

  /** `TrimStart` keeps a suffix, cuts only characters of class `drop`,
      and stops at the first character outside it. */
  lemma {:induction false} TrimStartShape(s: string, drop: CharClass)
    ensures var r := TrimStart(s, drop);
      |r| <= |s| && r == s[|s| - |r|..] && AllIn(s[..|s| - |r|], drop) &&
      (r == [] || !Drops(drop, r[0]))
  {
    if s != [] && Drops(drop, s[0]) {
      TrimStartShape(s[1..], drop);
      var r := TrimStart(s[1..], drop);
      assert s[..|s| - |r|] == [s[0]] + s[1..][..|s| - 1 - |r|];
    }
  }

  /** `TrimEnd` keeps a prefix, cuts only characters of class `drop`, and
      stops at the last character outside it. */
  lemma {:induction false} TrimEndShape(s: string, drop: CharClass)
    ensures var r := TrimEnd(s, drop);
      |r| <= |s| && r == s[..|r|] && AllIn(s[|r|..], drop) &&
      (r == [] || !Drops(drop, r[|r| - 1]))
  {
    if s != [] && Drops(drop, s[|s| - 1]) {
      TrimEndShape(s[..|s| - 1], drop);
      var r := TrimEnd(s[..|s| - 1], drop);
      assert s[|r|..] == s[..|s| - 1][|r|..] + [s[|s| - 1]];
    }
  }

  /** The trimmed string is an infix of `s` that neither starts nor ends
      with a character of class `drop`, and everything cut off on either
      side is of that class: the longest such infix. */
  lemma TrimInfix(s: string, drop: CharClass)
    ensures var r := Trim(s, drop);
      (r == [] || (!Drops(drop, r[0]) && !Drops(drop, r[|r| - 1]))) &&
      exists i :: 0 <= i <= |s| - |r| && r == s[i..i + |r|] && AllIn(s[..i], drop) && AllIn(s[i + |r|..], drop)
  {
    var t := TrimStart(s, drop);
    TrimStartShape(s, drop);
    var r := TrimEnd(t, drop);
    TrimEndShape(t, drop);
    var i := |s| - |t|;
    assert r == s[i..i + |r|];
    assert s[i + |r|..] == t[|r|..];
  }

  /** Trimming twice is trimming once. */
  lemma TrimIdempotent(s: string, drop: CharClass)
    ensures Trim(Trim(s, drop), drop) == Trim(s, drop)
  {
    var r := Trim(s, drop);
    TrimInfix(s, drop);
    assert TrimStart(r, drop) == r;
    assert TrimEnd(r, drop) == r;
  }

  /** Trimming removes characters and never adds one. */
  lemma TrimKeepsAbsent(s: string, drop: CharClass, c: char)
    requires c !in s
    ensures c !in Trim(s, drop)
  {
    TrimInfix(s, drop);
  }

  /** A string made only of characters of class `drop` trims to nothing. */
  lemma TrimAllIn(s: string, drop: CharClass)
    requires AllIn(s, drop)
    ensures Trim(s, drop) == ""
  {
    TrimStartShape(s, drop);
  }

  /** The characters for which Python's `str.isspace()` holds, the ones
      `str.strip()` with no argument removes. */
  predicate IsSpace(c: char)
  {
    c == ' ' || ('\t' <= c <= '\r') || ('\U{1C}' <= c <= '\U{1F}') ||
    c == '\U{85}' || c == '\U{A0}' || c == '\U{1680}' || ('\U{2000}' <= c <= '\U{200A}') ||
    c == '\U{2028}' || c == '\U{2029}' || c == '\U{202F}' || c == '\U{205F}' || c == '\U{3000}'
  }

  /** Python's `s.strip()`. */
  function Strip(s: string): (r: string)
    ensures |r| <= |s|
    ensures r == [] || (!IsSpace(r[0]) && !IsSpace(r[|r| - 1]))
  {
    TrimInfix(s, Whitespace);
    Trim(s, Whitespace)
  }

  /** `os.path.basename` on a POSIX path: the longest suffix of `p` that
      holds no `/`. */
  function Basename(p: string): string
  {
    if p == [] || p[|p| - 1] == '/' then "" else Basename(p[..|p| - 1]) + [p[|p| - 1]]
  }

  /** The base name is the suffix of `p` after its last `/`: it holds no
      `/`, and when it is shorter than `p` a `/` comes just before it. */
  lemma {:induction false} BasenameShape(p: string)
    ensures var r := Basename(p);
      '/' !in r && |r| <= |p| && r == p[|p| - |r|..] &&
      (|r| < |p| ==> p[|p| - |r| - 1] == '/')
  {
    BasenameNoSlash(p);
    BasenameSuffix(p);
  }

  lemma {:induction false} BasenameNoSlash(p: string)
    ensures '/' !in Basename(p)
  {
    if p != [] && p[|p| - 1] != '/' {
      BasenameNoSlash(p[..|p| - 1]);
    }
  }

  lemma {:induction false} BasenameSuffix(p: string)
    ensures var r := Basename(p);
      |r| <= |p| && r == p[|p| - |r|..] && (|r| < |p| ==> p[|p| - |r| - 1] == '/')
  {
    if p != [] && p[|p| - 1] != '/' {
      var q := p[..|p| - 1];
      BasenameSuffix(q);
      var r := Basename(q);
      SuffixSnoc(q, p[|p| - 1], |r|);
      if |r| < |q| {
        assert p[|q| - |r| - 1] == q[|q| - |r| - 1];
      }
    }
  }

  lemma SuffixSnoc(q: string, x: char, n: nat)
    requires n <= |q|
    ensures (q + [x])[|q| - n..] == q[|q| - n..] + [x]
  {
  }



}
