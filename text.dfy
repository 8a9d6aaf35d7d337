/**
  Literal substring search, global left-to-right replacement and whitespace trimming
  over `string` (a `seq<char>`): the string operations the prompt renderer is built from.
 */
module Text {

  /** `t` occurs in `s` at some position. */
  predicate Contains(s: string, t: string)
    decreases |s|
  {
    t <= s || (s != [] && Contains(s[1..], t))
  }

  /**
    Replaces every occurrence of `pat` in `s` by `rep`, scanning left to right: a match
    is consumed whole, the scan resumes right after it, and the inserted `rep` is never
    scanned again. This is `s.replace(/pat/g, rep)` for a pattern that matches `pat`
    literally and a replacement that is inserted verbatim.
   */
  function ReplaceAll(s: string, pat: string, rep: string): string
    requires pat != []
    decreases |s|
  {
    if s == [] then []
    else if pat <= s then rep + ReplaceAll(s[|pat|..], pat, rep)
    else [s[0]] + ReplaceAll(s[1..], pat, rep)
  }

  /** The number of matches `ReplaceAll` replaces: the non-overlapping, leftmost-first occurrences. */
  function MatchCount(s: string, pat: string): nat
    requires pat != []
    decreases |s|
  {
    if s == [] then 0
    else if pat <= s then 1 + MatchCount(s[|pat|..], pat)
    else MatchCount(s[1..], pat)
  }

  /** Each match turns `|pat|` characters into `|rep|` characters. */
  lemma {:induction false} ReplaceAllLength(s: string, pat: string, rep: string)
    requires pat != []
    ensures |ReplaceAll(s, pat, rep)| == |s| + MatchCount(s, pat) * (|rep| - |pat|)
    decreases |s|
  {
    if s == [] {
    } else if pat <= s {
      ReplaceAllLength(s[|pat|..], pat, rep);
      var c := MatchCount(s[|pat|..], pat);
      assert (c + 1) * (|rep| - |pat|) == c * (|rep| - |pat|) + (|rep| - |pat|);
    } else {
      ReplaceAllLength(s[1..], pat, rep);
    }
  }

  /** There is something to replace exactly when the pattern occurs. */
  lemma {:induction false} MatchCountPositive(s: string, pat: string)
    requires pat != []
    ensures MatchCount(s, pat) > 0 <==> Contains(s, pat)
    decreases |s|
  {
    if s != [] && !(pat <= s) {
      MatchCountPositive(s[1..], pat);
    }
  }

  /** Text without an occurrence of the pattern is returned unchanged. */
  lemma {:induction false} ReplaceAllNoMatch(s: string, pat: string, rep: string)
    requires pat != []
    requires !Contains(s, pat)
    ensures ReplaceAll(s, pat, rep) == s
    decreases |s|
  {
    if s != [] {
      ReplaceAllNoMatch(s[1..], pat, rep);
    }
  }

  /** Replacing a pattern by itself changes nothing: inserted text is not rescanned. */
  lemma {:induction false} ReplaceAllBySelf(s: string, pat: string)
    requires pat != []
    ensures ReplaceAll(s, pat, pat) == s
    decreases |s|
  {
    if s == [] {
    } else if pat <= s {
      ReplaceAllBySelf(s[|pat|..], pat);
      assert s == pat + s[|pat|..];
    } else {
      ReplaceAllBySelf(s[1..], pat);
      assert s == [s[0]] + s[1..];
    }
  }

  /** `c` does not occur in `x`. */
  predicate Avoids(x: string, c: char) {
    forall i :: 0 <= i < |x| ==> x[i] != c
  }

  /** No match can start inside a prefix that lacks the pattern's first character. */
  lemma {:induction false} ReplaceAllSkip(x: string, y: string, pat: string, rep: string)
    requires pat != [] && Avoids(x, pat[0])
    ensures ReplaceAll(x + y, pat, rep) == x + ReplaceAll(y, pat, rep)
    decreases |x|
  {
    if x == [] {
      assert x + y == y;
    } else {
      assert (x + y)[0] == x[0] != pat[0];
      assert (x + y)[1..] == x[1..] + y;
      ReplaceAllSkip(x[1..], y, pat, rep);
      assert x == [x[0]] + x[1..];
    }
  }

  /** An occurrence cannot start inside a prefix that lacks the first character sought. */
  lemma {:induction false} ContainsSkip(x: string, y: string, t: string)
    requires t != [] && Avoids(x, t[0])
    ensures Contains(x + y, t) <==> Contains(y, t)
    decreases |x|
  {
    if x == [] {
      assert x + y == y;
    } else {
      assert (x + y)[0] == x[0] != t[0];
      assert (x + y)[1..] == x[1..] + y;
      ContainsSkip(x[1..], y, t);
    }
  }

  /** An occurrence in `y` is an occurrence in `x + y`. */
  lemma {:induction false} ContainsInSuffix(x: string, y: string, t: string)
    requires Contains(y, t)
    ensures Contains(x + y, t)
    decreases |x|
  {
    if x == [] {
      assert x + y == y;
    } else {
      assert (x + y)[1..] == x[1..] + y;
      ContainsInSuffix(x[1..], y, t);
    }
  }

  /** An occurrence in `x` is an occurrence in `x + y`. */
  lemma {:induction false} ContainsInPrefix(x: string, y: string, t: string)
    requires Contains(x, t)
    ensures Contains(x + y, t)
    decreases |x|
  {
    if t <= x {
      assert t <= x + y;
    } else {
      assert (x + y)[1..] == x[1..] + y;
      ContainsInPrefix(x[1..], y, t);
    }
  }

  /** An occurrence whose last character is absent from `y` lies within `x`. */
  lemma {:induction false} ContainsDropSuffix(x: string, y: string, t: string)
    requires t != [] && Avoids(y, t[|t| - 1])
    ensures Contains(x + y, t) <==> Contains(x, t)
    decreases |x|
  {
    if Contains(x, t) {
      ContainsInPrefix(x, y, t);
    } else if x == [] {
      assert x + y == y;
      NotContainedWithoutLast(y, t);
    } else {
      if |t| <= |x| {
        assert (x + y)[..|t|] == x[..|t|];
      } else if |t| <= |x| + |y| {
        assert (x + y)[|t| - 1] == y[|t| - 1 - |x|];
        assert y[|t| - 1 - |x|] != t[|t| - 1];
      }
      assert (x + y)[1..] == x[1..] + y;
      ContainsDropSuffix(x[1..], y, t);
    }
  }

  /** A text lacking the last character of `t` does not contain `t`. */
  lemma {:induction false} NotContainedWithoutLast(y: string, t: string)
    requires t != [] && Avoids(y, t[|t| - 1])
    ensures !Contains(y, t)
    decreases |y|
  {
    if |t| <= |y| {
      assert y[|t| - 1] != t[|t| - 1];
    }
    if y != [] {
      NotContainedWithoutLast(y[1..], t);
    }
  }

  /**
    The characters `String.prototype.trim` removes: the white space and line terminators
    of ECMA-262 (tab, vertical tab, form feed, space, no-break space, the byte order mark,
    the Unicode space separators, line feed, carriage return, line and paragraph separator).
   */
  predicate IsWhitespace(c: char) {
    ('\t' <= c <= '\r') || c == ' ' || c == '\U{00A0}' || c == '\U{1680}'
    || ('\U{2000}' <= c <= '\U{200A}') || ('\U{2028}' <= c <= '\U{2029}')
    || c == '\U{202F}' || c == '\U{205F}' || c == '\U{3000}' || c == '\U{FEFF}'
  }

  predicate AllWhitespace(s: string) {
    forall i :: 0 <= i < |s| ==> IsWhitespace(s[i])
  }

  /** Neither the first nor the last character is whitespace. */
  predicate IsTrimmed(s: string) {
    s == [] || (!IsWhitespace(s[0]) && !IsWhitespace(s[|s| - 1]))
  }

  /** Drops the leading whitespace. */
  function TrimStart(s: string): (r: string)
    ensures r == [] || !IsWhitespace(r[0])
    decreases |s|
  {
    if s != [] && IsWhitespace(s[0]) then TrimStart(s[1..]) else s
  }

  /** Drops the trailing whitespace. */
  function TrimEnd(s: string): (r: string)
    ensures r == [] || !IsWhitespace(r[|r| - 1])
    decreases |s|
  {
    if s != [] && IsWhitespace(s[|s| - 1]) then TrimEnd(s[..|s| - 1]) else s
  }

  /** `String.prototype.trim`: removes leading and trailing whitespace. */
  function Trim(s: string): (r: string)
    ensures IsTrimmed(r)
  {
    TrimEndKeepsStart(TrimStart(s));
    TrimEnd(TrimStart(s))
  }

  /** What `TrimStart` drops is whitespace, and it drops nothing else. */
  lemma {:induction false} TrimStartParts(s: string) returns (w: string)
    ensures s == w + TrimStart(s) && AllWhitespace(w)
    decreases |s|
  {
    if s != [] && IsWhitespace(s[0]) {
      var w' := TrimStartParts(s[1..]);
      w := [s[0]] + w';
      assert s == [s[0]] + s[1..];
    } else {
      w := [];
    }
  }

  /** What `TrimEnd` drops is whitespace, and it drops nothing else. */
  lemma {:induction false} TrimEndParts(s: string) returns (e: string)
    ensures s == TrimEnd(s) + e && AllWhitespace(e)
    decreases |s|
  {
    if s != [] && IsWhitespace(s[|s| - 1]) {
      var e' := TrimEndParts(s[..|s| - 1]);
      e := e' + [s[|s| - 1]];
      assert s == s[..|s| - 1] + [s[|s| - 1]];
    } else {
      e := [];
    }
  }

  /** Trimming the end of a text that does not start with whitespace keeps that start. */
  lemma {:induction false} TrimEndKeepsStart(s: string)
    requires s == [] || !IsWhitespace(s[0])
    ensures TrimEnd(s) == [] || TrimEnd(s)[0] == s[0]
    decreases |s|
  {
    if s != [] && IsWhitespace(s[|s| - 1]) {
      TrimEndKeepsStart(s[..|s| - 1]);
    }
  }

  /** Trimming is idempotent. */
  lemma {:induction false} TrimIdempotent(s: string)
    ensures Trim(Trim(s)) == Trim(s)
  {
    TrimmedFixed(Trim(s));
  }

  /** A text that neither starts nor ends with whitespace is its own trim. */
  lemma {:induction false} TrimmedFixed(s: string)
    requires IsTrimmed(s)
    ensures Trim(s) == s
  {
    assert TrimStart(s) == s;
  }

  lemma {:induction false} WhitespaceAvoids(x: string, c: char)
    requires AllWhitespace(x) && !IsWhitespace(c)
    ensures Avoids(x, c)
  {
  }

  /**
    Trimming neither creates nor destroys an occurrence of a text that starts and ends
    with non-whitespace characters.
   */
  lemma {:induction false} ContainsAfterTrim(s: string, t: string)
    requires t != [] && !IsWhitespace(t[0]) && !IsWhitespace(t[|t| - 1])
    ensures Contains(Trim(s), t) <==> Contains(s, t)
  {
    var w, e := TrimParts(s);
    var m := Trim(s);
    assert s == w + (m + e);
    WhitespaceAvoids(w, t[0]);
    WhitespaceAvoids(e, t[|t| - 1]);
    ContainsSkip(w, m + e, t);
    ContainsDropSuffix(m, e, t);
  }

  /** The whitespace `Trim` removes on either side. */
  lemma {:induction false} TrimParts(s: string) returns (w: string, e: string)
    ensures s == w + Trim(s) + e
    ensures AllWhitespace(w) && AllWhitespace(e)
  {
    w := TrimStartParts(s);
    e := TrimEndParts(TrimStart(s));
  }

  /** Leading whitespace before a non-whitespace character is exactly what `TrimStart` drops. */
  lemma {:induction false} TrimStartSkip(w: string, y: string)
    requires AllWhitespace(w) && (y == [] || !IsWhitespace(y[0]))
    ensures TrimStart(w + y) == y
    decreases |w|
  {
    if w == [] {
      assert w + y == y;
    } else {
      assert (w + y)[0] == w[0];
      assert (w + y)[1..] == w[1..] + y;
      TrimStartSkip(w[1..], y);
    }
  }

  /** `TrimEnd` stops at the last non-whitespace character, so it keeps a prefix ending in one. */
  lemma {:induction false} TrimEndKeeps(p: string, z: string)
    requires p != [] && !IsWhitespace(p[|p| - 1])
    ensures p <= TrimEnd(p + z)
    decreases |z|
  {
    if z == [] {
      assert p + z == p;
    } else {
      var s := p + z;
      assert s[|s| - 1] == z[|z| - 1];
      if IsWhitespace(z[|z| - 1]) {
        assert s[..|s| - 1] == p + z[..|z| - 1];
        TrimEndKeeps(p, z[..|z| - 1]);
      }
    }
  }

  /** Text that starts, after whitespace, with `p` still starts with `p` once trimmed. */
  lemma {:induction false} TrimKeepsLead(w: string, p: string, z: string)
    requires AllWhitespace(w)
    requires p != [] && !IsWhitespace(p[0]) && !IsWhitespace(p[|p| - 1])
    ensures p <= Trim(w + p + z)
  {
    assert w + p + z == w + (p + z);
    TrimStartSkip(w, p + z);
    TrimEndKeeps(p, z);
  }

  /** With a replacement longer than the pattern, the text is unchanged exactly when nothing matches. */
  lemma {:induction false} ReplaceAllUnchangedIff(s: string, pat: string, rep: string)
    requires pat != [] && |rep| > |pat|
    ensures ReplaceAll(s, pat, rep) == s <==> !Contains(s, pat)
  {
    if Contains(s, pat) {
      ReplaceAllGrows(s, pat, rep);
    } else {
      ReplaceAllNoMatch(s, pat, rep);
    }
  }

  /** Each match of a shorter pattern lengthens the text. */
  lemma {:induction false} ReplaceAllGrows(s: string, pat: string, rep: string)
    requires pat != [] && |rep| > |pat| && Contains(s, pat)
    ensures |ReplaceAll(s, pat, rep)| > |s|
  {
    MatchCountPositive(s, pat);
    ReplaceAllLength(s, pat, rep);
    ProductPositive(MatchCount(s, pat), |rep| - |pat|);
  }

  lemma {:induction false} ProductPositive(c: int, d: int)
    requires c > 0 && d > 0
    ensures c * d > 0
    decreases c
  {
    if c > 1 {
      ProductPositive(c - 1, d);
      assert c * d == (c - 1) * d + d;
    }
  }
}
