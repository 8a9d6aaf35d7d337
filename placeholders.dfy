/**
  Placeholder tokens `${name}` and a segment view of text in which every `$` opens such a
  token. On that view, replacing the token of one name is substituting for one kind of hole.
 */
module Placeholders {
  import opened Wrappers
  import opened Text

  /** The characters a variable name may use, so that the name read inside a regular
      expression matches itself literally. */
  predicate IsNameChar(c: char) {
    ('A' <= c <= 'Z') || ('a' <= c <= 'z') || ('0' <= c <= '9') || c == '_'
  }

  predicate IsName(k: string) {
    forall i :: 0 <= i < |k| ==> IsNameChar(k[i])
  }

  /** The placeholder for variable `name`. */
  function Token(name: string): string {
    "${" + name + "}"
  }

  /** Everything after the `$` of a token is free of `$`. */
  lemma {:induction false} TokenTailAvoidsDollar(name: string)
    requires IsName(name)
    ensures Token(name)[0] == '$' && Avoids(Token(name)[1..], '$')
  {
    assert Token(name)[1..] == "{" + name + "}";
  }

  /** Within a token, name characters are exactly those of the name. */
  lemma {:induction false} TokenCharAt(a: string, i: nat)
    requires IsName(a) && i <= |a|
    ensures IsNameChar(Token(a)[i + 2]) <==> i < |a|
  {
    if i < |a| {
      assert Token(a)[i + 2] == a[i];
    }
  }

  /** A text starts with at most one token: the name ends at the first `}`. */
  lemma {:induction false} TokenPrefixUnique(a: string, b: string, y: string)
    requires IsName(a) && IsName(b)
    requires Token(a) <= Token(b) + y
    ensures a == b
  {
    var s := Token(b) + y;
    var p := if |a| < |b| then |a| else |b|;
    assert Token(a)[p + 2] == s[p + 2] == Token(b)[p + 2];
    TokenCharAt(a, p);
    TokenCharAt(b, p);
    assert a == Token(a)[2..|a| + 2] == s[2..|b| + 2] == b;
  }

  /** A piece of template text: literal characters without `$`, or a placeholder. */
  datatype Segment = Lit(text: string) | Hole(name: string)

  predicate ValidSegment(g: Segment) {
    match g
    case Lit(x) => Avoids(x, '$')
    case Hole(n) => IsName(n)
  }

  predicate ValidSegments(gs: seq<Segment>) {
    forall i :: 0 <= i < |gs| ==> ValidSegment(gs[i])
  }

  function SegmentText(g: Segment): string {
    match g
    case Lit(x) => x
    case Hole(n) => Token(n)
  }

  /** The text a sequence of segments stands for. */
  function Flatten(gs: seq<Segment>): string {
    if gs == [] then [] else SegmentText(gs[0]) + Flatten(gs[1..])
  }

  lemma {:induction false} FlattenAppend(a: seq<Segment>, b: seq<Segment>)
    ensures Flatten(a + b) == Flatten(a) + Flatten(b)
  {
    if a != [] {
      assert (a + b)[1..] == a[1..] + b;
      FlattenAppend(a[1..], b);
    } else {
      assert a + b == b;
    }
  }

  lemma {:induction false} FlattenCons(g: Segment, gs: seq<Segment>)
    ensures Flatten([g] + gs) == SegmentText(g) + Flatten(gs)
  {
    assert ([g] + gs)[1..] == gs;
  }

  lemma {:induction false} ValidCons(g: Segment, gs: seq<Segment>)
    requires ValidSegment(g) && ValidSegments(gs)
    ensures ValidSegments([g] + gs)
  {
  }

  /** The length of the longest prefix of `s` made of name characters. */
  function NameLength(s: string): (n: nat)
    ensures n <= |s| && IsName(s[..n])
    ensures n == |s| || !IsNameChar(s[n])
  {
    if s != [] && IsNameChar(s[0]) then 1 + NameLength(s[1..]) else 0
  }

  lemma {:induction false} NameLengthOfToken(n: string, z: string)
    requires IsName(n)
    ensures NameLength(n + "}" + z) == |n|
  {
    if n != [] {
      assert (n + "}" + z)[1..] == n[1..] + "}" + z;
      NameLengthOfToken(n[1..], z);
    } else {
      assert (n + "}" + z)[0] == '}';
    }
  }

  /** `s` starts with a complete placeholder `${name}`. */
  predicate OpensPlaceholder(s: string) {
    |s| >= 2 && s[0] == '$' && s[1] == '{' && 2 + NameLength(s[2..]) < |s| && s[2 + NameLength(s[2..])] == '}'
  }

  /**
    Splits `s` into literal characters and placeholders; `None` when some `$` in `s` does
    not open a complete placeholder `${name}`.
   */
  function Parse(s: string): (r: Option<seq<Segment>>)
    ensures r.Some? ==> ValidSegments(r.value) && Flatten(r.value) == s
    decreases |s|
  {
    if s == [] then Some([])
    else if s[0] != '$' then
      match Parse(s[1..])
      case None => None
      case Some(gs) => LitStep(s, gs); Some([Lit([s[0]])] + gs)
    else if OpensPlaceholder(s) then
      match Parse(s[NameLength(s[2..]) + 3..])
      case None => None
      case Some(gs) => HoleStep(s, gs); Some([Hole(s[2..NameLength(s[2..]) + 2])] + gs)
    else None
  }

  lemma {:induction false} LitStep(s: string, gs: seq<Segment>)
    requires s != [] && s[0] != '$'
    requires ValidSegments(gs) && Flatten(gs) == s[1..]
    ensures ValidSegments([Lit([s[0]])] + gs) && Flatten([Lit([s[0]])] + gs) == s
  {
    FlattenCons(Lit([s[0]]), gs);
    ValidCons(Lit([s[0]]), gs);
    assert [s[0]] + s[1..] == s;
  }

  lemma {:induction false} HoleStep(s: string, gs: seq<Segment>)
    requires OpensPlaceholder(s)
    requires ValidSegments(gs) && Flatten(gs) == s[NameLength(s[2..]) + 3..]
    ensures var g := Hole(s[2..NameLength(s[2..]) + 2]);
            ValidSegments([g] + gs) && Flatten([g] + gs) == s
  {
    var n := NameLength(s[2..]);
    var name := s[2..n + 2];
    assert Token(name) == s[..n + 3];
    assert name == s[2..][..n];
    FlattenCons(Hole(name), gs);
    ValidCons(Hole(name), gs);
    assert s[..n + 3] + s[n + 3..] == s;
  }

  /** Every `$` in `s` opens a complete placeholder. */
  predicate Placeholdered(s: string) {
    Parse(s).Some?
  }

  /** The same condition, stated position by position. */
  predicate DollarsOpenPlaceholders(s: string) {
    forall i :: 0 <= i < |s| && s[i] == '$' ==> OpensPlaceholder(s[i..])
  }

  /** Text without `$`, such as a plain variable value, is placeholdered. */
  lemma {:induction false} DollarFreePlaceholdered(s: string)
    requires Avoids(s, '$')
    ensures Placeholdered(s)
  {
    PlaceholderedIff(s);
  }

  /** `Parse` succeeds exactly when every `$` opens a placeholder. */
  lemma {:induction false} PlaceholderedIff(s: string)
    ensures Placeholdered(s) <==> DollarsOpenPlaceholders(s)
    decreases |s|
  {
    if s == [] {
    } else if s[0] != '$' {
      PlaceholderedIff(s[1..]);
      ShiftDollars(s, 1);
    } else if OpensPlaceholder(s) {
      var n := NameLength(s[2..]);
      PlaceholderedIff(s[n + 3..]);
      OpenerAvoidsDollar(s);
      ShiftDollars(s, n + 3);
    }
  }

  /** Inside a complete placeholder only its first character is `$`. */
  lemma {:induction false} OpenerAvoidsDollar(s: string)
    requires OpensPlaceholder(s)
    ensures Avoids(s[1..NameLength(s[2..]) + 3], '$')
  {
    var n := NameLength(s[2..]);
    forall i | 1 <= i < n + 3 ensures s[i] != '$' {
      if 2 <= i < n + 2 {
        assert s[i] == s[2..][..n][i - 2];
      }
    }
  }

  /** Dropping a `$`-free prefix keeps the condition in both directions. */
  lemma {:induction false} ShiftDollars(s: string, m: nat)
    requires 0 < m <= |s| && Avoids(s[1..m], '$')
    ensures DollarsOpenPlaceholders(s) <==> (OpensPlaceholder(s) || s[0] != '$') && DollarsOpenPlaceholders(s[m..])
  {
    forall i | 0 < i < m ensures s[i] != '$' {
      assert s[1..m][i - 1] == s[i];
    }
    if DollarsOpenPlaceholders(s[m..]) && (OpensPlaceholder(s) || s[0] != '$') {
      forall i | m <= i < |s| && s[i] == '$' ensures OpensPlaceholder(s[i..]) {
        assert s[m..][i - m..] == s[i..];
      }
      assert s[0..] == s;
    }
    if DollarsOpenPlaceholders(s) {
      forall i | 0 <= i < |s[m..]| && s[m..][i] == '$' ensures OpensPlaceholder(s[m..][i..]) {
        assert s[m..][i..] == s[m + i..];
      }
    }
  }

  /** A `$`-free prefix does not affect whether a text is placeholdered. */
  lemma {:induction false} PlaceholderedSkip(x: string, y: string)
    requires Avoids(x, '$')
    ensures Placeholdered(x + y) <==> Placeholdered(y)
    decreases |x|
  {
    if x == [] {
      assert x + y == y;
    } else {
      assert (x + y)[0] == x[0] != '$';
      assert (x + y)[1..] == x[1..] + y;
      PlaceholderedSkip(x[1..], y);
    }
  }

  /** Every well-formed segment sequence stands for a placeholdered text. */
  lemma {:induction false} FlattenPlaceholdered(gs: seq<Segment>)
    requires ValidSegments(gs)
    ensures Placeholdered(Flatten(gs))
  {
    if gs != [] {
      var y := Flatten(gs[1..]);
      FlattenPlaceholdered(gs[1..]);
      match gs[0]
      case Lit(x) =>
        PlaceholderedSkip(x, y);
      case Hole(n) =>
        var s := Token(n) + y;
        assert s[2..] == n + "}" + y;
        NameLengthOfToken(n, y);
        assert s[|n| + 3..] == y;
    }
  }

  /** `Hole(name)` occurs among the segments. */
  predicate HasHole(gs: seq<Segment>, name: string) {
    Hole(name) in gs
  }

  /** Scanning a text that starts with `${n}` for `${j}`. */
  lemma {:induction false} ContainsAtToken(n: string, j: string, y: string)
    requires IsName(n) && IsName(j)
    ensures Contains(Token(n) + y, Token(j)) <==> n == j || Contains(y, Token(j))
  {
    var s := Token(n) + y;
    TokenTailAvoidsDollar(n);
    TokenTailAvoidsDollar(j);
    assert s[1..] == Token(n)[1..] + y;
    ContainsSkip(Token(n)[1..], y, Token(j));
    if Token(j) <= s {
      TokenPrefixUnique(j, n, y);
    }
  }

  /** Counting the matches of `${j}` in a text that starts with `${n}`. */
  lemma {:induction false} MatchCountAtToken(n: string, j: string, y: string)
    requires IsName(n) && IsName(j)
    ensures MatchCount(Token(n) + y, Token(j)) == (if n == j then 1 else 0) + MatchCount(y, Token(j))
  {
    var s := Token(n) + y;
    TokenTailAvoidsDollar(n);
    TokenTailAvoidsDollar(j);
    if n == j {
      assert Token(j) <= s && s[|Token(j)|..] == y;
    } else {
      if Token(j) <= s {
        TokenPrefixUnique(j, n, y);
      }
      assert s[1..] == Token(n)[1..] + y;
      MatchCountSkip(Token(n)[1..], y, Token(j));
    }
  }

  /** Replacing `${k}` in a text that starts with `${n}`. */
  lemma {:induction false} ReplaceAllAtToken(n: string, k: string, y: string, rep: string)
    requires IsName(n) && IsName(k)
    ensures ReplaceAll(Token(n) + y, Token(k), rep)
            == (if n == k then rep else Token(n)) + ReplaceAll(y, Token(k), rep)
  {
    var s := Token(n) + y;
    TokenTailAvoidsDollar(n);
    TokenTailAvoidsDollar(k);
    if n == k {
      assert Token(k) <= s && s[|Token(k)|..] == y;
    } else {
      if Token(k) <= s {
        TokenPrefixUnique(k, n, y);
      }
      assert s[1..] == Token(n)[1..] + y;
      ReplaceAllSkip(Token(n)[1..], y, Token(k), rep);
      assert Token(n) == [s[0]] + Token(n)[1..];
    }
  }

  /** A placeholder occurs in the text exactly when the matching hole occurs among its segments. */
  lemma {:induction false} ContainsTokenIff(gs: seq<Segment>, j: string)
    requires ValidSegments(gs) && IsName(j)
    ensures Contains(Flatten(gs), Token(j)) <==> HasHole(gs, j)
  {
    if gs == [] {
      assert !(Token(j) <= []);
    } else {
      var y := Flatten(gs[1..]);
      ContainsTokenIff(gs[1..], j);
      assert gs == [gs[0]] + gs[1..];
      match gs[0]
      case Lit(x) =>
        ContainsSkip(x, y, Token(j));
      case Hole(n) =>
        ContainsAtToken(n, j, y);
    }
  }

  /** The number of replacements `ReplaceAll` makes is the number of matching holes. */
  lemma {:induction false} MatchCountIsHoleCount(gs: seq<Segment>, j: string)
    requires ValidSegments(gs) && IsName(j)
    ensures MatchCount(Flatten(gs), Token(j)) == multiset(gs)[Hole(j)]
  {
    if gs != [] {
      MatchCountIsHoleCount(gs[1..], j);
      MatchCountStep(gs, j);
      HoleCountStep(gs, j);
    }
  }

  lemma {:induction false} MatchCountStep(gs: seq<Segment>, j: string)
    requires gs != [] && ValidSegment(gs[0]) && IsName(j)
    ensures MatchCount(Flatten(gs), Token(j))
            == (if gs[0] == Hole(j) then 1 else 0) + MatchCount(Flatten(gs[1..]), Token(j))
  {
    var y := Flatten(gs[1..]);
    assert Flatten(gs) == SegmentText(gs[0]) + y;
    match gs[0]
    case Lit(x) =>
      TokenTailAvoidsDollar(j);
      MatchCountSkip(x, y, Token(j));
    case Hole(n) =>
      MatchCountAtToken(n, j, y);
  }

  lemma {:induction false} HoleCountStep(gs: seq<Segment>, j: string)
    requires gs != []
    ensures multiset(gs)[Hole(j)] == (if gs[0] == Hole(j) then 1 else 0) + multiset(gs[1..])[Hole(j)]
  {
    assert gs == [gs[0]] + gs[1..];
    assert multiset(gs) == multiset{gs[0]} + multiset(gs[1..]);
  }

  /** A prefix without the pattern's first character holds no match. */
  lemma {:induction false} MatchCountSkip(x: string, y: string, pat: string)
    requires pat != [] && Avoids(x, pat[0])
    ensures MatchCount(x + y, pat) == MatchCount(y, pat)
    decreases |x|
  {
    if x == [] {
      assert x + y == y;
    } else {
      assert (x + y)[0] == x[0] != pat[0];
      assert (x + y)[1..] == x[1..] + y;
      MatchCountSkip(x[1..], y, pat);
    }
  }

  /** Replaces every hole named `k` by the segments `vs`. */
  function Subst(gs: seq<Segment>, k: string, vs: seq<Segment>): seq<Segment> {
    if gs == [] then []
    else (if gs[0] == Hole(k) then vs else [gs[0]]) + Subst(gs[1..], k, vs)
  }

  /** Substituting well-formed segments keeps the sequence well-formed. */
  lemma {:induction false} SubstValid(gs: seq<Segment>, k: string, vs: seq<Segment>)
    requires ValidSegments(gs) && ValidSegments(vs)
    ensures ValidSegments(Subst(gs, k, vs))
  {
    if gs != [] {
      SubstValid(gs[1..], k, vs);
    }
  }

  /** The holes left after a substitution: the others, and those the inserted segments bring. */
  lemma {:induction false} SubstHoles(gs: seq<Segment>, k: string, vs: seq<Segment>, j: string)
    ensures HasHole(Subst(gs, k, vs), j) <==>
              (HasHole(gs, j) && j != k) || (HasHole(gs, k) && HasHole(vs, j))
  {
    if gs != [] {
      SubstHoles(gs[1..], k, vs, j);
      assert gs == [gs[0]] + gs[1..];
    }
  }

  /**
    On placeholdered text, replacing every `${k}` by a text is substituting that text's
    segments for every hole named `k`.
   */
  lemma {:induction false} ReplaceAllIsSubst(gs: seq<Segment>, k: string, vs: seq<Segment>)
    requires ValidSegments(gs) && IsName(k)
    ensures ReplaceAll(Flatten(gs), Token(k), Flatten(vs)) == Flatten(Subst(gs, k, vs))
  {
    if gs != [] {
      var y := Flatten(gs[1..]);
      var rest := Subst(gs[1..], k, vs);
      ReplaceAllIsSubst(gs[1..], k, vs);
      match gs[0]
      case Lit(x) =>
        TokenTailAvoidsDollar(k);
        ReplaceAllSkip(x, y, Token(k), Flatten(vs));
        FlattenAppend([Lit(x)], rest);
      case Hole(n) =>
        ReplaceAllAtToken(n, k, y, Flatten(vs));
        if n == k {
          FlattenAppend(vs, rest);
        } else {
          FlattenAppend([Hole(n)], rest);
        }
    }
  }

  /**
    A placeholder for another name survives a replacement pass, whatever the text and the
    inserted value: the pass can only rewrite text that starts a match of its own token.
   */
  lemma {:induction false} ReplaceAllKeepsToken(s: string, k: string, j: string, v: string)
    requires IsName(k) && IsName(j) && k != j
    requires Contains(s, Token(j))
    ensures Contains(ReplaceAll(s, Token(k), v), Token(j))
    decreases |s|
  {
    TokenTailAvoidsDollar(k);
    TokenTailAvoidsDollar(j);
    var T := Token(j);
    if Token(k) <= s {
      var s' := s[|Token(k)|..];
      if T <= s {
        assert s == Token(k) + s';
        TokenPrefixUnique(j, k, s');
      }
      assert s[1..] == Token(k)[1..] + s';
      ContainsSkip(Token(k)[1..], s', T);
      ReplaceAllKeepsToken(s', k, j, v);
      ContainsInSuffix(v, ReplaceAll(s', Token(k), v), T);
    } else if T <= s {
      var rest := s[|T|..];
      assert s[1..] == T[1..] + rest;
      ReplaceAllSkip(T[1..], rest, Token(k), v);
      assert ReplaceAll(s, Token(k), v) == T + ReplaceAll(rest, Token(k), v);
    } else {
      ReplaceAllKeepsToken(s[1..], k, j, v);
      ContainsInSuffix([s[0]], ReplaceAll(s[1..], Token(k), v), T);
    }
  }

  /** A pass that finds a `${k}` puts its value into the text. */
  lemma {:induction false} ReplaceAllInserts(s: string, k: string, v: string)
    requires Contains(s, Token(k))
    ensures Contains(ReplaceAll(s, Token(k), v), v)
    decreases |s|
  {
    if Token(k) <= s {
      ContainsInPrefix(v, ReplaceAll(s[|Token(k)|..], Token(k), v), v);
      assert v <= v;
    } else {
      ReplaceAllInserts(s[1..], k, v);
      ContainsInSuffix([s[0]], ReplaceAll(s[1..], Token(k), v), v);
    }
  }

  /** The segments of a placeholdered text. */
  function SegmentsOf(s: string): (gs: seq<Segment>)
    requires Placeholdered(s)
    ensures ValidSegments(gs) && Flatten(gs) == s
  {
    Parse(s).value
  }

  /** Replacing placeholders by placeholdered text keeps the text placeholdered. */
  lemma {:induction false} ReplaceAllPlaceholdered(t: string, k: string, v: string)
    requires Placeholdered(t) && Placeholdered(v) && IsName(k)
    ensures Placeholdered(ReplaceAll(t, Token(k), v))
  {
    var gs, vs := SegmentsOf(t), SegmentsOf(v);
    ReplaceAllIsSubst(gs, k, vs);
    SubstValid(gs, k, vs);
    FlattenPlaceholdered(Subst(gs, k, vs));
  }

  /**
    On placeholdered text, a pass leaves `${j}` exactly where the text had it (for another
    name) or where the inserted value brings it.
   */
  lemma {:induction false} ReplaceAllTokens(t: string, k: string, v: string, j: string)
    requires Placeholdered(t) && Placeholdered(v) && IsName(k) && IsName(j)
    ensures Contains(ReplaceAll(t, Token(k), v), Token(j)) <==>
              (Contains(t, Token(j)) && j != k) || (Contains(t, Token(k)) && Contains(v, Token(j)))
  {
    var gs, vs := SegmentsOf(t), SegmentsOf(v);
    ReplaceAllIsSubst(gs, k, vs);
    SubstValid(gs, k, vs);
    SubstHoles(gs, k, vs, j);
    ContainsTokenIff(Subst(gs, k, vs), j);
    ContainsTokenIff(gs, j);
    ContainsTokenIff(gs, k);
    ContainsTokenIff(vs, j);
  }

  /** Substitution works segment by segment, so it distributes over concatenation. */
  lemma {:induction false} SubstAppend(a: seq<Segment>, b: seq<Segment>, k: string, vs: seq<Segment>)
    ensures Subst(a + b, k, vs) == Subst(a, k, vs) + Subst(b, k, vs)
    decreases |a|
  {
    if a == [] {
      assert a + b == b;
    } else {
      assert (a + b)[0] == a[0];
      assert (a + b)[1..] == a[1..] + b;
      SubstAppend(a[1..], b, k, vs);
    }
  }

  /** Segments without a hole named `k` are left alone by substituting for `k`. */
  lemma {:induction false} SubstWithoutHole(gs: seq<Segment>, k: string, vs: seq<Segment>)
    requires !HasHole(gs, k)
    ensures Subst(gs, k, vs) == gs
    decreases |gs|
  {
    if gs != [] {
      assert gs == [gs[0]] + gs[1..];
      SubstWithoutHole(gs[1..], k, vs);
    }
  }

  /** Segments put in for a hole survive a later substitution for a name they do not hold. */
  lemma {:induction false} SubstKeepsInserted(gs: seq<Segment>, k: string, vs: seq<Segment>, j: string, us: seq<Segment>)
    requires HasHole(gs, k) && !HasHole(vs, j)
    ensures Contains(Flatten(Subst(Subst(gs, k, vs), j, us)), Flatten(vs))
  {
    var i :| 0 <= i < |gs| && gs[i] == Hole(k);
    var a, b := gs[..i], gs[i + 1..];
    assert gs == a + ([Hole(k)] + b);
    SubstAppend(a, [Hole(k)] + b, k, vs);
    SubstAppend([Hole(k)], b, k, vs);
    assert Subst([Hole(k)], k, vs) == vs;
    var a1, b1 := Subst(a, k, vs), Subst(b, k, vs);
    assert Subst(gs, k, vs) == a1 + (vs + b1);
    SubstAppend(a1, vs + b1, j, us);
    SubstAppend(vs, b1, j, us);
    SubstWithoutHole(vs, j, us);
    var a2, b2 := Subst(a1, j, us), Subst(b1, j, us);
    FlattenAppend(a2, vs + b2);
    FlattenAppend(vs, b2);
    assert Flatten(vs) <= Flatten(vs) + Flatten(b2);
    ContainsInSuffix(Flatten(a2), Flatten(vs) + Flatten(b2), Flatten(vs));
  }

  /**
    A value inserted by a pass for `${k}` survives a later pass for `${j}` when it holds no
    `${j}` itself: on placeholdered text the later pass rewrites only whole holes, and the
    inserted value sits between them.
   */
  lemma {:induction false} ReplaceAllKeepsInserted(t: string, k: string, v: string, j: string, u: string)
    requires Placeholdered(t) && Placeholdered(v) && IsName(k) && IsName(j)
    requires Contains(t, Token(k)) && !Contains(v, Token(j))
    ensures Contains(ReplaceAll(ReplaceAll(t, Token(k), v), Token(j), u), v)
  {
    var gs, vs, us := SegmentsOf(t), SegmentsOf(v), [Lit(u)];
    assert Flatten(us) == u;
    ContainsTokenIff(gs, k);
    ContainsTokenIff(vs, j);
    ReplaceAllIsSubst(gs, k, vs);
    SubstValid(gs, k, vs);
    ReplaceAllIsSubst(Subst(gs, k, vs), j, us);
    SubstKeepsInserted(gs, k, vs, j, us);
  }
}
