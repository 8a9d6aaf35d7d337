/**
  The prompt templates of the test-automation code generator and the renderer that fills
  their `${name}` placeholders (src/scripts/prompts.js).

  The template store is a parameter `prompts: map<string, string>`; `IsDefaultPrompts`
  states what the module's own store guarantees (its keys and its placeholders) without
  reproducing the template bodies.
 */
module Prompts {
  import opened Wrappers
  import opened Text
  import opened Placeholders

  // The keys of the template store.
  const SeleniumJavaPageOnly: string := "SELENIUM_JAVA_PAGE_ONLY"
  const PlaywrightTypescriptPageOnly: string := "PLAYWRIGHT_TYPESCRIPT_PAGE_ONLY"
  const CucumberOnly: string := "CUCUMBER_ONLY"
  const CucumberWithSeleniumJavaSteps: string := "CUCUMBER_WITH_SELENIUM_JAVA_STEPS"
  const TestDataOnly: string := "TEST_DATA_ONLY"

  const TemplateKeys: set<string> :=
    {SeleniumJavaPageOnly, PlaywrightTypescriptPageOnly, CucumberOnly,
     CucumberWithSeleniumJavaSteps, TestDataOnly}

  /** The external labels of the code generator types, kept beside the store. */
  const CodeGeneratorTypes: map<string, string> := map[
    SeleniumJavaPageOnly := "Selenium-Java-Page-Only",
    CucumberOnly := "Cucumber-Only",
    CucumberWithSeleniumJavaSteps := "Cucumber-With-Selenium-Java-Steps",
    PlaywrightTypescriptPageOnly := "Playwright-Typescript-Page-Only"
  ]

  // The variables the templates use.
  const DomContent: string := "domContent"
  const PageUrl: string := "pageUrl"

  /** The opening words every template starts with once its surrounding whitespace is gone. */
  const Opening: string := "Instructions:"

  /**
    What the module's store guarantees: exactly the five keys; in every template each `$`
    opens a placeholder, `${domContent}` occurs once, `${pageUrl}` occurs twice in
    CUCUMBER_WITH_SELENIUM_JAVA_STEPS and nowhere else, no other placeholder occurs, and
    the trimmed text starts with "Instructions:".
   */
  ghost predicate IsDefaultPrompts(prompts: map<string, string>) {
    prompts.Keys == TemplateKeys
    && forall key | key in prompts :: IsDefaultTemplate(key, prompts[key])
  }

  /** What the stored template under `key` guarantees. */
  ghost predicate IsDefaultTemplate(key: string, t: string) {
    Placeholdered(t)
    && MatchCount(t, Token(DomContent)) == 1
    && MatchCount(t, Token(PageUrl)) == (if key == CucumberWithSeleniumJavaSteps then 2 else 0)
    && (forall j :: IsName(j) && Contains(t, Token(j)) ==> j == DomContent || j == PageUrl)
    && Opening <= Trim(t)
  }

  /** The error `getPrompt` throws. */
  datatype PromptError = NotFound(key: string)

  const NotFoundPrefix: string := "Prompt not found: "

  /** The message of the thrown `Error`. */
  function Message(e: PromptError): string {
    NotFoundPrefix + e.key
  }

  /** The message names the key: two different keys never give the same message. */
  lemma {:induction false} MessageNamesKey(e1: PromptError, e2: PromptError)
    requires Message(e1) == Message(e2)
    ensures e1 == e2
  {
    assert e1.key == Message(e1)[|NotFoundPrefix|..];
    assert e2.key == Message(e2)[|NotFoundPrefix|..];
  }

  /** The store lookup succeeds: the key is present and its template is not the (falsy) empty string. */
  predicate HasPrompt(prompts: map<string, string>, key: string) {
    key in prompts && prompts[key] != ""
  }

  /**
    A replacement the JavaScript `replace` inserts verbatim: no `$` is followed by one of
    the characters that make `$$`, `$&`, `` $` `` or `$'` a substitution pattern. (With no
    capture groups in the pattern, `$1` and `$<` are literal as well.)
   */
  predicate LiteralReplacement(v: string) {
    forall i :: 0 <= i < |v| - 1 && v[i] == '$' ==>
      v[i + 1] != '$' && v[i + 1] != '&' && v[i + 1] != '`' && v[i + 1] != '\''
  }

  /** The variables the model renders: names of name characters, values inserted verbatim. */
  predicate WellFormedVariables(variables: seq<(string, string)>) {
    forall i :: 0 <= i < |variables| ==> IsName(variables[i].0) && LiteralReplacement(variables[i].1)
  }

  /** Every value is itself placeholdered text. */
  predicate PlaceholderedValues(variables: seq<(string, string)>) {
    forall i :: 0 <= i < |variables| ==> IsName(variables[i].0) && Placeholdered(variables[i].1)
  }

  /** A placeholdered value has every `$` followed by `{`, so `replace` inserts it verbatim. */
  lemma {:induction false} PlaceholderedIsLiteral(v: string)
    requires Placeholdered(v)
    ensures LiteralReplacement(v)
  {
    PlaceholderedIff(v);
    forall i | 0 <= i < |v| - 1 && v[i] == '$' ensures v[i + 1] == '{' {
      assert OpensPlaceholder(v[i..]);
      assert v[i..][1] == v[i + 1];
    }
  }

  lemma {:induction false} PlaceholderedValuesWellFormed(variables: seq<(string, string)>)
    requires PlaceholderedValues(variables)
    ensures WellFormedVariables(variables)
  {
    forall i | 0 <= i < |variables| ensures LiteralReplacement(variables[i].1) {
      PlaceholderedIsLiteral(variables[i].1);
    }
  }

  /** The variable entries in order, each replacing all of its placeholders in one pass. */
  function Substitute(template: string, variables: seq<(string, string)>): string
    decreases |variables|
  {
    if variables == [] then template
    else Substitute(ReplaceAll(template, Token(variables[0].0), variables[0].1), variables[1..])
  }

  /** The rendered prompt: all substitutions, then `trim`. */
  function Fill(template: string, variables: seq<(string, string)>): string {
    Trim(Substitute(template, variables))
  }

  /**
    `getPrompt(promptKey, variables)`: looks the key up, fails with "Prompt not found" when
    there is no template or it is empty, otherwise applies the entries of `variables` one
    after the other to a local copy of the template and returns it trimmed.
   */
  method GetPrompt(prompts: map<string, string>, promptKey: string, variables: seq<(string, string)>)
    returns (r: Result<string, PromptError>)
    requires WellFormedVariables(variables)
    ensures r.Failure? <==> !HasPrompt(prompts, promptKey)
    ensures r.Failure? ==> r.error == NotFound(promptKey)
    ensures r.Success? ==> r.value == Fill(prompts[promptKey], variables) && IsTrimmed(r.value)
  {
    if promptKey !in prompts || prompts[promptKey] == "" {
      return Failure(NotFound(promptKey));
    }
    var prompt := prompts[promptKey];
    var i := 0;
    while i < |variables|
      invariant 0 <= i <= |variables|
      invariant Substitute(prompt, variables[i..]) == Substitute(prompts[promptKey], variables)
    {
      var (k, v) := variables[i];
      assert variables[i..][1..] == variables[i + 1..];
      prompt := ReplaceAll(prompt, Token(k), v);
      i := i + 1;
    }
    return Success(Trim(prompt));
  }

  /** `escapeCodeBlocks`: every run of three backticks becomes "\`\`\`". */
  function EscapeCodeBlocks(text: string): (r: string)
    ensures |r| == |text| + 3 * MatchCount(text, "```")
    ensures r == text <==> !Contains(text, "```")
  {
    ReplaceAllLength(text, "```", "\\`\\`\\`");
    ReplaceAllUnchangedIff(text, "```", "\\`\\`\\`");
    ReplaceAll(text, "```", "\\`\\`\\`")
  }

  /**
    Runs are consumed three backticks at a time from the left, so a run of five leaves two
    backticks that, behind the inserted escape, form a new "```".
   */
  lemma {:induction false} EscapeLeavesLongRuns()
    ensures EscapeCodeBlocks("`````") == "\\`\\`\\```"
    ensures Contains(EscapeCodeBlocks("`````"), "```")
  {
    var r := "\\`\\`\\`";
    assert "```" <= "`````" && "`````"[3..] == "``";
    assert !("```" <= "``") && "``"[1..] == "`";
    assert !("```" <= "`") && "`"[1..] == [];
    assert ReplaceAll("`", "```", r) == "`";
    assert ReplaceAll("``", "```", r) == "``";
    var e := r + "``";
    assert e[3..] == "`\\```";
    assert e[3..][1..] == "\\```";
    assert e[3..][1..][1..] == "```";
    assert "```" <= e[3..][1..][1..];
  }

  // ---- Rendering: what the passes do to placeholders ----

  /** Substituting placeholdered values keeps a placeholdered template placeholdered. */
  lemma {:induction false} SubstitutePlaceholdered(t: string, variables: seq<(string, string)>)
    requires Placeholdered(t) && PlaceholderedValues(variables)
    ensures Placeholdered(Substitute(t, variables))
    decreases |variables|
  {
    if variables != [] {
      var (k, v) := variables[0];
      ReplaceAllPlaceholdered(t, k, v);
      SubstitutePlaceholdered(ReplaceAll(t, Token(k), v), variables[1..]);
    }
  }

  /**
    On a placeholdered template, no pass creates a `${j}` that neither the template nor any
    value contains.
   */
  lemma {:induction false} SubstituteIntroducesNothing(t: string, variables: seq<(string, string)>, j: string)
    requires Placeholdered(t) && PlaceholderedValues(variables) && IsName(j)
    requires !Contains(t, Token(j))
    requires forall i :: 0 <= i < |variables| ==> !Contains(variables[i].1, Token(j))
    ensures !Contains(Substitute(t, variables), Token(j))
    decreases |variables|
  {
    if variables != [] {
      var (k, v) := variables[0];
      ReplaceAllTokens(t, k, v, j);
      ReplaceAllPlaceholdered(t, k, v);
      SubstituteIntroducesNothing(ReplaceAll(t, Token(k), v), variables[1..], j);
    }
  }

  /**
    Placeholder elimination: after the entry `(k, v)` at index `i` is applied, no `${k}` is
    left, provided the template is placeholdered and neither `v` nor any later value
    brings a `${k}` back.
   */
  lemma {:induction false} SubstituteEliminates(t: string, variables: seq<(string, string)>, i: nat)
    requires Placeholdered(t) && PlaceholderedValues(variables)
    requires i < |variables|
    requires forall j :: i <= j < |variables| ==> !Contains(variables[j].1, Token(variables[i].0))
    ensures !Contains(Substitute(t, variables), Token(variables[i].0))
    decreases i
  {
    var (k, v) := variables[0];
    var t1 := ReplaceAll(t, Token(k), v);
    ReplaceAllPlaceholdered(t, k, v);
    if i == 0 {
      ReplaceAllTokens(t, k, v, k);
      SubstituteIntroducesNothing(t1, variables[1..], k);
    } else {
      SubstituteEliminates(t1, variables[1..], i - 1);
    }
  }

  /**
    Pass-through: a placeholder whose name no entry binds stays in the text, whatever the
    template and the values.
   */
  lemma {:induction false} SubstituteKeepsUnbound(t: string, variables: seq<(string, string)>, j: string)
    requires IsName(j) && Contains(t, Token(j))
    requires forall i :: 0 <= i < |variables| ==> IsName(variables[i].0) && variables[i].0 != j
    ensures Contains(Substitute(t, variables), Token(j))
    decreases |variables|
  {
    if variables != [] {
      var (k, v) := variables[0];
      ReplaceAllKeepsToken(t, k, j, v);
      SubstituteKeepsUnbound(ReplaceAll(t, Token(k), v), variables[1..], j);
    }
  }

  /** A `$`-free start of the template passes through every entry unchanged. */
  lemma {:induction false} SubstituteKeepsPrefix(x: string, y: string, variables: seq<(string, string)>)
    requires Avoids(x, '$')
    ensures Substitute(x + y, variables) == x + Substitute(y, variables)
    decreases |variables|
  {
    if variables != [] {
      var (k, v) := variables[0];
      ReplaceAllSkip(x, y, Token(k), v);
      SubstituteKeepsPrefix(x, ReplaceAll(y, Token(k), v), variables[1..]);
    }
  }

  /** Trimming cannot split a placeholder: it starts with `$` and ends with `}`. */
  lemma {:induction false} TokenSurvivesTrim(s: string, j: string)
    ensures Contains(Trim(s), Token(j)) <==> Contains(s, Token(j))
  {
    ContainsAfterTrim(s, Token(j));
  }

  // ---- Rendering: what the caller of getPrompt sees ----

  /** The rendered prompt neither starts nor ends with whitespace, and trimming it again changes nothing. */
  lemma {:induction false} FillIsTrimmed(t: string, variables: seq<(string, string)>)
    ensures IsTrimmed(Fill(t, variables)) && Trim(Fill(t, variables)) == Fill(t, variables)
  {
    TrimmedFixed(Fill(t, variables));
  }

  /** With no variables the result is the stored template, trimmed. */
  lemma {:induction false} FillWithoutVariables(t: string)
    ensures Fill(t, []) == Trim(t)
  {
  }

  /** No placeholder of a bound variable is left in the rendered prompt (see `SubstituteEliminates`). */
  lemma {:induction false} FillEliminatesBound(t: string, variables: seq<(string, string)>, i: nat)
    requires Placeholdered(t) && PlaceholderedValues(variables)
    requires i < |variables|
    requires forall j :: i <= j < |variables| ==> !Contains(variables[j].1, Token(variables[i].0))
    ensures !Contains(Fill(t, variables), Token(variables[i].0))
  {
    SubstituteEliminates(t, variables, i);
    TokenSurvivesTrim(Substitute(t, variables), variables[i].0);
  }

  /**
    A placeholder whose name no entry binds (and no value brings) is in the rendered prompt
    exactly when it is in the template: omitting a variable is not an error.
   */
  lemma {:induction false} FillUnboundPlaceholder(t: string, variables: seq<(string, string)>, j: string)
    requires Placeholdered(t) && PlaceholderedValues(variables) && IsName(j)
    requires forall i :: 0 <= i < |variables| ==> variables[i].0 != j && !Contains(variables[i].1, Token(j))
    ensures Contains(Fill(t, variables), Token(j)) <==> Contains(t, Token(j))
  {
    TokenSurvivesTrim(Substitute(t, variables), j);
    if Contains(t, Token(j)) {
      SubstituteKeepsUnbound(t, variables, j);
    } else {
      SubstituteIntroducesNothing(t, variables, j);
    }
  }

  /**
    Applying the same entry twice is the same as applying it once, on a placeholdered
    template with a value that does not contain its own placeholder.
   */
  lemma {:induction false} RepeatedEntryIdempotent(t: string, k: string, v: string)
    requires Placeholdered(t) && Placeholdered(v) && IsName(k) && !Contains(v, Token(k))
    ensures Substitute(t, [(k, v), (k, v)]) == Substitute(t, [(k, v)])
  {
    var t1 := ReplaceAll(t, Token(k), v);
    ReplaceAllTokens(t, k, v, k);
    ReplaceAllNoMatch(t1, Token(k), v);
    assert [(k, v), (k, v)][1..] == [(k, v)];
  }

  /**
    Entries apply in list order and a later entry sees what an earlier one inserted:
    `${a}` bound to "${b}" and then `${b}` to "x" gives "x"; in the other order the
    inserted `${b}` is left.
   */
  lemma {:induction false} LaterEntrySeesEarlierInsertion()
    ensures Fill("${a}", [("a", "${b}"), ("b", "x")]) == "x"
    ensures Fill("${a}", [("b", "x"), ("a", "${b}")]) == "${b}"
  {
    assert Token("a") == "${a}" && Token("b") == "${b}";
    assert ReplaceAll("${a}", "${a}", "${b}") == "${b}" by {
      assert "${a}"[4..] == [];
    }
    assert ReplaceAll("${b}", "${b}", "x") == "x" by {
      assert "${b}"[4..] == [];
    }
    assert ReplaceAll("${a}", "${b}", "x") == "${a}" by {
      ReplaceAllSkip("{a}", [], "${b}", "x");
      assert ReplaceAll("${a}", "${b}", "x") == "$" + ReplaceAll("${a}"[1..], "${b}", "x");
      assert "${a}"[1..] == "{a}" + [];
    }
    assert [("a", "${b}"), ("b", "x")][1..] == [("b", "x")];
    assert [("b", "x"), ("a", "${b}")][1..] == [("a", "${b}")];
    TrimmedFixed("x");
    TrimmedFixed("${b}");
  }

  /**
    Without the placeholdered precondition elimination fails: in "${${k}}" the inner
    `${k}` is replaced by "k", which completes a new `${k}` with the outer "${" and "}".
   */
  lemma {:induction false} NestedPlaceholderReappears()
    ensures !Placeholdered("${${k}}")
    ensures ReplaceAll("${${k}}", Token("k"), "k") == "${k}"
  {
    var s := "${${k}}";
    assert Token("k") == "${k}";
    assert NameLength(s[2..]) == 0 by { assert s[2..][0] == '$'; }
    assert !OpensPlaceholder(s);
    assert !("${k}" <= s) && s[1..] == "{${k}}";
    assert !("${k}" <= s[1..]) && s[1..][1..] == "${k}}";
    assert "${k}" <= s[1..][1..] && s[1..][1..][4..] == "}";
    assert !("${k}" <= "}") && "}"[1..] == [];
  }

  // ---- The module's store and its labels ----

  /** Every labelled type names a stored template; TEST_DATA_ONLY is stored but has no label. */
  lemma {:induction false} LabelledKeysAreStored()
    ensures CodeGeneratorTypes.Keys <= TemplateKeys
    ensures TemplateKeys - CodeGeneratorTypes.Keys == {TestDataOnly}
  {
    assert TestDataOnly[0] == 'T';
    assert SeleniumJavaPageOnly[0] == 'S' && PlaywrightTypescriptPageOnly[0] == 'P';
    assert CucumberOnly[0] == 'C' && CucumberWithSeleniumJavaSteps[0] == 'C';
  }

  /**
    Every stored template is found and is not blank: once trimmed it still holds its
    `${domContent}` placeholder.
   */
  lemma {:induction false} StoredPromptsFound(prompts: map<string, string>, key: string)
    requires IsDefaultPrompts(prompts) && key in TemplateKeys
    ensures HasPrompt(prompts, key)
    ensures Contains(Trim(prompts[key]), Token(DomContent))
  {
    MatchCountPositive(prompts[key], Token(DomContent));
    TokenSurvivesTrim(prompts[key], DomContent);
  }

  /** A key outside the five, such as the empty string, is not found. */
  lemma {:induction false} UnknownKeyNotFound(prompts: map<string, string>, key: string)
    requires IsDefaultPrompts(prompts) && key !in TemplateKeys
    ensures !HasPrompt(prompts, key)
  {
  }

  /** The rendered text of a stored template starts with "Instructions:", whatever the variables. */
  lemma {:induction false} FillKeepsOpening(t: string, variables: seq<(string, string)>)
    requires Opening <= Trim(t)
    ensures Opening <= Fill(t, variables)
  {
    var w, e := TrimParts(t);
    var m := Trim(t);
    var rest := m[|Opening|..];
    assert m == Opening + rest;
    assert t == (w + Opening) + (rest + e);
    WhitespaceAvoids(w, '$');
    assert Avoids(w + Opening, '$');
    SubstituteKeepsPrefix(w + Opening, rest + e, variables);
    TrimKeepsLead(w, Opening, Substitute(rest + e, variables));
  }

  /** The two variable names the templates use are names `replace` matches literally. */
  lemma {:induction false} VariableNamesAreNames()
    ensures IsName(DomContent) && IsName(PageUrl)
  {
    forall i | 0 <= i < |DomContent| ensures IsNameChar(DomContent[i]) {
      assert 'a' <= DomContent[i] <= 'z' || 'A' <= DomContent[i] <= 'Z';
    }
    forall i | 0 <= i < |PageUrl| ensures IsNameChar(PageUrl[i]) {
      assert 'a' <= PageUrl[i] <= 'z' || 'A' <= PageUrl[i] <= 'Z';
    }
  }

  /**
    A template built from "Instructions: " followed by placeholders and literal text meets
    what the store guarantees, given its hole counts.
   */
  lemma {:induction false} OpenedTemplateIsDefault(key: string, gs: seq<Segment>, last: string)
    requires ValidSegments(gs) && |gs| >= 2
    requires gs[0] == Lit(Opening + " ") && gs[|gs| - 1] == Hole(last)
    requires multiset(gs)[Hole(DomContent)] == 1
    requires multiset(gs)[Hole(PageUrl)] == (if key == CucumberWithSeleniumJavaSteps then 2 else 0)
    requires forall j :: Hole(j) in gs ==> j == DomContent || j == PageUrl
    ensures IsDefaultTemplate(key, Flatten(gs))
  {
    var t := Flatten(gs);
    FlattenPlaceholdered(gs);
    VariableNamesAreNames();
    MatchCountIsHoleCount(gs, DomContent);
    MatchCountIsHoleCount(gs, PageUrl);
    forall j | IsName(j) && Contains(t, Token(j)) ensures j == DomContent || j == PageUrl {
      ContainsTokenIff(gs, j);
    }
    OpenedTemplateOpening(gs, last);
  }

  /** Text that starts with "Instructions: " and ends with a placeholder starts with "Instructions:" once trimmed. */
  lemma {:induction false} OpenedTemplateOpening(gs: seq<Segment>, last: string)
    requires |gs| >= 2 && gs[0] == Lit(Opening + " ") && gs[|gs| - 1] == Hole(last)
    ensures Opening <= Trim(Flatten(gs))
  {
    var t := Flatten(gs);
    assert t == Opening + (" " + Flatten(gs[1..]));
    assert t[0] == 'I';
    var init := gs[..|gs| - 1];
    assert gs == init + [Hole(last)];
    FlattenAppend(init, [Hole(last)]);
    assert Flatten([Hole(last)]) == Token(last);
    assert t[|t| - 1] == '}';
    TrimmedFixed(t);
  }

  /** The segments of a sample template with one `${domContent}`. */
  function SingleSample(): seq<Segment> {
    [Lit(Opening + " "), Hole(DomContent)]
  }

  /** The segments of a sample template with `${domContent}` and two `${pageUrl}`. */
  function StepsSample(): seq<Segment> {
    [Lit(Opening + " "), Hole(DomContent), Lit(" "), Hole(PageUrl), Lit(" "), Hole(PageUrl)]
  }

  lemma {:induction false} SingleSampleIsDefault(key: string)
    requires key != CucumberWithSeleniumJavaSteps
    ensures IsDefaultTemplate(key, Flatten(SingleSample()))
  {
    var gs := SingleSample();
    VariableNamesAreNames();
    assert DomContent[0] != PageUrl[0];
    assert Avoids(Opening + " ", '$');
    assert ValidSegments(gs);
    assert multiset(gs) == multiset{Lit(Opening + " "), Hole(DomContent)};
    OpenedTemplateIsDefault(key, gs, DomContent);
  }

  lemma {:induction false} StepsSampleIsDefault()
    ensures IsDefaultTemplate(CucumberWithSeleniumJavaSteps, Flatten(StepsSample()))
  {
    var gs := StepsSample();
    VariableNamesAreNames();
    assert DomContent[0] != PageUrl[0];
    assert Avoids(Opening + " ", '$') && Avoids(" ", '$');
    assert ValidSegments(gs);
    var m := multiset{Lit(Opening + " "), Hole(DomContent), Lit(" "), Hole(PageUrl), Lit(" "), Hole(PageUrl)};
    assert multiset(gs) == m;
    assert m[Hole(DomContent)] == 1 && m[Hole(PageUrl)] == 2;
    OpenedTemplateIsDefault(CucumberWithSeleniumJavaSteps, gs, PageUrl);
  }

  /** The store predicate is not vacuous: some store of five templates meets it. */
  lemma {:induction false} DefaultPromptsExist()
    ensures exists prompts :: IsDefaultPrompts(prompts)
  {
    var single, steps := Flatten(SingleSample()), Flatten(StepsSample());
    var prompts := map[
      SeleniumJavaPageOnly := single,
      PlaywrightTypescriptPageOnly := single,
      CucumberOnly := single,
      CucumberWithSeleniumJavaSteps := steps,
      TestDataOnly := single
    ];
    KeysDistinct();
    StepsSampleIsDefault();
    forall key | key in prompts ensures IsDefaultTemplate(key, prompts[key]) {
      if key == CucumberWithSeleniumJavaSteps {
        assert prompts[key] == steps;
      } else {
        assert prompts[key] == single;
        SingleSampleIsDefault(key);
      }
    }
    assert IsDefaultPrompts(prompts);
  }

  /** The four keys other than the step-definition key differ from it. */
  lemma {:induction false} KeysDistinct()
    ensures SeleniumJavaPageOnly != CucumberWithSeleniumJavaSteps
    ensures PlaywrightTypescriptPageOnly != CucumberWithSeleniumJavaSteps
    ensures CucumberOnly != CucumberWithSeleniumJavaSteps
    ensures TestDataOnly != CucumberWithSeleniumJavaSteps
  {
    assert SeleniumJavaPageOnly[0] != CucumberWithSeleniumJavaSteps[0];
    assert PlaywrightTypescriptPageOnly[0] != CucumberWithSeleniumJavaSteps[0];
    assert CucumberOnly[9] != CucumberWithSeleniumJavaSteps[9];
    assert TestDataOnly[0] != CucumberWithSeleniumJavaSteps[0];
  }

  /** The facts the store guarantees about one of its templates. */
  lemma {:induction false} StoredTemplate(prompts: map<string, string>, key: string)
    requires IsDefaultPrompts(prompts) && key in TemplateKeys
    ensures IsDefaultTemplate(key, prompts[key])
  {
  }

  /**
    Rendering with a single entry `(k, v)` on a placeholdered template that holds `${k}`:
    no `${k}` is left, and `v` is in the result when it starts and ends with a
    non-whitespace character.
   */
  lemma {:induction false} FillSingle(t: string, k: string, v: string)
    requires Placeholdered(t) && IsName(k) && Placeholdered(v) && !Contains(v, Token(k))
    requires Contains(t, Token(k))
    ensures !Contains(Fill(t, [(k, v)]), Token(k))
    ensures v != [] && !IsWhitespace(v[0]) && !IsWhitespace(v[|v| - 1]) ==> Contains(Fill(t, [(k, v)]), v)
  {
    var u := ReplaceAll(t, Token(k), v);
    assert Substitute(t, [(k, v)]) == u by {
      assert [(k, v)][1..] == [];
    }
    ReplaceAllTokens(t, k, v, k);
    TokenSurvivesTrim(u, k);
    ReplaceAllInserts(t, k, v);
    if v != [] && !IsWhitespace(v[0]) && !IsWhitespace(v[|v| - 1]) {
      ContainsAfterTrim(u, v);
    }
  }

  /**
    Rendering a stored template with `domContent` alone: the text starts with
    "Instructions:", holds no `${domContent}`, and holds the value when the value starts
    and ends with a non-whitespace character.
   */
  lemma {:induction false} FillDomContent(prompts: map<string, string>, key: string, dom: string)
    requires IsDefaultPrompts(prompts) && key in TemplateKeys
    requires Placeholdered(dom) && !Contains(dom, Token(DomContent))
    ensures Opening <= Fill(prompts[key], [(DomContent, dom)])
    ensures !Contains(Fill(prompts[key], [(DomContent, dom)]), Token(DomContent))
    ensures dom != [] && !IsWhitespace(dom[0]) && !IsWhitespace(dom[|dom| - 1]) ==>
              Contains(Fill(prompts[key], [(DomContent, dom)]), dom)
  {
    StoredTemplate(prompts, key);
    FillTemplateDomContent(key, prompts[key], dom);
  }

  lemma {:induction false} FillTemplateDomContent(key: string, t: string, dom: string)
    requires IsDefaultTemplate(key, t)
    requires Placeholdered(dom) && !Contains(dom, Token(DomContent))
    ensures Opening <= Fill(t, [(DomContent, dom)])
    ensures !Contains(Fill(t, [(DomContent, dom)]), Token(DomContent))
    ensures dom != [] && !IsWhitespace(dom[0]) && !IsWhitespace(dom[|dom| - 1]) ==>
              Contains(Fill(t, [(DomContent, dom)]), dom)
  {
    VariableNamesAreNames();
    MatchCountPositive(t, Token(DomContent));
    FillKeepsOpening(t, [(DomContent, dom)]);
    FillSingle(t, DomContent, dom);
  }

  /**
    Rendering CUCUMBER_WITH_SELENIUM_JAVA_STEPS with `domContent` and `pageUrl` replaces
    both (the page URL at its two places): the result starts with "Instructions:", holds
    no placeholder except those the values themselves bring, and holds each value whose
    first and last characters are not whitespace.
   */
  lemma {:induction false} FillStepDefinitions(prompts: map<string, string>, dom: string, url: string, j: string)
    requires IsDefaultPrompts(prompts)
    requires Placeholdered(dom) && Placeholdered(url) && IsName(j)
    requires !Contains(dom, Token(DomContent)) && !Contains(dom, Token(PageUrl))
    requires !Contains(url, Token(DomContent)) && !Contains(url, Token(PageUrl))
    ensures Opening <= Fill(prompts[CucumberWithSeleniumJavaSteps], [(DomContent, dom), (PageUrl, url)])
    ensures Contains(Fill(prompts[CucumberWithSeleniumJavaSteps], [(DomContent, dom), (PageUrl, url)]), Token(j))
            ==> Contains(dom, Token(j)) || Contains(url, Token(j))
    ensures dom != [] && !IsWhitespace(dom[0]) && !IsWhitespace(dom[|dom| - 1]) ==>
              Contains(Fill(prompts[CucumberWithSeleniumJavaSteps], [(DomContent, dom), (PageUrl, url)]), dom)
    ensures url != [] && !IsWhitespace(url[0]) && !IsWhitespace(url[|url| - 1]) ==>
              Contains(Fill(prompts[CucumberWithSeleniumJavaSteps], [(DomContent, dom), (PageUrl, url)]), url)
  {
    var t := prompts[CucumberWithSeleniumJavaSteps];
    StoredTemplate(prompts, CucumberWithSeleniumJavaSteps);
    MatchCountPositive(t, Token(DomContent));
    MatchCountPositive(t, Token(PageUrl));
    FillKeepsOpening(t, [(DomContent, dom), (PageUrl, url)]);
    FillPairResolved(t, dom, url, j);
    FillPairInserts(t, dom, url);
  }

  /** Two entries are two passes, the first entry's first. */
  lemma {:induction false} SubstitutePair(t: string, k1: string, v1: string, k2: string, v2: string)
    ensures Substitute(t, [(k1, v1), (k2, v2)]) == ReplaceAll(ReplaceAll(t, Token(k1), v1), Token(k2), v2)
  {
    var t1 := ReplaceAll(t, Token(k1), v1);
    assert [(k1, v1), (k2, v2)][1..] == [(k2, v2)];
    assert Substitute(t, [(k1, v1), (k2, v2)]) == Substitute(t1, [(k2, v2)]);
    assert [(k2, v2)][1..] == [];
    assert Substitute(t1, [(k2, v2)]) == Substitute(ReplaceAll(t1, Token(k2), v2), []);
  }

  /**
    Rendering a placeholdered template that holds both `${domContent}` and `${pageUrl}`
    puts both values into the result (each when its ends are not whitespace, so that the
    final trim cannot cut into it).
   */
  lemma {:induction false} FillPairInserts(t: string, dom: string, url: string)
    requires Placeholdered(t) && Placeholdered(dom)
    requires Contains(t, Token(DomContent)) && Contains(t, Token(PageUrl))
    requires !Contains(dom, Token(PageUrl))
    ensures dom != [] && !IsWhitespace(dom[0]) && !IsWhitespace(dom[|dom| - 1]) ==>
              Contains(Fill(t, [(DomContent, dom), (PageUrl, url)]), dom)
    ensures url != [] && !IsWhitespace(url[0]) && !IsWhitespace(url[|url| - 1]) ==>
              Contains(Fill(t, [(DomContent, dom), (PageUrl, url)]), url)
  {
    var t1 := ReplaceAll(t, Token(DomContent), dom);
    var t2 := ReplaceAll(t1, Token(PageUrl), url);
    SubstitutePair(t, DomContent, dom, PageUrl, url);
    VariableNamesAreNames();
    assert DomContent[0] != PageUrl[0];
    ReplaceAllKeepsToken(t, DomContent, PageUrl, dom);
    ReplaceAllInserts(t1, PageUrl, url);
    ReplaceAllKeepsInserted(t, DomContent, dom, PageUrl, url);
    if dom != [] && !IsWhitespace(dom[0]) && !IsWhitespace(dom[|dom| - 1]) {
      ContainsAfterTrim(t2, dom);
    }
    if url != [] && !IsWhitespace(url[0]) && !IsWhitespace(url[|url| - 1]) {
      ContainsAfterTrim(t2, url);
    }
  }

  /** Rendering a placeholdered template with `domContent` and `pageUrl` leaves only placeholders the values bring. */
  lemma {:induction false} FillPairResolved(t: string, dom: string, url: string, j: string)
    requires Placeholdered(t) && Placeholdered(dom) && Placeholdered(url) && IsName(j)
    requires forall n :: IsName(n) && Contains(t, Token(n)) ==> n == DomContent || n == PageUrl
    requires !Contains(dom, Token(DomContent)) && !Contains(dom, Token(PageUrl))
    requires !Contains(url, Token(DomContent)) && !Contains(url, Token(PageUrl))
    ensures Contains(Fill(t, [(DomContent, dom), (PageUrl, url)]), Token(j))
            ==> Contains(dom, Token(j)) || Contains(url, Token(j))
  {
    var vars := [(DomContent, dom), (PageUrl, url)];
    VariableNamesAreNames();
    assert PlaceholderedValues(vars);
    if j == DomContent {
      FillEliminatesBound(t, vars, 0);
    } else if j == PageUrl {
      FillEliminatesBound(t, vars, 1);
    } else if !Contains(dom, Token(j)) && !Contains(url, Token(j)) {
      SubstituteIntroducesNothing(t, vars, j);
      TokenSurvivesTrim(Substitute(t, vars), j);
    }
  }
}
