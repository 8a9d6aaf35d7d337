# Prompt template renderer — a verified model

This project models the prompt renderer of a browser extension that asks a language
model to generate test code (Selenium Java page objects, Playwright TypeScript page
objects, Cucumber features and step definitions, test data). The renderer keeps a fixed
store of five prompt templates. `getPrompt(promptKey, variables)` looks a template up,
fails with `Error("Prompt not found: <key>")` when it is missing or empty, replaces every
`${name}` placeholder of each variable entry in turn, and returns the trimmed text.
`escapeCodeBlocks` escapes triple backticks. `CODE_GENERATOR_TYPES` gives four of the
five keys a display label.

Modules:

- `Wrappers`: the `Option` and `Result` datatypes.
- `Text`: the string operations the renderer is built from.
  - `ReplaceAll` is the global `replace` of a literal pattern: leftmost first, non-overlapping, with no rescan of inserted text.
  - `MatchCount` counts the matches it replaces.
  - `Trim` is ECMAScript `String.prototype.trim` over the whitespace and line-terminator set of ECMA-262.
  - Lemmas cover length, containment and trimming.
- `Placeholders`: `${name}` tokens, and a segment view of a template as literal text and holes.
  - `Parse` / `Flatten` convert between the text and the segments.
  - The key theorem, `ReplaceAllIsSubst`, says one replace pass on the text is substitution on the segments. Every placeholder fact rests on it.
- `Prompts`: the store and the renderer.
  - `getPrompt` becomes the method `GetPrompt`. Its loop over the entries is proved against the function `Substitute`.
  - `escapeCodeBlocks` becomes `EscapeCodeBlocks`.
  - The store is a parameter `prompts: map<string, string>`. `IsDefaultPrompts` states what the module's own store guarantees without repeating the template bodies:
    - the five keys;
    - every `$` opens a placeholder;
    - `${domContent}` occurs once per template;
    - `${pageUrl}` occurs twice in the step-definition template and nowhere else;
    - each template, once trimmed, starts with "Instructions:" (the raw text starts with a line break and indentation).
  - `CodeGeneratorTypes` is the label map.

Variables are a sequence of `(name, value)` pairs, in the order `Object.entries` yields them.

A template is *placeholdered* when every `$` in it begins a complete `${name}`. All five
stored templates are placeholdered. The elimination theorems need this precondition:
`"${${k}}"` with `k := "k"` yields `"${k}"`, as `NestedPlaceholderReappears` shows.

## Model

| member | source | states |
|---|---|---|
| Text.ReplaceAll | src/scripts/prompts.js:309 | the global `replace` of a literal pattern; what it does is stated by the lemmas below (`ReplaceAllLength`, `ReplaceAllNoMatch`, `ReplaceAllBySelf`, `ReplaceAllUnchangedIff`) and by `Placeholders.ReplaceAllIsSubst` |
| Text.Trim | src/scripts/prompts.js:312 | the result neither starts nor ends with ECMA-262 whitespace or a line terminator (`TrimParts` adds that only such characters are removed) |
| Prompts.Substitute | src/scripts/prompts.js:307-310 | the `forEach` over the entries as a function: one replace pass per entry, in list order; `GetPrompt`'s loop is proved to compute it, and the `Substitute*` lemmas state its properties |
| Prompts.IsDefaultPrompts | src/scripts/prompts.js:4-289 | the store has exactly the five keys, and each template is placeholdered, holds `${domContent}` once, holds `${pageUrl}` twice in CUCUMBER_WITH_SELENIUM_JAVA_STEPS and nowhere else, holds no other placeholder, and starts with "Instructions:" once trimmed |
| Prompts.CodeGeneratorTypes | src/scripts/prompts.js:315-320 | the four labels, keyed by template key; `LabelledKeysAreStored` states how they relate to the store |
| Prompts.GetPrompt | src/scripts/prompts.js:301-313 | fails exactly when the key is absent or its template is the falsy empty string, and the error carries the key; otherwise the result is the trimmed text after all the entries' passes in list order (`Fill`), and it is trimmed |
| Prompts.MessageNamesKey | src/scripts/prompts.js:304 | the "Prompt not found: " message determines the key: different keys never give the same message |
| Prompts.UnknownKeyNotFound | src/scripts/prompts.js:302-305 | a key outside the five stored keys is never found, so `getPrompt` reports it rather than returning a default |
| Prompts.StoredPromptsFound | src/scripts/prompts.js:4-289 | each of the five keys is found, and its template still holds `${domContent}` after trimming |
| Prompts.LabelledKeysAreStored | src/scripts/prompts.js:315-320 | every labelled code-generator type is a template key, and TEST_DATA_ONLY is the one key without a label |
| Prompts.FillWithoutVariables | src/scripts/prompts.js:301-312 | with no variables, the result is the stored template trimmed |
| Prompts.FillIsTrimmed | src/scripts/prompts.js:312 | the rendered prompt neither starts nor ends with whitespace, and trimming it again changes nothing |
| Text.TrimIdempotent | src/scripts/prompts.js:312 | `trim` applied twice equals `trim` applied once |
| Text.TrimParts | src/scripts/prompts.js:312 | `trim` removes only whitespace: the input is whitespace, the result, whitespace |
| Text.ContainsAfterTrim | src/scripts/prompts.js:312 | a text that starts and ends with non-whitespace occurs in the trimmed text exactly when it occurs in the untrimmed text |
| Text.ReplaceAllLength | src/scripts/prompts.js:309 | a replace-all pass changes the length by the number of matches times the difference between replacement and pattern lengths |
| Text.MatchCountPositive | src/scripts/prompts.js:309 | a pass makes at least one replacement exactly when the pattern occurs |
| Text.ReplaceAllNoMatch | src/scripts/prompts.js:309 | a pass over text without the pattern leaves it unchanged |
| Text.ReplaceAllBySelf | src/scripts/prompts.js:309 | replacing a pattern by itself leaves the text unchanged |
| Placeholders.PlaceholderedIff | src/scripts/prompts.js:4-289 | parsing into literal text and holes succeeds exactly when every `$` opens a `${name}` |
| Placeholders.ReplaceAllIsSubst | src/scripts/prompts.js:308-309 | for well-formed segments (literal text without `$`, holes with identifier names) and an identifier `k`, one pass for `${k}` over their text equals replacing every hole named `k` by the value's segments, so the pass is left to right and does not rescan what it inserts |
| Placeholders.MatchCountIsHoleCount | src/scripts/prompts.js:308-309 | for well-formed segments and an identifier `j`, the number of replacements a pass for `${j}` makes over their text is the number of holes named `j` |
| Placeholders.ReplaceAllKeepsToken | src/scripts/prompts.js:308-309 | for any text and value and identifiers `j` different from `k`, if `${j}` occurs before a pass for `${k}`, a `${j}` still occurs after it |
| Placeholders.ReplaceAllTokens | src/scripts/prompts.js:308-309 | on placeholdered text and value with identifiers `k` and `j`, `${j}` occurs after a pass for `k` exactly when it occurred and `j` is not `k`, or `${k}` occurred and the value holds `${j}` |
| Placeholders.ReplaceAllPlaceholdered | src/scripts/prompts.js:308-309 | for an identifier `k`, a pass with a placeholdered value keeps a placeholdered text placeholdered |
| Placeholders.ReplaceAllInserts | src/scripts/prompts.js:308-309 | for any text and value, when `${k}` occurs, the value occurs in the result |
| Placeholders.DollarFreePlaceholdered | src/scripts/prompts.js:307-310 | a value without `$` is placeholdered, so the theorems below apply to plain values |
| Prompts.PlaceholderedIsLiteral | src/scripts/prompts.js:309 | a placeholdered value contains no `$$`, `$&`, `` $` `` or `$'` pattern, so `replace` inserts it verbatim |
| Prompts.PlaceholderedValuesWellFormed | src/scripts/prompts.js:307-310 | entries with identifier names and placeholdered values meet `GetPrompt`'s precondition |
| Prompts.SubstitutePlaceholdered | src/scripts/prompts.js:307-310 | on a placeholdered template, with every entry name an identifier and every value placeholdered, the entry passes leave the text placeholdered |
| Prompts.SubstituteIntroducesNothing | src/scripts/prompts.js:307-310 | on a placeholdered template, with every entry name an identifier and every value placeholdered, and for an identifier `j`, no pass creates a `${j}` that neither the template nor any value contains |
| Prompts.SubstituteEliminates | src/scripts/prompts.js:307-310 | on a placeholdered template, with every entry name an identifier and every value placeholdered, after entry `(k, v)` no `${k}` is left, when `v` and the later values hold no `${k}` |
| Prompts.SubstituteKeepsUnbound | src/scripts/prompts.js:307-310 | for any template and values, with every entry name an identifier, a `${j}` (identifier `j`) that no entry names stays in the text; omitting a variable is not an error |
| Prompts.SubstituteKeepsPrefix | src/scripts/prompts.js:307-310 | for any entries, text without `$` at the start of the template passes through every entry unchanged |
| Prompts.FillEliminatesBound | src/scripts/prompts.js:307-312 | on a placeholdered template, with every entry name an identifier and every value placeholdered, the rendered prompt holds no `${k}` for the entry `(k, v)` when `v` and the later values hold no `${k}` |
| Prompts.FillUnboundPlaceholder | src/scripts/prompts.js:307-312 | on a placeholdered template, with every entry name an identifier and every value placeholdered, a `${j}` (identifier `j`) that no entry names and no value holds is in the rendered prompt exactly when it is in the template |
| Prompts.RepeatedEntryIdempotent | src/scripts/prompts.js:307-310 | on a placeholdered template, with an identifier name `k` and a placeholdered value that holds no `${k}`, applying the entry `(k, v)` twice equals applying it once |
| Prompts.LaterEntrySeesEarlierInsertion | src/scripts/prompts.js:307-310 | entries apply in list order: `${a}` bound to "${b}" and then `${b}` to "x" gives "x"; in the other order "${b}" is left |
| Prompts.NestedPlaceholderReappears | src/scripts/prompts.js:308-309 | in the non-placeholdered "${${k}}", replacing `${k}` by "k" yields a new `${k}`, so elimination needs the placeholdered precondition |
| Prompts.FillKeepsOpening | src/scripts/prompts.js:301-312 | for any entries, a template whose trimmed text starts with "Instructions:" renders to text that starts with it |
| Prompts.FillSingle | src/scripts/prompts.js:307-312 | on a placeholdered template that holds `${k}`, with an identifier name `k` and a placeholdered value `v` that holds no `${k}`, rendering with the one entry `(k, v)` leaves no `${k}`, and `v` appears when its ends are not whitespace |
| Prompts.FillDomContent | src/scripts/prompts.js:301-313 | rendering any stored template with `domContent` alone, bound to a placeholdered value that holds no `${domContent}`, gives text that starts with "Instructions:", holds no `${domContent}`, and holds the value when its ends are not whitespace |
| Prompts.FillStepDefinitions | src/scripts/prompts.js:147-241 | rendering CUCUMBER_WITH_SELENIUM_JAVA_STEPS with placeholdered `domContent` and `pageUrl` values that hold neither placeholder gives text that starts with "Instructions:", holds no placeholder the values did not bring, and holds each value whose ends are not whitespace |
| Prompts.FillPairInserts | src/scripts/prompts.js:307-312 | rendering a placeholdered template that holds `${domContent}` and `${pageUrl}` with a placeholdered `domContent` value (holding no `${pageUrl}`) and any `pageUrl` value puts each value whose ends are not whitespace into the result |
| Placeholders.ReplaceAllKeepsInserted | src/scripts/prompts.js:307-310 | on placeholdered text, a placeholdered value inserted for `${k}` that holds no `${j}` is still in the text after a later pass for `${j}` |
| Placeholders.SubstKeepsInserted | src/scripts/prompts.js:307-310 | among segments, the segments put in for a hole survive a later substitution for a name they do not hold |
| Prompts.DefaultPromptsExist | src/scripts/prompts.js:4-289 | some store of five templates meets everything the store predicate asks, so the lemmas that assume it are not vacuous |
| Prompts.EscapeCodeBlocks | src/scripts/prompts.js:294-296 | the length grows by 3 per non-overlapping triple backtick, and the text is unchanged exactly when it holds no triple backtick |
| Prompts.EscapeLeavesLongRuns | src/scripts/prompts.js:294-296 | a run of five backticks becomes "\`\`\```", which still holds a triple backtick |
| Text.ReplaceAllUnchangedIff | src/scripts/prompts.js:295 | with a replacement longer than the pattern, a pass leaves the text unchanged exactly when the pattern does not occur |

## Left out

- src/config/appConfig.js is not part of this model: it holds branding and colour constants and has no operations.
- The template bodies are not reproduced. `IsDefaultPrompts` states only:
  - the key set;
  - the placeholder facts (`${domContent}` at src/scripts/prompts.js:20, 72, 114, 159, 266; `${pageUrl}` at 161 and 205);
  - that every `$` opens a placeholder;
  - the opening "Instructions:".
- Prompts.GetPrompt: requires `WellFormedVariables`. Each name is made of `[A-Za-z0-9_]`, which makes the `RegExp` built from it a literal `${name}` match. Each value holds no `$$`, `$&`, `` $` `` or `$'`, the substitution patterns the JavaScript `replace` would expand. Other names (regex metacharacters) and other values are not modelled.
- Prompts.SubstituteEliminates: needs a placeholdered template and placeholdered values. This is weaker than "a `$`-free value never leaves `${k}`", which is false for arbitrary templates (`NestedPlaceholderReappears`). The five stored templates meet the condition.
- Variable values are strings. `replace` would convert a non-string value with `String(v)`, and a function value would be called as a replacer. Neither case is modelled.
- The variables are given as the sequence `Object.entries` yields. The enumeration order of JavaScript objects (integer-like keys first) is not modelled.
- A key such as "toString" would find an inherited property of the object literal. The model's map treats every key outside the five as absent.
- `trim`'s whitespace set is fixed to the characters ECMA-262 lists, including the Unicode space separators as of Unicode 15. Later changes to the `Zs` category are not followed.
- The callers that send the rendered prompt to a generation service, and all I/O, are not part of this model.
