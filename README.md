# Svelte view engine: head splicing

This project models the view-engine adapter that lets a Nest/Express server
render Svelte components (`svelteViewEngine` in `src/svelte-view-engine.ts`).
After the component has been rendered into `{html, head, css}`, the adapter

1. appends a `<style>` element holding `css.code` to `head` when `css.code` is
   truthy (a non-empty string), and
2. replaces the first `%head%` in `html` with that head, using JavaScript's
   `String.prototype.replace`, and calls `next(null, result)`.

The model is pure, as the adapter is: the conditional rebinding of `head` is
the function `AugmentHead`, and the adapter is the function `ViewEngine`,
whose result `Next(error, text)` stands for the single call to `next`.
Because `ViewEngine` is a function of the rendered triple, two calls with the
same `(html, head, css.code)` give the same completion, and each call yields
exactly one completion whose error is `null`.

The string built-ins are modelled in the module `JsString` after ECMA-262
(its StringIndexOf operation, and `String.prototype.replace` with its
GetSubstitution step). The replacement is a string, so `$`-patterns in the head
are expanded: `$$` becomes `$`, `$&` the matched `%head%`, `` $` `` the markup
before it and `$'` the markup after it. With a string search pattern there are
no capture groups, so `$1`, `$12` and `$<` stay as they are. `ReplaceFirst`
is a separate, literal splice used as the reference definition. The two agree
whenever the head holds no `$`.

A failed module load or a throwing render is not reported through `next`:
the code has no `try`/`catch`, so those failures throw, and the model has no
error path.

## Model

| member | source | states |
|---|---|---|
| `JsString.IndexOfFrom` | src/svelte-view-engine.ts:9 | StringIndexOf from a start index: a result is an occurrence at or after the start with none between; no result means no occurrence at or after the start |
| `JsString.IndexOf` | src/svelte-view-engine.ts:9 | the search of `replace` finds nothing exactly when the pattern is absent, and otherwise finds its leftmost occurrence |
| `JsString.IndexOfIsFirst` | src/svelte-view-engine.ts:9 | the leftmost occurrence is unique, so the search returns exactly it |
| `JsString.GetSubstitution` | src/svelte-view-engine.ts:9 | a replacement string without `$` is inserted as it is |
| `JsString.Replace` | src/svelte-view-engine.ts:9 | with no occurrence the string is returned unchanged; otherwise the text before the first occurrence, the expanded replacement and the text after it |
| `JsString.ReplaceDollarFree` | src/svelte-view-engine.ts:9 | with a `$`-free replacement the replacement itself goes in place of the first occurrence, and the length changes by the difference of the two lengths |
| `JsString.ReplaceFirstAbsent` | src/svelte-view-engine.ts:9 | the literal splice returns the input unchanged when the pattern is absent |
| `JsString.ReplaceFirstSplice` | src/svelte-view-engine.ts:9 | the literal splice keeps the prefix before the first occurrence, inserts the replacement and keeps the suffix after it |
| `JsString.ReplaceIsLiteralSplice` | src/svelte-view-engine.ts:9 | for every input with a `$`-free replacement, `replace` equals the literal splice |
| `JsString.SpliceKeepsLaterOccurrences` | src/svelte-view-engine.ts:9 | every occurrence after the replaced one that does not overlap it survives the splice, shifted by the length difference |
| `JsString.ReplaceKeepsLaterOccurrences` | src/svelte-view-engine.ts:9 | `replace` changes only the first occurrence: for every replacement, every later occurrence that does not overlap the first is still there, shifted by as much as the string grew |
| `SvelteViewEngine.AugmentHead` | src/svelte-view-engine.ts:6-8 | the original head is always a prefix; with truthy CSS what follows it is exactly `<style>` + code + `</style>` (appended, never prepended); with null, undefined or empty CSS the head is unchanged and no style element appears |
| `SvelteViewEngine.AugmentHeadDollarFree` | src/svelte-view-engine.ts:6-9 | the head used for replacement is free of `$` exactly when the original head is and, if it was appended, the CSS code is |
| `SvelteViewEngine.ViewEngine` | src/svelte-view-engine.ts:5-9 | the completion's error is always `null`; without a `%head%` the text is the markup exactly, so head and style are dropped |
| `SvelteViewEngine.ViewEngineSplice` | src/svelte-view-engine.ts:6-9 | with the first `%head%` at p and a `$`-free head, the text is the markup before p, then the possibly augmented head, then the markup after the placeholder; its length is the markup's length minus 6 plus the head's |
| `SvelteViewEngine.ViewEngineKeepsLaterPlaceholders` | src/svelte-view-engine.ts:9 | only the first `%head%` is replaced: for every head, `$`-patterns included, every later `%head%` that does not overlap the first is still in the text, shifted by as much as the text grew (by the head's length less 6 for a `$`-free head, per `ViewEngineSplice`) |
| `SvelteViewEngine.ViewEngineIntended` | src/svelte-view-engine.ts:9 | the corrected adapter, which splices the head literally, also completes with a `null` error |
| `SvelteViewEngine.ViewEngineIntendedSplice` | src/svelte-view-engine.ts:6-9 | the corrected adapter puts the augmented head, whatever its characters, in place of the first `%head%`, and returns the markup unchanged without one |
| `SvelteViewEngine.ViewEngineAgreesWithoutDollar` | src/svelte-view-engine.ts:6-9 | when neither the head nor the appended CSS holds `$`, the adapter as written and the corrected one give the same completion |
| `SvelteViewEngine.DollarQuoteDuplicatesTail` | src/svelte-view-engine.ts:9 | with the head `$'` and no CSS, the adapter as written outputs the markup after the placeholder twice, while the corrected adapter keeps `$'` |
| `SvelteViewEngine.DollarAmpersandKeepsPlaceholder` | src/svelte-view-engine.ts:9 | with the head `$&` and no CSS, the adapter as written returns the markup unchanged: `%head%` is put back in its own place |
| `SvelteViewEngine.DoubleDollarBecomesOne` | src/svelte-view-engine.ts:9 | with no CSS, a head `$$` followed by `$`-free text renders as a single `$` and that text |
| `SvelteViewEngine.DollarBacktickDuplicatesPrefix` | src/svelte-view-engine.ts:9 | with the head `` $` `` and no CSS, the markup before the placeholder appears twice |
| `SvelteViewEngine.DollarQuoteExample` | src/svelte-view-engine.ts:9 | `<head>%head%</head>` with the head `$'` renders as `<head></head></head>` |
| `SvelteViewEngine.PlainHeadExample` | src/svelte-view-engine.ts:5-9 | `<html>%head%</html>` with head `<title>T</title>` and no CSS renders as `<html><title>T</title></html>` |
| `SvelteViewEngine.StyledHeadAfterTag` | src/svelte-view-engine.ts:6-9 | for a page opening with a six-character tag free of `%`, non-empty CSS and a head and code free of `$` put the head and then its style element in place of the placeholder |
| `SvelteViewEngine.StyledHeadExample` | src/svelte-view-engine.ts:5-9 | with CSS `body{color:red}` the output is `<html><title>T</title><style>body{color:red}</style></html>` |

## Left out

- `src/main.ts` (creating the Nest application, registering the engine for `.svelte`, listening on port 3000): framework start-up and I/O, with no logic of its own to state.
- Loading the module with `require(filePath).default` and calling `Component.render(options)` (`src/svelte-view-engine.ts:4-5`): dynamic loading and a call into the Svelte runtime. Their result, the triple `(html, head, css.code)`, is the input `Rendered`.
- The exceptions these calls can throw, and the `TypeError` when `css` itself is undefined: the adapter lets them escape to its caller instead of reporting them through `next`, and the model has no exceptions.
- The unused `identity` import from `rxjs`.
- Values of `head` and `css.code` that are not strings (a template literal would turn `undefined` into the text `undefined`). The model takes `head` as a string and `css.code` as a string, `null` or `undefined`.
- JavaScript strings are sequences of UTF-16 code units. The model uses sequences of Dafny `char`; only the characters `$`, `%` and the tags matter here.
- GetSubstitution's `$n`, `$nn` and `$<` cases are not spelled out one by one. Without captures or named groups each emits its own text, and the model emits such text one character at a time, which gives the same result.

## Findings

| source | as written | input that shows it | evidently intended | confidence | as-written member | corrected member |
|---|---|---|---|---|---|---|
| src/svelte-view-engine.ts:9 | the head is passed to `replace` as a replacement string, so `$$`, `$&`, `` $` `` and `$'` in the head or in the CSS code are expanded | markup `<head>%head%</head>`, head `$'`, no CSS: the output is `<head></head></head>` | the head and style are spliced in literally, giving `<head>$'</head>` | medium, not executed | `SvelteViewEngine.DollarQuoteDuplicatesTail` | `SvelteViewEngine.ViewEngineIntendedSplice` |
