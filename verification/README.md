# Code translator: the "run" feature's string handling

The web form of this repository sends source code to a translation service
and, for JavaScript output, offers to run the translated function. Before it
runs anything it does three pieces of pure string work, which this project
models and proves properties of:

- `extractFunctionComponents` takes the parameter list and the body out of
  the translated text with the single-shot regular expressions
  `/\(([^)]*)\)/` and `/\{([^}]*)\}/`, trims each capture, and falls back to
  `''` when a pattern does not match.
- `processParameters` splits a text on `,`, trims every piece, and keeps
  what `JSON.parse` makes of a piece, or the trimmed piece itself when
  parsing throws.
- `body.replace('return', 'return ')` inserts a blank after the first
  `return` of the body.

The JavaScript primitives these rely on are modelled as well:
`String.prototype.trim` (`JsTrim`), `indexOf` and `replace` with a string
pattern (`JsSearch`), and `split` with a one-character separator together
with its inverse `join` (`JsSplit`). The regular expressions are not run by
an engine. A pattern of the shape "opener, run of non-closers, closer" has a
leftmost match exactly when a closer follows the first opener, and its
capture ends at the first such closer. `Extraction.FindMatch` is that index
search, and `Extraction.FindMatchIsLeftmost` proves it equal to the
declarative leftmost-match definition.

Each field is decided by its own match (lines 39 and 40): a text with a
parameter list but no braces keeps its parameter text
(`Scenarios.ParamsWithoutBody`).

`JSON.parse` is a parameter `parse: string -> Option<V>` of the operations
that use it. `None` stands for a thrown `SyntaxError`. Facts about
particular inputs are stated as hypotheses of the lemmas that need them, for
example that the empty text does not parse.

Files: `wrappers.dfy` (Option), `js_trim.dfy`, `js_search.dfy`,
`js_split.dfy`, `extraction.dfy`, `parameters.dfy`, `run_code.dfy` (the pure
part of `handleRunCode`), and `scenarios.dfy` (worked examples).

## Model

| member | source | states |
|---|---|---|
| JsTrim.Trim | web/src/App.tsx:39-40 | the result has no white space at either end and is the input with a white-space prefix and a white-space suffix removed (ECMAScript white space and line terminators) |
| JsTrim.TrimUnique | web/src/App.tsx:39-40 | any trimmed string obtained from `s` by deleting a white-space prefix and suffix equals `Trim(s)`: the reference characterisation of `trim` |
| JsSearch.IndexOf | web/src/App.tsx:65 | the result is an occurrence at or after `from` with no occurrence before it, and `None` means there is no occurrence at or after `from` |
| JsSearch.ReplaceFirst | web/src/App.tsx:65 | with no occurrence the text is unchanged; otherwise exactly the leftmost occurrence is replaced and the length changes by the length difference |
| JsSearch.AppendKeepsFirst | web/src/App.tsx:65 | inserting behind the first occurrence leaves it the first occurrence |
| JsSearch.AppendShiftsLater | web/src/App.tsx:65 | occurrences after the first one's end move one place right and stay intact |
| JsSplit.Split | web/src/App.tsx:47 | there is one piece more than there are separators (so `''` gives one piece) and no piece contains the separator |
| JsSplit.JoinSplit | web/src/App.tsx:47 | joining the pieces with the separator gives back the input: nothing is lost or reordered |
| JsSplit.SplitJoin | web/src/App.tsx:47 | splitting a join of separator-free pieces gives back those pieces |
| JsSplit.SplitCharacterised | web/src/App.tsx:47 | `split` returns a list exactly when that list is non-empty, separator-free and joins to the input |
| Extraction.FindMatch | web/src/App.tsx:36-37 | a reported span is the leftmost match of the pattern; no report means the pattern matches nowhere |
| Extraction.FindMatchIsLeftmost | web/src/App.tsx:36-37 | the index search reports `(i, j)` if and only if `(i, j)` is the leftmost match, and reports nothing if and only if there is no match |
| Extraction.Capture | web/src/App.tsx:36-40 | no match gives `''`; a match gives the trimmed text strictly between its delimiters; the result is trimmed, holds no closer and is a substring of the input |
| Extraction.CaptureOfParts | web/src/App.tsx:36-40 | in `pre + opener + inner + closer + post` with no opener in `pre` and no closer in `inner`, the capture is `trim(inner)` whatever `post` holds (so `inner` may hold openers) |
| Extraction.ExtractFunctionComponents | web/src/App.tsx:35-43 | `params` is `''` without a `(`...`)` match and otherwise the trimmed text between the first `(` and the first `)` after it; `body` the same for braces; both are trimmed substrings of the input without their closer |
| Parameters.Pieces | web/src/App.tsx:46-48 | one piece per comma-separated field, in order, each trimmed and comma free |
| Parameters.ProcessParameters | web/src/App.tsx:45-56 | exactly (number of commas + 1) values in field order; value `k` is the parse of trimmed field `k` when it parses and otherwise that trimmed text; kept texts are trimmed and comma free |
| Parameters.FieldsRoundTrip | web/src/App.tsx:46-48 | fields that are already trimmed and comma free, joined with commas, are seen again exactly, one value each |
| Parameters.EmptyTextYieldsOneValue | web/src/App.tsx:46-55 | the empty text gives one value, the empty text itself, because it does not parse |
| Parameters.BadLiteralKeptRaw | web/src/App.tsx:49-54 | for `2, {bad json` the bad literal is kept as its trimmed text next to the parsed number, with no failure |
| RunCode.FormatBody | web/src/App.tsx:65 | a body without `return` is unchanged; otherwise it is one longer, holds one more blank, and is the body with a blank inserted right after its first `return` |
| RunCode.FormatBodyInverse | web/src/App.tsx:65 | deleting the inserted blank gives back the original body |
| RunCode.FormatBodyKeepsFirst | web/src/App.tsx:65 | the first `return` stays where it was and is still the first |
| RunCode.LaterOccurrencesUntouched | web/src/App.tsx:65 | every later `return` survives intact, one position further on |
| RunCode.FormatBodyNotIdempotent | web/src/App.tsx:65 | rewriting twice adds two blanks: the rewrite does not check whether a blank is already there |
| RunCode.FormatBodySplitsIdentifier | web/src/App.tsx:65 | `return` inside a longer identifier is split too: `returned` becomes `return ed` |
| RunCode.PrepareRun | web/src/App.tsx:60-65 | without a braced region the body is empty; without a parenthesized region the declared parameters are the one empty text; one argument value per comma-separated field; the body holds no `}` |
| Scenarios.AddFunctionExtracted | web/src/App.tsx:35-43 | `function add(a, b) { return a + b; }` gives parameters `a, b` and body `return a + b;` |
| Scenarios.AddFunctionRun | web/src/App.tsx:58-65 | with arguments `2, 3` the call receives names `a`, `b` as text, the two parsed numbers, and the body `return  a + b;` |
| Scenarios.NoBracesRun | web/src/App.tsx:58-65 | `const x = 1;` gives empty parameter and body texts, so one empty declared parameter and an empty body |
| Scenarios.ParamsWithoutBody | web/src/App.tsx:36-40 | the two patterns are matched independently: `function f(x)` keeps the parameter text `x` and has an empty body |
| Scenarios.NestedParenthesesTruncate | web/src/App.tsx:36 | nested parentheses are not balanced: `function f(a = g(1), b) {}` gives the parameter text `a = g(1` |

## Left out

- `handleTranslate` (web/src/App.tsx:15-33): an HTTP POST to a local endpoint with a fixed fallback message on failure; network I/O.
- `new Function(...fnParams, fnBody)` and the call `func(...valueParams)` (web/src/App.tsx:66-74): dynamic evaluation of arbitrary JavaScript; the model stops at the arguments handed to it (`RunCode.PrepareRun`).
- `handleCopyToClipboard` (web/src/App.tsx:77-89): clipboard promise and a 3-second timer; platform I/O.
- React state (`useState` flags such as `isRunning`) and the JSX (web/src/App.tsx:5-13, 91-188): UI state.
- The internals of `JSON.parse`: a library function, kept abstract as the `parse` parameter.
- Parameters.ProcessParameters: a parsed value and a kept text are told apart by `Parsed`/`Raw`, whereas JavaScript yields plain values, so `JSON.parse('"x"')` and a kept text `x` are both the string `x` there.
- Strings are sequences of Unicode scalar values, not UTF-16 code units, so indices in `JsSearch`, `JsSplit` and `Extraction` count code points and lone surrogates cannot be represented. The results agree with JavaScript's: every character these operations look for (`,` `(` `)` `{` `}`, the letters of `return`, and every character `trim` removes) is a single UTF-16 unit outside the surrogate range.
- JsSearch.ReplaceFirst: `$` patterns in the replacement text are not interpreted; the only replacement used, `'return '`, contains none.
- Regular expressions in general: only the pattern shape "opener, run of non-closers, closer" used on lines 36-37 is modelled, by index search.
