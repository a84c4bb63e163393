# finchronicle-test: function extractor and storage mock

This repository is the test harness of a personal finance tracker. Its
own logic is in two places, and this project models both:

- `scripts/extract-functions.js` copies a fixed list of functions out of the
  application's `app.js` into a testable module. Its `extractFunction` finds
  the first header matching `function\s+NAME\s*\([^)]*\)\s*\{`. It then scans
  forward with a brace counter that starts at one, and returns the text from
  the header to the `}` that brings the counter to zero. It returns `null`
  when there is no header or when the code ends first. A loop runs it over
  the list, appends `export <text>` blocks, counts the successes, warns about
  each miss, and records `success` in the metadata.
- `tests/setup.js` installs an in-memory `localStorage`: a private key to
  string map with `getItem`, `setItem`, `removeItem` and `clear`. Its
  `getItem` returns `store[key] || null`, so a stored empty string reads back
  as `null`.

The finance logic that the tests exercise (CSV parsing, date normalisation,
category classification, month-over-month deltas) lives in
`../finance-tracker/app.js`, which the script reads
(`scripts/extract-functions.js:8`) and which is not part of this
repository. So the model follows the code that is present and leaves that
logic out.

Files and modules:

- `text.dfy` (`Text`): `Option` (its `None` stands for `null`) and the
  character classes. `IsSpace` is ECMAScript's `\s` set.
- `header_pattern.dfy` (`HeaderPattern`): the header pattern as a regular
  language (`Layout`, `HeaderAt`), the greedy matcher (`HeaderEnd`) and the
  leftmost search of `exec` (`FindHeader`).
- `brace_scan.dfy` (`BraceScan`): the brace-counting loop (`CloseFrom`). It
  is specified against `OpenDepth`, which is one plus the `{` minus the `}`
  read so far.
- `extractor.dfy` (`Extractor`): `ExtractFunction`, the per-name loop
  (`ExtractAll`) and the metadata (`RunExtraction`).
- `storage_mock.dfy` (`StorageMock`): the mock as pure functions over a
  `map<string, string>`, plus a trace semantics for sequences of calls.

## Model

| member | source | states |
|---|---|---|
| HeaderPattern.HeaderEnd | scripts/extract-functions.js:64 | The greedy matcher of the header pattern at one start index: a reported end lies past the keyword, which sits at the start, and closes on `{`; `HeaderEndIsMatch` shows it agrees with the pattern |
| HeaderPattern.HeaderEndIsMatch | scripts/extract-functions.js:64 | The greedy matcher reports end `e` at start `p` exactly when the pattern matches `code[p..e]`, for a name of word characters |
| HeaderPattern.HeaderEndSound | scripts/extract-functions.js:64 | Every end the matcher reports closes a text of the form `function`, white space, name, white space, `(`, non-`)` text, `)`, white space, `{` |
| HeaderPattern.HeaderEndComplete | scripts/extract-functions.js:64-65 | Every match of the pattern is found with its own end, so `match[0].length` is determined by the start index |
| HeaderPattern.LayoutIsGreedy | scripts/extract-functions.js:64 | In any match, each white-space run and the parameter text are maximal: the greedy repetitions cannot give back characters |
| HeaderPattern.FindHeader | scripts/extract-functions.js:65 | `exec`: the reported start lies in the text and the matcher succeeds there with the reported end; `FindHeaderIsFirst` shows it is the leftmost match |
| HeaderPattern.FindHeaderSkipsOnlyFailures | scripts/extract-functions.js:65 | The search passes over a start index only when no match begins there, and gives up only when none begins anywhere |
| HeaderPattern.FindHeaderIsFirst | scripts/extract-functions.js:65-67 | The search returns the leftmost match; it returns nothing exactly when the pattern matches nowhere |
| BraceScan.CloseFrom | scripts/extract-functions.js:73-77 | A scan that starts with braces open stops after consuming at least one character, and the last one is `}` |
| BraceScan.OpenDepthStep | scripts/extract-functions.js:74-76 | Each character read moves the count by +1 for `{`, -1 for `}` and 0 otherwise |
| BraceScan.CloseFromInvariant | scripts/extract-functions.js:69-83 | Loop invariant: while every count so far was positive, the scan ends at the closing point exactly when one exists, and fails exactly when the count never reaches zero |
| BraceScan.CloseFromSpec | scripts/extract-functions.js:69-77 | From just after the header's `{` with depth 1, the scan stops at the first point where the count is zero, and yields `None` exactly when the count stays positive to the end |
| BraceScan.ClosesAtBrace | scripts/extract-functions.js:73-80 | The closing point lies beyond the header end, and the character before it is the `}` that brought the count to zero |
| BraceScan.ClosesAtUnique | scripts/extract-functions.js:73 | There is only one closing point: the first place where the count reaches zero |
| BraceScan.CloseFromSeesOnlyBraces | scripts/extract-functions.js:73-77 | Two texts with braces in the same places scan to the same end: strings, comments and regex literals are not recognised |
| Extractor.ExtractFunction | scripts/extract-functions.js:63-84 | `extractFunction`; its contract is carried by `ExtractFound`, `ExtractUnclosed`, `ExtractNoHeader` and the converse `ExtractOutcomes` |
| Extractor.FirstHeaderUnique | scripts/extract-functions.js:65 | The first match (start and end) is unique |
| Extractor.FindHeaderAt | scripts/extract-functions.js:65 | When the first match is `code[p..e]`, the search reports exactly `(p, e)` |
| Extractor.ExtractFound | scripts/extract-functions.js:63-81 | With the first header at `code[p..e]` and the braces balancing at `k`, the result is exactly `code[p..k]` |
| Extractor.ExtractUnclosed | scripts/extract-functions.js:73-83 | With the first header found and the count still positive at the end of the code, the result is `null` |
| Extractor.ExtractNoHeader | scripts/extract-functions.js:64-67 | If the header occurs nowhere, the result is `null` |
| Extractor.ExtractOutcomes | scripts/extract-functions.js:63-84 | Conversely, every text result is `code[p..k]` for the first header and its shortest balanced close, and every `null` means no header or an unbalanced body |
| Extractor.ExtractIgnoresLaterDefinitions | scripts/extract-functions.js:64-65 | A definition is taken from the earliest header; later headers with the same name are never returned |
| Extractor.ExtractedShape | scripts/extract-functions.js:79-81 | An extracted text starts with `function`, ends with `}`, and is longer than the keyword |
| Extractor.Truthy | scripts/extract-functions.js:90 | The `if (extracted)` test: a non-null, non-empty string; `ExtractedIsTruthy` shows it coincides with non-null for every result |
| Extractor.ExtractedIsTruthy | scripts/extract-functions.js:89-90 | An extracted text is never empty, so the `if (extracted)` test is exactly the test for non-null |
| Extractor.FoundPlusMissing | scripts/extract-functions.js:87-96 | Every name is either exported or warned about: found plus missing equals the list length |
| Extractor.MissingEmptyIff | scripts/extract-functions.js:119 | No warnings exactly when every lookup succeeded |
| Extractor.ExtractAll | scripts/extract-functions.js:86-96 | The loop appends one `export` block per definition found, in list order; `extractedCount` is the number found; one warning per name not found |
| Extractor.AppVersion | scripts/extract-functions.js:17 | The captured version, or `unknown` when the version line is absent; `RunExtraction` records it in the metadata |
| Extractor.RunExtraction | scripts/extract-functions.js:114-132 | `extractedFunctions + warnings = totalFunctions`; `success` holds exactly when every name was found; the closing warning fires exactly when some name was not found; `appVersion` is the captured version or `unknown` |
| Extractor.FunctionNamesAreWords | scripts/extract-functions.js:21-38 | Every one of the fifteen names is non-empty and made of word characters, so the lemmas about the pattern apply to the script's own list |
| Extractor.ExtractionScript | scripts/extract-functions.js:21-38 | With the script's fifteen names, `success` holds exactly when all fifteen are found and no warning was issued |
| StorageMock.GetItem | tests/setup.js:7 | `getItem` gives a value only when the key is present with a non-empty string, and that string; it gives `null` for a missing key or a stored `""`; `GetAfterSet` and `GetMissingIsNull` build on it |
| StorageMock.SetItem | tests/setup.js:8-10 | `setItem` stores the value under its key and keeps every other key and value |
| StorageMock.RemoveItem | tests/setup.js:14-16 | `removeItem` deletes its key and keeps every other key and value |
| StorageMock.Clear | tests/setup.js:11-13 | `clear` leaves no key at all |
| StorageMock.GetMissingIsNull | tests/setup.js:7 | A key never set, or removed, reads as `null` |
| StorageMock.GetAfterSet | tests/setup.js:7-10 | Reading back a non-empty value gives it; reading back `""` gives `null`, because the fallback treats an empty string as missing |
| StorageMock.SetLeavesOthers | tests/setup.js:8-10 | `setItem` on one key never changes what another key reads |
| StorageMock.SetOverwrites | tests/setup.js:9 | A later `setItem` on a key replaces the earlier value |
| StorageMock.RemoveOnlyThatKey | tests/setup.js:14-16 | `removeItem` makes its key read `null`, leaves other keys alone, and is a no-op on an absent key |
| StorageMock.ClearEmpties | tests/setup.js:11-13 | After `clear` every key reads `null`; clearing twice equals clearing once |
| StorageMock.RunSnoc | tests/setup.js:4-18 | Running a sequence of calls and then one more equals applying that call to the result |
| StorageMock.RunIsLastWrite | tests/setup.js:4-18 | After any sequence of calls, a key is present exactly when its last write was a `setItem` (or no call touched a key that was there at the start), and it holds that value |
| StorageMock.GetAfterRun | tests/setup.js:7-16 | `getItem` after any sequence of calls returns the key's last written value, or `null` when that value is empty or the key was removed or cleared |
| StorageMock.BeforeEachIsolates | tests/setup.js:23-25 | Because each test starts with `clear`, a test's store does not depend on what earlier tests left behind |

## Left out

- The finance logic (CSV parser, date normaliser, category classifier, trend functions): its code is in `../finance-tracker/app.js` and the generated `src/app.js`, and neither is part of this model. The unit and end-to-end tests only check examples against that code. The backup-reminder functions are only in `app.js`: they are not among the extracted names, and `tests/unit/backup.test.js` recomputes the day arithmetic and the reminder condition inline instead of calling them.
- File reading and writing, `console` logging, the ISO timestamps, and the fixed header of the generated module, including the `localStorage` fallback text it appends (`scripts/extract-functions.js:11-13`, `:41-48`, `:98-111`, `:116`, `:121-132`). `ExtractAll` models only the `export` section.
- The lazy regex grabs of the `currencies` and `categories` object literals (`scripts/extract-functions.js:51-60`): plain text copying with no bearing on extraction.
- The version regex (`scripts/extract-functions.js:16`): `RunExtraction` takes its capture as an `Option<string>` parameter and models only the `'unknown'` fallback of line 17 (`AppVersion`).
- Function names that are not plain word characters: the script pastes the name into a regular expression unescaped, so a name containing regex syntax would change the pattern. The lemmas about the pattern require a non-empty name of ASCII letters, digits and `_`, which every listed name is (`FunctionNamesAreWords`).
- UTF-16: JavaScript indexes strings by UTF-16 code units (`match.index` and `i`), and the model indexes by Unicode characters (`p` and `k`). The scan and `[^)]*` read any character, but every character the code tests for (`{`, `}`, `(`, `)`, the `\s` set, the letters of the keyword and of the name) is in the Basic Multilingual Plane, and neither half of a surrogate pair equals one of them. So the same cut points are found and the extracted text is the same; only the index values differ.
- The `Date.now` stub, the `vi` helpers and the `beforeEach` hook itself (`tests/setup.js:1`, `:23-28`). The hook's effect is modelled as a `ClearAll` call at the start of each test's call sequence.
- JavaScript object quirks of the mock's plain-object store, such as keys like `toString` that read inherited properties, and non-string values passed to `setItem`, which are converted with `toString()`. Keys are ordinary strings and values are strings.
- The end-to-end and unit test files, `playwright.config.js` and `vitest.config.js`: browser automation, DOM selectors and configuration.
