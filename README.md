# Tolerant JSON recovery of tallos-decrypt, in Dafny

tallos-decrypt is a small Node.js service. It decrypts a JWE payload holding
a list of chat messages and parses the resulting text as JSON. The text often
arrives damaged: raw line breaks inside string literals, stray control
characters, doubled or trailing commas. So `index.js` does not stop at one
`JSON.parse`. It repairs the text through a chain of `replace` calls and
tries the parse again, several times. This project models that recovery
logic and proves what each repair does:

- `cleanJsonString`;
- `extractValidJson`, with its literal-repairing regular expression;
- the five strategies of `tryParseJson` and its first-success loop;
- the three-stage parse cascade of `/decrypt`, with its emergency cleanup
  and failure report;
- the message sanitiser that cleans the `text` and `caption` fields;
- the clamped diagnostic windows of `/debug-error-position`.

The model rests on these choices:

- Strings are JavaScript strings: sequences of UTF-16 code units
  (`JsCore.CodeUnit`).
- Every global `replace` is a left-to-right scan over non-overlapping
  matches:
  - a one-unit pattern is `FlatMap` with a unit mapper;
  - `/\r\n/g` is `Repair.EscapeCrLfPairs`;
  - `[class]+` is `CollapseRuns`;
  - `x\s*y` is `FixSeparators`;
  - the string-literal pattern is `LiteralEnd` and `RepairLiterals`.
- `substring` clamps its arguments and then swaps them (`JsCore.Substring`).
- `\s` and `trim()` use the WhiteSpace and LineTerminator sets of ECMA-262.
- The `.` of a regular expression does not match a line terminator.
- `JSON.parse` is a parameter, `parse: Parser`, so every result holds for
  every parser. Where a property needs real JSON, a concrete decoder of one
  string literal (section 7 of RFC 8259, `JsonValues.DecodeStringLiteral`)
  stands in. The hypothesis `ParsesStringLiterals(parse)` says that the
  parser agrees with that decoder.

Modules, in dependency order:

- `JsCore` (`js_core.dfy`): code units, character classes, `indexOf`,
  `lastIndexOf`, `substring`, the scanners, `trim`.
- `JsonValues` (`json_values.dfy`): JSON values and the string-literal
  decoder.
- `Repair` (`repair.dfy`): the text repairs.
- `Sanitizer` (`sanitizer.dfy`): the in-place message sanitiser.
- `Diagnostics` (`diagnostics.dfy`): the failure report, the error context,
  the character analysis and `Number.prototype.toString(radix)`.
- `Recovery` (`recovery.dfy`): `tryParseJson`, the `/decrypt` cascade and
  its answer.

`tryParseJson` has five strategies, and the cascade of `/decrypt` is a
separate chain of three stages; no route calls `tryParseJson`.

Two behaviours of the code are easy to expect otherwise:

- A raw line break inside a string literal does not survive the second
  stage of `/decrypt`. That stage is `extractValidJson` (index.js:171),
  which removes every control unit from a literal's content: the literal
  `"h` LF `w"` comes back as `"hw"` (`Repair.RepairedLiteralDecodes`).
- A quotation mark that opens no well-formed literal is copied alone, and
  the search of `extractValidJson` goes on from the next unit, so the
  following quotation mark opens a literal instead and the pairing of the
  marks shifts by one (`Repair.RepairLiteralsUnmatched`). In `"a\` LF
  `b"x` LF `y"` the backslash before the first line feed ends the first
  attempt, and it is the literal `x` LF `y` that loses its line feed:
  the text comes back as `"a\` LF `b"xy"` (`Repair.QuotePairingShifts`).

## Model

| member | source | states |
|---|---|---|
| JsCore.IndexOf | index.js:64 | the result is -1 exactly when the unit is absent; otherwise it holds the unit and no earlier position does |
| JsCore.LastIndexOf | index.js:65 | the result is -1 exactly when the unit is absent; otherwise it holds the unit and no later position does |
| JsCore.LastIndexOfBound | index.js:65 | every occurrence lies at or before the last index |
| JsCore.Substring | index.js:72 | the result is the slice between the two bounds clamped into [0, len], taken in swapped order when the first bound is the larger; for in-range bounds that is the plain slice either way |
| JsCore.RemoveControls | index.js:79 | definition; its properties are proved in `JsCore.RemoveControlsClean` and `JsCore.RemoveControlsOfClean` |
| JsCore.RemoveControlsClean | index.js:79 | after the control-removing replace, no unit of 0x00-0x1F or 0x7F-0x9F is left |
| JsCore.RemoveControlsOfClean | index.js:79 | a text without control units is left unchanged |
| JsCore.CollapseRuns | index.js:98 | definition; its properties are proved in `JsCore.CollapseRunsStep`, `JsCore.CollapseRunsKeep`, `JsCore.CollapseRunsRemoves`, `JsCore.CollapseRunsIdentity` and `Repair.LayoutBodyDecodes` |
| JsCore.CollapseRunsStep | index.js:98 | inside a run of the class the scan stays in the run; the replacement is emitted once, where the run ends |
| JsCore.CollapseRunsKeep | index.js:98 | a unit outside the class is copied, and the scan goes on after it |
| JsCore.CollapseRunsRemoves | index.js:98 | replacing each run of a class by text outside the class leaves no unit of the class |
| JsCore.CollapseRunsIdentity | index.js:98 | a text without units of the class is left unchanged |
| JsCore.Trim | index.js:238-240 | the result is a slice of the text with only space units before and after it; a non-empty result starts and ends with a non-space unit; the result is empty exactly when every unit is space |
| JsCore.TrimIdempotent | index.js:238-240 | trimming twice is trimming once |
| JsCore.TrimKeepsClean | index.js:238-240 | trimming brings back no unit of a class the text lacked |
| Repair.EscapeCrLfPairs | index.js:47 | definition; its properties are proved in `Repair.CleanJsonStringIsOnePass` |
| Repair.UnitPasses | index.js:48-53 | definition; its properties are proved in `Repair.UnitPassesSingle` and `Repair.CleanJsonStringIsOnePass` |
| Repair.CleanJsonString | index.js:42-59 | definition; its properties are proved in `Repair.CleanJsonStringIsOnePass`, `Repair.CleanJsonStringHasNoControls` and `Repair.CleanJsonStringOfClean` |
| Repair.UnitPassesSingle | index.js:48-53 | on a single unit, the four one-unit replaces turn LF and CR into `\n` and TAB into `\t`, drop any other control unit, and keep every other unit |
| Repair.CleanJsonStringIsOnePass | index.js:42-59 | the five replaces of cleanJsonString equal one left-to-right pass: a CR LF pair, a lone LF and a lone CR each become `\n`, TAB becomes `\t`, other control units are dropped, every other unit is kept in order |
| Repair.CleanJsonStringHasNoControls | index.js:47-53 | no unit of 0x00-0x1F or 0x7F-0x9F survives cleanJsonString |
| Repair.CleanJsonStringOfClean | index.js:42-59 | a text without control units passes through cleanJsonString unchanged |
| Repair.LiteralEnd | index.js:76 | a closing position it finds lies inside the text, at or after the body's start; its meaning is proved in `Repair.LiteralEndMatches` |
| Repair.RepairLiteralContent | index.js:78-82 | definition; its properties are proved in `Repair.RepairedLiteralDecodes` |
| Repair.RepairLiterals | index.js:76-83 | definition; its properties are proved in `Repair.RepairLiteralsCopy`, `Repair.RepairLiteralsAt`, `Repair.RepairLiteralsUnmatched`, `Repair.RepairLiteralsNoQuote` and `Repair.QuotePairingShifts` |
| Repair.LiteralEndMatches | index.js:76 | the scan stops at position j exactly when j holds a quotation mark and the units between form a body of the regex group `[^"\\]*(\\.[^"\\]*)*`, where `.` excludes line terminators |
| Repair.ExtractValidJson | index.js:62-86 | it fails, with "No JSON array found in decrypted data", exactly when the text lacks `[` or `]`; otherwise the result is the literal repair of the text from the first `[` to the last `]`, or of the swapped slice when that `]` comes first |
| Repair.SwappedWindowHasNoBrackets | index.js:72 | when the last `]` precedes the first `[`, the swapped slice holds no bracket at all |
| Repair.RepairLiteralsCopy | index.js:76 | text without a quotation mark is copied unchanged, and the scan goes on after it |
| Repair.RepairLiteralsNoQuote | index.js:76 | a text without quotation marks comes out of the literal repair unchanged |
| Repair.RepairLiteralsUnmatched | index.js:76 | a quotation mark followed by no well-formed body and closing mark is copied alone, and the scan goes on from the next unit |
| Repair.QuotePairingShifts | index.js:76-83 | for units a, b other than `"` and `\`, and x, y that are also not controls: in `"a\` LF `b"x` LF `y"` the first mark opens no literal, the second opens `x` LF `y`, and the text comes back as `"a\` LF `b"xy"` |
| Repair.RepairLiteralsAt | index.js:76-83 | a well-formed literal is replaced by its content with controls removed, then backslashes doubled, then quotation marks escaped, between quotation marks; the scan goes on after its closing mark |
| Repair.EscapeChain | index.js:80-81 | doubling backslashes and then escaping quotation marks is one pass that escapes both |
| Repair.RepairedLiteralDecodes | index.js:78-82 | every repaired literal is a valid JSON string under section 7 of RFC 8259, and its value is the raw content with control units removed |
| Repair.NewlinesToSpace | index.js:98 | definition; its properties are proved in `Repair.NewlinesToSpaceSpec` |
| Repair.NewlinesToSpaceSpec | index.js:98 | strategy 3 leaves no CR or LF; a text without them is unchanged |
| Repair.EscapeAsStringBody | index.js:102-106 | definition; its properties are proved in `Repair.LayoutBodyDecodes` and `Repair.StringDocumentRoundTrip` |
| Repair.StringDocument | index.js:107 | definition; its properties are proved in `Repair.StringDocumentRoundTrip` |
| Repair.LayoutBodyDecodes | index.js:102-106 | the escaped body of strategy 4 decodes, as the rest of a JSON string, exactly when the input's only units below 0x20 are CR, LF and TAB; it then yields the input with each CR/LF run collapsed to one LF and each tab run to one TAB |
| Repair.StringDocumentRoundTrip | index.js:101-107 | the document that strategy 4 builds decodes as a JSON string exactly when the input has no unit below 0x20 other than CR, LF and TAB; its value is then the input with CR/LF runs collapsed to LF and tab runs to TAB |
| Repair.EmergencyClean | index.js:180-185 | definition; its properties are proved in `Repair.EmergencyCleanSimplifies` and `Recovery.EmergencyCleanKeepsOut` |
| Repair.EmergencyCleanSimplifies | index.js:180-185 | the first emergency replace keeps the length and leaves no control unit, so the LF, CR and TAB replaces change nothing; the cleanup is the space replacement followed by backslash doubling |
| Repair.BracketMatchFrom | index.js:188 | definition; its properties are proved in `Repair.BracketMatchSpec` |
| Repair.BracketMatchSpec | index.js:188 | /\[[\s\S]*\]/ matches exactly when some `]` follows the first `[`; the match spans from the first `[` to the last `]` |
| Repair.FixSeparators | index.js:192-194 | definition; its properties are proved in `Repair.FixSeparatorsAt`, `Repair.FixSeparatorsUnmatched`, `Repair.FixSeparatorsCopy`, `Repair.FixSeparatorsDeletes` and `Repair.TripleCommaLeavesTwo` |
| Repair.FixCommas | index.js:191-194 | definition; its properties are proved in `Repair.FixCommasDeletes` and `Repair.CommaFixesTogether`, and each of its three passes in `Repair.FixSeparatorsAt`, `Repair.FixSeparatorsUnmatched` and `Repair.FixSeparatorsCopy` |
| Repair.EmergencyText | index.js:187-200 | definition; its properties are proved in `Recovery.EmergencyNeedsBrackets` |
| Repair.FixSeparatorsDeletes | index.js:192-194 | each comma fix only deletes commas and space units; every other unit survives, in order |
| Repair.FixSeparatorsAt | index.js:192-194 | an x, a run of space units and a y that is not a space unit are replaced by keep, and the search goes on after the y |
| Repair.FixSeparatorsUnmatched | index.js:192-194 | an x whose run of space units is followed by a unit other than y, or by nothing, is copied alone, and the search goes on from the next unit |
| Repair.FixSeparatorsCopy | index.js:192-194 | text without an x is copied unchanged, and the search goes on after it |
| Repair.CommaFixesTogether | index.js:191-194 | for a unit v that is no comma, bracket or space unit, the three fixes turn `[,v, ]` into `[v]`: the comma after `[` goes, and so does the comma before `]` with its space |
| Repair.FixCommasDeletes | index.js:191-194 | the three comma fixes together only delete commas and space units |
| Repair.TripleCommaLeavesTwo | index.js:192 | a single non-overlapping pass of `,\s*,` turns `,,,` into `,,` |
| Recovery.ExtractThenParse | index.js:111-114 | definition; its properties are proved in `Recovery.TryParseFailure` and `Recovery.CascadeWithoutBrackets` |
| Recovery.Strategy | index.js:90-115 | definition; its properties are proved in `Recovery.TryParseJson`, `Recovery.StringStrategyRecovers` and `Recovery.CascadeSharesStrategies` |
| Recovery.FirstSuccessFrom | index.js:117-130 | definition; its properties are proved in `Recovery.FirstSuccessIsFirst`; `Recovery.TryParseJson` is proved to return it |
| Recovery.TryParseJson | index.js:89-131 | it returns the result of the first strategy that does not throw; every strategy before that one threw, and no later one is evaluated; it throws only when all five do, and then with the fifth's error; a direct parse that succeeds is returned as it is |
| Recovery.FirstSuccessIsFirst | index.js:117-130 | the first-success result succeeds exactly when some remaining strategy succeeds; when it fails, it is the last strategy's error |
| Recovery.StringStrategyRecovers | index.js:101-108 | for a parser that decodes string literals as RFC 8259 prescribes, strategy 4 succeeds on every text whose only controls below 0x20 are CR, LF and TAB, yielding the text with its layout runs collapsed |
| Recovery.TryParseRecoversLayoutText | index.js:89-131 | for such a parser and such a text, tryParseJson never throws; when strategies 1 to 3 throw, it returns the text as a JSON string |
| Recovery.TryParseFailure | index.js:111-130 | what tryParseJson throws is the error of extractValidJson followed by the parse; without `[` or `]` that is "No JSON array found in decrypted data" |
| Recovery.Stage | index.js:161-200 | definition; its properties are proved in `Recovery.DecryptCascade`, `Recovery.CascadeSharesStrategies` and `Recovery.CascadeWithoutBrackets` |
| Recovery.DecryptCascade | index.js:161-225 | the value comes from the first stage that succeeds, and the stages before it failed; total failure reports the direct parse's error message, never that of the later stages |
| Recovery.CascadeSharesStrategies | index.js:163-173 | the cascade's first two stages are strategies 1 and 5 of tryParseJson |
| Recovery.EmergencyCleanKeepsOut | index.js:180-185 | the emergency cleanup introduces no `[` or `]` |
| Recovery.EmergencyNeedsBrackets | index.js:180-200 | without a `[` or without a `]` in the data, the emergency stage fails with "No JSON array found" |
| Recovery.CascadeWithoutBrackets | index.js:161-222 | without both brackets, stages 2 and 3 fail with their own errors; if the direct parse fails, the cascade reports the direct parse's message |
| Recovery.EmptyPayloadReport | index.js:205-222 | an empty payload that the parser rejects is reported with an empty sample and no character code |
| Recovery.Decrypt | index.js:161-262 | on total failure the answer is the cascade's report; on success, an array comes back sanitised with count equal to its length, and any other value comes back unchanged with count 0 |
| Sanitizer.CleanText | index.js:238-240 | the cleaned field has no control unit and starts and ends with a non-space unit |
| Sanitizer.CleanTextIdempotent | index.js:238-245 | cleaning a cleaned text changes nothing |
| Sanitizer.CleanField | index.js:237-246 | the field names stay the same; the named field is cleaned when it holds a non-empty string and kept otherwise; every other field is unchanged |
| Sanitizer.SanitizeMessage | index.js:234-249 | definition; its properties are proved in `Sanitizer.SanitizeMessageSpec` and `Sanitizer.SanitizeMessageIdempotent` |
| Sanitizer.SanitizeMessageSpec | index.js:234-249 | a non-object element is unchanged; in an object, the names stay, `text` and `caption` holding non-empty strings are cleaned, and every other field is unchanged |
| Sanitizer.SanitizeMessageIdempotent | index.js:234-249 | sanitising a message twice is sanitising it once |
| Sanitizer.Sanitized | index.js:234-249 | the sanitised list has as many elements as the parsed one |
| Sanitizer.SanitizedIdempotent | index.js:234-249 | sanitising the list twice is sanitising it once |
| Sanitizer.SanitizeInPlace | index.js:234-249 | after the loop, each slot of the array holds its own element, sanitised, in the same order |
| Sanitizer.ProcessMessages | index.js:230-261 | an array is sanitised element by element and counted by its length; any other value is returned unchanged with count 0 |
| Diagnostics.DecryptFailureReport | index.js:205-220 | the report carries the given message and position 6801; the sample is empty when the text has at most 6701 units and is otherwise `data[6701 .. min(len, 6901))`; a character code exists exactly when 6801 < len and is then the unit at 6801 |
| Diagnostics.ErrorContext | index.js:333-343 | `before` is `data[max(0,p-200) .. min(p,len))`; `at` is the unit at p when p lies inside the text and is empty otherwise; `after` runs from p+1 to min(len, p+200); `at` and `after` are empty whenever p ≥ len |
| Diagnostics.ErrorContextTiles | index.js:339-343 | for a position inside the text, before, at and after concatenate to the window around it, with no gap or overlap |
| Diagnostics.ShowUnit | index.js:354 | a printable ASCII unit is shown as itself; any other unit is shown as its decimal code between brackets: every unit between the brackets is a decimal digit, and the digits read back as the code |
| Diagnostics.ToRadix | index.js:354-356 | `n.toString(b)` writes at least one unit, and every unit is a digit of base b; its value is proved in `Diagnostics.ToRadixRoundTrip` |
| Diagnostics.HexOf | index.js:356 | definition; its properties are proved in `Diagnostics.HexRoundTrip` |
| Diagnostics.ToRadixRoundTrip | index.js:354-356 | `n.toString(b)` denotes n in base b |
| Diagnostics.ToRadixNoLeadingZero | index.js:354-356 | `n.toString(b)` of a positive n has no leading zero |
| Diagnostics.HexRoundTrip | index.js:356 | the hex field is `0x` followed by hexadecimal digits that read back as the code, with no leading zero unless the code is 0 |
| Diagnostics.EntryAt | index.js:349-357 | definition; its properties are proved in `Diagnostics.EntryAtFields` |
| Diagnostics.EntryAtFields | index.js:349-357 | each entry records its position and the code at it; its type is `control` exactly below 32, `extended` exactly above 126 and `normal` otherwise; its char field is the unit itself when printable and otherwise the decimal digits of the code between brackets; its hex field is `0x` followed by hexadecimal digits of the code |
| Diagnostics.Window | index.js:348-360 | n entries; entry k is the entry of position lo + k |
| Diagnostics.Analysis | index.js:348-360 | the character analysis lists exactly the positions from max(0, p-10) below min(len, p+10), in ascending order, each with the entry of its position; there are at most 20 |
| Diagnostics.AnalyzeCharacters | index.js:348-360 | the loop, which starts at p-10, skips negative positions and stops at p+10 or at the end of the text, produces exactly that analysis |
| Diagnostics.DebugErrorPosition | index.js:325-364 | the answer has the text's length and the position (6801 when the request gives none), the context, the character analysis, and the pattern from p-50 to p+50 clamped into the text |

## Left out

- The HTTP service is not modelled: routes, CORS, the body limit, request validation, status codes, `async`/`await` and `app.listen` (index.js:1-39, 134-160, 379-388). It is plumbing around the string logic.
- `jose.importJWK`, `jose.compactDecrypt` and `TextDecoder` are not modelled. The model starts from the decoded text.
- The internals of `JSON.parse` are not modelled. It is the parameter `parse`; only the RFC 8259 string-literal decoder is concrete. JSON numbers are reals.
- Every `console.log` and `console.error` is left out. They change no state. The code unit at position 6801, which `/decrypt` only logs (index.js:211-214), appears as the report field `problemCode`.
- The constant strings of the answers (`error`, `suggestion`, `success: true`) are left out of `FailureReport`, `Response` and `PositionAnalysis`.
- The `/debug-decrypt` route (index.js:279-318) is not modelled. Its `firstChars`, `lastChars` and `charCodes` dump is debug output only.
- Diagnostics.DebugErrorPosition: `errorPosition` is taken as an integer. Other JSON values the request body could give (a string, a fraction) are not modelled.
- Sanitizer.SanitizeInPlace: the `map` callback assigns `text` and `caption` on the parsed objects themselves. The model replaces each array slot by the sanitised value instead. It does not capture object identity, or the aliasing between `messages` and `cleanedMessages`. `JSON.parse` creates no shared objects, so the two cannot be told apart afterwards.
- An object is a map from names to values, so the order of its members, which the serialised answer `res.json` shows, is not modelled. No recovery step depends on it.
- Recovery.TryParseJson: no route calls `tryParseJson`. It is modelled and proved as written. Its log lines only appear in the count `tried` of the strategies it evaluated.
