# Identity-document field extraction, modelled in Dafny

The repository runs two small web services that take the OCR text of a photographed
identity document and show the document's fields on an HTML page.

* `app1.js` extracts the fields itself. It applies one regular expression per field
  (`extractDetailsFromText`). For each, it keeps the trimmed first capture group of the
  leftmost match, or `''` (`extractPattern`). It then renders nine rows, each one
  `value || 'N/A'`.
* `app.js` asks a language model instead. It builds an instruction that ends with the OCR
  text. It removes at most one Markdown fence from the reply. If `JSON.parse` accepts the result,
  it shows eight keys of it, each `value || 'N/A'`, then the stripped reply (unless the
  result is `null` or a value throws while being shown, see below). Otherwise it sends the
  stripped reply alone.

Both services are pure once the OCR engine and the model call are taken as inputs. The
model is therefore made of datatypes, functions and lemmas.

* `wrappers.dfy` (`Wrappers`): the `Option` type both extractors use.
* `jstext.dfy` (`JsText`): the ECMAScript pieces the code relies on.
  * WhiteSpace and LineTerminator, from sections 12.2 and 12.3 of ECMA-262.
  * The ASCII class `\d`.
  * `String.prototype.trim`.
* `resultpage.dfy` (`ResultPage`): a page row, and `s || 'N/A'` on strings.
* `labelextractor.dfy` (`LabelExtractor`): `app1.js`.
  * The three regular-expression shapes are modelled as scanners (`CaptureAt`), with a
    leftmost search (`Search`).
  * Each scanner is linked, by lemmas in both directions, to a separate predicate stating
    its regular-expression meaning: the lazy `(.+?)(?=\n|$)` (`LineGroupEndsAt`), the fixed
    date `(\d{2}\/\d{2}\/\d{4})` (`DateGroupAt`) and the greedy `(\d+)` (`DigitGroupEndsAt`).
* `modelreply.dfy` (`ModelReply`): `app.js`.
  * The instruction.
  * `replace(/^```json\n|\n```$/, '')`, which removes the first match only.
  * A JSON value type with JavaScript truthiness and string conversion.
  * The `try`/`catch` that chooses between the page and the stripped reply.

`JSON.parse` is a parameter of type `string -> ParseResult`. `JSON.parse` only ever
returns a JSON value, so a `null` result is possible: `null["Full Name"]` then throws a
`TypeError` inside the `try`, and the stripped reply is sent. The parsed value itself is
never turned into text; only the values under the eight keys are. One of those throws when
it is truthy and is an object with its own `toString` member, or an array holding such an
object at any depth. The stripped reply is then sent as well.

Where the program's own text says one thing and its code does another, the model follows
the code:

* The comments at `app.js:69` and `app.js:71` say that the Markdown fence around the JSON
  (```` ```json ```` … ```` ``` ````) is removed. The expression removes only the first
  match, so a reply fenced on both sides reaches `JSON.parse` with its closing `\n` and
  three backticks still attached. See `FullyFencedKeepsClosingFence` and
  `FencedReplyParsedWithClosingFence`.
* The instruction at `app.js:58` asks for the date of birth as MM/DD/YYYY. The label
  extractor's pattern at `app1.js:82` accepts any `DD/DD/DDDD` of ASCII digits, including
  month 13 or day 00.

Two consequences of the patterns are easy to miss:

* Labels are matched case-sensitively. A line such as `Date of Birth: 07/04/1990` fills the
  field only if no earlier occurrence of the label is followed by a value its pattern
  accepts: `DD/DD/DDDD` for the date; a digit for the postal code; for a line field, at
  least one character and then `\n` or the end, with no `\r` before it. An earlier
  occurrence followed by anything else is passed over (`DateExampleLaterOccurrence`).
* On the `app1.js` page, a row reads `N/A` exactly when its field is `''` only for the
  date-of-birth and postal-code rows. A line field whose value is literally `N/A` also
  reads `N/A`. So does the "Full Text" row when the whole OCR text is `N/A`.

## Model

| member | source | states |
|---|---|---|
| JsText.TrimStart | app1.js:97 | The result is a suffix of the input; every character dropped is white space or a line terminator; the result does not start with one. |
| JsText.TrimEnd | app1.js:97 | The result is a prefix of the input; every character dropped is white space or a line terminator; the result does not end with one. |
| JsText.Trim | app1.js:97 | `trim`: the result is a slice of the input with only trimmable characters around it, and it neither starts nor ends with a trimmable character. |
| JsText.TrimKeepsTrimmed | app1.js:97 | A string with non-trimmable ends is returned unchanged by `trim`. |
| JsText.TrimIdempotent | app1.js:97 | Trimming twice equals trimming once. |
| JsText.TrimAllTrimmable | app1.js:97 | A string made only of white space and line terminators trims to `''`. |
| JsText.TrimKeepsNoTerminator | app1.js:97 | Trimming a string with no line terminator leaves it with none. |
| JsText.DigitNotTrimmable | app1.js:82 | An ASCII digit is neither white space nor a line terminator. |
| ResultPage.OrNA | app1.js:59-67 | `s \|\| 'N/A'`: a non-empty string is shown as it is, and `''` as `N/A`; the shown text is never empty. |
| ResultPage.OrNAShowsNA | app1.js:59-67 | A row reads `N/A` exactly when its value is `''` or is itself `N/A`. |
| LabelExtractor.LineEnd | app1.js:81 | From the start of a value, `.` reaches the first line terminator or the end; every character passed over is not a line terminator. |
| LabelExtractor.DigitRunEnd | app1.js:87 | From the start of a value, `\d+` reaches the end of the longest run of ASCII digits. |
| LabelExtractor.CaptureAt | app1.js:81-88 | What one pattern matches at position `i`: a match needs the label there, and its capture is non-empty and starts right after the label. |
| LabelExtractor.Search | app1.js:96 | `String.prototype.match` without `g`: the match found is the leftmost at or after the start position, and `None` means no position matches. |
| LabelExtractor.ExtractPattern | app1.js:95-98 | `extractPattern`: when the pattern matches nowhere the result is `''`. When the leftmost match starts at `i`, the result is that match's capture group, trimmed. |
| LabelExtractor.ExtractDetails | app1.js:79-92 | `extractDetailsFromText` returns all nine fields for every text. `issueDate` is the text itself. The date of birth is `''` or shaped `DD/DD/DDDD`. The postal code is `''` or a run of ASCII digits. The six line fields hold no line terminator and have no white space at either end. |
| LabelExtractor.LineGroupEndUnique | app1.js:81 | For a given start, the lazy `(.+?)(?=\n\|$)` can end at one position only. |
| LabelExtractor.LineCaptureIsRegexMatch | app1.js:81 | What the line scanner captures is a match of `<label>(.+?)(?=\n\|$)`: at least one non-line-terminator character, then `\n` or the end. |
| LabelExtractor.RegexMatchIsLineCapture | app1.js:81 | Conversely, every such regular-expression match is exactly what the line scanner captures. |
| LabelExtractor.DigitCaptureIsRegexMatch | app1.js:87 | The digit scanner matches at `i` exactly when the label occurs there with an ASCII digit right after it. |
| LabelExtractor.RegexMatchIsDigitCapture | app1.js:87 | Every greedy `(\d+)` match after the label is what the digit scanner captures. |
| LabelExtractor.DateCaptureIsRegexMatch | app1.js:82 | Where the date scanner matches, the label is there and `(\d{2}\/\d{2}\/\d{4})` matches the ten characters it captures. |
| LabelExtractor.RegexMatchIsDateCapture | app1.js:82 | Conversely, where the label is followed by a match of the date group, the date scanner captures exactly those ten characters. |
| LabelExtractor.DateShapeTrimmed | app1.js:82 | A `DD/DD/DDDD` string is unchanged by `trim`. |
| LabelExtractor.DigitsTrimmed | app1.js:87 | A run of digits is unchanged by `trim`. |
| LabelExtractor.LineValueShape | app1.js:81 | A line field never contains a line terminator, and it never starts or ends with white space. |
| LabelExtractor.LineCaptureNoTerminator | app1.js:81 | The raw capture of a line pattern contains no line terminator. |
| LabelExtractor.DateValueShape | app1.js:82 | The date of birth is either `''` or ten characters shaped `DD/DD/DDDD` with ASCII digits. |
| LabelExtractor.DigitsValueShape | app1.js:87 | The postal code is either `''` or a non-empty run of ASCII digits. |
| LabelExtractor.LineCaptureAtOccurrence | app1.js:81 | After an occurrence of a line label, a value with no line terminator followed by `\n` or the end is captured exactly. |
| LabelExtractor.LineValueFromFirstMatch | app1.js:81-88 | At an occurrence of the case-sensitive label with no match before it, a value with no line terminator followed by `\n` or the end gives the trimmed value. |
| LabelExtractor.BlankValueFromFirstMatch | app1.js:97 | If the first matching occurrence of a line label is followed only by white space up to the end of the line, the field is `''`. |
| LabelExtractor.EmptyLineSkipped | app1.js:81 | A label followed directly by `\n` does not match at that occurrence. |
| LabelExtractor.CarriageReturnLineSkipped | app1.js:81 | A label whose line ends with `\r\n` does not match at that occurrence. |
| LabelExtractor.DateValueFromFirstMatch | app1.js:82 | At an occurrence of the date label with no match before it, a `DD/DD/DDDD` that follows is the field, whatever comes after it. |
| LabelExtractor.DigitsCaptureAtOccurrence | app1.js:87 | After an occurrence of the postal-code label, a digit run followed by a non-digit or the end is captured exactly. |
| LabelExtractor.DigitsValueFromFirstMatch | app1.js:87 | At an occurrence of the postal-code label with no match before it, the maximal digit run that follows is the field. |
| LabelExtractor.DateExampleExtraDigit | app1.js:82 | `Date of Birth: 07/04/19901` gives `07/04/1990`. |
| LabelExtractor.PincodeExampleTrailingLetters | app1.js:87 | `Pincode/Zip: 94107abc` gives `94107`. |
| LabelExtractor.DateExampleLaterOccurrence | app1.js:82 | In `Date of Birth: x\nDate of Birth: 07/04/1990` the first occurrence is not followed by a date, so the field is the later `07/04/1990`. |
| LabelExtractor.LabelOnlyAtStart | app1.js:82-87 | A label ending in a space does not occur later in `label + tail` when `tail` has no space. |
| LabelExtractor.DateExampleNotADate | app1.js:82 | `Date of Birth: notadate` gives `''`. |
| LabelExtractor.PincodeExampleLetters | app1.js:87 | `Pincode/Zip: abc` gives `''`. |
| LabelExtractor.DetailRows | app1.js:59-67 | The page has nine rows with the source's captions, in the source's order. A row shows its field or `N/A`. It shows `N/A` exactly when the field is `''` or is itself `N/A`. |
| LabelExtractor.DetailRowsShow | app1.js:60-65 | Fields shaped as their patterns allow are never `N/A`, so the date-of-birth and postal-code rows read `N/A` exactly when the field is `''`. |
| LabelExtractor.PatternPage | app1.js:59-67 | On the page for an OCR text, the date-of-birth and postal-code rows read `N/A` exactly when nothing was found. The "Full Text" row shows the whole OCR text, or `N/A` when it is empty. |
| ModelReply.Prompt | app.js:56-61 | The instruction is the fixed template followed by the OCR text, verbatim and as its suffix. |
| ModelReply.PromptInjective | app.js:56-61 | The instruction depends on the OCR text alone: equal instructions come from equal texts. |
| ModelReply.FenceAt | app.js:71 | A match of `/^```json\n\|\n```$/` at position `i` fits inside the reply. An 8-character match is ```` ```json\n ```` at position 0. A 4-character match is `\n` plus three backticks that end the reply. There is no match exactly when neither applies. |
| ModelReply.FirstFence | app.js:71 | The fence match found is the leftmost position where `^```json\n` or `\n```$` matches, and it fits inside the reply; `None` means neither matches anywhere. |
| ModelReply.FirstFenceCases | app.js:71 | A leading ```` ```json\n ```` is the first match. Failing that, a trailing `\n` plus three backticks is. Otherwise nothing matches. |
| ModelReply.FirstFenceIsClosing | app.js:71 | Without a leading ```` ```json\n ````, a closing fence at the end is the leftmost match from any earlier position. |
| ModelReply.NoFenceAnywhere | app.js:71 | With neither fence, the pattern matches nowhere. |
| ModelReply.StripFence | app.js:71 | `replace` without `g`: a leading ```` ```json\n ```` loses exactly its 8 characters. Failing that, a trailing `\n` plus three backticks loses exactly 4. Otherwise the reply is unchanged. |
| ModelReply.StripFenceBounds | app.js:71 | The stripped reply is a prefix or a suffix of the reply, and 0, 4 or 8 characters shorter. |
| ModelReply.UnfencedReplyUnchanged | app.js:71 | A reply that neither starts nor ends with a backtick is left unchanged. |
| ModelReply.FullyFencedKeepsClosingFence | app.js:71 | A reply fenced on both sides keeps its closing fence. |
| ModelReply.Truthy | app.js:89-96 | A parsed value is falsy for `\|\|` exactly when it is `null`, `false`, `0` or `''`. |
| ModelReply.Lookup | app.js:89-96 | For the eight keys read, none of which is an array index or a built-in property, `v[key]` is the object's own member under `key` if there is one, and `undefined` otherwise. |
| ModelReply.ToJsString | app.js:89-96 | Turning a value into text throws exactly when it is, or holds in an array, an object with its own `toString`. A string is shown as it is. |
| ModelReply.JoinItems | app.js:89-96 | Joining an array's elements throws exactly when one of the elements throws. |
| ModelReply.ShownValue | app.js:89-96 | `v[key] \|\| 'N/A'`: a missing or falsy member shows `N/A`. A truthy member throws exactly when turning it into text throws. A string member shows `s \|\| 'N/A'`. |
| ModelReply.ShownNumber | app.js:89-96 | A number other than zero is shown as its numeral. |
| ModelReply.ShownBoolean | app.js:89-96 | `true` is shown as `true`, and `false` as `N/A`. |
| ModelReply.ShownPlainObject | app.js:89-96 | An object without its own `toString` is shown as `[object Object]`. |
| ModelReply.CommaJoinedFront | app.js:89-96 | Comma-joining from the front equals comma-joining from the back. |
| ModelReply.ShownStringArray | app.js:89-96 | An array of strings is shown as those strings joined with commas, and an empty array as `''`. |
| ModelReply.ShownRows | app.js:89-96 | There are rows exactly when no key's value throws while being shown. There is then one per key, and row `k` is key `k` with its shown value. |
| ModelReply.Respond | app.js:74-107 | The `try`/`catch`: a parse error or a `null` result sends the stripped reply as it is. Either way the stripped reply reaches the user, alone or as the ninth row, "Full Text". |
| ModelReply.ParsedValuePage | app.js:74-97 | A parsed value gives the page exactly when it is not `null` and none of the eight values throws. Row `k` then shows key `k`'s value or `N/A`, and row 9 shows the stripped reply. |
| ModelReply.ShownRowsAgree | app.js:89-96 | Two values that agree on every key read give equal rows. |
| ModelReply.UnknownKeysIgnored | app.js:89-96 | Two objects that agree on the eight keys give the same response. |
| ModelReply.IssueDateNeverShown | app.js:89-96 | "Issue Date" is not one of the keys read, and its value changes nothing in the response. |
| ModelReply.FullNameOnlyExample | app.js:89-97 | `{"Full Name": "Jane Doe"}` shows `Jane Doe`, then `N/A` seven times, then the stripped reply. |
| ModelReply.FullNameOnlyRows | app.js:89-97 | Any object whose only member among the eight keys is a non-empty full name `n` shows `n`, then `N/A` seven times, then the stripped reply. |
| ModelReply.OnlyFullNamePresent | app.js:89-96 | Of the eight keys, only "Full Name" is a member of `{"Full Name": "Jane Doe"}`. |
| ModelReply.HandleReply | app.js:70-107 | When `JSON.parse` rejects the stripped reply, the stripped reply is sent and nothing is raised. Either way the stripped reply reaches the user. |
| ModelReply.PlainReplyComesBackVerbatim | app.js:71-107 | Every reply with neither fence that `JSON.parse` rejects comes back exactly as the model wrote it. |
| ModelReply.PlainReplyExample | app.js:71-107 | The unfenced reply `I could not read this document`, rejected by `JSON.parse`, comes back verbatim. |
| ModelReply.FencedReplyParsedWithClosingFence | app.js:71-75 | A reply fenced on both sides is parsed, and shown, with its closing fence still attached. |

## Left out

- The Express server, routing, `app.listen`, multer's disk storage and its `Date.now()` file names: server plumbing, file I/O and the clock.
- `Tesseract.recognize`: an external OCR engine. Its output is an arbitrary input string.
- The language-model call, the `openai` client, `dotenv` and the API key: a network call. The model's reply is an arbitrary input string, and the message list around the instruction is not modelled.
- A rejected OCR or model call: the handlers do not treat it inside the code modelled here.
- `JSON.parse` internals: a library call. Its result is a parameter. The model therefore cannot show that the body followed by a closing fence fails to parse; `FencedReplyParsedWithClosingFence` states only what is handed to `JSON.parse`.
- JSON numbers are carried as the text JavaScript's `ToString` gives them. Number formatting is not modelled, and nothing stops a `JNumber` from holding a text no number prints as (`""`, `"-0"`, `"1.0"`); the model says nothing meaningful about such values.
- HTML templating, the missing HTML escaping, `res.send` and `console.log`: presentation and side effects. A row is its caption and its shown text, not markup. The captions are kept without the colon each one has inside `<strong>` (`Full Name:` at `app1.js:59` and `app.js:89`, and so on). The `app.js` "Full Text: " caption's trailing space before `</strong>` is dropped in the same way.
- JavaScript strings are sequences of UTF-16 code units, while Dafny strings are sequences of Unicode scalar values. Lone surrogates cannot be represented. A supplementary character counts as one character here, which changes no capture, since none of the patterns inspects such characters.
- Case-insensitive labels, real issue-date extraction, removal of both fences, timeouts and retries: the code does none of these.
