# dymo-printer, modelled in Dafny

This project models the core of the `dymo-printer` badge printer. The printer reads
conference participants from a CSV file. It picks a DYMO label printer through the
local DYMO Web Service (`https://127.0.0.1:41951/DYMO/DLS`). It then prints one
badge per participant and counts the successes and failures.

The model has these modules:

- `Wrappers`: `Option` and `Result`.
- `JsText`: the JavaScript string operations the code relies on: `trim` with its
  exact white-space set, `toLowerCase` (ASCII letters only), and `includes`.
- `TagRegex`: the exact behaviour of `s.match(/<T>(.*?)<\/T>/g)`, of the same
  expression without `g`, and of `s.replace(/<\/?T>/g, '')`.
  - The lazy group stops at the first closing tag.
  - A match never crosses a line terminator.
  - The global scan takes the leftmost match and resumes at its end. Where a
    match fails, it retries one character later.
- `Types`: the records `Participant`, `PrinterInfo` and `PrinterStatus` of
  `src/types.ts`.
- `DymoApi`: the client of `src/dymo-api.ts`.
  - Each HTTPS round trip is an input value `HttpReply`: a response (status code
    and body), a request error, or a timeout.
  - What each operation resolves or rejects with is a pure function of that
    value.
  - `parsePrintersXML` and `parseStatusXML` are methods that build their result
    step by step, as the source does. Each is proved equal to a specification
    function (`PrintersFromXml`, `StatusFromXml`) whose properties are lemmas.
- `LabelTemplate`: `generateLabelXML`, meaning the role display and the DYMO
  `DieCutLabel` template with its two text slots.
- `BadgePrinter`: the class `DymoLabelPrinter` with the fields `participants` and
  `printerName`.
  - A ghost field `requests` logs the requests sent to the service. With it, the
    contracts can say what is queried and in what order.
  - The CSV stream arrives as a sequence of rows.
  - Each service call is answered by an `HttpReply` parameter.

The model follows the code in these places:

- `parsePrintersXML` pairs the i-th `<Name>` match with the i-th `<ModelName>`
  match by index. It does not read the XML printer by printer.
- `parsePrintersXML` never sets the `isConnected` field that `src/types.ts`
  declares. Every `PrinterInfo` it builds therefore has `isConnected == false`.
- The `try`/`catch` blocks around the parsers in `src/dymo-api.ts` cannot fire,
  because `match`, `replace`, `trim` and `toLowerCase` on a string do not throw.
  `getPrinters` and `getPrinterStatus` therefore resolve with the parse of any
  response body, whatever the status code.
- `isServiceAvailable` does not look at the status code either.

## Model

| member | source | states |
|---|---|---|
| JsText.Trim | src/dymo-api.ts:34 | the result of `trim` is empty or starts and ends with a non-white character, and is no longer than the input |
| JsText.TrimPadded | src/dymo-api.ts:34 | a trimmed core surrounded by any white space trims back to that core |
| JsText.TrimSplits | src/dymo-api.ts:34 | every string is a white prefix, then its trim, then a white suffix |
| JsText.TrimEmptyIff | src/dymo-api.ts:205 | a string trims to "" exactly when it is all white space |
| JsText.Lower | src/dymo-api.ts:198 | `toLowerCase` keeps the length; what it decides here is stated by `JsText.LowerIsTrueIff` and, for the role, by `BadgePrinter.KeptParticipantsNormalised` |
| JsText.LowerIsTrueIff | src/dymo-api.ts:198 | `s.toLowerCase() === 'true'` holds exactly when `s` spells "true" in any mix of cases |
| JsText.Includes | src/index.ts:207-208 | `includes` holds only when the searched text is no longer than the string; its use is specified by `BadgePrinter.FindLabelWriter` |
| TagRegex.CloseFrom | src/dymo-api.ts:89 | the lazy `(.*?)<\/T>` finds the first closing tag reachable without crossing a line terminator, and finds none exactly when none is reachable |
| TagRegex.MatchAt | src/dymo-api.ts:89 | the expression matches at an index exactly when an opening tag stands there and a closing tag follows on the same line |
| TagRegex.FirstMatch | src/dymo-api.ts:193-195 | the match without `g` is the leftmost one, and there is none exactly when the expression matches nowhere |
| TagRegex.AllMatches | src/dymo-api.ts:89-90 | every match of the `g` scan is a real match at its start, and the matches are in order and do not overlap |
| TagRegex.AllMatchesCover | src/dymo-api.ts:89-90 | the `g` scan misses nothing: every index where the expression matches lies inside one of the matches found |
| TagRegex.FirstIsHeadOfAll | src/dymo-api.ts:193 | the match without `g` is the first element of the `g` result, and it is absent exactly when that result is `null` |
| TagRegex.Content | src/dymo-api.ts:193-195 | the group of a match contains no line terminator and no closing tag |
| TagRegex.Text | src/dymo-api.ts:89 | an element of the `g` result is the opening tag, the group and the closing tag |
| TagRegex.MatchTexts | src/dymo-api.ts:89-90 | the `g` result has one element per match of the scan; each element is described by `TagRegex.Text` and `TagRegex.StripTagOfMatchText` |
| TagRegex.FirstContent | src/dymo-api.ts:193-195 | `match(...)` without `g` gives `null` exactly when the expression matches nowhere |
| TagRegex.StripTag | src/dymo-api.ts:94-95 | the single-pass `replace(/<\/?T>/g, '')` never lengthens its input; its effect is specified by the `StripTag…` lemmas below |
| TagRegex.StripTagAppend | src/dymo-api.ts:94 | removing the tags of a concatenation removes them piecewise when the second part starts a new tag |
| TagRegex.StripTagPlain | src/dymo-api.ts:94 | removing the tags leaves a text without `<` unchanged |
| TagRegex.StripTagOfMatch | src/dymo-api.ts:94 | removing the tags from a matched `<T>…</T>` gives the group with its own nested tags removed |
| TagRegex.NoMatchWithoutBracket | src/dymo-api.ts:193-195 | a text without `<` matches nowhere |
| TagRegex.StripTagOfMatchText | src/dymo-api.ts:94 | the i-th element of the `g` result, with its tags removed, is the i-th group with its nested tags removed |
| DymoApi.ServiceAvailable | src/dymo-api.ts:34-45 | `isServiceAvailable` resolves true only on a response with a body of at least four characters; the exact condition is `DymoApi.ServiceAvailableIff` |
| DymoApi.ServiceAvailableIff | src/dymo-api.ts:29-45 | `isServiceAvailable` resolves true exactly when the service answered (any status code) with "true" padded by white space; request errors and timeouts resolve false |
| DymoApi.ServiceAvailableCaseSensitive | src/dymo-api.ts:34 | the comparison is case-sensitive: a body "TRUE" gives false |
| DymoApi.PrintOutcome | src/dymo-api.ts:126-142 | `printLabel` of the client resolves exactly on a 200 response; any other status rejects with the status code and the raw body; a request error and a timeout reject with their messages |
| DymoApi.PrintOutcomeOf200 | src/dymo-api.ts:130-131 | on a 200 the print result is the availability test on the same body: true exactly for "true" padded by white space, a plain false for any other body |
| DymoApi.PrintForm | src/dymo-api.ts:107-111 | the POST form has exactly the fields `printerName`, `labelXml` and an empty `labelSetXml`, in that order |
| DymoApi.PrintFormIgnoresCopies | src/dymo-api.ts:105-111 | the `copies` argument has no effect on what is posted |
| DymoApi.PrinterRecords | src/dymo-api.ts:93-98 | one record per Name match, none of them connected; each record is described by `DymoApi.PrinterFromMatches` |
| DymoApi.PrintersFromXml | src/dymo-api.ts:87-102 | the printers are none or one per Name match, and none is connected; `DymoApi.PrinterCount`, `DymoApi.PrinterName` and `DymoApi.PrinterModel` pin them down |
| DymoApi.ParsePrintersXML | src/dymo-api.ts:87-102 | the method that collects both match arrays and pushes the records returns exactly `PrintersFromXml` of its input |
| DymoApi.PushPrinters | src/dymo-api.ts:93-98 | the `for` loop pushes, for each Name match in order, the record zipped with the ModelName match at the same index |
| DymoApi.PrinterCount | src/dymo-api.ts:88-101 | with no ModelName match there are no printers, even when Name matches exist; otherwise there is exactly one printer per Name match |
| DymoApi.PrinterFromMatches | src/dymo-api.ts:93-97 | printer i comes from the i-th Name match and the i-th ModelName match, or "" when there is none, each with its tags removed; `isConnected` is false |
| DymoApi.PrinterName | src/dymo-api.ts:89-94 | printer i's name is the group of the i-th Name match with every `<Name>`/`</Name>` inside it removed; a group without `<` is kept as it is |
| DymoApi.PrinterModel | src/dymo-api.ts:90-95 | printer i's model is the i-th ModelName group with its tags removed, or "" when there are fewer ModelName than Name matches; surplus models are ignored |
| DymoApi.StatusFromXml | src/dymo-api.ts:185-213 | `connected` and `ready` are true exactly when the first group of their tag, lower-cased, is "true"; `error` is the untrimmed first ErrorText group exactly when that group is not all white space, and null otherwise |
| DymoApi.ParseStatusXML | src/dymo-api.ts:185-213 | the method that starts from the defaults and updates the fields one by one returns exactly `StatusFromXml` of its input |
| DymoApi.StatusDefaultsWithoutTags | src/dymo-api.ts:186-190 | a reply with no tags at all gives the defaults: not connected, not ready, no error |
| DymoApi.BlankErrorTextIsNull | src/dymo-api.ts:205-207 | an ErrorText made only of white space leaves `error` null |
| DymoApi.GetPrintersOutcome | src/dymo-api.ts:52-84 | `getPrinters` resolves with the parse of any response body, whatever the status code; a request error and a timeout reject with their messages |
| DymoApi.PrinterStatusOutcome | src/dymo-api.ts:150-182 | `getPrinterStatus` resolves with the parse of any response body; a request error and a timeout reject with their messages |
| LabelTemplate.RoleDisplay | src/index.ts:49-63 | 'speaker' gives SPEAKER, 'mc' gives MC, 'organisateur' gives ORGANISATEUR, and every other role gives PARTICIPANT, each as an if-and-only-if |
| LabelTemplate.FullName | src/index.ts:47 | the full name is `prenom`, one space, then `nom` |
| LabelTemplate.LabelXml | src/index.ts:45-123 | the label starts with the fixed template head whatever the participant; where the two texts stand is `LabelTemplate.LabelSlots` |
| LabelTemplate.LabelSlots | src/index.ts:45-123 | the label holds `<String>`, `prenom + " " + nom` and `</String>` at the fixed offset just after the template head, and `<String>`, the role display and `</String>` at the fixed offset after the template's middle text, verbatim and unescaped; since the name is not escaped, it may itself contain `<String>` or `</String>` |
| LabelTemplate.FillSlots | src/index.ts:87-113 | in any template of that shape, both texts stand between a `<String>` and a `</String>` at the computed offsets |
| LabelTemplate.LabelInjective | src/index.ts:45-123 | two participants get the same label exactly when they have the same full name and the same role display |
| BadgePrinter.Normalize | src/index.ts:26-30 | a kept row gives trimmed `nom` and `prenom`, and a trimmed role that is no longer than the cell |
| BadgePrinter.KeptParticipants | src/index.ts:23-32 | the participants are at most as many as the rows; the filter is pinned down by `BadgePrinter.KeptParticipantsOne` and `BadgePrinter.KeptParticipantsAppend` |
| BadgePrinter.KeptParticipantsAppend | src/index.ts:23-32 | rows are filtered one at a time: the result for a concatenation is the concatenation of the results, so input order is kept |
| BadgePrinter.KeptParticipantsOne | src/index.ts:25-30 | a row is kept exactly when `nom`, `prenom` and `role` are all present and non-empty before trimming; it then gives the trimmed fields and the lower-cased trimmed role |
| BadgePrinter.BlankCellBecomesEmpty | src/index.ts:25-29 | a row whose three cells are present and non-empty passes the `row.nom && row.prenom && row.role` test even when a cell is white space only, and each such cell is read as "" (the role after trimming and lower-casing) |
| BadgePrinter.KeptParticipantsNormalised | src/index.ts:26-30 | every participant read has trimmed fields and a role without capital letters |
| BadgePrinter.IsLabelWriter | src/index.ts:207-208 | a name can only be a LabelWriter's when it is at least as long as "dymo labelwriter"; the search is `BadgePrinter.FindLabelWriter` |
| BadgePrinter.FindLabelWriter | src/index.ts:207-209 | `printers.find` returns the first printer whose lower-cased name contains "dymo labelwriter", and nothing exactly when no printer's name does |
| BadgePrinter.PrintSucceeded | src/index.ts:142-155 | success needs a 200 response; the exact condition is `BadgePrinter.PrintSucceededIff` |
| BadgePrinter.PrintSucceededIff | src/index.ts:142-155 | the badge printer's `printLabel` reports success exactly on a 200 response whose body is "true" padded by white space; every rejection is swallowed as false |
| BadgePrinter.Successes | src/index.ts:165-171 | the successes are at most as many as the replies; `BadgePrinter.SuccessesAppend` and `BadgePrinter.DymoLabelPrinter.PrintAllLabels` tie them to the loop |
| BadgePrinter.SuccessesAppend | src/index.ts:165-171 | successes add up over consecutive runs of replies |
| BadgePrinter.PrintRequests | src/index.ts:165-166 | one print request per participant, the k-th for the k-th participant |
| BadgePrinter.DymoLabelPrinter.constructor | src/index.ts:7-14 | a new printer has no participants, the printer name "DYMO LabelWriter 550", and has sent nothing |
| BadgePrinter.DymoLabelPrinter.ReadCsvRows | src/index.ts:17-42 | after the stream ends, `participants` and the resolved value are exactly the kept, normalised rows in input order |
| BadgePrinter.DymoLabelPrinter.CheckPrinter | src/index.ts:184-230 | an unavailable service gives false without querying the printers; a failed printer query gives false; with a LabelWriter the result is true and `printerName` is unchanged; without one, `printerName` becomes the first printer's name and the result is true if the list is non-empty, and the result is false with `printerName` unchanged if it is empty |
| BadgePrinter.DymoLabelPrinter.PrintLabel | src/index.ts:127-156 | sends one print request to the current printer and returns the API's boolean, or false on any rejection; it never fails |
| BadgePrinter.DymoLabelPrinter.PrintAllLabels | src/index.ts:159-181 | each participant is sent exactly once, in order, whatever the outcomes; `successCount` is the number of successful prints and `successCount + errorCount` is the number of participants |

## Left out

- The HTTPS transport is not modelled: the request, the agent that accepts
  self-signed certificates, the 5000 ms timeout, `req.destroy` and the promise and
  event plumbing. Each round trip is an `HttpReply` input; `TimedOut` stands for
  the timeout event.
- `querystring.stringify` and `encodeURIComponent` are library encoders.
  `DymoApi.PrintForm` gives the form as its list of field pairs, not as the
  URL-encoded body. The status path of `getPrinterStatus` is not built.
- The file system is not modelled: the `csv-parser` stream (its header mapping
  and quoting), the stream's `error` event, and the `generated-labels` file that
  `printLabel` writes. If writing that file fails, the source's `printLabel`
  returns false before sending anything. The model does not cover that path.
- The 500 ms pause between prints is left out. It only affects timing.
- All console output is left out, and so is `main()`.
- The `participantsList` getter is left out. It only returns the field.
- JsText.Lower: lower-cases ASCII A–Z only. Other Unicode letters are kept as
  they are, whereas `toLowerCase` would map them.
- Strings are sequences of characters. UTF-16 surrogate pairs and code-unit
  lengths are not modelled.
- BadgePrinter.DymoLabelPrinter.PrintLabel: the request log records the printer
  name and the participant, not the posted form. The form that request stands for
  is `PrintForm(printerName, LabelXml(participant), 1)`. The method does not build
  it, because the solver cannot afford the 4 KB template inside the loop proofs.
- LabelTemplate.LabelInjective: stated for any template text around the two
  slots, the DieCutLabel text of `LabelXml` being one instance. A statement on the
  literal text itself is beyond the solver's budget.
- DymoApi.StatusDefaultsWithoutTags: proved only for replies that contain no `<`
  at all. The stronger statement would be "no complete tag of the three kinds".
