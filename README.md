# Stream-chunk decoder of the code-review chat front end

The chat front end receives a streamed reply as text fragments. A fragment is
a run of records separated by newline characters. Each record starts with a
one-character tag:

- `0:"…"` records carry an escaped piece of the reply text;
- `f:`, `e:` and `d:` records carry message ids, the finish reason and token
  usage.

`processCodeReviewStreamData` turns one fragment into reply text. It splits
the fragment on `'\n'` and keeps the lines that start with `0:"`. From each
kept line it drops the first three characters and the last one. It then
rewrites `\n`, `\"` and `\\`, in that order, each by a global left-to-right
replace, and appends the result. Any exception is caught and answered with the
empty string.

The project has four modules:

- `Sequences` (`sequences.dfy`) holds small facts about sequence concatenation
  and slicing used by the proofs.
- `JsString` (`js_string.dfy`) models the JavaScript string builtins the decoder
  calls. `Split` is `split` on a one-character separator, with `Join` as its
  inverse. `StartsWith` is `startsWith`. `Slice` is `slice`, with JavaScript's
  negative and clamped indices. `ReplaceAll` is `replace` with a global
  two-character pattern and a one-character replacement.
- `StreamDecoder` (`stream_decoder.dfy`) holds the decoder and its
  specification.
  - `ProcessCodeReviewStreamData` is the decoder as a method whose loop
    appends to `result`. It is proved equal to the function `Decode`.
  - `Decode` is the pure specification: split, decode each line with
    `RecordText`, and concatenate.
  - The lemmas prove the properties of `Decode` listed in the table below.
  - `EscapeText` is the escaping that the three replacements undo. It is the
    decoder's partner for the round-trip lemmas.
- `DecoderScenarios` (`decoder_scenarios.dfy`) checks concrete fragments:
  - the example response in the decoder's doc comment;
  - the escape cases that depend on the replacement order;
  - the edge cases of the `0:"` test and of the slice.

The try/catch is modelled by the input type `JsValue`. A string is decoded. A
value without a string `split` method (`undefined`, `null`, a number, a byte
array) makes the body throw, and the catch returns `""`. For a string the body
cannot throw, so `Decode` is total.

The replacements are not JSON unescaping (section 7 of RFC 8259). Only the
three escapes are rewritten, and their order is significant: the raw text
backslash-backslash-`n` comes back as a backslash and a newline. The model
follows the code here.

The catch-all only fires when the body throws, and on a string it never does:
a line that is too short or lacks its closing quote is still sliced, not
rejected.

## Model

| member | source | states |
|---|---|---|
| StreamDecoder.ProcessCodeReviewStreamData | src/utils.js:13-31 | a non-string input gives `""` (the catch-all); for a string the loop's result equals `Decode` of it, i.e. the in-order concatenation of what each line contributes |
| StreamDecoder.Payload | src/utils.js:19 | `slice(3, -1)`: for a line of at least four characters, the characters from index 3 up to but excluding the last one; for a shorter line, or exactly `0:"`, the empty string |
| StreamDecoder.Unescape | src/utils.js:19-22 | the three replacements in order; the unescaped payload is never longer than the payload |
| StreamDecoder.UnescapeLeavesPlainText | src/utils.js:20-22 | a payload without a backslash is returned unchanged |
| StreamDecoder.UnescapeAppend | src/utils.js:20-22 | unescaping splits at any boundary that does not follow a backslash |
| StreamDecoder.UnescapeNewlineEscape | src/utils.js:20 | an escaped newline alone decodes to one newline |
| StreamDecoder.UnescapeQuoteEscape | src/utils.js:21 | an escaped quote alone decodes to one quote |
| StreamDecoder.UnescapeNewlineBetween | src/utils.js:20 | an escaped newline between two backslash-free runs becomes one newline |
| StreamDecoder.UnescapeQuoteBetween | src/utils.js:21 | an escaped quote between two backslash-free runs becomes one quote |
| StreamDecoder.QuotedRecord | src/utils.js:18-19 | marker + p + closing quote is a text record whose payload is exactly p |
| StreamDecoder.DecodeQuotedLine | src/utils.js:15-23 | such a line, with no newline in p, decodes on its own to the unescaped p |
| StreamDecoder.DecodeDistributes | src/utils.js:15-25 | decode(a + newline + b) == decode(a) + decode(b) for all a, b |
| StreamDecoder.DecodeJoin | src/utils.js:15-25 | newline-joined lines decode to the concatenation of each line's contribution, in order |
| StreamDecoder.DecodeSingleLine | src/utils.js:17-24 | a one-line fragment decodes to its unescaped payload if it starts with `0:"`, and to nothing otherwise |
| StreamDecoder.OtherLineContributesNothing | src/utils.js:18 | a line not starting with `0:"` (an `f:`, `e:`, `d:` record or garbage) adds nothing, before or after any other text |
| StreamDecoder.TextRecords | src/utils.js:17-18 | the kept lines all start with `0:"` and come from the input, and every input line that starts with `0:"` is kept |
| StreamDecoder.TextRecordsAppend | src/utils.js:17-18 | keeping the records commutes with concatenation, so the kept lines stay in input order |
| StreamDecoder.OnlyTextRecordsContribute | src/utils.js:17-24 | dropping every line that does not start with `0:"` leaves the result unchanged |
| StreamDecoder.DecodeEmpty | src/utils.js:16-26 | the result is empty exactly when no line contributes text; a fragment with no `0:"` line gives `""` |
| StreamDecoder.DecodeEmptyFragment | src/utils.js:15-26 | the empty fragment gives `""` |
| StreamDecoder.RecordTextNoLonger | src/utils.js:18-22 | a line contributes at most its own length, and a record at most its length minus four |
| StreamDecoder.DecodeLinesNoLonger | src/utils.js:17-25 | decoded lines are never longer than the lines joined by newlines |
| StreamDecoder.DecodeNoLonger | src/utils.js:15-26 | the decoded text is never longer than the fragment |
| StreamDecoder.EscapeText | src/utils.js:20-22 | the escaping the replacements undo (backslash, quote, newline); its output has no newline and is at least as long as its input |
| StreamDecoder.RestoreNewlines | src/utils.js:20 | the first replacement restores exactly the escaped newlines of escaped text with no backslash before an `n` |
| StreamDecoder.RestoreQuotes | src/utils.js:21 | the second replacement restores exactly the escaped quotes |
| StreamDecoder.RestoreBackslashes | src/utils.js:22 | the third replacement halves every doubled backslash |
| StreamDecoder.UnescapeEscapeText | src/utils.js:19-22 | round trip: unescaping escaped text gives the text back, when no backslash in it is followed by `n` |
| StreamDecoder.UnescapeEscapeTextFailsOnBackslashN | src/utils.js:20-22 | the restriction is needed: the text backslash-`n` is escaped as backslash-backslash-`n` and comes back as backslash-newline |
| StreamDecoder.TextRecordDecodes | src/utils.js:18-22 | the record written for a text with no backslash before an `n` is one `0:"` line that contributes exactly that text |
| StreamDecoder.RecordLines | src/utils.js:17-18 | one record per text, in order |
| StreamDecoder.DecodeRecordLines | src/utils.js:17-25 | the records written for a sequence of texts, none with a backslash before an `n`, decode to the texts, concatenated |
| StreamDecoder.DecodeEncodeTexts | src/utils.js:13-26 | round trip over a whole fragment: the fragment written for a sequence of texts, none with a backslash before an `n`, decodes to their concatenation |
| JsString.Split | src/utils.js:15 | `split('\n')`: at least one piece, no piece holds the separator, and joining the pieces gives the input back |
| JsString.SplitJoin | src/utils.js:15 | splitting undoes joining for pieces without the separator |
| JsString.SplitWithoutSeparator | src/utils.js:15 | a string without the separator splits into itself alone |
| JsString.SplitAppend | src/utils.js:15 | the pieces of a + sep + b are the pieces of a followed by the pieces of b |
| JsString.SliceIndex | src/utils.js:19 | `slice`'s index rule: a position in range is kept, a negative one counts from the end, and the result is clamped to the string |
| JsString.ReplaceAll | src/utils.js:20-22 | a global two-character replace never lengthens the string |
| JsString.ReplaceAllWithoutMatch | src/utils.js:20-22 | a string without an occurrence of the pattern is unchanged |
| JsString.ReplaceAllAppend | src/utils.js:20-22 | the two sides of a boundary that does not follow the pattern's first character are replaced independently |
| JsString.ReplaceAllLast | src/utils.js:20-22 | the last character survives the scan unless a match turned it into the replacement |
| DecoderScenarios.EscapedBackslashBeforeN | src/utils.js:20-22 | backslash, backslash, `n` decodes to backslash + newline (newline replacement first) |
| DecoderScenarios.EscapedBackslashBeforeQuote | src/utils.js:21-22 | backslash, backslash, quote decodes to backslash + quote |
| DecoderScenarios.EscapedNewline | src/utils.js:19-20 | `0:"a\nb"` decodes to a, newline, b |
| DecoderScenarios.EscapedQuote | src/utils.js:19-21 | `0:"a\"b"` decodes to a, quote, b |
| DecoderScenarios.MarkerOnly | src/utils.js:18-19 | the line `0:"` decodes to the empty string |
| DecoderScenarios.UnterminatedRecord | src/utils.js:19 | `0:"abc` decodes to `ab`: the last character is dropped whether or not it is a quote |
| DecoderScenarios.ShortLine | src/utils.js:18 | `0:` is not a record and decodes to nothing |
| DecoderScenarios.GarbageSkipped | src/utils.js:17-24 | a garbage line before a record is skipped |
| DecoderScenarios.NotARecord | src/utils.js:18 | a line whose first character is not `0` is no record |
| DecoderScenarios.ExampleLineTexts | src/utils.js:2-11 | in the doc-comment example the `f:`, `e:` and `d:` lines contribute nothing and each `0:"` line contributes its unescaped payload |
| DecoderScenarios.DocCommentExample | src/utils.js:2-11 | the doc-comment example decodes to the concatenation of its six unescaped payloads |
| DecoderScenarios.ExampleOpeningUnchanged | src/utils.js:4 | the example's first payload has no escape and is returned unchanged |
| DecoderScenarios.ExampleSecondUnchanged | src/utils.js:5 | the example's second payload has no escape and is returned unchanged |
| DecoderScenarios.ExampleThirdUnescaped | src/utils.js:6 | the example's third payload comes back with its two escaped newlines turned into real newlines |

## Left out

- `sleep` (src/utils.js:33-34) is a timer promise with no logic to state.
- The `console.error` call in the catch block (src/utils.js:28) is a side effect; only the `""` it returns is modelled.
- src/App.js and src/components/markdown/index.jsx are UI, network and rendering code; they are not part of this model.
- Values without a string `split` method (`undefined`, `null`, a number, a byte array) are collapsed into one `NonText` case, since each of them fails at the `split` call the same way. An object with its own `split` method (a `String` wrapper, say) is not modelled.
- Characters are one Dafny `char` per Unicode scalar value, where JavaScript counts UTF-16 code units. The model does not capture a `slice` that cuts a surrogate pair: for a line ending in an astral character the model drops the whole character where JavaScript keeps half of it.
- No buffering of a record split across two fragments: the code keeps no state between calls, and neither does the model.
- The `f:`, `e:` and `d:` metadata records are not parsed: the code discards them.
- StreamDecoder.UnescapeEscapeText: the round trip is stated only for texts in which no backslash is followed by `n`, because the code's replacement order breaks it otherwise (shown by `UnescapeEscapeTextFailsOnBackslashN`); escapes beyond backslash, quote and newline are not undone by the code and are not modelled.
- No result type separates "no text" from "malformed fragment": the code returns `""` for both.
