# Typewriter chat client: streaming core

This project models, in Dafny, the streaming core of the browser chat client
in `public/chat.js`:

- **The server-sent-events framer** `consumeSseEvents` (module `SseFramer`).
  It strips carriage returns, cuts the accumulated buffer into records at
  each blank line, and turns every record into at most one event: its
  `data:` lines, with the prefix and the whitespace after it removed, joined
  with newlines. It hands back the unconsumed tail as the next buffer. The
  loop is an imperative method, `ConsumeSseEvents`. It is proved to return
  exactly what the specification function `Consume` describes.
- **Payload decoding** (module `Payload`). The `[DONE]` sentinel is checked
  first. Otherwise the payload is parsed, and the content is picked with
  `json.response ?? json.choices?.[0]?.delta?.content ?? ''`. A `null`
  parse result or a parse failure is caught and skipped. The truthiness test
  and the string conversion of `responseText += content` are modelled too.
- **The send/receive state machine** `sendMessage` (module `Chat`).
  - The read loop is the method `ReadStream`, which uses `DecodeBatch` for
    the inner `for`. It is proved equal to the function `StreamText`.
  - The module-level state (`chatHistory`, `isProcessing`) is the class
    `Session`. `Submit` models the part before the first `await`. `Receive`
    models the request, the read loop and the `finally`. `Send` is both,
    run back to back.

`JsText` holds the pieces of JavaScript string behaviour these depend on:
the ECMAScript whitespace set of `trim`/`trimStart`, and `startsWith`.

The main proved properties:

- **Framer output.** The framer's tail never holds a carriage return or a
  blank line. Its events are never empty. The records it cuts, each followed
  by `"\n\n"`, and then the tail give back the input, minus carriage returns.
- **Reassembly.** Feeding chunks one at a time, threading the buffer as the
  read loop does, yields the events and the tail of framing the whole text at
  once.
- **`[DONE]` and malformed payloads.** `[DONE]` ends only the batch it
  arrives in. A malformed payload is skipped.
- **No final flush.** An unterminated stream yields no text.
- **Session guard.** The guard ignores empty messages and messages sent while
  a request is in flight. The flag is cleared on every path. The history gains
  the user's turn and, only on a finished non-empty reply, the assistant's.

Three behaviours of the code worth noting:

- There is no final flush of the buffer when the reader reports `done`, so
  an unterminated trailing record is lost.
- `[DONE]` leaves only the inner `for`. The read loop goes on, and the events
  of later chunks are still processed.
- An empty-string `response` is taken as the content, an empty fragment. It
  does not fall through to `choices`.

The framer also departs from the event-stream format of the WHATWG HTML
Living Standard (section 9.2, server-sent events), and the
model follows the code there too:

- All whitespace after `data:` is removed, not just one space.
- Fields other than `data` are ignored.
- A record yields an event exactly when its joined data is non-empty.

## Model

| member | source | states |
|---|---|---|
| JsText.TrimStart | public/chat.js:222 | the result is a suffix of the input, everything removed is ECMAScript whitespace, and the result does not start with whitespace |
| JsText.TrimEnd | public/chat.js:51 | the result is a prefix of the input, everything removed is whitespace, and the result does not end with whitespace |
| JsText.Trim | public/chat.js:51-52 | the trimmed message is an infix of the input with only whitespace cut off at both ends; it is empty exactly when every character of the input is whitespace; otherwise neither of its ends is whitespace |
| SseFramer.StripCR | public/chat.js:213 | the result holds no carriage return |
| SseFramer.StripCRLength | public/chat.js:213 | the result is shorter than the input by exactly the number of carriage returns in it |
| SseFramer.StripCRAppend | public/chat.js:213 | removing carriage returns distributes over concatenation, so it can be done chunk by chunk |
| SseFramer.StripCRIdentity | public/chat.js:213 | a text without carriage returns is left unchanged |
| SseFramer.IndexOfDelimiter | public/chat.js:215 | -1 exactly when the text holds no `"\n\n"`; otherwise the first position where it starts |
| SseFramer.SplitRecords | public/chat.js:215-217 | every record cut is well formed (no blank line inside, no trailing newline) and the tail holds no `"\n\n"` |
| SseFramer.SplitRecordsReassembles | public/chat.js:213-217 | nothing is lost or duplicated: the records, each followed by `"\n\n"`, then the tail give back the text |
| SseFramer.SplitRecordsOfGlue | public/chat.js:215-217 | conversely, well-formed records glued in front of a tail without `"\n\n"` are cut back into exactly those records and that tail |
| SseFramer.SplitLines | public/chat.js:219 | `split('\n')` gives at least one line and no line holds a newline |
| SseFramer.JoinLines | public/chat.js:223 | `join('\n')` gives the empty string only for no parts or a single empty part |
| SseFramer.JoinSplitLines | public/chat.js:219-223 | joining the split lines with newlines gives the record back |
| SseFramer.IsDataLine | public/chat.js:221 | a line is a `data:` line exactly when its first five characters are `data:` |
| SseFramer.DataValue | public/chat.js:222 | the value is a suffix of the line after `data:`, everything between the prefix and the value is whitespace, and the value does not start with whitespace |
| SseFramer.DataValues | public/chat.js:220-222 | at most one value per line, and none exactly when no line starts with `data:` |
| SseFramer.DataValuesAppend | public/chat.js:220-222 | the filter and map work line by line: the values of consecutive lines are the values of each part, in order |
| SseFramer.DataValuesOne | public/chat.js:220-222 | a single line gives its trimmed value when it is a `data:` line, and nothing otherwise |
| SseFramer.RecordData | public/chat.js:219-223 | a record's joined data is empty exactly when it has no `data:` line, or a single one whose value is empty |
| SseFramer.RecordEvents | public/chat.js:219-225 | a record yields at most one event: its joined data, exactly when that is not empty |
| SseFramer.NoDataLineNoEvent | public/chat.js:219-225 | a record without a `data:` line yields no event |
| SseFramer.SingleDataLine | public/chat.js:219-223 | a one-line `data:` record yields the text after the prefix with leading whitespace removed |
| SseFramer.EventsOf | public/chat.js:215-226 | no event is empty and there are no more events than records |
| SseFramer.EventsOfAppend | public/chat.js:215-226 | the events of consecutive records are the events of each part, in record order |
| SseFramer.EventsComeFromRecords | public/chat.js:219-225 | every event is the joined data of one of the records |
| SseFramer.Consume | public/chat.js:209-229 | the returned buffer holds no carriage return and no `"\n\n"`; events are non-empty; without `"\n\n"` in the stripped input no event is returned and the buffer is the stripped input |
| SseFramer.ConsumeSseEvents | public/chat.js:209-229 | the loop returns the events and buffer that `Consume` specifies, with a clean buffer and non-empty events |
| SseFramer.FeedChunks | public/chat.js:87-89 | with no chunk the buffer is handed back untouched; after at least one chunk the buffer is clean; no event is empty |
| SseFramer.ConsumeAppend | public/chat.js:87-89 | consuming a text in two steps, the second on the tail of the first plus more text, gives the events and tail of consuming it at once |
| SseFramer.FeedChunksIsConsume | public/chat.js:83-89 | from a clean buffer, threading the buffer through the chunks gives what consuming the buffer and all chunks at once gives |
| SseFramer.ChunkingDoesNotMatter | public/chat.js:80-89 | starting from the empty buffer, how the stream is cut into chunks does not change the events or the final tail |
| Payload.Get | public/chat.js:97-98 | on an object, the field exactly when the key is present; on an array, the first element exactly for key `0` of a non-empty array; on a string, the one-character string of its first character exactly for key `0` of a non-empty string; nothing on numbers and booleans |
| Payload.GetOpt | public/chat.js:98 | optional chaining on `null` or `undefined` gives `undefined`, and is ordinary property access otherwise |
| Payload.DeltaContent | public/chat.js:98 | only an object with a `choices` key has delta content, and the delta reply shape yields its text |
| Payload.ExtractContent | public/chat.js:96-99 | fails exactly on a `null` payload; otherwise never nullish, `response` when that is not nullish (even empty), else the delta content when not nullish, else `''` |
| Payload.Truthy | public/chat.js:101 | `null`, `false`, `0` and `''` are falsy; every other value is truthy |
| Payload.ToText | public/chat.js:102 | strings, numbers, booleans and `null` convert to their JavaScript text; an object's conversion throws exactly when it has its own `toString` key and is `"[object Object]"` otherwise; an array converts as `JoinItems` of its items, and throws exactly when one of its non-null items' conversion does |
| Payload.JoinItems | public/chat.js:102 | `join(',')` throws exactly when a non-null item's conversion does; no items give the empty text, a single item its own text, `null` giving the empty text |
| Payload.JoinItemsAppend | public/chat.js:102 | two non-empty runs of items join as the join of each, separated by a comma, and throw when either part throws; with the empty and single-item cases this fixes the text of every array |
| Payload.ArrayConversions | public/chat.js:102 | `[1, null, "x"]` converts to `"1,,x"`; an array holding an object with its own `toString` key throws |
| Payload.Decode | public/chat.js:92-99 | `Done` exactly for `[DONE]`, which is never parsed; `Malformed` exactly when parsing fails or gives `null`; otherwise the extracted content of the parsed value |
| Payload.FragmentText | public/chat.js:101-104 | a sentinel or malformed payload adds nothing; falsy content adds nothing; truthy content adds its conversion, or nothing when the conversion throws; a string content is appended as is |
| Payload.ShapesYieldTheirText | public/chat.js:96-99 | both reply shapes yield their text, the empty object yields `''` |
| Payload.EmptyResponseDoesNotFallThrough | public/chat.js:97-98 | an empty-string `response` hides the delta content beside it |
| Payload.NullPayloadIsMalformed | public/chat.js:95-107 | a payload parsing to `null` is skipped like a parse failure |
| Chat.BatchText | public/chat.js:91-108 | the fragments of the batch in order, up to the first `[DONE]`: fixed by `DoneEndsBatch`, `BatchTextAppend` and `BatchTextOne`, and tied to the `for` loop by `DecodeBatch`; a batch whose payloads each contribute nothing adds no text |
| Chat.StreamText | public/chat.js:83-109 | the batch texts of the chunks as the buffer is threaded through them, the tail never flushed: tied to the read loop by `ReadStream` and, without `[DONE]`, equal to the batch text of all framed events by `StreamTextIsBatchText`; from a clean buffer, reads that deliver no text add nothing |
| Chat.DecodeBatch | public/chat.js:91-108 | the `for` loop appends exactly `BatchText` of the batch |
| Chat.ReadStream | public/chat.js:80-109 | the read loop's `responseText` is exactly `StreamText` of the chunks |
| Chat.DoneEndsBatch | public/chat.js:91-92 | nothing after `[DONE]` in the same batch contributes |
| Chat.BatchTextAppend | public/chat.js:91-108 | without `[DONE]` in the first part, the text of a batch is the text of its parts in order |
| Chat.MalformedIsSkipped | public/chat.js:94-107 | a malformed payload adds nothing and the rest of the batch is still processed |
| Chat.StreamTextIsBatchText | public/chat.js:83-108 | without `[DONE]`, the read loop's text is the text of all the events it framed |
| Chat.ChunkingInvisibleWithoutDone | public/chat.js:83-108 | without `[DONE]`, the reply text is the text of the events of the whole stream, however it is chunked |
| Chat.UnterminatedStreamYieldsNothing | public/chat.js:83-89 | with no blank line in the whole stream, the reply text is empty: the tail is never flushed |
| Chat.DoneInOneChunk | public/chat.js:91-92 | a record after `[DONE]` in the same chunk is ignored |
| Chat.DoneInEarlierChunk | public/chat.js:83-92 | the same record in the next chunk is processed: `[DONE]` does not end the read loop |
| Chat.OneRecordPerChunk | public/chat.js:83-108 | when each chunk is one record `data: <payload>` followed by a blank line, each payload a non-empty single line with no carriage return and no leading whitespace, every payload's fragment is appended, in order |
| Chat.TypicalReply | public/chat.js:83-113 | a delta fragment, a response fragment and `[DONE]`, one per chunk, give the two texts in order, recorded as the assistant's turn exactly when non-empty |
| Chat.ReplyTurns | public/chat.js:111-113 | at most one assistant turn, holding the reply text, exactly when the stream finished and its text is non-empty |
| Chat.Session.constructor | public/chat.js:13-14 | an empty history and no request in flight |
| Chat.Session.Submit | public/chat.js:51-62 | accepted exactly when the trimmed message is non-empty and no request is in flight; then the user turn is appended and the flag set; otherwise nothing changes |
| Chat.Session.Receive | public/chat.js:64-125 | the flag is cleared on every path and the history gains exactly the reply's turns |
| Chat.Session.Send | public/chat.js:50-126 | an accepted send appends the user turn then the reply's turns and ends with the flag cleared; a refused send changes nothing |

## Left out

- DOM wiring, focus handling, the input and keydown listeners and the status
  text (public/chat.js:6-44, 55-60, 122-124). This is presentation with no
  behaviour to state.
- `createResponseCard`, `makeDraggable` and `getHighestZIndex`
  (public/chat.js:132-203), and the card text written at lines 103 and
  117-119. These are layout code built on browser APIs, random numbers and
  the clock.
- `fetch`, the request body and the `response.ok`/`response.body` checks
  (public/chat.js:65-73), and read errors. The network is a parameter: a
  `Reply` holds the chunks received and whether the stream finished or
  failed. A failure is only modelled after all its chunks have arrived.
- `TextDecoder` (public/chat.js:79, 87). It is a foreign library, so each
  chunk is taken as an already decoded string.
- `JSON.parse` (public/chat.js:95). It is a foreign call, so it is the
  parameter `parse`, a partial function onto the `Json` datatype.
- Numbers are represented by their JavaScript string form. Only their
  truthiness and the text appended are observed.
- Strings are sequences of code points, not UTF-16 code units. Indexing
  `"0"` of a string and `slice(5)` are modelled on code points.
- Logging with `console.log`/`console.error` (public/chat.js:106, 116, 231)
  has no semantics.
- The `async` suspension is modelled as the split between `Submit` and
  `Receive`. Other event handlers interleaving at the `await` points are not
  modelled beyond the `isProcessing` guard.
- SseFramer.StripCR: its own contract states only that no carriage return
  is left. That exactly the carriage returns are removed and the other
  characters are kept in order is carried by `StripCRLength`,
  `StripCRIdentity` and `StripCRAppend`.
