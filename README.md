# Sticker generator: stream assembly and request gate, in Dafny

This project models the two pieces of string-processing logic in a small web
app that turns a photo into a sticker sheet through a chat-completion API.

**The client** (`services/geminiService.ts`) does three things:

- It posts the photo as base64 to `/api/generate`. The base64 is cut out of
  the file's data URL with `split(",")`.
- It reads the server-sent-event stream that comes back, chunk by chunk. It
  carries an unterminated line over between chunks and appends the delta of
  every `data: ` line.
- It extracts the image reference from the assembled text. The first markdown
  image link wins, then a bare `http…` or `data:image…` text, otherwise an
  error.

**The server** (`functions/api/generate.ts`, `onRequestPost`) does the
following:

- It checks its configuration and the caller's password, in that order.
- It fills in a default base URL and a default model.
- It normalises the upstream URL to end in `/chat/completions`.
- It chooses one of two prompts from the mode.
- It builds the streamed chat-completion payload, with the image as a data
  URI.
- It passes an upstream failure back with its status, and a success through
  as an event stream.

## Modules

- `Wrappers`: `Option` and `Result`.
- `Fetch`: `response.ok`, which both sides read off a `fetch` response.
- `JsString`: JavaScript's `trim` with its exact white-space set (WhiteSpace
  and LineTerminator), plus `startsWith`, `endsWith`, truthiness of an
  optional string and `a || b`.
- `Lines`: `split` on one character, as JavaScript does it. The result always
  has at least one part, and the parts are the maximal separator-free
  segments. The module also proves how a split relates to the text it came
  from.
- `MarkdownImage`: the regular expression `/!\[.*?\]\((.*?)\)/` under
  `String.prototype.match`.
  - A declarative description says which matches exist and which one the
    engine reports: the leftmost start, then the shortest alt text, then the
    shortest URL.
  - A scanning function computes that match, and its contract ties the two
    together.
  - `.` excludes `\n`, `\r`, U+2028 and U+2029.
- `GeminiService`: the client.
  - The comma split.
  - What a line contributes.
  - The read loop as a method with a `while` over chunks and a `for` over
    lines. It is proved against `StreamContent`, a function of the
    concatenated stream text alone.
  - Extraction.
  - How the client treats the response.
- `GenerateHandler`: the server decisions. `fetch` is a function parameter,
  and an outcome records the upstream request, if one was sent.
- `EndToEnd`: the client and the server together, plus worked examples.

JSON is not modelled:

- On the client, `deltaOf: string -> Option<string>` stands for
  `JSON.parse` followed by the `choices[0].delta.content` lookup. It gives
  the text `+=` appends for a truthy content: a string as it is, any other
  value as `String(value)` writes it. It gives `None` when the text does not
  parse or the content is absent or falsy.
- On the server, each field of the parsed request body is absent, a string,
  or another JSON value. That other value is kept as the text `String(value)`
  gives it, which is what a template literal writes.

## Model

| member | source | states |
|---|---|---|
| `JsString.TrimStartSpec` | services/geminiService.ts:96 | `trimStart` keeps a suffix. Everything it drops is white space, and what it keeps starts with a visible character. |
| `JsString.TrimEndSpec` | services/geminiService.ts:96 | `trimEnd` keeps a prefix. Everything it drops is white space, and what it keeps ends with a visible character. |
| `JsString.TrimSpec` | services/geminiService.ts:31 | `trim` keeps a contiguous slice. Only white space lies outside it on both sides, and the slice has no white space at either end. |
| `JsString.TrimOfTrimmed` | functions/api/generate.ts:37 | A string with no white space at either end is unchanged by `trim`. |
| `JsString.TrimIdempotent` | functions/api/generate.ts:37 | Trimming twice is the same as trimming once. |
| `JsString.OrElse` | functions/api/generate.ts:33-34 | A logical or with a string fallback gives the value when it is a non-empty string, and the fallback when it is absent or empty. |
| `Lines.Split` | services/geminiService.ts:92 | `split` always yields at least one part. |
| `Lines.SplitSpec` | services/geminiService.ts:92 | The parts are separator-free. The complete parts, each followed by the separator, then the last part, spell the input exactly. |
| `Lines.SplitFree` | services/geminiService.ts:10 | A string without the separator splits into itself alone. |
| `Lines.SplitAtFirst` | services/geminiService.ts:9 | The first part is the text before the first separator, and the rest split as the text after it. |
| `Lines.SplitFirstPart` | services/geminiService.ts:9-10 | The first part runs to the first separator, or to the end when there is none. |
| `Lines.SplitSegment` | services/geminiService.ts:92 | A separator-free segment followed by the separator becomes one leading part. |
| `Lines.SplitTerminated` | services/geminiService.ts:92-93 | Splitting undoes joining: terminated lines plus a free rest split back into those lines and that rest. |
| `Lines.SplitAfterTerminated` | services/geminiService.ts:92-93 | Complete lines in front of any text come out of the split first and unchanged. The text splits as it would alone. |
| `Lines.SplitCarry` | services/geminiService.ts:91-93 | After `buffer += chunk`, the split's complete parts extend the lines finished so far. The last part is a newline-free new buffer, and lines, buffer and chunk still spell the same text. |
| `Lines.CompleteOfTerminated` | services/geminiService.ts:92-93 | The complete parts of terminated lines plus a free rest are exactly those lines. |
| `Lines.TerminatedUnique` | services/geminiService.ts:92-93 | The split of a text into complete lines and a free rest is unique. |
| `Lines.IndexOf` | services/geminiService.ts:9 | The position of the first occurrence of a character, or the length when it does not occur. |
| `Lines.FlattenConcat` | services/geminiService.ts:104 | Appending contributions batch by batch equals appending them over the whole sequence. |
| `MarkdownImage.Url` | services/geminiService.ts:26-27 | The capture group has exactly the matched URL length. |
| `MarkdownImage.UrlLengthCorrect` | services/geminiService.ts:25 | The lazy URL group stops at the first `)` reachable through `.` characters, and fails exactly when there is none. |
| `MarkdownImage.MatchWithAltCorrect` | services/geminiService.ts:25 | From a fixed start, the engine's choice is the shortest alt text whose `](` is followed by a closable URL. It finds nothing exactly when no such pair exists. |
| `MarkdownImage.FirstMatchFromCorrect` | services/geminiService.ts:25 | Scanning from a position finds the most preferred match starting there or later, or reports that there is none. |
| `MarkdownImage.FirstMatch` | services/geminiService.ts:25 | `match` returns the engine's preferred match, and returns nothing exactly when the pattern matches nowhere. |
| `MarkdownImage.FirstMatchUnique` | services/geminiService.ts:25 | The reported match is determined by the text alone. |
| `MarkdownImage.UrlOnOneLine` | services/geminiService.ts:25 | A captured URL never holds a line terminator. |
| `MarkdownImage.LinkIsFirstMatch` | services/geminiService.ts:25-27 | The engine reports `![alt](url)` and captures `url` when three things hold: no `!` comes before it, the alt text has no `]`, and the URL has no `)`. Neither the alt text nor the URL may hold a line terminator. Nothing after the link matters. |
| `MarkdownImage.NoBangNoMatch` | services/geminiService.ts:25 | Text without `!` has no match. |
| `GeminiService.Base64DataNoComma` | services/geminiService.ts:9-10 | Without a comma the whole data URL is returned. |
| `GeminiService.Base64DataAfterComma` | services/geminiService.ts:9-10 | With a comma, the result is the text after the first comma, cut at the next comma if there is one. |
| `GeminiService.Base64DataSegment` | services/geminiService.ts:9-10 | With a comma, the result is the comma-free slice of the input that starts right after the first comma. It ends at the next comma or at the end of the input. |
| `GeminiService.Base64DataOfFileDataUrl` | services/geminiService.ts:8-11 | The base64 comes back unchanged out of `data:<type>;base64,<b64>`. |
| `GeminiService.ContributionsConcat` | services/geminiService.ts:95-108 | The contributions of two batches of lines are those of the first followed by those of the second. |
| `GeminiService.StreamContentOfLines` | services/geminiService.ts:87-109 | Complete lines followed by an unterminated rest yield exactly those lines' deltas. The rest is dropped. |
| `GeminiService.StreamContentAppend` | services/geminiService.ts:91-95 | Every complete line is processed once and in order: its delta comes before the content of everything after it. |
| `GeminiService.SkippedAddsNothing` | services/geminiService.ts:96-107 | Four kinds of line contribute nothing: blank lines, lines not starting with `data: `, the `data: [DONE]` line, and lines with no delta or an empty one. |
| `GeminiService.SkippedLineIgnored` | services/geminiService.ts:96-107 | Inserting such a line anywhere in the stream changes nothing, and the lines around it are still processed. |
| `GeminiService.DataLineDelta` | services/geminiService.ts:96-104 | A line that trims to `data: <json>`, other than `data: [DONE]`, contributes the delta of `<json>`, or nothing if it has none. |
| `GeminiService.DataLineContributes` | services/geminiService.ts:100-104 | A line that is not skipped contributes exactly its non-empty delta. |
| `GeminiService.ProcessLines` | services/geminiService.ts:95-108 | The inner loop appends exactly the contributions of the batch, in order. |
| `GeminiService.AssembleContent` | services/geminiService.ts:84-109 | Three results about the read loop. (1) The content equals the deltas of the complete lines of the concatenated chunks, so it is the same for every way of cutting that text into chunks. (2) The carried buffer never holds `\n`. (3) It is exactly the unterminated rest. |
| `GeminiService.ExtractImage` | services/geminiService.ts:19-38 | A successful extraction comes from non-empty content and is itself non-empty. |
| `GeminiService.ExtractEmpty` | services/geminiService.ts:20-22 | Empty content is rejected and yields no image reference. |
| `GeminiService.ExtractMarkdown` | services/geminiService.ts:25-28 | When the engine's first match has a non-empty URL, that URL is the result, even when the content also starts with `http`. |
| `GeminiService.ExtractLink` | services/geminiService.ts:25-28 | A link with a non-empty URL, preceded by text without `!`, gives exactly its URL whatever surrounds it. |
| `GeminiService.ExtractRawReference` | services/geminiService.ts:31-34 | With no usable link, trimmed content starting with `http` or `data:image` is returned trimmed and otherwise unchanged. |
| `GeminiService.ExtractBareReference` | services/geminiService.ts:31-34 | Content without `!` and without surrounding white space that starts with `http` or `data:image` is returned as it is. |
| `GeminiService.ExtractNothing` | services/geminiService.ts:37 | Content matching neither rule is rejected with "no image detected". |
| `GeminiService.RequestMode` | services/geminiService.ts:70 | The mode posted is never empty. It is the caller's mode whenever that is a non-empty string, and `sticker-pack` when the mode is absent or empty. |
| `GeminiService.ReadGeneration` | services/geminiService.ts:74-111 | There are three cases. (1) A non-2xx status fails and carries the server's `error` text only when that is a non-empty string. (2) A missing body fails. (3) Otherwise the result is the extraction from the assembled stream content. |
| `GenerateHandler.StripTrailingSlashes` | functions/api/generate.ts:37 | `replace(/\/+$/, "")` keeps a prefix that does not end in `/`, and removes only slashes. |
| `GenerateHandler.StripWithoutTrailingSlash` | functions/api/generate.ts:37 | A string not ending in `/` is left alone. |
| `GenerateHandler.StrippedBaseStart` | functions/api/generate.ts:37 | The trimmed, slash-stripped base never starts with white space. |
| `GenerateHandler.AppendEndpointShape` | functions/api/generate.ts:38-44 | The result always ends with `/chat/completions` and starts with the stripped base. It is unchanged exactly when the base already ends with `/chat/completions`. Otherwise a base ending in `/v1` gets exactly `/chat/completions` and any other base exactly `/v1/chat/completions`, so every extended URL ends with `/v1/chat/completions`. |
| `GenerateHandler.AppendAfterVersion` | functions/api/generate.ts:39-40 | The endpoint of a base ending in `/v1`, and not in `/chat/completions`, is that base plus `/chat/completions`. It ends with `/v1/chat/completions`. |
| `GenerateHandler.AppendVersioned` | functions/api/generate.ts:41-42 | The endpoint of a base ending in neither `/chat/completions` nor `/v1` is that base plus `/v1/chat/completions`. |
| `GenerateHandler.VersionNotDoubled` | functions/api/generate.ts:38-44 | The endpoint ends in `/v1/v1/chat/completions` only when the base already ended in `/chat/completions` or in `/v1/v1`, so normalising never doubles `/v1`. |
| `GenerateHandler.NormalizeUrlShape` | functions/api/generate.ts:37-44 | The normalised URL is built on the trimmed, slash-stripped base. It gets the suffix chosen above: nothing, `/chat/completions` after `/v1`, or `/v1/chat/completions`. That base never ends in `/`, so no `//` is formed. |
| `GenerateHandler.NormalizeUrlIdempotent` | functions/api/generate.ts:37-44 | Normalising a normalised URL changes nothing. |
| `GenerateHandler.SelectPrompt` | functions/api/generate.ts:48-67 | Only the string `christmas-hat` selects the hat prompt. Every other mode selects the sticker sheet, including none and a value that is not a string. |
| `GenerateHandler.BuildPayload` | functions/api/generate.ts:73-90 | The payload is streamed and holds a single `user` message: the prompt, then an `image_url` equal to `data:<mimeType>;base64,<imageBase64>`. In it an absent field is written `undefined` and a non-string one as its text. Its model is `MODEL_ID` or the default. |
| `GenerateHandler.Decimal` | functions/api/generate.ts:104 | A status is written as decimal digits without leading zeros. |
| `GenerateHandler.DecimalRoundTrip` | functions/api/generate.ts:104 | The digits written in the error message read back as the status. |
| `GenerateHandler.Handle` | functions/api/generate.ts:19-114 | Four results. (1) An upstream request is sent exactly when the password is set, matches, and the key is set, and it is the request built from the environment and body. (2) Otherwise the response is a 401 or 500 JSON error. (3) The response is 2xx exactly when the request was sent and upstream answered 2xx. (4) A sent request's failure status is the response's status. |
| `GenerateHandler.PasswordUnsetFirst` | functions/api/generate.ts:19-21 | An unset or empty `ACCESS_PASSWORD` gives 500, whatever the caller sent, and nothing is sent upstream. |
| `GenerateHandler.WrongPasswordRejected` | functions/api/generate.ts:23-25 | A wrong password gives 401, even when the key is unset, and nothing is sent upstream. |
| `GenerateHandler.NonTextPasswordRejected` | functions/api/generate.ts:23-25 | A password field that is absent or not a string fails the strict comparison and gives 401. |
| `GenerateHandler.KeyUnsetAfterPassword` | functions/api/generate.ts:28-31 | The missing-key 500 happens exactly when the password is set and matched and the key is unset. |
| `GenerateHandler.UpstreamPassthrough` | functions/api/generate.ts:102-114 | After the guards, a non-ok upstream answer comes back with its status, the status in its message, and its text as details. An ok one is streamed through as `text/event-stream`. |
| `GenerateHandler.DefaultsApplied` | functions/api/generate.ts:33-34 | With `API_BASE_URL` and `MODEL_ID` unset or empty, the request goes to Google's `/v1/chat/completions` with `gemini-2.0-flash-exp` and a `Bearer` key. |
| `GenerateHandler.DefaultBaseUrlNormalized` | functions/api/generate.ts:33-44 | The default base URL normalises to itself plus `/v1/chat/completions`. |
| `EndToEnd.ImageReachesUpstream` | functions/api/generate.ts:83 | The data URI the server sends upstream is the data URL the client's file reader produced. |
| `EndToEnd.ClientModeSelectsPrompt` | services/geminiService.ts:70 | The hat prompt is chosen exactly when the caller asked for `christmas-hat`. No mode, or an empty one, gives the sticker sheet. |
| `EndToEnd.MatchingPasswordPasses` | functions/api/generate.ts:23 | The client's password is what the server compares, so the right one passes the gate when both settings are set. |
| `EndToEnd.DataLine` | services/geminiService.ts:96-104 | A `data: <json>` line contributes the delta of `<json>`. |
| `EndToEnd.DoneLineSilent` | services/geminiService.ts:98 | `data: [DONE]` contributes nothing. |
| `EndToEnd.DeltasJoinAcrossChunks` | services/geminiService.ts:87-109 | Two events and `[DONE]` give the first delta followed by the second, wherever the second line is cut between chunks. |
| `EndToEnd.ExtractDataUrl` | services/geminiService.ts:31-34 | `data:image/png;base64,AAAA` is returned as it is. |
| `EndToEnd.ExtractEmbeddedLink` | services/geminiService.ts:25-28 | `xxx![pic](http://x/y.png)xxx` gives `http://x/y.png`. |

## Left out

- JSON parsing and serialisation are not modelled.
  - On the client, `deltaOf` is a parameter.
  - On the server, the request body is already parsed, and the payload is a
    datatype.
  - A `try` around `JSON.parse` that swallows errors is the same as a `None`
    delta.
  - A body field that is not a string is carried as its `String(value)`
    text. The model does not compute that text from the JSON value.
- A few host operations are outside the model: `fetch`, `FileReader`, the
  stream reader and `TextDecoder`. Chunks are already-decoded strings, and
  `fetch` is a function parameter.
- Characters are Dafny characters (Unicode scalar values), not UTF-16 code
  units. This matters only for text outside the Basic Multilingual Plane,
  which none of the modelled rules inspect.
- The prompt texts are two distinct constants, without their wording.
- Three things in `functions/api/generate.ts` are left out:
  - the catch-all `err.message` → 500 path (lines 116-118), including the
    500 for a body that is not valid JSON;
  - the console logging;
  - the `Content-Type` of the upstream request.
- `GeminiService.ReadGeneration`: the error texts are not modelled. A
  response whose error body does not parse as JSON is the same as one
  without an `error` field.
- The user-facing error messages are kept as error values. The Chinese
  message texts are not part of the model.
- `App.tsx` is not part of this model: it is UI state, login gating and
  download markup.
- `services/imageService` (the grid slicer and the zip packager) is not
  part of this model.
- The comma split is modelled as written: `split(",")[1]` is the text
  between the first and the second comma, not everything after the first
  comma. A data URL from a file reader has exactly one comma, so the two
  agree there (`GeminiService.Base64DataOfFileDataUrl`).
