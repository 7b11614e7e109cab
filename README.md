# Write-up chat: placeholders, Markdown images and the streamed answer

This project models the core of a small chat application. A user composes CTF solution
steps in a browser, pastes images and code snippets into them, and sends them to a server.
The server has a language model expand the steps into a write-up and streams the answer
back as server-sent events.

Two pieces are modelled and proved:

- **The browser client** (`app/static/script.js`), as the class `Client.ChatClient`. It holds:
  - the placeholder map and the two counters that number `[[code<n>]]` and `[[img<n>]]` tokens;
  - the remembered cursor position;
  - the send button's `disabled` flag, which guards against a second send;
  - the message box and the chat transcript.

  Its methods are:
  - adding a code snippet, and the synchronous part of pasting an image;
  - splicing a token in at a position;
  - the two halves of `sendMessage`: the synchronous prefix, and the continuation that reads the streamed answer.

  The read loop is proved against the functions of module `Stream`. That module states how each chunk is split on a blank line, how `data:` pieces are kept, and how each parsed frame is applied.
- **The server** (`main.py`):
  - `preprocess_markdown_to_placeholders` is a scanner for the pattern `!\[([^\]]*)\]\(([^)]+)\)`, together with a method that runs the `re.sub` scan.
  - `postprocess_placeholders_to_markdown` is a fold of Python's `str.replace`, together with its loop.
  - Their round trip is proved.
  - `generate_writeup_stream` is modelled as the list of payloads it yields and the frames that carry them.

  Module `Exchange` connects the two halves. It assumes that the client's JSON parser reads back what the server's encoder wrote (`Exchange.Codec`) and that the server's frames arrive in chunks that cut no frame. Under those assumptions the client ends up with what the server sent. For a streamed completion that is the model's text, the preprocessing mapping and the model's error. An empty error message is not shown, because JavaScript treats it as false (`Exchange.Surfaced`).

The modules, in dependency order:
- `Strings`: the JavaScript and Python string primitives the code relies on.
- `Tokens`: the placeholder tokens.
- `Stream`: the client's frame decoder.
- `Client`: the client class.
- `Markdown`: the server's image conversion.
- `Writeup`: the server's event stream.
- `Exchange`: the two halves end to end.

The client does not buffer a partial frame from one chunk to the next. Each chunk is split on its own (`app/static/script.js:144-145`). What a frame cut across two chunks does depends on where the cut falls:
- After `data:` and before the blank line: the parser gets the first half of the frame alone (`Stream.SplitFrameIsTruncated`). The second half yields nothing, because it does not start with `data:`. When the cut falls inside the JSON text, the parser sees truncated JSON.
- Between the JSON text and the blank line: the parser gets the whole JSON text, so nothing is truncated, and the lone blank line that follows yields nothing.
- Inside `data:`: neither half starts with `data:`, so the frame is dropped without an error (`Stream.CutInPrefixLosesFrame`).
- Between the two line feeds of the blank line: the first frame's payload keeps a trailing line feed. The next frame, which now starts with a line feed, is dropped (`Stream.CutBlankLineLosesNextFrame`).

In the same way, a `data:` piece at the end of a chunk without a closing blank line is still parsed (`Stream.FirstHalfPayloads`); it is not held back. The model follows the code in all of these cases.

## Model

| member | source | states |
|---|---|---|
| Strings.IsSpace | app/static/script.js:98 | the white space `trim()` removes (ECMAScript's WhiteSpace and LineTerminator) and the white space `strip()` removes at main.py:82 (`str.isspace()`); `Strings.TrimIsSlice` and `Strings.TrimShape` state what is removed |
| Strings.Trim | app/static/script.js:98 | `trim()` at lines 98 and 181 and `strip()` at main.py:82; `Strings.TrimIsSlice` and `Strings.TrimShape` state that the result is the input with its leading and trailing white space removed |
| Strings.Lower | main.py:82 | `str.lower()`, one character for one, so the length is kept; `Writeup.TooShortIsLength` relies on that |
| Strings.NatToString | app/static/script.js:183 | the numeral of `${n}` and of `{n}` at main.py:51: at least one character, digits only, one digit exactly for numbers below ten; `Strings.NatToStringInjective` states that distinct numbers give distinct numerals |
| Strings.TrimIsSlice | app/static/script.js:98 | `trim()`/`strip()` returns the input with its leading and trailing white space removed: the result is a slice of the input, and everything before it and after it is white space |
| Strings.TrimShape | app/static/script.js:98 | the trimmed text is empty exactly when every character is white space, and otherwise starts and ends with a non-space character, so no more than the surrounding white space is removed |
| Strings.Substring | app/static/script.js:216 | `substring` clamps both ends to the text, so its result is never longer than the text; `Client.Spliced` states the splice built from it |
| Strings.Split | app/static/script.js:145 | `split` gives at least one piece, the first of which begins the text; `Strings.SplitJoin`, `Strings.SplitPiecesAvoidSeparator`, `Strings.SplitWithoutSeparator` and `Strings.SplitAfterPiece` state what the pieces are |
| Strings.Replace | main.py:64 | Python's `str.replace`, left to right and non-overlapping; `Strings.ReplaceAbsent` and `Strings.ReplaceSkipsPrefix` state its behaviour, and `Markdown.PutBackOne` its effect on a preprocessed text |
| Strings.NatToStringInjective | app/static/script.js:183 | the decimal numerals of a template literal are injective, so distinct counter values give distinct tokens |
| Strings.SplitJoin | app/static/script.js:145 | `chunk.split('\n\n')` loses nothing: joining the pieces with the delimiter gives the chunk back |
| Strings.SplitPiecesAvoidSeparator | app/static/script.js:145 | no piece of a split contains the delimiter |
| Strings.SplitWithoutSeparator | app/static/script.js:145 | a chunk without the delimiter is a single piece |
| Strings.SplitAfterPiece | app/static/script.js:145 | a piece followed by the delimiter splits off as the first piece, and the split goes on in the rest, provided no delimiter starts inside the piece, not even one that runs on into the delimiter after it; for `\n\n` the piece holds no blank line and does not end with a line feed |
| Strings.ReplaceAbsent | main.py:64 | `str.replace` of a target that does not occur returns the text unchanged |
| Strings.ReplaceSkipsPrefix | main.py:64 | `str.replace` copies a prefix in which no occurrence starts, and replaces in the rest |
| Tokens.CodeToken | app/static/script.js:183 | the template literal `[[code${n}]]`; `Tokens.CodeTokenInjective` and `Tokens.CodeIsNotImg` state its properties |
| Tokens.ImgToken | main.py:51 | the tag `[[img{n}]]` of both the server and `app/static/script.js:202`; `Tokens.ImgTokenInjective`, `Tokens.ImgTokenAtImgToken` and `Tokens.ImgTokenSkip` state its properties |
| Tokens.CodeTokenInjective | app/static/script.js:183 | `[[code${n}]]` tokens with different numbers differ |
| Tokens.ImgTokenInjective | app/static/script.js:202 | `[[img${n}]]` tokens with different numbers differ |
| Tokens.CodeIsNotImg | app/static/script.js:183 | a code token is never an image token |
| Tokens.ImgTokenAtImgToken | main.py:51 | an image tag never begins a text that begins with a different image tag |
| Tokens.ImgTokenSkip | main.py:51 | no image tag starts inside a different image tag |
| Tokens.NextCodeTokenIsFresh | app/static/script.js:183 | the token the code counter names has not been handed out since the last reset |
| Tokens.NextImgTokenIsFresh | app/static/script.js:202 | the token the image counter names has not been handed out since the last reset |
| Tokens.AllocateCode | app/static/script.js:183 | incrementing the code counter adds exactly the new token to the allocated set |
| Tokens.AllocateImg | app/static/script.js:202 | incrementing the image counter adds exactly the new token to the allocated set |
| Stream.Payloads | app/static/script.js:147-148 | the pieces that start with `data:`, that prefix removed, in order and never more than there are pieces; `Stream.PayloadsAppend` states that it distributes over concatenation |
| Stream.ChunkPayloads | app/static/script.js:145-148 | the payloads of one chunk, split on its own; `Stream.ChunksSplitIndependently`, `Stream.FirstHalfPayloads` and `Exchange.FramesSplitBack` state what it yields |
| Stream.ApplyPayloads | app/static/script.js:147-160 | the inner loop over a chunk's pieces; `Stream.ApplyPayloadsAppend`, `Stream.CompleteStream` and `Stream.FirstFailureDecides` state its result, and `Client.ChatClient.ReadChunk` is proved against it |
| Stream.ApplyFrame | app/static/script.js:150-158 | a parsed frame replaces the mapping when it has one, appends non-empty content to the bot text, then raises its non-empty error; `Stream.CompleteStream` and `Stream.FirstFailureDecides` state the effect of a run of frames |
| Stream.ApplyPayload | app/static/script.js:148-149 | a payload is parsed and applied unless an error was already raised, and a parse failure is raised as an error; `Stream.FailureIsFinal` and `Stream.TextOnlyGrows` state its properties |
| Stream.ApplyChunks | app/static/script.js:140-161 | the read loop over the chunks; `Stream.ChunksSplitIndependently` and `Stream.ErrorStopsStream` state its properties, and `Client.ChatClient.ReadStream` is proved against it |
| Stream.PayloadsAppend | app/static/script.js:147-148 | keeping the `data:` pieces distributes over concatenation of pieces |
| Stream.ApplyPayloadsAppend | app/static/script.js:147-160 | applying two runs of payloads is applying their concatenation |
| Stream.FailureIsFinal | app/static/script.js:156-157 | once an error has been raised, no later payload changes anything |
| Stream.ErrorStopsStream | app/static/script.js:156-157 | an error stops all later frames and chunks, and what was appended before it is kept |
| Stream.ChunksSplitIndependently | app/static/script.js:140-161 | reading chunk after chunk equals applying every chunk's own `data:` payloads in order, with nothing carried across chunks |
| Stream.TextOnlyGrows | app/static/script.js:153-154 | the bot text only grows, even when the stream ends in an error |
| Stream.CompleteStream | app/static/script.js:150-155 | a stream without error leaves all content strings in order in the bot text, and the last mapping sent (last write wins) |
| Stream.FirstFailureDecides | app/static/script.js:147-157 | a failing stream ends at its first failing payload, and nothing before that payload failed |
| Stream.NoLineFeedNoDelimiter | app/static/script.js:145 | a text without line feeds contains no blank-line delimiter |
| Stream.FirstHalfPayloads | app/static/script.js:145-149 | a `data:` piece without a closing blank line is still parsed, prefix removed |
| Stream.SecondHalfPayloads | app/static/script.js:145-148 | the tail of a cut frame yields no payload unless it starts with `data:` |
| Stream.SplitFrameIsTruncated | app/static/script.js:144-149 | a frame cut after `data:` and before its blank line reaches the parser as its first half alone, and the second half yields nothing |
| Stream.NoBlankLine | app/static/script.js:145 | a text with no two adjacent line feeds contains no blank-line delimiter |
| Stream.CutInPrefixLosesFrame | app/static/script.js:144-148 | a frame cut inside `data:` yields no payload from either chunk, so it is dropped without an error |
| Stream.CutBlankLineLosesNextFrame | app/static/script.js:144-149 | a cut between the two line feeds of a blank line leaves a line feed on the first payload and drops the frame after it |
| Client.DetailMessage | app/static/script.js:131 | the thrown message is never empty: it is the body's detail when that is non-empty, and 'An unknown error occurred.' when the detail is missing or empty |
| Client.ErrorEntry | app/static/script.js:165 | the bot entry `Error: <message>` the catch block appends; `Client.ChatClient.CompleteExchange` states when it is appended |
| Client.ExchangeEntries | app/static/script.js:124-165 | the entries an exchange appends: an `Error: ...` entry for a network or HTTP failure, otherwise the bot message with the text `Stream.ApplyChunks` gives and an `Error: ...` entry for the first failure of a frame, the parser or the reader; `Client.ChatClient.CompleteExchange` is proved against it |
| Client.Spliced | app/static/script.js:216 | the token spliced in at the position, or appended when the position is past the end (substring clamping) |
| Client.ChatClient.constructor | app/static/script.js:20-23 | empty map, both counters 1, cursor 0, button enabled |
| Client.ChatClient.FocusOut | app/static/script.js:55 | leaving the box remembers the cursor position |
| Client.ChatClient.InsertPlaceholder | app/static/script.js:214-221 | the buffer becomes `text[..pos] + tok + text[pos..]` (clamped); the selection moves to just after the token, clamped to the new text; `lastCursorPosition` becomes the position plus the token's length, unclamped |
| Client.ChatClient.AllocateCodeToken | app/static/script.js:183-184 | the token is `[[code<n>]]` for the old counter and is new; the map gains exactly that entry; the counter goes up by one |
| Client.ChatClient.AllocateImgToken | app/static/script.js:202-203 | the same for `[[img<n>]]` and the image counter |
| Client.ChatClient.AddCodeFromModal | app/static/script.js:179-191 | blank code changes nothing; otherwise a fresh code token maps to the code, the counter goes up by one, and the token is spliced in at the remembered cursor position; the selection moves to just after the token, clamped to the new text; `lastCursorPosition` becomes the old remembered position plus the token's length, unclamped |
| Client.ChatClient.PasteImage | app/static/script.js:200-207 | a fresh image token maps to the data URL, the counter goes up by one, and the token is spliced in at the selection, which moves past it |
| Client.ChatClient.SendMessage | app/static/script.js:93-115 | a send while one is in flight changes nothing; a blank message changes nothing and leaves the button enabled; otherwise the button is disabled, the trimmed message joins the transcript, the box is emptied and the trimmed text is sent |
| Client.ChatClient.CompleteExchange | app/static/script.js:117-176 | the transcript gains the bot message and any `Error: ...` entry the response calls for; whatever the outcome, the button is enabled, the map is emptied and both counters return to 1 |
| Client.ChatClient.ReadStream | app/static/script.js:140-161 | the bot message ends with the text `ApplyChunks` gives, and the loop's failure is that of `ApplyChunks` |
| Client.ChatClient.ReadChunk | app/static/script.js:144-160 | one chunk's pieces applied to the bot message and the mapping as `ApplyPayloads` says, stopping at the first failure |
| Client.ChunksAfterFailure | app/static/script.js:156-157 | after a failure the remaining chunks change nothing |
| Markdown.MatchAt | main.py:45 | a match of the image pattern at the start of a text is longer than five characters and no longer than the text; `Markdown.MatchAtSound` and `Markdown.MatchAtComplete` state exactly when it matches |
| Markdown.Pre | main.py:45-56 | the `re.sub` scan with the numbering replacer; `Markdown.PreMapping`, `Markdown.PreOriginals`, `Markdown.PreTagsDistinct` and `Markdown.PreWithoutImages` state its result |
| Markdown.PostAll | main.py:63-64 | the fold of `str.replace` over the mapping; `Markdown.PutBackRest` and `Markdown.RoundTrip` state its result on a preprocessed text |
| Markdown.IndexOfFinds | main.py:45 | the first position of a character, or None when the character is absent |
| Markdown.MatchAtSound | main.py:45 | a match of the pattern at the start of the text is a well-formed image that prefixes the text |
| Markdown.MatchAtComplete | main.py:45 | the pattern matches at a position exactly when a well-formed image begins there, and then it matches that image |
| Markdown.PreMapping | main.py:45-56 | the tags are `[[img1]]`, `[[img2]]`, ... in order of appearance, and each recorded original is exactly one whole match `![alt](path)` with no `]` in alt and a non-empty path without `)` |
| Markdown.PreOriginals | main.py:45-56 | the recorded originals are the matches of the text in order, one per match, whatever number the counter starts at |
| Markdown.PreTagsDistinct | main.py:51-52 | the tags are pairwise distinct, so the dict has one key per match |
| Markdown.PreWithoutImages | main.py:46-57 | text with no match comes back unchanged with an empty mapping |
| Markdown.PreprocessMarkdownToPlaceholders | main.py:38-57 | the scan returns what the leftmost, non-overlapping `re.sub` with the numbering replacer defines |
| Markdown.PostprocessPlaceholdersToMarkdown | main.py:59-65 | the loop replaces each tag everywhere by its original, in mapping order; an empty mapping is the identity |
| Markdown.MixedAtStart | main.py:56 | before any tag is put back, the half-way text is the preprocessed text |
| Markdown.MixedAtEnd | main.py:52 | with every tag put back, the half-way text is the original |
| Markdown.PrefixOfMixed | main.py:51-52 | a non-empty text with no `!` anywhere and no `[` after its first character (and at least two characters when it starts with `[`) begins the half-way text only where it begins the original |
| Markdown.OriginalSkip | main.py:64 | no tag starts inside an original image taken from text without `[[img` |
| Markdown.PutBackOne | main.py:63-64 | one pass of the postprocessing loop puts exactly one image back |
| Markdown.PutBackRest | main.py:63-64 | the remaining passes restore the original |
| Markdown.RoundTrip | main.py:38-65 | postprocessing the preprocessed text with its own mapping returns the original, when the original contains no `[[img` |
| Writeup.IsTooShort | main.py:82 | the short-message rule; `Writeup.TooShortIsLength` states what it decides |
| Writeup.WriteupEvents | main.py:82-154 | the payloads `generate_writeup_stream` yields, per case; `Writeup.WriteupEventsShape` and `Writeup.WriteupCarriesModelText` state their properties |
| Writeup.NoKey | main.py:86-87 | `not api_key`: the variable is unset or empty; `Exchange.ReplayWriteup` states that the client then shows the missing-key error |
| Writeup.StreamedEvents | main.py:144-154 | the mapping payload, one content payload per non-empty delta and an error payload when the stream raised; `Writeup.WriteupCarriesModelText` and `Exchange.ReplayStreamed` state what they carry |
| Writeup.FramesText | main.py:160-161 | the body of the streaming response, the frames one after the other; `Exchange.FramesSplitBack` states that the client splits it back into the payloads |
| Writeup.Frame | main.py:83 | the `data: <json>\n\n` frame every yield of lines 83, 88, 144, 151 and 154 writes; `Exchange.FramesSplitBack` states that the client splits such frames back into their payloads |
| Writeup.TooShortIsLength | main.py:79-82 | the short-message rule holds exactly when the stripped message has fewer than 100 characters: the list of simple messages never decides |
| Writeup.DeltaEvents | main.py:147-151 | one content payload per delta, each non-empty, never more than there are deltas |
| Writeup.DeltaEventsCarryAllText | main.py:147-151 | dropping None and empty deltas loses no text: the content payloads carry all the model's text, in order |
| Writeup.WriteupEventsShape | main.py:82-154 | every answer has a frame; a mapping payload can only come first and an error only last; a too-short message yields the apology alone |
| Writeup.WriteupCarriesModelText | main.py:97-151 | when the model call returns a stream, the answer starts with the mapping of the preprocessed steps and its content payloads carry all of the model's text |
| Exchange.ToMap | main.py:144 | the JSON object the client sees for the mapping dict, later entries winning; `Exchange.ToMapLastWins` |
| Exchange.ToMapLastWins | main.py:144 | the object has exactly the dict's keys, and each key holds the value of its last entry |
| Exchange.FramesSplitBack | app/static/script.js:145-149 | the server's `data: <json>\n\n` frames, received in one chunk, split back into exactly the encoded payloads |
| Exchange.WholeFramesArrive | app/static/script.js:140-149 | however whole frames are grouped into chunks, the client recovers every payload in order |
| Exchange.ReplayDecoded | app/static/script.js:149-158 | when the parser reads back what the encoder wrote, decoding the payloads replays the server's events |
| Exchange.ReplayDeltas | main.py:147-151 | the content frames of the deltas append all the model's text to the bot message |
| Exchange.ReplayStreamed | main.py:144-154 | a streamed answer leaves the client with all of the model's text, the mapping as an object and the model's error if it is non-empty |
| Exchange.ReplayWriteup | main.py:82-154 | per case of the server's stream, the client ends with the apology, the missing-key error, or the model's text with the mapping and the model's error, if that is non-empty |
| Exchange.ClientShowsWriteup | main.py:77-156 | the same, end to end, for any grouping of whole frames into chunks |

## Left out

- DOM construction, previews, the loading animation, alerts, scrolling, focus mode and the code dialog are user-interface glue. `addCodeFromModal`'s clearing of the dialog is left out too.
- `fetch`, the stream reader and `TextDecoder` are left out. Chunks are given as already-decoded strings, so a multi-byte character cut between chunks is not modelled.
- `JSON.parse`, `JSON.stringify` and `json.dumps` are abstract functions passed as parameters. `Exchange.Codec` states what the end-to-end lemma requires of them.
- `FileReader`, the clipboard and the asynchronous `onload` are left out. `Client.ChatClient.PasteImage` models only the synchronous body of `onload`.
- Asynchrony is left out. `sendMessage` is split at its first `await` into `SendMessage` and `CompleteExchange`. Their interleaving with other handlers is reduced to the `disabled` guard.
- The AzureOpenAI client is left out: its construction (outside the `try`, so an exception there escapes the generator), `client.close()`, the request parameters and the system prompt. The model's stream is the input `Writeup.Completion`.
- Also left out: the environment lookup (an `Option` parameter), FastAPI routing, CORS, templates, `print`, the client's `console.error` log of a failed exchange and uvicorn.
- Positions and lengths are counted in characters. JavaScript counts UTF-16 code units, so `selectionStart` and `placeholder.length` may differ for text outside the Basic Multilingual Plane.
- Strings.Lower: lower-cases ASCII letters only, unlike Python's full Unicode `str.lower()`. Lower-casing does not change length here, so the short-message rule is unaffected.
- Client.Response: `errorData.detail` is modelled as an optional string. A non-string detail, such as FastAPI's validation error list, is shown by JavaScript as its string conversion, and that conversion is not modelled.
- Markdown.PostprocessPlaceholdersToMarkdown: the mapping is a sequence of pairs in dict insertion order. A dict's distinct keys are not required of the input. `Markdown.PreTagsDistinct` proves them for the mapping preprocess builds.
- Integers are unbounded. JavaScript's numbers and Python's integers do not overflow at these sizes.
