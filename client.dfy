/** The browser client's composition and exchange state (app/static/script.js): the
    placeholder map and its two counters, the cursor position remembered for the code
    dialog, the send button's `disabled` flag that keeps a second send out while one is in
    flight, the text of the message box and the chat transcript. */
module Client {
  import opened Strings
  import opened Tokens
  import opened Stream

  datatype Sender = User | Bot

  /** One entry of the chat box: who said it and its text content. */
  datatype ChatMessage = ChatMessage(sender: Sender, text: string)

  /** How the request of an exchange turns out. */
  datatype Response =
    | NetworkError(message: string)
      // `fetch` itself rejects; `message` is the exception's message
    | HttpError(detail: Option<string>)
      // the status is not ok; `detail` is the body's `detail` field, None when the body
      // is not JSON or has no such field
    | Ok(chunks: seq<string>, readFailure: Option<string>)
      // the status is ok; the reader delivers `chunks` (already decoded) and then either
      // reports the end of the stream or, when `readFailure` is Some, rejects

  const UnknownError: string := "An unknown error occurred."

  /** `errorData.detail || 'An unknown error occurred.'` (line 131). */
  function DetailMessage(detail: Option<string>): (r: string)
    ensures r != ""
    ensures detail.Some? && detail.value != "" ==> r == detail.value
    ensures detail.None? || detail.value == "" ==> r == UnknownError
  {
    if detail.Some? && detail.value != "" then detail.value else UnknownError
  }

  /** The transcript entry the catch block appends (line 165). */
  function ErrorEntry(message: string): ChatMessage
  {
    ChatMessage(Bot, "Error: " + message)
  }

  /** The entries an exchange adds to the transcript after the user's message: for a
      stream, the bot message with everything the frames appended, followed by an error
      entry when a frame, the parser or the reader failed; otherwise only an error entry. */
  function ExchangeEntries(response: Response, parse: string -> Parsed): seq<ChatMessage>
  {
    match response
    case NetworkError(message) => [ErrorEntry(message)]
    case HttpError(detail) => [ErrorEntry(DetailMessage(detail))]
    case Ok(chunks, readFailure) =>
      var p := ApplyChunks(Start, chunks, parse);
      var failure := if p.failure.Some? then p.failure else readFailure;
      [ChatMessage(Bot, p.text)] + (if failure.Some? then [ErrorEntry(failure.value)] else [])
  }

  /** `text.substring(0, position) + token + text.substring(position)`: the token spliced
      in at the position, which JavaScript clamps to the end of the text. */
  function Spliced(text: string, token: string, position: nat): (r: string)
    ensures position <= |text| ==> r == text[..position] + token + text[position..]
    ensures position > |text| ==> r == text + token
  {
    Substring(text, 0, position) + token + Substring(text, position, |text|)
  }

  class ChatClient {
    var placeholderMap: map<string, string>
    var codeCounter: nat
    var imgCounter: nat
    var lastCursorPosition: nat
    var sendDisabled: bool
    /** `messageInput.value` and `messageInput.selectionStart`. */
    var messageText: string
    var selectionStart: nat
    /** The messages in the chat box, oldest first. */
    var transcript: seq<ChatMessage>

    /** The counters start at 1 and the map holds exactly the tokens handed out since the
        last reset, so the next token of either kind is always new. */
    ghost predicate Valid()
      reads this
    {
      && 1 <= codeCounter && 1 <= imgCounter
      && selectionStart <= |messageText|
      && placeholderMap.Keys == Allocated(codeCounter, imgCounter)
    }

    /** The page as loaded (lines 20-23). */
    constructor ()
      ensures Valid()
      ensures placeholderMap == map[] && codeCounter == 1 && imgCounter == 1 && lastCursorPosition == 0
      ensures !sendDisabled && messageText == "" && selectionStart == 0 && transcript == []
    {
      placeholderMap := map[];
      codeCounter := 1;
      imgCounter := 1;
      lastCursorPosition := 0;
      sendDisabled := false;
      messageText := "";
      selectionStart := 0;
      transcript := [];
      new;
      assert Allocated(1, 1) == {};
    }

    /** Leaving the message box remembers where the cursor was (line 55). */
    method FocusOut()
      requires Valid()
      modifies this`lastCursorPosition
      ensures Valid()
      ensures lastCursorPosition == selectionStart
    {
      lastCursorPosition := selectionStart;
    }

    /** Splices a token into the message at a position and puts the cursor just after it
        (lines 214-221). The browser clamps the selection to the text; the remembered
        position is not clamped. */
    method InsertPlaceholder(placeholder: string, position: nat)
      requires Valid()
      modifies this`messageText, this`selectionStart, this`lastCursorPosition
      ensures Valid()
      ensures messageText == Spliced(old(messageText), placeholder, position)
      ensures |messageText| == |old(messageText)| + |placeholder|
      ensures position <= |old(messageText)| ==> selectionStart == position + |placeholder|
      ensures selectionStart == Min(position + |placeholder|, |messageText|)
      ensures lastCursorPosition == position + |placeholder|
    {
      var text := messageText;
      messageText := Substring(text, 0, position) + placeholder + Substring(text, position, |text|);
      var newCursorPos := position + |placeholder|;
      selectionStart := Min(newCursorPos, |messageText|);
      lastCursorPosition := newCursorPos;
    }

    /** Hands out the next code token and maps it to the code (lines 183-185). */
    method AllocateCodeToken(codeText: string) returns (token: string)
      requires Valid()
      modifies this`placeholderMap, this`codeCounter
      ensures Valid()
      ensures token == CodeToken(old(codeCounter)) && token !in old(placeholderMap)
      ensures placeholderMap == old(placeholderMap)[token := codeText]
      ensures codeCounter == old(codeCounter) + 1
    {
      token := CodeToken(codeCounter);
      NextCodeTokenIsFresh(codeCounter, imgCounter);
      AllocateCode(codeCounter, imgCounter);
      codeCounter := codeCounter + 1;
      placeholderMap := placeholderMap[token := codeText];
    }

    /** Hands out the next image token and maps it to the data URL (lines 202-204). */
    method AllocateImgToken(dataUrl: string) returns (token: string)
      requires Valid()
      modifies this`placeholderMap, this`imgCounter
      ensures Valid()
      ensures token == ImgToken(old(imgCounter)) && token !in old(placeholderMap)
      ensures placeholderMap == old(placeholderMap)[token := dataUrl]
      ensures imgCounter == old(imgCounter) + 1
    {
      token := ImgToken(imgCounter);
      NextImgTokenIsFresh(codeCounter, imgCounter);
      AllocateImg(codeCounter, imgCounter);
      imgCounter := imgCounter + 1;
      placeholderMap := placeholderMap[token := dataUrl];
    }

    /** Adds the code from the dialog (lines 179-191): blank code is ignored; otherwise
        the next code token is allocated, mapped to the code and inserted at the
        remembered cursor position. */
    method AddCodeFromModal(codeText: string)
      requires Valid()
      modifies this`placeholderMap, this`codeCounter, this`messageText, this`selectionStart, this`lastCursorPosition
      ensures Valid()
      ensures Trim(JavaScript, codeText) == "" ==> unchanged(this)
      ensures Trim(JavaScript, codeText) != "" ==>
        var token := CodeToken(old(codeCounter));
        && token !in old(placeholderMap)
        && placeholderMap == old(placeholderMap)[token := codeText]
        && codeCounter == old(codeCounter) + 1
        && messageText == Spliced(old(messageText), token, old(lastCursorPosition))
        && selectionStart == Min(old(lastCursorPosition) + |token|, |messageText|)
        && lastCursorPosition == old(lastCursorPosition) + |token|
    {
      if Trim(JavaScript, codeText) == "" {
        return;
      }
      var placeholder := AllocateCodeToken(codeText);
      InsertPlaceholder(placeholder, lastCursorPosition);
    }

    /** What happens once a pasted image has been read as a data URL (lines 200-207):
        the next image token is allocated, mapped to the data URL and inserted at the
        cursor. */
    method PasteImage(dataUrl: string)
      requires Valid()
      modifies this`placeholderMap, this`imgCounter, this`messageText, this`selectionStart, this`lastCursorPosition
      ensures Valid()
      ensures
        var token := ImgToken(old(imgCounter));
        && token !in old(placeholderMap)
        && placeholderMap == old(placeholderMap)[token := dataUrl]
        && imgCounter == old(imgCounter) + 1
        && messageText == old(messageText)[..old(selectionStart)] + token + old(messageText)[old(selectionStart)..]
        && selectionStart == lastCursorPosition == old(selectionStart) + |token|
    {
      var placeholder := AllocateImgToken(dataUrl);
      InsertPlaceholder(placeholder, selectionStart);
    }

    /** The part of `sendMessage` before its first `await` (lines 93-115). A send while
        another is in flight does nothing; a blank message is refused with the button
        enabled again and nothing else changed; otherwise the button is disabled, the
        trimmed message joins the transcript, the box is emptied and the trimmed text is
        what the request carries as `steps`. */
    method SendMessage() returns (steps: Option<string>)
      requires Valid()
      modifies this`sendDisabled, this`transcript, this`messageText, this`selectionStart
      ensures Valid()
      ensures old(sendDisabled) ==> steps == None && unchanged(this)
      ensures !old(sendDisabled) && Trim(JavaScript, old(messageText)) == "" ==>
        steps == None && unchanged(this) && !sendDisabled
      ensures !old(sendDisabled) && Trim(JavaScript, old(messageText)) != "" ==>
        && steps == Some(Trim(JavaScript, old(messageText)))
        && sendDisabled
        && transcript == old(transcript) + [ChatMessage(User, steps.value)]
        && messageText == "" && selectionStart == 0
    {
      if sendDisabled {
        return None;
      }
      sendDisabled := true;
      var text := Trim(JavaScript, messageText);
      if text == "" {
        sendDisabled := false;
        return None;
      }
      transcript := transcript + [ChatMessage(User, text)];
      messageText := "";
      selectionStart := 0;
      steps := Some(text);
    }

    /** The rest of `sendMessage` once the request is under way (lines 117-176): the
        response is turned into transcript entries, chunk by chunk for a stream, and
        whatever the outcome the button is enabled again and the placeholder map and both
        counters are reset. */
    method CompleteExchange(response: Response, parse: string -> Parsed)
      requires Valid() && sendDisabled
      modifies this`sendDisabled, this`transcript, this`placeholderMap, this`codeCounter, this`imgCounter
      ensures Valid()
      ensures !sendDisabled && placeholderMap == map[] && codeCounter == 1 && imgCounter == 1
      ensures transcript == old(transcript) + ExchangeEntries(response, parse)
    {
      match response {
        case NetworkError(message) =>
          transcript := transcript + [ErrorEntry(message)];
        case HttpError(detail) =>
          transcript := transcript + [ErrorEntry(DetailMessage(detail))];
        case Ok(chunks, readFailure) =>
          transcript := transcript + [ChatMessage(Bot, "")];
          var failure := ReadStream(chunks, parse);
          if failure.Some? {
            transcript := transcript + [ErrorEntry(failure.value)];
          } else if readFailure.Some? {
            transcript := transcript + [ErrorEntry(readFailure.value)];
          }
      }
      sendDisabled := false;
      placeholderMap := map[];
      codeCounter := 1;
      imgCounter := 1;
      assert Allocated(1, 1) == {};
    }

    /** The read loop (lines 140-161): the bot message, last in the transcript, ends up
        holding every appended content, and the frame or parse failure that ends the loop
        early, if any, is returned. */
    method ReadStream(chunks: seq<string>, parse: string -> Parsed) returns (failure: Option<string>)
      requires transcript != [] && transcript[|transcript| - 1] == ChatMessage(Bot, "")
      modifies this`transcript
      ensures var p := ApplyChunks(Start, chunks, parse);
        && transcript == old(transcript)[..|old(transcript)| - 1] + [ChatMessage(Bot, p.text)]
        && failure == p.failure
    {
      var bot := |transcript| - 1;
      var imageMapping: map<string, string> := map[];
      failure := None;
      var c := 0;
      while c < |chunks| && failure == None
        invariant 0 <= c <= |chunks|
        invariant |transcript| == bot + 1 && transcript[..bot] == old(transcript)[..bot]
        invariant transcript[bot].sender == Bot
        invariant ApplyChunks(Start, chunks, parse)
               == ApplyChunks(Progress(transcript[bot].text, imageMapping, failure), chunks[c..], parse)
      {
        imageMapping, failure := ReadChunk(bot, chunks[c], imageMapping, parse);
        assert chunks[c..][1..] == chunks[c + 1..];
        c := c + 1;
      }
      if failure.Some? {
        ChunksAfterFailure(Progress(transcript[bot].text, imageMapping, failure), chunks[c..], parse);
      }
    }

    /** One pass of the inner loop (lines 144-160): the chunk is split at blank lines and
        each `data:` line is parsed and applied to the bot message at index `bot` and to
        the image mapping, stopping at the first failure. */
    method ReadChunk(bot: nat, chunk: string, mapping: map<string, string>, parse: string -> Parsed)
      returns (imageMapping: map<string, string>, failure: Option<string>)
      requires bot < |transcript| && transcript[bot].sender == Bot
      modifies this`transcript
      ensures |transcript| == |old(transcript)| && transcript[..bot] == old(transcript)[..bot]
      ensures transcript[bot].sender == Bot
      ensures Progress(transcript[bot].text, imageMapping, failure)
           == ApplyPayloads(Progress(old(transcript[bot].text), mapping, None), ChunkPayloads(chunk), parse)
    {
      ghost var before := Progress(transcript[bot].text, mapping, None);
      imageMapping, failure := mapping, None;
      var lines := Split(chunk, Delimiter);
      var l := 0;
      while l < |lines| && failure == None
        invariant 0 <= l <= |lines|
        invariant |transcript| == |old(transcript)| && transcript[..bot] == old(transcript)[..bot]
        invariant transcript[bot].sender == Bot
        invariant Progress(transcript[bot].text, imageMapping, failure)
               == ApplyPayloads(before, Payloads(lines[..l]), parse)
      {
        var line := lines[l];
        if IsPrefix(DataPrefix, line) {
          match parse(line[|DataPrefix|..]) {
            case Malformed(message) =>
              failure := Some(message);
            case Record(data) =>
              if data.mapping.Some? {
                imageMapping := data.mapping.value;
              }
              if data.content.Some? && data.content.value != "" {
                transcript := transcript[bot := ChatMessage(Bot, transcript[bot].text + data.content.value)];
              }
              if data.error.Some? && data.error.value != "" {
                failure := Some(data.error.value);
              }
          }
        }
        StepLine(before, lines, l, parse);
        l := l + 1;
      }
      if failure.Some? {
        PayloadsAppend(lines[..l], lines[l..]);
        assert lines == lines[..l] + lines[l..];
        ErrorStopsStream(before, Payloads(lines[..l]), Payloads(lines[l..]), parse);
      } else {
        assert lines[..l] == lines;
      }
    }
  }

  /** Applying the payloads of one more line: the step the inner read loop takes. */
  lemma StepLine(before: Progress, lines: seq<string>, l: nat, parse: string -> Parsed)
    requires l < |lines|
    ensures ApplyPayloads(before, Payloads(lines[..l + 1]), parse)
         == ApplyPayloads(ApplyPayloads(before, Payloads(lines[..l]), parse), Payloads([lines[l]]), parse)
  {
    assert lines[..l + 1] == lines[..l] + [lines[l]];
    PayloadsAppend(lines[..l], [lines[l]]);
    ApplyPayloadsAppend(before, Payloads(lines[..l]), Payloads([lines[l]]), parse);
  }

  /** Once the stream has ended, later chunks change nothing. */
  lemma {:induction false} ChunksAfterFailure(p: Progress, chunks: seq<string>, parse: string -> Parsed)
    requires p.failure.Some?
    ensures ApplyChunks(p, chunks, parse) == p
    decreases |chunks|
  {
    if chunks != [] {
      FailureIsFinal(p, ChunkPayloads(chunks[0]), parse);
      ChunksAfterFailure(p, chunks[1..], parse);
    }
  }
}
