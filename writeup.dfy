/** The server's answer to a write-up request, `generate_writeup_stream` (main.py:77-156):
    a short-message rule, then a missing-key check, then the mapping frame followed by one
    content frame per non-empty model delta, with an error frame when the model call or
    its stream fails. Every frame is `data: <json>` followed by a blank line. */
module Writeup {
  import opened Strings
  import opened Markdown

  /** The greetings and test words the rule singles out (line 79). */
  const SimpleMessages: seq<string> :=
    ["hi", "hello", "hey", "testing", "test", "good morning", "good afternoon", "good evening"]

  const Apology: string := "Sorry message too short to be a writeup."
  const MissingKey: string := "AZURE_OPENAI_API_KEY not found in environment variables."

  /** The short-message rule (line 82): the stripped message, lower-cased, is one of the
      simple messages, or it has fewer than 100 characters. */
  predicate IsTooShort(steps: string)
  {
    Lower(Trim(Python, steps)) in SimpleMessages || |Trim(Python, steps)| < 100
  }

  /** The list of simple messages adds nothing to the length test: each is shorter than
      100 characters, and lower-casing keeps the length. */
  lemma TooShortIsLength(steps: string)
    ensures IsTooShort(steps) <==> |Trim(Python, steps)| < 100
  {
    var t := Lower(Trim(Python, steps));
    SimpleMessagesAreShort();
    if t in SimpleMessages {
      var k :| 0 <= k < |SimpleMessages| && SimpleMessages[k] == t;
      assert |t| < 100;
    }
  }

  lemma SimpleMessagesAreShort()
    ensures forall k :: 0 <= k < |SimpleMessages| ==> |SimpleMessages[k]| < 100
  {
  }

  /** The JSON objects the stream sends: `{'content': ...}`, `{'mapping': ...}` with
      the entries of the dict in insertion order, or `{'error': ...}`. */
  datatype Payload = Content(text: string) | Mapping(entries: seq<(string, string)>) | Error(message: string)

  /** One chunk of the model's stream: `chunk.choices` empty, or the `delta.content` of its
      first choice (None when the delta carries no content). */
  datatype Delta = NoChoices | Choice(content: Option<string>)

  /** How the model call turns out: `create` raises, or it returns a stream that yields
      `deltas` and then either ends or raises with the message `failure`. */
  datatype Completion = CreateFailed(message: string) | Streamed(deltas: seq<Delta>, failure: Option<string>)

  /** `not api_key`: the variable is unset or empty. */
  predicate NoKey(apiKey: Option<string>)
  {
    apiKey.None? || apiKey.value == ""
  }

  /** The content frames of the deltas (lines 147-151): one for each delta with a
      non-empty content, in order. */
  function DeltaEvents(deltas: seq<Delta>): (r: seq<Payload>)
    ensures |r| <= |deltas|
    ensures forall i :: 0 <= i < |r| ==> r[i].Content? && r[i].text != ""
  {
    if deltas == [] then []
    else
      (match deltas[0]
        case Choice(Some(content)) => if content != "" then [Content(content)] else []
        case _ => [])
      + DeltaEvents(deltas[1..])
  }

  /** Everything the model said: the contents of all deltas, concatenated. */
  function DeltaText(deltas: seq<Delta>): string
  {
    if deltas == [] then []
    else
      var last := deltas[|deltas| - 1];
      DeltaText(deltas[..|deltas| - 1]) + (if last.Choice? && last.content.Some? then last.content.value else [])
  }

  /** The texts of the content payloads, concatenated. */
  function ContentText(events: seq<Payload>): string
  {
    if events == [] then [] else (if events[0].Content? then events[0].text else []) + ContentText(events[1..])
  }

  lemma {:induction false} ContentTextAppend(a: seq<Payload>, b: seq<Payload>)
    ensures ContentText(a + b) == ContentText(a) + ContentText(b)
  {
    if a != [] {
      assert (a + b)[1..] == a[1..] + b;
      ContentTextAppend(a[1..], b);
    } else {
      assert a + b == b;
    }
  }

  lemma {:induction false} DeltaEventsAppend(a: seq<Delta>, b: seq<Delta>)
    ensures DeltaEvents(a + b) == DeltaEvents(a) + DeltaEvents(b)
  {
    if a != [] {
      assert (a + b)[1..] == a[1..] + b;
      DeltaEventsAppend(a[1..], b);
    } else {
      assert a + b == b;
    }
  }

  /** Dropping the empty deltas loses no text: the content frames carry everything the
      model said, in order. */
  lemma {:induction false} DeltaEventsCarryAllText(deltas: seq<Delta>)
    ensures ContentText(DeltaEvents(deltas)) == DeltaText(deltas)
  {
    if deltas != [] {
      var init, last := deltas[..|deltas| - 1], deltas[|deltas| - 1];
      assert deltas == init + [last];
      DeltaEventsAppend(init, [last]);
      ContentTextAppend(DeltaEvents(init), DeltaEvents([last]));
      DeltaEventsCarryAllText(init);
    }
  }

  /** The payloads the generator yields, in order (lines 82-154). A too-short message gets
      the apology alone; a missing key gets an error alone; otherwise the mapping of the
      preprocessed steps comes first, then the content of the deltas, and an error last if
      the model call or its stream fails. A failure of `create` comes before the mapping
      frame is sent. */
  function WriteupEvents(steps: string, apiKey: Option<string>, completion: Completion): seq<Payload>
  {
    if IsTooShort(steps) then [Content(Apology)]
    else if NoKey(apiKey) then [Error(MissingKey)]
    else match completion
      case CreateFailed(message) => [Error(message)]
      case Streamed(deltas, failure) => StreamedEvents(Pre(steps, 1).mapping, deltas, failure)
  }

  /** The payloads of a model call that returned a stream: the mapping, the content of the
      deltas, and an error if the stream raised. */
  function StreamedEvents(mapping: seq<(string, string)>, deltas: seq<Delta>, failure: Option<string>): seq<Payload>
  {
    [Mapping(mapping)] + DeltaEvents(deltas) + (if failure.Some? then [Error(failure.value)] else [])
  }

  /** Every answer has at least one frame; a mapping frame can only come first and an
      error frame only last; a too-short message gets the apology alone. */
  lemma WriteupEventsShape(steps: string, apiKey: Option<string>, completion: Completion)
    ensures var r := WriteupEvents(steps, apiKey, completion);
      && r != []
      && (forall i :: 0 <= i < |r| && r[i].Mapping? ==> i == 0)
      && (forall i :: 0 <= i < |r| && r[i].Error? ==> i == |r| - 1)
      && (IsTooShort(steps) ==> r == [Content(Apology)])
  {
    if !IsTooShort(steps) && !NoKey(apiKey) && completion.Streamed? {
      StreamedEventsShape(Pre(steps, 1).mapping, completion.deltas, completion.failure);
    }
  }

  lemma StreamedEventsShape(mapping: seq<(string, string)>, deltas: seq<Delta>, failure: Option<string>)
    ensures var r := StreamedEvents(mapping, deltas, failure);
      && r != [] && r[0] == Mapping(mapping)
      && (forall i :: 0 < i < |r| ==> !r[i].Mapping?)
      && (forall i :: 0 <= i < |r| - 1 ==> !r[i].Error?)
  {
    var r := StreamedEvents(mapping, deltas, failure);
    var d := DeltaEvents(deltas);
    forall i | 0 < i < |r| ensures !r[i].Mapping? {
      if i <= |d| {
        assert r[i] == d[i - 1];
      }
    }
    forall i | 0 <= i < |r| - 1 ensures !r[i].Error? {
      if 0 < i {
        assert r[i] == d[i - 1];
      }
    }
  }

  /** When the model call returns a stream, the answer starts with the mapping of the
      preprocessed steps and its content frames carry everything the model said. */
  lemma WriteupCarriesModelText(steps: string, apiKey: Option<string>, completion: Completion)
    requires !IsTooShort(steps) && !NoKey(apiKey) && completion.Streamed?
    ensures var r := WriteupEvents(steps, apiKey, completion);
      r[0] == Mapping(Pre(steps, 1).mapping) && ContentText(r) == DeltaText(completion.deltas)
  {
    var m, deltas, failure := Pre(steps, 1).mapping, completion.deltas, completion.failure;
    StreamedText(m, deltas, failure);
  }

  lemma StreamedText(mapping: seq<(string, string)>, deltas: seq<Delta>, failure: Option<string>)
    ensures var r := StreamedEvents(mapping, deltas, failure);
      r[0] == Mapping(mapping) && ContentText(r) == DeltaText(deltas)
  {
    var head := [Mapping(mapping)] + DeltaEvents(deltas);
    var tail: seq<Payload> := if failure.Some? then [Error(failure.value)] else [];
    ContentTextAppend([Mapping(mapping)], DeltaEvents(deltas));
    ContentTextAppend(head, tail);
    DeltaEventsCarryAllText(deltas);
    assert ContentText([Mapping(mapping)]) == [];
    assert ContentText(tail) == [];
  }

  /** One server-sent event: `f"data: {json.dumps(obj)}\n\n"`, with the JSON encoder left
      abstract. */
  function Frame(encode: Payload -> string, p: Payload): (r: string)
  {
    "data: " + encode(p) + "\n\n"
  }

  /** The body of the streaming response: the frames one after the other. */
  function FramesText(encode: Payload -> string, events: seq<Payload>): string
  {
    if events == [] then [] else Frame(encode, events[0]) + FramesText(encode, events[1..])
  }
}
