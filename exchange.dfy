/** The two halves together: what the browser's read loop (app/static/script.js:140-161)
    makes of the frames `generate_writeup_stream` (main.py:77-156) sends, when the JSON
    encoder writes no line feed and the client's parser reads back what it wrote. */
module Exchange {
  import opened Strings
  import opened Stream
  import opened Markdown
  import opened Writeup

  /** A dict's entries as the JSON object the client sees (a later key wins). */
  function ToMap(entries: seq<(string, string)>): map<string, string>
  {
    if entries == [] then map[]
    else ToMap(entries[..|entries| - 1])[entries[|entries| - 1].0 := entries[|entries| - 1].1]
  }

  /** The object has exactly the dict's keys, and each key holds the value of its last
      entry. */
  lemma {:induction false} ToMapLastWins(entries: seq<(string, string)>)
    ensures forall i :: 0 <= i < |entries| ==> entries[i].0 in ToMap(entries)
    ensures forall k :: k in ToMap(entries) ==> exists i :: 0 <= i < |entries| && entries[i].0 == k
    ensures forall i :: 0 <= i < |entries| && (forall j :: i < j < |entries| ==> entries[j].0 != entries[i].0) ==>
              ToMap(entries)[entries[i].0] == entries[i].1
  {
    if entries != [] {
      var init, last := entries[..|entries| - 1], entries[|entries| - 1];
      ToMapLastWins(init);
      forall i | 0 <= i < |entries| ensures entries[i].0 in ToMap(entries) {
        if i < |init| { assert entries[i] == init[i]; }
      }
      forall k | k in ToMap(entries) ensures exists i :: 0 <= i < |entries| && entries[i].0 == k {
        if k != last.0 {
          var i :| 0 <= i < |init| && init[i].0 == k;
          assert entries[i] == init[i];
        }
      }
      forall i | 0 <= i < |entries| && (forall j :: i < j < |entries| ==> entries[j].0 != entries[i].0)
        ensures ToMap(entries)[entries[i].0] == entries[i].1
      {
        if i < |init| {
          assert entries[i] == init[i];
          assert forall j :: i < j < |init| ==> init[j].0 != init[i].0 by {
            forall j | i < j < |init| ensures init[j].0 != init[i].0 { assert init[j] == entries[j]; }
          }
        }
      }
    }
  }

  /** The fields the client reads from a payload the server encoded. */
  function Fields(p: Payload): FrameData
  {
    match p
    case Content(text) => FrameData(None, Some(text), None)
    case Mapping(entries) => FrameData(Some(ToMap(entries)), None, None)
    case Error(message) => FrameData(None, None, Some(message))
  }

  /** `json.dumps` escapes line feeds, and `JSON.parse` of what follows `data:` (a space,
      then the JSON text) gives back the payload's fields. */
  ghost predicate Codec(encode: Payload -> string, parse: string -> Parsed)
  {
    forall p :: '\n' !in encode(p) && parse(" " + encode(p)) == Record(Fields(p))
  }

  /** What the client receives for each frame: the text after `data:`. */
  function Encoded(encode: Payload -> string, events: seq<Payload>): (r: seq<string>)
    ensures |r| == |events|
  {
    if events == [] then [] else [" " + encode(events[0])] + Encoded(encode, events[1..])
  }

  /** A text whose only line feed is its last character holds no blank line. */
  lemma OneLineFeedNoDelimiter(a: string)
    requires '\n' !in a
    ensures Absent(Delimiter, a + "\n")
  {
    var u := a + "\n";
    forall i | 0 <= i <= |u| ensures !StartsAt(Delimiter, u, i) {
      if i < |a| {
        assert u[i..][0] == a[i];
      } else if i == |a| {
        assert u[i..] == "\n";
      }
    }
  }

  /** The server's frames, received in one chunk, split back into exactly the encoded
      payloads, one per frame, in order. */
  lemma {:induction false} FramesSplitBack(encode: Payload -> string, events: seq<Payload>)
    requires forall p :: '\n' !in encode(p)
    ensures ChunkPayloads(FramesText(encode, events)) == Encoded(encode, events)
    decreases |events|
  {
    if events == [] {
      assert Split("", Delimiter) == [""];
      assert !IsPrefix(DataPrefix, "");
      assert Payloads([""]) == Payloads([]) + [];
    } else {
      var e := encode(events[0]);
      var a := "data: " + e;
      var rest := FramesText(encode, events[1..]);
      assert '\n' !in a by {
        assert forall i :: 0 <= i < |a| ==> a[i] == (if i < 6 then "data: "[i] else e[i - 6]);
      }
      OneLineFeedNoDelimiter(a);
      assert Delimiter[..|Delimiter| - 1] == "\n";
      SplitAfterPiece(a, Delimiter, rest);
      assert FramesText(encode, events) == a + Delimiter + rest;
      assert a[..5] == DataPrefix && a[5..] == " " + e;
      FramesSplitBack(encode, events[1..]);
      assert Payloads([a] + Split(rest, Delimiter)) == [a[5..]] + Payloads(Split(rest, Delimiter));
    }
  }

  /** The payloads flattened from a grouping of the frames into chunks. */
  function Flatten(groups: seq<seq<Payload>>): seq<Payload>
  {
    if groups == [] then [] else groups[0] + Flatten(groups[1..])
  }

  /** Chunks that each hold whole frames: group `i` of the frames arrives as chunk `i`. */
  function Chunks(encode: Payload -> string, groups: seq<seq<Payload>>): (r: seq<string>)
    ensures |r| == |groups|
  {
    if groups == [] then [] else [FramesText(encode, groups[0])] + Chunks(encode, groups[1..])
  }

  lemma {:induction false} EncodedAppend(encode: Payload -> string, a: seq<Payload>, b: seq<Payload>)
    ensures Encoded(encode, a + b) == Encoded(encode, a) + Encoded(encode, b)
  {
    if a != [] {
      assert (a + b)[1..] == a[1..] + b;
      EncodedAppend(encode, a[1..], b);
    } else {
      assert a + b == b;
    }
  }

  /** However the frames are grouped into chunks, as long as no frame is cut, the client
      recovers every payload in order. */
  lemma {:induction false} WholeFramesArrive(encode: Payload -> string, groups: seq<seq<Payload>>)
    requires forall p :: '\n' !in encode(p)
    ensures StreamPayloads(Chunks(encode, groups)) == Encoded(encode, Flatten(groups))
    decreases |groups|
  {
    if groups != [] {
      FramesSplitBack(encode, groups[0]);
      WholeFramesArrive(encode, groups[1..]);
      EncodedAppend(encode, groups[0], Flatten(groups[1..]));
      assert Chunks(encode, groups)[1..] == Chunks(encode, groups[1..]);
    }
  }

  /** The client's state after the fields of each payload are applied in turn. */
  function Replay(p: Progress, events: seq<Payload>): Progress
    decreases |events|
  {
    if events == [] then p
    else Replay(if p.failure.Some? then p else ApplyFrame(p, Fields(events[0])), events[1..])
  }

  lemma {:induction false} ReplayDecoded(p: Progress, encode: Payload -> string, parse: string -> Parsed, events: seq<Payload>)
    requires Codec(encode, parse)
    ensures ApplyPayloads(p, Encoded(encode, events), parse) == Replay(p, events)
    decreases |events|
  {
    if events != [] {
      var q := if p.failure.Some? then p else ApplyFrame(p, Fields(events[0]));
      assert parse(" " + encode(events[0])) == Record(Fields(events[0]));
      ReplayDecoded(q, encode, parse, events[1..]);
    }
  }

  lemma {:induction false} ReplayAppend(p: Progress, a: seq<Payload>, b: seq<Payload>)
    ensures Replay(p, a + b) == Replay(Replay(p, a), b)
    decreases |a|
  {
    if a != [] {
      assert (a + b)[1..] == a[1..] + b;
      ReplayAppend(if p.failure.Some? then p else ApplyFrame(p, Fields(a[0])), a[1..], b);
    } else {
      assert a + b == b;
    }
  }

  /** The content frames of the deltas append all the model's text to the bot message. */
  lemma {:induction false} ReplayDeltas(p: Progress, deltas: seq<Delta>)
    requires p.failure == None
    ensures Replay(p, DeltaEvents(deltas)) == p.(text := p.text + DeltaText(deltas))
  {
    if deltas != [] {
      var init, last := deltas[..|deltas| - 1], deltas[|deltas| - 1];
      assert deltas == init + [last];
      DeltaEventsAppend(init, [last]);
      ReplayAppend(p, DeltaEvents(init), DeltaEvents([last]));
      ReplayDeltas(p, init);
      assert DeltaEvents([last]) == (match last
        case Choice(Some(content)) => if content != "" then [Content(content)] else []
        case _ => []) + DeltaEvents([]);
    }
  }

  /** An error frame with an empty message is ignored by the client (`if (data.error)`). */
  function Surfaced(failure: Option<string>): Option<string>
  {
    if failure.Some? && failure.value != "" then failure else None
  }

  /** What the client makes of the server's payloads, case by case. */
  lemma ReplayWriteup(steps: string, apiKey: Option<string>, completion: Completion)
    ensures var p := Replay(Start, WriteupEvents(steps, apiKey, completion));
      && (IsTooShort(steps) ==> p == Progress(Apology, map[], None))
      && (!IsTooShort(steps) && NoKey(apiKey) ==> p == Progress("", map[], Some(MissingKey)))
      && (!IsTooShort(steps) && !NoKey(apiKey) && completion.CreateFailed? ==>
            p == Progress("", map[], Surfaced(Some(completion.message))))
      && (!IsTooShort(steps) && !NoKey(apiKey) && completion.Streamed? ==>
            p == Progress(DeltaText(completion.deltas), ToMap(Pre(steps, 1).mapping), Surfaced(completion.failure)))
  {
    var events := WriteupEvents(steps, apiKey, completion);
    if IsTooShort(steps) {
      ReplayOne(Content(Apology));
    } else if NoKey(apiKey) {
      ReplayOne(Error(MissingKey));
    } else if completion.CreateFailed? {
      ReplayOne(Error(completion.message));
    } else {
      ReplayStreamed(Pre(steps, 1).mapping, completion.deltas, completion.failure);
    }
  }

  /** A single payload, from the start: its fields, an empty error ignored. */
  lemma ReplayOne(p: Payload)
    ensures Replay(Start, [p]) == match p
      case Content(text) => Progress(text, map[], None)
      case Mapping(entries) => Progress("", ToMap(entries), None)
      case Error(message) => Progress("", map[], Surfaced(Some(message)))
  {
    assert [p][1..] == [];
  }

  /** A stream that got going: the mapping, then the model's text, then its failure. */
  lemma ReplayStreamed(mapping: seq<(string, string)>, deltas: seq<Delta>, failure: Option<string>)
    ensures Replay(Start, StreamedEvents(mapping, deltas, failure))
         == Progress(DeltaText(deltas), ToMap(mapping), Surfaced(failure))
  {
    var m := Mapping(mapping);
    var tail: seq<Payload> := if failure.Some? then [Error(failure.value)] else [];
    ReplayAppend(Start, [m] + DeltaEvents(deltas), tail);
    ReplayAppend(Start, [m], DeltaEvents(deltas));
    var q := Replay(Start, [m]);
    assert q == Progress("", ToMap(mapping), None);
    ReplayDeltas(q, deltas);
  }

  /** End to end: however the server's frames are grouped into chunks, as long as none is
      cut, the client ends up with the apology for a too-short message, the missing-key
      error, or the model's whole text with the preprocessing mapping and the model's
      failure (an exception with an empty message goes unnoticed). */
  lemma ClientShowsWriteup(steps: string, apiKey: Option<string>, completion: Completion,
                           encode: Payload -> string, parse: string -> Parsed, groups: seq<seq<Payload>>)
    requires Codec(encode, parse)
    requires Flatten(groups) == WriteupEvents(steps, apiKey, completion)
    ensures var p := ApplyChunks(Start, Chunks(encode, groups), parse);
      && (IsTooShort(steps) ==> p == Progress(Apology, map[], None))
      && (!IsTooShort(steps) && NoKey(apiKey) ==> p == Progress("", map[], Some(MissingKey)))
      && (!IsTooShort(steps) && !NoKey(apiKey) && completion.CreateFailed? ==>
            p == Progress("", map[], Surfaced(Some(completion.message))))
      && (!IsTooShort(steps) && !NoKey(apiKey) && completion.Streamed? ==>
            p == Progress(DeltaText(completion.deltas), ToMap(Pre(steps, 1).mapping), Surfaced(completion.failure)))
  {
    var events := WriteupEvents(steps, apiKey, completion);
    var chunks := Chunks(encode, groups);
    ChunksSplitIndependently(Start, chunks, parse);
    WholeFramesArrive(encode, groups);
    ReplayDecoded(Start, encode, parse, events);
    ReplayWriteup(steps, apiKey, completion);
  }
}
