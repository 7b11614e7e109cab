/** How the browser client turns the chunks of a streamed answer into updates of the bot
    message: the read loop of `sendMessage` (app/static/script.js:140-161). Each chunk is
    split on a blank line on its own, only the pieces that start with `data:` are parsed,
    and each parsed frame is applied in order: a mapping replaces the image mapping, a
    content string is appended to the bot text, and an error (or a payload that does not
    parse) ends the whole stream. */
module Stream {
  import opened Strings

  /** The fields of a parsed frame the client reads. A field is `Some` when `data.<field>`
      is present and not null; the client's truthiness test on strings (the empty string
      is false) is applied where the fields are used. */
  datatype FrameData = FrameData(mapping: Option<map<string, string>>, content: Option<string>, error: Option<string>)

  /** What `JSON.parse` (and the property reads after it) make of a payload: a frame, or
      the message of the exception they throw. */
  datatype Parsed = Malformed(message: string) | Record(data: FrameData)

  /** What the read loop has built so far: the bot message's text, the image mapping,
      and the message of the error that ended the loop, once one has. */
  datatype Progress = Progress(text: string, mapping: map<string, string>, failure: Option<string>)

  const Delimiter: string := "\n\n"
  const DataPrefix: string := "data:"

  /** The state before the first chunk: empty bot message, `imageMapping = {}`. */
  const Start: Progress := Progress("", map[], None)

  /** The payloads of the pieces that start with `data:`, prefix removed, in order. */
  function Payloads(lines: seq<string>): (r: seq<string>)
    ensures |r| <= |lines|
  {
    if lines == [] then []
    else (if IsPrefix(DataPrefix, lines[0]) then [lines[0][|DataPrefix|..]] else []) + Payloads(lines[1..])
  }

  /** The payloads of one chunk, split on its own (line 145). */
  function ChunkPayloads(chunk: string): seq<string>
  {
    Payloads(Split(chunk, Delimiter))
  }

  /** The payloads of a sequence of chunks: chunk after chunk, nothing carried across. */
  function StreamPayloads(chunks: seq<string>): seq<string>
  {
    if chunks == [] then [] else ChunkPayloads(chunks[0]) + StreamPayloads(chunks[1..])
  }

  /** One parsed frame applied (lines 150-158): a mapping replaces the image mapping, a
      non-empty content is appended, and then a non-empty error ends the stream. */
  function ApplyFrame(p: Progress, d: FrameData): Progress
  {
    var p1 := if d.mapping.Some? then p.(mapping := d.mapping.value) else p;
    var p2 := if d.content.Some? && d.content.value != "" then p1.(text := p1.text + d.content.value) else p1;
    if d.error.Some? && d.error.value != "" then p2.(failure := Some(d.error.value)) else p2
  }

  /** One payload: nothing happens once the stream has ended; a payload that does not
      parse ends it with the parser's message (line 149). */
  function ApplyPayload(p: Progress, payload: string, parse: string -> Parsed): Progress
  {
    if p.failure.Some? then p
    else match parse(payload)
      case Malformed(message) => p.(failure := Some(message))
      case Record(d) => ApplyFrame(p, d)
  }

  /** The payloads applied one after the other. */
  function ApplyPayloads(p: Progress, payloads: seq<string>, parse: string -> Parsed): Progress
    decreases |payloads|
  {
    if payloads == [] then p else ApplyPayloads(ApplyPayload(p, payloads[0], parse), payloads[1..], parse)
  }

  /** The chunks applied one after the other, each split on its own. */
  function ApplyChunks(p: Progress, chunks: seq<string>, parse: string -> Parsed): Progress
    decreases |chunks|
  {
    if chunks == [] then p else ApplyChunks(ApplyPayloads(p, ChunkPayloads(chunks[0]), parse), chunks[1..], parse)
  }

  // ---------------------------------------------------------------------------
  // Reference definitions: what the bot text and the mapping should be
  // ---------------------------------------------------------------------------

  /** The non-empty content strings of the payloads, concatenated in order. */
  function Contents(payloads: seq<string>, parse: string -> Parsed): string
  {
    if payloads == [] then []
    else
      var last := payloads[|payloads| - 1];
      var piece := match parse(last)
        case Record(d) => if d.content.Some? then d.content.value else ""
        case Malformed(_) => "";
      Contents(payloads[..|payloads| - 1], parse) + piece
  }

  /** The mapping of the last payload that carries one, or `initial` if none does. */
  function LastMapping(initial: map<string, string>, payloads: seq<string>, parse: string -> Parsed): map<string, string>
  {
    if payloads == [] then initial
    else match parse(payloads[|payloads| - 1])
      case Record(d) =>
        if d.mapping.Some? then d.mapping.value else LastMapping(initial, payloads[..|payloads| - 1], parse)
      case Malformed(_) => LastMapping(initial, payloads[..|payloads| - 1], parse)
  }

  // ---------------------------------------------------------------------------
  // Properties
  // ---------------------------------------------------------------------------

  /** Keeping the `data:` pieces distributes over concatenation. */
  lemma {:induction false} PayloadsAppend(a: seq<string>, b: seq<string>)
    ensures Payloads(a + b) == Payloads(a) + Payloads(b)
  {
    if a != [] {
      assert (a + b)[1..] == a[1..] + b;
      PayloadsAppend(a[1..], b);
    } else {
      assert a + b == b;
    }
  }

  /** Applying two runs of payloads is applying their concatenation. */
  lemma {:induction false} ApplyPayloadsAppend(p: Progress, a: seq<string>, b: seq<string>, parse: string -> Parsed)
    ensures ApplyPayloads(p, a + b, parse) == ApplyPayloads(ApplyPayloads(p, a, parse), b, parse)
    decreases |a|
  {
    if a != [] {
      assert (a + b)[1..] == a[1..] + b;
      ApplyPayloadsAppend(ApplyPayload(p, a[0], parse), a[1..], b, parse);
    } else {
      assert a + b == b;
    }
  }

  /** Once the stream has ended, no later payload changes anything. */
  lemma {:induction false} FailureIsFinal(p: Progress, payloads: seq<string>, parse: string -> Parsed)
    requires p.failure.Some?
    ensures ApplyPayloads(p, payloads, parse) == p
  {
    if payloads != [] {
      FailureIsFinal(p, payloads[1..], parse);
    }
  }

  /** An error stops all further frames: what follows a failing prefix is ignored. */
  lemma ErrorStopsStream(p: Progress, a: seq<string>, b: seq<string>, parse: string -> Parsed)
    requires ApplyPayloads(p, a, parse).failure.Some?
    ensures ApplyPayloads(p, a + b, parse) == ApplyPayloads(p, a, parse)
  {
    ApplyPayloadsAppend(p, a, b, parse);
    FailureIsFinal(ApplyPayloads(p, a, parse), b, parse);
  }

  /** Chunks are split independently: reading chunk after chunk is the same as applying
      the `data:` payloads of every chunk, in order, with nothing carried over from one
      chunk to the next. */
  lemma {:induction false} ChunksSplitIndependently(p: Progress, chunks: seq<string>, parse: string -> Parsed)
    ensures ApplyChunks(p, chunks, parse) == ApplyPayloads(p, StreamPayloads(chunks), parse)
    decreases |chunks|
  {
    if chunks != [] {
      ChunksSplitIndependently(ApplyPayloads(p, ChunkPayloads(chunks[0]), parse), chunks[1..], parse);
      ApplyPayloadsAppend(p, ChunkPayloads(chunks[0]), StreamPayloads(chunks[1..]), parse);
    }
  }

  /** The bot message only grows: content already appended is kept, even when the stream
      ends in an error. */
  lemma {:induction false} TextOnlyGrows(p: Progress, payloads: seq<string>, parse: string -> Parsed)
    ensures IsPrefix(p.text, ApplyPayloads(p, payloads, parse).text)
    decreases |payloads|
  {
    if payloads != [] {
      var q := ApplyPayload(p, payloads[0], parse);
      assert IsPrefix(p.text, q.text);
      TextOnlyGrows(q, payloads[1..], parse);
    }
  }

  /** A stream that ends without an error leaves in the bot message the content strings
      of all payloads in order, and as mapping the last one sent (last write wins). */
  lemma {:induction false} CompleteStream(p: Progress, payloads: seq<string>, parse: string -> Parsed)
    requires ApplyPayloads(p, payloads, parse).failure == None
    ensures ApplyPayloads(p, payloads, parse).text == p.text + Contents(payloads, parse)
    ensures ApplyPayloads(p, payloads, parse).mapping == LastMapping(p.mapping, payloads, parse)
  {
    if payloads == [] {
    } else {
      var init, last := payloads[..|payloads| - 1], payloads[|payloads| - 1];
      assert payloads == init + [last];
      ApplyPayloadsAppend(p, init, [last], parse);
      var q := ApplyPayloads(p, init, parse);
      if q.failure.Some? {
        FailureIsFinal(q, [last], parse);
      }
      CompleteStream(p, init, parse);
    }
  }

  /** A stream that ends in an error ends at its first failing payload: there is a payload
      `k` before which nothing failed, and the outcome is that of applying payload `k`. */
  lemma {:induction false} FirstFailureDecides(p: Progress, payloads: seq<string>, parse: string -> Parsed)
    requires p.failure == None
    requires ApplyPayloads(p, payloads, parse).failure.Some?
    ensures exists k :: 0 <= k < |payloads| && ApplyPayloads(p, payloads[..k], parse).failure == None
              && ApplyPayloads(p, payloads, parse) == ApplyPayload(ApplyPayloads(p, payloads[..k], parse), payloads[k], parse)
    decreases |payloads|
  {
    var q := ApplyPayload(p, payloads[0], parse);
    assert payloads[..0] == [];
    if q.failure.Some? {
      FailureIsFinal(q, payloads[1..], parse);
    } else {
      FirstFailureDecides(q, payloads[1..], parse);
      var k :| 0 <= k < |payloads[1..]| && ApplyPayloads(q, payloads[1..][..k], parse).failure == None
              && ApplyPayloads(q, payloads[1..], parse) == ApplyPayload(ApplyPayloads(q, payloads[1..][..k], parse), payloads[1..][k], parse);
      assert payloads[..k + 1] == [payloads[0]] + payloads[1..][..k];
      assert ApplyPayloads(p, payloads[..k + 1], parse) == ApplyPayloads(q, payloads[1..][..k], parse);
    }
  }

  // ---------------------------------------------------------------------------
  // A frame cut across two chunks
  // ---------------------------------------------------------------------------

  /** A text without line feeds contains no blank-line delimiter. */
  lemma NoLineFeedNoDelimiter(s: string)
    requires forall i :: 0 <= i < |s| ==> s[i] != '\n'
    ensures Absent(Delimiter, s)
  {
    forall i | 0 <= i <= |s| ensures !StartsAt(Delimiter, s, i) {
      if i < |s| {
        assert s[i..][0] == s[i];
      }
    }
  }

  /** A piece without line feeds is a chunk of its own: kept, prefix removed, when it
      starts with `data:`. */
  lemma FirstHalfPayloads(a: string)
    requires forall i :: 0 <= i < |a| ==> a[i] != '\n'
    ensures ChunkPayloads(DataPrefix + a) == [a]
  {
    var chunk := DataPrefix + a;
    assert forall i :: 0 <= i < |chunk| ==> chunk[i] != '\n' by {
      forall i | 0 <= i < |chunk| ensures chunk[i] != '\n' {
        if i >= 5 { assert chunk[i] == a[i - 5]; }
      }
    }
    NoLineFeedNoDelimiter(chunk);
    SplitWithoutSeparator(chunk, Delimiter);
    assert chunk[..5] == DataPrefix;
    assert chunk[5..] == a;
    assert Payloads([chunk]) == [chunk[5..]] + Payloads([]);
  }

  /** The tail of a frame, ended by the blank line, yields nothing unless it happens to
      start with `data:` itself. */
  lemma SecondHalfPayloads(b: string)
    requires forall i :: 0 <= i < |b| ==> b[i] != '\n'
    requires !IsPrefix(DataPrefix, b)
    ensures ChunkPayloads(b + Delimiter) == []
  {
    var u := b + Delimiter[..|Delimiter| - 1];
    forall i | 0 <= i <= |u| ensures !IsPrefix(Delimiter, u[i..]) {
      if i < |b| {
        assert u[i..][0] == b[i];
      } else if i == |b| {
        assert u[i..] == "\n";
      }
    }
    SplitAfterPiece(b, Delimiter, "");
    assert b + Delimiter == b + Delimiter + "";
    assert Split("", Delimiter) == [""];
    assert !IsPrefix(DataPrefix, "");
    assert Payloads([b, ""]) == Payloads([""]) == [];
  }

  /** A frame `data:` + a + b cut into the chunks `data:` + a and b + blank line reaches
      the parser as the truncated payload a alone: nothing is carried over from the first
      chunk, and the tail starts no `data:` piece, so it is dropped. (For instance
      `data:{"content":"ab` followed by `c"}` and the blank line.) */
  lemma SplitFrameIsTruncated(a: string, b: string, parse: string -> Parsed)
    requires forall i :: 0 <= i < |a| ==> a[i] != '\n'
    requires forall i :: 0 <= i < |b| ==> b[i] != '\n'
    requires !IsPrefix(DataPrefix, b)
    ensures StreamPayloads([DataPrefix + a, b + Delimiter]) == [a]
    ensures ApplyChunks(Start, [DataPrefix + a, b + Delimiter], parse) == ApplyPayload(Start, a, parse)
  {
    var chunks := [DataPrefix + a, b + Delimiter];
    FirstHalfPayloads(a);
    SecondHalfPayloads(b);
    assert StreamPayloads(chunks[1..]) == ChunkPayloads(chunks[1]) + StreamPayloads([]);
    ChunksSplitIndependently(Start, chunks, parse);
  }

  /** A text in which no two line feeds are adjacent contains no blank-line delimiter. */
  lemma NoBlankLine(s: string)
    requires forall i :: 0 <= i < |s| - 1 ==> s[i] != '\n' || s[i + 1] != '\n'
    ensures Absent(Delimiter, s)
  {
    forall i | 0 <= i <= |s| ensures !StartsAt(Delimiter, s, i) {
      if i + 1 < |s| {
        assert s[i..][0] == s[i] && s[i..][1] == s[i + 1];
      }
    }
  }

  /** A frame cut inside its `data:` prefix is lost without an error: the head is too
      short to start with `data:` and the tail does not start with it either (for
      instance `da` followed by `ta:{}` and the blank line). */
  lemma CutInPrefixLosesFrame(j: nat, x: string, parse: string -> Parsed)
    requires 0 < j < |DataPrefix|
    requires forall i :: 0 <= i < |x| ==> x[i] != '\n'
    ensures StreamPayloads([DataPrefix[..j], DataPrefix[j..] + x + Delimiter]) == []
    ensures ApplyChunks(Start, [DataPrefix[..j], DataPrefix[j..] + x + Delimiter], parse) == Start
  {
    var head, tail := DataPrefix[..j], DataPrefix[j..] + x;
    var chunks := [head, tail + Delimiter];
    NoLineFeedNoDelimiter(head);
    SplitWithoutSeparator(head, Delimiter);
    assert ChunkPayloads(head) == Payloads([head]) == [] + Payloads([]);
    assert tail[0] == DataPrefix[j] != 'd';
    assert forall i :: 0 <= i < |tail| ==> tail[i] != '\n' by {
      forall i | 0 <= i < |tail| ensures tail[i] != '\n' {
        if i >= |DataPrefix| - j { assert tail[i] == x[i - (|DataPrefix| - j)]; }
      }
    }
    SecondHalfPayloads(tail);
    assert StreamPayloads(chunks[1..]) == ChunkPayloads(chunks[1]) + StreamPayloads([]);
    ChunksSplitIndependently(Start, chunks, parse);
  }

  /** A blank line cut between two chunks loses the frame after it without an error: the
      first chunk's payload keeps its line feed, and the next chunk's piece starts with the
      other line feed instead of `data:` (for instance `data:A` and a line feed, followed
      by a line feed, `data:B` and the blank line). */
  lemma CutBlankLineLosesNextFrame(a: string, b: string, parse: string -> Parsed)
    requires forall i :: 0 <= i < |a| ==> a[i] != '\n'
    requires forall i :: 0 <= i < |b| ==> b[i] != '\n'
    ensures var chunks := [DataPrefix + a + "\n", "\n" + DataPrefix + b + Delimiter];
      StreamPayloads(chunks) == [a + "\n"]
      && ApplyChunks(Start, chunks, parse) == ApplyPayload(Start, a + "\n", parse)
  {
    var chunks := [DataPrefix + a + "\n", "\n" + DataPrefix + b + Delimiter];
    HalfLineHeadPayloads(a);
    HalfLineTailPayloads(b);
    assert StreamPayloads(chunks[1..]) == ChunkPayloads(chunks[1]) + StreamPayloads([]);
    ChunksSplitIndependently(Start, chunks, parse);
    assert ApplyPayloads(Start, [a + "\n"], parse) == ApplyPayloads(ApplyPayload(Start, a + "\n", parse), [], parse);
  }

  /** The head of a cut blank line: a chunk `data:` + a + line feed is one payload that
      keeps the line feed. */
  lemma HalfLineHeadPayloads(a: string)
    requires forall i :: 0 <= i < |a| ==> a[i] != '\n'
    ensures ChunkPayloads(DataPrefix + a + "\n") == [a + "\n"]
  {
    var c1 := DataPrefix + a + "\n";
    assert forall i :: 0 <= i < |c1| - 1 ==> c1[i] != '\n' by {
      forall i | 0 <= i < |c1| - 1 ensures c1[i] != '\n' {
        if i >= 5 { assert c1[i] == a[i - 5]; }
      }
    }
    NoBlankLine(c1);
    SplitWithoutSeparator(c1, Delimiter);
    assert c1[..5] == DataPrefix && c1[5..] == a + "\n";
    assert ChunkPayloads(c1) == Payloads([c1]) == [a + "\n"] + Payloads([]);
  }

  /** The tail of a cut blank line: a chunk line feed + `data:` + b + blank line yields
      no payload, because its one piece starts with the line feed. */
  lemma HalfLineTailPayloads(b: string)
    requires forall i :: 0 <= i < |b| ==> b[i] != '\n'
    ensures ChunkPayloads("\n" + DataPrefix + b + Delimiter) == []
  {
    var w := "\n" + DataPrefix + b;
    var u := w + "\n";
    assert forall i :: 0 <= i < |u| - 1 ==> u[i] != '\n' || u[i + 1] != '\n' by {
      forall i | 0 <= i < |u| - 1 ensures u[i] != '\n' || u[i + 1] != '\n' {
        if i + 1 < 6 { assert u[i + 1] == DataPrefix[i]; }
        else if i + 1 < |u| - 1 { assert u[i + 1] == b[i - 5]; }
        else { assert u[i] == (if |b| == 0 then ':' else b[|b| - 1]); }
      }
    }
    assert Delimiter[..|Delimiter| - 1] == "\n";
    NoBlankLine(u);
    SplitAfterPiece(w, Delimiter, "");
    assert w + Delimiter == w + Delimiter + "";
    assert Split("", Delimiter) == [""];
    assert !IsPrefix(DataPrefix, w) by { assert w[0] == '\n'; }
    assert !IsPrefix(DataPrefix, "");
    assert Payloads([w, ""]) == Payloads([""]) == [];
  }
}
