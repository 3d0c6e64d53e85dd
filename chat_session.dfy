/** The send/receive state machine of the chat client (`sendMessage`, lines
    50-126 of public/chat.js): the conversation history, the single-flight
    `isProcessing` flag, and the read loop that turns the reply stream into
    the assistant's text. */
module Chat {
  import opened JsText
  import opened SseFramer
  import opened Payload

  /* ---------- the read loop ---------- */

  /** The text one batch of events adds (the `for` loop, lines 91-108): the
      fragments of the events in order, up to the first `[DONE]`, which ends
      the batch. Payloads that contribute nothing leave it empty. */
  function BatchText(events: seq<string>, parse: Parser): (t: string)
    ensures Silent(events, parse) ==> t == ""
  {
    if events == [] || events[0] == DoneSentinel then ""
    else FragmentText(events[0], parse) + BatchText(events[1..], parse)
  }

  /** No payload of the batch contributes a fragment. */
  predicate Silent(events: seq<string>, parse: Parser) {
    forall k :: 0 <= k < |events| ==> FragmentText(events[k], parse) == ""
  }

  /** The text the read loop (lines 83-109) accumulates from the chunks that
      are still to come, starting from `buffer`. Each chunk is appended to the
      buffer, consumed, and its batch of events decoded; the tail goes on to
      the next chunk. When the chunks run out the tail is dropped. Reads
      that deliver no text add nothing. */
  function StreamText(buffer: string, chunks: seq<string>, parse: Parser): (t: string)
    ensures ('\r' !in buffer && !ContainsDelimiter(buffer) &&
             forall k :: 0 <= k < |chunks| ==> chunks[k] == "") ==> t == ""
    decreases |chunks|
  {
    if chunks == [] then ""
    else
      var f := Consume(buffer + chunks[0]);
      EmptyReadKeepsBuffer(buffer, chunks[0]);
      BatchText(f.events, parse) + StreamText(f.rest, chunks[1..], parse)
  }

  lemma EmptyReadKeepsBuffer(buffer: string, chunk: string)
    ensures '\r' !in buffer && !ContainsDelimiter(buffer) && chunk == "" ==>
      Consume(buffer + chunk) == Framed([], buffer)
  {
    if '\r' !in buffer && !ContainsDelimiter(buffer) && chunk == "" {
      assert buffer + chunk == buffer;
      ConsumeClean(buffer);
    }
  }

  /** The `for` loop over one batch of events (lines 91-108), returning the
      text it appends to `responseText`. */
  method DecodeBatch(events: seq<string>, parse: Parser) returns (text: string)
    ensures text == BatchText(events, parse)
  {
    text := "";
    var j := 0;
    while j < |events|
      invariant 0 <= j <= |events|
      invariant text + BatchText(events[j..], parse) == BatchText(events, parse)
      decreases |events| - j
    {
      var data := events[j];
      var fragment := "";
      match Decode(data, parse) {
        case Done =>
          BatchTextStep(events, j, parse);
          break;
        case Malformed =>
          // logged and skipped
        case Content(content) =>
          if Truthy(content) {
            match ToText(content) {
              case Some(t) =>
                fragment := t;
              case None =>
                // the conversion threw: caught like a parse failure
            }
          }
      }
      FragmentTextCases(data, parse);
      BatchLoopStep(events, j, text, fragment, parse);
      text := text + fragment;
      j := j + 1;
    }
  }

  /** The read loop of `sendMessage` (lines 83-109), with `responseText` as
      its result. */
  method ReadStream(chunks: seq<string>, parse: Parser) returns (responseText: string)
    ensures responseText == StreamText("", chunks, parse)
  {
    var buffer := "";
    responseText := "";
    var i := 0;
    while i < |chunks|
      invariant 0 <= i <= |chunks|
      invariant responseText + StreamText(buffer, chunks[i..], parse) == StreamText("", chunks, parse)
    {
      StreamStep(buffer, chunks, i, parse);
      ghost var after := StreamText(Consume(buffer + chunks[i]).rest, chunks[i + 1..], parse);
      buffer := buffer + chunks[i];
      var events, rest := ConsumeSseEvents(buffer);
      buffer := rest;
      var text := DecodeBatch(events, parse);
      AppendAssoc(responseText, text, after);
      responseText := responseText + text;
      i := i + 1;
    }
  }

  /** `FragmentText` by the branches of the loop body. */
  lemma FragmentTextCases(data: string, parse: Parser)
    ensures var d := Decode(data, parse);
      FragmentText(data, parse) ==
        if d.Content? && Truthy(d.value) && ToText(d.value).Some? then ToText(d.value).value else ""
  {
  }

  /** The invariant of DecodeBatch is kept by appending the fragment. */
  lemma BatchLoopStep(events: seq<string>, j: nat, text: string, fragment: string, parse: Parser)
    requires j < |events| && events[j] != DoneSentinel
    requires fragment == FragmentText(events[j], parse)
    requires text + BatchText(events[j..], parse) == BatchText(events, parse)
    ensures (text + fragment) + BatchText(events[j + 1..], parse) == BatchText(events, parse)
  {
    BatchTextStep(events, j, parse);
    AppendAssoc(text, fragment, BatchText(events[j + 1..], parse));
  }

  lemma AppendAssoc(a: string, b: string, c: string)
    ensures a + (b + c) == (a + b) + c
  {
  }

  /** One iteration of the `for` loop, in terms of `BatchText`. */
  lemma BatchTextStep(events: seq<string>, j: nat, parse: Parser)
    requires j < |events|
    ensures events[j] == DoneSentinel ==> BatchText(events[j..], parse) == ""
    ensures events[j] != DoneSentinel ==>
      BatchText(events[j..], parse) == FragmentText(events[j], parse) + BatchText(events[j + 1..], parse)
  {
    assert events[j..][0] == events[j] && events[j..][1..] == events[j + 1..];
  }

  /** One iteration of the read loop, in terms of `StreamText`. */
  lemma StreamStep(buffer: string, chunks: seq<string>, i: nat, parse: Parser)
    requires i < |chunks|
    ensures StreamText(buffer, chunks[i..], parse)
         == BatchText(Consume(buffer + chunks[i]).events, parse)
          + StreamText(Consume(buffer + chunks[i]).rest, chunks[i + 1..], parse)
  {
    assert chunks[i..][0] == chunks[i] && chunks[i..][1..] == chunks[i + 1..];
  }

  /* ---------- what the read loop promises ---------- */

  /** `[DONE]` ends its batch: nothing after it in the same batch counts. */
  lemma {:induction false} DoneEndsBatch(before: seq<string>, after: seq<string>, parse: Parser)
    requires DoneSentinel !in before
    ensures BatchText(before + [DoneSentinel] + after, parse) == BatchText(before, parse)
  {
    var e := before + [DoneSentinel] + after;
    if before == [] {
      assert e[0] == DoneSentinel;
    } else {
      assert e[0] == before[0] && e[1..] == before[1..] + [DoneSentinel] + after;
      DoneEndsBatch(before[1..], after, parse);
    }
  }

  /** Without `[DONE]` in the first part, a batch's text is the text of its parts. */
  lemma {:induction false} BatchTextAppend(a: seq<string>, b: seq<string>, parse: Parser)
    requires DoneSentinel !in a
    ensures BatchText(a + b, parse) == BatchText(a, parse) + BatchText(b, parse)
  {
    if a == [] {
      assert a + b == b;
    } else {
      BatchTextAppend(a[1..], b, parse);
      BatchTextAppendStep(a, b, FragmentText(a[0], parse), parse);
    }
  }

  /** One step of `BatchTextAppend`: the first event's fragment `f` heads
      both sides. */
  lemma BatchTextAppendStep(a: seq<string>, b: seq<string>, f: string, parse: Parser)
    requires a != [] && a[0] != DoneSentinel && f == FragmentText(a[0], parse)
    requires BatchText(a[1..] + b, parse) == BatchText(a[1..], parse) + BatchText(b, parse)
    ensures BatchText(a + b, parse) == BatchText(a, parse) + BatchText(b, parse)
  {
    assert (a + b)[0] == a[0] && (a + b)[1..] == a[1..] + b;
    assert BatchText(a + b, parse) == f + BatchText(a[1..] + b, parse);
    assert BatchText(a, parse) == f + BatchText(a[1..], parse);
    AppendAssoc(f, BatchText(a[1..], parse), BatchText(b, parse));
  }

  lemma {:induction false} StreamTextIsBatchText(buffer: string, chunks: seq<string>, parse: Parser)
    requires DoneSentinel !in FeedChunks(buffer, chunks).events
    ensures StreamText(buffer, chunks, parse) == BatchText(FeedChunks(buffer, chunks).events, parse)
    decreases |chunks|
  {
    if chunks != [] {
      var f := Consume(buffer + chunks[0]);
      var g := FeedChunks(f.rest, chunks[1..]);
      assert FeedChunks(buffer, chunks).events == f.events + g.events;
      assert DoneSentinel !in f.events && DoneSentinel !in g.events;
      StreamTextIsBatchText(f.rest, chunks[1..], parse);
      BatchTextAppend(f.events, g.events, parse);
    }
  }

  /** When the stream holds no `[DONE]`, how it is cut into chunks does not
      change the reply: it is the text of all the events of the whole stream. */
  lemma ChunkingInvisibleWithoutDone(chunks: seq<string>, parse: Parser)
    requires DoneSentinel !in Consume(Concat(chunks)).events
    ensures StreamText("", chunks, parse) == BatchText(Consume(Concat(chunks)).events, parse)
  {
    ChunkingDoesNotMatter(chunks);
    StreamTextIsBatchText("", chunks, parse);
  }

  /** There is no final flush: a stream whose text never completes a record
      (no blank line) yields no text at all, whatever its `data:` lines say. */
  lemma UnterminatedStreamYieldsNothing(chunks: seq<string>, parse: Parser)
    requires !ContainsDelimiter(StripCR(Concat(chunks)))
    ensures StreamText("", chunks, parse) == ""
  {
    ChunkingDoesNotMatter(chunks);
    assert Consume(Concat(chunks)).events == [];
    ChunkingInvisibleWithoutDone(chunks, parse);
  }

  /** A chunk made of complete CR-free records contributes exactly the text
      of their events, and leaves the buffer empty for the next chunk. */
  lemma StreamOfRecordChunk(records: seq<string>, chunks: seq<string>, parse: Parser)
    requires AllWellFormed(records)
    requires forall k :: 0 <= k < |records| ==> '\r' !in records[k]
    requires chunks != [] && chunks[0] == Glue(records)
    ensures StreamText("", chunks, parse)
         == BatchText(EventsOf(records), parse) + StreamText("", chunks[1..], parse)
  {
    ConsumeRecords(records);
    assert "" + Glue(records) == Glue(records);
  }

  lemma OneRecordEvents(r: string)
    requires RecordData(r) != ""
    ensures EventsOf([r]) == [RecordData(r)]
  {
    assert [r][1..] == [];
  }

  /** `[DONE]` only ends the batch it arrives in (the `break` leaves the
      `for`, not the read loop). A record after it in the same chunk is
      ignored ... */
  lemma DoneInOneChunk(done: string, next: string, parse: Parser)
    requires WellFormedRecord(done) && WellFormedRecord(next)
    requires '\r' !in done && '\r' !in next
    requires RecordData(done) == DoneSentinel
    ensures StreamText("", [done + Delimiter + next + Delimiter], parse) == ""
  {
    var records := [done, next];
    GlueTwo(done, next);
    StreamOfRecordChunk(records, [done + Delimiter + next + Delimiter], parse);
    DoneFirstEndsBatch(done, next, parse);
  }

  lemma GlueTwo(a: string, b: string)
    ensures Glue([a, b]) == a + Delimiter + b + Delimiter
  {
    calc {
      Glue([a, b]);
      { assert [a, b][1..] == [b]; }
      a + Delimiter + Glue([b]);
      { GlueOne(b); }
      a + Delimiter + (b + Delimiter);
    }
  }

  lemma DoneFirstEndsBatch(done: string, next: string, parse: Parser)
    requires RecordData(done) == DoneSentinel
    ensures BatchText(EventsOf([done, next]), parse) == ""
  {
    assert [done, next][1..] == [next];
    OneRecordEvents(done);
    assert EventsOf([done, next]) == [DoneSentinel] + EventsOf([next]);
  }

  /** ... while the same record in the next chunk is processed. */
  lemma DoneInEarlierChunk(done: string, next: string, parse: Parser)
    requires WellFormedRecord(done) && WellFormedRecord(next)
    requires '\r' !in done && '\r' !in next
    requires RecordData(done) == DoneSentinel && RecordData(next) != ""
    ensures StreamText("", [done + Delimiter, next + Delimiter], parse)
         == FragmentText(RecordData(next), parse)
  {
    var chunks := [done + Delimiter, next + Delimiter];
    DoneChunkFirst(done, chunks, parse);
    assert chunks[1..] == [next + Delimiter];
    SingleRecordChunk(next, parse);
  }

  /** A first chunk holding just a `[DONE]` record adds nothing. */
  lemma DoneChunkFirst(done: string, chunks: seq<string>, parse: Parser)
    requires WellFormedRecord(done) && '\r' !in done && RecordData(done) == DoneSentinel
    requires chunks != [] && chunks[0] == done + Delimiter
    ensures StreamText("", chunks, parse) == StreamText("", chunks[1..], parse)
  {
    GlueOne(done);
    OneRecordEvents(done);
    StreamOfRecordChunk([done], chunks, parse);
    DoneBatchIsEmpty(parse);
    EmptyHead(StreamText("", chunks[1..], parse));
  }

  /** A batch that is just `[DONE]` adds nothing. */
  lemma DoneBatchIsEmpty(parse: Parser)
    ensures BatchText([DoneSentinel], parse) == ""
  {
  }

  lemma EmptyHead(s: string)
    ensures "" + s == s
  {
  }

  /** A chunk holding one complete record with data yields that data's fragment. */
  lemma SingleRecordChunk(r: string, parse: Parser)
    requires WellFormedRecord(r) && '\r' !in r && RecordData(r) != ""
    ensures StreamText("", [r + Delimiter], parse) == FragmentText(RecordData(r), parse)
  {
    GlueOne(r);
    OneRecordEvents(r);
    StreamOfRecordChunk([r], [r + Delimiter], parse);
    BatchTextOne(RecordData(r), parse);
  }

  lemma GlueOne(r: string)
    ensures Glue([r]) == r + Delimiter
  {
    assert Glue([r]) == r + Delimiter + Glue([]);
  }

  lemma BatchTextOne(e: string, parse: Parser)
    ensures BatchText([e], parse) == FragmentText(e, parse)
  {
    assert [e][1..] == [];
  }

  /** Complete CR-free records, each followed by the delimiter, are consumed
      into exactly their events, leaving nothing behind. */
  lemma ConsumeRecords(records: seq<string>)
    requires AllWellFormed(records)
    requires forall k :: 0 <= k < |records| ==> '\r' !in records[k]
    ensures Consume(Glue(records)) == Framed(EventsOf(records), "")
  {
    GlueHasNoCR(records);
    StripCRIdentity(Glue(records));
    assert !ContainsDelimiter("");
    assert Glue(records) + "" == Glue(records);
    SplitRecordsOfGlue(records, "");
  }

  lemma {:induction false} GlueHasNoCR(records: seq<string>)
    requires forall k :: 0 <= k < |records| ==> '\r' !in records[k]
    ensures '\r' !in Glue(records)
  {
    if records != [] {
      GlueHasNoCR(records[1..]);
      assert '\r' !in records[0];
    }
  }

  /** A payload that fails to parse (or parses to `null`) is skipped, and the
      events after it in the batch are still processed. */
  lemma MalformedIsSkipped(data: string, rest: seq<string>, parse: Parser)
    requires Decode(data, parse).Malformed?
    ensures BatchText([data] + rest, parse) == BatchText(rest, parse)
  {
    assert ([data] + rest)[0] == data && ([data] + rest)[1..] == rest;
  }

  /** The payloads of the scenario below: one line, no carriage return, and
      nothing for `trimStart` to remove. */
  predicate PlainPayload(p: string) {
    p != "" && '\n' !in p && '\r' !in p && !IsWhitespace(p[0])
  }

  /** The record a server sends for one payload: `data: <payload>` and a blank line. */
  function Frame(p: string): string {
    "data: " + p + Delimiter
  }

  lemma PlainPayloadRecord(p: string)
    requires PlainPayload(p)
    ensures var r := "data: " + p;
      WellFormedRecord(r) && '\r' !in r && RecordData(r) == p
  {
    var r := "data: " + p;
    assert '\n' !in r && '\r' !in r;
    OneLineIsWellFormed(r);
    PlainPayloadData(p);
  }

  lemma OneLineIsWellFormed(r: string)
    requires r != [] && '\n' !in r
    ensures WellFormedRecord(r)
  {
    assert r[|r| - 1] in r;
    forall i | 0 <= i < |r|
      ensures !DelimiterAt(r, i)
    {
      assert r[i] in r;
    }
  }

  lemma PlainPayloadData(p: string)
    requires PlainPayload(p)
    ensures RecordData("data: " + p) == p
  {
    var r := "data: " + p;
    assert '\n' !in r;
    assert r[..|DataPrefix|] == DataPrefix;
    SingleDataLine(r);
    assert r[|DataPrefix|..] == " " + p;
    assert (" " + p)[1..] == p;
  }

  /** A chunk that frames one plain payload contributes that payload's fragment. */
  lemma PlainFrameChunk(p: string, chunks: seq<string>, parse: Parser)
    requires PlainPayload(p) && chunks != [] && chunks[0] == Frame(p)
    ensures StreamText("", chunks, parse) == FragmentText(p, parse) + StreamText("", chunks[1..], parse)
  {
    var r := "data: " + p;
    PlainPayloadRecord(p);
    GlueOne(r);
    OneRecordEvents(r);
    StreamOfRecordChunk([r], chunks, parse);
    BatchTextOne(p, parse);
  }

  /** One chunk per payload, each framed as a record. */
  function Frames(payloads: seq<string>): (chunks: seq<string>)
    ensures |chunks| == |payloads|
  {
    if payloads == [] then [] else [Frame(payloads[0])] + Frames(payloads[1..])
  }

  /** The fragments of the payloads, in order. */
  function FragmentsText(payloads: seq<string>, parse: Parser): string {
    if payloads == [] then "" else FragmentText(payloads[0], parse) + FragmentsText(payloads[1..], parse)
  }

  /** When each record arrives in a chunk of its own, every payload is
      processed, `[DONE]` included: each ends only its own one-event batch. */
  lemma {:induction false} OneRecordPerChunk(payloads: seq<string>, parse: Parser)
    requires forall k :: 0 <= k < |payloads| ==> PlainPayload(payloads[k])
    ensures StreamText("", Frames(payloads), parse) == FragmentsText(payloads, parse)
  {
    if payloads != [] {
      var chunks := Frames(payloads);
      assert chunks[0] == Frame(payloads[0]) && chunks[1..] == Frames(payloads[1..]);
      PlainFrameChunk(payloads[0], chunks, parse);
      OneRecordPerChunk(payloads[1..], parse);
    }
  }

  /** A typical reply, one chunk per record: a delta-shaped fragment, a
      response-shaped fragment and the `[DONE]` sentinel. The reply text is
      the two fragments in order, and it becomes the assistant's turn exactly
      when it is not empty. */
  lemma TypicalReply(p1: string, p2: string, t1: string, t2: string, parse: Parser)
    requires PlainPayload(p1) && PlainPayload(p2)
    requires p1 != DoneSentinel && p2 != DoneSentinel
    requires parse(p1) == Some(DeltaShape(t1)) && parse(p2) == Some(ResponseShape(t2))
    ensures var chunks := Frames([p1, p2, DoneSentinel]);
      StreamText("", chunks, parse) == t1 + t2 &&
      ReplyTurns(Reply(chunks, Finished), parse) ==
        (if t1 + t2 == "" then [] else [Turn(Assistant, t1 + t2)])
  {
    TypicalReplyText(p1, p2, t1, t2, parse);
  }

  /** The stream text of the typical reply. */
  lemma TypicalReplyText(p1: string, p2: string, t1: string, t2: string, parse: Parser)
    requires PlainPayload(p1) && PlainPayload(p2)
    requires p1 != DoneSentinel && p2 != DoneSentinel
    requires parse(p1) == Some(DeltaShape(t1)) && parse(p2) == Some(ResponseShape(t2))
    ensures StreamText("", Frames([p1, p2, DoneSentinel]), parse) == t1 + t2
  {
    var payloads := [p1, p2, DoneSentinel];
    ShapedFragments(p1, p2, t1, t2, parse);
    assert PlainPayload(DoneSentinel);
    OneRecordPerChunk(payloads, parse);
    FragmentsOfThree(p1, p2, DoneSentinel, parse);
    assert t1 + t2 + "" == t1 + t2;
  }

  lemma FragmentsOfThree(a: string, b: string, c: string, parse: Parser)
    ensures FragmentsText([a, b, c], parse)
         == FragmentText(a, parse) + FragmentText(b, parse) + FragmentText(c, parse)
  {
    var fa, fb, fc := FragmentText(a, parse), FragmentText(b, parse), FragmentText(c, parse);
    FragmentsTextCons(c, [], fc, parse);
    assert [c] == [c] + [];
    FragmentsTextCons(b, [c], fb, parse);
    FragmentsTextCons(a, [b, c], fa, parse);
    assert fc + "" == fc;
    AppendAssoc(fa, fb, fc);
  }

  /** The fragment `f` of the first payload heads the text of the rest. */
  lemma FragmentsTextCons(p: string, rest: seq<string>, f: string, parse: Parser)
    requires f == FragmentText(p, parse)
    ensures FragmentsText([p] + rest, parse) == f + FragmentsText(rest, parse)
  {
    assert ([p] + rest)[0] == p && ([p] + rest)[1..] == rest;
  }

  lemma ShapedFragments(p1: string, p2: string, t1: string, t2: string, parse: Parser)
    requires p1 != DoneSentinel && p2 != DoneSentinel
    requires parse(p1) == Some(DeltaShape(t1)) && parse(p2) == Some(ResponseShape(t2))
    ensures FragmentText(p1, parse) == t1 && FragmentText(p2, parse) == t2
    ensures FragmentText(DoneSentinel, parse) == ""
  {
    ShapesYieldTheirText(t1);
    ShapesYieldTheirText(t2);
  }

  /* ---------- the session ---------- */

  datatype Role = User | Assistant
  datatype Turn = Turn(role: Role, content: string)

  /** How the transport ends after delivering its chunks: the reader reports
      `done`, or the request fails (non-ok status, no body, a read error). */
  datatype StreamEnd = Finished | Failed
  datatype Reply = Reply(chunks: seq<string>, end: StreamEnd)

  /** The turns a reply adds to the history (lines 111-113): one assistant
      turn, only when the stream finished without failing and its text is not
      empty. */
  function ReplyTurns(reply: Reply, parse: Parser): (turns: seq<Turn>)
    ensures |turns| <= 1
    ensures turns != [] <==> reply.end == Finished && StreamText("", reply.chunks, parse) != ""
    ensures turns != [] ==> turns[0] == Turn(Assistant, StreamText("", reply.chunks, parse))
  {
    var text := StreamText("", reply.chunks, parse);
    if reply.end == Finished && text != "" then [Turn(Assistant, text)] else []
  }

  /** The module-level state of the chat client (lines 13-14). */
  class Session {
    var history: seq<Turn>
    var isProcessing: bool

    constructor ()
      ensures history == [] && !isProcessing
    {
      history := [];
      isProcessing := false;
    }

    /** Lines 51-62: the guard, the flag, and the user's turn. A message that
        is empty after trimming, or one sent while a request is in flight,
        changes nothing. */
    method Submit(input: string) returns (accepted: bool)
      modifies this
      ensures accepted <==> Trim(input) != "" && !old(isProcessing)
      ensures accepted ==> history == old(history) + [Turn(User, Trim(input))] && isProcessing
      ensures !accepted ==> history == old(history) && isProcessing == old(isProcessing)
    {
      var message := Trim(input);
      if message == "" || isProcessing {
        return false;
      }
      isProcessing := true;
      history := history + [Turn(User, message)];
      accepted := true;
    }

    /** Lines 64-125: read the reply, record the assistant's turn, and clear
        the flag on every path (the `finally`). */
    method Receive(reply: Reply, parse: Parser)
      requires isProcessing
      modifies this
      ensures !isProcessing
      ensures history == old(history) + ReplyTurns(reply, parse)
    {
      var responseText := ReadStream(reply.chunks, parse);
      if reply.end == Finished {
        if responseText != "" {
          history := history + [Turn(Assistant, responseText)];
        }
      } else {
        // the catch: the failure is shown, nothing is recorded
      }
      isProcessing := false;
    }

    /** `sendMessage` as a whole, when nothing else runs while it awaits. */
    method Send(input: string, reply: Reply, parse: Parser) returns (accepted: bool)
      modifies this
      ensures accepted <==> Trim(input) != "" && !old(isProcessing)
      ensures accepted ==>
        history == old(history) + [Turn(User, Trim(input))] + ReplyTurns(reply, parse)
      ensures accepted ==> !isProcessing
      ensures !accepted ==> history == old(history) && isProcessing == old(isProcessing)
    {
      accepted := Submit(input);
      if accepted {
        Receive(reply, parse);
      }
    }
  }
}
