/** The server-sent-events record framer of the chat client (`consumeSseEvents`).

    The accumulated text buffer has every carriage return removed, is cut into
    records at each blank line (`"\n\n"`), and each record becomes at most one
    event: its `data:` lines, with the prefix and the whitespace after it
    removed, joined with `"\n"`. What follows the last blank line is handed
    back as the buffer for the next call. */
module SseFramer {
  import opened JsText

  const Delimiter: string := "\n\n"
  const DataPrefix: string := "data:"

  /* ---------- carriage returns ---------- */

  /** `s.replace(/\r/g, '')`. */
  function StripCR(s: string): (r: string)
    ensures '\r' !in r
    ensures |r| <= |s|
  {
    if s == [] then [] else (if s[0] == '\r' then [] else [s[0]]) + StripCR(s[1..])
  }

  /** Exactly the carriage returns are removed: the length drops by their number. */
  lemma {:induction false} StripCRLength(s: string)
    ensures |StripCR(s)| == |s| - multiset(s)['\r']
  {
    if s != [] {
      assert s == [s[0]] + s[1..];
      StripCRLength(s[1..]);
    }
  }

  lemma {:induction false} StripCRAppend(a: string, b: string)
    ensures StripCR(a + b) == StripCR(a) + StripCR(b)
  {
    if a != [] {
      assert (a + b)[0] == a[0];
      assert (a + b)[1..] == a[1..] + b;
      StripCRAppend(a[1..], b);
    } else {
      assert a + b == b;
    }
  }

  lemma {:induction false} StripCRIdentity(s: string)
    requires '\r' !in s
    ensures StripCR(s) == s
  {
    if s != [] {
      assert s[0] in s;
      assert forall c :: c in s[1..] ==> c in s;
      StripCRIdentity(s[1..]);
    }
  }

  /* ---------- the record delimiter ---------- */

  predicate DelimiterAt(s: string, i: int) {
    0 <= i && i + 1 < |s| && s[i] == '\n' && s[i + 1] == '\n'
  }

  predicate ContainsDelimiter(s: string) {
    exists i :: 0 <= i < |s| && DelimiterAt(s, i)
  }

  /** `s.indexOf('\n\n', from)`: the first position at or after `from`
      where the delimiter starts, or -1. */
  function IndexOfDelimiterFrom(s: string, from: nat): (idx: int)
    ensures idx == -1 <==> forall j :: from <= j ==> !DelimiterAt(s, j)
    ensures idx != -1 ==>
      from <= idx && DelimiterAt(s, idx) && forall j :: from <= j < idx ==> !DelimiterAt(s, j)
    decreases |s| - from
  {
    if from + 1 >= |s| then -1
    else if DelimiterAt(s, from) then from
    else IndexOfDelimiterFrom(s, from + 1)
  }

  /** `s.indexOf('\n\n')`: the first position of the delimiter, or -1. */
  function IndexOfDelimiter(s: string): (idx: int)
    ensures idx == -1 <==> !ContainsDelimiter(s)
    ensures idx != -1 ==> DelimiterAt(s, idx) && forall j :: 0 <= j < idx ==> !DelimiterAt(s, j)
  {
    IndexOfDelimiterFrom(s, 0)
  }

  /** A record as the framer cuts it: it holds no delimiter and does not end
      with a newline (otherwise the delimiter would have been found earlier). */
  predicate WellFormedRecord(r: string) {
    !ContainsDelimiter(r) && (r == [] || r[|r| - 1] != '\n')
  }

  predicate AllWellFormed(records: seq<string>) {
    forall k :: 0 <= k < |records| ==> WellFormedRecord(records[k])
  }

  lemma AllWellFormedAppend(a: seq<string>, b: seq<string>)
    requires AllWellFormed(a) && AllWellFormed(b)
    ensures AllWellFormed(a + b)
  {
    forall k | 0 <= k < |a + b| ensures WellFormedRecord((a + b)[k]) {
      if k < |a| {
        assert (a + b)[k] == a[k];
      } else {
        assert (a + b)[k] == b[k - |a|];
      }
    }
  }

  /** The records, each followed by the delimiter, in order. */
  function Glue(records: seq<string>): string {
    if records == [] then "" else records[0] + Delimiter + Glue(records[1..])
  }

  lemma {:induction false} GlueAppend(a: seq<string>, b: seq<string>)
    ensures Glue(a + b) == Glue(a) + Glue(b)
  {
    if a == [] {
      assert a + b == b;
    } else {
      assert (a + b)[0] == a[0];
      assert (a + b)[1..] == a[1..] + b;
      GlueAppend(a[1..], b);
    }
  }

  lemma GlueShift(x: string, y: string, ra: seq<string>, resta: string, rb: seq<string>, restb: string)
    requires x == Glue(ra) + resta
    requires resta + y == Glue(rb) + restb
    ensures x + y == Glue(ra + rb) + restb
  {
    GlueAppend(ra, rb);
    calc {
      x + y;
      (Glue(ra) + resta) + y;
      Glue(ra) + (resta + y);
      Glue(ra) + (Glue(rb) + restb);
      (Glue(ra) + Glue(rb)) + restb;
      Glue(ra + rb) + restb;
    }
  }

  datatype Records = Records(records: seq<string>, rest: string)

  /** Cutting at the first delimiter gives a well-formed record, and the
      record, the delimiter and what follows give back the text. */
  lemma CutAtFirstDelimiter(s: string, idx: int)
    requires idx == IndexOfDelimiter(s) && idx != -1
    ensures s == s[..idx] + Delimiter + s[idx + 2..]
    ensures WellFormedRecord(s[..idx])
  {
    var record := s[..idx];
    assert s[idx] == '\n' && s[idx + 1] == '\n';
    if ContainsDelimiter(record) {
      var j :| 0 <= j < |record| && DelimiterAt(record, j);
      assert DelimiterAt(s, j);
    }
    if record != [] && record[|record| - 1] == '\n' {
      assert DelimiterAt(s, idx - 1);
    }
  }

  /** The cutting loop of `consumeSseEvents` on an already CR-free buffer:
      cut at the first delimiter until none is left. Every record is
      well-formed and the rest holds no delimiter. */
  function SplitRecords(s: string): (sp: Records)
    ensures !ContainsDelimiter(sp.rest)
    ensures AllWellFormed(sp.records)
    decreases |s|
  {
    var idx := IndexOfDelimiter(s);
    if idx == -1 then Records([], s)
    else
      CutAtFirstDelimiter(s, idx);
      var tail := SplitRecords(s[idx + 2..]);
      var records := [s[..idx]] + tail.records;
      assert forall k :: 1 <= k < |records| ==> records[k] == tail.records[k - 1];
      Records(records, tail.rest)
  }

  /** Nothing is lost or duplicated: the records, each followed by the
      delimiter, and then the rest give back the text. */
  lemma {:induction false} SplitRecordsReassembles(s: string)
    ensures s == Glue(SplitRecords(s).records) + SplitRecords(s).rest
    decreases |s|
  {
    var idx := IndexOfDelimiter(s);
    if idx != -1 {
      CutAtFirstDelimiter(s, idx);
      var after := s[idx + 2..];
      SplitRecordsReassembles(after);
      var tail := SplitRecords(after);
      var records := SplitRecords(s).records;
      assert records == [s[..idx]] + tail.records;
      assert records[0] == s[..idx] && records[1..] == tail.records;
      calc {
        Glue(records) + SplitRecords(s).rest;
        (s[..idx] + Delimiter + Glue(tail.records)) + tail.rest;
        s[..idx] + Delimiter + (Glue(tail.records) + tail.rest);
        s;
      }
    }
  }

  /** The converse of SplitRecords' reassembly property: gluing well-formed
      records in front of a rest without a delimiter is cut back into exactly
      those records and that rest. */
  lemma {:induction false} SplitRecordsOfGlue(records: seq<string>, rest: string)
    requires AllWellFormed(records)
    requires !ContainsDelimiter(rest)
    ensures SplitRecords(Glue(records) + rest) == Records(records, rest)
  {
    var s := Glue(records) + rest;
    if records == [] {
      assert s == rest;
    } else {
      var r := records[0];
      var after := Glue(records[1..]) + rest;
      assert s == r + Delimiter + after;
      FirstDelimiterAfterRecord(r, after);
      CutOneRecord(s);
      assert s[..|r|] == r;
      assert s[|r| + 2..] == after;
      assert AllWellFormed(records[1..]) by {
        assert forall k :: 1 <= k < |records| ==> records[1..][k - 1] == records[k];
      }
      SplitRecordsOfGlue(records[1..], rest);
      assert records == [r] + records[1..];
    }
  }

  /** The first delimiter after a well-formed record is the one that follows it. */
  lemma FirstDelimiterAfterRecord(r: string, after: string)
    requires WellFormedRecord(r)
    ensures IndexOfDelimiter(r + Delimiter + after) == |r|
  {
    var s := r + Delimiter + after;
    assert DelimiterAt(s, |r|);
    forall j | 0 <= j < |r| ensures !DelimiterAt(s, j) {
      if j + 1 < |r| {
        if DelimiterAt(s, j) {
          assert DelimiterAt(r, j);
        }
      } else {
        assert s[j] == r[|r| - 1];
      }
    }
  }

  /* ---------- one record to one event ---------- */

  /** `record.split('\n')`. */
  function SplitLines(s: string): (lines: seq<string>)
    ensures |lines| >= 1
    ensures forall k :: 0 <= k < |lines| ==> '\n' !in lines[k]
    decreases |s|
  {
    if s == [] then [""]
    else
      var tail := SplitLines(s[1..]);
      if s[0] == '\n' then [""] + tail
      else [[s[0]] + tail[0]] + tail[1..]
  }

  /** `parts.join('\n')`. Only no part at all, or a single empty part,
      joins to the empty string. */
  function JoinLines(parts: seq<string>): (r: string)
    ensures r == "" <==> parts == [] || parts == [""]
  {
    if |parts| == 0 then ""
    else if |parts| == 1 then parts[0]
    else parts[0] + "\n" + JoinLines(parts[1..])
  }

  /** Splitting at newlines and joining with newlines gives the record back. */
  lemma {:induction false} JoinSplitLines(s: string)
    ensures JoinLines(SplitLines(s)) == s
    decreases |s|
  {
    if s != [] {
      var tail := SplitLines(s[1..]);
      JoinSplitLines(s[1..]);
      if s[0] != '\n' && |tail| > 1 {
        assert JoinLines(tail) == tail[0] + "\n" + JoinLines(tail[1..]);
        assert ([[s[0]] + tail[0]] + tail[1..])[1..] == tail[1..];
      }
    }
  }

  lemma {:induction false} SplitLinesWithoutNewline(s: string)
    requires '\n' !in s
    ensures SplitLines(s) == [s]
  {
    if s != [] {
      assert s[0] in s;
      assert forall c :: c in s[1..] ==> c in s;
      SplitLinesWithoutNewline(s[1..]);
      assert [s[0]] + s[1..] == s;
    }
  }

  /** `l.startsWith('data:')`. */
  predicate IsDataLine(l: string): (b: bool)
    ensures b <==> |l| >= 5 && l[..5] == "data:"
  {
    StartsWith(l, DataPrefix)
  }

  /** `l.slice(5).trimStart()`: the value of a `data:` line. */
  function DataValue(l: string): (v: string)
    requires IsDataLine(l)
    ensures v == [] || !IsWhitespace(v[0])
    ensures |v| <= |l| - |DataPrefix| && v == l[|l| - |v|..]
    ensures forall i :: |DataPrefix| <= i < |l| - |v| ==> IsWhitespace(l[i])
  {
    TrimStart(l[|DataPrefix|..])
  }

  /** `lines.filter(startsWith 'data:').map(DataValue)`: one value per `data:`
      line, in order; none at all exactly when no line is a `data:` line. */
  function DataValues(lines: seq<string>): (values: seq<string>)
    ensures |values| <= |lines|
    ensures values == [] <==> forall k :: 0 <= k < |lines| ==> !IsDataLine(lines[k])
  {
    if lines == [] then []
    else
      var rest := DataValues(lines[1..]);
      assert forall k :: 1 <= k < |lines| ==> lines[k] == lines[1..][k - 1];
      if IsDataLine(lines[0]) then [DataValue(lines[0])] + rest else rest
  }

  /** The payload of one record (`public/chat.js`, lines 219-223). It is empty
      exactly when the record has no `data:` line, or a single one whose
      value is empty. */
  function RecordData(record: string): (data: string)
    ensures var values := DataValues(SplitLines(record));
      data == "" <==> values == [] || values == [""]
  {
    JoinLines(DataValues(SplitLines(record)))
  }

  /** `DataValues` maps the `data:` lines one by one: it distributes over
      concatenation, and a single line gives its value exactly when it is a
      `data:` line. */
  lemma {:induction false} DataValuesAppend(a: seq<string>, b: seq<string>)
    ensures DataValues(a + b) == DataValues(a) + DataValues(b)
  {
    if a == [] {
      assert a + b == b;
    } else {
      assert (a + b)[0] == a[0];
      assert (a + b)[1..] == a[1..] + b;
      DataValuesAppend(a[1..], b);
    }
  }

  lemma DataValuesOne(l: string)
    ensures DataValues([l]) == (if IsDataLine(l) then [DataValue(l)] else [])
  {
    assert [l][1..] == [];
  }

  /** The event a record yields: its payload, if that is not empty. */
  function RecordEvents(record: string): (events: seq<string>)
    ensures |events| <= 1
    ensures events == [] <==> RecordData(record) == ""
    ensures events != [] ==> events[0] == RecordData(record)
  {
    var data := RecordData(record);
    if data != "" then [data] else []
  }

  /** A record without any `data:` line yields no event. */
  lemma NoDataLineNoEvent(record: string)
    requires forall l :: l in SplitLines(record) ==> !IsDataLine(l)
    ensures RecordEvents(record) == []
  {
    var lines := SplitLines(record);
    assert forall k :: 0 <= k < |lines| ==> lines[k] in lines;
  }

  /** A one-line `data:` record yields exactly its trimmed value. */
  lemma SingleDataLine(record: string)
    requires '\n' !in record && IsDataLine(record)
    ensures RecordData(record) == TrimStart(record[|DataPrefix|..])
  {
    SplitLinesWithoutNewline(record);
  }

  /** The events of a sequence of records, in record order. */
  function EventsOf(records: seq<string>): (events: seq<string>)
    ensures |events| <= |records|
    ensures forall k :: 0 <= k < |events| ==> events[k] != ""
  {
    if records == [] then [] else RecordEvents(records[0]) + EventsOf(records[1..])
  }

  lemma {:induction false} EventsOfAppend(a: seq<string>, b: seq<string>)
    ensures EventsOf(a + b) == EventsOf(a) + EventsOf(b)
  {
    if a == [] {
      assert a + b == b;
    } else {
      assert (a + b)[0] == a[0];
      assert (a + b)[1..] == a[1..] + b;
      EventsOfAppend(a[1..], b);
    }
  }

  /** Every event is the payload of one of the records. */
  lemma {:induction false} EventsComeFromRecords(records: seq<string>, e: string)
    requires e in EventsOf(records)
    ensures e != "" && exists k :: 0 <= k < |records| && e == RecordData(records[k])
  {
    if RecordEvents(records[0]) != [] && e == RecordData(records[0]) {
    } else {
      assert e in EventsOf(records[1..]);
      EventsComeFromRecords(records[1..], e);
      var k :| 0 <= k < |records[1..]| && e == RecordData(records[1..][k]);
      assert records[k + 1] == records[1..][k];
    }
  }

  /* ---------- the whole call ---------- */

  datatype Framed = Framed(events: seq<string>, rest: string)

  /** What `consumeSseEvents(buffer)` returns: the events of the complete
      records and the unconsumed tail. The tail is clean (no carriage return,
      no delimiter), every event is non-empty, and without a delimiter the
      call consumes nothing. */
  function Consume(buffer: string): (f: Framed)
    ensures '\r' !in f.rest && !ContainsDelimiter(f.rest)
    ensures forall k :: 0 <= k < |f.events| ==> f.events[k] != ""
    ensures !ContainsDelimiter(StripCR(buffer)) ==> f == Framed([], StripCR(buffer))
  {
    var s := StripCR(buffer);
    var sp := SplitRecords(s);
    SplitRecordsReassembles(s);
    assert '\r' !in sp.rest by {
      assert forall c :: c in sp.rest ==> c in s;
    }
    Framed(EventsOf(sp.records), sp.rest)
  }

  /** One turn of the cutting loop: the first record and the records after it. */
  lemma CutOneRecord(s: string)
    requires IndexOfDelimiter(s) != -1
    ensures var idx := IndexOfDelimiter(s);
      && SplitRecords(s).records == [s[..idx]] + SplitRecords(s[idx + 2..]).records
      && SplitRecords(s).rest == SplitRecords(s[idx + 2..]).rest
  {
  }

  lemma EventsOfSnoc(records: seq<string>, r: string)
    ensures EventsOf(records + [r]) == EventsOf(records) + RecordEvents(r)
  {
    EventsOfAppend(records, [r]);
    assert [r][1..] == [];
  }

  /** One turn of the loop of ConsumeSseEvents, in terms of all the records
      of the text: the record cut off is the next one, and its events follow
      the events of the records before it. */
  lemma ConsumeStep(records: seq<string>, rest: string, done: nat, buffer: string)
    requires done <= |records| && SplitRecords(buffer) == Records(records[done..], rest)
    requires IndexOfDelimiter(buffer) != -1
    ensures var idx := IndexOfDelimiter(buffer);
      && done < |records| && records[done] == buffer[..idx]
      && SplitRecords(buffer[idx + 2..]) == Records(records[done + 1..], rest)
      && EventsOf(records[..done + 1]) == EventsOf(records[..done]) + RecordEvents(buffer[..idx])
  {
    var idx := IndexOfDelimiter(buffer);
    CutOneRecord(buffer);
    assert records[done + 1..] == records[done..][1..];
    assert records[..done + 1] == records[..done] + [records[done]];
    EventsOfSnoc(records[..done], records[done]);
  }

  /** `consumeSseEvents` (lines 209-229): the imperative loop, proved to
      return what Consume describes. */
  method ConsumeSseEvents(input: string) returns (events: seq<string>, buffer: string)
    ensures Framed(events, buffer) == Consume(input)
    ensures '\r' !in buffer && !ContainsDelimiter(buffer)
    ensures forall k :: 0 <= k < |events| ==> events[k] != ""
  {
    events := [];
    buffer := StripCR(input);
    ghost var all := SplitRecords(buffer);
    ghost var done := 0;
    var idx := IndexOfDelimiter(buffer);
    while idx != -1
      invariant idx == IndexOfDelimiter(buffer)
      invariant 0 <= done <= |all.records|
      invariant SplitRecords(buffer) == Records(all.records[done..], all.rest)
      invariant events == EventsOf(all.records[..done])
      decreases |buffer|
    {
      var chunk := buffer[..idx];
      ConsumeStep(all.records, all.rest, done, buffer);
      buffer := buffer[idx + 2..];
      var data := RecordData(chunk);
      if data != "" {
        events := events + [data];
      }
      done := done + 1;
      idx := IndexOfDelimiter(buffer);
    }
    assert all.records[..done] == all.records;
  }

  /* ---------- feeding chunks one at a time ---------- */

  /** The concatenation of the chunks. */
  function Concat(chunks: seq<string>): string {
    if chunks == [] then "" else chunks[0] + Concat(chunks[1..])
  }

  /** The read loop's threading of the buffer (`public/chat.js`, lines 87-89):
      append the chunk, consume, keep the returned tail for the next chunk. */
  function FeedChunks(buffer: string, chunks: seq<string>): (f: Framed)
    ensures chunks == [] ==> f == Framed([], buffer)
    ensures chunks != [] ==> '\r' !in f.rest && !ContainsDelimiter(f.rest)
    ensures forall k :: 0 <= k < |f.events| ==> f.events[k] != ""
    decreases |chunks|
  {
    if chunks == [] then Framed([], buffer)
    else
      var f := Consume(buffer + chunks[0]);
      var g := FeedChunks(f.rest, chunks[1..]);
      Framed(f.events + g.events, g.rest)
  }

  /** Appending more text after a consumed buffer: the records found before
      stay as they are, and the tail is re-framed together with the new text. */
  lemma SplitRecordsAppend(x: string, y: string)
    ensures SplitRecords(x + y).records
         == SplitRecords(x).records + SplitRecords(SplitRecords(x).rest + y).records
    ensures SplitRecords(x + y).rest == SplitRecords(SplitRecords(x).rest + y).rest
  {
    var a := SplitRecords(x);
    var b := SplitRecords(a.rest + y);
    SplitRecordsReassembles(x);
    SplitRecordsReassembles(a.rest + y);
    GlueShift(x, y, a.records, a.rest, b.records, b.rest);
    AllWellFormedAppend(a.records, b.records);
    SplitRecordsOfGlue(a.records + b.records, b.rest);
  }

  /** A clean buffer (what Consume leaves behind) is consumed without change. */
  lemma ConsumeClean(buffer: string)
    requires '\r' !in buffer && !ContainsDelimiter(buffer)
    ensures Consume(buffer) == Framed([], buffer)
  {
    StripCRIdentity(buffer);
  }

  /** Consuming is incremental: consuming a text in two pieces, the second
      appended to the tail the first leaves behind, gives the events and the
      tail of consuming it at once. */
  lemma ConsumeAppend(u: string, v: string)
    ensures var f := Consume(u);
            var g := Consume(f.rest + v);
            Consume(u + v) == Framed(f.events + g.events, g.rest)
  {
    var f := Consume(u);
    var x, y := StripCR(u), StripCR(v);
    StripCRAppend(u, v);
    StripCRAppend(f.rest, v);
    StripCRIdentity(f.rest);
    SplitRecordsAppend(x, y);
    EventsOfAppend(SplitRecords(x).records, SplitRecords(SplitRecords(x).rest + y).records);
  }

  /** Feeding chunks one at a time, starting from a clean buffer, gives the
      same events and the same tail as consuming all of the text at once. */
  lemma {:induction false} FeedChunksIsConsume(buffer: string, chunks: seq<string>)
    requires '\r' !in buffer && !ContainsDelimiter(buffer)
    ensures FeedChunks(buffer, chunks) == Consume(buffer + Concat(chunks))
    decreases |chunks|
  {
    if chunks == [] {
      assert Concat(chunks) == "";
      assert buffer + "" == buffer;
      ConsumeClean(buffer);
    } else {
      var f := Consume(buffer + chunks[0]);
      var g := FeedChunks(f.rest, chunks[1..]);
      FeedChunksIsConsume(f.rest, chunks[1..]);
      FeedOneChunk(buffer, chunks, f, g);
      ConsumeOneChunk(buffer, chunks, f, g);
    }
  }

  /** One step of the read loop's threading, unfolded. */
  lemma FeedOneChunk(buffer: string, chunks: seq<string>, f: Framed, g: Framed)
    requires chunks != [] && f == Consume(buffer + chunks[0])
    requires g == FeedChunks(f.rest, chunks[1..])
    ensures FeedChunks(buffer, chunks) == Framed(f.events + g.events, g.rest)
  {
  }

  lemma ConcatStep(buffer: string, chunks: seq<string>)
    requires chunks != []
    ensures buffer + Concat(chunks) == (buffer + chunks[0]) + Concat(chunks[1..])
  {
    assert Concat(chunks) == chunks[0] + Concat(chunks[1..]);
  }

  /** `ConsumeAppend` with the first chunk split off the rest. */
  lemma ConsumeOneChunk(buffer: string, chunks: seq<string>, f: Framed, g: Framed)
    requires chunks != [] && f == Consume(buffer + chunks[0])
    requires g == Consume(f.rest + Concat(chunks[1..]))
    ensures Consume(buffer + Concat(chunks)) == Framed(f.events + g.events, g.rest)
  {
    ConcatStep(buffer, chunks);
    ConsumeAppend(buffer + chunks[0], Concat(chunks[1..]));
  }

  /** The reassembly property of the read loop: however the text is cut into
      chunks, threading the buffer yields the events of the whole text. */
  lemma ChunkingDoesNotMatter(chunks: seq<string>)
    ensures FeedChunks("", chunks) == Consume(Concat(chunks))
  {
    assert !ContainsDelimiter("");
    FeedChunksIsConsume("", chunks);
    assert "" + Concat(chunks) == Concat(chunks);
  }
}
