/** The client's incremental parser of the ritual event stream: text
    arrives in chunks, complete lines are taken off a buffer, `event:` and
    `data:` lines set the pending event, and a blank line delivers a
    pending `state` event to the listener. */
module SseClient {
  import opened Schema
  import RitualEvents

  // ---------------------------------------------------------------------
  // Strings as the client's JavaScript sees them

  /** The characters String.prototype.trim removes: white space and line
      terminators. */
  predicate IsJsSpace(c: char)
  {
    c == '\t' || c == '\n' || c == '\U{000B}' || c == '\U{000C}' || c == '\r' || c == ' '
    || c == '\U{00A0}' || c == '\U{1680}' || ('\U{2000}' <= c <= '\U{200A}')
    || c == '\U{2028}' || c == '\U{2029}' || c == '\U{202F}' || c == '\U{205F}'
    || c == '\U{3000}' || c == '\U{FEFF}'
  }

  function TrimStart(s: string): (r: string)
    ensures |r| <= |s| && r == s[|s| - |r|..]
    ensures r == [] || !IsJsSpace(r[0])
    ensures forall i :: 0 <= i < |s| - |r| ==> IsJsSpace(s[i])
  {
    if |s| > 0 && IsJsSpace(s[0]) then TrimStart(s[1..]) else s
  }

  function TrimEnd(s: string): (r: string)
    ensures |r| <= |s| && r == s[..|r|]
    ensures r == [] || !IsJsSpace(r[|r| - 1])
    ensures forall i :: |r| <= i < |s| ==> IsJsSpace(s[i])
  {
    if |s| > 0 && IsJsSpace(s[|s| - 1]) then TrimEnd(s[..|s| - 1]) else s
  }

  /** String.prototype.trim. */
  function Trim(s: string): string
  {
    TrimEnd(TrimStart(s))
  }

  /** A text that neither starts nor ends with white space. */
  predicate Tight(s: string)
  {
    |s| > 0 && !IsJsSpace(s[0]) && !IsJsSpace(s[|s| - 1])
  }

  /** Trimming removes exactly the white space around the text: the result
      is tight or empty, and a tight text after one space trims to itself. */
  lemma TrimLaws(s: string)
    ensures Trim(s) == [] || Tight(Trim(s))
    ensures Tight(s) ==> Trim(s) == s && Trim(" " + s) == s
  {
    var r := Trim(s);
    if r != [] {
      assert r[0] == TrimStart(s)[0];
    }
    if Tight(s) {
      assert TrimStart(s) == s;
      assert (" " + s)[1..] == s;
      assert TrimStart(" " + s) == s;
    }
  }

  /** `line.replace(/\r$/, "")`: one carriage return at the very end goes. */
  function StripCr(line: string): (r: string)
    ensures r == line || r + "\r" == line
  {
    if |line| > 0 && line[|line| - 1] == '\r' then line[..|line| - 1] else line
  }

  predicate StartsWith(s: string, prefix: string)
  {
    |prefix| <= |s| && s[..|prefix|] == prefix
  }

  /** `s.indexOf(c)`: the first index of `c`, or -1. */
  function IndexOf(s: string, c: char): (r: int)
    ensures -1 <= r < |s|
    ensures r == -1 ==> forall k :: 0 <= k < |s| ==> s[k] != c
    ensures r >= 0 ==> s[r] == c && forall k :: 0 <= k < r ==> s[k] != c
  {
    if |s| == 0 then -1
    else if s[0] == c then 0
    else var r := IndexOf(s[1..], c); if r < 0 then -1 else r + 1
  }

  // ---------------------------------------------------------------------
  // The parser as functions

  /** `currentEvent` and `currentData`; None is `null`. */
  datatype Fields = Fields(event: Option<string>, data: Option<string>)

  const Idle := Fields(None, None)

  /** The fields after one line, and the data texts delivered by it. */
  datatype Outcome = Outcome(fields: Fields, out: seq<string>)

  /** The inner loop's body for one line. A `state` event is delivered
      only with non-empty data (the data text is truthy); the blank line
      clears both fields whatever it delivers. Other lines are ignored. */
  function HandleLine(f: Fields, line: string): Outcome
  {
    var trimmed := StripCr(line);
    if StartsWith(trimmed, ":") then Outcome(f, [])
    else if trimmed == [] then
      Outcome(Idle, if f.event == Some("state") && f.data.Some? && f.data.value != [] then [f.data.value] else [])
    else if StartsWith(trimmed, "event:") then Outcome(f.(event := Some(Trim(trimmed[6..]))), [])
    else if StartsWith(trimmed, "data:") then Outcome(f.(data := Some(Trim(trimmed[5..]))), [])
    else Outcome(f, [])
  }

  /** What the parser holds between chunks, and what it has delivered. */
  datatype Drained = Drained(buffer: string, fields: Fields, out: seq<string>)

  /** What is done with one complete line; the client's handler is
      HandleLine. */
  type LineHandler = (Fields, string) -> Outcome

  /** The inner `while`: take every complete line off the buffer, in order,
      and hand it to the line handler. */
  function Drain(handle: LineHandler, buffer: string, f: Fields): Drained
    decreases |buffer|
  {
    var idx := IndexOf(buffer, '\n');
    if idx < 0 then Drained(buffer, f, [])
    else
      var h := handle(f, buffer[..idx]);
      var d := Drain(handle, buffer[idx + 1..], h.fields);
      Drained(d.buffer, d.fields, h.out + d.out)
  }

  predicate NoLineBreak(s: string)
  {
    forall k :: 0 <= k < |s| ==> s[k] != '\n'
  }

  /** One chunk appended to the buffer, then drained. */
  function FeedChunk(handle: LineHandler, p: Drained, chunk: string): Drained
  {
    var d := Drain(handle, p.buffer + chunk, p.fields);
    Drained(d.buffer, d.fields, p.out + d.out)
  }

  /** The outer loop over the chunks the reader yields, in order. */
  function Consume(handle: LineHandler, p: Drained, chunks: seq<string>): Drained
    decreases |chunks|
  {
    if |chunks| == 0 then p else Consume(handle, FeedChunk(handle, p, chunks[0]), chunks[1..])
  }

  function Concat(chunks: seq<string>): string
  {
    if |chunks| == 0 then [] else chunks[0] + Concat(chunks[1..])
  }

  // ---------------------------------------------------------------------
  // Chunking does not matter

  lemma IndexOfAppend(a: string, b: string, c: char)
    requires IndexOf(a, c) >= 0
    ensures IndexOf(a + b, c) == IndexOf(a, c)
  {
    var i := IndexOf(a, c);
    assert (a + b)[i] == c;
  }

  lemma AppendAssoc<T>(x: seq<T>, y: seq<T>, z: seq<T>)
    ensures x + (y + z) == (x + y) + z
  {
  }

  /** A line followed by a line break is handled, then the rest drained. */
  lemma DrainLine(handle: LineHandler, line: string, rest: string, f: Fields)
    requires NoLineBreak(line)
    ensures var h := handle(f, line);
      var d := Drain(handle, rest, h.fields);
      Drain(handle, line + "\n" + rest, f) == Drained(d.buffer, d.fields, h.out + d.out)
  {
    var s := line + "\n" + rest;
    assert s[|line|] == '\n';
    assert IndexOf(s, '\n') == |line|;
    assert s[..|line|] == line;
    assert s[|line| + 1..] == rest;
  }

  /** Only complete lines are consumed: no line break stays buffered. */
  lemma {:induction false} DrainLeavesPartialLine(handle: LineHandler, buffer: string, f: Fields)
    ensures NoLineBreak(Drain(handle, buffer, f).buffer)
    decreases |buffer|
  {
    var idx := IndexOf(buffer, '\n');
    if idx >= 0 {
      DrainLeavesPartialLine(handle, buffer[idx + 1..], handle(f, buffer[..idx]).fields);
    }
  }

  /** What stays buffered is a tail of the buffer: the text after its last
      line break. */
  lemma {:induction false} DrainKeepsTail(handle: LineHandler, buffer: string, f: Fields)
    ensures var r := Drain(handle, buffer, f);
      |r.buffer| <= |buffer| && r.buffer == buffer[|buffer| - |r.buffer|..]
    decreases |buffer|
  {
    var idx := IndexOf(buffer, '\n');
    if idx >= 0 {
      var rest := buffer[idx + 1..];
      var g := handle(f, buffer[..idx]).fields;
      DrainKeepsTail(handle, rest, g);
      var r := Drain(handle, rest, g).buffer;
      assert Drain(handle, buffer, f).buffer == r;
      assert rest[|rest| - |r|..] == buffer[|buffer| - |r|..];
    } else {
      assert Drain(handle, buffer, f).buffer == buffer;
    }
  }

  /** Draining `a + b` is draining `a` and then draining what is left of
      `a` with `b` behind it. */
  lemma {:induction false} DrainAppend(handle: LineHandler, a: string, b: string, f: Fields)
    ensures var d := Drain(handle, a, f);
      var e := Drain(handle, d.buffer + b, d.fields);
      Drain(handle, a + b, f) == Drained(e.buffer, e.fields, d.out + e.out)
    decreases |a|
  {
    var idx := IndexOf(a, '\n');
    if idx >= 0 {
      var h := handle(f, a[..idx]);
      var tail := a[idx + 1..];
      var whole := Drain(handle, tail + b, h.fields);
      assert Drain(handle, a + b, f) == Drained(whole.buffer, whole.fields, h.out + whole.out) by {
        IndexOfAppend(a, b, '\n');
        assert (a + b)[..idx] == a[..idx];
        assert (a + b)[idx + 1..] == tail + b;
      }
      var d' := Drain(handle, tail, h.fields);
      assert Drain(handle, a, f) == Drained(d'.buffer, d'.fields, h.out + d'.out);
      DrainAppend(handle, tail, b, h.fields);
      var e := Drain(handle, d'.buffer + b, d'.fields);
      AppendAssoc(h.out, d'.out, e.out);
    } else {
      var e := Drain(handle, a + b, f);
      assert Drain(handle, a, f) == Drained(a, f, []);
      assert [] + e.out == e.out;
    }
  }

  /** Feeding `c + rest` is feeding `c` and then feeding `rest`. */
  lemma FeedChunkAppend(handle: LineHandler, p: Drained, c: string, rest: string)
    ensures FeedChunk(handle, p, c + rest) == FeedChunk(handle, FeedChunk(handle, p, c), rest)
  {
    var d := Drain(handle, p.buffer + c, p.fields);
    assert p.buffer + (c + rest) == (p.buffer + c) + rest;
    DrainAppend(handle, p.buffer + c, rest, p.fields);
    var e := Drain(handle, d.buffer + rest, d.fields);
    AppendAssoc(p.out, d.out, e.out);
  }

  /** Feeding the chunks one by one delivers the same events and leaves the
      same buffer and fields as feeding their concatenation at once, from
      any state between chunks (one with no complete line buffered). */
  lemma {:induction false} ChunkingIndependent(handle: LineHandler, p: Drained, chunks: seq<string>)
    requires NoLineBreak(p.buffer)
    ensures Consume(handle, p, chunks) == FeedChunk(handle, p, Concat(chunks))
    decreases |chunks|
  {
    if |chunks| == 0 {
      assert p.buffer + [] == p.buffer;
      assert p.out + [] == p.out;
    } else {
      var q := FeedChunk(handle, p, chunks[0]);
      DrainLeavesPartialLine(handle, p.buffer + chunks[0], p.fields);
      ChunkingIndependent(handle, q, chunks[1..]);
      FeedChunkAppend(handle, p, chunks[0], Concat(chunks[1..]));
    }
  }

  // ---------------------------------------------------------------------
  // Single lines

  /** Lines starting with a colon, the keep-alive pings among them, change
      nothing. */
  lemma CommentLine(f: Fields, line: string)
    requires |line| > 0 && line[0] == ':'
    ensures HandleLine(f, line) == Outcome(f, [])
  {
    var cm := StripCr(line);
    assert cm[0] == ':';
    assert cm[..1] == ":";
  }

  /** A line ending in CR LF acts as the same line ending in LF. */
  lemma CrLfLine(f: Fields, x: string)
    requires x == [] || x[|x| - 1] != '\r'
    ensures HandleLine(f, x + "\r") == HandleLine(f, x)
  {
    assert StripCr(x + "\r") == x;
  }

  /** An `event:` line replaces the pending event name with the trimmed
      rest of the line. */
  lemma EventFieldLine(f: Fields, x: string)
    ensures HandleLine(f, "event:" + x) == Outcome(f.(event := Some(Trim(StripCr(x)))), [])
  {
    var ev := StripCr("event:" + x);
    assert ev == "event:" + StripCr(x);
    assert ev[0] == 'e';
    assert ev[..6] == "event:";
    assert ev[6..] == StripCr(x);
  }

  /** A `data:` line replaces (never extends) the pending data with the
      trimmed rest of the line. */
  lemma DataFieldLine(f: Fields, x: string)
    ensures HandleLine(f, "data:" + x) == Outcome(f.(data := Some(Trim(StripCr(x)))), [])
  {
    var da := StripCr("data:" + x);
    assert da == "data:" + StripCr(x);
    assert da[0] == 'd';
    assert !StartsWith(da, "event:") by {
      if |da| >= 6 {
        assert da[..6][0] == 'd';
      }
    }
    assert da[..5] == "data:";
    assert da[5..] == StripCr(x);
  }

  /** The blank line delivers the data of a pending `state` event with
      non-empty data, and only that, then clears both fields. */
  lemma BlankLine(f: Fields)
    ensures HandleLine(f, "").fields == Idle && HandleLine(f, "\r").fields == Idle
    ensures HandleLine(f, "").out == HandleLine(f, "\r").out
    ensures |HandleLine(f, "").out| <= 1
    ensures HandleLine(f, "").out != [] <==> f.event == Some("state") && f.data.Some? && f.data.value != []
    ensures HandleLine(f, "").out != [] ==> HandleLine(f, "").out == [f.data.value]
  {
    assert StripCr("\r") == [];
  }

  // ---------------------------------------------------------------------
  // Round trip with the server's frames

  /** What the server writes on a stream: keep-alive pings and frames. */
  datatype Message = Ping | Event(name: string, json: string)

  /** The JSON text JSON.stringify produces: non-empty, on one line, with
      nothing to trim. */
  predicate JsonText(json: string)
  {
    Tight(json) && forall k :: 0 <= k < |json| ==> json[k] != '\n'
  }

  predicate EventName(name: string)
  {
    Tight(name) && forall k :: 0 <= k < |name| ==> name[k] != '\n'
  }

  predicate Sendable(m: Message)
  {
    m.Event? ==> EventName(m.name) && JsonText(m.json)
  }

  function Wire(m: Message): string
  {
    match m
    case Ping => ": ping\n\n"
    case Event(name, json) => RitualEvents.Frame(name, json)
  }

  function WireAll(ms: seq<Message>): string
  {
    if |ms| == 0 then [] else Wire(ms[0]) + WireAll(ms[1..])
  }

  /** The data texts the listener should get: those of the `state` frames. */
  function StatePayloads(ms: seq<Message>): seq<string>
  {
    if |ms| == 0 then []
    else (if ms[0].Event? && ms[0].name == "state" then [ms[0].json] else []) + StatePayloads(ms[1..])
  }

  lemma NameLine(name: string, f: Fields)
    requires EventName(name)
    ensures HandleLine(f, "event: " + name) == Outcome(f.(event := Some(name)), [])
  {
    EventFieldLine(f, " " + name);
    assert "event:" + (" " + name) == "event: " + name;
    assert StripCr(" " + name) == " " + name;
    TrimLaws(name);
  }

  lemma PayloadLine(json: string, f: Fields)
    requires JsonText(json)
    ensures HandleLine(f, "data: " + json) == Outcome(f.(data := Some(json)), [])
  {
    DataFieldLine(f, " " + json);
    assert "data:" + (" " + json) == "data: " + json;
    assert StripCr(" " + json) == " " + json;
    TrimLaws(json);
  }

  /** A blank line between idle fields delivers nothing. */
  lemma IdleBlankStep(rest: string)
    ensures Drain(HandleLine, "\n" + rest, Idle) == Drain(HandleLine, rest, Idle)
  {
    var d := Drain(HandleLine, rest, Idle);
    DrainLine(HandleLine, [], rest, Idle);
    assert [] + "\n" + rest == "\n" + rest;
    BlankLine(Idle);
    assert [] + d.out == d.out;
  }

  /** A comment line delivers nothing and keeps the fields. */
  lemma CommentStep(line: string, rest: string, f: Fields)
    requires NoLineBreak(line) && |line| > 0 && line[0] == ':'
    ensures Drain(HandleLine, line + "\n" + rest, f) == Drain(HandleLine, rest, f)
  {
    var d := Drain(HandleLine, rest, f);
    DrainLine(HandleLine, line, rest, f);
    CommentLine(f, line);
    assert [] + d.out == d.out;
  }

  /** A keep-alive ping between idle fields delivers nothing. */
  lemma PingDrains(rest: string)
    ensures Drain(HandleLine, ": ping\n\n" + rest, Idle) == Drain(HandleLine, rest, Idle)
  {
    var ping := ": ping";
    assert NoLineBreak(ping);
    assert ": ping\n\n" + rest == ping + "\n" + ("\n" + rest);
    CommentStep(ping, "\n" + rest, Idle);
    IdleBlankStep(rest);
  }

  /** The blank line that ends a frame delivers its data text when the
      event is `state`, then goes on idle. */
  lemma BlankStep(name: string, json: string, rest: string)
    requires JsonText(json)
    ensures var d := Drain(HandleLine, rest, Idle);
      Drain(HandleLine, "\n" + rest, Fields(Some(name), Some(json))) ==
        Drained(d.buffer, d.fields, (if name == "state" then [json] else []) + d.out)
  {
    var f2 := Fields(Some(name), Some(json));
    DrainLine(HandleLine, [], rest, f2);
    BlankLine(f2);
    assert [] + "\n" + rest == "\n" + rest;
  }

  /** The data line of a frame sets the data field and delivers nothing. */
  lemma DataStep(name: string, json: string, rest: string)
    requires JsonText(json)
    ensures Drain(HandleLine, "data: " + json + "\n" + rest, Fields(Some(name), None)) ==
      Drain(HandleLine, rest, Fields(Some(name), Some(json)))
  {
    var l2 := "data: " + json;
    assert NoLineBreak(l2) by {
      assert forall k :: 6 <= k < |l2| ==> l2[k] == json[k - 6];
    }
    var d := Drain(HandleLine, rest, Fields(Some(name), Some(json)));
    DrainLine(HandleLine, l2, rest, Fields(Some(name), None));
    PayloadLine(json, Fields(Some(name), None));
    assert [] + d.out == d.out;
  }

  /** The event line of a frame sets the event field and delivers nothing. */
  lemma EventStep(name: string, rest: string)
    requires EventName(name)
    ensures Drain(HandleLine, "event: " + name + "\n" + rest, Idle) ==
      Drain(HandleLine, rest, Fields(Some(name), None))
  {
    var l1 := "event: " + name;
    assert NoLineBreak(l1) by {
      assert forall k :: 7 <= k < |l1| ==> l1[k] == name[k - 7];
    }
    var d := Drain(HandleLine, rest, Fields(Some(name), None));
    DrainLine(HandleLine, l1, rest, Idle);
    NameLine(name, Idle);
    assert [] + d.out == d.out;
  }

  /** A frame between idle fields delivers its data text exactly when its
      event is `state`, and leaves the fields idle. */
  lemma FrameDrains(name: string, json: string, rest: string)
    requires EventName(name) && JsonText(json)
    ensures var d := Drain(HandleLine, rest, Idle);
      Drain(HandleLine, RitualEvents.Frame(name, json) + rest, Idle) ==
        Drained(d.buffer, d.fields, (if name == "state" then [json] else []) + d.out)
  {
    var s2 := "\n" + rest;
    var s1 := "data: " + json + "\n" + s2;
    assert RitualEvents.Frame(name, json) + rest == "event: " + name + "\n" + s1;
    EventStep(name, s1);
    DataStep(name, json, s2);
    BlankStep(name, json, rest);
  }

  /** One message between idle fields: a frame of event `state` delivers
      its data text once, every other message delivers nothing. */
  lemma OneMessage(m: Message, rest: string)
    requires Sendable(m)
    ensures var d := Drain(HandleLine, rest, Idle);
      Drain(HandleLine, Wire(m) + rest, Idle) ==
        Drained(d.buffer, d.fields, (if m.Event? && m.name == "state" then [m.json] else []) + d.out)
  {
    match m
    case Ping =>
      PingDrains(rest);
      assert [] + Drain(HandleLine, rest, Idle).out == Drain(HandleLine, rest, Idle).out;
    case Event(name, json) =>
      FrameDrains(name, json, rest);
  }

  /** The parser, fed the server's output for any sequence of messages in
      any chunking, delivers exactly the data texts of the `state` frames,
      in order, and ends idle with an empty buffer. In particular an `error`
      frame is never delivered. */
  lemma StreamRoundTrip(ms: seq<Message>, chunks: seq<string>)
    requires forall i :: 0 <= i < |ms| ==> Sendable(ms[i])
    requires Concat(chunks) == WireAll(ms)
    ensures Consume(HandleLine, Drained([], Idle, []), chunks) == Drained([], Idle, StatePayloads(ms))
  {
    ChunkingIndependent(HandleLine, Drained([], Idle, []), chunks);
    assert [] + WireAll(ms) == WireAll(ms);
    WireRoundTrip(ms);
  }

  lemma {:induction false} WireRoundTrip(ms: seq<Message>)
    requires forall i :: 0 <= i < |ms| ==> Sendable(ms[i])
    ensures Drain(HandleLine, WireAll(ms), Idle) == Drained([], Idle, StatePayloads(ms))
    decreases |ms|
  {
    if |ms| == 0 {
      assert Drain(HandleLine, [], Idle) == Drained([], Idle, []);
    } else {
      WireRoundTrip(ms[1..]);
      OneMessage(ms[0], WireAll(ms[1..]));
    }
  }

  // ---------------------------------------------------------------------
  // The parser as the client runs it

  /** The parsing state of `subscribeRitualEvents.run`, and what it has
      handed to `onState` so far. */
  class SseReader {
    var buffer: string
    var event: Option<string>
    var data: Option<string>
    var delivered: seq<string>

    function Snapshot(): Drained
      reads this
    {
      Drained(buffer, Fields(event, data), delivered)
    }

    constructor ()
      ensures Snapshot() == Drained([], Idle, [])
    {
      buffer, event, data, delivered := [], None, None, [];
    }

    /** One chunk: append it, then take complete lines off the buffer. */
    method Feed(chunk: string)
      modifies this
      ensures Snapshot() == FeedChunk(HandleLine, old(Snapshot()), chunk)
    {
      buffer := buffer + chunk;
      ghost var goal := Drain(HandleLine, buffer, Fields(event, data));
      ghost var out0 := delivered;
      while true
        invariant Drain(HandleLine, buffer, Fields(event, data)).buffer == goal.buffer
        invariant Drain(HandleLine, buffer, Fields(event, data)).fields == goal.fields
        invariant delivered + Drain(HandleLine, buffer, Fields(event, data)).out == out0 + goal.out
        decreases |buffer|
      {
        var idx := IndexOf(buffer, '\n');
        if idx < 0 {
          break;
        }
        var line := buffer[..idx];
        ghost var h := HandleLine(Fields(event, data), line);
        ghost var rest := Drain(HandleLine, buffer[idx + 1..], h.fields);
        assert Drain(HandleLine, buffer, Fields(event, data)) == Drained(rest.buffer, rest.fields, h.out + rest.out);
        AppendAssoc(delivered, h.out, rest.out);
        buffer := buffer[idx + 1..];
        TakeLine(line);
      }
    }

    /** The inner loop's body: one line read against the current fields. */
    method TakeLine(line: string)
      modifies this
      ensures buffer == old(buffer)
      ensures Fields(event, data) == HandleLine(old(Fields(event, data)), line).fields
      ensures delivered == old(delivered) + HandleLine(old(Fields(event, data)), line).out
    {
      var trimmed := StripCr(line);
      if StartsWith(trimmed, ":") {
        return;
      }
      if trimmed == [] {
        if event == Some("state") && data.Some? && data.value != [] {
          delivered := delivered + [data.value];
        }
        event, data := None, None;
        return;
      }
      if StartsWith(trimmed, "event:") {
        event := Some(Trim(trimmed[6..]));
        return;
      }
      if StartsWith(trimmed, "data:") {
        data := Some(Trim(trimmed[5..]));
      }
    }

    /** The outer loop: feed each chunk the reader yields until it is done. */
    method Run(chunks: seq<string>)
      modifies this
      ensures Snapshot() == Consume(HandleLine, old(Snapshot()), chunks)
    {
      for i := 0 to |chunks|
        invariant Consume(HandleLine, old(Snapshot()), chunks) == Consume(HandleLine, Snapshot(), chunks[i..])
      {
        assert chunks[i..][1..] == chunks[i + 1..];
        Feed(chunks[i]);
      }
    }
  }
}
