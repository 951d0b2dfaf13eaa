/**
 Server-sent events: the frames the host writes, the incremental parser of the
 web client, and the proof that chunking is invisible and frames come back.
 */
module Sse {

  datatype Message = Message(event: string, data: string)

  /** The parser: unfinished line, pending event name and data lines, and what it has emitted. */
  datatype Parser = Parser(buffer: string, currentEvent: string, dataLines: seq<string>, emitted: seq<Message>)

  const EMPTY := Parser("", "", [], [])

  // ----- text helpers -----

  predicate StartsWith(s: string, prefix: string) {
    |prefix| <= |s| && s[..|prefix|] == prefix
  }

  /** White space and line terminators, as String.prototype.trim removes them. */
  predicate IsSpace(c: char) {
    var n := c as int;
    || 0x09 <= n <= 0x0D || n == 0x20 || n == 0xA0 || n == 0x1680 || 0x2000 <= n <= 0x200A
    || n == 0x2028 || n == 0x2029 || n == 0x202F || n == 0x205F || n == 0x3000 || n == 0xFEFF
  }

  function TrimStart(s: string): string {
    if s != [] && IsSpace(s[0]) then TrimStart(s[1..]) else s
  }

  function TrimEnd(s: string): string {
    if s != [] && IsSpace(s[|s| - 1]) then TrimEnd(s[..|s| - 1]) else s
  }

  function Trim(s: string): string {
    TrimEnd(TrimStart(s))
  }

  function DropCr(line: string): string {
    if line != [] && line[|line| - 1] == '\r' then line[..|line| - 1] else line
  }

  function Join(lines: seq<string>): string {
    if lines == [] then "" else if |lines| == 1 then lines[0] else lines[0] + "\n" + Join(lines[1..])
  }

  // ----- the parser -----

  function Dispatch(p: Parser): Parser {
    if p.currentEvent != "" || |p.dataLines| > 0
    then p.(emitted := p.emitted + [Message(p.currentEvent, Join(p.dataLines))], currentEvent := "", dataLines := [])
    else p
  }

  function ParseLine(p: Parser, line: string): Parser {
    if line == "" then Dispatch(p)
    else if StartsWith(line, ":") then p
    else if StartsWith(line, "event: ") then p.(currentEvent := Trim(line[7..]))
    else if StartsWith(line, "event:") then p.(currentEvent := Trim(line[6..]))
    else if StartsWith(line, "data: ") then p.(dataLines := p.dataLines + [line[6..]])
    else if StartsWith(line, "data:") then p.(dataLines := p.dataLines + [line[5..]])
    else p
  }

  /** The parser one character at a time: a newline ends the line collected so far. */
  function Push(p: Parser, c: char): Parser {
    if c == '\n' then ParseLine(p.(buffer := ""), DropCr(p.buffer)) else p.(buffer := p.buffer + [c])
  }

  function PushAll(p: Parser, text: string): Parser
    decreases |text|
  {
    if text == [] then p else PushAll(Push(p, text[0]), text[1..])
  }

  lemma {:induction false} PushAllConcat(p: Parser, a: string, b: string)
    ensures PushAll(p, a + b) == PushAll(PushAll(p, a), b)
    decreases |a|
  {
    if a == [] {
      assert a + b == b;
    } else {
      PushAllConcat(Push(p, a[0]), a[1..], b);
      assert (a + b)[0] == a[0] && (a + b)[1..] == a[1..] + b;
    }
  }

  /** Text without a newline only extends the unfinished line. */
  lemma {:induction false} PushPlain(p: Parser, text: string)
    requires '\n' !in text
    ensures PushAll(p, text) == p.(buffer := p.buffer + text)
    decreases |text|
  {
    if text == [] {
      assert p.buffer + text == p.buffer;
    } else {
      assert text[0] in text;
      PushPlain(Push(p, text[0]), text[1..]);
      assert p.buffer + text == p.buffer + [text[0]] + text[1..];
    }
  }

  lemma PushLine(p: Parser, line: string)
    requires '\n' !in line
    ensures PushAll(p, line + "\n") == ParseLine(p.(buffer := ""), DropCr(p.buffer + line))
  {
    PushAllConcat(p, line, "\n");
    PushPlain(p, line);
    assert "\n"[1..] == "";
  }

  class SSEParser {
    var buffer: string
    var currentEvent: string
    var dataLines: seq<string>
    ghost var emitted: seq<Message>

    ghost function State(): Parser
      reads this
    {
      Parser(buffer, currentEvent, dataLines, emitted)
    }

    constructor ()
      ensures State() == EMPTY
    {
      buffer, currentEvent, dataLines := "", "", [];
      emitted := [];
    }

    method DispatchEvent()
      modifies this
      ensures State() == Dispatch(old(State()))
    {
      if currentEvent != "" || |dataLines| > 0 {
        emitted := emitted + [Message(currentEvent, Join(dataLines))];
        currentEvent := "";
        dataLines := [];
      }
    }

    method ParseOne(line: string)
      modifies this
      ensures State() == ParseLine(old(State()), line)
    {
      if line == "" {
        DispatchEvent();
      } else if StartsWith(line, ":") {
        return;
      } else if StartsWith(line, "event: ") {
        currentEvent := Trim(line[7..]);
      } else if StartsWith(line, "event:") {
        currentEvent := Trim(line[6..]);
      } else if StartsWith(line, "data: ") {
        dataLines := dataLines + [line[6..]];
      } else if StartsWith(line, "data:") {
        dataLines := dataLines + [line[5..]];
      }
    }

    /** Position of the first newline in the buffer, or -1. */
    method NewlineIndex() returns (i: int)
      ensures i == -1 ==> '\n' !in buffer
      ensures i != -1 ==> 0 <= i < |buffer| && buffer[i] == '\n' && '\n' !in buffer[..i]
    {
      for k := 0 to |buffer|
        invariant '\n' !in buffer[..k]
      {
        if buffer[k] == '\n' {
          return k;
        }
      }
      assert buffer[..|buffer|] == buffer;
      i := -1;
    }

    /** Feeding a chunk is feeding its characters. */
    method Feed(chunk: string)
      requires '\n' !in buffer
      modifies this
      ensures State() == PushAll(old(State()), chunk) && '\n' !in buffer
    {
      ghost var start := old(State()).(buffer := "");
      buffer := buffer + chunk;
      ghost var goal := PushAll(old(State()), chunk);
      PushAllConcat(start, old(buffer), chunk);
      PushPlain(start, old(buffer));
      assert "" + old(buffer) == old(buffer);
      var i := NewlineIndex();
      while i != -1
        invariant i == -1 ==> '\n' !in buffer
        invariant i != -1 ==> 0 <= i < |buffer| && buffer[i] == '\n' && '\n' !in buffer[..i]
        invariant PushAll(State().(buffer := ""), buffer) == goal
        decreases |buffer|
      {
        var line, rest := buffer[..i], buffer[i + 1..];
        ghost var clean := State().(buffer := "");
        assert buffer == (line + "\n") + rest;
        PushAllConcat(clean, line + "\n", rest);
        PushLine(clean, line);
        assert "" + line == line;
        if line != [] && line[|line| - 1] == '\r' {
          line := line[..|line| - 1];
        }
        buffer := rest;
        ghost var before := State();
        ParseOne(line);
        ParseLineKeepsBuffer(before, line);
        ParseLineIgnoresBuffer(before, line);
        i := NewlineIndex();
      }
      PushPlain(State().(buffer := ""), buffer);
      assert "" + buffer == buffer;
    }

    method Flush()
      modifies this
      ensures State() == Flushed(old(State()))
    {
      if |buffer| > 0 {
        var line := buffer;
        if line[|line| - 1] == '\r' {
          line := line[..|line| - 1];
        }
        buffer := "";
        ParseOne(line);
      }
      DispatchEvent();
    }
  }

  function Flushed(p: Parser): Parser {
    Dispatch(if |p.buffer| > 0 then ParseLine(p.(buffer := ""), DropCr(p.buffer)) else p)
  }

  lemma ParseLineKeepsBuffer(p: Parser, line: string)
    ensures ParseLine(p, line).buffer == p.buffer
  {
  }

  lemma ParseLineIgnoresBuffer(p: Parser, line: string)
    ensures ParseLine(p, line).(buffer := "") == ParseLine(p.(buffer := ""), line)
  {
  }

  function Concat(chunks: seq<string>): string {
    if chunks == [] then "" else chunks[0] + Concat(chunks[1..])
  }

  function FeedEach(p: Parser, chunks: seq<string>): Parser
    decreases |chunks|
  {
    if chunks == [] then p else FeedEach(PushAll(p, chunks[0]), chunks[1..])
  }

  /** However a stream is cut into chunks, the parser ends in the same state with the same events. */
  lemma {:induction false} ChunkingInvisible(p: Parser, chunks: seq<string>)
    ensures FeedEach(p, chunks) == PushAll(p, Concat(chunks))
    decreases |chunks|
  {
    if chunks != [] {
      PushAllConcat(p, chunks[0], Concat(chunks[1..]));
      ChunkingInvisible(PushAll(p, chunks[0]), chunks[1..]);
    }
  }

  // ----- the frames the host writes -----

  datatype Frame = Event(message: Message) | Keepalive

  function Render(f: Frame): string {
    match f
    case Keepalive => ": ping\n\n"
    case Event(m) =>
      if m.event != "" then "event: " + m.event + "\n" + "data: " + m.data + "\n\n"
      else "data: " + m.data + "\n\n"
  }

  function RenderAll(frames: seq<Frame>): string {
    if frames == [] then "" else Render(frames[0]) + RenderAll(frames[1..])
  }

  function Carried(f: Frame): seq<Message> {
    if f.Event? then [f.message] else []
  }

  function Sent(frames: seq<Frame>): seq<Message> {
    if frames == [] then [] else Carried(frames[0]) + Sent(frames[1..])
  }

  /** What the host puts in a frame: JSON text on one line, and a trimmed event name. */
  predicate Sendable(f: Frame) {
    f.Event? ==>
      && '\n' !in f.message.data && '\r' !in f.message.data
      && '\n' !in f.message.event && Trim(f.message.event) == f.message.event
  }

  /** The host's side: frames from handler and keepalive go out whole, until the stream stops. */
  class Stream {
    var output: string
    var closed: bool
    ghost var frames: seq<Frame>

    ghost predicate Valid()
      reads this
    {
      output == RenderAll(frames)
    }

    constructor ()
      ensures Valid() && frames == [] && !closed
    {
      output, closed, frames := "", false, [];
    }

    method SendRaw(frame: string, ghost f: Frame) returns (ok: bool)
      requires Valid() && frame == Render(f)
      modifies this
      ensures Valid() && ok == !old(closed) && closed == old(closed)
      ensures frames == if ok then old(frames) + [f] else old(frames)
    {
      if closed {
        return false;
      }
      output := output + frame;
      RenderPlus(frames, f);
      frames := frames + [f];
      ok := true;
    }

    method SendJSON(event: string, json: string) returns (ok: bool)
      requires Valid()
      modifies this
      ensures Valid() && ok == !old(closed) && closed == old(closed)
      ensures frames == if ok then old(frames) + [Event(Message(event, json))] else old(frames)
    {
      ghost var f := Event(Message(event, json));
      if event != "" {
        ok := SendRaw("event: " + event + "\n" + "data: " + json + "\n\n", f);
      } else {
        ok := SendRaw("data: " + json + "\n\n", f);
      }
    }

    method SendKeepalive() returns (ok: bool)
      requires Valid()
      modifies this
      ensures Valid() && ok == !old(closed) && closed == old(closed)
      ensures frames == if ok then old(frames) + [Keepalive] else old(frames)
    {
      ok := SendRaw(": ping\n\n", Keepalive);
    }

    method Stop()
      requires Valid()
      modifies this
      ensures Valid() && closed && frames == old(frames)
    {
      closed := true;
    }
  }

  lemma {:induction false} RenderPlus(frames: seq<Frame>, f: Frame)
    ensures RenderAll(frames + [f]) == RenderAll(frames) + Render(f)
    decreases |frames|
  {
    if frames == [] {
      assert frames + [f] == [f];
      assert RenderAll([f]) == Render(f) + RenderAll([]) by { assert [f][1..] == []; }
    } else {
      RenderPlus(frames[1..], f);
      assert (frames + [f])[0] == frames[0] && (frames + [f])[1..] == frames[1..] + [f];
    }
  }

  // ----- round trip -----

  lemma ParseDataLine(p: Parser, data: string)
    ensures ParseLine(p, "data: " + data) == p.(dataLines := p.dataLines + [data])
  {
  }

  lemma DataLine(p: Parser, data: string)
    requires p.buffer == "" && '\n' !in data && '\r' !in data
    ensures PushAll(p, "data: " + data + "\n") == p.(dataLines := p.dataLines + [data])
  {
    hide PushAll, ParseLine;
    var line := "data: " + data;
    assert '\n' !in line && '\r' !in line;
    PushLine(p, line);
    assert p.buffer + line == line;
    assert line[|line| - 1] in line;
    ParseDataLine(p, data);
  }

  lemma ParseEventLine(p: Parser, event: string)
    ensures ParseLine(p, "event: " + event) == p.(currentEvent := Trim(event))
  {
    hide Trim;
    var line := "event: " + event;
    assert line[..7] == "event: " && line[7..] == event;
    assert line[0] == 'e';
  }

  lemma EventLine(p: Parser, event: string)
    requires p.buffer == "" && event != "" && '\n' !in event && Trim(event) == event
    ensures PushAll(p, "event: " + event + "\n") == p.(currentEvent := event)
  {
    hide PushAll, Trim, ParseLine;
    var line := "event: " + event;
    assert '\n' !in line;
    TrimmedEnd(event);
    PushLine(p, line);
    assert p.buffer + line == line;
    assert line[|line| - 1] == event[|event| - 1];
    ParseEventLine(p, event);
  }

  lemma TrimmedEnd(s: string)
    requires s != [] && Trim(s) == s
    ensures s[|s| - 1] != '\r'
  {
    TrimStartLength(s);
    TrimEndLength(TrimStart(s));
    assert TrimStart(s) == s;
    if IsSpace(s[|s| - 1]) { TrimEndLength(s[..|s| - 1]); }
  }

  lemma {:induction false} TrimStartLength(s: string)
    ensures |TrimStart(s)| <= |s| && (|TrimStart(s)| == |s| ==> TrimStart(s) == s)
  {
    if s != [] && IsSpace(s[0]) { TrimStartLength(s[1..]); }
  }

  lemma {:induction false} TrimEndLength(s: string)
    ensures |TrimEnd(s)| <= |s|
  {
    if s != [] && IsSpace(s[|s| - 1]) { TrimEndLength(s[..|s| - 1]); }
  }

  lemma BlankLine(p: Parser)
    requires p.buffer == ""
    ensures PushAll(p, "\n") == Dispatch(p)
  {
  }

  /** A parser between frames. */
  predicate Idle(p: Parser) {
    p.buffer == "" && p.currentEvent == "" && p.dataLines == []
  }

  lemma KeepaliveSilent(p: Parser)
    requires Idle(p)
    ensures PushAll(p, ": ping\n\n") == p
  {
    hide PushAll, Trim;
    assert ": ping\n\n" == (": ping" + "\n") + "\n";
    PushAllConcat(p, ": ping" + "\n", "\n");
    PushLine(p, ": ping");
    assert p.buffer + ": ping" == ": ping";
    BlankLine(p);
  }

  lemma NamedRoundTrip(p: Parser, m: Message)
    requires Idle(p) && Sendable(Event(m)) && m.event != ""
    ensures PushAll(p, Render(Event(m))) == p.(emitted := p.emitted + [m])
  {
    hide PushAll, Trim;
    var eventPart, dataPart := "event: " + m.event + "\n", "data: " + m.data + "\n";
    assert Render(Event(m)) == eventPart + (dataPart + "\n");
    PushAllConcat(p, eventPart, dataPart + "\n");
    EventLine(p, m.event);
    FinishFrame(p.(currentEvent := m.event), m.data);
  }

  lemma FrameRoundTrip(p: Parser, f: Frame)
    requires Idle(p) && Sendable(f)
    ensures PushAll(p, Render(f)) == p.(emitted := p.emitted + Carried(f))
  {
    hide PushAll, Trim;
    if f.Keepalive? {
      KeepaliveSilent(p);
      assert p.emitted + [] == p.emitted;
    } else if f.message.event != "" {
      NamedRoundTrip(p, f.message);
    } else {
      assert Render(f) == ("data: " + f.message.data + "\n") + "\n";
      FinishFrame(p, f.message.data);
    }
  }

  lemma FinishFrame(p: Parser, data: string)
    requires p.buffer == "" && p.dataLines == [] && '\n' !in data && '\r' !in data
    ensures PushAll(p, ("data: " + data + "\n") + "\n") ==
      p.(emitted := p.emitted + [Message(p.currentEvent, data)], currentEvent := "", dataLines := [])
  {
    PushAllConcat(p, "data: " + data + "\n", "\n");
    DataLine(p, data);
    BlankLine(p.(dataLines := p.dataLines + [data]));
    assert p.dataLines + [data] == [data];
  }

  /** Parsing any run of frames and keepalives, however chunked, yields exactly the messages sent, in order. */
  lemma {:induction false} FramesRoundTrip(p: Parser, frames: seq<Frame>)
    requires Idle(p) && forall i :: 0 <= i < |frames| ==> Sendable(frames[i])
    ensures PushAll(p, RenderAll(frames)) == p.(emitted := p.emitted + Sent(frames))
    decreases |frames|
  {
    hide PushAll, Render, Sendable, Carried;
    if frames == [] {
      NothingPushed(p);
    } else {
      var p1 := p.(emitted := p.emitted + Carried(frames[0]));
      assert PushAll(p, RenderAll(frames)) == PushAll(p1, RenderAll(frames[1..])) by {
        FrameRoundTrip(p, frames[0]);
        PushAllConcat(p, Render(frames[0]), RenderAll(frames[1..]));
      }
      FramesRoundTrip(p1, frames[1..]);
      assert p1.emitted + Sent(frames[1..]) == p.emitted + Sent(frames);
    }
  }

  lemma NothingPushed(p: Parser)
    ensures PushAll(p, "") == p && p.emitted + [] == p.emitted
  {
  }

  /** End to end: a whole stream read in chunks and flushed emits exactly what was sent. */
  lemma StreamRoundTrip(frames: seq<Frame>, chunks: seq<string>)
    requires forall i :: 0 <= i < |frames| ==> Sendable(frames[i])
    requires Concat(chunks) == RenderAll(frames)
    ensures Flushed(FeedEach(EMPTY, chunks)).emitted == Sent(frames)
  {
    ChunkingInvisible(EMPTY, chunks);
    FramesRoundTrip(EMPTY, frames);
    assert EMPTY.emitted + Sent(frames) == Sent(frames);
  }
}
