/** How the event stream parser reads each kind of line, and events of several lines. */
module SseLaws {
  import opened Sse

  /** White space alone. */
  predicate Blank(s: string) {
    forall i :: 0 <= i < |s| ==> IsSpace(s[i])
  }

  lemma {:induction false} TrimStartDrops(a: string, s: string)
    requires Blank(a) && (s == "" || !IsSpace(s[0]))
    ensures TrimStart(a + s) == s
    decreases |a|
  {
    if a == "" {
      assert a + s == s;
    } else {
      assert (a + s)[1..] == a[1..] + s;
      TrimStartDrops(a[1..], s);
    }
  }

  lemma {:induction false} TrimEndDrops(s: string, b: string)
    requires Blank(b) && (s == "" || !IsSpace(s[|s| - 1]))
    ensures TrimEnd(s + b) == s
    decreases |b|
  {
    if b == "" {
      assert s + b == s;
    } else {
      assert (s + b)[..|s + b| - 1] == s + b[..|b| - 1];
      TrimEndDrops(s, b[..|b| - 1]);
    }
  }

  /** Trimming takes off exactly the white space around a text. */
  lemma TrimExactly(a: string, s: string, b: string)
    requires Blank(a) && Blank(b) && s != "" && !IsSpace(s[0]) && !IsSpace(s[|s| - 1])
    ensures Trim(a + (s + b)) == s && Trim(a) == ""
    ensures IsSpace(' ') && IsSpace('\t') && IsSpace('\r') && IsSpace('\n') && !IsSpace('a') && !IsSpace(':')
  {
    TrimStartDrops(a, s + b);
    TrimEndDrops(s, b);
    TrimStartDrops(a, "");
    assert a + "" == a;
  }

  /**
   Every line is read by its field: a name is trimmed, a value loses one leading space
   and no more, a comment and an unknown field change nothing.
   */
  lemma LinesMean(p: Parser, x: string, line: string)
    ensures ParseLine(p, "data: " + x) == p.(dataLines := p.dataLines + [x])
    ensures x == "" || x[0] != ' ' ==> ParseLine(p, "data:" + x) == p.(dataLines := p.dataLines + [x])
    ensures ParseLine(p, "event: " + x) == p.(currentEvent := Trim(x))
    ensures x == "" || x[0] != ' ' ==> ParseLine(p, "event:" + x) == p.(currentEvent := Trim(x))
    ensures ParseLine(p, ":" + x) == p
    ensures line != "" && line[0] != ':' && line[0] != 'd' && line[0] != 'e' ==> ParseLine(p, line) == p
  {
    hide Trim;
    ParseDataLine(p, x);
    ParseEventLine(p, x);
    DataWithoutSpace(p, x);
    EventWithoutSpace(p, x);
    assert (":" + x)[..1] == ":";
    if line != "" && line[0] != ':' && line[0] != 'd' && line[0] != 'e' { UnknownField(p, line); }
  }

  lemma DataWithoutSpace(p: Parser, x: string)
    ensures x == "" || x[0] != ' ' ==> ParseLine(p, "data:" + x) == p.(dataLines := p.dataLines + [x])
  {
    var line := "data:" + x;
    assert line[0] == 'd' && line[..5] == "data:" && line[5..] == x;
    if x != "" { assert line[5] == x[0]; }
    if |line| >= 6 { assert line[..6][5] == line[5]; }
  }

  lemma EventWithoutSpace(p: Parser, x: string)
    ensures x == "" || x[0] != ' ' ==> ParseLine(p, "event:" + x) == p.(currentEvent := Trim(x))
  {
    hide Trim;
    var line := "event:" + x;
    assert line[0] == 'e' && line[..6] == "event:" && line[6..] == x;
    if x != "" { assert line[6] == x[0]; }
    if |line| >= 7 { assert line[..7][6] == line[6]; }
  }

  lemma UnknownField(p: Parser, line: string)
    requires line != "" && line[0] != ':' && line[0] != 'd' && line[0] != 'e'
    ensures ParseLine(p, line) == p
  {
  }

  /** A carriage return before the newline is no part of the line. */
  lemma CarriageReturnDropped(p: Parser, line: string)
    requires p.buffer == "" && '\n' !in line && '\r' !in line
    ensures PushAll(p, (line + "\r") + "\n") == PushAll(p, line + "\n") == ParseLine(p, line)
  {
    hide PushAll, ParseLine;
    PushLine(p, line);
    PushLine(p, line + "\r");
    assert p.buffer + line == line && p.buffer + (line + "\r") == line + "\r";
    assert (line + "\r")[..|line|] == line;
    if line != "" { assert line[|line| - 1] in line; }
  }

  /** Text of several lines, with a newline between each two. */
  lemma {:induction false} JoinMore(lines: seq<string>, x: string)
    requires lines != []
    ensures Join(lines + [x]) == Join(lines) + "\n" + x
    ensures Join([]) == "" && Join([x]) == x
    decreases |lines|
  {
    if |lines| == 1 {
      assert (lines + [x])[1..] == [x];
    } else {
      assert (lines + [x])[1..] == lines[1..] + [x];
      JoinMore(lines[1..], x);
      assert lines[0] + "\n" + (Join(lines[1..]) + "\n" + x) == (lines[0] + "\n" + Join(lines[1..])) + "\n" + x;
    }
  }

  function DataLines(lines: seq<string>): string {
    if lines == [] then "" else ("data: " + lines[0] + "\n") + DataLines(lines[1..])
  }

  lemma {:induction false} DataLinesRead(p: Parser, lines: seq<string>)
    requires p.buffer == "" && forall i :: 0 <= i < |lines| ==> '\n' !in lines[i] && '\r' !in lines[i]
    ensures PushAll(p, DataLines(lines)) == p.(dataLines := p.dataLines + lines)
    decreases |lines|
  {
    hide PushAll;
    if lines == [] {
      NothingPushed(p);
      assert p.dataLines + lines == p.dataLines;
    } else {
      PushAllConcat(p, "data: " + lines[0] + "\n", DataLines(lines[1..]));
      DataLine(p, lines[0]);
      DataLinesRead(p.(dataLines := p.dataLines + [lines[0]]), lines[1..]);
      assert (p.dataLines + [lines[0]]) + lines[1..] == p.dataLines + lines;
    }
  }

  /** A blank line ends an event: one with a name or data is emitted, with its data lines joined; nothing else is. */
  lemma BlankLineEmits(p: Parser, lines: seq<string>)
    requires p.buffer == "" && p.dataLines == [] && forall i :: 0 <= i < |lines| ==> '\n' !in lines[i] && '\r' !in lines[i]
    ensures PushAll(p, DataLines(lines) + "\n") ==
      if p.currentEvent == "" && lines == [] then p
      else p.(emitted := p.emitted + [Message(p.currentEvent, Join(lines))], currentEvent := "", dataLines := [])
  {
    hide PushAll, Join;
    PushAllConcat(p, DataLines(lines), "\n");
    DataLinesRead(p, lines);
    assert p.dataLines + lines == lines;
    BlankLine(p.(dataLines := lines));
  }

  /** Flushing is what a newline and a blank line at the end of the stream would do. */
  lemma FlushEnds(p: Parser)
    ensures Flushed(p) == PushAll(p, "\n\n")
  {
    hide Trim, Join;
    var p1 := Push(p, '\n');
    assert PushAll(p, "\n\n") == PushAll(p1, "\n") == PushAll(Push(p1, '\n'), "");
    ParseLineKeepsBuffer(p.(buffer := ""), DropCr(p.buffer));
  }
}
