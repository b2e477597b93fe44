/** The dashboard's side of the connection (client/src/main.cpp): the bounded
    wait for the server's reply, the read loop that cuts the received text at
    ']' and lets only a TIME line set `now`, and the inversion of the header
    band of the frame buffer. */
module Dashboard {
  import opened Strings
  import opened Ascii
  import opened Forecast
  import opened Messages

  /** One call of readStringUntil(c): the characters up to the first c,
      which is consumed and dropped, and what is left after it; without a c,
      everything that is left. */
  datatype Cut = Cut(line: string, rest: string)

  function ReadUntil(s: string, c: char): (r: Cut)
    ensures |r.rest| <= |s| && (s != [] ==> |r.rest| < |s|)
  {
    if s == [] then Cut([], [])
    else if s[0] == c then Cut([], s[1..])
    else
      var r := ReadUntil(s[1..], c);
      Cut([s[0]] + r.line, r.rest)
  }

  /** readStringUntil cuts at the first occurrence of c. */
  lemma {:induction false} ReadUntilIndexOf(s: string, c: char)
    ensures var i := IndexOf(s, c);
      ReadUntil(s, c) == if i == -1 then Cut(s, []) else Cut(s[..i], s[i + 1..])
  {
    if s != [] && s[0] != c {
      ReadUntilIndexOf(s[1..], c);
      var i := IndexOf(s[1..], c);
      if i != -1 {
        assert s[..i + 1] == [s[0]] + s[1..][..i];
        assert s[i + 2..] == s[1..][i + 1..];
      }
    }
  }

  /** The lines the read loop gets, one per call of readStringUntil(']')
      while characters remain. */
  function Segments(s: string): (ls: seq<string>)
    ensures |ls| <= |s|
    ensures ls == [] <==> s == []
    decreases |s|
  {
    if s == [] then []
    else
      var r := ReadUntil(s, ']');
      [r.line] + Segments(r.rest)
  }

  /** The ']' is consumed: no segment contains it. */
  lemma {:induction false} SegmentsHaveNoTerminator(s: string)
    ensures forall k :: 0 <= k < |Segments(s)| ==> Lacks(Segments(s)[k], ']')
    decreases |s|
  {
    if s != [] {
      ReadUntilIndexOf(s, ']');
      var r := ReadUntil(s, ']');
      SegmentsHaveNoTerminator(r.rest);
      assert Segments(s) == [r.line] + Segments(r.rest);
    }
  }

  /** Lines each followed by the terminator ']', as the server writes them. */
  function Terminated(lines: seq<string>): string
  {
    if lines == [] then [] else lines[0] + "]" + Terminated(lines[1..])
  }

  /** Text that ends in ']' is cut back into exactly the lines it was made of:
      joining the segments, each with its ']', gives back the text. */
  lemma {:induction false} SegmentsCover(s: string)
    requires s != [] ==> s[|s| - 1] == ']'
    ensures Terminated(Segments(s)) == s
    decreases |s|
  {
    if s != [] {
      ReadUntilIndexOf(s, ']');
      var i := IndexOf(s, ']');
      assert s == s[..i] + "]" + s[i + 1..];
      SegmentsCover(s[i + 1..]);
    }
  }

  /** Cutting terminated lines that contain no ']' gives back those lines. */
  lemma {:induction false} SegmentsOfTerminated(lines: seq<string>)
    requires forall k :: 0 <= k < |lines| ==> Lacks(lines[k], ']')
    ensures Segments(Terminated(lines)) == lines
  {
    if lines != [] {
      var rest := Terminated(lines[1..]);
      var s := Terminated(lines);
      assert ReadUntil(s, ']') == Cut(lines[0], rest) by {
        assert s == lines[0] + ("]" + rest);
        IndexOfAfterPlain(lines[0], "]" + rest, ']');
        ReadUntilIndexOf(s, ']');
        assert s[..|lines[0]|] == lines[0];
        assert s[|lines[0]| + 1..] == rest;
      }
      SegmentsOfTerminated(lines[1..]);
      assert lines == [lines[0]] + lines[1..];
    }
  }

  /** A line whose text before its first '|' is exactly "TIME". */
  predicate IsTimeLine(line: string)
  {
    |line| >= 5 && line[..5] == "TIME|"
  }

  /** One pass of the read loop's dispatch: the new value of `now` after `line`. */
  function Dispatch(now: string, line: string): (r: string)
    ensures r == if IsTimeLine(line) then line[5..] else now
    ensures Lacks(line, '|') ==> r == now
  {
    var sep := IndexOf(line, '|');
    if sep != -1 && line[..sep] == "TIME" then
      line[sep + 1..]
    else
      assert IsTimeLine(line) ==> sep == 4 by {
        if IsTimeLine(line) {
          assert line == "TIME" + line[4..];
          IndexOfAfterPlain("TIME", line[4..], '|');
        }
      }
      now
  }

  /** `now` after the read loop has dispatched the lines in order. */
  function FinalNow(now: string, lines: seq<string>): string
    decreases |lines|
  {
    if lines == [] then now else FinalNow(Dispatch(now, lines[0]), lines[1..])
  }

  /** The payload of the last TIME line, or `now` when there is none. */
  function LastTime(now: string, lines: seq<string>): (r: string)
    ensures (forall k :: 0 <= k < |lines| ==> !IsTimeLine(lines[k])) ==> r == now
  {
    if lines == [] then now
    else if IsTimeLine(lines[|lines| - 1]) then lines[|lines| - 1][5..]
    else LastTime(now, lines[..|lines| - 1])
  }

  lemma {:induction false} FinalNowSnoc(now: string, lines: seq<string>, line: string)
    ensures FinalNow(now, lines + [line]) == Dispatch(FinalNow(now, lines), line)
    decreases |lines|
  {
    if lines != [] {
      assert (lines + [line])[1..] == lines[1..] + [line];
      FinalNowSnoc(Dispatch(now, lines[0]), lines[1..], line);
    }
  }

  /** After the read loop, `now` holds the payload of the last TIME line;
      WEATHER lines and lines without '|' leave it alone. */
  lemma {:induction false} FinalNowIsLastTime(now: string, lines: seq<string>)
    ensures FinalNow(now, lines) == LastTime(now, lines)
  {
    if lines != [] {
      var front := lines[..|lines| - 1];
      assert lines == front + [lines[|lines| - 1]];
      FinalNowSnoc(now, front, lines[|lines| - 1]);
      FinalNowIsLastTime(now, front);
    }
  }

  lemma CharsAppend(a: seq<Byte>, b: seq<Byte>)
    ensures Chars(a + b) == Chars(a) + Chars(b)
  {
  }

  /** The server's two messages, read back to back, are cut into the time
      line and the weather line, each without its ']'. */
  lemma ServerTextSegments(dt: DateTime, t: Table)
    requires ValidDateTime(dt) && Wellformed(t)
    ensures var time, weather := TimeMessage(dt), WeatherMessage(t);
      Segments(time + weather) == [time[..21], weather[..|weather| - 1]]
  {
    var time := TimeMessage(dt);
    var weather := WeatherMessage(t);
    WeatherMessageFrame(t);
    var lines := [time[..21], weather[..|weather| - 1]];
    assert Lacks(time[..21], ']') by {
      assert time[..21] == "TIME|" + DateText(dt);
    }
    assert Terminated(lines[1..]) == weather by {
      assert lines[1..] == [weather[..|weather| - 1]];
      assert Terminated(lines[2..]) == [];
      assert weather == weather[..|weather| - 1] + "]";
    }
    assert Terminated(lines) == time + weather by {
      assert time == time[..21] + "]";
    }
    SegmentsOfTerminated(lines);
  }

  lemma WeatherLineIsNotTime(t: Table)
    requires Wellformed(t)
    ensures var weather := WeatherMessage(t);
      !IsTimeLine(weather[..|weather| - 1])
  {
    var weather := WeatherMessage(t);
    WeatherMessageFrame(t);
    assert weather[..|weather| - 1][4] == weather[..7][4] == 'H';
  }

  /** Reading the bytes a connection to the server carries (the time message,
      then the weather message) leaves `now` holding exactly the
      "DD-MM-YYYY HH:MM" text of the time message. */
  lemma ServerOutputSetsNow(now: string, wire: seq<Byte>, dt: DateTime, t: Table)
    requires ValidDateTime(dt) && Wellformed(t)
    requires |wire| >= 22 && Chars(wire[..22]) == TimeMessage(dt) && Chars(wire[22..]) == WeatherMessage(t)
    ensures FinalNow(now, Segments(Chars(wire))) == DateText(dt)
  {
    var time := TimeMessage(dt);
    var weather := WeatherMessage(t);
    assert wire == wire[..22] + wire[22..];
    CharsAppend(wire[..22], wire[22..]);
    ServerTextSegments(dt, t);
    WeatherLineIsNotTime(t);
    var lines := [time[..21], weather[..|weather| - 1]];
    assert Segments(Chars(wire)) == lines;
    assert Dispatch(now, lines[0]) == DateText(dt) by {
      assert lines[0][..5] == "TIME|";
      assert lines[0][5..] == time[5..21];
    }
    assert FinalNow(now, lines) == FinalNow(DateText(dt), lines[1..]);
    assert lines[1..] == [lines[1]];
    assert FinalNow(DateText(dt), lines[1..]) == FinalNow(DateText(dt), []);
  }

  /** Bytes 0 .. n - 1 complemented, the rest kept. */
  function Inverted(s: seq<bv8>, n: nat): (r: seq<bv8>)
    ensures |r| == |s|
    ensures forall i :: 0 <= i < |s| ==> (r[i] != s[i] <==> i < n)
  {
    seq(|s|, i requires 0 <= i < |s| => if i < n then !s[i] else s[i])
  }

  /** Inverting the same band twice restores the buffer. */
  lemma InvertedTwice(s: seq<bv8>, n: nat)
    ensures Inverted(Inverted(s, n), n) == s
  {
    assert forall i :: 0 <= i < |s| ==> !!s[i] == s[i];
  }

  /** The wait-for-reply loop of get_data: `ready(k)` is what the k-th call of
      client.available() reports. */
  method WaitForReply(ready: nat -> bool) returns (maxloops: nat)
    ensures maxloops <= 100
    ensures forall k :: 0 <= k < maxloops ==> !ready(k)
    ensures maxloops < 100 ==> ready(maxloops)
  {
    maxloops := 0;
    while !ready(maxloops) && maxloops < 100
      invariant maxloops <= 100
      invariant forall k :: 0 <= k < maxloops ==> !ready(k)
    {
      maxloops := maxloops + 1;
    }
  }

  /** The dashboard's globals: the date/time text it shows and its frame
      buffer, EPD_WIDTH * EPD_HEIGHT / 2 bytes of two 4-bit pixels each. */
  class Display {
    var now: string
    const fb: array<bv8>
    const width: nat

    /** setup(): `now` starts empty, the buffer zeroed as ps_calloc leaves it. */
    constructor (width: nat, height: nat)
      ensures this.width == width && fb.Length == width * height / 2
      ensures now == "" && forall i :: 0 <= i < fb.Length ==> fb[i] == 0
      ensures fresh(fb)
    {
      this.width := width;
      fb := new bv8[width * height / 2](i => 0);
      now := "";
    }

    /** The read loop of get_data over the text that arrived. */
    method ReadReplies(stream: string)
      modifies this`now
      ensures now == FinalNow(old(now), Segments(stream))
    {
      var rest := stream;
      while |rest| > 0
        invariant FinalNow(now, Segments(rest)) == FinalNow(old(now), Segments(stream))
        decreases |rest|
      {
        var line, next := NextLine(rest);
        assert FinalNow(now, Segments(rest)) == FinalNow(Dispatch(now, line), Segments(next));
        rest := next;
        DispatchLine(line);
      }
    }

    /** One call of readStringUntil(']'): the line up to the next ']' and
        what remains after it. */
    static method NextLine(s: string) returns (line: string, rest: string)
      requires |s| > 0
      ensures Cut(line, rest) == ReadUntil(s, ']')
      ensures Segments(s) == [line] + Segments(rest) && |rest| < |s|
    {
      var end := IndexOf(s, ']');
      ReadUntilIndexOf(s, ']');
      if end == -1 {
        line, rest := s, [];
      } else {
        line, rest := s[..end], s[end + 1..];
      }
    }

    /** The body of the read loop for one line: only a TIME line sets `now`. */
    method DispatchLine(line: string)
      modifies this`now
      ensures now == Dispatch(old(now), line)
    {
      var firstSeparator := IndexOf(line, '|');
      if firstSeparator != -1 {
        var kind := line[..firstSeparator];
        if kind == "TIME" {
          now := line[firstSeparator + 1..];
        }
      }
    }

    /** get_data: nothing without a connection; otherwise wait for the reply,
        then read whatever arrived. */
    method GetData(connected: bool, ready: nat -> bool, stream: string) returns (maxloops: nat)
      modifies this`now
      ensures !connected ==> now == old(now)
      ensures connected ==> maxloops <= 100 && now == if ready(maxloops) then LastTime(old(now), Segments(stream)) else old(now)
    {
      if !connected {
        return 0;
      }
      maxloops := WaitForReply(ready);
      if ready(maxloops) {
        ReadReplies(stream);
        FinalNowIsLastTime(old(now), Segments(stream));
      }
    }

    /** invert_header: complement the first EPD_WIDTH * 32 / 2 bytes of fb. */
    method InvertHeader()
      requires width * 32 / 2 <= fb.Length
      modifies fb
      ensures forall i :: 0 <= i < width * 32 / 2 ==> fb[i] == !old(fb[i])
      ensures forall i :: width * 32 / 2 <= i < fb.Length ==> fb[i] == old(fb[i])
      ensures fb[..] == Inverted(old(fb[..]), width * 32 / 2)
    {
      for i := 0 to width * 32 / 2
        invariant forall k :: 0 <= k < i ==> fb[k] == !old(fb[k])
        invariant forall k :: i <= k < fb.Length ==> fb[k] == old(fb[k])
      {
        fb[i] := !fb[i];
      }
    }
  }
}
