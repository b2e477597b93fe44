/** The test client (server/test/testclient.py): it reads frames of a
    four-character decimal size followed by that many bytes, and stops when the
    server closes the connection or when what arrives is not such a frame. */
module FrameReader {
  import opened Strings
  import opened Ascii

  /** How the client ends. */
  datatype Exit =
    | Closed      // recv(4) returned nothing: the server closed the connection
    | Invalid     // recv(4) returned 1 to 3 bytes
    | BadSize     // int() refused the size field, or recv refused a negative size
    | NotAscii    // decode("ascii") refused the bytes

  /** The process exit status: exit(0), exit(1), or 1 for an uncaught exception. */
  function ExitStatus(e: Exit): (status: int)
    ensures status == 0 <==> e == Closed
    ensures status == 0 || status == 1
  {
    if e == Closed then 0 else 1
  }

  /** The payloads received, in order, and how the client ended. */
  datatype Reading = Reading(payloads: seq<string>, exit: Exit)

  /** The whitespace int() skips around an ASCII literal: space and \t \n \v \f \r.
      The separators 0x1c to 0x1f, which str.isspace() accepts, are not skipped. */
  predicate IsSpace(c: char)
  {
    c == ' ' || 9 <= c as int <= 13
  }

  function TrimStart(s: string): (t: string)
    ensures |t| <= |s|
    ensures t != [] ==> !IsSpace(t[0])
  {
    if s != [] && IsSpace(s[0]) then TrimStart(s[1..]) else s
  }

  /** int() skips leading whitespace only: what is left is a suffix,
      and everything it skipped is whitespace. */
  lemma {:induction false} TrimStartSuffix(s: string)
    ensures var t := TrimStart(s); t == s[|s| - |t|..]
    ensures var t := TrimStart(s); forall i :: 0 <= i < |s| - |t| ==> IsSpace(s[i])
  {
    if s != [] && IsSpace(s[0]) {
      TrimStartSuffix(s[1..]);
      assert s[1..][|s| - 1 - |TrimStart(s)|..] == s[|s| - |TrimStart(s)|..];
    }
  }

  function TrimEnd(s: string): (t: string)
    ensures |t| <= |s|
    ensures t != [] ==> !IsSpace(t[|t| - 1])
  {
    if s != [] && IsSpace(s[|s| - 1]) then TrimEnd(s[..|s| - 1]) else s
  }

  /** ... and trailing whitespace only: what is left is a prefix, and
      everything it skipped is whitespace. */
  lemma {:induction false} TrimEndPrefix(s: string)
    ensures var t := TrimEnd(s); t == s[..|t|]
    ensures var t := TrimEnd(s); forall i :: |t| <= i < |s| ==> IsSpace(s[i])
  {
    if s != [] && IsSpace(s[|s| - 1]) {
      TrimEndPrefix(s[..|s| - 1]);
      assert s[..|s| - 1][..|TrimEnd(s)|] == s[..|TrimEnd(s)|];
    }
  }

  /** Text without whitespace: stripping leaves it as it is. */
  predicate NoSpace(s: string)
  {
    forall i :: 0 <= i < |s| ==> !IsSpace(s[i])
  }

  lemma NoSpaceTrimmed(s: string)
    requires NoSpace(s)
    ensures TrimEnd(TrimStart(s)) == s
  {
    if s != [] {
      assert !IsSpace(s[0]) && !IsSpace(s[|s| - 1]);
    }
  }

  /** A size field that begins with one of the separators 0x1c to 0x1f is
      refused: int() does not skip them, and they are neither sign nor digit. */
  lemma SeparatorNotSkipped(s: string)
    requires |s| >= 1 && 28 <= s[0] as int <= 31
    ensures IntOf(s) == None
  {
    assert TrimStart(s) == s;
    TrimEndPrefix(s);
    var t := TrimEnd(s);
    assert |t| >= 1 && t[0] == s[0];
  }

  /** A decimal literal as int() accepts it: digits, with single underscores
      allowed between two digits. */
  predicate Grouped(u: string)
  {
    && |u| >= 1 && IsDigit(u[0]) && IsDigit(u[|u| - 1])
    && (forall i :: 0 <= i < |u| ==> IsDigit(u[i]) || u[i] == '_')
    && (forall i :: 0 <= i < |u| - 1 ==> u[i] != '_' || u[i + 1] != '_')
  }

  /** The digits of u with the underscores dropped. */
  function Ungrouped(u: string): (d: string)
    requires forall i :: 0 <= i < |u| ==> IsDigit(u[i]) || u[i] == '_'
    ensures AllDigits(d) && |d| <= |u|
  {
    if u == [] then []
    else if u[0] == '_' then Ungrouped(u[1..])
    else [u[0]] + Ungrouped(u[1..])
  }

  /** A literal without underscores keeps all its digits. */
  lemma {:induction false} UngroupedDigits(u: string)
    requires AllDigits(u)
    ensures Ungrouped(u) == u
  {
    if u != [] {
      UngroupedDigits(u[1..]);
    }
  }

  /** The value of a decimal literal without its sign. */
  function LiteralValue(u: string): (r: Option<nat>)
    ensures r.Some? <==> Grouped(u)
    ensures r.Some? ==> r.value < Pow10(|u|)
  {
    if Grouped(u) then
      var d := Ungrouped(u);
      Pow10Monotone(|d|, |u|);
      Some(DigitsValue(d))
    else None
  }

  lemma {:induction false} Pow10Monotone(m: nat, n: nat)
    requires m <= n
    ensures Pow10(m) <= Pow10(n)
    decreases n
  {
    if m < n {
      Pow10Monotone(m, n - 1);
    }
  }

  /** Python's int() of an ASCII string, in base 10: surrounding whitespace
      is ignored. */
  function IntOf(s: string): (r: Option<int>)
    ensures r.Some? ==> -(Pow10(|s|) as int) < r.value < Pow10(|s|)
  {
    var t := TrimEnd(TrimStart(s));
    Pow10Monotone(|t|, |s|);
    SignedValue(t)
  }

  /** A literal after stripping: an optional sign, then the digits. */
  function SignedValue(t: string): (r: Option<int>)
    ensures r.Some? ==> -(Pow10(|t|) as int) < r.value < Pow10(|t|)
  {
    if |t| >= 1 && (t[0] == '+' || t[0] == '-') then
      match LiteralValue(t[1..])
      case None => None
      case Some(v) =>
        Pow10Monotone(|t| - 1, |t|);
        Some(if t[0] == '-' then -(v as int) else v)
    else
      match LiteralValue(t)
      case None => None
      case Some(v) => Some(v)
  }

  /** A field of plain digits has no whitespace to strip. */
  lemma DigitsTrimmed(s: string)
    requires AllDigits(s)
    ensures TrimEnd(TrimStart(s)) == s
  {
    assert NoSpace(s) by {
      forall i | 0 <= i < |s| ensures !IsSpace(s[i]) {
        assert IsDigit(s[i]);
      }
    }
    NoSpaceTrimmed(s);
  }

  /** A field of plain digits is a literal whose value is its decimal value. */
  lemma DigitsLiteral(s: string)
    requires |s| >= 1 && AllDigits(s)
    ensures LiteralValue(s) == Some(DigitsValue(s))
  {
    assert Grouped(s) by {
      assert forall i :: 0 <= i < |s| ==> IsDigit(s[i]);
    }
    UngroupedDigits(s);
  }

  /** A size field of plain digits is read as its decimal value. */
  lemma IntOfDigits(s: string)
    requires |s| >= 1 && AllDigits(s)
    ensures IntOf(s) == Some(DigitsValue(s))
  {
    DigitsTrimmed(s);
    UnsignedDigits(s);
  }

  /** Without a sign, the literal is read as it stands. */
  lemma UnsignedDigits(s: string)
    requires |s| >= 1 && AllDigits(s)
    ensures SignedValue(s) == Some(DigitsValue(s))
  {
    DigitsLiteral(s);
    assert IsDigit(s[0]);
  }

  /** sck.recv(n) on the bytes still to come: at most n of them. */
  function Recv(s: seq<Byte>, n: nat): (b: seq<Byte>)
    ensures |b| <= n && |b| <= |s| && b == s[..|b|]
    ensures |b| == n || |b| == |s|
  {
    if n <= |s| then s[..n] else s
  }

  /** Payloads a four-digit size field can announce, in ASCII. */
  predicate Sendable(ps: seq<string>)
  {
    forall k :: 0 <= k < |ps| ==> IsAscii(ps[k]) && |ps[k]| < 10000
  }

  lemma SendableCons(p: string, ps: seq<string>)
    requires IsAscii(p) && |p| < 10000 && Sendable(ps)
    ensures Sendable([p] + ps)
  {
  }

  /** What one pass of the loop makes of the bytes still to come: a payload
      and the number of bytes it took, or the end of the run. */
  datatype Step = Stop(exit: Exit) | Frame(payload: string, used: nat)

  function NextFrame(s: seq<Byte>): (st: Step)
    ensures st.Frame? ==> st.used == 4 + |st.payload| <= |s| && |st.payload| < 10000 && IsAscii(st.payload)
    ensures st == Stop(Closed) <==> s == []
  {
    var head := Recv(s, 4);
    if !AsciiBytes(head) then Stop(NotAscii)
    else if |head| == 0 then Stop(Closed)
    else if |head| != 4 then Stop(Invalid)
    else
      var size := IntOf(Chars(head));
      if size.None? || size.value < 0 then Stop(BadSize)
      else
        var payload := Recv(s[4..], size.value);
        if !AsciiBytes(payload) then Stop(NotAscii)
        else
          PowersOfTen();
          Frame(Chars(payload), 4 + |payload|)
  }

  /** The whole run of the client's loop over the bytes the server sends. */
  function Frames(s: seq<Byte>): (r: Reading)
    ensures 4 * |r.payloads| <= |s|
    ensures Sendable(r.payloads)
    decreases |s|
  {
    match NextFrame(s)
    case Stop(e) => Reading([], e)
    case Frame(p, used) =>
      var rest := Frames(s[used..]);
      SendableCons(p, rest.payloads);
      Reading([p] + rest.payloads, rest.exit)
  }

  /** The client's loop, reading from `stream` as the connection delivers it. */
  method ReadFrames(stream: seq<Byte>) returns (payloads: seq<string>, exit: Exit)
    ensures Reading(payloads, exit) == Frames(stream)
  {
    payloads := [];
    var pos := 0;
    while true
      invariant pos <= |stream|
      invariant Frames(stream) == After(payloads, Frames(stream[pos..]))
      decreases |stream| - pos
    {
      var step := ReadFrame(stream[pos..]);
      match step
      case Stop(e) =>
        assert Frames(stream[pos..]) == Reading([], e) by {
          FramesStep(stream[pos..]);
        }
        return payloads, e;
      case Frame(p, used) =>
        assert Frames(stream[pos..]) == After([p], Frames(stream[pos + used..])) by {
          FramesStep(stream[pos..]);
          assert stream[pos..][used..] == stream[pos + used..];
        }
        AfterAfter(payloads, [p], Frames(stream[pos + used..]));
        payloads := payloads + [p];
        pos := pos + used;
    }
  }

  /** The reading that `done` was received before. */
  function After(done: seq<string>, r: Reading): (t: Reading)
    ensures t.exit == r.exit && |t.payloads| == |done| + |r.payloads|
  {
    Reading(done + r.payloads, r.exit)
  }

  lemma AfterAfter(a: seq<string>, b: seq<string>, r: Reading)
    ensures After(a, After(b, r)) == After(a + b, r)
  {
    assert a + (b + r.payloads) == (a + b) + r.payloads;
  }

  lemma FramesStep(s: seq<Byte>)
    ensures NextFrame(s).Stop? ==> Frames(s) == Reading([], NextFrame(s).exit)
    ensures NextFrame(s).Frame? ==>
      Frames(s) == After([NextFrame(s).payload], Frames(s[NextFrame(s).used..]))
  {
  }

  /** One pass of the loop: read the size field, then the payload it announces. */
  method ReadFrame(s: seq<Byte>) returns (step: Step)
    ensures step == NextFrame(s)
  {
    var data := Recv(s, 4);
    if !AsciiBytes(data) {
      return Stop(NotAscii);
    }
    if |data| == 4 {
      var size := IntOf(Chars(data));
      if size.None? || size.value < 0 {
        return Stop(BadSize);
      }
      var body := Recv(s[4..], size.value);
      if !AsciiBytes(body) {
        return Stop(NotAscii);
      }
      return Frame(Chars(body), 4 + |body|);
    } else if |data| == 0 {
      return Stop(Closed);
    } else {
      return Stop(Invalid);
    }
  }

  /** A frame as a sender that follows the protocol writes it: the payload's
      length in four zero-padded digits, then the payload. */
  function EncodeFrame(p: string): (b: seq<Byte>)
    requires IsAscii(p) && |p| < 10000
    ensures |b| == 4 + |p|
  {
    PowersOfTen();
    Encode(Padded(|p|, 4)) + Encode(p)
  }

  lemma PowersOfTen()
    ensures Pow10(4) == 10000
  {
    assert Pow10(2) == 100;
  }


  function EncodeFrames(ps: seq<string>): seq<Byte>
    requires Sendable(ps)
  {
    if ps == [] then [] else EncodeFrame(ps[0]) + EncodeFrames(ps[1..])
  }

  /** One pass of the loop reads a frame back as its payload ... */
  lemma NextFrameOfEncoded(p: string, more: seq<Byte>)
    requires IsAscii(p) && |p| < 10000
    ensures NextFrame(EncodeFrame(p) + more) == Frame(p, 4 + |p|)
  {
    PowersOfTen();
    var size := Padded(|p|, 4);
    var s := EncodeFrame(p) + more;
    HeaderRead(p, more);
    PayloadRead(p, more);
    assert IntOf(Chars(Encode(size))) == Some(|p|) by {
      CharsEncode(size);
      IntOfDigits(size);
    }
    CharsEncode(p);
    NextFrameIsFrame(s, Encode(size), |p|, Encode(p));
  }

  /** An encoded frame is its encoded size field followed by its encoded payload. */
  lemma EncodeFrameParts(p: string)
    requires IsAscii(p) && |p| < 10000
    ensures Pow10(4) == 10000
    ensures EncodeFrame(p) == Encode(Padded(|p|, 4)) + Encode(p)
  {
    PowersOfTen();
  }

  /** The two reads of one pass over an encoded frame: its size field, then its payload. */
  lemma HeaderRead(p: string, more: seq<Byte>)
    requires IsAscii(p) && |p| < 10000
    ensures Pow10(4) == 10000
    ensures Recv(EncodeFrame(p) + more, 4) == Encode(Padded(|p|, 4))
  {
    EncodeFrameParts(p);
    ReadsOfFrame(Encode(Padded(|p|, 4)), Encode(p), more);
  }

  lemma PayloadRead(p: string, more: seq<Byte>)
    requires IsAscii(p) && |p| < 10000
    ensures Recv((EncodeFrame(p) + more)[4..], |p|) == Encode(p)
  {
    EncodeFrameParts(p);
    ReadsOfFrame(Encode(Padded(|p|, 4)), Encode(p), more);
  }

  /** The size field and the payload are read back from where they were written. */
  lemma ReadsOfFrame(head: seq<Byte>, body: seq<Byte>, more: seq<Byte>)
    requires |head| == 4
    ensures var s := head + body + more; Recv(s, 4) == head && Recv(s[4..], |body|) == body
  {
    var s := head + body + more;
    assert s[..4] == head;
    assert s[4..] == body + more;
    assert (body + more)[..|body|] == body;
  }

  /** One pass of the loop when the size field is read and the payload is ASCII. */
  lemma NextFrameIsFrame(s: seq<Byte>, head: seq<Byte>, n: nat, body: seq<Byte>)
    requires Recv(s, 4) == head && |head| == 4 && AsciiBytes(head)
    requires IntOf(Chars(head)) == Some(n)
    requires Recv(s[4..], n) == body && AsciiBytes(body)
    ensures NextFrame(s) == Frame(Chars(body), 4 + |body|)
  {
  }

  /** ... and reading goes on right after it. */
  lemma FrameRoundTrip(p: string, more: seq<Byte>)
    requires IsAscii(p) && |p| < 10000
    ensures Frames(EncodeFrame(p) + more) == After([p], Frames(more))
  {
    var s := EncodeFrame(p) + more;
    NextFrameOfEncoded(p, more);
    FramesStep(s);
    assert s[4 + |p|..] == more;
  }

  /** Frames written by a sender that follows the protocol are read back in
      order, and the client then exits with status 0 when the server closes. */
  lemma {:induction false} FramesRoundTrip(ps: seq<string>)
    requires Sendable(ps)
    ensures Frames(EncodeFrames(ps)) == Reading(ps, Closed)
  {
    if ps == [] {
      assert Recv([], 4) == [];
    } else {
      FramesRoundTrip(ps[1..]);
      FrameRoundTrip(ps[0], EncodeFrames(ps[1..]));
    }
  }

  /** What the dashboard server sends begins "TIME", which int() refuses:
      the client stops at the first frame with an error and no payload. */
  lemma ServerOutputRejected(wire: seq<Byte>)
    requires |wire| >= 5 && Chars(wire[..5]) == "TIME|"
    ensures Frames(wire) == Reading([], BadSize)
    ensures ExitStatus(Frames(wire).exit) == 1
  {
    assert NextFrame(wire) == Stop(BadSize) by {
      var head := Recv(wire, 4);
      assert Chars(head) == "TIME" by {
        assert Chars(head) == Chars(wire[..5])[..4];
      }
      assert AsciiBytes(head);
      assert IntOf("TIME") == None by {
        assert TrimStart("TIME") == "TIME";
        assert TrimEnd("TIME") == "TIME";
        assert !Grouped("TIME");
      }
    }
    FramesStep(wire);
  }
}
