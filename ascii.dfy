/** Bytes on the TCP connection, and the ASCII codec both ends apply to them
    (Python's str.encode("ascii") / bytes.decode("ascii"), and the Arduino
    String that collects one char per received byte). */
module Ascii {

  type Byte = b: int | 0 <= b < 256

  predicate IsAscii(s: string) { forall i :: 0 <= i < |s| ==> s[i] as int < 128 }

  predicate AsciiBytes(b: seq<Byte>) { forall i :: 0 <= i < |b| ==> b[i] < 128 }

  /** str.encode("ascii"); the server only encodes text that is ASCII. */
  function Encode(s: string): (b: seq<Byte>)
    requires IsAscii(s)
    ensures |b| == |s| && AsciiBytes(b)
    ensures forall i :: 0 <= i < |s| ==> b[i] == s[i] as int
  {
    seq(|s|, i requires 0 <= i < |s| => s[i] as int)
  }

  /** One char per byte: what decode("ascii") yields for ASCII bytes, and what
      the dashboard's String holds for any bytes. */
  function Chars(b: seq<Byte>): (s: string)
    ensures |s| == |b|
    ensures forall i :: 0 <= i < |b| ==> s[i] as int == b[i]
  {
    seq(|b|, i requires 0 <= i < |b| => b[i] as char)
  }

  lemma CharsEncode(s: string)
    requires IsAscii(s)
    ensures Chars(Encode(s)) == s
  {
  }

  lemma EncodeAppend(a: string, b: string)
    requires IsAscii(a) && IsAscii(b)
    ensures IsAscii(a + b) && Encode(a + b) == Encode(a) + Encode(b)
  {
  }
}
