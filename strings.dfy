/** Text helpers shared by the server, the dashboard and the test client:
    decimal rendering as Python's str() and strftime do it, decimal parsing
    as int() does it for plain digit strings, and character search. */
module Strings {

  datatype Option<T> = None | Some(value: T)

  predicate IsDigit(c: char) { '0' <= c <= '9' }

  predicate AllDigits(s: string) { forall i :: 0 <= i < |s| ==> IsDigit(s[i]) }

  function Pow10(n: nat): (p: nat)
    ensures p >= 1
  {
    if n == 0 then 1 else 10 * Pow10(n - 1)
  }

  function DigitChar(d: nat): (c: char)
    requires d < 10
    ensures IsDigit(c) && c as int - '0' as int == d
  {
    ('0' as int + d) as char
  }

  /** The value of a string of decimal digits, most significant first; leading zeros are allowed. */
  function DigitsValue(s: string): (v: nat)
    requires AllDigits(s)
    ensures v < Pow10(|s|)
  {
    if s == [] then 0 else 10 * DigitsValue(s[..|s| - 1]) + (s[|s| - 1] as int - '0' as int)
  }

  lemma DigitsValueSnoc(s: string, c: char)
    requires AllDigits(s) && IsDigit(c)
    ensures AllDigits(s + [c]) && DigitsValue(s + [c]) == 10 * DigitsValue(s) + (c as int - '0' as int)
  {
    assert (s + [c])[..|s + [c]| - 1] == s;
  }

  /** Python's str() of a natural number: its shortest decimal form. */
  function NatToString(n: nat): (s: string)
    ensures |s| >= 1 && AllDigits(s) && DigitsValue(s) == n
    ensures |s| > 1 ==> s[0] != '0'
  {
    if n < 10 then [DigitChar(n)]
    else
      var p := NatToString(n / 10);
      DigitsValueSnoc(p, DigitChar(n % 10));
      p + [DigitChar(n % 10)]
  }

  /** Python's str() of an integer: a minus sign for negatives, then the decimal form. */
  function IntToString(i: int): (s: string)
    ensures |s| >= 1
    ensures forall k :: 0 <= k < |s| ==> IsDigit(s[k]) || (k == 0 && s[k] == '-')
    ensures s[0] == '-' <==> i < 0
    ensures i < 0 ==> |s| >= 2 && AllDigits(s[1..]) && DigitsValue(s[1..]) == -i
    ensures i >= 0 ==> AllDigits(s) && DigitsValue(s) == i
    ensures i >= 0 && |s| > 1 ==> s[0] != '0'
    ensures i < 0 ==> s[1] != '0'
  {
    if i < 0 then
      var d := NatToString(-i);
      assert ("-" + d)[1..] == d;
      "-" + d
    else NatToString(i)
  }

  /** The zero-padded decimal form of n in exactly `width` digits, as the
      strftime directives %d, %m, %H, %M (width 2) and %Y (width 4) print it. */
  function Padded(n: nat, width: nat): (s: string)
    requires n < Pow10(width)
    ensures |s| == width && AllDigits(s) && DigitsValue(s) == n
  {
    if width == 0 then []
    else
      var p := Padded(n / 10, width - 1);
      DigitsValueSnoc(p, DigitChar(n % 10));
      p + [DigitChar(n % 10)]
  }

  /** c occurs nowhere in s. */
  predicate Lacks(s: string, c: char)
  {
    forall k :: 0 <= k < |s| ==> s[k] != c
  }

  /** Index of the first occurrence of c in s, or -1: String::indexOf of the Arduino core. */
  function IndexOf(s: string, c: char): (i: int)
    ensures -1 <= i < |s|
    ensures i == -1 ==> Lacks(s, c)
    ensures 0 <= i ==> s[i] == c && Lacks(s[..i], c)
  {
    if s == [] then -1
    else if s[0] == c then 0
    else
      var j := IndexOf(s[1..], c);
      if j == -1 then -1
      else
        assert s[..j + 1] == [s[0]] + s[1..][..j];
        j + 1
  }

  /** Number of occurrences of c in s. */
  function Count(s: string, c: char): (n: nat)
    ensures n == 0 <==> Lacks(s, c)
    ensures n <= |s|
  {
    if s == [] then 0
    else
      assert s == s[..|s| - 1] + [s[|s| - 1]];
      Count(s[..|s| - 1], c) + (if s[|s| - 1] == c then 1 else 0)
  }

  lemma {:induction false} CountAppend(a: string, b: string, c: char)
    ensures Count(a + b, c) == Count(a, c) + Count(b, c)
  {
    if b != [] {
      var b' := b[..|b| - 1];
      assert (a + b)[..|a + b| - 1] == a + b';
      CountAppend(a, b', c);
    } else {
      assert a + b == a;
    }
  }

  /** The fields of s between occurrences of the separator c (Python's str.split with one separator). */
  function Split(s: string, c: char): (fields: seq<string>)
    ensures |fields| == Count(s, c) + 1
    ensures forall k :: 0 <= k < |fields| ==> Lacks(fields[k], c)
    decreases |s|
  {
    var i := IndexOf(s, c);
    if i == -1 then [s]
    else
      assert s == s[..i] + [c] + s[i + 1..];
      CountAppend(s[..i] + [c], s[i + 1..], c);
      CountAppend(s[..i], [c], c);
      [s[..i]] + Split(s[i + 1..], c)
  }

  /** The fields joined with c between consecutive fields. */
  function Join(fields: seq<string>, c: char): string
    requires |fields| >= 1
  {
    if |fields| == 1 then fields[0] else fields[0] + [c] + Join(fields[1..], c)
  }

  lemma {:induction false} JoinSnoc(fields: seq<string>, x: string, c: char)
    requires |fields| >= 1
    ensures Join(fields + [x], c) == Join(fields, c) + [c] + x
  {
    if |fields| > 1 {
      assert (fields + [x])[1..] == fields[1..] + [x];
      JoinSnoc(fields[1..], x, c);
    }
  }

  /** Splitting at c recovers the fields that were joined with c, provided none of them contains c. */
  lemma {:induction false} SplitJoin(fields: seq<string>, c: char)
    requires |fields| >= 1
    requires forall k :: 0 <= k < |fields| ==> Lacks(fields[k], c)
    ensures Split(Join(fields, c), c) == fields
  {
    if |fields| == 1 {
      assert IndexOf(fields[0], c) == -1;
      assert fields == [fields[0]];
    } else {
      var s := Join(fields, c);
      var rest := Join(fields[1..], c);
      assert Split(s, c) == [fields[0]] + Split(rest, c) by {
        var n := |fields[0]|;
        assert s == fields[0] + ([c] + rest);
        assert IndexOf([c] + rest, c) == 0;
        IndexOfAfterPlain(fields[0], [c] + rest, c);
        assert s[..n] == fields[0] && s[n + 1..] == rest;
      }
      SplitJoin(fields[1..], c);
      assert fields == [fields[0]] + fields[1..];
    }
  }

  /** A search for c skips a prefix that does not contain c. */
  lemma {:induction false} IndexOfAfterPlain(p: string, s: string, c: char)
    requires Lacks(p, c)
    ensures IndexOf(p + s, c) == if IndexOf(s, c) == -1 then -1 else |p| + IndexOf(s, c)
  {
    if p != [] {
      assert (p + s)[1..] == p[1..] + s;
      IndexOfAfterPlain(p[1..], s, c);
    } else {
      assert p + s == s;
    }
  }
}
