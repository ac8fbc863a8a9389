/** Shared text helpers: JavaScript's whitespace class, decimal rendering of
    numbers as `String(n)` produces it, zero padding, and CRLF joining. */
module Text {

  datatype Option<T> = None | Some(value: T)

  /** The characters matched by `\s` in an ECMAScript regular expression:
      the WhiteSpace and LineTerminator code points. */
  predicate IsJsSpace(c: char)
  {
    || c == '\t' || c == '\n' || c == '\U{000B}' || c == '\U{000C}' || c == '\r'
    || c == ' ' || c == '\U{00A0}' || c == '\U{1680}'
    || ('\U{2000}' <= c <= '\U{200A}')
    || c == '\U{2028}' || c == '\U{2029}' || c == '\U{202F}' || c == '\U{205F}'
    || c == '\U{3000}' || c == '\U{FEFF}'
  }

  predicate NoSpace(s: string)
  {
    forall i :: 0 <= i < |s| ==> !IsJsSpace(s[i])
  }

  predicate IsDigit(c: char)
  {
    '0' <= c <= '9'
  }

  predicate AllDigits(s: string)
  {
    forall i :: 0 <= i < |s| ==> IsDigit(s[i])
  }

  function DigitChar(d: nat): (c: char)
    requires d < 10
    ensures IsDigit(c)
  {
    ('0' as int + d) as char
  }

  function DigitValue(c: char): (d: nat)
    requires IsDigit(c)
    ensures d < 10
  {
    c as int - '0' as int
  }

  /** `String(n)` for a non-negative integer: shortest decimal form. */
  function NatText(n: nat): (s: string)
    ensures 1 <= |s|
    ensures AllDigits(s)
    ensures |s| == 1 <==> n < 10
    ensures 1 < |s| ==> s[0] != '0'
  {
    if n < 10 then [DigitChar(n)] else NatText(n / 10) + [DigitChar(n % 10)]
  }

  /** `String(i)` for any integer: a minus sign in front of negatives. */
  function IntText(i: int): (s: string)
    ensures 1 <= |s|
  {
    if i < 0 then "-" + NatText(-i) else NatText(i)
  }

  /** The value of a string of decimal digits, as `Number` reads it. */
  function DigitsValue(s: string): nat
    requires AllDigits(s)
  {
    if |s| == 0 then 0 else DigitsValue(s[..|s| - 1]) * 10 + DigitValue(s[|s| - 1])
  }

  lemma {:induction false} DigitCharValue(d: nat)
    requires d < 10
    ensures DigitValue(DigitChar(d)) == d
  {
  }

  /** Reading back what `String(n)` wrote gives `n`. */
  lemma {:induction false} NatTextRoundTrip(n: nat)
    ensures DigitsValue(NatText(n)) == n
    decreases n
  {
    var s := NatText(n);
    if n < 10 {
      DigitCharValue(n);
    } else {
      NatTextRoundTrip(n / 10);
      DigitCharValue(n % 10);
      assert s[..|s| - 1] == NatText(n / 10);
    }
  }

  /** Leading zeros do not change the value `Number` reads. */
  lemma {:induction false} DigitsValueLeadingZero(s: string)
    requires AllDigits(s)
    ensures AllDigits("0" + s) && DigitsValue("0" + s) == DigitsValue(s)
    decreases |s|
  {
    if |s| > 0 {
      var t := "0" + s;
      assert t[..|t| - 1] == "0" + s[..|s| - 1];
      DigitsValueLeadingZero(s[..|s| - 1]);
    }
  }

  /** `String(n).padStart(2, '0')`. */
  function Pad2(n: nat): (s: string)
    ensures AllDigits(s)
    ensures n < 100 ==> |s| == 2
    ensures DigitsValue(s) == n
  {
    NatTextRoundTrip(n);
    if n < 10 then
      DigitsValueLeadingZero(NatText(n));
      "0" + NatText(n)
    else
      if n < 100 then NatTextBelow100(n); NatText(n) else NatText(n)
  }

  lemma NatTextBelow100(n: nat)
    requires 10 <= n < 100
    ensures |NatText(n)| == 2
  {
    assert NatText(n) == NatText(n / 10) + [DigitChar(n % 10)];
  }

  /** `lines.join(sep)`. */
  function Join(lines: seq<string>, sep: string): string
  {
    if |lines| == 0 then ""
    else if |lines| == 1 then lines[0]
    else lines[0] + sep + Join(lines[1..], sep)
  }

  predicate NoLineFeed(s: string)
  {
    forall i :: 0 <= i < |s| ==> s[i] != '\n'
  }

  /** The first position at or after `k` where "\r\n" starts, or `|s|`. */
  function FindCrlf(s: string, k: nat): (i: nat)
    requires k <= |s|
    ensures k <= i <= |s|
    ensures i < |s| ==> i + 1 < |s| && s[i] == '\r' && s[i + 1] == '\n'
    ensures forall j :: k <= j < i && j + 1 < |s| ==> !(s[j] == '\r' && s[j + 1] == '\n')
    decreases |s| - k
  {
    if k + 1 >= |s| then |s|
    else if s[k] == '\r' && s[k + 1] == '\n' then k
    else FindCrlf(s, k + 1)
  }

  /** Splits a text at every "\r\n", the inverse of joining with CRLF. */
  function SplitCrlf(s: string): (lines: seq<string>)
    ensures 1 <= |lines|
    decreases |s|
  {
    var i := FindCrlf(s, 0);
    if i == |s| then [s] else [s[..i]] + SplitCrlf(s[i + 2..])
  }

  lemma FindCrlfAfterLine(line: string, rest: string)
    requires NoLineFeed(line)
    ensures FindCrlf(line + "\r\n" + rest, 0) == |line|
  {
    var s := line + "\r\n" + rest;
    assert s[|line|] == '\r' && s[|line| + 1] == '\n';
    forall j | 1 <= j <= |line| ensures s[j] != '\n' {
      if j < |line| { assert s[j] == line[j]; }
    }
  }

  lemma FindCrlfNone(line: string)
    requires NoLineFeed(line)
    ensures FindCrlf(line, 0) == |line|
  {
  }

  /** Joining lines that hold no line feed with CRLF and splitting the
      result again gives back exactly those lines. */
  lemma {:induction false} SplitJoinCrlf(lines: seq<string>)
    requires 1 <= |lines|
    requires forall k :: 0 <= k < |lines| ==> NoLineFeed(lines[k])
    ensures SplitCrlf(Join(lines, "\r\n")) == lines
    decreases |lines|
  {
    if |lines| == 1 {
      FindCrlfNone(lines[0]);
    } else {
      var line, tail := lines[0], lines[1..];
      var rest := Join(tail, "\r\n");
      var s := line + "\r\n" + rest;
      assert Join(lines, "\r\n") == s;
      FindCrlfAfterLine(line, rest);
      SliceAround(line, "\r\n", rest);
      assert SplitCrlf(s) == [line] + SplitCrlf(rest);
      SplitJoinCrlf(tail);
      assert lines == [line] + tail;
    }
  }

  lemma SeqAssoc<T>(x: seq<T>, y: seq<T>, z: seq<T>)
    ensures x + (y + z) == (x + y) + z
  {
  }

  /** The two sides of a separator can be cut back out. */
  lemma SliceAround<T>(a: seq<T>, sep: seq<T>, b: seq<T>)
    ensures var s := a + sep + b;
      |s| == |a| + |sep| + |b| && s[..|a|] == a && s[|a| + |sep|..] == b
  {
    var s := a + sep + b;
    assert s[..|a|] == a;
    assert s[|a| + |sep|..] == b;
  }

  /** First position of `c` in `s`. */
  function IndexOf(s: string, c: char): (i: nat)
    requires c in s
    ensures i < |s| && s[i] == c && c !in s[..i]
  {
    if s[0] == c then 0 else 1 + IndexOf(s[1..], c)
  }

  /** `s.split(c)` for a one-character separator. */
  function Split(s: string, c: char): (parts: seq<string>)
    ensures |parts| >= 1
    ensures forall i :: 0 <= i < |parts| ==> c !in parts[i]
    ensures Join(parts, [c]) == s
    decreases |s|
  {
    if c !in s then [s]
    else
      var i := IndexOf(s, c);
      var rest := Split(s[i + 1..], c);
      var parts := [s[..i]] + rest;
      assert parts[1..] == rest;
      assert s == s[..i] + [c] + s[i + 1..];
      parts
  }

  /** Splitting undoes joining, for parts free of the separator. */
  lemma {:induction false} SplitJoin(parts: seq<string>, c: char)
    requires |parts| >= 1
    requires forall i :: 0 <= i < |parts| ==> c !in parts[i]
    ensures Split(Join(parts, [c]), c) == parts
    decreases |parts|
  {
    if |parts| > 1 {
      var part, tail := parts[0], parts[1..];
      var rest := Join(tail, [c]);
      var s := part + [c] + rest;
      assert Join(parts, [c]) == s;
      IndexOfAfter(part, c, rest);
      SliceAround(part, [c], rest);
      assert Split(s, c) == [part] + Split(rest, c);
      SplitJoin(tail, c);
      assert parts == [part] + tail;
    }
  }

  lemma {:induction false} IndexOfAfter(a: string, c: char, b: string)
    requires c !in a
    ensures c in a + [c] + b && IndexOf(a + [c] + b, c) == |a|
    decreases |a|
  {
    var s := a + [c] + b;
    assert s[|a|] == c;
    if |a| > 0 {
      assert s[1..] == a[1..] + [c] + b;
      IndexOfAfter(a[1..], c, b);
    }
  }
}
