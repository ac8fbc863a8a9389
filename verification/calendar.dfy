/** The single-event iCalendar writer of `downloadICS`: floating local
    date-times (form 1 of section 3.3.5 of RFC 5545), text escaping, the
    fixed list of content lines joined by CRLF, and the download file name.
    The download itself (Blob, object URL, synthetic click) is not modelled;
    the clock reading, `Date.now()` and the random hex digits are inputs. */
module Calendar {
  import opened Text
  import opened Clock

  const PRODID: string := "-//BoostFit//Schedule//FR"
  const VERSION: string := "2.0"
  const CALENDAR: string := "VCALENDAR"
  const EVENT: string := "VEVENT"
  const UID_SUFFIX: string := "@boostfit"
  const DEFAULT_DURATION_MIN: int := 15
  const CRLF: string := "\r\n"

  /** Arguments of `downloadICS`; `None` stands for an argument left out,
      which takes the JavaScript default. */
  datatype Event = Event(title: string, description: Option<string>, start: DateTime, durationMin: Option<int>)

  datatype Ics = Ics(text: string, filename: string)

  // ---------------------------------------------------------------------
  // Date-time text

  /** `dt(d)`: year as `String` renders it, then two-digit month, day, `T`,
      hour and minute, then the literal `00`; the seconds are dropped. */
  function FormatDateTime(t: DateTime): string
    requires Valid(t)
  {
    IntText(t.date.year) + Pad2(t.date.month) + Pad2(t.date.day) + "T"
      + Pad2(t.hour) + Pad2(t.minute) + "00"
  }

  /** Reads a `YYYYMMDDTHHMM00` value back into a date-time with zero seconds. */
  function ParseDateTime(s: string): Option<DateTime>
  {
    if && |s| == 15 && AllDigits(s[..4]) && AllDigits(s[4..6]) && AllDigits(s[6..8]) && s[8] == 'T'
       && AllDigits(s[9..11]) && AllDigits(s[11..13]) && s[13..] == "00"
    then
      Some(DateTime(Date(DigitsValue(s[..4]), DigitsValue(s[4..6]), DigitsValue(s[6..8])),
                    DigitsValue(s[9..11]), DigitsValue(s[11..13]), 0, 0))
    else None
  }

  lemma NatTextFourDigits(n: nat)
    requires 1000 <= n < 10000
    ensures |NatText(n)| == 4
  {
    NatTextBelow100(n / 100);
    assert NatText(n / 10) == NatText(n / 10 / 10) + [DigitChar(n / 10 % 10)];
  }

  lemma AllDigitsSlice(s: string, i: nat, j: nat)
    requires AllDigits(s) && i <= j <= |s|
    ensures AllDigits(s[i..j])
  {
  }

  /** For a four-digit year the date-time text has length 15 and reads back
      as the same date, hour and minute with the seconds cleared. */
  lemma FormatParseRoundTrip(t: DateTime)
    requires Valid(t) && 1000 <= t.date.year <= 9999
    ensures |FormatDateTime(t)| == 15 && FormatDateTime(t)[8] == 'T'
    ensures ParseDateTime(FormatDateTime(t)) == Some(t.(second := 0, ms := 0))
  {
    var y := IntText(t.date.year);
    NatTextFourDigits(t.date.year);
    NatTextRoundTrip(t.date.year);
    var mo, d, h, mi := Pad2(t.date.month), Pad2(t.date.day), Pad2(t.hour), Pad2(t.minute);
    var s := FormatDateTime(t);
    assert s == y + mo + d + "T" + h + mi + "00";
    assert s[..4] == y;
    assert s[4..6] == mo;
    assert s[6..8] == d;
    assert s[8] == 'T';
    assert s[9..11] == h;
    assert s[11..13] == mi;
    assert s[13..] == "00";
  }

  // ---------------------------------------------------------------------
  // Text escaping

  predicate IsEscaped(c: char)
  {
    c == ',' || c == ';'
  }

  predicate NoBackslash(s: string)
  {
    forall i :: 0 <= i < |s| ==> s[i] != '\\'
  }

  function EscapeChar(c: char): string
  {
    if IsEscaped(c) then ['\\', c]
    else if c == '\n' then "\\n"
    else [c]
  }

  function CountEscaped(s: string): nat
  {
    if |s| == 0 then 0
    else (if IsEscaped(s[0]) || s[0] == '\n' then 1 else 0) + CountEscaped(s[1..])
  }

  /** `escapeICS`: a backslash goes before every comma and semicolon, and
      every line feed becomes the two characters `\n`. Backslashes and every
      other character pass through unchanged. */
  function Escape(s: string): (r: string)
    ensures NoLineFeed(r)
    ensures |r| == |s| + CountEscaped(s)
  {
    if |s| == 0 then "" else EscapeChar(s[0]) + Escape(s[1..])
  }

  /** Reading an escaped text value as a calendar application does. */
  function Unescape(s: string): string
  {
    if |s| == 0 then ""
    else if s[0] == '\\' && |s| > 1 && IsEscaped(s[1]) then [s[1]] + Unescape(s[2..])
    else if s[0] == '\\' && |s| > 1 && s[1] == 'n' then "\n" + Unescape(s[2..])
    else [s[0]] + Unescape(s[1..])
  }

  /** Every comma or semicolon of the escaped text is preceded by a backslash. */
  lemma {:induction false} EscapeGuardsSeparators(s: string)
    ensures forall i :: 0 <= i < |Escape(s)| && IsEscaped(Escape(s)[i]) ==> 0 < i && Escape(s)[i - 1] == '\\'
    decreases |s|
  {
    if |s| > 0 {
      EscapeGuardsSeparators(s[1..]);
      var e, rest := EscapeChar(s[0]), Escape(s[1..]);
      assert Escape(s) == e + rest;
      forall i | 0 <= i < |e + rest| && IsEscaped((e + rest)[i])
        ensures 0 < i && (e + rest)[i - 1] == '\\'
      {
        if i >= |e| {
          assert (e + rest)[i] == rest[i - |e|];
          if i > |e| {
            assert (e + rest)[i - 1] == rest[i - 1 - |e|];
          } else {
            assert false;
          }
        }
      }
    }
  }

  /** Escaping then unescaping gives the text back whenever it holds no
      backslash. */
  lemma {:induction false} UnescapeEscape(s: string)
    requires NoBackslash(s)
    ensures Unescape(Escape(s)) == s
    decreases |s|
  {
    if |s| > 0 {
      var rest := Escape(s[1..]);
      assert Escape(s) == EscapeChar(s[0]) + rest;
      UnescapeEscape(s[1..]);
      if IsEscaped(s[0]) || s[0] == '\n' {
        assert (EscapeChar(s[0]) + rest)[2..] == rest;
      } else {
        assert (EscapeChar(s[0]) + rest)[1..] == rest;
      }
      assert s == [s[0]] + s[1..];
    }
  }

  /** Backslashes are not escaped, so a line feed and a backslash followed by
      `n` come out the same: the escaping is not one-to-one. */
  lemma EscapeNotInjective()
    ensures Escape("\n") == Escape("\\n") && "\n" != "\\n"
  {
    assert Escape("\\n") == EscapeChar('\\') + Escape("n");
  }

  // ---------------------------------------------------------------------
  // File name

  function DropSpaces(s: string): (r: string)
    ensures |r| <= |s|
    ensures |r| == 0 || !IsJsSpace(r[0])
  {
    if |s| > 0 && IsJsSpace(s[0]) then DropSpaces(s[1..]) else s
  }

  predicate AllSpace(s: string)
  {
    forall i :: 0 <= i < |s| ==> IsJsSpace(s[i])
  }

  /** `s.replace(/\s+/g, '_')`: every maximal run of whitespace becomes one
      underscore. */
  function CollapseSpaces(s: string): (r: string)
    ensures NoSpace(r)
    ensures |r| <= |s|
    decreases |s|
  {
    if |s| == 0 then ""
    else if IsJsSpace(s[0]) then "_" + CollapseSpaces(DropSpaces(s[1..]))
    else [s[0]] + CollapseSpaces(s[1..])
  }

  lemma {:induction false} DropSpacesPrefix(w: string, y: string)
    requires AllSpace(w) && (|y| == 0 || !IsJsSpace(y[0]))
    ensures DropSpaces(w + y) == y
    decreases |w|
  {
    if |w| > 0 {
      assert (w + y)[1..] == w[1..] + y;
      DropSpacesPrefix(w[1..], y);
    }
  }

  /** A text without whitespace is left as it is. */
  lemma {:induction false} CollapseNoSpace(s: string)
    requires NoSpace(s)
    ensures CollapseSpaces(s) == s
    decreases |s|
  {
    if |s| > 0 {
      CollapseNoSpace(s[1..]);
    }
  }

  /** A whitespace-free prefix followed by a run of whitespace: the prefix is
      kept, the whole run becomes one `_`, and the rest is processed alike.
      With `CollapseNoSpace` this fixes the result for every input. */
  lemma {:induction false} CollapseRun(x: string, w: string, y: string)
    requires NoSpace(x) && 0 < |w| && AllSpace(w) && (|y| == 0 || !IsJsSpace(y[0]))
    ensures CollapseSpaces(x + w + y) == x + "_" + CollapseSpaces(y)
    decreases |x|
  {
    if |x| == 0 {
      assert x + w + y == w + y;
      assert (w + y)[1..] == w[1..] + y;
      DropSpacesPrefix(w[1..], y);
    } else {
      assert (x + w + y)[1..] == x[1..] + w + y;
      CollapseRun(x[1..], w, y);
    }
  }

  /** The download name: the title with each whitespace run turned into
      `_`, then `.ics`. */
  function FileName(title: string): (r: string)
    ensures r == CollapseSpaces(title) + ".ics"
    ensures |r| >= 4 && NoSpace(r[..|r| - 4]) && r[|r| - 4..] == ".ics"
  {
    var stem := CollapseSpaces(title);
    assert (stem + ".ics")[..|stem|] == stem;
    stem + ".ics"
  }

  // ---------------------------------------------------------------------
  // Content lines

  predicate NoColon(s: string)
  {
    forall i :: 0 <= i < |s| ==> s[i] != ':'
  }

  function FirstColon(l: string): (i: nat)
    ensures i <= |l|
    ensures NoColon(l[..i])
    ensures i < |l| ==> l[i] == ':'
  {
    if |l| == 0 then 0
    else if l[0] == ':' then 0
    else
      var i := 1 + FirstColon(l[1..]);
      assert l[..i] == [l[0]] + l[1..][..i - 1];
      i
  }

  /** The property name of a content line: the text before its first colon. */
  function LineName(l: string): string
  {
    l[..FirstColon(l)]
  }

  /** The property value of a content line: the text after its first colon. */
  function LineValue(l: string): string
  {
    if FirstColon(l) < |l| then l[FirstColon(l) + 1..] else ""
  }

  function Names(lines: seq<string>): (r: seq<string>)
    ensures |r| == |lines|
    ensures forall i :: 0 <= i < |lines| ==> r[i] == LineName(lines[i])
  {
    if |lines| == 0 then [] else [LineName(lines[0])] + Names(lines[1..])
  }

  function Property(name: string, value: string): string
  {
    name + ":" + value
  }

  lemma {:induction false} FirstColonAt(l: string, i: nat)
    requires i < |l| && l[i] == ':' && NoColon(l[..i])
    ensures FirstColon(l) == i
    decreases i
  {
    if i > 0 {
      assert l[0] == l[..i][0];
      assert l[1..][..i - 1] == l[1..i];
      FirstColonAt(l[1..], i - 1);
    }
  }

  lemma PropertyParts(name: string, value: string)
    requires NoColon(name)
    ensures LineName(Property(name, value)) == name
    ensures LineValue(Property(name, value)) == value
  {
    var l := Property(name, value);
    assert l[..|name|] == name;
    FirstColonAt(l, |name|);
    assert l[|name| + 1..] == value;
  }

  /** The sequence of property names the encoder emits. */
  function EventNames(withDescription: bool): seq<string>
  {
    ["BEGIN", "VERSION", "PRODID", "BEGIN", "UID", "DTSTAMP", "DTSTART", "DTEND", "SUMMARY"]
      + (if withDescription then ["DESCRIPTION"] else [])
      + ["END", "END"]
  }

  /** A DESCRIPTION line is listed exactly when one is asked for. */
  lemma DescriptionNamed(withDescription: bool)
    ensures "DESCRIPTION" in EventNames(withDescription) <==> withDescription
  {
    var names := EventNames(withDescription);
    if withDescription {
      assert names[9] == "DESCRIPTION";
    } else {
      forall i | 0 <= i < |names| ensures names[i] != "DESCRIPTION" {
        assert |names[i]| != |"DESCRIPTION"|;
      }
    }
  }

  predicate IsHexDigit(c: char)
  {
    IsDigit(c) || 'a' <= c <= 'f'
  }

  /** `${Date.now()}-${Math.random().toString(16).slice(2)}@boostfit`. */
  function Uid(nowMs: int, randomHex: string): string
  {
    IntText(nowMs) + "-" + randomHex + UID_SUFFIX
  }

  function DurationOf(e: Event): int
  {
    match e.durationMin
    case Some(n) => n
    case None => DEFAULT_DURATION_MIN
  }

  function DescriptionOf(e: Event): string
  {
    match e.description
    case Some(d) => d
    case None => ""
  }

  /** The `name:value` pairs of `downloadICS`, in order, from the already
      rendered property values, after `.filter(Boolean)`: the DESCRIPTION
      pair is dropped when there is no description value. */
  function Props(uid: string, stamp: string, start: string, end: string,
                 summary: string, description: Option<string>): seq<(string, string)>
  {
    if description.Some? then
      [("BEGIN", CALENDAR), ("VERSION", VERSION), ("PRODID", PRODID), ("BEGIN", EVENT),
       ("UID", uid), ("DTSTAMP", stamp), ("DTSTART", start), ("DTEND", end), ("SUMMARY", summary),
       ("DESCRIPTION", description.value),
       ("END", EVENT), ("END", CALENDAR)]
    else
      [("BEGIN", CALENDAR), ("VERSION", VERSION), ("PRODID", PRODID), ("BEGIN", EVENT),
       ("UID", uid), ("DTSTAMP", stamp), ("DTSTART", start), ("DTEND", end), ("SUMMARY", summary),
       ("END", EVENT), ("END", CALENDAR)]
  }

  function Lines(props: seq<(string, string)>): (lines: seq<string>)
    ensures |lines| == |props|
  {
    seq(|props|, i requires 0 <= i < |props| => Property(props[i].0, props[i].1))
  }

  function ContentLines(uid: string, stamp: string, start: string, end: string,
                        summary: string, description: Option<string>): seq<string>
  {
    Lines(Props(uid, stamp, start, end, summary, description))
  }

  /** Each line reads back as the pair it was written from. */
  lemma LinesReadBack(props: seq<(string, string)>)
    requires forall i :: 0 <= i < |props| ==> NoColon(props[i].0)
    ensures forall i :: 0 <= i < |props| ==>
      LineName(Lines(props)[i]) == props[i].0 && LineValue(Lines(props)[i]) == props[i].1
  {
    forall i | 0 <= i < |props|
      ensures LineName(Lines(props)[i]) == props[i].0 && LineValue(Lines(props)[i]) == props[i].1
    {
      PropertyParts(props[i].0, props[i].1);
    }
  }

  /** What a reader of the content lines finds, property by property. */
  ghost predicate LinesDescribe(lines: seq<string>, uid: string, stamp: string, start: string, end: string,
                                summary: string, description: Option<string>)
  {
    && |lines| == (if description.Some? then 12 else 11)
    && Names(lines) == EventNames(description.Some?)
    && LineValue(lines[0]) == CALENDAR && LineValue(lines[1]) == VERSION
    && LineValue(lines[2]) == PRODID && LineValue(lines[3]) == EVENT
    && LineValue(lines[4]) == uid && LineValue(lines[5]) == stamp
    && LineValue(lines[6]) == start && LineValue(lines[7]) == end
    && LineValue(lines[8]) == summary
    && (description.Some? ==> LineValue(lines[9]) == description.value)
    && LineValue(lines[|lines| - 2]) == EVENT && LineValue(lines[|lines| - 1]) == CALENDAR
  }

  lemma DigitsNoLineFeed(s: string)
    requires AllDigits(s)
    ensures NoLineFeed(s)
  {
  }

  lemma IntTextNoLineFeed(i: int)
    ensures NoLineFeed(IntText(i))
  {
    if i < 0 {
      DigitsNoLineFeed(NatText(-i));
      assert IntText(i) == "-" + NatText(-i);
    } else {
      DigitsNoLineFeed(NatText(i));
    }
  }

  lemma FormatNoLineFeed(t: DateTime)
    requires Valid(t)
    ensures NoLineFeed(FormatDateTime(t))
  {
    IntTextNoLineFeed(t.date.year);
    var p1, p2, p3, p4 := Pad2(t.date.month), Pad2(t.date.day), Pad2(t.hour), Pad2(t.minute);
    DigitsNoLineFeed(p1);
    DigitsNoLineFeed(p2);
    DigitsNoLineFeed(p3);
    DigitsNoLineFeed(p4);
    var s := IntText(t.date.year);
    NoLineFeedConcat(s, p1);
    NoLineFeedConcat(s + p1, p2);
    NoLineFeedConcat(s + p1 + p2, "T");
    NoLineFeedConcat(s + p1 + p2 + "T", p3);
    NoLineFeedConcat(s + p1 + p2 + "T" + p3, p4);
    NoLineFeedConcat(s + p1 + p2 + "T" + p3 + p4, "00");
  }

  lemma UidNoLineFeed(nowMs: int, randomHex: string)
    requires forall i :: 0 <= i < |randomHex| ==> IsHexDigit(randomHex[i])
    ensures NoLineFeed(Uid(nowMs, randomHex))
  {
    IntTextNoLineFeed(nowMs);
    var uid := Uid(nowMs, randomHex);
    var n := IntText(nowMs);
    forall i | 0 <= i < |uid| ensures uid[i] != '\n' {
      if i < |n| {
        assert uid[i] == n[i];
      } else if i == |n| {
      } else if i < |n| + 1 + |randomHex| {
        assert uid[i] == randomHex[i - |n| - 1];
      } else {
        assert uid[i] == UID_SUFFIX[i - |n| - 1 - |randomHex|];
      }
    }
  }

  lemma UidSuffix(nowMs: int, randomHex: string)
    ensures var uid := Uid(nowMs, randomHex);
      |uid| >= |UID_SUFFIX| && uid[|uid| - |UID_SUFFIX|..] == UID_SUFFIX
  {
  }

  lemma PropertyNoLineFeed(name: string, value: string)
    requires NoLineFeed(name) && NoLineFeed(value)
    ensures NoLineFeed(Property(name, value))
  {
  }

  lemma NoLineFeedConcat(a: string, b: string)
    requires NoLineFeed(a) && NoLineFeed(b)
    ensures NoLineFeed(a + b)
  {
    forall i | 0 <= i < |a + b| ensures (a + b)[i] != '\n' {
      if i >= |a| {
        assert (a + b)[i] == b[i - |a|];
      }
    }
  }

  predicate UpperCase(s: string)
  {
    forall i :: 0 <= i < |s| ==> 'A' <= s[i] <= 'Z'
  }

  lemma UpperCasePlain(s: string)
    requires UpperCase(s)
    ensures NoColon(s) && NoLineFeed(s)
  {
  }

  lemma LiteralsPlain()
    ensures NoLineFeed(CALENDAR) && NoLineFeed(VERSION) && NoLineFeed(PRODID) && NoLineFeed(EVENT)
  {
  }

  /** The property names are upper-case words. */
  lemma NamesPlain(withDescription: bool)
    ensures var names := EventNames(withDescription);
      forall k :: 0 <= k < |names| ==> NoColon(names[k]) && NoLineFeed(names[k])
  {
    var names := EventNames(withDescription);
    forall k | 0 <= k < |names| ensures NoColon(names[k]) && NoLineFeed(names[k]) {
      UpperCasePlain(names[k]);
    }
  }

  lemma PropsNames(uid: string, stamp: string, start: string, end: string,
                   summary: string, description: Option<string>)
    ensures var props := Props(uid, stamp, start, end, summary, description);
      var names := EventNames(description.Some?);
      |props| == |names| && forall i :: 0 <= i < |props| ==> props[i].0 == names[i]
  {
  }

  lemma PropsPlain(uid: string, stamp: string, start: string, end: string,
                   summary: string, description: Option<string>)
    requires NoLineFeed(uid) && NoLineFeed(stamp) && NoLineFeed(start) && NoLineFeed(end) && NoLineFeed(summary)
    requires description.Some? ==> NoLineFeed(description.value)
    ensures var props := Props(uid, stamp, start, end, summary, description);
      forall i :: 0 <= i < |props| ==> NoColon(props[i].0) && NoLineFeed(props[i].0) && NoLineFeed(props[i].1)
  {
    var props := Props(uid, stamp, start, end, summary, description);
    PropsNames(uid, stamp, start, end, summary, description);
    LiteralsPlain();
    NamesPlain(description.Some?);
  }

  lemma ContentLinesValues(uid: string, stamp: string, start: string, end: string,
                           summary: string, description: Option<string>)
    requires NoLineFeed(uid) && NoLineFeed(stamp) && NoLineFeed(start) && NoLineFeed(end) && NoLineFeed(summary)
    requires description.Some? ==> NoLineFeed(description.value)
    ensures var props := Props(uid, stamp, start, end, summary, description);
      var lines := Lines(props);
      forall i :: 0 <= i < |props| ==>
        LineName(lines[i]) == props[i].0 && LineValue(lines[i]) == props[i].1 && NoLineFeed(lines[i])
  {
    var props := Props(uid, stamp, start, end, summary, description);
    PropsPlain(uid, stamp, start, end, summary, description);
    LinesReadBack(props);
    forall k | 0 <= k < |props| ensures NoLineFeed(Lines(props)[k]) {
      PropertyNoLineFeed(props[k].0, props[k].1);
    }
  }

  lemma PropsValues(uid: string, stamp: string, start: string, end: string,
                    summary: string, description: Option<string>)
    ensures var props := Props(uid, stamp, start, end, summary, description);
      var n := |props|;
      && n == (if description.Some? then 12 else 11)
      && props[0].1 == CALENDAR && props[1].1 == VERSION && props[2].1 == PRODID && props[3].1 == EVENT
      && props[4].1 == uid && props[5].1 == stamp && props[6].1 == start && props[7].1 == end
      && props[8].1 == summary
      && (description.Some? ==> props[9].1 == description.value)
      && props[n - 2].1 == EVENT && props[n - 1].1 == CALENDAR
  {
  }

  /** Every content line is `name:value` with the expected name and value,
      and none holds a line feed when the values hold none. */
  lemma ContentLinesShape(uid: string, stamp: string, start: string, end: string,
                          summary: string, description: Option<string>)
    requires NoLineFeed(uid) && NoLineFeed(stamp) && NoLineFeed(start) && NoLineFeed(end) && NoLineFeed(summary)
    requires description.Some? ==> NoLineFeed(description.value)
    ensures var lines := ContentLines(uid, stamp, start, end, summary, description);
      && LinesDescribe(lines, uid, stamp, start, end, summary, description)
      && (forall k :: 0 <= k < |lines| ==> NoLineFeed(lines[k]))
  {
    var props := Props(uid, stamp, start, end, summary, description);
    var lines := Lines(props);
    ContentLinesValues(uid, stamp, start, end, summary, description);
    PropsNames(uid, stamp, start, end, summary, description);
    NamesMatch(lines, EventNames(description.Some?));
    PropsValues(uid, stamp, start, end, summary, description);
  }

  lemma NamesMatch(lines: seq<string>, names: seq<string>)
    requires |lines| == |names|
    requires forall i :: 0 <= i < |lines| ==> LineName(lines[i]) == names[i]
    ensures Names(lines) == names
  {
  }

  /** The rendered values of the event's properties. */
  function SummaryValue(e: Event): string
  {
    Escape(e.title)
  }

  function DescriptionValue(e: Event): Option<string>
  {
    if DescriptionOf(e) != "" then Some(Escape(DescriptionOf(e))) else None
  }

  function EndOf(e: Event): DateTime
    requires Valid(e.start)
  {
    AddMinutes(e.start, DurationOf(e))
  }

  /** `downloadICS` without its download side effect: the calendar text and
      the file name. `stamp` is the clock reading used for DTSTAMP, `nowMs`
      and `randomHex` the two parts of the UID. Split back at CRLF, the text
      holds the fixed sequence of properties with the expected values; the
      UID ends in `@boostfit`; the file name is whitespace-free before `.ics`. */
  function Encode(e: Event, stamp: DateTime, nowMs: int, randomHex: string): (r: Ics)
    requires Valid(e.start) && Valid(stamp)
    requires forall i :: 0 <= i < |randomHex| ==> IsHexDigit(randomHex[i])
    ensures r.filename == FileName(e.title)
    ensures |r.filename| >= 4 && NoSpace(r.filename[..|r.filename| - 4])
    ensures r.filename[|r.filename| - 4..] == ".ics"
    ensures LinesDescribe(SplitCrlf(r.text), Uid(nowMs, randomHex), FormatDateTime(stamp),
                          FormatDateTime(e.start), FormatDateTime(EndOf(e)),
                          SummaryValue(e), DescriptionValue(e))
    ensures var uid := LineValue(SplitCrlf(r.text)[4]);
      |uid| >= |UID_SUFFIX| && uid[|uid| - |UID_SUFFIX|..] == UID_SUFFIX
  {
    var uid, st, sv, ev := Uid(nowMs, randomHex), FormatDateTime(stamp), FormatDateTime(e.start), FormatDateTime(EndOf(e));
    UidNoLineFeed(nowMs, randomHex);
    UidSuffix(nowMs, randomHex);
    FormatNoLineFeed(stamp);
    FormatNoLineFeed(e.start);
    FormatNoLineFeed(EndOf(e));
    EscapedValuesPlain(e);
    Ics(CalendarText(uid, st, sv, ev, SummaryValue(e), DescriptionValue(e)), FileName(e.title))
  }

  /** The content lines joined with CRLF; split back, they describe the
      event. */
  function CalendarText(uid: string, stamp: string, start: string, end: string,
                        summary: string, description: Option<string>): (t: string)
    requires NoLineFeed(uid) && NoLineFeed(stamp) && NoLineFeed(start) && NoLineFeed(end) && NoLineFeed(summary)
    requires description.Some? ==> NoLineFeed(description.value)
    ensures LinesDescribe(SplitCrlf(t), uid, stamp, start, end, summary, description)
  {
    JoinedLinesReadBack(uid, stamp, start, end, summary, description);
    Join(ContentLines(uid, stamp, start, end, summary, description), CRLF)
  }

  lemma EscapedValuesPlain(e: Event)
    ensures NoLineFeed(SummaryValue(e))
    ensures DescriptionValue(e).Some? ==> NoLineFeed(DescriptionValue(e).value)
  {
  }

  /** The CRLF-joined content lines split back into lines that describe the
      event. */
  lemma JoinedLinesReadBack(uid: string, stamp: string, start: string, end: string,
                            summary: string, description: Option<string>)
    requires NoLineFeed(uid) && NoLineFeed(stamp) && NoLineFeed(start) && NoLineFeed(end) && NoLineFeed(summary)
    requires description.Some? ==> NoLineFeed(description.value)
    ensures LinesDescribe(SplitCrlf(Join(ContentLines(uid, stamp, start, end, summary, description), CRLF)),
                          uid, stamp, start, end, summary, description)
  {
    ContentLinesShape(uid, stamp, start, end, summary, description);
    SplitJoinCrlf(ContentLines(uid, stamp, start, end, summary, description));
  }

  /** DTEND denotes the start plus the duration: read back, it is a valid
      date-time exactly `durationMin` minutes after the start with the
      start's seconds cleared, whatever midnights or month ends lie between. */
  lemma DtEndIsStartPlusDuration(e: Event, stamp: DateTime, nowMs: int, randomHex: string)
    requires Valid(e.start) && Valid(stamp)
    requires forall i :: 0 <= i < |randomHex| ==> IsHexDigit(randomHex[i])
    requires 1000 <= EndOf(e).date.year <= 9999
    ensures var v := ParseDateTime(LineValue(SplitCrlf(Encode(e, stamp, nowMs, randomHex).text)[7]));
      && v.Some? && Valid(v.value)
      && ToMs(v.value) == ToMs(e.start) + DurationOf(e) * MS_PER_MINUTE - e.start.second * 1000 - e.start.ms
  {
    FormatParseRoundTrip(EndOf(e));
  }

  /** The text fields read back as given whenever they hold no backslash,
      and the DESCRIPTION line is there exactly when the description is
      non-empty. */
  lemma TextFieldsRoundTrip(e: Event, stamp: DateTime, nowMs: int, randomHex: string)
    requires Valid(e.start) && Valid(stamp)
    requires forall i :: 0 <= i < |randomHex| ==> IsHexDigit(randomHex[i])
    requires NoBackslash(e.title) && NoBackslash(DescriptionOf(e))
    ensures var lines := SplitCrlf(Encode(e, stamp, nowMs, randomHex).text);
      && Unescape(LineValue(lines[8])) == e.title
      && ("DESCRIPTION" in Names(lines) <==> DescriptionOf(e) != "")
      && (DescriptionOf(e) != "" ==> Unescape(LineValue(lines[9])) == DescriptionOf(e))
  {
    UnescapeEscape(e.title);
    UnescapeEscape(DescriptionOf(e));
    DescriptionNamed(DescriptionOf(e) != "");
  }

  /** An example event: a 15-minute "Run" at 08:00 on
      2024-01-01 starts at 20240101T080000 and ends at 20240101T081500. */
  lemma RunExample()
    ensures var start := DateTime(Date(2024, 1, 1), 8, 0, 0, 0);
      && FormatDateTime(start) == "20240101T080000"
      && FormatDateTime(AddMinutes(start, DEFAULT_DURATION_MIN)) == "20240101T081500"
  {
    var start := DateTime(Date(2024, 1, 1), 8, 0, 0, 0);
    assert AddMinutes(start, 15) == DateTime(Date(2024, 1, 1), 8, 15, 0, 0);
    assert NatText(2024) == "2024" by {
      assert NatText(202) == "202" by {
        assert NatText(20) == "20";
      }
    }
  }
}
