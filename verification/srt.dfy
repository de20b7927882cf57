/** Parsing of SRT subtitle text into timed transcript segments
    (`parse_srt` in scripts/align_speakers.py). Times are kept exactly, in
    integer milliseconds. */
module Srt {
  import opened Options
  import opened Text

  /** A transcript segment: start and end in milliseconds, and its text. */
  datatype Segment = Segment(startMs: int, endMs: int, text: string)

  datatype Span = Span(startMs: int, endMs: int)

  /** `HH:MM:SS,mmm` (or with `.` before the milliseconds) as values. */
  datatype Clock = Clock(h: nat, m: nat, s: nat, ms: nat, sep: char)

  predicate ValidClock(c: Clock) {
    c.h < 100 && c.m < 100 && c.s < 100 && c.ms < 1000 && (c.sep == ',' || c.sep == '.')
  }

  function Millis(c: Clock): int {
    c.h * 3600000 + c.m * 60000 + c.s * 1000 + c.ms
  }

  function Digit(d: nat): (c: char)
    requires d < 10
    ensures IsDigit(c) && DigitValue(c) == d
  {
    ('0' as int + d) as char
  }

  function DigitValue(c: char): nat
    requires IsDigit(c)
  {
    c as int - '0' as int
  }

  function Digits2(n: nat): string
    requires n < 100
  {
    [Digit(n / 10), Digit(n % 10)]
  }

  function Digits3(n: nat): string
    requires n < 1000
  {
    [Digit(n / 100), Digit(n / 10 % 10), Digit(n % 10)]
  }

  function FormatClock(c: Clock): (r: string)
    requires ValidClock(c)
    ensures |r| == 12
  {
    Digits2(c.h) + ":" + Digits2(c.m) + ":" + Digits2(c.s) + [c.sep] + Digits3(c.ms)
  }

  /** The text of a timestamp line: a clock, optional whitespace, `-->`,
      optional whitespace, a clock, and anything after it. */
  function TimestampText(a: Clock, w1: string, w2: string, b: Clock, tail: string): string
    requires ValidClock(a) && ValidClock(b)
  {
    FormatClock(a) + w1 + "-->" + w2 + FormatClock(b) + tail
  }

  /** The lines the timestamp pattern accepts, stated by how they are built. */
  ghost predicate IsTimestampLine(line: string) {
    exists a: Clock, w1: string, w2: string, b: Clock, tail: string ::
      ValidClock(a) && ValidClock(b) && AllSpace(w1) && AllSpace(w2)
      && line == TimestampText(a, w1, w2, b, tail)
  }

  /** Does `line` hold the shape `\d{2}:\d{2}:\d{2}[,.]\d{3}` at `i`? */
  predicate ClockAt(line: string, i: nat) {
    && i + 12 <= |line|
    && IsDigit(line[i]) && IsDigit(line[i + 1]) && line[i + 2] == ':'
    && IsDigit(line[i + 3]) && IsDigit(line[i + 4]) && line[i + 5] == ':'
    && IsDigit(line[i + 6]) && IsDigit(line[i + 7])
    && (line[i + 8] == ',' || line[i + 8] == '.')
    && IsDigit(line[i + 9]) && IsDigit(line[i + 10]) && IsDigit(line[i + 11])
  }

  function ReadClock(line: string, i: nat): Clock
    requires ClockAt(line, i)
  {
    Clock(DigitValue(line[i]) * 10 + DigitValue(line[i + 1]),
          DigitValue(line[i + 3]) * 10 + DigitValue(line[i + 4]),
          DigitValue(line[i + 6]) * 10 + DigitValue(line[i + 7]),
          DigitValue(line[i + 9]) * 100 + DigitValue(line[i + 10]) * 10 + DigitValue(line[i + 11]),
          line[i + 8])
  }

  /** The timestamp pattern matched at the start of `line` (a match, not a
      full match: text after the second clock is ignored). */
  function ParseTimestamps(line: string): Option<Span> {
    if !ClockAt(line, 0) then None
    else
      var j := SkipSpaces(line, 12);
      if !(j + 3 <= |line| && line[j..j + 3] == "-->") then None
      else
        var k := SkipSpaces(line, j + 3);
        if !ClockAt(line, k) then None
        else Some(Span(Millis(ReadClock(line, 0)), Millis(ReadClock(line, k))))
  }

  /** One blank-line-separated entry: its stripped lines must number at
      least three, the second must carry the timestamps, and the text is the
      remaining lines joined by single spaces. */
  function ParseEntry(entry: string): Option<Segment> {
    var lines := Split(Strip(entry), '\n');
    if |lines| < 3 then None
    else match ParseTimestamps(lines[1])
      case None => None
      case Some(span) => Some(Segment(span.startMs, span.endMs, Join(lines[2..], " ")))
  }

  /** No two consecutive line feeds. */
  predicate NoBlankLine(p: string) {
    forall i :: 0 <= i < |p| - 1 ==> !(p[i] == '\n' && p[i + 1] == '\n')
  }

  function NewlineRunEnd(s: string, i: nat): (j: nat)
    requires i <= |s|
    ensures i <= j <= |s|
    ensures j == |s| || s[j] != '\n'
    decreases |s| - i
  {
    if i == |s| || s[i] != '\n' then i else NewlineRunEnd(s, i + 1)
  }

  /** `re.split(r'\n\n+', s)`: cut at every run of two or more line feeds. */
  function SplitBlank(s: string): (r: seq<string>)
    ensures |r| > 0
    ensures |r[0]| <= |s| && r[0] == s[..|r[0]|]
    ensures forall k :: 0 <= k < |r| ==> NoBlankLine(r[k])
    decreases |s|
  {
    if |s| == 0 then [""]
    else if |s| >= 2 && s[0] == '\n' && s[1] == '\n' then
      [""] + SplitBlank(s[NewlineRunEnd(s, 0)..])
    else
      var rest := SplitBlank(s[1..]);
      var r := [[s[0]] + rest[0]] + rest[1..];
      assert r[1..] == rest[1..];
      r
  }

  /** `parse_srt` on the text of an SRT file. */
  function ParseSrt(content: string): seq<Segment> {
    FilterMap(ParseEntry, SplitBlank(Strip(content)))
  }

  // ---------------------------------------------------------------------
  // Timestamps: the parser accepts exactly the lines built by
  // `TimestampText`, and reads back the values they were built from.

  lemma ClockAtFormat(line: string, i: nat, c: Clock)
    requires ValidClock(c)
    requires i + 12 <= |line| && line[i..i + 12] == FormatClock(c)
    ensures ClockAt(line, i) && ReadClock(line, i) == c
  {
    var f := FormatClock(c);
    FormatClockAt(c);
    forall q | 0 <= q < 12 ensures line[i + q] == f[q] {
      assert line[i..i + 12][q] == line[i + q];
    }
    Digits2Value(c.h);
    Digits2Value(c.m);
    Digits2Value(c.s);
    Digits3Value(c.ms);
  }

  lemma FormatClockAt(c: Clock)
    requires ValidClock(c)
    ensures var f := FormatClock(c);
      && f[0] == Digit(c.h / 10) && f[1] == Digit(c.h % 10) && f[2] == ':'
      && f[3] == Digit(c.m / 10) && f[4] == Digit(c.m % 10) && f[5] == ':'
      && f[6] == Digit(c.s / 10) && f[7] == Digit(c.s % 10) && f[8] == c.sep
      && f[9] == Digit(c.ms / 100) && f[10] == Digit(c.ms / 10 % 10) && f[11] == Digit(c.ms % 10)
  {
  }

  lemma Digits2Value(n: nat)
    requires n < 100
    ensures DigitValue(Digit(n / 10)) * 10 + DigitValue(Digit(n % 10)) == n
  {
  }

  lemma Digits3Value(n: nat)
    requires n < 1000
    ensures DigitValue(Digit(n / 100)) * 100 + DigitValue(Digit(n / 10 % 10)) * 10 + DigitValue(Digit(n % 10)) == n
  {
    assert n / 10 == (n / 100) * 10 + n / 10 % 10;
  }

  lemma DigitRead(x: char)
    requires IsDigit(x)
    ensures DigitValue(x) < 10 && Digit(DigitValue(x)) == x
  {
  }

  lemma Digits2Read(x: char, y: char)
    requires IsDigit(x) && IsDigit(y)
    ensures DigitValue(x) * 10 + DigitValue(y) < 100
    ensures Digits2(DigitValue(x) * 10 + DigitValue(y)) == [x, y]
  {
    DigitRead(x);
    DigitRead(y);
    var n := DigitValue(x) * 10 + DigitValue(y);
    assert n / 10 == DigitValue(x) && n % 10 == DigitValue(y);
  }

  lemma Digits3Read(x: char, y: char, z: char)
    requires IsDigit(x) && IsDigit(y) && IsDigit(z)
    ensures DigitValue(x) * 100 + DigitValue(y) * 10 + DigitValue(z) < 1000
    ensures Digits3(DigitValue(x) * 100 + DigitValue(y) * 10 + DigitValue(z)) == [x, y, z]
  {
    DigitRead(x);
    DigitRead(y);
    DigitRead(z);
    var a, b, c := DigitValue(x), DigitValue(y), DigitValue(z);
    var n := a * 100 + b * 10 + c;
    assert n / 100 == a;
    assert n / 10 == a * 10 + b;
    assert (a * 10 + b) % 10 == b;
    assert n % 10 == c;
  }

  lemma FormatReadClock(line: string, i: nat)
    requires ClockAt(line, i)
    ensures ValidClock(ReadClock(line, i))
    ensures FormatClock(ReadClock(line, i)) == line[i..i + 12]
  {
    var c := ReadClock(line, i);
    Digits2Read(line[i], line[i + 1]);
    Digits2Read(line[i + 3], line[i + 4]);
    Digits2Read(line[i + 6], line[i + 7]);
    Digits3Read(line[i + 9], line[i + 10], line[i + 11]);
    var f := FormatClock(c);
    assert f == [line[i], line[i + 1]] + ":" + [line[i + 3], line[i + 4]] + ":"
      + [line[i + 6], line[i + 7]] + [line[i + 8]] + [line[i + 9], line[i + 10], line[i + 11]];
    assert |f| == 12;
    forall q | 0 <= q < 12 ensures f[q] == line[i..i + 12][q] {
    }
  }

  /** A line built from two clocks parses to their values in milliseconds:
      h·3600000 + m·60000 + s·1000 + ms. */
  lemma TimestampRoundTrip(a: Clock, w1: string, w2: string, b: Clock, tail: string)
    requires ValidClock(a) && ValidClock(b) && AllSpace(w1) && AllSpace(w2)
    ensures ParseTimestamps(TimestampText(a, w1, w2, b, tail)) == Some(Span(Millis(a), Millis(b)))
  {
    var line := TimestampText(a, w1, w2, b, tail);
    var j := 12 + |w1|;
    var k := j + 3 + |w2|;
    TimestampLayout(a, w1, w2, b, tail);
    ClockAtFormat(line, 0, a);
    RunEndAt(line, 12, j, IsSpace);
    RunEndAt(line, j + 3, k, IsSpace);
    ClockAtFormat(line, k, b);
  }

  /** Where the pieces of a built timestamp line sit. */
  lemma TimestampLayout(a: Clock, w1: string, w2: string, b: Clock, tail: string)
    requires ValidClock(a) && ValidClock(b) && AllSpace(w1) && AllSpace(w2)
    ensures var line := TimestampText(a, w1, w2, b, tail);
      var j := 12 + |w1|;
      var k := j + 3 + |w2|;
      && k + 12 <= |line|
      && line[0..12] == FormatClock(a)
      && (forall q :: 12 <= q < j ==> IsSpace(line[q]))
      && line[j..j + 3] == "-->" && !IsSpace(line[j])
      && (forall q :: j + 3 <= q < k ==> IsSpace(line[q]))
      && line[k..k + 12] == FormatClock(b) && !IsSpace(line[k])
  {
    var line := TimestampText(a, w1, w2, b, tail);
    var fa := FormatClock(a);
    var fb := FormatClock(b);
    var j := 12 + |w1|;
    var k := j + 3 + |w2|;
    assert line == fa + w1 + "-->" + w2 + fb + tail;
    assert line[0..12] == fa;
    forall q | 12 <= q < j ensures IsSpace(line[q]) {
      assert line[q] == w1[q - 12];
    }
    assert line[j..j + 3] == "-->";
    forall q | j + 3 <= q < k ensures IsSpace(line[q]) {
      assert line[q] == w2[q - j - 3];
    }
    assert line[k..k + 12] == fb;
    FormatClockAt(b);
    assert line[k] == fb[0];
  }

  /** Every line the parser accepts is one `TimestampText` builds. */
  lemma TimestampComplete(line: string)
    requires ParseTimestamps(line).Some?
    ensures IsTimestampLine(line)
  {
    var j := SkipSpaces(line, 12);
    var k := SkipSpaces(line, j + 3);
    assert ClockAt(line, 0) && j + 3 <= |line| && line[j..j + 3] == "-->" && ClockAt(line, k);
    TimestampWitness(line, j, k);
  }

  lemma TimestampWitness(line: string, j: nat, k: nat)
    requires ClockAt(line, 0) && 12 <= j && j + 3 <= k && ClockAt(line, k)
    requires line[j..j + 3] == "-->"
    requires forall q :: 12 <= q < j ==> IsSpace(line[q])
    requires forall q :: j + 3 <= q < k ==> IsSpace(line[q])
    ensures IsTimestampLine(line)
  {
    var a := ReadClock(line, 0);
    var b := ReadClock(line, k);
    FormatReadClock(line, 0);
    FormatReadClock(line, k);
    var w1 := line[12..j];
    var w2 := line[j + 3..k];
    var tail := line[k + 12..];
    SpaceSlice(line, 12, j);
    SpaceSlice(line, j + 3, k);
    assert line[..12] == line[0..12];
    TimestampAssemble(line, a, b, j, k);
    assert ValidClock(a) && ValidClock(b) && AllSpace(w1) && AllSpace(w2)
      && line == TimestampText(a, w1, w2, b, tail);
  }

  lemma SpaceSlice(line: string, i: nat, j: nat)
    requires i <= j <= |line|
    requires forall q :: i <= q < j ==> IsSpace(line[q])
    ensures AllSpace(line[i..j])
  {
    forall q | 0 <= q < j - i ensures IsSpace(line[i..j][q]) {
      assert line[i..j][q] == line[i + q];
    }
  }

  lemma TimestampAssemble(line: string, a: Clock, b: Clock, j: nat, k: nat)
    requires ValidClock(a) && ValidClock(b) && 12 <= j && j + 3 <= k && k + 12 <= |line|
    requires FormatClock(a) == line[..12] && FormatClock(b) == line[k..k + 12]
    requires line[j..j + 3] == "-->"
    ensures line == TimestampText(a, line[12..j], line[j + 3..k], b, line[k + 12..])
  {
    SliceSix(line, 12, j, j + 3, k, k + 12);
  }

  lemma SliceSix(s: string, p1: nat, p2: nat, p3: nat, p4: nat, p5: nat)
    requires p1 <= p2 <= p3 <= p4 <= p5 <= |s|
    ensures s == s[..p1] + s[p1..p2] + s[p2..p3] + s[p3..p4] + s[p4..p5] + s[p5..]
  {
  }

  // ---------------------------------------------------------------------
  // Entries.

  /** An entry yields a segment exactly when it has at least three lines
      and its second line is a timestamp line. */
  lemma ParseEntryAccepts(entry: string)
    ensures var lines := Split(Strip(entry), '\n');
      ParseEntry(entry).Some? <==> |lines| >= 3 && IsTimestampLine(lines[1])
  {
    var lines := Split(Strip(entry), '\n');
    if |lines| >= 3 {
      if ParseTimestamps(lines[1]).Some? {
        TimestampComplete(lines[1]);
      } else if IsTimestampLine(lines[1]) {
        var a: Clock, w1: string, w2: string, b: Clock, tail: string :|
          ValidClock(a) && ValidClock(b) && AllSpace(w1) && AllSpace(w2)
          && lines[1] == TimestampText(a, w1, w2, b, tail);
        TimestampRoundTrip(a, w1, w2, b, tail);
      }
    }
  }

  // ---------------------------------------------------------------------
  // The file-level round trip: rendering well-formed cues as SRT text and
  // parsing that text gives back their times and their text lines joined
  // by spaces.

  /** One SRT cue as a writer produces it: a counter line, two clocks and at
      least one line of text. */
  datatype Cue = Cue(index: string, from: Clock, to: Clock, lines: seq<string>)

  predicate WellFormedCue(c: Cue) {
    && ValidClock(c.from) && ValidClock(c.to)
    && |c.index| > 0 && !IsSpace(c.index[0]) && '\n' !in c.index
    && |c.lines| > 0
    && (forall k :: 0 <= k < |c.lines| ==> |c.lines[k]| > 0 && '\n' !in c.lines[k])
    && !IsSpace(c.lines[|c.lines| - 1][|c.lines[|c.lines| - 1]| - 1])
  }

  function CueLines(c: Cue): seq<string>
    requires WellFormedCue(c)
  {
    [c.index, TimestampText(c.from, " ", " ", c.to, "")] + c.lines
  }

  function RenderCue(c: Cue): string
    requires WellFormedCue(c)
  {
    Join(CueLines(c), "\n")
  }

  function RenderCues(cues: seq<Cue>): (r: seq<string>)
    requires forall k :: 0 <= k < |cues| ==> WellFormedCue(cues[k])
    ensures |r| == |cues|
  {
    if |cues| == 0 then [] else [RenderCue(cues[0])] + RenderCues(cues[1..])
  }

  lemma {:induction false} RenderCuesAt(cues: seq<Cue>, k: nat)
    requires forall k :: 0 <= k < |cues| ==> WellFormedCue(cues[k])
    requires k < |cues|
    ensures RenderCues(cues)[k] == RenderCue(cues[k])
  {
    if k > 0 {
      RenderCuesAt(cues[1..], k - 1);
    }
  }

  function RenderSrt(cues: seq<Cue>): string
    requires forall k :: 0 <= k < |cues| ==> WellFormedCue(cues[k])
  {
    Join(RenderCues(cues), "\n\n")
  }

  function CueSegments(cues: seq<Cue>): (r: seq<Segment>)
    requires forall k :: 0 <= k < |cues| ==> WellFormedCue(cues[k])
    ensures |r| == |cues|
  {
    if |cues| == 0 then []
    else
      [Segment(Millis(cues[0].from), Millis(cues[0].to), Join(cues[0].lines, " "))]
      + CueSegments(cues[1..])
  }

  lemma {:induction false} JoinEnds(parts: seq<string>, sep: string)
    requires |parts| > 0
    requires forall k :: 0 <= k < |parts| ==> |parts[k]| > 0
    ensures var s := Join(parts, sep);
      |s| > 0 && s[0] == parts[0][0] && s[|s| - 1] == parts[|parts| - 1][|parts[|parts| - 1]| - 1]
  {
    if |parts| > 1 {
      JoinEnds(parts[1..], sep);
    }
  }

  lemma {:induction false} JoinLinesNoBlank(parts: seq<string>)
    requires |parts| > 0
    requires forall k :: 0 <= k < |parts| ==> |parts[k]| > 0 && '\n' !in parts[k]
    ensures NoBlankLine(Join(parts, "\n"))
  {
    if |parts| > 1 {
      JoinLinesNoBlank(parts[1..]);
      JoinEnds(parts[1..], "\n");
      var p := parts[0];
      var t := Join(parts[1..], "\n");
      var s := Join(parts, "\n");
      assert s == p + "\n" + t;
      forall i | 0 <= i < |s| - 1 ensures !(s[i] == '\n' && s[i + 1] == '\n') {
        if i < |p| {
          assert s[i] == p[i];
        } else if i == |p| {
          assert s[i + 1] == t[0];
        } else {
          assert s[i] == t[i - |p| - 1] && s[i + 1] == t[i - |p|];
        }
      }
    }
  }

  lemma {:induction false} SplitBlankNone(p: string)
    requires NoBlankLine(p)
    ensures SplitBlank(p) == [p]
  {
    if |p| > 0 {
      assert |p| >= 2 ==> !(p[0] == '\n' && p[1] == '\n');
      assert NoBlankLine(p[1..]) by {
        forall i | 0 <= i < |p[1..]| - 1 ensures !(p[1..][i] == '\n' && p[1..][i + 1] == '\n') {
          assert p[1..][i] == p[i + 1] && p[1..][i + 1] == p[i + 2];
        }
      }
      SplitBlankNone(p[1..]);
      assert [p[0]] + p[1..] == p;
    }
  }

  lemma {:induction false} SplitBlankPrefix(p: string, t: string)
    requires NoBlankLine(p)
    requires |p| == 0 || p[|p| - 1] != '\n'
    requires |t| == 0 || t[0] != '\n'
    ensures SplitBlank(p + "\n\n" + t) == [p] + SplitBlank(t)
  {
    if |p| == 0 {
      assert p + "\n\n" + t == "\n\n" + t;
      SplitBlankLead(t);
    } else {
      var u := p[1..] + "\n\n" + t;
      SplitBlankPrefix(p[1..], t);
      assert p + "\n\n" + t == [p[0]] + u;
      assert |p| >= 2 ==> u[0] == p[1];
      SplitBlankCons(p[0], u);
      assert [p[0]] + p[1..] == p;
    }
  }

  /** A blank line at the very start is one cut. */
  lemma SplitBlankLead(t: string)
    requires |t| == 0 || t[0] != '\n'
    ensures SplitBlank("\n\n" + t) == [""] + SplitBlank(t)
  {
    var s := "\n\n" + t;
    assert NewlineRunEnd(s, 2) == 2;
    assert NewlineRunEnd(s, 0) == 2;
    assert s[2..] == t;
  }

  /** A character that does not start a blank line joins the first piece. */
  lemma SplitBlankCons(c: char, rest: string)
    requires !(c == '\n' && |rest| > 0 && rest[0] == '\n')
    ensures SplitBlank([c] + rest) == [[c] + SplitBlank(rest)[0]] + SplitBlank(rest)[1..]
  {
    assert ([c] + rest)[1..] == rest;
  }

  /** A piece that survives `SplitBlank` intact between blank lines. */
  predicate Separable(p: string) {
    |p| > 0 && NoBlankLine(p) && p[0] != '\n' && p[|p| - 1] != '\n'
  }

  lemma {:induction false} SplitBlankJoin(parts: seq<string>)
    requires |parts| > 0
    requires forall k :: 0 <= k < |parts| ==> Separable(parts[k])
    ensures SplitBlank(Join(parts, "\n\n")) == parts
  {
    if |parts| == 1 {
      SplitBlankNone(parts[0]);
    } else {
      JoinEnds(parts[1..], "\n\n");
      SplitBlankJoin(parts[1..]);
      SplitBlankPrefix(parts[0], Join(parts[1..], "\n\n"));
    }
  }

  /** A rendered cue is one block with no blank line and no outer
      whitespace. */
  lemma CueShape(c: Cue)
    requires WellFormedCue(c)
    ensures Separable(RenderCue(c)) && Unpadded(RenderCue(c))
  {
    var lines := CueLines(c);
    CueLinesFacts(c);
    JoinEnds(lines, "\n");
    JoinLinesNoBlank(lines);
  }

  lemma CueLinesFacts(c: Cue)
    requires WellFormedCue(c)
    ensures var lines := CueLines(c);
      && |lines| >= 3
      && (forall k :: 0 <= k < |lines| ==> |lines[k]| > 0 && '\n' !in lines[k])
      && lines[0][0] == c.index[0]
      && lines[|lines| - 1] == c.lines[|c.lines| - 1]
      && lines[1] == TimestampText(c.from, " ", " ", c.to, "")
      && lines[2..] == c.lines
  {
    var lines := CueLines(c);
    var ts := TimestampText(c.from, " ", " ", c.to, "");
    assert '\n' !in ts by {
      assert ts == FormatClock(c.from) + " " + "-->" + " " + FormatClock(c.to) + "";
    }
    forall k | 0 <= k < |lines| ensures |lines[k]| > 0 && '\n' !in lines[k] {
      if k >= 2 {
        assert lines[k] == c.lines[k - 2];
      }
    }
  }

  /** A rendered cue parses back to its times and its lines joined by
      spaces. */
  lemma CueParse(c: Cue)
    requires WellFormedCue(c)
    ensures ParseEntry(RenderCue(c)) == Some(Segment(Millis(c.from), Millis(c.to), Join(c.lines, " ")))
  {
    var lines := CueLines(c);
    CueLinesFacts(c);
    CueShape(c);
    StripClean(RenderCue(c));
    SplitJoin(lines, '\n');
    assert "\n" == ['\n'];
    TimestampRoundTrip(c.from, " ", " ", c.to, "");
  }

  lemma {:induction false} ParseRenderedEntries(cues: seq<Cue>)
    requires forall k :: 0 <= k < |cues| ==> WellFormedCue(cues[k])
    ensures FilterMap(ParseEntry, RenderCues(cues)) == CueSegments(cues)
  {
    if |cues| > 0 {
      CueParse(cues[0]);
      ParseRenderedEntries(cues[1..]);
      assert RenderCues(cues)[1..] == RenderCues(cues[1..]);
    }
  }

  lemma RenderedEntriesFacts(cues: seq<Cue>)
    requires forall k :: 0 <= k < |cues| ==> WellFormedCue(cues[k])
    ensures EntriesShape(RenderCues(cues))
  {
    var entries := RenderCues(cues);
    forall k | 0 <= k < |entries| ensures Separable(entries[k]) && Unpadded(entries[k]) {
      CueShape(cues[k]);
      RenderCuesAt(cues, k);
    }
  }

  /** Every entry survives the blank-line split and the outer strip. */
  predicate EntriesShape(entries: seq<string>) {
    forall k :: 0 <= k < |entries| ==> Separable(entries[k]) && Unpadded(entries[k])
  }

  predicate Unpadded(p: string) {
    |p| > 0 && !IsSpace(p[0]) && !IsSpace(p[|p| - 1])
  }

  lemma ParseSrtEmpty()
    ensures ParseSrt("") == []
  {
    assert Strip("") == "";
    assert SplitBlank("") == [""];
    assert Split("", '\n') == [""];
    assert ParseEntry("") == None;
    assert FilterMap(ParseEntry, [""]) == [];
  }

  lemma SplitRendered(entries: seq<string>)
    requires |entries| > 0
    requires EntriesShape(entries)
    ensures SplitBlank(Strip(Join(entries, "\n\n"))) == entries
  {
    JoinEnds(entries, "\n\n");
    StripClean(Join(entries, "\n\n"));
    SplitBlankJoin(entries);
  }

  lemma ParseSrtNonEmpty(cues: seq<Cue>)
    requires |cues| > 0
    requires forall k :: 0 <= k < |cues| ==> WellFormedCue(cues[k])
    ensures ParseSrt(RenderSrt(cues)) == CueSegments(cues)
  {
    RenderedEntriesFacts(cues);
    SplitRendered(RenderCues(cues));
    ParseRenderedEntries(cues);
  }

  /** Parsing rendered SRT text recovers every cue's times and text, in
      file order. */
  lemma ParseSrtRoundTrip(cues: seq<Cue>)
    requires forall k :: 0 <= k < |cues| ==> WellFormedCue(cues[k])
    ensures ParseSrt(RenderSrt(cues)) == CueSegments(cues)
  {
    if |cues| == 0 {
      assert RenderCues(cues) == [];
      ParseSrtEmpty();
    } else {
      ParseSrtNonEmpty(cues);
    }
  }
}
