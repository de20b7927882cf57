/** `cleanup_markdown` in scripts/cleanup_filler_words.py: every line of
    the form `**Name:** utterance` has its utterance cleaned; every other
    line is kept. */
module Markdown {
  import opened Options
  import opened Text
  import opened WordRuns
  import opened Filler
  import opened Cleanup

  datatype SpeakerLine = SpeakerLine(speaker: string, utterance: string)

  /** The three characters `:**` start at `k`. */
  predicate ColonStarsAt(line: string, k: nat) {
    k + 3 <= |line| && line[k] == ':' && line[k + 1] == '*' && line[k + 2] == '*'
  }

  /** The lazy `[^\n]*?:\*\*` from `i`: the end of the first `:**` that no
      line feed precedes. */
  function LabelEnd(line: string, i: nat): (r: Option<nat>)
    requires i <= |line|
    ensures r.Some? ==> i + 3 <= r.value <= |line| && ColonStarsAt(line, r.value - 3)
    ensures r.Some? ==> forall k :: i <= k < r.value - 3 ==> !ColonStarsAt(line, k) && line[k] != '\n'
    decreases |line| - i
  {
    if ColonStarsAt(line, i) then Some(i + 3)
    else if i == |line| || line[i] == '\n' then None
    else LabelEnd(line, i + 1)
  }

  /** Without line feeds, a failed search means there is no `:**`. */
  lemma {:induction false} LabelEndNone(line: string, i: nat)
    requires i <= |line| && NoLineFeed(line) && LabelEnd(line, i).None?
    ensures forall k :: i <= k < |line| ==> !ColonStarsAt(line, k)
    decreases |line| - i
  {
    if i < |line| {
      LabelEndNone(line, i + 1);
    }
  }

  predicate NoLineFeed(t: string) {
    forall i :: 0 <= i < |t| ==> t[i] != '\n'
  }

  /** `(.*)$` on what `\s*` left: `.` stops at a line feed and `$` accepts
      the end of the text or a line feed that ends it. */
  function BodyOf(t: string): (r: Option<string>)
    ensures r.Some? ==> NoLineFeed(r.value) && (r.value == t || r.value + "\n" == t)
  {
    if NoLineFeed(t) then Some(t)
    else if t[|t| - 1] == '\n' && NoLineFeed(t[..|t| - 1]) then Some(t[..|t| - 1])
    else None
  }

  /** `RE_SPEAKER.match(line)`, trying tag ends from `i` on: when the rest
      of the line cannot be matched, the lazy tag grows past the colon. */
  function ParseFrom(line: string, i: nat): Option<SpeakerLine>
    requires 2 <= i <= |line|
    decreases |line| - i
  {
    match LabelEnd(line, i)
    case None => None
    case Some(e) =>
      match BodyOf(LStrip(line[e..]))
      case Some(u) => Some(SpeakerLine(line[..e], u))
      case None => ParseFrom(line, e - 2)
  }

  function ParseSpeaker(line: string): Option<SpeakerLine> {
    if |line| >= 2 && line[0] == '*' && line[1] == '*' then ParseFrom(line, 2) else None
  }

  /** `**Name:**` where the name holds no `:**` and no line feed. */
  predicate IsSpeakerTag(tag: string) {
    && |tag| >= 5 && tag[0] == '*' && tag[1] == '*'
    && ColonStarsAt(tag, |tag| - 3)
    && forall k :: 2 <= k < |tag| - 3 ==> !ColonStarsAt(tag, k) && tag[k] != '\n'
  }

  lemma {:induction false} LabelEndAt(line: string, i: nat, e: nat)
    requires i + 3 <= e <= |line| && ColonStarsAt(line, e - 3)
    requires forall k :: i <= k < e - 3 ==> !ColonStarsAt(line, k) && line[k] != '\n'
    ensures LabelEnd(line, i) == Some(e)
    decreases e - i
  {
    if i < e - 3 {
      LabelEndAt(line, i + 1, e);
    }
  }

  lemma LStripLead(u: string)
    requires |u| == 0 || !IsSpace(u[0])
    ensures LStrip(" " + u) == u
  {
    assert (" " + u)[1..] == u;
  }

  /** Where the first tag end leaves a rest the pattern accepts, that is
      the match. */
  lemma ParseFound(line: string, e: nat, u: string)
    requires |line| >= 2 && line[0] == '*' && line[1] == '*'
    requires LabelEnd(line, 2) == Some(e) && BodyOf(LStrip(line[e..])) == Some(u)
    ensures ParseSpeaker(line) == Some(SpeakerLine(line[..e], u))
  {
  }

  /** A speaker tag followed by a space and an utterance parses back into
      them. */
  lemma SpeakerRoundTrip(tag: string, u: string)
    requires IsSpeakerTag(tag) && NoLineFeed(u) && (|u| == 0 || !IsSpace(u[0]))
    ensures ParseSpeaker(tag + " " + u) == Some(SpeakerLine(tag, u))
  {
    var line := tag + " " + u;
    var e := |tag|;
    forall k | 2 <= k < e - 3 ensures !ColonStarsAt(line, k) && line[k] != '\n' {
      assert line[k] == tag[k] && line[k + 1] == tag[k + 1] && line[k + 2] == tag[k + 2];
    }
    assert line[e - 3] == tag[e - 3] && line[e - 2] == tag[e - 2] && line[e - 1] == tag[e - 1];
    LabelEndAt(line, 2, e);
    assert line[e..] == " " + u;
    LStripLead(u);
    assert line[..e] == tag;
    ParseFound(line, e, u);
  }

  /** A speaker tag alone parses into the tag and an empty utterance. */
  lemma SpeakerAlone(tag: string)
    requires IsSpeakerTag(tag)
    ensures ParseSpeaker(tag) == Some(SpeakerLine(tag, ""))
  {
    LabelEndAt(tag, 2, |tag|);
    assert tag[|tag|..] == "";
    assert LStrip("") == "";
    assert tag[..|tag|] == tag;
    ParseFound(tag, |tag|, "");
  }

  /** On a line without line feeds the pattern matches exactly when the
      line starts with `**` and holds a `:**` after it. */
  lemma SpeakerMatches(line: string)
    requires NoLineFeed(line)
    ensures ParseSpeaker(line).Some? <==>
      |line| >= 2 && line[0] == '*' && line[1] == '*' && exists k :: 2 <= k < |line| && ColonStarsAt(line, k)
  {
    if |line| >= 2 && line[0] == '*' && line[1] == '*' {
      match LabelEnd(line, 2) {
        case None =>
          LabelEndNone(line, 2);
        case Some(e) =>
          LStripNoLineFeed(line[e..]);
          ParseFound(line, e, LStrip(line[e..]));
      }
    }
  }

  lemma LStripNoLineFeed(t: string)
    requires NoLineFeed(t)
    ensures NoLineFeed(LStrip(t)) && BodyOf(LStrip(t)) == Some(LStrip(t))
  {
    var r := LStrip(t);
    assert forall i :: 0 <= i < |r| ==> r[i] == t[|t| - |r| + i];
  }

  /** The speaker tag runs to the first `:**`, and the utterance is the rest
      of the line without leading whitespace. */
  lemma SpeakerParts(line: string)
    requires NoLineFeed(line) && ParseSpeaker(line).Some?
    ensures var sp := ParseSpeaker(line).value;
      IsSpeakerTag(sp.speaker) && line == sp.speaker + line[|sp.speaker|..] && sp.utterance == LStrip(line[|sp.speaker|..])
  {
    var e := LabelEnd(line, 2).value;
    LStripNoLineFeed(line[e..]);
    ParseFound(line, e, LStrip(line[e..]));
    FirstTag(line, e);
  }

  /** The text up to the first tag end is a speaker tag. */
  lemma FirstTag(line: string, e: nat)
    requires |line| >= 2 && line[0] == '*' && line[1] == '*' && LabelEnd(line, 2) == Some(e)
    ensures IsSpeakerTag(line[..e]) && line == line[..e] + line[e..]
  {
    var tag := line[..e];
    assert forall k :: 0 <= k < e ==> tag[k] == line[k];
  }

  /** `cleanup_markdown`'s treatment of one line. */
  function CleanLine(line: string): string {
    match ParseSpeaker(line)
    case None => line
    case Some(sp) =>
      var cleaned := CleanupUtterance(sp.utterance);
      if |cleaned| > 0 then sp.speaker + " " + cleaned else sp.speaker
  }

  /** A cleaned speaker line is again a speaker line, with the same tag
      and the cleaned utterance; a line that is not one is kept as it is. */
  lemma CleanLineRoundTrip(line: string)
    requires NoBreaks(line)
    ensures ParseSpeaker(line).None? ==> CleanLine(line) == line
    ensures ParseSpeaker(line).Some? ==>
      var sp := ParseSpeaker(line).value;
      ParseSpeaker(CleanLine(line)) == Some(SpeakerLine(sp.speaker, CleanupUtterance(sp.utterance)))
  {
    if ParseSpeaker(line).Some? {
      var sp := ParseSpeaker(line).value;
      UtteranceNoBreaks(line);
      var c := CleanupUtterance(sp.utterance);
      CleanupNoBreaks(sp.utterance);
      CleanupSpacing(sp.utterance);
      TagRoundTrip(sp.speaker, c);
    }
  }

  lemma UtteranceNoBreaks(line: string)
    requires NoBreaks(line) && ParseSpeaker(line).Some?
    ensures IsSpeakerTag(ParseSpeaker(line).value.speaker) && NoBreaks(ParseSpeaker(line).value.utterance)
  {
    var sp := ParseSpeaker(line).value;
    BreaksAndFeeds(line);
    SpeakerParts(line);
    var rest := line[|sp.speaker|..];
    NoBreaksSlice(line, |sp.speaker|);
    NoBreaksSlice(rest, |rest| - |sp.utterance|);
  }

  lemma BreaksAndFeeds(s: string)
    requires NoBreaks(s)
    ensures NoLineFeed(s)
  {
  }

  lemma NoBreaksSlice(s: string, i: nat)
    requires i <= |s| && NoBreaks(s)
    ensures NoBreaks(s[i..])
  {
    assert forall k :: 0 <= k < |s| - i ==> s[i..][k] == s[i + k];
  }

  lemma TagRoundTrip(tag: string, c: string)
    requires IsSpeakerTag(tag) && NoBreaks(c) && (|c| == 0 || !IsSpace(c[0]))
    ensures ParseSpeaker(if |c| > 0 then tag + " " + c else tag) == Some(SpeakerLine(tag, c))
  {
    if |c| > 0 {
      SpeakerRoundTrip(tag, c);
    } else {
      SpeakerAlone(tag);
    }
  }

  /** A cleaned speaker line is the tag alone exactly when the utterance
      cleans to nothing, and otherwise the tag, a space and the cleaned
      utterance, which holds no filler word. */
  lemma CleanLineNoFillers(line: string)
    requires ParseSpeaker(line).Some?
    ensures var sp := ParseSpeaker(line).value;
      CleanLine(line) == sp.speaker || CleanLine(line) == sp.speaker + " " + CleanupUtterance(sp.utterance)
    ensures var sp := ParseSpeaker(line).value;
      CleanLine(line) == sp.speaker <==> CleanupUtterance(sp.utterance) == ""
    ensures NoFillerWord(CleanupUtterance(ParseSpeaker(line).value.utterance))
  {
    var sp := ParseSpeaker(line).value;
    var c := CleanupUtterance(sp.utterance);
    if |c| > 0 {
      assert |CleanLine(line)| == |sp.speaker| + 1 + |c|;
    }
    CleanupNoFillers(sp.utterance);
  }

  function CleanLines(lines: seq<string>): (r: seq<string>)
    ensures |r| == |lines|
    ensures forall k :: 0 <= k < |lines| ==> r[k] == CleanLine(lines[k])
  {
    if |lines| == 0 then [] else [CleanLine(lines[0])] + CleanLines(lines[1..])
  }

  function CleanupMarkdown(md: string): string {
    RStrip(Join(CleanLines(SplitLines(md)), "\n")) + "\n"
  }

  /** The output ends with exactly one line feed, after the last character
      that is not whitespace. */
  lemma MarkdownEnding(md: string)
    ensures var r := CleanupMarkdown(md);
      |r| >= 1 && r[|r| - 1] == '\n' && (|r| == 1 || !IsSpace(r[|r| - 2]))
  {
    var body := RStrip(Join(CleanLines(SplitLines(md)), "\n"));
    assert CleanupMarkdown(md) == body + "\n";
    if |body| > 0 {
      assert (body + "\n")[|body| - 1] == body[|body| - 1];
    }
  }

  /** Markdown without speaker lines comes back unchanged but for trailing
      whitespace and a final line feed. */
  lemma MarkdownPlain(lines: seq<string>)
    requires |lines| > 0 && |lines[|lines| - 1]| > 0
    requires forall k :: 0 <= k < |lines| ==> NoBreaks(lines[k]) && ParseSpeaker(lines[k]).None?
    ensures CleanupMarkdown(Join(lines, "\n")) == RStrip(Join(lines, "\n")) + "\n"
  {
    SplitLinesJoin(lines);
    assert CleanLines(lines) == lines;
  }
}
