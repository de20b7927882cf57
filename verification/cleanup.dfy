/** `cleanup_utterance` and `cleanup_markdown` in
    scripts/cleanup_filler_words.py. */
module Cleanup {
  import opened Options
  import opened Text
  import opened WordRuns
  import opened Filler
  import opened Rewrite
  import opened Spacing
  import opened Capitalise
  import opened Removal

  function CleanupUtterance(text: string): string {
    CapitaliseSentences(FixSpacing(RemoveFillers(text)))
  }

  /** Capitals are not whitespace, so capitalising moves no space. */
  lemma UpcaseSpaces(s: string, r: string)
    requires UpcaseOf(s, r)
    ensures forall i :: 0 <= i < |s| ==> IsSpace(r[i]) == IsSpace(s[i])
  {
  }

  /** No filler word survives cleaning: the standalone pattern finds
      nothing in the result, and running it again changes nothing. */
  lemma CleanupNoFillers(text: string)
    ensures NoFillerWord(CleanupUtterance(text))
    ensures forall j: nat, k: nat :: !FillerMatch(CleanupUtterance(text), j, k)
    ensures Apply(FillerStandalone, CleanupUtterance(text)) == CleanupUtterance(text)
  {
    var t := RemoveFillers(text);
    var f := FixSpacing(t);
    var r := CleanupUtterance(text);
    StandaloneNoFillers(RemovePhrases(text));
    FixSpacingWords(t);
    CapitaliseUpcase(f);
    NoFillerWordIgnoresCase(f, r);
    NoFillerWordNoMatch(r);
    StandaloneIdle(r);
  }

  /** The words of the result are, up to case, the words left by the
      phrase passes that are not fillers, in order. */
  lemma CleanupWords(text: string)
    ensures var ws := NonFillers(Words(RemovePhrases(text)));
      var rs := Words(CleanupUtterance(text));
      |rs| == |ws| && forall k :: 0 <= k < |rs| ==> LowerAll(rs[k]) == LowerAll(ws[k])
  {
    var t := RemoveFillers(text);
    var f := FixSpacing(t);
    StandaloneNoFillers(RemovePhrases(text));
    FixSpacingWords(t);
    CapitaliseUpcase(f);
    LowerWords(f, CleanupUtterance(text));
  }

  /** The result has no whitespace at either end and never two whitespace
      characters in a row. */
  lemma CleanupSpacing(text: string)
    ensures var r := CleanupUtterance(text);
      NoDoubleSpace(r) && (|r| == 0 || (!IsSpace(r[0]) && !IsSpace(r[|r| - 1])))
  {
    var f := FixSpacing(RemoveFillers(text));
    FixSpacingSpaces(RemoveFillers(text));
    CapitaliseUpcase(f);
    UpcaseSpacing(f, CapitaliseSentences(f));
  }

  lemma UpcaseSpacing(s: string, r: string)
    requires UpcaseOf(s, r)
    requires NoDoubleSpace(s) && (|s| == 0 || (!IsSpace(s[0]) && !IsSpace(s[|s| - 1])))
    ensures NoDoubleSpace(r) && (|r| == 0 || (!IsSpace(r[0]) && !IsSpace(r[|r| - 1])))
  {
    UpcaseSpaces(s, r);
  }

  /** Text without line boundaries. */
  predicate NoBreaks(s: string) {
    forall i :: 0 <= i < |s| ==> !IsLineBreak(s[i])
  }

  lemma ReplacementNoBreaks(rule: Rule, s: string, p: nat, e: nat)
    requires p < e <= |s| && NoBreaks(s)
    ensures NoBreaks(Replacement(rule, s, p, e))
  {
    if rule.CapFirst? || rule.CapAfterStop? {
      var r := Replacement(rule, s, p, e);
      assert forall i :: 0 <= i < |r| - 1 ==> r[i] == s[p + i];
    }
  }

  lemma HeadNoBreaks(rule: Rule, s: string, p: nat)
    requires p < |s| && NoBreaks(s)
    ensures NoBreaks(Head(rule, s, p))
  {
    if MatchEnd(rule, s, p).Some? {
      ReplacementNoBreaks(rule, s, p, Next(rule, s, p));
    }
  }

  lemma NoBreaksAppend(a: string, b: string)
    requires NoBreaks(a) && NoBreaks(b)
    ensures NoBreaks(a + b)
  {
    assert forall i :: |a| <= i < |a + b| ==> (a + b)[i] == b[i - |a|];
  }

  /** No pass creates a line boundary: replacements are spaces, dashes,
      capitals and characters of the match. */
  lemma {:induction false} SubNoBreaks(rule: Rule, s: string, p: nat)
    requires p <= |s| && NoBreaks(s)
    ensures NoBreaks(Sub(rule, s, p))
    decreases |s| - p
  {
    if p < |s| {
      SubStep(rule, s, p);
      SubNoBreaks(rule, s, Next(rule, s, p));
      HeadNoBreaks(rule, s, p);
      NoBreaksAppend(Head(rule, s, p), Sub(rule, s, Next(rule, s, p)));
    }
  }

  lemma StripNoBreaks(s: string)
    requires NoBreaks(s)
    ensures NoBreaks(Strip(s))
  {
    var i, j := StripBounds(s);
    NoBreaksSlice(s, i, j);
  }

  lemma NoBreaksSlice(s: string, i: nat, j: nat)
    requires i <= j <= |s| && NoBreaks(s)
    ensures NoBreaks(s[i..j])
  {
    assert forall k :: 0 <= k < j - i ==> s[i..j][k] == s[i + k];
  }

  /** Cleaning a text without line boundaries gives one without. */
  lemma CleanupNoBreaks(text: string)
    requires NoBreaks(text)
    ensures NoBreaks(CleanupUtterance(text))
  {
    var t1 := Apply(ParensOnly, text);
    var t2 := Apply(FillerComma, t1);
    var t3 := Apply(FillerSpaced, t2);
    var t4 := Apply(FillerStart, t3);
    var t5 := Apply(FillerEnd, t4);
    var t6 := Apply(FillerStandalone, t5);
    SubNoBreaks(ParensOnly, text, 0);
    SubNoBreaks(FillerComma, t1, 0);
    SubNoBreaks(FillerSpaced, t2, 0);
    SubNoBreaks(FillerStart, t3, 0);
    SubNoBreaks(FillerEnd, t4, 0);
    SubNoBreaks(FillerStandalone, t5, 0);
    SpacingNoBreaks(t6);
    var f := FixSpacing(t6);
    var c1 := Apply(CapFirst, f);
    var c2 := Apply(CapAfterStop, c1);
    SubNoBreaks(CapFirst, f, 0);
    SubNoBreaks(CapAfterStop, c1, 0);
    SubNoBreaks(CapitalI, c2, 0);
  }

  lemma SpacingNoBreaks(t: string)
    requires NoBreaks(t)
    ensures NoBreaks(FixSpacing(t))
  {
    var t1 := Apply(CollapseBlanks, t);
    var t2 := Apply(SpaceBeforePunct, t1);
    var t3 := Apply(SpaceAfterPunct, t2);
    var t4 := Apply(Dash, t3);
    var t5 := Apply(SpacedHyphen, t4);
    SubNoBreaks(CollapseBlanks, t, 0);
    SubNoBreaks(SpaceBeforePunct, t1, 0);
    SubNoBreaks(SpaceAfterPunct, t2, 0);
    SubNoBreaks(Dash, t3, 0);
    SubNoBreaks(SpacedHyphen, t4, 0);
    SubNoBreaks(CollapseSpaces, t5, 0);
    StripNoBreaks(Apply(CollapseSpaces, t5));
  }

  /** No pass finds anything but whitespace in a blank text, and none turns
      it into anything but whitespace. */
  lemma {:induction false} SubBlank(rule: Rule, s: string, p: nat)
    requires p <= |s| && AllSpace(s)
    ensures AllSpace(Sub(rule, s, p))
    decreases |s| - p
  {
    if p < |s| {
      SubStep(rule, s, p);
      SubBlank(rule, s, Next(rule, s, p));
      var h := Head(rule, s, p);
      var t := Sub(rule, s, Next(rule, s, p));
      assert AllSpace(h) by {
        if MatchEnd(rule, s, p).Some? {
          BlankMatch(rule, s, p);
        }
      }
      assert forall i :: |h| <= i < |h + t| ==> (h + t)[i] == t[i - |h|];
    }
  }

  /** In a blank text only the two space-collapsing rules match. */
  lemma BlankMatch(rule: Rule, s: string, p: nat)
    requires p < |s| && AllSpace(s) && MatchEnd(rule, s, p).Some?
    ensures rule.CollapseBlanks? || rule.CollapseSpaces?
  {
    match rule {
      case ParensOnly =>
      case FillerComma =>
      case FillerSpaced =>
      case FillerStart =>
      case FillerEnd =>
      case FillerStandalone =>
      case SpaceBeforePunct =>
      case SpaceAfterPunct =>
      case Dash =>
      case SpacedHyphen =>
      case CapFirst =>
      case CapAfterStop =>
      case CapitalI =>
      case CollapseBlanks =>
      case CollapseSpaces =>
    }
  }

  /** An utterance that is empty or only whitespace cleans to the empty
      string. */
  lemma CleanupBlank(text: string)
    requires AllSpace(text)
    ensures CleanupUtterance(text) == ""
  {
    var t1 := Apply(ParensOnly, text);
    var t2 := Apply(FillerComma, t1);
    var t3 := Apply(FillerSpaced, t2);
    var t4 := Apply(FillerStart, t3);
    var t5 := Apply(FillerEnd, t4);
    var t6 := Apply(FillerStandalone, t5);
    SubBlank(ParensOnly, text, 0);
    SubBlank(FillerComma, t1, 0);
    SubBlank(FillerSpaced, t2, 0);
    SubBlank(FillerStart, t3, 0);
    SubBlank(FillerEnd, t4, 0);
    SubBlank(FillerStandalone, t5, 0);
    SpacingBlank(t6);
  }

  /** An utterance made only of filler words and whitespace cleans to the
      empty string: every filler pattern leaves only filler words and
      whitespace behind, the standalone pass takes the last of the words,
      and the spacing pass strips what is left. */
  lemma CleanupOnlyFillers(text: string)
    requires Plain(text) && AllFillers(Words(text))
    ensures CleanupUtterance(text) == ""
  {
    RemoveOnlyFillers(text);
    SpacingBlank(RemoveFillers(text));
  }

  lemma SpacingBlank(t: string)
    requires AllSpace(t)
    ensures FixSpacing(t) == ""
  {
    var t1 := Apply(CollapseBlanks, t);
    var t2 := Apply(SpaceBeforePunct, t1);
    var t3 := Apply(SpaceAfterPunct, t2);
    var t4 := Apply(Dash, t3);
    var t5 := Apply(SpacedHyphen, t4);
    SubBlank(CollapseBlanks, t, 0);
    SubBlank(SpaceBeforePunct, t1, 0);
    SubBlank(SpaceAfterPunct, t2, 0);
    SubBlank(Dash, t3, 0);
    SubBlank(SpacedHyphen, t4, 0);
    SubBlank(CollapseSpaces, t5, 0);
  }
}
