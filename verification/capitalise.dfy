/** `_capitalise_sentence_starts` in scripts/cleanup_filler_words.py: the
    first letter of the text, every letter that follows a full stop, and
    every lone `i` become capitals. Nothing else changes. */
module Capitalise {
  import opened Options
  import opened Text
  import opened WordRuns
  import opened Rewrite

  function CapitaliseSentences(text: string): string {
    Apply(CapitalI, Apply(CapAfterStop, Apply(CapFirst, text)))
  }

  /** `r` is `s` with some lower-case letters turned into capitals. */
  predicate UpcaseOf(s: string, r: string) {
    |r| == |s| && forall i :: 0 <= i < |s| ==> r[i] == s[i] || (IsLower(s[i]) && r[i] == ToUpper(s[i]))
  }

  lemma UpcaseCompose(a: string, b: string, c: string)
    requires UpcaseOf(a, b) && UpcaseOf(b, c)
    ensures UpcaseOf(a, c)
  {
  }

  lemma UpcaseAppend(a: string, a': string, b: string, b': string)
    requires UpcaseOf(a, a') && UpcaseOf(b, b')
    ensures UpcaseOf(a + b, a' + b')
  {
    forall i | |a| <= i < |a + b| ensures (a' + b')[i] == b'[i - |a|] && (a + b)[i] == b[i - |a|] {
    }
  }

  /** Turning letters into capitals never changes the text up to case. */
  lemma UpcaseLower(s: string, r: string)
    requires UpcaseOf(s, r)
    ensures LowerAll(s) == LowerAll(r)
  {
  }

  predicate CapRule(rule: Rule) {
    rule.CapFirst? || rule.CapAfterStop? || rule.CapitalI?
  }

  lemma CapReplacementUpcase(rule: Rule, s: string, p: nat, e: nat)
    requires CapRule(rule) && p < |s| && MatchEnd(rule, s, p) == Some(e)
    ensures UpcaseOf(s[p..e], Replacement(rule, s, p, e))
  {
    if !rule.CapitalI? {
      assert s[p..e] == s[p..e - 1] + [s[e - 1]];
    }
  }

  /** Each capitalising pass only turns letters into capitals. */
  lemma {:induction false} SubUpcase(rule: Rule, s: string, p: nat)
    requires CapRule(rule) && p <= |s|
    ensures UpcaseOf(s[p..], Sub(rule, s, p))
    decreases |s| - p
  {
    if p < |s| {
      match MatchEnd(rule, s, p) {
        case Some(e) =>
          SubUpcase(rule, s, e);
          CapReplacementUpcase(rule, s, p, e);
          UpcaseAppend(s[p..e], Replacement(rule, s, p, e), s[e..], Sub(rule, s, e));
          SliceSplit(s, p, e);
        case None =>
          SubUpcase(rule, s, p + 1);
          UpcaseAppend([s[p]], [s[p]], s[p + 1..], Sub(rule, s, p + 1));
          SliceCons(s, p);
      }
    }
  }

  /** Capitalisation keeps the text's length and changes only the case of
      lower-case letters, so the text is the same up to case. */
  lemma CapitaliseUpcase(text: string)
    ensures UpcaseOf(text, CapitaliseSentences(text))
    ensures LowerAll(CapitaliseSentences(text)) == LowerAll(text)
  {
    var t1 := Apply(CapFirst, text);
    var t2 := Apply(CapAfterStop, t1);
    SubUpcase(CapFirst, text, 0);
    SubUpcase(CapAfterStop, t1, 0);
    SubUpcase(CapitalI, t2, 0);
    assert text[0..] == text && t1[0..] == t1 && t2[0..] == t2;
    UpcaseCompose(text, t1, t2);
    UpcaseCompose(text, t2, CapitaliseSentences(text));
    UpcaseLower(text, CapitaliseSentences(text));
  }

  /** `^` anchors the first pass at the start of the text: the first
      character that is not a space, quote or opening bracket is
      capitalised if it is a lower-case letter, and nothing else moves. */
  lemma CapFirstExact(s: string)
    ensures var j := RunEnd(s, 0, IsOpener);
      Apply(CapFirst, s) == if j < |s| && IsLower(s[j]) then s[..j] + [ToUpper(s[j])] + s[j + 1..] else s
  {
    if |s| > 0 {
      var j := RunEnd(s, 0, IsOpener);
      match MatchEnd(CapFirst, s, 0) {
        case Some(e) =>
          SubNoMatch(CapFirst, s, e);
          assert s[0..e - 1] == s[..j];
        case None =>
          SubNoMatch(CapFirst, s, 1);
          SliceCons(s, 0);
      }
    }
  }

  /** `\bi\b`: an `i` that is a word on its own. */
  predicate LoneI(s: string, i: nat)
    requires i < |s|
  {
    s[i] == 'i' && Boundary(s, i) && Boundary(s, i + 1)
  }

  lemma {:induction false} SubCapitalI(s: string, p: nat)
    requires p <= |s|
    ensures |Sub(CapitalI, s, p)| == |s| - p
    ensures forall i :: p <= i < |s| ==> Sub(CapitalI, s, p)[i - p] == if LoneI(s, i) then 'I' else s[i]
    decreases |s| - p
  {
    if p < |s| {
      SubCapitalI(s, p + 1);
    }
  }

  /** The last pass turns every lone `i`, and only those, into `I`. */
  lemma CapitalIExact(s: string)
    ensures |Apply(CapitalI, s)| == |s|
    ensures forall i :: 0 <= i < |s| ==> Apply(CapitalI, s)[i] == if LoneI(s, i) then 'I' else s[i]
  {
    SubCapitalI(s, 0);
  }

  /** The letter at `i` ends a match of the full-stop pattern: a full stop,
      then closing quotes and brackets, then opening ones, then `s[i]`. */
  ghost predicate StopBefore(s: string, i: nat)
    requires i < |s|
  {
    exists q :: 0 <= q < i && IsStop(s[q]) && CapAfterStopEnd(s, q) == Some(i + 1)
  }

  /** A match of the full-stop pattern holds no other full stop. */
  lemma StopMatchInterior(s: string, q: nat, e: nat)
    requires q < |s| && CapAfterStopEnd(s, q) == Some(e)
    ensures IsLower(s[e - 1])
    ensures forall k :: q < k < e ==> !IsStop(s[k])
  {
  }

  /** A capitalising replacement is as long as its match. */
  lemma HeadLength(rule: Rule, s: string, p: nat)
    requires CapRule(rule) && p < |s|
    ensures |Head(rule, s, p)| == Next(rule, s, p) - p
  {
  }

  lemma {:induction false} SubLength(rule: Rule, s: string, p: nat)
    requires CapRule(rule) && p <= |s|
    ensures |Sub(rule, s, p)| == |s| - p
    decreases |s| - p
  {
    if p < |s| {
      SubStep(rule, s, p);
      HeadLength(rule, s, p);
      SubLength(rule, s, Next(rule, s, p));
    }
  }

  /** What the full-stop pass writes at a position is what the step of
      its scan that covers the position wrote there. */
  lemma ReadReached(s: string, q: nat, i: nat, c: char)
    requires q <= i < |s| && i < Next(CapAfterStop, s, q) && Reached(CapAfterStop, s, 0, q)
    requires Head(CapAfterStop, s, q)[i - q] == c
    ensures |Apply(CapAfterStop, s)| == |s| && Apply(CapAfterStop, s)[i] == c
  {
    var pre := ReachedSuffix(CapAfterStop, s, 0, q);
    SubStep(CapAfterStop, s, q);
    SubLength(CapAfterStop, s, 0);
    SubLength(CapAfterStop, s, q);
    HeadLength(CapAfterStop, s, q);
    IndexMid(pre, Head(CapAfterStop, s, q), Sub(CapAfterStop, s, Next(CapAfterStop, s, q)), i);
  }

  lemma IndexMid(pre: string, h: string, rest: string, i: nat)
    requires |pre| <= i < |pre| + |h|
    ensures (pre + (h + rest))[i] == h[i - |pre|]
  {
  }

  /** Each character of the full-stop pass's output was written by some
      step of the scan. */
  lemma ReadAt(s: string, i: nat)
    requires i < |s|
    ensures |Apply(CapAfterStop, s)| == |s|
    ensures exists q: nat :: q <= i < Next(CapAfterStop, s, q) && Apply(CapAfterStop, s)[i] == Head(CapAfterStop, s, q)[i - q]
  {
    var q := ReadFrom(CapAfterStop, s, 0, i);
    ReadReached(s, q, i, Head(CapAfterStop, s, q)[i - q]);
  }

  /** The scan stops at every full stop. */
  lemma {:induction false} StopReached(s: string, p: nat, q: nat)
    requires p <= q < |s| && IsStop(s[q])
    ensures Reached(CapAfterStop, s, p, q)
    decreases q - p
  {
    if p < q {
      var n := Next(CapAfterStop, s, p);
      if MatchEnd(CapAfterStop, s, p).Some? {
        StopMatchInterior(s, p, n);
      }
      StopReached(s, n, q);
    }
  }

  /** The full-stop pass capitalises exactly the letters that follow a
      full stop across closing and then opening quotes and brackets. */
  lemma CapAfterStopExact(s: string, i: nat)
    requires i < |s|
    ensures |Apply(CapAfterStop, s)| == |s|
    ensures Apply(CapAfterStop, s)[i] == if StopBefore(s, i) then ToUpper(s[i]) else s[i]
  {
    SubLength(CapAfterStop, s, 0);
    if StopBefore(s, i) {
      var q :| 0 <= q < i && IsStop(s[q]) && CapAfterStopEnd(s, q) == Some(i + 1);
      StopCapitalised(s, q, i);
    } else {
      OthersKept(s, i);
    }
  }

  lemma StopCapitalised(s: string, q: nat, i: nat)
    requires q < i < |s| && IsStop(s[q]) && CapAfterStopEnd(s, q) == Some(i + 1)
    ensures |Apply(CapAfterStop, s)| == |s| && Apply(CapAfterStop, s)[i] == ToUpper(s[i])
  {
    StopReached(s, 0, q);
    StopHead(s, q, i);
    ReadReached(s, q, i, ToUpper(s[i]));
  }

  lemma OthersKept(s: string, i: nat)
    requires i < |s| && !StopBefore(s, i)
    ensures |Apply(CapAfterStop, s)| == |s| && Apply(CapAfterStop, s)[i] == s[i]
  {
    ReadAt(s, i);
    var q: nat :| q <= i < Next(CapAfterStop, s, q) && Apply(CapAfterStop, s)[i] == Head(CapAfterStop, s, q)[i - q];
    HeadKeeps(s, q, i);
  }

  lemma StopHead(s: string, q: nat, i: nat)
    requires q < i < |s| && IsStop(s[q]) && CapAfterStopEnd(s, q) == Some(i + 1)
    ensures Next(CapAfterStop, s, q) == i + 1
    ensures Head(CapAfterStop, s, q)[i - q] == ToUpper(s[i])
  {
    var h := Head(CapAfterStop, s, q);
    assert h == s[q..i] + [ToUpper(s[i])];
  }

  /** A step changes no character other than the letter that ends a
      full-stop match. */
  lemma HeadKeeps(s: string, q: nat, i: nat)
    requires q <= i < |s| && i < Next(CapAfterStop, s, q) && !StopBefore(s, i)
    ensures Head(CapAfterStop, s, q)[i - q] == s[i]
  {
    var h := Head(CapAfterStop, s, q);
    match MatchEnd(CapAfterStop, s, q) {
      case Some(e) =>
        assert h == s[q..e - 1] + [ToUpper(s[e - 1])];
      case None =>
    }
  }
}
