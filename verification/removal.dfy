/** The filler passes of `cleanup_utterance` in
    scripts/cleanup_filler_words.py: parenthesised fillers, fillers with a
    comma, fillers between spaces, at the start, at the end, and finally
    every filler that is a word on its own. */
module Removal {
  import opened Options
  import opened Text
  import opened WordRuns
  import opened Filler
  import opened Rewrite

  function RemoveFillers(text: string): string {
    Apply(FillerStandalone, RemovePhrases(text))
  }

  /** The five passes that remove a filler with its surroundings. */
  function RemovePhrases(text: string): string {
    var t1 := Apply(ParensOnly, text);
    var t2 := Apply(FillerComma, t1);
    var t3 := Apply(FillerSpaced, t2);
    var t4 := Apply(FillerStart, t3);
    Apply(FillerEnd, t4)
  }

  /** The words that are not fillers, in order. */
  function NonFillers(ws: seq<string>): (r: seq<string>)
    ensures |r| <= |ws|
    ensures forall k :: 0 <= k < |r| ==> !IsFiller(r[k])
  {
    if |ws| == 0 then []
    else if IsFiller(ws[0]) then NonFillers(ws[1..])
    else [ws[0]] + NonFillers(ws[1..])
  }

  /** The scan is at a word start or outside any word. */
  predicate Outside(s: string, p: nat) {
    p <= |s| && (p == |s| || !IsWordChar(s[p]) || RunStart(s, p))
  }

  lemma WordsNonWordCons(c: char, r: string)
    requires !IsWordChar(c)
    ensures Words([c] + r) == Words(r)
  {
    assert ([c] + r)[1..] == r;
  }

  /** A text that starts with a whole word splits into it and the rest. */
  lemma WordsAtRun(s: string, p: nat)
    requires RunStart(s, p)
    ensures Words(s[p..]) == [s[p..WordEnd(s, p)]] + Words(s[WordEnd(s, p)..])
  {
    RunEndSuffix(s, p, p);
    var e := WordEnd(s, p);
    assert s[p..][..e - p] == s[p..e];
    assert s[p..][e - p..] == s[e..];
  }

  /** A whole word is one word. */
  lemma WordsOfWord(w: string)
    requires |w| > 0 && AllWord(w)
    ensures Words(w) == [w]
  {
    RunEndAt(w, 0, |w|, IsWordChar);
    assert w[..|w|] == w;
    assert w[|w|..] == "";
  }

  /** Inside a word the standalone pass copies the rest of the word. */
  lemma {:induction false} CopyWordRest(s: string, p: nat, q: nat)
    requires RunStart(s, p) && p < q <= WordEnd(s, p)
    ensures Sub(FillerStandalone, s, q) == s[q..WordEnd(s, p)] + Sub(FillerStandalone, s, WordEnd(s, p))
    decreases WordEnd(s, p) - q
  {
    var e := WordEnd(s, p);
    if q < e {
      assert !RunStart(s, q);
      CopyWordRest(s, p, q + 1);
      assert s[q..e] == [s[q]] + s[q + 1..e];
    }
  }

  lemma StandaloneFillerStep(s: string, p: nat)
    requires RunStart(s, p) && FillerAt(s, p)
    ensures Sub(FillerStandalone, s, p) == Sub(FillerStandalone, s, WordEnd(s, p))
  {
  }

  lemma StandaloneKeepStep(s: string, p: nat)
    requires RunStart(s, p) && !FillerAt(s, p)
    ensures Sub(FillerStandalone, s, p) == s[p..WordEnd(s, p)] + Sub(FillerStandalone, s, WordEnd(s, p))
  {
    CopyWordRest(s, p, p + 1);
    assert s[p..WordEnd(s, p)] == [s[p]] + s[p + 1..WordEnd(s, p)];
  }

  /** The standalone pass removes exactly the filler words: the words of
      its output are the non-filler words of its input. */
  lemma {:induction false} StandaloneFrom(s: string, p: nat)
    requires Outside(s, p)
    ensures Words(Sub(FillerStandalone, s, p)) == NonFillers(Words(s[p..]))
    ensures StartsWord(Sub(FillerStandalone, s, p)) ==> p < |s| && IsWordChar(s[p])
    decreases |s| - p
  {
    if p < |s| {
      if !IsWordChar(s[p]) {
        StandaloneNonWord(s, p);
      } else {
        var e := WordEnd(s, p);
        StandaloneFrom(s, e);
        WordsAtRun(s, p);
        if FillerAt(s, p) {
          StandaloneFillerStep(s, p);
        } else {
          StandaloneKeepStep(s, p);
          StandaloneKeepWords(s, p);
        }
      }
    }
  }

  lemma {:induction false} StandaloneNonWord(s: string, p: nat)
    requires p < |s| && !IsWordChar(s[p])
    ensures Words(Sub(FillerStandalone, s, p)) == NonFillers(Words(s[p..]))
    ensures !StartsWord(Sub(FillerStandalone, s, p))
    decreases |s| - p, 0
  {
    StandaloneFrom(s, p + 1);
    assert Sub(FillerStandalone, s, p) == [s[p]] + Sub(FillerStandalone, s, p + 1);
    WordsNonWordCons(s[p], Sub(FillerStandalone, s, p + 1));
    SliceCons(s, p);
    WordsNonWordCons(s[p], s[p + 1..]);
  }

  lemma StandaloneKeepWords(s: string, p: nat)
    requires RunStart(s, p) && !FillerAt(s, p)
    requires var e := WordEnd(s, p);
      && Words(Sub(FillerStandalone, s, e)) == NonFillers(Words(s[e..]))
      && (StartsWord(Sub(FillerStandalone, s, e)) ==> e < |s| && IsWordChar(s[e]))
    ensures var e := WordEnd(s, p);
      Words(s[p..e] + Sub(FillerStandalone, s, e)) == NonFillers([s[p..e]] + Words(s[e..]))
  {
    var e := WordEnd(s, p);
    var w := s[p..e];
    var rest := Sub(FillerStandalone, s, e);
    WordsOfWord(w);
    WordsAppend(w, rest);
    assert ([w] + Words(s[e..]))[1..] == Words(s[e..]);
  }

  /** Hence no filler word survives the standalone pass. */
  lemma StandaloneNoFillers(s: string)
    ensures Words(Apply(FillerStandalone, s)) == NonFillers(Words(s))
    ensures NoFillerWord(Apply(FillerStandalone, s))
  {
    StandaloneFrom(s, 0);
    assert s[0..] == s;
  }

  /** Text without filler words is a fixed point of the standalone pass. */
  lemma StandaloneIdle(s: string)
    requires NoFillerWord(s)
    ensures Apply(FillerStandalone, s) == s
  {
    NoFillerWordNoMatch(s);
    forall q | 0 <= q < |s| ensures MatchEnd(FillerStandalone, s, q).None? {
      if RunStart(s, q) && FillerAt(s, q) {
        FillerMatchIsWord(s, q, WordEnd(s, q));
      }
    }
    SubNoMatch(FillerStandalone, s, 0);
  }

  /** The passes that delete a filler together with what surrounds it. */
  predicate FillerRule(rule: Rule) {
    rule.ParensOnly? || rule.FillerComma? || rule.FillerSpaced?
    || rule.FillerStart? || rule.FillerEnd? || rule.FillerStandalone?
  }

  lemma NonWordRange(s: string, i: nat, j: nat)
    requires i <= j <= |s|
    requires forall k :: i <= k < j ==> !IsWordChar(s[k])
    ensures AllNonWord(s[i..j])
  {
  }

  /** A match made of non-word text, one filler word, and non-word text. */
  lemma PaddedFiller(s: string, p: nat, j: nat, e: nat)
    requires p <= j <= e <= |s| && WordEnd(s, j) <= e && FillerAt(s, j)
    requires forall k :: p <= k < j ==> !IsWordChar(s[k])
    requires forall k :: WordEnd(s, j) <= k < e ==> !IsWordChar(s[k])
    ensures Words(s[p..e]) == [s[j..WordEnd(s, j)]]
  {
    var k := WordEnd(s, j);
    FillerAtLength(s, j);
    assert s[p..e] == s[p..j] + s[j..k] + s[k..e];
    NonWordRange(s, p, j);
    NonWordRange(s, k, e);
    WordsPadded(s[p..j], s[j..k], s[k..e]);
    RunEndAt(s, j, k, IsWordChar);
    WordsOfWord(s[j..k]);
  }

  /** Every match of a filler pass holds exactly one word, a filler, and
      what replaces it holds none: the passes delete fillers and the
      spaces, commas and parentheses around them, nothing else. */
  lemma FillerMatchShape(rule: Rule, s: string, p: nat, e: nat)
    requires FillerRule(rule) && p < |s| && MatchEnd(rule, s, p) == Some(e)
    ensures |Words(s[p..e])| == 1 && IsFiller(Words(s[p..e])[0])
    ensures AllNonWord(Replacement(rule, s, p, e))
  {
    match rule {
      case ParensOnly => ParensOnlyShape(s, p, e);
      case FillerComma => FillerCommaShape(s, p, e);
      case FillerSpaced => SpacedShape(s, p, e);
      case FillerStart => SpacedShape(s, p, e);
      case FillerEnd => SpacedShape(s, p, e);
      case FillerStandalone => PaddedFiller(s, p, p, e);
    }
  }

  lemma ParensOnlyShape(s: string, p: nat, e: nat)
    requires p < |s| && ParensOnlyEnd(s, p) == Some(e)
    ensures Words(s[p..e]) == [s[SkipSpaces(s, p + 1)..WordEnd(s, SkipSpaces(s, p + 1))]]
  {
    PaddedFiller(s, p, SkipSpaces(s, p + 1), e);
  }

  lemma FillerCommaShape(s: string, p: nat, e: nat)
    requires p < |s| && FillerCommaEnd(s, p) == Some(e)
    ensures Words(s[p..e]) == [s[p..WordEnd(s, p)]]
  {
    PaddedFiller(s, p, p, e);
  }

  /** The spaced, start and end passes: spaces, a filler, spaces. */
  lemma SpacedShape(s: string, p: nat, e: nat)
    requires p <= e <= |s|
    requires var j := SkipSpaces(s, p);
      WordEnd(s, j) <= e && FillerAt(s, j) && forall k :: WordEnd(s, j) <= k < e ==> IsSpace(s[k])
    ensures Words(s[p..e]) == [s[SkipSpaces(s, p)..WordEnd(s, SkipSpaces(s, p))]]
  {
    PaddedFiller(s, p, SkipSpaces(s, p), e);
  }

  /** Text made only of whitespace and word characters. */
  predicate Plain(x: string) {
    forall i :: 0 <= i < |x| ==> IsSpace(x[i]) || IsWordChar(x[i])
  }

  predicate AllFillers(ws: seq<string>) {
    forall k :: 0 <= k < |ws| ==> IsFiller(ws[k])
  }

  lemma {:induction false} NonFillersOfFillers(ws: seq<string>)
    requires AllFillers(ws)
    ensures NonFillers(ws) == []
    decreases |ws|
  {
    if |ws| > 0 {
      assert forall k :: 0 <= k < |ws| - 1 ==> ws[1..][k] == ws[k + 1];
      NonFillersOfFillers(ws[1..]);
    }
  }

  /** The passes that never join two words: whatever they delete has
      whitespace, a text end or another deletion on each side. */
  predicate Unglued(rule: Rule) {
    rule.FillerSpaced? || rule.FillerStart? || rule.FillerEnd? || rule.FillerStandalone?
  }

  /** Cutting a text where no word runs across the cut leaves the later
      words as they were. */
  lemma SuffixFillers(s: string, p: nat, m: nat)
    requires p <= m && CleanCut(s, m) && AllFillers(Words(s[p..]))
    ensures AllFillers(Words(s[m..]))
  {
    var a := s[p..m];
    var b := s[m..];
    assert s[p..] == a + b;
    assert !(EndsWord(a) && StartsWord(b)) by {
      if |a| > 0 && |b| > 0 {
        assert a[|a| - 1] == s[m - 1] && b[0] == s[m];
      }
    }
    WordsAppend(a, b);
    FillersTail(Words(a), Words(b));
  }

  lemma FillersTail(x: seq<string>, y: seq<string>)
    requires AllFillers(x + y)
    ensures AllFillers(y)
  {
    forall k | 0 <= k < |y| ensures IsFiller(y[k]) {
      assert y[k] == (x + y)[|x| + k];
    }
  }

  /** Inside a word none of these passes matches, so the rest of the word
      is copied. */
  lemma PassCopyWord(rule: Rule, s: string, p: nat)
    requires Unglued(rule) && RunStart(s, p) && MatchEnd(rule, s, p).None?
    ensures Sub(rule, s, p) == s[p..WordEnd(s, p)] + Sub(rule, s, WordEnd(s, p))
  {
    WordRestIdle(rule, s, p);
    SubCopy(rule, s, p, WordEnd(s, p));
  }

  lemma WordRestIdle(rule: Rule, s: string, p: nat)
    requires Unglued(rule) && RunStart(s, p)
    ensures Idle(rule, s, p + 1, WordEnd(s, p))
  {
    var e := WordEnd(s, p);
    forall q | p + 1 <= q < e ensures MatchEnd(rule, s, q).None? {
      InsideWordIdle(rule, s, q);
    }
    IdleAll(rule, s, p + 1, e);
  }

  lemma InsideWordIdle(rule: Rule, s: string, q: nat)
    requires Unglued(rule) && 0 < q < |s| && IsWordChar(s[q - 1]) && IsWordChar(s[q])
    ensures MatchEnd(rule, s, q).None?
  {
  }

  /** Where the reasoning about a pass steps to from `p`: past a word
      the pass leaves alone, otherwise where the scan goes next. */
  function Stride(rule: Rule, s: string, p: nat): (n: nat)
    requires p < |s|
    ensures p < n <= |s|
  {
    if IsWordChar(s[p]) && MatchEnd(rule, s, p).None? then WordEnd(s, p) else Next(rule, s, p)
  }

  /** On text of whitespace and filler words these passes leave text of
      whitespace and filler words; and what they write from a whitespace
      character after the start does not begin with a word. */
  lemma {:induction false} PassFillersFrom(rule: Rule, s: string, p: nat)
    requires Unglued(rule) && Plain(s) && Outside(s, p) && AllFillers(Words(s[p..]))
    ensures Plain(Sub(rule, s, p)) && AllFillers(Words(Sub(rule, s, p)))
    ensures 0 < p && (p == |s| || !IsWordChar(s[p])) ==> !StartsWord(Sub(rule, s, p))
    decreases |s| - p
  {
    if p < |s| {
      var n := Stride(rule, s, p);
      StrideCut(rule, s, p);
      SuffixFillers(s, p, n);
      PassFillersFrom(rule, s, n);
      StrideOut(rule, s, p);
    }
  }

  /** A cut no word runs across, at a place the scan may stand. */
  predicate CleanCut(s: string, m: nat) {
    0 < m <= |s| && (m == |s| || (Outside(s, m) && (!IsWordChar(s[m - 1]) || !IsWordChar(s[m]))))
  }

  lemma StrideCut(rule: Rule, s: string, p: nat)
    requires Unglued(rule) && Plain(s) && Outside(s, p) && p < |s|
    ensures CleanCut(s, Stride(rule, s, p))
  {
    if !IsWordChar(s[p]) {
      SpaceHead(rule, s, p);
    } else {
      WordHead(rule, s, p);
    }
  }

  /** One stride's output in front of the output of the rest. */
  lemma StrideOut(rule: Rule, s: string, p: nat)
    requires Unglued(rule) && Plain(s) && Outside(s, p) && p < |s| && AllFillers(Words(s[p..]))
    requires var n := Stride(rule, s, p); var x := Sub(rule, s, n);
      && Plain(x) && AllFillers(Words(x))
      && (n == |s| || !IsWordChar(s[n]) ==> !StartsWord(x))
    ensures Plain(Sub(rule, s, p)) && AllFillers(Words(Sub(rule, s, p)))
    ensures 0 < p && !IsWordChar(s[p]) ==> !StartsWord(Sub(rule, s, p))
  {
    if !IsWordChar(s[p]) {
      SubStep(rule, s, p);
      SpaceHead(rule, s, p);
      PrependSpace(Head(rule, s, p), Sub(rule, s, Next(rule, s, p)));
    } else if MatchEnd(rule, s, p).Some? {
      SubStep(rule, s, p);
      WordHead(rule, s, p);
      PrependSpace("", Sub(rule, s, Next(rule, s, p)));
    } else {
      var e := WordEnd(s, p);
      WordsAtRun(s, p);
      assert IsFiller(s[p..e]) by {
        assert Words(s[p..])[0] == s[p..e];
      }
      KeepFillerWord(rule, s, p);
    }
  }

  /** At whitespace one step of these passes writes nothing (only at the
      start or when the match runs to the end) or one whitespace
      character, and stops at a clean cut. */
  lemma SpaceHead(rule: Rule, s: string, p: nat)
    requires Unglued(rule) && Plain(s) && p < |s| && !IsWordChar(s[p])
    ensures var h := Head(rule, s, p);
      || (h == "" && (p == 0 || Next(rule, s, p) == |s|))
      || (|h| == 1 && IsSpace(h[0]))
    ensures CleanCut(s, Next(rule, s, p))
  {
    if MatchEnd(rule, s, p).Some? {
      var m := MatchEnd(rule, s, p).value;
      if m < |s| && !rule.FillerStandalone? {
        assert IsSpace(s[m - 1]) && !IsSpace(s[m]);
      }
    }
  }

  /** At a word one step of these passes either deletes through a clean
      cut or copies nothing but the first character. */
  lemma WordHead(rule: Rule, s: string, p: nat)
    requires Unglued(rule) && Plain(s) && RunStart(s, p)
    ensures MatchEnd(rule, s, p).Some? ==> Head(rule, s, p) == "" && CleanCut(s, Next(rule, s, p))
  {
    if MatchEnd(rule, s, p).Some? {
      var m := MatchEnd(rule, s, p).value;
      if m < |s| && !rule.FillerStandalone? {
        assert IsSpace(s[m - 1]) && !IsSpace(s[m]);
      }
    }
  }

  /** Putting nothing or one whitespace character before such text. */
  lemma PrependSpace(h: string, x: string)
    requires h == "" || (|h| == 1 && IsSpace(h[0]))
    requires Plain(x) && AllFillers(Words(x))
    ensures Plain(h + x) && AllFillers(Words(h + x))
    ensures h != "" ==> !StartsWord(h + x)
  {
    if h != "" {
      assert h + x == [h[0]] + x;
      WordsNonWordCons(h[0], x);
    } else {
      assert h + x == x;
    }
  }

  /** A filler word the pass does not match is copied whole, in front of
      what the pass makes of the rest. */
  lemma KeepFillerWord(rule: Rule, s: string, p: nat)
    requires Unglued(rule) && RunStart(s, p) && MatchEnd(rule, s, p).None?
    requires IsFiller(s[p..WordEnd(s, p)])
    requires var x := Sub(rule, s, WordEnd(s, p)); Plain(x) && AllFillers(Words(x)) && !StartsWord(x)
    ensures Plain(Sub(rule, s, p)) && AllFillers(Words(Sub(rule, s, p)))
  {
    var e := WordEnd(s, p);
    PassCopyWord(rule, s, p);
    assert AllWord(s[p..e]) by {
      forall i | 0 <= i < e - p ensures IsWordChar(s[p..e][i]) {
        assert s[p..e][i] == s[p + i];
      }
    }
    PlainWord(s[p..e], Sub(rule, s, e));
  }

  /** A filler word followed by text that does not start a word. */
  lemma PlainWord(w: string, rest: string)
    requires |w| > 0 && AllWord(w) && IsFiller(w)
    requires Plain(rest) && AllFillers(Words(rest)) && !StartsWord(rest)
    ensures Plain(w + rest) && AllFillers(Words(w + rest))
  {
    WordsOfWord(w);
    WordsAppend(w, rest);
    FillersCons(w, Words(rest));
    PlainAppend(w, rest);
  }

  lemma FillersCons(w: string, ws: seq<string>)
    requires IsFiller(w) && AllFillers(ws)
    ensures AllFillers([w] + ws)
  {
    assert forall k :: 0 < k < |ws| + 1 ==> ([w] + ws)[k] == ws[k - 1];
  }

  lemma PlainAppend(a: string, b: string)
    requires AllWord(a) && Plain(b)
    ensures Plain(a + b)
  {
    assert forall i :: |a| <= i < |a| + |b| ==> (a + b)[i] == b[i - |a|];
  }

  lemma PassFillers(rule: Rule, s: string)
    requires Unglued(rule) && Plain(s) && AllFillers(Words(s))
    ensures Plain(Apply(rule, s)) && AllFillers(Words(Apply(rule, s)))
  {
    assert s[0..] == s;
    PassFillersFrom(rule, s, 0);
  }

  /** Without parentheses or commas the first two passes find nothing. */
  lemma PlainIdle(rule: Rule, s: string)
    requires (rule.ParensOnly? || rule.FillerComma?) && Plain(s)
    ensures Apply(rule, s) == s
  {
    forall q | 0 <= q < |s| ensures MatchEnd(rule, s, q).None? {
      PlainQuiet(rule, s, q);
    }
    SubNoMatch(rule, s, 0);
    assert s[0..] == s;
  }

  lemma PlainQuiet(rule: Rule, s: string, q: nat)
    requires (rule.ParensOnly? || rule.FillerComma?) && Plain(s) && q < |s|
    ensures MatchEnd(rule, s, q).None?
  {
    if rule.FillerComma? {
      var c := SkipSpaces(s, WordEnd(s, q));
      assert c < |s| ==> s[c] != ',';
    }
  }

  /** Text of whitespace and filler words loses every word to the filler
      passes, and the word-joining parenthesis pass never fires on it. */
  lemma RemoveOnlyFillers(text: string)
    requires Plain(text) && AllFillers(Words(text))
    ensures AllSpace(RemoveFillers(text))
  {
    var t1 := Apply(ParensOnly, text);
    PlainIdle(ParensOnly, text);
    var t2 := Apply(FillerComma, t1);
    PlainIdle(FillerComma, t1);
    var t3 := Apply(FillerSpaced, t2);
    PassFillers(FillerSpaced, t2);
    var t4 := Apply(FillerStart, t3);
    PassFillers(FillerStart, t3);
    var t5 := Apply(FillerEnd, t4);
    PassFillers(FillerEnd, t4);
    assert t5 == RemovePhrases(text);
    var t6 := Apply(FillerStandalone, t5);
    PassFillers(FillerStandalone, t5);
    StandaloneNoFillers(t5);
    NonFillersOfFillers(Words(t5));
    NoWordsNonWord(t6);
  }
}
