/** The words of a text: its maximal runs of `\w` characters, and how they
    behave when texts are concatenated. The regex word boundary `\b` sits
    exactly at the ends of these runs. */
module WordRuns {
  import opened Text

  /** The regex assertion `\b` at position `i`. */
  predicate Boundary(s: string, i: nat)
    requires i <= |s|
  {
    (i > 0 && IsWordChar(s[i - 1])) != (i < |s| && IsWordChar(s[i]))
  }

  /** A word starts at `j`. */
  predicate RunStart(s: string, j: nat) {
    j < |s| && IsWordChar(s[j]) && (j == 0 || !IsWordChar(s[j - 1]))
  }

  predicate AllWord(w: string) {
    forall i :: 0 <= i < |w| ==> IsWordChar(w[i])
  }

  predicate AllNonWord(w: string) {
    forall i :: 0 <= i < |w| ==> !IsWordChar(w[i])
  }

  predicate StartsWord(s: string) { |s| > 0 && IsWordChar(s[0]) }
  predicate EndsWord(s: string) { |s| > 0 && IsWordChar(s[|s| - 1]) }

  /** The maximal runs of word characters, left to right. */
  function Words(s: string): (r: seq<string>)
    ensures StartsWord(s) ==> |r| > 0
    ensures EndsWord(s) ==> |r| > 0
    decreases |s|
  {
    if |s| == 0 then []
    else if !IsWordChar(s[0]) then Words(s[1..])
    else
      var k := WordEnd(s, 0);
      [s[..k]] + Words(s[k..])
  }

  /** Every word is a non-empty run of word characters. */
  lemma {:induction false} WordsShape(s: string)
    ensures forall k :: 0 <= k < |Words(s)| ==> |Words(s)[k]| > 0 && AllWord(Words(s)[k])
    decreases |s|
  {
    if |s| > 0 {
      if !IsWordChar(s[0]) {
        WordsShape(s[1..]);
      } else {
        var k := WordEnd(s, 0);
        WordsShape(s[k..]);
        assert Words(s) == [s[..k]] + Words(s[k..]);
      }
    }
  }

  /** The words of `a + b` when the last word of `a` runs into the first
      word of `b`. */
  function Glue(x: seq<string>, y: seq<string>): seq<string>
    requires |x| > 0 && |y| > 0
  {
    x[..|x| - 1] + [x[|x| - 1] + y[0]] + y[1..]
  }

  function Combine(x: seq<string>, y: seq<string>, glued: bool): seq<string>
    requires glued ==> |x| > 0 && |y| > 0
  {
    if glued then Glue(x, y) else x + y
  }

  lemma WordEndAppendInside(a: string, b: string, i: nat)
    requires i <= |a| && WordEnd(a, i) < |a|
    ensures WordEnd(a + b, i) == WordEnd(a, i)
  {
    var j := WordEnd(a, i);
    assert forall k :: i <= k <= j ==> (a + b)[k] == a[k];
    RunEndAt(a + b, i, j, IsWordChar);
  }

  lemma WordEndAppendAcross(a: string, b: string)
    requires AllWord(a)
    ensures WordEnd(a + b, 0) == |a| + WordEnd(b, 0)
  {
    var m := WordEnd(b, 0);
    var s := a + b;
    assert forall k :: |a| <= k <= |a| + m && k < |s| ==> s[k] == b[k - |a|];
    RunEndAt(s, 0, |a| + m, IsWordChar);
  }

  /** Words of a concatenation: the two lists, with the last word of `a`
      and the first of `b` joined when no non-word character separates
      them. */
  lemma {:induction false} WordsAppend(a: string, b: string)
    ensures Words(a + b) == Combine(Words(a), Words(b), EndsWord(a) && StartsWord(b))
    decreases |a|
  {
    if |a| == 0 {
      AppendAt(a, b, 0);
    } else if !IsWordChar(a[0]) {
      WordsAppend(a[1..], b);
      WordsAppendSkip(a, b);
    } else if WordEnd(a, 0) < |a| {
      var k := WordEnd(a, 0);
      WordsAppend(a[k..], b);
      WordsAppendSplit(a, b, k);
    } else {
      WordsAppendWhole(a, b);
    }
  }

  lemma WordsAppendSkip(a: string, b: string)
    requires |a| > 0 && !IsWordChar(a[0])
    requires Words(a[1..] + b) == Combine(Words(a[1..]), Words(b), EndsWord(a[1..]) && StartsWord(b))
    ensures Words(a + b) == Combine(Words(a), Words(b), EndsWord(a) && StartsWord(b))
  {
    AppendAt(a, b, 1);
    assert |a| > 1 ==> a[1..][|a[1..]| - 1] == a[|a| - 1];
  }

  lemma AppendAcross(a: string, b: string, m: nat)
    requires m <= |b|
    ensures (a + b)[..|a| + m] == a + b[..m] && (a + b)[|a| + m..] == b[m..]
  {
  }

  lemma AppendAt(a: string, b: string, k: nat)
    requires k <= |a|
    ensures (a + b)[..k] == a[..k] && (a + b)[k..] == a[k..] + b
  {
  }

  lemma WordsAppendSplit(a: string, b: string, k: nat)
    requires |a| > 0 && IsWordChar(a[0]) && k == WordEnd(a, 0) < |a|
    requires Words(a[k..] + b) == Combine(Words(a[k..]), Words(b), EndsWord(a[k..]) && StartsWord(b))
    ensures Words(a + b) == Combine(Words(a), Words(b), EndsWord(a) && StartsWord(b))
  {
    WordEndAppendInside(a, b, 0);
    AppendAt(a, b, k);
    assert Words(a + b) == [a[..k]] + Words(a[k..] + b);
    assert Words(a) == [a[..k]] + Words(a[k..]);
    assert EndsWord(a[k..]) == EndsWord(a) by {
      assert a[k..][|a[k..]| - 1] == a[|a| - 1];
    }
    CombineCons(a[..k], Words(a[k..]), Words(b), EndsWord(a) && StartsWord(b));
  }

  lemma CombineCons(h: string, x: seq<string>, y: seq<string>, glued: bool)
    requires glued ==> |x| > 0 && |y| > 0
    ensures Combine([h] + x, y, glued) == [h] + Combine(x, y, glued)
  {
    if glued {
      assert ([h] + x)[..|[h] + x| - 1] == [h] + x[..|x| - 1];
    }
  }

  lemma WordsAppendWhole(a: string, b: string)
    requires |a| > 0 && IsWordChar(a[0]) && WordEnd(a, 0) == |a|
    ensures Words(a + b) == Combine(Words(a), Words(b), EndsWord(a) && StartsWord(b))
  {
    var m := WordEnd(b, 0);
    WholeWord(a);
    WholeFront(a, b);
    if m > 0 {
      WordsCons(b);
      GlueSingle(a, b[..m], Words(b[m..]));
    } else {
      assert b[m..] == b;
    }
  }

  lemma WholeWord(a: string)
    requires |a| > 0 && IsWordChar(a[0]) && WordEnd(a, 0) == |a|
    ensures Words(a) == [a] && EndsWord(a)
  {
    assert Words(a) == [a[..|a|]] + Words(a[|a|..]);
    assert a[..|a|] == a && a[|a|..] == [];
  }

  lemma WholeFront(a: string, b: string)
    requires |a| > 0 && IsWordChar(a[0]) && WordEnd(a, 0) == |a|
    ensures Words(a + b) == [a + b[..WordEnd(b, 0)]] + Words(b[WordEnd(b, 0)..])
  {
    WordEndAppendAcross(a, b);
    AppendAcross(a, b, WordEnd(b, 0));
    WordsCons(a + b);
  }

  lemma WordsCons(s: string)
    requires StartsWord(s)
    ensures Words(s) == [s[..WordEnd(s, 0)]] + Words(s[WordEnd(s, 0)..])
  {
  }

  lemma GlueSingle(a: string, h: string, rest: seq<string>)
    ensures Glue([a], [h] + rest) == [a + h] + rest
  {
  }

  /** Two texts with the same words, the same emptiness and the same kind
      of character at either end: splicing one for the other anywhere in a
      text leaves its words unchanged. */
  ghost predicate Same(x: string, y: string) {
    && (|x| == 0 <==> |y| == 0)
    && StartsWord(x) == StartsWord(y)
    && EndsWord(x) == EndsWord(y)
    && Words(x) == Words(y)
  }

  lemma SameAppend(a: string, a': string, b: string, b': string)
    requires Same(a, a') && Same(b, b')
    ensures Same(a + b, a' + b')
  {
    WordsAppend(a, b);
    WordsAppend(a', b');
    assert |a| > 0 ==> (a + b)[0] == a[0] && (a' + b')[0] == a'[0];
    assert |a| == 0 ==> a + b == b && a' + b' == b';
    assert |b| > 0 ==> (a + b)[|a + b| - 1] == b[|b| - 1] && (a' + b')[|a' + b'| - 1] == b'[|b'| - 1];
    assert |b| == 0 ==> a + b == a && a' + b' == a';
  }

  lemma {:induction false} NonWordWords(x: string)
    requires AllNonWord(x)
    ensures Words(x) == []
    decreases |x|
  {
    if |x| > 0 {
      NonWordWords(x[1..]);
    }
  }

  /** A text without words has no word character. */
  lemma {:induction false} NoWordsNonWord(x: string)
    requires Words(x) == []
    ensures AllNonWord(x)
    decreases |x|
  {
    if |x| > 0 {
      assert !IsWordChar(x[0]);
      NoWordsNonWord(x[1..]);
      assert forall i :: 1 <= i < |x| ==> x[i] == x[1..][i - 1];
    }
  }

  /** Any two non-empty texts without word characters are interchangeable. */
  lemma SameNonWord(x: string, y: string)
    requires |x| > 0 && |y| > 0 && AllNonWord(x) && AllNonWord(y)
    ensures Same(x, y)
  {
    NonWordWords(x);
    NonWordWords(y);
  }

  /** Text without word characters at either end does not change the
      words. */
  lemma WordsPadded(x: string, t: string, y: string)
    requires AllNonWord(x) && AllNonWord(y)
    ensures Words(x + t + y) == Words(t)
  {
    NonWordWords(x);
    NonWordWords(y);
    WordsAppend(x, t);
    WordsAppend(x + t, y);
  }

  /** A word starting at `j` is one of the words of the text. */
  lemma {:induction false} RunIsWord(s: string, j: nat)
    requires RunStart(s, j)
    ensures s[j..WordEnd(s, j)] in Words(s)
    decreases |s|
  {
    if j == 0 {
      assert Words(s) == [s[..WordEnd(s, 0)]] + Words(s[WordEnd(s, 0)..]);
    } else if !IsWordChar(s[0]) {
      RunEndSuffix(s, 1, j);
      RunIsWord(s[1..], j - 1);
    } else {
      var k := WordEnd(s, 0);
      assert !IsWordChar(s[j - 1]);
      assert k < j;
      RunEndSuffix(s, k, j);
      RunIsWord(s[k..], j - k);
      assert Words(s) == [s[..k]] + Words(s[k..]);
    }
  }

  lemma RunEndSuffix(s: string, d: nat, j: nat)
    requires d <= j <= |s|
    ensures j - d <= |s[d..]|
    ensures WordEnd(s[d..], j - d) == WordEnd(s, j) - d
    ensures s[d..][j - d..WordEnd(s[d..], j - d)] == s[j..WordEnd(s, j)]
    ensures RunStart(s, j) && j > d ==> RunStart(s[d..], j - d)
  {
    var e := WordEnd(s, j);
    assert forall k :: j - d <= k <= e - d && k < |s[d..]| ==> s[d..][k] == s[k + d];
    RunEndAt(s[d..], j - d, e - d, IsWordChar);
  }

  /** Every word of the text starts at a run start. */
  lemma {:induction false} WordIsRun(s: string, w: string)
    requires w in Words(s)
    ensures exists j: nat :: RunStart(s, j) && w == s[j..WordEnd(s, j)]
    decreases |s|
  {
    if !IsWordChar(s[0]) {
      WordIsRun(s[1..], w);
      var j: nat :| RunStart(s[1..], j) && w == s[1..][j..WordEnd(s[1..], j)];
      RunEndSuffix(s, 1, j + 1);
      assert RunStart(s, j + 1);
    } else {
      var k := WordEnd(s, 0);
      assert Words(s) == [s[..k]] + Words(s[k..]);
      if w == s[..k] {
        assert RunStart(s, 0);
      } else {
        WordIsRun(s[k..], w);
        var j: nat :| RunStart(s[k..], j) && w == s[k..][j..WordEnd(s[k..], j)];
        RunEndSuffix(s, k, j + k);
        assert RunStart(s, j + k) by {
          assert s[j + k] == s[k..][j];
          if j > 0 {
            assert s[j + k - 1] == s[k..][j - 1];
          }
        }
      }
    }
  }

  /** Lower-casing does not change which characters are word characters,
      so texts equal up to case have words equal up to case. */
  lemma LowerWords(s: string, r: string)
    requires LowerAll(s) == LowerAll(r)
    ensures |Words(s)| == |Words(r)|
    ensures forall k :: 0 <= k < |Words(s)| ==> LowerAll(Words(s)[k]) == LowerAll(Words(r)[k])
  {
    forall i | 0 <= i < |s| ensures ToLower(s[i]) == ToLower(r[i]) {
      assert LowerAll(s)[i] == LowerAll(r)[i];
    }
    CaseEqWords(s, r);
  }

  /** Equal up to ASCII case, character by character. */
  predicate CaseEq(s: string, r: string) {
    |s| == |r| && forall i :: 0 <= i < |s| ==> ToLower(s[i]) == ToLower(r[i])
  }

  lemma LowerClass(c: char, d: char)
    requires ToLower(c) == ToLower(d)
    ensures IsWordChar(c) == IsWordChar(d)
  {
  }

  lemma {:induction false} CaseEqWords(s: string, r: string)
    requires CaseEq(s, r)
    ensures |Words(s)| == |Words(r)|
    ensures forall k :: 0 <= k < |Words(s)| ==> LowerAll(Words(s)[k]) == LowerAll(Words(r)[k])
    decreases |s|
  {
    if |s| > 0 {
      LowerClass(s[0], r[0]);
      if !IsWordChar(s[0]) {
        CaseEqWords(s[1..], r[1..]);
      } else {
        var k := WordEnd(s, 0);
        forall i | 0 <= i <= k && i < |s| ensures IsWordChar(r[i]) == IsWordChar(s[i]) {
          LowerClass(s[i], r[i]);
        }
        RunEndAt(r, 0, k, IsWordChar);
        assert LowerAll(s[..k]) == LowerAll(r[..k]);
        CaseEqWords(s[k..], r[k..]);
        assert Words(s) == [s[..k]] + Words(s[k..]);
        assert Words(r) == [r[..k]] + Words(r[k..]);
      }
    }
  }
}
