/** The filler words of scripts/cleanup_filler_words.py: the pattern
    `um+|uh+|erm+|er`, matched case-insensitively and, in every pass that
    uses it, between word boundaries. */
module Filler {
  import opened Text
  import opened WordRuns

  predicate Repeats(x: string, c: char) {
    forall i :: 0 <= i < |x| ==> x[i] == c
  }

  /** `(?:um+|uh+|erm+|er)` with `re.IGNORECASE`, as a whole-string match. */
  predicate IsFiller(w: string) {
    var l := LowerAll(w);
    || (|l| >= 2 && l[0] == 'u' && Repeats(l[1..], 'm'))
    || (|l| >= 2 && l[0] == 'u' && Repeats(l[1..], 'h'))
    || (|l| >= 3 && l[0] == 'e' && l[1] == 'r' && Repeats(l[2..], 'm'))
    || l == "er"
  }

  lemma LowerIsLetter(c: char, d: char)
    requires ToLower(c) == d && IsLower(d)
    ensures IsWordChar(c) && (IsLower(c) || IsUpper(c))
  {
  }

  /** A filler is at least two letters long. */
  lemma FillerShape(w: string)
    requires IsFiller(w)
    ensures |w| >= 2 && AllWord(w)
  {
    var l := LowerAll(w);
    forall i | 0 <= i < |w| ensures IsWordChar(w[i]) {
      assert IsLower(l[i]) by {
        if i >= 1 {
          assert l[i] == l[1..][i - 1];
        }
        if i >= 2 {
          assert l[i] == l[2..][i - 2];
        }
      }
      LowerIsLetter(w[i], l[i]);
    }
  }

  /** Stretched and capitalised fillers are fillers. */
  lemma FillerExamples()
    ensures IsFiller("um") && IsFiller("Ummm") && IsFiller("uhh") && IsFiller("ERM") && IsFiller("er")
  {
    LowerAllLower("um");
    LowerAllLower("uhh");
    LowerAllLower("er");
    assert LowerAll("Ummm") == "ummm";
    assert LowerAll("ERM") == "erm";
  }

  /** Near misses are not: the `r` of `er` does not repeat, and `um`
      only repeats its `m`. */
  lemma NearMisses()
    ensures !IsFiller("err") && !IsFiller("ermine") && !IsFiller("umh")
  {
    LowerAllLower("err");
    LowerAllLower("ermine");
    LowerAllLower("umh");
    assert "err"[2..][0] == 'r';
    assert "ermine"[2..][1] == 'i';
    assert "umh"[1..][1] == 'h';
  }

  /** Nor are words that only share letters with a filler. */
  lemma NotFillers()
    ensures !IsFiller("hum") && !IsFiller("") && !IsFiller("u") && !IsFiller("e")
  {
    LowerAllLower("hum");
    LowerAllLower("u");
    LowerAllLower("e");
  }

  lemma LowerAllLower(s: string)
    requires forall i :: 0 <= i < |s| ==> !IsUpper(s[i])
    ensures LowerAll(s) == s
  {
  }

  /** Case never matters. */
  lemma FillerIgnoresCase(a: string, b: string)
    requires LowerAll(a) == LowerAll(b)
    ensures IsFiller(a) == IsFiller(b)
  {
  }

  /** The regex `\b(?:um+|uh+|erm+|er)\b` matches exactly `s[j..k]`. */
  ghost predicate FillerMatch(s: string, j: nat, k: nat) {
    j < k <= |s| && Boundary(s, j) && IsFiller(s[j..k]) && Boundary(s, k)
  }

  /** Whatever the order in which the alternatives and repetitions are
      tried, a bounded filler match covers one whole word: the word that
      starts there, from its first character to its last. */
  lemma FillerMatchIsWord(s: string, j: nat, k: nat)
    ensures FillerMatch(s, j, k) <==> RunStart(s, j) && k == WordEnd(s, j) && IsFiller(s[j..k])
  {
    if FillerMatch(s, j, k) {
      FillerShape(s[j..k]);
      assert s[j..k][0] == s[j];
      assert s[j..k][k - j - 1] == s[k - 1];
      assert forall i :: j <= i < k ==> s[i] == s[j..k][i - j];
      RunEndAt(s, j, k, IsWordChar);
    }
    if RunStart(s, j) && k == WordEnd(s, j) && IsFiller(s[j..k]) {
      FillerShape(s[j..k]);
    }
  }

  /** No word of the text is a filler. */
  ghost predicate NoFillerWord(s: string) {
    forall k :: 0 <= k < |Words(s)| ==> !IsFiller(Words(s)[k])
  }

  /** ... which is to say the regex finds no bounded filler anywhere. */
  lemma NoFillerWordNoMatch(s: string)
    ensures NoFillerWord(s) <==> forall j: nat, k: nat :: !FillerMatch(s, j, k)
  {
    if NoFillerWord(s) {
      forall j: nat, k: nat ensures !FillerMatch(s, j, k) {
        FillerMatchIsWord(s, j, k);
        if RunStart(s, j) && k == WordEnd(s, j) {
          RunIsWord(s, j);
        }
      }
    } else {
      var n :| 0 <= n < |Words(s)| && IsFiller(Words(s)[n]);
      WordIsRun(s, Words(s)[n]);
      var j: nat :| RunStart(s, j) && Words(s)[n] == s[j..WordEnd(s, j)];
      FillerMatchIsWord(s, j, WordEnd(s, j));
    }
  }

  /** Texts equal up to case hold the same fillers. */
  lemma NoFillerWordIgnoresCase(s: string, r: string)
    requires LowerAll(s) == LowerAll(r)
    ensures NoFillerWord(s) == NoFillerWord(r)
  {
    LowerWords(s, r);
    forall k | 0 <= k < |Words(s)| ensures IsFiller(Words(s)[k]) == IsFiller(Words(r)[k]) {
      FillerIgnoresCase(Words(s)[k], Words(r)[k]);
    }
  }
}
