/** `_fix_spacing` in scripts/cleanup_filler_words.py: six substitutions
    and a final strip. It never touches a word: only whitespace,
    punctuation and dashes move. */
module Spacing {
  import opened Options
  import opened Text
  import opened WordRuns
  import opened Rewrite

  function FixSpacing(text: string): (r: string)
    ensures |r| == 0 || (!IsSpace(r[0]) && !IsSpace(r[|r| - 1]))
  {
    Strip(SpacingPasses(text))
  }

  /** The six substitutions, in the order the script applies them. */
  function SpacingPasses(text: string): string {
    var t1 := Apply(CollapseBlanks, text);
    var t2 := Apply(SpaceBeforePunct, t1);
    var t3 := Apply(SpaceAfterPunct, t2);
    var t4 := Apply(Dash, t3);
    var t5 := Apply(SpacedHyphen, t4);
    Apply(CollapseSpaces, t5)
  }

  /** The rules of `_fix_spacing`, stripping aside. */
  predicate SpacingRule(rule: Rule) {
    rule.CollapseBlanks? || rule.SpaceBeforePunct? || rule.SpaceAfterPunct?
    || rule.Dash? || rule.SpacedHyphen? || rule.CollapseSpaces?
  }

  lemma SpacesAreNotWords(s: string, i: nat, j: nat)
    requires i <= j <= |s|
    requires forall k :: i <= k < j ==> IsSpace(s[k])
    ensures AllNonWord(s[i..j])
  {
  }

  /** Each match is replaced by text with the same words and the same kind
      of character at either end. */
  lemma ReplacementSame(rule: Rule, s: string, p: nat, e: nat)
    requires SpacingRule(rule) && p < |s| && MatchEnd(rule, s, p) == Some(e)
    ensures Same(Replacement(rule, s, p, e), s[p..e])
  {
    match rule {
      case CollapseBlanks => BlanksSame(s, p, e);
      case SpaceBeforePunct => SpaceBeforePunctSame(s, p, e);
      case SpaceAfterPunct => SpaceAfterPunctSame(s, p);
      case Dash => DashSame(s, p, e);
      case SpacedHyphen => DashSame(s, p, e);
      case CollapseSpaces =>
        SpacesAreNotWords(s, p, e);
        SameNonWord(" ", s[p..e]);
    }
  }

  lemma BlanksSame(s: string, p: nat, e: nat)
    requires p < e <= |s| && e == RunEnd(s, p, IsBlank)
    ensures Same(" ", s[p..e])
  {
    assert AllNonWord(s[p..e]);
    SameNonWord(" ", s[p..e]);
  }

  lemma SpaceBeforePunctSame(s: string, p: nat, e: nat)
    requires p < |s| && SpaceBeforePunctEnd(s, p) == Some(e)
    ensures Same([s[e - 1]], s[p..e])
  {
    SpacesAreNotWords(s, p, e - 1);
    assert s[p..e] == s[p..e - 1] + [s[e - 1]];
    assert AllNonWord(s[p..e]);
    SameNonWord([s[e - 1]], s[p..e]);
  }

  lemma SpaceAfterPunctSame(s: string, p: nat)
    requires p + 1 < |s| && IsPunct(s[p])
    ensures Same([s[p], ' ', s[p + 1]], s[p..p + 2])
  {
    var c := s[p];
    var d := s[p + 1];
    assert s[p..p + 2] == [c] + [d] + "";
    assert [c, ' ', d] == [c, ' '] + [d] + "";
    WordsPadded([c], [d], "");
    WordsPadded([c, ' '], [d], "");
  }

  /** Both dash rules match spaces, one dash or hyphen, and spaces. */
  lemma DashSame(s: string, p: nat, e: nat)
    requires p < e <= |s|
    requires var j := SkipSpaces(s, p); j < e && e == SkipSpaces(s, j + 1) && !IsWordChar(s[j])
    ensures Same(EmDashSpaced, s[p..e])
  {
    var j := SkipSpaces(s, p);
    SpacesAreNotWords(s, p, j);
    SpacesAreNotWords(s, j + 1, e);
    assert s[p..e] == s[p..j] + [s[j]] + s[j + 1..e];
    assert AllNonWord(s[p..e]);
    SameNonWord(EmDashSpaced, s[p..e]);
  }

  /** A spacing substitution keeps the words of the text. */
  lemma {:induction false} SubSame(rule: Rule, s: string, p: nat)
    requires SpacingRule(rule) && p <= |s|
    ensures Same(Sub(rule, s, p), s[p..])
    decreases |s| - p
  {
    if p < |s| {
      match MatchEnd(rule, s, p) {
        case Some(e) =>
          SubSame(rule, s, e);
          ReplacementSame(rule, s, p, e);
          SameAppend(Replacement(rule, s, p, e), s[p..e], Sub(rule, s, e), s[e..]);
          SliceSplit(s, p, e);
        case None =>
          SubSame(rule, s, p + 1);
          SameAppend([s[p]], [s[p]], Sub(rule, s, p + 1), s[p + 1..]);
          SliceCons(s, p);
      }
    }
  }

  lemma LStripWords(t: string)
    ensures Words(LStrip(t)) == Words(t)
  {
    var l := LStrip(t);
    var i := |t| - |l|;
    assert t == t[..i] + l + "";
    SpacesAreNotWords(t, 0, i);
    WordsPadded(t[..i], l, "");
  }

  lemma RStripWords(t: string)
    ensures Words(RStrip(t)) == Words(t)
  {
    var r := RStrip(t);
    assert t == "" + r + t[|r|..];
    SpacesAreNotWords(t, |r|, |t|);
    WordsPadded("", r, t[|r|..]);
  }

  lemma StripWords(t: string)
    ensures Words(Strip(t)) == Words(t)
  {
    LStripWords(t);
    RStripWords(LStrip(t));
  }

  /** `_fix_spacing` keeps every word of the text, in order. */
  lemma FixSpacingWords(text: string)
    ensures Words(FixSpacing(text)) == Words(text)
  {
    var t1 := Apply(CollapseBlanks, text);
    var t2 := Apply(SpaceBeforePunct, t1);
    var t3 := Apply(SpaceAfterPunct, t2);
    var t4 := Apply(Dash, t3);
    var t5 := Apply(SpacedHyphen, t4);
    var t6 := Apply(CollapseSpaces, t5);
    SubSame(CollapseBlanks, text, 0);
    SubSame(SpaceBeforePunct, t1, 0);
    SubSame(SpaceAfterPunct, t2, 0);
    SubSame(Dash, t3, 0);
    SubSame(SpacedHyphen, t4, 0);
    SubSame(CollapseSpaces, t5, 0);
    assert text[0..] == text && t1[0..] == t1 && t2[0..] == t2;
    assert t3[0..] == t3 && t4[0..] == t4 && t5[0..] == t5;
    StripWords(t6);
  }

  /** No two whitespace characters in a row. */
  predicate NoDoubleSpace(x: string) {
    forall i :: 0 <= i < |x| - 1 ==> !(IsSpace(x[i]) && IsSpace(x[i + 1]))
  }

  lemma NoDoubleSpaceCons(c: char, r: string)
    requires NoDoubleSpace(r)
    requires |r| > 0 && IsSpace(c) ==> !IsSpace(r[0])
    ensures NoDoubleSpace([c] + r)
  {
    var x := [c] + r;
    forall i | 0 <= i < |x| - 1 ensures !(IsSpace(x[i]) && IsSpace(x[i + 1])) {
      if i > 0 {
        assert x[i] == r[i - 1] && x[i + 1] == r[i];
      }
    }
  }

  /** After `\s{2,}` has become one space, no whitespace is doubled; and
      the output starts with whitespace exactly when the input does. */
  lemma {:induction false} CollapseSpacesSingle(s: string, p: nat)
    requires p <= |s|
    ensures NoDoubleSpace(Sub(CollapseSpaces, s, p))
    ensures |Sub(CollapseSpaces, s, p)| > 0 <==> p < |s|
    ensures p < |s| ==> IsSpace(Sub(CollapseSpaces, s, p)[0]) == IsSpace(s[p])
    decreases |s| - p
  {
    if p < |s| {
      var r := Sub(CollapseSpaces, s, p);
      match MatchEnd(CollapseSpaces, s, p) {
        case Some(e) =>
          CollapseSpacesSingle(s, e);
          assert r == [' '] + Sub(CollapseSpaces, s, e);
          NoDoubleSpaceCons(' ', Sub(CollapseSpaces, s, e));
        case None =>
          CollapseSpacesSingle(s, p + 1);
          assert r == [s[p]] + Sub(CollapseSpaces, s, p + 1);
          NoDoubleSpaceCons(s[p], Sub(CollapseSpaces, s, p + 1));
      }
    }
  }

  lemma NoDoubleSpaceSlice(x: string, i: nat, j: nat)
    requires NoDoubleSpace(x) && i <= j <= |x|
    ensures NoDoubleSpace(x[i..j])
  {
    var y := x[i..j];
    forall a | 0 <= a < |y| - 1 ensures !(IsSpace(y[a]) && IsSpace(y[a + 1])) {
      assert y[a] == x[i + a] && y[a + 1] == x[i + a + 1];
    }
  }

  /** `_fix_spacing` leaves no leading or trailing whitespace and no run of
      two whitespace characters. */
  lemma FixSpacingSpaces(text: string)
    ensures var r := FixSpacing(text);
      NoDoubleSpace(r) && (|r| == 0 || (!IsSpace(r[0]) && !IsSpace(r[|r| - 1])))
  {
    var t1 := Apply(CollapseBlanks, text);
    var t2 := Apply(SpaceBeforePunct, t1);
    var t3 := Apply(SpaceAfterPunct, t2);
    var t4 := Apply(Dash, t3);
    var t5 := Apply(SpacedHyphen, t4);
    var t6 := Apply(CollapseSpaces, t5);
    CollapseSpacesSingle(t5, 0);
    var i, j := StripBounds(t6);
    NoDoubleSpaceSlice(t6, i, j);
  }

  /** No en dash is left, and every em dash has a space on each side that
      has a neighbour. */
  predicate DashesSpaced(x: string) {
    && (forall i :: 0 <= i < |x| ==> x[i] != '–')
    && (forall i :: 0 < i < |x| && x[i] == '—' ==> x[i - 1] == ' ')
    && (forall i :: 0 <= i < |x| - 1 && x[i] == '—' ==> x[i + 1] == ' ')
  }

  /** ... and no em dash stands at either end, so both neighbours exist. */
  predicate DashesInside(x: string) {
    DashesSpaced(x) && (|x| > 0 ==> x[0] != '—' && x[|x| - 1] != '—')
  }

  lemma DashesAppend(a: string, b: string)
    requires DashesSpaced(a) && DashesSpaced(b)
    requires |a| > 0 && |b| > 0 ==> (a[|a| - 1] == '—' ==> b[0] == ' ') && (b[0] == '—' ==> a[|a| - 1] == ' ')
    ensures DashesSpaced(a + b)
  {
  }

  lemma DashesSlice(x: string, i: nat, j: nat)
    requires DashesSpaced(x) && i <= j <= |x|
    ensures DashesSpaced(x[i..j])
  {
  }

  lemma DashNeighbours(s: string, k: nat)
    requires DashesInside(s) && k < |s| && s[k] == '—'
    ensures 0 < k < |s| - 1 && s[k - 1] == ' ' && s[k + 1] == ' '
  {
  }

  /** A dash always starts a match of `\s*[—–]\s*`, so the dash pass copies
      none. */
  lemma DashMatches(s: string, p: nat)
    requires p < |s| && IsDash(s[p])
    ensures MatchEnd(Dash, s, p).Some?
  {
    assert SkipSpaces(s, p) == p;
  }

  /** After the dash pass every dash is the middle of a `" — "`. */
  lemma {:induction false} DashSub(s: string, p: nat)
    requires p <= |s|
    ensures DashesInside(Sub(Dash, s, p))
    decreases |s| - p
  {
    if p < |s| {
      var n := Next(Dash, s, p);
      DashSub(s, n);
      SubStep(Dash, s, p);
      if IsDash(s[p]) {
        DashMatches(s, p);
      }
      var h := Head(Dash, s, p);
      var x := Sub(Dash, s, n);
      assert DashesInside(h);
      DashesAppend(h, x);
      if |x| > 0 {
        assert (h + x)[|h + x| - 1] == x[|x| - 1];
      }
    }
  }

  /** The passes after it write `" — "` or `" "` for a match and copy the
      rest: what a step writes first is a space or the character it read,
      and what it writes last is a space or the one character it copied. */
  lemma SpacedHead(rule: Rule, s: string, p: nat)
    requires (rule.SpacedHyphen? || rule.CollapseSpaces?) && DashesInside(s) && p < |s|
    ensures var h := Head(rule, s, p);
      && |h| > 0 && DashesSpaced(h) && (h[0] == ' ' || h[0] == s[p])
      && (h[|h| - 1] == ' ' || (Next(rule, s, p) == p + 1 && h[|h| - 1] == s[p]))
  {
    match MatchEnd(rule, s, p) {
      case Some(e) =>
        assert Head(rule, s, p) == " — " || Head(rule, s, p) == " ";
      case None =>
        assert Head(rule, s, p) == [s[p]];
    }
  }

  /** So each dash keeps the spaces around it. */
  lemma {:induction false} SpacedSub(rule: Rule, s: string, p: nat)
    requires (rule.SpacedHyphen? || rule.CollapseSpaces?) && DashesInside(s) && p <= |s|
    ensures DashesSpaced(Sub(rule, s, p))
    ensures |Sub(rule, s, p)| > 0 <==> p < |s|
    ensures p < |s| ==> Sub(rule, s, p)[0] == ' ' || Sub(rule, s, p)[0] == s[p]
    ensures p < |s| ==> var r := Sub(rule, s, p); r[|r| - 1] == ' ' || r[|r| - 1] == s[|s| - 1]
    decreases |s| - p
  {
    if p < |s| {
      var n := Next(rule, s, p);
      SubStep(rule, s, p);
      SpacedSub(rule, s, n);
      SpacedHead(rule, s, p);
      var h := Head(rule, s, p);
      var x := Sub(rule, s, n);
      if h[|h| - 1] == '—' {
        DashNeighbours(s, p);
      }
      if |x| > 0 && x[0] == '—' {
        DashNeighbours(s, n);
      }
      DashesAppend(h, x);
      if |x| > 0 {
        assert (h + x)[|h + x| - 1] == x[|x| - 1];
      }
    }
  }

  lemma PassesDashes(text: string)
    ensures DashesSpaced(SpacingPasses(text))
  {
    var t1 := Apply(CollapseBlanks, text);
    var t2 := Apply(SpaceBeforePunct, t1);
    var t3 := Apply(SpaceAfterPunct, t2);
    var t4 := Apply(Dash, t3);
    var t5 := Apply(SpacedHyphen, t4);
    DashSub(t3, 0);
    SpacedSub(SpacedHyphen, t4, 0);
    SpacedSub(CollapseSpaces, t5, 0);
  }

  /** `_fix_spacing` leaves no en dash, and every em dash has a space
      before it unless it comes first and a space after it unless it comes
      last. */
  lemma FixSpacingDashes(text: string)
    ensures DashesSpaced(FixSpacing(text))
  {
    var t := SpacingPasses(text);
    PassesDashes(text);
    var i, j := StripBounds(t);
    DashesSlice(t, i, j);
  }

  /** What no spacing pass separates from a hyphen before it: anything but
      whitespace and dashes. */
  predicate HoldsHyphen(c: char) {
    !IsSpace(c) && !IsDash(c)
  }

  /** Such a character is the first thing the step that reads it writes. */
  lemma HeadKeepsFirst(rule: Rule, s: string, p: nat)
    requires SpacingRule(rule) && p < |s| && HoldsHyphen(s[p])
    ensures |Head(rule, s, p)| > 0 && Head(rule, s, p)[0] == s[p]
  {
    assert SkipSpaces(s, p) == p;
    assert RunEnd(s, p, IsBlank) == p;
  }

  /** A hyphen followed by such a character is never inside a match, except
      as the last character of `([,.;:!?])(\S)`, whose replacement ends
      with it too. */
  lemma HyphenStep(rule: Rule, s: string, q: nat, i: nat)
    requires SpacingRule(rule) && q <= i < |s| && i < Next(rule, s, q) && i + 1 < |s|
    requires s[i] == '-' && HoldsHyphen(s[i + 1])
    ensures Next(rule, s, q) == i + 1
    ensures |Head(rule, s, q)| > 0 && Head(rule, s, q)[|Head(rule, s, q)| - 1] == '-'
  {
  }

  /** One spacing pass keeps a hyphen together with the character after
      it. */
  lemma HyphenKept(rule: Rule, s: string, i: nat) returns (j: nat)
    requires SpacingRule(rule) && i + 1 < |s| && s[i] == '-' && HoldsHyphen(s[i + 1])
    ensures j + 1 < |Apply(rule, s)| && Apply(rule, s)[j] == '-' && Apply(rule, s)[j + 1] == s[i + 1]
  {
    var q := ReadFrom(rule, s, 0, i);
    var pre := ApplySplit(rule, s, q);
    HyphenStep(rule, s, q, i);
    SubStep(rule, s, i + 1);
    HeadKeepsFirst(rule, s, i + 1);
    j := PairAt(Apply(rule, s), pre, Head(rule, s, q), Sub(rule, s, i + 1), s[i + 1]);
  }

  lemma PairAt(out: string, pre: string, h: string, rest: string, c: char) returns (j: nat)
    requires out == pre + (h + rest)
    requires |h| > 0 && h[|h| - 1] == '-' && |rest| > 0 && rest[0] == c
    ensures j + 1 < |out| && out[j] == '-' && out[j + 1] == c
  {
    j := |pre| + |h| - 1;
    assert (pre + (h + rest))[j] == h[|h| - 1];
    assert (pre + (h + rest))[j + 1] == rest[0];
  }

  lemma StripKeepsPair(x: string, j: nat) returns (k: nat)
    requires j + 1 < |x| && !IsSpace(x[j]) && !IsSpace(x[j + 1])
    ensures k + 1 < |Strip(x)| && Strip(x)[k] == x[j] && Strip(x)[k + 1] == x[j + 1]
  {
    var l := LStrip(x);
    var d := |x| - |l|;
    assert d <= j;
    assert l[j - d] == x[j] && l[j + 1 - d] == x[j + 1];
    var r := RStrip(l);
    assert |r| > j + 1 - d;
    k := j - d;
    assert r[k] == l[k] && r[k + 1] == l[k + 1];
  }

  /** Hyphens inside words are left alone: a hyphen followed by anything
      but whitespace or a dash is still in the result, followed by the same
      character. */
  lemma FixSpacingHyphen(text: string, i: nat)
    requires i + 1 < |text| && text[i] == '-' && HoldsHyphen(text[i + 1])
    ensures exists j :: 0 <= j && j + 1 < |FixSpacing(text)| && FixSpacing(text)[j] == '-' && FixSpacing(text)[j + 1] == text[i + 1]
  {
    var t1 := Apply(CollapseBlanks, text);
    var j1 := HyphenKept(CollapseBlanks, text, i);
    var t2 := Apply(SpaceBeforePunct, t1);
    var j2 := HyphenKept(SpaceBeforePunct, t1, j1);
    var t3 := Apply(SpaceAfterPunct, t2);
    var j3 := HyphenKept(SpaceAfterPunct, t2, j2);
    var t4 := Apply(Dash, t3);
    var j4 := HyphenKept(Dash, t3, j3);
    var t5 := Apply(SpacedHyphen, t4);
    var j5 := HyphenKept(SpacedHyphen, t4, j4);
    var t6 := Apply(CollapseSpaces, t5);
    var j6 := HyphenKept(CollapseSpaces, t5, j5);
    var k := StripKeepsPair(t6, j6);
    assert FixSpacing(text)[k] == '-' && FixSpacing(text)[k + 1] == text[i + 1];
  }
}
