/** The regular-expression substitutions of scripts/cleanup_filler_words.py.
    Each pattern is a `Rule`; `MatchEnd` says where the match that Python's
    backtracking engine finds at a position ends (none of the patterns can
    match the empty string), `Replacement` what replaces it, and `Sub` is
    `re.sub`: a left-to-right scan that rewrites non-overlapping matches
    and copies every other character. */
module Rewrite {
  import opened Options
  import opened Text
  import opened WordRuns
  import opened Filler

  /** The sentence punctuation of `[,.;:!?]`. */
  predicate IsPunct(c: char) {
    c == ',' || c == '.' || c == ';' || c == ':' || c == '!' || c == '?'
  }

  /** `[.!?]` */
  predicate IsStop(c: char) { c == '.' || c == '!' || c == '?' }

  /** `[—–]`: em dash and en dash. */
  predicate IsDash(c: char) { c == '—' || c == '–' }

  /** `[ \t]` */
  predicate IsBlank(c: char) { c == ' ' || c == '\t' }

  /** Straight and curly quotes: `"'“”‘’`. */
  predicate IsQuote(c: char) {
    c == '"' || c == '\'' || c == '“' || c == '”' || c == '‘' || c == '’'
  }

  /** `[\s"'“”‘’\(\[\{]`: what may stand before a sentence's first letter. */
  predicate IsOpener(c: char) {
    IsSpace(c) || IsQuote(c) || c == '(' || c == '[' || c == '{'
  }

  /** `[\s"'“”‘’\)\]\}]`: what may follow a full stop before the openers. */
  predicate IsCloser(c: char) {
    IsSpace(c) || IsQuote(c) || c == ')' || c == ']' || c == '}'
  }

  const EmDashSpaced: string := " — "

  datatype Rule =
    | ParensOnly        // RE_PARENS_ONLY: a filler alone in parentheses
    | FillerComma       // RE_FILLER_COMMA: a filler, its comma and the spaces around it
    | FillerSpaced      // RE_FILLER_SPACED: a filler between runs of whitespace
    | FillerStart       // RE_FILLER_START: a filler opening the text
    | FillerEnd         // RE_FILLER_END: a filler closing the text
    | FillerStandalone  // RE_FILLER_STANDALONE: any bounded filler
    | CollapseBlanks    // [ \t]{2,}
    | SpaceBeforePunct  // \s+([,.;:!?])
    | SpaceAfterPunct   // ([,.;:!?])(\S)
    | Dash              // \s*[—–]\s*
    | SpacedHyphen      // \s+-\s+
    | CollapseSpaces    // \s{2,}
    | CapFirst          // ^(?P<prefix>[\s"'“”‘’\(\[\{]*)(?P<ch>[a-z])
    | CapAfterStop      // (?P<boundary>[.!?])(?P<prefix>...)?(?P<ch>[a-z])
    | CapitalI          // \bi\b

  /** The filler word starting at `j`, if the word there is one. */
  predicate FillerAt(s: string, j: nat)
    requires j <= |s|
  {
    IsFiller(s[j..WordEnd(s, j)])
  }

  lemma FillerAtLength(s: string, j: nat)
    requires j <= |s| && FillerAt(s, j)
    ensures WordEnd(s, j) >= j + 2
  {
    FillerShape(s[j..WordEnd(s, j)]);
  }

  /** Where the match the pattern finds at `p` ends, if it finds one. */
  function MatchEnd(rule: Rule, s: string, p: nat): (r: Option<nat>)
    requires p < |s|
    ensures r.Some? ==> p < r.value <= |s|
  {
    match rule
    case ParensOnly => ParensOnlyEnd(s, p)
    case FillerComma => FillerCommaEnd(s, p)
    case FillerSpaced => FillerSpacedEnd(s, p)
    case FillerStart => FillerStartEnd(s, p)
    case FillerEnd => FillerEndEnd(s, p)
    case FillerStandalone => if RunStart(s, p) && FillerAt(s, p) then Some(WordEnd(s, p)) else None
    case CollapseBlanks => var q := RunEnd(s, p, IsBlank); if q - p >= 2 then Some(q) else None
    case SpaceBeforePunct => SpaceBeforePunctEnd(s, p)
    case SpaceAfterPunct => if IsPunct(s[p]) && p + 1 < |s| && !IsSpace(s[p + 1]) then Some(p + 2) else None
    case Dash => DashEnd(s, p)
    case SpacedHyphen => SpacedHyphenEnd(s, p)
    case CollapseSpaces => var j := SkipSpaces(s, p); if j - p >= 2 then Some(j) else None
    case CapFirst => CapFirstEnd(s, p)
    case CapAfterStop => CapAfterStopEnd(s, p)
    case CapitalI => if s[p] == 'i' && Boundary(s, p) && Boundary(s, p + 1) then Some(p + 1) else None
  }

  /** `\(\s*(?P<f>FILLER)\s*\)` */
  function ParensOnlyEnd(s: string, p: nat): (r: Option<nat>)
    requires p < |s|
    ensures r.Some? ==> p < r.value <= |s|
  {
    var j := SkipSpaces(s, p + 1);
    var c := SkipSpaces(s, WordEnd(s, j));
    if s[p] == '(' && FillerAt(s, j) && c < |s| && s[c] == ')' then Some(c + 1) else None
  }

  /** `\b(?P<f>FILLER)\b\s*,\s*` */
  function FillerCommaEnd(s: string, p: nat): (r: Option<nat>)
    requires p < |s|
    ensures r.Some? ==> p < r.value <= |s|
  {
    var c := SkipSpaces(s, WordEnd(s, p));
    if RunStart(s, p) && FillerAt(s, p) && c < |s| && s[c] == ',' then Some(SkipSpaces(s, c + 1)) else None
  }

  /** `\s+\b(?P<f>FILLER)\b\s+` */
  function FillerSpacedEnd(s: string, p: nat): (r: Option<nat>)
    requires p < |s|
    ensures r.Some? ==> p < r.value <= |s|
  {
    var j := SkipSpaces(s, p);
    var k := WordEnd(s, j);
    if IsSpace(s[p]) && FillerAt(s, j) && k < |s| && IsSpace(s[k]) then Some(SkipSpaces(s, k)) else None
  }

  /** `^\s*\b(?P<f>FILLER)\b\s+` */
  function FillerStartEnd(s: string, p: nat): (r: Option<nat>)
    requires p < |s|
    ensures r.Some? ==> p < r.value <= |s|
  {
    var j := SkipSpaces(s, p);
    var k := WordEnd(s, j);
    if p == 0 && FillerAt(s, j) && k < |s| && IsSpace(s[k]) then Some(SkipSpaces(s, k)) else None
  }

  /** `\s+\b(?P<f>FILLER)\b\s*$`: the trailing `\s*` takes any final line
      feed, so the match always runs to the end of the text. */
  function FillerEndEnd(s: string, p: nat): (r: Option<nat>)
    requires p < |s|
    ensures r.Some? ==> p < r.value <= |s|
  {
    var j := SkipSpaces(s, p);
    if IsSpace(s[p]) && FillerAt(s, j) && SkipSpaces(s, WordEnd(s, j)) == |s| then Some(|s|) else None
  }

  function SpaceBeforePunctEnd(s: string, p: nat): (r: Option<nat>)
    requires p < |s|
    ensures r.Some? ==> p < r.value <= |s|
  {
    var j := SkipSpaces(s, p);
    if IsSpace(s[p]) && j < |s| && IsPunct(s[j]) then Some(j + 1) else None
  }

  function DashEnd(s: string, p: nat): (r: Option<nat>)
    requires p < |s|
    ensures r.Some? ==> p < r.value <= |s|
  {
    var j := SkipSpaces(s, p);
    if j < |s| && IsDash(s[j]) then Some(SkipSpaces(s, j + 1)) else None
  }

  function SpacedHyphenEnd(s: string, p: nat): (r: Option<nat>)
    requires p < |s|
    ensures r.Some? ==> p < r.value <= |s|
  {
    var j := SkipSpaces(s, p);
    if IsSpace(s[p]) && j < |s| && s[j] == '-' && SkipSpaces(s, j + 1) > j + 1 then Some(SkipSpaces(s, j + 1)) else None
  }

  function CapFirstEnd(s: string, p: nat): (r: Option<nat>)
    requires p < |s|
    ensures r.Some? ==> p < r.value <= |s|
  {
    var j := RunEnd(s, 0, IsOpener);
    if p == 0 && j < |s| && IsLower(s[j]) then Some(j + 1) else None
  }

  /** The optional prefix group is a run of closers followed by a run of
      openers; the letter is the first character after both. */
  function CapAfterStopEnd(s: string, p: nat): (r: Option<nat>)
    requires p < |s|
    ensures r.Some? ==> p < r.value <= |s|
  {
    var b := RunEnd(s, RunEnd(s, p + 1, IsCloser), IsOpener);
    if IsStop(s[p]) && b < |s| && IsLower(s[b]) then Some(b + 1) else None
  }

  /** The replacement text for the match `s[p..e]`. */
  function Replacement(rule: Rule, s: string, p: nat, e: nat): string
    requires p < e <= |s|
  {
    match rule
    case ParensOnly => ""
    case FillerComma => ""
    case FillerSpaced => " "
    case FillerStart => ""
    case FillerEnd => ""
    case FillerStandalone => ""
    case CollapseBlanks => " "
    case SpaceBeforePunct => [s[e - 1]]
    case SpaceAfterPunct => [s[p], ' ', s[e - 1]]
    case Dash => EmDashSpaced
    case SpacedHyphen => EmDashSpaced
    case CollapseSpaces => " "
    case CapFirst => s[p..e - 1] + [ToUpper(s[e - 1])]
    case CapAfterStop => s[p..e - 1] + [ToUpper(s[e - 1])]
    case CapitalI => [ToUpper(s[p])]
  }

  /** `re.sub` from position `p` on. */
  function Sub(rule: Rule, s: string, p: nat): string
    requires p <= |s|
    decreases |s| - p
  {
    if p == |s| then ""
    else match MatchEnd(rule, s, p)
      case Some(e) => Replacement(rule, s, p, e) + Sub(rule, s, e)
      case None => [s[p]] + Sub(rule, s, p + 1)
  }

  /** Where the scan at `p` continues: past the match, or past the copied
      character. */
  function Next(rule: Rule, s: string, p: nat): (n: nat)
    requires p < |s|
    ensures p < n <= |s|
  {
    match MatchEnd(rule, s, p)
    case Some(e) => e
    case None => p + 1
  }

  /** What the scan writes for position `p`. */
  function Head(rule: Rule, s: string, p: nat): string
    requires p < |s|
  {
    match MatchEnd(rule, s, p)
    case Some(e) => Replacement(rule, s, p, e)
    case None => [s[p]]
  }

  lemma SubStep(rule: Rule, s: string, p: nat)
    requires p < |s|
    ensures Sub(rule, s, p) == Head(rule, s, p) + Sub(rule, s, Next(rule, s, p))
  {
  }

  /** `pattern.sub(replacement, s)` */
  function Apply(rule: Rule, s: string): string {
    Sub(rule, s, 0)
  }

  /** Where the pattern never matches, the text is copied unchanged. */
  lemma {:induction false} SubNoMatch(rule: Rule, s: string, p: nat)
    requires p <= |s|
    requires forall q :: p <= q < |s| ==> MatchEnd(rule, s, q).None?
    ensures Sub(rule, s, p) == s[p..]
    decreases |s| - p
  {
    if p < |s| {
      SubNoMatch(rule, s, p + 1);
      SliceCons(s, p);
    }
  }

  lemma SubIdle(rule: Rule, s: string, p: nat)
    requires p < |s| && MatchEnd(rule, s, p).None?
    ensures Sub(rule, s, p) == [s[p]] + Sub(rule, s, p + 1)
  {
  }

  /** The pattern matches nowhere from `p` up to `e`. */
  ghost predicate Idle(rule: Rule, s: string, p: nat, e: nat)
    requires p <= e <= |s|
    decreases e - p
  {
    p == e || (MatchEnd(rule, s, p).None? && Idle(rule, s, p + 1, e))
  }

  lemma {:induction false} IdleAll(rule: Rule, s: string, p: nat, e: nat)
    requires p <= e <= |s|
    requires forall q :: p <= q < e ==> MatchEnd(rule, s, q).None?
    ensures Idle(rule, s, p, e)
    decreases e - p
  {
    if p < e {
      IdleAll(rule, s, p + 1, e);
    }
  }

  /** Over a stretch where the pattern never matches, the stretch is
      copied unchanged. */
  lemma {:induction false} SubCopy(rule: Rule, s: string, p: nat, e: nat)
    requires p <= e <= |s| && Idle(rule, s, p, e)
    ensures Sub(rule, s, p) == s[p..e] + Sub(rule, s, e)
    decreases e - p
  {
    if p < e {
      SubIdle(rule, s, p);
      SubCopy(rule, s, p + 1, e);
      SliceConsTo(s, p, e);
      ConsAssoc(Sub(rule, s, p), s[p], Sub(rule, s, p + 1), s[p + 1..e], Sub(rule, s, e));
    } else {
      assert s[p..e] == [];
    }
  }

  /** The scan from `p` stops at `q`: `q` is not inside a match that
      started earlier. */
  ghost predicate Reached(rule: Rule, s: string, p: nat, q: nat)
    requires p <= q <= |s|
    decreases q - p
  {
    p == q || (p < |s| && Next(rule, s, p) <= q && Reached(rule, s, Next(rule, s, p), q))
  }

  /** Every position lies in the step of exactly one position the scan
      stops at. */
  lemma {:induction false} ReadFrom(rule: Rule, s: string, p: nat, i: nat) returns (q: nat)
    requires p <= i < |s|
    ensures p <= q <= i < Next(rule, s, q) && Reached(rule, s, p, q)
    decreases |s| - p
  {
    var n := Next(rule, s, p);
    if i < n {
      q := p;
    } else {
      q := ReadFrom(rule, s, n, i);
    }
  }

  /** The whole output around a step the scan takes. */
  lemma ApplySplit(rule: Rule, s: string, q: nat) returns (pre: string)
    requires q < |s| && Reached(rule, s, 0, q)
    ensures Apply(rule, s) == pre + (Head(rule, s, q) + Sub(rule, s, Next(rule, s, q)))
  {
    pre := ReachedSuffix(rule, s, 0, q);
    SubStep(rule, s, q);
  }

  /** The output from a position the scan stops at ends the output from
      any earlier such position. */
  lemma {:induction false} ReachedSuffix(rule: Rule, s: string, p: nat, q: nat) returns (pre: string)
    requires p <= q <= |s| && Reached(rule, s, p, q)
    ensures Sub(rule, s, p) == pre + Sub(rule, s, q)
    decreases q - p
  {
    if p == q {
      pre := "";
    } else {
      var n := Next(rule, s, p);
      var rest := ReachedSuffix(rule, s, n, q);
      SubStep(rule, s, p);
      pre := Head(rule, s, p) + rest;
    }
  }

  lemma SliceCons(s: string, p: nat)
    requires p < |s|
    ensures s[p..] == [s[p]] + s[p + 1..]
  {
  }

  lemma ConsAssoc(x: string, c: char, y: string, a: string, z: string)
    requires x == [c] + y && y == a + z
    ensures x == ([c] + a) + z
  {
  }

  lemma SliceConsTo(s: string, p: nat, e: nat)
    requires p < e <= |s|
    ensures s[p..e] == [s[p]] + s[p + 1..e]
  {
  }

  lemma SliceSplit(s: string, p: nat, e: nat)
    requires p <= e <= |s|
    ensures s[p..] == s[p..e] + s[e..]
  {
  }
}
